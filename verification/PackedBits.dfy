/** Eight flags to a byte: the arithmetic of chk_isprime and set_isprime. */
module PackedBits {

  type Bytes = seq<bv8>

  function Mask(bitpos: nat): bv8
    requires bitpos < 8
  {
    1 << bitpos
  }

  predicate Marked(mem: Bytes, i: nat)
    requires i / 8 < |mem|
  {
    mem[i / 8] & Mask(i % 8) > 0
  }

  // The byte stored when flag i is set or cleared in the byte b.
  function Updated(b: bv8, i: nat, on: bool): bv8 {
    if on then b | Mask(i % 8) else b & !Mask(i % 8)
  }

  function WithFlag(mem: Bytes, i: nat, on: bool): Bytes
    requires i / 8 < |mem|
  {
    mem[i / 8 := Updated(mem[i / 8], i, on)]
  }

  lemma MaskTable(k: nat)
    requires k < 8
    ensures Mask(k) == if k == 0 then 1 else if k == 1 then 2 else if k == 2 then 4 else if k == 3 then 8
                       else if k == 4 then 16 else if k == 5 then 32 else if k == 6 then 64 else 128
  {
  }

  lemma UpdatedFlag(b: bv8, i: nat, k: nat, on: bool)
    ensures Updated(b, i, on) & Mask(k % 8) > 0 <==> if i % 8 == k % 8 then on else b & Mask(k % 8) > 0
  {
    hide Mask;
    MasksApart(b, i % 8, k % 8);
  }

  lemma MasksApart(b: bv8, i: nat, k: nat)
    requires i < 8 && k < 8
    ensures (b | Mask(i)) & Mask(k) > 0 <==> i == k || b & Mask(k) > 0
    ensures (b & !Mask(i)) & Mask(k) > 0 <==> i != k && b & Mask(k) > 0
  {
    MaskTable(i);
    MaskTable(k);
  }

  lemma ByteUpdate(b: bv8, c: bv8, i: nat, k: nat, on: bool)
    requires c == if i / 8 == k / 8 then Updated(b, i, on) else b
    ensures c & Mask(k % 8) > 0 <==> if k == i then on else b & Mask(k % 8) > 0
  {
    hide Mask, Updated;
    if i / 8 == k / 8 {
      UpdatedFlag(b, i, k, on);
      assert i == 8 * (i / 8) + i % 8 && k == 8 * (k / 8) + k % 8;
    }
  }

  // Setting or clearing flag i changes flag i and no other.
  lemma WithFlagMarks(mem: Bytes, i: nat, on: bool)
    requires i / 8 < |mem|
    ensures forall k: nat :: k / 8 < |mem| ==>
      (Marked(WithFlag(mem, i, on), k) <==> if k == i then on else Marked(mem, k))
  {
    forall k: nat | k / 8 < |mem|
      ensures Marked(WithFlag(mem, i, on), k) <==> if k == i then on else Marked(mem, k)
    {
      ByteUpdate(mem[k / 8], WithFlag(mem, i, on)[k / 8], i, k, on);
    }
  }
}
