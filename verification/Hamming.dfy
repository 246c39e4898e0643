/** The emulated SEC-DED memory of ecclib.c: a data byte and a code byte per address, the
    thirteen code positions pW p1 p2 d1 p3 d2 d3 d4 p4 d5 d6 d7 d8 numbered 0 .. 12. */
module Hamming {

  const MEM_SIZE := 1024
  const NO_ERROR := 0
  const PW_ERROR := -1
  const DOUBLE_BIT_ERROR := -3

  const PW_BIT: bv8 := 0x10
  const ENCODED_BIT: bv8 := 0x20
  const SYNBITS: bv8 := 0x0F

  datatype Cell = Cell(data: bv8, code: bv8)

  // The exclusive or of two bytes; proofs about its laws hide its bits.
  function Xor(x: bv8, y: bv8): bv8 { x ^ y }

  // ---------- ecclib.c on one cell ----------

  // Data bit d1 .. d8 of a byte, moved to the lowest place; a code byte keeps its check bits
  // p1 .. p4 in the first four of these places.
  function Bit(d: bv8, k: nat): bv8 {
    match k
    case 1 => d & 0x01 case 2 => (d & 0x02) >> 1 case 3 => (d & 0x04) >> 2 case 4 => (d & 0x08) >> 3
    case 5 => (d & 0x10) >> 4 case 6 => (d & 0x20) >> 5 case 7 => (d & 0x40) >> 6 case _ => (d & 0x80) >> 7
  }

  function Sum4(a: bv8, b: bv8, c: bv8, d: bv8): bv8 { Xor(Xor(a, b), Xor(c, d)) }

  // The check bits p1 .. p4 of a data byte.
  function CheckBits(d: bv8): bv8 {
    Packed(Xor(Sum4(Bit(d, 1), Bit(d, 2), Bit(d, 4), Bit(d, 5)), Bit(d, 7)),
           Xor(Sum4(Bit(d, 1), Bit(d, 3), Bit(d, 4), Bit(d, 6)), Bit(d, 7)),
           Sum4(Bit(d, 2), Bit(d, 3), Bit(d, 4), Bit(d, 8)),
           Sum4(Bit(d, 5), Bit(d, 6), Bit(d, 7), Bit(d, 8)))
  }

  function Packed(a: bv8, b: bv8, c: bv8, d: bv8): bv8 {
    (0x01 & a) | (0x02 & (b << 1)) | (0x04 & (c << 2)) | (0x08 & (d << 3))
  }

  // The overall parity of a data byte and the check bits of a code byte, at the place of pW.
  function ParityBit(d: bv8, c: bv8): bv8 {
    PW_BIT & (Xor(Xor(Sum4(Bit(d, 1), Bit(d, 2), Bit(d, 3), Bit(d, 4)),
                      Sum4(Bit(d, 5), Bit(d, 6), Bit(d, 7), Bit(d, 8))),
                  Sum4(Bit(c, 1), Bit(c, 2), Bit(c, 3), Bit(c, 4))) << 4)
  }

  function GetCodeword(d: bv8): bv8 {
    CheckBits(d) | ParityBit(d, CheckBits(d)) | ENCODED_BIT
  }

  // The four check bits of a code byte, and its overall parity.
  function Low(c: bv8): bv8 { c & SYNBITS }

  function Pw(c: bv8): bv8 { c & PW_BIT }

  function Syndrome(cell: Cell): bv8 {
    Xor(Low(GetCodeword(cell.data)), Low(cell.code))
  }

  // The stored overall parity against the one recomputed from the stored bits.
  predicate ParityDiffers(cell: Cell) {
    Pw(cell.code) != ParityBit(cell.data, cell.code)
  }

  function Written(b: bv8): Cell { Cell(b, GetCodeword(b)) }

  function ReadResult(cell: Cell): int {
    if Syndrome(cell) == 0 then (if ParityDiffers(cell) then PW_ERROR else NO_ERROR)
    else if ParityDiffers(cell) then Syndrome(cell) as int
    else DOUBLE_BIT_ERROR
  }

  function Repaired(c: bv8, pW2: bv8): bv8 { c | (pW2 & PW_BIT) }

  // A read changes memory only to repair pW, and it can only set it.
  function AfterRead(cell: Cell): Cell {
    if Syndrome(cell) == 0 && ParityDiffers(cell)
    then cell.(code := Repaired(cell.code, ParityBit(cell.data, cell.code)))
    else cell
  }

  // ecctest.c: the bit that position k occupies in the data byte or in the code byte;
  // positions above 12 are out of range and have none.
  function DataMask(k: nat): bv8 {
    match k
    case 3 => 0x01 case 5 => 0x02 case 6 => 0x04 case 7 => 0x08
    case 9 => 0x10 case 10 => 0x20 case 11 => 0x40 case 12 => 0x80
    case _ => 0
  }

  function CodeMask(k: nat): bv8 {
    match k
    case 0 => PW_BIT case 1 => 0x01 case 2 => 0x02 case 4 => 0x04 case 8 => 0x08
    case _ => 0
  }

  function Flipped(cell: Cell, k: nat): Cell {
    Cell(Xor(cell.data, DataMask(k)), Xor(cell.code, CodeMask(k)))
  }

  // ---------- linearity ----------

  // The number of a position as a bit pattern.
  function Number(k: nat): bv8 {
    match k
    case 0 => 0 case 1 => 1 case 2 => 2 case 3 => 3 case 4 => 4 case 5 => 5 case 6 => 6
    case 7 => 7 case 8 => 8 case 9 => 9 case 10 => 10 case 11 => 11 case 12 => 12
    case _ => 0
  }

  lemma NumberIsInjective(i: nat, j: nat)
    requires i <= 12 && j <= 12
    ensures Number(i) as int == i
    ensures Xor(Number(i), Number(j)) == 0 <==> i == j
  {
  }

  // Whether a byte has an odd number of ones.
  predicate Odd(x: bv8) {
    (x ^ (x >> 1) ^ (x >> 2) ^ (x >> 3) ^ (x >> 4) ^ (x >> 5) ^ (x >> 6) ^ (x >> 7)) & 1 == 1
  }

  // What the bits of a code byte say: each check bit makes the data bits it watches even,
  // pW makes all twelve others even, and the byte is marked as encoded.
  lemma CodewordBits(b: bv8)
    ensures var c := GetCodeword(b);
      && (c & 0x01 != 0 <==> Odd(b & 0x5B))
      && (c & 0x02 != 0 <==> Odd(b & 0x6D))
      && (c & 0x04 != 0 <==> Odd(b & 0x8E))
      && (c & 0x08 != 0 <==> Odd(b & 0xF0))
      && (c & 0x10 != 0 <==> Odd(b) != Odd(c & 0x0F))
      && c & 0xE0 == 0x20
  {
  }

  lemma WrittenIsClean(b: bv8)
    ensures Syndrome(Written(b)) == 0 && !ParityDiffers(Written(b))
  {
  }

  lemma XorLaws(x: bv8, y: bv8, n: bv8)
    ensures Xor(Xor(x, n), y) == Xor(Xor(x, y), n) == Xor(x, Xor(y, n))
    ensures Xor(x, 0) == x == Xor(0, x) && Xor(Xor(x, n), n) == x
  {
  }

  lemma XorPairs(w: bv8, x: bv8, y: bv8, z: bv8)
    ensures Xor(Xor(w, x), Xor(y, z)) == Xor(Xor(w, y), Xor(x, z))
  {
    hide Xor;
    XorLaws(w, Xor(y, z), x);
    XorLaws(w, y, z);
    XorLaws(Xor(w, y), x, z);
  }

  lemma MaskOfXor(x: bv8, y: bv8, mask: bv8)
    ensures Xor(x, y) & mask == Xor(x & mask, y & mask)
  {
  }

  lemma BitLinear(d: bv8, m: bv8, k: nat)
    ensures Bit(Xor(d, m), k) == Xor(Bit(d, k), Bit(m, k))
  {
    match k
    case 1 => case 2 => case 3 => case 4 => case 5 => case 6 => case 7 => case _ =>
  }

  lemma Sum4Linear(a: bv8, b: bv8, c: bv8, d: bv8, a': bv8, b': bv8, c': bv8, d': bv8)
    ensures Sum4(Xor(a, a'), Xor(b, b'), Xor(c, c'), Xor(d, d')) == Xor(Sum4(a, b, c, d), Sum4(a', b', c', d'))
  {
    hide Xor;
    XorPairs(a, a', b, b');
    XorPairs(c, c', d, d');
    XorPairs(Xor(a, b), Xor(a', b'), Xor(c, d), Xor(c', d'));
  }

  // Four bits of a byte, added.
  lemma BitsLinear(d: bv8, m: bv8, h: nat, i: nat, j: nat, k: nat)
    ensures Sum4(Bit(Xor(d, m), h), Bit(Xor(d, m), i), Bit(Xor(d, m), j), Bit(Xor(d, m), k)) ==
            Xor(Sum4(Bit(d, h), Bit(d, i), Bit(d, j), Bit(d, k)), Sum4(Bit(m, h), Bit(m, i), Bit(m, j), Bit(m, k)))
  {
    hide Xor, Bit, Sum4;
    BitLinear(d, m, h);
    BitLinear(d, m, i);
    BitLinear(d, m, j);
    BitLinear(d, m, k);
    Sum4Linear(Bit(d, h), Bit(d, i), Bit(d, j), Bit(d, k), Bit(m, h), Bit(m, i), Bit(m, j), Bit(m, k));
  }

  lemma PackedLinear(a: bv8, b: bv8, c: bv8, d: bv8, a': bv8, b': bv8, c': bv8, d': bv8)
    ensures Packed(Xor(a, a'), Xor(b, b'), Xor(c, c'), Xor(d, d')) == Xor(Packed(a, b, c, d), Packed(a', b', c', d'))
  {
  }

  // The check bits and the overall parity of a sum are the sums of those of its parts.
  lemma CheckBitsLinear(d: bv8, m: bv8)
    ensures CheckBits(Xor(d, m)) == Xor(CheckBits(d), CheckBits(m))
  {
    hide Xor, Bit, Sum4, Packed;
    var p1, p2 := Sum4(Bit(d, 1), Bit(d, 2), Bit(d, 4), Bit(d, 5)), Sum4(Bit(d, 1), Bit(d, 3), Bit(d, 4), Bit(d, 6));
    var q1, q2 := Sum4(Bit(m, 1), Bit(m, 2), Bit(m, 4), Bit(m, 5)), Sum4(Bit(m, 1), Bit(m, 3), Bit(m, 4), Bit(m, 6));
    BitLinear(d, m, 7);
    BitsLinear(d, m, 1, 2, 4, 5);
    XorPairs(p1, q1, Bit(d, 7), Bit(m, 7));
    BitsLinear(d, m, 1, 3, 4, 6);
    XorPairs(p2, q2, Bit(d, 7), Bit(m, 7));
    BitsLinear(d, m, 2, 3, 4, 8);
    BitsLinear(d, m, 5, 6, 7, 8);
    PackedLinear(Xor(p1, Bit(d, 7)), Xor(p2, Bit(d, 7)),
                 Sum4(Bit(d, 2), Bit(d, 3), Bit(d, 4), Bit(d, 8)), Sum4(Bit(d, 5), Bit(d, 6), Bit(d, 7), Bit(d, 8)),
                 Xor(q1, Bit(m, 7)), Xor(q2, Bit(m, 7)),
                 Sum4(Bit(m, 2), Bit(m, 3), Bit(m, 4), Bit(m, 8)), Sum4(Bit(m, 5), Bit(m, 6), Bit(m, 7), Bit(m, 8)));
  }

  lemma PlaceLinear(x: bv8, y: bv8)
    ensures PW_BIT & (Xor(x, y) << 4) == Xor(PW_BIT & (x << 4), PW_BIT & (y << 4))
  {
  }

  lemma ParityLinear(d: bv8, c: bv8, m: bv8, e: bv8)
    ensures ParityBit(Xor(d, m), Xor(c, e)) == Xor(ParityBit(d, c), ParityBit(m, e))
  {
    hide Xor, Bit, Sum4;
    var a, b, f := Sum4(Bit(d, 1), Bit(d, 2), Bit(d, 3), Bit(d, 4)), Sum4(Bit(d, 5), Bit(d, 6), Bit(d, 7), Bit(d, 8)),
      Sum4(Bit(c, 1), Bit(c, 2), Bit(c, 3), Bit(c, 4));
    var a', b', f' := Sum4(Bit(m, 1), Bit(m, 2), Bit(m, 3), Bit(m, 4)),
      Sum4(Bit(m, 5), Bit(m, 6), Bit(m, 7), Bit(m, 8)), Sum4(Bit(e, 1), Bit(e, 2), Bit(e, 3), Bit(e, 4));
    BitsLinear(d, m, 1, 2, 3, 4);
    BitsLinear(d, m, 5, 6, 7, 8);
    BitsLinear(c, e, 1, 2, 3, 4);
    XorPairs(a, a', b, b');
    XorPairs(Xor(a, b), Xor(a', b'), f, f');
    PlaceLinear(Xor(Xor(a, b), f), Xor(Xor(a', b'), f'));
  }

  // What the bit at position k contributes, whichever byte it is in.
  lemma MaskTable(k: nat)
    requires k <= 12
    ensures Xor(CheckBits(DataMask(k)), CodeMask(k) & SYNBITS) == Number(k)
    ensures Xor(ParityBit(DataMask(k), CodeMask(k)), CodeMask(k) & PW_BIT) == PW_BIT
  {
    match k
    case 0 => case 1 => case 2 => case 3 => case 4 => case 5 => case 6 =>
    case 7 => case 8 => case 9 => case 10 => case 11 => case 12 =>
  }

  lemma SyndromeShort(cell: Cell)
    ensures Syndrome(cell) == Xor(CheckBits(cell.data), cell.code & SYNBITS)
  {
  }

  // The overall parity differs exactly when the two sides do not cancel.
  lemma ParityShort(cell: Cell)
    ensures var x := Xor(ParityBit(cell.data, cell.code), cell.code & PW_BIT);
      (x == 0 || x == PW_BIT) && (ParityDiffers(cell) <==> x == PW_BIT)
  {
    PwValues(cell.data, cell.code);
    hide ParityBit;
  }

  lemma PwCancels(x: bv8)
    requires x == 0 || x == PW_BIT
    ensures Xor(x, PW_BIT) == PW_BIT <==> x != PW_BIT
  {
  }

  // What one flip does to the two things a read looks at.
  ghost predicate Adds(cell: Cell, after: Cell, n: bv8) {
    Syndrome(after) == Xor(Syndrome(cell), n) && (ParityDiffers(after) <==> !ParityDiffers(cell))
  }

  lemma FlipAddsPosition(cell: Cell, k: nat)
    requires k <= 12
    ensures Syndrome(Flipped(cell, k)) == Xor(Syndrome(cell), Number(k))
  {
    hide Xor, CheckBits, Syndrome, DataMask, CodeMask, Number;
    var d, c, m, e := cell.data, cell.code, DataMask(k), CodeMask(k);
    MaskTable(k);
    CheckBitsLinear(d, m);
    MaskOfXor(c, e, SYNBITS);
    XorPairs(CheckBits(d), CheckBits(m), c & SYNBITS, e & SYNBITS);
    SyndromeShort(cell);
    SyndromeShort(Flipped(cell, k));
  }

  lemma FlipInvertsParity(cell: Cell, k: nat)
    requires k <= 12
    ensures ParityDiffers(Flipped(cell, k)) <==> !ParityDiffers(cell)
  {
    hide Xor, ParityBit, ParityDiffers, DataMask, CodeMask;
    var d, c, m, e := cell.data, cell.code, DataMask(k), CodeMask(k);
    MaskTable(k);
    ParityLinear(d, c, m, e);
    MaskOfXor(c, e, PW_BIT);
    XorPairs(ParityBit(d, c), ParityBit(m, e), c & PW_BIT, e & PW_BIT);
    ParityShort(cell);
    ParityShort(Flipped(cell, k));
    PwCancels(Xor(ParityBit(d, c), c & PW_BIT));
  }

  // One flip adds its position to the syndrome and inverts the overall parity.
  lemma FlipIsLinear(cell: Cell, k: nat)
    requires k <= 12
    ensures Adds(cell, Flipped(cell, k), Number(k))
  {
    hide Xor, Syndrome, ParityDiffers, Flipped, Number;
    FlipAddsPosition(cell, k);
    FlipInvertsParity(cell, k);
  }

  lemma FlipUndoes(cell: Cell, k: nat)
    ensures Flipped(Flipped(cell, k), k) == cell
  {
    hide Xor, DataMask, CodeMask;
    XorLaws(cell.data, 0, DataMask(k));
    XorLaws(cell.code, 0, CodeMask(k));
  }

  // Flips at one cell, one after the other.
  function Flips(cell: Cell, fs: seq<nat>): Cell {
    if fs == [] then cell else Flipped(Flips(cell, fs[..|fs| - 1]), fs[|fs| - 1])
  }

  function XorAll(fs: seq<nat>): bv8 {
    if fs == [] then 0 else Xor(XorAll(fs[..|fs| - 1]), Number(fs[|fs| - 1]))
  }

  ghost predicate InRange(fs: seq<nat>) {
    forall i :: 0 <= i < |fs| ==> fs[i] <= 12
  }

  // After a write and any sequence of flips the syndrome is the sum of the positions and
  // the overall parity differs exactly after an odd number of flips.
  lemma {:induction false} FlipsAreLinear(b: bv8, fs: seq<nat>)
    requires InRange(fs)
    ensures Syndrome(Flips(Written(b), fs)) == XorAll(fs)
    ensures ParityDiffers(Flips(Written(b), fs)) <==> |fs| % 2 == 1
  {
    hide Xor, Flipped, Number, ParityDiffers, Syndrome;
    if fs == [] {
      WrittenIsClean(b);
    } else {
      FlipsAreLinear(b, fs[..|fs| - 1]);
      FlipIsLinear(Flips(Written(b), fs[..|fs| - 1]), fs[|fs| - 1]);
    }
  }

  // What a read reports after a write and flips, in terms of the flips alone; the code -4 of
  // an unknown error is never given.
  lemma ReportAfterFlips(b: bv8, fs: seq<nat>)
    requires InRange(fs)
    ensures var rc := ReadResult(Flips(Written(b), fs));
      && (rc == NO_ERROR <==> XorAll(fs) == 0 && |fs| % 2 == 0)
      && (rc == PW_ERROR <==> XorAll(fs) == 0 && |fs| % 2 == 1)
      && (rc == DOUBLE_BIT_ERROR <==> XorAll(fs) != 0 && |fs| % 2 == 0)
      && (rc == XorAll(fs) as int <==> (XorAll(fs) == 0) == (|fs| % 2 == 0))
      && rc != -4
  {
    hide Flipped, Number, ParityDiffers, Syndrome, XorAll;
    FlipsAreLinear(b, fs);
  }

  lemma XorAllShort(i: nat, j: nat)
    ensures XorAll([i]) == Number(i)
    ensures XorAll([i, j]) == Xor(Number(i), Number(j))
  {
    hide Xor, Number;
    assert [i][..0] == [] && [i, j][..1] == [i];
    XorLaws(Number(i), 0, 0);
  }

  // No false alarm; every single error is located and undone by flipping it back; every
  // double error is reported.
  lemma SingleAndDoubleErrors(b: bv8, i: nat, j: nat)
    requires i <= 12 && j <= 12 && i != j
    ensures ReadResult(Written(b)) == 0
    ensures ReadResult(Flipped(Written(b), i)) == if i == 0 then -1 else i
    ensures i > 0 ==> Flipped(AfterRead(Flipped(Written(b), i)), ReadResult(Flipped(Written(b), i))) == Written(b)
    ensures ReadResult(Flipped(Flipped(Written(b), i), j)) == -3
    ensures AfterRead(Flipped(Flipped(Written(b), i), j)) == Flipped(Flipped(Written(b), i), j)
  {
    var w := Written(b);
    WrittenIsClean(b);
    NumberIsInjective(i, j);
    NumberIsInjective(i, 0);
    NumberIsInjective(0, i);
    FlipIsLinear(w, i);
    FlipIsLinear(Flipped(w, i), j);
    FlipUndoes(w, i);
    XorLaws(Number(i), 0, 0);
    hide Xor, Flipped, Number, ParityDiffers, Syndrome, Written;
  }

  // Three flips of different positions are never taken for a clean byte, since an odd
  // number of flips always shows; a pattern goes unseen exactly when its positions add to
  // zero and it is even, which takes four of them.
  lemma UnseenPatterns(b: bv8, fs: seq<nat>)
    requires InRange(fs) && |fs| <= 3
    requires forall i, j :: 0 <= i < j < |fs| ==> fs[i] != fs[j]
    ensures ReadResult(Flips(Written(b), fs)) == NO_ERROR <==> fs == []
  {
    hide Xor, Number, Flips, ReadResult, Written;
    ReportAfterFlips(b, fs);
    if |fs| == 2 {
      assert fs == [fs[0], fs[1]];
      XorAllShort(fs[0], fs[1]);
      NumberIsInjective(fs[0], fs[1]);
    }
  }

  lemma FourFlipsUnseen(b: bv8)
    ensures ReadResult(Flips(Written(b), [0, 1, 2, 3])) == NO_ERROR
  {
    var fs: seq<nat> := [0, 1, 2, 3];
    assert fs[..3] == [0, 1, 2] && fs[..3][..2] == [0, 1] && fs[..3][..2][..1] == [0];
    XorAllShort(0, 1);
    assert XorAll(fs) == 0;
    ReportAfterFlips(b, fs);
  }

  // ---------- histories ----------

  datatype Op = Write(addr: nat, b: bv8) | Flip(addr: nat, k: nat) | Read(addr: nat)

  // One operation on the cell it addresses.
  function ApplyCell(cell: Cell, op: Op): Cell {
    match op
    case Write(_, b) => Written(b)
    case Flip(_, k) => Flipped(cell, k)
    case Read(_) => AfterRead(cell)
  }

  function Apply(mem: seq<Cell>, op: Op): seq<Cell> {
    if op.addr < |mem| then mem[op.addr := ApplyCell(mem[op.addr], op)] else mem
  }

  function Run(mem: seq<Cell>, ops: seq<Op>): seq<Cell> {
    if ops == [] then mem else Apply(Run(mem, ops[..|ops| - 1]), ops[|ops| - 1])
  }

  // The operations of a history that address a.
  function At(ops: seq<Op>, a: nat): seq<Op> {
    if ops == [] then []
    else At(ops[..|ops| - 1], a) + (if ops[|ops| - 1].addr == a then [ops[|ops| - 1]] else [])
  }

  function RunCell(cell: Cell, ops: seq<Op>): Cell {
    if ops == [] then cell else ApplyCell(RunCell(cell, ops[..|ops| - 1]), ops[|ops| - 1])
  }

  // Addresses do not interfere: what a cell holds depends on its own operations only.
  lemma {:induction false} NoInterference(mem: seq<Cell>, ops: seq<Op>, a: nat)
    requires a < |mem|
    ensures |Run(mem, ops)| == |mem| && Run(mem, ops)[a] == RunCell(mem[a], At(ops, a))
  {
    hide ApplyCell;
    if ops != [] {
      var before, op := ops[..|ops| - 1], ops[|ops| - 1];
      NoInterference(mem, before, a);
      if op.addr == a {
        assert At(ops, a)[..|At(ops, a)| - 1] == At(before, a);
      } else {
        assert At(ops, a) == At(before, a);
      }
    }
  }

  // A repair of pW by a read is a flip of position 0; any other read leaves the cell.
  lemma RepairIsFlip(cell: Cell)
    ensures AfterRead(cell) == if Repairs(cell) then Flipped(cell, 0) else cell
  {
  }

  // A read can set pW but not clear it.
  predicate Repairs(cell: Cell) {
    Syndrome(cell) == 0 && ParityDiffers(cell) && ParityBit(cell.data, cell.code) == PW_BIT
  }

  // The repair leaves the next read clean exactly when the recomputed parity is one.
  lemma RepairCleans(cell: Cell)
    requires ReadResult(cell) == PW_ERROR
    ensures ReadResult(AfterRead(cell)) == (if ParityBit(cell.data, cell.code) == PW_BIT then NO_ERROR else PW_ERROR)
  {
    RepairIsFlip(cell);
    FlipIsLinear(cell, 0);
    XorLaws(Syndrome(cell), 0, 0);
    PwValues(cell.data, cell.code);
    hide Flipped, Syndrome, ParityBit;
  }

  // A written zero whose pW has been set: the repair cannot clear it, and every read reports
  // it again.
  lemma RepairFails()
    ensures var cell := Flipped(Written(0), 0);
      ReadResult(cell) == PW_ERROR && AfterRead(cell) == cell && ReadResult(AfterRead(cell)) == PW_ERROR
  {
    var cell := Flipped(Written(0), 0);
    assert cell == Cell(0, 0x30);
  }

  lemma PwValues(d: bv8, c: bv8)
    ensures ParityBit(d, c) == 0 || ParityBit(d, c) == PW_BIT
  {
  }

  // A history of flips and reads after a write, as the flips it amounts to.
  function Amounts(cell: Cell, ops: seq<Op>): seq<nat> {
    if ops == [] then [] else
      var before := ops[..|ops| - 1];
      var rest := Amounts(cell, before);
      match ops[|ops| - 1]
      case Write(_, _) => []
      case Flip(_, k) => if k <= 12 then rest + [k] else rest
      case Read(_) => if Repairs(RunCell(cell, before)) then rest + [0] else rest
  }

  // The byte last written by a history, if it has written one.
  function LastWritten(ops: seq<Op>, start: bv8): bv8 {
    if ops == [] then start else
      match ops[|ops| - 1]
      case Write(_, b) => b
      case _ => LastWritten(ops[..|ops| - 1], start)
  }

  lemma OutOfRangeFlip(cell: Cell, k: nat)
    requires k > 12
    ensures Flipped(cell, k) == cell
  {
  }

  // Whatever happens to a byte after it is written, the cell is the written one with a
  // list of flips applied, repairs of pW included; so the report of the next read is the
  // one ReportAfterFlips gives for that list.
  lemma {:induction false} HistoryIsFlips(b: bv8, ops: seq<Op>)
    ensures var fs := Amounts(Written(b), ops);
      InRange(fs) && RunCell(Written(b), ops) == Flips(Written(LastWritten(ops, b)), fs)
  {
    if ops != [] {
      var before, op := ops[..|ops| - 1], ops[|ops| - 1];
      HistoryIsFlips(b, before);
      var cell := RunCell(Written(b), before);
      var fs := Amounts(Written(b), before);
      RepairIsFlip(cell);
      if op.Flip? && op.k > 12 {
        OutOfRangeFlip(cell, op.k);
      }
      hide Flipped, Repairs, AfterRead, Written;
      assert forall k: nat :: (fs + [k])[..|fs|] == fs;
    }
  }

  // ---------- the memory ----------

  class EccMemory {
    const data_memory: array<bv8>
    const code_memory: array<bv8>

    ghost predicate Valid() {
      data_memory.Length == MEM_SIZE && code_memory.Length == MEM_SIZE && data_memory != code_memory
    }

    ghost function Cells(): seq<Cell>
      requires Valid()
      reads data_memory, code_memory
    {
      seq(MEM_SIZE, i requires 0 <= i < MEM_SIZE && Valid() reads data_memory, code_memory =>
        Cell(data_memory[i], code_memory[i]))
    }

    constructor ()
      ensures Valid() && fresh(data_memory) && fresh(code_memory)
      ensures data_memory.Length == code_memory.Length == 1024
    {
      data_memory := new bv8[MEM_SIZE];
      code_memory := new bv8[MEM_SIZE];
    }

    // Clears every code byte and leaves the data.
    method EnableEccMemory()
      requires Valid()
      modifies code_memory
      ensures forall i :: 0 <= i < MEM_SIZE ==> Cells()[i] == Cell(old(Cells())[i].data, 0)
    {
      var idx := 0;
      while idx < MEM_SIZE
        invariant idx <= MEM_SIZE
        invariant forall i :: 0 <= i < idx ==> code_memory[i] == 0
      {
        code_memory[idx] := 0;
        idx := idx + 1;
      }
    }

    method WriteByte(offset: nat, byteToWrite: bv8) returns (rc: int)
      requires Valid() && offset < MEM_SIZE
      modifies data_memory, code_memory
      ensures rc == 0
      ensures data_memory[offset] == byteToWrite && code_memory[offset] == GetCodeword(byteToWrite)
      ensures Cells() == Apply(old(Cells()), Write(offset, byteToWrite))
    {
      hide GetCodeword;
      data_memory[offset] := byteToWrite;
      var codeword := GetCodeword(data_memory[offset]);
      code_memory[offset] := codeword;
      return NO_ERROR;
    }

    method ReadByte(offset: nat) returns (rc: int)
      requires Valid() && offset < MEM_SIZE
      modifies code_memory
      ensures rc == ReadResult(old(Cells())[offset])
      ensures Cells() == Apply(old(Cells()), Read(offset))
    {
      hide Xor, Low, Pw, ParityBit, GetCodeword, Syndrome, ParityDiffers, Repaired, ReadResult, AfterRead;
      ghost var cell := Cells()[offset];
      LooksAt(cell);
      var codeword := GetCodeword(data_memory[offset]);
      var syndrome := Xor(Low(codeword), Low(code_memory[offset]));
      var pW := Pw(code_memory[offset]);
      var pW2 := ParityBit(data_memory[offset], code_memory[offset]);
      assert cell == Cell(data_memory[offset], code_memory[offset]);
      if syndrome == 0 && pW == pW2 {
        return NO_ERROR;
      }
      if syndrome == 0 && pW != pW2 {
        code_memory[offset] := Repaired(code_memory[offset], pW2);
        return PW_ERROR;
      }
      if syndrome != 0 && pW == pW2 {
        return DOUBLE_BIT_ERROR;
      }
      return syndrome as int;
    }

    // The two things a read looks at, and what it makes of them.
    static lemma LooksAt(cell: Cell)
      ensures Xor(Low(GetCodeword(cell.data)), Low(cell.code)) == Syndrome(cell)
      ensures Pw(cell.code) != ParityBit(cell.data, cell.code) <==> ParityDiffers(cell)
      ensures Syndrome(cell) == 0 && !ParityDiffers(cell) ==> ReadResult(cell) == NO_ERROR
      ensures Syndrome(cell) == 0 && ParityDiffers(cell) ==> ReadResult(cell) == PW_ERROR
      ensures Syndrome(cell) != 0 && !ParityDiffers(cell) ==> ReadResult(cell) == DOUBLE_BIT_ERROR
      ensures Syndrome(cell) != 0 && ParityDiffers(cell) ==> ReadResult(cell) == Syndrome(cell) as int
      ensures AfterRead(cell) == if Syndrome(cell) == 0 && ParityDiffers(cell)
        then cell.(code := Repaired(cell.code, ParityBit(cell.data, cell.code))) else cell
    {
      hide Xor, ParityBit, GetCodeword, Repaired;
    }

    // Inverts one bit of the data byte or of the code byte, or none at all.
    method FlipBit(offset: nat, k: nat)
      requires Valid() && offset < MEM_SIZE
      modifies data_memory, code_memory
      ensures Cells() == Apply(old(Cells()), Flip(offset, k))
      ensures data_memory[..] == old(data_memory[..])[offset := old(data_memory[offset]) ^
        match k
        case 3 => 0x01 case 5 => 0x02 case 6 => 0x04 case 7 => 0x08
        case 9 => 0x10 case 10 => 0x20 case 11 => 0x40 case 12 => 0x80 case _ => 0]
      ensures code_memory[..] == old(code_memory[..])[offset := old(code_memory[offset]) ^
        match k case 0 => 0x10 case 1 => 0x01 case 2 => 0x02 case 4 => 0x04 case 8 => 0x08 case _ => 0]
    {
      hide Xor, DataMask, CodeMask, OneAt;
      MaskBits(data_memory[offset], code_memory[offset], k);
      FlipMasked(offset, k);
    }

    method FlipMasked(offset: nat, k: nat)
      requires Valid() && offset < MEM_SIZE
      modifies data_memory, code_memory
      ensures Cells() == Apply(old(Cells()), Flip(offset, k))
      ensures data_memory[..] == old(data_memory[..])[offset := Xor(old(data_memory[offset]), DataMask(k))]
      ensures code_memory[..] == old(code_memory[..])[offset := Xor(old(code_memory[offset]), CodeMask(k))]
    {
      hide Xor, Written, AfterRead, DataMask, CodeMask, OneAt;
      XorLaws(data_memory[offset], 0, 0);
      XorLaws(code_memory[offset], 0, 0);
      var found, data_flip, bit_to_flip := FindBit(k);
      if found && data_flip {
        data_memory[offset] := Xor(data_memory[offset], OneAt(bit_to_flip));
      } else if found {
        code_memory[offset] := Xor(code_memory[offset], OneAt(bit_to_flip));
      }
    }

    // The byte and the bit of position k, if it is in range.
    static method FindBit(k: nat) returns (found: bool, data_flip: bool, bit_to_flip: nat)
      ensures bit_to_flip < 8 && (found <==> k <= 12)
      ensures DataMask(k) == if found && data_flip then OneAt(bit_to_flip) else 0
      ensures CodeMask(k) == if found && !data_flip then OneAt(bit_to_flip) else 0
    {
      Shifted();
      hide OneAt;
      found, data_flip, bit_to_flip := true, true, 0;
      match k {
        case 0 => data_flip, bit_to_flip := false, 4;
        case 1 => data_flip, bit_to_flip := false, 0;
        case 2 => data_flip, bit_to_flip := false, 1;
        case 4 => data_flip, bit_to_flip := false, 2;
        case 8 => data_flip, bit_to_flip := false, 3;
        case 3 => bit_to_flip := 0;
        case 5 => bit_to_flip := 1;
        case 6 => bit_to_flip := 2;
        case 7 => bit_to_flip := 3;
        case 9 => bit_to_flip := 4;
        case 10 => bit_to_flip := 5;
        case 11 => bit_to_flip := 6;
        case 12 => bit_to_flip := 7;
        case _ => found := false;
      }
    }

    static function OneAt(bit: nat): bv8
      requires bit < 8
    {
      1 << bit
    }

    static lemma Shifted()
      ensures OneAt(0) == 0x01 && OneAt(1) == 0x02 && OneAt(2) == 0x04 && OneAt(3) == 0x08
      ensures OneAt(4) == 0x10 && OneAt(5) == 0x20 && OneAt(6) == 0x40 && OneAt(7) == 0x80
    {
    }

    // The masks, bit by bit.
    static lemma MaskBits(data: bv8, code: bv8, k: nat)
      ensures Xor(data, DataMask(k)) == data ^
        match k
        case 3 => 0x01 case 5 => 0x02 case 6 => 0x04 case 7 => 0x08
        case 9 => 0x10 case 10 => 0x20 case 11 => 0x40 case 12 => 0x80 case _ => 0
      ensures Xor(code, CodeMask(k)) == code ^
        match k case 0 => 0x10 case 1 => 0x01 case 2 => 0x02 case 4 => 0x04 case 8 => 0x08 case _ => 0
    {
    }
  }
}
