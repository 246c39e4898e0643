/** RAID striping of raidlib.c: a file is cut into stripes of four sectors, an exclusive-or
    sector is added to each, and the five columns go to five chunk files. */
module Raid {
  import opened Divisibility

  type Bytes = seq<bv8>

  const SECTOR := 512
  const STRIPE := 2048
  const CHUNKS := 5

  function Xor4(a: bv8, b: bv8, c: bv8, d: bv8): bv8 { a ^ b ^ c ^ d }

  // ---------- what the chunk files hold ----------

  // The input with zeros after its end.
  function Padded(input: Bytes, i: nat): bv8 {
    if i < |input| then input[i] else 0
  }

  // Byte j of sector k in chunk c; chunk 4 is the parity.
  function ChunkByte(input: Bytes, c: nat, k: nat, j: nat): bv8 {
    var at := k * STRIPE + j;
    if c < 4 then Padded(input, at + c * SECTOR)
    else Xor4(Padded(input, at), Padded(input, at + 512), Padded(input, at + 1024), Padded(input, at + 1536))
  }

  function Sector(input: Bytes, c: nat, k: nat): Bytes {
    seq(SECTOR, j requires 0 <= j < SECTOR => ChunkByte(input, c, k, j))
  }

  function Chunk(input: Bytes, c: nat, stripes: nat): (r: Bytes)
    ensures |r| == stripes * SECTOR
  {
    if stripes == 0 then [] else Chunk(input, c, stripes - 1) + Sector(input, c, stripes - 1)
  }

  // One stripe more than the full ones, also when the file ends on a stripe boundary.
  function StripeCount(length: nat): nat { length / STRIPE + 1 }

  lemma {:induction false} ChunkAt(input: Bytes, c: nat, stripes: nat, k: nat, j: nat)
    requires k < stripes && j < SECTOR
    ensures k * SECTOR + j < |Chunk(input, c, stripes)|
    ensures Chunk(input, c, stripes)[k * SECTOR + j] == ChunkByte(input, c, k, j)
    decreases stripes
  {
    if k < stripes - 1 {
      ChunkAt(input, c, stripes - 1, k, j);
    }
  }

  // Every stripe adds up to zero.
  lemma StripesAddToZero(input: Bytes, k: nat, j: nat)
    ensures ChunkByte(input, 0, k, j) ^ ChunkByte(input, 1, k, j) ^ ChunkByte(input, 2, k, j)
            ^ ChunkByte(input, 3, k, j) ^ ChunkByte(input, 4, k, j) == 0
  {
  }

  // At an exact multiple of the stripe size the extra stripe is all zeros.
  lemma ExtraStripeIsZero(input: Bytes, c: nat, j: nat)
    requires |input| % STRIPE == 0
    ensures ChunkByte(input, c, StripeCount(|input|) - 1, j) == 0
  {
    assert |input| == (|input| / STRIPE) * STRIPE;
  }

  // ---------- what a restore computes ----------

  // Byte j of sector k of chunk c, rebuilt from the other four when that chunk is missing.
  function RestoredByte(chunks: seq<Bytes>, missing: int, c: nat, at: nat): bv8
    requires |chunks| == CHUNKS && c < 4 && Available(chunks, missing, at + 1)
  {
    if c + 1 != missing then chunks[c][at]
    else if c == 0 then Xor4(chunks[1][at], chunks[2][at], chunks[3][at], chunks[4][at])
    else if c == 1 then Xor4(chunks[0][at], chunks[2][at], chunks[3][at], chunks[4][at])
    else if c == 2 then Xor4(chunks[0][at], chunks[1][at], chunks[3][at], chunks[4][at])
    else Xor4(chunks[0][at], chunks[1][at], chunks[2][at], chunks[4][at])
  }

  // Every chunk that is read holds at least n bytes.
  predicate Available(chunks: seq<Bytes>, missing: int, n: nat)
    requires |chunks| == CHUNKS
  {
    forall c :: 0 <= c < CHUNKS && c + 1 != missing ==> |chunks[c]| >= n
  }

  // Chunk files are sought by whole sectors: these are the bytes a restore needs.
  function Needed(length: nat): nat { ((length + STRIPE - 1) / STRIPE) * SECTOR }

  lemma WithinNeeded(length: nat, i: nat)
    requires i < length
    ensures i / STRIPE * SECTOR + i % SECTOR < Needed(length)
  {
    var k, n := i / STRIPE, (length + STRIPE - 1) / STRIPE;
    assert k < n;
    assert k * SECTOR + SECTOR <= n * SECTOR;
  }

  function Restored(chunks: seq<Bytes>, length: nat, missing: int): Bytes
    requires |chunks| == CHUNKS && Available(chunks, missing, Needed(length))
  {
    seq(length, i requires 0 <= i < length =>
      WithinNeeded(length, i);
      RestoredByte(chunks, missing, i % STRIPE / SECTOR, i / STRIPE * SECTOR + i % SECTOR))
  }

  // The five chunk files after striping: new contents in front, an older longer tail behind.
  ghost predicate Holds(chunks: seq<Bytes>, input: Bytes, missing: int) {
    && |chunks| == CHUNKS
    && forall c :: 0 <= c < CHUNKS && c + 1 != missing ==>
         Chunk(input, c, StripeCount(|input|)) <= chunks[c]
  }

  // Restoring after striping gives the file back, whichever single chunk is missing and
  // whatever its file or the tails of the others contain.
  lemma RoundTrip(input: Bytes, chunks: seq<Bytes>, missing: int)
    requires Holds(chunks, input, missing)
    ensures Available(chunks, missing, Needed(|input|))
    ensures Restored(chunks, |input|, missing) == input
  {
    NeededFits(|input|);
    forall i | 0 <= i < |input|
      ensures Restored(chunks, |input|, missing)[i] == input[i]
    {
      RoundTripByte(input, chunks, missing, i);
    }
  }

  lemma NeededFits(length: nat)
    ensures Needed(length) <= StripeCount(length) * SECTOR
  {
  }

  lemma Position(i: nat)
    ensures i == i / STRIPE * STRIPE + i % STRIPE / SECTOR * SECTOR + i % SECTOR
    ensures i % STRIPE / SECTOR < 4
  {
    var r := i % STRIPE;
    QuotientIs(i, SECTOR, 4 * (i / STRIPE) + r / SECTOR, r % SECTOR);
  }

  lemma RoundTripByte(input: Bytes, chunks: seq<Bytes>, missing: int, i: nat)
    requires Holds(chunks, input, missing) && i < |input|
    requires Available(chunks, missing, i / STRIPE * SECTOR + i % SECTOR + 1)
    ensures i % STRIPE / SECTOR < 4
    ensures RestoredByte(chunks, missing, i % STRIPE / SECTOR, i / STRIPE * SECTOR + i % SECTOR) == input[i]
  {
    var k, c, j := i / STRIPE, i % STRIPE / SECTOR, i % SECTOR;
    Position(i);
    assert k < StripeCount(|input|);
    SectorRebuilds(input, chunks, missing, k, c, j);
    assert ChunkByte(input, c, k, j) == input[i];
  }

  lemma SectorRebuilds(input: Bytes, chunks: seq<Bytes>, missing: int, k: nat, c: nat, j: nat)
    requires Holds(chunks, input, missing) && k < StripeCount(|input|) && c < 4 && j < SECTOR
    requires Available(chunks, missing, k * SECTOR + j + 1)
    ensures RestoredByte(chunks, missing, c, k * SECTOR + j) == ChunkByte(input, c, k, j)
  {
    var n := StripeCount(|input|);
    forall d | 0 <= d < CHUNKS && d + 1 != missing
      ensures chunks[d][k * SECTOR + j] == ChunkByte(input, d, k, j)
    {
      ChunkAt(input, d, n, k, j);
    }
    hide Xor4;
    if c + 1 == missing {
      ParityByte(input, k, j);
      XorRebuilds(ChunkByte(input, 0, k, j), ChunkByte(input, 1, k, j),
                  ChunkByte(input, 2, k, j), ChunkByte(input, 3, k, j));
      hide ChunkByte;
    }
  }

  lemma ParityByte(input: Bytes, k: nat, j: nat)
    ensures ChunkByte(input, 4, k, j) ==
      Xor4(ChunkByte(input, 0, k, j), ChunkByte(input, 1, k, j), ChunkByte(input, 2, k, j), ChunkByte(input, 3, k, j))
  {
    hide Xor4;
  }

  lemma XorRebuilds(a: bv8, b: bv8, c: bv8, d: bv8)
    ensures var p := Xor4(a, b, c, d);
      Xor4(b, c, d, p) == a && Xor4(a, c, d, p) == b && Xor4(a, b, d, p) == c && Xor4(a, b, c, p) == d
  {
  }

  // With two chunks gone there are files that no restore can tell apart: for any two lost
  // chunks, two different files of one stripe leave the other three the same.
  lemma TwoLossesLoseData(a: nat, b: nat) returns (x: Bytes, y: Bytes)
    requires a < b < CHUNKS
    ensures |x| == |y| == STRIPE && x != y
    ensures forall c, k: nat, j: nat :: 0 <= c < CHUNKS && c != a && c != b && j < SECTOR ==>
      ChunkByte(x, c, k, j) == ChunkByte(y, c, k, j)
  {
    x := seq(STRIPE, i => 0 as bv8);
    y := seq(STRIPE, i => if i == a * SECTOR || i == b * SECTOR then 1 as bv8 else 0);
    assert x[a * SECTOR] != y[a * SECTOR];
    forall c, k: nat, j: nat | 0 <= c < CHUNKS && c != a && c != b && j < SECTOR
      ensures ChunkByte(x, c, k, j) == ChunkByte(y, c, k, j)
    {
      if c < 4 {
        assert Padded(y, k * STRIPE + c * SECTOR + j) == 0;
      } else {
        SameParity(a, b, x, y, k, j);
      }
    }
  }

  lemma SameParity(a: nat, b: nat, x: Bytes, y: Bytes, k: nat, j: nat)
    requires a < b < 4 && |x| == |y| == STRIPE && j < SECTOR
    requires forall i :: 0 <= i < STRIPE ==> x[i] == 0
    requires forall i :: 0 <= i < STRIPE ==> y[i] == if i == a * SECTOR || i == b * SECTOR then 1 else 0
    ensures ChunkByte(x, 4, k, j) == ChunkByte(y, 4, k, j)
  {
    var at := k * STRIPE + j;
    assert forall d :: 0 <= d < 4 ==> Padded(x, at + d * SECTOR) == 0;
    assert forall d :: 0 <= d < 4 ==>
      Padded(y, at + d * SECTOR) == if at == 0 && (d == a || d == b) then 1 else 0;
    if at != 0 {
      assert ChunkByte(y, 4, k, j) == Xor4(0, 0, 0, 0);
    } else {
      TwoOnes(a, b);
      var z := (d: int) => if d == a || d == b then 1 as bv8 else 0;
      assert ChunkByte(y, 4, k, j) == Xor4(z(0), z(1), z(2), z(3));
    }
  }

  lemma TwoOnes(a: nat, b: nat)
    requires a < b < 4
    ensures var z := (d: int) => if d == a || d == b then 1 as bv8 else 0;
      Xor4(z(0), z(1), z(2), z(3)) == Xor4(0, 0, 0, 0)
  {
  }

  // ---------- the program ----------

  // The five chunk files of one run with their positions; opening keeps old contents.
  class Disk {
    var chunks: seq<Bytes>
    var pos: seq<nat>

    ghost predicate Valid()
      reads this
    {
      && |chunks| == CHUNKS && |pos| == CHUNKS
      && forall c :: 0 <= c < CHUNKS ==> pos[c] <= |chunks[c]|
    }

    constructor (chunks: seq<Bytes>)
      requires |chunks| == CHUNKS
      ensures Valid() && this.chunks == chunks && pos == [0, 0, 0, 0, 0]
    {
      this.chunks := chunks;
      pos := [0, 0, 0, 0, 0];
    }

    method Write(c: nat, data: Bytes)
      requires Valid() && c < CHUNKS
      modifies this
      ensures Valid()
      ensures chunks == old(chunks)[c := Overwritten(old(chunks[c]), old(pos[c]), data)]
      ensures pos == old(pos)[c := old(pos[c]) + |data|]
      ensures |chunks[c]| == if old(pos[c] + |data| < |chunks[c]|) then old(|chunks[c]|) else old(pos[c]) + |data|
      ensures forall i :: 0 <= i < |data| ==> chunks[c][old(pos[c]) + i] == data[i]
      ensures forall i :: 0 <= i < old(|chunks[c]|) && !(old(pos[c]) <= i < old(pos[c]) + |data|) ==>
        chunks[c][i] == old(chunks[c])[i]
    {
      chunks := chunks[c := Overwritten(chunks[c], pos[c], data)];
      pos := pos[c := pos[c] + |data|];
    }

    // A read of one sector into slot c of the stripe buffer.
    method Read(c: nat, stripe: array<bv8>)
      requires Valid() && c < CHUNKS && pos[c] + SECTOR <= |chunks[c]| && stripe.Length == CHUNKS * SECTOR
      modifies this`pos, stripe
      ensures Valid() && pos == old(pos)[c := old(pos[c]) + SECTOR]
      ensures Slot(stripe[..], c) == chunks[c][old(pos[c])..old(pos[c]) + SECTOR]
      ensures forall d :: 0 <= d < CHUNKS && d != c ==> Slot(stripe[..], d) == old(Slot(stripe[..], d))
    {
      var data, offset := chunks[c][pos[c]..pos[c] + SECTOR], c * SECTOR;
      forall i | offset <= i < offset + SECTOR {
        stripe[i] := data[i - offset];
      }
      pos := pos[c := pos[c] + SECTOR];
    }

    method ReadUnlessMissing(c: nat, stripe: array<bv8>, missing: int)
      requires Valid() && c < CHUNKS && stripe.Length == CHUNKS * SECTOR
      requires c + 1 != missing ==> pos[c] + SECTOR <= |chunks[c]|
      modifies this`pos, stripe
      ensures Valid() && pos == if c + 1 != missing then old(pos)[c := old(pos[c]) + SECTOR] else old(pos)
      ensures c + 1 != missing ==> Slot(stripe[..], c) == chunks[c][old(pos[c])..old(pos[c]) + SECTOR]
      ensures forall d :: 0 <= d < CHUNKS && d != c ==> Slot(stripe[..], d) == old(Slot(stripe[..], d))
    {
      if c + 1 != missing {
        Read(c, stripe);
      }
    }
  }

  // The five sectors of the stripe buffer.
  function Slot(stripe: Bytes, c: nat): (s: Bytes)
    requires |stripe| == CHUNKS * SECTOR && c < CHUNKS
    ensures |s| == SECTOR
  {
    stripe[c * SECTOR..c * SECTOR + SECTOR]
  }

  // A file after data has been written at a position inside it.
  function Overwritten(file: Bytes, pos: nat, data: Bytes): Bytes
    requires pos <= |file|
  {
    file[..pos] + data + (if pos + |data| < |file| then file[pos + |data|..] else [])
  }

  function XorSectors(a: Bytes, b: Bytes, c: Bytes, d: Bytes): Bytes
    requires |a| == |b| == |c| == |d| == SECTOR
  {
    seq(SECTOR, j requires 0 <= j < SECTOR => Xor4(a[j], b[j], c[j], d[j]))
  }

  // xorLBA and rebuildLBA: slot p becomes the exclusive or of four others, byte by byte.
  method XorLba(stripe: array<bv8>, a: nat, b: nat, c: nat, d: nat, p: nat)
    requires stripe.Length == CHUNKS * SECTOR
    requires a < CHUNKS && b < CHUNKS && c < CHUNKS && d < CHUNKS && p < CHUNKS
    requires p != a && p != b && p != c && p != d
    modifies stripe
    ensures Slot(stripe[..], p) ==
      old(XorSectors(Slot(stripe[..], a), Slot(stripe[..], b), Slot(stripe[..], c), Slot(stripe[..], d)))
    ensures forall e :: 0 <= e < CHUNKS && e != p ==> Slot(stripe[..], e) == old(Slot(stripe[..], e))
  {
    hide Xor4;
    ghost var start := stripe[..];
    ghost var sum := XorSectors(Slot(start, a), Slot(start, b), Slot(start, c), Slot(start, d));
    var idx := 0;
    while idx < SECTOR
      invariant idx <= SECTOR
      invariant stripe[..] == Patched(start, p, sum, idx)
    {
      PatchedElsewhere(start, p, sum, idx, a, idx);
      PatchedElsewhere(start, p, sum, idx, b, idx);
      PatchedElsewhere(start, p, sum, idx, c, idx);
      PatchedElsewhere(start, p, sum, idx, d, idx);
      PatchedNext(start, p, sum, idx);
      stripe[p * SECTOR + idx] := Xor4(stripe[..][a * SECTOR + idx], stripe[..][b * SECTOR + idx],
                                       stripe[..][c * SECTOR + idx], stripe[..][d * SECTOR + idx]);
      idx := idx + 1;
    }
    PatchedSlots(start, p, sum);
  }

  // The buffer with the first n bytes of slot p replaced.
  function Patched(s: Bytes, p: nat, data: Bytes, n: nat): (r: Bytes)
    requires |s| == CHUNKS * SECTOR && p < CHUNKS && |data| == SECTOR && n <= SECTOR
    ensures |r| == |s|
  {
    s[..p * SECTOR] + data[..n] + s[p * SECTOR + n..]
  }

  lemma PatchedElsewhere(s: Bytes, p: nat, data: Bytes, n: nat, a: nat, j: nat)
    requires |s| == CHUNKS * SECTOR && p < CHUNKS && a < CHUNKS && a != p
    requires |data| == SECTOR && n <= SECTOR && j < SECTOR
    ensures Patched(s, p, data, n)[a * SECTOR + j] == Slot(s, a)[j]
  {
  }

  lemma PatchedNext(s: Bytes, p: nat, data: Bytes, n: nat)
    requires |s| == CHUNKS * SECTOR && p < CHUNKS && |data| == SECTOR && n < SECTOR
    ensures Patched(s, p, data, n)[p * SECTOR + n := data[n]] == Patched(s, p, data, n + 1)
  {
  }

  lemma PatchedSlots(s: Bytes, p: nat, data: Bytes)
    requires |s| == CHUNKS * SECTOR && p < CHUNKS && |data| == SECTOR
    ensures Slot(Patched(s, p, data, SECTOR), p) == data
    ensures forall e :: 0 <= e < CHUNKS && e != p ==> Slot(Patched(s, p, data, SECTOR), e) == Slot(s, e)
  {
    forall e | 0 <= e < CHUNKS && e != p
      ensures Slot(Patched(s, p, data, SECTOR), e) == Slot(s, e)
    {
      forall j | 0 <= j < SECTOR
        ensures Slot(Patched(s, p, data, SECTOR), e)[j] == Slot(s, e)[j]
      {
        PatchedElsewhere(s, p, data, SECTOR, e, j);
      }
    }
  }

  // ---------- stripeFile ----------

  // Fills the data part of the buffer with the next bytes of the input, zeros at its end.
  method FillStripe(input: Bytes, rpos: nat, stripe: array<bv8>) returns (bread: nat)
    requires stripe.Length == CHUNKS * SECTOR && rpos <= |input|
    modifies stripe
    ensures bread == if |input| - rpos < STRIPE then |input| - rpos else STRIPE
    ensures forall i :: 0 <= i < STRIPE ==> stripe[i] == Padded(input, rpos + i)
  {
    bread := if |input| - rpos < STRIPE then |input| - rpos else STRIPE;
    forall i | 0 <= i < bread {
      stripe[i] := input[rpos + i];
    }
    if bread < STRIPE {
      forall i | bread <= i < STRIPE {
        stripe[i] := 0;
      }
    }
  }

  method WriteStripe(stripe: array<bv8>, disk: Disk)
    requires disk.Valid() && stripe.Length == CHUNKS * SECTOR
    modifies disk
    ensures disk.Valid()
    ensures forall c :: 0 <= c < CHUNKS ==>
      && disk.chunks[c] == Overwritten(old(disk.chunks[c]), old(disk.pos[c]), Slot(stripe[..], c))
      && disk.pos[c] == old(disk.pos[c]) + SECTOR
  {
    disk.Write(0, stripe[..512]);
    disk.Write(1, stripe[512..1024]);
    disk.Write(2, stripe[1024..1536]);
    disk.Write(3, stripe[1536..2048]);
    disk.Write(4, stripe[2048..2560]);
    assert stripe[..][0..512] == stripe[..512];
  }

  lemma OverwriteNext(file: Bytes, done: Bytes, more: Bytes)
    ensures |done| <= |Overwritten(file, 0, done)|
    ensures Overwritten(Overwritten(file, 0, done), |done|, more) == Overwritten(file, 0, done + more)
  {
  }

  // The buffer of stripe n holds the five sectors of the specification.
  lemma StripeIsSectors(input: Bytes, n: nat, stripe: Bytes)
    requires |stripe| == CHUNKS * SECTOR
    requires forall i :: 0 <= i < STRIPE ==> stripe[i] == Padded(input, n * STRIPE + i)
    requires Slot(stripe, 4) == XorSectors(Slot(stripe, 0), Slot(stripe, 1), Slot(stripe, 2), Slot(stripe, 3))
    ensures forall c :: 0 <= c < CHUNKS ==> Slot(stripe, c) == Sector(input, c, n)
  {
    hide Xor4;
    forall c | 0 <= c < 4
      ensures Slot(stripe, c) == Sector(input, c, n)
    {
      forall j | 0 <= j < SECTOR
        ensures Slot(stripe, c)[j] == Sector(input, c, n)[j]
      {
        assert stripe[c * SECTOR + j] == Padded(input, n * STRIPE + (c * SECTOR + j));
      }
    }
    forall j | 0 <= j < SECTOR
      ensures Slot(stripe, 4)[j] == Sector(input, 4, n)[j]
    {
      assert Slot(stripe, 0)[j] == Padded(input, n * STRIPE + j);
      assert Slot(stripe, 1)[j] == Padded(input, n * STRIPE + j + 512);
      assert Slot(stripe, 2)[j] == Padded(input, n * STRIPE + j + 1024);
      assert Slot(stripe, 3)[j] == Padded(input, n * STRIPE + j + 1536);
    }
  }

  ghost predicate Striped(files: seq<Bytes>, chunks: seq<Bytes>, input: Bytes, n: nat) {
    && |files| == |chunks| == CHUNKS
    && forall c :: 0 <= c < CHUNKS ==> chunks[c] == Overwritten(files[c], 0, Chunk(input, c, n))
  }

  lemma StripedNext(files: seq<Bytes>, before: seq<Bytes>, after: seq<Bytes>, input: Bytes, n: nat)
    requires Striped(files, before, input, n) && |after| == CHUNKS
    requires forall c :: 0 <= c < CHUNKS ==> n * SECTOR <= |before[c]|
    requires forall c :: 0 <= c < CHUNKS ==> after[c] == Overwritten(before[c], n * SECTOR, Sector(input, c, n))
    ensures Striped(files, after, input, n + 1)
  {
    forall c | 0 <= c < CHUNKS
      ensures after[c] == Overwritten(files[c], 0, Chunk(input, c, n + 1))
    {
      OverwriteNext(files[c], Chunk(input, c, n), Sector(input, c, n));
    }
  }

  method AddParity(stripe: array<bv8>, ghost input: Bytes, ghost n: nat)
    requires stripe.Length == CHUNKS * SECTOR
    requires forall i :: 0 <= i < STRIPE ==> stripe[i] == Padded(input, n * STRIPE + i)
    modifies stripe
    ensures forall c :: 0 <= c < CHUNKS ==> Slot(stripe[..], c) == Sector(input, c, n)
  {
    ghost var data := stripe[..];
    XorLba(stripe, 0, 1, 2, 3, 4);
    DataKept(data, stripe[..]);
    StripeIsSectors(input, n, stripe[..]);
  }

  method StripeFile(input: Bytes, disk: Disk) returns (byteCnt: nat)
    requires disk.Valid() && disk.pos == [0, 0, 0, 0, 0]
    modifies disk
    ensures byteCnt == |input|
    ensures disk.Valid() && Striped(old(disk.chunks), disk.chunks, input, StripeCount(|input|))
    ensures Columns(old(disk.chunks), disk.chunks, input)
  {
    var stripe := new bv8[CHUNKS * SECTOR];
    var rpos, feof := 0, false;
    byteCnt := 0;
    ghost var n := 0;
    while !feof
      invariant disk.Valid() && Striped(old(disk.chunks), disk.chunks, input, n)
      invariant forall c :: 0 <= c < CHUNKS ==> disk.pos[c] == n * SECTOR
      invariant byteCnt == rpos <= |input|
      invariant if feof then rpos == |input| && n == StripeCount(|input|) else rpos == n * STRIPE
      decreases |input| - rpos, !feof
    {
      var bread := FillStripe(input, rpos, stripe);
      feof := bread < STRIPE;
      if bread < STRIPE {
        byteCnt := byteCnt + bread;
      } else {
        byteCnt := byteCnt + STRIPE;
      }
      AddParity(stripe, input, n);
      ghost var before := disk.chunks;
      WriteStripe(stripe, disk);
      hide Striped, Overwritten, Sector, Padded;
      StripedNext(old(disk.chunks), before, disk.chunks, input, n);
      rpos := rpos + bread;
      n := n + 1;
    }
    StripedIsColumns(old(disk.chunks), disk.chunks, input);
  }

  // The chunk files byte by byte: in front one sector for every stripe, of which there is one
  // more than the full ones, with the bytes of the file in turn, zeros after them, and the
  // exclusive or of the four columns in the fifth; behind it what the file held before.
  ghost predicate Columns(files: seq<Bytes>, chunks: seq<Bytes>, input: Bytes) {
    var n := (|input| / 2048 + 1) * 512;
    && |files| == |chunks| == 5
    && (forall c :: 0 <= c < 5 ==> |chunks[c]| == if n < |files[c]| then |files[c]| else n)
    && (forall c, i :: 0 <= c < 5 && n <= i < |files[c]| ==> chunks[c][i] == files[c][i])
    && (forall c, i :: 0 <= c < 4 && 0 <= i < n ==>
          var at := i / 512 * 2048 + c * 512 + i % 512;
          chunks[c][i] == if at < |input| then input[at] else 0)
    && (forall i :: 0 <= i < n ==> chunks[4][i] == chunks[0][i] ^ chunks[1][i] ^ chunks[2][i] ^ chunks[3][i])
  }

  lemma StripedIsColumns(files: seq<Bytes>, chunks: seq<Bytes>, input: Bytes)
    requires Striped(files, chunks, input, StripeCount(|input|))
    ensures Columns(files, chunks, input)
  {
    var n := (|input| / 2048 + 1) * 512;
    forall c, i | 0 <= c < 5 && 0 <= i < n
      ensures chunks[c][i] == ChunkByte(input, c, i / 512, i % 512)
    {
      ChunkAt(input, c, StripeCount(|input|), i / 512, i % 512);
    }
    forall i | 0 <= i < n
      ensures chunks[4][i] == chunks[0][i] ^ chunks[1][i] ^ chunks[2][i] ^ chunks[3][i]
    {
      ParityByte(input, i / 512, i % 512);
      assert forall c :: 0 <= c < 5 ==> chunks[c][i] == ChunkByte(input, c, i / 512, i % 512);
      hide ChunkByte;
    }
  }

  lemma DataKept(s: Bytes, t: Bytes)
    requires |s| == |t| == CHUNKS * SECTOR
    requires forall e :: 0 <= e < CHUNKS && e != 4 ==> Slot(t, e) == Slot(s, e)
    ensures forall i :: 0 <= i < STRIPE ==> t[i] == s[i]
  {
    forall i | 0 <= i < STRIPE
      ensures t[i] == s[i]
    {
      var e, j := i / SECTOR, i % SECTOR;
      assert Slot(t, e)[j] == t[i] && Slot(s, e)[j] == s[i];
    }
  }

  // Striping leaves what a restore needs, whatever was in the chunk files before.
  lemma StripedHolds(files: seq<Bytes>, chunks: seq<Bytes>, input: Bytes, missing: int)
    requires Striped(files, chunks, input, StripeCount(|input|))
    ensures Holds(chunks, input, missing)
  {
  }

  // ---------- restoreFile ----------

  // Reads the sectors of the chunks that are there into their slots.
  method ReadStripe(disk: Disk, stripe: array<bv8>, missing: int)
    requires disk.Valid() && stripe.Length == CHUNKS * SECTOR
    requires forall c :: 0 <= c < CHUNKS && c + 1 != missing ==> disk.pos[c] + SECTOR <= |disk.chunks[c]|
    modifies disk`pos, stripe
    ensures disk.Valid()
    ensures forall c :: 0 <= c < CHUNKS && c + 1 != missing ==>
      && Slot(stripe[..], c) == disk.chunks[c][old(disk.pos[c])..old(disk.pos[c]) + SECTOR]
      && disk.pos[c] == old(disk.pos[c]) + SECTOR
  {
    hide Slot;
    disk.ReadUnlessMissing(0, stripe, missing);
    disk.ReadUnlessMissing(1, stripe, missing);
    disk.ReadUnlessMissing(2, stripe, missing);
    disk.ReadUnlessMissing(3, stripe, missing);
    disk.ReadUnlessMissing(4, stripe, missing);
  }

  method Rebuild(stripe: array<bv8>, missing: int)
    requires stripe.Length == CHUNKS * SECTOR
    modifies stripe
    ensures forall c :: 0 <= c < 4 ==>
      Slot(stripe[..], c) == RebuiltSector(old(stripe[..]), missing, c)
  {
    if missing == 1 { XorLba(stripe, 1, 2, 3, 4, 0); }
    if missing == 2 { XorLba(stripe, 0, 2, 3, 4, 1); }
    if missing == 3 { XorLba(stripe, 0, 1, 3, 4, 2); }
    if missing == 4 { XorLba(stripe, 0, 1, 2, 4, 3); }
    if missing == 5 { XorLba(stripe, 0, 1, 2, 3, 4); }
  }

  function RebuiltSector(stripe: Bytes, missing: int, c: nat): Bytes
    requires |stripe| == CHUNKS * SECTOR && c < 4
  {
    if c + 1 != missing then Slot(stripe, c)
    else if c == 0 then XorSectors(Slot(stripe, 1), Slot(stripe, 2), Slot(stripe, 3), Slot(stripe, 4))
    else if c == 1 then XorSectors(Slot(stripe, 0), Slot(stripe, 2), Slot(stripe, 3), Slot(stripe, 4))
    else if c == 2 then XorSectors(Slot(stripe, 0), Slot(stripe, 1), Slot(stripe, 3), Slot(stripe, 4))
    else XorSectors(Slot(stripe, 0), Slot(stripe, 1), Slot(stripe, 2), Slot(stripe, 4))
  }

  // One stripe of the restored file from the buffer; the missing slot's old bytes play no part.
  lemma StripeRestored(chunks: seq<Bytes>, length: nat, missing: int, n: nat, read: Bytes, stripe: Bytes, i: nat)
    requires |chunks| == CHUNKS && Available(chunks, missing, Needed(length))
    requires |read| == |stripe| == CHUNKS * SECTOR && i < STRIPE && n * STRIPE + i < length
    requires forall c :: 0 <= c < CHUNKS && c + 1 != missing ==>
      n * SECTOR + SECTOR <= |chunks[c]| && Slot(read, c) == chunks[c][n * SECTOR..n * SECTOR + SECTOR]
    requires forall c :: 0 <= c < 4 ==> Slot(stripe, c) == RebuiltSector(read, missing, c)
    ensures stripe[i] == Restored(chunks, length, missing)[n * STRIPE + i]
  {
    var at, c, j := n * STRIPE + i, i / SECTOR, i % SECTOR;
    StripePosition(n, i);
    WithinNeeded(length, at);
    assert stripe[i] == Slot(stripe, c)[j];
    SectorRestored(chunks, missing, n, read, c, j);
  }

  lemma StripePosition(n: nat, i: nat)
    requires i < STRIPE
    ensures var at := n * STRIPE + i; at / STRIPE == n && at % STRIPE == i && at % SECTOR == i % SECTOR
    ensures i == i / SECTOR * SECTOR + i % SECTOR && i / SECTOR < 4
  {
    QuotientIs(n * STRIPE + i, STRIPE, n, i);
    QuotientIs(n * STRIPE + i, SECTOR, 4 * n + i / SECTOR, i % SECTOR);
  }

  lemma SectorRestored(chunks: seq<Bytes>, missing: int, n: nat, read: Bytes, c: nat, j: nat)
    requires |chunks| == CHUNKS && |read| == CHUNKS * SECTOR && c < 4 && j < SECTOR
    requires forall c :: 0 <= c < CHUNKS && c + 1 != missing ==>
      n * SECTOR + SECTOR <= |chunks[c]| && Slot(read, c) == chunks[c][n * SECTOR..n * SECTOR + SECTOR]
    ensures RebuiltSector(read, missing, c)[j] == RestoredByte(chunks, missing, c, n * SECTOR + j)
  {
    hide Xor4;
    forall d | 0 <= d < CHUNKS && d + 1 != missing
      ensures Slot(read, d)[j] == chunks[d][n * SECTOR + j]
    {
    }
    hide Slot;
  }

  method RestoreFile(disk: Disk, fileLength: nat, missing: int) returns (output: Bytes)
    requires disk.Valid() && disk.pos == [0, 0, 0, 0, 0]
    requires forall c :: 0 <= c < 5 && c + 1 != missing ==> |disk.chunks[c]| >= (fileLength + 2047) / 2048 * 512
    modifies disk`pos
    ensures output == Restored(disk.chunks, fileLength, missing)
    ensures |output| == fileLength && Joined(disk.chunks, missing, output)
  {
    var stripe := new bv8[CHUNKS * SECTOR];
    var stripeCnt, lastStripeBytes := fileLength / STRIPE, fileLength % STRIPE;
    ghost var result := Restored(disk.chunks, fileLength, missing);
    output := [];
    var idx := 0;
    while idx < stripeCnt
      invariant idx <= stripeCnt && disk.Valid()
      invariant forall c :: 0 <= c < CHUNKS && c + 1 != missing ==> disk.pos[c] == idx * SECTOR
      invariant |output| == idx * STRIPE <= fileLength && output == result[..idx * STRIPE]
    {
      RestoreStripe(disk, stripe, fileLength, missing, idx);
      output := output + stripe[..STRIPE];
      idx := idx + 1;
    }
    if lastStripeBytes > 0 {
      RestoreStripe(disk, stripe, fileLength, missing, idx);
      output := output + stripe[..lastStripeBytes];
    }
    RestoredIsJoined(disk.chunks, fileLength, missing);
    hide Joined;
  }

  lemma Rotated(x: bv8, y: bv8, z: bv8, p: bv8)
    ensures Xor4(x, y, z, p) == Xor4(y, z, x, p) == Xor4(z, x, y, p)
  {
  }

  // The bytes of the output are those of the four columns in turn; those of a missing column
  // are the exclusive or of the other four.
  ghost predicate Joined(chunks: seq<Bytes>, missing: int, output: Bytes)
    requires |chunks| == 5 && Available(chunks, missing, Needed(|output|))
  {
    forall i :: 0 <= i < |output| ==> (
      WithinNeeded(|output|, i);
      var c, at := i % 2048 / 512, i / 2048 * 512 + i % 512;
      output[i] == if c + 1 != missing then chunks[c][at]
        else Xor4(chunks[(c + 1) % 4][at], chunks[(c + 2) % 4][at], chunks[(c + 3) % 4][at], chunks[4][at]))
  }

  lemma RestoredIsJoined(chunks: seq<Bytes>, length: nat, missing: int)
    requires |chunks| == 5 && Available(chunks, missing, Needed(length))
    ensures |Restored(chunks, length, missing)| == length
    ensures Joined(chunks, missing, Restored(chunks, length, missing))
  {
    hide Xor4;
    var output := Restored(chunks, length, missing);
    forall i | 0 <= i < length
      ensures i / 2048 * 512 + i % 512 < Needed(length)
      ensures var c, at := i % 2048 / 512, i / 2048 * 512 + i % 512;
        output[i] == if c + 1 != missing then chunks[c][at]
          else Xor4(chunks[(c + 1) % 4][at], chunks[(c + 2) % 4][at], chunks[(c + 3) % 4][at], chunks[4][at])
    {
      WithinNeeded(length, i);
      var c, at := i % 2048 / 512, i / 2048 * 512 + i % 512;
      if c + 1 == missing {
        RebuiltByte(chunks, missing, c, at);
      }
    }
  }

  lemma RebuiltByte(chunks: seq<Bytes>, missing: int, c: nat, at: nat)
    requires |chunks| == 5 && c < 4 && c + 1 == missing && Available(chunks, missing, at + 1)
    ensures RestoredByte(chunks, missing, c, at) ==
      Xor4(chunks[(c + 1) % 4][at], chunks[(c + 2) % 4][at], chunks[(c + 3) % 4][at], chunks[4][at])
  {
    hide Xor4;
    Rotated(chunks[(c + 1) % 4][at], chunks[(c + 2) % 4][at], chunks[(c + 3) % 4][at], chunks[4][at]);
  }

  // One turn of the loop, full or partial: read, rebuild, and the bytes to write are there.
  method RestoreStripe(disk: Disk, stripe: array<bv8>, length: nat, missing: int, n: nat)
    requires disk.Valid() && stripe.Length == CHUNKS * SECTOR && n * STRIPE < length
    requires Available(disk.chunks, missing, Needed(length))
    requires forall c :: 0 <= c < CHUNKS && c + 1 != missing ==> disk.pos[c] == n * SECTOR
    modifies disk`pos, stripe
    ensures disk.Valid()
    ensures forall c :: 0 <= c < CHUNKS && c + 1 != missing ==> disk.pos[c] == n * SECTOR + SECTOR
    ensures forall i :: 0 <= i < STRIPE && n * STRIPE + i < length ==>
      stripe[i] == Restored(disk.chunks, length, missing)[n * STRIPE + i]
  {
    SectorNeeded(length, n);
    ReadStripe(disk, stripe, missing);
    ghost var read := stripe[..];
    Rebuild(stripe, missing);
    forall i | 0 <= i < STRIPE && n * STRIPE + i < length
      ensures stripe[i] == Restored(disk.chunks, length, missing)[n * STRIPE + i]
    {
      StripeRestored(disk.chunks, length, missing, n, read, stripe[..], i);
    }
  }

  lemma SectorNeeded(length: nat, n: nat)
    requires n * STRIPE < length
    ensures n * SECTOR + SECTOR <= Needed(length)
  {
    assert n + 1 <= (length + STRIPE - 1) / STRIPE;
  }

  // The whole program: stripe, lose any one chunk file, restore.
  method StripeAndRestore(input: Bytes, files: seq<Bytes>, missing: int, lost: Bytes) returns (output: Bytes)
    requires |files| == CHUNKS
    ensures output == input
  {
    var disk := new Disk(files);
    var bytesWritten := StripeFile(input, disk);
    var chunks := disk.chunks;
    StripedHolds(files, chunks, input, missing);
    if 1 <= missing <= CHUNKS {
      chunks := chunks[missing - 1 := lost];
    }
    RoundTrip(input, chunks, missing);
    var again := new Disk(chunks);
    output := RestoreFile(again, bytesWritten, missing);
  }
}
