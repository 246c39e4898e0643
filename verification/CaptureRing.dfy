/** capturelib.c: the ring of saved frames that one service fills and another one samples,
    five frames a step. Its size may be smaller than that stride, so it is no queue; what it
    does deliver is proved for every interleaving. */
module CaptureRing {
  import opened Divisibility

  type Frame = seq<bv8>

  // The count may become negative when more is processed than was read.
  datatype Ring = Ring(tail: nat, head: nat, count: int, slots: seq<Frame>)

  function Read(r: Ring, f: Frame): Ring
    requires r.tail < |r.slots|
  {
    Ring((r.tail + 1) % |r.slots|, r.head, r.count + 1, r.slots[r.tail := f])
  }

  // The slot a process step samples, and the ring after it.
  function Sampled(r: Ring): nat
    requires |r.slots| > 0
  {
    (r.head + 2) % |r.slots|
  }

  function Process(r: Ring): Ring
    requires |r.slots| > 0
  {
    r.(head := (Sampled(r) + 3) % |r.slots|, count := r.count - 5)
  }

  // ---------- what the slots hold ----------

  lemma ModAdd(a: int, b: int, p: nat)
    requires p > 0
    ensures (a % p + b) % p == (a + b) % p
  {
    var q, r := (a + b) / p, (a + b) % p;
    assert a == a / p * p + a % p;
    assert a + b == q * p + r;
    assert a % p + b == (q - a / p) * p + r by {
      assert (q - a / p) * p == q * p - a / p * p;
    }
    QuotientIs(a % p + b, p, q - a / p, r);
  }

  // The last of n frames whose place in the ring is slot j; negative if there is none.
  function Latest(n: nat, j: nat, size: nat): int
    requires size > 0
  {
    n - 1 - (n - 1 - j) % size
  }

  ghost predicate IsLatest(k: int, n: nat, j: nat, size: nat)
    requires size > 0
  {
    k < n && k % size == j && k + size >= n
  }

  lemma LatestIsLatest(n: nat, j: nat, size: nat)
    requires j < size
    ensures IsLatest(Latest(n, j, size), n, j, size)
  {
    var k := Latest(n, j, size);
    var d := n - 1 - j;
    assert d == d / size * size + d % size;
    assert k == d / size * size + j;
    QuotientIs(k, size, d / size, j);
  }

  lemma LatestUnique(k: int, k': int, n: nat, j: nat, size: nat)
    requires size > 0 && IsLatest(k, n, j, size) && IsLatest(k', n, j, size)
    ensures k == k'
  {
    assert k == k / size * size + j && k' == k' / size * size + j;
    var x := k / size - k' / size;
    assert k - k' == x * size;
    if x >= 1 {
      MulLe(1, x, size);
    } else if x <= -1 {
      MulLe(x, -1, size);
    }
  }

  ghost predicate SlotHolds(r: Ring, read: seq<Frame>, j: nat) {
    j < |r.slots| && (Latest(|read|, j, |r.slots|) >= 0 ==> r.slots[j] == read[Latest(|read|, j, |r.slots|)])
  }

  // After the frames read and m process steps, in whatever order they came.
  ghost predicate Inv(r: Ring, read: seq<Frame>, m: nat) {
    && |r.slots| > 0
    && r.tail == |read| % |r.slots|
    && r.head == (5 * m) % |r.slots|
    && r.count == |read| - 5 * m
    && forall j :: 0 <= j < |r.slots| ==> SlotHolds(r, read, j)
  }

  lemma InvInit(slots: seq<Frame>)
    requires |slots| > 0
    ensures Inv(Ring(0, 0, 0, slots), [], 0)
  {
    var r := Ring(0, 0, 0, slots);
    forall j | 0 <= j < |slots| ensures SlotHolds(r, [], j) {
      LatestIsLatest(0, j, |slots|);
    }
  }

  lemma ReadSlot(r: Ring, read: seq<Frame>, f: Frame, j: nat)
    requires r.tail < |r.slots| && r.tail == |read| % |r.slots| && SlotHolds(r, read, j)
    ensures SlotHolds(Read(r, f), read + [f], j)
  {
    var n, size := |read|, |r.slots|;
    LatestIsLatest(n, j, size);
    LatestIsLatest(n + 1, j, size);
    if j == r.tail {
      assert IsLatest(n, n + 1, j, size);
      LatestUnique(n, Latest(n + 1, j, size), n + 1, j, size);
    } else {
      var k := Latest(n + 1, j, size);
      assert k != n;
      assert k + size >= n;
      LatestUnique(k, Latest(n, j, size), n, j, size);
    }
  }

  lemma InvRead(r: Ring, read: seq<Frame>, m: nat, f: Frame)
    requires Inv(r, read, m)
    ensures Inv(Read(r, f), read + [f], m)
  {
    hide SlotHolds;
    ModAdd(|read|, 1, |r.slots|);
    forall j | 0 <= j < |r.slots| ensures SlotHolds(Read(r, f), read + [f], j) {
      ReadSlot(r, read, f, j);
    }
  }

  lemma InvProcess(r: Ring, read: seq<Frame>, m: nat)
    requires Inv(r, read, m)
    ensures Inv(Process(r), read, m + 1)
    ensures Sampled(r) == (5 * m + 2) % |r.slots|
  {
    ModAdd(5 * m, 2, |r.slots|);
    ModAdd(5 * m + 2, 3, |r.slots|);
    forall j | 0 <= j < |r.slots| ensures SlotHolds(Process(r), read, j) {
      assert SlotHolds(r, read, j);
    }
  }

  // Head, count and tail agree, whichever way reads and process steps interleave.
  lemma CountLinks(r: Ring, read: seq<Frame>, m: nat)
    requires Inv(r, read, m)
    ensures (r.head + r.count) % |r.slots| == r.tail
  {
    ModAdd(5 * m, |read| - 5 * m, |r.slots|);
  }

  // A process step converts the latest frame in the slot of frame 5m + 2, and that is
  // frame 5m + 2 itself, the middle one of its five, exactly if this frame has been read
  // and not overwritten yet.
  lemma ProcessConverts(r: Ring, read: seq<Frame>, m: nat)
    requires Inv(r, read, m) && Sampled(r) < |read|
    ensures var k := Latest(|read|, Sampled(r), |r.slots|);
      && 0 <= k < |read| && r.slots[Sampled(r)] == read[k]
      && (k == 5 * m + 2 <==> 5 * m + 2 < |read| <= 5 * m + 2 + |r.slots|)
  {
    var j, n, size := Sampled(r), |read|, |r.slots|;
    InvProcess(r, read, m);
    LatestIsLatest(n, j, size);
    assert SlotHolds(r, read, j);
    NotNegative(n, j, size);
    if 5 * m + 2 < n <= 5 * m + 2 + size {
      LatestUnique(5 * m + 2, Latest(n, j, size), n, j, size);
    }
  }

  // In a ring of three slots the first sample after six reads is the last frame read, for
  // the one a queue would give has been overwritten.
  lemma SampleSkips(r: Ring, read: seq<Frame>)
    requires Inv(r, read, 0) && |r.slots| == 3 && |read| == 6
    ensures Latest(6, Sampled(r), 3) == 5 && r.slots[Sampled(r)] == read[5]
  {
    InvProcess(r, read, 0);
    ProcessConverts(r, read, 0);
  }

  lemma NotNegative(n: nat, j: nat, size: nat)
    requires j < size && j < n
    ensures Latest(n, j, size) >= 0
  {
    var d := n - 1 - j;
    assert d == size * (d / size) + d % size;
    assert d / size >= 0;
    assert size * (d / size) >= 0;
  }

  // The ring updated in place.
  class RingBuffer {
    var tail_idx: nat
    var head_idx: nat
    var count: int
    const save_frame: array<Frame>

    ghost predicate Valid()
      reads this
    {
      tail_idx < save_frame.Length && head_idx < save_frame.Length
    }

    ghost function View(): Ring
      reads this, save_frame
    {
      Ring(tail_idx, head_idx, count, save_frame[..])
    }

    // Three slots for each frame per second the program is compiled for.
    constructor (framesPerSec: nat)
      requires framesPerSec > 0
      ensures Valid() && fresh(save_frame)
      ensures View() == Ring(0, 0, 0, save_frame[..]) && save_frame.Length == 3 * framesPerSec
    {
      save_frame := new Frame[3 * framesPerSec](_ => []);
      tail_idx, head_idx, count := 0, 0, 0;
    }

    method SeqFrameRead(f: Frame)
      requires Valid()
      modifies this, save_frame
      ensures Valid() && View() == Read(old(View()), f)
    {
      save_frame[tail_idx] := f;
      tail_idx := (tail_idx + 1) % save_frame.Length;
      count := count + 1;
    }

    // Returns the frame handed to process_image.
    method SeqFrameProcess() returns (sample: Frame)
      requires Valid()
      modifies this
      ensures Valid() && View() == Process(old(View()))
      ensures sample == old(View()).slots[Sampled(old(View()))]
    {
      head_idx := (head_idx + 2) % save_frame.Length;
      sample := save_frame[head_idx];
      head_idx := (head_idx + 3) % save_frame.Length;
      count := count - 5;
    }
  }
}
