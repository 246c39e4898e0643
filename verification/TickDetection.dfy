/** The tick detector of the synchronome: the pool of RGB buffers, the conversion of a frame
    into one of them, and the decision whether the previous image is shown as a tick. */
module TickDetection {
  import opened Images
  import Hysteresis

  const NUM_BUFFERS := 20

  // What a queue carries: a buffer, named by its place in the pool, with the size and the
  // mark of the image in it. Null is a handler without a buffer.
  datatype Handle = Null | Handle(id: nat, size: nat, isTick: bool)

  datatype Detector = Detector(
    showDiff: bool,
    available: seq<Handle>,
    oldImage: Handle,
    count: nat,
    expectedSize: nat,
    moving: bool,
    memory: seq<Image>)

  datatype Outcome = Shown(image: Handle) | NothingYet | NoBuffer | SizeMismatch

  ghost predicate InPool(h: Handle) {
    h.Handle? && h.id < NUM_BUFFERS && h.size <= BUFFER_SIZE
  }

  ghost predicate MemoryValid(memory: seq<Image>) {
    |memory| == NUM_BUFFERS && forall i :: 0 <= i < NUM_BUFFERS ==> |memory[i]| == BUFFER_SIZE
  }

  ghost predicate Consistent(d: Detector) {
    && MemoryValid(d.memory)
    && (forall i :: 0 <= i < |d.available| ==> InPool(d.available[i]))
    && (d.count > 0 ==> InPool(d.oldImage) && d.oldImage.size == d.expectedSize)
  }

  // The old image is not in a buffer that an allocation could hand out.
  ghost predicate OldIsKept(d: Detector) {
    d.count > 0 && d.oldImage.Handle? ==>
      forall i :: 0 <= i < |d.available| ==> d.available[i].Handle? ==> d.available[i].id != d.oldImage.id
  }

  // The image a handler refers to.
  function Picture(memory: seq<Image>, h: Handle): (p: Image)
    requires MemoryValid(memory) && InPool(h)
    ensures |p| == h.size
  {
    memory[h.id][..h.size]
  }

  // An image written at the start of a buffer; what lies behind it stays.
  function Painted(memory: seq<Image>, id: nat, img: Image): (m: seq<Image>)
    requires MemoryValid(memory) && id < NUM_BUFFERS && |img| <= BUFFER_SIZE
    ensures MemoryValid(m)
  {
    memory[id := img + memory[id][|img|..]]
  }

  function Returned(available: seq<Handle>, h: Handle): seq<Handle> {
    if h.Null? then available else available + [h.(isTick := false)]
  }

  // The decision on a converted image. The old image comes out, in difference mode replaced
  // by the picture of the differences; the new one becomes the old one.
  function Decided(d: Detector, rgb: Handle): (r: (Detector, Outcome))
    requires Consistent(d) && InPool(rgb)
    ensures Consistent(r.0)
  {
    if d.count == 0 then
      (d.(expectedSize := rgb.size, oldImage := rgb, count := 1), NothingYet)
    else if d.expectedSize != rgb.size then
      (d, SizeMismatch)
    else
      var now, before := Picture(d.memory, rgb), Picture(d.memory, d.oldImage);
      var sum, maxDiff := Distance(now, before), 255 * d.expectedSize;
      var tick := d.moving && Hysteresis.Below(sum, maxDiff);
      var memory := if d.showDiff then Painted(d.memory, d.oldImage.id, Difference(now, before)) else d.memory;
      (d.(count := d.count + 1, moving := Hysteresis.Next(d.moving, sum, maxDiff),
          oldImage := rgb.(isTick := tick), memory := memory),
       Shown(d.oldImage))
  }

  // A whole call of execute on one frame.
  function Executed(d: Detector, f: Frame): (r: (Detector, Outcome))
    requires Consistent(d)
    ensures Consistent(r.0)
  {
    if d.available == [] then (d, NoBuffer)
    else
      var rgb := d.available[0].(size := |Convert(f)|);
      Decided(d.(available := d.available[1..], memory := Painted(d.memory, rgb.id, Convert(f))), rgb)
  }

  // What a call makes of one frame after the first: the old image comes out, in difference
  // mode as the byte-by-byte differences; the conversion of the frame becomes the old image;
  // and the sum of the differences decides the state and the mark.
  lemma ExecutedMeans(d: Detector, f: Frame)
    requires Consistent(d) && OldIsKept(d) && d.available != [] && d.count > 0
    requires d.expectedSize == |f| * 6 / 4
    ensures var (e, outcome) := Executed(d, f);
      var now, before := Convert(f), Picture(d.memory, d.oldImage);
      var sum := Sum(Difference(now, before), |now|);
      && outcome == Shown(d.oldImage) && e.count == d.count + 1 && e.available == d.available[1..]
      && (e.moving <==> if d.moving then 10000 * sum >= 22 * (255 * |now|) else 10000 * sum > 23 * (255 * |now|))
      && e.oldImage == Handle(d.available[0].id, |now|, d.moving && 10000 * sum < 22 * (255 * |now|))
      && Picture(e.memory, e.oldImage) == now
      && Picture(e.memory, d.oldImage) == (if d.showDiff then Difference(now, before) else before)
      && (forall i :: 0 <= i < NUM_BUFFERS && i != d.oldImage.id && i != d.available[0].id ==>
            e.memory[i] == d.memory[i])
  {
    ConvertSize(f);
    var now, before := Convert(f), Picture(d.memory, d.oldImage);
    hide Convert, Difference, Sum;
    DistanceIsTotal(now, before, |now|);
    var rgb := d.available[0].(size := |now|);
    var memory := Painted(d.memory, rgb.id, now);
    assert d.available[0].id != d.oldImage.id;
    assert Picture(memory, rgb) == now && Picture(memory, d.oldImage) == before;
    assert Distance(now, before) == DistanceTo(now, before, |now|);
  }

  // When there is an image to show, and what it is.
  lemma ExecutedIs(d: Detector, f: Frame)
    requires Consistent(d) && OldIsKept(d)
    ensures var (e, outcome) := Executed(d, f);
      && (outcome.NoBuffer? <==> d.available == [])
      && (outcome.NothingYet? <==> d.available != [] && d.count == 0)
      && (outcome.Shown? <==> d.available != [] && d.count > 0 && d.expectedSize == |f| * 6 / 4)
      && (outcome.Shown? ==>
        var now, before := Convert(f), Picture(d.memory, d.oldImage);
        && |now| == |before| && outcome.image == d.oldImage && e.count == d.count + 1
        && var sum := Sum(Difference(now, before), |now|);
        && (e.moving <==> if d.moving then 10000 * sum >= 22 * (255 * |now|) else 10000 * sum > 23 * (255 * |now|))
        && (e.oldImage.Handle? && (e.oldImage.isTick <==> d.moving && 10000 * sum < 22 * (255 * |now|))))
  {
    ConvertSize(f);
    hide Convert, Difference, Sum;
    if d.available != [] && d.count > 0 && d.expectedSize == |f| * 6 / 4 {
      ExecutedMeans(d, f);
      hide Executed, Picture;
    }
  }

  lemma GroupAt(f: Frame, k: nat, i: nat, j: nat)
    requires i == 4 * k < |f| && j == 6 * k
    ensures i + 4 <= |f| && j + 6 <= |Convert(f)|
    ensures var p, q := Yuv2Rgb(f[i], f[i + 1], f[i + 3]), Yuv2Rgb(f[i + 2], f[i + 1], f[i + 3]);
      && Convert(f)[j] == p.r && Convert(f)[j + 1] == p.g && Convert(f)[j + 2] == p.b
      && Convert(f)[j + 3] == q.r && Convert(f)[j + 4] == q.g && Convert(f)[j + 5] == q.b
  {
    hide Convert, Yuv2Rgb;
    GroupOf(f, k);
    var six := Convert(f)[j..j + 6];
    assert forall k :: 0 <= k < 6 ==> six[k] == Convert(f)[j + k];
  }

  lemma ConvertSize(f: Frame)
    ensures |Convert(f)| % 3 == 0 && 4 * |Convert(f)| == 6 * |f|
  {
  }

  lemma PaintedIs(memory: seq<Image>, id: nat, img: Image, after: seq<Image>)
    requires MemoryValid(memory) && id < NUM_BUFFERS && |img| <= BUFFER_SIZE && MemoryValid(after)
    requires forall r :: 0 <= r < NUM_BUFFERS && r != id ==> after[r] == memory[r]
    requires forall j :: 0 <= j < |img| ==> after[id][j] == img[j]
    requires forall j :: |img| <= j < BUFFER_SIZE ==> after[id][j] == memory[id][j]
    ensures after == Painted(memory, id, img)
  {
    assert after[id] == img + memory[id][|img|..];
  }

  // The detector, updated in place.
  class TickDetector {
    var mShowDiff: bool
    var mOldImage: Handle
    var mMaxDiff: nat
    var mCount: nat
    var mExpectedSize: nat
    var mMoving: bool
    var mAvailable: seq<Handle>
    const mBuffers: array2<Byte>

    ghost predicate Sized() { mBuffers.Length0 == NUM_BUFFERS && mBuffers.Length1 == BUFFER_SIZE }

    ghost function Row(i: nat): (r: Image)
      requires Sized() && i < NUM_BUFFERS
      reads mBuffers
      ensures |r| == BUFFER_SIZE && forall j :: 0 <= j < BUFFER_SIZE ==> r[j] == mBuffers[i, j]
    {
      seq(BUFFER_SIZE, j requires Sized() && i < NUM_BUFFERS
                                  && 0 <= j < BUFFER_SIZE reads mBuffers => mBuffers[i, j])
    }

    ghost function Memory(): (m: seq<Image>)
      requires Sized()
      reads mBuffers
      ensures MemoryValid(m) && forall i :: 0 <= i < NUM_BUFFERS ==> m[i] == Row(i)
    {
      seq(NUM_BUFFERS, i requires Sized() && 0 <= i < NUM_BUFFERS
                                  reads mBuffers => Row(i))
    }

    ghost function State(): Detector
      requires Sized()
      reads this, mBuffers
    {
      Detector(mShowDiff, mAvailable, mOldImage, mCount, mExpectedSize, mMoving, Memory())
    }

    ghost predicate Valid()
      reads this, mBuffers
    {
      && Sized()
      && Consistent(State())
      && (mCount > 0 ==> mMaxDiff == 255 * mExpectedSize)
    }

    constructor (showDiff: bool)
      ensures Valid() && fresh(mBuffers)
      ensures mShowDiff == showDiff && mCount == 0 && !mMoving
      ensures |mAvailable| == 20 && forall i :: 0 <= i < 20 ==> mAvailable[i] == Handle(i, 0, false)
      ensures mBuffers.Length0 == 20 && mBuffers.Length1 == 640 * 480 * 3
    {
      mShowDiff, mOldImage, mMaxDiff, mCount, mExpectedSize, mMoving := showDiff, Null, 0, 0, 0, false;
      mAvailable := [];
      mBuffers := new Byte[NUM_BUFFERS, BUFFER_SIZE];
      new;
      for i := 0 to NUM_BUFFERS
        invariant mShowDiff == showDiff && mCount == 0 && !mMoving
        invariant mAvailable == seq(i, k requires 0 <= k < i => Handle(k, 0, false))
      {
        mAvailable := mAvailable + [Handle(i, 0, false)];
      }
    }

    // False stands for the exit of the process with a pool that grew too large.
    method ReturnBuffer(h: Handle) returns (ok: bool)
      requires Valid() && (h.Handle? ==> InPool(h))
      modifies `mAvailable
      ensures Valid()
      ensures State() == old(State()).(available := Returned(old(mAvailable), h))
      ensures mAvailable == old(mAvailable) + if h.Null? then [] else [Handle(h.id, h.size, false)]
      ensures ok <==> |mAvailable| <= 20
    {
      if h.Handle? {
        mAvailable := mAvailable + [h.(isTick := false)];
      }
      return |mAvailable| <= NUM_BUFFERS;
    }

    method Allocate() returns (rgb: Handle)
      requires Valid()
      modifies `mAvailable
      ensures Valid()
      ensures rgb.Null? <==> old(mAvailable) == []
      ensures rgb.Null? ==> mAvailable == old(mAvailable)
      ensures rgb.Handle? ==> InPool(rgb) && [rgb] + mAvailable == old(mAvailable)
    {
      if mAvailable == [] {
        return Null;
      }
      rgb := mAvailable[0];
      mAvailable := mAvailable[1..];
    }

    method ColorConvert(f: Frame) returns (rgb: Handle)
      requires Valid()
      modifies `mAvailable, mBuffers
      ensures Valid()
      ensures rgb.Null? <==> old(mAvailable) == []
      ensures rgb.Null? ==> State() == old(State())
      ensures rgb.Handle? ==>
        && InPool(rgb) && rgb == old(mAvailable)[0].(size := |Convert(f)|)
        && State() == old(State()).(available := old(mAvailable)[1..], memory := Painted(old(Memory()), rgb.id,
            Convert(f)))
    {
      rgb := Allocate();
      if rgb.Null? {
        return;
      }
      ConvertInto(rgb.id, f);
      rgb := rgb.(size := |f| * 6 / 4);
    }

    method ConvertInto(id: nat, f: Frame)
      requires Sized() && id < NUM_BUFFERS
      modifies mBuffers
      ensures Memory() == Painted(old(Memory()), id, Convert(f))
    {
      hide Convert, Yuv2Rgb, Written, Painted;
      WrittenNothing(id, Convert(f));
      ConvertSize(f);
      var i, newi := 0, 0;
      ghost var k := 0;
      while i < |f|
        invariant i == 4 * k <= |f| && newi == 6 * k
        invariant Written(old(Memory()), id, Convert(f), newi)
      {
        GroupAt(f, k, i, newi);
        StorePixel(id, newi, Yuv2Rgb(f[i], f[i + 1], f[i + 3]), old(Memory()), Convert(f));
        StorePixel(id, newi + 3, Yuv2Rgb(f[i + 2], f[i + 1], f[i + 3]), old(Memory()), Convert(f));
        i, newi, k := i + 4, newi + 6, k + 1;
      }
      WrittenIsPainted(old(Memory()), id, Convert(f));
    }

    // The next three bytes of an image that is being written into buffer id.
    method StorePixel(id: nat, j: nat, p: Pixel, ghost before: seq<Image>, ghost img: Image)
      requires Sized() && MemoryValid(before) && id < NUM_BUFFERS && j + 3 <= |img| <= BUFFER_SIZE
      requires Written(before, id, img, j)
      requires p.r == img[j] && p.g == img[j + 1] && p.b == img[j + 2]
      modifies mBuffers
      ensures Written(before, id, img, j + 3)
    {
      mBuffers[id, j], mBuffers[id, j + 1], mBuffers[id, j + 2] := p.r, p.g, p.b;
    }

    // The first n bytes of an image are in buffer id, and nothing else has changed.
    ghost predicate Written(before: seq<Image>, id: nat, img: Image, n: nat)
      requires Sized() && MemoryValid(before) && id < NUM_BUFFERS && |img| <= BUFFER_SIZE
      reads mBuffers
    {
      && n <= |img|
      && (forall j :: 0 <= j < n ==> mBuffers[id, j] == img[j])
      && (forall j :: n <= j < BUFFER_SIZE ==> mBuffers[id, j] == before[id][j])
      && (forall r, j :: 0 <= r < NUM_BUFFERS && r != id && 0 <= j < BUFFER_SIZE ==> mBuffers[r, j] == before[r][j])
    }

    lemma WrittenNothing(id: nat, img: Image)
      requires Sized() && id < NUM_BUFFERS && |img| <= BUFFER_SIZE
      ensures Written(Memory(), id, img, 0)
    {
      assert forall r :: 0 <= r < NUM_BUFFERS ==> Memory()[r] == Row(r);
    }

    lemma WrittenIsPainted(before: seq<Image>, id: nat, img: Image)
      requires Sized() && MemoryValid(before) && id < NUM_BUFFERS && |img| <= BUFFER_SIZE
      requires Written(before, id, img, |img|)
      ensures Memory() == Painted(before, id, img)
    {
      var m := Memory();
      forall r | 0 <= r < NUM_BUFFERS && r != id ensures m[r] == before[r] {
        assert m[r] == Row(r);
      }
      assert m[id] == Row(id);
      PaintedIs(before, id, img, m);
    }

    // The sum is kept in 32 bits, modulo 2^32.
    method SumDifference(size: nat, newId: nat, oldId: nat) returns (sum: nat)
      requires Sized() && newId < NUM_BUFFERS && oldId < NUM_BUFFERS && size <= BUFFER_SIZE && size % 3 == 0
      ensures sum == DistanceTo(Row(newId), Row(oldId), size)
      ensures sum == Sum(Difference(Row(newId), Row(oldId)), size)
    {
      hide Gap, Sum, Difference;
      DistanceIsTotal(Row(newId), Row(oldId), size);
      sum := 0;
      var i := 0;
      while i < size
        invariant i % 3 == 0 && i <= size
        invariant sum == DistanceTo(Row(newId), Row(oldId), i)
      {
        sum := (sum + (Gap(mBuffers[newId, i], mBuffers[oldId, i]) + Gap(mBuffers[newId, i + 1], mBuffers[oldId, i + 1])
                       + Gap(mBuffers[newId, i + 2], mBuffers[oldId, i + 2]))) % 0x1_0000_0000;
        ThreeMore(Row(newId), Row(oldId), i);
        i := i + 3;
        SumDoesNotWrap(Row(newId), Row(oldId), i);
      }
    }

    // The old image becomes the picture of the differences, in place.
    method ModImg(size: nat, newId: nat, oldId: nat)
      requires Sized() && newId < NUM_BUFFERS && oldId < NUM_BUFFERS && newId != oldId
      requires size <= BUFFER_SIZE && size % 3 == 0
      modifies mBuffers
      ensures Memory() == Painted(old(Memory()), oldId, Difference(old(Memory())[newId][..size],
          old(Memory())[oldId][..size]))
      ensures forall j :: 0 <= j < size ==>
        var x, y := old(mBuffers[newId, j]), old(mBuffers[oldId, j]);
        mBuffers[oldId, j] == if x >= y then x - y else y - x
    {
      ghost var before := Memory();
      ghost var diff := Difference(before[newId][..size], before[oldId][..size]);
      var i := 0;
      while i < size
        invariant i % 3 == 0 && i <= size
        invariant Written(before, oldId, diff, i)
      {
        var p := Pixel(GapByte(mBuffers[newId, i], mBuffers[oldId, i]),
                       GapByte(mBuffers[newId, i + 1], mBuffers[oldId, i + 1]),
                       GapByte(mBuffers[newId, i + 2], mBuffers[oldId, i + 2]));
        StorePixel(oldId, i, p, before, diff);
        i := i + 3;
      }
      WrittenIsPainted(before, oldId, diff);
    }

    // One frame. The three last outcomes: no image yet, and the two exits of the process.
    method Execute(f: Frame) returns (outcome: Outcome)
      requires Valid() && OldIsKept(State())
      modifies `mOldImage, `mMaxDiff, `mCount, `mExpectedSize, `mMoving, `mAvailable, mBuffers
      ensures Valid()
      ensures (State(), outcome) == Executed(old(State()), f)
      ensures outcome.NoBuffer? <==> old(mAvailable) == []
      ensures outcome.NothingYet? <==> old(mAvailable) != [] && old(mCount) == 0
      ensures outcome.Shown? <==> old(mAvailable) != [] && old(mCount) > 0 && old(mExpectedSize) == |f| * 6 / 4
      ensures outcome.Shown? ==>
        var now, before := Convert(f), old(Picture(Memory(), mOldImage));
        var sum := Sum(Difference(now, before), |now|);
        && outcome.image == old(mOldImage) && mCount == old(mCount) + 1
        && (mMoving <==> if old(mMoving) then 10000 * sum >= 22 * (255 * |now|) else 10000 * sum > 23 * (255 * |now|))
        && (mOldImage.isTick <==> old(mMoving) && 10000 * sum < 22 * (255 * |now|))
    {
      ExecutedIs(State(), f);
      ConvertSize(f);
      hide Decided, Painted, Convert;
      var rgb := ColorConvert(f);
      if rgb.Null? {
        return NoBuffer;
      }
      outcome := Decide(rgb);
    }

    method Decide(rgb: Handle) returns (outcome: Outcome)
      requires Valid() && InPool(rgb) && rgb.size % 3 == 0 && (mCount > 0 ==> rgb.id != mOldImage.id)
      modifies `mOldImage, `mMaxDiff, `mCount, `mExpectedSize, `mMoving, mBuffers
      ensures (State(), outcome) == Decided(old(State()), rgb)
      ensures Valid()
    {
      if mCount == 0 {
        mExpectedSize := rgb.size;
        mOldImage := rgb;
        mMaxDiff := rgb.size * 255;
        mCount := mCount + 1;
        return NothingYet;
      }
      if mExpectedSize != rgb.size {
        return SizeMismatch;
      }
      outcome := Compare(rgb);
    }

    method Compare(image: Handle) returns (outcome: Outcome)
      requires Valid() && InPool(image) && image.size % 3 == 0
      requires mCount > 0 && image.id != mOldImage.id && mExpectedSize == image.size
      modifies `mOldImage, `mCount, `mMoving, mBuffers
      ensures (State(), outcome) == Decided(old(State()), image)
      ensures Valid()
    {
      PictureDistance(State(), image);
      hide DistanceTo, Distance, Picture, Painted, Difference, Hysteresis.Above, Hysteresis.Below, Consistent,
          MemoryValid, InPool;
      var rgb := image;
      mCount := mCount + 1;
      var sum := SumDifference(mExpectedSize, rgb.id, mOldImage.id);
      rgb := rgb.(isTick := false);
      if !mMoving && Hysteresis.Above(sum, mMaxDiff) {
        mMoving := true;
      } else if mMoving && Hysteresis.Below(sum, mMaxDiff) {
        mMoving := false;
        rgb := rgb.(isTick := true);
      }
      var returnImage := mOldImage;
      mOldImage := rgb;
      if mShowDiff {
        ModImg(mExpectedSize, mOldImage.id, returnImage.id);
      }
      return Shown(returnImage);
    }
  }

  // A handler that knows where its buffer came from. Giving the buffer back clears it, so a
  // second call finds no allocator and returns nothing.
  class RgbHandler {
    var handle: Handle
    var mAllocator: TickDetector?

    constructor (rgb: Handle, allocator: TickDetector?)
      ensures handle == rgb && mAllocator == allocator
    {
      handle, mAllocator := rgb, allocator;
    }

    method ReturnBuffer() returns (ok: bool)
      requires mAllocator != null ==> mAllocator.Valid() && (handle.Handle? ==> InPool(handle))
      modifies this, if mAllocator == null then {} else {mAllocator}
      ensures handle == Null && mAllocator == null
      ensures var a := old(mAllocator);
        if a == null then ok
        else
          && a.Valid()
          && a.State() == old(a.State()).(available := Returned(old(a.mAvailable), old(handle)))
          && (ok <==> |a.mAvailable| <= NUM_BUFFERS)
    {
      ok := true;
      if mAllocator != null {
        ok := mAllocator.ReturnBuffer(handle);
      }
      handle := Null;
      mAllocator := null;
    }
  }

  lemma ThreeMore(a: Image, b: Image, i: nat)
    requires i + 3 <= |a| && i + 3 <= |b|
    ensures DistanceTo(a, b, i + 3) ==
      DistanceTo(a, b, i) + (Gap(a[i], b[i]) + Gap(a[i + 1], b[i + 1]) + Gap(a[i + 2], b[i + 2]))
  {
    hide Gap;
    assert DistanceTo(a, b, i + 1) == DistanceTo(a, b, i) + Gap(a[i], b[i]);
    assert DistanceTo(a, b, i + 2) == DistanceTo(a, b, i + 1) + Gap(a[i + 1], b[i + 1]);
  }

  lemma PictureDistance(d: Detector, rgb: Handle)
    requires Consistent(d) && InPool(rgb) && d.count > 0 && d.expectedSize == rgb.size
    ensures Distance(Picture(d.memory, rgb), Picture(d.memory, d.oldImage))
      == DistanceTo(d.memory[rgb.id], d.memory[d.oldImage.id], d.expectedSize)
    ensures rgb.id < NUM_BUFFERS && rgb.size <= BUFFER_SIZE && d.oldImage.Handle? && d.oldImage.id < NUM_BUFFERS
    ensures Picture(d.memory, rgb) == d.memory[rgb.id][..d.expectedSize]
    ensures Picture(d.memory, d.oldImage) == d.memory[d.oldImage.id][..d.expectedSize]
  {
    DistancePrefix(Picture(d.memory, rgb), Picture(d.memory, d.oldImage), d.memory[rgb.id], d.memory[d.oldImage.id],
        rgb.size);
  }
}
