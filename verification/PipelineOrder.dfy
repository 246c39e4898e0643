/** What the saver of the synchronome receives and saves: every image in the order of capture,
    one behind, unmodified in flight. */
module PipelineOrder {
  import opened Images
  import opened TickDetection
  import opened Pipeline
  import opened PipelineConservation
  import Hysteresis

  // ---------- later frames do not change earlier decisions ----------

  lemma DiffsPrefix(fs: seq<Frame>, f: Frame, n: nat)
    requires n < |fs|
    ensures Diffs(fs + [f])[..n] == Diffs(fs)[..n] && MaxDiff(fs + [f]) == MaxDiff(fs)
  {
    hide FrameDiff;
    var ds, es := Diffs(fs), Diffs(fs + [f]);
    assert forall k :: 0 <= k < n ==> ds[k] == es[k];
  }

  lemma MovingStable(fs: seq<Frame>, f: Frame, n: nat)
    requires n <= |fs|
    ensures MovingAfter(fs + [f], n) == MovingAfter(fs, n)
  {
    if n > 0 {
      DiffsPrefix(fs, f, n - 1);
      Hysteresis.MovingPrefix(Diffs(fs + [f]), Diffs(fs), MaxDiff(fs), n - 1);
    }
  }

  lemma TickStable(fs: seq<Frame>, f: Frame, k: nat)
    requires k < |fs|
    ensures IsTick(fs + [f], k) == IsTick(fs, k)
  {
    if k > 0 {
      DiffsPrefix(fs, f, k);
      var ds, es := Diffs(fs), Diffs(fs + [f]);
      assert ds[k - 1] == ds[..k][k - 1] && es[k - 1] == es[..k][k - 1];
      assert ds[..k - 1] == ds[..k][..k - 1] && es[..k - 1] == es[..k][..k - 1];
      Hysteresis.MovingPrefix(es, ds, MaxDiff(fs), k - 1);
    }
  }

  lemma {:induction false} SelectedStable(cfg: Config, fs: seq<Frame>, f: Frame, m: nat)
    requires m == 0 || m < |fs|
    ensures Selected(cfg, fs + [f], m) == Selected(cfg, fs, m)
  {
    hide IsTick, Convert;
    if m > 0 {
      SelectedStable(cfg, fs, f, m - 1);
      TickStable(fs, f, m - 1);
      assert (fs + [f])[m - 1] == fs[m - 1] && (fs + [f])[m] == fs[m];
    }
  }

  // ---------- the invariant ----------

  ghost predicate SameSize(fs: seq<Frame>, n: nat)
    requires n <= |fs|
  {
    forall k :: 0 <= k < n ==> |Convert(fs[k])| == |Convert(fs[0])|
  }

  // The frames captured but not decided yet, oldest first.
  function Undecided(s: State): seq<nat> {
    if s.worker.Finished? then Flight(s)[1..] else Flight(s)
  }

  ghost predicate HoldsFrame(s: State, index: nat, k: nat) {
    index < |s.frames| && k < |s.captured| && s.frames[index] == s.captured[k]
  }

  ghost predicate FramesInOrder(s: State) {
    && |s.captured| == s.detector.count + |Undecided(s)|
    && forall j :: 0 <= j < |Undecided(s)| ==> HoldsFrame(s, Undecided(s)[j], s.detector.count + j)
  }

  // Handle h shows the k-th image and bears its mark.
  ghost predicate Shows(cfg: Config, s: State, h: Handle, k: nat) {
    && MemoryValid(s.detector.memory) && InPool(h) && k < s.detector.count <= |s.captured|
    && Picture(s.detector.memory, h) == Expected(cfg, s.captured, s.detector.count, k)
    && h.isTick == IsTick(s.captured, k)
  }

  ghost predicate ImagesInOrder(cfg: Config, s: State) {
    && s.returned + |Line(s)| == s.detector.count
    && forall j :: 0 <= j < |Line(s)| ==> Shows(cfg, s, Line(s)[j], s.returned + j)
  }

  ghost predicate Unmarked(hs: seq<Handle>) {
    forall i :: 0 <= i < |hs| ==> hs[i].Handle? && !hs[i].isTick
  }

  ghost predicate FreshImage(s: State) {
    && Unmarked(s.detector.available) && Unmarked(Fresh(s))
    && (s.worker.Converted? ==>
          && MemoryValid(s.detector.memory) && InPool(s.worker.rgb) && s.detector.count < |s.captured|
          && Picture(s.detector.memory, s.worker.rgb) == Convert(s.captured[s.detector.count]))
  }

  ghost predicate DecisionsRight(cfg: Config, s: State) {
    var d := s.detector;
    && MemoryValid(d.memory) && |s.frames| == cfg.buffers && d.showDiff == cfg.showDiff && d.count <= |s.captured|
    && SameSize(s.captured, d.count)
    && (d.count > 0 ==> d.expectedSize == |Convert(s.captured[0])|)
    && d.moving == MovingAfter(s.captured, d.count)
  }

  // The images the saver has dealt with.
  function Dealt(s: State): nat {
    s.returned + if s.saver.Processed? then 1 else 0
  }

  ghost predicate SavedRight(cfg: Config, s: State) {
    && (Dealt(s) == 0 || Dealt(s) < |s.captured|)
    && s.saved == Selected(cfg, s.captured, Dealt(s))
    && |s.saved| <= cfg.frameCount
    && (s.saver.Holding? ==> |s.saved| < cfg.frameCount)
    && (s.saver.SaverDone? ==> |s.saved| == cfg.frameCount)
  }

  ghost predicate Inv(cfg: Config, s: State) {
    && Conserved(cfg, s)
    && DecisionsRight(cfg, s)
    && FramesInOrder(s)
    && ImagesInOrder(cfg, s)
    && FreshImage(s)
    && SavedRight(cfg, s)
    && s.exit != PoolTooLarge
  }

  lemma OrderInit(cfg: Config, s: State)
    requires Initial(cfg, s)
    ensures DecisionsRight(cfg, s) && FramesInOrder(s) && ImagesInOrder(cfg, s)
  {
    hide MemoryValid, Expected, Picture;
    assert Flight(s) == [] && Line(s) == [];
  }

  lemma SavedInit(cfg: Config, s: State)
    requires Initial(cfg, s)
    ensures FreshImage(s) && SavedRight(cfg, s)
  {
    hide MemoryValid, Picture;
    assert Fresh(s) == [];
  }

  lemma InvInit(cfg: Config, s: State)
    requires Initial(cfg, s)
    ensures Inv(cfg, s)
  {
    hide Conserved, DecisionsRight, FramesInOrder, ImagesInOrder, FreshImage, SavedRight;
    ConservedInit(cfg, s);
    OrderInit(cfg, s);
    SavedInit(cfg, s);
  }

  // ---------- frames ----------

  lemma FlightNotWithDriver(cfg: Config, s: State, j: nat)
    requires Conserved(cfg, s) && j < |Flight(s)|
    ensures Flight(s)[j] !in s.driver
  {
    hide Flight, Indices;
    assert Flight(s)[j] in multiset(Flight(s));
    assert (s.driver + multiset(Flight(s)))[Flight(s)[j]] <= 1;
  }

  lemma UndecidedNotWithDriver(cfg: Config, s: State, j: nat)
    requires Conserved(cfg, s) && j < |Undecided(s)|
    ensures Undecided(s)[j] !in s.driver
  {
    FlightNotWithDriver(cfg, s, if s.worker.Finished? then j + 1 else j);
    hide Conserved, Flight;
  }

  lemma FillIs(cfg: Config, s: State, i: nat, f: Frame)
    requires Enabled(cfg, s, Fill(i, f))
    ensures i < |s.frames| && i in s.driver
    ensures var t := Step(cfg, s, Fill(i, f)); t == s.(frames := s.frames[i := f]) && Undecided(t) == Undecided(s)
  {
  }

  lemma FillFrames(cfg: Config, s: State, i: nat, f: Frame)
    requires Conserved(cfg, s) && FramesInOrder(s) && Enabled(cfg, s, Fill(i, f))
    ensures FramesInOrder(Step(cfg, s, Fill(i, f)))
  {
    hide Conserved, Undecided, Step, Enabled;
    var t := Step(cfg, s, Fill(i, f));
    FillIs(cfg, s, i, f);
    forall j | 0 <= j < |Undecided(s)| ensures HoldsFrame(t, Undecided(s)[j], t.detector.count + j) {
      UndecidedNotWithDriver(cfg, s, j);
      assert HoldsFrame(s, Undecided(s)[j], s.detector.count + j);
    }
  }

  lemma DequeueFrames(cfg: Config, s: State, i: nat)
    requires FramesInOrder(s) && Enabled(cfg, s, Dequeue(i))
    ensures FramesInOrder(Step(cfg, s, Dequeue(i)))
  {
    var t := Step(cfg, s, Dequeue(i));
    DequeueFlight(cfg, s, i);
    hide Flight;
    assert Undecided(t) == Undecided(s) + [i];
    forall j | 0 <= j < |Undecided(t)| ensures HoldsFrame(t, Undecided(t)[j], t.detector.count + j) {
      if j < |Undecided(s)| {
        assert HoldsFrame(s, Undecided(s)[j], s.detector.count + j);
      }
    }
  }

  lemma DecideFrames(cfg: Config, s: State)
    requires FramesInOrder(s) && Enabled(cfg, s, Decide)
    ensures FramesInOrder(Step(cfg, s, Decide))
  {
    var t := Step(cfg, s, Decide);
    QuietFlight(cfg, s, Decide);
    assert |Flight(s)| > 0;
    hide Flight;
    if t.exit == Running {
      forall j | 0 <= j < |Undecided(t)| ensures HoldsFrame(t, Undecided(t)[j], t.detector.count + j) {
        assert HoldsFrame(s, Undecided(s)[j + 1], s.detector.count + (j + 1));
      }
    } else {
      SameFrames(s, t);
    }
  }

  // Steps that touch neither frame memory nor the history.
  lemma SameFrames(s: State, t: State)
    requires FramesInOrder(s) && Undecided(t) == Undecided(s)
    requires t.frames == s.frames && t.captured == s.captured && t.detector.count == s.detector.count
    ensures FramesInOrder(t)
  {
    hide Undecided;
    forall j | 0 <= j < |Undecided(t)| ensures HoldsFrame(t, Undecided(t)[j], t.detector.count + j) {
      assert HoldsFrame(s, Undecided(s)[j], s.detector.count + j);
    }
  }

  lemma UndecidedKept(cfg: Config, s: State, a: Action)
    requires Enabled(cfg, s, a) && !a.Fill? && !a.Dequeue? && !a.Decide?
    ensures var t := Step(cfg, s, a);
      && Undecided(t) == Undecided(s)
      && t.frames == s.frames && t.captured == s.captured && t.detector.count == s.detector.count
  {
    hide Convert, Painted, Picture, InPool, MemoryValid, Consistent, Returned, Flight;
    if a.Requeue? {
      RequeueFlight(cfg, s);
    } else {
      QuietFlight(cfg, s, a);
    }
  }

  lemma FramesStep(cfg: Config, s: State, a: Action)
    requires Conserved(cfg, s) && FramesInOrder(s) && Enabled(cfg, s, a)
    ensures FramesInOrder(Step(cfg, s, a))
  {
    hide Step, Enabled, FramesInOrder, Conserved;
    match a
    case Fill(i, f) => FillFrames(cfg, s, i, f);
    case Dequeue(i) => DequeueFrames(cfg, s, i);
    case Decide => DecideFrames(cfg, s);
    case _ =>
      UndecidedKept(cfg, s, a);
      SameFrames(s, Step(cfg, s, a));
  }

  // ---------- images ----------

  lemma PaintedElsewhere(memory: seq<Image>, id: nat, img: Image, h: Handle)
    requires MemoryValid(memory) && id < NUM_BUFFERS && |img| <= BUFFER_SIZE && InPool(h) && h.id != id
    ensures Picture(Painted(memory, id, img), h) == Picture(memory, h)
  {
  }

  lemma PaintedThere(memory: seq<Image>, id: nat, img: Image, h: Handle)
    requires MemoryValid(memory) && id < NUM_BUFFERS && |img| <= BUFFER_SIZE && InPool(h) && h.id == id
    requires h.size == |img|
    ensures Picture(Painted(memory, id, img), h) == img
  {
  }

  lemma ListParts(all: seq<Handle>, f: seq<Handle>, n: nat, l: seq<Handle>, i: nat, j: nat)
    requires |all| == n + |l| && all[n..] == l && |f| <= n && all[..|f|] == f
    requires Pooled(all) && Apart(all, n + i, n + j) && Apart(all, 0, n + j)
    ensures Pooled(l) && Apart(l, i, j)
    ensures f != [] && j < |l| ==> InPool(f[0]) && InPool(l[j]) && f[0].id != l[j].id
  {
    assert forall k :: 0 <= k < |l| ==> l[k] == all[n + k];
    assert f != [] ==> all[0] == f[0];
  }

  lemma AllParts(s: State)
    ensures var n := |Fresh(s) + s.detector.available|; var all := AllHandles(s);
      |all| == n + |Line(s)| && all[n..] == Line(s) && |Fresh(s)| <= n && all[..|Fresh(s)|] == Fresh(s)
  {
    hide Fresh, Line;
  }

  lemma LineApart(cfg: Config, s: State, i: nat, j: nat)
    requires Conserved(cfg, s)
    ensures Pooled(Line(s)) && Apart(Line(s), i, j)
    ensures Fresh(s) != [] && j < |Line(s)| ==>
      InPool(Fresh(s)[0]) && InPool(Line(s)[j]) && Fresh(s)[0].id != Line(s)[j].id
  {
    hide Line, Fresh, Apart, Pooled, Conserved, AllHandles, InPool;
    var n := |Fresh(s) + s.detector.available|;
    AllParts(s);
    AllApart(cfg, s, n + i, n + j);
    AllApart(cfg, s, 0, n + j);
    ListParts(AllHandles(s), Fresh(s), n, Line(s), i, j);
  }

  // Steps that leave the images, their order and the decisions alone.
  ghost predicate ImagesUntouched(s: State, t: State) {
    && Line(t) == Line(s) && t.detector.memory == s.detector.memory && t.detector.count == s.detector.count
    && t.captured == s.captured && t.returned == s.returned
  }

  predicate TouchesImages(a: Action) {
    a.Dequeue? || a.ConvertFrame? || a.Decide? || a.GiveBack?
  }

  lemma UntouchedStep(cfg: Config, s: State, a: Action)
    requires Enabled(cfg, s, a) && !TouchesImages(a)
    ensures ImagesUntouched(s, Step(cfg, s, a))
  {
    hide Convert, Painted, Decided, Picture, InPool, MemoryValid, Consistent, Returned;
    var t := Step(cfg, s, a);
    match a
    case Requeue => assert InHand(t) == InHand(s);
    case Forward => assert Line(t) == Line(s);
    case Take => assert Downstream(t) == Downstream(s);
    case Save => assert Downstream(t) == Downstream(s);
    case _ =>
  }

  lemma UntouchedImages(cfg: Config, s: State, t: State)
    requires ImagesInOrder(cfg, s) && ImagesUntouched(s, t)
    ensures ImagesInOrder(cfg, t)
  {
    hide Line, Expected, Picture, IsTick;
    forall j | 0 <= j < |Line(t)| ensures Shows(cfg, t, Line(t)[j], t.returned + j) {
      assert Shows(cfg, s, Line(s)[j], s.returned + j);
    }
  }

  lemma ShowsStable(cfg: Config, s: State, t: State, f: Frame, h: Handle, k: nat)
    requires Shows(cfg, s, h, k) && t.captured == s.captured + [f] && t.detector == s.detector
    ensures Shows(cfg, t, h, k)
  {
    hide Convert, Difference, Picture, IsTick;
    TickStable(s.captured, f, k);
    assert t.captured[k] == s.captured[k];
    if k + 1 < s.detector.count {
      assert t.captured[k + 1] == s.captured[k + 1];
    }
  }

  lemma DequeueImages(cfg: Config, s: State, i: nat)
    requires ImagesInOrder(cfg, s) && Enabled(cfg, s, Dequeue(i))
    ensures ImagesInOrder(cfg, Step(cfg, s, Dequeue(i)))
  {
    var t := Step(cfg, s, Dequeue(i));
    assert Line(t) == Line(s);
    hide Line, Shows;
    forall j | 0 <= j < |Line(t)| ensures Shows(cfg, t, Line(t)[j], t.returned + j) {
      assert Shows(cfg, s, Line(s)[j], s.returned + j);
      ShowsStable(cfg, s, t, s.frames[i], Line(s)[j], s.returned + j);
    }
  }

  // What a conversion does, as a relation between two states.
  ghost predicate Converts(s: State, t: State) {
    && s.worker.Reserved? && s.worker.index < |s.frames| && InPool(s.worker.rgb) && MemoryValid(s.detector.memory)
    && var img := Convert(s.frames[s.worker.index]);
    && Fresh(s) == [s.worker.rgb] && Line(t) == Line(s) && t.captured == s.captured && t.returned == s.returned
    && t.detector == s.detector.(memory := Painted(s.detector.memory, s.worker.rgb.id, img))
    && t.worker == Converted(s.worker.index, s.worker.rgb.(size := |img|))
  }

  lemma ConvertIs(cfg: Config, s: State)
    requires Enabled(cfg, s, ConvertFrame)
    ensures Converts(s, Step(cfg, s, ConvertFrame))
  {
    hide Painted, Convert;
  }

  // An image stays when another buffer is written.
  lemma ShowsPainted(cfg: Config, s: State, t: State, h: Handle, k: nat, id: nat, img: Image)
    requires Shows(cfg, s, h, k) && h.id != id && id < NUM_BUFFERS && |img| <= BUFFER_SIZE
    requires t.captured == s.captured && t.detector == s.detector.(memory := Painted(s.detector.memory, id, img))
    ensures Shows(cfg, t, h, k)
  {
    PaintedElsewhere(s.detector.memory, id, img, h);
    hide Expected, Picture, Painted, IsTick;
  }

  lemma ConvertImages(cfg: Config, s: State, t: State)
    requires Conserved(cfg, s) && ImagesInOrder(cfg, s) && Converts(s, t)
    ensures ImagesInOrder(cfg, t)
  {
    hide Line, Shows, Conserved, Fresh;
    forall j | 0 <= j < |Line(t)| ensures Shows(cfg, t, Line(t)[j], t.returned + j) {
      assert Shows(cfg, s, Line(s)[j], s.returned + j);
      LineApart(cfg, s, j, j);
      ShowsPainted(cfg, s, t, Line(s)[j], s.returned + j, s.worker.rgb.id, Convert(s.frames[s.worker.index]));
    }
  }

  ghost predicate GivesBack(s: State, t: State)
    requires s.saver.Processed?
  {
    && Line(s) == [s.saver.h] + Line(t) && t.captured == s.captured && t.returned == s.returned + 1
    && t.detector.memory == s.detector.memory && t.detector.count == s.detector.count
  }

  lemma GiveBackIs(cfg: Config, s: State)
    requires Enabled(cfg, s, GiveBack)
    ensures s.saver.Processed? && GivesBack(s, Step(cfg, s, GiveBack))
  {
    hide Returned;
  }

  lemma GiveBackImages(cfg: Config, s: State, t: State)
    requires ImagesInOrder(cfg, s) && s.saver.Processed? && GivesBack(s, t)
    ensures ImagesInOrder(cfg, t)
  {
    hide Line, Expected, Picture, IsTick;
    forall j | 0 <= j < |Line(t)| ensures Shows(cfg, t, Line(t)[j], t.returned + j) {
      assert Line(s)[j + 1] == Line(t)[j];
      assert Shows(cfg, s, Line(s)[j + 1], s.returned + (j + 1));
    }
  }

  // ---------- the decision ----------

  // The state machine of the detector is the reference one over the differences.
  lemma DecisionIsTick(fs: seq<Frame>, c: nat)
    requires 0 < c < |fs| && SameSize(fs, c) && |Convert(fs[c])| == |Convert(fs[0])|
    ensures |Convert(fs[c])| == |Convert(fs[c - 1])|
    ensures var sum := Distance(Convert(fs[c]), Convert(fs[c - 1])); var maxDiff := 255 * |Convert(fs[0])|;
      && (MovingAfter(fs, c) && Hysteresis.Below(sum, maxDiff) <==> IsTick(fs, c))
      && (Hysteresis.Next(MovingAfter(fs, c), sum, maxDiff) <==> MovingAfter(fs, c + 1))
  {
    hide Convert, Distance, Hysteresis.Below, Hysteresis.Above;
    assert Diffs(fs)[c - 1] == FrameDiff(fs[c], fs[c - 1]);
  }

  ghost predicate Decides(s: State, t: State) {
    && s.worker.Converted? && InPool(s.worker.rgb) && Consistent(s.detector) && Fresh(s) == [s.worker.rgb]
    && t.captured == s.captured && t.returned == s.returned && t.frames == s.frames && t.saver == s.saver
    && t.saved == s.saved
    && var (d, outcome) := Decided(s.detector, s.worker.rgb);
       if outcome.SizeMismatch? then t == s.(exit := WrongSize)
       else t.worker.Finished? && t.detector == d && Line(t) == Line(s) + [d.oldImage]
  }

  lemma DecideIs(cfg: Config, s: State)
    requires Enabled(cfg, s, Decide)
    ensures Decides(s, Step(cfg, s, Decide))
  {
    hide Hysteresis.Below, Hysteresis.Next, Distance, Painted, Difference, Picture, MemoryValid;
    var t := Step(cfg, s, Decide);
    if t.exit == Running {
      assert Line(t) == Line(s) + [t.detector.oldImage];
    } else {
      assert Line(t) == Line(s);
    }
  }

  // The three ways a decision can go.
  lemma DecisionCases(d: Detector, rgb: Handle)
    requires Consistent(d) && InPool(rgb)
    ensures d.count == 0 ==>
      Decided(d, rgb) == (d.(expectedSize := rgb.size, oldImage := rgb, count := 1), NothingYet)
    ensures Decided(d, rgb).1.SizeMismatch? <==> d.count > 0 && d.expectedSize != rgb.size
    ensures d.count > 0 && d.expectedSize == rgb.size ==>
      var r := Decided(d, rgb).0;
      var now, before := Picture(d.memory, rgb), Picture(d.memory, d.oldImage);
      var sum, maxDiff := Distance(now, before), 255 * d.expectedSize;
      && r.count == d.count + 1 && r.showDiff == d.showDiff && r.expectedSize == d.expectedSize
      && r.available == d.available
      && r.oldImage == rgb.(isTick := d.moving && Hysteresis.Below(sum, maxDiff))
      && r.moving == Hysteresis.Next(d.moving, sum, maxDiff)
      && r.memory == if d.showDiff then Painted(d.memory, d.oldImage.id, Difference(now, before)) else d.memory
  {
    hide Hysteresis.Below, Hysteresis.Next, Distance, Painted, Difference, MemoryValid;
  }

  // Images before the old one stay as they are when the detector moves on.
  lemma ShowsFurther(cfg: Config, s: State, t: State, h: Handle, k: nat)
    requires Shows(cfg, s, h, k) && k + 1 < s.detector.count && t.captured == s.captured
    requires s.detector.count <= t.detector.count <= |t.captured|
    requires MemoryValid(t.detector.memory) && Picture(t.detector.memory, h) == Picture(s.detector.memory, h)
    ensures Shows(cfg, t, h, k)
  {
    hide Final, IsTick, Picture;
  }

  lemma OldIsLast(cfg: Config, s: State)
    requires ImagesInOrder(cfg, s) && s.detector.count > 0
    ensures |Line(s)| > 0 && Line(s)[|Line(s)| - 1] == s.detector.oldImage
    ensures Shows(cfg, s, s.detector.oldImage, s.detector.count - 1)
  {
    hide Shows;
    var n := |Line(s)|;
    assert Line(s)[n - 1] == s.detector.oldImage;
    assert Shows(cfg, s, Line(s)[n - 1], s.returned + (n - 1));
  }

  // The pictures compared are the conversions of the frame and of the one before it.
  lemma Compared(cfg: Config, s: State)
    requires s.detector.count > 0 && s.worker.Converted? && FreshImage(s) &&
        Shows(cfg, s, s.detector.oldImage, s.detector.count - 1)
    ensures var d := s.detector;
      && d.count < |s.captured| && MemoryValid(d.memory) && InPool(s.worker.rgb) && InPool(d.oldImage)
      && Picture(d.memory, s.worker.rgb) == Convert(s.captured[d.count])
      && Picture(d.memory, d.oldImage) == Convert(s.captured[d.count - 1])
  {
    hide Convert, Picture, IsTick, Final;
  }

  lemma FirstDecision(cfg: Config, s: State, t: State)
    requires ImagesInOrder(cfg, s) && FreshImage(s) && DecisionsRight(cfg, s) && Decides(s, t) && s.detector.count == 0
    ensures ImagesInOrder(cfg, t) && DecisionsRight(cfg, t)
  {
    DecisionCases(s.detector, s.worker.rgb);
    hide Decided, Line, Convert, Picture, Consistent;
    assert Line(s) == [];
    assert Unmarked([s.worker.rgb]) && [s.worker.rgb][0] == s.worker.rgb;
    assert Shows(cfg, t, s.worker.rgb, 0);
  }

  // What a decision on an image of the right size makes of the detector.
  ghost predicate Advances(cfg: Config, s: State, t: State)
    requires s.worker.Converted? && s.worker.rgb.Handle? && s.detector.oldImage.Handle?
    requires 0 < s.detector.count < |s.captured| && MemoryValid(s.detector.memory)
    requires s.detector.oldImage.id < NUM_BUFFERS
  {
    var d, r, fs, c := s.detector, t.detector, s.captured, s.detector.count;
    && |Convert(fs[c])| == |Convert(fs[c - 1])| && |Convert(fs[c])| == |Convert(fs[0])|
    && r.count == c + 1 && r.showDiff == d.showDiff && r.expectedSize == d.expectedSize && r.available == d.available
    && r.oldImage == s.worker.rgb.(isTick := IsTick(fs, c))
    && r.moving == MovingAfter(fs, c + 1)
    && r.memory == (if d.showDiff
                    then Painted(d.memory, d.oldImage.id, Difference(Convert(fs[c]), Convert(fs[c - 1])))
                    else d.memory)
    && t.captured == fs && t.returned == s.returned && Line(t) == Line(s) + [r.oldImage] && t.worker.Finished?
    && t.frames == s.frames
  }

  lemma DecisionAdvances(cfg: Config, s: State, t: State)
    requires FreshImage(s) && DecisionsRight(cfg, s) && Decides(s, t) && s.detector.count > 0
    requires Shows(cfg, s, s.detector.oldImage, s.detector.count - 1)
    requires s.detector.expectedSize == s.worker.rgb.size
    ensures s.detector.count < |s.captured| && InPool(s.detector.oldImage) && InPool(s.worker.rgb)
    ensures Advances(cfg, s, t)
  {
    Compared(cfg, s);
    DecisionCases(s.detector, s.worker.rgb);
    DecisionIsTick(s.captured, s.detector.count);
    hide Decided, Line, Convert, Picture, Consistent, Distance, Difference, Painted, MovingAfter, IsTick,
        Hysteresis.Below, Hysteresis.Next;
  }

  // The images before the old one, the old one, and the new one.
  lemma EarlierShown(cfg: Config, s: State, t: State, h: Handle, k: nat)
    requires s.worker.Converted? && InPool(s.worker.rgb) && InPool(s.detector.oldImage)
    requires MemoryValid(s.detector.memory)
    requires 0 < s.detector.count < |s.captured| && Advances(cfg, s, t)
    requires Shows(cfg, s, h, k) && k + 1 < s.detector.count && h.id != s.detector.oldImage.id
    ensures Shows(cfg, t, h, k)
  {
    var d, fs, c := s.detector, s.captured, s.detector.count;
    PaintedElsewhere(d.memory, d.oldImage.id, Difference(Convert(fs[c]), Convert(fs[c - 1])), h);
    hide Line, Convert, Difference, Picture, Painted, IsTick, MovingAfter, Expected;
    ShowsFurther(cfg, s, t, h, k);
  }

  lemma OldShown(cfg: Config, s: State, t: State)
    requires s.detector.count > 0
    requires DecisionsRight(cfg, s) && Shows(cfg, s, s.detector.oldImage, s.detector.count - 1)
    requires s.worker.Converted? && InPool(s.worker.rgb)
    requires 0 < s.detector.count < |s.captured| && Advances(cfg, s, t)
    ensures Shows(cfg, t, s.detector.oldImage, s.detector.count - 1)
  {
    hide Line, Convert, Difference, Picture, Painted, IsTick, MovingAfter, SameSize;
    var d, fs, c := s.detector, s.captured, s.detector.count;
    assert |Picture(d.memory, d.oldImage)| == |Convert(fs[c - 1])|;
    PaintedThere(d.memory, d.oldImage.id, Difference(Convert(fs[c]), Convert(fs[c - 1])), d.oldImage);
  }

  lemma NewShown(cfg: Config, s: State, t: State)
    requires s.detector.count > 0
    requires FreshImage(s) && Shows(cfg, s, s.detector.oldImage, s.detector.count - 1)
    requires s.worker.Converted? && InPool(s.worker.rgb) && s.worker.rgb.id != s.detector.oldImage.id
    requires 0 < s.detector.count < |s.captured| && Advances(cfg, s, t)
    ensures Shows(cfg, t, t.detector.oldImage, s.detector.count)
  {
    Compared(cfg, s);
    hide Line, Convert, Difference, Painted, IsTick, MovingAfter;
    var d, fs, c := s.detector, s.captured, s.detector.count;
    PaintedElsewhere(d.memory, d.oldImage.id, Difference(Convert(fs[c]), Convert(fs[c - 1])), s.worker.rgb);
    assert Picture(t.detector.memory, t.detector.oldImage) == Picture(t.detector.memory, s.worker.rgb);
  }

  lemma AdvancesRight(cfg: Config, s: State, t: State)
    requires s.worker.Converted? && InPool(s.worker.rgb) && InPool(s.detector.oldImage)
    requires MemoryValid(s.detector.memory)
    requires 0 < s.detector.count < |s.captured| && DecisionsRight(cfg, s) && Advances(cfg, s, t)
    ensures DecisionsRight(cfg, t) && t.returned == s.returned && Line(t) == Line(s) + [t.detector.oldImage]
    ensures t.detector.count == s.detector.count + 1
  {
    hide Line, Convert, Difference, Picture, Painted, IsTick, MovingAfter;
  }

  lemma LineWithoutFresh(cfg: Config, s: State)
    requires Conserved(cfg, s) && s.worker.Converted? && |Line(s)| > 0
    ensures InPool(s.worker.rgb) && InPool(Line(s)[|Line(s)| - 1]) && s.worker.rgb.id != Line(s)[|Line(s)| - 1].id
  {
    LineApart(cfg, s, 0, |Line(s)| - 1);
    hide Conserved, Line, Apart;
  }

  lemma LaterDecision(cfg: Config, s: State, t: State)
    requires Conserved(cfg, s) && ImagesInOrder(cfg, s) && FreshImage(s) && DecisionsRight(cfg, s) && Decides(s, t)
    requires s.detector.count > 0 && s.detector.expectedSize == s.worker.rgb.size
    ensures ImagesInOrder(cfg, t) && DecisionsRight(cfg, t)
  {
    OldIsLast(cfg, s);
    DecisionAdvances(cfg, s, t);
    LineWithoutFresh(cfg, s);
    AdvancesShown(cfg, s, t);
    hide Line, Decided, Conserved, Shows, Convert, Difference, Picture, Painted, IsTick, MovingAfter;
  }

  lemma EarlierShownAt(cfg: Config, s: State, t: State, j: nat)
    requires Conserved(cfg, s) && ImagesInOrder(cfg, s) && j + 1 < |Line(s)|
    requires s.worker.Converted? && InPool(s.worker.rgb) && InPool(s.detector.oldImage)
    requires MemoryValid(s.detector.memory)
    requires 0 < s.detector.count < |s.captured| && Advances(cfg, s, t)
    ensures Shows(cfg, t, Line(s)[j], s.returned + j)
  {
    hide Line, Conserved, Shows, Advances, MemoryValid;
    OldIsLast(cfg, s);
    assert Shows(cfg, s, Line(s)[j], s.returned + j);
    LineApart(cfg, s, j, |Line(s)| - 1);
    EarlierShown(cfg, s, t, Line(s)[j], s.returned + j);
  }

  lemma AdvancesShown(cfg: Config, s: State, t: State)
    requires Conserved(cfg, s) && ImagesInOrder(cfg, s) && FreshImage(s) && DecisionsRight(cfg, s)
    requires s.worker.Converted? && InPool(s.worker.rgb) && InPool(s.detector.oldImage)
    requires MemoryValid(s.detector.memory)
    requires s.worker.rgb.id != s.detector.oldImage.id
    requires 0 < s.detector.count < |s.captured| && Advances(cfg, s, t)
    ensures ImagesInOrder(cfg, t) && DecisionsRight(cfg, t)
  {
    hide Line, Conserved, Shows, Advances, FreshImage, DecisionsRight, MemoryValid, InPool;
    OldIsLast(cfg, s);
    AdvancesRight(cfg, s, t);
    OldShown(cfg, s, t);
    NewShown(cfg, s, t);
    var n := |Line(s)|;
    forall j | 0 <= j < |Line(t)| ensures Shows(cfg, t, Line(t)[j], t.returned + j) {
      if j + 1 < n {
        EarlierShownAt(cfg, s, t, j);
      }
    }
  }

  lemma DecideImages(cfg: Config, s: State, t: State)
    requires Conserved(cfg, s) && ImagesInOrder(cfg, s) && FreshImage(s) && DecisionsRight(cfg, s) && Decides(s, t)
    ensures ImagesInOrder(cfg, t) && DecisionsRight(cfg, t)
  {
    DecisionCases(s.detector, s.worker.rgb);
    if s.detector.count == 0 {
      FirstDecision(cfg, s, t);
    } else if s.detector.expectedSize == s.worker.rgb.size {
      LaterDecision(cfg, s, t);
    } else {
      hide Decided, Conserved, Shows, FreshImage;
      assert Line(t) == Line(s);
      hide Line;
      UntouchedImages(cfg, s, t);
    }
  }

  lemma ImagesStep(cfg: Config, s: State, a: Action)
    requires Conserved(cfg, s) && ImagesInOrder(cfg, s) && FreshImage(s) && DecisionsRight(cfg, s) && Enabled(cfg, s, a)
    ensures ImagesInOrder(cfg, Step(cfg, s, a))
  {
    hide Step, Enabled, Conserved, ImagesInOrder, FreshImage, DecisionsRight, Decides, Converts, GivesBack,
        ImagesUntouched;
    var t := Step(cfg, s, a);
    match a
    case Dequeue(i) => DequeueImages(cfg, s, i);
    case ConvertFrame => ConvertIs(cfg, s); ConvertImages(cfg, s, t);
    case Decide => DecideIs(cfg, s); DecideImages(cfg, s, t);
    case GiveBack => GiveBackIs(cfg, s); GiveBackImages(cfg, s, t);
    case _ => UntouchedStep(cfg, s, a); UntouchedImages(cfg, s, t);
  }
}
