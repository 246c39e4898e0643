/** The invariant of the synchronome is kept by every step, and what that says of whole runs. */
module PipelineRuns {
  import opened Images
  import opened TickDetection
  import opened Pipeline
  import opened PipelineConservation
  import opened PipelineOrder
  import Hysteresis

  // ---------- decisions ----------

  lemma RightKept(cfg: Config, s: State, a: Action)
    requires DecisionsRight(cfg, s) && Enabled(cfg, s, a) && !a.Dequeue? && !a.Decide?
    ensures DecisionsRight(cfg, Step(cfg, s, a))
  {
    hide Convert, Picture, InPool, Consistent, Returned, MovingAfter, SameSize, MemoryValid;
  }

  lemma RightDequeue(cfg: Config, s: State, i: nat)
    requires DecisionsRight(cfg, s) && Enabled(cfg, s, Dequeue(i))
    ensures DecisionsRight(cfg, Step(cfg, s, Dequeue(i)))
  {
    hide Convert, MovingAfter, MemoryValid;
    MovingStable(s.captured, s.frames[i], s.detector.count);
  }

  lemma RightStep(cfg: Config, s: State, a: Action)
    requires Conserved(cfg, s) && ImagesInOrder(cfg, s) && FreshImage(s) && DecisionsRight(cfg, s) && Enabled(cfg, s, a)
    ensures DecisionsRight(cfg, Step(cfg, s, a))
  {
    hide Step, Conserved, ImagesInOrder, FreshImage, DecisionsRight, Decides;
    match a
    case Dequeue(i) => RightDequeue(cfg, s, i);
    case Decide => DecideIs(cfg, s); DecideImages(cfg, s, Step(cfg, s, a));
    case _ => RightKept(cfg, s, a);
  }

  // ---------- the image being made ----------

  lemma FreshAllocate(cfg: Config, s: State)
    requires FreshImage(s) && Enabled(cfg, s, Allocate)
    ensures FreshImage(Step(cfg, s, Allocate))
  {
  }

  lemma FreshConvert(s: State, t: State)
    requires FreshImage(s) && FramesInOrder(s) && Converts(s, t)
    ensures FreshImage(t)
  {
    hide Line, Picture, Painted, Convert;
    var img := Convert(s.frames[s.worker.index]);
    assert Undecided(s)[0] == s.worker.index;
    assert HoldsFrame(s, Undecided(s)[0], s.detector.count + 0);
    PaintedThere(s.detector.memory, s.worker.rgb.id, img, t.worker.rgb);
    assert !Fresh(s)[0].isTick;
  }

  lemma FreshDecide(cfg: Config, s: State)
    requires FreshImage(s) && Enabled(cfg, s, Decide)
    ensures FreshImage(Step(cfg, s, Decide))
  {
    hide Picture, Painted, Convert, InPool, MemoryValid;
  }

  lemma FreshGiveBack(cfg: Config, s: State)
    requires FreshImage(s) && Enabled(cfg, s, GiveBack)
    ensures FreshImage(Step(cfg, s, GiveBack))
  {
    hide Picture, Convert, InPool, MemoryValid;
  }

  lemma FreshQuiet(cfg: Config, s: State, a: Action)
    requires FreshImage(s) && Enabled(cfg, s, a)
    requires !a.Allocate? && !a.ConvertFrame? && !a.Decide? && !a.GiveBack?
    ensures FreshImage(Step(cfg, s, a))
  {
    hide Picture, Convert, InPool, MemoryValid, Consistent;
  }

  lemma FreshStep(cfg: Config, s: State, a: Action)
    requires FreshImage(s) && FramesInOrder(s) && Enabled(cfg, s, a)
    ensures FreshImage(Step(cfg, s, a))
  {
    hide Step, Enabled, FramesInOrder, FreshImage, Converts;
    match a
    case Allocate => FreshAllocate(cfg, s);
    case ConvertFrame => ConvertIs(cfg, s); FreshConvert(s, Step(cfg, s, a));
    case Decide => FreshDecide(cfg, s);
    case GiveBack => FreshGiveBack(cfg, s);
    case _ => FreshQuiet(cfg, s, a);
  }

  // ---------- the images saved ----------

  // What the saver holds is finished: the old image is still behind it.
  lemma HeldImage(cfg: Config, s: State)
    requires ImagesInOrder(cfg, s) && s.detector.count <= |s.captured| && (s.saver.Holding? || s.saver.Processed?)
    ensures s.returned + 1 < s.detector.count && MemoryValid(s.detector.memory) && InPool(s.saver.h)
    ensures Picture(s.detector.memory, s.saver.h) == Final(cfg, s.captured, s.returned)
    ensures s.saver.h.isTick == IsTick(s.captured, s.returned)
  {
    hide Picture, Final, IsTick;
    assert Line(s)[0] == s.saver.h;
    assert Shows(cfg, s, Line(s)[0], s.returned + 0);
  }

  lemma SaveIs(cfg: Config, s: State)
    requires Enabled(cfg, s, Save)
    ensures s.saver.Holding? && MemoryValid(s.detector.memory) && InPool(s.saver.h)
    ensures var t := Step(cfg, s, Save);
      && t.saver == Processed(s.saver.h) && t.returned == s.returned && t.captured == s.captured
      && t.saved == s.saved + if s.saver.h.isTick || cfg.saveAll then [Picture(s.detector.memory, s.saver.h)] else []
  {
    hide Picture, InPool, MemoryValid;
  }

  lemma SelectedNext(cfg: Config, fs: seq<Frame>, m: nat)
    requires m + 1 < |fs|
    ensures Selected(cfg, fs, m + 1) ==
      Selected(cfg, fs, m) + if IsTick(fs, m) || cfg.saveAll then [Final(cfg, fs, m)] else []
  {
    hide IsTick, Final;
  }

  lemma SavedSave(cfg: Config, s: State)
    requires ImagesInOrder(cfg, s) && DecisionsRight(cfg, s) && SavedRight(cfg, s) && Enabled(cfg, s, Save)
    ensures SavedRight(cfg, Step(cfg, s, Save))
  {
    hide ImagesInOrder, Picture, Final, IsTick, Selected, Step, Enabled, MovingAfter, MemoryValid, InPool, SameSize;
    SaveIs(cfg, s);
    HeldImage(cfg, s);
    SelectedNext(cfg, s.captured, s.returned);
  }

  lemma SavedDequeue(cfg: Config, s: State, i: nat)
    requires SavedRight(cfg, s) && Enabled(cfg, s, Dequeue(i))
    ensures SavedRight(cfg, Step(cfg, s, Dequeue(i)))
  {
    hide Selected;
    SelectedStable(cfg, s.captured, s.frames[i], Dealt(s));
  }

  lemma SavedQuiet(cfg: Config, s: State, a: Action)
    requires SavedRight(cfg, s) && Enabled(cfg, s, a) && !a.Dequeue? && !a.Save?
    ensures SavedRight(cfg, Step(cfg, s, a))
  {
    hide Selected, Decided, Convert, Picture, Painted, InPool, MemoryValid, Consistent;
  }

  lemma SavedStep(cfg: Config, s: State, a: Action)
    requires ImagesInOrder(cfg, s) && DecisionsRight(cfg, s) && SavedRight(cfg, s) && Enabled(cfg, s, a)
    ensures SavedRight(cfg, Step(cfg, s, a))
  {
    hide Step, ImagesInOrder, DecisionsRight, SavedRight;
    match a
    case Dequeue(i) => SavedDequeue(cfg, s, i);
    case Save => SavedSave(cfg, s);
    case _ => SavedQuiet(cfg, s, a);
  }

  // ---------- runs ----------

  lemma InvStep(cfg: Config, s: State, a: Action)
    requires Inv(cfg, s) && Enabled(cfg, s, a)
    ensures Inv(cfg, Step(cfg, s, a))
  {
    hide Step, Enabled, Conserved, DecisionsRight, FramesInOrder, ImagesInOrder, FreshImage, SavedRight;
    ConservedStep(cfg, s, a);
    RightStep(cfg, s, a);
    FramesStep(cfg, s, a);
    ImagesStep(cfg, s, a);
    FreshStep(cfg, s, a);
    SavedStep(cfg, s, a);
    PoolFits(cfg, s, a);
  }

  // The actions can be taken one after the other from s, ending in t.
  ghost predicate Leads(cfg: Config, s: State, actions: seq<Action>, t: State)
    decreases |actions|
  {
    if actions == [] then s == t
    else Enabled(cfg, s, actions[0]) && Leads(cfg, Step(cfg, s, actions[0]), actions[1..], t)
  }

  lemma {:induction false} InvAlong(cfg: Config, s: State, actions: seq<Action>, t: State)
    requires Inv(cfg, s) && Leads(cfg, s, actions, t)
    ensures Inv(cfg, t)
    decreases |actions|
  {
    hide Inv, Step, Enabled;
    if actions != [] {
      InvStep(cfg, s, actions[0]);
      InvAlong(cfg, Step(cfg, s, actions[0]), actions[1..], t);
    }
  }

  // What a camera delivers that fills and hands over buffers as in actions, whatever the
  // services do meanwhile.
  ghost function Delivered(frames: seq<Frame>, actions: seq<Action>): seq<Frame>
    decreases |actions|
  {
    if actions == [] then []
    else match actions[0]
      case Fill(i, f) => Delivered(if i < |frames| then frames[i := f] else frames, actions[1..])
      case Dequeue(i) => (if i < |frames| then [frames[i]] else []) + Delivered(frames, actions[1..])
      case _ => Delivered(frames, actions[1..])
  }

  // The frames captured in a run are those the camera delivered.
  lemma {:induction false} CapturedAreDelivered(cfg: Config, s: State, actions: seq<Action>, t: State)
    requires Leads(cfg, s, actions, t)
    ensures t.captured == s.captured + Delivered(s.frames, actions)
    decreases |actions|
  {
    if actions != [] {
      CapturedAreDelivered(cfg, Step(cfg, s, actions[0]), actions[1..], t);
      CapturedStep(cfg, s, actions[0]);
      hide Step, Enabled;
    }
  }

  lemma CapturedStep(cfg: Config, s: State, a: Action)
    requires Enabled(cfg, s, a)
    ensures var t := Step(cfg, s, a);
      && t.frames == (if a.Fill? && a.index < |s.frames| then s.frames[a.index := a.frame] else s.frames)
      && t.captured == s.captured + if a.Dequeue? && a.index < |s.frames| then [s.frames[a.index]] else []
  {
    hide Decided, Convert, Picture, Painted, InPool, MemoryValid, Consistent, Returned;
  }

  lemma EveryRun(cfg: Config, s: State, actions: seq<Action>, t: State)
    requires Initial(cfg, s) && Leads(cfg, s, actions, t)
    ensures Inv(cfg, t)
  {
    hide Inv, Initial, Leads;
    InvInit(cfg, s);
    InvAlong(cfg, s, actions, t);
  }

  // ---------- what the invariant says ----------

  lemma WorkerGuards(cfg: Config, s: State)
    requires Conserved(cfg, s) && DecisionsRight(cfg, s) && ImagesInOrder(cfg, s) && FramesInOrder(s)
    ensures s.worker.Reserved? ==> InPool(s.worker.rgb) && s.worker.index < |s.frames|
    ensures s.worker.Converted? ==> InPool(s.worker.rgb)
    ensures Consistent(s.detector)
  {
    if s.worker.Reserved? {
      assert Undecided(s)[0] == s.worker.index;
      assert HoldsFrame(s, Undecided(s)[0], s.detector.count + 0);
    }
    if s.detector.count > 0 {
      OldIsLast(cfg, s);
    }
    AllHandlesInPool(cfg, s);
    hide Conserved, FramesInOrder, ImagesInOrder, IsTick, Convert, MovingAfter, Final;
  }

  lemma AllHandlesInPool(cfg: Config, s: State)
    requires Conserved(cfg, s)
    ensures s.worker.Reserved? || s.worker.Converted? ==> InPool(s.worker.rgb)
    ensures Pooled(s.detector.available)
  {
    hide Line, InPool;
    IdsOfSum(Fresh(s) + s.detector.available, Line(s));
    IdsOfSum(Fresh(s), s.detector.available);
    assert Fresh(s) != [] ==> InPool(Fresh(s)[0]);
  }

  // While the process runs, a service waits only for an empty queue to fill: the detector
  // and the saver in the middle of their work, and with at most forty frame buffers a
  // camera with a frame in hand, can always take their next step, and so can a service whose
  // queue is not empty and one that is told to end.
  lemma OnlyEmptyQueuesWait(cfg: Config, s: State)
    requires Inv(cfg, s) && s.exit == Running
    ensures s.worker.Got? ==> Enabled(cfg, s, Allocate)
    ensures s.worker.Reserved? ==> Enabled(cfg, s, ConvertFrame)
    ensures s.worker.Converted? ==> Enabled(cfg, s, Decide)
    ensures s.worker.Finished? ==> Enabled(cfg, s, Requeue)
    ensures s.worker.Forwarding? ==> Enabled(cfg, s, Forward)
    ensures s.saver.Holding? ==> Enabled(cfg, s, Save)
    ensures s.saver.Processed? ==> Enabled(cfg, s, GiveBack)
    ensures s.camera.Sending? && cfg.buffers <= 40 ==> Enabled(cfg, s, SendFrame)
    ensures s.worker == Awaiting && s.cameraQueue != [] ==> Enabled(cfg, s, ReceiveFrame)
    ensures s.saver == Listening && |s.saved| < cfg.frameCount && s.tickQueue != [] ==> Enabled(cfg, s, Take)
    ensures s.saver == Listening && |s.saved| >= cfg.frameCount ==> Enabled(cfg, s, Finish)
    ensures s.saver == SaverDone ==>
      && (s.camera == Polling ==> Enabled(cfg, s, StopCamera))
      && (s.worker == Awaiting ==> Enabled(cfg, s, StopDetector))
    ensures s.camera == Polling ==> forall i: nat :: i in s.driver ==> Enabled(cfg, s, Dequeue(i))
  {
    hide Conserved, FramesInOrder, ImagesInOrder, FreshImage, SavedRight, Consistent, InPool, MovingAfter, Convert,
        MemoryValid;
    WorkerGuards(cfg, s);
    DriverGuards(cfg, s);
    if s.saver.Holding? {
      HeldImage(cfg, s);
    }
    if s.worker.Forwarding? {
      ForwardingHasOld(cfg, s);
      ForwardNeverBlocks(cfg, s);
    }
    if s.camera.Sending? && cfg.buffers <= QUEUE_MAX {
      CameraNeverBlocks(cfg, s);
    }
  }

  lemma DriverGuards(cfg: Config, s: State)
    requires Conserved(cfg, s) && DecisionsRight(cfg, s)
    ensures forall i: nat :: i in s.driver ==> i < |s.frames|
  {
    forall i: nat | i in s.driver ensures i < |s.frames| {
      QueuedOnce(cfg, s, i);
      hide Conserved;
    }
  }

  lemma ForwardingHasOld(cfg: Config, s: State)
    requires ImagesInOrder(cfg, s) && s.worker.Forwarding?
    ensures s.detector.count > 0
  {
    assert |InHand(s)| == 1;
  }

  // The image the saver holds is not touched by anything the other services do.
  lemma HeldStays(cfg: Config, s: State, a: Action)
    requires Inv(cfg, s) && Enabled(cfg, s, a) && s.saver.Holding? && a != Save
    ensures var t := Step(cfg, s, a);
      && t.saver == s.saver && MemoryValid(s.detector.memory) && MemoryValid(t.detector.memory) && InPool(s.saver.h)
      && Picture(t.detector.memory, s.saver.h) == Picture(s.detector.memory, s.saver.h)
  {
    SaverUnmoved(cfg, s, a);
    hide Step, Enabled, Conserved, FramesInOrder, ImagesInOrder, FreshImage, SavedRight, Picture, IsTick,
        MovingAfter, Convert;
    InvStep(cfg, s, a);
    HeldImage(cfg, s);
    HeldImage(cfg, Step(cfg, s, a));
  }

  lemma SaverUnmoved(cfg: Config, s: State, a: Action)
    requires Enabled(cfg, s, a) && s.saver.Holding? && a != Save
    ensures var t := Step(cfg, s, a); t.saver == s.saver && t.returned == s.returned
    ensures var t := Step(cfg, s, a); |t.captured| >= |s.captured| && t.captured[..|s.captured|] == s.captured
  {
    hide Decided, Convert, Picture, Painted, InPool, MemoryValid, Consistent;
  }

  // The indices of the tick frames below m.
  function TickIndices(fs: seq<Frame>, m: nat): seq<nat>
    requires m <= |fs|
  {
    if m == 0 then [] else TickIndices(fs, m - 1) + if IsTick(fs, m - 1) then [m - 1] else []
  }

  lemma {:induction false} TickIndicesAre(fs: seq<Frame>, m: nat)
    requires m <= |fs|
    ensures forall i :: 0 <= i < |TickIndices(fs, m)| ==> TickIndices(fs, m)[i] < m
    ensures forall i, j :: 0 <= i < j < |TickIndices(fs, m)| ==> TickIndices(fs, m)[i] < TickIndices(fs, m)[j]
    ensures forall k: nat :: k < m ==> (k in TickIndices(fs, m) <==> IsTick(fs, k))
  {
    hide IsTick;
    if m > 0 {
      TickIndicesAre(fs, m - 1);
    }
  }

  lemma {:induction false} SelectedAre(cfg: Config, fs: seq<Frame>, m: nat)
    requires (m == 0 || m < |fs|) && !cfg.showDiff && !cfg.saveAll
    ensures |Selected(cfg, fs, m)| == |TickIndices(fs, m)|
    ensures forall i :: 0 <= i < |Selected(cfg, fs, m)| ==>
      TickIndices(fs, m)[i] < |fs| && Selected(cfg, fs, m)[i] == Convert(fs[TickIndices(fs, m)[i]])
  {
    hide IsTick, Convert;
    if m > 0 {
      SelectedAre(cfg, fs, m - 1);
    }
  }

  // As main configures the services: the images saved are the conversions of the tick
  // frames among those dealt with, all of them and in order, and when the saver is done
  // there are frameCount of them.
  lemma SavedAreFirstTicks(cfg: Config, s: State)
    requires Inv(cfg, s) && !cfg.showDiff && !cfg.saveAll
    ensures Dealt(s) <= |s.captured|
    ensures var ts := TickIndices(s.captured, Dealt(s));
      && |s.saved| == |ts| <= cfg.frameCount
      && (forall k: nat :: k < Dealt(s) ==> (k in ts <==> IsTick(s.captured, k)))
      && (forall i, j :: 0 <= i < j < |ts| ==> ts[i] < ts[j])
      && (forall i :: 0 <= i < |ts| ==> ts[i] < |s.captured| && s.saved[i] == Convert(s.captured[ts[i]]))
    ensures s.saver.SaverDone? ==> |s.saved| == cfg.frameCount
  {
    hide Conserved, FramesInOrder, ImagesInOrder, FreshImage, DecisionsRight, IsTick, Convert;
    SelectedAre(cfg, s.captured, Dealt(s));
    TickIndicesAre(s.captured, Dealt(s));
  }

  lemma DiffAt(fs: seq<Frame>, k: nat)
    requires 0 < k < |fs|
    ensures |Diffs(fs)| == |fs| - 1 && Diffs(fs)[k - 1] == FrameDiff(fs[k], fs[k - 1])
  {
    hide FrameDiff;
  }

  // Frame m differs from the one before it by more than 0.0023 of the largest possible sum,
  // and no frame from there on up to k by less than 0.0022 of it.
  ghost predicate MovingFrom(fs: seq<Frame>, m: nat, k: nat) {
    && 0 < m < k <= |fs| && 10000 * FrameDiff(fs[m], fs[m - 1]) > 23 * (255 * |Convert(fs[0])|)
    && forall q :: m < q < k ==> 10000 * FrameDiff(fs[q], fs[q - 1]) >= 22 * (255 * |Convert(fs[0])|)
  }

  // Which frames are ticks, from the frames alone: those that differ from the frame before
  // by less than 0.0022 of the largest possible sum, for the first time since one that
  // differed by more than 0.0023 of it.
  lemma TickFramesExactly(fs: seq<Frame>, k: nat)
    requires k < |fs|
    ensures IsTick(fs, k) <==>
      && k > 0 && 10000 * FrameDiff(fs[k], fs[k - 1]) < 22 * (255 * |Convert(fs[0])|)
      && exists m: nat :: MovingFrom(fs, m, k)
  {
    hide FrameDiff, Diffs, Convert, Hysteresis.Moving, Hysteresis.Tick;
    if k > 0 {
      DiffAt(fs, k);
      Hysteresis.TickExactly(Diffs(fs), MaxDiff(fs), k - 1);
      forall m: nat | 0 < m < k
        ensures Hysteresis.MovingSince(Diffs(fs), MaxDiff(fs), m - 1, k - 1) <==> MovingFrom(fs, m, k)
      {
        SinceIsFrom(fs, m, k);
      }
      var ds, max, last := Diffs(fs), MaxDiff(fs), k - 1;
      if n: nat :| Hysteresis.MovingSince(ds, max, n, last) {
        assert MovingFrom(fs, n + 1, k);
      }
      if m: nat :| MovingFrom(fs, m, k) {
        assert Hysteresis.MovingSince(ds, max, m - 1, last);
      }
    }
  }

  lemma SinceIsFrom(fs: seq<Frame>, m: nat, k: nat)
    requires 0 < m < k < |fs|
    ensures k - 1 <= |Diffs(fs)|
    ensures Hysteresis.MovingSince(Diffs(fs), MaxDiff(fs), m - 1, k - 1) <==> MovingFrom(fs, m, k)
  {
    hide FrameDiff, Convert;
    var ds := Diffs(fs);
    assert forall q :: 0 < q < |fs| ==> ds[q - 1] == FrameDiff(fs[q], fs[q - 1]);
    if Hysteresis.MovingSince(ds, MaxDiff(fs), m - 1, k - 1) {
      forall q | m < q < k
        ensures 10000 * FrameDiff(fs[q], fs[q - 1]) >= 22 * (255 * |Convert(fs[0])|)
      {
        assert 10000 * ds[q - 1] >= 22 * MaxDiff(fs);
      }
    }
  }

  // Between two tick frames lies a frame that differs from the one before it by more than
  // the upper threshold, and a tick frame itself does not.
  lemma TickFramesApart(fs: seq<Frame>, i: nat, j: nat) returns (k: nat)
    requires i < j < |fs| && IsTick(fs, i) && IsTick(fs, j)
    ensures i < k < j && 10000 * FrameDiff(fs[k], fs[k - 1]) > 23 * (255 * |Convert(fs[0])|)
    ensures 10000 * FrameDiff(fs[j], fs[j - 1]) < 22 * (255 * |Convert(fs[0])|)
  {
    hide FrameDiff, Diffs, Convert, Hysteresis.Moving;
    DiffAt(fs, j);
    var m := Hysteresis.TicksApart(Diffs(fs), MaxDiff(fs), i - 1, j - 1);
    k := m + 1;
    DiffAt(fs, k);
  }

  // Undisturbed, the three steps of the detector on a frame are one call of execute.
  lemma StepsAreExecute(cfg: Config, s: State, s1: State, s2: State, s3: State)
    requires Consistent(s.detector) && s.worker.Got? && s.worker.index < |s.frames|
    requires Enabled(cfg, s, Allocate) && s.detector.available != [] && s1 == Step(cfg, s, Allocate)
    requires Enabled(cfg, s1, ConvertFrame) && s2 == Step(cfg, s1, ConvertFrame)
    requires Enabled(cfg, s2, Decide) && s3 == Step(cfg, s2, Decide)
    ensures var (d, outcome) := Executed(s.detector, s.frames[s.worker.index]);
      && (s3.exit == WrongSize <==> outcome == SizeMismatch)
      && (s3.exit == Running ==>
            s3.detector == d && s3.worker == Finished(s.worker.index, if outcome.Shown? then outcome.image else Null))
  {
    hide Decided, Convert, Painted;
  }

  // ---------- more than forty frame buffers ----------

  lemma {:induction false} LeadsOn(cfg: Config, s: State, actions: seq<Action>, t: State, a: Action)
    requires Leads(cfg, s, actions, t) && Enabled(cfg, t, a)
    ensures Leads(cfg, s, actions + [a], Step(cfg, t, a))
    decreases |actions|
  {
    hide Step, Enabled;
    if actions == [] {
      assert actions + [a] == [a] && [a][1..] == [];
    } else {
      LeadsOn(cfg, Step(cfg, s, actions[0]), actions[1..], t, a);
      assert (actions + [a])[1..] == actions[1..] + [a];
    }
  }

  // k frames dequeued and sent while the detector has not run yet.
  ghost predicate Backlog(cfg: Config, s: State, k: nat) {
    && k <= cfg.buffers && |s.frames| == cfg.buffers && s.exit == Running
    && s.camera == Polling && |s.cameraQueue| == k
    && forall i: nat :: k <= i < cfg.buffers ==> i in s.driver
  }

  lemma BacklogStart(cfg: Config, s: State)
    requires Initial(cfg, s)
    ensures Backlog(cfg, s, 0)
  {
    forall i: nat | i < cfg.buffers ensures i in s.driver {
      IndicesOnce(cfg.buffers, i);
    }
  }

  lemma BacklogDequeue(cfg: Config, s: State, k: nat) returns (t: State)
    requires Backlog(cfg, s, k) && k < cfg.buffers
    ensures Enabled(cfg, s, Dequeue(k)) && t == Step(cfg, s, Dequeue(k))
    ensures t.exit == Running && t.camera == Sending(k) && |t.cameraQueue| == k && |t.frames| == cfg.buffers
    ensures forall i: nat :: k + 1 <= i < cfg.buffers ==> i in t.driver
  {
    t := Step(cfg, s, Dequeue(k));
  }

  lemma BacklogSend(cfg: Config, t: State, k: nat) returns (u: State)
    requires t.exit == Running && t.camera == Sending(k) && |t.cameraQueue| == k && |t.frames| == cfg.buffers
    requires k < QUEUE_MAX < cfg.buffers && forall i: nat :: k + 1 <= i < cfg.buffers ==> i in t.driver
    ensures Enabled(cfg, t, SendFrame) && u == Step(cfg, t, SendFrame) && Backlog(cfg, u, k + 1)
  {
    u := Step(cfg, t, SendFrame);
  }

  lemma {:induction false} BacklogGrows(cfg: Config, s: State, k: nat) returns (actions: seq<Action>, t: State)
    requires Initial(cfg, s) && k <= QUEUE_MAX < cfg.buffers
    ensures Leads(cfg, s, actions, t) && Backlog(cfg, t, k)
  {
    if k == 0 {
      BacklogStart(cfg, s);
      actions, t := [], s;
    } else {
      actions, t := BacklogGrows(cfg, s, k - 1);
      hide Leads, Initial, Step, Enabled, Backlog;
      var u := BacklogDequeue(cfg, t, k - 1);
      LeadsOn(cfg, s, actions, t, Dequeue(k - 1));
      var v := BacklogSend(cfg, u, k - 1);
      LeadsOn(cfg, s, actions + [Dequeue(k - 1)], u, SendFrame);
      actions, t := actions + [Dequeue(k - 1)] + [SendFrame], v;
    }
  }

  // The bound of forty is exact: with more buffers some run leaves the camera waiting.
  lemma CameraCanBlock(cfg: Config, s: State) returns (actions: seq<Action>, t: State)
    requires Initial(cfg, s) && cfg.buffers > 40
    ensures Leads(cfg, s, actions, t) && t.exit == Running && t.camera.Sending?
    ensures |t.cameraQueue| == 40 && !Enabled(cfg, t, SendFrame)
  {
    actions, t := BacklogGrows(cfg, s, QUEUE_MAX);
    hide Leads, Initial, Step;
    var u := BacklogDequeue(cfg, t, QUEUE_MAX);
    LeadsOn(cfg, s, actions, t, Dequeue(QUEUE_MAX));
    actions, t := actions + [Dequeue(QUEUE_MAX)], u;
  }
}
