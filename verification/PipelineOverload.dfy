/** A saver that never runs: the run of the synchronome in which an allocation fails. */
module PipelineOverload {
  import opened Images
  import opened TickDetection
  import opened Pipeline
  import opened PipelineConservation
  import opened PipelineOrder
  import opened PipelineRuns

  // Of the frames captured, all of them f, k have been decided and queued wait for the saver.
  ghost predicate Loaded(s: State, f: Frame, captured: nat, k: nat, queued: nat) {
    && |s.captured| == captured && s.exit == Running && s.saver == Listening
    && |s.frames| > 0 && s.frames[0] == f
    && s.detector.count == k && |s.tickQueue| == queued
    && (k > 0 ==> s.detector.expectedSize == |Convert(f)|)
  }

  // The saver's steps.
  predicate BySaver(a: Action) {
    a.Take? || a.Save? || a.GiveBack? || a.Finish?
  }

  ghost predicate WithoutSaver(actions: seq<Action>) {
    forall i :: 0 <= i < |actions| ==> !BySaver(actions[i])
  }

  ghost predicate BetweenFrames(s: State, f: Frame, k: nat) {
    && Loaded(s, f, k, k, if k > 0 then k - 1 else 0)
    && s.camera == Polling && s.cameraQueue == [] && s.worker == Awaiting && 0 in s.driver
  }

  ghost predicate FrameReceived(s: State, f: Frame, k: nat) {
    && Loaded(s, f, k + 1, k, if k > 0 then k - 1 else 0)
    && s.camera == Polling && s.cameraQueue == [] && s.worker == Got(0)
  }

  // One more step of a run that keeps the invariant.
  lemma Extend(cfg: Config, s0: State, acts: seq<Action>, s: State, a: Action)
    requires Leads(cfg, s0, acts, s) && WithoutSaver(acts) && Inv(cfg, s) && Enabled(cfg, s, a) && !BySaver(a)
    ensures Leads(cfg, s0, acts + [a], Step(cfg, s, a)) && WithoutSaver(acts + [a]) && Inv(cfg, Step(cfg, s, a))
  {
    hide Leads, Inv, Enabled, Step;
    LeadsOn(cfg, s0, acts, s, a);
    InvStep(cfg, s, a);
  }

  lemma CaptureOne(cfg: Config, s: State, f: Frame, k: nat) returns (s1: State, s2: State, s3: State)
    requires BetweenFrames(s, f, k)
    ensures Enabled(cfg, s, Dequeue(0)) && s1 == Step(cfg, s, Dequeue(0))
    ensures Enabled(cfg, s1, SendFrame) && s2 == Step(cfg, s1, SendFrame)
    ensures Enabled(cfg, s2, ReceiveFrame) && s3 == Step(cfg, s2, ReceiveFrame)
    ensures FrameReceived(s3, f, k)
  {
    hide Convert, Picture, Painted, Decided, InPool, MemoryValid, Consistent;
    s1 := Step(cfg, s, Dequeue(0));
    s2 := Step(cfg, s1, SendFrame);
    s3 := Step(cfg, s2, ReceiveFrame);
  }

  lemma Receive(cfg: Config, s0: State, acts: seq<Action>, s: State, f: Frame, k: nat)
    returns (actions: seq<Action>, t: State)
    requires Leads(cfg, s0, acts, s) && WithoutSaver(acts) && Inv(cfg, s) && BetweenFrames(s, f, k)
    ensures Leads(cfg, s0, actions, t) && WithoutSaver(actions) && Inv(cfg, t) && FrameReceived(t, f, k)
  {
    hide Leads, Inv, Enabled, Step, BetweenFrames, FrameReceived;
    var s1, s2, s3 := CaptureOne(cfg, s, f, k);
    Extend(cfg, s0, acts, s, Dequeue(0));
    Extend(cfg, s0, acts + [Dequeue(0)], s1, SendFrame);
    Extend(cfg, s0, acts + [Dequeue(0)] + [SendFrame], s2, ReceiveFrame);
    actions, t := acts + [Dequeue(0)] + [SendFrame] + [ReceiveFrame], s3;
  }

  // How the detector stands after each of its steps on frame k.
  ghost predicate Working(s: State, f: Frame, k: nat) {
    && Loaded(s, f, k + 1, k, if k > 0 then k - 1 else 0)
    && s.camera == Polling && s.cameraQueue == []
    && ((s.worker.Reserved? && s.worker.index == 0)
        || (s.worker.Converted? && s.worker.index == 0 && s.worker.rgb.Handle? && s.worker.rgb.size == |Convert(f)|))
  }

  ghost predicate Giving(s: State, f: Frame, k: nat) {
    && k > 0 && Loaded(s, f, k, k, if k > 1 then k - 2 else 0)
    && s.camera == Polling && s.cameraQueue == []
    && ((s.worker.Finished? && s.worker.index == 0 && (s.worker.image.Handle? <==> k > 1))
        || (k > 1 && s.worker.Forwarding? && 0 in s.driver))
  }

  lemma AllocateOne(cfg: Config, s: State, f: Frame, k: nat)
    requires FrameReceived(s, f, k) && Conserved(cfg, s) && k < NUM_BUFFERS && Enabled(cfg, s, Allocate)
    ensures Working(Step(cfg, s, Allocate), f, k) && Step(cfg, s, Allocate).worker.Reserved?
  {
    NoneAvailable(cfg, s);
    hide Conserved, Convert;
    assert |Downstream(s)| == |s.tickQueue|;
  }

  lemma ConvertOne(cfg: Config, s: State, f: Frame, k: nat)
    requires Working(s, f, k) && s.worker.Reserved? && Enabled(cfg, s, ConvertFrame)
    ensures Working(Step(cfg, s, ConvertFrame), f, k) && Step(cfg, s, ConvertFrame).worker.Converted?
  {
    hide Convert, Painted;
  }

  lemma DecideOne(cfg: Config, s: State, f: Frame, k: nat)
    requires Working(s, f, k) && s.worker.Converted? && Enabled(cfg, s, Decide)
    ensures Giving(Step(cfg, s, Decide), f, k + 1) && Step(cfg, s, Decide).worker.Finished?
  {
    hide Convert, Picture, Painted, Distance, Difference;
  }

  lemma RequeueOne(cfg: Config, s: State, f: Frame, k: nat)
    requires Giving(s, f, k) && s.worker.Finished? && Enabled(cfg, s, Requeue)
    ensures var t := Step(cfg, s, Requeue);
      if k > 1 then Giving(t, f, k) && t.worker.Forwarding? else BetweenFrames(t, f, k)
  {
    hide Convert;
  }

  lemma ForwardOne(cfg: Config, s: State, f: Frame, k: nat)
    requires Giving(s, f, k) && s.worker.Forwarding? && Enabled(cfg, s, Forward)
    ensures BetweenFrames(Step(cfg, s, Forward), f, k)
  {
    hide Convert;
  }

  lemma ReceivedConserved(cfg: Config, s: State)
    requires Inv(cfg, s)
    ensures Conserved(cfg, s)
  {
  }

  // From a frame received to the next one, while a buffer is left.
  lemma Treat(cfg: Config, s0: State, acts: seq<Action>, s: State, f: Frame, k: nat)
    returns (actions: seq<Action>, t: State)
    requires Leads(cfg, s0, acts, s) && WithoutSaver(acts) && Inv(cfg, s) && FrameReceived(s, f, k) && k < NUM_BUFFERS
    ensures Leads(cfg, s0, actions, t) && WithoutSaver(actions) && Inv(cfg, t) && BetweenFrames(t, f, k + 1)
  {
    hide Leads, Inv, Enabled, Step, Conserved, BetweenFrames;
    OnlyEmptyQueuesWait(cfg, s);
    ReceivedConserved(cfg, s);
    AllocateOne(cfg, s, f, k);
    Extend(cfg, s0, acts, s, Allocate);
    actions, t := acts + [Allocate], Step(cfg, s, Allocate);
    OnlyEmptyQueuesWait(cfg, t);
    ConvertOne(cfg, t, f, k);
    Extend(cfg, s0, actions, t, ConvertFrame);
    actions, t := actions + [ConvertFrame], Step(cfg, t, ConvertFrame);
    OnlyEmptyQueuesWait(cfg, t);
    DecideOne(cfg, t, f, k);
    Extend(cfg, s0, actions, t, Decide);
    actions, t := actions + [Decide], Step(cfg, t, Decide);
    OnlyEmptyQueuesWait(cfg, t);
    RequeueOne(cfg, t, f, k + 1);
    Extend(cfg, s0, actions, t, Requeue);
    actions, t := actions + [Requeue], Step(cfg, t, Requeue);
    if k > 0 {
      OnlyEmptyQueuesWait(cfg, t);
      ForwardOne(cfg, t, f, k + 1);
      Extend(cfg, s0, actions, t, Forward);
      actions, t := actions + [Forward], Step(cfg, t, Forward);
    }
  }

  lemma StartsEmpty(cfg: Config, s: State)
    requires Initial(cfg, s) && cfg.buffers > 0
    ensures BetweenFrames(s, s.frames[0], 0)
  {
    IndicesOnce(cfg.buffers, 0);
  }

  lemma {:induction false} TreatMany(cfg: Config, s0: State, k: nat) returns (actions: seq<Action>, t: State)
    requires Initial(cfg, s0) && cfg.buffers > 0 && k <= NUM_BUFFERS
    ensures Leads(cfg, s0, actions, t) && WithoutSaver(actions) && Inv(cfg, t) && BetweenFrames(t, s0.frames[0], k)
  {
    if k == 0 {
      InvInit(cfg, s0);
      StartsEmpty(cfg, s0);
      actions, t := [], s0;
    } else {
      actions, t := TreatMany(cfg, s0, k - 1);
      hide Leads, Inv, Initial, BetweenFrames, FrameReceived;
      actions, t := Receive(cfg, s0, actions, t, s0.frames[0], k - 1);
      actions, t := Treat(cfg, s0, actions, t, s0.frames[0], k - 1);
    }
  }

  lemma AllocationHere(cfg: Config, s: State, f: Frame)
    requires FrameReceived(s, f, NUM_BUFFERS) && Conserved(cfg, s) && Enabled(cfg, s, Allocate)
    ensures Step(cfg, s, Allocate).exit == OutOfBuffers
    ensures Step(cfg, s, Allocate).captured == s.captured && |s.captured| == NUM_BUFFERS + 1
  {
    AllocationFails(cfg, s);
    hide Conserved, Convert;
    assert |Downstream(s)| == |s.tickQueue|;
  }

  // A saver that is slow enough ends the process: twenty frames are decided, nineteen images
  // wait in the queue, and the allocation for the next frame fails. One frame buffer is
  // enough for that.
  lemma SlowSaverEndsProcess(cfg: Config, s0: State) returns (actions: seq<Action>, t: State)
    requires Initial(cfg, s0) && cfg.buffers > 0
    ensures Leads(cfg, s0, actions, t) && t.exit == OutOfBuffers && |t.captured| == 21
    ensures forall i :: 0 <= i < |actions| ==> !BySaver(actions[i])
  {
    actions, t := TreatMany(cfg, s0, NUM_BUFFERS);
    hide Leads, Inv, Initial, BetweenFrames, Step, Enabled, Conserved;
    actions, t := Receive(cfg, s0, actions, t, s0.frames[0], NUM_BUFFERS);
    OnlyEmptyQueuesWait(cfg, t);
    ReceivedConserved(cfg, t);
    AllocationHere(cfg, t, s0.frames[0]);
    Extend(cfg, s0, actions, t, Allocate);
    actions, t := actions + [Allocate], Step(cfg, t, Allocate);
  }
}
