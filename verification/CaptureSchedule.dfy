/** The sequencer of seqv4.c driving the ring of capturelib.c: the first service reads a frame
    at every twentieth tick, the second one samples the ring at every hundredth, the third
    one stores the sample. */
module CaptureSchedule {
  import V4 = SequencerV4
  import opened CaptureRing

  // What a service works with beside its own state. The scratchpad holds the conversion of
  // a sample; the model keeps the sample itself.
  datatype System = System(
    seqr: V4.State,
    ring: Ring,
    scratch: Frame,
    read: seq<Frame>,       // history: frames read, the start-up frame first
    processed: seq<Frame>,  // history: frames sampled
    stored: seq<Frame>)     // history: frames stored

  ghost predicate Initial(sys: System, startup: Frame) {
    && V4.Initial(V4.PERIODS, sys.seqr)
    && |sys.ring.slots| > 0 && sys.ring.tail == 1 % |sys.ring.slots| && sys.ring.head == 0 && sys.ring.count == 1
    && sys.ring.slots[0] == startup
    && sys.read == [startup] && sys.processed == [] && sys.stored == []
  }

  predicate Works(s: V4.State, a: V4.Action, i: nat) {
    a.Serve? && a.i == i && i < |s.services| && s.services[i].pc == V4.Working
  }

  ghost predicate Enabled(sys: System, a: V4.Action) {
    && V4.WellFormed(V4.PERIODS, sys.seqr) && V4.Enabled(sys.seqr, a)
    && |sys.ring.slots| > 0 && sys.ring.tail < |sys.ring.slots|
  }

  // One step of the sequencer or of a service; f is the frame the camera has if this step
  // reads one.
  ghost function Step(sys: System, a: V4.Action, f: Frame): System
    requires Enabled(sys, a)
  {
    var next := sys.(seqr := V4.Step(V4.PERIODS, sys.seqr, a));
    if Works(sys.seqr, a, 0) then
      next.(ring := Read(sys.ring, f), read := sys.read + [f])
    else if Works(sys.seqr, a, 1) then
      var sample := sys.ring.slots[Sampled(sys.ring)];
      next.(ring := Process(sys.ring), scratch := sample, processed := sys.processed + [sample])
    else if Works(sys.seqr, a, 2) then
      next.(stored := sys.stored + [sys.scratch])
    else next
  }

  // The releases a service has dealt with completely.
  function Completed(v: V4.Service): int {
    v.work - if v.pc == V4.Working then 1 else 0
  }

  ghost predicate Counted(s: V4.State, i: nat, n: int) {
    && i < |s.services| && Completed(s.services[i]) == n
    && (s.services[i].pc == V4.Working ==> s.services[i].work > 0)
  }

  ghost predicate Inv(sys: System) {
    && V4.Inv(V4.PERIODS, sys.seqr)
    && CaptureRing.Inv(sys.ring, sys.read, |sys.processed|)
    && Counted(sys.seqr, 0, |sys.read| - 1)
    && Counted(sys.seqr, 1, |sys.processed|)
    && Counted(sys.seqr, 2, |sys.stored|)
    && (sys.processed != [] ==> sys.scratch == sys.processed[|sys.processed| - 1])
  }

  lemma InvInit(sys: System, startup: Frame)
    requires Initial(sys, startup)
    ensures Inv(sys)
  {
    V4.InvInit(V4.PERIODS, sys.seqr);
    var before := Ring(0, 0, 0, sys.ring.slots);
    CaptureRing.InvInit(sys.ring.slots);
    CaptureRing.InvRead(before, [], 0, startup);
    assert sys.ring.slots[0 := startup] == sys.ring.slots;
    assert [] + [startup] == sys.read;
  }

  // Only its own step completes a release.
  lemma CountedStep(s: V4.State, a: V4.Action, i: nat, n: int)
    requires V4.WellFormed(V4.PERIODS, s) && V4.Enabled(s, a) && Counted(s, i, n)
    ensures Counted(V4.Step(V4.PERIODS, s, a), i, if Works(s, a, i) then n + 1 else n)
  {
  }

  lemma InvStep(sys: System, a: V4.Action, f: Frame)
    requires Inv(sys) && Enabled(sys, a)
    ensures Inv(Step(sys, a, f))
  {
    hide V4.Inv, V4.Step, Counted, CaptureRing.Inv, Read, Process, Sampled, V4.Enabled;
    V4.InvStep(V4.PERIODS, sys.seqr, a);
    CountedStep(sys.seqr, a, 0, |sys.read| - 1);
    CountedStep(sys.seqr, a, 1, |sys.processed|);
    CountedStep(sys.seqr, a, 2, |sys.stored|);
    InvRead(sys.ring, sys.read, |sys.processed|, f);
    InvProcess(sys.ring, sys.read, |sys.processed|);
  }

  // ---------- priorities ----------

  predicate Idle(s: V4.State, i: nat) {
    i < |s.services| && s.services[i].pc == V4.Waiting && s.services[i].sem == 0
  }

  // Service i works in time: those of higher priority have nothing left to do, it has no
  // further release itself, and the sampler works before the third read after its release.
  predicate InTime(s: V4.State, i: nat) {
    && s.armed && s.handler == V4.Idle && i < |s.services| && s.services[i].sem == 0
    && (i > 0 ==> Idle(s, 0)) && (i > 1 ==> Idle(s, 1))
    && (i == 1 ==> s.seqCnt % 100 < 60)
  }

  lemma WorkIsTicks(s: V4.State, i: nat)
    requires V4.Inv(V4.PERIODS, s) && s.armed && s.handler == V4.Idle && i < 3
    requires s.services[i].sem == 0 && s.services[i].pc != V4.Woken
    ensures s.services[i].work == s.seqCnt / V4.PERIODS[i]
  {
    assert V4.ServiceOk(V4.PERIODS, s, i);
  }

  // The work of service 1 at a moment when those of higher priority have nothing to do.
  predicate SamplesAlone(s: V4.State) {
    && s.armed && s.handler == V4.Idle && |s.services| == 3 && Idle(s, 0)
    && s.services[1].sem == 0 && s.services[1].pc == V4.Working
  }

  // How many reads have followed the one that is due with the sample.
  function Late(s: V4.State): nat { s.seqCnt % 100 / 20 }

  lemma ReadsSoFar(sys: System)
    requires Inv(sys) && SamplesAlone(sys.seqr)
    ensures |sys.read| == 5 * (|sys.processed| + 1) + 1 + Late(sys.seqr)
  {
    var c := sys.seqr.seqCnt;
    WorkIsTicks(sys.seqr, 0);
    WorkIsTicks(sys.seqr, 1);
    assert c / 20 == 5 * (c / 100) + c % 100 / 20;
  }

  // The k-th sample, counted from one: with three slots it is frame 5k of those read exactly
  // as long as at most two further frames have been read, that is before 60 ticks have
  // passed since its release; then frame 5k + 3 has taken the slot.
  lemma SampleOfThree(sys: System, a: V4.Action, f: Frame)
    requires Inv(sys) && Enabled(sys, a) && Works(sys.seqr, a, 1) && SamplesAlone(sys.seqr)
    requires |sys.ring.slots| == 3
    ensures var k, j := |sys.processed| + 1, Latest(|sys.read|, Sampled(sys.ring), 3);
      && 0 <= j < |sys.read| && Step(sys, a, f).processed == sys.processed + [sys.read[j]]
      && j == (if sys.seqr.seqCnt % 100 < 60 then 5 * k else 5 * k + 3)
      && (InTime(sys.seqr, 1) <==> j == 5 * k)
  {
    var k := |sys.processed| + 1;
    ReadsSoFar(sys);
    hide V4.Inv, V4.Step, CaptureRing.Inv;
    InvProcess(sys.ring, sys.read, k - 1);
    SampledSmall(sys.ring, k);
    ProcessConverts(sys.ring, sys.read, k - 1);
    hide Sampled, Latest;
    LatestOfThree(k, Late(sys.seqr));
  }

  // The latest of 5k + 1 + x frames in the slot of frame 5k - 3, which is also that of frames
  // 5k and 5k + 3.
  lemma LatestOfThree(k: nat, x: nat)
    requires k > 0 && x < 5
    ensures Latest(5 * k + 1 + x, (5 * (k - 1) + 2) % 3, 3) == if x < 3 then 5 * k else 5 * k + 3
  {
    var n, slot, j := 5 * k + 1 + x, (5 * (k - 1) + 2) % 3, if x < 3 then 5 * k else 5 * k + 3;
    assert j % 3 == slot;
    assert IsLatest(j, n, slot, 3);
    LatestIsLatest(n, slot, 3);
    LatestUnique(j, Latest(n, slot, 3), n, slot, 3);
  }

  // The k-th sample taken in time is frame 5k of those read where the ring has three slots;
  // a ring of six or more would give frame 5k - 3, the middle one of the five that the step
  // passes over.
  lemma KthSample(sys: System, a: V4.Action, f: Frame)
    requires Inv(sys) && Enabled(sys, a) && Works(sys.seqr, a, 1) && InTime(sys.seqr, 1)
    ensures var k := |sys.processed| + 1;
      var sample := Step(sys, a, f).processed[k - 1];
      && 5 * k < |sys.read| <= 5 * k + 3
      && (|sys.ring.slots| == 3 ==> sample == sys.read[5 * k])
      && (|sys.ring.slots| > 5 ==> sample == sys.read[5 * k - 3])
  {
    ReadsSoFar(sys);
    if |sys.ring.slots| == 3 {
      SampleOfThree(sys, a, f);
    } else {
      MiddleSample(sys, a, f);
    }
  }

  lemma MiddleSample(sys: System, a: V4.Action, f: Frame)
    requires Inv(sys) && Enabled(sys, a) && Works(sys.seqr, a, 1) && InTime(sys.seqr, 1)
    ensures var k := |sys.processed| + 1; |sys.ring.slots| > 5 ==>
      5 * k < |sys.read| && Step(sys, a, f).processed[k - 1] == sys.read[5 * k - 3]
  {
    var k := |sys.processed| + 1;
    ReadsSoFar(sys);
    hide V4.Inv, V4.Step, CaptureRing.Inv;
    InvProcess(sys.ring, sys.read, k - 1);
    SampledSmall(sys.ring, k);
    ProcessConverts(sys.ring, sys.read, k - 1);
  }

  lemma SampledSmall(r: Ring, k: nat)
    requires k > 0 && |r.slots| > 0 && Sampled(r) == (5 * (k - 1) + 2) % |r.slots|
    ensures Sampled(r) < 5 * k + 1
  {
    var x, p := 5 * (k - 1) + 2, |r.slots|;
    assert x == p * (x / p) + x % p;
    assert p * (x / p) >= 0;
  }

  // What is stored in time is the sample of the same number.
  lemma KthStored(sys: System, a: V4.Action, f: Frame)
    requires Inv(sys) && Enabled(sys, a) && Works(sys.seqr, a, 2) && InTime(sys.seqr, 2)
    ensures var k := |sys.stored|;
      |sys.processed| == k + 1 && Step(sys, a, f).stored == sys.stored + [sys.processed[k]]
  {
    WorkIsTicks(sys.seqr, 1);
    WorkIsTicks(sys.seqr, 2);
    hide V4.Inv, V4.Step, CaptureRing.Inv;
  }

  // ---------- runs ----------

  datatype Event = Event(action: V4.Action, frame: Frame)

  // A run in which the sampler and the store always work in time.
  ghost predicate Leads(sys: System, events: seq<Event>, t: System)
    decreases |events|
  {
    if events == [] then sys == t
    else
      var e := events[0];
      && Enabled(sys, e.action)
      && (Works(sys.seqr, e.action, 1) ==> InTime(sys.seqr, 1))
      && (Works(sys.seqr, e.action, 2) ==> InTime(sys.seqr, 2))
      && Leads(Step(sys, e.action, e.frame), events[1..], t)
  }

  ghost predicate EveryFifth(sys: System) {
    && (forall i :: 0 <= i < |sys.processed| ==> 5 * i + 5 < |sys.read| && sys.processed[i] == sys.read[5 * i + 5])
    && |sys.stored| <= |sys.processed|
    && (forall i :: 0 <= i < |sys.stored| ==> sys.stored[i] == sys.processed[i])
  }

  lemma EveryFifthStep(sys: System, e: Event)
    requires Inv(sys) && EveryFifth(sys) && |sys.ring.slots| == 3 && Enabled(sys, e.action)
    requires Works(sys.seqr, e.action, 1) ==> InTime(sys.seqr, 1)
    requires Works(sys.seqr, e.action, 2) ==> InTime(sys.seqr, 2)
    ensures EveryFifth(Step(sys, e.action, e.frame))
    ensures |Step(sys, e.action, e.frame).ring.slots| == 3
  {
    if Works(sys.seqr, e.action, 1) {
      KthSample(sys, e.action, e.frame);
    } else if Works(sys.seqr, e.action, 2) {
      KthStored(sys, e.action, e.frame);
    }
    hide V4.Inv, V4.Step, CaptureRing.Inv, V4.Enabled, InTime;
  }

  // As compiled, with one frame per second: the k-th image sampled and stored, counted from
  // one, is frame 5k of those read, in every run that keeps the priorities.
  lemma {:induction false} EveryFifthFrame(sys: System, events: seq<Event>, t: System)
    requires Inv(sys) && EveryFifth(sys) && |sys.ring.slots| == 3 && Leads(sys, events, t)
    ensures Inv(t) && EveryFifth(t)
    decreases |events|
  {
    hide Inv, Step, Enabled, EveryFifth, Works, InTime;
    if events != [] {
      var e := events[0];
      InvStep(sys, e.action, e.frame);
      EveryFifthStep(sys, e);
      EveryFifthFrame(Step(sys, e.action, e.frame), events[1..], t);
    }
  }

  // With its tenth store the third service asks for the end; the timer may still be on, but
  // the handler will not count another tick.
  ghost predicate TenAtMost(sys: System) {
    && |sys.stored| <= 10
    && (|sys.stored| == 10 && sys.seqr.armed ==>
          && sys.seqr.abortTest && sys.seqr.seqCnt < 1100
          && (sys.seqr.handler == V4.Idle || sys.seqr.handler == V4.Entered))
  }

  lemma StoreRaises(sys: System, a: V4.Action, f: Frame)
    requires Inv(sys) && TenAtMost(sys) && Enabled(sys, a) && Works(sys.seqr, a, 2) && InTime(sys.seqr, 2)
    ensures TenAtMost(Step(sys, a, f))
  {
    WorkIsTicks(sys.seqr, 2);
    hide V4.Inv, CaptureRing.Inv;
  }

  lemma NoStoreKeeps(sys: System, a: V4.Action, f: Frame)
    requires Inv(sys) && TenAtMost(sys) && Enabled(sys, a) && !Works(sys.seqr, a, 2)
    ensures TenAtMost(Step(sys, a, f))
  {
    hide V4.Inv, CaptureRing.Inv, Read, Process, Sampled, Counted;
  }

  lemma {:induction false} StoresAtMostTen(sys: System, events: seq<Event>, t: System)
    requires Inv(sys) && TenAtMost(sys) && Leads(sys, events, t)
    ensures |t.stored| <= 10
    decreases |events|
  {
    hide Inv, Step, Enabled, Works, InTime;
    if events != [] {
      var e := events[0];
      InvStep(sys, e.action, e.frame);
      if Works(sys.seqr, e.action, 2) {
        StoreRaises(sys, e.action, e.frame);
      } else {
        NoStoreKeeps(sys, e.action, e.frame);
      }
      StoresAtMostTen(Step(sys, e.action, e.frame), events[1..], t);
    }
  }

  // The frames the camera had at the reads of a run.
  ghost function FramesAtReads(sys: System, events: seq<Event>): seq<Frame>
    decreases |events|
  {
    if events == [] || !Enabled(sys, events[0].action) then []
    else
      (if Works(sys.seqr, events[0].action, 0) then [events[0].frame] else [])
      + FramesAtReads(Step(sys, events[0].action, events[0].frame), events[1..])
  }

  lemma {:induction false} ReadsAlong(sys: System, events: seq<Event>, t: System)
    requires Leads(sys, events, t)
    ensures t.read == sys.read + FramesAtReads(sys, events)
    decreases |events|
  {
    hide Enabled, InTime;
    if events != [] {
      ReadsAlong(Step(sys, events[0].action, events[0].frame), events[1..], t);
    }
  }

  // So the images stored are the first of the frames 5, 10, .., 50, the start-up frame
  // counting as frame 0.
  lemma FromTheStart(sys: System, startup: Frame, events: seq<Event>, t: System)
    requires Initial(sys, startup) && |sys.ring.slots| == 3 && Leads(sys, events, t)
    ensures forall i :: 0 <= i < |t.processed| ==> 5 * i + 5 < |t.read| && t.processed[i] == t.read[5 * i + 5]
    ensures |t.stored| <= |t.processed| && forall i :: 0 <= i < |t.stored| ==> t.stored[i] == t.processed[i]
    ensures |t.stored| <= 10
    ensures t.read == [startup] + FramesAtReads(sys, events)
  {
    InvInit(sys, startup);
    ReadsAlong(sys, events, t);
    hide Inv, Leads;
    EveryFifthFrame(sys, events, t);
    StoresAtMostTen(sys, events, t);
  }
}
