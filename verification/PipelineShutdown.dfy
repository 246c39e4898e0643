/** The end of the synchronome: main joins the saver first, then tells camera and detector to
    end and joins them. */
module PipelineShutdown {
  import opened Images
  import opened TickDetection
  import opened Pipeline
  import opened PipelineConservation
  import opened PipelineOrder
  import opened PipelineRuns

  // Nobody is told to end before the saver has ended.
  ghost predicate SaverFirst(s: State) {
    s.camera == CameraStopped || s.worker == DetectorStopped ==> s.saver == SaverDone
  }

  lemma SaverFirstStep(cfg: Config, s: State, a: Action)
    requires Enabled(cfg, s, a) && SaverFirst(s)
    ensures SaverFirst(Step(cfg, s, a))
    ensures s.saver == SaverDone ==> Step(cfg, s, a).saver == SaverDone
  {
  }

  lemma {:induction false} SaverFirstAlong(cfg: Config, s: State, actions: seq<Action>, t: State)
    requires SaverFirst(s) && Leads(cfg, s, actions, t)
    ensures SaverFirst(t)
    decreases |actions|
  {
    hide Step, Enabled, SaverFirst;
    if actions != [] {
      SaverFirstStep(cfg, s, actions[0]);
      SaverFirstAlong(cfg, Step(cfg, s, actions[0]), actions[1..], t);
    }
  }

  // In every run camera and detector end only after the saver, which ends with frameCount
  // images saved.
  lemma EndsAfterSaver(cfg: Config, s: State, actions: seq<Action>, t: State)
    requires Initial(cfg, s) && Leads(cfg, s, actions, t) && !cfg.showDiff && !cfg.saveAll
    requires t.camera == CameraStopped || t.worker == DetectorStopped
    ensures t.saver == SaverDone && |t.saved| == cfg.frameCount
  {
    SaverFirstAlong(cfg, s, actions, t);
    hide Leads, Initial, Inv;
    EveryRun(cfg, s, actions, t);
    SavedAreFirstTicks(cfg, t);
  }

  // The saver has its images, or has ended.
  ghost predicate Closing(cfg: Config, s: State) {
    s.saver == SaverDone || (s.saver == Listening && |s.saved| >= cfg.frameCount)
  }

  ghost predicate Stopped(s: State) {
    s.saver == SaverDone && s.camera == CameraStopped && s.worker == DetectorStopped
  }

  // The steps still needed.
  function ToDo(s: State): nat {
    (match s.worker
     case Got(_) => 6 case Reserved(_, _) => 5 case Converted(_, _) => 4 case Finished(_, _) => 3
     case Forwarding(_) => 2 case Awaiting => 1 case DetectorStopped => 0)
    + (match s.camera case Sending(_) => 2 case Polling => 1 case CameraStopped => 0)
    + (if s.saver == SaverDone then 0 else 1)
  }

  // The next step towards the end.
  function NextStep(s: State): Action {
    if s.saver != SaverDone then Finish
    else match s.worker
      case Got(_) => Allocate
      case Reserved(_, _) => ConvertFrame
      case Converted(_, _) => Decide
      case Finished(_, _) => Requeue
      case Forwarding(_) => Forward
      case Awaiting => StopDetector
      case DetectorStopped => if s.camera.Sending? then SendFrame else StopCamera
  }

  lemma NextEnabled(cfg: Config, s: State)
    requires Inv(cfg, s) && Closing(cfg, s) && !Stopped(s) && s.exit == Running && cfg.buffers <= 40
    ensures Enabled(cfg, s, NextStep(s))
  {
    OnlyEmptyQueuesWait(cfg, s);
    hide Inv, Enabled;
  }

  lemma CloserStep(cfg: Config, s: State)
    requires Enabled(cfg, s, NextStep(s)) && Closing(cfg, s) && !Stopped(s)
    ensures var t := Step(cfg, s, NextStep(s));
      Closing(cfg, t) && (t.exit == Running ==> ToDo(t) < ToDo(s))
  {
    hide Decided, Convert, Picture, Painted, Returned, InPool, MemoryValid, Consistent;
  }

  // Once the saver has its images a run leads to the end of all three services, or to the
  // exit of a detector that still needs a buffer for the frame it has and finds none, or
  // whose frame has the wrong size.
  lemma {:induction false} ComesToStop(cfg: Config, s: State) returns (actions: seq<Action>, t: State)
    requires Inv(cfg, s) && cfg.buffers <= 40
    requires s.saver == SaverDone || (s.saver == Listening && |s.saved| >= cfg.frameCount)
    ensures Leads(cfg, s, actions, t)
    ensures t.exit == Running ==> t.saver == SaverDone && t.camera == CameraStopped && t.worker == DetectorStopped
    decreases ToDo(s)
  {
    hide Inv, Enabled, Step, ToDo;
    if s.exit != Running || Stopped(s) {
      actions, t := [], s;
    } else {
      var a := NextStep(s);
      NextEnabled(cfg, s);
      CloserStep(cfg, s);
      InvStep(cfg, s, a);
      var u := Step(cfg, s, a);
      if u.exit == Running {
        actions, t := ComesToStop(cfg, u);
      } else {
        actions, t := [], u;
      }
      assert ([a] + actions)[1..] == actions;
      actions := [a] + actions;
    }
  }
}
