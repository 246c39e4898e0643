/** The synchronome as three services that pass buffers through two message queues. Every
    step is one thing a service does between two points where another may run; a run is any
    interleaving of them. */
module Pipeline {
  import opened Images
  import opened TickDetection
  import Hysteresis

  const QUEUE_MAX := 40

  datatype Config = Config(buffers: nat, frameCount: nat, saveAll: bool, showDiff: bool)

  // Where each service stands. A frame buffer is named by its index; the detector holds one
  // from the receipt of a message until it gives it back to the driver.
  datatype Camera = Polling | Sending(index: nat) | CameraStopped
  datatype Worker =
    | Awaiting
    | Got(index: nat)
    | Reserved(index: nat, rgb: Handle)
    | Converted(index: nat, rgb: Handle)
    | Finished(index: nat, image: Handle)
    | Forwarding(image: Handle)
    | DetectorStopped
  datatype Saver = Listening | Holding(h: Handle) | Processed(h: Handle) | SaverDone

  datatype Exit = Running | OutOfBuffers | WrongSize | PoolTooLarge

  datatype State = State(
    frames: seq<Frame>,        // what each frame buffer contains
    driver: multiset<nat>,     // the buffers queued with the driver
    camera: Camera,
    cameraQueue: seq<nat>,
    worker: Worker,
    detector: Detector,
    tickQueue: seq<Handle>,
    saver: Saver,
    exit: Exit,
    captured: seq<Frame>,      // history: the frames dequeued from the driver
    returned: nat,             // history: how many images the saver has given back
    saved: seq<Image>)         // history: the images saved

  datatype Action =
    | Fill(index: nat, frame: Frame)
    | Dequeue(index: nat)
    | SendFrame
    | StopCamera
    | ReceiveFrame
    | Allocate
    | ConvertFrame
    | Decide
    | Requeue
    | Forward
    | StopDetector
    | Take
    | Save
    | GiveBack
    | Finish

  function PoolHandles(n: nat): seq<Handle> {
    seq(n, i requires 0 <= i < n => Handle(i, 0, false))
  }

  function Indices(n: nat): (r: seq<nat>)
    ensures |r| == n
  {
    if n == 0 then [] else Indices(n - 1) + [n - 1]
  }

  // Memory may hold anything at the start.
  ghost predicate Initial(cfg: Config, s: State) {
    && |s.frames| == cfg.buffers
    && s.driver == multiset(Indices(cfg.buffers))
    && s.camera == Polling && s.cameraQueue == [] && s.worker == Awaiting
    && MemoryValid(s.detector.memory)
    && s.detector == Detector(
      cfg.showDiff, PoolHandles(NUM_BUFFERS), Null, 0, s.detector.expectedSize, false, s.detector.memory)
    && s.tickQueue == [] && s.saver == Listening && s.exit == Running
    && s.captured == [] && s.returned == 0 && s.saved == []
  }

  // Which steps can be taken. A full queue blocks its sender, an empty one its receiver; the
  // conditions on handles and memory only make the steps well-formed and never fail in a run
  // (PipelineRuns.OnlyEmptyQueuesWait).
  ghost predicate Enabled(cfg: Config, s: State, a: Action) {
    s.exit == Running && match a
    case Fill(i, _) => i in s.driver && i < |s.frames|
    case Dequeue(i) => s.camera == Polling && i in s.driver && i < |s.frames|
    case SendFrame => s.camera.Sending? && |s.cameraQueue| < QUEUE_MAX
    case StopCamera => s.camera == Polling && s.saver == SaverDone
    case ReceiveFrame => s.worker == Awaiting && s.cameraQueue != []
    case Allocate => s.worker.Got?
    case ConvertFrame =>
      && s.worker.Reserved? && s.worker.index < |s.frames|
      && InPool(s.worker.rgb) && MemoryValid(s.detector.memory)
    case Decide => s.worker.Converted? && InPool(s.worker.rgb) && Consistent(s.detector)
    case Requeue => s.worker.Finished?
    case Forward => s.worker.Forwarding? && |s.tickQueue| < QUEUE_MAX
    case StopDetector => s.worker == Awaiting && s.saver == SaverDone
    case Take => s.saver == Listening && |s.saved| < cfg.frameCount && s.tickQueue != []
    case Save => s.saver.Holding? && InPool(s.saver.h) && MemoryValid(s.detector.memory)
    case GiveBack => s.saver.Processed?
    case Finish => s.saver == Listening && |s.saved| >= cfg.frameCount
  }

  ghost function Step(cfg: Config, s: State, a: Action): State
    requires Enabled(cfg, s, a)
  {
    match a
    case Fill(i, f) => s.(frames := s.frames[i := f])
    case Dequeue(i) =>
      s.(driver := s.driver - multiset{i}, camera := Sending(i), captured := s.captured + [s.frames[i]])
    case SendFrame => s.(cameraQueue := s.cameraQueue + [s.camera.index], camera := Polling)
    case StopCamera => s.(camera := CameraStopped)
    case ReceiveFrame => s.(worker := Got(s.cameraQueue[0]), cameraQueue := s.cameraQueue[1..])
    case Allocate =>
      if s.detector.available == [] then s.(exit := OutOfBuffers)
      else s.(worker := Reserved(s.worker.index, s.detector.available[0]),
              detector := s.detector.(available := s.detector.available[1..]))
    case ConvertFrame =>
      var img := Convert(s.frames[s.worker.index]);
      s.(worker := Converted(s.worker.index, s.worker.rgb.(size := |img|)),
         detector := s.detector.(memory := Painted(s.detector.memory, s.worker.rgb.id, img)))
    case Decide =>
      var (d, outcome) := Decided(s.detector, s.worker.rgb);
      if outcome.SizeMismatch? then s.(exit := WrongSize)
      else s.(worker := Finished(s.worker.index, if outcome.Shown? then outcome.image else Null), detector := d)
    case Requeue =>
      s.(driver := s.driver + multiset{s.worker.index},
         worker := if s.worker.image.Handle? then Forwarding(s.worker.image) else Awaiting)
    case Forward => s.(tickQueue := s.tickQueue + [s.worker.image], worker := Awaiting)
    case StopDetector => s.(worker := DetectorStopped)
    case Take => s.(saver := Holding(s.tickQueue[0]), tickQueue := s.tickQueue[1..])
    case Save =>
      s.(saver := Processed(s.saver.h),
         saved := if s.saver.h.isTick || cfg.saveAll
                  then s.saved + [Picture(s.detector.memory, s.saver.h)]
                  else s.saved)
    case GiveBack =>
      var available := Returned(s.detector.available, s.saver.h);
      s.(saver := Listening, returned := s.returned + 1, detector := s.detector.(available := available),
         exit := if |available| > NUM_BUFFERS then PoolTooLarge else s.exit)
    case Finish => s.(saver := SaverDone)
  }

  // ---------- who holds what ----------

  // Frame buffers away from the driver, oldest first.
  function Flight(s: State): seq<nat> {
    (if s.worker.Got? || s.worker.Reserved? || s.worker.Converted? || s.worker.Finished? then [s.worker.index] else [])
    + s.cameraQueue
    + (if s.camera.Sending? then [s.camera.index] else [])
  }

  // The buffer being filled, if any.
  function Fresh(s: State): seq<Handle> {
    if s.worker.Reserved? || s.worker.Converted? then [s.worker.rgb] else []
  }

  function Downstream(s: State): seq<Handle> {
    (if s.saver.Holding? || s.saver.Processed? then [s.saver.h] else []) + s.tickQueue
  }

  function InHand(s: State): seq<Handle> {
    if s.worker.Forwarding? || (s.worker.Finished? && s.worker.image.Handle?) then [s.worker.image] else []
  }

  // Images on their way to the saver, oldest first; the last one is the old image.
  function Line(s: State): seq<Handle> {
    Downstream(s) + InHand(s) + (if s.detector.count > 0 then [s.detector.oldImage] else [])
  }

  function AllHandles(s: State): seq<Handle> {
    Fresh(s) + s.detector.available + Line(s)
  }

  ghost predicate Pooled(hs: seq<Handle>) {
    forall i :: 0 <= i < |hs| ==> InPool(hs[i])
  }

  ghost function Ids(hs: seq<Handle>): (r: seq<nat>)
    requires Pooled(hs)
    ensures |r| == |hs|
  {
    seq(|hs|, i requires 0 <= i < |hs| => hs[i].id)
  }

  // The numbers below n, each exactly once, and no others.
  ghost predicate Once(m: multiset<nat>, n: nat) {
    forall id: nat :: m[id] == if id < n then 1 else 0
  }

  // Every RGB buffer is in one place, and every frame buffer is.
  ghost predicate Conserved(cfg: Config, s: State) {
    && Pooled(AllHandles(s))
    && Once(multiset(Ids(AllHandles(s))), NUM_BUFFERS)
    && Once(s.driver + multiset(Flight(s)), cfg.buffers)
  }

  // ---------- what the images should be ----------

  function FrameDiff(f: Frame, g: Frame): nat {
    if |Convert(f)| == |Convert(g)| then Distance(Convert(f), Convert(g)) else 0
  }

  function Diffs(fs: seq<Frame>): seq<nat> {
    seq(if fs == [] then 0 else |fs| - 1, k requires 0 <= k < |fs| - 1 => FrameDiff(fs[k + 1], fs[k]))
  }

  function MaxDiff(fs: seq<Frame>): nat {
    if fs == [] then 0 else 255 * |Convert(fs[0])|
  }

  predicate MovingAfter(fs: seq<Frame>, n: nat)
    requires n <= |fs|
  {
    n > 0 && Hysteresis.Moving(Diffs(fs), MaxDiff(fs), n - 1)
  }

  predicate IsTick(fs: seq<Frame>, k: nat)
    requires k < |fs|
  {
    k > 0 && Hysteresis.Tick(Diffs(fs), MaxDiff(fs), k - 1)
  }

  // The k-th image as the saver is to receive it: the conversion of the k-th frame, or in
  // difference mode its distance to the next one.
  function Final(cfg: Config, fs: seq<Frame>, k: nat): Image
    requires k + 1 < |fs|
  {
    if cfg.showDiff && |Convert(fs[k + 1])| == |Convert(fs[k])| then Difference(Convert(fs[k + 1]), Convert(fs[k]))
    else Convert(fs[k])
  }

  // The k-th image when count frames have been decided; the last of them is unchanged yet.
  function Expected(cfg: Config, fs: seq<Frame>, count: nat, k: nat): Image
    requires k < count <= |fs|
  {
    if k + 1 < count then Final(cfg, fs, k) else Convert(fs[k])
  }

  // Of the first m images those that are to be saved.
  function Selected(cfg: Config, fs: seq<Frame>, m: nat): seq<Image>
    requires m == 0 || m < |fs|
  {
    if m == 0 then []
    else Selected(cfg, fs, m - 1) + if IsTick(fs, m - 1) || cfg.saveAll then [Final(cfg, fs, m - 1)] else []
  }
}
