# Verification of the real-time examples and the synchronome

A Dafny model of six parts of the repository, with proofs of what they are for. `dafny verify
dfyconfig.toml` checks all of it.

* **Sieve** (`Divisibility`, `PrimeGap`, `SieveTheory`, `SieveSimple`, `PackedBits`, `SieveThreads`,
  `SievePacked`). The array sieve; the bit-packed sieve with its sequential, grid and threaded rounds.
  Threads interleave between the wait, load, store and post of `set_isprime`. MAX and NUM_THREADS are
  parameters. All variants end with the primes, up to one flag: initialisation stops at MAX - 1, so
  flag MAX is left to `malloc`; the result is right if and only if MAX is composite or that flag was
  set. The grid loops test against MAX + 1, so with four threads the loops, and some interleaving of the
  threads, write outside the array exactly if MAX % 8 is 7; the rounds are proved where none does.
* **ARM against C** (`Lcm`, `Arm`, `ArmGcd`, `ArmDivide`, `ArmLcm`, `ArmMachine`). A step semantics for
  the instructions of `lcmarm.s` (registers, flags, stack memory), the six routines as tables, and
  their refinement of `lcmc.c` and of gcd and lcm. `__aeabi_idiv` is taken from section 4.3.1 of the
  Run-time ABI for the ARM Architecture, the register rules from section 6.1.1 of AAPCS32. The
  comment on `divide` says it truncates; it does so, as division in C does, exactly if a > -b.
* **Synchronome** (`Images`, `Hysteresis`, `TickDetection`, `Pipeline`, `PipelineConservation`,
  `PipelineOrder`, `PipelineRuns`, `PipelineOverload`, `PipelineShutdown`). The tick detector as a class over its pixel buffers; camera,
  detector, saver and driver as a state machine in which handles and contents are separate, so a
  buffer reused too early would show.
* **RAID striping** (`Raid`). Stripe, lose any one chunk file, restore.
* **Sequencers** (`SequencerV4`, `SequencerGen3`, `CaptureRing`, `CaptureSchedule`, `CaptureOnTime`,
  `RateMonotonic`, `Totals`).
  Periodic release and two shutdown handshakes, one sound and one not; the oversubscribed ring; the
  rate-monotonic task set under SCHED_FIFO (section 2.8.4 of IEEE Std 1003.1-2017, System Interfaces).
  The comment in `seqv4.c` gives S1 25 Hz in one place and 5 Hz in another; the code releases it every
  20 ticks of 10 ms.
* **SEC-DED memory** (`Hamming`). The extended Hamming code, as linearity over any flip sequence.

Where a promise fails, the code is kept and the exact condition is proved, with an input or a run that
fails: `SievePacked.ReportIsExact` with `LastPrimeMissed`, `SieveThreads.OverrunsExactly` with
`OverrunReached`, `Lcm.QuotientTruncates` with `QuotientDiffers`, `ArmLcm.ComputedIsLcm` with
`ProductWraps`, `SequencerGen3.EndsExactly` with `ServiceHangs`, `CaptureRing.ProcessConverts` with
`SampleSkips`, `Hamming.RepairCleans` with `RepairFails`, `PipelineConservation.AllocationFails` with
`PipelineOverload.SlowSaverEndsProcess`, and the bound of forty frame buffers in
`PipelineConservation.CameraNeverBlocks` with `PipelineRuns.CameraCanBlock`.

Conventions. Methods that work in place are proved against a function of the old state, and the laws
are lemmas about that function. A protocol is a state, a predicate `Enabled`, a function `Step` and an
invariant; a run is any sequence of enabled steps, whoever takes them. Fields marked as history record
what happened and are read by no step, except that the synchronome's saver counts the images it has
saved by the length of that record.

## Model

| member | source | states |
|---|---|---|
| PrimeGap.PrimeBetween | examples/erast/erast.c:290-298 | for every p >= 2 there is a prime strictly between p and p * p, so the search for the next prime never comes back empty while p * p <= MAX |
| SieveTheory.RoundExtends | examples/erast_compare_fast/erastsimp.c:44 | clearing 2p, 3p, ... turns "no divisor below p" into "no divisor up to p" |
| SieveTheory.NextSurvivor | examples/erast_compare_fast/erastsimp.c:47 | the first entry above p that is still set is the next prime, and the numbers skipped had nothing left to clear |
| SieveTheory.SurvivorAbove | examples/erast/erast.c:290-298 | an entry in (p, p * p) is still set after the round for p |
| SieveTheory.SurvivorsArePrimes | examples/erast_compare_fast/erastsimp.c:41 | when p * p exceeds MAX, what is still set is prime and every prime is still set |
| SieveSimple.Invalidate | examples/erast_compare_fast/erastsimp.c:44 | after the loop exactly the entries 2p, 3p, ... up to the end of the array are cleared in addition |
| SieveSimple.FindNext | examples/erast_compare_fast/erastsimp.c:47 | the search ends at a prime above p and inside the array |
| SieveSimple.Sieve | examples/erast_compare_fast/erastsimp.c:35-48 | the array sieve ends, with entry i set exactly if i is prime, and counts the primes |
| SieveSimple.Count | examples/erast_compare_fast/erastsimp.c:55 | the count is the number of entries set |
| PackedBits.WithFlagMarks | examples/erast/erast.c:98-122 | writing one flag of the packed array changes that flag and no other |
| SieveThreads.TileStart | examples/erast/erast.c:143-147 | the multiple c * p belongs to the thread with index (c - 2) mod NUM_THREADS |
| SieveThreads.TilesCover | examples/erast_compare_fast/erast.c:287-297 | the tiles of the threads partition the multiples 2p, 3p, ...: each is on one tile, and nothing else is on any |
| SieveThreads.InvInit | examples/erast/erast.c:248-256 | threads with distinct indices 0 .. NUM_THREADS - 1 at 2p and free locks satisfy the invariant |
| SieveThreads.ExclusiveStep | examples/erast/erast.c:108-121 | a lock is zero exactly while one thread is between its wait and its post, after every step |
| SieveThreads.SemaphoreValue | examples/erast/erast.c:108-121 | semaphore (flag / 8) mod 4n is the one a thread holds while it updates a flag, and every other one is free |
| SieveThreads.FreshStep | examples/erast/erast.c:115-120 | no thread that has loaded a byte sees it change before its store |
| SieveThreads.NoLossStep | examples/erast/erast.c:139-153 | after every step the array is the old one minus exactly the flags the threads have stored so far |
| SieveThreads.InvStep | examples/erast/erast.c:139-153 | every step of every thread keeps sizes, locking discipline, freshness and the account of cleared flags |
| SieveThreads.SomeoneMoves | examples/erast/erast.c:108-121 | no deadlock: while a thread is left, some thread can move |
| SieveThreads.WorkDecreases | examples/erast/erast.c:143-149 | every step uses up work, so every interleaving ends |
| SieveThreads.RoundResult | examples/erast/erast.c:258-269 | after the joins exactly the multiples 2p, 3p, ... <= MAX have gone and all locks are free |
| SieveThreads.EveryRun | examples/erast/erast.c:245-269 | for every interleaving: the invariant holds at the end, its length is bounded by the initial work, and a run that cannot go on has completed the round |
| SieveThreads.NoWrapAround | examples/erast/erast.c:143-147 | with MAX and NUM_THREADS below 2^32 no sum or square formed by a round exceeds 64 bits |
| SieveThreads.OverrunReached | examples/erast/erast.c:143-147 | if a tile holds MAX + 1 and MAX % 8 is 7, letting the thread of that tile run alone leads to an access outside the array |
| SieveThreads.OverrunsExactly | examples/erast/erast.c:143-147 | for every MAX, number of threads and p: some interleaving addresses a byte outside the array if and only if that condition holds |
| SieveThreads.OverrunWithFourThreads | examples/erast/erast.c:145-146 | as compiled, with four threads, some interleaving of the round for 2 leaves the array if and only if MAX % 8 is 7 |
| SievePacked.ScrambleIds | examples/erast/erast.c:191-207 | the loop gives place k the index n - 1 - k or k - 1 by the parity of k |
| SievePacked.ScrambleIsPermutation | examples/erast/erast.c:191-207 | for every even number of threads each index has exactly one place |
| SievePacked.PackedSieve.constructor | examples/erast/erast.c:167-187 | all locks are free and the array holds whatever malloc left |
| SievePacked.PackedSieve.ChkIsPrime | examples/erast/erast.c:85-96 | tells whether the flag is set |
| SievePacked.PackedSieve.SetIsPrime | examples/erast/erast.c:98-122 | writes one flag under its lock and leaves all locks free |
| SievePacked.PackedSieve.InvalidateSequential | examples/erast_compare_fast/erast.c:247-253 | the sequential round clears exactly the multiples 2p, 3p, ... <= MAX |
| SievePacked.PackedSieve.InvalidateTile | examples/erast_compare_fast/erast.c:289-294 | the loop of one grid cell clears exactly its tile up to MAX, or leaves the array, which it does if and only if its tile holds MAX + 1, it is not the first one and MAX % 8 is 7 |
| SievePacked.PackedSieve.InvalidateGrid | examples/erast_compare_fast/erast.c:287-297 | the grid round stays in the array if and only if every run of the threads does, and then refines the array sieve: it clears exactly the multiples 2p, 3p, ... <= MAX |
| SievePacked.PackedSieve.Advance | examples/erast/erast.c:139-153 | one step of one thread in place is the step of the state machine |
| SievePacked.PackedSieve.InvalidateThreaded | examples/erast/erast.c:245-269 | the threaded round, under any scheduler, ends and clears exactly the multiples 2p, 3p, ... <= MAX |
| SievePacked.PackedSieve.Initialise | examples/erast/erast.c:212-218 | flags 2 .. MAX - 1 are set and 0 and 1 are not; flag MAX is what malloc left |
| SievePacked.PackedSieve.FindNext | examples/erast/erast.c:290-298 | the search over the packed array ends at the next prime, at most MAX |
| SievePacked.PackedSieve.Run | examples/erast/erast.c:212-310 | all three variants end; a flag is set exactly if its number is prime and, for MAX itself, the uninitialised flag was set; the count is the number of such flags |
| SievePacked.PackedSieve.Count | examples/erast/erast.c:302-309 | counts the flags set |
| SievePacked.ReportIsExact | examples/erast/erast.c:212-218 | the result is the primes up to MAX if and only if MAX is composite or its flag happened to be set |
| SievePacked.LastPrimeMissed | examples/erast/erast.c:212-218 | with MAX = 11 and an array of zeros the prime 11 is not reported |
| Lcm.Gcfc | examples/lcm/lcmc.c:10-21 | the subtraction loop ends with the greatest common divisor |
| Lcm.GcdMeaning | examples/lcm/lcmc.c:6-21 | a number divides the result exactly if it divides both arguments |
| Lcm.Bezout | examples/lcm/lcmc.c:10-21 | the result is an integer combination of the arguments |
| Lcm.QuotientMeaning | examples/lcm/lcmc.c:24-45 | counting subtractions is integer division for non-negative dividends, with a remainder in range, and zero for negative ones |
| Lcm.TruncDivMeaning | examples/lcm/lcmarm.s:196 | division as the Run-time ABI has it: the remainder is smaller than the divisor and has the sign of the dividend |
| Lcm.QuotientTruncates | examples/lcm/lcmc.c:24-45 | counting subtractions agrees with division in C exactly if a > -b |
| Lcm.QuotientDiffers | examples/lcm/lcmc.c:33-60 | for -5 and 3 the routines give 0 and -5 where C gives -1 and -2 |
| Lcm.Divide | examples/lcm/lcmc.c:33-45 | the loop ends with that count |
| Lcm.Remain | examples/lcm/lcmc.c:50-60 | the loop ends with the dividend minus quotient times divisor; it is the remainder of C exactly if a > -b |
| Lcm.LeastMultipleMeaning | examples/lcm/lcmc.c:64-75 | the product over the gcd is a common multiple and divides every other one |
| Lcm.Lcmc | examples/lcm/lcmc.c:68-75 | the program computes the least common multiple when the product is an int |
| Arm.IdivContract | examples/lcm/lcmarm.s:196 | what the Run-time ABI promises the caller of the division and what it leaves open: the truncated quotient, the stack and the callee-saved registers; anything in the scratch registers and below the stack |
| Arm.ComparesSigned | examples/lcm/lcmarm.s:22-24 | the flags of cmp order the operands as signed numbers, also when the subtraction overflows |
| ArmGcd.GcfaTurn | examples/lcm/lcmarm.s:30-46 | one turn of the memory-resident loop leaves the C loop's next pair in the frame |
| ArmGcd.Gcfa | examples/lcm/lcmarm.s:13-53 | gcfa returns to its caller with the gcd of its arguments, stack and saved registers as they were |
| ArmGcd.Gcfa1 | examples/lcm/lcmarm.s:60-82 | the same for the register loop gcfa1 |
| ArmGcd.ConditionalSubtract | examples/lcm/lcmarm.s:94-101 | subgt and sublt leave the flags of the one cmp alone, so at most one subtracts and bne still tests the pair compared |
| ArmGcd.Gcfa2 | examples/lcm/lcmarm.s:89-106 | the same for the conditionally executed loop gcfa2 |
| ArmDivide.Divide | examples/lcm/lcmarm.s:113-141 | divide returns the count of subtractions, frame and registers restored |
| ArmDivide.Remain | examples/lcm/lcmarm.s:148-171 | remain returns what is left after them |
| ArmLcm.AcrossCall | examples/lcm/lcmarm.s:190-191 | the nested gcfa leaves the caller's frame and the product in r4 alone |
| ArmLcm.Lcma | examples/lcm/lcmarm.s:178-203 | lcma returns the truncated quotient of the 32-bit product by the gcd, with r4, fp and sp restored |
| ArmLcm.ComputedIsLcm | examples/lcm/lcmarm.s:178-203 | that value is the least common multiple if and only if the product is below 2^31 |
| ArmLcm.ProductWraps | examples/lcm/lcmarm.s:178-203 | for the arguments 2^16 and 2^16 the value is 0 |
| ArmMachine.EveryRoutine | examples/lcm/lcmarm.s:13-203 | each of the six routines comes back after finitely many steps with the value of its C counterpart |
| ArmMachine.Cpu.Advance | examples/lcm/lcmarm.s:13-203 | executing an instruction in place is one step of the semantics |
| ArmMachine.Cpu.Compute | examples/lcm/lcmarm.s:13-203 | the data instructions in place |
| ArmMachine.Cpu.Transfer | examples/lcm/lcmarm.s:13-203 | branches, calls and returns in place |
| ArmMachine.Cpu.Stack | examples/lcm/lcmarm.s:13-203 | the stack instructions in place have the effect on registers and memory that the routine proofs use |
| ArmMachine.PopsFindPushes | examples/lcm/lcmarm.s:13-203 | each pop after the matching push restores the saved registers and the stack pointer, wherever the stack lies |
| ArmMachine.Cpu.RunToReturn | examples/lcm/lcmarm.s:13-203 | the processor runs until control leaves the routines, and its state is the one the step count gives |
| ArmMachine.Cpu.Call | examples/lcm/lcmarm.s:13-203 | a call on the processor ends with the value in r0, the caller's stack and saved registers unchanged |
| Images.ChannelsAreNearest | synchronome/tick_detector.cpp:51-73 | each colour is the byte nearest to its weighted sum over 256, of two equally near ones the greater |
| Images.GroupOf | synchronome/tick_detector.cpp:83-89 | four bytes of a frame become the six bytes of two pixels that share U and V |
| Images.DistanceIsTotal | synchronome/tick_detector.cpp:96-107 | the sum is the total of the byte-by-byte differences, each the greater byte minus the smaller |
| Images.DistanceOfBrighter | synchronome/tick_detector.cpp:96-107 | where one image is brighter everywhere, the sum is its total less that of the other |
| Images.SumDoesNotWrap | synchronome/tick_detector.cpp:96-107 | the 32-bit sum over an RGB buffer is at most 255 per byte and does not wrap |
| Images.DistanceLaws | synchronome/tick_detector.cpp:96-107 | the sum is a distance: zero exactly for equal images, symmetric, with the triangle inequality |
| Hysteresis.Alternate | synchronome/tick_detector.cpp:142-151 | while still, moves and ticks are equal in number; while moving there is one more move |
| Hysteresis.MovingExactly | synchronome/tick_detector.cpp:142-151 | the detector is moving exactly if some difference was above 0.0023 of the largest possible and none since then below 0.0022 of it |
| Hysteresis.TickExactly | synchronome/tick_detector.cpp:142-151 | an image is a tick exactly if its difference is the first below 0.0022 of the largest possible after one above 0.0023 of it |
| Hysteresis.TicksApart | synchronome/tick_detector.hpp:20-21 | strictly between two ticks lies a difference above 0.0023 of the largest possible |
| TickDetection.ExecutedMeans | synchronome/tick_detector.cpp:110-174 | a call after the first: the old image comes out, in difference mode as the byte-by-byte differences; the conversion of the frame becomes the old image; from still the detector moves exactly if the total of the differences is above 0.0023 of 255 per byte, and from moving it is still and the frame marked exactly if it is below 0.0022 of it; no other buffer changes |
| TickDetection.TickDetector.constructor | synchronome/tick_detector.cpp:7-13 | the twenty buffers are available, in order and unmarked |
| TickDetection.TickDetector.ReturnBuffer | synchronome/tick_detector.cpp:19-32 | a handle with a buffer joins the end of the queue unmarked, one without does nothing; the process ends exactly if the queue exceeds twenty |
| TickDetection.TickDetector.Allocate | synchronome/tick_detector.cpp:35-45 | hands out the oldest available buffer, or none exactly if the queue is empty |
| TickDetection.TickDetector.ColorConvert | synchronome/tick_detector.cpp:48-93 | the buffer handed out holds the converted frame, its tail and all other buffers are untouched |
| TickDetection.TickDetector.ConvertInto | synchronome/tick_detector.cpp:82-90 | the loop writes the conversion of the whole frame, and nothing else |
| TickDetection.TickDetector.StorePixel | synchronome/tick_detector.cpp:85-88 | one pixel is stored where the loop stands, and nothing else changes |
| TickDetection.TickDetector.SumDifference | synchronome/tick_detector.cpp:96-107 | the loop with its 32-bit sum computes the total of the byte-by-byte differences of the two buffers |
| TickDetection.TickDetector.ModImg | synchronome/tick_detector.cpp:156-170 | each byte of the old image becomes the greater of the two bytes minus the smaller, in place |
| TickDetection.TickDetector.Decide | synchronome/tick_detector.cpp:119-173 | first image, wrong size, or a comparison: state, mark, images and outcome as the specification of a decision says |
| TickDetection.TickDetector.Compare | synchronome/tick_detector.cpp:135-173 | the comparison with the old image: the distance of the two pictures decides state and mark |
| TickDetection.TickDetector.Execute | synchronome/tick_detector.cpp:110-174 | a whole call: new detector state and outcome, with both exits of the process as outcomes; state and mark by the thresholds 0.0023 and 0.0022 on the total of the differences |
| TickDetection.RgbHandler.ReturnBuffer | synchronome/rgb_handler.hpp:24-34 | gives the buffer back once: the handle is cleared, so a second call has no effect |
| PipelineConservation.ConservedInit | synchronome/tick_detector.cpp:7-13 | at the start every RGB buffer and every frame buffer is in one place |
| PipelineConservation.ConservedStep | synchronome/tick_detector_service.cpp:24-58 | every step of camera, detector, saver and driver keeps each RGB buffer in one of: free queue, detector, old image, tick queue, saver; and each frame buffer in one of: driver, camera, camera queue, detector |
| PipelineConservation.AllApart | synchronome/tick_detector.cpp:7-45 | the twenty handles in the system name twenty different buffers |
| PipelineConservation.GiveBackExit | synchronome/tick_detector.cpp:27-31 | giving a buffer back ends the process exactly if the queue then has more than twenty |
| PipelineConservation.PoolFits | synchronome/tick_detector.cpp:27-31 | the exit "too many elements" is unreachable |
| PipelineConservation.ForwardNeverBlocks | synchronome/tick_detector_service.cpp:50-57 | the detector never waits for room in the tick queue of forty, where it finds at most eighteen |
| PipelineConservation.AllocationFails | synchronome/tick_detector.cpp:38-41 | an allocation fails exactly if nineteen buffers are on their way to the saver or with it, the twentieth being the old image |
| PipelineConservation.CameraNeverBlocks | synchronome/camera_service.cpp:49 | with at most forty frame buffers the camera never waits for room in its queue |
| PipelineConservation.QueuedOnce | synchronome/buffer_handler.hpp:27-33 | no frame buffer is queued with the driver twice, nor while a message or a service still names it |
| PipelineOrder.FramesStep | synchronome/camera_service.cpp:46-49 | the frames captured and not decided are those in flight, in order and unmodified, after every step |
| PipelineOrder.ImagesStep | synchronome/tick_detector_service.cpp:47-57 | the images between detector and saver are those of consecutive frames, in order, with the right pixels and marks, after every step |
| PipelineOrder.DecisionIsTick | synchronome/tick_detector.cpp:142-151 | the mark given to a frame is the tick of the reference definition over all differences so far |
| PipelineRuns.InvStep | synchronome/tick_detector_service.cpp:24-58 | conservation, order, decisions and the record of saved images together are kept by every step |
| PipelineRuns.EveryRun | synchronome/main.cpp:97-113 | they hold after every run from the start |
| PipelineRuns.CapturedAreDelivered | synchronome/camera_service.cpp:46-49 | the frames captured in a run are, in order, what the driver had put into the buffers when they were dequeued |
| PipelineRuns.HeldImage | synchronome/tick_detector.cpp:153-173 | what the saver holds is the conversion of the next frame in capture order (or in difference mode its distance to the one after), and a later frame has already been decided: one behind |
| PipelineRuns.HeldStays | synchronome/image_saver_service.cpp:31-36 | no step of another service changes the image while the saver holds it |
| PipelineRuns.OnlyEmptyQueuesWait | synchronome/tick_detector_service.cpp:32-57 | in the middle of its work no service ever has to wait for another one, and otherwise it goes on when its queue is not empty or it is told to end |
| PipelineRuns.SavedAreFirstTicks | synchronome/image_saver_service.cpp:19-37 | with the configuration of main the images saved are the conversions of the first tick frames, all of them, in order, and frameCount of them when the saver ends |
| PipelineRuns.TickFramesExactly | synchronome/tick_detector.cpp:142-151 | from the frames alone: a frame is a tick if and only if it differs from its predecessor by less than 0.0022 of the largest sum, for the first time since one that differed by more than 0.0023 |
| PipelineRuns.TickFramesApart | synchronome/tick_detector.cpp:142-151 | between two tick frames some frame differs from its predecessor by more than 0.0023 of the largest sum, and a tick frame by less than 0.0022 of it |
| PipelineRuns.StepsAreExecute | synchronome/tick_detector.cpp:110-174 | the detector's steps on a frame, undisturbed, are one call of execute |
| PipelineRuns.CameraCanBlock | synchronome/main.cpp:64-67 | with more than forty frame buffers some run leaves the camera waiting, so the bound is exact |
| PipelineShutdown.EndsAfterSaver | synchronome/main.cpp:102-113 | in every run camera and detector end only after the saver, which by then has saved frameCount images |
| PipelineShutdown.ComesToStop | synchronome/main.cpp:102-113 | once the saver has its images some run ends all three services, unless the detector exits over the frame it still has |
| PipelineOverload.SlowSaverEndsProcess | synchronome/tick_detector.cpp:112-117 | from every start with at least one frame buffer a run in which the saver takes no step ends the process for want of a buffer, with the twenty-first frame captured |
| Raid.StripesAddToZero | examples/file_raid_poc_code/raidlib.c:34-40 | the five bytes at one place of a stripe add up to zero |
| Raid.ExtraStripeIsZero | examples/file_raid_poc_code/raidlib.c:113-118 | a file that ends on a stripe boundary is followed by a stripe of zeros |
| Raid.XorLba | examples/file_raid_poc_code/raidlib.c:34-63 | one sector becomes the exclusive or of four others, in place, whether parity is made or data rebuilt |
| Raid.Disk.constructor | examples/file_raid_poc_code/raidlib.c:93-97 | opening the chunk files keeps what they hold |
| Raid.Disk.Write | examples/file_raid_poc_code/raidlib.c:137-139 | a write puts its bytes from the position on, keeps every other byte, never shortens the file and moves the position |
| Raid.Disk.Read | examples/file_raid_poc_code/raidlib.c:225-227 | a read fills one slot of the buffer with the next sector and moves the position |
| Raid.Disk.ReadUnlessMissing | examples/file_raid_poc_code/raidlib.c:216-229 | a chunk that is there is read, a missing one is neither read nor moved; the other slots stay |
| Raid.FillStripe | examples/file_raid_poc_code/raidlib.c:103-124 | the buffer holds the next 2048 bytes of the file, zeros after its end |
| Raid.AddParity | examples/file_raid_poc_code/raidlib.c:126-129 | the five slots are then the five sectors of the specification |
| Raid.WriteStripe | examples/file_raid_poc_code/raidlib.c:132-172 | each chunk file gets its sector at its position |
| Raid.StripeFile | examples/file_raid_poc_code/raidlib.c:85-183 | byte by byte: each chunk file starts with length / 2048 + 1 sectors, the four columns of the file with zeros after its end and their exclusive or, and keeps its older bytes behind them; the byte count is the file length |
| Raid.StripedHolds | examples/file_raid_poc_code/raidlib.c:85-183 | striping leaves what a restore needs, whatever the chunk files held before |
| Raid.ReadStripe | examples/file_raid_poc_code/raidlib.c:214-291 | every chunk that is there has its next sector in its slot; nothing is assumed of the missing one |
| Raid.Rebuild | examples/file_raid_poc_code/raidlib.c:293-330 | the four data sectors are right whichever slot was missing; the missing slot's old bytes play no part |
| Raid.RoundTrip | examples/file_raid_poc_code/raidlib.c:194-453 | what a restore computes from striped chunks is the file, for every file, every missing chunk and any contents of the missing file and of the tails |
| Raid.RestoreStripe | examples/file_raid_poc_code/raidlib.c:212-453 | one turn of the loop leaves the next stripe of the file in the buffer |
| Raid.RestoreFile | examples/file_raid_poc_code/raidlib.c:194-453 | the loop over full stripes and the partial last one writes as many bytes as the file has, those of the four columns in turn, a missing column from the exclusive or of the other four |
| Raid.StripeAndRestore | examples/file_raid_poc_code/raidlib.c:85-453 | striping, losing one chunk file and restoring gives the file back |
| Raid.TwoLossesLoseData | examples/file_raid_poc_code/raidlib.c:20-25 | no restore could survive two lost chunks: two different files agree on the other three |
| SequencerV4.InvStep | examples/sequencer_generic/seqv4.c:261-412 | every step of the handler and of a service keeps the account of posts and waits and the order of flag and post |
| SequencerV4.EveryRun | examples/sequencer_generic/seqv4.c:261-412 | they hold after every run |
| SequencerV4.ReleasedOncePerPeriod | examples/sequencer_generic/seqv4.c:285-304 | until the shutdown, semaphore value plus waits is ticks / period for each service |
| SequencerV4.AbortExactly | examples/sequencer_generic/seqv4.c:335-408 | in every run abortTest is set exactly if the first service has done the work of 251 releases or the third one that of ten |
| SequencerV4.AbortComesToShutdown | examples/sequencer_generic/seqv4.c:266-283 | once abortTest is set, every run in which a signal is delivered and handled turns the timer off, whatever else happens |
| SequencerV4.ShutdownProgress | examples/sequencer_generic/seqv4.c:266-283 | from then on every step of anyone lowers a measure |
| SequencerV4.NoServiceStuck | examples/sequencer_generic/seqv4.c:276-282 | from the moment the shutdown has posted it, a service is never blocked: it has ended or can take its next step, whatever the handler is doing |
| SequencerV4.ShutdownEnds | examples/sequencer_generic/seqv4.c:319-376 | from then on every run is short, and one that cannot be prolonged has ended all services |
| SequencerGen3.EveryRun | examples/sequencer_generic/seqgen3v2.c:163-188 | in every run the timer is off only after all ticks, and the shutdown runs only then |
| SequencerGen3.AccountStep | examples/sequencer_generic/seqgen3v2.c:133-188 | every step keeps the account of posts, waits and flags: no post is lost, and the flag follows the post of the shutdown |
| SequencerGen3.ReleasedOncePerPeriod | examples/sequencer_generic/seqgen3v2.c:163-188 | in every run, between two runs of the handler, semaphore value plus waits is ticks / period for each service while the timer is on, and exceeds it by the posts of the shutdown afterwards, when every flag is set |
| SequencerGen3.EndsExactly | examples/sequencer_generic/seqgen3v2.c:182-186 | when the flag of a service is about to be set: in every state reached from there in which nothing can move, the service has ended if and only if a signal was pending or it was not waiting on an empty semaphore |
| SequencerGen3.SecondShutdownFrees | examples/sequencer_generic/seqgen3v2.c:182-186 | a post that finds the flag of its service already set ends the service in every run |
| SequencerGen3.AnyServiceCanHang | examples/sequencer_generic/seqgen3v2.c:133-188 | for every table of periods, every number of ticks and every service a run leads to the moment at which that condition fails |
| SequencerGen3.ShutdownProgress | examples/sequencer_generic/seqgen3v2.c:172-187 | once the timer is off every step of anyone lowers a measure |
| SequencerGen3.ShutdownEnds | examples/sequencer_generic/seqgen3v2.c:172-187 | so no run from there is longer than the measure |
| SequencerGen3.ComesToRest | examples/sequencer_generic/seqgen3v2.c:172-187 | and a run to a state in which nothing can move exists |
| SequencerGen3.ServiceHangs | examples/sequencer_generic/seqgen3v2.c:133-188 | for every table, number of ticks and service a whole run ends with nothing able to move and the service not ended |
| SequencerGen3.CompiledServiceHangs | examples/sequencer_generic/seqgen3v2.c:104-104 | in particular for the periods 2, 10 and 15 and two thousand ticks |
| CaptureRing.InvRead | examples/sequencer_generic/capturelib.c:391-395 | reading keeps: each slot holds the latest frame whose number is congruent to it, head, tail and count as the numbers of reads and samples say |
| CaptureRing.InvProcess | examples/sequencer_generic/capturelib.c:424-429 | sampling keeps the same and looks at slot (5m + 2) mod size |
| CaptureRing.CountLinks | examples/sequencer_generic/capturelib.c:391-429 | (head + count) mod size is tail in every interleaving, also with a negative count |
| CaptureRing.ProcessConverts | examples/sequencer_generic/capturelib.c:424-426 | a sample is the latest frame in its slot; it is frame 5m + 2, as from a queue, if and only if that frame has been read and not overwritten |
| CaptureRing.SampleSkips | examples/sequencer_generic/capturelib.c:424-426 | in a ring of three slots the first sample after six reads is frame 5, frame 2 having been overwritten |
| CaptureRing.RingBuffer.constructor | examples/sequencer_generic/capturelib.c:639-642 | an empty ring of three slots per frame a second |
| CaptureRing.RingBuffer.SeqFrameRead | examples/sequencer_generic/capturelib.c:391-395 | reading in place is the specified step |
| CaptureRing.RingBuffer.SeqFrameProcess | examples/sequencer_generic/capturelib.c:424-429 | sampling in place is the specified step and hands out the specified frame |
| CaptureSchedule.InvStep | examples/sequencer_generic/seqv4.c:328-329 | frames read, sampled and stored are the completed releases of the three services, plus the start-up frame |
| CaptureSchedule.SampleOfThree | examples/sequencer_generic/capturelib.c:424-429 | with three slots the k-th sample is frame 5k if and only if it is taken before 60 ticks have passed since its release, and frame 5k + 3 otherwise |
| CaptureSchedule.KthSample | examples/sequencer_generic/capturelib.c:424-429 | the k-th sample, taken within 60 ticks of its release, is frame 5k of those read if the ring has three slots and frame 5k - 3 if it has six or more |
| CaptureSchedule.KthStored | examples/sequencer_generic/seqv4.c:397-398 | the k-th image stored in time is the k-th sample |
| CaptureSchedule.EveryFifthFrame | examples/sequencer_generic/seqv4.c:294-304 | keeping the priorities preserves that the k-th sample and the k-th image stored are frame 5k, from any state on |
| CaptureSchedule.FromTheStart | examples/sequencer_generic/seqv4.c:294-304 | over every run that keeps the priorities: the frames read are the start-up frame and those the camera had at the reads; the images sampled are frames 5, 10, 15, ... of these in order, and those stored are the first of them, ten at most |
| CaptureSchedule.StoresAtMostTen | examples/sequencer_generic/seqv4.c:405-408 | no run that keeps the priorities stores an eleventh image |
| CaptureOnTime.SamplesAreTaken | examples/sequencer_generic/seqv4.c:294-304 | for every k up to ten a run that keeps the priorities reads 5k + 1 frames and samples and stores k of them |
| CaptureOnTime.TestCompletes | examples/sequencer_generic/seqv4.c:266-412 | a whole test: ten images stored, the timer off at the next tick, all services ended, nothing able to move |
| RateMonotonic.Sequencer | examples/sequencer/lab1.c:197-256 | post k of the first semaphore is at 20k ms and of the second at 50k ms, five and two of them for each major period, of which there is at least one |
| RateMonotonic.InvStep | examples/sequencer/lab1.c:318-350 | the work left never exceeds the budget released in this major period minus the time since its start |
| RateMonotonic.DeadlinesMet | examples/sequencer/lab1.c:194-252 | for all job times within the budgets every job ends before the next release of its task and nothing is left at the end of a major period |
| RateMonotonic.ResponseTimes | examples/sequencer/lab1.c:194-252 | jobs of the first task end within 10 ms of their release, those of the second 40 and 80 ms into the major period |
| RateMonotonic.BoundsAreTight | examples/sequencer/lab1.c:194-252 | the 10 and the 40 ms cannot be lowered: with full budgets there are runs in which work is left at every instant before them |
| RateMonotonic.ReleaseInstants | examples/sequencer/lab1.c:226-249 | the releases of the state machine are at the multiples the sequencer loop produces |
| RateMonotonic.EveryRelease | examples/sequencer/lab1.c:226-252 | in every run the releases of the two tasks are at 0, 20, 40, ... and at 0, 50, 100, ... ms with none left out, time passes exactly while services run or the processor idles, and once the sequencer has ended there have been five and two for each of its loops |
| RateMonotonic.NeverStops | examples/sequencer/lab1.c:198-252 | there is always a next step |
| Hamming.CodewordBits | examples/hamming/ecclib.c:111-177 | each check bit makes the data bits it watches even, the overall parity makes all twelve other bits even, and the byte is marked as encoded |
| Hamming.WrittenIsClean | examples/hamming/ecclib.c:15-31 | a byte just written reads without error |
| Hamming.CheckBitsLinear | examples/hamming/ecclib.c:111-177 | the check bits of the exclusive or of two bytes are the exclusive or of their check bits |
| Hamming.ParityLinear | examples/hamming/ecclib.c:44-58 | the same for the overall parity of data and code byte |
| Hamming.FlipIsLinear | examples/hamming/ecctest.c:109-197 | flipping position k adds k to the syndrome and inverts the overall parity |
| Hamming.FlipUndoes | examples/hamming/ecctest.c:173-195 | flipping twice restores the cell |
| Hamming.FlipsAreLinear | examples/hamming/ecclib.c:34-58 | after a write and any sequence of flips the syndrome is the exclusive or of the positions, and the parities differ exactly after an odd number |
| Hamming.ReportAfterFlips | examples/hamming/ecclib.c:70-101 | each of the four reports is given exactly for its kind of flip sequence, and the fifth never |
| Hamming.SingleAndDoubleErrors | examples/hamming/ecclib.c:70-97 | no false alarm; every single error is located and undone by flipping it back; every double error is reported |
| Hamming.UnseenPatterns | examples/hamming/ecclib.c:70-74 | no pattern of up to three different flips goes unseen |
| Hamming.FourFlipsUnseen | examples/hamming/ecclib.c:70-74 | a pattern of four flips that does |
| Hamming.NoInterference | examples/hamming/ecclib.c:15-102 | over every history of writes, flips and reads a cell depends on the operations at its own address only |
| Hamming.RepairIsFlip | examples/hamming/ecclib.c:76-83 | a read changes memory only when it repairs pW, which is a flip of position 0 |
| Hamming.RepairCleans | examples/hamming/ecclib.c:76-83 | the repair leaves the next read clean if and only if the recomputed overall parity is one |
| Hamming.RepairFails | examples/hamming/ecclib.c:76-83 | a written zero with pW flipped is reported as a pW error by every read |
| Hamming.HistoryIsFlips | examples/hamming/ecclib.c:15-102 | whatever happens after a write, the cell is the written one with a list of flips applied |
| Hamming.EccMemory.EnableEccMemory | examples/hamming/ecclib.c:105-109 | clears every code byte and no data byte |
| Hamming.EccMemory.WriteByte | examples/hamming/ecclib.c:15-31 | stores the byte and its code and writes one cell of the history model |
| Hamming.EccMemory.ReadByte | examples/hamming/ecclib.c:34-102 | reports as the model does and changes what the model changes |
| Hamming.EccMemory.FlipBit | examples/hamming/ecctest.c:111-197 | inverts one bit: positions 3, 5, 6, 7, 9 to 12 are the bits of the data byte from the lowest up, 1, 2, 4, 8 and 0 those of the code byte; positions above 12 change nothing |

## Left out

- Input and output: V4L2 ioctls, mmap, select, device set-up, file names and headers, printf, syslog; only who owns a buffer, and what a queue, file or semaphore holds, is kept.
- Wall-clock time, drift control, thread creation, affinity and scheduler printing; the fib calibration loops are job times up to a budget.
- `yuv2rgb_float`, the sharpening demos, `lcmintel.s`, `seqv4l2.c`, the option parser and the thread and timer demos: near-duplicates of modelled files, or only easy members.
- Double arithmetic: percentages are exact rationals, compared by cross multiplication; an empty image is on neither side of a threshold, as a NaN is.
- SievePacked.PackedSieve.Run: integers are unbounded; `SieveThreads.NoWrapAround` gives the condition under which 64 bits suffice. The threaded variant, and the whole program with it or the grid, is stated for values of MAX for which no round writes outside the array.
- SieveSimple.Sieve: the second array of the program, `value`, is only copied from the index and is left out.
- ArmGcd.Gcfa: addresses of code are counted in instructions, the word that stmfd stores for pc is a code address the routines never load, and the memory below the stack pointer is taken to be writable.
- ArmLcm.Lcma: stated for positive arguments, for which the C loop ends.
- Lcm.Gcfc: stated for arguments for which the loop ends, both positive or equal; likewise for `Divide` and `Remain`.
- TickDetection.TickDetector.Execute: frames have a length divisible by four and fit an RGB buffer, since the conversion writes outside the buffer otherwise; the old image must not be in the free queue, which `PipelineConservation.AllApart` gives in every run.
- PipelineRuns.EveryRun: converting a frame, comparing two images and saving one are single steps; the invariant shows that nobody else can reach the buffers meanwhile (`PipelineRuns.HeldStays`). The service loops are steps of a state machine and not loops of a method, as they only interleave. Errors returned by message queues and ioctls are not modelled.
- PipelineRuns.SavedAreFirstTicks: does not say that a run ever saves frameCount images: the camera may see no ticks, and a slow saver lets the detector exit (`PipelineOverload.SlowSaverEndsProcess`), exactly under the condition of `PipelineConservation.AllocationFails`.
- Raid.RestoreFile: disk transfers are complete; the loops around short reads and writes do not track offsets and are not modelled, nor are lengths above 2^31 or a chunk file that is too short.
- SequencerV4.ShutdownEnds: that writing the tenth file succeeds is not part of the model; the number of files written, which the third service tests, counts its own releases.
- SequencerGen3.EndsExactly: `sAbortTest` is never set in that file, so the number of ticks alone ends the test.
- CaptureSchedule.FromTheStart: runs up to the shutdown in which a service works only when those of higher priority have nothing to do and the sampler works within 60 ticks of its release, which is exactly as long as its frame is there (`CaptureSchedule.SampleOfThree`); a sample is taken in one step, so a read that interrupts a conversion for longer than that is outside the statement. `CaptureOnTime.SamplesAreTaken` gives such runs. The pixel conversion into the scratchpad is not repeated here, and a frame is copied whole.
- RateMonotonic.DeadlinesMet: the sequencer takes no time and sleeps exactly, while `usleep` may sleep longer, as the source remarks; the end of the two services after the last major period is that of `SequencerV4`.
- Hamming.EccMemory.ReadByte: the byte read is not returned, as the program never stores it.
