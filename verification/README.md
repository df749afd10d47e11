# OmniCamera capture core in Dafny

This project models the deterministic logic of OmniCamera, a Python camera
library backed by a native module built on the `nokhwa` camera driver.

- **Capture-mode selector** (`FormatSelection`, after `get_compatible_format`
  in `src/lib.rs`). The driver's per-resolution frame-rate listing becomes one
  candidate per resolution, carrying that resolution's highest frame rate and
  the first compatible encoding. The candidates are folded left to right with
  a pairwise rule. When both candidates reach the suggested frame rate, the
  wider one wins. Otherwise the faster one wins. When neither is strictly
  better, the later candidate wins. With no candidates, the camera's current
  format is returned. Beyond the pairwise rule, the model proves what the
  fold computes as a whole. If some candidate reaches the bar, the result is
  the widest of the candidates that reach it. Otherwise the result is the
  fastest candidate.
- **Capture session** (`CaptureLoop`, after `CameraInternal` and
  `Camera.poll_frame` in `src/lib.rs`). This is a class holding the stop flag,
  the capture thread's loop state and the latest-frame slot. Its methods are
  one loop iteration, the loop itself over a sequence of driver responses,
  teardown and the frame read. Each is specified by a pure state-machine
  function. Lemmas over arbitrary event traces prove three facts. The slot
  holds the last frame fetched before teardown. The flag is never set again.
  An iteration that starts after teardown publishes nothing; an iteration is
  one indivisible step here, so a fetch already under way when the flag is
  cleared is not represented.
- **Device listing** (`DeviceQuery`, after `query` in `src/lib.rs`). This is
  the push loop that turns driver device descriptions into tuples.
- **Preference filters** (`FormatOptions`, after `CameraFormatOptions` in
  `omni_camera/__init__.py`). `prefer` narrows a list to the modes satisfying
  a test, or keeps all of it when none does. The range, aspect and encoding
  preferences are built on it, and `resolve` takes the first mode with the
  maximal key. Chained preferences yield an order-preserving sub-list of the
  modes offered.
- **Open-once wrapper** (`OmniCamera.Camera`, after `Camera` in
  `omni_camera/__init__.py`). The native object is successfully opened at
  most once, either explicitly or on the first poll, using the default choice
  when no mode is given; a native open that fails leaves the camera
  uninitialized, so the next `open` or poll tries again.
- **Control range** (`CameraControl`, after `CameraControl` in
  `omni_camera/__init__.py`). `value_range` and `set_value` work on the
  backend's `(start, stop, step)` triple. They use Python's floor division and
  Python's `range` membership, written out explicitly.

Driver calls and native-object calls are parameters of the model. These
include the encoding list, the resolution listing, `frame()`, the current
format, `open`, `check_err`, `poll_frame` and the control triple.

Behaviour of the code worth knowing:

- On a tie in the pairwise rule the later candidate wins (src/lib.rs:43-53):
  the accumulator survives only when strictly better.
- The loop in `value_range` (omni_camera/__init__.py:140-142) does not only
  stop for a positive step. With a zero step, `start // step` raises before
  the loop. With a negative step, the loop body never runs unless `step`
  divides `start`. In that case the loop never ends. The model returns
  `NeverReturns` for it.
- `Camera.open` records the camera as initialized only after the native
  `open` returns (omni_camera/__init__.py:196-197).

## Model

| member | source | states |
|---|---|---|
| `FormatSelection.MaxRate` | src/lib.rs:36 | None exactly for an empty frame-rate list; otherwise a member of the list that no other member exceeds |
| `FormatSelection.Candidate` | src/lib.rs:35-40 | an entry with no frame rate yields no candidate; otherwise the candidate has the entry's resolution, the given encoding and the entry's highest frame rate |
| `FormatSelection.Candidates` | src/lib.rs:34-40 | at most one candidate per listing entry, all in the first compatible encoding |
| `FormatSelection.CandidatesSound` | src/lib.rs:35-40 | every candidate is the candidate of some listing entry |
| `FormatSelection.CandidatesComplete` | src/lib.rs:35-40 | every entry offering a frame rate contributes its candidate |
| `FormatSelection.CandidatesOnePerResolution` | src/lib.rs:34-40 | with distinct resolutions in the listing (a hash map), no two candidates share a resolution |
| `FormatSelection.Choose` | src/lib.rs:41-53 | the pairwise rule returns one of its two arguments: the wider when both reach the bar, otherwise the faster; on equal width (both reaching the bar) or equal frame rate (otherwise) the later argument wins |
| `FormatSelection.ChooseKeepsBest` | src/lib.rs:42-53 | one step never loses the bar: when either candidate reaches it, the result reaches it and is the widest of those reaching it; when neither does, the faster |
| `FormatSelection.Fold` | src/lib.rs:41-54 | the fold returns the seed or one of the later candidates |
| `FormatSelection.Reduce` | src/lib.rs:41-54 | nothing exactly for no candidates; otherwise one of the candidates |
| `FormatSelection.FoldOptimal` | src/lib.rs:41-54 | the fold yields the widest candidate reaching the bar when one does, else the fastest candidate |
| `FormatSelection.ReduceOptimal` | src/lib.rs:41-54 | the same for the reduction over any non-empty candidate list |
| `FormatSelection.ReduceWidestWhenAllMeetBar` | src/lib.rs:41-54 | when every candidate reaches the suggested frame rate, the result has maximal width |
| `FormatSelection.ReduceFastestWhenNoneMeetsBar` | src/lib.rs:41-54 | when no candidate reaches it, the result has maximal frame rate |
| `FormatSelection.ReduceExamples` | src/lib.rs:42-53 | 640x480@30 beats 1280x720@10 at bar 20; 1280x720@30 beats 640x480@30; on equal width the later candidate wins |
| `FormatSelection.GetCompatibleFormat` | src/lib.rs:31-63 | driver errors propagate; an empty encoding list is an error; with no candidates the current format is returned, otherwise the reduction of the candidates, which is one of them |
| `CaptureLoop.Iterate` | src/lib.rs:86-89 | an iteration never changes the flag; the thread leaves the loop exactly when it reads the flag cleared; once out, slot and history stay put |
| `CaptureLoop.Stop` | src/lib.rs:100-102 | teardown clears the flag and leaves the loop state, the slot and the history unchanged |
| `CaptureLoop.Iterations` | src/lib.rs:86-89 | one loop iteration per driver response, in order |
| `CaptureLoop.ReplayConsistent` | src/lib.rs:79-89 | along any trace the slot holds the last frame published and the thread only exits after the flag is cleared |
| `CaptureLoop.ActiveUntilTeardown` | src/lib.rs:79-101 | the flag is set after a trace exactly when it was set before and no teardown occurred: it is never set again |
| `CaptureLoop.NoPublishAfterTeardown` | src/lib.rs:86-101 | once the flag is cleared, no trace changes the slot or publishes a frame |
| `CaptureLoop.ReplayPublishes` | src/lib.rs:86-89 | while the flag is set, the frames published are exactly the successful fetches before the first teardown, in order |
| `CaptureLoop.SlotIsLatestFetch` | src/lib.rs:80-96 | from a fresh session the slot is empty until the first successful fetch, then holds the latest frame fetched before teardown |
| `CaptureLoop.FailedFetchesKeepSlot` | src/lib.rs:87-89 | any number of failed fetches leave slot and history unchanged and do not stop the loop |
| `CaptureLoop.ShutdownWithinOneIteration` | src/lib.rs:86-101 | after a teardown, the next iteration leaves the loop |
| `CaptureLoop.CameraInternal.constructor` | src/lib.rs:76-93 | flag set, thread running, slot empty, nothing published |
| `CaptureLoop.CameraInternal.LoopIteration` | src/lib.rs:86-89 | the new state is one loop iteration applied to the old state, keeping the slot invariant |
| `CaptureLoop.CameraInternal.RunLoop` | src/lib.rs:85-91 | the new state is the old state after one iteration per driver response |
| `CaptureLoop.CameraInternal.Drop` | src/lib.rs:99-103 | teardown clears the flag and changes nothing else |
| `CaptureLoop.CameraInternal.LastFrame` | src/lib.rs:94-96 | returns the frame most recently published, or None when none has been |
| `CaptureLoop.PollFrame` | src/lib.rs:130-139 | None exactly when no frame has been published; otherwise the width, height and bytes of the last one |
| `DeviceQuery.Query` | src/lib.rs:18-25 | a failed discovery is an error; otherwise one tuple per device, in order, with index, name, description and misc |
| `FormatOptions.Filter` | omni_camera/__init__.py:73-75 | an order-preserving sub-list holding exactly the elements that pass the test, each as many times as in the input |
| `FormatOptions.Prefer` | omni_camera/__init__.py:69-78 | a sub-list of the input, non-empty for non-empty input; the passing elements (with their multiplicities) when some pass, the input unchanged when none does |
| `FormatOptions.PreferRange` | omni_camera/__init__.py:80-81 | inclusive bounds, a missing bound imposes none; every in-range mode and only those when some exist, else the input |
| `FormatOptions.PreferFpsRange` | omni_camera/__init__.py:83-87 | the same bounds on frame rate, keeping every mode within them |
| `FormatOptions.PreferWidthRange` | omni_camera/__init__.py:89-93 | the same bounds on width, keeping every mode within them |
| `FormatOptions.PreferHeightRange` | omni_camera/__init__.py:95-99 | the same bounds on height, keeping every mode within them |
| `FormatOptions.PreferAspectRatio` | omni_camera/__init__.py:101-105 | a non-empty sub-list keeping every matching mode and only those when some mode matches, the input unchanged when none does |
| `FormatOptions.PreferSidesRatio` | omni_camera/__init__.py:107-109 | the deprecated alias: every matching mode and only those when some match, the input unchanged when none does |
| `FormatOptions.PreferFrameFormat` | omni_camera/__init__.py:111-112 | the modes in the requested encoding when some are, else the input |
| `FormatOptions.MaxIndex` | omni_camera/__init__.py:115-119 | an index whose key no element exceeds and no earlier element reaches: the first maximal element |
| `FormatOptions.Resolve` | omni_camera/__init__.py:115-119 | an error exactly for an empty list; otherwise the first element of maximal key |
| `FormatOptions.ResolveDefault` | omni_camera/__init__.py:121-126 | succeeds exactly for a non-empty list |
| `FormatOptions.ResolveDefaultHonoursPreferences` | omni_camera/__init__.py:121-126 | the default choice is one of the modes offered, has 25 to 60 fps whenever some mode has, and matches 4:3 whenever some mode in that frame-rate band does |
| `FormatOptions.ResolveDefaultPrefersMjpegThenWidest` | omni_camera/__init__.py:126 | the default choice is MJPEG whenever some mode left by the frame-rate and aspect preferences is, and it is the widest mode left after all three preferences |
| `FormatOptions.PreferenceChainIsSublist` | omni_camera/__init__.py:121-126 | the default preference chain yields an order-preserving sub-list of the modes offered |
| `FormatOptions.SublistTransitive` | omni_camera/__init__.py:73-75 | a sub-list of a sub-list is a sub-list, so chained preferences introduce nothing |
| `CameraControl.FloorDiv` | omni_camera/__init__.py:140 | Python's floor division: the quotient times the divisor lies within one divisor of the dividend, on the divisor's side |
| `CameraControl.ContainsIffElement` | omni_camera/__init__.py:143-151 | Python's arithmetic range-membership test agrees with enumerating the range |
| `CameraControl.RangeOf` | omni_camera/__init__.py:138-143 | the backend triple unchanged, except an error for a zero step or a never-ending adjustment loop |
| `CameraControl.ValueRange` | omni_camera/__init__.py:133-143 | runs the adjustment loop, discards its result, and returns exactly the range of the backend triple |
| `CameraControl.SetValue` | omni_camera/__init__.py:145-152 | None is forwarded without a range check; a value the range enumerates is forwarded, any other value (`stop` included) raises `NotInRange`, and a range that cannot be built raises its own error |
| `OmniCamera.Camera.constructor` | omni_camera/__init__.py:165-172 | not initialized, never opened; the suggested frame rate is unused |
| `OmniCamera.Camera.Open` | omni_camera/__init__.py:187-197 | a second opening fails with "Can only open once"; otherwise the given mode or the default choice is opened, and the camera is initialized exactly when the native open succeeds; the native object is successfully opened at most once, and a failed open may be retried |
| `OmniCamera.Camera.PollFrameRaw` | omni_camera/__init__.py:199-207 | opens with the default choice when not yet initialized; once initialized (before or by this call) raises a latched error, else returns the native poll result; an initialized camera is never reopened |

## Left out

- Threads, `Mutex`/`FairMutex` locking, `Arc` sharing and relaxed atomics (src/lib.rs:2, 7, 70-91): each state change is one indivisible step. Interleavings are represented only as orders of events in a trace.
- NoPublishAfterTeardown: an iteration reads the flag (src/lib.rs:86) and then fetches and publishes (src/lib.rs:87-88); in the source a teardown between that read and the publish still lets one frame be published afterwards. The model's iteration is one step, so this frame is not represented.
- The cpython binding layer: module initialisation, `py_class!`, `error_to_exception` and the `PyBytes` conversion (src/lib.rs:9-16, 65-67, 105-140 apart from the poll logic).
- Native `Camera.__new__` (src/lib.rs:108-125): a sequence of driver calls, and two `unwrap`s that panic on failure. Only the selector it calls is modelled.
- `check_can_use` and `info` (src/lib.rs:27-29, 126-128): one foreign driver call and one debug string.
- `FormatSelection.GetCompatibleFormat`: indexing an empty encoding list panics in the source. The model returns `NoCompatibleFourcc` instead.
- The contents of a frame's pixel buffer, and its length matching width × height × 3. The image type of the driver guarantees this, and a `Frame` is an immutable value, so a reader never sees a torn frame.
- `prefer_aspect_ratio`'s floating-point test `abs(width / height - ratio) < 1e-6` (omni_camera/__init__.py:105): it is a parameter, a total test. The `ZeroDivisionError` it raises for a zero height is not modelled.
- `FrameFormat(self._fmt.format)` (omni_camera/__init__.py:57) raises `ValueError` for a native encoding other than mjpeg or yuyv, which makes `prefer_frame_format` and `resolve_default` raise. The model's `FrameFormat` has only these two encodings, so that failure is not modelled.
- The `DeprecationWarning` of `prefer_sides_ratio` (omni_camera/__init__.py:108): I/O.
- `set_fraction` (omni_camera/__init__.py:154-161): floating-point rounding. The length and indexing of a Python range are not modelled either.
- `CameraInfo`, `FrameFormat` string values, `CameraFormat.__str__`, `get_format_options`, `get_controls`, `_info`, module-level `query` and the import-failure messages (omni_camera/__init__.py:1-60, 174-185, 232-244): wrapping, string formatting and foreign calls. The `formats` field of `OmniCamera.Camera` stands for what `get_formats` reports.
- `poll_frame_np` and `poll_frame_pil` (omni_camera/__init__.py:209-230): numpy and pillow conversions.
- `OmniCamera.Camera.constructor`: a failure of the native constructor is not modelled.
- The native object's `open`, `check_err`, `poll_frame`, `get_formats`, `get_controls` and control handles: their source is not part of this model. Their outcomes are parameters. Of the error latch and the weak control references, only what the Python layer does with their results is modelled.
- `CameraControl.SetValue`: the backend control's own `set_value` and its failures are outside the model. The result is the value that would be forwarded to it.
- `CameraControl.SetValue`: the range check is a Python `assert` (omni_camera/__init__.py:151), which `python -O` removes; in that mode no check is made and `value_range` is not evaluated. The model follows the default mode.
- camerata/__init__.py and the example scripts: a pass-through layer and demos.
