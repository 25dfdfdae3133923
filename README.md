# gfxprim libretro adapter — a verified model

This project models the libretro core in `gfxprim_libretro.c`. The core hosts the
gfxprim graphics library inside a libretro frontend. It keeps one global session
(`core`) that holds:

- the virtual gfxprim backend, which owns a pixmap, a timer heap, clipboard data
  and an event queue;
- the last left mouse button value seen by a poll;
- the last frame time the host reported.

The host drives the core through the `retro_*` entry points:

- `retro_init` creates a 400×225 RGB565 backend. `retro_deinit` releases it.
- `retro_load_game` declares the pixel format to the host. It fails when the host
  refuses that format.
- `retro_run` does one frame, in this order: poll the host's mouse, drain the event
  queue, draw, hand the frame to the host with the stride of its pixel type, emit
  one silent audio sample, and ask the host whether its variables changed.
- `retro_poll` detects edges. It queues a key event only when the left button
  reading differs from the stored value.
- `event_loop` turns a key-down of the left button into a shutdown request to the
  host.

Modules:

- `Wrappers` (wrappers.dfy): `Option`.
- `Gfxprim` (gfxprim.dfy): pixel types, pixmaps, events, the backend record, and
  the gfxprim debug-level constants.
- `Libretro` (libretro.dfy): pixel formats, log levels, the API version and region
  constants, and the system and AV info records.
- `Effects` (effects.dfy): the outward calls the core makes. These are calls to host
  callbacks, plus the release calls into gfxprim and libc.
- `Adapter` (adapter.dfy): the pure parts of the source (format choice, stride, log
  level, constant stubs) and the specification functions for edge detection,
  draining and release. It also holds the lemmas about them.
- `Session` (session.dfy): class `Core`, the global `core`, with one method per entry
  point. It also has client methods that chain entry points.

How the host appears in the model:

- The host's answers are parameters: the mouse reading as a `bool`, the format
  acceptance as a function `PixelFormat -> bool`, and whether the frame-time
  callback was accepted as a `bool`.
- Every call of a host callback and every release call is appended to `Core.trace`. Each method
  states exactly what it appends.
- `retro_reset`, `retro_unload_game`, `retro_cheat_reset` and `retro_cheat_set` are
  `Core.Reset`, `Core.UnloadGame`, `Core.CheatReset` and `Core.CheatSet`. They have
  empty bodies and no `modifies` clause. Their contracts state that no field changes.

Facts about the source that the model keeps as they are:

- The backend and its pixmap are created in `retro_init` and released in
  `retro_deinit`. `retro_unload_game` and `retro_reset` do nothing.
- `retro_init` has no guard against an existing backend. A second call replaces the
  backend without releasing the old one (`Core.Init`).
- Only the left mouse button is polled. There is no cursor, so there is no clamping.
- `retro_load_game` allocates nothing. Loading twice only declares the format twice.

The one place the model departs from the source is the frame-time check in
`retro_set_environment`. It is recorded under "## Findings": `Core.SetEnvironment`
uses the corrected test, and `Adapter.FrameTimeLogAsWritten` models the test as written.

## Model

| member | source | states |
|---|---|---|
| `Adapter.FormatFor` | gfxprim_libretro.c:275-278 | the declared format is XRGB8888 exactly when the pixmap is xRGB8888, and RGB565 exactly when it is any other type |
| `Adapter.Stride` | gfxprim_libretro.c:41-50 | a stride exists exactly for RGB565 and xRGB8888; for xRGB8888 it is the 32-bit wrapped `w << 2`, for RGB565 `w * 2` |
| `Adapter.FrameCalls` | gfxprim_libretro.c:41-50 | a flip hands at most one frame, and none exactly for an unsupported pixel type; the frame carries the pixmap's width and height, and its pitch is the pixel type's `Stride` |
| `Adapter.StrideMatchesDeclaredFormat` | gfxprim_libretro.c:41-50 | for a supported type with no wrap-around, the stride is the width times the bytes per pixel of the format declared at load |
| `Adapter.StrideWrapsAt2To30` | gfxprim_libretro.c:44 | the xRGB8888 shift wraps to 0 at width 2^30; the RGB565 product does not wrap |
| `Adapter.LogLevelFor` | gfxprim_libretro.c:74-91 | TODO maps to DEBUG, WARN to WARN, BUG and FATAL to ERROR, every other level to INFO; each as an if-and-only-if |
| `Adapter.EdgeEvents` | gfxprim_libretro.c:63-67 | a run of polls queues at most one event per reading |
| `Adapter.OnePollEdge` | gfxprim_libretro.c:63-67 | one poll queues one event carrying the reading when it differs from the stored value, and nothing otherwise |
| `Adapter.EdgeEventsSnoc` | gfxprim_libretro.c:55-68 | one more poll appends exactly the events of that single poll, taken from the last stored value |
| `Adapter.EdgeEventsPrefixStep` | gfxprim_libretro.c:63-67 | going from the first i readings to the first i+1 appends exactly the events of poll i+1, and the stored value becomes reading i+1 |
| `Adapter.EdgeEventsEmptyIff` | gfxprim_libretro.c:63-67 | polls queue nothing if and only if every reading equals the stored value |
| `Adapter.EdgeEventsAreLeftButton` | gfxprim_libretro.c:63-67 | every queued event is a left-button key event, press or release, stamped with the poll's time |
| `Adapter.EdgeEventsAlternate` | gfxprim_libretro.c:63-67 | queued events alternate press/release, starting opposite to the stored value and ending at the last reading; with no event the last reading is the stored value |
| `Adapter.PressReleaseQueuesTwo` | gfxprim_libretro.c:63-67 | readings false, true, true, false queue exactly a press then a release |
| `Adapter.DrainCalls` | gfxprim_libretro.c:234-251 | draining makes no more calls than there are events, and every call is a shutdown request |
| `Adapter.DrainCallsAppend` | gfxprim_libretro.c:234-251 | draining a concatenated queue makes the calls of each part, in order |
| `Adapter.DrainShutdownIff` | gfxprim_libretro.c:234-251 | draining requests shutdown if and only if the queue holds a key-down event of the left button |
| `Adapter.PressThenDrainShutsDown` | gfxprim_libretro.c:253-259 | a poll that sees released to pressed, then draining, requests shutdown whatever was queued before |
| `Adapter.ReleaseCalls` | gfxprim_libretro.c:110-126 | the pixmap, the timers and the clipboard are each released if and only if present, none twice, nothing else |
| `Adapter.FrameTimeLog` | gfxprim_libretro.c:178-183 | the frame-time failure is logged if and only if the host refuses the callback (corrected test) |
| `Adapter.FrameTimeLogAsWritten` | gfxprim_libretro.c:181-183 | as written, the failure line is logged if and only if the host accepts the callback |
| `Adapter.FrameTimeLogAsWrittenInverted` | gfxprim_libretro.c:181-183 | as written, an accepted callback logs "Failed to set frame time callback" and a refused one logs nothing |
| `Adapter.ApiVersion` | gfxprim_libretro.c:128-130 | the reported API version is RETRO_API_VERSION |
| `Adapter.Region` | gfxprim_libretro.c:295-297 | the region is always NTSC |
| `Adapter.GetSystemInfo` | gfxprim_libretro.c:136-143 | name "gfxprim", version "v0.0.1", extraction blocked, no full path needed, no extension list |
| `Adapter.SerializeSize` | gfxprim_libretro.c:303-305 | the serialized state size is always 0 |
| `Adapter.Serialize` | gfxprim_libretro.c:307-309 | serializing succeeds for every buffer and size |
| `Adapter.Unserialize` | gfxprim_libretro.c:311-313 | unserializing succeeds for every payload, including the empty one, and as a function it cannot change the session |
| `Adapter.GetMemoryData` | gfxprim_libretro.c:315-318 | no memory region is exposed for any id |
| `Adapter.GetMemorySize` | gfxprim_libretro.c:320-323 | every memory region has size 0 |
| `Session.Core.constructor` | gfxprim_libretro.c:11-24 | the initial session has no backend, the button released and no frame time |
| `Session.Core.Init` | gfxprim_libretro.c:93-108 | the backend becomes a fresh 400×225 RGB565 "libretro" backend with no timers, clipboard or events; nothing else changes |
| `Session.Core.Deinit` | gfxprim_libretro.c:110-126 | with no backend nothing changes; otherwise exactly the present resources are released and the backend becomes absent |
| `Session.Core.FrameTime` | gfxprim_libretro.c:163-165 | the stored frame time is the 64-bit microsecond count reduced modulo 2^32 |
| `Session.Core.Poll` | gfxprim_libretro.c:55-68 | one event with the new value is queued exactly when the reading differs from the stored value; the stored value becomes the reading; nothing else changes but the two host queries in the trace |
| `Session.Core.Exit` | gfxprim_libretro.c:70-72 | exactly one shutdown request is made to the host |
| `Session.Core.Debug` | gfxprim_libretro.c:74-91 | the message is logged once, at the level of LogLevelFor |
| `Session.Core.DrainEvents` | gfxprim_libretro.c:234-251 | the queue ends empty and the calls made are DrainCalls of the old queue |
| `Session.Core.Flip` | gfxprim_libretro.c:41-50 | the calls made are FrameCalls of the pixmap; the session state is unchanged |
| `Session.Core.Run` | gfxprim_libretro.c:253-268 | with no backend, nothing; otherwise poll, drain, flip, silent sample, variable query, in that order, with the queue left empty; a released-to-pressed reading ends in a shutdown request |
| `Session.Core.LoadGame` | gfxprim_libretro.c:270-289 | fails with no backend; otherwise declares FormatFor of the pixel type and succeeds exactly when the host accepts it; it logs a failure otherwise and never changes the backend |
| `Session.Core.LoadGameSpecial` | gfxprim_libretro.c:299-301 | behaves exactly as LoadGame |
| `Session.Core.SystemAvInfo` | gfxprim_libretro.c:145-161 | nothing without a backend; otherwise 60 fps, sample rate 0, base and maximum size both equal to the pixmap size |
| `Session.Core.SetEnvironment` | gfxprim_libretro.c:167-184 | the host is told that no content is needed, queried for its log interface and offered the frame-time callback, then FrameTimeLog is applied |
| `Session.Core.SetControllerPortDevice` | gfxprim_libretro.c:132-134 | only one INFO log line with the device and the port |
| `Session.Core.Reset` | gfxprim_libretro.c:206-208 | no field of the session changes and no call is made |
| `Session.Core.UnloadGame` | gfxprim_libretro.c:291-293 | no field changes; in particular the backend is not released |
| `Session.Core.CheatReset` | gfxprim_libretro.c:325-327 | no field of the session changes and no call is made |
| `Session.Core.CheatSet` | gfxprim_libretro.c:329-334 | whatever the index, flag and code, no field changes and no call is made |
| `Session.DeinitTwice` | gfxprim_libretro.c:110-126 | a second deinit releases nothing more than the first |
| `Session.InitThenAvInfo` | gfxprim_libretro.c:145-161 | after init, base and maximum geometry are 400×225 |
| `Session.NoBackendIsInert` | gfxprim_libretro.c:253-256 | without a backend, run and load change nothing, load fails and no AV info is reported |
| `Session.PollSequence` | gfxprim_libretro.c:55-68 | any number of `Core.Poll` calls queue exactly `EdgeEvents` of their readings and leave the last reading stored |
| `Session.FourPollsQueuePressAndRelease` | gfxprim_libretro.c:63-67 | four polls reading false, true, true, false queue a press then a release and nothing more |
| `Session.RefusedFormatFailsLoad` | gfxprim_libretro.c:280-283 | a host that refuses every format makes loading fail and leaves the backend unchanged |

## Left out

- Session.Core.SetEnvironment: uses the corrected frame-time test (`FrameTimeLog`: the failure is logged when the host refuses), not line 181 as written. As written, the failure is logged when the host accepts and nothing is logged on refusal (`FrameTimeLogAsWritten`, see "## Findings").
- Adapter.Stride: assumes a 64-bit size_t, so `w * sizeof(uint16_t)` cannot wrap. With a 32-bit size_t the RGB565 stride would wrap at width 2^31.
- Drawing: `render` and the gfxprim drawing primitives are library calls on pixels. The model has no pixels. `Core.Run` notes where render happens, between drain and flip.
- Floating point: the aspect ratio (`(float)w/(float)h`) is not in `AvInfo`. fps 60.0 and sample rate 0.0 are exact and are kept as reals.
- Event timestamps: the seconds field is computed in floating point, so it is left out. An event carries only its microseconds field, which the source sets to the stored frame time, as an opaque token.
- Session.Core.Poll: the host's reading is modelled as a bool. The source compares a 16-bit reading with a bool and stores it back into a bool. Readings other than 0 and 1 are not modelled.
- Registration of host callbacks (`retro_set_video_refresh`, `retro_set_audio_sample`, `retro_set_audio_sample_batch`, `retro_set_input_poll`, `retro_set_input_state`): these only store pointers. Logging is recorded as `Log` effects whatever the sink, because the choice between the host log and `fallback_log` is output plumbing.
- `gp_set_debug_handler` and the backend's `flip`/`poll`/`exit` hooks: this is registration. The model calls `Flip`, `Poll` and `Exit` directly, where gfxprim would dispatch through the hooks.
- Allocation: the internals of `gp_backend_virt_init` are not modelled. Neither is the stack-allocated template pixmap passed at lines 96-103. Session.Core.Init assumes the virtual backend starts with a pixmap and with no timers, clipboard data or events. A failed allocation is fatal in the source and is not modelled.
- Event queue capacity: gfxprim's queue is a fixed-size ring buffer, and the model's queue is unbounded. `Core.Run` always leaves the queue empty and a poll adds at most one event, so the bound is never reached through `Run`.
- `check_variables` and the answer to the variable-update query: `check_variables` does nothing. Only the query itself is recorded.
- `audio_callback` is inlined in `Core.Run` as one `AudioSample(0, 0)` effect. `audio_batch_cb` is never called.
- The release of the backend record itself: `retro_deinit` frees the pixmap, the timers and the clipboard data, but not the backend record. The model drops the record without a release effect, as the source does.
- The constants RETRO_API_VERSION (1), RETRO_REGION_NTSC (0), GP_BTN_LEFT (0x110), the gfxprim key codes and the gfxprim debug levels come from headers that are not part of this model. Their values are written as the libraries define them.

## Findings

| source | as written | input that shows it | evidently intended | confidence | as-written member | corrected member |
|---|---|---|---|---|---|---|
| gfxprim_libretro.c:181-183 | `if (cb(RETRO_ENVIRONMENT_SET_FRAME_TIME_CALLBACK, &callback))` logs "Failed to set frame time callback" | a host that accepts the frame-time callback (returns true) gets the failure logged; a host that refuses it gets no message | log the failure only when the host refuses, `if (!cb(...))` | high; not executed | `Adapter.FrameTimeLogAsWritten` (with `Adapter.FrameTimeLogAsWrittenInverted`) | `Adapter.FrameTimeLog` |
