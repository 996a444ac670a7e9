# osgopenvrviewer example viewer — a Dafny model

The example program of osgopenvrviewer loads a model and shows it on a
head-mounted display (HMD) through OpenSceneGraph and OpenVR. Two pieces of
its logic are modelled here:

- **Close-window interception** (`events.dfy`, `viewer.dfy`). Each frame, the
  viewer's event traversal looks at its graphics window's event queue. It
  erases the first `CLOSE_WINDOW` GUI event and asks the queue to quit the
  application, which appends a `QUIT_APPLICATION` event. The program then
  stops the normal way, as if Esc had been pressed, and the OpenGL context is
  still alive when the display is shut down. Module `Events` gives the
  rewrite as a function on sequences (`Intercept`) and proves what it keeps.
  Module `Viewer` gives the queue and the viewer as classes. The viewer's
  `EventTraversal` scans a snapshot of the queue in a loop, as the C++ code
  does, and is proved to leave the queue equal to `Intercept` of the old one.
- **Start-up and shut-down order** (`startup.dfy`). `main` is modelled as a
  function from the outcomes of its collaborators to an exit code and a trace
  of steps, with the diagnostics it writes. The collaborators are: reading the command-line files, reading
  `cow.osgt`, the HMD presence check, HMD initialisation and graphics-context
  creation. The lemmas state the fail-fast checkpoints, the exit codes, the
  fixed order of steps, and that shutdown happens exactly once, right after
  the run, with the same context.

Collaborator results and the window's `checkEvents()` answer are parameters.
They come from file I/O, the OpenVR runtime and the windowing system.

## Model

| member | source | states |
|---|---|---|
| `Events.FirstClose` | src/viewerexample.cpp:28-31 | the scan stops at the first event that is a GUI event of type close-window: no earlier event is one, the one found is one, and the scan reaches the end exactly when the queue holds none |
| `Events.Intercept` | src/viewerexample.cpp:43-48 | one frame's rewrite keeps the queue length (one event erased, one appended); when there was a close-window event, the last entry is the quit event |
| `Events.InterceptUnchangedIff` | src/viewerexample.cpp:28-50 | the queue is left exactly as it was, with no quit event added, if and only if it holds no close-window event |
| `Events.InterceptCountsClose` | src/viewerexample.cpp:45-47 | a rewrite removes exactly one close-window event and adds exactly one quit event; with no close-window event there is nothing to remove |
| `Events.InterceptKeepsOtherEvents` | src/viewerexample.cpp:45-47 | every event that is not a close-window event survives in its original relative order, and the quit event comes after all of them |
| `Events.InterceptKeepsNonGuiEvents` | src/viewerexample.cpp:30-31 | events that are not GUI events are never removed, altered or reordered |
| `Events.InterceptRewritesAtMostOne` | src/viewerexample.cpp:48 | only the first close-window event is rewritten per frame: a queue with at most one has none left, a queue with two or more still has one |
| `Events.InterceptTimesDrains` | src/viewerexample.cpp:21-53 | after as many frames as there are close-window events, none is left, one quit event was appended for each, the length is unchanged, and further frames change nothing |
| `Viewer.EventQueue.CopyEvents` | src/viewerexample.cpp:25-26 | the snapshot is the queue's contents, in order |
| `Viewer.EventQueue.SetEvents` | src/viewerexample.cpp:46 | the queue's contents become the edited snapshot |
| `Viewer.EventQueue.QuitApplication` | src/viewerexample.cpp:47 | a quit-application event is appended behind everything already queued |
| `Viewer.GraphicsWindowViewer.constructor` | src/viewerexample.cpp:18-19 | the viewer is bound to the window's queue, or to none when the window handle is not valid; nothing has been traversed yet |
| `Viewer.GraphicsWindowViewer.DefaultEventTraversal` | src/viewerexample.cpp:52 | the library's own event traversal is entered once, and the contents of the window's queue it finds are recorded |
| `Viewer.GraphicsWindowViewer.EventTraversal` | src/viewerexample.cpp:21-53 | with a valid window that reports events, the queue becomes `Intercept` of the old queue; with an invalid window or no reported events it is unchanged; the default traversal is entered exactly once, after the rewrite, so the queue it finds is the rewritten one, and a queue with at most one close-window event reaches it with none |
| `Startup.Main` | src/viewerexample.cpp:58-158 | the exit code is 0 or 1; it is 1 exactly when a model was loaded but the HMD is absent, fails to initialise or no context is created; the program writes at most one diagnostic, and none exactly when it runs or when HMD initialisation fails (the device reports that failure itself) |
| `Startup.MainInOrder` | src/viewerexample.cpp:63-155 | the trace follows the fixed start-up order (load, fallback load, HMD check, HMD initialisation, context creation, run, shutdown), each kind of step at most once |
| `Startup.DefaultTriedOnlyAfterArgsFail` | src/viewerexample.cpp:63-66 | loading starts with the command-line files, and `cow.osgt` is tried exactly when they could not be read |
| `Startup.NoModelSkipsDisplay` | src/viewerexample.cpp:68-73 | with no model at all, the program writes the always-level "no model" diagnostic, exits with 0 after the two load attempts and never checks, opens or runs the HMD |
| `Startup.FatalExitBeforeRun` | src/viewerexample.cpp:89-121 | every exit with 1 happens before the run and before any shutdown; its last step is the checkpoint that failed, with that checkpoint's diagnostic: fatal "no HMD" after the presence check, none after a failed initialisation, notice-level "window not created" after context creation |
| `Startup.ContextOnlyAfterHmdChecks` | src/viewerexample.cpp:89-115 | a context is created only if the HMD is present and initialised, right after those two steps |
| `Startup.ShutdownAfterRun` | src/viewerexample.cpp:129-157 | the viewer runs, and the HMD is shut down, exactly when every checkpoint passes; then shutdown is the last step, comes right after the run, and uses the context that was created and run with |
| `Startup.ShutdownAtMostOnce` | src/viewerexample.cpp:152-155 | any two shutdown steps of a trace are the same step: the HMD is shut down at most once |

## Left out

- Scene loading (`osgDB::readNodeFiles`, `osgDB::readNodeFile`) is file I/O. It is reduced to two booleans.
- OpenVR (`OpenVRDevice`, `OpenVRRealizeOperation`, `OpenVRViewer`, `OpenVREventHandler`) is a foreign library. Its calls are reduced to outcomes or to opaque trace steps. The realize operation, the scene composition (lines 140-146) and the handler registration (lines 147-150) are not steps of the trace.
- The library's `Viewer::eventTraversal`, `Viewer::run` and `createGraphicsContext` are not modelled. The default traversal does not touch the queue in this model. In the library it takes the queued events, so a second close-window event in the same frame would reach the library's own close handling. That is outside this file.
- `Viewer.GraphicsWindowViewer.DefaultEventTraversal`: records that the library traversal is entered and which queue contents it finds, not what it does with the events, including how it stops the frame loop on a quit event.
- The window's `checkEvents()` polls the windowing system. Its answer is the `pendingEvents` parameter. The events it may add to the queue are the queue's contents on entry.
- The quit request is modelled as the library implements it: an appended quit-application event. Two requests append two events; the request is not idempotent.
- Rendering configuration is not modelled: the floating-point clip planes and world scale (lines 97-99), the clear colour and the clear mask of colour and depth bits (lines 123-127), the viewport (line 134) and the near/far mode (line 137). Only the sample count (4), the window name and the default model name appear, as constants.
- Binding the camera to the context (line 133) is not a step of its own. It is what makes `Run` carry the created context, the one the shutdown receives.
- Diagnostics are modelled by level and text. Where the library's notification stream sends them, and the device's own report of a failed initialisation (line 106), are not modelled.
- The bounding-sphere block (lines 75-87) has its only effect commented out. The camera manipulator only matters to the library.
- `setThreadingModel(SingleThreaded)` (line 132) is about concurrency. The model is single-threaded.
- Reference counting and object lifetimes (`ref_ptr`) are not modelled. A graphics context is identified by a number.
