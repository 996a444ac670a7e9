/**
 * The program's start-up and shut-down sequence: load a model, check for and
 * open the head-mounted display, create a graphics context, run the viewer,
 * shut the display down. Every collaborator is reduced to its outcome, and
 * the program to its exit code and the trace of steps it takes.
 */
module Startup {

  /** Identity of a created graphics context. */
  type Context = nat

  datatype Option<T> = None | Some(value: T)

  /** The steps of the sequence, as they appear in a trace. */
  datatype Step =
    | LoadArgs                           // read the scene from the files named on the command line
    | LoadDefault(path: string)          // read the fallback model instead
    | CheckHmd                           // ask whether a head-mounted display is present
    | InitHmd(samples: nat)              // open the display with its multisample count
    | CreateContext(windowName: string)  // create the graphics context from the display's traits
    | Run(context: Context)              // run the viewer bound to that context until it quits
    | Shutdown(context: Context)         // shut the display down, handing it the context

  /** What each collaborator turns out to do on a given run. */
  datatype Collaborators = Collaborators(
    argsLoaded: bool,          // some command-line file could be read
    defaultLoaded: bool,       // the fallback model could be read
    hmdPresent: bool,          // a display is present
    hmdInitialized: bool,      // opening the display succeeded
    context: Option<Context>)  // the context created, if creation succeeded

  /** Notification levels of the scene-graph library's diagnostic stream. */
  datatype Severity = Always | Fatal | Notice

  datatype Diagnostic = Diagnostic(severity: Severity, message: string)

  /** How the program ends: exit code, steps taken, and diagnostics it wrote itself. */
  datatype Exit = Exit(code: int, trace: seq<Step>, diagnostics: seq<Diagnostic>)

  const DefaultModel: string := "cow.osgt"
  const WindowName: string := "OsgOpenVRViewerExample"
  const Samples: nat := 4

  const NoModelDiagnostic: Diagnostic :=
    Diagnostic(Always, "No model could be loaded and didn't find cow.osgt, terminating..")
  const NoHmdDiagnostic: Diagnostic := Diagnostic(Fatal, "Error: No valid HMD present!")
  const NoContextDiagnostic: Diagnostic :=
    Diagnostic(Notice, "Error, GraphicsWindow has not been created successfully")

  const ExitSuccess: int := 0
  const ExitFailure: int := 1

  predicate ModelLoaded(c: Collaborators) {
    c.argsLoaded || c.defaultLoaded
  }

  /** Every checkpoint passes, so the viewer gets to run. */
  predicate Ready(c: Collaborators) {
    ModelLoaded(c) && c.hmdPresent && c.hmdInitialized && c.context.Some?
  }

  /** Position of each kind of step in the fixed start-up order. */
  function Rank(s: Step): nat {
    match s
    case LoadArgs => 0
    case LoadDefault(_) => 1
    case CheckHmd => 2
    case InitHmd(_) => 3
    case CreateContext(_) => 4
    case Run(_) => 5
    case Shutdown(_) => 6
  }

  /** Steps occur in the fixed order, each kind at most once. */
  predicate InOrder(t: seq<Step>) {
    forall i, j :: 0 <= i < j < |t| ==> Rank(t[i]) < Rank(t[j])
  }

  predicate Ran(t: seq<Step>) {
    exists i :: 0 <= i < |t| && t[i].Run?
  }

  predicate ShutDown(t: seq<Step>) {
    exists i :: 0 <= i < |t| && t[i].Shutdown?
  }

  predicate TouchedHmd(t: seq<Step>) {
    exists i :: 0 <= i < |t| && (t[i].CheckHmd? || t[i].InitHmd? || t[i].CreateContext?)
  }

  /**
   * The program for the given collaborator outcomes. With no model at all it
   * ends successfully without touching the display; a missing display, a
   * failed initialisation or a failed context creation is fatal; otherwise
   * the exit is successful. The program writes at most one diagnostic of
   * its own, and none when the display fails to initialise, because the
   * display reports that failure itself.
   */
  function Main(c: Collaborators): (r: Exit)
    ensures r.code == ExitSuccess || r.code == ExitFailure
    ensures r.code == ExitFailure <==> ModelLoaded(c) && !Ready(c)
    ensures |r.diagnostics| <= 1
    ensures r.diagnostics == [] <==> Ready(c) || (ModelLoaded(c) && c.hmdPresent && !c.hmdInitialized)
  {
    var loaded := if c.argsLoaded then [LoadArgs] else [LoadArgs, LoadDefault(DefaultModel)];
    if !ModelLoaded(c) then Exit(ExitSuccess, loaded, [NoModelDiagnostic])
    else
      var checked := loaded + [CheckHmd];
      if !c.hmdPresent then Exit(ExitFailure, checked, [NoHmdDiagnostic])
      else
        var initialised := checked + [InitHmd(Samples)];
        if !c.hmdInitialized then Exit(ExitFailure, initialised, [])
        else
          var created := initialised + [CreateContext(WindowName)];
          match c.context
          case None => Exit(ExitFailure, created, [NoContextDiagnostic])
          case Some(gc) => Exit(ExitSuccess, created + [Run(gc), Shutdown(gc)], [])
  }

  /** Neighbouring steps are in the fixed order. */
  predicate Ascending(t: seq<Step>) {
    forall i :: 0 < i < |t| ==> Rank(t[i - 1]) < Rank(t[i])
  }

  lemma {:induction false} AscendingInOrder(t: seq<Step>)
    requires Ascending(t)
    ensures InOrder(t)
  {
    if |t| > 1 {
      var rest := t[1..];
      assert Ascending(rest) by {
        forall i | 0 < i < |rest| ensures Rank(rest[i - 1]) < Rank(rest[i]) {
          assert rest[i - 1] == t[i] && rest[i] == t[i + 1];
        }
      }
      AscendingInOrder(rest);
      forall i, j | 0 <= i < j < |t| ensures Rank(t[i]) < Rank(t[j]) {
        if i > 0 {
          assert t[i] == rest[i - 1] && t[j] == rest[j - 1];
        } else if j > 1 {
          assert t[1] == rest[0] && t[j] == rest[j - 1];
        }
      }
    }
  }

  /** The trace follows the fixed start-up order, each kind of step at most once. */
  lemma AscendingConcat(a: seq<Step>, b: seq<Step>)
    requires Ascending(a) && Ascending(b)
    requires a != [] && b != [] ==> Rank(a[|a| - 1]) < Rank(b[0])
    ensures Ascending(a + b)
  {
    forall i | 0 < i < |a + b| ensures Rank((a + b)[i - 1]) < Rank((a + b)[i]) {
      if i < |a| {
        assert (a + b)[i - 1] == a[i - 1] && (a + b)[i] == a[i];
      } else if i > |a| {
        assert (a + b)[i - 1] == b[i - 1 - |a|] && (a + b)[i] == b[i - |a|];
      }
    }
  }

  lemma MainInOrder(c: Collaborators)
    ensures InOrder(Main(c).trace)
  {
    var loaded := if c.argsLoaded then [LoadArgs] else [LoadArgs, LoadDefault(DefaultModel)];
    var rest :=
      if !ModelLoaded(c) then []
      else if !c.hmdPresent then [CheckHmd]
      else if !c.hmdInitialized then [CheckHmd, InitHmd(Samples)]
      else if c.context.None? then [CheckHmd, InitHmd(Samples), CreateContext(WindowName)]
      else [CheckHmd, InitHmd(Samples), CreateContext(WindowName),
            Run(c.context.value), Shutdown(c.context.value)];
    assert Main(c).trace == loaded + rest;
    assert Ascending(loaded);
    assert Ascending(rest);
    AscendingConcat(loaded, rest);
    AscendingInOrder(loaded + rest);
  }

  /** The fallback model is tried exactly when the command-line files could not be read. */
  lemma DefaultTriedOnlyAfterArgsFail(c: Collaborators)
    ensures Main(c).trace[0] == LoadArgs
    ensures (exists i :: 0 <= i < |Main(c).trace| && Main(c).trace[i].LoadDefault?)
            <==> !c.argsLoaded
    ensures forall i :: 0 <= i < |Main(c).trace| && Main(c).trace[i].LoadDefault? ==>
              Main(c).trace[i].path == DefaultModel
  {
    var t := Main(c).trace;
    if c.argsLoaded {
      assert forall i :: 1 <= i < |t| ==> Rank(t[i]) >= 2;
    } else {
      assert t[1] == LoadDefault(DefaultModel);
    }
  }

  /**
   * With no model, the program says so and ends successfully without
   * touching the display.
   */
  lemma NoModelSkipsDisplay(c: Collaborators)
    requires !ModelLoaded(c)
    ensures Main(c).code == ExitSuccess
    ensures Main(c).diagnostics == [NoModelDiagnostic]
    ensures Main(c).trace == [LoadArgs, LoadDefault(DefaultModel)]
    ensures !TouchedHmd(Main(c).trace) && !Ran(Main(c).trace)
  {
  }

  /**
   * Every fatal exit happens before the viewer runs and before any shutdown,
   * right after the checkpoint that failed, with that checkpoint's diagnostic.
   */
  lemma FatalExitBeforeRun(c: Collaborators)
    requires Main(c).code == ExitFailure
    ensures !Ran(Main(c).trace) && !ShutDown(Main(c).trace)
    ensures !c.hmdPresent ==>
              Main(c).trace[|Main(c).trace| - 1] == CheckHmd && Main(c).diagnostics == [NoHmdDiagnostic]
    ensures c.hmdPresent && !c.hmdInitialized ==>
              Main(c).trace[|Main(c).trace| - 1] == InitHmd(Samples) && Main(c).diagnostics == []
    ensures c.hmdPresent && c.hmdInitialized ==>
              c.context.None? && Main(c).trace[|Main(c).trace| - 1] == CreateContext(WindowName) &&
              Main(c).diagnostics == [NoContextDiagnostic]
  {
  }

  /**
   * A context is created only once the display is present and initialised,
   * and only after both checks appear in the trace.
   */
  lemma ContextOnlyAfterHmdChecks(c: Collaborators, k: nat)
    requires k < |Main(c).trace| && Main(c).trace[k].CreateContext?
    ensures c.hmdPresent && c.hmdInitialized
    ensures k >= 2 && Main(c).trace[k - 2] == CheckHmd && Main(c).trace[k - 1] == InitHmd(Samples)
  {
  }

  /**
   * The viewer runs exactly when every checkpoint passes; then the display is
   * shut down as the very last step, right after the run, with the same
   * context the viewer ran with, which is the one that was created.
   */
  lemma ShutdownAfterRun(c: Collaborators)
    ensures Ran(Main(c).trace) <==> Ready(c)
    ensures ShutDown(Main(c).trace) <==> Ready(c)
    ensures Ready(c) ==>
              var t := Main(c).trace;
              |t| >= 2 && t[|t| - 2] == Run(c.context.value) && t[|t| - 1] == Shutdown(c.context.value)
  {
    var t := Main(c).trace;
    if Ready(c) {
      assert t[|t| - 2].Run? && t[|t| - 1].Shutdown?;
    } else {
      assert |t| <= 5 && forall i :: 0 <= i < |t| ==> Rank(t[i]) <= 4;
    }
  }

  /** The display is shut down at most once. */
  lemma ShutdownAtMostOnce(c: Collaborators, i: nat, j: nat)
    requires i < |Main(c).trace| && j < |Main(c).trace|
    requires Main(c).trace[i].Shutdown? && Main(c).trace[j].Shutdown?
    ensures i == j
  {
    MainInOrder(c);
  }
}
