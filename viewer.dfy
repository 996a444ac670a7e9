/**
 * The viewer that intercepts a window's close request: once per frame it
 * peeks at the window's event queue, turns the first close-window event
 * into a quit request, and then hands over to the default event traversal.
 */
module Viewer {
  import opened Events

  /**
   * A graphics window's event queue, reduced to the three operations the
   * viewer uses on it: taking a snapshot, replacing the contents, and
   * requesting that the application quit.
   */
  class EventQueue {
    var events: seq<Event>

    constructor (initial: seq<Event>)
      ensures events == initial
    {
      events := initial;
    }

    /** A snapshot of the queued events, in queue order. */
    method CopyEvents() returns (s: seq<Event>)
      ensures s == events
    {
      s := events;
    }

    /** Replaces the queued events by `s`. */
    method SetEvents(s: seq<Event>)
      modifies this
      ensures events == s
    {
      events := s;
    }

    /** Appends a quit-application event behind everything already queued. */
    method QuitApplication()
      modifies this
      ensures events == old(events) + [QuitEvent]
    {
      events := events + [QuitEvent];
    }
  }

  class GraphicsWindowViewer {
    /** The bound window's event queue; null when the window handle is not valid. */
    const windowQueue: EventQueue?
    /** How many times the default event traversal has been entered. */
    var defaultTraversals: nat
    /** The window's queue as the default event traversal found it, once per entry with a valid window. */
    ghost var seen: seq<seq<Event>>

    constructor (windowQueue: EventQueue?)
      ensures this.windowQueue == windowQueue
      ensures defaultTraversals == 0 && seen == []
    {
      this.windowQueue := windowQueue;
      defaultTraversals := 0;
      seen := [];
    }

    /**
     * The library's own event traversal. What it does with the queued
     * events is not part of this model; it is recorded that it is entered,
     * and which contents of the window's queue it finds.
     */
    method DefaultEventTraversal()
      modifies this`defaultTraversals, this`seen
      ensures defaultTraversals == old(defaultTraversals) + 1
      ensures seen == old(seen) + if windowQueue != null then [windowQueue.events] else []
    {
      defaultTraversals := defaultTraversals + 1;
      if windowQueue != null {
        seen := seen + [windowQueue.events];
      }
    }

    /**
     * One frame's event traversal. `pendingEvents` is what the window
     * reports when asked to check for events. When the window is valid and
     * reports events, the queue becomes its interception (the first
     * close-window event erased, a quit event appended); otherwise it is
     * left exactly as it was. The default traversal is entered once, in
     * every case, and only after the rewrite: it finds the rewritten queue,
     * so a lone close-window event never reaches it.
     */
    method EventTraversal(pendingEvents: bool)
      modifies this`defaultTraversals, this`seen, windowQueue
      ensures windowQueue != null && pendingEvents ==>
                windowQueue.events == Intercept(old(windowQueue.events))
      ensures windowQueue != null && !pendingEvents ==>
                windowQueue.events == old(windowQueue.events)
      ensures defaultTraversals == old(defaultTraversals) + 1
      ensures windowQueue != null && pendingEvents ==>
                seen == old(seen) + [Intercept(old(windowQueue.events))]
      ensures windowQueue != null && !pendingEvents ==>
                seen == old(seen) + [old(windowQueue.events)]
      ensures windowQueue == null ==> seen == old(seen)
      ensures windowQueue != null && pendingEvents && Occurrences(old(windowQueue.events), IsClose) <= 1 ==>
                !HasClose(seen[|seen| - 1])
    {
      ghost var before := if windowQueue != null then windowQueue.events else [];
      if windowQueue != null && pendingEvents {
        var events := windowQueue.CopyEvents();
        var i := 0;
        while i < |events|
          invariant 0 <= i <= |events|
          invariant events == windowQueue.events == old(windowQueue.events)
          invariant forall j :: 0 <= j < i ==> !IsClose(events[j])
        {
          var event := events[i];
          if event.Gui? && event.eventType == CloseWindow {
            assert FirstClose(events) == i;
            events := events[..i] + events[i + 1..];
            windowQueue.SetEvents(events);
            windowQueue.QuitApplication();
            break;
          }
          i := i + 1;
        }
      }
      InterceptRewritesAtMostOne(before);
      DefaultEventTraversal();
    }
  }
}
