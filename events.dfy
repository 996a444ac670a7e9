/**
 * Events on a graphics window's event queue, and the close-window
 * interception that the viewer performs on that queue once per frame,
 * stated as functions on sequences together with the properties it keeps.
 */
module Events {

  /** The event types of a GUI event that the interception distinguishes. */
  datatype EventType = CloseWindow | QuitApplication | OtherType(code: nat)

  /**
   * An entry of the queue: either a GUI event with its type, or an event
   * that is not a GUI event at all (a downcast to a GUI event yields null).
   */
  datatype Event = Gui(eventType: EventType) | NonGui(id: nat)

  /** The synthetic event that the queue's quit request appends. */
  const QuitEvent: Event := Gui(QuitApplication)

  predicate IsClose(e: Event) {
    e.Gui? && e.eventType == CloseWindow
  }

  predicate IsQuit(e: Event) {
    e == QuitEvent
  }

  predicate IsNonGui(e: Event) {
    e.NonGui?
  }

  predicate IsNotClose(e: Event) {
    !IsClose(e)
  }

  predicate HasClose(s: seq<Event>) {
    exists j :: 0 <= j < |s| && IsClose(s[j])
  }

  /** The events of `s` that satisfy `p`, in their original order. */
  function Filter(s: seq<Event>, p: Event -> bool): (r: seq<Event>)
    ensures |r| <= |s|
    ensures forall j :: 0 <= j < |r| ==> p(r[j])
  {
    if s == [] then []
    else if p(s[0]) then [s[0]] + Filter(s[1..], p)
    else Filter(s[1..], p)
  }

  /** How many events of `s` satisfy `p`. */
  function Occurrences(s: seq<Event>, p: Event -> bool): nat {
    |Filter(s, p)|
  }

  /**
   * Position of the first close-window event of `s`, or |s| when there is
   * none: the place where the scan of the queue stops.
   */
  function FirstClose(s: seq<Event>): (r: nat)
    ensures r <= |s|
    ensures forall j :: 0 <= j < r ==> !IsClose(s[j])
    ensures r < |s| <==> HasClose(s)
    ensures r < |s| ==> IsClose(s[r])
  {
    if s == [] then 0
    else if IsClose(s[0]) then 0
    else
      var k := FirstClose(s[1..]);
      assert forall j :: 1 <= j <= k ==> s[j] == s[1..][j - 1];
      1 + k
  }

  /**
   * The queue after one interception: the first close-window event is
   * erased and a quit event is appended; without a close-window event the
   * queue is left as it is.
   */
  function Intercept(s: seq<Event>): (r: seq<Event>)
    ensures |r| == |s|
    ensures HasClose(s) ==> r[|s| - 1] == QuitEvent
  {
    var i := FirstClose(s);
    if i == |s| then s else s[..i] + s[i + 1..] + [QuitEvent]
  }

  /** The queue after `n` successive interceptions. */
  function InterceptTimes(s: seq<Event>, n: nat): seq<Event>
    decreases n
  {
    if n == 0 then s else InterceptTimes(Intercept(s), n - 1)
  }

  // ---------------------------------------------------------------------
  // Filtering and counting over concatenations

  lemma {:induction false} FilterConcat(a: seq<Event>, b: seq<Event>, p: Event -> bool)
    ensures Filter(a + b, p) == Filter(a, p) + Filter(b, p)
  {
    if a == [] {
      assert a + b == b;
    } else {
      assert (a + b)[1..] == a[1..] + b;
      FilterConcat(a[1..], b, p);
    }
  }

  lemma {:induction false} FilterNone(s: seq<Event>, p: Event -> bool)
    requires forall j :: 0 <= j < |s| ==> !p(s[j])
    ensures Filter(s, p) == []
  {
    if s != [] {
      FilterNone(s[1..], p);
    }
  }

  /** Filtering distributes over the two sequences an interception relates. */
  lemma FilterAround(pre: seq<Event>, x: Event, post: seq<Event>, q: Event, p: Event -> bool)
    ensures Filter(pre + [x] + post, p) == Filter(pre, p) + Filter([x], p) + Filter(post, p)
    ensures Filter(pre + post + [q], p) == Filter(pre, p) + Filter(post, p) + Filter([q], p)
  {
    FilterConcat(pre + [x], post, p);
    FilterConcat(pre, [x], p);
    FilterConcat(pre + post, [q], p);
    FilterConcat(pre, post, p);
  }

  /** Splitting `s` around the first close-window event at position i. */
  lemma SplitAtFirstClose(s: seq<Event>, i: nat)
    requires i == FirstClose(s) < |s|
    ensures s == s[..i] + [s[i]] + s[i + 1..]
    ensures Intercept(s) == s[..i] + s[i + 1..] + [QuitEvent]
  {
    SplitAt(s, i);
  }

  lemma SplitAt(s: seq<Event>, i: nat)
    requires i < |s|
    ensures s == s[..i] + [s[i]] + s[i + 1..]
  {
    assert s[..i] + [s[i]] + s[i + 1..] == s[..i + 1] + s[i + 1..];
  }

  // ---------------------------------------------------------------------
  // Properties of one interception

  /** The queue is left exactly as it was if and only if it holds no close-window event. */
  lemma {:induction false} InterceptUnchangedIff(s: seq<Event>)
    ensures Intercept(s) == s <==> !HasClose(s)
  {
    if HasClose(s) {
      InterceptCountsClose(s);
      assert Occurrences(Intercept(s), IsClose) != Occurrences(s, IsClose);
    }
  }

  /**
   * Exactly one close-window event disappears per interception, and exactly
   * one quit event is added; without a close-window event neither count moves.
   */
  lemma {:induction false} InterceptCountsClose(s: seq<Event>)
    ensures HasClose(s) ==> Occurrences(Intercept(s), IsClose) == Occurrences(s, IsClose) - 1
    ensures HasClose(s) ==> Occurrences(Intercept(s), IsQuit) == Occurrences(s, IsQuit) + 1
    ensures !HasClose(s) ==> Occurrences(s, IsClose) == 0
  {
    var i := FirstClose(s);
    if i < |s| {
      SplitAtFirstClose(s, i);
      var pre, post := s[..i], s[i + 1..];
      FilterAround(pre, s[i], post, QuitEvent, IsClose);
      assert Filter([s[i]], IsClose) == [s[i]];
      assert Filter([QuitEvent], IsClose) == [];
      FilterAround(pre, s[i], post, QuitEvent, IsQuit);
      assert Filter([s[i]], IsQuit) == [];
      assert Filter([QuitEvent], IsQuit) == [QuitEvent];
    } else {
      FilterNone(s, IsClose);
    }
  }

  /**
   * Every event other than the erased close-window event survives, in its
   * original relative order, and the quit event follows all of them.
   */
  lemma {:induction false} InterceptKeepsOtherEvents(s: seq<Event>)
    ensures HasClose(s) ==> Filter(Intercept(s), IsNotClose) == Filter(s, IsNotClose) + [QuitEvent]
    ensures !HasClose(s) ==> Filter(Intercept(s), IsNotClose) == Filter(s, IsNotClose)
  {
    var i := FirstClose(s);
    if i < |s| {
      SplitAtFirstClose(s, i);
      var pre, post := s[..i], s[i + 1..];
      FilterAround(pre, s[i], post, QuitEvent, IsNotClose);
      assert Filter([s[i]], IsNotClose) == [];
      assert Filter([QuitEvent], IsNotClose) == [QuitEvent];
    }
  }

  /** Events that are not GUI events are never removed, altered or reordered. */
  lemma {:induction false} InterceptKeepsNonGuiEvents(s: seq<Event>)
    ensures Filter(Intercept(s), IsNonGui) == Filter(s, IsNonGui)
  {
    var i := FirstClose(s);
    if i < |s| {
      SplitAtFirstClose(s, i);
      var pre, post := s[..i], s[i + 1..];
      FilterAround(pre, s[i], post, QuitEvent, IsNonGui);
      assert Filter([s[i]], IsNonGui) == [];
      assert Filter([QuitEvent], IsNonGui) == [];
    }
  }

  /**
   * Only the first close-window event is rewritten: a queue with at most one
   * is left without any, a queue with two or more keeps the later ones.
   */
  lemma {:induction false} InterceptRewritesAtMostOne(s: seq<Event>)
    ensures Occurrences(s, IsClose) <= 1 ==> !HasClose(Intercept(s))
    ensures Occurrences(s, IsClose) >= 2 ==> HasClose(Intercept(s))
  {
    InterceptCountsClose(s);
    InterceptCountsClose(Intercept(s));
    if HasClose(s) {
      assert Occurrences(Intercept(s), IsClose) == Occurrences(s, IsClose) - 1;
    } else {
      InterceptUnchangedIff(s);
    }
  }

  // ---------------------------------------------------------------------
  // Properties of repeated interception (one per frame)

  /**
   * Interceptions repeated as many times as there are close-window events
   * leave none, append one quit event per close-window event, keep the
   * length, and from then on every further interception changes nothing.
   */
  lemma {:induction false} InterceptTimesDrains(s: seq<Event>, n: nat)
    requires n == Occurrences(s, IsClose)
    decreases n
    ensures !HasClose(InterceptTimes(s, n))
    ensures |InterceptTimes(s, n)| == |s|
    ensures Occurrences(InterceptTimes(s, n), IsQuit) == Occurrences(s, IsQuit) + n
    ensures Intercept(InterceptTimes(s, n)) == InterceptTimes(s, n)
  {
    InterceptCountsClose(s);
    if n == 0 {
      InterceptUnchangedIff(s);
    } else {
      InterceptTimesDrains(Intercept(s), n - 1);
    }
  }
}
