/**
 * The animation-frame throttle in front of both scroll handlers: each scroll
 * event cancels the frame request the listener made last (if any) and makes
 * a new one, so that however many scroll events arrive between two frames,
 * the handler runs once in the next frame.
 *
 * Beside the listener's own variable, the model keeps the browser's side of
 * the exchange: the requests it still holds and the handle it hands out next.
 */
module FrameThrottle {
  import opened Wrappers

  /**
   * pending: the listener's variable, the handle of its last request (None
   * before the first scroll event); scheduled: the requests the browser still
   * holds for this listener; nextHandle: the handle the browser returns next.
   * Handles are positive and never handed out twice.
   */
  datatype Slot = Slot(pending: Option<nat>, scheduled: set<nat>, nextHandle: nat)

  /** The only request the browser can hold is the one the listener remembers. */
  predicate Valid(s: Slot)
  {
    s.nextHandle >= 1 &&
    (s.pending.Some? ==> 1 <= s.pending.value < s.nextHandle) &&
    (forall h :: h in s.scheduled ==> s.pending == Some(h))
  }

  /** Before any scroll event: nothing requested yet. */
  const Initial: Slot := Slot(None, {}, 1)

  /** A scroll event: cancel the remembered request, if any, then request a frame and remember its handle. */
  function OnScroll(s: Slot): (r: Slot)
    requires Valid(s)
    ensures Valid(r)
    ensures r.pending.Some? && r.scheduled == {r.pending.value}
    ensures r.pending.value !in s.scheduled
    ensures r.pending == Some(s.nextHandle) && r.nextHandle == s.nextHandle + 1
    ensures s.pending.Some? ==> s.pending.value < r.pending.value
  {
    var kept := if s.pending.Some? then s.scheduled - {s.pending.value} else s.scheduled;
    Slot(Some(s.nextHandle), kept + {s.nextHandle}, s.nextHandle + 1)
  }

  /**
   * A rendered frame: the browser runs the requests it holds and drops them.
   * The listener's variable is not cleared and keeps a handle that has run.
   */
  function OnFrame(s: Slot): (r: Slot)
    requires Valid(s)
    ensures Valid(r) && r.scheduled == {}
    ensures r.pending == s.pending
  {
    Slot(s.pending, {}, s.nextHandle)
  }

  /** Does the handler run in a frame rendered in state s? */
  predicate RunsInFrame(s: Slot)
  {
    s.scheduled != {}
  }

  datatype Event = Scroll | Frame

  /** The state after a sequence of events. */
  function Replay(s: Slot, events: seq<Event>): Slot
    requires Valid(s)
    decreases |events|
  {
    if events == [] then s
    else
      var next := if events[0] == Scroll then OnScroll(s) else OnFrame(s);
      Replay(next, events[1..])
  }

  /** How many times the handler runs over a sequence of events. */
  function Runs(s: Slot, events: seq<Event>): nat
    requires Valid(s)
    decreases |events|
  {
    if events == [] then 0
    else if events[0] == Scroll then Runs(OnScroll(s), events[1..])
    else (if RunsInFrame(s) then 1 else 0) + Runs(OnFrame(s), events[1..])
  }

  /**
   * Reference count: the frames that come after at least one scroll event
   * since the frame before (armed: a scroll is already waiting at the start).
   */
  function Bursts(events: seq<Event>, armed: bool): nat
  {
    if events == [] then 0
    else if events[0] == Scroll then Bursts(events[1..], true)
    else (if armed then 1 else 0) + Bursts(events[1..], false)
  }

  function Frames(events: seq<Event>): nat
  {
    if events == [] then 0 else (if events[0] == Frame then 1 else 0) + Frames(events[1..])
  }

  function Scrolls(events: seq<Event>): nat
  {
    if events == [] then 0 else (if events[0] == Scroll then 1 else 0) + Scrolls(events[1..])
  }

  /** The handler runs once per burst of scroll events: not per event, and never twice for one burst. */
  lemma {:induction false} RunsAreBursts(s: Slot, events: seq<Event>)
    requires Valid(s)
    ensures Runs(s, events) == Bursts(events, RunsInFrame(s))
    decreases |events|
  {
    if events != [] {
      if events[0] == Scroll {
        RunsAreBursts(OnScroll(s), events[1..]);
      } else {
        RunsAreBursts(OnFrame(s), events[1..]);
      }
    }
  }

  /** A burst count never exceeds the frames rendered, nor (plus one already waiting) the scroll events. */
  lemma {:induction false} BurstsBounded(events: seq<Event>, armed: bool)
    ensures Bursts(events, armed) <= Frames(events)
    ensures Bursts(events, armed) <= Scrolls(events) + (if armed then 1 else 0)
  {
    if events != [] {
      BurstsBounded(events[1..], events[0] == Scroll);
      BurstsBounded(events[1..], false);
    }
  }

  /** From the start, the handler runs at most once per frame and at most once per scroll event. */
  lemma RunsBounded(events: seq<Event>)
    ensures Runs(Initial, events) <= Frames(events)
    ensures Runs(Initial, events) <= Scrolls(events)
  {
    RunsAreBursts(Initial, events);
    BurstsBounded(events, false);
  }

  /** After any sequence of events the browser holds at most one request for the listener. */
  lemma {:induction false} AtMostOnePending(s: Slot, events: seq<Event>)
    requires Valid(s)
    ensures Valid(Replay(s, events))
    ensures |Replay(s, events).scheduled| <= 1
    decreases |events|
  {
    if events != [] {
      var next := if events[0] == Scroll then OnScroll(s) else OnFrame(s);
      AtMostOnePending(next, events[1..]);
    } else if s.scheduled != {} {
      assert s.scheduled == {s.pending.value};
    }
  }

  /**
   * The listener together with the browser's request queue for it. The page
   * has two of these, one for the consolidated handler and one for the
   * timeline.
   */
  class ScrollThrottle {
    var pending: Option<nat>
    var scheduled: set<nat>
    var nextHandle: nat

    ghost function View(): Slot
      reads this
    {
      Slot(pending, scheduled, nextHandle)
    }

    constructor ()
      ensures View() == Initial
    {
      pending := None;
      scheduled := {};
      nextHandle := 1;
    }

    /** The scroll listener. */
    method OnScrollEvent()
      requires Valid(View())
      modifies this
      ensures Valid(View())
      ensures View() == OnScroll(old(View()))
    {
      if pending.Some? {
        scheduled := scheduled - {pending.value};
      }
      pending := Some(nextHandle);
      scheduled := scheduled + {nextHandle};
      nextHandle := nextHandle + 1;
    }

    /** A rendered frame; ran says whether the handler was run in it. */
    method RenderFrame() returns (ran: bool)
      requires Valid(View())
      modifies this
      ensures ran == RunsInFrame(old(View()))
      ensures View() == OnFrame(old(View()))
    {
      ran := scheduled != {};
      scheduled := {};
    }
  }
}
