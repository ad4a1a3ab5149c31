/** The bounded view of a run's events in archive/tui/timeline.go. */
module Timelines {

  /** What the daemon records; the columns a row shows besides its index are computed from
      the event alone. */
  datatype Event = Event(id: string, kind: string)

  datatype Entry = Entry(index: int, event: Event)

  /** The state of a timeline as a value. */
  datatype View = View(capacity: int, entries: seq<Entry>, dropped: int)

  const DEFAULT_CAPACITY := 500

  function NewView(capacity: int): View {
    View(if capacity <= 0 then DEFAULT_CAPACITY else capacity, [], 0)
  }

  function Numbered(entries: seq<Entry>, dropped: int): (r: seq<Entry>)
    ensures |r| == |entries|
  {
    seq(|entries|, i requires 0 <= i < |entries| => entries[i].(index := dropped + i + 1))
  }

  /** One event added, the oldest row dropped at the cap, the rows renumbered. */
  function Appended(v: View, ev: Event): View
    requires v.capacity > 0
  {
    var longer := v.entries + [Entry(0, ev)];
    var over := if |longer| > v.capacity then |longer| - v.capacity else 0;
    View(v.capacity, Numbered(longer[over..], v.dropped + over), v.dropped + over)
  }

  function AppendedAll(v: View, events: seq<Event>): (r: View)
    requires v.capacity > 0
    ensures r.capacity == v.capacity
    decreases |events|
  {
    if events == [] then v
    else Appended(AppendedAll(v, events[..|events| - 1]), events[|events| - 1])
  }

  /** The window on `events` stated directly: the last rows that fit, each with its absolute
      one-based position, and the number of rows that aged out. */
  function Window(capacity: int, events: seq<Event>): View
    requires capacity > 0
  {
    var n := |events|;
    var dropped := if n > capacity then n - capacity else 0;
    var rows := seq(n - dropped, i requires 0 <= i < n - dropped => Entry(dropped + i + 1, events[dropped + i]));
    View(capacity, rows, dropped)
  }

  /** Appending slides the window by one event. */
  lemma AppendSlides(capacity: int, events: seq<Event>, ev: Event)
    requires capacity > 0
    ensures Appended(Window(capacity, events), ev) == Window(capacity, events + [ev])
  {
    var before, after := Appended(Window(capacity, events), ev), Window(capacity, events + [ev]);
    assert |before.entries| == |after.entries|;
    assert before.entries == after.entries;
  }

  /** A timeline fed `more` after `events` is the window on both together. */
  lemma {:induction false} AppendAllSlides(capacity: int, events: seq<Event>, more: seq<Event>)
    requires capacity > 0
    ensures AppendedAll(Window(capacity, events), more) == Window(capacity, events + more)
    decreases |more|
  {
    if more == [] {
      assert events + more == events;
    } else {
      var init, last := more[..|more| - 1], more[|more| - 1];
      AppendAllSlides(capacity, events, init);
      AppendSlides(capacity, events + init, last);
      assert events + more == events + init + [last];
    }
  }

  lemma NewViewIsWindow(capacity: int)
    ensures NewView(capacity) == Window(NewView(capacity).capacity, [])
  {
  }

  class Timeline {
    const capacity: int
    var entries: seq<Entry>
    var dropped: int

    constructor (capacity: int)
      ensures Current() == NewView(capacity)
    {
      this.capacity := if capacity <= 0 then DEFAULT_CAPACITY else capacity;
      entries := [];
      dropped := 0;
    }

    function Current(): View
      reads this
    {
      View(capacity, entries, dropped)
    }

    method Append(ev: Event)
      requires capacity > 0
      modifies this
      ensures Current() == Appended(old(Current()), ev)
    {
      entries := entries + [Entry(0, ev)];
      if |entries| > capacity {
        var over := |entries| - capacity;
        entries := entries[over..];
        dropped := dropped + over;
      }
      Reindex();
    }

    method Reindex()
      modifies this`entries
      ensures entries == Numbered(old(entries), dropped)
    {
      for i := 0 to |entries|
        invariant |entries| == |old(entries)|
        invariant forall k | 0 <= k < i :: entries[k] == old(entries)[k].(index := dropped + k + 1)
        invariant forall k | i <= k < |entries| :: entries[k] == old(entries)[k]
      {
        entries := entries[i := entries[i].(index := dropped + i + 1)];
      }
    }
  }
}
