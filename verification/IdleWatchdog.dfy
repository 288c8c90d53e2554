/** The server session's idle timer: it ticks every `d`, and closes the session at a tick that saw no
    data since the tick before. */
module IdleWatchdog {

  datatype Event = Data(t: nat) | Tick(t: nat)

  datatype Verdict = Open | ClosedAt(index: nat)

  /** The flag after the events, as the session's coroutines and the timer leave it. */
  function Flag(events: seq<Event>): bool {
    if events == [] then false else events[|events| - 1].Data?
  }

  function Ticks(events: seq<Event>): nat {
    if events == [] then 0
    else Ticks(events[..|events| - 1]) + if events[|events| - 1].Tick? then 1 else 0
  }

  /** Time does not run backwards and the n-th tick comes at n * d. Data at the time of a tick may come
      on either side of it. */
  ghost predicate Timely(events: seq<Event>, d: nat) {
    && (forall i, j :: 0 <= i < j < |events| ==> events[i].t <= events[j].t)
    && (forall i :: 0 <= i < |events| && events[i].Tick? ==> events[i].t == (Ticks(events[..i]) + 1) * d)
    && (forall i :: 0 <= i < |events| && events[i].Data? ==> Ticks(events[..i]) * d <= events[i].t)
    && (forall i :: 0 <= i < |events| && events[i].Data? ==> events[i].t <= (Ticks(events[..i]) + 1) * d)
  }

  /** The first tick that finds the flag down. */
  function Watch(events: seq<Event>): Verdict {
    if events == [] then Open
    else
      var n := |events| - 1;
      var before := Watch(events[..n]);
      if before.ClosedAt? then before
      else if events[n].Tick? && !Flag(events[..n]) then ClosedAt(n)
      else Open
  }

  class Session {
    const maxNoDataDuration: nat
    var tickHasData: bool
    var running: bool

    constructor (d: nat)
      ensures maxNoDataDuration == d && !tickHasData && running
    {
      maxNoDataDuration := d;
      tickHasData, running := false, true;
    }

    method OnData()
      modifies this`tickHasData
      ensures tickHasData
    {
      tickHasData := true;
    }

    /** One expiry of the timer. */
    method OnTimer()
      modifies this`tickHasData, this`running
      ensures old(tickHasData) ==> !tickHasData && running == old(running)
      ensures !old(tickHasData) ==> !running && !tickHasData
    {
      if tickHasData {
        tickHasData := false;
      } else {
        running := false;
      }
    }

    /** The timer coroutine against the events of the other two. */
    method Run(events: seq<Event>) returns (v: Verdict)
      requires running && !tickHasData
      modifies this`tickHasData, this`running
      ensures v == Watch(events) && running == v.Open?
    {
      var i := 0;
      while i < |events| && running
        invariant i <= |events|
        invariant running ==> Watch(events[..i]) == Open && tickHasData == Flag(events[..i])
        invariant !running ==> i > 0 && Watch(events[..i]) == ClosedAt(i - 1)
      {
        assert events[..i + 1][..i] == events[..i];
        if events[i].Data? {
          OnData();
        } else {
          OnTimer();
        }
        i := i + 1;
      }
      WatchIsFinal(events, i);
      assert events[..|events|] == events;
      v := if running then Open else ClosedAt(i - 1);
    }
  }

  lemma {:induction false} WatchIsFinal(events: seq<Event>, k: nat)
    requires k <= |events|
    ensures Watch(events[..k]).ClosedAt? ==> Watch(events) == Watch(events[..k])
    decreases |events|
  {
    if k == |events| {
      assert events[..k] == events;
    } else {
      var n := |events| - 1;
      WatchIsFinal(events[..n], k);
      assert events[..n][..k] == events[..k];
    }
  }

  /** It closes at a tick with no data behind it, and before that every tick had some. */
  lemma {:induction false} ClosesAtFirstIdleTick(events: seq<Event>)
    ensures match Watch(events)
            case ClosedAt(c) =>
              c < |events|
              && events[c].Tick?
              && (c > 0 ==> events[c - 1].Tick?)
              && forall i :: 0 <= i < c && events[i].Tick? ==> i > 0 && events[i - 1].Data?
            case Open => forall i :: 0 <= i < |events| && events[i].Tick? ==> i > 0 && events[i - 1].Data?
    decreases |events|
  {
    if events != [] {
      ClosesAtFirstIdleTick(events[..|events| - 1]);
    }
  }

  /** With data in every window the session stays open, and only then. */
  lemma StaysOpenIff(events: seq<Event>)
    ensures Watch(events) == Open <==> forall i :: 0 <= i < |events| && events[i].Tick? ==> i > 0 && events[i - 1].Data?
  {
    ClosesAtFirstIdleTick(events);
  }

  /** At the close: `d` after the start if there never was data, else between `d` and `2 * d` after the
      last data. */
  lemma ClosesInTime(events: seq<Event>, d: nat)
    requires Timely(events, d) && Watch(events).ClosedAt?
    ensures
      var c := Watch(events).index;
      c < |events|
      && if c == 0 then events[0].t == d
         else c >= 2 && events[c - 2].Data? && events[c - 2].t + d <= events[c].t <= events[c - 2].t + 2 * d
    ensures var c := Watch(events).index; forall i :: 0 <= i < c && events[i].Data? ==> i <= c - 2
  {
    ClosesAtFirstIdleTick(events);
    hide Watch;
    var c := Watch(events).index;
    if c == 0 {
      assert events[..0] == [];
    } else {
      assert events[c - 1].Tick? && events[c - 2].Data?;
      DataThenTwoTicks(events, d, c - 2);
    }
  }

  lemma DataThenTwoTicks(events: seq<Event>, d: nat, i: nat)
    requires Timely(events, d) && i + 2 < |events|
    requires events[i].Data? && events[i + 1].Tick? && events[i + 2].Tick?
    ensures events[i].t + d <= events[i + 2].t <= events[i].t + 2 * d
  {
    var k := Ticks(events[..i]);
    TicksNext(events, i);
    TicksNext(events, i + 1);
    hide Ticks;
    assert k * d <= events[i].t <= (k + 1) * d;
    assert events[i + 2].t == (Ticks(events[..i + 2]) + 1) * d;
    Multiples(k, d);
  }

  lemma TicksNext(events: seq<Event>, i: nat)
    requires i < |events|
    ensures Ticks(events[..i + 1]) == Ticks(events[..i]) + if events[i].Tick? then 1 else 0
  {
    assert events[..i + 1][..i] == events[..i];
  }

  lemma Multiples(k: nat, d: nat)
    ensures (k + 2) * d == k * d + 2 * d && (k + 1) * d == k * d + d
  {}
}
