/** BlockQueue: a queue under a mutex, with consumers sleeping on a condition variable.
    Every critical section is one step; steps of different threads interleave freely. */
module BlockQueue {

  type Thread = nat

  /** `sleeping` are the consumers inside cond_.wait, `woken` those taken out of it that have not yet
      got the mutex back. `enqueued` and `delivered` are the whole history. */
  datatype State<T> = State(
    queue: seq<T>, running: bool,
    sleeping: set<Thread>, woken: set<Thread>,
    enqueued: seq<T>, delivered: seq<T>)

  datatype Step<T> =
    | Enqueue(item: T, pick: Thread)  // `pick` is the sleeper notify_one takes, if there is one
    | Dequeue(t: Thread)              // a consumer evaluates the wait predicate under the mutex
    | TryDequeue
    | Stop
    | SpuriousWake(t: Thread)

  datatype Outcome<T> = Got(item: T) | Nothing | Stopped | Asleep | Accepted

  predicate Enabled<T>(s: State<T>, a: Step<T>) {
    match a
    case Enqueue(_, pick) => s.running && s.sleeping != {} ==> pick in s.sleeping
    case Dequeue(t) => t !in s.sleeping
    case SpuriousWake(t) => t in s.sleeping
    case _ => true
  }

  function Pop<T>(s: State<T>): State<T>
    requires s.queue != []
  {
    s.(queue := s.queue[1..], delivered := s.delivered + [s.queue[0]])
  }

  function Next<T>(s: State<T>, a: Step<T>): State<T> {
    match a
    case Enqueue(item, pick) =>
      if !s.running then s
      else
        var s' := s.(queue := s.queue + [item], enqueued := s.enqueued + [item]);
        if s.sleeping == {} then s' else WakeOne(s', pick)
    case Dequeue(t) =>
      var s' := s.(woken := s.woken - {t});
      if !s.running then s'
      else if s.queue == [] then s'.(sleeping := s.sleeping + {t})
      else Pop(s')
    case TryDequeue => if s.queue == [] || !s.running then s else Pop(s)
    case Stop => s.(running := false, sleeping := {}, woken := s.woken + s.sleeping)
    case SpuriousWake(t) => WakeOne(s, t)
  }

  function WakeOne<T>(s: State<T>, t: Thread): State<T> {
    s.(sleeping := s.sleeping - {t}, woken := s.woken + {t})
  }

  /** What the caller of the step sees. */
  function Result<T>(s: State<T>, a: Step<T>): Outcome<T> {
    match a
    case Enqueue(_, _) => if s.running then Accepted else Stopped
    case Dequeue(_) => if !s.running then Stopped else if s.queue == [] then Asleep else Got(s.queue[0])
    case TryDequeue => if s.queue == [] || !s.running then Nothing else Got(s.queue[0])
    case _ => Nothing
  }

  ghost predicate Inv<T>(s: State<T>) {
    && s.delivered + s.queue == s.enqueued
    && s.sleeping !! s.woken
    && (s.sleeping != {} ==> s.running && |s.queue| <= |s.woken|)
  }

  ghost predicate Init<T>(s: State<T>) {
    s == State([], true, {}, {}, [], [])
  }

  lemma StepKeepsInv<T>(s: State<T>, a: Step<T>)
    requires Inv(s) && Enabled(s, a)
    ensures Inv(Next(s, a))
  {
    var s' := Next(s, a);
    match a
    case Enqueue(item, pick) =>
      assert s.delivered + (s.queue + [item]) == (s.delivered + s.queue) + [item];
      if s.running && s.sleeping != {} {
        assert |s.woken + {pick}| == |s.woken| + 1;
      }
    case Dequeue(t) =>
      HistoryKept(s);
      if t in s.woken {
        assert |s.woken - {t}| == |s.woken| - 1;
      }
    case TryDequeue =>
      HistoryKept(s);
    case Stop =>
    case SpuriousWake(t) =>
      assert |s.woken + {t}| == |s.woken| + 1;
  }

  lemma HistoryKept<T>(s: State<T>)
    requires s.delivered + s.queue == s.enqueued
    ensures s.queue != [] ==> Pop(s).delivered + Pop(s).queue == s.enqueued
  {
    if s.queue != [] {
      assert s.queue == [s.queue[0]] + s.queue[1..];
    }
  }

  function After<T>(s: State<T>, steps: seq<Step<T>>): State<T>
    decreases |steps|
  {
    if steps == [] then s else After(Next(s, steps[0]), steps[1..])
  }

  ghost predicate Feasible<T>(s: State<T>, steps: seq<Step<T>>)
    decreases |steps|
  {
    steps == [] || (Enabled(s, steps[0]) && Feasible(Next(s, steps[0]), steps[1..]))
  }

  lemma {:induction false} RunKeepsInv<T>(s: State<T>, steps: seq<Step<T>>)
    requires Inv(s) && Feasible(s, steps)
    ensures Inv(After(s, steps))
    decreases |steps|
  {
    if steps != [] {
      StepKeepsInv(s, steps[0]);
      RunKeepsInv(Next(s, steps[0]), steps[1..]);
    }
  }

  /** After any run: items come out once each in the order they went in, and a consumer sleeps on a
      non-empty queue only while at least as many woken consumers are on their way to it. */
  lemma FifoAndNoLostWakeup<T>(s0: State<T>, steps: seq<Step<T>>)
    requires Init(s0) && Feasible(s0, steps)
    ensures var s := After(s0, steps);
      && s.delivered <= s.enqueued
      && s.delivered + s.queue == s.enqueued
      && (s.sleeping != {} ==> |s.queue| <= |s.woken|)
      && (s.sleeping != {} && s.woken == {} ==> s.queue == [])
      && (!s.running ==> s.sleeping == {})
  {
    RunKeepsInv(s0, steps);
    var s := After(s0, steps);
    assert s.delivered <= s.delivered + s.queue;
  }

  /** A consumer that wakes without being told is on its way to the mutex, and nothing else changes. */
  lemma SpuriousWakeOnly<T>(s: State<T>, t: Thread)
    requires Inv(s) && Enabled(s, Step<T>.SpuriousWake(t))
    ensures Next(s, Step<T>.SpuriousWake(t)) == s.(sleeping := s.sleeping - {t}, woken := s.woken + {t})
  {}

  /** What the callers saw, step by step. */
  function Results<T>(s: State<T>, steps: seq<Step<T>>): (r: seq<Outcome<T>>)
    ensures |r| == |steps|
    decreases |steps|
  {
    if steps == [] then [] else [Result(s, steps[0])] + Results(Next(s, steps[0]), steps[1..])
  }

  /** The items whose Enqueue was told Accepted. */
  function AcceptedItems<T>(steps: seq<Step<T>>, results: seq<Outcome<T>>): seq<T>
    requires |steps| == |results|
  {
    if steps == [] then []
    else
      (if steps[0].Enqueue? && results[0] == Accepted then [steps[0].item] else [])
      + AcceptedItems(steps[1..], results[1..])
  }

  /** The items that callers got. */
  function GotItems<T>(results: seq<Outcome<T>>): seq<T> {
    if results == [] then []
    else (if results[0].Got? then [results[0].item] else []) + GotItems(results[1..])
  }

  /** Over every run, in terms of what the callers saw: the items got, followed by those still in the queue,
      are the accepted items in order. */
  lemma AcceptedComeOut<T>(s0: State<T>, steps: seq<Step<T>>)
    requires Init(s0) && Feasible(s0, steps)
    ensures
      var results := Results(s0, steps);
      && GotItems(results) + After(s0, steps).queue == AcceptedItems(steps, results)
      && After(s0, steps).enqueued == AcceptedItems(steps, results)
      && After(s0, steps).delivered == GotItems(results)
  {
    HistoryIsSeen(s0, steps);
    RunKeepsInv(s0, steps);
    var results := Results(s0, steps);
    assert [] + AcceptedItems(steps, results) == AcceptedItems(steps, results);
    assert [] + GotItems(results) == GotItems(results);
  }

  lemma {:induction false} HistoryIsSeen<T>(s: State<T>, steps: seq<Step<T>>)
    requires Feasible(s, steps)
    ensures
      var results := Results(s, steps);
      && After(s, steps).enqueued == s.enqueued + AcceptedItems(steps, results)
      && After(s, steps).delivered == s.delivered + GotItems(results)
    decreases |steps|
  {
    if steps != [] {
      hide Feasible;
      var next := Next(s, steps[0]);
      FeasibleOn(s, steps);
      HistoryIsSeen(next, steps[1..]);
      StepIsSeen(s, steps[0]);
      var results := Results(s, steps);
      assert results[1..] == Results(next, steps[1..]);
    }
  }

  lemma FeasibleOn<T>(s: State<T>, steps: seq<Step<T>>)
    requires steps != [] && Feasible(s, steps)
    ensures Feasible(Next(s, steps[0]), steps[1..])
  {}

  lemma StepIsSeen<T>(s: State<T>, a: Step<T>)
    ensures Next(s, a).enqueued == s.enqueued + if a.Enqueue? && Result(s, a) == Accepted then [a.item] else []
    ensures Next(s, a).delivered == s.delivered + if Result(s, a).Got? then [Result(s, a).item] else []
  {}

  /** Once stopped: nothing more is accepted or delivered, nobody sleeps, every consumer is told. */
  lemma {:induction false} StopIsFinal<T>(s: State<T>, steps: seq<Step<T>>, a: Step<T>)
    requires Inv(s) && !s.running && Feasible(s, steps)
    ensures var s' := After(s, steps);
      && !s'.running && s'.sleeping == {}
      && s'.delivered == s.delivered && s'.enqueued == s.enqueued
      && !Result(s', a).Got? && !Result(s', a).Accepted?
      && (a.Dequeue? ==> Result(s', a) == Stopped)
    decreases |steps|
  {
    if steps != [] {
      StepKeepsInv(s, steps[0]);
      StopIsFinal(Next(s, steps[0]), steps[1..], a);
    }
  }

  /** `count` woken consumers rerunning one after the other each get the next item. */
  lemma {:induction false} WokenConsumersDrain<T>(s: State<T>, order: seq<Thread>)
    requires Inv(s) && s.running && |order| <= |s.queue|
    requires forall i :: 0 <= i < |order| ==> order[i] !in s.sleeping
    ensures var s' := After(s, seq(|order|, i requires 0 <= i < |order| => Step<T>.Dequeue(order[i])));
      s'.delivered == s.delivered + s.queue[..|order|] && s'.queue == s.queue[|order|..]
    decreases |order|
  {
    var steps := seq(|order|, i requires 0 <= i < |order| => Step<T>.Dequeue(order[i]));
    if order != [] {
      var rest := order[1..];
      var tail := seq(|rest|, i requires 0 <= i < |rest| => Step<T>.Dequeue(rest[i]));
      assert steps[1..] == tail;
      var s1 := Next(s, steps[0]);
      StepKeepsInv(s, steps[0]);
      assert s1.queue == s.queue[1..];
      WokenConsumersDrain(s1, rest);
      assert s.delivered + [s.queue[0]] + s.queue[1..][..|rest|] == s.delivered + s.queue[..|order|];
      assert s.queue[1..][|rest|..] == s.queue[|order|..];
    }
  }

  class BlockQueue<T> {
    var queue: seq<T>
    var runningFlag: bool
    var sleeping: set<Thread>
    var woken: set<Thread>
    ghost var enqueued: seq<T>
    ghost var delivered: seq<T>

    ghost function View(): State<T>
      reads this
    {
      State(queue, runningFlag, sleeping, woken, enqueued, delivered)
    }

    constructor ()
      ensures Init(View()) && Inv(View())
    {
      queue, runningFlag, sleeping, woken := [], true, {}, {};
      enqueued, delivered := [], [];
    }

    /** notify_one: takes an arbitrary sleeper out of the wait, if there is one. */
    method NotifyOne() returns (pick: Thread)
      modifies this`sleeping, this`woken
      ensures old(sleeping) == {} ==> sleeping == {} && woken == old(woken)
      ensures old(sleeping) != {} ==> pick in old(sleeping) && View() == WakeOne(old(View()), pick)
    {
      pick := 0;
      if sleeping != {} {
        pick :| pick in sleeping;
        sleeping, woken := sleeping - {pick}, woken + {pick};
      }
    }

    method Enqueue(item: T) returns (r: Outcome<T>, ghost pick: Thread)
      requires Inv(View())
      modifies this
      ensures Inv(View()) && Enabled(old(View()), Step.Enqueue(item, pick))
      ensures View() == Next(old(View()), Step.Enqueue(item, pick))
      ensures r == Result(old(View()), Step.Enqueue(item, pick))
      ensures r == (if old(runningFlag) then Accepted else Stopped) && runningFlag == old(runningFlag)
      ensures queue == (if r == Accepted then old(queue) + [item] else old(queue))
      ensures r == Accepted && old(sleeping) != {} ==>
        pick in old(sleeping) && sleeping == old(sleeping) - {pick} && woken == old(woken) + {pick}
      ensures r != Accepted || old(sleeping) == {} ==> sleeping == old(sleeping) && woken == old(woken)
    {
      pick := 0;
      ghost var s := View();
      if !runningFlag {
        return Stopped, 0;
      }
      queue, enqueued := queue + [item], enqueued + [item];
      pick := NotifyOne();
      r := Accepted;
      StepKeepsInv(s, Step.Enqueue(item, pick));
    }

    /** Dequeue by a consumer that enters or has been woken: take an item, give up, or sleep (again). */
    method Dequeue(t: Thread) returns (r: Outcome<T>)
      requires Inv(View()) && Enabled(View(), Step.Dequeue(t))
      modifies this
      ensures Inv(View()) && View() == Next(old(View()), Step.Dequeue(t))
      ensures r == Result(old(View()), Step.Dequeue(t))
      ensures r ==
        if !old(runningFlag) then Stopped else if old(queue) == [] then Asleep else Got(old(queue)[0])
      ensures queue == (if r.Got? then old(queue)[1..] else old(queue)) && runningFlag == old(runningFlag)
      ensures woken == old(woken) - {t} && sleeping == old(sleeping) + if r == Asleep then {t} else {}
    {
      StepKeepsInv(View(), Step.Dequeue(t));
      woken := woken - {t};
      if queue == [] && runningFlag {
        sleeping := sleeping + {t};
        return Asleep;
      }
      if !runningFlag {
        return Stopped;
      }
      r := Got(queue[0]);
      queue, delivered := queue[1..], delivered + [queue[0]];
    }

    method TryDequeue() returns (r: Outcome<T>)
      requires Inv(View())
      modifies this
      ensures Inv(View()) && View() == Next(old(View()), Step.TryDequeue)
      ensures r == Result(old(View()), Step.TryDequeue)
      ensures r == if old(queue) == [] || !old(runningFlag) then Nothing else Got(old(queue)[0])
      ensures queue == (if r.Got? then old(queue)[1..] else old(queue)) && runningFlag == old(runningFlag)
    {
      StepKeepsInv(View(), Step<T>.TryDequeue);
      if queue == [] || !runningFlag {
        return Nothing;
      }
      r := Got(queue[0]);
      queue, delivered := queue[1..], delivered + [queue[0]];
    }

    method Stop()
      requires Inv(View())
      modifies this
      ensures Inv(View()) && View() == Next(old(View()), Step.Stop)
      ensures !runningFlag && queue == old(queue) && sleeping == {} && woken == old(woken) + old(sleeping)
    {
      StepKeepsInv(View(), Step<T>.Stop);
      runningFlag := false;
      woken, sleeping := woken + sleeping, {};
    }
  }
}
