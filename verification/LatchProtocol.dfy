/** The latch as threads that interleave atomic steps on one word: what every run keeps. */
module LatchProtocol {

  /** What a thread reads out of the word. */
  datatype Obs = Obs(closed: bool, count: nat)

  /** Where a thread stands; `seen` is the value of the word it loaded last, `closer` marks CloseAndWait. */
  datatype Pc<V> =
    | Idle
    | Adding(delta: nat, seen: V)
    | Closing(seen: V, closer: bool)
    | Notifying(closer: bool)              // a notify_all is due
    | Reloading(closer: bool)
    | Testing(seen: V, closer: bool)       // the loop test of Wait
    | Comparing(seen: V, closer: bool)     // inside wait(seen), about to compare
    | Parked(seen: V, closer: bool)        // inside wait(seen), asleep
    | Released(closer: bool)               // Wait or CloseAndWait has returned

  type Thread = nat

  datatype Step =
    | CallTryAdd(delta: nat)
    | TryAddCas(spurious: bool)
    | CountDown(delta: nat)
    | CallClose(closer: bool)
    | CloseCas(spurious: bool)
    | NotifyAll
    | CallWait
    | Load
    | Test
    | Compare
    | SpuriousWake

  /** `added` and `counted` sum the successful additions and the countdowns so far. */
  datatype State = State(word: Obs, pcs: map<Thread, Pc<Obs>>, added: nat, counted: nat)

  const CAPACITY: nat := 0x8000_0000_0000_0000

  predicate AtRest<V>(pc: Pc<V>) {
    pc.Idle? || pc.Released?
  }

  function Next(s: State, t: Thread, a: Step): (r: State)
    requires Enabled(s, t, a)
  {
    var pc := s.pcs[t];
    match a
    case CallTryAdd(delta) => Goto(s, t, Adding(delta, s.word))
    case TryAddCas(spurious) =>
      if pc.seen.closed then Goto(s, t, Idle)
      else if spurious || s.word != pc.seen then Goto(s, t, Adding(pc.delta, s.word))
      else Goto(s, t, Idle).(word := Obs(false, s.word.count + pc.delta), added := s.added + pc.delta)
    case CountDown(delta) =>
      Goto(s, t, if s.word.count == delta then Notifying(false) else Idle)
      .(word := s.word.(count := s.word.count - delta), counted := s.counted + delta)
    case CallClose(closer) => Goto(s, t, Closing(s.word, closer))
    case CloseCas(spurious) =>
      if pc.seen.closed then Goto(s, t, AfterClose(pc.closer))
      else if spurious || s.word != pc.seen then Goto(s, t, Closing(s.word, pc.closer))
      else
        Goto(s, t, if s.word.count == 0 then Notifying(pc.closer) else AfterClose(pc.closer))
        .(word := s.word.(closed := true))
    case NotifyAll =>
      s.(pcs := map u | u in s.pcs :: if u == t then AfterClose(pc.closer) else Wake(s.pcs[u]))
    case CallWait => Goto(s, t, Reloading(false))
    case Load => Goto(s, t, Testing(s.word, pc.closer))
    case Test => Goto(s, t, if pc.seen.count == 0 then Released(pc.closer) else Comparing(pc.seen, pc.closer))
    case Compare => Goto(s, t, if s.word == pc.seen then Parked(pc.seen, pc.closer) else Reloading(pc.closer))
    case SpuriousWake => Goto(s, t, Wake(pc))
  }

  /** When a thread can take a step. The two guards on counts are what callers promise: the total stays
      below 2^63, and nobody counts down what was not added. The second bound on a countdown is the
      assertion in the code; `NoLostWakeup` shows that the first implies it in every reachable state. */
  predicate Enabled(s: State, t: Thread, a: Step) {
    && t in s.pcs
    && var pc := s.pcs[t];
      match a
      case CallTryAdd(_) => AtRest(pc)
      case TryAddCas(_) => pc.Adding? && s.word.count + pc.delta < CAPACITY
      case CountDown(delta) => AtRest(pc) && delta <= s.added - s.counted && delta <= s.word.count
      case CallClose(_) => AtRest(pc)
      case CloseCas(_) => pc.Closing?
      case NotifyAll => pc.Notifying?
      case CallWait => AtRest(pc)
      case Load => pc.Reloading?
      case Test => pc.Testing?
      case Compare => pc.Comparing?
      case SpuriousWake => pc.Parked?
  }

  function Goto(s: State, t: Thread, pc: Pc<Obs>): State {
    s.(pcs := s.pcs[t := pc])
  }

  function Wake<V>(pc: Pc<V>): Pc<V> {
    match pc
    case Parked(seen, closer) => Comparing(seen, closer)
    case _ => pc
  }

  function AfterClose<V>(closer: bool): Pc<V> {
    if closer then Reloading(true) else Idle
  }

  ghost predicate Init(s: State) {
    && s.word == Obs(false, 0) && s.added == s.counted == 0
    && forall t :: t in s.pcs ==> s.pcs[t] == Idle
  }

  /** A notify_all that some thread owes. */
  predicate Due(s: State, t: Thread) {
    t in s.pcs && s.pcs[t].Notifying?
  }

  /** The thread is past the Close of a CloseAndWait. */
  predicate PastClose(pc: Pc<Obs>) {
    match pc
    case Notifying(closer) => closer
    case Reloading(closer) => closer
    case Testing(_, closer) => closer
    case Comparing(_, closer) => closer
    case Parked(_, closer) => closer
    case Released(closer) => closer
    case _ => false
  }

  ghost predicate ThreadInv(s: State, pc: Pc<Obs>) {
    && (pc.Comparing? || pc.Parked? ==> pc.seen.count > 0)
    && (PastClose(pc) ==> s.word.closed)
    && (pc.Closing? && pc.seen.closed ==> s.word.closed)
    && (pc.Testing? && pc.closer && pc.seen.count == 0 ==> s.word.count == 0)
    && (pc == Released(true) ==> s.word.count == 0)
  }

  ghost predicate Inv(s: State) {
    && s.counted <= s.added && s.word.count == s.added - s.counted
    && (forall t :: t in s.pcs ==> ThreadInv(s, s.pcs[t]))
    && (forall t :: t in s.pcs && s.pcs[t].Parked? && s.word.count == 0 ==> exists u :: Due(s, u))
  }

  lemma InitInv(s: State)
    requires Init(s)
    ensures Inv(s)
  {}

  /** Once closed with nothing outstanding, no step of any thread changes the word. */
  lemma ClosedEmptyIsFinal(s: State, t: Thread, a: Step)
    requires Inv(s) && Enabled(s, t, a) && s.word == Obs(true, 0)
    ensures Next(s, t, a).word == s.word
  {}

  /** A step moves the word as its counters say, and a closed latch takes no more additions. */
  lemma StepConserves(s: State, t: Thread, a: Step)
    requires Inv(s) && Enabled(s, t, a)
    ensures var s' := Next(s, t, a);
      && s'.counted <= s'.added && s'.word.count == s'.added - s'.counted
      && (s.word.closed ==> s'.word.closed && s'.added == s.added && s'.word.count <= s.word.count)
  {}

  lemma StepKeepsThreads(s: State, t: Thread, a: Step)
    requires Inv(s) && Enabled(s, t, a)
    ensures forall u :: u in Next(s, t, a).pcs ==> ThreadInv(Next(s, t, a), Next(s, t, a).pcs[u])
  {
    hide ThreadInv, Next, Enabled;
    var s' := Next(s, t, a);
    StepConserves(s, t, a);
    forall u | u in s'.pcs
      ensures ThreadInv(s', s'.pcs[u])
    {
      StepKeepsThread(s, t, a, u);
    }
  }

  lemma StepKeepsThread(s: State, t: Thread, a: Step, u: Thread)
    requires Inv(s) && Enabled(s, t, a) && u in Next(s, t, a).pcs
    requires s.word.closed ==> Next(s, t, a).word.closed && Next(s, t, a).word.count <= s.word.count
    ensures ThreadInv(Next(s, t, a), Next(s, t, a).pcs[u])
  {
    assert u in s.pcs && ThreadInv(s, s.pcs[u]) && ThreadInv(s, s.pcs[t]);
  }

  /** The debt of a notify_all is never dropped while somebody sleeps on an empty latch. */
  lemma StepKeepsDebt(s: State, t: Thread, a: Step)
    requires Inv(s) && Enabled(s, t, a)
    ensures var s' := Next(s, t, a);
      forall u :: u in s'.pcs && s'.pcs[u].Parked? && s'.word.count == 0 ==> exists v :: Due(s', v)
  {
    var s' := Next(s, t, a);
    forall u | u in s'.pcs && s'.pcs[u].Parked? && s'.word.count == 0
      ensures exists v :: Due(s', v)
    {
      assert ThreadInv(s, s.pcs[t]);
      if s.word.count != 0 {
        assert a.CountDown?;
        assert Due(s', t);
      } else {
        assert u != t;
        assert s.pcs[u].Parked?;
        var v :| Due(s, v);
        assert v != t ==> Due(s', v);
      }
    }
  }

  lemma StepKeepsInv(s: State, t: Thread, a: Step)
    requires Inv(s) && Enabled(s, t, a)
    ensures Inv(Next(s, t, a))
  {
    hide Next, Enabled, ThreadInv;
    StepConserves(s, t, a);
    StepKeepsThreads(s, t, a);
    StepKeepsDebt(s, t, a);
  }

  /** A run: who steps, how, and the states in between. */
  datatype Run = Run(states: seq<State>, who: seq<Thread>, how: seq<Step>)

  ghost predicate IsRun(r: Run) {
    && |r.states| == |r.who| + 1 == |r.how| + 1
    && Init(r.states[0])
    && forall i :: 0 <= i < |r.who| ==>
        && Enabled(r.states[i], r.who[i], r.how[i])
        && r.states[i + 1] == Next(r.states[i], r.who[i], r.how[i])
  }

  lemma {:induction false} RunInv(r: Run, i: nat)
    requires IsRun(r) && i < |r.states|
    ensures Inv(r.states[i])
  {
    hide Inv, Enabled, Next;
    if i == 0 {
      InitInv(r.states[0]);
    } else {
      RunInv(r, i - 1);
      StepKeepsInv(r.states[i - 1], r.who[i - 1], r.how[i - 1]);
    }
  }

  /** In every reachable state the word holds the closed flag and the additions minus the countdowns,
      and a sleeping waiter has something to wait for or a notify_all still coming. */
  lemma NoLostWakeup(r: Run, i: nat)
    requires IsRun(r) && i < |r.states|
    ensures var s := r.states[i];
      && s.word.count == s.added - s.counted
      && forall t :: t in s.pcs && s.pcs[t].Parked? ==> s.word.count > 0 || exists u :: Due(s, u)
  {
    hide Enabled, Next;
    RunInv(r, i);
  }

  /** The owed notify_all gets a sleeper of an empty latch out of Wait with three steps of its own. */
  lemma NotifiedWaiterReturns(s: State, u: Thread, t: Thread)
    requires Inv(s) && s.word.count == 0 && Due(s, u) && t in s.pcs && s.pcs[t].Parked?
    ensures var s1 := Next(s, u, NotifyAll);
      && Enabled(s1, t, Compare)
      && var s2 := Next(s1, t, Compare);
      && Enabled(s2, t, Load)
      && var s3 := Next(s2, t, Load);
      && Enabled(s3, t, Test)
      && Next(s3, t, Test).pcs[t] == Released(s.pcs[t].closer)
  {
    assert ThreadInv(s, s.pcs[t]);
    var s1 := Next(s, u, NotifyAll);
    assert s1.pcs[t] == Comparing(s.pcs[t].seen, s.pcs[t].closer);
    var s2 := Next(s1, t, Compare);
    assert s2.pcs[t] == Reloading(s.pcs[t].closer);
    var s3 := Next(s2, t, Load);
    assert s3.pcs[t] == Testing(s3.word, s.pcs[t].closer);
  }

  /** When CloseAndWait has returned, the latch is closed and empty, now and for the rest of the run. */
  lemma {:induction false} CloseAndWaitIsFinal(r: Run, i: nat, j: nat, t: Thread)
    requires IsRun(r) && i <= j < |r.states|
    requires t in r.states[i].pcs && r.states[i].pcs[t] == Released(true)
    ensures r.states[j].word == Obs(true, 0)
  {
    hide Enabled, Next;
    if i == j {
      RunInv(r, i);
      assert ThreadInv(r.states[i], r.states[i].pcs[t]);
    } else {
      CloseAndWaitIsFinal(r, i, j - 1, t);
      RunInv(r, j - 1);
      ClosedEmptyIsFinal(r.states[j - 1], r.who[j - 1], r.how[j - 1]);
    }
  }

  /** A thread at the loop test of Wait has looked at the word since its last step, and not stepped since. */
  lemma {:induction false} TestedWhatItLoaded(r: Run, i: nat, t: Thread) returns (j: nat)
    requires IsRun(r) && i < |r.states| && t in r.states[i].pcs && r.states[i].pcs[t].Testing?
    ensures j < i && r.who[j] == t && r.how[j] == Load && r.states[i].pcs[t].seen == r.states[j].word
    ensures forall k :: j < k < i ==> r.who[k] != t
    decreases i
  {
    hide Enabled, Next;
    if i == 0 {
      NobodyTests(r.states[0], t);
    }
    var s, u, a := r.states[i - 1], r.who[i - 1], r.how[i - 1];
    assert Enabled(s, u, a) && r.states[i] == Next(s, u, a);
    TestsWhatItLoads(s, u, a, t);
    if u == t {
      j := i - 1;
    } else {
      j := TestedWhatItLoaded(r, i - 1, t);
    }
  }

  lemma NobodyTests(s: State, t: Thread)
    requires Init(s)
    ensures !(t in s.pcs && s.pcs[t].Testing?)
  {}

  /** A step that leaves `t` at the loop test is its own load, or that of another thread. */
  lemma TestsWhatItLoads(s: State, u: Thread, a: Step, t: Thread)
    requires Enabled(s, u, a) && t in Next(s, u, a).pcs && Next(s, u, a).pcs[t].Testing?
    ensures u == t ==> a == Load && Next(s, u, a).pcs[t].seen == s.word
    ensures u != t ==> t in s.pcs && s.pcs[t] == Next(s, u, a).pcs[t]
  {}

  /** Wait and CloseAndWait return if and only if nothing was outstanding when the thread last looked. */
  lemma WaitReturnsIff(r: Run, i: nat, t: Thread) returns (j: nat)
    requires IsRun(r) && i < |r.who| && r.who[i] == t && r.how[i] == Test
    ensures t in r.states[i + 1].pcs
    ensures j < i && r.who[j] == t && r.how[j] == Load && forall k :: j < k < i ==> r.who[k] != t
    ensures r.states[i + 1].pcs[t].Released? <==> r.states[j].added == r.states[j].counted
  {
    assert Enabled(r.states[i], t, Test) && r.states[i + 1] == Next(r.states[i], t, Test);
    j := TestedWhatItLoaded(r, i, t);
    RunInv(r, j);
  }

  /** When a Close has left its loop, in whichever thread, the latch is closed for the rest of the run. */
  lemma {:induction false} CloseIsFinal(r: Run, i: nat, m: nat)
    requires IsRun(r) && i < m < |r.states| && r.how[i].CloseCas?
    requires r.who[i] in r.states[i + 1].pcs && !r.states[i + 1].pcs[r.who[i]].Closing?
    ensures r.states[m].word.closed && r.states[m].added == r.states[i + 1].added
    decreases m
  {
    hide Inv;
    if m == i + 1 {
      RunInv(r, i);
      LeavesClosed(r.states[i], r.who[i], r.how[i]);
    } else {
      CloseIsFinal(r, i, m - 1);
      RunInv(r, m - 1);
      StepConserves(r.states[m - 1], r.who[m - 1], r.how[m - 1]);
    }
  }

  lemma LeavesClosed(s: State, t: Thread, a: Step)
    requires Inv(s) && Enabled(s, t, a) && a.CloseCas? && !Next(s, t, a).pcs[t].Closing?
    ensures Next(s, t, a).word.closed
  {
    assert ThreadInv(s, s.pcs[t]);
  }

  /** One turn of Close's loop, and of TryAdd's, decides unless another thread came in between. */
  lemma TurnDecides(s: State, t: Thread)
    ensures Enabled(s, t, CloseCas(false)) && (s.pcs[t].seen == s.word || s.pcs[t].seen.closed) ==>
      !Next(s, t, CloseCas(false)).pcs[t].Closing?
    ensures Enabled(s, t, TryAddCas(false)) && s.pcs[t].seen == s.word ==>
      var s' := Next(s, t, TryAddCas(false));
      && s'.pcs[t] == Idle
      && s'.added == (if s.word.closed then s.added else s.added + s.pcs[t].delta)
  {}

  // ---------------------------------------------------------------- destroying the latch

  /** Steps taken one behind the other. */
  ghost predicate Leads(s: State, who: seq<Thread>, how: seq<Step>, end: State)
    decreases |who|
  {
    if who == [] || how == [] then who == [] && how == [] && s == end
    else Enabled(s, who[0], how[0]) && Leads(Next(s, who[0], how[0]), who[1..], how[1..], end)
  }

  /** What a thread does in CloseAndWait. */
  predicate Closes(a: Step) {
    match a
    case CallClose(closer) => closer
    case CloseCas(_) => true
    case NotifyAll => true
    case Load => true
    case Test => true
    case Compare => true
    case SpuriousWake => true
    case _ => false
  }

  /** From here on `t` is in CloseAndWait and the others only count down. */
  ghost predicate OnlyCountdowns(t: Thread, who: seq<Thread>, how: seq<Step>) {
    && |who| == |how|
    && forall i :: 0 <= i < |who| ==> Countdown(t, who[i], how[i])
  }

  predicate Countdown(t: Thread, u: Thread, a: Step) {
    if u == t then Closes(a) else a.NotifyAll? || (a.CountDown? && a.delta > 0)
  }

  /** However that goes on, when CloseAndWait returns every other thread has left the latch. */
  ghost predicate SafeToDestroy(s: State, t: Thread) {
    forall who, how, end :: OnlyCountdowns(t, who, how) && Leads(s, who, how, end) ==> LeftAlone(end, t)
  }

  ghost predicate LeftAlone(s: State, t: Thread) {
    t in s.pcs && s.pcs[t] == Released(true) ==> OthersAtRest(s, t)
  }

  ghost predicate OthersAtRest(s: State, t: Thread) {
    forall u :: u in s.pcs && u != t ==> AtRest(s.pcs[u])
  }

  /** The return of CloseAndWait lets a caller destroy the latch exactly if, when it was called, nothing was
      outstanding and nobody else was inside: otherwise the last countdown may still be on its way to
      notify. `u` is a thread that is free to count down. */
  lemma SafeToDestroyIff(s: State, t: Thread, u: Thread)
    requires Inv(s) && !s.word.closed && t in s.pcs && AtRest(s.pcs[t])
    requires u in s.pcs && u != t && AtRest(s.pcs[u])
    ensures SafeToDestroy(s, t) <==> s.word.count == 0 && OthersAtRest(s, t)
  {
    hide Enabled, Next, Leads, Inv, LeftAlone, OthersAtRest, AtRest;
    if s.word.count == 0 && OthersAtRest(s, t) {
      forall who, how, end | OnlyCountdowns(t, who, how) && Leads(s, who, how, end)
        ensures LeftAlone(end, t)
      {
        OthersStayAway(s, t, who, how, end);
        RestIsAlone(end, t);
      }
    } else if s.word.count == 0 {
      ReturnsAtOnce(s, t);
    } else {
      ReturnsTooEarly(s, t, u);
    }
  }

  lemma {:induction false} OthersStayAway(s: State, t: Thread, who: seq<Thread>, how: seq<Step>, end: State)
    requires OthersAtRest(s, t) && s.word.count == 0 && OnlyCountdowns(t, who, how) && Leads(s, who, how, end)
    ensures OthersAtRest(end, t)
    decreases |who|
  {
    if who != [] {
      assert Countdown(t, who[0], how[0]);
      var next := Next(s, who[0], how[0]);
      assert OnlyCountdowns(t, who[1..], how[1..]);
      OthersStayAway(next, t, who[1..], how[1..], end);
    }
  }

  /** `t` closes, `u` counts down to zero, `t` sees it and returns before `u` has notified. */
  lemma LastCountdownNotifies(s: State, t: Thread, u: Thread) returns (mid: seq<State>)
    requires Inv(s) && s.word.count > 0 && !s.word.closed && t in s.pcs && u in s.pcs && u != t
    requires AtRest(s.pcs[t]) && AtRest(s.pcs[u])
    ensures |mid| == 6 && mid[0] == s
    ensures Enabled(mid[0], t, CallClose(true)) && mid[1] == Next(mid[0], t, CallClose(true))
    ensures Enabled(mid[1], t, CloseCas(false)) && mid[2] == Next(mid[1], t, CloseCas(false))
    ensures Enabled(mid[2], u, CountDown(s.word.count)) && mid[3] == Next(mid[2], u, CountDown(s.word.count))
    ensures Enabled(mid[3], t, Load) && mid[4] == Next(mid[3], t, Load)
    ensures Enabled(mid[4], t, Test) && mid[5] == Next(mid[4], t, Test)
    ensures t in mid[5].pcs && mid[5].pcs[t] == Released(true) && Due(mid[5], u)
  {
    var s1 := Next(s, t, CallClose(true));
    var s2 := Next(s1, t, CloseCas(false));
    var s3 := Next(s2, u, CountDown(s.word.count));
    var s4 := Next(s3, t, Load);
    mid := [s, s1, s2, s3, s4, Next(s4, t, Test)];
  }

  lemma ReturnsTooEarly(s: State, t: Thread, u: Thread)
    requires Inv(s) && s.word.count > 0 && !s.word.closed && t in s.pcs && u in s.pcs && u != t
    requires AtRest(s.pcs[t]) && AtRest(s.pcs[u])
    ensures !SafeToDestroy(s, t)
  {
    hide Inv, Enabled, Next, Leads, LeftAlone;
    var mid := LastCountdownNotifies(s, t, u);
    var who := [t, t, u, t, t];
    var how := [CallClose(true), CloseCas(false), CountDown(s.word.count), Load, Test];
    Nowhere(mid[5]);
    assert who[4..][1..] == [] && how[4..][1..] == [];
    LeadsOn(mid[4], who[4..], how[4..], mid[5]);
    LeadsOn(mid[3], who[3..], how[3..], mid[5]);
    LeadsOn(mid[2], who[2..], how[2..], mid[5]);
    LeadsOn(mid[1], who[1..], how[1..], mid[5]);
    LeadsOn(s, who, how, mid[5]);
    assert OnlyCountdowns(t, who, how);
    NotLeftAlone(mid[5], t, u);
  }

  lemma RestIsAlone(s: State, t: Thread)
    requires OthersAtRest(s, t)
    ensures LeftAlone(s, t)
  {}

  /** On an empty latch `t` returns without anybody's help, wherever the others are. */
  lemma ReturnsUnaided(s: State, t: Thread) returns (mid: seq<State>)
    requires s.word.count == 0 && !s.word.closed && t in s.pcs && AtRest(s.pcs[t]) && !OthersAtRest(s, t)
    ensures |mid| == 6 && mid[0] == s
    ensures Enabled(mid[0], t, CallClose(true)) && mid[1] == Next(mid[0], t, CallClose(true))
    ensures Enabled(mid[1], t, CloseCas(false)) && mid[2] == Next(mid[1], t, CloseCas(false))
    ensures Enabled(mid[2], t, NotifyAll) && mid[3] == Next(mid[2], t, NotifyAll)
    ensures Enabled(mid[3], t, Load) && mid[4] == Next(mid[3], t, Load)
    ensures Enabled(mid[4], t, Test) && mid[5] == Next(mid[4], t, Test)
    ensures t in mid[5].pcs && mid[5].pcs[t] == Released(true) && !OthersAtRest(mid[5], t)
  {
    var s1 := Next(s, t, CallClose(true));
    var s2 := Next(s1, t, CloseCas(false));
    var s3 := Next(s2, t, NotifyAll);
    var s4 := Next(s3, t, Load);
    mid := [s, s1, s2, s3, s4, Next(s4, t, Test)];
    var w :| w in s.pcs && w != t && !AtRest(s.pcs[w]);
    assert s3.pcs[w] == Wake(s.pcs[w]);
    assert !AtRest(mid[5].pcs[w]);
  }

  lemma ReturnsAtOnce(s: State, t: Thread)
    requires s.word.count == 0 && !s.word.closed && t in s.pcs && AtRest(s.pcs[t]) && !OthersAtRest(s, t)
    ensures !SafeToDestroy(s, t)
  {
    hide Enabled, Next, Leads, OthersAtRest, AtRest;
    var mid := ReturnsUnaided(s, t);
    var who := [t, t, t, t, t];
    var how := [CallClose(true), CloseCas(false), NotifyAll, Load, Test];
    Nowhere(mid[5]);
    assert who[4..][1..] == [] && how[4..][1..] == [];
    LeadsOn(mid[4], who[4..], how[4..], mid[5]);
    LeadsOn(mid[3], who[3..], how[3..], mid[5]);
    LeadsOn(mid[2], who[2..], how[2..], mid[5]);
    LeadsOn(mid[1], who[1..], how[1..], mid[5]);
    LeadsOn(s, who, how, mid[5]);
    assert OnlyCountdowns(t, who, how);
    assert !LeftAlone(mid[5], t);
  }

  lemma NotLeftAlone(s: State, t: Thread, u: Thread)
    requires t in s.pcs && s.pcs[t] == Released(true) && Due(s, u) && u != t
    ensures !LeftAlone(s, t)
  {}

  lemma Nowhere(s: State)
    ensures Leads(s, [], [], s)
  {}

  lemma LeadsOn(s: State, who: seq<Thread>, how: seq<Step>, end: State)
    requires who != [] && how != [] && Enabled(s, who[0], how[0])
    requires Leads(Next(s, who[0], how[0]), who[1..], how[1..], end)
    ensures Leads(s, who, how, end)
  {
    hide Enabled, Next;
  }

  // ---------------------------------------------------------------- a task and its caller

  /** TryExecute has added one and posted the task; thread 0 is the caller, thread 1 the executor. */
  function Posted(): State {
    State(Obs(false, 1), map[0 := Idle, 1 := Idle], 1, 0)
  }

  lemma PostedIsReached(s: State)
    requires Init(s) && s.pcs == map[0 := Idle, 1 := Idle]
    ensures Leads(s, [0, 0], [CallTryAdd(1), TryAddCas(false)], Posted())
  {
    var who, how := [0, 0], [CallTryAdd(1), TryAddCas(false)];
    var next := Next(s, 0, CallTryAdd(1));
    Nowhere(Posted());
    assert Next(next, 0, TryAddCas(false)).pcs == Posted().pcs;
    LeadsOn(next, who[1..], how[1..], Posted());
    LeadsOn(s, who, how, Posted());
  }

  /** The caller is in CloseAndWait; the executor counts down behind the task, unless the task throws. */
  predicate CallStep(t: Thread, a: Step, throws: bool) {
    if t == 0 then Closes(a)
    else t == 1 && (a.NotifyAll? || (a == CountDown(1) && !throws))
  }

  ghost predicate CallSteps(who: seq<Thread>, how: seq<Step>, throws: bool) {
    && |who| == |how|
    && forall i :: 0 <= i < |who| ==> CallStep(who[i], how[i], throws)
  }

  ghost predicate CanReturn(s: State, throws: bool) {
    exists who, how, end ::
      CallSteps(who, how, throws) && Leads(s, who, how, end) && 0 in end.pcs && end.pcs[0] == Released(true)
  }

  /** At whatever point of the call: the caller can still return if and only if the task does not throw. */
  lemma CallerReturnsIff(who: seq<Thread>, how: seq<Step>, s: State, throws: bool)
    requires CallSteps(who, how, throws) && Leads(Posted(), who, how, s)
    ensures CanReturn(s, throws) <==> !throws
  {
    hide Leads, CanReturn, CallInv;
    PostedCallInv(throws);
    CallKeepsInv(Posted(), who, how, s, throws);
    if throws {
      NeverReturns(s);
    } else {
      Returns(s);
    }
  }

  ghost predicate CallInv(s: State, throws: bool) {
    && Inv(s) && s.pcs.Keys == {0, 1} && s.added == 1
    && (throws ==> s.counted == 0)
    && (s.pcs[1] == Idle || s.pcs[1] == Notifying(false))
    && (s.counted == 0 ==> s.pcs[1] == Idle)
    && (s.pcs[0] == Idle || (s.pcs[0].Closing? && s.pcs[0].closer) || PastClose(s.pcs[0]))
  }

  lemma PostedCallInv(throws: bool)
    ensures CallInv(Posted(), throws)
  {}

  lemma CallStepKeepsInv(s: State, t: Thread, a: Step, throws: bool)
    requires CallInv(s, throws) && CallStep(t, a, throws) && Enabled(s, t, a)
    ensures CallInv(Next(s, t, a), throws)
  {
    StepKeepsInv(s, t, a);
    hide Inv;
  }

  lemma {:induction false} CallKeepsInv(s: State, who: seq<Thread>, how: seq<Step>, end: State, throws: bool)
    requires CallInv(s, throws) && CallSteps(who, how, throws) && Leads(s, who, how, end)
    ensures CallInv(end, throws)
    decreases |who|
  {
    hide CallInv, Enabled, Next;
    if who != [] {
      assert CallStep(who[0], how[0], throws);
      CallStepKeepsInv(s, who[0], how[0], throws);
      CallKeepsInv(Next(s, who[0], how[0]), who[1..], how[1..], end, throws);
    }
  }

  lemma NeverReturns(s: State)
    requires CallInv(s, true)
    ensures !CanReturn(s, true)
  {
    forall who, how, end | CallSteps(who, how, true) && Leads(s, who, how, end)
      ensures !(0 in end.pcs && end.pcs[0] == Released(true))
    {
      CallKeepsInv(s, who, how, end, true);
      assert end.pcs.Keys == {0, 1} && ThreadInv(end, end.pcs[0]);
    }
  }

  /** How far the caller still has to go. */
  function Far(s: State): nat
    requires 0 in s.pcs
  {
    var pc := s.pcs[0];
    if pc.Closing? then (if pc.seen.closed || pc.seen == s.word then 18 else 19)
    else
      (if s.word.count > 0 then 8 else 0) +
      match pc
      case Released(_) => 0
      case Testing(seen, _) => if seen.count == 0 then 1 else 4
      case Reloading(_) => 2
      case Comparing(_, _) => 3
      case Parked(_, _) => 5
      case Notifying(_) => 6
      case _ => 20
  }

  /** A step that brings the caller nearer. */
  function Nearer(s: State): (Thread, Step)
    requires s.pcs.Keys == {0, 1}
  {
    var pc := s.pcs[0];
    if pc.Idle? then (0, CallClose(true))
    else if pc.Closing? then (0, CloseCas(false))
    else if s.word.count > 0 then (1, CountDown(1))
    else
      match pc
      case Notifying(_) => (0, NotifyAll)
      case Reloading(_) => (0, Load)
      case Testing(_, _) => (0, Test)
      case Comparing(_, _) => (0, Compare)
      case _ => (1, NotifyAll)
  }

  lemma StepsNearer(s: State)
    requires CallInv(s, false) && s.pcs[0] != Released(true)
    ensures
      var (t, a) := Nearer(s);
      Enabled(s, t, a) && CallStep(t, a, false) && 0 in Next(s, t, a).pcs && Far(Next(s, t, a)) < Far(s)
  {
    assert ThreadInv(s, s.pcs[0]);
    if s.pcs[0].Parked? && s.word.count == 0 {
      var u :| Due(s, u);
      assert u == 1;
    }
  }

  lemma {:induction false} Returns(s: State)
    requires CallInv(s, false)
    ensures CanReturn(s, false)
    decreases Far(s)
  {
    if s.pcs[0] == Released(true) {
      Nowhere(s);
      assert CallSteps([], [], false);
    } else {
      hide CallInv, Enabled, Next, Leads, Far;
      StepsNearer(s);
      var (t, a) := Nearer(s);
      CallStepKeepsInv(s, t, a, false);
      Returns(Next(s, t, a));
      var who, how, end :| CallSteps(who, how, false) && Leads(Next(s, t, a), who, how, end)
        && 0 in end.pcs && end.pcs[0] == Released(true);
      assert ([t] + who)[1..] == who && ([a] + how)[1..] == how;
      LeadsOn(s, [t] + who, [a] + how, end);
      assert CallSteps([t] + who, [a] + how, false);
    }
  }
}
