/** The playback state machine: a starter that calls AddPlaybackTasks twice, the tasks that continue each
    chain, a counter they all share, and the signal to stop. Every critical section is one step. */
module Playback {
  import opened PlaybackReader
  import opened Seqs

  datatype Mode = Ready | Playing | Stopping

  /** Where an AddPlaybackTasks call is: before the check of the mode, before reading, or found nothing. */
  datatype At = Check | Fetch | Mark

  datatype Starter = Idle | Calls(left: nat, at: At)

  /** `queued`, `checked`, `emptied`: how many continuation tasks are at each point; with the starter they
      hold the shared counter. `releasing`: the last holder is gone, its deleter has not run. `limits`:
      the stop time each batch was read under. */
  datatype State = State(
    mode: Mode, start: nat, stop: nat, starter: Starter, queued: nat, checked: nat, emptied: nat,
    releasing: bool, reader: Reader, batches: seq<seq<Msg>>, limits: seq<nat>, pastEnd: bool)

  datatype Step =
    | StartPlayback(start: nat, stop: nat)
    | StarterRuns
    | TaskChecks
    | TaskReads
    | TaskFoundNothing
    | TaskDiscarded
    | StopSignal
    | CounterDeleter

  function Init(next: nat): State {
    State(Ready, 0, 0, Idle, 0, 0, 0, false, Reader(next, []), [], [], false)
  }

  function Tasks(s: State): nat {
    s.queued + s.checked + s.emptied
  }

  function Holders(s: State): nat {
    Tasks(s) + if s.starter.Calls? then 1 else 0
  }

  predicate Enabled(s: State, step: Step) {
    !s.pastEnd &&
    match step
    case StartPlayback(_, _) => s.mode == Ready
    case StarterRuns => s.starter.Calls? && s.starter.left > 0
    case TaskChecks => s.queued > 0
    case TaskReads => s.checked > 0
    case TaskFoundNothing => s.emptied > 0
    case TaskDiscarded => s.queued > 0
    case StopSignal => true
    case CounterDeleter => s.releasing
  }

  /** When nobody is left holding the counter its deleter is due. */
  function Dropped(s: State): State {
    if Holders(s) == 0 then s.(releasing := true) else s
  }

  /** The starter's current call is over. */
  function CallOver(s: State): State
    requires s.starter.Calls? && s.starter.left > 0
  {
    if s.starter.left == 1 then Dropped(s.(starter := Idle))
    else s.(starter := Calls(s.starter.left - 1, Check))
  }

  /** The locked part of AddPlaybackTasks. */
  function ReadBatch(s: State, f: Fetched): State {
    var t := s.(reader := f.reader, pastEnd := f.PastTheEnd?, mode := if f.Stopped? then Stopping else s.mode);
    if f.records == [] || f.PastTheEnd? then t
    else t.(batches := s.batches + [f.records], limits := s.limits + [s.stop])
  }

  function FetchNow(files: seq<File>, s: State): Fetched {
    Collect(files, s.reader, s.start, s.stop, [], 0)
  }

  function Next(files: seq<File>, s: State, step: Step): State
    requires Enabled(s, step)
  {
    match step
    case StartPlayback(start, stop) => s.(mode := Playing, start := start, stop := stop, starter := Calls(2, Check))
    case StarterRuns =>
      (match s.starter.at
       case Check => if s.mode == Stopping then CallOver(s) else s.(starter := Calls(s.starter.left, Fetch))
       case Fetch =>
         var f := FetchNow(files, s);
         var t := ReadBatch(s, f);
         if f.records == [] then t.(starter := Calls(s.starter.left, Mark)) else CallOver(t.(queued := s.queued + 1))
       case Mark => CallOver(s.(mode := Stopping)))
    case TaskChecks =>
      if s.mode == Stopping then Dropped(s.(queued := s.queued - 1))
      else s.(queued := s.queued - 1, checked := s.checked + 1)
    case TaskReads =>
      var f := FetchNow(files, s);
      var t := ReadBatch(s, f);
      if f.records == [] then t.(checked := s.checked - 1, emptied := s.emptied + 1)
      else t.(checked := s.checked - 1, queued := s.queued + 1)
    case TaskFoundNothing => Dropped(s.(mode := Stopping, emptied := s.emptied - 1))
    case TaskDiscarded => Dropped(s.(queued := s.queued - 1))
    case StopSignal => if s.mode == Playing then s.(mode := Stopping) else s
    case CounterDeleter => s.(mode := Ready, releasing := false)
  }

  // ---------------------------------------------------------------- the invariant

  function CallsLeft(s: State): nat {
    if s.starter.Calls? then s.starter.left else 0
  }

  /** The counter and the mode. */
  ghost predicate Counted(s: State) {
    && (s.starter.Calls? ==> s.starter.left > 0)
    && (s.mode == Ready ==> Holders(s) == 0 && !s.releasing)
    && (s.releasing ==> Holders(s) == 0)
    && (s.mode != Ready && Holders(s) == 0 ==> s.releasing)
    && Tasks(s) + CallsLeft(s) <= 2
  }

  /** All batches so far, one behind the other, and what is still untouched. */
  ghost predicate InBagOrder(files: seq<File>, s: State) {
    Rising(Flatten(s.batches) + Untouched(files, s.reader))
  }

  ghost predicate FromBag(files: seq<File>, s: State) {
    && Within(Flatten(s.batches), Unopened(files, 0))
    && Within(Untouched(files, s.reader), Unopened(files, 0))
  }

  ghost predicate NonePastTheirStop(s: State) {
    |s.limits| == |s.batches|
    && forall i :: 0 <= i < |s.batches| ==> forall m :: m in s.batches[i] ==> !Past(m, s.limits[i])
  }

  ghost predicate Inv(files: seq<File>, s: State) {
    Counted(s) && InBagOrder(files, s) && FromBag(files, s) && NonePastTheirStop(s)
  }

  lemma StepKeepsInv(files: seq<File>, s: State, step: Step)
    requires Inv(files, s) && Enabled(s, step)
    ensures Inv(files, Next(files, s, step))
  {
    hide InBagOrder, FromBag, NonePastTheirStop, Counted, Enabled, Next;
    StepKeepsCounted(files, s, step);
    ReadKeepsOrder(files, s);
    var t := Next(files, s, step);
    ReadsOrNot(files, s, step);
    if t.batches == s.batches && t.reader == s.reader && t.limits == s.limits {
      Unread(files, s, t);
    } else {
      Unread(files, ReadBatch(s, FetchNow(files, s)), t);
    }
  }

  lemma ReadsOrNot(files: seq<File>, s: State, step: Step)
    requires Enabled(s, step)
    ensures
      var t := Next(files, s, step);
      var r := ReadBatch(s, FetchNow(files, s));
      (t.batches == s.batches && t.reader == s.reader && t.limits == s.limits)
      || (t.batches == r.batches && t.reader == r.reader && t.limits == r.limits)
  {
    hide Collect, FetchNow, ReadBatch, Holders;
    if step.StarterRuns? {
      StarterReadsOrNot(files, s);
    }
  }

  lemma StarterReadsOrNot(files: seq<File>, s: State)
    requires Enabled(s, StarterRuns)
    ensures
      var t := Next(files, s, StarterRuns);
      var r := ReadBatch(s, FetchNow(files, s));
      (t.batches == s.batches && t.reader == s.reader && t.limits == s.limits)
      || (t.batches == r.batches && t.reader == r.reader && t.limits == r.limits)
  {
    hide Collect, FetchNow, ReadBatch, Holders;
  }

  lemma StepKeepsCounted(files: seq<File>, s: State, step: Step)
    requires Counted(s) && Enabled(s, step)
    ensures Counted(Next(files, s, step))
  {
    hide Collect, FetchNow;
    if step.StarterRuns? {
      StarterKeepsCounted(files, s);
    }
  }

  lemma StarterKeepsCounted(files: seq<File>, s: State)
    requires Counted(s) && Enabled(s, StarterRuns)
    ensures Counted(Next(files, s, StarterRuns))
  {
    hide Collect, FetchNow;
    match s.starter.at
    case Check => StarterChecks(files, s);
    case Fetch => StarterFetches(files, s);
    case Mark =>
  }

  lemma StarterChecks(files: seq<File>, s: State)
    requires Counted(s) && Enabled(s, StarterRuns) && s.starter.at == Check
    ensures Counted(Next(files, s, StarterRuns))
  {}

  lemma StarterFetches(files: seq<File>, s: State)
    requires Counted(s) && Enabled(s, StarterRuns) && s.starter.at == Fetch
    ensures Counted(Next(files, s, StarterRuns))
  {
    hide Collect, FetchNow;
  }

  lemma Unread(files: seq<File>, s: State, t: State)
    requires InBagOrder(files, s) && FromBag(files, s) && NonePastTheirStop(s)
    requires t.batches == s.batches && t.reader == s.reader && t.limits == s.limits
    ensures InBagOrder(files, t) && FromBag(files, t) && NonePastTheirStop(t)
  {}

  lemma ReadKeepsOrder(files: seq<File>, s: State)
    requires InBagOrder(files, s) && FromBag(files, s) && NonePastTheirStop(s)
    ensures var t := ReadBatch(s, FetchNow(files, s)); InBagOrder(files, t) && FromBag(files, t) && NonePastTheirStop(t)
  {
    hide Rising, Untouched, Unopened, Collect;
    var f := FetchNow(files, s);
    var before := Flatten(s.batches);
    assert before + [] + Untouched(files, s.reader) == before + Untouched(files, s.reader);
    CollectRises(files, s.reader, s.start, s.stop, [], 0, before);
    NothingPastStop(files, s.reader, s.start, s.stop, [], 0);
    DropManyRises(before + f.records, Thrown(f), Untouched(files, f.reader));
    assert [] + Untouched(files, s.reader) == Untouched(files, s.reader);
    if f.records == [] || f.PastTheEnd? {
      DropManyRises(before, f.records, Untouched(files, f.reader));
    } else {
      FlattenAppend(s.batches, [f.records]);
      FlattenOne(f.records);
    }
  }

  // ---------------------------------------------------------------- runs

  ghost predicate IsRun(files: seq<File>, run: seq<State>, steps: seq<Step>, next: nat) {
    && |run| == |steps| + 1 && run[0] == Init(next)
    && forall i :: 0 <= i < |steps| ==> Enabled(run[i], steps[i]) && run[i + 1] == Next(files, run[i], steps[i])
  }

  lemma {:induction false} RunKeepsInv(files: seq<File>, run: seq<State>, steps: seq<Step>, next: nat, k: nat)
    requires IsRun(files, run, steps, next) && k < |run| && Rising(Unopened(files, 0))
    ensures Inv(files, run[k])
    decreases k
  {
    hide Inv, Enabled, Next, Rising;
    if k == 0 {
      InitInv(files, next);
    } else {
      RunKeepsInv(files, run, steps, next, k - 1);
      StepKeepsInv(files, run[k - 1], steps[k - 1]);
    }
  }

  lemma InitInv(files: seq<File>, next: nat)
    requires Rising(Unopened(files, 0))
    ensures Inv(files, Init(next))
  {
    LaterFiles(files, 0, next);
    assert [] + Unopened(files, next) == Unopened(files, next);
    assert Flatten([]) + Untouched(files, Reader(next, [])) == Unopened(files, next);
  }

  lemma {:induction false} LaterFiles(files: seq<File>, a: nat, b: nat)
    requires a <= b && Rising(Unopened(files, a))
    ensures Rising(Unopened(files, b)) && Within(Unopened(files, b), Unopened(files, a))
    decreases b - a
  {
    if a < b && a < |files| {
      assert [] + files[a].msgs + Unopened(files, a + 1) == Unopened(files, a);
      DropManyRises([], files[a].msgs, Unopened(files, a + 1));
      assert [] + Unopened(files, a + 1) == Unopened(files, a + 1);
      LaterFiles(files, a + 1, b);
    }
  }

  /** Ready for a new playback means that nobody holds the counter of an earlier one, and there are never
      more than two chains. */
  lemma ReadyMeansAllDone(files: seq<File>, run: seq<State>, steps: seq<Step>, next: nat, k: nat)
    requires IsRun(files, run, steps, next) && k < |run| && Rising(Unopened(files, 0))
    ensures run[k].mode == Ready ==> Tasks(run[k]) == 0 && run[k].starter == Idle
    ensures Tasks(run[k]) <= 2
    ensures run[k].mode != Ready ==> Holders(run[k]) > 0 || Enabled(run[k].(pastEnd := false), CounterDeleter)
  {
    RunKeepsInv(files, run, steps, next, k);
  }

  /** Over all playbacks together every message of the bag is in at most one batch; the batches follow the
      bag's order, and its log times if they do; nothing is beyond the stop time of its playback. */
  lemma EachMessageOnceInOrder(files: seq<File>, run: seq<State>, steps: seq<Step>, next: nat, k: nat)
    requires IsRun(files, run, steps, next) && k < |run| && Rising(Unopened(files, 0))
    ensures Rising(Flatten(run[k].batches))
    ensures InTime(Unopened(files, 0)) ==> InTime(Flatten(run[k].batches))
    ensures |run[k].limits| == |run[k].batches|
    ensures forall i :: 0 <= i < |run[k].batches| ==>
      forall m :: m in run[k].batches[i] ==> run[k].limits[i] == 0 || m.time <= run[k].limits[i]
  {
    RunKeepsInv(files, run, steps, next, k);
    var s := run[k];
    var played := Flatten(s.batches);
    var whole := played + Untouched(files, s.reader);
    forall i, j | 0 <= i < j < |played| ensures played[i].id < played[j].id {
      assert played[i] == whole[i] && played[j] == whole[j];
    }
    if InTime(Unopened(files, 0)) {
      SameOrder(played, Unopened(files, 0));
    }
  }

  /** From any state on, the batches to come hold only messages untouched in that state: what an earlier
      playback took, threw away or skipped is never played again. */
  lemma {:induction false} PlaysOnlyUntouched(
    files: seq<File>, run: seq<State>, steps: seq<Step>, next: nat, k: nat, n: nat)
    requires IsRun(files, run, steps, next) && k <= n < |run| && Rising(Unopened(files, 0))
    ensures |run[k].batches| <= |run[n].batches| && run[n].batches[..|run[k].batches|] == run[k].batches
    ensures Within(Flatten(run[n].batches[|run[k].batches|..]), Untouched(files, run[k].reader))
    ensures Within(Untouched(files, run[n].reader), Untouched(files, run[k].reader))
    decreases n
  {
    hide Enabled, Next, Untouched, Inv, Within;
    var earlier, now := run[k].batches, run[n].batches;
    if n == k {
      assert now[|earlier|..] == [];
      FlattenNone<Msg>();
      WithinSelf(Untouched(files, run[k].reader));
    } else {
      PlaysOnlyUntouched(files, run, steps, next, k, n - 1);
      RunKeepsInv(files, run, steps, next, n - 1);
      var more := StepPlaysUntouched(files, run[n - 1], steps[n - 1]);
      var before := run[n - 1].batches;
      assert now[|earlier|..] == before[|earlier|..] + more;
      FlattenAppend(before[|earlier|..], more);
      WithinBoth(Flatten(before[|earlier|..]), Flatten(more), Untouched(files, run[n - 1].reader),
                 Untouched(files, run[n].reader), Untouched(files, run[k].reader));
    }
  }

  lemma WithinSelf(s: seq<Msg>)
    ensures Within([], s) && Within(s, s)
  {}

  lemma WithinBoth(a: seq<Msg>, b: seq<Msg>, mid: seq<Msg>, end: seq<Msg>, whole: seq<Msg>)
    requires Within(a, whole) && Within(b, mid) && Within(end, mid) && Within(mid, whole)
    ensures Within(a + b, whole) && Within(end, whole)
  {}

  lemma StepPlaysUntouched(files: seq<File>, s: State, step: Step) returns (more: seq<seq<Msg>>)
    requires Inv(files, s) && Enabled(s, step)
    ensures
      var t := Next(files, s, step);
      && t.batches == s.batches + more && Within(Flatten(more), Untouched(files, s.reader))
      && Within(Untouched(files, t.reader), Untouched(files, s.reader))
  {
    hide Counted, Rising, Untouched, Collect, Enabled, Next;
    var f := FetchNow(files, s);
    var t := Next(files, s, step);
    ReadsOrNot(files, s, step);
    FlattenNone<Msg>();
    FlattenOne(f.records);
    var before := Flatten(s.batches);
    assert before + [] + Untouched(files, s.reader) == before + Untouched(files, s.reader);
    assert [] + Untouched(files, s.reader) == Untouched(files, s.reader);
    CollectRises(files, s.reader, s.start, s.stop, [], 0, before);
    more := t.batches[|s.batches|..];
    if t.batches != s.batches {
      assert more == [f.records];
    }
  }

  // ---------------------------------------------------------------- one whole playback

  /** Behind step k, and before state m: no other start, no stop signal, no task lost. */
  ghost predicate Undisturbed(steps: seq<Step>, k: nat, m: nat) {
    forall i :: k < i < m && i < |steps| ==> Ordinary(steps[i])
  }

  predicate Ordinary(step: Step) {
    step.StarterRuns? || step.TaskChecks? || step.TaskReads? || step.TaskFoundNothing? || step.CounterDeleter?
  }

  /** No chain has found nothing or met the stop yet. */
  ghost predicate GoingOn(s: State) {
    s.mode == Playing && s.emptied == 0 && Holders(s) > 0 && (s.starter.Calls? ==> s.starter.at != Mark)
  }

  /** All of `due` is played; in a clean bag nothing else is, or will be. */
  ghost predicate AllPlayed(
      files: seq<File>, r: Reader, start: nat, stop: nat, played: seq<Msg>, due: seq<Msg>, clean: bool)
  {
    due <= played && (clean ==> due == played && Spent(files, r, start, stop))
  }

  /** What the chains have still to play. */
  ghost predicate Remaining(files: seq<File>, r: Reader, start: nat, stop: nat, played: seq<Msg>, due: seq<Msg>) {
    due == played + PlayOut(files, r, start, stop)
  }

  /** Since the playback began it has played the front of what is due, or all of it when it does not go on.
      `clean`: its files are playable. */
  ghost predicate OnCourse(
      files: seq<File>, s: State, before: nat, start: nat, stop: nat, due: seq<Msg>, clean: bool)
  {
    && before <= |s.batches| && s.start == start && s.stop == stop
    && (clean ==> !s.pastEnd && Playable(files, s.reader, start, stop))
    && if s.pastEnd then s.mode != Ready
       else
         var played := Flatten(s.batches[before..]);
         || AllPlayed(files, s.reader, start, stop, played, due, clean)
         || (GoingOn(s) && Remaining(files, s.reader, start, stop, played, due))
  }

  /** One read: what it adds is what PlayOut says, and where that ends the chain does not go on. */
  lemma ReadOnCourse(
      files: seq<File>, r: Reader, start: nat, stop: nat, played: seq<Msg>, due: seq<Msg>, clean: bool)
    requires clean ==> Playable(files, r, start, stop)
    requires AllPlayed(files, r, start, stop, played, due, clean) || Remaining(files, r, start, stop, played, due)
    ensures
      var f := Collect(files, r, start, stop, [], 0);
      && (clean ==> !f.PastTheEnd? && Playable(files, f.reader, start, stop))
      && (|| AllPlayed(files, f.reader, start, stop, played + f.records, due, clean)
          || (&& !AllPlayed(files, r, start, stop, played, due, clean) && f.Batch? && f.records != []
              && Remaining(files, f.reader, start, stop, played + f.records, due)))
  {
    hide Collect, Playable, Spent;
    var f := Collect(files, r, start, stop, [], 0);
    if clean {
      CollectEnds(files, r, start, stop, [], 0);
    }
    if AllPlayed(files, r, start, stop, played, due, clean) {
      assert due <= played + f.records;
      if clean {
        SpentStaysSpent(files, r, start, stop);
      }
    } else if f.records != [] && f.Batch? {
      assert played + PlayOut(files, r, start, stop)
        == played + f.records + PlayOut(files, f.reader, start, stop);
    }
  }

  lemma StepOnCourse(
      files: seq<File>, s: State, step: Step, before: nat, start: nat, stop: nat, due: seq<Msg>, clean: bool)
    requires Enabled(s, step) && Ordinary(step) && Counted(s) && OnCourse(files, s, before, start, stop, due, clean)
    ensures OnCourse(files, Next(files, s, step), before, start, stop, due, clean)
  {
    hide Collect, AllPlayed, Remaining, Playable;
    if step.TaskReads? || (step.StarterRuns? && s.starter.at == Fetch) {
      ReadStepOnCourse(files, s, step, before, start, stop, due, clean);
    }
  }

  lemma ReadStepOnCourse(
      files: seq<File>, s: State, step: Step, before: nat, start: nat, stop: nat, due: seq<Msg>, clean: bool)
    requires Enabled(s, step) && Counted(s) && OnCourse(files, s, before, start, stop, due, clean)
    requires step.TaskReads? || (step.StarterRuns? && s.starter.at == Fetch)
    ensures OnCourse(files, Next(files, s, step), before, start, stop, due, clean)
  {
    hide Collect, AllPlayed, Remaining, Playable;
    var f := FetchNow(files, s);
    var played := Flatten(s.batches[before..]);
    ReadOnCourse(files, s.reader, s.start, s.stop, played, due, clean);
    if f.records == [] {
      assert played + f.records == played;
    } else {
      BatchAdded(s.batches, before, f.records);
    }
  }

  lemma BatchAdded(batches: seq<seq<Msg>>, before: nat, records: seq<Msg>)
    requires before <= |batches|
    ensures Flatten((batches + [records])[before..]) == Flatten(batches[before..]) + records
  {
    assert (batches + [records])[before..] == batches[before..] + [records];
    FlattenAppend(batches[before..], [records]);
    FlattenOne(records);
  }

  /** The run from the start of a playback to a state where it is ready again, undisturbed. */
  ghost predicate IsPlayback(files: seq<File>, run: seq<State>, steps: seq<Step>, next: nat, k: nat, m: nat) {
    && IsRun(files, run, steps, next) && k < m < |run| && steps[k].StartPlayback? && Undisturbed(steps, k, m)
  }

  ghost function Due(files: seq<File>, run: seq<State>, steps: seq<Step>, k: nat): seq<Msg>
    requires k < |run| && k < |steps| && steps[k].StartPlayback?
  {
    PlayOut(files, run[k].reader, steps[k].start, steps[k].stop)
  }

  lemma {:induction false} StaysOnCourse(
      files: seq<File>, run: seq<State>, steps: seq<Step>, next: nat, k: nat, m: nat, clean: bool)
    requires IsPlayback(files, run, steps, next, k, m) && Rising(Unopened(files, 0))
    requires clean ==> Playable(files, run[k].reader, steps[k].start, steps[k].stop)
    ensures OnCourse(files, run[m], |run[k].batches|, steps[k].start, steps[k].stop, Due(files, run, steps, k), clean)
    decreases m
  {
    hide Next, OnCourse, Inv, Enabled, Rising, Playable;
    RunKeepsInv(files, run, steps, next, m - 1);
    if m == k + 1 {
      StartsOnCourse(files, run[k], steps[k], clean);
    } else {
      StaysOnCourse(files, run, steps, next, k, m - 1, clean);
      InvCounts(files, run[m - 1]);
      StepOnCourse(files, run[m - 1], steps[m - 1], |run[k].batches|, steps[k].start, steps[k].stop,
                   Due(files, run, steps, k), clean);
    }
  }

  lemma InvCounts(files: seq<File>, s: State)
    requires Inv(files, s)
    ensures Counted(s)
  {}

  lemma StartsOnCourse(files: seq<File>, s: State, step: Step, clean: bool)
    requires Inv(files, s) && Enabled(s, step) && step.StartPlayback?
    requires clean ==> Playable(files, s.reader, step.start, step.stop)
    ensures OnCourse(files, Next(files, s, step), |s.batches|, step.start, step.stop,
                     PlayOut(files, s.reader, step.start, step.stop), clean)
  {
    hide Collect, PlayOut, Playable;
    assert s.batches[|s.batches|..] == [];
    FlattenNone<Msg>();
    var due := PlayOut(files, s.reader, step.start, step.stop);
    assert due == [] + due;
  }

  /** Whatever the schedule of its two chains: a playback that has come to its end has played, before
      anything else, all that one call after the other would play; and nothing else, if its files are
      playable. */
  lemma PlaysWhatIsDue(files: seq<File>, run: seq<State>, steps: seq<Step>, next: nat, k: nat, m: nat)
    requires IsPlayback(files, run, steps, next, k, m) && Rising(Unopened(files, 0)) && run[m].mode == Ready
    ensures |run[k].batches| <= |run[m].batches|
    ensures
      var played := Flatten(run[m].batches[|run[k].batches|..]);
      && Due(files, run, steps, k) <= played
      && (Playable(files, run[k].reader, steps[k].start, steps[k].stop) ==> Due(files, run, steps, k) == played)
  {
    hide Playable, Due;
    StaysOnCourse(files, run, steps, next, k, m, Playable(files, run[k].reader, steps[k].start, steps[k].stop));
  }

  /** Nothing rewinds: over every run, an undisturbed playback of playable files has played its whole window
      at its end if and only if nothing of that window had been taken, thrown away or skipped before. */
  lemma PlaysItsWindowIff(files: seq<File>, run: seq<State>, steps: seq<Step>, next: nat, k: nat, m: nat)
    requires IsPlayback(files, run, steps, next, k, m) && Rising(Unopened(files, 0)) && run[m].mode == Ready
    requires Playable(files, run[k].reader, steps[k].start, steps[k].stop)
    ensures |run[k].batches| <= |run[m].batches|
    ensures
      var played := Flatten(run[m].batches[|run[k].batches|..]);
      (forall w :: Wanted(files, w, steps[k].start, steps[k].stop) ==> w in played)
      <==> (forall w :: Wanted(files, w, steps[k].start, steps[k].stop) ==> w in Untouched(files, run[k].reader))
  {
    hide Wanted, Untouched, PlayOut, Collect;
    PlaysWhatIsDue(files, run, steps, next, k, m);
    PlaysWholeWindowIff(files, run[k].reader, steps[k].start, steps[k].stop);
  }

  // ---------------------------------------------------------------- stopping

  /** The calls past their check, which will still read. */
  function Entered(s: State): nat {
    s.checked + if s.starter.Calls? && s.starter.at == Fetch then 1 else 0
  }

  /** From step j on, a stop signal that found the playback playing, and no start behind it. */
  ghost predicate IsStopped(files: seq<File>, run: seq<State>, steps: seq<Step>, next: nat, j: nat, m: nat) {
    && IsRun(files, run, steps, next) && j < m < |run| && steps[j] == StopSignal && run[j].mode == Playing
    && forall i :: j < i < m ==> !steps[i].StartPlayback?
  }

  lemma StepAfterStop(files: seq<File>, s: State, step: Step)
    requires Counted(s) && Enabled(s, step) && s.mode != Playing && !step.StartPlayback?
    ensures
      var t := Next(files, s, step);
      && t.mode != Playing && t.start == s.start && t.stop == s.stop
      && |t.batches| + Entered(t) <= |s.batches| + Entered(s)
      && (PastEndIn(files, s.reader, s.start, s.stop, Entered(s)) ==>
            t.mode != Ready && (t.pastEnd || PastEndIn(files, t.reader, t.start, t.stop, Entered(t))))
  {
    if step.TaskReads? || (step.StarterRuns? && s.starter.at == Fetch) {
      ReadAfterStop(files, s, step);
    } else {
      hide Collect, PastEndIn;
    }
  }

  lemma ReadAfterStop(files: seq<File>, s: State, step: Step)
    requires Counted(s) && Enabled(s, step) && s.mode != Playing
    requires step.TaskReads? || (step.StarterRuns? && s.starter.at == Fetch)
    ensures
      var t := Next(files, s, step);
      && t.mode != Playing && t.start == s.start && t.stop == s.stop
      && |t.batches| + Entered(t) <= |s.batches| + Entered(s)
      && (PastEndIn(files, s.reader, s.start, s.stop, Entered(s)) ==>
            t.mode != Ready && (t.pastEnd || PastEndIn(files, t.reader, t.start, t.stop, Entered(t))))
  {
    hide Collect;
  }

  /** A stop signal taken while playing: the mode is not Playing again before the next start, and what is still
      played are at most the batches of the calls that were past their check, of which there are two at most. */
  lemma {:induction false} StopStops(
      files: seq<File>, run: seq<State>, steps: seq<Step>, next: nat, j: nat, m: nat)
    requires IsStopped(files, run, steps, next, j, m) && Rising(Unopened(files, 0))
    ensures run[m].mode != Playing
    ensures |run[m].batches| + Entered(run[m]) <= |run[j].batches| + Entered(run[j])
    ensures
      var s := run[j];
      Entered(s) == s.checked + (if s.starter.Calls? && s.starter.at == Fetch then 1 else 0) <= 2
    decreases m
  {
    hide Enabled, Next, Inv, Rising;
    RunKeepsInv(files, run, steps, next, m - 1);
    RunKeepsInv(files, run, steps, next, j);
    InvCounts(files, run[m - 1]);
    InvCounts(files, run[j]);
    if m == j + 1 {
      StopsAtOnce(files, run[j]);
    } else {
      StopStops(files, run, steps, next, j, m - 1);
      StepAfterStop(files, run[m - 1], steps[m - 1]);
    }
  }

  lemma StopsAtOnce(files: seq<File>, s: State)
    requires Enabled(s, StopSignal) && s.mode == Playing
    ensures Next(files, s, StopSignal) == s.(mode := Stopping)
  {}

  /** One of the next `n` reads would use the end iterator. */
  ghost predicate PastEndIn(files: seq<File>, r: Reader, start: nat, stop: nat, n: nat)
    decreases n
  {
    n > 0
    && var f := Collect(files, r, start, stop, [], 0);
       f.PastTheEnd? || PastEndIn(files, f.reader, start, stop, n - 1)
  }

  /** Steps other than a start, one behind the other. */
  ghost predicate Leads(files: seq<File>, s: State, steps: seq<Step>, end: State)
    decreases |steps|
  {
    if steps == [] then s == end
    else
      Enabled(s, steps[0]) && !steps[0].StartPlayback? && Leads(files, Next(files, s, steps[0]), steps[1..], end)
  }

  ghost predicate CanBeReady(files: seq<File>, s: State) {
    exists steps, end :: Leads(files, s, steps, end) && end.mode == Ready
  }

  /** In every state after the stop the playback can become ready for another start if and only if none of
      the calls past their check will read past the end of a file. */
  lemma ReadyAgainIff(files: seq<File>, run: seq<State>, steps: seq<Step>, next: nat, j: nat, m: nat)
    requires IsStopped(files, run, steps, next, j, m) && Rising(Unopened(files, 0)) && !run[m].pastEnd
    ensures
      var s := run[m];
      CanBeReady(files, s) <==> !PastEndIn(files, s.reader, s.start, s.stop, Entered(s))
  {
    hide Enabled, Next, Inv, Rising, PastEndIn, CanBeReady;
    StopStops(files, run, steps, next, j, m);
    RunKeepsInv(files, run, steps, next, m);
    InvCounts(files, run[m]);
    var s := run[m];
    if PastEndIn(files, s.reader, s.start, s.stop, Entered(s)) {
      NeverReady(files, s);
    } else {
      GetsReady(files, s);
    }
  }

  lemma NeverReady(files: seq<File>, s: State)
    requires Counted(s) && s.mode != Playing && !s.pastEnd
    requires PastEndIn(files, s.reader, s.start, s.stop, Entered(s))
    ensures !CanBeReady(files, s)
  {
    forall steps, end | Leads(files, s, steps, end) ensures end.mode != Ready {
      StaysUnready(files, s, steps, end);
    }
  }

  lemma {:induction false} StaysUnready(files: seq<File>, s: State, steps: seq<Step>, end: State)
    requires Counted(s) && s.mode != Playing && Leads(files, s, steps, end)
    requires s.mode != Ready && (s.pastEnd || PastEndIn(files, s.reader, s.start, s.stop, Entered(s)))
    ensures end.mode != Ready
    decreases |steps|
  {
    hide Next, PastEndIn, Counted, Entered;
    if steps != [] {
      StepKeepsCounted(files, s, steps[0]);
      StepAfterStop(files, s, steps[0]);
      StaysUnready(files, Next(files, s, steps[0]), steps[1..], end);
    }
  }

  /** How far the playback is from being ready. */
  function Far(s: State): nat {
    2 * s.checked + s.queued + s.emptied
    + (if s.starter.Calls? then s.starter.left + (if s.starter.at == Fetch then 2 else 0) else 0)
    + (if s.mode == Ready then 0 else if s.releasing then 1 else 2)
  }

  function Nearer(s: State): Step {
    if s.releasing then CounterDeleter
    else if s.emptied > 0 then TaskFoundNothing
    else if s.queued > 0 then TaskChecks
    else if s.checked > 0 then TaskReads
    else StarterRuns
  }

  lemma StepsNearer(files: seq<File>, s: State)
    requires Counted(s) && s.mode == Stopping && !s.pastEnd
    requires !PastEndIn(files, s.reader, s.start, s.stop, Entered(s))
    ensures Enabled(s, Nearer(s)) && !Nearer(s).StartPlayback?
    ensures
      var t := Next(files, s, Nearer(s));
      Far(t) < Far(s) && !t.pastEnd && !PastEndIn(files, t.reader, t.start, t.stop, Entered(t))
  {
    hide Collect;
  }

  lemma {:induction false} GetsReady(files: seq<File>, s: State)
    requires Counted(s) && s.mode != Playing && !s.pastEnd
    requires !PastEndIn(files, s.reader, s.start, s.stop, Entered(s))
    ensures CanBeReady(files, s)
    decreases Far(s)
  {
    hide Next, Enabled, PastEndIn, Counted, Entered, Far;
    if s.mode == Ready {
      assert Leads(files, s, [], s);
    } else {
      var step := Nearer(s);
      StepsNearer(files, s);
      StepKeepsCounted(files, s, step);
      StepAfterStop(files, s, step);
      GetsReady(files, Next(files, s, step));
      var steps, end :| Leads(files, Next(files, s, step), steps, end) && end.mode == Ready;
      assert ([step] + steps)[1..] == steps;
      assert Leads(files, s, [step] + steps, end);
    }
  }

  // ---------------------------------------------------------------- a file that cannot be read

  function Logged(id: nat, seconds: nat): Msg {
    Msg(id, 1 + seconds * ONE_SECOND, true)
  }

  /** Two batches in the first file, a second file that cannot be read, one message in the third. */
  function GappedBag(): seq<File> {
    var first := [Logged(0, 0), Logged(1, 1), Logged(2, 2), Logged(3, 3)];
    [File(0, true, first), File(0, false, []), File(0, true, [Logged(4, 4)])]
  }

  lemma GappedOpens()
    ensures
      var files := GappedBag();
      && Open(files, Reader(0, []), 0, 0) == (Reader(1, [Logged(0, 0), Logged(1, 1), Logged(2, 2), Logged(3, 3)]), true)
      && Open(files, Reader(1, []), 0, 0) == (Reader(2, []), false)
      && Open(files, Reader(2, []), 0, 0) == (Reader(3, [Logged(4, 4)]), true)
      && Open(files, Reader(3, []), 0, 0) == (Reader(3, []), false)
  {
    WindowIsAll(GappedBag()[0].msgs);
    WindowIsAll(GappedBag()[2].msgs);
  }

  lemma GappedReads()
    ensures
      var files := GappedBag();
      var r1 := Reader(1, [Logged(2, 2), Logged(3, 3)]);
      && Collect(files, Reader(0, []), 0, 0, [], 0) == Batch(r1, [Logged(0, 0), Logged(1, 1)])
      && Collect(files, r1, 0, 0, [], 0) == Batch(Reader(1, []), [Logged(2, 2), Logged(3, 3)])
      && Collect(files, Reader(1, []), 0, 0, [], 0) == Batch(Reader(2, []), [])
      && Collect(files, Reader(2, []), 0, 0, [], 0) == Batch(Reader(3, []), [Logged(4, 4)])
  {
    hide Open, GappedBag;
    GappedOpens();
    var files := GappedBag();
    var a, b, c, d := Logged(0, 0), Logged(1, 1), Logged(2, 2), Logged(3, 3);
    TakesTwo(files, Reader(1, [a, b, c, d]), a, b, [c, d]);
    TakesTwo(files, Reader(1, [c, d]), c, d, []);
    TakesLast(files, Reader(3, [Logged(4, 4)]), Logged(4, 4));
    hide Collect;
    Opens(files, Reader(0, []), Reader(1, [a, b, c, d]));
    Opens(files, Reader(2, []), Reader(3, [Logged(4, 4)]));
    NoMore(files, Reader(1, []), Reader(2, []));
  }

  lemma Opens(files: seq<File>, r: Reader, now: Reader)
    requires r.rest == [] && now.rest != [] && Open(files, r, 0, 0) == (now, true)
    ensures Collect(files, r, 0, 0, [], 0) == Collect(files, now, 0, 0, [], 0)
  {}

  lemma NoMore(files: seq<File>, r: Reader, now: Reader)
    requires r.rest == [] && Open(files, r, 0, 0) == (now, false)
    ensures Collect(files, r, 0, 0, [], 0) == Batch(now, [])
  {}

  lemma TakesLast(files: seq<File>, r: Reader, m: Msg)
    requires r.rest == [m] && Open(files, r.(rest := []), 0, 0) == (r.(rest := []), false)
    ensures Collect(files, r, 0, 0, [], 0) == Batch(r.(rest := []), [m])
  {
    var left := r.(rest := r.rest[1..]);
    assert left.rest == [] && [] + [m] == [m];
    assert Collect(files, left, 0, 0, [m], m.time) == Batch(left, [m]);
  }

  lemma {:induction false} WindowIsAll(s: seq<Msg>)
    requires forall m :: m in s ==> m.wanted
    ensures Window(s, 0, 0) == s
  {
    if s != [] {
      WindowIsAll(s[1..]);
    }
  }

  lemma TakesTwo(files: seq<File>, r: Reader, a: Msg, b: Msg, rest: seq<Msg>)
    requires r.rest == [a, b] + rest && 0 < a.time && b.time == a.time + ONE_SECOND
    ensures Collect(files, r, 0, 0, [], 0) == Batch(r.(rest := rest), [a, b])
  {
    var left := r.(rest := r.rest[1..]);
    assert left.rest[0] == b && left.rest[1..] == rest;
    assert [] + [a] == [a] && [a] + [b] == [a, b];
    assert Collect(files, left, 0, 0, [a], a.time) == Batch(r.(rest := rest), [a, b]);
  }

  lemma GappedDue()
    ensures PlayOut(GappedBag(), Reader(0, []), 0, 0) == [Logged(0, 0), Logged(1, 1), Logged(2, 2), Logged(3, 3)]
  {
    hide Collect;
    GappedReads();
    var files := GappedBag();
    assert PlayOut(files, Reader(1, []), 0, 0) == [];
    assert PlayOut(files, Reader(1, [Logged(2, 2), Logged(3, 3)]), 0, 0) == [Logged(2, 2), Logged(3, 3)];
  }

  /** The starter reads both batches of the first file. */
  lemma GappedStart() returns (run: seq<State>)
    ensures |run| == 6 && run[0] == Init(0)
    ensures Enabled(run[0], StartPlayback(0, 0)) && run[1] == Next(GappedBag(), run[0], StartPlayback(0, 0))
    ensures forall i :: 1 <= i < 5 ==>
      Enabled(run[i], StarterRuns) && run[i + 1] == Next(GappedBag(), run[i], StarterRuns)
    ensures run[5] == State(Playing, 0, 0, Idle, 2, 0, 0, false, Reader(1, []),
                            [[Logged(0, 0), Logged(1, 1)], [Logged(2, 2), Logged(3, 3)]], [0, 0], false)
  {
    hide Collect, GappedBag;
    GappedReads();
    var files := GappedBag();
    var b1, b2 := [Logged(0, 0), Logged(1, 1)], [Logged(2, 2), Logged(3, 3)];
    var s0 := Init(0);
    var s1 := Next(files, s0, StartPlayback(0, 0));
    var s2 := Next(files, s1, StarterRuns);
    var s3 := Next(files, s2, StarterRuns);
    assert s3 == State(Playing, 0, 0, Calls(1, Check), 1, 0, 0, false, Reader(1, b2), [b1], [0], false);
    var s4 := Next(files, s3, StarterRuns);
    var s5 := Next(files, s4, StarterRuns);
    assert s5 == State(Playing, 0, 0, Idle, 2, 0, 0, false, Reader(1, []), [b1, b2], [0, 0], false);
    run := [s0, s1, s2, s3, s4, s5];
  }

  const LATER: seq<Step> :=
    [TaskChecks, TaskChecks, TaskReads, TaskReads, TaskFoundNothing, TaskChecks, CounterDeleter]

  /** Both chains pass their check; the first finds nothing, the second goes on. */
  lemma GappedEnd(s: State) returns (run: seq<State>)
    requires s.mode == Playing && s.start == s.stop == 0 && s.starter == Idle && s.queued == 2
    requires s.checked == s.emptied == 0 && !s.releasing && s.reader == Reader(1, []) && !s.pastEnd
    ensures |run| == 8 && run[0] == s
    ensures forall i :: 0 <= i < 7 ==> Enabled(run[i], LATER[i]) && run[i + 1] == Next(GappedBag(), run[i], LATER[i])
    ensures run[7].mode == Ready && run[7].batches == s.batches + [[Logged(4, 4)]]
  {
    hide Collect, GappedBag;
    GappedReads();
    var files := GappedBag();
    var s1 := Next(files, s, TaskChecks);
    var s2 := Next(files, s1, TaskChecks);
    var s3 := Next(files, s2, TaskReads);
    assert s3 == s.(queued := 0, checked := 1, emptied := 1, reader := Reader(2, []));
    var s4 := Next(files, s3, TaskReads);
    assert s4 == s3.(queued := 1, checked := 0, reader := Reader(3, []), batches := s.batches + [[Logged(4, 4)]],
                     limits := s.limits + [0]);
    var s5 := Next(files, s4, TaskFoundNothing);
    var s6 := Next(files, s5, TaskChecks);
    run := [s, s1, s2, s3, s4, s5, s6, Next(files, s6, CounterDeleter)];
  }

  /** Why the files must be playable: in front of a file that cannot be read the chain that comes first ends,
      but the other one, if it has passed its check, goes on behind that file. */
  lemma GoesOnBehindTheGap() returns (run: seq<State>, steps: seq<Step>)
    ensures IsPlayback(GappedBag(), run, steps, 0, 0, 12) && run[12].mode == Ready
    ensures Flatten(run[12].batches) == Due(GappedBag(), run, steps, 0) + [Logged(4, 4)]
  {
    hide Collect, PlayOut, Next, Enabled, GappedBag;
    GappedDue();
    var first := GappedStart();
    var last := GappedEnd(first[5]);
    run := first + last[1..];
    steps := [StartPlayback(0, 0), StarterRuns, StarterRuns, StarterRuns, StarterRuns] + LATER;
    forall i | 0 <= i < 12 ensures Enabled(run[i], steps[i]) && run[i + 1] == Next(GappedBag(), run[i], steps[i]) {
      if i >= 5 {
        assert run[i] == last[i - 5] && steps[i] == LATER[i - 5];
      }
    }
    var b1, b2 := [Logged(0, 0), Logged(1, 1)], [Logged(2, 2), Logged(3, 3)];
    FlattenAppend([b1, b2], [[Logged(4, 4)]]);
    FlattenAppend([b1], [b2]);
    FlattenOne(b1);
    FlattenOne(b2);
    FlattenOne([Logged(4, 4)]);
    assert [b1] + [b2] == [b1, b2];
  }

  /** How long a batch can get, for any bag and any position in it. */
  lemma BatchLimit(files: seq<File>, s: State)
    ensures
      var a := Available(files, s.reader, s.start, s.stop);
      |FetchNow(files, s).records| > 1000 <==>
        |a| > 1000 && AllZero(a, 999) && NonePast(a, 1001, s.stop)
  {
    BatchIsPrefix(files, s.reader, s.start, s.stop, [], 0);
    OverlongIff(Available(files, s.reader, s.start, s.stop), s.stop);
  }

  // ---------------------------------------------------------------- the action object

  class PlaybackAction {
    const files: seq<File>
    var mode: Mode
    var startTimestamp: nat
    var stopTimestamp: nat
    var reader: Reader
    var starter: Starter
    ghost var queued: nat
    ghost var checked: nat
    ghost var emptied: nat
    ghost var releasing: bool
    ghost var batches: seq<seq<Msg>>
    ghost var limits: seq<nat>
    ghost var pastEnd: bool

    ghost function View(): State
      reads this
    {
      State(mode, startTimestamp, stopTimestamp, starter, queued, checked, emptied, releasing, reader, batches, limits,
          pastEnd)
    }

    constructor (files: seq<File>, next: nat)
      ensures this.files == files && View() == Init(next)
    {
      this.files := files;
      mode, startTimestamp, stopTimestamp, reader := Ready, 0, 0, Reader(next, []);
      starter, queued, checked, emptied, releasing := Idle, 0, 0, 0, false;
      batches, limits, pastEnd := [], [], false;
    }

    /** The durations are in seconds; zero means to the end. Times are 64-bit nanoseconds and wrap round. */
    method StartSignalPlayback(bagStart: nat, skipSeconds: nat, playSeconds: nat) returns (accepted: bool)
      requires !pastEnd
      modifies this
      ensures accepted <==> old(mode) == Ready
      ensures !accepted ==> View() == old(View())
      ensures accepted ==>
        var start := (bagStart + skipSeconds * 1_000_000_000) % 0x1_0000_0000_0000_0000;
        var stop :=
          if playSeconds == 0 then 0 else (start + playSeconds * 1_000_000_000) % 0x1_0000_0000_0000_0000;
        && View() == Next(files, old(View()), StartPlayback(start, stop))
        && mode == Playing && startTimestamp == start && stopTimestamp == stop
        && reader == old(reader) && batches == old(batches)
    {
      if mode != Ready {
        return false;
      }
      mode := Playing;
      startTimestamp := (bagStart + skipSeconds * ONE_SECOND) % UINT64;
      stopTimestamp := if playSeconds == 0 then 0 else (startTimestamp + playSeconds * ONE_SECOND) % UINT64;
      starter := Calls(2, Check);
      return true;
    }

    method StopSignalPlayback()
      requires !pastEnd
      modifies this`mode
      ensures View() == Next(files, old(View()), StopSignal)
      ensures mode == if old(mode) == Playing then Stopping else old(mode)
    {
      if mode == Playing {
        mode := Stopping;
      }
    }

    /** One critical section of the two calls that StartPlaybackImpl makes itself. */
    method RunStarter()
      requires Enabled(View(), StarterRuns)
      modifies this
      ensures View() == Next(files, old(View()), StarterRuns)
    {
      hide Collect;
      match starter.at {
        case Check =>
          if mode == Stopping {
            EndCall();
          } else {
            starter := Calls(starter.left, Fetch);
          }
        case Fetch =>
          var records := LockedRead();
          if records == [] {
            starter := Calls(starter.left, Mark);
          } else {
            queued := queued + 1;
            EndCall();
          }
        case Mark =>
          mode := Stopping;
          EndCall();
      }
    }

    method EndCall()
      requires starter.Calls? && starter.left > 0
      modifies this`starter, this`releasing
      ensures View() == CallOver(old(View()))
    {
      if starter.left == 1 {
        starter := Idle;
        DropCounter();
      } else {
        starter := Calls(starter.left - 1, Check);
      }
    }

    /** What AddPlaybackTasks does while it holds the bag's mutex. */
    method LockedRead() returns (records: seq<Msg>)
      modifies this`reader, this`pastEnd, this`mode, this`batches, this`limits
      ensures
        var f := Collect(files, old(reader), startTimestamp, stopTimestamp, [], 0);
        && records == f.records && reader == f.reader
        && mode == (if f.Stopped? then Stopping else old(mode))
        && batches == (if records == [] || f.PastTheEnd? then old(batches) else old(batches) + [records])
      ensures records == FetchNow(files, old(View())).records
      ensures View() == ReadBatch(old(View()), FetchNow(files, old(View())))
    {
      hide Collect;
      var f := FetchBatch(files, reader, startTimestamp, stopTimestamp);
      reader, pastEnd, records := f.reader, f.PastTheEnd?, f.records;
      mode := if f.Stopped? then Stopping else mode;
      if records != [] && !f.PastTheEnd? {
        batches := batches + [records];
        limits := limits + [stopTimestamp];
      }
    }

    /** The first critical section of a continuation task. */
    method CheckMode() returns (goOn: bool)
      requires Enabled(View(), TaskChecks)
      modifies this`queued, this`checked, this`releasing
      ensures View() == Next(files, old(View()), TaskChecks)
      ensures goOn == (old(mode) != Stopping) && mode == old(mode)
    {
      goOn := mode != Stopping;
      queued := queued - 1;
      if goOn {
        checked := checked + 1;
      } else {
        DropCounter();
      }
    }

    /** Its second one, under the bag's mutex. */
    method ReadNextBatch() returns (records: seq<Msg>)
      requires Enabled(View(), TaskReads)
      modifies this`reader, this`pastEnd, this`mode, this`checked, this`emptied, this`queued, this`batches, this`limits
      ensures View() == Next(files, old(View()), TaskReads)
      ensures records == FetchNow(files, old(View())).records
    {
      hide Collect, FetchNow, ReadBatch;
      records := LockedRead();
      checked := checked - 1;
      if records == [] {
        emptied := emptied + 1;
      } else {
        queued := queued + 1;
      }
    }

    method FoundNothing()
      requires Enabled(View(), TaskFoundNothing)
      modifies this
      ensures View() == Next(files, old(View()), TaskFoundNothing) && mode == Stopping
    {
      mode := Stopping;
      emptied := emptied - 1;
      DropCounter();
    }

    ghost method DropCounter()
      modifies this`releasing
      ensures View() == Dropped(old(View()))
    {
      if Holders(View()) == 0 {
        releasing := true;
      }
    }

    /** The shared counter's deleter. */
    method Deleter()
      requires Enabled(View(), CounterDeleter)
      modifies this`mode, this`releasing
      ensures View() == Next(files, old(View()), CounterDeleter) && mode == Ready
    {
      mode := Ready;
      releasing := false;
    }
  }
}
