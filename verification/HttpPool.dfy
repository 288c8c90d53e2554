/** The session pool of the HTTP client. The scan for a session runs on the manager strand, one at a time;
    requests, timers and shutdowns on other strands interleave with every atomic access it makes. */
module HttpPool {

  /** `running`: state_ is kStart. `inFlight`: the requests that were given this session and have not
      finished with it. */
  datatype Session = Session(running: bool, idle: bool, inFlight: set<nat>)

  datatype At = Look | Exchange | Load(wasIdle: bool)

  datatype Scan = NoScan | Scanning(request: nat, pos: nat, at: At)

  datatype State = State(
    maxSessionNum: nat, open: bool, cleared: bool, list: seq<nat>, sessions: seq<Session>,
    scan: Scan, requests: nat, refused: set<nat>)

  datatype Step =
    | Request
    | ScanStep
    | SessionShutdown(s: nat)
    | Succeed(s: nat, r: nat)
    | GiveUp(s: nat, r: nat)
    | ClientShutdown
    | ClientTask

  function Init(maxSessionNum: nat): State {
    State(maxSessionNum, true, false, [], [], NoScan, 0, {})
  }

  predicate Enabled(p: State, step: Step) {
    match step
    case Request => p.scan.NoScan?
    case ScanStep => p.scan.Scanning? && ScanInRange(p)
    case SessionShutdown(s) => s < |p.sessions|
    case Succeed(s, r) => s < |p.sessions| && r in p.sessions[s].inFlight
    case GiveUp(s, r) => s < |p.sessions| && r in p.sessions[s].inFlight && !p.sessions[s].running
    case ClientShutdown => true
    case ClientTask => !p.open && !p.cleared && p.scan.NoScan?
  }

  predicate ScanInRange(p: State)
    requires p.scan.Scanning?
  {
    p.scan.pos < |p.list| ==> p.list[p.scan.pos] < |p.sessions|
  }

  function Stopped(sessions: seq<Session>, list: seq<nat>): seq<Session> {
    seq(|sessions|, i requires 0 <= i < |sessions| => if i in list then sessions[i].(running := false) else sessions[i])
  }

  function Set(p: State, s: nat, session: Session): State
    requires s < |p.sessions|
  {
    p.(sessions := p.sessions[s := session])
  }

  /** The scan found no session: a new one is listed with the request on it. */
  function Grown(p: State): State
    requires p.scan.Scanning?
  {
    var created := Session(true, false, {p.scan.request});
    p.(scan := NoScan, list := p.list + [|p.sessions|], sessions := p.sessions + [created])
  }

  /** One atomic access of the loop over the list, or what follows it. */
  function ScanNext(p: State): State
    requires p.scan.Scanning? && ScanInRange(p)
  {
    var r, pos := p.scan.request, p.scan.pos;
    if pos >= |p.list| then
      if |p.list| < p.maxSessionNum then Grown(p)
      else p.(scan := NoScan, refused := p.refused + {r})
    else
      var s := p.list[pos];
      var it := p.sessions[s];
      match p.scan.at
      case Look =>
        if it.running then p.(scan := p.scan.(at := Exchange))
        else p.(list := p.list[..pos] + p.list[pos + 1..])
      case Exchange => Set(p, s, it.(idle := false)).(scan := p.scan.(at := Load(it.idle)))
      case Load(wasIdle) =>
        if wasIdle && it.running then Set(p, s, it.(inFlight := it.inFlight + {r})).(scan := NoScan)
        else p.(scan := Scanning(r, pos + 1, Look))
  }

  function Next(p: State, step: Step): State
    requires Enabled(p, step)
  {
    match step
    case Request =>
      var q := p.(requests := p.requests + 1);
      if p.open then q.(scan := Scanning(p.requests, 0, Look)) else q.(refused := p.refused + {p.requests})
    case ScanStep => ScanNext(p)
    case SessionShutdown(s) => Set(p, s, p.sessions[s].(running := false))
    case Succeed(s, r) => Set(p, s, p.sessions[s].(idle := true, inFlight := p.sessions[s].inFlight - {r}))
    case GiveUp(s, r) => Set(p, s, p.sessions[s].(inFlight := p.sessions[s].inFlight - {r}))
    case ClientShutdown => p.(open := false)
    case ClientTask => p.(cleared := true, list := [], sessions := Stopped(p.sessions, p.list))
  }

  // ---------------------------------------------------------------- the invariant

  /** An idle session, or one the scan has just claimed, carries nothing; no session carries two. */
  ghost predicate OneEach(p: State) {
    && (forall s :: 0 <= s < |p.sessions| && p.sessions[s].idle ==> p.sessions[s].inFlight == {})
    && (forall s :: 0 <= s < |p.sessions| ==> |p.sessions[s].inFlight| <= 1)
    && (p.scan.Scanning? && p.scan.at == Load(true) && p.scan.pos < |p.list| && p.list[p.scan.pos] < |p.sessions| ==>
          Claimed(p.sessions[p.list[p.scan.pos]]))
  }

  predicate Claimed(s: Session) {
    !s.idle && s.inFlight == {}
  }

  ghost predicate ListFits(p: State) {
    && |p.list| <= p.maxSessionNum
    && (forall i, j :: 0 <= i < j < |p.list| ==> p.list[i] != p.list[j])
    && (forall i :: 0 <= i < |p.list| ==> p.list[i] < |p.sessions|)
    && (forall s :: 0 <= s < |p.sessions| && p.sessions[s].running ==> s in p.list)
  }

  /** Each request is with one session at most, and a new one with none. */
  ghost predicate RequestsFit(p: State) {
    && (forall s, r :: 0 <= s < |p.sessions| && r in p.sessions[s].inFlight ==> r < p.requests)
    && (p.scan.Scanning? ==>
          p.scan.request < p.requests
          && p.scan.request !in p.refused
          && forall s :: 0 <= s < |p.sessions| ==> p.scan.request !in p.sessions[s].inFlight)
    && (forall s, u, r ::
          0 <= s < |p.sessions|
          && 0 <= u < |p.sessions|
          && r in p.sessions[s].inFlight
          && r in p.sessions[u].inFlight ==>
            s == u)
    && (forall r ::
          r in p.refused ==> r < p.requests && forall s :: 0 <= s < |p.sessions| ==> r !in p.sessions[s].inFlight)
  }

  ghost predicate ClosedForGood(p: State) {
    p.cleared ==> !p.open && p.list == [] && p.scan.NoScan?
  }

  ghost predicate Inv(p: State) {
    OneEach(p) && ListFits(p) && RequestsFit(p) && ClosedForGood(p)
  }

  /** One session changed, the list and the scan's place not. */
  ghost predicate Replaceable(p: State, s: nat, it: Session) {
    && s < |p.sessions| && (it.idle ==> it.inFlight == {}) && |it.inFlight| <= 1
    && (it.running ==> p.sessions[s].running) && it.inFlight <= p.sessions[s].inFlight
    && (Claimed(p.sessions[s]) ==> Claimed(it))
  }

  lemma ReplaceKeeps(p: State, s: nat, it: Session)
    requires Inv(p) && Replaceable(p, s, it)
    ensures Inv(Set(p, s, it))
  {
    var q := Set(p, s, it);
    assert OneEach(q);
    assert ListFits(q);
    assert RequestsFit(q);
  }

  lemma EraseKeeps(p: State, pos: nat)
    requires Inv(p) && p.scan.Scanning? && p.scan.at == Look && pos < |p.list| && !p.sessions[p.list[pos]].running
    ensures Inv(p.(list := p.list[..pos] + p.list[pos + 1..]))
  {
    var q := p.(list := p.list[..pos] + p.list[pos + 1..]);
    hide OneEach, RequestsFit;
    assert ListFits(q) by {
      forall s | 0 <= s < |q.sessions| && q.sessions[s].running ensures s in q.list {
        var i :| 0 <= i < |p.list| && p.list[i] == s;
        assert s == if i < pos then q.list[i] else q.list[i - 1];
      }
    }
    SameSessions(p, q);
  }

  lemma SameSessions(p: State, q: State)
    requires OneEach(p) && RequestsFit(p) && q == p.(list := q.list) && (p.scan.Scanning? ==> p.scan.at == Look)
    ensures OneEach(q) && RequestsFit(q)
  {}

  lemma CreateKeeps(p: State)
    requires Inv(p) && p.scan.Scanning? && |p.list| < p.maxSessionNum
    ensures Inv(Grown(p))
  {
    var q := Grown(p);
    hide OneEach, ListFits, RequestsFit;
    assert OneEach(q) by {
      CreateKeepsOneEach(p, q);
    }
    assert ListFits(q) by {
      CreateKeepsList(p, q);
    }
    assert RequestsFit(q) by {
      CreateKeepsRequests(p, q);
    }
  }

  lemma CreateKeepsOneEach(p: State, q: State)
    requires OneEach(p) && q.scan == NoScan && exists r :: q.sessions == p.sessions + [Session(true, false, {r})]
    ensures OneEach(q)
  {}

  lemma CreateKeepsList(p: State, q: State)
    requires ListFits(p) && |p.list| < p.maxSessionNum == q.maxSessionNum
    requires
      q.list == p.list + [|p.sessions|] && |q.sessions| == |p.sessions| + 1 && q.sessions[..|p.sessions|] == p.sessions
    ensures ListFits(q)
  {
    assert q.list[|p.list|] == |p.sessions|;
    forall s | 0 <= s < |q.sessions| && q.sessions[s].running ensures s in q.list {
      if s < |p.sessions| {
        assert q.sessions[s] == q.sessions[..|p.sessions|][s] == p.sessions[s];
      }
    }
  }

  lemma CreateKeepsRequests(p: State, q: State)
    requires
      RequestsFit(p) && p.scan.Scanning? && q.scan == NoScan && q.requests == p.requests && q.refused == p.refused
    requires q.sessions == p.sessions + [Session(true, false, {p.scan.request})]
    ensures RequestsFit(q)
  {}

  /** The exchange of the flag claims the session, if it was idle. */
  lemma ExchangeKeeps(p: State)
    requires Inv(p) && p.scan.Scanning? && p.scan.pos < |p.list|
    ensures p.list[p.scan.pos] < |p.sessions|
    ensures
      var s := p.list[p.scan.pos];
      var it := p.sessions[s];
      Inv(Set(p, s, it.(idle := false)).(scan := p.scan.(at := Load(it.idle))))
  {
    var s := p.list[p.scan.pos];
    ReplaceKeeps(p, s, p.sessions[s].(idle := false));
    var q := Set(p, s, p.sessions[s].(idle := false));
    hide ListFits;
    var t := q.(scan := p.scan.(at := Load(p.sessions[s].idle)));
    assert OneEach(t);
    assert RequestsFit(t);
    OnlyScan(q, t);
  }

  lemma OnlyScan(p: State, q: State)
    requires ListFits(p) && q == p.(scan := q.scan)
    ensures ListFits(q)
  {}

  lemma HandOutKeeps(p: State)
    requires Inv(p) && p.scan.Scanning? && p.scan.at == Load(true) && p.scan.pos < |p.list|
    ensures p.list[p.scan.pos] < |p.sessions|
    ensures
      var s := p.list[p.scan.pos];
      var it := p.sessions[s];
      Inv(Set(p, s, it.(inFlight := it.inFlight + {p.scan.request})).(scan := NoScan))
  {
    var s := p.list[p.scan.pos];
    var it := p.sessions[s];
    assert Claimed(it);
    var q := Set(p, s, it.(inFlight := it.inFlight + {p.scan.request})).(scan := NoScan);
    assert it.inFlight + {p.scan.request} == {p.scan.request};
    assert OneEach(q);
    assert ListFits(q);
    assert RequestsFit(q);
  }

  lemma ScanKeepsInv(p: State)
    requires Inv(p) && Enabled(p, ScanStep)
    ensures Inv(ScanNext(p))
  {
    hide OneEach, ListFits, RequestsFit;
    var r, pos := p.scan.request, p.scan.pos;
    if pos >= |p.list| {
      if |p.list| < p.maxSessionNum {
        CreateKeeps(p);
      } else {
        RefusedKeeps(p);
      }
    } else {
      match p.scan.at
      case Look =>
        if p.sessions[p.list[pos]].running {
          LookingKeeps(p, p.scan.(at := Exchange));
        } else {
          EraseKeeps(p, pos);
        }
      case Exchange => ExchangeKeeps(p);
      case Load(wasIdle) =>
        if wasIdle && p.sessions[p.list[pos]].running {
          HandOutKeeps(p);
        } else {
          LookingKeeps(p, Scanning(r, pos + 1, Look));
        }
    }
  }

  lemma RefusedKeeps(p: State)
    requires Inv(p) && p.scan.Scanning?
    ensures Inv(p.(scan := NoScan, refused := p.refused + {p.scan.request}))
  {}

  lemma LookingKeeps(p: State, scan: Scan)
    requires Inv(p) && p.scan.Scanning? && scan.Scanning? && scan.request == p.scan.request && !scan.at.Load?
    ensures Inv(p.(scan := scan))
  {}

  lemma RequestKeeps(p: State)
    requires Inv(p) && p.scan.NoScan?
    ensures Inv(Next(p, Request))
  {
    hide ListFits;
    var q := Next(p, Request);
    assert OneEach(q);
    assert RequestsFit(q);
    assert ListFits(q) by {
      SameList(p, q);
    }
  }

  lemma SameList(p: State, q: State)
    requires ListFits(p) && q.list == p.list && q.sessions == p.sessions && q.maxSessionNum == p.maxSessionNum
    ensures ListFits(q)
  {}

  lemma TaskKeeps(p: State)
    requires Inv(p) && Enabled(p, ClientTask)
    ensures Inv(Next(p, ClientTask))
  {
    var q := Next(p, ClientTask);
    assert OneEach(q);
    assert ListFits(q);
    assert RequestsFit(q);
  }

  lemma ClientShutdownKeeps(p: State)
    requires Inv(p)
    ensures Inv(p.(open := false))
  {}

  lemma Leaves(p: State, s: nat, r: nat)
    requires Inv(p) && s < |p.sessions| && r in p.sessions[s].inFlight
    ensures p.sessions[s].inFlight - {r} == {}
  {
    assert |p.sessions[s].inFlight - {r}| == |p.sessions[s].inFlight| - 1;
  }

  lemma StepKeepsInv(p: State, step: Step)
    requires Inv(p) && Enabled(p, step)
    ensures Inv(Next(p, step))
  {
    hide Inv, ScanNext, Stopped;
    match step
    case Request => RequestKeeps(p);
    case ScanStep => ScanKeepsInv(p);
    case SessionShutdown(s) =>
      CanReplace(p, s);
      ReplaceKeeps(p, s, p.sessions[s].(running := false));
    case Succeed(s, r) =>
      Leaves(p, s, r);
      CanReplace(p, s);
      ReplaceKeeps(p, s, p.sessions[s].(idle := true, inFlight := p.sessions[s].inFlight - {r}));
    case GiveUp(s, r) =>
      Leaves(p, s, r);
      CanReplace(p, s);
      ReplaceKeeps(p, s, p.sessions[s].(inFlight := p.sessions[s].inFlight - {r}));
    case ClientShutdown => ClientShutdownKeeps(p);
    case ClientTask => TaskKeeps(p);
  }

  lemma CanReplace(p: State, s: nat)
    requires Inv(p) && s < |p.sessions|
    ensures (p.sessions[s].idle ==> p.sessions[s].inFlight == {}) && |p.sessions[s].inFlight| <= 1
  {}

  // ---------------------------------------------------------------- runs

  ghost predicate IsRun(run: seq<State>, steps: seq<Step>, maxSessionNum: nat) {
    && |run| == |steps| + 1 && run[0] == Init(maxSessionNum)
    && forall i :: 0 <= i < |steps| ==> Enabled(run[i], steps[i]) && run[i + 1] == Next(run[i], steps[i])
  }

  lemma {:induction false} RunKeepsInv(run: seq<State>, steps: seq<Step>, maxSessionNum: nat, k: nat)
    requires IsRun(run, steps, maxSessionNum) && k < |run|
    ensures Inv(run[k]) && run[k].maxSessionNum == maxSessionNum
    decreases k
  {
    hide Inv, Enabled, Next;
    if k == 0 {
      InitInv(maxSessionNum);
    } else {
      RunKeepsInv(run, steps, maxSessionNum, k - 1);
      StepKeepsInv(run[k - 1], steps[k - 1]);
      MaxStays(run[k - 1], steps[k - 1]);
    }
  }

  lemma InitInv(maxSessionNum: nat)
    ensures Inv(Init(maxSessionNum))
  {}

  lemma MaxStays(p: State, step: Step)
    requires Enabled(p, step)
    ensures Next(p, step).maxSessionNum == p.maxSessionNum
  {}

  /** In every reachable state: one request to a session, none to an idle one, no request with two
      sessions, the list within its limit, and no running session outside the list. */
  lemma PoolIsSafe(run: seq<State>, steps: seq<Step>, maxSessionNum: nat, k: nat)
    requires IsRun(run, steps, maxSessionNum) && k < |run|
    ensures
      forall s ::
        0 <= s < |run[k].sessions| ==>
          |run[k].sessions[s].inFlight| <= 1 && (run[k].sessions[s].idle ==> run[k].sessions[s].inFlight == {})
    ensures
      forall s, u, r ::
        0 <= s < |run[k].sessions|
        && 0 <= u < |run[k].sessions|
        && r in run[k].sessions[s].inFlight
        && r in run[k].sessions[u].inFlight ==>
          s == u
    ensures |run[k].list| <= maxSessionNum
    ensures forall s :: 0 <= s < |run[k].sessions| && run[k].sessions[s].running ==> s in run[k].list
    ensures run[k].cleared ==> run[k].list == []
  {
    hide Next, Enabled, IsRun;
    RunKeepsInv(run, steps, maxSessionNum, k);
  }

  /** A session that was shut down stays so and gets no further request, however the steps fall. */
  lemma {:induction false} ShutdownIsFinal(
      run: seq<State>, steps: seq<Step>, maxSessionNum: nat, k: nat, m: nat, s: nat)
    requires IsRun(run, steps, maxSessionNum) && k <= m < |run| && s < |run[k].sessions| && !run[k].sessions[s].running
    ensures
      s < |run[m].sessions| && !run[m].sessions[s].running && run[m].sessions[s].inFlight <= run[k].sessions[s].inFlight
    decreases m
  {
    hide Next, Enabled;
    if k < m {
      ShutdownIsFinal(run, steps, maxSessionNum, k, m - 1, s);
      DownStaysDown(run[m - 1], steps[m - 1], s);
    }
  }

  lemma DownStaysDown(p: State, step: Step, s: nat)
    requires Enabled(p, step) && s < |p.sessions| && !p.sessions[s].running
    ensures
      s < |Next(p, step).sessions|
      && !Next(p, step).sessions[s].running
      && Next(p, step).sessions[s].inFlight <= p.sessions[s].inFlight
  {}

  // ---------------------------------------------------------------- the scan, undisturbed

  ghost predicate InRange(list: seq<nat>, sessions: seq<Session>) {
    forall i :: 0 <= i < |list| ==> list[i] < |sessions|
  }

  function Rank(at: At): nat {
    match at
    case Look => 2
    case Exchange => 1
    case Load(_) => 0
  }

  /** The scan carried to its end with nothing in between. */
  function Scanned(p: State): State
    requires InRange(p.list, p.sessions)
    decreases p.scan.Scanning?,
      if p.scan.Scanning? && p.scan.pos < |p.list| then |p.list| - p.scan.pos else 0,
      if p.scan.Scanning? then Rank(p.scan.at) else 0
  {
    if p.scan.NoScan? then p else Scanned(ScanNext(p))
  }

  lemma {:induction false} ScannedKeepsInv(p: State)
    requires Inv(p) && InRange(p.list, p.sessions)
    ensures Inv(Scanned(p)) && Scanned(p).scan == NoScan
    decreases p.scan.Scanning?,
      if p.scan.Scanning? && p.scan.pos < |p.list| then |p.list| - p.scan.pos else 0,
      if p.scan.Scanning? then Rank(p.scan.at) else 0
  {
    if p.scan.Scanning? {
      ScanKeepsInv(p);
      ScannedKeepsInv(ScanNext(p));
    }
  }

  predicate Free(s: Session) {
    s.running && s.idle
  }

  /** The sessions of `list` that are still running. */
  function Alive(list: seq<nat>, sessions: seq<Session>): seq<nat>
    requires InRange(list, sessions)
  {
    if list == [] then []
    else (if sessions[list[0]].running then [list[0]] else []) + Alive(list[1..], sessions)
  }

  /** The first free session from `i` on, or the length of the list. */
  function FirstFree(list: seq<nat>, sessions: seq<Session>, i: nat): (r: nat)
    requires InRange(list, sessions) && i <= |list|
    ensures i <= r <= |list| && (r < |list| ==> Free(sessions[list[r]]))
    ensures forall j :: i <= j < r ==> !Free(sessions[list[j]])
    decreases |list| - i
  {
    if i >= |list| then |list| else if Free(sessions[list[i]]) then i else FirstFree(list, sessions, i + 1)
  }

  /** What one look at the session at `pos` comes to. */
  function LookedAt(p: State): State
    requires p.scan.Scanning? && p.scan.pos < |p.list| && InRange(p.list, p.sessions)
  {
    var r, pos := p.scan.request, p.scan.pos;
    var s := p.list[pos];
    var it := p.sessions[s];
    if !it.running then p.(list := p.list[..pos] + p.list[pos + 1..])
    else if !it.idle then p.(scan := Scanning(r, pos + 1, Look))
    else Set(p, s, it.(idle := false, inFlight := it.inFlight + {r})).(scan := NoScan)
  }

  lemma ScannedLooks(p: State)
    requires p.scan.Scanning? && p.scan.at == Look && InRange(p.list, p.sessions) && p.scan.pos < |p.list|
    ensures InRange(LookedAt(p).list, LookedAt(p).sessions) && Scanned(p) == Scanned(LookedAt(p))
  {
    hide Scanned, ScanNext, LookedAt;
    LooksInSteps(p);
    var p1 := ScanNext(p);
    ScannedSteps(p);
    if p.sessions[p.list[p.scan.pos]].running {
      ScannedSteps(p1);
      ScannedSteps(ScanNext(p1));
    }
  }

  lemma ScannedSteps(p: State)
    requires p.scan.Scanning? && InRange(p.list, p.sessions)
    ensures ScanInRange(p) && InRange(ScanNext(p).list, ScanNext(p).sessions) && Scanned(p) == Scanned(ScanNext(p))
  {
    hide ScanNext;
    StepInRange(p);
  }

  lemma StepInRange(p: State)
    requires p.scan.Scanning? && InRange(p.list, p.sessions)
    ensures ScanInRange(p) && InRange(ScanNext(p).list, ScanNext(p).sessions)
  {}

  /** A dead session takes one access of the scan, a running one three. */
  lemma LooksInSteps(p: State)
    requires p.scan.Scanning? && p.scan.at == Look && InRange(p.list, p.sessions) && p.scan.pos < |p.list|
    ensures ScanInRange(p) && InRange(ScanNext(p).list, ScanNext(p).sessions)
    ensures InRange(LookedAt(p).list, LookedAt(p).sessions)
    ensures !p.sessions[p.list[p.scan.pos]].running ==> LookedAt(p) == ScanNext(p)
    ensures p.sessions[p.list[p.scan.pos]].running ==>
      var p1 := ScanNext(p);
      && p1.scan.Scanning? && ScanInRange(p1)
      && var p2 := ScanNext(p1);
      && p2.scan.Scanning? && InRange(p2.list, p2.sessions) && ScanInRange(p2) && LookedAt(p) == ScanNext(p2)
  {
    var s := p.list[p.scan.pos];
    var it := p.sessions[s];
    if it.running && !it.idle {
      assert p.sessions[s := it.(idle := false)] == p.sessions;
    }
  }

  lemma ScannedEnds(p: State)
    requires p.scan.Scanning? && InRange(p.list, p.sessions) && p.scan.pos >= |p.list|
    ensures Scanned(p) == ScanNext(p)
  {}

  /** What a scan from `pos` leaves behind. */
  ghost predicate TookFirst(p: State, pos: nat, q: State)
    requires pos <= |p.list| && InRange(p.list, p.sessions) && p.scan.Scanning?
  {
    var r, i := p.scan.request, FirstFree(p.list, p.sessions, pos);
    if i < |p.list| then
      && q.list == p.list[..pos] + (Alive(p.list[pos..i], p.sessions) + p.list[i..])
      && q.sessions == p.sessions[p.list[i] := Session(true, false, p.sessions[p.list[i]].inFlight + {r})]
      && q.refused == p.refused
    else
      var l := p.list[..pos] + Alive(p.list[pos..], p.sessions);
      if |l| < p.maxSessionNum then
        && q.list == l + [|p.sessions|] && q.sessions == p.sessions + [Session(true, false, {r})]
        && q.refused == p.refused
      else q.list == l && q.sessions == p.sessions && q.refused == p.refused + {r}
  }

  /** An undisturbed scan takes the first free session and erases the dead ones before it; else it adds a
      session if the running ones leave room, and refuses the request if not. */
  lemma {:induction false} ScannedTakesFirst(p: State)
    requires p.scan.Scanning? && p.scan.at == Look && p.scan.pos <= |p.list| && InRange(p.list, p.sessions)
    ensures TookFirst(p, p.scan.pos, Scanned(p))
    decreases |p.list| - p.scan.pos
  {
    hide Scanned, ScanNext, InRange, Alive;
    var pos := p.scan.pos;
    if pos >= |p.list| {
      ScannedEnds(p);
      NothingAhead(p);
    } else {
      ScannedLooks(p);
      var q := LookedAt(p);
      if q.scan.NoScan? {
        ScannedDone(q);
        TakenHere(p);
      } else if q.list == p.list {
        ScannedTakesFirst(q);
        PassedBusy(p, Scanned(q));
      } else {
        ScannedTakesFirst(q);
        PassedDead(p, Scanned(q));
      }
    }
  }

  /** What the other strands do to a session and to the client. */
  lemma OutsideSteps(p: State, step: Step)
    requires Inv(p) && Enabled(p, step)
    ensures step.Succeed? ==>
      Next(p, step) == Set(p, step.s, Session(p.sessions[step.s].running, true, {}))
    ensures step.GiveUp? ==>
      Next(p, step) == Set(p, step.s, Session(false, p.sessions[step.s].idle, {}))
    ensures step.SessionShutdown? ==>
      Next(p, step) == Set(p, step.s, p.sessions[step.s].(running := false))
    ensures step.ClientShutdown? ==> Next(p, step) == p.(open := false)
    ensures step.ClientTask? ==>
      && Next(p, step).list == [] && |Next(p, step).sessions| == |p.sessions|
      && forall s :: 0 <= s < |p.sessions| ==> Next(p, step).sessions[s] == p.sessions[s].(running := false)
  {
    if step.Succeed? || step.GiveUp? {
      Leaves(p, step.s, step.r);
    }
  }

  /** A session whose request has succeeded is given out again: an undisturbed request behind that goes to a
      session that is there, so the pool neither grows nor refuses, and to this one if no other is free. */
  lemma ReusedAfterSuccess(p: State, s: nat, r: nat)
    requires Inv(p) && Enabled(p, Succeed(s, r)) && p.scan.NoScan? && p.open && p.sessions[s].running
    requires InRange(p.list, Next(p, Succeed(s, r)).sessions)
    ensures
      var q := Next(p, Succeed(s, r));
      var t := Scanned(Next(q, Request));
      && |t.sessions| == |p.sessions| && t.refused == p.refused
      && exists u | 0 <= u < |p.sessions| ::
        && q.sessions[u].running && q.sessions[u].idle && t.sessions[u] == Session(true, false, {p.requests})
        && ((forall v :: 0 <= v < |p.sessions| && v != s ==> !(p.sessions[v].running && p.sessions[v].idle)) ==> u == s)
  {
    hide Alive, Scanned, FirstFree;
    OutsideSteps(p, Succeed(s, r));
    StepKeepsInv(p, Succeed(s, r));
    var q := Next(p, Succeed(s, r));
    var asked := Next(q, Request);
    ScannedTakesFirst(asked);
    var t := Scanned(asked);
    var i := FirstFree(q.list, q.sessions, 0);
    var j :| 0 <= j < |q.list| && q.list[j] == s;
    assert i <= j;
    var u := q.list[i];
    assert q.sessions[u].inFlight == {};
    assert t.sessions[u] == Session(true, false, {} + {p.requests});
    assert {} + {p.requests} == {p.requests};
  }

  lemma ScannedDone(p: State)
    requires p.scan.NoScan? && InRange(p.list, p.sessions)
    ensures Scanned(p) == p
  {}

  lemma NothingAhead(p: State)
    requires p.scan.Scanning? && p.scan.pos == |p.list| && InRange(p.list, p.sessions) && ScanInRange(p)
    ensures TookFirst(p, p.scan.pos, ScanNext(p))
  {
    assert p.list[..p.scan.pos] + [] == p.list;
  }

  lemma TakenHere(p: State)
    requires p.scan.Scanning? && p.scan.pos < |p.list| && InRange(p.list, p.sessions)
    requires Free(p.sessions[p.list[p.scan.pos]])
    ensures TookFirst(p, p.scan.pos, LookedAt(p))
  {
    var pos := p.scan.pos;
    assert p.list[pos..pos] == [] && p.list == p.list[..pos] + ([] + p.list[pos..]);
  }

  lemma PassedBusy(p: State, q: State)
    requires p.scan.Scanning? && p.scan.pos < |p.list| && InRange(p.list, p.sessions)
    requires p.sessions[p.list[p.scan.pos]].running && !p.sessions[p.list[p.scan.pos]].idle
    requires TookFirst(p.(scan := p.scan.(pos := p.scan.pos + 1)), p.scan.pos + 1, q)
    ensures TookFirst(p, p.scan.pos, q)
  {
    hide Alive, FirstFree;
    var pos, x := p.scan.pos, p.list[p.scan.pos];
    FirstFreeStep(p.list, p.sessions, pos);
    var i := FirstFree(p.list, p.sessions, pos);
    AliveFirst(p.list, p.sessions, pos, i);
    assert p.list[..pos + 1] == p.list[..pos] + [x];
    Regroup(p.list[..pos], x, Alive(p.list[pos + 1..i], p.sessions), p.list[i..]);
    ToTheEnd(p.list, pos);
  }

  lemma ToTheEnd(list: seq<nat>, pos: nat)
    requires pos < |list|
    ensures list[pos..|list|] == list[pos..] && list[pos + 1..|list|] == list[pos + 1..]
  {}

  lemma Regroup(front: seq<nat>, x: nat, ahead: seq<nat>, tail: seq<nat>)
    ensures front + [x] + (ahead + tail) == front + ([x] + ahead + tail)
    ensures front + [x] + ahead == front + ([x] + ahead)
  {}

  lemma FirstFreeStep(list: seq<nat>, sessions: seq<Session>, i: nat)
    requires InRange(list, sessions) && i < |list| && !Free(sessions[list[i]])
    ensures FirstFree(list, sessions, i) == FirstFree(list, sessions, i + 1)
  {}

  lemma PassedDead(p: State, q: State)
    requires p.scan.Scanning? && p.scan.pos < |p.list| && InRange(p.list, p.sessions)
    requires !p.sessions[p.list[p.scan.pos]].running && InRange(LookedAt(p).list, p.sessions)
    requires TookFirst(LookedAt(p), p.scan.pos, q)
    ensures TookFirst(p, p.scan.pos, q)
  {
    hide Alive, FirstFree, Free;
    var pos := p.scan.pos;
    var shorter := LookedAt(p).list;
    DeadIsNotFree(p.sessions[p.list[pos]]);
    FirstFreeStep(p.list, p.sessions, pos);
    var i := FirstFree(p.list, p.sessions, pos);
    FreeAfterErase(p.list, p.sessions, pos);
    AliveFirst(p.list, p.sessions, pos, i);
    Erased(p.list, pos, i);
    ToTheEnd(p.list, pos);
    assert [] + Alive(p.list[pos + 1..i], p.sessions) == Alive(p.list[pos + 1..i], p.sessions);
    if i < |p.list| {
      assert shorter[i - 1] == p.list[i];
    }
  }

  lemma DeadIsNotFree(s: Session)
    requires !s.running
    ensures !Free(s)
  {}

  lemma Erased(list: seq<nat>, pos: nat, i: nat)
    requires pos < i <= |list|
    ensures
      var shorter := list[..pos] + list[pos + 1..];
      && shorter[..pos] == list[..pos] && shorter[pos..] == list[pos + 1..]
      && shorter[pos..i - 1] == list[pos + 1..i] && shorter[i - 1..] == list[i..]
  {}

  lemma FreeAfterErase(list: seq<nat>, sessions: seq<Session>, pos: nat)
    requires pos < |list| && InRange(list, sessions) && !sessions[list[pos]].running
    requires InRange(list[..pos] + list[pos + 1..], sessions)
    ensures FirstFree(list[..pos] + list[pos + 1..], sessions, pos) == FirstFree(list, sessions, pos) - 1
  {
    hide FirstFree;
    var shorter := list[..pos] + list[pos + 1..];
    var i := FirstFree(list, sessions, pos);
    assert i > pos;
    forall j | pos <= j < |shorter| ensures shorter[j] == list[j + 1] {
      ErasedAt(list, pos, j);
    }
    hide InRange, Free;
    FirstFreeIs(shorter, sessions, pos, i - 1);
  }

  lemma ErasedAt(list: seq<nat>, pos: nat, j: nat)
    requires pos <= j < |list| - 1
    ensures (list[..pos] + list[pos + 1..])[j] == list[j + 1]
  {}

  lemma {:induction false} FirstFreeIs(list: seq<nat>, sessions: seq<Session>, from: nat, i: nat)
    requires InRange(list, sessions) && from <= i <= |list| && (i < |list| ==> Free(sessions[list[i]]))
    requires forall j :: from <= j < i ==> !Free(sessions[list[j]])
    ensures FirstFree(list, sessions, from) == i
    decreases i - from
  {
    if from < i {
      FirstFreeIs(list, sessions, from + 1, i);
    }
  }

  lemma AliveFirst(list: seq<nat>, sessions: seq<Session>, a: nat, b: nat)
    requires a < b <= |list| && InRange(list, sessions)
    ensures
      Alive(list[a..b], sessions)
      == (if sessions[list[a]].running then [list[a]] else []) + Alive(list[a + 1..b], sessions)
  {
    assert list[a..b][1..] == list[a + 1..b];
  }

  class AsioHttpClient {
    const maxSessionNum: nat
    var open: bool
    var list: seq<nat>
    var sessions: seq<Session>
    ghost var cleared: bool
    ghost var requests: nat
    ghost var refused: set<nat>

    /** Between requests no scan is under way. */
    ghost function View(): State
      reads this
    {
      State(maxSessionNum, open, cleared, list, sessions, NoScan, requests, refused)
    }

    ghost predicate Valid()
      reads this
    {
      Inv(View())
    }

    constructor (maxSessionNum: nat)
      ensures Valid() && this.maxSessionNum == maxSessionNum && View() == Init(maxSessionNum)
    {
      this.maxSessionNum := maxSessionNum;
      open, list, sessions := true, [], [];
      cleared, requests, refused := false, 0, {};
      new;
      InitInv(maxSessionNum);
    }

    /** A request with nothing in between: the steps of the scan, one after the other. */
    method TakeSession(request: nat) returns (found: bool, s: nat)
      requires Valid() && request == requests
      modifies this
      ensures Valid() && InRange(old(list), old(sessions))
      ensures View() == Scanned(Next(old(View()), Request))
      ensures !old(open) ==> !found && list == old(list) && sessions == old(sessions)
      ensures old(open) ==> TookFirst(Next(old(View()), Request), 0, View())
      ensures found ==> s < |sessions| && sessions[s].running && !sessions[s].idle && request in sessions[s].inFlight
      ensures !found ==> request in refused
    {
      hide Inv, Scanned, ScanNext, OneEach, ListFits, RequestsFit, ClosedForGood, FirstFree, Alive, TookFirst;
      ghost var p0 := Next(View(), Request);
      ListInRange(View());
      RequestKeeps(View());
      ScannedKeepsInv(p0);
      requests := requests + 1;
      if !open {
        refused := refused + {request};
        ScannedDone(p0);
        assert View() == Scanned(p0);
        return false, 0;
      }
      ScannedTakesFirst(p0);
      var l, ss, pos := list, sessions, 0;
      found, s := false, 0;
      ghost var p := p0;
      while pos < |l| && !found
        invariant View() == p0.(scan := NoScan)
        invariant found ==> p == p0.(list := l, sessions := ss, scan := NoScan)
        invariant !found ==> p == p0.(list := l, sessions := ss, scan := Scanning(request, pos, Look))
        invariant pos <= |l| && InRange(l, ss) && Scanned(p) == Scanned(p0)
        invariant found ==> s < |ss| && ss[s].running && !ss[s].idle && request in ss[s].inFlight
        decreases !found, |l| - pos
      {
        ScannedLooks(p);
        p := LookedAt(p);
        var it := l[pos];
        if !ss[it].running {
          l := l[..pos] + l[pos + 1..];
        } else if ss[it].idle {
          ss := ss[it := ss[it].(idle := false, inFlight := ss[it].inFlight + {request})];
          found, s := true, it;
        } else {
          pos := pos + 1;
        }
      }
      if found {
        ScannedDone(p);
      } else {
        ScannedEnds(p);
        LastStep(p);
        found := |l| < maxSessionNum;
        s := |ss|;
        if found {
          l := l + [s];
          ss := ss + [Session(true, false, {request})];
        } else {
          refused := refused + {request};
        }
      }
      list, sessions := l, ss;
      assert View() == Scanned(p0);
    }
  }

  lemma ListInRange(p: State)
    requires Inv(p)
    ensures InRange(p.list, p.sessions)
  {}

  lemma LastStep(p: State)
    requires p.scan.Scanning? && p.scan.pos >= |p.list| && ScanInRange(p)
    ensures
      ScanNext(p) ==
      if |p.list| < p.maxSessionNum then Grown(p)
      else p.(scan := NoScan, refused := p.refused + {p.scan.request})
  {}
}
