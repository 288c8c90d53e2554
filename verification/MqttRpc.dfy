/** MQTT RPC over a network that loses, repeats and reorders: what was sent stays available for delivery
    any number of times, in any order, or never. One client, any number of servers. */
module MqttRpc {
  import opened Buffer
  import opened Packets
  import opened RpcPackets
  import opened Seqs
  import opened Wrappers

  /** Why Invoke gave up before it recorded the call. */
  datatype Early = NotStarted | BadAddress | NameTooLong | NotSerialized | TooManyPairs | TooLarge

  datatype Status = Success | FromServer(code: nat) | TimedOut | Undecodable | InternalError | NotSent(why: Early)

  /** The status codes that callbacks see. */
  function StatusCode(status: Status): nat {
    match status
    case Success => 0
    case FromServer(code) => code
    case TimedOut => 2
    case Undecodable => 2008
    case InternalError => 2002
    case NotSent(NotStarted) => 2002
    case NotSent(BadAddress) => 2002
    case NotSent(NameTooLong) => 2000
    case NotSent(NotSerialized) => 2006
    case NotSent(TooManyPairs) => 2002
    case NotSent(TooLarge) => 2010
  }

  /** What a server made of a request, with the call the request came from. */
  datatype Answer = Answer(call: nat, code: nat, message: Bytes)

  /** What deserializing a response does. */
  datatype Decoding = Decoded | Refused | Threw

  /** A pending timeout task: it holds the id only; `call` is the call it was set for. */
  datatype Timer = Timer(id: nat, call: nat)

  datatype Sent = Sent(call: nat, bytes: Bytes)
  datatype Reply = Reply(answer: Answer, bytes: Bytes)

  /** Calls are numbered. `timed`: whether a timeout executor is configured; by default none is. `fired`: the
      statuses each call's callback was invoked with. `throws`: whether the callback throws when first
      invoked. `serial`: req_id_ before its reduction to 32 bits. `records`: the client tool's map.
      `completed`: the answer that ended a call. */
  datatype State = State(
    topic: Bytes, timed: bool, fired: seq<seq<Status>>, throws: seq<bool>, nextSerial: nat, serial: map<nat, nat>,
    records: map<nat, nat>, timers: set<Timer>, outgoing: set<Sent>, requests: set<Sent>,
    replies: set<Reply>, answers: set<Answer>, completed: map<nat, Answer>)

  datatype Step =
    | Reject(why: Early, throws: bool)
    | Begin(ty: Bytes, meta: seq<Bytes>, message: Bytes, throws: bool)
    | Send(q: Sent)
    | Serve(q: Sent, code: nat, message: Bytes)
    | Deliver(p: Reply, decoding: Decoding)
    | Timeout(timer: Timer)

  function Init(topic: Bytes, timed: bool): State {
    State(topic, timed, [], [], 0, map[], map[], {}, {}, {}, {}, {}, map[])
  }

  predicate Enabled(s: State, step: Step) {
    match step
    case Reject(_, _) => true
    case Begin(_, meta, _, _) => |meta| % 2 == 0 && |meta| / 2 < 0x100
    case Send(q) => q in s.outgoing
    case Serve(q, code, _) => q in s.requests && ParseRequest(q.bytes).Ok? && code < UINT32
    case Deliver(p, _) => p in s.replies
    case Timeout(timer) => timer in s.timers
  }

  /** A call that ends before it is recorded. */
  function Failed(s: State, status: Status, throws: bool, ids: nat): State {
    s.(fired := s.fired + [[status]], throws := s.throws + [throws], nextSerial := s.nextSerial + ids)
  }

  /** A call recorded under its id, with a timer if there is an executor for it. */
  function Recorded(s: State, throws: bool): State {
    var call, id := |s.fired|, s.nextSerial % UINT32;
    s.(fired := s.fired + [[]], throws := s.throws + [throws], nextSerial := s.nextSerial + 1,
       serial := s.serial[call := s.nextSerial], records := s.records[id := call],
       timers := if s.timed then s.timers + {Timer(id, call)} else s.timers)
  }

  /** GetRecord takes the record out, and the callback fires; a second time if `again`. */
  function Finish(s: State, id: nat, status: Status, again: bool): State
    requires id in s.records && s.records[id] < |s.fired|
  {
    var call := s.records[id];
    s.(records := s.records - {id},
       fired := s.fired[call := s.fired[call] + if again then [status, InternalError] else [status]])
  }

  /** The status the client's handler reports first for a response. */
  function Reported(r: Response, decoding: Decoding): Status {
    if r.code != 0 then FromServer(r.code)
    else match decoding
         case Decoded => Success
         case Refused => Undecodable
         case Threw => InternalError
  }

  /** Whether the callback is first invoked inside the handler's try block. */
  predicate Guarded(r: Response, decoding: Decoding) {
    r.code != 0 || decoding != Threw
  }

  /** req_id_ moves on only after the state and the address have been checked. */
  function IdsTaken(why: Early): nat {
    if why == NotStarted || why == BadAddress then 0 else 1
  }

  ghost predicate InRange(s: State) {
    forall id :: id in s.records ==> s.records[id] < |s.fired| && s.records[id] < |s.throws|
  }

  function Next(s: State, step: Step): State
    requires Enabled(s, step)
    requires InRange(s)
  {
    match step
    case Reject(why, throws) => Failed(s, NotSent(why), throws, IdsTaken(why))
    case Begin(ty, meta, message, throws) =>
      var call, id := |s.fired|, s.nextSerial % UINT32;
      if id in s.records then Failed(s, InternalError, throws, 1)
      else
        var q := Sent(call, EncodeRequest(ty, s.topic, id, meta, message));
        Recorded(s, throws).(outgoing := if Sendable(ty, s.topic, meta) then s.outgoing + {q} else s.outgoing)
    case Send(q) => s.(outgoing := s.outgoing - {q}, requests := s.requests + {q})
    case Serve(q, code, message) =>
      var r := ParseRequest(q.bytes).value;
      var body := if code == 0 then message else [];
      var a := Answer(q.call, code, body);
      s.(answers := s.answers + {a},
         replies := if r.replyTopic != s.topic then s.replies
                    else s.replies + {Reply(a, EncodeResponse(r.ty, r.id, code, body))})
    case Deliver(p, decoding) =>
      var r := ParseResponse(p.bytes);
      if r.Err? || r.value.id !in s.records then s
      else
        var call := s.records[r.value.id];
        var again := s.throws[call] && Guarded(r.value, decoding);
        Finish(s, r.value.id, Reported(r.value, decoding), again).(completed := s.completed[call := p.answer])
    case Timeout(timer) =>
      var t := s.(timers := s.timers - {timer});
      if timer.id in s.records then Finish(t, timer.id, TimedOut, false) else t
  }

  // ---------------------------------------------------------------- the invariant

  function Id(s: State, call: nat): nat
    requires call in s.serial
  {
    s.serial[call] % UINT32
  }

  /** A call is waiting exactly when it has the record under its id, with its own timer if there are any. */
  ghost predicate RecordsMatch(s: State) {
    && RecordsWait(s) && WaitersRecorded(s)
    && (forall id :: id in s.records && s.timed ==> Timer(id, s.records[id]) in s.timers)
    && (s.timers != {} ==> s.timed)
    && (forall t :: t in s.timers ==> t.call in s.serial && Id(s, t.call) == t.id)
  }

  ghost predicate RecordsWait(s: State) {
    && |s.throws| == |s.fired|
    && (forall id :: id in s.records ==> s.records[id] < |s.fired| && s.fired[s.records[id]] == [])
    && (forall id :: id in s.records ==> s.records[id] in s.serial && Id(s, s.records[id]) == id)
  }

  ghost predicate WaitersRecorded(s: State) {
    forall call :: 0 <= call < |s.fired| && s.fired[call] == [] ==>
      call in s.serial && Id(s, call) in s.records && s.records[Id(s, call)] == call
  }

  ghost predicate SerialsDiffer(s: State) {
    && (forall call :: call in s.serial ==> call < |s.fired| && s.serial[call] < s.nextSerial)
    && (forall c, d :: c in s.serial && d in s.serial && s.serial[c] == s.serial[d] ==> c == d)
  }

  ghost predicate FiredAtMostOnce(s: State) {
    forall call :: 0 <= call < |s.fired| && call < |s.throws| ==>
      |s.fired[call]| <= 1 || (s.throws[call] && |s.fired[call]| == 2 && call in s.completed)
  }

  predicate RequestFits(s: State, q: Sent) {
    var r := ParseRequest(q.bytes);
    && q.call in s.serial && r.Ok? && |r.value.ty| < 0x100
    && r.value.id == Encode(Id(s, q.call), 4) && r.value.replyTopic == s.topic
  }

  predicate ReplyFits(s: State, p: Reply) {
    var r := ParseResponse(p.bytes);
    && p.answer in s.answers && p.answer.call in s.serial && r.Ok? && r.value.id == Id(s, p.answer.call)
    && r.value.code == p.answer.code && r.value.message == p.answer.message
  }

  ghost predicate NetworkFits(s: State) {
    && (forall q :: q in s.outgoing || q in s.requests ==> RequestFits(s, q))
    && (forall p :: p in s.replies ==> ReplyFits(s, p))
  }

  /** What the callback was told came from an answer to a request with the call's own id. */
  predicate ToldBy(s: State, call: nat, a: Answer) {
    && call in s.serial && a in s.answers && a.call in s.serial && Id(s, a.call) == Id(s, call)
    && call < |s.fired| && s.fired[call] != []
    && (s.fired[call][0] == Success ==> a.code == 0)
    && (s.fired[call][0].FromServer? ==> a.code == s.fired[call][0].code && a.code != 0)
  }

  /** A status that only a server's answer can cause. */
  predicate FromAnswer(status: Status) {
    status == Success || status.FromServer?
  }

  ghost predicate CompletedByAnswers(s: State) {
    && (forall call :: call in s.completed ==> ToldBy(s, call, s.completed[call]))
    && (forall call :: 0 <= call < |s.fired| && s.fired[call] != [] && FromAnswer(s.fired[call][0]) ==>
          call in s.completed)
  }

  ghost predicate Inv(s: State) {
    RecordsMatch(s) && SerialsDiffer(s) && FiredAtMostOnce(s) && NetworkFits(s) && CompletedByAnswers(s)
  }

  lemma RecordsInRange(s: State)
    requires RecordsMatch(s)
    ensures InRange(s)
  {}

  // ---------------------------------------------------------------- every step keeps it

  lemma StepKeepsInv(s: State, step: Step)
    requires Inv(s) && Enabled(s, step) && |s.topic| < 0x100
    ensures InRange(s)
    ensures Inv(Next(s, step)) && Next(s, step).topic == s.topic && Next(s, step).timed == s.timed
  {
    hide RecordsMatch, SerialsDiffer, FiredAtMostOnce, NetworkFits, CompletedByAnswers, Enabled;
    RecordsInRange(s);
    StepKeepsRecords(s, step);
    StepKeepsSerials(s, step);
    StepFiresOnce(s, step);
    StepKeepsNetwork(s, step);
    StepKeepsCompleted(s, step);
    StepKeepsTopic(s, step);
  }

  lemma StepKeepsTopic(s: State, step: Step)
    requires RecordsMatch(s) && Enabled(s, step)
    ensures Next(s, step).topic == s.topic && Next(s, step).timed == s.timed
  {
    hide ParseRequest, ParseResponse, EncodeRequest, EncodeResponse, Sendable;
  }

  lemma StepKeepsRecords(s: State, step: Step)
    requires RecordsMatch(s) && SerialsDiffer(s) && Enabled(s, step)
    ensures RecordsMatch(Next(s, step))
  {
    hide ParseRequest, ParseResponse, EncodeRequest, EncodeResponse, Sendable, Failed, Recorded, Finish, RecordsMatch;
    RecordsInRange(s);
    match step
    case Reject(why, throws) => FailedKeeps(s, NotSent(why), throws, IdsTaken(why));
    case Begin(ty, meta, message, throws) =>
      if s.nextSerial % UINT32 in s.records {
        FailedKeeps(s, InternalError, throws, 1);
      } else {
        RecordedKeeps(s, throws);
        SameRecords(Recorded(s, throws), Next(s, step));
      }
    case Deliver(p, decoding) =>
      var r := ParseResponse(p.bytes);
      if r.Ok? && r.value.id in s.records {
        var again := s.throws[s.records[r.value.id]] && Guarded(r.value, decoding);
        FinishKeeps(s, s, r.value.id, Reported(r.value, decoding), again);
        SameRecords(Finish(s, r.value.id, Reported(r.value, decoding), again), Next(s, step));
      }
    case Timeout(timer) =>
      var t := s.(timers := s.timers - {timer});
      if timer.id in s.records {
        FinishKeeps(s, t, timer.id, TimedOut, false);
      } else {
        TimerGone(s, timer);
      }
    case _ => SameRecords(s, Next(s, step));
  }

  lemma SameRecords(s: State, t: State)
    requires RecordsMatch(s)
    requires t.fired == s.fired && t.throws == s.throws && t.serial == s.serial && t.records == s.records
    requires t.timers == s.timers && t.timed == s.timed
    ensures RecordsMatch(t)
  {}

  lemma FailedKeeps(s: State, status: Status, throws: bool, ids: nat)
    requires RecordsMatch(s)
    ensures RecordsMatch(Failed(s, status, throws, ids))
  {}

  lemma RecordedKeeps(s: State, throws: bool)
    requires RecordsMatch(s) && SerialsDiffer(s) && s.nextSerial % UINT32 !in s.records
    ensures RecordsMatch(Recorded(s, throws))
  {
    hide RecordsWait, WaitersRecorded;
    assert RecordsWait(Recorded(s, throws)) by {
      RecordedWaits(s, throws);
    }
    assert WaitersRecorded(Recorded(s, throws)) by {
      RecordedWaiters(s, throws);
    }
  }

  lemma RecordedWaits(s: State, throws: bool)
    requires RecordsWait(s) && SerialsDiffer(s)
    ensures RecordsWait(Recorded(s, throws))
  {}

  lemma RecordedWaiters(s: State, throws: bool)
    requires WaitersRecorded(s) && SerialsDiffer(s) && s.nextSerial % UINT32 !in s.records
    ensures WaitersRecorded(Recorded(s, throws))
  {}

  /** `t` is `s`, perhaps with a timer for `id` gone. */
  lemma FinishKeeps(s: State, t: State, id: nat, status: Status, again: bool)
    requires RecordsMatch(s) && id in s.records && s.records[id] < |s.fired|
    requires t == s.(timers := t.timers) && t.timers <= s.timers
    requires forall x :: x in s.timers && x !in t.timers ==> x.id == id
    ensures RecordsMatch(Finish(t, id, status, again))
  {
    var f := Finish(t, id, status, again);
    assert RecordsWait(f);
    assert WaitersRecorded(f);
  }

  lemma TimerGone(s: State, timer: Timer)
    requires RecordsMatch(s) && timer.id !in s.records
    ensures RecordsMatch(s.(timers := s.timers - {timer}))
  {}

  lemma StepKeepsSerials(s: State, step: Step)
    requires RecordsMatch(s) && SerialsDiffer(s) && Enabled(s, step)
    ensures SerialsDiffer(Next(s, step))
  {
    hide ParseRequest, ParseResponse, EncodeRequest, EncodeResponse, Sendable, RecordsMatch, InRange, Reported;
    RecordsInRange(s);
    KeptInRange(s);
  }

  lemma KeptInRange(s: State)
    requires InRange(s)
    ensures forall id :: id in s.records ==> s.records[id] < |s.fired| && s.records[id] < |s.throws|
  {}

  lemma StepFiresOnce(s: State, step: Step)
    requires RecordsMatch(s) && FiredAtMostOnce(s) && Enabled(s, step)
    ensures FiredAtMostOnce(Next(s, step))
  {
    hide ParseRequest, ParseResponse, EncodeRequest, EncodeResponse, Sendable;
  }

  lemma StepKeepsNetwork(s: State, step: Step)
    requires RecordsMatch(s) && SerialsDiffer(s) && NetworkFits(s) && Enabled(s, step) && |s.topic| < 0x100
    ensures NetworkFits(Next(s, step))
  {
    hide ParseRequest, ParseResponse, EncodeRequest, EncodeResponse, Sendable, Encode, RequestFits, ReplyFits;
    RecordsInRange(s);
    var t := Next(s, step);
    SerialsGrow(s, step);
    forall q | q in t.outgoing || q in t.requests ensures RequestFits(t, q) {
      if q in s.outgoing || q in s.requests {
        RequestStillFits(s, t, q);
      } else {
        BegunFits(s, step, q);
      }
    }
    forall p | p in t.replies ensures ReplyFits(t, p) {
      if p in s.replies {
        ReplyStillFits(s, t, p);
      } else {
        ServedFits(s, step, p);
      }
    }
  }

  lemma SerialsGrow(s: State, step: Step)
    requires RecordsMatch(s) && SerialsDiffer(s) && Enabled(s, step)
    ensures InRange(s) && Next(s, step).topic == s.topic && s.answers <= Next(s, step).answers
    ensures forall c :: c in s.serial ==> c in Next(s, step).serial && Next(s, step).serial[c] == s.serial[c]
  {
    hide ParseRequest, ParseResponse, EncodeRequest, EncodeResponse, Sendable;
  }

  lemma RequestStillFits(s: State, t: State, q: Sent)
    requires RequestFits(s, q) && t.topic == s.topic
    requires forall c :: c in s.serial ==> c in t.serial && t.serial[c] == s.serial[c]
    ensures RequestFits(t, q)
  {
    hide ParseRequest, Encode;
  }

  lemma ReplyStillFits(s: State, t: State, p: Reply)
    requires ReplyFits(s, p) && s.answers <= t.answers
    requires forall c :: c in s.serial ==> c in t.serial && t.serial[c] == s.serial[c]
    ensures ReplyFits(t, p)
  {
    hide ParseResponse;
  }

  lemma BegunFits(s: State, step: Step, q: Sent)
    requires RecordsMatch(s) && Enabled(s, step) && |s.topic| < 0x100
    requires q !in s.outgoing && q !in s.requests && (q in Next(s, step).outgoing || q in Next(s, step).requests)
    ensures RequestFits(Next(s, step), q)
  {
    hide ParseRequest, ParseResponse, EncodeRequest, EncodeResponse, Sendable, Encode;
    RequestRoundTrip(step.ty, s.topic, s.nextSerial % UINT32, step.meta, step.message);
    SendableType(step.ty, s.topic, step.meta);
  }

  lemma ServedFits(s: State, step: Step, p: Reply)
    requires RecordsMatch(s) && NetworkFits(s) && Enabled(s, step)
    requires p !in s.replies && p in Next(s, step).replies
    ensures ReplyFits(Next(s, step), p)
  {
    hide ParseRequest, ParseResponse, EncodeRequest, EncodeResponse, Sendable, Encode, ReplyFits;
    assert RequestFits(s, step.q);
    var r := ParseRequest(step.q.bytes).value;
    var body := if step.code == 0 then step.message else [];
    ResponseRoundTrip(r.ty, Id(s, step.q.call), step.code, body);
    ReplyFitsNew(Next(s, step), p, r.ty);
  }

  lemma ReplyFitsNew(t: State, p: Reply, ty: Bytes)
    requires p.answer in t.answers && p.answer.call in t.serial
    requires ParseResponse(p.bytes) == Ok(Response(ty, Id(t, p.answer.call), p.answer.code, p.answer.message))
    ensures ReplyFits(t, p)
  {
    hide ParseResponse;
  }

  lemma SendableType(ty: Bytes, topic: Bytes, meta: seq<Bytes>)
    requires Sendable(ty, topic, meta)
    ensures |ty| < 0x100
  {}

  lemma StepKeepsCompleted(s: State, step: Step)
    requires Inv(s) && Enabled(s, step)
    ensures CompletedByAnswers(Next(s, step))
  {
    hide ParseRequest, ParseResponse, EncodeRequest, EncodeResponse, Sendable, RequestFits, ReplyFits, FiredAtMostOnce,
      SerialsDiffer, CompletedByAnswers, Failed, Recorded, Finish, RecordsWait, WaitersRecorded, FromAnswer;
    RecordsInRange(s);
    match step
    case Reject(why, throws) => FailedCompleted(s, NotSent(why), throws, IdsTaken(why));
    case Begin(ty, meta, message, throws) =>
      if s.nextSerial % UINT32 in s.records {
        FailedCompleted(s, InternalError, throws, 1);
      } else {
        RecordedCompleted(s, throws);
        SameCompleted(Recorded(s, throws), Next(s, step));
      }
    case Deliver(p, decoding) =>
      var r := ParseResponse(p.bytes);
      if r.Ok? && r.value.id in s.records {
        DeliveredCompleted(s, p, decoding);
      }
    case Timeout(timer) =>
      if timer.id in s.records {
        FinishCompleted(s, timer.id);
        TimersAside(s, timer);
        SameCompleted(Finish(s, timer.id, TimedOut, false), Next(s, step));
      } else {
        SameCompleted(s, Next(s, step));
      }
    case _ => SameCompleted(s, Next(s, step));
  }

  lemma TimersAside(s: State, timer: Timer)
    requires timer.id in s.records && s.records[timer.id] < |s.fired|
    ensures
      var t := s.(timers := s.timers - {timer});
      Finish(t, timer.id, TimedOut, false) == Finish(s, timer.id, TimedOut, false).(timers := t.timers)
  {}

  lemma SameCompleted(s: State, t: State)
    requires CompletedByAnswers(s) && s.answers <= t.answers
    requires t.fired == s.fired && t.serial == s.serial && t.completed == s.completed
    ensures CompletedByAnswers(t)
  {
    forall call | call in t.completed ensures ToldBy(t, call, t.completed[call]) {
      assert ToldBy(s, call, s.completed[call]);
    }
  }

  lemma FailedCompleted(s: State, status: Status, throws: bool, ids: nat)
    requires CompletedByAnswers(s) && (status.NotSent? || status == InternalError)
    ensures CompletedByAnswers(Failed(s, status, throws, ids))
  {
    var t := Failed(s, status, throws, ids);
    forall call | call in t.completed ensures ToldBy(t, call, t.completed[call]) {
      assert ToldBy(s, call, s.completed[call]);
    }
  }

  lemma RecordedCompleted(s: State, throws: bool)
    requires CompletedByAnswers(s) && SerialsDiffer(s)
    ensures CompletedByAnswers(Recorded(s, throws))
  {
    var t := Recorded(s, throws);
    forall call | call in t.completed ensures ToldBy(t, call, t.completed[call]) {
      assert ToldBy(s, call, s.completed[call]);
    }
  }

  lemma FinishCompleted(s: State, id: nat)
    requires CompletedByAnswers(s) && RecordsMatch(s) && id in s.records && s.records[id] < |s.fired|
    ensures CompletedByAnswers(Finish(s, id, TimedOut, false))
  {
    var t := Finish(s, id, TimedOut, false);
    forall call | call in t.completed ensures ToldBy(t, call, t.completed[call]) {
      assert ToldBy(s, call, s.completed[call]);
    }
  }

  lemma DeliveredCompleted(s: State, p: Reply, decoding: Decoding)
    requires CompletedByAnswers(s) && RecordsMatch(s) && NetworkFits(s) && p in s.replies && InRange(s)
    requires ParseResponse(p.bytes).Ok? && ParseResponse(p.bytes).value.id in s.records
    ensures CompletedByAnswers(Next(s, Deliver(p, decoding)))
  {
    hide ParseResponse, RequestFits, WaitersRecorded;
    var t := Next(s, Deliver(p, decoding));
    assert ReplyFits(s, p);
    forall call | call in t.completed ensures ToldBy(t, call, t.completed[call]) {
      if call in s.completed {
        assert ToldBy(s, call, s.completed[call]);
      }
    }
  }

  // ---------------------------------------------------------------- runs

  ghost predicate IsRun(run: seq<State>, steps: seq<Step>, topic: Bytes, timed: bool) {
    && |run| == |steps| + 1 && run[0] == Init(topic, timed) && |topic| < 0x100
    && (forall i :: 0 <= i < |steps| ==>
          InRange(run[i]) && Enabled(run[i], steps[i]) && run[i + 1] == Next(run[i], steps[i]))
  }

  lemma {:induction false} RunKeepsInv(run: seq<State>, steps: seq<Step>, topic: Bytes, timed: bool, k: nat)
    requires IsRun(run, steps, topic, timed) && k < |run|
    ensures Inv(run[k]) && run[k].topic == topic && run[k].timed == timed
    decreases k
  {
    hide Inv, Enabled, Next;
    if k == 0 {
      InitInv(topic, timed);
    } else {
      RunKeepsInv(run, steps, topic, timed, k - 1);
      StepKeepsInv(run[k - 1], steps[k - 1]);
    }
  }

  lemma InitInv(topic: Bytes, timed: bool)
    ensures Inv(Init(topic, timed))
  {}

  /** Whatever the network and the timers do, a callback that does not throw fires at most once. */
  lemma CallbackFiresOnce(run: seq<State>, steps: seq<Step>, topic: Bytes, timed: bool, call: nat)
    requires IsRun(run, steps, topic, timed) && call < |run[|steps|].fired| && call < |run[|steps|].throws|
    ensures |run[|steps|].fired[call]| <= 1 || (run[|steps|].throws[call] && |run[|steps|].fired[call]| == 2)
  {
    hide Enabled, Next;
    RunKeepsInv(run, steps, topic, timed, |steps|);
  }

  /** As long as ids have not wrapped, success means that a server answered this very call with OK, and
      an error code is the one a server gave for this very call. */
  lemma ResponseIsForTheCall(run: seq<State>, steps: seq<Step>, topic: Bytes, timed: bool, call: nat)
    requires IsRun(run, steps, topic, timed) && run[|steps|].nextSerial <= UINT32
    requires call < |run[|steps|].fired| && run[|steps|].fired[call] != []
    ensures OwnSuccess(run[|steps|], call)
    ensures run[|steps|].fired[call][0].FromServer? ==>
      exists a :: a in run[|steps|].answers && a.call == call && a.code == run[|steps|].fired[call][0].code
  {
    hide Enabled, Next;
    RunKeepsInv(run, steps, topic, timed, |steps|);
    var s := run[|steps|];
    if FromAnswer(s.fired[call][0]) {
      assert ToldBy(s, call, s.completed[call]);
      SameSerial(s, call, s.completed[call].call);
    }
  }

  lemma SameSerial(s: State, c: nat, d: nat)
    requires SerialsDiffer(s) && s.nextSerial <= UINT32 && c in s.serial && d in s.serial && Id(s, c) == Id(s, d)
    ensures c == d
  {
    SmallMod(s.serial[c], UINT32);
    SmallMod(s.serial[d], UINT32);
  }

  // ---------------------------------------------------------------- waiting, with and without timeouts

  /** A call whose callback has not fired still has its record. It has a timer, which will take the record,
      if and only if a timeout executor is configured. */
  lemma NeverForgotten(run: seq<State>, steps: seq<Step>, topic: Bytes, timed: bool, call: nat)
    requires IsRun(run, steps, topic, timed) && call < |run[|steps|].fired| && run[|steps|].fired[call] == []
    ensures InRange(run[|steps|])
    ensures
      var s := run[|steps|];
      && call in s.serial && Id(s, call) in s.records && s.records[Id(s, call)] == call
      && (Timer(Id(s, call), call) in s.timers <==> timed)
      && (timed ==> Next(s, Timeout(Timer(Id(s, call), call))).fired[call] == [TimedOut])
  {
    RunKeepsInv(run, steps, topic, timed, |steps|);
  }

  /** A response for the id of a call. */
  predicate IsDeliveryTo(step: Step, id: nat) {
    step.Deliver? && ParseResponse(step.p.bytes).Ok? && ParseResponse(step.p.bytes).value.id == id
  }

  /** Without an executor, a waiting call that no response reaches waits for ever: in every continuation. */
  lemma {:induction false} WaitsForEver(
    run: seq<State>, steps: seq<Step>, topic: Bytes, k: nat, m: nat, call: nat)
    requires IsRun(run, steps, topic, false) && k <= m < |run|
    requires call < |run[k].fired| && run[k].fired[call] == [] && call in run[k].serial
    requires forall i :: k <= i < m ==> !IsDeliveryTo(steps[i], Id(run[k], call))
    ensures call < |run[m].fired| && run[m].fired[call] == []
    ensures call in run[m].serial && run[m].serial[call] == run[k].serial[call]
    decreases m
  {
    hide Enabled, Next, IsDeliveryTo, Inv;
    if k < m {
      WaitsForEver(run, steps, topic, k, m - 1, call);
      RunKeepsInv(run, steps, topic, false, m - 1);
      StepLeavesWaiting(run[m - 1], steps[m - 1], call);
    }
  }

  lemma StepLeavesWaiting(s: State, step: Step, call: nat)
    requires Inv(s) && InRange(s) && Enabled(s, step) && !s.timed
    requires call < |s.fired| && s.fired[call] == [] && call in s.serial && !IsDeliveryTo(step, Id(s, call))
    ensures
      var t := Next(s, step);
      && call < |t.fired| && t.fired[call] == [] && call in t.serial && t.serial[call] == s.serial[call]
  {
    hide ParseRequest, ParseResponse, EncodeRequest, EncodeResponse, Sendable, NetworkFits, CompletedByAnswers,
      FiredAtMostOnce;
  }

  /** Such a call exists: the first one, as soon as it is begun. */
  lemma WaitingCallExists(topic: Bytes)
    requires |topic| < 0x100
    ensures exists run: seq<State>, steps: seq<Step> ::
      IsRun(run, steps, topic, false) && run[|steps|].fired == [[]] && run[|steps|].timers == {}
  {
    var s := Init(topic, false);
    var step := Begin([], [], [], false);
    var run, steps := [s, Next(s, step)], [step];
    assert IsRun(run, steps, topic, false);
    assert run[|steps|].fired == [[]] && run[|steps|].timers == {};
  }

  // ---------------------------------------------------------------- after 2^32 ids

  /** A callback told Success has an answer of its own with code OK. */
  ghost predicate OwnSuccess(s: State, call: nat) {
    call < |s.fired| && s.fired[call] != [] && s.fired[call][0] == Success ==>
      exists a :: a in s.answers && a.call == call && a.code == 0
  }

  /** A timer whose id is recorded belongs to the call that is recorded. */
  ghost predicate OwnTimer(s: State, t: Timer) {
    t in s.timers && t.id in s.records ==> s.records[t.id] == t.call
  }

  ghost predicate SuccessIsOwn(limit: nat) {
    forall run: seq<State>, steps: seq<Step>, topic: Bytes, timed: bool, call: nat ::
      IsRun(run, steps, topic, timed) && run[|steps|].nextSerial <= limit ==> OwnSuccess(run[|steps|], call)
  }

  ghost predicate TimeoutIsOwn(limit: nat) {
    forall run: seq<State>, steps: seq<Step>, topic: Bytes, timed: bool, t: Timer ::
      IsRun(run, steps, topic, timed) && run[|steps|].nextSerial <= limit ==> OwnTimer(run[|steps|], t)
  }

  /** Success is for the call that was answered in every run up to `limit` ids if and only if that is at
      most 2^32; beyond, an old answer can complete the call that has the id now. */
  lemma SuccessIsOwnIff(limit: nat)
    ensures SuccessIsOwn(limit) <==> limit <= UINT32
  {
    hide Enabled, Next, InRange, OwnSuccess;
    if limit <= UINT32 {
      forall run: seq<State>, steps: seq<Step>, topic: Bytes, timed: bool, call: nat
        | IsRun(run, steps, topic, timed) && run[|steps|].nextSerial <= limit
        ensures OwnSuccess(run[|steps|], call)
      {
        if call < |run[|steps|].fired| && run[|steps|].fired[call] != [] {
          ResponseIsForTheCall(run, steps, topic, timed, call);
        } else {
          NoSuccessYet(run[|steps|], call);
        }
      }
    } else {
      var run, steps, p := WrappedCall(false);
      var run2, steps2 := OldAnswerCompletesNewCall(run, steps, p);
      assert !OwnSuccess(run2[|steps2|], UINT32);
    }
  }

  lemma NoSuccessYet(s: State, call: nat)
    requires call >= |s.fired| || s.fired[call] == []
    ensures OwnSuccess(s, call)
  {}

  /** A timer ends only the call it was set for in every run up to `limit` ids if and only if that is at
      most 2^32; beyond, the timer of a finished call ends the one that has the id now. */
  lemma TimeoutIsOwnIff(limit: nat)
    ensures TimeoutIsOwn(limit) <==> limit <= UINT32
  {
    hide Enabled, Next, InRange;
    if limit <= UINT32 {
      forall run: seq<State>, steps: seq<Step>, topic: Bytes, timed: bool, t: Timer
        | IsRun(run, steps, topic, timed) && run[|steps|].nextSerial <= limit
        ensures OwnTimer(run[|steps|], t)
      {
        EarlyTimerIsOwn(run, steps, topic, timed, t);
      }
    } else {
      var run, steps, p := WrappedCall(true);
      assert !OwnTimer(run[|steps|], Timer(0, 0));
    }
  }

  lemma EarlyTimerIsOwn(run: seq<State>, steps: seq<Step>, topic: Bytes, timed: bool, t: Timer)
    requires IsRun(run, steps, topic, timed) && run[|steps|].nextSerial <= UINT32
    ensures OwnTimer(run[|steps|], t)
  {
    hide Enabled, Next;
    RunKeepsInv(run, steps, topic, timed, |steps|);
    var s := run[|steps|];
    if t in s.timers && t.id in s.records {
      SameSerial(s, t.call, s.records[t.id]);
    }
  }

  lemma OneMore(run: seq<State>, steps: seq<Step>, topic: Bytes, timed: bool, step: Step)
    requires IsRun(run, steps, topic, timed) && InRange(run[|steps|]) && Enabled(run[|steps|], step)
    ensures IsRun(run + [Next(run[|steps|], step)], steps + [step], topic, timed)
  {
    hide Enabled, Next, InRange;
  }

  /** `n` calls that take an id each and end before they are recorded. */
  function Rejected(s: State, n: nat): State {
    s.(fired := s.fired + seq(n, _ => [NotSent(NotSerialized)]), throws := s.throws + seq(n, _ => false),
       nextSerial := s.nextSerial + n)
  }

  lemma {:induction false} RejectMany(run: seq<State>, steps: seq<Step>, topic: Bytes, timed: bool, n: nat)
    returns (run2: seq<State>, steps2: seq<Step>)
    requires IsRun(run, steps, topic, timed)
    ensures IsRun(run2, steps2, topic, timed) && run2[|steps2|] == Rejected(run[|steps|], n)
    decreases n
  {
    hide InRange;
    if n == 0 {
      run2, steps2 := run, steps;
      NoneRejected(run[|steps|]);
    } else {
      run2, steps2 := RejectMany(run, steps, topic, timed, n - 1);
      var step := Reject(NotSerialized, false);
      RunInRange(run2, steps2, topic, timed);
      OneMore(run2, steps2, topic, timed, step);
      OneMoreRejected(run[|steps|], n - 1);
      run2, steps2 := run2 + [Next(run2[|steps2|], step)], steps2 + [step];
    }
  }

  lemma RunInRange(run: seq<State>, steps: seq<Step>, topic: Bytes, timed: bool)
    requires IsRun(run, steps, topic, timed)
    ensures |run| == |steps| + 1 && InRange(run[|steps|])
  {
    hide Enabled, Next;
    RunKeepsInv(run, steps, topic, timed, |steps|);
  }

  lemma NoneRejected(s: State)
    ensures Rejected(s, 0) == s
  {
    assert s.fired + seq(0, _ => [NotSent(NotSerialized)]) == s.fired;
    assert s.throws + seq(0, _ => false) == s.throws;
  }

  lemma OneMoreRejected(s: State, n: nat)
    ensures Failed(Rejected(s, n), NotSent(NotSerialized), false, 1) == Rejected(s, n + 1)
  {
    var f, t := seq(n, _ => [NotSent(NotSerialized)]), seq(n, _ => false);
    assert s.fired + f + [[NotSent(NotSerialized)]] == s.fired + seq(n + 1, _ => [NotSent(NotSerialized)]);
    assert s.throws + t + [false] == s.throws + seq(n + 1, _ => false);
  }

  /** The first call, sent, answered with OK and completed; its timer, if it has one, is still pending. */
  ghost predicate FirstDone(s: State, timed: bool, p: Reply) {
    && s.topic == [] && s.timed == timed && s.fired == [[Success]] && s.throws == [false] && s.nextSerial == 1
    && s.serial == map[0 := 0] && s.records == map[] && (timed ==> Timer(0, 0) in s.timers)
    && p in s.replies && s.answers == {Answer(0, 0, [])}
    && ParseResponse(p.bytes) == Ok(Response([], 0, 0, []))
  }

  /** The first call's request, as it is queued. */
  function FirstRequest(): Sent {
    Sent(0, EncodeRequest([], [], 0, [], []))
  }

  lemma FirstBegun(timed: bool) returns (s: State)
    ensures InRange(Init([], timed)) && Enabled(Init([], timed), Begin([], [], [], false))
    ensures s == Next(Init([], timed), Begin([], [], [], false))
    ensures
      s == Init([], timed).(fired := [[]], throws := [false], nextSerial := 1, serial := map[0 := 0],
                            records := map[0 := 0], timers := if timed then {Timer(0, 0)} else {},
                            outgoing := {FirstRequest()})
  {
    hide EncodeRequest, EncodeResponse, ParseRequest, ParseResponse, Encode;
    s := Next(Init([], timed), Begin([], [], [], false));
  }

  lemma FirstServed(s: State) returns (t: State, p: Reply)
    requires s.topic == [] && FirstRequest() in s.requests
    ensures Enabled(s, Serve(FirstRequest(), 0, []))
    ensures InRange(s) ==> t == Next(s, Serve(FirstRequest(), 0, []))
    ensures t == s.(answers := s.answers + {Answer(0, 0, [])}, replies := s.replies + {p})
    ensures p.answer == Answer(0, 0, []) && ParseResponse(p.bytes) == Ok(Response([], 0, 0, []))
  {
    hide EncodeRequest, EncodeResponse, ParseRequest, ParseResponse, Encode;
    RequestRoundTrip([], [], 0, [], []);
    ResponseRoundTrip([], 0, 0, []);
    p := Reply(Answer(0, 0, []), EncodeResponse([], Encode(0, 4), 0, []));
    t := s.(answers := s.answers + {Answer(0, 0, [])}, replies := s.replies + {p});
  }

  lemma FirstDelivered(s: State, p: Reply)
    requires p in s.replies && ParseResponse(p.bytes) == Ok(Response([], 0, 0, []))
    requires s.records == map[0 := 0] && s.fired == [[]] && s.throws == [false]
    ensures InRange(s) && Enabled(s, Deliver(p, Decoded))
    ensures
      Next(s, Deliver(p, Decoded))
      == s.(records := map[], fired := [[Success]], completed := s.completed[0 := p.answer])
  {
    hide ParseResponse;
    var f := Finish(s, 0, Success, false);
    var none: seq<Status> := [];
    assert none + [Success] == [Success];
    assert f.fired == s.fired[0 := [Success]] && f.records == map[];
    assert Reported(Response([], 0, 0, []), Decoded) == Success;
  }

  lemma FirstCall(timed: bool) returns (run: seq<State>, steps: seq<Step>, p: Reply)
    ensures IsRun(run, steps, [], timed) && FirstDone(run[|steps|], timed, p)
  {
    hide EncodeRequest, EncodeResponse, ParseRequest, ParseResponse;
    var s1 := FirstBegun(timed);
    var s2 := Next(s1, Send(FirstRequest()));
    var s3;
    s3, p := FirstServed(s2);
    FirstDelivered(s3, p);
    var s4 := Next(s3, Deliver(p, Decoded));
    run := [Init([], timed), s1, s2, s3, s4];
    steps := [Begin([], [], [], false), Send(FirstRequest()), Serve(FirstRequest(), 0, []), Deliver(p, Decoded)];
    assert run[|steps|] == s4;
    hide Next;
  }

  /** All ids used up by calls that are never sent, and the first id given out again. */
  ghost predicate Wrapped(s: State, timed: bool, p: Reply) {
    && s.nextSerial == UINT32 + 1 && |s.fired| == UINT32 + 1 && |s.throws| == UINT32 + 1
    && s.fired[UINT32] == [] && !s.throws[UINT32]
    && s.records == map[0 := UINT32] && (timed ==> Timer(0, 0) in s.timers)
    && p in s.replies && s.answers == {Answer(0, 0, [])}
    && ParseResponse(p.bytes) == Ok(Response([], 0, 0, []))
  }

  lemma WrappedCall(timed: bool) returns (run: seq<State>, steps: seq<Step>, p: Reply)
    ensures IsRun(run, steps, [], timed) && Wrapped(run[|steps|], timed, p)
  {
    hide FirstDone, Wrapped, Next, Rejected, InRange;
    run, steps, p := FirstCall(timed);
    ghost var first := run[|steps|];
    run, steps := RejectMany(run, steps, [], timed, UINT32 - 1);
    RunInRange(run, steps, [], timed);
    var step := Begin([], [], [], false);
    OneMore(run, steps, [], timed, step);
    BeginWraps(first, timed, p);
    run, steps := run + [Next(run[|steps|], step)], steps + [step];
  }

  lemma BeginWraps(first: State, timed: bool, p: Reply)
    requires FirstDone(first, timed, p) && InRange(Rejected(first, UINT32 - 1))
    ensures Wrapped(Next(Rejected(first, UINT32 - 1), Begin([], [], [], false)), timed, p)
  {
    hide ParseResponse, EncodeRequest, Sendable;
  }

  /** The repeated answer of the first call reaches the call that has its id now. */
  lemma OldAnswerCompletesNewCall(run: seq<State>, steps: seq<Step>, p: Reply)
    returns (run2: seq<State>, steps2: seq<Step>)
    requires IsRun(run, steps, [], false) && Wrapped(run[|steps|], false, p)
    ensures IsRun(run2, steps2, [], false) && run2[|steps2|].nextSerial == UINT32 + 1
    ensures !OwnSuccess(run2[|steps2|], UINT32)
  {
    hide InRange, ParseResponse;
    RunInRange(run, steps, [], false);
    var step := Deliver(p, Decoded);
    OneMore(run, steps, [], false, step);
    run2, steps2 := run + [Next(run[|steps|], step)], steps + [step];
    var s := run2[|steps2|];
    assert s.fired[UINT32] == [] + [Success] && s.answers == {Answer(0, 0, [])};
  }

  // ---------------------------------------------------------------- the client side of the backend

  /** The client's fields: the 32-bit counter and the tool's map from id to call. `view` adds what is
      elsewhere: timers, network and servers. */
  class MqttRpcBackend {
    const topic: Bytes
    const maxPkgSize: nat
    var started: bool
    var reqId: nat
    var records: map<nat, nat>
    var fired: seq<seq<Status>>
    var throwing: seq<bool>
    ghost var view: State

    ghost predicate Valid()
      reads this
    {
      && Inv(view) && view.topic == topic && |topic| < 0x100 && reqId == view.nextSerial % UINT32
      && records == view.records && fired == view.fired && throwing == view.throws
    }

    /** `timed`: a timeout executor is named in the options. */
    constructor (topic: Bytes, maxPkgSize: nat, ghost timed: bool)
      requires |topic| < 0x100
      ensures Valid() && view == Init(topic, timed) && started
      ensures this.topic == topic && this.maxPkgSize == maxPkgSize
    {
      this.topic := topic;
      this.maxPkgSize := maxPkgSize;
      started, reqId, records, fired, throwing := true, 0, map[], [], [];
      view := Init(topic, timed);
      InitInv(topic, timed);
    }

    /** InvokeCallBack: invokes the callback, then clears it; a callback that throws is not cleared. */
    method InvokeCallBack(call: nat, status: Status) returns (threw: bool)
      requires call < |fired| && call < |throwing|
      modifies this`fired
      ensures fired == old(fired)[call := old(fired)[call] + [status]]
      ensures threw == (throwing[call] && |old(fired)[call]| == 0)
    {
      threw := throwing[call] && |fired[call]| == 0;
      fired := fired[call := fired[call] + [status]];
    }

    method FailNewCall(status: Status, throws: bool)
      modifies this`fired, this`throwing
      ensures fired == old(fired) + [[status]] && throwing == old(throwing) + [throws]
    {
      fired := fired + [[status]];
      throwing := throwing + [throws];
    }

    /** `message` is absent when the request does not serialize. The bytes, if any, go to the server's topic. */
    method Invoke(addressOk: bool, ty: Bytes, meta: seq<Bytes>, bufs: seq<Bytes>, serializes: bool, throws: bool)
      returns (step: Step, packet: Result<Bytes>)
      requires Valid() && |meta| % 2 == 0
      modifies this
      ensures Valid() && InRange(old(view)) && Enabled(old(view), step) && view == Next(old(view), step)
      ensures
        || step == Begin(ty, meta, Flatten(bufs), throws)
        || step == Reject(EarlyReason(started, addressOk, ty, topic, meta, serializes), throws)
      ensures step.Begin? <==>
        && old(started) && addressOk && |ty| < 0x100 && serializes && |meta| / 2 < 0x100
        && |EncodeRequest(ty, topic, 0, meta, Flatten(bufs))| <= maxPkgSize
      ensures |fired| == |old(fired)| + 1 && fired[..|old(fired)|] == old(fired)
      ensures
        var told := fired[|old(fired)|];
        var size := 1 + |ty| + 1 + |topic| + 4 + 1 + |EncodeStrings(meta)| + |Flatten(bufs)|;
        if !old(started) || !addressOk then CodesAre(told, [2002])
        else if |ty| > 255 then CodesAre(told, [2000])
        else if !serializes then CodesAre(told, [2006])
        else if |meta| / 2 > 255 then CodesAre(told, [2002])
        else if size > maxPkgSize then CodesAre(told, [2010])
        else if old(reqId) in old(records) then CodesAre(told, [2002])
        else told == []
      ensures records == if fired[|old(fired)|] == [] then old(records)[old(reqId) := |old(fired)|] else old(records)
      ensures reqId == (if !old(started) || !addressOk then old(reqId) else (old(reqId) + 1) % 0x1_0000_0000)
      ensures packet.Ok? ==> Sent(|old(fired)|, packet.value) in view.outgoing
      ensures packet.Ok? ==> packet.value == EncodeRequest(ty, topic, old(reqId), meta, Flatten(bufs))
      ensures packet.Ok? <==> step.Begin? && old(reqId) !in old(records) && Sendable(ty, topic, meta)
      ensures started == old(started)
    {
      hide Inv, Encode, EncodeString, EncodeStrings, Flatten, Sendable, EncodeRequest, ParseRequest, ParseResponse,
        EncodeResponse;
      InvInRange(view);
      RequestSize(ty, topic, meta, Flatten(bufs));
      var metaSize := MetaSize(meta);
      var msgSize := FlattenedSize(bufs);
      var size := 1 + |ty| + 1 + |topic| + 4 + metaSize + msgSize;
      packet := Err(OutOfBounds);
      if !started || !addressOk || |ty| > 255 || !serializes || |meta| / 2 > 255 || size > maxPkgSize {
        var why := EarlyReason(started, addressOk, ty, topic, meta, serializes);
        step := Reject(why, throws);
        RejectCall(why, throws);
        return;
      }
      var call, id := |fired|, reqId;
      step := Begin(ty, meta, Flatten(bufs), throws);
      RecordCall(ty, meta, Flatten(bufs), throws);
      if |fired[call]| == 0 {
        packet := BuildRequest(ty, topic, id, meta, bufs);
      }
    }

    method RejectCall(why: Early, throws: bool)
      requires Valid()
      modifies this`view, this`reqId, this`fired, this`throwing
      ensures Valid() && InRange(old(view)) && view == Next(old(view), Reject(why, throws))
      ensures fired == old(fired) + [[NotSent(why)]] && records == old(records)
      ensures reqId == (old(reqId) + IdsTaken(why)) % UINT32
    {
      hide Inv, ParseRequest, ParseResponse, EncodeRequest, EncodeResponse, Sendable;
      InvInRange(view);
      StepKeepsInv(view, Reject(why, throws));
      view := Next(view, Reject(why, throws));
      reqId := (reqId + IdsTaken(why)) % UINT32;
      FailNewCall(NotSent(why), throws);
    }

    method RecordCall(ty: Bytes, meta: seq<Bytes>, message: Bytes, throws: bool)
      requires Valid() && Enabled(view, Begin(ty, meta, message, throws))
      modifies this`view, this`reqId, this`fired, this`throwing, this`records
      ensures Valid() && InRange(old(view)) && view == Next(old(view), Begin(ty, meta, message, throws))
      ensures fired == old(fired) + [if old(reqId) in old(records) then [InternalError] else []]
      ensures records == if old(reqId) in old(records) then old(records) else old(records)[old(reqId) := |old(fired)|]
      ensures reqId == (old(reqId) + 1) % UINT32
      ensures old(reqId) !in old(records) && Sendable(ty, topic, meta) ==>
        Sent(|old(fired)|, EncodeRequest(ty, topic, old(reqId), meta, message)) in view.outgoing
    {
      hide Inv, ParseRequest, ParseResponse, EncodeRequest, EncodeResponse, Sendable;
      InvInRange(view);
      StepKeepsInv(view, Begin(ty, meta, message, throws));
      view := Next(view, Begin(ty, meta, message, throws));
      var id := reqId;
      reqId := (reqId + 1) % UINT32;
      if id in records {
        FailNewCall(InternalError, throws);
        return;
      }
      records := records[id := |fired|];
      fired := fired + [[]];
      throwing := throwing + [throws];
    }

    /** The handler of the reply topic. `p` is the reply on the network that these bytes are. The callback
        fires twice if and only if it throws when invoked inside the try block. */
    method HandleResponse(data: Bytes, decoding: Decoding, ghost p: Reply)
      requires Valid() && p in view.replies && p.bytes == data
      modifies this
      ensures Valid() && InRange(old(view)) && view == Next(old(view), Deliver(p, decoding))
      ensures
        var r := ParseResponse(data);
        if r.Err? || r.value.id !in old(records) then fired == old(fired)
        else
          var call := old(records)[r.value.id];
          && call < |fired| == |old(fired)| && call < |throwing| && fired == old(fired)[call := fired[call]]
          && fired[call] != [] && fired[call][0] == Reported(r.value, decoding)
          && records == old(records) - {r.value.id}
          && StatusCode(fired[call][0]) ==
             (if r.value.code != 0 then r.value.code
              else match decoding
                   case Decoded => 0
                   case Refused => 2008
                   case Threw => 2002)
          && (|fired[call]| == 2 ==> StatusCode(fired[call][1]) == 2002)
          && (|fired[call]| == 2 <==> throwing[call] && !(r.value.code == 0 && decoding == Threw))
          && |fired[call]| <= 2
    {
      hide Inv, ParseRequest, ParseResponse, EncodeRequest, EncodeResponse, Sendable;
      InvInRange(view);
      InvWaiting(view);
      StepKeepsInv(view, Deliver(p, decoding));
      view := Next(view, Deliver(p, decoding));
      var r := ReadResponse(data);
      if r.Err? || r.value.id !in records {
        return;
      }
      var call := records[r.value.id];
      records := records - {r.value.id};
      ghost var was := fired;
      var status := Reported(r.value, decoding);
      var threw := InvokeCallBack(call, status);
      if threw && Guarded(r.value, decoding) {
        var again := InvokeCallBack(call, InternalError);
      }
      assert was[call] + [status] == [status];
      assert was[call] + [status] + [InternalError] == was[call] + [status, InternalError];
    }

    /** The timeout executor's task: it looks the id up, whichever call has it now. */
    method HandleTimeout(id: nat, ghost timer: Timer)
      requires Valid() && timer in view.timers && timer.id == id
      modifies this
      ensures Valid() && InRange(old(view)) && view == Next(old(view), Timeout(timer))
      ensures id !in old(records) ==> records == old(records) && fired == old(fired)
      ensures id in old(records) ==>
        var call := old(records)[id];
        && records == old(records) - {id} && call < |fired| == |old(fired)|
        && fired == old(fired)[call := fired[call]] && CodesAre(fired[call], [2])
    {
      hide Inv, ParseRequest, ParseResponse, EncodeRequest, EncodeResponse, Sendable;
      InvInRange(view);
      InvWaiting(view);
      StepKeepsInv(view, Timeout(timer));
      view := Next(view, Timeout(timer));
      if id in records {
        var call := records[id];
        records := records - {id};
        var threw := InvokeCallBack(call, TimedOut);
        assert [] + [TimedOut] == [TimedOut];
      }
    }
  }

  /** The callback has been invoked with these codes. */
  predicate CodesAre(told: seq<Status>, codes: seq<nat>) {
    |told| == |codes| && forall i :: 0 <= i < |told| ==> StatusCode(told[i]) == codes[i]
  }

  /** In the order Invoke checks. */
  function EarlyReason(
      started: bool, addressOk: bool, ty: Bytes, topic: Bytes, meta: seq<Bytes>, serializes: bool): Early
  {
    if !started then NotStarted
    else if !addressOk then BadAddress
    else if |ty| > 255 || |topic| > 255 then NameTooLong
    else if !serializes then NotSerialized
    else if |meta| / 2 > 255 then Early.TooManyPairs
    else Early.TooLarge
  }

  lemma InvInRange(s: State)
    requires Inv(s)
    ensures InRange(s)
  {}

  lemma InvWaiting(s: State)
    requires Inv(s)
    ensures forall id :: id in s.records ==> s.records[id] < |s.fired| && s.fired[s.records[id]] == []
  {}

  lemma RequestSize(ty: Bytes, topic: Bytes, meta: seq<Bytes>, message: Bytes)
    ensures forall id ::
      |EncodeRequest(ty, topic, id, meta, message)|
      == 1 + |ty| + 1 + |topic| + 4 + 1 + |EncodeStrings(meta)| + |message|
  {}
}
