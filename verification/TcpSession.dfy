/** The sender coroutine of a TCP session on its strand, SendMsg, and shutting down. The client sends
    heartbeats when its timer expires; the server's timer only wakes the loop. */
module TcpSession {
  import opened Buffer
  import opened TcpFrames
  import opened Seqs

  datatype Timer = Armed | Cancelled | Expired

  /** Where the coroutine is suspended. Writing([]) and Beating([]): the write is complete and its
      handler queued. */
  datatype Pc = Start | Writing(left: Bytes) | Waiting(timer: Timer) | Beating(left: Bytes) | Exited

  /** What was handed to the socket: a message or a heartbeat. */
  datatype Item = Item(body: Bytes, beat: bool)

  /** `running`: state_ is kStart. `closed`: the shutdown task has run on the strand. `wire`: the bytes
      the socket took. `sent`: the messages SendMsg accepted. `late`: the shutdown task found a complete
      write whose handler had not run. */
  datatype State = State(
    running: bool, closed: bool, queue: seq<Bytes>, pc: Pc,
    wire: Bytes, log: seq<Item>, sent: seq<Bytes>, late: bool)

  datatype Step =
    | Send(body: Bytes)
    | Resume
    | WriteSome(n: nat)
    | WriteFails
    | Expire
    | Stop
    | ShutdownTask

  function Init(): State {
    State(true, false, [], Start, [], [], [], false)
  }

  function Pending(pc: Pc): Bytes {
    match pc
    case Writing(left) => left
    case Beating(left) => left
    case _ => []
  }

  predicate Enabled(s: State, step: Step) {
    match step
    case Send(_) => true
    case Resume =>
      (s.pc == Start || s.pc == Writing([]) || s.pc == Beating([]))
      || (s.pc.Waiting? && s.pc.timer != Armed)
    case WriteSome(n) => !s.closed && 0 < n <= |Pending(s.pc)|
    case WriteFails => Pending(s.pc) != []
    case Expire => s.pc == Waiting(Armed)
    case Stop => true
    case ShutdownTask => !s.running && !s.closed
  }

  function Wrote(pc: Pc, n: nat): Pc
    requires n <= |Pending(pc)|
  {
    match pc
    case Writing(left) => Writing(left[n..])
    case Beating(left) => Beating(left[n..])
    case _ => pc
  }

  function Items(list: seq<Bytes>): seq<Item> {
    seq(|list|, i requires 0 <= i < |list| => Item(list[i], false))
  }

  /** The coroutine ends and calls Shutdown itself, which does nothing if someone else already has. */
  function Exit(s: State): State {
    s.(pc := Exited, running := false, closed := s.closed || s.running)
  }

  /** `while (!data_list_.empty())`, down to the next suspension. */
  function DrainQueue(s: State): State {
    if s.queue != [] then
      s.(queue := [], pc := Writing(Stream(s.queue)), log := s.log + Items(s.queue))
    else s.(pc := Waiting(Armed))
  }

  /** `while (state_.load() == kStart)`. */
  function LoopTop(s: State): State {
    if s.running then DrainQueue(s) else Exit(s)
  }

  function Beat(s: State): State {
    s.(pc := Beating(Frame([])), log := s.log + [Item([], true)])
  }

  function Next(s: State, step: Step, client: bool): State
    requires Enabled(s, step)
  {
    match step
    case Send(body) =>
      if !s.running then s
      else
        s.(queue := s.queue + [body], sent := s.sent + [body],
           pc := if s.pc == Waiting(Armed) then Waiting(Cancelled) else s.pc)
    case Resume =>
      if s.pc.Writing? then DrainQueue(s)
      else if s.pc == Waiting(Expired) && client then Beat(s)
      else LoopTop(s)
    case WriteSome(n) => s.(wire := s.wire + Pending(s.pc)[..n], pc := Wrote(s.pc, n))
    case WriteFails => Exit(s)
    case Expire => s.(pc := Waiting(Expired))
    case Stop => s.(running := false)
    case ShutdownTask =>
      s.(closed := true, late := s.pc == Writing([]),
         pc := if s.pc == Waiting(Armed) then Waiting(Cancelled) else s.pc)
  }

  // ---------------------------------------------------------------- what holds in every run

  function Bodies(log: seq<Item>): seq<Bytes> {
    seq(|log|, i requires 0 <= i < |log| => log[i].body)
  }

  /** The log without the heartbeats. */
  function Messages(log: seq<Item>): seq<Bytes> {
    if log == [] then []
    else
      var n := |log| - 1;
      Messages(log[..n]) + if log[n].beat then [] else [log[n].body]
  }

  ghost predicate WireMatches(s: State) {
    if s.pc.Exited? then s.wire <= Stream(Bodies(s.log)) else s.wire + Pending(s.pc) == Stream(Bodies(s.log))
  }

  /** Nothing is lost, doubled or reordered between SendMsg and the socket. */
  ghost predicate Conserved(s: State) {
    Messages(s.log) + s.queue == s.sent
  }

  ghost predicate BeatsAreEmpty(s: State) {
    forall i :: 0 <= i < |s.log| && s.log[i].beat ==> s.log[i].body == []
  }

  /** The sender never sleeps on a timer nobody cancelled while messages wait, and after the shutdown
      task only if that task came between a write and its handler. */
  ghost predicate Awake(s: State) {
    && (s.pc == Waiting(Armed) ==> s.queue == [])
    && (s.closed ==> !s.running)
    && (s.closed && s.pc == Waiting(Armed) ==> s.late)
  }

  ghost predicate Inv(s: State) {
    WireMatches(s) && Conserved(s) && BeatsAreEmpty(s) && Awake(s) && LateOnlyThen(s)
  }

  ghost predicate LateOnlyThen(s: State) {
    s.closed && s.pc == Writing([]) ==> s.late
  }

  lemma StepKeepsInv(s: State, step: Step, client: bool)
    requires Inv(s) && Enabled(s, step)
    ensures Inv(Next(s, step, client))
  {
    StepKeepsWire(s, step, client);
    StepConserves(s, step, client);
    StepKeepsAwake(s, step, client);
  }

  lemma StepKeepsAwake(s: State, step: Step, client: bool)
    requires Awake(s) && LateOnlyThen(s) && BeatsAreEmpty(s) && Enabled(s, step)
    ensures Awake(Next(s, step, client)) && LateOnlyThen(Next(s, step, client)) && BeatsAreEmpty(Next(s, step, client))
  {
    hide Stream, Frame;
    if step.Resume? && s.queue != [] {
      StreamNotEmpty(s.queue);
    }
  }

  lemma StreamNotEmpty(list: seq<Bytes>)
    requires list != []
    ensures Stream(list) != []
  {
    assert |Frame(list[0])| >= HEAD_SIZE;
  }

  lemma StepKeepsWire(s: State, step: Step, client: bool)
    requires WireMatches(s) && Enabled(s, step)
    ensures WireMatches(Next(s, step, client))
  {
    hide Stream, Frame;
    match step
    case Resume => ResumeKeepsWire(s, client);
    case WriteSome(n) =>
      assert s.wire + Pending(s.pc) == (s.wire + Pending(s.pc)[..n]) + Pending(s.pc)[n..];
    case _ =>
  }

  lemma ResumeKeepsWire(s: State, client: bool)
    requires WireMatches(s) && Enabled(s, Resume)
    ensures WireMatches(Next(s, Resume, client))
  {
    hide Stream, Frame, Bodies;
    assert s.wire == Stream(Bodies(s.log));
    if Next(s, Resume, client).pc.Writing? {
      BodiesAppend(s.log, Items(s.queue));
      BodiesOfItems(s.queue);
      StreamAppend(Bodies(s.log), s.queue);
    } else if Next(s, Resume, client).pc.Beating? {
      BodiesAppend(s.log, [Item([], true)]);
      BodiesOfBeat();
      StreamAppend(Bodies(s.log), [[]]);
      StreamOne([]);
    }
  }

  lemma BodiesOfItems(list: seq<Bytes>)
    ensures Bodies(Items(list)) == list
  {}

  lemma BodiesOfBeat()
    ensures Bodies([Item([], true)]) == [[]]
  {}

  lemma BodiesAppend(a: seq<Item>, b: seq<Item>)
    ensures Bodies(a + b) == Bodies(a) + Bodies(b)
  {}

  lemma StepConserves(s: State, step: Step, client: bool)
    requires Conserved(s) && Enabled(s, step)
    ensures Conserved(Next(s, step, client))
  {
    hide Stream, Frame, Messages;
    match step
    case Send(body) =>
      assert Messages(s.log) + (s.queue + [body]) == (Messages(s.log) + s.queue) + [body];
    case Resume =>
      MessagesAppend(s.log, s.queue);
      MessagesBeat(s.log);
      assert Messages(s.log) + s.queue + [] == Messages(s.log) + s.queue;
    case _ =>
  }

  lemma {:induction false} MessagesAppend(log: seq<Item>, list: seq<Bytes>)
    ensures Messages(log + Items(list)) == Messages(log) + list
    decreases |list|
  {
    if list == [] {
      assert log + Items(list) == log;
    } else {
      var n := |list| - 1;
      MessagesAppend(log, list[..n]);
      var whole := log + Items(list);
      assert whole[..|whole| - 1] == log + Items(list[..n]);
      assert list == list[..n] + [list[n]];
    }
  }

  lemma MessagesBeat(log: seq<Item>)
    ensures Messages(log + [Item([], true)]) == Messages(log)
  {
    assert (log + [Item([], true)])[..|log|] == log;
  }

  // ---------------------------------------------------------------- runs

  ghost predicate IsRun(run: seq<State>, steps: seq<Step>, client: bool) {
    && |run| == |steps| + 1 && run[0] == Init()
    && forall i :: 0 <= i < |steps| ==> Enabled(run[i], steps[i]) && run[i + 1] == Next(run[i], steps[i], client)
  }

  lemma {:induction false} RunKeepsInv(run: seq<State>, steps: seq<Step>, client: bool, k: nat)
    requires IsRun(run, steps, client) && k < |run|
    ensures Inv(run[k])
    decreases k
  {
    hide Inv, Enabled, Next;
    if k == 0 {
      InitInv();
    } else {
      RunKeepsInv(run, steps, client, k - 1);
      StepKeepsInv(run[k - 1], steps[k - 1], client);
    }
  }

  lemma InitInv()
    ensures Inv(Init())
  {
    assert Bodies([]) == [];
  }

  /** End to end: whatever part of the sender's bytes has arrived, the receiver has posted, in order and
      once each, messages the other side sent, and between them only empty heartbeats. */
  lemma DeliveredInOrder(run: seq<State>, steps: seq<Step>, client: bool, k: nat, arrived: Bytes, max: nat)
    requires IsRun(run, steps, client) && k < |run| && arrived <= run[k].wire
    requires forall i :: 0 <= i < |run[k].sent| ==> |run[k].sent[i]| < UINT32
    ensures
      var posted := Posts(arrived, max);
      |posted| <= |run[k].log|
      && posted == Bodies(run[k].log[..|posted|])
      && Messages(run[k].log[..|posted|]) <= run[k].sent
    ensures forall i :: 0 <= i < |run[k].log| && run[k].log[i].beat ==> run[k].log[i].body == []
  {
    hide IsRun, Enabled, Next, Posts, Stream, Messages;
    RunKeepsInv(run, steps, client, k);
    var s := run[k];
    forall i | 0 <= i < |s.log| ensures |Bodies(s.log)[i]| < UINT32 {
      if !s.log[i].beat {
        MessageWasSent(s.log, i);
        var j :| 0 <= j < |Messages(s.log)| && Messages(s.log)[j] == s.log[i].body;
        assert s.sent[j] == s.log[i].body;
      }
    }
    assert s.wire <= Stream(Bodies(s.log)) by {
      if !s.pc.Exited? {
        assert s.wire == (s.wire + Pending(s.pc))[..|s.wire|];
      }
    }
    assert arrived <= Stream(Bodies(s.log));
    PostsInOrder(Bodies(s.log), arrived, max);
    var posted := Posts(arrived, max);
    assert posted == Bodies(s.log)[..|posted|] == Bodies(s.log[..|posted|]);
    MessagesPrefix(s.log, |posted|);
  }

  // ---------------------------------------------------------------- heartbeats and acceptance

  /** How many heartbeats the log holds. */
  function Beats(log: seq<Item>): nat {
    if log == [] then 0
    else
      var n := |log| - 1;
      Beats(log[..n]) + if log[n].beat then 1 else 0
  }

  /** The client's sender has found its timer expired. */
  predicate Expires(s: State, step: Step, client: bool) {
    client && step.Resume? && s.pc == Waiting(Expired)
  }

  /** How many such steps were taken before state k. */
  ghost function Expiries(run: seq<State>, steps: seq<Step>, client: bool, k: nat): nat
    requires k <= |steps| && |run| == |steps| + 1
  {
    if k == 0 then 0
    else Expiries(run, steps, client, k - 1) + if Expires(run[k - 1], steps[k - 1], client) then 1 else 0
  }

  /** One expiry on the client: one empty frame is handed to the socket, and nothing else changes. */
  lemma ExpiryBeats(s: State, client: bool)
    requires Enabled(s, Resume) && Expires(s, Resume, client)
    ensures
      var t := Next(s, Resume, client);
      && Pending(t.pc) == [89, 84, 0, 0, 0, 0] && t.pc.Beating? && t.log == s.log + [Item([], true)]
      && t.queue == s.queue && t.running == s.running && t.closed == s.closed && t.wire == s.wire
  {
    FrameBytes([]);
  }

  lemma StepBeats(s: State, step: Step, client: bool)
    requires Enabled(s, step)
    ensures Beats(Next(s, step, client).log) == Beats(s.log) + if Expires(s, step, client) then 1 else 0
  {
    hide Stream, Frame, Beats;
    if Expires(s, step, client) {
      OneBeat(s.log);
    } else if step.Resume? {
      NoBeats(s.log, s.queue);
    }
  }

  lemma OneBeat(log: seq<Item>)
    ensures Beats(log + [Item([], true)]) == Beats(log) + 1
  {
    assert (log + [Item([], true)])[..|log|] == log;
  }

  lemma {:induction false} NoBeats(log: seq<Item>, list: seq<Bytes>)
    ensures Beats(log + Items(list)) == Beats(log)
    decreases |list|
  {
    if list == [] {
      assert log + Items(list) == log;
    } else {
      var n := |list| - 1;
      NoBeats(log, list[..n]);
      var whole := log + Items(list);
      assert whole[..|whole| - 1] == log + Items(list[..n]);
    }
  }

  /** Over every run: one heartbeat for each time the client's sender found its timer expired, and never one
      from a server. */
  lemma {:induction false} BeatsAreExpiries(run: seq<State>, steps: seq<Step>, client: bool, k: nat)
    requires IsRun(run, steps, client) && k < |run|
    ensures Beats(run[k].log) == Expiries(run, steps, client, k)
    ensures !client ==> forall i :: 0 <= i < |run[k].log| ==> !run[k].log[i].beat
    decreases k
  {
    hide Enabled, Next, Expires;
    if k > 0 {
      BeatsAreExpiries(run, steps, client, k - 1);
      StepBeats(run[k - 1], steps[k - 1], client);
    }
    if !client {
      NoExpiries(run, steps, k);
      NoneBeats(run[k].log);
    }
  }

  lemma {:induction false} NoExpiries(run: seq<State>, steps: seq<Step>, k: nat)
    requires k <= |steps| && |run| == |steps| + 1
    ensures Expiries(run, steps, false, k) == 0
  {
    if k > 0 {
      NoExpiries(run, steps, k - 1);
    }
  }

  lemma {:induction false} NoneBeats(log: seq<Item>)
    requires Beats(log) == 0
    ensures forall i :: 0 <= i < |log| ==> !log[i].beat
    decreases |log|
  {
    if log != [] {
      NoneBeats(log[..|log| - 1]);
    }
  }

  /** What the socket, the timer and other threads do: the socket takes bytes from the front of what is in
      hand, a failed write ends the sender, a timer runs out, a stop and its task take effect. */
  lemma OutsideSteps(s: State, step: Step, client: bool)
    requires Enabled(s, step)
    ensures
      var t := Next(s, step, client);
      match step
      case WriteSome(n) =>
        && 0 < n <= |Pending(s.pc)| && t.wire == s.wire + Pending(s.pc)[..n] && Pending(t.pc) == Pending(s.pc)[n..]
        && t == s.(wire := t.wire, pc := t.pc) && (t.pc.Writing? <==> s.pc.Writing?)
      case WriteFails => t == s.(pc := Exited, running := false, closed := s.closed || s.running)
      case Expire => s.pc == Waiting(Armed) && t == s.(pc := Waiting(Expired))
      case Stop => t == s.(running := false)
      case ShutdownTask =>
        && t.closed && t == s.(closed := true, late := t.late, pc := t.pc)
        && t.pc == if s.pc == Waiting(Armed) then Waiting(Cancelled) else s.pc
      case _ => true
  {}

  /** The bodies of the Send steps taken while the session was running, up to state k. */
  ghost function SentWhileRunning(run: seq<State>, steps: seq<Step>, k: nat): seq<Bytes>
    requires k <= |steps| && |run| == |steps| + 1
  {
    if k == 0 then []
    else
      SentWhileRunning(run, steps, k - 1)
      + if steps[k - 1].Send? && run[k - 1].running then [steps[k - 1].body] else []
  }

  lemma StepAccepts(s: State, step: Step, client: bool)
    requires Enabled(s, step)
    ensures
      var t := Next(s, step, client);
      && t.sent == s.sent + (if step.Send? && s.running then [step.body] else [])
      && (t.running <==> s.running && step != Stop && step != WriteFails)
  {
    hide Stream, Frame;
  }

  /** Over every run: accepted are exactly the messages sent while the session was running, which is until
      the first stop or failed write. */
  lemma {:induction false} AcceptedAreSent(run: seq<State>, steps: seq<Step>, client: bool, k: nat)
    requires IsRun(run, steps, client) && k < |run|
    ensures run[k].sent == SentWhileRunning(run, steps, k)
    ensures run[k].running <==> forall i :: 0 <= i < k ==> steps[i] != Stop && steps[i] != WriteFails
    decreases k
  {
    hide Enabled, Next;
    if k > 0 {
      AcceptedAreSent(run, steps, client, k - 1);
      StepAccepts(run[k - 1], steps[k - 1], client);
    }
  }

  lemma {:induction false} MessageWasSent(log: seq<Item>, i: nat)
    requires i < |log| && !log[i].beat
    ensures exists j :: 0 <= j < |Messages(log)| && Messages(log)[j] == log[i].body
    decreases |log|
  {
    var n := |log| - 1;
    var init := Messages(log[..n]);
    if i == n {
      assert Messages(log)[|init|] == log[n].body;
    } else {
      MessageWasSent(log[..n], i);
      var j :| 0 <= j < |init| && init[j] == log[..n][i].body;
      assert Messages(log)[j] == log[i].body;
    }
  }

  lemma {:induction false} MessagesPrefix(log: seq<Item>, k: nat)
    requires k <= |log|
    ensures Messages(log[..k]) <= Messages(log)
    decreases |log|
  {
    if k == |log| {
      assert log[..k] == log;
    } else {
      var n := |log| - 1;
      MessagesPrefix(log[..n], k);
      assert log[..n][..k] == log[..k];
    }
  }

  /** While messages wait and the sender has not given up, it has work in hand or is about to run. */
  lemma NeverAsleepOnWork(run: seq<State>, steps: seq<Step>, client: bool, k: nat)
    requires IsRun(run, steps, client) && k < |run| && run[k].queue != [] && !run[k].pc.Exited?
    ensures Pending(run[k].pc) != [] || Enabled(run[k], Resume)
  {
    hide IsRun, Next;
    RunKeepsInv(run, steps, client, k);
  }

  /** The shutdown task does not always end the sender: it goes to sleep on a fresh timer, which on the
      server runs for an hour, exactly when the task came between the last write and its handler. */
  lemma SleepsAfterShutdownIff(s: State, client: bool)
    requires Inv(s) && Enabled(s, ShutdownTask)
    ensures
      var t := Next(s, ShutdownTask, client);
      (Enabled(t, Resume) && Next(t, Resume, client).pc == Waiting(Armed)) <==> (s.pc == Writing([]) && s.queue == [])
  {
    hide Stream, Frame;
  }

  /** Such a run exists. */
  lemma SleepsAfterShutdown(client: bool)
    ensures
      exists run: seq<State>, steps: seq<Step> ::
        IsRun(run, steps, client) && run[|steps|].closed && run[|steps|].pc == Waiting(Armed)
  {
    hide Frame, Stream, Next, Enabled;
    var n := |Frame([])|;
    var s1, s2 := SendAndResume(client);
    var s3, s4, s5, s6 := StopBehindWrite(s2, client);
    var run := [Init(), s1, s2, s3, s4, s5, s6];
    var steps := [Send([]), Resume, WriteSome(n), Stop, ShutdownTask, Resume];
    assert run[|steps|] == s6;
    assert IsRun(run, steps, client);
  }

  lemma SendAndResume(client: bool) returns (s1: State, s2: State)
    ensures Enabled(Init(), Send([])) && s1 == Next(Init(), Send([]), client)
    ensures Enabled(s1, Resume) && s2 == Next(s1, Resume, client)
    ensures s2.running && !s2.closed && s2.queue == [] && s2.pc == Writing(Frame([]))
  {
    hide Frame;
    StreamOne([]);
    s1 := Next(Init(), Send([]), client);
    assert s1.queue == [[]];
    s2 := Next(s1, Resume, client);
  }

  /** A complete write, the stop, the task, and only then the write's handler. */
  lemma StopBehindWrite(s2: State, client: bool) returns (s3: State, s4: State, s5: State, s6: State)
    requires s2.running && !s2.closed && s2.queue == [] && s2.pc == Writing(Frame([]))
    ensures Enabled(s2, WriteSome(|Frame([])|)) && s3 == Next(s2, WriteSome(|Frame([])|), client)
    ensures Enabled(s3, Stop) && s4 == Next(s3, Stop, client)
    ensures Enabled(s4, ShutdownTask) && s5 == Next(s4, ShutdownTask, client)
    ensures Enabled(s5, Resume) && s6 == Next(s5, Resume, client)
    ensures s6.closed && s6.pc == Waiting(Armed)
  {
    hide Stream;
    var f := Frame([]);
    assert |f| == HEAD_SIZE && f[|f|..] == [];
    s3 := Next(s2, WriteSome(|f|), client);
    s4 := Next(s3, Stop, client);
    s5 := Next(s4, ShutdownTask, client);
    s6 := Next(s5, Resume, client);
  }

  // ---------------------------------------------------------------- the session object

  class Session {
    const client: bool
    var running: bool
    var closed: bool
    var dataList: seq<Bytes>
    var pc: Pc
    ghost var wire: Bytes
    ghost var log: seq<Item>
    ghost var sent: seq<Bytes>
    ghost var late: bool

    ghost function View(): State
      reads this
    {
      State(running, closed, dataList, pc, wire, log, sent, late)
    }

    constructor (client: bool)
      ensures this.client == client && View() == Init()
    {
      this.client := client;
      running, closed, dataList, pc := true, false, [], Start;
      wire, log, sent, late := [], [], [], false;
    }

    method CancelTimer()
      modifies this`pc
      ensures pc == if old(pc) == Waiting(Armed) then Waiting(Cancelled) else old(pc)
    {
      if pc == Waiting(Armed) {
        pc := Waiting(Cancelled);
      }
    }

    /** SendMsg's task on the strand. */
    method SendMsg(body: Bytes)
      modifies this
      ensures View() == Next(old(View()), Send(body), client)
      ensures !old(running) ==> View() == old(View())
      ensures old(running) ==> dataList == old(dataList) + [body] && sent == old(sent) + [body]
      ensures pc == if old(running) && old(pc) == Waiting(Armed) then Waiting(Cancelled) else old(pc)
    {
      if !running {
        return;
      }
      dataList := dataList + [body];
      sent := sent + [body];
      CancelTimer();
    }

    /** The coroutine, from the point where it was suspended to the next one. */
    method RunSender()
      requires Enabled(View(), Resume)
      modifies this
      ensures View() == Next(old(View()), Resume, client)
      ensures client && old(pc) == Waiting(Expired) ==>
        Pending(pc) == [89, 84, 0, 0, 0, 0] && log == old(log) + [Item([], true)] && dataList == old(dataList)
      ensures old(pc).Writing? || (old(running) && !(client && old(pc) == Waiting(Expired))) ==>
        && dataList == [] && running == old(running) && log == old(log) + Items(old(dataList))
        && pc == if old(dataList) == [] then Waiting(Armed) else Writing(Stream(old(dataList)))
      ensures !old(running) && !old(pc).Writing? && !(client && old(pc) == Waiting(Expired)) ==>
        pc == Exited && !running && log == old(log)
    {
      hide Stream, Frame;
      if pc.Writing? {
        DrainDataList();
        return;
      }
      if client && pc == Waiting(Expired) {
        StreamOne([]);
        FrameBytes([]);
        var bufs := GatherBatch([[]]);
        pc := Beating(Flatten(bufs));
        log := log + [Item([], true)];
        return;
      }
      if running {
        DrainDataList();
      } else {
        Shutdown();
        pc := Exited;
      }
    }

    method DrainDataList()
      modifies this`dataList, this`pc, this`log
      ensures View() == DrainQueue(old(View()))
    {
      hide Stream, Frame;
      if dataList != [] {
        var list := dataList;
        dataList := [];
        var bufs := GatherBatch(list);
        pc := Writing(Flatten(bufs));
        log := log + Items(list);
      } else {
        pc := Waiting(Armed);
      }
    }

    /** async_write reports an error: the exception ends the coroutine. */
    method WriteError()
      requires Enabled(View(), WriteFails)
      modifies this
      ensures View() == Next(old(View()), WriteFails, client)
      ensures pc == Exited && !running && log == old(log) && dataList == old(dataList)
    {
      Shutdown();
      pc := Exited;
    }

    /** The part of a Shutdown from another thread that runs on the strand. */
    method RunShutdownTask()
      requires Enabled(View(), ShutdownTask)
      modifies this
      ensures View() == Next(old(View()), ShutdownTask, client)
      ensures closed && pc == (if old(pc) == Waiting(Armed) then Waiting(Cancelled) else old(pc))
      ensures log == old(log) && dataList == old(dataList) && running == old(running)
    {
      late := pc == Writing([]);
      CancelTimer();
      closed := true;
    }

    /** Shutdown on the strand: only the caller that finds the session running dispatches the task. */
    method Shutdown()
      modifies this`running, this`closed
      ensures !running && closed == (old(closed) || old(running))
    {
      if running {
        closed := true;
      }
      running := false;
    }
  }
}
