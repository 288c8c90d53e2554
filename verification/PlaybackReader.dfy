/** Taking the next batch of messages from a bag: file after file, each read through a window of log
    time. The reader library is assumed to hand out a file's messages in log-time order, those of the
    wanted topics with start <= time and, when a stop time is set, time < stop. */
module PlaybackReader {

  const MAX_RECORDS: nat := 1000
  const ONE_SECOND: nat := 1_000_000_000
  const UINT64: nat := 0x1_0000_0000_0000_0000

  datatype Msg = Msg(id: nat, time: nat, wanted: bool)

  /** `readable`: the file opens and has channels. */
  datatype File = File(start: nat, readable: bool, msgs: seq<Msg>)

  /** cur_mcap_file_index_, and what the iterator has not yet reached. */
  datatype Reader = Reader(next: nat, rest: seq<Msg>)

  /** `past`: the message beyond the stop time that was read and thrown away. */
  datatype Fetched =
    | Batch(reader: Reader, records: seq<Msg>)
    | Stopped(reader: Reader, records: seq<Msg>, past: Msg)
    | PastTheEnd(reader: Reader, records: seq<Msg>)

  predicate InWindow(m: Msg, start: nat, stop: nat) {
    m.wanted && start <= m.time && (stop > 0 ==> m.time < stop)
  }

  function Window(msgs: seq<Msg>, start: nat, stop: nat): (r: seq<Msg>)
    ensures forall i :: 0 <= i < |r| ==> InWindow(r[i], start, stop) && r[i] in msgs
  {
    if msgs == [] then []
    else if InWindow(msgs[0], start, stop) then [msgs[0]] + Window(msgs[1..], start, stop)
    else Window(msgs[1..], start, stop)
  }

  /** OpenNewMcaptoPlayBack: the index moves on even when the file cannot be used. */
  function Open(files: seq<File>, r: Reader, start: nat, stop: nat): (Reader, bool) {
    if r.next >= |files| then (Reader(r.next, []), false)
    else
      var f := files[r.next];
      if (stop > 0 && f.start > stop) || !f.readable then (Reader(r.next + 1, []), false)
      else (Reader(r.next + 1, Window(f.msgs, start, stop)), true)
  }

  predicate Past(m: Msg, stop: nat) {
    stop > 0 && m.time > stop
  }

  /** Whether the message just added ends the batch. `first`: cur_start_timestamp. */
  predicate Ends(first: nat, m: Msg, count: nat) {
    first != 0 && ((m.time - first) % UINT64 >= ONE_SECOND || count >= MAX_RECORDS)
  }

  /** The loop of AddPlaybackTasks. After opening a file the iterator is used without a look at its end. */
  function Collect(files: seq<File>, r: Reader, start: nat, stop: nat, records: seq<Msg>, first: nat): Fetched
    decreases |files| - r.next, |r.rest|
  {
    if r.rest == [] then
      var (now, ok) := Open(files, r, start, stop);
      if !ok then Batch(now, records)
      else if now.rest == [] then PastTheEnd(now, records)
      else Collect(files, now, start, stop, records, first)
    else
      var m, left := r.rest[0], r.(rest := r.rest[1..]);
      if Past(m, stop) then Stopped(left, records, m)
      else if Ends(first, m, |records| + 1) then Batch(left, records + [m])
      else Collect(files, left, start, stop, records + [m], if first == 0 then m.time else first)
  }

  method FetchBatch(files: seq<File>, reader: Reader, start: nat, stop: nat) returns (f: Fetched)
    ensures f == Collect(files, reader, start, stop, [], 0)
  {
    var r, records, first := reader, [], 0;
    while true
      invariant Collect(files, r, start, stop, records, first) == Collect(files, reader, start, stop, [], 0)
      decreases |files| - r.next, |r.rest|
    {
      if r.rest == [] {
        var (now, ok) := Open(files, r, start, stop);
        if !ok {
          return Batch(now, records);
        }
        if now.rest == [] {
          return PastTheEnd(now, records);
        }
        r := now;
      } else {
        var m := r.rest[0];
        r := r.(rest := r.rest[1..]);
        if Past(m, stop) {
          return Stopped(r, records, m);
        }
        var ends := Ends(first, m, |records| + 1);
        records := records + [m];
        if ends {
          return Batch(r, records);
        }
        if first == 0 {
          first := m.time;
        }
      }
    }
  }

  // ---------------------------------------------------------------- what is read, and how much

  /** The messages one call can see: up to the first file that does not open, or opens with nothing. */
  function Available(files: seq<File>, r: Reader, start: nat, stop: nat): seq<Msg>
    decreases |files| - r.next
  {
    var (now, ok) := Open(files, r, start, stop);
    r.rest + if ok && now.rest != [] then Available(files, now, start, stop) else []
  }

  /** How many messages the loop takes from `s`, having taken `count`. */
  function Taken(s: seq<Msg>, stop: nat, count: nat, first: nat): (n: nat)
    ensures n <= |s|
  {
    if s == [] || Past(s[0], stop) then 0
    else if Ends(first, s[0], count + 1) then 1
    else 1 + Taken(s[1..], stop, count + 1, if first == 0 then s[0].time else first)
  }

  /** A batch is a prefix of what can be seen, whatever the file boundaries. */
  lemma {:induction false} BatchIsPrefix(
      files: seq<File>, r: Reader, start: nat, stop: nat, records: seq<Msg>, first: nat)
    ensures
      var s := Available(files, r, start, stop);
      var n := Taken(s, stop, |records|, first);
      Collect(files, r, start, stop, records, first).records == records + s[..n]
    decreases |files| - r.next, |r.rest|
  {
    hide Past, Ends, Open, Window;
    var s := Available(files, r, start, stop);
    if r.rest == [] {
      OpenMoves(files, r, start, stop);
      var (now, ok) := Open(files, r, start, stop);
      if ok && now.rest != [] {
        BatchIsPrefix(files, now, start, stop, records, first);
        assert s == Available(files, now, start, stop);
      } else {
        assert s == [];
        assert records + [] == records;
      }
    } else {
      var m, left := r.rest[0], r.(rest := r.rest[1..]);
      RestAside(files, r, start, stop);
      assert s[1..] == Available(files, left, start, stop) && s[0] == m;
      var n := Taken(s, stop, |records|, first);
      if !Past(m, stop) && !Ends(first, m, |records| + 1) {
        BatchIsPrefix(files, left, start, stop, records + [m], if first == 0 then m.time else first);
        OneFirst(records, s, n);
      } else if Past(m, stop) {
        assert records + s[..0] == records;
      } else {
        assert s[..1] == [m];
      }
    }
  }

  lemma OneFirst(records: seq<Msg>, s: seq<Msg>, n: nat)
    requires 0 < n <= |s|
    ensures records + s[..n] == (records + [s[0]]) + s[1..][..n - 1]
  {}

  lemma OpenMoves(files: seq<File>, r: Reader, start: nat, stop: nat)
    ensures var (now, ok) := Open(files, r, start, stop); ok ==> r.next < |files| && now.next == r.next + 1
  {}

  lemma RestAside(files: seq<File>, r: Reader, start: nat, stop: nat)
    requires r.rest != []
    ensures Available(files, r, start, stop) == [r.rest[0]] + Available(files, r.(rest := r.rest[1..]), start, stop)
  {
    hide Window;
    var left := r.(rest := r.rest[1..]);
    assert Open(files, r, start, stop) == Open(files, left, start, stop);
    assert r.rest == [r.rest[0]] + r.rest[1..];
  }

  lemma {:induction false} TakenWithStart(s: seq<Msg>, stop: nat, count: nat, first: nat)
    requires first != 0
    ensures
      if count < MAX_RECORDS then count + Taken(s, stop, count, first) <= MAX_RECORDS
      else Taken(s, stop, count, first) <= 1
    ensures count >= MAX_RECORDS - 1 ==> Taken(s, stop, count, first) == if s == [] || Past(s[0], stop) then 0 else 1
    decreases |s|
  {
    if s != [] && !Past(s[0], stop) && !Ends(first, s[0], count + 1) {
      TakenWithStart(s[1..], stop, count + 1, first);
    }
  }

  ghost predicate AllZero(s: seq<Msg>, n: nat) {
    forall i :: 0 <= i < n && i < |s| ==> s[i].time == 0
  }

  ghost predicate NonePast(s: seq<Msg>, n: nat, stop: nat) {
    forall i :: 0 <= i < n && i < |s| ==> !Past(s[i], stop)
  }

  /** A batch keeps to 1000 records unless the log times start with 999 zeros: a zero log time is taken
      for "no record yet", and until then neither limit is checked. */
  lemma OverlongIff(s: seq<Msg>, stop: nat)
    ensures Taken(s, stop, 0, 0) > 1000 <==>
        |s| > 1000 && AllZero(s, 999) && NonePast(s, 1001, stop)
  {
    ZerosFirst(s, stop, 0);
  }

  lemma {:induction false} ZerosFirst(s: seq<Msg>, stop: nat, count: nat)
    ensures count + Taken(s, stop, count, 0) > MAX_RECORDS <==>
        count + |s| > MAX_RECORDS
        && (count < MAX_RECORDS - 1 ==> AllZero(s, MAX_RECORDS - 1 - count))
        && (count <= MAX_RECORDS ==> NonePast(s, MAX_RECORDS + 1 - count, stop))
    decreases |s|
  {
    if s != [] && !Past(s[0], stop) {
      var rest := s[1..];
      if s[0].time == 0 {
        ZerosFirst(rest, stop, count + 1);
        ShiftZero(s, count);
        ShiftPast(s, count, stop);
      } else {
        TakenWithStart(rest, stop, count + 1, s[0].time);
        LateStart(s, stop, count);
      }
    } else if s != [] {
      assert count <= MAX_RECORDS ==> !NonePast(s, MAX_RECORDS + 1 - count, stop);
    }
  }

  lemma ShiftZero(s: seq<Msg>, count: nat)
    requires s != [] && s[0].time == 0
    ensures (count < MAX_RECORDS - 1 ==> AllZero(s, MAX_RECORDS - 1 - count)) <==>
        (count + 1 < MAX_RECORDS - 1 ==> AllZero(s[1..], MAX_RECORDS - 2 - count))
  {
    if count + 1 < MAX_RECORDS - 1 && AllZero(s[1..], MAX_RECORDS - 2 - count) {
      forall i | 0 <= i < MAX_RECORDS - 1 - count && i < |s| ensures s[i].time == 0 {
        if i > 0 {
          assert s[i] == s[1..][i - 1];
        }
      }
    }
    if count < MAX_RECORDS - 1 && AllZero(s, MAX_RECORDS - 1 - count) && count + 1 < MAX_RECORDS - 1 {
      forall i | 0 <= i < MAX_RECORDS - 2 - count && i < |s[1..]| ensures s[1..][i].time == 0 {
        assert s[1..][i] == s[i + 1];
      }
    }
  }

  lemma ShiftPast(s: seq<Msg>, count: nat, stop: nat)
    requires s != [] && !Past(s[0], stop)
    ensures (count <= MAX_RECORDS ==> NonePast(s, MAX_RECORDS + 1 - count, stop)) <==>
        (count + 1 <= MAX_RECORDS ==> NonePast(s[1..], MAX_RECORDS - count, stop))
  {
    hide Past;
    if count + 1 <= MAX_RECORDS && NonePast(s[1..], MAX_RECORDS - count, stop) {
      forall i | 0 <= i < MAX_RECORDS + 1 - count && i < |s| ensures !Past(s[i], stop) {
        if i > 0 {
          assert s[i] == s[1..][i - 1];
        }
      }
    }
    if count <= MAX_RECORDS && NonePast(s, MAX_RECORDS + 1 - count, stop) && count + 1 <= MAX_RECORDS {
      forall i | 0 <= i < MAX_RECORDS - count && i < |s[1..]| ensures !Past(s[1..][i], stop) {
        assert s[1..][i] == s[i + 1];
      }
    }
  }

  /** The first message with a log time: only one more fits behind 999 records. */
  lemma LateStart(s: seq<Msg>, stop: nat, count: nat)
    requires s != [] && !Past(s[0], stop) && s[0].time != 0
    requires
      var n := Taken(s[1..], stop, count + 1, s[0].time);
      (if count + 1 < MAX_RECORDS then count + 1 + n <= MAX_RECORDS else n <= 1)
      && (count + 1 >= MAX_RECORDS - 1 ==> n == if |s| == 1 || Past(s[1], stop) then 0 else 1)
    ensures count + Taken(s, stop, count, 0) > MAX_RECORDS <==>
        count + |s| > MAX_RECORDS
        && (count < MAX_RECORDS - 1 ==> AllZero(s, MAX_RECORDS - 1 - count))
        && (count <= MAX_RECORDS ==> NonePast(s, MAX_RECORDS + 1 - count, stop))
  {
    if count < MAX_RECORDS - 1 {
      assert !AllZero(s, MAX_RECORDS - 1 - count);
    } else if count == MAX_RECORDS - 1 {
      assert NonePast(s, 2, stop) <==> (|s| == 1 || !Past(s[1], stop));
    }
  }

  /** Where a batch ends, in numbers: when the first record has a log time, all but the last are within less
      than a second of it and below 1000; and what is left behind is left because the last one is a second
      away or the thousandth, or because the next one is past the stop. */
  lemma BatchEnds(s: seq<Msg>, stop: nat)
    requires s != [] && s[0].time != 0
    ensures
      var n := Taken(s, stop, 0, 0);
      && n <= 1000
      && (forall i :: 0 <= i < n - 1 ==> (s[i].time - s[0].time) % 0x1_0000_0000_0000_0000 < 1_000_000_000)
      && (n < |s| ==>
            || (stop > 0 && s[n].time > stop)
            || n == 1000
            || (n > 0 && (s[n - 1].time - s[0].time) % 0x1_0000_0000_0000_0000 >= 1_000_000_000))
  {
    if !Past(s[0], stop) {
      EndsAfterFirst(s[1..], stop, 1, s[0].time);
      var n := Taken(s, stop, 0, 0);
      assert n == 1 + Taken(s[1..], stop, 1, s[0].time);
      forall i | 0 <= i < n - 1 ensures (s[i].time - s[0].time) % 0x1_0000_0000_0000_0000 < 1_000_000_000 {
        if i > 0 {
          assert s[i] == s[1..][i - 1];
        }
      }
      if n < |s| {
        assert s[n] == s[1..][n - 1];
        if n > 1 {
          assert s[n - 1] == s[1..][n - 2];
        }
      }
    }
  }

  lemma {:induction false} EndsAfterFirst(s: seq<Msg>, stop: nat, count: nat, first: nat)
    requires first != 0 && count < 1000
    ensures
      var n := Taken(s, stop, count, first);
      && count + n <= 1000
      && (forall i :: 0 <= i < n - 1 ==> (s[i].time - first) % 0x1_0000_0000_0000_0000 < 1_000_000_000)
      && (n < |s| ==>
            || (stop > 0 && s[n].time > stop)
            || (n > 0 && (count + n == 1000 || (s[n - 1].time - first) % 0x1_0000_0000_0000_0000 >= 1_000_000_000)))
    decreases |s|
  {
    if s != [] && !Past(s[0], stop) && !Ends(first, s[0], count + 1) {
      EndsAfterFirst(s[1..], stop, count + 1, first);
      var n := Taken(s, stop, count, first);
      forall i | 0 <= i < n - 1 ensures (s[i].time - first) % 0x1_0000_0000_0000_0000 < 1_000_000_000 {
        if i > 0 {
          assert s[i] == s[1..][i - 1];
        }
      }
    }
  }

  // ---------------------------------------------------------------- each message once, in the bag's order

  /** All messages of the files from `k` on. */
  function Unopened(files: seq<File>, k: nat): seq<Msg>
    decreases |files| - k
  {
    if k >= |files| then [] else files[k].msgs + Unopened(files, k + 1)
  }

  /** What no call has looked at yet. */
  function Untouched(files: seq<File>, r: Reader): seq<Msg> {
    r.rest + Unopened(files, r.next)
  }

  /** Messages are numbered by their place in the bag. */
  ghost predicate Rising(s: seq<Msg>) {
    forall i, j :: 0 <= i < j < |s| ==> s[i].id < s[j].id
  }

  ghost predicate Within(a: seq<Msg>, b: seq<Msg>) {
    forall m :: m in a ==> m in b
  }

  function Thrown(f: Fetched): seq<Msg> {
    if f.Stopped? then [f.past] else []
  }

  lemma {:induction false} WindowRises(msgs: seq<Msg>, start: nat, stop: nat, before: seq<Msg>, after: seq<Msg>)
    requires Rising(before + msgs + after)
    ensures Rising(before + Window(msgs, start, stop) + after)
    decreases |msgs|
  {
    if msgs != [] {
      var m := msgs[0];
      if InWindow(m, start, stop) {
        assert before + msgs + after == (before + [m]) + msgs[1..] + after;
        WindowRises(msgs[1..], start, stop, before + [m], after);
        assert before + Window(msgs, start, stop) + after == (before + [m]) + Window(msgs[1..], start, stop) + after;
      } else {
        assert before + msgs + after == before + [m] + (msgs[1..] + after);
        DropManyRises(before, [m], msgs[1..] + after);
        assert before + (msgs[1..] + after) == before + msgs[1..] + after;
        WindowRises(msgs[1..], start, stop, before, after);
      }
    }
  }

  lemma DropManyRises(a: seq<Msg>, m: seq<Msg>, b: seq<Msg>)
    requires Rising(a + m + b)
    ensures Rising(a + b)
  {
    var whole := a + m + b;
    var part := a + b;
    forall i, j | 0 <= i < j < |part| ensures part[i].id < part[j].id {
      var x := if i < |a| then i else i + |m|;
      var y := if j < |a| then j else j + |m|;
      assert part[i] == whole[x] && part[j] == whole[y];
    }
  }

  lemma OpenRises(files: seq<File>, r: Reader, start: nat, stop: nat, before: seq<Msg>)
    requires r.rest == [] && Rising(before + Untouched(files, r))
    ensures
      var now := Open(files, r, start, stop).0;
      Rising(before + Untouched(files, now)) && Within(Untouched(files, now), Untouched(files, r))
  {
    hide Window;
    assert Untouched(files, r) == Unopened(files, r.next);
    if r.next < |files| {
      var f := files[r.next];
      var later := Unopened(files, r.next + 1);
      assert before + Untouched(files, r) == before + f.msgs + later;
      WindowRises(f.msgs, start, stop, before, later);
      DropManyRises(before, f.msgs, later);
      assert before + (Window(f.msgs, start, stop) + later) == before + Window(f.msgs, start, stop) + later;
      assert [] + later == later;
    }
  }

  /** One call takes messages from the front of what is untouched and leaves the rest in order. */
  lemma {:induction false} CollectRises(
      files: seq<File>, r: Reader, start: nat, stop: nat, records: seq<Msg>, first: nat, before: seq<Msg>)
    requires Rising(before + records + Untouched(files, r))
    ensures
      var f := Collect(files, r, start, stop, records, first);
      Rising(before + f.records + Thrown(f) + Untouched(files, f.reader))
      && Within(f.records, records + Untouched(files, r))
      && Within(Untouched(files, f.reader), Untouched(files, r))
    decreases |files| - r.next, |r.rest|
  {
    hide Open, Unopened, Past, Ends, Rising;
    var f := Collect(files, r, start, stop, records, first);
    if r.rest == [] {
      OpenMoves(files, r, start, stop);
      OpenRises(files, r, start, stop, before + records);
      var (now, ok) := Open(files, r, start, stop);
      assert before + records + [] + Untouched(files, now) == before + records + Untouched(files, now);
      if ok && now.rest != [] {
        CollectRises(files, now, start, stop, records, first, before);
      }
    } else {
      var m, left := r.rest[0], r.(rest := r.rest[1..]);
      assert Untouched(files, r) == [m] + Untouched(files, left);
      assert before + records + Untouched(files, r) == before + (records + [m]) + Untouched(files, left);
      assert before + (records + [m]) + Untouched(files, left) == before + records + [m] + Untouched(files, left);
      assert before + (records + [m]) + [] + Untouched(files, left)
        == before + (records + [m]) + Untouched(files, left);
      if !Past(m, stop) && !Ends(first, m, |records| + 1) {
        CollectRises(files, left, start, stop, records + [m], if first == 0 then m.time else first, before);
      }
    }
  }

  /** Nothing in a batch is beyond the stop time. */
  lemma {:induction false} NothingPastStop(
      files: seq<File>, r: Reader, start: nat, stop: nat, records: seq<Msg>, first: nat)
    requires forall m :: m in records ==> stop == 0 || m.time <= stop
    ensures forall m :: m in Collect(files, r, start, stop, records, first).records ==> stop == 0 || m.time <= stop
    decreases |files| - r.next, |r.rest|
  {
    hide Ends, Window;
    if r.rest == [] {
      var (now, ok) := Open(files, r, start, stop);
      if ok && now.rest != [] {
        NothingPastStop(files, now, start, stop, records, first);
      }
    } else {
      var m, left := r.rest[0], r.(rest := r.rest[1..]);
      if !Past(m, stop) {
        assert forall x :: x in records + [m] ==> stop == 0 || x.time <= stop;
        NothingPastStop(files, left, start, stop, records + [m], if first == 0 then m.time else first);
      }
    }
  }

  // ---------------------------------------------------------------- reading past a file's end

  /** The loop still wants a message after it has taken all of `s`. */
  predicate Hungry(s: seq<Msg>, stop: nat, count: nat, first: nat) {
    s == []
    || (!Past(s[0], stop)
        && !Ends(first, s[0], count + 1)
        && Hungry(s[1..], stop, count + 1, if first == 0 then s[0].time else first))
  }

  /** The run of usable files ahead ends in one with nothing in the window. */
  predicate EmptyAhead(files: seq<File>, r: Reader, start: nat, stop: nat)
    decreases |files| - r.next
  {
    var (now, ok) := Open(files, r, start, stop);
    ok && (now.rest == [] || EmptyAhead(files, now, start, stop))
  }

  /** The end iterator is read exactly when the loop runs dry in front of such a file. */
  lemma {:induction false} RunsPastEnd(
      files: seq<File>, r: Reader, start: nat, stop: nat, records: seq<Msg>, first: nat)
    ensures Collect(files, r, start, stop, records, first).PastTheEnd? <==>
        EmptyAhead(files, r, start, stop) && Hungry(Available(files, r, start, stop), stop, |records|, first)
    decreases |files| - r.next, |r.rest|
  {
    hide Past, Ends, Window;
    if r.rest == [] {
      var (now, ok) := Open(files, r, start, stop);
      if ok && now.rest != [] {
        RunsPastEnd(files, now, start, stop, records, first);
        assert [] + Available(files, now, start, stop) == Available(files, now, start, stop);
      }
    } else {
      var m, left := r.rest[0], r.(rest := r.rest[1..]);
      RestAside(files, r, start, stop);
      var s := Available(files, r, start, stop);
      assert s[1..] == Available(files, left, start, stop);
      assert Open(files, left, start, stop) == Open(files, r, start, stop);
      assert EmptyAhead(files, left, start, stop) == EmptyAhead(files, r, start, stop);
      if !Past(m, stop) && !Ends(first, m, |records| + 1) {
        RunsPastEnd(files, left, start, stop, records + [m], if first == 0 then m.time else first);
      }
    }
  }

  ghost predicate NothingPast(s: seq<Msg>, stop: nat) {
    forall m :: m in s ==> !Past(m, stop)
  }

  /** Log times do not fall. */
  ghost predicate InTime(s: seq<Msg>) {
    forall i, j :: 0 <= i < j < |s| ==> s[i].time <= s[j].time
  }

  /** How many log times at the front are zero. */
  function Zeros(s: seq<Msg>): (n: nat)
    ensures n <= |s|
  {
    if s == [] || s[0].time != 0 then 0 else 1 + Zeros(s[1..])
  }

  /** From a first log time on: room for all of `s`, and all of it within a second. */
  ghost predicate RoomFor(s: seq<Msg>, count: nat, first: nat) {
    && (s != [] ==> count + |s| < 1000)
    && forall m :: m in s ==> (m.time - first) % 0x1_0000_0000_0000_0000 < 1_000_000_000
  }

  /** One batch takes all of `s`: none is past the stop, and those behind the first nonzero log time are
      within a second of it and leave the batch below its limit. */
  ghost predicate OneBatchTakes(s: seq<Msg>, stop: nat) {
    && NothingPast(s, stop)
    && var z := Zeros(s); (z + 1 < |s| ==> RoomFor(s[z + 1..], z + 1, s[z].time))
  }

  lemma {:induction false} HungryAfterFirst(s: seq<Msg>, stop: nat, count: nat, first: nat)
    requires first != 0
    ensures Hungry(s, stop, count, first) <==> NothingPast(s, stop) && RoomFor(s, count, first)
    decreases |s|
  {
    if s != [] {
      HungryAfterFirst(s[1..], stop, count + 1, first);
      assert s == [s[0]] + s[1..];
    }
  }

  lemma {:induction false} HungryFromZeros(s: seq<Msg>, stop: nat, count: nat)
    ensures Hungry(s, stop, count, 0) <==>
      && NothingPast(s, stop)
      && var z := Zeros(s); (z + 1 < |s| ==> RoomFor(s[z + 1..], count + z + 1, s[z].time))
    decreases |s|
  {
    if s != [] {
      assert s == [s[0]] + s[1..];
      if s[0].time == 0 {
        HungryFromZeros(s[1..], stop, count + 1);
        var z := Zeros(s);
        if z + 1 < |s| {
          assert s[z + 1..] == s[1..][z..];
        }
      } else {
        HungryAfterFirst(s[1..], stop, count + 1, s[0].time);
      }
    }
  }

  /** The end iterator is read exactly when one batch takes all that can be seen, and the file behind that
      opens with nothing in its window. */
  lemma ReadsPastEndIff(files: seq<File>, r: Reader, start: nat, stop: nat)
    ensures Collect(files, r, start, stop, [], 0).PastTheEnd? <==>
      EmptyAhead(files, r, start, stop) && OneBatchTakes(Available(files, r, start, stop), stop)
  {
    hide Collect, EmptyAhead, Available, Hungry, NothingPast, RoomFor;
    RunsPastEnd(files, r, start, stop, [], 0);
    HungryFromZeros(Available(files, r, start, stop), stop, 0);
  }

  // ---------------------------------------------------------------- a file left open

  lemma {:induction false} AvailableBehindRest(files: seq<File>, r: Reader, start: nat, stop: nat, m: Msg)
    requires m in Available(files, r, start, stop)
    ensures m in r.rest || m.time >= start
    decreases |files| - r.next
  {
    hide Window;
    var (now, ok) := Open(files, r, start, stop);
    if ok && now.rest != [] && m !in r.rest {
      AvailableBehindRest(files, now, start, stop, m);
      assert now.rest == Window(files[r.next].msgs, start, stop);
    }
  }

  /** A file left open by an earlier playback is played on from its old window: a batch holds messages from
      before its own start exactly if the next message of that file is one, and not past the stop. */
  lemma PlaysBeforeStartIff(files: seq<File>, r: Reader, start: nat, stop: nat)
    requires InTime(r.rest)
    ensures (exists m :: m in Collect(files, r, start, stop, [], 0).records && m.time < start) <==>
      r.rest != [] && r.rest[0].time < start && (stop == 0 || r.rest[0].time <= stop)
  {
    hide Collect, Available, Taken, InTime;
    var a := Available(files, r, start, stop);
    var records := Collect(files, r, start, stop, [], 0).records;
    BatchIsPrefix(files, r, start, stop, [], 0);
    var n := Taken(a, stop, 0, 0);
    assert [] + a[..n] == a[..n] == records;
    TakesSome(a, stop);
    if r.rest != [] {
      RestAside(files, r, start, stop);
      assert a[0] == r.rest[0];
    }
    if m :| m in records && m.time < start {
      AvailableBehindRest(files, r, start, stop, m);
      FirstIsEarliest(r.rest, m);
    } else if r.rest != [] && !Past(r.rest[0], stop) {
      assert records[0] == r.rest[0];
    }
  }

  lemma FirstIsEarliest(s: seq<Msg>, m: Msg)
    requires InTime(s)
    ensures m in s ==> s[0].time <= m.time
  {}

  lemma TakesSome(s: seq<Msg>, stop: nat)
    ensures Taken(s, stop, 0, 0) > 0 <==> s != [] && !Past(s[0], stop)
  {}

  // ---------------------------------------------------------------- playing to the end

  /** A call comes back with nothing exactly when there is no message ahead, or the first one is past the stop. */
  lemma NothingToPlayIff(files: seq<File>, r: Reader, start: nat, stop: nat)
    ensures
      var a := Available(files, r, start, stop);
      Collect(files, r, start, stop, [], 0).records == [] <==> a == [] || (stop > 0 && a[0].time > stop)
  {
    hide Collect, Available, Ends;
    var a := Available(files, r, start, stop);
    BatchIsPrefix(files, r, start, stop, [], 0);
    assert [] + a[..Taken(a, stop, 0, 0)] == a[..Taken(a, stop, 0, 0)];
  }

  lemma {:induction false} CollectAdvances(
      files: seq<File>, r: Reader, start: nat, stop: nat, records: seq<Msg>, first: nat)
    ensures
      var f := Collect(files, r, start, stop, records, first);
      && |f.records| >= |records|
      && (f.reader.next > r.next ==> r.next < |files|) && f.reader.next >= r.next
      && (f.reader.next == r.next ==> |f.reader.rest| + |f.records| <= |r.rest| + |records|)
    decreases |files| - r.next, |r.rest|
  {
    hide Past, Ends, Window;
    if r.rest == [] {
      var (now, ok) := Open(files, r, start, stop);
      if ok && now.rest != [] {
        CollectAdvances(files, now, start, stop, records, first);
      }
    } else {
      var m, left := r.rest[0], r.(rest := r.rest[1..]);
      if !Past(m, stop) && !Ends(first, m, |records| + 1) {
        CollectAdvances(files, left, start, stop, records + [m], if first == 0 then m.time else first);
      }
    }
  }

  /** What an undisturbed playback plays: batch after batch, to the first that finds nothing or meets the stop. */
  ghost function PlayOut(files: seq<File>, r: Reader, start: nat, stop: nat): seq<Msg>
    decreases |files| - r.next, |r.rest|
  {
    var f := Collect(files, r, start, stop, [], 0);
    CollectAdvances(files, r, start, stop, [], 0);
    if f.records == [] || !f.Batch? then f.records else f.records + PlayOut(files, f.reader, start, stop)
  }

  /** The file begins after the stop, so it is not opened. */
  predicate Late(f: File, stop: nat) {
    stop > 0 && f.start > stop
  }

  /** From `k` on the files open and have something in the window, up to the ones that begin after the stop
      and have nothing in it. */
  ghost predicate AllUsable(files: seq<File>, k: nat, start: nat, stop: nat) {
    (forall i :: k <= i < |files| ==>
       if Late(files[i], stop) then Window(files[i].msgs, start, stop) == []
       else files[i].readable && Window(files[i].msgs, start, stop) != [])
    && forall i, j :: k <= i < j < |files| && Late(files[i], stop) ==> Late(files[j], stop)
  }

  /** What is ahead, read through the window. */
  ghost function Ahead(files: seq<File>, r: Reader, start: nat, stop: nat): seq<Msg> {
    r.rest + Window(Unopened(files, r.next), start, stop)
  }

  lemma {:induction false} WindowAppend(a: seq<Msg>, b: seq<Msg>, start: nat, stop: nat)
    ensures Window(a + b, start, stop) == Window(a, start, stop) + Window(b, start, stop)
    decreases |a|
  {
    if a == [] {
      assert a + b == b;
    } else {
      assert (a + b)[1..] == a[1..] + b && (a + b)[0] == a[0];
      WindowAppend(a[1..], b, start, stop);
    }
  }

  lemma {:induction false} LateFilesAddNothing(files: seq<File>, k: nat, start: nat, stop: nat)
    requires AllUsable(files, k, start, stop) && (k < |files| ==> Late(files[k], stop))
    ensures Window(Unopened(files, k), start, stop) == []
    decreases |files| - k
  {
    if k < |files| {
      WindowAppend(files[k].msgs, Unopened(files, k + 1), start, stop);
      LateFilesAddNothing(files, k + 1, start, stop);
    }
  }

  lemma OpenUsable(files: seq<File>, r: Reader, start: nat, stop: nat)
    requires r.rest == [] && AllUsable(files, r.next, start, stop)
    ensures
      var (now, ok) := Open(files, r, start, stop);
      && (ok <==> r.next < |files| && !Late(files[r.next], stop))
      && (ok ==> now.rest != [] && NothingPast(now.rest, stop) && now.next == r.next + 1)
      && (ok ==> Ahead(files, now, start, stop) == Ahead(files, r, start, stop))
      && (!ok ==> Ahead(files, r, start, stop) == [] && Ahead(files, now, start, stop) == [] && now.rest == [])
      && AllUsable(files, now.next, start, stop)
  {
    if r.next < |files| && Late(files[r.next], stop) {
      LateFilesAddNothing(files, r.next, start, stop);
      LateFilesAddNothing(files, r.next + 1, start, stop);
    } else if r.next < |files| {
      WindowAppend(files[r.next].msgs, Unopened(files, r.next + 1), start, stop);
    }
  }

  /** A batch and what is ahead of it make up what was ahead. */
  lemma {:induction false} CollectSplits(
      files: seq<File>, r: Reader, start: nat, stop: nat, records: seq<Msg>, first: nat)
    requires AllUsable(files, r.next, start, stop) && NothingPast(r.rest, stop)
    ensures
      var f := Collect(files, r, start, stop, records, first);
      && f.Batch? && AllUsable(files, f.reader.next, start, stop) && NothingPast(f.reader.rest, stop)
      && f.records + Ahead(files, f.reader, start, stop) == records + Ahead(files, r, start, stop)
      && (|f.records| == |records| ==> Ahead(files, r, start, stop) == [])
    decreases |files| - r.next, |r.rest|
  {
    hide Past, Ends, Window, Unopened;
    if r.rest == [] {
      OpenUsable(files, r, start, stop);
      var (now, ok) := Open(files, r, start, stop);
      if ok {
        CollectSplits(files, now, start, stop, records, first);
      }
    } else {
      var m, left := r.rest[0], r.(rest := r.rest[1..]);
      assert Ahead(files, r, start, stop) == [m] + Ahead(files, left, start, stop);
      assert (records + [m]) + Ahead(files, left, start, stop) == records + ([m] + Ahead(files, left, start, stop));
      if !Ends(first, m, |records| + 1) {
        CollectSplits(files, left, start, stop, records + [m], if first == 0 then m.time else first);
        CollectAdvances(files, left, start, stop, records + [m], if first == 0 then m.time else first);
      }
    }
  }

  /** With usable files an undisturbed playback plays exactly what is ahead. */
  lemma {:induction false} PlaysWhatIsAhead(files: seq<File>, r: Reader, start: nat, stop: nat)
    requires AllUsable(files, r.next, start, stop) && NothingPast(r.rest, stop)
    ensures PlayOut(files, r, start, stop) == Ahead(files, r, start, stop)
    decreases |files| - r.next, |r.rest|
  {
    hide Collect, Ahead, AllUsable, NothingPast;
    var f := Collect(files, r, start, stop, [], 0);
    CollectSplits(files, r, start, stop, [], 0);
    CollectAdvances(files, r, start, stop, [], 0);
    assert [] + Ahead(files, r, start, stop) == Ahead(files, r, start, stop);
    if f.records != [] {
      PlaysWhatIsAhead(files, f.reader, start, stop);
    }
  }

  lemma {:induction false} WindowIff(msgs: seq<Msg>, start: nat, stop: nat, m: Msg)
    ensures m in Window(msgs, start, stop) <==>
      m in msgs && m.wanted && start <= m.time && (stop > 0 ==> m.time < stop)
    decreases |msgs|
  {
    if msgs != [] {
      WindowIff(msgs[1..], start, stop, m);
      assert m in msgs <==> m == msgs[0] || m in msgs[1..];
    }
  }

  /** The message belongs to the window asked for. */
  ghost predicate Wanted(files: seq<File>, m: Msg, start: nat, stop: nat) {
    m in Unopened(files, 0) && InWindow(m, start, stop)
  }

  /** A message before the first one past the stop is in the batch or still ahead of the next call. */
  lemma {:induction false} TakenOrAhead(
      files: seq<File>, r: Reader, start: nat, stop: nat, records: seq<Msg>, first: nat, m: Msg)
    requires InTime(r.rest) && !NothingPast(r.rest, stop) && m in r.rest && !Past(m, stop)
    ensures
      var f := Collect(files, r, start, stop, records, first);
      && |f.records| > |records|
      && (m in f.records
          || (f.Batch? && f.reader.next == r.next && m in f.reader.rest
              && InTime(f.reader.rest) && !NothingPast(f.reader.rest, stop)))
    decreases |r.rest|
  {
    hide Ends, Window;
    var x, left := r.rest[0], r.(rest := r.rest[1..]);
    assert r.rest == [x] + left.rest;
    assert !Past(x, stop);
    var next := if first == 0 then x.time else first;
    if !Ends(first, x, |records| + 1) {
      if m in left.rest {
        TakenOrAhead(files, left, start, stop, records + [x], next, m);
      } else {
        BatchIsPrefix(files, left, start, stop, records + [x], next);
      }
    }
  }

  /** Where a playback meets its stop in the middle of an opened file, it plays all that comes before. */
  lemma {:induction false} PlaysUpToTheStop(files: seq<File>, r: Reader, start: nat, stop: nat, m: Msg)
    requires InTime(r.rest) && !NothingPast(r.rest, stop) && m in r.rest && !Past(m, stop)
    ensures m in PlayOut(files, r, start, stop)
    decreases |files| - r.next, |r.rest|
  {
    hide Collect, NothingPast, InTime;
    TakenOrAhead(files, r, start, stop, [], 0, m);
    CollectAdvances(files, r, start, stop, [], 0);
    var f := Collect(files, r, start, stop, [], 0);
    if m !in f.records {
      PlaysUpToTheStop(files, f.reader, start, stop, m);
    }
  }

  /** Nothing is played but what was untouched. */
  lemma {:induction false} PlayOutIsUntouched(files: seq<File>, r: Reader, start: nat, stop: nat)
    requires Rising(Untouched(files, r))
    ensures Within(PlayOut(files, r, start, stop), Untouched(files, r))
    decreases |files| - r.next, |r.rest|
  {
    hide Collect, Untouched, Rising;
    var f := Collect(files, r, start, stop, [], 0);
    assert [] + [] + Untouched(files, r) == Untouched(files, r);
    assert [] + Untouched(files, r) == Untouched(files, r);
    CollectRises(files, r, start, stop, [], 0, []);
    CollectAdvances(files, r, start, stop, [], 0);
    if f.records != [] && f.Batch? {
      assert Rising(Untouched(files, f.reader)) by {
        assert [] + f.records + Thrown(f) + Untouched(files, f.reader)
          == [] + f.records + Untouched(files, f.reader);
        DropManyRises([], f.records, Untouched(files, f.reader));
        assert [] + Untouched(files, f.reader) == Untouched(files, f.reader);
      }
      PlayOutIsUntouched(files, f.reader, start, stop);
    }
  }

  /** What the theorems about whole playbacks assume of the bag from a position on. */
  ghost predicate Playable(files: seq<File>, r: Reader, start: nat, stop: nat) {
    AllUsable(files, r.next, start, stop) && Rising(Untouched(files, r)) && InTime(Untouched(files, r))
  }

  /** Nothing rewinds: an undisturbed playback plays its whole window if and only if nothing of that window
      has been taken, thrown away or skipped before. The file left open by an earlier playback may go on past
      the new stop. */
  lemma PlaysWholeWindowIff(files: seq<File>, r: Reader, start: nat, stop: nat)
    requires Playable(files, r, start, stop)
    ensures
      (forall m :: Wanted(files, m, start, stop) ==> m in PlayOut(files, r, start, stop))
      <==> (forall m :: Wanted(files, m, start, stop) ==> m in Untouched(files, r))
  {
    hide PlayOut, Window, AllUsable, Rising, Unopened, NothingPast, InTime;
    PlayOutIsUntouched(files, r, start, stop);
    forall m | Wanted(files, m, start, stop) && m in Untouched(files, r)
      ensures m in PlayOut(files, r, start, stop)
    {
      if NothingPast(r.rest, stop) {
        PlaysWhatIsAhead(files, r, start, stop);
        WindowIff(Unopened(files, r.next), start, stop, m);
      } else {
        PastHidesTheRest(files, r, start, stop, m);
        PlaysUpToTheStop(files, r, start, stop, m);
      }
    }
  }

  lemma PastHidesTheRest(files: seq<File>, r: Reader, start: nat, stop: nat, m: Msg)
    requires InTime(Untouched(files, r)) && !NothingPast(r.rest, stop)
    requires m in Untouched(files, r) && InWindow(m, start, stop)
    ensures m in r.rest && InTime(r.rest) && !Past(m, stop)
  {
    hide Unopened;
    var all := Untouched(files, r);
    assert forall i :: 0 <= i < |r.rest| ==> all[i] == r.rest[i];
    var k :| 0 <= k < |r.rest| && Past(r.rest[k], stop);
    var j :| 0 <= j < |all| && all[j] == m;
    assert j < |r.rest|;
  }

  // ---------------------------------------------------------------- a playback that is over

  lemma SameOrder(played: seq<Msg>, bag: seq<Msg>)
    requires Rising(played) && Rising(bag) && Within(played, bag) && InTime(bag)
    ensures InTime(played)
  {
    forall i, j | 0 <= i < j < |played| ensures played[i].time <= played[j].time {
      assert played[i] in bag && played[j] in bag;
      var x :| 0 <= x < |bag| && bag[x] == played[i];
      var y :| 0 <= y < |bag| && bag[y] == played[j];
      assert x < y;
    }
  }

  /** Only messages past the stop are left, and files that begin after it. */
  ghost predicate Spent(files: seq<File>, r: Reader, start: nat, stop: nat) {
    && AllUsable(files, r.next, start, stop)
    && (forall m :: m in r.rest ==> Past(m, stop))
    && (r.next < |files| ==> Late(files[r.next], stop))
  }

  lemma SpentStaysSpent(files: seq<File>, r: Reader, start: nat, stop: nat)
    requires Spent(files, r, start, stop)
    ensures
      var f := Collect(files, r, start, stop, [], 0);
      !f.PastTheEnd? && f.records == [] && Spent(files, f.reader, start, stop)
  {
    if r.rest != [] {
      assert Past(r.rest[0], stop);
    }
  }

  lemma OpenIsPlayable(files: seq<File>, r: Reader, start: nat, stop: nat)
    requires r.rest == [] && Playable(files, r, start, stop)
    ensures Playable(files, Open(files, r, start, stop).0, start, stop)
  {
    hide Window;
    var now := Open(files, r, start, stop).0;
    assert [] + Untouched(files, r) == Untouched(files, r);
    OpenRises(files, r, start, stop, []);
    assert [] + Untouched(files, now) == Untouched(files, now);
    SameOrder(Untouched(files, now), Untouched(files, r));
  }

  lemma TakeIsPlayable(files: seq<File>, r: Reader, start: nat, stop: nat)
    requires r.rest != [] && Playable(files, r, start, stop)
    ensures Playable(files, r.(rest := r.rest[1..]), start, stop)
  {
    hide Unopened;
    var left := r.(rest := r.rest[1..]);
    var all, later := Untouched(files, r), Untouched(files, left);
    assert all == [r.rest[0]] + later;
    assert forall i :: 0 <= i < |later| ==> later[i] == all[i + 1];
  }

  lemma NextFileIsLater(files: seq<File>, r: Reader, m: Msg)
    requires r.rest != [] && InTime(Untouched(files, r)) && r.next < |files| && m in files[r.next].msgs
    ensures r.rest[0].time <= m.time
  {
    var all, msgs := Untouched(files, r), files[r.next].msgs;
    var i :| 0 <= i < |msgs| && msgs[i] == m;
    assert Unopened(files, r.next)[i] == m;
    assert all[|r.rest| + i] == m && all[0] == r.rest[0];
  }

  /** Behind a message past the stop there is nothing but the like. */
  lemma PastMeansSpent(files: seq<File>, r: Reader, start: nat, stop: nat)
    requires r.rest != [] && Playable(files, r, start, stop) && Past(r.rest[0], stop)
    ensures Spent(files, r.(rest := r.rest[1..]), start, stop)
  {
    var left := r.(rest := r.rest[1..]);
    var all := Untouched(files, r);
    assert forall i :: 0 <= i < |r.rest| ==> all[i] == r.rest[i];
    forall m | m in left.rest ensures Past(m, stop) {
      var i :| 0 <= i < |left.rest| && left.rest[i] == m;
      assert r.rest[i + 1] == m;
      assert all[0].time <= all[i + 1].time;
    }
    if r.next < |files| && !Late(files[r.next], stop) {
      var w := Window(files[r.next].msgs, start, stop);
      NextFileIsLater(files, r, w[0]);
    }
  }

  /** A call keeps that, and if it finds nothing or meets the stop, nothing is left. */
  lemma {:induction false} CollectEnds(
      files: seq<File>, r: Reader, start: nat, stop: nat, records: seq<Msg>, first: nat)
    requires Playable(files, r, start, stop)
    ensures
      var f := Collect(files, r, start, stop, records, first);
      && !f.PastTheEnd? && Playable(files, f.reader, start, stop) && |f.records| >= |records|
      && (f.Stopped? || |f.records| == |records| ==> Spent(files, f.reader, start, stop))
    decreases |files| - r.next, |r.rest|
  {
    hide Past, Ends, Window, Unopened, Playable, Spent;
    if r.rest == [] {
      OpenMoves(files, r, start, stop);
      OpenIsPlayable(files, r, start, stop);
      var (now, ok) := Open(files, r, start, stop);
      OpenedOrSpent(files, r, start, stop);
      if ok {
        CollectEnds(files, now, start, stop, records, first);
      }
    } else {
      var m, left := r.rest[0], r.(rest := r.rest[1..]);
      TakeIsPlayable(files, r, start, stop);
      if Past(m, stop) {
        PastMeansSpent(files, r, start, stop);
      } else if !Ends(first, m, |records| + 1) {
        CollectEnds(files, left, start, stop, records + [m], if first == 0 then m.time else first);
      }
    }
  }

  lemma OpenedOrSpent(files: seq<File>, r: Reader, start: nat, stop: nat)
    requires r.rest == [] && Playable(files, r, start, stop)
    ensures
      var (now, ok) := Open(files, r, start, stop);
      if ok then now.rest != [] else Spent(files, now, start, stop)
  {}
}
