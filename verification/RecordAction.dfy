/** RecordAction in signal mode: the two-generation pre-trigger cache and what a trigger writes out. */
module RecordAction {

  const NANO: nat := 1_000_000_000
  const TWO_64: nat := 0x1_0000_0000_0000_0000

  type U64 = n: nat | n < 0x1_0000_0000_0000_0000

  /** uint64_t arithmetic. */
  function Sub(a: U64, b: U64): U64 {
    (a - b) % TWO_64
  }

  function Add(a: U64, b: U64): U64 {
    (a + b) % TWO_64
  }

  function Nanos(seconds: U64): U64 {
    seconds * NANO % TWO_64
  }

  datatype Record = Record(topic: nat, logTimestamp: U64, sequence: nat)

  ghost predicate InOrder(p: seq<Record>) {
    forall i, j :: 0 <= i < j < |p| ==> p[i].logTimestamp <= p[j].logTimestamp
  }

  /** The two generations: a full one and the one being filled. */
  datatype Cache = Cache(last: seq<Record>, cur: seq<Record>) {
    function All(): seq<Record> {
      last + cur
    }
  }

  /** The cache after the records `p` arrive while nothing is being recorded. */
  function CacheOf(p: seq<Record>, maxNs: U64): Cache {
    if p == [] then Cache([], [])
    else Push(CacheOf(p[..|p| - 1], maxNs), p[|p| - 1], maxNs)
  }

  function Push(c: Cache, r: Record, maxNs: U64): Cache {
    var cur := c.cur + [r];
    if Sub(r.logTimestamp, cur[0].logTimestamp) > maxNs then Cache(cur, [])
    else Cache(c.last, cur)
  }

  /** The records from `start` on; an integer bound, so that a window may reach back before time zero. */
  function Since(p: seq<Record>, start: int): seq<Record> {
    if p == [] then []
    else Since(p[..|p| - 1], start) + if p[|p| - 1].logTimestamp >= start then [p[|p| - 1]] else []
  }

  /** What a trigger should write: the window, or else the newest record there is. */
  function Window(p: seq<Record>, start: int): seq<Record> {
    if Since(p, start) == [] && p != [] then [p[|p| - 1]] else Since(p, start)
  }

  /** How many of the records `p` have fallen out of the cache. */
  ghost function Dropped(p: seq<Record>, maxNs: U64): int {
    |p| - |CacheOf(p, maxNs).All()|
  }

  /** One more record behind a suffix made of two parts. */
  lemma SuffixGrows(q: seq<Record>, r: Record, d: nat, last: seq<Record>, cur: seq<Record>)
    requires d <= |q| && q[d..] == last + cur
    ensures
      var p := q + [r];
      && p[d..] == last + (cur + [r])
      && p[d + |last|..] == cur + [r]
      && p[d + |last|] == (cur + [r])[0]
  {
    var p := q + [r];
    assert p[d..] == q[d..] + [r];
    assert q[d..] + [r] == last + (cur + [r]);
    assert p[d + |last|..] == p[d..][|last|..];
    assert p[d..][|last|..] == cur + [r];
    assert p[d + |last|..][0] == p[d + |last|];
  }

  /** The cache is a suffix of what arrived, never empty while something arrived. */
  lemma {:induction false} CacheIsSuffix(p: seq<Record>, maxNs: U64)
    ensures 0 <= Dropped(p, maxNs) <= |p|
    ensures CacheOf(p, maxNs).All() == p[Dropped(p, maxNs)..]
    ensures p != [] ==> CacheOf(p, maxNs).All() != []
  {
    hide CacheOf, Push, Dropped;
    if p == [] {
      NothingDropped(maxNs);
    } else {
      var q, r := p[..|p| - 1], p[|p| - 1];
      CacheIsSuffix(q, maxNs);
      PushIsSuffix(q, r, maxNs);
      assert p == q + [r];
    }
  }

  lemma NothingDropped(maxNs: U64)
    ensures Dropped([], maxNs) == 0 && CacheOf([], maxNs).All() == []
  {}

  lemma PushIsSuffix(q: seq<Record>, r: Record, maxNs: U64)
    requires 0 <= Dropped(q, maxNs) <= |q| && CacheOf(q, maxNs).All() == q[Dropped(q, maxNs)..]
    ensures 0 <= Dropped(q + [r], maxNs) <= |q|
    ensures CacheOf(q + [r], maxNs).All() == (q + [r])[Dropped(q + [r], maxNs)..] != []
  {
    hide CacheOf, Push;
    CacheGrows(q, r, maxNs);
    PushKeepsSuffix(q, r, CacheOf(q, maxNs), Dropped(q, maxNs), maxNs);
  }

  lemma PushKeepsSuffix(q: seq<Record>, r: Record, c: Cache, d: nat, maxNs: U64)
    requires d <= |q| && c.All() == q[d..]
    ensures
      var all := Push(c, r, maxNs).All();
      0 < |all| <= |q| + 1 && all == (q + [r])[|q| + 1 - |all|..]
  {
    hide Sub;
    SuffixGrows(q, r, d, c.last, c.cur);
    var all := Push(c, r, maxNs).All();
    assert all == c.cur + [r] || all == c.last + (c.cur + [r]);
  }

  /** A push that drops something drops all up to the first record of the generation it ends, and that
      one is further from the new record than the limit. */
  lemma DropsUpTo(q: seq<Record>, r: Record, maxNs: U64) returns (k: nat)
    ensures 0 <= Dropped(q, maxNs) <= Dropped(q + [r], maxNs) <= k <= |q|
    ensures Dropped(q, maxNs) < Dropped(q + [r], maxNs) ==>
      Sub(r.logTimestamp, (q + [r])[k].logTimestamp) > maxNs
  {
    CacheIsSuffix(q, maxNs);
    var p := q + [r];
    assert p[..|p| - 1] == q;
    var c := CacheOf(q, maxNs);
    k := Dropped(q, maxNs) + |c.last|;
    SuffixGrows(q, r, Dropped(q, maxNs), c.last, c.cur);
  }

  /** Whatever fell out is older than the newest record by more than the preparation limit. */
  lemma {:induction false} DroppedAreOld(p: seq<Record>, maxNs: U64, i: nat)
    requires InOrder(p) && i < |p|
    ensures i < Dropped(p, maxNs) ==> p[i].logTimestamp + maxNs < p[|p| - 1].logTimestamp
  {
    hide CacheOf, Dropped;
    var q, r := p[..|p| - 1], p[|p| - 1];
    assert p == q + [r];
    var k := DropsUpTo(q, r, maxNs);
    if i < Dropped(q, maxNs) {
      DroppedAreOld(q, maxNs, i);
    } else if i < Dropped(p, maxNs) {
      assert p[i].logTimestamp <= p[k].logTimestamp <= r.logTimestamp;
    }
  }

  /** A generation ends with the first record that is further than the limit from the generation's first, so
      what is kept is bounded. */
  lemma {:induction false} GenerationsAreShort(p: seq<Record>, maxNs: U64)
    ensures Short(CacheOf(p, maxNs), maxNs)
  {
    hide Short, Push;
    if p == [] {
      NothingIsShort(maxNs);
    } else {
      GenerationsAreShort(p[..|p| - 1], maxNs);
      PushIsShort(CacheOf(p[..|p| - 1], maxNs), p[|p| - 1], maxNs);
    }
  }

  ghost predicate Short(c: Cache, maxNs: U64) {
    && (forall i :: 0 <= i < |c.cur| ==> Near(c.cur, i, maxNs))
    && (forall i :: 0 <= i < |c.last| ==> (Near(c.last, i, maxNs) <==> i < |c.last| - 1))
  }

  /** At most the limit behind the generation's first record, on 64 bits. */
  predicate Near(generation: seq<Record>, i: nat, maxNs: U64)
    requires i < |generation|
  {
    (generation[i].logTimestamp - generation[0].logTimestamp) % 0x1_0000_0000_0000_0000 <= maxNs
  }

  lemma NothingIsShort(maxNs: U64)
    ensures Short(CacheOf([], maxNs), maxNs)
  {}

  lemma PushIsShort(c: Cache, r: Record, maxNs: U64)
    requires Short(c, maxNs)
    ensures Short(Push(c, r, maxNs), maxNs)
  {
    var cur := c.cur + [r];
    forall i | 0 <= i < |c.cur| ensures Near(cur, i, maxNs) {
      assert Near(c.cur, i, maxNs) && cur[i] == c.cur[i] && cur[0] == c.cur[0];
    }
  }

  /** In timestamp order the window is a suffix, cut at any index that separates old from new. */
  lemma {:induction false} SinceIsSuffix(p: seq<Record>, start: int, k: nat)
    requires k <= |p|
    requires forall i :: 0 <= i < k ==> p[i].logTimestamp < start
    requires forall i :: k <= i < |p| ==> p[i].logTimestamp >= start
    ensures Since(p, start) == p[k..]
  {
    if p != [] {
      var q := p[..|p| - 1];
      if k < |p| {
        SinceIsSuffix(q, start, k);
        assert p[k..] == q[k..] + [p[|p| - 1]];
      } else {
        SinceIsSuffix(q, start, k - 1);
      }
    }
  }

  /** What the trigger writes from the cached records `all`: from the first record at or after `start`,
      or only the last one. */
  ghost predicate Flushes(all: seq<Record>, start: U64, low: nat) {
    && low < |all|
    && (InOrder(all) ==>
          && (forall i :: 0 <= i < low ==> all[i].logTimestamp < start)
          && (low < |all| - 1 ==> all[low].logTimestamp >= start))
  }

  /** The guarantee of the pre-trigger: for records in time order and a preparation time within the limit,
      a trigger writes exactly the window over everything that arrived, although old records were dropped. */
  lemma PreTrigger(p: seq<Record>, maxNs: U64, prepNs: U64, now: U64, low: nat)
    requires p != [] && InOrder(p) && prepNs <= maxNs && p[|p| - 1].logTimestamp <= now
    requires prepNs <= now
    requires Flushes(CacheOf(p, maxNs).All(), Sub(now, prepNs), low)
    ensures CacheOf(p, maxNs).All()[low..] == Window(p, now - prepNs)
  {
    hide CacheOf, Since, Dropped, Flushes, InOrder;
    CacheIsSuffix(p, maxNs);
    var d, start := Dropped(p, maxNs), now - prepNs;
    assert Sub(now, prepNs) == start;
    var all := CacheOf(p, maxNs).All();
    SuffixCut(p, all, d, start, low);
    forall i | 0 <= i < d ensures p[i].logTimestamp < start {
      DroppedAreOld(p, maxNs, i);
    }
    if p[|p| - 1].logTimestamp < start {
      SinceIsSuffix(p, start, |p|);
      assert p[|p|..] == [];
    } else {
      SinceIsSuffix(p, start, d + low);
    }
  }

  /** The cut found in the cached suffix, read as a cut of everything that arrived. */
  lemma SuffixCut(p: seq<Record>, all: seq<Record>, d: nat, start: U64, low: nat)
    requires InOrder(p) && d <= |p| && all == p[d..] && Flushes(all, start, low)
    ensures all[low..] == p[d + low..]
    ensures forall i :: d <= i < d + low ==> p[i].logTimestamp < start
    ensures p[|p| - 1].logTimestamp >= start ==> forall i :: d + low <= i < |p| ==> p[i].logTimestamp >= start
    ensures p[|p| - 1].logTimestamp < start ==> all[low..] == [p[|p| - 1]]
    ensures p[|p| - 1].logTimestamp < start ==> forall i :: d <= i < |p| ==> p[i].logTimestamp < start
  {
    assert InOrder(all);
    forall i | d <= i < d + low ensures p[i].logTimestamp < start {
      assert p[i] == all[i - d];
    }
    assert all[low] == p[d + low];
  }

  lemma {:induction false} CutExists(p: seq<Record>, start: int) returns (k: nat)
    requires InOrder(p)
    ensures k <= |p|
    ensures forall i :: 0 <= i < k ==> p[i].logTimestamp < start
    ensures forall i :: k <= i < |p| ==> p[i].logTimestamp >= start
    decreases |p|
  {
    if p == [] || p[|p| - 1].logTimestamp < start {
      k := |p|;
    } else {
      k := CutExists(p[..|p| - 1], start);
    }
  }

  /** The window without its name: cut where the records begin to be young enough, or before the last one. */
  lemma WindowIsCut(p: seq<Record>, start: int)
    requires p != [] && InOrder(p)
    ensures exists k | 0 <= k < |p| ::
      && Window(p, start) == p[k..]
      && (forall i :: 0 <= i < k ==> p[i].logTimestamp < start)
      && (k < |p| - 1 ==> forall i :: k <= i < |p| ==> p[i].logTimestamp >= start)
  {
    var k := CutExists(p, start);
    SinceIsSuffix(p, start, k);
    hide Since;
    if k == |p| {
      assert p[k..] == [];
      assert Window(p, start) == p[|p| - 1..];
    } else {
      assert Window(p, start) == p[k..];
    }
  }

  /** A preparation time that reaches back before time zero wraps round: only the newest record is written. */
  lemma WrappedStartKeepsNewest(p: seq<Record>, maxNs: U64, prepNs: U64, now: U64, low: nat)
    requires p != [] && InOrder(p) && p[|p| - 1].logTimestamp <= now < prepNs
    requires Flushes(CacheOf(p, maxNs).All(), Sub(now, prepNs), low)
    ensures CacheOf(p, maxNs).All()[low..] == [p[|p| - 1]]
  {
    hide CacheOf;
    CacheIsSuffix(p, maxNs);
    var all, d := CacheOf(p, maxNs).All(), Dropped(p, maxNs);
    assert forall i :: 0 <= i < |all| ==> all[i] == p[d + i];
    assert Sub(now, prepNs) == now - prepNs + TWO_64 > now;
    assert low == |all| - 1;
    assert all[low..] == [all[low]];
  }

  lemma {:induction false} SinceTakesAll(p: seq<Record>, start: int)
    requires start <= 0
    ensures Since(p, start) == p
  {
    SinceIsSuffix(p, start, 0);
  }

  /** The written records are the window exactly when the start does not wrap (or there is one record only). */
  lemma PreTriggerExact(p: seq<Record>, maxNs: U64, prepNs: U64, now: U64, low: nat)
    requires p != [] && InOrder(p) && prepNs <= maxNs && p[|p| - 1].logTimestamp <= now
    requires Flushes(CacheOf(p, maxNs).All(), Sub(now, prepNs), low)
    ensures CacheOf(p, maxNs).All()[low..] == Window(p, now - prepNs) <==> prepNs <= now || |p| == 1
  {
    hide CacheOf, Since, Flushes;
    if prepNs <= now {
      PreTrigger(p, maxNs, prepNs, now, low);
    } else {
      WrappedStartKeepsNewest(p, maxNs, prepNs, now, low);
      SinceTakesAll(p, now - prepNs);
    }
  }

  /** `cacheLast`: the topic keeps its last record, in `lastMsg`. */
  datatype TopicRuntime = TopicRuntime(
    lastTimestamp: U64, sampleInterval: U64, recordEnabled: bool, cacheLast: bool, lastMsg: seq<Record>)

  const NEW_TOPIC := TopicRuntime(0, 0, true, true, [])

  // ---------------------------------------------------------------- sampling

  /** The frequency filter: the 64-bit distance from the topic's last record. */
  predicate Passes(info: TopicRuntime, t: U64) {
    info.sampleInterval > 0 ==> Sub(t, info.lastTimestamp) >= info.sampleInterval
  }

  /** The records of one topic that pass, from a given runtime on. */
  function Sampled(info: TopicRuntime, rs: seq<Record>): seq<Record>
    decreases |rs|
  {
    if rs == [] then []
    else if Passes(info, rs[0].logTimestamp) then
      [rs[0]] + Sampled(info.(lastTimestamp := rs[0].logTimestamp), rs[1..])
    else Sampled(info, rs[1..])
  }

  /** Two records may follow each other exactly if the later one is a whole interval ahead, or if it is
      earlier and 2^64 minus the way back is a whole interval. */
  lemma PassesIff(info: TopicRuntime, t: U64)
    ensures Passes(info, t) <==>
      || info.sampleInterval == 0
      || (t >= info.lastTimestamp && t - info.lastTimestamp >= info.sampleInterval)
      || (t < info.lastTimestamp && info.lastTimestamp - t <= 0x1_0000_0000_0000_0000 - info.sampleInterval)
  {}

  /** What the filter guarantees: for timestamps in order, starting no earlier than the topic's last record,
      each posted record is at least the sampling interval ahead of the one posted before it. */
  lemma {:induction false} SampledApart(info: TopicRuntime, rs: seq<Record>)
    requires InOrder(rs) && (rs != [] ==> info.lastTimestamp <= rs[0].logTimestamp)
    ensures
      var out := Sampled(info, rs);
      && (out != [] ==> out[0].logTimestamp >= info.lastTimestamp + info.sampleInterval)
      && (forall i, j :: 0 <= i < j < |out| ==>
            out[j].logTimestamp >= out[i].logTimestamp + info.sampleInterval)
    decreases |rs|
  {
    if rs != [] {
      PassesIff(info, rs[0].logTimestamp);
      var passed := Passes(info, rs[0].logTimestamp);
      var next := if passed then info.(lastTimestamp := rs[0].logTimestamp) else info;
      assert InOrder(rs[1..]);
      SampledApart(next, rs[1..]);
      var rest := Sampled(next, rs[1..]);
      if passed {
        var out := [rs[0]] + rest;
        forall i, j | 0 <= i < j < |out| ensures out[j].logTimestamp >= out[i].logTimestamp + info.sampleInterval {
          if i == 0 {
            assert rest[0].logTimestamp >= rs[0].logTimestamp + info.sampleInterval;
            assert out[j] == rest[j - 1];
          } else {
            assert out[i] == rest[i - 1] && out[j] == rest[j - 1];
          }
        }
      }
    }
  }

  // ---------------------------------------------------------------- the end of a recording

  /** Which of the records that come in are written, from a given recording flag and stop time on. */
  function WrittenLive(flag: bool, stop: U64, rs: seq<Record>): seq<Record>
    decreases |rs|
  {
    if rs == [] then []
    else
      var goes := flag && (stop == 0 || rs[0].logTimestamp <= stop);
      (if goes then [rs[0]] else []) + WrittenLive(goes, stop, rs[1..])
  }

  /** A recording takes every record up to the first one later than its stop time, and none from there on,
      not even an earlier one; without a stop time it takes all. */
  lemma {:induction false} WritesUpToTheStop(stop: U64, rs: seq<Record>, k: nat)
    requires k <= |rs| && (forall i :: 0 <= i < k ==> stop == 0 || rs[i].logTimestamp <= stop)
    requires k < |rs| ==> stop != 0 && rs[k].logTimestamp > stop
    ensures WrittenLive(true, stop, rs) == rs[..k]
    decreases |rs|
  {
    if k > 0 {
      WritesUpToTheStop(stop, rs[1..], k - 1);
      assert rs[..k] == [rs[0]] + rs[1..][..k - 1];
    } else if rs != [] {
      WritesNothing(stop, rs[1..]);
    }
  }

  lemma {:induction false} WritesNothing(stop: U64, rs: seq<Record>)
    ensures WrittenLive(false, stop, rs) == []
    decreases |rs|
  {
    if rs != [] {
      WritesNothing(stop, rs[1..]);
    }
  }

  // ---------------------------------------------------------------- opening a file

  /** What the writer is handed: a record that was accepted, or a topic's last message once more, under the
      time at which a file was opened. */
  datatype Entry = Recorded(r: Record) | Repeated(r: Record)

  /** Opening a new bag: the folder cannot be made, the file in it cannot be opened, or it is open. */
  datatype Opening = NoFolder | NoFile | Opened(at: U64)

  /** Whether the bag is full when a record comes; the sizes are estimates, so the answer is given. */
  datatype Roll = Stay | Full(opening: Opening)

  predicate HasLast(info: TopicRuntime) {
    info.cacheLast && info.lastMsg != []
  }

  function LastTopics(topics: map<nat, TopicRuntime>): set<nat> {
    set t | t in topics && HasLast(topics[t])
  }

  function Restamp(info: TopicRuntime, at: U64): TopicRuntime {
    if HasLast(info) then info.(lastMsg := [info.lastMsg[0].(logTimestamp := at)]) else info
  }

  function Restamped(topics: map<nat, TopicRuntime>, at: U64): map<nat, TopicRuntime> {
    map t | t in topics :: Restamp(topics[t], at)
  }

  function LastOf(info: TopicRuntime, at: U64): Entry
    requires HasLast(info)
  {
    Repeated(info.lastMsg[0].(logTimestamp := at))
  }

  /** Each last message of `which` once, in some order. */
  ghost predicate RepeatsOf(which: set<nat>, topics: map<nat, TopicRuntime>, at: U64, out: seq<Entry>)
    requires which <= LastTopics(topics)
  {
    && |out| == |which|
    && (forall t :: t in which ==> LastOf(topics[t], at) in out)
    && (forall e :: e in out ==> e.r.topic in which && e == LastOf(topics[e.r.topic], at))
  }

  /** A topic keeps a message of its own. */
  ghost predicate OwnLast(topics: map<nat, TopicRuntime>) {
    forall t :: t in topics && topics[t].lastMsg != [] ==> |topics[t].lastMsg| == 1 && topics[t].lastMsg[0].topic == t
  }

  /** All topics are stamped except those `left`. */
  ghost predicate StampedBut(
      left: set<nat>, were: map<nat, TopicRuntime>, now: map<nat, TopicRuntime>, at: U64)
  {
    && now.Keys == were.Keys && left <= were.Keys
    && forall t :: t in were ==> now[t] == if t in left then were[t] else Restamp(were[t], at)
  }

  /** So much of that loop is done: the topics `left` are still to come. */
  ghost predicate RepeatedSoFar(left: set<nat>, were: map<nat, TopicRuntime>, now: map<nat, TopicRuntime>,
                                before: seq<Entry>, after: seq<Entry>, at: U64)
  {
    && StampedBut(left, were, now, at)
    && exists out :: after == before + out && RepeatsOf(LastTopics(were) - left, were, at, out)
  }

  lemma NoneRepeated(topics: map<nat, TopicRuntime>, before: seq<Entry>, at: U64)
    ensures RepeatedSoFar(topics.Keys, topics, topics, before, before, at)
  {
    assert LastTopics(topics) - topics.Keys == {};
    assert RepeatsOf({}, topics, at, []);
    assert before + [] == before;
  }

  lemma StampOne(left: set<nat>, were: map<nat, TopicRuntime>, now: map<nat, TopicRuntime>, at: U64, t: nat)
    requires StampedBut(left, were, now, at) && t in left
    ensures t in were && t in now && now[t] == were[t] && t !in LastTopics(were) - left
    ensures
      if HasLast(now[t]) then
        && t in LastTopics(were) && LastTopics(were) - (left - {t}) == LastTopics(were) - left + {t}
        && StampedBut(left - {t}, were, now[t := Restamp(now[t], at)], at)
      else LastTopics(were) - (left - {t}) == LastTopics(were) - left && StampedBut(left - {t}, were, now, at)
  {}

  lemma RepeatOne(left: set<nat>, were: map<nat, TopicRuntime>, now: map<nat, TopicRuntime>, before: seq<Entry>,
                  after: seq<Entry>, at: U64, t: nat)
    requires OwnLast(were) && RepeatedSoFar(left, were, now, before, after, at) && t in left
    ensures t in now
    ensures HasLast(now[t]) ==> Restamp(now[t], at).lastMsg != []
    ensures
      if HasLast(now[t]) then
        RepeatedSoFar(left - {t}, were, now[t := Restamp(now[t], at)], before,
                      after + [Repeated(Restamp(now[t], at).lastMsg[0])], at)
      else RepeatedSoFar(left - {t}, were, now, before, after, at)
  {
    hide StampedBut, RepeatsOf, LastTopics, OwnLast;
    StampOne(left, were, now, at, t);
    var out :| after == before + out && RepeatsOf(LastTopics(were) - left, were, at, out);
    if HasLast(now[t]) {
      RepeatOneMore(LastTopics(were) - left, were, at, out, t);
      assert before + out + [LastOf(were[t], at)] == before + (out + [LastOf(were[t], at)]);
    }
  }

  lemma AllRepeated(were: map<nat, TopicRuntime>, now: map<nat, TopicRuntime>, before: seq<Entry>, after: seq<Entry>,
                    at: U64)
    requires RepeatedSoFar({}, were, now, before, after, at)
    ensures now == Restamped(were, at)
  {
    AllStamped(were, now, at);
  }

  lemma AllStamped(were: map<nat, TopicRuntime>, now: map<nat, TopicRuntime>, at: U64)
    requires StampedBut({}, were, now, at)
    ensures now == Restamped(were, at) && LastTopics(were) - {} == LastTopics(were)
  {}

  lemma RepeatOneMore(which: set<nat>, topics: map<nat, TopicRuntime>, at: U64, out: seq<Entry>, t: nat)
    requires OwnLast(topics) && which <= LastTopics(topics) && t in LastTopics(topics) && t !in which
    requires RepeatsOf(which, topics, at, out)
    ensures RepeatsOf(which + {t}, topics, at, out + [LastOf(topics[t], at)])
  {
    var e := LastOf(topics[t], at);
    assert e in out + [e];
    assert forall d :: d in out ==> d in out + [e];
  }

  /** The accepted records among what was handed over. */
  function Fresh(s: seq<Entry>): seq<Record> {
    if s == [] then []
    else Fresh(s[..|s| - 1]) + if s[|s| - 1].Recorded? then [s[|s| - 1].r] else []
  }

  function AsRecorded(rs: seq<Record>): seq<Entry> {
    seq(|rs|, i requires 0 <= i < |rs| => Recorded(rs[i]))
  }

  lemma {:induction false} FreshAppend(a: seq<Entry>, b: seq<Entry>)
    ensures Fresh(a + b) == Fresh(a) + Fresh(b)
    decreases |b|
  {
    if b == [] {
      assert a + b == a;
    } else {
      var front := b[..|b| - 1];
      assert (a + b)[..|a + b| - 1] == a + front;
      FreshAppend(a, front);
    }
  }

  lemma {:induction false} NoneFresh(out: seq<Entry>)
    requires forall e :: e in out ==> e.Repeated?
    ensures Fresh(out) == []
  {
    if out != [] {
      assert out[|out| - 1] in out;
      NoneFresh(out[..|out| - 1]);
    }
  }

  lemma FreshOne(r: Record)
    ensures Fresh([Recorded(r)]) == [r]
  {}

  /** The same topics with the same messages, whatever their stamps. */
  ghost predicate SameLasts(a: map<nat, TopicRuntime>, b: map<nat, TopicRuntime>) {
    && a.Keys == b.Keys
    && forall t :: t in a ==> b[t] == a[t].(lastMsg := b[t].lastMsg) && SamePayloads(a[t].lastMsg, b[t].lastMsg)
  }

  ghost predicate SamePayloads(a: seq<Record>, b: seq<Record>) {
    |a| == |b| && forall i :: 0 <= i < |a| ==> b[i] == a[i].(logTimestamp := b[i].logTimestamp)
  }

  /** An entry that repeats a topic's last message under some stamp. */
  ghost predicate IsRepeat(e: Entry, topics: map<nat, TopicRuntime>) {
    && e.Repeated? && e.r.topic in LastTopics(topics)
    && e == LastOf(topics[e.r.topic], e.r.logTimestamp)
  }

  /** The records `rs`, in order, and between them only repeats, which there are only if some topic keeps its
      last message. */
  ghost predicate Carries(s: seq<Entry>, rs: seq<Record>, topics: map<nat, TopicRuntime>) {
    && Fresh(s) == rs
    && (forall e :: e in s && e.Repeated? ==> IsRepeat(e, topics))
    && (LastTopics(topics) == {} ==> s == AsRecorded(rs))
  }

  /** `after` continues `before` with those records. */
  ghost predicate HandsOver(before: seq<Entry>, after: seq<Entry>, rs: seq<Record>, topics: map<nat, TopicRuntime>) {
    && |before| <= |after| && after[..|before|] == before
    && Carries(after[|before|..], rs, topics)
  }

  lemma HandsOverNothing(w: seq<Entry>, topics: map<nat, TopicRuntime>)
    ensures HandsOver(w, w, [], topics)
  {
    assert w[|w|..] == [];
  }

  lemma HandsOverOne(w: seq<Entry>, r: Record, topics: map<nat, TopicRuntime>)
    ensures HandsOver(w, w + [Recorded(r)], [r], topics)
  {
    assert (w + [Recorded(r)])[|w|..] == [Recorded(r)];
    FreshOne(r);
    assert AsRecorded([r]) == [Recorded(r)];
  }

  lemma HandsOverRepeats(w: seq<Entry>, out: seq<Entry>, topics: map<nat, TopicRuntime>, at: U64)
    requires RepeatsOf(LastTopics(topics), topics, at, out)
    ensures HandsOver(w, w + out, [], topics)
  {
    assert (w + out)[|w|..] == out;
    NoneFresh(out);
  }

  lemma CarriesBoth(x: seq<Entry>, y: seq<Entry>, rs: seq<Record>, more: seq<Record>,
                    topics: map<nat, TopicRuntime>, later: map<nat, TopicRuntime>)
    requires Carries(x, rs, topics) && Carries(y, more, later) && SameLasts(topics, later)
    ensures Carries(x + y, rs + more, topics)
  {
    hide Fresh, IsRepeat, SameLasts, LastTopics;
    FreshAppend(x, y);
    SameTopics(topics, later);
    forall e: Entry | e in x + y && e.Repeated? ensures IsRepeat(e, topics) {
      if e !in x {
        SameRepeat(e, topics, later);
      }
    }
    assert AsRecorded(rs) + AsRecorded(more) == AsRecorded(rs + more);
  }

  lemma HandsOverBoth(a: seq<Entry>, b: seq<Entry>, c: seq<Entry>, rs: seq<Record>, more: seq<Record>,
                      topics: map<nat, TopicRuntime>, later: map<nat, TopicRuntime>)
    requires HandsOver(a, b, rs, topics) && HandsOver(b, c, more, later) && SameLasts(topics, later)
    ensures HandsOver(a, c, rs + more, topics)
  {
    hide Carries, SameLasts;
    var x, y := b[|a|..], c[|b|..];
    assert b == a + x && c == b + y;
    assert c[|a|..] == x + y;
    CarriesBoth(x, y, rs, more, topics, later);
  }

  lemma SameTopics(a: map<nat, TopicRuntime>, b: map<nat, TopicRuntime>)
    requires SameLasts(a, b)
    ensures LastTopics(a) == LastTopics(b)
  {}

  lemma SameRepeat(e: Entry, topics: map<nat, TopicRuntime>, later: map<nat, TopicRuntime>)
    requires SameLasts(topics, later) && IsRepeat(e, later)
    ensures IsRepeat(e, topics)
  {}

  lemma RestampedIsSame(topics: map<nat, TopicRuntime>, at: U64)
    requires OwnLast(topics)
    ensures SameLasts(topics, Restamped(topics, at)) && OwnLast(Restamped(topics, at))
  {}

  lemma SameIsTransitive(a: map<nat, TopicRuntime>, b: map<nat, TopicRuntime>, c: map<nat, TopicRuntime>)
    requires SameLasts(a, b) && SameLasts(b, c)
    ensures SameLasts(a, c)
  {}

  // ---------------------------------------------------------------- the recorder

  class RecordAction {
    const signalMode: bool
    const maxPreparationNs: U64
    var recordEnabled: bool
    var topics: map<nat, TopicRuntime>
    var recordingFlag: bool
    var stopTimestamp: U64
    var lastCache: seq<Record>
    var curCache: seq<Record>
    ghost var pending: seq<Record>  // cached since the last trigger that flushed
    var hasWriter: bool
    ghost var written: seq<Entry>  // everything handed to the writer, in order

    ghost predicate Valid()
      reads this
    {
      CacheOf(pending, maxPreparationNs) == Cache(lastCache, curCache) && OwnLast(topics)
    }

    /** In immediate mode the first bag is opened at once. */
    constructor (signalMode: bool, maxPreparationS: U64, topics: map<nat, TopicRuntime>)
      requires forall t :: t in topics ==> topics[t].lastMsg == []
      ensures Valid() && pending == [] && written == [] && !recordingFlag && hasWriter == !signalMode
      ensures maxPreparationNs == maxPreparationS * 1_000_000_000 % 0x1_0000_0000_0000_0000
    {
      this.signalMode, this.topics := signalMode, topics;
      maxPreparationNs := Nanos(maxPreparationS);
      recordEnabled, recordingFlag, stopTimestamp, hasWriter := true, false, 0, !signalMode;
      lastCache, curCache, pending, written := [], [], [], [];
    }

    /** The caller's half of AddRecord: whether the record is posted to the executor. */
    method Sample(r: Record) returns (posted: bool)
      requires Valid()
      modifies this`topics
      ensures Valid()
      ensures
        var info := if r.topic in old(topics) then old(topics)[r.topic] else NEW_TOPIC;
        && posted == (recordEnabled && info.recordEnabled && Passes(info, r.logTimestamp))
        && posted == (recordEnabled && info.recordEnabled && Sampled(info, [r]) == [r])
        && topics.Keys == old(topics).Keys + {r.topic}
        && (forall t :: t in old(topics) && t != r.topic ==> topics[t] == old(topics)[t])
        && topics[r.topic].lastTimestamp == (if posted then r.logTimestamp else info.lastTimestamp)
        && topics[r.topic].lastMsg == (if posted && info.cacheLast then [r] else info.lastMsg)
        && topics[r.topic] == info.(lastTimestamp := topics[r.topic].lastTimestamp, lastMsg := topics[r.topic].lastMsg)
    {
      if r.topic !in topics {
        topics := topics[r.topic := NEW_TOPIC];
      }
      var info := topics[r.topic];
      if !recordEnabled || !info.recordEnabled {
        return false;
      }
      if info.sampleInterval > 0 && Sub(r.logTimestamp, info.lastTimestamp) < info.sampleInterval {
        return false;
      }
      info := info.(lastTimestamp := r.logTimestamp);
      if info.cacheLast {
        info := info.(lastMsg := [r]);
      }
      topics := topics[r.topic := info];
      posted := true;
    }

    /** Every last message a topic keeps is written under the new time, in the order of the hash map. */
    method RepeatLasts(at: U64)
      requires OwnLast(topics)
      modifies this`topics, this`written
      ensures topics == Restamped(old(topics), at)
      ensures RepeatedSoFar({}, old(topics), topics, old(written), written, at)
    {
      hide RepeatedSoFar, OwnLast, HasLast, Restamp;
      ghost var were, before := topics, written;
      var left := topics.Keys;
      NoneRepeated(were, before, at);
      while left != {}
        invariant RepeatedSoFar(left, were, topics, before, written, at)
        decreases left
      {
        var t :| t in left;
        RepeatOne(left, were, topics, before, written, at, t);
        if HasLast(topics[t]) {
          topics := topics[t := Restamp(topics[t], at)];
          written := written + [Repeated(topics[t].lastMsg[0])];
        }
        left := left - {t};
      }
      AllRepeated(were, topics, before, written, at);
    }

    /** Opening a bag writes the last messages the topics keep, under its opening time. */
    method OpenNewBag(opening: Opening)
      requires OwnLast(topics)
      modifies this`topics, this`written, this`hasWriter
      ensures OwnLast(topics) && SameLasts(old(topics), topics)
      ensures hasWriter == (old(hasWriter) || !opening.NoFolder?)
      ensures !opening.Opened? ==> topics == old(topics) && written == old(written)
      ensures opening.Opened? ==>
        && topics == Restamped(old(topics), opening.at)
        && exists out ::
             written == old(written) + out && RepeatsOf(LastTopics(old(topics)), old(topics), opening.at, out)
    {
      hide SameLasts, OwnLast, RepeatsOf, LastTopics, Restamp, StampedBut;
      SameSelf(topics);
      hasWriter := hasWriter || !opening.NoFolder?;
      if opening.Opened? {
        RestampedIsSame(topics, opening.at);
        RepeatLasts(opening.at);
        assert LastTopics(old(topics)) - {} == LastTopics(old(topics));
      }
    }

    /** AddRecordImpl: a full bag is changed first. Without a writer the program would follow a null pointer. */
    method Write(r: Record, roll: Roll) returns (ok: bool)
      requires OwnLast(topics)
      modifies this`topics, this`written, this`hasWriter
      ensures OwnLast(topics) && SameLasts(old(topics), topics)
      ensures ok == hasWriter == (old(hasWriter) || (roll.Full? && !roll.opening.NoFolder?))
      ensures ok ==> HandsOver(old(written), written, [r], old(topics))
      ensures ok && roll.Stay? ==> written == old(written) + [Recorded(r)] && topics == old(topics)
      ensures !ok ==> written == old(written)
    {
      ghost var before, were := written, topics;
      if roll.Full? {
        OpenNewBag(roll.opening);
      }
      if !hasWriter {
        return false;
      }
      HandsOverNothing(before, were);
      if roll.Full? && roll.opening.Opened? {
        ghost var out :| written == before + out && RepeatsOf(LastTopics(were), were, roll.opening.at, out);
        HandsOverRepeats(before, out, were, roll.opening.at);
      }
      HandsOverOne(written, r, topics);
      HandsOverBoth(before, written, written + [Recorded(r)], [], [r], were, topics);
      assert [] + [r] == [r];
      written := written + [Recorded(r)];
      ok := true;
    }

    /** Records of a cache generation, one by one; `rolls` says which of them find the bag full. */
    method WriteAll(rs: seq<Record>, rolls: nat -> Roll)
      requires OwnLast(topics) && hasWriter
      modifies this`topics, this`written, this`hasWriter
      ensures OwnLast(topics) && SameLasts(old(topics), topics) && hasWriter
      ensures HandsOver(old(written), written, rs, old(topics))
      ensures (forall i :: rolls(i) == Stay) ==> written == old(written) + AsRecorded(rs) && topics == old(topics)
    {
      hide HandsOver, OwnLast, SameLasts;
      ghost var before, were := written, topics;
      SameSelf(were);
      HandsOverNothing(before, were);
      assert before + AsRecorded(rs[..0]) == before;
      var i := 0;
      while i < |rs|
        invariant i <= |rs| && hasWriter
        invariant OwnLast(topics) && SameLasts(were, topics)
        invariant HandsOver(before, written, rs[..i], were)
        invariant (forall i :: rolls(i) == Stay) ==> written == before + AsRecorded(rs[..i]) && topics == were
      {
        ghost var sofar, topicsThen := written, topics;
        var _ := Write(rs[i], rolls(i));
        HandsOverBoth(before, sofar, written, rs[..i], [rs[i]], were, topicsThen);
        SameIsTransitive(were, topicsThen, topics);
        assert rs[..i] + [rs[i]] == rs[..i + 1];
        assert AsRecorded(rs[..i]) + [Recorded(rs[i])] == AsRecorded(rs[..i + 1]);
        i := i + 1;
      }
      assert rs[..i] == rs;
    }

    /** The executor's half of AddRecord. `ok`: no record went to a writer that does not exist. */
    method AddRecord(r: Record, roll: Roll) returns (ok: bool)
      requires Valid()
      modifies this
      ensures Valid() && SameLasts(old(topics), topics) && recordEnabled == old(recordEnabled)
      ensures stopTimestamp == old(stopTimestamp)
      ensures signalMode ==>
        && recordingFlag == (old(recordingFlag) && (stopTimestamp == 0 || r.logTimestamp <= stopTimestamp))
        && (recordingFlag <==> WrittenLive(old(recordingFlag), stopTimestamp, [r]) == [r])
      ensures
        var direct := !signalMode || recordingFlag;
        && (ok <==> !direct || hasWriter)
        && (hasWriter <==> old(hasWriter) || (direct && roll.Full? && !roll.opening.NoFolder?))
        && pending == (if direct then old(pending) else old(pending) + [r])
        && (direct && ok ==> HandsOver(old(written), written, [r], old(topics)))
        && (direct && ok && roll.Stay? ==> written == old(written) + [Recorded(r)] && topics == old(topics))
        && (!direct || !ok ==> written == old(written))
    {
      hide CacheOf, Sub, HandsOver, OwnLast;
      ok := true;
      if !signalMode {
        ok := Write(r, roll);
        return;
      }
      if recordingFlag {
        if stopTimestamp != 0 && r.logTimestamp > stopTimestamp {
          recordingFlag := false;
        }
      }
      if recordingFlag {
        ok := Write(r, roll);
      } else {
        CacheGrows(pending, r, maxPreparationNs);
        pending := pending + [r];
        curCache := curCache + [r];
        if Sub(r.logTimestamp, curCache[0].logTimestamp) > maxPreparationNs {
          curCache, lastCache := lastCache, curCache;
          curCache := [];
        }
      }
    }

    function CachedTimestamp(i: nat): U64
      requires i < |lastCache| + |curCache|
      reads this
    {
      if i < |lastCache| then lastCache[i].logTimestamp else curCache[i - |lastCache|].logTimestamp
    }

    /** The binary search over the two generations as if they were one sequence. */
    method FindStart(start: U64) returns (low: nat)
      requires lastCache + curCache != []
      ensures Flushes(lastCache + curCache, start, low)
    {
      ghost var all := lastCache + curCache;
      low := 0;
      var high := |lastCache| + |curCache| - 1;
      while low < high
        invariant low <= high < |all|
        invariant InOrder(all) ==> forall i :: 0 <= i < low ==> all[i].logTimestamp < start
        invariant InOrder(all) && high < |all| - 1 ==> all[high].logTimestamp >= start
      {
        var mid := low + (high - low) / 2;
        assert CachedTimestamp(mid) == all[mid].logTimestamp;
        if CachedTimestamp(mid) < start {
          low := mid + 1;
        } else {
          high := mid;
        }
      }
    }

    /** The cached records from `low` on, over both generations. */
    method WriteFrom(low: nat, rolls: nat -> Roll)
      requires Valid() && hasWriter && low <= |lastCache| + |curCache|
      modifies this`topics, this`written, this`hasWriter
      ensures Valid() && SameLasts(old(topics), topics) && hasWriter
      ensures HandsOver(old(written), written, (lastCache + curCache)[low..], old(topics))
      ensures (forall i :: rolls(i) == Stay) ==> written == old(written) + AsRecorded((lastCache + curCache)[low..])
    {
      hide CacheOf, HandsOver, OwnLast, SameLasts;
      TwoGenerations(lastCache, curCache, low);
      if low < |lastCache| {
        ghost var before, were := written, topics;
        WriteAll(lastCache[low..], rolls);
        ghost var half, topicsHalf := written, topics;
        var n: nat := |lastCache| - low;
        WriteAll(curCache, (i: nat) => rolls(i + n));
        HandsOverBoth(before, half, written, lastCache[low..], curCache, were, topicsHalf);
        SameIsTransitive(were, topicsHalf, topics);
        assert AsRecorded(lastCache[low..]) + AsRecorded(curCache) == AsRecorded((lastCache + curCache)[low..]);
      } else {
        WriteAll(curCache[low - |lastCache|..], rolls);
      }
    }

    /** The task of StartSignalRecord. When no folder can be made it throws: the flag is set by then, nothing
        is written or cleared, and the countdown its caller waits for is skipped. */
    method StartSignalRecord(prepS: U64, recordS: U64, opening: Opening, now: U64, rolls: nat -> Roll)
      returns (threw: bool, ghost flushed: seq<Record>)
      requires Valid()
      modifies this
      ensures Valid() && SameLasts(old(topics), topics) && recordEnabled == old(recordEnabled)
      ensures recordingFlag
      ensures threw <==> !old(recordingFlag) && opening.NoFolder?
      ensures old(recordingFlag) || threw ==>
        && written == old(written) && pending == old(pending) && topics == old(topics)
        && stopTimestamp == old(stopTimestamp) && hasWriter == old(hasWriter)
      ensures !old(recordingFlag) && !threw ==>
        && pending == [] && hasWriter
        && StopsAt(stopTimestamp, now, recordS)
        && FlushesSeconds(old(pending), maxPreparationNs, prepS, now, flushed)
        && TriggerFlushes(old(pending), maxPreparationNs, Nanos(prepS), now, flushed)
        && StartWrites(old(written), written, flushed, opening, old(topics), rolls)
    {
      hide CacheOf, Window, Sub, Add, Nanos, Flushes, TriggerFlushes, StopsAt, FlushesSeconds, Dropped;
      hide HandsOver, OwnLast, SameLasts, RepeatsOf, StartWrites;
      SameSelf(topics);
      if recordingFlag {
        return false, [];
      }
      recordingFlag := true;
      if opening.NoFolder? {
        return true, [];
      }
      ghost var before, were := written, topics;
      OpenNewBag(opening);
      ghost var begun, topicsThen := written, topics;
      stopTimestamp := if recordS == 0 then 0 else Add(now, Nanos(recordS));
      var start := Sub(now, Nanos(prepS));
      CacheIsSuffix(pending, maxPreparationNs);
      EmptyCache(maxPreparationNs);
      StopTime(now, recordS);
      threw, flushed := false, [];
      if |lastCache| + |curCache| == 0 {
        NothingPending(maxPreparationNs, Nanos(prepS), now);
        InSeconds([], maxPreparationNs, prepS, now, []);
        HandsOverNothing(written, topics);
        assert written == written + AsRecorded([]);
        StartMeaning(before, begun, written, flushed, opening, were, topics, rolls);
        return;
      }
      var low := FindStart(start);
      FlushesWithin(lastCache + curCache, start, low);
      flushed := (lastCache + curCache)[low..];
      FlushMeaning(pending, maxPreparationNs, Nanos(prepS), now, low);
      InSeconds(pending, maxPreparationNs, prepS, now, flushed);
      WriteFrom(low, rolls);
      StartMeaning(before, begun, written, flushed, opening, were, topicsThen, rolls);
      SameIsTransitive(were, topicsThen, topics);
      lastCache, curCache, pending := [], [], [];
    }

    method StopSignalRecord()
      requires Valid()
      modifies this`recordingFlag
      ensures Valid() && !recordingFlag
    {
      recordingFlag := false;
    }
  }

  /** What a start hands to the writer. When the file is open: every last message kept, once, under the opening
      time, and behind them the flushed records, with more repeats among them only where the bag got full.
      It is the flushed records alone if and only if no topic keeps a last message. */
  ghost predicate StartWrites(before: seq<Entry>, after: seq<Entry>, flushed: seq<Record>, opening: Opening,
                              topics: map<nat, TopicRuntime>, rolls: nat -> Roll)
  {
    && HandsOver(before, after, flushed, topics)
    && (opening.Opened? ==>
          && (exists out ::
                && RepeatsOf(LastTopics(topics), topics, opening.at, out)
                && HandsOver(before + out, after, flushed, topics)
                && ((forall i :: rolls(i) == Stay) ==> after == before + out + AsRecorded(flushed)))
          && (after == before + AsRecorded(flushed) <==> LastTopics(topics) == {}))
  }

  lemma StartMeaning(before: seq<Entry>, begun: seq<Entry>, after: seq<Entry>, flushed: seq<Record>,
                     opening: Opening, topics: map<nat, TopicRuntime>, later: map<nat, TopicRuntime>,
                     rolls: nat -> Roll)
    requires !opening.Opened? ==> begun == before
    requires opening.Opened? ==>
      exists out :: begun == before + out && RepeatsOf(LastTopics(topics), topics, opening.at, out)
    requires SameLasts(topics, later) && HandsOver(begun, after, flushed, later)
    requires (forall i :: rolls(i) == Stay) ==> after == begun + AsRecorded(flushed)
    ensures StartWrites(before, after, flushed, opening, topics, rolls)
  {
    hide RepeatsOf, SameLasts, HandsOver, IsRepeat;
    HandsOverNothing(before, topics);
    assert [] + flushed == flushed;
    SameSelf(topics);
    HandsOverNothing(begun, topics);
    HandsOverBoth(begun, begun, after, [], flushed, topics, later);
    if opening.Opened? {
      var out :| begun == before + out && RepeatsOf(LastTopics(topics), topics, opening.at, out);
      HandsOverRepeats(before, out, topics, opening.at);
      HandsOverBoth(before, begun, after, [], flushed, topics, later);
      AloneIff(before, out, after, flushed, topics, opening.at);
    } else {
      HandsOverBoth(before, before, after, [], flushed, topics, later);
    }
  }

  lemma AloneIff(before: seq<Entry>, out: seq<Entry>, after: seq<Entry>, flushed: seq<Record>,
                 topics: map<nat, TopicRuntime>, at: U64)
    requires RepeatsOf(LastTopics(topics), topics, at, out) && HandsOver(before, after, flushed, topics)
    requires HandsOver(before + out, after, flushed, topics)
    ensures after == before + AsRecorded(flushed) <==> LastTopics(topics) == {}
  {
    if LastTopics(topics) != {} {
      var t :| t in LastTopics(topics);
      assert LastOf(topics[t], at) in out;
      assert after[|before|] == out[0];
    }
  }

  /** A record is written once more at an opening if and only if it is, but for its time, the last message its
      topic keeps. */
  lemma RepeatedIff(topics: map<nat, TopicRuntime>, at: U64, out: seq<Entry>, r: Record)
    requires RepeatsOf(LastTopics(topics), topics, at, out)
    ensures Repeated(r.(logTimestamp := at)) in out <==>
      && r.topic in LastTopics(topics)
      && var last := topics[r.topic].lastMsg[0]; last == r.(logTimestamp := last.logTimestamp)
  {
    if r.topic in LastTopics(topics) {
      assert LastOf(topics[r.topic], at) in out;
    }
  }

  lemma SameSelf(topics: map<nat, TopicRuntime>)
    ensures SameLasts(topics, topics)
  {}

  lemma CacheGrows(p: seq<Record>, r: Record, maxNs: U64)
    ensures CacheOf(p + [r], maxNs) == Push(CacheOf(p, maxNs), r, maxNs)
  {
    assert (p + [r])[..|p|] == p;
  }

  lemma EmptyCache(maxNs: U64)
    ensures CacheOf([], maxNs) == Cache([], [])
  {}

  /** What a trigger flushes from the cache: some suffix of the pending records; with timestamps in order, a
      clock not behind them and a preparation within the limit, the window exactly when it does not wrap. */
  ghost predicate TriggerFlushes(p: seq<Record>, maxNs: U64, prepNs: U64, now: U64, flushed: seq<Record>)
  {
    && (p == [] ==> flushed == [])
    && (p != [] ==> exists k | 0 <= k < |p| :: flushed == p[k..])
    && (p != [] && InOrder(p) && p[|p| - 1].logTimestamp <= now && prepNs <= maxNs ==>
          (flushed == Window(p, now - prepNs) <==> prepNs <= now || |p| == 1))
  }

  /** When a recording of `seconds` from `now` ends, on 64-bit nanoseconds: that many seconds later unless the
      sum wraps, which for less than 2^64 nanoseconds puts the stop before the start. Zero is no stop. */
  ghost predicate StopsAt(stop: U64, now: U64, seconds: U64) {
    var sum := now + seconds * 1_000_000_000;
    && (seconds == 0 ==> stop == 0)
    && (seconds > 0 ==> stop == sum % 0x1_0000_0000_0000_0000)
    && (seconds > 0 ==> (stop == sum <==> sum < 0x1_0000_0000_0000_0000))
    && (0 < seconds * 1_000_000_000 < 0x1_0000_0000_0000_0000 ==> (stop < now <==> sum >= 0x1_0000_0000_0000_0000))
  }

  lemma StopTime(now: U64, seconds: U64)
    ensures StopsAt(if seconds == 0 then 0 else Add(now, Nanos(seconds)), now, seconds)
  {
    if seconds > 0 {
      AddMod(now, seconds * 1_000_000_000);
      Wraps(now, seconds * 1_000_000_000);
    }
  }

  lemma AddMod(a: nat, b: nat)
    ensures (a + b % 0x1_0000_0000_0000_0000) % 0x1_0000_0000_0000_0000 == (a + b) % 0x1_0000_0000_0000_0000
  {}

  lemma Wraps(a: U64, b: nat)
    ensures (a + b) % 0x1_0000_0000_0000_0000 == a + b <==> a + b < 0x1_0000_0000_0000_0000
    ensures 0 < b < 0x1_0000_0000_0000_0000 ==>
      ((a + b) % 0x1_0000_0000_0000_0000 < a <==> a + b >= 0x1_0000_0000_0000_0000)
  {}

  /** The flush in seconds: for records in time order up to `now` and a preparation within the limit, the
      records no older than that many seconds, or the newest one; only that one if the time reaches back
      before zero. */
  ghost predicate FlushesSeconds(p: seq<Record>, maxNs: U64, seconds: U64, now: U64, flushed: seq<Record>) {
    var ns := seconds * 1_000_000_000;
    p != [] && InOrder(p) && p[|p| - 1].logTimestamp <= now && ns <= maxNs ==>
      if ns <= now then
        exists k | 0 <= k < |p| ::
          && flushed == p[k..]
          && (forall i :: 0 <= i < k ==> p[i].logTimestamp < now - ns)
          && (k < |p| - 1 ==> forall i :: k <= i < |p| ==> p[i].logTimestamp >= now - ns)
      else flushed == [p[|p| - 1]]
  }

  lemma InSeconds(p: seq<Record>, maxNs: U64, seconds: U64, now: U64, flushed: seq<Record>)
    requires TriggerFlushes(p, maxNs, Nanos(seconds), now, flushed)
    requires p != [] && InOrder(p) && p[|p| - 1].logTimestamp <= now < Nanos(seconds) <= maxNs ==>
      flushed == [p[|p| - 1]]
    ensures FlushesSeconds(p, maxNs, seconds, now, flushed)
  {
    hide Window;
    var ns := seconds * 1_000_000_000;
    if p != [] && InOrder(p) && p[|p| - 1].logTimestamp <= now && ns <= maxNs {
      assert Nanos(seconds) == ns;
      if ns <= now {
        WindowIsCut(p, now - ns);
      }
    }
  }

  lemma NothingPending(maxNs: U64, prepNs: U64, now: U64)
    ensures TriggerFlushes([], maxNs, prepNs, now, [])
  {}

  lemma TwoGenerations(last: seq<Record>, cur: seq<Record>, low: nat)
    requires low <= |last| + |cur|
    ensures low < |last| ==> last[low..] + cur == Cache(last, cur).All()[low..]
    ensures low >= |last| ==> cur[low - |last|..] == Cache(last, cur).All()[low..]
  {}

  lemma FlushesWithin(all: seq<Record>, start: U64, low: nat)
    requires Flushes(all, start, low)
    ensures low < |all|
  {}

  lemma FlushMeaning(p: seq<Record>, maxNs: U64, prepNs: U64, now: U64, low: nat)
    requires p != [] && Flushes(CacheOf(p, maxNs).All(), Sub(now, prepNs), low)
    ensures TriggerFlushes(p, maxNs, prepNs, now, CacheOf(p, maxNs).All()[low..])
    ensures InOrder(p) && p[|p| - 1].logTimestamp <= now < prepNs ==>
      CacheOf(p, maxNs).All()[low..] == [p[|p| - 1]]
  {
    hide CacheOf, Window, Sub;
    CacheIsSuffix(p, maxNs);
    var k := Dropped(p, maxNs) + low;
    assert CacheOf(p, maxNs).All()[low..] == p[k..];
    if InOrder(p) && p[|p| - 1].logTimestamp <= now && prepNs <= maxNs {
      PreTriggerExact(p, maxNs, prepNs, now, low);
    }
    if InOrder(p) && p[|p| - 1].logTimestamp <= now < prepNs {
      WrappedStartKeepsNewest(p, maxNs, prepNs, now, low);
    }
  }
}
