/** Shared-memory loans of one iceoryx publisher: an interleaving of critical sections, each under the
    publisher's mutex. A handle belongs to one Publish call; chunks are numbered as they are loaned. */
module IceoryxLoans {
  import opened Seqs

  const HALF_SIZE_T: nat := 0x8000_0000_0000_0000
  const SIZE_T: nat := 0x1_0000_0000_0000_0000

  /** `while (min_size > shm_size_) shm_size_ *= 2`, where it does not wrap. */
  function Grow(size: nat, min: nat): (r: nat)
    requires 0 < size < SIZE_T && min <= HALF_SIZE_T
    ensures size <= r < SIZE_T && min <= r
    ensures r == size || r < 2 * min
    decreases min - size
  {
    if min > size then Grow(2 * size, min) else size
  }

  /** The loop on a 64-bit word. From a zero size, or toward more than half the address range, the
      word would reach zero and the loop would never end. */
  method GrowInPlace(size: nat, min: nat) returns (r: nat)
    requires 0 < size < SIZE_T && min <= HALF_SIZE_T
    ensures r == Grow(size, min)
  {
    r := size;
    while min > r
      invariant 0 < r < SIZE_T && Grow(r, min) == Grow(size, min)
      decreases min - r
    {
      r := r * 2 % SIZE_T;
    }
  }

  /** The doubling ends at a size the pool serves. */
  ghost predicate Fits(size: nat, needed: nat, capacity: nat) {
    0 < size < SIZE_T && needed <= HALF_SIZE_T && Grow(size, needed) <= capacity
  }

  lemma {:induction false} FitsFromHere(size: nat, min: nat, needed: nat, capacity: nat)
    requires 0 < size < SIZE_T && min <= needed && min <= HALF_SIZE_T
    ensures Fits(size, needed, capacity) <==> Fits(Grow(size, min), needed, capacity)
    decreases min - size
  {
    if min > size {
      FitsFromHere(2 * size, min, needed, capacity);
      assert needed <= HALF_SIZE_T ==> Grow(size, needed) == Grow(2 * size, needed);
    }
  }

  lemma FitsDoubled(size: nat, needed: nat, capacity: nat)
    requires 0 < size <= capacity && 2 * capacity <= HALF_SIZE_T
    ensures Grow(size, 2 * size) == 2 * size
    ensures size >= needed ==> Fits(size, needed, capacity)
    ensures size < needed ==> (Fits(size, needed, capacity) <==> Fits(2 * size, needed, capacity))
    ensures 2 * size > capacity && size < needed ==> !Fits(size, needed, capacity)
  {
    assert Grow(size, 2 * size) == Grow(2 * size, 2 * size);
    if size < needed <= HALF_SIZE_T {
      assert Grow(size, needed) == Grow(2 * size, needed);
    }
  }

  /** Every message the pool could hold can be sent if and only if the capacity is one of the doublings. */
  lemma EveryFittingSizeIff(size: nat, capacity: nat)
    requires 0 < size < SIZE_T && capacity <= HALF_SIZE_T
    ensures (forall needed: nat :: needed <= capacity ==> Fits(size, needed, capacity)) <==>
      Grow(size, capacity) <= capacity
  {
    if Grow(size, capacity) <= capacity {
      forall needed: nat | needed <= capacity ensures Fits(size, needed, capacity) {
        GrowMono(size, needed, capacity);
      }
    } else {
      assert !Fits(size, capacity, capacity);
    }
  }

  lemma {:induction false} GrowMono(size: nat, a: nat, b: nat)
    requires 0 < size < SIZE_T && a <= b <= HALF_SIZE_T
    ensures Grow(size, a) <= Grow(size, b)
    decreases a - size
  {
    if a > size {
      GrowMono(2 * size, a, b);
    }
  }

  datatype Phase = Open | Closed

  /** `held` and `size` are a handle's ptr_ and size_; a handle absent from `held` has a null ptr_. */
  datatype State = State(
    shmSize: nat, next: nat, phase: map<nat, Phase>, held: map<nat, nat>, size: map<nat, nat>,
    retries: map<nat, nat>, released: seq<nat>, published: seq<nat>)

  datatype Step =
    | Loan(h: nat, min: nat, granted: bool)
    | Update(h: nat, granted: bool)
    | Publish(h: nat)
    | Destroy(h: nat)

  function Init(shmSize: nat): State {
    State(shmSize, 0, map[], map[], map[], map[], [], [])
  }

  /** What a Publish call may do next. The pool grants no chunk larger than `capacity`. */
  predicate Enabled(s: State, step: Step, capacity: nat) {
    && 0 < s.shmSize < SIZE_T
    && match step
       case Loan(h, min, granted) =>
         h !in s.phase && min <= HALF_SIZE_T && (granted ==> Grow(s.shmSize, min) <= capacity)
       case Update(h, granted) =>
         && h in s.phase && s.phase[h] == Open && h in s.held && h in s.size && h in s.retries
         && 2 * s.size[h] <= HALF_SIZE_T && (granted ==> Grow(s.shmSize, 2 * s.size[h]) <= capacity)
       case Publish(h) => h in s.phase && s.phase[h] == Open && h in s.held
       case Destroy(h) => h in s.phase && s.phase[h] == Open
  }

  function Give(s: State, h: nat, retries: nat): State {
    s.(next := s.next + 1, held := s.held[h := s.next], size := s.size[h := s.shmSize],
       retries := s.retries[h := retries])
  }

  function Drop(s: State, h: nat): State {
    s.(held := s.held - {h})
  }

  function Next(s: State, step: Step, capacity: nat): State
    requires Enabled(s, step, capacity)
  {
    match step
    case Loan(h, min, granted) =>
      var grown := s.(shmSize := Grow(s.shmSize, min));
      if granted then Give(grown, h, 0).(phase := s.phase[h := Open])
      else grown.(phase := s.phase[h := Closed])
    case Update(h, granted) =>
      var grown := s.(shmSize := Grow(s.shmSize, 2 * s.size[h]), released := s.released + [s.held[h]]);
      if granted then Give(grown, h, s.retries[h] + 1) else Drop(grown, h)
    case Publish(h) => Drop(s, h).(published := s.published + [s.held[h]])
    case Destroy(h) =>
      var closed := s.(phase := s.phase[h := Closed]);
      if h in s.held then Drop(closed, h).(released := s.released + [s.held[h]]) else closed
  }

  /** Every chunk ever loaned is in one place: with one handle, released once, or published once. */
  ghost predicate Settled(s: State) {
    && Distinct(s.released) && Distinct(s.published)
    && (forall c :: c in s.released ==> c !in s.published)
    && (forall c :: c in s.released || c in s.published ==> c < s.next)
    && (forall h :: h in s.held ==> s.held[h] < s.next && s.held[h] !in s.released && s.held[h] !in s.published)
    && (forall h, g :: h in s.held && g in s.held && s.held[h] == s.held[g] ==> h == g)
  }

  ghost predicate NoneLost(s: State) {
    forall c: nat :: c < s.next ==> c in s.released || c in s.published || exists h :: h in s.held && s.held[h] == c
  }

  ghost predicate Handles(s: State, capacity: nat) {
    && (forall h :: h in s.held ==> h in s.phase && s.phase[h] == Open && h in s.size && h in s.retries)
    && (forall h :: h in s.held ==> s.size[h] <= capacity && s.size[h] <= s.shmSize)
    && (forall h :: h in s.held ==> Pow2(s.retries[h]) <= s.size[h])
  }

  ghost predicate Inv(s: State, capacity: nat) {
    0 < s.shmSize < SIZE_T && Settled(s) && NoneLost(s) && Handles(s, capacity)
  }

  function Pow2(n: nat): (r: nat)
    ensures r > 0
  {
    if n == 0 then 1 else 2 * Pow2(n - 1)
  }

  // ---------------------------------------------------------------- every step keeps it

  ghost predicate Sound(s: State, capacity: nat) {
    Settled(s) && NoneLost(s) && Handles(s, capacity)
  }

  lemma GiveKeeps(s: State, h: nat, retries: nat, capacity: nat)
    requires Sound(s, capacity) && h !in s.held
    requires h in s.phase && s.phase[h] == Open && s.shmSize <= capacity && Pow2(retries) <= s.shmSize
    ensures Sound(Give(s, h, retries), capacity)
  {
    hide Settled, NoneLost, Handles, Pow2;
    GiveSettles(s, h, retries);
    GiveLosesNone(s, h, retries);
    GiveHandles(s, h, retries, capacity);
  }

  lemma GiveSettles(s: State, h: nat, retries: nat)
    requires Settled(s) && h !in s.held
    ensures Settled(Give(s, h, retries))
  {}

  lemma GiveLosesNone(s: State, h: nat, retries: nat)
    requires NoneLost(s) && h !in s.held
    ensures NoneLost(Give(s, h, retries))
  {
    var t := Give(s, h, retries);
    forall c: nat | c < t.next && c !in t.released && c !in t.published
      ensures exists g :: g in t.held && t.held[g] == c
    {
      if c == s.next {
        assert t.held[h] == c;
      } else {
        var g :| g in s.held && s.held[g] == c;
        assert g in t.held && t.held[g] == c;
      }
    }
  }

  lemma GiveHandles(s: State, h: nat, retries: nat, capacity: nat)
    requires Handles(s, capacity) && h in s.phase && s.phase[h] == Open
    requires s.shmSize <= capacity && Pow2(retries) <= s.shmSize
    ensures Handles(Give(s, h, retries), capacity)
  {
    hide Pow2;
  }

  /** The handle gives its chunk up, to the pool or to the subscribers. */
  function Moved(s: State, h: nat, publish: bool): State
    requires h in s.held
  {
    if publish then Drop(s, h).(published := s.published + [s.held[h]])
    else Drop(s, h).(released := s.released + [s.held[h]])
  }

  lemma MoveKeeps(s: State, h: nat, publish: bool, capacity: nat)
    requires Sound(s, capacity) && h in s.held
    ensures Sound(Moved(s, h, publish), capacity)
  {
    hide Settled, NoneLost, Handles;
    MoveSettles(s, h, publish);
    MoveLosesNone(s, h, publish);
    MoveHandles(s, h, publish, capacity);
  }

  lemma MoveSettles(s: State, h: nat, publish: bool)
    requires Settled(s) && h in s.held
    ensures Settled(Moved(s, h, publish))
  {}

  lemma MoveLosesNone(s: State, h: nat, publish: bool)
    requires NoneLost(s) && h in s.held
    ensures NoneLost(Moved(s, h, publish))
  {
    var t := Moved(s, h, publish);
    forall c: nat | c < t.next && c !in t.released && c !in t.published
      ensures exists g :: g in t.held && t.held[g] == c
    {
      assert c != s.held[h] by {
        assert s.held[h] in (if publish then t.published else t.released);
      }
      var g :| g in s.held && s.held[g] == c;
      assert g in t.held && t.held[g] == c;
    }
  }

  lemma MoveHandles(s: State, h: nat, publish: bool, capacity: nat)
    requires Handles(s, capacity) && h in s.held
    ensures Handles(Moved(s, h, publish), capacity)
  {
    hide Pow2;
  }

  lemma StepKeepsInv(s: State, step: Step, capacity: nat)
    requires Inv(s, capacity) && Enabled(s, step, capacity)
    ensures Inv(Next(s, step, capacity), capacity)
  {
    hide *;
    match step
    case Loan(h, min, granted) => LoanKeepsInv(s, h, min, granted, capacity);
    case Update(h, granted) => UpdateKeepsInv(s, h, granted, capacity);
    case Publish(h) => PublishKeepsInv(s, h, capacity);
    case Destroy(h) => DestroyKeepsInv(s, h, capacity);
  }

  lemma LoanKeepsInv(s: State, h: nat, min: nat, granted: bool, capacity: nat)
    requires Inv(s, capacity) && Enabled(s, Loan(h, min, granted), capacity)
    ensures Inv(Next(s, Loan(h, min, granted), capacity), capacity)
  {
    hide Grow, Settled, NoneLost, Handles;
    var phased := s.(shmSize := Grow(s.shmSize, min), phase := s.phase[h := if granted then Open else Closed]);
    UnusedHandle(s, phased, h, capacity);
    if granted {
      GiveKeeps(phased, h, 0, capacity);
    }
  }

  lemma UpdateKeepsInv(s: State, h: nat, granted: bool, capacity: nat)
    requires Inv(s, capacity) && Enabled(s, Update(h, granted), capacity)
    ensures Inv(Next(s, Update(h, granted), capacity), capacity)
  {
    hide Grow, Settled, NoneLost, Handles, Pow2;
    var grown := s.(shmSize := Grow(s.shmSize, 2 * s.size[h]));
    Regrown(s, grown, capacity);
    MoveKeeps(grown, h, false, capacity);
    if granted {
      RetryBound(s, h, capacity);
      HeldIsOpen(s, h, capacity);
      GiveKeeps(Moved(grown, h, false), h, s.retries[h] + 1, capacity);
      assert (s.held - {h})[h := s.next] == s.held[h := s.next];
    }
  }

  lemma PublishKeepsInv(s: State, h: nat, capacity: nat)
    requires Inv(s, capacity) && Enabled(s, Publish(h), capacity)
    ensures Inv(Next(s, Publish(h), capacity), capacity)
  {
    hide Settled, NoneLost, Handles;
    MoveKeeps(s, h, true, capacity);
  }

  lemma DestroyKeepsInv(s: State, h: nat, capacity: nat)
    requires Inv(s, capacity) && Enabled(s, Destroy(h), capacity)
    ensures Inv(Next(s, Destroy(h), capacity), capacity)
  {
    hide Settled, NoneLost, Handles;
    if h in s.held {
      MoveKeeps(s, h, false, capacity);
      Close(Moved(s, h, false), h, capacity);
    } else {
      Close(s, h, capacity);
    }
  }

  lemma HeldIsOpen(s: State, h: nat, capacity: nat)
    requires Inv(s, capacity) && h in s.held
    ensures h in s.phase && s.phase[h] == Open
  {}

  lemma UnusedHandle(s: State, t: State, h: nat, capacity: nat)
    requires Inv(s, capacity) && h !in s.phase && t.shmSize >= s.shmSize
    requires t == s.(shmSize := t.shmSize, phase := t.phase) && t.phase - {h} == s.phase - {h}
    ensures Sound(t, capacity) && h !in t.held
  {
    forall g | g in t.held ensures g in t.phase && t.phase[g] == Open {
      assert g in s.phase - {h};
    }
  }

  lemma Regrown(s: State, t: State, capacity: nat)
    requires Inv(s, capacity) && t == s.(shmSize := t.shmSize) && t.shmSize >= s.shmSize
    ensures Sound(t, capacity)
  {}

  lemma RetryBound(s: State, h: nat, capacity: nat)
    requires Inv(s, capacity) && h in s.held
    ensures h in s.retries && h in s.size && Pow2(s.retries[h] + 1) <= 2 * s.size[h]
  {}

  lemma Close(s: State, h: nat, capacity: nat)
    requires Sound(s, capacity) && h !in s.held
    ensures Sound(s.(phase := s.phase[h := Closed]), capacity)
  {
    hide Pow2;
  }

  // ---------------------------------------------------------------- every run

  ghost predicate IsRun(run: seq<State>, steps: seq<Step>, shmSize: nat, capacity: nat) {
    && |run| == |steps| + 1 && run[0] == Init(shmSize)
    && forall i ::
         0 <= i < |steps| ==> Enabled(run[i], steps[i], capacity) && run[i + 1] == Next(run[i], steps[i], capacity)
  }

  lemma {:induction false} RunKeepsInv(run: seq<State>, steps: seq<Step>, shmSize: nat, capacity: nat, k: nat)
    requires IsRun(run, steps, shmSize, capacity) && 0 < shmSize < SIZE_T && k < |run|
    ensures Inv(run[k], capacity)
    decreases k
  {
    hide Inv, Enabled, Next;
    if k == 0 {
      InitInv(shmSize, capacity);
    } else {
      RunKeepsInv(run, steps, shmSize, capacity, k - 1);
      StepKeepsInv(run[k - 1], steps[k - 1], capacity);
    }
  }

  lemma InitInv(shmSize: nat, capacity: nat)
    requires 0 < shmSize < SIZE_T
    ensures Inv(Init(shmSize), capacity)
  {}

  function Count(a: seq<nat>, c: nat): nat {
    multiset(a)[c]
  }

  /** Once every Publish call is over, failed or not, each loaned chunk has been released or published,
      exactly once, and nothing else has. */
  lemma AllCallsOver(run: seq<State>, steps: seq<Step>, shmSize: nat, capacity: nat)
    requires IsRun(run, steps, shmSize, capacity) && 0 < shmSize < SIZE_T
    requires forall h :: h in run[|steps|].phase ==> run[|steps|].phase[h] == Closed
    ensures
      var s := run[|steps|];
      forall c: nat :: Count(s.released, c) + Count(s.published, c) == if c < s.next then 1 else 0
  {
    hide Enabled, Next;
    var s := run[|steps|];
    RunKeepsInv(run, steps, shmSize, capacity, |steps|);
    forall c: nat ensures Count(s.released, c) + Count(s.published, c) == if c < s.next then 1 else 0 {
      CountDistinct(s.released, c);
      CountDistinct(s.published, c);
      assert forall h :: h in s.held ==> h in s.phase;
    }
  }

  lemma {:induction false} CountDistinct(a: seq<nat>, c: nat)
    requires Distinct(a)
    ensures Count(a, c) == if c in a then 1 else 0
    decreases |a|
  {
    if a != [] {
      var n := |a| - 1;
      CountDistinct(a[..n], c);
      assert a == a[..n] + [a[n]];
    }
  }

  /** The size never shrinks. Once it is above the capacity no loan is granted in any continuation, however
      small: nothing is published but what was loaned before. */
  lemma {:induction false} StuckForEver(
      run: seq<State>, steps: seq<Step>, shmSize: nat, capacity: nat, k: nat, m: nat)
    requires IsRun(run, steps, shmSize, capacity) && k <= m < |run| && run[k].shmSize > capacity
    ensures run[m].shmSize > capacity && run[m].next == run[k].next
    ensures forall h :: h in run[m].held ==> h in run[k].held && run[m].held[h] == run[k].held[h]
    ensures forall c :: c in run[m].published ==>
      c in run[k].published || exists h :: h in run[k].held && run[k].held[h] == c
    decreases m
  {
    hide Enabled, Next;
    if k < m {
      StuckForEver(run, steps, shmSize, capacity, k, m - 1);
      StuckStep(run[m - 1], steps[m - 1], capacity);
    }
  }

  lemma StuckStep(s: State, step: Step, capacity: nat)
    requires Enabled(s, step, capacity) && s.shmSize > capacity
    ensures
      var t := Next(s, step, capacity);
      && t.shmSize > capacity && t.next == s.next
      && (forall h :: h in t.held ==> h in s.held && t.held[h] == s.held[h])
      && (forall c :: c in t.published ==> c in s.published || exists h :: h in s.held && s.held[h] == c)
  {
    hide Grow;
  }

  /** Publishing leaves the handle empty, and only the publisher of a chunk ever had it. */
  lemma PublishedHandleIsEmpty(s: State, h: nat, capacity: nat)
    requires Inv(s, capacity) && Enabled(s, Publish(h), capacity)
    ensures
      var t := Next(s, Publish(h), capacity);
      h !in t.held && t.published == s.published + [s.held[h]] && forall g :: g in t.held ==> t.held[g] != s.held[h]
    ensures
      var t := Next(s, Publish(h), capacity);
      Enabled(t, Destroy(h), capacity) && Next(t, Destroy(h), capacity).released == s.released
  {}

  /** Each retry at least doubles the chunk, so within the pool's capacity there are few of them. */
  lemma FewRetries(run: seq<State>, steps: seq<Step>, shmSize: nat, capacity: nat, h: nat, bits: nat)
    requires IsRun(run, steps, shmSize, capacity) && 0 < shmSize < SIZE_T && capacity < Pow2(bits)
    requires |run| == |steps| + 1 && h in run[|steps|].held && h in run[|steps|].retries
    ensures run[|steps|].retries[h] < bits
  {
    hide IsRun, Enabled, Next;
    RunKeepsInv(run, steps, shmSize, capacity, |steps|);
    if run[|steps|].retries[h] >= bits {
      Pow2Mono(bits, run[|steps|].retries[h]);
    }
  }

  lemma {:induction false} Pow2Mono(a: nat, b: nat)
    requires a <= b
    ensures Pow2(a) <= Pow2(b)
    decreases b
  {
    if a < b {
      Pow2Mono(a, b - 1);
    }
  }
}
