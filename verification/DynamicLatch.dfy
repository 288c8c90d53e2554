/** DynamicLatch: the closed flag and the count packed into one 64-bit word. */
module DynamicLatch {
  import opened LatchProtocol

  const CLOSED_FLAG: nat := 0x8000_0000_0000_0000
  const WORD_SIZE: nat := 0x1_0000_0000_0000_0000

  /** The bit pattern of the signed 64-bit state. */
  type Word = w: nat | w < 0x1_0000_0000_0000_0000

  /** state & COUNT_MASK, where the mask is every bit but the highest. */
  function GetCount(w: Word): nat {
    w % CLOSED_FLAG
  }

  /** (state & CLOSED_FLAG) != 0, that is, the highest bit. */
  predicate IsClosed(w: Word) {
    w / CLOSED_FLAG % 2 == 1
  }

  function Unpack(w: Word): Obs {
    Obs(IsClosed(w), GetCount(w))
  }

  lemma UnpackIsInjective(v: Word, w: Word)
    requires Unpack(v) == Unpack(w)
    ensures v == w
  {
    assert v == v / CLOSED_FLAG * CLOSED_FLAG + v % CLOSED_FLAG;
    assert w == w / CLOSED_FLAG * CLOSED_FLAG + w % CLOSED_FLAG;
    assert v / CLOSED_FLAG < 2 && w / CLOSED_FLAG < 2;
  }

  /** state + delta, on 64 bits. */
  function Plus(w: Word, delta: nat): Word {
    (w + delta) % WORD_SIZE
  }

  /** state - delta, on 64 bits. */
  function Minus(w: Word, delta: nat): Word {
    (w - delta) % WORD_SIZE
  }

  /** state | CLOSED_FLAG */
  function SetClosed(w: Word): (r: Word)
    ensures Unpack(r) == Unpack(w).(closed := true)
  {
    if IsClosed(w) then w else w + CLOSED_FLAG
  }

  /** Adding to an open word is right exactly while the count stays below 2^63; past that it sets the flag. */
  lemma PlusCounts(w: Word, delta: nat)
    requires !IsClosed(w) && delta < CLOSED_FLAG
    ensures Unpack(Plus(w, delta)) == Obs(false, GetCount(w) + delta) <==> GetCount(w) + delta < CLOSED_FLAG
    ensures GetCount(w) + delta >= CLOSED_FLAG ==> IsClosed(Plus(w, delta))
  {
    assert w == GetCount(w);
  }

  lemma HighBit(w: Word)
    ensures IsClosed(w) <==> w >= 0x8000_0000_0000_0000
  {}

  lemma PlusIsSum(w: Word, delta: nat)
    requires !IsClosed(w) && GetCount(w) + delta < CLOSED_FLAG
    ensures Plus(w, delta) == w + delta
  {}

  lemma MinusCounts(w: Word, delta: nat)
    requires delta <= GetCount(w)
    ensures Unpack(Minus(w, delta)) == Unpack(w).(count := GetCount(w) - delta)
  {
    assert Minus(w, delta) == w - delta;
  }

  function UnpackPc(pc: Pc<Word>): Pc<Obs> {
    match pc
    case Idle => Idle
    case Adding(delta, seen) => Adding(delta, Unpack(seen))
    case Closing(seen, closer) => Closing(Unpack(seen), closer)
    case Notifying(closer) => Notifying(closer)
    case Reloading(closer) => Reloading(closer)
    case Testing(seen, closer) => Testing(Unpack(seen), closer)
    case Comparing(seen, closer) => Comparing(Unpack(seen), closer)
    case Parked(seen, closer) => Parked(Unpack(seen), closer)
    case Released(closer) => Released(closer)
  }

  /** The latch and the threads that are inside its methods. Every method below is one atomic step of
      one thread; the steps of different threads may be called in any order. */
  class DynamicLatch {
    var state: Word
    var pcs: map<Thread, Pc<Word>>
    ghost var added: nat
    ghost var counted: nat

    ghost function View(): State
      reads this
    {
      State(Unpack(state), map t | t in pcs :: UnpackPc(pcs[t]), added, counted)
    }

    constructor (threads: set<Thread>)
      ensures Init(View()) && pcs.Keys == threads
    {
      state := 0;
      pcs := map t | t in threads :: Idle;
      added, counted := 0, 0;
    }

    method CallTryAdd(t: Thread, delta: nat)
      requires Enabled(View(), t, Step.CallTryAdd(delta))
      modifies this
      ensures View() == Next(old(View()), t, Step.CallTryAdd(delta))
      ensures pcs == old(pcs)[t := Adding(delta, state)] && state == old(state)
    {
      pcs := pcs[t := Adding(delta, state)];
    }

    /** One turn of the compare-and-swap loop of TryAdd: whether it returns, and what. */
    method TryAddCas(t: Thread, spurious: bool) returns (returned: bool, accepted: bool)
      requires Enabled(View(), t, Step.TryAddCas(spurious))
      modifies this
      ensures View() == Next(old(View()), t, Step.TryAddCas(spurious))
      ensures t in pcs
      ensures
        var seen, delta := old(pcs[t].seen), old(pcs[t].delta);
        if seen >= 0x8000_0000_0000_0000 then state == old(state) && pcs[t] == Idle
        else if !spurious && old(state) == seen then state == old(state) + delta && pcs[t] == Idle
        else state == old(state) && pcs[t] == Adding(delta, state)
      ensures accepted <==> old(pcs[t].seen) < 0x8000_0000_0000_0000 && !spurious && old(state) == old(pcs[t].seen)
      ensures returned <==> accepted || old(pcs[t].seen) >= 0x8000_0000_0000_0000
    {
      hide Plus, IsClosed, GetCount;
      var pc := pcs[t];
      HighBit(pc.seen);
      returned, accepted := true, false;
      if IsClosed(pc.seen) {
        pcs := pcs[t := Idle];
      } else if !spurious && state == pc.seen {
        accepted := true;
        PlusCounts(state, pc.delta);
        PlusIsSum(state, pc.delta);
        state := Plus(pc.seen, pc.delta);
        added := added + pc.delta;
        pcs := pcs[t := Idle];
      } else {
        NotSeen(pc.seen);
        returned := false;
        pcs := pcs[t := Adding(pc.delta, state)];
      }
    }

    method CountDown(t: Thread, delta: nat)
      requires Enabled(View(), t, Step.CountDown(delta))
      modifies this
      ensures View() == Next(old(View()), t, Step.CountDown(delta))
      ensures state == old(state) - delta && t in pcs
      ensures pcs[t] == if old(state) % 0x8000_0000_0000_0000 == delta then Notifying(false) else Idle
    {
      var prev := state;
      MinusCounts(state, delta);
      state := Minus(state, delta);
      counted := counted + delta;
      var prevCount := GetCount(prev);
      pcs := pcs[t := if prevCount == delta then Notifying(false) else Idle];
    }

    method CallClose(t: Thread, closer: bool)
      requires Enabled(View(), t, Step.CallClose(closer))
      modifies this
      ensures View() == Next(old(View()), t, Step.CallClose(closer))
      ensures pcs == old(pcs)[t := Closing(state, closer)] && state == old(state)
    {
      pcs := pcs[t := Closing(state, closer)];
    }

    /** One turn of the compare-and-swap loop of Close. */
    method CloseCas(t: Thread, spurious: bool)
      requires Enabled(View(), t, Step.CloseCas(spurious))
      modifies this
      ensures View() == Next(old(View()), t, Step.CloseCas(spurious))
      ensures t in pcs
      ensures
        var seen, closer := old(pcs[t].seen), old(pcs[t].closer);
        if seen >= 0x8000_0000_0000_0000 then state == old(state) && pcs[t] == AfterClose(closer)
        else if !spurious && old(state) == seen then
          && state == old(state) + 0x8000_0000_0000_0000
          && pcs[t] == if old(state) == 0 then Notifying(closer) else AfterClose(closer)
        else state == old(state) && pcs[t] == Closing(state, closer)
    {
      var pc := pcs[t];
      if IsClosed(pc.seen) {
        pcs := pcs[t := AfterClose(pc.closer)];
      } else {
        var newState := SetClosed(pc.seen);
        if !spurious && state == pc.seen {
          state := newState;
          pcs := pcs[t := if GetCount(newState) == 0 then Notifying(pc.closer) else AfterClose(pc.closer)];
        } else {
          NotSeen(pc.seen);
          pcs := pcs[t := Closing(state, pc.closer)];
        }
      }
    }

    method NotifyAll(t: Thread)
      requires Enabled(View(), t, Step.NotifyAll)
      modifies this
      ensures View() == Next(old(View()), t, Step.NotifyAll)
      ensures state == old(state) && forall u :: u in pcs ==> !pcs[u].Parked?
    {
      var closer := pcs[t].closer;
      pcs := map u | u in pcs :: if u == t then AfterClose(closer) else Wake(pcs[u]);
      assert View().pcs.Keys == old(View().pcs.Keys);
    }

    method CallWait(t: Thread)
      requires Enabled(View(), t, Step.CallWait)
      modifies this
      ensures View() == Next(old(View()), t, Step.CallWait)
      ensures pcs == old(pcs)[t := Reloading(false)] && state == old(state)
    {
      pcs := pcs[t := Reloading(false)];
    }

    method Load(t: Thread)
      requires Enabled(View(), t, Step.Load)
      modifies this
      ensures View() == Next(old(View()), t, Step.Load)
      ensures t in old(pcs) && pcs == old(pcs)[t := Testing(state, old(pcs)[t].closer)] && state == old(state)
    {
      pcs := pcs[t := Testing(state, pcs[t].closer)];
    }

    /** The loop condition of Wait. */
    method Test(t: Thread)
      requires Enabled(View(), t, Step.Test)
      modifies this
      ensures View() == Next(old(View()), t, Step.Test)
      ensures t in pcs && (pcs[t].Released? <==> old(pcs[t].seen) % 0x8000_0000_0000_0000 == 0)
    {
      var pc := pcs[t];
      pcs := pcs[t := if GetCount(pc.seen) != 0 then Comparing(pc.seen, pc.closer) else Released(pc.closer)];
    }

    /** wait(seen) sleeps only if the word still has the value it was given. */
    method Compare(t: Thread)
      requires Enabled(View(), t, Step.Compare)
      modifies this
      ensures View() == Next(old(View()), t, Step.Compare)
      ensures t in pcs && (pcs[t].Parked? <==> old(state) == old(pcs[t].seen)) && state == old(state)
    {
      var pc := pcs[t];
      if state == pc.seen {
        pcs := pcs[t := Parked(pc.seen, pc.closer)];
      } else {
        NotSeen(pc.seen);
        pcs := pcs[t := Reloading(pc.closer)];
      }
    }

    method SpuriousWake(t: Thread)
      requires Enabled(View(), t, Step.SpuriousWake)
      modifies this
      ensures View() == Next(old(View()), t, Step.SpuriousWake)
    {
      pcs := pcs[t := Wake(pcs[t])];
    }

    /** Two words that differ are observed to differ. */
    lemma NotSeen(seen: Word)
      ensures state != seen ==> Unpack(state) != Unpack(seen)
    {
      if Unpack(state) == Unpack(seen) {
        UnpackIsInjective(state, seen);
      }
    }
  }
}
