/** ReplaceString: three in-place ways to replace every occurrence of a substring. */
module ReplaceString {
  import opened StrFind
  import Seqs

  /** The functional meaning: left to right, occurrences do not overlap. */
  function ReplaceAll(s: string, ov: string, nv: string): string
    requires ov != []
    decreases |s|
  {
    if |s| < |ov| then s
    else if At(s, 0, ov) then nv + ReplaceAll(s[|ov|..], ov, nv)
    else [s[0]] + ReplaceAll(s[1..], ov, nv)
  }

  /** Ascending, non-overlapping occurrences of a pattern of length `ol`, closed by the sentinel |s|. */
  ghost predicate Marks(s: string, ol: nat, vs: seq<nat>) {
    && |vs| > 0
    && vs[|vs| - 1] == |s|
    && forall i, j :: 0 <= i < j < |vs| ==> vs[i] + ol <= vs[j]
  }

  lemma MarkAt(s: string, ol: nat, vs: seq<nat>, k: nat)
    requires Marks(s, ol, vs) && k < |vs|
    ensures vs[k] <= |s| && vs[|vs| - 1] == |s|
    ensures k < |vs| - 1 ==> vs[k] + ol <= vs[k + 1] <= |s|
  {}

  /** What the occurrences from the k-th on are rewritten to. */
  ghost function Tail(s: string, ol: nat, nv: string, vs: seq<nat>, k: nat): string
    requires Marks(s, ol, vs) && k < |vs|
    decreases |vs| - k
  {
    if k == |vs| - 1 then []
    else
      nv + s[vs[k] + ol..vs[k + 1]] + Tail(s, ol, nv, vs, k + 1)
  }

  /** The rewritten text up to the k-th occurrence. */
  ghost function Head(s: string, ol: nat, nv: string, vs: seq<nat>, k: nat): string
    requires Marks(s, ol, vs) && k < |vs|
  {
    if k == 0 then s[..vs[0]]
    else Head(s, ol, nv, vs, k - 1) + nv + s[vs[k - 1] + ol..vs[k]]
  }

  lemma {:induction false} HeadTail(s: string, ol: nat, nv: string, vs: seq<nat>, k: nat)
    requires Marks(s, ol, vs) && k < |vs|
    ensures Head(s, ol, nv, vs, k) + Tail(s, ol, nv, vs, k)
         == Head(s, ol, nv, vs, |vs| - 1)
    decreases |vs| - k
  {
    hide Head, Tail, Marks;
    if k < |vs| - 1 {
      MarkAt(s, ol, vs, k);
      HeadTail(s, ol, nv, vs, k + 1);
      HeadExtends(s, ol, nv, vs, k);
      TailStep(s, ol, nv, vs, k);
      var kept, tail := s[vs[k] + ol..vs[k + 1]], Tail(s, ol, nv, vs, k + 1);
      Regroup(Head(s, ol, nv, vs, k), nv, kept, tail);
    } else {
      NoTail(s, ol, nv, vs);
      assert Head(s, ol, nv, vs, k) + [] == Head(s, ol, nv, vs, k);
    }
  }

  lemma Regroup(a: string, b: string, c: string, d: string)
    ensures ((a + b) + c) + d == a + (b + (c + d))
  {
    Seqs.Assoc(a + b, c, d);
    Seqs.Assoc(a, b, c + d);
  }

  lemma NoTail(s: string, ol: nat, nv: string, vs: seq<nat>)
    requires Marks(s, ol, vs)
    ensures Tail(s, ol, nv, vs, |vs| - 1) == []
  {}

  lemma {:induction false} HeadLength(s: string, ol: nat, nv: string, vs: seq<nat>, k: nat)
    requires Marks(s, ol, vs) && k < |vs|
    ensures |Head(s, ol, nv, vs, k)| == vs[k] + k * (|nv| - ol)
  {
    if k > 0 {
      HeadLength(s, ol, nv, vs, k - 1);
      assert k * (|nv| - ol) == (k - 1) * (|nv| - ol) + (|nv| - ol);
    }
  }

  lemma SameLength(s: string, ol: nat, nv: string, vs: seq<nat>, k: nat)
    requires Marks(s, ol, vs) && k < |vs| && ol == |nv|
    ensures |Head(s, ol, nv, vs, k)| == vs[k]
  {
    hide *;
    HeadLength(s, ol, nv, vs, k);
    assert k * (|nv| - ol) == 0;
  }

  lemma HeadStep(s: string, ol: nat, nv: string, vs: seq<nat>, k: nat)
    requires Marks(s, ol, vs) && k < |vs| - 1
    ensures |Head(s, ol, nv, vs, k + 1)| == |Head(s, ol, nv, vs, k)| + |nv| + (vs[k + 1] - vs[k] - ol)
    ensures ol <= |nv| ==> vs[k] <= |Head(s, ol, nv, vs, k)|
  {
    hide *;
    HeadLength(s, ol, nv, vs, k);
    HeadLength(s, ol, nv, vs, k + 1);
    var d := |nv| - ol;
    assert (k + 1) * d == k * d + d;
    assert d >= 0 ==> k * d >= 0;
  }

  lemma HeadExtends(s: string, ol: nat, nv: string, vs: seq<nat>, k: nat)
    requires Marks(s, ol, vs) && k < |vs| - 1
    ensures Head(s, ol, nv, vs, k + 1) == Head(s, ol, nv, vs, k) + nv + s[vs[k] + ol..vs[k + 1]]
  {}

  lemma GrownLength(s: string, ol: nat, nv: string, vs: seq<nat>)
    requires Marks(s, ol, vs) && ol <= |nv|
    ensures |Head(s, ol, nv, vs, |vs| - 1)| == |s| + (|nv| - ol) * (|vs| - 1) >= |s|
  {
    hide Head;
    HeadLength(s, ol, nv, vs, |vs| - 1);
    assert (|nv| - ol) * (|vs| - 1) >= 0;
  }

  /** Nothing is rewritten before the first mark, nothing is left after the last, and the pieces meet. */
  lemma RewriteEnds(s: string, ol: nat, nv: string, vs: seq<nat>)
    requires Marks(s, ol, vs)
    ensures Head(s, ol, nv, vs, 0) == s[..vs[0]]
    ensures Tail(s, ol, nv, vs, |vs| - 1) == []
    ensures s[..vs[0]] + Tail(s, ol, nv, vs, 0) == Head(s, ol, nv, vs, |vs| - 1)
  {
    HeadTail(s, ol, nv, vs, 0);
  }

  /** The positions the search loop collects, as a function of where it stands. */
  function Positions(s: string, ov: string, pos: nat): (r: seq<nat>)
    requires ov != []
    ensures forall k :: 0 <= k < |r| ==> pos <= r[k] && r[k] + |ov| <= |s|
    ensures forall i, j :: 0 <= i < j < |r| ==> r[i] + |ov| <= r[j]
    decreases |s| - pos
  {
    match Find(s, ov, pos)
    case None => []
    case Some(i) => [i] + Positions(s, ov, i + |ov|)
  }

  lemma PositionsStep(s: string, ov: string, pos: nat, vs: seq<nat>)
    requires ov != []
    ensures match Find(s, ov, pos)
      case None => Positions(s, ov, pos) == [] && vs + Positions(s, ov, pos) == vs
      case Some(i) =>
        && Positions(s, ov, pos) == [i] + Positions(s, ov, i + |ov|)
        && vs + Positions(s, ov, pos) == (vs + [i]) + Positions(s, ov, i + |ov|)
  {}

  lemma UnmatchedIsKept(s: string, ov: string, nv: string, pos: nat)
    requires ov != [] && pos < |s| && !At(s, pos, ov)
    ensures ReplaceAll(s[pos..], ov, nv) == [s[pos]] + ReplaceAll(s[pos + 1..], ov, nv)
  {
    var t := s[pos..];
    assert t[1..] == s[pos + 1..];
    assert t[0] == s[pos];
    if |t| < |ov| {
      ShortIsKept(t[1..], ov, nv);
      assert t == [t[0]] + t[1..];
    } else {
      assert t[0..|ov|] == s[pos..pos + |ov|];
    }
  }

  lemma {:induction false} SkipNoMatch(s: string, ov: string, nv: string, pos: nat, i: nat)
    requires ov != [] && pos <= i <= |s|
    requires forall j :: pos <= j < i ==> !At(s, j, ov)
    ensures ReplaceAll(s[pos..], ov, nv) == s[pos..i] + ReplaceAll(s[i..], ov, nv)
    decreases i - pos
  {
    hide *;
    if pos < i {
      UnmatchedIsKept(s, ov, nv, pos);
      SkipNoMatch(s, ov, nv, pos + 1, i);
      assert s[pos..i] == [s[pos]] + s[pos + 1..i];
    }
  }

  lemma ShortIsKept(s: string, ov: string, nv: string)
    requires ov != [] && |s| < |ov|
    ensures ReplaceAll(s, ov, nv) == s
  {}

  lemma MatchIsReplaced(s: string, ov: string, nv: string, i: nat)
    requires ov != [] && At(s, i, ov)
    ensures ReplaceAll(s[i..], ov, nv) == nv + ReplaceAll(s[i + |ov|..], ov, nv)
  {
    assert At(s[i..], 0, ov);
    assert s[i..][|ov|..] == s[i + |ov|..];
  }

  /** The marked text, read from position `pos` where the k-th mark is the next one, is the replacement. */
  lemma {:induction false} TailIsReplacement(s: string, ov: string, nv: string, pos: nat, vs: seq<nat>, k: nat)
    requires ov != [] && Marks(s, |ov|, vs) && k < |vs| && pos <= vs[k] <= |s|
    requires vs[k..|vs| - 1] == Positions(s, ov, pos)
    ensures s[pos..vs[k]] + Tail(s, |ov|, nv, vs, k) == ReplaceAll(s[pos..], ov, nv)
    decreases |vs| - k
  {
    hide *;
    MarkAt(s, |ov|, vs, k);
    PositionsStep(s, ov, pos, []);
    if k == |vs| - 1 {
      RewriteEnds(s, |ov|, nv, vs);
      SkipNoMatch(s, ov, nv, pos, |s|);
      ShortIsKept(s[|s|..], ov, nv);
      assert s[|s|..] == [];
    } else {
      var i := vs[k];
      assert vs[k..|vs| - 1][0] == i && vs[k..|vs| - 1][1..] == vs[k + 1..|vs| - 1];
      SkipNoMatch(s, ov, nv, pos, i);
      MatchIsReplaced(s, ov, nv, i);
      TailIsReplacement(s, ov, nv, i + |ov|, vs, k + 1);
      TailStep(s, |ov|, nv, vs, k);
    }
  }

  lemma TailStep(s: string, ol: nat, nv: string, vs: seq<nat>, k: nat)
    requires Marks(s, ol, vs) && k < |vs| - 1
    ensures Tail(s, ol, nv, vs, k) == nv + (s[vs[k] + ol..vs[k + 1]] + Tail(s, ol, nv, vs, k + 1))
  {}

  /** Replacing the collected positions is the functional replacement of the whole string. */
  lemma MarkedReplacement(s: string, ov: string, nv: string, vs: seq<nat>)
    requires ov != [] && vs == Positions(s, ov, 0) + [|s|]
    ensures Marks(s, |ov|, vs)
    ensures Head(s, |ov|, nv, vs, |vs| - 1) == ReplaceAll(s, ov, nv)
  {
    TailIsReplacement(s, ov, nv, 0, vs, 0);
    HeadTail(s, |ov|, nv, vs, 0);
    assert s[0..] == s;
  }

  /** The buffer `b` after `piece` is written over it at index `at`. */
  ghost function Splice(b: string, at: nat, piece: string): string
    requires at + |piece| <= |b|
  {
    b[..at] + piece + b[at + |piece|..]
  }

  /** What a splice keeps up to index `lo` and from index `hi` on. */
  lemma SpliceKeeps(b: string, at: nat, piece: string, lo: nat, hi: nat)
    requires lo <= at && at + |piece| <= hi <= |b|
    ensures |Splice(b, at, piece)| == |b|
    ensures Splice(b, at, piece)[..lo] == b[..lo] && Splice(b, at, piece)[hi..] == b[hi..]
  {}

  lemma SpliceEnds(b: string, at: nat, piece: string)
    requires at + |piece| <= |b|
    ensures |Splice(b, at, piece)| == |b|
    ensures Splice(b, at, piece)[..at + |piece|] == b[..at] + piece
    ensures Splice(b, at, piece)[at..] == piece + b[at + |piece|..]
  {}

  lemma SamePrefix(b: string, s: string, n: nat, i: nat, j: nat)
    requires i <= j <= n <= |s| && n <= |b| && b[..n] == s[..n]
    ensures b[i..j] == s[i..j] && b[..j] == s[..j]
  {
    assert b[i..j] == b[..n][i..j] && s[i..j] == s[..n][i..j];
    assert b[..j] == b[..n][..j] && s[..j] == s[..n][..j];
  }

  lemma SameSuffix(b: string, s: string, i: nat, j: nat)
    requires i <= j <= |s| == |b| && b[i..] == s[i..]
    ensures b[j..] == s[j..]
  {
    SubSlice(b, i, j, |b|);
    SubSlice(s, i, j, |s|);
  }

  lemma SubSlice(s: string, i: nat, j: nat, k: nat)
    requires i <= j <= k <= |s|
    ensures s[i..][j - i..] == s[j..] && s[i..][..k - i] == s[i..k] && s[..k][i..] == s[i..k] && s[..k][..j] == s[..j]
  {}

  /** memmove: the source range is read before the destination is written. */
  method MemMove(a: array<char>, dst: nat, src: nat, len: nat)
    requires dst + len <= a.Length && src + len <= a.Length
    modifies a
    ensures a[..] == Splice(old(a[..]), dst, old(a[src..src + len]))
  {
    var chunk := a[src..src + len];
    forall i | 0 <= i < len {
      a[dst + i] := chunk[i];
    }
  }

  /** memcpy from a string that does not alias the buffer. */
  method MemCpy(a: array<char>, dst: nat, from: string)
    requires dst + |from| <= a.Length
    modifies a
    ensures a[..] == Splice(old(a[..]), dst, from)
  {
    forall i | 0 <= i < |from| {
      a[dst + i] := from[i];
    }
  }

  /** One round of the overwriting loop: `from` is where the kept text after the occurrence starts. */
  method OverwriteOne(
      a: array<char>, ghost s: string, ghost h: string, p: nat, nv: string, ghost from: nat, ghost next: nat)
    requires p == |h| && p + |nv| == from <= next <= |s|
    requires a[..] == h + s[p..]
    modifies a
    ensures a[..] == h + nv + s[from..next] + s[next..]
  {
    hide *;
    ghost var b := a[..];
    assert b[..p] == h && b[from..] == s[from..];
    MemCpy(a, p, nv);
    SpliceEnds(b, p, nv);
    SpliceKeeps(b, p, nv, p, from);
    assert a[..] == a[..from] + a[from..];
    assert s[from..] == s[from..next] + s[next..];
  }

  /** One round of the compacting loop: a[..p] is finished, the kept text is a[from..next]. */
  method ShrinkOne(a: array<char>, ghost s: string, ghost h: string, p: nat, nv: string, from: nat, next: nat)
    returns (q: nat)
    requires p == |h| && p + |nv| <= from <= next <= |s| == a.Length
    requires a[..p] == h && a[from..] == s[from..]
    modifies a
    ensures q <= next && q == |h| + |nv| + (next - from)
    ensures a[..q] == h + nv + s[from..next] && a[next..] == s[next..]
  {
    hide *;
    ghost var b0 := a[..];
    MemCpy(a, p, nv);
    q := p + |nv|;
    var cplen := next - from;
    ghost var b1 := a[..];
    SpliceEnds(b0, p, nv);
    SpliceKeeps(b0, p, nv, p, from);
    SubSlice(b1, from, next, next);
    SubSlice(s, from, next, next);
    MemMove(a, q, from, cplen);
    SpliceEnds(b1, q, b1[from..next]);
    SpliceKeeps(b1, q, b1[from..next], q, next);
    q := q + cplen;
  }

  /** One round of the extending loop: a[p..] is finished, the kept text is a[from..next]. */
  method GrowOne(
      a: array<char>, ghost s: string, ghost t: string, p: nat, nv: string, ghost at: nat, from: nat, next: nat)
    returns (q: nat)
    requires at <= from <= next <= |s| && at + |nv| + (next - from) <= p <= a.Length && next <= p
    requires a[p..] == t && a[..next] == s[..next]
    modifies a
    ensures at <= q && q == p - (next - from) - |nv|
    ensures a[q..] == nv + (s[from..next] + t) && a[..at] == s[..at]
  {
    hide *;
    ghost var b0 := a[..];
    var cplen := next - from;
    q := p - cplen;
    MemMove(a, q, from, cplen);
    q := q - |nv|;
    MemCpy(a, q, nv);
    MovedAndCopied(b0, s, t, p, nv, at, from, next);
  }

  /** The two block operations on the values of the buffer. */
  lemma MovedAndCopied(b0: string, s: string, t: string, p: nat, nv: string, at: nat, from: nat, next: nat)
    requires at <= from <= next <= |s| && at + |nv| + (next - from) <= p <= |b0| && next <= p
    requires b0[p..] == t && b0[..next] == s[..next]
    ensures
      var m := p - (next - from);
      var b2 := Splice(Splice(b0, m, b0[from..next]), m - |nv|, nv);
      b2[m - |nv|..] == nv + (s[from..next] + t) && b2[..at] == s[..at]
  {
    hide *;
    var m := p - (next - from);
    var b1 := Splice(b0, m, b0[from..next]);
    SamePrefix(b0, s, next, from, next);
    SamePrefix(b0, s, next, at, at);
    SpliceEnds(b0, m, b0[from..next]);
    SpliceKeeps(b0, m, b0[from..next], at, p);
    SpliceEnds(b1, m - |nv|, nv);
    SpliceKeeps(b1, m - |nv|, nv, at, m);
  }

  /** The compacting loop: returns the end of the finished text. */
  method ShrinkAll(a: array<char>, ghost s: string, ol: nat, nv: string, vs: seq<nat>) returns (p: nat)
    requires |vs| > 0 && Marks(s, ol, vs) && ol > |nv| && a[..] == s
    modifies a
    ensures p <= a.Length && a[..p] == Head(s, ol, nv, vs, |vs| - 1)
  {
    hide *;
    MarkAt(s, ol, vs, 0);
    RewriteEnds(s, ol, nv, vs);
    p := vs[0];
    var ii := 0;
    while ii < |vs| - 1
      invariant ii < |vs| && p <= vs[ii] <= |s| == a.Length
      invariant p == |Head(s, ol, nv, vs, ii)|
      invariant a[..p] == Head(s, ol, nv, vs, ii)
      invariant a[vs[ii]..] == s[vs[ii]..]
    {
      MarkAt(s, ol, vs, ii);
      HeadExtends(s, ol, nv, vs, ii);
      SameSuffix(a[..], s, vs[ii], vs[ii] + ol);
      p := ShrinkOne(a, s, Head(s, ol, nv, vs, ii), p, nv, vs[ii] + ol, vs[ii + 1]);
      ii := ii + 1;
    }
  }

  /** The extending loop over a buffer already resized: `s` is the text before the resize. */
  method GrowAll(a: array<char>, ghost s: string, ol: nat, nv: string, vs: seq<nat>)
    requires |vs| > 0 && Marks(s, ol, vs) && ol < |nv|
    requires a.Length == |Head(s, ol, nv, vs, |vs| - 1)| && |s| <= a.Length && a[..|s|] == s
    modifies a
    ensures a[..] == Head(s, ol, nv, vs, |vs| - 1)
  {
    hide *;
    var ii := |vs| - 1;
    MarkAt(s, ol, vs, ii);
    RewriteEnds(s, ol, nv, vs);
    var p: nat := a.Length;
    while ii > 0
      invariant 0 <= ii <= |vs| - 1 && vs[ii] <= p <= a.Length && vs[ii] <= |s|
      invariant p == |Head(s, ol, nv, vs, ii)|
      invariant a[..vs[ii]] == s[..vs[ii]]
      invariant a[p..] == Tail(s, ol, nv, vs, ii)
    {
      ii := ii - 1;
      MarkAt(s, ol, vs, ii);
      HeadStep(s, ol, nv, vs, ii);
      TailStep(s, ol, nv, vs, ii);
      p := GrowOne(a, s, Tail(s, ol, nv, vs, ii + 1), p, nv, vs[ii], vs[ii] + ol, vs[ii + 1]);
    }
    assert a[..] == a[..p] + a[p..];
  }

  /** std::string: a character buffer of exactly its size, replaced by another one on resize. */
  class StdString {
    var data: array<char>

    constructor (s: string)
      ensures fresh(data) && data[..] == s
    {
      data := new char[|s|](i requires 0 <= i < |s| => s[i]);
      new;
      assert data[..] == s;
    }

    method Resize(n: nat)
      modifies this`data
      ensures fresh(data) && data.Length == n
      ensures n <= old(data).Length ==> data[..] == old(data[..])[..n]
      ensures n >= old(data).Length ==> data[..old(data).Length] == old(data[..])
    {
      var was := data[..];
      data := new char[n](i requires 0 <= i => if i < |was| then was[i] else '\0');
      assert n <= |was| ==> data[..] == was[..n];
      assert n >= |was| ==> data[..|was|] == was;
    }

    method CollectPositions(ov: string) returns (vs: seq<nat>)
      requires ov != []
      ensures vs == Positions(data[..], ov, 0)
    {
      hide *;
      vs := [];
      var s := data[..];
      var pos := Find(s, ov, 0);
      ghost var at := 0;
      while pos.Some?
        invariant at <= |s| + |ov| && pos == Find(s, ov, at)
        invariant Positions(s, ov, 0) == vs + Positions(s, ov, at)
        decreases |s| + |ov| - at
      {
        PositionsStep(s, ov, at, vs);
        vs := vs + [pos.value];
        at := pos.value + |ov|;
        pos := Find(s, ov, pos.value + |ov|);
      }
      PositionsStep(s, ov, at, vs);
    }

    /** Equal lengths: overwrite each occurrence where it stands. */
    method ReplaceSameLength(ov: string, nv: string, vs: seq<nat>)
      requires ov != [] && |ov| == |nv|
      requires |vs| > 0 && Marks(data[..], |ov|, vs)
      modifies data
      ensures data[..] == Head(old(data[..]), |ov|, nv, vs, |vs| - 1)
    {
      hide *;
      var a := data;
      ghost var s := a[..];
      var ii := 0;
      MarkAt(s, |ov|, vs, 0);
      RewriteEnds(s, |ov|, nv, vs);
      assert s == s[..vs[0]] + s[vs[0]..];
      while ii < |vs| - 1
        invariant ii < |vs| && vs[ii] <= |s|
        invariant a[..] == Head(s, |ov|, nv, vs, ii) + s[vs[ii]..]
      {
        MarkAt(s, |ov|, vs, ii);
        SameLength(s, |ov|, nv, vs, ii);
        HeadExtends(s, |ov|, nv, vs, ii);
        OverwriteOne(a, s, Head(s, |ov|, nv, vs, ii), vs[ii], nv, vs[ii] + |ov|, vs[ii + 1]);
        ii := ii + 1;
      }
      MarkAt(s, |ov|, vs, ii);
      assert s[|s|..] == [];
    }

    /** Shorter replacement: compact to the left; the write end never passes the next unread byte. */
    method ReplaceShrinking(ov: string, nv: string, vs: seq<nat>)
      requires ov != [] && |ov| > |nv|
      requires |vs| > 0 && Marks(data[..], |ov|, vs)
      modifies this`data, data
      ensures data[..] == Head(old(data[..]), |ov|, nv, vs, |vs| - 1)
    {
      hide *;
      var p := ShrinkAll(data, data[..], |ov|, nv, vs);
      Resize(p);
    }

    /** Longer replacement: extend, then move segments right from the last one, never over an unread byte. */
    method ReplaceGrowing(ov: string, nv: string, vs: seq<nat>)
      requires ov != [] && |ov| < |nv|
      requires |vs| > 0 && Marks(data[..], |ov|, vs)
      modifies this`data
      ensures data[..] == Head(old(data[..]), |ov|, nv, vs, |vs| - 1)
    {
      ghost var s := data[..];
      var diff := |nv| - |ov|;
      var n := |vs| - 1;
      hide *;
      GrownLength(s, |ov|, nv, vs);
      Resize(data.Length + diff * n);
      GrowAll(data, s, |ov|, nv, vs);
    }

    /** Every branch leaves the functional replacement; an empty string or pattern leaves the text alone. */
    method ReplaceString(ov: string, nv: string)
      modifies this`data, data
      ensures ov == [] ==> data[..] == old(data[..])
      ensures ov != [] ==> data[..] == ReplaceAll(old(data[..]), ov, nv)
    {
      if data.Length == 0 || ov == [] {
        return;
      }
      ghost var s := data[..];
      var vs := CollectPositions(ov);
      MarkedReplacement(s, ov, nv, vs + [|s|]);
      if vs != [] {
        vs := vs + [data.Length];
        if |ov| == |nv| {
          ReplaceSameLength(ov, nv, vs);
        } else if |ov| > |nv| {
          ReplaceShrinking(ov, nv, vs);
        } else {
          ReplaceGrowing(ov, nv, vs);
        }
      }
    }
  }
}
