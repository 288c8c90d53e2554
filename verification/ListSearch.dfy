/** SplitToVec and CheckIfInList: membership in a separated list, with and without building the list. */
module ListSearch {
  import opened StrFind

  /** Drops the spaces at both ends: find_last_not_of, then find_first_not_of. */
  function Trim(s: string): (r: string)
    ensures |r| <= |s| && (r != [] ==> r[0] != ' ' && r[|r| - 1] != ' ')
    decreases |s|
  {
    if s == [] then s
    else if s[|s| - 1] == ' ' then Trim(s[..|s| - 1])
    else if s[0] == ' ' then Trim(s[1..])
    else s
  }

  /** What is left is a piece of the text... */
  lemma {:induction false} TrimIsInside(s: string) returns (i: nat)
    ensures At(s, i, Trim(s))
    decreases |s|
  {
    i := 0;
    if s != [] && s[|s| - 1] == ' ' {
      i := TrimIsInside(s[..|s| - 1]);
      AtInPiece(s, 0, |s| - 1, i, Trim(s));
    } else if s != [] && s[0] == ' ' {
      i := TrimIsInside(s[1..]);
      assert s[1..|s|] == s[1..];
      AtInPiece(s, 1, |s|, i, Trim(s));
      i := i + 1;
    }
  }

  /** ...and only spaces are missing. */
  lemma {:induction false} OnlySpacesGo(s: string, x: char)
    requires x in s && x != ' '
    ensures x in Trim(s)
    decreases |s|
  {
    if s[|s| - 1] == ' ' {
      assert s == s[..|s| - 1] + [' '];
      OnlySpacesGo(s[..|s| - 1], x);
    } else if s[0] == ' ' {
      assert s == [' '] + s[1..];
      OnlySpacesGo(s[1..], x);
    }
  }

  /** One list entry as the caller sees it. */
  function Entry(segment: string, trim: bool): string {
    if trim then Trim(segment) else segment
  }

  /** The text between consecutive separators, from position `pos` on. */
  function Segments(s: string, sep: string, pos: nat): (r: seq<string>)
    requires sep != [] && pos <= |s|
    ensures r != []
    decreases |s| - pos
  {
    var e := FindOrEnd(s, sep, pos);
    [s[pos..e]] + if e < |s| then Segments(s, sep, e + |sep|) else []
  }

  /** Trims every segment and drops the empty ones when `clear` is set. */
  function Entries(segments: seq<string>, trim: bool, clear: bool): seq<string> {
    if segments == [] then []
    else
      var entry := Entry(segments[0], trim);
      (if clear && entry == [] then [] else [entry]) + Entries(segments[1..], trim, clear)
  }

  function SplitVec(source: string, sep: string, trim: bool, clear: bool): seq<string> {
    if source == [] || sep == [] then [] else Entries(Segments(source, sep, 0), trim, clear)
  }

  method SplitToVec(source: string, sep: string, trim: bool, clear: bool) returns (result: seq<string>)
    ensures result == SplitVec(source, sep, trim, clear)
  {
    hide Segments, Entries, FindOrEnd, Trim, Entry, At;
    result := [];
    if source == [] || sep == [] {
      return;
    }
    var posEnd, posStart := 0, 0;
    var more := true;
    while more
      invariant more ==> posStart <= |source|
      invariant SplitVec(source, sep, trim, clear)
             == result + if more then Entries(Segments(source, sep, posStart), trim, clear) else []
      decreases more, |source| - posStart
    {
      posEnd := FindOrEnd(source, sep, posStart);
      var sub := Entry(source[posStart..posEnd], trim);
      EntriesStep(source, sep, posStart, trim, clear, result);
      if !(clear && sub == []) {
        result := result + [sub];
      }
      posStart := posEnd + |sep|;
      more := posEnd < |source|;
    }
  }

  lemma EntriesStep(s: string, sep: string, pos: nat, trim: bool, clear: bool, done: seq<string>)
    requires sep != [] && pos <= |s|
    ensures var e := FindOrEnd(s, sep, pos);
      var entry := Entry(s[pos..e], trim);
      done + Entries(Segments(s, sep, pos), trim, clear)
      == (if clear && entry == [] then done else done + [entry])
         + if e < |s| then Entries(Segments(s, sep, e + |sep|), trim, clear) else []
  {
    hide *;
    var e := FindOrEnd(s, sep, pos);
    SegmentsStep(s, sep, pos);
    if e < |s| {
      EntriesCons(s[pos..e], Segments(s, sep, e + |sep|), trim, clear, done);
    } else {
      EntriesCons(s[pos..e], [], trim, clear, done);
    }
  }

  lemma EntriesCons(first: string, rest: seq<string>, trim: bool, clear: bool, done: seq<string>)
    ensures done + Entries([first] + rest, trim, clear)
      == (if clear && Entry(first, trim) == [] then done else done + [Entry(first, trim)]) + Entries(rest, trim, clear)
    ensures Entries([], trim, clear) == []
  {
    hide Entry;
    var all := [first] + rest;
    assert all[0] == first && all[1..] == rest;
  }

  // ---------------------------------------------------------------- the two flags

  function NonEmpty(list: seq<string>): seq<string> {
    if list == [] then [] else (if list[0] == [] then [] else [list[0]]) + NonEmpty(list[1..])
  }

  /** `trim` trims each entry of the plain split; `clear` drops the empty entries and nothing else. */
  lemma FlagsOfSplit(s: string, sep: string, trim: bool)
    ensures
      var plain, trimmed := SplitVec(s, sep, false, false), SplitVec(s, sep, true, false);
      |trimmed| == |plain| && forall i :: 0 <= i < |plain| ==> trimmed[i] == Trim(plain[i])
    ensures SplitVec(s, sep, trim, true) == NonEmpty(SplitVec(s, sep, trim, false))
  {
    hide Segments, Entries;
    if s != [] && sep != [] {
      TrimmedEntries(Segments(s, sep, 0));
      ClearedEntries(Segments(s, sep, 0), trim);
    }
  }

  lemma {:induction false} TrimmedEntries(segments: seq<string>)
    ensures
      var plain, trimmed := Entries(segments, false, false), Entries(segments, true, false);
      |trimmed| == |plain| && forall i :: 0 <= i < |plain| ==> trimmed[i] == Trim(plain[i])
    decreases |segments|
  {
    hide Trim;
    if segments != [] {
      TrimmedEntries(segments[1..]);
    }
  }

  lemma {:induction false} ClearedEntries(segments: seq<string>, trim: bool)
    ensures Entries(segments, trim, true) == NonEmpty(Entries(segments, trim, false))
    decreases |segments|
  {
    hide Entry;
    if segments != [] {
      ClearedEntries(segments[1..], trim);
      var all := Entries(segments, trim, false);
      assert all[1..] == Entries(segments[1..], trim, false);
    }
  }

  /** No entry of the plain split holds the separator. */
  lemma PlainEntriesAreFree(s: string, sep: string, entry: string)
    requires entry in SplitVec(s, sep, false, false)
    ensures Find(entry, sep, 0).None?
  {
    hide Segments, Entries;
    UntouchedEntries(Segments(s, sep, 0));
    SegmentHasNoSep(s, sep, 0, entry);
  }

  lemma {:induction false} SegmentHasNoSep(s: string, sep: string, pos: nat, entry: string)
    requires sep != [] && pos <= |s| && entry in Segments(s, sep, pos)
    ensures Find(entry, sep, 0).None?
    decreases |s| - pos
  {
    hide Segments, Find, At;
    SegmentsStep(s, sep, pos);
    var e := FindOrEnd(s, sep, pos);
    if entry == s[pos..e] {
      forall i: nat ensures !At(entry, i, sep) {
        AtInPiece(s, pos, e, i, sep);
        NotBefore(s, sep, pos, e, i);
      }
    } else {
      SegmentHasNoSep(s, sep, e + |sep|, entry);
    }
  }

  lemma NotBefore(s: string, sep: string, pos: nat, e: nat, i: nat)
    requires sep != [] && pos <= |s| && e == FindOrEnd(s, sep, pos)
    ensures !(pos + i + |sep| <= e && At(s, pos + i, sep))
  {}

  // ---------------------------------------------------------------- joining

  /** The entries with the separator between them. */
  function Joined(entries: seq<string>, sep: string): string {
    if entries == [] then []
    else if |entries| == 1 then entries[0]
    else entries[0] + sep + Joined(entries[1..], sep)
  }

  lemma {:induction false} JoinedAppend(entries: seq<string>, last: string, sep: string)
    requires entries != []
    ensures Joined(entries + [last], sep) == Joined(entries, sep) + sep + last
    decreases |entries|
  {
    var all := entries + [last];
    if |entries| > 1 {
      JoinedAppend(entries[1..], last, sep);
      assert all[1..] == entries[1..] + [last];
      var rest := Joined(entries[1..], sep);
      assert entries[0] + sep + (rest + sep + last) == entries[0] + sep + rest + sep + last;
    } else {
      assert all[1..] == [last];
    }
  }

  method JoinVec(entries: seq<string>, sep: string) returns (result: string)
    ensures result == Joined(entries, sep)
  {
    result := [];
    for i := 0 to |entries|
      invariant result == Joined(entries[..i], sep)
    {
      assert entries[..i + 1] == entries[..i] + [entries[i]];
      if i != 0 {
        JoinedAppend(entries[..i], entries[i], sep);
        result := result + sep;
      }
      result := result + entries[i];
    }
    assert entries[..|entries|] == entries;
  }

  lemma JoinedOne(first: string, sep: string)
    ensures Joined([first], sep) == first
  {}

  lemma JoinedCons(first: string, rest: seq<string>, sep: string)
    requires rest != []
    ensures Joined([first] + rest, sep) == first + sep + Joined(rest, sep)
  {
    assert ([first] + rest)[1..] == rest;
  }

  lemma SplitAround(s: string, sep: string, pos: nat, e: nat)
    requires pos <= e && At(s, e, sep)
    ensures s[pos..] == s[pos..e] + sep + s[e + |sep|..]
  {
    assert s[e..e + |sep|] == sep;
    assert s[pos..] == s[pos..e] + s[e..e + |sep|] + s[e + |sep|..];
  }

  lemma {:induction false} JoinedSegments(s: string, sep: string, pos: nat)
    requires sep != [] && pos <= |s|
    ensures Joined(Segments(s, sep, pos), sep) == s[pos..]
    decreases |s| - pos
  {
    hide Segments, FindOrEnd, Joined, At;
    var e := FindOrEnd(s, sep, pos);
    SegmentsStep(s, sep, pos);
    JoinedOne(s[pos..e], sep);
    var all := Segments(s, sep, pos);
    if e < |s| {
      JoinedSegments(s, sep, e + |sep|);
      var rest := Segments(s, sep, e + |sep|);
      assert all == [s[pos..e]] + rest;
      JoinedCons(s[pos..e], rest, sep);
      SplitAround(s, sep, pos, e);
    } else {
      assert all == [s[pos..e]] && s[pos..e] == s[pos..];
    }
  }

  lemma {:induction false} UntouchedEntries(segments: seq<string>)
    ensures Entries(segments, false, false) == segments
    decreases |segments|
  {
    if segments != [] {
      UntouchedEntries(segments[1..]);
      assert segments == [segments[0]] + segments[1..];
    }
  }

  /** Joining what was split, neither trimmed nor cleared, gives the text back, for every separator. */
  lemma JoinOfSplit(s: string, sep: string)
    requires sep != []
    ensures Joined(SplitVec(s, sep, false, false), sep) == s
  {
    hide Segments, Joined, Entries;
    if s == [] {
      NothingJoined(sep);
    } else {
      UntouchedEntries(Segments(s, sep, 0));
      JoinedSegments(s, sep, 0);
    }
  }

  lemma NothingJoined(sep: string)
    ensures Joined([], sep) == []
  {}

  // ---------------------------------------------------------------- searching

  /** Some entry of the list equals the key. */
  predicate Matches(segments: seq<string>, key: string, trim: bool) {
    exists i :: 0 <= i < |segments| && Entry(segments[i], trim) == key
  }

  lemma {:induction false} EntriesMember(segments: seq<string>, key: string, trim: bool, clear: bool)
    requires key != []
    ensures key in Entries(segments, trim, clear) <==> Matches(segments, key, trim)
  {
    if segments != [] {
      EntriesMember(segments[1..], key, trim, clear);
      assert Matches(segments, key, trim)
        <==> Entry(segments[0], trim) == key || Matches(segments[1..], key, trim);
    }
  }

  /** substr(from, to - from), whose count wraps round to "the rest" when `to` is before `from`. */
  function Between(s: string, from: nat, to: nat): string
    requires from <= |s| && to <= |s|
  {
    if from <= to then s[from..to] else s[from..]
  }

  /** Where the entry around a key occurrence is taken to start. */
  function KeyStart(s: string, sep: string, keyPos: nat): (r: nat)
    ensures r <= |s|
  {
    match RFind(s, sep, keyPos)
    case None => 0
    case Some(i) => i + |sep|
  }

  predicate KeyHit(s: string, key: string, sep: string, trim: bool, keyPos: nat)
    requires keyPos + |key| <= |s|
  {
    var start, end := KeyStart(s, sep, keyPos), FindOrEnd(s, sep, keyPos + |key|);
    if trim then Trim(Between(s, start, end)) == key
    else start == keyPos && end == keyPos + |key|
  }

  /** The search loop as a function of the key occurrence it looks at. */
  predicate Scan(s: string, key: string, sep: string, trim: bool, keyPos: Option<nat>)
    requires sep != []
    requires keyPos.Some? ==> keyPos.value + |key| <= |s|
    decreases if keyPos.Some? then |s| - keyPos.value + 1 else 0
  {
    keyPos.Some?
    && (KeyHit(s, key, sep, trim, keyPos.value)
        || Scan(s, key, sep, trim, Find(s, key, FindOrEnd(s, sep, keyPos.value + |key|) + |sep|)))
  }

  predicate InList(s: string, key: string, sep: string, trim: bool) {
    && key != [] && sep != []
    && Find(key, sep, 0).None?
    && Scan(s, key, sep, trim, Find(s, key, 0))
  }

  method CheckIfInList(s: string, key: string, sep: string, trim: bool) returns (found: bool)
    ensures found == InList(s, key, sep, trim)
    ensures key != [] && (|sep| == 1 || (trim && Padded(sep))) ==> found == (key in SplitVec(s, sep, trim, true))
  {
    hide Trim, Find, FindOrEnd, KeyStart, SplitVec, Scan, At, KeyHit, Between, Padded;
    if key != [] && |sep| == 1 {
      SingleCharAgrees(s, key, sep, trim, true);
    }
    if key != [] && trim && Padded(sep) {
      PaddedAgrees(s, key, sep, true);
    }
    if key == [] || sep == [] {
      return false;
    }
    if Find(key, sep, 0).Some? {
      return false;
    }
    var keyPos := Find(s, key, 0);
    while keyPos.Some?
      invariant keyPos.Some? ==> keyPos.value + |key| <= |s|
      invariant InList(s, key, sep, trim) == Scan(s, key, sep, trim, keyPos)
      decreases if keyPos.Some? then |s| - keyPos.value + 1 else 0
    {
      ScanStep(s, key, sep, trim, keyPos);
      var start := KeyStart(s, sep, keyPos.value);
      var end := FindOrEnd(s, sep, keyPos.value + |key|);
      if trim {
        if Trim(Between(s, start, end)) == key {
          return true;
        }
      } else if start == keyPos.value && end == keyPos.value + |key| {
        return true;
      }
      keyPos := Find(s, key, end + |sep|);
    }
    ScanStep(s, key, sep, trim, keyPos);
    return false;
  }

  lemma AtChar(s: string, c: char, i: nat)
    ensures At(s, i, [c]) <==> i < |s| && s[i] == c
  {
    if i < |s| {
      assert s[i..i + 1] == [s[i]];
    }
  }

  lemma CharFree(s: string, c: char, lo: nat, hi: nat)
    requires lo <= hi <= |s| && forall j :: lo <= j < hi ==> !At(s, j, [c])
    ensures c !in s[lo..hi]
  {
    forall j | lo <= j < hi ensures s[j] != c {
      AtChar(s, c, j);
    }
  }

  /** An entry that equals the key puts an occurrence of the key inside its segment. */
  lemma EntryHoldsKey(s: string, key: string, trim: bool, lo: nat, hi: nat) returns (i: nat)
    requires lo <= hi <= |s| && Entry(s[lo..hi], trim) == key
    ensures lo <= i && i + |key| <= hi && At(s, i, key)
  {
    var seg := s[lo..hi];
    if trim {
      var k := TrimIsInside(seg);
      AtInPiece(s, lo, hi, k, key);
      i := lo + k;
    } else {
      i := lo;
    }
  }

  lemma SegmentsStep(s: string, sep: string, pos: nat)
    requires sep != [] && pos <= |s|
    ensures var e := FindOrEnd(s, sep, pos);
      Segments(s, sep, pos) == [s[pos..e]] + if e < |s| then Segments(s, sep, e + |sep|) else []
  {}

  lemma MatchesCons(first: string, rest: seq<string>, key: string, trim: bool)
    ensures Matches([first] + rest, key, trim) <==> Entry(first, trim) == key || Matches(rest, key, trim)
  {
    hide Entry;
    var all := [first] + rest;
    if Matches(rest, key, trim) {
      var i :| 0 <= i < |rest| && Entry(rest[i], trim) == key;
      assert all[i + 1] == rest[i];
    }
    if Entry(first, trim) == key {
      assert all[0] == first;
    }
  }

  lemma MatchesStep(s: string, sep: string, pos: nat, key: string, trim: bool)
    requires sep != [] && pos <= |s|
    ensures var e := FindOrEnd(s, sep, pos);
      Matches(Segments(s, sep, pos), key, trim) <==>
        Entry(s[pos..e], trim) == key || (e < |s| && Matches(Segments(s, sep, e + |sep|), key, trim))
  {
    hide Segments, Matches, Find, FindOrEnd, Entry;
    var e := FindOrEnd(s, sep, pos);
    SegmentsStep(s, sep, pos);
    var rest := if e < |s| then Segments(s, sep, e + |sep|) else [];
    MatchesCons(s[pos..e], rest, key, trim);
    if e == |s| {
      NoneMatches(key, trim);
    }
  }

  lemma NoneMatches(key: string, trim: bool)
    ensures !Matches([], key, trim)
  {}

  /** Entries before the one that starts at `a` cannot equal a key that first occurs at or after `a`. */
  lemma {:induction false} SkipEntries(s: string, c: char, key: string, trim: bool, pos: nat, a: nat)
    requires key != [] && pos <= a <= |s| && (a > 0 ==> s[a - 1] == c) && (pos == a || a > 0)
    requires forall j :: pos <= j < a ==> !At(s, j, key)
    ensures Matches(Segments(s, [c], pos), key, trim) == Matches(Segments(s, [c], a), key, trim)
    decreases a - pos
  {
    hide Trim, Find, FindOrEnd, Segments, Matches, Entry, At;
    if pos < a {
      var e := FindOrEnd(s, [c], pos);
      AtChar(s, c, a - 1);
      AtChar(s, c, e);
      MatchesStep(s, [c], pos, key, trim);
      if Entry(s[pos..e], trim) == key {
        var i := EntryHoldsKey(s, key, trim, pos, e);
        assert false;
      }
      SkipEntries(s, c, key, trim, e + 1, a);
    }
  }

  lemma {:induction false} NoKeyNoEntry(s: string, sep: string, key: string, trim: bool, pos: nat)
    requires key != [] && sep != [] && pos <= |s|
    requires forall j :: pos <= j ==> !At(s, j, key)
    ensures !Matches(Segments(s, sep, pos), key, trim)
    decreases |s| - pos
  {
    hide Matches, Segments, Entry, At;
    var e := FindOrEnd(s, sep, pos);
    MatchesStep(s, sep, pos, key, trim);
    if Entry(s[pos..e], trim) == key {
      var i := EntryHoldsKey(s, key, trim, pos, e);
      assert false;
    }
    if e < |s| {
      NoKeyNoEntry(s, sep, key, trim, e + |sep|);
    }
  }

  /** The entry the scan cuts out around the first key occurrence is a whole segment of the list. */
  lemma CutIsSegment(s: string, c: char, key: string, pos: nat, k: nat)
    requires key != [] && c !in key && pos <= k && At(s, k, key) && (pos > 0 ==> pos <= |s| && s[pos - 1] == c)
    ensures var a, e := KeyStart(s, [c], k), FindOrEnd(s, [c], k + |key|);
      && pos <= a <= k && k + |key| <= e && e == FindOrEnd(s, [c], a)
      && (a > 0 ==> s[a - 1] == c)
  {
    var a, e := KeyStart(s, [c], k), FindOrEnd(s, [c], k + |key|);
    AtChar(s, c, k);
    assert s[k] == key[0];
    if pos > 0 {
      AtChar(s, c, pos - 1);
    }
    if a > 0 {
      AtChar(s, c, a - 1);
    }
    forall j | a <= j < k + |key| ensures !At(s, j, [c]) {
      if k <= j {
        AtChar(s, c, j);
        assert s[j] == s[k..k + |key|][j - k] == key[j - k];
      }
    }
    FirstIsUnique(s, [c], a, k + |key|);
  }

  lemma {:induction false} FirstIsUnique(s: string, pat: string, a: nat, b: nat)
    requires a <= b <= |s| && forall j :: a <= j < b ==> !At(s, j, pat)
    ensures Find(s, pat, a) == Find(s, pat, b) && FindOrEnd(s, pat, a) == FindOrEnd(s, pat, b)
    decreases b - a
  {
    var x, y := Find(s, pat, a), Find(s, pat, b);
    if x.Some? && y.Some? {
      assert x.value == y.value;
    }
  }

  /** Comparing positions is comparing text, because `k` is the first occurrence of the key. */
  lemma HitIsEntry(s: string, key: string, trim: bool, pos: nat, a: nat, k: nat, e: nat)
    requires pos <= a <= k && k + |key| <= e <= |s| && At(s, k, key)
    requires forall j :: pos <= j < k ==> !At(s, j, key)
    ensures (if trim then Trim(Between(s, a, e)) == key else a == k && e == k + |key|)
      == (Entry(s[a..e], trim) == key)
  {
    hide Trim;
    if s[a..e] == key {
      assert At(s, a, key);
    }
  }

  /** One separator character: the scan from a segment start decides membership in the rest of the list. */
  lemma {:induction false} ScanDecides(s: string, c: char, key: string, trim: bool, pos: nat)
    requires key != [] && c !in key && pos <= |s| && (pos > 0 ==> s[pos - 1] == c)
    ensures Scan(s, key, [c], trim, Find(s, key, pos)) == Matches(Segments(s, [c], pos), key, trim)
    decreases |s| - pos
  {
    hide *;
    ScanStep(s, key, [c], trim, Find(s, key, pos));
    match Find(s, key, pos)
    case None =>
      NoKeyNoEntry(s, [c], key, trim, pos);
    case Some(k) =>
      CutIsSegment(s, c, key, pos, k);
      var a, e := KeyStart(s, [c], k), FindOrEnd(s, [c], k + |key|);
      SkipEntries(s, c, key, trim, pos, a);
      MatchesStep(s, [c], a, key, trim);
      HitIsEntry(s, key, trim, pos, a, k, e);
      if e < |s| {
        AtChar(s, c, e);
        ScanDecides(s, c, key, trim, e + 1);
      } else {
        PastEnd(s, key, e + 1);
        ScanStep(s, key, [c], trim, None);
      }
  }

  lemma ScanStep(s: string, key: string, sep: string, trim: bool, keyPos: Option<nat>)
    requires sep != [] && (keyPos.Some? ==> keyPos.value + |key| <= |s|)
    ensures Scan(s, key, sep, trim, keyPos) ==
      match keyPos
      case None => false
      case Some(k) =>
        var start, end := KeyStart(s, sep, k), FindOrEnd(s, sep, k + |key|);
        || (if trim then Trim(Between(s, start, end)) == key else start == k && end == k + |key|)
        || Scan(s, key, sep, trim, Find(s, key, end + |sep|))
  {}

  lemma PastEnd(s: string, pat: string, pos: nat)
    requires pos > |s|
    ensures Find(s, pat, pos).None?
  {}

  lemma {:induction false} SegmentsAreFree(s: string, c: char, pos: nat)
    requires pos <= |s|
    ensures forall seg :: seg in Segments(s, [c], pos) ==> c !in seg
    decreases |s| - pos
  {
    var e := FindOrEnd(s, [c], pos);
    CharFree(s, c, pos, e);
    if e < |s| {
      SegmentsAreFree(s, c, e + 1);
    }
  }

  /** With a one-character separator the jump search is membership in the split list, whatever the flags. */
  lemma SingleCharAgrees(s: string, key: string, sep: string, trim: bool, clear: bool)
    requires key != [] && |sep| == 1
    ensures InList(s, key, sep, trim) == (key in SplitVec(s, sep, trim, clear))
  {
    var c := sep[0];
    assert sep == [c];
    hide Find, Scan, Segments, Entries, Matches;
    if s == [] {
      assert !At(s, 0, key);
      NoKeyNoEntry(s, [c], key, trim, 0);
    }
    EntriesMember(Segments(s, sep, 0), key, trim, clear);
    if c in key {
      var i :| 0 <= i < |key| && key[i] == c;
      AtChar(key, c, i);
      SeparatorNeverInEntry(s, c, key, trim);
    } else {
      CharFreeNotFound(key, c);
      ScanDecides(s, c, key, trim, 0);
    }
  }

  lemma SeparatorNeverInEntry(s: string, c: char, key: string, trim: bool)
    requires c in key
    ensures !Matches(Segments(s, [c], 0), key, trim)
  {
    hide Trim, Segments, At;
    SegmentsAreFree(s, c, 0);
    var all := Segments(s, [c], 0);
    if Matches(all, key, trim) {
      var i :| 0 <= i < |all| && Entry(all[i], trim) == key;
      assert all[i] in all;
      EntryHasNoMore(all[i], c, trim);
    }
  }

  lemma EntryHasNoMore(segment: string, c: char, trim: bool)
    requires c !in segment
    ensures c !in Entry(segment, trim)
  {
    var r := Entry(segment, trim);
    assert segment[0..|segment|] == segment;
    var k := EntryHoldsKey(segment, r, trim, 0, |segment|);
    forall j | 0 <= j < |r| ensures r[j] == segment[k + j] {}
  }

  // ---------------------------------------------------------------- longer separators, with trimming

  /** Spaces, then one more character of any kind. */
  predicate Padded(sep: string) {
    sep != [] && forall i :: 0 <= i < |sep| - 1 ==> sep[i] == ' '
  }

  /** What a trimmed entry looks like. */
  predicate Bare(key: string) {
    key != [] && key[0] != ' ' && key[|key| - 1] != ' '
  }

  ghost predicate FreeOf(key: string, sep: string) {
    forall i: nat :: !At(key, i, sep)
  }

  ghost predicate Blank(s: string) {
    forall i :: 0 <= i < |s| ==> s[i] == ' '
  }

  lemma SepChar(s: string, q: nat, sep: string, j: nat)
    requires At(s, q, sep) && j < |sep|
    ensures s[q + j] == sep[j]
  {
    assert s[q..q + |sep|][j] == s[q + j];
  }

  /** A separator that starts before the end of a key occurrence covers at most the key's first character. */
  lemma SepMissesKey(s: string, sep: string, key: string, k: nat, q: nat)
    requires Padded(sep) && Bare(key) && FreeOf(key, sep) && At(s, k, key) && At(s, q, sep) && q < k + |key|
    ensures q + |sep| <= k + 1
  {
    SepChar(s, k, key, 0);
    SepChar(s, k, key, |key| - 1);
    SepIsBlank(s, q, sep);
    if k <= q && q + |sep| <= k + |key| {
      AtInPiece(s, k, k + |key|, q - k, sep);
    }
  }

  lemma SepIsBlank(s: string, q: nat, sep: string)
    requires Padded(sep) && At(s, q, sep)
    ensures forall i :: q <= i < q + |sep| - 1 ==> s[i] == ' '
  {
    forall i | q <= i < q + |sep| - 1 ensures s[i] == ' ' {
      SepChar(s, q, sep, i - q);
    }
  }

  /** So from the end of that separator on there is none before the end of the key. */
  lemma NoSepInKey(s: string, sep: string, key: string, k: nat, a: nat)
    requires Padded(sep) && Bare(key) && FreeOf(key, sep) && At(s, k, key) && k < a <= k + |key|
    ensures forall q :: a <= q < k + |key| ==> !At(s, q, sep)
    ensures FindOrEnd(s, sep, a) == FindOrEnd(s, sep, k + |key|)
  {
    forall q | a <= q < k + |key| ensures !At(s, q, sep) {
      if At(s, q, sep) {
        SepMissesKey(s, sep, key, k, q);
      }
    }
    FirstIsUnique(s, sep, a, k + |key|);
  }

  lemma {:induction false} TrimBlank(s: string)
    requires Blank(s)
    ensures Trim(s) == []
    decreases |s|
  {
    if s != [] {
      TrimBlank(s[..|s| - 1]);
    }
  }

  lemma TrimNothing()
    ensures Trim([]) == []
  {}

  lemma TrimStep(s: string)
    requires s != []
    ensures s[|s| - 1] == ' ' ==> Trim(s) == Trim(s[..|s| - 1])
    ensures s[|s| - 1] != ' ' && s[0] == ' ' ==> Trim(s) == Trim(s[1..])
  {}

  lemma {:induction false} TrimSkips(blank: string, s: string)
    requires Blank(blank)
    ensures Trim(blank + s) == Trim(s)
    decreases |blank| + |s|
  {
    hide Trim;
    var all := blank + s;
    if s == [] {
      assert all == blank;
      TrimBlank(blank);
      TrimNothing();
    } else if s[|s| - 1] == ' ' {
      assert all[|all| - 1] == ' ' && all[..|all| - 1] == blank + s[..|s| - 1];
      TrimStep(all);
      TrimStep(s);
      TrimSkips(blank, s[..|s| - 1]);
    } else if blank != [] {
      assert all[|all| - 1] == s[|s| - 1] && all[0] == blank[0] == ' ' && all[1..] == blank[1..] + s;
      TrimStep(all);
      TrimSkips(blank[1..], s);
    } else {
      assert all == s;
    }
  }

  /** Where the scan takes the entry to start, when no separator starts between `pos` and the key. */
  lemma StartIsBlankApart(s: string, sep: string, key: string, pos: nat, k: nat)
    requires Padded(sep) && Bare(key) && FreeOf(key, sep) && At(s, k, key) && pos <= k
    requires pos == 0 || (pos >= |sep| && At(s, pos - |sep|, sep))
    requires forall q :: pos <= q < k + |key| ==> !At(s, q, sep)
    ensures pos <= KeyStart(s, sep, k) <= k && Blank(s[pos..KeyStart(s, sep, k)])
  {
    var found := RFind(s, sep, k);
    if pos > 0 {
      var q := found.value;
      var p := pos - |sep|;
      assert p <= q < pos;
      SepMissesKey(s, sep, key, k, q);
      SepChar(s, k, key, 0);
      if q > p {
        SepChar(s, p, sep, |sep| - 1);
        SepChar(s, q, sep, pos - 1 - q);
        assert sep[|sep| - 1] == ' ';
        SepChar(s, q, sep, |sep| - 1);
        forall i | pos <= i < q + |sep| ensures s[i] == ' ' {
          SepChar(s, q, sep, i - q);
        }
      }
    }
  }

  /** From any segment start the scan decides membership in the remaining trimmed entries. */
  lemma {:induction false} PaddedScanDecides(s: string, sep: string, key: string, pos: nat)
    requires Padded(sep) && Bare(key) && FreeOf(key, sep) && pos <= |s|
    requires pos == 0 || (pos >= |sep| && At(s, pos - |sep|, sep))
    ensures Scan(s, key, sep, true, Find(s, key, pos)) == Matches(Segments(s, sep, pos), key, true)
    decreases |s| - pos
  {
    hide *;
    PaddedLength(sep, key);
    match Find(s, key, pos)
    case None =>
      ScanStep(s, key, sep, true, None);
      NoKeyNoEntry(s, sep, key, true, pos);
    case Some(k) =>
      var e := FindOrEnd(s, sep, pos);
      MatchesStep(s, sep, pos, key, true);
      if e < k + |key| {
        SepMissesKey(s, sep, key, k, e);
        NotInSegment(s, key, pos, k, e);
        if e + |sep| <= k {
          FirstIsUnique(s, key, e + |sep|, k);
          FirstIsUnique(s, key, pos, k);
          PaddedScanDecides(s, sep, key, e + |sep|);
        } else {
          OverlappedKey(s, sep, key, k, e);
          MatchesStep(s, sep, k + 1, key, true);
          AfterKey(s, sep, key, k);
        }
      } else {
        NoSepBefore(s, sep, pos, k + |key|);
        StartIsBlankApart(s, sep, key, pos, k);
        WholeSegment(s, sep, key, pos, k);
        AfterKey(s, sep, key, k);
      }
  }

  lemma PaddedLength(sep: string, key: string)
    requires Padded(sep) && Bare(key)
    ensures sep != [] && key != []
  {}

  lemma NoSepBefore(s: string, sep: string, pos: nat, b: nat)
    requires pos <= b <= |s| && b <= FindOrEnd(s, sep, pos)
    ensures forall q :: pos <= q < b ==> !At(s, q, sep)
    ensures FindOrEnd(s, sep, pos) == FindOrEnd(s, sep, b)
  {
    FirstIsUnique(s, sep, pos, b);
  }

  /** The first occurrence of the key is not inside a segment that ends before it does. */
  lemma NotInSegment(s: string, key: string, pos: nat, k: nat, e: nat)
    requires key != [] && Find(s, key, pos) == Some(k) && pos <= e <= |s| && e < k + |key|
    ensures Entry(s[pos..e], true) != key
  {
    if Entry(s[pos..e], true) == key {
      var i := EntryHoldsKey(s, key, true, pos, e);
      assert false;
    }
  }

  /** The separator ends on the key's first character: both sides look at the segment behind it. */
  lemma OverlappedKey(s: string, sep: string, key: string, k: nat, e: nat)
    requires Padded(sep) && Bare(key) && FreeOf(key, sep) && At(s, k, key) && k + |key| <= |s|
    requires At(s, e, sep) && e + |sep| == k + 1
    ensures KeyStart(s, sep, k) == k + 1 <= |s| && FindOrEnd(s, sep, k + 1) == FindOrEnd(s, sep, k + |key|)
    ensures
      var e2 := FindOrEnd(s, sep, k + |key|);
      k + 1 <= e2 && Trim(Between(s, k + 1, e2)) == Entry(s[k + 1..e2], true)
  {
    hide Trim;
    forall q | e < q <= k ensures !At(s, q, sep) {
      if At(s, q, sep) {
        SepMissesKey(s, sep, key, k, q);
      }
    }
    NoSepInKey(s, sep, key, k, k + 1);
  }

  /** What the scan cuts out and the segment from `pos` trim to the same text. */
  lemma WholeSegment(s: string, sep: string, key: string, pos: nat, k: nat)
    requires pos <= k && k + |key| <= |s|
    requires pos <= KeyStart(s, sep, k) <= k && Blank(s[pos..KeyStart(s, sep, k)])
    ensures
      var a, e := KeyStart(s, sep, k), FindOrEnd(s, sep, k + |key|);
      Trim(Between(s, a, e)) == Entry(s[pos..e], true)
  {
    hide Trim, KeyStart, FindOrEnd;
    var a, e := KeyStart(s, sep, k), FindOrEnd(s, sep, k + |key|);
    assert k + |key| <= e;
    assert s[pos..e] == s[pos..a] + s[a..e];
    TrimSkips(s[pos..a], s[a..e]);
  }

  /** The scan goes on behind the separator after the key, at a segment start. */
  lemma {:induction false} AfterKey(s: string, sep: string, key: string, k: nat)
    requires Padded(sep) && Bare(key) && FreeOf(key, sep) && At(s, k, key) && k + |key| <= |s|
    ensures
      var a, e := KeyStart(s, sep, k), FindOrEnd(s, sep, k + |key|);
      Scan(s, key, sep, true, Some(k))
      == (Trim(Between(s, a, e)) == key || (e < |s| && Matches(Segments(s, sep, e + |sep|), key, true)))
    decreases |s| - k - 1
  {
    hide *;
    PaddedLength(sep, key);
    var e := FindOrEnd(s, sep, k + |key|);
    ScanStep(s, key, sep, true, Some(k));
    if e < |s| {
      PaddedScanDecides(s, sep, key, e + |sep|);
    } else {
      PastEnd(s, key, e + |sep|);
      ScanStep(s, key, sep, true, None);
    }
  }

  /** No scan finds, and no list holds, a key that trimming would change. */
  lemma {:induction false} ScanFindsBare(s: string, key: string, sep: string, keyPos: Option<nat>)
    requires sep != [] && key != [] && !Bare(key) && (keyPos.Some? ==> keyPos.value + |key| <= |s|)
    ensures !Scan(s, key, sep, true, keyPos)
    decreases if keyPos.Some? then |s| - keyPos.value + 1 else 0
  {
    hide KeyStart, Trim, Scan, Find, FindOrEnd, At, Between;
    ScanStep(s, key, sep, true, keyPos);
    if keyPos.Some? {
      var e := FindOrEnd(s, sep, keyPos.value + |key|);
      ScanFindsBare(s, key, sep, Find(s, key, e + |sep|));
    }
  }

  lemma EntriesAreBare(segments: seq<string>, key: string)
    requires key != [] && !Bare(key)
    ensures !Matches(segments, key, true)
  {
    hide Trim;
  }

  lemma {:induction false} EntriesAreFree(s: string, sep: string, key: string, trim: bool, pos: nat)
    requires sep != [] && pos <= |s| && !FreeOf(key, sep)
    ensures !Matches(Segments(s, sep, pos), key, trim)
    decreases |s| - pos
  {
    hide Matches, Segments, Entry;
    var e := FindOrEnd(s, sep, pos);
    MatchesStep(s, sep, pos, key, trim);
    if Entry(s[pos..e], trim) == key {
      var i := EntryHoldsKey(s, key, trim, pos, e);
      var j: nat :| At(key, j, sep);
      InnerAt(s, i, key, j, sep);
    }
    if e < |s| {
      EntriesAreFree(s, sep, key, trim, e + |sep|);
    }
  }

  lemma InnerAt(s: string, i: nat, key: string, j: nat, sep: string)
    requires At(s, i, key) && At(key, j, sep)
    ensures At(s, i + j, sep) && i + j + |sep| <= i + |key|
  {
    AtInPiece(s, i, i + |key|, j, sep);
  }

  /** With trimming, the jump search is membership in the split list for separators of spaces, or of spaces
      with one character behind them. */
  lemma PaddedAgrees(s: string, key: string, sep: string, clear: bool)
    requires key != [] && Padded(sep)
    ensures InList(s, key, sep, true) == (key in SplitVec(s, sep, true, clear))
  {
    hide Padded, Bare, FreeOf, Scan, Segments, Entries, Matches, At;
    PaddedNotEmpty(sep);
    EntriesMember(Segments(s, sep, 0), key, true, clear);
    FoundIffNotFree(key, sep);
    if s == [] {
      NothingInNothing(key);
      NoKeyNoEntry(s, sep, key, true, 0);
    }
    if !Bare(key) {
      ScanFindsBare(s, key, sep, Find(s, key, 0));
      EntriesAreBare(Segments(s, sep, 0), key);
    } else if !FreeOf(key, sep) {
      EntriesAreFree(s, sep, key, true, 0);
    } else {
      PaddedScanDecides(s, sep, key, 0);
    }
  }

  lemma PaddedNotEmpty(sep: string)
    requires Padded(sep)
    ensures sep != []
  {}

  lemma NothingInNothing(key: string)
    requires key != []
    ensures forall j: nat :: !At([], j, key)
  {}

  lemma FoundIffNotFree(key: string, sep: string)
    ensures Find(key, sep, 0).None? <==> FreeOf(key, sep)
  {}

  // ---------------------------------------------------------------- where search and split differ

  /** `j` is the first character of the separator other than a space, or the first of all, and `z` differs
      from the few characters that could start another separator. */
  predicate Overlaps(sep: string, z: char, j: nat)
    requires j + 1 < |sep|
  {
    && (j > 0 ==> sep[j] != ' ' && forall i :: 0 <= i < j ==> sep[i] == ' ')
    && z != sep[0] && z != sep[|sep| - j - 1] && z != sep[|sep| - j - 2]
  }

  /** Such a first character. */
  function Leading(sep: string): (j: nat)
    requires sep != []
    ensures j < |sep|
    ensures forall i :: 0 <= i < j ==> sep[i] == ' '
    ensures j < |sep| - 1 ==> sep[j] != ' '
  {
    if |sep| > 1 && sep[0] == ' ' then 1 + Leading(sep[1..]) else 0
  }

  lemma OtherChar(a: char, b: char, c: char) returns (z: char)
    ensures z !in {a, b, c, ' '}
  {
    z :| z in {'w', 'x', 'y', 'z'} && z !in {a, b, c};
  }

  /** For a separator that can overlap the end of an entry: a key that ends in the separator's first j + 1
      characters and a text where that ending is the start of a separator. The jump search cuts out too
      much there and then skips the real entry. */
  lemma OverlapIsMissed(sep: string, z: char, j: nat, trim: bool)
    requires j + 1 < |sep| && Overlaps(sep, z, j) && (trim ==> z != ' ' && sep[j] != ' ')
    ensures
      var key := [z] + sep[..j + 1];
      var s := [z] + sep + key;
      && Find(key, sep, 0).None?
      && key in SplitVec(s, sep, trim, true)
      && !InList(s, key, sep, trim)
  {
    var key := [z] + sep[..j + 1];
    var s := [z] + sep + key;
    hide Find, SplitVec, InList, At;
    forall i: nat ensures At(s, i, sep) <==> i == 1 {
      OnlyOverlap(sep, z, j, i);
    }
    forall i: nat ensures !At(key, i, sep) {
      NotInKey(sep, z, j, i);
    }
    OverlapIsEntry(s, sep, key, trim);
    assert s[..|key|] == key;
    OverlapIsNoHit(s, sep, key, trim);
  }

  lemma OnlyOverlap(sep: string, z: char, j: nat, i: nat)
    requires j + 1 < |sep| && Overlaps(sep, z, j)
    ensures At([z] + sep + ([z] + sep[..j + 1]), i, sep) <==> i == 1
  {
    var s := [z] + sep + ([z] + sep[..j + 1]);
    if i != 1 && i + |sep| <= |s| {
      var d := if i == 0 then 0 else if i <= j + 1 then j + 1 - i else |sep| + 1 - i;
      assert s[i..i + |sep|][d] == s[i + d] != sep[d];
    }
    assert s[1..1 + |sep|] == sep;
  }

  lemma NotInKey(sep: string, z: char, j: nat, i: nat)
    requires j + 1 < |sep| && z != sep[0]
    ensures !At([z] + sep[..j + 1], i, sep)
  {
    var key := [z] + sep[..j + 1];
    if i + |sep| <= |key| {
      assert key[i..i + |sep|][0] == z != sep[0];
    }
  }

  lemma TrimKeepsBare(s: string)
    requires Bare(s)
    ensures Trim(s) == s
  {}

  lemma OverlapIsEntry(s: string, sep: string, key: string, trim: bool)
    requires sep != [] && key != [] && |s| == 1 + |sep| + |key| && s[|sep| + 1..] == key
    requires forall i :: At(s, i, sep) <==> i == 1
    requires trim ==> Bare(key)
    ensures key in SplitVec(s, sep, trim, true)
  {
    hide Find, Segments, Entries, FindOrEnd, At, Trim, Bare;
    assert At(s, 1, sep);
    var first := FindOrEnd(s, sep, 0);
    assert first == 1;
    assert FindOrEnd(s, sep, |sep| + 1) == |s|;
    SegmentsStep(s, sep, 0);
    SegmentsStep(s, sep, |sep| + 1);
    var all := Segments(s, sep, 0);
    assert all[1] == s[|sep| + 1..|s|] == key;
    if trim {
      TrimKeepsBare(key);
    }
    assert Entry(all[1], trim) == key;
    EntriesMember(all, key, trim, true);
  }

  lemma OverlapIsNoHit(s: string, sep: string, key: string, trim: bool)
    requires sep != [] && |key| >= 2 && |s| == 1 + |sep| + |key| && s[..|key|] == key
    requires forall i :: At(s, i, sep) <==> i == 1
    requires trim ==> Bare(s)
    ensures !InList(s, key, sep, trim)
  {
    hide FindOrEnd, Scan, Segments, Trim, Bare;
    assert s[0..|key|] == key;
    assert At(s, 0, key);
    assert Find(s, key, 0) == Some(0);
    assert FindOrEnd(s, sep, |key|) == |s|;
    assert KeyStart(s, sep, 0) == 0;
    ScanStep(s, key, sep, trim, Some(0));
    if trim {
      TrimKeepsBare(s);
      assert Between(s, 0, |s|) == s;
    }
    PastEnd(s, key, |s| + |sep|);
    ScanStep(s, key, sep, trim, None);
  }

  ghost predicate Agree(sep: string, trim: bool) {
    forall s: string, key: string :: key != [] ==> InList(s, key, sep, trim) == (key in SplitVec(s, sep, trim, true))
  }

  /** Search and split agree on all texts and keys: without trimming, exactly for separators of one
      character; with trimming, exactly for those where everything but the last character is a space. */
  lemma AgreesExactly(sep: string, trim: bool)
    requires sep != []
    ensures Agree(sep, trim) <==> if trim then Padded(sep) else |sep| == 1
  {
    hide InList, SplitVec;
    if |sep| == 1 || (trim && Padded(sep)) {
      forall s: string, key: string | key != []
        ensures InList(s, key, sep, trim) == (key in SplitVec(s, sep, trim, true))
      {
        if |sep| == 1 {
          SingleCharAgrees(s, key, sep, trim, true);
        } else {
          PaddedAgrees(s, key, sep, true);
        }
      }
    } else {
      var j := if trim then Leading(sep) else 0;
      var z := OtherChar(sep[0], sep[|sep| - j - 1], sep[|sep| - j - 2]);
      OverlapIsMissed(sep, z, j, trim);
      var key := [z] + sep[..j + 1];
      var s := [z] + sep + key;
      assert InList(s, key, sep, trim) != (key in SplitVec(s, sep, trim, true));
    }
  }

  lemma CharFreeNotFound(s: string, c: char)
    requires c !in s
    ensures Find(s, [c], 0).None?
  {
    if Find(s, [c], 0).Some? {
      AtChar(s, c, Find(s, [c], 0).value);
    }
  }
}
