/** Substitution of shell variables in place, inside a buffer of fixed size that holds a terminated
    string. */
module Substitution {
  import opened Probing
  import opened Sequences
  import opened Rewriting

  /** From position at on, view is what is read: up to the next terminator, or to the end of the buffer. */
  ghost predicate Reads(buf: seq<char>, at: nat, view: string)
  {
    && at + |view| <= |buf| && (at + |view| < |buf| ==> buf[at + |view|] == NUL)
    && (forall k :: 0 <= k < |view| ==> buf[at + k] == view[k] && view[k] != NUL)
  }

  lemma ReadsFrom(buf: seq<char>, at: nat, view: string, k: nat)
    requires Reads(buf, at, view) && k <= |view|
    ensures Reads(buf, at + k, view[k..])
  {
  }

  lemma ReadsSlice(buf: seq<char>, at: nat, view: string, i: nat, j: nat)
    requires Reads(buf, at, view) && i <= j <= |view|
    ensures at + j <= |buf| && buf[at + i..at + j] == view[i..j]
  {
  }

  lemma ReadsAt(buf: seq<char>, at: nat, view: string, k: nat)
    requires Reads(buf, at, view) && k <= |view|
    ensures at + |view| <= |buf| && (at + k < |buf| && buf[at + k] != NUL <==> k < |view|)
    ensures k < |view| ==> buf[at + k] == view[k]
  {
    if k < |view| {
      assert view[k] != NUL;
    }
  }

  lemma IndexFrom(view: string, c: char, k: nat)
    requires k < |view|
    ensures IndexOf(view[k..], c) == if view[k] == c then 0 else 1 + IndexOf(view[k + 1..], c)
  {
    assert view[k..][1..] == view[k + 1..];
  }

  lemma NameRunFrom(view: string, k: nat)
    requires k < |view|
    ensures NameRun(view[k..]) == if IsNameChar(view[k]) then 1 + NameRun(view[k + 1..]) else 0
  {
    assert view[k..][1..] == view[k + 1..];
  }

  /** Looks for c before the terminator. The program does not look at the size of the buffer: where there is
      no terminator it would read on behind it, and the model stops. */
  method StrChr(str: array<char>, from: nat, ghost view: string, c: char) returns (i: int)
    requires Reads(str[..], from, view)
    ensures i == if c in view then from + IndexOf(view, c) else -1
  {
    hide IndexOf, Reads;
    i := from;
    assert view[0..] == view;
    ReadsAt(str[..], from, view, 0);
    while i < str.Length && str[i] != NUL
      invariant from <= i <= from + |view| <= str.Length
      invariant i < str.Length && str[i] != NUL <==> i < from + |view|
      invariant IndexOf(view, c) == i - from + IndexOf(view[i - from..], c)
      decreases from + |view| - i
    {
      ReadsAt(str[..], from, view, i - from);
      IndexFrom(view, c, i - from);
      if str[i] == c {
        return;
      }
      i := i + 1;
      ReadsAt(str[..], from, view, i - from);
    }
    i := -1;
  }

  /** The end of the name that starts at a position. */
  method ScanName(str: array<char>, from: nat, ghost view: string) returns (q: nat)
    requires Reads(str[..], from, view)
    ensures q == from + NameRun(view)
  {
    hide NameRun, Reads;
    q := from;
    assert view[0..] == view;
    ReadsAt(str[..], from, view, 0);
    while q < str.Length && IsNameChar(str[q])
      invariant from <= q <= from + |view| <= str.Length
      invariant NameRun(view) == q - from + NameRun(view[q - from..])
      decreases from + |view| - q
    {
      ReadsAt(str[..], from, view, q - from);
      NameRunFrom(view, q - from);
      q := q + 1;
    }
    ReadsAt(str[..], from, view, q - from);
    if q < from + |view| {
      NameRunFrom(view, q - from);
    }
  }

  /** Reads the next reference from position s on. off tells that the end of the buffer is reached before it
      is known where the reference ends, or that there is none. */
  method ScanRef(str: array<char>, s: nat, ghost view: string) returns (r: Next, off: bool)
    requires Reads(str[..], s, view)
    ensures r == NextRef(view)
    ensures off <==> s + |view| == str.Length && Touches(r, |view|)
  {
    hide IndexOf, RefHere, Reads;
    ReadsWithin(str[..], s, view);
    var p := StrChr(str, s, view, '$');
    if p == -1 {
      off := AtBufferEnd(str, s, view);
      return Stop, off;
    }
    ghost var at := p - s;
    ReadsAt(str[..], s, view, at + 1);
    if p + 1 >= str.Length || str[p + 1] == NUL {
      return Stop, p + 1 >= str.Length;
    }
    ReadsFrom(str[..], s, view, at);
    r := ScanHere(str, p, view[at..]);
    if r == Stop {
      off := AtBufferEnd(str, s, view);
      return;
    }
    r := Shifted(r, p - s);
    off := r.Var? && s + r.end == str.Length && r.end - r.at == |r.name| + 1;
  }

  lemma ReadsWithin(buf: seq<char>, at: nat, view: string)
    requires Reads(buf, at, view)
    ensures at + |view| <= |buf|
  {
  }

  /** Whether reading from s on meets no terminator. */
  method AtBufferEnd(str: array<char>, s: nat, ghost view: string) returns (off: bool)
    requires Reads(str[..], s, view)
    ensures off <==> s + |view| == str.Length
  {
    hide Reads;
    var i := s;
    ReadsAt(str[..], s, view, 0);
    while i < str.Length && str[i] != NUL
      invariant s <= i <= s + |view| <= str.Length
      invariant i < str.Length && str[i] != NUL <==> i < s + |view|
      decreases s + |view| - i
    {
      i := i + 1;
      ReadsAt(str[..], s, view, i - s);
    }
    off := i == str.Length;
  }

  /** Reads the reference at the dollar sign at p. */
  method ScanHere(str: array<char>, p: nat, ghost view: string) returns (r: Next)
    requires Reads(str[..], p, view) && |view| > 1
    ensures r == RefHere(view)
  {
    hide IndexOf, NameRun, Reads;
    ReadsAt(str[..], p, view, 1);
    if str[p + 1] == '{' {
      ReadsFrom(str[..], p, view, 2);
      var q := StrChr(str, p + 2, view[2..], '}');
      if q == -1 {
        return Stop;
      }
      if q - p - 2 <= 0 {
        return Skip(q + 1 - p);
      }
      ReadsSlice(str[..], p, view, 2, q - p);
      r := Var(0, q + 1 - p, str[p + 2..q]);
    } else {
      ReadsFrom(str[..], p, view, 1);
      var q := ScanName(str, p + 1, view[1..]);
      if q - p - 1 <= 0 {
        return Skip(1);
      }
      ReadsSlice(str[..], p, view, 1, q - p);
      r := Var(0, q - p, str[p + 1..q]);
    }
  }

  /** Moves str[st..len] up by diff, last character first; nothing if st is not before len. */
  method ShiftUp(str: array<char>, st: nat, len: nat, diff: nat)
    requires len + diff <= str.Length
    modifies str
    ensures forall k :: 0 <= k < str.Length ==>
      str[k] == if st + diff <= k < len + diff then old(str[k - diff]) else old(str[k])
  {
    var i := len - 1;
    while i >= st
      invariant i <= len - 1 && (i >= st - 1 || i == len - 1)
      invariant forall k :: 0 <= k < str.Length ==>
        str[k] == if i + diff < k < len + diff then old(str[k - diff]) else old(str[k])
    {
      str[i + diff] := str[i];
      i := i - 1;
    }
  }

  /** Moves str[st..len] down by diff, first character first; nothing if st is not before len. */
  method ShiftDown(str: array<char>, st: nat, len: nat, diff: nat)
    requires diff <= st && len <= str.Length
    modifies str
    ensures forall k :: 0 <= k < str.Length ==>
      str[k] == if st - diff <= k < len - diff then old(str[k + diff]) else old(str[k])
  {
    var i := st;
    while i < len
      invariant st <= i && (i <= len || i == st)
      invariant forall k :: 0 <= k < str.Length ==>
        str[k] == if st - diff <= k < i - diff then old(str[k + diff]) else old(str[k])
    {
      str[i - diff] := str[i];
      i := i + 1;
    }
  }

  /** Writes a value at a position. */
  method CopyIn(str: array<char>, p: nat, sub: string)
    requires p + |sub| <= str.Length
    modifies str
    ensures forall k :: 0 <= k < str.Length ==>
      str[k] == if p <= k < p + |sub| then sub[k - p] else old(str[k])
  {
    for i := 0 to |sub|
      invariant forall k :: 0 <= k < str.Length ==>
        str[k] == if p <= k < p + i then sub[k - p] else old(str[k])
    {
      str[p + i] := sub[i];
    }
  }

  /** The buffer with str[p..e] replaced by sub. What followed, up to len, is moved along; beyond len nothing
      is moved, and sub is written over what is there. */
  function Spliced(buf: seq<char>, p: nat, e: nat, len: nat, sub: string): seq<char>
    requires p <= e <= |buf| && len <= |buf| && p + |sub| <= |buf| && 0 <= len + |sub| - (e - p) <= |buf|
  {
    if e <= len then buf[..p] + sub + buf[e..len] + buf[len + |sub| - (e - p)..]
    else buf[..p] + sub + buf[p + |sub|..]
  }

  lemma SplicedAt(buf: seq<char>, p: nat, e: nat, len: nat, sub: string, k: nat)
    requires p <= e <= |buf| && len <= |buf| && p + |sub| <= |buf| && 0 <= len + |sub| - (e - p) <= |buf|
    ensures |Spliced(buf, p, e, len, sub)| == |buf|
    ensures k < |buf| ==>
      Spliced(buf, p, e, len, sub)[k]
      == if p <= k < p + |sub| then sub[k - p]
         else if p + |sub| <= k < len + |sub| - (e - p) then buf[k - |sub| + (e - p)]
         else buf[k]
  {
  }

  /** Replaces the reference str[p..e] by a longer value. No terminator is written. */
  method Expand(str: array<char>, p: nat, e: nat, len: nat, sub: string)
    requires p < e <= str.Length && len < str.Length && |sub| > e - p && p + |sub| <= str.Length
    requires len + |sub| - (e - p) < str.Length
    modifies str
    ensures str[..] == Spliced(old(str[..]), p, e, len, sub)
  {
    hide Spliced;
    ghost var was, spliced := str[..], Spliced(str[..], p, e, len, sub);
    SplicedAt(was, p, e, len, sub, 0);
    ShiftUp(str, e, len, |sub| - (e - p));
    ghost var shifted := str[..];
    CopyIn(str, p, sub);
    forall k | 0 <= k < str.Length
      ensures str[k] == spliced[k]
    {
      SplicedAt(was, p, e, len, sub, k);
      var from := k - |sub| + (e - p);
      assert shifted[k] == if p + |sub| <= k < len + |sub| - (e - p) then was[from] else was[k];
      assert str[k] == if p <= k < p + |sub| then sub[k - p] else shifted[k];
    }
    assert str[..] == spliced;
  }

  /** Replaces the reference str[p..e] by a shorter value and ends the string where len then is. */
  method Contract(str: array<char>, p: nat, e: nat, len: nat, sub: string)
    requires p < e <= str.Length && len < str.Length && |sub| < e - p && len + |sub| >= e - p
    modifies str
    ensures str[..] == Spliced(old(str[..]), p, e, len, sub)[len + |sub| - (e - p) := NUL]
  {
    hide Spliced;
    MoveDown(str, p, e, len, sub);
    str[len + |sub| - (e - p)] := NUL;
  }

  method MoveDown(str: array<char>, p: nat, e: nat, len: nat, sub: string)
    requires p < e <= str.Length && len < str.Length && |sub| < e - p && len + |sub| >= e - p
    modifies str
    ensures str[..] == Spliced(old(str[..]), p, e, len, sub)
  {
    hide Spliced;
    ghost var was, spliced := str[..], Spliced(str[..], p, e, len, sub);
    SplicedAt(was, p, e, len, sub, 0);
    ShiftDown(str, e, len, e - p - |sub|);
    ghost var shifted := str[..];
    CopyIn(str, p, sub);
    forall k | 0 <= k < str.Length
      ensures str[k] == spliced[k]
    {
      SplicedAt(was, p, e, len, sub, k);
      var from := k - |sub| + (e - p);
      assert shifted[k] == if p + |sub| <= k < len + |sub| - (e - p) then was[from] else was[k];
      assert str[k] == if p <= k < p + |sub| then sub[k - p] else shifted[k];
    }
    assert str[..] == spliced;
  }

  /** The buffer holds what is done, then the text meant, then the rest, which starts with the terminator of
      the text unless that has been lost. */
  ghost predicate Laid(buf: seq<char>, done: string, text: string, rest: string)
  {
    buf == done + text + rest && NUL !in done + text && rest != []
  }

  /** The string in the buffer is s. */
  ghost predicate HasString(buf: seq<char>, s: string)
  {
    s + [NUL] <= buf && NUL !in s
  }

  lemma HasOneString(buf: seq<char>, s: string)
    requires HasString(buf, s)
    ensures NUL in buf && s == buf[..IndexOf(buf, NUL)]
  {
    var tail := buf[|s| + 1..];
    assert buf == s + ([NUL] + tail);
    IndexOfConcat(s, [NUL] + tail, NUL);
    assert buf[|s|] == NUL;
  }

  lemma LaidReads(buf: seq<char>, done: string, text: string, rest: string)
    requires Laid(buf, done, text, rest)
    ensures Reads(buf, |done|, View(text, rest))
    ensures |done| + |text| < |buf| && (buf[|done| + |text|] == NUL <==> Over(rest) == [])
  {
    var over := Over(rest);
    assert buf == done + (text + over) + rest[|over|..];
    assert forall x :: x in text ==> x in done + text;
  }

  lemma LaidOn(buf: seq<char>, done: string, text: string, rest: string, n: nat)
    requires Laid(buf, done, text, rest) && n <= |text|
    ensures Laid(buf, done + text[..n], text[n..], rest)
  {
    assert done + text[..n] + text[n..] == done + text;
  }

  /** After a shorter value. */
  lemma LaidShrunk(buf: seq<char>, done: string, text: string, rest: string, at: nat, end: nat, val: string)
    requires Laid(buf, done, text, rest) && at < end <= |text| && |val| < end - at && NUL !in val
    ensures var newlen := |done| + |text| + |val| - (end - at);
      Laid(Spliced(buf, |done| + at, |done| + end, |done| + |text|, val)[newlen := NUL],
           done + text[..at] + val, text[end..], RestAfter(done, text, rest, newlen))
  {
    var newlen := |done| + |text| + |val| - (end - at);
    var full := done + text;
    assert buf[..|done| + at] == done + text[..at];
    assert buf[|done| + end..|full|] == text[end..];
    assert buf[newlen..] == full[newlen..] + rest;
    assert full[newlen..] == [full[newlen]] + full[newlen + 1..];
    NoNul(done, text, at, end, val);
  }

  /** After a longer value: what follows is what was there. */
  lemma LaidGrown(buf: seq<char>, done: string, text: string, rest: string, at: nat, end: nat, val: string)
    requires Laid(buf, done, text, rest) && at < end <= |text| && |val| > end - at && NUL !in val
    requires |done| + |text| + |val| - (end - at) < |buf|
    ensures var g := |val| - (end - at);
      && g < |rest|
      && Laid(Spliced(buf, |done| + at, |done| + end, |done| + |text|, val),
              done + text[..at] + val, text[end..], rest[g..])
  {
    var g := |val| - (end - at);
    var full := done + text;
    assert buf[..|done| + at] == done + text[..at];
    assert buf[|done| + end..|full|] == text[end..];
    assert buf[|full| + g..] == rest[g..];
    NoNul(done, text, at, end, val);
  }

  method StrLen(str: array<char>, ghost text: string) returns (len: nat)
    requires Reads(str[..], 0, text)
    ensures len == |text|
  {
    len := 0;
    ReadsAt(str[..], 0, text, 0);
    while len < str.Length && str[len] != NUL
      invariant len <= |text| <= str.Length && (len < str.Length && str[len] != NUL <==> len < |text|)
      decreases |text| - len
    {
      len := len + 1;
      ReadsAt(str[..], 0, text, len);
    }
  }

  predicate SameLength(view: string, vars: Vars)
  {
    match NextRef(view)
    case Var(at, end, name) => name in vars && |vars[name]| == end - at
    case _ => false
  }

  /** The reference read at some position is to a value of its own length, which the program neither writes
      nor passes. */
  ghost predicate Caught(buf: seq<char>, vars: Vars)
  {
    exists at, view :: Reads(buf, at, view) && SameLength(view, vars)
  }

  /** The next thing the program does is to read or write behind the buffer. */
  ghost predicate AtItsEnd(buf: seq<char>, vars: Vars)
  {
    exists at, view :: Reads(buf, at, view) && GoesOff(at, view, vars, |buf|)
  }

  predicate GoesOff(at: nat, view: string, vars: Vars, size: nat)
  {
    var r := NextRef(view);
    || (at + |view| == size && Touches(r, |view|))
    || (r.Var? && r.name in vars && |vars[r.name]| > r.end - r.at && at + r.at + |vars[r.name]| > size)
  }

  // What a run is at: in the text meant, or astray.
  datatype Phase = Meant(done: string, text: string, rest: string) | Astray(st: Stray, goal: string)

  /** The buffer of a run that is astray. */
  ghost predicate Strewn(buf: seq<char>, st: Stray)
  {
    && |buf| == |st.out| + |st.behind| && buf[|st.out|..] == st.behind && NUL !in st.out
    && match st.cut
       case None => buf[..|st.out|] == st.out
       case Some(c) => c < |st.out| && buf[..c] == st.out[..c] && buf[c] == NUL
  }

  /** Position and end on record are those of the phase. */
  ghost predicate Stands(buf: seq<char>, s: nat, len: nat, ph: Phase, maxlen: nat)
  {
    |buf| == maxlen + 1 &&
    match ph
    case Meant(done, text, rest) => Laid(buf, done, text, rest) && s == |done| && len == |done| + |text|
    case Astray(st, goal) => Strewn(buf, st) && Ahead(st, maxlen) && s == |st.out| && len == st.len
  }

  ghost function Shown(ph: Phase): string
  {
    match ph
    case Meant(_, text, rest) => View(text, rest)
    case Astray(st, _) => Over(st.behind)
  }

  /** What the buffer holds behind the text meant, or behind what was put out. */
  ghost function Behind(ph: Phase): string
  {
    if ph.Meant? then ph.rest else ph.st.behind
  }

  lemma Sized(buf: seq<char>, s: nat, len: nat, ph: Phase, maxlen: nat)
    requires Stands(buf, s, len, ph, maxlen) && ph.Meant?
    ensures |ph.done| + |ph.text| + |ph.rest| == maxlen + 1 && ph.rest != [] && NUL !in ph.text
  {
    assert forall x :: x in ph.text ==> x in ph.done + ph.text;
  }

  ghost function Goal(ph: Phase, vars: Vars, maxlen: nat): string
  {
    match ph
    case Meant(done, text, _) => Rewrite(done, text, vars, maxlen)
    case Astray(_, goal) => goal
  }

  /** A phase whose run ends in the given way, towards the given goal. */
  ghost predicate Ends(ph: Phase, fate: Fate, goal: string, vars: Vars, maxlen: nat)
  {
    && goal == Goal(ph, vars, maxlen)
    && match ph
       case Meant(done, text, rest) =>
         && |done| + |text| + |rest| == maxlen + 1 && rest != [] && NUL !in text
         && fate == FateOf(done, text, rest, vars, maxlen)
       case Astray(st, _) => Ahead(st, maxlen) && fate == FateAstray(st, goal, vars, maxlen)
  }

  /** A run that is about to read beyond the end on record goes astray. */
  ghost predicate Steady(ph: Phase)
  {
    ph.Meant? ==> !Beyond(NextRef(View(ph.text, ph.rest)), |ph.text|)
  }

  lemma Steadied(buf: seq<char>, s: nat, len: nat, ph: Phase, fate: Fate, goal: string, vars: Vars, maxlen: nat)
    returns (ph': Phase)
    requires Stands(buf, s, len, ph, maxlen) && Ends(ph, fate, goal, vars, maxlen)
    ensures Stands(buf, s, len, ph', maxlen) && Ends(ph', fate, goal, vars, maxlen) && Steady(ph')
    ensures (ph' == ph || (ph.Meant? && ph'.Astray?)) && len <= maxlen
  {
    hide NextRef, Over, FateAstray, Rewrite;
    ph' := ph;
    if ph.Astray? {
      AheadSized(ph.st, maxlen);
    }
    if ph.Meant? && Beyond(NextRef(View(ph.text, ph.rest)), |ph.text|) {
      OverOfView(ph.text, ph.rest);
      ph' := Astray(Stray(ph.done, ph.text + ph.rest, len, None), goal);
      assert buf[|ph.done|..] == ph.text + ph.rest && buf[..|ph.done|] == ph.done;
    }
  }

  lemma ShownReads(buf: seq<char>, s: nat, len: nat, ph: Phase, maxlen: nat)
    requires Stands(buf, s, len, ph, maxlen)
    ensures Reads(buf, s, Shown(ph))
    ensures s + |Shown(ph)| == |buf| <==> NUL !in Behind(ph)
  {
    match ph
    case Meant(done, text, rest) =>
      LaidReads(buf, done, text, rest);
    case Astray(st, _) =>
      assert buf == buf[..|st.out|] + st.behind;
  }

  /** Passing over part of the text changes neither the rewriting nor how the run ends. */
  lemma Passes(done: string, text: string, rest: string, vars: Vars, maxlen: nat, n: nat)
    requires |done| + |text| + |rest| == maxlen + 1 && rest != [] && NUL !in text && 0 < n <= |text|
    requires var r := NextRef(View(text, rest)); r == Skip(n) || (r.Var? && r.end == n && r.name !in vars)
    ensures |done + text[..n]| + |text[n..]| + |rest| == maxlen + 1
    ensures FateOf(done + text[..n], text[n..], rest, vars, maxlen) == FateOf(done, text, rest, vars, maxlen)
    ensures Rewrite(done + text[..n], text[n..], vars, maxlen) == Rewrite(done, text, vars, maxlen)
  {
    hide NextRef, Over;
    ViewAgrees(text, Over(rest));
    if NextRef(text).Stop? {
      NothingLeft();
      assert text[n..] == [] && done + text[..n] + [] == done + text;
    }
  }

  /** So does a substitution. */
  lemma Replaces(done: string, text: string, rest: string, vars: Vars, maxlen: nat)
    requires |done| + |text| + |rest| == maxlen + 1 && rest != [] && NUL !in text
    requires var r := NextRef(View(text, rest));
      && r.Var? && r.end <= |text| && r.name in vars && |vars[r.name]| != r.end - r.at
      && !TooLong(done, text, r.at, r.end, vars[r.name], maxlen)
    ensures var r := NextRef(View(text, rest)); var val := vars[r.name];
      var done', text' := done + text[..r.at] + val, text[r.end..];
      var rest' := if |val| > r.end - r.at then rest[|val| - (r.end - r.at)..]
        else RestAfter(done, text, rest, |done'| + |text'|);
      && |done'| + |text'| + |rest'| == maxlen + 1 && rest' != []
      && FateOf(done', text', rest', vars, maxlen) == FateOf(done, text, rest, vars, maxlen)
      && Rewrite(done', text', vars, maxlen) == Rewrite(done, text, vars, maxlen)
  {
    hide NextRef, Over, RestAfter;
    ViewAgrees(text, Over(rest));
  }

  /** What is read is passed over. */
  lemma PhasePasses(buf: seq<char>, s: nat, len: nat, ph: Phase, fate: Fate, goal: string, vars: Vars, maxlen: nat,
                    n: nat) returns (ph': Phase)
    requires Stands(buf, s, len, ph, maxlen) && Ends(ph, fate, goal, vars, maxlen) && Steady(ph)
    requires var r := NextRef(Shown(ph)); r == Skip(n) || (r.Var? && r.end == n && r.name !in vars)
    requires NUL !in Behind(ph) ==> !Touches(NextRef(Shown(ph)), |Shown(ph)|)
    ensures 0 < n <= |Shown(ph)| && Stands(buf, s + n, len, ph', maxlen) && Ends(ph', fate, goal, vars, maxlen)
    ensures Earlier(ph', ph)
  {
    hide NextRef, Over, Rewrite, FateOf, Passed;
    match ph
    case Meant(done, text, rest) =>
      Sized(buf, s, len, ph, maxlen);
      Passes(done, text, rest, vars, maxlen, n);
      LaidOn(buf, done, text, rest, n);
      ph' := Meant(done + text[..n], text[n..], rest);
      Sized(buf, s + n, len, ph', maxlen);
    case Astray(st, _) =>
      PassedStrewn(buf, st, n);
      TurnKeeps(st, vars, maxlen);
      ph' := Astray(Passed(st, n), goal);
  }

  lemma PassedStrewn(buf: seq<char>, st: Stray, n: nat)
    requires Strewn(buf, st) && n <= |Over(st.behind)|
    ensures Strewn(buf, Passed(st, n)) && |Passed(st, n).out| == |st.out| + n && Passed(st, n).len == st.len
    ensures n > 0 ==> |Passed(st, n).behind| < |st.behind|
  {
    hide Over;
    assert st.behind[..n] == Over(st.behind)[..n];
    assert buf[..|st.out| + n] == buf[..|st.out|] + st.behind[..n];
    assert forall x :: x in Over(st.behind)[..n] ==> x in Over(st.behind);
  }

  /** The order in which phases can follow each other. */
  ghost predicate Earlier(ph': Phase, ph: Phase)
  {
    match ph
    case Meant(_, text, _) => ph'.Meant? && |ph'.text| < |text|
    case Astray(st, _) =>
      && ph'.Astray?
      && (|ph'.st.behind| < |st.behind| || (|ph'.st.behind| == |st.behind| && ph'.st.len < st.len))
  }

  /** The buffer after a substitution. */
  function Replaced(buf: seq<char>, p: nat, e: nat, len: nat, sub: string): seq<char>
    requires p <= e <= |buf| && len <= |buf| && p + |sub| <= |buf| && 0 <= len + |sub| - (e - p) < |buf|
  {
    var newlen := len + |sub| - (e - p);
    if |sub| < e - p then Spliced(buf, p, e, len, sub)[newlen := NUL] else Spliced(buf, p, e, len, sub)
  }

  /** A reference is replaced. */
  lemma PhaseReplaces(buf: seq<char>, s: nat, len: nat, ph: Phase, fate: Fate, goal: string, vars: Vars, maxlen: nat)
    returns (ph': Phase)
    requires Stands(buf, s, len, ph, maxlen) && Ends(ph, fate, goal, vars, maxlen) && Steady(ph)
    requires NUL !in Behind(ph) ==> !Touches(NextRef(Shown(ph)), |Shown(ph)|)
    requires var r := NextRef(Shown(ph));
      && r.Var? && r.name in vars && NUL !in vars[r.name] && |vars[r.name]| != r.end - r.at
      && 0 <= len + |vars[r.name]| - (r.end - r.at) <= maxlen && s + r.at + |vars[r.name]| <= maxlen + 1
      && s + r.end <= maxlen + 1
    ensures len <= maxlen
    ensures var r := NextRef(Shown(ph)); var val := vars[r.name];
      Stands(Replaced(buf, s + r.at, s + r.end, len, val), s + r.at + |val|, len + |val| - (r.end - r.at), ph', maxlen)
    ensures Ends(ph', fate, goal, vars, maxlen) && Earlier(ph', ph)
  {
    hide NextRef, Over, Rewrite, FateOf, FateAstray, TurnAstray, Ahead, RestAfter, Overwritten, Laid, Strewn, Replaced;
    match ph
    case Meant(done, text, rest) =>
      ph' := MeantReplaced(buf, len, done, text, rest, vars, maxlen);
    case Astray(st, _) =>
      ph' := AstrayReplaced(buf, st, goal, vars, maxlen);
  }

  lemma MeantReplaced(buf: seq<char>, len: nat, done: string, text: string, rest: string, vars: Vars, maxlen: nat)
    returns (ph': Phase)
    requires Laid(buf, done, text, rest) && |buf| == maxlen + 1 && len == |done| + |text|
    requires |done| + |text| + |rest| == maxlen + 1 && rest != [] && NUL !in text
    requires var r := NextRef(View(text, rest));
      && r.Var? && r.end <= |text| && r.name in vars && NUL !in vars[r.name] && |vars[r.name]| != r.end - r.at
      && 0 <= len + |vars[r.name]| - (r.end - r.at) <= maxlen
    ensures len <= maxlen && ph'.Meant? && |ph'.text| < |text|
    ensures var r := NextRef(View(text, rest)); var val := vars[r.name];
      && |done| + r.at + |val| <= maxlen + 1
      && Stands(Replaced(buf, |done| + r.at, |done| + r.end, len, val), |done| + r.at + |val|,
                len + |val| - (r.end - r.at), ph', maxlen)
    ensures Ends(ph', FateOf(done, text, rest, vars, maxlen), Rewrite(done, text, vars, maxlen), vars, maxlen)
  {
    hide NextRef, Over, Rewrite, FateOf, RestAfter, Laid, Spliced;
    var r := NextRef(View(text, rest));
    var val := vars[r.name];
    Replaces(done, text, rest, vars, maxlen);
    var done', text' := done + text[..r.at] + val, text[r.end..];
    if |val| > r.end - r.at {
      LaidGrown(buf, done, text, rest, r.at, r.end, val);
      ph' := Meant(done', text', rest[|val| - (r.end - r.at)..]);
    } else {
      LaidShrunk(buf, done, text, rest, r.at, r.end, val);
      ph' := Meant(done', text', RestAfter(done, text, rest, |done'| + |text'|));
    }
    assert forall x :: x in text' ==> x in text;
  }

  lemma AstrayReplaced(buf: seq<char>, st: Stray, goal: string, vars: Vars, maxlen: nat) returns (ph': Phase)
    requires Strewn(buf, st) && Ahead(st, maxlen)
    requires NUL !in st.behind ==> !Touches(NextRef(Over(st.behind)), |Over(st.behind)|)
    requires var r := NextRef(Over(st.behind));
      && r.Var? && r.name in vars && NUL !in vars[r.name] && |vars[r.name]| != r.end - r.at
      && 0 <= st.len + |vars[r.name]| - (r.end - r.at) <= maxlen && |st.out| + r.at + |vars[r.name]| <= maxlen + 1
    ensures st.len <= maxlen && |buf| == maxlen + 1 && ph'.Astray? && Earlier(ph', Astray(st, goal))
    ensures var r := NextRef(Over(st.behind)); var val := vars[r.name];
      && |st.out| + r.end <= |buf|
      && Stands(Replaced(buf, |st.out| + r.at, |st.out| + r.end, st.len, val), |st.out| + r.at + |val|,
                st.len + |val| - (r.end - r.at), ph', maxlen)
    ensures Ends(ph', FateAstray(st, goal, vars, maxlen), goal, vars, maxlen)
  {
    hide NextRef, Over, FateAstray, TurnAstray, Overwritten, Strewn, Replaced;
    var r := NextRef(Over(st.behind));
    var val := vars[r.name];
    AheadSized(st, maxlen);
    StrewnSized(buf, st);
    var st' := AstrayTurns(st, Over(st.behind), r.at, r.end, r.name, goal, vars, maxlen);
    OverwrittenStrewn(buf, st, r.at, r.end, val);
    OverwrittenAhead(st, maxlen, val);
    ph' := Astray(st', goal);
  }

  lemma AheadSized(st: Stray, maxlen: nat)
    requires Ahead(st, maxlen)
    ensures |st.out| + |st.behind| == maxlen + 1 && st.len <= maxlen
    ensures NextRef(Over(st.behind)).Var? ==> |st.out| + NextRef(Over(st.behind)).end > st.len
  {
    hide NextRef, Over;
  }

  lemma StrewnSized(buf: seq<char>, st: Stray)
    requires Strewn(buf, st)
    ensures |buf| == |st.out| + |st.behind|
  {
  }

  lemma OverwrittenStrewn(buf: seq<char>, st: Stray, at: nat, end: nat, val: string)
    requires Strewn(buf, st) && at < end <= |Over(st.behind)| && at + |val| <= |st.behind| && NUL !in val
    requires st.len + |val| >= end - at && |val| != end - at && st.len < |st.out| + end && st.len < |buf|
    requires st.len + |val| - (end - at) < |buf|
    ensures var st', p, e := Overwritten(st, at, end, val), |st.out| + at, |st.out| + end;
      && e <= |buf| && p + |val| <= |buf| && |Replaced(buf, p, e, st.len, val)| == |buf|
      && Strewn(Replaced(buf, p, e, st.len, val), st')
      && |st'.out| == p + |val| && st'.len == st.len + |val| - (end - at)
  {
    hide Over, Strewn;
    var st', p, newlen := Overwritten(st, at, end, val), |st.out| + at, st.len + |val| - (end - at);
    StrewnSized(buf, st);
    var written := buf[..p] + val + buf[p + |val|..];
    var put := Stray(st'.out, st'.behind, newlen, st.cut);
    PutOut(buf, st, at, val, put);
    assert Spliced(buf, p, |st.out| + end, st.len, val) == written;
    if |val| < end - at {
      CutHere(written, put, newlen);
    }
  }

  lemma PutOut(buf: seq<char>, st: Stray, at: nat, val: string, put: Stray)
    requires Strewn(buf, st) && at <= |Over(st.behind)| && at + |val| <= |st.behind| && NUL !in val
    requires put.out == st.out + Over(st.behind)[..at] + val && put.behind == st.behind[at + |val|..]
    requires put.cut == st.cut
    ensures var p := |st.out| + at;
      |buf| == |st.out| + |st.behind| && Strewn(buf[..p] + val + buf[p + |val|..], put)
  {
    hide Over;
    var view, pre := Over(st.behind), buf[..|st.out|];
    var added := view[..at] + val;
    assert buf == pre + st.behind && st.behind[..at] == view[..at];
    WrittenIs(buf, pre, st.behind, at, val);
    assert put.out == st.out + added;
    assert forall x :: x in view[..at] ==> x in view;
    assert st.cut.Some? ==> pre[..st.cut.value] == buf[..st.cut.value];
    Appended(pre + added + put.behind, pre, added, st, put);
  }

  lemma WrittenIs(buf: seq<char>, pre: seq<char>, behind: string, at: nat, val: string)
    requires buf == pre + behind && at + |val| <= |behind|
    ensures var p := |pre| + at;
      buf[..p] + val + buf[p + |val|..] == pre + (behind[..at] + val) + behind[at + |val|..]
  {
  }

  lemma Appended(written: seq<char>, pre: seq<char>, added: string, st: Stray, put: Stray)
    requires written == pre + added + put.behind && put.out == st.out + added && put.cut == st.cut
    requires |pre| == |st.out| && NUL !in st.out && NUL !in added
    requires match st.cut
      case None => pre == st.out
      case Some(c) => c < |st.out| && pre[..c] == st.out[..c] && pre[c] == NUL
    ensures Strewn(written, put)
  {
    assert written[|put.out|..] == put.behind && written[..|put.out|] == pre + added;
    if st.cut.Some? {
      var c := st.cut.value;
      assert written[..c] == pre[..c] && put.out[..c] == st.out[..c] && written[c] == pre[c];
    }
  }

  /** A terminator written into what was put out. */
  lemma CutHere(buf: seq<char>, st: Stray, newlen: nat)
    requires Strewn(buf, st) && newlen < |st.out|
    ensures Strewn(buf[newlen := NUL], st.(cut := Lower(st.cut, newlen)))
  {
    var c := Lower(st.cut, newlen).value;
    assert buf[newlen := NUL][|st.out|..] == buf[|st.out|..];
    if st.cut.None? {
      assert buf[..newlen] == buf[..|st.out|][..newlen];
    } else {
      assert buf[..c] == buf[..st.cut.value][..c] && st.out[..c] == st.out[..st.cut.value][..c];
    }
    assert buf[newlen := NUL][..c] == buf[..c];
  }

  /** The string in the buffer is the goal exactly if the run is Finished. */
  lemma PhaseEnds(buf: seq<char>, s: nat, len: nat, ph: Phase, fate: Fate, goal: string, vars: Vars, maxlen: nat)
    requires Stands(buf, s, len, ph, maxlen) && Ends(ph, fate, goal, vars, maxlen) && Steady(ph)
    requires var r := NextRef(Shown(ph));
      if r.Stop? then NUL in Behind(ph)
      else
        && (NUL !in Behind(ph) ==> !Touches(r, |Shown(ph)|))
        && r.Var? && r.name in vars && |vars[r.name]| != r.end - r.at
        && !(0 <= len + |vars[r.name]| - (r.end - r.at) <= maxlen)
    ensures fate in {Finished, Spoiled} && (fate == Finished <==> HasString(buf, goal))
  {
    hide NextRef, Over, HasString, Laid, Strewn, Ahead;
    match ph
    case Meant(done, text, rest) =>
      Sized(buf, s, len, ph, maxlen);
      MeantEnds(buf, done, text, rest, fate, goal, vars, maxlen);
    case Astray(st, _) =>
      LeftInBuffer(buf, st, maxlen);
      assert TurnAstray(st, vars, maxlen) == Returns;
      if HasString(buf, goal) {
        HasOneString(buf, goal);
      }
      if Left(st).Some? {
        HasOneString(buf, Left(st).value);
      }
  }

  lemma LeftInBuffer(buf: seq<char>, st: Stray, maxlen: nat)
    requires Strewn(buf, st) && Ahead(st, maxlen)
    ensures st.cut.Some? ==> st.cut.value < |st.out|
    ensures if Left(st).None? then NUL !in buf else HasString(buf, Left(st).value)
  {
    hide Over;
    assert buf == buf[..|st.out|] + st.behind;
    if st.cut.Some? {
      var c := st.cut.value;
      assert buf[..c + 1] == st.out[..c] + [NUL];
      assert forall x :: x in st.out[..c] ==> x in st.out;
    } else if NUL in st.behind {
      TerminatedOver(st.behind);
      var over := Over(st.behind);
      assert buf[..|st.out| + |over| + 1] == st.out + (over + [NUL]);
      assert st.out + over + [NUL] == st.out + (over + [NUL]);
    }
  }

  lemma TerminatedOver(rest: string)
    requires NUL in rest
    ensures |Over(rest)| < |rest| && rest[..|Over(rest)| + 1] == Over(rest) + [NUL]
  {
  }

  lemma MeantEnds(buf: seq<char>, done: string, text: string, rest: string, fate: Fate, goal: string, vars: Vars,
                  maxlen: nat)
    requires Laid(buf, done, text, rest) && |done| + |text| + |rest| == maxlen + 1 && rest != [] && NUL !in text
    requires fate == FateOf(done, text, rest, vars, maxlen) && goal == Rewrite(done, text, vars, maxlen)
    requires var r := NextRef(View(text, rest));
      && !Beyond(r, |text|)
      && (r.Stop? ==> NUL in rest)
      && (!r.Stop? ==>
            && r.Var? && r.name in vars && |vars[r.name]| != r.end - r.at
            && !(0 <= |done| + |text| + |vars[r.name]| - (r.end - r.at) <= maxlen))
    ensures fate in {Finished, Spoiled} && (fate == Finished <==> HasString(buf, goal))
  {
    hide NextRef, Over, HasString;
    ViewAgrees(text, Over(rest));
    assert goal == done + text && fate == AtEnd(rest);
    LaidReads(buf, done, text, rest);
    TextInBuffer(buf, done, text, rest);
  }

  /** The text meant is the string in the buffer exactly if its terminator is there. */
  lemma TextInBuffer(buf: seq<char>, done: string, text: string, rest: string)
    requires Laid(buf, done, text, rest)
    ensures HasString(buf, done + text) <==> Over(rest) == []
  {
    var goal := done + text;
    LaidReads(buf, done, text, rest);
    assert buf[..|goal|] == goal;
    if buf[|goal|] == NUL {
      assert buf[..|goal| + 1] == goal + [NUL];
    } else {
      assert (goal + [NUL])[|goal|] != buf[|goal|];
    }
  }

  // How a run comes to an end, as far as the program can tell.
  datatype Way = Returned | Endless | OffBuffer

  predicate Tells(way: Way, fate: Fate)
  {
    match fate
    case Finished => way == Returned
    case Spoiled => way == Returned
    case Stuck => way == Endless
    case RunsOff => way == OffBuffer
  }

  /** A run that never ends, or leaves the buffer. */
  lemma PhaseFails(buf: seq<char>, s: nat, len: nat, ph: Phase, fate: Fate, goal: string, vars: Vars, maxlen: nat)
    requires Stands(buf, s, len, ph, maxlen) && Ends(ph, fate, goal, vars, maxlen) && Steady(ph)
    ensures var r := NextRef(Shown(ph));
      var off := s + |Shown(ph)| == |buf| && Touches(r, |Shown(ph)|);
      && (off ==> fate == RunsOff && AtItsEnd(buf, vars))
      && (!off && r.Var? && r.name in vars ==>
            && (|vars[r.name]| == r.end - r.at ==> fate == Stuck && Caught(buf, vars))
            && (|vars[r.name]| > r.end - r.at && len + |vars[r.name]| - (r.end - r.at) <= maxlen ==>
                  s + r.at + |vars[r.name]| > |buf| ==> fate == RunsOff && AtItsEnd(buf, vars)))
  {
    hide NextRef, Over, Reads, Laid, Strewn, Rewrite;
    ShownReads(buf, s, len, ph, maxlen);
    var view := Shown(ph);
    var r := NextRef(view);
    assert GoesOff(s, view, vars, |buf|) ==> AtItsEnd(buf, vars);
    assert SameLength(view, vars) ==> Caught(buf, vars);
    if ph.Meant? {
      Sized(buf, s, len, ph, maxlen);
      if NUL !in ph.rest {
        OffMeansStop(ph.text, ph.rest);
      }
    }
    if ph.Astray? {
      StrewnSized(buf, ph.st);
    }
  }

  /** In the text meant only the want of a reference leads off the buffer. */
  lemma OffMeansStop(text: string, rest: string)
    requires rest != [] && NUL !in rest && !Beyond(NextRef(View(text, rest)), |text|)
    ensures Touches(NextRef(View(text, rest)), |View(text, rest)|) ==> NextRef(View(text, rest)).Stop?
  {
    hide NextRef;
  }

  /** One substitution in place. */
  method Substitute(str: array<char>, p: nat, e: nat, len: nat, sub: string, ghost s: nat, ghost ph: Phase,
                    ghost fate: Fate, ghost goal: string, ghost vars: Vars, ghost maxlen: nat)
    returns (ghost ph': Phase)
    requires str.Length == maxlen + 1 && Stands(str[..], s, len, ph, maxlen) && Ends(ph, fate, goal, vars, maxlen)
    requires Steady(ph) && (NUL !in Behind(ph) ==> !Touches(NextRef(Shown(ph)), |Shown(ph)|))
    requires var r := NextRef(Shown(ph));
      && r.Var? && r.name in vars && sub == vars[r.name] && NUL !in sub && p == s + r.at && e == s + r.end
    requires |sub| != e - p && 0 <= len + |sub| - (e - p) <= maxlen && p + |sub| <= str.Length && p < e <= str.Length
    modifies str
    ensures Stands(str[..], p + |sub|, len + |sub| - (e - p), ph', maxlen)
    ensures Ends(ph', fate, goal, vars, maxlen) && Earlier(ph', ph)
  {
    hide NextRef, Stands, Ends, Steady, Shown, Behind, Earlier, Spliced;
    ph' := PhaseReplaces(str[..], s, len, ph, fate, goal, vars, maxlen);
    if |sub| > e - p {
      Expand(str, p, e, len, sub);
    } else {
      Contract(str, p, e, len, sub);
    }
  }

  /** Substitutes in place. Where the program would never end, or would read or write behind the buffer, the
      model stops and says so. In every other run the buffer holds the rewriting in the end if and only if
      the run is Finished. */
  method SubstituteVars(str: array<char>, vars: Vars, maxlen: nat, ghost text0: string, ghost rest0: string)
    returns (way: Way)
    requires str.Length == maxlen + 1 && Laid(str[..], [], text0, rest0) && rest0[0] == NUL
    requires forall n :: n in vars ==> NUL !in vars[n]
    modifies str
    ensures |text0| + |rest0| == maxlen + 1 && NUL !in text0
    ensures Tells(way, FateOf([], text0, rest0, vars, maxlen))
    ensures way == Returned ==>
      (FateOf([], text0, rest0, vars, maxlen) == Finished <==> HasString(str[..], Rewrite([], text0, vars, maxlen)))
    ensures way == Endless ==> Caught(str[..], vars)
    ensures way == OffBuffer ==> AtItsEnd(str[..], vars)
  {
    hide NextRef, Laid, Reads, View, Over, FateOf, Rewrite, HasString, Caught, AtItsEnd, Shown, Stands, Ends;
    hide Replaced, Steady;
    LaidSize(str[..], [], text0, rest0);
    LaidReads(str[..], [], text0, rest0);
    ViewTerminated(text0, rest0);
    var len := StrLen(str, text0);
    var s: nat := 0;
    ghost var ph, fate, goal := StartPhase(str[..], text0, rest0, vars, maxlen);
    while true
      invariant Stands(str[..], s, len, ph, maxlen) && Ends(ph, fate, goal, vars, maxlen)
      decreases ph.Meant?, if ph.Meant? then |ph.text| else |ph.st.behind|, if ph.Meant? then 0 else ph.st.len
    {
      ph := Steadied(str[..], s, len, ph, fate, goal, vars, maxlen);
      ShownReads(str[..], s, len, ph, maxlen);
      PhaseFails(str[..], s, len, ph, fate, goal, vars, maxlen);
      ghost var view := Shown(ph);
      ReadsWithin(str[..], s, view);
      var r, off := ScanRef(str, s, view);
      if off {
        return OffBuffer;
      }
      match r {
        case Stop =>
          PhaseEnds(str[..], s, len, ph, fate, goal, vars, maxlen);
          return Returned;
        case Skip(n) =>
          ph := PhasePasses(str[..], s, len, ph, fate, goal, vars, maxlen, n);
          s := s + n;
        case Var(at, end, name) =>
          if name !in vars {
            ph := PhasePasses(str[..], s, len, ph, fate, goal, vars, maxlen, end);
            s := s + end;
          } else {
            var sub := vars[name];
            var p, e := s + at, s + end;
            var newlen := len + |sub| - (e - p);
            if |sub| == e - p {
              return Endless;
            } else if |sub| > e - p {
              if newlen > maxlen {
                PhaseEnds(str[..], s, len, ph, fate, goal, vars, maxlen);
                return Returned;
              }
              if p + |sub| > str.Length {
                return OffBuffer;
              }
            } else {
              if newlen < 0 {
                PhaseEnds(str[..], s, len, ph, fate, goal, vars, maxlen);
                return Returned;
              }
            }
            ph := Substitute(str, p, e, len, sub, s, ph, fate, goal, vars, maxlen);
            s := p + |sub|;
            len := newlen;
          }
      }
    }
  }

  lemma StartPhase(buf: seq<char>, text: string, rest: string, vars: Vars, maxlen: nat)
    returns (ph: Phase, fate: Fate, goal: string)
    requires |buf| == maxlen + 1 && Laid(buf, [], text, rest)
    ensures |text| + |rest| == maxlen + 1 && rest != [] && NUL !in text
    ensures fate == FateOf([], text, rest, vars, maxlen) && goal == Rewrite([], text, vars, maxlen)
    ensures Stands(buf, 0, |text|, ph, maxlen) && Ends(ph, fate, goal, vars, maxlen)
  {
    assert [] + text == text;
    ph, fate, goal := Meant([], text, rest), FateOf([], text, rest, vars, maxlen), Rewrite([], text, vars, maxlen);
  }

  lemma ViewTerminated(text: string, rest: string)
    requires rest != [] && rest[0] == NUL
    ensures View(text, rest) == text
  {
    OverStale([], rest);
    assert [] + rest == rest;
  }

  lemma LaidSize(buf: seq<char>, done: string, text: string, rest: string)
    requires Laid(buf, done, text, rest)
    ensures |buf| == |done| + |text| + |rest| && rest != []
  {
  }

  /** Once at a reference to a value of its own length, the program meets the same reference again. */
  lemma CaughtForever(view: string)
    requires NextRef(view).Var?
    ensures var r := NextRef(view); NextRef(view[r.at..]) == Var(0, r.end - r.at, r.name)
  {
    hide RefHere;
    var p := IndexOf(view, '$');
    assert view[p..][0] == '$' && view[p..][0..] == view[p..];
    assert IndexOf(view[p..], '$') == 0;
  }
}
