/** Substitution of shell variables, on strings: the references of a text, the result meant, and how the
    program that edits in place ends. */
module Rewriting {
  import opened Probing
  import opened Sequences

  const NUL: char := '\0'

  predicate IsNameChar(c: char)
  {
    c == '_' || 'a' <= c <= 'z' || 'A' <= c <= 'Z' || '0' <= c <= '9'
  }

  /** How many of the first characters can be part of a name. */
  function NameRun(s: string): (i: nat)
    ensures i <= |s| && (forall j :: 0 <= j < i ==> IsNameChar(s[j])) && (i < |s| ==> !IsNameChar(s[i]))
  {
    if s == [] then 0 else if IsNameChar(s[0]) then 1 + NameRun(s[1..]) else 0
  }

  // What comes next in the text: nothing to substitute any more, text to pass over, or the reference
  // text[at..end] to a variable.
  datatype Next = Stop | Skip(n: nat) | Var(at: nat, end: nat, name: string)

  /** The reference at the dollar sign the text starts with. */
  function RefHere(text: string): (r: Next)
    requires |text| > 1
    ensures r.Skip? ==> 0 < r.n <= |text|
    ensures r.Var? ==> r.at == 0 && |r.name| < r.end <= |text| && r.name != []
  {
    if text[1] == '{' then
      var k := IndexOf(text[2..], '}');
      if k == |text| - 2 then Stop
      else if k == 0 then Skip(3)
      else Var(0, k + 3, text[2..k + 2])
    else
      var k := NameRun(text[1..]);
      if k == 0 then Skip(1) else Var(0, k + 1, text[1..k + 1])
  }

  function Shifted(r: Next, p: nat): Next
  {
    match r
    case Stop => Stop
    case Skip(n) => Skip(p + n)
    case Var(at, end, name) => Var(p + at, p + end, name)
  }

  function NextRef(text: string): (r: Next)
    ensures r.Skip? ==> 0 < r.n <= |text|
    ensures r.Var? ==> r.at + |r.name| < r.end <= |text| && r.name != []
  {
    var p := IndexOf(text, '$');
    if p >= |text| - 1 then Stop else Shifted(RefHere(text[p..]), p)
  }

  type Vars = map<string, string>

  /** The intended result: done is final, text is rewritten from left to right. A substitution that
      would not fit ends it. */
  function Rewrite(done: string, text: string, vars: Vars, maxlen: nat): string
    decreases |text|
  {
    match NextRef(text)
    case Stop => done + text
    case Skip(n) => Rewrite(done + text[..n], text[n..], vars, maxlen)
    case Var(at, end, name) =>
      if name !in vars then Rewrite(done + text[..end], text[end..], vars, maxlen)
      else if TooLong(done, text, at, end, vars[name], maxlen) then done + text
      else Rewrite(done + text[..at] + vars[name], text[end..], vars, maxlen)
  }

  predicate TooLong(done: string, text: string, at: nat, end: nat, val: string, maxlen: nat)
    requires at < end <= |text|
  {
    |val| > end - at && |done| + |text| + |val| - (end - at) > maxlen
  }

  /** What has been rewritten is never looked at again. */
  lemma {:induction false} RewriteKeepsDone(done: string, text: string, vars: Vars, maxlen: nat)
    ensures done <= Rewrite(done, text, vars, maxlen)
    decreases |text|
  {
    hide NextRef;
    match NextRef(text)
    case Stop =>
    case Skip(n) =>
      RewriteKeepsDone(done + text[..n], text[n..], vars, maxlen);
    case Var(at, end, name) =>
      if name !in vars {
        RewriteKeepsDone(done + text[..end], text[end..], vars, maxlen);
      } else if !TooLong(done, text, at, end, vars[name], maxlen) {
        RewriteKeepsDone(done + text[..at] + vars[name], text[end..], vars, maxlen);
      }
  }

  /** No reference met in the text is to a known variable. */
  predicate NoneKnown(text: string, vars: Vars)
    decreases |text|
  {
    match NextRef(text)
    case Stop => true
    case Skip(n) => NoneKnown(text[n..], vars)
    case Var(_, end, name) => name !in vars && NoneKnown(text[end..], vars)
  }

  /** References to unknown variables stay as they are. */
  lemma {:induction false} RewriteNothing(done: string, text: string, vars: Vars, maxlen: nat)
    requires NoneKnown(text, vars)
    ensures Rewrite(done, text, vars, maxlen) == done + text
    decreases |text|
  {
    hide NextRef;
    match NextRef(text)
    case Stop =>
    case Skip(n) =>
      RewriteNothing(done + text[..n], text[n..], vars, maxlen);
      assert done + text[..n] + text[n..] == done + text;
    case Var(at, end, name) =>
      RewriteNothing(done + text[..end], text[end..], vars, maxlen);
      assert done + text[..end] + text[end..] == done + text;
  }

  /** The result fits wherever the text did. */
  lemma {:induction false} RewriteFits(done: string, text: string, vars: Vars, maxlen: nat)
    requires |done| + |text| <= maxlen
    ensures |Rewrite(done, text, vars, maxlen)| <= maxlen
    decreases |text|
  {
    hide NextRef;
    match NextRef(text)
    case Stop =>
    case Skip(n) =>
      RewriteFits(done + text[..n], text[n..], vars, maxlen);
    case Var(at, end, name) =>
      if name !in vars {
        RewriteFits(done + text[..end], text[end..], vars, maxlen);
      } else if !TooLong(done, text, at, end, vars[name], maxlen) {
        RewriteFits(done + text[..at] + vars[name], text[end..], vars, maxlen);
      }
  }

  /** A reference is one or three characters longer than its name. */
  lemma RefLength(text: string)
    ensures NextRef(text).Var? ==>
      NextRef(text).end - NextRef(text).at in {|NextRef(text).name| + 1, |NextRef(text).name| + 3}
  {
  }

  /** The characters of rest before its first terminator: what is read as part of the string although it
      lies behind its end. All of rest if there is no terminator. */
  function Over(rest: string): (over: string)
    ensures over <= rest && NUL !in over && (over == rest <==> NUL !in rest)
  {
    OverClean(rest);
    rest[..IndexOf(rest, NUL)]
  }

  lemma {:induction false} OverClean(rest: string)
    ensures NUL !in rest[..IndexOf(rest, NUL)]
  {
    if rest != [] && rest[0] != NUL {
      OverClean(rest[1..]);
      assert rest[..IndexOf(rest, NUL)] == [rest[0]] + rest[1..][..IndexOf(rest[1..], NUL)];
    }
  }

  /** What the program reads from where it has got to: the text meant, and what follows it unterminated. */
  function View(text: string, rest: string): string
  {
    text + Over(rest)
  }

  lemma ViewIs(text: string, rest: string)
    ensures View(text, rest) == text + Over(rest) && (Over(rest) == [] ==> View(text, rest) == text)
  {
  }

  /** The reference, or what is passed over, goes beyond the first n characters. */
  predicate Beyond(r: Next, n: nat)
  {
    match r
    case Stop => false
    case Skip(k) => k > n
    case Var(_, end, _) => end > n
  }

  lemma {:induction false} NameRunConcat(a: string, b: string)
    ensures NameRun(a + b) == if NameRun(a) < |a| then NameRun(a) else |a| + NameRun(b)
  {
    if a == [] {
      assert a + b == b;
    } else {
      assert (a + b)[1..] == a[1..] + b;
      NameRunConcat(a[1..], b);
    }
  }

  /** What the characters behind a text can change of what is read in it. */
  ghost predicate Agree(q: Next, r: Next, n: nat)
  {
    && (r.Stop? ==> q.Stop?)
    && (r.Skip? && r.n <= n ==> q == r || (q.Stop? && r.n == n))
    && (r.Var? && r.end <= n ==> q == r)
    && (Beyond(r, n) ==> q.Stop? || (q.Var? && q.end == n && q.end - q.at == |q.name| + 1))
  }

  lemma HereAgrees(t: string, over: string)
    requires |t| > 1
    ensures Agree(RefHere(t), RefHere(t + over), |t|)
  {
    hide RefHere;
    if t[1] == '{' {
      BracedAgrees(t, over);
    } else {
      PlainAgrees(t, over);
    }
  }

  lemma BracedAgrees(t: string, over: string)
    requires |t| > 1 && t[1] == '{'
    ensures Agree(RefHere(t), RefHere(t + over), |t|)
  {
    hide IndexOf, NameRun;
    var v, k := t + over, IndexOf(t[2..], '}');
    assert v[2..] == t[2..] + over;
    IndexOfConcat(t[2..], over, '}');
    if k < |t| - 2 {
      assert v[2..k + 2] == t[2..k + 2];
    }
  }

  lemma PlainAgrees(t: string, over: string)
    requires |t| > 1 && t[1] != '{'
    ensures Agree(RefHere(t), RefHere(t + over), |t|)
  {
    hide IndexOf, NameRun;
    var v, k := t + over, NameRun(t[1..]);
    assert v[1..] == t[1..] + over;
    NameRunConcat(t[1..], over);
    assert v[1..k + 1] == t[1..k + 1];
  }

  /** Nothing read inside the text depends on what is behind it, save a dollar sign at its very end; and
      only a plain name at its end can go on behind it. */
  lemma ViewAgrees(text: string, over: string)
    ensures Agree(NextRef(text), NextRef(text + over), |text|)
    ensures over == [] ==> NextRef(text) == NextRef(text + over)
  {
    var p, v := IndexOf(text, '$'), text + over;
    IndexOfConcat(text, over, '$');
    if over == [] {
      assert v == text;
    } else if p < |text| - 1 {
      assert v[p..] == text[p..] + over;
      HereAgrees(text[p..], over);
    } else if p == |text| - 1 {
      assert |v[p..]| == 1 + |over|;
    }
  }

  // How a run of the program ends: with the string rewritten; with a string that is not the rewriting, or
  // none; going round for ever at a value as long as its reference; or out of the buffer, reading behind
  // its end for want of a terminator, or writing there.
  datatype Fate = Finished | Spoiled | Stuck | RunsOff

  /** What is in the buffer from the terminator on, once the text has shrunk to newlen. */
  function RestAfter(done: string, text: string, rest: string, newlen: nat): (r: string)
    requires newlen < |done| + |text|
    ensures |r| == |done| + |text| + |rest| - newlen
  {
    [NUL] + (done + text)[newlen + 1..] + rest
  }

  /** The string left in the buffer is the rewriting by accident: the text ends in a plain reference whose
      value is what the reference and the characters behind it happen to spell. */
  predicate Accident(text: string, over: string, vars: Vars)
  {
    match NextRef(text)
    case Var(at, end, name) => end == |text| && name in vars && over != [] && vars[name] == text[at..] + over
    case _ => false
  }

  /** What is read goes on to the last of n characters, and is not over there. */
  predicate Touches(r: Next, n: nat)
  {
    r.Stop? || (r.Var? && r.end == n && r.end - r.at == |r.name| + 1)
  }

  /** How the run ends, from the text meant and what follows it in the buffer. rest starts with a
      terminator unless a longer value has been written over it; then the run goes on with what it reads. */
  function FateOf(done: string, text: string, rest: string, vars: Vars, maxlen: nat): Fate
    requires |done| + |text| + |rest| == maxlen + 1 && rest != [] && NUL !in text
    decreases |text|
  {
    OverOfView(text, rest);
    var r := NextRef(View(text, rest));
    if r.Stop? && NUL !in rest then RunsOff
    else if Beyond(r, |text|) then
      FateAstray(Stray(done, text + rest, |done| + |text|, None), Rewrite(done, text, vars, maxlen), vars, maxlen)
    else match r
      case Stop => AtEnd(rest)
      case Skip(n) => FateOf(done + text[..n], text[n..], rest, vars, maxlen)
      case Var(at, end, name) =>
        if name !in vars then FateOf(done + text[..end], text[end..], rest, vars, maxlen)
        else
          var val := vars[name];
          var done' := done + text[..at] + val;
          if |val| == end - at then Stuck
          else if TooLong(done, text, at, end, val, maxlen) then AtEnd(rest)
          else if |val| > end - at then FateOf(done', text[end..], rest[|val| - (end - at)..], vars, maxlen)
          else FateOf(done', text[end..], RestAfter(done, text, rest, |done'| + |text| - end), vars, maxlen)
  }

  /** The rewriting is left exactly if its terminator is there. */
  function AtEnd(rest: string): Fate
  {
    if Over(rest) == [] then Finished else Spoiled
  }

  lemma OverOfView(text: string, rest: string)
    requires NUL !in text
    ensures Over(text + rest) == View(text, rest) && (NUL in text + rest <==> NUL in rest)
  {
    IndexOfConcat(text, rest, NUL);
    assert (text + rest)[..|text| + IndexOf(rest, NUL)] == text + rest[..IndexOf(rest, NUL)];
  }

  // A run that reads beyond the end it has on record, len: what it has put out, and what is left of the
  // buffer behind. Nothing is moved any more. A shorter value writes a terminator where the program
  // believes the end to be, inside what has been put out; the first of these is at cut.
  datatype Stray = Stray(out: string, behind: string, len: nat, cut: Option<nat>)

  predicate Ahead(st: Stray, maxlen: nat)
  {
    && |st.out| + |st.behind| == maxlen + 1 && (st.cut.Some? ==> st.cut.value < |st.out|)
    && (|st.out| > st.len || Beyond(NextRef(Over(st.behind)), st.len - |st.out|))
  }

  /** The string left in the buffer: up to the first terminator written into what was put out, or else up
      to the first one behind it. */
  function Left(st: Stray): Option<string>
    requires st.cut.Some? ==> st.cut.value < |st.out|
  {
    if st.cut.Some? then Some(st.out[..st.cut.value])
    else if NUL in st.behind then Some(st.out + Over(st.behind))
    else None
  }

  function Lower(cut: Option<nat>, newlen: nat): Option<nat>
  {
    if cut.None? || newlen < cut.value then Some(newlen) else cut
  }

  // What one turn of such a run does.
  datatype StrayTurn = Returns | Loops | Leaves | Goes(st: Stray)

  function Passed(st: Stray, n: nat): Stray
    requires n <= |Over(st.behind)|
  {
    Stray(st.out + Over(st.behind)[..n], st.behind[n..], st.len, st.cut)
  }

  /** The value of a reference written over it and what follows. */
  function Overwritten(st: Stray, at: nat, end: nat, val: string): Stray
    requires at < end <= |Over(st.behind)| && at + |val| <= |st.behind| && st.len + |val| >= end - at
  {
    var newlen := st.len + |val| - (end - at);
    Stray(st.out + Over(st.behind)[..at] + val, st.behind[at + |val|..], newlen,
          if |val| < end - at then Lower(st.cut, newlen) else st.cut)
  }

  function TurnAstray(st: Stray, vars: Vars, maxlen: nat): StrayTurn
  {
    var view := Over(st.behind);
    var r := NextRef(view);
    if Touches(r, |view|) && NUL !in st.behind then Leaves
    else match r
      case Stop => Returns
      case Skip(n) => Goes(Passed(st, n))
      case Var(at, end, name) =>
        if name !in vars then Goes(Passed(st, end))
        else if |vars[name]| == end - at then Loops
        else if !(0 <= st.len + |vars[name]| - (end - at) <= maxlen) then Returns
        else if at + |vars[name]| > |st.behind| then Leaves
        else Goes(Overwritten(st, at, end, vars[name]))
  }

  lemma PassedAhead(st: Stray, maxlen: nat)
    requires Ahead(st, maxlen)
    ensures var r := NextRef(Over(st.behind));
      && (r.Skip? ==> r.n <= |Over(st.behind)| && Ahead(Passed(st, r.n), maxlen))
      && (r.Var? ==> r.end <= |Over(st.behind)| && Ahead(Passed(st, r.end), maxlen))
  {
    hide NextRef, Over;
  }

  lemma OverwrittenAhead(st: Stray, maxlen: nat, val: string)
    requires Ahead(st, maxlen) && NextRef(Over(st.behind)).Var?
    requires var r := NextRef(Over(st.behind));
      r.at + |val| <= |st.behind| && st.len + |val| >= r.end - r.at && |val| != r.end - r.at
    ensures var r := NextRef(Over(st.behind));
      var st' := Overwritten(st, r.at, r.end, val);
      Ahead(st', maxlen) && (|st'.behind| < |st.behind| || (|st'.behind| == |st.behind| && st'.len < st.len))
  {
    hide NextRef, Over;
  }

  /** A turn brings the run further, or leaves it less room before it. */
  lemma TurnKeeps(st: Stray, vars: Vars, maxlen: nat)
    requires Ahead(st, maxlen)
    ensures var t := TurnAstray(st, vars, maxlen);
      t.Goes? ==>
        && Ahead(t.st, maxlen)
        && (|t.st.behind| < |st.behind| || (|t.st.behind| == |st.behind| && t.st.len < st.len))
  {
    hide NextRef, Over, Overwritten, Ahead;
    PassedAhead(st, maxlen);
    var r := NextRef(Over(st.behind));
    if TurnAstray(st, vars, maxlen).Goes? && r.Var? && r.name in vars {
      OverwrittenAhead(st, maxlen, vars[r.name]);
    }
  }

  /** How the run ends, when goal is the rewriting. */
  function FateAstray(st: Stray, goal: string, vars: Vars, maxlen: nat): Fate
    requires Ahead(st, maxlen)
    decreases |st.behind|, st.len
  {
    TurnKeeps(st, vars, maxlen);
    match TurnAstray(st, vars, maxlen)
    case Returns => if Left(st) == Some(goal) then Finished else Spoiled
    case Loops => Stuck
    case Leaves => RunsOff
    case Goes(st') => FateAstray(st', goal, vars, maxlen)
  }

  /** What a run spells that goes on into old text and meets nothing known is the rewriting only at its
      terminator, or by accident. */
  lemma AccidentExact(done: string, text: string, rest: string, vars: Vars, maxlen: nat)
    requires |done| + |text| + |rest| == maxlen + 1 && NUL in rest
    requires var r := NextRef(View(text, rest)); r.Stop? || Beyond(r, |text|)
    ensures Rewrite(done, text, vars, maxlen) == done + View(text, rest)
       <==> Over(rest) == [] || Accident(text, Over(rest), vars)
  {
    hide NextRef, Over;
    var over, q := Over(rest), NextRef(text);
    ViewAgrees(text, over);
    assert |done + View(text, rest)| == |done + text| + |over|;
    if q.Var? && q.end == |text| && q.name in vars && !TooLong(done, text, q.at, q.end, vars[q.name], maxlen) {
      var pre, val := done + text[..q.at], vars[q.name];
      NothingLeft();
      assert text[q.end..] == [] && Rewrite(pre + val, [], vars, maxlen) == pre + val + [];
      assert pre + val + [] == pre + val;
      assert done + View(text, rest) == pre + (text[q.at..] + over);
      SamePrefix(pre, val, text[q.at..] + over);
    }
  }

  lemma OverFrom(behind: string, n: nat)
    requires n <= |Over(behind)|
    ensures Over(behind[n..]) == Over(behind)[n..] && (NUL in behind[n..] <==> NUL in behind)
  {
    var pre := behind[..n];
    assert pre == Over(behind)[..n] && behind == pre + behind[n..];
    assert forall x :: x in pre ==> x in Over(behind);
    IndexOfConcat(pre, behind[n..], NUL);
  }

  /** Where nothing known is met, the buffer stays as it is. */
  lemma {:induction false} AstrayIdle(st: Stray, goal: string, vars: Vars, maxlen: nat)
    requires Ahead(st, maxlen) && st.cut.None? && NUL in st.behind && NoneKnown(Over(st.behind), vars)
    ensures FateAstray(st, goal, vars, maxlen) == if goal == st.out + Over(st.behind) then Finished else Spoiled
    decreases |st.behind|
  {
    hide NextRef, Over;
    var view := Over(st.behind);
    match NextRef(view)
    case Stop =>
    case Skip(n) =>
      OverFrom(st.behind, n);
      assert st.out + view[..n] + view[n..] == st.out + view;
      AstrayIdle(Passed(st, n), goal, vars, maxlen);
    case Var(_, end, _) =>
      OverFrom(st.behind, end);
      assert st.out + view[..end] + view[end..] == st.out + view;
      AstrayIdle(Passed(st, end), goal, vars, maxlen);
  }

  /** Old text in which nothing known is met spoils the string, save by accident. */
  lemma OldTextSpoils(done: string, text: string, rest: string, vars: Vars, maxlen: nat)
    requires |done| + |text| + |rest| == maxlen + 1 && NUL in rest && NUL !in text
    requires Beyond(NextRef(View(text, rest)), |text|) && NoneKnown(View(text, rest), vars)
    ensures FateOf(done, text, rest, vars, maxlen) == Finished <==> Accident(text, Over(rest), vars)
  {
    hide NextRef, Over, Rewrite, NoneKnown;
    OverOfView(text, rest);
    AccidentExact(done, text, rest, vars, maxlen);
    ViewAgrees(text, Over(rest));
    assert text + [] == text;
    var st := Stray(done, text + rest, |done| + |text|, None);
    AstrayIdle(st, Rewrite(done, text, vars, maxlen), vars, maxlen);
  }

  lemma NothingLeft()
    ensures NextRef([]) == Stop
  {
  }

  lemma SamePrefix(a: string, b: string, c: string)
    ensures a + b == a + c <==> b == c
  {
    if a + b == a + c {
      assert b == (a + b)[|a|..] == (a + c)[|a|..] == c;
    }
  }

  predicate Cleared(rest: string)
  {
    forall i :: 0 <= i < |rest| ==> rest[i] == NUL
  }

  /** rest is stretches of the given lengths without a terminator, each followed by one, and is cleared
      from there on. */
  ghost predicate Patterned(rest: string, stretches: seq<nat>)
  {
    if stretches == [] then Cleared(rest)
    else
      var k := stretches[0];
      && k < |rest| && NUL !in rest[..k] && rest[k] == NUL && Patterned(rest[k + 1..], stretches[1..])
  }

  /** The stretches after a growth by g. */
  function Drop(stretches: seq<nat>, g: nat): seq<nat>
  {
    if stretches == [] then []
    else if g <= stretches[0] then [stretches[0] - g] + stretches[1..]
    else Drop(stretches[1..], g - stretches[0] - 1)
  }

  /** The stretches after a contraction by c. */
  function Push(stretches: seq<nat>, c: nat): seq<nat>
    requires c > 0
  {
    if stretches == [] then [0, c - 1] else [0, c - 1 + stretches[0]] + stretches[1..]
  }

  /** The string meant has no terminator. */
  predicate Lost(stretches: seq<nat>)
  {
    stretches != [] && stretches[0] > 0
  }

  lemma {:induction false} DropPatterned(rest: string, stretches: seq<nat>, g: nat)
    requires Patterned(rest, stretches) && g < |rest|
    ensures Patterned(rest[g..], Drop(stretches, g))
  {
    if stretches != [] {
      var k, left := stretches[0], stretches[1..];
      if g <= k {
        assert rest[g..][..k - g] == rest[g..k];
        assert forall x :: x in rest[g..k] ==> x in rest[..k];
        assert rest[g..][k - g + 1..] == rest[k + 1..];
        assert ([k - g] + left)[1..] == left;
      } else {
        DropPatterned(rest[k + 1..], left, g - k - 1);
        assert rest[k + 1..][g - k - 1..] == rest[g..];
      }
    }
  }

  /** The first stretch, and what comes after it. */
  lemma FirstStretch(rest: string, stretches: seq<nat>) returns (k: nat, left: seq<nat>)
    requires Patterned(rest, stretches) && rest != []
    ensures k < |rest| && NUL !in rest[..k] && rest[k] == NUL && Patterned(rest[k + 1..], left)
    ensures if stretches == [] then k == 0 && left == [] else [k] + left == stretches
  {
    if stretches == [] {
      k, left := 0, [];
    } else {
      k, left := stretches[0], stretches[1..];
    }
  }

  lemma PatternedCons(rest: string, k: nat, left: seq<nat>)
    requires k < |rest| && NUL !in rest[..k] && rest[k] == NUL && Patterned(rest[k + 1..], left)
    ensures Patterned(rest, [k] + left)
  {
    assert ([k] + left)[1..] == left;
  }

  /** Old text before rest lengthens its first stretch. */
  lemma StaleJoins(stale: string, rest: string, k: nat, left: seq<nat>)
    requires NUL !in stale
    requires k < |rest| && NUL !in rest[..k] && rest[k] == NUL && Patterned(rest[k + 1..], left)
    ensures Patterned(stale + rest, [|stale| + k] + left)
  {
    hide Patterned;
    assert (stale + rest)[..|stale| + k] == stale + rest[..k];
    assert (stale + rest)[|stale| + k + 1..] == rest[k + 1..];
    PatternedCons(stale + rest, |stale| + k, left);
  }

  lemma PushPatterned(done: string, text: string, rest: string, stretches: seq<nat>, newlen: nat)
    requires Patterned(rest, stretches) && NUL !in done + text && newlen < |done| + |text| && rest != []
    ensures Patterned(RestAfter(done, text, rest, newlen), Push(stretches, |done| + |text| - newlen))
  {
    hide Patterned;
    var k, left := FirstStretch(rest, stretches);
    var full, c := done + text, |done| + |text| - newlen;
    var stale := full[newlen + 1..];
    assert forall x :: x in stale ==> x in full;
    StaleJoins(stale, rest, k, left);
    TerminatorStarts(stale + rest, [c - 1 + k] + left);
    assert RestAfter(done, text, rest, newlen) == [NUL] + (stale + rest);
    assert Push(stretches, c) == [0] + ([c - 1 + k] + left);
  }

  lemma TerminatorStarts(behind: string, stretches: seq<nat>)
    requires Patterned(behind, stretches)
    ensures Patterned([NUL] + behind, [0] + stretches)
  {
    hide Patterned;
    var rest := [NUL] + behind;
    assert rest[1..] == behind && rest[..0] == [];
    PatternedCons(rest, 0, stretches);
  }

  lemma LostMeansOver(rest: string, stretches: seq<nat>)
    requires Patterned(rest, stretches) && rest != []
    ensures NUL in rest && (Lost(stretches) <==> Over(rest) != [])
  {
    hide Patterned;
    var k, left := FirstStretch(rest, stretches);
    assert rest[k] in rest;
    if k > 0 {
      assert rest[..k][0] == rest[0];
    }
  }

  // What the lengths of the values tell of a run: it ends with the rewriting, it does not, or they leave
  // it open.
  datatype Verdict = Right | Wrong | Open

  /** The verdict in a buffer cleared behind the string; used is the length of what is done. It is open
      where the terminator is lost as the text ends, or before a plain reference to a known variable at its
      end: then what is read goes on in old text, and it matters what that is. */
  function ByLengths(used: nat, text: string, stretches: seq<nat>, vars: Vars, maxlen: nat): Verdict
    decreases |text|
  {
    match NextRef(text)
    case Stop => if Lost(stretches) then Open else Right
    case Skip(n) => ByLengths(used + n, text[n..], stretches, vars, maxlen)
    case Var(at, end, name) =>
      if name !in vars then ByLengths(used + end, text[end..], stretches, vars, maxlen)
      else
        var len, size := |vars[name]|, end - at;
        if Lost(stretches) && end == |text| && size == |name| + 1 then Open
        else if len == size then Wrong
        else if len < size then ByLengths(used + at + len, text[end..], Push(stretches, size - len), vars, maxlen)
        else if used + |text| + len - size > maxlen then if Lost(stretches) then Wrong else Right
        else ByLengths(used + at + len, text[end..], Drop(stretches, len - size), vars, maxlen)
  }

  /** In a buffer cleared behind the string the lengths decide, where they do not leave it open: the run ends
      with the rewriting exactly when no value met has the length of its reference and the terminator is
      there in the end. Contractions leave stretches of old text behind it; it is lost when a longer value
      ends inside the latest of them, and there again when the values after it fill that stretch exactly, or
      with the next shorter value. */
  lemma {:induction false} LengthsDecide(done: string, text: string, rest: string, stretches: seq<nat>, vars: Vars,
                                         maxlen: nat)
    requires |done| + |text| + |rest| == maxlen + 1 && rest != [] && Patterned(rest, stretches)
    requires NUL !in done + text && forall n :: n in vars ==> NUL !in vars[n]
    requires ByLengths(|done|, text, stretches, vars, maxlen) != Open
    ensures NUL !in text
    ensures FateOf(done, text, rest, vars, maxlen) == Finished
       <==> ByLengths(|done|, text, stretches, vars, maxlen) == Right
    decreases |text|
  {
    hide NextRef, Over, RestAfter, Patterned, Lost, Drop, Push, FateAstray, Rewrite, View;
    hide Ahead, Cleared;
    var r, q := NextRef(View(text, rest)), NextRef(text);
    assert forall x :: x in text ==> x in done + text;
    ViewAgrees(text, Over(rest));
    ViewIs(text, rest);
    LostMeansOver(rest, stretches);
    if Beyond(r, |text|) {
      LeftOpen(|done|, text, rest, stretches, vars, maxlen);
      assert false;
    } else {
      match r
      case Stop =>
      case Skip(n) =>
        NothingLeft();
        assert done + text[..n] + text[n..] == done + text;
        LengthsDecide(done + text[..n], text[n..], rest, stretches, vars, maxlen);
      case Var(at, end, name) =>
        if name !in vars {
          assert done + text[..end] + text[end..] == done + text;
          LengthsDecide(done + text[..end], text[end..], rest, stretches, vars, maxlen);
        } else if |vars[name]| != end - at && !TooLong(done, text, at, end, vars[name], maxlen) {
          var val := vars[name];
          var done' := done + text[..at] + val;
          NoNul(done, text, at, end, val);
          if |val| < end - at {
            var newlen := |done'| + |text| - end;
            PushPatterned(done, text, rest, stretches, newlen);
            LengthsDecide(done', text[end..], RestAfter(done, text, rest, newlen), Push(stretches, end - at - |val|),
                          vars, maxlen);
          } else {
            var g := |val| - (end - at);
            DropPatterned(rest, stretches, g);
            LengthsDecide(done', text[end..], rest[g..], Drop(stretches, g), vars, maxlen);
          }
        }
    }
  }

  /** A run that reads beyond the end on record is one that the lengths leave open. */
  lemma LeftOpen(used: nat, text: string, rest: string, stretches: seq<nat>, vars: Vars, maxlen: nat)
    requires Lost(stretches) <==> Over(rest) != []
    requires Beyond(NextRef(View(text, rest)), |text|)
    ensures ByLengths(used, text, stretches, vars, maxlen) == Open
  {
    hide NextRef, Over, Drop, Push, Lost;
    ViewAgrees(text, Over(rest));
    assert text + [] == text;
    NothingLeft();
    if NextRef(text).Var? {
      assert text[NextRef(text).end..] == [];
    }
  }

  lemma NoNul(done: string, text: string, at: nat, end: nat, val: string)
    requires NUL !in done + text && NUL !in val && at < end <= |text|
    ensures NUL !in done + text[..at] + val + text[end..]
  {
    assert forall x :: x in text[..at] || x in text[end..] ==> x in text;
  }

  /** Values longer than any reference to them always work in a cleared buffer. */
  lemma {:induction false} GrowingFinishes(done: string, text: string, rest: string, vars: Vars, maxlen: nat)
    requires |done| + |text| + |rest| == maxlen + 1 && rest != [] && Cleared(rest) && NUL !in text
    requires forall n :: n in vars ==> |vars[n]| > |n| + 3
    ensures FateOf(done, text, rest, vars, maxlen) == Finished
    decreases |text|
  {
    hide NextRef;
    assert text + Over(rest) == text;
    match NextRef(text)
    case Stop =>
    case Skip(n) =>
      GrowingFinishes(done + text[..n], text[n..], rest, vars, maxlen);
    case Var(at, end, name) =>
      if name !in vars {
        GrowingFinishes(done + text[..end], text[end..], rest, vars, maxlen);
      } else if !TooLong(done, text, at, end, vars[name], maxlen) {
        RefLength(text);
        GrowingFinishes(done + text[..at] + vars[name], text[end..], rest[|vars[name]| - (end - at)..], vars, maxlen);
      }
  }

  /** Values shorter than any reference to them always work. */
  lemma {:induction false} ShrinkingFinishes(done: string, text: string, rest: string, vars: Vars, maxlen: nat)
    requires |done| + |text| + |rest| == maxlen + 1 && rest != [] && rest[0] == NUL && NUL !in text
    requires forall n :: n in vars ==> |vars[n]| <= |n|
    ensures FateOf(done, text, rest, vars, maxlen) == Finished
    decreases |text|
  {
    hide NextRef;
    assert text + Over(rest) == text;
    match NextRef(text)
    case Stop =>
    case Skip(n) =>
      ShrinkingFinishes(done + text[..n], text[n..], rest, vars, maxlen);
    case Var(at, end, name) =>
      if name !in vars {
        ShrinkingFinishes(done + text[..end], text[end..], rest, vars, maxlen);
      } else {
        RefLength(text);
        var done' := done + text[..at] + vars[name];
        ShrinkingFinishes(done', text[end..], RestAfter(done, text, rest, |done'| + |text| - end), vars, maxlen);
      }
  }

  /** A name after a dollar sign is read as far as it goes. */
  lemma PlainRef(name: string, after: string)
    requires name != [] && (forall c :: c in name ==> IsNameChar(c)) && (after != [] ==> !IsNameChar(after[0]))
    requires name[0] != '{'
    ensures NextRef("$" + name + after) == Var(0, |name| + 1, name)
  {
    var text := "$" + name + after;
    assert text[1..] == name + after && text[0..] == text;
    NameRunConcat(name, after);
    assert NameRun(name) == |name|;
    assert text[1..|name| + 1] == name;
  }

  /** In braces, up to the closing one. */
  lemma BracedRef(name: string, after: string)
    requires name != [] && '}' !in name
    ensures NextRef("${" + name + "}" + after) == Var(0, |name| + 3, name)
  {
    var text := "${" + name + "}" + after;
    assert text[2..] == name + ("}" + after) && text[0..] == text;
    IndexOfConcat(name, "}" + after, '}');
    assert text[2..|name| + 2] == name;
  }

  lemma NoDollar(text: string)
    requires '$' !in text
    ensures NextRef(text) == Stop
  {
  }

  const SMALL: set<char> := {
    'a', 'b', 'c', 'd', 'e', 'f', 'g', 'h', 'i', 'j', 'k', 'l', 'm',
    'n', 'o', 'p', 'q', 'r', 's', 't', 'u', 'v', 'w', 'x', 'y', 'z'
  }

  const CAPITALS: set<char> := {
    'A', 'B', 'C', 'D', 'E', 'F', 'G', 'H', 'I', 'J', 'K', 'L', 'M',
    'N', 'O', 'P', 'Q', 'R', 'S', 'T', 'U', 'V', 'W', 'X', 'Y', 'Z'
  }

  const DIGITS: set<char> := { '0', '1', '2', '3', '4', '5', '6', '7', '8', '9' }

  /** The characters names are made of. */
  const WORD: set<char> := {'_'} + SMALL + CAPITALS + DIGITS

  lemma WordLetters(c: char)
    ensures IsNameChar(c) <==> c in WORD
  {
    hide SMALL, CAPITALS, DIGITS;
    InSmall(c);
    InCapitals(c);
    InDigits(c);
  }

  lemma InSmall(c: char)
    ensures c in SMALL <==> 'a' <= c <= 'z'
  {
  }

  lemma InCapitals(c: char)
    ensures c in CAPITALS <==> 'A' <= c <= 'Z'
  {
  }

  lemma InDigits(c: char)
    ensures c in DIGITS <==> '0' <= c <= '9'
  {
  }

  /** What has been put out before only takes room. */
  lemma {:induction false} RewriteShifts(done: string, text: string, vars: Vars, maxlen: nat)
    requires |done| + |text| <= maxlen
    ensures Rewrite(done, text, vars, maxlen) == done + Rewrite([], text, vars, maxlen - |done|)
    decreases |text|, 0
  {
    hide NextRef;
    assert [] + text == text;
    match NextRef(text)
    case Stop =>
    case Skip(n) =>
      assert done + text[..n] == done + ([] + text[..n]);
      ShiftsBoth(done, [] + text[..n], text[n..], vars, maxlen);
    case Var(at, end, name) =>
      if name !in vars {
        assert done + text[..end] == done + ([] + text[..end]);
        ShiftsBoth(done, [] + text[..end], text[end..], vars, maxlen);
      } else if !TooLong(done, text, at, end, vars[name], maxlen) {
        var piece := [] + text[..at] + vars[name];
        assert done + text[..at] + vars[name] == done + piece;
        ShiftsBoth(done, piece, text[end..], vars, maxlen);
      }
  }

  lemma ShiftsBoth(done: string, piece: string, text: string, vars: Vars, maxlen: nat)
    requires |done| + |piece| + |text| <= maxlen
    ensures Rewrite(done + piece, text, vars, maxlen) == done + Rewrite(piece, text, vars, maxlen - |done|)
    decreases |text|, 1
  {
    hide Rewrite;
    RewriteShifts(done + piece, text, vars, maxlen);
    RewriteShifts(piece, text, vars, maxlen - |done|);
  }

  lemma AfterPrefix(prefix: string, ref: string)
    requires '$' !in prefix && |ref| > 1 && ref[0] == '$'
    ensures NextRef(prefix + ref) == Shifted(NextRef(ref), |prefix|)
  {
    hide RefHere;
    IndexOfConcat(prefix, ref, '$');
    assert (prefix + ref)[|prefix|..] == ref && ref[0..] == ref;
  }

  /** What becomes of the first reference of a text, ref: nothing if its variable is unknown; if the value
      is longer and does not fit, the rest is left alone; else the value takes its place. */
  ghost predicate Replaced(done: string, prefix: string, ref: string, name: string, after: string, vars: Vars,
                           maxlen: nat)
  {
    var text := prefix + ref + after;
    Rewrite(done, text, vars, maxlen) ==
      if name !in vars then Rewrite(done + prefix + ref, after, vars, maxlen)
      else if |vars[name]| > |ref| && |done| + |prefix| + |vars[name]| + |after| > maxlen then done + text
      else Rewrite(done + prefix + vars[name], after, vars, maxlen)
  }

  lemma RefReplaced(done: string, prefix: string, ref: string, name: string, after: string, vars: Vars, maxlen: nat)
    requires '$' !in prefix && |ref| > 1 && ref[0] == '$'
    requires NextRef(ref + after) == Var(0, |ref|, name)
    ensures Replaced(done, prefix, ref, name, after, vars, maxlen)
  {
    hide NextRef, Rewrite;
    var text := prefix + ref + after;
    AfterPrefix(prefix, ref + after);
    assert text == prefix + (ref + after);
    RewriteVar(done, text, |prefix|, |prefix| + |ref|, name, vars, maxlen);
    assert text[..|prefix|] == prefix && text[..|prefix| + |ref|] == prefix + ref;
    assert text[|prefix| + |ref|..] == after && done + (prefix + ref) == done + prefix + ref;
  }

  lemma RewriteVar(done: string, text: string, at: nat, end: nat, name: string, vars: Vars, maxlen: nat)
    requires NextRef(text) == Var(at, end, name)
    ensures at < end <= |text|
    ensures Rewrite(done, text, vars, maxlen) ==
      if name !in vars then Rewrite(done + text[..end], text[end..], vars, maxlen)
      else if TooLong(done, text, at, end, vars[name], maxlen) then done + text
      else Rewrite(done + text[..at] + vars[name], text[end..], vars, maxlen)
  {
    hide NextRef;
  }

  /** A dollar sign and the longest word after it are a reference. */
  lemma PlainReplaced(done: string, prefix: string, name: string, after: string, vars: Vars, maxlen: nat)
    requires '$' !in prefix && name != [] && forall c :: c in name ==> c in WORD
    requires after != [] ==> after[0] !in WORD
    ensures Replaced(done, prefix, "$" + name, name, after, vars, maxlen)
  {
    hide NextRef, Rewrite, WORD;
    forall c
      ensures IsNameChar(c) <==> c in WORD
    {
      WordLetters(c);
    }
    assert name[0] in name;
    PlainRef(name, after);
    RefReplaced(done, prefix, "$" + name, name, after, vars, maxlen);
  }

  /** So is whatever is enclosed in braces after a dollar sign, if it is not empty. */
  lemma BracedReplaced(done: string, prefix: string, name: string, after: string, vars: Vars, maxlen: nat)
    requires '$' !in prefix && name != [] && '}' !in name
    ensures Replaced(done, prefix, "${" + name + "}", name, after, vars, maxlen)
  {
    hide NextRef, Rewrite;
    BracedRef(name, after);
    RefReplaced(done, prefix, "${" + name + "}", name, after, vars, maxlen);
  }

  /** Nothing else is: a dollar sign before anything else is passed over, and so are empty braces. */
  lemma DollarPassed(done: string, prefix: string, after: string, vars: Vars, maxlen: nat)
    requires '$' !in prefix
    ensures after != [] && after[0] !in WORD && after[0] != '{' ==>
      Rewrite(done, prefix + "$" + after, vars, maxlen) == Rewrite(done + prefix + "$", after, vars, maxlen)
    ensures Rewrite(done, prefix + "${}" + after, vars, maxlen) == Rewrite(done + prefix + "${}", after, vars, maxlen)
  {
    hide NextRef, Rewrite, WORD;
    if after != [] && after[0] !in WORD && after[0] != '{' {
      WordLetters(after[0]);
      PassedOver(done, prefix, "$", after, vars, maxlen);
    }
    PassedOver(done, prefix, "${}", after, vars, maxlen);
  }

  lemma PassedOver(done: string, prefix: string, mark: string, after: string, vars: Vars, maxlen: nat)
    requires '$' !in prefix
    requires mark == "${}" || (mark == "$" && after != [] && !IsNameChar(after[0]) && after[0] != '{')
    ensures Rewrite(done, prefix + mark + after, vars, maxlen) == Rewrite(done + prefix + mark, after, vars, maxlen)
  {
    hide Rewrite;
    var text := prefix + mark + after;
    assert text == prefix + (mark + after);
    assert mark == "${}" ==> (mark + after)[2..] == "}" + after;
    assert mark == "$" ==> (mark + after)[1..] == after;
    assert NextRef(mark + after) == Skip(|mark|);
    AfterPrefix(prefix, mark + after);
    RewriteSkip(done, text, |prefix| + |mark|, vars, maxlen);
    assert text[..|prefix| + |mark|] == prefix + mark && text[|prefix| + |mark|..] == after;
    assert done + (prefix + mark) == done + prefix + mark;
  }

  lemma RewriteSkip(done: string, text: string, n: nat, vars: Vars, maxlen: nat)
    requires NextRef(text) == Skip(n)
    ensures n <= |text| && Rewrite(done, text, vars, maxlen) == Rewrite(done + text[..n], text[n..], vars, maxlen)
  {
    hide NextRef;
  }

  /** The rest is left alone without a dollar sign, at one at its end, and at braces that are not closed. */
  lemma NothingToReplace(done: string, prefix: string, after: string, vars: Vars, maxlen: nat)
    requires '$' !in prefix
    ensures Rewrite(done, prefix, vars, maxlen) == done + prefix
    ensures Rewrite(done, prefix + "$", vars, maxlen) == done + prefix + "$"
    ensures '}' !in after ==> Rewrite(done, prefix + "${" + after, vars, maxlen) == done + prefix + "${" + after
  {
    hide NextRef;
    NoDollar(prefix);
    DollarLast(prefix);
    assert done + (prefix + "$") == done + prefix + "$";
    if '}' !in after {
      var ref := "${" + after;
      OpenBraces(after);
      AfterPrefix(prefix, ref);
      assert prefix + "${" + after == prefix + ref && done + (prefix + ref) == done + prefix + "${" + after;
    }
  }

  lemma DollarLast(prefix: string)
    requires '$' !in prefix
    ensures NextRef(prefix + "$") == Stop
  {
    hide RefHere;
    IndexOfConcat(prefix, "$", '$');
  }

  lemma OpenBraces(after: string)
    requires '}' !in after
    ensures NextRef("${" + after) == Stop
  {
    var ref := "${" + after;
    assert ref[2..] == after && ref[0..] == ref;
  }

  lemma OverStale(stale: string, rest: string)
    requires NUL !in stale && rest != [] && rest[0] == NUL
    ensures Over(stale + rest) == stale && NUL in stale + rest
  {
    IndexOfConcat(stale, rest, NUL);
    assert (stale + rest)[|stale|] == NUL;
  }

  /** A value as long as its reference: the program never ends. */
  lemma SameLengthSticks(rest: string, maxlen: nat)
    requires maxlen + 1 == 2 + |rest| && rest != [] && rest[0] == NUL
    ensures FateOf([], "$a", rest, map["a" := "xy"], maxlen) == Stuck
    ensures Rewrite([], "$a", map["a" := "xy"], maxlen) == "xy"
  {
    hide NextRef;
    var text := "$a";
    PlainRef("a", []);
    NothingLeft();
    assert "$" + "a" + [] == text && text + Over(rest) == text;
    assert [] + text[..0] + "xy" == "xy" && text[2..] == [];
  }

  /** The three values of the examples below, after a name that is to vanish. */
  function Three(c: string, name: string, val: string): Vars
  {
    map["ab" := [], "c" := c, name := val]
  }

  /** One substitution, at a reference the text starts with. */
  lemma Substituted(done: string, text: string, rest: string, vars: Vars, maxlen: nat, end: nat, name: string)
    returns (rest': string)
    requires |done| + |text| + |rest| == maxlen + 1 && rest != [] && end <= |text| && NUL !in text
    requires NextRef(text) == NextRef(View(text, rest)) == Var(0, end, name) && name in vars
    requires |vars[name]| != end && !TooLong(done, text, 0, end, vars[name], maxlen)
    ensures var val := vars[name];
      rest' == if |val| > end then rest[|val| - end..] else RestAfter(done, text, rest, |done| + |text| + |val| - end)
    ensures |done + vars[name]| + |text[end..]| + |rest'| == maxlen + 1 && rest' != []
    ensures FateOf(done, text, rest, vars, maxlen) == FateOf(done + vars[name], text[end..], rest', vars, maxlen)
    ensures Rewrite(done, text, vars, maxlen) == Rewrite(done + vars[name], text[end..], vars, maxlen)
  {
    hide NextRef, View, RestAfter;
    var val := vars[name];
    assert done + text[..0] + val == done + val;
    rest' := if |val| > end then rest[|val| - end..]
      else RestAfter(done, text, rest, |done| + |text| + |val| - end);
  }

  /** The end of a run. */
  lemma Ended(done: string, rest: string, vars: Vars, maxlen: nat)
    requires |done| + |rest| == maxlen + 1 && rest != [] && rest[0] == NUL
    ensures FateOf(done, [], rest, vars, maxlen) == Finished && Rewrite(done, [], vars, maxlen) == done
  {
    hide NextRef, Over;
    OverStale([], rest);
    NothingLeft();
    assert [] + rest == rest && [] + Over(rest) == [] && done + [] == done;
  }

  /** A plain reference is the same with old text behind it. */
  lemma PlainBefore(name: string, after: string, stale: string, rest: string)
    requires name != [] && (forall c :: c in name ==> IsNameChar(c)) && name[0] != '{'
    requires after != [] ==> !IsNameChar(after[0])
    requires after == [] && stale != [] ==> !IsNameChar(stale[0])
    requires NUL !in stale && rest != [] && rest[0] == NUL
    ensures var text := "$" + name + after;
      NextRef(text) == NextRef(View(text, stale + rest)) == Var(0, |name| + 1, name)
  {
    hide NextRef, Over;
    OverStale(stale, rest);
    PlainRef(name, after);
    PlainRef(name, after + stale);
    assert "$" + name + (after + stale) == "$" + name + after + stale;
  }

  /** One substitution, at a plain reference. */
  lemma PlainStep(done: string, name: string, after: string, stale: string, rest: string, vars: Vars, maxlen: nat)
    returns (rest': string)
    requires name != [] && (forall c :: c in name ==> IsNameChar(c)) && name[0] != '{' && name in vars
    requires after != [] ==> !IsNameChar(after[0])
    requires after == [] && stale != [] ==> !IsNameChar(stale[0])
    requires NUL !in stale && rest != [] && rest[0] == NUL && NUL !in "$" + name + after
    requires |done| + |name| + 1 + |after| + |stale| + |rest| == maxlen + 1
    requires |vars[name]| != |name| + 1 && |done| + |after| + |vars[name]| <= maxlen
    ensures var val, text := vars[name], "$" + name + after;
      rest' == if |val| > |name| + 1 then (stale + rest)[|val| - |name| - 1..]
               else RestAfter(done, text, stale + rest, |done| + |after| + |val|)
    ensures |done + vars[name]| + |after| + |rest'| == maxlen + 1 && rest' != [] && NUL !in after
    ensures FateOf(done, "$" + name + after, stale + rest, vars, maxlen)
         == FateOf(done + vars[name], after, rest', vars, maxlen)
    ensures Rewrite(done, "$" + name + after, vars, maxlen) == Rewrite(done + vars[name], after, vars, maxlen)
  {
    hide NextRef, View, FateOf, Rewrite, RestAfter;
    var text := "$" + name + after;
    PlainBefore(name, after, stale, rest);
    assert text[|name| + 1..] == after;
    assert forall x :: x in after ==> x in text;
    rest' := Substituted(done, text, stale + rest, vars, maxlen, |name| + 1, name);
  }

  /** A reference $ab that vanishes leaves its stretch of old text behind the terminator. */
  lemma Vanished(next: string, rest: string, vars: Vars, maxlen: nat)
    requires next != [] && !IsNameChar(next[0]) && NUL !in next && rest != [] && rest[0] == NUL
    requires "ab" in vars && vars["ab"] == [] && maxlen + 1 == 3 + |next| + |rest|
    ensures var text := "$ab" + next;
      && FateOf([], text, rest, vars, maxlen) == FateOf([], next, [NUL] + text[|text| - 2..] + rest, vars, maxlen)
      && Rewrite([], text, vars, maxlen) == Rewrite([], next, vars, maxlen)
  {
    hide NextRef, Over, FateOf, Rewrite;
    var text := "$ab" + next;
    PlainRef("ab", next);
    OverStale([], rest);
    assert "$" + "ab" + next == text && [] + rest == rest && text + [] == text;
    var gap := Substituted([], text, rest, vars, maxlen, 3, "ab");
    assert text[3..] == next && [] + vars["ab"] == [] && [] + text == text;
    assert gap == [NUL] + text[|text| - 2..] + rest;
  }

  /** A reference $c that grows into the stretch. */
  lemma Grown(after: string, stale: string, rest: string, vars: Vars, maxlen: nat)
    requires (after != [] ==> !IsNameChar(after[0])) && "c" in vars && 3 <= |vars["c"]| <= 5 && |stale| == 2
    requires maxlen + 1 == 5 + |after| + |rest| && rest != [] && NUL !in after
    ensures var next, gap, c := "$c" + after, [NUL] + stale + rest, vars["c"];
      && |next| + |gap| == maxlen + 1 && |c| + |after| + |gap[|c| - 2..]| == maxlen + 1 && gap[|c| - 2..] != []
      && FateOf([], next, gap, vars, maxlen) == FateOf(c, after, gap[|c| - 2..], vars, maxlen)
      && Rewrite([], next, vars, maxlen) == Rewrite(c, after, vars, maxlen)
  {
    hide NextRef, Over, FateOf, Rewrite;
    var gap := [NUL] + stale + rest;
    assert "$" + "c" + after == "$c" + after && [] + gap == gap && [] + vars["c"] == vars["c"];
    var left := PlainStep([], "c", after, [], gap, vars, maxlen);
  }

  /** The beginning the examples share: a shorter value leaves its stretch of old text, and a longer one
      ends inside it or at its end. */
  lemma ShrinkThenGrow(c: string, name: string, val: string, after: string, rest: string, maxlen: nat)
    requires 3 <= |c| <= 5 && name !in ["ab", "c"] && (after != [] ==> !IsNameChar(after[0]))
    requires maxlen + 1 == 5 + |after| + |rest| && rest != [] && rest[0] == NUL && NUL !in after
    ensures var text, vars := "$ab$c" + after, Three(c, name, val);
      && FateOf([], text, rest, vars, maxlen) == FateOf(c, after, text[|text| - 5 + |c|..] + rest, vars, maxlen)
      && Rewrite([], text, vars, maxlen) == Rewrite(c, after, vars, maxlen)
  {
    hide NextRef, Over, FateOf, Rewrite;
    var text, vars, next := "$ab$c" + after, Three(c, name, val), "$c" + after;
    Vanished(next, rest, vars, maxlen);
    assert "$ab" + next == text;
    var stale := text[|text| - 2..];
    Grown(after, stale, rest, vars, maxlen);
    assert ([NUL] + stale + rest)[|c| - 2..] == text[|text| - 5 + |c|..] + rest;
  }

  /** Lost and regained: a shorter value writes the terminator again. */
  lemma RegainedByShrinking(rest: string, maxlen: nat)
    requires maxlen + 1 == 9 + |rest| && rest != [] && rest[0] == NUL
    ensures FateOf([], "$ab$c${d}", rest, Three("xyz", "d", []), maxlen) == Finished
    ensures Rewrite([], "$ab$c${d}", Three("xyz", "d", []), maxlen) == "xyz"
  {
    hide NextRef, Over, FateOf, Rewrite;
    var after, vars := "${d}", Three("xyz", "d", []);
    ShrinkThenGrow("xyz", "d", [], after, rest, maxlen);
    assert "$ab$c" + after == "$ab$c${d}" && "$ab$c${d}"[7..] == "d}";
    BracedBefore("d", "d}", rest);
    assert "${" + "d" + "}" == after;
    var last := Substituted("xyz", after, "d}" + rest, vars, maxlen, 4, "d");
    assert after[4..] == [] && "xyz" + vars["d"] == "xyz";
    Ended("xyz", last, vars, maxlen);
  }

  /** A reference in braces is the same with old text behind it. */
  lemma BracedBefore(name: string, stale: string, rest: string)
    requires name != [] && '}' !in name && NUL !in stale && rest != [] && rest[0] == NUL
    ensures var text := "${" + name + "}";
      NextRef(text) == NextRef(View(text, stale + rest)) == Var(0, |name| + 3, name)
  {
    hide NextRef, Over;
    OverStale(stale, rest);
    BracedRef(name, []);
    BracedRef(name, stale);
    assert "${" + name + "}" + [] == "${" + name + "}";
  }

  /** Lost and regained: a second longer value fills the stretch exactly. */
  lemma RegainedByGrowing(rest: string, maxlen: nat)
    requires maxlen + 1 == 9 + |rest| && rest != [] && rest[0] == NUL
    ensures FateOf([], "$ab$c${e}", rest, Three("xyz", "e", "uvwxyz"), maxlen) == Finished
    ensures Rewrite([], "$ab$c${e}", Three("xyz", "e", "uvwxyz"), maxlen) == "xyzuvwxyz"
  {
    hide NextRef, Over, FateOf, Rewrite;
    var after, vars := "${e}", Three("xyz", "e", "uvwxyz");
    ShrinkThenGrow("xyz", "e", "uvwxyz", after, rest, maxlen);
    assert "$ab$c" + after == "$ab$c${e}" && "$ab$c${e}"[7..] == "e}";
    BracedBefore("e", "e}", rest);
    assert "${" + "e" + "}" == after;
    var last := Substituted("xyz", after, "e}" + rest, vars, maxlen, 4, "e");
    assert ("e}" + rest)[2..] == rest && after[4..] == [] && "xyz" + vars["e"] == "xyzuvwxyz";
    Ended("xyzuvwxyz", rest, vars, maxlen);
  }

  /** Lost for good: old text is left at the end of the string, even in a buffer cleared beforehand. */
  lemma GrowthAfterShrinkingSpoils(rest: string, maxlen: nat)
    requires maxlen + 1 == 6 + |rest| && rest != [] && rest[0] == NUL
    ensures FateOf([], "$ab$c.", rest, Three("xyz", "d", []), maxlen) == Spoiled
    ensures Rewrite([], "$ab$c.", Three("xyz", "d", []), maxlen) == "xyz."
  {
    hide NextRef, Over;
    var text := "$ab$c.";
    ShrinkThenGrow("xyz", "d", [], ".", rest, maxlen);
    assert "$ab$c" + "." == text && text[4..] == "c.";
    OverStale("c.", rest);
    NoDollar(".");
    NoDollar("." + "c.");
  }

  /** Where the text is done, a run that reads old text starts to go astray. */
  lemma OldTextOnly(done: string, rest: string, vars: Vars, maxlen: nat) returns (st: Stray)
    requires |done| + |rest| == maxlen + 1 && rest != [] && !NextRef(Over(rest)).Stop?
    ensures st == Stray(done, rest, |done|, None) && Ahead(st, maxlen)
    ensures FateOf(done, [], rest, vars, maxlen) == FateAstray(st, done, vars, maxlen)
  {
    hide NextRef, Over, FateAstray, TurnAstray;
    st := Stray(done, rest, |done|, None);
    OverOfView([], rest);
    assert [] + rest == rest && [] + Over(rest) == Over(rest);
    NothingMeant(done, vars, maxlen);
  }

  /** One substitution there. */
  lemma AstrayTurns(st: Stray, view: string, at: nat, end: nat, name: string, goal: string, vars: Vars, maxlen: nat)
    returns (st': Stray)
    requires Ahead(st, maxlen) && Over(st.behind) == view && NextRef(view) == Var(at, end, name) && name in vars
    requires NUL in st.behind || !Touches(NextRef(view), |view|)
    requires |vars[name]| != end - at && at + |vars[name]| <= |st.behind|
    requires 0 <= st.len + |vars[name]| - (end - at) <= maxlen
    ensures at < end <= |view| && st' == Overwritten(st, at, end, vars[name]) && Ahead(st', maxlen)
    ensures FateAstray(st, goal, vars, maxlen) == FateAstray(st', goal, vars, maxlen)
  {
    hide NextRef, Over, Overwritten, Left;
    st' := Overwritten(st, at, end, vars[name]);
    assert TurnAstray(st, vars, maxlen) == Goes(st');
    TurnKeeps(st, vars, maxlen);
  }

  /** The end of a run there. */
  lemma AstrayEnds(st: Stray, goal: string, vars: Vars, maxlen: nat)
    requires Ahead(st, maxlen) && |st.out| > st.len && st.behind != [] && st.behind[0] == NUL
    ensures FateAstray(st, goal, vars, maxlen) == Finished
       <==> goal == if st.cut.Some? then st.out[..st.cut.value] else st.out
  {
    hide NextRef, Over;
    OverStale([], st.behind);
    NothingLeft();
    assert [] + st.behind == st.behind && st.out + [] == st.out;
  }

  /** Old text read as a reference: its value is written behind the string. */
  lemma GrowthAfterShrinkingOverreaches(rest: string, maxlen: nat)
    requires maxlen + 1 == 5 + |rest| && |rest| > 1 && Cleared(rest)
    ensures FateOf([], "$ab$c", rest, Three("xyz", "d", []), maxlen) != Finished
    ensures Rewrite([], "$ab$c", Three("xyz", "d", []), maxlen) == "xyz"
  {
    hide NextRef, Over, FateOf, FateAstray, Rewrite;
    var vars := Three("xyz", "d", []);
    ShrinkThenGrow("xyz", "d", [], [], rest, maxlen);
    assert "$ab$c" + [] == "$ab$c" && "$ab$c"[3..] == "$c";
    NothingMeant("xyz", vars, maxlen);
    AstrayCopy(rest, vars, maxlen);
  }

  lemma NothingMeant(done: string, vars: Vars, maxlen: nat)
    ensures Rewrite(done, [], vars, maxlen) == done
  {
    NothingLeft();
    assert done + [] == done;
  }

  lemma AstrayCopy(rest: string, vars: Vars, maxlen: nat)
    requires maxlen + 1 == 5 + |rest| && |rest| > 1 && Cleared(rest) && "c" in vars && vars["c"] == "xyz"
    ensures FateOf("xyz", [], "$c" + rest, vars, maxlen) != Finished
  {
    hide NextRef, Over, FateOf, FateAstray, TurnAstray;
    OverStale("$c", rest);
    PlainRef("c", []);
    assert "$" + "c" + [] == "$c";
    var st := OldTextOnly("xyz", "$c" + rest, vars, maxlen);
    var st1 := AstrayTurns(st, "$c", 0, 2, "c", "xyz", vars, maxlen);
    assert st1.behind == rest[1..];
    AstrayEnds(st1, "xyz", vars, maxlen);
  }

  /** Right by accident: the name x goes on in old text as xx, which is unknown, and the two together spell
      the value of x. */
  lemma RightByAccident(rest: string, maxlen: nat)
    requires maxlen + 1 == 7 + |rest| && rest != [] && rest[0] == NUL
    ensures FateOf([], "$ab$c$x", rest, Three("wxyz", "x", "$xx"), maxlen) == Finished
    ensures Rewrite([], "$ab$c$x", Three("wxyz", "x", "$xx"), maxlen) == "wxyz$xx"
  {
    hide NextRef, Over;
    var after, vars := "$x", Three("wxyz", "x", "$xx");
    assert "$ab$c" + after == "$ab$c$x" && "$ab$c$x"[6..] == "x";
    ShrinkThenGrow("wxyz", "x", "$xx", after, rest, maxlen);
    AccidentAt(rest, vars, maxlen);
  }

  lemma AccidentAt(rest: string, vars: Vars, maxlen: nat)
    requires vars == Three("wxyz", "x", "$xx")
    requires maxlen + 1 == 7 + |rest| && rest != [] && rest[0] == NUL
    ensures FateOf("wxyz", "$x", "x" + rest, vars, maxlen) == Finished
    ensures Rewrite("wxyz", "$x", vars, maxlen) == "wxyz$xx"
  {
    hide NextRef, Over, FateOf;
    OverStale("x", rest);
    PlainRef("x", []);
    PlainRef("xx", []);
    NothingLeft();
    assert "$" + "x" + [] == "$x" && "$" + "xx" + [] == "$xx" && "$x" + "x" == "$xx" && "$x"[0..] == "$x";
    assert "$xx"[3..] == [] && "$x"[2..] == [] && "wxyz" + "$x"[..0] + "$xx" == "wxyz$xx";
    OldTextSpoils("wxyz", "$x", "x" + rest, vars, maxlen);
  }

  /** The three values of the example below. */
  const TWICE: Vars := map["xx" := [], "p" := "$xa", "c" := "a"]

  /** Right after all: the terminator is lost in the end, old text is substituted behind the string, and
      a shorter value among it writes the terminator where it belongs. */
  lemma RightAfterAll(rest: string, maxlen: nat)
    requires maxlen + 1 == 14 + |rest| && |rest| > 1 && Cleared(rest)
    ensures FateOf([], "${xx}$xx$p$c$p", rest, TWICE, maxlen) == Finished
    ensures Rewrite([], "${xx}$xx$p$c$p", TWICE, maxlen) == "$xaa$xa"
  {
    hide NextRef, Over, FateOf, FateAstray, Rewrite, RestAfter;
    var gap := TwiceVanished(rest, maxlen);
    assert gap[..9] == [NUL] + "$p" + [NUL] + "$c$p" + [NUL];
    TwiceMeant(gap, maxlen);
    assert gap[1..] == "$p" + [NUL] + "$c$p" + rest;
    NothingMeant("$xaa$xa", TWICE, maxlen);
    TwiceAstray(rest, maxlen);
  }

  lemma StaleIs(done: string, text: string, rest: string, newlen: nat, stale: string)
    requires newlen < |done| + |text| && (done + text)[newlen + 1..] == stale
    ensures RestAfter(done, text, rest, newlen) == [NUL] + (stale + rest)
  {
  }

  /** Two contractions leave two stretches of old text. */
  lemma TwiceVanished(rest: string, maxlen: nat) returns (gap: string)
    requires maxlen + 1 == 14 + |rest| && |rest| > 1 && Cleared(rest)
    ensures gap == [NUL] + "$p" + [NUL] + "$c$p" + rest && 6 + |gap| == maxlen + 1
    ensures FateOf([], "${xx}$xx$p$c$p", rest, TWICE, maxlen) == FateOf([], "$p$c$p", gap, TWICE, maxlen)
    ensures Rewrite([], "${xx}$xx$p$c$p", TWICE, maxlen) == Rewrite([], "$p$c$p", TWICE, maxlen)
  {
    hide NextRef, Over, FateOf, Rewrite, View, RestAfter;
    var next := "$xx$p$c$p";
    var first := OnceVanished(rest, maxlen);
    StaleIs([], next, first, 6, "$p");
    assert "$" + "xx" + "$p$c$p" == next && [] + first == first && [] + TWICE["xx"] == [];
    gap := PlainStep([], "xx", "$p$c$p", [], first, TWICE, maxlen);
  }

  lemma OnceVanished(rest: string, maxlen: nat) returns (gap: string)
    requires maxlen + 1 == 14 + |rest| && |rest| > 1 && Cleared(rest)
    ensures gap == [NUL] + ("$c$p" + rest) && 9 + |gap| == maxlen + 1
    ensures FateOf([], "${xx}$xx$p$c$p", rest, TWICE, maxlen) == FateOf([], "$xx$p$c$p", gap, TWICE, maxlen)
    ensures Rewrite([], "${xx}$xx$p$c$p", TWICE, maxlen) == Rewrite([], "$xx$p$c$p", TWICE, maxlen)
  {
    hide NextRef, Over, FateOf, Rewrite, RestAfter;
    var text, next := "${xx}$xx$p$c$p", "$xx$p$c$p";
    OverStale([], rest);
    BracedRef("xx", next);
    assert "${" + "xx" + "}" + next == text && [] + rest == rest && text + [] == text;
    StaleIs([], text, rest, 9, "$c$p");
    assert text[5..] == next && [] + TWICE["xx"] == [];
    gap := Substituted([], text, rest, TWICE, maxlen, 5, "xx");
  }

  /** The three references meant. */
  lemma TwiceMeant(gap: string, maxlen: nat)
    requires |gap| > 9 && gap[..9] == [NUL] + "$p" + [NUL] + "$c$p" + [NUL] && 6 + |gap| == maxlen + 1
    ensures FateOf([], "$p$c$p", gap, TWICE, maxlen) == FateOf("$xaa$xa", [], gap[1..], TWICE, maxlen)
    ensures Rewrite([], "$p$c$p", TWICE, maxlen) == Rewrite("$xaa$xa", [], TWICE, maxlen)
  {
    hide NextRef, Over, FateOf, Rewrite, View, RestAfter;
    var lost, behind := gap[1..], gap[3..];
    assert gap[0] == gap[..9][0] && gap[3] == gap[..9][3] && gap[1..3] == gap[..9][1..3] == "$p";
    assert lost == gap[1..3] + behind;
    FirstMeant(gap, maxlen);
    var back := SecondMeant(behind, maxlen);
    LastMeant(back, lost, maxlen);
  }

  lemma FirstMeant(gap: string, maxlen: nat)
    requires |gap| > 9 && gap[0] == NUL && 6 + |gap| == maxlen + 1
    ensures FateOf([], "$p$c$p", gap, TWICE, maxlen) == FateOf("$xa", "$c$p", gap[1..], TWICE, maxlen)
    ensures Rewrite([], "$p$c$p", TWICE, maxlen) == Rewrite("$xa", "$c$p", TWICE, maxlen)
  {
    hide NextRef, Over, FateOf, Rewrite, View, RestAfter;
    assert [] + gap == gap && "$" + "p" + "$c$p" == "$p$c$p" && [] + TWICE["p"] == "$xa";
    var lost := PlainStep([], "p", "$c$p", [], gap, TWICE, maxlen);
  }

  lemma SecondMeant(behind: string, maxlen: nat) returns (back: string)
    requires behind != [] && behind[0] == NUL && 9 + |behind| == maxlen + 1
    ensures back == RestAfter("$xa", "$c$p", "$p" + behind, 6) && 6 + |back| == maxlen + 1
    ensures FateOf("$xa", "$c$p", "$p" + behind, TWICE, maxlen) == FateOf("$xaa", "$p", back, TWICE, maxlen)
    ensures Rewrite("$xa", "$c$p", TWICE, maxlen) == Rewrite("$xaa", "$p", TWICE, maxlen)
  {
    hide NextRef, Over, FateOf, Rewrite, View, RestAfter;
    assert "$" + "c" + "$p" == "$c$p" && "$xa" + TWICE["c"] == "$xaa";
    back := PlainStep("$xa", "c", "$p", "$p", behind, TWICE, maxlen);
  }

  lemma LastMeant(back: string, lost: string, maxlen: nat)
    requires back == RestAfter("$xa", "$c$p", lost, 6) && 6 + |back| == maxlen + 1 && lost != []
    ensures FateOf("$xaa", "$p", back, TWICE, maxlen) == FateOf("$xaa$xa", [], lost, TWICE, maxlen)
    ensures Rewrite("$xaa", "$p", TWICE, maxlen) == Rewrite("$xaa$xa", [], TWICE, maxlen)
  {
    hide NextRef, Over, FateOf, Rewrite, View, RestAfter;
    StaleIs("$xa", "$c$p", lost, 6, []);
    assert [] + lost == lost && [] + back == back && "$" + "p" + [] == "$p" && "$xaa" + TWICE["p"] == "$xaa$xa";
    var again := PlainStep("$xaa", "p", [], [], back, TWICE, maxlen);
  }

  /** The three references in old text; the second writes a terminator at the end of what was meant. */
  lemma TwiceAstray(rest: string, maxlen: nat)
    requires maxlen + 1 == 14 + |rest| && |rest| > 1 && Cleared(rest)
    ensures FateOf("$xaa$xa", [], "$p" + [NUL] + "$c$p" + rest, TWICE, maxlen) == Finished
  {
    hide NextRef, Over, FateOf, FateAstray, TurnAstray;
    var goal, behind := "$xaa$xa", "$p" + [NUL] + "$c$p" + rest;
    PlainRef("p", []);
    OverStale("$p", behind[2..]);
    assert "$" + "p" + [] == "$p" && behind == "$p" + behind[2..];
    var st := OldTextOnly(goal, behind, TWICE, maxlen);
    var st1 := AstrayTurns(st, "$p", 0, 2, "p", goal, TWICE, maxlen);
    assert st1.behind == "$c$p" + rest;
    PlainRef("c", "$p");
    assert "$" + "c" + "$p" == "$c$p";
    OverStale("$c$p", rest);
    var st2 := AstrayTurns(st1, "$c$p", 0, 2, "c", goal, TWICE, maxlen);
    TwiceEnds(st2, rest, goal, maxlen);
  }

  lemma TwiceEnds(st: Stray, rest: string, goal: string, maxlen: nat)
    requires Ahead(st, maxlen) && |rest| > 1 && Cleared(rest) && |goal| == 7
    requires st.behind[..] == "c$p" + rest && st.len == 7 && st.cut == Some(7) && |st.out| > 7 && st.out[..7] == goal
    ensures FateAstray(st, goal, TWICE, maxlen) == Finished
  {
    hide NextRef, Over, FateAstray, TurnAstray;
    assert st.behind[..] == st.behind;
    LetterFirst();
    OverStale("c$p", rest);
    var st1 := AstrayTurns(st, "c$p", 1, 3, "p", goal, TWICE, maxlen);
    assert st1.behind == rest[1..] && st1.out[..7] == goal;
    AstrayEnds(st1, goal, TWICE, maxlen);
  }

  lemma LetterFirst()
    ensures NextRef("c$p") == Var(1, 3, "p")
  {
    var text := "c$p";
    PlainRef("p", []);
    assert text[1..] == "$p" == "$" + "p" + [] && "$p"[0..] == "$p" && "$p"[1..] == "p";
  }

  const BEHIND: Vars := map["a" := "aaa", "b" := ".baab.", "c" := []]

  /** Right without any terminator: behind the text the buffer holds two references and nothing more. The
      last of them is met with no room left before it, where the program gives up. */
  lemma RightInFullBuffer()
    ensures FateOf([], "$a", [NUL] + "$b${c}${c}", BEHIND, 12) == Finished
    ensures Rewrite([], "$a", BEHIND, 12) == "aaa"
  {
    hide NextRef, Over, FateOf, FateAstray, Rewrite, RestAfter;
    var rest := [NUL] + "$b${c}${c}";
    assert "$" + "a" + [] == "$a" && [] + rest == rest && [] + BEHIND["a"] == "aaa" && NUL !in "$a";
    var lost := PlainStep([], "a", [], [], rest, BEHIND, 12);
    assert lost == "$b${c}${c}";
    NothingMeant("aaa", BEHIND, 12);
    FullBufferAstray();
  }

  lemma FullBufferAstray()
    ensures FateOf("aaa", [], "$b${c}${c}", BEHIND, 12) == Finished
  {
    hide NextRef, Over, FateOf, FateAstray, TurnAstray;
    var behind, last := "$b${c}${c}", "${c}";
    assert NUL !in behind && NUL !in last;
    AllOver(behind);
    AllOver(last);
    PlainRef("b", "${c}${c}");
    BracedRef("c", []);
    assert "$" + "b" + "${c}${c}" == behind && "${" + "c" + "}" + [] == last;
    var st := OldTextOnly("aaa", behind, BEHIND, 12);
    var st1 := AstrayTurns(st, behind, 0, 2, "b", "aaa", BEHIND, 12);
    assert st1.behind == last;
    var st2 := AstrayTurns(st1, last, 0, 4, "c", "aaa", BEHIND, 12);
    assert st2.behind == last && st2.out[..3] == "aaa";
    GivesUp(st2);
  }

  lemma AllOver(rest: string)
    requires NUL !in rest
    ensures Over(rest) == rest
  {
  }

  lemma GivesUp(st: Stray)
    requires Ahead(st, 12) && st.behind == "${c}" && st.len == 3 && st.cut == Some(3) && st.out[..3] == "aaa"
    ensures FateAstray(st, "aaa", BEHIND, 12) == Finished
  {
    hide NextRef, Over;
    assert NUL !in "${c}";
    AllOver("${c}");
    BracedRef("c", []);
    assert "${" + "c" + "}" + [] == "${c}";
  }
}
