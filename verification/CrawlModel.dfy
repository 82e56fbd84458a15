/** What a crawl of the dependencies works out, apart from the heap: dependency strings, the names that
    answer them, and the closure of the targets. */
module CrawlModel {
  import opened Probing
  import opened Sequences
  import opened PackageDb

  /** Cuts a dependency at its first '>', else at its first '<', else at its first '='. */
  function ChompVersion(s: string): string
  {
    if '>' in s then s[..IndexOf(s, '>')]
    else if '<' in s then s[..IndexOf(s, '<')]
    else s[..IndexOf(s, '=')]
  }

  predicate Plain(n: string)
  {
    '>' !in n && '<' !in n && '=' !in n
  }

  lemma {:induction false} FindSkips(a: string, c: char, b: string)
    requires c !in a
    ensures IndexOf(a + b, c) == |a| + IndexOf(b, c)
  {
    if a == [] {
      assert a + b == b;
    } else {
      assert (a + b)[1..] == a[1..] + b;
      assert (a + b)[0] == a[0] && a[0] in a;
      FindSkips(a[1..], c, b);
    }
  }

  /** A versioned dependency loses exactly its version, unless a '<' or '=' is followed by a stronger
      mark, at which the cut is then made. */
  lemma ChompsVersion(n: string, op: char, version: string)
    requires Plain(n) && op in ['>', '<', '=']
    ensures ChompVersion(n + [op] + version) == n <==>
      op == '>' || ('>' !in version && (op == '<' || '<' !in version))
  {
    var s := n + ([op] + version);
    assert s == n + [op] + version;
    FindSkips(n, '>', [op] + version);
    FindSkips(n, '<', [op] + version);
    FindSkips(n, '=', [op] + version);
    assert ([op] + version)[1..] == version;
    assert s[..|n|] == n;
  }

  /** What is cut is what follows the first of the strongest marks in the string, with the mark. */
  lemma ChompsAtStrongest(head: string, op: char, tail: string)
    requires op in ['>', '<', '='] && op !in head
    requires op != '>' ==> '>' !in head + tail
    requires op == '=' ==> '<' !in head + tail
    ensures ChompVersion(head + [op] + tail) == head
  {
    var s := head + ([op] + tail);
    assert s == head + [op] + tail;
    FindSkips(head, op, [op] + tail);
    assert forall c :: c in s <==> c in head + tail || c == op;
    assert s[..|head|] == head;
  }

  lemma ChompsNothing(n: string)
    requires Plain(n)
    ensures ChompVersion(n) == n
  {
  }

  function ChompAll(depends: seq<string>): (r: seq<string>)
    ensures |r| == |depends| && forall i :: 0 <= i < |r| ==> r[i] == ChompVersion(depends[i])
  {
    seq(|depends|, i requires 0 <= i < |depends| => ChompVersion(depends[i]))
  }

  /** The dependencies read from a build script, none where there is no script. */
  function ScriptDeps(repo: map<string, seq<string>>, name: string): seq<string>
  {
    if name in repo then repo[name] else []
  }

  /** The names a package's own database entry or build script says it depends on. */
  ghost function DepNames(s: Static, repo: map<string, seq<string>>, st: State, name: string, lvl: Level): seq<string>
    requires name in st.pkgFrom && OriginsTrue(s, st)
  {
    match st.pkgFrom[name]
    case FromLocal => assert OriginTrue(s, st, name, FromLocal); ChompAll(s.local[name].depends)
    case FromSync => assert OriginTrue(s, st, name, FromSync); ChompAll(s.sync[name].depends)
    case FromAur => if UpToDate(s, st, name, lvl) then ChompAll(s.aur[name].depends) else ScriptDeps(repo, name)
  }

  /** The program has to fetch this name: an AUR package out of date, or any at the thorough level, or a name
      that nothing installed and nothing in the repositories answers. */
  predicate Fetches(s: Static, outdated: set<string>, lvl: Level, n: string)
  {
    if n in s.aur then lvl == Thorough || n in outdated else n !in s.local && Search(s, n).None?
  }

  /** A normalisation fails only at a name to be fetched. */
  lemma FailureFetches(s: Static, st: State, name: string, lvl: Level, st': State)
    requires Built(s) && OriginsTrue(s, st) && Normalized(s, st, name, lvl, st', None)
    ensures Fetches(s, st.outdated, lvl, name)
  {
    if name in st.pkgFrom {
      assert OriginTrue(s, st, name, st.pkgFrom[name]);
    }
  }

  /** The packages whose dependencies are read from a build script are those to be fetched. */
  lemma ScriptsAreFetched(s: Static, st: State, name: string, lvl: Level)
    requires Built(s) && OriginsTrue(s, st) && name in st.pkgFrom
    ensures st.pkgFrom[name] == FromAur && !UpToDate(s, st, name, lvl) <==> Fetches(s, st.outdated, lvl, name)
  {
    assert OriginTrue(s, st, name, st.pkgFrom[name]);
  }

  /** p is where the plain search leads from the name; or the name itself, once it is hidden. */
  ghost predicate Answers(s: Static, st: State, name: string, p: string)
  {
    p == PlainAnswer(s, name) || (p == name && Hidden(s, st, name))
  }

  lemma NormalizedAnswers(s: Static, st: State, name: string, lvl: Level, st': State, r: Option<string>)
    requires Built(s) && OriginsTrue(s, st) && Normalized(s, st, name, lvl, st', r) && r.Some?
    ensures Answers(s, st, name, r.value)
  {
    if name in st.pkgFrom {
      assert OriginTrue(s, st, name, st.pkgFrom[name]);
    }
  }

  lemma AnswersLater(s: Static, st: State, st': State, name: string, p: string)
    requires Answers(s, st, name, p) && Extends(st, st')
    ensures Answers(s, st', name, p)
  {
  }

  /** Every name the tables, their dependencies and the build scripts mention. */
  ghost function Words(s: Static, repo: map<string, seq<string>>): set<string>
  {
    s.local.Keys + s.sync.Keys + s.aur.Keys + repo.Keys
    + DependsOf(s.local) + DependsOf(s.sync) + DependsOf(s.aur)
    + set n, d | n in repo && d in repo[n] :: d
  }

  ghost function DependsOf(table: map<string, Pkg>): set<string>
  {
    set n, d | n in table && d in table[n].depends :: ChompVersion(d)
  }

  lemma ChompedIn(table: map<string, Pkg>, n: string)
    requires n in table
    ensures forall d :: d in ChompAll(table[n].depends) ==> d in DependsOf(table)
  {
  }

  ghost function NameSet(names: seq<string>): set<string>
  {
    set n | n in names
  }

  /** The finite set of names a crawl can meet. */
  ghost function Universe(s: Static, repo: map<string, seq<string>>, targets: seq<string>): set<string>
  {
    Words(s, repo) + set t | t in targets
  }

  lemma AnswersInside(s: Static, repo: map<string, seq<string>>, st: State, targets: seq<string>, x: string, y: string)
    requires x in Universe(s, repo, targets) && Answers(s, st, x, y)
    ensures y in Universe(s, repo, targets)
  {
    if y != x {
      ProviderPresent(s.localProvides, x, s.local);
      ProviderPresent(s.syncProvides, x, s.local);
      ProviderPresent(s.syncProvides, x, s.sync);
    }
  }

  lemma DepNamesInside(s: Static, repo: map<string, seq<string>>, st: State, targets: seq<string>, name: string,
                       lvl: Level)
    requires name in st.pkgFrom && OriginsTrue(s, st)
    ensures forall d :: d in DepNames(s, repo, st, name, lvl) ==> d in Universe(s, repo, targets)
  {
    match st.pkgFrom[name]
    case FromLocal =>
      assert OriginTrue(s, st, name, FromLocal);
      ChompedIn(s.local, name);
    case FromSync =>
      assert OriginTrue(s, st, name, FromSync);
      ChompedIn(s.sync, name);
    case FromAur =>
      if UpToDate(s, st, name, lvl) {
        ChompedIn(s.aur, name);
      }
  }

  lemma ListedDepsInside(s: Static, repo: map<string, seq<string>>, outdated: set<string>, targets: seq<string>,
                         p: string, lvl: Level)
    ensures forall d :: d in ListedDeps(s, repo, outdated, lvl, p) ==> d in Universe(s, repo, targets)
  {
    if p in s.local {
      ChompedIn(s.local, p);
    }
    if p in s.sync {
      ChompedIn(s.sync, p);
    }
    if p in s.aur {
      ChompedIn(s.aur, p);
    }
  }

  // The names followed from each resolved name.
  type Follow = map<string, seq<string>>

  ghost predicate ClosedUnder(S: set<string>, targets: seq<string>, follow: Follow)
  {
    && (forall t :: t in targets ==> t in S)
    && (forall p, d :: p in S && p in follow && d in follow[p] ==> d in S)
  }

  /** R is the least set that holds the targets and, with a name, the names followed from it. */
  ghost predicate IsClosure(R: set<string>, targets: seq<string>, follow: Follow)
  {
    && ClosedUnder(R, targets, follow) && R == follow.Keys
    && forall S :: ClosedUnder(S, targets, follow) ==> R <= S
  }

  /** What the worklist keeps: everything resolved or waiting is needed, and nothing needed is lost. */
  ghost predicate Crawling(targets: seq<string>, waiting: seq<string>, follow: Follow)
  {
    && (forall t :: t in targets ==> t in follow || t in waiting)
    && (forall p, d :: p in follow && d in follow[p] ==> d in follow || d in waiting)
    && (forall S, x :: ClosedUnder(S, targets, follow) && (x in follow || x in waiting) ==> x in S)
  }

  lemma CrawlingStarts(targets: seq<string>)
    ensures Crawling(targets, targets, map[])
  {
  }

  lemma CrawlingEnds(targets: seq<string>, follow: Follow)
    requires Crawling(targets, [], follow)
    ensures IsClosure(follow.Keys, targets, follow)
  {
  }

  /** A name already resolved is dropped. */
  lemma CrawlingDrops(targets: seq<string>, waiting: seq<string>, follow: Follow)
    requires Crawling(targets, waiting, follow) && waiting != [] && waiting[|waiting| - 1] in follow
    ensures Crawling(targets, waiting[..|waiting| - 1], follow)
  {
    PopMembers(waiting);
  }

  lemma PopMembers(waiting: seq<string>)
    requires waiting != []
    ensures forall x :: x in waiting <==> x in waiting[..|waiting| - 1] || x == waiting[|waiting| - 1]
  {
    assert waiting == waiting[..|waiting| - 1] + [waiting[|waiting| - 1]];
  }

  /** What waits is required, and so is what was resolved. */
  lemma CrawlingRequires(targets: seq<string>, waiting: seq<string>, follow: Follow)
    requires Crawling(targets, waiting, follow)
    ensures Least(targets, follow)
    ensures waiting != [] ==> Required(targets, follow, waiting[|waiting| - 1])
  {
    if waiting != [] {
      assert waiting[|waiting| - 1] in waiting;
    }
  }

  /** A name is resolved, and the names followed from it wait. */
  lemma CrawlingResolves(targets: seq<string>, waiting: seq<string>, follow: Follow, ds: seq<string>)
    requires Crawling(targets, waiting, follow) && waiting != [] && waiting[|waiting| - 1] !in follow
    ensures Crawling(targets, waiting[..|waiting| - 1] + ds, follow[waiting[|waiting| - 1] := ds])
  {
    var p, rest := waiting[|waiting| - 1], waiting[..|waiting| - 1];
    var follow' := follow[p := ds];
    PopMembers(waiting);
    forall S, x | ClosedUnder(S, targets, follow') && (x in follow' || x in rest + ds)
      ensures x in S
    {
      assert ClosedUnder(S, targets, follow);
    }
  }

  /** Each of ds answers one of names, in order, and has a recorded origin. */
  ghost predicate AllAnswer(s: Static, st: State, names: seq<string>, ds: seq<string>)
  {
    |ds| == |names| && forall i :: 0 <= i < |ds| ==> Answers(s, st, names[i], ds[i]) && ds[i] in st.pkgFrom
  }

  /** ds are the dependencies of final, whose build script the AUR has if that is where they are read. */
  ghost predicate ExplainedBy(s: Static, repo: map<string, seq<string>>, st: State, lvl: Level, final: string,
                              ds: seq<string>)
    requires OriginsTrue(s, st) && final in st.pkgFrom
  {
    && AllAnswer(s, st, DepNames(s, repo, st, final, lvl), ds)
    && (Fetches(s, st.outdated, lvl, final) ==> final in repo)
  }

  /** ds are the dependencies of a package that answers p. */
  ghost predicate Explains(s: Static, repo: map<string, seq<string>>, st: State, lvl: Level, p: string,
                           ds: seq<string>)
    requires OriginsTrue(s, st)
  {
    exists final :: final in st.pkgFrom && Answers(s, st, p, final) && ExplainedBy(s, repo, st, lvl, final, ds)
  }

  /** The names are the entries of a list, in order, without their versions. */
  ghost predicate Unversioned(entries: seq<string>, names: seq<string>)
  {
    |names| == |entries| && forall i :: 0 <= i < |names| ==> names[i] == ChompVersion(entries[i])
  }

  /** The names are all that a package of recorded origin lists: the entries of the database it is from,
      without versions, or, for a package to be fetched, those of its build script as they are. */
  ghost predicate Lists(s: Static, repo: map<string, seq<string>>, st: State, lvl: Level, p: string,
                        names: seq<string>)
  {
    && p in st.pkgFrom
    && match st.pkgFrom[p]
       case FromLocal => p in s.local && Unversioned(s.local[p].depends, names)
       case FromSync => p in s.sync && Unversioned(s.sync[p].depends, names)
       case FromAur =>
         if lvl == Immediate && p in s.aur && p !in st.outdated then Unversioned(s.aur[p].depends, names)
         else p in repo && names == repo[p]
  }

  /** ds are the dependencies of a package that answers p: one for each name it lists, in order. */
  ghost predicate InFull(s: Static, repo: map<string, seq<string>>, st: State, lvl: Level, p: string, ds: seq<string>)
  {
    exists final, names ::
      Answers(s, st, p, final) && Lists(s, repo, st, lvl, final, names) && AllAnswer(s, st, names, ds)
  }

  /** Nothing is left out of the list that is read. */
  lemma DepNamesComplete(s: Static, repo: map<string, seq<string>>, st: State, p: string, lvl: Level)
    requires Built(s) && OriginsTrue(s, st) && p in st.pkgFrom
    requires Fetches(s, st.outdated, lvl, p) ==> p in repo
    ensures Lists(s, repo, st, lvl, p, DepNames(s, repo, st, p, lvl))
  {
    hide Fetches;
    ScriptsAreFetched(s, st, p, lvl);
    assert OriginTrue(s, st, p, st.pkgFrom[p]);
  }

  lemma ListsLater(s: Static, repo: map<string, seq<string>>, st: State, st': State, lvl: Level, p: string,
                   names: seq<string>)
    requires Lists(s, repo, st, lvl, p, names) && Extends(st, st')
    ensures Lists(s, repo, st', lvl, p, names)
  {
  }

  lemma ExplainsInFull(s: Static, repo: map<string, seq<string>>, st: State, lvl: Level, p: string, ds: seq<string>)
    requires Built(s) && OriginsTrue(s, st) && Explains(s, repo, st, lvl, p, ds)
    ensures InFull(s, repo, st, lvl, p, ds)
  {
    hide Built, OriginsTrue, Answers, AllAnswer, DepNames, Fetches, Lists;
    var final :| final in st.pkgFrom && Answers(s, st, p, final) && ExplainedBy(s, repo, st, lvl, final, ds);
    DepNamesComplete(s, repo, st, final, lvl);
  }

  /** Where a name leads by the tables alone, and which names have to be fetched. */
  lemma PlainAnswerInOrder(s: Static, name: string)
    requires Built(s)
    ensures var p := PlainAnswer(s, name);
      if name in s.local then p == name
      else if Provided(s.localProvides, name, s.local) then LeastProvider(s.localProvides, name, s.local, p)
      else if Provided(s.syncProvides, name, s.local) then LeastProvider(s.syncProvides, name, s.local, p)
      else if name in s.sync then p == name
      else if Provided(s.syncProvides, name, s.sync) then LeastProvider(s.syncProvides, name, s.sync, p)
      else p == name
  {
    hide FindProvider, LeastProvider, Provided;
    SearchedInOrder(s, name);
  }

  /** To be fetched are the AUR packages out of date, all of them at the thorough level, and what nothing
      else answers. */
  lemma FetchesByTables(s: Static, outdated: set<string>, lvl: Level, n: string)
    requires Built(s)
    ensures Fetches(s, outdated, lvl, n) <==>
      if n in s.aur then lvl == Thorough || n in outdated
      else
        && n !in s.local && n !in s.sync && !Provided(s.localProvides, n, s.local)
        && !Provided(s.syncProvides, n, s.local) && !Provided(s.syncProvides, n, s.sync)
  {
    hide Provided, Search;
    SearchInOrder(s, n);
  }

  /** A name is hidden if and only if its recorded repository package has an installed provider. */
  lemma HiddenByTables(s: Static, st: State, n: string)
    requires Built(s)
    ensures Hidden(s, st, n) <==>
      && n in st.pkgFrom && st.pkgFrom[n] == FromSync
      && (Provided(s.localProvides, n, s.local) || Provided(s.syncProvides, n, s.local))
  {
    hide Provided, LocalProvider;
    SearchInOrder(s, n);
  }

  /** The dependencies listed for a package, by the tables alone. */
  function ListedDeps(s: Static, repo: map<string, seq<string>>, outdated: set<string>, lvl: Level, p: string)
    : seq<string>
  {
    if p in s.aur && lvl == Immediate && p !in outdated then ChompAll(s.aur[p].depends)
    else if p in s.local && p !in s.aur then ChompAll(s.local[p].depends)
    else if p in s.sync && p !in s.local then ChompAll(s.sync[p].depends)
    else ScriptDeps(repo, p)
  }

  lemma DepNamesListed(s: Static, repo: map<string, seq<string>>, st: State, p: string, lvl: Level)
    requires Built(s) && OriginsTrue(s, st) && p in st.pkgFrom
    ensures DepNames(s, repo, st, p, lvl) == ListedDeps(s, repo, st.outdated, lvl, p)
  {
    assert OriginTrue(s, st, p, st.pkgFrom[p]);
  }

  /** The dependencies of a name, by the tables alone. */
  function PlainDeps(s: Static, repo: map<string, seq<string>>, outdated: set<string>, lvl: Level, p: string)
    : seq<string>
  {
    var names := ListedDeps(s, repo, outdated, lvl, PlainAnswer(s, p));
    seq(|names|, i requires 0 <= i < |names| => PlainAnswer(s, names[i]))
  }

  /** Where nothing is hidden, what a run found out before does not show in the dependencies of a name. */
  lemma ExplainsPlainly(s: Static, repo: map<string, seq<string>>, st: State, lvl: Level, p: string, ds: seq<string>)
    requires Built(s) && OriginsTrue(s, st) && Explains(s, repo, st, lvl, p, ds)
    requires forall n :: !Hidden(s, st, n)
    ensures ds == PlainDeps(s, repo, st.outdated, lvl, p)
  {
    hide Built, OriginsTrue, Hidden, PlainAnswer, ListedDeps, DepNames;
    var final :| final in st.pkgFrom && Answers(s, st, p, final) && ExplainedBy(s, repo, st, lvl, final, ds);
    DepNamesListed(s, repo, st, final, lvl);
  }

  /** A closure is determined by what is followed from the names in it. */
  lemma ClosureInside(targets1: seq<string>, follow1: Follow, targets2: seq<string>, follow2: Follow)
    requires IsClosure(follow1.Keys, targets1, follow1) && IsClosure(follow2.Keys, targets2, follow2)
    requires forall t :: t in targets1 ==> t in targets2
    requires forall p :: p in follow1 && p in follow2 ==> follow1[p] == follow2[p]
    ensures follow1.Keys <= follow2.Keys
  {
    assert ClosedUnder(follow2.Keys, targets1, follow1);
  }

  /** Between before and after only names of room failed, all of them to be fetched. */
  ghost predicate OnlyFetches(s: Static, outdated: set<string>, lvl: Level, room: set<string>, before: seq<string>,
                              after: seq<string>)
  {
    && before <= after
    && forall i :: |before| <= i < |after| ==> after[i] in room && Fetches(s, outdated, lvl, after[i])
  }

  lemma NothingFailed(s: Static, outdated: set<string>, lvl: Level, room: set<string>, before: seq<string>)
    ensures OnlyFetches(s, outdated, lvl, room, before, before)
  {
  }

  lemma OneFailed(s: Static, outdated: set<string>, lvl: Level, room: set<string>, before: seq<string>, n: string)
    requires n in room && Fetches(s, outdated, lvl, n)
    ensures OnlyFetches(s, outdated, lvl, room, before, before + [n])
  {
  }

  lemma FailedThen(s: Static, outdated: set<string>, lvl: Level, room1: set<string>, room2: set<string>,
                   room: set<string>, before: seq<string>, between: seq<string>, after: seq<string>)
    requires OnlyFetches(s, outdated, lvl, room1, before, between) && room1 <= room
    requires OnlyFetches(s, outdated, lvl, room2, between, after) && room2 <= room
    ensures OnlyFetches(s, outdated, lvl, room, before, after)
  {
  }

  /** Between before and after only names of room were downloaded, all of them to be fetched. */
  ghost predicate OnlyDownloads(s: Static, outdated: set<string>, lvl: Level, room: set<string>, before: set<string>,
                                after: set<string>)
  {
    forall n :: n in after ==> n in before || (n in room && Fetches(s, outdated, lvl, n))
  }

  /** A normalisation downloads at most the name it returns, and only a name to be fetched. */
  lemma NormalizedDownloads(s: Static, st: State, name: string, lvl: Level, st': State, r: Option<string>)
    requires Built(s) && OriginsTrue(s, st) && Normalized(s, st, name, lvl, st', r)
    ensures OnlyDownloads(s, st.outdated, lvl, {name}, st.downloaded, st'.downloaded)
    ensures st'.downloaded == st.downloaded || r == Some(name)
  {
    if name in st.pkgFrom {
      assert OriginTrue(s, st, name, st.pkgFrom[name]);
    }
  }

  lemma NothingDownloaded(s: Static, outdated: set<string>, lvl: Level, room: set<string>, before: set<string>)
    ensures OnlyDownloads(s, outdated, lvl, room, before, before)
  {
  }

  lemma DownloadsThen(s: Static, outdated: set<string>, lvl: Level, room1: set<string>, room2: set<string>,
                      room: set<string>, before: set<string>, between: set<string>, after: set<string>)
    requires OnlyDownloads(s, outdated, lvl, room1, before, between) && room1 <= room
    requires OnlyDownloads(s, outdated, lvl, room2, between, after) && room2 <= room
    ensures OnlyDownloads(s, outdated, lvl, room, before, after)
  {
    hide Fetches;
  }

  /** Why p could not be resolved: n is p, or the directory of a package that answers p, or a dependency its
      database entry lists. */
  ghost predicate NameFails(s: Static, repo: map<string, seq<string>>, st: State, lvl: Level, p: string, n: string)
  {
    || n == p
    || exists final :: Answers(s, st, p, final) &&
         if Fetches(s, st.outdated, lvl, final) then n == final
         else n in ListedDeps(s, repo, st.outdated, lvl, final)
  }

  /** p was resolved but for a dependency read from a build script: one of those is among the names failed. */
  ghost predicate ScriptFails(s: Static, repo: map<string, seq<string>>, st: State, lvl: Level, p: string,
                              failed: seq<string>)
  {
    exists final, d :: Answers(s, st, p, final) && Fetches(s, st.outdated, lvl, final)
      && d in ScriptDeps(repo, final) && d in failed
  }

  /** Nothing is followed in vain: every set closed under what is followed holds all resolved names. */
  ghost predicate Least(targets: seq<string>, follow: Follow)
  {
    forall S :: ClosedUnder(S, targets, follow) ==> follow.Keys <= S
  }

  /** Every set closed under what is followed holds p. */
  ghost predicate Required(targets: seq<string>, follow: Follow, p: string)
  {
    forall S :: ClosedUnder(S, targets, follow) ==> p in S
  }

  /** fs are the dependencies among ds whose own dependencies matter at this level: all of them, or the
      downloaded ones, and always every AUR package that is not installed. */
  ghost predicate Followed(s: Static, st: State, lvl: Level, ds: seq<string>, fs: seq<string>)
  {
    && (forall d :: d in fs ==> d in ds)
    && (lvl == Thorough ==> fs == ds)
    && (lvl == Immediate ==> forall d :: d in fs ==> d in st.downloaded)
    && (forall d :: d in ds ==> d in fs || (d in st.pkgFrom && (st.pkgFrom[d] == FromAur ==> d in s.aur)))
  }

  lemma DepNamesLater(s: Static, repo: map<string, seq<string>>, st: State, st': State, name: string, lvl: Level)
    requires OriginsTrue(s, st) && OriginsTrue(s, st') && Extends(st, st') && name in st.pkgFrom
    ensures name in st'.pkgFrom && DepNames(s, repo, st', name, lvl) == DepNames(s, repo, st, name, lvl)
  {
    hide OriginTrue;
  }

  lemma AllAnswerLater(s: Static, st: State, st': State, names: seq<string>, ds: seq<string>)
    requires AllAnswer(s, st, names, ds) && Extends(st, st')
    ensures AllAnswer(s, st', names, ds)
  {
    hide Answers;
    forall i | 0 <= i < |ds|
      ensures Answers(s, st', names[i], ds[i])
    {
      AnswersLater(s, st, st', names[i], ds[i]);
    }
  }

  lemma ExplainsLater(s: Static, repo: map<string, seq<string>>, st: State, st': State, lvl: Level, p: string,
                      ds: seq<string>)
    requires OriginsTrue(s, st) && OriginsTrue(s, st') && Extends(st, st')
    requires Explains(s, repo, st, lvl, p, ds)
    ensures Explains(s, repo, st', lvl, p, ds)
  {
    hide OriginsTrue, Answers, AllAnswer, DepNames, Fetches;
    var final :| final in st.pkgFrom && Answers(s, st, p, final) && ExplainedBy(s, repo, st, lvl, final, ds);
    AnswersLater(s, st, st', p, final);
    DepNamesLater(s, repo, st, st', final, lvl);
    AllAnswerLater(s, st, st', DepNames(s, repo, st, final, lvl), ds);
    assert ExplainedBy(s, repo, st', lvl, final, ds);
  }

  lemma FollowedLater(s: Static, st: State, st': State, lvl: Level, ds: seq<string>, fs: seq<string>)
    requires Followed(s, st, lvl, ds, fs) && Extends(st, st')
    ensures Followed(s, st', lvl, ds, fs)
  {
  }

  lemma ExtendsReflexive(st: State)
    ensures Extends(st, st)
  {
  }

  lemma ExtendsTransitive(st: State, st1: State, st2: State)
    requires Extends(st, st1) && Extends(st1, st2)
    ensures Extends(st, st2)
  {
  }
}
