/** The crawl: a worklist of names, each resolved once, whose dependencies become edges of the graph. */
module Crawl {
  import opened AllocSize
  import opened Probing
  import opened Stack
  import opened GraphModel
  import G = Graph
  import opened PackageDb
  import opened HashDb
  import opened CrawlModel

  // How a crawl ends: with every name resolved, at a name that could not be resolved, or at a
  // dependency whose normalisation failed unnoticed, after which the program's behaviour is undefined.
  datatype Outcome = Done | ResolveError | NullDependency

  /** The values of a list without missing entries. */
  function Values(deps: seq<Option<string>>): seq<string>
    requires None !in deps
  {
    seq(|deps|, i requires 0 <= i < |deps| => deps[i].value)
  }

  /** Each present entry answers its name and has a recorded origin. */
  ghost predicate SomeAnswer(s: Static, st: State, names: seq<string>, deps: seq<Option<string>>)
  {
    |deps| == |names| &&
    forall i :: 0 <= i < |deps| && deps[i].Some? ==>
      Answers(s, st, names[i], deps[i].value) && deps[i].value in st.pkgFrom
  }

  lemma SomeAnswerLater(s: Static, st: State, st': State, names: seq<string>, deps: seq<Option<string>>)
    requires SomeAnswer(s, st, names, deps) && Extends(st, st')
    ensures SomeAnswer(s, st', names, deps)
  {
    hide Answers;
    forall i | 0 <= i < |deps| && deps[i].Some?
      ensures Answers(s, st', names[i], deps[i].value)
    {
      AnswersLater(s, st, st', names[i], deps[i].value);
    }
  }

  /** The present values of a list. */
  ghost function Somes(deps: seq<Option<string>>): set<string>
  {
    set d | d in deps && d.Some? :: d.value
  }

  /** What one more normalisation downloads. */
  lemma OneMoreDownload(s: Static, st: State, name: string, lvl: Level, st': State, d: Option<string>,
                        deps: seq<Option<string>>, before: set<string>)
    requires Consistent(s, st) && Normalized(s, st, name, lvl, st', d)
    requires OnlyDownloads(s, st.outdated, lvl, Somes(deps), before, st.downloaded)
    ensures OnlyDownloads(s, st.outdated, lvl, Somes(deps + [d]), before, st'.downloaded)
    ensures d.None? ==> OnlyDownloads(s, st.outdated, lvl, Somes(deps), before, st'.downloaded)
  {
    hide Fetches, Normalized, OriginsTrue, CacheTrue, Built;
    NormalizedDownloads(s, st, name, lvl, st', d);
    if d.Some? {
      assert d in deps + [d];
      assert Somes(deps) <= Somes(deps + [d]) && d.value in Somes(deps + [d]);
    }
  }

  /** Normalises every name. When strict, the first failure ends it; else failures are kept as gaps. */
  method NormalizeAll(db: HashDb, names: seq<string>, lvl: Level, strict: bool)
    returns (ok: bool, deps: seq<Option<string>>)
    requires db.Valid()
    modifies db`pkgFrom, db`providesCache, db`aurDownloaded, db`failed
    ensures db.Valid() && Extends(old(db.View()), db.View())
    ensures ok ==> SomeAnswer(db.s, db.View(), names, deps) && (strict ==> None !in deps)
    ensures ok ==> RanThrough(db.s, old(db.View()), names, lvl, db.View(), deps)
    ensures !strict ==> ok
    ensures OnlyFetches(db.s, db.aurOutdated, lvl, NameSet(names), old(db.failed), db.failed)
    ensures db.failed == old(db.failed) <==> ok && None !in deps
    ensures OnlyDownloads(db.s, db.aurOutdated, lvl, Somes(deps), old(db.aurDownloaded), db.aurDownloaded)
  {
    hide Normalized, Answers, OriginsTrue, CacheTrue, Built, RanThrough, OnlyFetches, Fetches, OnlyDownloads, Somes;
    deps := [];
    NothingDownloaded(db.s, db.aurOutdated, lvl, Somes(deps), db.aurDownloaded);
    ghost var room := NameSet(names);
    RanNowhere(db.s, db.View(), lvl);
    NothingFailed(db.s, db.aurOutdated, lvl, room, db.failed);
    for i := 0 to |names|
      invariant db.Valid() && Extends(old(db.View()), db.View())
      invariant SomeAnswer(db.s, db.View(), names[..i], deps) && (strict ==> None !in deps)
      invariant RanThrough(db.s, old(db.View()), names[..i], lvl, db.View(), deps)
      invariant OnlyFetches(db.s, db.aurOutdated, lvl, room, old(db.failed), db.failed)
      invariant |db.failed| >= |old(db.failed)| && (db.failed == old(db.failed) <==> None !in deps)
      invariant OnlyDownloads(db.s, db.aurOutdated, lvl, Somes(deps), old(db.aurDownloaded), db.aurDownloaded)
    {
      ghost var before, failed := db.View(), db.failed;
      var d := db.NormalizePackage(names[i], lvl);
      NormalizedFacts(db.s, before, names[i], lvl, db.View(), d);
      OneMoreDownload(db.s, before, names[i], lvl, db.View(), d, deps, old(db.aurDownloaded));
      if d.None? {
        assert names[i] in names;
        OneFailed(db.s, before.outdated, lvl, room, failed, names[i]);
        FailedThen(db.s, before.outdated, lvl, room, room, room, old(db.failed), failed, db.failed);
      }
      SomeAnswerLater(db.s, before, db.View(), names[..i], deps);
      RanOneMore(db.s, old(db.View()), names[..i], lvl, before, deps, names[i], db.View(), d);
      if strict && d.None? {
        return false, deps;
      }
      deps := deps + [d];
      assert names[..i + 1] == names[..i] + [names[i]];
    }
    assert names[..|names|] == names;
    ok := true;
  }

  lemma NormalizedFacts(s: Static, st: State, name: string, lvl: Level, st': State, r: Option<string>)
    requires Consistent(s, st) && Normalized(s, st, name, lvl, st', r)
    ensures Extends(st, st')
    ensures r.Some? ==> Answers(s, st', name, r.value) && r.value in st'.pkgFrom
    ensures r.None? ==> Fetches(s, st.outdated, lvl, name)
  {
    hide OriginsTrue, Extends, Normalized, Answers, Fetches;
    NormalizeKeeps(s, st, name, lvl, st', r);
    if r.None? {
      FailureFetches(s, st, name, lvl, st');
    }
    if r.Some? {
      NormalizedAnswers(s, st, name, lvl, st', r);
      AnswersLater(s, st, st', name, r.value);
    }
  }

  /** Entering a package's directory: it fails unless a build script is there, and may fail at any time. */
  method ChangeDirectory(db: HashDb, name: string) returns (ok: bool)
    modifies db`failed
    ensures ok ==> name in db.repo
    ensures db.failed == if ok then old(db.failed) else old(db.failed) + [name]
  {
    var attempt: bool := *;
    ok := attempt && name in db.repo;
    db.failed := if ok then db.failed else db.failed + [name];
  }

  /** deps has, in order, what each name that the package lists was normalised to, from st to st'. */
  ghost predicate ListNormalized(s: Static, repo: map<string, seq<string>>, st: State, st': State, lvl: Level,
                                 p: string, deps: seq<Option<string>>)
  {
    exists names ::
      Lists(s, repo, st', lvl, p, names) && SomeAnswer(s, st', names, deps) && RanThrough(s, st, names, lvl, st', deps)
  }

  /** The dependencies of a package of recorded origin, from its database entry or its build script, each
      normalised in turn. The place where the program would give up for want of an entry is unreachable. */
  method ListDependencies(db: HashDb, pkg: string, lvl: Level) returns (ok: bool, deps: seq<Option<string>>)
    requires db.Valid() && pkg in db.pkgFrom
    modifies db`pkgFrom, db`providesCache, db`aurDownloaded, db`failed
    ensures db.Valid() && Extends(old(db.View()), db.View())
    ensures var names := ListedDeps(db.s, db.repo, db.aurOutdated, lvl, pkg);
      ok ==> SomeAnswer(db.s, db.View(), names, deps) && RanThrough(db.s, old(db.View()), names, lvl, db.View(), deps)
    ensures ok ==> ListNormalized(db.s, db.repo, old(db.View()), db.View(), lvl, pkg, deps)
    ensures ok && Fetches(db.s, db.aurOutdated, lvl, pkg) ==> pkg in db.repo
    ensures ok && None in deps ==> Fetches(db.s, db.aurOutdated, lvl, pkg)
    ensures db.failed == old(db.failed) <==> ok && None !in deps
    ensures Fetches(db.s, db.aurOutdated, lvl, pkg) ==>
      ListedDeps(db.s, db.repo, db.aurOutdated, lvl, pkg) == ScriptDeps(db.repo, pkg)
    ensures if !ok && Fetches(db.s, db.aurOutdated, lvl, pkg) then db.failed == old(db.failed) + [pkg]
      else OnlyFetches(db.s, db.aurOutdated, lvl, Listed(db.s, db.repo, db.aurOutdated, lvl, pkg),
                       old(db.failed), db.failed)
    ensures OnlyDownloads(db.s, db.aurOutdated, lvl, Somes(deps), old(db.aurDownloaded), db.aurDownloaded)
  {
    hide Normalized, Answers, CacheTrue, Built, RanThrough, OnlyFetches, Fetches, SomeAnswer, Extends;
    hide ListNormalized, OnlyDownloads, Somes;
    deps := [];
    NothingDownloaded(db.s, db.aurOutdated, lvl, Somes(deps), db.aurDownloaded);
    ScriptsAreFetched(db.s, db.View(), pkg, lvl);
    DepNamesListed(db.s, db.repo, db.View(), pkg, lvl);
    ExtendsReflexive(db.View());
    assert OriginTrue(db.s, db.View(), pkg, db.pkgFrom[pkg]);
    match db.pkgFrom[pkg] {
      case FromLocal =>
        ok, deps := NormalizeAll(db, ChompAll(db.s.local[pkg].depends), lvl, true);
      case FromSync =>
        ok, deps := NormalizeAll(db, ChompAll(db.s.sync[pkg].depends), lvl, true);
      case FromAur =>
        if lvl != Thorough && pkg in db.s.aur && pkg !in db.aurOutdated {
          ok, deps := NormalizeAll(db, ChompAll(db.s.aur[pkg].depends), lvl, true);
        } else {
          ok := ChangeDirectory(db, pkg);
          if ok {
            ok, deps := NormalizeAll(db, ScriptDeps(db.repo, pkg), lvl, false);
          }
        }
    }
    if ok {
      ListNormalizedBy(db.s, db.repo, old(db.View()), db.View(), lvl, pkg, deps);
    }
  }

  lemma ListNormalizedBy(s: Static, repo: map<string, seq<string>>, st: State, st': State, lvl: Level, p: string,
                         deps: seq<Option<string>>)
    requires Built(s) && OriginsTrue(s, st) && p in st.pkgFrom && Extends(st, st')
    requires Fetches(s, st.outdated, lvl, p) ==> p in repo
    requires SomeAnswer(s, st', ListedDeps(s, repo, st.outdated, lvl, p), deps)
    requires RanThrough(s, st, ListedDeps(s, repo, st.outdated, lvl, p), lvl, st', deps)
    ensures ListNormalized(s, repo, st, st', lvl, p, deps)
  {
    hide Built, OriginsTrue, Extends, Fetches, SomeAnswer, RanThrough, Lists, DepNames, ListedDeps;
    DepNamesListed(s, repo, st, p, lvl);
    DepNamesComplete(s, repo, st, p, lvl);
    ListsLater(s, repo, st, st', lvl, p, DepNames(s, repo, st, p, lvl));
  }

  /** The dependencies of a name, normalised. Neither place where the program would give up for want of
      an origin or of a table entry can be reached. */
  method CrawlResolve(db: HashDb, cur: string, lvl: Level)
    returns (ok: bool, deps: seq<Option<string>>, ghost final: string)
    requires db.Valid()
    modifies db`pkgFrom, db`providesCache, db`aurDownloaded, db`failed
    ensures db.Valid() && Extends(old(db.View()), db.View())
    ensures ok ==> Answers(db.s, db.View(), cur, final) && final in db.pkgFrom
    ensures ok ==> SomeAnswer(db.s, db.View(), DepNames(db.s, db.repo, db.View(), final, lvl), deps)
    ensures ok ==> exists st1 ::
      && Normalized(db.s, old(db.View()), cur, lvl, st1, Some(final))
      && RanThrough(db.s, st1, DepNames(db.s, db.repo, db.View(), final, lvl), lvl, db.View(), deps)
      && ListNormalized(db.s, db.repo, st1, db.View(), lvl, final, deps)
    ensures ok ==> (Fetches(db.s, db.aurOutdated, lvl, final) ==> final in db.repo)
    ensures db.failed == old(db.failed) <==> ok && None !in deps
    ensures OnlyFetches(db.s, db.aurOutdated, lvl, {cur, final} + Listed(db.s, db.repo, db.aurOutdated, lvl, final),
                        old(db.failed), db.failed)
    ensures Answers(db.s, db.View(), cur, final) || final == cur
    ensures !ok ==> |db.failed| > 0 && NameFails(db.s, db.repo, db.View(), lvl, cur, db.failed[|db.failed| - 1])
    ensures ok && None in deps ==>
      |old(db.failed)| < |db.failed|
      && ScriptFails(db.s, db.repo, db.View(), lvl, cur, db.failed[|old(db.failed)|..])
    ensures OnlyDownloads(db.s, db.aurOutdated, lvl, {cur} + Somes(deps), old(db.aurDownloaded), db.aurDownloaded)
  {
    hide Normalized, Answers, CacheTrue, Built, RanThrough, OnlyFetches, Fetches, NameFails, ScriptFails;
    hide OnlyDownloads, Somes;
    hide SomeAnswer, Extends, OriginTrue, Listed, ListedDeps, ListNormalized;
    deps, final := [], cur;
    ghost var st0 := db.View();
    var r := db.NormalizePackage(cur, lvl);
    NormalizedFacts(db.s, st0, cur, lvl, db.View(), r);
    NormalizedDownloads(db.s, st0, cur, lvl, db.View(), r);
    if r.None? {
      AtName(db.s, db.repo, db.View(), lvl, cur, old(db.failed));
      NothingDownloaded(db.s, db.aurOutdated, lvl, {cur} + Somes(deps), db.aurDownloaded);
      return false, deps, final;
    }
    ghost var st1 := db.View();
    final := r.value;
    ok, deps := ListDependencies(db, r.value, lvl);
    DownloadsThen(db.s, st0.outdated, lvl, {cur}, Somes(deps), {cur} + Somes(deps), st0.downloaded, st1.downloaded,
                  db.aurDownloaded);
    ExtendsTransitive(st0, st1, db.View());
    Recorded(st1, db.View(), final);
    AnswersLater(db.s, st1, db.View(), cur, final);
    DepNamesListed(db.s, db.repo, db.View(), final, lvl);
    if !ok && Fetches(db.s, db.aurOutdated, lvl, final) {
      AtDirectory(db.s, db.repo, db.View(), lvl, cur, final, old(db.failed));
    } else {
      AtDependency(db.s, db.repo, db.View(), lvl, cur, final, old(db.failed), db.failed);
    }
  }

  ghost function Listed(s: Static, repo: map<string, seq<string>>, outdated: set<string>, lvl: Level, p: string)
    : set<string>
  {
    NameSet(ListedDeps(s, repo, outdated, lvl, p))
  }

  /** The name itself could not be had. */
  lemma AtName(s: Static, repo: map<string, seq<string>>, st: State, lvl: Level, p: string, before: seq<string>)
    requires Fetches(s, st.outdated, lvl, p)
    ensures OnlyFetches(s, st.outdated, lvl, {p, p} + Listed(s, repo, st.outdated, lvl, p), before, before + [p])
    ensures NameFails(s, repo, st, lvl, p, p)
  {
    hide Fetches;
    OneFailed(s, st.outdated, lvl, {p, p} + Listed(s, repo, st.outdated, lvl, p), before, p);
  }

  /** The directory of its package could not be entered. */
  lemma AtDirectory(s: Static, repo: map<string, seq<string>>, st: State, lvl: Level, p: string, final: string,
                    before: seq<string>)
    requires Answers(s, st, p, final) && Fetches(s, st.outdated, lvl, final)
    ensures OnlyFetches(s, st.outdated, lvl, {p, final} + Listed(s, repo, st.outdated, lvl, final),
                        before, before + [final])
    ensures NameFails(s, repo, st, lvl, p, final)
  {
    hide Fetches, Answers;
    OneFailed(s, st.outdated, lvl, {p, final} + Listed(s, repo, st.outdated, lvl, final), before, final);
  }

  /** One of its dependencies could not be had. */
  lemma AtDependency(s: Static, repo: map<string, seq<string>>, st: State, lvl: Level, p: string, final: string,
                     before: seq<string>, after: seq<string>)
    requires Answers(s, st, p, final)
    requires OnlyFetches(s, st.outdated, lvl, Listed(s, repo, st.outdated, lvl, final), before, after)
    ensures OnlyFetches(s, st.outdated, lvl, {p, final} + Listed(s, repo, st.outdated, lvl, final), before, after)
    ensures after != before && !Fetches(s, st.outdated, lvl, final) ==>
      |after| > 0 && NameFails(s, repo, st, lvl, p, after[|after| - 1])
    ensures after != before && ListedDeps(s, repo, st.outdated, lvl, final) == ScriptDeps(repo, final) ==>
      Fetches(s, st.outdated, lvl, final) ==>
        |before| < |after| && ScriptFails(s, repo, st, lvl, p, after[|before|..])
  {
    hide Fetches, Answers;
    if after != before {
      var n := after[|after| - 1];
      assert n == after[|before|..][|after| - 1 - |before|] && n in after[|before|..];
    }
  }

  /** At the thorough level every dependency is followed; at the immediate level those downloaded, now
      or earlier. */
  method ShouldWeContinueResolving(db: HashDb, st: Stack<string>, d: string, lvl: Level) returns (pushed: bool)
    requires db.Valid() && st.Valid() && d in db.pkgFrom
    modifies db`pkgFrom, db`providesCache, db`aurDownloaded, db`failed, st, st.st
    ensures db.Valid() && Extends(old(db.View()), db.View())
    ensures st.Valid() && (st.st == old(st.st) || fresh(st.st))
    ensures st.Contents() == old(st.Contents()) + (if pushed then [d] else [])
    ensures pushed <==> lvl == Thorough || d in db.aurDownloaded
    ensures Followed(db.s, db.View(), lvl, [d], if pushed then [d] else [])
    ensures OnlyFetches(db.s, db.aurOutdated, lvl, {d}, old(db.failed), db.failed)
    ensures OnlyDownloads(db.s, db.aurOutdated, lvl, {d}, old(db.aurDownloaded), db.aurDownloaded)
  {
    hide OriginsTrue, CacheTrue, Built, OnlyFetches, Fetches, OnlyDownloads;
    NothingDownloaded(db.s, db.aurOutdated, lvl, {d}, db.aurDownloaded);
    NothingFailed(db.s, db.aurOutdated, lvl, {d}, db.failed);
    if lvl == Thorough {
      st.Push(d);
      return true;
    }
    ghost var before := db.View();
    var r := db.NormalizePackage(d, lvl);
    NormalizedFacts(db.s, before, d, lvl, db.View(), r);
    SettledName(db.s, before, d, lvl, db.View(), r);
    NormalizedDownloads(db.s, before, d, lvl, db.View(), r);
    if r.None? {
      OneFailed(db.s, before.outdated, lvl, {d}, old(db.failed), d);
    }
    pushed := r.Some? && r.value in db.aurDownloaded;
    if pushed {
      st.Push(d);
    }
  }

  /** A name of recorded origin leads to itself. */
  lemma SettledName(s: Static, st: State, d: string, lvl: Level, st': State, r: Option<string>)
    requires Consistent(s, st) && d in st.pkgFrom && Normalized(s, st, d, lvl, st', r)
    ensures r == Some(d) || r == None
    ensures r == None ==> d !in st'.downloaded
    ensures d in st'.pkgFrom && (d !in st'.downloaded && st'.pkgFrom[d] == FromAur ==> d in s.aur)
  {
    assert OriginTrue(s, st, d, st.pkgFrom[d]);
  }

  lemma FollowedMore(s: Static, st: State, st': State, lvl: Level, ds: seq<string>, fs: seq<string>,
                     d: string, pushed: bool)
    requires Followed(s, st, lvl, ds, fs) && Extends(st, st')
    requires Followed(s, st', lvl, [d], if pushed then [d] else [])
    ensures Followed(s, st', lvl, ds + [d], fs + (if pushed then [d] else []))
  {
    FollowedLater(s, st, st', lvl, ds, fs);
    var gs := if pushed then [d] else [];
    assert forall x :: x in ds + [d] <==> x in ds || x in [d];
    assert forall x :: x in fs + gs <==> x in fs || x in gs;
  }

  /** One dependency: an edge to p, and a place on the worklist if it is to be followed. */
  method LinkDep(graph: G.Graph<string>, db: HashDb, st: Stack<string>, p: string, d: string, lvl: Level,
                 ghost m0: Model<string>, ghost ds: seq<string>, ghost fs: seq<string>, ghost room: set<string>)
    returns (pushed: bool)
    requires db.Valid() && st.Valid() && graph.Valid()
    requires d in db.pkgFrom && d in room && p in room && |room| + 2 <= CAPACITY
    requires Proper(m0) && LinksAdded(m0, graph.model, ds, p) && forall x :: x in graph.model.names ==> x in room
    requires Followed(db.s, db.View(), lvl, ds, fs)
    modifies db`pkgFrom, db`providesCache, db`aurDownloaded, db`failed, st, st.st
    modifies graph, graph.vidx, graph.vidx.table, graph.owned
    ensures db.Valid() && Extends(old(db.View()), db.View())
    ensures st.Valid() && (st.st == old(st.st) || fresh(st.st))
    ensures graph.Valid() && fresh(graph.owned - old(graph.owned))
    ensures graph.vidx.table == old(graph.vidx.table) || fresh(graph.vidx.table)
    ensures st.Contents() == old(st.Contents()) + (if pushed then [d] else [])
    ensures Followed(db.s, db.View(), lvl, ds + [d], fs + (if pushed then [d] else []))
    ensures LinksAdded(m0, graph.model, ds + [d], p) && forall x :: x in graph.model.names ==> x in room
    ensures OnlyFetches(db.s, db.aurOutdated, lvl, {d}, old(db.failed), db.failed)
    ensures OnlyDownloads(db.s, db.aurOutdated, lvl, {d}, old(db.aurDownloaded), db.aurDownloaded)
    ensures pushed <==> lvl == Thorough || d in db.aurDownloaded
  {
    hide OnlyDownloads;
    hide OriginsTrue, CacheTrue, Built, Followed, WithEdge, Linked, Proper, LinksAdded, OnlyFetches;
    hide Lawful, Exact, WellFormed, Holds, G.Stored, G.Indexed, Judge, Search;
    ghost var before := db.View();
    pushed := ShouldWeContinueResolving(db, st, d, lvl);
    FollowedMore(db.s, before, db.View(), lvl, ds, fs, d, pushed);
    Roomy(graph, room);
    LinksAddedOne(m0, graph.model, ds, d, p);
    WithEdgeAdds(graph.model, d, p);
    graph.AddEdge(d, p);
  }

  /** Adds an edge from each dependency to p, and puts on the worklist the dependencies to follow. A
      missing dependency stops it. */
  method LinkDeps(graph: G.Graph<string>, db: HashDb, st: Stack<string>, p: string, deps: seq<Option<string>>,
                  lvl: Level, ghost universe: set<string>, ghost room: set<string>)
    returns (ok: bool, ghost ds: seq<string>, ghost fs: seq<string>)
    requires db.Valid() && st.Valid() && graph.Valid()
    requires forall i :: 0 <= i < |deps| && deps[i].Some? ==> deps[i].value in db.pkgFrom && deps[i].value in universe
    requires universe <= room && p in room && |room| + 2 <= CAPACITY && forall x :: x in graph.model.names ==> x in room
    modifies db`pkgFrom, db`providesCache, db`aurDownloaded, db`failed, st, st.st
    modifies graph, graph.vidx, graph.vidx.table, graph.owned
    ensures db.Valid() && Extends(old(db.View()), db.View())
    ensures st.Valid() && (st.st == old(st.st) || fresh(st.st))
    ensures graph.Valid() && fresh(graph.owned - old(graph.owned))
    ensures graph.vidx.table == old(graph.vidx.table) || fresh(graph.vidx.table)
    ensures ok <==> None !in deps
    ensures ok ==> ds == Values(deps) && Followed(db.s, db.View(), lvl, ds, fs)
    ensures ok ==> st.Contents() == old(st.Contents()) + fs
    ensures ok ==> LinksAdded(old(graph.model), graph.model, ds, p)
    ensures forall x :: x in graph.model.names ==> x in room
    ensures OnlyFetches(db.s, db.aurOutdated, lvl, universe, old(db.failed), db.failed)
    ensures FollowedDownloads(db.s, db.aurOutdated, lvl, ds, fs, old(db.aurDownloaded), db.aurDownloaded)
  {
    hide FollowedDownloads, OnlyDownloads;
    hide OriginsTrue, CacheTrue, Built, Followed, WithEdge, Linked, Proper, LinksAdded, OnlyFetches;
    hide Lawful, Exact, WellFormed, Holds, G.Stored, G.Indexed, Judge, Search;
    ghost var m0 := graph.model;
    ds, fs := [], [];
    NothingLinked(m0, p);
    NothingFollowed(db.s, db.View(), lvl);
    NothingFailed(db.s, db.aurOutdated, lvl, universe, db.failed);
    NoDownloadFollowed(db.s, db.aurOutdated, lvl, db.aurDownloaded);
    var i := 0;
    while i < |deps|
      invariant 0 <= i <= |deps|
      invariant db.Valid() && Extends(old(db.View()), db.View())
      invariant st.Valid() && (st.st == old(st.st) || fresh(st.st))
      invariant graph.Valid() && fresh(graph.owned - old(graph.owned))
      invariant graph.vidx.table == old(graph.vidx.table) || fresh(graph.vidx.table)
      invariant |ds| == i && forall j :: 0 <= j < i ==> deps[j] == Some(ds[j])
      invariant Followed(db.s, db.View(), lvl, ds, fs) && st.Contents() == old(st.Contents()) + fs
      invariant LinksAdded(m0, graph.model, ds, p) && forall x :: x in graph.model.names ==> x in room
      invariant OnlyFetches(db.s, db.aurOutdated, lvl, universe, old(db.failed), db.failed)
      invariant FollowedDownloads(db.s, db.aurOutdated, lvl, ds, fs, old(db.aurDownloaded), db.aurDownloaded)
    {
      if deps[i].None? {
        return false, ds, fs;
      }
      var d := deps[i].value;
      ghost var failed, downloaded := db.failed, db.aurDownloaded;
      var pushed := LinkDep(graph, db, st, p, d, lvl, m0, ds, fs, room);
      FailedThen(db.s, db.aurOutdated, lvl, universe, {d}, universe, old(db.failed), failed, db.failed);
      OneMoreFollowed(db.s, db.aurOutdated, lvl, ds, fs, d, pushed, old(db.aurDownloaded), downloaded,
                      db.aurDownloaded);
      ds, fs := ds + [d], fs + (if pushed then [d] else []);
      i := i + 1;
    }
    ok := true;
  }

  /** Every dependency downloaded before is followed, and every name downloaded since is one that is. */
  ghost predicate FollowedDownloads(s: Static, outdated: set<string>, lvl: Level, ds: seq<string>, fs: seq<string>,
                                    before: set<string>, after: set<string>)
  {
    && (forall d :: d in ds && d in before ==> d in fs)
    && OnlyDownloads(s, outdated, lvl, NameSet(fs), before, after)
  }

  lemma NoDownloadFollowed(s: Static, outdated: set<string>, lvl: Level, before: set<string>)
    ensures FollowedDownloads(s, outdated, lvl, [], [], before, before)
  {
  }

  lemma OneMoreFollowed(s: Static, outdated: set<string>, lvl: Level, ds: seq<string>, fs: seq<string>, d: string,
                        pushed: bool, before: set<string>, between: set<string>, after: set<string>)
    requires FollowedDownloads(s, outdated, lvl, ds, fs, before, between) && before <= between <= after
    requires OnlyDownloads(s, outdated, lvl, {d}, between, after) && (pushed <==> lvl == Thorough || d in after)
    ensures FollowedDownloads(s, outdated, lvl, ds + [d], fs + (if pushed then [d] else []), before, after)
  {
    hide Fetches;
  }

  lemma NothingLinked(m: Model<string>, p: string)
    requires Proper(m)
    ensures LinksAdded(m, m, [], p)
  {
  }

  lemma NothingFollowed(s: Static, st: State, lvl: Level)
    ensures Followed(s, st, lvl, [], [])
  {
  }

  lemma Roomy(graph: G.Graph<string>, room: set<string>)
    requires graph.Valid() && forall x :: x in graph.model.names ==> x in room
    ensures |graph.vertices| <= |room|
  {
    NamesBound(graph.model.names, room);
  }

  /** The dependencies shown to the user: those of packages that are to be installed, each once. */
  method AddImmediateDeps(db: HashDb, p: string, deps: seq<string>, immediate: set<string>)
    returns (immediate': set<string>, ghost added: seq<string>)
    modifies db`immediateDeps
    ensures db.immediateDeps == old(db.immediateDeps) + added
    ensures forall i, j :: 0 <= i < j < |added| ==> added[i] != added[j]
    ensures forall d :: d in immediate' <==> d in immediate || d in added
    ensures forall d :: d in added <==>
      && d in deps && d !in immediate
      && p in db.pkgFrom && db.pkgFrom[p] == FromAur && (p !in db.s.aur || p in db.aurOutdated)
  {
    immediate', added := immediate, [];
    if p !in db.pkgFrom {
      return;
    }
    if db.pkgFrom[p] == FromAur {
      if p !in db.s.aur || p in db.aurOutdated {
        for i := 0 to |deps|
          invariant db.immediateDeps == old(db.immediateDeps) + added
          invariant forall i, j :: 0 <= i < j < |added| ==> added[i] != added[j]
          invariant forall d :: d in immediate' <==> d in immediate || d in added
          invariant forall d :: d in added <==> d in deps[..i] && d !in immediate
        {
          if deps[i] !in immediate' {
            db.immediateDeps := db.immediateDeps + [deps[i]];
            immediate' := immediate' + {deps[i]};
            added := added + [deps[i]];
          }
          assert deps[..i + 1] == deps[..i] + [deps[i]];
        }
        assert deps[..|deps|] == deps;
      }
    }
  }

  /** For every resolved name, its dependencies are explained and the right ones are followed. */
  ghost predicate Told(s: Static, repo: map<string, seq<string>>, st: State, lvl: Level, deps: Follow, follow: Follow)
    requires OriginsTrue(s, st)
  {
    deps.Keys == follow.Keys &&
    forall p :: p in deps ==> Explains(s, repo, st, lvl, p, deps[p]) && Followed(s, st, lvl, deps[p], follow[p])
  }

  /** m is m0 with an edge from each dependency to the name that has it, and nothing else. */
  ghost predicate Drawn(m0: Model<string>, m: Model<string>, deps: Follow)
    requires Proper(m0)
  {
    && Proper(m)
    && (forall x :: x in m.names <==>
          x in m0.names || (x in deps && deps[x] != []) || exists p :: p in deps && x in deps[p])
    && (forall a, b :: Linked(m, a, b) <==> Linked(m0, a, b) || (b in deps && a in deps[b]))
  }

  lemma NothingDrawn(m: Model<string>)
    requires Proper(m)
    ensures Drawn(m, m, map[])
  {
  }

  lemma DrawnMore(m0: Model<string>, m: Model<string>, m': Model<string>, deps: Follow, p: string, ds: seq<string>)
    requires Proper(m0) && Drawn(m0, m, deps) && LinksAdded(m, m', ds, p) && p !in deps
    ensures Drawn(m0, m', deps[p := ds])
  {
    hide Linked, Proper;
    var deps' := deps[p := ds];
    forall x
      ensures x in m'.names <==>
        x in m0.names || (x in deps' && deps'[x] != []) || exists q :: q in deps' && x in deps'[q]
    {
      if x in ds {
        assert p in deps' && x in deps'[p];
      }
      if q :| q in deps && x in deps[q] {
        assert q in deps' && x in deps'[q];
      }
    }
  }

  lemma ToldMore(s: Static, repo: map<string, seq<string>>, st: State, st': State, lvl: Level, deps: Follow,
                 follow: Follow, p: string, ds: seq<string>, fs: seq<string>)
    requires OriginsTrue(s, st) && OriginsTrue(s, st') && Extends(st, st') && Told(s, repo, st, lvl, deps, follow)
    requires Explains(s, repo, st', lvl, p, ds) && Followed(s, st', lvl, ds, fs)
    ensures Told(s, repo, st', lvl, deps[p := ds], follow[p := fs])
  {
    hide OriginsTrue, Explains, Followed, Extends;
    forall q | q in deps
      ensures Explains(s, repo, st', lvl, q, deps[q]) && Followed(s, st', lvl, deps[q], follow[q])
    {
      ExplainsLater(s, repo, st, st', lvl, q, deps[q]);
      FollowedLater(s, st, st', lvl, deps[q], follow[q]);
    }
  }

  /** What a name's dependencies normalise to is inside the universe, and explains them. */
  lemma DepsExplained(s: Static, repo: map<string, seq<string>>, st: State, lvl: Level, targets: seq<string>,
                      p: string, final: string, deps: seq<Option<string>>)
    requires OriginsTrue(s, st) && p in Universe(s, repo, targets)
    requires Answers(s, st, p, final) && final in st.pkgFrom && (Fetches(s, st.outdated, lvl, final) ==> final in repo)
    requires SomeAnswer(s, st, DepNames(s, repo, st, final, lvl), deps)
    ensures forall i :: 0 <= i < |deps| && deps[i].Some? ==> deps[i].value in Universe(s, repo, targets)
    ensures None !in deps ==> Explains(s, repo, st, lvl, p, Values(deps))
  {
    hide Answers, OriginTrue, Fetches, Universe;
    var names := DepNames(s, repo, st, final, lvl);
    DepNamesInside(s, repo, st, targets, final, lvl);
    forall i | 0 <= i < |deps| && deps[i].Some?
      ensures deps[i].value in Universe(s, repo, targets)
    {
      assert names[i] in names;
      AnswersInside(s, repo, st, targets, names[i], deps[i].value);
    }
    if None !in deps {
      assert ExplainedBy(s, repo, st, lvl, final, Values(deps));
    }
  }

  /** How a name was resolved or failed to be: nothing but names to be fetched failed; without a failure it is
      Done; and which name failed tells how it ended. */
  ghost predicate Failure(s: Static, repo: map<string, seq<string>>, st: State, lvl: Level, targets: seq<string>,
                          p: string, outcome: Outcome, before: seq<string>, after: seq<string>)
  {
    && OnlyFetches(s, st.outdated, lvl, Universe(s, repo, targets), before, after)
    && (outcome != Done ==> |after| > |before|)
    && (outcome == ResolveError ==> |after| > 0 && NameFails(s, repo, st, lvl, p, after[|after| - 1]))
    && (outcome == NullDependency ==>
          |before| <= |after| && ScriptFails(s, repo, st, lvl, p, after[|before|..]))
  }

  lemma NotStopped(s: Static, repo: map<string, seq<string>>, st: State, lvl: Level, targets: seq<string>,
                   p: string, before: seq<string>, after: seq<string>)
    requires OnlyFetches(s, st.outdated, lvl, Universe(s, repo, targets), before, after)
    ensures Failure(s, repo, st, lvl, targets, p, Done, before, after)
  {
  }

  lemma StoppedAtName(s: Static, repo: map<string, seq<string>>, st: State, lvl: Level, targets: seq<string>,
                      p: string, before: seq<string>, after: seq<string>)
    requires OnlyFetches(s, st.outdated, lvl, Universe(s, repo, targets), before, after) && before != after
    requires |after| > 0 && NameFails(s, repo, st, lvl, p, after[|after| - 1])
    ensures Failure(s, repo, st, lvl, targets, p, ResolveError, before, after)
  {
    hide NameFails, Universe, Fetches;
  }

  lemma StoppedAtScript(s: Static, repo: map<string, seq<string>>, st: State, st': State, lvl: Level,
                        targets: seq<string>, p: string, before: seq<string>, between: seq<string>, after: seq<string>)
    requires Extends(st, st') && |before| < |between| && ScriptFails(s, repo, st, lvl, p, between[|before|..])
    requires OnlyFetches(s, st.outdated, lvl, Universe(s, repo, targets), before, between)
    requires OnlyFetches(s, st'.outdated, lvl, Universe(s, repo, targets), between, after)
    ensures Failure(s, repo, st', lvl, targets, p, NullDependency, before, after)
  {
    hide Universe, Fetches, Answers;
    var final, d :| Answers(s, st, p, final) && Fetches(s, st.outdated, lvl, final)
      && d in ScriptDeps(repo, final) && d in between[|before|..];
    AnswersLater(s, st, st', p, final);
    assert between[|before|..] <= after[|before|..];
    assert d in after[|before|..];
  }

  lemma FailedBefore(s: Static, repo: map<string, seq<string>>, st: State, st': State, lvl: Level,
                     targets: seq<string>, p: string, outcome: Outcome, before: seq<string>, between: seq<string>,
                     after: seq<string>)
    requires Extends(st, st') && OnlyFetches(s, st.outdated, lvl, Universe(s, repo, targets), before, between)
    requires Failure(s, repo, st', lvl, targets, p, outcome, between, after)
    ensures Failure(s, repo, st', lvl, targets, p, outcome, before, after)
    ensures OnlyFetches(s, st'.outdated, lvl, Universe(s, repo, targets), before, after)
  {
    hide Universe, Fetches, Answers, NameFails;
    if outcome == NullDependency {
      var final, d :| Answers(s, st', p, final) && Fetches(s, st'.outdated, lvl, final)
        && d in ScriptDeps(repo, final) && d in after[|between|..];
      assert after[|between|..] == after[|before|..][|between| - |before|..];
      assert d in after[|before|..];
    }
  }

  /** A crawl that is not Done met a name to be fetched: where there is none it cannot fail. */
  lemma FailureMeansFetch(s: Static, repo: map<string, seq<string>>, st: State, lvl: Level, targets: seq<string>,
                          p: string, outcome: Outcome, before: seq<string>, after: seq<string>)
    requires Failure(s, repo, st, lvl, targets, p, outcome, before, after) && outcome != Done
    ensures exists n :: n in Universe(s, repo, targets) && Fetches(s, st.outdated, lvl, n)
  {
    hide Universe, Fetches, NameFails, ScriptFails;
    assert after[|before|] in Universe(s, repo, targets);
  }

  /** Only names of the universe fail. */
  lemma ListedInside(s: Static, repo: map<string, seq<string>>, st: State, lvl: Level, targets: seq<string>,
                     p: string, final: string, before: seq<string>, after: seq<string>)
    requires p in Universe(s, repo, targets) && (Answers(s, st, p, final) || p == final)
    requires OnlyFetches(s, st.outdated, lvl, {p, final} + Listed(s, repo, st.outdated, lvl, final), before, after)
    ensures OnlyFetches(s, st.outdated, lvl, Universe(s, repo, targets), before, after)
  {
    if p != final {
      AnswersInside(s, repo, st, targets, p, final);
    }
    hide Fetches, Answers;
    ListedDepsInside(s, repo, st.outdated, targets, final, lvl);
  }

  /** Finds the dependencies of a name, inside the universe, or why there are none. */
  method FindDependencies(db: HashDb, p: string, lvl: Level, ghost targets: seq<string>)
    returns (ok: bool, found: seq<Option<string>>)
    requires db.Valid() && p in Universe(db.s, db.repo, targets)
    modifies db`pkgFrom, db`providesCache, db`aurDownloaded, db`failed
    ensures db.Valid() && Extends(old(db.View()), db.View())
    ensures OnlyFetches(db.s, db.aurOutdated, lvl, Universe(db.s, db.repo, targets), old(db.failed), db.failed)
    ensures ok ==> forall i :: 0 <= i < |found| && found[i].Some? ==>
      found[i].value in db.pkgFrom && found[i].value in Universe(db.s, db.repo, targets)
    ensures ok && None !in found ==> Explains(db.s, db.repo, db.View(), lvl, p, Values(found))
    ensures ok && None in found ==>
      |old(db.failed)| < |db.failed|
      && ScriptFails(db.s, db.repo, db.View(), lvl, p, db.failed[|old(db.failed)|..])
    ensures !ok ==> Failure(db.s, db.repo, db.View(), lvl, targets, p, ResolveError, old(db.failed), db.failed)
    ensures OnlyDownloads(db.s, db.aurOutdated, lvl, {p} + Somes(found), old(db.aurDownloaded), db.aurDownloaded)
  {
    hide OnlyDownloads, Somes;
    hide CacheTrue, Built, Explains, SomeAnswer, DepNames, Universe, Extends, Judge, Search, Answers, OriginTrue;
    hide OnlyFetches, Fetches, NameFails, ScriptFails, Failure, Listed, RanThrough, Normalized;
    ghost var final;
    ok, found, final := CrawlResolve(db, p, lvl);
    ghost var st := db.View();
    ListedInside(db.s, db.repo, st, lvl, targets, p, final, old(db.failed), db.failed);
    if !ok {
      StoppedAtName(db.s, db.repo, st, lvl, targets, p, old(db.failed), db.failed);
      return;
    }
    DepsExplained(db.s, db.repo, st, lvl, targets, p, final, found);
    FoundRecorded(db.s, st, DepNames(db.s, db.repo, st, final, lvl), found);
  }

  /** Resolves one name: its dependencies become edges, and those to follow go on the worklist. */
  method ResolveName(graph: G.Graph<string>, db: HashDb, st: Stack<string>, p: string, lvl: Level,
                     ghost targets: seq<string>, ghost room: set<string>)
    returns (outcome: Outcome, deps: seq<string>, ghost fs: seq<string>)
    requires db.Valid() && st.Valid() && graph.Valid()
    requires p in Universe(db.s, db.repo, targets) && Universe(db.s, db.repo, targets) <= room && |room| + 2 <= CAPACITY
    requires forall x :: x in graph.model.names ==> x in room
    modifies db`pkgFrom, db`providesCache, db`aurDownloaded, db`failed, st, st.st
    modifies graph, graph.vidx, graph.vidx.table, graph.owned
    ensures db.Valid() && Extends(old(db.View()), db.View())
    ensures st.Valid() && (st.st == old(st.st) || fresh(st.st))
    ensures graph.Valid() && fresh(graph.owned - old(graph.owned))
    ensures graph.vidx.table == old(graph.vidx.table) || fresh(graph.vidx.table)
    ensures forall x :: x in graph.model.names ==> x in room
    ensures outcome == ResolveError ==> graph.model == old(graph.model)
    ensures Failure(db.s, db.repo, db.View(), lvl, targets, p, outcome, old(db.failed), db.failed)
    ensures outcome == Done ==>
      && Explains(db.s, db.repo, db.View(), lvl, p, deps) && Followed(db.s, db.View(), lvl, deps, fs)
      && st.Contents() == old(st.Contents()) + fs && LinksAdded(old(graph.model), graph.model, deps, p)
      && forall d :: d in deps ==> d in Universe(db.s, db.repo, targets)
    ensures outcome == Done ==>
      OnlyDownloads(db.s, db.aurOutdated, lvl, {p} + NameSet(fs), old(db.aurDownloaded), db.aurDownloaded)
  {
    hide OnlyDownloads, Somes, FollowedDownloads;
    hide CacheTrue, Built, Followed, WithEdge, Linked, Proper, LinksAdded, Explains, Universe;
    hide Lawful, Exact, WellFormed, Holds, G.Stored, G.Indexed, Judge, Search, OriginTrue;
    hide OnlyFetches, ScriptFails, Failure;
    deps, fs := [], [];
    var ok, found := FindDependencies(db, p, lvl, targets);
    if !ok {
      return ResolveError, deps, fs;
    }
    ghost var before, failed := db.View(), db.failed;
    ghost var ds;
    ok, ds, fs := LinkDeps(graph, db, st, p, found, lvl, Universe(db.s, db.repo, targets), room);
    if !ok {
      StoppedAtScript(db.s, db.repo, before, db.View(), lvl, targets, p, old(db.failed), failed, db.failed);
      return NullDependency, deps, fs;
    }
    deps := Values(found);
    outcome := Done;
    ExplainsLater(db.s, db.repo, before, db.View(), lvl, p, deps);
    ResolvedDownloads(db.s, before.outdated, lvl, p, found, fs, old(db.aurDownloaded), before.downloaded,
                      db.aurDownloaded);
    NotStoppedThen(db.s, db.repo, before, db.View(), lvl, targets, p, old(db.failed), failed, db.failed);
  }

  lemma ResolvedDownloads(s: Static, outdated: set<string>, lvl: Level, p: string, found: seq<Option<string>>,
                          fs: seq<string>, before: set<string>, between: set<string>, after: set<string>)
    requires OnlyDownloads(s, outdated, lvl, {p} + Somes(found), before, between) && None !in found
    requires FollowedDownloads(s, outdated, lvl, Values(found), fs, between, after)
    ensures OnlyDownloads(s, outdated, lvl, {p} + NameSet(fs), before, after)
  {
    hide Fetches;
    forall n | n in Somes(found)
      ensures n in Values(found)
    {
      var i :| 0 <= i < |found| && found[i] == Some(n);
      assert Values(found)[i] == n;
    }
  }

  lemma NotStoppedThen(s: Static, repo: map<string, seq<string>>, st: State, st': State, lvl: Level,
                       targets: seq<string>, p: string, before: seq<string>, between: seq<string>, after: seq<string>)
    requires st.outdated == st'.outdated
    requires OnlyFetches(s, st.outdated, lvl, Universe(s, repo, targets), before, between)
    requires OnlyFetches(s, st'.outdated, lvl, Universe(s, repo, targets), between, after)
    ensures Failure(s, repo, st', lvl, targets, p, Done, before, after)
  {
    hide Universe, Fetches;
  }

  lemma FoundRecorded(s: Static, st: State, names: seq<string>, deps: seq<Option<string>>)
    requires SomeAnswer(s, st, names, deps)
    ensures forall i :: 0 <= i < |deps| && deps[i].Some? ==> deps[i].value in st.pkgFrom
  {
  }

  /** The names a crawl and its graph can ever hold. */
  ghost function Room(s: Static, repo: map<string, seq<string>>, targets: seq<string>, m: Model<string>): set<string>
  {
    Universe(s, repo, targets) + set x | x in m.names
  }

  lemma TargetsInside(s: Static, repo: map<string, seq<string>>, targets: seq<string>)
    ensures forall t :: t in targets ==> t in Universe(s, repo, targets)
  {
  }

  method PushAll(targets: seq<string>) returns (st: Stack<string>)
    ensures fresh(st) && fresh(st.st) && st.Valid() && st.Contents() == targets
  {
    st := new Stack<string>();
    for i := 0 to |targets|
      invariant fresh(st.st) && st.Valid() && st.Contents() == targets[..i]
    {
      st.Push(targets[i]);
      assert targets[..i + 1] == targets[..i] + [targets[i]];
    }
    assert targets[..|targets|] == targets;
  }

  /** What holds between two turns of the crawl. */
  ghost predicate Between(s: Static, repo: map<string, seq<string>>, st: State, lvl: Level, targets: seq<string>,
                          waiting: seq<string>, m0: Model<string>, m: Model<string>, deps: Follow, follow: Follow)
    requires OriginsTrue(s, st) && Proper(m0)
  {
    && deps.Keys == follow.Keys && follow.Keys <= Universe(s, repo, targets)
    && (forall x :: x in waiting ==> x in Universe(s, repo, targets))
    && Crawling(targets, waiting, follow)
    && Told(s, repo, st, lvl, deps, follow) && Drawn(m0, m, deps)
  }

  /** A resolved name leaves the worklist. */
  lemma BetweenDrops(s: Static, repo: map<string, seq<string>>, st: State, lvl: Level, targets: seq<string>,
                     waiting: seq<string>, m0: Model<string>, m: Model<string>, deps: Follow, follow: Follow)
    requires OriginsTrue(s, st) && Proper(m0) && Between(s, repo, st, lvl, targets, waiting, m0, m, deps, follow)
    requires waiting != [] && waiting[|waiting| - 1] in follow
    ensures Between(s, repo, st, lvl, targets, waiting[..|waiting| - 1], m0, m, deps, follow)
  {
    hide OriginsTrue, Proper, Told, Drawn, Crawling, Universe;
    PopMembers(waiting);
    CrawlingDrops(targets, waiting, follow);
  }

  /** A name is resolved. */
  lemma BetweenResolves(s: Static, repo: map<string, seq<string>>, st: State, st': State, lvl: Level,
                        targets: seq<string>, waiting: seq<string>, m0: Model<string>, m: Model<string>,
                        m': Model<string>, deps: Follow, follow: Follow, ds: seq<string>, fs: seq<string>)
    requires OriginsTrue(s, st) && Proper(m0) && Between(s, repo, st, lvl, targets, waiting, m0, m, deps, follow)
    requires waiting != [] && waiting[|waiting| - 1] !in follow
    requires OriginsTrue(s, st') && Extends(st, st') && Explains(s, repo, st', lvl, waiting[|waiting| - 1], ds)
    requires Followed(s, st', lvl, ds, fs) && forall d :: d in ds ==> d in Universe(s, repo, targets)
    requires Proper(m) ==> LinksAdded(m, m', ds, waiting[|waiting| - 1])
    ensures var p := waiting[|waiting| - 1];
      Between(s, repo, st', lvl, targets, waiting[..|waiting| - 1] + fs, m0, m', deps[p := ds], follow[p := fs])
  {
    hide OriginsTrue, Told, Crawling, Universe, Explains, Extends, Followed, Linked, LinksAdded, Proper;
    var p := waiting[|waiting| - 1];
    PopMembers(waiting);
    assert p in waiting;
    ToldMore(s, repo, st, st', lvl, deps, follow, p, ds, fs);
    DrawnMore(m0, m, m', deps, p, ds);
    CrawlingResolves(targets, waiting, follow, fs);
    FollowedInside(s, st', lvl, ds, fs, Universe(s, repo, targets));
  }

  /** A failure leaves what was found out standing. */
  lemma BetweenFails(s: Static, repo: map<string, seq<string>>, st: State, st': State, lvl: Level, targets: seq<string>,
                     waiting: seq<string>, m0: Model<string>, m: Model<string>, deps: Follow, follow: Follow)
    requires OriginsTrue(s, st) && Proper(m0) && Between(s, repo, st, lvl, targets, waiting, m0, m, deps, follow)
    requires OriginsTrue(s, st') && Extends(st, st')
    ensures Told(s, repo, st', lvl, deps, follow) && Drawn(m0, m, deps)
    ensures Least(targets, follow) && (waiting != [] ==> Required(targets, follow, waiting[|waiting| - 1]))
  {
    hide OriginsTrue, Proper, Told, Drawn, Crawling, Universe, Extends, Required, Least;
    ToldLater(s, repo, st, st', lvl, deps, follow);
    CrawlingRequires(targets, waiting, follow);
  }

  /** The names that are resolved or waiting. */
  ghost function Met(follow: Follow, waiting: seq<string>): set<string>
  {
    follow.Keys + NameSet(waiting)
  }

  lemma DownloadsLater(s: Static, st: State, st': State, lvl: Level, room: set<string>, room': set<string>,
                       before: set<string>)
    requires Extends(st, st') && room <= room'
    requires OnlyDownloads(s, st.outdated, lvl, room, before, st.downloaded)
    requires OnlyDownloads(s, st'.outdated, lvl, room', st.downloaded, st'.downloaded)
    ensures OnlyDownloads(s, st'.outdated, lvl, room', before, st'.downloaded)
  {
    hide Fetches;
  }

  lemma AllMet(follow: Follow)
    ensures Met(follow, []) == follow.Keys
  {
  }

  lemma MetDrops(s: Static, outdated: set<string>, lvl: Level, follow: Follow, waiting: seq<string>,
                 downloaded: set<string>)
    requires waiting != [] && waiting[|waiting| - 1] in follow
    ensures Met(follow, waiting) <= Met(follow, waiting[..|waiting| - 1])
    ensures OnlyDownloads(s, outdated, lvl, Met(follow, waiting[..|waiting| - 1]), downloaded, downloaded)
  {
    PopMembers(waiting);
  }

  lemma MetResolves(s: Static, outdated: set<string>, lvl: Level, follow: Follow, follow': Follow,
                    waiting: seq<string>, fs: seq<string>, before: set<string>, after: set<string>)
    requires waiting != [] && follow'.Keys == follow.Keys + {waiting[|waiting| - 1]}
    requires OnlyDownloads(s, outdated, lvl, {waiting[|waiting| - 1]} + NameSet(fs), before, after)
    ensures Met(follow, waiting) <= Met(follow', waiting[..|waiting| - 1] + fs)
    ensures OnlyDownloads(s, outdated, lvl, Met(follow', waiting[..|waiting| - 1] + fs), before, after)
  {
    hide Fetches;
    PopMembers(waiting);
  }

  /** A crawl that stopped at a name, which is required and not resolved, has told the truth until then. */
  ghost predicate StoppedAt(s: Static, repo: map<string, seq<string>>, st: State, lvl: Level, targets: seq<string>,
                            at: string, outcome: Outcome, m0: Model<string>, m: Model<string>, deps: Follow,
                            follow: Follow)
    requires OriginsTrue(s, st) && Proper(m0)
  {
    && Told(s, repo, st, lvl, deps, follow) && Least(targets, follow)
    && at !in follow && Required(targets, follow, at)
    && (outcome == ResolveError ==> Drawn(m0, m, deps))
  }

  /** Resolves the name p taken from the worklist, which has not been resolved before. */
  method ResolveNext(graph: G.Graph<string>, db: HashDb, st: Stack<string>, p: string, lvl: Level,
                     ghost targets: seq<string>, ghost room: set<string>, ghost m0: Model<string>,
                     ghost deps: Follow, ghost follow: Follow, ghost waiting: seq<string>)
    returns (outcome: Outcome, ds: seq<string>, ghost deps': Follow, ghost follow': Follow)
    requires db.Valid() && st.Valid() && graph.Valid()
    requires Universe(db.s, db.repo, targets) <= room && |room| + 2 <= CAPACITY
    requires forall x :: x in graph.model.names ==> x in room
    requires waiting == st.Contents() + [p] && Proper(m0) && p !in follow
    requires Between(db.s, db.repo, db.View(), lvl, targets, waiting, m0, graph.model, deps, follow)
    modifies db`pkgFrom, db`providesCache, db`aurDownloaded, db`failed, st, st.st
    modifies graph, graph.vidx, graph.vidx.table, graph.owned
    ensures db.Valid() && Extends(old(db.View()), db.View())
    ensures st.Valid() && (st.st == old(st.st) || fresh(st.st))
    ensures graph.Valid() && fresh(graph.owned - old(graph.owned))
    ensures graph.vidx.table == old(graph.vidx.table) || fresh(graph.vidx.table)
    ensures forall x :: x in graph.model.names ==> x in room
    ensures Failure(db.s, db.repo, db.View(), lvl, targets, p, outcome, old(db.failed), db.failed)
    ensures outcome != Done ==>
      StoppedAt(db.s, db.repo, db.View(), lvl, targets, p, outcome, m0, graph.model, deps', follow')
    ensures outcome == Done ==>
      && follow'.Keys == follow.Keys + {p}
      && Between(db.s, db.repo, db.View(), lvl, targets, st.Contents(), m0, graph.model, deps', follow')
    ensures outcome == Done ==>
      && OnlyDownloads(db.s, db.aurOutdated, lvl, Met(follow', st.Contents()), old(db.aurDownloaded), db.aurDownloaded)
      && Met(follow, waiting) <= Met(follow', st.Contents())
  {
    hide OnlyDownloads, Met;
    hide CacheTrue, Built, Followed, WithEdge, Linked, Proper, LinksAdded, Explains, DepNames, Universe, Told, Drawn;
    hide Lawful, Exact, WellFormed, Holds, G.Stored, G.Indexed, Judge, Search, Answers, OriginTrue, Crawling;
    hide Extends, OriginsTrue, Between, SomeAnswer, Hidden, PlainAnswer, Failure, Required, Least;
    ghost var before, m, rest := db.View(), graph.model, st.Contents();
    assert waiting[|waiting| - 1] == p && waiting[..|waiting| - 1] == rest;
    ghost var fs;
    NextInUniverse(db.s, db.repo, before, lvl, targets, waiting, m0, m, deps, follow);
    outcome, ds, fs := ResolveName(graph, db, st, p, lvl, targets, room);
    deps', follow' := BetweenGoesOn(db.s, db.repo, before, db.View(), lvl, targets, waiting, m0, m, graph.model,
                                    deps, follow, outcome, ds, fs);
    if outcome == Done {
      MetResolves(db.s, db.aurOutdated, lvl, follow, follow', waiting, fs, old(db.aurDownloaded), db.aurDownloaded);
    }
  }

  /** What a turn that resolves a name, or fails to, makes of what held before it. */
  lemma BetweenGoesOn(s: Static, repo: map<string, seq<string>>, st: State, st': State, lvl: Level,
                      targets: seq<string>, waiting: seq<string>, m0: Model<string>, m: Model<string>,
                      m': Model<string>, deps: Follow, follow: Follow, outcome: Outcome, ds: seq<string>,
                      fs: seq<string>)
    returns (deps': Follow, follow': Follow)
    requires OriginsTrue(s, st) && Proper(m0) && Between(s, repo, st, lvl, targets, waiting, m0, m, deps, follow)
    requires waiting != [] && waiting[|waiting| - 1] !in follow
    requires OriginsTrue(s, st') && Extends(st, st')
    requires outcome == ResolveError ==> m' == m
    requires outcome == Done ==>
      && Explains(s, repo, st', lvl, waiting[|waiting| - 1], ds) && Followed(s, st', lvl, ds, fs)
      && (Proper(m) ==> LinksAdded(m, m', ds, waiting[|waiting| - 1]))
      && forall d :: d in ds ==> d in Universe(s, repo, targets)
    ensures outcome != Done ==> Told(s, repo, st', lvl, deps', follow') && follow' == follow
    ensures outcome != Done ==> Least(targets, follow') && Required(targets, follow', waiting[|waiting| - 1])
    ensures outcome == ResolveError ==> Drawn(m0, m', deps')
    ensures outcome == Done ==>
      && follow'.Keys == follow.Keys + {waiting[|waiting| - 1]}
      && Between(s, repo, st', lvl, targets, waiting[..|waiting| - 1] + fs, m0, m', deps', follow')
  {
    hide OriginsTrue, Between, Explains, Extends, Followed, LinksAdded, Proper, Told, Drawn, Universe, Required;
    hide Least;
    deps', follow' := deps, follow;
    if outcome == Done {
      BetweenResolves(s, repo, st, st', lvl, targets, waiting, m0, m, m', deps, follow, ds, fs);
      var p := waiting[|waiting| - 1];
      deps', follow' := deps[p := ds], follow[p := fs];
    } else {
      BetweenFails(s, repo, st, st', lvl, targets, waiting, m0, m, deps, follow);
    }
  }

  lemma NextInUniverse(s: Static, repo: map<string, seq<string>>, st: State, lvl: Level, targets: seq<string>,
                       waiting: seq<string>, m0: Model<string>, m: Model<string>, deps: Follow, follow: Follow)
    requires OriginsTrue(s, st) && Proper(m0) && Between(s, repo, st, lvl, targets, waiting, m0, m, deps, follow)
    ensures waiting != [] ==> waiting[|waiting| - 1] in Universe(s, repo, targets)
  {
    hide OriginsTrue, Proper, Told, Drawn, Crawling, Universe;
  }

  /** One turn of the crawl: a name is taken from the worklist and, unless it is resolved, resolved. */
  method Turn(graph: G.Graph<string>, db: HashDb, st: Stack<string>, lvl: Level, resolved: set<string>,
              immediate: set<string>, ghost targets: seq<string>, ghost room: set<string>, ghost m0: Model<string>,
              ghost deps: Follow, ghost follow: Follow)
    returns (outcome: Outcome, resolved': set<string>, immediate': set<string>, ghost deps': Follow,
             ghost follow': Follow, ghost at: string)
    requires db.Valid() && st.Valid() && graph.Valid() && !st.Empty()
    requires Universe(db.s, db.repo, targets) <= room && |room| + 2 <= CAPACITY
    requires forall x :: x in graph.model.names ==> x in room
    requires Proper(m0) && resolved == follow.Keys
    requires Between(db.s, db.repo, db.View(), lvl, targets, st.Contents(), m0, graph.model, deps, follow)
    modifies db, st, st.st, graph, graph.vidx, graph.vidx.table, graph.owned
    ensures db.Valid() && Extends(old(db.View()), db.View())
    ensures st.Valid() && (st.st == old(st.st) || fresh(st.st))
    ensures graph.Valid() && fresh(graph.owned - old(graph.owned))
    ensures graph.vidx.table == old(graph.vidx.table) || fresh(graph.vidx.table)
    ensures forall x :: x in graph.model.names ==> x in room
    ensures outcome == Done ==>
      && resolved' == follow'.Keys && (resolved' > resolved || (resolved' == resolved && st.nr < old(st.nr)))
      && Between(db.s, db.repo, db.View(), lvl, targets, st.Contents(), m0, graph.model, deps', follow')
    ensures Failure(db.s, db.repo, db.View(), lvl, targets, at, outcome, old(db.failed), db.failed)
    ensures outcome != Done ==>
      StoppedAt(db.s, db.repo, db.View(), lvl, targets, at, outcome, m0, graph.model, deps', follow')
    ensures outcome == Done ==>
      && OnlyDownloads(db.s, db.aurOutdated, lvl, Met(follow', st.Contents()), old(db.aurDownloaded), db.aurDownloaded)
      && Met(follow, old(st.Contents())) <= Met(follow', st.Contents())
  {
    hide OnlyDownloads, Met, StoppedAt;
    hide CacheTrue, Built, Followed, WithEdge, Linked, Proper, LinksAdded, Explains, DepNames, Universe, Told, Drawn;
    hide Lawful, Exact, WellFormed, Holds, G.Stored, G.Indexed, Judge, Search, Answers, OriginTrue, Crawling;
    hide OriginsTrue, Extends, Between, Failure, Required, OnlyFetches, Least;
    ghost var waiting := st.Contents();
    resolved', immediate', deps', follow' := resolved, immediate, deps, follow;
    ExtendsReflexive(db.View());
    NothingFailed(db.s, db.aurOutdated, lvl, Universe(db.s, db.repo, targets), db.failed);
    var p := st.Pop();
    at := p;
    assert st.Contents() == waiting[..|waiting| - 1] && p == waiting[|waiting| - 1];
    if p in resolved {
      BetweenDrops(db.s, db.repo, db.View(), lvl, targets, waiting, m0, graph.model, deps, follow);
      NotStopped(db.s, db.repo, db.View(), lvl, targets, at, old(db.failed), db.failed);
      MetDrops(db.s, db.aurOutdated, lvl, follow, waiting, db.aurDownloaded);
      return Done, resolved', immediate', deps', follow', at;
    }
    assert waiting == st.Contents() + [p];
    var ds;
    outcome, ds, deps', follow' := ResolveNext(graph, db, st, p, lvl, targets, room, m0, deps, follow, waiting);
    if outcome == Done {
      resolved' := resolved + {p};
      ghost var added;
      immediate', added := AddImmediateDeps(db, p, ds, immediate);
    }
  }

  /** Resolves the targets and everything they lead to, and draws the graph of dependencies. Unless the
      download or the directory of a name to be fetched is not to be had, it is Done. When it is Done, the
      names resolved are the closure of the targets, no more and no less. The edges drawn are those from
      each dependency to the resolved name that has it, also when the name at cannot be resolved. */
  method BuildDepGraph(graph: G.Graph<string>, db: HashDb, targets: seq<string>, lvl: Level)
    returns (outcome: Outcome, ghost deps: Follow, ghost follow: Follow, ghost at: string)
    requires db.Valid() && graph.Valid()
    requires |Room(db.s, db.repo, targets, graph.model)| + 2 <= CAPACITY
    modifies db, graph, graph.vidx, graph.vidx.table, graph.owned
    ensures db.Valid() && Extends(old(db.View()), db.View())
    ensures graph.Valid() && fresh(graph.owned - old(graph.owned))
    ensures graph.vidx.table == old(graph.vidx.table) || fresh(graph.vidx.table)
    ensures outcome == Done ==> IsClosure(deps.Keys, targets, follow)
    ensures Failure(db.s, db.repo, db.View(), lvl, targets, at, outcome, old(db.failed), db.failed)
    ensures outcome != Done ==> at !in follow && Required(targets, follow, at)
    ensures Told(db.s, db.repo, db.View(), lvl, deps, follow) && Least(targets, follow)
    ensures outcome != NullDependency ==> Drawn(old(graph.model), graph.model, deps)
    ensures forall p :: p in deps ==> InFull(db.s, db.repo, db.View(), lvl, p, deps[p])
    ensures outcome != NullDependency ==>
      forall p, i :: p in deps && 0 <= i < |deps[p]| ==> Linked(graph.model, deps[p][i], p)
    ensures outcome == Done ==>
      OnlyDownloads(db.s, db.aurOutdated, lvl, deps.Keys, old(db.aurDownloaded), db.aurDownloaded)
  {
    hide OnlyDownloads, Met;
    hide CacheTrue, Built, Followed, WithEdge, Linked, Proper, LinksAdded, Explains, DepNames, Universe, Told, Drawn;
    hide Lawful, Exact, WellFormed, Holds, G.Stored, G.Indexed, Judge, Search, Answers, OriginTrue, Crawling, IsClosure;
    hide Extends, OriginsTrue, Between, Failure, Required, OnlyFetches, Least, InFull;
    ghost var m0 := graph.model;
    ghost var universe := Universe(db.s, db.repo, targets);
    ghost var room := Room(db.s, db.repo, targets, graph.model);
    deps, follow, at := map[], map[], "";
    NothingFailed(db.s, db.aurOutdated, lvl, universe, db.failed);
    NothingDownloaded(db.s, db.aurOutdated, lvl, Met(follow, targets), db.aurDownloaded);
    var st := PushAll(targets);
    var resolved: set<string>, immediate: set<string> := {}, {};
    ExtendsReflexive(db.View());
    BetweenStarts(db.s, db.repo, db.View(), lvl, targets, m0);
    while !st.Empty()
      invariant db.Valid() && Extends(old(db.View()), db.View())
      invariant st.Valid() && fresh(st) && fresh(st.st)
      invariant graph.Valid() && fresh(graph.owned - old(graph.owned))
      invariant graph.vidx.table == old(graph.vidx.table) || fresh(graph.vidx.table)
      invariant forall x :: x in graph.model.names ==> x in room
      invariant resolved == follow.Keys
      invariant Between(db.s, db.repo, db.View(), lvl, targets, st.Contents(), m0, graph.model, deps, follow)
      invariant OnlyFetches(db.s, db.aurOutdated, lvl, universe, old(db.failed), db.failed)
      invariant OnlyDownloads(db.s, db.aurOutdated, lvl, Met(follow, st.Contents()), old(db.aurDownloaded),
                              db.aurDownloaded)
      decreases universe - resolved, st.nr
    {
      ghost var before, failed, met := db.View(), db.failed, Met(follow, st.Contents());
      outcome, resolved, immediate, deps, follow, at :=
        Turn(graph, db, st, lvl, resolved, immediate, targets, room, m0, deps, follow);
      ExtendsTransitive(old(db.View()), before, db.View());
      FailedBefore(db.s, db.repo, before, db.View(), lvl, targets, at, outcome, old(db.failed), failed, db.failed);
      if outcome != Done {
        ToldInFull(db.s, db.repo, db.View(), lvl, m0, graph.model, deps, follow);
        return;
      }
      BetweenInside(db.s, db.repo, db.View(), lvl, targets, st.Contents(), m0, graph.model, deps, follow);
      DownloadsLater(db.s, before, db.View(), lvl, met, Met(follow, st.Contents()), old(db.aurDownloaded));
    }
    BetweenEnds(db.s, db.repo, db.View(), lvl, targets, m0, graph.model, deps, follow);
    ToldInFull(db.s, db.repo, db.View(), lvl, m0, graph.model, deps, follow);
    NotStopped(db.s, db.repo, db.View(), lvl, targets, at, old(db.failed), db.failed);
    AllMet(follow);
    outcome := Done;
  }

  /** The dependencies of a resolved name are all that its package lists, and every one is drawn. */
  lemma ToldInFull(s: Static, repo: map<string, seq<string>>, st: State, lvl: Level, m0: Model<string>,
                   m: Model<string>, deps: Follow, follow: Follow)
    requires Built(s) && OriginsTrue(s, st) && Told(s, repo, st, lvl, deps, follow)
    ensures forall p :: p in deps ==> InFull(s, repo, st, lvl, p, deps[p])
    ensures Proper(m0) && Drawn(m0, m, deps) ==>
      Proper(m) && forall p, i :: p in deps && 0 <= i < |deps[p]| ==> Linked(m, deps[p][i], p)
  {
    hide Built, OriginsTrue, Explains, Followed, InFull, Linked, Proper;
    forall p | p in deps
      ensures InFull(s, repo, st, lvl, p, deps[p])
    {
      ExplainsInFull(s, repo, st, lvl, p, deps[p]);
    }
  }

  lemma BetweenStarts(s: Static, repo: map<string, seq<string>>, st: State, lvl: Level, targets: seq<string>,
                     m0: Model<string>)
    requires OriginsTrue(s, st) && Proper(m0)
    ensures Between(s, repo, st, lvl, targets, targets, m0, m0, map[], map[])
  {
    TargetsInside(s, repo, targets);
    CrawlingStarts(targets);
    NothingDrawn(m0);
    NothingTold(s, repo, st, lvl);
  }

  lemma BetweenInside(s: Static, repo: map<string, seq<string>>, st: State, lvl: Level, targets: seq<string>,
                      waiting: seq<string>, m0: Model<string>, m: Model<string>, deps: Follow, follow: Follow)
    requires OriginsTrue(s, st) && Proper(m0) && Between(s, repo, st, lvl, targets, waiting, m0, m, deps, follow)
    ensures follow.Keys <= Universe(s, repo, targets)
  {
  }

  lemma BetweenEnds(s: Static, repo: map<string, seq<string>>, st: State, lvl: Level, targets: seq<string>,
                    m0: Model<string>, m: Model<string>, deps: Follow, follow: Follow)
    requires OriginsTrue(s, st) && Proper(m0) && Between(s, repo, st, lvl, targets, [], m0, m, deps, follow)
    ensures IsClosure(deps.Keys, targets, follow) && Told(s, repo, st, lvl, deps, follow) && Drawn(m0, m, deps)
    ensures Least(targets, follow)
  {
    CrawlingEnds(targets, follow);
  }

  /** At the thorough level all dependencies are followed, so a crawl that is Done has resolved the
      closure of its targets under their dependencies. */
  lemma ThoroughFollowsAll(s: Static, repo: map<string, seq<string>>, st: State, targets: seq<string>,
                           deps: Follow, follow: Follow)
    requires OriginsTrue(s, st) && Told(s, repo, st, Thorough, deps, follow) && IsClosure(deps.Keys, targets, follow)
    ensures follow == deps && IsClosure(deps.Keys, targets, deps)
  {
    forall p | p in deps
      ensures follow[p] == deps[p]
    {
      assert Followed(s, st, Thorough, deps[p], follow[p]);
    }
  }

  /** The crawl finds the same whatever was asked before and in whatever order its targets come: where
      nothing is hidden, two thorough crawls of the same targets that are Done have resolved the same
      names, each to the same dependencies, those the tables alone determine. */
  lemma ThoroughCrawlsAgree(s: Static, repo: map<string, seq<string>>, st1: State, st2: State,
                            targets1: seq<string>, targets2: seq<string>,
                            deps1: Follow, follow1: Follow, deps2: Follow, follow2: Follow)
    requires Built(s) && OriginsTrue(s, st1) && OriginsTrue(s, st2)
    requires forall n :: !Hidden(s, st1, n) && !Hidden(s, st2, n)
    requires Told(s, repo, st1, Thorough, deps1, follow1) && IsClosure(deps1.Keys, targets1, follow1)
    requires Told(s, repo, st2, Thorough, deps2, follow2) && IsClosure(deps2.Keys, targets2, follow2)
    requires forall t :: t in targets1 <==> t in targets2
    ensures deps1 == deps2
    ensures forall p :: p in deps1 ==> deps1[p] == PlainDeps(s, repo, {}, Thorough, p)
  {
    hide Built, OriginsTrue, Hidden, Explains, IsClosure, PlainDeps;
    ThoroughFollowsAll(s, repo, st1, targets1, deps1, follow1);
    ThoroughFollowsAll(s, repo, st2, targets2, deps2, follow2);
    ToldPlainly(s, repo, st1, deps1, follow1);
    ToldPlainly(s, repo, st2, deps2, follow2);
    ClosureInside(targets1, deps1, targets2, deps2);
    ClosureInside(targets2, deps2, targets1, deps1);
  }

  lemma ToldPlainly(s: Static, repo: map<string, seq<string>>, st: State, deps: Follow, follow: Follow)
    requires Built(s) && OriginsTrue(s, st) && forall n :: !Hidden(s, st, n)
    requires Told(s, repo, st, Thorough, deps, follow)
    ensures forall p :: p in deps ==> deps[p] == PlainDeps(s, repo, {}, Thorough, p)
  {
    hide Built, OriginsTrue, Hidden, Explains, PlainAnswer;
    forall p | p in deps
      ensures deps[p] == PlainDeps(s, repo, {}, Thorough, p)
    {
      ExplainsPlainly(s, repo, st, Thorough, p, deps[p]);
    }
  }

  lemma NothingTold(s: Static, repo: map<string, seq<string>>, st: State, lvl: Level)
    requires OriginsTrue(s, st)
    ensures Told(s, repo, st, lvl, map[], map[])
  {
  }

  lemma ToldLater(s: Static, repo: map<string, seq<string>>, st: State, st': State, lvl: Level, deps: Follow,
                  follow: Follow)
    requires OriginsTrue(s, st) && OriginsTrue(s, st') && Extends(st, st') && Told(s, repo, st, lvl, deps, follow)
    ensures Told(s, repo, st', lvl, deps, follow)
  {
    hide OriginsTrue, Explains, Followed, Extends;
    forall q | q in deps
      ensures Explains(s, repo, st', lvl, q, deps[q]) && Followed(s, st', lvl, deps[q], follow[q])
    {
      ExplainsLater(s, repo, st, st', lvl, q, deps[q]);
      FollowedLater(s, st, st', lvl, deps[q], follow[q]);
    }
  }

  lemma FollowedInside(s: Static, st: State, lvl: Level, ds: seq<string>, fs: seq<string>, universe: set<string>)
    requires Followed(s, st, lvl, ds, fs) && forall d :: d in ds ==> d in universe
    ensures forall d :: d in fs ==> d in universe
  {
  }
}
