/** From the sorted graph to the list of packages to build and install. */
module Install {
  import opened AllocSize
  import opened Probing
  import opened Stack
  import opened Digraph
  import opened Sequences
  import opened GraphModel
  import G = Graph
  import opened PackageDb
  import opened HashDb
  import opened CrawlModel
  import opened Crawl

  /** An AUR package that is outdated or not installed. */
  predicate ToInstall(s: Static, st: State, n: string)
  {
    n in st.pkgFrom && st.pkgFrom[n] == FromAur && (n in st.outdated || n !in s.aur)
  }

  /** The packages of the order that are to be installed. */
  function Selected(s: Static, st: State, order: seq<string>): seq<string>
  {
    if order == [] then []
    else
      var n := order[|order| - 1];
      Selected(s, st, order[..|order| - 1]) + if ToInstall(s, st, n) then [n] else []
  }

  lemma {:induction false} SelectedMembers(s: Static, st: State, order: seq<string>, x: string)
    ensures x in Selected(s, st, order) <==> x in order && ToInstall(s, st, x)
    ensures x in Selected(s, st, order) <==>
      x in order && x in st.pkgFrom && st.pkgFrom[x] == FromAur && (x !in s.aur || x in st.outdated)
  {
    if order == [] {
    } else {
      SelectedMembers(s, st, order[..|order| - 1], x);
      assert order == order[..|order| - 1] + [order[|order| - 1]];
    }
  }

  /** Selection keeps the order and adds no repetition. */
  lemma {:induction false} SelectedOrdered(s: Static, st: State, order: seq<string>)
    requires forall i, j :: 0 <= i < j < |order| ==> order[i] != order[j]
    ensures var list := Selected(s, st, order);
      && (forall i, j :: 0 <= i < j < |list| ==> list[i] != list[j])
      && (forall a, b :: a in list && b in list && IndexOf(order, a) < IndexOf(order, b) ==>
            IndexOf(list, a) < IndexOf(list, b))
  {
    if order == [] {
    } else {
      var rest, x := order[..|order| - 1], order[|order| - 1];
      SelectedOrdered(s, st, rest);
      assert order == rest + [x];
      assert x !in rest;
      var pre, list := Selected(s, st, rest), Selected(s, st, order);
      SelectedMembers(s, st, rest, x);
      forall a, b | a in list && b in list && IndexOf(order, a) < IndexOf(order, b)
        ensures IndexOf(list, a) < IndexOf(list, b)
      {
        SelectedStep(s, st, rest, x, a);
        SelectedStep(s, st, rest, x, b);
      }
    }
  }

  lemma SelectedStep(s: Static, st: State, rest: seq<string>, x: string, a: string)
    requires x !in rest && a in Selected(s, st, rest + [x])
    ensures var pre, list := Selected(s, st, rest), Selected(s, st, rest + [x]);
      if a == x then IndexOf(list, a) == |pre| && IndexOf(rest + [x], a) == |rest|
      else a in pre && a in rest && IndexOf(list, a) == IndexOf(pre, a) && IndexOf(rest + [x], a) == IndexOf(rest, a)
  {
    var order := rest + [x];
    assert order[..|order| - 1] == rest;
    var pre, list := Selected(s, st, rest), Selected(s, st, order);
    SelectedMembers(s, st, rest, x);
    SelectedMembers(s, st, rest, a);
    if a == x {
      SelectedMembers(s, st, order, x);
      IndexOfConcat(rest, [x], x);
      IndexOfConcat(pre, [x], x);
    } else {
      SelectedMembers(s, st, order, a);
      IndexOfConcat(rest, [x], a);
      IndexOfConcat(pre, [x], a);
      assert list == pre || list == pre + [x];
    }
  }

  /** A dependency needs no installation: it is installed, in the repositories, or up to date. */
  predicate Available(s: Static, st: State, d: string)
  {
    d in st.pkgFrom && (st.pkgFrom[d] != FromAur || (d in s.aur && d !in st.outdated))
  }

  /** The promise of the install list: no package twice; exactly the AUR packages of the graph that are
      outdated or not installed; and whatever another package of the list depends on, directly or
      through others, comes first. */
  ghost predicate Installable(s: Static, st: State, m: Model<string>, list: seq<string>)
    requires Proper(m)
  {
    && (forall i, j :: 0 <= i < j < |list| ==> list[i] != list[j])
    && (forall x :: x in list <==> x in m.names && ToInstall(s, st, x))
    && (forall p :: Chain(m, p) && p[0] in list && p[|p| - 1] in list ==>
          IndexOf(list, p[0]) < IndexOf(list, p[|p| - 1]))
  }

  lemma SelectedInstallable(s: Static, st: State, m: Model<string>, order: seq<string>)
    requires Proper(m) && TopoOrder(m, order)
    ensures Installable(s, st, m, Selected(s, st, order))
  {
    var list := Selected(s, st, order);
    SelectedOrdered(s, st, order);
    forall x
      ensures x in list <==> x in m.names && ToInstall(s, st, x)
    {
      SelectedMembers(s, st, order, x);
    }
    forall p | Chain(m, p) && p[0] in list && p[|p| - 1] in list
      ensures IndexOf(list, p[0]) < IndexOf(list, p[|p| - 1])
    {
      ChainOrdered(m, order, p);
    }
  }

  /** Every dependency of a resolved package of the list is available, or earlier in the list. */
  ghost predicate DependenciesFirst(s: Static, st: State, deps: Follow, list: seq<string>)
  {
    forall p, d :: p in list && p in deps && d in deps[p] ==>
      Available(s, st, d) || (d in list && IndexOf(list, d) < IndexOf(list, p))
  }

  lemma DrawnDependency(m0: Model<string>, m: Model<string>, deps: Follow, p: string, d: string)
    requires Proper(m0) && Drawn(m0, m, deps) && p in deps && d in deps[p]
    ensures Proper(m) && d in m.names && Chain(m, [d, p])
  {
    assert Linked(m, d, p);
  }

  lemma ChainInList(s: Static, st: State, m: Model<string>, list: seq<string>, d: string, p: string)
    requires Proper(m) && Installable(s, st, m, list) && Chain(m, [d, p]) && p in list
    ensures d in m.names && ToInstall(s, st, d) ==> d in list && IndexOf(list, d) < IndexOf(list, p)
  {
    var c := [d, p];
    assert c[0] == d && c[|c| - 1] == p;
  }

  lemma DependenciesComeFirst(s: Static, st: State, m0: Model<string>, m: Model<string>, deps: Follow,
                              list: seq<string>)
    requires Proper(m0) && Drawn(m0, m, deps) && Installable(s, st, m, list)
    requires forall x :: x in m.names ==> x in st.pkgFrom
    ensures DependenciesFirst(s, st, deps, list)
  {
    hide Drawn, Proper, Installable, Chain, Linked;
    forall p, d | p in list && p in deps && d in deps[p]
      ensures Available(s, st, d) || (d in list && IndexOf(list, d) < IndexOf(list, p))
    {
      DrawnDependency(m0, m, deps, p, d);
      ChainInList(s, st, m, list, d, p);
    }
  }

  /** Every line of the build script of a resolved package of the list is answered by a dependency that is
      installed, in the repositories or up to date, or is built before the package. */
  ghost predicate ScriptsFirst(s: Static, repo: map<string, seq<string>>, st: State, deps: Follow, list: seq<string>)
  {
    forall p :: p in list && p in deps ==>
      && p in repo && |deps[p]| == |repo[p]|
      && forall i :: 0 <= i < |deps[p]| ==>
           && Answers(s, st, repo[p][i], deps[p][i]) && deps[p][i] in st.pkgFrom
           && (|| st.pkgFrom[deps[p][i]] == FromLocal || st.pkgFrom[deps[p][i]] == FromSync
               || (deps[p][i] in s.aur && deps[p][i] !in st.outdated)
               || (deps[p][i] in list && IndexOf(list, deps[p][i]) < IndexOf(list, p)))
  }

  lemma ScriptRead(s: Static, repo: map<string, seq<string>>, st: State, p: string, ds: seq<string>)
    requires Built(s) && OriginsTrue(s, st) && ToInstall(s, st, p) && InFull(s, repo, st, Immediate, p, ds)
    ensures p in repo && AllAnswer(s, st, repo[p], ds)
  {
    hide AllAnswer, Search, LocalProvider;
    assert OriginTrue(s, st, p, st.pkgFrom[p]);
    var final, names :|
      Answers(s, st, p, final) && Lists(s, repo, st, Immediate, final, names) && AllAnswer(s, st, names, ds);
    assert final == p;
  }

  lemma ScriptsComeFirst(s: Static, repo: map<string, seq<string>>, st: State, deps: Follow, list: seq<string>)
    requires Built(s) && OriginsTrue(s, st) && DependenciesFirst(s, st, deps, list)
    requires forall p :: p in list ==> ToInstall(s, st, p)
    requires forall p :: p in deps ==> InFull(s, repo, st, Immediate, p, deps[p])
    ensures ScriptsFirst(s, repo, st, deps, list)
  {
    hide Built, OriginsTrue, ToInstall, InFull, Answers;
    forall p | p in list && p in deps
      ensures p in repo && AllAnswer(s, st, repo[p], deps[p])
    {
      ScriptRead(s, repo, st, p, deps[p]);
    }
  }

  /** After a crawl that is Done, every package of the list was resolved, or was marked outdated before
      the crawl without being a target. */
  lemma InstalledAreResolved(s: Static, repo: map<string, seq<string>>, st: State, targets: seq<string>,
                             marked: set<string>, m0: Model<string>, m: Model<string>, deps: Follow, follow: Follow,
                             list: seq<string>)
    requires OriginsTrue(s, st) && Told(s, repo, st, Immediate, deps, follow) && IsClosure(deps.Keys, targets, follow)
    requires Proper(m0) && Drawn(m0, m, deps) && Installable(s, st, m, list)
    requires forall x :: x in m0.names <==> x in targets
    requires forall x :: x in st.outdated <==> x in marked || x in targets
    ensures forall p :: p in list ==> p in deps || p in marked
  {
    forall p | p in list && p !in marked
      ensures p in deps
    {
      if p !in targets && !(p in deps && deps[p] != []) {
        var q :| q in deps && p in deps[q];
        assert Followed(s, st, Immediate, deps[q], follow[q]);
        assert p in follow[q];
      }
    }
  }

  /** The k-th name popped. */
  lemma PoppedName(m: Model<string>, topost: seq<nat>, k: nat)
    requires Positions(m, topost) && k < |topost|
    ensures |PopNames(m, topost)| == |topost| && topost[|topost| - 1 - k] < |m.names|
    ensures PopNames(m, topost)[k] == m.names[topost[|topost| - 1 - k]]
  {
  }

  lemma PoppedCount(m: Model<string>, topost: seq<nat>)
    requires Positions(m, topost)
    ensures |PopNames(m, topost)| == |topost|
  {
  }

  /** Pops the sorted positions and keeps, in that order, the packages to install. One name without a
      recorded origin spoils the whole list. */
  method TopoGetTargets(db: HashDb, graph: G.Graph<string>, topost: Stack<nat>)
    returns (complete: bool, list: seq<string>)
    requires graph.Valid() && topost.Valid() && Positions(graph.model, topost.Contents())
    modifies topost`nr
    ensures var order := old(PopNames(graph.model, topost.Contents()));
      && (complete <==> forall x :: x in order ==> x in db.pkgFrom)
      && list == if complete then Selected(db.s, db.View(), order) else []
  {
    hide G.Stored, G.Indexed, Proper, PopNames, ToInstall, Positions, Lawful, Exact, WellFormed, Holds;
    ghost var m, all := graph.model, topost.Contents();
    ghost var order := PopNames(m, all);
    PoppedCount(m, all);
    ghost var k := 0;
    list := [];
    while !topost.Empty()
      invariant topost.Valid() && k <= |all| && topost.Contents() == all[..|all| - k]
      invariant forall i :: 0 <= i < k ==> order[i] in db.pkgFrom
      invariant list == Selected(db.s, db.View(), order[..k])
      decreases topost.nr
    {
      PoppedName(m, all, k);
      var curVertex := topost.Pop();
      var pkgname := graph.GetVertexData(curVertex);
      var n := pkgname.value;
      if n !in db.pkgFrom {
        assert order[k] in order;
        return false, [];
      }
      SelectedOne(db.s, db.View(), order, k);
      k := k + 1;
      match db.pkgFrom[n] {
        case FromLocal =>
        case FromSync =>
        case FromAur =>
          if n in db.aurOutdated {
            list := list + [n];
          } else if n !in db.s.aur {
            list := list + [n];
          }
      }
    }
    assert order[..k] == order;
    complete := true;
  }

  lemma SelectedOne(s: Static, st: State, order: seq<string>, k: nat)
    requires k < |order|
    ensures Selected(s, st, order[..k + 1]) ==
      Selected(s, st, order[..k]) + if ToInstall(s, st, order[k]) then [order[k]] else []
    ensures ToInstall(s, st, order[k]) <==>
      order[k] in st.pkgFrom && st.pkgFrom[order[k]] == FromAur && (order[k] in st.outdated || order[k] !in s.aur)
  {
    assert order[..k + 1][..k] == order[..k];
  }

  /** Marks the targets as outdated and makes them vertices, so that they are installed even if nothing
      depends on them and they depend on nothing. */
  method SeedTargets(db: HashDb, graph: G.Graph<string>, targets: seq<string>, ghost room: set<string>)
    requires db.Valid() && graph.Valid() && graph.model.names == []
    requires |room| + 2 <= CAPACITY && forall t :: t in targets ==> t in room
    modifies db`aurOutdated, graph, graph.vidx, graph.vidx.table
    ensures db.Valid() && db.View() == old(db.View()).(outdated := db.aurOutdated)
    ensures forall x :: x in db.aurOutdated <==> x in old(db.aurOutdated) || x in targets
    ensures graph.Valid() && fresh(graph.owned - old(graph.owned))
    ensures graph.vidx.table == old(graph.vidx.table) || fresh(graph.vidx.table)
    ensures forall x :: x in graph.model.names <==> x in targets
    ensures forall a, b :: !Linked(graph.model, a, b)
  {
    hide G.Stored, G.Indexed, Proper, Linked, Lawful, Exact, WellFormed, Holds, WithVertex, Consistent;
    NoLink(graph.model);
    for i := 0 to |targets|
      invariant db.Valid() && db.View() == old(db.View()).(outdated := db.aurOutdated)
      invariant forall x :: x in db.aurOutdated <==> x in old(db.aurOutdated) || x in targets[..i]
      invariant graph.Valid() && fresh(graph.owned - old(graph.owned))
      invariant graph.vidx.table == old(graph.vidx.table) || fresh(graph.vidx.table)
      invariant forall x :: x in graph.model.names <==> x in targets[..i]
      invariant forall a, b :: !Linked(graph.model, a, b)
    {
      MarkKeeps(db.s, db.View(), db.aurOutdated + {targets[i]});
      db.aurOutdated := db.aurOutdated + {targets[i]};
      Roomy(graph, room);
      WithVertexAdds(graph.model, targets[i]);
      graph.AddVertex(targets[i]);
      assert targets[..i + 1] == targets[..i] + [targets[i]];
    }
    assert targets[..|targets|] == targets;
  }

  lemma MarkKeeps(s: Static, st: State, outdated: set<string>)
    requires Consistent(s, st)
    ensures Consistent(s, st.(outdated := outdated))
  {
    hide Search;
    var st' := st.(outdated := outdated);
    forall n | n in st'.pkgFrom
      ensures OriginTrue(s, st', n, st'.pkgFrom[n])
    {
      assert OriginTrue(s, st, n, st.pkgFrom[n]);
    }
  }

  lemma NoLink(m: Model<string>)
    requires Proper(m) && m.names == []
    ensures forall a, b :: !Linked(m, a, b)
  {
  }

  /** What an upgrade promises once the graph is drawn and has no cycle: the list is a right one for the
      graph, dependencies first; and if the crawl was Done, every package of it was resolved, save those
      marked as outdated beforehand. */
  ghost predicate Upgraded(s: Static, st: State, marked: set<string>, outcome: Outcome, m: Model<string>,
                           deps: Follow, list: seq<string>)
  {
    && Proper(m) && Installable(s, st, m, list) && DependenciesFirst(s, st, deps, list)
    && (outcome == Done ==> forall p :: p in list ==> p in deps || p in marked)
  }

  /** The sort cannot succeed. */
  ghost predicate Circular(m: Model<string>)
  {
    HasCycle(m.edges)
  }

  /** The graph of an upgrade: the targets, every resolved name with dependencies, every dependency, and
      an edge from each dependency to the name that has it. */
  ghost predicate Sprung(m: Model<string>, targets: seq<string>, deps: Follow)
  {
    && Proper(m)
    && (forall x :: x in m.names <==>
          x in targets || (x in deps && deps[x] != []) || exists p :: p in deps && x in deps[p])
    && (forall a, b :: Linked(m, a, b) <==> b in deps && a in deps[b])
  }

  lemma SprungFromTargets(m0: Model<string>, m: Model<string>, targets: seq<string>, deps: Follow)
    requires Proper(m0) && Drawn(m0, m, deps)
    requires (forall x :: x in m0.names <==> x in targets) && forall a, b :: !Linked(m0, a, b)
    ensures Sprung(m, targets, deps)
  {
  }

  /** The sort fails exactly when some package depends on itself, directly or through others. */
  lemma CircularMeansSelfDependent(m: Model<string>)
    requires Proper(m)
    ensures Circular(m) <==> exists p :: Chain(m, p) && p[0] == p[|p| - 1]
  {
    if Circular(m) {
      var q :| IsPath(m.edges, q) && |q| > 1 && q[0] == q[|q| - 1];
      var p := NamesOnPath(m, q);
    }
    if p :| Chain(m, p) && p[0] == p[|p| - 1] {
      var q := seq(|p|, i requires 0 <= i < |p| => IndexOf(m.names, p[i]));
      forall i | 0 <= i < |q| - 1
        ensures Edge(m.edges, q[i], q[i + 1])
      {
        assert Linked(m, p[i], p[i + 1]);
      }
      assert IsPath(m.edges, q);
    }
  }

  lemma NamesOnPath(m: Model<string>, q: seq<nat>) returns (p: seq<string>)
    requires Proper(m) && IsPath(m.edges, q) && |q| > 1 && q[0] == q[|q| - 1]
    ensures Chain(m, p) && p[0] == p[|p| - 1]
  {
    assert Edge(m.edges, q[0], q[1]);
    forall i | 0 <= i < |q|
      ensures q[i] < |m.names|
    {
      if i > 0 {
        assert Edge(m.edges, q[i - 1], q[i]);
      }
    }
    p := seq(|q|, i requires 0 <= i < |q| => m.names[q[i]]);
    forall i | 0 <= i < |p| - 1
      ensures Linked(m, p[i], p[i + 1])
    {
      assert Edge(m.edges, q[i], q[i + 1]);
      IndexUnique(m.names, q[i]);
      IndexUnique(m.names, q[i + 1]);
    }
  }

  lemma ListUpgraded(s: Static, repo: map<string, seq<string>>, st: State, targets: seq<string>,
                     marked: set<string>, outcome: Outcome, m0: Model<string>, m: Model<string>, deps: Follow,
                     follow: Follow, done: seq<nat>)
    requires Consistent(s, st) && Proper(m0) && Proper(m) && Complete(m.edges, done)
    requires Told(s, repo, st, Immediate, deps, follow) && Drawn(m0, m, deps)
    requires outcome == Done ==> IsClosure(deps.Keys, targets, follow)
    requires forall x :: x in m0.names <==> x in targets
    requires forall x :: x in st.outdated <==> x in marked || x in targets
    ensures Positions(m, done) && forall x :: x in PopNames(m, done) <==> x in m.names
    ensures (forall x :: x in m.names ==> x in st.pkgFrom) ==>
      Upgraded(s, st, marked, outcome, m, deps, Selected(s, st, PopNames(m, done)))
  {
    hide Installable, DependenciesFirst, IsClosure, Told, Drawn, Proper, Complete;
    CompletePositions(m, done);
    FinishOrderPops(m, done);
    var order := PopNames(m, done);
    SelectedInstallable(s, st, m, order);
    if forall x :: x in m.names ==> x in st.pkgFrom {
      DependenciesComeFirst(s, st, m0, m, deps, Selected(s, st, order));
      if outcome == Done {
        InstalledAreResolved(s, repo, st, targets, marked, m0, m, deps, follow, Selected(s, st, order));
      }
    }
  }

  /** A resolved name is a target or a dependency of a resolved name, so it is in the graph. */
  lemma ResolvedInGraph(s: Static, repo: map<string, seq<string>>, st: State, targets: seq<string>, m: Model<string>,
                        deps: Follow, follow: Follow)
    requires OriginsTrue(s, st) && Told(s, repo, st, Immediate, deps, follow) && Least(targets, follow)
    requires Sprung(m, targets, deps)
    ensures forall p :: p in deps ==> p in m.names
  {
    hide OriginsTrue, Explains, Proper, Linked;
    var S := NameSet(targets) + set p, d | p in deps && d in deps[p] :: d;
    forall p, d | p in S && p in follow && d in follow[p]
      ensures d in S
    {
      assert Followed(s, st, Immediate, deps[p], follow[p]);
    }
    assert ClosedUnder(S, targets, follow);
  }

  /** Nothing is downloaded in vain: after a crawl that is Done, whatever it downloaded is on the list. */
  lemma DownloadsAreListed(s: Static, repo: map<string, seq<string>>, st: State, targets: seq<string>,
                           before: set<string>, m: Model<string>, deps: Follow, follow: Follow, list: seq<string>)
    requires OriginsTrue(s, st) && Told(s, repo, st, Immediate, deps, follow) && Least(targets, follow)
    requires Sprung(m, targets, deps) && Installable(s, st, m, list)
    requires OnlyDownloads(s, st.outdated, Immediate, deps.Keys, before, st.downloaded)
    ensures forall n :: n in st.downloaded ==> n in before || n in list
  {
    hide Told, Least, Sprung, Proper, Search, Chain, OriginTrue;
    ResolvedInGraph(s, repo, st, targets, m, deps, follow);
    forall n | n in st.downloaded && n !in before
      ensures n in m.names && ToInstall(s, st, n)
    {
    }
  }

  lemma ListReads(s: Static, repo: map<string, seq<string>>, st: State, targets: seq<string>, marked: set<string>,
                  before: set<string>, outcome: Outcome, m: Model<string>, deps: Follow, follow: Follow,
                  list: seq<string>)
    requires Consistent(s, st) && Upgraded(s, st, marked, outcome, m, deps, list)
    requires Told(s, repo, st, Immediate, deps, follow) && Least(targets, follow) && Sprung(m, targets, deps)
    requires forall p :: p in deps ==> InFull(s, repo, st, Immediate, p, deps[p])
    requires outcome == Done ==> OnlyDownloads(s, st.outdated, Immediate, deps.Keys, before, st.downloaded)
    ensures ScriptsFirst(s, repo, st, deps, list)
    ensures outcome == Done ==> forall n :: n in st.downloaded ==> n in before || n in list
  {
    hide Built, OriginsTrue, CacheTrue, ToInstall, InFull, Proper, DependenciesFirst, ScriptsFirst, Told, Least;
    hide Sprung, OnlyDownloads, Chain;
    ScriptsComeFirst(s, repo, st, deps, list);
    if outcome == Done {
      DownloadsAreListed(s, repo, st, targets, before, m, deps, follow, list);
    }
  }

  /** Sorts the graph and lists the packages to install. */
  method SortAndList(db: HashDb, graph: G.Graph<string>)
    returns (ret: int, complete: bool, list: seq<string>, ghost done: seq<nat>)
    requires db.Valid() && graph.Valid()
    modifies graph.owned`color, graph.owned`dfsIdx
    ensures graph.Valid()
    ensures (ret == -1 <==> Circular(graph.model)) && (ret == 0 || ret == -1)
    ensures ret == -1 ==> list == []
    ensures ret == 0 ==> Complete(graph.model.edges, done) && Positions(graph.model, done)
    ensures ret == 0 ==>
      var order := PopNames(graph.model, done);
      && (complete <==> forall x :: x in order ==> x in db.pkgFrom)
      && list == if complete then Selected(db.s, db.View(), order) else []
  {
    hide G.Stored, G.Indexed, Lawful, Exact, WellFormed, Holds, Consistent, HasCycle, Complete, Proper;
    hide PopNames, Positions;
    var topost := new Stack<nat>();
    complete, list, done := false, [], [];
    ret := graph.Toposort(topost);
    if ret != 0 {
      return;
    }
    done :| Complete(graph.model.edges, done) && topost.Contents() == [] + done;
    CompletePositions(graph.model, done);
    assert [] + done == done;
    complete, list := TopoGetTargets(db, graph, topost);
  }

  /** What is resolved is a target or has a recorded origin, also when the crawl has stopped at a name. */
  lemma ResolvedRecorded(s: Static, repo: map<string, seq<string>>, st: State, targets: seq<string>, deps: Follow,
                         follow: Follow)
    requires OriginsTrue(s, st) && Told(s, repo, st, Immediate, deps, follow) && Least(targets, follow)
    ensures forall p :: p in deps ==> p in targets || p in st.pkgFrom
    ensures forall p, d :: p in deps && d in deps[p] ==> d in st.pkgFrom
  {
    hide OriginsTrue, DepNames, Fetches, Answers;
    forall p, d | p in deps && d in deps[p]
      ensures d in st.pkgFrom
    {
      assert Explains(s, repo, st, Immediate, p, deps[p]);
    }
    var S := NameSet(targets) + st.pkgFrom.Keys;
    forall p, d | p in S && p in follow && d in follow[p]
      ensures d in S
    {
      assert Followed(s, st, Immediate, deps[p], follow[p]);
    }
    assert ClosedUnder(S, targets, follow);
  }

  /** Every vertex has a recorded origin if and only if every target has. A resolved target that the plain
      search leads to itself has one; and where nothing is hidden, only a target it leads to itself has. */
  lemma CompleteByTargets(s: Static, repo: map<string, seq<string>>, st: State, targets: seq<string>,
                          m: Model<string>, deps: Follow, follow: Follow)
    requires Built(s) && OriginsTrue(s, st) && Told(s, repo, st, Immediate, deps, follow)
    requires Least(targets, follow) && Sprung(m, targets, deps)
    ensures (forall x :: x in m.names ==> x in st.pkgFrom) <==> forall t :: t in targets ==> t in st.pkgFrom
    ensures forall t :: t in targets && t in deps && PlainAnswer(s, t) == t ==> t in st.pkgFrom
    ensures forall t :: t in targets && !Hidden(s, st, t) && t in st.pkgFrom ==> PlainAnswer(s, t) == t
  {
    hide Built, OriginsTrue, Told, Proper, Linked, PlainAnswer, Hidden, Least;
    ResolvedRecorded(s, repo, st, targets, deps, follow);
    forall t | t in targets
      ensures t in deps && PlainAnswer(s, t) == t ==> t in st.pkgFrom
      ensures !Hidden(s, st, t) && t in st.pkgFrom ==> PlainAnswer(s, t) == t
    {
      TargetRecorded(s, repo, st, deps, follow, t);
    }
  }

  lemma TargetRecorded(s: Static, repo: map<string, seq<string>>, st: State, deps: Follow, follow: Follow, t: string)
    requires Built(s) && OriginsTrue(s, st) && Told(s, repo, st, Immediate, deps, follow)
    ensures t in deps && PlainAnswer(s, t) == t ==> t in st.pkgFrom
    ensures !Hidden(s, st, t) && t in st.pkgFrom ==> PlainAnswer(s, t) == t
  {
    hide Followed, DepNames, Fetches;
    if t in deps {
      assert Explains(s, repo, st, Immediate, t, deps[t]);
    }
    if t in st.pkgFrom {
      assert OriginTrue(s, st, t, st.pkgFrom[t]);
    }
  }

  /** What the caller can tell beforehand of whether the list will be complete. */
  ghost predicate Foreseen(s: Static, targets: seq<string>, outcome: Outcome, complete: bool)
  {
    && ((forall t :: t in targets ==> t in s.aur) ==> complete)
    && (outcome == Done && (forall t :: t in targets ==> PlainAnswer(s, t) == t) ==> complete)
    && (NeverHides(s) && complete ==> forall t :: t in targets ==> PlainAnswer(s, t) == t)
  }

  lemma CompleteForeseen(s: Static, repo: map<string, seq<string>>, st: State, targets: seq<string>,
                         outcome: Outcome, m: Model<string>, deps: Follow, follow: Follow, complete: bool)
    requires Built(s) && OriginsTrue(s, st) && Told(s, repo, st, Immediate, deps, follow)
    requires Least(targets, follow) && Sprung(m, targets, deps)
    requires outcome == Done ==> IsClosure(deps.Keys, targets, follow)
    requires complete <==> forall x :: x in m.names ==> x in st.pkgFrom
    ensures Foreseen(s, targets, outcome, complete) && (complete <==> forall t :: t in targets ==> t in st.pkgFrom)
  {
    hide Built, OriginsTrue, Told, Sprung, Hidden, NeverHides, PlainAnswer, Least;
    CompleteByTargets(s, repo, st, targets, m, deps, follow);
    forall t
      ensures t in s.aur ==> t in st.pkgFrom
      ensures NeverHides(s) ==> !Hidden(s, st, t)
    {
      AurRecorded(s, st, t);
      if NeverHides(s) {
        NothingHidden(s, st, t);
      }
    }
  }

  lemma AurRecorded(s: Static, st: State, t: string)
    requires OriginsTrue(s, st)
    ensures t in s.aur ==> t in st.pkgFrom
  {
  }

  /** Upgrades the targets. ret is -1 exactly when the graph drawn has a cycle; otherwise the list is
      complete exactly when every target has a recorded origin, and is then what was promised. That can be
      told beforehand for installed AUR packages. The crawl's outcome does not stop the upgrade. */
  method UpgradePkgs(db: HashDb, targets: seq<string>, signed: bool)
    returns (ret: int, complete: bool, list: seq<string>, outcome: Outcome,
             ghost m: Model<string>, ghost deps: Follow, ghost follow: Follow, ghost at: string)
    requires db.Valid() && |Universe(db.s, db.repo, targets)| + 2 <= CAPACITY
    modifies db
    ensures db.Valid() && forall x :: x in db.aurOutdated <==> x in old(db.aurOutdated) || x in targets
    ensures targets == [] ==> ret == 0 && list == [] && outcome == Done
    ensures targets != [] ==>
      && Failure(db.s, db.repo, db.View(), Immediate, targets, at, outcome, old(db.failed), db.failed)
      && Told(db.s, db.repo, db.View(), Immediate, deps, follow) && Least(targets, follow)
      && (outcome == Done ==> IsClosure(deps.Keys, targets, follow))
      && (outcome != Done ==> at !in follow && Required(targets, follow, at))
    ensures targets != [] && outcome != NullDependency ==>
      && Sprung(m, targets, deps)
      && (ret == -1 <==> Circular(m)) && (ret == 0 || ret == -1)
      && (ret == 0 ==> (complete <==> forall x :: x in m.names ==> x in db.pkgFrom))
      && (ret == 0 && complete ==> Upgraded(db.s, db.View(), old(db.aurOutdated), outcome, m, deps, list))
      && (ret == 0 && complete ==> ScriptsFirst(db.s, db.repo, db.View(), deps, list))
      && (ret == -1 || !complete ==> list == [])
    ensures targets != [] && outcome == Done && ret == 0 && complete ==>
      forall n :: n in db.aurDownloaded ==> n in old(db.aurDownloaded) || n in list
    ensures targets != [] && outcome != NullDependency && ret == 0 ==>
      Foreseen(db.s, targets, outcome, complete) && (complete <==> forall t :: t in targets ==> t in db.pkgFrom)
  {
    hide G.Stored, G.Indexed, Lawful, Exact, WellFormed, Holds, Failure, Required, Foreseen;
    hide Upgraded, Told, Drawn, IsClosure, Universe, Circular, Complete, Proper, PopNames, Positions, Sprung;
    hide Built, OriginsTrue, CacheTrue, Least, InFull, ScriptsFirst, OnlyDownloads;
    ret, complete, list, outcome, m, deps, follow, at := 0, false, [], Done, Model([], []), map[], map[], "";
    if targets == [] {
      return;
    }
    NameOpsLawful(signed);
    var graph := new G.Graph<string>(NameOps(signed));
    ghost var marked, downloaded, room := db.aurOutdated, db.aurDownloaded, Universe(db.s, db.repo, targets);
    TargetsInside(db.s, db.repo, targets);
    SeedTargets(db, graph, targets, room);
    ghost var m0 := graph.model;
    RoomIsUniverse(db.s, db.repo, targets, m0);
    outcome, deps, follow, at := BuildDepGraph(graph, db, targets, Immediate);
    m := graph.model;
    if outcome == NullDependency {
      return;
    }
    SprungFromTargets(m0, m, targets, deps);
    ghost var done;
    ret, complete, list, done := SortAndList(db, graph);
    if ret == 0 {
      ListUpgraded(db.s, db.repo, db.View(), targets, marked, outcome, m0, m, deps, follow, done);
      if complete {
        ListReads(db.s, db.repo, db.View(), targets, marked, downloaded, outcome, m, deps, follow, list);
      }
      CompleteForeseen(db.s, db.repo, db.View(), targets, outcome, m, deps, follow, complete);
    } else {
      complete := false;
    }
  }

  lemma RoomIsUniverse(s: Static, repo: map<string, seq<string>>, targets: seq<string>, m: Model<string>)
    requires forall x :: x in m.names <==> x in targets
    ensures Room(s, repo, targets, m) == Universe(s, repo, targets)
  {
    TargetsInside(s, repo, targets);
  }
}
