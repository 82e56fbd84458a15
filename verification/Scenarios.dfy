/** Runs of the whole program on small databases, where its result is not what one would expect. */
module Scenarios {
  import opened AllocSize
  import opened Probing
  import SearchTree
  import opened HashBst
  import opened GraphModel
  import opened Names
  import opened PackageDb
  import opened HashDb
  import opened CrawlModel
  import opened Crawl
  import opened Install

  /** One package is installed, without dependencies, and the repositories are empty. */
  ghost predicate Lone(s: Static, p: Pkg)
  {
    && p.depends == [] && s.local == map[p.name := p] && s.sync == map[] && s.aur == map[p.name := p]
    && (forall o :: ValuesOf(s.localProvides, o) == if o in p.offers then [p.name] else [])
    && (forall o :: ValuesOf(s.syncProvides, o) == [])
  }

  lemma LoneTable(p: Pkg, table: map<string, Pkg>)
    requires Hashed([p], map[], table)
    ensures table == map[p.name := p]
  {
    assert [p][0] == p;
    forall n
      ensures n in table <==> n == p.name
      ensures n in table ==> table[n] == p
    {
      assert Named([p], n) <==> [p][0].name == n;
    }
  }

  lemma LoneOffers(p: Pkg, offers: map<string, seq<string>>, o: string)
    requires Offered([p], map[], offers)
    ensures ValuesOf(offers, o) == if o in p.offers then [p.name] else []
  {
    assert [p][0] == p;
    var want := if o in p.offers then [p.name] else [];
    assert SearchTree.Ascending(Compare, want);
    forall v
      ensures v in ValuesOf(offers, o) <==> v in want
    {
      assert Offers([p], o, v) <==> [p][0].name == v && o in [p][0].offers;
    }
    CompareTotal();
    SearchTree.AscendingUnique(Compare, ValuesOf(offers, o), want);
  }

  lemma LoneNothing(sync: map<string, Pkg>, offers: map<string, seq<string>>)
    requires Hashed([], map[], sync) && Offered([], map[], offers)
    ensures sync == map[] && forall o :: ValuesOf(offers, o) == []
  {
    assert forall n :: !Named([], n);
    assert sync.Keys == {};
    forall o
      ensures ValuesOf(offers, o) == []
    {
      var vs := ValuesOf(offers, o);
      assert forall v :: !Offers([], o, v);
      assert ValuesOf<string>(map[], o) == [];
      assert forall v :: v !in vs;
      SearchTree.HasMember(vs);
    }
  }

  lemma LoneForeign(p: Pkg, aur: map<string, Pkg>)
    requires Foreign([p], map[], aur)
    ensures aur == map[p.name := p]
  {
    assert [p][0] == p;
    forall n
      ensures n in aur <==> n == p.name
      ensures n in aur ==> aur[n] == p
    {
      assert Named([p], n) <==> [p][0].name == n;
    }
  }

  /** The database built from one package. */
  method BuildLone(p: Pkg, repo: map<string, seq<string>>) returns (db: HashDb)
    requires p.depends == []
    ensures fresh(db) && db.Valid() && db.repo == repo && db.failed == []
    ensures Lone(db.s, p) && Initial(db.s, db.View())
  {
    hide Hashed, Offered, Foreign, Consistent;
    var built := BuildHashdb([p], [], repo);
    db := built;
    LoneTable(p, db.s.local);
    LoneNothing(db.s.sync, db.s.syncProvides);
    LoneForeign(p, db.s.aur);
    forall o
      ensures ValuesOf(db.s.localProvides, o) == if o in p.offers then [p.name] else []
    {
      LoneOffers(p, db.s.localProvides, o);
    }
  }

  lemma LoneUniverse(s: Static, p: Pkg, t: string)
    requires Lone(s, p)
    ensures Universe(s, map[], [t]) == {p.name, t}
  {
  }

  lemma FewNames(a: string, b: string)
    ensures |{a, b}| + 2 <= CAPACITY
  {
  }

  lemma LoneProvider(s: Static, p: Pkg, n: string)
    requires Lone(s, p) && n != p.name
    ensures Search(s, n) == if n in p.offers then Some((p.name, FromLocal)) else None
    ensures PlainAnswer(s, n) == if n in p.offers then p.name else n
  {
    var f := Present(s.local);
    assert SearchTree.FirstSome([p.name], f) == f(p.name) == Some(p.name);
    assert SearchTree.FirstSome<string, string>([], f) == None;
    assert SearchTree.FirstSome<string, string>([], Present(s.sync)) == None;
    assert ValuesOf(s.localProvides, n) == if n in p.offers then [p.name] else [];
  }

  lemma LoneRecorded(s: Static, st: State, p: Pkg)
    requires Lone(s, p) && OriginsTrue(s, st) && st.downloaded == {}
    ensures st.pkgFrom == map[p.name := FromAur] && NeverHides(s)
  {
    hide Search, LocalProvider;
    forall n | n in st.pkgFrom
      ensures n == p.name && st.pkgFrom[n] == FromAur
    {
      assert OriginTrue(s, st, n, st.pkgFrom[n]);
    }
    assert p.name in s.aur;
  }

  /** x is an installed AUR package that the AUR does not have any more: it explains nothing. */
  lemma NothingExplained(s: Static, st: State, p: string, ds: seq<string>)
    requires Lone(s, Pkg("x", [], [])) && OriginsTrue(s, st) && st.downloaded == {} && st.outdated == {"x"}
    ensures !Explains(s, map[], st, Immediate, p, ds)
  {
    LoneRecorded(s, st, Pkg("x", [], []));
    hide Answers, AllAnswer, DepNames;
    assert Fetches(s, st.outdated, Immediate, "x");
  }

  lemma NothingResolved(s: Static, st: State, deps: Follow, follow: Follow)
    requires Lone(s, Pkg("x", [], [])) && OriginsTrue(s, st) && st.downloaded == {} && st.outdated == {"x"}
    requires Told(s, map[], st, Immediate, deps, follow)
    ensures deps == map[]
  {
    hide OriginsTrue, Explains;
    forall p
      ensures p !in deps
    {
      NothingExplained(s, st, p, if p in deps then deps[p] else []);
    }
  }

  /** A graph of one vertex. */
  lemma LoneGraph(m: Model<string>, t: string)
    requires Sprung(m, [t], map[])
    ensures !Circular(m) && (forall x :: x in m.names <==> x == t)
  {
    hide Circular;
    CircularMeansSelfDependent(m);
    forall p
      ensures !Chain(m, p)
    {
      if |p| > 1 {
        assert !Linked(m, p[0], p[1]);
      }
    }
  }

  lemma OneListed(s: Static, st: State, m: Model<string>, list: seq<string>, t: string)
    requires Proper(m) && Installable(s, st, m, list) && ToInstall(s, st, t)
    requires forall x :: x in m.names <==> x == t
    ensures list == [t]
  {
    hide Proper, ToInstall;
    assert t in list;
    assert forall i :: 0 <= i < |list| ==> list[i] in list;
    if |list| > 1 {
      assert false;
    }
  }

  /** No script of any package is there, so none failed to be resolved because of one. */
  lemma NoScripts(s: Static, st: State, targets: seq<string>, at: string, outcome: Outcome, before: seq<string>,
                  after: seq<string>)
    requires Failure(s, map[], st, Immediate, targets, at, outcome, before, after)
    ensures outcome != NullDependency
  {
    hide OnlyFetches, NameFails, Answers, Fetches;
  }

  lemma TargetResolved(t: string, deps: Follow, follow: Follow)
    requires IsClosure(deps.Keys, [t], follow)
    ensures t in deps
  {
    assert t in [t];
  }

  /** The only target of the upgrade, an installed package, cannot be downloaded. The crawl fails, and the
      package is on the list all the same. */
  method FailedCrawlStillInstalls(signed: bool) returns (ret: int, list: seq<string>, outcome: Outcome)
    ensures outcome == ResolveError && ret == 0 && list == ["x"]
  {
    hide Lone, Sprung, Told, Failure, IsClosure, Required, Foreseen, Universe, Circular, GraphModel.Proper;
    hide Built, OriginsTrue, CacheTrue, Installable, DependenciesFirst;
    var x := Pkg("x", [], []);
    var db := BuildLone(x, map[]);
    LoneUniverse(db.s, x, "x");
    FewNames("x", "x");
    var complete;
    ghost var m, deps, follow, at;
    ret, complete, list, outcome, m, deps, follow, at := UpgradePkgs(db, ["x"], signed);
    NoScripts(db.s, db.View(), ["x"], at, outcome, [], db.failed);
    NothingResolved(db.s, db.View(), deps, follow);
    if outcome == Done {
      TargetResolved("x", deps, follow);
    }
    LoneGraph(m, "x");
    LoneRecorded(db.s, db.View(), x);
    LoneToInstall(db.s, db.View());
    OneListed(db.s, db.View(), m, list, "x");
  }

  lemma LoneToInstall(s: Static, st: State)
    requires st.pkgFrom == map["x" := FromAur] && st.outdated == {"x"}
    ensures ToInstall(s, st, "x")
  {
  }

  /** c is installed and offers a; with no script to be read no dependency is found. */
  lemma NoDependencies(s: Static, st: State, deps: Follow, follow: Follow)
    requires Lone(s, Pkg("c", [], ["a"])) && Built(s) && OriginsTrue(s, st)
    requires st.downloaded == {} && st.outdated == {"a"}
    requires Told(s, map[], st, Immediate, deps, follow)
    ensures forall p :: p in deps ==> deps[p] == []
  {
    hide OriginsTrue, Built, PlainAnswer, NeverHides;
    var c := Pkg("c", [], ["a"]);
    LoneRecorded(s, st, c);
    forall p | p in deps
      ensures deps[p] == []
    {
      forall n
        ensures !Hidden(s, st, n)
      {
        NothingHidden(s, st, n);
      }
      ExplainsPlainly(s, map[], st, Immediate, p, deps[p]);
      assert ListedDeps(s, map[], st.outdated, Immediate, PlainAnswer(s, p)) == [];
    }
  }

  lemma NoEdges(m: Model<string>, t: string, deps: Follow)
    requires Sprung(m, [t], deps) && forall p :: p in deps ==> deps[p] == []
    ensures Sprung(m, [t], map[])
  {
  }

  /** Nothing has to be fetched: the one name that is not installed is provided. */
  lemma NothingToFetch(s: Static, outdated: set<string>)
    requires Lone(s, Pkg("c", [], ["a"])) && outdated == {"a"}
    ensures forall n :: n in Universe(s, map[], ["a"]) ==> !Fetches(s, outdated, Immediate, n)
  {
    var c := Pkg("c", [], ["a"]);
    hide Universe, Search;
    LoneUniverse(s, c, "a");
    LoneProvider(s, c, "a");
  }

  lemma MustBeDone(s: Static, st: State, targets: seq<string>, at: string, outcome: Outcome, before: seq<string>,
                   after: seq<string>)
    requires Failure(s, map[], st, Immediate, targets, at, outcome, before, after)
    requires forall n :: n in Universe(s, map[], targets) ==> !Fetches(s, st.outdated, Immediate, n)
    ensures outcome == Done
  {
    hide Failure, Fetches, Universe;
    if outcome != Done {
      FailureMeansFetch(s, map[], st, Immediate, targets, at, outcome, before, after);
    }
  }

  /** The only target of the upgrade is provided by an installed package. The crawl succeeds and there is no
      cycle, but the target has no recorded origin, and the list is empty. */
  method ProvidedTargetEmptiesList(signed: bool)
    returns (ret: int, complete: bool, list: seq<string>, outcome: Outcome)
    ensures outcome == Done && ret == 0 && !complete && list == []
  {
    hide Lone, Sprung, Told, Failure, IsClosure, Required, Universe, Circular, GraphModel.Proper, Upgraded;
    hide Built, OriginsTrue, CacheTrue, NeverHides, PlainAnswer;
    var c := Pkg("c", [], ["a"]);
    var db := BuildLone(c, map[]);
    LoneUniverse(db.s, c, "a");
    FewNames("c", "a");
    ghost var m, deps, follow, at;
    ret, complete, list, outcome, m, deps, follow, at := UpgradePkgs(db, ["a"], signed);
    NothingToFetch(db.s, db.aurOutdated);
    MustBeDone(db.s, db.View(), ["a"], at, outcome, [], db.failed);
    NoDependencies(db.s, db.View(), deps, follow);
    NoEdges(m, "a", deps);
    LoneGraph(m, "a");
    LoneRecorded(db.s, db.View(), c);
    LoneProvider(db.s, c, "a");
    assert "a" in ["a"];
  }

  /** x is an installed AUR package; its build script lists y, which nothing offers and the AUR does not have.
      The download of x succeeds and that of y fails: x is resolved with a null dependency, which goes
      unnoticed. */
  lemma NullDependencyArises()
    ensures exists s, repo, st, st1 ::
      && Consistent(s, st) && Normalized(s, st, "x", Immediate, st1, Some("x"))
      && OriginsTrue(s, st1) && "x" in st1.pkgFrom && DepNames(s, repo, st1, "x", Immediate) == ["y"]
      && RanThrough(s, st1, ["y"], Immediate, st1, [None])
      && Failure(s, repo, st1, Immediate, ["x"], "x", NullDependency, [], ["y"])
  {
    hide Consistent, Normalized, DepNames, RanThrough, Failure, OriginsTrue;
    var x := Pkg("x", [], []);
    var s := Static(map["x" := x], map[], map["x" := x], map[], map[]);
    var st := State(map["x" := FromAur], map[], {}, {"x"});
    var st1, repo := st.(downloaded := {"x"}), map["x" := ["y"]];
    NullSteps(s, st, st1, x);
    NullFailure(s, st1);
    RanNowhere(s, st1, Immediate);
    var none: seq<Option<string>> := [];
    RanOneMore(s, st1, [], Immediate, st1, none, "y", st1, None);
    assert none + [None] == [None];
    assert [] + ["y"] == ["y"];
    assert DepNames(s, repo, st1, "x", Immediate) == ["y"] && RanThrough(s, st1, ["y"], Immediate, st1, [None]);
  }

  lemma NullSteps(s: Static, st: State, st1: State, x: Pkg)
    requires x == Pkg("x", [], []) && s == Static(map["x" := x], map[], map["x" := x], map[], map[])
    requires st == State(map["x" := FromAur], map[], {}, {"x"}) && st1 == st.(downloaded := {"x"})
    ensures Consistent(s, st) && OriginsTrue(s, st1) && "x" in st1.pkgFrom
    ensures Normalized(s, st, "x", Immediate, st1, Some("x")) && Normalized(s, st1, "y", Immediate, st1, None)
    ensures DepNames(s, map["x" := ["y"]], st1, "x", Immediate) == ["y"]
  {
    NothingOffered(s, "y");
    hide Search;
    assert {} + {"x"} == {"x"};
    assert "x" in s.aur;
  }

  lemma NothingOffered(s: Static, n: string)
    requires s.localProvides == map[] && s.syncProvides == map[] && n !in s.sync
    ensures Search(s, n) == None
  {
  }

  lemma NullFailure(s: Static, st: State)
    requires "x" in s.local && "x" in s.aur && "y" !in s.local && "y" !in s.aur && "x" in st.outdated
    requires s.localProvides == map[] && s.syncProvides == map[] && "y" !in s.sync
    ensures Failure(s, map["x" := ["y"]], st, Immediate, ["x"], "x", NullDependency, [], ["y"])
  {
    var repo := map["x" := ["y"]];
    NothingOffered(s, "y");
    assert "y" in repo["x"] && "y" in ["y"] && ["y"][0..] == ["y"];
    assert Answers(s, st, "x", "x");
    assert ScriptFails(s, repo, st, Immediate, "x", ["y"]);
    assert "y" in Words(s, repo);
  }
}
