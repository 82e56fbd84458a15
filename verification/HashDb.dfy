/** The hash database of a run: the tables built from the package databases, and `normalize_package`,
    which fills in the origins, the cache of providers and the record of downloads. */
module HashDb {
  import opened Probing
  import opened SearchTree
  import opened Names
  import opened PackageDb

  // An entry of the package tables.
  datatype PkgPair = PkgPair(pkgname: string, pkg: Option<Pkg>)

  /** The functions the tables of names are created with. */
  function NameOps(signed: bool): KeyOps<string>
  {
    KeyOps(s => Hash(s, signed), Compare)
  }

  /** The functions the tables of packages are created with: only the name counts. */
  function PairOps(signed: bool): KeyOps<PkgPair>
  {
    KeyOps((p: PkgPair) => Hash(p.pkgname, signed), (p: PkgPair, q: PkgPair) => Compare(p.pkgname, q.pkgname))
  }

  lemma NameOpsLawful(signed: bool)
    ensures Lawful(NameOps(signed)) && Exact(NameOps(signed)) && TotalOrder(NameOps(signed).cmp)
  {
    CompareTotal();
    assert NameOps(signed).cmp == Compare;
  }

  lemma PairOpsLawful(signed: bool)
    ensures Lawful(PairOps(signed))
    ensures forall p, q :: PairOps(signed).Same(p, q) <==> p.pkgname == q.pkgname
  {
    forall p: PkgPair, q: PkgPair
      ensures PairOps(signed).Same(p, q) <==> p.pkgname == q.pkgname
    {
      CompareSigns(p.pkgname, q.pkgname);
    }
  }

  /** On names, first insert wins is what the tables do. */
  lemma PutIsTableInsert<V>(signed: bool, m: map<string, V>, k: string, v: V)
    ensures PutIfAbsent(NameOps(signed), m, k, v) == Put(m, k, v)
  {
    NameOpsLawful(signed);
    PutIfAbsentExact(NameOps(signed), m, k, v);
  }

  class HashDb {
    const s: Static
    // The AUR: the dependencies in each package's build script.
    const repo: map<string, seq<string>>
    var pkgFrom: map<string, Origin>
    var providesCache: map<string, string>
    var aurDownloaded: set<string>
    var aurOutdated: set<string>
    var immediateDeps: seq<string>
    // The names whose download or whose directory was not to be had, in order.
    ghost var failed: seq<string>

    ghost function View(): State
      reads this
    {
      State(pkgFrom, providesCache, aurDownloaded, aurOutdated)
    }

    ghost predicate Valid()
      reads this
    {
      Consistent(s, View()) && aurDownloaded <= repo.Keys
    }

    constructor (s: Static, repo: map<string, seq<string>>, origins: map<string, Origin>)
      requires Built(s) && origins.Keys == s.aur.Keys && forall n :: n in origins ==> origins[n] == FromAur
      ensures Valid() && this.s == s && this.repo == repo && Initial(s, View())
      ensures immediateDeps == [] && failed == []
    {
      this.s, this.repo := s, repo;
      pkgFrom, providesCache, aurDownloaded, aurOutdated, immediateDeps := origins, map[], {}, {}, [];
      failed := [];
      new;
      InitialConsistent(s, View());
    }

    /** A download from the network: it may fail at any time, and fails for what the AUR does not have. */
    method Download(name: string) returns (ok: bool)
      modifies this`failed
      ensures ok ==> name in repo
      ensures failed == if ok then old(failed) else old(failed) + [name]
    {
      var attempt: bool := *;
      ok := attempt && name in repo;
      failed := if ok then failed else failed + [name];
    }

    /** Turns a name into a package that is, or provides, what it names. */
    method NormalizePackage(name: string, lvl: Level) returns (r: Option<string>)
      requires Valid()
      modifies this`pkgFrom, this`providesCache, this`aurDownloaded, this`failed
      ensures Valid() && Normalized(s, old(View()), name, lvl, View(), r)
      ensures NameAnswers(s, old(View()), name, lvl, View(), r)
      ensures failed == if r.Some? then old(failed) else old(failed) + [name]
    {
      hide Consistent, Normalized, NameAnswers;
      NormalizedIsAnswer(s, View(), name, lvl);
      if name in pkgFrom {
        if pkgFrom[name] != FromAur || name in aurDownloaded {
          StayKeeps(s, View(), name, lvl, name);
          return Some(name);
        }
        r := SearchAur(name, lvl);
        return;
      }
      if name in s.local {
        if name in s.aur {
          r := SearchAur(name, lvl);
          return;
        }
        RecordKeeps(s, View(), name, lvl, name, FromLocal, false);
        pkgFrom := Put(pkgFrom, name, FromLocal);
        return Some(name);
      }
      if name in providesCache {
        CacheHit(s, View(), name, lvl);
        return Some(providesCache[name]);
      }
      var p := FindProvider(s.localProvides, name, s.local);
      if p.Some? {
        RecordKeeps(s, View(), name, lvl, p.value, FromLocal, true);
        providesCache := Put(providesCache, name, p.value);
        pkgFrom := Put(pkgFrom, p.value, FromLocal);
        return p;
      }
      p := FindProvider(s.syncProvides, name, s.local);
      if p.Some? {
        RecordKeeps(s, View(), name, lvl, p.value, FromLocal, false);
        pkgFrom := Put(pkgFrom, p.value, FromLocal);
        return p;
      }
      if name in s.sync {
        RecordKeeps(s, View(), name, lvl, name, FromSync, false);
        pkgFrom := Put(pkgFrom, name, FromSync);
        return Some(name);
      }
      p := FindProvider(s.syncProvides, name, s.sync);
      if p.Some? {
        RecordKeeps(s, View(), name, lvl, p.value, FromSync, true);
        pkgFrom := Put(pkgFrom, p.value, FromSync);
        providesCache := Put(providesCache, name, p.value);
        return p;
      }
      r := SearchAur(name, lvl);
    }

    /** The last resort: nothing for an up-to-date AUR package at the immediate level, else a download. */
    method SearchAur(name: string, lvl: Level) returns (r: Option<string>)
      requires Valid() && Judge(s, View(), name) == Aur
      modifies this`pkgFrom, this`aurDownloaded, this`failed
      ensures Valid() && Normalized(s, old(View()), name, lvl, View(), r)
      ensures failed == if r.Some? then old(failed) else old(failed) + [name]
    {
      hide Consistent, Normalized, Judge;
      AurKeeps(s, View(), name, lvl);
      if lvl != Thorough {
        if name in s.aur && name !in aurOutdated {
          return Some(name);
        }
      }
      var ok := Download(name);
      if !ok {
        return None;
      }
      aurDownloaded := aurDownloaded + {name};
      pkgFrom := Put(pkgFrom, name, FromAur);
      r := Some(name);
    }
  }

  lemma NormalizedIsAnswer(s: Static, st: State, name: string, lvl: Level)
    requires Consistent(s, st)
    ensures forall st', r :: Normalized(s, st, name, lvl, st', r) <==> NameAnswers(s, st, name, lvl, st', r)
  {
    hide Normalized, NameAnswers;
    forall st', r
      ensures Normalized(s, st, name, lvl, st', r) <==> NameAnswers(s, st, name, lvl, st', r)
    {
      NormalizedInOrder(s, st, name, lvl, st', r);
    }
  }

  /** A name already settled changes nothing. */
  lemma StayKeeps(s: Static, st: State, name: string, lvl: Level, p: string)
    requires name in st.pkgFrom && p == name && (st.pkgFrom[name] != FromAur || name in st.downloaded)
    ensures Normalized(s, st, name, lvl, st, Some(p))
  {
  }

  /** A hit in the cache gives what the skipped searches would have given, and records nothing new. */
  lemma CacheHit(s: Static, st: State, name: string, lvl: Level)
    requires Consistent(s, st) && name !in st.pkgFrom && name !in s.local && name in st.providesCache
    ensures Normalized(s, st, name, lvl, st, Some(st.providesCache[name]))
  {
    assert Search(s, name).Some? && Search(s, name).value.0 == st.providesCache[name];
  }

  /** Recording where a package comes from, and who provides the name asked for. */
  lemma RecordKeeps(s: Static, st: State, name: string, lvl: Level, p: string, o: Origin, cached: bool)
    requires Consistent(s, st) && name !in st.pkgFrom && Judge(s, st, name) == Use(p, o)
    requires cached ==> name !in s.local && Search(s, name) == Some((p, o))
    ensures var st' := st.(pkgFrom := Put(st.pkgFrom, p, o),
                           providesCache := if cached then Put(st.providesCache, name, p) else st.providesCache);
      Consistent(s, st') && Normalized(s, st, name, lvl, st', Some(p))
  {
    hide OriginsTrue;
    var st' := st.(pkgFrom := Put(st.pkgFrom, p, o),
                   providesCache := if cached then Put(st.providesCache, name, p) else st.providesCache);
    NormalizeKeeps(s, st, name, lvl, st', Some(p));
  }

  /** The three ways out of the AUR search. */
  lemma AurKeeps(s: Static, st: State, name: string, lvl: Level)
    requires Consistent(s, st) && Judge(s, st, name) == Aur
    ensures UpToDate(s, st, name, lvl) ==> Normalized(s, st, name, lvl, st, Some(name))
    ensures !UpToDate(s, st, name, lvl) ==>
      var st' := st.(pkgFrom := Put(st.pkgFrom, name, FromAur), downloaded := st.downloaded + {name});
      && Normalized(s, st, name, lvl, st, None)
      && Consistent(s, st') && Normalized(s, st, name, lvl, st', Some(name))
  {
    hide OriginsTrue;
    var st' := st.(pkgFrom := Put(st.pkgFrom, name, FromAur), downloaded := st.downloaded + {name});
    if !UpToDate(s, st, name, lvl) {
      NormalizeKeeps(s, st, name, lvl, st', Some(name));
    }
  }

  /** Builds the database from the installed packages and the repositories; nothing without installed
      packages. */
  method BuildHashdb(localCache: seq<Pkg>, syncDbs: seq<seq<Pkg>>, repo: map<string, seq<string>>) returns (db: HashDb?)
    ensures db == null <==> localCache == []
    ensures db != null ==> fresh(db) && db.Valid() && Initial(db.s, db.View()) && db.repo == repo && db.failed == []
    ensures db != null ==> Hashed(localCache, map[], db.s.local) && Offered(localCache, map[], db.s.localProvides)
    ensures db != null ==> Hashed(Concat(syncDbs), map[], db.s.sync)
    ensures db != null ==> Offered(Concat(syncDbs), map[], db.s.syncProvides)
    ensures db != null ==> FirstRepository(syncDbs, db.s.sync) && EveryRepository(syncDbs, db.s.syncProvides)
    ensures db != null ==> Foreign(localCache, db.s.sync, db.s.aur)
  {
    if localCache == [] {
      return null;
    }
    var local, localProvides := HashPackages(localCache, map[], map[]);
    var sync, syncProvides := HashSyncs(syncDbs);
    var aur, origins := ComputeAur(localCache, sync);
    var s := Static(local, sync, aur, localProvides, syncProvides);
    assert Built(s) by {
      forall n
        ensures n in s.aur <==> n in s.local && n !in s.sync
      {
        assert n in local <==> Named(localCache, n);
      }
    }
    db := new HashDb(s, repo, origins);
  }

  /** Enters the packages of every repository, in order. */
  method HashSyncs(syncDbs: seq<seq<Pkg>>) returns (sync: map<string, Pkg>, syncProvides: map<string, seq<string>>)
    ensures Hashed(Concat(syncDbs), map[], sync) && Offered(Concat(syncDbs), map[], syncProvides)
    ensures FirstRepository(syncDbs, sync) && EveryRepository(syncDbs, syncProvides)
  {
    hide Hashed, Offers, FirstRepository, EveryRepository;
    sync, syncProvides := map[], map[];
    assert Hashed([], map[], map[]) && Offered([], map[], map[]) by {
      EmptyHashed();
    }
    for i := 0 to |syncDbs|
      invariant Hashed(Concat(syncDbs[..i]), map[], sync)
      invariant Offered(Concat(syncDbs[..i]), map[], syncProvides)
    {
      ghost var sync0, provides0 := sync, syncProvides;
      sync, syncProvides := HashPackages(syncDbs[i], sync, syncProvides);
      assert syncDbs[..i + 1][..i] == syncDbs[..i];
      HashedAgain(Concat(syncDbs[..i]), syncDbs[i], map[], sync0, sync);
      OfferedAgain(Concat(syncDbs[..i]), syncDbs[i], map[], provides0, syncProvides);
    }
    assert syncDbs[..|syncDbs|] == syncDbs;
    RepositoriesInOrder(syncDbs, sync, syncProvides);
  }

  lemma EmptyHashed()
    ensures Hashed([], map[], map[]) && Offered([], map[], map[])
  {
  }

  /** The installed packages no repository offers, and their origin. */
  method ComputeAur(localCache: seq<Pkg>, sync: map<string, Pkg>)
    returns (aur: map<string, Pkg>, origins: map<string, Origin>)
    ensures Foreign(localCache, sync, aur)
    ensures origins.Keys == aur.Keys && forall n :: n in origins ==> origins[n] == FromAur
  {
    hide Named, FirstNamed;
    aur, origins := map[], map[];
    assert Foreign([], sync, map[]) by {
      EmptyForeign(sync);
    }
    for i := 0 to |localCache|
      invariant Foreign(localCache[..i], sync, aur)
      invariant origins.Keys == aur.Keys && forall n :: n in origins ==> origins[n] == FromAur
    {
      ForeignOne(localCache, sync, aur, i);
      var pkg := localCache[i];
      if pkg.name !in sync {
        aur := Put(aur, pkg.name, pkg);
        origins := Put(origins, pkg.name, FromAur);
      }
    }
    assert localCache[..|localCache|] == localCache;
  }

  lemma EmptyForeign(sync: map<string, Pkg>)
    ensures Foreign([], sync, map[])
  {
  }
}
