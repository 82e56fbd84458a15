/** The package database: what is installed, what the repositories offer, who provides what, and what a
    run has found out so far about where each package comes from. */
module PackageDb {
  import opened Probing
  import opened SearchTree
  import opened HashBst
  import opened Names

  // A package of a database: its name, its dependencies as printed, and the names it provides.
  datatype Pkg = Pkg(name: string, depends: seq<string>, offers: seq<string>)

  datatype Origin = FromLocal | FromSync | FromAur

  datatype Level = Immediate | Thorough

  // The tables that are only read once built.
  datatype Static = Static(local: map<string, Pkg>, sync: map<string, Pkg>, aur: map<string, Pkg>,
                           localProvides: map<string, seq<string>>, syncProvides: map<string, seq<string>>)

  // The tables a run fills in.
  datatype State = State(pkgFrom: map<string, Origin>, providesCache: map<string, string>,
                         downloaded: set<string>, outdated: set<string>)

  /** First insert wins, for the exact comparator of names. */
  function Put<V>(m: map<string, V>, k: string, v: V): map<string, V>
  {
    if k in m then m else m[k := v]
  }

  /** The test applied to each provider by the in-order search. */
  function Present(table: map<string, Pkg>): string -> Option<string>
  {
    p => if p in table then Some(p) else None
  }

  /** The first provider of a name that is in the table. */
  function FindProvider(offers: map<string, seq<string>>, name: string, table: map<string, Pkg>): Option<string>
  {
    FirstSome(ValuesOf(offers, name), Present(table))
  }

  /** A provider that is installed. */
  function LocalProvider(s: Static, name: string): Option<string>
  {
    var p := FindProvider(s.localProvides, name, s.local);
    if p.Some? then p else FindProvider(s.syncProvides, name, s.local)
  }

  /** Where a name that is not installed is found outside the AUR, and under which name. */
  function Search(s: Static, name: string): Option<(string, Origin)>
  {
    var l := LocalProvider(s, name);
    if l.Some? then Some((l.value, FromLocal))
    else if name in s.sync then Some((name, FromSync))
    else
      var p := FindProvider(s.syncProvides, name, s.sync);
      if p.Some? then Some((p.value, FromSync)) else None
  }

  // Where a name leads: a package of known origin, or the AUR.
  datatype Verdict = Use(name: string, origin: Origin) | Aur

  /** The plain rule, without the cache of providers. */
  function Judge(s: Static, st: State, name: string): Verdict
  {
    if name in st.pkgFrom then
      if st.pkgFrom[name] != FromAur || name in st.downloaded then Use(name, st.pkgFrom[name]) else Aur
    else if name in s.local then
      if name in s.aur then Aur else Use(name, FromLocal)
    else match Search(s, name)
      case Some((p, o)) => Use(p, o)
      case None => Aur
  }

  /** An installed AUR package nobody asked to upgrade, at the level that does not download it again. */
  predicate UpToDate(s: Static, st: State, name: string, lvl: Level)
  {
    lvl == Immediate && name in s.aur && name !in st.outdated
  }

  /** What one normalisation may do: r is the name to use, None for a failed download. */
  ghost predicate Normalized(s: Static, st: State, name: string, lvl: Level, st': State, r: Option<string>)
  {
    st'.outdated == st.outdated &&
    match Judge(s, st, name)
    case Use(p, o) => r == Some(p) && st'.pkgFrom == Put(st.pkgFrom, p, o) && st'.downloaded == st.downloaded
    case Aur =>
      if UpToDate(s, st, name, lvl) then
        r == Some(name) && st'.pkgFrom == st.pkgFrom && st'.downloaded == st.downloaded
      else if r.None? then
        st'.pkgFrom == st.pkgFrom && st'.downloaded == st.downloaded
      else
        r == Some(name) && st'.pkgFrom == Put(st.pkgFrom, name, FromAur) && st'.downloaded == st.downloaded + {name}
  }

  /** What the read-only tables satisfy once built: the AUR packages are the installed ones that no
      repository offers. */
  ghost predicate Built(s: Static)
  {
    && (forall n :: n in s.aur <==> n in s.local && n !in s.sync)
    && (forall o :: Ascending(Compare, ValuesOf(s.localProvides, o)))
    && (forall o :: Ascending(Compare, ValuesOf(s.syncProvides, o)))
  }

  /** Recorded origins are true, and recorded only where the search would have led. */
  ghost predicate OriginsTrue(s: Static, st: State)
  {
    && (forall n :: n in s.aur ==> n in st.pkgFrom && st.pkgFrom[n] == FromAur)
    && (forall n :: n in st.pkgFrom ==> OriginTrue(s, st, n, st.pkgFrom[n]))
    && (forall n :: n in st.downloaded ==> n in st.pkgFrom && st.pkgFrom[n] == FromAur)
  }

  ghost predicate OriginTrue(s: Static, st: State, n: string, o: Origin)
  {
    match o
    case FromLocal => n in s.local && n !in s.aur
    case FromSync => n in s.sync && n !in s.local
    case FromAur => n in s.aur || (n in st.downloaded && n !in s.local && Search(s, n).None?)
  }

  /** A cached provider is the one the skipped searches would find, and its origin is recorded. */
  ghost predicate CacheTrue(s: Static, st: State)
  {
    forall n :: n in st.providesCache ==>
      && n !in s.local && st.providesCache[n] in st.pkgFrom
      && Search(s, n).Some? && Search(s, n).value.0 == st.providesCache[n]
  }

  ghost predicate Consistent(s: Static, st: State)
  {
    Built(s) && OriginsTrue(s, st) && CacheTrue(s, st)
  }

  /** The state right after the tables are built. */
  ghost predicate Initial(s: Static, st: State)
  {
    && st.pkgFrom.Keys == s.aur.Keys && (forall n :: n in s.aur ==> st.pkgFrom[n] == FromAur)
    && st.providesCache == map[] && st.downloaded == {} && st.outdated == {}
  }

  lemma InitialConsistent(s: Static, st: State)
    requires Built(s) && Initial(s, st)
    ensures Consistent(s, st)
  {
  }

  /** Facts recorded only accumulate. */
  ghost predicate Extends(st: State, st': State)
  {
    && (forall n :: n in st.pkgFrom ==> n in st'.pkgFrom && st'.pkgFrom[n] == st.pkgFrom[n])
    && st.downloaded <= st'.downloaded && st.outdated == st'.outdated
  }

  lemma ProviderPresent(offers: map<string, seq<string>>, name: string, table: map<string, Pkg>)
    ensures FindProvider(offers, name, table).Some? ==> FindProvider(offers, name, table).value in table
  {
    FirstSomePresent(ValuesOf(offers, name), table);
  }

  lemma {:induction false} FirstSomePresent(s: seq<string>, table: map<string, Pkg>)
    ensures FirstSome(s, Present(table)).Some? ==> FirstSome(s, Present(table)).value in table
    ensures FirstSome(s, Present(table)).Some? ==> FirstSome(s, Present(table)).value in s
    ensures FirstSome(s, Present(table)).None? ==> forall p :: p in s ==> p !in table
  {
    if s != [] && Present(table)(s[0]).None? {
      FirstSomePresent(s[1..], table);
      assert s == [s[0]] + s[1..];
    }
  }

  /** A repository provider is not installed when no installed provider was found. */
  lemma SearchTrue(s: Static, name: string)
    requires Search(s, name).Some? && name !in s.local
    ensures var (p, o) := Search(s, name).value; if o == FromLocal then p in s.local else p in s.sync && p !in s.local
    ensures Search(s, name).value.1 != FromAur
  {
    ProviderPresent(s.localProvides, name, s.local);
    ProviderPresent(s.syncProvides, name, s.local);
    ProviderPresent(s.syncProvides, name, s.sync);
    FirstSomePresent(ValuesOf(s.syncProvides, name), s.local);
    FirstSomePresent(ValuesOf(s.syncProvides, name), s.sync);
  }

  /** Recording the origin of a package that was found, keeps the origins true. */
  lemma UseKeeps(s: Static, st: State, name: string, p: string, o: Origin, st': State)
    requires Built(s) && OriginsTrue(s, st) && Judge(s, st, name) == Use(p, o)
    requires st'.pkgFrom == Put(st.pkgFrom, p, o) && st'.downloaded == st.downloaded
    ensures OriginsTrue(s, st') && p in st'.pkgFrom
  {
    if name !in st.pkgFrom && name !in s.local {
      SearchTrue(s, name);
    }
    hide Search;
    assert p !in st.pkgFrom ==> OriginTrue(s, st, p, o);
    forall n | n in st'.pkgFrom
      ensures OriginTrue(s, st', n, st'.pkgFrom[n])
    {
      assert n in st.pkgFrom ==> OriginTrue(s, st, n, st.pkgFrom[n]);
    }
  }

  /** So does recording a download. */
  lemma FetchKeeps(s: Static, st: State, name: string, st': State)
    requires Built(s) && OriginsTrue(s, st) && Judge(s, st, name) == Aur
    requires st'.pkgFrom == Put(st.pkgFrom, name, FromAur) && st'.downloaded == st.downloaded + {name}
    ensures OriginsTrue(s, st')
  {
    hide Search;
    forall n | n in st'.pkgFrom
      ensures OriginTrue(s, st', n, st'.pkgFrom[n])
    {
      assert n in st.pkgFrom ==> OriginTrue(s, st, n, st.pkgFrom[n]);
    }
  }

  /** A normalisation keeps the recorded origins true and changes none of them. */
  lemma NormalizeKeeps(s: Static, st: State, name: string, lvl: Level, st': State, r: Option<string>)
    requires Built(s) && OriginsTrue(s, st) && Normalized(s, st, name, lvl, st', r)
    ensures OriginsTrue(s, st') && Extends(st, st')
    ensures r.Some? ==> r.value in st'.pkgFrom
  {
    hide Search, OriginTrue;
    match Judge(s, st, name)
    case Use(p, o) =>
      UseKeeps(s, st, name, p, o, st');
    case Aur =>
      if !UpToDate(s, st, name, lvl) && r.Some? {
        FetchKeeps(s, st, name, st');
      } else {
        SameOrigins(s, st, st');
      }
  }

  lemma SameOrigins(s: Static, st: State, st': State)
    requires OriginsTrue(s, st) && st'.pkgFrom == st.pkgFrom && st'.downloaded == st.downloaded
    ensures OriginsTrue(s, st')
  {
    hide Search;
    forall n | n in st'.pkgFrom
      ensures OriginTrue(s, st', n, st'.pkgFrom[n])
    {
      assert OriginTrue(s, st, n, st.pkgFrom[n]);
    }
  }

  /** A package of the table provides the name. */
  ghost predicate Provided(offers: map<string, seq<string>>, name: string, table: map<string, Pkg>)
  {
    exists p :: p in ValuesOf(offers, name) && p in table
  }

  /** Whatever the order of the providers. */
  lemma FindProviderFinds(offers: map<string, seq<string>>, name: string, table: map<string, Pkg>)
    ensures FindProvider(offers, name, table).Some? <==> Provided(offers, name, table)
  {
    FirstSomePresent(ValuesOf(offers, name), table);
  }

  /** p is a package of the table that provides the name, and comes before every other one. */
  ghost predicate LeastProvider(offers: map<string, seq<string>>, name: string, table: map<string, Pkg>, p: string)
  {
    && p in ValuesOf(offers, name) && p in table
    && forall q :: q in ValuesOf(offers, name) && q in table && q != p ==> Precedes(p, q)
  }

  /** The provider found is the least one present, and none is found only if none is present. */
  lemma FindProviderLeast(offers: map<string, seq<string>>, name: string, table: map<string, Pkg>)
    requires Ascending(Compare, ValuesOf(offers, name))
    ensures var p := FindProvider(offers, name, table);
      && (p.Some? <==> Provided(offers, name, table))
      && (p.Some? ==> LeastProvider(offers, name, table, p.value))
  {
    hide ValuesOf, Ascending;
    CompareTotal();
    FirstSomeIsLeast(Compare, ValuesOf(offers, name), Present(table));
    var p := FindProvider(offers, name, table);
    if p.Some? {
      forall q | q in ValuesOf(offers, name) && q in table && q != p.value
        ensures Precedes(p.value, q)
      {
        CompareSigns(p.value, q);
        CompareOrders(p.value, q);
      }
    }
  }

  lemma LeastProviderUnique(offers: map<string, seq<string>>, name: string, table: map<string, Pkg>,
                            p: string, q: string)
    requires LeastProvider(offers, name, table, p) && LeastProvider(offers, name, table, q)
    ensures p == q
  {
    if p != q {
      CompareOrders(p, q);
      CompareOrders(q, p);
      CompareSigns(p, q);
      assert false;
    }
  }

  lemma FindProviderIs(offers: map<string, seq<string>>, name: string, table: map<string, Pkg>)
    requires Ascending(Compare, ValuesOf(offers, name))
    ensures FindProvider(offers, name, table).Some? <==> Provided(offers, name, table)
    ensures forall p :: LeastProvider(offers, name, table, p) <==> FindProvider(offers, name, table) == Some(p)
  {
    hide FindProvider, LeastProvider, Provided, Ascending;
    FindProviderLeast(offers, name, table);
    forall p
      ensures LeastProvider(offers, name, table, p) <==> FindProvider(offers, name, table) == Some(p)
    {
      if LeastProvider(offers, name, table, p) {
        LeastIsProvided(offers, name, table, p);
        LeastProviderUnique(offers, name, table, p, FindProvider(offers, name, table).value);
      }
    }
  }

  lemma LeastIsProvided(offers: map<string, seq<string>>, name: string, table: map<string, Pkg>, p: string)
    requires LeastProvider(offers, name, table, p)
    ensures Provided(offers, name, table)
  {
  }

  /** All that happens is that p's origin is recorded as o, unless one was recorded before. */
  ghost predicate OnlyRecords(st: State, st': State, p: string, o: Origin)
  {
    && st'.pkgFrom == (if p in st.pkgFrom then st.pkgFrom else st.pkgFrom[p := o])
    && st'.downloaded == st.downloaded && st'.outdated == st.outdated
  }

  /** The name is asked of the AUR. The answer is the name itself, without asking, for an installed AUR
      package that is not outdated, at the immediate level; else the name once downloaded, or nothing. */
  ghost predicate AurAnswers(s: Static, st: State, name: string, lvl: Level, st': State, r: Option<string>)
  {
    if lvl == Immediate && name in s.aur && name !in st.outdated then
      r == Some(name) && st'.pkgFrom == st.pkgFrom && st'.downloaded == st.downloaded && st'.outdated == st.outdated
    else if r == None then
      st'.pkgFrom == st.pkgFrom && st'.downloaded == st.downloaded && st'.outdated == st.outdated
    else
      && r == Some(name) && st'.downloaded == st.downloaded + {name} && st'.outdated == st.outdated
      && st'.pkgFrom == (if name in st.pkgFrom then st.pkgFrom else st.pkgFrom[name := FromAur])
  }

  /** The least package of the table that provides the name is the answer, and its origin is o. */
  ghost predicate ProviderAnswers(offers: map<string, seq<string>>, name: string, table: map<string, Pkg>,
                                  o: Origin, st: State, st': State, r: Option<string>)
  {
    r.Some? && LeastProvider(offers, name, table, r.value) && OnlyRecords(st, st', r.value, o)
  }

  /** A name neither recorded nor installed: an installed package that provides it, by its own account
      first and then by that of the repositories; else the repository package of that name, else one that
      provides it; and only then the AUR. */
  ghost predicate SearchAnswers(s: Static, st: State, name: string, lvl: Level, st': State, r: Option<string>)
  {
    if Provided(s.localProvides, name, s.local) then
      ProviderAnswers(s.localProvides, name, s.local, FromLocal, st, st', r)
    else if Provided(s.syncProvides, name, s.local) then
      ProviderAnswers(s.syncProvides, name, s.local, FromLocal, st, st', r)
    else if name in s.sync then
      r == Some(name) && OnlyRecords(st, st', name, FromSync)
    else if Provided(s.syncProvides, name, s.sync) then
      ProviderAnswers(s.syncProvides, name, s.sync, FromSync, st, st', r)
    else
      AurAnswers(s, st, name, lvl, st', r)
  }

  /** The answer to any name: a recorded origin other than the AUR, or a download, settles it; an installed
      package is itself, asked of the AUR if it is from there. */
  ghost predicate NameAnswers(s: Static, st: State, name: string, lvl: Level, st': State, r: Option<string>)
  {
    if name in st.pkgFrom && (st.pkgFrom[name] != FromAur || name in st.downloaded) then
      r == Some(name) && OnlyRecords(st, st', name, st.pkgFrom[name])
    else if name in st.pkgFrom || name in s.aur then
      AurAnswers(s, st, name, lvl, st', r)
    else if name in s.local then
      r == Some(name) && OnlyRecords(st, st', name, FromLocal)
    else
      SearchAnswers(s, st, name, lvl, st', r)
  }

  /** The rule followed by the program is that one, step for step. */
  lemma NormalizedInOrder(s: Static, st: State, name: string, lvl: Level, st': State, r: Option<string>)
    requires Built(s)
    ensures Normalized(s, st, name, lvl, st', r) <==> NameAnswers(s, st, name, lvl, st', r)
  {
    hide SearchAnswers, Search, Ascending;
    if name !in st.pkgFrom && name !in s.local {
      NormalizedSearch(s, st, name, lvl, st', r);
    }
  }

  lemma NormalizedSearch(s: Static, st: State, name: string, lvl: Level, st': State, r: Option<string>)
    requires Built(s) && name !in st.pkgFrom && name !in s.local
    ensures Normalized(s, st, name, lvl, st', r) <==> SearchAnswers(s, st, name, lvl, st', r)
  {
    hide FindProvider, LeastProvider, Provided, Built, OnlyRecords, AurAnswers;
    SearchedInOrder(s, name);
    NormalizedAs(s, st, name, lvl, st', r);
  }

  lemma NormalizedAs(s: Static, st: State, name: string, lvl: Level, st': State, r: Option<string>)
    ensures match Judge(s, st, name)
      case Use(p, o) => Normalized(s, st, name, lvl, st', r) <==> r == Some(p) && OnlyRecords(st, st', p, o)
      case Aur => Normalized(s, st, name, lvl, st', r) <==> AurAnswers(s, st, name, lvl, st', r)
  {
    hide Judge;
  }

  lemma SearchedInOrder(s: Static, name: string)
    requires Built(s)
    ensures FindProvider(s.localProvides, name, s.local).Some? <==> Provided(s.localProvides, name, s.local)
    ensures FindProvider(s.syncProvides, name, s.local).Some? <==> Provided(s.syncProvides, name, s.local)
    ensures FindProvider(s.syncProvides, name, s.sync).Some? <==> Provided(s.syncProvides, name, s.sync)
    ensures forall p :: LeastProvider(s.localProvides, name, s.local, p) <==>
      FindProvider(s.localProvides, name, s.local) == Some(p)
    ensures forall p :: LeastProvider(s.syncProvides, name, s.local, p) <==>
      FindProvider(s.syncProvides, name, s.local) == Some(p)
    ensures forall p :: LeastProvider(s.syncProvides, name, s.sync, p) <==>
      FindProvider(s.syncProvides, name, s.sync) == Some(p)
  {
    hide FindProvider, LeastProvider, Provided, Ascending, ValuesOf;
    FindProviderIs(s.localProvides, name, s.local);
    FindProviderIs(s.syncProvides, name, s.local);
    FindProviderIs(s.syncProvides, name, s.sync);
  }

  /** What the searches find, and whether they find an installed package. */
  lemma SearchInOrder(s: Static, name: string)
    requires Built(s)
    ensures LocalProvider(s, name).Some? <==>
      Provided(s.localProvides, name, s.local) || Provided(s.syncProvides, name, s.local)
    ensures Search(s, name).None? <==>
      && !Provided(s.localProvides, name, s.local) && !Provided(s.syncProvides, name, s.local)
      && name !in s.sync && !Provided(s.syncProvides, name, s.sync)
  {
    hide FindProvider, LeastProvider, Provided, Built;
    SearchedInOrder(s, name);
  }

  /** A name once returned is returned again, at any later time and level, unless a download it then
      needs fails. */
  lemma NormalizeIdempotent(s: Static, st: State, name: string, lvl: Level, st1: State, p: string,
                            st2: State, lvl2: Level, st3: State, r: Option<string>)
    requires Built(s) && OriginsTrue(s, st) && Normalized(s, st, name, lvl, st1, Some(p))
    requires Extends(st1, st2) && Normalized(s, st2, p, lvl2, st3, r)
    ensures r == Some(p) || (r == None && Judge(s, st2, p) == Aur && !UpToDate(s, st2, p, lvl2))
    ensures lvl2 == lvl == Immediate && !(p in s.aur && p in st2.outdated && p !in st2.downloaded) ==>
      r == Some(p) && st3.pkgFrom == st2.pkgFrom && st3.downloaded == st2.downloaded
  {
    NormalizeKeeps(s, st, name, lvl, st1, Some(p));
  }

  // One normalisation asked for.
  datatype Call = Call(name: string, lvl: Level)

  /** A run of normalisations: the states between them and what each returned. */
  ghost predicate IsRun(s: Static, sts: seq<State>, calls: seq<Call>, rs: seq<Option<string>>)
  {
    && |sts| == |calls| + 1 && |rs| == |calls|
    && forall i :: 0 <= i < |calls| ==> Normalized(s, sts[i], calls[i].name, calls[i].lvl, sts[i + 1], rs[i])
  }

  /** Along a run the origins stay true, and none is changed or lost. */
  lemma {:induction false} RunKeeps(s: Static, sts: seq<State>, calls: seq<Call>, rs: seq<Option<string>>,
                                    i: nat, j: nat)
    requires Built(s) && IsRun(s, sts, calls, rs) && i <= j < |sts| && OriginsTrue(s, sts[i])
    ensures OriginsTrue(s, sts[j]) && Extends(sts[i], sts[j])
    decreases j
  {
    hide OriginsTrue, Normalized;
    if i == j {
    } else {
      RunKeeps(s, sts, calls, rs, i, j - 1);
      NormalizeKeeps(s, sts[j - 1], calls[j - 1].name, calls[j - 1].lvl, sts[j], rs[j - 1]);
    }
  }

  /** Whatever a run of the program asks for: a name that was returned once is, when asked for later,
      returned again, unless the download it then needs fails. */
  lemma RunIdempotent(s: Static, sts: seq<State>, calls: seq<Call>, rs: seq<Option<string>>, i: nat, j: nat)
    requires Built(s) && IsRun(s, sts, calls, rs) && OriginsTrue(s, sts[0])
    requires i < j < |calls| && rs[i] == Some(calls[j].name)
    ensures rs[j] == rs[i] || (rs[j] == None && Judge(s, sts[j], calls[j].name) == Aur)
    ensures var p := rs[i].value;
      p in sts[i + 1].pkgFrom && p in sts[j].pkgFrom && sts[j].pkgFrom[p] == sts[i + 1].pkgFrom[p]
  {
    hide OriginsTrue, Extends, Normalized, Judge;
    RunKeeps(s, sts, calls, rs, 0, i);
    RunKeeps(s, sts, calls, rs, 0, i + 1);
    RunKeeps(s, sts, calls, rs, i + 1, j);
    NormalizeKeeps(s, sts[i], calls[i].name, calls[i].lvl, sts[i + 1], rs[i]);
    NormalizeIdempotent(s, sts[i], calls[i].name, calls[i].lvl, sts[i + 1], rs[i].value,
                        sts[j], calls[j].lvl, sts[j + 1], rs[j]);
    Recorded(sts[i + 1], sts[j], rs[i].value);
  }

  lemma Recorded(st: State, st': State, p: string)
    requires Extends(st, st') && p in st.pkgFrom
    ensures p in st'.pkgFrom && st'.pkgFrom[p] == st.pkgFrom[p]
  {
  }

  /** The name a verdict leads to. */
  function Leads(v: Verdict, name: string): string
  {
    match v
    case Use(p, _) => p
    case Aur => name
  }

  /** Where a name leads in a database nothing has been asked of yet. */
  function PlainAnswer(s: Static, name: string): string
  {
    if name in s.local || Search(s, name).None? then name else Search(s, name).value.0
  }

  /** A repository package recorded as a provider hides the installed provider of its own name. */
  ghost predicate Hidden(s: Static, st: State, name: string)
  {
    name in st.pkgFrom && st.pkgFrom[name] == FromSync && LocalProvider(s, name).Some?
  }

  /** No package of the repositories that is not installed has an installed provider. */
  ghost predicate NeverHides(s: Static)
  {
    forall n :: n in s.sync && n !in s.local ==> LocalProvider(s, n).None?
  }

  /** Then nothing is ever hidden. */
  lemma NothingHidden(s: Static, st: State, name: string)
    requires OriginsTrue(s, st) && NeverHides(s)
    ensures !Hidden(s, st, name)
  {
    hide LocalProvider, Search;
    if name in st.pkgFrom {
      assert OriginTrue(s, st, name, st.pkgFrom[name]);
    }
  }

  /** In every reachable state a name leads where it would have led at the start, unless it is hidden. */
  lemma OrderMattersWhenHidden(s: Static, st0: State, st: State, name: string)
    requires Built(s) && Initial(s, st0) && OriginsTrue(s, st)
    ensures Leads(Judge(s, st, name), name) == Leads(Judge(s, st0, name), name) <==> !Hidden(s, st, name)
    ensures Leads(Judge(s, st0, name), name) == PlainAnswer(s, name)
  {
    ProviderPresent(s.localProvides, name, s.local);
    ProviderPresent(s.syncProvides, name, s.local);
  }

  /** Recording a repository provider can hide an installed one: b offers a and is in the repositories,
      c is installed and offers b, and nothing else is known. Asked for b first, the answer is c; asked
      for a first, b is recorded and b itself is the answer. */
  lemma HiddenProvider()
    ensures exists s, st, st', st'' ::
      && Built(s) && Initial(s, st) && Leads(Judge(s, st, "b"), "b") == "c"
      && Normalized(s, st, "a", Immediate, st', Some("b"))
      && Normalized(s, st', "b", Immediate, st'', Some("b"))
  {
    var c, b := Pkg("c", [], ["b"]), Pkg("b", [], ["a"]);
    var s := Static(map["c" := c], map["b" := b, "c" := c], map[], map["b" := ["c"]], map["a" := ["b"]]);
    var st := State(map[], map[], {}, {});
    var st' := st.(pkgFrom := map["b" := FromSync]);
    assert "a" != "b" && "a" != "c" && "b" != "c";
    assert FirstSome(["c"], Present(s.local)) == Some("c");
    assert FirstSome(["b"], Present(s.local)) == None by {
      assert ["b"][1..] == [];
    }
    assert FirstSome(["b"], Present(s.sync)) == Some("b");
    assert Search(s, "a") == Some(("b", FromSync));
    assert Judge(s, st, "b") == Use("c", FromLocal);
    assert Normalized(s, st, "a", Immediate, st', Some("b"));
    assert Normalized(s, st', "b", Immediate, st', Some("b"));
  }

  lemma CompareTotal()
    ensures TotalOrder(Compare)
  {
    forall a, b
      ensures Compare(a, b) == 0 <==> a == b
      ensures Compare(a, b) < 0 <==> Compare(b, a) > 0
    {
      CompareSigns(a, b);
    }
    forall a, b, c | Compare(a, b) < 0 && Compare(b, c) < 0
      ensures Compare(a, c) < 0
    {
      CompareTransitive(a, b, c);
    }
  }

  /** A package of the list named v offers o. */
  ghost predicate Offers(list: seq<Pkg>, o: string, v: string)
  {
    exists i :: 0 <= i < |list| && list[i].name == v && o in list[i].offers
  }

  /** The first package of the list with a name. */
  ghost predicate FirstNamed(list: seq<Pkg>, n: string, p: Pkg)
  {
    exists i :: 0 <= i < |list| && list[i] == p && p.name == n && forall j :: 0 <= j < i ==> list[j].name != n
  }

  ghost predicate Named(list: seq<Pkg>, n: string)
  {
    exists i :: 0 <= i < |list| && list[i].name == n
  }

  /** table' is table with the packages of the list put in, the first of each name winning. */
  ghost predicate Hashed(list: seq<Pkg>, table: map<string, Pkg>, table': map<string, Pkg>)
  {
    forall n ::
      && (n in table' <==> n in table || Named(list, n))
      && (n in table ==> n in table' && table'[n] == table[n])
      && (n in table' && n !in table ==> FirstNamed(list, n, table'[n]))
  }

  /** offers' is offers with everything the packages of the list offer added. */
  ghost predicate Offered(list: seq<Pkg>, offers: map<string, seq<string>>, offers': map<string, seq<string>>)
  {
    && (forall o, v :: v in ValuesOf(offers', o) <==> v in ValuesOf(offers, o) || Offers(list, o, v))
    && (forall o :: Ascending(Compare, ValuesOf(offers', o)))
  }

  lemma HashedOne(list: seq<Pkg>, table: map<string, Pkg>, t: map<string, Pkg>, i: nat)
    requires i < |list| && Hashed(list[..i], table, t)
    ensures Hashed(list[..i + 1], table, Put(t, list[i].name, list[i]))
  {
    var t', p, pre, post := Put(t, list[i].name, list[i]), list[i], list[..i], list[..i + 1];
    assert post == pre + [p];
    forall n
      ensures n in t' <==> n in table || Named(post, n)
      ensures n in table ==> n in t' && t'[n] == table[n]
      ensures n in t' && n !in table ==> FirstNamed(post, n, t'[n])
    {
      if Named(pre, n) {
        var j :| 0 <= j < i && pre[j].name == n;
        assert post[j].name == n;
      }
      if n == p.name {
        assert post[i].name == n;
      }
      if n in t' && n !in table {
        if n in t {
          var j :| 0 <= j < i && pre[j] == t[n] && t[n].name == n && forall l :: 0 <= l < j ==> pre[l].name != n;
          assert post[j] == t[n];
        } else {
          assert post[i] == p;
          forall l | 0 <= l < i
            ensures post[l].name != n
          {
            assert pre[l] == post[l];
          }
        }
      }
    }
  }

  lemma AddValueMembers(offers: map<string, seq<string>>, o: string, v: string, o': string, v': string)
    ensures v' in ValuesOf(AddValue(Compare, offers, o, v), o') <==> v' in ValuesOf(offers, o') || (o' == o && v' == v)
  {
    CompareTotal();
    SortedInsertMembers(Compare, ValuesOf(offers, o), v, v');
  }

  lemma AddValueAscends(offers: map<string, seq<string>>, o: string, v: string)
    requires forall x :: Ascending(Compare, ValuesOf(offers, x))
    ensures forall x :: Ascending(Compare, ValuesOf(AddValue(Compare, offers, o, v), x))
  {
    CompareTotal();
    SortedInsertAscends(Compare, ValuesOf(offers, o), v);
    forall x
      ensures Ascending(Compare, ValuesOf(AddValue(Compare, offers, o, v), x))
    {
      assert Ascending(Compare, ValuesOf(offers, x));
    }
  }

  /** Enters the packages of a database into its table and what they offer into its providers. */
  method HashPackages(list: seq<Pkg>, table: map<string, Pkg>, offers: map<string, seq<string>>)
    returns (table': map<string, Pkg>, offers': map<string, seq<string>>)
    requires forall o :: Ascending(Compare, ValuesOf(offers, o))
    ensures Hashed(list, table, table') && Offered(list, offers, offers')
  {
    table', offers' := table, offers;
    for i := 0 to |list|
      invariant Hashed(list[..i], table, table')
      invariant Offered(list[..i], offers, offers')
    {
      HashedOne(list, table, table', i);
      table' := Put(table', list[i].name, list[i]);
      offers' := HashOffers(list, offers, offers', i);
    }
    assert list[..|list|] == list;
  }

  /** offers' is offers with v added under each of the names. */
  ghost predicate Added(offers: map<string, seq<string>>, offers': map<string, seq<string>>, names: seq<string>,
                        v: string)
  {
    && (forall o, x :: x in ValuesOf(offers', o) <==> x in ValuesOf(offers, o) || (x == v && o in names))
    && (forall o :: Ascending(Compare, ValuesOf(offers', o)))
  }

  lemma AddedOne(o1: map<string, seq<string>>, o2: map<string, seq<string>>, names: seq<string>, v: string, k: nat)
    requires k < |names| && Added(o1, o2, names[..k], v)
    ensures Added(o1, AddValue(Compare, o2, names[k], v), names[..k + 1], v)
  {
    hide AddValue, ValuesOf, Ascending;
    assert names[..k + 1] == names[..k] + [names[k]];
    AddValueAscends(o2, names[k], v);
    forall o, x
      ensures x in ValuesOf(AddValue(Compare, o2, names[k], v), o)
         <==> x in ValuesOf(o1, o) || (x == v && o in names[..k + 1])
    {
      AddValueMembers(o2, names[k], v, o, x);
    }
  }

  lemma AddedAll(list: seq<Pkg>, offers: map<string, seq<string>>, o1: map<string, seq<string>>,
                 o2: map<string, seq<string>>, i: nat)
    requires i < |list| && Offered(list[..i], offers, o1) && Added(o1, o2, list[i].offers, list[i].name)
    ensures Offered(list[..i + 1], offers, o2)
  {
    hide ValuesOf, Ascending, Offers;
    OffersOne(list, i);
  }

  method HashOffers(list: seq<Pkg>, ghost offers: map<string, seq<string>>, o1: map<string, seq<string>>, i: nat)
    returns (offers': map<string, seq<string>>)
    requires i < |list| && Offered(list[..i], offers, o1)
    ensures Offered(list[..i + 1], offers, offers')
  {
    hide AddValue, Added;
    var p := list[i];
    offers' := o1;
    AddedNone(o1, p.name);
    for k := 0 to |p.offers|
      invariant Added(o1, offers', p.offers[..k], p.name)
    {
      AddedOne(o1, offers', p.offers, p.name, k);
      offers' := AddValue(Compare, offers', p.offers[k], p.name);
    }
    assert p.offers[..|p.offers|] == p.offers;
    AddedAll(list, offers, o1, offers', i);
  }

  lemma AddedNone(offers: map<string, seq<string>>, v: string)
    requires forall o :: Ascending(Compare, ValuesOf(offers, o))
    ensures Added(offers, offers, [], v)
  {
  }

  lemma OffersOne(list: seq<Pkg>, i: nat)
    requires i < |list|
    ensures forall o, v ::
      Offers(list[..i + 1], o, v) <==> Offers(list[..i], o, v) || (v == list[i].name && o in list[i].offers)
  {
    var pre, post := list[..i], list[..i + 1];
    forall o, v
      ensures Offers(post, o, v) <==> Offers(pre, o, v) || (v == list[i].name && o in list[i].offers)
    {
      if Offers(pre, o, v) {
        var j :| 0 <= j < i && pre[j].name == v && o in pre[j].offers;
        assert post[j] == pre[j];
      }
      if v == list[i].name && o in list[i].offers {
        assert post[i] == list[i];
      }
      if Offers(post, o, v) {
        var j :| 0 <= j < i + 1 && post[j].name == v && o in post[j].offers;
        assert j < i ==> pre[j] == post[j];
      }
    }
  }

  function Concat(dbs: seq<seq<Pkg>>): seq<Pkg>
  {
    if dbs == [] then [] else Concat(dbs[..|dbs| - 1]) + dbs[|dbs| - 1]
  }

  lemma HashedAgain(a: seq<Pkg>, b: seq<Pkg>, t0: map<string, Pkg>, t1: map<string, Pkg>, t2: map<string, Pkg>)
    requires Hashed(a, t0, t1) && Hashed(b, t1, t2)
    ensures Hashed(a + b, t0, t2)
  {
    forall n
      ensures n in t2 <==> n in t0 || Named(a + b, n)
      ensures n in t0 ==> n in t2 && t2[n] == t0[n]
      ensures n in t2 && n !in t0 ==> FirstNamed(a + b, n, t2[n])
    {
      NamedConcat(a, b, n);
      if n in t2 && n !in t0 {
        if n in t1 {
          assert t2[n] == t1[n];
          FirstNamedLeft(a, b, n, t2[n]);
        } else {
          FirstNamedRight(a, b, n, t2[n]);
        }
      }
    }
  }

  lemma NamedConcat(a: seq<Pkg>, b: seq<Pkg>, n: string)
    ensures Named(a + b, n) <==> Named(a, n) || Named(b, n)
  {
    if Named(a, n) {
      var i :| 0 <= i < |a| && a[i].name == n;
      assert (a + b)[i].name == n;
    }
    if Named(b, n) {
      var i :| 0 <= i < |b| && b[i].name == n;
      assert (a + b)[|a| + i].name == n;
    }
  }

  lemma FirstNamedLeft(a: seq<Pkg>, b: seq<Pkg>, n: string, p: Pkg)
    requires FirstNamed(a, n, p)
    ensures FirstNamed(a + b, n, p)
  {
    var i :| 0 <= i < |a| && a[i] == p && p.name == n && forall j :: 0 <= j < i ==> a[j].name != n;
    assert (a + b)[i] == p;
  }

  lemma FirstNamedRight(a: seq<Pkg>, b: seq<Pkg>, n: string, p: Pkg)
    requires FirstNamed(b, n, p) && !Named(a, n)
    ensures FirstNamed(a + b, n, p)
  {
    var i :| 0 <= i < |b| && b[i] == p && p.name == n && forall j :: 0 <= j < i ==> b[j].name != n;
    assert (a + b)[|a| + i] == p;
    forall j | 0 <= j < |a| + i
      ensures (a + b)[j].name != n
    {
      if j >= |a| {
        assert b[j - |a|].name != n;
      }
    }
  }

  lemma OfferedAgain(a: seq<Pkg>, b: seq<Pkg>, o0: map<string, seq<string>>, o1: map<string, seq<string>>,
                     o2: map<string, seq<string>>)
    requires Offered(a, o0, o1) && Offered(b, o1, o2)
    ensures Offered(a + b, o0, o2)
  {
    hide ValuesOf, Ascending, Offers;
    forall o, v
      ensures Offers(a + b, o, v) <==> Offers(a, o, v) || Offers(b, o, v)
    {
      OffersConcat(a, b, o, v);
    }
  }

  lemma OffersConcat(a: seq<Pkg>, b: seq<Pkg>, o: string, v: string)
    ensures Offers(a + b, o, v) <==> Offers(a, o, v) || Offers(b, o, v)
  {
    if Offers(a, o, v) {
      var i :| 0 <= i < |a| && a[i].name == v && o in a[i].offers;
      assert (a + b)[i] == a[i];
    }
    if Offers(b, o, v) {
      var i :| 0 <= i < |b| && b[i].name == v && o in b[i].offers;
      assert (a + b)[|a| + i] == b[i];
    }
    if Offers(a + b, o, v) {
      var i :| 0 <= i < |a + b| && (a + b)[i].name == v && o in (a + b)[i].offers;
      assert if i < |a| then a[i] == (a + b)[i] else b[i - |a|] == (a + b)[i];
    }
  }

  lemma FirstNamedSplit(a: seq<Pkg>, b: seq<Pkg>, n: string, p: Pkg)
    requires FirstNamed(a + b, n, p)
    ensures FirstNamed(a, n, p) || (!Named(a, n) && FirstNamed(b, n, p))
  {
    var list := a + b;
    var i :| 0 <= i < |list| && list[i] == p && p.name == n && forall j :: 0 <= j < i ==> list[j].name != n;
    if i < |a| {
      assert a[i] == p;
      assert forall j :: 0 <= j < i ==> a[j] == list[j];
    } else {
      assert forall j :: 0 <= j < |a| ==> a[j] == list[j];
      assert b[i - |a|] == p;
      forall j | 0 <= j < i - |a|
        ensures b[j].name != n
      {
        assert b[j] == list[|a| + j];
      }
    }
  }

  /** The i-th repository is the first that has the name, and p its first package of that name. */
  ghost predicate FirstIn(dbs: seq<seq<Pkg>>, n: string, p: Pkg, i: nat)
    requires i < |dbs|
  {
    FirstNamed(dbs[i], n, p) && forall j :: 0 <= j < i ==> !Named(dbs[j], n)
  }

  /** The table has the names of the repositories, each with its package in the first that has it. */
  ghost predicate FirstRepository(dbs: seq<seq<Pkg>>, table: map<string, Pkg>)
  {
    && (forall n :: n in table <==> exists i :: 0 <= i < |dbs| && Named(dbs[i], n))
    && forall n :: n in table ==> exists i :: 0 <= i < |dbs| && FirstIn(dbs, n, table[n], i)
  }

  /** Each name has as providers the packages of every repository that offer it. */
  ghost predicate EveryRepository(dbs: seq<seq<Pkg>>, offers: map<string, seq<string>>)
  {
    forall o, v :: v in ValuesOf(offers, o) <==> exists i :: 0 <= i < |dbs| && Offers(dbs[i], o, v)
  }

  lemma {:induction false} ConcatNamed(dbs: seq<seq<Pkg>>, n: string)
    ensures Named(Concat(dbs), n) <==> exists i :: 0 <= i < |dbs| && Named(dbs[i], n)
  {
    if dbs == [] {
    } else {
      hide Named;
      var front := dbs[..|dbs| - 1];
      ConcatNamed(front, n);
      NamedConcat(Concat(front), dbs[|dbs| - 1], n);
      assert forall i :: 0 <= i < |front| ==> front[i] == dbs[i];
      if i :| 0 <= i < |dbs| && Named(dbs[i], n) {
        assert i < |front| ==> Named(front[i], n);
      }
    }
  }

  lemma {:induction false} ConcatFirst(dbs: seq<seq<Pkg>>, n: string, p: Pkg)
    requires FirstNamed(Concat(dbs), n, p)
    ensures exists i :: 0 <= i < |dbs| && FirstIn(dbs, n, p, i)
  {
    if dbs == [] {
    } else {
      hide Named, FirstNamed;
      var front, last := dbs[..|dbs| - 1], dbs[|dbs| - 1];
      FirstNamedSplit(Concat(front), last, n, p);
      ConcatNamed(front, n);
      if FirstNamed(Concat(front), n, p) {
        ConcatFirst(front, n, p);
        var i :| 0 <= i < |front| && FirstIn(front, n, p, i);
        assert FirstIn(dbs, n, p, i);
      } else {
        assert FirstIn(dbs, n, p, |dbs| - 1);
      }
    }
  }

  lemma {:induction false} ConcatOffers(dbs: seq<seq<Pkg>>, o: string, v: string)
    ensures Offers(Concat(dbs), o, v) <==> exists i :: 0 <= i < |dbs| && Offers(dbs[i], o, v)
  {
    if dbs == [] {
    } else {
      hide Offers;
      var front := dbs[..|dbs| - 1];
      ConcatOffers(front, o, v);
      OffersConcat(Concat(front), dbs[|dbs| - 1], o, v);
      assert forall i :: 0 <= i < |front| ==> front[i] == dbs[i];
      if i :| 0 <= i < |dbs| && Offers(dbs[i], o, v) {
        assert i < |front| ==> Offers(front[i], o, v);
      }
    }
  }

  /** Entering the repositories in order, the first one that has a name wins, and all providers count. */
  lemma RepositoriesInOrder(dbs: seq<seq<Pkg>>, table: map<string, Pkg>, offers: map<string, seq<string>>)
    requires Hashed(Concat(dbs), map[], table) && Offered(Concat(dbs), map[], offers)
    ensures FirstRepository(dbs, table) && EveryRepository(dbs, offers)
  {
    hide Named, FirstNamed, Offers, Concat;
    forall n
      ensures n in table <==> exists i :: 0 <= i < |dbs| && Named(dbs[i], n)
      ensures n in table ==> exists i :: 0 <= i < |dbs| && FirstIn(dbs, n, table[n], i)
    {
      ConcatNamed(dbs, n);
      if n in table {
        ConcatFirst(dbs, n, table[n]);
      }
    }
    forall o, v
      ensures v in ValuesOf(offers, o) <==> exists i :: 0 <= i < |dbs| && Offers(dbs[i], o, v)
    {
      ConcatOffers(dbs, o, v);
    }
  }

  /** The installed packages no repository offers, each under its first entry. */
  ghost predicate Foreign(list: seq<Pkg>, sync: map<string, Pkg>, aur: map<string, Pkg>)
  {
    forall n :: (n in aur <==> Named(list, n) && n !in sync) && (n in aur ==> FirstNamed(list, n, aur[n]))
  }

  lemma ForeignOne(list: seq<Pkg>, sync: map<string, Pkg>, aur: map<string, Pkg>, i: nat)
    requires i < |list| && Foreign(list[..i], sync, aur)
    ensures Foreign(list[..i + 1], sync, if list[i].name in sync then aur else Put(aur, list[i].name, list[i]))
  {
    var pre, p := list[..i], list[i];
    assert list[..i + 1] == pre + [p];
    forall n
      ensures Named([p], n) <==> p.name == n
      ensures Named(pre + [p], n) <==> Named(pre, n) || p.name == n
      ensures n in aur ==> FirstNamed(pre + [p], n, aur[n])
    {
      if p.name == n {
        assert [p][0].name == n;
      }
      NamedConcat(pre, [p], n);
      if n in aur {
        FirstNamedLeft(pre, [p], n, aur[n]);
      }
    }
    if p.name !in sync && p.name !in aur {
      assert FirstNamed([p], p.name, p) by {
        assert [p][0] == p;
      }
      FirstNamedRight(pre, [p], p.name, p);
    }
  }

  /** The same level for every name. */
  ghost function Calls(names: seq<string>, lvl: Level): (calls: seq<Call>)
    ensures |calls| == |names| && forall i :: 0 <= i < |calls| ==> calls[i] == Call(names[i], lvl)
  {
    seq(|names|, i requires 0 <= i < |names| => Call(names[i], lvl))
  }

  /** The names were normalised one after the other, from st to st', with results rs. */
  ghost predicate RanThrough(s: Static, st: State, names: seq<string>, lvl: Level, st': State, rs: seq<Option<string>>)
  {
    exists sts :: IsRun(s, sts, Calls(names, lvl), rs) && sts[0] == st && sts[|sts| - 1] == st'
  }

  lemma RanNowhere(s: Static, st: State, lvl: Level)
    ensures RanThrough(s, st, [], lvl, st, [])
  {
    assert IsRun(s, [st], Calls([], lvl), []);
    assert [st][0] == st;
  }

  lemma RanOneMore(s: Static, st: State, names: seq<string>, lvl: Level, st': State, rs: seq<Option<string>>,
                   name: string, st'': State, r: Option<string>)
    requires RanThrough(s, st, names, lvl, st', rs) && Normalized(s, st', name, lvl, st'', r)
    ensures RanThrough(s, st, names + [name], lvl, st'', rs + [r])
  {
    hide Normalized;
    var sts :| IsRun(s, sts, Calls(names, lvl), rs) && sts[0] == st && sts[|sts| - 1] == st';
    var more, calls, results := sts + [st''], Calls(names + [name], lvl), rs + [r];
    forall i | 0 <= i < |calls|
      ensures Normalized(s, more[i], calls[i].name, calls[i].lvl, more[i + 1], results[i])
    {
      if i < |names| {
        assert calls[i] == Calls(names, lvl)[i];
      } else {
        assert more[i] == st' && more[i + 1] == st'';
      }
    }
    assert IsRun(s, more, calls, results);
    assert more[0] == st && more[|more| - 1] == st'';
  }
}
