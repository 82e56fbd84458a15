/** Fetching build scripts together with those of their dependencies, round by round. */
module Fetch {
  import opened PackageDb

  // The build scripts on disk, or in the AUR: the dependencies each one lists.
  type Scripts = map<string, seq<string>>

  /** A dependency that needs no script: installed, in the repositories, or provided. */
  predicate Satisfied(s: Static, d: string)
  {
    || d in s.local
    || d in s.sync
    || FindProvider(s.localProvides, d, s.local).Some?
    || FindProvider(s.syncProvides, d, s.sync).Some?
  }

  /** Satisfied are exactly the installed names, the repository packages, and what is provided by an
      installed package's account or by that of a repository package. */
  lemma SatisfiedByTables(s: Static, d: string)
    ensures Satisfied(s, d) <==>
      || d in s.local || d in s.sync
      || Provided(s.localProvides, d, s.local) || Provided(s.syncProvides, d, s.sync)
  {
    hide FindProvider, Provided;
    FindProviderFinds(s.localProvides, d, s.local);
    FindProviderFinds(s.syncProvides, d, s.sync);
  }

  /** d is listed by the script of one of the packages, is not satisfied, and has no script yet. */
  ghost predicate Wanted(s: Static, disk: Scripts, packages: seq<string>, d: string)
  {
    && !Satisfied(s, d) && d !in disk
    && exists i :: 0 <= i < |packages| && packages[i] in disk && d in disk[packages[i]]
  }

  ghost predicate NoRepeats(s: seq<string>)
  {
    forall i, j :: 0 <= i < j < |s| ==> s[i] != s[j]
  }

  // What a run has done: the names queued in some round, the scripts read, the names whose download
  // failed.
  datatype History = History(queued: set<string>, read: Scripts, failed: set<string>)

  /** The disk has the script of n that the other collection has. */
  ghost predicate Kept(other: Scripts, disk: Scripts, n: string)
    requires n in disk
  {
    n in other && disk[n] == other[n]
  }

  /** The disk keeps what it had and gains only AUR scripts that were asked for; what was read is there, and
      what was queued was not there at the start. */
  ghost predicate Gained(aur: Scripts, was: Scripts, targets: seq<string>, disk: Scripts, h: History)
  {
    && (forall n :: n in was ==> n in disk)
    && (forall n :: n in disk ==> Kept(was, disk, n) || ((n in targets || n in h.queued) && Kept(aur, disk, n)))
    && (forall n :: n in h.read ==> n in disk && h.read[n] == disk[n] && (n in targets || n in h.queued))
    && (forall n :: n in h.queued ==> n !in was) && (forall n :: n in h.failed ==> n in targets || n in h.queued)
  }

  /** Only unsatisfied dependencies of scripts read are queued, and each dependency of a script read is
      satisfied, on disk, or was queued. */
  ghost predicate Needed(s: Static, disk: Scripts, h: History)
  {
    && (forall q :: q in h.queued ==> !Satisfied(s, q) && exists p :: p in h.read && q in h.read[p])
    && (forall p, d :: p in h.read && d in h.read[p] ==> Satisfied(s, d) || d in disk || d in h.queued)
  }

  /** What every round keeps. targets are the names first asked for; was is the disk at the start. */
  ghost predicate Sound(s: Static, aur: Scripts, was: Scripts, targets: seq<string>, disk: Scripts, h: History)
  {
    Gained(aur, was, targets, disk, h) && Needed(s, disk, h)
  }

  /** Except the names of the coming round, everything asked for is on disk or failed to be downloaded, and
      nothing of it that is on disk is left unread. */
  ghost predicate Settled(targets: seq<string>, resolve: seq<string>, disk: Scripts, h: History)
  {
    && (forall q :: (q in targets || q in h.queued) && q in disk ==> q in h.read || q in resolve)
    && (forall q :: q in targets || q in h.queued ==> q in disk || q in h.failed || q in resolve)
  }

  class Fetcher {
    const s: Static
    const aur: Scripts
    var disk: Scripts
    ghost var h: History

    constructor (s: Static, aur: Scripts, disk: Scripts)
      ensures this.s == s && this.aur == aur && this.disk == disk
    {
      this.s, this.aur, this.disk := s, aur, disk;
      h := History({}, map[], {});
    }

    /** One run of the pool: each job puts its script on disk, or fails. */
    method ThreadpoolDlExtract(jobs: seq<string>) returns (ghost got: set<string>, ghost failed: set<string>)
      modifies this`disk
      ensures forall n :: n in got ==> n in jobs && n in aur
      ensures forall n :: n in jobs ==> n in got || n in failed
      ensures forall n :: n in failed ==> n in jobs
      ensures disk.Keys == old(disk).Keys + got
      ensures forall n :: n in disk ==> disk[n] == if n in got then aur[n] else old(disk)[n]
    {
      got, failed := {}, {};
      for i := 0 to |jobs|
        invariant forall n :: n in got ==> n in jobs && n in aur
        invariant forall n :: n in jobs[..i] ==> n in got || n in failed
        invariant forall n :: n in failed ==> n in jobs
        invariant disk.Keys == old(disk).Keys + got
        invariant forall n :: n in disk ==> disk[n] == if n in got then aur[n] else old(disk)[n]
      {
        var done: bool := *;
        if done && jobs[i] in aur {
          disk := disk[jobs[i] := aur[jobs[i]]];
          got := got + {jobs[i]};
        } else {
          failed := failed + {jobs[i]};
        }
        assert jobs[..i + 1] == jobs[..i] + [jobs[i]];
      }
    }

    /** One round: the dependencies of the packages that still have to be fetched, each once. */
    method ResolveDependencies(packages: seq<string>) returns (newdeps: seq<string>)
      ensures NoRepeats(newdeps)
      ensures forall d :: d in newdeps <==> Wanted(s, disk, packages, d)
      ensures forall d :: d in newdeps ==>
        && d !in s.local && d !in s.sync && d !in disk
        && !Provided(s.localProvides, d, s.local) && !Provided(s.syncProvides, d, s.sync)
        && exists p :: p in packages && p in disk && d in disk[p]
      ensures forall p, d :: p in packages && p in disk && d in disk[p] ==>
        || d in s.local || d in s.sync || d in disk
        || Provided(s.localProvides, d, s.local) || Provided(s.syncProvides, d, s.sync)
        || d in newdeps
    {
      hide Satisfied, Provided;
      newdeps := [];
      for i := 0 to |packages|
        invariant NoRepeats(newdeps)
        invariant forall d :: d in newdeps <==> Wanted(s, disk, packages[..i], d)
      {
        WantedOne(s, disk, packages, i);
        if packages[i] in disk {
          newdeps := AddDeps(disk[packages[i]], newdeps);
        }
      }
      assert packages[..|packages|] == packages;
      WantedByTables(s, disk, packages);
    }

    method AddDeps(deps: seq<string>, newdeps: seq<string>) returns (r: seq<string>)
      requires NoRepeats(newdeps)
      ensures NoRepeats(r)
      ensures forall d :: d in r <==> d in newdeps || (d in deps && !Satisfied(s, d) && d !in disk)
    {
      r := newdeps;
      for k := 0 to |deps|
        invariant NoRepeats(r)
        invariant forall d :: d in r <==> d in newdeps || (d in deps[..k] && !Satisfied(s, d) && d !in disk)
      {
        assert deps[..k + 1] == deps[..k] + [deps[k]];
        var d := deps[k];
        if d in r {
          continue;
        }
        if d in s.local {
          continue;
        }
        if d in s.sync {
          continue;
        }
        if FindProvider(s.localProvides, d, s.local).Some? {
          continue;
        }
        if FindProvider(s.syncProvides, d, s.sync).Some? {
          continue;
        }
        if d in disk {
          continue;
        }
        r := r + [d];
      }
      assert deps[..|deps|] == deps;
    }

    /** Fetches the targets, then whatever their scripts still need, until a round finds nothing new. It
        ends whatever the outcome of the downloads. */
    method GetResolve(targets: seq<string>)
      modifies this
      ensures Sound(s, aur, old(disk), targets, disk, h)
      ensures Settled(targets, [], disk, h)
      ensures forall q :: q in h.queued ==>
        && q !in s.local && q !in s.sync
        && !Provided(s.localProvides, q, s.local) && !Provided(s.syncProvides, q, s.sync)
        && q !in old(disk) && exists p :: p in h.read && q in h.read[p]
      ensures forall p, d :: p in h.read && d in h.read[p] ==>
        || d in s.local || d in s.sync || d in disk
        || Provided(s.localProvides, d, s.local) || Provided(s.syncProvides, d, s.sync)
        || d in h.queued
    {
      hide Provided;
      hide Satisfied, Gained, Needed, Settled, Wanted, NoRepeats;
      h := History({}, map[], {});
      var resolve := targets;
      ghost var first := true;
      Starts(s, aur, disk, targets);
      while resolve != []
        invariant Sound(s, aur, old(disk), targets, disk, h) && Settled(targets, resolve, disk, h)
        invariant !first ==> forall d :: d in resolve ==> d !in disk && d in h.queued
        invariant first ==> resolve == targets && h == History({}, map[], {})
        decreases first, aur.Keys - disk.Keys, |resolve|
      {
        ghost var disk0 := disk;
        ghost var got, failed := ThreadpoolDlExtract(resolve);
        var newResolve := ResolveDependencies(resolve);
        ReadOnDisk(s, aur, old(disk), targets, disk0, h);
        RoundGained(s, aur, old(disk), targets, resolve, newResolve, disk0, disk, got, failed, h);
        RoundNeeded(s, aur, resolve, newResolve, disk0, disk, got, failed, h);
        RoundSettled(s, aur, targets, resolve, newResolve, disk0, disk, got, failed, h);
        RoundShrinks(s, disk, resolve, newResolve);
        h := Turned(disk, resolve, newResolve, failed, h);
        resolve := newResolve;
        first := false;
      }
      NeededByTables(s, aur, old(disk), targets, disk, h);
    }
  }

  lemma NeededByTables(s: Static, aur: Scripts, was: Scripts, targets: seq<string>, disk: Scripts, h: History)
    requires Sound(s, aur, was, targets, disk, h)
    ensures forall q :: q in h.queued ==>
      && q !in s.local && q !in s.sync
      && !Provided(s.localProvides, q, s.local) && !Provided(s.syncProvides, q, s.sync)
      && q !in was && exists p :: p in h.read && q in h.read[p]
    ensures forall p, d :: p in h.read && d in h.read[p] ==>
      || d in s.local || d in s.sync || d in disk
      || Provided(s.localProvides, d, s.local) || Provided(s.syncProvides, d, s.sync)
      || d in h.queued
  {
    hide Satisfied, Provided;
    forall q
      ensures Satisfied(s, q) <==>
        || q in s.local || q in s.sync
        || Provided(s.localProvides, q, s.local) || Provided(s.syncProvides, q, s.sync)
    {
      SatisfiedByTables(s, q);
    }
  }

  lemma WantedByTables(s: Static, disk: Scripts, packages: seq<string>)
    ensures forall d :: Wanted(s, disk, packages, d) ==>
      && d !in s.local && d !in s.sync && d !in disk
      && !Provided(s.localProvides, d, s.local) && !Provided(s.syncProvides, d, s.sync)
      && exists p :: p in packages && p in disk && d in disk[p]
    ensures forall p, d :: p in packages && p in disk && d in disk[p] ==>
      || d in s.local || d in s.sync || d in disk
      || Provided(s.localProvides, d, s.local) || Provided(s.syncProvides, d, s.sync)
      || Wanted(s, disk, packages, d)
  {
    hide Satisfied, Provided, Wanted;
    forall d | Wanted(s, disk, packages, d)
      ensures d !in s.local && d !in s.sync && d !in disk
      ensures !Provided(s.localProvides, d, s.local) && !Provided(s.syncProvides, d, s.sync)
      ensures exists p :: p in packages && p in disk && d in disk[p]
    {
      SatisfiedByTables(s, d);
      var p := WantedBy(s, disk, packages, d);
    }
    forall p, d | p in packages && p in disk && d in disk[p] && !Wanted(s, disk, packages, d)
      ensures d in s.local || d in s.sync || d in disk
           || Provided(s.localProvides, d, s.local) || Provided(s.syncProvides, d, s.sync)
    {
      SatisfiedByTables(s, d);
      WantsOf(s, disk, packages, p, d);
    }
  }

  lemma WantedOne(s: Static, disk: Scripts, packages: seq<string>, i: nat)
    requires i < |packages|
    ensures forall d :: Wanted(s, disk, packages[..i + 1], d) <==>
      Wanted(s, disk, packages[..i], d)
      || (packages[i] in disk && d in disk[packages[i]] && !Satisfied(s, d) && d !in disk)
  {
    hide Satisfied;
    var pre, post := packages[..i], packages[..i + 1];
    forall d
      ensures Wanted(s, disk, post, d) <==>
        Wanted(s, disk, pre, d) || (packages[i] in disk && d in disk[packages[i]] && !Satisfied(s, d) && d !in disk)
    {
      if Wanted(s, disk, pre, d) {
        var j :| 0 <= j < |pre| && pre[j] in disk && d in disk[pre[j]];
        assert post[j] == pre[j];
      }
      if packages[i] in disk && d in disk[packages[i]] {
        assert post[i] == packages[i];
      }
      if Wanted(s, disk, post, d) {
        var j :| 0 <= j < |post| && post[j] in disk && d in disk[post[j]];
        assert j < i ==> pre[j] == post[j];
      }
    }
  }

  /** The history after a round. */
  ghost function Turned(disk: Scripts, resolve: seq<string>, newResolve: seq<string>, failed: set<string>, h: History)
    : History
  {
    History(h.queued + (set d | d in newResolve),
            h.read + (map p | p in resolve && p in disk :: disk[p]),
            h.failed + failed)
  }

  lemma Starts(s: Static, aur: Scripts, disk: Scripts, targets: seq<string>)
    ensures Sound(s, aur, disk, targets, disk, History({}, map[], {}))
    ensures Settled(targets, targets, disk, History({}, map[], {}))
  {
  }

  lemma RoundShrinks(s: Static, disk: Scripts, resolve: seq<string>, newResolve: seq<string>)
    requires forall d :: d in newResolve <==> Wanted(s, disk, resolve, d)
    ensures (forall d :: d in resolve ==> d !in disk) ==> newResolve == []
    ensures forall d :: d in newResolve ==> d !in disk
  {
    if newResolve != [] {
      assert newResolve[0] in newResolve;
      var i :| 0 <= i < |resolve| && resolve[i] in disk && newResolve[0] in disk[resolve[i]];
      assert resolve[i] in resolve;
    }
  }

  lemma ReadOnDisk(s: Static, aur: Scripts, was: Scripts, targets: seq<string>, disk: Scripts, h: History)
    requires Sound(s, aur, was, targets, disk, h)
    ensures forall n :: n in h.read ==> n in disk
  {
  }

  /** What the pool may have done to the disk, and what the round then asks for. */
  ghost predicate Round(s: Static, aur: Scripts, resolve: seq<string>, newResolve: seq<string>, disk0: Scripts,
                        disk: Scripts, got: set<string>, failed: set<string>)
  {
    && (forall d :: d in newResolve <==> Wanted(s, disk, resolve, d))
    && (forall n :: n in got ==> n in resolve && n in aur)
    && (forall n :: n in resolve ==> n in got || n in failed) && (forall n :: n in failed ==> n in resolve)
    && disk.Keys == disk0.Keys + got
    && (forall n :: n in disk ==> disk[n] == if n in got then aur[n] else disk0[n])
  }

  lemma RoundGained(s: Static, aur: Scripts, was: Scripts, targets: seq<string>, resolve: seq<string>,
                    newResolve: seq<string>, disk0: Scripts, disk: Scripts, got: set<string>, failed: set<string>,
                    h: History)
    requires Gained(aur, was, targets, disk0, h) && Round(s, aur, resolve, newResolve, disk0, disk, got, failed)
    requires forall q :: q in resolve ==> (q in targets || q in h.queued) && q !in h.read
    ensures Gained(aur, was, targets, disk, Turned(disk, resolve, newResolve, failed, h))
  {
    hide Wanted, Kept;
    RoundShrinks(s, disk, resolve, newResolve);
    var t := Turned(disk, resolve, newResolve, failed, h);
    forall n | n in disk
      ensures Kept(was, disk, n) || ((n in targets || n in t.queued) && Kept(aur, disk, n))
    {
      KeptOn(s, aur, was, targets, resolve, newResolve, disk0, disk, got, failed, h, n);
    }
  }

  lemma KeptOn(s: Static, aur: Scripts, was: Scripts, targets: seq<string>, resolve: seq<string>,
               newResolve: seq<string>, disk0: Scripts, disk: Scripts, got: set<string>, failed: set<string>,
               h: History, n: string)
    requires Gained(aur, was, targets, disk0, h) && Round(s, aur, resolve, newResolve, disk0, disk, got, failed)
    requires (forall q :: q in resolve ==> q in targets || q in h.queued) && n in disk
    ensures Kept(was, disk, n) || ((n in targets || n in h.queued) && Kept(aur, disk, n))
  {
    hide Wanted;
    assert n in disk0 ==> Kept(was, disk0, n) || ((n in targets || n in h.queued) && Kept(aur, disk0, n));
  }

  lemma RoundNeeded(s: Static, aur: Scripts, resolve: seq<string>, newResolve: seq<string>,
                    disk0: Scripts, disk: Scripts, got: set<string>, failed: set<string>, h: History)
    requires Needed(s, disk0, h) && Round(s, aur, resolve, newResolve, disk0, disk, got, failed)
    requires forall q :: q in resolve ==> q !in h.read
    ensures Needed(s, disk, Turned(disk, resolve, newResolve, failed, h))
  {
    hide Satisfied, Wanted;
    var t := Turned(disk, resolve, newResolve, failed, h);
    forall q | q in t.queued
      ensures !Satisfied(s, q) && exists p :: p in t.read && q in t.read[p]
    {
      if q in h.queued {
        var p :| p in h.read && q in h.read[p];
        assert p in t.read;
      } else {
        var p := WantedBy(s, disk, resolve, q);
        assert p in t.read;
      }
    }
    forall p, d | p in t.read && d in t.read[p]
      ensures Satisfied(s, d) || d in disk || d in t.queued
    {
      if p in resolve && p in disk {
        WantsOf(s, disk, resolve, p, d);
      }
    }
  }

  lemma WantsOf(s: Static, disk: Scripts, packages: seq<string>, p: string, d: string)
    requires p in packages && p in disk && d in disk[p]
    ensures Satisfied(s, d) || d in disk || Wanted(s, disk, packages, d)
  {
    hide Satisfied;
    var i :| 0 <= i < |packages| && packages[i] == p;
  }

  lemma WantedBy(s: Static, disk: Scripts, packages: seq<string>, d: string) returns (p: string)
    requires Wanted(s, disk, packages, d)
    ensures p in packages && p in disk && d in disk[p] && !Satisfied(s, d) && d !in disk
  {
    var i :| 0 <= i < |packages| && packages[i] in disk && d in disk[packages[i]];
    p := packages[i];
  }

  lemma RoundSettled(s: Static, aur: Scripts, targets: seq<string>, resolve: seq<string>, newResolve: seq<string>,
                     disk0: Scripts, disk: Scripts, got: set<string>, failed: set<string>, h: History)
    requires Settled(targets, resolve, disk0, h) && Round(s, aur, resolve, newResolve, disk0, disk, got, failed)
    ensures Settled(targets, newResolve, disk, Turned(disk, resolve, newResolve, failed, h))
  {
    hide Wanted;
  }
}
