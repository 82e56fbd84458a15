/** Open addressing with linear probing, on the values of a table: what a probe from a key's home slot
    can and cannot meet. */
module Probing {

  // A slot of the table; Free is the entry whose key pointer is null.
  datatype Slot<+K, +V> = Free | Used(hash: nat, key: K, val: V)

  datatype Option<+T> = None | Some(value: T)

  // The two functions a table is created with.
  datatype KeyOps<!K> = KeyOps(hash: K -> nat, cmp: (K, K) -> int)
  {
    predicate Same(a: K, b: K) { cmp(a, b) == 0 }
  }

  /** What the caller must supply: cmp is zero on an equivalence, and equivalent keys hash alike. */
  ghost predicate Lawful<K(!new)>(ops: KeyOps<K>)
  {
    && (forall a :: ops.Same(a, a))
    && (forall a, b :: ops.Same(a, b) ==> ops.Same(b, a) && ops.hash(a) == ops.hash(b))
    && (forall a, b, c :: ops.Same(a, b) && ops.Same(b, c) ==> ops.Same(a, c))
  }

  /** A comparator that is zero on equal keys only. */
  ghost predicate Exact<K(!new)>(ops: KeyOps<K>)
  {
    forall a, b :: ops.Same(a, b) <==> a == b
  }

  /** The key of m equivalent to k, if any. */
  ghost predicate HasKey<K, V>(ops: KeyOps<K>, m: map<K, V>, k: K)
  {
    exists k' :: k' in m && ops.Same(k', k)
  }

  /** First insert wins. */
  ghost function PutIfAbsent<K, V>(ops: KeyOps<K>, m: map<K, V>, k: K, v: V): map<K, V>
  {
    if HasKey(ops, m, k) then m else m[k := v]
  }

  lemma HasKeyExact<K(!new), V>(ops: KeyOps<K>, m: map<K, V>, k: K)
    requires Exact(ops)
    ensures HasKey(ops, m, k) <==> k in m
  {
    assert ops.Same(k, k);
  }

  lemma PutIfAbsentExact<K(!new), V>(ops: KeyOps<K>, m: map<K, V>, k: K, v: V)
    requires Exact(ops)
    ensures PutIfAbsent(ops, m, k, v) == if k in m then m else m[k := v]
  {
    HasKeyExact(ops, m, k);
  }

  function Home(h: nat, n: nat): nat
    requires n > 0
  {
    h % n
  }

  function NextPos(p: nat, n: nat): nat
  {
    if p + 1 >= n then 0 else p + 1
  }

  /** How many probes separate slot p from slot home. */
  function Dist(home: nat, p: nat, n: nat): int
    requires home < n && p < n
  {
    if p >= home then p - home else p + n - home
  }

  lemma DistNext(home: nat, p: nat, n: nat)
    requires home < n && p < n
    ensures NextPos(p, n) < n
    ensures Dist(home, NextPos(p, n), n) == (if Dist(home, p, n) == n - 1 then 0 else Dist(home, p, n) + 1)
  {
  }

  lemma DistInjective(home: nat, p: nat, q: nat, n: nat)
    requires home < n && p < n && q < n && Dist(home, p, n) == Dist(home, q, n)
    ensures p == q
  {
  }

  /** Every slot probed before p is in use. */
  ghost predicate ChainTo<K, V>(slots: seq<Slot<K, V>>, home: nat, p: nat)
    requires home < |slots| && p < |slots|
  {
    forall j :: 0 <= j < |slots| && Dist(home, j, |slots|) < Dist(home, p, |slots|) ==> slots[j].Used?
  }

  /** The invariant of a table: recorded hashes are right, no key occupies two slots, and every slot from
      a key's home to its entry is in use. */
  ghost predicate WellFormed<K, V>(slots: seq<Slot<K, V>>, ops: KeyOps<K>)
  {
    && |slots| > 0
    && (forall i :: 0 <= i < |slots| && slots[i].Used? ==> slots[i].hash == ops.hash(slots[i].key))
    && (forall i, j :: 0 <= i < |slots| && 0 <= j < |slots| && i != j && slots[i].Used? && slots[j].Used?
          ==> !ops.Same(slots[i].key, slots[j].key))
    && (forall i :: 0 <= i < |slots| && slots[i].Used? ==> ChainTo(slots, Home(slots[i].hash, |slots|), i))
  }

  /** slots hold exactly the bindings of m. */
  ghost predicate Holds<K, V>(slots: seq<Slot<K, V>>, m: map<K, V>)
  {
    && (forall i :: 0 <= i < |slots| && slots[i].Used? ==> slots[i].key in m && m[slots[i].key] == slots[i].val)
    && (forall k :: k in m ==> exists i :: 0 <= i < |slots| && slots[i].Used? && slots[i].key == k)
  }

  /** A probe for k may stop at p: p is free or holds k's equivalent, and the slots before it are in use
      by other keys. */
  ghost predicate ProbeEnd<K, V>(slots: seq<Slot<K, V>>, ops: KeyOps<K>, k: K, p: nat)
    requires |slots| > 0
  {
    && p < |slots|
    && (slots[p].Used? ==> ops.Same(slots[p].key, k))
    && ProbePassed(slots, ops, k, p)
  }

  ghost predicate ProbePassed<K, V>(slots: seq<Slot<K, V>>, ops: KeyOps<K>, k: K, p: nat)
    requires |slots| > 0 && p < |slots|
  {
    var n := |slots|;
    forall j :: 0 <= j < n && Dist(Home(ops.hash(k), n), j, n) < Dist(Home(ops.hash(k), n), p, n)
      ==> slots[j].Used? && !ops.Same(slots[j].key, k)
  }

  /** A probe that stops at a free slot proves the key absent. */
  lemma FreeEndMeansAbsent<K(!new), V>(slots: seq<Slot<K, V>>, m: map<K, V>, ops: KeyOps<K>, k: K, p: nat)
    requires Lawful(ops) && WellFormed(slots, ops) && Holds(slots, m)
    requires ProbeEnd(slots, ops, k, p) && slots[p].Free?
    ensures !HasKey(ops, m, k)
  {
    if HasKey(ops, m, k) {
      var k' :| k' in m && ops.Same(k', k);
      var i :| 0 <= i < |slots| && slots[i].Used? && slots[i].key == k';
      var n := |slots|;
      var home := Home(ops.hash(k), n);
      assert slots[i].hash == ops.hash(k);
      assert ChainTo(slots, home, i);
      if Dist(home, i, n) == Dist(home, p, n) {
        DistInjective(home, i, p, n);
      }
      assert false;
    }
  }

  /** A probe that stops at a used slot found the one binding of the key. */
  lemma UsedEndMeansPresent<K(!new), V>(slots: seq<Slot<K, V>>, m: map<K, V>, ops: KeyOps<K>, k: K, p: nat)
    requires Lawful(ops) && WellFormed(slots, ops) && Holds(slots, m)
    requires ProbeEnd(slots, ops, k, p) && slots[p].Used?
    ensures slots[p].key in m && ops.Same(slots[p].key, k) && m[slots[p].key] == slots[p].val
    ensures HasKey(ops, m, k)
    ensures forall k' :: k' in m && ops.Same(k', k) ==> k' == slots[p].key
  {
    forall k' | k' in m && ops.Same(k', k)
      ensures k' == slots[p].key
    {
      var i :| 0 <= i < |slots| && slots[i].Used? && slots[i].key == k';
      assert ops.Same(k, slots[p].key);
      assert ops.Same(k', slots[p].key);
    }
  }

  /** Filling the free slot where a probe stopped keeps the invariant and adds one binding. */
  lemma FillKeeps<K(!new), V>(slots: seq<Slot<K, V>>, m: map<K, V>, ops: KeyOps<K>, k: K, v: V, p: nat)
    requires Lawful(ops) && WellFormed(slots, ops) && Holds(slots, m)
    requires ProbeEnd(slots, ops, k, p) && slots[p].Free?
    ensures WellFormed(slots[p := Used(ops.hash(k), k, v)], ops)
    ensures k !in m && Holds(slots[p := Used(ops.hash(k), k, v)], m[k := v])
    ensures PutIfAbsent(ops, m, k, v) == m[k := v]
  {
    FreeEndMeansAbsent(slots, m, ops, k, p);
    assert ops.Same(k, k);
    FillHolds(slots, m, ops, k, v, p);
    FillWellFormed(slots, m, ops, k, v, p);
  }

  lemma FillHolds<K(!new), V>(slots: seq<Slot<K, V>>, m: map<K, V>, ops: KeyOps<K>, k: K, v: V, p: nat)
    requires Holds(slots, m) && k !in m && p < |slots| && slots[p].Free?
    ensures Holds(slots[p := Used(ops.hash(k), k, v)], m[k := v])
  {
    var t := slots[p := Used(ops.hash(k), k, v)];
    var m' := m[k := v];
    forall k' | k' in m'
      ensures exists i :: 0 <= i < |t| && t[i].Used? && t[i].key == k'
    {
      if k' == k {
        assert t[p].key == k;
      } else {
        var i :| 0 <= i < |slots| && slots[i].Used? && slots[i].key == k';
        assert t[i].key == k';
      }
    }
  }

  lemma FillWellFormed<K(!new), V>(slots: seq<Slot<K, V>>, m: map<K, V>, ops: KeyOps<K>, k: K, v: V, p: nat)
    requires Lawful(ops) && WellFormed(slots, ops) && Holds(slots, m)
    requires ProbeEnd(slots, ops, k, p) && slots[p].Free? && !HasKey(ops, m, k)
    ensures WellFormed(slots[p := Used(ops.hash(k), k, v)], ops)
  {
    var t := slots[p := Used(ops.hash(k), k, v)];
    forall i, j | 0 <= i < |t| && 0 <= j < |t| && i != j && t[i].Used? && t[j].Used?
      ensures !ops.Same(t[i].key, t[j].key)
    {
      if i == p {
        assert slots[j].key in m;
      } else if j == p {
        assert slots[i].key in m;
      }
    }
    forall i | 0 <= i < |t| && t[i].Used?
      ensures ChainTo(t, Home(t[i].hash, |t|), i)
    {
      if i != p {
        assert ChainTo(slots, Home(slots[i].hash, |slots|), i);
      }
    }
  }

  /** Fewer bindings than slots leave a free slot, so every probe loop ends. */
  lemma FreeSlotExists<K(!new), V>(slots: seq<Slot<K, V>>, m: map<K, V>, ops: KeyOps<K>)
    requires Lawful(ops) && WellFormed(slots, ops) && Holds(slots, m)
    requires |m| < |slots|
    ensures exists i :: 0 <= i < |slots| && slots[i].Free?
  {
    if forall i :: 0 <= i < |slots| ==> slots[i].Used? {
      var keys := PrefixKeys(slots, |slots|, ops);
      assert keys <= m.Keys;
      SubsetSize(keys, m.Keys);
    }
  }

  lemma SubsetSize<T>(a: set<T>, b: set<T>)
    requires a <= b
    ensures |a| <= |b|
  {
    assert b == a + (b - a);
  }

  ghost function PrefixKeys<K(!new), V>(slots: seq<Slot<K, V>>, i: nat, ops: KeyOps<K>): (r: set<K>)
    requires Lawful(ops) && i <= |slots|
    requires forall j :: 0 <= j < |slots| ==> slots[j].Used?
    requires forall j, l :: 0 <= j < |slots| && 0 <= l < |slots| && j != l ==> !ops.Same(slots[j].key, slots[l].key)
    ensures |r| == i
    ensures forall k :: k in r ==> exists j :: 0 <= j < i && slots[j].key == k
  {
    if i == 0 then {}
    else
      var r := PrefixKeys(slots, i - 1, ops);
      assert ops.Same(slots[i - 1].key, slots[i - 1].key);
      r + {slots[i - 1].key}
  }

  /** Passing a slot used by another key: the probe has not come round, because some slot is free. */
  lemma ProbeStep<K(!new), V>(slots: seq<Slot<K, V>>, ops: KeyOps<K>, k: K, p: nat, f: nat)
    requires |slots| > 0 && p < |slots| && ProbePassed(slots, ops, k, p)
    requires slots[p].Used? && !ops.Same(slots[p].key, k)
    requires f < |slots| && slots[f].Free?
    ensures var n := |slots|; var home := Home(ops.hash(k), n); var q := NextPos(p, n);
      && q < n && Dist(home, q, n) == Dist(home, p, n) + 1 && ProbePassed(slots, ops, k, q)
  {
    var n := |slots|;
    var home := Home(ops.hash(k), n);
    DistNext(home, p, n);
    if Dist(home, f, n) == Dist(home, p, n) {
      DistInjective(home, f, p, n);
    }
    assert Dist(home, p, n) < Dist(home, f, n) < n;
    var q := NextPos(p, n);
    forall j | 0 <= j < n && Dist(home, j, n) < Dist(home, q, n)
      ensures slots[j].Used? && !ops.Same(slots[j].key, k)
    {
      if Dist(home, j, n) == Dist(home, p, n) {
        DistInjective(home, j, p, n);
      }
    }
  }

  /** The bindings found in the first i slots: what a rehash has moved after i steps. */
  ghost predicate Moved<K, V>(slots: seq<Slot<K, V>>, all: map<K, V>, i: nat, m: map<K, V>)
    requires i <= |slots|
  {
    && (forall k :: k in m ==> k in all && m[k] == all[k])
    && (forall k :: k in m ==> exists j :: 0 <= j < i && slots[j].Used? && slots[j].key == k)
    && (forall j :: 0 <= j < i && slots[j].Used? ==> slots[j].key in m)
  }

  lemma MovedAll<K, V>(slots: seq<Slot<K, V>>, all: map<K, V>, m: map<K, V>)
    requires Holds(slots, all) && Moved(slots, all, |slots|, m)
    ensures m == all
  {
    forall k | k in all
      ensures k in m
    {
      var i :| 0 <= i < |slots| && slots[i].Used? && slots[i].key == k;
    }
  }

  lemma MovedSize<K, V>(slots: seq<Slot<K, V>>, all: map<K, V>, i: nat, m: map<K, V>)
    requires i <= |slots| && Moved(slots, all, i, m)
    ensures |m| <= |all|
  {
    assert m.Keys <= all.Keys;
    SubsetSize(m.Keys, all.Keys);
  }

  lemma MovedFree<K, V>(slots: seq<Slot<K, V>>, all: map<K, V>, i: nat, m: map<K, V>)
    requires i < |slots| && slots[i].Free? && Moved(slots, all, i, m)
    ensures Moved(slots, all, i + 1, m)
  {
  }

  /** Rehashing never meets a key twice, so each old entry is a new binding of the new table. */
  lemma MovedOne<K(!new), V>(slots: seq<Slot<K, V>>, all: map<K, V>, ops: KeyOps<K>, i: nat, m: map<K, V>)
    requires WellFormed(slots, ops) && Holds(slots, all)
    requires i < |slots| && slots[i].Used? && Moved(slots, all, i, m)
    ensures !HasKey(ops, m, slots[i].key)
    ensures Moved(slots, all, i + 1, PutIfAbsent(ops, m, slots[i].key, slots[i].val))
  {
    var m' := m[slots[i].key := slots[i].val];
    forall k | k in m'
      ensures exists j :: 0 <= j < i + 1 && slots[j].Used? && slots[j].key == k
    {
      if k == slots[i].key {
        assert slots[i].key == k;
      } else {
        var j :| 0 <= j < i && slots[j].Used? && slots[j].key == k;
      }
    }
  }

  /** The keys of the first i slots, in slot order. */
  ghost function KeysUpTo<K, V>(slots: seq<Slot<K, V>>, i: nat): seq<K>
    requires i <= |slots|
  {
    if i == 0 then []
    else if slots[i - 1].Used? then KeysUpTo(slots, i - 1) + [slots[i - 1].key]
    else KeysUpTo(slots, i - 1)
  }

  lemma {:induction false} KeysUpToMembers<K, V>(slots: seq<Slot<K, V>>, i: nat, k: K)
    requires i <= |slots|
    ensures k in KeysUpTo(slots, i) <==> exists j :: 0 <= j < i && slots[j].Used? && slots[j].key == k
  {
    if i == 0 {
    } else {
      KeysUpToMembers(slots, i - 1, k);
    }
  }

  lemma {:induction false} KeysUpToDistinct<K, V>(slots: seq<Slot<K, V>>, ops: KeyOps<K>, i: nat)
    requires WellFormed(slots, ops) && i <= |slots|
    ensures forall a, b :: 0 <= a < b < |KeysUpTo(slots, i)| ==> !ops.Same(KeysUpTo(slots, i)[a], KeysUpTo(slots, i)[b])
  {
    if i == 0 {
    } else {
      KeysUpToDistinct(slots, ops, i - 1);
      if slots[i - 1].Used? {
        var keys := KeysUpTo(slots, i - 1);
        forall a | 0 <= a < |keys|
          ensures !ops.Same(keys[a], slots[i - 1].key)
        {
          KeysUpToMembers(slots, i - 1, keys[a]);
        }
      }
    }
  }

  /** Listing the slots of a table lists its keys, each once. */
  lemma KeysListed<K, V>(slots: seq<Slot<K, V>>, ops: KeyOps<K>, m: map<K, V>)
    requires WellFormed(slots, ops) && Holds(slots, m)
    ensures forall k :: k in KeysUpTo(slots, |slots|) <==> k in m
    ensures var keys := KeysUpTo(slots, |slots|);
      forall a, b :: 0 <= a < b < |keys| ==> !ops.Same(keys[a], keys[b])
  {
    KeysUpToDistinct(slots, ops, |slots|);
    forall k: K
      ensures k in KeysUpTo(slots, |slots|) <==> k in m
    {
      KeysUpToMembers(slots, |slots|, k);
    }
  }

  /** The bindings left by a sequence of insertions into an empty table. */
  ghost function InsertAll<K, V>(ops: KeyOps<K>, s: seq<(K, V)>): map<K, V>
  {
    if s == [] then map[]
    else PutIfAbsent(ops, InsertAll(ops, s[..|s| - 1]), s[|s| - 1].0, s[|s| - 1].1)
  }

  /** No more bindings than insertions, so that a table is never too full for fewer than its capacity. */
  lemma {:induction false} InsertAllSize<K, V>(ops: KeyOps<K>, s: seq<(K, V)>)
    ensures |InsertAll(ops, s)| <= |s|
  {
    if s == [] {
    } else {
      var n := |s| - 1;
      InsertAllSize(ops, s[..n]);
      var m := InsertAll(ops, s[..n]);
      assert m[s[n].0 := s[n].1].Keys == m.Keys + {s[n].0};
    }
  }

  /** i is the first insertion of a key equivalent to k. */
  ghost predicate FirstInsert<K, V>(ops: KeyOps<K>, s: seq<(K, V)>, k: K, i: nat)
  {
    && i < |s| && ops.Same(s[i].0, k)
    && forall j :: 0 <= j < i ==> !ops.Same(s[j].0, k)
  }

  lemma {:induction false} NeverInserted<K(!new), V>(ops: KeyOps<K>, s: seq<(K, V)>, k: K)
    requires Lawful(ops)
    ensures HasKey(ops, InsertAll(ops, s), k) <==> exists j :: 0 <= j < |s| && ops.Same(s[j].0, k)
  {
    if s == [] {
    } else {
      var n := |s| - 1;
      var m, m' := InsertAll(ops, s[..n]), InsertAll(ops, s);
      NeverInserted(ops, s[..n], k);
      NeverInserted(ops, s[..n], s[n].0);
      forall j | 0 <= j < n
        ensures s[..n][j] == s[j]
      {
      }
      if ops.Same(s[n].0, k) {
        assert HasKey(ops, m', k) by {
          if HasKey(ops, m, s[n].0) {
            var k' :| k' in m && ops.Same(k', s[n].0);
            assert ops.Same(k', k);
          } else {
            assert s[n].0 in m';
          }
        }
      } else if HasKey(ops, m, k) {
        var k' :| k' in m && ops.Same(k', k);
        assert k' in m';
      }
    }
  }

  lemma SameTransitive<K(!new)>(ops: KeyOps<K>, a: K, b: K, c: K)
    requires Lawful(ops)
    ensures ops.Same(a, b) && ops.Same(b, c) ==> ops.Same(a, c)
  {
  }

  /** The table binds k to the value of the first insertion of a key equivalent to k, and to no other. */
  lemma {:induction false} FirstInsertWins<K(!new), V>(ops: KeyOps<K>, s: seq<(K, V)>, k: K, i: nat)
    requires Lawful(ops) && FirstInsert(ops, s, k, i)
    ensures s[i].0 in InsertAll(ops, s) && InsertAll(ops, s)[s[i].0] == s[i].1
    ensures forall k' :: k' in InsertAll(ops, s) && ops.Same(k', k) ==> k' == s[i].0
  {
    var n := |s| - 1;
    var m := InsertAll(ops, s[..n]);
    if i < n {
      FirstInsertWins(ops, s[..n], k, i);
      if ops.Same(s[n].0, k) {
        assert ops.Same(k, s[n].0);
        assert ops.Same(s[i].0, s[n].0);
      } else {
        assert s[i].0 != s[n].0;
      }
    } else {
      NeverInserted(ops, s[..n], k);
      NeverInserted(ops, s[..n], s[n].0);
      forall j | 0 <= j < n
        ensures !ops.Same(s[..n][j].0, k) && !ops.Same(s[..n][j].0, s[n].0)
      {
        SameTransitive(ops, s[j].0, s[n].0, k);
      }
    }
  }
}
