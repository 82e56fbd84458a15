/** The open-addressing tables. The four kinds the program uses differ in what an entry stores beside
    its key and in where a rehash takes the hash from; the probing is the same. */
module OpenTable {
  import opened AllocSize
  import opened Probing

  datatype Kind = HashTable | Vindex | HashBst | HashMap

  class Table<K(!new), V> {
    const kind: Kind
    const ops: KeyOps<K>
    var table: array<Slot<K, V>>
    var nr: nat

    // The bindings held by the table.
    ghost var m: map<K, V>

    ghost predicate Coherent()
      reads this, table
    {
      && Lawful(ops)
      && nr == |m| < table.Length < MODULUS
      && WellFormed(table[..], ops)
      && Holds(table[..], m)
    }

    /** Load factor one half, at least the first prime of slots. */
    ghost predicate Valid()
      reads this, table
    {
      Coherent() && 109 <= table.Length && nr <= table.Length / 2
    }

    constructor (kind: Kind, ops: KeyOps<K>)
      requires Lawful(ops)
      ensures Valid() && fresh(table)
      ensures this.kind == kind && this.ops == ops && m == map[]
    {
      this.kind := kind;
      this.ops := ops;
      table := new Slot<K, V>[109](_ => Free);
      nr := 0;
      m := map[];
    }

    /** The probe loop: from the key's home slot to its entry or to the first free slot. */
    method Lookup(hash: nat, key: K) returns (pos: nat)
      requires Coherent() && hash == ops.hash(key)
      ensures pos < table.Length && ProbeEnd(table[..], ops, key, pos)
      ensures table[pos].Free? <==> !HasKey(ops, m, key)
      ensures table[pos].Used? ==> Binds(table[pos].key, key, table[pos].val)
    {
      pos := Walk(hash, key);
      if table[pos].Free? {
        FreeEndMeansAbsent(table[..], m, ops, key, pos);
      } else {
        UsedEndMeansPresent(table[..], m, ops, key, pos);
      }
    }

    /** The entry for key is stored under the equivalent key k' with value v. */
    ghost predicate Binds(k': K, key: K, v: V)
      reads this
    {
      k' in m && ops.Same(k', key) && m[k'] == v
    }

    method Walk(hash: nat, key: K) returns (pos: nat)
      requires Coherent() && hash == ops.hash(key)
      ensures pos < table.Length && ProbeEnd(table[..], ops, key, pos)
    {
      FreeSlotExists(table[..], m, ops);
      ghost var n := table.Length;
      ghost var home := Home(hash, n);
      ghost var f :| 0 <= f < n && table[f].Free?;
      pos := hash % table.Length;
      while table[pos].Used?
        invariant pos < n
        invariant ProbePassed(table[..], ops, key, pos)
        decreases n - Dist(home, pos, n)
      {
        if table[pos].hash == hash && ops.cmp(table[pos].key, key) == 0 {
          break;
        }
        ProbeStep(table[..], ops, key, pos, f);
        pos := pos + 1;
        if pos >= table.Length {
          pos := 0;
        }
      }
    }

    /** Writes a new entry into the free slot where a probe stopped. */
    method Fill(pos: nat, hash: nat, key: K, val: V)
      requires Coherent() && nr + 1 < table.Length && hash == ops.hash(key)
      requires pos < table.Length && ProbeEnd(table[..], ops, key, pos) && table[pos].Free?
      modifies this`nr, this`m, table
      ensures Coherent() && table[..] == old(table[..])[pos := Used(hash, key, val)]
      ensures nr == old(nr) + 1
      ensures key !in old(m) && m == old(m)[key := val] == PutIfAbsent(ops, old(m), key, val)
    {
      FillKeeps(table[..], m, ops, key, val, pos);
      table[pos] := Used(hash, key, val);
      assert table[..] == old(table[..])[pos := Used(hash, key, val)];
      nr := nr + 1;
      m := m[key := val];
    }

    /** Used while rehashing: insertion without the load-factor test. */
    method EntryInsert(hash: nat, key: K, val: V)
      requires Coherent() && nr + 1 < table.Length && hash == ops.hash(key)
      modifies this`nr, this`m, table
      ensures Coherent() && m == PutIfAbsent(ops, old(m), key, val)
    {
      var pos := Lookup(hash, key);
      if table[pos].Used? {
        return;
      }
      Fill(pos, hash, key, val);
    }

    /** One step of a rehash. Two kinds hash the key again, two reuse the recorded hash. */
    method MoveSlot(slot: Slot<K, V>, ghost slots: seq<Slot<K, V>>, ghost all: map<K, V>, ghost i: nat)
      requires Coherent() && WellFormed(slots, ops) && Holds(slots, all) && |all| + 1 < table.Length
      requires i < |slots| && slot == slots[i] && Moved(slots, all, i, m)
      modifies this`nr, this`m, table
      ensures Coherent() && Moved(slots, all, i + 1, m)
    {
      if slot.Used? {
        MovedSize(slots, all, i, m);
        MovedOne(slots, all, ops, i, m);
        var hash := if kind.HashTable? || kind.HashMap? then ops.hash(slot.key) else slot.hash;
        EntryInsert(hash, slot.key, slot.val);
      } else {
        MovedFree(slots, all, i, m);
      }
    }

    /** Moves every entry of the old array into the new, empty one. */
    method Rehash(oldTable: array<Slot<K, V>>, ghost all: map<K, V>)
      requires Coherent() && m == map[] && oldTable != table
      requires WellFormed(oldTable[..], ops) && Holds(oldTable[..], all) && |all| + 1 < table.Length
      modifies this`nr, this`m, table
      ensures Coherent() && m == all
    {
      ghost var slots := oldTable[..];
      for i := 0 to oldTable.Length
        invariant oldTable[..] == slots
        invariant Coherent()
        invariant Moved(slots, all, i, m)
      {
        MoveSlot(oldTable[i], slots, all, i);
      }
      MovedAll(slots, all, m);
    }

    method Grow() returns (ok: bool)
      requires Valid()
      modifies this, table
      ensures Coherent() && m == old(m)
      ensures ok == (Next(old(table.Length)) > old(table.Length))
      ensures ok ==> fresh(table) && table.Length == Next(old(table.Length))
      ensures !ok ==> table == old(table)
    {
      var newSize := NewAllocSize(table.Length);
      if newSize <= table.Length {
        return false;
      }
      GrowsIffNoOverflow(table.Length);
      var oldTable := table;
      ghost var all := m;
      table := new Slot<K, V>[newSize](_ => Free);
      nr := 0;
      m := map[];
      Rehash(oldTable, all);
      ok := true;
    }

    /** Whether an insertion would have to be dropped: the table is half full and its size cannot grow. */
    ghost predicate Stuck()
      reads this, table
    {
      nr >= table.Length / 2 && table.Length < MODULUS && Next(table.Length) <= table.Length
    }

    /** The load-factor test made by every insertion. */
    method Reserve() returns (ok: bool)
      requires Valid()
      modifies this, table
      ensures Valid() && m == old(m) && ok == !old(Stuck())
      ensures ok ==> nr < table.Length / 2
      ensures table == old(table) || fresh(table)
    {
      if nr >= table.Length / 2 {
        GrowsIffNoOverflow(table.Length);
        ok := Grow();
      } else {
        ok := true;
      }
    }

    /** First insert wins; an insertion that would need an impossible growth is dropped. */
    method Insert(key: K, val: V)
      requires Valid()
      modifies this, table
      ensures Valid() && (table == old(table) || fresh(table))
      ensures m == if old(Stuck()) then old(m) else PutIfAbsent(ops, old(m), key, val)
    {
      var ok := Reserve();
      if !ok {
        return;
      }
      var hash := ops.hash(key);
      var pos := Lookup(hash, key);
      if table[pos].Free? {
        Fill(pos, hash, key, val);
      }
    }

    /** Finds the entry of key, or makes one holding val; nothing if an impossible growth is needed. */
    method FindOrInsert(key: K, val: V) returns (r: Option<(K, V)>)
      requires Valid()
      modifies this, table
      ensures Valid() && (table == old(table) || fresh(table))
      ensures r.None? <==> old(Stuck())
      ensures m == if r.None? then old(m) else PutIfAbsent(ops, old(m), key, val)
      ensures r.Some? ==> Binds(r.value.0, key, r.value.1)
    {
      var ok := Reserve();
      if !ok {
        return None;
      }
      var hash := ops.hash(key);
      var pos := Lookup(hash, key);
      if table[pos].Free? {
        assert ops.Same(key, key);
        Fill(pos, hash, key, val);
        r := Some((key, val));
      } else {
        r := Some((table[pos].key, table[pos].val));
      }
    }

    /** The binding whose key is equivalent to the given one. */
    method Search(key: K) returns (r: Option<(K, V)>)
      requires Valid()
      ensures r.None? <==> !HasKey(ops, m, key)
      ensures r.Some? ==> Binds(r.value.0, key, r.value.1)
    {
      var pos := Lookup(ops.hash(key), key);
      if table[pos].Free? {
        r := None;
      } else {
        r := Some((table[pos].key, table[pos].val));
      }
    }

    /** The slot of the key's entry, or -1. */
    method Pos(key: K) returns (pos: int)
      requires Valid()
      ensures -1 <= pos < table.Length
      ensures pos == -1 <==> !HasKey(ops, m, key)
      ensures pos >= 0 ==> table[pos].Used? && ops.Same(table[pos].key, key)
    {
      pos := Lookup(ops.hash(key), key);
      if table[pos].Free? {
        pos := -1;
      }
    }

    /** The keys of a plain table in slot order, each once; nothing for the other kinds. */
    method ToList() returns (keys: seq<K>)
      requires Valid()
      ensures !kind.HashTable? ==> keys == []
      ensures kind.HashTable? ==> (forall k :: k in keys <==> k in m)
      ensures forall i, j :: 0 <= i < j < |keys| ==> !ops.Same(keys[i], keys[j])
    {
      hide Lawful, WellFormed, Holds;
      keys := [];
      if !kind.HashTable? {
        return;
      }
      for i := 0 to table.Length
        invariant keys == KeysUpTo(table[..], i)
      {
        if table[i].Used? {
          keys := keys + [table[i].key];
        }
      }
      KeysListed(table[..], ops, m);
    }

    /** Below the capacity bound no insertion is ever dropped. */
    lemma NeverStuckBelowCapacity()
      requires Valid() && |m| < CAPACITY
      ensures !Stuck()
    {
      GrowsIffNoOverflow(table.Length);
    }
  }
}
