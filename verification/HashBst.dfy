/** The table from a key to the ordered tree of its values, used to find who provides a package. */
module HashBst {
  import opened Probing
  import opened OpenTable
  import opened SearchTree

  /** The values recorded for a key, in ascending order. */
  function ValuesOf<K>(contents: map<K, seq<K>>, key: K): seq<K>
  {
    if key in contents then contents[key] else []
  }

  /** Adds a value to the values of a key. */
  function AddValue<K>(cmp: (K, K) -> int, contents: map<K, seq<K>>, key: K, val: K): map<K, seq<K>>
  {
    contents[key := SortedInsert(cmp, ValuesOf(contents, key), val)]
  }

  /** The values recorded by a sequence of insertions. */
  ghost function AddAll<K>(cmp: (K, K) -> int, s: seq<(K, K)>): map<K, seq<K>>
  {
    if s == [] then map[]
    else AddValue(cmp, AddAll(cmp, s[..|s| - 1]), s[|s| - 1].0, s[|s| - 1].1)
  }

  /** A key's values are those inserted for it, each once and in order. */
  lemma {:induction false} AddAllValues<K(!new)>(cmp: (K, K) -> int, s: seq<(K, K)>, key: K)
    requires TotalOrder(cmp)
    ensures Ascending(cmp, ValuesOf(AddAll(cmp, s), key))
    ensures forall v :: v in ValuesOf(AddAll(cmp, s), key) <==> (key, v) in s
  {
    if s == [] {
    } else {
      var n := |s| - 1;
      var (k, x) := s[n];
      var before := ValuesOf(AddAll(cmp, s[..n]), key);
      AddAllValues(cmp, s[..n], key);
      assert s == s[..n] + [s[n]];
      if k == key {
        SortedInsertAscends(cmp, before, x);
        forall v
          ensures v in SortedInsert(cmp, before, x) <==> (key, v) in s
        {
          SortedInsertMembers(cmp, before, x, v);
        }
      }
    }
  }

  /** Neither the order of the insertions nor repeated ones can be told from the result. */
  lemma InsertionOrderIrrelevant<K(!new)>(cmp: (K, K) -> int, s: seq<(K, K)>, t: seq<(K, K)>, key: K)
    requires TotalOrder(cmp) && forall p :: p in s <==> p in t
    ensures ValuesOf(AddAll(cmp, s), key) == ValuesOf(AddAll(cmp, t), key)
  {
    AddAllValues(cmp, s, key);
    AddAllValues(cmp, t, key);
    AscendingUnique(cmp, ValuesOf(AddAll(cmp, s), key), ValuesOf(AddAll(cmp, t), key));
  }

  lemma AddToEntry<K>(cmp: (K, K) -> int, contents: map<K, seq<K>>, key: K, val: K)
    ensures AddValue(cmp, contents[key := ValuesOf(contents, key)], key, val) == AddValue(cmp, contents, key, val)
  {
  }

  /** The trees of a table: each is well formed and holds the values of its own key. */
  ghost predicate Forest<K(!new)>(cmp: (K, K) -> int, m: map<K, Tree<K>>, contents: map<K, seq<K>>,
                                  trees: set<Tree<K>>, nodes: set<Node<K>>)
    reads trees, nodes
  {
    && m.Keys == contents.Keys
    && (forall k :: k in m ==> m[k] in trees && m[k].key == k && m[k].nodes <= nodes)
    && (forall k :: k in m ==> Holding(cmp, m[k], contents[k]))
  }

  /** t is a well-formed tree that holds s. */
  ghost predicate Holding<K(!new)>(cmp: (K, K) -> int, t: Tree<K>, s: seq<K>)
    reads t, t.nodes
  {
    t.Valid() && t.cmp == cmp && InOrder(t.shape) == s
  }

  lemma ForestMembers<K(!new)>(ops: KeyOps<K>, m: map<K, Tree<K>>, contents: map<K, seq<K>>,
                               trees: set<Tree<K>>, nodes: set<Node<K>>)
    requires Forest(ops.cmp, m, contents, trees, nodes) && TotalOrder(ops.cmp)
    ensures m.Keys == contents.Keys && Exact(ops)
    ensures forall k :: k in m ==> m[k] in trees && m[k].nodes <= nodes
  {
  }

  lemma ForestAdd<K(!new)>(cmp: (K, K) -> int, m: map<K, Tree<K>>, contents: map<K, seq<K>>,
                           trees: set<Tree<K>>, nodes: set<Node<K>>, key: K, t: Tree<K>)
    requires Forest(cmp, m, contents, trees, nodes) && key !in m && t !in trees
    requires t.key == key && Holding(cmp, t, []) && t.nodes == {}
    ensures Forest(cmp, m[key := t], contents[key := []], trees + {t}, nodes)
  {
  }

  lemma SameIsEqual<K(!new)>(ops: KeyOps<K>, a: K, b: K)
    requires Exact(ops) && ops.Same(a, b)
    ensures a == b
  {
  }

  /** Inserting into one tree leaves the others as they are. */
  method InsertInto<K(!new)>(ghost cmp: (K, K) -> int, ghost m: map<K, Tree<K>>, ghost contents: map<K, seq<K>>,
                             ghost trees: set<Tree<K>>, ghost nodes: set<Node<K>>, t: Tree<K>, ghost key: K, val: K)
    requires Forest(cmp, m, contents, trees, nodes) && key in m && m[key] == t
    modifies t, t.nodes
    ensures fresh(t.nodes - old(t.nodes))
    ensures Forest(cmp, m, AddValue(cmp, contents, key, val), trees, nodes + t.nodes)
  {
    hide Proper, SortedInsert, InOrder;
    assert Holding(cmp, t, contents[key]);
    t.Insert(val);
  }

  class HashBst<K(!new, ==)> {
    var htable: Table<K, Tree<K>>
    ghost var contents: map<K, seq<K>>
    ghost var trees: set<Tree<K>>
    ghost var nodes: set<Node<K>>

    ghost predicate Valid()
      reads this, htable, htable.table, trees, nodes
    {
      && htable.Valid() && TotalOrder(htable.ops.cmp)
      && Forest(htable.ops.cmp, htable.m, contents, trees, nodes)
    }

    constructor (ops: KeyOps<K>)
      requires Lawful(ops) && TotalOrder(ops.cmp)
      ensures Valid() && contents == map[] && htable.ops == ops
      ensures fresh(htable) && fresh(htable.table) && fresh(trees) && fresh(nodes)
    {
      htable := new Table(Kind.HashBst, ops);
      contents, trees, nodes := map[], {}, {};
    }

    /** Adds val to the values of key; dropped if the table would have to grow and cannot. */
    method Insert(key: K, val: K)
      requires Valid()
      modifies this, htable, htable.table, trees, nodes
      ensures Valid() && htable == old(htable)
      ensures htable.table == old(htable.table) || fresh(htable.table)
      ensures fresh(trees - old(trees)) && fresh(nodes - old(nodes))
      ensures contents == if old(htable.Stuck()) then old(contents)
                          else AddValue(htable.ops.cmp, old(contents), key, val)
    {
      hide Lawful, TotalOrder, WellFormed, Holds, Forest, AddValue, ValuesOf;
      var t := Entry(key);
      if t.Some? {
        InsertInto(htable.ops.cmp, htable.m, contents, trees, nodes, t.value, key, val);
        nodes := nodes + t.value.nodes;
        contents := AddValue(htable.ops.cmp, contents, key, val);
        AddToEntry(htable.ops.cmp, old(contents), key, val);
      }
    }

    /** The tree of key, created empty if there is none. */
    method Entry(key: K) returns (t: Option<Tree<K>>)
      requires Valid()
      modifies this`contents, this`trees, htable, htable.table
      ensures Valid()
      ensures htable.table == old(htable.table) || fresh(htable.table)
      ensures fresh(trees - old(trees))
      ensures t.None? <==> old(htable.Stuck())
      ensures t.Some? ==> key in htable.m && htable.m[key] == t.value && t.value in trees && t.value.nodes <= nodes
      ensures contents == if t.None? then old(contents) else old(contents)[key := ValuesOf(old(contents), key)]
    {
      hide Lawful, TotalOrder, WellFormed, Holds, Forest, Exact;
      ghost var m := htable.m;
      ForestMembers(htable.ops, m, contents, trees, nodes);
      var header := new Tree(key, htable.ops.cmp);
      PutIfAbsentExact<K, Tree<K>>(htable.ops, m, key, header);
      var entry := htable.FindOrInsert(key, header);
      if entry.None? {
        return None;
      }
      SameIsEqual(htable.ops, entry.value.0, key);
      t := Some(entry.value.1);
      if key !in m {
        ForestAdd(htable.ops.cmp, m, contents, trees, nodes, key, header);
        contents := contents[key := []];
        trees := trees + {header};
      }
    }

    /** The least value of key, in the comparator's order, that f accepts. */
    method TreeSearch<R>(key: K, f: K -> Option<R>) returns (r: Option<R>)
      requires Valid()
      ensures r == FirstSome(ValuesOf(contents, key), f)
    {
      assert Exact(htable.ops);
      HasKeyExact(htable.ops, htable.m, key);
      var entry := htable.Search(key);
      if entry.None? {
        return None;
      }
      r := entry.value.1.Search(f);
    }
  }
}
