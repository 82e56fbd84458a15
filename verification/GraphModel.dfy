/** What a graph holds, apart from the heap: its vertices in order of arrival and their adjacency lists. */
module GraphModel {
  import opened Digraph
  import opened Sequences

  datatype Model<+K> = Model(names: seq<K>, edges: Adj)

  /** Names are distinct, edges stay inside, and no list repeats an edge. */
  ghost predicate Proper<K>(m: Model<K>)
  {
    && |m.names| == |m.edges| && Closed(m.edges)
    && (forall i, j :: 0 <= i < j < |m.names| ==> m.names[i] != m.names[j])
    && (forall v :: 0 <= v < |m.edges| ==> Distinct(m.edges[v]))
  }

  ghost function WithVertex<K>(m: Model<K>, k: K): Model<K>
  {
    if k in m.names then m else Model(m.names + [k], m.edges + [[]])
  }

  /** The edge from vertex i to vertex j, once. */
  ghost function WithLink<K>(m: Model<K>, i: nat, j: nat): Model<K>
    requires i < |m.edges|
  {
    if j in m.edges[i] then m else m.(edges := m.edges[i := m.edges[i] + [j]])
  }

  ghost function WithEdge<K>(m: Model<K>, from: K, to: K): Model<K>
    requires Proper(m)
  {
    var n := WithVertex(WithVertex(m, from), to);
    WithLink(n, IndexOf(n.names, from), IndexOf(n.names, to))
  }

  /** There is an edge from the vertex named a to the vertex named b. */
  ghost predicate Linked<K>(m: Model<K>, a: K, b: K)
    requires Proper(m)
  {
    a in m.names && b in m.names && IndexOf(m.names, b) in m.edges[IndexOf(m.names, a)]
  }

  lemma IndexUnique<K>(s: seq<K>, i: nat)
    requires i < |s| && forall a, b :: 0 <= a < b < |s| ==> s[a] != s[b]
    ensures IndexOf(s, s[i]) == i
  {
    assert s[i] in s;
  }

  lemma WithVertexProper<K>(m: Model<K>, k: K)
    requires Proper(m)
    ensures Proper(WithVertex(m, k))
    ensures forall x :: x in WithVertex(m, k).names <==> x in m.names || x == k
    ensures forall x :: x in m.names ==> IndexOf(WithVertex(m, k).names, x) == IndexOf(m.names, x)
  {
    var n := WithVertex(m, k);
    if k !in m.names {
      forall x | x in m.names
        ensures IndexOf(n.names, x) == IndexOf(m.names, x)
      {
        IndexUnique(n.names, IndexOf(m.names, x));
      }
    }
  }

  lemma WithVertexAdds<K>(m: Model<K>, k: K)
    requires Proper(m)
    ensures Proper(WithVertex(m, k))
    ensures forall x :: x in WithVertex(m, k).names <==> x in m.names || x == k
    ensures forall a, b :: Linked(WithVertex(m, k), a, b) <==> Linked(m, a, b)
  {
    WithVertexProper(m, k);
    var n := WithVertex(m, k);
    if k !in m.names {
      IndexUnique(n.names, |m.names|);
      forall a, b
        ensures Linked(n, a, b) <==> Linked(m, a, b)
      {
        if a in m.names && IndexOf(n.names, b) in n.edges[IndexOf(n.names, a)] {
          assert n.edges[IndexOf(n.names, a)] == m.edges[IndexOf(m.names, a)];
        }
      }
    }
  }

  lemma WithLinkAdds<K>(m: Model<K>, i: nat, j: nat)
    requires Proper(m) && i < |m.names| && j < |m.names|
    ensures Proper(WithLink(m, i, j)) && WithLink(m, i, j).names == m.names
    ensures forall a, b :: Linked(WithLink(m, i, j), a, b) <==> Linked(m, a, b) || (a == m.names[i] && b == m.names[j])
  {
    var n := WithLink(m, i, j);
    IndexUnique(m.names, i);
    IndexUnique(m.names, j);
    forall a, b
      ensures Linked(n, a, b) <==> Linked(m, a, b) || (a == m.names[i] && b == m.names[j])
    {
    }
  }

  /** Adding an edge adds its ends and that one edge, and keeps the representation proper. */
  lemma WithEdgeAdds<K>(m: Model<K>, from: K, to: K)
    requires Proper(m)
    ensures Proper(WithEdge(m, from, to))
    ensures forall x :: x in WithEdge(m, from, to).names <==> x in m.names || x == from || x == to
    ensures forall a, b :: Linked(WithEdge(m, from, to), a, b) <==> Linked(m, a, b) || (a == from && b == to)
  {
    WithVertexAdds(m, from);
    WithVertexAdds(WithVertex(m, from), to);
    var n := WithVertex(WithVertex(m, from), to);
    WithLinkAdds(n, IndexOf(n.names, from), IndexOf(n.names, to));
  }

  // What can be inserted: a vertex, or an edge with its ends.
  datatype Insertion<+K> = OneVertex(name: K) | OneEdge(source: K, target: K)

  ghost function With<K>(m: Model<K>, i: Insertion<K>): Model<K>
    requires Proper(m)
  {
    match i
    case OneVertex(name) => WithVertex(m, name)
    case OneEdge(source, target) => WithEdge(m, source, target)
  }

  /** Has the insertion this name? */
  ghost predicate Mentions<K>(i: Insertion<K>, x: K)
  {
    match i
    case OneVertex(name) => name == x
    case OneEdge(source, target) => source == x || target == x
  }

  lemma WithAdds<K>(m: Model<K>, i: Insertion<K>)
    requires Proper(m)
    ensures Proper(With(m, i))
    ensures forall x :: x in With(m, i).names <==> x in m.names || Mentions(i, x)
    ensures forall a, b :: Linked(With(m, i), a, b) <==> Linked(m, a, b) || i == OneEdge(a, b)
  {
    match i
    case OneVertex(name) => WithVertexAdds(m, name);
    case OneEdge(source, target) => WithEdgeAdds(m, source, target);
  }

  /** The graph built by a sequence of insertions. */
  ghost function Build<K>(s: seq<Insertion<K>>): (m: Model<K>)
    ensures Proper(m)
  {
    if s == [] then Model([], [])
    else
      WithAdds(Build(s[..|s| - 1]), s[|s| - 1]);
      With(Build(s[..|s| - 1]), s[|s| - 1])
  }

  lemma NoLinks<K>(a: K, b: K)
    ensures Proper<K>(Model([], [])) && !Linked(Model([], []), a, b)
  {
  }

  /** It has the edges inserted and no others. */
  lemma {:induction false} BuildLinks<K>(s: seq<Insertion<K>>, a: K, b: K)
    ensures Linked(Build(s), a, b) <==> OneEdge(a, b) in s
  {
    hide Linked, With, Proper;
    if s == [] {
      NoLinks(a, b);
    } else {
      var n := |s| - 1;
      BuildLinks(s[..n], a, b);
      WithAdds(Build(s[..n]), s[n]);
      assert s == s[..n] + [s[n]];
    }
  }

  /** And it has the vertices that some insertion mentions, and no others. */
  lemma {:induction false} BuildNames<K>(s: seq<Insertion<K>>, x: K)
    ensures x in Build(s).names <==> exists i :: 0 <= i < |s| && Mentions(s[i], x)
  {
    hide Linked, With, Proper, Mentions;
    if s == [] {
    } else {
      var n := |s| - 1;
      BuildNames(s[..n], x);
      WithAdds(Build(s[..n]), s[n]);
      assert forall i :: 0 <= i < n ==> s[..n][i] == s[i];
    }
  }

  /** Every vertex once, and each before those its edges lead to. */
  ghost predicate TopoOrder<K(!new)>(m: Model<K>, order: seq<K>)
    requires Proper(m)
  {
    && (forall i, j :: 0 <= i < j < |order| ==> order[i] != order[j])
    && (forall x :: x in order <==> x in m.names)
    && (forall a, b :: Linked(m, a, b) ==> IndexOf(order, a) < IndexOf(order, b))
  }

  /** A chain of edges. */
  ghost predicate Chain<K>(m: Model<K>, p: seq<K>)
    requires Proper(m)
  {
    |p| > 1 && forall i :: 0 <= i < |p| - 1 ==> Linked(m, p[i], p[i + 1])
  }

  lemma {:induction false} ChainOrdered<K(!new)>(m: Model<K>, order: seq<K>, p: seq<K>)
    requires Proper(m) && TopoOrder(m, order) && Chain(m, p)
    ensures IndexOf(order, p[0]) < IndexOf(order, p[|p| - 1])
  {
    assert Linked(m, p[0], p[1]);
    if |p| > 2 {
      ChainOrdered(m, order, p[1..]);
    }
  }

  /** Every entry is the position of a vertex. */
  ghost predicate Positions<K>(m: Model<K>, topost: seq<nat>)
  {
    forall i :: 0 <= i < |topost| ==> topost[i] < |m.names|
  }

  /** The names met when the finished vertices are popped, last finished first. */
  ghost function PopNames<K>(m: Model<K>, done: seq<nat>): seq<K>
    requires Positions(m, done)
  {
    seq(|done|, i requires 0 <= i < |done| => m.names[done[|done| - 1 - i]])
  }

  lemma CompletePositions<K>(m: Model<K>, done: seq<nat>)
    requires Proper(m) && Complete(m.edges, done)
    ensures Positions(m, done)
  {
    forall i | 0 <= i < |done|
      ensures done[i] < |m.names|
    {
      assert done[i] in done;
    }
  }

  /** Popping a complete finish order gives a topological order. */
  lemma FinishOrderPops<K(!new)>(m: Model<K>, done: seq<nat>)
    requires Proper(m) && Complete(m.edges, done) && Positions(m, done)
    ensures TopoOrder(m, PopNames(m, done))
  {
    var order := PopNames(m, done);
    var n := |done|;
    forall i, j | 0 <= i < j < n
      ensures order[i] != order[j]
    {
      assert done[n - 1 - i] != done[n - 1 - j];
    }
    forall x
      ensures x in order <==> x in m.names
    {
      if x in m.names {
        var k := PoppedAt(m, done, x);
      }
    }
    forall a, b | Linked(m, a, b)
      ensures IndexOf(order, a) < IndexOf(order, b)
    {
      LinkPopped(m, done, a, b);
    }
  }

  /** Where a name is popped. */
  lemma PoppedAt<K>(m: Model<K>, done: seq<nat>, x: K) returns (k: nat)
    requires Proper(m) && x in m.names && forall v: nat :: v in done <==> v < |m.names|
    requires Positions(m, done)
    ensures k < |done| && done[k] == IndexOf(m.names, x) && PopNames(m, done)[|done| - 1 - k] == x
  {
    var v := IndexOf(m.names, x);
    assert v in done;
    k :| k < |done| && done[k] == v;
    assert PopNames(m, done)[|done| - 1 - k] == m.names[done[k]];
  }

  lemma LinkPopped<K>(m: Model<K>, done: seq<nat>, a: K, b: K)
    requires Proper(m) && Complete(m.edges, done)
    requires Positions(m, done)
    requires forall i, j :: 0 <= i < j < |done| ==> PopNames(m, done)[i] != PopNames(m, done)[j]
    requires Linked(m, a, b)
    ensures IndexOf(PopNames(m, done), a) < IndexOf(PopNames(m, done), b)
  {
    var n := |done|;
    var i := PoppedAt(m, done, a);
    assert Edge(m.edges, done[i], IndexOf(m.names, b));
    var j :| 0 <= j < i && done[..i][j] == IndexOf(m.names, b);
    assert PopNames(m, done)[n - 1 - j] == m.names[done[j]] == b;
    IndexUnique(PopNames(m, done), n - 1 - i);
    IndexUnique(PopNames(m, done), n - 1 - j);
  }

  /** m' is m with an edge from each of ds to p. */
  ghost predicate LinksAdded<K(!new)>(m: Model<K>, m': Model<K>, ds: seq<K>, p: K)
    requires Proper(m)
  {
    && Proper(m')
    && (forall x :: x in m'.names <==> x in m.names || x in ds || (x == p && ds != []))
    && (forall a, b :: Linked(m', a, b) <==> Linked(m, a, b) || (a in ds && b == p))
  }

  lemma LinksAddedOne<K(!new)>(m: Model<K>, m': Model<K>, ds: seq<K>, d: K, p: K)
    requires Proper(m) && LinksAdded(m, m', ds, p)
    ensures LinksAdded(m, WithEdge(m', d, p), ds + [d], p)
  {
    hide Linked, WithEdge, Proper;
    WithEdgeAdds(m', d, p);
  }

  /** Distinct names of a set are at most as many as the set has members. */
  lemma NamesBound<K>(names: seq<K>, room: set<K>)
    requires forall i, j :: 0 <= i < j < |names| ==> names[i] != names[j]
    requires forall x :: x in names ==> x in room
    ensures |names| <= |room|
  {
    if names != [] {
      var n := |names| - 1;
      var rest := names[..n];
      assert forall i :: 0 <= i < n ==> rest[i] == names[i];
      forall x | x in rest
        ensures x in room - {names[n]}
      {
        var i :| 0 <= i < n && rest[i] == x;
        assert names[i] in names;
      }
      assert names[n] in names;
      NamesBound(rest, room - {names[n]});
    }
  }
}
