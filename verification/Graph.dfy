/** The dependency graph: vertices with growable adjacency lists, an index from name to vertex, and a
    topological sort by iterative depth-first search. */
module Graph {
  import opened AllocSize
  import opened Probing
  import opened OpenTable
  import opened Stack
  import opened Digraph
  import opened Sequences
  import opened GraphModel

  const GRAPH_INIT_VERTICES: Size := 40
  const VERTEX_ADJ_INIT_SZ: Size := 20

  class Vertex<K> {
    const data: K
    // The adjacency list and the number of edges there is room for.
    var adj: seq<nat>
    var sz: Size
    var dfsIdx: nat
    var color: Color

    constructor (data: K)
      ensures this.data == data && adj == [] && sz == VERTEX_ADJ_INIT_SZ && dfsIdx == 0 && color == White
    {
      this.data := data;
      adj, sz, dfsIdx, color := [], VERTEX_ADJ_INIT_SZ, 0, White;
    }

    method DfsReset()
      modifies this`dfsIdx, this`color
      ensures dfsIdx == 0 && color == White
    {
      dfsIdx, color := 0, White;
    }

    /** Appends an edge unless it is listed. ok is false where the program gives up because the list
        cannot grow. */
    method AddEdge(edge: nat) returns (ok: bool)
      requires |adj| <= sz
      modifies this`adj, this`sz
      ensures |adj| <= sz
      ensures ok <==> !(|old(adj)| == old(sz) && old(sz) > GROWABLE)
      ensures adj == if ok && edge !in old(adj) then old(adj) + [edge] else old(adj)
    {
      if |adj| >= sz {
        var newSize := NewAllocSize(sz);
        GrowsIffNoOverflow(sz);
        if newSize <= sz {
          return false;
        }
        sz := newSize;
      }
      for i := 0 to |adj|
        invariant adj == old(adj) && |adj| < sz
        invariant edge !in adj[..i]
      {
        if adj[i] == edge {
          return true;
        }
      }
      adj := adj + [edge];
      ok := true;
    }

    /** The successor at the cursor, which moves on. */
    method NextEdge() returns (w: nat)
      requires dfsIdx < |adj|
      modifies this`dfsIdx
      ensures w == adj[old(dfsIdx)] && dfsIdx == old(dfsIdx) + 1
    {
      w := adj[dfsIdx];
      dfsIdx := dfsIdx + 1;
    }
  }

  /** The vertices and their lists are those of the model. */
  ghost predicate Stored<K>(vertices: seq<Vertex<K>>, model: Model<K>, owned: set<Vertex<K>>)
    reads owned`adj, owned`sz
  {
    && |vertices| == |model.names| == |model.edges|
    && (forall i :: 0 <= i < |vertices| ==> vertices[i] in owned)
    && (forall i, j :: 0 <= i < j < |vertices| ==> vertices[i] != vertices[j])
    && (forall i :: 0 <= i < |vertices| ==> Stands(vertices[i], model.names[i], model.edges[i]))
  }

  ghost predicate Stands<K>(v: Vertex<K>, name: K, adj: seq<nat>)
    reads v`adj, v`sz
  {
    v.data == name && v.adj == adj && |v.adj| <= v.sz
  }

  /** The index maps the name of vertex i to i. */
  ghost predicate Indexed<K(!new)>(m: map<K, nat>, names: seq<K>)
  {
    && |m| == |names|
    && (forall k :: k in m ==> k in names)
    && (forall i :: 0 <= i < |names| ==> names[i] in m && m[names[i]] == i)
  }

  /** Colours and cursors are those of the walk. */
  ghost predicate Painted<K>(vertices: seq<Vertex<K>>, owned: set<Vertex<K>>, w: Walk)
    reads owned`color, owned`dfsIdx
  {
    && |w.color| == |w.idx| == |vertices|
    && (forall i :: 0 <= i < |vertices| ==> vertices[i] in owned)
    && (forall i, j :: 0 <= i < j < |vertices| ==> vertices[i] != vertices[j])
    && (forall i :: 0 <= i < |vertices| ==> vertices[i].color == w.color[i] && vertices[i].dfsIdx == w.idx[i])
  }

  /** The pointers on the stack are to the vertices of the path. */
  ghost predicate Points<K>(vertices: seq<Vertex<K>>, st: seq<Vertex?<K>>, path: seq<nat>)
  {
    && |st| == |path|
    && forall i :: 0 <= i < |path| ==> path[i] < |vertices| && st[i] == vertices[path[i]]
  }

  lemma PointsTop<K>(vertices: seq<Vertex<K>>, st: seq<Vertex?<K>>, g: Adj, w: Walk)
    requires Points(vertices, st, w.path) && Sized(g, w) && w.path != []
    ensures st != [] && Top(w) < |vertices| && Top(w) < |g| == |w.color| && st[|st| - 1] == vertices[Top(w)]
    ensures Points(vertices, st[..|st| - 1], w.path[..|w.path| - 1])
  {
  }

  lemma NameAt<K>(vertices: seq<Vertex<K>>, model: Model<K>, owned: set<Vertex<K>>, i: nat)
    requires Stored(vertices, model, owned) && Proper(model) && i < |vertices|
    ensures vertices[i] in owned
    ensures vertices[i].data in model.names && IndexOf(model.names, vertices[i].data) == i
  {
    IndexUnique(model.names, i);
  }

  /** Only colours and cursors matter. */
  lemma PaintedPath<K>(vertices: seq<Vertex<K>>, owned: set<Vertex<K>>, w: Walk, t: Walk)
    requires Painted(vertices, owned, w) && t.color == w.color && t.idx == w.idx
    ensures Painted(vertices, owned, t)
  {
  }

  method Paint<K>(ghost vertices: seq<Vertex<K>>, ghost owned: set<Vertex<K>>, ghost w: Walk,
                  v: Vertex<K>, ghost i: nat, c: Color)
    requires Painted(vertices, owned, w) && i < |vertices| && v == vertices[i]
    modifies v`color
    ensures |w.color| == |vertices| && Painted(vertices, owned, w.(color := w.color[i := c]))
  {
    v.color := c;
  }

  /** The cursor of v moves past the edge it is at. */
  method ScanEdge<K>(ghost vertices: seq<Vertex<K>>, ghost model: Model<K>, ghost owned: set<Vertex<K>>,
                     ghost w: Walk, v: Vertex<K>, ghost i: nat) returns (pos: nat)
    requires Painted(vertices, owned, w) && Stored(vertices, model, owned)
    requires i < |vertices| && v == vertices[i] && v.dfsIdx < |v.adj|
    modifies v`dfsIdx
    ensures |w.idx| == |vertices| == |model.edges| && w.idx[i] < |model.edges[i]| && pos == model.edges[i][w.idx[i]]
    ensures Painted(vertices, owned, w.(idx := w.idx[i := w.idx[i] + 1]))
  {
    assert Stands(v, model.names[i], model.edges[i]);
    pos := v.NextEdge();
  }

  /** What the heap says of vertex i is what the walk and the model say. */
  lemma VertexAt<K>(vertices: seq<Vertex<K>>, model: Model<K>, owned: set<Vertex<K>>, w: Walk, i: nat)
    requires Painted(vertices, owned, w) && Stored(vertices, model, owned) && i < |vertices|
    ensures vertices[i] in owned && |w.color| == |w.idx| == |vertices| == |model.edges|
    ensures vertices[i].color == w.color[i] && vertices[i].dfsIdx == w.idx[i] && vertices[i].adj == model.edges[i]
  {
    assert Stands(vertices[i], model.names[i], model.edges[i]);
  }

  lemma PointsPush<K>(vertices: seq<Vertex<K>>, st: seq<Vertex?<K>>, path: seq<nat>, i: nat)
    requires Points(vertices, st, path) && i < |vertices|
    ensures Points(vertices, st + [vertices[i]], path + [i])
  {
  }

  lemma StoredAdd<K>(vertices: seq<Vertex<K>>, model: Model<K>, owned: set<Vertex<K>>, v: Vertex<K>, k: K)
    requires Stored(vertices, model, owned) && k !in model.names
    requires v !in owned && Stands(v, k, [])
    ensures Stored(vertices + [v], WithVertex(model, k), owned + {v})
  {
  }

  lemma IndexedAdd<K(!new)>(m: map<K, nat>, names: seq<K>, k: K)
    requires Indexed(m, names) && k !in names
    ensures k !in m && Indexed(m[k := |names|], names + [k])
  {
  }

  lemma IndexedLookup<K(!new)>(m: map<K, nat>, names: seq<K>, k: K)
    requires Indexed(m, names)
    ensures k in m <==> k in names
    ensures k in m ==> m[k] == IndexOf(names, k)
  {
  }

  class Graph<K(!new, ==)> {
    var vertices: seq<Vertex<K>>
    var sz: Size
    const vidx: Table<K, nat>
    ghost var model: Model<K>
    // The objects behind vertices.
    ghost var owned: set<Vertex<K>>

    ghost predicate Valid()
      reads this, owned, vidx, vidx.table
    {
      && vidx.Valid() && Exact(vidx.ops)
      && |vertices| <= sz && |vertices| <= CAPACITY
      && Proper(model)
      && Stored(vertices, model, owned) && Indexed(vidx.m, model.names)
    }

    constructor (ops: KeyOps<K>)
      requires Lawful(ops) && Exact(ops)
      ensures Valid() && model == Model([], [])
      ensures fresh(vidx) && fresh(vidx.table) && fresh(owned)
    {
      vertices, sz := [], GRAPH_INIT_VERTICES;
      vidx := new Table(Vindex, ops);
      model, owned := Model([], []), {};
    }

    /** The position of a name in the graph, -1 if it is not there. */
    method VindexLookup(k: K) returns (pos: int)
      requires Valid()
      ensures pos == if k in model.names then IndexOf(model.names, k) else -1
    {
      hide Lawful, WellFormed, Holds, Proper, Stored, Indexed;
      HasKeyExact<K, nat>(vidx.ops, vidx.m, k);
      IndexedLookup(vidx.m, model.names, k);
      var r := vidx.Search(k);
      if r.None? {
        pos := -1;
      } else {
        pos := r.value.1;
      }
    }

    method AddVertex(k: K)
      requires Valid() && |vertices| < CAPACITY
      modifies this, vidx, vidx.table
      ensures Valid() && fresh(owned - old(owned))
      ensures vidx.table == old(vidx.table) || fresh(vidx.table)
      ensures model == WithVertex(old(model), k)
      ensures |vertices| <= |old(vertices)| + 1
    {
      hide Lawful, WellFormed, Holds, Proper, Stored, Indexed, Exact, PutIfAbsent;
      var at := VindexLookup(k);
      if at != -1 {
        return;
      }
      Append(k);
    }

    method Append(k: K)
      requires Valid() && |vertices| < CAPACITY && k !in model.names
      modifies this, vidx, vidx.table
      ensures Valid() && fresh(owned - old(owned))
      ensures vidx.table == old(vidx.table) || fresh(vidx.table)
      ensures model == WithVertex(old(model), k)
      ensures |vertices| == |old(vertices)| + 1
    {
      hide Lawful, WellFormed, Holds, Proper, Stored, Indexed, Exact, PutIfAbsent;
      if |vertices| >= sz {
        GrowsIffNoOverflow(sz);
        sz := NewAllocSize(sz);
      }
      SizeOf(vertices, model, owned, vidx.m);
      IndexedAdd(vidx.m, model.names, k);
      WithVertexProper(model, k);
      PutIfAbsentExact<K, nat>(vidx.ops, vidx.m, k, |vertices|);
      vidx.NeverStuckBelowCapacity();
      vidx.Insert(k, |vertices|);
      var v := new Vertex(k);
      StoredAdd(vertices, model, owned, v, k);
      vertices := vertices + [v];
      owned := owned + {v};
      model := WithVertex(model, k);
    }

    /** Adds both ends if they are missing, then the edge unless it is there. */
    method AddEdge(from: K, to: K)
      requires Valid() && |vertices| + 2 <= CAPACITY
      modifies this, vidx, vidx.table, owned
      ensures Valid() && fresh(owned - old(owned))
      ensures vidx.table == old(vidx.table) || fresh(vidx.table)
      ensures model == WithEdge(old(model), from, to)
      ensures |vertices| <= |old(vertices)| + 2
    {
      hide Lawful, WellFormed, Holds, Proper, Stored, Indexed, Exact, PutIfAbsent, WithVertex, WithLink;
      WithVertexAdds(model, from);
      WithVertexAdds(WithVertex(model, from), to);
      AddVertex(from);
      AddVertex(to);
      var fromPos := VindexLookup(from);
      var toPos := VindexLookup(to);
      Link(fromPos, toPos);
    }

    /** Records an edge between two vertices that are in the graph: the give-up branch is never taken. */
    method Link(i: nat, j: nat)
      requires Valid() && i < |model.names| && j < |model.names|
      modifies this`model, owned`adj, owned`sz
      ensures Valid() && model == WithLink(old(model), i, j)
    {
      hide Lawful, WellFormed, Holds, Indexed, Exact, WithLink;
      WithLinkAdds(model, i, j);
      SizeOf(vertices, model, owned, vidx.m);
      SetEdge(vertices, model, owned, vertices[i], i, j);
      model := WithLink(model, i, j);
    }

    /** The vertex on top of the stack has no edge left: it turns black and its position is recorded. */
    method FinishTop(st: Stack<Vertex?<K>>, topost: Stack<nat>, ghost w: Walk)
      requires Valid() && st.Valid() && topost.Valid()
      requires Sized(model.edges, w) && w.path != []
      requires Painted(vertices, owned, w) && Points(vertices, st.Contents(), w.path)
      modifies owned`color, st`nr, topost, topost.st
      ensures Valid() && st.Valid() && topost.Valid()
      ensures topost.st == old(topost.st) || fresh(topost.st)
      ensures Painted(vertices, owned, Finish(w)) && Points(vertices, st.Contents(), Finish(w).path)
      ensures topost.Contents() == old(topost.Contents()) + [Top(w)]
    {
      hide Lawful, WellFormed, Holds, Indexed, Exact, Proper, Stored, Painted, Points, Sized;
      PointsTop(vertices, st.Contents(), model.edges, w);
      NameAt(vertices, model, owned, Top(w));
      var curv := st.Peek(null);
      Paint(vertices, owned, w, curv, Top(w), Black);
      var pos := VindexLookup(curv.data);
      topost.Push(pos);
      curv := st.Pop();
      PaintedPath(vertices, owned, w.(color := w.color[Top(w) := Black]), Finish(w));
    }

    /** The next edge of the vertex on top of the stack: its end is entered if white, passed over if
        black; gray means a cycle. */
    method ScanTop(st: Stack<Vertex?<K>>, ghost w: Walk) returns (cycle: bool)
      requires Valid() && st.Valid()
      requires Inv(model.edges, w) && w.path != [] && w.idx[Top(w)] < |model.edges[Top(w)]|
      requires Painted(vertices, owned, w) && Points(vertices, st.Contents(), w.path)
      modifies owned`color, owned`dfsIdx, st, st.st
      ensures Valid() && st.Valid() && (st.st == old(st.st) || fresh(st.st))
      ensures cycle <==> Blocked(model.edges, w)
      ensures !cycle ==> Painted(vertices, owned, Step(model.edges, w))
      ensures !cycle ==> Points(vertices, st.Contents(), Step(model.edges, w).path)
    {
      hide Lawful, WellFormed, Holds, Indexed, Exact, Proper, Stored, Painted, Points, Sized;
      hide Colored, Chained, Scanned, FinishOrder;
      PointsTop(vertices, st.Contents(), model.edges, w);
      var curv := st.Peek(null);
      VertexAt(vertices, model, owned, w, Top(w));
      NextInside(model.edges, w);
      var pos := ScanEdge(vertices, model, owned, w, curv, Top(w));
      var next := vertices[pos];
      VertexAt(vertices, model, owned, Advance(w), pos);
      if next.color == Gray {
        return true;
      } else if next.color == White {
        PointsPush(vertices, st.Contents(), w.path, pos);
        Paint(vertices, owned, Advance(w), next, pos, Gray);
        st.Push(next);
        PaintedPath(vertices, owned, Advance(w).(color := w.color[pos := Gray]), Step(model.edges, w));
      }
      cycle := false;
    }

    /** One turn of the search. */
    method Turn(st: Stack<Vertex?<K>>, topost: Stack<nat>, ghost w: Walk, ghost pre: seq<nat>)
      returns (cycle: bool, ghost t: Walk)
      requires Valid() && st.Valid() && topost.Valid()
      requires Inv(model.edges, w) && w.path != []
      requires Painted(vertices, owned, w) && Points(vertices, st.Contents(), w.path)
      requires topost.Contents() == pre + w.done
      modifies owned`color, owned`dfsIdx, st, st.st, topost, topost.st
      ensures Valid() && st.Valid() && topost.Valid()
      ensures (st.st == old(st.st) || fresh(st.st)) && (topost.st == old(topost.st) || fresh(topost.st))
      ensures cycle ==> HasCycle(model.edges)
      ensures !cycle ==> Inv(model.edges, t) && Settled(w, t)
      ensures !cycle ==> Work(model.edges, t, |model.edges|) < Work(model.edges, w, |model.edges|)
      ensures !cycle ==> Painted(vertices, owned, t) && Points(vertices, st.Contents(), t.path)
      ensures !cycle ==> topost.Contents() == pre + t.done
    {
      hide Lawful, WellFormed, Holds, Indexed, Exact, Proper, Stored, Painted, Points, Sized;
      hide Colored, Chained, Scanned, FinishOrder, Settled, Work;
      t := w;
      PointsTop(vertices, st.Contents(), model.edges, w);
      VertexAt(vertices, model, owned, w, Top(w));
      TopSized(model.edges, w);
      var curv := st.Peek(null);
      if curv.dfsIdx >= |curv.adj| {
        FinishTop(st, topost, w);
        cycle := false;
      } else {
        cycle := ScanTop(st, w);
      }
      if cycle {
        GrayClosesCycle(model.edges, w);
      } else {
        StepKeeps(model.edges, w);
        t := Step(model.edges, w);
      }
    }

    /** The search from one white root: 0 and a larger finish order, or -1 and a cycle. */
    method Dfs(root: nat, topost: Stack<nat>, ghost w0: Walk, ghost pre: seq<nat>) returns (ret: int, ghost w: Walk)
      requires Valid() && topost.Valid()
      requires Inv(model.edges, w0) && w0.path == [] && Painted(vertices, owned, w0)
      requires root < |vertices| && root < |w0.color| && w0.color[root] == White
      requires topost.Contents() == pre + w0.done
      modifies owned`color, owned`dfsIdx, topost, topost.st
      ensures Valid() && topost.Valid() && (topost.st == old(topost.st) || fresh(topost.st))
      ensures ret == 0 || ret == -1
      ensures ret == -1 ==> HasCycle(model.edges)
      ensures ret == 0 ==> Inv(model.edges, w) && w.path == [] && Painted(vertices, owned, w)
      ensures ret == 0 ==> Settled(w0, w) && w.color[root] != White && topost.Contents() == pre + w.done
    {
      hide Lawful, WellFormed, Holds, Indexed, Exact, Proper, Stored, Painted, Sized, Work;
      hide Colored, Chained, Scanned, FinishOrder;
      VertexAt(vertices, model, owned, w0, root);
      Paint(vertices, owned, w0, vertices[root], root, Gray);
      w := Begin(w0, root);
      BeginKeeps(model.edges, w0, root);
      PaintedPath(vertices, owned, w0.(color := w.color), w);
      var st := new Stack<Vertex?<K>>();
      st.Push(vertices[root]);
      while !st.Empty()
        invariant Valid() && st.Valid() && topost.Valid()
        invariant fresh(st) && fresh(st.st) && (topost.st == old(topost.st) || fresh(topost.st))
        invariant Inv(model.edges, w) && Painted(vertices, owned, w) && Points(vertices, st.Contents(), w.path)
        invariant Settled(w0, w) && root < |w.color| && w.color[root] != White
        invariant topost.Contents() == pre + w.done
        decreases Work(model.edges, w, |model.edges|)
      {
        var cycle;
        cycle, w := Turn(st, topost, w, pre);
        if cycle {
          return -1, w;
        }
      }
      ret := 0;
    }

    /** Sorts the vertices: 0 and a finish order of all of them on the stack, or -1 exactly when there is
        a cycle. */
    method Toposort(topost: Stack<nat>) returns (ret: int)
      requires Valid() && topost.Valid()
      modifies owned`color, owned`dfsIdx, topost, topost.st
      ensures Valid() && topost.Valid() && (topost.st == old(topost.st) || fresh(topost.st))
      ensures ret == 0 || ret == -1
      ensures ret == -1 <==> HasCycle(model.edges)
      ensures ret == 0 ==>
        exists done :: Complete(model.edges, done) && topost.Contents() == old(topost.Contents()) + done
    {
      hide Lawful, WellFormed, Holds, Indexed, Exact, Proper, Stored, Painted, Sized, Work;
      hide Colored, Chained, Scanned, FinishOrder, HasCycle;
      ghost var pre := topost.Contents();
      ghost var w := Reset();
      var i := 0;
      assert topost.Contents() == pre + w.done;
      while i < |vertices|
        invariant 0 <= i <= |vertices|
        invariant Valid() && topost.Valid() && (topost.st == old(topost.st) || fresh(topost.st))
        invariant Inv(model.edges, w) && w.path == [] && Painted(vertices, owned, w)
        invariant |w.color| == |vertices| && forall v :: 0 <= v < i ==> w.color[v] != White
        invariant topost.Contents() == pre + w.done
      {
        VertexAt(vertices, model, owned, w, i);
        if vertices[i].color == White {
          ret, w := Dfs(i, topost, w, pre);
          if ret != 0 {
            return;
          }
        }
        i := i + 1;
      }
      SizeOf(vertices, model, owned, vidx.m);
      AllDone(model.edges, w);
      FinishOrderAcyclic(model.edges, w.done);
      ret := 0;
    }

    /** All vertices white, all cursors at the start. */
    method Reset() returns (ghost w: Walk)
      requires Valid()
      modifies owned`color, owned`dfsIdx
      ensures Valid() && Inv(model.edges, w) && Fresh(model.edges, w) && Painted(vertices, owned, w)
      ensures |w.color| == |vertices|
    {
      hide Lawful, WellFormed, Holds, Indexed, Exact;
      for i := 0 to |vertices|
        invariant Valid()
        invariant forall j :: 0 <= j < i ==> vertices[j].color == White && vertices[j].dfsIdx == 0
      {
        vertices[i].DfsReset();
      }
      w := Walk(seq(|vertices|, _ => White), seq(|vertices|, _ => 0), [], []);
      FreshInv(model.edges, w);
    }

    /** The name of the vertex at a position, if there is one. */
    method GetVertexData(pos: int) returns (k: Option<K>)
      requires Valid()
      ensures k == if 0 <= pos < |model.names| then Some(model.names[pos]) else None
    {
      if pos < 0 || pos >= |vertices| {
        return None;
      }
      k := Some(vertices[pos].data);
    }
  }

  method SetEdge<K>(ghost vertices: seq<Vertex<K>>, ghost model: Model<K>, ghost owned: set<Vertex<K>>,
                    v: Vertex<K>, ghost i: nat, j: nat)
    requires Stored(vertices, model, owned) && Proper(model)
    requires i < |vertices| <= CAPACITY && j < |vertices| && v == vertices[i]
    modifies v`adj, v`sz
    ensures Stored(vertices, WithLink(model, i, j), owned)
  {
    assert Stands(v, model.names[i], model.edges[i]);
    DistinctBound(model.edges[i], |model.edges|);
    var ok := v.AddEdge(j);
    assert ok;
  }

  lemma SizeOf<K(!new)>(vertices: seq<Vertex<K>>, model: Model<K>, owned: set<Vertex<K>>, m: map<K, nat>)
    requires Stored(vertices, model, owned) && Indexed(m, model.names)
    ensures |m| == |vertices| == |model.names|
  {
  }
}
