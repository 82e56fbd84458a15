/** Depth-first search on the values of a graph: what the walk keeps, and what its end proves. */
module Digraph {

  // Successors of each vertex.
  type Adj = seq<seq<nat>>

  datatype Color = White | Gray | Black

  // The walk: colours and cursors of the vertices, the path being explored, the vertices finished.
  datatype Walk = Walk(color: seq<Color>, idx: seq<nat>, path: seq<nat>, done: seq<nat>)

  ghost predicate Closed(g: Adj)
  {
    forall v, k :: 0 <= v < |g| && 0 <= k < |g[v]| ==> g[v][k] < |g|
  }

  ghost predicate Edge(g: Adj, u: nat, v: nat)
  {
    u < |g| && v in g[u]
  }

  /** p follows the edges of g. */
  ghost predicate IsPath(g: Adj, p: seq<nat>)
  {
    p != [] && forall i :: 0 <= i < |p| - 1 ==> Edge(g, p[i], p[i + 1])
  }

  ghost predicate HasCycle(g: Adj)
  {
    exists p :: IsPath(g, p) && |p| > 1 && p[0] == p[|p| - 1]
  }

  /** Every vertex once, and no edge from a vertex to one finished after it. */
  ghost predicate FinishOrder(g: Adj, done: seq<nat>)
  {
    && Distinct(done)
    && (forall v :: v in done ==> v < |g|)
    && (forall i, w :: 0 <= i < |done| && Edge(g, done[i], w) ==> w in done[..i])
  }

  /** A finish order of all vertices. */
  ghost predicate Complete(g: Adj, done: seq<nat>)
  {
    FinishOrder(g, done) && forall v: nat :: v in done <==> v < |g|
  }

  ghost predicate Distinct(s: seq<nat>)
  {
    forall i, j :: 0 <= i < j < |s| ==> s[i] != s[j]
  }

  ghost predicate Sized(g: Adj, s: Walk)
  {
    && |s.color| == |s.idx| == |g|
    && (forall v :: 0 <= v < |g| ==> s.idx[v] <= |g[v]|)
    && (forall i :: 0 <= i < |s.path| ==> s.path[i] < |g|)
  }

  /** Gray is on the path, black is finished, and a cursor moves only from white to black. */
  ghost predicate Colored(g: Adj, s: Walk)
    requires Sized(g, s)
  {
    && Distinct(s.path)
    && (forall v :: 0 <= v < |g| ==> (s.color[v] == Gray <==> v in s.path))
    && (forall v :: 0 <= v < |g| ==> (s.color[v] == Black <==> v in s.done))
    && (forall v :: 0 <= v < |g| && s.color[v] == White ==> s.idx[v] == 0)
    && (forall v :: 0 <= v < |g| && s.color[v] == Black ==> s.idx[v] == |g[v]|)
  }

  /** Each vertex of the path was last scanned from the one below it. */
  ghost predicate Chained(g: Adj, s: Walk)
    requires Sized(g, s)
  {
    forall i :: 0 <= i < |s.path| - 1 ==> s.idx[s.path[i]] > 0 && g[s.path[i]][s.idx[s.path[i]] - 1] == s.path[i + 1]
  }

  /** A scanned successor is black, unless it is the next vertex of the path. */
  ghost predicate Scanned(g: Adj, s: Walk)
    requires Sized(g, s) && Closed(g)
  {
    forall v, k :: 0 <= v < |g| && 0 <= k < s.idx[v] && s.color[g[v][k]] != Black ==>
      v in s.path && k == s.idx[v] - 1 && v != s.path[|s.path| - 1]
  }

  /** What every step of the search keeps. */
  ghost predicate Inv(g: Adj, s: Walk)
  {
    && Closed(g) && Sized(g, s)
    && Colored(g, s) && Chained(g, s) && Scanned(g, s)
    && FinishOrder(g, s.done)
  }

  ghost predicate Fresh(g: Adj, s: Walk)
  {
    && |s.color| == |s.idx| == |g| && s.path == [] && s.done == []
    && forall v :: 0 <= v < |g| ==> s.color[v] == White && s.idx[v] == 0
  }

  lemma FreshInv(g: Adj, s: Walk)
    requires Closed(g) && Fresh(g, s)
    ensures Inv(g, s)
  {
  }

  function Top(s: Walk): nat
    requires s.path != []
  {
    s.path[|s.path| - 1]
  }

  /** The root of a tree is painted and pushed. */
  function Begin(s: Walk, root: nat): Walk
    requires root < |s.color|
  {
    s.(color := s.color[root := Gray], path := s.path + [root])
  }

  /** The top of the path has no edge left to scan. */
  function Finish(s: Walk): Walk
    requires s.path != [] && Top(s) < |s.color|
  {
    s.(color := s.color[Top(s) := Black], path := s.path[..|s.path| - 1], done := s.done + [Top(s)])
  }

  /** The cursor of the top of the path moves past an edge. */
  function Advance(s: Walk): Walk
    requires s.path != [] && Top(s) < |s.idx|
  {
    s.(idx := s.idx[Top(s) := s.idx[Top(s)] + 1])
  }

  /** The successor the cursor of the top of the path is at. */
  function Next(g: Adj, s: Walk): nat
    requires s.path != [] && Top(s) < |g| && Top(s) < |s.idx| && s.idx[Top(s)] < |g[Top(s)]|
  {
    g[Top(s)][s.idx[Top(s)]]
  }

  lemma BeginKeeps(g: Adj, s: Walk, root: nat)
    requires Inv(g, s) && s.path == [] && root < |g| && s.color[root] == White
    ensures Inv(g, Begin(s, root))
  {
  }

  lemma FinishKeeps(g: Adj, s: Walk)
    requires Inv(g, s) && s.path != [] && s.idx[Top(s)] == |g[Top(s)]|
    ensures Inv(g, Finish(s))
  {
    hide Colored, Scanned, Chained, FinishOrder;
    FinishColored(g, s);
    FinishChained(g, s);
    FinishScanned(g, s);
    FinishOrdered(g, s);
  }

  lemma FinishChained(g: Adj, s: Walk)
    requires Inv(g, s) && s.path != []
    requires Sized(g, Finish(s))
    ensures Chained(g, Finish(s))
  {
    hide Colored, Scanned, FinishOrder;
    assert s.path == Finish(s).path + [Top(s)];
  }

  lemma FinishColored(g: Adj, s: Walk)
    requires Inv(g, s) && s.path != []
    requires s.idx[Top(s)] == |g[Top(s)]|
    ensures Sized(g, Finish(s)) && Colored(g, Finish(s))
  {
    var v, t := Top(s), Finish(s);
    assert s.path == t.path + [v];
    forall u: nat | u < |g|
      ensures t.color[u] == Gray <==> u in t.path
      ensures t.color[u] == Black <==> u in t.done
    {
      assert u in s.path <==> u in t.path || u == v;
    }
  }

  lemma LinkToTop(g: Adj, s: Walk)
    requires Inv(g, s) && s.path != []
    ensures |s.path| > 1 ==> var u := s.path[|s.path| - 2]; s.idx[u] > 0 && g[u][s.idx[u] - 1] == Top(s)
  {
  }

  lemma InPrefix(path: seq<nat>, v: nat, u: nat)
    requires u in path + [v] && u != v
    ensures u in path
  {
  }

  lemma FinishScanned(g: Adj, s: Walk)
    requires Inv(g, s) && s.path != []
    requires Sized(g, Finish(s))
    ensures Scanned(g, Finish(s))
  {
    hide Chained, FinishOrder;
    var v, t := Top(s), Finish(s);
    assert s.path == t.path + [v];
    LinkToTop(g, s);
    forall u, k | 0 <= u < |g| && 0 <= k < t.idx[u] && t.color[g[u][k]] != Black
      ensures u in t.path && k == t.idx[u] - 1 && u != t.path[|t.path| - 1]
    {
      assert s.color[g[u][k]] != Black;
      assert u in s.path && k == s.idx[u] - 1 && u != v;
      InPrefix(t.path, v, u);
    }
  }

  lemma FinishOrdered(g: Adj, s: Walk)
    requires Inv(g, s) && s.path != []
    requires s.idx[Top(s)] == |g[Top(s)]|
    ensures FinishOrder(g, Finish(s).done)
  {
    var v, done := Top(s), Finish(s).done;
    assert v in s.path && v !in s.done;
    forall i, w | 0 <= i < |done| && Edge(g, done[i], w)
      ensures w in done[..i]
    {
      if i < |s.done| {
        assert done[..i] == s.done[..i];
      } else {
        assert done[..i] == s.done;
        var k :| 0 <= k < |g[v]| && g[v][k] == w;
        assert s.color[g[v][k]] == Black;
      }
    }
  }

  /** A black successor is passed over. */
  lemma PassKeeps(g: Adj, s: Walk)
    requires Inv(g, s) && s.path != [] && s.idx[Top(s)] < |g[Top(s)]| && s.color[Next(g, s)] == Black
    ensures Inv(g, Advance(s))
  {
    AdvanceChained(g, s);
    assert Top(s) in s.path;
  }

  /** The links below the top do not involve the cursor that moves. */
  lemma AdvanceChained(g: Adj, s: Walk)
    requires Inv(g, s) && s.path != [] && s.idx[Top(s)] < |g[Top(s)]|
    ensures Sized(g, Advance(s)) && Chained(g, Advance(s))
  {
    assert Top(s) in s.path;
    forall i | 0 <= i < |s.path| - 1
      ensures s.path[i] != Top(s)
    {
    }
  }

  /** A white successor is entered. */
  lemma EnterKeeps(g: Adj, s: Walk)
    requires Inv(g, s) && s.path != [] && s.idx[Top(s)] < |g[Top(s)]| && s.color[Next(g, s)] == White
    ensures Inv(g, Begin(Advance(s), Next(g, s)))
  {
    hide Colored, Scanned, Chained, FinishOrder;
    EnterColored(g, s);
    EnterChained(g, s);
    EnterScanned(g, s);
  }

  lemma EnterChained(g: Adj, s: Walk)
    requires Inv(g, s) && s.path != [] && s.idx[Top(s)] < |g[Top(s)]| && s.color[Next(g, s)] == White
    requires Sized(g, Begin(Advance(s), Next(g, s)))
    ensures Chained(g, Begin(Advance(s), Next(g, s)))
  {
    hide Colored, Scanned, FinishOrder;
    AdvanceChained(g, s);
    var t := Begin(Advance(s), Next(g, s));
    forall i | 0 <= i < |t.path| - 1
      ensures t.idx[t.path[i]] > 0 && g[t.path[i]][t.idx[t.path[i]] - 1] == t.path[i + 1]
    {
      if i < |s.path| - 1 {
        assert t.path[i] == s.path[i] && t.path[i + 1] == s.path[i + 1];
      } else {
        assert t.path[i] == Top(s);
      }
    }
  }

  lemma EnterColored(g: Adj, s: Walk)
    requires Inv(g, s) && s.path != [] && s.idx[Top(s)] < |g[Top(s)]| && s.color[Next(g, s)] == White
    ensures Sized(g, Begin(Advance(s), Next(g, s))) && Colored(g, Begin(Advance(s), Next(g, s)))
  {
    var v, w := Top(s), Next(g, s);
    var t := Begin(Advance(s), w);
    assert v in s.path && w !in s.path;
    forall u: nat | u < |g|
      ensures t.color[u] == Gray <==> u in t.path
    {
      assert u in t.path <==> u in s.path || u == w;
    }
  }

  lemma EnterScanned(g: Adj, s: Walk)
    requires Inv(g, s) && s.path != [] && s.idx[Top(s)] < |g[Top(s)]| && s.color[Next(g, s)] == White
    requires Sized(g, Begin(Advance(s), Next(g, s)))
    ensures Scanned(g, Begin(Advance(s), Next(g, s)))
  {
    var v, w := Top(s), Next(g, s);
    var t := Begin(Advance(s), w);
    assert v in s.path && w !in s.path;
    forall u, k | 0 <= u < |g| && 0 <= k < t.idx[u] && t.color[g[u][k]] != Black
      ensures u in t.path && k == t.idx[u] - 1 && u != t.path[|t.path| - 1]
    {
      if u != v || k < s.idx[v] {
        assert s.color[g[u][k]] != Black;
        assert u in s.path;
      }
      assert u in t.path;
    }
  }

  /** A gray successor closes a cycle along the path. */
  lemma GrayClosesCycle(g: Adj, s: Walk)
    requires Inv(g, s) && s.path != [] && s.idx[Top(s)] < |g[Top(s)]| && s.color[Next(g, s)] == Gray
    ensures HasCycle(g)
  {
    hide Chained, Scanned, FinishOrder;
    var w := Next(g, s);
    assert w < |g| && w in s.path;
    var j: nat :| j < |s.path| && s.path[j] == w;
    var p: seq<nat> := s.path[j..] + [w];
    forall i: nat | i < |p| - 1
      ensures Edge(g, p[i], p[i + 1])
    {
      PathEdge(g, s, j + i);
    }
    assert IsPath(g, p);
  }

  /** The edge that leaves the i-th vertex of the path, or the one being scanned at its top. */
  lemma PathEdge(g: Adj, s: Walk, i: nat)
    requires Inv(g, s) && i < |s.path| && s.idx[Top(s)] < |g[Top(s)]|
    ensures Edge(g, s.path[i], if i + 1 < |s.path| then s.path[i + 1] else Next(g, s))
  {
  }

  /** Edges not yet scanned plus vertices not yet finished: one less with every step. */
  ghost function Work(g: Adj, s: Walk, n: nat): nat
    requires Sized(g, s) && n <= |g|
  {
    if n == 0 then 0
    else Work(g, s, n - 1) + (|g[n - 1]| - s.idx[n - 1]) + (if s.color[n - 1] == Black then 0 else 1)
  }

  /** The part of the work of vertex v that a step can change. */
  ghost function Pending(s: Walk, v: nat): int
    requires v < |s.idx| == |s.color|
  {
    var open: int := if s.color[v] == Black then 0 else 1;
    open - s.idx[v]
  }

  lemma {:induction false} WorkChange(g: Adj, s: Walk, t: Walk, v: nat, n: nat)
    requires Sized(g, s) && Sized(g, t) && n <= |g| && v < |g|
    requires forall u :: 0 <= u < |g| && u != v ==>
      t.idx[u] == s.idx[u] && (t.color[u] == Black <==> s.color[u] == Black)
    ensures Work(g, t, n) as int - Work(g, s, n) == if v < n then Pending(t, v) - Pending(s, v) else 0
  {
    if n == 0 {
    } else {
      WorkChange(g, s, t, v, n - 1);
    }
  }

  /** The next edge of the top of the path leads back into the path. */
  ghost predicate Blocked(g: Adj, s: Walk)
    requires Inv(g, s) && s.path != []
  {
    s.idx[Top(s)] < |g[Top(s)]| && s.color[Next(g, s)] == Gray
  }

  lemma TopSized(g: Adj, s: Walk)
    requires Inv(g, s) && s.path != []
    ensures Sized(g, s) && Top(s) < |g| == |s.idx| && s.idx[Top(s)] <= |g[Top(s)]|
  {
  }

  lemma NextInside(g: Adj, s: Walk)
    requires Inv(g, s) && s.path != [] && s.idx[Top(s)] < |g[Top(s)]|
    ensures Top(s) < |g| == |s.idx| == |s.color| && Next(g, s) < |g|
    ensures s.color[Top(s)] == Gray
  {
    assert s.path[|s.path| - 1] in s.path;
  }

  /** One turn of the search. */
  ghost function Step(g: Adj, s: Walk): Walk
    requires Inv(g, s) && s.path != [] && !Blocked(g, s)
  {
    if s.idx[Top(s)] == |g[Top(s)]| then Finish(s)
    else if s.color[Next(g, s)] == White then Begin(Advance(s), Next(g, s))
    else Advance(s)
  }

  /** A turn keeps the invariant, does one unit of work, and turns no vertex white. */
  lemma StepKeeps(g: Adj, s: Walk)
    requires Inv(g, s) && s.path != [] && !Blocked(g, s)
    ensures Inv(g, Step(g, s))
    ensures Work(g, Step(g, s), |g|) + 1 == Work(g, s, |g|)
    ensures Settled(s, Step(g, s))
  {
    hide Scanned, Chained, FinishOrder;
    var v, t := Top(s), Step(g, s);
    if s.idx[v] == |g[v]| {
      FinishKeeps(g, s);
      assert v in s.path && s.color[v] == Gray;
    } else if s.color[Next(g, s)] == White {
      EnterKeeps(g, s);
      assert v in s.path && s.color[v] == Gray;
    } else {
      PassKeeps(g, s);
    }
    WorkChange(g, s, t, v, |g|);
  }

  /** Vertices only leave white, and the finished ones stay in place. */
  ghost predicate Settled(s: Walk, t: Walk)
  {
    && |t.color| == |s.color|
    && (forall v :: 0 <= v < |s.color| && s.color[v] != White ==> t.color[v] != White)
  }

  /** All white or black with an empty path is how a tree ends; all black is how the search ends. */
  lemma AllDone(g: Adj, s: Walk)
    requires Inv(g, s) && s.path == [] && forall v :: 0 <= v < |g| ==> s.color[v] != White
    ensures Complete(g, s.done)
  {
    forall v: nat
      ensures v in s.done <==> v < |g|
    {
      if v < |g| {
        assert s.color[v] != Gray;
      }
    }
  }

  /** In a finish order every edge goes down, so no path comes back. */
  lemma {:induction false} PathDescends(g: Adj, done: seq<nat>, p: seq<nat>, i: nat, k: nat)
    requires FinishOrder(g, done) && IsPath(g, p)
    requires k < |p| && i < |done| && done[i] == p[0]
    ensures k == 0 ==> p[k] == done[i]
    ensures k > 0 ==> p[k] in done[..i]
  {
    if k > 0 {
      PathDescends(g, done, p, i, k - 1);
      if k > 1 {
        var j :| 0 <= j < i && done[j] == p[k - 1];
        assert Edge(g, done[j], p[k]);
        assert p[k] in done[..j];
      } else {
        assert Edge(g, done[i], p[k]);
      }
    }
  }

  lemma FinishOrderAcyclic(g: Adj, done: seq<nat>)
    requires Complete(g, done)
    ensures !HasCycle(g)
  {
    if HasCycle(g) {
      var p :| IsPath(g, p) && |p| > 1 && p[0] == p[|p| - 1];
      assert Edge(g, p[0], p[1]);
      assert p[0] in done;
      var i :| 0 <= i < |done| && done[i] == p[0];
      PathDescends(g, done, p, i, |p| - 1);
      assert false;
    }
  }

  /** Distinct positions below n are at most n. */
  lemma DistinctBound(s: seq<nat>, n: nat)
    requires Distinct(s) && forall i :: 0 <= i < |s| ==> s[i] < n
    ensures |s| <= n
  {
    var below, members := Below(n), Members(s);
    MembersOf(s);
    assert members <= below;
    assert below == members + (below - members);
  }

  ghost function Members(s: seq<nat>): set<int>
  {
    if s == [] then {} else Members(s[..|s| - 1]) + {s[|s| - 1]}
  }

  lemma {:induction false} MembersOf(s: seq<nat>)
    requires Distinct(s)
    ensures |Members(s)| == |s|
    ensures forall x :: x in Members(s) ==> exists i :: 0 <= i < |s| && s[i] == x
  {
    if s == [] {
    } else {
      var p := s[..|s| - 1];
      MembersOf(p);
      forall x | x in Members(p)
        ensures x != s[|s| - 1] && exists i :: 0 <= i < |s| && s[i] == x
      {
        var i :| 0 <= i < |p| && p[i] == x;
        assert s[i] == x;
      }
    }
  }

  ghost function Below(n: nat): (r: set<int>)
    ensures |r| == n && forall x :: x in r <==> 0 <= x < n
  {
    if n == 0 then {} else Below(n - 1) + {n - 1}
  }
}
