/** The ordered tree of values kept for one key: nodes linked in place by insertion, walked in order by
    search. */
module SearchTree {
  import opened Probing

  /** What the caller's comparator must be: a total order that is zero on equal values only. */
  ghost predicate TotalOrder<T(!new)>(cmp: (T, T) -> int)
  {
    && (forall a, b :: cmp(a, b) == 0 <==> a == b)
    && (forall a, b :: cmp(a, b) < 0 <==> cmp(b, a) > 0)
    && (forall a, b, c :: cmp(a, b) < 0 && cmp(b, c) < 0 ==> cmp(a, c) < 0)
  }

  ghost predicate Ascending<T>(cmp: (T, T) -> int, s: seq<T>)
  {
    forall i, j :: 0 <= i < j < |s| ==> cmp(s[i], s[j]) < 0
  }

  /** The ascending sequence s with x put in its place, unless it is there already. */
  function SortedInsert<T>(cmp: (T, T) -> int, s: seq<T>, x: T): seq<T>
  {
    if s == [] then [x]
    else if cmp(x, s[0]) < 0 then [x] + s
    else if cmp(x, s[0]) == 0 then s
    else [s[0]] + SortedInsert(cmp, s[1..], x)
  }

  /** The first value f accepts. */
  function FirstSome<T, R>(s: seq<T>, f: T -> Option<R>): Option<R>
  {
    if s == [] then None
    else if f(s[0]).Some? then f(s[0])
    else FirstSome(s[1..], f)
  }

  lemma ConsAscending<T>(cmp: (T, T) -> int, h: T, s: seq<T>)
    requires Ascending(cmp, s) && forall y :: y in s ==> cmp(h, y) < 0
    ensures Ascending(cmp, [h] + s)
  {
  }

  lemma {:induction false} SortedInsertMembers<T(!new)>(cmp: (T, T) -> int, s: seq<T>, x: T, y: T)
    requires forall a, b :: cmp(a, b) == 0 <==> a == b
    ensures y in SortedInsert(cmp, s, x) <==> y in s || y == x
  {
    if s != [] && cmp(x, s[0]) > 0 {
      SortedInsertMembers(cmp, s[1..], x, y);
      assert s == [s[0]] + s[1..];
    }
  }

  lemma {:induction false} SortedInsertAscends<T(!new)>(cmp: (T, T) -> int, s: seq<T>, x: T)
    requires TotalOrder(cmp) && Ascending(cmp, s)
    ensures Ascending(cmp, SortedInsert(cmp, s, x))
  {
    if s != [] && cmp(x, s[0]) > 0 {
      SortedInsertAscends(cmp, s[1..], x);
      var t := SortedInsert(cmp, s[1..], x);
      forall y | y in t
        ensures cmp(s[0], y) < 0
      {
        SortedInsertMembers(cmp, s[1..], x, y);
        if y != x {
          TailMembers(cmp, s, y);
          HeadIsLeast(cmp, s, y);
        }
      }
      ConsAscending(cmp, s[0], t);
    } else if s != [] && cmp(x, s[0]) < 0 {
      forall y | y in s
        ensures cmp(x, y) < 0
      {
        HeadIsLeast(cmp, s, y);
      }
      ConsAscending(cmp, x, s);
    }
  }

  /** Ascending sequences with the same members are the same sequence: the order of insertion is lost. */
  lemma {:induction false} AscendingUnique<T(!new)>(cmp: (T, T) -> int, s: seq<T>, t: seq<T>)
    requires TotalOrder(cmp) && Ascending(cmp, s) && Ascending(cmp, t)
    requires forall y :: y in s <==> y in t
    ensures s == t
  {
    if s == [] {
      HasMember(t);
    } else {
      assert s[0] in s;
      assert s[0] in t;
      assert t[0] in t;
      assert t[0] in s;
      HeadIsLeast(cmp, s, t[0]);
      HeadIsLeast(cmp, t, s[0]);
      assert s[0] == t[0];
      forall y
        ensures y in s[1..] <==> y in t[1..]
      {
        TailMembers(cmp, s, y);
        TailMembers(cmp, t, y);
      }
      AscendingUnique(cmp, s[1..], t[1..]);
      assert s == [s[0]] + s[1..] && t == [t[0]] + t[1..];
    }
  }

  lemma HasMember<T>(t: seq<T>)
    ensures t != [] ==> exists y :: y in t
  {
    if t != [] {
      assert t[0] in t;
    }
  }

  lemma HeadIsLeast<T(!new)>(cmp: (T, T) -> int, s: seq<T>, y: T)
    requires TotalOrder(cmp) && Ascending(cmp, s) && y in s
    ensures cmp(s[0], y) <= 0
  {
    var j :| 0 <= j < |s| && s[j] == y;
    if j > 0 {
      assert cmp(s[0], s[j]) < 0;
    }
  }

  lemma TailMembers<T(!new)>(cmp: (T, T) -> int, s: seq<T>, y: T)
    requires TotalOrder(cmp) && Ascending(cmp, s) && s != []
    ensures y in s[1..] <==> y in s && y != s[0]
  {
    if y in s[1..] {
      var j :| 0 <= j < |s| - 1 && s[1..][j] == y;
      assert s[j + 1] == y;
      assert cmp(s[0], s[j + 1]) < 0;
    }
    if y in s && y != s[0] {
      var j :| 0 <= j < |s| && s[j] == y;
      assert s[1..][j - 1] == y;
    }
  }

  /** y is the least value of s that f accepts, and r what f gives for it. */
  ghost predicate LeastAccepted<T, R>(cmp: (T, T) -> int, s: seq<T>, f: T -> Option<R>, y: T, r: Option<R>)
  {
    y in s && r.Some? && f(y) == r && forall z :: z in s && f(z).Some? ==> cmp(y, z) <= 0
  }

  /** The in-order search finds the least accepted value, or shows that none is accepted. */
  lemma {:induction false} FirstSomeIsLeast<T(!new), R>(cmp: (T, T) -> int, s: seq<T>, f: T -> Option<R>)
    requires TotalOrder(cmp) && Ascending(cmp, s)
    ensures FirstSome(s, f).None? <==> forall y :: y in s ==> f(y).None?
    ensures FirstSome(s, f).Some? ==> exists y :: LeastAccepted(cmp, s, f, y, FirstSome(s, f))
  {
    if s != [] {
      assert s == [s[0]] + s[1..];
      if f(s[0]).Some? {
        assert s[0] in s;
        forall z | z in s && f(z).Some?
          ensures cmp(s[0], z) <= 0
        {
          HeadIsLeast(cmp, s, z);
        }
        assert LeastAccepted(cmp, s, f, s[0], FirstSome(s, f));
      } else {
        FirstSomeIsLeast(cmp, s[1..], f);
        if FirstSome(s[1..], f).Some? {
          var y :| LeastAccepted(cmp, s[1..], f, y, FirstSome(s[1..], f));
          LeastOfTail(cmp, s, f, y);
        }
      }
    }
  }

  lemma LeastOfTail<T(!new), R>(cmp: (T, T) -> int, s: seq<T>, f: T -> Option<R>, y: T)
    requires s != [] && f(s[0]).None?
    requires LeastAccepted(cmp, s[1..], f, y, FirstSome(s[1..], f))
    ensures LeastAccepted(cmp, s, f, y, FirstSome(s, f))
  {
    assert s == [s[0]] + s[1..];
  }

  lemma {:induction false} FirstSomeConcat<T, R>(a: seq<T>, b: seq<T>, f: T -> Option<R>)
    ensures FirstSome(a + b, f) == if FirstSome(a, f).Some? then FirstSome(a, f) else FirstSome(b, f)
  {
    if a == [] {
      assert a + b == b;
    } else {
      FirstSomeConcat(a[1..], b, f);
      assert (a + b)[1..] == a[1..] + b;
    }
  }

  class Node<T(!new)> {
    const val: T
    var left: Node?<T>
    var right: Node?<T>
    // The tree that allocated the node: no two trees share one.
    ghost const owner: Tree<T>

    constructor (val: T, ghost owner: Tree<T>)
      ensures this.val == val && left == null && right == null && this.owner == owner
    {
      this.val := val;
      left, right := null, null;
      this.owner := owner;
    }
  }

  // The nodes of a tree as they hang together.
  datatype Shape<T(!new)> = Nil | Branch(left: Shape<T>, node: Node<T>, right: Shape<T>)

  ghost function Nodes<T(!new)>(s: Shape<T>): set<Node<T>>
  {
    match s
    case Nil => {}
    case Branch(l, n, r) => Nodes(l) + {n} + Nodes(r)
  }

  ghost function InOrder<T(!new)>(s: Shape<T>): seq<T>
  {
    match s
    case Nil => []
    case Branch(l, n, r) => InOrder(l) + [n.val] + InOrder(r)
  }

  ghost function Top<T(!new)>(s: Shape<T>): Node?<T>
  {
    if s.Nil? then null else s.node
  }

  /** The links each node of s should have. */
  ghost function Kids<T(!new)>(s: Shape<T>): Links<T>
    ensures Kids(s).Keys == Nodes(s)
  {
    match s
    case Nil => map[]
    case Branch(l, o, r) => (Kids(l) + Kids(r))[o := (Top(l), Top(r))]
  }

  // The two children of each node.
  type Links<T(!new)> = map<Node<T>, (Node?<T>, Node?<T>)>

  /** The heap links the nodes as kids says. */
  ghost predicate LinkedTo<T(!new)>(kids: Links<T>)
    reads kids.Keys
  {
    forall o :: o in kids ==> o.left == kids[o].0 && o.right == kids[o].1
  }

  /** The nodes of s are linked in the heap as s says. */
  ghost predicate Linked<T(!new)>(s: Shape<T>)
    reads Nodes(s)
  {
    LinkedTo(Kids(s))
  }

  /** No node is reached twice. */
  ghost predicate Separate<T(!new)>(s: Shape<T>)
  {
    match s
    case Nil => true
    case Branch(l, o, r) =>
      && o !in Nodes(l) && o !in Nodes(r) && Nodes(l) !! Nodes(r)
      && Separate(l) && Separate(r)
  }

  /** s with node hung where the search for x falls off the tree. */
  ghost function Graft<T(!new)>(cmp: (T, T) -> int, s: Shape<T>, x: T, node: Node<T>): Shape<T>
  {
    match s
    case Nil => Branch(Nil, node, Nil)
    case Branch(l, o, r) =>
      if cmp(x, o.val) == 0 then s
      else if cmp(x, o.val) < 0 then Branch(Graft(cmp, l, x, node), o, r)
      else Branch(l, o, Graft(cmp, r, x, node))
  }

  /** Where that is: the parent, and whether on its left. p and d are the answer for an empty tree. */
  ghost function Spot<T(!new)>(cmp: (T, T) -> int, s: Shape<T>, x: T, p: Node?<T>, d: bool): Option<(Node?<T>, bool)>
  {
    match s
    case Nil => Some((p, d))
    case Branch(l, o, r) =>
      if cmp(x, o.val) == 0 then None
      else if cmp(x, o.val) < 0 then Spot(cmp, l, x, o, true)
      else Spot(cmp, r, x, o, false)
  }

  lemma {:induction false} GraftNodes<T(!new)>(cmp: (T, T) -> int, s: Shape<T>, x: T, node: Node<T>)
    requires Separate(s) && node !in Nodes(s)
    ensures Separate(Graft(cmp, s, x, node)) && Nodes(Graft(cmp, s, x, node)) <= Nodes(s) + {node}
  {
    match s
    case Nil =>
    case Branch(l, o, r) =>
      GraftNodes(cmp, l, x, node);
      GraftNodes(cmp, r, x, node);
  }

  lemma {:induction false} SortedInsertLeft<T(!new)>(cmp: (T, T) -> int, a: seq<T>, v: T, b: seq<T>, x: T)
    requires cmp(x, v) < 0
    ensures SortedInsert(cmp, a + [v] + b, x) == SortedInsert(cmp, a, x) + [v] + b
  {
    if a == [] {
      assert a + [v] + b == [v] + b;
      assert SortedInsert(cmp, a, x) + [v] + b == [x] + ([v] + b);
    } else {
      assert (a + [v] + b)[1..] == a[1..] + [v] + b;
      SortedInsertLeft(cmp, a[1..], v, b, x);
      if cmp(x, a[0]) < 0 {
        assert [x] + (a + [v] + b) == ([x] + a) + [v] + b;
      } else if cmp(x, a[0]) > 0 {
        assert [a[0]] + (SortedInsert(cmp, a[1..], x) + [v] + b)
            == ([a[0]] + SortedInsert(cmp, a[1..], x)) + [v] + b;
      }
    }
  }

  lemma {:induction false} SortedInsertRight<T(!new)>(cmp: (T, T) -> int, a: seq<T>, b: seq<T>, x: T)
    requires forall y :: y in a ==> cmp(x, y) > 0
    ensures SortedInsert(cmp, a + b, x) == a + SortedInsert(cmp, b, x)
  {
    if a == [] {
      assert a + b == b;
    } else {
      assert a[0] in a;
      assert (a + b)[1..] == a[1..] + b;
      SortedInsertRight(cmp, a[1..], b, x);
    }
  }

  lemma {:induction false} SortedInsertPresent<T(!new)>(cmp: (T, T) -> int, s: seq<T>, x: T)
    requires TotalOrder(cmp) && Ascending(cmp, s) && x in s
    ensures SortedInsert(cmp, s, x) == s
  {
    SortedInsertAscends(cmp, s, x);
    forall y: T
      ensures y in SortedInsert(cmp, s, x) <==> y in s
    {
      SortedInsertMembers(cmp, s, x, y);
    }
    AscendingUnique(cmp, SortedInsert(cmp, s, x), s);
  }

  lemma AscendingParts<T(!new)>(cmp: (T, T) -> int, a: seq<T>, v: T, b: seq<T>)
    requires TotalOrder(cmp) && Ascending(cmp, a + [v] + b)
    ensures Ascending(cmp, a) && Ascending(cmp, b)
    ensures forall y :: y in a ==> cmp(y, v) < 0
  {
    var s := a + [v] + b;
    assert forall i :: 0 <= i < |a| ==> s[i] == a[i];
    assert forall i :: 0 <= i < |b| ==> s[|a| + 1 + i] == b[i];
    assert s[|a|] == v;
  }

  /** Grafting a new value into an ordered tree puts it at its place in the order. */
  lemma {:induction false} GraftInOrder<T(!new)>(cmp: (T, T) -> int, s: Shape<T>, x: T, node: Node<T>)
    requires TotalOrder(cmp) && Ascending(cmp, InOrder(s)) && node.val == x
    ensures InOrder(Graft(cmp, s, x, node)) == SortedInsert(cmp, InOrder(s), x)
  {
    match s
    case Nil =>
    case Branch(l, o, r) =>
      AscendingParts(cmp, InOrder(l), o.val, InOrder(r));
      if cmp(x, o.val) == 0 {
        SortedInsertPresent(cmp, InOrder(s), x);
      } else if cmp(x, o.val) < 0 {
        GraftInOrder(cmp, l, x, node);
        SortedInsertLeft(cmp, InOrder(l), o.val, InOrder(r), x);
      } else {
        GraftInOrder(cmp, r, x, node);
        SortedInsertRight(cmp, InOrder(l) + [o.val], InOrder(r), x);
      }
  }

  lemma {:induction false} SpotInside<T(!new)>(cmp: (T, T) -> int, s: Shape<T>, x: T, p: Node?<T>, d: bool)
    requires s.Branch? && Spot(cmp, s, x, p, d).Some?
    ensures Spot(cmp, s, x, p, d).value.0 in Nodes(s)
  {
    if cmp(x, s.node.val) < 0 {
      if s.left.Branch? {
        SpotInside(cmp, s.left, x, s.node, true);
      }
    } else if s.right.Branch? {
      SpotInside(cmp, s.right, x, s.node, false);
    }
  }

  lemma LinkedParts<T(!new)>(s: Shape<T>)
    requires s.Branch? && Separate(s) && Linked(s)
    ensures Linked(s.left) && Linked(s.right)
    ensures s.node.left == Top(s.left) && s.node.right == Top(s.right)
  {
    assert s.node in Nodes(s);
    forall o | o in Nodes(s.left)
      ensures Kids(s)[o] == Kids(s.left)[o] && o in Nodes(s)
    {
    }
    forall o | o in Nodes(s.right)
      ensures Kids(s)[o] == Kids(s.right)[o] && o in Nodes(s)
    {
    }
  }

  lemma UpdateBefore<A, B>(a: map<A, B>, b: map<A, B>, o: A, v: B, n: A, nv: B, p: A, pv: B)
    requires n !in b && p !in b && n != o && p != o
    ensures (a[n := nv][p := pv] + b)[o := v] == (a + b)[o := v][n := nv][p := pv]
  {
  }

  lemma UpdateAfter<A, B>(a: map<A, B>, b: map<A, B>, o: A, v: B, n: A, nv: B, p: A, pv: B)
    requires n != o && p != o
    ensures (a + b[n := nv][p := pv])[o := v] == (a + b)[o := v][n := nv][p := pv]
  {
  }

  /** The links after hanging node under p, on its left if d. */
  ghost function Relinked<T(!new)>(kids: Links<T>, p: Node?<T>, d: bool, node: Node<T>): Links<T>
    requires p in kids
  {
    kids[node := (null, null)][p := if d then (node, kids[p].1) else (kids[p].0, node)]
  }

  /** Hanging a node changes one link of one node. */
  lemma {:induction false} GraftKids<T(!new)>(cmp: (T, T) -> int, s: Shape<T>, x: T, q: Node?<T>, e: bool,
                                           node: Node<T>)
    requires Separate(s) && s.Branch? && node !in Nodes(s) && Spot(cmp, s, x, q, e).Some?
    ensures var (p, d) := Spot(cmp, s, x, q, e).value;
      p in Nodes(s) && Kids(Graft(cmp, s, x, node)) == Relinked(Kids(s), p, d, node)
    decreases s, 1
  {
    SpotInside(cmp, s, x, q, e);
    if cmp(x, s.node.val) < 0 {
      GraftKidsLeft(cmp, s, x, node);
    } else {
      GraftKidsRight(cmp, s, x, node);
    }
  }

  lemma {:induction false} GraftKidsLeft<T(!new)>(cmp: (T, T) -> int, s: Shape<T>, x: T, node: Node<T>)
    requires Separate(s) && s.Branch? && node !in Nodes(s) && Spot(cmp, s.left, x, s.node, true).Some?
    requires cmp(x, s.node.val) < 0
    ensures var (p, d) := Spot(cmp, s.left, x, s.node, true).value;
      p in Nodes(s) && Kids(Graft(cmp, s, x, node)) == Relinked(Kids(s), p, d, node)
    decreases s, 0
  {
    var l, o, r := s.left, s.node, s.right;
    if l.Branch? {
      var (p, d) := Spot(cmp, l, x, o, true).value;
      GraftKids(cmp, l, x, o, true, node);
      var k := Kids(l);
      UpdateBefore(k, Kids(r), o, (Top(l), Top(r)), node, (null, null), p,
                   if d then (node, k[p].1) else (k[p].0, node));
    }
  }

  lemma {:induction false} GraftKidsRight<T(!new)>(cmp: (T, T) -> int, s: Shape<T>, x: T, node: Node<T>)
    requires Separate(s) && s.Branch? && node !in Nodes(s) && Spot(cmp, s.right, x, s.node, false).Some?
    requires cmp(x, s.node.val) > 0
    ensures var (p, d) := Spot(cmp, s.right, x, s.node, false).value;
      p in Nodes(s) && Kids(Graft(cmp, s, x, node)) == Relinked(Kids(s), p, d, node)
    decreases s, 0
  {
    var l, o, r := s.left, s.node, s.right;
    if r.Branch? {
      var (p, d) := Spot(cmp, r, x, o, false).value;
      GraftKids(cmp, r, x, o, false, node);
      var k := Kids(r);
      UpdateAfter(Kids(l), k, o, (Top(l), Top(r)), node, (null, null), p,
                  if d then (node, k[p].1) else (k[p].0, node));
    }
  }

  /** A tree apart from the heap: its shape, the links its nodes should have, its top. */
  ghost predicate Proper<T(!new)>(cmp: (T, T) -> int, s: Shape<T>, kids: Links<T>, root: Node?<T>)
  {
    && TotalOrder(cmp)
    && Separate(s) && Ascending(cmp, InOrder(s))
    && kids == Kids(s) && root == Top(s)
  }

  lemma GraftProper<T(!new)>(cmp: (T, T) -> int, s: Shape<T>, kids: Links<T>, root: Node?<T>,
                             x: T, node: Node<T>, p: Node<T>, d: bool) returns (t: Shape<T>, links: Links<T>)
    requires Proper(cmp, s, kids, root) && s.Branch?
    requires node.val == x && node !in kids && Spot(cmp, s, x, null, true) == Some((p, d))
    ensures p in kids && links == Relinked(kids, p, d, node) && links.Keys == kids.Keys + {node}
    ensures Proper(cmp, t, links, root)
    ensures InOrder(t) == SortedInsert(cmp, InOrder(s), x)
  {
    t, links := Graft(cmp, s, x, node), Kids(Graft(cmp, s, x, node));
    GraftKids(cmp, s, x, null, true, node);
    GraftNodes(cmp, s, x, node);
    GraftInOrder(cmp, s, x, node);
    SortedInsertAscends(cmp, InOrder(s), x);
  }

  class Tree<T(!new)> {
    const key: T
    const cmp: (T, T) -> int
    var root: Node?<T>
    ghost var shape: Shape<T>
    ghost var nodes: set<Node<T>>
    ghost var kids: Links<T>

    ghost predicate Valid()
      reads this, nodes
    {
      && Proper(cmp, shape, kids, root)
      && nodes == kids.Keys && (forall o :: o in nodes ==> o.owner == this)
      && LinkedTo(kids)
    }

    constructor (key: T, cmp: (T, T) -> int)
      requires TotalOrder(cmp)
      ensures Valid() && this.key == key && this.cmp == cmp && shape == Nil && nodes == {}
    {
      this.key, this.cmp := key, cmp;
      root := null;
      shape, nodes, kids := Nil, {}, map[];
    }

    /** The walk down from the root: it meets x, or falls off the tree below parent. */
    method Descend(x: T) returns (found: bool, parent: Node?<T>, isLeft: bool)
      requires Valid() && root != null
      ensures found ==> x in InOrder(shape)
      ensures !found ==> Spot(cmp, shape, x, null, true) == Some((parent, isLeft))
    {
      var cur: Node?<T> := root;
      parent, isLeft := null, true;
      ghost var sub := shape;
      while cur != null
        invariant cur == Top(sub) && Separate(sub)
        invariant Nodes(sub) <= nodes && Linked(sub)
        invariant Spot(cmp, shape, x, null, true) == Spot(cmp, sub, x, parent, isLeft)
        invariant forall y :: y in InOrder(sub) ==> y in InOrder(shape)
        decreases sub
      {
        LinkedParts(sub);
        parent := cur;
        var res := cmp(x, cur.val);
        if res == 0 {
          return true, parent, isLeft;
        } else if res < 0 {
          cur := cur.left;
          sub := sub.left;
          isLeft := true;
        } else {
          cur := cur.right;
          sub := sub.right;
          isLeft := false;
        }
      }
      found := false;
    }

    static method SetChild(parent: Node<T>, isLeft: bool, node: Node<T>, ghost kids: Links<T>)
      requires LinkedTo(kids) && parent in kids && node !in kids
      requires node.left == null && node.right == null
      modifies parent
      ensures LinkedTo(Relinked(kids, parent, isLeft, node))
    {
      if isLeft {
        parent.left := node;
      } else {
        parent.right := node;
      }
    }

    /** Hangs a new node for x below parent. */
    method Hang(x: T, parent: Node<T>, isLeft: bool)
      requires Valid() && root != null && Spot(cmp, shape, x, null, true) == Some((parent, isLeft))
      modifies this, nodes
      ensures Valid() && fresh(nodes - old(nodes))
      ensures InOrder(shape) == SortedInsert(cmp, old(InOrder(shape)), x)
    {
      hide Proper, SortedInsert, InOrder;
      var node := new Node(x, this);
      ghost var t, links := GraftProper(cmp, shape, kids, root, x, node, parent, isLeft);
      SetChild(parent, isLeft, node, kids);
      shape, kids, nodes := t, links, nodes + {node};
    }

    /** Adds x to the tree, unless it is there. */
    method Insert(x: T)
      requires Valid()
      modifies this, nodes
      ensures Valid() && fresh(nodes - old(nodes))
      ensures InOrder(shape) == SortedInsert(cmp, old(InOrder(shape)), x)
    {
      if root == null {
        root := new Node(x, this);
        shape, nodes, kids := Branch(Nil, root, Nil), {root}, map[root := (null, null)];
        return;
      }
      var found, parent, isLeft := Descend(x);
      if found {
        SortedInsertPresent(cmp, InOrder(shape), x);
      } else {
        SpotInside(cmp, shape, x, null, true);
        Hang(x, parent, isLeft);
      }
    }

    /** The in-order walk that stops at the first value f accepts. */
    function Search<R>(f: T -> Option<R>): (r: Option<R>)
      requires Valid()
      reads this, nodes
      ensures r == FirstSome(InOrder(shape), f)
    {
      NodeSearch(root, shape, f)
    }
  }

  function NodeSearch<T(!new), R>(n: Node?<T>, ghost s: Shape<T>, f: T -> Option<R>): (r: Option<R>)
    requires n == Top(s) && Separate(s) && Linked(s)
    reads Nodes(s)
    ensures r == FirstSome(InOrder(s), f)
    decreases s
  {
    if n == null then None
    else
      LinkedParts(s);
      FirstSomeConcat(InOrder(s.left) + [n.val], InOrder(s.right), f);
      FirstSomeConcat(InOrder(s.left), [n.val], f);
      var left := NodeSearch(n.left, s.left, f);
      if left.Some? then left
      else
        var here := f(n.val);
        if here.Some? then here
        else NodeSearch(n.right, s.right, f)
  }
}
