/** The growable stack used for the walk of the graph, for the topological order and for the crawl. */
module Stack {

  const STACK_INIT_SZ: nat := 40

  class Stack<T(0)> {
    var st: array<T>
    var nr: nat

    ghost predicate Valid()
      reads this
    {
      nr <= st.Length && st.Length > 0
    }

    /** Bottom first. */
    ghost function Contents(): (s: seq<T>)
      requires Valid()
      reads this, st
      ensures |s| == nr
    {
      st[..nr]
    }

    constructor ()
      ensures Valid() && fresh(st) && Contents() == []
    {
      st := new T[STACK_INIT_SZ];
      nr := 0;
    }

    predicate Empty()
      requires Valid()
      reads this, st
      ensures Empty() <==> Contents() == []
    {
      nr <= 0
    }

    method Grow()
      requires Valid()
      modifies this`st
      ensures Valid() && fresh(st) && st.Length == 2 * old(st.Length) && Contents() == old(Contents())
    {
      var newSize := st.Length * 2;
      ghost var contents := Contents();
      var wider := new T[newSize];
      forall i | 0 <= i < nr {
        wider[i] := st[i];
      }
      st := wider;
      assert Contents() == contents;
    }

    method Push(data: T)
      requires Valid()
      modifies this, st
      ensures Valid() && (st == old(st) || fresh(st))
      ensures Contents() == old(Contents()) + [data]
    {
      if nr >= st.Length {
        Grow();
      }
      st[nr] := data;
      nr := nr + 1;
    }

    /** The caller must make sure that the stack is not empty: the source's guard tests its capacity. */
    method Pop() returns (data: T)
      requires Valid() && Contents() != []
      modifies this`nr
      ensures Valid() && Contents() == old(Contents())[..old(nr) - 1] && data == old(Contents())[old(nr) - 1]
    {
      nr := nr - 1;
      data := st[nr];
    }

    /** The top; what the caller had before, on an empty stack. */
    method Peek(was: T) returns (data: T)
      requires Valid()
      ensures data == if Contents() == [] then was else Contents()[nr - 1]
    {
      if nr <= 0 {
        return was;
      }
      data := st[nr - 1];
    }

    method Reset()
      requires Valid()
      modifies this`nr
      ensures Valid() && Contents() == []
    {
      nr := 0;
    }
  }
}
