/** lib/kernel/list.c: the doubly linked list with two sentinels that every queue is made of. */
module List {

  class Elem {
    var prev: Elem?
    var next: Elem?

    constructor () {
      prev, next := null, null;
    }
  }

  ghost predicate Distinct(c: seq<Elem>) {
    forall i, j :: 0 <= i < j < |c| ==> c[i] != c[j]
  }

  /** Neighbours in the chain point at each other. */
  ghost predicate Linked(c: seq<Elem>)
    reads c
  {
    forall i :: 0 <= i < |c| - 1 ==> c[i].next == c[i + 1] && c[i + 1].prev == c[i]
  }

  /** Links that nobody wrote to still point at each other. */
  twostate lemma StillLinked(c: seq<Elem>)
    requires old(Linked(c)) && forall e :: e in c ==> unchanged(e)
    ensures Linked(c)
  {
    forall i | 0 <= i < |c| - 1 ensures c[i].next == c[i + 1] && c[i + 1].prev == c[i] {
      assert c[i] in c && c[i + 1] in c;
    }
  }

  ghost function Inserted(c: seq<Elem>, k: nat, e: Elem): seq<Elem>
    requires k <= |c|
  {
    c[..k] + [e] + c[k..]
  }

  ghost function Removed(c: seq<Elem>, k: nat): seq<Elem>
    requires k < |c|
  {
    c[..k] + c[k + 1..]
  }

  lemma InsertedDistinct(c: seq<Elem>, k: nat, e: Elem)
    requires Distinct(c) && k <= |c| && e !in c
    ensures Distinct(Inserted(c, k, e))
  {
    var d := Inserted(c, k, e);
    forall i, j | 0 <= i < j < |d| ensures d[i] != d[j] {
      var i' := if i < k then i else i - 1;
      var j' := if j < k then j else j - 1;
      assert i == k || d[i] == c[i'];
      assert j == k || d[j] == c[j'];
    }
  }

  lemma RemovedDistinct(c: seq<Elem>, k: nat)
    requires Distinct(c) && k < |c|
    ensures Distinct(Removed(c, k))
  {
  }

  /** list_remove undoes list_insert_before. */
  lemma RemoveUndoesInsert(c: seq<Elem>, k: nat, e: Elem)
    requires k <= |c|
    ensures Removed(Inserted(c, k, e), k) == c
  {
    assert Inserted(c, k, e)[..k] == c[..k];
    assert Inserted(c, k, e)[k + 1..] == c[k..];
  }

  /** `elems` is the abstract value: the elements from head.next to tail.prev. */
  class Queue {
    const head: Elem
    const tail: Elem
    ghost var elems: seq<Elem>

    ghost function Chain(): seq<Elem>
      reads this
    {
      [head] + elems + [tail]
    }

    ghost predicate Valid()
      reads this, Chain()
    {
      Distinct(Chain()) && Linked(Chain())
    }

    constructor ()
      ensures Valid() && fresh(head) && fresh(tail)
      ensures elems == []
    {
      var h := new Elem();
      var t := new Elem();
      h.next := t;
      t.prev := h;
      head, tail := h, t;
      elems := [];
    }

    /** `k` is the position of `before` in the chain. */
    method InsertBefore(before: Elem, elem: Elem, ghost k: nat)
      requires Valid() && k <= |elems| && before == Chain()[k + 1]
      requires elem !in Chain()
      modifies this, Chain(), elem
      ensures Valid() && elems == Inserted(old(elems), k, elem)
    {
      ghost var c := Chain();
      assert c[k].next == c[k + 1];
      ghost var d := Inserted(c, k + 1, elem);
      InsertedDistinct(c, k + 1, elem);
      before.prev.next := elem;
      elem.prev := before.prev;
      elem.next := before;
      before.prev := elem;
      elems := Inserted(elems, k, elem);
      assert Chain() == d;
      forall i | 0 <= i < |d| - 1 ensures d[i].next == d[i + 1] && d[i + 1].prev == d[i] {
        if i < k {
          assert d[i] == c[i] && d[i + 1] == c[i + 1];
        } else if i > k + 1 {
          assert d[i] == c[i - 1] && d[i + 1] == c[i];
        }
      }
    }

    method Push(elem: Elem)
      requires Valid() && elem !in Chain()
      modifies this, Chain(), elem
      ensures Valid() && elems == [elem] + old(elems)
    {
      assert Chain()[0].next == Chain()[1];
      InsertBefore(head.next, elem, 0);
    }

    method Append(elem: Elem)
      requires Valid() && elem !in Chain()
      modifies this, Chain(), elem
      ensures Valid() && elems == old(elems) + [elem]
    {
      InsertBefore(tail, elem, |elems|);
    }

    /** `k` is the position of `elem`. */
    method Remove(elem: Elem, ghost k: nat)
      requires Valid() && k < |elems| && elem == elems[k]
      modifies this, Chain()
      ensures Valid() && elems == Removed(old(elems), k)
    {
      ghost var c := Chain();
      assert c[k].next == c[k + 1] == elem && c[k + 1].next == c[k + 2];
      ghost var d := Removed(c, k + 1);
      RemovedDistinct(c, k + 1);
      elem.prev.next := elem.next;
      elem.next.prev := elem.prev;
      elems := Removed(elems, k);
      assert Chain() == d;
      forall i | 0 <= i < |d| - 1 ensures d[i].next == d[i + 1] && d[i + 1].prev == d[i] {
        if i < k {
          assert d[i] == c[i] && d[i + 1] == c[i + 1];
        } else if i > k {
          assert d[i] == c[i + 1] && d[i + 1] == c[i + 2];
        }
      }
    }

    method Pop() returns (elem: Elem)
      requires Valid() && elems != []
      modifies this, Chain()
      ensures Valid() && [elem] + elems == old(elems)
    {
      assert Chain()[0].next == Chain()[1];
      elem := head.next;
      Remove(elem, 0);
    }

    method Find(obj: Elem) returns (found: bool)
      requires Valid()
      ensures found <==> obj in elems
    {
      ghost var k := 0;
      assert Chain()[0].next == Chain()[1];
      var elem := head.next;
      while elem != tail
        invariant k <= |elems| && elem == Chain()[k + 1]
        invariant obj !in elems[..k]
        decreases |elems| - k
      {
        assert elem == elems[k];
        if elem == obj {
          return true;
        }
        assert Chain()[k + 1].next == Chain()[k + 2];
        elem := elem.next;
        k := k + 1;
      }
      assert Chain()[|elems| + 1] == tail;
      assert k == |elems|;
      assert elems[..k] == elems;
      return false;
    }

    method Len() returns (n: nat)
      requires Valid()
      ensures n == |elems|
    {
      n := 0;
      assert Chain()[0].next == Chain()[1];
      var elem := head.next;
      while elem != tail
        invariant n <= |elems| && elem == Chain()[n + 1]
        decreases |elems| - n
      {
        assert Chain()[n + 1].next == Chain()[n + 2];
        elem := elem.next;
        n := n + 1;
      }
      assert Chain()[|elems| + 1] == tail;
    }

    method Empty() returns (b: bool)
      requires Valid()
      ensures b <==> elems == []
    {
      assert Chain()[0].next == Chain()[1];
      assert Chain()[|elems| + 1] == tail;
      b := head.next == tail;
    }
  }
}
