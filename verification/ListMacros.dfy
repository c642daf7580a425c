/**
  The intrusive list macros of zb_list_macros.h: a doubly linked list whose head's `prev` is
  the tail, and the singly linked list that serves as FIFO and stack.
 */
module ListMacros {

  class Node {
    var next: Node?
    var prev: Node?

    constructor ()
      ensures next == null && prev == null
    {
      next, prev := null, null;
    }
  }

  ghost predicate Distinct<T>(s: seq<T>) {
    forall i, j :: 0 <= i < j < |s| ==> s[i] != s[j]
  }

  ghost predicate ForwardLinks(s: seq<Node>)
    reads s
  {
    && (forall i {:trigger s[i].next} :: 0 <= i < |s| - 1 ==> s[i].next == s[i + 1])
    && (s != [] ==> s[|s| - 1].next == null)
  }

  function Reversed<T>(s: seq<T>): (r: seq<T>)
    ensures |r| == |s|
  {
    seq(|s|, i requires 0 <= i < |s| => s[|s| - 1 - i])
  }

  lemma DistinctInserted<T>(s: seq<T>, k: nat, x: T)
    requires Distinct(s) && x !in s && k <= |s|
    ensures Distinct(s[..k] + [x] + s[k..])
  {
  }

  class List {
    var head: Node?
    ghost var nodes: seq<Node>

    ghost predicate Valid()
      reads this, nodes
    {
      && Distinct(nodes)
      && ForwardLinks(nodes)
      && (forall i {:trigger nodes[i].prev} :: 1 <= i < |nodes| ==> nodes[i].prev == nodes[i - 1])
      && (if nodes == [] then head == null else head == nodes[0] && nodes[0].prev == nodes[|nodes| - 1])
    }

    constructor ()
      ensures Valid() && nodes == []
    {
      head, nodes := null, [];
    }

    method GetTail() returns (ent: Node?)
      requires Valid()
      ensures ent == if nodes == [] then null else nodes[|nodes| - 1]
    {
      ent := if head != null then head.prev else null;
    }

    /** ZB_LIST_PREV of a member. */
    method Prev(ent: Node) returns (p: Node?)
      requires Valid() && ent in nodes
      ensures forall i :: 0 <= i < |nodes| && nodes[i] == ent ==> p == if i == 0 then null else nodes[i - 1]
    {
      p := if ent.prev.next != null then ent.prev else null;
    }

    method InsertHead(ent: Node)
      requires Valid() && ent !in nodes
      modifies this, nodes, ent
      ensures Valid() && nodes == [ent] + old(nodes)
    {
      ent.next := head;
      if head != null {
        ent.prev := head.prev;
        head.prev := ent;
      } else {
        ent.prev := ent;
      }
      head := ent;
      nodes := [ent] + nodes;
    }

    method InsertTail(ent: Node)
      requires Valid() && ent !in nodes
      modifies this, nodes, ent
      ensures Valid() && nodes == old(nodes) + [ent]
    {
      ent.next := null;
      if head != null {
        ent.prev := head.prev;
        head.prev.next := ent;
        head.prev := ent;
      } else {
        ent.prev := ent;
        head := ent;
      }
      nodes := nodes + [ent];
    }

    /** A NULL `ent` inserts nothing. */
    method InsertAfter(ent: Node?, newEnt: Node, ghost k: nat)
      requires Valid() && newEnt !in nodes
      requires ent != null ==> k < |nodes| && nodes[k] == ent
      modifies this, nodes, newEnt
      ensures Valid()
      ensures nodes == if ent == null then old(nodes) else old(nodes)[..k + 1] + [newEnt] + old(nodes)[k + 1..]
    {
      if ent != null {
        var tail := GetTail();
        if ent == tail {
          InsertTail(newEnt);
        } else {
          InsertBetween(ent, newEnt, k);
        }
      }
    }

    method InsertBetween(ent: Node, newEnt: Node, ghost k: nat)
      requires Valid() && newEnt !in nodes && k + 1 < |nodes| && nodes[k] == ent
      modifies this, nodes, newEnt
      ensures Valid() && nodes == old(nodes)[..k + 1] + [newEnt] + old(nodes)[k + 1..]
    {
      ghost var was := nodes;
      DistinctInserted(was, k + 1, newEnt);
      assert forall i :: 0 <= i < |was| ==> (was[i] == ent <==> i == k) && (was[i] == ent.next <==> i == k + 1);
      hide Distinct;
      newEnt.next := ent.next;
      newEnt.prev := ent;
      ent.next.prev := newEnt;
      ent.next := newEnt;
      nodes := was[..k + 1] + [newEnt] + was[k + 1..];
      forall i | 0 <= i < |nodes| - 1 ensures nodes[i].next == nodes[i + 1] && nodes[i + 1].prev == nodes[i] {
        if i > k + 1 {
          assert nodes[i] == was[k + 1..][i - k - 2] && nodes[i + 1] == was[k + 1..][i - k - 1];
          assert nodes[i] == was[i - 1] && nodes[i + 1] == was[i];
        }
      }
    }

    /** The removed entry, or NULL; its `prev` says that it is in no list. */
    method CutHead() returns (ent: Node?)
      requires Valid()
      modifies this, nodes
      ensures Valid()
      ensures if old(nodes) == [] then ent == null && nodes == [] else ent == old(nodes)[0] && nodes == old(nodes)[1..]
      ensures ent != null ==> ent.prev == null && ent.next == old(ent.next)
    {
      ent := head;
      RemoveHead();
    }

    method RemoveHead()
      requires Valid()
      modifies this, nodes
      ensures Valid() && nodes == if old(nodes) == [] then [] else old(nodes)[1..]
      ensures old(nodes) != [] ==> old(nodes)[0].prev == null && old(nodes)[0].next == old(nodes[0].next)
    {
      if head != null {
        if head.next != null {
          head.next.prev := head.prev;
        }
        head.prev := null;
        head := head.next;
        nodes := nodes[1..];
      }
    }

    /** With no temporary at hand the macro keeps the new tail in the old tail's `next`. */
    method RemoveTail()
      requires Valid()
      modifies this, nodes
      ensures Valid() && nodes == if old(nodes) == [] then [] else old(nodes)[..|old(nodes)| - 1]
      ensures old(nodes) != [] ==> old(nodes)[|old(nodes)| - 1].prev == null
    {
      if head != null {
        if head.prev == head {
          head.prev := null;
          head := null;
        } else {
          head.prev.prev.next := null;
          head.prev.next := head.prev.prev;
          head.prev.prev := null;
          head.prev := head.prev.next;
        }
        nodes := nodes[..|nodes| - 1];
      }
    }

    /** Removing an entry that is in no list does nothing. */
    method Remove(ent: Node, ghost k: nat)
      requires Valid()
      requires ent.prev != null ==> k < |nodes| && nodes[k] == ent
      modifies this, nodes
      ensures Valid()
      ensures nodes == if old(ent.prev) == null then old(nodes) else old(nodes)[..k] + old(nodes)[k + 1..]
      ensures ent.prev == null
    {
      if ent.prev != null {
        if ent.next != null {
          ent.next.prev := ent.prev;
        } else {
          head.prev := ent.prev;
        }
        if ent == head {
          head := ent.next;
        } else {
          ent.prev.next := ent.next;
        }
        ent.prev := null;
        nodes := nodes[..k] + nodes[k + 1..];
      }
    }

    method Iterate() returns (visited: seq<Node>)
      requires Valid()
      ensures visited == nodes
    {
      visited := [];
      var ent := head;
      while ent != null
        invariant |visited| <= |nodes| && visited == nodes[..|visited|]
        invariant ent == if |visited| < |nodes| then nodes[|visited|] else null
        decreases |nodes| - |visited|
      {
        visited := visited + [ent];
        ent := ent.next;
      }
    }

    method IterateBack() returns (visited: seq<Node>)
      requires Valid()
      ensures visited == Reversed(nodes)
    {
      visited := [];
      var ent := if head != null then head.prev else null;
      while ent != null
        invariant |visited| <= |nodes| && visited == Reversed(nodes)[..|visited|]
        invariant ent == if |visited| < |nodes| then nodes[|nodes| - 1 - |visited|] else null
        decreases |nodes| - |visited|
      {
        visited := visited + [ent];
        ent := if ent.prev.next != null then ent.prev else null;
      }
    }
  }

  /** ZB_SL_LIST, and ZB_FIFO over the same macros: put at the tail, get from the head. */
  class SlList {
    var head: Node?
    var tail: Node?
    ghost var nodes: seq<Node>

    ghost predicate Valid()
      reads this, nodes
    {
      && Distinct(nodes)
      && ForwardLinks(nodes)
      && (if nodes == [] then head == null && tail == null else head == nodes[0] && tail == nodes[|nodes| - 1])
    }

    constructor ()
      ensures Valid() && nodes == []
    {
      head, tail, nodes := null, null, [];
    }

    method InsertHead(ent: Node)
      requires Valid() && ent !in nodes
      modifies this, ent`next
      ensures Valid() && nodes == [ent] + old(nodes)
    {
      ent.next := head;
      if head == null {
        tail := ent;
      }
      head := ent;
      nodes := [ent] + nodes;
    }

    method InsertTail(ent: Node)
      requires Valid() && ent !in nodes
      modifies this, ent`next, nodes
      ensures Valid() && nodes == old(nodes) + [ent]
    {
      ent.next := null;
      if tail != null {
        tail.next := ent;
        tail := ent;
      } else {
        head := ent;
        tail := ent;
      }
      nodes := nodes + [ent];
    }

    method CutHead() returns (ent: Node?)
      requires Valid()
      modifies this
      ensures Valid()
      ensures if old(nodes) == [] then ent == null && nodes == [] else ent == old(nodes)[0] && nodes == old(nodes)[1..]
    {
      if head != null {
        ent := head;
        head := head.next;
        if head == null {
          tail := null;
        }
        nodes := nodes[1..];
      } else {
        ent := null;
      }
    }

    /** Searches for `ent`; an entry that is not a member stays where it is. */
    method Remove(ent: Node)
      requires Valid()
      modifies this, nodes
      ensures Valid()
      ensures ent !in old(nodes) ==> nodes == old(nodes)
      ensures forall k :: 0 <= k < |old(nodes)| && old(nodes)[k] == ent ==>
                nodes == old(nodes)[..k] + old(nodes)[k + 1..]
    {
      var prev: Node?, p := null, head;
      ghost var i := 0;
      while p != null && p != ent
        invariant i <= |nodes| && nodes == old(nodes) && Valid()
        invariant p == if i < |nodes| then nodes[i] else null
        invariant prev == if i == 0 then null else nodes[i - 1]
        invariant ent !in nodes[..i]
        decreases |nodes| - i
      {
        prev, p, i := p, p.next, i + 1;
      }
      if p != null {
        Unlink(prev, p, i);
      }
    }

    /** What the search does when it finds the entry. */
    method Unlink(prev: Node?, p: Node, ghost i: nat)
      requires Valid() && i < |nodes| && nodes[i] == p && prev == if i == 0 then null else nodes[i - 1]
      modifies this, nodes
      ensures Valid() && nodes == old(nodes)[..i] + old(nodes)[i + 1..]
    {
      if prev != null {
        prev.next := p.next;
        if tail == p {
          tail := prev;
        }
      } else {
        head := p.next;
      }
      if head == null {
        tail := null;
      }
      nodes := nodes[..i] + nodes[i + 1..];
    }
  }

  /** ZB_STK: only a head. */
  class Stack {
    var head: Node?
    ghost var nodes: seq<Node>

    ghost predicate Valid()
      reads this, nodes
    {
      Distinct(nodes) && ForwardLinks(nodes) && head == if nodes == [] then null else nodes[0]
    }

    constructor ()
      ensures Valid() && nodes == []
    {
      head, nodes := null, [];
    }

    method Push(ent: Node)
      requires Valid() && ent !in nodes
      modifies this, ent`next
      ensures Valid() && nodes == [ent] + old(nodes)
    {
      ent.next := head;
      head := ent;
      nodes := [ent] + nodes;
    }

    method Pop() returns (ent: Node?)
      requires Valid()
      modifies this
      ensures Valid()
      ensures if old(nodes) == [] then ent == null && nodes == [] else ent == old(nodes)[0] && nodes == old(nodes)[1..]
    {
      if head != null {
        ent := head;
        head := head.next;
        nodes := nodes[1..];
      } else {
        ent := null;
      }
    }
  }
}
