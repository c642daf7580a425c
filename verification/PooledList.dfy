/**
  The pooled list macros of zb_pooled_list.h: several doubly linked lists threaded through one
  base array by index. The 8-bit and the 16-bit macros differ in the index that stands for NULL.
 */
module PooledList {
  import opened ListMacros

  // ---------- One list in a pool ----------

  /** The link fields of the base array, one list variable, and the index that means NULL. */
  datatype Links = Links(nil: nat, next: seq<nat>, prev: seq<nat>, head: nat) {
    /** The list holds the entries `s`: along `next`, and back along `prev` with the tail behind the head. */
    ghost predicate Holds(s: seq<nat>) {
      && |next| == |prev| <= nil
      && Distinct(s)
      && (forall j {:trigger s[j]} :: 0 <= j < |s| ==> s[j] < |next|)
      && (forall j {:trigger next[s[j]]} :: 0 <= j < |s| ==> next[s[j]] == if j == |s| - 1 then nil else s[j + 1])
      && (forall j {:trigger prev[s[j]]} :: 0 <= j < |s| ==> prev[s[j]] == if j == 0 then s[|s| - 1] else s[j - 1])
      && head == if s == [] then nil else s[0]
    }
  }

  lemma InsertHeadHolds(k: Links, s: seq<nat>, x: nat, k': Links)
    requires k.Holds(s) && x < |k.next| && x !in s
    requires k' == k.(next := k.next[x := k.head], head := x,
                      prev := if s == [] then k.prev[x := x] else k.prev[x := k.prev[k.head]][k.head := x])
    ensures k'.Holds([x] + s)
  {
    DistinctInserted(s, 0, x);
    assert s[..0] + [x] + s[0..] == [x] + s;
  }

  lemma InsertTailHolds(k: Links, s: seq<nat>, x: nat, k': Links)
    requires k.Holds(s) && x < |k.next| && x !in s
    requires k' == if s == [] then k.(next := k.next[x := k.nil], prev := k.prev[x := x], head := x)
                   else k.(next := k.next[x := k.nil][k.prev[k.head] := x],
                           prev := k.prev[x := k.prev[k.head]][k.head := x])
    ensures k'.Holds(s + [x])
  {
    DistinctInserted(s, |s|, x);
    assert s[..|s|] + [x] + s[|s|..] == s + [x];
  }

  lemma InsertAfterHolds(k: Links, s: seq<nat>, i: nat, x: nat, k': Links)
    requires k.Holds(s) && x < |k.next| && x !in s && i + 1 < |s|
    requires k' == k.(next := k.next[x := k.next[s[i]]][s[i] := x],
                      prev := k.prev[x := s[i]][k.next[s[i]] := x])
    ensures k'.Holds(s[..i + 1] + [x] + s[i + 1..])
  {
    DistinctInserted(s, i + 1, x);
    var t := s[..i + 1] + [x] + s[i + 1..];
    assert forall j :: 0 <= j <= i ==> t[j] == s[j];
    assert forall j :: i + 2 <= j < |t| ==> t[j] == s[j - 1];
  }

  lemma RemoveHeadHolds(k: Links, s: seq<nat>, k': Links)
    requires k.Holds(s) && s != []
    requires k' == k.(head := k.next[k.head],
                      prev := (if |s| > 1 then k.prev[k.next[k.head] := k.prev[k.head]] else k.prev)[k.head := k.nil])
    ensures k'.Holds(s[1..])
  {
    assert forall j :: 0 <= j < |s| - 1 ==> s[1..][j] == s[j + 1];
  }

  lemma RemoveTailHolds(k: Links, s: seq<nat>, k': Links)
    requires k.Holds(s) && |s| > 1
    requires var n := |s| - 1;
             k' == k.(next := k.next[s[n - 1] := k.nil][s[n] := s[n - 1]],
                      prev := k.prev[s[n] := k.nil][k.head := s[n - 1]])
    ensures k'.Holds(s[..|s| - 1])
  {
  }

  lemma RemoveHolds(k: Links, s: seq<nat>, i: nat, k': Links)
    requires k.Holds(s) && i < |s|
    requires var x := s[i];
             var prev1 := k.prev[if k.next[x] != k.nil then k.next[x] else k.head := k.prev[x]];
             k' == k.(head := if x == k.head then k.next[x] else k.head,
                      next := if x == k.head then k.next else k.next[prev1[x] := k.next[x]],
                      prev := prev1[x := k.nil])
    ensures k'.Holds(s[..i] + s[i + 1..])
  {
    var t := s[..i] + s[i + 1..];
    assert forall j :: 0 <= j < i ==> t[j] == s[j];
    assert forall j :: i <= j < |t| ==> t[j] == s[j + 1];
  }

  // ---------- Several lists in one pool ----------

  /** `owner` gives the list that each entry is in, or -1. */
  datatype State = State(
    nil: nat,
    next: seq<nat>,
    prev: seq<nat>,
    heads: seq<nat>,
    lists: seq<seq<nat>>,
    owner: seq<int>
  ) {
    ghost predicate Ok() {
      && |next| == |prev| == |owner| && |heads| == |lists|
      && (forall l :: 0 <= l < |lists| ==> View(l).Holds(lists[l]))
      && (forall l, x :: 0 <= l < |lists| && x in lists[l] ==> x < |owner| && owner[x] == l)
      && (forall x :: 0 <= x < |owner| ==> Owned(x))
    }

    ghost predicate Owned(x: nat)
      requires |next| == |prev| == |owner| && x < |owner|
    {
      if prev[x] == nil then owner[x] == -1 else 0 <= owner[x] < |lists| && x in lists[owner[x]]
    }

    ghost function View(l: nat): Links
      requires l < |heads|
    {
      Links(nil, next, prev, heads[l])
    }
  }

  /** Two lists of a pool have no entry in common. */
  lemma ListsAreDisjoint(p: State, k: nat, l: nat)
    requires p.Ok() && k < l < |p.lists|
    ensures forall x :: x in p.lists[k] ==> x !in p.lists[l]
  {
    forall x | x in p.lists[k] ensures x !in p.lists[l] {
      assert p.owner[x] == k;
    }
  }

  /** `prev` is not NULL for exactly the entries that are in a list. */
  lemma PrevTellsMembership(p: State, x: nat)
    requires p.Ok() && x < |p.prev|
    ensures p.prev[x] != p.nil <==> exists l :: 0 <= l < |p.lists| && x in p.lists[l]
  {
    assert p.Owned(x);
  }

  /**
    An operation that turns list `l` into `t`, and writes no entry of another list, keeps every
    list of the pool.
   */
  lemma OneListChanged(p: State, l: nat, t: seq<nat>, p': State)
    requires p.Ok() && l < |p.lists|
    requires p'.nil == p.nil && |p'.next| == |p.next| && |p'.prev| == |p.prev| && |p'.owner| == |p.owner|
    requires |p'.heads| == |p.heads| && p'.heads == p.heads[l := p'.heads[l]] && p'.lists == p.lists[l := t]
    requires p'.View(l).Holds(t)
    requires forall x :: x in t ==> x in p.lists[l] || (x < |p.owner| && p.owner[x] == -1)
    requires forall x :: 0 <= x < |p.owner| && x !in p.lists[l] && x !in t ==>
               p'.next[x] == p.next[x] && p'.prev[x] == p.prev[x] && p'.owner[x] == p.owner[x]
    requires forall x :: x in t ==> x < |p'.owner| && p'.owner[x] == l
    requires forall x :: x in p.lists[l] && x !in t ==> x < |p'.owner| && p'.owner[x] == -1 && p'.prev[x] == p'.nil
    ensures p'.Ok()
  {
    forall k | 0 <= k < |p'.lists| ensures p'.View(k).Holds(p'.lists[k]) {
      if k != l {
        OtherListKept(p, l, t, p', k);
      }
    }
    forall k, x | 0 <= k < |p'.lists| && x in p'.lists[k] ensures x < |p'.owner| && p'.owner[x] == k {
      hide Links.Holds;
      if k != l {
        assert p.lists[k] == p'.lists[k] && p.owner[x] == k;
      }
    }
    forall x | 0 <= x < |p'.owner| ensures p'.Owned(x) {
      assert p.Owned(x);
      if x in t {
        var j :| 0 <= j < |t| && t[j] == x;
        assert p'.View(l).prev[t[j]] < |p'.next|;
      }
    }
  }

  lemma OtherListKept(p: State, l: nat, t: seq<nat>, p': State, k: nat)
    requires p.Ok() && l < |p.lists| && k < |p.lists| && k != l
    requires p'.nil == p.nil && |p'.next| == |p.next| && |p'.prev| == |p.prev|
    requires |p'.heads| == |p.heads| && p'.heads[k] == p.heads[k]
    requires forall x :: x in t ==> x in p.lists[l] || (x < |p.owner| && p.owner[x] == -1)
    requires forall x :: 0 <= x < |p.owner| && x !in p.lists[l] && x !in t ==>
               p'.next[x] == p.next[x] && p'.prev[x] == p.prev[x]
    ensures p'.View(k).Holds(p.lists[k])
  {
    var s := p.lists[k];
    assert p.View(k).Holds(s);
    assert forall j {:trigger s[j]} :: 0 <= j < |s| ==> s[j] in s && p.owner[s[j]] == k;
  }

  lemma InsertHeadKeepsPool(p: State, l: nat, x: nat, p': State)
    requires p.Ok() && l < |p.lists| && x < |p.prev| && p.prev[x] == p.nil
    requires var s, h := p.lists[l], p.heads[l];
             p' == p.(next := p.next[x := h], heads := p.heads[l := x],
                      lists := p.lists[l := [x] + s], owner := p.owner[x := l],
                      prev := if h == p.nil then p.prev[x := x] else p.prev[x := p.prev[h]][h := x])
    ensures p'.Ok()
  {
    var s := p.lists[l];
    assert p.View(l).Holds(s) && p.Owned(x);
    assert p.heads[l] == p.nil <==> s == [];
    InsertHeadHolds(p.View(l), s, x, p'.View(l));
    OneListChanged(p, l, [x] + s, p');
  }

  lemma InsertTailKeepsPool(p: State, l: nat, x: nat, p': State)
    requires p.Ok() && l < |p.lists| && x < |p.prev| && p.prev[x] == p.nil
    requires p.heads[l] != p.nil ==> p.heads[l] < |p.prev| && p.prev[p.heads[l]] < |p.next|
    requires var s, h := p.lists[l], p.heads[l];
             p' == p.(next := if h == p.nil then p.next[x := p.nil] else p.next[x := p.nil][p.prev[h] := x],
                      heads := if h == p.nil then p.heads[l := x] else p.heads,
                      lists := p.lists[l := s + [x]], owner := p.owner[x := l],
                      prev := if h == p.nil then p.prev[x := x] else p.prev[x := p.prev[h]][h := x])
    ensures p'.Ok()
  {
    var s := p.lists[l];
    assert p.View(l).Holds(s) && p.Owned(x);
    InsertTailHolds(p.View(l), s, x, p'.View(l));
    OneListChanged(p, l, s + [x], p');
  }

  lemma InsertAfterKeepsPool(p: State, l: nat, i: nat, x: nat, p': State)
    requires p.Ok() && l < |p.lists| && x < |p.prev| && p.prev[x] == p.nil && i + 1 < |p.lists[l]|
    requires p.lists[l][i] < |p.next| && p.next[p.lists[l][i]] < |p.prev|
    requires var s, at := p.lists[l], p.lists[l][i];
             p' == p.(next := p.next[x := p.next[at]][at := x], prev := p.prev[x := at][p.next[at] := x],
                      lists := p.lists[l := s[..i + 1] + [x] + s[i + 1..]], owner := p.owner[x := l])
    ensures p'.Ok()
  {
    var s := p.lists[l];
    assert p.View(l).Holds(s) && p.Owned(x);
    InsertAfterHolds(p.View(l), s, i, x, p'.View(l));
    var t := s[..i + 1] + [x] + s[i + 1..];
    assert s == s[..i + 1] + s[i + 1..];
    OneListChanged(p, l, t, p');
  }

  /** Common to the three removals: entry `i` of list `l` is taken out and its `prev` cleared. */
  lemma RemovalKeepsPool(p: State, l: nat, i: nat, p': State)
    requires p.Ok() && l < |p.lists| && i < |p.lists[l]|
    requires p'.nil == p.nil && |p'.next| == |p.next| && |p'.prev| == |p.prev|
    requires |p'.heads| == |p.heads| && p'.heads == p.heads[l := p'.heads[l]]
    requires p'.lists == p.lists[l := p.lists[l][..i] + p.lists[l][i + 1..]]
    requires p.lists[l][i] < |p.owner| && p'.owner == p.owner[p.lists[l][i] := -1]
    requires p'.View(l).Holds(p.lists[l][..i] + p.lists[l][i + 1..])
    requires p'.prev[p.lists[l][i]] == p.nil
    requires forall x :: 0 <= x < |p.owner| && x !in p.lists[l] ==> p'.next[x] == p.next[x] && p'.prev[x] == p.prev[x]
    ensures p'.Ok()
  {
    var s := p.lists[l];
    var t := s[..i] + s[i + 1..];
    assert p.View(l).Holds(s);
    assert s == s[..i] + [s[i]] + s[i + 1..];
    OneListChanged(p, l, t, p');
  }

  class Pool {
    /** 255 for the 8-bit macros, 65535 for the 16-bit ones. */
    const nil: nat
    // The link fields of the base array.
    const next: array<nat>
    const prev: array<nat>
    // The list variables: the index of each list's first entry, or NULL.
    const heads: array<nat>
    ghost var lists: seq<seq<nat>>
    ghost var owner: seq<int>

    ghost function Abs(): State
      reads this, next, prev, heads
    {
      State(nil, next[..], prev[..], heads[..], lists, owner)
    }

    ghost predicate Valid()
      reads this, next, prev, heads
    {
      next != prev && next != heads && prev != heads && (nil == 255 || nil == 65535) && Abs().Ok()
    }

    constructor (wide: bool, size: nat, count: nat)
      requires size <= if wide then 65535 else 255
      ensures Valid() && fresh(next) && fresh(prev) && fresh(heads)
      ensures next.Length == size && nil == if wide then 65535 else 255
      ensures lists == seq(count, _ => [])
    {
      var n := if wide then 65535 else 255;
      nil := n;
      next := new nat[size](_ => n);
      prev := new nat[size](_ => n);
      heads := new nat[count](_ => n);
      lists := seq(count, _ => []);
      owner := seq(size, _ => -1);
    }

    /** What the method bodies need to know about list `l` to follow its links. */
    lemma ListFacts(l: nat)
      requires Valid() && l < |lists|
      ensures next.Length == prev.Length == |owner| && heads.Length == |lists|
      ensures Links(nil, next[..], prev[..], heads[l]).Holds(lists[l])
      ensures lists[l] != [] ==> heads[l] < prev.Length && prev[heads[l]] == lists[l][|lists[l]| - 1] < next.Length
    {
      assert Abs().View(l).Holds(lists[l]);
    }

    method GetTail(l: nat) returns (x: nat)
      requires Valid() && l < |lists|
      ensures x == if lists[l] == [] then nil else lists[l][|lists[l]| - 1]
    {
      ListFacts(l);
      x := if heads[l] != nil then prev[heads[l]] else nil;
    }

    method InsertHead(l: nat, x: nat)
      requires Valid() && l < |lists| && x < next.Length && prev[x] == nil
      modifies this, next, prev, heads
      ensures Valid() && lists == old(lists)[l := [x] + old(lists[l])]
    {
      ListFacts(l);
      ghost var p := Abs();
      next[x] := heads[l];
      if heads[l] != nil {
        prev[x] := prev[heads[l]];
        prev[heads[l]] := x;
      } else {
        prev[x] := x;
      }
      heads[l] := x;
      lists, owner := lists[l := [x] + lists[l]], owner[x := l];
      InsertHeadKeepsPool(p, l, x, Abs());
    }

    method InsertTail(l: nat, x: nat)
      requires Valid() && l < |lists| && x < next.Length && prev[x] == nil
      modifies this, next, prev, heads
      ensures Valid() && lists == old(lists)[l := old(lists[l]) + [x]]
    {
      ListFacts(l);
      ghost var p := Abs();
      next[x] := nil;
      if heads[l] != nil {
        prev[x] := prev[heads[l]];
        next[prev[heads[l]]] := x;
        prev[heads[l]] := x;
      } else {
        prev[x] := x;
        heads[l] := x;
      }
      lists, owner := lists[l := lists[l] + [x]], owner[x := l];
      InsertTailKeepsPool(p, l, x, Abs());
    }

    /** Index NULL for `at` inserts nothing. */
    method InsertAfter(l: nat, at: nat, x: nat, ghost i: nat)
      requires Valid() && l < |lists| && x < next.Length && prev[x] == nil
      requires at != nil ==> i < |lists[l]| && lists[l][i] == at
      modifies this, next, prev, heads
      ensures Valid()
      ensures lists == if at == nil then old(lists)
                       else old(lists)[l := old(lists[l])[..i + 1] + [x] + old(lists[l])[i + 1..]]
    {
      if at != nil {
        ListFacts(l);
        var tail := GetTail(l);
        if at == tail {
          assert i == |lists[l]| - 1;
          assert lists[l][..i + 1] + [x] + lists[l][i + 1..] == lists[l] + [x];
          InsertTail(l, x);
        } else {
          ghost var p := Abs();
          next[x] := next[at];
          prev[x] := at;
          prev[next[at]] := x;
          next[at] := x;
          lists, owner := lists[l := lists[l][..i + 1] + [x] + lists[l][i + 1..]], owner[x := l];
          InsertAfterKeepsPool(p, l, i, x, Abs());
        }
      }
    }

    method CutHead(l: nat) returns (x: nat)
      requires Valid() && l < |lists|
      modifies this, next, prev, heads
      ensures Valid()
      ensures if old(lists[l]) == [] then x == nil && lists == old(lists)
              else x == old(lists[l])[0] && lists == old(lists)[l := old(lists[l])[1..]]
                   && x < prev.Length && prev[x] == nil
    {
      ListFacts(l);
      x := heads[l];
      RemoveHead(l);
    }

    method RemoveHead(l: nat)
      requires Valid() && l < |lists|
      modifies this, next, prev, heads
      ensures Valid()
      ensures lists == if old(lists[l]) == [] then old(lists) else old(lists)[l := old(lists[l])[1..]]
      ensures old(lists[l]) != [] ==> old(lists[l])[0] < prev.Length && prev[old(lists[l])[0]] == nil
    {
      hide State.Ok;
      ListFacts(l);
      if heads[l] != nil {
        ghost var p, s := Abs(), lists[l];
        if next[heads[l]] != nil {
          prev[next[heads[l]]] := prev[heads[l]];
        }
        prev[heads[l]] := nil;
        heads[l] := next[heads[l]];
        assert s[..0] + s[1..] == s[1..];
        lists, owner := lists[l := s[1..]], owner[s[0] := -1];
        RemoveHeadHolds(p.View(l), s, Abs().View(l));
        RemovalKeepsPool(p, l, 0, Abs());
      }
    }

    /** With no temporary at hand the macro keeps the new tail in the old tail's `next`. */
    method RemoveTail(l: nat)
      requires Valid() && l < |lists|
      modifies this, next, prev, heads
      ensures Valid()
      ensures lists == if old(lists[l]) == [] then old(lists) else old(lists)[l := old(lists[l])[..|old(lists[l])| - 1]]
    {
      hide State.Ok;
      ListFacts(l);
      if heads[l] != nil {
        ghost var p, s := Abs(), lists[l];
        ghost var n := |s| - 1;
        assert s[..n] + s[n + 1..] == s[..n];
        if prev[heads[l]] == heads[l] {
          prev[heads[l]] := nil;
          heads[l] := nil;
        } else {
          next[prev[prev[heads[l]]]] := nil;
          next[prev[heads[l]]] := prev[prev[heads[l]]];
          prev[prev[heads[l]]] := nil;
          prev[heads[l]] := next[prev[heads[l]]];
          RemoveTailHolds(p.View(l), s, Links(nil, next[..], prev[..], heads[l]));
        }
        lists, owner := lists[l := s[..n]], owner[s[n] := -1];
        RemovalKeepsPool(p, l, n, Abs());
      }
    }

    /** Removing an entry that is in no list does nothing. */
    method Remove(l: nat, x: nat, ghost i: nat)
      requires Valid() && l < |lists| && x < next.Length
      requires prev[x] != nil ==> i < |lists[l]| && lists[l][i] == x
      modifies this, next, prev, heads
      ensures Valid() && prev[x] == nil
      ensures lists == if old(prev[x]) == nil then old(lists)
                       else old(lists)[l := old(lists[l])[..i] + old(lists[l])[i + 1..]]
    {
      hide State.Ok;
      ListFacts(l);
      if prev[x] != nil {
        ghost var p, s := Abs(), lists[l];
        if next[x] != nil {
          prev[next[x]] := prev[x];
        } else {
          prev[heads[l]] := prev[x];
        }
        if x == heads[l] {
          heads[l] := next[x];
        } else {
          next[prev[x]] := next[x];
        }
        prev[x] := nil;
        lists, owner := lists[l := s[..i] + s[i + 1..]], owner[x := -1];
        RemoveHolds(p.View(l), s, i, Abs().View(l));
        RemovalKeepsPool(p, l, i, Abs());
      }
    }

    method Iterate(l: nat) returns (visited: seq<nat>)
      requires Valid() && l < |lists|
      ensures visited == lists[l]
    {
      ListFacts(l);
      ghost var s := lists[l];
      visited := [];
      var x := heads[l];
      while x != nil
        invariant |visited| <= |s| && visited == s[..|visited|]
        invariant x == if |visited| < |s| then s[|visited|] else nil
        decreases |s| - |visited|
      {
        visited := visited + [x];
        x := next[x];
      }
    }

    /**
      The macro asks whether the head index is not 0 where it means "not NULL". On a list that
      has entries it visits them last to first, unless the first entry is entry 0 of the pool:
      then it visits none. On an empty list it reads the entry at index NULL, past the pool.
     */
    method IterateBack(l: nat) returns (visited: seq<nat>, pastPool: bool)
      requires Valid() && l < |lists|
      ensures pastPool <==> lists[l] == []
      ensures !pastPool ==> (visited == Reversed(lists[l]) <==> lists[l][0] != 0)
      ensures !pastPool && lists[l][0] == 0 ==> visited == []
    {
      ListFacts(l);
      ghost var s := lists[l];
      visited, pastPool := [], heads[l] != 0 && heads[l] >= prev.Length;
      if pastPool {
        return;
      }
      var x := if heads[l] != 0 then prev[heads[l]] else nil;
      while x != nil
        invariant heads[l] == 0 ==> x == nil && visited == []
        invariant heads[l] != 0 ==> |visited| <= |s| && visited == Reversed(s)[..|visited|]
        invariant heads[l] != 0 ==> x == if |visited| < |s| then s[|s| - 1 - |visited|] else nil
        decreases |s| - |visited|
      {
        visited := visited + [x];
        x := if next[prev[x]] != nil then prev[x] else nil;
      }
      assert Reversed(s)[..|s|] == Reversed(s);
    }
  }
}
