/** The intrusive doubly linked list: every operation does to the linked nodes what its name says to a
    sequence, and keeps the links inverse to each other, the ends null and the count right. */
module EmbeddedList {
  import opened Common

  class Node {
    var next: Node?
    var prev: Node?

    constructor ()
      ensures next == null && prev == null
    {
      next, prev := null, null;
    }
  }

  // ---------- the operations on sequences ----------

  ghost function Position<T>(s: seq<T>, t: T): (i: nat)
    requires t in s
    ensures i < |s| && s[i] == t && t !in s[..i]
  {
    if s[0] == t then 0 else 1 + Position(s[1..], t)
  }

  ghost function Without<T>(s: seq<T>, t: T): seq<T>
    requires t in s
  {
    var i := Position(s, t);
    s[..i] + s[i + 1..]
  }

  lemma PositionIs<T>(s: seq<T>, i: nat)
    requires Distinct(s) && i < |s|
    ensures Position(s, s[i]) == i
  {
    var p := Position(s, s[i]);
    assert s[p] == s[i];
  }

  /** Where a node put behind the given one goes, or first when there is none. */
  ghost function Place(s: seq<Node>, after: Node?): (i: nat)
    requires after != null ==> after in s
    ensures i <= |s| && (after == null ==> i == 0) && (after != null ==> 0 < i && s[i - 1] == after)
  {
    if after == null then 0 else Position<Node>(s, after) + 1
  }

  ghost function Put(s: seq<Node>, t: Node, after: Node?): seq<Node>
    requires after != null ==> after in s
  {
    s[..Place(s, after)] + [t] + s[Place(s, after)..]
  }

  /** Removing a node undoes inserting it, wherever it was put. */
  lemma RemoveUndoesInsert(s: seq<Node>, t: Node, after: Node?)
    requires Distinct(s) && t !in s && (after != null ==> after in s)
    ensures Distinct(Put(s, t, after)) && t in Put(s, t, after)
    ensures Without(Put(s, t, after), t) == s
  {
    hide Position, Place;
    var i, all := Place(s, after), Put(s, t, after);
    assert all[i] == t;
    PositionIs(all, i);
  }

  /** Inserting a removed node where it was undoes the removal. */
  lemma InsertUndoesRemove(s: seq<Node>, i: nat)
    requires Distinct(s) && i < |s|
    ensures var after := if i == 0 then null else s[i - 1];
            && Distinct(Without(s, s[i])) && s[i] !in Without(s, s[i])
            && (after != null ==> after in Without(s, s[i]))
            && Put(Without(s, s[i]), s[i], after) == s
  {
    hide Position;
    PositionIs(s, i);
    var rest := Without(s, s[i]);
    if i > 0 {
      assert rest[i - 1] == s[i - 1];
      PositionIs(rest, i - 1);
    }
  }

  // ---------- the list ----------

  lemma PutFirst(s: seq<Node>, t: Node)
    ensures Put(s, t, null) == [t] + s
  {
  }

  lemma SameEnds<T>(s: seq<T>)
    requires Distinct(s) && s != [] && s[0] == s[|s| - 1]
    ensures |s| == 1
  {
  }

  lemma PutLast(s: seq<Node>, t: Node)
    requires Distinct(s) && s != []
    ensures Put(s, t, s[|s| - 1]) == s + [t]
  {
    hide Position;
    PositionIs(s, |s| - 1);
  }

  lemma WithoutFirst<T>(s: seq<T>)
    requires s != []
    ensures Without(s, s[0]) == s[1..] && [s[0]] + s[1..] == s
  {
    assert Position(s, s[0]) == 0;
  }

  lemma WithoutLast<T>(s: seq<T>)
    requires Distinct(s) && s != []
    ensures Without(s, s[|s| - 1]) == s[..|s| - 1] && s[..|s| - 1] + [s[|s| - 1]] == s
  {
    hide Position;
    PositionIs(s, |s| - 1);
    hide Distinct;
  }

  lemma WithoutMembers<T>(s: seq<T>, t: T)
    requires Distinct(s) && t in s
    ensures t !in Without(s, t)
    ensures forall k :: 0 <= k < |Without(s, t)| ==> exists j :: 0 <= j < |s| && s[j] == Without(s, t)[k]
  {
    hide Position;
    var i, rest := Position(s, t), Without(s, t);
    forall k | 0 <= k < |rest| ensures exists j :: 0 <= j < |s| && s[j] == rest[k] {
      assert s[if k < i then k else k + 1] == rest[k];
    }
  }

  ghost predicate LinkedAt(s: seq<Node>, i: nat)
    requires i < |s|
    reads s
  {
    && s[i].next == (if i + 1 < |s| then s[i + 1] else null)
    && s[i].prev == (if i > 0 then s[i - 1] else null)
  }

  /** Each node's links lead to its neighbours, and null beyond the ends. */
  ghost predicate Linked(s: seq<Node>)
    reads s
  {
    forall i :: 0 <= i < |s| ==> LinkedAt(s, i)
  }

  lemma Neighbours(s: seq<Node>, i: nat)
    requires Distinct(s) && Linked(s) && i < |s|
    ensures s[i].next == if i + 1 < |s| then s[i + 1] else null
    ensures s[i].prev == if i > 0 then s[i - 1] else null
    ensures s[i].next != null ==> s[i].next in s && s[i].next != s[i]
    ensures s[i].prev != null ==> s[i].prev in s && s[i].prev != s[i]
  {
    assert LinkedAt(s, i);
  }

  /** Putting `t` at place `i` takes new links in `t` and its two neighbours, and no others. */
  twostate lemma InsertedLinks(before: seq<Node>, new i: nat, new t: Node, new after: seq<Node>)
    requires old(Linked(before)) && Distinct(before) && t !in before && i <= |before|
    requires after == before[..i] + [t] + before[i..]
    requires t.next == if i < |before| then before[i] else null
    requires t.prev == if i > 0 then before[i - 1] else null
    requires forall k :: 0 <= k < |before| ==> before[k].next == if k + 1 == i then t else old(before[k].next)
    requires forall k :: 0 <= k < |before| ==> before[k].prev == if k == i then t else old(before[k].prev)
    ensures Distinct(after) && Linked(after)
  {
    forall k | 0 <= k < |after| ensures LinkedAt(after, k) {
      if k != i {
        assert old(LinkedAt(before, if k < i then k else k - 1));
      }
    }
  }

  /** Taking out the node at place `i` takes new links in its two neighbours, and no others. */
  twostate lemma RemovedLinks(before: seq<Node>, new i: nat, new after: seq<Node>)
    requires old(Linked(before)) && Distinct(before) && i < |before|
    requires after == before[..i] + before[i + 1..]
    requires forall k :: 0 <= k < |before| && k != i ==>
               before[k].next == if k + 1 == i then old(before[i].next) else old(before[k].next)
    requires forall k :: 0 <= k < |before| && k != i ==>
               before[k].prev == if k == i + 1 then old(before[i].prev) else old(before[k].prev)
    ensures Distinct(after) && Linked(after)
  {
    assert old(LinkedAt(before, i));
    forall k | 0 <= k < |after| ensures LinkedAt(after, k) {
      assert old(LinkedAt(before, if k < i then k else k + 1));
    }
  }

  ghost function At(s: seq<Node>, i: nat): Node? {
    if i < |s| then s[i] else null
  }

  lemma AtMeans(s: seq<Node>, i: nat)
    ensures At(s, i) == if i < |s| then s[i] else null
  {
  }

  lemma NothingIsLinked()
    ensures Linked([])
  {
  }

  lemma LinksNext(s: seq<Node>)
    requires Linked(s)
    ensures forall k :: 0 <= k < |s| ==> s[k].next == At(s, k + 1)
  {
    forall k | 0 <= k < |s| ensures s[k].next == At(s, k + 1) {
      assert LinkedAt(s, k);
    }
  }

  class EmbeddedLinkedList {
    var front: Node?
    var back: Node?
    var count: nat
    ghost var nodes: seq<Node>

    ghost predicate Valid()
      reads this, nodes
    {
      && Distinct(nodes) && Linked(nodes) && count == |nodes|
      && front == (if nodes == [] then null else nodes[0])
      && back == (if nodes == [] then null else nodes[|nodes| - 1])
    }

    constructor ()
      ensures Valid() && nodes == []
    {
      front, back, count, nodes := null, null, 0, [];
    }

    /** Puts `t` after the given node, or first when there is none. */
    method Insert(t: Node, after: Node?)
      requires Valid() && t !in nodes && (after != null ==> after in nodes)
      modifies this, nodes, t
      ensures Valid()
      ensures nodes == Put(old(nodes), t, after)
    {
      hide Place, Linked, Position;
      ghost var i := Place(nodes, after);
      ghost var now := nodes[..i] + [t] + nodes[i..];
      if after != null {
        Neighbours(nodes, i - 1);
        t.next := after.next;
        if t.next != null {
          t.next.prev := t;
        } else {
          assert back == after;
          back := t;
        }
        after.next := t;
        t.prev := after;
      } else if front == null {
        t.next, t.prev := null, null;
        front, back := t, t;
      } else {
        t.next := front;
        t.prev := null;
        front.prev := t;
        front := t;
      }
      InsertedLinks(nodes, i, t, now);
      nodes := now;
      count := count + 1;
    }

    method Remove(t: Node)
      requires Valid() && t in nodes
      modifies this, nodes
      ensures Valid() && nodes == Without(old(nodes), t)
      ensures t.next == null && t.prev == null
    {
      hide Position, Linked;
      ghost var i := Position(nodes, t);
      Neighbours(nodes, i);
      if t == front {
        if t == back {
          assert count == 1 by { SameEnds(nodes); }
          front, back := null, null;
        } else {
          assert count > 1 && t.next != null;
          front := t.next;
          front.prev := null;
        }
      } else if t == back {
        assert count > 1 && t.prev != null;
        t.prev.next := null;
        back := t.prev;
      } else {
        assert count > 1 && t.prev != null && t.next != null;
        t.prev.next := t.next;
        t.next.prev := t.prev;
      }
      t.next, t.prev := null, null;
      ghost var now := nodes[..i] + nodes[i + 1..];
      RemovedLinks(nodes, i, now);
      nodes := now;
      count := count - 1;
    }

    method Append(t: Node)
      requires Valid() && t !in nodes
      modifies this, nodes, t
      ensures Valid() && nodes == old(nodes) + [t]
    {
      hide Distinct, Linked, Put;
      if nodes == [] {
        PutFirst(nodes, t);
        assert [t] + nodes == nodes + [t];
      } else {
        PutLast(nodes, t);
      }
      Insert(t, back);
    }

    method Prepend(t: Node)
      requires Valid() && t !in nodes
      modifies this, nodes, t
      ensures Valid() && nodes == [t] + old(nodes)
    {
      hide Put;
      PutFirst(nodes, t);
      Insert(t, null);
    }

    method TakeFront() returns (t: Node)
      requires Valid() && front != null
      modifies this, nodes
      ensures Valid() && old(nodes) == [t] + nodes
      ensures t.next == null && t.prev == null
    {
      hide Distinct, Linked, Without;
      t := front;
      WithoutFirst(nodes);
      Remove(t);
    }

    method TakeBack() returns (t: Node)
      requires Valid() && back != null
      modifies this, nodes
      ensures Valid() && old(nodes) == nodes + [t]
      ensures t.next == null && t.prev == null
    {
      hide Distinct, Linked, Without;
      t := back;
      WithoutLast(nodes);
      Remove(t);
    }

    method Contains(t: Node) returns (found: bool)
      requires Valid()
      ensures found <==> t in nodes
    {
      hide Linked;
      var tt := front;
      ghost var i := 0;
      while tt != null
        invariant i <= |nodes| && t !in nodes[..i]
        invariant tt == if i < |nodes| then nodes[i] else null
        decreases |nodes| - i
      {
        if t == tt {
          return true;
        }
        Neighbours(nodes, i);
        tt := tt.next;
        i := i + 1;
      }
      assert nodes[..i] == nodes;
      return false;
    }

    method DeleteAll()
      requires Valid()
      modifies this, nodes
      ensures Valid() && nodes == []
      ensures forall n <- old(nodes) :: n.next == null && n.prev == null
    {
      hide Linked, At;
      LinksNext(nodes);
      AtMeans(nodes, 0);
      var t := front;
      ghost var i := 0;
      while t != null
        invariant i <= |nodes| && nodes == old(nodes) && t == At(nodes, i)
        invariant forall k :: 0 <= k < i ==> nodes[k].next == null && nodes[k].prev == null
        invariant forall k :: i <= k < |nodes| ==> nodes[k].next == At(nodes, k + 1)
        decreases |nodes| - i
      {
        AtMeans(nodes, i);
        var next := t.next;
        t.next, t.prev := null, null;
        t := next;
        i := i + 1;
      }
      AtMeans(nodes, i);
      front, back, count, nodes := null, null, 0, [];
      NothingIsLinked();
    }

    method MoveToEnd(t: Node)
      requires Valid() && t in nodes
      modifies this, nodes
      ensures Valid() && nodes == Without(old(nodes), t) + [t]
    {
      hide Linked, Without;
      Neighbours(nodes, Position(nodes, t));
      WithoutLast(nodes);
      if t.next != null {
        WithoutMembers(nodes, t);
        Remove(t);
        Append(t);
      }
    }

    method MoveToFront(t: Node)
      requires Valid() && t in nodes
      modifies this, nodes
      ensures Valid() && nodes == [t] + Without(old(nodes), t)
    {
      hide Linked, Without;
      Neighbours(nodes, Position(nodes, t));
      WithoutFirst(nodes);
      if t.prev != null {
        WithoutMembers(nodes, t);
        Remove(t);
        Prepend(t);
      }
    }
  }

  /** Whatever neighbour a node is inserted behind, removing it restores the list. */
  method InsertThenRemove(list: EmbeddedLinkedList, t: Node, after: Node?)
    requires list.Valid() && t !in list.nodes && (after != null ==> after in list.nodes)
    modifies list, list.nodes, t
    ensures list.Valid() && list.nodes == old(list.nodes)
  {
    hide Linked, Put, Without;
    RemoveUndoesInsert(list.nodes, t, after);
    PutMembers(list.nodes, t, after);
    list.Insert(t, after);
    list.Remove(t);
  }

  /** Any node removed can be inserted again behind its old neighbour, which restores the list. */
  method RemoveThenInsert(list: EmbeddedLinkedList, t: Node)
    requires list.Valid() && t in list.nodes
    modifies list, list.nodes
    ensures list.Valid() && list.nodes == old(list.nodes)
  {
    hide Linked, Put, Without, Position;
    ghost var i := Position(list.nodes, t);
    Neighbours(list.nodes, i);
    InsertUndoesRemove(list.nodes, i);
    WithoutMembers(list.nodes, t);
    var after := t.prev;
    list.Remove(t);
    list.Insert(t, after);
  }

  lemma PutMembers(s: seq<Node>, t: Node, after: Node?)
    requires after != null ==> after in s
    ensures var all := Put(s, t, after);
            forall k :: 0 <= k < |all| ==> all[k] == t || exists j :: 0 <= j < |s| && s[j] == all[k]
  {
    hide Place;
    var i, all := Place(s, after), Put(s, t, after);
    forall k | 0 <= k < |all| && k != i ensures exists j :: 0 <= j < |s| && s[j] == all[k] {
      assert s[if k < i then k else k - 1] == all[k];
    }
    assert all[i] == t;
  }
}
