/**
 The circular singly linked list of kernel/src/lib/clist.c, with heap-allocated
 nodes. `ring` is the ghost sequence of nodes met when following `next` from head.
 */
module Clist {
  import opened Slist

  class Node<T> {
    var next: Node?<T>
    var body: T

    constructor (body: T)
      ensures this.body == body && next == null
    {
      this.next, this.body := null, body;
    }
  }

  /** The position after k in a ring of n elements. */
  function Succ(k: nat, n: nat): nat {
    if k + 1 >= n then 0 else k + 1
  }

  /** The position before k in a ring of n elements. */
  function Pred(k: nat, n: nat): (p: nat)
    requires k < n
    ensures p < n && Succ(p, n) == k
  {
    if k == 0 then n - 1 else k - 1
  }

  /** Where the j-th node of a ring was before the deletion of position k. */
  function Origin(j: nat, k: nat, n: nat): (i: nat)
    requires j < n - 1 && k < n
    ensures i < n && i != k
  {
    if k == 0 then (if j == 0 then n - 1 else j) else if j < k then j else j + 1
  }

  /** What the deletion of position k makes of a ring: the head's place is taken by its predecessor. */
  function DeleteAt<T>(ring: seq<T>, k: nat): (after: seq<T>)
    requires k < |ring|
    ensures |after| == |ring| - 1
    ensures forall j {:trigger after[j]} :: 0 <= j < |after| ==> after[j] == ring[Origin(j, k, |ring|)]
  {
    if k > 0 then RemoveAt(ring, k)
    else if |ring| == 1 then []
    else [ring[|ring| - 1]] + ring[1..|ring| - 1]
  }

  /** A deletion skips exactly the deleted position in the cyclic order: all other successors stay. */
  lemma SkipsOnly(j: nat, k: nat, n: nat)
    requires j < n - 1 && k < n
    ensures var o := Origin(j, k, n);
            Origin(Succ(j, n - 1), k, n) == if Succ(o, n) == k then Succ(k, n) else Succ(o, n)
  {
  }

  ghost predicate AllDifferent<T>(ring: seq<T>) {
    forall j, k :: 0 <= j < k < |ring| ==> ring[j] != ring[k]
  }

  lemma DeletedDistinct<T>(ring: seq<T>, k: nat)
    requires AllDifferent(ring) && k < |ring|
    ensures AllDifferent(DeleteAt(ring, k))
  {
    hide DeleteAt;
    var after := DeleteAt(ring, k);
    forall i, j | 0 <= i < j < |after| ensures after[i] != after[j] {
      var a, b := Origin(i, k, |ring|), Origin(j, k, |ring|);
      assert if a < b then ring[a] != ring[b] else ring[b] != ring[a];
    }
  }

  /** Where each successor is after a deletion; the deleted position is skipped. */
  lemma DeletedSuccessor<T>(ring: seq<T>, k: nat, j: nat)
    requires k < |ring| && j < |ring| - 1
    ensures var n, after, o := |ring|, DeleteAt(ring, k), Origin(j, k, |ring|);
            && after[j] == ring[o] && Succ(o, n) < n && Succ(k, n) < n && Succ(j, n - 1) < n - 1
            && (Succ(o, n) == k <==> o == Pred(k, n))
            && after[Succ(j, n - 1)] == ring[if Succ(o, n) == k then Succ(k, n) else Succ(o, n)]
  {
    hide DeleteAt;
    SkipsOnly(j, k, |ring|);
  }

  /** The ends of a ring after a deletion: the head is as clist_delete sets it, the tail only sometimes. */
  lemma EndsAfterDelete<T>(ring: seq<T>, k: nat)
    requires AllDifferent(ring) && k < |ring| && |ring| > 1
    ensures var n, after := |ring|, DeleteAt(ring, k);
            && after[0] == ring[if k == 0 then Pred(k, n) else 0]
            && (after[n - 2] == ring[if k == n - 1 then Pred(k, n) else n - 1] <==> k > 0 || n == 2)
  {
    hide DeleteAt;
  }

  lemma InsertedDistinct<T>(ring: seq<T>, k: nat, x: T)
    requires AllDifferent(ring) && k <= |ring| && x !in ring
    ensures AllDifferent(InsertAt(ring, k, x))
  {
    hide InsertAt;
  }

  /** Where each successor is after an insertion behind position k. */
  lemma InsertedSuccessor<T>(ring: seq<T>, k: nat, x: T, j: nat)
    requires k < |ring| && j <= |ring|
    ensures var n, after, o := |ring|, InsertAt(ring, k + 1, x), if j <= k then j else j - 1;
            && after[j] == (if j == k + 1 then x else ring[o])
            && Succ(o, n) < n && Succ(j, n + 1) <= n
            && after[Succ(j, n + 1)] == if j == k then x else ring[Succ(o, n)]
  {
    hide InsertAt;
  }

  /** Two positions of one ring hold the same node only when they are equal. */
  lemma SamePosition<T>(ring: seq<T>, i: nat, j: nat)
    requires AllDifferent(ring) && i < |ring| && j < |ring|
    ensures ring[i] == ring[j] <==> i == j
  {
  }

  class Clist<T> {
    var slots: nat
    var head: Node?<T>
    var tail: Node?<T>
    ghost var ring: seq<Node<T>>

    /** Following next from head visits the `slots` different nodes of ring and comes back to head. */
    ghost predicate Cycle()
      reads this, ring
    {
      && slots == |ring|
      && (ring == [] ==> head == null)
      && (ring != [] ==> head == ring[0])
      && AllDifferent(ring)
      && (forall k {:trigger ring[k].next} :: 0 <= k < |ring| ==> ring[k].next == ring[Succ(k, |ring|)])
    }

    /** A cycle whose tail is the last node, so that tail is followed by head. */
    ghost predicate Valid()
      reads this, ring
    {
      Cycle() && tail == if ring == [] then null else ring[|ring| - 1]
    }

    constructor ()
      ensures Valid() && ring == []
    {
      slots, head, tail, ring := 0, null, null, [];
    }

    /** clist_init: whatever the list was, it is now one node pointing at itself. */
    method Init(body: T) returns (n: Node<T>)
      modifies this
      ensures Valid() && fresh(n) && ring == [n] && n.body == body
    {
      n := new Node(body);
      n.next := n;
      head, tail, slots := n, n, 1;
      ring := [n];
    }

    /** The writes of clist_insert_after on a list that is not empty. */
    method LinkBehind(pos: Node<T>, ghost k: nat, body: T) returns (n: Node<T>)
      requires Valid()
      requires k < |ring| && pos == ring[k]
      modifies this`tail, ring
      ensures fresh(n) && n.body == body
      ensures Succ(k, |ring|) < |ring| && n.next == ring[Succ(k, |ring|)]
      ensures tail == if k == |ring| - 1 then n else ring[|ring| - 1]
      ensures forall j {:trigger ring[j].next} :: 0 <= j < |ring| ==>
                ring[j].next == if j == k then n else ring[Succ(j, |ring|)]
      ensures forall x :: x in ring ==> x.body == old(x.body)
    {
      SamePosition(ring, k, |ring| - 1);
      n := new Node(body);
      n.next := pos.next;
      pos.next := n;
      if tail == pos {
        tail := n;
      }
    }

    /** clist_insert_after for pos at position k; a NULL pos starts a new list. */
    method InsertAfter(pos: Node?<T>, ghost k: nat, body: T) returns (n: Node<T>)
      requires Valid()
      requires pos != null && slots != 0 ==> k < |ring| && pos == ring[k]
      modifies this, ring
      ensures Valid() && fresh(n) && n.body == body
      ensures ring == if pos == null || old(slots) == 0 then [n] else InsertAt(old(ring), k + 1, n)
      ensures forall x :: x in old(ring) ==> x.body == old(x.body)
    {
      hide InsertAt, Succ, AllDifferent;
      if pos == null || slots == 0 {
        n := Init(body);
        return;
      }
      ghost var was := ring;
      n := LinkBehind(pos, k, body);
      slots := slots + 1;
      InsertedDistinct(was, k + 1, n);
      ring := InsertAt(was, k + 1, n);
      forall j | 0 <= j < |ring| ensures Succ(j, |ring|) < |ring| && ring[j].next == ring[Succ(j, |ring|)] {
        InsertedSuccessor(was, k, n, j);
      }
    }

    /** The search for the node in front of pos. */
    method Predecessor(pos: Node<T>, ghost k: nat) returns (x: Node<T>)
      requires Cycle()
      requires k < |ring| && pos == ring[k]
      ensures x == ring[Pred(k, |ring|)]
    {
      x := head;
      var i := 0;
      while i <= slots && x.next != pos
        invariant 0 <= i <= Pred(k, |ring|)
        invariant x == ring[i]
      {
        x := x.next;
        i := i + 1;
      }
    }

    /** The writes of clist_delete when another node is left: the node in front of pos now skips it. */
    method Bypass(pos: Node<T>, ghost k: nat)
      requires Valid()
      requires k < |ring| && pos == ring[k] && |ring| > 1
      modifies this`head, this`tail, ring
      ensures head == ring[if k == 0 then Pred(k, |ring|) else 0]
      ensures tail == ring[if k == |ring| - 1 then Pred(k, |ring|) else |ring| - 1]
      ensures forall j {:trigger ring[j].next} :: 0 <= j < |ring| ==>
                ring[j].next == ring[if j == Pred(k, |ring|) then Succ(k, |ring|) else Succ(j, |ring|)]
      ensures forall x :: x in ring ==> x.body == old(x.body)
    {
      hide Succ, Pred;
      SamePosition(ring, k, 0);
      SamePosition(ring, k, |ring| - 1);
      var x := Predecessor(pos, k);
      if pos == head {
        head := x;
      }
      if pos == tail {
        tail := x;
      }
      x.next := pos.next;
    }

    /** clist_delete for a pos on the list: the tail invariant survives unless the head of three or more goes. */
    method Delete(pos: Node<T>, ghost k: nat)
      requires Valid()
      requires k < |ring| && pos == ring[k]
      modifies this, ring
      ensures Cycle() && ring == DeleteAt(old(ring), k)
      ensures Valid() <==> k > 0 || |old(ring)| <= 2
      ensures forall x :: x in old(ring) ==> x.body == old(x.body)
    {
      hide DeleteAt, RemoveAt, Origin, Pred, Succ, AllDifferent;
      ghost var was := ring;
      DeletedDistinct(was, k);
      if slots == 1 {
        head, tail := null, null;
      } else {
        Bypass(pos, k);
        EndsAfterDelete(was, k);
      }
      slots := slots - 1;
      ring := DeleteAt(was, k);
      forall j | 0 <= j < |ring| ensures Succ(j, |ring|) < |ring| && ring[j].next == ring[Succ(j, |ring|)] {
        DeletedSuccessor(was, k, j);
      }
    }

    /** clist_get: the index-th node from head. */
    method Get(index: nat) returns (r: Node?<T>)
      requires Cycle()
      ensures r == if index < |ring| then ring[index] else null
    {
      if index >= slots {
        return null;
      }
      r := head;
      for i := 0 to index
        invariant r == ring[i]
      {
        r := r.next;
      }
    }

    /** clist_find: the first node from head that the callback accepts, NULL when it accepts none. */
    method Find(accepts: T -> bool) returns (r: Node?<T>)
      requires Cycle()
      ensures r == null <==> forall j :: 0 <= j < |ring| ==> !accepts(ring[j].body)
      ensures r != null ==> exists k :: 0 <= k < |ring| && r == ring[k] && accepts(ring[k].body)
                                        && forall j :: 0 <= j < k ==> !accepts(ring[j].body)
    {
      var cur := head;
      if cur == null {
        return null;
      }
      ghost var k := 0;
      while true
        invariant 0 <= k < |ring| && cur == ring[k]
        invariant forall j :: 0 <= j < k ==> !accepts(ring[j].body)
        decreases |ring| - k
      {
        if accepts(cur.body) {
          return cur;
        }
        cur := cur.next;
        k := k + 1;
        if cur == head || cur == null {
          return null;
        }
      }
    }
  }

  /** Deleting the head of three nodes puts the last one first, not the second: the list is no queue. */
  lemma HeadDeletionReorders<T>(a: T, b: T, c: T)
    ensures DeleteAt([a, b, c], 0) == [c, b]
  {
  }
}
