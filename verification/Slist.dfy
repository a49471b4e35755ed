/**
 The static doubly linked list of kernel/src/lib/slist.c: the elements live in a
 fixed array of slots, `prev` and `next` are slot numbers standing for the
 addresses `base + i * slot_size`, and a slot is free when its flag is clear.
 */
module Slist {

  const NULL: int := -1

  /** The k-th element of a list of slot numbers, NULL beyond either end. */
  function At(order: seq<int>, k: int): int {
    if 0 <= k < |order| then order[k] else NULL
  }

  function InsertAt<T>(s: seq<T>, k: nat, x: T): (r: seq<T>)
    requires k <= |s|
    ensures |r| == |s| + 1 && r[k] == x
    ensures forall j {:trigger r[j]} :: 0 <= j < k ==> r[j] == s[j]
    ensures forall j {:trigger r[j]} :: k < j < |r| ==> r[j] == s[j - 1]
  {
    s[..k] + [x] + s[k..]
  }

  function RemoveAt<T>(s: seq<T>, k: nat): (r: seq<T>)
    requires k < |s|
    ensures |r| == |s| - 1
    ensures forall j {:trigger r[j]} :: 0 <= j < k ==> r[j] == s[j]
    ensures forall j {:trigger r[j]} :: k <= j < |r| ==> r[j] == s[j + 1]
  {
    s[..k] + s[k + 1..]
  }

  /** One slot: the list header followed by the payload of the enclosing struct. */
  datatype Slot<T> = Slot(prev: int, next: int, valid: bool, data: int, body: T)

  /** What memset with 0 leaves in a slot: no links, flag clear, payload zero. */
  function Cleared<T>(zero: T): Slot<T> {
    Slot(NULL, NULL, false, NULL, zero)
  }

  /**
   `order` names the list's slots from head to tail and `rank` gives each slot's
   position in it, -1 for a free slot; links and flags agree with both.
   */
  ghost predicate Linked<T>(a: seq<Slot<T>>, order: seq<int>, rank: seq<int>) {
    && Ranked(order, rank)
    && |rank| == |a|
    && (forall i {:trigger a[i]} :: 0 <= i < |a| ==> Placed(a[i], i, order, rank[i]))
  }

  /** order and rank are inverse to each other. */
  ghost predicate Ranked(order: seq<int>, rank: seq<int>) {
    && (forall k {:trigger order[k]} :: 0 <= k < |order| ==> 0 <= order[k] < |rank| && rank[order[k]] == k)
    && (forall i {:trigger rank[i]} :: 0 <= i < |rank| ==>
          rank[i] == -1 || (0 <= rank[i] < |order| && order[rank[i]] == i))
  }

  /** The header of slot i, which is at position k of the list, or free when k is -1. */
  ghost predicate Placed<T>(e: Slot<T>, i: int, order: seq<int>, k: int) {
    if k < 0 then !e.valid
    else e.valid && e.data == i && e.prev == At(order, k - 1) && e.next == At(order, k + 1)
  }

  ghost function BodiesOf<T>(a: seq<Slot<T>>, order: seq<int>, rank: seq<int>): (s: seq<T>)
    requires Linked(a, order, rank)
    ensures |s| == |order|
    ensures forall k {:trigger s[k]} :: 0 <= k < |s| ==> s[k] == a[order[k]].body
  {
    seq(|order|, k requires 0 <= k < |order| => a[order[k]].body)
  }

  /** A list never has more elements than slots, and fills them exactly when no slot is free. */
  lemma {:induction false} Occupancy(order: seq<int>, rank: seq<int>)
    requires Ranked(order, rank)
    ensures |order| <= |rank|
    ensures |order| == |rank| <==> -1 !in rank
  {
    var used := set k | 0 <= k < |order| :: order[k];
    var all := Range(|rank|);
    ImageSize(order, rank, |order|);
    assert all == used + (all - used);
    if -1 !in rank {
      forall i | 0 <= i < |rank| ensures i in used {
        assert i == order[rank[i]];
      }
      assert all - used == {};
    } else {
      var i :| 0 <= i < |rank| && rank[i] == -1;
      assert i in all - used;
    }
  }

  lemma {:induction false} ImageSize(order: seq<int>, rank: seq<int>, n: nat)
    requires Ranked(order, rank) && n <= |order|
    ensures |set k | 0 <= k < n :: order[k]| == n
  {
    if n > 0 {
      ImageSize(order, rank, n - 1);
      var rest := set k | 0 <= k < n - 1 :: order[k];
      assert (set k | 0 <= k < n :: order[k]) == rest + {order[n - 1]};
      assert order[n - 1] !in rest;
    }
  }

  /** The numbers 0 .. n-1. */
  ghost function Range(n: nat): (r: set<int>)
    ensures |r| == n
    ensures forall i :: i in r <==> 0 <= i < n
  {
    if n == 0 then {} else Range(n - 1) + {n - 1}
  }

  /** What both insertions leave in the slots when e goes in at position k. */
  ghost predicate InsertedSlots<T>(a: seq<Slot<T>>, b: seq<Slot<T>>, order: seq<int>, k: nat, e: int, zero: T) {
    && |b| == |a|
    && 0 <= e < |a|
    && b[e] == Slot(At(order, k - 1), At(order, k), true, e, zero)
    && forall i {:trigger b[i]} :: 0 <= i < |a| && i != e ==>
        b[i] == a[i].(prev := if i == At(order, k) then e else a[i].prev,
                      next := if i == At(order, k - 1) then e else a[i].next)
  }

  ghost function RankAfterInsert(rank: seq<int>, k: nat, e: int): seq<int> {
    seq(|rank|, i requires 0 <= i < |rank| => if i == e then k else if rank[i] >= k then rank[i] + 1 else rank[i])
  }

  lemma InsertionRanks(order: seq<int>, rank: seq<int>, k: nat, e: int)
    requires Ranked(order, rank)
    requires k <= |order| && 0 <= e < |rank| && rank[e] == -1
    ensures Ranked(InsertAt(order, k, e), RankAfterInsert(rank, k, e))
  {
    hide InsertAt;
  }

  lemma InsertionLinks<T>(a: seq<Slot<T>>, b: seq<Slot<T>>, order: seq<int>, rank: seq<int>, k: nat, e: int, zero: T)
    requires Linked(a, order, rank)
    requires k <= |order| && 0 <= e < |a| && rank[e] == -1
    requires InsertedSlots(a, b, order, k, e, zero)
    ensures Linked(b, InsertAt(order, k, e), RankAfterInsert(rank, k, e))
    ensures BodiesOf(b, InsertAt(order, k, e), RankAfterInsert(rank, k, e))
         == InsertAt(BodiesOf(a, order, rank), k, zero)
  {
    hide InsertAt, InsertedSlots, Placed, RankAfterInsert;
    var now, rank' := InsertAt(order, k, e), RankAfterInsert(rank, k, e);
    InsertionRanks(order, rank, k, e);
    InsertionSizes(a, b, order, rank, k, e, zero);
    forall i | 0 <= i < |b|
      ensures Placed(b[i], i, now, rank'[i])
    {
      InsertionPlaces(a, b, order, rank, k, e, zero, i);
    }
    forall j | 0 <= j < |now| ensures b[now[j]].body == InsertAt(BodiesOf(a, order, rank), k, zero)[j] {
      if j != k {
        InsertionBody(a, b, order, rank, k, e, zero, if j < k then j else j - 1);
      }
    }
  }

  lemma InsertionSizes<T>(a: seq<Slot<T>>, b: seq<Slot<T>>, order: seq<int>, rank: seq<int>, k: nat, e: int, zero: T)
    requires InsertedSlots(a, b, order, k, e, zero)
    ensures |b| == |a| && 0 <= e < |a| && b[e].body == zero && |RankAfterInsert(rank, k, e)| == |rank|
  {
  }

  /** Every slot is placed right after an insertion. */
  lemma InsertionPlaces<T>(a: seq<Slot<T>>, b: seq<Slot<T>>, order: seq<int>, rank: seq<int>,
                           k: nat, e: int, zero: T, i: nat)
    requires Linked(a, order, rank) && InsertedSlots(a, b, order, k, e, zero)
    requires k <= |order| && rank[e] == -1 && i < |a|
    ensures Placed(b[i], i, InsertAt(order, k, e), RankAfterInsert(rank, k, e)[i])
  {
    hide InsertAt;
    assert Placed(a[i], i, order, rank[i]);
  }

  /** No other payload changes in an insertion. */
  lemma InsertionBody<T>(a: seq<Slot<T>>, b: seq<Slot<T>>, order: seq<int>, rank: seq<int>,
                         k: nat, e: int, zero: T, j: nat)
    requires Linked(a, order, rank) && InsertedSlots(a, b, order, k, e, zero)
    requires rank[e] == -1 && j < |order|
    ensures 0 <= order[j] < |a| && b[order[j]].body == a[order[j]].body
  {
    hide Placed;
  }

  /** What the deletion of the k-th element leaves in the slots. */
  ghost predicate DeletedSlots<T>(a: seq<Slot<T>>, b: seq<Slot<T>>, order: seq<int>, k: nat, zero: T) {
    && k < |order|
    && |b| == |a|
    && 0 <= order[k] < |a|
    && b[order[k]] == Cleared(zero)
    && forall i {:trigger b[i]} :: 0 <= i < |a| && i != order[k] ==>
        b[i] == a[i].(prev := if i == At(order, k + 1) then At(order, k - 1) else a[i].prev,
                      next := if i == At(order, k - 1) then At(order, k + 1) else a[i].next)
  }

  ghost function RankAfterDelete(rank: seq<int>, k: nat): seq<int> {
    seq(|rank|, i requires 0 <= i < |rank| => if rank[i] == k then -1 else if rank[i] > k then rank[i] - 1 else rank[i])
  }

  lemma DeletionRanks(order: seq<int>, rank: seq<int>, k: nat)
    requires Ranked(order, rank)
    requires k < |order|
    ensures Ranked(RemoveAt(order, k), RankAfterDelete(rank, k))
  {
    hide RemoveAt;
  }

  lemma DeletionLinks<T>(a: seq<Slot<T>>, b: seq<Slot<T>>, order: seq<int>, rank: seq<int>, k: nat, zero: T)
    requires Linked(a, order, rank)
    requires DeletedSlots(a, b, order, k, zero)
    ensures Linked(b, RemoveAt(order, k), RankAfterDelete(rank, k))
    ensures BodiesOf(b, RemoveAt(order, k), RankAfterDelete(rank, k)) == RemoveAt(BodiesOf(a, order, rank), k)
  {
    hide RemoveAt;
    var now, rank' := RemoveAt(order, k), RankAfterDelete(rank, k);
    DeletionRanks(order, rank, k);
    forall i | 0 <= i < |b|
      ensures Placed(b[i], i, now, rank'[i])
    {
      assert Placed(a[i], i, order, rank[i]);
    }
  }

  /** The facts about position k that the three operations read from the slots and ends. */
  lemma Links<T>(a: seq<Slot<T>>, order: seq<int>, rank: seq<int>, k: nat)
    requires Linked(a, order, rank)
    requires k < |order|
    ensures 0 <= order[k] < |a|
    ensures a[order[k]].data == order[k]
    ensures a[order[k]].prev == At(order, k - 1)
    ensures a[order[k]].next == At(order, k + 1)
    ensures order[k] == At(order, 0) <==> k == 0
    ensures order[k] == At(order, |order| - 1) <==> k == |order| - 1
    ensures k > 0 ==> 0 <= order[k - 1] < |a| && order[k - 1] != order[k]
    ensures k + 1 < |order| ==> 0 <= order[k + 1] < |a| && order[k + 1] != order[k]
    ensures k > 0 && k + 1 < |order| ==> order[k - 1] != order[k + 1]
  {
    assert Placed(a[order[k]], order[k], order, k);
    var first, last := At(order, 0), At(order, |order| - 1);
    assert rank[first] == 0 && rank[last] == |order| - 1;
  }

  /** A free slot is on no list, and only an empty list has NULL ends. */
  lemma Ends<T>(a: seq<Slot<T>>, order: seq<int>, rank: seq<int>, e: int)
    requires Linked(a, order, rank)
    requires 0 <= e < |rank| && rank[e] == -1
    ensures e !in order
    ensures order != [] ==> order[0] >= 0 && order[|order| - 1] >= 0
  {
  }

  /** The two elements around position k are different slots, and neither is the free slot e. */
  lemma NeighboursUsed<T>(a: seq<Slot<T>>, order: seq<int>, rank: seq<int>, k: nat, e: int)
    requires Linked(a, order, rank)
    requires k <= |order| && 0 <= e < |a| && rank[e] == -1
    ensures NULL <= At(order, k - 1) < |a| && NULL <= At(order, k) < |a|
    ensures e != At(order, k - 1) && e != At(order, k)
    ensures At(order, k - 1) != NULL ==> At(order, k - 1) != At(order, k)
  {
    if 0 < k < |order| {
      Links(a, order, rank, k);
    }
  }

  /** prev and next are mirror images, and the two ends are exactly the slots without a neighbour. */
  lemma Mirror<T>(a: seq<Slot<T>>, order: seq<int>, rank: seq<int>, i: nat)
    requires Linked(a, order, rank)
    requires i < |a|
    ensures a[i].valid <==> i in order
    ensures a[i].valid && a[i].next != NULL ==> 0 <= a[i].next < |a| && a[a[i].next].valid && a[a[i].next].prev == i
    ensures a[i].valid && a[i].prev != NULL ==> 0 <= a[i].prev < |a| && a[a[i].prev].valid && a[a[i].prev].next == i
    ensures a[i].valid ==> (a[i].prev == NULL <==> i == At(order, 0))
    ensures a[i].valid ==> (a[i].next == NULL <==> i == At(order, |order| - 1))
  {
    if rank[i] >= 0 {
      var k := rank[i];
      Links(a, order, rank, k);
      if k > 0 {
        Links(a, order, rank, k - 1);
      }
      if k + 1 < |order| {
        Links(a, order, rank, k + 1);
      }
    }
  }

  /** Writing one payload leaves the list alone. */
  lemma BodyLinks<T>(a: seq<Slot<T>>, order: seq<int>, rank: seq<int>, k: nat, x: T)
    requires Linked(a, order, rank)
    requires k < |order|
    ensures 0 <= order[k] < |a|
    ensures var b := a[order[k] := a[order[k]].(body := x)];
            Linked(b, order, rank) && BodiesOf(b, order, rank) == BodiesOf(a, order, rank)[k := x]
  {
    var b := a[order[k] := a[order[k]].(body := x)];
    forall i | 0 <= i < |b|
      ensures Placed(b[i], i, order, rank[i])
    {
      assert Placed(a[i], i, order, rank[i]);
    }
    forall j | 0 <= j < |order| && j != k ensures order[j] != order[k] {
      assert rank[order[j]] == j;
    }
  }

  class StaticList<T> {
    const slots: array<Slot<T>>
    const zero: T              // the payload after a memset with 0
    var head: int
    var tail: int
    ghost var order: seq<int>  // slot numbers from head to tail

    ghost var rank: seq<int>   // the position of each slot in order, -1 when free
    ghost var contents: seq<T> // the payloads in list order

    ghost predicate Valid()
      reads this, slots
      ensures Valid() ==> |contents| == |order| && head == At(order, 0) && tail == At(order, |order| - 1)
      ensures Valid() ==> forall k :: 0 <= k < |order| ==> order[k] >= 0
    {
      && slots.Length > 0
      && Linked(slots[..], order, rank)
      && contents == BodiesOf(slots[..], order, rank)
      && head == At(order, 0)
      && tail == At(order, |order| - 1)
    }

    constructor (n: nat, zero: T)
      requires n > 0
      ensures Valid() && fresh(slots) && slots.Length == n && this.zero == zero
      ensures order == [] && contents == []
    {
      slots := new Slot<T>[n](_ => Cleared(zero));
      this.zero := zero;
      head, tail, order, rank, contents := NULL, NULL, [], seq(n, _ => -1), [];
    }

    /** The scan both insertions start with: the lowest free slot, or NULL. */
    method FreeSlot() returns (i: int)
      requires Valid()
      ensures |rank| == slots.Length
      ensures i == NULL || 0 <= i < slots.Length
      ensures i != NULL ==> rank[i] == -1
      ensures i != NULL ==> forall j :: 0 <= j < i ==> rank[j] != -1
      ensures i == NULL <==> |order| == slots.Length
    {
      hide BodiesOf;
      Occupancy(order, rank);
      ghost var a := slots[..];
      i := 0;
      while i < slots.Length
        invariant 0 <= i < slots.Length
        invariant forall j :: 0 <= j < i ==> rank[j] != -1
      {
        assert Placed(a[i], i, order, rank[i]);
        if !slots[i].valid {
          return;
        }
        if i == slots.Length - 1 {
          return NULL;
        }
        i := i + 1;
      }
    }

    /** The relinking both insertions share: elem goes between prev and next, which are at k - 1 and k. */
    method Link(elem: int, prev: int, next: int, ghost k: nat)
      requires Valid()
      requires 0 <= elem < slots.Length && rank[elem] == -1
      requires k <= |order| && prev == At(order, k - 1) && next == At(order, k)
      modifies slots
      ensures InsertedSlots(old(slots[..]), slots[..], order, k, elem, zero)
    {
      hide Linked, BodiesOf;
      ghost var a := slots[..];
      NeighboursUsed(a, order, rank, k, elem);
      slots[elem] := Cleared(zero);
      slots[elem] := slots[elem].(valid := true, data := elem);
      slots[elem] := slots[elem].(prev := prev, next := next);
      if prev != NULL {
        slots[prev] := slots[prev].(next := elem);
      }
      if next != NULL {
        slots[next] := slots[next].(prev := elem);
      }
    }

    /** slist_insert_after; k is the position of pos, -1 for NULL. */
    method InsertAfter(pos: int, ghost k: int) returns (elem: int)
      requires Valid()
      requires -1 <= k < |order| && pos == At(order, k)
      modifies this, slots
      ensures Valid()
      ensures elem == NULL <==> |old(order)| == slots.Length
      ensures elem == NULL ==> order == old(order) && contents == old(contents)
      ensures elem != NULL ==>
                && elem !in old(order)
                && order == InsertAt(old(order), k + 1, elem)
                && contents == InsertAt(old(contents), k + 1, zero)
    {
      hide Linked, BodiesOf, InsertAt, RankAfterInsert, InsertedSlots;
      elem := FreeSlot();
      if elem == NULL {
        return;
      }
      ghost var a, was := slots[..], order;
      Ends(a, was, rank, elem);
      if k >= 0 {
        Links(a, was, rank, k);
      }
      var prev, next := NULL, head;
      if pos != NULL {
        prev, next := pos, slots[pos].next;
      }
      Link(elem, prev, next, k + 1);
      if pos == tail {
        tail := elem;
      }
      if head == NULL || pos == NULL {
        head := elem;
      }
      InsertionLinks(a, slots[..], was, rank, k + 1, elem, zero);
      order, rank := InsertAt(was, k + 1, elem), RankAfterInsert(rank, k + 1, elem);
      contents := InsertAt(contents, k + 1, zero);
    }

    /** slist_insert_before; k is the position of pos, |order| for NULL. */
    method InsertBefore(pos: int, ghost k: nat) returns (elem: int)
      requires Valid()
      requires k <= |order| && pos == At(order, k)
      modifies this, slots
      ensures Valid()
      ensures elem == NULL <==> |old(order)| == slots.Length
      ensures elem == NULL ==> order == old(order) && contents == old(contents)
      ensures elem != NULL ==>
                && elem !in old(order)
                && order == InsertAt(old(order), k, elem)
                && contents == InsertAt(old(contents), k, zero)
    {
      hide Linked, BodiesOf, InsertAt, RankAfterInsert, InsertedSlots;
      elem := FreeSlot();
      if elem == NULL {
        return;
      }
      ghost var a, was := slots[..], order;
      Ends(a, was, rank, elem);
      if k < |was| {
        Links(a, was, rank, k);
      }
      var prev, next := tail, NULL;
      if pos != NULL {
        next, prev := pos, slots[pos].prev;
      }
      Link(elem, prev, next, k);
      if head == pos {
        head := elem;
      }
      if tail == NULL || pos == NULL {
        tail := elem;
      }
      InsertionLinks(a, slots[..], was, rank, k, elem, zero);
      order, rank := InsertAt(was, k, elem), RankAfterInsert(rank, k, elem);
      contents := InsertAt(contents, k, zero);
    }

    /** slist_delete's writes for a pos that is not NULL. */
    method Unlink(pos: int, ghost k: nat)
      requires Valid()
      requires k < |order| && pos == order[k]
      modifies `head, `tail, slots
      ensures DeletedSlots(old(slots[..]), slots[..], order, k, zero)
      ensures head == if k == 0 then At(order, 1) else old(head)
      ensures tail == if k == |order| - 1 then At(order, k - 1) else old(tail)
    {
      hide Linked, BodiesOf;
      Links(slots[..], order, rank, k);
      var prev, next := slots[pos].prev, slots[pos].next;
      slots[pos] := slots[pos].(valid := false);
      if prev != NULL {
        slots[prev] := slots[prev].(next := next);
      }
      if next != NULL {
        slots[next] := slots[next].(prev := prev);
      }
      if pos == head {
        head := next;
      }
      if pos == tail {
        tail := prev;
      }
      slots[slots[pos].data] := Cleared(zero);
    }

    /** slist_delete; k is the position of pos. A NULL pos deletes nothing. */
    method Delete(pos: int, ghost k: int)
      requires Valid()
      requires pos == NULL || (0 <= k < |order| && pos == order[k])
      modifies this, slots
      ensures Valid()
      ensures pos == NULL ==> order == old(order) && contents == old(contents)
      ensures pos != NULL ==>
                && order == RemoveAt(old(order), k)
                && contents == RemoveAt(old(contents), k)
    {
      hide Linked, BodiesOf;
      if pos == NULL {
        return;
      }
      ghost var a, was := slots[..], order;
      Links(a, was, rank, k);
      Unlink(pos, k);
      DeletionLinks(a, slots[..], was, rank, k, zero);
      order, rank := RemoveAt(was, k), RankAfterDelete(rank, k);
      contents := RemoveAt(contents, k);
    }

    /** Overwrites the payload of the element at position k. */
    method Put(elem: int, ghost k: nat, x: T)
      requires Valid()
      requires k < |order| && elem == order[k]
      modifies slots, `contents
      ensures Valid()
      ensures contents == old(contents)[k := x]
    {
      hide Linked, BodiesOf;
      ghost var a := slots[..];
      BodyLinks(a, order, rank, k, x);
      slots[elem] := slots[elem].(body := x);
      contents := contents[k := x];
      assert slots[..] == a[elem := a[elem].(body := x)];
    }

    /** Reads the header and payload of the element at position k. */
    method Get(elem: int, ghost k: nat) returns (e: Slot<T>)
      requires Valid()
      requires k < |order| && elem == order[k]
      ensures e.body == contents[k]
      ensures e.prev == At(order, k - 1) && e.next == At(order, k + 1)
      ensures e.data == elem && 0 <= elem < slots.Length
    {
      Links(slots[..], order, rank, k);
      e := slots[elem];
    }
  }
}
