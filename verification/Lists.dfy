/** The kernel's intrusive doubly linked lists against sequences (kernel/src/lib/list.c; kernel/src/lib/list.h:3-4).
    Elements are addresses, 0 is NULL. A list is its head followed by its elements; a circular list (LIST_INIT_CIRCULAR)
    closes behind the last one, a plain list (LIST_INIT) ends there. */
module Lists {
  import opened Seqs

  ghost function After(ring: seq<nat>, circular: bool, i: nat): nat
    requires i < |ring|
  {
    if i + 1 < |ring| then ring[i + 1] else if circular then ring[0] else 0
  }

  ghost function Before(ring: seq<nat>, circular: bool, i: nat): nat
    requires i < |ring|
  {
    if i > 0 then ring[i - 1] else if circular then ring[|ring| - 1] else 0
  }

  ghost predicate LinkedAt(next: map<nat, nat>, prev: map<nat, nat>, ring: seq<nat>, circular: bool, i: nat)
    requires i < |ring|
  {
    && ring[i] in next && next[ring[i]] == After(ring, circular, i)
    && ring[i] in prev && prev[ring[i]] == Before(ring, circular, i)
  }

  /** `ring` is the head and then the elements in order. */
  ghost predicate Ring(next: map<nat, nat>, prev: map<nat, nat>, ring: seq<nat>, circular: bool) {
    && ring != [] && 0 !in ring && NoDup(ring)
    && forall i {:trigger LinkedAt(next, prev, ring, circular, i)} :: 0 <= i < |ring| ==>
      LinkedAt(next, prev, ring, circular, i)
  }

  function Inserted(ring: seq<nat>, k: nat, x: nat): (r: seq<nat>)
    requires k <= |ring|
    ensures |r| == |ring| + 1 && forall i :: 0 <= i < |r| ==>
      r[i] == if i < k then ring[i] else if i == k then x else ring[i - 1]
  {
    ring[..k] + [x] + ring[k..]
  }

  function Removed(ring: seq<nat>, k: nat): (r: seq<nat>)
    requires k < |ring|
    ensures |r| == |ring| - 1 && forall i :: 0 <= i < |r| ==> r[i] == if i < k then ring[i] else ring[i + 1]
  {
    ring[..k] + ring[k + 1..]
  }

  /** Linking x between position k - 1 and position k (behind the last one, for k == |ring|). */
  ghost function NextLinked(next: map<nat, nat>, ring: seq<nat>, circular: bool, k: nat, x: nat): map<nat, nat>
    requires 0 < k <= |ring|
  {
    next[x := After(ring, circular, k - 1)][ring[k - 1] := x]
  }

  ghost function PrevLinked(prev: map<nat, nat>, ring: seq<nat>, circular: bool, k: nat, x: nat): map<nat, nat>
    requires 0 < k <= |ring|
  {
    var behind := After(ring, circular, k - 1);
    if behind == 0 then prev[x := ring[k - 1]] else prev[x := ring[k - 1]][behind := x]
  }

  lemma InsertedAt(next: map<nat, nat>, prev: map<nat, nat>, ring: seq<nat>, circular: bool, k: nat, x: nat, i: nat)
    requires Ring(next, prev, ring, circular) && 0 < k <= |ring| && x != 0 && x !in ring && i <= |ring|
    ensures LinkedAt(NextLinked(next, ring, circular, k, x), PrevLinked(prev, ring, circular, k, x),
                     Inserted(ring, k, x), circular, i)
  {
    assert ring[0] in ring && (k < |ring| ==> ring[k] in ring) && ring[k - 1] in ring;
    assert i < k ==> ring[i] in ring;
    assert i > k ==> ring[i - 1] in ring;
    if i < k { assert LinkedAt(next, prev, ring, circular, i); }
    if i > k { assert LinkedAt(next, prev, ring, circular, i - 1); }
  }

  lemma InsertedOnce(ring: seq<nat>, k: nat, x: nat)
    requires k <= |ring| && NoDup(ring) && x !in ring && x != 0 && 0 !in ring
    ensures NoDup(Inserted(ring, k, x)) && 0 !in Inserted(ring, k, x)
  {
  }

  lemma RemovedOnce(ring: seq<nat>, k: nat)
    requires 0 < k < |ring| && NoDup(ring) && 0 !in ring
    ensures NoDup(Removed(ring, k)) && 0 !in Removed(ring, k)
  {
  }

  lemma InsertedRing(next: map<nat, nat>, prev: map<nat, nat>, ring: seq<nat>, circular: bool, k: nat, x: nat)
    requires Ring(next, prev, ring, circular) && 0 < k <= |ring| && x != 0 && x !in ring
    ensures Ring(NextLinked(next, ring, circular, k, x), PrevLinked(prev, ring, circular, k, x),
                 Inserted(ring, k, x), circular)
  {
    hide NextLinked, PrevLinked, LinkedAt, Inserted;
    InsertedOnce(ring, k, x);
    forall i | 0 <= i <= |ring|
      ensures LinkedAt(NextLinked(next, ring, circular, k, x), PrevLinked(prev, ring, circular, k, x),
                     Inserted(ring, k, x), circular, i)
    {
      InsertedAt(next, prev, ring, circular, k, x, i);
    }
  }

  /** Unlinking position k. */
  ghost function NextCut(next: map<nat, nat>, ring: seq<nat>, circular: bool, k: nat): map<nat, nat>
    requires 0 < k < |ring|
  {
    next[ring[k - 1] := After(ring, circular, k)]
  }

  ghost function PrevCut(prev: map<nat, nat>, ring: seq<nat>, circular: bool, k: nat): map<nat, nat>
    requires 0 < k < |ring|
  {
    if After(ring, circular, k) == 0 then prev else prev[After(ring, circular, k) := ring[k - 1]]
  }

  lemma RemovedAt(next: map<nat, nat>, prev: map<nat, nat>, ring: seq<nat>, circular: bool, k: nat, i: nat)
    requires Ring(next, prev, ring, circular) && 0 < k < |ring| && i < |ring| - 1
    ensures LinkedAt(NextCut(next, ring, circular, k), PrevCut(prev, ring, circular, k), Removed(ring, k), circular, i)
  {
    assert ring[0] in ring && (k + 1 < |ring| ==> ring[k + 1] in ring);
    if i < k {
      assert LinkedAt(next, prev, ring, circular, i);
    } else {
      assert LinkedAt(next, prev, ring, circular, i + 1);
    }
    assert LinkedAt(next, prev, ring, circular, k);
  }

  lemma RemovedRing(next: map<nat, nat>, prev: map<nat, nat>, ring: seq<nat>, circular: bool, k: nat)
    requires Ring(next, prev, ring, circular) && 0 < k < |ring|
    ensures Ring(NextCut(next, ring, circular, k), PrevCut(prev, ring, circular, k), Removed(ring, k), circular)
  {
    hide NextCut, PrevCut, LinkedAt, Removed;
    RemovedOnce(ring, k);
    forall i | 0 <= i < |ring| - 1
      ensures LinkedAt(
        NextCut(next, ring, circular, k), PrevCut(prev, ring, circular, k), Removed(ring, k), circular, i)
    {
      RemovedAt(next, prev, ring, circular, k, i);
    }
  }

  class Links {
    var next: map<nat, nat>
    var prev: map<nat, nat>

    constructor (next: map<nat, nat>, prev: map<nat, nat>)
      ensures this.next == next && this.prev == prev
    {
      this.next, this.prev := next, prev;
    }

    ghost predicate Holds(ring: seq<nat>, circular: bool)
      reads this
    {
      Ring(next, prev, ring, circular)
    }

    /** list_append: the element comes right behind position k, so behind the head it is the first of the list. */
    method Append(position: nat, element: nat, ghost ring: seq<nat>, ghost circular: bool, ghost k: nat)
      requires Holds(ring, circular) && k < |ring| && ring[k] == position && element != 0 && element !in ring
      modifies this
      ensures Holds(Inserted(ring, k + 1, element), circular)
      ensures forall x :: x !in ring && x != element && x in old(next) ==> x in next && next[x] == old(next[x])
      ensures forall x :: x !in ring && x != element && x in old(prev) ==> x in prev && prev[x] == old(prev[x])
    {
      hide Inserted, NoDup;
      assert LinkedAt(next, prev, ring, circular, k);
      InsertedRing(next, prev, ring, circular, k + 1, element);
      prev := prev[element := position];
      next := next[element := next[position]];
      if next[position] != 0 { prev := prev[next[position] := element]; }
      next := next[position := element];
    }

    /** list_prepend: the element comes right before position k; before the head of a circular list it is the last
        one. */
    method Prepend(position: nat, element: nat, ghost ring: seq<nat>, ghost circular: bool, ghost k: nat)
      requires Holds(ring, circular) && k < |ring| && ring[k] == position && element != 0 && element !in ring
      requires k > 0 || circular
      modifies this
      ensures Holds(Inserted(ring, if k == 0 then |ring| else k, element), circular)
      ensures forall x :: x !in ring && x != element && x in old(next) ==> x in next && next[x] == old(next[x])
      ensures forall x :: x !in ring && x != element && x in old(prev) ==> x in prev && prev[x] == old(prev[x])
    {
      hide Inserted, NoDup;
      ghost var at := if k == 0 then |ring| else k;
      assert LinkedAt(next, prev, ring, circular, k);
      assert LinkedAt(next, prev, ring, circular, at - 1);
      InsertedRing(next, prev, ring, circular, at, element);
      next := next[element := position];
      prev := prev[element := prev[position]];
      if prev[position] != 0 { next := next[prev[position] := element]; }
      prev := prev[position := element];
    }

    /** list_delete */
    method Delete(element: nat, ghost ring: seq<nat>, ghost circular: bool, ghost k: nat)
      requires Holds(ring, circular) && 0 < k < |ring| && ring[k] == element
      modifies this
      ensures Holds(Removed(ring, k), circular)
      ensures forall x :: x !in ring && x in old(next) ==> x in next && next[x] == old(next[x])
      ensures forall x :: x !in ring && x in old(prev) ==> x in prev && prev[x] == old(prev[x])
    {
      hide Removed, NoDup;
      assert LinkedAt(next, prev, ring, circular, k);
      RemovedRing(next, prev, ring, circular, k);
      if prev[element] != 0 { next := next[prev[element] := next[element]]; }
      if next[element] != 0 { prev := prev[next[element] := prev[element]]; }
    }

    /** list_is_empty */
    method IsEmpty(list: nat, ghost ring: seq<nat>, ghost circular: bool) returns (empty: bool)
      requires Holds(ring, circular) && ring[0] == list
      ensures empty <==> ring == [list]
    {
      assert LinkedAt(next, prev, ring, circular, 0);
      empty := next[list] == 0 || list == next[list];
    }

    /** LIST_FOREACH: the elements in order. */
    method Elements(list: nat, ghost ring: seq<nat>, ghost circular: bool) returns (elements: seq<nat>)
      requires Holds(ring, circular) && ring[0] == list
      ensures elements == ring[1..]
    {
      assert LinkedAt(next, prev, ring, circular, 0);
      elements := [];
      var elem := next[list];
      while elem != 0 && elem != list
        invariant |elements| < |ring| && elements == ring[1..|elements| + 1]
        invariant elem == After(ring, circular, |elements|)
        decreases |ring| - |elements|
      {
        assert LinkedAt(next, prev, ring, circular, |elements| + 1);
        elements := elements + [elem];
        elem := next[elem];
      }
    }
  }
}
