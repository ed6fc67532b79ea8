/**
 The ring buffer that holds an iterator's documents (mgo.v2/queue.go).
 */
module DocQueue {
  import opened Base

  /** The slot of the i-th element from popi. */
  function Slot(popi: nat, i: nat, capacity: nat): nat
  {
    if popi + i < capacity then popi + i else popi + i - capacity
  }

  lemma NextSlot(x: nat, n: nat)
    requires x < n
    ensures (x + 1) % n == if x + 1 == n then 0 else x + 1
  {
    if x + 1 < n {
      assert (x + 1) / n == 0;
    }
  }

  lemma SlotStart(popi: nat, capacity: nat)
    requires popi < capacity
    ensures Slot(popi, 0, capacity) == popi
  {
  }

  lemma SlotsDiffer(popi: nat, i: nat, j: nat, capacity: nat)
    requires popi < capacity && i < j < capacity
    ensures Slot(popi, i, capacity) < capacity
    ensures Slot(popi, i, capacity) != Slot(popi, j, capacity)
  {
  }

  lemma SlotAdvances(popi: nat, n: nat, capacity: nat)
    requires popi < capacity && n < capacity
    ensures Slot(popi, n, capacity) < capacity
    ensures Slot(popi, n + 1, capacity)
         == if Slot(popi, n, capacity) + 1 == capacity then 0 else Slot(popi, n, capacity) + 1
  {
  }

  lemma SlotFromNext(popi: nat, i: nat, capacity: nat)
    requires popi < capacity && i + 1 <= capacity
    ensures Slot(Slot(popi, 1, capacity), i, capacity) == Slot(popi, i + 1, capacity)
  {
  }

  class Queue<T> {
    var elems: array<Option<T>>
    var nelems: nat
    var popi: nat
    var pushi: nat

    ghost predicate Valid()
      reads this, elems
    {
      && nelems <= elems.Length
      && (elems.Length == 0 ==> popi == pushi == 0)
      && (elems.Length > 0 ==> popi < elems.Length && pushi < elems.Length && pushi == Slot(popi, nelems, elems.Length))
      && forall i :: 0 <= i < nelems ==> elems[Slot(popi, i, elems.Length)].Some?
    }

    /** The elements in the order they were pushed. */
    ghost function Contents(): (s: seq<T>)
      requires Valid()
      reads this, elems
      ensures |s| == nelems
    {
      seq(nelems, i requires 0 <= i < nelems && Valid() reads this, elems => elems[Slot(popi, i, elems.Length)].value)
    }

    constructor ()
      ensures Valid() && Contents() == [] && fresh(elems)
    {
      elems := new Option<T>[0];
      nelems, popi, pushi := 0, 0, 0;
    }

    function Len(): nat
      reads this
    {
      nelems
    }

    /** expand: a full ring moves to a larger array; the part from popi on moves to its end. */
    method Expand()
      requires Valid() && nelems == elems.Length
      modifies this
      ensures Valid() && Contents() == old(Contents()) && nelems < elems.Length && fresh(elems)
    {
      ghost var before := Contents();
      var curcap := elems.Length;
      var newcap := if curcap == 0 then 8 else if curcap < 1024 then curcap * 2 else curcap + curcap / 4;
      var larger := new Option<T>[newcap](_ => None);
      if popi == 0 {
        forall i | 0 <= i < curcap {
          larger[i] := elems[i];
        }
        pushi := curcap;
      } else {
        var newpopi := newcap - (curcap - popi);
        forall i | 0 <= i < popi {
          larger[i] := elems[i];
        }
        forall i | popi <= i < curcap {
          larger[newpopi + (i - popi)] := elems[i];
        }
        popi := newpopi;
      }
      elems := larger;
      forall i | 0 <= i < nelems
        ensures larger[Slot(popi, i, newcap)] == old(elems[Slot(popi, i, elems.Length)])
      {
      }
      assert Contents() == before;
    }

    method Push(elem: T)
      requires Valid()
      modifies this, elems
      ensures Valid() && Contents() == old(Contents()) + [elem]
      ensures elems == old(elems) || fresh(elems)
    {
      if nelems == elems.Length {
        Expand();
      }
      Store(elem);
    }

    /** The rest of Push, with room for the element. */
    method Store(elem: T)
      requires Valid() && nelems < elems.Length
      modifies this`nelems, this`pushi, elems
      ensures Valid() && Contents() == old(Contents()) + [elem]
    {
      hide Slot;
      ghost var before, n, capacity := Contents(), nelems, elems.Length;
      elems[pushi] := Some(elem);
      nelems := nelems + 1;
      NextSlot(pushi, elems.Length);
      pushi := (pushi + 1) % elems.Length;
      SlotAdvances(popi, n, capacity);
      forall i | 0 <= i < n
        ensures Slot(popi, i, capacity) < capacity
        ensures elems[Slot(popi, i, capacity)] == Some(before[i])
      {
        SlotsDiffer(popi, i, n, capacity);
      }
      assert Contents() == before + [elem];
    }

    /** Pop: None, for nil, when there is nothing. */
    method Pop() returns (elem: Option<T>)
      requires Valid()
      modifies this, elems
      ensures Valid() && elems == old(elems)
      ensures old(Contents()) == [] ==> elem == None && Contents() == []
      ensures old(Contents()) != [] ==> elem == Some(old(Contents())[0]) && Contents() == old(Contents())[1..]
    {
      if nelems == 0 {
        return None;
      }
      hide Slot;
      ghost var before, first, capacity := Contents(), popi, elems.Length;
      SlotStart(first, capacity);
      elem := elems[popi];
      elems[popi] := None;
      nelems := nelems - 1;
      NextSlot(popi, elems.Length);
      popi := (popi + 1) % elems.Length;
      SlotAdvances(first, 0, capacity);
      forall i | 0 <= i <= nelems
        ensures Slot(popi, i, capacity) == Slot(first, i + 1, capacity)
        ensures i < nelems ==> Slot(popi, i, capacity) < capacity
        ensures i < nelems ==> elems[Slot(popi, i, capacity)] == Some(before[i + 1])
      {
        SlotFromNext(first, i, capacity);
        if i < nelems {
          SlotsDiffer(first, 0, i + 1, capacity);
          SlotAdvances(first, i + 1, capacity);
        }
      }
      assert Contents() == before[1..];
    }
  }
}
