// The sorted set of pointers of vm/PointerSet.cpp; a pointer is an address.

module PointerSets {
  import opened Common

  ghost predicate Sorted(s: seq<nat>) {
    forall i, j | 0 <= i < j < |s| :: s[i] < s[j]
  }

  // the next value of the 16-bit counter alloc
  function Doubled(alloc: u2): u2 {
    if alloc == 0 then 4 else alloc * 2 % 0x1_0000
  }

  function SetOf(s: seq<nat>): (members: set<nat>)
    ensures forall p :: p in members <==> p in s
  {
    if s == [] then {} else SetOf(s[..|s| - 1]) + {s[|s| - 1]}
  }

  lemma {:induction false} SortedSize(s: seq<nat>)
    requires Sorted(s)
    ensures |SetOf(s)| == |s|
  {
    if s != [] {
      var front, last := s[..|s| - 1], s[|s| - 1];
      SortedSize(front);
      forall i: nat | i < |front|
        ensures front[i] != last
      {
        assert s[i] < s[|s| - 1];
      }
      assert last !in SetOf(front);
    }
  }

  lemma {:induction false} SubsetIsSmaller(a: set<nat>, b: set<nat>)
    requires a <= b
    ensures |a| <= |b|
    decreases a
  {
    if a != {} {
      var x :| x in a;
      SubsetIsSmaller(a - {x}, b - {x});
    }
  }

  // the most pointers that a set grown from 128 takes
  const MAX_POINTERS := 0x8000

  // what doubling makes of 128
  predicate IsGrown(alloc: u2) {
    alloc in {0x80, 0x100, 0x200, 0x400, 0x800, 0x1000, 0x2000, 0x4000, 0x8000}
  }

  lemma GrownDoubles(alloc: u2)
    requires IsGrown(alloc)
    ensures alloc <= MAX_POINTERS
    ensures if alloc == MAX_POINTERS then Doubled(alloc) == 0 else Doubled(alloc) > alloc && IsGrown(Doubled(alloc))
  {
  }

  // OutOfList: the counter has wrapped around, so the list does not get longer. The code goes on to store behind it.
  datatype Addition = Added | Present | OutOfList

  class PointerSet {
    var list: array<nat>
    var alloc: u2
    var count: nat

    ghost predicate Valid()
      reads this, list
    {
      count <= alloc == list.Length && Sorted(list[..count])
    }

    ghost predicate GrownFrom128()
      reads this
    {
      IsGrown(alloc)
    }

    ghost function Contents(): seq<nat>
      requires count <= list.Length
      reads this, list
    {
      list[..count]
    }

    ghost function AsSet(): set<nat>
      requires Valid()
      reads this, list
    {
      SetOf(Contents())
    }

    lemma SetIsSmall()
      requires Valid() && GrownFrom128()
      ensures |AsSet()| == count <= MAX_POINTERS
    {
      SortedSize(Contents());
    }

    // dvmPointerSetAlloc
    constructor (initialSize: u2)
      ensures Valid() && Contents() == [] && fresh(list) && alloc == initialSize
    {
      list := new nat[initialSize];
      alloc, count := initialSize, 0;
    }

    // dvmPointerSetHas; the index of an element that is not there is the index of a neighbour
    method Has(ptr: nat) returns (has: bool, index: nat)
      requires Valid()
      ensures has <==> ptr in Contents()
      ensures has ==> index < count && list[index] == ptr
      ensures !has ==> (count == 0 ==> index == 0) && (count > 0 ==> index < count)
      ensures !has ==> (forall k | 0 <= k < index :: list[k] < ptr) && (forall k | index < k < count :: list[k] > ptr)
    {
      var lo: int, mid: int, hi: int := 0, 0, count - 1;
      while lo <= hi
        invariant 0 <= lo <= hi + 1 <= count && (count == 0 ==> mid == 0) && (count > 0 ==> 0 <= mid < count)
        invariant lo <= hi || lo == mid || hi == mid
        invariant forall k | 0 <= k < lo :: list[k] < ptr
        invariant forall k | hi < k < count :: list[k] > ptr
        decreases hi - lo
      {
        mid := (lo + hi) / 2;
        var listVal := list[mid];
        assert forall k | 0 <= k < mid :: list[..count][k] < list[..count][mid];
        assert forall k | mid < k < count :: list[..count][mid] < list[..count][k];
        if ptr > listVal {
          lo := mid + 1;
        } else if ptr < listVal {
          hi := mid - 1;
        } else {
          return true, mid;
        }
      }
      return false, mid;
    }

    // dvmPointerSetFind
    method Find(ptr: nat) returns (idx: int)
      requires Valid()
      ensures idx == -1 <==> ptr !in Contents()
      ensures idx != -1 ==> 0 <= idx < count && list[idx] == ptr
    {
      var has;
      has, idx := Has(ptr);
      if !has {
        idx := -1;
      }
    }

    // dvmPointerSetAddEntry
    method AddEntry(ptr: nat) returns (result: Addition)
      requires Valid()
      modifies this, list
      ensures Valid() && (list == old(list) || fresh(list))
      ensures result == Present <==> ptr in old(Contents())
      ensures result == OutOfList <==>
                ptr !in old(Contents()) && old(count) == old(alloc) && Doubled(old(alloc)) <= old(count)
      ensures AsSet() == old(AsSet()) + if result == OutOfList then {} else {ptr}
      // a set that started with 128 takes that many pointers and no more
      ensures old(GrownFrom128()) ==> GrownFrom128()
      ensures old(GrownFrom128()) ==> (result == OutOfList <==> |old(AsSet()) + {ptr}| > MAX_POINTERS)
      ensures old(GrownFrom128()) ==> (result == OutOfList <==> ptr !in old(Contents()) && old(count) == MAX_POINTERS)
    {
      hide Sorted, IsGrown, Doubled, SetOf, InsertedAt;
      if IsGrown(alloc) {
        GrownDoubles(alloc);
        SetIsSmall();
        OneMoreIsLarger(AsSet(), ptr);
      }
      var has, nearby := Has(ptr);
      if has {
        return Present;
      }

      ghost var before := Contents();
      if count == alloc {
        if Doubled(alloc) <= count {
          return OutOfList;
        }
        Expand();
      }
      if count != 0 {
        if nearby != 0 && ptr < list[nearby - 1] {
          // the search never stops above the place of the element like this
          assert false;
        } else if ptr < list[nearby] {
        } else {
          nearby := nearby + 1;
        }
      }
      assert forall k | 0 <= k < |before| :: before[k] == list[k];
      Inserted(before, nearby, ptr);
      InsertAt(nearby, ptr);
      return Added;
    }

    // memmove and the store
    method InsertAt(at: nat, ptr: nat)
      requires at <= count < list.Length
      modifies this`count, list
      ensures count == old(count) + 1
      ensures list[..count] == InsertedAt(old(list[..count]), at, ptr)
    {
      if at != count {
        forall k | at <= k < count {
          list[k + 1] := list[k];
        }
      }
      list[at] := ptr;
      count := count + 1;
    }

    // realloc to twice the size
    method Expand()
      requires Valid() && count < Doubled(alloc)
      modifies this`list, this`alloc
      ensures Valid() && fresh(list) && alloc == Doubled(old(alloc)) && Contents() == old(Contents())
    {
      var oldList := list;
      alloc := Doubled(alloc);
      list := new nat[alloc](i requires 0 <= i reads oldList => if i < oldList.Length then oldList[i] else 0);
    }
  }

  lemma OneMoreIsLarger(s: set<nat>, ptr: nat)
    ensures |s + {ptr}| == |s| + if ptr in s then 0 else 1
  {
    if ptr in s {
      assert s + {ptr} == s;
    }
  }

  function InsertedAt(before: seq<nat>, at: nat, ptr: nat): (after: seq<nat>)
    requires at <= |before|
  {
    before[..at] + [ptr] + before[at..]
  }

  lemma InsertedIs(before: seq<nat>, at: nat, ptr: nat, k: nat)
    requires at <= |before| && k <= |before|
    ensures |InsertedAt(before, at, ptr)| == |before| + 1
    ensures InsertedAt(before, at, ptr)[k] == if k < at then before[k] else if k == at then ptr else before[k - 1]
  {
  }

  lemma Inserted(before: seq<nat>, at: nat, ptr: nat)
    requires Sorted(before) && at <= |before|
    requires (forall k | 0 <= k < at :: before[k] < ptr) && (forall k | at <= k < |before| :: before[k] > ptr)
    ensures Sorted(InsertedAt(before, at, ptr)) && SetOf(InsertedAt(before, at, ptr)) == SetOf(before) + {ptr}
  {
    InsertedMembers(before, at, ptr);
    hide InsertedAt, SetOf;
    InsertedIs(before, at, ptr, 0);
    forall i: nat, j: nat | i < j <= |before|
      ensures InsertedAt(before, at, ptr)[i] < InsertedAt(before, at, ptr)[j]
    {
      InsertedIs(before, at, ptr, i);
      InsertedIs(before, at, ptr, j);
      if i < at < j {
        assert before[i] < ptr < before[j - 1];
      }
    }
  }

  lemma InsertedMembers(before: seq<nat>, at: nat, ptr: nat)
    requires at <= |before|
    ensures SetOf(InsertedAt(before, at, ptr)) == SetOf(before) + {ptr}
  {
    hide SetOf;
    assert before == before[..at] + before[at..];
  }
}
