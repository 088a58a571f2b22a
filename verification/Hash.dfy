// The tombstone hash table of vm/Hash.cpp.

module Hash {
  import opened Common
  import opened Bits
  import opened Probing

  // NULL, HASH_TOMBSTONE, or an item with the hash it was filed under
  datatype Cell<+T> = Empty | Tombstone | Live(hash: u4, item: T)

  ghost predicate IsEquivalence<T(!new)>(same: (T, T) -> bool) {
    && (forall x :: same(x, x))
    && (forall x, y :: same(x, y) ==> same(y, x))
    && (forall x, y, z :: same(x, y) && same(y, z) ==> same(x, z))
  }

  lemma Reflexive<T(!new)>(same: (T, T) -> bool, x: T)
    requires IsEquivalence(same)
    ensures same(x, x)
  {
  }

  // ----- Counting -----

  function Count<T>(cells: seq<Cell<T>>, dead: bool): (n: nat)
    ensures n <= |cells|
  {
    if cells == [] then 0
    else
      var last := cells[|cells| - 1];
      Count(cells[..|cells| - 1], dead) + if (if dead then last.Tombstone? else last.Live?) then 1 else 0
  }

  lemma {:induction false} CountUpdate<T>(cells: seq<Cell<T>>, i: nat, c: Cell<T>, dead: bool)
    requires i < |cells|
    ensures Count(cells[i := c], dead)
         == Count(cells, dead) - Count([cells[i]], dead) + Count([c], dead)
  {
    var n := |cells| - 1;
    if i == n {
      assert cells[i := c][..n] == cells[..n];
    } else {
      assert cells[i := c][..n] == cells[..n][i := c];
      CountUpdate(cells[..n], i, c, dead);
    }
  }

  lemma CountFilled<T>(cells: seq<Cell<T>>, i: nat, hash: u4, item: T)
    requires i < |cells| && cells[i].Empty?
    ensures Count(cells[i := Live(hash, item)], false) == Count(cells, false) + 1
    ensures Count(cells[i := Live(hash, item)], true) == Count(cells, true)
  {
    CountUpdate(cells, i, Live(hash, item), false);
    CountUpdate(cells, i, Live(hash, item), true);
  }

  lemma {:induction false} CountEmpty<T>(cells: seq<Cell<T>>, dead: bool)
    requires forall i | 0 <= i < |cells| :: cells[i].Empty?
    ensures Count(cells, dead) == 0
  {
    if cells != [] {
      CountEmpty(cells[..|cells| - 1], dead);
    }
  }

  lemma {:induction false} EmptySlot<T>(cells: seq<Cell<T>>) returns (e: nat)
    requires Count(cells, false) + Count(cells, true) < |cells|
    ensures e < |cells| && cells[e].Empty?
  {
    e := |cells| - 1;
    if !cells[e].Empty? {
      e := EmptySlot(cells[..|cells| - 1]);
    }
  }

  // ----- What a table holds -----

  ghost function Pairs<T>(cells: seq<Cell<T>>): set<(u4, T)> {
    set i | 0 <= i < |cells| && cells[i].Live? :: (cells[i].hash, cells[i].item)
  }

  lemma PairsUpdate<T>(cells: seq<Cell<T>>, i: nat, hash: u4, item: T)
    requires i < |cells| && cells[i].Empty?
    ensures Pairs(cells[i := Live(hash, item)]) == Pairs(cells) + {(hash, item)}
  {
    var after := cells[i := Live(hash, item)];
    assert after[i] == Live(hash, item);
    forall p | p in Pairs(cells)
      ensures p in Pairs(after)
    {
      var k: nat :| k < |cells| && cells[k].Live? && p == (cells[k].hash, cells[k].item);
      assert after[k] == cells[k];
    }
  }

  lemma PairsExtend<T>(cells: seq<Cell<T>>, n: nat)
    requires n < |cells|
    ensures cells[n].Live? ==> Pairs(cells[..n + 1]) == Pairs(cells[..n]) + {(cells[n].hash, cells[n].item)}
    ensures !cells[n].Live? ==> Pairs(cells[..n + 1]) == Pairs(cells[..n])
    ensures Count(cells[..n + 1], false) == Count(cells[..n], false) + if cells[n].Live? then 1 else 0
  {
    assert cells[..n + 1] == cells[..n] + [cells[n]];
    assert cells[..n + 1][..n] == cells[..n];
  }

  // The probe for a live cell meets no empty slot before it gets there.
  ghost predicate Reaches<T>(cells: seq<Cell<T>>, i: nat)
    requires i < |cells|
  {
    cells[i].Live? ==> forall j: nat | j < |cells| && Before(Home(cells[i].hash, |cells|), j, i) :: !cells[j].Empty?
  }

  ghost predicate Reachable<T>(cells: seq<Cell<T>>) {
    forall i: nat | i < |cells| :: Reaches(cells, i)
  }

  predicate Clash<T>(same: (T, T) -> bool, a: Cell<T>, b: Cell<T>) {
    a.Live? && b.Live? && a.hash == b.hash && same(a.item, b.item)
  }

  ghost predicate Unique<T>(same: (T, T) -> bool, cells: seq<Cell<T>>) {
    forall i: nat, k: nat | i < |cells| && k < |cells| && i != k :: !Clash(same, cells[i], cells[k])
  }

  ghost predicate WellFormed<T(!new)>(same: (T, T) -> bool, cells: seq<Cell<T>>) {
    IsEquivalence(same) && Reachable(cells) && Unique(same, cells)
  }

  // The number of entries is the size of the set.
  lemma {:induction false} CountIsCardinality<T(!new)>(same: (T, T) -> bool, cells: seq<Cell<T>>, n: nat)
    requires IsEquivalence(same) && Unique(same, cells) && n <= |cells|
    ensures |Pairs(cells[..n])| == Count(cells[..n], false)
  {
    hide Pairs, Unique, IsEquivalence;
    if n == 0 {
      assert cells[..0] == [];
      NoPairs<T>();
    } else {
      CountIsCardinality(same, cells, n - 1);
      hide Count;
      PairsExtend(cells, n - 1);
      if cells[n - 1].Live? {
        PairIsNew(same, cells, n - 1);
      }
    }
  }

  lemma NoPairs<T(!new)>()
    ensures Pairs<T>([]) == {} && Count<T>([], false) == 0
  {
  }

  lemma PairIsNew<T(!new)>(same: (T, T) -> bool, cells: seq<Cell<T>>, n: nat)
    requires IsEquivalence(same) && Unique(same, cells) && n < |cells| && cells[n].Live?
    ensures (cells[n].hash, cells[n].item) !in Pairs(cells[..n])
  {
    forall k: nat | k < n && cells[k].Live?
      ensures (cells[k].hash, cells[k].item) != (cells[n].hash, cells[n].item)
    {
      assert !Clash(same, cells[k], cells[n]);
    }
  }

  // No live cell before slot i on the probe for (hash, item) matches, and none of them is empty.
  ghost predicate Passed<T>(same: (T, T) -> bool, cells: seq<Cell<T>>, hash: u4, item: T, i: nat)
    requires |cells| > 0
  {
    forall j: nat | j < |cells| && Before(Home(hash, |cells|), j, i) ::
      !cells[j].Empty? && !Clash(same, cells[j], Live(hash, item))
  }

  // A probe that stops at an empty slot has seen every cell that could match.
  lemma ProbeIsComplete<T(!new)>(same: (T, T) -> bool, cells: seq<Cell<T>>, hash: u4, item: T, e: nat, k: nat)
    requires e < |cells| && cells[e].Empty? && Passed(same, cells, hash, item, e) && Reachable(cells)
    requires k < |cells|
    ensures !Clash(same, cells[k], Live(hash, item))
  {
    assert Reaches(cells, k);
    if e != k {
      OneIsFirst(Home(hash, |cells|), e, k, |cells|);
    }
  }

  lemma NothingPassed<T>(same: (T, T) -> bool, cells: seq<Cell<T>>, hash: u4, item: T)
    requires |cells| > 0
    ensures Passed(same, cells, hash, item, Home(hash, |cells|))
  {
  }

  lemma PassedStep<T>(same: (T, T) -> bool, cells: seq<Cell<T>>, hash: u4, item: T, i: nat)
    requires i < |cells| && Passed(same, cells, hash, item, i)
    requires !cells[i].Empty? && !(cells[i].Live? && cells[i].hash == hash && same(cells[i].item, item))
    ensures Passed(same, cells, hash, item, Next(i, |cells|))
  {
    StepExtends(Home(hash, |cells|), i, |cells|);
  }

  // ... so the item can be filed there, and the set has no entry to answer with.
  lemma NothingClashes<T(!new)>(same: (T, T) -> bool, cells: seq<Cell<T>>, hash: u4, item: T, e: nat)
    requires WellFormed(same, cells) && e < |cells| && cells[e].Empty? && Passed(same, cells, hash, item, e)
    ensures forall k: nat | k < |cells| :: !Clash(same, cells[k], Live(hash, item))
    ensures forall j: nat | j < |cells| && Before(Home(hash, |cells|), j, e) :: !cells[j].Empty?
    ensures !Holds(same, Pairs(cells), (hash, item))
  {
    forall k: nat | k < |cells|
      ensures !Clash(same, cells[k], Live(hash, item))
    {
      ProbeIsComplete(same, cells, hash, item, e, k);
    }
  }

  lemma IsHeld<T(!new)>(same: (T, T) -> bool, cells: seq<Cell<T>>, hash: u4, item: T, i: nat)
    requires i < |cells| && cells[i].Live? && cells[i].hash == hash && same(cells[i].item, item)
    ensures (hash, cells[i].item) in Pairs(cells) && Holds(same, Pairs(cells), (hash, item))
  {
  }

  // No slot before i on the probe for this hash is empty or holds this item.
  ghost predicate NotYetMet<T>(cells: seq<Cell<T>>, hash: u4, item: T, i: nat)
    requires |cells| > 0
  {
    forall j: nat | j < |cells| && Before(Home(hash, |cells|), j, i) ::
      !cells[j].Empty? && !(cells[j].Live? && cells[j].item == item)
  }

  // The probe for this hash meets this item here first, under whatever hash it is filed.
  ghost predicate FirstMet<T>(cells: seq<Cell<T>>, hash: u4, item: T, k: nat) {
    k < |cells| && cells[k].Live? && cells[k].item == item && NotYetMet(cells, hash, item, k)
  }

  lemma NothingMetAtHome<T>(cells: seq<Cell<T>>, hash: u4, item: T)
    requires |cells| > 0
    ensures NotYetMet(cells, hash, item, Home(hash, |cells|))
  {
  }

  lemma NotYetMetStep<T>(cells: seq<Cell<T>>, hash: u4, item: T, i: nat)
    requires i < |cells| && NotYetMet(cells, hash, item, i)
    requires !cells[i].Empty? && !(cells[i].Live? && cells[i].item == item)
    ensures NotYetMet(cells, hash, item, Next(i, |cells|))
  {
    StepExtends(Home(hash, |cells|), i, |cells|);
  }

  lemma ItemIsAbsent<T>(cells: seq<Cell<T>>, hash: u4, item: T, e: nat)
    requires e < |cells| && cells[e].Empty? && Reachable(cells) && NotYetMet(cells, hash, item, e)
    ensures (hash, item) !in Pairs(cells)
  {
    forall k: nat | k < |cells| && cells[k].Live? && cells[k].hash == hash
      ensures cells[k].item != item
    {
      assert Reaches(cells, k);
      OneIsFirst(Home(hash, |cells|), e, k, |cells|);
    }
  }

  // Filing an item at the empty slot where its probe stopped keeps the table well formed.
  lemma InsertKeeps<T(!new)>(same: (T, T) -> bool, cells: seq<Cell<T>>, hash: u4, item: T, e: nat)
    requires WellFormed(same, cells) && e < |cells| && cells[e].Empty?
    requires forall j: nat | j < |cells| && Before(Home(hash, |cells|), j, e) :: !cells[j].Empty?
    requires forall k: nat | k < |cells| :: !Clash(same, cells[k], Live(hash, item))
    ensures WellFormed(same, cells[e := Live(hash, item)])
  {
    var after := cells[e := Live(hash, item)];
    forall i: nat | i < |after|
      ensures Reaches(after, i)
    {
      if i != e {
        assert Reaches(cells, i);
      }
    }
    forall i: nat, k: nat | i < |after| && k < |after| && i != k
      ensures !Clash(same, after[i], after[k])
    {
      if i == e {
        assert !Clash(same, cells[k], Live(hash, item));
      } else if k == e {
        assert !Clash(same, cells[i], Live(hash, item));
      } else {
        assert !Clash(same, cells[i], cells[k]);
      }
    }
  }

  // So does turning a live cell into a tombstone, and it removes exactly that pair.
  lemma BuryKeeps<T(!new)>(same: (T, T) -> bool, cells: seq<Cell<T>>, i: nat)
    requires WellFormed(same, cells) && i < |cells| && cells[i].Live?
    ensures WellFormed(same, cells[i := Tombstone])
    ensures Pairs(cells[i := Tombstone]) == Pairs(cells) - {(cells[i].hash, cells[i].item)}
  {
    var after := cells[i := Tombstone];
    forall k: nat | k < |after|
      ensures Reaches(after, k)
    {
      assert Reaches(cells, k);
    }
    forall k: nat, l: nat | k < |after| && l < |after| && k != l
      ensures !Clash(same, after[k], after[l])
    {
      assert !Clash(same, cells[k], cells[l]);
    }
    forall p | p in Pairs(cells) && p != (cells[i].hash, cells[i].item)
      ensures p in Pairs(after)
    {
      var k: nat :| k < |cells| && cells[k].Live? && p == (cells[k].hash, cells[k].item);
      assert after[k] == cells[k];
    }
    forall p | p in Pairs(after)
      ensures p in Pairs(cells) && p != (cells[i].hash, cells[i].item)
    {
      var k: nat :| k < |after| && after[k].Live? && p == (after[k].hash, after[k].item);
      assert !Clash(same, cells[k], cells[i]);
    }
  }

  lemma AllEmpty<T(!new)>(same: (T, T) -> bool, cells: seq<Cell<T>>)
    requires IsEquivalence(same) && forall i | 0 <= i < |cells| :: cells[i].Empty?
    ensures WellFormed(same, cells) && Pairs(cells) == {} && Count(cells, false) == 0
  {
    CountEmpty(cells, false);
  }

  lemma ReachableOf<T(!new)>(same: (T, T) -> bool, cells: seq<Cell<T>>)
    requires WellFormed(same, cells)
    ensures Reachable(cells)
  {
  }

  lemma UniqueOf<T(!new)>(same: (T, T) -> bool, cells: seq<Cell<T>>)
    requires WellFormed(same, cells)
    ensures Unique(same, cells) && IsEquivalence(same)
  {
  }

  // A cell that is still to be moved does not clash with the cells moved before it.
  lemma MovedOnce<T(!new)>(same: (T, T) -> bool, cells: seq<Cell<T>>, i: nat, moved: seq<Cell<T>>)
    requires i < |cells| && cells[i].Live? && Unique(same, cells) && Pairs(moved) == Pairs(cells[..i])
    ensures forall k: nat | k < |moved| :: !Clash(same, moved[k], cells[i])
  {
    forall k: nat | k < |moved|
      ensures !Clash(same, moved[k], cells[i])
    {
      if moved[k].Live? {
        assert (moved[k].hash, moved[k].item) in Pairs(cells[..i]);
        var m: nat :| m < i && cells[..i][m].Live?
                      && (cells[..i][m].hash, cells[..i][m].item) == (moved[k].hash, moved[k].item);
        assert !Clash(same, cells[m], cells[i]);
      }
    }
  }

  lemma {:induction false} NoTombstones<T>(cells: seq<Cell<T>>)
    requires forall k | 0 <= k < |cells| :: !cells[k].Tombstone?
    ensures Count(cells, true) == 0
  {
    if cells != [] {
      NoTombstones(cells[..|cells| - 1]);
    }
  }

  lemma {:induction false} CountsFit<T>(cells: seq<Cell<T>>)
    ensures Count(cells, false) + Count(cells, true) <= |cells|
  {
    if cells != [] {
      CountsFit(cells[..|cells| - 1]);
    }
  }

  // ----- dvmHashSize -----

  // the largest table whose entries fit the address space; below it no product in the code leaves 32 bits
  const MAX_TABLE_SIZE := 0x1000_0000

  lemma MaxIsPower()
    ensures MAX_TABLE_SIZE == Power2(28)
  {
    assert Power2(8) == 0x100;
    assert Power2(16) == 0x1_0000;
    assert Power2(24) == 0x100_0000;
  }

  function HashSize(n: nat): (size: nat)
    ensures size > 0
  {
    n * 8 / 5 + 1
  }

  // A table made for n items is not too full with n.
  lemma HashSizeSuffices(n: nat, k: nat)
    requires k <= n
    ensures 8 * k <= 5 * LeastPower2(HashSize(n))
    ensures 5 * (HashSize(n) - 1) <= 8 * n < 5 * HashSize(n)
  {
  }

  class HashTable<T(==, !new)> {
    var entries: array<Cell<T>>
    var tableSize: nat
    var numEntries: nat
    var numDeadEntries: nat
    // the comparison all callers use (they pass it to every lookup)
    const same: (T, T) -> bool

    ghost predicate Consistent()
      reads this, entries
    {
      && tableSize == entries.Length > 0 && tableSize <= MAX_TABLE_SIZE
      && numEntries == Count(entries[..], false)
      && numDeadEntries == Count(entries[..], true)
      && (exists k: nat :: tableSize == Power2(k))
      && WellFormed(same, entries[..])
    }

    // ... and not too full
    ghost predicate Valid()
      reads this, entries
    {
      Consistent() && 8 * (numEntries + numDeadEntries) <= 5 * tableSize
    }

    ghost function Contents(): set<(u4, T)>
      reads this, entries
    {
      Pairs(entries[..])
    }

    // dvmHashTableCreate
    constructor (initialSize: u4, same: (T, T) -> bool)
      requires 0 < initialSize <= MAX_TABLE_SIZE && IsEquivalence(same)
      ensures Valid() && fresh(entries) && this.same == same
      ensures Contents() == {} && tableSize == LeastPower2(initialSize) && numEntries == numDeadEntries == 0
    {
      var size := DexRoundUpPower2(initialSize);
      MaxIsPower();
      LeastPower2IsLeast(initialSize, 28);
      var k := LeastPower2IsPower(initialSize);
      this.same := same;
      tableSize, numEntries, numDeadEntries := size, 0, 0;
      entries := new Cell<T>[size](i => Empty);
      new;
      CountEmpty(entries[..], false);
      CountEmpty(entries[..], true);
    }

    // dvmHashTableClear
    method Clear()
      requires Valid()
      modifies this`numEntries, this`numDeadEntries, entries
      ensures Valid() && Contents() == {} && numDeadEntries == 0
    {
      var i := 0;
      while i < tableSize
        invariant 0 <= i <= tableSize == entries.Length
        invariant forall k | 0 <= k < i :: entries[k].Empty?
      {
        entries[i] := Empty;
        i := i + 1;
      }
      numEntries, numDeadEntries := 0, 0;
      CountEmpty(entries[..], false);
      CountEmpty(entries[..], true);
    }

    // the store into the slot where a probe stopped
    method Fill(i: nat, hash: u4, item: T)
      requires Consistent() && i < tableSize && entries[i].Empty?
      requires forall j: nat | j < tableSize && Before(Home(hash, tableSize), j, i) :: !entries[j].Empty?
      requires forall k: nat | k < tableSize :: !Clash(same, entries[k], Live(hash, item))
      modifies this`numEntries, entries
      ensures Consistent() && Contents() == old(Contents()) + {(hash, item)}
      ensures numEntries == old(numEntries) + 1
    {
      ghost var cells := entries[..];
      InsertKeeps(same, cells, hash, item, i);
      PairsUpdate(cells, i, hash, item);
      CountFilled(cells, i, hash, item);
      entries[i] := Live(hash, item);
      numEntries := numEntries + 1;
      assert entries[..] == cells[i := Live(hash, item)];
    }

    // resizeHash, which moves the live entries and drops the tombstones
    method Resize(newSize: nat)
      requires Consistent() && newSize == 2 * tableSize <= MAX_TABLE_SIZE
      requires 8 * (numEntries + numDeadEntries) <= 5 * tableSize + 8
      modifies this`entries, this`tableSize, this`numDeadEntries
      ensures Valid() && fresh(entries) && Contents() == old(Contents())
      ensures tableSize == newSize && numDeadEntries == 0
    {
      hide Count, Pairs, WellFormed, Clash, Home;
      ghost var cells := entries[..];
      NoPairs<T>();
      UniqueOf(same, cells);
      assert cells[..0] == [];
      var newEntries := new Cell<T>[newSize](_ => Empty);
      AllEmpty(same, newEntries[..]);
      var i := 0;
      while i < tableSize
        invariant i <= |cells| && entries[..] == cells
        invariant entries == old(entries) && tableSize == old(tableSize) && Consistent()
        invariant numEntries == old(numEntries) && numDeadEntries == old(numDeadEntries)
        invariant WellFormed(same, newEntries[..]) && Pairs(newEntries[..]) == Pairs(cells[..i])
        invariant Count(newEntries[..], false) == Count(cells[..i], false)
        invariant forall k | 0 <= k < newSize :: !newEntries[k].Tombstone?
      {
        if entries[i].Live? {
          var hash, item := entries[i].hash, entries[i].item;
          UniqueOf(same, cells);
          MovedOnce(same, cells, i, newEntries[..]);
          NoTombstones(newEntries[..]);
          var newIdx := ProbeForSpot(newEntries, hash);
          ghost var before := newEntries[..];
          InsertKeeps(same, before, hash, item, newIdx);
          PairsUpdate(before, newIdx, hash, item);
          CountFilled(before, newIdx, hash, item);
          newEntries[newIdx] := Live(hash, item);
          assert newEntries[..] == before[newIdx := Live(hash, item)];
        }
        PairsExtend(cells, i);
        i := i + 1;
      }
      assert cells[..tableSize] == cells;
      NoTombstones(newEntries[..]);
      ghost var k: nat :| tableSize == Power2(k);
      assert newSize == Power2(k + 1);
      CountsFit(cells);
      entries := newEntries;
      tableSize := newSize;
      numDeadEntries := 0;
    }

    // the inner loop of resizeHash
    method ProbeForSpot(newEntries: array<Cell<T>>, hash: u4) returns (newIdx: nat)
      requires newEntries.Length > 0
      requires Count(newEntries[..], false) + Count(newEntries[..], true) < newEntries.Length
      ensures newIdx < newEntries.Length && newEntries[newIdx].Empty?
      ensures forall j: nat | j < newEntries.Length && Before(Home(hash, newEntries.Length), j, newIdx) ::
                !newEntries[j].Empty?
    {
      var newSize := newEntries.Length;
      ghost var e := EmptySlot(newEntries[..]);
      newIdx := Home(hash, newSize);
      while !newEntries[newIdx].Empty?
        invariant newIdx < newSize
        invariant forall j: nat | j < newSize && Before(Home(hash, newSize), j, newIdx) :: !newEntries[j].Empty?
        decreases Gap(newIdx, e, newSize)
      {
        StepCloses(newIdx, e, newSize);
        StepExtends(Home(hash, newSize), newIdx, newSize);
        newIdx := Next(newIdx, newSize);
      }
    }

    // dvmHashTableLookup
    method Lookup(itemHash: u4, item: T, doAdd: bool) returns (result: Option<T>)
      requires Valid()
      requires doAdd ==> 2 * tableSize <= MAX_TABLE_SIZE || 8 * (numEntries + numDeadEntries + 1) <= 5 * tableSize
      modifies this`entries, this`tableSize, this`numEntries, this`numDeadEntries, entries
      ensures Valid() && (entries == old(entries) || fresh(entries))
      ensures Holds(same, old(Contents()), (itemHash, item)) ==>
                && result.Some? && (itemHash, result.value) in old(Contents()) && same(result.value, item)
                && Contents() == old(Contents()) && tableSize == old(tableSize)
      ensures !Holds(same, old(Contents()), (itemHash, item)) ==>
                && result == (if doAdd then Some(item) else None)
                && Contents() == old(Contents()) + (if doAdd then {(itemHash, item)} else {})
                && (tableSize == old(tableSize) || (tableSize == 2 * old(tableSize) && numDeadEntries == 0))
      ensures numEntries <= old(numEntries) + 1
      ensures tableSize == old(tableSize) ==> numDeadEntries == old(numDeadEntries)
      ensures tableSize != old(tableSize) ==> 8 * (old(numEntries) + 1 + old(numDeadEntries)) > 5 * old(tableSize)
    {
      hide Count, Pairs, Reachable, Unique, IsEquivalence, Clash, Passed, Before, Home;
      ghost var cells := entries[..];
      NothingPassed(same, cells, itemHash, item);
      ghost var e := EmptySlot(cells);
      var i: nat := Home(itemHash, tableSize);
      while !entries[i].Empty?
        invariant entries == old(entries) && tableSize == old(tableSize) && Valid()
        invariant numEntries == old(numEntries) && numDeadEntries == old(numDeadEntries)
        invariant i < tableSize && entries[..] == cells
        invariant Passed(same, cells, itemHash, item, i)
        decreases Gap(i, e, tableSize)
      {
        if entries[i].Live? && entries[i].hash == itemHash && same(entries[i].item, item) {
          break;
        }
        StepCloses(i, e, tableSize);
        PassedStep(same, cells, itemHash, item, i);
        i := i + 1;
        if i == tableSize {
          if tableSize == 1 {
            // a table of one slot is never full, so the probe has stopped before this
            assert false;
          }
          i := 0;
        }
      }
      if entries[i].Empty? {
        NothingClashes(same, cells, itemHash, item, i);
        if doAdd {
          Fill(i, itemHash, item);
          if (numEntries + numDeadEntries) * 8 > tableSize * 5 {
            Resize(tableSize * 2);
          }
          result := Some(item);
        } else {
          result := None;
        }
      } else {
        IsHeld(same, cells, itemHash, item, i);
        result := Some(entries[i].item);
      }
    }

    // the three stores that turn an entry into a tombstone
    method Bury(i: nat)
      requires Valid() && i < tableSize && entries[i].Live?
      modifies this`numEntries, this`numDeadEntries, entries
      ensures Valid() && entries[..] == old(entries[..][i := Tombstone])
      ensures Contents() == old(Contents()) - {(old(entries[i].hash), old(entries[i].item))}
    {
      ghost var cells := entries[..];
      BuryKeeps(same, cells, i);
      CountUpdate(cells, i, Tombstone, false);
      CountUpdate(cells, i, Tombstone, true);
      entries[i] := Tombstone;
      numEntries := numEntries - 1;
      numDeadEntries := numDeadEntries + 1;
      assert entries[..] == cells[i := Tombstone];
    }

    // dvmHashTableRemove, which looks for the item itself and not at the hash it was filed under
    method Remove(itemHash: u4, item: T) returns (found: bool)
      requires Valid()
      modifies this`numEntries, this`numDeadEntries, entries
      ensures Valid()
      // what goes is the first entry on the probe that has this item, whatever its hash
      ensures found <==> exists k: nat :: FirstMet(old(entries[..]), itemHash, item, k)
      ensures found ==> exists k: nat :: (&& FirstMet(old(entries[..]), itemHash, item, k)
                && Contents() == old(Contents()) - {(old(entries[..])[k].hash, item)})
      ensures !found ==> Contents() == old(Contents())
      // that is the pair asked for exactly if that entry is filed under this hash, or there is none
      ensures MeetsOwn(old(entries[..]), itemHash, item) <==>
                && (found <==> (itemHash, item) in old(Contents()))
                && Contents() == old(Contents()) - {(itemHash, item)}
      // as it is for an item that is filed under one hash only
      ensures (forall hash: u4 | (hash, item) in old(Contents()) :: hash == itemHash) ==>
                MeetsOwn(old(entries[..]), itemHash, item)
    {
      hide FirstMet, MeetsOwn, Count, Pairs, WellFormed, Before;
      ghost var cells := entries[..];
      ghost var e := EmptySlot(cells);
      var i: nat := Home(itemHash, tableSize);
      found := false;
      NothingMetAtHome(cells, itemHash, item);
      while !entries[i].Empty?
        invariant entries[..] == cells && Valid() && Contents() == old(Contents())
        invariant numEntries == old(numEntries) && numDeadEntries == old(numDeadEntries)
        invariant i < tableSize
        invariant NotYetMet(cells, itemHash, item, i)
        decreases Gap(i, e, tableSize)
      {
        if entries[i].Live? && entries[i].item == item {
          MeetsFirst(cells, itemHash, item, i);
          Bury(i);
          assert Contents() == old(Contents()) - {(cells[i].hash, item)};
          assert (cells[i].hash, item) !in Contents();
          return true;
        }
        StepCloses(i, e, tableSize);
        NotYetMetStep(cells, itemHash, item, i);
        i := i + 1;
        if i == tableSize {
          if tableSize == 1 {
            // a table of one slot is never full, so the probe has stopped before this
            assert false;
          }
          i := 0;
        }
      }
      ReachableOf(same, cells);
      ItemIsAbsent(cells, itemHash, item, i);
      NothingMet(cells, itemHash, item, i);
    }

    // dvmHashForeachRemove: 1 removes an entry, any other value but 0 stops the scan
    method ForeachRemove(func: T -> int) returns (val: int)
      requires Valid()
      modifies this`numEntries, this`numDeadEntries, entries
      ensures Valid() && tableSize == old(tableSize)
      ensures val != 1 && Contents() <= old(Contents())
      ensures forall p | p in old(Contents()) && p !in Contents() :: func(p.1) == 1
      ensures val == 0 ==> forall p | p in Contents() :: func(p.1) == 0
      ensures val != 0 ==> exists p :: p in Contents() && func(p.1) == val
      // what the scan has done when it stops is what comes before the item it stops at
      ensures exists n: nat :: n <= tableSize && entries[..] == Swept(old(entries[..]), n, func)
                && (if val == 0 then n == tableSize
                    else n < tableSize && entries[n].Live? && func(entries[n].item) == val)
    {
      ghost var cells := entries[..];
      var i: nat := 0;
      while i < tableSize
        invariant i <= tableSize == |cells| && Valid()
        invariant entries[..] == Swept(cells, i, func)
        invariant Contents() <= old(Contents())
        invariant forall p | p in old(Contents()) && p !in Contents() :: func(p.1) == 1
        invariant forall k | 0 <= k < i && entries[k].Live? :: func(entries[k].item) == 0
      {
        if entries[i].Live? {
          val := func(entries[i].item);
          if val == 1 {
            Bury(i);
          } else if val != 0 {
            assert (entries[i].hash, entries[i].item) in Contents();
            return;
          }
        }
        i := i + 1;
      }
      val := 0;
    }
  }

  // The entry that is met first, if there is one, is filed under this hash.
  ghost predicate MeetsOwn<T>(cells: seq<Cell<T>>, hash: u4, item: T) {
    forall k: nat | FirstMet(cells, hash, item, k) :: cells[k].hash == hash
  }

  lemma MeetsFirst<T>(cells: seq<Cell<T>>, hash: u4, item: T, i: nat)
    requires i < |cells| && cells[i].Live? && cells[i].item == item && NotYetMet(cells, hash, item, i)
    ensures FirstMet(cells, hash, item, i) && (cells[i].hash, item) in Pairs(cells)
    ensures forall k: nat | FirstMet(cells, hash, item, k) :: k == i
    ensures MeetsOwn(cells, hash, item) <==> cells[i].hash == hash
  {
  }

  // A probe that stops at an empty slot without meeting the item meets it nowhere.
  lemma NothingMet<T>(cells: seq<Cell<T>>, hash: u4, item: T, e: nat)
    requires e < |cells| && cells[e].Empty? && NotYetMet(cells, hash, item, e)
    ensures MeetsOwn(cells, hash, item) && forall k: nat :: !FirstMet(cells, hash, item, k)
  {
  }

  // The only entry of a table is met under every hash that starts its probe at the same slot.
  lemma OnlyEntryIsMet<T(!new)>(same: (T, T) -> bool, cells: seq<Cell<T>>, filed: u4, hash: u4, item: T)
    returns (k: nat)
    requires |cells| > 0 && WellFormed(same, cells) && Pairs(cells) == {(filed, item)}
    requires Home(filed, |cells|) == Home(hash, |cells|)
    ensures FirstMet(cells, hash, item, k) && cells[k].hash == filed
  {
    assert (filed, item) in Pairs(cells) && Reachable(cells) && Unique(same, cells) && same(item, item);
    k :| k < |cells| && cells[k].Live? && (cells[k].hash, cells[k].item) == (filed, item);
    assert Reaches(cells, k);
    forall j: nat | j < |cells| && cells[j].Live?
      ensures j == k
    {
      assert (cells[j].hash, cells[j].item) in Pairs(cells);
    }
  }

  // So removing an item under a hash it was never filed under can succeed, and takes away another pair.
  method RemoveIgnoresHash<T(==, !new)>(same: (T, T) -> bool, item: T) returns (table: HashTable<T>, found: bool)
    requires IsEquivalence(same)
    ensures fresh(table) && table.Valid() && found && (1, item) !in table.Contents()
  {
    hide WellFormed, Pairs, LeastPower2, Count;
    table := new HashTable(4, same);
    var added := table.Lookup(1, item, true);
    SizeFour();
    assert table.Contents() == {(1, item)};
    ghost var k := OnlyEntryIsMet(same, table.entries[..], 1, 5, item);
    found := table.Remove(5, item);
  }

  lemma SizeFour()
    ensures LeastPower2(4) == 4 && Home(1, 4) == Home(5, 4)
  {
  }

  // the set has an entry that a lookup for this hash and item answers with
  ghost predicate Holds<T(!new)>(same: (T, T) -> bool, contents: set<(u4, T)>, p: (u4, T)) {
    exists x :: (p.0, x) in contents && same(x, p.1)
  }

  // A table created with dvmHashSize takes that many additions and keeps its size.
  method Preallocate<T(==, !new)>(same: (T, T) -> bool, items: seq<(u4, T)>) returns (table: HashTable<T>)
    requires IsEquivalence(same) && HashSize(|items|) <= MAX_TABLE_SIZE
    ensures fresh(table) && table.Valid() && table.tableSize == LeastPower2(HashSize(|items|))
    ensures table.Contents() <= (set p | p in items)
    ensures forall p | p in items :: Holds(same, table.Contents(), p)
  {
    hide Count, Pairs, WellFormed, IsEquivalence, LeastPower2, HashSize, HashTable.Consistent, HashTable.Contents;
    table := new HashTable(HashSize(|items|), same);
    var i := 0;
    while i < |items|
      invariant i <= |items| && table.Valid() && fresh(table) && fresh(table.entries)
      invariant table.tableSize == LeastPower2(HashSize(|items|)) && table.numDeadEntries == 0
      invariant table.numEntries <= i && table.Contents() <= (set p | p in items) && table.same == same
      invariant forall k | 0 <= k < i :: Holds(same, table.Contents(), items[k])
    {
      ghost var before := table.Contents();
      Reflexive(same, items[i].1);
      HashSizeSuffices(|items|, table.numEntries + 1);
      var _ := table.Lookup(items[i].0, items[i].1, true);
      assert before <= table.Contents();
      i := i + 1;
    }
  }

  // the cells after a scan that has handled the first n of them
  ghost function Swept<T>(cells: seq<Cell<T>>, n: nat, func: T -> int): (swept: seq<Cell<T>>)
    ensures |swept| == |cells|
  {
    seq(|cells|, i requires 0 <= i < |cells| =>
      if i < n && cells[i].Live? && func(cells[i].item) == 1 then Tombstone else cells[i])
  }
}
