// The map of data section items that verification builds: libdex/DexDataMap.cpp.

module DataMap {
  import opened Common

  ghost predicate Ascending(entries: seq<(u4, u2)>) {
    forall i, j | 0 <= i < j < |entries| :: entries[i].0 < entries[j].0
  }

  class DexDataMap {
    const max: nat
    const offsets: array<u4>
    const types: array<u2>
    var count: nat

    ghost predicate Valid()
      reads this, offsets, types
    {
      && offsets.Length == types.Length == max && count <= max
      && Ascending(Entries())
    }

    function Entries(): (entries: seq<(u4, u2)>)
      requires count <= offsets.Length && count <= types.Length
      reads this, offsets, types
      ensures |entries| == count
    {
      seq(count, i requires 0 <= i < count requires count <= offsets.Length && count <= types.Length
                   reads this, offsets, types =>
        (offsets[i], types[i]))
    }

    // dexDataMapAlloc
    constructor (maxCount: nat)
      ensures Valid() && Entries() == [] && max == maxCount && fresh(offsets) && fresh(types)
    {
      max := maxCount;
      offsets := new u4[maxCount];
      types := new u2[maxCount];
      count := 0;
    }

    // dexDataMapAdd, which drops what is out of order
    method Add(offset: u4, type_: u2)
      requires Valid() && count < max
      modifies this`count, offsets, types
      ensures Valid()
      ensures Entries() == if old(count) != 0 && old(offsets[count - 1]) >= offset then old(Entries())
                           else old(Entries()) + [(offset, type_)]
    {
      if count != 0 && offsets[count - 1] >= offset {
        return;
      }

      ghost var before := Entries();
      assert forall i | 0 <= i < count :: before[i].0 <= before[count - 1].0;
      offsets[count] := offset;
      types[count] := type_;
      count := count + 1;
      assert Entries() == before + [(offset, type_)];
    }

    // ... which nothing is, if offsets only grow
    method AddLast(offset: u4, type_: u2)
      requires Valid() && count < max && forall i | 0 <= i < count :: Entries()[i].0 < offset
      modifies this`count, offsets, types
      ensures Valid() && Entries() == old(Entries()) + [(offset, type_)]
    {
      assert count > 0 ==> Entries()[count - 1].0 == offsets[count - 1];
      Add(offset, type_);
    }

    // dexDataMapGet
    method Get(offset: u4) returns (type_: int)
      requires Valid()
      ensures type_ == -1 <==> forall t: u2 :: (offset, t) !in Entries()
      ensures type_ != -1 ==> 0 <= type_ < 0x1_0000 && (offset, type_) in Entries()
    {
      ghost var entries := Entries();
      var min: int, max: int := 0, count - 1;
      while max >= min
        invariant 0 <= min <= max + 1 <= count
        invariant forall i | 0 <= i < min :: entries[i].0 < offset
        invariant forall i | max < i < count :: entries[i].0 > offset
        decreases max - min
      {
        var guessIdx := (min + max) / 2;
        var guess := offsets[guessIdx];
        assert entries[guessIdx] == (guess, types[guessIdx]);
        if offset < guess {
          max := guessIdx - 1;
        } else if offset > guess {
          min := guessIdx + 1;
        } else {
          return types[guessIdx];
        }
      }
      return -1;
    }

    // dexDataMapVerify
    method Verify(offset: u4, type_: u2) returns (okay: bool)
      requires Valid()
      ensures okay <==> (offset, type_) in Entries()
    {
      var found := Get(offset);
      OneType(Entries());
      okay := found == type_;
    }
  }

  lemma OneType(entries: seq<(u4, u2)>)
    requires Ascending(entries)
    ensures forall offset: u4, s: u2, t: u2 | (offset, s) in entries && (offset, t) in entries :: s == t
  {
  }
}
