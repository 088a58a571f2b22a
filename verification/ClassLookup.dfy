// The class lookup table of libdex/DexFile.cpp.

module ClassLookup {
  import opened Common
  import opened Bits
  import opened Probing

  // a class_def_item takes 32 bytes of a file of less than 2^31 bytes
  const MAX_CLASSES := 0x400_0000

  // A class definition: the offset of its descriptor string and its own offset, both from the start of the file.
  datatype ClassDef = ClassDef(descriptorOff: nat, classDefOff: nat)

  datatype Slot = Slot(classDescriptorHash: u4, classDescriptorOffset: nat, classDefOffset: nat)

  // the class descriptors, in the order of the file
  ghost function Keys(strings: nat -> seq<u1>, classes: seq<ClassDef>): (keys: seq<seq<u1>>)
    ensures |keys| == |classes|
  {
    seq(|classes|, k requires 0 <= k < |classes| => strings(classes[k].descriptorOff))
  }

  lemma KeysExtend(strings: nat -> seq<u1>, classes: seq<ClassDef>, n: nat)
    requires n < |classes|
    ensures Keys(strings, classes[..n + 1]) == Keys(strings, classes[..n]) + [strings(classes[n].descriptorOff)]
  {
  }

  // The first class in the file that has this descriptor.
  ghost function FirstDefinition(strings: nat -> seq<u1>, classes: seq<ClassDef>, descriptor: seq<u1>): Option<nat> {
    match FirstIndex(Keys(strings, classes), descriptor, 0)
    case Some(k) => Some(classes[k].classDefOff)
    case None => None
  }

  function DescriptorHash(descriptor: seq<u1>): u4 {
    Hash31(1, descriptor)
  }

  // classDescriptorHash
  method ClassDescriptorHash(str: seq<u1>) returns (hash: u4)
    ensures hash == DescriptorHash(str)
  {
    hash := 1;
    var i := 0;
    while i < |str|
      invariant i <= |str| && hash == Hash31(1, str[..i])
    {
      hash := (hash * 31 + str[i]) % TWO32;
      assert str[..i + 1][..i] == str[..i];
      i := i + 1;
    }
    assert str[..|str|] == str;
  }

  class DexFile {
    // the string at every offset of the file, up to its terminating zero
    const strings: nat -> seq<u1>
    const classDefs: seq<ClassDef>
    var table: array<Slot>
    var numEntries: nat
    // where each class has been put
    ghost var slotOf: seq<nat>

    ghost function Slots(): (view: View<seq<u1>>)
      reads this, table
      ensures |view| == table.Length
    {
      seq(table.Length, i requires 0 <= i < table.Length reads this, table =>
        if table[i].classDescriptorOffset == 0 then None else Some(strings(table[i].classDescriptorOffset)))
    }

    // The table holds the first n classes.
    ghost predicate Holds(n: nat)
      reads this, table
    {
      && n <= |classDefs| && numEntries == table.Length
      && Built(Slots(), Keys(strings, classDefs[..n]), slotOf, DescriptorHash)
      && (forall k | 0 <= k < n :: slotOf[k] < table.Length &&
            table[slotOf[k]] == Slot(DescriptorHash(strings(classDefs[k].descriptorOff)),
                                     classDefs[k].descriptorOff, classDefs[k].classDefOff))
      && (forall i | 0 <= i < table.Length && table[i].classDescriptorOffset != 0 ::
            table[i].classDescriptorHash == DescriptorHash(strings(table[i].classDescriptorOffset)))
    }

    ghost predicate Valid()
      reads this, table
    {
      Holds(|classDefs|) && 1 <= |classDefs| < numEntries
    }

    // dexCreateClassLookup; a table for no class has no slots
    constructor (strings: nat -> seq<u1>, classDefs: seq<ClassDef>)
      requires |classDefs| <= MAX_CLASSES
      requires forall k | 0 <= k < |classDefs| :: classDefs[k].descriptorOff != 0
      ensures classDefs != [] ==> Valid() && numEntries == LeastPower2(2 * |classDefs|)
      ensures classDefs == [] ==> numEntries == 0
      ensures numEntries == table.Length && fresh(table)
      ensures this.strings == strings && this.classDefs == classDefs
    {
      hide Built, LeastPower2, Occupied, Keys, Hash31;
      var n := DexRoundUpPower2(2 * |classDefs|);
      this.strings := strings;
      this.classDefs := classDefs;
      numEntries := n;
      table := new Slot[n](_ => Slot(0, 0, 0));
      slotOf := [];
      new;
      if classDefs != [] {
        HoldsNothing();
      }
      var i: nat := 0;
      while i < |classDefs|
        invariant i <= |classDefs| && (classDefs != [] ==> Holds(i)) && fresh(table)
        invariant numEntries == n == table.Length
      {
        ClassLookupAdd(i);
        i := i + 1;
      }
    }

    lemma HoldsNothing()
      requires numEntries == table.Length > 0 && slotOf == []
      requires forall i | 0 <= i < table.Length :: table[i] == Slot(0, 0, 0)
      ensures Holds(0)
    {
      NothingOccupied(Slots());
    }

    // classLookupAdd
    method ClassLookupAdd(n: nat)
      requires n < |classDefs| && classDefs[n].descriptorOff != 0 && Holds(n) && n < numEntries
      modifies this`slotOf, table
      ensures Holds(n + 1)
    {
      hide Built, Hash31, Before, Home;
      var stringOff := classDefs[n].descriptorOff;
      var hash := ClassDescriptorHash(strings(stringOff));
      ghost var view := Slots();
      ghost var keys := Keys(strings, classDefs[..n]);
      var idx := ProbeForSpot(hash, n);
      assert view == Slots();
      InsertBuilt(view, keys, slotOf, DescriptorHash, strings(stringOff), idx);
      table[idx] := Slot(hash, stringOff, classDefs[n].classDefOff);
      slotOf := slotOf + [idx];
      assert Slots() == view[idx := Some(strings(stringOff))];
      KeysExtend(strings, classDefs, n);
    }

    // the loop of classLookupAdd
    method ProbeForSpot(hash: u4, n: nat) returns (idx: nat)
      requires n < numEntries && Holds(n)
      ensures idx < numEntries && table[idx].classDescriptorOffset == 0
      ensures forall j: nat | j < |Slots()| && Before(Home(hash, |Slots()|), j, idx) :: Slots()[j].Some?
    {
      ghost var view := Slots();
      ghost var e := FreeSlot(view);
      idx := Home(hash, numEntries);
      while table[idx].classDescriptorOffset != 0
        invariant idx < numEntries
        invariant forall j: nat | j < |view| && Before(Home(hash, |view|), j, idx) :: view[j].Some?
        decreases Gap(idx, e, numEntries)
      {
        StepCloses(idx, e, numEntries);
        StepExtends(Home(hash, numEntries), idx, numEntries);
        idx := Next(idx, numEntries);
      }
    }

    // dexFindClass
    method FindClass(descriptor: seq<u1>) returns (result: Option<nat>)
      requires Valid()
      ensures result == FirstDefinition(strings, classDefs, descriptor)
    {
      var hash := ClassDescriptorHash(descriptor);
      ghost var view := Slots();
      ghost var keys := Keys(strings, classDefs);
      assert classDefs[..|classDefs|] == classDefs;
      ghost var e := FreeSlot(view);
      var idx: nat := Home(hash, numEntries);
      while true
        invariant idx < numEntries
        invariant forall j: nat | j < |view| && Before(Home(hash, |view|), j, idx) ::
                    view[j].Some? && view[j] != Some(descriptor)
        decreases Gap(idx, e, numEntries)
      {
        var offset := table[idx].classDescriptorOffset;
        if offset == 0 {
          ProbeFindsFirst(view, keys, slotOf, DescriptorHash, descriptor, idx);
          return None;
        }
        if table[idx].classDescriptorHash == hash && strings(offset) == descriptor {
          ProbeFindsFirst(view, keys, slotOf, DescriptorHash, descriptor, idx);
          return Some(table[idx].classDefOffset);
        }
        StepCloses(idx, e, numEntries);
        StepExtends(Home(hash, numEntries), idx, numEntries);
        idx := Next(idx, numEntries);
      }
    }
  }
}
