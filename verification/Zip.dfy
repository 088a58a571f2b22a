// The name table of libdex/ZipArchive.cpp: parseZipArchive builds it, dexZipFindEntry searches it.

module Zip {
  import opened Common
  import opened Bits
  import opened Probing

  const CDE_SIGNATURE: u4 := 0x0201_4b50
  const CDE_LEN := 46
  const CDE_NAME_LEN := 28
  const CDE_EXTRA_LEN := 30
  const CDE_COMMENT_LEN := 32
  const CDE_LOCAL_OFFSET := 42
  const ZIP_ENTRY_ADJ := 10000

  function NameBytes(mem: Memory, pos: nat, len: nat): seq<u1> {
    seq(len, i requires 0 <= i < len => mem(pos + i))
  }

  // where an entry has its name, and how long it is; 0 marks a free slot
  datatype Name = Name(name: nat, nameLen: nat)

  // The names in a central directory, if all n of its entries pass the checks.
  function Entries(mem: Memory, dir: nat, length: nat, lfhLimit: int, pos: nat, n: nat): (names: Option<seq<Name>>)
    ensures names.Some? ==> |names.value| == n
    decreases n
  {
    if n == 0 then Some([])
    else if U4At(mem, pos) != CDE_SIGNATURE || pos + CDE_LEN > dir + length
         || ToSigned(U4At(mem, pos + CDE_LOCAL_OFFSET)) >= lfhLimit then None
    else
      var nameLen := U2At(mem, pos + CDE_NAME_LEN);
      var next := pos + CDE_LEN + nameLen + U2At(mem, pos + CDE_EXTRA_LEN) + U2At(mem, pos + CDE_COMMENT_LEN);
      if next - dir > length then None
      else match Entries(mem, dir, length, lfhLimit, next, n - 1)
        case None => None
        case Some(rest) => Some([Name(pos + CDE_LEN, nameLen)] + rest)
  }

  ghost function Keys(mem: Memory, names: seq<Name>): (keys: seq<seq<u1>>)
    ensures |keys| == |names|
  {
    seq(|names|, k requires 0 <= k < |names| => NameBytes(mem, names[k].name, names[k].nameLen))
  }

  function NameHash(name: seq<u1>): u4 {
    Hash31(0, name)
  }

  // computeHash
  method ComputeHash(str: seq<u1>) returns (hash: u4)
    ensures hash == NameHash(str)
  {
    hash := 0;
    var i := 0;
    while i < |str|
      invariant i <= |str| && hash == Hash31(0, str[..i])
    {
      hash := (hash * 31 + str[i]) % TWO32;
      assert str[..i + 1][..i] == str[..i];
      i := i + 1;
    }
    assert str[..|str|] == str;
  }

  class ZipArchive {
    const mem: Memory
    // the mapped central directory
    const dir: nat
    const dirLength: nat
    const mDirectoryOffset: int
    const mNumEntries: u2
    var mHashTable: array<Name>
    var mHashTableSize: nat
    // the names added so far, and their slots
    ghost var names: seq<Name>
    ghost var slotOf: seq<nat>

    constructor (mem: Memory, dir: nat, dirLength: nat, mDirectoryOffset: int, mNumEntries: u2)
      ensures this.mem == mem && this.dir == dir && this.dirLength == dirLength
      ensures this.mDirectoryOffset == mDirectoryOffset && this.mNumEntries == mNumEntries
    {
      this.mem, this.dir, this.dirLength := mem, dir, dirLength;
      this.mDirectoryOffset, this.mNumEntries := mDirectoryOffset, mNumEntries;
      mHashTable := new Name[0];
      mHashTableSize := 0;
    }

    ghost function Slots(): (view: View<seq<u1>>)
      reads this, mHashTable
      ensures |view| == mHashTable.Length
    {
      seq(mHashTable.Length, i requires 0 <= i < mHashTable.Length reads this, mHashTable =>
        if mHashTable[i].name == 0 then None else Some(NameBytes(mem, mHashTable[i].name, mHashTable[i].nameLen)))
    }

    // the table holds these names, and has room to spare
    ghost predicate Holds()
      reads this, mHashTable
    {
      && mHashTableSize == mHashTable.Length
      && Built(Slots(), Keys(mem, names), slotOf, NameHash)
      && |names| <= mNumEntries < mHashTableSize
      && (forall k | 0 <= k < |names| :: slotOf[k] < mHashTable.Length && mHashTable[slotOf[k]] == names[k])
    }

    ghost function Directory(): Option<seq<Name>> {
      Entries(mem, dir, dirLength, mDirectoryOffset, dir, mNumEntries)
    }

    // parseZipArchive: 0 exactly when all entries of the directory pass, and then the table holds them all
    method ParseZipArchive() returns (result: int)
      modifies this`mHashTable, this`mHashTableSize, this`names, this`slotOf
      ensures Holds() && fresh(mHashTable)
      ensures mHashTableSize == LeastPower2(1 + mNumEntries * 4 / 3)
      ensures result == 0 <==> Directory().Some?
      ensures result == 0 ==> names == Directory().value
    {
      hide Built, U2At, U4At, ToSigned, Hash31, LeastPower2;
      result := -1;
      CreateTable();
      ghost var size := mHashTableSize;
      PrependNone(Directory());
      var ptr: nat := dir;
      var i: nat := 0;
      while i < mNumEntries
        invariant i <= mNumEntries && Holds() && |names| == i && fresh(mHashTable) && mHashTableSize == size
        invariant Directory() == Prepend(names, Entries(mem, dir, dirLength, mDirectoryOffset, ptr, mNumEntries - i))
        invariant ptr >= dir
        decreases mNumEntries - i
      {
        if U4At(mem, ptr) != CDE_SIGNATURE {
          return;
        }
        if ptr + CDE_LEN > dir + dirLength {
          return;
        }
        var localHdrOffset := ToSigned(U4At(mem, ptr + CDE_LOCAL_OFFSET));
        if localHdrOffset >= mDirectoryOffset {
          return;
        }
        var fileNameLen := U2At(mem, ptr + CDE_NAME_LEN);
        var extraLen := U2At(mem, ptr + CDE_EXTRA_LEN);
        var commentLen := U2At(mem, ptr + CDE_COMMENT_LEN);
        var hash := ComputeHash(NameBytes(mem, ptr + CDE_LEN, fileNameLen));
        ghost var before := names;
        AddToHash(ptr + CDE_LEN, fileNameLen, hash);
        PrependOne(before, Name(ptr + CDE_LEN, fileNameLen),
                   Entries(mem, dir, dirLength, mDirectoryOffset, ptr + CDE_LEN + fileNameLen + extraLen + commentLen,
                           mNumEntries - i - 1));
        ptr := ptr + CDE_LEN + fileNameLen + extraLen + commentLen;
        if ptr - dir > dirLength {
          return;
        }
        i := i + 1;
      }
      result := 0;
    }

    lemma HoldsNothing()
      requires mHashTableSize == mHashTable.Length > mNumEntries && names == [] && slotOf == []
      requires forall i | 0 <= i < mHashTable.Length :: mHashTable[i] == Name(0, 0)
      ensures Holds()
    {
      NothingOccupied(Slots());
    }

    // the first step of parseZipArchive
    method CreateTable()
      modifies this`mHashTable, this`mHashTableSize, this`names, this`slotOf
      ensures Holds() && fresh(mHashTable) && names == []
      ensures mHashTableSize == LeastPower2(1 + mNumEntries * 4 / 3)
    {
      hide Built, LeastPower2, Occupied, Keys, Hash31;
      var size := DexRoundUpPower2(1 + mNumEntries * 4 / 3);
      mHashTableSize := size;
      mHashTable := new Name[size](_ => Name(0, 0));
      names, slotOf := [], [];
      HoldsNothing();
    }

    // addToHash
    method AddToHash(str: nat, strLen: nat, hash: u4)
      requires Holds() && |names| < mNumEntries && str != 0
      requires hash == NameHash(NameBytes(mem, str, strLen))
      modifies this`names, this`slotOf, mHashTable
      ensures Holds() && names == old(names) + [Name(str, strLen)]
    {
      hide Built, Hash31, Before, Home;
      ghost var view := Slots();
      var ent := ProbeForSpot(hash);
      ghost var key := NameBytes(mem, str, strLen);
      assert view == Slots();
      InsertBuilt(view, Keys(mem, names), slotOf, NameHash, key, ent);
      mHashTable[ent] := Name(str, strLen);
      slotOf := slotOf + [ent];
      assert Keys(mem, names + [Name(str, strLen)]) == Keys(mem, names) + [key];
      names := names + [Name(str, strLen)];
      assert Slots() == view[ent := Some(key)];
    }

    // the loop of addToHash
    method ProbeForSpot(hash: u4) returns (ent: nat)
      requires Holds()
      ensures ent < mHashTableSize && mHashTable[ent].name == 0
      ensures forall j: nat | j < |Slots()| && Before(Home(hash, |Slots()|), j, ent) :: Slots()[j].Some?
    {
      ghost var view := Slots();
      ghost var e := FreeSlot(view);
      ent := Home(hash, mHashTableSize);
      while mHashTable[ent].name != 0
        invariant ent < mHashTableSize
        invariant forall j: nat | j < |view| && Before(Home(hash, |view|), j, ent) :: view[j].Some?
        decreases Gap(ent, e, mHashTableSize)
      {
        StepCloses(ent, e, mHashTableSize);
        StepExtends(Home(hash, mHashTableSize), ent, mHashTableSize);
        ent := Next(ent, mHashTableSize);
      }
    }

    // a free slot, where every probe ends at the latest
    lemma RoomToStop() returns (e: nat)
      requires Holds()
      ensures e < |Slots()| && Slots()[e] == None
    {
      e := FreeSlot(Slots());
    }

    // dexZipFindEntry: the first entry of that name, as an adjusted slot number, or 0
    method FindEntry(entryName: seq<u1>) returns (entry: nat)
      requires Holds()
      ensures match FirstIndex(Keys(mem, names), entryName, 0)
              case None => entry == 0
              case Some(k) => && 10000 <= entry < 10000 + mHashTableSize
                              && mHashTable[entry - 10000] == names[k]
    {
      hide Built, Hash31, FirstIndex;
      var nameLen := |entryName|;
      var hash := ComputeHash(entryName);
      ghost var view := Slots();
      ghost var keys := Keys(mem, names);
      ghost var e := RoomToStop();
      var ent: nat := Home(hash, mHashTableSize);
      while mHashTable[ent].name != 0
        invariant ent < mHashTableSize
        invariant forall j: nat | j < |view| && Before(Home(hash, |view|), j, ent) ::
                    view[j].Some? && view[j] != Some(entryName)
        decreases Gap(ent, e, mHashTableSize)
      {
        assert view[ent] == Some(NameBytes(mem, mHashTable[ent].name, mHashTable[ent].nameLen));
        if mHashTable[ent].nameLen == nameLen && NameBytes(mem, mHashTable[ent].name, nameLen) == entryName {
          ProbeFindsFirst(view, keys, slotOf, NameHash, entryName, ent);
          return ent + ZIP_ENTRY_ADJ;
        }
        assert view[ent] != Some(entryName);
        StepCloses(ent, e, mHashTableSize);
        StepExtends(Home(hash, mHashTableSize), ent, mHashTableSize);
        ent := Next(ent, mHashTableSize);
      }
      ProbeFindsFirst(view, keys, slotOf, NameHash, entryName, ent);
      return 0;
    }
  }

  function Prepend(names: seq<Name>, rest: Option<seq<Name>>): Option<seq<Name>> {
    match rest
    case None => None
    case Some(more) => Some(names + more)
  }

  lemma PrependNone(rest: Option<seq<Name>>)
    ensures Prepend([], rest) == rest
  {
    if rest.Some? {
      assert [] + rest.value == rest.value;
    }
  }

  lemma PrependOne(names: seq<Name>, name: Name, rest: Option<seq<Name>>)
    ensures Prepend(names, Prepend([name], rest)) == Prepend(names + [name], rest)
  {
    if rest.Some? {
      assert names + ([name] + rest.value) == names + [name] + rest.value;
    }
  }

  // ----- A directory that was written -----

  // an entry of the central directory, section 4.3.12 of the ZIP file format specification
  datatype CdEntry = CdEntry(
    versionMadeBy: u2, versionNeeded: u2, flags: u2, compression: u2, modTime: u2, modDate: u2,
    crc: u4, compressedSize: u4, uncompressedSize: u4, disk: u2, internalAttributes: u2, externalAttributes: u4,
    localHeader: u4, name: seq<u1>, extra: seq<u1>, comment: seq<u1>)
  {
    predicate Valid() {
      |name| < 0x1_0000 && |extra| < 0x1_0000 && |comment| < 0x1_0000
    }
  }

  function VersionToSizes(e: CdEntry): (b: seq<u1>)
    ensures |b| == 24
  {
    LE2(e.versionMadeBy) + LE2(e.versionNeeded) + LE2(e.flags) + LE2(e.compression) + LE2(e.modTime) + LE2(e.modDate)
    + LE4(e.crc) + LE4(e.compressedSize) + LE4(e.uncompressedSize)
  }

  function DiskAndAttributes(e: CdEntry): (b: seq<u1>)
    ensures |b| == 8
  {
    LE2(e.disk) + LE2(e.internalAttributes) + LE4(e.externalAttributes)
  }

  // field after field, then the name, the extra field and the comment
  function EntryBytes(e: CdEntry): (b: seq<u1>)
    requires e.Valid()
    ensures |b| == 46 + |e.name| + |e.extra| + |e.comment|
  {
    [0x50, 0x4b, 0x01, 0x02] + (VersionToSizes(e) + (LE2(|e.name|) + (LE2(|e.extra|) + (LE2(|e.comment|)
    + (DiskAndAttributes(e) + (LE4(e.localHeader) + (e.name + (e.extra + e.comment))))))))
  }

  function DirectoryBytes(es: seq<CdEntry>): seq<u1>
    requires forall e | e in es :: e.Valid()
  {
    if es == [] then [] else EntryBytes(es[0]) + DirectoryBytes(es[1..])
  }

  lemma EntryReadsBack(mem: Memory, pos: nat, e: CdEntry)
    requires e.Valid() && At(mem, pos, EntryBytes(e))
    ensures U4At(mem, pos) == CDE_SIGNATURE && U4At(mem, pos + CDE_LOCAL_OFFSET) == e.localHeader
    ensures U2At(mem, pos + CDE_NAME_LEN) == |e.name| && U2At(mem, pos + CDE_EXTRA_LEN) == |e.extra|
    ensures U2At(mem, pos + CDE_COMMENT_LEN) == |e.comment|
    ensures NameBytes(mem, pos + CDE_LEN, |e.name|) == e.name
  {
    hide LE2, LE4, VersionToSizes, DiskAndAttributes, U2At, U4At, At;
    var rest := e.name + (e.extra + e.comment);
    var attributes := DiskAndAttributes(e) + (LE4(e.localHeader) + rest);
    var lengths := LE2(|e.name|) + (LE2(|e.extra|) + (LE2(|e.comment|) + attributes));
    AtConcat(mem, pos, [0x50, 0x4b, 0x01, 0x02], VersionToSizes(e) + lengths);
    AtConcat(mem, pos + 4, VersionToSizes(e), lengths);
    AtConcat(mem, pos + 28, LE2(|e.name|), LE2(|e.extra|) + (LE2(|e.comment|) + attributes));
    AtConcat(mem, pos + 30, LE2(|e.extra|), LE2(|e.comment|) + attributes);
    AtConcat(mem, pos + 32, LE2(|e.comment|), attributes);
    AtConcat(mem, pos + 34, DiskAndAttributes(e), LE4(e.localHeader) + rest);
    AtConcat(mem, pos + 42, LE4(e.localHeader), rest);
    AtConcat(mem, pos + 46, e.name, e.extra + e.comment);
    SignatureIs(mem, pos);
    LE2ReadsBack(mem, pos + 28, |e.name|);
    LE2ReadsBack(mem, pos + 30, |e.extra|);
    LE2ReadsBack(mem, pos + 32, |e.comment|);
    LE4ReadsBack(mem, pos + 42, e.localHeader);
    NameIs(mem, pos + 46, e.name);
  }

  lemma SignatureIs(mem: Memory, pos: nat)
    requires At(mem, pos, [0x50, 0x4b, 0x01, 0x02])
    ensures U4At(mem, pos) == CDE_SIGNATURE
  {
    var b: seq<u1> := [0x50, 0x4b, 0x01, 0x02];
    assert mem(pos + 0) == b[0] && mem(pos + 1) == b[1] && mem(pos + 2) == b[2] && mem(pos + 3) == b[3];
  }

  lemma NameIs(mem: Memory, pos: nat, name: seq<u1>)
    requires At(mem, pos, name)
    ensures NameBytes(mem, pos, |name|) == name
  {
  }

  function NamesOf(es: seq<CdEntry>): seq<seq<u1>> {
    if es == [] then [] else [es[0].name] + NamesOf(es[1..])
  }

  // A directory that was written passes exactly if it ends inside the mapped part of the file and the local headers are
  // in front of it, and then the names are those that were written, in order.
  lemma {:induction false} DirectoryReadsBack(
    mem: Memory, dir: nat, length: nat, lfhLimit: int, pos: nat, es: seq<CdEntry>)
    requires pos >= dir && (forall e | e in es :: e.Valid()) && At(mem, pos, DirectoryBytes(es))
    ensures var names := Entries(mem, dir, length, lfhLimit, pos, |es|);
            && (names.Some? <==> && (es == [] || pos + |DirectoryBytes(es)| <= dir + length)
                                 && forall e | e in es :: ToSigned(e.localHeader) < lfhLimit)
            && (names.Some? ==> Keys(mem, names.value) == NamesOf(es))
    decreases es
  {
    hide EntryBytes, U2At, U4At, ToSigned, NameBytes, At;
    if es != [] {
      var e, rest := es[0], es[1..];
      var next := pos + |EntryBytes(e)|;
      AtConcat(mem, pos, EntryBytes(e), DirectoryBytes(rest));
      EntryReadsBack(mem, pos, e);
      DirectoryReadsBack(mem, dir, length, lfhLimit, next, rest);
      assert forall x :: x in es <==> x == e || x in rest;
      var names := Entries(mem, dir, length, lfhLimit, next, |rest|);
      if names.Some? {
        var all := [Name(pos + CDE_LEN, |e.name|)] + names.value;
        assert Keys(mem, all) == [e.name] + Keys(mem, names.value);
      }
    }
  }
}
