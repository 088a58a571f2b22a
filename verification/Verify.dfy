// dexSwapAndVerify of libdex/DexSwapVerify.cpp as a whole: its passes over one file in memory, and what acceptance by
// the passes before gives to cross verification.

module Verify {
  import opened Common
  import opened CrossVerify
  import opened DataMap
  import opened Mutf8
  import opened Sections
  import opened Visitors
  import L = Leb128

  // where the k-th item of an id section is visited
  function EntryAt(d: Dex, type_: u2, k: nat): nat {
    Aligned(d.ids(type_).0, 4) + EntrySize(type_) * k
  }

  function TableOf<T>(d: Dex, type_: u2, read: nat -> T): (table: seq<T>)
    ensures |table| == Limit(d, type_)
  {
    seq(Limit(d, type_), k requires 0 <= k => read(EntryAt(d, type_, k)))
  }

  // The tables whose items are visited where an index finds them later: dexFileSetupBasicPointers does not align them.
  function AlignedTables(d: Dex): set<u2> {
    set t | t in {STRING_ID_ITEM, TYPE_ID_ITEM, PROTO_ID_ITEM, FIELD_ID_ITEM, METHOD_ID_ITEM} && d.ids(t).0 % 4 == 0
  }

  lemma EntryIsReadIff(d: Dex, type_: u2, k: nat)
    requires IsTableType(type_)
    ensures EntryAt(d, type_, k) == d.ids(type_).0 + EntrySize(type_) * k <==> type_ in AlignedTables(d)
  {
  }

  function FileOf(d: Dex, dataMap: seq<(nat, u2)>): DexFile {
    DexFile(d.mem, dataMap, AlignedTables(d),
            TableOf(d, STRING_ID_ITEM, pos => U4At(d.mem, pos)),
            TableOf(d, TYPE_ID_ITEM, pos => U4At(d.mem, pos)),
            TableOf(d, PROTO_ID_ITEM, (pos: nat) =>
              ProtoId(U4At(d.mem, pos), U4At(d.mem, pos + 4), U4At(d.mem, pos + 8))),
            TableOf(d, FIELD_ID_ITEM, (pos: nat) =>
              FieldId(U2At(d.mem, pos), U2At(d.mem, pos + 2), U4At(d.mem, pos + 4))),
            TableOf(d, METHOD_ID_ITEM, (pos: nat) =>
              MethodId(U2At(d.mem, pos), U2At(d.mem, pos + 2), U4At(d.mem, pos + 4))))
  }

  // ----- A file whose string_ids are read between its verified items -----

  // 176 bytes: the header, string_ids at 0x71 with padding up to 0x74, one string id, an empty string, and the map.
  ghost predicate IsUnalignedFile(mem: Memory) {
    && U4At(mem, 32) == 176 && U4At(mem, 36) == 0x70 && U4At(mem, 40) == ENDIAN_CONSTANT
    && U4At(mem, 44) == 0 && U4At(mem, 48) == 0 && U4At(mem, 52) == 0x7c
    && U4At(mem, 56) == 1 && U4At(mem, 60) == 0x71
    && (forall t | 1 < t <= 6 :: U4At(mem, 48 + 8 * t) == 0 && U4At(mem, 52 + 8 * t) == 0)
    && U4At(mem, 104) == 56 && U4At(mem, 108) == 0x78
    && AllZero(mem, 0x70, 0x74) && U4At(mem, 0x74) == 0x78 && AllZero(mem, 0x78, 0x7c)
    && U4At(mem, 0x7c) == 4
    && MapItemAt(mem, 0x80) == HEADER && MapItemAt(mem, 0x8c) == STRINGS
    && MapItemAt(mem, 0x98) == DATA && MapItemAt(mem, 0xa4) == MAP
  }

  const HEADER := MapItem(HEADER_ITEM, 1, 0)
  const STRINGS := MapItem(STRING_ID_ITEM, 1, 0x71)
  const DATA := MapItem(STRING_DATA_ITEM, 1, 0x78)
  const MAP := MapItem(MAP_LIST, 1, 0x7c)

  // such a file; what the header says of itself is left out
  function UnalignedByte(k: nat): u1 {
    match k
    case 32 => 176  case 36 => 0x70
    case 40 => 0x78  case 41 => 0x56  case 42 => 0x34  case 43 => 0x12
    case 52 => 0x7c  case 56 => 1  case 60 => 0x71  case 104 => 56  case 108 => 0x78
    case 0x74 => 0x78  case 0x7c => 4
    case 0x84 => 1
    case 0x8c => 1  case 0x90 => 1  case 0x94 => 0x71
    case 0x98 => 2  case 0x99 => 0x20  case 0x9c => 1  case 0xa0 => 0x78
    case 0xa5 => 0x10  case 0xa8 => 1  case 0xac => 0x7c
    case _ => 0
  }

  lemma UnalignedFileExists()
    ensures IsUnalignedFile(UnalignedByte)
  {
    hide U4At, MapItemAt, UnalignedByte;
    UnalignedHeader();
    UnalignedIds();
    UnalignedMapItems();
  }

  lemma WordOf(pos: nat, low: u1, high: u1)
    requires UnalignedByte(pos) == low && UnalignedByte(pos + 1) == high
    requires UnalignedByte(pos + 2) == 0 && UnalignedByte(pos + 3) == 0
    ensures U4At(UnalignedByte, pos) == low + high * 0x100
  {
    hide UnalignedByte;
  }

  lemma EndianTag()
    ensures U4At(UnalignedByte, 40) == ENDIAN_CONSTANT
  {
  }

  lemma UnalignedHeader()
    ensures var mem := UnalignedByte;
            && U4At(mem, 32) == 176 && U4At(mem, 36) == 0x70 && U4At(mem, 40) == ENDIAN_CONSTANT
            && U4At(mem, 44) == 0 && U4At(mem, 48) == 0 && U4At(mem, 52) == 0x7c
            && U4At(mem, 104) == 56 && U4At(mem, 108) == 0x78
  {
    hide U4At;
    EndianTag();
    WordOf(32, 176, 0);
    WordOf(36, 0x70, 0);
    WordOf(44, 0, 0);
    WordOf(48, 0, 0);
    WordOf(52, 0x7c, 0);
    WordOf(104, 56, 0);
    WordOf(108, 0x78, 0);
  }

  lemma UnalignedIds()
    ensures var mem := UnalignedByte;
            && U4At(mem, 56) == 1 && U4At(mem, 60) == 0x71
            && (forall t | 1 < t <= 6 :: U4At(mem, 48 + 8 * t) == 0 && U4At(mem, 52 + 8 * t) == 0)
            && AllZero(mem, 0x70, 0x74) && U4At(mem, 0x74) == 0x78 && AllZero(mem, 0x78, 0x7c)
  {
    hide U4At;
    WordOf(56, 1, 0);
    WordOf(60, 0x71, 0);
    WordOf(0x74, 0x78, 0);
    forall t | 1 < t <= 6
      ensures U4At(UnalignedByte, 48 + 8 * t) == 0 && U4At(UnalignedByte, 52 + 8 * t) == 0
    {
      WordOf(48 + 8 * t, 0, 0);
      WordOf(52 + 8 * t, 0, 0);
    }
  }

  lemma UnalignedMapItems()
    ensures var mem := UnalignedByte;
            && U4At(mem, 0x7c) == 4
            && MapItemAt(mem, 0x80) == HEADER && MapItemAt(mem, 0x8c) == STRINGS
            && MapItemAt(mem, 0x98) == DATA && MapItemAt(mem, 0xa4) == MAP
  {
    hide U4At;
    WordOf(0x7c, 4, 0);
    WordOf(0x84, 1, 0);
    WordOf(0x88, 0, 0);
    WordOf(0x90, 1, 0);
    WordOf(0x94, 0x71, 0);
    WordOf(0x9c, 1, 0);
    WordOf(0xa0, 0x78, 0);
    WordOf(0xa8, 1, 0);
    WordOf(0xac, 0x7c, 0);
  }

  function UnalignedPieces(): seq<Piece> {
    [Item(HEADER_ITEM, 0, 0x70), Padding(0x70, 0x71),
     Padding(0x71, 0x74), Item(STRING_ID_ITEM, 0x74, 0x78),
     Item(STRING_DATA_ITEM, 0x78, 0x7a), Padding(0x7a, 0x7c),
     Item(MAP_LIST, 0x7c, 0xb0)]
  }

  // what the sections need of the file
  ghost predicate IsUnaligned(d: Dex, visit: Visitor) {
    && IsDexVisitor(d, visit) && d.fileLen == 176 && d.fileSize == 176 && d.headerSize == 0x70
    && d.mapOff == 0x7c && d.dataOff == 0x78 && d.dataSize == 56
    && (forall t: u2 | IsIdType(t) :: d.ids(t) == if t == STRING_ID_ITEM then (0x71, 1) else (0, 0))
    && AllZero(d.mem, 0x70, 0x74) && U4At(d.mem, 0x74) == 0x78 && AllZero(d.mem, 0x78, 0x7c)
  }

  lemma UnalignedStrings(d: Dex, visit: Visitor)
    requires IsUnaligned(d, visit)
    ensures SectionItems(d, visit, STRING_ID_ITEM, 4, 0x71, 1)
         == Some([Padding(0x71, 0x74), Item(STRING_ID_ITEM, 0x74, 0x78)])
  {
    hide U4At;
    var padding, item := [Padding(0x71, 0x74)], [Item(STRING_ID_ITEM, 0x74, 0x78)];
    assert Aligned(0x71, 4) == 0x74 && Pad(d, 0x71, 0x74) == Some(padding);
    assert visit(STRING_ID_ITEM, 0x74) == Some(0x78);
    assert NextItem(d, visit, STRING_ID_ITEM, 4, 0x71) == Some(padding + item);
    assert SectionItems(d, visit, STRING_ID_ITEM, 4, 0x78, 0) == Some([]);
    assert padding + item + [] == [padding[0], item[0]];
  }

  lemma UnalignedData(d: Dex, visit: Visitor)
    requires IsUnaligned(d, visit)
    ensures SectionItems(d, visit, STRING_DATA_ITEM, 1, 0x78, 1) == Some([Item(STRING_DATA_ITEM, 0x78, 0x7a)])
  {
    hide U4At;
    var item := [Item(STRING_DATA_ITEM, 0x78, 0x7a)];
    assert d.mem(0x78) == 0 && d.mem(0x79) == 0;
    assert L.UnsignedAt(d.mem, 0x78) == L.Read(0, 0x79);
    assert visit(STRING_DATA_ITEM, 0x78) == Some(0x7a);
    assert [] + item == item;
    assert NextItem(d, visit, STRING_DATA_ITEM, 1, 0x78) == Some(item);
    assert SectionItems(d, visit, STRING_DATA_ITEM, 1, 0x7a, 0) == Some([]);
    assert item + [] == item;
  }

  // the padding before a section, the section, and the rest
  lemma OneSection(d: Dex, visit: Visitor, items: seq<MapItem>, last: nat, section: seq<Piece>, rest: seq<Piece>)
    requires items != [] && last <= items[0].offset && Pad(d, last, items[0].offset) != None
    requires SectionOf(d, visit, 4, items[0]) == Some(section)
    requires Everything(d, visit, 4, items[1..], EndOf(section, items[0].offset)) == Some(rest)
    ensures Everything(d, visit, 4, items, last) == Some(Pad(d, last, items[0].offset).value + section + rest)
  {
  }

  lemma UnalignedSections(d: Dex, visit: Visitor)
    requires IsUnaligned(d, visit)
    ensures Everything(d, visit, 4, [HEADER, STRINGS, DATA, MAP], 0) == Some(UnalignedPieces())
  {
    hide SectionItems, IsDexVisitor, Everything, U4At;
    UnalignedStrings(d, visit);
    UnalignedData(d, visit);
    var items, p := [HEADER, STRINGS, DATA, MAP], UnalignedPieces();
    assert items[1..] == [STRINGS, DATA, MAP] && [STRINGS, DATA, MAP][1..] == [DATA, MAP];
    assert [DATA, MAP][1..] == [MAP] && [MAP][1..] == [];
    assert p[6..] == [p[6]] && p[4..5] == [p[4]] && p[2..4] == [p[2], p[3]] && p[..1] == [p[0]];
    NothingLeft(d, visit, 0xb0);
    OneSection(d, visit, [MAP], 0x7a, p[6..], []);
    assert Pad(d, 0x7a, 0x7c).value + p[6..] + [] == p[5..];
    OneSection(d, visit, [DATA, MAP], 0x78, p[4..5], p[5..]);
    assert Pad(d, 0x78, 0x78).value + p[4..5] + p[5..] == p[4..];
    OneSection(d, visit, [STRINGS, DATA, MAP], 0x70, p[2..4], p[4..]);
    assert Pad(d, 0x70, 0x71).value + p[2..4] + p[4..] == p[1..];
    OneSection(d, visit, items, 0, p[..1], p[1..]);
    assert Pad(d, 0, 0).value + p[..1] + p[1..] == p;
  }

  lemma NothingLeft(d: Dex, visit: Visitor, last: nat)
    ensures Everything(d, visit, 4, [], last) == Some([])
  {
  }

  lemma UnalignedMap(d: Dex, visit: Visitor)
    requires IsUnaligned(d, visit) && MapItems(d) == [HEADER, STRINGS, DATA, MAP]
    ensures MapAccepted(d)
  {
    hide MapItems, DataItems, HasType, IsDexVisitor, U4At;
    var items := MapItems(d);
    UnalignedDataItems(items);
    UnalignedTypes(items);
  }

  lemma UnalignedTypes(items: seq<MapItem>)
    requires items == [HEADER, STRINGS, DATA, MAP]
    ensures HasType(items, HEADER_ITEM) && HasType(items, STRING_ID_ITEM) && HasType(items, MAP_LIST)
  {
    assert items[0].type_ == HEADER_ITEM && items[1].type_ == STRING_ID_ITEM && items[3].type_ == MAP_LIST;
  }

  lemma UnalignedDataItems(items: seq<MapItem>)
    requires items == [HEADER, STRINGS, DATA, MAP]
    ensures DataItems(items) == 2
  {
    NoDataItems();
    DataItemsAt(items, 3);
    DataItemsAt(items, 2);
    DataItemsAt(items, 1);
    DataItemsAt(items, 0);
    assert items[0..] == items && items[4..] == [];
  }

  // ----- What swapping has established -----

  lemma EntryInRange(d: Dex, visit: Visitor, type_: u2, k: nat)
    requires SectionsAccepted(d, visit) && IsDexVisitor(d, visit)
    requires IsTableType(type_) && k < Limit(d, type_)
    ensures IndicesInRange(d, type_, EntryAt(d, type_, k))
  {
    hide Everything, ItemsAccepted, Aligned, IndicesInRange, SectionItems, MapItems;
    var items := MapItems(d);
    assert IsIdType(type_) && d.ids(type_) != (0, 0) && HasType(items, type_);
    var i: nat :| i < |items| && items[i].type_ == type_;
    EverySectionPasses(d, visit, |items|, items, 0, i);
    EntryVisited(d, visit, type_, EntrySize(type_), items[i].offset, items[i].size, k);
    assert visit(type_, EntryAt(d, type_, k)) == IdItemEnd(d, type_, EntryAt(d, type_, k));
  }

  // an item in the data map has been accepted by its visitor
  lemma MappedIsAccepted(d: Dex, visit: Visitor, off: nat, type_: u2)
    requires SectionsAccepted(d, visit) && (off, type_) in Mapped(Pieces(d, visit))
    requires type_ == STRING_DATA_ITEM || type_ == TYPE_LIST
    ensures visit(type_, off).Some?
  {
    hide Everything, Mapped, MapAccepted, MapItems;
    MappedIsVisited(Pieces(d, visit), off, type_);
    var end :| Item(type_, off, end) in Pieces(d, visit);
    ItemVisited(d, visit, |MapItems(d)|, MapItems(d), 0, Item(type_, off, end));
  }

  // Accepted sections give cross verification what it relies on, and no more.
  lemma AcceptedIsSwapped(d: Dex, visit: Visitor)
    requires SectionsAccepted(d, visit) && IsDexVisitor(d, visit)
    ensures FileOf(d, Mapped(Pieces(d, visit))).Swapped()
  {
    hide SectionsAccepted, Mapped, Pieces, EntryAt, U2At, U4At;
    var f := FileOf(d, Mapped(Pieces(d, visit)));
    forall off: nat | (off, STRING_DATA_ITEM) in f.dataMap
      ensures IsString(f.mem, off)
    {
      MappedIsAccepted(d, visit, off, STRING_DATA_ITEM);
      StringDataIsString(d, off);
    }
    forall off: nat | (off, TYPE_LIST) in f.dataMap
      ensures ListInRange(f.mem, off, |f.typeIds|)
    {
      MappedIsAccepted(d, visit, off, TYPE_LIST);
    }
    IndicesAreInRange(d, visit, f);
  }

  lemma IndicesAreInRange(d: Dex, visit: Visitor, f: DexFile)
    requires SectionsAccepted(d, visit) && IsDexVisitor(d, visit) && f == FileOf(d, f.dataMap)
    ensures forall i | 0 <= i < |f.typeIds| :: f.typeIds[i] < |f.stringIds|
    ensures forall i | 0 <= i < |f.protoIds| ::
              f.protoIds[i].shortyIdx < |f.stringIds| && f.protoIds[i].returnTypeIdx < |f.typeIds|
    ensures forall i | 0 <= i < |f.fieldIds| ::
              && f.fieldIds[i].classIdx < |f.typeIds| && f.fieldIds[i].typeIdx < |f.typeIds|
              && f.fieldIds[i].nameIdx < |f.stringIds|
    ensures forall i | 0 <= i < |f.methodIds| ::
              && f.methodIds[i].classIdx < |f.typeIds| && f.methodIds[i].protoIdx < |f.protoIds|
              && f.methodIds[i].nameIdx < |f.stringIds|
  {
    hide SectionsAccepted, IsDexVisitor, EntryAt, U2At, U4At, EntrySize;
    forall i | 0 <= i < |f.typeIds|
      ensures f.typeIds[i] < |f.stringIds|
    {
      EntryInRange(d, visit, TYPE_ID_ITEM, i);
    }
    forall i | 0 <= i < |f.protoIds|
      ensures f.protoIds[i].shortyIdx < |f.stringIds| && f.protoIds[i].returnTypeIdx < |f.typeIds|
    {
      EntryInRange(d, visit, PROTO_ID_ITEM, i);
    }
    forall i | 0 <= i < |f.fieldIds|
      ensures f.fieldIds[i].classIdx < |f.typeIds| && f.fieldIds[i].typeIdx < |f.typeIds|
      ensures f.fieldIds[i].nameIdx < |f.stringIds|
    {
      EntryInRange(d, visit, FIELD_ID_ITEM, i);
    }
    forall i | 0 <= i < |f.methodIds|
      ensures f.methodIds[i].classIdx < |f.typeIds| && f.methodIds[i].protoIdx < |f.protoIds|
      ensures f.methodIds[i].nameIdx < |f.stringIds|
    {
      EntryInRange(d, visit, METHOD_ID_ITEM, i);
    }
  }

  lemma StringDataIsString(d: Dex, off: nat)
    requires StringDataEnd(d.mem, off, d.fileLen).Some?
    ensures IsString(d.mem, off)
  {
    var size := L.UnsignedAt(d.mem, off);
    var units := AcceptedIsEncoding(d.mem, size.next, d.fileLen, size.value);
  }

  // ----- All passes -----

  // A file is accepted exactly if the header, all sections and all ids pass; and the pass over the ids goes astray,
  // reading what has not been verified, exactly if one of them strays after all before it were accepted.
  method DexSwapAndVerify(mem: Memory, len: nat, visit: Visitor) returns (verdict: Verdict)
    requires HEADER_SIZE <= len < 0x8000_0000
    requires MakesProgress(visit) && IsDexVisitor(HeaderOf(mem, len), visit)
    ensures var d := HeaderOf(mem, len);
            && (verdict == Accepted <==>
                && d.HeaderChecked() && SectionsAccepted(d, visit)
                && Verified(FileOf(d, Mapped(Pieces(d, visit)))))
            && (verdict == Astray <==>
                && d.HeaderChecked() && SectionsAccepted(d, visit) && FileOf(d, Mapped(Pieces(d, visit))).Swapped()
                && Strays(FileOf(d, Mapped(Pieces(d, visit))), MapTypes(d)))
  {
    hide SectionsAccepted, Mapped, Pieces, IsDexVisitor, Dex.HeaderChecked, Strays, Verified, Listed;
    var d := HeaderOf(mem, len);
    var okay := SwapDexHeader(d);
    if !okay {
      return Rejected;
    }
    var dataMap;
    ghost var pieces;
    okay, dataMap, pieces := SwapSections(d, visit);
    if !okay {
      return Rejected;
    }
    AcceptedIsSwapped(d, visit);
    TablesAreListed(d, visit);
    verdict := CrossVerifyIds(FileOf(d, dataMap.Entries()), dataMap, MapTypes(d));
  }

  // So with string_ids listed first and all tables at multiples of four nothing unverified is read.
  lemma AlignedDoesNotStray(d: Dex, visit: Visitor)
    requires d.HeaderChecked() && SectionsAccepted(d, visit) && IsDexVisitor(d, visit)
    requires forall t: u2 | IsTableType(t) :: d.ids(t).0 % 4 == 0
    requires StringsFirst(MapTypes(d))
    ensures var f := FileOf(d, Mapped(Pieces(d, visit)));
            f.Swapped() && !Strays(f, MapTypes(d))
  {
    hide SectionsAccepted, Mapped, Pieces, IsDexVisitor, Dex.HeaderChecked, Strays, StringsFirst, Listed, MapTypes;
    hide DexFile.Swapped;
    var f := FileOf(d, Mapped(Pieces(d, visit)));
    AcceptedIsSwapped(d, visit);
    TablesAreListed(d, visit);
    if Strays(f, MapTypes(d)) {
      StraysEarly(f, MapTypes(d));
    }
  }

  // the types of the sections in the order of the map
  function MapTypes(d: Dex): (types: seq<u2>) {
    seq(|MapItems(d)|, k requires 0 <= k < |MapItems(d)| => MapItems(d)[k].type_)
  }

  lemma SizeIsLimit(d: Dex, dataMap: seq<(nat, u2)>, t: u2)
    requires IsTableType(t)
    ensures Size(FileOf(d, dataMap), t) == Limit(d, t)
  {
  }

  lemma TablesAreListed(d: Dex, visit: Visitor)
    requires SectionsAccepted(d, visit)
    ensures Listed(FileOf(d, Mapped(Pieces(d, visit))), MapTypes(d))
  {
    hide Everything, MapItems, FileOf, ItemsAccepted;
    forall t: u2 | IsTableType(t) && Size(FileOf(d, Mapped(Pieces(d, visit))), t) > 0
      ensures t in MapTypes(d)
    {
      SizeIsLimit(d, Mapped(Pieces(d, visit)), t);
      assert IsIdType(t) && d.ids(t) != (0, 0) && HasType(MapItems(d), t);
      var i: nat :| i < |MapItems(d)| && MapItems(d)[i].type_ == t;
      assert MapTypes(d)[i] == t;
    }
  }

  // The file with unaligned string_ids is accepted, and then read at 0x71, where its string id is not.
  lemma UnalignedIsAccepted(mem: Memory, visit: Visitor)
    requires IsUnalignedFile(mem) && IsDexVisitor(HeaderOf(mem, 176), visit)
    ensures var d := HeaderOf(mem, 176);
            && d.HeaderChecked() && SectionsAccepted(d, visit) && Verified(FileOf(d, Mapped(Pieces(d, visit))))
            && EntryAt(d, STRING_ID_ITEM, 0) == 0x74 && d.ids(STRING_ID_ITEM) == (0x71, 1)
            && U4At(mem, 0x71) != U4At(mem, 0x74)
  {
    hide Everything, MapItemAt, U4At, Verified, IsDexVisitor, MapAccepted;
    var d := HeaderOf(mem, 176);
    assert MapItems(d) == [HEADER, STRINGS, DATA, MAP];
    assert IsUnaligned(d, visit);
    UnalignedSections(d, visit);
    UnalignedMap(d, visit);
    UnalignedIsVerified(d, visit);
    UnalignedWord(mem);
  }

  lemma UnalignedWord(mem: Memory)
    requires AllZero(mem, 0x70, 0x74) && U4At(mem, 0x74) == 0x78
    ensures U4At(mem, 0x71) == 0x7800_0000
  {
  }

  lemma UnalignedTables(d: Dex, visit: Visitor, dataMap: seq<(nat, u2)>)
    requires IsUnaligned(d, visit)
    ensures var f := FileOf(d, dataMap);
            f.stringIds == [0x78] && f.typeIds == [] && f.protoIds == [] && f.fieldIds == [] && f.methodIds == []
  {
    hide U4At, U2At, IsDexVisitor;
    assert Limit(d, STRING_ID_ITEM) == 1 && EntryAt(d, STRING_ID_ITEM, 0) == 0x74;
  }

  lemma OneString(f: DexFile)
    requires f.Swapped() && f.stringIds == [0x78] && f.IsKnown(0)
    requires f.typeIds == [] && f.protoIds == [] && f.fieldIds == [] && f.methodIds == []
    ensures Verified(f)
  {
    hide DexFile.Swapped, Compare;
  }

  lemma UnalignedIsVerified(d: Dex, visit: Visitor)
    requires IsUnaligned(d, visit) && SectionsAccepted(d, visit) && Pieces(d, visit) == UnalignedPieces()
    ensures Verified(FileOf(d, Mapped(Pieces(d, visit))))
  {
    hide SectionsAccepted, IsDexVisitor, Pieces, DexFile.Swapped, FileOf, Verified;
    AcceptedIsSwapped(d, visit);
    assert UnalignedPieces()[4] == Item(STRING_DATA_ITEM, 0x78, 0x7a);
    MappedIsVisited(Pieces(d, visit), 0x78, STRING_DATA_ITEM);
    UnalignedTables(d, visit, Mapped(Pieces(d, visit)));
    IsMapOf(d, Mapped(Pieces(d, visit)));
    OneString(FileOf(d, Mapped(Pieces(d, visit))));
  }

  lemma IsMapOf(d: Dex, dataMap: seq<(nat, u2)>)
    ensures FileOf(d, dataMap).dataMap == dataMap
  {
  }
}
