// The sections of a file, as libdex/DexSwapVerify.cpp walks them: swapMap, iterateSectionWithOptionalUpdate,
// iterateDataSection and swapEverythingButHeaderAndMap. What visits one item is a parameter here.

module Sections {
  import opened Common
  import opened DataMap

  const HEADER_ITEM: u2 := 0x0000
  const STRING_ID_ITEM: u2 := 0x0001
  const TYPE_ID_ITEM: u2 := 0x0002
  const CLASS_DEF_ITEM: u2 := 0x0006
  const MAP_LIST: u2 := 0x1000
  const TYPE_LIST: u2 := 0x1001
  const ANNOTATION_SET_ITEM: u2 := 0x1003
  const CLASS_DATA_ITEM: u2 := 0x2000
  const STRING_DATA_ITEM: u2 := 0x2002
  const DEBUG_INFO_ITEM: u2 := 0x2003
  const ANNOTATION_ITEM: u2 := 0x2004
  const ENCODED_ARRAY_ITEM: u2 := 0x2005
  const ANNOTATIONS_DIRECTORY_ITEM: u2 := 0x2006

  datatype MapItem = MapItem(type_: u2, size: u4, offset: u4)

  const ENDIAN_CONSTANT: u4 := 0x1234_5678
  const HEADER_SIZE := 0x70

  // What the passes need of the header; ids gives offset and size of the id section of a type.
  datatype Dex = Dex(mem: Memory, fileLen: nat, fileSize: u4, headerSize: u4, endianTag: u4, linkOff: u4, linkSize: u4,
                     mapOff: u4, dataOff: u4, dataSize: u4, ids: u2 -> (u4, u4))
  {
    // what dexSwapAndVerify and swapDexHeader check
    predicate HeaderChecked() {
      && HEADER_SIZE <= fileLen < 0x8000_0000
      && ToSigned(fileSize) <= fileLen
      && endianTag == ENDIAN_CONSTANT
      && linkOff + linkSize <= fileLen && dataOff + dataSize <= fileLen
      && headerSize >= HEADER_SIZE
    }
  }

  // the header of the file in memory
  function HeaderOf(mem: Memory, fileLen: nat): Dex {
    Dex(mem, fileLen, U4At(mem, 32), U4At(mem, 36), U4At(mem, 40), U4At(mem, 48), U4At(mem, 44), U4At(mem, 52),
        U4At(mem, 108), U4At(mem, 104), (t: u2) => (U4At(mem, 52 + 8 * t), U4At(mem, 48 + 8 * t)))
  }

  function MapItemAt(mem: Memory, pos: nat): MapItem {
    MapItem(U2At(mem, pos), U4At(mem, pos + 4), U4At(mem, pos + 8))
  }

  // the map_list
  function MapItems(d: Dex): (items: seq<MapItem>)
    ensures |items| == U4At(d.mem, d.mapOff)
  {
    seq(U4At(d.mem, d.mapOff), k requires 0 <= k => MapItemAt(d.mem, d.mapOff + 4 + 12 * k))
  }

  // checkPtrRange on 32-bit offsets
  predicate InRange(d: Dex, start: u4, end: u4) {
    start <= end <= d.fileLen
  }

  // The length check of dexSwapAndVerify, which compares as int, swapDexHeader, and the check of the header's size.
  method SwapDexHeader(d: Dex) returns (okay: bool)
    requires HEADER_SIZE <= d.fileLen < 0x8000_0000
    ensures okay <==> d.HeaderChecked()
  {
    var expectedLen := ToSigned(d.fileSize);
    if d.fileLen < expectedLen {
      return false;
    }
    if d.endianTag != ENDIAN_CONSTANT {
      return false;
    }
    var linkEnd := (d.linkOff + d.linkSize) % TWO32;
    var dataEnd := (d.dataOff + d.dataSize) % TWO32;
    if !InRange(d, d.linkOff, linkEnd) || !InRange(d, d.dataOff, dataEnd) {
      return false;
    }
    return d.headerSize >= HEADER_SIZE;
  }

  // The visitor of an item type: it fails, or answers where the item ends.
  type Visitor = (u2, nat) -> Option<nat>

  ghost predicate MakesProgress(visit: Visitor) {
    forall type_, start: nat :: visit(type_, start).Some? ==> visit(type_, start).value > start
  }

  // isDataSectionType
  predicate IsDataSectionType(type_: u2) {
    type_ > CLASS_DEF_ITEM
  }

  predicate IsIdType(type_: u2) {
    STRING_ID_ITEM <= type_ <= CLASS_DEF_ITEM
  }

  // the types mapTypeToBitMask has a bit for
  predicate IsKnownType(type_: u2) {
    type_ <= CLASS_DEF_ITEM || MAP_LIST <= type_ <= ANNOTATION_SET_ITEM
    || CLASS_DATA_ITEM <= type_ <= ANNOTATIONS_DIRECTORY_ITEM
  }

  // the types whose items go into the data map
  predicate IsMapped(type_: u2) {
    IsDataSectionType(type_) && type_ != MAP_LIST
  }

  function AlignmentOf(type_: u2): (a: nat)
    ensures a == 1 || a == 4
  {
    if type_ in {CLASS_DATA_ITEM, STRING_DATA_ITEM, DEBUG_INFO_ITEM, ANNOTATION_ITEM, ENCODED_ARRAY_ITEM} then 1 else 4
  }

  // ----- swapMap -----

  // the number of items in the data section that a map announces
  function DataItems(items: seq<MapItem>): nat {
    if items == [] then 0
    else (if IsDataSectionType(items[0].type_) then items[0].size else 0) + DataItems(items[1..])
  }

  lemma DataItemsAt(items: seq<MapItem>, i: nat)
    requires i < |items|
    ensures DataItems(items[i..])
         == (if IsDataSectionType(items[i].type_) then items[i].size else 0) + DataItems(items[i + 1..])
  {
    assert items[i..][1..] == items[i + 1..];
  }

  lemma NoDataItems()
    ensures DataItems([]) == 0
  {
  }

  // what the loop over the map items checks
  ghost predicate ItemsAccepted(d: Dex, items: seq<MapItem>) {
    && (forall i, j | 0 <= i < j < |items| :: items[i].offset < items[j].offset && items[i].type_ != items[j].type_)
    && (forall i | 0 <= i < |items| :: items[i].offset < d.fileSize && IsKnownType(items[i].type_))
    && DataItems(items) <= d.dataSize
  }

  ghost predicate MapAccepted(d: Dex) {
    var items := MapItems(d);
    && d.mapOff + 4 + 12 * |items| <= d.fileLen
    && ItemsAccepted(d, items)
    && HasType(items, HEADER_ITEM) && HasType(items, MAP_LIST)
    && (forall t: u2 | IsIdType(t) && d.ids(t) != (0, 0) :: HasType(items, t))
  }

  ghost predicate HasType(items: seq<MapItem>, type_: u2) {
    exists i :: 0 <= i < |items| && items[i].type_ == type_
  }

  method CheckMapItems(d: Dex, items: seq<MapItem>) returns (okay: bool, dataItemCount: nat, used: set<u2>)
    ensures okay <==> ItemsAccepted(d, items)
    ensures okay ==> dataItemCount == DataItems(items) && forall t :: t in used <==> HasType(items, t)
  {
    hide HasType, IsKnownType, DataItems, IsDataSectionType;
    okay, dataItemCount, used := false, 0, {};
    NoDataItems();
    assert items[0..] == items;
    var dataItemsLeft: int := d.dataSize;
    var lastOffset: int := 0;
    NoTypes();
    assert items[..0] == [];
    var i := 0;
    while i < |items|
      invariant i <= |items|
      invariant forall j, k | 0 <= j < k < i :: items[j].offset < items[k].offset && items[j].type_ != items[k].type_
      invariant forall j | 0 <= j < i :: items[j].offset < d.fileSize && IsKnownType(items[j].type_)
      invariant forall j | 0 <= j < i :: items[j].offset <= lastOffset && items[j].type_ in used
      invariant dataItemsLeft == d.dataSize - dataItemCount >= 0
      invariant dataItemCount + DataItems(items[i..]) == DataItems(items)
      invariant forall t :: t in used <==> HasType(items[..i], t)
      invariant i > 0 ==> lastOffset == items[i - 1].offset
    {
      var item := items[i];
      if i > 0 && lastOffset >= item.offset {
        return;
      }
      if item.offset >= d.fileSize {
        return;
      }
      DataItemsAt(items, i);
      if IsDataSectionType(item.type_) {
        if item.size > dataItemsLeft {
          return;
        }
        dataItemsLeft := dataItemsLeft - item.size;
        dataItemCount := dataItemCount + item.size;
      }
      if !IsKnownType(item.type_) {
        return;
      }
      if item.type_ in used {
        IsAmong(items, i, item.type_);
        return;
      }
      HasTypeSnoc(items, i);
      used := used + {item.type_};
      lastOffset := item.offset;
      i := i + 1;
    }
    assert items[..i] == items && items[i..] == [];
    okay := true;
  }

  method SwapMap(d: Dex) returns (okay: bool, dataMap: DexDataMap?)
    ensures okay <==> MapAccepted(d)
    ensures okay ==> dataMap != null && fresh(dataMap) && fresh(dataMap.offsets) && fresh(dataMap.types)
    ensures okay ==> dataMap.Valid() && dataMap.Entries() == [] && dataMap.max == DataItems(MapItems(d))
  {
    hide HasType, ItemsAccepted, MapItemAt;
    okay, dataMap := false, null;
    var count: nat := U4At(d.mem, d.mapOff);
    if d.mapOff + 4 + 12 * count > d.fileLen {
      return;
    }
    var items := MapItems(d);
    var accepted, dataItemCount, used := CheckMapItems(d, items);
    if !accepted || HEADER_ITEM !in used || MAP_LIST !in used {
      return;
    }
    var t: u2 := STRING_ID_ITEM;
    while t <= CLASS_DEF_ITEM
      invariant STRING_ID_ITEM <= t <= CLASS_DEF_ITEM + 1
      invariant forall s: u2 | IsIdType(s) && s < t && d.ids(s) != (0, 0) :: HasType(items, s)
      decreases CLASS_DEF_ITEM + 1 - t
    {
      if t !in used && (d.ids(t).0 != 0 || d.ids(t).1 != 0) {
        assert IsIdType(t) && d.ids(t) != (0, 0);
        return;
      }
      t := t + 1;
    }
    okay := true;
    dataMap := new DexDataMap(dataItemCount);
  }

  lemma NoTypes()
    ensures forall t :: !HasType([], t)
  {
  }

  lemma IsAmong(items: seq<MapItem>, i: nat, type_: u2)
    requires i <= |items| && HasType(items[..i], type_)
    ensures exists j :: 0 <= j < i && items[j].type_ == type_
  {
    var j :| 0 <= j < i && items[..i][j].type_ == type_;
    assert items[j].type_ == type_;
  }

  lemma HasTypeSnoc(items: seq<MapItem>, i: nat)
    requires i < |items|
    ensures forall t :: HasType(items[..i + 1], t) <==> HasType(items[..i], t) || t == items[i].type_
  {
    forall t
      ensures HasType(items[..i + 1], t) <==> HasType(items[..i], t) || t == items[i].type_
    {
      assert forall j | 0 <= j < i :: items[..i + 1][j] == items[..i][j];
      assert items[..i + 1][i] == items[i];
    }
  }

  // ----- The pieces of a file -----

  datatype Piece = Padding(start: nat, end: nat) | Item(type_: u2, start: nat, end: nat)

  // the sections are aligned to words or not at all
  function Aligned(offset: nat, alignment: nat): (a: nat)
    requires alignment == 1 || alignment == 4
    ensures offset <= a < offset + alignment && (alignment == 4 ==> a % 4 == 0)
  {
    if alignment == 4 then (offset + 3) / 4 * 4 else offset
  }

  predicate AllZero(mem: Memory, from: nat, to: nat) {
    forall k: nat | from <= k < to :: mem(k) == 0
  }

  // the padding between two offsets: none, or zero bytes inside the file
  ghost function Pad(d: Dex, from: nat, to: nat): Option<seq<Piece>> {
    if from >= to then Some([])
    else if to > d.fileLen || !AllZero(d.mem, from, to) then None
    else Some([Padding(from, to)])
  }

  function Join(a: Option<seq<Piece>>, b: Option<seq<Piece>>): Option<seq<Piece>> {
    if a == None || b == None then None else Some(a.value + b.value)
  }

  // where a run of pieces that starts at from ends
  function EndOf(pieces: seq<Piece>, from: nat): nat {
    if pieces == [] then from else pieces[|pieces| - 1].end
  }

  // The next item, aligned, after zero padding, and ending inside the file where its visitor says.
  ghost function NextItem(d: Dex, visit: Visitor, type_: u2, alignment: nat, offset: nat): (more: Option<seq<Piece>>)
    requires alignment == 1 || alignment == 4
    ensures more != None ==> more.value != []
  {
    var start := Aligned(offset, alignment);
    var end := visit(type_, start);
    if Pad(d, offset, start) == None || end == None || end.value > d.fileLen then None
    else Some(Pad(d, offset, start).value + [Item(type_, start, end.value)])
  }

  // The items of one section.
  ghost function SectionItems(d: Dex, visit: Visitor, type_: u2, alignment: nat, offset: nat, count: nat)
    : Option<seq<Piece>>
    requires alignment == 1 || alignment == 4
    decreases count
  {
    if count == 0 then Some([])
    else
      var more := NextItem(d, visit, type_, alignment, offset);
      if more == None then None
      else Join(more, SectionItems(d, visit, type_, alignment, more.value[|more.value| - 1].end, count - 1))
  }

  // what the data map gets of a run of pieces
  function Mapped(pieces: seq<Piece>): seq<(nat, u2)> {
    if pieces == [] then []
    else (match pieces[0]
          case Padding(_, _) => []
          case Item(t, start, _) => if IsMapped(t) then [(start, t)] else []) + Mapped(pieces[1..])
  }

  lemma {:induction false} MappedConcat(a: seq<Piece>, b: seq<Piece>)
    ensures Mapped(a + b) == Mapped(a) + Mapped(b)
  {
    if a == [] {
      assert a + b == b;
    } else {
      assert (a + b)[1..] == a[1..] + b;
      MappedConcat(a[1..], b);
    }
  }

  lemma JoinAssociates(a: seq<Piece>, b: seq<Piece>, c: Option<seq<Piece>>)
    ensures Join(Some(a), Join(Some(b), c)) == Join(Some(a + b), c)
  {
    if c != None {
      assert a + (b + c.value) == a + b + c.value;
    }
  }

  ghost predicate Below(entries: seq<(u4, u2)>, offset: nat) {
    forall i | 0 <= i < |entries| :: entries[i].0 < offset
  }

  // the check that what lies between two offsets is zero
  method CheckPadding(d: Dex, from: nat, to: nat) returns (okay: bool)
    ensures okay <==> Pad(d, from, to) != None
  {
    if from < to {
      if from > d.fileLen || to > d.fileLen {
        return false;
      }
      var offset := from;
      while offset < to
        invariant from <= offset <= to && AllZero(d.mem, from, offset)
      {
        if d.mem(offset) != 0 {
          return false;
        }
        offset := offset + 1;
      }
    }
    return true;
  }

  // one round of the loop of iterateSectionWithOptionalUpdate
  method VisitItem(d: Dex, visit: Visitor, type_: u2, offset: nat, dataMap: DexDataMap)
    returns (okay: bool, end: nat, ghost more: seq<Piece>)
    requires d.HeaderChecked() && MakesProgress(visit)
    requires dataMap.Valid() && Below(dataMap.Entries(), offset)
    requires IsMapped(type_) ==> dataMap.count < dataMap.max
    modifies dataMap`count, dataMap.offsets, dataMap.types
    ensures dataMap.Valid()
    ensures NextItem(d, visit, type_, AlignmentOf(type_), offset) == if okay then Some(more) else None
    ensures okay ==> more != [] && end == more[|more| - 1].end > offset
    ensures okay ==> dataMap.Entries() == old(dataMap.Entries()) + Mapped(more) && Below(dataMap.Entries(), end)
    ensures okay ==> dataMap.count <= old(dataMap.count) + if IsMapped(type_) then 1 else 0
  {
    hide AllZero, Ascending, Mapped, Below, Pad, Aligned, DexDataMap.Entries;
    okay, end, more := false, 0, [];
    var newOffset := Aligned(offset, AlignmentOf(type_));
    var zero := CheckPadding(d, offset, newOffset);
    if !zero {
      return;
    }
    var newEnd := visit(type_, newOffset);
    if newEnd == None || newEnd.value > d.fileLen {
      return;
    }
    end := newEnd.value;
    ghost var padding := Pad(d, offset, newOffset).value;
    more := padding + [Item(type_, newOffset, end)];
    PadIsPadding(d, offset, newOffset);
    MappedOne(padding, type_, newOffset, end);
    if IsMapped(type_) {
      BelowLater(dataMap.Entries(), offset, newOffset);
      dataMap.AddLast(newOffset, type_);
      BelowSnoc(old(dataMap.Entries()), newOffset, type_, end);
    } else {
      BelowLater(dataMap.Entries(), offset, end);
    }
    okay := true;
  }

  // iterateSectionWithOptionalUpdate; sections that are not mapped are walked by iterateSection
  method IterateSection(d: Dex, visit: Visitor, type_: u2, offset0: nat, count: nat, dataMap: DexDataMap)
    returns (okay: bool, nextOffset: nat, ghost pieces: seq<Piece>)
    requires d.HeaderChecked() && MakesProgress(visit)
    requires dataMap.Valid() && Below(dataMap.Entries(), offset0)
    requires IsMapped(type_) ==> dataMap.count + count <= dataMap.max
    modifies dataMap`count, dataMap.offsets, dataMap.types
    ensures dataMap.Valid()
    ensures SectionItems(d, visit, type_, AlignmentOf(type_), offset0, count) == if okay then Some(pieces) else None
    ensures okay ==> nextOffset == EndOf(pieces, offset0) >= offset0
    ensures okay ==> dataMap.Entries() == old(dataMap.Entries()) + Mapped(pieces)
    ensures okay ==> Below(dataMap.Entries(), nextOffset)
    ensures okay ==> dataMap.count <= old(dataMap.count) + if IsMapped(type_) then count else 0
  {
    hide Ascending, Mapped, Below, NextItem, DexDataMap.Entries;
    var alignment := AlignmentOf(type_);
    var offset := offset0;
    okay, nextOffset, pieces := false, offset, [];
    ghost var all := SectionItems(d, visit, type_, alignment, offset0, count);
    NothingJoined(all);
    NothingMapped();
    var i := 0;
    while i < count
      invariant i <= count && !okay && offset == EndOf(pieces, offset0) >= offset0
      invariant all == Join(Some(pieces), SectionItems(d, visit, type_, alignment, offset, count - i))
      invariant dataMap.Valid() && dataMap.Entries() == old(dataMap.Entries()) + Mapped(pieces)
      invariant Below(dataMap.Entries(), offset)
      invariant dataMap.count <= old(dataMap.count) + if IsMapped(type_) then i else 0
    {
      var visited, end;
      ghost var more;
      visited, end, more := VisitItem(d, visit, type_, offset, dataMap);
      if !visited {
        return;
      }
      MappedConcat(pieces, more);
      JoinAssociates(pieces, more, SectionItems(d, visit, type_, alignment, end, count - i - 1));
      pieces := pieces + more;
      offset := end;
      i := i + 1;
    }
    okay, nextOffset := true, offset;
    assert pieces + [] == pieces;
  }

  lemma PadIsPadding(d: Dex, from: nat, to: nat)
    requires Pad(d, from, to) != None
    ensures |Pad(d, from, to).value| <= 1 && forall p | p in Pad(d, from, to).value :: p.Padding?
  {
  }

  lemma NothingJoined(a: Option<seq<Piece>>)
    ensures Join(Some([]), a) == a
  {
    if a != None {
      assert [] + a.value == a.value;
    }
  }

  lemma NothingMapped()
    ensures Mapped([]) == []
  {
  }

  lemma BelowSnoc(entries: seq<(u4, u2)>, start: u4, type_: u2, end: nat)
    requires Below(entries, start) && start < end
    ensures Below(entries + [(start, type_)], end)
  {
  }

  lemma MappedOne(padding: seq<Piece>, type_: u2, start: nat, end: nat)
    requires |padding| <= 1 && forall p | p in padding :: p.Padding?
    ensures Mapped(padding + [Item(type_, start, end)]) == if IsMapped(type_) then [(start, type_)] else []
  {
    MappedConcat(padding, [Item(type_, start, end)]);
    if padding != [] {
      assert padding[0] in padding && padding[1..] == [];
    }
    assert [Item(type_, start, end)][1..] == [];
  }

  lemma BelowLater(entries: seq<(u4, u2)>, offset: nat, later: nat)
    requires Below(entries, offset) && offset <= later
    ensures Below(entries, later)
  {
  }

  // ----- swapEverythingButHeaderAndMap -----

  // The pieces of the section of one map item, in a map of n items.
  ghost function SectionOf(d: Dex, visit: Visitor, n: nat, item: MapItem): Option<seq<Piece>> {
    if item.type_ == HEADER_ITEM then
      if item.size == 1 && item.offset == 0 then Some([Item(HEADER_ITEM, 0, d.headerSize)]) else None
    else if item.type_ == MAP_LIST then
      if item.size == 1 && item.offset == d.mapOff then
        Some([Item(MAP_LIST, item.offset, item.offset + 4 + 12 * n)])
      else None
    else if IsIdType(item.type_) then
      if (item.offset, item.size) == d.ids(item.type_) then
        SectionItems(d, visit, item.type_, AlignmentOf(item.type_), item.offset, item.size)
      else None
    else
      var pieces := SectionItems(d, visit, item.type_, AlignmentOf(item.type_), item.offset, item.size);
      if item.offset < d.dataOff || item.offset >= d.dataOff + d.dataSize || pieces == None
         || EndOf(pieces.value, item.offset) > d.dataOff + d.dataSize then None
      else pieces
  }

  // The pieces of all sections from last on: zero padding up to each section, then its pieces.
  ghost function Everything(d: Dex, visit: Visitor, n: nat, items: seq<MapItem>, last: nat): Option<seq<Piece>> {
    if items == [] then Some([])
    else
      var item := items[0];
      if last > item.offset || Pad(d, last, item.offset) == None || SectionOf(d, visit, n, item) == None then None
      else
        var section := SectionOf(d, visit, n, item).value;
        Join(Some(Pad(d, last, item.offset).value + section),
             Everything(d, visit, n, items[1..], EndOf(section, item.offset)))
  }

  // the switch over the section types
  method SwapSection(d: Dex, visit: Visitor, n: nat, item: MapItem, dataMap: DexDataMap)
    returns (okay: bool, lastOffset: nat, ghost pieces: seq<Piece>)
    requires d.HeaderChecked() && MakesProgress(visit) && dataMap.Valid() && Below(dataMap.Entries(), item.offset)
    requires IsDataSectionType(item.type_) ==> dataMap.count + item.size <= dataMap.max
    modifies dataMap`count, dataMap.offsets, dataMap.types
    ensures dataMap.Valid()
    ensures SectionOf(d, visit, n, item) == if okay then Some(pieces) else None
    ensures okay ==> lastOffset == EndOf(pieces, item.offset) >= item.offset
    ensures okay ==> dataMap.Entries() == old(dataMap.Entries()) + Mapped(pieces)
    ensures okay ==> Below(dataMap.Entries(), lastOffset)
    ensures okay ==> dataMap.count <= old(dataMap.count) + if IsDataSectionType(item.type_) then item.size else 0
  {
    hide Ascending, Mapped, Below, Pad, Aligned, AllZero, SectionItems;
    okay, lastOffset, pieces := false, item.offset, [];
    if item.type_ == HEADER_ITEM {
      // checkHeaderSection
      if item.size != 1 || item.offset != 0 {
        return;
      }
      okay, lastOffset, pieces := true, d.headerSize, [Item(HEADER_ITEM, 0, d.headerSize)];
      MappedOne([], HEADER_ITEM, 0, d.headerSize);
      Unmapped(dataMap.Entries(), pieces[0], item.offset, lastOffset);
    } else if item.type_ == MAP_LIST {
      // checkMapSection
      if item.size != 1 || item.offset != d.mapOff {
        return;
      }
      okay, lastOffset := true, item.offset + 4 + 12 * n;
      pieces := [Item(MAP_LIST, item.offset, lastOffset)];
      Unmapped(dataMap.Entries(), pieces[0], item.offset, lastOffset);
    } else if IsIdType(item.type_) {
      // checkBoundsAndIterateSection
      if item.offset != d.ids(item.type_).0 || item.size != d.ids(item.type_).1 {
        return;
      }
      okay, lastOffset, pieces := IterateSection(d, visit, item.type_, item.offset, item.size, dataMap);
    } else {
      // iterateDataSection
      var dataStart, dataEnd := d.dataOff, d.dataOff + d.dataSize;
      if item.offset < dataStart || item.offset >= dataEnd {
        return;
      }
      okay, lastOffset, pieces := IterateSection(d, visit, item.type_, item.offset, item.size, dataMap);
      if okay && lastOffset > dataEnd {
        okay := false;
      }
    }
  }

  lemma Unmapped(entries: seq<(u4, u2)>, piece: Piece, offset: nat, later: nat)
    requires piece.Item? && !IsMapped(piece.type_) && Below(entries, offset) && offset <= later
    ensures entries + Mapped([piece]) == entries && Below(entries, later)
  {
    MappedOne([], piece.type_, piece.start, piece.end);
    assert [] + [piece] == [piece];
    BelowLater(entries, offset, later);
  }

  method SwapEverythingButHeaderAndMap(d: Dex, visit: Visitor, items: seq<MapItem>, dataMap: DexDataMap)
    returns (okay: bool, ghost pieces: seq<Piece>)
    requires d.HeaderChecked() && MakesProgress(visit) && MapAccepted(d) && items == MapItems(d)
    requires dataMap.Valid() && dataMap.Entries() == [] && dataMap.max == DataItems(items)
    modifies dataMap`count, dataMap.offsets, dataMap.types
    ensures dataMap.Valid()
    ensures Everything(d, visit, |items|, items, 0) == if okay then Some(pieces) else None
    ensures okay ==> dataMap.Entries() == Mapped(pieces)
  {
    hide Ascending, Mapped, Below, Pad, MapAccepted, SectionOf, MapItems;
    var lastOffset: nat := 0;
    okay, pieces := false, [];
    ghost var all := Everything(d, visit, |items|, items, 0);
    NothingJoined(all);
    NothingMapped();
    NothingBelow();
    assert items[0..] == items;
    var i := 0;
    while i < |items|
      invariant i <= |items| && !okay
      invariant all == Join(Some(pieces), Everything(d, visit, |items|, items[i..], lastOffset))
      invariant dataMap.Valid() && dataMap.Entries() == Mapped(pieces) && Below(dataMap.Entries(), lastOffset)
      invariant dataMap.count + DataItems(items[i..]) <= dataMap.max
    {
      var item := items[i];
      assert items[i..][1..] == items[i + 1..];
      if lastOffset > item.offset {
        return;
      }
      var zero := CheckPadding(d, lastOffset, item.offset);
      if !zero {
        return;
      }

      ghost var padding := Pad(d, lastOffset, item.offset).value;
      BelowLater(dataMap.Entries(), lastOffset, item.offset);
      var swapped, nextOffset;
      ghost var section;
      swapped, nextOffset, section := SwapSection(d, visit, |items|, item, dataMap);
      if !swapped {
        return;
      }
      PadIsPadding(d, lastOffset, item.offset);
      NothingMappedOf(padding);
      MappedConcat(pieces, padding + section);
      MappedConcat(padding, section);
      JoinAssociates(pieces, padding + section, Everything(d, visit, |items|, items[i + 1..], nextOffset));
      pieces := pieces + (padding + section);
      lastOffset := nextOffset;
      i := i + 1;
    }
    okay := true;
    assert pieces + [] == pieces;
  }

  lemma NothingBelow()
    ensures Below([], 0)
  {
  }

  lemma {:induction false} NothingMappedOf(padding: seq<Piece>)
    requires forall p | p in padding :: p.Padding?
    ensures Mapped(padding) == []
  {
    if padding != [] {
      assert padding[0] in padding;
      NothingMappedOf(padding[1..]);
    }
  }

  // ----- What success means -----

  // The pieces follow each other without gaps, each has a length, and all padding is zero.
  ghost predicate Tiles(d: Dex, pieces: seq<Piece>, from: nat) {
    pieces == []
    || (&& pieces[0].start == from < pieces[0].end
        && (pieces[0].Padding? ==> AllZero(d.mem, from, pieces[0].end))
        && Tiles(d, pieces[1..], pieces[0].end))
  }

  lemma {:induction false} TilesConcat(d: Dex, a: seq<Piece>, b: seq<Piece>, from: nat)
    requires Tiles(d, a, from) && Tiles(d, b, EndOf(a, from))
    ensures Tiles(d, a + b, from) && EndOf(a + b, from) == EndOf(b, EndOf(a, from))
  {
    hide AllZero;
    if a == [] {
      assert a + b == b;
    } else {
      assert (a + b)[1..] == a[1..] + b;
      TilesConcat(d, a[1..], b, a[0].end);
    }
  }

  lemma PadTiles(d: Dex, from: nat, to: nat)
    requires Pad(d, from, to) != None && from <= to
    ensures Tiles(d, Pad(d, from, to).value, from) && EndOf(Pad(d, from, to).value, from) == to
  {
  }

  // How many items of a type there are.
  function ItemCount(pieces: seq<Piece>, type_: u2): nat {
    if pieces == [] then 0
    else (if pieces[0].Item? && pieces[0].type_ == type_ then 1 else 0) + ItemCount(pieces[1..], type_)
  }

  lemma {:induction false} ItemCountConcat(a: seq<Piece>, b: seq<Piece>, type_: u2)
    ensures ItemCount(a + b, type_) == ItemCount(a, type_) + ItemCount(b, type_)
  {
    if a == [] {
      assert a + b == b;
    } else {
      assert (a + b)[1..] == a[1..] + b;
      ItemCountConcat(a[1..], b, type_);
    }
  }

  lemma OneItem(d: Dex, padding: seq<Piece>, type_: u2, start: nat, end: nat, from: nat, other: u2)
    requires Tiles(d, padding, from) && EndOf(padding, from) == start < end
    requires |padding| <= 1 && forall p | p in padding :: p.Padding?
    ensures var more := padding + [Item(type_, start, end)];
            && Tiles(d, more, from) && EndOf(more, from) == end
            && ItemCount(more, other) == if type_ == other then 1 else 0
  {
    hide AllZero;
    assert [Item(type_, start, end)][1..] == [];
    TilesConcat(d, padding, [Item(type_, start, end)], from);
    ItemCountConcat(padding, [Item(type_, start, end)], other);
    if padding != [] {
      assert padding[0] in padding && padding[1..] == [];
    }
  }

  lemma {:induction false} SectionTiles(
    d: Dex, visit: Visitor, type_: u2, alignment: nat, offset: nat, count: nat, other: u2)
    requires MakesProgress(visit) && (alignment == 1 || alignment == 4)
    requires SectionItems(d, visit, type_, alignment, offset, count) != None
    ensures var pieces := SectionItems(d, visit, type_, alignment, offset, count).value;
            && Tiles(d, pieces, offset)
            && ItemCount(pieces, other) == (if type_ == other then count else 0)
            && (count > 0 ==> EndOf(pieces, offset) <= d.fileLen)
    decreases count
  {
    hide Aligned, Pad, Tiles, ItemCount, AllZero;
    if count == 0 {
      NoPieces(d, offset, other);
    } else {
      var start := Aligned(offset, alignment);
      var end := visit(type_, start).value;
      var padding := Pad(d, offset, start).value;
      PadTiles(d, offset, start);
      PadIsPadding(d, offset, start);
      OneItem(d, padding, type_, start, end, offset, other);
      SectionTiles(d, visit, type_, alignment, end, count - 1, other);
      var rest := SectionItems(d, visit, type_, alignment, end, count - 1).value;
      TilesConcat(d, padding + [Item(type_, start, end)], rest, offset);
      ItemCountConcat(padding + [Item(type_, start, end)], rest, other);
    }
  }

  lemma NoPieces(d: Dex, offset: nat, other: u2)
    ensures Tiles(d, [], offset) && ItemCount([], other) == 0
  {
  }

  // the number of items a map announces for a type
  function SizeOf(items: seq<MapItem>, type_: u2): nat {
    if items == [] then 0 else (if items[0].type_ == type_ then items[0].size else 0) + SizeOf(items[1..], type_)
  }

  lemma SectionOfTiles(d: Dex, visit: Visitor, n: nat, item: MapItem, other: u2)
    requires d.HeaderChecked() && MakesProgress(visit) && SectionOf(d, visit, n, item) != None
    ensures var pieces := SectionOf(d, visit, n, item).value;
            && Tiles(d, pieces, item.offset)
            && ItemCount(pieces, other) == (if item.type_ == other then item.size else 0)
            && (item.type_ == MAP_LIST ==>
                  EndOf(pieces, item.offset) == item.offset + 4 + 12 * n && item.offset == d.mapOff)
            && (item.type_ != HEADER_ITEM && item.type_ != MAP_LIST && item.size > 0 ==>
                  EndOf(pieces, item.offset) <= d.fileLen)
            && (item.size == 0 ==> EndOf(pieces, item.offset) == item.offset)
            && (item.type_ == HEADER_ITEM ==> item.offset == 0)
  {
    hide SectionItems, Aligned, AllZero;
    if item.type_ == HEADER_ITEM || item.type_ == MAP_LIST {
      var pieces := SectionOf(d, visit, n, item).value;
      assert pieces[1..] == [];
    } else {
      SectionTiles(d, visit, item.type_, AlignmentOf(item.type_), item.offset, item.size, other);
      if item.size == 0 {
        NoItems(d, visit, item.type_, AlignmentOf(item.type_), item.offset);
      }
    }
  }

  lemma NoItems(d: Dex, visit: Visitor, type_: u2, alignment: nat, offset: nat)
    requires alignment == 1 || alignment == 4
    ensures SectionItems(d, visit, type_, alignment, offset, 0) == Some([])
  {
  }

  // The sections and the padding before them tile the file, with as many items of each type as the map says.
  lemma {:induction false} EverythingTiles(d: Dex, visit: Visitor, n: nat, items: seq<MapItem>, last: nat, other: u2)
    requires d.HeaderChecked() && MakesProgress(visit) && Everything(d, visit, n, items, last) != None
    ensures var pieces := Everything(d, visit, n, items, last).value;
            Tiles(d, pieces, last) && ItemCount(pieces, other) == SizeOf(items, other)
    decreases |items|
  {
    hide Pad, Tiles, ItemCount, SectionOf;
    if items == [] {
      NoPieces(d, last, other);
    } else {
      var item := items[0];
      var padding, section := Pad(d, last, item.offset).value, SectionOf(d, visit, n, item).value;
      PadTiles(d, last, item.offset);
      PadIsPadding(d, last, item.offset);
      NoItemsInPadding(padding, other);
      SectionOfTiles(d, visit, n, item, other);
      TilesConcat(d, padding, section, last);
      ItemCountConcat(padding, section, other);
      EverythingTiles(d, visit, n, items[1..], EndOf(section, item.offset), other);
      var rest := Everything(d, visit, n, items[1..], EndOf(section, item.offset)).value;
      TilesConcat(d, padding + section, rest, last);
      ItemCountConcat(padding + section, rest, other);
    }
  }

  lemma {:induction false} NoItemsInPadding(padding: seq<Piece>, other: u2)
    requires forall p | p in padding :: p.Padding?
    ensures ItemCount(padding, other) == 0
  {
    if padding != [] {
      assert padding[0] in padding;
      NoItemsInPadding(padding[1..], other);
    }
  }

  // Without a header they end inside the file if they start there.
  lemma {:induction false} EndsInside(d: Dex, visit: Visitor, n: nat, items: seq<MapItem>, last: nat)
    requires d.HeaderChecked() && MakesProgress(visit) && Everything(d, visit, n, items, last) != None
    requires d.mapOff + 4 + 12 * n <= d.fileLen && last <= d.fileLen
    requires forall i | 0 <= i < |items| :: items[i].type_ != HEADER_ITEM
    ensures EndOf(Everything(d, visit, n, items, last).value, last) <= d.fileLen
    decreases |items|
  {
    hide Tiles, ItemCount, SectionOf;
    if items != [] {
      SectionOfTiles(d, visit, n, items[0], 0);
      EndsInside(d, visit, n, items[1..], EndOf(SectionOf(d, visit, n, items[0]).value, items[0].offset));
      EverythingEndsLater(d, visit, n, items, last);
    }
  }

  // where they end, one section at a time
  lemma EverythingEndsLater(d: Dex, visit: Visitor, n: nat, items: seq<MapItem>, last: nat)
    requires d.HeaderChecked() && MakesProgress(visit) && Everything(d, visit, n, items, last) != None && items != []
    ensures var end := EndOf(SectionOf(d, visit, n, items[0]).value, items[0].offset);
            EndOf(Everything(d, visit, n, items, last).value, last)
            == EndOf(Everything(d, visit, n, items[1..], end).value, end)
  {
    hide Pad, Tiles, ItemCount, SectionOf;
    var item := items[0];
    var padding, section := Pad(d, last, item.offset).value, SectionOf(d, visit, n, item).value;
    var end := EndOf(section, item.offset);
    PadTiles(d, last, item.offset);
    SectionOfTiles(d, visit, n, item, 0);
    TilesConcat(d, padding, section, last);
    EverythingTiles(d, visit, n, items[1..], end, 0);
    TilesConcat(d, padding + section, Everything(d, visit, n, items[1..], end).value, last);
  }

  // They end inside the file, whatever sizes the header states, because the map is one of them and comes after it.
  lemma {:induction false} EverythingEnds(d: Dex, visit: Visitor, n: nat, items: seq<MapItem>, last: nat, map_: nat)
    requires d.HeaderChecked() && MakesProgress(visit) && Everything(d, visit, n, items, last) != None
    requires d.mapOff + 4 + 12 * n <= d.fileLen
    requires map_ < |items| && items[map_].type_ == MAP_LIST
    requires forall i | map_ < i < |items| :: items[i].type_ != HEADER_ITEM
    ensures EndOf(Everything(d, visit, n, items, last).value, last) <= d.fileLen
    decreases |items|
  {
    hide Pad, Tiles, ItemCount, SectionOf;
    var end := EndOf(SectionOf(d, visit, n, items[0]).value, items[0].offset);
    SectionOfTiles(d, visit, n, items[0], 0);
    EverythingEndsLater(d, visit, n, items, last);
    if map_ == 0 {
      EndsInside(d, visit, n, items[1..], end);
    } else {
      EverythingEnds(d, visit, n, items[1..], end, map_ - 1);
    }
  }

  // What the data map holds is what was visited.
  lemma {:induction false} MappedIsVisited(pieces: seq<Piece>, start: nat, type_: u2)
    requires IsMapped(type_)
    ensures (start, type_) in Mapped(pieces) <==> exists end :: Item(type_, start, end) in pieces
  {
    if pieces != [] {
      MappedIsVisited(pieces[1..], start, type_);
      assert pieces == [pieces[0]] + pieces[1..];
    }
  }

  lemma {:induction false} OnlyMapped(pieces: seq<Piece>)
    ensures forall e | e in Mapped(pieces) :: IsMapped(e.1)
  {
    if pieces != [] {
      OnlyMapped(pieces[1..]);
    }
  }

  lemma {:induction false} SizeOfType(d: Dex, items: seq<MapItem>, i: nat)
    requires i < |items| && forall j, k | 0 <= j < k < |items| :: items[j].type_ != items[k].type_
    ensures SizeOf(items, items[i].type_) == items[i].size
  {
    if i > 0 {
      SizeOfType(d, items[1..], i - 1);
    } else {
      SizeOfOther(items[1..], items[0].type_);
    }
  }

  lemma {:induction false} SizeOfOther(items: seq<MapItem>, type_: u2)
    requires forall i | 0 <= i < |items| :: items[i].type_ != type_
    ensures SizeOf(items, type_) == 0
  {
    if items != [] {
      SizeOfOther(items[1..], type_);
    }
  }

  // Only the first section can be the header's.
  lemma HeaderIsFirst(d: Dex, visit: Visitor, n: nat, items: seq<MapItem>, last: nat, i: nat)
    requires ItemsAccepted(d, items) && 0 < i < |items|
    requires items[i].type_ == HEADER_ITEM
    ensures SectionOf(d, visit, n, items[i]) == None
  {
    assert items[0].offset < items[i].offset;
  }

  lemma {:induction false} EverySectionPasses(d: Dex, visit: Visitor, n: nat, items: seq<MapItem>, last: nat, i: nat)
    requires Everything(d, visit, n, items, last) != None && i < |items|
    ensures SectionOf(d, visit, n, items[i]) != None
    decreases i
  {
    hide SectionOf, Pad;
    if i > 0 {
      var end := EndOf(SectionOf(d, visit, n, items[0]).value, items[0].offset);
      EverySectionPasses(d, visit, n, items[1..], end, i - 1);
    }
  }

  // The passes of dexSwapAndVerify over the map and the items.
  method SwapSections(d: Dex, visit: Visitor) returns (okay: bool, dataMap: DexDataMap?, ghost pieces: seq<Piece>)
    requires d.HeaderChecked() && MakesProgress(visit)
    ensures okay <==> SectionsAccepted(d, visit)
    ensures okay ==> pieces == Pieces(d, visit)
    ensures okay ==> Tiles(d, pieces, 0) && EndOf(pieces, 0) <= d.fileLen
    ensures okay ==> forall item | item in MapItems(d) :: ItemCount(pieces, item.type_) == item.size
    ensures okay ==> dataMap != null && dataMap.Valid() && dataMap.Entries() == Mapped(pieces)
    ensures okay ==> forall start: u4, type_: u2 | IsMapped(type_) ::
                       (start, type_) in dataMap.Entries() <==> exists end :: Item(type_, start, end) in pieces
    ensures okay ==> forall start: u4, type_: u2 | !IsMapped(type_) :: (start, type_) !in dataMap.Entries()
  {
    hide Ascending, Mapped, Below, Everything, Tiles, ItemCount, ItemsAccepted, HasType, DataItems, EndOf, SectionOf;
    hide IsMapped, MapItems, MapAccepted;
    okay, dataMap, pieces := false, null, [];
    if d.mapOff == 0 {
      return;
    }
    okay, dataMap := SwapMap(d);
    if !okay {
      return;
    }
    okay, pieces := SwapEverythingButHeaderAndMap(d, visit, MapItems(d), dataMap);
    if okay {
      EverythingMeans(d, visit, pieces);
      OnlyMapped(pieces);
      forall start: u4, type_: u2 | IsMapped(type_)
        ensures (start, type_) in dataMap.Entries() <==> exists end :: Item(type_, start, end) in pieces
      {
        MappedIsVisited(pieces, start, type_);
      }
    }
  }

  // what both passes accept
  ghost predicate SectionsAccepted(d: Dex, visit: Visitor) {
    d.mapOff != 0 && MapAccepted(d) && Everything(d, visit, |MapItems(d)|, MapItems(d), 0) != None
  }

  // the pieces of a whole file
  ghost function Pieces(d: Dex, visit: Visitor): seq<Piece>
    requires SectionsAccepted(d, visit)
  {
    Everything(d, visit, |MapItems(d)|, MapItems(d), 0).value
  }

  lemma EverythingMeans(d: Dex, visit: Visitor, pieces: seq<Piece>)
    requires d.HeaderChecked() && MakesProgress(visit) && MapAccepted(d)
    requires Everything(d, visit, |MapItems(d)|, MapItems(d), 0) == Some(pieces)
    ensures Tiles(d, pieces, 0) && EndOf(pieces, 0) <= d.fileLen
    ensures forall item | item in MapItems(d) :: ItemCount(pieces, item.type_) == item.size
  {
    hide Everything, Tiles, ItemCount, EndOf, SectionOf, SizeOf, DataItems, MapItems;
    var items := MapItems(d);
    var n := |items|;
    EverythingTiles(d, visit, n, items, 0, 0);
    forall i | 0 < i < n
      ensures items[i].type_ != HEADER_ITEM
    {
      if items[i].type_ == HEADER_ITEM {
        EverySectionPasses(d, visit, n, items, 0, i);
        HeaderIsFirst(d, visit, n, items, 0, i);
      }
    }
    var map_: nat :| map_ < n && items[map_].type_ == MAP_LIST;
    EverythingEnds(d, visit, n, items, 0, map_);
    forall i: nat | i < n
      ensures ItemCount(pieces, items[i].type_) == items[i].size
    {
      EverythingTiles(d, visit, n, items, 0, items[i].type_);
      SizeOfType(d, items, i);
    }
  }

  // ----- What has been visited -----

  // An item of a section is where its visitor succeeded.
  lemma {:induction false} SectionVisited(
    d: Dex, visit: Visitor, type_: u2, alignment: nat, offset: nat, count: nat, p: Piece)
    requires alignment == 1 || alignment == 4
    requires SectionItems(d, visit, type_, alignment, offset, count) != None
    requires p in SectionItems(d, visit, type_, alignment, offset, count).value && p.Item?
    ensures p.type_ == type_ && visit(type_, p.start) == Some(p.end)
    decreases count
  {
    hide Aligned, AllZero;
    var start := Aligned(offset, alignment);
    PadIsPadding(d, offset, start);
    var end := visit(type_, start).value;
    if p != Item(type_, start, end) {
      assert p !in NextItem(d, visit, type_, alignment, offset).value;
      SectionVisited(d, visit, type_, alignment, end, count - 1, p);
    }
  }

  // So is every item of the file, but for the header and the map.
  lemma {:induction false} ItemVisited(d: Dex, visit: Visitor, n: nat, items: seq<MapItem>, last: nat, p: Piece)
    requires Everything(d, visit, n, items, last) != None && p in Everything(d, visit, n, items, last).value
    requires p.Item? && p.type_ != HEADER_ITEM && p.type_ != MAP_LIST
    ensures visit(p.type_, p.start) == Some(p.end)
    decreases |items|
  {
    hide SectionItems, Pad;
    var item := items[0];
    var section := SectionOf(d, visit, n, item).value;
    PadIsPadding(d, last, item.offset);
    if p in section {
      SectionVisited(d, visit, item.type_, AlignmentOf(item.type_), item.offset, item.size, p);
    } else {
      ItemVisited(d, visit, n, items[1..], EndOf(section, item.offset), p);
    }
  }

  // Items of one size follow each other like the entries of a table, from the first aligned offset on.
  lemma {:induction false} EntryVisited(d: Dex, visit: Visitor, type_: u2, size: nat, offset: nat, count: nat, k: nat)
    requires k < count && size % 4 == 0
    requires forall start: nat | visit(type_, start).Some? :: visit(type_, start).value == start + size
    requires SectionItems(d, visit, type_, 4, offset, count) != None
    ensures visit(type_, Aligned(offset, 4) + size * k).Some?
    decreases k
  {
    hide Pad;
    if k > 0 {
      EntryVisited(d, visit, type_, size, Aligned(offset, 4) + size, count - 1, k - 1);
      assert size * k == size + size * (k - 1);
    }
  }
}
