// How the items of an accepted file are spaced, by type: what libdex/DexSwapVerify.cpp says with the alignment it
// passes to each walk over a section.

module Spacing {
  import opened Common
  import opened Sections

  // class data, string data, debug info, annotations and encoded arrays
  const PACKED: set<u2> := {0x2000, 0x2002, 0x2003, 0x2004, 0x2005}

  // Packed items start where the item before them ended, others at the next multiple of four.
  predicate Gap(end: nat, start: nat, type_: u2) {
    if type_ in PACKED then start == end else start % 4 == 0 && end <= start < end + 4
  }

  predicate IsItem(p: Piece, type_: u2) {
    p.Item? && p.type_ == type_
  }

  // One item of a type and the next.
  ghost predicate Neighbours(pieces: seq<Piece>, i: nat, j: nat, type_: u2) {
    && i < j < |pieces| && IsItem(pieces[i], type_) && IsItem(pieces[j], type_)
    && forall k | i < k < j :: !IsItem(pieces[k], type_)
  }

  ghost predicate IsFirst(pieces: seq<Piece>, i: nat, type_: u2) {
    && i < |pieces| && IsItem(pieces[i], type_)
    && forall k | 0 <= k < i :: !IsItem(pieces[k], type_)
  }

  // The items of one type, the first of them behind an offset.
  ghost predicate Spaced(pieces: seq<Piece>, from: nat, type_: u2) {
    && (forall i: nat | IsFirst(pieces, i, type_) :: Gap(from, pieces[i].start, type_))
    && (forall i: nat, j: nat | Neighbours(pieces, i, j, type_) :: Gap(pieces[i].end, pieces[j].start, type_))
  }

  ghost predicate NoneOf(pieces: seq<Piece>, type_: u2) {
    forall i | 0 <= i < |pieces| :: !IsItem(pieces[i], type_)
  }

  // an item in front of the others
  lemma SpacedCons(before: seq<Piece>, item: Piece, rest: seq<Piece>, from: nat, type_: u2)
    requires NoneOf(before, type_) && IsItem(item, type_) && Gap(from, item.start, type_)
    requires Spaced(rest, item.end, type_)
    ensures Spaced(before + [item] + rest, from, type_)
  {
    hide Gap, NoneOf;
    var all := before + [item] + rest;
    forall i: nat | IsFirst(all, i, type_)
      ensures Gap(from, all[i].start, type_)
    {
      FirstOfCons(before, item, rest, type_, i);
    }
    forall i: nat, j: nat | Neighbours(all, i, j, type_)
      ensures Gap(all[i].end, all[j].start, type_)
    {
      NeighboursOfCons(before, item, rest, type_, i, j);
    }
  }

  lemma FirstOfCons(before: seq<Piece>, item: Piece, rest: seq<Piece>, type_: u2, i: nat)
    requires NoneOf(before, type_) && IsItem(item, type_) && IsFirst(before + [item] + rest, i, type_)
    ensures (before + [item] + rest)[i] == item
  {
    assert (before + [item] + rest)[|before|] == item;
  }

  lemma NeighboursOfCons(before: seq<Piece>, item: Piece, rest: seq<Piece>, type_: u2, i: nat, j: nat)
    requires NoneOf(before, type_) && IsItem(item, type_) && Neighbours(before + [item] + rest, i, j, type_)
    ensures var all, m := before + [item] + rest, |before| + 1;
            && i >= |before| && j >= m && all[j] == rest[j - m]
            && (if i < m then all[i] == item && IsFirst(rest, j - m, type_)
                else all[i] == rest[i - m] && Neighbours(rest, i - m, j - m, type_))
  {
    var all, m := before + [item] + rest, |before| + 1;
    assert all[m - 1] == item;
    assert forall k | 0 <= k < |rest| :: rest[k] == all[m + k];
    assert i >= |before|;
  }

  // pieces of other types around a section
  lemma SpacedWithin(before: seq<Piece>, section: seq<Piece>, after: seq<Piece>, from: nat, type_: u2)
    requires NoneOf(before, type_) && NoneOf(after, type_) && Spaced(section, from, type_)
    ensures Spaced(before + section + after, from, type_)
  {
    hide Gap;
    var all, n := before + section + after, |before|;
    assert forall k | n <= k < n + |section| :: all[k] == section[k - n];
    assert forall k | n + |section| <= k < |all| :: all[k] == after[k - n - |section|];
    forall i: nat | IsFirst(all, i, type_)
      ensures Gap(from, all[i].start, type_)
    {
      assert n <= i < n + |section|;
      assert forall k | 0 <= k < i - n :: section[k] == all[n + k];
      assert IsFirst(section, i - n, type_);
    }
    forall i: nat, j: nat | Neighbours(all, i, j, type_)
      ensures Gap(all[i].end, all[j].start, type_)
    {
      assert n <= i < j < n + |section|;
      assert forall k | i - n < k < j - n :: section[k] == all[n + k];
      assert Neighbours(section, i - n, j - n, type_);
    }
  }

  lemma AlignedGap(offset: nat, type_: u2)
    requires IsKnownType(type_)
    ensures Gap(offset, Aligned(offset, AlignmentOf(type_)), type_)
  {
  }

  lemma {:induction false} SectionIsSpaced(d: Dex, visit: Visitor, type_: u2, offset: nat, count: nat)
    requires IsKnownType(type_) && SectionItems(d, visit, type_, AlignmentOf(type_), offset, count) != None
    ensures Spaced(SectionItems(d, visit, type_, AlignmentOf(type_), offset, count).value, offset, type_)
    decreases count
  {
    hide Gap, Aligned, Pad, Spaced, AlignmentOf, NoneOf;
    var alignment := AlignmentOf(type_);
    if count == 0 {
      NothingIsSpaced(offset, type_);
    } else {
      var start := Aligned(offset, alignment);
      var end := visit(type_, start).value;
      var padding, rest := Pad(d, offset, start).value, SectionItems(d, visit, type_, alignment, end, count - 1).value;
      PadIsPadding(d, offset, start);
      PaddingIsNoItem(padding, type_);
      AlignedGap(offset, type_);
      SectionIsSpaced(d, visit, type_, end, count - 1);
      SpacedCons(padding, Item(type_, start, end), rest, offset, type_);
    }
  }

  lemma NothingIsSpaced(offset: nat, type_: u2)
    ensures Spaced([], offset, type_)
  {
  }

  lemma PaddingIsNoItem(padding: seq<Piece>, type_: u2)
    requires forall p | p in padding :: p.Padding?
    ensures NoneOf(padding, type_)
  {
    forall i | 0 <= i < |padding|
      ensures !IsItem(padding[i], type_)
    {
      assert padding[i] in padding;
    }
  }

  lemma NoneOfConcat(a: seq<Piece>, b: seq<Piece>, type_: u2)
    requires NoneOf(a, type_) && NoneOf(b, type_)
    ensures NoneOf(a + b, type_)
  {
  }

  // The section of another type has no item of this one.
  lemma OtherSection(d: Dex, visit: Visitor, n: nat, item: MapItem, type_: u2)
    requires SectionOf(d, visit, n, item) != None && item.type_ != type_
    ensures NoneOf(SectionOf(d, visit, n, item).value, type_)
  {
    hide SectionItems;
    var section := SectionOf(d, visit, n, item).value;
    if item.type_ != HEADER_ITEM && item.type_ != MAP_LIST {
      forall i | 0 <= i < |section|
        ensures !IsItem(section[i], type_)
      {
        assert section[i] in section;
        if section[i].Item? {
          SectionVisited(d, visit, item.type_, AlignmentOf(item.type_), item.offset, item.size, section[i]);
        }
      }
    }
  }

  lemma {:induction false} NoSuchSection(d: Dex, visit: Visitor, n: nat, items: seq<MapItem>, last: nat, type_: u2)
    requires Everything(d, visit, n, items, last) != None
    requires forall i | 0 <= i < |items| :: items[i].type_ != type_
    ensures NoneOf(Everything(d, visit, n, items, last).value, type_)
    decreases |items|
  {
    hide SectionOf, Pad, NoneOf;
    if items == [] {
      PaddingIsNoItem([], type_);
    } else {
      var section := SectionOf(d, visit, n, items[0]).value;
      var padding := Pad(d, last, items[0].offset).value;
      PadIsPadding(d, last, items[0].offset);
      PaddingIsNoItem(padding, type_);
      OtherSection(d, visit, n, items[0], type_);
      NoneOfConcat(padding, section, type_);
      var end := EndOf(section, items[0].offset);
      NoSuchSection(d, visit, n, items[1..], end, type_);
      NoneOfConcat(padding + section, Everything(d, visit, n, items[1..], end).value, type_);
    }
  }

  // The items of the i-th section, in all that comes from last on.
  lemma {:induction false} EverythingIsSpaced(
    d: Dex, visit: Visitor, n: nat, items: seq<MapItem>, last: nat, i: nat)
    requires Everything(d, visit, n, items, last) != None && i < |items|
    requires forall j, k | 0 <= j < k < |items| :: items[j].type_ != items[k].type_
    requires IsKnownType(items[i].type_) && items[i].type_ != HEADER_ITEM && items[i].type_ != MAP_LIST
    ensures Spaced(Everything(d, visit, n, items, last).value, items[i].offset, items[i].type_)
    decreases |items|
  {
    hide SectionItems, Pad, NoneOf, Spaced, IsKnownType, AlignmentOf;
    var section := SectionOf(d, visit, n, items[0]).value;
    var padding, end := Pad(d, last, items[0].offset).value, EndOf(section, items[0].offset);
    var rest := Everything(d, visit, n, items[1..], end).value;
    var type_ := items[i].type_;
    PadIsPadding(d, last, items[0].offset);
    PaddingIsNoItem(padding, type_);
    if i == 0 {
      SectionIsSpaced(d, visit, type_, items[0].offset, items[0].size);
      NoSuchSection(d, visit, n, items[1..], end, type_);
      SpacedWithin(padding, section, rest, items[0].offset, type_);
    } else {
      OtherSection(d, visit, n, items[0], type_);
      NoneOfConcat(padding, section, type_);
      EverythingIsSpaced(d, visit, n, items[1..], end, i - 1);
      PaddingIsNoItem([], type_);
      SpacedWithin(padding + section, rest, [], items[i].offset, type_);
      assert padding + section + rest + [] == padding + section + rest;
    }
  }

  // In an accepted file: packed items follow each other without padding, from the offset of their section on; all
  // others start at multiples of four, fewer than four bytes behind the item before them or the start of the section.
  lemma ItemsAreSpaced(d: Dex, visit: Visitor, item: MapItem)
    requires SectionsAccepted(d, visit) && item in MapItems(d) && item.type_ != 0 && item.type_ != 0x1000
    ensures Spaced(Pieces(d, visit), item.offset, item.type_)
  {
    hide Everything, MapItems, Spaced, IsKnownType, DataItems;
    var items := MapItems(d);
    var i: nat :| i < |items| && items[i] == item;
    EverythingIsSpaced(d, visit, |items|, items, 0, i);
  }

  // The types by their numbers: known, in a section of identifiers, and entered into the data map.
  lemma TypeNumbers(type_: u2)
    ensures IsKnownType(type_) <==> type_ <= 6 || 0x1000 <= type_ <= 0x1003 || 0x2000 <= type_ <= 0x2006
    ensures IsIdType(type_) <==> 1 <= type_ <= 6
    ensures IsMapped(type_) <==> type_ > 6 && type_ != 0x1000
  {
  }
}
