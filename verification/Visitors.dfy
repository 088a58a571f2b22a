// Visitors of libdex/DexSwapVerify.cpp that verify one item on its own: the id items, type lists and string data.
// Offsets inside an item are not followed here; that is left to cross verification.

module Visitors {
  import opened Common
  import opened Mutf8
  import opened Sections

  const PROTO_ID_ITEM: u2 := 0x0003
  const FIELD_ID_ITEM: u2 := 0x0004
  const METHOD_ID_ITEM: u2 := 0x0005
  const TYPE_LIST_STRUCT := 8

  // the id items that are modelled, all but class_def_item
  predicate IsTableType(type_: u2) {
    STRING_ID_ITEM <= type_ <= METHOD_ID_ITEM
  }

  function EntrySize(type_: u2): (size: nat)
    ensures size == 4 || size == 8 || size == 12
  {
    if type_ == STRING_ID_ITEM || type_ == TYPE_ID_ITEM then 4 else if type_ == PROTO_ID_ITEM then 12 else 8
  }

  // the size of the table an index refers to
  function Limit(d: Dex, type_: u2): u4 {
    d.ids(type_).1
  }

  // the indices in an id item
  predicate IndicesInRange(d: Dex, type_: u2, ptr: nat) {
    if type_ == STRING_ID_ITEM then true
    else if type_ == TYPE_ID_ITEM then U4At(d.mem, ptr) < Limit(d, STRING_ID_ITEM)
    else if type_ == PROTO_ID_ITEM then
      U4At(d.mem, ptr) < Limit(d, STRING_ID_ITEM) && U4At(d.mem, ptr + 4) < Limit(d, TYPE_ID_ITEM)
    else
      && U2At(d.mem, ptr) < Limit(d, TYPE_ID_ITEM)
      && U2At(d.mem, ptr + 2) < Limit(d, if type_ == FIELD_ID_ITEM then TYPE_ID_ITEM else PROTO_ID_ITEM)
      && U4At(d.mem, ptr + 4) < Limit(d, STRING_ID_ITEM)
  }

  // swapStringIdItem, swapTypeIdItem, swapProtoIdItem, swapFieldIdItem and swapMethodIdItem
  function IdItemEnd(d: Dex, type_: u2, ptr: nat): Option<nat> {
    if ptr + EntrySize(type_) > d.fileLen || !IndicesInRange(d, type_, ptr) then None else Some(ptr + EntrySize(type_))
  }

  // the type index at a place of a type_list
  function TypeIdxAt(mem: Memory, list: nat, k: nat): u2 {
    U2At(mem, list + 4 + 2 * k)
  }

  ghost predicate ListInRange(mem: Memory, list: nat, typeIdsSize: nat) {
    forall k: nat | k < U4At(mem, list) :: TypeIdxAt(mem, list, k) < typeIdsSize
  }

  // The end of a type_list; its struct, which has room for one entry and is padded, must lie in the file.
  ghost function TypeListEnd(d: Dex, ptr: nat): Option<nat> {
    if ptr + TYPE_LIST_STRUCT > d.fileLen || ptr + 4 + 2 * U4At(d.mem, ptr) > d.fileLen
       || !ListInRange(d.mem, ptr, Limit(d, TYPE_ID_ITEM)) then None
    else Some(ptr + 4 + 2 * U4At(d.mem, ptr))
  }

  method SwapTypeList(d: Dex, ptr: nat) returns (end: Option<nat>)
    ensures end == TypeListEnd(d, ptr)
  {
    hide U4At, U2At;
    if ptr + TYPE_LIST_STRUCT > d.fileLen {
      return None;
    }
    var count: nat := U4At(d.mem, ptr);
    if ptr + 4 + 2 * count > d.fileLen {
      return None;
    }
    var k := 0;
    while k < count
      invariant k <= count && forall j: nat | j < k :: TypeIdxAt(d.mem, ptr, j) < Limit(d, TYPE_ID_ITEM)
    {
      if TypeIdxAt(d.mem, ptr, k) >= Limit(d, TYPE_ID_ITEM) {
        return None;
      }
      k := k + 1;
    }
    return Some(ptr + 4 + 2 * count);
  }

  // A visitor that does for these types what the code does, and anything for the others.
  ghost predicate IsDexVisitor(d: Dex, visit: Visitor) {
    && (forall type_: u2, ptr: nat | IsTableType(type_) :: visit(type_, ptr) == IdItemEnd(d, type_, ptr))
    && (forall ptr: nat :: visit(TYPE_LIST, ptr) == TypeListEnd(d, ptr))
    && (forall ptr: nat :: visit(STRING_DATA_ITEM, ptr) == StringDataEnd(d.mem, ptr, d.fileLen))
  }
}
