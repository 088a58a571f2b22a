// The layout of a DEX file as it is written, field after field, against the places where libdex/DexSwapVerify.cpp and
// libdex/DexFile.cpp read it (libdex/DexFile.h).

module Layout {
  import opened Common
  import opened CrossVerify
  import opened Sections
  import opened Verify
  import opened Visitors

  // 32-bit words, one after the other
  function Words(words: seq<u4>): (b: seq<u1>)
    ensures |b| == 4 * |words|
  {
    if words == [] then [] else LE4(words[0]) + Words(words[1..])
  }

  // two 16-bit numbers as one word
  function Pair(low: u2, high: u2): u4 {
    low + 0x1_0000 * high
  }

  lemma {:induction false} WordReadsBack(mem: Memory, pos: nat, words: seq<u4>, i: nat)
    requires i < |words| && At(mem, pos, Words(words))
    ensures U4At(mem, pos + 4 * i) == words[i]
    ensures U2At(mem, pos + 4 * i) == words[i] % 0x1_0000 && U2At(mem, pos + 4 * i + 2) == words[i] / 0x1_0000
    decreases i
  {
    hide U4At, U2At, LE4;
    AtConcat(mem, pos, LE4(words[0]), Words(words[1..]));
    if i == 0 {
      LE4ReadsBack(mem, pos, words[0]);
    } else {
      WordReadsBack(mem, pos + 4, words[1..], i - 1);
    }
  }

  // ----- The header -----

  // header_item: the sizes and offsets of the six sections of identifiers are in the order of their types
  datatype Header = Header(
    magic: seq<u1>, checksum: u4, signature: seq<u1>, fileSize: u4, headerSize: u4, linkSize: u4, linkOff: u4,
    mapOff: u4, stringIds: (u4, u4), typeIds: (u4, u4), protoIds: (u4, u4), fieldIds: (u4, u4), methodIds: (u4, u4),
    classDefs: (u4, u4), dataSize: u4, dataOff: u4)
  {
    predicate Valid() {
      |magic| == 8 && |signature| == 20
    }
  }

  function GeneralWords(h: Header): (words: seq<u4>)
    ensures |words| == 6
  {
    [h.fileSize, h.headerSize, 0x1234_5678, h.linkSize, h.linkOff, h.mapOff]
  }

  function FirstIds(h: Header): (words: seq<u4>)
    ensures |words| == 6
  {
    [h.stringIds.0, h.stringIds.1, h.typeIds.0, h.typeIds.1, h.protoIds.0, h.protoIds.1]
  }

  function OtherIds(h: Header): (words: seq<u4>)
    ensures |words| == 6
  {
    [h.fieldIds.0, h.fieldIds.1, h.methodIds.0, h.methodIds.1, h.classDefs.0, h.classDefs.1]
  }

  function HeaderBytes(h: Header): (b: seq<u1>)
    requires h.Valid()
    ensures |b| == HEADER_SIZE
  {
    h.magic + (LE4(h.checksum) + (h.signature + (Words(GeneralWords(h)) + (Words(FirstIds(h)) + (Words(OtherIds(h))
    + Words([h.dataSize, h.dataOff]))))))
  }

  // six words, one by one
  lemma SixWords(mem: Memory, pos: nat, words: seq<u4>)
    requires |words| == 6 && At(mem, pos, Words(words))
    ensures U4At(mem, pos) == words[0] && U4At(mem, pos + 4) == words[1] && U4At(mem, pos + 8) == words[2]
    ensures U4At(mem, pos + 12) == words[3] && U4At(mem, pos + 16) == words[4] && U4At(mem, pos + 20) == words[5]
  {
    hide U4At, At, Words;
    WordReadsBack(mem, pos, words, 0);
    WordReadsBack(mem, pos, words, 1);
    WordReadsBack(mem, pos, words, 2);
    WordReadsBack(mem, pos, words, 3);
    WordReadsBack(mem, pos, words, 4);
    WordReadsBack(mem, pos, words, 5);
  }

  lemma HeaderReadsBack(mem: Memory, fileLen: nat, h: Header)
    requires h.Valid() && At(mem, 0, HeaderBytes(h))
    ensures var d := HeaderOf(mem, fileLen);
            && d.fileSize == h.fileSize && d.headerSize == h.headerSize && d.endianTag == ENDIAN_CONSTANT
            && d.linkSize == h.linkSize && d.linkOff == h.linkOff && d.mapOff == h.mapOff
            && d.dataSize == h.dataSize && d.dataOff == h.dataOff
            && d.ids(1) == (h.stringIds.1, h.stringIds.0) && d.ids(2) == (h.typeIds.1, h.typeIds.0)
            && d.ids(3) == (h.protoIds.1, h.protoIds.0) && d.ids(4) == (h.fieldIds.1, h.fieldIds.0)
            && d.ids(5) == (h.methodIds.1, h.methodIds.0) && d.ids(6) == (h.classDefs.1, h.classDefs.0)
  {
    hide U4At, At, LE4, Words;
    var data := Words([h.dataSize, h.dataOff]);
    var ids := Words(FirstIds(h)) + (Words(OtherIds(h)) + data);
    AtConcat(mem, 0, h.magic, LE4(h.checksum) + (h.signature + (Words(GeneralWords(h)) + ids)));
    AtConcat(mem, 8, LE4(h.checksum), h.signature + (Words(GeneralWords(h)) + ids));
    AtConcat(mem, 12, h.signature, Words(GeneralWords(h)) + ids);
    AtConcat(mem, 32, Words(GeneralWords(h)), ids);
    AtConcat(mem, 56, Words(FirstIds(h)), Words(OtherIds(h)) + data);
    AtConcat(mem, 80, Words(OtherIds(h)), data);
    SixWords(mem, 32, GeneralWords(h));
    SixWords(mem, 56, FirstIds(h));
    SixWords(mem, 80, OtherIds(h));
    WordReadsBack(mem, 104, [h.dataSize, h.dataOff], 0);
    WordReadsBack(mem, 104, [h.dataSize, h.dataOff], 1);
  }

  // ----- The map -----

  function MapItemsBytes(items: seq<MapItem>): (b: seq<u1>)
    ensures |b| == 12 * |items|
  {
    if items == [] then []
    else Words([Pair(items[0].type_, 0), items[0].size, items[0].offset]) + MapItemsBytes(items[1..])
  }

  // map_list
  function MapBytes(items: seq<MapItem>): seq<u1>
    requires |items| < TWO32
  {
    LE4(|items|) + MapItemsBytes(items)
  }

  lemma {:induction false} MapItemReadsBack(mem: Memory, pos: nat, items: seq<MapItem>, i: nat)
    requires i < |items| && At(mem, pos, MapItemsBytes(items))
    ensures MapItemAt(mem, pos + 12 * i) == items[i]
    decreases i
  {
    hide U4At, U2At, At, Words;
    var words := [Pair(items[0].type_, 0), items[0].size, items[0].offset];
    AtConcat(mem, pos, Words(words), MapItemsBytes(items[1..]));
    if i == 0 {
      WordReadsBack(mem, pos, words, 0);
      WordReadsBack(mem, pos, words, 1);
      WordReadsBack(mem, pos, words, 2);
    } else {
      MapItemReadsBack(mem, pos + 12, items[1..], i - 1);
    }
  }

  lemma MapReadsBack(d: Dex, items: seq<MapItem>)
    requires |items| < TWO32 && At(d.mem, d.mapOff, MapBytes(items))
    ensures MapItems(d) == items
  {
    hide At, LE4, U4At, MapItemsBytes, MapItemAt;
    AtConcat(d.mem, d.mapOff, LE4(|items|), MapItemsBytes(items));
    LE4ReadsBack(d.mem, d.mapOff, |items|);
    forall i: nat | i < |items|
      ensures MapItems(d)[i] == items[i]
    {
      MapItemReadsBack(d.mem, d.mapOff + 4, items, i);
    }
  }

  // ----- The identifiers -----

  lemma ProtoIdIs(d: Dex, dataMap: seq<(nat, u2)>, k: nat)
    requires k < d.ids(3).1
    ensures var at := Aligned(d.ids(3).0, 4) + 12 * k;
            FileOf(d, dataMap).protoIds[k] == ProtoId(U4At(d.mem, at), U4At(d.mem, at + 4), U4At(d.mem, at + 8))
  {
    hide U4At, U2At, Aligned;
    assert EntryAt(d, 3, k) == Aligned(d.ids(3).0, 4) + 12 * k;
  }

  lemma FieldIdIs(d: Dex, dataMap: seq<(nat, u2)>, k: nat)
    requires k < d.ids(4).1
    ensures var at := Aligned(d.ids(4).0, 4) + 8 * k;
            FileOf(d, dataMap).fieldIds[k] == FieldId(U2At(d.mem, at), U2At(d.mem, at + 2), U4At(d.mem, at + 4))
  {
    hide U4At, U2At, Aligned;
    assert EntryAt(d, 4, k) == Aligned(d.ids(4).0, 4) + 8 * k;
  }

  lemma MethodIdIs(d: Dex, dataMap: seq<(nat, u2)>, k: nat)
    requires k < d.ids(5).1
    ensures var at := Aligned(d.ids(5).0, 4) + 8 * k;
            FileOf(d, dataMap).methodIds[k] == MethodId(U2At(d.mem, at), U2At(d.mem, at + 2), U4At(d.mem, at + 4))
  {
    hide U4At, U2At, Aligned;
    assert EntryAt(d, 5, k) == Aligned(d.ids(5).0, 4) + 8 * k;
  }

  // The k-th item of each section reads as what was written, and passes its visitor exactly if it ends in the file and
  // its indices are in range.
  lemma StringIdReadsBack(d: Dex, dataMap: seq<(nat, u2)>, k: nat, stringDataOff: u4)
    requires k < d.ids(1).1 && At(d.mem, Aligned(d.ids(1).0, 4) + 4 * k, Words([stringDataOff]))
    ensures FileOf(d, dataMap).stringIds[k] == stringDataOff
    ensures var at := Aligned(d.ids(1).0, 4) + 4 * k;
            IdItemEnd(d, 1, at) == if at + 4 <= d.fileLen then Some(at + 4) else None
  {
    hide U4At, At, Words;
    assert EntryAt(d, 1, k) == Aligned(d.ids(1).0, 4) + 4 * k;
    WordReadsBack(d.mem, Aligned(d.ids(1).0, 4) + 4 * k, [stringDataOff], 0);
  }

  lemma TypeIdReadsBack(d: Dex, dataMap: seq<(nat, u2)>, k: nat, descriptorIdx: u4)
    requires k < d.ids(2).1 && At(d.mem, Aligned(d.ids(2).0, 4) + 4 * k, Words([descriptorIdx]))
    ensures FileOf(d, dataMap).typeIds[k] == descriptorIdx
    ensures var at := Aligned(d.ids(2).0, 4) + 4 * k;
            IdItemEnd(d, 2, at) == if at + 4 <= d.fileLen && descriptorIdx < d.ids(1).1 then Some(at + 4) else None
  {
    hide U4At, At, Words;
    assert EntryAt(d, 2, k) == Aligned(d.ids(2).0, 4) + 4 * k;
    WordReadsBack(d.mem, Aligned(d.ids(2).0, 4) + 4 * k, [descriptorIdx], 0);
  }

  lemma ProtoIdReadsBack(d: Dex, dataMap: seq<(nat, u2)>, k: nat, p: ProtoId)
    requires k < d.ids(3).1
    requires At(d.mem, Aligned(d.ids(3).0, 4) + 12 * k, Words([p.shortyIdx, p.returnTypeIdx, p.parametersOff]))
    ensures FileOf(d, dataMap).protoIds[k] == p
    ensures var at := Aligned(d.ids(3).0, 4) + 12 * k;
            IdItemEnd(d, 3, at) ==
            if at + 12 <= d.fileLen && p.shortyIdx < d.ids(1).1 && p.returnTypeIdx < d.ids(2).1 then Some(at + 12)
            else None
  {
    hide U4At, At, Words, Aligned, FileOf;
    ProtoIdIs(d, dataMap, k);
    var at, words := Aligned(d.ids(3).0, 4) + 12 * k, [p.shortyIdx, p.returnTypeIdx, p.parametersOff];
    WordReadsBack(d.mem, at, words, 0);
    WordReadsBack(d.mem, at, words, 1);
    WordReadsBack(d.mem, at, words, 2);
  }

  lemma FieldIdReadsBack(d: Dex, dataMap: seq<(nat, u2)>, k: nat, f: FieldId)
    requires k < d.ids(4).1
    requires At(d.mem, Aligned(d.ids(4).0, 4) + 8 * k, Words([Pair(f.classIdx, f.typeIdx), f.nameIdx]))
    ensures FileOf(d, dataMap).fieldIds[k] == f
    ensures var at := Aligned(d.ids(4).0, 4) + 8 * k;
            IdItemEnd(d, 4, at) ==
            if at + 8 <= d.fileLen && f.classIdx < d.ids(2).1 && f.typeIdx < d.ids(2).1 && f.nameIdx < d.ids(1).1 then
              Some(at + 8)
            else None
  {
    hide U4At, U2At, At, Words, Aligned, FileOf;
    FieldIdIs(d, dataMap, k);
    var at, words := Aligned(d.ids(4).0, 4) + 8 * k, [Pair(f.classIdx, f.typeIdx), f.nameIdx];
    WordReadsBack(d.mem, at, words, 0);
    WordReadsBack(d.mem, at, words, 1);
  }

  lemma MethodIdReadsBack(d: Dex, dataMap: seq<(nat, u2)>, k: nat, m: MethodId)
    requires k < d.ids(5).1
    requires At(d.mem, Aligned(d.ids(5).0, 4) + 8 * k, Words([Pair(m.classIdx, m.protoIdx), m.nameIdx]))
    ensures FileOf(d, dataMap).methodIds[k] == m
    ensures var at := Aligned(d.ids(5).0, 4) + 8 * k;
            IdItemEnd(d, 5, at) ==
            if at + 8 <= d.fileLen && m.classIdx < d.ids(2).1 && m.protoIdx < d.ids(3).1 && m.nameIdx < d.ids(1).1 then
              Some(at + 8)
            else None
  {
    hide U4At, U2At, At, Words, Aligned, FileOf;
    MethodIdIs(d, dataMap, k);
    var at, words := Aligned(d.ids(5).0, 4) + 8 * k, [Pair(m.classIdx, m.protoIdx), m.nameIdx];
    WordReadsBack(d.mem, at, words, 0);
    WordReadsBack(d.mem, at, words, 1);
  }

  // ----- Type lists -----

  function TypeIdxBytes(types: seq<u2>): (b: seq<u1>)
    ensures |b| == 2 * |types|
  {
    if types == [] then [] else LE2(types[0]) + TypeIdxBytes(types[1..])
  }

  // type_list
  function TypeListBytes(types: seq<u2>): seq<u1>
    requires |types| < TWO32
  {
    LE4(|types|) + TypeIdxBytes(types)
  }

  lemma {:induction false} TypeIdxReadsBack(mem: Memory, pos: nat, types: seq<u2>, i: nat)
    requires i < |types| && At(mem, pos, TypeIdxBytes(types))
    ensures U2At(mem, pos + 2 * i) == types[i]
    decreases i
  {
    hide U2At, LE2, At;
    AtConcat(mem, pos, LE2(types[0]), TypeIdxBytes(types[1..]));
    if i == 0 {
      LE2ReadsBack(mem, pos, types[0]);
    } else {
      TypeIdxReadsBack(mem, pos + 2, types[1..], i - 1);
    }
  }

  // A type list is read as the types that were written, and passes exactly if it and its structure, which has room for
  // one type and is padded, end in the file and all types are in range.
  lemma TypeListReadsBack(d: Dex, f: DexFile, i: nat, types: seq<u2>)
    requires f.mem == d.mem && i < |f.protoIds| && f.protoIds[i].parametersOff != 0 && |types| < TWO32
    requires At(d.mem, f.protoIds[i].parametersOff, TypeListBytes(types))
    ensures f.Params(i) == types
    ensures var at: nat := f.protoIds[i].parametersOff;
            TypeListEnd(d, at) ==
            if at + 8 <= d.fileLen && at + 4 + 2 * |types| <= d.fileLen && forall t | t in types :: t < d.ids(2).1 then
              Some(at + 4 + 2 * |types|)
            else None
  {
    hide U2At, U4At, LE2, LE4, At, TypeIdxBytes;
    var at: nat := f.protoIds[i].parametersOff;
    AtConcat(d.mem, at, LE4(|types|), TypeIdxBytes(types));
    LE4ReadsBack(d.mem, at, |types|);
    forall k: nat | k < |types|
      ensures TypeIdxAt(d.mem, at, k) == types[k] && types[k] in types
    {
      TypeIdxReadsBack(d.mem, at + 4, types, k);
    }
    assert f.Params(i) == types;
  }
}
