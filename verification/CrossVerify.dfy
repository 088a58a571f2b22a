// Cross verification of the id sections in libdex/DexSwapVerify.cpp: what it adds to what the passes before have
// established, and what its checks of adjacent items give for whole tables.

module CrossVerify {
  import opened Common
  import opened DataMap
  import opened DexProto
  import opened DexUtf
  import opened Mutf8
  import L = Leb128
  import V = Visitors
  import S = Sections

  datatype ProtoId = ProtoId(shortyIdx: u4, returnTypeIdx: u4, parametersOff: u4)
  datatype FieldId = FieldId(classIdx: u2, typeIdx: u2, nameIdx: u4)
  datatype MethodId = MethodId(classIdx: u2, protoIdx: u2, nameIdx: u4)

  // What the pass works on: the file, the entries of the data map, and the id tables. The items of string_ids and
  // type_ids hold one number only, the offset of the string and the index of the descriptor. A table is aligned if its
  // items have been visited where an index finds them later.
  datatype DexFile = DexFile(
    mem: Memory,
    dataMap: seq<(nat, u2)>,
    aligned: set<u2>,
    stringIds: seq<u4>,
    typeIds: seq<u4>,
    protoIds: seq<ProtoId>,
    fieldIds: seq<FieldId>,
    methodIds: seq<MethodId>)
  {
    // What the swapping pass has established: visited strings are canonical and terminated, the indices in visited
    // type lists and in the tables are in range. It has followed no offset.
    ghost predicate Swapped() {
      && (forall off: nat | (off, S.STRING_DATA_ITEM) in dataMap :: IsString(mem, off))
      && (forall off: nat | (off, S.TYPE_LIST) in dataMap :: V.ListInRange(mem, off, |typeIds|))
      && (forall i | 0 <= i < |typeIds| :: typeIds[i] < |stringIds|)
      && (forall i | 0 <= i < |protoIds| ::
            protoIds[i].shortyIdx < |stringIds| && protoIds[i].returnTypeIdx < |typeIds|)
      && (forall i | 0 <= i < |fieldIds| ::
            fieldIds[i].classIdx < |typeIds| && fieldIds[i].nameIdx < |stringIds| && fieldIds[i].typeIdx < |typeIds|)
      && (forall i | 0 <= i < |methodIds| ::
            methodIds[i].classIdx < |typeIds| && methodIds[i].nameIdx < |stringIds|
            && methodIds[i].protoIdx < |protoIds|)
    }

    // a string id that designates a visited string
    predicate IsKnown(i: nat)
      requires i < |stringIds|
    {
      (stringIds[i], S.STRING_DATA_ITEM) in dataMap
    }

    // a type id whose descriptor is such a string
    predicate TypeIsKnown(i: nat)
      requires i < |typeIds| && typeIds[i] < |stringIds|
    {
      IsKnown(typeIds[i])
    }

    // a prototype whose parameter list has been visited, if it has one
    predicate ListIsKnown(i: nat)
      requires i < |protoIds|
    {
      protoIds[i].parametersOff == 0 || (protoIds[i].parametersOff, S.TYPE_LIST) in dataMap
    }

    // dexStringById reads an item that has been visited and follows an offset that has been verified
    predicate StringIsFound(i: nat)
      requires i < |stringIds|
    {
      S.STRING_ID_ITEM in aligned && IsKnown(i)
    }

    // and so does dexStringByTypeIdx
    predicate TypeIsFound(i: nat)
      requires i < |typeIds| && typeIds[i] < |stringIds|
    {
      S.TYPE_ID_ITEM in aligned && StringIsFound(typeIds[i])
    }

    ghost predicate AllKnown() {
      && (forall i: nat | i < |stringIds| :: IsKnown(i))
      && (forall i: nat | i < |protoIds| :: ListIsKnown(i))
    }

    // the tables that the checks look into, if there are items to check
    predicate TablesAligned() {
      && (typeIds != [] || protoIds != [] || fieldIds != [] || methodIds != [] ==> S.STRING_ID_ITEM in aligned)
      && (protoIds != [] || fieldIds != [] || methodIds != [] ==> S.TYPE_ID_ITEM in aligned)
      && (protoIds != [] ==> V.PROTO_ID_ITEM in aligned)
    }

    // dexGetStringData
    function StringData(i: nat): nat
      requires i < |stringIds|
    {
      L.UnsignedAt(mem, stringIds[i]).next
    }

    // the UTF-16 units of a string
    ghost function Units(i: nat): (units: seq<u2>)
      requires Swapped() && i < |stringIds| && IsKnown(i)
      ensures At(mem, StringData(i), Encode(units) + [0])
    {
      var units :| At(mem, L.UnsignedAt(mem, stringIds[i]).next, Encode(units) + [0]);
      units
    }

    // dexStringById; what it points to is taken for the pointer
    function StringById(i: nat): (s: seq<u1>)
      requires Swapped() && i < |stringIds| && IsKnown(i)
      ensures s == Encode(Units(i))
    {
      EncodingHasNoZero(Units(i));
      CStringIs(mem, StringData(i), Encode(Units(i)));
      CString(mem, StringData(i), StringData(i) + |Encode(Units(i))|)
    }

    // dexStringByTypeIdx
    function StringByTypeIdx(i: nat): seq<u1>
      requires Swapped() && i < |typeIds| && TypeIsKnown(i)
    {
      StringById(typeIds[i])
    }

    // dexProtoGetParameters: the type indices of the parameters
    function Params(i: nat): seq<nat>
      requires i < |protoIds|
    {
      var off: nat := protoIds[i].parametersOff;
      if off == 0 then []
      else seq(U4At(mem, off), k requires 0 <= k => V.TypeIdxAt(mem, off, k))
    }

    // all types of a prototype are known
    predicate ProtoIsKnown(i: nat)
      requires Swapped() && i < |protoIds| && ListIsKnown(i)
    {
      && TypeIsKnown(protoIds[i].returnTypeIdx)
      && forall k | 0 <= k < |Params(i)| :: TypeIsKnown(Params(i)[k])
    }

    // all of them are found, the parameters by the index of the prototype
    predicate ProtoIsFound(i: nat)
      requires Swapped() && i < |protoIds| && ListIsKnown(i)
    {
      && V.PROTO_ID_ITEM in aligned && TypeIsFound(protoIds[i].returnTypeIdx)
      && forall k | 0 <= k < |Params(i)| :: TypeIsFound(Params(i)[k])
    }

    function ProtoOf(i: nat): Proto
      requires Swapped() && i < |protoIds| && ListIsKnown(i) && ProtoIsKnown(i)
    {
      Proto(StringByTypeIdx(protoIds[i].returnTypeIdx),
            seq(|Params(i)|, k requires 0 <= k < |Params(i)| => StringByTypeIdx(Params(i)[k])))
    }
  }

  // ----- Strings in memory -----

  // a terminated canonical string behind its size
  ghost predicate IsString(mem: Memory, off: nat) {
    exists units: seq<u2> :: At(mem, L.UnsignedAt(mem, off).next, Encode(units) + [0])
  }

  // the bytes up to the first zero, which is not behind end
  function CString(mem: Memory, pos: nat, ghost end: nat): seq<u1>
    requires pos <= end && mem(end) == 0
    decreases end - pos
  {
    if mem(pos) == 0 then [] else [mem(pos)] + CString(mem, pos + 1, end)
  }

  lemma {:induction false} CStringIs(mem: Memory, pos: nat, s: seq<u1>)
    requires At(mem, pos, s + [0]) && 0 !in s
    ensures mem(pos + |s|) == 0 && CString(mem, pos, pos + |s|) == s
    decreases |s|
  {
    assert (s + [0])[|s|] == 0;
    assert mem(pos + 0) == (s + [0])[0];
    if s != [] {
      assert s + [0] == [s[0]] + (s[1..] + [0]);
      AtConcat(mem, pos, [s[0]], s[1..] + [0]);
      CStringIs(mem, pos + 1, s[1..]);
    }
  }

  lemma {:induction false} EncodingHasNoZero(units: seq<u2>)
    ensures 0 !in Encode(units)
  {
    if units != [] {
      EncodingHasNoZero(units[1..]);
    }
  }

  // ----- What each item has to satisfy -----

  ghost predicate StringIdOkay(f: DexFile, i: nat)
    requires f.Swapped() && i < |f.stringIds|
  {
    f.IsKnown(i) && (i > 0 ==> f.IsKnown(i - 1) && Compare(f.Units(i - 1), f.Units(i)) < 0)
  }

  ghost predicate IsValidType(s: seq<u1>)
    ensures IsValidType(s) ==> s != []
  {
    Whole(s) && IsValid(s, false, false)
  }

  ghost predicate TypeIdOkay(f: DexFile, i: nat)
    requires f.Swapped() && i < |f.typeIds|
  {
    && f.StringIsFound(f.typeIds[i]) && IsValidType(f.StringByTypeIdx(i))
    && (i > 0 ==> f.typeIds[i - 1] < f.typeIds[i])
  }

  // shortyDescMatch
  predicate ShortyMatches(shorty: u1, descriptor: seq<u1>, isReturnType: bool) {
    if shorty == CAP_V || IsPrimitive(shorty) then (shorty == CAP_V ==> isReturnType) && descriptor == [shorty]
    else shorty == CAP_L && descriptor != [] && (descriptor[0] == CAP_L || descriptor[0] == BRACKET)
  }

  predicate ReturnTypeFits(shorty: seq<u1>, returnType: seq<u1>) {
    shorty != [] && ShortyMatches(shorty[0], returnType, true)
  }

  predicate ShortyFits(shorty: seq<u1>, p: Proto) {
    && |shorty| == 1 + |p.params|
    && ReturnTypeFits(shorty, p.returnType)
    && forall k | 0 <= k < |p.params| :: ShortyMatches(shorty[k + 1], p.params[k], false)
  }

  // the order of parameter lists by type index
  predicate ListLess(a: seq<nat>, b: seq<nat>) {
    && b != []
    && (a == [] || a[0] < b[0] || (a[0] == b[0] && ListLess(a[1..], b[1..])))
  }

  predicate ProtoLess(f: DexFile, i: nat, j: nat)
    requires i < |f.protoIds| && j < |f.protoIds|
  {
    var a, b := f.protoIds[i].returnTypeIdx, f.protoIds[j].returnTypeIdx;
    a < b || (a == b && ListLess(f.Params(i), f.Params(j)))
  }

  ghost predicate ProtoIdOkay(f: DexFile, i: nat)
    requires f.Swapped() && i < |f.protoIds|
  {
    && f.ListIsKnown(i) && f.StringIsFound(f.protoIds[i].shortyIdx) && f.ProtoIsFound(i)
    && ShortyFits(f.StringById(f.protoIds[i].shortyIdx), f.ProtoOf(i))
    && (i > 0 ==> ProtoLess(f, i - 1, i))
  }

  // lexicographic order of three indices
  predicate TripleLess(a: (nat, nat, nat), b: (nat, nat, nat)) {
    a.0 < b.0 || (a.0 == b.0 && (a.1 < b.1 || (a.1 == b.1 && a.2 < b.2)))
  }

  function FieldKey(id: FieldId): (nat, nat, nat) {
    (id.classIdx, id.nameIdx, id.typeIdx)
  }

  function MethodKey(id: MethodId): (nat, nat, nat) {
    (id.classIdx, id.nameIdx, id.protoIdx)
  }

  ghost predicate IsClass(s: seq<u1>) {
    IsValidType(s) && s[0] == CAP_L
  }

  ghost predicate IsFieldType(s: seq<u1>) {
    IsValidType(s) && s[0] != CAP_V
  }

  ghost predicate IsReference(s: seq<u1>) {
    IsValidType(s) && (s[0] == CAP_L || s[0] == BRACKET)
  }

  ghost predicate IsValidName(s: seq<u1>) {
    Whole(s) && IsMemberName(s)
  }

  ghost predicate FieldIdOkay(f: DexFile, i: nat)
    requires f.Swapped() && i < |f.fieldIds|
  {
    var id := f.fieldIds[i];
    && f.TypeIsFound(id.classIdx) && f.TypeIsFound(id.typeIdx) && f.StringIsFound(id.nameIdx)
    && IsClass(f.StringByTypeIdx(id.classIdx)) && IsFieldType(f.StringByTypeIdx(id.typeIdx))
    && IsValidName(f.StringById(id.nameIdx))
    && (i > 0 ==> TripleLess(FieldKey(f.fieldIds[i - 1]), FieldKey(id)))
  }

  ghost predicate MethodIdOkay(f: DexFile, i: nat)
    requires f.Swapped() && i < |f.methodIds|
  {
    var id := f.methodIds[i];
    && f.TypeIsFound(id.classIdx) && f.StringIsFound(id.nameIdx)
    && IsReference(f.StringByTypeIdx(id.classIdx))
    && IsValidName(f.StringById(id.nameIdx))
    && (i > 0 ==> TripleLess(MethodKey(f.methodIds[i - 1]), MethodKey(id)))
  }

  // ----- When the check of an item reads what no pass has verified -----

  predicate TypeIdStrays(f: DexFile, i: nat)
    requires f.Swapped() && i < |f.typeIds|
  {
    !f.StringIsFound(f.typeIds[i])
  }

  // a parameter behind k that fit
  predicate ParameterStrays(f: DexFile, i: nat, shorty: seq<u1>, k: nat)
    requires f.Swapped() && i < |f.protoIds| && f.ListIsKnown(i) && k < |f.Params(i)|
  {
    && k < |shorty| && !f.TypeIsFound(f.Params(i)[k])
    && forall j | 0 <= j < k ::
         f.TypeIsFound(f.Params(i)[j]) && ShortyMatches(shorty[j + 1], f.StringByTypeIdx(f.Params(i)[j]), false)
  }

  ghost predicate ProtoIdStrays(f: DexFile, i: nat)
    requires f.Swapped() && i < |f.protoIds|
  {
    var id := f.protoIds[i];
    || !f.StringIsFound(id.shortyIdx)
    || (&& f.ListIsKnown(i)
        && (|| !f.TypeIsFound(id.returnTypeIdx)
            || (&& ReturnTypeFits(f.StringById(id.shortyIdx), f.StringByTypeIdx(id.returnTypeIdx))
                && (|| V.PROTO_ID_ITEM !in f.aligned
                    || exists k: nat :: k < |f.Params(i)| && ParameterStrays(f, i, f.StringById(id.shortyIdx), k)))))
  }

  ghost predicate FieldIdStrays(f: DexFile, i: nat)
    requires f.Swapped() && i < |f.fieldIds|
  {
    var id := f.fieldIds[i];
    || !f.TypeIsFound(id.classIdx)
    || (&& IsClass(f.StringByTypeIdx(id.classIdx))
        && (|| !f.TypeIsFound(id.typeIdx)
            || (IsFieldType(f.StringByTypeIdx(id.typeIdx)) && !f.StringIsFound(id.nameIdx))))
  }

  ghost predicate MethodIdStrays(f: DexFile, i: nat)
    requires f.Swapped() && i < |f.methodIds|
  {
    var id := f.methodIds[i];
    || !f.TypeIsFound(id.classIdx)
    || (IsReference(f.StringByTypeIdx(id.classIdx)) && !f.StringIsFound(id.nameIdx))
  }

  lemma ParamsInRange(f: DexFile, i: nat)
    requires f.Swapped() && i < |f.protoIds| && f.ListIsKnown(i)
    ensures forall k | 0 <= k < |f.Params(i)| ::
              f.Params(i)[k] < |f.typeIds| && f.typeIds[f.Params(i)[k]] < |f.stringIds|
  {
    hide IsString, U4At;
    var off := f.protoIds[i].parametersOff;
    forall k: nat | k < |f.Params(i)|
      ensures f.Params(i)[k] < |f.typeIds|
    {
      assert V.ListInRange(f.mem, off, |f.typeIds|) && V.TypeIdxAt(f.mem, off, k) < |f.typeIds|;
    }
  }

  // ----- The checks -----

  // Astray: the pass reads an item where none has been visited, or follows an offset that no pass has verified.
  datatype Verdict = Accepted | Rejected | Astray

  function Previous(i: nat): Option<nat> {
    if i == 0 then None else Some(i - 1)
  }

  method CrossVerifyStringIdItem(f: DexFile, dataMap: DexDataMap, i: nat, previousItem: Option<nat>)
    returns (okay: bool)
    requires f.Swapped() && dataMap.Valid() && dataMap.Entries() == f.dataMap
    requires i < |f.stringIds| && previousItem == Previous(i) && (i > 0 ==> f.IsKnown(i - 1))
    ensures okay <==> StringIdOkay(f, i)
  {
    var visited := dataMap.Verify(f.stringIds[i], S.STRING_DATA_ITEM);
    if !visited {
      return false;
    }
    if previousItem != None {
      var i0 := previousItem.value;
      EncodingDecodes(f.mem, f.StringData(i0), f.Units(i0));
      EncodingDecodes(f.mem, f.StringData(i), f.Units(i));
      var diff := Utf8Cmp(f.mem, f.StringData(i0), f.StringData(i), f.Units(i0), f.Units(i));
      if diff >= 0 {
        return false;
      }
    }
    return true;
  }

  // dexIsValidTypeDescriptor on a visited string
  method IsValidTypeDescriptor(f: DexFile, i: nat) returns (valid: bool)
    requires f.Swapped() && i < |f.stringIds| && f.IsKnown(i)
    ensures valid <==> IsValidType(f.StringById(i))
  {
    EncodingIsWhole(f.Units(i));
    valid := IsValidTypeDescriptorOrClassName(f.StringById(i), false, false);
  }

  method CrossVerifyTypeIdItem(f: DexFile, i: nat, previousItem: Option<nat>) returns (verdict: Verdict)
    requires f.Swapped() && i < |f.typeIds| && previousItem == Previous(i)
    ensures verdict == Accepted <==> TypeIdOkay(f, i)
    ensures verdict == Astray <==> TypeIdStrays(f, i)
  {
    hide IsValidType;
    if !f.StringIsFound(f.typeIds[i]) {
      return Astray;
    }
    var valid := IsValidTypeDescriptor(f, f.typeIds[i]);
    if !valid {
      return Rejected;
    }
    if previousItem != None {
      if f.typeIds[previousItem.value] >= f.typeIds[i] {
        return Rejected;
      }
    }
    return Accepted;
  }

  method ShortyDescMatch(shorty: u1, descriptor: seq<u1>, isReturnType: bool) returns (matches: bool)
    ensures matches == ShortyMatches(shorty, descriptor, isReturnType)
  {
    if shorty == CAP_V && !isReturnType {
      return false;
    }
    if shorty == CAP_V || IsPrimitive(shorty) {
      if |descriptor| == 0 || descriptor[0] != shorty || |descriptor| > 1 {
        return false;
      }
    } else if shorty == CAP_L {
      if |descriptor| == 0 || (descriptor[0] != CAP_L && descriptor[0] != BRACKET) {
        return false;
      }
    } else {
      return false;
    }
    return true;
  }

  // the loop over the parameters in crossVerifyProtoIdItem, with the return type already compared
  method MatchParameters(f: DexFile, i: nat, shorty: seq<u1>) returns (verdict: Verdict)
    requires f.Swapped() && i < |f.protoIds| && f.ListIsKnown(i) && shorty != []
    ensures verdict == Accepted <==>
              && |shorty| == 1 + |f.Params(i)|
              && forall k | 0 <= k < |f.Params(i)| ::
                   && f.TypeIsFound(f.Params(i)[k])
                   && ShortyMatches(shorty[k + 1], f.StringByTypeIdx(f.Params(i)[k]), false)
    ensures verdict == Astray <==> exists k: nat :: k < |f.Params(i)| && ParameterStrays(f, i, shorty, k)
  {
    hide DexFile.Swapped, DexFile.Params, DexFile.StringByTypeIdx, ShortyMatches;
    ParamsInRange(f, i);
    var params := f.Params(i);
    var at: nat := 1;
    while at - 1 < |params|
      invariant 1 <= at <= |shorty| && at - 1 <= |params|
      invariant forall k | 0 <= k < at - 1 ::
                  f.TypeIsFound(params[k]) && ShortyMatches(shorty[k + 1], f.StringByTypeIdx(params[k]), false)
    {
      if !f.TypeIsFound(params[at - 1]) {
        assert ParameterStrays(f, i, shorty, at - 1);
        return Astray;
      }
      if at == |shorty| {
        return Rejected;
      }
      var matches := ShortyDescMatch(shorty[at], f.StringByTypeIdx(params[at - 1]), false);
      if !matches {
        assert !ShortyMatches(shorty[at - 1 + 1], f.StringByTypeIdx(params[at - 1]), false);
        return Rejected;
      }
      at := at + 1;
    }
    verdict := if at == |shorty| then Accepted else Rejected;
  }

  // the loop over both parameter lists in crossVerifyProtoIdItem
  method ParametersAscend(params0: seq<nat>, params1: seq<nat>) returns (less: bool)
    ensures less == ListLess(params0, params1)
  {
    var cursor := 0;
    while true
      invariant cursor <= |params0| && cursor <= |params1|
      invariant ListLess(params0, params1) == ListLess(params0[cursor..], params1[cursor..])
      decreases |params0| - cursor
    {
      if cursor == |params1| {
        return false;
      }
      if cursor == |params0| {
        return true;
      }
      if params0[cursor] < params1[cursor] {
        return true;
      } else if params0[cursor] > params1[cursor] {
        return false;
      }
      assert params0[cursor..][1..] == params0[cursor + 1..] && params1[cursor..][1..] == params1[cursor + 1..];
      cursor := cursor + 1;
    }
  }

  // dexDataMapVerify0Ok
  method Verify0Ok(dataMap: DexDataMap, offset: u4, type_: u2) returns (okay: bool)
    requires dataMap.Valid()
    ensures okay <==> offset == 0 || (offset, type_) in dataMap.Entries()
  {
    if offset == 0 {
      return true;
    }
    okay := dataMap.Verify(offset, type_);
  }

  // the order check in crossVerifyProtoIdItem
  method ProtosInOrder(f: DexFile, i: nat) returns (less: bool)
    requires 0 < i < |f.protoIds|
    ensures less == ProtoLess(f, i - 1, i)
  {
    hide ListLess, DexFile.Params;
    var item0, item := f.protoIds[i - 1], f.protoIds[i];
    if item0.returnTypeIdx > item.returnTypeIdx {
      return false;
    } else if item0.returnTypeIdx == item.returnTypeIdx {
      less := ParametersAscend(f.Params(i - 1), f.Params(i));
      return;
    }
    return true;
  }

  // the comparison with the shorty in crossVerifyProtoIdItem
  method MatchShorty(f: DexFile, i: nat) returns (verdict: Verdict)
    requires f.Swapped() && i < |f.protoIds| && f.ListIsKnown(i) && f.StringIsFound(f.protoIds[i].shortyIdx)
    ensures verdict == Accepted <==>
              f.ProtoIsFound(i) && ShortyFits(f.StringById(f.protoIds[i].shortyIdx), f.ProtoOf(i))
    ensures verdict == Astray <==> ProtoIdStrays(f, i)
  {
    hide IsString, U4At, DexFile.Params, DexFile.StringById, ShortyMatches;
    var returnTypeIdx := f.protoIds[i].returnTypeIdx;
    var shorty := f.StringById(f.protoIds[i].shortyIdx);
    if !f.TypeIsFound(returnTypeIdx) {
      return Astray;
    }
    var first := if |shorty| > 0 then shorty[0] else 0;
    NoShorty(f.StringByTypeIdx(returnTypeIdx));
    var matches := ShortyDescMatch(first, f.StringByTypeIdx(returnTypeIdx), true);
    if !matches {
      return Rejected;
    }
    if V.PROTO_ID_ITEM !in f.aligned {
      return Astray;
    }
    if f.ProtoIsFound(i) {
      FitsMeans(f, i, shorty);
    }
    verdict := MatchParameters(f, i, shorty);
  }

  lemma FitsMeans(f: DexFile, i: nat, shorty: seq<u1>)
    requires f.Swapped() && i < |f.protoIds| && f.ListIsKnown(i) && f.ProtoIsFound(i)
    ensures ShortyFits(shorty, f.ProtoOf(i)) <==>
              && ReturnTypeFits(shorty, f.StringByTypeIdx(f.protoIds[i].returnTypeIdx))
              && |shorty| == 1 + |f.Params(i)|
              && forall k | 0 <= k < |f.Params(i)| ::
                   ShortyMatches(shorty[k + 1], f.StringByTypeIdx(f.Params(i)[k]), false)
  {
    hide IsString, U4At, DexFile.Params, DexFile.StringById, ShortyMatches;
    var p := f.ProtoOf(i);
    ParamsInRange(f, i);
    forall k | 0 <= k < |f.Params(i)|
      ensures f.TypeIsFound(f.Params(i)[k]) && p.params[k] == f.StringByTypeIdx(f.Params(i)[k])
    {
    }
  }

  lemma NoShorty(descriptor: seq<u1>)
    ensures !ShortyMatches(0, descriptor, true)
  {
  }

  method CrossVerifyProtoIdItem(f: DexFile, dataMap: DexDataMap, i: nat, previousItem: Option<nat>)
    returns (verdict: Verdict)
    requires f.Swapped() && dataMap.Valid() && dataMap.Entries() == f.dataMap
    requires i < |f.protoIds| && previousItem == Previous(i)
    ensures verdict == Accepted <==> ProtoIdOkay(f, i)
    ensures verdict == Astray <==> ProtoIdStrays(f, i)
  {
    hide IsString, U4At, DexFile.Params, ShortyFits, ProtoLess, DexFile.StringById;
    hide DexDataMap.Valid, DexDataMap.Entries;
    if !f.StringIsFound(f.protoIds[i].shortyIdx) {
      return Astray;
    }
    var visited := Verify0Ok(dataMap, f.protoIds[i].parametersOff, S.TYPE_LIST);
    if !visited {
      return Rejected;
    }
    verdict := MatchShorty(f, i);
    if verdict != Accepted {
      return;
    }
    if previousItem != None {
      var less := ProtosInOrder(f, i);
      if !less {
        return Rejected;
      }
    }
  }

  // the order check that crossVerifyFieldIdItem and crossVerifyMethodIdItem share
  method TriplesAscend(a: (nat, nat, nat), b: (nat, nat, nat)) returns (less: bool)
    ensures less == TripleLess(a, b)
  {
    var done, bogus := false, false;
    if a.0 > b.0 {
      bogus, done := true, true;
    } else if a.0 < b.0 {
      done := true;
    }
    if !done {
      if a.1 > b.1 {
        bogus, done := true, true;
      } else if a.1 < b.1 {
        done := true;
      }
    }
    if !done {
      if a.2 >= b.2 {
        bogus := true;
      }
    }
    return !bogus;
  }

  method CrossVerifyFieldIdItem(f: DexFile, i: nat, previousItem: Option<nat>) returns (verdict: Verdict)
    requires f.Swapped() && i < |f.fieldIds| && previousItem == Previous(i)
    ensures verdict == Accepted <==> FieldIdOkay(f, i)
    ensures verdict == Astray <==> FieldIdStrays(f, i)
  {
    hide IsValid, IsMemberName, Whole;
    var item := f.fieldIds[i];
    if !f.TypeIsFound(item.classIdx) {
      return Astray;
    }
    var valid := IsValidTypeDescriptor(f, f.typeIds[item.classIdx]);
    if !valid || f.StringByTypeIdx(item.classIdx)[0] != CAP_L {
      return Rejected;
    }
    if !f.TypeIsFound(item.typeIdx) {
      return Astray;
    }
    valid := IsValidTypeDescriptor(f, f.typeIds[item.typeIdx]);
    if !valid || f.StringByTypeIdx(item.typeIdx)[0] == CAP_V {
      return Rejected;
    }
    if !f.StringIsFound(item.nameIdx) {
      return Astray;
    }
    EncodingIsWhole(f.Units(item.nameIdx));
    valid := IsValidMemberName(f.StringById(item.nameIdx));
    if !valid {
      return Rejected;
    }
    if previousItem != None {
      var less := TriplesAscend(FieldKey(f.fieldIds[previousItem.value]), FieldKey(item));
      if !less {
        return Rejected;
      }
    }
    return Accepted;
  }

  method CrossVerifyMethodIdItem(f: DexFile, i: nat, previousItem: Option<nat>) returns (verdict: Verdict)
    requires f.Swapped() && i < |f.methodIds| && previousItem == Previous(i)
    ensures verdict == Accepted <==> MethodIdOkay(f, i)
    ensures verdict == Astray <==> MethodIdStrays(f, i)
  {
    hide IsValid, IsMemberName, Whole;
    var item := f.methodIds[i];
    if !f.TypeIsFound(item.classIdx) {
      return Astray;
    }
    var valid := IsValidTypeDescriptor(f, f.typeIds[item.classIdx]);
    if !valid
       || (f.StringByTypeIdx(item.classIdx)[0] != CAP_L && f.StringByTypeIdx(item.classIdx)[0] != BRACKET) {
      return Rejected;
    }
    if !f.StringIsFound(item.nameIdx) {
      return Astray;
    }
    EncodingIsWhole(f.Units(item.nameIdx));
    valid := IsValidMemberName(f.StringById(item.nameIdx));
    if !valid {
      return Rejected;
    }
    if previousItem != None {
      var less := TriplesAscend(MethodKey(f.methodIds[previousItem.value]), MethodKey(item));
      if !less {
        return Rejected;
      }
    }
    return Accepted;
  }

  // ----- The pass over the sections -----

  function Size(f: DexFile, type_: u2): nat
    requires V.IsTableType(type_)
  {
    if type_ == S.STRING_ID_ITEM then |f.stringIds|
    else if type_ == S.TYPE_ID_ITEM then |f.typeIds|
    else if type_ == V.PROTO_ID_ITEM then |f.protoIds|
    else if type_ == V.FIELD_ID_ITEM then |f.fieldIds|
    else |f.methodIds|
  }

  ghost predicate ItemOkay(f: DexFile, type_: u2, i: nat)
    requires f.Swapped() && V.IsTableType(type_) && i < Size(f, type_)
  {
    if type_ == S.STRING_ID_ITEM then StringIdOkay(f, i)
    else if type_ == S.TYPE_ID_ITEM then TypeIdOkay(f, i)
    else if type_ == V.PROTO_ID_ITEM then ProtoIdOkay(f, i)
    else if type_ == V.FIELD_ID_ITEM then FieldIdOkay(f, i)
    else MethodIdOkay(f, i)
  }

  ghost predicate ItemStrays(f: DexFile, type_: u2, i: nat)
    requires f.Swapped() && V.IsTableType(type_) && i < Size(f, type_)
  {
    if type_ == S.STRING_ID_ITEM then false
    else if type_ == S.TYPE_ID_ITEM then TypeIdStrays(f, i)
    else if type_ == V.PROTO_ID_ITEM then ProtoIdStrays(f, i)
    else if type_ == V.FIELD_ID_ITEM then FieldIdStrays(f, i)
    else MethodIdStrays(f, i)
  }

  method CrossVerifyItem(f: DexFile, dataMap: DexDataMap, type_: u2, i: nat) returns (verdict: Verdict)
    requires f.Swapped() && dataMap.Valid() && dataMap.Entries() == f.dataMap
    requires V.IsTableType(type_) && i < Size(f, type_) && (i > 0 ==> ItemOkay(f, type_, i - 1))
    ensures verdict == Accepted <==> ItemOkay(f, type_, i)
    ensures verdict == Astray <==> ItemStrays(f, type_, i)
  {
    hide DexFile.Swapped, TypeIdOkay, ProtoIdOkay, FieldIdOkay, MethodIdOkay, Compare;
    hide TypeIdStrays, ProtoIdStrays, FieldIdStrays, MethodIdStrays, DexDataMap.Valid, DexDataMap.Entries;
    if type_ == S.STRING_ID_ITEM {
      var okay := CrossVerifyStringIdItem(f, dataMap, i, Previous(i));
      verdict := if okay then Accepted else Rejected;
    } else if type_ == S.TYPE_ID_ITEM {
      verdict := CrossVerifyTypeIdItem(f, i, Previous(i));
    } else if type_ == V.PROTO_ID_ITEM {
      verdict := CrossVerifyProtoIdItem(f, dataMap, i, Previous(i));
    } else if type_ == V.FIELD_ID_ITEM {
      verdict := CrossVerifyFieldIdItem(f, i, Previous(i));
    } else {
      verdict := CrossVerifyMethodIdItem(f, i, Previous(i));
    }
  }

  ghost predicate SectionOkay(f: DexFile, type_: u2)
    requires f.Swapped() && V.IsTableType(type_)
  {
    forall i: nat | i < Size(f, type_) :: ItemOkay(f, type_, i)
  }

  ghost predicate SectionStrays(f: DexFile, type_: u2)
    requires f.Swapped() && V.IsTableType(type_)
  {
    exists i: nat :: && i < Size(f, type_) && ItemStrays(f, type_, i)
                     && forall k: nat | k < i :: ItemOkay(f, type_, k)
  }

  // iterateSection over the items of a table
  method CrossVerifySection(f: DexFile, dataMap: DexDataMap, type_: u2) returns (verdict: Verdict)
    requires f.Swapped() && dataMap.Valid() && dataMap.Entries() == f.dataMap && V.IsTableType(type_)
    ensures verdict == Accepted <==> SectionOkay(f, type_)
    ensures verdict == Astray <==> SectionStrays(f, type_)
  {
    hide DexFile.Swapped, ItemOkay, ItemStrays;
    for i := 0 to Size(f, type_)
      invariant forall k: nat | k < i :: ItemOkay(f, type_, k) && !ItemStrays(f, type_, k)
    {
      verdict := CrossVerifyItem(f, dataMap, type_, i);
      if verdict != Accepted {
        return;
      }
    }
    return Accepted;
  }

  // what acceptance of all id sections gives
  ghost predicate Verified(f: DexFile) {
    f.Swapped() && f.AllKnown() && f.TablesAligned() && ItemsOkay(f)
  }

  ghost predicate ItemsOkay(f: DexFile)
    requires f.Swapped()
  {
    && (forall i: nat | i < |f.stringIds| :: StringIdOkay(f, i))
    && (forall i: nat | i < |f.typeIds| :: TypeIdOkay(f, i))
    && (forall i: nat | i < |f.protoIds| :: ProtoIdOkay(f, i))
    && (forall i: nat | i < |f.fieldIds| :: FieldIdOkay(f, i))
    && (forall i: nat | i < |f.methodIds| :: MethodIdOkay(f, i))
  }

  lemma SectionsAreOkay(f: DexFile)
    requires f.Swapped()
    ensures (forall t: u2 | V.IsTableType(t) :: SectionOkay(f, t)) <==> Verified(f)
  {
    hide DexFile.Swapped, StringIdOkay, TypeIdOkay, ProtoIdOkay, FieldIdOkay, MethodIdOkay, DexFile.AllKnown;
    hide DexFile.TablesAligned;
    if forall t: u2 | V.IsTableType(t) :: SectionOkay(f, t) {
      assert SectionOkay(f, S.STRING_ID_ITEM) && SectionOkay(f, S.TYPE_ID_ITEM) && SectionOkay(f, V.PROTO_ID_ITEM);
      assert SectionOkay(f, V.FIELD_ID_ITEM) && SectionOkay(f, V.METHOD_ID_ITEM);
      assert forall i: nat | i < |f.stringIds| :: ItemOkay(f, S.STRING_ID_ITEM, i) ==> StringIdOkay(f, i);
      assert forall i: nat | i < |f.typeIds| :: ItemOkay(f, S.TYPE_ID_ITEM, i) ==> TypeIdOkay(f, i);
      assert forall i: nat | i < |f.protoIds| :: ItemOkay(f, V.PROTO_ID_ITEM, i) ==> ProtoIdOkay(f, i);
      assert forall i: nat | i < |f.fieldIds| :: ItemOkay(f, V.FIELD_ID_ITEM, i) ==> FieldIdOkay(f, i);
      assert forall i: nat | i < |f.methodIds| :: ItemOkay(f, V.METHOD_ID_ITEM, i) ==> MethodIdOkay(f, i);
      ItemsAreKnown(f);
    }
  }

  lemma ItemsAreKnown(f: DexFile)
    requires f.Swapped() && ItemsOkay(f)
    ensures f.AllKnown() && f.TablesAligned()
  {
    hide DexFile.Swapped, TypeIdOkay, FieldIdOkay, MethodIdOkay, Compare;
    forall i: nat | i < |f.stringIds|
      ensures f.IsKnown(i)
    {
      assert StringIdOkay(f, i);
    }
    forall i: nat | i < |f.protoIds|
      ensures f.ListIsKnown(i)
    {
      assert ProtoIdOkay(f, i);
    }
    FirstItems(f);
  }

  lemma FirstItems(f: DexFile)
    requires f.Swapped() && ItemsOkay(f)
    ensures f.TablesAligned()
  {
    hide DexFile.Swapped, Compare, IsClass, IsFieldType, IsReference, IsValidType, IsValidName, ShortyFits;
    assert f.typeIds != [] ==> TypeIdOkay(f, 0);
    assert f.protoIds != [] ==> ProtoIdOkay(f, 0);
    assert f.fieldIds != [] ==> FieldIdOkay(f, 0);
    assert f.methodIds != [] ==> MethodIdOkay(f, 0);
  }

  // string_ids come before all other id sections
  predicate StringsFirst(types: seq<u2>) {
    forall i, j | 0 <= i < j < |types| && V.IsTableType(types[i]) :: types[j] != S.STRING_ID_ITEM
  }

  // A section goes astray, after all before it have been accepted.
  ghost predicate Strays(f: DexFile, types: seq<u2>)
    requires f.Swapped()
  {
    exists i: nat :: && i < |types| && V.IsTableType(types[i]) && SectionStrays(f, types[i])
                     && forall k | 0 <= k < i && V.IsTableType(types[k]) :: SectionOkay(f, types[k])
  }

  // every section that has items is in the map
  predicate Listed(f: DexFile, types: seq<u2>) {
    forall t: u2 | V.IsTableType(t) && Size(f, t) > 0 :: t in types
  }

  lemma OkayDoesNotStray(f: DexFile, type_: u2)
    requires f.Swapped() && V.IsTableType(type_) && SectionOkay(f, type_)
    ensures !SectionStrays(f, type_)
  {
    hide DexFile.Swapped, TypeIdOkay, ProtoIdOkay, FieldIdOkay, MethodIdOkay;
    hide TypeIdStrays, ProtoIdStrays, FieldIdStrays, MethodIdStrays;
    forall i: nat | i < Size(f, type_)
      ensures !ItemStrays(f, type_, i)
    {
      assert ItemOkay(f, type_, i);
      OkayItem(f, type_, i);
    }
  }

  lemma OkayItem(f: DexFile, type_: u2, i: nat)
    requires f.Swapped() && V.IsTableType(type_) && i < Size(f, type_) && ItemOkay(f, type_, i)
    ensures !ItemStrays(f, type_, i)
  {
    hide IsString, U4At, DexFile.Params, Compare, IsClass, IsFieldType, IsReference, IsValidType, ShortyFits;
  }

  // The id sections of crossVerifyEverything, in the order of the map.
  method CrossVerifyIds(f: DexFile, dataMap: DexDataMap, types: seq<u2>) returns (verdict: Verdict)
    requires f.Swapped() && dataMap.Valid() && dataMap.Entries() == f.dataMap && Listed(f, types)
    ensures verdict == Accepted <==> Verified(f)
    ensures verdict == Astray <==> Strays(f, types)
  {
    hide DexFile.Swapped, SectionOkay, SectionStrays, Verified;
    SectionsAreOkay(f);
    for i := 0 to |types|
      invariant forall k | 0 <= k < i && V.IsTableType(types[k]) ::
                  SectionOkay(f, types[k]) && !SectionStrays(f, types[k])
    {
      if V.IsTableType(types[i]) {
        verdict := CrossVerifySection(f, dataMap, types[i]);
        if verdict != Accepted {
          return;
        }
        OkayDoesNotStray(f, types[i]);
      }
    }
    forall t: u2 | V.IsTableType(t)
      ensures SectionOkay(f, t)
    {
      if Size(f, t) > 0 {
        var k :| 0 <= k < |types| && types[k] == t;
      } else {
        EmptySection(f, t);
      }
    }
    return Accepted;
  }

  lemma EmptySection(f: DexFile, t: u2)
    requires f.Swapped() && V.IsTableType(t) && Size(f, t) == 0
    ensures SectionOkay(f, t)
  {
  }

  // ----- Which files go astray -----

  // With its tables aligned, an item only goes astray on a string id that designates no visited string.
  lemma SomeUnknown(f: DexFile, type_: u2, i: nat)
    requires f.Swapped() && f.TablesAligned() && V.IsTableType(type_) && i < Size(f, type_)
    requires ItemStrays(f, type_, i)
    ensures type_ != S.STRING_ID_ITEM && exists s: nat :: s < |f.stringIds| && !f.IsKnown(s)
  {
    hide IsString, U4At, DexFile.Params, DexFile.StringById, DexFile.IsKnown, ShortyMatches, IsValidType;
    if type_ == V.PROTO_ID_ITEM {
      var id := f.protoIds[i];
      if f.StringIsFound(id.shortyIdx) && f.TypeIsFound(id.returnTypeIdx) {
        var k: nat :| k < |f.Params(i)| && ParameterStrays(f, i, f.StringById(id.shortyIdx), k);
        ParamsInRange(f, i);
        assert !f.IsKnown(f.typeIds[f.Params(i)[k]]);
      }
    }
  }

  // Then string_ids are not listed first.
  lemma StraysEarly(f: DexFile, types: seq<u2>)
    requires f.Swapped() && Listed(f, types) && Strays(f, types)
    ensures !f.TablesAligned() || (!StringsFirst(types) && !f.AllKnown())
  {
    hide DexFile.Swapped, DexFile.TablesAligned, ItemStrays, Compare;
    hide TypeIdOkay, ProtoIdOkay, FieldIdOkay, MethodIdOkay;
    if f.TablesAligned() {
      var i: nat :| && i < |types| && V.IsTableType(types[i]) && SectionStrays(f, types[i])
                    && forall k | 0 <= k < i && V.IsTableType(types[k]) :: SectionOkay(f, types[k]);
      var k: nat :| k < Size(f, types[i]) && ItemStrays(f, types[i], k);
      SomeUnknown(f, types[i], k);
      var s: nat :| s < |f.stringIds| && !f.IsKnown(s);
      assert Size(f, S.STRING_ID_ITEM) > 0 && S.STRING_ID_ITEM in types;
      var j :| 0 <= j < |types| && types[j] == S.STRING_ID_ITEM;
      assert !ItemOkay(f, S.STRING_ID_ITEM, s);
      assert !SectionOkay(f, S.STRING_ID_ITEM);
    }
  }

  // One item in each table, all of them with index 0, and nothing visited.
  const NOTHING_VISITED: DexFile :=
    DexFile(_ => 0, [], {S.STRING_ID_ITEM, S.TYPE_ID_ITEM, V.PROTO_ID_ITEM, V.FIELD_ID_ITEM, V.METHOD_ID_ITEM},
            [0], [0], [ProtoId(0, 0, 0)], [FieldId(0, 0, 0)], [MethodId(0, 0, 0)])

  lemma FirstSection(types: seq<u2>, last: nat) returns (i: nat)
    requires last < |types| && V.IsTableType(types[last])
    ensures i <= last && V.IsTableType(types[i]) && forall k | 0 <= k < i :: !V.IsTableType(types[k])
  {
    i := 0;
    while !V.IsTableType(types[i])
      invariant i <= last && forall k | 0 <= k < i :: !V.IsTableType(types[k])
      decreases last - i
    {
      i := i + 1;
    }
  }

  lemma NothingVisitedStrays(types: seq<u2>)
    requires forall i, j | 0 <= i < j < |types| :: types[i] != types[j]
    requires !StringsFirst(types)
    ensures NOTHING_VISITED.Swapped() && Strays(NOTHING_VISITED, types)
  {
    var f := NOTHING_VISITED;
    var i, j :| 0 <= i < j < |types| && V.IsTableType(types[i]) && types[j] == S.STRING_ID_ITEM;
    var first := FirstSection(types, i);
    assert types[first] != types[j];
    assert !f.IsKnown(0) && !f.StringIsFound(0) && !f.TypeIsFound(0);
    assert ItemStrays(f, types[first], 0);
    assert SectionStrays(f, types[first]);
  }

  // A map without repetition that lists all id sections lets some file with aligned tables go astray exactly if it
  // does not list string_ids first.
  lemma OrderStraysIff(types: seq<u2>)
    requires forall i, j | 0 <= i < j < |types| :: types[i] != types[j]
    requires forall t: u2 | V.IsTableType(t) :: t in types
    ensures (exists f: DexFile :: f.Swapped() && f.TablesAligned() && Strays(f, types)) <==> !StringsFirst(types)
  {
    hide DexFile.Swapped, Strays, StringsFirst;
    if f: DexFile :| f.Swapped() && f.TablesAligned() && Strays(f, types) {
      StraysEarly(f, types);
    }
    if !StringsFirst(types) {
      NothingVisitedStrays(types);
      assert NOTHING_VISITED.Swapped() && NOTHING_VISITED.TablesAligned() && Strays(NOTHING_VISITED, types);
    }
  }

  // ----- Adjacent checks give a global order -----

  lemma {:induction false} StringsAscend(f: DexFile, i: nat, j: nat)
    requires Verified(f) && i < j < |f.stringIds|
    ensures Compare(f.Units(i), f.Units(j)) < 0
  {
    hide Compare, TypeIdOkay, ProtoIdOkay, FieldIdOkay, MethodIdOkay;
    assert StringIdOkay(f, j);
    if i < j - 1 {
      StringsAscend(f, i, j - 1);
      CompareIsTransitive(f.Units(i), f.Units(j - 1), f.Units(j));
    }
  }

  // The index of a string is its rank: no duplicates, and indices compare as dexUtf8Cmp compares the strings.
  lemma StringOrder(f: DexFile, i: nat, j: nat)
    requires Verified(f) && i < |f.stringIds| && j < |f.stringIds|
    ensures Sign(Compare(f.Units(i), f.Units(j))) == Sign(i - j)
  {
    hide Compare, ItemsOkay;
    CompareReverses(f.Units(i), f.Units(j));
    CompareIsZero(f.Units(i), f.Units(j));
    if i < j {
      StringsAscend(f, i, j);
    } else if j < i {
      StringsAscend(f, j, i);
    }
  }

  lemma {:induction false} TypesAscend(f: DexFile, i: nat, j: nat)
    requires Verified(f) && i < j < |f.typeIds|
    ensures f.typeIds[i] < f.typeIds[j]
  {
    hide StringIdOkay, ProtoIdOkay, FieldIdOkay, MethodIdOkay, IsValidType;
    assert TypeIdOkay(f, j);
    if i < j - 1 {
      TypesAscend(f, i, j - 1);
    }
  }

  // The index of a type is the rank of its descriptor, by strcmp as well.
  lemma TypeOrder(f: DexFile, i: nat, j: nat)
    requires Verified(f) && i < |f.typeIds| && j < |f.typeIds|
    ensures Sign(Compare(f.StringByTypeIdx(i), f.StringByTypeIdx(j))) == Sign(i - j)
  {
    hide Compare, ItemsOkay;
    StringOrder(f, f.typeIds[i], f.typeIds[j]);
    if i < j {
      TypesAscend(f, i, j);
    } else if j < i {
      TypesAscend(f, j, i);
    }
    TypeStringHasNoZero(f, i);
    TypeStringHasNoZero(f, j);
    NoZeroMeetsNothing(f.Units(f.typeIds[i]), f.Units(f.typeIds[j]));
    AgreesWithStrcmp(f.Units(f.typeIds[i]), f.Units(f.typeIds[j]));
  }

  lemma TypeStringHasNoZero(f: DexFile, i: nat)
    requires Verified(f) && i < |f.typeIds|
    ensures 0 !in f.Units(f.typeIds[i])
  {
    hide StringIdOkay, ProtoIdOkay, FieldIdOkay, MethodIdOkay;
    assert TypeIdOkay(f, i);
    TypeHasNoZero(f.Units(f.typeIds[i]));
  }

  lemma TypesDiffer(f: DexFile, i: nat, j: nat)
    requires Verified(f) && i < |f.typeIds| && j < |f.typeIds|
    ensures i < j ==> Compare(f.StringByTypeIdx(i), f.StringByTypeIdx(j)) < 0
    ensures i == j ==> Compare(f.StringByTypeIdx(i), f.StringByTypeIdx(j)) == 0
  {
    hide Compare, ItemsOkay;
    TypeOrder(f, i, j);
  }

  ghost function Descriptors(f: DexFile, types: seq<nat>): (ds: seq<seq<u1>>)
    requires f.Swapped() && forall k | 0 <= k < |types| :: types[k] < |f.typeIds| && f.TypeIsKnown(types[k])
    ensures |ds| == |types|
  {
    seq(|types|, k requires 0 <= k < |types| => f.StringByTypeIdx(types[k]))
  }

  lemma {:induction false} ListOrder(f: DexFile, a: seq<nat>, b: seq<nat>)
    requires Verified(f) && ListLess(a, b)
    requires forall t | t in a + b :: t < |f.typeIds|
    ensures (forall t | t in a + b :: f.TypeIsKnown(t))
    ensures (forall k | 0 <= k < |a| :: a[k] in a + b) && (forall k | 0 <= k < |b| :: b[k] in a + b)
    ensures CompareParams(Descriptors(f, a), Descriptors(f, b)) < 0
  {
    hide Compare, ItemsOkay, IsString, DexFile.IsKnown, DexFile.StringById, DexFile.ListIsKnown;
    if a != [] {
      assert a[0] in a + b && b[0] in a + b;
      TypesDiffer(f, a[0], b[0]);
      if a[0] == b[0] {
        assert forall t | t in a[1..] + b[1..] :: t in a + b;
        ListOrder(f, a[1..], b[1..]);
        assert Descriptors(f, a)[1..] == Descriptors(f, a[1..]) && Descriptors(f, b)[1..] == Descriptors(f, b[1..]);
      }
    }
  }

  // All types of an accepted prototype are in range and known.
  lemma TypesAreKnown(f: DexFile, i: nat)
    requires f.Swapped() && f.AllKnown() && i < |f.protoIds|
    ensures f.ProtoIsKnown(i) && forall t | t in f.Params(i) :: t < |f.typeIds| && f.TypeIsKnown(t)
  {
    hide IsString, DexFile.Params, DexFile.IsKnown;
    ParamsInRange(f, i);
  }

  // Neighbours are in the order of dexProtoCompare.
  lemma ProtoNeighbours(f: DexFile, i: nat)
    requires Verified(f) && i + 1 < |f.protoIds|
    ensures f.ProtoIsKnown(i) && f.ProtoIsKnown(i + 1)
    ensures CompareProtos(f.ProtoOf(i), f.ProtoOf(i + 1), true) < 0
  {
    hide StringIdOkay, TypeIdOkay, FieldIdOkay, MethodIdOkay, ShortyFits, Compare, ListLess, CompareParams;
    hide DexFile.Params;
    assert ProtoIdOkay(f, i + 1);
    TypesAreKnown(f, i);
    TypesAreKnown(f, i + 1);
    var a, b := f.protoIds[i], f.protoIds[i + 1];
    TypesDiffer(f, a.returnTypeIdx, b.returnTypeIdx);
    if a.returnTypeIdx == b.returnTypeIdx {
      ListOrder(f, f.Params(i), f.Params(i + 1));
      assert f.ProtoOf(i).params == Descriptors(f, f.Params(i));
      assert f.ProtoOf(i + 1).params == Descriptors(f, f.Params(i + 1));
    }
  }

  // The whole table is in that order, so no prototype occurs twice.
  lemma {:induction false} ProtosAscend(f: DexFile, i: nat, j: nat)
    requires Verified(f) && i < j < |f.protoIds|
    ensures f.ProtoIsKnown(i) && f.ProtoIsKnown(j) && CompareProtos(f.ProtoOf(i), f.ProtoOf(j), true) < 0
  {
    hide ItemsOkay, CompareProtos, DexFile.ProtoOf, DexFile.ProtoIsKnown;
    ProtoNeighbours(f, j - 1);
    if i < j - 1 {
      ProtosAscend(f, i, j - 1);
      CompareProtosTransitive(f.ProtoOf(i), f.ProtoOf(j - 1), f.ProtoOf(j));
    }
  }

  lemma {:induction false} FieldsAscend(f: DexFile, i: nat, j: nat)
    requires Verified(f) && i < j < |f.fieldIds|
    ensures TripleLess(FieldKey(f.fieldIds[i]), FieldKey(f.fieldIds[j]))
  {
    hide StringIdOkay, TypeIdOkay, ProtoIdOkay, MethodIdOkay, IsValidType, IsValidName;
    assert FieldIdOkay(f, j);
    if i < j - 1 {
      FieldsAscend(f, i, j - 1);
    }
  }

  lemma {:induction false} MethodsAscend(f: DexFile, i: nat, j: nat)
    requires Verified(f) && i < j < |f.methodIds|
    ensures TripleLess(MethodKey(f.methodIds[i]), MethodKey(f.methodIds[j]))
  {
    hide StringIdOkay, TypeIdOkay, ProtoIdOkay, FieldIdOkay, IsValidType, IsValidName;
    assert MethodIdOkay(f, j);
    if i < j - 1 {
      MethodsAscend(f, i, j - 1);
    }
  }

  // the first of three comparisons that is not 0
  function First(c0: int, c1: int, c2: int): int {
    if c0 != 0 then c0 else if c1 != 0 then c1 else c2
  }

  // Two fields by what they are: class, then name, then type.
  ghost function CompareFields(f: DexFile, i: nat, j: nat): int
    requires f.Swapped() && f.AllKnown() && i < |f.fieldIds| && j < |f.fieldIds|
  {
    var a, b := f.fieldIds[i], f.fieldIds[j];
    First(Compare(f.StringByTypeIdx(a.classIdx), f.StringByTypeIdx(b.classIdx)),
          Compare(f.Units(a.nameIdx), f.Units(b.nameIdx)),
          Compare(f.StringByTypeIdx(a.typeIdx), f.StringByTypeIdx(b.typeIdx)))
  }

  lemma FieldOrder(f: DexFile, i: nat, j: nat)
    requires Verified(f) && i < j < |f.fieldIds|
    ensures CompareFields(f, i, j) < 0
  {
    hide Compare, ItemsOkay;
    FieldsAscend(f, i, j);
    var a, b := f.fieldIds[i], f.fieldIds[j];
    TypesDiffer(f, a.classIdx, b.classIdx);
    StringOrder(f, a.nameIdx, b.nameIdx);
    TypesDiffer(f, a.typeIdx, b.typeIdx);
  }

  // the prototype of an accepted file
  ghost function KnownProto(f: DexFile, i: nat): Proto
    requires f.Swapped() && f.AllKnown() && i < |f.protoIds|
  {
    TypesAreKnown(f, i);
    f.ProtoOf(i)
  }

  // Two methods by what they are: class, then name, then prototype.
  ghost function CompareMethods(f: DexFile, i: nat, j: nat): int
    requires f.Swapped() && f.AllKnown() && i < |f.methodIds| && j < |f.methodIds|
  {
    var a, b := f.methodIds[i], f.methodIds[j];
    First(Compare(f.StringByTypeIdx(a.classIdx), f.StringByTypeIdx(b.classIdx)),
          Compare(f.Units(a.nameIdx), f.Units(b.nameIdx)),
          CompareProtos(KnownProto(f, a.protoIdx), KnownProto(f, b.protoIdx), true))
  }

  lemma MethodOrder(f: DexFile, i: nat, j: nat)
    requires Verified(f) && i < j < |f.methodIds|
    ensures CompareMethods(f, i, j) < 0
  {
    hide Compare, ItemsOkay, CompareProtos;
    MethodsAscend(f, i, j);
    var a, b := f.methodIds[i], f.methodIds[j];
    TypesDiffer(f, a.classIdx, b.classIdx);
    StringOrder(f, a.nameIdx, b.nameIdx);
    if a.protoIdx < b.protoIdx {
      ProtosAscend(f, a.protoIdx, b.protoIdx);
    }
  }

  // ----- The shorty says no more than the types -----

  function ShortyChar(descriptor: seq<u1>): u1
    requires descriptor != []
  {
    if descriptor[0] == BRACKET then CAP_L else descriptor[0]
  }

  lemma ShortyIsDetermined(f: DexFile, i: nat)
    requires Verified(f) && i < |f.protoIds|
    ensures var shorty, p := f.StringById(f.protoIds[i].shortyIdx), KnownProto(f, i);
            && |shorty| == 1 + |p.params|
            && p.returnType != [] && shorty[0] == ShortyChar(p.returnType)
            && forall k | 0 <= k < |p.params| ::
                 && p.params[k] != [] && p.params[k] != [CAP_V]
                 && shorty[k + 1] == ShortyChar(p.params[k])
  {
    hide StringIdOkay, TypeIdOkay, FieldIdOkay, MethodIdOkay, ShortyFits, DexFile.ProtoOf, DexFile.StringById;
    assert ProtoIdOkay(f, i);
    ShortyOfFitting(f.StringById(f.protoIds[i].shortyIdx), KnownProto(f, i));
  }

  lemma ShortyOfFitting(shorty: seq<u1>, p: Proto)
    requires ShortyFits(shorty, p)
    ensures |shorty| == 1 + |p.params| && p.returnType != [] && shorty[0] == ShortyChar(p.returnType)
    ensures forall k | 0 <= k < |p.params| ::
              && p.params[k] != [] && p.params[k] != [CAP_V]
              && shorty[k + 1] == ShortyChar(p.params[k])
  {
  }

  // So the prototypes of a verified file are what dexProtoCompareToDescriptor needs.
  lemma VerifiedProto(f: DexFile, i: nat)
    requires Verified(f) && i < |f.protoIds|
    ensures IsProto(KnownProto(f, i))
  {
    hide IsValid, Whole, Encode, ItemsOkay, DexFile.Params;
    var p := KnownProto(f, i);
    TypesAreKnown(f, i);
    ShortyIsDetermined(f, i);
    VerifiedTypeString(f, f.protoIds[i].returnTypeIdx);
    forall d | d in p.params
      ensures IsArgType(d)
    {
      var k: nat :| k < |p.params| && p.params[k] == d;
      VerifiedTypeString(f, f.Params(i)[k]);
    }
  }

  lemma VerifiedTypeString(f: DexFile, t: nat)
    requires Verified(f) && t < |f.typeIds|
    ensures IsType(f.StringByTypeIdx(t))
  {
    hide StringIdOkay, ProtoIdOkay, FieldIdOkay, MethodIdOkay;
    assert TypeIdOkay(f, t);
    TypeIsValid(f.Units(f.typeIds[t]));
    assert f.StringByTypeIdx(t) == Encode(f.Units(f.typeIds[t]));
  }
}
