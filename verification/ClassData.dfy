// The class_data_item of a DEX file: libdex/DexClass.h and libdex/DexClass.cpp. Four counts and four lists, all in
// unsigned LEB128, with the indices of each list stored as differences.

module ClassData {
  import opened Common
  import opened Leb128

  datatype Field = Field(fieldIdx: u4, accessFlags: u4)
  datatype Method = Method(methodIdx: u4, accessFlags: u4, codeOff: u4)

  datatype ClassData = ClassData(
    staticFields: seq<Field>,
    instanceFields: seq<Field>,
    directMethods: seq<Method>,
    virtualMethods: seq<Method>)

  // ----- Writing -----

  // the difference that takes last to idx in 32 bits
  function Delta(last: u4, idx: u4): u4 {
    (idx - last) % TWO32
  }

  function EncodeField(last: u4, f: Field): seq<u1> {
    Encode(Delta(last, f.fieldIdx)) + Encode(f.accessFlags)
  }

  function EncodeFields(last: u4, fields: seq<Field>): seq<u1>
    decreases fields
  {
    if fields == [] then [] else EncodeField(last, fields[0]) + EncodeFields(fields[0].fieldIdx, fields[1..])
  }

  function EncodeMethod(last: u4, m: Method): seq<u1> {
    Encode(Delta(last, m.methodIdx)) + (Encode(m.accessFlags) + Encode(m.codeOff))
  }

  function EncodeMethods(last: u4, methods: seq<Method>): seq<u1>
    decreases methods
  {
    if methods == [] then [] else EncodeMethod(last, methods[0]) + EncodeMethods(methods[0].methodIdx, methods[1..])
  }

  function EncodeHeader(n0: nat, n1: nat, n2: nat, n3: nat): seq<u1> {
    Encode(n0) + (Encode(n1) + (Encode(n2) + Encode(n3)))
  }

  function EncodeClassData(c: ClassData): seq<u1> {
    EncodeHeader(|c.staticFields|, |c.instanceFields|, |c.directMethods|, |c.virtualMethods|)
    + (EncodeFields(0, c.staticFields)
       + (EncodeFields(0, c.instanceFields)
          + (EncodeMethods(0, c.directMethods) + EncodeMethods(0, c.virtualMethods))))
  }

  // ----- Reading, as a function of memory -----

  // n numbers in a row pass verification
  predicate UlebsOkay(mem: Memory, pos: nat, limit: Option<nat>, n: nat)
    decreases n
  {
    n == 0 || (Verified(mem, pos, limit) && UlebsOkay(mem, UnsignedAt(mem, pos).next, limit, n - 1))
  }

  function FieldAt(mem: Memory, pos: nat, last: u4): Read<Field> {
    var delta := UnsignedAt(mem, pos);
    var flags := UnsignedAt(mem, delta.next);
    Read(Field((last + delta.value) % TWO32, flags.value), flags.next)
  }

  function MethodAt(mem: Memory, pos: nat, last: u4): Read<Method> {
    var delta := UnsignedAt(mem, pos);
    var flags := UnsignedAt(mem, delta.next);
    var code := UnsignedAt(mem, flags.next);
    Read(Method((last + delta.value) % TWO32, flags.value, code.value), code.next)
  }

  // the elements read so far, followed by the rest of the list
  function Prepend<T>(done: seq<T>, rest: Option<Read<seq<T>>>): Option<Read<seq<T>>> {
    match rest
    case None => None
    case Some(r) => Some(Read(done + r.value, r.next))
  }

  lemma PrependTwice<T>(done: seq<T>, x: T, rest: Option<Read<seq<T>>>)
    ensures Prepend(done, Prepend([x], rest)) == Prepend(done + [x], rest)
  {
    if rest.Some? {
      assert done + ([x] + rest.value.value) == done + [x] + rest.value.value;
    }
  }

  lemma PrependNothing<T>(rest: Option<Read<seq<T>>>)
    ensures Prepend([], rest) == rest
  {
    if rest.Some? {
      assert [] + rest.value.value == rest.value.value;
    }
  }

  lemma PrependEnd<T>(done: seq<T>, end: nat)
    ensures Prepend(done, Some(Read([], end))) == Some(Read(done, end))
    ensures Prepend(done, None) == None
  {
    assert done + [] == done;
  }

  function FieldsAt(mem: Memory, pos: nat, limit: Option<nat>, last: u4, n: nat): (r: Option<Read<seq<Field>>>)
    ensures r.Some? ==> |r.value.value| == n
    decreases n
  {
    if n == 0 then Some(Read([], pos))
    else if !UlebsOkay(mem, pos, limit, 2) then None
    else
      var f := FieldAt(mem, pos, last);
      Prepend([f.value], FieldsAt(mem, f.next, limit, f.value.fieldIdx, n - 1))
  }

  function MethodsAt(mem: Memory, pos: nat, limit: Option<nat>, last: u4, n: nat): (r: Option<Read<seq<Method>>>)
    ensures r.Some? ==> |r.value.value| == n
    decreases n
  {
    if n == 0 then Some(Read([], pos))
    else if !UlebsOkay(mem, pos, limit, 3) then None
    else
      var m := MethodAt(mem, pos, last);
      Prepend([m.value], MethodsAt(mem, m.next, limit, m.value.methodIdx, n - 1))
  }

  datatype Header = Header(
    staticFieldsSize: u4, instanceFieldsSize: u4, directMethodsSize: u4, virtualMethodsSize: u4)

  function HeaderAt(mem: Memory, pos: nat): Read<Header> {
    var n0 := UnsignedAt(mem, pos);
    var n1 := UnsignedAt(mem, n0.next);
    var n2 := UnsignedAt(mem, n1.next);
    var n3 := UnsignedAt(mem, n2.next);
    Read(Header(n0.value, n1.value, n2.value, n3.value), n3.next)
  }

  function ClassDataAt(mem: Memory, pos: nat, limit: Option<nat>): Option<Read<ClassData>> {
    if !UlebsOkay(mem, pos, limit, 4) then None else
    var h := HeaderAt(mem, pos);
    match FieldsAt(mem, h.next, limit, 0, h.value.staticFieldsSize)
    case None => None
    case Some(l0) =>
      match FieldsAt(mem, l0.next, limit, 0, h.value.instanceFieldsSize)
      case None => None
      case Some(l1) =>
        match MethodsAt(mem, l1.next, limit, 0, h.value.directMethodsSize)
        case None => None
        case Some(l2) =>
          match MethodsAt(mem, l2.next, limit, 0, h.value.virtualMethodsSize)
          case None => None
          case Some(l3) => Some(Read(ClassData(l0.value, l1.value, l2.value, l3.value), l3.next))
  }

  // ----- The block for the result -----

  // the sizes of DexClassData, DexField and DexMethod on the 32-bit target
  const RESULT_LEN := 32
  const FIELD_LEN := 8
  const METHOD_LEN := 12

  // where the four lists end, one after the other behind the structure
  function ListsEnd(h: Header): nat {
    RESULT_LEN + h.staticFieldsSize * FIELD_LEN + h.instanceFieldsSize * FIELD_LEN
    + h.directMethodsSize * METHOD_LEN + h.virtualMethodsSize * METHOD_LEN
  }

  function Wrap(x: nat): u4 {
    x % TWO32
  }

  // resultSize, whose products and sums have 32 bits
  function ResultSize(h: Header): u4 {
    var staticEnd := Wrap(RESULT_LEN + Wrap(h.staticFieldsSize * FIELD_LEN));
    var instanceEnd := Wrap(staticEnd + Wrap(h.instanceFieldsSize * FIELD_LEN));
    var directEnd := Wrap(instanceEnd + Wrap(h.directMethodsSize * METHOD_LEN));
    Wrap(directEnd + Wrap(h.virtualMethodsSize * METHOD_LEN))
  }

  // The block holds the four lists exactly if their size fits in 32 bits.
  lemma BlockHoldsIff(h: Header)
    ensures ListsEnd(h) <= ResultSize(h) <==> ListsEnd(h) < TWO32
    ensures ListsEnd(h) < TWO32 ==> ResultSize(h) == ListsEnd(h)
  {
    hide Wrap;
    var a, b := h.staticFieldsSize * FIELD_LEN, h.instanceFieldsSize * FIELD_LEN;
    var c, d := h.directMethodsSize * METHOD_LEN, h.virtualMethodsSize * METHOD_LEN;
    SumWraps(RESULT_LEN, a);
    SumWraps(RESULT_LEN + a, b);
    SumWraps(RESULT_LEN + a + b, c);
    SumWraps(RESULT_LEN + a + b + c, d);
  }

  lemma SumWraps(x: nat, y: nat)
    ensures Wrap(Wrap(x) + Wrap(y)) == Wrap(x + y)
    ensures (x < TWO32 ==> Wrap(x) == x) && (x + y < TWO32 <==> Wrap(x + y) == x + y)
  {
  }

  // How many items of so many numbers each pass verification, one after the other and n at most, and where they end.
  function ItemsAt(mem: Memory, pos: nat, limit: Option<nat>, numbers: nat, n: nat): (r: Read<nat>)
    ensures r.value <= n
    decreases n
  {
    if n == 0 || !UlebsOkay(mem, pos, limit, numbers) then Read(0, pos)
    else
      var rest := ItemsAt(mem, Skip(mem, pos, numbers), limit, numbers, n - 1);
      Read(1 + rest.value, rest.next)
  }

  // a list: how many items it has, of how many numbers each, and the length of a slot
  datatype Shape = Shape(size: u4, numbers: nat, slot: nat)

  function Shapes(h: Header): seq<Shape> {
    [Shape(h.staticFieldsSize, 2, FIELD_LEN), Shape(h.instanceFieldsSize, 2, FIELD_LEN),
     Shape(h.directMethodsSize, 3, METHOD_LEN), Shape(h.virtualMethodsSize, 3, METHOD_LEN)]
  }

  // The length of the slots that are stored to: a list is read after all lists before it were read in full.
  function StoredLength(mem: Memory, pos: nat, limit: Option<nat>, lists: seq<Shape>): nat
    decreases lists
  {
    if lists == [] then 0
    else
      var list := lists[0];
      var items := ItemsAt(mem, pos, limit, list.numbers, list.size);
      items.value * list.slot + if items.value < list.size then 0 else StoredLength(mem, items.next, limit, lists[1..])
  }

  // where the last slot that is stored to ends
  function StoredEnd(mem: Memory, pos: nat, limit: Option<nat>): nat {
    var h := HeaderAt(mem, pos);
    RESULT_LEN + StoredLength(mem, h.next, limit, Shapes(h.value))
  }

  // OutOfBlock: a store to the structure or to a slot leaves the block.
  datatype Outcome = Parsed(data: ClassData) | Rejected | OutOfBlock

  // what is made of the class data at pos
  function OutcomeAt(mem: Memory, pos: nat, limit: Option<nat>): Outcome {
    if UlebsOkay(mem, pos, limit, 4) && StoredEnd(mem, pos, limit) > ResultSize(HeaderAt(mem, pos).value) then
      OutOfBlock
    else match ClassDataAt(mem, pos, limit)
      case None => Rejected
      case Some(r) => Parsed(r.value)
  }

  lemma {:induction false} FieldsAreItems(mem: Memory, pos: nat, limit: Option<nat>, last: u4, n: nat)
    ensures var items, fields := ItemsAt(mem, pos, limit, 2, n), FieldsAt(mem, pos, limit, last, n);
            && (items.value == n <==> fields.Some?)
            && (fields.Some? ==> fields.value.next == items.next)
    decreases n
  {
    hide UlebsOkay, UnsignedAt;
    if n > 0 && UlebsOkay(mem, pos, limit, 2) {
      var f := FieldAt(mem, pos, last);
      FieldSkips(mem, pos, last);
      FieldsAreItems(mem, f.next, limit, f.value.fieldIdx, n - 1);
    }
  }

  lemma FieldSkips(mem: Memory, pos: nat, last: u4)
    ensures FieldAt(mem, pos, last).next == Skip(mem, pos, 2)
  {
    hide UnsignedAt;
    assert Skip(mem, UnsignedAt(mem, pos).next, 1) == UnsignedAt(mem, UnsignedAt(mem, pos).next).next;
  }

  lemma {:induction false} MethodsAreItems(mem: Memory, pos: nat, limit: Option<nat>, last: u4, n: nat)
    ensures var items, methods := ItemsAt(mem, pos, limit, 3, n), MethodsAt(mem, pos, limit, last, n);
            && (items.value == n <==> methods.Some?)
            && (methods.Some? ==> methods.value.next == items.next)
    decreases n
  {
    hide UlebsOkay, UnsignedAt;
    if n > 0 && UlebsOkay(mem, pos, limit, 3) {
      var m := MethodAt(mem, pos, last);
      MethodSkips(mem, pos, last);
      MethodsAreItems(mem, m.next, limit, m.value.methodIdx, n - 1);
    }
  }

  lemma MethodSkips(mem: Memory, pos: nat, last: u4)
    ensures MethodAt(mem, pos, last).next == Skip(mem, pos, 3)
  {
    hide UnsignedAt;
    var a := UnsignedAt(mem, pos).next;
    var b := UnsignedAt(mem, a).next;
    assert Skip(mem, b, 1) == UnsignedAt(mem, b).next && Skip(mem, a, 2) == Skip(mem, b, 1);
  }

  // Nothing is stored behind the announced lists, and they are filled exactly if everything is read.
  lemma StoredIsAnnounced(mem: Memory, pos: nat, limit: Option<nat>)
    requires UlebsOkay(mem, pos, limit, 4)
    ensures StoredEnd(mem, pos, limit) <= ListsEnd(HeaderAt(mem, pos).value)
    ensures ClassDataAt(mem, pos, limit).Some? ==> StoredEnd(mem, pos, limit) == ListsEnd(HeaderAt(mem, pos).value)
  {
    hide UlebsOkay, UnsignedAt, HeaderAt, FieldsAt, MethodsAt, ItemsAt;
    var h := HeaderAt(mem, pos);
    StoredInFour(mem, h.next, limit, h.value);
    var s0 := ItemsAt(mem, h.next, limit, 2, h.value.staticFieldsSize);
    var s1 := ItemsAt(mem, s0.next, limit, 2, h.value.instanceFieldsSize);
    var s2 := ItemsAt(mem, s1.next, limit, 3, h.value.directMethodsSize);
    FieldsAreItems(mem, h.next, limit, 0, h.value.staticFieldsSize);
    FieldsAreItems(mem, s0.next, limit, 0, h.value.instanceFieldsSize);
    MethodsAreItems(mem, s1.next, limit, 0, h.value.directMethodsSize);
    MethodsAreItems(mem, s2.next, limit, 0, h.value.virtualMethodsSize);
  }

  // list by list
  lemma StoredInFour(mem: Memory, pos: nat, limit: Option<nat>, h: Header)
    ensures var s0 := ItemsAt(mem, pos, limit, 2, h.staticFieldsSize);
            var s1 := ItemsAt(mem, s0.next, limit, 2, h.instanceFieldsSize);
            var s2 := ItemsAt(mem, s1.next, limit, 3, h.directMethodsSize);
            var s3 := ItemsAt(mem, s2.next, limit, 3, h.virtualMethodsSize);
            StoredLength(mem, pos, limit, Shapes(h)) ==
            s0.value * FIELD_LEN
            + if s0.value < h.staticFieldsSize then 0
              else s1.value * FIELD_LEN
                   + if s1.value < h.instanceFieldsSize then 0
                     else s2.value * METHOD_LEN
                          + if s2.value < h.directMethodsSize then 0 else s3.value * METHOD_LEN
  {
    hide ItemsAt;
    var lists := Shapes(h);
    assert lists[1..][1..] == lists[2..] && lists[2..][1..] == lists[3..] && lists[3..][1..] == [];
    var s0 := ItemsAt(mem, pos, limit, 2, h.staticFieldsSize);
    var s1 := ItemsAt(mem, s0.next, limit, 2, h.instanceFieldsSize);
    var s2 := ItemsAt(mem, s1.next, limit, 3, h.directMethodsSize);
    var s3 := ItemsAt(mem, s2.next, limit, 3, h.virtualMethodsSize);
    assert StoredLength(mem, s3.next, limit, []) == 0;
    assert StoredLength(mem, s2.next, limit, lists[3..]) == s3.value * METHOD_LEN;
    assert StoredLength(mem, s1.next, limit, lists[2..])
        == s2.value * METHOD_LEN + if s2.value < h.directMethodsSize then 0 else s3.value * METHOD_LEN;
  }

  // So a block that is large enough is never left; one that is too small is left if everything can be read.
  lemma BlockIsLeft(mem: Memory, pos: nat, limit: Option<nat>)
    ensures OutcomeAt(mem, pos, limit).OutOfBlock? ==> ListsEnd(HeaderAt(mem, pos).value) >= TWO32
    ensures ListsEnd(HeaderAt(mem, pos).value) >= TWO32 ==> !OutcomeAt(mem, pos, limit).Parsed?
  {
    hide UlebsOkay, UnsignedAt, HeaderAt, ListsEnd, ResultSize, StoredEnd;
    BlockHoldsIff(HeaderAt(mem, pos).value);
    if UlebsOkay(mem, pos, limit, 4) {
      StoredIsAnnounced(mem, pos, limit);
    }
  }

  // ----- The code -----

  // verifyUlebs
  method VerifyUlebs(mem: Memory, pos: nat, limit: Option<nat>, n: nat) returns (okay: bool)
    ensures okay == UlebsOkay(mem, pos, limit, n)
  {
    okay := true;
    var data: nat, count: nat := pos, n;
    while okay && count != 0
      invariant count <= n
      invariant UlebsOkay(mem, pos, limit, n) == (okay && UlebsOkay(mem, data, limit, count))
      decreases count
    {
      var _, next, okay' := ReadAndVerifyUnsigned(mem, data, limit, okay);
      data, okay := next, okay';
      count := count - 1;
    }
  }

  // dexReadClassDataHeader
  method ReadHeader(mem: Memory, pos: nat) returns (h: Header, next: nat)
    ensures Read(h, next) == HeaderAt(mem, pos)
  {
    hide UnsignedAt;
    var n0, p0 := ReadUnsigned(mem, pos);
    var n1, p1 := ReadUnsigned(mem, p0);
    var n2, p2 := ReadUnsigned(mem, p1);
    var n3, p3 := ReadUnsigned(mem, p2);
    assert UnsignedAt(mem, pos) == Read(n0, p0) && UnsignedAt(mem, p0) == Read(n1, p1);
    h, next := Header(n0, n1, n2, n3), p3;
  }

  // dexReadClassDataField
  method ReadField(mem: Memory, pos: nat, lastIndex: u4) returns (f: Field, next: nat, lastIndex': u4)
    ensures Read(f, next) == FieldAt(mem, pos, lastIndex) && lastIndex' == f.fieldIdx
  {
    hide UnsignedAt;
    var delta, p := ReadUnsigned(mem, pos);
    assert UnsignedAt(mem, pos) == Read(delta, p);
    var index := (lastIndex + delta) % TWO32;
    var flags, q := ReadUnsigned(mem, p);
    f, next, lastIndex' := Field(index, flags), q, index;
  }

  // dexReadClassDataMethod
  method ReadMethod(mem: Memory, pos: nat, lastIndex: u4) returns (m: Method, next: nat, lastIndex': u4)
    ensures Read(m, next) == MethodAt(mem, pos, lastIndex) && lastIndex' == m.methodIdx
  {
    hide UnsignedAt;
    var delta, p := ReadUnsigned(mem, pos);
    assert UnsignedAt(mem, pos) == Read(delta, p);
    var index := (lastIndex + delta) % TWO32;
    var flags, q := ReadUnsigned(mem, p);
    assert UnsignedAt(mem, p) == Read(flags, q);
    var code, r := ReadUnsigned(mem, q);
    m, next, lastIndex' := Method(index, flags, code), r, index;
  }

  // dexReadAndVerifyClassDataField, once for each slot of the list, the first of which is at this offset of the block
  method ReadFields(mem: Memory, pos: nat, limit: Option<nat>, fields: array<Field>, offset: nat, resultSize: nat)
    returns (okay: bool, inside: bool, next: nat)
    requires offset <= resultSize
    modifies fields
    ensures inside <==> offset + ItemsAt(mem, pos, limit, 2, fields.Length).value * FIELD_LEN <= resultSize
    ensures inside ==> okay == FieldsAt(mem, pos, limit, 0, fields.Length).Some?
    ensures inside && okay ==> FieldsAt(mem, pos, limit, 0, fields.Length) == Some(Read(fields[..], next))
  {
    hide UnsignedAt, FieldAt, UlebsOkay, Skip, Prepend;
    var lastIndex, i := 0, 0;
    okay, inside, next := true, true, pos;
    PrependNothing(FieldsAt(mem, pos, limit, 0, fields.Length));
    assert fields[..0] == [];
    while okay && i < fields.Length
      invariant i <= fields.Length && inside && offset + i * FIELD_LEN <= resultSize
      invariant ItemsAt(mem, pos, limit, 2, fields.Length).value
             == i + if okay then ItemsAt(mem, next, limit, 2, fields.Length - i).value else 0
      invariant okay ==>
                  FieldsAt(mem, pos, limit, 0, fields.Length)
                  == Prepend(fields[..i], FieldsAt(mem, next, limit, lastIndex, fields.Length - i))
      invariant !okay ==> FieldsAt(mem, pos, limit, 0, fields.Length).None?
    {
      PrependEnd(fields[..i], next);
      okay := VerifyUlebs(mem, next, limit, 2);
      if okay {
        if offset + (i + 1) * FIELD_LEN > resultSize {
          inside := false;
          return;
        }
        FieldSkips(mem, next, lastIndex);
        var f, next', lastIndex' := ReadField(mem, next, lastIndex);
        fields[i] := f;
        assert fields[..i + 1] == fields[..i] + [f];
        PrependTwice(fields[..i], f, FieldsAt(mem, next', limit, lastIndex', fields.Length - i - 1));
        next, lastIndex := next', lastIndex';
        i := i + 1;
      }
    }
    assert fields[..fields.Length] == fields[..];
    PrependEnd(fields[..], next);
  }

  // dexReadAndVerifyClassDataMethod, once for each slot of the list, the first of which is at this offset of the block
  method ReadMethods(mem: Memory, pos: nat, limit: Option<nat>, methods: array<Method>, offset: nat, resultSize: nat)
    returns (okay: bool, inside: bool, next: nat)
    requires offset <= resultSize
    modifies methods
    ensures inside <==> offset + ItemsAt(mem, pos, limit, 3, methods.Length).value * METHOD_LEN <= resultSize
    ensures inside ==> okay == MethodsAt(mem, pos, limit, 0, methods.Length).Some?
    ensures inside && okay ==> MethodsAt(mem, pos, limit, 0, methods.Length) == Some(Read(methods[..], next))
  {
    hide UnsignedAt, MethodAt, UlebsOkay, Skip, Prepend;
    var lastIndex, i := 0, 0;
    okay, inside, next := true, true, pos;
    PrependNothing(MethodsAt(mem, pos, limit, 0, methods.Length));
    assert methods[..0] == [];
    while okay && i < methods.Length
      invariant i <= methods.Length && inside && offset + i * METHOD_LEN <= resultSize
      invariant ItemsAt(mem, pos, limit, 3, methods.Length).value
             == i + if okay then ItemsAt(mem, next, limit, 3, methods.Length - i).value else 0
      invariant okay ==>
                  MethodsAt(mem, pos, limit, 0, methods.Length)
                  == Prepend(methods[..i], MethodsAt(mem, next, limit, lastIndex, methods.Length - i))
      invariant !okay ==> MethodsAt(mem, pos, limit, 0, methods.Length).None?
    {
      PrependEnd(methods[..i], next);
      okay := VerifyUlebs(mem, next, limit, 3);
      if okay {
        if offset + (i + 1) * METHOD_LEN > resultSize {
          inside := false;
          return;
        }
        MethodSkips(mem, next, lastIndex);
        var m, next', lastIndex' := ReadMethod(mem, next, lastIndex);
        methods[i] := m;
        assert methods[..i + 1] == methods[..i] + [m];
        PrependTwice(methods[..i], m, MethodsAt(mem, next', limit, lastIndex', methods.Length - i - 1));
        next, lastIndex := next', lastIndex';
        i := i + 1;
      }
    }
    assert methods[..methods.Length] == methods[..];
    PrependEnd(methods[..], next);
  }

  // dexReadAndVerifyClassData; a missing pData gives an empty result
  method ReadClassData(mem: Memory, start: Option<nat>, limit: Option<nat>)
    returns (outcome: Outcome, next: Option<nat>)
    ensures start.None? ==> outcome == Parsed(ClassData([], [], [], [])) && next == None
    ensures start.Some? ==> outcome == OutcomeAt(mem, start.value, limit)
    ensures start.Some? && outcome.Parsed? ==>
              next.Some? && ClassDataAt(mem, start.value, limit) == Some(Read(outcome.data, next.value))
  {
    hide UnsignedAt, UlebsOkay, HeaderAt, FieldsAt, MethodsAt, ItemsAt, StoredLength, ResultSize;
    if start.None? {
      return Parsed(ClassData([], [], [], [])), None;
    }
    var okay := VerifyUlebs(mem, start.value, limit, 4);
    if !okay {
      return Rejected, start;
    }
    var h, pos := ReadHeader(mem, start.value);
    assert HeaderAt(mem, start.value) == Read(h, pos);
    StoredInFour(mem, pos, limit, h);
    var resultSize := ResultSize(h);
    if RESULT_LEN > resultSize {
      return OutOfBlock, Some(pos);
    }
    var staticFields := new Field[h.staticFieldsSize];
    var instanceFields := new Field[h.instanceFieldsSize];
    var directMethods := new Method[h.directMethodsSize];
    var virtualMethods := new Method[h.virtualMethodsSize];
    var inside, offset := true, RESULT_LEN;
    FieldsAreItems(mem, pos, limit, 0, h.staticFieldsSize);
    okay, inside, pos := ReadFields(mem, pos, limit, staticFields, offset, resultSize);
    if inside && okay {
      offset := offset + h.staticFieldsSize * FIELD_LEN;
      FieldsAreItems(mem, pos, limit, 0, h.instanceFieldsSize);
      okay, inside, pos := ReadFields(mem, pos, limit, instanceFields, offset, resultSize);
      if inside && okay {
        offset := offset + h.instanceFieldsSize * FIELD_LEN;
        MethodsAreItems(mem, pos, limit, 0, h.directMethodsSize);
        okay, inside, pos := ReadMethods(mem, pos, limit, directMethods, offset, resultSize);
        if inside && okay {
          offset := offset + h.directMethodsSize * METHOD_LEN;
          MethodsAreItems(mem, pos, limit, 0, h.virtualMethodsSize);
          okay, inside, pos := ReadMethods(mem, pos, limit, virtualMethods, offset, resultSize);
        }
      }
    }
    if !inside {
      return OutOfBlock, Some(pos);
    }
    if !okay {
      return Rejected, Some(pos);
    }
    outcome := Parsed(ClassData(staticFields[..], instanceFields[..], directMethods[..], virtualMethods[..]));
    next := Some(pos);
  }

  // ----- Reading back what was written -----

  predicate Fits(limit: Option<nat>, end: nat) {
    limit.Some? ==> end <= limit.value
  }

  lemma DeltaUndone(last: u4, idx: u4)
    ensures (last + Delta(last, idx)) % TWO32 == idx
  {
  }

  lemma ReadBackPair(mem: Memory, pos: nat, limit: Option<nat>, v: u4, w: u4)
    requires At(mem, pos, Encode(v) + Encode(w))
    ensures UnsignedAt(mem, pos) == Read(v, pos + |Encode(v)|)
    ensures UnsignedAt(mem, pos + |Encode(v)|) == Read(w, pos + |Encode(v) + Encode(w)|)
    ensures UlebsOkay(mem, pos, limit, 2) <==> Fits(limit, pos + |Encode(v) + Encode(w)|)
  {
    hide UnsignedAt, Encode, Verified;
    AtConcat(mem, pos, Encode(v), Encode(w));
    RoundTrip(mem, pos, v, limit);
    RoundTrip(mem, pos + |Encode(v)|, w, limit);
    assert UlebsOkay(mem, pos + |Encode(v)|, limit, 1) == Verified(mem, pos + |Encode(v)|, limit);
  }

  lemma ReadBackField(mem: Memory, pos: nat, limit: Option<nat>, last: u4, f: Field)
    requires At(mem, pos, EncodeField(last, f))
    ensures FieldAt(mem, pos, last) == Read(f, pos + |EncodeField(last, f)|)
    ensures UlebsOkay(mem, pos, limit, 2) <==> Fits(limit, pos + |EncodeField(last, f)|)
  {
    hide UnsignedAt, Encode, Delta;
    ReadBackPair(mem, pos, limit, Delta(last, f.fieldIdx), f.accessFlags);
    DeltaUndone(last, f.fieldIdx);
  }

  lemma ReadBackMethod(mem: Memory, pos: nat, limit: Option<nat>, last: u4, m: Method)
    requires At(mem, pos, EncodeMethod(last, m))
    ensures MethodAt(mem, pos, last) == Read(m, pos + |EncodeMethod(last, m)|)
    ensures UlebsOkay(mem, pos, limit, 3) <==> Fits(limit, pos + |EncodeMethod(last, m)|)
  {
    hide UnsignedAt, Encode, Delta, Verified;
    var delta := Delta(last, m.methodIdx);
    AtConcat(mem, pos, Encode(delta), Encode(m.accessFlags) + Encode(m.codeOff));
    RoundTrip(mem, pos, delta, limit);
    ReadBackPair(mem, pos + |Encode(delta)|, limit, m.accessFlags, m.codeOff);
    DeltaUndone(last, m.methodIdx);
  }

  lemma PrependHead<T>(s: seq<T>, end: nat)
    requires s != []
    ensures Prepend([s[0]], Some(Read(s[1..], end))) == Some(Read(s, end))
    ensures Prepend([s[0]], None) == None
  {
    assert [s[0]] + s[1..] == s;
  }

  // One step of both definitions, and their ends.
  lemma ReadBackFieldsStep(mem: Memory, pos: nat, limit: Option<nat>, last: u4, fields: seq<Field>)
    requires At(mem, pos, EncodeFields(last, fields))
    ensures fields == [] ==>
              EncodeFields(last, fields) == [] && FieldsAt(mem, pos, limit, last, 0) == Some(Read([], pos))
    ensures fields != [] ==>
              var f, rest := fields[0], fields[1..];
              var next := pos + |EncodeField(last, f)|;
              && |EncodeFields(last, fields)| == |EncodeField(last, f)| + |EncodeFields(f.fieldIdx, rest)|
              && At(mem, next, EncodeFields(f.fieldIdx, rest))
              && FieldsAt(mem, pos, limit, last, |fields|) ==
                 if Fits(limit, next) then Prepend([f], FieldsAt(mem, next, limit, f.fieldIdx, |rest|)) else None
  {
    hide At, FieldAt, EncodeField, UlebsOkay, Prepend;
    if fields != [] {
      AtConcat(mem, pos, EncodeField(last, fields[0]), EncodeFields(fields[0].fieldIdx, fields[1..]));
      ReadBackField(mem, pos, limit, last, fields[0]);
    }
  }

  lemma {:induction false} ReadBackFields(mem: Memory, pos: nat, limit: Option<nat>, last: u4, fields: seq<Field>)
    requires At(mem, pos, EncodeFields(last, fields)) && Fits(limit, pos)
    ensures var end := pos + |EncodeFields(last, fields)|;
            FieldsAt(mem, pos, limit, last, |fields|) == if Fits(limit, end) then Some(Read(fields, end)) else None
    decreases fields
  {
    hide At, FieldsAt, EncodeFields, EncodeField, Prepend;
    ReadBackFieldsStep(mem, pos, limit, last, fields);
    if fields != [] {
      var next := pos + |EncodeField(last, fields[0])|;
      PrependHead(fields, pos + |EncodeFields(last, fields)|);
      if Fits(limit, next) {
        ReadBackFields(mem, next, limit, fields[0].fieldIdx, fields[1..]);
      }
    }
  }

  // One step of both definitions, and their ends.
  lemma ReadBackMethodsStep(mem: Memory, pos: nat, limit: Option<nat>, last: u4, methods: seq<Method>)
    requires At(mem, pos, EncodeMethods(last, methods))
    ensures methods == [] ==>
              EncodeMethods(last, methods) == [] && MethodsAt(mem, pos, limit, last, 0) == Some(Read([], pos))
    ensures methods != [] ==>
              var m, rest := methods[0], methods[1..];
              var next := pos + |EncodeMethod(last, m)|;
              && |EncodeMethods(last, methods)| == |EncodeMethod(last, m)| + |EncodeMethods(m.methodIdx, rest)|
              && At(mem, next, EncodeMethods(m.methodIdx, rest))
              && MethodsAt(mem, pos, limit, last, |methods|) ==
                 if Fits(limit, next) then Prepend([m], MethodsAt(mem, next, limit, m.methodIdx, |rest|)) else None
  {
    hide At, MethodAt, EncodeMethod, UlebsOkay, Prepend;
    if methods != [] {
      AtConcat(mem, pos, EncodeMethod(last, methods[0]), EncodeMethods(methods[0].methodIdx, methods[1..]));
      ReadBackMethod(mem, pos, limit, last, methods[0]);
    }
  }

  lemma {:induction false} ReadBackMethods(mem: Memory, pos: nat, limit: Option<nat>, last: u4, methods: seq<Method>)
    requires At(mem, pos, EncodeMethods(last, methods)) && Fits(limit, pos)
    ensures var end := pos + |EncodeMethods(last, methods)|;
            MethodsAt(mem, pos, limit, last, |methods|) == if Fits(limit, end) then Some(Read(methods, end)) else None
    decreases methods
  {
    hide At, MethodsAt, EncodeMethods, EncodeMethod, Prepend;
    ReadBackMethodsStep(mem, pos, limit, last, methods);
    if methods != [] {
      var next := pos + |EncodeMethod(last, methods[0])|;
      PrependHead(methods, pos + |EncodeMethods(last, methods)|);
      if Fits(limit, next) {
        ReadBackMethods(mem, next, limit, methods[0].methodIdx, methods[1..]);
      }
    }
  }

  lemma ReadBackHeader(mem: Memory, pos: nat, limit: Option<nat>, n0: u4, n1: u4, n2: u4, n3: u4)
    requires At(mem, pos, EncodeHeader(n0, n1, n2, n3))
    ensures HeaderAt(mem, pos) == Read(Header(n0, n1, n2, n3), pos + |EncodeHeader(n0, n1, n2, n3)|)
    ensures UlebsOkay(mem, pos, limit, 4) <==> Fits(limit, pos + |EncodeHeader(n0, n1, n2, n3)|)
  {
    hide UnsignedAt, Encode, Verified;
    AtConcat(mem, pos, Encode(n0), Encode(n1) + (Encode(n2) + Encode(n3)));
    RoundTrip(mem, pos, n0, limit);
    var p := pos + |Encode(n0)|;
    AtConcat(mem, p, Encode(n1), Encode(n2) + Encode(n3));
    RoundTrip(mem, p, n1, limit);
    ReadBackPair(mem, p + |Encode(n1)|, limit, n2, n3);
    assert UlebsOkay(mem, p, limit, 3) == (Verified(mem, p, limit) && UlebsOkay(mem, p + |Encode(n1)|, limit, 2));
  }

  // the size of the block for four lists
  function BlockOf(c: ClassData): nat {
    RESULT_LEN + FIELD_LEN * (|c.staticFields| + |c.instanceFields|)
    + METHOD_LEN * (|c.directMethods| + |c.virtualMethods|)
  }

  // Any four lists that were written are read back as the same lists if and only if their block fits in 32 bits and
  // they end within the limit.
  lemma ClassDataRoundTrip(mem: Memory, pos: nat, limit: Option<nat>, c: ClassData)
    requires |c.staticFields| < TWO32 && |c.instanceFields| < TWO32
    requires |c.directMethods| < TWO32 && |c.virtualMethods| < TWO32
    requires At(mem, pos, EncodeClassData(c))
    ensures OutcomeAt(mem, pos, limit) == Parsed(c)
       <==> BlockOf(c) < TWO32 && Fits(limit, pos + |EncodeClassData(c)|)
    ensures BlockOf(c) < TWO32 && !Fits(limit, pos + |EncodeClassData(c)|) ==> OutcomeAt(mem, pos, limit) == Rejected
    ensures Fits(limit, pos + |EncodeClassData(c)|) ==>
              && ClassDataAt(mem, pos, limit) == Some(Read(c, pos + |EncodeClassData(c)|))
              && (BlockOf(c) >= TWO32 ==> OutcomeAt(mem, pos, limit) == OutOfBlock)
  {
    hide ClassDataAt, HeaderAt, UlebsOkay, EncodeHeader, EncodeFields, EncodeMethods, Encode, ListsEnd, ResultSize;
    hide StoredEnd;
    ListsReadBack(mem, pos, limit, c);
    BlockHoldsIff(HeaderAt(mem, pos).value);
    if UlebsOkay(mem, pos, limit, 4) {
      StoredIsAnnounced(mem, pos, limit);
    }
  }

  // The lists themselves, and where they end.
  lemma ListsReadBack(mem: Memory, pos: nat, limit: Option<nat>, c: ClassData)
    requires |c.staticFields| < TWO32 && |c.instanceFields| < TWO32
    requires |c.directMethods| < TWO32 && |c.virtualMethods| < TWO32
    requires At(mem, pos, EncodeClassData(c))
    ensures var end := pos + |EncodeClassData(c)|;
            ClassDataAt(mem, pos, limit) == if Fits(limit, end) then Some(Read(c, end)) else None
    ensures ListsEnd(HeaderAt(mem, pos).value) == BlockOf(c)
    ensures Fits(limit, pos + |EncodeClassData(c)|) ==> UlebsOkay(mem, pos, limit, 4)
  {
    hide HeaderAt, FieldsAt, MethodsAt, EncodeHeader, EncodeFields, EncodeMethods, UlebsOkay;
    var h := EncodeHeader(|c.staticFields|, |c.instanceFields|, |c.directMethods|, |c.virtualMethods|);
    var e0, e1 := EncodeFields(0, c.staticFields), EncodeFields(0, c.instanceFields);
    var e2, e3 := EncodeMethods(0, c.directMethods), EncodeMethods(0, c.virtualMethods);
    var p0 := pos + |h|;
    var p1 := p0 + |e0|;
    var p2 := p1 + |e1|;
    var p3 := p2 + |e2|;
    AtConcat(mem, pos, h, e0 + (e1 + (e2 + e3)));
    AtConcat(mem, p0, e0, e1 + (e2 + e3));
    AtConcat(mem, p1, e1, e2 + e3);
    AtConcat(mem, p2, e2, e3);
    ReadBackHeader(mem, pos, limit, |c.staticFields|, |c.instanceFields|, |c.directMethods|, |c.virtualMethods|);
    if Fits(limit, p0) {
      ReadBackFields(mem, p0, limit, 0, c.staticFields);
    }
    if Fits(limit, p1) {
      ReadBackFields(mem, p1, limit, 0, c.instanceFields);
    }
    if Fits(limit, p2) {
      ReadBackMethods(mem, p2, limit, 0, c.directMethods);
    }
    if Fits(limit, p3) {
      ReadBackMethods(mem, p3, limit, 0, c.virtualMethods);
    }
  }

  // An item that announces 0x1fff_fffc static fields gets a block of no bytes, which storing the header leaves.
  lemma HeaderLeavesBlock(mem: Memory, pos: nat, limit: Option<nat>)
    requires At(mem, pos, EncodeHeader(0x1fff_fffc, 0, 0, 0))
    requires Fits(limit, pos + |EncodeHeader(0x1fff_fffc, 0, 0, 0)|)
    ensures ResultSize(HeaderAt(mem, pos).value) == 0 && OutcomeAt(mem, pos, limit) == OutOfBlock
  {
    hide EncodeHeader, UlebsOkay, HeaderAt, StoredLength;
    ReadBackHeader(mem, pos, limit, 0x1fff_fffc, 0, 0, 0);
  }

  // One that announces 0x2000_0000 gets a block for the structure alone: it leaves the block if the first field passes
  // verification, and is rejected otherwise.
  lemma FieldLeavesBlock(mem: Memory, pos: nat, limit: Option<nat>)
    requires At(mem, pos, EncodeHeader(0x2000_0000, 0, 0, 0))
    requires Fits(limit, pos + |EncodeHeader(0x2000_0000, 0, 0, 0)|)
    ensures ResultSize(HeaderAt(mem, pos).value) == RESULT_LEN
    ensures OutcomeAt(mem, pos, limit)
         == if UlebsOkay(mem, pos + |EncodeHeader(0x2000_0000, 0, 0, 0)|, limit, 2) then OutOfBlock else Rejected
  {
    hide EncodeHeader, UlebsOkay, HeaderAt;
    ReadBackHeader(mem, pos, limit, 0x2000_0000, 0, 0, 0);
  }

  // One that announces 0x1555_5553 methods of either kind gets four bytes.
  lemma MethodsLeaveBlock(mem: Memory, pos: nat, limit: Option<nat>, direct: bool)
    requires var n2, n3 := if direct then 0x1555_5553 else 0, if direct then 0 else 0x1555_5553;
             && At(mem, pos, EncodeHeader(0, 0, n2, n3)) && Fits(limit, pos + |EncodeHeader(0, 0, n2, n3)|)
    ensures ResultSize(HeaderAt(mem, pos).value) == 4 && OutcomeAt(mem, pos, limit) == OutOfBlock
  {
    hide EncodeHeader, UlebsOkay, HeaderAt, StoredLength;
    ReadBackHeader(mem, pos, limit, 0, 0, if direct then 0x1555_5553 else 0, if direct then 0 else 0x1555_5553);
  }
}
