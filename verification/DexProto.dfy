// Method prototypes and method descriptors: libdex/DexProto.cpp.

module DexProto {
  import opened Common
  import opened Mutf8
  import opened DexUtf
  import opened Probing

  // A prototype, with its type descriptors looked up.
  datatype Proto = Proto(returnType: seq<u1>, params: seq<seq<u1>>)

  // A verified string that is a type descriptor, which is what dexIsValidTypeDescriptor accepts of these;
  // see DexUtf.ValidIsGrammar.
  ghost predicate IsType(d: seq<u1>) {
    exists units :: d == Encode(units) && IsTypeDescriptor(units, SLASH)
  }

  // ... and that is not void
  ghost predicate IsArgType(d: seq<u1>) {
    IsType(d) && d != [CAP_V]
  }

  ghost predicate IsProto(p: Proto) {
    IsType(p.returnType) && forall d | d in p.params :: IsArgType(d)
  }

  // ----- The order of prototypes -----

  function CompareParams(ps: seq<seq<u1>>, qs: seq<seq<u1>>): int {
    if ps == [] then (if qs == [] then 0 else -1)
    else if qs == [] then 1
    else if Compare(ps[0], qs[0]) != 0 then Compare(ps[0], qs[0])
    else CompareParams(ps[1..], qs[1..])
  }

  function CompareProtos(p: Proto, q: Proto, compareReturnType: bool): int {
    if compareReturnType && Compare(p.returnType, q.returnType) != 0 then Compare(p.returnType, q.returnType)
    else CompareParams(p.params, q.params)
  }

  // strcmp; bytes are unsigned
  method StrCmp(s: seq<u1>, t: seq<u1>) returns (r: int)
    ensures r == Compare(s, t)
  {
    var i := 0;
    while i < |s| && i < |t| && s[i] == t[i]
      invariant i <= |s| && i <= |t| && Compare(s[i..], t[i..]) == Compare(s, t)
    {
      assert s[i..][1..] == s[i + 1..] && t[i..][1..] == t[i + 1..];
      i := i + 1;
    }
    if i < |s| && i < |t| {
      var c1: int, c2: int := s[i], t[i];
      r := c1 - c2;
    } else {
      r := if i < |s| then 1 else if i < |t| then -1 else 0;
    }
  }

  // protoCompare; sameProto says that both pointers or both proto_ids are the same
  method ProtoCompare(p: Proto, q: Proto, sameProto: bool, compareReturnType: bool) returns (r: int)
    requires sameProto ==> p == q
    ensures r == CompareProtos(p, q, compareReturnType)
  {
    if sameProto {
      CompareIsZero(p.returnType, q.returnType);
      CompareParamsIsZero(p.params, q.params);
      return 0;
    }
    if compareReturnType {
      r := StrCmp(p.returnType, q.returnType);
      if r != 0 {
        return;
      }
    }
    var minParam := if |p.params| > |q.params| then |q.params| else |p.params|;
    var i := 0;
    while i < minParam
      invariant i <= minParam && CompareParams(p.params[i..], q.params[i..]) == CompareParams(p.params, q.params)
    {
      r := StrCmp(p.params[i], q.params[i]);
      if r != 0 {
        return;
      }
      assert p.params[i..][1..] == p.params[i + 1..] && q.params[i..][1..] == q.params[i + 1..];
      i := i + 1;
    }
    r := if |p.params| < |q.params| then -1 else if |p.params| > |q.params| then 1 else 0;
  }

  lemma {:induction false} CompareParamsIsZero(ps: seq<seq<u1>>, qs: seq<seq<u1>>)
    ensures CompareParams(ps, qs) == 0 <==> ps == qs
  {
    if ps != [] && qs != [] {
      CompareIsZero(ps[0], qs[0]);
      CompareParamsIsZero(ps[1..], qs[1..]);
      assert ps == [ps[0]] + ps[1..] && qs == [qs[0]] + qs[1..];
    }
  }

  lemma ProtosAreEqual(p: Proto, q: Proto)
    ensures CompareProtos(p, q, true) == 0 <==> p == q
  {
    CompareIsZero(p.returnType, q.returnType);
    CompareParamsIsZero(p.params, q.params);
  }

  lemma {:induction false} CompareParamsTransitive(ps: seq<seq<u1>>, qs: seq<seq<u1>>, rs: seq<seq<u1>>)
    requires CompareParams(ps, qs) < 0 && CompareParams(qs, rs) < 0
    ensures CompareParams(ps, rs) < 0
  {
    if ps != [] && qs != [] && rs != [] {
      CompareIsZero(ps[0], qs[0]);
      CompareIsZero(qs[0], rs[0]);
      if Compare(ps[0], qs[0]) == 0 && Compare(qs[0], rs[0]) == 0 {
        CompareParamsTransitive(ps[1..], qs[1..], rs[1..]);
      } else if Compare(ps[0], qs[0]) != 0 && Compare(qs[0], rs[0]) != 0 {
        CompareIsTransitive(ps[0], qs[0], rs[0]);
      }
    }
  }

  // dexProtoCompare is transitive.
  lemma CompareProtosTransitive(p: Proto, q: Proto, r: Proto)
    requires CompareProtos(p, q, true) < 0 && CompareProtos(q, r, true) < 0
    ensures CompareProtos(p, r, true) < 0
  {
    CompareIsZero(p.returnType, q.returnType);
    CompareIsZero(q.returnType, r.returnType);
    if Compare(p.returnType, q.returnType) == 0 && Compare(q.returnType, r.returnType) == 0 {
      CompareParamsTransitive(p.params, q.params, r.params);
    } else if Compare(p.returnType, q.returnType) != 0 && Compare(q.returnType, r.returnType) != 0 {
      CompareIsTransitive(p.returnType, q.returnType, r.returnType);
    }
  }

  // ----- Method descriptors -----

  function Concat(ds: seq<seq<u1>>): seq<u1> {
    if ds == [] then [] else ds[0] + Concat(ds[1..])
  }

  function Print(p: Proto): seq<u1> {
    [PAREN_OPEN] + Concat(p.params) + ([PAREN_CLOSE] + p.returnType)
  }

  lemma PrintedExample()
    ensures Print(Proto(Ascii("V"), [Ascii("I"), Ascii("[Lb;"), Ascii("J")])) == Ascii("(I[Lb;J)V")
  {
    var a, b, c := Ascii("I"), Ascii("[Lb;"), Ascii("J");
    var none: seq<seq<u1>> := [];
    assert [a, b, c][1..] == [b, c] && [b, c][1..] == [c] && [c][1..] == none;
    assert Concat([c]) == c + Concat(none) == c;
    assert Concat([b, c]) == b + c;
    assert Concat([a, b, c]) == a + (b + c);
  }

  lemma {:induction false} ConcatSnoc(ds: seq<seq<u1>>, k: nat)
    requires k < |ds|
    ensures Concat(ds[..k + 1]) == Concat(ds[..k]) + ds[k]
  {
    if k == 0 {
      assert ds[..1][1..] == [];
    } else {
      assert ds[..k + 1][1..] == ds[1..][..k] && ds[..k][1..] == ds[1..][..k - 1];
      ConcatSnoc(ds[1..], k - 1);
    }
  }

  lemma {:induction false} ConcatLength(ds: seq<seq<u1>>, k: nat)
    requires k <= |ds|
    ensures |Concat(ds[..k])| <= |Concat(ds)|
    decreases |ds| - k
  {
    if k == |ds| {
      assert ds[..k] == ds;
    } else {
      ConcatLength(ds, k + 1);
      ConcatSnoc(ds, k);
    }
  }

  // strcpy
  method StrCpy(dst: array<u1>, at: nat, src: seq<u1>)
    requires at + |src| + 1 <= dst.Length
    modifies dst
    ensures dst[..at + |src|] == old(dst[..at]) + src && dst[at + |src|] == 0
  {
    var i := 0;
    while i < |src|
      invariant i <= |src| && dst[..at + i] == old(dst[..at]) + src[..i]
    {
      dst[at + i] := src[i];
      assert dst[..at + i + 1] == old(dst[..at]) + src[..i] + [src[i]];
      i := i + 1;
    }
    dst[at + |src|] := 0;
    assert src[..i] == src;
  }

  // dexProtoGetMethodDescriptor: what is allocated is exactly what is written
  method GetMethodDescriptor(p: Proto) returns (value: array<u1>)
    ensures fresh(value) && value[..] == Print(p) + [0]
  {
    hide Concat, Print;
    var length := MethodDescriptorSize(p);
    PrintedAll(p);
    value := new u1[length];
    var at: nat := 1;
    value[0] := PAREN_OPEN;
    assert value[..1] == [PAREN_OPEN] + Printed(p, 0);
    var i := 0;
    while i < |p.params|
      invariant i <= |p.params| && at == 1 + |Printed(p, i)| && value.Length == length
      invariant at < length && value[..at] == [PAREN_OPEN] + Printed(p, i)
    {
      PrintedFits(p, i);
      StrCpy(value, at, p.params[i]);
      at := at + |p.params[i]|;
      i := i + 1;
    }
    PrintedAll(p);
    value[at] := PAREN_CLOSE;
    at := at + 1;
    assert value[..at] == [PAREN_OPEN] + Printed(p, i) + [PAREN_CLOSE];
    StrCpy(value, at, p.returnType);
    assert value[..] == value[..at + |p.returnType|] + [0];
    assert value[..] == [PAREN_OPEN] + Printed(p, i) + [PAREN_CLOSE] + p.returnType + [0];
  }

  // the first loop of dexProtoGetMethodDescriptor
  method MethodDescriptorSize(p: Proto) returns (length: nat)
    ensures length == 3 + |Printed(p, |p.params|)| + |p.returnType|
  {
    hide Concat;
    length := 3;
    PrintedAll(p);
    var i := 0;
    while i < |p.params|
      invariant i <= |p.params| && length == 3 + |Printed(p, i)|
    {
      PrintedFits(p, i);
      length := length + |p.params[i]|;
      i := i + 1;
    }
    length := length + |p.returnType|;
  }

  function Printed(p: Proto, k: nat): seq<u1>
    requires k <= |p.params|
  {
    Concat(p.params[..k])
  }

  lemma PrintedFits(p: Proto, k: nat)
    requires k < |p.params|
    ensures Printed(p, k + 1) == Printed(p, k) + p.params[k]
    ensures |Printed(p, k + 1)| <= |Printed(p, |p.params|)|
  {
    ConcatSnoc(p.params, k);
    ConcatLength(p.params, k + 1);
    assert p.params[..|p.params|] == p.params;
  }

  lemma PrintedAll(p: Proto)
    ensures Printed(p, 0) == []
    ensures [PAREN_OPEN] + Printed(p, |p.params|) + [PAREN_CLOSE] + p.returnType == Print(p)
  {
    assert p.params[..|p.params|] == p.params;
  }

  // methodDescriptorNextType, on the rest of a string
  function TypeEnd(s: seq<u1>): (end: Option<nat>)
    ensures end.Some? ==> end.value <= |s|
  {
    var n := Dims(s);
    if n == |s| then None
    else if IsPrimitive(s[n]) then Some(n + 1)
    else if s[n] != CAP_L then None
    else match FirstIndex(s, SEMICOLON, n + 1)
      case None => None
      case Some(k) => Some(k + 1)
  }

  lemma {:induction false} DimsOfPrefix(d: seq<u1>, x: seq<u1>)
    requires Dims(d) < |d|
    ensures Dims(d + x) == Dims(d)
  {
    assert (d + x)[0] == d[0];
    if d[0] == BRACKET {
      assert (d + x)[1..] == d[1..] + x;
      DimsOfPrefix(d[1..], x);
    }
  }

  // An accepted descriptor ends where methodDescriptorNextType looks for its end exactly if it has no other semicolon.
  lemma TypeEndIff(d: seq<u1>)
    requires Whole(d) && IsValid(d, false, false) && d != [CAP_V]
    ensures TypeEnd(d) == Some(|d|) <==> SEMICOLON !in d[..|d| - 1]
  {
    hide Whole, IsValid;
    AcceptedShape(d);
    var n := Dims(d);
    if d[n] == CAP_L {
      assert forall k | 0 <= k < n :: d[k] == 0x5b;
      FirstIndexIff(d, SEMICOLON, n + 1);
    } else {
      var front := d[..|d| - 1];
      assert forall k | 0 <= k < |front| :: front[k] == 0x5b;
    }
  }

  // dimensions and a primitive type, void, or dimensions and something between L and ;
  lemma AcceptedShape(d: seq<u1>)
    requires Whole(d) && IsValid(d, false, false)
    ensures Dims(d) < |d|
    ensures var n := Dims(d);
            || (IsPrimitive(d[n]) && |d| == n + 1)
            || d == [CAP_V]
            || (d[n] == CAP_L && n + 1 < |d| && d[|d| - 1] == SEMICOLON)
  {
    hide Whole, ClassName;
    var n := Dims(d);
    WholeAfterDims(d, n);
    var core := d[n..];
    assert core != [] && core[0] == d[n];
    if core[0] == CAP_L {
      WholeAfterAscii(core);
      AcceptedEnds(core[1..], false, true);
      assert d[|d| - 1] == core[1..][|core[1..]| - 1];
    }
  }

  lemma FirstIndexIff(s: seq<u1>, c: u1, from: nat)
    requires from < |s| && s[|s| - 1] == c && forall k | 0 <= k < from :: s[k] != c
    ensures FirstIndex(s, c, from) == Some(|s| - 1) <==> c !in s[..|s| - 1]
    ensures FirstIndex(s, c, from).Some?
  {
    if c in s[..|s| - 1] {
      var k: nat :| k < |s| - 1 && s[..|s| - 1][k] == c;
      FirstIndexAtMost(s, c, from, k);
    } else {
      assert forall m: nat | m < |s| - 1 :: s[m] == s[..|s| - 1][m];
      FirstIndexIs(s, c, from, |s| - 1);
    }
  }

  lemma {:induction false} FirstIndexAtMost<K>(s: seq<K>, c: K, from: nat, k: nat)
    requires from <= k < |s| && s[k] == c
    ensures FirstIndex(s, c, from).Some? && FirstIndex(s, c, from).value <= k
    decreases |s| - from
  {
    if s[from] != c {
      FirstIndexAtMost(s, c, from + 1, k);
    }
  }

  // Bytes that dexIsValidTypeDescriptor accepts although they are not a valid string: L, C3 3B, ;
  lemma SplitsTooEarly()
    ensures var d: seq<u1> := [CAP_L, 0xc3, SEMICOLON, SEMICOLON];
            Whole(d) && IsValid(d, false, false) && TypeEnd(d) == Some(3)
  {
    var d: seq<u1> := [CAP_L, 0xc3, SEMICOLON, SEMICOLON];
    var body := d[1..];
    assert Unit(d) == L.Read(CAP_L, 1);
    assert Unit(body) == L.Read(0xfb, 2);
    assert body[2..] == [SEMICOLON];
    assert Unit(body[2..]).next == 1;
    assert MemberChar(body) == Some(2);
    assert ClassName(body[2..], false, false, false);
    assert d[Dims(d)..] == d;
    assert FirstIndex(d, SEMICOLON, 1) == FirstIndex(d, SEMICOLON, 2);
  }

  // ----- Verified descriptors split in one way only -----

  predicate IsPlainByte(c: u1) {
    c != 0 && c != PAREN_CLOSE
  }

  // The bytes of a verified type: no terminator, no closing parenthesis, no semicolon before the end.
  lemma VerifiedType(d: seq<u1>)
    requires IsType(d)
    ensures d != [] && (forall k | 0 <= k < |d| :: IsPlainByte(d[k]))
    ensures Whole(d) && IsValid(d, false, false) && SEMICOLON !in d[..|d| - 1]
  {
    hide Encode, ClassName, Whole, IsValid, NamesThenSemicolon, IsNameByte, IsTypeDescriptor;
    var units :| d == Encode(units) && IsTypeDescriptor(units, SLASH);
    TypeIsValid(units);
    AcceptedShape(d);
    var n := Dims(d);
    var front := d[..|d| - 1];
    if d[n] == CAP_L {
      VerifiedName(units);
      BytesAfterL(d, n);
    }
    assert forall k | 0 <= k < |front| :: front[k] == d[k];
  }

  lemma TypeIsValid(units: seq<u2>)
    ensures Whole(Encode(units)) && (IsValid(Encode(units), false, false) <==> IsTypeDescriptor(units, SLASH))
  {
    hide Whole, Encode, IsValid, IsTypeDescriptor;
    ValidIsGrammar(units, false, false);
  }

  lemma VerifiedName(units: seq<u2>)
    requires IsTypeDescriptor(units, SLASH)
    requires Dims(Encode(units)) < |Encode(units)| && Encode(units)[Dims(Encode(units))] == CAP_L
    ensures NamesThenSemicolon(Encode(units)[Dims(Encode(units)) + 1..])
  {
    hide Encode, ClassName, Whole, NamesThenSemicolon, Dims, IsTypeDescriptor;
    var d := Encode(units);
    var n := Dims(d);
    TypeIsValid(units);
    DimsOfEncoding(units);
    var core := units[n..];
    WholeAfterDims(d, n);
    EncodesNothing(core);
    UnitOfEncoding(core);
    assert d[n..][1..] == d[n + 1..];
    ClassNameIsTail(core[1..], false, false, true);
    TailBytes(core[1..], false, true);
  }

  lemma BytesAfterL(d: seq<u1>, n: nat)
    requires n < |d| && NamesThenSemicolon(d[n + 1..])
    ensures forall k | n < k < |d| :: IsPlainByte(d[k]) && (k < |d| - 1 ==> d[k] != SEMICOLON)
  {
    var name := d[n + 1..];
    forall k | n < k < |d|
      ensures IsPlainByte(d[k]) && (k < |d| - 1 ==> d[k] != SEMICOLON)
    {
      assert d[k] == name[k - n - 1];
    }
  }

  // methodDescriptorNextType finds the end of the first type, whatever follows it; so types are prefix-free.
  lemma TypeEndOfType(d: seq<u1>, x: seq<u1>)
    requires IsArgType(d)
    ensures TypeEnd(d + x) == Some(|d|)
  {
    hide Whole, IsValid, IsType, Dims;
    VerifiedType(d);
    TypeEndIff(d);
    var n := Dims(d);
    DimsOfPrefix(d, x);
    assert (d + x)[n] == d[n];
    if d[n] == CAP_L {
      var s := d + x;
      var front := d[..|d| - 1];
      forall m: nat | m < |d| - 1
        ensures s[m] != SEMICOLON
      {
        assert s[m] == front[m];
      }
      AcceptedShape(d);
      FirstIndexIs(s, SEMICOLON, n + 1, |d| - 1);
    }
  }

  lemma TypesArePrefixFree(d: seq<u1>, e: seq<u1>, x: seq<u1>, y: seq<u1>)
    requires IsArgType(d) && IsArgType(e) && d + x == e + y
    ensures d == e && x == y
  {
    hide TypeEnd, IsArgType;
    TypeEndOfType(d, x);
    TypeEndOfType(e, y);
    assert d == (d + x)[..|d|] && e == (e + y)[..|e|];
    assert x == (d + x)[|d|..] && y == (e + y)[|e|..];
  }

  // So a list of types that is followed by a closing parenthesis, or by nothing, splits in one way.
  lemma {:induction false} ListsSplitOneWay(ds: seq<seq<u1>>, es: seq<seq<u1>>, x: seq<u1>, y: seq<u1>)
    requires forall d | d in ds + es :: IsArgType(d)
    requires (x == [] || x[0] == PAREN_CLOSE) && (y == [] || y[0] == PAREN_CLOSE)
    requires Concat(ds) + x == Concat(es) + y
    ensures ds == es && x == y
  {
    hide IsArgType;
    if ds == [] || es == [] {
      if ds != [] {
        FirstIsPlain(ds, x);
      } else if es != [] {
        FirstIsPlain(es, y);
      }
      assert [] + x == x && [] + y == y;
    } else {
      assert Concat(ds) + x == ds[0] + (Concat(ds[1..]) + x);
      assert Concat(es) + y == es[0] + (Concat(es[1..]) + y);
      assert (ds + es)[0] == ds[0] && (ds + es)[|ds|] == es[0];
      TypesArePrefixFree(ds[0], es[0], Concat(ds[1..]) + x, Concat(es[1..]) + y);
      assert forall d | d in ds[1..] + es[1..] :: d in ds + es;
      ListsSplitOneWay(ds[1..], es[1..], x, y);
      assert ds == [ds[0]] + ds[1..] && es == [es[0]] + es[1..];
    }
  }

  lemma FirstIsPlain(ds: seq<seq<u1>>, x: seq<u1>)
    requires ds != [] && IsArgType(ds[0])
    ensures Concat(ds) + x != [] && (Concat(ds) + x)[0] != PAREN_CLOSE
  {
    VerifiedType(ds[0]);
    assert IsPlainByte(ds[0][0]);
    assert (Concat(ds) + x)[0] == ds[0][0];
  }

  // What dexProtoGetMethodDescriptor prints determines the prototype.
  lemma PrintIsInjective(p: Proto, q: Proto)
    requires IsProto(p) && IsProto(q) && Print(p) == Print(q)
    ensures p == q
  {
    hide IsArgType, IsType, Concat, Print;
    var x, y := [PAREN_CLOSE] + p.returnType, [PAREN_CLOSE] + q.returnType;
    PrintTail(p);
    PrintTail(q);
    forall d | d in p.params + q.params
      ensures IsArgType(d)
    {
    }
    ListsSplitOneWay(p.params, q.params, x, y);
    assert p.returnType == x[1..] && q.returnType == y[1..];
  }

  lemma PrintTail(p: Proto)
    ensures Print(p) != [] && Print(p)[1..] == Concat(p.params) + ([PAREN_CLOSE] + p.returnType)
  {
  }

  // ----- dexProtoCompareToDescriptor -----

  // DexParameterIterator
  class ParameterIterator {
    const params: seq<seq<u1>>
    var cursor: nat

    // dexParameterIteratorInit
    constructor (p: Proto)
      ensures params == p.params && cursor == 0
    {
      params := p.params;
      cursor := 0;
    }

    // dexParameterIteratorNextDescriptor
    method NextDescriptor() returns (d: Option<seq<u1>>)
      modifies this
      ensures cursor == if old(cursor) < |params| then old(cursor) + 1 else old(cursor)
      ensures d == if old(cursor) < |params| then Some(params[old(cursor)]) else None
    {
      if cursor >= |params| {
        return None;
      }
      d := Some(params[cursor]);
      cursor := cursor + 1;
    }
  }

  // strchr
  method StrChr(s: seq<u1>, c: u1, from: nat) returns (k: Option<nat>)
    requires from <= |s|
    ensures k == FirstIndex(s, c, from)
  {
    var i := from;
    while i < |s| && s[i] != c
      invariant i <= |s| && FirstIndex(s, c, i) == FirstIndex(s, c, from)
    {
      i := i + 1;
    }
    k := if i < |s| then Some(i) else None;
  }

  // methodDescriptorReturnType
  method MethodDescriptorReturnType(descriptor: seq<u1>) returns (result: Option<nat>)
    ensures result == match FirstIndex(descriptor, PAREN_CLOSE, 0) case None => None case Some(k) => Some(k + 1)
  {
    var k := StrChr(descriptor, PAREN_CLOSE, 0);
    result := if k == None then None else Some(k.value + 1);
  }

  // methodDescriptorNextType
  method MethodDescriptorNextType(s: seq<u1>, start: nat) returns (next: Option<nat>)
    requires start <= |s|
    ensures next == match TypeEnd(s[start..]) case None => None case Some(k) => Some(start + k)
  {
    var at := start;
    while at < |s| && s[at] == BRACKET
      invariant start <= at <= |s| && at - start <= Dims(s[start..])
    {
      at := at + 1;
    }
    if at == |s| {
      return None;
    }
    if IsPrimitive(s[at]) {
      return Some(at + 1);
    }
    if s[at] == CAP_L {
      var k := StrChr(s, SEMICOLON, at + 1);
      FirstIndexShift(s, SEMICOLON, start, at + 1 - start);
      if k != None {
        return Some(k.value + 1);
      }
    }
    return None;
  }

  lemma {:induction false} FirstIndexShift(s: seq<u1>, c: u1, start: nat, from: nat)
    requires start + from <= |s|
    ensures FirstIndex(s, c, start + from)
         == match FirstIndex(s[start..], c, from) case None => None case Some(k) => Some(start + k)
    decreases |s| - start - from
  {
    if start + from < |s| {
      FirstIndexShift(s, c, start, from + 1);
    }
  }

  // the loop over the characters of one type; both strings end with a 0
  method CompareType(protoDesc: seq<u1>, descriptor: seq<u1>, start: nat, nextDesc: nat) returns (r: int)
    requires start <= nextDesc <= |descriptor|
    requires forall k | 0 <= k < |protoDesc| :: IsPlainByte(protoDesc[k])
    requires forall k | start <= k < nextDesc :: IsPlainByte(descriptor[k])
    ensures r == Sign(Compare(protoDesc, descriptor[start..nextDesc]))
  {
    var k := 0;
    while true
      invariant k <= |protoDesc| && start + k <= nextDesc
      invariant Compare(protoDesc[k..], descriptor[start + k..nextDesc])
             == Compare(protoDesc, descriptor[start..nextDesc])
      decreases |protoDesc| - k
    {
      var c1 := if k < |protoDesc| then protoDesc[k] else 0;
      var c2 := if start + k < nextDesc then descriptor[start + k] else 0;
      if c1 < c2 {
        return -1;
      } else if c1 > c2 {
        return 1;
      } else if c1 == 0 {
        return 0;
      }
      assert protoDesc[k..][1..] == protoDesc[k + 1..];
      assert descriptor[start + k..nextDesc][1..] == descriptor[start + k + 1..nextDesc];
      k := k + 1;
    }
  }

  // Where the i-th type of a descriptor starts, and what the rest of it looks like.
  ghost predicate RestIs(descriptor: seq<u1>, at: nat, types: seq<seq<u1>>, end: seq<u1>) {
    at <= |descriptor| && descriptor[at..] == Concat(types) + end
  }

  lemma NextTypeIs(descriptor: seq<u1>, at: nat, types: seq<seq<u1>>, end: seq<u1>)
    requires types != [] && IsArgType(types[0]) && RestIs(descriptor, at, types, end)
    ensures at < |descriptor| && descriptor[at] != PAREN_CLOSE
    ensures TypeEnd(descriptor[at..]) == Some(|types[0]|) && at + |types[0]| <= |descriptor|
    ensures descriptor[at..at + |types[0]|] == types[0]
    ensures RestIs(descriptor, at + |types[0]|, types[1..], end)
    ensures forall k | 0 <= k < |types[0]| :: IsPlainByte(types[0][k])
  {
    hide IsArgType, TypeEnd, IsPlainByte;
    var d, rest := types[0], Concat(types[1..]) + end;
    assert descriptor[at..] == d + rest;
    VerifiedArg(d);
    TypeEndOfType(d, rest);
    assert descriptor[at] == descriptor[at..][0] == d[0];
    assert descriptor[at..at + |d|] == descriptor[at..][..|d|];
    assert descriptor[at + |d|..] == descriptor[at..][|d|..];
  }

  lemma VerifiedArg(d: seq<u1>)
    requires IsArgType(d)
    ensures d != [] && d[0] != PAREN_CLOSE && forall k | 0 <= k < |d| :: IsPlainByte(d[k])
  {
    VerifiedType(d);
    assert IsPlainByte(d[0]);
  }

  // protoCompareToParameterDescriptors
  method CompareToParameters(p: Proto, descriptor: seq<u1>, expectParens: bool, ghost types: seq<seq<u1>>,
                             ghost end: seq<u1>)
    returns (r: int)
    requires forall d | d in p.params + types :: IsArgType(d)
    requires RestIs(descriptor, if expectParens then 1 else 0, types, end)
    requires if expectParens then end != [] && end[0] == PAREN_CLOSE else end == []
    ensures r == Sign(CompareParams(p.params, types))
  {
    hide IsArgType, TypeEnd, IsPlainByte, Compare, RestIs, Dims;
    var at: nat := if expectParens then 1 else 0;
    var walk := new ParameterIterator(p);
    ghost var i := 0;
    while true
      invariant i <= |types| && i <= |p.params| && walk.cursor == i
      invariant walk.params == p.params && fresh(walk)
      invariant RestIs(descriptor, at, types[i..], end)
      invariant CompareParams(p.params[i..], types[i..]) == CompareParams(p.params, types)
      decreases |types| - i
    {
      var protoDesc := walk.NextDescriptor();
      EndIs(descriptor, at, types[i..], end, p.params + types);
      if if expectParens then at < |descriptor| && descriptor[at] == PAREN_CLOSE else at == |descriptor| {
        return if protoDesc == None then 0 else 1;
      }
      if protoDesc == None {
        return -1;
      }
      assert types[i..][0] == types[i] && (p.params + types)[|p.params| + i] == types[i];
      assert (p.params + types)[i] == p.params[i];
      NextTypeIs(descriptor, at, types[i..], end);
      var nextDesc := MethodDescriptorNextType(descriptor, at);
      VerifiedArg(p.params[i]);
      assert forall k | at <= k < nextDesc.value :: descriptor[k] == types[i][k - at];
      r := CompareType(protoDesc.value, descriptor, at, nextDesc.value);
      if r != 0 {
        return;
      }
      assert types[i..][1..] == types[i + 1..] && p.params[i..][1..] == p.params[i + 1..];
      at := nextDesc.value;
      i := i + 1;
    }
  }

  // The expected end character is where the types end, and nowhere before.
  lemma EndIs(descriptor: seq<u1>, at: nat, types: seq<seq<u1>>, end: seq<u1>, all: seq<seq<u1>>)
    requires forall d | d in all :: IsArgType(d)
    requires types != [] ==> types[0] in all
    requires RestIs(descriptor, at, types, end)
    requires end == [] || end[0] == PAREN_CLOSE
    ensures at <= |descriptor|
    ensures types == [] ==> (at < |descriptor| <==> end != []) && (at < |descriptor| ==> descriptor[at] == PAREN_CLOSE)
    ensures types != [] ==> at < |descriptor| && descriptor[at] != PAREN_CLOSE
  {
    hide IsArgType;
    if types != [] {
      NextTypeIs(descriptor, at, types, end);
    } else {
      assert descriptor[at..] == end;
      if end != [] {
        assert descriptor[at] == descriptor[at..][0];
      }
    }
  }

  // dexProtoCompareToParameterDescriptors
  method CompareToParameterDescriptors(p: Proto, descriptors: seq<u1>, ghost types: seq<seq<u1>>) returns (r: int)
    requires forall d | d in p.params + types :: IsArgType(d)
    requires descriptors == Concat(types)
    ensures r == Sign(CompareParams(p.params, types))
  {
    assert descriptors[0..] == Concat(types) + [];
    r := CompareToParameters(p, descriptors, false, types, []);
  }

  // dexProtoCompareToDescriptor: the order of the prototype the descriptor stands for, and 0 exactly for the
  // descriptor that dexProtoGetMethodDescriptor prints
  method CompareToDescriptor(p: Proto, descriptor: seq<u1>, ghost q: Proto) returns (r: int)
    requires IsProto(p) && IsProto(q) && descriptor == Print(q)
    ensures Sign(r) == Sign(CompareProtos(p, q, true))
    ensures r == 0 <==> descriptor == Print(p)
  {
    hide IsType, Compare, CompareParams, FirstIndex;
    ReturnTypeIs(q);
    assert forall d | d in p.params + q.params :: IsArgType(d);
    if descriptor == Print(p) {
      PrintIsInjective(p, q);
    }
    ProtosAreEqual(p, q);
    CompareIsZero(p.returnType, q.returnType);
    var returnType := MethodDescriptorReturnType(descriptor);
    r := StrCmp(p.returnType, descriptor[returnType.value..]);
    if r != 0 {
      return;
    }
    PrintTail(q);
    r := CompareToParameters(p, descriptor, true, q.params, [PAREN_CLOSE] + q.returnType);
  }

  // The first closing parenthesis of a descriptor is right before its return type.
  lemma ReturnTypeIs(q: Proto)
    requires IsProto(q)
    ensures var s := Print(q); var k := 1 + |Concat(q.params)|;
            FirstIndex(s, PAREN_CLOSE, 0) == Some(k) && k + 1 <= |s| && s[k + 1..] == q.returnType
  {
    hide IsArgType;
    var s, k := Print(q), 1 + |Concat(q.params)|;
    ListIsPlain(q.params);
    forall m: nat | m < k
      ensures s[m] != PAREN_CLOSE
    {
      if m > 0 {
        assert s[m] == Concat(q.params)[m - 1];
      }
    }
    assert s[k] == PAREN_CLOSE;
    FirstIndexIs(s, PAREN_CLOSE, 0, k);
  }

  lemma {:induction false} ListIsPlain(ds: seq<seq<u1>>)
    requires forall d | d in ds :: IsArgType(d)
    ensures forall k | 0 <= k < |Concat(ds)| :: Concat(ds)[k] != PAREN_CLOSE
  {
    hide IsArgType;
    if ds != [] {
      ListIsPlain(ds[1..]);
      VerifiedArg(ds[0]);
      assert forall k | 0 <= k < |ds[0]| :: IsPlainByte(ds[0][k]);
    }
  }
}
