// Modified UTF-8: the check of string_data_item in libdex/DexSwapVerify.cpp, the decoder of libdex/DexUtf.h and
// dexUtf8Cmp of libdex/DexUtf.cpp.

module Mutf8 {
  import opened Common
  import L = Leb128

  // ----- The encoding -----

  // the only encoding of a UTF-16 code unit that verification accepts
  function UnitBytes(u: u2): (bytes: seq<u1>)
    ensures 1 <= |bytes| <= 3
  {
    if 0 < u < 0x80 then [u]
    else if u < 0x800 then [0xc0 + u / 0x40, 0x80 + u % 0x40]
    else [0xe0 + u / 0x1000, 0x80 + u / 0x40 % 0x40, 0x80 + u % 0x40]
  }

  function Encode(units: seq<u2>): seq<u1> {
    if units == [] then [] else UnitBytes(units[0]) + Encode(units[1..])
  }

  // The letter e, the same with an acute accent, the euro sign, and U+0000, which does not end a string.
  lemma EncodedExamples()
    ensures UnitBytes(0x65) == [0x65] && UnitBytes(0xe9) == [0xc3, 0xa9] && UnitBytes(0x20ac) == [0xe2, 0x82, 0xac]
    ensures UnitBytes(0) == [0xc0, 0x80]
  {
  }

  // dexGetUtf16FromUtf8, which looks at the first byte only to tell how many there are
  function UnitAt(mem: Memory, pos: nat): L.Read<u2> {
    var one, two, three := mem(pos), mem(pos + 1), mem(pos + 2);
    if one < 0x80 then L.Read(one, pos + 1)
    else if one / 0x20 % 2 == 1 then L.Read(Value3(one, two, three), pos + 3)
    else L.Read(Value2(one, two), pos + 2)
  }

  function Value2(one: u1, two: u1): (value: u2)
    ensures value < 0x800
  {
    one % 0x20 * 0x40 + two % 0x40
  }

  function Value3(one: u1, two: u1, three: u1): u2 {
    one % 0x10 * 0x1000 + two % 0x40 * 0x40 + three % 0x40
  }

  predicate IsContinuation(b: u1) {
    0x80 <= b < 0xc0
  }

  // the three parts of a unit, and back
  lemma Parts(u: u2)
    ensures u == u / 0x1000 * 0x1000 + u / 0x40 % 0x40 * 0x40 + u % 0x40
    ensures u / 0x40 == u / 0x1000 * 0x40 + u / 0x40 % 0x40
  {
  }

  lemma Join3(u: u2)
    ensures Value3(0xe0 + u / 0x1000, 0x80 + u / 0x40 % 0x40, 0x80 + u % 0x40) == u
  {
    Parts(u);
    assert (0xe0 + u / 0x1000) % 0x10 == u / 0x1000;
  }

  lemma Join2(u: u2)
    requires u < 0x800
    ensures Value2(0xc0 + u / 0x40, 0x80 + u % 0x40) == u
  {
  }

  lemma Split3(one: u1, two: u1, three: u1)
    requires 0xe0 <= one < 0xf0 && IsContinuation(two) && IsContinuation(three)
    ensures var u := Value3(one, two, three);
            0xe0 + u / 0x1000 == one && 0x80 + u / 0x40 % 0x40 == two && 0x80 + u % 0x40 == three
  {
    var x, y, z := one - 0xe0, two - 0x80, three - 0x80;
    var u := x * 0x1000 + y * 0x40 + z;
    assert u / 0x40 == x * 0x40 + y;
  }

  lemma Split2(one: u1, two: u1)
    requires 0xc0 <= one < 0xe0 && IsContinuation(two)
    ensures var u := Value2(one, two); 0xc0 + u / 0x40 == one && 0x80 + u % 0x40 == two
  {
  }

  lemma StartBits(one: u1)
    requires one >= 0xc0
    ensures one < 0xe0 ==> one / 0x20 % 2 == 0
    ensures 0xe0 <= one < 0xf0 ==> one / 0x20 % 2 == 1
  {
  }

  // The decoder undoes the encoding.
  lemma DecodesUnit(mem: Memory, pos: nat, u: u2)
    requires At(mem, pos, UnitBytes(u))
    ensures UnitAt(mem, pos) == L.Read(u, pos + |UnitBytes(u)|)
    ensures mem(pos) != 0
  {
    hide Value2, Value3, At;
    var bytes := UnitBytes(u);
    AtBytes(mem, pos, bytes);
    if |bytes| > 1 {
      StartBits(bytes[0]);
    }
    if |bytes| == 2 {
      Join2(u);
    } else if |bytes| == 3 {
      Join3(u);
    }
  }

  // The units a terminated string decodes to; any bytes will do, overlong ones too.
  ghost predicate Decodes(mem: Memory, pos: nat, units: seq<u2>)
    decreases |units|
  {
    if units == [] then mem(pos) == 0
    else mem(pos) != 0 && UnitAt(mem, pos).value == units[0] && Decodes(mem, UnitAt(mem, pos).next, units[1..])
  }

  lemma {:induction false} DecodesOneWay(mem: Memory, pos: nat, a: seq<u2>, b: seq<u2>)
    requires Decodes(mem, pos, a) && Decodes(mem, pos, b)
    ensures a == b
    decreases |a|
  {
    if a != [] && b != [] {
      DecodesOneWay(mem, UnitAt(mem, pos).next, a[1..], b[1..]);
      assert a == [a[0]] + a[1..] && b == [b[0]] + b[1..];
    }
  }

  lemma {:induction false} EncodingDecodes(mem: Memory, pos: nat, units: seq<u2>)
    requires At(mem, pos, Encode(units) + [0])
    ensures Decodes(mem, pos, units)
    decreases |units|
  {
    if units == [] {
      assert mem(pos + 0) == (Encode(units) + [0])[0];
    } else {
      assert Encode(units) + [0] == UnitBytes(units[0]) + (Encode(units[1..]) + [0]);
      AtConcat(mem, pos, UnitBytes(units[0]), Encode(units[1..]) + [0]);
      DecodesUnit(mem, pos, units[0]);
      EncodingDecodes(mem, pos + |UnitBytes(units[0])|, units[1..]);
    }
  }

  // ----- intraVerifyStringDataItem -----

  // What is at pos is the encoding of the unit it decodes to.
  ghost predicate Canonical(mem: Memory, pos: nat) {
    At(mem, pos, UnitBytes(UnitAt(mem, pos).value))
  }

  // The end of n canonical units that start inside the file, and the terminator after them.
  ghost function VerifiedEnd(mem: Memory, data: nat, fileEnd: nat, n: nat): Option<nat>
    decreases n
  {
    if n == 0 then (if mem(data) == 0 then Some(data + 1) else None)
    else if data >= fileEnd || !Canonical(mem, data) then None
    else VerifiedEnd(mem, UnitAt(mem, data).next, fileEnd, n - 1)
  }

  // up to three bytes, one by one
  lemma AtBytes(mem: Memory, pos: nat, bytes: seq<u1>)
    requires 1 <= |bytes| <= 3
    ensures At(mem, pos, bytes) <==>
            && mem(pos) == bytes[0]
            && (|bytes| > 1 ==> mem(pos + 1) == bytes[1])
            && (|bytes| > 2 ==> mem(pos + 2) == bytes[2])
  {
    assert At(mem, pos, bytes) ==> mem(pos + 0) == bytes[0];
    assert At(mem, pos, bytes) && |bytes| > 1 ==> mem(pos + 1) == bytes[1];
    assert At(mem, pos, bytes) && |bytes| > 2 ==> mem(pos + 2) == bytes[2];
  }

  lemma OneByte(mem: Memory, pos: nat)
    requires mem(pos) < 0x80
    ensures Canonical(mem, pos) <==> mem(pos) != 0
  {
    AtBytes(mem, pos, UnitBytes(mem(pos)));
  }

  lemma IllegalStart(mem: Memory, pos: nat)
    requires 0x80 <= mem(pos) < 0xc0 || mem(pos) >= 0xf0
    ensures !Canonical(mem, pos)
  {
    hide Value2, Value3, UnitAt, At;
    AtBytes(mem, pos, UnitBytes(UnitAt(mem, pos).value));
  }

  lemma TwoBytes(mem: Memory, pos: nat)
    requires 0xc0 <= mem(pos) < 0xe0
    ensures Canonical(mem, pos) <==>
            && IsContinuation(mem(pos + 1))
            && (Value2(mem(pos), mem(pos + 1)) == 0 || Value2(mem(pos), mem(pos + 1)) >= 0x80)
  {
    hide Value2, Value3, At;
    StartBits(mem(pos));
    AtBytes(mem, pos, UnitBytes(Value2(mem(pos), mem(pos + 1))));
    if IsContinuation(mem(pos + 1)) {
      Split2(mem(pos), mem(pos + 1));
    }
  }

  lemma ThreeBytes(mem: Memory, pos: nat)
    requires 0xe0 <= mem(pos) < 0xf0
    ensures Canonical(mem, pos) <==>
            && IsContinuation(mem(pos + 1)) && IsContinuation(mem(pos + 2))
            && Value3(mem(pos), mem(pos + 1), mem(pos + 2)) >= 0x800
  {
    hide Value2, Value3, At;
    StartBits(mem(pos));
    AtBytes(mem, pos, UnitBytes(Value3(mem(pos), mem(pos + 1), mem(pos + 2))));
    if IsContinuation(mem(pos + 1)) && IsContinuation(mem(pos + 2)) {
      Split3(mem(pos), mem(pos + 1), mem(pos + 2));
    }
  }

  lemma StepsOver(mem: Memory, pos: nat)
    ensures mem(pos) < 0x80 ==> UnitAt(mem, pos).next == pos + 1
    ensures 0xc0 <= mem(pos) < 0xe0 ==> UnitAt(mem, pos).next == pos + 2
    ensures 0xe0 <= mem(pos) < 0xf0 ==> UnitAt(mem, pos).next == pos + 3
  {
    if mem(pos) >= 0xc0 {
      StartBits(mem(pos));
    }
  }

  lemma CanonicalStep(mem: Memory, pos: nat)
    requires Canonical(mem, pos)
    ensures UnitAt(mem, pos).next == pos + |UnitBytes(UnitAt(mem, pos).value)| && mem(pos) != 0
  {
    DecodesUnit(mem, pos, UnitAt(mem, pos).value);
  }

  // The end of a string_data_item, if it is acceptable: its size, then that many units.
  ghost function StringDataEnd(mem: Memory, ptr: nat, fileEnd: nat): Option<nat> {
    var size := L.UnsignedAt(mem, ptr);
    if L.Verified(mem, ptr, Some(fileEnd)) then VerifiedEnd(mem, size.next, fileEnd, size.value) else None
  }

  method IntraVerifyStringDataItem(mem: Memory, ptr: nat, fileEnd: nat) returns (end: Option<nat>)
    ensures end == StringDataEnd(mem, ptr, fileEnd)
  {
    hide L.UnsignedAt, L.Verified, UnitBytes, Canonical, UnitAt, Value2, Value3, IsContinuation;
    var utf16Size, start, okay := L.ReadAndVerifyUnsigned(mem, ptr, Some(fileEnd), true);
    var data: nat := start;
    if !okay {
      return None;
    }
    var i := 0;
    while i < utf16Size
      invariant i <= utf16Size
      invariant VerifiedEnd(mem, data, fileEnd, utf16Size - i) == VerifiedEnd(mem, start, fileEnd, utf16Size)
    {
      if data >= fileEnd {
        return None;
      }

      ghost var pos := data;
      StepsOver(mem, pos);
      var byte1 := mem(data);
      data := data + 1;
      match byte1 / 0x10 {
        case 0 =>
          OneByte(mem, pos);
          if byte1 == 0 {
            return None;
          }
        case 1 | 2 | 3 | 4 | 5 | 6 | 7 =>
          OneByte(mem, pos);
        case 8 | 9 | 10 | 11 | 15 =>
          IllegalStart(mem, pos);
          return None;
        case 14 =>
          ThreeBytes(mem, pos);
          var byte2 := mem(data);
          data := data + 1;
          if !IsContinuation(byte2) {
            return None;
          }
          var byte3 := mem(data);
          data := data + 1;
          if !IsContinuation(byte3) {
            return None;
          }
          var value := Value3(byte1, byte2, byte3);
          if value < 0x800 {
            return None;
          }
        case _ =>
          TwoBytes(mem, pos);
          var byte2 := mem(data);
          data := data + 1;
          if !IsContinuation(byte2) {
            return None;
          }
          var value := Value2(byte1, byte2);
          if value != 0 && value < 0x80 {
            return None;
          }
      }
      i := i + 1;
    }
    data := data + 1;
    if mem(data - 1) != 0 {
      return None;
    }
    return Some(data);
  }

  // the last unit, and so every unit, starts inside the file
  ghost predicate StartsInside(data: nat, fileEnd: nat, units: seq<u2>) {
    units == [] || data + |Encode(units[..|units| - 1])| < fileEnd
  }

  lemma NothingStarts(mem: Memory, data: nat, fileEnd: nat)
    requires mem(data) == 0
    ensures StartsInside(data, fileEnd, []) && At(mem, data, Encode([]) + [0])
  {
  }

  lemma OneMoreStarts(data: nat, fileEnd: nat, u: u2, rest: seq<u2>)
    ensures StartsInside(data, fileEnd, [u] + rest)
         == (data < fileEnd && StartsInside(data + |UnitBytes(u)|, fileEnd, rest))
  {
    if rest != [] {
      var units := [u] + rest;
      assert units[..|units| - 1] == [u] + rest[..|rest| - 1];
      EncodeCons(u, rest[..|rest| - 1]);
    }
  }

  // Accepted is exactly what is the encoding of as many units as the item says, and a terminator.
  lemma {:induction false} AcceptedIsEncoding(mem: Memory, data: nat, fileEnd: nat, n: nat) returns (units: seq<u2>)
    requires VerifiedEnd(mem, data, fileEnd, n).Some?
    ensures |units| == n && At(mem, data, Encode(units) + [0]) && StartsInside(data, fileEnd, units)
    ensures VerifiedEnd(mem, data, fileEnd, n) == Some(data + |Encode(units)| + 1)
    decreases n
  {
    hide UnitAt, UnitBytes, StartsInside;
    if n == 0 {
      units := [];
      NothingStarts(mem, data, fileEnd);
    } else {
      var u := UnitAt(mem, data).value;
      CanonicalStep(mem, data);
      var rest := AcceptedIsEncoding(mem, data + |UnitBytes(u)|, fileEnd, n - 1);
      units := [u] + rest;
      EncodeCons(u, rest);
      assert Encode(units) + [0] == UnitBytes(u) + (Encode(rest) + [0]);
      AtJoin(mem, data, UnitBytes(u), Encode(rest) + [0]);
      OneMoreStarts(data, fileEnd, u, rest);
    }
  }

  lemma {:induction false} EncodingIsAccepted(mem: Memory, data: nat, fileEnd: nat, units: seq<u2>)
    requires At(mem, data, Encode(units) + [0]) && StartsInside(data, fileEnd, units)
    ensures VerifiedEnd(mem, data, fileEnd, |units|) == Some(data + |Encode(units)| + 1)
    decreases |units|
  {
    hide UnitAt, UnitBytes, StartsInside;
    if units == [] {
      assert mem(data + 0) == (Encode(units) + [0])[0];
    } else {
      var u, rest := units[0], units[1..];
      assert Encode(units) + [0] == UnitBytes(u) + (Encode(rest) + [0]);
      AtConcat(mem, data, UnitBytes(u), Encode(rest) + [0]);
      DecodesUnit(mem, data, u);
      assert units == [u] + rest;
      OneMoreStarts(data, fileEnd, u, rest);
      EncodingIsAccepted(mem, data + |UnitBytes(u)|, fileEnd, rest);
    }
  }

  lemma EncodeCons(u: u2, rest: seq<u2>)
    ensures Encode([u] + rest) == UnitBytes(u) + Encode(rest)
  {
    assert ([u] + rest)[1..] == rest;
  }

  lemma AtJoin(mem: Memory, pos: nat, left: seq<u1>, right: seq<u1>)
    requires At(mem, pos, left) && At(mem, pos + |left|, right)
    ensures At(mem, pos, left + right)
  {
    forall k | 0 <= k < |left + right|
      ensures mem(pos + k) == (left + right)[k]
    {
      if k >= |left| {
        assert mem(pos + |left| + (k - |left|)) == right[k - |left|];
      }
    }
  }

  // An accepted string decodes to exactly as many units as the item says.
  lemma AcceptedDecodes(mem: Memory, data: nat, fileEnd: nat, n: nat) returns (units: seq<u2>)
    requires VerifiedEnd(mem, data, fileEnd, n).Some?
    ensures |units| == n && Decodes(mem, data, units)
    ensures forall other | Decodes(mem, data, other) :: other == units
  {
    units := AcceptedIsEncoding(mem, data, fileEnd, n);
    EncodingDecodes(mem, data, units);
    forall other | Decodes(mem, data, other)
      ensures other == units
    {
      DecodesOneWay(mem, data, other, units);
    }
  }

  // ----- dexUtf8Cmp -----

  // lexicographic order; a shorter one comes before what it is a prefix of
  function Compare(a: seq<int>, b: seq<int>): int {
    if a == [] then (if b == [] then 0 else -1)
    else if b == [] then 1
    else if a[0] != b[0] then a[0] - b[0]
    else Compare(a[1..], b[1..])
  }

  // The first k elements are the same, and then a ends or has the smaller element.
  predicate LessAt(a: seq<int>, b: seq<int>, k: nat) {
    k <= |a| && k < |b| && a[..k] == b[..k] && (k == |a| || a[k] < b[k])
  }

  // So a negative result means that a comes first in lexicographic order.
  lemma {:induction false} CompareIsLexicographic(a: seq<int>, b: seq<int>)
    ensures Compare(a, b) < 0 <==> exists k: nat :: LessAt(a, b, k)
  {
    if a == [] || b == [] || a[0] != b[0] {
      if Compare(a, b) < 0 {
        assert LessAt(a, b, 0);
      }
      forall k: nat | LessAt(a, b, k)
        ensures Compare(a, b) < 0
      {
        if k > 0 {
          assert a[..k][0] == b[..k][0];
        }
      }
    } else {
      CompareIsLexicographic(a[1..], b[1..]);
      if k: nat :| LessAt(a[1..], b[1..], k) {
        assert a[..k + 1] == [a[0]] + a[1..][..k] && b[..k + 1] == [b[0]] + b[1..][..k];
        assert LessAt(a, b, k + 1);
      }
      if k: nat :| LessAt(a, b, k) {
        assert a[1..][..k - 1] == a[..k][1..] && b[1..][..k - 1] == b[..k][1..];
        assert LessAt(a[1..], b[1..], k - 1);
      }
    }
  }

  method Utf8Cmp(mem: Memory, s1: nat, s2: nat, ghost units1: seq<u2>, ghost units2: seq<u2>) returns (diff: int)
    requires Decodes(mem, s1, units1) && Decodes(mem, s2, units2)
    ensures diff == Compare(units1, units2)
  {
    hide UnitAt;
    var p1: nat, p2: nat := s1, s2;
    ghost var rest1, rest2 := units1, units2;
    while true
      invariant Decodes(mem, p1, rest1) && Decodes(mem, p2, rest2)
      invariant Compare(rest1, rest2) == Compare(units1, units2)
      decreases |rest1|
    {
      if mem(p1) == 0 {
        if mem(p2) == 0 {
          return 0;
        }
        return -1;
      } else if mem(p2) == 0 {
        return 1;
      }
      var utf1, utf2 := UnitAt(mem, p1), UnitAt(mem, p2);
      p1, p2 := utf1.next, utf2.next;
      diff := utf1.value - utf2.value;
      if diff != 0 {
        return diff;
      }
      rest1, rest2 := rest1[1..], rest2[1..];
    }
  }

  // ----- A total order, 0 only for identical bytes -----

  lemma {:induction false} CompareIsZero(a: seq<int>, b: seq<int>)
    ensures Compare(a, b) == 0 <==> a == b
  {
    if a != [] && b != [] && a[0] == b[0] {
      CompareIsZero(a[1..], b[1..]);
      assert a == [a[0]] + a[1..] && b == [b[0]] + b[1..];
    }
  }

  lemma {:induction false} CompareReverses(a: seq<int>, b: seq<int>)
    ensures Compare(b, a) == -Compare(a, b)
  {
    if a != [] && b != [] && a[0] == b[0] {
      CompareReverses(a[1..], b[1..]);
    }
  }

  lemma {:induction false} CompareIsTransitive(a: seq<int>, b: seq<int>, c: seq<int>)
    requires Compare(a, b) < 0 && Compare(b, c) < 0
    ensures Compare(a, c) < 0
  {
    if a != [] && b != [] && c != [] && a[0] == b[0] == c[0] {
      CompareIsTransitive(a[1..], b[1..], c[1..]);
    }
  }

  lemma {:induction false} CompareAppended(p: seq<int>, a: seq<int>, b: seq<int>)
    ensures Compare(p + a, p + b) == Compare(a, b)
  {
    if p == [] {
      assert p + a == a && p + b == b;
    } else {
      assert (p + a)[1..] == p[1..] + a && (p + b)[1..] == p[1..] + b;
      CompareAppended(p[1..], a, b);
    }
  }

  // The first difference decides.
  lemma {:induction false} FirstDifference(a: seq<int>, b: seq<int>, i: nat)
    requires i < |a| && i < |b| && a[i] != b[i] && forall k | 0 <= k < i :: a[k] == b[k]
    ensures Compare(a, b) == a[i] - b[i]
  {
    if i > 0 {
      FirstDifference(a[1..], b[1..], i - 1);
    }
  }

  function Sign(x: int): int {
    if x < 0 then -1 else if x > 0 then 1 else 0
  }

  // Two different units: their first bytes differ as the units do, except that an encoded U+0000 comes after ASCII.
  lemma UnitsOrder(u: u2, v: u2, a: seq<u1>, b: seq<u1>)
    requires u < v
    ensures Sign(Compare(UnitBytes(u) + a, UnitBytes(v) + b)) == if u == 0 && v < 0x80 then 1 else -1
  {
    hide Compare;
    var x, y := UnitBytes(u) + a, UnitBytes(v) + b;
    Parts(u);
    Parts(v);
    assert forall k | 0 <= k < |UnitBytes(u)| :: x[k] == UnitBytes(u)[k];
    assert forall k | 0 <= k < |UnitBytes(v)| :: y[k] == UnitBytes(v)[k];
    if x[0] != y[0] {
      FirstDifference(x, y, 0);
    } else if x[1] != y[1] {
      FirstDifference(x, y, 1);
    } else {
      FirstDifference(x, y, 2);
    }
  }

  // Where the strings first differ, one has an encoded U+0000 and the other an ASCII character.
  predicate ZeroMeetsAscii(a: seq<u2>, b: seq<u2>) {
    && a != [] && b != []
    && if a[0] == b[0] then ZeroMeetsAscii(a[1..], b[1..])
       else (a[0] == 0 && b[0] < 0x80) || (b[0] == 0 && a[0] < 0x80)
  }

  // dexUtf8Cmp orders accepted strings as strcmp orders their bytes, except in that one case.
  lemma {:induction false} AgreesWithStrcmp(a: seq<u2>, b: seq<u2>)
    ensures Sign(Compare(a, b)) == Sign(Compare(Encode(a), Encode(b))) <==> !ZeroMeetsAscii(a, b)
  {
    if a != [] && b != [] {
      if a[0] == b[0] {
        CompareAppended(UnitBytes(a[0]), Encode(a[1..]), Encode(b[1..]));
        AgreesWithStrcmp(a[1..], b[1..]);
      } else if a[0] < b[0] {
        UnitsOrder(a[0], b[0], Encode(a[1..]), Encode(b[1..]));
      } else {
        UnitsOrder(b[0], a[0], Encode(b[1..]), Encode(a[1..]));
        CompareReverses(Encode(a), Encode(b));
      }
    }
  }

  lemma {:induction false} NoZeroMeetsNothing(a: seq<u2>, b: seq<u2>)
    requires 0 !in a && 0 !in b
    ensures !ZeroMeetsAscii(a, b)
  {
    if a != [] && b != [] && a[0] == b[0] {
      NoZeroMeetsNothing(a[1..], b[1..]);
    }
  }

  // Canonical encodings are the same bytes only if they are the same units.
  lemma EncodeIsInjective(a: seq<u2>, b: seq<u2>)
    ensures Encode(a) == Encode(b) <==> a == b
  {
    if Encode(a) == Encode(b) && a != b {
      var mem: Memory := (k: nat) => if k < |Encode(a)| then Encode(a)[k] else 0;
      assert At(mem, 0, Encode(a) + [0]) && At(mem, 0, Encode(b) + [0]);
      EncodingDecodes(mem, 0, a);
      EncodingDecodes(mem, 0, b);
      DecodesOneWay(mem, 0, a, b);
    }
  }
}
