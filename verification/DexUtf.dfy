// Member names and type descriptors: libdex/DexUtf.h and libdex/DexUtf.cpp.

module DexUtf {
  import opened Common
  import opened Mutf8

  const PAREN_OPEN: u1 := 0x28
  const PAREN_CLOSE: u1 := 0x29
  const DOT: u1 := 0x2e
  const SLASH: u1 := 0x2f
  const SEMICOLON: u1 := 0x3b
  const LESS: u1 := 0x3c
  const GREATER: u1 := 0x3e
  const CAP_L: u1 := 0x4c
  const CAP_V: u1 := 0x56
  const BRACKET: u1 := 0x5b

  // B C D F I J S Z
  predicate IsPrimitive(c: u1) {
    c in {0x42, 0x43, 0x44, 0x46, 0x49, 0x4a, 0x53, 0x5a}
  }

  function CodeOf(c: char): u1
    requires c as int < 0x80
  {
    c as int
  }

  // text in ASCII
  function Ascii(text: string): seq<u1>
    requires forall c | c in text :: c as int < 0x80
  {
    seq(|text|, i requires 0 <= i < |text| => assert text[i] in text; CodeOf(text[i]))
  }

  // The constants are the characters that they are for.
  lemma Characters()
    ensures [PAREN_OPEN, PAREN_CLOSE, DOT, SLASH, SEMICOLON] == Ascii("()./;")
    ensures [LESS, GREATER, CAP_L, CAP_V, BRACKET] == Ascii("<>LV[")
    ensures forall c: u1 :: IsPrimitive(c) <==> c in Ascii("BCDFIJSZ")
  {
    var primitives := Ascii("BCDFIJSZ");
    assert primitives == [0x42, 0x43, 0x44, 0x46, 0x49, 0x4a, 0x53, 0x5a];
  }

  // ----- Characters of member names -----

  // DEX_MEMBER_VALID_LOW_ASCII
  function LowAsciiWord(i: nat): u4 {
    match i
    case 0 => 0x0000_0000
    case 1 => 0x03ff_2010
    case 2 => 0x87ff_fffe
    case _ => 0x07ff_fffe
  }

  function BitOf(word: nat, bit: nat): bool
    decreases bit
  {
    if bit == 0 then word % 2 == 1 else BitOf(word / 2, bit - 1)
  }

  // digits, letters, $, - and _
  predicate IsLowNameChar(c: nat) {
    0x30 <= c <= 0x39 || 0x41 <= c <= 0x5a || 0x61 <= c <= 0x7a || c == 0x24 || c == 0x2d || c == 0x5f
  }

  lemma LowAsciiTable(c: nat)
    requires c < 0x80
    ensures BitOf(LowAsciiWord(c / 0x20), c % 0x20) <==> IsLowNameChar(c)
  {
    match c / 0x20
    case 0 => Word0(c % 0x20);
    case 1 => Word1(c % 0x20);
    case 2 => Word2(c % 0x20);
    case _ => Word3(c % 0x20);
  }

  lemma Word0(bit: nat)
    ensures !BitOf(0, bit)
  {
    if bit > 0 {
      Word0(bit - 1);
    }
  }

  lemma NibbleUp(w: nat, bit: nat)
    requires bit >= 4
    ensures BitOf(w, bit) == BitOf(w / 0x10, bit - 4)
  {
    assert BitOf(w, bit) == BitOf(w / 2 / 2, bit - 2);
    assert BitOf(w / 4, bit - 2) == BitOf(w / 4 / 2 / 2, bit - 4);
  }

  lemma ByteUp(w: nat, bit: nat)
    requires bit >= 8
    ensures BitOf(w, bit) == BitOf(w / 0x100, bit - 8)
  {
    hide BitOf;
    NibbleUp(w, bit);
    NibbleUp(w / 0x10, bit - 4);
  }

  lemma InNibble(w: nat, bit: nat)
    requires bit < 4
    ensures BitOf(w, bit) == if bit == 0 then w % 2 == 1 else if bit == 1 then w / 2 % 2 == 1
                             else if bit == 2 then w / 4 % 2 == 1 else w / 8 % 2 == 1
  {
    assert bit >= 2 ==> BitOf(w, bit) == BitOf(w / 2 / 2, bit - 2);
  }

  lemma InByte(w: nat, bit: nat)
    requires bit < 8
    ensures BitOf(w, bit) == if bit == 0 then w % 2 == 1 else if bit == 1 then w / 2 % 2 == 1
                             else if bit == 2 then w / 4 % 2 == 1 else if bit == 3 then w / 8 % 2 == 1
                             else if bit == 4 then w / 0x10 % 2 == 1 else if bit == 5 then w / 0x20 % 2 == 1
                             else if bit == 6 then w / 0x40 % 2 == 1 else w / 0x80 % 2 == 1
  {
    hide BitOf;
    if bit < 4 {
      InNibble(w, bit);
    } else {
      NibbleUp(w, bit);
      InNibble(w / 0x10, bit - 4);
      assert w / 0x10 / 2 == w / 0x20 && w / 0x10 / 4 == w / 0x40 && w / 0x10 / 8 == w / 0x80;
    }
  }

  lemma BitIsInByte(w: nat, bit: nat)
    requires bit < 0x20
    ensures BitOf(w, bit) == BitOf(if bit < 8 then w else if bit < 0x10 then w / 0x100
                                   else if bit < 0x18 then w / 0x1_0000 else w / 0x100_0000, bit % 8)
  {
    hide BitOf;
    if bit >= 8 {
      ByteUp(w, bit);
    }
    if bit >= 0x10 {
      ByteUp(w / 0x100, bit - 8);
    }
    if bit >= 0x18 {
      ByteUp(w / 0x1_0000, bit - 0x10);
    }
  }

  lemma Word1(bit: nat)
    requires bit < 0x20
    ensures BitOf(0x03ff_2010, bit) <==> IsLowNameChar(0x20 + bit)
  {
    hide BitOf;
    BitIsInByte(0x03ff_2010, bit);
    InByte(0x03ff_2010, bit % 8);
    InByte(0x03ff_20, bit % 8);
    InByte(0x03ff, bit % 8);
    InByte(0x03, bit % 8);
  }

  lemma Word2(bit: nat)
    requires bit < 0x20
    ensures BitOf(0x87ff_fffe, bit) <==> IsLowNameChar(0x40 + bit)
  {
    hide BitOf;
    BitIsInByte(0x87ff_fffe, bit);
    InByte(0x87ff_fffe, bit % 8);
    InByte(0x87ff_ff, bit % 8);
    InByte(0x87ff, bit % 8);
    InByte(0x87, bit % 8);
  }

  lemma Word3(bit: nat)
    requires bit < 0x20
    ensures BitOf(0x07ff_fffe, bit) <==> IsLowNameChar(0x60 + bit)
  {
    hide BitOf;
    BitIsInByte(0x07ff_fffe, bit);
    InByte(0x07ff_fffe, bit % 8);
    InByte(0x07ff_ff, bit % 8);
    InByte(0x07ff, bit % 8);
    InByte(0x07, bit % 8);
  }

  // a character of a name, in a multibyte encoding; surrogates are not covered
  predicate IsHighNameUnit(u: nat) {
    && u > 0xa0 && !(0xd800 <= u <= 0xdfff)
    && !(0x2000 <= u <= 0x200f) && !(0x2028 <= u <= 0x202f) && !(0xfff0 <= u <= 0xffff)
  }

  // the unit at the start of a string
  function Unit(rest: seq<u1>): (r: L.Read<u2>)
    ensures r.next > 0
  {
    UnitAt(Bytes(rest), 0)
  }

  // No character runs into the terminator.
  predicate Whole(rest: seq<u1>) {
    rest == [] || (Unit(rest).next <= |rest| && Whole(rest[Unit(rest).next..]))
  }

  // dexIsValidMemberNameUtf8: how many bytes a valid character takes
  function MemberChar(rest: seq<u1>): (n: Option<nat>)
    requires rest != [] && Whole(rest)
    ensures n.Some? ==> 0 < n.value <= |rest| && Whole(rest[n.value..])
  {
    if rest[0] <= 0x7f then
      if BitOf(LowAsciiWord(rest[0] / 0x20), rest[0] % 0x20) then Some(1) else None
    else MultibyteChar(rest)
  }

  // dexIsValidMemberNameUtf8_0
  function MultibyteChar(rest: seq<u1>): (n: Option<nat>)
    requires rest != [] && Whole(rest)
    ensures n.Some? ==> 0 < n.value <= |rest| && Whole(rest[n.value..])
  {
    var unit := Unit(rest);
    var utf16 := unit.value;
    match utf16 / 0x100
    case 0x00 => if utf16 > 0x00a0 then Some(unit.next) else None
    case 0xd8 | 0xd9 | 0xda | 0xdb =>
      var trail := Unit(rest[unit.next..]);
      if 0xdc00 <= trail.value <= 0xdfff then (TrailInside(rest[unit.next..]); Two(rest); Some(unit.next + trail.next))
      else None
    case 0xdc | 0xdd | 0xde | 0xdf => None
    case 0x20 | 0xff =>
      if utf16 - utf16 % 8 in {0x2000, 0x2008, 0x2028, 0xfff0, 0xfff8} then None else Some(unit.next)
    case _ => Some(unit.next)
  }

  // a terminator does not pass for a trailing surrogate
  lemma TrailInside(rest: seq<u1>)
    requires Unit(rest).value >= 0xdc00
    ensures rest != []
  {
  }

  lemma Two(rest: seq<u1>)
    requires rest != [] && Whole(rest) && rest[Unit(rest).next..] != []
    ensures var k := Unit(rest).next + Unit(rest[Unit(rest).next..]).next; k <= |rest| && Whole(rest[k..])
  {
    var j := Unit(rest).next;
    var k := Unit(rest[j..]).next;
    assert rest[j..][k..] == rest[j + k..];
  }

  // ----- isValidTypeDescriptorOrClassName -----

  // What follows the L of a descriptor, or a class name; first says that a name has to start here.
  predicate ClassName(rest: seq<u1>, isClassName: bool, dotSeparator: bool, first: bool)
    requires Whole(rest)
    decreases |rest|
  {
    if rest == [] then isClassName && !first
    else if rest[0] == SEMICOLON then !isClassName && !first && |rest| == 1
    else if rest[0] == SLASH || rest[0] == DOT then
      dotSeparator == (rest[0] == DOT) && !first && ClassName(rest[1..], isClassName, dotSeparator, true)
    else match MemberChar(rest)
      case None => false
      case Some(n) => ClassName(rest[n..], isClassName, dotSeparator, false)
  }

  // the number of leading brackets
  function Dims(s: seq<int>): (n: nat)
    ensures n <= |s| && (n < |s| ==> s[n] != 0x5b) && forall k | 0 <= k < n :: s[k] == 0x5b
  {
    if s != [] && s[0] == 0x5b then 1 + Dims(s[1..]) else 0
  }

  lemma {:induction false} WholeAfterDims(s: seq<u1>, n: nat)
    requires Whole(s) && n <= Dims(s)
    ensures Whole(s[n..])
    decreases n
  {
    if n == 0 {
      assert s[0..] == s;
    } else {
      WholeAfterDims(s[1..], n - 1);
      assert s[1..][n - 1..] == s[n..];
    }
  }

  predicate IsValid(s: seq<u1>, isClassName: bool, dotSeparator: bool)
    requires Whole(s)
  {
    var n := Dims(s);
    WholeAfterDims(s, n);
    var core := s[n..];
    && n <= 255
    && if isClassName && n == 0 then ClassName(core, true, dotSeparator, true)
       else && core != []
            && if IsPrimitive(core[0]) then |core| == 1
               else if core[0] == CAP_V then n == 0 && |core| == 1
               else core[0] == CAP_L && ClassName(core[1..], false, dotSeparator, true)
  }

  method IsValidTypeDescriptorOrClassName(s: seq<u1>, isClassName: bool, dotSeparator: bool) returns (valid: bool)
    requires Whole(s)
    ensures valid == IsValid(s, isClassName, dotSeparator)
  {
    var isClass := isClassName;
    var arrayCount: nat := 0;
    while arrayCount < |s| && s[arrayCount] == BRACKET
      invariant arrayCount <= Dims(s)
      decreases |s| - arrayCount
    {
      arrayCount := arrayCount + 1;
    }
    if arrayCount > 255 {
      return false;
    }
    if arrayCount != 0 {
      isClass := false;
    }
    var at: nat := arrayCount;
    WholeAfterDims(s, at);
    ghost var core := s[at..];
    if !isClass {
      if at == |s| {
        return false;
      }
      var c := s[at];
      at := at + 1;
      assert core[1..] == s[at..];
      if IsPrimitive(c) {
        return at == |s|;
      } else if c == CAP_V {
        return arrayCount == 0 && at == |s|;
      } else if c != CAP_L {
        return false;
      }
    }
    valid := IsValidName(s, at, isClass, dotSeparator);
  }

  // the loop of isValidTypeDescriptorOrClassName, after an L or at the start of a class name
  method IsValidName(s: seq<u1>, start: nat, isClassName: bool, dotSeparator: bool) returns (valid: bool)
    requires start <= |s| && Whole(s[start..])
    ensures valid == ClassName(s[start..], isClassName, dotSeparator, true)
  {
    hide MemberChar, Unit, Whole;
    var at := start;
    var sepOrFirst := true;
    while true
      invariant at <= |s| && Whole(s[at..])
      invariant ClassName(s[at..], isClassName, dotSeparator, sepOrFirst)
             == ClassName(s[start..], isClassName, dotSeparator, true)
      decreases |s| - at
    {
      if at == |s| {
        return isClassName && !sepOrFirst;
      }
      var c := s[at];
      if c == SEMICOLON {
        return !isClassName && !sepOrFirst && at + 1 == |s|;
      } else if c == SLASH || c == DOT {
        if dotSeparator != (c == DOT) {
          return false;
        }
        if sepOrFirst {
          return false;
        }
        sepOrFirst := true;
        WholeAfterAscii(s[at..]);
        assert s[at..][1..] == s[at + 1..];
        at := at + 1;
      } else {
        var n := MemberChar(s[at..]);
        if n == None {
          return false;
        }
        assert s[at..][n.value..] == s[at + n.value..];
        at := at + n.value;
        sepOrFirst := false;
      }
    }
  }

  lemma WholeAfterAscii(rest: seq<u1>)
    requires rest != [] && Whole(rest) && rest[0] < 0x80
    ensures Whole(rest[1..])
  {
  }

  // ----- What is accepted, for strings that have been verified -----

  predicate IsNameUnit(u: u2) {
    if u < 0x80 then IsLowNameChar(u) else IsHighNameUnit(u)
  }

  predicate IsLead(u: u2) {
    0xd800 <= u <= 0xdbff
  }

  predicate IsTrail(u: u2) {
    0xdc00 <= u <= 0xdfff
  }

  // only name characters, surrogates only in pairs
  predicate IsName(units: seq<u2>) {
    units == []
    || (if IsLead(units[0]) then |units| > 1 && IsTrail(units[1]) && IsName(units[2..])
        else IsNameUnit(units[0]) && IsName(units[1..]))
  }

  // the parts between separators
  function Split(units: seq<u2>, sep: u2): (parts: seq<seq<u2>>)
    ensures |parts| > 0
  {
    if units == [] then [[]]
    else
      var rest := Split(units[1..], sep);
      if units[0] == sep then [[]] + rest else [[units[0]] + rest[0]] + rest[1..]
  }

  // names between separators, none of them empty; the first may be, if it is the rest of one
  ghost predicate Components(units: seq<u2>, sep: u2, first: bool) {
    var parts := Split(units, sep);
    && IsName(parts[0]) && (first ==> parts[0] != [])
    && forall k | 1 <= k < |parts| :: parts[k] != [] && IsName(parts[k])
  }

  ghost predicate IsClassName(units: seq<u2>, sep: u2) {
    Components(units, sep, true)
  }

  // up to 255 dimensions, then a primitive type, void if there are none, or a class name between L and ;
  ghost predicate IsTypeDescriptor(units: seq<u2>, sep: u2) {
    var n := Dims(units);
    var core := units[n..];
    && n <= 255 && core != []
    && if |core| == 1 then (core[0] < 0x80 && IsPrimitive(core[0])) || (n == 0 && core[0] == CAP_V)
       else core[0] == CAP_L && core[|core| - 1] == SEMICOLON && IsClassName(core[1..|core| - 1], sep)
  }

  lemma ComponentsSeparator(sep: u2, rest: seq<u2>, first: bool)
    ensures Components([sep] + rest, sep, first) <==> !first && Components(rest, sep, true)
  {
    hide IsName;
    EmptyIsName();
    var units, tail := [sep] + rest, Split(rest, sep);
    assert units[1..] == rest;
    var parts := Split(units, sep);
    assert parts == [[]] + tail;
    if Components(units, sep, first) {
      assert parts[1] == tail[0];
      forall k | 1 <= k < |tail|
        ensures tail[k] != [] && IsName(tail[k])
      {
        assert parts[k + 1] == tail[k];
      }
    }
  }

  lemma EmptyIsName()
    ensures IsName([])
  {
  }

  lemma SplitUnit(u: u2, rest: seq<u2>, sep: u2)
    requires u != sep
    ensures Split([u] + rest, sep) == [[u] + Split(rest, sep)[0]] + Split(rest, sep)[1..]
  {
    assert ([u] + rest)[1..] == rest;
  }

  lemma ComponentsUnit(u: u2, rest: seq<u2>, sep: u2, first: bool)
    requires u != sep && !IsLead(u)
    ensures Components([u] + rest, sep, first) <==> IsNameUnit(u) && Components(rest, sep, false)
  {
    SplitUnit(u, rest, sep);
    var parts := Split(rest, sep);
    assert ([u] + parts[0])[1..] == parts[0];
    assert forall k | 1 <= k < |parts| :: Split([u] + rest, sep)[k] == parts[k];
  }

  lemma ComponentsPair(u: u2, rest: seq<u2>, sep: u2, first: bool)
    requires IsLead(u) && sep < 0x80
    ensures Components([u] + rest, sep, first)
       <==> rest != [] && IsTrail(rest[0]) && Components(rest[1..], sep, false)
  {
    hide IsNameUnit;
    SplitUnit(u, rest, sep);
    var parts := Split(rest, sep);
    assert forall k | 1 <= k < |parts| :: Split([u] + rest, sep)[k] == parts[k];
    if rest != [] && IsTrail(rest[0]) {
      assert rest == [rest[0]] + rest[1..];
      SplitUnit(rest[0], rest[1..], sep);
      var after := Split(rest[1..], sep);
      assert ([u] + parts[0])[2..] == after[0];
      assert forall k | 1 <= k < |parts| :: parts[k] == after[k];
    }
  }

  // ----- Encoded strings, character by character -----

  lemma UnitOfEncoding(units: seq<u2>)
    requires units != []
    ensures Unit(Encode(units)) == L.Read(units[0], |UnitBytes(units[0])|)
    ensures |UnitBytes(units[0])| <= |Encode(units)| && Encode(units)[|UnitBytes(units[0])|..] == Encode(units[1..])
    ensures Encode(units)[0] < 0x80 <==> 0 < units[0] < 0x80
    ensures Encode(units)[0] < 0x80 ==> Encode(units)[0] == units[0] && |UnitBytes(units[0])| == 1
  {
    EncodeUnfolds(units);
    hide UnitAt, Encode;
    FirstByteIs(units[0]);
    hide UnitBytes;
    var e := Encode(units);
    forall k | 0 <= k < |UnitBytes(units[0])|
      ensures Bytes(e)(0 + k) == UnitBytes(units[0])[k]
    {
    }
    DecodesUnit(Bytes(e), 0, units[0]);
  }

  lemma EncodeUnfolds(units: seq<u2>)
    requires units != []
    ensures Encode(units) == UnitBytes(units[0]) + Encode(units[1..])
  {
  }

  lemma FirstByteIs(u: u2)
    ensures UnitBytes(u)[0] < 0x80 <==> 0 < u < 0x80
    ensures UnitBytes(u)[0] < 0x80 ==> UnitBytes(u) == [u]
  {
  }

  lemma {:induction false} EncodingIsWhole(units: seq<u2>)
    ensures Whole(Encode(units))
  {
    if units != [] {
      UnitOfEncoding(units);
      EncodingIsWhole(units[1..]);
    }
  }

  lemma EncodesNothing(units: seq<u2>)
    ensures Encode(units) == [] <==> units == []
  {
  }

  lemma MultibyteCharIs(rest: seq<u1>)
    requires rest != [] && Whole(rest)
    ensures var u := Unit(rest);
            MultibyteChar(rest) ==
              if IsLead(u.value) then
                if IsTrail(Unit(rest[u.next..]).value) then Some(u.next + Unit(rest[u.next..]).next) else None
              else if IsHighNameUnit(u.value) then Some(u.next)
              else None
  {
    hide Unit, Whole;
    var u := Unit(rest).value;
    assert u == u / 0x100 * 0x100 + u % 0x100;
  }

  // What a member name character takes of an encoded string.
  lemma CharOfEncoding(units: seq<u2>)
    requires units != []
    ensures Whole(Encode(units))
    ensures var n := MemberChar(Encode(units));
            if IsLead(units[0]) then
              if |units| > 1 && IsTrail(units[1]) then n.Some? && Encode(units)[n.value..] == Encode(units[2..])
              else n == None
            else if IsNameUnit(units[0]) then n.Some? && Encode(units)[n.value..] == Encode(units[1..])
            else n == None
  {
    hide BitOf, LowAsciiWord, Unit, Whole, UnitBytes, MultibyteChar, Encode;
    EncodingIsWhole(units);
    UnitOfEncoding(units);
    EncodesNothing(units);
    if Encode(units)[0] < 0x80 {
      LowAsciiTable(units[0]);
    } else {
      MultibyteCharIs(Encode(units));
    }
    if IsLead(units[0]) {
      if |units| > 1 {
        UnitOfEncoding(units[1..]);
        var j, k := |UnitBytes(units[0])|, |UnitBytes(units[1])|;
        assert Encode(units)[j..][k..] == Encode(units)[j + k..];
        assert units[1..][1..] == units[2..];
      } else {
        NoTrailAfterEnd();
      }
    }
  }

  lemma NoTrailAfterEnd()
    ensures Unit(Encode([])).value == 0
  {
  }

  // ----- The grammar -----

  // The rest of a class name, or of a descriptor after its L.
  ghost predicate Tail(units: seq<u2>, isClassName: bool, sep: u2, first: bool) {
    if isClassName then Components(units, sep, first)
    else units != [] && units[|units| - 1] == SEMICOLON && Components(units[..|units| - 1], sep, first)
  }

  function Separator(dot: bool): (sep: u2)
    ensures sep < 0x80
  {
    if dot then DOT else SLASH
  }

  lemma TailSeparator(isClassName: bool, sep: u2, rest: seq<u2>, first: bool)
    requires sep != SEMICOLON
    ensures Tail([sep] + rest, isClassName, sep, first) <==> !first && Tail(rest, isClassName, sep, true)
  {
    hide Components;
    var units := [sep] + rest;
    if isClassName {
      ComponentsSeparator(sep, rest, first);
    } else if rest != [] {
      assert units[..|units| - 1] == [sep] + rest[..|rest| - 1];
      ComponentsSeparator(sep, rest[..|rest| - 1], first);
    }
  }

  lemma TailUnit(u: u2, rest: seq<u2>, isClassName: bool, sep: u2, first: bool)
    requires u != sep && !IsLead(u) && u != SEMICOLON
    ensures Tail([u] + rest, isClassName, sep, first) <==> IsNameUnit(u) && Tail(rest, isClassName, sep, false)
  {
    hide Components, IsNameUnit;
    var units := [u] + rest;
    if isClassName {
      ComponentsUnit(u, rest, sep, first);
    } else if rest != [] {
      assert units[..|units| - 1] == [u] + rest[..|rest| - 1];
      ComponentsUnit(u, rest[..|rest| - 1], sep, first);
    }
  }

  lemma TailPair(u: u2, rest: seq<u2>, isClassName: bool, sep: u2, first: bool)
    requires IsLead(u) && sep < 0x80
    ensures Tail([u] + rest, isClassName, sep, first)
       <==> rest != [] && IsTrail(rest[0]) && Tail(rest[1..], isClassName, sep, false)
  {
    hide Components;
    var units := [u] + rest;
    if isClassName {
      ComponentsPair(u, rest, sep, first);
    } else if rest != [] {
      var front := rest[..|rest| - 1];
      assert units[..|units| - 1] == [u] + front;
      ComponentsPair(u, front, sep, first);
      if |rest| > 1 {
        assert front[1..] == rest[1..][..|rest[1..]| - 1];
      }
    }
  }

  lemma TailSemicolon(rest: seq<u2>, isClassName: bool, sep: u2, first: bool)
    requires sep != SEMICOLON
    ensures Tail([SEMICOLON] + rest, isClassName, sep, first) <==> !isClassName && !first && rest == []
  {
    var units: seq<u2> := [SEMICOLON] + rest;
    if isClassName {
      ComponentsUnit(SEMICOLON, rest, sep, first);
    } else if rest != [] {
      assert units[..|units| - 1] == [SEMICOLON] + rest[..|rest| - 1];
      ComponentsUnit(SEMICOLON, rest[..|rest| - 1], sep, first);
    } else {
      assert units[..0] == [];
    }
  }

  lemma {:induction false} ClassNameIsTail(units: seq<u2>, isClassName: bool, dot: bool, first: bool)
    ensures Whole(Encode(units))
    ensures ClassName(Encode(units), isClassName, dot, first) <==> Tail(units, isClassName, Separator(dot), first)
    decreases |units|
  {
    hide MemberChar, Whole, IsNameUnit, UnitBytes, Tail;
    EncodingIsWhole(units);
    if units == [] {
      EmptyTail(isClassName, Separator(dot), first);
    } else {
      var u, rest, sep := units[0], units[1..], Separator(dot);
      assert units == [u] + rest;
      UnitOfEncoding(units);
      CharOfEncoding(units);
      if u == SEMICOLON {
        TailSemicolon(rest, isClassName, sep, first);
        EncodesNothing(rest);
      } else if u == sep {
        TailSeparator(isClassName, sep, rest, first);
        ClassNameIsTail(rest, isClassName, dot, true);
      } else if IsLead(u) {
        TailPair(u, rest, isClassName, sep, first);
        if rest != [] {
          assert rest[1..] == units[2..];
          ClassNameIsTail(rest[1..], isClassName, dot, false);
        }
      } else {
        TailUnit(u, rest, isClassName, sep, first);
        SeparatorIsNoName(u);
        ClassNameIsTail(rest, isClassName, dot, false);
      }
    }
  }

  lemma EmptyTail(isClassName: bool, sep: u2, first: bool)
    ensures Tail([], isClassName, sep, first) <==> isClassName && !first
  {
  }

  lemma SeparatorIsNoName(u: u2)
    ensures u == SLASH || u == DOT ==> !IsNameUnit(u)
  {
  }

  lemma {:induction false} DimsOfEncoding(units: seq<u2>)
    ensures Dims(Encode(units)) == Dims(units) && Encode(units)[Dims(units)..] == Encode(units[Dims(units)..])
  {
    if units != [] {
      UnitOfEncoding(units);
      if units[0] == BRACKET {
        DimsOfEncoding(units[1..]);
        var n := Dims(units[1..]);
        assert units[1..][n..] == units[n + 1..];
        assert Encode(units)[1..][n..] == Encode(units)[n + 1..];
      } else {
        assert units[0..] == units && Encode(units)[0..] == Encode(units);
      }
    }
  }

  // On verified strings dexIsValidTypeDescriptor accepts exactly the type descriptors, and dexIsValidClassName
  // exactly these and the class names.
  lemma ValidIsGrammar(units: seq<u2>, isClassName: bool, dot: bool)
    ensures Whole(Encode(units))
    ensures IsValid(Encode(units), isClassName, dot) <==>
              if isClassName && Dims(units) == 0 then IsClassName(units, Separator(dot))
              else IsTypeDescriptor(units, Separator(dot))
  {
    hide ClassName, Whole, UnitBytes, Components, Encode, Dims;
    EncodingIsWhole(units);
    DimsOfEncoding(units);
    EncodesNothing(units[Dims(units)..]);
    var core := units[Dims(units)..];
    if isClassName && Dims(units) == 0 {
      ClassNameIsTail(core, true, dot, true);
      assert core == units;
    } else if core != [] {
      UnitOfEncoding(core);
      EncodesNothing(core[1..]);
      ClassNameIsTail(core[1..], false, dot, true);
      if |core| > 1 {
        assert core[1..][..|core[1..]| - 1] == core[1..|core| - 1];
      }
    }
  }

  // ----- The bytes of an accepted descriptor -----

  predicate IsNameByte(c: u1) {
    c >= 0x80 || IsLowNameChar(c) || c == SLASH || c == DOT
  }

  lemma NameUnitBytes(u: u2)
    requires IsNameUnit(u) || IsLead(u) || IsTrail(u) || u == SLASH || u == DOT
    ensures forall c | c in UnitBytes(u) :: IsNameByte(c)
  {
  }

  lemma EncodeNameUnit(u: u2, rest: seq<u2>)
    requires IsNameUnit(u) || IsLead(u) || IsTrail(u) || u == SLASH || u == DOT
    ensures var e, after := Encode([u] + rest), Encode(rest);
            |e| > |after| && e[|e| - |after|..] == after && forall k | 0 <= k < |e| - |after| :: IsNameByte(e[k])
  {
    hide IsNameByte;
    NameUnitBytes(u);
    EncodeCons(u, rest);
  }

  ghost predicate NamesThenSemicolon(e: seq<u1>) {
    e != [] && e[|e| - 1] == SEMICOLON && forall k | 0 <= k < |e| - 1 :: IsNameByte(e[k])
  }

  lemma Prolonged(e: seq<u1>, after: seq<u1>)
    requires NamesThenSemicolon(after) && |e| >= |after| && e[|e| - |after|..] == after
    requires forall k | 0 <= k < |e| - |after| :: IsNameByte(e[k])
    ensures NamesThenSemicolon(e)
  {
    hide IsNameByte;
    var n := |e| - |after|;
    forall k | 0 <= k < |e| - 1
      ensures IsNameByte(e[k])
    {
      if k >= n {
        assert e[k] == e[n..][k - n];
      }
    }
    assert e[|e| - 1] == e[n..][|after| - 1];
  }

  // A verified class descriptor has its only semicolon at the end, and no encoded U+0000.
  lemma {:induction false} TailBytes(units: seq<u2>, dot: bool, first: bool)
    requires Tail(units, false, Separator(dot), first)
    ensures NamesThenSemicolon(Encode(units)) && 0 !in units
    decreases |units|
  {
    hide Tail, IsNameUnit, NamesThenSemicolon, IsNameByte;
    ZeroIsNoName();
    EmptyTail(false, Separator(dot), first);
    var u, rest, sep := units[0], units[1..], Separator(dot);
    assert units == [u] + rest;
    if u == SEMICOLON {
      TailSemicolon(rest, false, sep, first);
      JustSemicolon();
      assert units == [SEMICOLON];
    } else if u == sep {
      TailSeparator(false, sep, rest, first);
      TailBytes(rest, dot, true);
      EncodeNameUnit(u, rest);
      Prolonged(Encode(units), Encode(rest));
    } else if IsLead(u) {
      TailPair(u, rest, false, sep, first);
      TailBytes(rest[1..], dot, false);
      EncodeNameUnit(rest[0], rest[1..]);
      assert rest == [rest[0]] + rest[1..];
      Prolonged(Encode(rest), Encode(rest[1..]));
      EncodeNameUnit(u, rest);
      Prolonged(Encode(units), Encode(rest));
    } else {
      TailUnit(u, rest, false, sep, first);
      TailBytes(rest, dot, false);
      EncodeNameUnit(u, rest);
      Prolonged(Encode(units), Encode(rest));
    }
  }

  lemma ZeroIsNoName()
    ensures !IsNameUnit(0)
  {
  }

  // A type descriptor has no encoded U+0000, so dexUtf8Cmp and strcmp agree on it.
  lemma TypeHasNoZero(units: seq<u2>)
    requires Whole(Encode(units)) && IsValid(Encode(units), false, false)
    ensures 0 !in units && units != []
  {
    hide Whole, Components, Encode, IsValid;
    ValidIsGrammar(units, false, false);
    var n := Dims(units);
    var core := units[n..];
    if |core| > 1 {
      var name := core[1..];
      assert name[..|name| - 1] == core[1..|core| - 1];
      TailBytes(name, false, true);
      assert forall k | n < k < |units| :: units[k] == name[k - n - 1];
    }
    assert units[n] == core[0];
  }

  lemma JustSemicolon()
    ensures NamesThenSemicolon(Encode([SEMICOLON]))
  {
    assert Encode([SEMICOLON]) == [SEMICOLON];
  }

  // Any accepted class descriptor ends with a semicolon, verified or not.
  lemma {:induction false} AcceptedEnds(rest: seq<u1>, dot: bool, first: bool)
    requires Whole(rest) && ClassName(rest, false, dot, first)
    ensures rest != [] && rest[|rest| - 1] == SEMICOLON
    decreases |rest|
  {
    hide MemberChar, Whole, Unit;
    if rest[0] == SEMICOLON {
    } else if rest[0] == SLASH || rest[0] == DOT {
      WholeAfterAscii(rest);
      AcceptedEnds(rest[1..], dot, true);
    } else {
      AcceptedEnds(rest[MemberChar(rest).value..], dot, false);
    }
  }

  // ----- dexIsValidMemberName -----

  predicate NameRest(rest: seq<u1>, angleName: bool)
    requires Whole(rest)
    decreases |rest|
  {
    if rest == [] then !angleName
    else if rest[0] == GREATER then angleName && |rest| == 1
    else match MemberChar(rest)
      case None => false
      case Some(n) => NameRest(rest[n..], angleName)
  }

  predicate IsMemberName(s: seq<u1>)
    requires Whole(s)
  {
    s != [] && if s[0] == LESS then NameRest((WholeAfterAscii(s); s[1..]), true) else NameRest(s, false)
  }

  method IsValidMemberName(s: seq<u1>) returns (valid: bool)
    requires Whole(s)
    ensures valid == IsMemberName(s)
  {
    hide MemberChar, Unit, Whole;
    if s == [] {
      return false;
    }
    var angleName, at := false, 0;
    if s[0] == LESS {
      angleName := true;
      at := at + 1;
      WholeAfterAscii(s);
    }
    ghost var start := at;
    assert s[0..] == s;
    while true
      invariant start <= at <= |s| && Whole(s[at..]) && Whole(s[start..])
      invariant NameRest(s[at..], angleName) == NameRest(s[start..], angleName)
      decreases |s| - at
    {
      if at == |s| {
        return !angleName;
      }
      if s[at] == GREATER {
        return angleName && at + 1 == |s|;
      }
      var n := MemberChar(s[at..]);
      if n == None {
        return false;
      }
      assert s[at..][n.value..] == s[at + n.value..];
      at := at + n.value;
    }
  }

  lemma {:induction false} NameRestIsName(units: seq<u2>, angleName: bool)
    ensures Whole(Encode(units))
    ensures NameRest(Encode(units), angleName) <==>
              if angleName then units != [] && units[|units| - 1] == GREATER && IsName(units[..|units| - 1])
              else IsName(units)
    decreases |units|
  {
    hide MemberChar, Whole, UnitBytes;
    EncodingIsWhole(units);
    if units == [] {
      EncodesNothing(units);
    } else {
      EncodesNothing(units[1..]);
      UnitOfEncoding(units);
      CharOfEncoding(units);
      var k := if IsLead(units[0]) then 2 else 1;
      if k <= |units| {
        NameRestIsName(units[k..], angleName);
        if k < |units| {
          assert units[..|units| - 1][k..] == units[k..][..|units[k..]| - 1];
        }
      }
    }
  }

  lemma AngleIsNoName(units: seq<u2>)
    ensures units != [] && units[0] == LESS ==> !IsName(units)
  {
  }

  // A member name is a name, or a name between angle brackets, which may be empty.
  lemma MemberNameIsGrammar(units: seq<u2>)
    ensures Whole(Encode(units))
    ensures IsMemberName(Encode(units)) <==>
              && units != []
              && (IsName(units)
                  || (|units| > 1 && units[0] == LESS && units[|units| - 1] == GREATER
                      && IsName(units[1..|units| - 1])))
  {
    hide MemberChar, Whole, UnitBytes, NameRest, Encode, IsName, Unit;
    EncodingIsWhole(units);
    EncodesNothing(units);
    AngleIsNoName(units);
    if units != [] {
      UnitOfEncoding(units);
      NameRestIsName(units, false);
      NameRestIsName(units[1..], true);
      if |units| > 1 {
        assert units[1..][..|units[1..]| - 1] == units[1..|units| - 1];
      }
    }
  }
}
