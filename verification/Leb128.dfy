// Little-endian base 128 numbers: libdex/Leb128.h and libdex/Leb128.cpp against section 7.6 of DWARF Version 4,
// cut off after five bytes and at 32 bits as DEX files use them.

module Leb128 {
  import opened Common

  // ----- The format -----

  // The number of bytes of the encoding at pos, when at most n bytes belong to it.
  function Length(mem: Memory, pos: nat, n: nat): (k: nat)
    requires 0 < n
    ensures 1 <= k <= n
    decreases n
  {
    if n == 1 || mem(pos) < 0x80 then 1 else 1 + Length(mem, pos + 1, n - 1)
  }

  // Its seven-bit groups, least significant first; the n-th byte is taken whole.
  function Groups(mem: Memory, pos: nat, n: nat): nat
    requires 0 < n
    decreases n
  {
    if n == 1 || mem(pos) < 0x80 then mem(pos) else mem(pos) % 0x80 + 0x80 * Groups(mem, pos + 1, n - 1)
  }

  datatype Read<T> = Read(value: T, next: nat)

  function UnsignedAt(mem: Memory, pos: nat): Read<u4> {
    Read(Groups(mem, pos, 5) % TWO32, pos + Length(mem, pos, 5))
  }

  // behind n unsigned numbers
  function Skip(mem: Memory, pos: nat, n: nat): (next: nat)
    ensures next >= pos
    decreases n
  {
    if n == 0 then pos else Skip(mem, UnsignedAt(mem, pos).next, n - 1)
  }

  function Power128(k: nat): (p: nat)
    ensures p > 0
  {
    if k == 0 then 1 else 0x80 * Power128(k - 1)
  }

  // Two's complement in the bits that are there: seven for each of up to four bytes, else 32.
  function SignedAt(mem: Memory, pos: nat): Read<int> {
    var k := Length(mem, pos, 5);
    var size := if k == 5 then TWO32 else Power128(k);
    var bits := if k == 5 then Groups(mem, pos, 5) % TWO32 else Groups(mem, pos, 5);
    Read(if 2 * bits >= size then bits - size else bits, pos + k)
  }

  // What readAndVerify*Leb128 demands: all bytes before the limit, no stray bits in a fifth byte.
  predicate Verified(mem: Memory, pos: nat, limit: Option<nat>) {
    var k := Length(mem, pos, 5);
    && (limit.Some? ==> pos + k <= limit.value)
    && (k == 5 ==> mem(pos + 4) <= 0x0f)
  }

  // The shortest encoding.
  function Encode(v: nat): (bytes: seq<u1>)
    ensures |bytes| > 0
  {
    if v < 0x80 then [v] else [v % 0x80 + 0x80] + Encode(v / 0x80)
  }

  // The shortest signed encoding; the quotient rounds down.
  function EncodeSigned(v: int): (bytes: seq<u1>)
    ensures |bytes| > 0
    decreases if v < 0 then -v else v
  {
    if -0x40 <= v < 0x40 then [v % 0x80] else [v % 0x80 + 0x80] + EncodeSigned(v / 0x80)
  }

  // ----- The code -----

  // x & 0x7f
  function Low7(x: u1): (y: nat)
    ensures y < 0x80
  {
    x % 0x80
  }

  // x << 28, in 32 bits
  function Shift28(x: u1): (y: nat)
    ensures y <= 0xf000_0000
  {
    x % 0x10 * 0x1000_0000
  }

  method ReadUnsigned(mem: Memory, pos: nat) returns (result: u4, next: nat)
    ensures Read(result, next) == UnsignedAt(mem, pos)
  {
    hide *;
    UnsignedCases(mem, pos);
    var ptr := pos;
    result := mem(ptr);
    ptr := ptr + 1;
    if result > 0x7f {
      var cur := mem(ptr);
      ptr := ptr + 1;
      result := Low7(result) + Low7(cur) * 0x80;
      if cur > 0x7f {
        cur := mem(ptr);
        ptr := ptr + 1;
        result := result + Low7(cur) * 0x4000;
        if cur > 0x7f {
          cur := mem(ptr);
          ptr := ptr + 1;
          result := result + Low7(cur) * 0x20_0000;
          if cur > 0x7f {
            cur := mem(ptr);
            ptr := ptr + 1;
            result := result + Shift28(cur);
          }
        }
      }
    }
    next := ptr;
  }

  // (v << (32 - bits)) >> (32 - bits) for a value of that many bits, size being 2^bits
  function SignExtend(v: int, size: int): int {
    if 2 * v >= size then v - size else v
  }

  method ReadSigned(mem: Memory, pos: nat) returns (result: int, next: nat)
    ensures Read(result, next) == SignedAt(mem, pos)
    ensures -0x8000_0000 <= result < 0x8000_0000
  {
    hide *;
    SignedCases(mem, pos);
    var ptr := pos;
    result := mem(ptr);
    ptr := ptr + 1;
    if result <= 0x7f {
      result := SignExtend(result, 0x80);
    } else {
      var cur := mem(ptr);
      ptr := ptr + 1;
      result := Low7(result) + Low7(cur) * 0x80;
      if cur <= 0x7f {
        result := SignExtend(result, 0x4000);
      } else {
        cur := mem(ptr);
        ptr := ptr + 1;
        result := result + Low7(cur) * 0x4000;
        if cur <= 0x7f {
          result := SignExtend(result, 0x20_0000);
        } else {
          cur := mem(ptr);
          ptr := ptr + 1;
          result := result + Low7(cur) * 0x20_0000;
          if cur <= 0x7f {
            result := SignExtend(result, 0x1000_0000);
          } else {
            cur := mem(ptr);
            ptr := ptr + 1;
            result := SignExtend(result + Shift28(cur), TWO32);
          }
        }
      }
    }
    next := ptr;
  }

  lemma UnsignedCases(mem: Memory, pos: nat)
    ensures var b0, b1, b2, b3, b4 := mem(pos), mem(pos + 1), mem(pos + 2), mem(pos + 3), mem(pos + 4);
            UnsignedAt(mem, pos) ==
              if b0 <= 0x7f then Read(b0, pos + 1)
              else if b1 <= 0x7f then Read(Low7(b0) + Low7(b1) * 0x80, pos + 2)
              else if b2 <= 0x7f then Read(Low7(b0) + Low7(b1) * 0x80 + Low7(b2) * 0x4000, pos + 3)
              else if b3 <= 0x7f then
                Read(Low7(b0) + Low7(b1) * 0x80 + Low7(b2) * 0x4000 + Low7(b3) * 0x20_0000, pos + 4)
              else
                Read(Low7(b0) + Low7(b1) * 0x80 + Low7(b2) * 0x4000 + Low7(b3) * 0x20_0000 + Shift28(b4), pos + 5)
  {
    hide Groups, Length, Low7, Shift28;
    UnrolledGroups(mem, pos);
    FifthByte(Low7(mem(pos)) + Low7(mem(pos + 1)) * 0x80 + Low7(mem(pos + 2)) * 0x4000 + Low7(mem(pos + 3)) * 0x20_0000,
              mem(pos + 4));
  }

  lemma SignedCases(mem: Memory, pos: nat)
    ensures var b0, b1, b2, b3, b4 := mem(pos), mem(pos + 1), mem(pos + 2), mem(pos + 3), mem(pos + 4);
            SignedAt(mem, pos) ==
              if b0 <= 0x7f then Read(SignExtend(b0, 0x80), pos + 1)
              else if b1 <= 0x7f then Read(SignExtend(Low7(b0) + Low7(b1) * 0x80, 0x4000), pos + 2)
              else if b2 <= 0x7f then
                Read(SignExtend(Low7(b0) + Low7(b1) * 0x80 + Low7(b2) * 0x4000, 0x20_0000), pos + 3)
              else if b3 <= 0x7f then
                Read(SignExtend(Low7(b0) + Low7(b1) * 0x80 + Low7(b2) * 0x4000 + Low7(b3) * 0x20_0000, 0x1000_0000),
                     pos + 4)
              else
                Read(SignExtend(Low7(b0) + Low7(b1) * 0x80 + Low7(b2) * 0x4000 + Low7(b3) * 0x20_0000 + Shift28(b4),
                                TWO32), pos + 5)
    ensures -0x8000_0000 <= SignedAt(mem, pos).value < 0x8000_0000
  {
    hide Groups, Length, Power128, Low7, Shift28;
    UnrolledGroups(mem, pos);
    FifthByte(Low7(mem(pos)) + Low7(mem(pos + 1)) * 0x80 + Low7(mem(pos + 2)) * 0x4000 + Low7(mem(pos + 3)) * 0x20_0000,
              mem(pos + 4));
  }

  // A fifth byte shifted by 28 loses its high bits.
  lemma FifthByte(r: nat, b: u1)
    requires r < 0x1000_0000
    ensures (r + b * 0x1000_0000) % TWO32 == r + Shift28(b)
  {
    assert r + b * 0x1000_0000 == b / 0x10 * TWO32 + (r + b % 0x10 * 0x1000_0000);
  }

  lemma UnrolledGroups(mem: Memory, pos: nat)
    ensures var b0, b1, b2, b3, b4 := mem(pos), mem(pos + 1), mem(pos + 2), mem(pos + 3), mem(pos + 4);
            if b0 <= 0x7f then Length(mem, pos, 5) == 1 && Groups(mem, pos, 5) == b0
            else if b1 <= 0x7f then Length(mem, pos, 5) == 2 && Groups(mem, pos, 5) == Low7(b0) + Low7(b1) * 0x80
            else if b2 <= 0x7f then
              Length(mem, pos, 5) == 3 && Groups(mem, pos, 5) == Low7(b0) + Low7(b1) * 0x80 + Low7(b2) * 0x4000
            else if b3 <= 0x7f then
              && Length(mem, pos, 5) == 4
              && Groups(mem, pos, 5) == Low7(b0) + Low7(b1) * 0x80 + Low7(b2) * 0x4000 + Low7(b3) * 0x20_0000
            else
              && Length(mem, pos, 5) == 5
              && Groups(mem, pos, 5)
                 == Low7(b0) + Low7(b1) * 0x80 + Low7(b2) * 0x4000 + Low7(b3) * 0x20_0000 + b4 * 0x1000_0000
    ensures Power128(1) == 0x80 && Power128(2) == 0x4000 && Power128(3) == 0x20_0000 && Power128(4) == 0x1000_0000
  {
    hide Groups, Length, Low7;
    GroupsStep(mem, pos, 5);
    GroupsStep(mem, pos + 1, 4);
    GroupsStep(mem, pos + 2, 3);
    GroupsStep(mem, pos + 3, 2);
    GroupsStep(mem, pos + 4, 1);
    assert Power128(2) == 0x4000;
  }

  lemma GroupsStep(mem: Memory, pos: nat, n: nat)
    requires 0 < n
    ensures n == 1 || mem(pos) <= 0x7f ==> Groups(mem, pos, n) == mem(pos) && Length(mem, pos, n) == 1
    ensures mem(pos) <= 0x7f ==> Low7(mem(pos)) == mem(pos)
    ensures n != 1 && mem(pos) > 0x7f ==>
              && Groups(mem, pos, n) == Low7(mem(pos)) + 0x80 * Groups(mem, pos + 1, n - 1)
              && Length(mem, pos, n) == 1 + Length(mem, pos + 1, n - 1)
  {
  }

  method ReadAndVerifyUnsigned(mem: Memory, pos: nat, limit: Option<nat>, okay: bool)
    returns (result: u4, next: nat, okay': bool)
    ensures Read(result, next) == UnsignedAt(mem, pos)
    ensures okay' == (okay && Verified(mem, pos, limit))
  {
    okay' := okay;
    result, next := ReadUnsigned(mem, pos);
    if (limit.Some? && next > limit.value) || (next - pos == 5 && mem(pos + 4) > 0x0f) {
      okay' := false;
    }
  }

  method ReadAndVerifySigned(mem: Memory, pos: nat, limit: Option<nat>, okay: bool)
    returns (result: int, next: nat, okay': bool)
    ensures Read(result, next) == SignedAt(mem, pos)
    ensures -0x8000_0000 <= result < 0x8000_0000
    ensures okay' == (okay && Verified(mem, pos, limit))
  {
    okay' := okay;
    result, next := ReadSigned(mem, pos);
    if (limit.Some? && next > limit.value) || (next - pos == 5 && mem(pos + 4) > 0x0f) {
      okay' := false;
    }
  }

  // writeUnsignedLeb128
  method WriteUnsigned(buffer: array<u1>, start: nat, value: u4) returns (ptr: nat)
    requires start + |Encode(value)| <= buffer.Length
    modifies buffer
    ensures ptr == start + |Encode(value)| && buffer[start..ptr] == Encode(value)
    ensures buffer[..start] == old(buffer[..start]) && buffer[ptr..] == old(buffer[ptr..])
  {
    ptr := start;
    var data := value;
    while true
      invariant 0 <= data && start <= ptr
      invariant ptr + |Encode(data)| == start + |Encode(value)|
      invariant buffer[start..ptr] + Encode(data) == Encode(value)
      invariant buffer[..start] == old(buffer[..start])
      invariant forall k | ptr <= k < buffer.Length :: buffer[k] == old(buffer[k])
      decreases data
    {
      var out := data % 0x80;
      if out != data {
        buffer[ptr] := out + 0x80;
        ptr := ptr + 1;
        assert buffer[start..ptr] == buffer[start..ptr - 1] + [out + 0x80];
        data := data / 0x80;
      } else {
        buffer[ptr] := out;
        ptr := ptr + 1;
        assert buffer[start..ptr] == buffer[start..ptr - 1] + [out];
        break;
      }
    }
  }

  // unsignedLeb128Size
  method UnsignedSize(value: u4) returns (count: nat)
    ensures count == |Encode(value)|
  {
    count := 0;
    var data := value;
    while true
      invariant 0 <= data && count + |Encode(data)| == |Encode(value)|
      decreases data
    {
      count := count + 1;
      data := data / 0x80;
      if data == 0 {
        break;
      }
    }
  }

  // ----- What the format promises -----

  lemma {:induction false} EncodingIsShort(v: nat, n: nat)
    requires 0 < n && v < Power128(n)
    ensures |Encode(v)| <= n
  {
    if v >= 0x80 {
      EncodingIsShort(v / 0x80, n - 1);
    }
  }

  lemma AtMostFiveBytes(v: u4)
    ensures |Encode(v)| <= 5
  {
    assert Power128(2) == 0x4000 && Power128(4) == 0x1000_0000;
    EncodingIsShort(v, 5);
  }

  lemma {:induction false} GroupsOfEncoding(mem: Memory, pos: nat, v: nat, n: nat)
    requires 0 < n && |Encode(v)| <= n && At(mem, pos, Encode(v))
    decreases n
    ensures Length(mem, pos, n) == |Encode(v)| && Groups(mem, pos, n) == v
  {
    assert mem(pos) == Encode(v)[0];
    if v >= 0x80 {
      AtConcat(mem, pos, [v % 0x80 + 0x80], Encode(v / 0x80));
      GroupsOfEncoding(mem, pos + 1, v / 0x80, n - 1);
    }
  }

  lemma GroupsBounds(mem: Memory, pos: nat)
    ensures Length(mem, pos, 5) < 5 ==> Groups(mem, pos, 5) < 0x1000_0000
    ensures Length(mem, pos, 5) == 5 ==>
              mem(pos + 4) * 0x1000_0000 <= Groups(mem, pos, 5) < (mem(pos + 4) + 1) * 0x1000_0000
  {
    hide Groups, Length, Low7, Power128;
    UnrolledGroups(mem, pos);
  }

  // Writing a u4 and reading it back gives the value, uses exactly its bytes, and passes verification.
  lemma RoundTrip(mem: Memory, pos: nat, v: u4, limit: Option<nat>)
    requires At(mem, pos, Encode(v))
    ensures UnsignedAt(mem, pos) == Read(v, pos + |Encode(v)|)
    ensures Verified(mem, pos, limit) <==> (limit.Some? ==> pos + |Encode(v)| <= limit.value)
  {
    hide Groups, Length, Encode;
    AtMostFiveBytes(v);
    GroupsOfEncoding(mem, pos, v, 5);
    GroupsBounds(mem, pos);
  }

  lemma {:induction false} NoShorterEncoding(mem: Memory, pos: nat, n: nat)
    requires 0 < n
    ensures Groups(mem, pos, n) < 2 * Power128(Length(mem, pos, n))
    ensures mem(pos + Length(mem, pos, n) - 1) < 0x80 ==> |Encode(Groups(mem, pos, n))| <= Length(mem, pos, n)
    decreases n
  {
    if n != 1 && mem(pos) >= 0x80 {
      NoShorterEncoding(mem, pos + 1, n - 1);
      var rest := Groups(mem, pos + 1, n - 1);
      assert (mem(pos) % 0x80 + 0x80 * rest) / 0x80 == rest;
    }
  }

  // Verification rejects no value and no more than it must: an accepted encoding is at least as
  // long as the one that the writer produces for its value.
  lemma WriterIsShortest(mem: Memory, pos: nat, limit: Option<nat>)
    requires Verified(mem, pos, limit)
    ensures |Encode(UnsignedAt(mem, pos).value)| <= Length(mem, pos, 5)
    ensures UnsignedAt(mem, pos).value == Groups(mem, pos, 5)
  {
    hide Groups, Length, Encode;
    GroupsBounds(mem, pos);
    LastByte(mem, pos, 5);
    NoShorterEncoding(mem, pos, 5);
  }

  lemma {:induction false} LastByte(mem: Memory, pos: nat, n: nat)
    requires 0 < n
    ensures Length(mem, pos, n) < n ==> mem(pos + Length(mem, pos, n) - 1) < 0x80
    decreases n
  {
    if n != 1 && mem(pos) >= 0x80 {
      LastByte(mem, pos + 1, n - 1);
    }
  }

  // the numbers that n groups of seven bits can hold
  predicate InGroups(v: int, n: nat) {
    0 <= 2 * v + Power128(n) && 2 * v < Power128(n)
  }

  lemma InOneGroup(v: int)
    ensures InGroups(v, 1) <==> -0x40 <= v < 0x40
    ensures -0x40 <= v < 0x40 ==> EncodeSigned(v) == [v % 0x80]
    ensures v % 0x80 == if 0 <= v < 0x40 then v else if -0x40 <= v < 0 then v + 0x80 else v % 0x80
  {
    assert Power128(1) == 0x80;
  }

  lemma OneMoreGroup(v: int, n: nat)
    requires n > 0
    ensures InGroups(v / 0x80, n) <==> InGroups(v, n + 1)
    ensures v == 0x80 * (v / 0x80) + v % 0x80 && Power128(n + 1) == 0x80 * Power128(n)
  {
    var half := 0x40 * Power128(n - 1);
    assert Power128(n) == 2 * half && Power128(n + 1) == 0x80 * (2 * half);
    hide Power128;
    HalfBound(v, half);
  }

  lemma HalfBound(v: int, half: nat)
    ensures 0 <= v / 0x80 + half && v / 0x80 < half <==> 0 <= v + 0x80 * half && v < 0x80 * half
  {
  }

  // The groups of a signed encoding are the number in two's complement, of seven bits for each byte.
  lemma {:induction false} GroupsOfSigned(mem: Memory, pos: nat, v: int, n: nat)
    requires 0 < n && |EncodeSigned(v)| <= n && At(mem, pos, EncodeSigned(v))
    ensures var k := |EncodeSigned(v)|;
            && Length(mem, pos, n) == k && InGroups(v, k) && mem(pos + k - 1) < 0x80
            && Groups(mem, pos, n) == if v < 0 then v + Power128(k) else v
    decreases n
  {
    hide Groups, Length, InGroups, Power128;
    GroupsStep(mem, pos, n);
    InOneGroup(v);
    assert mem(pos + 0) == EncodeSigned(v)[0];
    if -0x40 <= v < 0x40 {
      PowersOf128();
    } else {
      var rest := EncodeSigned(v / 0x80);
      AtConcat(mem, pos, [v % 0x80 + 0x80], rest);
      hide EncodeSigned;
      GroupsOfSigned(mem, pos + 1, v / 0x80, n - 1);
      OneMoreGroup(v, |rest|);
    }
  }

  lemma {:induction false} SignedIsShort(v: int, n: nat)
    requires 0 < n && InGroups(v, n)
    ensures |EncodeSigned(v)| <= n
    decreases n
  {
    hide InGroups, Power128;
    InOneGroup(v);
    if n > 1 && !(-0x40 <= v < 0x40) {
      OneMoreGroup(v, n - 1);
      SignedIsShort(v / 0x80, n - 1);
    }
  }

  lemma PowersOf128()
    ensures Power128(1) == 0x80 && Power128(2) == 0x4000 && Power128(3) == 0x20_0000 && Power128(4) == 0x1000_0000
    ensures Power128(5) == 0x8_0000_0000
  {
    assert Power128(2) == 0x4000;
    assert Power128(4) == 0x1000_0000;
  }

  // The encoding of a signed 32-bit number reads back as the number and ends where it ended.
  lemma SignedRoundTrip(mem: Memory, pos: nat, v: s4)
    requires At(mem, pos, EncodeSigned(v))
    ensures SignedAt(mem, pos) == Read(v, pos + |EncodeSigned(v)|)
  {
    hide Groups, Length, EncodeSigned, Power128;
    PowersOf128();
    SignedIsShort(v, 5);
    GroupsOfSigned(mem, pos, v, 5);
  }

  // It passes verification exactly if it ends before the limit and the number is not below -2^27: the fifth byte of
  // a negative number has more than the bits that are asked for.
  lemma SignedVerifiesIff(mem: Memory, pos: nat, v: s4, limit: Option<nat>)
    requires At(mem, pos, EncodeSigned(v))
    ensures Verified(mem, pos, limit) <==>
              v >= -0x800_0000 && (limit.Some? ==> pos + |EncodeSigned(v)| <= limit.value)
  {
    hide Groups, Length, EncodeSigned, Power128;
    PowersOf128();
    SignedIsShort(v, 5);
    GroupsOfSigned(mem, pos, v, 5);
    if v >= -0x800_0000 && v < 0x800_0000 {
      SignedIsShort(v, 4);
    }
    GroupsBounds(mem, pos);
  }

  // Whatever the bytes are, the value is their groups in two's complement, of seven bits each or 32 for five.
  lemma SignedIsTwosComplement(mem: Memory, pos: nat)
    ensures var k, v, g := Length(mem, pos, 5), SignedAt(mem, pos).value, Groups(mem, pos, 5);
            && (k < 5 ==> InGroups(v, k) && (v == g || v == g - Power128(k)))
            && (k == 5 ==> -0x8000_0000 <= v < 0x8000_0000 && (v == g % TWO32 || v == g % TWO32 - TWO32))
  {
    hide Groups, Length, Power128;
    PowersOf128();
    GroupsBelow(mem, pos, 5);
  }

  lemma {:induction false} GroupsBelow(mem: Memory, pos: nat, n: nat)
    requires 0 < n
    ensures Length(mem, pos, n) < n ==> Groups(mem, pos, n) < Power128(Length(mem, pos, n))
    decreases n
  {
    if n != 1 && mem(pos) >= 0x80 {
      GroupsBelow(mem, pos + 1, n - 1);
    }
  }
}
