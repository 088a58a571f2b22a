// SHA-1, straight from RFC 3174.

module Sha1Spec {
  type Word = bv32
  type Byte = bv8

  datatype Registers = Registers(a: Word, b: Word, c: Word, d: Word, e: Word)

  // S^n of section 2, for the three n that are used
  function S1(x: Word): Word { (x << 1) | (x >> 31) }
  function S5(x: Word): Word { (x << 5) | (x >> 27) }
  function S30(x: Word): Word { (x << 30) | (x >> 2) }

  // f(t;B,C,D) of section 5
  function F(t: nat, b: Word, c: Word, d: Word): Word {
    if t < 20 then (b & c) | (!b & d)
    else if t < 40 then b ^ c ^ d
    else if t < 60 then (b & c) | (b & d) | (c & d)
    else b ^ c ^ d
  }

  // K(t) of section 5
  function K(t: nat): Word {
    if t < 20 then 0x5A827999
    else if t < 40 then 0x6ED9EBA1
    else if t < 60 then 0x8F1BBCDC
    else 0xCA62C1D6
  }

  // four bytes as a word, most significant first
  function BigEndian(b0: Byte, b1: Byte, b2: Byte, b3: Byte): Word {
    ((b0 as Word) << 24) | ((b1 as Word) << 16) | ((b2 as Word) << 8) | (b3 as Word)
  }

  // W(t) of section 6.1, steps (a) and (b)
  function W(block: seq<Byte>, t: nat): Word
    requires |block| == 64
  {
    if t < 16 then BigEndian(block[4 * t], block[4 * t + 1], block[4 * t + 2], block[4 * t + 3])
    else S1(W(block, t - 3) ^ W(block, t - 8) ^ W(block, t - 14) ^ W(block, t - 16))
  }

  // TEMP of section 6.1, step (d)
  function Temp(s: Word, f: Word, e: Word, w: Word, k: Word): Word {
    s + f + e + w + k
  }

  // the loop of section 6.1, step (d)
  function Round(r: Registers, t: nat, w: Word): Registers {
    Registers(Temp(S5(r.a), F(t, r.b, r.c, r.d), r.e, w, K(t)), r.a, S30(r.b), r.c, r.d)
  }

  function Rounds(block: seq<Byte>, h: Registers, t: nat): Registers
    requires |block| == 64
  {
    if t == 0 then h else Round(Rounds(block, h, t - 1), t - 1, W(block, t - 1))
  }

  // addition modulo 2^32
  function Plus(x: Word, y: Word): Word { x + y }

  // section 6.1, steps (c) to (e)
  function Compress(h: Registers, block: seq<Byte>): Registers
    requires |block| == 64
  {
    var r := Rounds(block, h, 80);
    Registers(Plus(h.a, r.a), Plus(h.b, r.b), Plus(h.c, r.c), Plus(h.d, r.d), Plus(h.e, r.e))
  }

  const H0 := Registers(0x67452301, 0xEFCDAB89, 0x98BADCFE, 0x10325476, 0xC3D2E1F0)

  function Chain(data: seq<Byte>): Registers
    requires |data| % 64 == 0
  {
    if data == [] then H0
    else Compress(Chain(data[..|data| - 64]), data[|data| - 64..])
  }

  function Zeros(n: nat): seq<Byte> {
    seq(n, _ => 0)
  }

  // byte i of the 64-bit number n, most significant byte first
  function LengthOctet(n: nat, i: nat): (o: nat)
    requires i < 8
    ensures o < 256
  {
    if i == 0 then n / 0x100_0000_0000_0000 % 256
    else if i == 1 then n / 0x1_0000_0000_0000 % 256
    else if i == 2 then n / 0x100_0000_0000 % 256
    else if i == 3 then n / 0x1_0000_0000 % 256
    else if i == 4 then n / 0x100_0000 % 256
    else if i == 5 then n / 0x1_0000 % 256
    else if i == 6 then n / 0x100 % 256
    else n % 256
  }

  lemma PaddedLength(n: nat)
    ensures (n + 1 + (119 - n % 64) % 64 + 8) % 64 == 0
  {
    var r := n % 64;
    assert n == 64 * (n / 64) + r;
    if r <= 55 {
      assert n + 1 + (55 - r) + 8 == 64 * (n / 64 + 1);
    } else {
      assert n + 1 + (119 - r) + 8 == 64 * (n / 64 + 2);
    }
  }

  // section 4: a one bit, zero bits up to 448 modulo 512, and the length in bits
  function Padded(message: seq<Byte>): (p: seq<Byte>)
    ensures |p| % 64 == 0
  {
    PaddedLength(|message|);
    message + [0x80] + Zeros((119 - |message| % 64) % 64)
    + seq(8, i requires 0 <= i < 8 => LengthOctet(8 * |message|, i) as Byte)
  }

  // a word as four bytes, most significant first
  function WordByte(w: Word, i: nat): Byte
    requires i < 4
  {
    (if i == 0 then w >> 24
     else if i == 1 then (w >> 16) & 0xFF
     else if i == 2 then (w >> 8) & 0xFF
     else w & 0xFF) as Byte
  }

  function Output(h: Registers): seq<Byte> {
    seq(20, i requires 0 <= i < 20 =>
      WordByte(if i < 4 then h.a else if i < 8 then h.b else if i < 12 then h.c else if i < 16 then h.d else h.e,
               i % 4))
  }

  function Digest(message: seq<Byte>): seq<Byte> {
    Output(Chain(Padded(message)))
  }
}
