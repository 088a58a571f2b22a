// The streaming SHA-1 of libdex/sha1.cpp, proved equal to the definition in RFC 3174.

module Sha1 {
  import opened Common
  import opened Sha1Spec
  import opened Sha1Transform

  lemma ChainOfOneMore(data: seq<Byte>, block: seq<Byte>)
    requires |data| % 64 == 0 && |block| == 64
    ensures |data + block| % 64 == 0
    ensures Chain(data + block) == Compress(Chain(data), block)
  {
    hide Compress;
    var all := data + block;
    assert all[..|all| - 64] == data && all[|all| - 64..] == block;
  }

  // the two words of the bit count after n bytes
  function Count0(n: nat): u4 { 8 * n % TWO32 }
  function Count1(n: nat): u4 { 8 * n / TWO32 % TWO32 }

  // SHA1Update's update of the bit count, with its carry, for m more bytes
  function NextCount0(count0: u4, m: u4): u4 { (count0 + 8 * m % TWO32) % TWO32 }
  function NextCount1(count0: u4, count1: u4, m: u4): u4 {
    (((if NextCount0(count0, m) < 8 * m % TWO32 then count1 + 1 else count1) % TWO32) + m / 0x2000_0000) % TWO32
  }

  lemma Split32(a: nat, q: nat, r: u4)
    requires a == q * TWO32 + r
    ensures a / TWO32 == q && a % TWO32 == r
  {
  }

  lemma CountCarries(n: nat, m: u4)
    ensures NextCount0(Count0(n), m) == Count0(n + m)
    ensures NextCount1(Count0(n), Count1(n), m) == Count1(n + m)
  {
    var q0, q1 := 8 * n / TWO32, 8 * m / TWO32;
    var r0, r1 := 8 * n % TWO32, 8 * m % TWO32;
    assert m / 0x2000_0000 == q1;
    if r0 + r1 < TWO32 {
      Split32(8 * (n + m), q0 + q1, r0 + r1);
    } else {
      Split32(8 * (n + m), q0 + q1 + 1, r0 + r1 - TWO32);
    }
    CarriedModulo(q0, q1, if r0 + r1 < TWO32 then 0 else 1);
  }

  lemma CarriedModulo(q0: nat, q1: u4, carry: nat)
    requires carry <= 1
    ensures ((q0 % TWO32 + carry) % TWO32 + q1) % TWO32 == (q0 + q1 + carry) % TWO32
  {
  }

  lemma CountGivesPosition(n: nat)
    ensures Count0(n) / 8 % 64 == n % 64
  {
    var q := 8 * n / TWO32;
    assert Count0(n) == 8 * n - q * TWO32;
    assert Count0(n) / 8 == n - q * 0x2000_0000;
    SameModulo64(n, n - q * 0x2000_0000, q * 0x80_0000);
  }

  lemma SameModulo64(x: nat, y: nat, q: nat)
    requires x == y + 64 * q
    ensures x % 64 == y % 64
  {
  }

  // memcpy(&to[at], from, |from|)
  method Copy(to: array<Byte>, at: nat, from: seq<Byte>)
    requires at + |from| <= to.Length
    modifies to
    ensures to[..at] == old(to[..at]) && to[at..at + |from|] == from && to[at + |from|..] == old(to[at + |from|..])
  {
    forall k | 0 <= k < |from| {
      to[at + k] := from[k];
    }
  }

  // The state has taken in all of data but the last bytes, which are kept.
  ghost predicate Absorbed(state: seq<Word>, kept: seq<Byte>, data: seq<Byte>)
    requires |state| == 5
  {
    && |kept| == |data| % 64
    && RegistersOf(state) == Chain(data[..|data| - |kept|])
    && kept == data[|data| - |kept|..]
  }

  class Sha1Context {
    const state: array<Word>
    var count0: u4
    var count1: u4
    const buffer: array<Byte>
    // every byte given to Update since the context was initialized
    ghost var fed: seq<Byte>

    ghost predicate Valid()
      reads this, state, buffer
    {
      && state.Length == 5 && buffer.Length == 64
      && count0 == Count0(|fed|) && count1 == Count1(|fed|)
      && Absorbed(state[..], buffer[..|fed| % 64], fed)
    }

    // SHA1Init
    constructor ()
      ensures Valid() && fed == [] && fresh(state) && fresh(buffer)
    {
      state := new Word[5] [0x67452301, 0xEFCDAB89, 0x98BADCFE, 0x10325476, 0xC3D2E1F0];
      buffer := new Byte[64];
      count0 := 0;
      count1 := 0;
      fed := [];
      new;
      assert fed[..0] == [];
    }

    // The branch of SHA1Update that has at least one whole block: fill up the buffer, then take
    // the other blocks straight from data. Returns how much of data has been used.
    method TakeBlocks(data: seq<Byte>, j: nat) returns (i: nat)
      requires state.Length == 5 && buffer.Length == 64
      requires j == |fed| % 64 && 63 < j + |data| < TWO32 && Absorbed(state[..], buffer[..j], fed)
      modifies state, buffer
      ensures i <= |data| < i + 64 && (|fed| + i) % 64 == 0
      ensures RegistersOf(state[..]) == Chain((fed + data)[..|fed| + i])
    {
      hide Chain, Compress, RegistersOf, Absorbed;
      ghost var all := fed + data;
      FillBuffer(data, j);
      i := 64 - j;
      SumDoesNotWrap(|fed|, j, i, |data|);
      while (i + 63) % TWO32 < |data|
        invariant (i + 63) % TWO32 == i + 63 && 0 <= i <= |data| && (|fed| + i) % 64 == 0
        invariant RegistersOf(state[..]) == Chain(all[..|fed| + i])
      {
        assert data[i..i + 64] == all[|fed| + i..|fed| + i + 64];
        AddBlock(all, |fed| + i, data[i..i + 64]);
        Transform(state, data[i..i + 64]);
        i := i + 64;
        SumDoesNotWrap(|fed|, j, i, |data|);
      }
    }

    // its first block, made of what is in the buffer and the start of data
    method FillBuffer(data: seq<Byte>, j: nat)
      requires state.Length == 5 && buffer.Length == 64
      requires j == |fed| % 64 && j + |data| > 63 && Absorbed(state[..], buffer[..j], fed)
      modifies state, buffer
      ensures RegistersOf(state[..]) == Chain((fed + data)[..|fed| + (64 - j)])
    {
      hide Chain, Compress, RegistersOf, Absorbed;
      FirstBlock(state[..], buffer[..j], fed, data);
      ghost var block := buffer[..j] + data[..64 - j];
      Copy(buffer, j, data[..64 - j]);
      Joined(buffer[..], j, block);
      Transform(state, buffer[..]);
    }

    // What SHA1Update does with the data. If the sum j + len wraps around, all of data goes behind the j bytes that
    // are kept, which leaves the buffer.
    method Absorb(data: seq<Byte>, j: nat) returns (inside: bool)
      requires state.Length == 5 && buffer.Length == 64 && |data| < TWO32
      requires j == |fed| % 64 && Absorbed(state[..], buffer[..j], fed)
      modifies state, buffer
      ensures inside <==> j + |data| < TWO32
      ensures inside ==> Absorbed(state[..], buffer[..(|fed| + |data|) % 64], fed + data)
    {
      hide Chain, Compress, Absorbed;
      if (j + |data|) % TWO32 > 63 {
        var i := TakeBlocks(data, j);
        Copy(buffer, 0, data[i..]);
        AbsorbedAllBlocks(state[..], fed, data, i);
        assert buffer[..|data| - i] == data[i..];
      } else {
        if j + |data| > 64 {
          return false;
        }
        AbsorbedLittle(state[..], buffer[..j], fed, data);
        Copy(buffer, j, data);
        assert buffer[..j + |data|] == old(buffer[..j]) + data;
      }
      return true;
    }

    // SHA1Update
    method Update(data: seq<Byte>) returns (inside: bool)
      requires Valid() && |data| < TWO32
      modifies this, state, buffer
      ensures inside <==> |old(fed)| % 64 + |data| < TWO32
      ensures inside ==> Valid() && fed == old(fed) + data
    {
      hide Chain, Compress, Absorbed, Count0, Count1, NextCount0, NextCount1;
      CountCarries(|fed|, |data|);
      CountGivesPosition(|fed|);
      var j := count0 / 8 % 64;
      count1 := NextCount1(count0, count1, |data|);
      count0 := NextCount0(count0, |data|);
      inside := Absorb(data, j);
      fed := fed + data;
    }

    // The one bit and the zero bits of SHA1Final.
    method Pad()
      requires Valid()
      modifies this, state, buffer
      ensures Valid() && fed == old(fed) + [0x80] + Zeros((119 - |old(fed)| % 64) % 64)
    {
      hide Chain, Absorbed, Count0, Count1;
      ghost var message := fed;
      ghost var k, wanted := 0, (119 - |message| % 64) % 64;
      var inside := Update([0x80]);
      CountGivesPosition(|fed|);
      PadPosition(|message|, 0);
      while count0 / 8 % 64 != 56   // (count[0] & 504) != 448
        invariant Valid() && fed == message + [0x80] + Zeros(k) && k <= wanted
        invariant count0 / 8 % 64 == 56 <==> k == wanted
        decreases wanted - k
      {
        inside := Update([0]);
        k := k + 1;
        assert Zeros(k - 1) + [0] == Zeros(k);
        assert fed == message + [0x80] + Zeros(k);
        CountGivesPosition(|fed|);
        PadPosition(|message|, k);
      }
    }

    // The padding and the length, as SHA1Final feeds them to SHA1Update.
    method Finish()
      requires Valid()
      modifies this, state, buffer
      ensures state.Length == 5 && RegistersOf(state[..]) == Chain(Padded(old(fed)))
    {
      hide Chain, Compress, Count0, Count1, LengthOctet, Absorbed;
      ghost var message := fed;
      var finalCount := LengthBytes(count0, count1, |message|);
      Pad();
      var inside := Update(finalCount);
      assert fed == Padded(message);
      AllAbsorbed(state[..], buffer[..0], fed);
    }

    // SHA1Final
    method Final(digest: array<Byte>)
      requires Valid() && digest.Length == 20 && digest != buffer
      modifies this, state, buffer, digest
      ensures digest[..] == Digest(old(fed))
      ensures count0 == count1 == 0 && (forall k | 0 <= k < buffer.Length :: buffer[k] == 0)
    {
      hide Padded, Chain;
      ghost var h := Chain(Padded(fed));
      Finish();
      WriteOutput(state[..], digest);
      assert digest[..] == Output(h);
      // wipe variables
      forall k | 0 <= k < 64 { buffer[k] := 0; }
      forall k | 0 <= k < 5 { state[k] := 0; }
      count0, count1 := 0, 0;
      Transform(state, buffer[..]);
    }
  }

  // The sum i + 63 does not wrap around either, as long as i goes on from the j bytes kept in steps of 64.
  lemma SumDoesNotWrap(fed: nat, j: nat, i: nat, len: nat)
    requires j == fed % 64 && (fed + i) % 64 == 0 && i <= len && j + len < TWO32
    ensures (i + 63) % TWO32 == i + 63
  {
    SameModulo64(fed + i, j + i, fed / 64);
  }

  lemma PadPosition(n: nat, k: nat)
    requires k <= (119 - n % 64) % 64
    ensures (n + 1 + k) % 64 == 56 <==> k == (119 - n % 64) % 64
  {
  }

  method WriteOutput(state: seq<Word>, digest: array<Byte>)
    requires |state| == 5 && digest.Length == 20
    modifies digest
    ensures digest[..] == Output(RegistersOf(state))
  {
    hide WordByte, DigestByte;
    for i := 0 to 20
      invariant forall k | 0 <= k < i :: digest[k] == Output(RegistersOf(state))[k]
    {
      digest[i] := DigestByte(state[i / 4], i % 4);
      DigestByteIsWordByte(state[i / 4], i % 4);
    }
  }

  // finalcount[i]
  function CountOctet(count0: u4, count1: u4, i: nat): (o: nat)
    requires i < 8
    ensures o < 256
  {
    var c := if i >= 4 then count0 else count1;
    if i % 4 == 0 then c / 0x100_0000 % 256
    else if i % 4 == 1 then c / 0x1_0000 % 256
    else if i % 4 == 2 then c / 0x100 % 256
    else c % 256
  }

  method LengthBytes(count0: u4, count1: u4, ghost n: nat) returns (finalCount: seq<Byte>)
    requires count0 == Count0(n) && count1 == Count1(n)
    ensures finalCount == seq(8, i requires 0 <= i < 8 => LengthOctet(8 * n, i) as Byte)
  {
    hide CountOctet, LengthOctet;
    finalCount := [];
    for i := 0 to 8
      invariant |finalCount| == i
      invariant forall k | 0 <= k < i :: finalCount[k] == LengthOctet(8 * n, k) as Byte
    {
      CountOctetIsLengthOctet(n, i);
      finalCount := finalCount + [CountOctet(count0, count1, i) as Byte];
    }
  }

  lemma CountOctetIsLengthOctet(n: nat, i: nat)
    requires i < 8
    ensures CountOctet(Count0(n), Count1(n), i) == LengthOctet(8 * n, i)
  {
    if i < 4 {
      HighWord(8 * n);
    } else {
      LowWord(8 * n);
    }
  }

  lemma HighWord(b: nat)
    ensures b / TWO32 % TWO32 / 0x100_0000 % 256 == b / 0x100_0000_0000_0000 % 256
    ensures b / TWO32 % TWO32 / 0x1_0000 % 256 == b / 0x1_0000_0000_0000 % 256
    ensures b / TWO32 % TWO32 / 0x100 % 256 == b / 0x100_0000_0000 % 256
    ensures b / TWO32 % TWO32 % 256 == b / 0x1_0000_0000 % 256
  {
    var h := b / TWO32;
    assert h / 0x100_0000 == b / 0x100_0000_0000_0000;
    assert h / 0x1_0000 == b / 0x1_0000_0000_0000;
    assert h / 0x100 == b / 0x100_0000_0000;
    LowWord(h);
  }

  lemma LowWord(b: nat)
    ensures b % TWO32 / 0x100_0000 % 256 == b / 0x100_0000 % 256
    ensures b % TWO32 / 0x1_0000 % 256 == b / 0x1_0000 % 256
    ensures b % TWO32 / 0x100 % 256 == b / 0x100 % 256
    ensures b % TWO32 % 256 == b % 256
  {
    var q, r := b / TWO32, b % TWO32;
    assert b == q * TWO32 + r;
    LowByte(b / 0x100_0000, q, r / 0x100_0000);
    LowByte(b / 0x1_0000, q * 0x100, r / 0x1_0000);
    LowByte(b / 0x100, q * 0x1_0000, r / 0x100);
    LowByte(b, q * 0x100_0000, r);
  }

  lemma LowByte(x: nat, q: nat, r: nat)
    requires x == q * 256 + r
    ensures x % 256 == r % 256
  {
  }

  // digest[i], from the state word i>>2
  function DigestByte(w: Word, k: nat): Byte
    requires k < 4
  {
    (if k == 0 then (w >> 24) & 255
     else if k == 1 then (w >> 16) & 255
     else if k == 2 then (w >> 8) & 255
     else w & 255) as Byte
  }

  lemma DigestByteIsWordByte(w: Word, k: nat)
    requires k < 4
    ensures DigestByte(w, k) == WordByte(w, k)
  {
    assert (w >> 24) & 255 == w >> 24;
  }

  function Concat(pieces: seq<seq<Byte>>): seq<Byte> {
    if pieces == [] then [] else Concat(pieces[..|pieces| - 1]) + pieces[|pieces| - 1]
  }

  lemma ConcatSnoc(pieces: seq<seq<Byte>>, i: nat)
    requires i < |pieces|
    ensures Concat(pieces[..i + 1]) == Concat(pieces[..i]) + pieces[i]
  {
    assert pieces[..i + 1][..i] == pieces[..i];
  }

  // The sum of the length of a piece and the number of bytes that are kept does not wrap around.
  predicate PieceFits(pieces: seq<seq<Byte>>, i: nat)
    requires i < |pieces|
  {
    |Concat(pieces[..i])| % 64 + |pieces[i]| < TWO32
  }

  // one call of SHA1Update after the other
  method Feed(context: Sha1Context, pieces: seq<seq<Byte>>) returns (inside: bool)
    requires context.Valid() && context.fed == []
    requires forall p | p in pieces :: |p| < TWO32
    modifies context, context.state, context.buffer
    ensures inside <==> forall i: nat | i < |pieces| :: PieceFits(pieces, i)
    ensures inside ==> context.Valid() && context.fed == Concat(pieces)
  {
    hide Absorbed, Concat, Count0, Count1;
    assert Concat(pieces[..0]) == [] by { NoPieces(); }
    for i := 0 to |pieces|
      invariant context.Valid() && context.fed == Concat(pieces[..i])
      invariant forall k: nat | k < i :: PieceFits(pieces, k)
    {
      ConcatSnoc(pieces, i);
      inside := context.Update(pieces[i]);
      if !inside {
        assert !PieceFits(pieces, i);
        return;
      }
    }
    assert pieces[..|pieces|] == pieces;
    inside := true;
  }

  lemma NoPieces()
    ensures Concat([]) == []
  {
  }

  // However a message is cut into calls of SHA1Update, the digest is the one of RFC 3174.
  method HashPieces(pieces: seq<seq<Byte>>) returns (inside: bool, digest: array<Byte>)
    requires forall p | p in pieces :: |p| < TWO32
    ensures inside <==> forall i: nat | i < |pieces| :: PieceFits(pieces, i)
    ensures inside ==> digest[..] == Digest(Concat(pieces))
  {
    hide Digest, Absorbed, Concat, PieceFits, Count0, Count1;
    digest := new Byte[20];
    var context := new Sha1Context();
    inside := Feed(context, pieces);
    if inside {
      context.Final(digest);
    }
  }

  lemma AbsorbedAllBlocks(state: seq<Word>, fed: seq<Byte>, data: seq<Byte>, i: nat)
    requires |state| == 5 && i <= |data| < i + 64 && (|fed| + i) % 64 == 0
    requires RegistersOf(state) == Chain((fed + data)[..|fed| + i])
    ensures Absorbed(state, data[i..], fed + data)
    ensures (|fed| + |data|) % 64 == |data| - i
  {
    hide Chain;
    var all := fed + data;
    assert |data[i..]| == |all| % 64;
    assert |all| - |data[i..]| == |fed| + i;
    assert all[|fed| + i..] == data[i..];
  }

  // the bytes that are kept and the start of data
  lemma FirstBlock(state: seq<Word>, kept: seq<Byte>, fed: seq<Byte>, data: seq<Byte>)
    requires |state| == 5 && Absorbed(state, kept, fed) && |kept| + |data| > 63
    ensures |kept| < 64
    ensures Chain((fed + data)[..|fed| + (64 - |kept|)])
         == Compress(RegistersOf(state), kept + data[..64 - |kept|])
  {
    hide Chain, RegistersOf, Compress;
    var all, done := fed + data, |fed| - |kept|;
    assert all[..done] == fed[..done];
    assert all[done..done + 64] == kept + data[..64 - |kept|];
    AddBlock(all, done, kept + data[..64 - |kept|]);
  }

  lemma Joined(b: seq<Byte>, j: nat, block: seq<Byte>)
    requires j <= |b| == |block| && b[..j] == block[..j] && b[j..] == block[j..]
    ensures b == block
  {
    assert b == b[..j] + b[j..] && block == block[..j] + block[j..];
  }

  lemma AllAbsorbed(state: seq<Word>, kept: seq<Byte>, data: seq<Byte>)
    requires |state| == 5 && |data| % 64 == 0 && kept == [] && Absorbed(state, kept, data)
    ensures RegistersOf(state) == Chain(data)
  {
    assert data[..|data|] == data;
  }

  lemma AbsorbedLittle(state: seq<Word>, kept: seq<Byte>, fed: seq<Byte>, data: seq<Byte>)
    requires |state| == 5 && |kept| == |fed| % 64 && Absorbed(state, kept, fed)
    requires |kept| + |data| < 64
    ensures Absorbed(state, kept + data, fed + data)
    ensures (|fed| + |data|) % 64 == |kept| + |data|
  {
    hide Chain;
    var all := fed + data;
    assert |all| % 64 == |kept| + |data|;
    assert all[..|all| - |kept + data|] == fed[..|fed| - |kept|];
  }

  lemma AddBlock(all: seq<Byte>, done: nat, block: seq<Byte>)
    requires done % 64 == 0 && done + 64 <= |all| && block == all[done..done + 64]
    ensures (done + 64) % 64 == 0
    ensures Chain(all[..done + 64]) == Compress(Chain(all[..done]), block)
  {
    hide Chain, Compress;
    ChainOfOneMore(all[..done], block);
    assert all[..done] + block == all[..done + 64];
  }
}
