// 32-bit words and the numbers they stand for, and dexRoundUpPower2 of libdex/DexFile.cpp.

module Bits {
  import opened Common

  type Word = bv32

  // Word operations have names of their own, so that proofs about numbers can hide what they do to bits.
  function Half(w: Word): Word {
    w >> 1
  }

  function Double(half: Word, bit: nat): Word {
    (half << 1) | if bit == 1 then 1 else 0
  }

  function LowBit(w: Word): (bit: nat)
    ensures bit <= 1
  {
    if w & 1 == 1 then 1 else 0
  }

  function Succ(w: Word): Word {
    w + 1
  }

  function Pred(w: Word): Word {
    w - 1
  }

  function HighBit(w: Word): (bit: nat)
    ensures bit <= 1
  {
    if w & 0x8000_0000 != 0 then 1 else 0
  }

  // the number a word stands for, bit by bit
  function Value(w: Word): (v: nat)
    ensures w != 0 ==> v > 0
    decreases w
  {
    if w == 0 then 0
    else
      HalfIsLess(w);
      LowBit(w) + 2 * Value(Half(w))
  }

  lemma HalfIsLess(w: Word)
    ensures w != 0 ==> Half(w) < w && (LowBit(w) == 1 || Half(w) != 0)
    ensures Half(0) == 0 && LowBit(0) == 0
  {
  }

  lemma Halve(w: Word)
    ensures Value(w) == LowBit(w) + 2 * Value(Half(w))
  {
    hide Half, LowBit;
    HalfIsLess(w);
  }

  lemma {:induction false} Increment(w: Word)
    requires w != 0xffff_ffff
    ensures Value(Succ(w)) == Value(w) + 1
    decreases Value(w)
  {
    hide Value, Half, LowBit, Succ;
    HalfOfNext(w);
    Halve(w);
    Halve(Succ(w));
    if LowBit(w) == 1 {
      Increment(Half(w));
    }
  }

  lemma HalfOfNext(w: Word)
    requires w != 0xffff_ffff
    ensures LowBit(w) == 0 ==> Half(Succ(w)) == Half(w) && LowBit(Succ(w)) == 1
    ensures LowBit(w) == 1 ==> Half(w) != 0xffff_ffff && Half(Succ(w)) == Succ(Half(w)) && LowBit(Succ(w)) == 0
  {
  }

  // Eight bits at a time.
  function Byte(w: Word): Word {
    w >> 8
  }

  lemma ByteIsHalves(w: Word)
    ensures Byte(w) == Half(Half(Half(Half(Half(Half(Half(Half(w))))))))
  {
  }

  lemma SplitByte(w: Word)
    ensures 0x100 * Value(Byte(w)) <= Value(w) < 0x100 * Value(Byte(w)) + 0x100
  {
    hide Value, Half, LowBit, Byte;
    ByteIsHalves(w);
    var w1 := Half(w);
    var w2 := Half(w1);
    var w3 := Half(w2);
    var w4 := Half(w3);
    var w5 := Half(w4);
    var w6 := Half(w5);
    var w7 := Half(w6);
    Halve(w);
    Halve(w1);
    Halve(w2);
    Halve(w3);
    Halve(w4);
    Halve(w5);
    Halve(w6);
    Halve(w7);
  }

  lemma TopByte(w: Word)
    ensures Byte(Byte(Byte(Byte(w)))) == 0
    ensures Half(Half(Half(Half(Half(Half(Half(Byte(Byte(Byte(w)))))))))) == if HighBit(w) == 1 then 1 else 0
  {
  }

  lemma ValueOfOne()
    ensures Value(1) == 1 && Value(0) == 0
  {
    Halve(1);
  }

  lemma SplitTopByte(w: Word)
    ensures var top := Half(Half(Half(Half(Half(Half(Half(w)))))));
            0x80 * Value(top) <= Value(w) < 0x80 * Value(top) + 0x80
  {
    hide Value, Half, LowBit;
    var w1 := Half(w);
    var w2 := Half(w1);
    var w3 := Half(w2);
    var w4 := Half(w3);
    var w5 := Half(w4);
    var w6 := Half(w5);
    Halve(w);
    Halve(w1);
    Halve(w2);
    Halve(w3);
    Halve(w4);
    Halve(w5);
    Halve(w6);
  }

  // A word is a number below 2^32, and its highest bit tells whether it is below 2^31.
  lemma SplitHighBit(w: Word)
    ensures Value(w) < 0x1_0000_0000
    ensures HighBit(w) == 0 <==> Value(w) < 0x8000_0000
  {
    hide Value, Half, LowBit, Byte, HighBit;
    ValueOfOne();
    TopByte(w);
    SplitByte(w);
    SplitByte(Byte(w));
    SplitByte(Byte(Byte(w)));
    SplitByte(Byte(Byte(Byte(w))));
    SplitTopByte(Byte(Byte(Byte(w))));
  }

  // the word for a number
  function WordOf(n: nat): (w: Word)
    requires n < 0x1_0000_0000
    ensures Value(w) == n
    decreases n
  {
    if n == 0 then 0
    else
      var half := WordOf(n / 2);
      DoubleHalves(half, n % 2);
      Double(half, n % 2)
  }

  lemma DoubleHalves(half: Word, bit: nat)
    requires Value(half) < 0x8000_0000 && bit <= 1
    ensures Value(Double(half, bit)) == bit + 2 * Value(half)
  {
    hide Value, Half, LowBit, Double, HighBit;
    SplitHighBit(half);
    HalfOfDouble(half, bit);
    Halve(Double(half, bit));
  }

  lemma HalfOfDouble(half: Word, bit: nat)
    requires HighBit(half) == 0 && bit <= 1
    ensures Half(Double(half, bit)) == half && LowBit(Double(half, bit)) == bit
  {
  }

  function Power2(k: nat): (p: nat)
    ensures p > 0
  {
    if k == 0 then 1 else 2 * Power2(k - 1)
  }

  predicate IsPower2(w: Word) {
    w != 0 && w & (w - 1) == 0
  }

  lemma {:induction false} PowerWord(w: Word) returns (k: nat)
    requires IsPower2(w)
    ensures Value(w) == Power2(k)
    decreases w
  {
    hide Value, Half, LowBit, IsPower2;
    if w == 1 {
      k := 0;
      ValueOfOne();
    } else {
      SizeHalves(w);
      Halve(w);
      var j := PowerWord(Half(w));
      k := j + 1;
    }
  }

  // x & (size - 1)
  function MaskWord(x: Word, size: Word): Word {
    x & (size - 1)
  }

  // A mask of size-1, for a size that is a power of two, is the remainder.
  lemma {:induction false} MaskIsRemainder(x: Word, size: Word)
    requires IsPower2(size)
    ensures Value(size) > 0 && Value(MaskWord(x, size)) == Value(x) % Value(size)
    decreases size
  {
    hide Value, Half, LowBit, IsPower2, MaskWord;
    ValueOfOne();
    if size == 1 {
      MaskOfOne(x);
    } else {
      SizeHalves(size);
      MaskIsRemainder(Half(x), Half(size));
      MaskUnfolds(x, size);
    }
  }

  // a & (size - 1) on numbers, for a size that is a power of two
  function Masked(a: nat, size: nat): (r: nat)
    requires size > 0
    ensures r < size
  {
    a % size
  }

  lemma MaskOfOne(x: Word)
    ensures MaskWord(x, 1) == 0
  {
  }

  lemma SizeHalves(size: Word)
    requires IsPower2(size) && size != 1
    ensures LowBit(size) == 0 && IsPower2(Half(size)) && Half(size) < size
  {
  }

  lemma MaskHalves(x: Word, size: Word)
    requires IsPower2(size) && size != 1
    ensures Half(MaskWord(x, size)) == MaskWord(Half(x), Half(size))
    ensures LowBit(MaskWord(x, size)) == LowBit(x)
  {
  }

  lemma MaskUnfolds(x: Word, size: Word)
    requires IsPower2(size) && size != 1
    requires Value(Half(size)) > 0 && Value(MaskWord(Half(x), Half(size))) == Value(Half(x)) % Value(Half(size))
    ensures Value(size) > 0 && Value(MaskWord(x, size)) == Value(x) % Value(size)
  {
    hide Value, Half, LowBit, MaskWord, IsPower2;
    MaskHalves(x, size);
    SizeHalves(size);
    Halve(x);
    Halve(MaskWord(x, size));
    Halve(size);
    RemainderOfDouble(Value(Half(x)), Value(Half(size)), LowBit(x));
  }

  lemma RemainderOfDouble(a: nat, m: nat, bit: nat)
    requires m > 0 && bit <= 1
    ensures (bit + 2 * a) % (2 * m) == bit + 2 * (a % m)
  {
    var q, r := a / m, a % m;
    assert a == q * m + r;
    assert bit + 2 * a == q * (2 * m) + (bit + 2 * r);
    RemainderIs(bit + 2 * a, q, 2 * m, bit + 2 * r);
  }

  lemma RemainderIs(x: nat, q: nat, m: nat, r: nat)
    requires r < m && x == q * m + r
    ensures x % m == r
  {
    var d := x / m - q;
    assert x == x / m * m + x % m;
    assert d * m == r - x % m;
    SmallMultiple(d, m);
  }

  lemma SmallMultiple(d: int, m: int)
    requires 0 < m && -m < d * m < m
    ensures d == 0
  {
    assert d >= 1 ==> d * m >= m;
    assert d <= -1 ==> d * m <= -m;
  }

  // ----- dexRoundUpPower2 -----

  // the least power of two that is at least n
  function LeastPower2(n: nat): (p: nat)
    ensures p >= n && p > 0
  {
    if n <= 1 then 1 else 2 * LeastPower2((n + 1) / 2)
  }

  lemma {:induction false} LeastPower2IsPower(n: nat) returns (k: nat)
    ensures LeastPower2(n) == Power2(k)
  {
    if n <= 1 {
      k := 0;
    } else {
      var j := LeastPower2IsPower((n + 1) / 2);
      k := j + 1;
    }
  }

  // No smaller power of two will do.
  lemma {:induction false} LeastPower2IsLeast(n: nat, k: nat)
    requires n <= Power2(k)
    ensures LeastPower2(n) <= Power2(k)
  {
    if n > 1 {
      assert k > 0;
      LeastPower2IsLeast((n + 1) / 2, k - 1);
    }
  }

  // Every power of two is its own round-up.
  lemma {:induction false} LeastPower2OfPower(k: nat)
    ensures LeastPower2(Power2(k)) == Power2(k)
  {
    if k > 0 {
      LeastPower2OfPower(k - 1);
      assert (Power2(k) + 1) / 2 == Power2(k - 1);
    }
  }

  method RoundUpPower2(val: Word) returns (result: Word)
    ensures RoundsUp(val) ==> IsPower2(result) && Value(result) == LeastPower2(Value(val))
    ensures !RoundsUp(val) ==> result == 0
  {
    hide Value, LeastPower2, IsPower2, RoundsUp;
    var v := val - 1;
    v := v | (v >> 1);
    v := v | (v >> 2);
    v := v | (v >> 4);
    v := v | (v >> 8);
    v := v | (v >> 16);
    v := v + 1;
    result := v;
    assert result == Succ(Smeared(Pred(val)));
    RoundUpIsLeast(val);
  }

  // ... on the numbers that words stand for
  method DexRoundUpPower2(val: u4) returns (result: u4)
    ensures result == if 1 <= val <= 0x8000_0000 then LeastPower2(val) else 0
  {
    hide Value, LeastPower2, WordOf, RoundsUp;
    var w := WordOf(val);
    RoundUpDomain(w);
    var rounded := RoundUpPower2(w);
    SplitHighBit(rounded);
    ValueOfOne();
    result := Value(rounded);
  }

  // the values that are rounded up to something that fits
  predicate RoundsUp(val: Word) {
    val != 0 && HighBit(Pred(val)) == 0
  }

  lemma RoundUpDomain(w: Word)
    ensures RoundsUp(w) <==> 1 <= Value(w) <= 0x8000_0000
  {
    hide Value, HighBit, Pred, Succ;
    ValueOfOne();
    if w != 0 {
      SmearedDomain(w);
      SplitHighBit(Pred(w));
      Increment(Pred(w));
    }
  }

  lemma RoundUpIsLeast(val: Word)
    ensures RoundsUp(val) ==>
              IsPower2(Succ(Smeared(Pred(val)))) && Value(Succ(Smeared(Pred(val)))) == LeastPower2(Value(val))
    ensures !RoundsUp(val) ==> Succ(Smeared(Pred(val))) == 0
  {
    SmearingOverflows(val);
    SmearedDomain(val);
    hide *;
    if RoundsUp(val) {
      RoundUpNext(Pred(val), val);
    }
  }

  lemma RoundUpNext(u: Word, val: Word)
    requires HighBit(u) == 0 && u != 0xffff_ffff && val == Succ(u)
    ensures IsPower2(Succ(Smeared(u))) && Value(Succ(Smeared(u))) == LeastPower2(Value(val))
  {
    hide *;
    SmearingRoundsUp(u);
    SmearedIsPower(u);
    Increment(u);
  }

  // every bit at or below the highest bit of u
  function Smeared(u: Word): Word {
    var b := u | (u >> 1);
    var c := b | (b >> 2);
    var d := c | (c >> 4);
    var e := d | (d >> 8);
    e | (e >> 16)
  }

  lemma SmearingOverflows(val: Word)
    ensures !RoundsUp(val) ==> Succ(Smeared(Pred(val))) == 0
  {
  }

  lemma SmearedDomain(val: Word)
    ensures RoundsUp(val) ==> HighBit(Pred(val)) == 0 && Pred(val) != 0xffff_ffff
    ensures val == Succ(Pred(val)) && (val != 0 ==> Pred(val) != 0xffff_ffff)
  {
  }

  lemma SmearedIsPower(u: Word)
    requires HighBit(u) == 0
    ensures IsPower2(Succ(Smeared(u)))
  {
  }

  lemma {:induction false} SmearingRoundsUp(u: Word)
    requires HighBit(u) == 0
    ensures Value(Succ(Smeared(u))) == LeastPower2(Value(u) + 1)
    decreases u
  {
    hide Smeared, Value, LeastPower2, Half, LowBit, HighBit, Succ;
    if u == 0 {
      SmearedZero();
      ValueOfOne();
      assert LeastPower2(1) == 1 by {
        LeastPower2OfPower(0);
      }
    } else {
      HalfIsLess(u);
      HalfIsShort(u);
      SmearingRoundsUp(Half(u));
      SmearingUnfolds(u);
    }
  }

  lemma HalfIsShort(u: Word)
    ensures HighBit(Half(u)) == 0
  {
  }

  lemma SmearingUnfolds(u: Word)
    requires HighBit(u) == 0 && u != 0
    requires Value(Succ(Smeared(Half(u)))) == LeastPower2(Value(Half(u)) + 1)
    ensures Value(Succ(Smeared(u))) == LeastPower2(Value(u) + 1)
  {
    hide Smeared, LeastPower2, Value, Half, LowBit, HighBit, Succ;
    SmearedHalves(u);
    Halve(u);
    Halve(Succ(Smeared(u)));
    LeastPower2Doubles(Value(u), Value(Half(u)));
  }

  lemma SmearedZero()
    ensures Succ(Smeared(0)) == 1
  {
  }

  lemma SmearedHalves(u: Word)
    requires u != 0 && HighBit(u) == 0
    ensures Half(Succ(Smeared(u))) == Succ(Smeared(Half(u))) && LowBit(Succ(Smeared(u))) == 0
  {
  }

  lemma LeastPower2Doubles(u: nat, half: nat)
    requires u > 0 && 2 * half <= u <= 2 * half + 1
    ensures LeastPower2(u + 1) == 2 * LeastPower2(half + 1)
  {
    assert (u + 1 + 1) / 2 == half + 1;
  }
}
