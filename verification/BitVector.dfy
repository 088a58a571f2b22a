// The expandable bit vector of vm/BitVector.cpp.

module BitVectors {
  import opened Common
  import opened Bits

  // ----- The bits of a word -----

  // 1 << k
  function Mask(k: nat): (m: Word)
    ensures IsPower2(m)
  {
    match k
    case 0 => 0x1 case 1 => 0x2 case 2 => 0x4 case 3 => 0x8
    case 4 => 0x10 case 5 => 0x20 case 6 => 0x40 case 7 => 0x80
    case 8 => 0x100 case 9 => 0x200 case 10 => 0x400 case 11 => 0x800
    case 12 => 0x1000 case 13 => 0x2000 case 14 => 0x4000 case 15 => 0x8000
    case 16 => 0x10000 case 17 => 0x20000 case 18 => 0x40000 case 19 => 0x80000
    case 20 => 0x100000 case 21 => 0x200000 case 22 => 0x400000 case 23 => 0x800000
    case 24 => 0x1000000 case 25 => 0x2000000 case 26 => 0x4000000 case 27 => 0x8000000
    case 28 => 0x10000000 case 29 => 0x20000000 case 30 => 0x40000000
    case _ => 0x80000000
  }

  // the table is what shifting gives
  lemma MaskShifts(k: nat)
    requires k < 31
    ensures Mask(0) == 1 && Mask(k + 1) == Mask(k) << 1 && Mask(k) < Mask(k + 1)
  {
    assert Mask(0) == 1;
    hide Mask;
    if k < 8 {
      Shifts0(k);
    } else if k < 16 {
      Shifts8(k);
    } else if k < 24 {
      Shifts16(k);
    } else {
      Shifts24(k);
    }
  }

  lemma Shifts0(k: nat)
    requires k < 8
    ensures Mask(k + 1) == Mask(k) << 1 && Mask(k) < Mask(k + 1)
  {
  }

  lemma Shifts8(k: nat)
    requires 8 <= k < 16
    ensures Mask(k + 1) == Mask(k) << 1 && Mask(k) < Mask(k + 1)
  {
  }

  lemma Shifts16(k: nat)
    requires 16 <= k < 24
    ensures Mask(k + 1) == Mask(k) << 1 && Mask(k) < Mask(k + 1)
  {
  }

  lemma Shifts24(k: nat)
    requires 24 <= k < 31
    ensures Mask(k + 1) == Mask(k) << 1 && Mask(k) < Mask(k + 1)
  {
  }

  // Word operations have names of their own here too.
  function Or(a: Word, b: Word): Word {
    a | b
  }

  function And(a: Word, b: Word): Word {
    a & b
  }

  function Xor(a: Word, b: Word): Word {
    a ^ b
  }

  function Not(a: Word): Word {
    !a
  }

  function Without(w: Word, m: Word): Word {
    w & !m
  }

  function WithoutLowest(w: Word): Word {
    w & (w - 1)
  }

  function Lowest(w: Word): Word {
    w & (!w + 1)
  }

  // the first r bits of a word
  function LowMask(r: nat): Word {
    Pred(Mask(r))
  }

  predicate Meets(w: Word, m: Word) {
    And(w, m) != 0
  }

  predicate Bit(w: Word, k: nat) {
    Meets(w, Mask(k))
  }

  lemma {:induction false} MasksAscend(j: nat, k: nat)
    requires j < k < 32
    ensures Mask(j) < Mask(k)
    decreases k
  {
    hide Mask;
    MaskShifts(k - 1);
    if j < k - 1 {
      MasksAscend(j, k - 1);
    }
  }

  lemma MasksDiffer(j: nat, k: nat)
    requires j < 32 && k < 32
    ensures Mask(j) == Mask(k) <==> j == k
    ensures Mask(j) < Mask(k) <==> j < k
  {
    hide Mask;
    if j < k {
      MasksAscend(j, k);
    } else if k < j {
      MasksAscend(k, j);
    }
  }

  // What word operations do to one bit: on the words themselves, then by name.

  lemma SingleWords(a: Word, b: Word)
    requires IsPower2(a) && IsPower2(b)
    ensures a & b != 0 <==> a == b
  {
  }

  lemma OrWord(a: Word, b: Word, m: Word)
    requires IsPower2(m)
    ensures (a | b) & m != 0 <==> a & m != 0 || b & m != 0
  {
  }

  lemma AndWord(a: Word, b: Word, m: Word)
    requires IsPower2(m)
    ensures (a & b) & m != 0 <==> a & m != 0 && b & m != 0
  {
  }

  lemma XorWord(a: Word, b: Word, m: Word)
    requires IsPower2(m)
    ensures (a ^ b) & m != 0 <==> (a & m != 0) != (b & m != 0)
  {
  }

  lemma NotWord(a: Word, m: Word)
    requires IsPower2(m)
    ensures !a & m != 0 <==> a & m == 0
  {
  }

  lemma WithoutWord(w: Word, m: Word, n: Word)
    requires m != 0 && m & (m - 1) == 0 && n != 0 && n & (n - 1) == 0
    ensures (w & !m) & n != 0 <==> w & n != 0 && m != n
  {
  }

  lemma WithoutLowestWord(w: Word, m: Word)
    requires IsPower2(m)
    ensures (w & (w - 1)) & m != 0 <==> w & m != 0 && m != w & (!w + 1)
  {
  }

  lemma MeetsItself(a: Word, b: Word)
    requires IsPower2(a) && IsPower2(b)
    ensures Meets(a, b) <==> a == b
  {
    SingleWords(a, b);
  }

  lemma OrMeets(a: Word, b: Word, m: Word)
    requires IsPower2(m)
    ensures Meets(Or(a, b), m) <==> Meets(a, m) || Meets(b, m)
  {
    OrWord(a, b, m);
  }

  lemma AndMeets(a: Word, b: Word, m: Word)
    requires IsPower2(m)
    ensures Meets(And(a, b), m) <==> Meets(a, m) && Meets(b, m)
  {
    AndWord(a, b, m);
  }

  lemma XorMeets(a: Word, b: Word, m: Word)
    requires IsPower2(m)
    ensures Meets(Xor(a, b), m) <==> Meets(a, m) != Meets(b, m)
  {
    XorWord(a, b, m);
  }

  lemma NotMeets(a: Word, m: Word)
    requires IsPower2(m)
    ensures Meets(Not(a), m) <==> !Meets(a, m)
  {
    NotWord(a, m);
  }

  lemma WithoutMeets(w: Word, m: Word, n: Word)
    requires IsPower2(m) && IsPower2(n)
    ensures Meets(Without(w, m), n) <==> Meets(w, n) && m != n
  {
    WithoutWord(w, m, n);
  }

  lemma WithoutLowestMeets(w: Word, m: Word)
    requires IsPower2(m)
    ensures Meets(WithoutLowest(w), m) <==> Meets(w, m) && m != Lowest(w)
  {
    WithoutLowestWord(w, m);
  }

  lemma PredWord(m: Word, n: Word)
    requires IsPower2(m) && IsPower2(n)
    ensures (m - 1) & n != 0 <==> n < m
  {
  }

  lemma PredMeets(m: Word, n: Word)
    requires IsPower2(m) && IsPower2(n)
    ensures Meets(Pred(m), n) <==> n < m
  {
    PredWord(m, n);
  }

  lemma OnesMeet(m: Word)
    requires IsPower2(m)
    ensures Meets(0xffff_ffff, m)
  {
  }

  lemma ZeroMeetsNothing(m: Word)
    ensures !Meets(0, m)
  {
  }

  // A word is 0 only if all its bits are.
  lemma ZeroIsNoBits(w: Word)
    requires forall k: nat | k < 32 :: !Bit(w, k)
    ensures w == 0
  {
    hide And, Mask, Meets, Bit;
    assert !Bit(w, 0) && !Bit(w, 1) && !Bit(w, 2) && !Bit(w, 3) && !Bit(w, 4) && !Bit(w, 5) && !Bit(w, 6) && !Bit(w, 7);
    assert !Bit(w, 8) && !Bit(w, 9) && !Bit(w, 10) && !Bit(w, 11) && !Bit(w, 12) && !Bit(w, 13) && !Bit(w, 14);
    assert !Bit(w, 15) && !Bit(w, 16) && !Bit(w, 17) && !Bit(w, 18) && !Bit(w, 19) && !Bit(w, 20) && !Bit(w, 21);
    assert !Bit(w, 22) && !Bit(w, 23) && !Bit(w, 24) && !Bit(w, 25) && !Bit(w, 26) && !Bit(w, 27) && !Bit(w, 28);
    assert !Bit(w, 29) && !Bit(w, 30) && !Bit(w, 31);
    NoBitsIn0(w);
    NoBitsIn8(w);
    NoBitsIn16(w);
    NoBitsIn24(w);
    FourBytes(w);
  }

  lemma FourBytes(w: Word)
    requires And(w, 0xff) == 0 && And(w, 0xff00) == 0 && And(w, 0xff_0000) == 0 && And(w, 0xff00_0000) == 0
    ensures w == 0
  {
  }

  lemma NoBitsIn0(w: Word)
    requires !Bit(w, 0) && !Bit(w, 1) && !Bit(w, 2) && !Bit(w, 3)
    requires !Bit(w, 4) && !Bit(w, 5) && !Bit(w, 6) && !Bit(w, 7)
    ensures And(w, 0xff) == 0
  {
  }

  lemma NoBitsIn8(w: Word)
    requires !Bit(w, 8) && !Bit(w, 9) && !Bit(w, 10) && !Bit(w, 11)
    requires !Bit(w, 12) && !Bit(w, 13) && !Bit(w, 14) && !Bit(w, 15)
    ensures And(w, 0xff00) == 0
  {
  }

  lemma NoBitsIn16(w: Word)
    requires !Bit(w, 16) && !Bit(w, 17) && !Bit(w, 18) && !Bit(w, 19)
    requires !Bit(w, 20) && !Bit(w, 21) && !Bit(w, 22) && !Bit(w, 23)
    ensures And(w, 0xff_0000) == 0
  {
  }

  lemma NoBitsIn24(w: Word)
    requires !Bit(w, 24) && !Bit(w, 25) && !Bit(w, 26) && !Bit(w, 27)
    requires !Bit(w, 28) && !Bit(w, 29) && !Bit(w, 30) && !Bit(w, 31)
    ensures And(w, 0xff00_0000) == 0
  {
  }

  ghost function BitsOf(w: Word): set<nat> {
    set k: nat | k < 32 && Bit(w, k)
  }

  lemma LowestIsSingle(w: Word)
    requires w != 0
    ensures IsPower2(Lowest(w)) && Lowest(w) != 0
  {
  }

  lemma LowestIsIn(w: Word)
    ensures w != 0 ==> Meets(w, Lowest(w))
  {
  }

  // the lowest bit that is set
  lemma LowestBit(w: Word) returns (k: nat)
    requires w != 0
    ensures k < 32 && Mask(k) == Lowest(w) && Bit(w, k)
  {
    hide Mask, IsPower2, Lowest, Meets;
    LowestIsSingle(w);
    NotAllZero(Lowest(w));
    k :| k < 32 && Bit(Lowest(w), k);
    MaskIsPower2(k);
    MeetsItself(Lowest(w), Mask(k));
    LowestIsIn(w);
  }

  lemma LowestIsTheOne(w: Word, k: nat, j: nat)
    requires j < 32 && k < 32 && Mask(k) == Lowest(w)
    ensures Bit(WithoutLowest(w), j) <==> Bit(w, j) && j != k
  {
    MaskIsPower2(j);
    hide Mask, IsPower2, Lowest, WithoutLowest, Meets;
    WithoutLowestMeets(w, Mask(j));
    MasksDiffer(j, k);
  }

  // val &= val - 1 takes one bit away.
  lemma OneBitLess(w: Word)
    requires w != 0
    ensures BitsOf(WithoutLowest(w)) <= BitsOf(w) && |BitsOf(w)| == |BitsOf(WithoutLowest(w))| + 1
  {
    hide Mask, Bit, WithoutLowest;
    var k := LowestBit(w);
    forall j: nat | j < 32
      ensures Bit(WithoutLowest(w), j) <==> Bit(w, j) && j != k
    {
      LowestIsTheOne(w, k, j);
    }
    assert BitsOf(WithoutLowest(w)) == BitsOf(w) - {k};
  }

  lemma MaskIsPower2(k: nat)
    ensures IsPower2(Mask(k))
  {
  }

  lemma NotAllZero(w: Word)
    requires w != 0
    ensures exists k: nat :: k < 32 && Bit(w, k)
  {
    if forall k: nat | k < 32 :: !Bit(w, k) {
      ZeroIsNoBits(w);
    }
  }

  ghost function UpTo(n: nat): (numbers: set<nat>)
    ensures |numbers| == n && forall k: nat :: k in numbers <==> k < n
  {
    if n == 0 then {} else UpTo(n - 1) + {n - 1}
  }

  lemma AllBits()
    ensures forall k: nat | k < 32 :: Bit(0xffff_ffff, k) && !Bit(0, k)
    ensures |BitsOf(0xffff_ffff)| == 32 && BitsOf(0) == {}
  {
    hide Mask, Meets, IsPower2;
    forall k: nat | k < 32
      ensures Bit(0xffff_ffff, k) && !Bit(0, k)
    {
      MaskIsPower2(k);
      OnesMeet(Mask(k));
      ZeroMeetsNothing(Mask(k));
    }
    assert BitsOf(0xffff_ffff) == UpTo(32);
  }

  // the loop of dvmCountSetBits over one word
  method CountWord(word: Word) returns (count: nat)
    ensures count == |BitsOf(word)|
  {
    hide BitsOf;
    AllBits();
    count := 0;
    var val := word;
    if val != 0 {
      if val == 0xffff_ffff {
        count := count + 32;
      } else {
        while val != 0
          invariant count + |BitsOf(val)| == |BitsOf(word)|
          decreases |BitsOf(val)|
        {
          OneBitLess(val);
          val := WithoutLowest(val);
          count := count + 1;
        }
      }
    }
  }

  // ffs of the C library
  method FindFirstSet(w: Word) returns (r: nat)
    ensures w == 0 ==> r == 0
    ensures w != 0 ==> 1 <= r <= 32 && Bit(w, r - 1) && forall k: nat | k < r - 1 :: !Bit(w, k)
  {
    hide Mask;
    if w == 0 {
      return 0;
    }
    NotAllZero(w);
    r := 0;
    while r < 32 && !Bit(w, r)
      invariant r <= 32 && forall k: nat | k < r :: !Bit(w, k)
    {
      r := r + 1;
    }
    r := r + 1;
  }

  // ----- The numbers in a sequence of words -----

  predicate Has(words: seq<Word>, n: nat) {
    n / 32 < |words| && Bit(words[n / 32], n % 32)
  }

  ghost function Members(words: seq<Word>): set<nat> {
    set n: nat | n < 32 * |words| && Has(words, n)
  }

  lemma MemberIff(words: seq<Word>)
    ensures forall n: nat :: n in Members(words) <==> Has(words, n)
  {
  }

  ghost function Shifted(bits: set<nat>, offset: nat): set<nat> {
    set k | k in bits :: offset + k
  }

  lemma {:induction false} ShiftedSize(bits: set<nat>, offset: nat)
    ensures |Shifted(bits, offset)| == |bits|
  {
    if bits != {} {
      var k :| k in bits;
      ShiftedSize(bits - {k}, offset);
      forall n
        ensures n in Shifted(bits, offset) <==> n in Shifted(bits - {k}, offset) || n == offset + k
      {
        if n in Shifted(bits, offset) && n != offset + k {
          var j :| j in bits && n == offset + j;
          assert j in bits - {k};
        }
      }
      assert Shifted(bits, offset) == Shifted(bits - {k}, offset) + {offset + k};
    } else {
      assert Shifted(bits, offset) == {};
    }
  }

  lemma MembersSnoc(words: seq<Word>, w: Word)
    ensures |Members(words + [w])| == |Members(words)| + |BitsOf(w)|
  {
    hide Bit;
    var all, more := words + [w], Shifted(BitsOf(w), 32 * |words|);
    forall n: nat
      ensures n in Members(all) <==> n in Members(words) || n in more
    {
      if n / 32 < |words| {
        assert all[n / 32] == words[n / 32];
        assert n !in more;
      } else if n / 32 == |words| {
        assert n == 32 * |words| + n % 32;
        assert Has(all, n) <==> n % 32 in BitsOf(w);
      }
    }
    assert Members(all) == Members(words) + more;
    assert Members(words) !! more;
    ShiftedSize(BitsOf(w), 32 * |words|);
  }

  // Writing one bit.
  lemma SetOneBit(words: seq<Word>, n: nat)
    requires n / 32 < |words|
    ensures Members(words[n / 32 := Or(words[n / 32], Mask(n % 32))]) == Members(words) + {n}
  {
    hide Mask, Bit, Or;
    var after := words[n / 32 := Or(words[n / 32], Mask(n % 32))];
    forall k: nat | k / 32 < |words|
      ensures Has(after, k) <==> Has(words, k) || k == n
    {
      if k / 32 == n / 32 {
        SetWordBit(words[n / 32], n % 32, k % 32);
      }
    }
    MemberIff(words);
    MemberIff(after);
  }

  lemma SetWordBit(w: Word, j: nat, k: nat)
    requires j < 32 && k < 32
    ensures Bit(Or(w, Mask(j)), k) <==> Bit(w, k) || k == j
  {
    hide Mask, Or, Meets, IsPower2;
    MaskIsPower2(j);
    MaskIsPower2(k);
    MasksDiffer(j, k);
    OrMeets(w, Mask(j), Mask(k));
    MeetsItself(Mask(j), Mask(k));
  }

  lemma ClearOneBit(words: seq<Word>, n: nat)
    requires n / 32 < |words|
    ensures Members(words[n / 32 := Without(words[n / 32], Mask(n % 32))]) == Members(words) - {n}
  {
    hide Mask, Bit, Without;
    var after := words[n / 32 := Without(words[n / 32], Mask(n % 32))];
    forall k: nat | k / 32 < |words|
      ensures Has(after, k) <==> Has(words, k) && k != n
    {
      if k / 32 == n / 32 {
        ClearWordBit(words[n / 32], n % 32, k % 32);
      }
    }
    MemberIff(words);
    MemberIff(after);
  }

  lemma ClearWordBit(w: Word, j: nat, k: nat)
    requires j < 32 && k < 32
    ensures Bit(Without(w, Mask(j)), k) <==> Bit(w, k) && k != j
  {
    hide Mask, Without, Meets, IsPower2;
    MaskIsPower2(j);
    MaskIsPower2(k);
    MasksDiffer(j, k);
    WithoutMeets(w, Mask(j), Mask(k));
  }

  // More words of zeros change nothing.
  lemma Grown(words: seq<Word>, zeros: seq<Word>)
    requires forall i | 0 <= i < |zeros| :: zeros[i] == 0
    ensures Members(words + zeros) == Members(words)
  {
    MemberIff(words);
    MemberIff(words + zeros);
  }

  // ----- Word by word -----

  lemma SameBits(a: Word, b: Word)
    requires forall k: nat | k < 32 :: Bit(a, k) <==> Bit(b, k)
    ensures a == b
  {
    hide Mask, Xor, Meets, IsPower2;
    forall k: nat | k < 32
      ensures !Bit(Xor(a, b), k)
    {
      MaskIsPower2(k);
      XorMeets(a, b, Mask(k));
      assert Bit(a, k) <==> Bit(b, k);
    }
    ZeroIsNoBits(Xor(a, b));
    XorIsZero(a, b);
  }

  lemma XorIsZero(a: Word, b: Word)
    ensures Xor(a, b) == 0 <==> a == b
  {
    hide Xor;
    XorCancels(a, b);
    XorWithZero(b);
  }

  lemma XorCancels(a: Word, b: Word)
    ensures Xor(Xor(a, b), b) == a && Xor(a, a) == 0
  {
  }

  lemma XorWithZero(a: Word)
    ensures Xor(0, a) == a
  {
  }

  lemma UnionOfWords(a: seq<Word>, b: seq<Word>, c: seq<Word>)
    requires |a| == |b| == |c| && forall i | 0 <= i < |a| :: c[i] == Or(a[i], b[i])
    ensures Members(c) == Members(a) + Members(b)
  {
    hide Mask, Meets, Or, And, IsPower2;
    forall n: nat
      ensures Has(c, n) <==> Has(a, n) || Has(b, n)
    {
      if n / 32 < |a| {
        MaskIsPower2(n % 32);
        OrMeets(a[n / 32], b[n / 32], Mask(n % 32));
      }
    }
    MemberIff(a);
    MemberIff(b);
    MemberIff(c);
  }

  lemma IntersectionOfWords(a: seq<Word>, b: seq<Word>, c: seq<Word>)
    requires |a| == |b| == |c| && forall i | 0 <= i < |a| :: c[i] == And(a[i], b[i])
    ensures Members(c) == Members(a) * Members(b)
  {
    hide Mask, Meets, Or, And, IsPower2;
    forall n: nat
      ensures Has(c, n) <==> Has(a, n) && Has(b, n)
    {
      if n / 32 < |a| {
        MaskIsPower2(n % 32);
        AndMeets(a[n / 32], b[n / 32], Mask(n % 32));
      }
    }
    MemberIff(a);
    MemberIff(b);
    MemberIff(c);
  }

  // Vectors of one size are equal if they have the same members.
  lemma SameMembers(a: seq<Word>, b: seq<Word>)
    requires |a| == |b| && Members(a) == Members(b)
    ensures a == b
  {
    hide Bit;
    MemberIff(a);
    MemberIff(b);
    forall i | 0 <= i < |a|
      ensures a[i] == b[i]
    {
      forall k: nat | k < 32
        ensures Bit(a[i], k) <==> Bit(b[i], k)
      {
        assert (32 * i + k) / 32 == i && (32 * i + k) % 32 == k;
        assert Has(a, 32 * i + k) <==> Has(b, 32 * i + k);
      }
      SameBits(a[i], b[i]);
    }
  }

  class BitVector {
    const expandable: bool
    var storageSize: nat
    var storage: array<Word>

    ghost predicate Valid()
      reads this
    {
      storageSize == storage.Length
    }

    ghost function Contents(): set<nat>
      reads this, storage
    {
      Members(storage[..])
    }

    // dvmAllocBitVector
    constructor (startBits: nat, expandable: bool)
      ensures Valid() && Contents() == {} && fresh(storage)
      ensures this.expandable == expandable && storageSize == (startBits + 31) / 32
    {
      var count := (startBits + 31) / 32;
      this.expandable := expandable;
      storageSize := count;
      storage := new Word[count](_ => 0);
      new;
      AllBits();
      MemberIff(storage[..]);
    }

    // realloc and memset
    method Grow(newSize: nat)
      requires Valid() && newSize > storageSize
      modifies this`storage, this`storageSize
      ensures Valid() && fresh(storage) && storageSize == newSize
      ensures storage[..] == old(storage[..]) + seq(newSize - old(storageSize), _ => 0)
      ensures Contents() == old(Contents())
    {
      var oldStorage := storage;
      var newStorage := new Word[newSize](i requires 0 <= i reads oldStorage =>
        if i < oldStorage.Length then oldStorage[i] else 0);
      ghost var zeros: seq<Word> := seq(newSize - storageSize, _ => 0);
      assert newStorage[..] == oldStorage[..] + zeros;
      Grown(oldStorage[..], zeros);
      storage := newStorage;
      storageSize := newSize;
    }

    // dvmAllocBit: the least number that is not in the set
    method AllocBit() returns (r: int)
      requires Valid()
      modifies this`storage, this`storageSize, storage
      ensures Valid() && (storage == old(storage) || fresh(storage))
      ensures r == -1 <==> !expandable && forall n: nat | n < 32 * old(storageSize) :: n in old(Contents())
      ensures r == -1 ==> Contents() == old(Contents()) && storageSize == old(storageSize)
      ensures r != -1 ==> 0 <= r && r !in old(Contents()) && forall n: nat | n < r :: n in old(Contents())
      ensures r != -1 ==> Contents() == old(Contents()) + {r}
      ensures storageSize == old(storageSize) + if r == 32 * old(storageSize) then 4 else 0
    {
      ghost var members := Contents();
      MemberIff(storage[..]);
      r := FirstFree();
      if r == -1 {
        if !expandable {
          return;
        }
        Grow(storageSize + 4);
        MemberIff(storage[..]);
        assert 32 * old(storageSize) / 32 == old(storageSize);
        assert !Has(storage[..], 32 * old(storageSize));
        r := FirstFree();
        assert Has(storage[..], 32 * old(storageSize)) || r != -1;
      }
      Set(r);
    }

    // the loop of dvmAllocBit, up to where it marks the bit
    method FirstFree() returns (r: int)
      requires Valid()
      ensures r == -1 ==> forall n: nat | n < 32 * storageSize :: Has(storage[..], n)
      ensures r != -1 ==> 0 <= r < 32 * storageSize && !Has(storage[..], r)
      ensures r != -1 ==> forall n: nat | n < r :: Has(storage[..], n)
    {
      hide Bit;
      ghost var words := storage[..];
      AllBits();
      var word: nat := 0;
      while word < storageSize
        invariant word <= storageSize && forall n: nat | n < 32 * word :: Has(words, n)
      {
        var w := storage[word];
        if w != 0xffff_ffff {
          var bit := FindFirstSet(Not(w));
          NotAllOnes(w);
          FreeBits(w);
          forall n: nat | n < 32 * word + (bit - 1)
            ensures Has(words, n)
          {
            if n >= 32 * word {
              assert n / 32 == word && n % 32 < bit - 1;
            }
          }
          assert (32 * word + (bit - 1)) / 32 == word && (32 * word + (bit - 1)) % 32 == bit - 1;
          return 32 * word + (bit - 1);
        }
        forall n: nat | n < 32 * (word + 1)
          ensures Has(words, n)
        {
          if n >= 32 * word {
            assert n / 32 == word;
          }
        }
        word := word + 1;
      }
      return -1;
    }

    // the store that marks a bit
    method Set(num: nat)
      requires Valid() && num < 32 * storageSize
      modifies storage
      ensures Contents() == old(Contents()) + {num}
    {
      hide Mask, Or, Members;
      ghost var words := storage[..];
      SetOneBit(words, num);
      storage[num / 32] := Or(storage[num / 32], Mask(num % 32));
      assert storage[..] == words[num / 32 := Or(words[num / 32], Mask(num % 32))];
    }

    // dvmSetBit; this answers false where the code aborts, because the vector must not grow, or where its assert fails,
    // because the number of words for the last 32 bit numbers wraps around
    method SetBit(num: u4) returns (okay: bool)
      requires Valid()
      modifies this`storage, this`storageSize, storage
      ensures Valid() && (storage == old(storage) || fresh(storage))
      ensures okay <==> num < 32 * old(storageSize) || (expandable && num < TWO32 - 32)
      ensures okay ==> Contents() == old(Contents()) + {num} && num < 32 * storageSize
      ensures !okay ==> Contents() == old(Contents())
      ensures storageSize == if okay && num >= 32 * old(storageSize) then num / 32 + 1 else old(storageSize)
    {
      hide Members;
      if num >= storageSize * 32 {
        if !expandable {
          return false;
        }
        var newSize := (num + 1 + 31) % TWO32 / 32;
        if newSize <= storageSize {
          return false;
        }
        Grow(newSize);
      }
      Set(num);
      return true;
    }

    // dvmClearBit
    method ClearBit(num: nat)
      requires Valid() && num < 32 * storageSize
      modifies storage
      ensures Contents() == old(Contents()) - {num}
    {
      hide Mask, Without, Members;
      ghost var words := storage[..];
      ClearOneBit(words, num);
      storage[num / 32] := Without(storage[num / 32], Mask(num % 32));
      assert storage[..] == words[num / 32 := Without(words[num / 32], Mask(num % 32))];
    }

    // dvmIsBitSet
    method IsBitSet(num: nat) returns (isSet: bool)
      requires Valid() && num < 32 * storageSize
      ensures isSet <==> num in Contents()
    {
      hide Mask, And;
      MemberIff(storage[..]);
      var val := And(storage[num / 32], Mask(num % 32));
      isSet := val != 0;
    }

    // dvmCountSetBits
    method CountSetBits() returns (count: nat)
      requires Valid()
      ensures count == |Contents()|
    {
      hide BitsOf;
      count := 0;
      ghost var words := storage[..];
      assert Members(words[..0]) == {};
      var word := 0;
      while word < storageSize
        invariant word <= storageSize && count == |Members(words[..word])|
      {
        var bits := CountWord(storage[word]);
        MembersSnoc(words[..word], words[word]);
        assert words[..word + 1] == words[..word] + [words[word]];
        count := count + bits;
        word := word + 1;
      }
      assert words[..word] == words;
    }

    // dvmClearAllBits
    method ClearAllBits()
      requires Valid()
      modifies storage
      ensures Contents() == {}
    {
      var i := 0;
      while i < storageSize
        invariant i <= storageSize && forall k | 0 <= k < i :: storage[k] == 0
      {
        storage[i] := 0;
        i := i + 1;
      }
      assert storage[..] == [] + storage[..];
      Grown([], storage[..]);
      MemberIff([]);
    }

    // dvmSetInitialBits, which leaves the words behind the last one it writes as they are
    method SetInitialBits(numBits: nat)
      requires Valid() && (numBits + 31) / 32 <= storageSize
      modifies storage
      ensures forall n: nat :: n in Contents() <==>
                n < numBits || (n >= (numBits + 31) / 32 * 32 && n in old(Contents()))
    {
      hide Bit, Mask, LowMask;
      ghost var words := storage[..];
      MemberIff(words);
      AllBits();
      var idx: nat := 0;
      while idx < numBits / 32
        invariant idx <= numBits / 32
        invariant forall k | 0 <= k < idx :: storage[k] == 0xffff_ffff
        invariant forall k | idx <= k < storage.Length :: storage[k] == words[k]
      {
        storage[idx] := 0xffff_ffff;
        idx := idx + 1;
      }
      var remNumBits := numBits % 32;
      if remNumBits != 0 {
        storage[idx] := LowMask(remNumBits);
      }
      LowWords(remNumBits);
      MemberIff(storage[..]);
    }

    ghost predicate SameShape(other: BitVector)
      reads this, other
    {
      storageSize == other.storageSize && expandable == other.expandable
    }

    // dvmIntersectBitVectors; the destination may be one of the sources
    method Intersect(src1: BitVector, src2: BitVector) returns (okay: bool)
      requires Valid() && src1.Valid() && src2.Valid()
      modifies storage
      ensures okay <==> SameShape(src1) && SameShape(src2)
      ensures Contents() == if okay then old(src1.Contents()) * old(src2.Contents()) else old(Contents())
    {
      if storageSize != src1.storageSize || storageSize != src2.storageSize
         || expandable != src1.expandable || expandable != src2.expandable {
        return false;
      }
      hide Or, And, Members;
      ghost var a, b := src1.storage[..], src2.storage[..];
      var idx := 0;
      while idx < storageSize
        invariant idx <= storageSize
        invariant forall k | 0 <= k < idx :: storage[k] == And(a[k], b[k])
        invariant forall k | idx <= k < storageSize :: src1.storage[k] == a[k] && src2.storage[k] == b[k]
      {
        storage[idx] := And(src1.storage[idx], src2.storage[idx]);
        idx := idx + 1;
      }
      IntersectionOfWords(a, b, storage[..]);
      return true;
    }

    // dvmUnifyBitVectors; the destination may be one of the sources
    method Unify(src1: BitVector, src2: BitVector) returns (okay: bool)
      requires Valid() && src1.Valid() && src2.Valid()
      modifies storage
      ensures okay <==> SameShape(src1) && SameShape(src2)
      ensures Contents() == if okay then old(src1.Contents()) + old(src2.Contents()) else old(Contents())
    {
      if storageSize != src1.storageSize || storageSize != src2.storageSize
         || expandable != src1.expandable || expandable != src2.expandable {
        return false;
      }
      hide Or, And, Members;
      ghost var a, b := src1.storage[..], src2.storage[..];
      var idx := 0;
      while idx < storageSize
        invariant idx <= storageSize
        invariant forall k | 0 <= k < idx :: storage[k] == Or(a[k], b[k])
        invariant forall k | idx <= k < storageSize :: src1.storage[k] == a[k] && src2.storage[k] == b[k]
      {
        storage[idx] := Or(src1.storage[idx], src2.storage[idx]);
        idx := idx + 1;
      }
      UnionOfWords(a, b, storage[..]);
      return true;
    }

    // dvmCompareBitVectors: true if there is a difference
    method Compare(other: BitVector) returns (different: bool)
      requires Valid() && other.Valid()
      ensures different <==> !SameShape(other) || Contents() != other.Contents()
    {
      if storageSize != other.storageSize || expandable != other.expandable {
        return true;
      }
      var idx := 0;
      while idx < storageSize
        invariant idx <= storageSize && storage[..idx] == other.storage[..idx]
      {
        if storage[idx] != other.storage[idx] {
          assert storage[..][idx] != other.storage[..][idx];
          if Contents() == other.Contents() {
            SameMembers(storage[..], other.storage[..]);
          }
          return true;
        }
        idx := idx + 1;
      }
      assert storage[..] == storage[..idx] && other.storage[..] == other.storage[..idx];
      return false;
    }

    // dvmCopyBitVector; this answers false where checkSizes aborts
    method Copy(src: BitVector) returns (okay: bool)
      requires Valid() && src.Valid()
      modifies storage
      ensures okay <==> storageSize == src.storageSize
      ensures Contents() == if okay then old(src.Contents()) else old(Contents())
    {
      if storageSize != src.storageSize {
        return false;
      }
      ghost var words := src.storage[..];
      var idx := 0;
      while idx < storageSize
        invariant idx <= storageSize && storage[..idx] == words[..idx]
        invariant forall k | idx <= k < storageSize :: src.storage[k] == words[k]
      {
        storage[idx] := src.storage[idx];
        idx := idx + 1;
      }
      assert storage[..] == words;
      return true;
    }

    // dvmCheckMergeBitVectors; okay is false where checkSizes aborts
    method CheckMerge(src: BitVector) returns (okay: bool, changed: bool)
      requires Valid() && src.Valid()
      modifies storage
      ensures okay <==> storageSize == src.storageSize
      ensures Contents() == if okay then old(Contents()) + old(src.Contents()) else old(Contents())
      ensures changed <==> old(Contents()) < Contents()
    {
      hide Or, Members;
      if storageSize != src.storageSize {
        return false, false;
      }
      ghost var a, b := storage[..], src.storage[..];
      changed := MergeWords(src);
      UnionOfWords(b, a, storage[..]);
      if Members(storage[..]) == Members(a) {
        SameMembers(storage[..], a);
      }
      okay := true;
    }

    // its loop
    method MergeWords(src: BitVector) returns (changed: bool)
      requires Valid() && src.Valid() && storageSize == src.storageSize
      modifies storage
      ensures forall k | 0 <= k < storageSize :: storage[k] == Or(old(src.storage[k]), old(storage[k]))
      ensures changed <==> storage[..] != old(storage[..])
    {
      hide Or;
      ghost var a, b := storage[..], src.storage[..];
      changed := false;
      var idx := 0;
      while idx < storageSize
        invariant idx <= storageSize
        invariant forall k | 0 <= k < idx :: storage[k] == Or(b[k], a[k])
        invariant forall k | idx <= k < storageSize :: storage[k] == a[k] && src.storage[k] == b[k]
        invariant changed <==> exists k :: 0 <= k < idx && storage[k] != a[k]
      {
        var merged := Or(src.storage[idx], storage[idx]);
        if storage[idx] != merged {
          storage[idx] := merged;
          changed := true;
        }
        idx := idx + 1;
      }
      assert changed ==> storage[..] != a;
      assert !changed ==> storage[..] == a;
    }
  }

  // dvmBitVectorIteratorInit, dvmBitVectorIteratorNext
  class BitVectorIterator {
    const pBits: BitVector
    const bitSize: nat
    var idx: nat

    constructor (pBits: BitVector)
      requires pBits.Valid()
      ensures this.pBits == pBits && bitSize == 32 * pBits.storageSize && idx == 0
    {
      this.pBits := pBits;
      bitSize := pBits.storageSize * 32;
      idx := 0;
    }

    // the least member from idx on
    method Next() returns (r: int)
      requires pBits.Valid() && bitSize == 32 * pBits.storageSize
      modifies this
      ensures r == -1 ==> idx == old(idx) && forall n: nat | n in pBits.Contents() :: n < idx
      ensures r != -1 ==> old(idx) <= r < bitSize && r in pBits.Contents() && idx == r + 1
      ensures r != -1 ==> forall n: nat | old(idx) <= n < r :: n !in pBits.Contents()
    {
      hide Mask, And;
      MemberIff(pBits.storage[..]);
      var bitIndex: nat := idx;
      if bitIndex >= bitSize {
        return -1;
      }
      while bitIndex < bitSize
        invariant old(idx) <= bitIndex <= bitSize && idx == old(idx)
        invariant forall n: nat | old(idx) <= n < bitIndex :: n !in pBits.Contents()
      {
        if And(pBits.storage[bitIndex / 32], Mask(bitIndex % 32)) != 0 {
          idx := bitIndex + 1;
          return bitIndex;
        }
        bitIndex := bitIndex + 1;
      }
      return -1;
    }
  }

  // The walk callers make: every member, once, in ascending order.
  method Walk(pBits: BitVector) returns (visited: seq<nat>)
    requires pBits.Valid()
    ensures forall i, j | 0 <= i < j < |visited| :: visited[i] < visited[j]
    ensures forall n: nat :: n in visited <==> n in pBits.Contents()
  {
    hide Has, Members;
    visited := [];
    var walk := new BitVectorIterator(pBits);
    while true
      invariant walk.pBits == pBits && walk.bitSize == 32 * pBits.storageSize && fresh(walk)
      invariant forall i, j | 0 <= i < j < |visited| :: visited[i] < visited[j]
      invariant forall i | 0 <= i < |visited| :: visited[i] < walk.idx
      invariant forall n: nat :: n in visited <==> n in pBits.Contents() && n < walk.idx
      decreases walk.bitSize - walk.idx
    {
      var r := walk.Next();
      if r == -1 {
        return;
      }
      assert r < walk.bitSize;
      visited := visited + [r];
    }
  }

  lemma LowWords(r: nat)
    requires r < 32
    ensures forall k: nat | k < 32 :: Bit(LowMask(r), k) <==> k < r
  {
    hide Mask, Meets, Pred, IsPower2;
    MaskIsPower2(r);
    forall k: nat | k < 32
      ensures Bit(LowMask(r), k) <==> k < r
    {
      MaskIsPower2(k);
      MasksDiffer(k, r);
      PredMeets(Mask(r), Mask(k));
    }
  }

  lemma NotAllOnes(w: Word)
    requires w != 0xffff_ffff
    ensures Not(w) != 0
  {
  }

  lemma FreeBits(w: Word)
    ensures forall k: nat | k < 32 :: Bit(Not(w), k) <==> !Bit(w, k)
  {
    hide Mask, Meets, Not, IsPower2;
    forall k: nat | k < 32
      ensures Bit(Not(w), k) <==> !Bit(w, k)
    {
      MaskIsPower2(k);
      NotMeets(w, Mask(k));
    }
  }
}
