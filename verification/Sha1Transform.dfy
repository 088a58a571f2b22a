// SHA1Transform of libdex/sha1.cpp, proved equal to the compression of RFC 3174.

module Sha1Transform {
  import opened Common
  import opened Sha1Spec

  // the macro rol for the remaining shift counts
  function Rol8(x: Word): Word { (x << 8) | (x >> 24) }
  function Rol24(x: Word): Word { (x << 24) | (x >> 8) }

  // block->l[i] on a little-endian machine, right after the memcpy
  function LittleEndian(b0: Byte, b1: Byte, b2: Byte, b3: Byte): Word {
    (b0 as Word) | ((b1 as Word) << 8) | ((b2 as Word) << 16) | ((b3 as Word) << 24)
  }

  // the value stored by blk0
  function SwapBytes(l: Word): Word {
    (Rol24(l) & 0xFF00FF00) | (Rol8(l) & 0x00FF00FF)
  }

  lemma SwapBytesOfLittleEndian(b0: Byte, b1: Byte, b2: Byte, b3: Byte)
    ensures SwapBytes(LittleEndian(b0, b1, b2, b3)) == BigEndian(b0, b1, b2, b3)
  {
  }

  // the logical function inside the macros R0 to R4; line i of SHA1Transform uses the i-th
  function Logic(i: nat, w: Word, x: Word, y: Word): Word {
    if i < 20 then (w & (x ^ y)) ^ y                   // R0, R1
    else if i < 40 then w ^ x ^ y                      // R2
    else if i < 60 then ((w | x) & y) | (w & x)        // R3
    else w ^ x ^ y                                     // R4
  }

  // The rewritten choice and majority formulas are the ones of RFC 3174.
  lemma ChoiceFormula(w: Word, x: Word, y: Word)
    ensures (w & (x ^ y)) ^ y == (w & x) | (!w & y)
  {
  }

  lemma MajorityFormula(w: Word, x: Word, y: Word)
    ensures ((w | x) & y) | (w & x) == (w & x) | (w & y) | (x & y)
  {
  }

  lemma LogicIsF(i: nat, w: Word, x: Word, y: Word)
    ensures Logic(i, w, x, y) == F(i, w, x, y)
  {
    hide *;
    if i < 20 {
      LogicIsFEarly(i, w, x, y);
    } else if i < 60 {
      LogicIsFMiddle(i, w, x, y);
    } else {
      LogicIsFLate(i, w, x, y);
    }
  }

  lemma LogicIsFEarly(i: nat, w: Word, x: Word, y: Word)
    requires i < 20
    ensures Logic(i, w, x, y) == F(i, w, x, y)
  {
    ChoiceFormula(w, x, y);
  }

  lemma LogicIsFMiddle(i: nat, w: Word, x: Word, y: Word)
    requires 20 <= i < 60
    ensures Logic(i, w, x, y) == F(i, w, x, y)
  {
    MajorityFormula(w, x, y);
  }

  lemma LogicIsFLate(i: nat, w: Word, x: Word, y: Word)
    requires 60 <= i
    ensures Logic(i, w, x, y) == F(i, w, x, y)
  {
  }

  // The variables a..e in the order (v, w, x, y, z) in which line i names them:
  // (a,b,c,d,e), (e,a,b,c,d), (d,e,a,b,c), (c,d,e,a,b), (b,c,d,e,a), and around again.
  function Named(r: seq<Word>, i: nat): Registers
    requires |r| == 5
  {
    if i % 5 == 0 then Registers(r[0], r[1], r[2], r[3], r[4])
    else if i % 5 == 1 then Registers(r[4], r[0], r[1], r[2], r[3])
    else if i % 5 == 2 then Registers(r[3], r[4], r[0], r[1], r[2])
    else if i % 5 == 3 then Registers(r[2], r[3], r[4], r[0], r[1])
    else Registers(r[1], r[2], r[3], r[4], r[0])
  }

  // the variables that line i names w and z
  function VariableW(i: nat): (k: nat)
    ensures k < 5
  {
    [1, 0, 4, 3, 2][i % 5]
  }

  function VariableZ(i: nat): (k: nat)
    ensures k < 5
  {
    [4, 3, 2, 1, 0][i % 5]
  }

  // the right-hand side of the macro's z += ...
  function Accumulated(z: Word, logic: Word, word: Word, k: Word, s: Word): Word {
    z + (logic + word + k + s)
  }

  lemma AccumulatedIsTemp(z: Word, logic: Word, word: Word, k: Word, s: Word)
    ensures Accumulated(z, logic, word, k, s) == Temp(s, logic, z, word, k)
  {
  }

  // What the sixteen words of the circular schedule hold before line i.
  ghost predicate ScheduleAt(block: seq<Word>, data: seq<Byte>, i: nat)
    requires |block| == 16 && |data| == 64
  {
    && (forall t: nat | i <= t < 16 ::
          block[t] == LittleEndian(data[4 * t], data[4 * t + 1], data[4 * t + 2], data[4 * t + 3]))
    && (forall t: nat | t < i <= t + 16 :: block[t % 16] == W(data, t))
  }

  // the right-hand side of blk
  function Mixed(a: Word, b: Word, c: Word, d: Word): Word {
    S1(a ^ b ^ c ^ d)
  }

  // blk0 or blk of line i
  method NextWord(block: array<Word>, i: nat, ghost data: seq<Byte>)
    requires block.Length == 16 && |data| == 64 && ScheduleAt(block[..], data, i)
    modifies block
    ensures block[i % 16] == W(data, i)
    ensures ScheduleAt(block[..], data, i + 1)
  {
    hide W, SwapBytes, LittleEndian, Mixed;
    ghost var before := block[..];
    WordRecurrence(data, i);
    if i < 16 {
      block[i] := SwapBytes(block[i]);
    } else {
      SlotsOfSchedule(i);
      assert before[(i - 3) % 16] == W(data, i - 3) && before[(i - 8) % 16] == W(data, i - 8);
      assert before[(i - 14) % 16] == W(data, i - 14) && before[(i - 16) % 16] == W(data, i - 16);
      block[i % 16] := Mixed(block[(i + 13) % 16], block[(i + 8) % 16], block[(i + 2) % 16], block[i % 16]);
    }
    forall t: nat | t < i + 1 <= t + 16
      ensures block[..][t % 16] == W(data, t)
    {
      if t < i {
        DifferentSlots(t, i);
        assert before[t % 16] == W(data, t);
      }
    }
  }

  lemma WordRecurrence(data: seq<Byte>, i: nat)
    requires |data| == 64
    ensures i < 16 ==>
              W(data, i) == SwapBytes(LittleEndian(data[4 * i], data[4 * i + 1], data[4 * i + 2], data[4 * i + 3]))
    ensures 16 <= i ==> W(data, i) == Mixed(W(data, i - 3), W(data, i - 8), W(data, i - 14), W(data, i - 16))
  {
    if i < 16 {
      hide SwapBytes, LittleEndian, BigEndian;
      SwapBytesOfLittleEndian(data[4 * i], data[4 * i + 1], data[4 * i + 2], data[4 * i + 3]);
    }
  }

  lemma SlotsOfSchedule(i: nat)
    requires 16 <= i
    ensures (i + 13) % 16 == (i - 3) % 16 && (i + 8) % 16 == (i - 8) % 16
    ensures (i + 2) % 16 == (i - 14) % 16 && i % 16 == (i - 16) % 16
  {
    SameSlot(i - 3);
    SameSlot(i - 8);
    SameSlot(i - 14);
    SameSlot(i - 16);
  }

  lemma SameSlot(i: nat)
    ensures (i + 16) % 16 == i % 16
  {
  }

  lemma DifferentSlots(t: nat, i: nat)
    requires t < i < t + 16
    ensures t % 16 != i % 16
  {
  }

  // One macro line: z += Logic(w,x,y) + word + K + rol(v,5); w = rol(w,30)
  method Line(r: seq<Word>, i: nat, word: Word) returns (r': seq<Word>)
    requires |r| == 5
    ensures |r'| == 5
    ensures Named(r', i + 1) == Round(Named(r, i), i, word)
  {
    hide Logic, F, K, S5, S30, Accumulated, Temp;
    var n := Named(r, i);
    r' := r[VariableZ(i) := Accumulated(n.e, Logic(i, n.b, n.c, n.d), word, K(i), S5(n.a))];
    r' := r'[VariableW(i) := S30(n.b)];
    LogicIsF(i, n.b, n.c, n.d);
    AccumulatedIsTemp(n.e, F(i, n.b, n.c, n.d), word, K(i), S5(n.a));
    assert (i + 1) % 5 == if i % 5 == 4 then 0 else i % 5 + 1;
  }

  function RegistersOf(s: seq<Word>): Registers
    requires |s| == 5
  {
    Registers(s[0], s[1], s[2], s[3], s[4])
  }

  // The eighty macro lines of SHA1Transform, which differ only in the order of a..e and in the
  // index, as one loop over that index.
  method Lines(start: seq<Word>, data: seq<Byte>) returns (r: seq<Word>)
    requires |start| == 5 && |data| == 64
    ensures |r| == 5 && RegistersOf(r) == Rounds(data, RegistersOf(start), 80)
  {
    hide W, Round, Rounds, Named, ScheduleAt;
    var block := LoadBlock(data);
    r := start;
    NoRounds(start, data);
    for i := 0 to 80
      invariant |r| == 5 && Named(r, i) == Rounds(data, RegistersOf(start), i)
      invariant ScheduleAt(block[..], data, i)
    {
      NextWord(block, i, data);
      r := Line(r, i, block[i % 16]);
      OneMoreRound(start, data, i);
    }
    NamedAtEnd(r);
  }

  // memcpy(block, buffer, 64)
  method LoadBlock(data: seq<Byte>) returns (block: array<Word>)
    requires |data| == 64
    ensures fresh(block) && block.Length == 16 && ScheduleAt(block[..], data, 0)
  {
    hide LittleEndian;
    block := new Word[16](t requires 0 <= t < 16 =>
      LittleEndian(data[4 * t], data[4 * t + 1], data[4 * t + 2], data[4 * t + 3]));
  }

  lemma NoRounds(r: seq<Word>, data: seq<Byte>)
    requires |r| == 5 && |data| == 64
    ensures Named(r, 0) == Rounds(data, RegistersOf(r), 0)
  {
  }

  lemma OneMoreRound(start: seq<Word>, data: seq<Byte>, i: nat)
    requires |start| == 5 && |data| == 64
    ensures Rounds(data, RegistersOf(start), i + 1) == Round(Rounds(data, RegistersOf(start), i), i, W(data, i))
  {
    hide Round, W;
  }

  lemma NamedAtEnd(r: seq<Word>)
    requires |r| == 5
    ensures Named(r, 80) == RegistersOf(r)
  {
  }

  // SHA1Transform
  method Transform(state: array<Word>, data: seq<Byte>)
    requires state.Length == 5 && |data| == 64
    modifies state
    ensures RegistersOf(state[..]) == Compress(RegistersOf(old(state[..])), data)
  {
    hide Rounds, Plus;
    var r := Lines(state[..], data);
    state[0] := Plus(state[0], r[0]);
    state[1] := Plus(state[1], r[1]);
    state[2] := Plus(state[2], r[2]);
    state[3] := Plus(state[3], r[3]);
    state[4] := Plus(state[4], r[4]);
  }
}
