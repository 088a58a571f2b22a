// Machine integers and memory, as the other modules use them.

module Common {
  const TWO32 := 0x1_0000_0000

  type u1 = x: int | 0 <= x < 0x100
  type u2 = x: int | 0 <= x < 0x1_0000
  type u4 = x: int | 0 <= x < 0x1_0000_0000
  type s4 = x: int | -0x8000_0000 <= x < 0x8000_0000

  datatype Option<+T> = None | Some(value: T)

  // Readable memory: the byte at every address. Reading past the end of a file yields some byte.
  type Memory = nat -> u1

  // some bytes as memory, with zeros behind them
  function Bytes(stream: seq<u1>): Memory {
    (k: nat) => if k < |stream| then stream[k] else 0
  }

  // little-endian numbers in memory
  function U2At(mem: Memory, pos: nat): u2 {
    mem(pos) + mem(pos + 1) * 0x100
  }

  function U4At(mem: Memory, pos: nat): u4 {
    mem(pos) + mem(pos + 1) * 0x100 + mem(pos + 2) * 0x1_0000 + mem(pos + 3) * 0x100_0000
  }

  // the cast of a u4 to a signed 32-bit int
  function ToSigned(x: u4): s4 {
    if x < 0x8000_0000 then x else x - TWO32
  }

  // Memory holds these bytes at this address.
  ghost predicate At(mem: Memory, pos: nat, bytes: seq<u1>) {
    forall k | 0 <= k < |bytes| :: mem(pos + k) == bytes[k]
  }

  lemma AtConcat(mem: Memory, pos: nat, left: seq<u1>, right: seq<u1>)
    requires At(mem, pos, left + right)
    ensures At(mem, pos, left) && At(mem, pos + |left|, right)
  {
    forall k | 0 <= k < |left|
      ensures mem(pos + k) == left[k]
    {
      assert (left + right)[k] == left[k];
    }
    forall k | 0 <= k < |right|
      ensures mem(pos + |left| + k) == right[k]
    {
      assert (left + right)[|left| + k] == right[k];
    }
  }

  // a number as bytes, least significant first
  function LE2(x: u2): (b: seq<u1>)
    ensures |b| == 2
  {
    [x % 0x100, x / 0x100]
  }

  function LE4(x: u4): (b: seq<u1>)
    ensures |b| == 4
  {
    LE2(x % 0x1_0000) + LE2(x / 0x1_0000)
  }

  lemma LE2ReadsBack(mem: Memory, pos: nat, x: u2)
    requires At(mem, pos, LE2(x))
    ensures U2At(mem, pos) == x
  {
    assert mem(pos + 0) == LE2(x)[0] && mem(pos + 1) == LE2(x)[1];
  }

  lemma LE4ReadsBack(mem: Memory, pos: nat, x: u4)
    requires At(mem, pos, LE4(x))
    ensures U4At(mem, pos) == x && U2At(mem, pos) == x % 0x1_0000 && U2At(mem, pos + 2) == x / 0x1_0000
  {
    AtConcat(mem, pos, LE2(x % 0x1_0000), LE2(x / 0x1_0000));
    LE2ReadsBack(mem, pos, x % 0x1_0000);
    LE2ReadsBack(mem, pos + 2, x / 0x1_0000);
  }
}
