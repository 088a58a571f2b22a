// intraVerifyDebugInfoItem of libdex/DexSwapVerify.cpp, and what it promises to the decoder of libdex/DexDebugInfo.cpp.
// The item is given from its start to the end of the file.

module DebugVerify {
  import opened Common
  import opened DebugInfo
  import opened DebugWalk
  import L = Leb128

  const MAX_PARAMETERS := 65536

  // ----- What is verified -----

  // a string index, stored with 1 added; 0 is none
  predicate IsIndex(mem: Memory, pos: nat, limit: nat, strings: u4) {
    L.Verified(mem, pos, Some(limit)) && L.UnsignedAt(mem, pos).value <= strings
  }

  // n of them in a row
  predicate AreIndices(mem: Memory, pos: nat, n: nat, limit: nat, strings: u4)
    decreases n
  {
    n == 0 || (IsIndex(mem, pos, limit, strings) && AreIndices(mem, L.UnsignedAt(mem, pos).next, n - 1, limit, strings))
  }

  predicate IsRegister(mem: Memory, pos: nat, limit: nat) {
    L.Verified(mem, pos, Some(limit)) && L.UnsignedAt(mem, pos).value < 0x1_0000
  }

  // The end of an opcode with its operands; the file name of DBG_SET_FILE is one.
  function OpcodeEnd(mem: Memory, pos: nat, limit: nat, strings: u4): (end: Option<nat>)
    ensures end.Some? ==> end.value > pos
  {
    var opcode, at := mem(pos), pos + 1;
    if opcode == ADVANCE_PC || opcode == ADVANCE_LINE then
      if L.Verified(mem, at, Some(limit)) then Some(L.Skip(mem, at, 1)) else None
    else if START_LOCAL <= opcode <= RESTART_LOCAL then
      var names := Operands(opcode) - 1;
      if IsRegister(mem, at, limit) && AreIndices(mem, L.UnsignedAt(mem, at).next, names, limit, strings) then
        Some(L.Skip(mem, at, Operands(opcode)))
      else None
    else if opcode == SET_FILE then
      if IsIndex(mem, at, limit, strings) then Some(L.Skip(mem, at, 1)) else None
    else Some(at)
  }

  // The end of the opcodes from pos on.
  function OpcodesEnd(stream: seq<u1>, pos: nat, strings: u4): Option<nat>
    decreases |stream| - pos
  {
    var end := OpcodeEnd(Bytes(stream), pos, |stream|, strings);
    if Bytes(stream)(pos) == END_SEQUENCE then Some(pos + 1)
    else if end == None || pos >= |stream| then None
    else OpcodesEnd(stream, end.value, strings)
  }

  // The end of the item, if it is acceptable.
  function ItemEnd(stream: seq<u1>, strings: u4): Option<nat> {
    var mem := Bytes(stream);
    var line := L.UnsignedAt(mem, 0);
    var parametersSize := L.UnsignedAt(mem, line.next);
    if && L.Verified(mem, 0, Some(|stream|)) && L.Verified(mem, line.next, Some(|stream|))
       && parametersSize.value <= MAX_PARAMETERS
       && AreIndices(mem, parametersSize.next, parametersSize.value, |stream|, strings) then
      OpcodesEnd(stream, FirstOpcode(stream), strings)
    else None
  }

  // ----- The code -----

  method ReadIndex(mem: Memory, pos: nat, limit: nat, strings: u4) returns (okay: bool, next: nat)
    ensures okay <==> IsIndex(mem, pos, limit, strings)
    ensures next == L.UnsignedAt(mem, pos).next
  {
    var idx;
    idx, next, okay := L.ReadAndVerifyUnsigned(mem, pos, Some(limit), true);
    if okay && idx != 0 && idx - 1 >= strings {
      okay := false;
    }
  }

  method ReadIndices(mem: Memory, pos: nat, n: nat, limit: nat, strings: u4) returns (okay: bool, next: nat)
    ensures okay <==> AreIndices(mem, pos, n, limit, strings)
    ensures okay ==> next == L.Skip(mem, pos, n)
  {
    hide IsIndex, L.UnsignedAt;
    okay, next := true, pos;
    var i := 0;
    while i < n
      invariant i <= n && okay
      invariant AreIndices(mem, pos, n, limit, strings) == AreIndices(mem, next, n - i, limit, strings)
      invariant L.Skip(mem, next, n - i) == L.Skip(mem, pos, n)
    {
      okay, next := ReadIndex(mem, next, limit, strings);
      if !okay {
        return;
      }
      i := i + 1;
    }
  }

  // the switch over one opcode
  method VerifyOpcode(mem: Memory, opcode: u1, pos: nat, limit: nat, strings: u4) returns (okay: bool, next: nat)
    requires opcode == mem(pos)
    ensures OpcodeEnd(mem, pos, limit, strings) == if okay then Some(next) else None
  {
    hide IsIndex, AreIndices, L.UnsignedAt, L.SignedAt, L.Verified, L.Skip;
    var at := pos + 1;
    SkipsOne(mem, at);
    okay, next := true, at;
    if opcode == ADVANCE_PC {
      var n;
      n, next, okay := L.ReadAndVerifyUnsigned(mem, at, Some(limit), true);
    } else if opcode == ADVANCE_LINE {
      var n;
      n, next, okay := L.ReadAndVerifySigned(mem, at, Some(limit), true);
      SignedEndsAlike(mem, at);
    } else if START_LOCAL <= opcode <= RESTART_LOCAL {
      var regNum;
      regNum, next, okay := L.ReadAndVerifyUnsigned(mem, at, Some(limit), true);
      if !okay {
        return;
      }
      if regNum >= 65536 {
        okay := false;
        return;
      }
      SkipsMore(mem, at, Operands(opcode));
      if opcode == START_LOCAL {
        okay, next := ReadIndices(mem, next, 2, limit, strings);
      } else if opcode == START_LOCAL_EXTENDED {
        okay, next := ReadIndices(mem, next, 3, limit, strings);
      } else {
        NoIndices(mem, next, limit, strings);
      }
    } else if opcode == SET_FILE {
      okay, next := ReadIndex(mem, at, limit, strings);
    }
  }

  lemma SkipsOne(mem: Memory, pos: nat)
    ensures L.Skip(mem, pos, 1) == L.UnsignedAt(mem, pos).next
  {
  }

  lemma SkipsMore(mem: Memory, pos: nat, n: nat)
    requires n > 0
    ensures L.Skip(mem, pos, n) == L.Skip(mem, L.UnsignedAt(mem, pos).next, n - 1)
  {
  }

  lemma NoIndices(mem: Memory, pos: nat, limit: nat, strings: u4)
    ensures AreIndices(mem, pos, 0, limit, strings) && L.Skip(mem, pos, 0) == pos
  {
  }

  // The loop over the opcodes ends because the stream does.
  method IntraVerifyDebugInfoItem(stream: seq<u1>, strings: u4) returns (end: Option<nat>)
    ensures end == ItemEnd(stream, strings)
  {
    hide OpcodeEnd, AreIndices, L.UnsignedAt, L.Verified, L.Skip;
    var mem := Bytes(stream);
    var line, data, okay := L.ReadAndVerifyUnsigned(mem, 0, Some(|stream|), true);
    if !okay {
      return None;
    }
    var parametersSize;
    parametersSize, data, okay := L.ReadAndVerifyUnsigned(mem, data, Some(|stream|), true);
    if !okay || parametersSize > MAX_PARAMETERS {
      return None;
    }
    okay, data := ReadIndices(mem, data, parametersSize, |stream|, strings);
    if !okay {
      return None;
    }
    while true
      invariant OpcodesEnd(stream, data, strings) == ItemEnd(stream, strings)
      decreases |stream| - data
    {
      var opcode := mem(data);
      if opcode == END_SEQUENCE {
        return Some(data + 1);
      }
      var next;
      okay, next := VerifyOpcode(mem, opcode, data, |stream|, strings);
      if !okay {
        return None;
      }
      data := next;
    }
  }

  // ----- What the decoder makes of it -----

  // An opcode ends for the decoder where it ends for the verifier, unless it is DBG_SET_FILE.
  lemma EndsAlikeIff(mem: Memory, pos: nat, limit: nat, strings: u4)
    requires OpcodeEnd(mem, pos, limit, strings).Some?
    ensures OpcodeEnd(mem, pos, limit, strings) == Some(NextOpcode(mem, pos)) <==> mem(pos) != SET_FILE
  {
    hide L.UnsignedAt, L.Skip, AreIndices;
    SkipsOne(mem, pos + 1);
    NumberHasLength(mem, pos + 1);
    NoIndices(mem, pos + 1, limit, strings);
  }

  // Where a walk over the opcodes from pos on finds the end of the sequence.
  function WalkEnd(stream: seq<u1>, pos: nat): (end: nat)
    ensures end > pos
    decreases |stream| - pos
  {
    if Bytes(stream)(pos) == END_SEQUENCE || pos >= |stream| then pos + 1
    else WalkEnd(stream, NextOpcode(Bytes(stream), pos))
  }

  // Decoding ends where the walk does, if nothing stops it before.
  lemma {:induction false} RunKeepsToWalk(c: Code, cb: Callbacks, stream: seq<u1>, pos: nat, s: State)
    requires |s.locals| == c.registersSize
    ensures var r := Run(c, cb, stream, pos, s);
            r.next <= WalkEnd(stream, pos) && (r.reason == Ended ==> r.next == WalkEnd(stream, pos))
    decreases |stream| - pos
  {
    hide Execute, Run, NextOpcode, Bytes;
    var mem := Bytes(stream);
    var r := Execute(c, cb, mem, pos, s);
    RunUnfolds(c, cb, stream, pos, s);
    EndDoesNotRun(c, cb, mem, pos, s);
    EndsBehindTheStream(stream, pos);
    if mem(pos) != END_SEQUENCE {
      ExecuteSteps(c, cb, mem, pos, s);
      OnlyEndEnds(c, cb, mem, pos, s);
      if r.reason == Running {
        RunKeepsToWalk(c, cb, stream, r.next, r.state);
      }
    }
  }

  lemma EndsBehindTheStream(stream: seq<u1>, pos: nat)
    ensures pos >= |stream| ==> Bytes(stream)(pos) == END_SEQUENCE
  {
  }

  lemma OnlyEndEnds(c: Code, cb: Callbacks, mem: Memory, pos: nat, s: State)
    requires |s.locals| == c.registersSize
    ensures Execute(c, cb, mem, pos, s).reason == Ended ==> mem(pos) == END_SEQUENCE
  {
    hide L.UnsignedAt, L.SignedAt, OpenLocal, CloseLocal, RestartLocal, EmitLocalIfLive;
  }

  lemma DecodeKeepsToWalk(c: Code, cb: Callbacks, stream: seq<u1>)
    requires c.insSize <= c.registersSize && (c.isStatic || c.insSize > 0)
    ensures var r, end := Decode(c, cb, stream), WalkEnd(stream, FirstOpcode(stream));
            r.next <= end && (r.reason == Ended ==> r.next == end)
  {
    hide Decode, Run, WalkEnd, FirstOpcode;
    var s, rejected := DecodeRuns(c, stream);
    if rejected {
      assert Decode(c, cb, stream).reason == Invalid;
    } else {
      RunKeepsToWalk(c, cb, stream, FirstOpcode(stream), s);
    }
  }

  // A verified stream that is decoded to an end is decoded to its verified end exactly if a walk over its opcodes
  // gets there, whatever the method and the callbacks are.
  lemma VerifiedIsDecodedIff(c: Code, cb: Callbacks, stream: seq<u1>, strings: u4)
    requires c.insSize <= c.registersSize && (c.isStatic || c.insSize > 0)
    requires ItemEnd(stream, strings).Some? && Decode(c, cb, stream).reason == Ended
    ensures Some(Decode(c, cb, stream).next) == ItemEnd(stream, strings)
       <==> Some(WalkEnd(stream, FirstOpcode(stream))) == ItemEnd(stream, strings)
  {
    hide Decode, WalkEnd, FirstOpcode, ItemEnd;
    DecodeKeepsToWalk(c, cb, stream);
  }

  // no DBG_SET_FILE among the opcodes from pos on
  predicate NoSetFile(stream: seq<u1>, pos: nat)
    decreases |stream| - pos
  {
    var opcode := Bytes(stream)(pos);
    opcode == END_SEQUENCE
    || (opcode != SET_FILE && pos < |stream| && NoSetFile(stream, NextOpcode(Bytes(stream), pos)))
  }

  lemma {:induction false} NoSetFileWalk(stream: seq<u1>, pos: nat, strings: u4)
    requires OpcodesEnd(stream, pos, strings).Some? && NoSetFile(stream, pos)
    ensures OpcodesEnd(stream, pos, strings) == Some(WalkEnd(stream, pos))
    decreases |stream| - pos
  {
    hide OpcodeEnd, NextOpcode, Bytes;
    if Bytes(stream)(pos) != END_SEQUENCE {
      EndsAlikeIff(Bytes(stream), pos, |stream|, strings);
      NoSetFileWalk(stream, NextOpcode(Bytes(stream), pos), strings);
    }
  }

  // So a verified stream without DBG_SET_FILE is decoded up to its verified end, unless decoding stops before.
  lemma VerifiedIsDecoded(c: Code, cb: Callbacks, stream: seq<u1>, strings: u4)
    requires c.insSize <= c.registersSize && (c.isStatic || c.insSize > 0)
    requires ItemEnd(stream, strings).Some? && NoSetFile(stream, FirstOpcode(stream))
    ensures var r := Decode(c, cb, stream);
            r.next <= ItemEnd(stream, strings).value && (r.reason == Ended ==> Some(r.next) == ItemEnd(stream, strings))
  {
    hide Decode, WalkEnd, NoSetFile, OpcodesEnd, FirstOpcode;
    DecodeKeepsToWalk(c, cb, stream);
    NoSetFileWalk(stream, FirstOpcode(stream), strings);
  }

  const SET_PROLOGUE_END: u1 := 0x07

  // no parameters, and one DBG_SET_FILE with a name of one byte
  function OneFileName(name: u1): seq<u1> {
    [0, 0, SET_FILE, name, END_SEQUENCE]
  }

  lemma OneFileNameEnds(name: u1, strings: u4)
    requires name < 0x80 && name <= strings
    ensures ItemEnd(OneFileName(name), strings) == Some(5)
  {
    var stream := OneFileName(name);
    var mem := Bytes(stream);
    assert L.UnsignedAt(mem, 0) == L.Read(0, 1) && L.UnsignedAt(mem, 1) == L.Read(0, 2);
    assert L.UnsignedAt(mem, 3) == L.Read(name, 4);
    assert OpcodeEnd(mem, 2, 5, strings) == Some(4);
    assert OpcodesEnd(stream, 4, strings) == Some(5);
  }

  lemma DecodesFromSetFile(c: Code, cb: Callbacks, name: u1)
    requires c.insSize == 0 && c.isStatic && name in {END_SEQUENCE, ADVANCE_PC, SET_PROLOGUE_END}
    ensures var r := Decode(c, cb, OneFileName(name));
            && r.reason == Ended
            && r.next == if name == END_SEQUENCE then 4 else if name == ADVANCE_PC then 6 else 5
  {
    hide Run;
    var stream := OneFileName(name);
    var mem, s := Bytes(stream), Initial(c, 0);
    assert L.UnsignedAt(mem, 0) == L.Read(0, 1) && L.UnsignedAt(mem, 1) == L.Read(0, 2);
    assert L.UnsignedAt(mem, 4) == L.Read(0, 5);
    assert Decode(c, cb, stream) == Run(c, cb, stream, 2, s);
    RunUnfolds(c, cb, stream, 2, s);
    RunUnfolds(c, cb, stream, 3, s);
    RunUnfolds(c, cb, stream, 4, s);
    RunUnfolds(c, cb, stream, 5, Advance(s, 0));
  }

  // The decoder takes such a name for an opcode. It can end there, one byte before the verified end; it can come back
  // to the verified opcodes; and it can take the end of the sequence for an operand and go on behind the item.
  lemma SetFileIsDecodedAsOpcodes(c: Code, cb: Callbacks, strings: u4)
    requires c.insSize == 0 && c.isStatic
    ensures forall name: u1 | name < 0x80 && name <= strings :: ItemEnd(OneFileName(name), strings) == Some(5)
    ensures forall name: u1 | name in {END_SEQUENCE, ADVANCE_PC, SET_PROLOGUE_END} ::
              Decode(c, cb, OneFileName(name)).reason == Ended
    ensures Decode(c, cb, OneFileName(END_SEQUENCE)).next == 4
    ensures Decode(c, cb, OneFileName(SET_PROLOGUE_END)).next == 5
    ensures Decode(c, cb, OneFileName(ADVANCE_PC)).next == 6
  {
    hide Decode, ItemEnd, OneFileName;
    forall name: u1 | name < 0x80 && name <= strings
      ensures ItemEnd(OneFileName(name), strings) == Some(5)
    {
      OneFileNameEnds(name, strings);
    }
    DecodesFromSetFile(c, cb, END_SEQUENCE);
    DecodesFromSetFile(c, cb, ADVANCE_PC);
    DecodesFromSetFile(c, cb, SET_PROLOGUE_END);
  }
}
