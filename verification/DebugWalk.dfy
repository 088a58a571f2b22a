// Where the decoder of libdex/DexDebugInfo.cpp goes in a stream: when it leaves the array of locals, and whether it
// keeps to the opcodes that intraVerifyDebugInfoItem of libdex/DexSwapVerify.cpp has verified.

module DebugWalk {
  import opened Common
  import opened DebugInfo
  import L = Leb128

  const SET_FILE: u1 := 0x09

  // how many numbers the decoder takes for an opcode
  function Operands(opcode: u1): nat {
    if opcode == START_LOCAL_EXTENDED then 4
    else if opcode == START_LOCAL then 3
    else if opcode in {ADVANCE_PC, ADVANCE_LINE, END_LOCAL, RESTART_LOCAL} then 1
    else 0
  }

  // where the decoder finds its next opcode
  function NextOpcode(mem: Memory, pos: nat): (next: nat)
    ensures next > pos
  {
    L.Skip(mem, pos + 1, Operands(mem(pos)))
  }

  lemma SkipsFour(mem: Memory, pos: nat)
    ensures var a := L.UnsignedAt(mem, pos).next;
            var b := L.UnsignedAt(mem, a).next;
            var d := L.UnsignedAt(mem, b).next;
            && L.Skip(mem, pos, 0) == pos && L.Skip(mem, pos, 1) == a
            && L.Skip(mem, pos, 3) == d && L.Skip(mem, pos, 4) == L.UnsignedAt(mem, d).next
  {
    hide L.UnsignedAt;
    var a := L.UnsignedAt(mem, pos).next;
    var b := L.UnsignedAt(mem, a).next;
    var d := L.UnsignedAt(mem, b).next;
    assert L.Skip(mem, d, 1) == L.UnsignedAt(mem, d).next;
    assert L.Skip(mem, b, 2) == L.Skip(mem, d, 1);
    assert L.Skip(mem, b, 1) == d;
    assert L.Skip(mem, a, 3) == L.Skip(mem, b, 2);
    assert L.Skip(mem, a, 2) == L.Skip(mem, b, 1);
  }

  lemma SignedEndsAlike(mem: Memory, pos: nat)
    ensures L.SignedAt(mem, pos).next == L.UnsignedAt(mem, pos).next
  {
  }

  // Neither locals nor callbacks have a say in where an opcode ends.
  lemma ExecuteSteps(c: Code, cb: Callbacks, mem: Memory, pos: nat, s: State)
    requires |s.locals| == c.registersSize
    ensures var r := Execute(c, cb, mem, pos, s);
            && pos < r.next <= NextOpcode(mem, pos)
            && (r.reason == Running || r.reason == Ended ==> r.next == NextOpcode(mem, pos))
  {
    hide L.UnsignedAt, L.SignedAt, L.Skip, OpenLocal, CloseLocal, RestartLocal, EmitLocalIfLive, EmitPosition;
    var at := pos + 1;
    var a := L.UnsignedAt(mem, at).next;
    var b := L.UnsignedAt(mem, a).next;
    SkipsFour(mem, at);
    SignedEndsAlike(mem, at);
    NumberHasLength(mem, at);
    NumberHasLength(mem, a);
    NumberHasLength(mem, b);
    NumberHasLength(mem, L.UnsignedAt(mem, b).next);
  }

  lemma NumberHasLength(mem: Memory, pos: nat)
    ensures L.UnsignedAt(mem, pos).next > pos
  {
  }

  // ----- Leaving the array of locals -----

  // The run gets to the opcode at p.
  predicate GetsTo(c: Code, cb: Callbacks, stream: seq<u1>, pos: nat, s: State, p: nat)
    requires |s.locals| == c.registersSize
    decreases |stream| - pos
  {
    p == pos
    || (var r := Execute(c, cb, Bytes(stream), pos, s);
        r.reason == Running && pos < |stream| && GetsTo(c, cb, stream, r.next, r.state, p))
  }

  // an opcode that names the register behind the last
  predicate NamesOneTooMany(c: Code, mem: Memory, p: nat) {
    START_LOCAL <= mem(p) <= RESTART_LOCAL && L.UnsignedAt(mem, p + 1).value % 0x1_0000 == c.registersSize
  }

  lemma OneStepLeaves(c: Code, cb: Callbacks, mem: Memory, pos: nat, s: State)
    requires |s.locals| == c.registersSize
    ensures Execute(c, cb, mem, pos, s).reason == OutOfBounds <==> NamesOneTooMany(c, mem, pos)
  {
    hide L.UnsignedAt, L.SignedAt, OpenLocal, CloseLocal, RestartLocal, EmitLocalIfLive;
  }

  // Decoding leaves the array exactly if it gets to such an opcode.
  lemma {:induction false} LeavesIff(c: Code, cb: Callbacks, stream: seq<u1>, pos: nat, s: State)
    requires |s.locals| == c.registersSize
    ensures Run(c, cb, stream, pos, s).reason == OutOfBounds
       <==> exists p: nat :: GetsTo(c, cb, stream, pos, s, p) && NamesOneTooMany(c, Bytes(stream), p)
    decreases |stream| - pos
  {
    hide Execute, Run, NamesOneTooMany, Bytes;
    var mem := Bytes(stream);
    var r := Execute(c, cb, mem, pos, s);
    RunUnfolds(c, cb, stream, pos, s);
    OneStepLeaves(c, cb, mem, pos, s);
    if r.reason == Running {
      LeavesIff(c, cb, stream, r.next, r.state);
      forall p: nat | GetsTo(c, cb, stream, r.next, r.state, p)
        ensures GetsTo(c, cb, stream, pos, s, p)
      {
      }
    } else {
      assert GetsTo(c, cb, stream, pos, s, pos);
    }
  }

  // Every register that an opcode of the stream names exists. This needs no decoding, only a walk over the opcodes.
  predicate RegistersExist(c: Code, stream: seq<u1>, pos: nat)
    decreases |stream| - pos
  {
    var mem := Bytes(stream);
    mem(pos) == END_SEQUENCE
    || (&& (START_LOCAL <= mem(pos) <= RESTART_LOCAL ==> L.UnsignedAt(mem, pos + 1).value % 0x1_0000 < c.registersSize)
        && pos < |stream| && RegistersExist(c, stream, NextOpcode(mem, pos)))
  }

  // Then the decoder stays inside, whatever the callbacks do and whatever locals there are.
  lemma {:induction false} StaysInside(c: Code, cb: Callbacks, stream: seq<u1>, pos: nat, s: State)
    requires |s.locals| == c.registersSize && RegistersExist(c, stream, pos)
    ensures Run(c, cb, stream, pos, s).reason != OutOfBounds
    decreases |stream| - pos
  {
    hide Execute, Run, Bytes, NextOpcode, L.UnsignedAt;
    var r := Execute(c, cb, Bytes(stream), pos, s);
    RunUnfolds(c, cb, stream, pos, s);
    OneStepLeaves(c, cb, Bytes(stream), pos, s);
    ExecuteSteps(c, cb, Bytes(stream), pos, s);
    if r.reason == Running {
      EndDoesNotRun(c, cb, Bytes(stream), pos, s);
      StaysInside(c, cb, stream, r.next, r.state);
    }
  }

  lemma EndDoesNotRun(c: Code, cb: Callbacks, mem: Memory, pos: nat, s: State)
    requires |s.locals| == c.registersSize
    ensures mem(pos) == END_SEQUENCE ==> Execute(c, cb, mem, pos, s) == Result(s, pos + 1, Ended)
  {
  }

  // no callbacks at all
  const QUIET := Callbacks(None, false)

  // Callbacks can only stop decoding before it leaves the array: a dry run without them tells for all of them.
  lemma {:induction false} QuietRunLeaves(c: Code, cb: Callbacks, stream: seq<u1>, pos: nat, s: State, q: State)
    requires |s.locals| == c.registersSize && q.locals == s.locals && q.address == s.address
    requires Run(c, cb, stream, pos, s).reason == OutOfBounds
    ensures Run(c, QUIET, stream, pos, q).reason == OutOfBounds
    decreases |stream| - pos
  {
    hide Execute, Run, Bytes, NamesOneTooMany;
    var mem := Bytes(stream);
    RunUnfolds(c, cb, stream, pos, s);
    RunUnfolds(c, QUIET, stream, pos, q);
    OneStepLeaves(c, cb, mem, pos, s);
    OneStepLeaves(c, QUIET, mem, pos, q);
    var r, quiet := Execute(c, cb, mem, pos, s), Execute(c, QUIET, mem, pos, q);
    if r.reason == Running {
      QuietStep(c, cb, mem, pos, s, q);
      QuietRunLeaves(c, cb, stream, r.next, r.state, quiet.state);
    }
  }

  lemma QuietStep(c: Code, cb: Callbacks, mem: Memory, pos: nat, s: State, q: State)
    requires |s.locals| == c.registersSize && q.locals == s.locals && q.address == s.address
    requires Execute(c, cb, mem, pos, s).reason == Running
    ensures var r, quiet := Execute(c, cb, mem, pos, s), Execute(c, QUIET, mem, pos, q);
            && quiet.reason == Running && quiet.next == r.next
            && quiet.state.locals == r.state.locals && quiet.state.address == r.state.address
  {
    hide L.UnsignedAt, L.SignedAt;
  }

  // where the opcodes of a stream start: behind the line, the number of parameters and that many names
  function FirstOpcode(stream: seq<u1>): nat {
    var line := L.UnsignedAt(Bytes(stream), 0);
    var parametersSize := L.UnsignedAt(Bytes(stream), line.next);
    L.Skip(Bytes(stream), parametersSize.next, parametersSize.value)
  }

  lemma {:induction false} ParametersSkip(c: Code, mem: Memory, pos: nat, s: State, n: nat, k: nat, argReg: u2)
    requires |s.locals| == c.registersSize
    ensures var r := Parameters(c, mem, pos, s, n, k, argReg);
            r.next <= L.Skip(mem, pos, n) && (r.reason == Running ==> r.next == L.Skip(mem, pos, n))
    decreases n
  {
    hide L.UnsignedAt;
    if n > 0 && argReg < c.registersSize && k < |c.wide| {
      var name := StringAt(mem, pos);
      ParametersSkip(c, mem, name.next,
                     if name.value == None then s
                     else OpenLocal(s, argReg, name.value, Some(ParameterDescriptor(k)), None),
                     n - 1, k + 1, (argReg + if c.wide[k] then 2 else 1) % 0x1_0000);
    }
  }

  // How a whole stream is decoded: it is rejected in the parameters, or run from its first opcode.
  lemma DecodeRuns(c: Code, stream: seq<u1>) returns (s: State, rejected: bool)
    requires c.insSize <= c.registersSize && (c.isStatic || c.insSize > 0)
    ensures |s.locals| == c.registersSize
    ensures forall cb ::
              if rejected then
                Decode(c, cb, stream).reason == Invalid && Decode(c, cb, stream).next <= FirstOpcode(stream)
              else Decode(c, cb, stream) == Run(c, cb, stream, FirstOpcode(stream), s)
  {
    hide L.UnsignedAt, Parameters, Run, L.Skip;
    var mem := Bytes(stream);
    var line := L.UnsignedAt(mem, 0);
    var parametersSize := L.UnsignedAt(mem, line.next);
    var argReg := c.registersSize - c.insSize;
    var first := if c.isStatic then Initial(c, line.value)
                 else OpenLocal(Initial(c, line.value), argReg, Some(This), Some(ClassDescriptor), None);
    var next := if c.isStatic then argReg else argReg + 1;
    ParametersSkip(c, mem, parametersSize.next, first, parametersSize.value, 0, next);
    var params := Parameters(c, mem, parametersSize.next, first, parametersSize.value, 0, next);
    s, rejected := params.state, params.reason == Invalid;
  }

  // Decoding a whole stream leaves the array exactly if the parameters are in order and it gets to such an opcode.
  lemma DecodeLeavesAt(c: Code, stream: seq<u1>) returns (s: State, rejected: bool)
    requires c.insSize <= c.registersSize && (c.isStatic || c.insSize > 0)
    ensures |s.locals| == c.registersSize
    ensures forall cb :: Decode(c, cb, stream).reason == OutOfBounds <==>
              !rejected && exists p: nat :: GetsTo(c, cb, stream, FirstOpcode(stream), s, p)
                                           && NamesOneTooMany(c, Bytes(stream), p)
  {
    hide Decode, Run, FirstOpcode, GetsTo, NamesOneTooMany, Bytes;
    s, rejected := DecodeRuns(c, stream);
    forall cb
      ensures Decode(c, cb, stream).reason == OutOfBounds <==>
                !rejected && exists p: nat :: GetsTo(c, cb, stream, FirstOpcode(stream), s, p)
                                             && NamesOneTooMany(c, Bytes(stream), p)
    {
      LeavesIff(c, cb, stream, FirstOpcode(stream), s);
    }
  }

  // A stream in which every named register exists is decoded inside the array.
  lemma DecodeStaysInside(c: Code, cb: Callbacks, stream: seq<u1>)
    requires c.insSize <= c.registersSize && (c.isStatic || c.insSize > 0)
    requires RegistersExist(c, stream, FirstOpcode(stream))
    ensures Decode(c, cb, stream).reason != OutOfBounds
  {
    hide Decode, Run, RegistersExist, FirstOpcode;
    var s, rejected := DecodeRuns(c, stream);
    if !rejected {
      StaysInside(c, cb, stream, FirstOpcode(stream), s);
    }
  }

  // Some callbacks see decoding leave the array exactly if it does without callbacks.
  lemma DecodeLeavesIff(c: Code, stream: seq<u1>)
    requires c.insSize <= c.registersSize && (c.isStatic || c.insSize > 0)
    ensures (exists cb :: Decode(c, cb, stream).reason == OutOfBounds)
       <==> Decode(c, QUIET, stream).reason == OutOfBounds
  {
    hide Decode, Run, FirstOpcode;
    var s, rejected := DecodeRuns(c, stream);
    if cb :| Decode(c, cb, stream).reason == OutOfBounds {
      QuietRunLeaves(c, cb, stream, FirstOpcode(stream), s, s);
    }
  }
}
