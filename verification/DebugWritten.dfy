// When intraVerifyDebugInfoItem of libdex/DexSwapVerify.cpp accepts a debug info stream that was written for some
// steps.

module DebugWritten {
  import opened Common
  import opened DebugInfo
  import opened DebugSteps
  import opened DebugVerify
  import opened DebugWalk
  import L = Leb128

  // an index into the strings, or none; types are checked against their number as well
  predicate Known(x: Option<Index>, strings: u4) {
    x == None || x.value < strings
  }

  // A line step below -2^27 is not acceptable, because its usual encoding does not verify.
  predicate Acceptable(s: Step, strings: u4) {
    match s
    case Line(k) => k >= -0x800_0000
    case Start(_, name, type_) => Known(name, strings) && Known(type_, strings)
    case StartExtended(_, name, type_, signature) =>
      Known(name, strings) && Known(type_, strings) && Known(signature, strings)
    case _ => true
  }

  // no change of the source file, whose name a step does not have
  predicate NoFile(p: Program) {
    Marker(9) !in p.steps
  }

  predicate AllAcceptable(p: Program, strings: u4) {
    && |p.names| <= 65536 && (forall x | x in p.names :: Known(x, strings))
    && forall s | s in p.steps :: Acceptable(s, strings)
  }

  lemma IndexVerifies(mem: Memory, pos: nat, x: Option<Index>, limit: nat, strings: u4)
    requires At(mem, pos, IndexBytes(x)) && pos + |IndexBytes(x)| <= limit
    ensures IsIndex(mem, pos, limit, strings) <==> Known(x, strings)
    ensures L.UnsignedAt(mem, pos).next == pos + |IndexBytes(x)|
  {
    hide L.UnsignedAt, L.Encode, L.Verified;
    L.RoundTrip(mem, pos, if x == None then 0 else x.value + 1, Some(limit));
  }

  // The operands of the opcodes that begin a local.
  lemma StartVerifies(mem: Memory, pos: nat, c: Code, s: Step, limit: nat, strings: u4)
    requires s.Valid(c) && (s.Start? || s.StartExtended?)
    requires At(mem, pos, StepBytes(c, s)) && pos + |StepBytes(c, s)| <= limit
    ensures OpcodeEnd(mem, pos, limit, strings) ==
            if Acceptable(s, strings) then Some(pos + |StepBytes(c, s)|) else None
  {
    hide L.UnsignedAt, L.Encode, L.Verified, IndexBytes, At, IsIndex, L.Skip, AreIndices;
    var reg, name, type_ := s.reg, s.name, s.type_;
    var rest := if s.Start? then IndexBytes(type_) else IndexBytes(type_) + IndexBytes(s.signature);
    OpcodeReadsBack(mem, pos, if s.Start? then 3 else 4, L.Encode(reg) + (IndexBytes(name) + rest));
    AtConcat(mem, pos + 1, L.Encode(reg), IndexBytes(name) + rest);
    L.RoundTrip(mem, pos + 1, reg, Some(limit));
    var at1 := pos + 1 + |L.Encode(reg)|;
    var at2 := at1 + |IndexBytes(name)|;
    AtConcat(mem, at1, IndexBytes(name), rest);
    IndexVerifies(mem, at1, name, limit, strings);
    IndicesUnfold(mem, pos + 1, at1, limit, strings);
    if s.Start? {
      IndexVerifies(mem, at2, type_, limit, strings);
    } else {
      var at3 := at2 + |IndexBytes(type_)|;
      AtConcat(mem, at2, IndexBytes(type_), IndexBytes(s.signature));
      IndexVerifies(mem, at2, type_, limit, strings);
      IndexVerifies(mem, at3, s.signature, limit, strings);
    }
  }

  // two or three indices behind a register, one by one
  lemma IndicesUnfold(mem: Memory, pos: nat, at1: nat, limit: nat, strings: u4)
    requires L.UnsignedAt(mem, pos).next == at1
    ensures var at2 := L.UnsignedAt(mem, at1).next;
            var at3 := L.UnsignedAt(mem, at2).next;
            var at4 := L.UnsignedAt(mem, at3).next;
            && L.Skip(mem, pos, 1) == at1 && L.Skip(mem, pos, 3) == at3 && L.Skip(mem, pos, 4) == at4
            && (AreIndices(mem, at1, 2, limit, strings) <==>
                  IsIndex(mem, at1, limit, strings) && IsIndex(mem, at2, limit, strings))
            && (AreIndices(mem, at1, 3, limit, strings) <==>
                  && IsIndex(mem, at1, limit, strings) && IsIndex(mem, at2, limit, strings)
                  && IsIndex(mem, at3, limit, strings))
  {
    hide L.UnsignedAt, IsIndex;
    SkipsFour(mem, pos);
    var at2 := L.UnsignedAt(mem, at1).next;
    var at3 := L.UnsignedAt(mem, at2).next;
    assert AreIndices(mem, at3, 1, limit, strings) == IsIndex(mem, at3, limit, strings);
    assert AreIndices(mem, at2, 1, limit, strings) == IsIndex(mem, at2, limit, strings);
    assert AreIndices(mem, at2, 2, limit, strings)
        == (IsIndex(mem, at2, limit, strings) && AreIndices(mem, at3, 1, limit, strings));
  }

  lemma StepVerifies(mem: Memory, pos: nat, c: Code, s: Step, limit: nat, strings: u4)
    requires s.Valid(c) && s != Marker(9)
    requires At(mem, pos, StepBytes(c, s)) && pos + |StepBytes(c, s)| <= limit
    ensures mem(pos) != 0
    ensures OpcodeEnd(mem, pos, limit, strings) ==
            if Acceptable(s, strings) then Some(pos + |StepBytes(c, s)|) else None
  {
    hide L.UnsignedAt, L.SignedAt, L.Encode, L.EncodeSigned, L.Verified, IndexBytes, At, IsIndex;
    assert mem(pos) == StepBytes(c, s)[0] by {
      FirstByte(mem, pos, StepBytes(c, s));
    }
    match s
    case Pc(n) =>
      OpcodeReadsBack(mem, pos, 1, L.Encode(n));
      L.RoundTrip(mem, pos + 1, n, Some(limit));
      SkipsOne(mem, pos + 1);
    case Line(k) =>
      OpcodeReadsBack(mem, pos, 2, L.EncodeSigned(k));
      L.SignedRoundTrip(mem, pos + 1, k);
      L.SignedVerifiesIff(mem, pos + 1, k, Some(limit));
      SignedEndsAlike(mem, pos + 1);
      SkipsOne(mem, pos + 1);
    case Start(_, _, _) => StartVerifies(mem, pos, c, s, limit, strings);
    case StartExtended(_, _, _, _) => StartVerifies(mem, pos, c, s, limit, strings);
    case End(r) =>
      OpcodeReadsBack(mem, pos, 5, L.Encode(r));
      L.RoundTrip(mem, pos + 1, r, Some(limit));
      SkipsOne(mem, pos + 1);
    case Restart(r) =>
      OpcodeReadsBack(mem, pos, 6, L.Encode(r));
      L.RoundTrip(mem, pos + 1, r, Some(limit));
      SkipsOne(mem, pos + 1);
    case _ =>
  }

  lemma FirstByte(mem: Memory, pos: nat, b: seq<u1>)
    requires b != [] && At(mem, pos, b)
    ensures mem(pos) == b[0]
  {
    assert mem(pos + 0) == b[0];
  }

  lemma {:induction false} StepsVerify(stream: seq<u1>, pos: nat, c: Code, p: Program, k: nat, strings: u4)
    requires p.Valid(c) && NoFile(p) && k <= |p.steps|
    requires At(Bytes(stream), pos, StepsBytes(c, p, k)) && pos + |StepsBytes(c, p, k)| <= |stream|
    ensures OpcodesEnd(stream, pos, strings) ==
            if forall i | k <= i < |p.steps| :: Acceptable(p.steps[i], strings) then
              Some(pos + |StepsBytes(c, p, k)|)
            else None
    decreases |p.steps| - k
  {
    hide OpcodeEnd, StepBytes, Acceptable, At, Bytes;
    var mem := Bytes(stream);
    if k == |p.steps| {
      FirstByte(mem, pos, [0]);
    } else {
      var next := pos + |StepBytes(c, p.steps[k])|;
      assert p.steps[k] in p.steps;
      AtConcat(mem, pos, StepBytes(c, p.steps[k]), StepsBytes(c, p, k + 1));
      StepVerifies(mem, pos, c, p.steps[k], |stream|, strings);
      StepsVerify(stream, next, c, p, k + 1, strings);
    }
  }

  lemma {:induction false} NamesVerify(
    mem: Memory, pos: nat, names: seq<Option<Index>>, k: nat, limit: nat, strings: u4)
    requires k <= |names| && At(mem, pos, NamesBytes(names, k)) && pos + |NamesBytes(names, k)| <= limit
    ensures AreIndices(mem, pos, |names| - k, limit, strings) <==>
              forall i | k <= i < |names| :: Known(names[i], strings)
    ensures L.Skip(mem, pos, |names| - k) == pos + |NamesBytes(names, k)|
    decreases |names| - k
  {
    hide IsIndex, IndexBytes, L.UnsignedAt, At;
    if k < |names| {
      AtConcat(mem, pos, IndexBytes(names[k]), NamesBytes(names, k + 1));
      IndexVerifies(mem, pos, names[k], limit, strings);
      NamesVerify(mem, pos + |IndexBytes(names[k])|, names, k + 1, limit, strings);
    }
  }

  // Verification accepts the written stream, and ends where it does, exactly if all its indices are in range, there
  // are no more parameters than that, and no line step is too far back.
  lemma WrittenIsVerifiedIff(c: Code, p: Program, more: seq<u1>, strings: u4)
    requires p.Valid(c) && NoFile(p)
    ensures ItemEnd(StreamBytes(c, p) + more, strings)
         == if AllAcceptable(p, strings) then Some(|StreamBytes(c, p)|) else None
  {
    hide L.UnsignedAt, L.Verified, L.Encode, NamesBytes, StepsBytes, AreIndices, OpcodesEnd, Known, Acceptable, At;
    hide L.Skip, StreamBytes, Bytes;
    var stream := StreamBytes(c, p) + more;
    var mem := Bytes(stream);
    var at1, at2, at3 := StreamParts(c, p, more);
    StreamVerifies(c, p, more);
    NamesVerify(mem, at2, p.names, 0, |stream|, strings);
    StepsVerify(stream, at3, c, p, 0, strings);
    assert FirstOpcode(stream) == at3;
    assert (forall i | 0 <= i < |p.names| :: Known(p.names[i], strings))
      <==> forall x | x in p.names :: Known(x, strings);
    assert (forall i | 0 <= i < |p.steps| :: Acceptable(p.steps[i], strings))
      <==> forall s | s in p.steps :: Acceptable(s, strings);
  }

  lemma StreamVerifies(c: Code, p: Program, more: seq<u1>)
    requires p.Valid(c)
    ensures var stream := StreamBytes(c, p) + more;
            var at := L.UnsignedAt(Bytes(stream), 0).next;
            L.Verified(Bytes(stream), 0, Some(|stream|)) && L.Verified(Bytes(stream), at, Some(|stream|))
  {
    hide L.UnsignedAt, L.Verified, L.Encode, NamesBytes, StepsBytes, At;
    var stream := StreamBytes(c, p) + more;
    var mem := Bytes(stream);
    StreamAt(c, p, more);
    var rest := NamesBytes(p.names, 0) + StepsBytes(c, p, 0);
    AtConcat(mem, 0, L.Encode(p.line), L.Encode(|p.names|) + rest);
    AtConcat(mem, |L.Encode(p.line)|, L.Encode(|p.names|), rest);
    L.RoundTrip(mem, 0, p.line, Some(|stream|));
    L.RoundTrip(mem, |L.Encode(p.line)|, |p.names|, Some(|stream|));
  }
}
