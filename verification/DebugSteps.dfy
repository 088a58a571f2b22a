// What a debug info stream is for: a list of steps, and the calls that a decoder has to make for it. The stream that is
// written for the steps is decoded to exactly these calls.

module DebugSteps {
  import opened Common
  import opened DebugInfo
  import L = Leb128

  // a string or type index
  type Index = x: int | 0 <= x < 0xffff_ffff

  // ----- The steps -----

  datatype Step =
    // advance the address, or the line
    | Pc(n: u4)
    | Line(k: s4)
    // advance both and report the position
    | Row(addressStep: nat, lineStep: int)
    // a local begins in a register, ends, or begins again
    | Start(reg: u2, name: Option<Index>, type_: Option<Index>)
    | StartExtended(reg: u2, name: Option<Index>, type_: Option<Index>, signature: Option<Index>)
    | End(reg: u2)
    | Restart(reg: u2)
    // the end of the prologue, the begin of the epilogue, another source file
    | Marker(opcode: u1)
  {
    predicate Valid(c: Code) {
      match this
      case Pc(_) => true
      case Line(_) => true
      case Row(a, l) => -4 <= l <= 10 && 15 * a + (l + 4) <= 245
      case Start(r, _, _) => r < c.registersSize
      case StartExtended(r, _, _, _) => r < c.registersSize
      case End(r) => r < c.registersSize
      case Restart(r) => r < c.registersSize
      case Marker(opcode) => 7 <= opcode <= 9
    }

    function AddressStep(): nat {
      match this
      case Pc(n) => n
      case Row(a, _) => a
      case _ => 0
    }

    function LineStep(): int {
      match this
      case Line(k) => k
      case Row(_, l) => l
      case _ => 0
    }
  }

  // Where the method starts, the names of its parameters if they have one, and the steps.
  datatype Program = Program(line: u4, names: seq<Option<Index>>, steps: seq<Step>) {
    predicate Valid(c: Code) {
      |names| <= |c.wide| && |names| < TWO32 && forall s | s in steps :: s.Valid(c)
    }

    // before the k-th step
    function Address(k: nat): u4
      requires k <= |steps|
    {
      AddressSum(steps, k) % TWO32
    }

    function LineAt(k: nat): u4
      requires k <= |steps|
    {
      (line + LineSum(steps, k)) % TWO32
    }
  }

  function AddressSum(steps: seq<Step>, k: nat): nat
    requires k <= |steps|
  {
    if k == 0 then 0 else AddressSum(steps, k - 1) + steps[k - 1].AddressStep()
  }

  function LineSum(steps: seq<Step>, k: nat): int
    requires k <= |steps|
  {
    if k == 0 then 0 else LineSum(steps, k - 1) + steps[k - 1].LineStep()
  }

  // ----- What the registers hold -----

  // since is where it began, if it has not ended
  datatype Variable = Variable(name: Option<Text>, type_: Option<Text>, signature: Option<Text>, since: Option<u2>)

  const NOTHING := Variable(None, None, None, None)

  function AsString(x: Option<Index>): Option<Text> {
    if x == None then None else Some(StringIdx(x.value))
  }

  function AsType(x: Option<Index>): Option<Text> {
    if x == None then None else Some(TypeIdx(x.value))
  }

  function WordsBefore(wide: seq<bool>, k: nat): nat
    requires k <= |wide|
  {
    if k == 0 then 0 else WordsBefore(wide, k - 1) + if wide[k - 1] then 2 else 1
  }

  // the register of the k-th parameter: arguments are in the last registers
  function RegisterOf(c: Code, k: nat): int
    requires k <= |c.wide|
  {
    c.registersSize - c.insSize + (if c.isStatic then 0 else 1) + WordsBefore(c.wide, k)
  }

  // after this and the first k parameters
  function Argument(c: Code, names: seq<Option<Index>>, k: nat, reg: nat): Variable
    requires k <= |names| <= |c.wide|
  {
    if k == 0 then
      if !c.isStatic && reg == c.registersSize - c.insSize then
        Variable(Some(This), Some(ClassDescriptor), None, Some(0))
      else NOTHING
    else if names[k - 1] != None && reg == RegisterOf(c, k - 1) then
      Variable(AsString(names[k - 1]), Some(ParameterDescriptor(k - 1)), None, Some(0))
    else Argument(c, names, k - 1, reg)
  }

  // after the first k steps
  function VariableAt(c: Code, p: Program, k: nat, reg: nat): Variable
    requires p.Valid(c) && k <= |p.steps|
  {
    if k == 0 then Argument(c, p.names, |p.names|, reg)
    else
      var v, here := VariableAt(c, p, k - 1, reg), Some(p.Address(k - 1) % 0x1_0000);
      match p.steps[k - 1]
      case Start(r, name, type_) => if r == reg then Variable(AsString(name), AsType(type_), None, here) else v
      case StartExtended(r, name, type_, signature) =>
        if r == reg then Variable(AsString(name), AsType(type_), AsString(signature), here) else v
      case End(r) => if r == reg then v.(since := None) else v
      case Restart(r) => if r == reg && v.since == None && !Nameless(v) then v.(since := here) else v
      case _ => v
  }

  predicate Nameless(v: Variable) {
    v.name == None || v.type_ == None
  }

  // ----- The calls -----

  // the report on what a register holds, if there is one
  function Report(v: Variable, reg: nat, end: u4, cb: Callbacks): seq<Event> {
    if cb.hasLocalCb && v.since.Some? then [Local(reg, v.since.value, end, v.name, v.type_, v.signature)] else []
  }

  // for the k-th step
  function CallsOf(c: Code, p: Program, cb: Callbacks, k: nat): seq<Event>
    requires p.Valid(c) && k < |p.steps|
  {
    match p.steps[k]
    case Row(_, _) => if cb.posCb.Some? then [Position(p.Address(k + 1), p.LineAt(k + 1))] else []
    case Start(r, _, _) => Report(VariableAt(c, p, k, r), r, p.Address(k), cb)
    case StartExtended(r, _, _, _) => Report(VariableAt(c, p, k, r), r, p.Address(k), cb)
    case End(r) => Report(VariableAt(c, p, k, r), r, p.Address(k), cb)
    case _ => []
  }

  // for the first k steps
  function Calls(c: Code, p: Program, cb: Callbacks, k: nat): seq<Event>
    requires p.Valid(c) && k <= |p.steps|
  {
    if k == 0 then [] else Calls(c, p, cb, k - 1) + CallsOf(c, p, cb, k - 1)
  }

  // at the end of the method, for the registers from reg on
  function FinalCalls(c: Code, p: Program, cb: Callbacks, k: nat, reg: nat): seq<Event>
    requires p.Valid(c) && k <= |p.steps| && reg <= c.registersSize
    decreases c.registersSize - reg
  {
    if reg == c.registersSize then []
    else Report(VariableAt(c, p, k, reg), reg, c.insnsSize, cb) + FinalCalls(c, p, cb, k, reg + 1)
  }

  // The k-th step stops the decoder: what begins again has no name or type, or the position callback says so.
  function Stop(c: Code, p: Program, cb: Callbacks, k: nat): Option<Reason>
    requires p.Valid(c) && k < |p.steps|
  {
    match p.steps[k]
    case Restart(r) => if Nameless(VariableAt(c, p, k, r)) then Some(Invalid) else None
    case Row(_, _) =>
      if cb.posCb.Some? && cb.posCb.value(Calls(c, p, cb, k + 1)) then Some(Exited) else None
    case _ => None
  }

  // ----- The stream -----

  // indices are stored with 1 added, so that 0 is none
  function IndexBytes(x: Option<Index>): seq<u1> {
    L.Encode(if x == None then 0 else x.value + 1)
  }

  function StepBytes(c: Code, s: Step): (bytes: seq<u1>)
    requires s.Valid(c)
    ensures |bytes| > 0
  {
    match s
    case Pc(n) => [1] + L.Encode(n)
    case Line(k) => [2] + L.EncodeSigned(k)
    case Start(r, name, type_) => [3] + (L.Encode(r) + (IndexBytes(name) + IndexBytes(type_)))
    case StartExtended(r, name, type_, signature) =>
      [4] + (L.Encode(r) + (IndexBytes(name) + (IndexBytes(type_) + IndexBytes(signature))))
    case End(r) => [5] + L.Encode(r)
    case Restart(r) => [6] + L.Encode(r)
    case Marker(opcode) => [opcode]
    case Row(a, l) => [10 + 15 * a + (l + 4)]
  }

  // the steps from k on, and the end of the sequence
  function StepsBytes(c: Code, p: Program, k: nat): seq<u1>
    requires p.Valid(c) && k <= |p.steps|
    decreases |p.steps| - k
  {
    if k == |p.steps| then [0] else StepBytes(c, p.steps[k]) + StepsBytes(c, p, k + 1)
  }

  function NamesBytes(names: seq<Option<Index>>, k: nat): seq<u1>
    requires k <= |names|
    decreases |names| - k
  {
    if k == |names| then [] else IndexBytes(names[k]) + NamesBytes(names, k + 1)
  }

  function StreamBytes(c: Code, p: Program): seq<u1>
    requires p.Valid(c)
  {
    L.Encode(p.line) + (L.Encode(|p.names|) + (NamesBytes(p.names, 0) + StepsBytes(c, p, 0)))
  }

  // ----- The stream is decoded to the calls -----

  // the decoder's register shows what it holds
  predicate Shows(l: LocalInfo, v: Variable) {
    && l.name == v.name && l.descriptor == v.type_ && l.signature == v.signature
    && l.live == v.since.Some? && (l.live ==> l.startAddress == v.since.value)
  }

  ghost predicate AllShow(locals: seq<LocalInfo>, c: Code, p: Program, k: nat)
    requires p.Valid(c) && k <= |p.steps|
  {
    |locals| == c.registersSize && forall reg: nat | reg < |locals| :: Shows(locals[reg], VariableAt(c, p, k, reg))
  }

  // the state before the k-th step
  ghost predicate Reached(c: Code, p: Program, cb: Callbacks, k: nat, s: State)
    requires p.Valid(c) && k <= |p.steps|
  {
    && s.address == p.Address(k) && s.line == p.LineAt(k) && s.events == Calls(c, p, cb, k)
    && AllShow(s.locals, c, p, k)
  }

  lemma IndexReadsBack(mem: Memory, pos: nat, x: Option<Index>)
    requires At(mem, pos, IndexBytes(x))
    ensures StringAt(mem, pos) == L.Read(AsString(x), pos + |IndexBytes(x)|)
    ensures TypeAt(mem, pos) == L.Read(AsType(x), pos + |IndexBytes(x)|)
  {
    hide L.UnsignedAt, L.Encode;
    L.RoundTrip(mem, pos, if x == None then 0 else x.value + 1, None);
  }

  lemma OpcodeReadsBack(mem: Memory, pos: nat, opcode: u1, rest: seq<u1>)
    requires At(mem, pos, [opcode] + rest)
    ensures mem(pos) == opcode && At(mem, pos + 1, rest)
  {
    AtConcat(mem, pos, [opcode], rest);
    assert mem(pos + 0) == [opcode][0];
  }

  lemma AddressAdvances(p: Program, k: nat)
    requires k < |p.steps|
    ensures p.Address(k + 1) == (p.Address(k) + p.steps[k].AddressStep()) % TWO32
    ensures p.LineAt(k + 1) == (p.LineAt(k) + p.steps[k].LineStep()) % TWO32
    ensures p.steps[k].AddressStep() == 0 ==> p.Address(k + 1) == p.Address(k)
    ensures p.steps[k].LineStep() == 0 ==> p.LineAt(k + 1) == p.LineAt(k)
  {
    hide Step.AddressStep, Step.LineStep;
    SumModulo(AddressSum(p.steps, k), p.steps[k].AddressStep());
    SumModulo(p.line + LineSum(p.steps, k), p.steps[k].LineStep());
  }

  lemma SumModulo(a: int, b: int)
    ensures (a % TWO32 + b) % TWO32 == (a + b) % TWO32
  {
    var x, q := a % TWO32 + b, a / TWO32;
    assert a + b == x + TWO32 * q;
    assert x == TWO32 * (x / TWO32) + x % TWO32;
    assert a + b == TWO32 * (x / TWO32 + q) + x % TWO32;
  }

  // What one step does to the state, by its kind.
  ghost predicate Follows(c: Code, p: Program, cb: Callbacks, k: nat, mem: Memory, pos: nat, s: State)
    requires p.Valid(c) && k < |p.steps| && |s.locals| == c.registersSize
  {
    var r := Execute(c, cb, mem, pos, s);
    && Reached(c, p, cb, k + 1, r.state)
    && r.next == pos + |StepBytes(c, p.steps[k])|
    && r.reason == (match Stop(c, p, cb, k) case None => Running case Some(reason) => reason)
  }

  lemma SameVariables(c: Code, p: Program, k: nat, locals: seq<LocalInfo>)
    requires p.Valid(c) && k < |p.steps| && AllShow(locals, c, p, k)
    requires p.steps[k].Pc? || p.steps[k].Line? || p.steps[k].Row? || p.steps[k].Marker?
    ensures AllShow(locals, c, p, k + 1)
  {
    forall reg: nat | reg < |locals|
      ensures Shows(locals[reg], VariableAt(c, p, k + 1, reg))
    {
      assert Shows(locals[reg], VariableAt(c, p, k, reg));
    }
  }

  lemma OneVariable(c: Code, p: Program, k: nat, locals: seq<LocalInfo>, reg: u2, l: LocalInfo)
    requires p.Valid(c) && k < |p.steps| && AllShow(locals, c, p, k) && reg < c.registersSize
    requires match p.steps[k]
             case Start(r, _, _) => r == reg
             case StartExtended(r, _, _, _) => r == reg
             case End(r) => r == reg
             case Restart(r) => r == reg
             case _ => false
    requires Shows(l, VariableAt(c, p, k + 1, reg))
    ensures AllShow(locals[reg := l], c, p, k + 1)
  {
    var after := locals[reg := l];
    forall other: nat | other < |after|
      ensures Shows(after[other], VariableAt(c, p, k + 1, other))
    {
      assert Shows(locals[other], VariableAt(c, p, k, other));
    }
  }

  lemma PlainStep(c: Code, p: Program, cb: Callbacks, k: nat, mem: Memory, pos: nat, s: State)
    requires p.Valid(c) && k < |p.steps| && Reached(c, p, cb, k, s) && At(mem, pos, StepBytes(c, p.steps[k]))
    requires p.steps[k].Pc? || p.steps[k].Line? || p.steps[k].Marker?
    ensures Follows(c, p, cb, k, mem, pos, s)
  {
    hide L.UnsignedAt, L.SignedAt, L.Encode, L.EncodeSigned, AllShow, At, AddressSum, LineSum;
    assert p.steps[k] in p.steps;
    AddressAdvances(p, k);
    SameVariables(c, p, k, s.locals);
    match p.steps[k]
    case Pc(n) =>
      OpcodeReadsBack(mem, pos, 1, L.Encode(n));
      L.RoundTrip(mem, pos + 1, n, None);
    case Line(n) =>
      OpcodeReadsBack(mem, pos, 2, L.EncodeSigned(n));
      L.SignedRoundTrip(mem, pos + 1, n);
    case Marker(opcode) =>
      assert [opcode] + [] == [opcode];
      OpcodeReadsBack(mem, pos, opcode, []);
  }

  // a special opcode
  lemma ExecutesRow(c: Code, cb: Callbacks, mem: Memory, pos: nat, s: State, a: nat, l: int)
    requires |s.locals| == c.registersSize && -4 <= l <= 10 && mem(pos) == 10 + 15 * a + (l + 4)
    ensures var moved := s.(address := (s.address + a) % TWO32, total := s.total + a, line := (s.line + l) % TWO32);
            var after := moved.(events := moved.events + [Position(moved.address, moved.line)]);
            Execute(c, cb, mem, pos, s) ==
            if cb.posCb == None then Result(moved, pos + 1, Running)
            else Result(after, pos + 1, if cb.posCb.value(after.events) then Exited else Running)
  {
    hide L.UnsignedAt, L.SignedAt, ExecuteLocal;
    assert (mem(pos) - 10) / 15 == a && (mem(pos) - 10) % 15 == l + 4;
  }

  lemma RowStep(c: Code, p: Program, cb: Callbacks, k: nat, mem: Memory, pos: nat, s: State)
    requires p.Valid(c) && k < |p.steps| && Reached(c, p, cb, k, s) && At(mem, pos, StepBytes(c, p.steps[k]))
    requires p.steps[k].Row?
    ensures Follows(c, p, cb, k, mem, pos, s)
  {
    hide AllShow, At, Execute, Program.Address, Program.LineAt, VariableAt;
    assert p.steps[k] in p.steps;
    ReachedMeans(c, p, cb, k, s);
    AddressAdvances(p, k);
    SameVariables(c, p, k, s.locals);
    var a, l := p.steps[k].addressStep, p.steps[k].lineStep;
    var opcode: u1 := 10 + 15 * a + (l + 4);
    assert [opcode] + [] == [opcode];
    OpcodeReadsBack(mem, pos, opcode, []);
    ExecutesRow(c, cb, mem, pos, s, a, l);
    assert s.events + [] == s.events;
  }

  lemma ReachedMeans(c: Code, p: Program, cb: Callbacks, k: nat, s: State)
    requires p.Valid(c) && k <= |p.steps| && Reached(c, p, cb, k, s)
    ensures s.address == p.Address(k) && s.line == p.LineAt(k) && s.events == Calls(c, p, cb, k)
    ensures AllShow(s.locals, c, p, k) && |s.locals| == c.registersSize
  {
  }

  lemma Shown(c: Code, p: Program, k: nat, locals: seq<LocalInfo>, reg: nat)
    requires p.Valid(c) && k <= |p.steps| && AllShow(locals, c, p, k) && reg < c.registersSize
    ensures |locals| == c.registersSize && Shows(locals[reg], VariableAt(c, p, k, reg))
  {
  }

  // the report on what a register shows
  lemma EmitReportsIt(s: State, reg: nat, v: Variable, end: u4, cb: Callbacks)
    requires reg < |s.locals| && Shows(s.locals[reg], v)
    ensures EmitLocalIfLive(s, reg, end, cb) == s.(events := s.events + Report(v, reg, end, cb))
  {
    assert s.events + [] == s.events;
  }

  // The opcodes that name a register, with their operands.
  lemma ExecutesEnd(c: Code, cb: Callbacks, mem: Memory, pos: nat, s: State, reg: u2, next: nat)
    requires |s.locals| == c.registersSize && reg < c.registersSize
    requires mem(pos) == 5 && L.UnsignedAt(mem, pos + 1) == L.Read(reg, next)
    ensures Execute(c, cb, mem, pos, s)
         == Result(CloseLocal(EmitLocalIfLive(s, reg, s.address, cb), reg), next, Running)
  {
    hide L.UnsignedAt, L.SignedAt, CloseLocal, EmitLocalIfLive;
  }

  lemma ExecutesRestart(c: Code, cb: Callbacks, mem: Memory, pos: nat, s: State, reg: u2, next: nat)
    requires |s.locals| == c.registersSize && reg < c.registersSize
    requires mem(pos) == 6 && L.UnsignedAt(mem, pos + 1) == L.Read(reg, next)
    ensures var l := s.locals[reg];
            Execute(c, cb, mem, pos, s) ==
            if l.name == None || l.descriptor == None then Result(s, next, Invalid)
            else Result(if l.live then s else OpenLocal(s, reg, l.name, l.descriptor, l.signature), next, Running)
  {
    hide L.UnsignedAt, L.SignedAt, OpenLocal, EmitLocalIfLive;
  }

  lemma ExecutesStart(c: Code, cb: Callbacks, mem: Memory, pos: nat, s: State, reg: u2, at: nat)
    requires |s.locals| == c.registersSize && reg < c.registersSize
    requires (mem(pos) == 3 || mem(pos) == 4) && L.UnsignedAt(mem, pos + 1) == L.Read(reg, at)
    ensures var name := StringAt(mem, at);
            var type_ := TypeAt(mem, name.next);
            var signature := if mem(pos) == 4 then StringAt(mem, type_.next) else L.Read(None, type_.next);
            Execute(c, cb, mem, pos, s) ==
            Result(OpenLocal(EmitLocalIfLive(s, reg, s.address, cb), reg, name.value, type_.value, signature.value),
                   signature.next, Running)
  {
    hide L.UnsignedAt, L.SignedAt, OpenLocal, EmitLocalIfLive, StringAt, TypeAt;
  }

  // The state after a step that makes calls for one register and stores there.
  lemma RegisterReached(c: Code, p: Program, cb: Callbacks, k: nat, s: State, t: State, reg: u2)
    requires p.Valid(c) && k < |p.steps| && Reached(c, p, cb, k, s) && reg < c.registersSize
    requires match p.steps[k]
             case Start(r, _, _) => r == reg
             case StartExtended(r, _, _, _) => r == reg
             case End(r) => r == reg
             case Restart(r) => r == reg
             case _ => false
    requires t.address == s.address && t.line == s.line && t.events == s.events + CallsOf(c, p, cb, k)
    requires |t.locals| == |s.locals| == c.registersSize && t.locals == s.locals[reg := t.locals[reg]]
    requires Shows(t.locals[reg], VariableAt(c, p, k + 1, reg))
    ensures Reached(c, p, cb, k + 1, t)
  {
    hide AllShow, AddressSum, LineSum, VariableAt, CallsOf, Shows;
    AddressAdvances(p, k);
    OneVariable(c, p, k, s.locals, reg, t.locals[reg]);
  }

  lemma EndStep(c: Code, p: Program, cb: Callbacks, k: nat, mem: Memory, pos: nat, s: State)
    requires p.Valid(c) && k < |p.steps| && Reached(c, p, cb, k, s) && At(mem, pos, StepBytes(c, p.steps[k]))
    requires p.steps[k].End?
    ensures Follows(c, p, cb, k, mem, pos, s)
  {
    hide L.UnsignedAt, L.Encode, At, AllShow, Execute, EmitLocalIfLive, Report, Program.Address, Program.LineAt;
    hide Reached;
    ReachedMeans(c, p, cb, k, s);
    assert p.steps[k] in p.steps;
    var reg := p.steps[k].reg;
    OpcodeReadsBack(mem, pos, 5, L.Encode(reg));
    L.RoundTrip(mem, pos + 1, reg, None);
    Shown(c, p, k, s.locals, reg);
    ExecutesEnd(c, cb, mem, pos, s, reg, pos + 1 + |L.Encode(reg)|);
    EmitReportsIt(s, reg, VariableAt(c, p, k, reg), s.address, cb);
    var t := CloseLocal(EmitLocalIfLive(s, reg, s.address, cb), reg);
    RegisterReached(c, p, cb, k, s, t, reg);
  }

  lemma RestartStep(c: Code, p: Program, cb: Callbacks, k: nat, mem: Memory, pos: nat, s: State)
    requires p.Valid(c) && k < |p.steps| && Reached(c, p, cb, k, s) && At(mem, pos, StepBytes(c, p.steps[k]))
    requires p.steps[k].Restart?
    ensures Follows(c, p, cb, k, mem, pos, s)
  {
    hide L.UnsignedAt, L.Encode, At, AllShow, Execute, EmitLocalIfLive, Report, Program.Address, Program.LineAt;
    hide Reached;
    ReachedMeans(c, p, cb, k, s);
    assert p.steps[k] in p.steps;
    var reg := p.steps[k].reg;
    OpcodeReadsBack(mem, pos, 6, L.Encode(reg));
    L.RoundTrip(mem, pos + 1, reg, None);
    Shown(c, p, k, s.locals, reg);
    ExecutesRestart(c, cb, mem, pos, s, reg, pos + 1 + |L.Encode(reg)|);
    assert s.events + [] == s.events;
    var t := Execute(c, cb, mem, pos, s).state;
    RegisterReached(c, p, cb, k, s, t, reg);
  }

  lemma StartStep(c: Code, p: Program, cb: Callbacks, k: nat, mem: Memory, pos: nat, s: State)
    requires p.Valid(c) && k < |p.steps| && Reached(c, p, cb, k, s) && At(mem, pos, StepBytes(c, p.steps[k]))
    requires p.steps[k].Start? || p.steps[k].StartExtended?
    ensures Follows(c, p, cb, k, mem, pos, s)
  {
    hide L.UnsignedAt, L.Encode, At, AllShow, Execute, EmitLocalIfLive, Report, Program.Address, Program.LineAt;
    hide Reached, IndexBytes, StringAt, TypeAt;
    ReachedMeans(c, p, cb, k, s);
    assert p.steps[k] in p.steps;
    var reg := p.steps[k].reg;
    var at := StartReadsBack(c, mem, pos, p.steps[k]);
    Shown(c, p, k, s.locals, reg);
    ExecutesStart(c, cb, mem, pos, s, reg, at);
    EmitReportsIt(s, reg, VariableAt(c, p, k, reg), s.address, cb);
    var t := Execute(c, cb, mem, pos, s).state;
    RegisterReached(c, p, cb, k, s, t, reg);
  }

  // the operands of a step that begins a local
  lemma StartReadsBack(c: Code, mem: Memory, pos: nat, step: Step) returns (at: nat)
    requires step.Valid(c) && (step.Start? || step.StartExtended?) && At(mem, pos, StepBytes(c, step))
    ensures mem(pos) == (if step.Start? then 3 else 4) && L.UnsignedAt(mem, pos + 1) == L.Read(step.reg, at)
    ensures var name := StringAt(mem, at);
            var type_ := TypeAt(mem, name.next);
            && name.value == AsString(step.name) && type_.value == AsType(step.type_)
            && (if step.Start? then type_.next == pos + |StepBytes(c, step)|
                else StringAt(mem, type_.next) == L.Read(AsString(step.signature), pos + |StepBytes(c, step)|))
  {
    hide L.UnsignedAt, L.Encode, At, IndexBytes, StringAt, TypeAt;
    var reg, name, type_ := step.reg, step.name, step.type_;
    var rest := if step.Start? then IndexBytes(type_) else IndexBytes(type_) + IndexBytes(step.signature);
    OpcodeReadsBack(mem, pos, if step.Start? then 3 else 4, L.Encode(reg) + (IndexBytes(name) + rest));
    AtConcat(mem, pos + 1, L.Encode(reg), IndexBytes(name) + rest);
    L.RoundTrip(mem, pos + 1, reg, None);
    at := pos + 1 + |L.Encode(reg)|;
    AtConcat(mem, at, IndexBytes(name), rest);
    IndexReadsBack(mem, at, name);
    if step.StartExtended? {
      AtConcat(mem, at + |IndexBytes(name)|, IndexBytes(type_), IndexBytes(step.signature));
      IndexReadsBack(mem, at + |IndexBytes(name)| + |IndexBytes(type_)|, step.signature);
    }
    IndexReadsBack(mem, at + |IndexBytes(name)|, type_);
  }

  lemma StepFollows(c: Code, p: Program, cb: Callbacks, k: nat, mem: Memory, pos: nat, s: State)
    requires p.Valid(c) && k < |p.steps| && Reached(c, p, cb, k, s) && At(mem, pos, StepBytes(c, p.steps[k]))
    ensures Follows(c, p, cb, k, mem, pos, s)
  {
    hide Reached, Follows, StepBytes;
    match p.steps[k]
    case Pc(_) => PlainStep(c, p, cb, k, mem, pos, s);
    case Line(_) => PlainStep(c, p, cb, k, mem, pos, s);
    case Marker(_) => PlainStep(c, p, cb, k, mem, pos, s);
    case Row(_, _) => RowStep(c, p, cb, k, mem, pos, s);
    case Start(_, _, _) => StartStep(c, p, cb, k, mem, pos, s);
    case StartExtended(_, _, _, _) => StartStep(c, p, cb, k, mem, pos, s);
    case End(_) => EndStep(c, p, cb, k, mem, pos, s);
    case Restart(_) => RestartStep(c, p, cb, k, mem, pos, s);
  }

  // From the k-th step on the decoder makes the calls of the steps up to the first that stops it.
  lemma {:induction false} StepsFollow(
    c: Code, p: Program, cb: Callbacks, k: nat, m: nat, stream: seq<u1>, pos: nat, s: State)
    requires p.Valid(c) && k <= m <= |p.steps| && Reached(c, p, cb, k, s)
    requires At(Bytes(stream), pos, StepsBytes(c, p, k))
    requires forall i: nat | k <= i < m :: Stop(c, p, cb, i) == None
    requires m < |p.steps| ==> Stop(c, p, cb, m) != None
    ensures var r := Run(c, cb, stream, pos, s);
            if m == |p.steps| then
              r.reason == Ended && Reached(c, p, cb, m, r.state) && r.next == pos + |StepsBytes(c, p, k)|
            else Some(r.reason) == Stop(c, p, cb, m) && Reached(c, p, cb, m + 1, r.state)
    decreases |p.steps| - k
  {
    hide Execute, Run, Reached, StepBytes, Stop, Bytes, At;
    var mem := Bytes(stream);
    ReachedSize(c, p, cb, k, s);
    RunUnfolds(c, cb, stream, pos, s);
    if k == |p.steps| {
      assert [0] + [] == [0];
      OpcodeReadsBack(mem, pos, 0, []);
      ReadEnd(c, cb, mem, pos, s);
    } else {
      AtConcat(mem, pos, StepBytes(c, p.steps[k]), StepsBytes(c, p, k + 1));
      StepFollows(c, p, cb, k, mem, pos, s);
      var r := Execute(c, cb, mem, pos, s);
      if k < m {
        StepsFollow(c, p, cb, k + 1, m, stream, r.next, r.state);
      } else {
        StopIsNoRun(c, p, cb, k);
      }
    }
  }

  lemma ReachedSize(c: Code, p: Program, cb: Callbacks, k: nat, s: State)
    requires p.Valid(c) && k <= |p.steps| && Reached(c, p, cb, k, s)
    ensures |s.locals| == c.registersSize
  {
  }

  lemma ReadEnd(c: Code, cb: Callbacks, mem: Memory, pos: nat, s: State)
    requires |s.locals| == c.registersSize && mem(pos) == 0
    ensures Execute(c, cb, mem, pos, s) == Result(s, pos + 1, Ended)
  {
  }

  lemma StopIsNoRun(c: Code, p: Program, cb: Callbacks, k: nat)
    requires p.Valid(c) && k < |p.steps|
    ensures Stop(c, p, cb, k) != Some(Running)
  {
  }

  // ----- The parameters -----

  lemma {:induction false} WordsSplit(wide: seq<bool>, k: nat)
    requires k <= |wide|
    ensures WordsBefore(wide, k) + Words(wide, k) == Words(wide, 0)
  {
    if k > 0 {
      WordsSplit(wide, k - 1);
    }
  }

  ghost predicate ArgumentsShow(locals: seq<LocalInfo>, c: Code, names: seq<Option<Index>>, k: nat)
    requires k <= |names| <= |c.wide|
  {
    |locals| == c.registersSize && forall reg: nat | reg < |locals| :: Shows(locals[reg], Argument(c, names, k, reg))
  }

  lemma NextArgument(c: Code, names: seq<Option<Index>>, k: nat, s: State)
    requires k < |names| <= |c.wide| && ArgumentsShow(s.locals, c, names, k) && s.address == 0
    requires 0 <= RegisterOf(c, k) < c.registersSize
    ensures var named := if names[k] == None then s
                         else OpenLocal(s, RegisterOf(c, k), AsString(names[k]), Some(ParameterDescriptor(k)), None);
            && ArgumentsShow(named.locals, c, names, k + 1) && named.address == 0 && named.line == s.line
            && named.events == s.events
  {
    var named := if names[k] == None then s
                 else OpenLocal(s, RegisterOf(c, k), AsString(names[k]), Some(ParameterDescriptor(k)), None);
    forall other: nat | other < |named.locals|
      ensures Shows(named.locals[other], Argument(c, names, k + 1, other))
    {
      assert Shows(s.locals[other], Argument(c, names, k, other));
    }
  }

  // A parameter has at least one register.
  lemma RegisterFits(c: Code, k: nat)
    requires EnoughRegisters(c) && k <= |c.wide|
    ensures 0 <= RegisterOf(c, k) <= c.registersSize
    ensures k < |c.wide| ==> && RegisterOf(c, k) < c.registersSize
                             && RegisterOf(c, k + 1) == RegisterOf(c, k) + if c.wide[k] then 2 else 1
  {
    WordsSplit(c.wide, k);
    if k < |c.wide| {
      WordsSplit(c.wide, k + 1);
    }
  }

  lemma ArgumentsSize(locals: seq<LocalInfo>, c: Code, names: seq<Option<Index>>, k: nat)
    requires k <= |names| <= |c.wide| && ArgumentsShow(locals, c, names, k)
    ensures |locals| == c.registersSize
  {
  }

  // one round of the loop over the parameters
  lemma ParametersUnfold(c: Code, mem: Memory, pos: nat, s: State, n: nat, k: nat, reg: u2)
    requires |s.locals| == c.registersSize && k + n <= |c.wide| && (n > 0 ==> reg < c.registersSize)
    ensures var r := Parameters(c, mem, pos, s, n, k, reg);
            if n == 0 then r == Result(s, pos, Running)
            else
              var name := StringAt(mem, pos);
              var named := if name.value == None then s
                           else OpenLocal(s, reg, name.value, Some(ParameterDescriptor(k)), None);
              r == Parameters(c, mem, name.next, named, n - 1, k + 1, (reg + if c.wide[k] then 2 else 1) % 0x1_0000)
  {
    hide StringAt;
  }

  lemma {:induction false} ParametersFollow(c: Code, p: Program, mem: Memory, pos: nat, s: State, k: nat)
    requires EnoughRegisters(c) && p.Valid(c) && k <= |p.names| && At(mem, pos, NamesBytes(p.names, k))
    requires ArgumentsShow(s.locals, c, p.names, k) && s.address == 0 && s.events == [] && s.line == p.line
    ensures 0 <= RegisterOf(c, k) <= c.registersSize
    ensures var r := Parameters(c, mem, pos, s, |p.names| - k, k, RegisterOf(c, k));
            && r.reason == Running && r.next == pos + |NamesBytes(p.names, k)|
            && r.state.events == [] && r.state.address == 0 && r.state.line == p.line
            && ArgumentsShow(r.state.locals, c, p.names, |p.names|)
    decreases |p.names| - k
  {
    hide StringAt, IndexBytes, At, WordsBefore, Words, RegisterOf, Parameters, ArgumentsShow, OpenLocal;
    RegisterFits(c, k);
    ArgumentsSize(s.locals, c, p.names, k);
    ParametersUnfold(c, mem, pos, s, |p.names| - k, k, RegisterOf(c, k));
    if k < |p.names| {
      RegisterFits(c, k + 1);
      AtConcat(mem, pos, IndexBytes(p.names[k]), NamesBytes(p.names, k + 1));
      IndexReadsBack(mem, pos, p.names[k]);
      var reg := RegisterOf(c, k);
      var named := if p.names[k] == None then s
                   else OpenLocal(s, reg, AsString(p.names[k]), Some(ParameterDescriptor(k)), None);
      NextArgument(c, p.names, k, s);
      ParametersFollow(c, p, mem, pos + |IndexBytes(p.names[k])|, named, k + 1);
    }
  }

  // ----- The whole stream -----

  lemma ShownSize(c: Code, p: Program, k: nat, locals: seq<LocalInfo>)
    requires p.Valid(c) && k <= |p.steps| && AllShow(locals, c, p, k)
    ensures |locals| == c.registersSize
  {
  }

  lemma {:induction false} FinalCallsFollow(c: Code, p: Program, cb: Callbacks, k: nat, s: State, reg: nat)
    requires p.Valid(c) && k <= |p.steps| && reg <= c.registersSize && AllShow(s.locals, c, p, k)
    ensures Finish(s, reg, c.insnsSize, cb).events == s.events + FinalCalls(c, p, cb, k, reg)
    decreases c.registersSize - reg
  {
    hide AllShow, VariableAt;
    ShownSize(c, p, k, s.locals);
    if reg < c.registersSize {
      Shown(c, p, k, s.locals, reg);
      var report, rest := Report(VariableAt(c, p, k, reg), reg, c.insnsSize, cb), FinalCalls(c, p, cb, k, reg + 1);
      FinalCallsFollow(c, p, cb, k, EmitLocalIfLive(s, reg, c.insnsSize, cb), reg + 1);
      assert s.events + report + rest == s.events + (report + rest);
      assert s.events + [] == s.events;
    } else {
      assert s.events + [] == s.events;
    }
  }

  // The stream that is written for a program is decoded to the calls of its steps, up to the first step that stops the
  // decoder, and to those for what is left in the registers then.
  lemma StreamIsDecoded(c: Code, p: Program, cb: Callbacks, m: nat, more: seq<u1>)
    requires EnoughRegisters(c) && p.Valid(c) && m <= |p.steps|
    requires forall i: nat | i < m :: Stop(c, p, cb, i) == None
    requires m < |p.steps| ==> Stop(c, p, cb, m) != None
    ensures var d, k := Decode(c, cb, StreamBytes(c, p) + more), if m < |p.steps| then m + 1 else m;
            && Some(d.reason) == (if m < |p.steps| then Stop(c, p, cb, m) else Some(Ended))
            && d.state.events == Calls(c, p, cb, k)
            && Finish(d.state, 0, c.insnsSize, cb).events == Calls(c, p, cb, k) + FinalCalls(c, p, cb, k, 0)
            && (m == |p.steps| ==> d.next == |StreamBytes(c, p)|)
  {
    hide L.Encode, L.UnsignedAt, Parameters, Run, StepsBytes, NamesBytes, Calls, FinalCalls, Stop, At, Finish, Reached;
    hide Decode, ArgumentsShow, AllShow, RegisterOf, Bytes;
    var stream := StreamBytes(c, p) + more;
    var mem := Bytes(stream);
    var at1, at2, at3 := StreamParts(c, p, more);
    var s := FirstState(c, p);
    ParametersFollow(c, p, mem, at2, s, 0);
    var params := Parameters(c, mem, at2, s, |p.names|, 0, RegisterOf(c, 0));
    StartReached(c, p, cb, params.state);
    StepsFollow(c, p, cb, 0, m, stream, at3, params.state);
    DecodesFrom(c, cb, stream, p.line, |p.names|, at1, at2, s, RegisterOf(c, 0));
    var d := Decode(c, cb, stream);
    var k := if m < |p.steps| then m + 1 else m;
    ReachedMeans(c, p, cb, k, d.state);
    FinalCallsFollow(c, p, cb, k, d.state, 0);
  }

  // Decode with what it reads before the parameters
  lemma DecodesFrom(c: Code, cb: Callbacks, stream: seq<u1>, line: u4, n: u4, at1: nat, at2: nat, s: State, reg: u2)
    requires c.insSize <= c.registersSize && (c.isStatic || c.insSize > 0) && |s.locals| == c.registersSize
    requires L.UnsignedAt(Bytes(stream), 0) == L.Read(line, at1) && L.UnsignedAt(Bytes(stream), at1) == L.Read(n, at2)
    requires s == if c.isStatic then Initial(c, line)
                  else OpenLocal(Initial(c, line), c.registersSize - c.insSize, Some(This), Some(ClassDescriptor), None)
    requires reg == c.registersSize - c.insSize + if c.isStatic then 0 else 1
    ensures var params := Parameters(c, Bytes(stream), at2, s, n, 0, reg);
            params.reason == Running ==> Decode(c, cb, stream) == Run(c, cb, stream, params.next, params.state)
  {
    hide L.UnsignedAt, Parameters, Run, Bytes, OpenLocal;
  }

  // where the names and the steps start
  lemma StreamParts(c: Code, p: Program, more: seq<u1>) returns (at1: nat, at2: nat, at3: nat)
    requires p.Valid(c)
    ensures var mem := Bytes(StreamBytes(c, p) + more);
            && L.UnsignedAt(mem, 0) == L.Read(p.line, at1) && L.UnsignedAt(mem, at1) == L.Read(|p.names|, at2)
            && At(mem, at2, NamesBytes(p.names, 0)) && at3 == at2 + |NamesBytes(p.names, 0)|
            && At(mem, at3, StepsBytes(c, p, 0)) && at3 + |StepsBytes(c, p, 0)| == |StreamBytes(c, p)|
  {
    hide L.Encode, L.UnsignedAt, StepsBytes, NamesBytes, At;
    StreamAt(c, p, more);
    var mem := Bytes(StreamBytes(c, p) + more);
    at1 := |L.Encode(p.line)|;
    at2 := at1 + |L.Encode(|p.names|)|;
    at3 := at2 + |NamesBytes(p.names, 0)|;
    AtConcat(mem, 0, L.Encode(p.line), L.Encode(|p.names|) + (NamesBytes(p.names, 0) + StepsBytes(c, p, 0)));
    AtConcat(mem, at1, L.Encode(|p.names|), NamesBytes(p.names, 0) + StepsBytes(c, p, 0));
    AtConcat(mem, at2, NamesBytes(p.names, 0), StepsBytes(c, p, 0));
    L.RoundTrip(mem, 0, p.line, None);
    L.RoundTrip(mem, at1, |p.names|, None);
  }

  lemma StreamAt(c: Code, p: Program, more: seq<u1>)
    requires p.Valid(c)
    ensures At(Bytes(StreamBytes(c, p) + more), 0, StreamBytes(c, p))
  {
    hide StreamBytes;
  }

  // before the parameters
  lemma FirstState(c: Code, p: Program) returns (s: State)
    requires EnoughRegisters(c) && p.Valid(c)
    ensures ArgumentsShow(s.locals, c, p.names, 0) && s.address == 0 && s.events == [] && s.line == p.line
    ensures 0 <= RegisterOf(c, 0) <= c.registersSize && |s.locals| == c.registersSize
    ensures RegisterOf(c, 0) == c.registersSize - c.insSize + (if c.isStatic then 0 else 1)
    ensures s == if c.isStatic then Initial(c, p.line)
              else OpenLocal(Initial(c, p.line), c.registersSize - c.insSize, Some(This), Some(ClassDescriptor), None)
  {
    WordsSplit(c.wide, 0);
    s := if c.isStatic then Initial(c, p.line)
         else OpenLocal(Initial(c, p.line), c.registersSize - c.insSize, Some(This), Some(ClassDescriptor), None);
  }

  lemma StartReached(c: Code, p: Program, cb: Callbacks, s: State)
    requires p.Valid(c) && ArgumentsShow(s.locals, c, p.names, |p.names|)
    requires s.address == 0 && s.events == [] && s.line == p.line
    ensures Reached(c, p, cb, 0, s)
  {
    forall reg: nat | reg < |s.locals|
      ensures Shows(s.locals[reg], VariableAt(c, p, 0, reg))
    {
      assert Shows(s.locals[reg], Argument(c, p.names, |p.names|, reg));
    }
  }}
