// The debug info of a method: the state machine of libdex/DexDebugInfo.cpp.

module DebugInfo {
  import opened Common
  import L = Leb128

  const END_SEQUENCE: u1 := 0x00
  const ADVANCE_PC: u1 := 0x01
  const ADVANCE_LINE: u1 := 0x02
  const START_LOCAL: u1 := 0x03
  const START_LOCAL_EXTENDED: u1 := 0x04
  const END_LOCAL: u1 := 0x05
  const RESTART_LOCAL: u1 := 0x06
  const FIRST_SPECIAL: u1 := 0x0a
  const LINE_BASE := -4
  const LINE_RANGE := 15

  // Where a string comes from; a string or type index stands for what it is looked up as.
  datatype Text = StringIdx(i: u4) | TypeIdx(i: u4) | This | ClassDescriptor | ParameterDescriptor(k: nat)

  datatype LocalInfo = LocalInfo(
    name: Option<Text>, descriptor: Option<Text>, signature: Option<Text>, startAddress: u2, live: bool)

  // a parameter takes two registers if its descriptor starts with D or J
  datatype Code = Code(registersSize: u2, insSize: u2, insnsSize: u4, isStatic: bool, wide: seq<bool>)

  // What the callbacks are called with. A missing signature is passed as an empty string.
  datatype Event =
    | Position(address: u4, line: u4)
    | Local(reg: nat, start: u2, end: u4, name: Option<Text>, descriptor: Option<Text>, signature: Option<Text>)

  // The position callback answers from all positions so far whether to stop; both callbacks may be missing.
  datatype Callbacks = Callbacks(posCb: Option<seq<Event> -> bool>, hasLocalCb: bool)

  // The state of decoding. Beside what the code keeps it has the calls made so far, the locals opened so far, and
  // the sum of all address advances, which the 32-bit address is the remainder of.
  datatype State = State(
    address: u4, line: u4, locals: seq<LocalInfo>, events: seq<Event>, started: seq<Open>, total: nat)

  datatype Open = Open(reg: nat, start: u2, name: Option<Text>, descriptor: Option<Text>, signature: Option<Text>)

  // OutOfBounds: a register number equal to the number of registers passes the check of the code.
  datatype Reason = Running | Ended | Invalid | Exited | OutOfBounds

  datatype Result = Result(state: State, next: nat, reason: Reason)

  // readStringIdx, readTypeIdx: indices are stored with 1 added
  function StringAt(mem: Memory, pos: nat): L.Read<Option<Text>> {
    var r := L.UnsignedAt(mem, pos);
    L.Read(if r.value == 0 then None else Some(StringIdx(r.value - 1)), r.next)
  }

  function TypeAt(mem: Memory, pos: nat): L.Read<Option<Text>> {
    var r := L.UnsignedAt(mem, pos);
    L.Read(if r.value == 0 then None else Some(TypeIdx(r.value - 1)), r.next)
  }

  // ----- The effect of each opcode -----

  function EmitLocalIfLive(s: State, reg: nat, end: u4, cb: Callbacks): State
    requires reg < |s.locals|
  {
    var l := s.locals[reg];
    if cb.hasLocalCb && l.live then
      s.(events := s.events + [Local(reg, l.startAddress, end, l.name, l.descriptor, l.signature)])
    else s
  }

  function OpenLocal(s: State, reg: nat, name: Option<Text>, descriptor: Option<Text>, signature: Option<Text>): State
    requires reg < |s.locals|
  {
    var start := s.address % 0x1_0000;
    s.(locals := s.locals[reg := LocalInfo(name, descriptor, signature, start, true)],
       started := s.started + [Open(reg, start, name, descriptor, signature)])
  }

  function CloseLocal(s: State, reg: nat): State
    requires reg < |s.locals|
  {
    s.(locals := s.locals[reg := s.locals[reg].(live := false)])
  }

  function RestartLocal(s: State, reg: nat): State
    requires reg < |s.locals|
  {
    var l := s.locals[reg];
    if l.live then s else OpenLocal(s, reg, l.name, l.descriptor, l.signature)
  }

  function Advance(s: State, n: nat): State {
    s.(address := (s.address + n) % TWO32, total := s.total + n)
  }

  function AdvanceLine(s: State, n: int): State {
    s.(line := (s.line + n) % TWO32)
  }

  function EmitPosition(s: State, cb: Callbacks): (State, bool) {
    if cb.posCb == None then (s, false)
    else
      var after := s.(events := s.events + [Position(s.address, s.line)]);
      (after, cb.posCb.value(after.events))
  }

  function Execute(c: Code, cb: Callbacks, mem: Memory, pos: nat, s: State): (r: Result)
    requires |s.locals| == c.registersSize
    ensures r.next > pos && |r.state.locals| == c.registersSize && r.state.total >= s.total
  {
    var opcode, at := mem(pos), pos + 1;
    if opcode == END_SEQUENCE then Result(s, at, Ended)
    else if opcode == ADVANCE_PC then
      var n := L.UnsignedAt(mem, at);
      Result(Advance(s, n.value), n.next, Running)
    else if opcode == ADVANCE_LINE then
      var n := L.SignedAt(mem, at);
      Result(AdvanceLine(s, n.value), n.next, Running)
    else if START_LOCAL <= opcode <= RESTART_LOCAL then
      var n := L.UnsignedAt(mem, at);
      var reg := n.value % 0x1_0000;
      if reg > c.registersSize then Result(s, n.next, Invalid)
      else if reg == c.registersSize then Result(s, n.next, OutOfBounds)
      else ExecuteLocal(cb, mem, opcode, n.next, s, reg)
    else if opcode < FIRST_SPECIAL then Result(s, at, Running)
    else
      var adjopcode := opcode - FIRST_SPECIAL;
      var moved := AdvanceLine(Advance(s, adjopcode / LINE_RANGE), LINE_BASE + adjopcode % LINE_RANGE);
      var emitted := EmitPosition(moved, cb);
      Result(emitted.0, at, if emitted.1 then Exited else Running)
  }

  function ExecuteLocal(cb: Callbacks, mem: Memory, opcode: u1, at: nat, s: State, reg: nat): (r: Result)
    requires reg < |s.locals|
    ensures r.next >= at && |r.state.locals| == |s.locals| && r.state.total == s.total
    ensures r.state.address == s.address && r.state.line == s.line
  {
    if opcode == START_LOCAL || opcode == START_LOCAL_EXTENDED then
      var name := StringAt(mem, at);
      var descriptor := TypeAt(mem, name.next);
      var signature := if opcode == START_LOCAL_EXTENDED then StringAt(mem, descriptor.next)
                       else L.Read(None, descriptor.next);
      Result(OpenLocal(EmitLocalIfLive(s, reg, s.address, cb), reg, name.value, descriptor.value, signature.value),
             signature.next, Running)
    else if opcode == END_LOCAL then
      Result(CloseLocal(EmitLocalIfLive(s, reg, s.address, cb), reg), at, Running)
    else if s.locals[reg].name == None || s.locals[reg].descriptor == None then Result(s, at, Invalid)
    else Result(RestartLocal(s, reg), at, Running)
  }

  // A special opcode made from an address step and a line step makes exactly these two steps, and is a position.
  lemma SpecialOpcode(c: Code, cb: Callbacks, mem: Memory, pos: nat, s: State, addressStep: nat, lineStep: int)
    requires |s.locals| == c.registersSize && cb.posCb != None
    requires LINE_BASE <= lineStep < LINE_BASE + LINE_RANGE
    requires mem(pos) == FIRST_SPECIAL + LINE_RANGE * addressStep + (lineStep - LINE_BASE)
    ensures var r := Execute(c, cb, mem, pos, s);
            var address, line := (s.address + addressStep) % TWO32, (s.line + lineStep) % TWO32;
            && r.next == pos + 1 && r.state.address == address && r.state.line == line
            && r.state.events == s.events + [Position(address, line)]
            && (r.reason == Exited <==> cb.posCb.value(r.state.events))
  {
    hide ExecuteLocal;
    var adjopcode := LINE_RANGE * addressStep + (lineStep - LINE_BASE);
    assert adjopcode / LINE_RANGE == addressStep && adjopcode % LINE_RANGE == lineStep - LINE_BASE;
  }

  // the loop over the opcodes
  function Run(c: Code, cb: Callbacks, stream: seq<u1>, pos: nat, s: State): (r: Result)
    requires |s.locals| == c.registersSize
    ensures |r.state.locals| == c.registersSize && r.reason != Running && r.state.total >= s.total
    decreases |stream| - pos
  {
    var r := Execute(c, cb, Bytes(stream), pos, s);
    if r.reason != Running then r
    else if pos >= |stream| then assert false; r
    else Run(c, cb, stream, r.next, r.state)
  }

  // the loop over the parameters, n of which the stream still has names for
  function Parameters(c: Code, mem: Memory, pos: nat, s: State, n: nat, k: nat, argReg: u2): (r: Result)
    requires |s.locals| == c.registersSize
    ensures |r.state.locals| == c.registersSize && r.reason in {Running, Invalid}
    ensures r.state.total == s.total && r.state.address == s.address && r.state.line == s.line
    ensures r.state.events == s.events
    decreases n
  {
    if n == 0 then Result(s, pos, Running)
    else if argReg >= c.registersSize || k >= |c.wide| then Result(s, pos, Invalid)
    else
      var name := StringAt(mem, pos);
      var named := if name.value == None then s
                   else OpenLocal(s, argReg, name.value, Some(ParameterDescriptor(k)), None);
      Parameters(c, mem, name.next, named, n - 1, k + 1, (argReg + if c.wide[k] then 2 else 1) % 0x1_0000)
  }

  const NO_LOCAL := LocalInfo(None, None, None, 0, false)

  function Initial(c: Code, line: u4): (s: State)
    ensures |s.locals| == c.registersSize
  {
    State(0, line, seq(c.registersSize, i => NO_LOCAL), [], [], 0)
  }

  // dexDecodeDebugInfo0, for methods whose instances have a register
  function Decode(c: Code, cb: Callbacks, stream: seq<u1>): (r: Result)
    requires c.insSize <= c.registersSize && (c.isStatic || c.insSize > 0)
    ensures |r.state.locals| == c.registersSize && r.reason != Running
  {
    var mem := Bytes(stream);
    var line := L.UnsignedAt(mem, 0);
    var parametersSize := L.UnsignedAt(mem, line.next);
    var argReg := c.registersSize - c.insSize;
    var s := Initial(c, line.value);
    var first := if c.isStatic then s else OpenLocal(s, argReg, Some(This), Some(ClassDescriptor), None);
    var params := Parameters(c, mem, parametersSize.next, first, parametersSize.value, 0,
                             if c.isStatic then argReg else argReg + 1);
    if params.reason == Invalid then params else Run(c, cb, stream, params.next, params.state)
  }

  // the loop at the end of dexDecodeDebugInfo: what is still live ends with the code
  function Finish(s: State, reg: nat, end: u4, cb: Callbacks): (f: State)
    requires reg <= |s.locals|
    ensures f.locals == s.locals
    decreases |s.locals| - reg
  {
    if reg == |s.locals| then s else Finish(EmitLocalIfLive(s, reg, end, cb), reg + 1, end, cb)
  }

  // ----- Addresses of positions and locals -----

  // In the order of the calls: positions never go back, nor do the ends of locals; no local ends before it starts; and
  // a local starts where the one before it in the same register ended, or later. Nothing is beyond the bound.
  ghost predicate Ordered(events: seq<Event>, bound: int) {
    && (forall i, j | 0 <= i < j < |events| && events[i].Position? && events[j].Position? ::
          events[i].address <= events[j].address)
    && (forall i, j | 0 <= i < j < |events| && events[i].Local? && events[j].Local? :: events[i].end <= events[j].end)
    && (forall i, j | 0 <= i < j < |events| && events[i].Local? && events[j].Local? && events[i].reg == events[j].reg ::
          events[i].end <= events[j].start)
    && (forall i | 0 <= i < |events| && events[i].Local? :: events[i].start <= events[i].end <= bound)
    && (forall i | 0 <= i < |events| && events[i].Position? :: events[i].address <= bound)
  }

  // What is live in a register started after all that was reported for that register.
  ghost predicate LiveLater(s: State, reg: nat)
    requires reg < |s.locals|
  {
    s.locals[reg].live ==>
      && s.locals[reg].startAddress <= s.total
      && forall i | 0 <= i < |s.events| && s.events[i].Local? && s.events[i].reg == reg ::
           s.events[i].end <= s.locals[reg].startAddress
  }

  ghost predicate InOrder(s: State) {
    && s.address == s.total < 0x1_0000
    && Ordered(s.events, s.total)
    && forall reg: nat | reg < |s.locals| :: LiveLater(s, reg)
  }

  lemma OrderedPosition(events: seq<Event>, bound: int, address: u4, line: u4)
    requires Ordered(events, bound) && bound <= address
    ensures Ordered(events + [Position(address, line)], address)
  {
  }

  lemma OrderedLocal(events: seq<Event>, bound: int, e: Event)
    requires Ordered(events, bound) && e.Local? && bound <= e.end && e.start <= e.end
    requires forall i | 0 <= i < |events| && events[i].Local? && events[i].reg == e.reg :: events[i].end <= e.start
    ensures Ordered(events + [e], e.end)
  {
  }

  lemma AdvanceKeepsOrder(s: State, n: nat)
    requires InOrder(s) && s.total + n < 0x1_0000
    ensures InOrder(Advance(s, n))
  {
    forall reg: nat | reg < |s.locals|
      ensures LiveLater(Advance(s, n), reg)
    {
      assert LiveLater(s, reg);
    }
  }

  lemma PositionKeepsOrder(s: State, cb: Callbacks)
    requires InOrder(s)
    ensures InOrder(EmitPosition(s, cb).0)
  {
    hide Ordered;
    OrderedPosition(s.events, s.total, s.address, s.line);
    forall reg: nat | reg < |s.locals|
      ensures LiveLater(EmitPosition(s, cb).0, reg)
    {
      assert LiveLater(s, reg);
    }
  }

  // After a local is reported its register is closed or gets a new local, so all is in order again.
  lemma EmitKeepsOrder(s: State, reg: nat, cb: Callbacks)
    requires InOrder(s) && reg < |s.locals|
    ensures var t := EmitLocalIfLive(s, reg, s.address, cb);
            && Ordered(t.events, t.total)
            && forall other: nat | other < |s.locals| && other != reg :: LiveLater(t, other)
  {
    hide Ordered;
    var l := s.locals[reg];
    assert LiveLater(s, reg);
    if cb.hasLocalCb && l.live {
      OrderedLocal(s.events, s.total, Local(reg, l.startAddress, s.address, l.name, l.descriptor, l.signature));
    }
    var t := EmitLocalIfLive(s, reg, s.address, cb);
    forall other: nat | other < |s.locals| && other != reg
      ensures LiveLater(t, other)
    {
      assert LiveLater(s, other);
    }
  }

  lemma OpenInOrder(t: State, reg: nat, name: Option<Text>, descriptor: Option<Text>, signature: Option<Text>)
    requires reg < |t.locals| && t.address == t.total < 0x1_0000 && Ordered(t.events, t.total)
    requires forall other: nat | other < |t.locals| && other != reg :: LiveLater(t, other)
    ensures InOrder(OpenLocal(t, reg, name, descriptor, signature))
  {
    var u := OpenLocal(t, reg, name, descriptor, signature);
    forall other: nat | other < |u.locals|
      ensures LiveLater(u, other)
    {
      if other != reg {
        assert LiveLater(t, other);
      }
    }
  }

  lemma CloseInOrder(t: State, reg: nat)
    requires reg < |t.locals| && t.address == t.total < 0x1_0000 && Ordered(t.events, t.total)
    requires forall other: nat | other < |t.locals| && other != reg :: LiveLater(t, other)
    ensures InOrder(CloseLocal(t, reg))
  {
    var u := CloseLocal(t, reg);
    forall other: nat | other < |u.locals|
      ensures LiveLater(u, other)
    {
      if other != reg {
        assert LiveLater(t, other);
      }
    }
  }

  lemma LocalKeepsOrder(cb: Callbacks, mem: Memory, opcode: u1, at: nat, s: State, reg: nat)
    requires InOrder(s) && reg < |s.locals|
    ensures InOrder(ExecuteLocal(cb, mem, opcode, at, s, reg).state)
  {
    hide StringAt, TypeAt, InOrder, Ordered, OpenLocal, CloseLocal, LiveLater;
    InOrderMeans(s);
    EmitKeepsOrder(s, reg, cb);
    var t := EmitLocalIfLive(s, reg, s.address, cb);
    if opcode == START_LOCAL || opcode == START_LOCAL_EXTENDED {
      var name := StringAt(mem, at);
      var descriptor := TypeAt(mem, name.next);
      OpenInOrder(t, reg, name.value, descriptor.value,
                  if opcode == START_LOCAL_EXTENDED then StringAt(mem, descriptor.next).value else None);
    } else if opcode == END_LOCAL {
      CloseInOrder(t, reg);
    } else {
      var l := s.locals[reg];
      OpenInOrder(s, reg, l.name, l.descriptor, l.signature);
    }
  }

  lemma InOrderMeans(s: State)
    requires InOrder(s)
    ensures s.address == s.total < 0x1_0000 && Ordered(s.events, s.total)
    ensures forall reg: nat | reg < |s.locals| :: LiveLater(s, reg)
  {
  }

  // Every opcode keeps the order, as long as addresses stay below 2^16.
  lemma ExecuteKeepsOrder(c: Code, cb: Callbacks, mem: Memory, pos: nat, s: State)
    requires |s.locals| == c.registersSize && InOrder(s)
    requires Execute(c, cb, mem, pos, s).state.total < 0x1_0000
    ensures InOrder(Execute(c, cb, mem, pos, s).state)
  {
    hide InOrder, ExecuteLocal;
    var opcode, at := mem(pos), pos + 1;
    if opcode == ADVANCE_PC {
      AdvanceKeepsOrder(s, L.UnsignedAt(mem, at).value);
    } else if opcode == ADVANCE_LINE {
      LineKeepsOrder(s, L.SignedAt(mem, at).value);
    } else if START_LOCAL <= opcode <= RESTART_LOCAL {
      var n := L.UnsignedAt(mem, at);
      if n.value % 0x1_0000 < c.registersSize {
        LocalKeepsOrder(cb, mem, opcode, n.next, s, n.value % 0x1_0000);
      }
    } else if opcode >= FIRST_SPECIAL {
      var adjopcode := opcode - FIRST_SPECIAL;
      AdvanceKeepsOrder(s, adjopcode / LINE_RANGE);
      var t := Advance(s, adjopcode / LINE_RANGE);
      LineKeepsOrder(t, LINE_BASE + adjopcode % LINE_RANGE);
      PositionKeepsOrder(AdvanceLine(t, LINE_BASE + adjopcode % LINE_RANGE), cb);
    }
  }

  lemma LineKeepsOrder(s: State, n: int)
    requires InOrder(s)
    ensures InOrder(AdvanceLine(s, n))
  {
    forall reg: nat | reg < |s.locals|
      ensures LiveLater(AdvanceLine(s, n), reg)
    {
      assert LiveLater(s, reg);
    }
  }

  lemma {:induction false} RunKeepsOrder(c: Code, cb: Callbacks, stream: seq<u1>, pos: nat, s: State)
    requires |s.locals| == c.registersSize && InOrder(s)
    requires Run(c, cb, stream, pos, s).state.total < 0x1_0000
    ensures InOrder(Run(c, cb, stream, pos, s).state)
    decreases |stream| - pos
  {
    hide Execute, InOrder, Bytes;
    var r := Execute(c, cb, Bytes(stream), pos, s);
    RunGrows(c, cb, stream, pos, s);
    ExecuteKeepsOrder(c, cb, Bytes(stream), pos, s);
    if r.reason == Running {
      StreamEnds(c, cb, stream, pos, s);
      RunKeepsOrder(c, cb, stream, r.next, r.state);
    }
  }

  lemma RunGrows(c: Code, cb: Callbacks, stream: seq<u1>, pos: nat, s: State)
    requires |s.locals| == c.registersSize
    ensures Execute(c, cb, Bytes(stream), pos, s).state.total <= Run(c, cb, stream, pos, s).state.total
  {
    hide Execute;
  }

  lemma StreamEnds(c: Code, cb: Callbacks, stream: seq<u1>, pos: nat, s: State)
    requires |s.locals| == c.registersSize && Execute(c, cb, Bytes(stream), pos, s).reason == Running
    ensures pos < |stream|
  {
  }

  lemma {:induction false} ParametersKeepOrder(c: Code, mem: Memory, pos: nat, s: State, n: nat, k: nat, argReg: u2)
    requires |s.locals| == c.registersSize && InOrder(s)
    ensures InOrder(Parameters(c, mem, pos, s, n, k, argReg).state)
    decreases n
  {
    hide InOrder, StringAt;
    InOrderMeans(s);
    if n > 0 && argReg < c.registersSize && k < |c.wide| {
      var name := StringAt(mem, pos);
      if name.value != None {
        OpenInOrder(s, argReg, name.value, Some(ParameterDescriptor(k)), None);
      }
      ParametersKeepOrder(c, mem, name.next,
                          if name.value == None then s
                          else OpenLocal(s, argReg, name.value, Some(ParameterDescriptor(k)), None),
                          n - 1, k + 1, (argReg + if c.wide[k] then 2 else 1) % 0x1_0000);
    }
  }

  lemma {:induction false} FinishInOrder(s: State, reg: nat, end: u4, cb: Callbacks, bound: int)
    requires reg <= |s.locals| && Ordered(s.events, bound) && bound <= end && s.total <= end
    requires forall other: nat | reg <= other < |s.locals| :: LiveLater(s, other)
    ensures Ordered(Finish(s, reg, end, cb).events, end)
    decreases |s.locals| - reg
  {
    hide Ordered;
    if reg == |s.locals| {
      OrderedWidens(s.events, bound, end);
    } else {
      var t := EmitLocalIfLive(s, reg, end, cb);
      var l := s.locals[reg];
      assert LiveLater(s, reg);
      if cb.hasLocalCb && l.live {
        OrderedLocal(s.events, bound, Local(reg, l.startAddress, end, l.name, l.descriptor, l.signature));
      } else {
        OrderedWidens(s.events, bound, end);
      }
      forall other: nat | reg < other < |s.locals|
        ensures LiveLater(t, other)
      {
        assert LiveLater(s, other);
      }
      FinishInOrder(t, reg + 1, end, cb, end);
    }
  }

  lemma OrderedWidens(events: seq<Event>, bound: int, wider: int)
    requires Ordered(events, bound) && bound <= wider
    ensures Ordered(events, wider)
  {
  }

  // The calls of dexDecodeDebugInfo, when addresses do not go beyond the code.
  lemma DebugInfoIsOrdered(c: Code, cb: Callbacks, stream: seq<u1>)
    requires c.insSize <= c.registersSize && (c.isStatic || c.insSize > 0)
    requires Decode(c, cb, stream).state.total <= c.insnsSize && Decode(c, cb, stream).state.total < 0x1_0000
    ensures Ordered(Finish(Decode(c, cb, stream).state, 0, c.insnsSize, cb).events, c.insnsSize)
  {
    hide InOrder, Run, Parameters, Ordered, Initial;
    var mem := Bytes(stream);
    var line := L.UnsignedAt(mem, 0);
    var parametersSize := L.UnsignedAt(mem, line.next);
    var argReg := c.registersSize - c.insSize;
    InitialInOrder(c, line.value);
    var s := Initial(c, line.value);
    if !c.isStatic {
      InOrderMeans(s);
      OpenInOrder(s, argReg, Some(This), Some(ClassDescriptor), None);
    }
    var first := if c.isStatic then s else OpenLocal(s, argReg, Some(This), Some(ClassDescriptor), None);
    var next := if c.isStatic then argReg else argReg + 1;
    ParametersKeepOrder(c, mem, parametersSize.next, first, parametersSize.value, 0, next);
    var params := Parameters(c, mem, parametersSize.next, first, parametersSize.value, 0, next);
    if params.reason != Invalid {
      RunKeepsOrder(c, cb, stream, params.next, params.state);
    }
    var d := Decode(c, cb, stream).state;
    InOrderMeans(d);
    FinishInOrder(d, 0, c.insnsSize, cb, d.total);
  }

  lemma InitialInOrder(c: Code, line: u4)
    ensures InOrder(Initial(c, line))
  {
  }

  // ----- Every local that is opened is reported once -----

  function Reported(events: seq<Event>): multiset<Open> {
    if events == [] then multiset{}
    else
      Reported(events[..|events| - 1]) +
      match events[|events| - 1]
      case Local(reg, start, _, name, descriptor, signature) => multiset{Open(reg, start, name, descriptor, signature)}
      case Position(_, _) => multiset{}
  }

  lemma ReportedSnoc(events: seq<Event>, e: Event)
    ensures Reported(events + [e]) == Reported(events)
            + if e.Local? then multiset{Open(e.reg, e.start, e.name, e.descriptor, e.signature)} else multiset{}
  {
    assert (events + [e])[..|events + [e]| - 1] == events;
  }

  // the local that is live in a register, if any
  function LiveIn(locals: seq<LocalInfo>, reg: nat): multiset<Open>
    requires reg < |locals|
  {
    var l := locals[reg];
    if l.live then multiset{Open(reg, l.startAddress, l.name, l.descriptor, l.signature)} else multiset{}
  }

  function LiveFrom(locals: seq<LocalInfo>, from: nat): multiset<Open>
    requires from <= |locals|
    decreases |locals| - from
  {
    if from == |locals| then multiset{} else LiveIn(locals, from) + LiveFrom(locals, from + 1)
  }

  lemma {:induction false} LiveUpdate(locals: seq<LocalInfo>, reg: nat, l: LocalInfo, from: nat)
    requires reg < |locals| && from <= |locals|
    ensures from <= reg ==>
              LiveFrom(locals[reg := l], from) + LiveIn(locals, reg)
              == LiveFrom(locals, from) + LiveIn(locals[reg := l], reg)
    ensures from > reg ==> LiveFrom(locals[reg := l], from) == LiveFrom(locals, from)
    decreases |locals| - from
  {
    hide LiveIn;
    if from < |locals| {
      LiveUpdate(locals, reg, l, from + 1);
      if from != reg {
        OthersStay(locals, reg, l, from);
      }
      if from < reg {
        AddSame(LiveIn(locals, from), LiveFrom(locals[reg := l], from + 1), LiveIn(locals, reg),
                LiveFrom(locals, from + 1), LiveIn(locals[reg := l], reg));
      } else if from == reg {
        AddSame(LiveFrom(locals, from + 1), LiveIn(locals[reg := l], reg), LiveIn(locals, reg),
                LiveIn(locals, reg), LiveIn(locals[reg := l], reg));
      }
    }
  }

  lemma AddSame(x: multiset<Open>, a: multiset<Open>, b: multiset<Open>, c: multiset<Open>, d: multiset<Open>)
    requires a + b == c + d
    ensures x + a + b == x + c + d && a + x + b == c + x + d
  {
    forall o
      ensures (x + a + b)[o] == (x + c + d)[o]
    {
      assert (a + b)[o] == (c + d)[o];
    }
    assert x + a + b == a + x + b && x + c + d == c + x + d;
  }

  lemma OthersStay(locals: seq<LocalInfo>, reg: nat, l: LocalInfo, other: nat)
    requires reg < |locals| && other < |locals| && other != reg
    ensures LiveIn(locals[reg := l], other) == LiveIn(locals, other)
  {
  }

  // One register changes from old to new while what was there is reported, or nothing was.
  lemma Rebalance(started: multiset<Open>, reported: multiset<Open>, live: multiset<Open>, live': multiset<Open>,
                  before: multiset<Open>, after: multiset<Open>)
    requires started == reported + live && live' + before == live + after
    ensures started + after == reported + before + live'
  {
    forall x
      ensures (started + after)[x] == (reported + before + live')[x]
    {
      assert (live' + before)[x] == (live + after)[x];
    }
  }

  lemma OneMoreStarted(started: seq<Open>, o: Open)
    ensures multiset(started + [o]) == multiset(started) + multiset{o}
  {
  }

  // What has been opened has been reported or is live.
  ghost predicate Conserved(s: State) {
    multiset(s.started) == Reported(s.events) + LiveFrom(s.locals, 0)
  }

  lemma EmitReports(s: State, reg: nat, end: u4, cb: Callbacks)
    requires reg < |s.locals| && cb.hasLocalCb
    ensures Reported(EmitLocalIfLive(s, reg, end, cb).events) == Reported(s.events) + LiveIn(s.locals, reg)
  {
    var l := s.locals[reg];
    if l.live {
      ReportedSnoc(s.events, Local(reg, l.startAddress, end, l.name, l.descriptor, l.signature));
    }
  }

  lemma StartConserves(s: State, reg: nat, end: u4, cb: Callbacks, name: Option<Text>, descriptor: Option<Text>,
                       signature: Option<Text>)
    requires Conserved(s) && reg < |s.locals| && cb.hasLocalCb
    ensures Conserved(OpenLocal(EmitLocalIfLive(s, reg, end, cb), reg, name, descriptor, signature))
  {
    hide Reported, LiveFrom;
    var start := s.address % 0x1_0000;
    var l := LocalInfo(name, descriptor, signature, start, true);
    EmitReports(s, reg, end, cb);
    LiveUpdate(s.locals, reg, l, 0);
    OneMoreStarted(s.started, Open(reg, start, name, descriptor, signature));
    Rebalance(multiset(s.started), Reported(s.events), LiveFrom(s.locals, 0), LiveFrom(s.locals[reg := l], 0),
              LiveIn(s.locals, reg), LiveIn(s.locals[reg := l], reg));
  }

  lemma EndConserves(s: State, reg: nat, end: u4, cb: Callbacks)
    requires Conserved(s) && reg < |s.locals| && cb.hasLocalCb
    ensures Conserved(CloseLocal(EmitLocalIfLive(s, reg, end, cb), reg))
  {
    hide Reported, LiveFrom;
    var l := s.locals[reg].(live := false);
    EmitReports(s, reg, end, cb);
    LiveUpdate(s.locals, reg, l, 0);
    Rebalance(multiset(s.started), Reported(s.events), LiveFrom(s.locals, 0), LiveFrom(s.locals[reg := l], 0),
              LiveIn(s.locals, reg), LiveIn(s.locals[reg := l], reg));
  }

  lemma OpenConserves(s: State, reg: nat, name: Option<Text>, descriptor: Option<Text>, signature: Option<Text>)
    requires Conserved(s) && reg < |s.locals| && !s.locals[reg].live
    ensures Conserved(OpenLocal(s, reg, name, descriptor, signature))
  {
    hide Reported, LiveFrom;
    var start := s.address % 0x1_0000;
    var l := LocalInfo(name, descriptor, signature, start, true);
    LiveUpdate(s.locals, reg, l, 0);
    OneMoreStarted(s.started, Open(reg, start, name, descriptor, signature));
    Rebalance(multiset(s.started), Reported(s.events), LiveFrom(s.locals, 0), LiveFrom(s.locals[reg := l], 0),
              LiveIn(s.locals, reg), LiveIn(s.locals[reg := l], reg));
  }

  lemma ExecuteConserves(c: Code, cb: Callbacks, mem: Memory, pos: nat, s: State)
    requires |s.locals| == c.registersSize && Conserved(s) && cb.hasLocalCb
    ensures Conserved(Execute(c, cb, mem, pos, s).state)
  {
    hide Reported, LiveFrom, StringAt, TypeAt, EmitLocalIfLive, OpenLocal, CloseLocal;
    var opcode, at := mem(pos), pos + 1;
    if START_LOCAL <= opcode <= RESTART_LOCAL {
      var n := L.UnsignedAt(mem, at);
      var reg := n.value % 0x1_0000;
      if reg < c.registersSize {
        var name := StringAt(mem, n.next);
        var descriptor := TypeAt(mem, name.next);
        var signature := if opcode == START_LOCAL_EXTENDED then StringAt(mem, descriptor.next).value else None;
        StartConserves(s, reg, s.address, cb, name.value, descriptor.value, signature);
        EndConserves(s, reg, s.address, cb);
        var l := s.locals[reg];
        if !l.live {
          OpenConserves(s, reg, l.name, l.descriptor, l.signature);
        }
      }
    } else if opcode >= FIRST_SPECIAL {
      var adjopcode := opcode - FIRST_SPECIAL;
      var t := AdvanceLine(Advance(s, adjopcode / LINE_RANGE), LINE_BASE + adjopcode % LINE_RANGE);
      ReportedSnoc(t.events, Position(t.address, t.line));
    }
  }

  lemma {:induction false} RunConserves(c: Code, cb: Callbacks, stream: seq<u1>, pos: nat, s: State)
    requires |s.locals| == c.registersSize && Conserved(s) && cb.hasLocalCb
    ensures Conserved(Run(c, cb, stream, pos, s).state)
    decreases |stream| - pos
  {
    hide Execute, Conserved, Bytes;
    var r := Execute(c, cb, Bytes(stream), pos, s);
    ExecuteConserves(c, cb, Bytes(stream), pos, s);
    if r.reason == Running {
      StreamEnds(c, cb, stream, pos, s);
      RunConserves(c, cb, stream, r.next, r.state);
    }
  }

  // the registers that the parameters from k on take
  function Words(wide: seq<bool>, k: nat): nat
    requires k <= |wide|
    decreases |wide| - k
  {
    if k == |wide| then 0 else (if wide[k] then 2 else 1) + Words(wide, k + 1)
  }

  // The method declares enough registers for its arguments.
  predicate EnoughRegisters(c: Code) {
    c.insSize <= c.registersSize && (if c.isStatic then 0 else 1) + Words(c.wide, 0) <= c.insSize
  }

  lemma {:induction false} ParametersConserve(c: Code, mem: Memory, pos: nat, s: State, n: nat, k: nat, argReg: u2)
    requires |s.locals| == c.registersSize && Conserved(s)
    requires k <= |c.wide| && argReg + Words(c.wide, k) <= c.registersSize
    requires forall reg | argReg <= reg < |s.locals| :: !s.locals[reg].live
    ensures Conserved(Parameters(c, mem, pos, s, n, k, argReg).state)
    decreases n
  {
    hide Conserved, StringAt;
    if n > 0 && argReg < c.registersSize && k < |c.wide| {
      var name := StringAt(mem, pos);
      if name.value != None {
        OpenConserves(s, argReg, name.value, Some(ParameterDescriptor(k)), None);
      }
      ParametersConserve(c, mem, name.next,
                         if name.value == None then s
                         else OpenLocal(s, argReg, name.value, Some(ParameterDescriptor(k)), None),
                         n - 1, k + 1, argReg + if c.wide[k] then 2 else 1);
    }
  }

  lemma {:induction false} FinishReports(s: State, reg: nat, end: u4, cb: Callbacks)
    requires reg <= |s.locals| && cb.hasLocalCb
    ensures Reported(Finish(s, reg, end, cb).events) == Reported(s.events) + LiveFrom(s.locals, reg)
    ensures Finish(s, reg, end, cb).started == s.started
    decreases |s.locals| - reg
  {
    hide Reported;
    if reg < |s.locals| {
      EmitReports(s, reg, end, cb);
      FinishReports(EmitLocalIfLive(s, reg, end, cb), reg + 1, end, cb);
    }
  }

  lemma {:induction false} NothingLive(locals: seq<LocalInfo>, from: nat)
    requires from <= |locals| && forall reg | 0 <= reg < |locals| :: !locals[reg].live
    ensures LiveFrom(locals, from) == multiset{}
    decreases |locals| - from
  {
    if from < |locals| {
      NothingLive(locals, from + 1);
    }
  }

  // dexDecodeDebugInfo reports each local that was opened, and no other, exactly once.
  lemma EveryLocalIsReported(c: Code, cb: Callbacks, stream: seq<u1>)
    requires EnoughRegisters(c) && cb.hasLocalCb
    ensures var d := Decode(c, cb, stream).state;
            Reported(Finish(d, 0, c.insnsSize, cb).events) == multiset(d.started)
  {
    hide Run, Parameters, Conserved, Reported, Words;
    var mem := Bytes(stream);
    var line := L.UnsignedAt(mem, 0);
    var parametersSize := L.UnsignedAt(mem, line.next);
    var argReg := c.registersSize - c.insSize;
    var s := Initial(c, line.value);
    InitialConserved(c, line.value);
    if !c.isStatic {
      OpenConserves(s, argReg, Some(This), Some(ClassDescriptor), None);
    }
    var first := if c.isStatic then s else OpenLocal(s, argReg, Some(This), Some(ClassDescriptor), None);
    var next := if c.isStatic then argReg else argReg + 1;
    ParametersConserve(c, mem, parametersSize.next, first, parametersSize.value, 0, next);
    var params := Parameters(c, mem, parametersSize.next, first, parametersSize.value, 0, next);
    if params.reason != Invalid {
      RunConserves(c, cb, stream, params.next, params.state);
    }
    var d := Decode(c, cb, stream).state;
    ConservedMeans(d);
    FinishReports(d, 0, c.insnsSize, cb);
  }

  lemma InitialConserved(c: Code, line: u4)
    ensures Conserved(Initial(c, line))
  {
    NothingLive(Initial(c, line).locals, 0);
  }

  lemma ConservedMeans(s: State)
    requires Conserved(s)
    ensures multiset(s.started) == Reported(s.events) + LiveFrom(s.locals, 0)
  {
  }

  // A register number equal to the number of registers is not rejected.
  lemma OneRegisterTooMany(c: Code, cb: Callbacks)
    requires c.insSize == 0 && c.isStatic && c.registersSize < 0x80
    ensures Decode(c, cb, [0, 0, END_LOCAL, c.registersSize, END_SEQUENCE]).reason == OutOfBounds
  {
    var stream: seq<u1> := [0, 0, END_LOCAL, c.registersSize, END_SEQUENCE];
    var mem := Bytes(stream);
    assert L.UnsignedAt(mem, 0) == L.Read(0, 1) && L.UnsignedAt(mem, 1) == L.Read(0, 2);
    assert L.UnsignedAt(mem, 3) == L.Read(c.registersSize, 4);
  }

  // ----- The code -----

  // dexDecodeDebugInfo0. The calls of the callbacks are collected in events; the code keeps no started and no total.
  method DecodeDebugInfo0(c: Code, cb: Callbacks, stream: seq<u1>, localInReg: array<LocalInfo>)
    returns (events: seq<Event>, reason: Reason, ghost s: State)
    requires EnoughRegisters(c) && localInReg.Length == c.registersSize
    requires forall i | 0 <= i < localInReg.Length :: localInReg[i] == NO_LOCAL
    modifies localInReg
    ensures s == Decode(c, cb, stream).state && reason == Decode(c, cb, stream).reason
    ensures events == s.events && localInReg[..] == s.locals
  {
    hide StringAt, TypeAt, L.UnsignedAt, L.SignedAt, Words, Parameters, Run;
    var mem := Bytes(stream);
    var line, at := L.ReadUnsigned(mem, 0);
    var parametersSize;
    parametersSize, at := L.ReadUnsigned(mem, at);
    var argReg: u2 := c.registersSize - c.insSize;
    events, s := [], Initial(c, line);
    assert localInReg[..] == s.locals;
    if !c.isStatic {
      localInReg[argReg] := LocalInfo(Some(This), Some(ClassDescriptor), localInReg[argReg].signature, 0, true);
      s := OpenLocal(s, argReg, Some(This), Some(ClassDescriptor), None);
      argReg := argReg + 1;
    }
    var okay;
    okay, at, s := DecodeParameters(c, mem, at, parametersSize, argReg, localInReg, s);
    if !okay {
      return events, Invalid, s;
    }
    events, reason, s := DecodeOpcodes(c, cb, stream, at, line, localInReg, s);
  }

  // the loop over the opcodes
  method DecodeOpcodes(c: Code, cb: Callbacks, stream: seq<u1>, start: nat, firstLine: u4,
                       localInReg: array<LocalInfo>, ghost s0: State)
    returns (events: seq<Event>, reason: Reason, ghost s: State)
    requires localInReg.Length == c.registersSize && localInReg[..] == s0.locals
    requires s0.address == 0 && s0.line == firstLine && s0.events == []
    modifies localInReg
    ensures s == Run(c, cb, stream, start, s0).state && reason == Run(c, cb, stream, start, s0).reason
    ensures events == s.events && localInReg[..] == s.locals
  {
    hide StringAt, TypeAt, L.UnsignedAt, L.SignedAt, Run, OpenLocal, CloseLocal, EmitLocalIfLive;
    var mem := Bytes(stream);
    var at, address, line := start, 0, firstLine;
    events, s := [], s0;
    ghost var result := Run(c, cb, stream, start, s0);
    while true
      invariant |s.locals| == c.registersSize && Run(c, cb, stream, at, s) == result
      invariant localInReg[..] == s.locals && events == s.events && address == s.address && line == s.line
      decreases |stream| - at
    {
      RunUnfolds(c, cb, stream, at, s);
      ghost var r := Execute(c, cb, mem, at, s);
      var opcode := mem(at);
      at := at + 1;
      if opcode == END_SEQUENCE {
        return events, Ended, s;
      } else if opcode == ADVANCE_PC {
        var n;
        n, at := L.ReadUnsigned(mem, at);
        address := (address + n) % TWO32;
      } else if opcode == ADVANCE_LINE {
        var n;
        n, at := L.ReadSigned(mem, at);
        line := (line + n) % TWO32;
      } else if START_LOCAL <= opcode <= RESTART_LOCAL {
        var n;
        n, at := L.ReadUnsigned(mem, at);
        var reg: nat := n % 0x1_0000;
        if reg > c.registersSize {
          return events, Invalid, s;
        }
        if reg == c.registersSize {
          // the code goes on with an entry behind the array
          return events, OutOfBounds, s;
        }
        var invalid;
        events, at, invalid := DecodeLocal(cb, mem, opcode, at, address, localInReg, reg, events, s);
        if invalid {
          return events, Invalid, r.state;
        }
      } else if opcode >= FIRST_SPECIAL {
        var adjopcode: nat := opcode - FIRST_SPECIAL;
        address := (address + adjopcode / LINE_RANGE) % TWO32;
        line := (line + (LINE_BASE + adjopcode % LINE_RANGE)) % TWO32;
        if cb.posCb != None {
          events := events + [Position(address, line)];
          var done := cb.posCb.value(events);
          if done {
            return events, Exited, r.state;
          }
        }
      }
      s := r.state;
    }
  }

  lemma RunUnfolds(c: Code, cb: Callbacks, stream: seq<u1>, pos: nat, s: State)
    requires |s.locals| == c.registersSize
    ensures var r := Execute(c, cb, Bytes(stream), pos, s);
            if r.reason == Running then
              pos < |stream| && Run(c, cb, stream, pos, s) == Run(c, cb, stream, r.next, r.state)
            else Run(c, cb, stream, pos, s) == r
  {
    hide ExecuteLocal, L.UnsignedAt, L.SignedAt;
  }

  // emitLocalCbIfLive
  method EmitIfLive(cb: Callbacks, reg: nat, endAddress: u4, localInReg: array<LocalInfo>, events0: seq<Event>,
                    ghost s: State)
    returns (events: seq<Event>)
    requires reg < localInReg.Length && localInReg[..] == s.locals && events0 == s.events
    ensures events == EmitLocalIfLive(s, reg, endAddress, cb).events
  {
    events := events0;
    if cb.hasLocalCb && localInReg[reg].live {
      var l := localInReg[reg];
      events := events + [Local(reg, l.startAddress, endAddress, l.name, l.descriptor, l.signature)];
    }
  }

  // the opcodes that name a register
  method DecodeLocal(cb: Callbacks, mem: Memory, opcode: u1, start: nat, address: u4,
                     localInReg: array<LocalInfo>, reg: nat, events0: seq<Event>, ghost s: State)
    returns (events: seq<Event>, at: nat, invalid: bool)
    requires START_LOCAL <= opcode <= RESTART_LOCAL && reg < localInReg.Length
    requires localInReg[..] == s.locals && events0 == s.events && address == s.address
    modifies localInReg
    ensures var r := ExecuteLocal(cb, mem, opcode, start, s, reg);
            && events == r.state.events && localInReg[..] == r.state.locals && at == r.next
            && r.reason == (if invalid then Invalid else Running)
  {
    hide StringAt, TypeAt;
    events, at, invalid := events0, start, false;
    if opcode == START_LOCAL || opcode == START_LOCAL_EXTENDED {
      events := EmitIfLive(cb, reg, address, localInReg, events, s);
      var name, descriptor;
      var signature := None;
      name, at := ReadStringIdx(mem, at);
      descriptor, at := ReadTypeIdx(mem, at);
      if opcode == START_LOCAL_EXTENDED {
        signature, at := ReadStringIdx(mem, at);
      }
      localInReg[reg] := LocalInfo(name, descriptor, signature, address % 0x1_0000, true);
    } else if opcode == END_LOCAL {
      events := EmitIfLive(cb, reg, address, localInReg, events, s);
      localInReg[reg] := localInReg[reg].(live := false);
    } else {
      if localInReg[reg].name == None || localInReg[reg].descriptor == None {
        return events, at, true;
      }
      if !localInReg[reg].live {
        localInReg[reg] := localInReg[reg].(startAddress := address % 0x1_0000, live := true);
      }
    }
  }

  // dexDecodeDebugInfo, for a method that has a debug info stream
  method DecodeDebugInfo(c: Code, cb: Callbacks, stream: seq<u1>) returns (events: seq<Event>, reason: Reason)
    requires EnoughRegisters(c)
    ensures reason == Decode(c, cb, stream).reason
    ensures reason != OutOfBounds ==> events == Finish(Decode(c, cb, stream).state, 0, c.insnsSize, cb).events
  {
    hide Decode, Finish, EmitLocalIfLive;
    var localInReg := new LocalInfo[c.registersSize](_ => NO_LOCAL);
    ghost var s;
    events, reason, s := DecodeDebugInfo0(c, cb, stream, localInReg);
    if reason == OutOfBounds {
      return;
    }
    ghost var result := Finish(s, 0, c.insnsSize, cb);
    var reg := 0;
    while reg < c.registersSize
      invariant reg <= c.registersSize && localInReg[..] == s.locals && events == s.events
      invariant Finish(s, reg, c.insnsSize, cb) == result
    {
      FinishUnfolds(s, reg, c.insnsSize, cb);
      events := EmitIfLive(cb, reg, c.insnsSize, localInReg, events, s);
      s := EmitLocalIfLive(s, reg, c.insnsSize, cb);
      reg := reg + 1;
    }
    FinishUnfolds(s, reg, c.insnsSize, cb);
  }

  lemma FinishUnfolds(s: State, reg: nat, end: u4, cb: Callbacks)
    requires reg <= |s.locals|
    ensures if reg == |s.locals| then Finish(s, reg, end, cb) == s
            else && EmitLocalIfLive(s, reg, end, cb).locals == s.locals
                 && Finish(s, reg, end, cb) == Finish(EmitLocalIfLive(s, reg, end, cb), reg + 1, end, cb)
  {
  }

  // the loop over the parameters
  method DecodeParameters(c: Code, mem: Memory, start: nat, size: u4, firstReg: u2, localInReg: array<LocalInfo>,
                          ghost s0: State)
    returns (okay: bool, at: nat, ghost s: State)
    requires localInReg.Length == c.registersSize && localInReg[..] == s0.locals && s0.address == 0
    modifies localInReg
    ensures Parameters(c, mem, start, s0, size, 0, firstReg) == Result(s, at, if okay then Running else Invalid)
    ensures localInReg[..] == s.locals
  {
    hide StringAt;
    at, s := start, s0;
    var parametersSize, argReg: u2, k := size, firstReg, 0;
    while parametersSize != 0
      invariant k <= |c.wide| && localInReg[..] == s.locals && s.address == 0
      invariant Parameters(c, mem, at, s, parametersSize, k, argReg) == Parameters(c, mem, start, s0, size, 0, firstReg)
      decreases parametersSize
    {
      parametersSize := parametersSize - 1;
      if argReg >= c.registersSize || k == |c.wide| {
        return false, at, s;
      }
      var name, next := ReadStringIdx(mem, at);
      at := next;
      var reg: nat := argReg;
      argReg := (argReg + if c.wide[k] then 2 else 1) % 0x1_0000;
      if name != None {
        localInReg[reg] := LocalInfo(name, Some(ParameterDescriptor(k)), None, 0, true);
        s := OpenLocal(s, reg, name, Some(ParameterDescriptor(k)), None);
      }
      k := k + 1;
    }
    okay := true;
  }

  // readStringIdx
  method ReadStringIdx(mem: Memory, pos: nat) returns (name: Option<Text>, next: nat)
    ensures L.Read(name, next) == StringAt(mem, pos)
  {
    var stringIdx;
    stringIdx, next := L.ReadUnsigned(mem, pos);
    name := if stringIdx == 0 then None else Some(StringIdx(stringIdx - 1));
  }

  // readTypeIdx
  method ReadTypeIdx(mem: Memory, pos: nat) returns (descriptor: Option<Text>, next: nat)
    ensures L.Read(descriptor, next) == TypeAt(mem, pos)
  {
    var typeIdx;
    typeIdx, next := L.ReadUnsigned(mem, pos);
    descriptor := if typeIdx == 0 then None else Some(TypeIdx(typeIdx - 1));
  }
}
