// The report on the tracked allocations in vm/AllocTracker.cpp: its bytes, its string tables, and the code that writes
// them.

module AllocReport {
  import opened Common
  import opened PointerSets
  import opened Probing
  import Mutf8

  const MESSAGE_HEADER_LEN := 15
  const ENTRY_HEADER_LEN := 9
  const STACK_FRAME_LEN := 8

  // Names are addresses of strings; line numbers are what dvmLineNumFromPC answers.
  datatype Frame = Frame(clazz: nat, name: nat, file: Option<nat>, lineNum: int)

  // stackElem has no method behind the last frame
  datatype AllocRecord = AllocRecord(clazz: nat, size: u4, threadId: u2, stackElem: seq<Option<Frame>>)

  // ----- The bytes of a report -----

  function BE2(x: int): (b: seq<u1>)
    ensures |b| == 2
  {
    [x / 0x100 % 0x100, x % 0x100]
  }

  function BE4(x: int): (b: seq<u1>)
    ensures |b| == 4
  {
    [x / 0x100_0000 % 0x100, x / 0x1_0000 % 0x100, x / 0x100 % 0x100, x % 0x100]
  }

  // The three string tables. Text is what a name reads as.
  datatype Tables = Tables(classNames: seq<nat>, methodNames: seq<nat>, fileNames: seq<nat>)

  // where getMethodSourceFile points if there is no file name
  const EMPTY_NAME := 1

  function SourceFile(f: Frame): nat {
    if f.file == None then EMPTY_NAME else f.file.value
  }

  function IndexIn(table: seq<nat>, name: nat): int {
    match FirstIndex(table, name, 0) case Some(k) => k case None => -1
  }

  // the frames before the first that is missing
  function Depth(stack: seq<Option<Frame>>): (depth: nat)
    ensures depth <= |stack| && (depth < |stack| ==> stack[depth] == None)
    ensures forall i | 0 <= i < depth :: stack[i] != None
  {
    if stack != [] && stack[0] != None then 1 + Depth(stack[1..]) else 0
  }

  function FrameBytes(f: Frame, t: Tables): (b: seq<u1>)
    ensures |b| == STACK_FRAME_LEN
  {
    BE2(IndexIn(t.classNames, f.clazz)) + BE2(IndexIn(t.methodNames, f.name)) + BE2(IndexIn(t.fileNames, SourceFile(f)))
    + BE2(if f.lineNum > 32767 then 32767 else f.lineNum)
  }

  function FramesBytes(stack: seq<Option<Frame>>, n: nat, t: Tables): (b: seq<u1>)
    requires n <= Depth(stack)
    ensures |b| == STACK_FRAME_LEN * n
  {
    if n == 0 then [] else FramesBytes(stack, n - 1, t) + FrameBytes(stack[n - 1].value, t)
  }

  function RecordBytes(r: AllocRecord, t: Tables): (b: seq<u1>)
    ensures |b| == RecordSize(r)
  {
    BE4(r.size) + BE2(r.threadId) + BE2(IndexIn(t.classNames, r.clazz)) + [Depth(r.stackElem) % 0x100]
    + FramesBytes(r.stackElem, Depth(r.stackElem), t)
  }

  function RecordSize(r: AllocRecord): nat {
    ENTRY_HEADER_LEN + STACK_FRAME_LEN * Depth(r.stackElem)
  }

  function RecordsBytes(rs: seq<AllocRecord>, t: Tables): (b: seq<u1>)
    ensures |b| == RecordsSize(rs)
  {
    if rs == [] then [] else RecordsBytes(rs[..|rs| - 1], t) + RecordBytes(rs[|rs| - 1], t)
  }

  function RecordsSize(rs: seq<AllocRecord>): nat {
    if rs == [] then 0 else RecordsSize(rs[..|rs| - 1]) + RecordSize(rs[|rs| - 1])
  }

  function HeaderBytes(count: nat, t: Tables, baseLen: nat): (b: seq<u1>)
    ensures |b| == MESSAGE_HEADER_LEN
  {
    [MESSAGE_HEADER_LEN, ENTRY_HEADER_LEN, STACK_FRAME_LEN] + BE2(count) + BE4(baseLen)
    + BE2(|t.classNames|) + BE2(|t.methodNames|) + BE2(|t.fileNames|)
  }

  function UnitsBytes(units: seq<u2>): (b: seq<u1>)
    ensures |b| == 2 * |units|
  {
    if units == [] then [] else UnitsBytes(units[..|units| - 1]) + BE2(units[|units| - 1])
  }

  function TableBytes(table: seq<nat>, text: nat -> seq<u2>): (b: seq<u1>)
    ensures |b| == TableSize(table, text)
  {
    if table == [] then []
    else
      var units := text(table[|table| - 1]);
      TableBytes(table[..|table| - 1], text) + (BE4(|units|) + UnitsBytes(units))
  }

  function TableSize(table: seq<nat>, text: nat -> seq<u2>): nat {
    if table == [] then 0 else TableSize(table[..|table| - 1], text) + 4 + 2 * |text(table[|table| - 1])|
  }

  function BaseSize(rs: seq<AllocRecord>): nat {
    MESSAGE_HEADER_LEN + RecordsSize(rs)
  }

  function BaseBytes(rs: seq<AllocRecord>, t: Tables): (b: seq<u1>)
    ensures |b| == BaseSize(rs)
  {
    HeaderBytes(|rs|, t, BaseSize(rs)) + RecordsBytes(rs, t)
  }

  function ReportBytes(rs: seq<AllocRecord>, t: Tables, text: nat -> seq<u2>): seq<u1> {
    BaseBytes(rs, t) + TableBytes(t.classNames, text) + TableBytes(t.methodNames, text) + TableBytes(t.fileNames, text)
  }

  // The header's entry count is right only for up to 65535 records, one less than the default maximum.
  lemma EntryCountIsExact(count: nat)
    requires count <= 0x1_0000
    ensures (BE2(count)[0] as int) * 0x100 + BE2(count)[1] == count <==> count < 0x1_0000
  {
  }

  lemma NoRecords(t: Tables)
    ensures RecordsBytes([], t) == [] && RecordsSize([]) == 0
  {
  }

  lemma RecordsSnoc(rs: seq<AllocRecord>, k: nat, t: Tables)
    requires k < |rs|
    ensures RecordsBytes(rs[..k + 1], t) == RecordsBytes(rs[..k], t) + RecordBytes(rs[k], t)
    ensures RecordsSize(rs[..k + 1]) == RecordsSize(rs[..k]) + RecordSize(rs[k])
  {
    assert rs[..k + 1][..k] == rs[..k];
  }

  lemma {:induction false} RecordsFit(rs: seq<AllocRecord>, k: nat)
    requires k <= |rs|
    ensures RecordsSize(rs[..k]) <= RecordsSize(rs)
    decreases |rs| - k
  {
    if k < |rs| {
      RecordsFit(rs, k + 1);
      assert rs[..k + 1][..k] == rs[..k];
    } else {
      assert rs[..k] == rs;
    }
  }

  // ----- The names in the records -----

  // the names of each kind
  datatype Names = Names(classes: set<nat>, methods: set<nat>, files: set<nat>) {
    function Join(other: Names): Names {
      Names(classes + other.classes, methods + other.methods, files + other.files)
    }

    function All(): set<nat> {
      classes + methods + files
    }

    predicate Within(other: Names) {
      classes <= other.classes && methods <= other.methods && files <= other.files
    }
  }

  const NO_NAMES := Names({}, {}, {})

  function FrameNames(f: Frame): Names {
    Names({f.clazz}, {f.name}, {SourceFile(f)})
  }

  // the names in a record up to a frame
  function RecordNamesUpTo(r: AllocRecord, n: nat): Names
    requires n <= Depth(r.stackElem)
  {
    if n == 0 then Names({r.clazz}, {}, {})
    else RecordNamesUpTo(r, n - 1).Join(FrameNames(r.stackElem[n - 1].value))
  }

  function RecordNames(r: AllocRecord): Names {
    RecordNamesUpTo(r, Depth(r.stackElem))
  }

  function NamesIn(rs: seq<AllocRecord>): Names {
    if rs == [] then NO_NAMES else NamesIn(rs[..|rs| - 1]).Join(RecordNames(rs[|rs| - 1]))
  }

  // There are not too many different names of any kind.
  predicate Fits(names: Names) {
    |names.classes| <= MAX_POINTERS && |names.methods| <= MAX_POINTERS && |names.files| <= MAX_POINTERS
  }

  lemma FewerFit(a: Names, b: Names)
    requires a.Within(b) && Fits(b)
    ensures Fits(a)
  {
    SubsetIsSmaller(a.classes, b.classes);
    SubsetIsSmaller(a.methods, b.methods);
    SubsetIsSmaller(a.files, b.files);
  }

  lemma JoinAssociates(a: Names, b: Names, c: Names)
    ensures a.Join(b).Join(c) == a.Join(b.Join(c)) && a.Within(a.Join(b))
    ensures b.Within(c) ==> a.Join(b).Within(a.Join(c))
  {
  }

  lemma {:induction false} NamesUpTo(r: AllocRecord, n: nat)
    requires n <= Depth(r.stackElem)
    ensures RecordNamesUpTo(r, n).Within(RecordNames(r))
    decreases Depth(r.stackElem) - n
  {
    if n < Depth(r.stackElem) {
      NamesUpTo(r, n + 1);
    }
  }

  lemma {:induction false} NamesOfPrefix(rs: seq<AllocRecord>, n: nat)
    requires n <= |rs|
    ensures NamesIn(rs[..n]).Within(NamesIn(rs))
    decreases |rs|
  {
    hide RecordNames;
    if n < |rs| {
      NamesOfPrefix(rs[..|rs| - 1], n);
      assert rs[..|rs| - 1][..n] == rs[..n];
    } else {
      assert rs[..n] == rs;
    }
  }

  lemma NoNames(rs: seq<AllocRecord>)
    ensures NamesIn(rs[..0]) == NO_NAMES
  {
  }

  // The names in some records that are too many stay too many with the rest.
  lemma StillTooMany(rs: seq<AllocRecord>, n: nat)
    requires n <= |rs| && !Fits(NamesIn(rs[..n]))
    ensures !Fits(NamesIn(rs))
  {
    hide Fits, NamesIn;
    NamesOfPrefix(rs, n);
    if Fits(NamesIn(rs)) {
      FewerFit(NamesIn(rs[..n]), NamesIn(rs));
    }
  }

  lemma NamesSnoc(rs: seq<AllocRecord>, n: nat)
    requires n < |rs|
    ensures NamesIn(rs[..n + 1]) == NamesIn(rs[..n]).Join(RecordNames(rs[n]))
  {
    assert rs[..n + 1][..n] == rs[..n];
  }

  // sorted tables of exactly the names in the records
  ghost predicate TablesOf(t: Tables, rs: seq<AllocRecord>) {
    && Sorted(t.classNames) && SetOf(t.classNames) == NamesIn(rs).classes
    && Sorted(t.methodNames) && SetOf(t.methodNames) == NamesIn(rs).methods
    && Sorted(t.fileNames) && SetOf(t.fileNames) == NamesIn(rs).files
  }

  // all names are strings in memory that read as text says
  ghost predicate Readable(mem: Memory, text: nat -> seq<u2>, t: Tables) {
    forall p | p in t.classNames || p in t.methodNames || p in t.fileNames :: Mutf8.Decodes(mem, p, text(p))
  }

  function TablesSize(t: Tables, text: nat -> seq<u2>): nat {
    TableSize(t.classNames, text) + TableSize(t.methodNames, text) + TableSize(t.fileNames, text)
  }

  lemma TablesAreReadable(mem: Memory, text: nat -> seq<u2>, rs: seq<AllocRecord>, t: Tables)
    requires forall p | p in NamesIn(rs).All() :: Mutf8.Decodes(mem, p, text(p))
    requires TablesOf(t, rs)
    ensures Readable(mem, text, t)
  {
    hide NamesIn, SetOf, Mutf8.Decodes;
    forall p | p in t.classNames || p in t.methodNames || p in t.fileNames
      ensures Mutf8.Decodes(mem, p, text(p))
    {
      assert p in NamesIn(rs).All();
    }
  }

  // The three sets of names of a report.
  class NameSets {
    const classNames: PointerSet
    const methodNames: PointerSet
    const fileNames: PointerSet

    ghost function Repr(): set<object>
      reads classNames, methodNames, fileNames
    {
      {classNames, methodNames, fileNames, classNames.list, methodNames.list, fileNames.list}
    }

    ghost predicate Valid()
      reads Repr()
      reads classNames, methodNames, fileNames
    {
      && classNames.Valid() && methodNames.Valid() && fileNames.Valid()
      && classNames.GrownFrom128() && methodNames.GrownFrom128() && fileNames.GrownFrom128()
      && classNames != methodNames && classNames != fileNames && methodNames != fileNames
      && classNames.list != methodNames.list && classNames.list != fileNames.list && methodNames.list != fileNames.list
    }

    ghost function Held(): Names
      requires Valid()
      reads Repr()
      reads classNames, methodNames, fileNames
    {
      Names(classNames.AsSet(), methodNames.AsSet(), fileNames.AsSet())
    }

    ghost function AsTables(): Tables
      requires Valid()
      reads Repr()
      reads classNames, methodNames, fileNames
    {
      Tables(classNames.Contents(), methodNames.Contents(), fileNames.Contents())
    }

    // The tables list what the sets hold, which is never more than they take.
    lemma TablesAre()
      requires Valid()
      ensures var t := AsTables();
              && Names(SetOf(t.classNames), SetOf(t.methodNames), SetOf(t.fileNames)) == Held()
              && Sorted(t.classNames) && Sorted(t.methodNames) && Sorted(t.fileNames)
      ensures Fits(Held())
    {
      classNames.SetIsSmall();
      methodNames.SetIsSmall();
      fileNames.SetIsSmall();
    }

    constructor ()
      ensures Valid() && fresh(Repr()) && Held() == NO_NAMES
    {
      classNames := new PointerSet(128);
      methodNames := new PointerSet(128);
      fileNames := new PointerSet(128);
    }

    // dvmPointerSetAddEntry on one of the sets
    method AddTo(pSet: PointerSet, name: nat) returns (okay: bool)
      requires Valid() && pSet in {classNames, methodNames, fileNames}
      modifies pSet, pSet.list
      ensures Valid() && fresh(Repr() - old(Repr()))
      ensures !okay ==> Held() == old(Held())
      ensures okay ==> pSet.AsSet() == old(pSet.AsSet()) + {name}
      ensures !okay ==> |old(pSet.AsSet()) + {name}| > MAX_POINTERS
      ensures pSet != classNames ==> classNames.AsSet() == old(classNames.AsSet())
      ensures pSet != methodNames ==> methodNames.AsSet() == old(methodNames.AsSet())
      ensures pSet != fileNames ==> fileNames.AsSet() == old(fileNames.AsSet())
    {
      hide PointerSet.Valid, PointerSet.AsSet, PointerSet.GrownFrom128;
      var result := pSet.AddEntry(name);
      okay := result != OutOfList;
    }

    // the additions of populateStringTables for one frame
    method AddFrame(f: Frame) returns (okay: bool)
      requires Valid()
      modifies Repr()
      ensures Valid() && fresh(Repr() - old(Repr()))
      ensures okay ==> Held() == old(Held()).Join(FrameNames(f))
      ensures !okay ==> !Fits(old(Held()).Join(FrameNames(f)))
    {
      hide PointerSet.Valid, PointerSet.AsSet, PointerSet.GrownFrom128;
      okay := AddTo(classNames, f.clazz);
      if okay {
        okay := AddTo(methodNames, f.name);
        if okay {
          okay := AddTo(fileNames, SourceFile(f));
        }
      }
    }

    // one round of its loop
    method AddRecord(rec: AllocRecord) returns (okay: bool)
      requires Valid()
      modifies Repr()
      ensures Valid() && fresh(Repr() - old(Repr()))
      ensures okay ==> Held() == old(Held()).Join(RecordNames(rec))
      ensures !okay ==> !Fits(old(Held()).Join(RecordNames(rec)))
    {
      hide SetOf, Valid, Held, RecordNames, RecordNamesUpTo, FrameNames, Fits, Names.Join, Names.Within;
      ghost var before, all := Held(), Held().Join(RecordNames(rec));
      okay := AddClass(rec);
      if !okay {
        TooManyAlready(before, rec, 0);
        return;
      }
      var i: nat := 0;
      while i < Depth(rec.stackElem)
        invariant i <= Depth(rec.stackElem) && Valid() && fresh(Repr() - old(Repr()))
        invariant Held() == before.Join(RecordNamesUpTo(rec, i))
      {
        NextFrame(before, rec, i);
        okay := AddFrame(rec.stackElem[i].value);
        if !okay {
          TooManyAlready(before, rec, i + 1);
          return;
        }
        i := i + 1;
      }
      AllFrames(rec);
      okay := true;
    }

    method AddClass(rec: AllocRecord) returns (okay: bool)
      requires Valid()
      modifies Repr()
      ensures Valid() && fresh(Repr() - old(Repr()))
      ensures okay ==> Held() == old(Held()).Join(RecordNamesUpTo(rec, 0))
      ensures !okay ==> !Fits(old(Held()).Join(RecordNamesUpTo(rec, 0)))
    {
      hide PointerSet.Valid, PointerSet.AsSet, PointerSet.GrownFrom128;
      okay := AddTo(classNames, rec.clazz);
    }
  }

  lemma AllFrames(r: AllocRecord)
    ensures RecordNamesUpTo(r, Depth(r.stackElem)) == RecordNames(r)
  {
  }

  lemma NextFrame(before: Names, r: AllocRecord, n: nat)
    requires n < Depth(r.stackElem)
    ensures before.Join(RecordNamesUpTo(r, n)).Join(FrameNames(r.stackElem[n].value))
         == before.Join(RecordNamesUpTo(r, n + 1))
  {
    JoinAssociates(before, RecordNamesUpTo(r, n), FrameNames(r.stackElem[n].value));
  }

  // Names up to a frame that are too many stay too many with the rest of the record.
  lemma TooManyAlready(before: Names, r: AllocRecord, n: nat)
    requires n <= Depth(r.stackElem) && !Fits(before.Join(RecordNamesUpTo(r, n)))
    ensures !Fits(before.Join(RecordNames(r)))
  {
    hide Fits, RecordNames, RecordNamesUpTo, Names.Join, Names.Within;
    NamesUpTo(r, n);
    JoinAssociates(before, RecordNamesUpTo(r, n), RecordNames(r));
    if Fits(before.Join(RecordNames(r))) {
      FewerFit(before.Join(RecordNamesUpTo(r, n)), before.Join(RecordNames(r)));
    }
  }

  // ----- Writing -----

  method Set1(buffer: array<u1>, at: nat, val: int)
    requires at + 1 <= buffer.Length
    modifies buffer
    ensures buffer[..at + 1] == old(buffer[..at]) + [val % 0x100] && buffer[at + 1..] == old(buffer[at + 1..])
  {
    buffer[at] := val % 0x100;
  }

  method Set2BE(buffer: array<u1>, at: nat, val: int)
    requires at + 2 <= buffer.Length
    modifies buffer
    ensures buffer[..at + 2] == old(buffer[..at]) + BE2(val) && buffer[at + 2..] == old(buffer[at + 2..])
  {
    buffer[at] := val / 0x100 % 0x100;
    buffer[at + 1] := val % 0x100;
  }

  method Set4BE(buffer: array<u1>, at: nat, val: int)
    requires at + 4 <= buffer.Length
    modifies buffer
    ensures buffer[..at + 4] == old(buffer[..at]) + BE4(val) && buffer[at + 4..] == old(buffer[at + 4..])
  {
    buffer[at] := val / 0x100_0000 % 0x100;
    buffer[at + 1] := val / 0x1_0000 % 0x100;
    buffer[at + 2] := val / 0x100 % 0x100;
    buffer[at + 3] := val % 0x100;
  }

  // the header part of generateBaseOutput
  method WriteHeader(buffer: array<u1>, count: nat, baseLen: nat, names: NameSets)
    requires names.Valid() && MESSAGE_HEADER_LEN <= buffer.Length
    modifies buffer
    ensures names.Valid() && names.AsTables() == old(names.AsTables())
    ensures buffer[..MESSAGE_HEADER_LEN] == HeaderBytes(count, names.AsTables(), baseLen)
  {
    hide BE2, BE4, Sorted, IsGrown;
    WriteLengths(buffer, count, baseLen);
    WriteCounts(buffer, names);
  }

  method WriteLengths(buffer: array<u1>, count: nat, baseLen: nat)
    requires 9 <= buffer.Length
    modifies buffer
    ensures buffer[..9] == [MESSAGE_HEADER_LEN, ENTRY_HEADER_LEN, STACK_FRAME_LEN] + BE2(count) + BE4(baseLen)
  {
    hide BE2, BE4;
    Set1(buffer, 0, MESSAGE_HEADER_LEN);
    Set1(buffer, 1, ENTRY_HEADER_LEN);
    Set1(buffer, 2, STACK_FRAME_LEN);
    assert buffer[..3] == [MESSAGE_HEADER_LEN, ENTRY_HEADER_LEN, STACK_FRAME_LEN];
    Set2BE(buffer, 3, count);
    Set4BE(buffer, 5, baseLen);
  }

  method WriteCounts(buffer: array<u1>, names: NameSets)
    requires names.Valid() && MESSAGE_HEADER_LEN <= buffer.Length
    modifies buffer
    ensures names.Valid() && names.AsTables() == old(names.AsTables())
    ensures var t := names.AsTables();
            buffer[..MESSAGE_HEADER_LEN]
            == old(buffer[..9]) + BE2(|t.classNames|) + BE2(|t.methodNames|) + BE2(|t.fileNames|)
  {
    hide BE2, Sorted, IsGrown;
    var classes, methods, files := names.classNames.count, names.methodNames.count, names.fileNames.count;
    Set2BE(buffer, 9, classes);
    Set2BE(buffer, 11, methods);
    Set2BE(buffer, 13, files);
  }

  lemma FoundIsIndex(table: seq<nat>, name: nat, idx: int)
    requires Sorted(table) && (idx == -1 <==> name !in table)
    requires idx != -1 ==> 0 <= idx < |table| && table[idx] == name
    ensures idx == IndexIn(table, name)
  {
    if idx == -1 {
      FirstIndexIsNone(table, name, 0);
    } else {
      FirstIndexIs(table, name, 0, idx);
    }
  }

  method SetIndex(buffer: array<u1>, at: nat, strings: PointerSet, name: nat)
    requires strings.Valid() && at + 2 <= buffer.Length
    modifies buffer
    ensures strings.Valid() && strings.Contents() == old(strings.Contents())
    ensures buffer[..at + 2] == old(buffer[..at]) + BE2(IndexIn(strings.Contents(), name))
  {
    hide BE2, Sorted, IndexIn;
    var idx := strings.Find(name);
    FoundIsIndex(strings.Contents(), name, idx);
    Set2BE(buffer, at, idx);
  }

  // one frame in generateBaseOutput
  method OutputFrame(buffer: array<u1>, at: nat, f: Frame, names: NameSets)
    requires names.Valid() && at + STACK_FRAME_LEN <= buffer.Length
    modifies buffer
    ensures names.Valid() && names.AsTables() == old(names.AsTables())
    ensures buffer[..at + STACK_FRAME_LEN] == old(buffer[..at]) + FrameBytes(f, names.AsTables())
  {
    hide BE2, Sorted, IndexIn;
    var lineNum := f.lineNum;
    if lineNum > 32767 {
      lineNum := 32767;
    }
    SetIndex(buffer, at, names.classNames, f.clazz);
    SetIndex(buffer, at + 2, names.methodNames, f.name);
    SetIndex(buffer, at + 4, names.fileNames, SourceFile(f));
    Set2BE(buffer, at + 6, lineNum);
  }

  // one record in generateBaseOutput
  method OutputRecord(buffer: array?<u1>, at: nat, rec: AllocRecord, names: NameSets) returns (next: nat)
    requires names.Valid() && (buffer != null ==> at + RecordSize(rec) <= buffer.Length)
    modifies buffer
    ensures names.Valid() && names.AsTables() == old(names.AsTables()) && next == at + RecordSize(rec)
    ensures buffer != null ==> buffer[..next] == old(buffer[..at]) + RecordBytes(rec, names.AsTables())
  {
    hide BE2, BE4, Sorted, IndexIn, FramesBytes, NameSets.Valid, NameSets.AsTables;
    var depth := 0;
    while depth < |rec.stackElem| && rec.stackElem[depth] != None
      invariant depth <= Depth(rec.stackElem)
    {
      depth := depth + 1;
    }
    if buffer != null {
      OutputEntryHeader(buffer, at, rec, depth, names);
      OutputFrames(buffer, at + ENTRY_HEADER_LEN, rec.stackElem, names);
    }
    next := at + ENTRY_HEADER_LEN + STACK_FRAME_LEN * depth;
  }

  // the loop over the frames in generateBaseOutput, for a buffer
  method OutputFrames(buffer: array<u1>, at: nat, stack: seq<Option<Frame>>, names: NameSets)
    requires names.Valid() && at + STACK_FRAME_LEN * Depth(stack) <= buffer.Length
    modifies buffer
    ensures names.Valid() && names.AsTables() == old(names.AsTables())
    ensures buffer[..at + STACK_FRAME_LEN * Depth(stack)]
         == old(buffer[..at]) + FramesBytes(stack, Depth(stack), names.AsTables())
  {
    hide FrameBytes, NameSets.Valid, NameSets.AsTables;
    ghost var t := names.AsTables();
    var i: nat, next := 0, at;
    while i < Depth(stack)
      invariant i <= Depth(stack) && next == at + STACK_FRAME_LEN * i
      invariant names.Valid() && names.AsTables() == t
      invariant buffer[..next] == old(buffer[..at]) + FramesBytes(stack, i, t)
    {
      OutputFrame(buffer, next, stack[i].value, names);
      next := next + STACK_FRAME_LEN;
      i := i + 1;
    }
  }

  method OutputEntryHeader(buffer: array<u1>, at: nat, rec: AllocRecord, depth: nat, names: NameSets)
    requires names.Valid() && at + ENTRY_HEADER_LEN <= buffer.Length
    modifies buffer
    ensures names.Valid() && names.AsTables() == old(names.AsTables())
    ensures buffer[..at + ENTRY_HEADER_LEN] == old(buffer[..at])
            + (BE4(rec.size) + BE2(rec.threadId) + BE2(IndexIn(names.AsTables().classNames, rec.clazz))
               + [depth % 0x100])
  {
    hide BE2, BE4, Sorted, IndexIn;
    Set4BE(buffer, at, rec.size);
    Set2BE(buffer, at + 4, rec.threadId);
    SetIndex(buffer, at + 6, names.classNames, rec.clazz);
    Set1(buffer, at + 8, depth);
  }

  // dvmUtf8Len
  method Utf8Len(mem: Memory, str: nat, ghost units: seq<u2>) returns (len: nat)
    requires Mutf8.Decodes(mem, str, units)
    ensures len == |units|
  {
    hide Mutf8.Value2, Mutf8.Value3;
    var at: nat := str;
    ghost var rest := units;
    len := 0;
    while true
      invariant Mutf8.Decodes(mem, at, rest) && len + |rest| == |units|
      decreases |rest|
    {
      var ic := mem(at);
      ghost var next := Mutf8.UnitAt(mem, at).next;
      at := at + 1;
      if ic == 0 {
        return;
      }
      len := len + 1;
      if ic >= 0x80 {
        at := at + 1;
        if ic / 0x20 % 2 == 1 {
          at := at + 1;
        }
      }
      assert at == next;
      rest := rest[1..];
    }
  }

  // computeStringTableSize
  method ComputeStringTableSize(mem: Memory, strings: PointerSet, ghost text: nat -> seq<u2>) returns (size: nat)
    requires strings.Valid() && forall p | p in strings.Contents() :: Mutf8.Decodes(mem, p, text(p))
    ensures size == TableSize(strings.Contents(), text)
  {
    hide Sorted;
    size := 0;
    var i := 0;
    ghost var table := strings.Contents();
    while i < strings.count
      invariant i <= strings.count && size == TableSize(table[..i], text)
    {
      assert table[i] in table && table[..i + 1][..i] == table[..i];
      var len := Utf8Len(mem, strings.list[i], text(strings.list[i]));
      size := size + (4 + len * 2);
      i := i + 1;
    }
    assert table[..i] == table;
  }

  // convertUtf8ToUtf16BEUA
  method ConvertUtf8ToUtf16(mem: Memory, buffer: array<u1>, start: nat, utf8Str: nat, ghost units: seq<u2>)
    returns (len: nat)
    requires Mutf8.Decodes(mem, utf8Str, units) && start + 2 * |units| <= buffer.Length
    modifies buffer
    ensures len == |units| && buffer[..start + 2 * len] == old(buffer[..start]) + UnitsBytes(units)
  {
    hide Mutf8.UnitAt, BE2, UnitsBytes, Mutf8.Decodes;
    NoUnits();
    assert units[..0] == [];
    var str: nat, at := utf8Str, start;
    ghost var k := 0;
    assert units[0..] == units;
    Ended(mem, str, units);
    while mem(str) != 0
      invariant mem(str) == 0 <==> k == |units|
      invariant k <= |units| && at == start + 2 * k && Mutf8.Decodes(mem, str, units[k..])
      invariant buffer[..at] == old(buffer[..start]) + UnitsBytes(units[..k])
      decreases |units| - k
    {
      var utf16 := Mutf8.UnitAt(mem, str);
      UnitsSnoc(units, k);
      OneUnit(mem, str, units, k);
      Ended(mem, utf16.next, units[k + 1..]);
      Set2BE(buffer, at, utf16.value);
      str := utf16.next;
      at := at + 2;
      k := k + 1;
    }
    assert units[..k] == units;
    len := (at - start) / 2;
  }

  lemma NoUnits()
    ensures UnitsBytes([]) == []
  {
  }

  lemma UnitsSnoc(units: seq<u2>, k: nat)
    requires k < |units|
    ensures UnitsBytes(units[..k + 1]) == UnitsBytes(units[..k]) + BE2(units[k])
  {
    assert units[..k + 1][..k] == units[..k];
  }

  lemma Ended(mem: Memory, str: nat, rest: seq<u2>)
    requires Mutf8.Decodes(mem, str, rest)
    ensures mem(str) == 0 <==> rest == []
  {
  }

  lemma OneUnit(mem: Memory, str: nat, units: seq<u2>, k: nat)
    requires k < |units| && Mutf8.Decodes(mem, str, units[k..])
    ensures Mutf8.UnitAt(mem, str).value == units[k] && Mutf8.Decodes(mem, Mutf8.UnitAt(mem, str).next, units[k + 1..])
  {
    hide Mutf8.UnitAt;
    assert units[k..][0] == units[k] && units[k..][1..] == units[k + 1..];
  }

  // outputStringTable
  method OutputStringTable(mem: Memory, strings: PointerSet, buffer: array<u1>, start: nat, ghost text: nat -> seq<u2>)
    returns (size: nat)
    requires strings.Valid() && forall p | p in strings.Contents() :: Mutf8.Decodes(mem, p, text(p))
    requires start + TableSize(strings.Contents(), text) <= buffer.Length
    modifies buffer
    ensures strings.Valid() && strings.Contents() == old(strings.Contents())
    ensures size == TableSize(strings.Contents(), text)
    ensures buffer[..start + size] == old(buffer[..start]) + TableBytes(strings.Contents(), text)
  {
    hide Sorted, TableBytes, TableSize, BE4, UnitsBytes;
    var ptr, i := start, 0;
    ghost var table := strings.Contents();
    NoTable(text);
    TableFits(table, 0, text);
    assert table[..0] == [];
    while i < strings.count
      invariant i <= strings.count && strings.Valid() && strings.Contents() == table
      invariant ptr == start + TableSize(table[..i], text) <= buffer.Length
      invariant buffer[..ptr] == old(buffer[..start]) + TableBytes(table[..i], text)
    {
      assert table[i] in table;
      TableSnoc(table, i, text);
      TableFits(table, i + 1, text);
      var charLen := OutputString(mem, buffer, ptr, strings.list[i], text(strings.list[i]));
      ptr := ptr + (4 + charLen * 2);
      i := i + 1;
    }
    assert table[..i] == table;
    size := ptr - start;
  }

  // the characters first, then their number before them
  method OutputString(mem: Memory, buffer: array<u1>, ptr: nat, str: nat, ghost units: seq<u2>) returns (charLen: nat)
    requires Mutf8.Decodes(mem, str, units) && ptr + 4 + 2 * |units| <= buffer.Length
    modifies buffer
    ensures charLen == |units|
    ensures buffer[..ptr + 4 + 2 * charLen] == old(buffer[..ptr]) + (BE4(|units|) + UnitsBytes(units))
  {
    hide BE4, UnitsBytes, Mutf8.Decodes;
    ghost var before := buffer[..ptr];
    ghost var gap := buffer[..ptr + 4];
    charLen := ConvertUtf8ToUtf16(mem, buffer, ptr + 4, str, units);
    ghost var written := buffer[..ptr + 4 + 2 * charLen];
    assert written[..ptr + 4] == gap && written[ptr + 4..] == UnitsBytes(units);
    assert buffer[..ptr] == gap[..ptr] == before;
    Set4BE(buffer, ptr, charLen);
    assert buffer[ptr + 4..][..2 * charLen] == written[ptr + 4..];
    assert buffer[..ptr + 4 + 2 * charLen] == buffer[..ptr + 4] + buffer[ptr + 4..][..2 * charLen];
  }

  lemma NoTable(text: nat -> seq<u2>)
    ensures TableBytes([], text) == [] && TableSize([], text) == 0
  {
  }

  lemma TableSnoc(table: seq<nat>, i: nat, text: nat -> seq<u2>)
    requires i < |table|
    ensures var units := text(table[i]);
            && TableBytes(table[..i + 1], text) == TableBytes(table[..i], text) + (BE4(|units|) + UnitsBytes(units))
            && TableSize(table[..i + 1], text) == TableSize(table[..i], text) + 4 + 2 * |units|
  {
    assert table[..i + 1][..i] == table[..i];
  }

  lemma {:induction false} TableFits(table: seq<nat>, i: nat, text: nat -> seq<u2>)
    requires i <= |table|
    ensures TableSize(table[..i], text) <= TableSize(table, text)
    decreases |table| - i
  {
    if i < |table| {
      TableFits(table, i + 1, text);
      assert table[..i + 1][..i] == table[..i];
    } else {
      assert table[..i] == table;
    }
  }
}
