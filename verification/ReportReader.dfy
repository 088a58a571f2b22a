// What a client reads in an allocation report of vm/AllocTracker.cpp: numbers at the places of the format, most
// significant byte first, and strings by their index. A report that was written reads as the records it is about.

module ReportReader {
  import opened Common
  import opened AllocReport
  import opened PointerSets
  import opened Probing

  // ----- Reading -----

  function Read2(mem: Memory, at: nat): u2 {
    mem(at) * 0x100 + mem(at + 1)
  }

  function Read4(mem: Memory, at: nat): u4 {
    mem(at) * 0x100_0000 + mem(at + 1) * 0x1_0000 + mem(at + 2) * 0x100 + mem(at + 3)
  }

  // Where the k-th entry starts: behind the header, and behind as many frames as each entry before it says.
  function EntryOffset(mem: Memory, k: nat): nat {
    if k == 0 then mem(0)
    else
      var before := EntryOffset(mem, k - 1);
      before + mem(1) + mem(2) * mem(before + 8)
  }

  // where the k-th string of a table starts: each has its number of characters before them
  function StringOffset(mem: Memory, table: nat, k: nat): nat {
    if k == 0 then table
    else
      var before := StringOffset(mem, table, k - 1);
      before + 4 + 2 * Read4(mem, before)
  }

  function StringAt(mem: Memory, table: nat, k: nat): seq<u2> {
    var at := StringOffset(mem, table, k);
    seq(Read4(mem, at), i requires 0 <= i => Read2(mem, at + 4 + 2 * i))
  }

  // the tables, one after the other from the offset in the header
  function ClassTable(mem: Memory): nat {
    Read4(mem, 5)
  }

  function MethodTable(mem: Memory): nat {
    StringOffset(mem, ClassTable(mem), Read2(mem, 9))
  }

  function FileTable(mem: Memory): nat {
    StringOffset(mem, MethodTable(mem), Read2(mem, 11))
  }

  predicate FrameReads(mem: Memory, at: nat, f: Frame, text: nat -> seq<u2>) {
    && StringAt(mem, ClassTable(mem), Read2(mem, at)) == text(f.clazz)
    && StringAt(mem, MethodTable(mem), Read2(mem, at + 2)) == text(f.name)
    && StringAt(mem, FileTable(mem), Read2(mem, at + 4)) == text(SourceFile(f))
    && Read2(mem, at + 6) == (if f.lineNum > 32767 then 32767 else f.lineNum) % 0x1_0000
  }

  predicate EntryReads(mem: Memory, at: nat, r: AllocRecord, text: nat -> seq<u2>) {
    && Read4(mem, at) == r.size
    && Read2(mem, at + 4) == r.threadId
    && StringAt(mem, ClassTable(mem), Read2(mem, at + 6)) == text(r.clazz)
    && mem(at + 8) == Depth(r.stackElem)
    && forall i: nat | i < Depth(r.stackElem) :: FrameReads(mem, at + 9 + 8 * i, r.stackElem[i].value, text)
  }

  // The report is about these records.
  ghost predicate Reads(mem: Memory, rs: seq<AllocRecord>, t: Tables, text: nat -> seq<u2>) {
    && mem(0) == 15 && mem(1) == 9 && mem(2) == 8
    && Read2(mem, 3) == |rs| % 0x1_0000
    && Read2(mem, 9) == |t.classNames| && Read2(mem, 11) == |t.methodNames| && Read2(mem, 13) == |t.fileNames|
    && (forall k: nat | k < |rs| :: EntryReads(mem, EntryOffset(mem, k), rs[k], text))
    && (forall k: nat | k < |t.classNames| :: StringAt(mem, ClassTable(mem), k) == text(t.classNames[k]))
    && (forall k: nat | k < |t.methodNames| :: StringAt(mem, MethodTable(mem), k) == text(t.methodNames[k]))
    && (forall k: nat | k < |t.fileNames| :: StringAt(mem, FileTable(mem), k) == text(t.fileNames[k]))
  }

  // Stacks have 16 frames in the code, which may be raised to 255; strings and the records are in memory of 32 bits.
  ghost predicate InMemory(rs: seq<AllocRecord>, text: nat -> seq<u2>) {
    && (forall r | r in rs :: |r.stackElem| <= 255)
    && BaseSize(rs) < TWO32
    && forall p | p in NamesIn(rs).All() :: |text(p)| < TWO32
  }

  // ----- Numbers -----

  lemma Reads2(mem: Memory, at: nat, x: int)
    requires At(mem, at, BE2(x))
    ensures Read2(mem, at) == x % 0x1_0000
  {
    var b := BE2(x);
    assert mem(at + 0) == b[0] && mem(at + 1) == b[1];
  }

  lemma Reads4(mem: Memory, at: nat, x: nat)
    requires At(mem, at, BE4(x)) && x < TWO32
    ensures Read4(mem, at) == x
  {
    hide BE4;
    FourBytes(x);
    var b := BE4(x);
    assert mem(at + 0) == b[0] && mem(at + 1) == b[1] && mem(at + 2) == b[2] && mem(at + 3) == b[3];
  }

  lemma FourBytes(x: nat)
    requires x < TWO32
    ensures var b: seq<int> := BE4(x);
            b[0] * 0x100_0000 + b[1] * 0x1_0000 + b[2] * 0x100 + b[3] == x
  {
    var x1 := x / 0x100;
    var x2 := x1 / 0x100;
    assert x2 == x / 0x1_0000;
    assert x2 / 0x100 == x / 0x100_0000;
  }

  // ----- The string tables -----

  lemma {:induction false} UnitsRead(mem: Memory, at: nat, units: seq<u2>, i: nat)
    requires At(mem, at, UnitsBytes(units)) && i < |units|
    ensures Read2(mem, at + 2 * i) == units[i]
    decreases |units|
  {
    hide BE2;
    var n := |units| - 1;
    AtConcat(mem, at, UnitsBytes(units[..n]), BE2(units[n]));
    if i < n {
      UnitsRead(mem, at, units[..n], i);
    } else {
      Reads2(mem, at + 2 * n, units[n]);
    }
  }

  // the part of a table in front of its k-th string
  lemma {:induction false} TablePrefix(mem: Memory, at: nat, table: seq<nat>, text: nat -> seq<u2>, k: nat)
    requires k <= |table| && At(mem, at, TableBytes(table, text))
    ensures At(mem, at, TableBytes(table[..k], text))
    decreases |table| - k
  {
    hide At, TableBytes, BE4, UnitsBytes;
    if k < |table| {
      TablePrefix(mem, at, table, text, k + 1);
      TableSnoc(table, k, text);
      AtConcat(mem, at, TableBytes(table[..k], text), BE4(|text(table[k])|) + UnitsBytes(text(table[k])));
    } else {
      assert table[..k] == table;
    }
  }

  lemma {:induction false} StringsRead(mem: Memory, at: nat, table: seq<nat>, text: nat -> seq<u2>, k: nat)
    requires k <= |table| && At(mem, at, TableBytes(table, text)) && forall p | p in table :: |text(p)| < TWO32
    ensures StringOffset(mem, at, k) == at + TableSize(table[..k], text)
    ensures k < |table| ==> StringAt(mem, at, k) == text(table[k])
  {
    hide At, TableBytes, TableSize, BE4, UnitsBytes, Read4, Read2;
    if k > 0 {
      StringsRead(mem, at, table, text, k - 1);
      StringIsThere(mem, at, table, text, k - 1);
    } else {
      NoTable(text);
      assert table[..0] == [];
    }
    if k < |table| {
      StringIsThere(mem, at, table, text, k);
      var start, units := at + TableSize(table[..k], text), text(table[k]);
      forall i: nat | i < |units|
        ensures Read2(mem, start + 4 + 2 * i) == units[i]
      {
        UnitsRead(mem, start + 4, units, i);
      }
      assert StringAt(mem, at, k) == units;
    }
  }

  lemma StringIsThere(mem: Memory, at: nat, table: seq<nat>, text: nat -> seq<u2>, k: nat)
    requires k < |table| && At(mem, at, TableBytes(table, text)) && forall p | p in table :: |text(p)| < TWO32
    ensures var start, units := at + TableSize(table[..k], text), text(table[k]);
            && Read4(mem, start) == |units| && At(mem, start + 4, UnitsBytes(units))
            && at + TableSize(table[..k + 1], text) == start + 4 + 2 * |units|
  {
    hide At, TableBytes, TableSize, BE4, UnitsBytes, Read4;
    assert table[k] in table;
    var start, units := at + TableSize(table[..k], text), text(table[k]);
    TablePrefix(mem, at, table, text, k + 1);
    TableSnoc(table, k, text);
    AtConcat(mem, at, TableBytes(table[..k], text), BE4(|units|) + UnitsBytes(units));
    AtConcat(mem, start, BE4(|units|), UnitsBytes(units));
    Reads4(mem, start, |units|);
  }

  // ----- The entries -----

  // the parts in front of a record and of a frame
  lemma {:induction false} RecordsPrefix(mem: Memory, at: nat, rs: seq<AllocRecord>, t: Tables, k: nat)
    requires k <= |rs| && At(mem, at, RecordsBytes(rs, t))
    ensures At(mem, at, RecordsBytes(rs[..k], t))
    decreases |rs| - k
  {
    hide At, RecordsBytes, RecordBytes;
    if k < |rs| {
      RecordsPrefix(mem, at, rs, t, k + 1);
      RecordsSnoc(rs, k, t);
      AtConcat(mem, at, RecordsBytes(rs[..k], t), RecordBytes(rs[k], t));
    } else {
      assert rs[..k] == rs;
    }
  }

  lemma {:induction false} FramesPrefix(mem: Memory, at: nat, stack: seq<Option<Frame>>, n: nat, t: Tables, k: nat)
    requires k <= n <= Depth(stack) && At(mem, at, FramesBytes(stack, n, t))
    ensures At(mem, at, FramesBytes(stack, k, t))
    decreases n - k
  {
    hide At, FrameBytes;
    if k < n {
      AtConcat(mem, at, FramesBytes(stack, n - 1, t), FrameBytes(stack[n - 1].value, t));
      FramesPrefix(mem, at, stack, n - 1, t, k);
    }
  }

  lemma FrameIsThere(mem: Memory, at: nat, stack: seq<Option<Frame>>, t: Tables, i: nat)
    requires i < Depth(stack) && At(mem, at, FramesBytes(stack, Depth(stack), t))
    ensures At(mem, at + 8 * i, FrameBytes(stack[i].value, t))
  {
    hide At, FrameBytes;
    FramesPrefix(mem, at, stack, Depth(stack), t, i + 1);
    AtConcat(mem, at, FramesBytes(stack, i, t), FrameBytes(stack[i].value, t));
  }

  // the numbers of a frame
  lemma FrameNumbers(mem: Memory, at: nat, f: Frame, t: Tables)
    requires At(mem, at, FrameBytes(f, t))
    ensures Read2(mem, at) == IndexIn(t.classNames, f.clazz) % 0x1_0000
    ensures Read2(mem, at + 2) == IndexIn(t.methodNames, f.name) % 0x1_0000
    ensures Read2(mem, at + 4) == IndexIn(t.fileNames, SourceFile(f)) % 0x1_0000
    ensures Read2(mem, at + 6) == (if f.lineNum > 32767 then 32767 else f.lineNum) % 0x1_0000
  {
    hide At, BE2, IndexIn, Read2;
    var a, b := BE2(IndexIn(t.classNames, f.clazz)), BE2(IndexIn(t.methodNames, f.name));
    var c, l := BE2(IndexIn(t.fileNames, SourceFile(f))), BE2(if f.lineNum > 32767 then 32767 else f.lineNum);
    AtConcat(mem, at, a + b + c, l);
    AtConcat(mem, at, a + b, c);
    AtConcat(mem, at, a, b);
    Reads2(mem, at, IndexIn(t.classNames, f.clazz));
    Reads2(mem, at + 2, IndexIn(t.methodNames, f.name));
    Reads2(mem, at + 4, IndexIn(t.fileNames, SourceFile(f)));
    Reads2(mem, at + 6, if f.lineNum > 32767 then 32767 else f.lineNum);
  }

  // and of an entry
  lemma EntryNumbers(mem: Memory, at: nat, r: AllocRecord, t: Tables)
    requires At(mem, at, RecordBytes(r, t)) && |r.stackElem| <= 255
    ensures Read4(mem, at) == r.size && Read2(mem, at + 4) == r.threadId
    ensures Read2(mem, at + 6) == IndexIn(t.classNames, r.clazz) % 0x1_0000
    ensures mem(at + 8) == Depth(r.stackElem)
    ensures At(mem, at + 9, FramesBytes(r.stackElem, Depth(r.stackElem), t))
  {
    hide At, BE2, BE4, IndexIn, FramesBytes, Read2, Read4;
    var size, thread, clazz := BE4(r.size), BE2(r.threadId), BE2(IndexIn(t.classNames, r.clazz));
    var depth: seq<u1> := [Depth(r.stackElem) % 0x100];
    var frames := FramesBytes(r.stackElem, Depth(r.stackElem), t);
    AtConcat(mem, at, size + thread + clazz + depth, frames);
    AtConcat(mem, at, size + thread + clazz, depth);
    AtConcat(mem, at, size + thread, clazz);
    AtConcat(mem, at, size, thread);
    Reads4(mem, at, r.size);
    Reads2(mem, at + 4, r.threadId);
    Reads2(mem, at + 6, IndexIn(t.classNames, r.clazz));
    OneByte(mem, at + 8, depth[0]);
  }

  lemma OneByte(mem: Memory, at: nat, b: u1)
    requires At(mem, at, [b])
    ensures mem(at) == b
  {
    assert mem(at + 0) == [b][0];
  }

  lemma RecordIsThere(mem: Memory, rs: seq<AllocRecord>, t: Tables, k: nat)
    requires k < |rs| && At(mem, 15, RecordsBytes(rs, t))
    ensures At(mem, 15 + RecordsSize(rs[..k]), RecordBytes(rs[k], t))
  {
    hide At, RecordsBytes, RecordBytes, RecordSize;
    RecordsPrefix(mem, 15, rs, t, k + 1);
    RecordsSnoc(rs, k, t);
    AtConcat(mem, 15, RecordsBytes(rs[..k], t), RecordBytes(rs[k], t));
  }

  lemma {:induction false} EntriesAreThere(mem: Memory, rs: seq<AllocRecord>, t: Tables, k: nat)
    requires k <= |rs| && At(mem, 15, RecordsBytes(rs, t)) && forall r | r in rs :: |r.stackElem| <= 255
    requires mem(0) == 15 && mem(1) == 9 && mem(2) == 8
    ensures EntryOffset(mem, k) == 15 + RecordsSize(rs[..k])
    decreases k
  {
    hide At, RecordsBytes, RecordBytes, RecordsSize, Read2, Read4, IndexIn, FramesBytes, Depth;
    if k == 0 {
      NoRecords(t);
      assert rs[..0] == [];
    } else {
      EntriesAreThere(mem, rs, t, k - 1);
      RecordIsThere(mem, rs, t, k - 1);
      assert rs[k - 1] in rs;
      EntryNumbers(mem, 15 + RecordsSize(rs[..k - 1]), rs[k - 1], t);
      RecordsSnoc(rs, k - 1, t);
    }
  }

  // ----- Looking names up -----

  // a table in memory that fits its number of entries
  ghost predicate HasTable(mem: Memory, at: nat, table: seq<nat>, text: nat -> seq<u2>) {
    |table| <= MAX_POINTERS && At(mem, at, TableBytes(table, text)) && forall p | p in table :: |text(p)| < TWO32
  }

  lemma {:induction false} FirstIndexFinds(table: seq<nat>, name: nat, from: nat, k: nat)
    requires from <= k < |table| && table[k] == name
    ensures FirstIndex(table, name, from).Some?
    ensures from <= FirstIndex(table, name, from).value <= k && table[FirstIndex(table, name, from).value] == name
    decreases k - from
  {
    if table[from] != name {
      FirstIndexFinds(table, name, from + 1, k);
    }
  }

  lemma IndexLooksUp(mem: Memory, at: nat, table: seq<nat>, text: nat -> seq<u2>, name: nat)
    requires HasTable(mem, at, table, text) && name in SetOf(table)
    ensures StringAt(mem, at, IndexIn(table, name) % 0x1_0000) == text(name)
  {
    hide At, TableBytes, StringAt, FirstIndex, SetOf, TableSize, StringOffset;
    var k :| 0 <= k < |table| && table[k] == name;
    FirstIndexFinds(table, name, 0, k);
    StringsRead(mem, at, table, text, IndexIn(table, name));
  }

  lemma NamesAreHeld(rs: seq<AllocRecord>, k: nat)
    requires k < |rs|
    ensures RecordNames(rs[k]).Within(NamesIn(rs)) && rs[k].clazz in NamesIn(rs).classes
    ensures forall i: nat | i < Depth(rs[k].stackElem) :: FrameNames(rs[k].stackElem[i].value).Within(NamesIn(rs))
  {
    hide NamesIn, RecordNamesUpTo, RecordNames;
    NamesOfPrefix(rs, k + 1);
    NamesSnoc(rs, k);
    NamesUpTo(rs[k], 0);
    ClassIsHeld(rs[k]);
    forall i: nat | i < Depth(rs[k].stackElem)
      ensures FrameNames(rs[k].stackElem[i].value).Within(NamesIn(rs))
    {
      FrameIsHeld(rs[k], i);
      NamesUpTo(rs[k], i + 1);
    }
  }

  lemma ClassIsHeld(r: AllocRecord)
    ensures r.clazz in RecordNamesUpTo(r, 0).classes
  {
  }

  lemma FrameIsHeld(r: AllocRecord, i: nat)
    requires i < Depth(r.stackElem)
    ensures FrameNames(r.stackElem[i].value).Within(RecordNamesUpTo(r, i + 1))
  {
  }

  // ----- The report -----

  // what a written report has in memory
  ghost predicate Written(mem: Memory, rs: seq<AllocRecord>, t: Tables, text: nat -> seq<u2>) {
    && mem(0) == 15 && mem(1) == 9 && mem(2) == 8
    && Read2(mem, 3) == |rs| % 0x1_0000
    && Read2(mem, 9) == |t.classNames| && Read2(mem, 11) == |t.methodNames| && Read2(mem, 13) == |t.fileNames|
    && At(mem, 15, RecordsBytes(rs, t))
    && HasTable(mem, ClassTable(mem), t.classNames, text)
    && HasTable(mem, MethodTable(mem), t.methodNames, text)
    && HasTable(mem, FileTable(mem), t.fileNames, text)
  }

  lemma FrameIsRead(
    mem: Memory, at: nat, rs: seq<AllocRecord>, t: Tables, text: nat -> seq<u2>, f: Frame)
    requires Written(mem, rs, t, text) && TablesOf(t, rs) && FrameNames(f).Within(NamesIn(rs))
    requires At(mem, at, FrameBytes(f, t))
    ensures FrameReads(mem, at, f, text)
  {
    hide At, RecordsBytes, NamesIn, IndexIn, StringAt, HasTable, SetOf, Sorted, ClassTable, MethodTable, FileTable;
    hide Read2, Read4, FrameBytes;
    FrameNumbers(mem, at, f, t);
    IndexLooksUp(mem, ClassTable(mem), t.classNames, text, f.clazz);
    IndexLooksUp(mem, MethodTable(mem), t.methodNames, text, f.name);
    IndexLooksUp(mem, FileTable(mem), t.fileNames, text, SourceFile(f));
  }

  lemma EntryIsRead(mem: Memory, rs: seq<AllocRecord>, t: Tables, text: nat -> seq<u2>, k: nat)
    requires Written(mem, rs, t, text) && TablesOf(t, rs) && k < |rs| && forall r | r in rs :: |r.stackElem| <= 255
    ensures EntryReads(mem, EntryOffset(mem, k), rs[k], text)
  {
    hide At, RecordBytes, RecordsBytes, RecordsSize, NamesIn, RecordNames, IndexIn, StringAt, HasTable, SetOf, Sorted;
    hide ClassTable, MethodTable, FileTable, FramesBytes, Read2, Read4, FrameBytes, FrameReads, Names.Within;
    hide FrameNames;
    var r := rs[k];
    assert r in rs;
    EntriesAreThere(mem, rs, t, k);
    RecordIsThere(mem, rs, t, k);
    var at := 15 + RecordsSize(rs[..k]);
    EntryNumbers(mem, at, r, t);
    NamesAreHeld(rs, k);
    IndexLooksUp(mem, ClassTable(mem), t.classNames, text, r.clazz);
    forall i: nat | i < Depth(r.stackElem)
      ensures FrameReads(mem, at + 9 + 8 * i, r.stackElem[i].value, text)
    {
      FrameIsThere(mem, at + 9, r.stackElem, t, i);
      FrameIsRead(mem, at + 9 + 8 * i, rs, t, text, r.stackElem[i].value);
    }
  }

  lemma WrittenReads(mem: Memory, rs: seq<AllocRecord>, t: Tables, text: nat -> seq<u2>)
    requires Written(mem, rs, t, text) && TablesOf(t, rs) && forall r | r in rs :: |r.stackElem| <= 255
    ensures Reads(mem, rs, t, text)
  {
    hide At, TablesOf, EntryReads, StringAt, StringOffset, EntryOffset, TableBytes, RecordsBytes, TableSize;
    forall k: nat | k < |rs|
      ensures EntryReads(mem, EntryOffset(mem, k), rs[k], text)
    {
      EntryIsRead(mem, rs, t, text, k);
    }
    forall k: nat | k < |t.classNames|
      ensures StringAt(mem, ClassTable(mem), k) == text(t.classNames[k])
    {
      StringsRead(mem, ClassTable(mem), t.classNames, text, k);
    }
    forall k: nat | k < |t.methodNames|
      ensures StringAt(mem, MethodTable(mem), k) == text(t.methodNames[k])
    {
      StringsRead(mem, MethodTable(mem), t.methodNames, text, k);
    }
    forall k: nat | k < |t.fileNames|
      ensures StringAt(mem, FileTable(mem), k) == text(t.fileNames[k])
    {
      StringsRead(mem, FileTable(mem), t.fileNames, text, k);
    }
  }

  lemma HeaderReads(mem: Memory, rs: seq<AllocRecord>, t: Tables)
    requires At(mem, 0, HeaderBytes(|rs|, t, BaseSize(rs))) && BaseSize(rs) < TWO32
    ensures mem(0) == 15 && mem(1) == 9 && mem(2) == 8
    ensures Read2(mem, 3) == |rs| % 0x1_0000 && Read4(mem, 5) == BaseSize(rs)
    ensures Read2(mem, 9) == |t.classNames| % 0x1_0000 && Read2(mem, 11) == |t.methodNames| % 0x1_0000
    ensures Read2(mem, 13) == |t.fileNames| % 0x1_0000
  {
    hide At, BE2, BE4, Read2, Read4, BaseSize;
    var lengths: seq<u1> := [15, 9, 8];
    var count, base := BE2(|rs|), BE4(BaseSize(rs));
    var classes, methods, files := BE2(|t.classNames|), BE2(|t.methodNames|), BE2(|t.fileNames|);
    AtConcat(mem, 0, lengths + count + base + classes + methods, files);
    AtConcat(mem, 0, lengths + count + base + classes, methods);
    AtConcat(mem, 0, lengths + count + base, classes);
    AtConcat(mem, 0, lengths + count, base);
    AtConcat(mem, 0, lengths, count);
    ThreeBytes(mem, lengths);
    Reads2(mem, 3, |rs|);
    Reads4(mem, 5, BaseSize(rs));
    Reads2(mem, 9, |t.classNames|);
    Reads2(mem, 11, |t.methodNames|);
    Reads2(mem, 13, |t.fileNames|);
  }

  lemma ThreeBytes(mem: Memory, b: seq<u1>)
    requires |b| == 3 && At(mem, 0, b)
    ensures mem(0) == b[0] && mem(1) == b[1] && mem(2) == b[2]
  {
    assert mem(0 + 0) == b[0] && mem(0 + 1) == b[1] && mem(0 + 2) == b[2];
  }

  lemma SmallTables(t: Tables, rs: seq<AllocRecord>)
    requires TablesOf(t, rs) && Fits(NamesIn(rs))
    ensures |t.classNames| <= MAX_POINTERS && |t.methodNames| <= MAX_POINTERS && |t.fileNames| <= MAX_POINTERS
  {
    hide NamesIn;
    SortedSize(t.classNames);
    SortedSize(t.methodNames);
    SortedSize(t.fileNames);
  }

  lemma ShortTexts(t: Tables, rs: seq<AllocRecord>, text: nat -> seq<u2>)
    requires TablesOf(t, rs) && forall p | p in NamesIn(rs).All() :: |text(p)| < TWO32
    ensures forall p | p in t.classNames || p in t.methodNames || p in t.fileNames :: |text(p)| < TWO32
  {
    hide NamesIn, Sorted;
    forall p | p in t.classNames || p in t.methodNames || p in t.fileNames
      ensures |text(p)| < TWO32
    {
      assert p in NamesIn(rs).All();
    }
  }

  // The bytes of a report read as the records it is about.
  lemma ReportReads(rs: seq<AllocRecord>, t: Tables, text: nat -> seq<u2>)
    requires TablesOf(t, rs) && Fits(NamesIn(rs)) && InMemory(rs, text)
    ensures Reads(Bytes(ReportBytes(rs, t, text)), rs, t, text)
  {
    hide At, HeaderBytes, RecordsBytes, TableBytes, BaseSize, TablesOf, Fits, NamesIn, Reads, Read2, Read4;
    hide StringOffset, TableSize, Bytes;
    var mem := Bytes(ReportBytes(rs, t, text));
    var base, classes := BaseBytes(rs, t), TableBytes(t.classNames, text);
    var methods, files := TableBytes(t.methodNames, text), TableBytes(t.fileNames, text);
    BytesAreThere(ReportBytes(rs, t, text));
    AtConcat(mem, 0, base + classes + methods, files);
    AtConcat(mem, 0, base + classes, methods);
    AtConcat(mem, 0, base, classes);
    AtConcat(mem, 0, HeaderBytes(|rs|, t, BaseSize(rs)), RecordsBytes(rs, t));
    HeaderReads(mem, rs, t);
    SmallTables(t, rs);
    ShortTexts(t, rs, text);
    TableEnds(mem, ClassTable(mem), t.classNames, text);
    TableEnds(mem, MethodTable(mem), t.methodNames, text);
    WrittenReads(mem, rs, t, text);
  }

  lemma BytesAreThere(b: seq<u1>)
    ensures At(Bytes(b), 0, b)
  {
  }

  lemma TableEnds(mem: Memory, at: nat, table: seq<nat>, text: nat -> seq<u2>)
    requires At(mem, at, TableBytes(table, text)) && forall p | p in table :: |text(p)| < TWO32
    ensures StringOffset(mem, at, |table|) == at + |TableBytes(table, text)|
  {
    hide At, TableBytes, TableSize, StringOffset;
    StringsRead(mem, at, table, text, |table|);
    assert table[..|table|] == table;
  }
}
