// The allocation tracker of vm/AllocTracker.cpp: a ring of the last allocations.

module AllocTracker {
  import opened Common
  import opened Bits
  import opened AllocReport
  import opened PointerSets
  import ReportReader

  // ----- The ring -----

  lemma WrapsLikeClipping(a: nat, max: nat)
    requires max > 0
    ensures Masked(a + 1, max) == if Masked(a, max) + 1 == max then 0 else Masked(a, max) + 1
  {
    var q, r := a / max, a % max;
    assert a == q * max + r;
    if r + 1 == max {
      assert a + 1 == (q + 1) * max + 0;
      RemainderIs(a + 1, q + 1, max, 0);
    } else {
      RemainderIs(a + 1, q, max, r + 1);
    }
  }

  lemma WrapsAround(a: nat, max: nat)
    requires max > 0
    ensures Masked(a + max, max) == Masked(a, max)
  {
    var q, r := a / max, a % max;
    assert a + max == (q + 1) * max + r;
    RemainderIs(a + max, q + 1, max, r);
  }

  lemma WrapsSum(a: nat, b: nat, max: nat)
    requires max > 0
    ensures Masked(Masked(a, max) + b, max) == Masked(a + b, max)
  {
    var q, r := a / max, a % max;
    var s, t := (r + b) / max, (r + b) % max;
    assert a == q * max + r && r + b == s * max + t;
    assert (q + s) * max == q * max + s * max;
    RemainderIs(a + b, q + s, max, t);
  }

  // Numbers less than max apart have different places.
  lemma WindowIsApart(i: nat, j: nat, max: nat)
    requires i < j < i + max
    ensures Masked(i, max) != Masked(j, max)
  {
    if Masked(i, max) == Masked(j, max) {
      var d := j / max - i / max;
      assert i == i / max * max + i % max && j == j / max * max + j % max;
      assert d * max == j - i;
      SmallMultiple(d, max);
    }
  }

  // ----- The number of records -----

  const DEFAULT_NUM_ALLOC_RECORDS := 0x1_0000

  ghost predicate IsPower(n: nat) {
    exists k: nat :: n == Power2(k)
  }

  // getAllocRecordMax, given the value of the system property if there is one
  function RecordMax(property: Option<Word>): nat {
    match property
    case None => DEFAULT_NUM_ALLOC_RECORDS
    case Some(value) => if IsPowerOfTwo(value) then Value(value) else DEFAULT_NUM_ALLOC_RECORDS
  }

  predicate IsPowerOfTwo(x: Word) {
    x & (x - 1) == 0
  }

  // It is a power of two, unless the property is 0, which passes for one.
  lemma RecordMaxIsPower(property: Option<Word>)
    ensures if property == Some(0) then RecordMax(property) == 0 else IsPower(RecordMax(property))
  {
    if property.Some? && property != Some(0) && IsPowerOfTwo(property.value) {
      NonZeroIsPower(property.value);
      var k := PowerWord(property.value);
    } else {
      assert Power2(8) == 0x100;
      assert Power2(16) == DEFAULT_NUM_ALLOC_RECORDS;
    }
  }

  lemma NonZeroIsPower(x: Word)
    requires IsPowerOfTwo(x) && x != 0
    ensures IsPower2(x)
  {
  }

  function Min(a: nat, b: nat): nat {
    if a < b then a else b
  }

  class Tracker {
    var records: array?<AllocRecord>
    var recordMax: nat
    var head: nat
    var count: nat
    // the allocations tracked since the tracker was enabled
    ghost var history: seq<AllocRecord>

    ghost predicate Valid()
      reads this, records
    {
      records != null ==>
        && recordMax == records.Length
        && (if recordMax == 0 then count == 0 && history == [] else IsPower(recordMax) && KeepsLast())
    }

    // the ring holds the last allocations
    ghost predicate KeepsLast()
      requires records != null && recordMax == records.Length > 0
      reads this, records
    {
      && count == Min(|history|, recordMax)
      && head == Masked(|history|, recordMax)
      && forall i | |history| - count <= i < |history| :: InPlace(i)
    }

    // enabled, with room for records
    ghost predicate Ready()
      reads this
    {
      records != null && recordMax > 0
    }

    // The i-th allocation is in the slot after i, going round.
    ghost predicate InPlace(i: nat)
      requires records != null && recordMax == records.Length > 0 && i < |history|
      reads this, records
    {
      records[Masked(i + 1, recordMax)] == history[i]
    }

    constructor ()
      ensures Valid() && records == null
    {
      records := null;
      recordMax, head, count, history := 0, 0, 0, [];
    }

    // dvmEnableAllocTracker
    method Enable(property: Option<Word>)
      requires Valid()
      modifies this
      ensures Valid() && records != null && (old(records) == null ==> fresh(records))
      ensures old(records) == null ==> history == [] && recordMax == RecordMax(property)
      ensures old(records) != null ==> history == old(history) && recordMax == old(recordMax) && records == old(records)
    {
      if records == null {
        RecordMaxIsPower(property);
        recordMax := RecordMax(property);
        head, count := 0, 0;
        var nothing := AllocRecord(0, 0, 0, []);
        records := new AllocRecord[recordMax](_ => nothing);
        history := [];
        if recordMax > 0 {
          assert 0 == 0 * recordMax + 0;
          RemainderIs(0, 0, recordMax, 0);
        }
      }
    }

    // dvmDisableAllocTracker
    method Disable()
      requires Valid()
      modifies this`records
      ensures Valid() && records == null
    {
      records := null;
    }

    // dvmDoTrackAllocation; it stores behind the block exactly if that has no room at all
    method Track(rec: AllocRecord) returns (inside: bool)
      requires Valid()
      modifies this, records
      ensures Valid() && records == old(records) && recordMax == old(recordMax)
      ensures inside <==> records == null || recordMax > 0
      ensures Ready() ==> history == old(history) + [rec]
    {
      if records == null {
        return true;
      }
      if recordMax == 0 {
        // the head becomes 1, which is not clipped
        return false;
      }
      hide Masked, IsPower;
      ghost var n := |history|;
      WrapsLikeClipping(n, recordMax);
      head := head + 1;
      if head == recordMax {
        head := 0;
      }
      records[head] := rec;
      if count < recordMax {
        count := count + 1;
      }
      history := history + [rec];
      forall i | n + 1 - count <= i < n
        ensures InPlace(i)
      {
        assert old(InPlace(i));
        WindowIsApart(i + 1, n + 1, recordMax);
      }
      assert InPlace(n);
      inside := true;
    }

    // headIndex
    function HeadIndex(): (idx: nat)
      requires Ready() && count <= recordMax
      reads this
      ensures idx < recordMax
    {
      Masked(head + 1 + recordMax - count, recordMax)
    }

    lemma HeadIsOldest()
      requires Valid() && Ready()
      ensures HeadIndex() == Masked(|history| - count + 1, recordMax)
    {
      var n := |history|;
      WrapsSum(n, 1 + recordMax - count, recordMax);
      WrapsAround(n - count + 1, recordMax);
    }

    // what a walk over the ring yields
    ghost function Tracked(): seq<AllocRecord>
      requires count <= |history|
      reads this
    {
      history[|history| - count..]
    }

    // The walk that the report and the dump make: the last allocations, oldest first.
    method Walk() returns (visited: seq<AllocRecord>)
      requires Valid() && Ready()
      ensures count == Min(|history|, recordMax) && visited == Tracked()
    {
      hide Masked, IsPower;
      HeadIsOldest();
      ghost var first: nat := |history| - count;
      visited := [];
      var left: nat, idx: nat := count, HeadIndex();
      while left != 0
        invariant left <= count && |visited| == count - left
        invariant idx == Masked(first + |visited| + 1, recordMax)
        invariant visited == history[first..first + |visited|]
      {
        left := left - 1;
        assert InPlace(first + |visited|);
        visited := visited + [records[idx]];
        WrapsSum(first + |visited|, 1, recordMax);
        idx := Masked(idx + 1, recordMax);
      }
    }

    // the k-th record of a walk
    lemma AtCursor(idx: nat, k: nat)
      requires Valid() && Ready() && k < count && idx == Masked(|history| - count + k + 1, recordMax)
      ensures records[idx] == Tracked()[k]
      ensures Masked(idx + 1, recordMax) == Masked(|history| - count + k + 2, recordMax)
    {
      hide Masked;
      assert InPlace(|history| - count + k);
      WrapsSum(|history| - count + k + 1, 1, recordMax);
    }

    // Part 1 of dvmGenerateTrackedAllocationReport: the three sets, filled by populateStringTables, which stays inside
    // their lists exactly if there are not too many names.
    method PopulateStringTables() returns (okay: bool, names: NameSets)
      requires Valid() && Ready()
      ensures names.Valid() && fresh(names.Repr())
      ensures okay <==> Fits(NamesIn(Tracked()))
      ensures okay ==> TablesOf(names.AsTables(), Tracked())
    {
      hide Masked, NameSets.Valid, NameSets.Held, NameSets.AsTables, NamesIn, Fits, Valid, HeadIndex, Tracked;
      hide SetOf, Sorted;
      HeadIsOldest();
      TrackedLength();
      names := new NameSets();
      ghost var rs := Tracked();
      var idx := HeadIndex();
      var left: nat := count;
      NoNames(rs);
      while left != 0
        invariant left <= count && idx == Masked(|history| - left + 1, recordMax)
        invariant Valid() && Tracked() == rs
        invariant names.Valid() && fresh(names.Repr()) && names.Held() == NamesIn(rs[..count - left])
      {
        okay := PopulateFrom(names, idx, count - left);
        left := left - 1;
        if !okay {
          return;
        }
        idx := Masked(idx + 1, recordMax);
      }
      assert rs[..count] == rs;
      names.TablesAre();
      okay := true;
    }

    // one round of its loop
    method PopulateFrom(names: NameSets, idx: nat, ghost k: nat) returns (okay: bool)
      requires Valid() && Ready() && k < count && idx == Masked(|history| - count + k + 1, recordMax)
      requires names.Valid() && this !in names.Repr() && records !in names.Repr()
      requires count == |Tracked()| && names.Held() == NamesIn(Tracked()[..k])
      modifies names.Repr()
      ensures Valid() && Tracked() == old(Tracked())
      ensures names.Valid() && fresh(names.Repr() - old(names.Repr()))
      ensures okay ==> names.Held() == NamesIn(old(Tracked())[..k + 1])
      ensures okay ==> Masked(idx + 1, recordMax) == Masked(|history| - count + k + 2, recordMax)
      ensures !okay ==> !Fits(NamesIn(old(Tracked())))
    {
      hide Masked, NameSets.Valid, NameSets.Held, RecordNames, NamesIn, Fits, KeepsLast, IsPower, Names.Join;
      TrackedLength();
      ghost var rs := Tracked();
      AtCursor(idx, k);
      NamesSnoc(rs, k);
      okay := names.AddRecord(records[idx]);
      if !okay {
        StillTooMany(rs, k + 1);
      }
    }

    // generateBaseOutput: without a buffer it only computes the size
    method GenerateBaseOutput(buffer: array?<u1>, baseLen: nat, names: NameSets) returns (size: nat)
      requires Valid() && Ready() && names.Valid()
      requires buffer != null ==> BaseSize(Tracked()) <= buffer.Length
      modifies buffer
      ensures size == BaseSize(Tracked())
      ensures buffer != null ==>
                buffer[..size] ==
                  HeaderBytes(|Tracked()|, names.AsTables(), baseLen) + RecordsBytes(Tracked(), names.AsTables())
    {
      hide Masked, NameSets.Valid, NameSets.AsTables, RecordBytes, RecordSize, RecordsBytes, RecordsSize;
      hide HeaderBytes, Depth;
      HeadIsOldest();
      if buffer != null {
        WriteHeader(buffer, count, baseLen, names);
      }
      size := OutputRecords(buffer, MESSAGE_HEADER_LEN, names);
    }

    // the loop over the records in generateBaseOutput
    method OutputRecords(buffer: array?<u1>, start: nat, names: NameSets) returns (at: nat)
      requires Valid() && Ready() && names.Valid()
      requires buffer != null ==> start + RecordsSize(Tracked()) <= buffer.Length
      modifies buffer
      ensures names.Valid() && names.AsTables() == old(names.AsTables())
      ensures at == start + RecordsSize(Tracked())
      ensures buffer != null ==> buffer[..at] == old(buffer[..start]) + RecordsBytes(Tracked(), names.AsTables())
    {
      hide Masked, NameSets.Valid, NameSets.AsTables, RecordBytes, RecordSize, RecordsBytes, RecordsSize;
      hide InPlace, KeepsLast, IsPower, Valid, HeadIndex, Tracked;
      HeadIsOldest();
      TrackedLength();
      ghost var rs, t := Tracked(), names.AsTables();
      ghost var before := if buffer == null then [] else buffer[..start];
      NoRecords(t);
      assert rs[..0] == [];
      RecordsFit(rs, 0);
      at := start;
      var idx := HeadIndex();
      var left: nat := count;
      while left != 0
        invariant left <= count && idx == Masked(|history| - left + 1, recordMax)
        invariant Valid() && Tracked() == rs && names.Valid() && names.AsTables() == t
        invariant at == start + RecordsSize(rs[..count - left])
        invariant buffer != null ==> at <= buffer.Length && buffer[..at] == before + RecordsBytes(rs[..count - left], t)
      {
        ghost var k := count - left;
        left := left - 1;
        AtCursor(idx, k);
        RecordsSnoc(rs, k, t);
        RecordsFit(rs, k + 1);
        at := OutputRecord(buffer, at, records[idx], names);
        idx := Masked(idx + 1, recordMax);
      }
      assert rs[..count] == rs;
    }

    lemma TrackedLength()
      requires Valid() && Ready()
      ensures count <= |history| && |Tracked()| == count && recordMax == records.Length > 0 && count <= recordMax
    {
    }

    lemma ReadReport(data: seq<u1>, t: Tables, text: nat -> seq<u2>)
      requires count <= |history| && data == ReportBytes(Tracked(), t, text)
      requires TablesOf(t, Tracked()) && Fits(NamesIn(Tracked()))
      ensures ReportReader.InMemory(Tracked(), text) ==> ReportReader.Reads(Bytes(data), Tracked(), t, text)
    {
      hide NamesIn, TablesOf, Fits, ReportReader.InMemory, ReportReader.Reads, Bytes;
      if ReportReader.InMemory(Tracked(), text) {
        ReportReader.ReportReads(Tracked(), t, text);
      }
    }

    // dvmGenerateTrackedAllocationReport. It stays inside its lists exactly if there are not too many names, and then
    // the report is right.
    method Report(mem: Memory, ghost text: nat -> seq<u2>)
      returns (okay: bool, data: array<u1>, dataLen: nat, ghost t: Tables)
      requires Valid() && Ready()
      requires forall p | p in NamesIn(Tracked()).All() :: Mutf8.Decodes(mem, p, text(p))
      ensures okay <==> Fits(NamesIn(Tracked()))
      ensures okay ==>
                && data[..] == ReportBytes(Tracked(), t, text) && dataLen == |ReportBytes(Tracked(), t, text)|
                && TablesOf(t, Tracked())
      ensures okay && ReportReader.InMemory(Tracked(), text) ==>
                ReportReader.Reads(Bytes(data[..]), Tracked(), t, text)
    {
      hide NamesIn, HeaderBytes, RecordsBytes, RecordsSize, TableBytes, TableSize, Readable, TablesOf, InPlace,
        NameSets.Valid, NameSets.AsTables, Fits, ReportReader.InMemory, ReportReader.Reads, Bytes;
      TrackedLength();
      var names;
      okay, names := PopulateStringTables();
      t := names.AsTables();
      if !okay {
        data, dataLen := new u1[0], 0;
        return;
      }
      TablesAreReadable(mem, text, Tracked(), t);

      var baseSize := GenerateBaseOutput(null, 0, names);
      var totalSize := TotalSize(mem, baseSize, names, text);

      data := new u1[totalSize];
      dataLen := totalSize;
      var _ := GenerateBaseOutput(data, baseSize, names);
      assert names.AsTables() == t;
      var strPtr := OutputTables(mem, names, data, baseSize, text);
      if strPtr != totalSize {
        // the code aborts here
        assert false;
      }
      assert data[..] == data[..strPtr];
      ReadReport(data[..], t, text);
    }

    // the sum of the sizes, in the second part of dvmGenerateTrackedAllocationReport
    method TotalSize(mem: Memory, baseSize: nat, names: NameSets, ghost text: nat -> seq<u2>) returns (totalSize: nat)
      requires names.Valid() && Readable(mem, text, names.AsTables())
      ensures totalSize == baseSize + TablesSize(names.AsTables(), text)
    {
      hide TableSize, Sorted;
      totalSize := baseSize;
      var size := ComputeStringTableSize(mem, names.classNames, text);
      totalSize := totalSize + size;
      size := ComputeStringTableSize(mem, names.methodNames, text);
      totalSize := totalSize + size;
      size := ComputeStringTableSize(mem, names.fileNames, text);
      totalSize := totalSize + size;
    }

    // the string tables, in its third part
    method OutputTables(mem: Memory, names: NameSets, buffer: array<u1>, baseSize: nat, ghost text: nat -> seq<u2>)
      returns (strPtr: nat)
      requires names.Valid() && Readable(mem, text, names.AsTables())
      requires baseSize + TablesSize(names.AsTables(), text) <= buffer.Length
      modifies buffer
      ensures names.Valid() && names.AsTables() == old(names.AsTables())
      ensures strPtr == baseSize + TablesSize(names.AsTables(), text)
      ensures buffer[..strPtr] == old(buffer[..baseSize]) + TableBytes(names.AsTables().classNames, text)
              + TableBytes(names.AsTables().methodNames, text) + TableBytes(names.AsTables().fileNames, text)
    {
      hide TableBytes, TableSize, Sorted;
      strPtr := baseSize;
      var done := OutputStringTable(mem, names.classNames, buffer, strPtr, text);
      strPtr := strPtr + done;
      done := OutputStringTable(mem, names.methodNames, buffer, strPtr, text);
      strPtr := strPtr + done;
      done := OutputStringTable(mem, names.fileNames, buffer, strPtr, text);
      strPtr := strPtr + done;
    }
  }

  datatype Op = Enable(property: Option<Word>) | Disable | Allocate(rec: AllocRecord)

  // The maximum and the allocations since the tracker was last enabled; None while it is disabled.
  function Since(ops: seq<Op>): Option<(nat, seq<AllocRecord>)> {
    if ops == [] then None
    else
      var before := Since(ops[..|ops| - 1]);
      match ops[|ops| - 1]
      case Enable(property) => if before == None then Some((RecordMax(property), [])) else before
      case Disable => None
      case Allocate(rec) => if before == None then None else Some((before.value.0, before.value.1 + [rec]))
  }

  // Nothing is allocated while the tracker is enabled with room for no record.
  predicate StaysInside(ops: seq<Op>) {
    ops == []
    || (var front, last := ops[..|ops| - 1], ops[|ops| - 1];
        StaysInside(front) && !(last.Allocate? && Since(front).Some? && Since(front).value.0 == 0))
  }

  lemma {:induction false} PrefixStaysInside(ops: seq<Op>, n: nat)
    requires StaysInside(ops) && n <= |ops|
    ensures StaysInside(ops[..n])
  {
    if n < |ops| {
      PrefixStaysInside(ops[..|ops| - 1], n);
      assert ops[..|ops| - 1][..n] == ops[..n];
    } else {
      assert ops[..n] == ops;
    }
  }

  // After any run a walk yields the last min(n, max) of the n allocations since the tracker was enabled. The run stays
  // inside the records unless it allocates under a configured maximum of 0.
  method Run(ops: seq<Op>) returns (inside: bool, visited: Option<seq<AllocRecord>>)
    ensures inside <==> StaysInside(ops)
    ensures inside ==> visited == match Since(ops)
                                  case None => None
                                  case Some((max, history)) => Some(history[|history| - Min(|history|, max)..])
  {
    hide Tracker.KeepsLast, IsPower, RecordMax;
    var tracker := new Tracker();
    inside, visited := true, None;
    var i := 0;
    while i < |ops|
      invariant i <= |ops| && tracker.Valid() && fresh(tracker) && inside && StaysInside(ops[..i])
      invariant tracker.records != null ==> fresh(tracker.records)
      invariant tracker.records == null <==> Since(ops[..i]) == None
      invariant tracker.records != null ==> Since(ops[..i]) == Some((tracker.recordMax, tracker.history))
    {
      assert ops[..i + 1][..i] == ops[..i];
      match ops[i] {
        case Enable(property) => tracker.Enable(property);
        case Disable => tracker.Disable();
        case Allocate(rec) => inside := tracker.Track(rec);
      }
      i := i + 1;
      if !inside {
        if StaysInside(ops) {
          PrefixStaysInside(ops, i);
        }
        return;
      }
    }
    assert ops[..i] == ops;
    if tracker.records == null {
      return;
    }
    if tracker.recordMax == 0 {
      assert tracker.history[|tracker.history|..] == [];
      visited := Some([]);
    } else {
      var walked := tracker.Walk();
      visited := Some(walked);
    }
  }
}
