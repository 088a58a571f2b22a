// The mutex-free cache of vm/AtomicCache.h and vm/AtomicCache.cpp, as interleaved atomic steps of any
// number of threads on one cache entry.
//
// Each step is one load, store or compare-and-swap of the entry. The barriers of the source order the
// version accesses against the field accesses, but not the field accesses among themselves, so the three
// field loads of a reader and the three field stores of a writer may happen in any order.

module AtomicCache {
  import opened Common

  // The function ATOMIC_CACHE_CALC: the value that belongs to a pair of keys.
  type Calc = (u4, u4) -> u4

  const LOCK_FLAG := 0x8000_0000

  predicate Locked(v: u4) {
    v >= LOCK_FLAG
  }

  // v & ~ATOMIC_LOCK_FLAG
  function Counter(v: u4): u4 {
    v % LOCK_FLAG
  }

  // v | ATOMIC_LOCK_FLAG
  function SetLock(v: u4): u4 {
    if Locked(v) then v else v + LOCK_FLAG
  }

  // The flag is the top bit of 32, and the counter is the others.
  lemma FlagIsTopBit(v: u4)
    ensures Locked(v) <==> v >= 0x8000_0000
    ensures v == Counter(v) + (if Locked(v) then 0x8000_0000 else 0) && 0 <= Counter(v) < 0x8000_0000
    ensures SetLock(v) == Counter(v) + 0x8000_0000
  {
  }

  // 32-bit increment
  function Inc(v: u4): u4 {
    (v + 1) % TWO32
  }

  predicate Even(v: u4) {
    v % 2 == 0
  }

  datatype Entry = Entry(key1: u4, key2: u4, value: u4, version: u4) {
    predicate SameFields(that: Entry) {
      key1 == that.key1 && key2 == that.key2 && value == that.value
    }

    predicate Holds(k1: u4, k2: u4, v: u4) {
      key1 == k1 && key2 == k2 && value == v
    }
  }

  // What one thread is doing.
  datatype Thread =
    | Idle
    // entered ATOMIC_CACHE_LOOKUP, about to load the first version
    | Looking(k1: u4, k2: u4)
    // between the two version loads; a field is Some once it has been loaded
    | Reading(k1: u4, k2: u4, first: u4, key1: Option<u4>, key2: Option<u4>, val: Option<u4>)
    // in dvmUpdateAtomicCache, about to take the lock flag
    | Updating(k1: u4, k2: u4, calculated: u4, first: u4)
    // lock flag taken, about to store the odd version
    | Owning(k1: u4, k2: u4, calculated: u4, first: u4)
    // odd version stored, some of the three fields stored
    | Storing(k1: u4, k2: u4, calculated: u4, first: u4, stored1: bool, stored2: bool, stored3: bool)
    // even version stored, about to clear the lock flag
    | Releasing(k1: u4, k2: u4, calculated: u4, first: u4)
    // the lookup returned; hit says whether the value came from the cache
    | Done(k1: u4, k2: u4, result: u4, hit: bool)
    // dvmAbort
    | Aborted

  datatype State = State(entry: Entry, threads: map<nat, Thread>)

  // ----- Steps of a reader (vm/AtomicCache.h) -----

  predicate LookupStep(calculate: Calc, e: Entry, th: Thread, e': Entry, th': Thread) {
    match th
    case Looking(k1, k2) =>
      e' == e && th' == Reading(k1, k2, e.version, None, None, None)
    case Reading(k1, k2, first, key1, key2, val) =>
      && e' == e
      && (|| (key1.None? && th' == th.(key1 := Some(e.key1)))
          || (key2.None? && th' == th.(key2 := Some(e.key2)))
          || (val.None? && th' == th.(val := Some(e.value)))
          // a key differs: calculate, and perhaps try to update the entry
          || (((key1.Some? && key1.value != k1) || (key2.Some? && key2.value != k2))
              && (|| th' == Done(k1, k2, calculate(k1, k2), false)
                  || th' == Updating(k1, k2, calculate(k1, k2), first)))
          // both keys match: load the second version and compare
          || (key1 == Some(k1) && key2 == Some(k2) && val.Some?
              && th' == if !Even(first) || first != e.version
                        then Done(k1, k2, calculate(k1, k2), false)
                        else Done(k1, k2, val.value, true)))
    case _ => false
  }

  // ----- Steps of a writer (dvmUpdateAtomicCache) -----

  // the version stored after the three fields
  function EvenVersion(first: u4): u4 {
    Inc(Inc(SetLock(first)))
  }

  predicate UpdateStep(e: Entry, th: Thread, e': Entry, th': Thread) {
    match th
    case Updating(k1, k2, v, first) =>
      if Locked(first) || e.version != first then
        e' == e && th' == Done(k1, k2, v, false)
      else
        e' == e.(version := SetLock(first)) && th' == Owning(k1, k2, v, first)
    case Owning(k1, k2, v, first) =>
      && e' == e.(version := Inc(SetLock(first)))
      && th' == Storing(k1, k2, v, first, false, false, false)
    case Storing(k1, k2, v, first, s1, s2, s3) =>
      || (!s1 && e' == e.(key1 := k1) && th' == th.(stored1 := true))
      || (!s2 && e' == e.(key2 := k2) && th' == th.(stored2 := true))
      || (!s3 && e' == e.(value := v) && th' == th.(stored3 := true))
      || (s1 && s2 && s3
          && e' == e.(version := EvenVersion(first)) && th' == Releasing(k1, k2, v, first))
    case Releasing(k1, k2, v, first) =>
      if e.version == EvenVersion(first) then
        e' == e.(version := Counter(EvenVersion(first))) && th' == Done(k1, k2, v, false)
      else
        e' == e && th' == Aborted
    case _ => false
  }

  predicate ThreadStep(calculate: Calc, e: Entry, th: Thread, e': Entry, th': Thread) {
    // a new lookup begins
    || ((th.Idle? || th.Done?) && e' == e && th'.Looking?)
    || LookupStep(calculate, e, th, e', th')
    || UpdateStep(e, th, e', th')
  }

  predicate StepBy(calculate: Calc, s: State, s': State, t: nat) {
    && t in s.threads && t in s'.threads
    && s'.threads == s.threads[t := s'.threads[t]]
    && ThreadStep(calculate, s.entry, s.threads[t], s'.entry, s'.threads[t])
  }

  ghost predicate Step(calculate: Calc, s: State, s': State) {
    exists t :: StepBy(calculate, s, s', t)
  }

  ghost predicate StepAt(calculate: Calc, run: seq<State>, i: nat)
    requires 0 < i < |run|
  {
    Step(calculate, run[i - 1], run[i])
  }

  // Entries are calloc'd and no lookup is under way.
  predicate Init(s: State) {
    s.entry == Entry(0, 0, 0, 0) && forall t | t in s.threads :: s.threads[t].Idle?
  }

  // The source does not deal with a counter that overflows into the lock flag; a run in which
  // the counter gets there is outside the model.
  predicate NoOverflow(s: State) {
    Counter(s.entry.version) < LOCK_FLAG - 1
  }

  ghost predicate IsRun(calculate: Calc, run: seq<State>) {
    && |run| > 0 && Init(run[0])
    && (forall s | s in run :: NoOverflow(s))
    && (forall i | 0 < i < |run| :: StepAt(calculate, run, i))
  }

  // ----- What every reachable state satisfies -----

  predicate InUpdate(th: Thread) {
    th.Owning? || th.Storing? || th.Releasing?
  }

  // An even version promises that the three fields belong together.
  predicate Consistent(calculate: Calc, e: Entry) {
    e.value == calculate(e.key1, e.key2) || e.Holds(0, 0, 0)
  }

  // The two asserts of dvmUpdateAtomicCache about the version, where they are reached.
  predicate AssertsHold(th: Thread) {
    && (th.Owning? ==> Even(th.first) && !Even(Inc(SetLock(th.first))))
    && (th.Releasing? ==> EvenVersion(th.first) == SetLock((th.first + 2) % TWO32))
  }

  // What the owner of the lock flag knows about the entry.
  predicate OwnerInv(th: Thread, e: Entry)
    requires InUpdate(th)
  {
    && !Locked(th.first) && Even(th.first)
    && e.version == (match th
                     case Owning(_, _, _, first) => first + LOCK_FLAG
                     case Storing(_, _, _, first, _, _, _) => first + LOCK_FLAG + 1
                     case Releasing(_, _, _, first) => first + LOCK_FLAG + 2)
    && (th.Storing? ==>
          && (th.stored1 ==> e.key1 == th.k1)
          && (th.stored2 ==> e.key2 == th.k2)
          && (th.stored3 ==> e.value == th.calculated))
    && (th.Releasing? ==> e.Holds(th.k1, th.k2, th.calculated))
  }

  // As long as the counter has not moved past an even first version, what was loaded is what is there.
  predicate ReaderInv(th: Thread, e: Entry)
    requires th.Reading?
  {
    Even(th.first) ==>
      && Counter(th.first) <= Counter(e.version)
      && (Counter(th.first) == Counter(e.version) ==>
            && (th.key1.Some? ==> th.key1.value == e.key1)
            && (th.key2.Some? ==> th.key2.value == e.key2)
            && (th.val.Some? ==> th.val.value == e.value))
  }

  // The only wrong answer a lookup can give is the zero of a never-written entry for keys (0, 0).
  predicate GoodResult(calculate: Calc, th: Thread)
    requires th.Done?
  {
    th.result == calculate(th.k1, th.k2) || (th.hit && th.k1 == 0 && th.k2 == 0 && th.result == 0)
  }

  predicate ThreadInv(calculate: Calc, th: Thread, e: Entry) {
    && !th.Aborted?
    && (InUpdate(th) ==> OwnerInv(th, e))
    && (InUpdate(th) || th.Updating? ==> th.calculated == calculate(th.k1, th.k2))
    && (th.Reading? ==> ReaderInv(th, e))
    && (th.Done? ==> GoodResult(calculate, th))
  }

  ghost predicate Exclusive(s: State) {
    forall t, u | t in s.threads && u in s.threads && InUpdate(s.threads[t]) && InUpdate(s.threads[u]) :: t == u
  }

  ghost predicate Inv(calculate: Calc, s: State) {
    && (Even(s.entry.version) ==> Consistent(calculate, s.entry))
    && (!Even(s.entry.version) ==> Locked(s.entry.version))
    && (Locked(s.entry.version) <==> exists t :: t in s.threads && InUpdate(s.threads[t]))
    && Exclusive(s)
    && (forall t | t in s.threads :: ThreadInv(calculate, s.threads[t], s.entry))
  }

  // The invariant seen from one moving thread: it is kept for that thread ...
  lemma LookupKeepsOwnInv(calculate: Calc, e: Entry, th: Thread, e': Entry, th': Thread)
    requires ThreadInv(calculate, th, e) && (Even(e.version) ==> Consistent(calculate, e))
    requires LookupStep(calculate, e, th, e', th')
    ensures e' == e && !InUpdate(th') && ThreadInv(calculate, th', e)
  {
    if th.Reading? && th'.Done? && th'.hit {
      assert Even(th.first) && e.version == th.first;
      assert e.Holds(th.k1, th.k2, th'.result);
    }
  }

  lemma VersionsOf(first: u4)
    requires first < LOCK_FLAG
    ensures SetLock(first) == first + LOCK_FLAG && Counter(first) == first
    ensures Inc(SetLock(first)) == (first + LOCK_FLAG + 1) % TWO32
    ensures first + 2 < LOCK_FLAG ==>
              && Inc(SetLock(first)) == first + LOCK_FLAG + 1
              && EvenVersion(first) == first + LOCK_FLAG + 2
              && Counter(EvenVersion(first)) == first + 2
    ensures Counter(first + LOCK_FLAG) == first
  {
  }

  lemma UpdateKeepsOwnInv(calculate: Calc, e: Entry, th: Thread, e': Entry, th': Thread)
    requires ThreadInv(calculate, th, e) && (Even(e.version) ==> Consistent(calculate, e))
    requires Counter(e.version) < LOCK_FLAG - 1 && Counter(e'.version) < LOCK_FLAG - 1
    requires !Even(e.version) ==> Locked(e.version)
    requires UpdateStep(e, th, e', th')
    ensures ThreadInv(calculate, th', e')
    ensures Even(e'.version) ==> Consistent(calculate, e')
    ensures !Even(e'.version) ==> Locked(e'.version)
    ensures InUpdate(th') ==> Locked(e'.version)
  {
    if !Locked(th.first) {
      VersionsOf(th.first);
    }
    match th
    case Updating(_, _, _, _) =>
    case Owning(_, _, _, first) => assert e'.version == first + LOCK_FLAG + 1;
    case Storing(_, _, _, first, _, _, _) => assert Counter(e.version) == first + 1;
    case Releasing(_, _, _, first) => assert Counter(e.version) == first + 2;
  }

  lemma StepKeepsOwnInv(calculate: Calc, s: State, s': State, t: nat)
    requires Inv(calculate, s) && NoOverflow(s) && NoOverflow(s') && StepBy(calculate, s, s', t)
    ensures ThreadInv(calculate, s'.threads[t], s'.entry)
    ensures Even(s'.entry.version) ==> Consistent(calculate, s'.entry)
    ensures !Even(s'.entry.version) ==> Locked(s'.entry.version)
    ensures InUpdate(s'.threads[t]) ==> Locked(s'.entry.version)
  {
    var th, th' := s.threads[t], s'.threads[t];
    assert ThreadInv(calculate, th, s.entry);
    if LookupStep(calculate, s.entry, th, s'.entry, th') {
      LookupKeepsOwnInv(calculate, s.entry, th, s'.entry, th');
    } else if UpdateStep(s.entry, th, s'.entry, th') {
      UpdateKeepsOwnInv(calculate, s.entry, th, s'.entry, th');
    }
  }

  // ... and the version and fields move only in ways the others can live with.
  lemma StepIsGentle(calculate: Calc, s: State, s': State, t: nat)
    requires Inv(calculate, s) && NoOverflow(s) && NoOverflow(s') && StepBy(calculate, s, s', t)
    ensures Counter(s.entry.version) <= Counter(s'.entry.version)
    ensures !s.entry.SameFields(s'.entry) ==> !Even(s.entry.version) && s.entry.version == s'.entry.version
    ensures s.entry != s'.entry ==> InUpdate(s.threads[t]) || (InUpdate(s'.threads[t]) && !Locked(s.entry.version))
    ensures s.entry.version != s'.entry.version ==>
              || s'.entry.version == SetLock(s.entry.version)
              || s'.entry.version == Counter(s.entry.version)
              || s'.entry.version == s.entry.version + 1
    ensures s.entry.version != s'.entry.version && s'.entry.version == s.entry.version + 1 ==> Locked(s.entry.version)
  {
    var th, th' := s.threads[t], s'.threads[t];
    assert ThreadInv(calculate, th, s.entry);
    if UpdateStep(s.entry, th, s'.entry, th') {
      if !Locked(th.first) {
        VersionsOf(th.first);
      }
    } else {
      assert s.entry == s'.entry;
    }
  }

  lemma StepKeepsOthersInv(calculate: Calc, s: State, s': State, t: nat, u: nat)
    requires Inv(calculate, s) && NoOverflow(s) && NoOverflow(s') && StepBy(calculate, s, s', t)
    requires u in s.threads && u != t
    ensures ThreadInv(calculate, s'.threads[u], s'.entry)
    ensures InUpdate(s'.threads[u]) ==> !InUpdate(s'.threads[t])
  {
    StepIsGentle(calculate, s, s', t);
    var th := s.threads[u];
    assert s'.threads[u] == th;
    assert ThreadInv(calculate, th, s.entry);
    assert ThreadInv(calculate, s.threads[t], s.entry);
    if InUpdate(th) {
      assert Locked(s.entry.version);
      assert !InUpdate(s.threads[t]);
    }
  }

  lemma StepKeepsInv(calculate: Calc, s: State, s': State, t: nat)
    requires Inv(calculate, s) && NoOverflow(s) && NoOverflow(s') && StepBy(calculate, s, s', t)
    ensures Inv(calculate, s')
  {
    StepKeepsOwnInv(calculate, s, s', t);
    forall u | u in s'.threads
      ensures ThreadInv(calculate, s'.threads[u], s'.entry)
      ensures u != t && InUpdate(s'.threads[u]) ==> !InUpdate(s'.threads[t])
    {
      if u != t {
        StepKeepsOthersInv(calculate, s, s', t, u);
      }
    }
    LockFollowsOwner(calculate, s, s', t);
  }

  lemma LockFollowsOwner(calculate: Calc, s: State, s': State, t: nat)
    requires Inv(calculate, s) && NoOverflow(s) && NoOverflow(s') && StepBy(calculate, s, s', t)
    ensures Locked(s'.entry.version) <==> exists u :: u in s'.threads && InUpdate(s'.threads[u])
  {
    StepKeepsOwnInv(calculate, s, s', t);
    StepIsGentle(calculate, s, s', t);
    if u :| u in s'.threads && InUpdate(s'.threads[u]) {
      if u != t {
        StepKeepsOthersInv(calculate, s, s', t, u);
        assert ThreadInv(calculate, s'.threads[u], s'.entry);
      }
    }
    if Locked(s'.entry.version) {
      assert ThreadInv(calculate, s.threads[t], s.entry);
      if !InUpdate(s'.threads[t]) {
        assert Locked(s.entry.version);
        var u :| u in s.threads && InUpdate(s.threads[u]);
        assert u != t;
        assert u in s'.threads && InUpdate(s'.threads[u]);
      } else {
        assert t in s'.threads && InUpdate(s'.threads[t]);
      }
    }
  }

  lemma {:induction false} RunInv(calculate: Calc, run: seq<State>, i: nat)
    requires IsRun(calculate, run) && i < |run|
    ensures Inv(calculate, run[i])
  {
    if i > 0 {
      RunInv(calculate, run, i - 1);
      assert StepAt(calculate, run, i);
      var t :| StepBy(calculate, run[i - 1], run[i], t);
      StepKeepsInv(calculate, run[i - 1], run[i], t);
    }
  }

  // ----- Main results -----

  // In every reachable state: one writer at most, its asserts hold, nobody has aborted, an odd
  // version carries the lock flag, and the flag is set exactly while some thread is updating.
  lemma WritersAreSafe(calculate: Calc, run: seq<State>, i: nat)
    requires IsRun(calculate, run) && i < |run|
    ensures Exclusive(run[i])
    ensures forall t | t in run[i].threads :: !run[i].threads[t].Aborted? && AssertsHold(run[i].threads[t])
    ensures !Even(run[i].entry.version) ==> Locked(run[i].entry.version)
    ensures Locked(run[i].entry.version) <==> exists t :: t in run[i].threads && InUpdate(run[i].threads[t])
  {
    RunInv(calculate, run, i);
    forall t | t in run[i].threads
      ensures !run[i].threads[t].Aborted? && AssertsHold(run[i].threads[t])
    {
      assert ThreadInv(calculate, run[i].threads[t], run[i].entry);
    }
  }

  // Fields change only under an odd version, and a step that changes them leaves the version alone.
  lemma FieldsChangeOnlyWhenOdd(calculate: Calc, run: seq<State>, i: nat)
    requires IsRun(calculate, run) && i + 1 < |run|
    requires !run[i].entry.SameFields(run[i + 1].entry)
    ensures !Even(run[i].entry.version) && run[i].entry.version == run[i + 1].entry.version
  {
    RunInv(calculate, run, i);
    assert StepAt(calculate, run, i + 1);
    var t :| StepBy(calculate, run[i], run[i + 1], t);
    StepIsGentle(calculate, run[i], run[i + 1], t);
  }

  lemma {:induction false} CounterIsMonotone(calculate: Calc, run: seq<State>, i: nat, j: nat)
    requires IsRun(calculate, run) && i <= j < |run|
    ensures Counter(run[i].entry.version) <= Counter(run[j].entry.version)
    decreases j
  {
    if i < j {
      CounterIsMonotone(calculate, run, i, j - 1);
      RunInv(calculate, run, j - 1);
      assert StepAt(calculate, run, j);
      var t :| StepBy(calculate, run[j - 1], run[j], t);
      StepIsGentle(calculate, run[j - 1], run[j], t);
    }
  }

  // The counter part of the version occupies one contiguous stretch of a run, and during an
  // even stretch the fields do not change.
  lemma {:induction false} CounterIsContiguous(calculate: Calc, run: seq<State>, i: nat, j: nat, k: nat)
    requires IsRun(calculate, run) && i <= j <= k < |run|
    requires Counter(run[i].entry.version) == Counter(run[k].entry.version)
    ensures Counter(run[j].entry.version) == Counter(run[i].entry.version)
    ensures Even(run[i].entry.version) ==> run[j].entry.SameFields(run[i].entry)
    decreases j
  {
    CounterIsMonotone(calculate, run, i, j);
    CounterIsMonotone(calculate, run, j, k);
    if i < j {
      CounterIsContiguous(calculate, run, i, j - 1, k);
      if !run[j - 1].entry.SameFields(run[j].entry) {
        FieldsChangeOnlyWhenOdd(calculate, run, j - 1);
      }
    }
  }

  predicate Owned(s: State) {
    exists t | t in s.threads :: s.threads[t].Owning?
  }

  lemma OwnedStep(calculate: Calc, s: State, s': State, t: nat)
    requires Inv(calculate, s) && Inv(calculate, s') && StepBy(calculate, s, s', t)
    requires Counter(s.entry.version) == Counter(s'.entry.version)
    ensures Owned(s) ==> Owned(s')
    ensures !Locked(s.entry.version) && Locked(s'.entry.version) ==> Owned(s')
  {
    assert ThreadInv(calculate, s.threads[t], s.entry);
    assert ThreadInv(calculate, s'.threads[t], s'.entry);
    if Owned(s) {
      var u :| u in s.threads && s.threads[u].Owning?;
      assert u != t;
      assert s'.threads[u].Owning?;
    } else if !Locked(s.entry.version) && Locked(s'.entry.version) {
      assert s'.threads[t].Owning?;
    }
  }

  lemma {:induction false} OwnedStays(calculate: Calc, run: seq<State>, i: nat, j: nat)
    requires IsRun(calculate, run) && i <= j < |run|
    requires Counter(run[i].entry.version) == Counter(run[j].entry.version)
    ensures Owned(run[i]) ==> Owned(run[j])
    ensures !Locked(run[i].entry.version) && Locked(run[j].entry.version) ==> Owned(run[j])
    decreases j
  {
    if i < j {
      CounterIsContiguous(calculate, run, i, j - 1, j);
      OwnedStays(calculate, run, i, j - 1);
      RunInv(calculate, run, j - 1);
      RunInv(calculate, run, j);
      assert StepAt(calculate, run, j);
      var t :| StepBy(calculate, run[j - 1], run[j], t);
      OwnedStep(calculate, run[j - 1], run[j], t);
    }
  }

  // The values of the version, flag included, fill one contiguous stretch of the run each.
  ghost predicate Contiguous(run: seq<State>, v: u4) {
    forall i, j, k | 0 <= i <= j <= k < |run| && run[i].entry.version == run[k].entry.version == v ::
      run[j].entry.version == v
  }

  ghost predicate AlwaysContiguous(calculate: Calc, v: u4) {
    forall run: seq<State> | IsRun(calculate, run) :: Contiguous(run, v)
  }

  // The value before the first update with the lock flag set: no thread can have released it.
  lemma FirstLockIsKept(calculate: Calc, run: seq<State>, i: nat, j: nat)
    requires IsRun(calculate, run) && i <= j < |run|
    requires run[i].entry.version == LOCK_FLAG && Counter(run[j].entry.version) == 0
    ensures run[j].entry.version == LOCK_FLAG
  {
    assert Owned(run[j]) by {
      OwnedStays(calculate, run, 0, i);
      OwnedStays(calculate, run, i, j);
    }
    RunInv(calculate, run, j);
  }

  // Only an even locked value can come back, and what comes between is its counter without the flag.
  lemma VersionIsAlmostContiguous(calculate: Calc, run: seq<State>, i: nat, j: nat, k: nat)
    requires IsRun(calculate, run) && i <= j <= k < |run|
    requires run[i].entry.version == run[k].entry.version != run[j].entry.version
    ensures Locked(run[i].entry.version) && Even(run[i].entry.version) && Counter(run[i].entry.version) > 0
    ensures run[j].entry.version == Counter(run[i].entry.version)
  {
    CounterIsContiguous(calculate, run, i, j, k);
    RunInv(calculate, run, j);
    if !Locked(run[i].entry.version) {
      OwnedStays(calculate, run, i, j);
      OwnedStays(calculate, run, j, k);
      RunInv(calculate, run, k);
    } else if Counter(run[i].entry.version) == 0 {
      FirstLockIsKept(calculate, run, i, j);
    }
  }

  // One release of each even counter can be reached, by a single thread that updates again and again.
  lemma {:induction false} ReleaseOf(calculate: Calc, c: u4) returns (run: seq<State>)
    requires Even(c) && 0 < c < LOCK_FLAG
    ensures IsRun(calculate, run) && |run| > 1 && StepBy(calculate, run[|run| - 2], run[|run| - 1], 0)
    ensures run[|run| - 2].threads[0].Releasing? && run[|run| - 2].entry.version == c + LOCK_FLAG
    ensures run[|run| - 1].threads[0].Done? && run[|run| - 1].entry.version == c
  {
    if c == 2 {
      run := [State(Entry(0, 0, 0, 0), map[0 := Idle])];
    } else {
      run := ReleaseOf(calculate, c - 2);
    }
    run := UpdateAgain(calculate, run, 0);
  }

  lemma UpdateAgain(calculate: Calc, run: seq<State>, t: nat) returns (longer: seq<State>)
    requires IsRun(calculate, run) && t in run[|run| - 1].threads
    requires run[|run| - 1].threads[t].Idle? || run[|run| - 1].threads[t].Done?
    requires Even(run[|run| - 1].entry.version) && run[|run| - 1].entry.version + 2 < LOCK_FLAG
    ensures IsRun(calculate, longer) && |longer| > 1
    ensures StepBy(calculate, longer[|longer| - 2], longer[|longer| - 1], t)
    ensures longer[|longer| - 2].threads[t].Releasing?
    ensures longer[|longer| - 2].entry.version == run[|run| - 1].entry.version + 2 + LOCK_FLAG
    ensures longer[|longer| - 1].threads[t].Done?
    ensures longer[|longer| - 1].entry.version == run[|run| - 1].entry.version + 2
  {
    hide IsRun, NoOverflow;
    LastHasRoom(calculate, run);
    var first := run[|run| - 1].entry.version;
    VersionsOf(first);
    longer := LockAgain(calculate, run, t);
    longer := StoreFields(calculate, longer, t);
    var e, th := longer[|longer| - 1].entry, longer[|longer| - 1].threads[t];
    var done := Done(th.k1, th.k2, th.calculated, false);
    e := e.(version := first + LOCK_FLAG + 2);
    longer := MoveThread(calculate, longer, t, e, Releasing(th.k1, th.k2, th.calculated, first));
    longer := MoveThread(calculate, longer, t, e.(version := first + 2), done);
  }

  lemma StoreFields(calculate: Calc, run: seq<State>, t: nat) returns (longer: seq<State>)
    requires IsRun(calculate, run) && t in run[|run| - 1].threads && run[|run| - 1].threads[t].Owning?
    requires run[|run| - 1].threads[t].first + 2 < LOCK_FLAG
    ensures IsRun(calculate, longer) && |longer| > 0 && t in longer[|longer| - 1].threads
    ensures var th := run[|run| - 1].threads[t];
            && longer[|longer| - 1].entry.version == th.first + LOCK_FLAG + 1
            && longer[|longer| - 1].threads[t] == Storing(th.k1, th.k2, th.calculated, th.first, true, true, true)
  {
    hide IsRun, NoOverflow;
    LastHasRoom(calculate, run);
    var th := run[|run| - 1].threads[t];
    var k1, k2, v, first := th.k1, th.k2, th.calculated, th.first;
    VersionsOf(first);
    var e := run[|run| - 1].entry.(version := first + LOCK_FLAG + 1);
    longer := MoveThread(calculate, run, t, e, Storing(k1, k2, v, first, false, false, false));
    e := e.(key1 := k1);
    longer := MoveThread(calculate, longer, t, e, Storing(k1, k2, v, first, true, false, false));
    e := e.(key2 := k2);
    longer := MoveThread(calculate, longer, t, e, Storing(k1, k2, v, first, true, true, false));
    e := e.(value := v);
    longer := MoveThread(calculate, longer, t, e, Storing(k1, k2, v, first, true, true, true));
  }

  // After any release, the next update of the same thread that finds other keys takes the entry back to
  // the locked even version it had just before the release.
  lemma LockedEvenVersionRecurs(calculate: Calc, run: seq<State>, t: nat)
    requires IsRun(calculate, run) && |run| > 1
    requires StepBy(calculate, run[|run| - 2], run[|run| - 1], t) && run[|run| - 2].threads[t].Releasing?
    ensures exists more: seq<State> ::
              && IsRun(calculate, run + more) && |more| > 0
              && more[|more| - 1].entry.version == run[|run| - 2].entry.version != run[|run| - 1].entry.version
  {
    var n := |run|;
    RunInv(calculate, run, n - 2);
    var released := run[n - 1];
    assert ThreadInv(calculate, run[n - 2].threads[t], run[n - 2].entry);
    VersionsOf(run[n - 2].threads[t].first);
    assert run[n - 2].entry.version == released.entry.version + LOCK_FLAG;
    var longer := LockAgain(calculate, run, t);
    assert longer == run + longer[n..];
  }

  lemma SomeVersionRecurs(calculate: Calc, v: u4) returns (run: seq<State>)
    requires Locked(v) && Even(v) && Counter(v) > 0
    ensures IsRun(calculate, run) && !Contiguous(run, v)
  {
    hide IsRun, StepBy;
    var first := ReleaseOf(calculate, Counter(v));
    LockedEvenVersionRecurs(calculate, first, 0);
    var more: seq<State> :| && IsRun(calculate, first + more) && |more| > 0
                            && more[|more| - 1].entry.version == v != first[|first| - 1].entry.version;
    run := first + more;
    var i, j, k := |first| - 2, |first| - 1, |run| - 1;
    assert run[i].entry.version == run[k].entry.version == v != run[j].entry.version;
  }

  lemma OthersAreContiguous(calculate: Calc, run: seq<State>, v: u4)
    requires IsRun(calculate, run) && !(Locked(v) && Even(v) && Counter(v) > 0)
    ensures Contiguous(run, v)
  {
    hide IsRun;
    forall i, j, k | 0 <= i <= j <= k < |run| && run[i].entry.version == run[k].entry.version == v
      ensures run[j].entry.version == v
    {
      if run[j].entry.version != v {
        VersionIsAlmostContiguous(calculate, run, i, j, k);
      }
    }
  }

  // So the raw version, flag included, is contiguous for every value except the even locked ones that
  // stand before a release.
  lemma VersionIsContiguousIff(calculate: Calc, v: u4)
    ensures AlwaysContiguous(calculate, v) <==> !(Locked(v) && Even(v) && Counter(v) > 0)
  {
    hide IsRun, Contiguous;
    if Locked(v) && Even(v) && Counter(v) > 0 {
      var run := SomeVersionRecurs(calculate, v);
    } else {
      forall run: seq<State> | IsRun(calculate, run)
        ensures Contiguous(run, v)
      {
        OthersAreContiguous(calculate, run, v);
      }
    }
  }

  lemma LastHasRoom(calculate: Calc, run: seq<State>)
    requires IsRun(calculate, run)
    ensures |run| > 0 && Counter(run[|run| - 1].entry.version) < LOCK_FLAG - 1
  {
    assert run[|run| - 1] in run;
  }

  lemma LockAgain(calculate: Calc, run: seq<State>, t: nat) returns (longer: seq<State>)
    requires IsRun(calculate, run) && t in run[|run| - 1].threads
    requires run[|run| - 1].threads[t].Idle? || run[|run| - 1].threads[t].Done?
    requires !Locked(run[|run| - 1].entry.version)
    ensures IsRun(calculate, longer) && |longer| > |run| && longer[..|run|] == run
    ensures longer[|longer| - 1].entry == run[|run| - 1].entry.(version := run[|run| - 1].entry.version + LOCK_FLAG)
    ensures t in longer[|longer| - 1].threads && longer[|longer| - 1].threads[t].Owning?
    ensures longer[|longer| - 1].threads[t].first == run[|run| - 1].entry.version
  {
    hide IsRun, NoOverflow;
    LastHasRoom(calculate, run);
    var e := run[|run| - 1].entry;
    var k := if e.key1 == 0 then 1 else 0;
    var v := calculate(k, 0);
    longer := MoveThread(calculate, run, t, e, Looking(k, 0));
    longer := MoveThread(calculate, longer, t, e, Reading(k, 0, e.version, None, None, None));
    longer := MoveThread(calculate, longer, t, e, Reading(k, 0, e.version, Some(e.key1), None, None));
    assert longer[..|run|] == run;
    longer := MoveThread(calculate, longer, t, e, Updating(k, 0, v, e.version));
    longer := MoveThread(calculate, longer, t, e.(version := SetLock(e.version)), Owning(k, 0, v, e.version));
  }

  lemma MoveThread(calculate: Calc, run: seq<State>, t: nat, e: Entry, th: Thread) returns (longer: seq<State>)
    requires IsRun(calculate, run) && t in run[|run| - 1].threads
    requires ThreadStep(calculate, run[|run| - 1].entry, run[|run| - 1].threads[t], e, th)
    requires Counter(e.version) < LOCK_FLAG - 1
    ensures IsRun(calculate, longer) && |longer| == |run| + 1 && longer[..|run|] == run
    ensures longer[|run|].entry == e && t in longer[|run|].threads && longer[|run|].threads[t] == th
    ensures longer[|run| - 1] == run[|run| - 1] && StepBy(calculate, run[|run| - 1], longer[|run|], t)
  {
    longer := ExtendRun(calculate, run, State(e, run[|run| - 1].threads[t := th]), t);
  }

  lemma ExtendRun(calculate: Calc, run: seq<State>, s: State, t: nat) returns (longer: seq<State>)
    requires IsRun(calculate, run) && StepBy(calculate, run[|run| - 1], s, t) && NoOverflow(s)
    ensures longer == run + [s] && IsRun(calculate, longer) && longer[|longer| - 1] == s
  {
    longer := run + [s];
    forall i | 0 < i < |longer|
      ensures StepAt(calculate, longer, i)
    {
      if i < |run| {
        assert StepAt(calculate, run, i);
      } else {
        assert Step(calculate, run[|run| - 1], s);
      }
    }
  }

  // In every interleaving, a finished lookup returned the value of its keys; the one exception is a
  // hit on the all-zero entry that calloc left behind.
  lemma LookupReturnsValueOfKeys(calculate: Calc, run: seq<State>, i: nat, t: nat)
    requires IsRun(calculate, run) && i < |run|
    requires t in run[i].threads && run[i].threads[t].Done?
    ensures GoodResult(calculate, run[i].threads[t])
  {
    RunInv(calculate, run, i);
    assert ThreadInv(calculate, run[i].threads[t], run[i].entry);
  }

  ghost predicate AllLookupsCorrect(calculate: Calc) {
    forall run: seq<State>, i: nat, t: nat ::
      IsRun(calculate, run) && i < |run| && t in run[i].threads && run[i].threads[t].Done? ==>
        run[i].threads[t].result == calculate(run[i].threads[t].k1, run[i].threads[t].k2)
  }

  // So the cache is transparent exactly when the calculated value for keys (0, 0) is 0.
  lemma CacheIsTransparentIff(calculate: Calc)
    ensures AllLookupsCorrect(calculate) <==> calculate(0, 0) == 0
  {
    if calculate(0, 0) == 0 {
      forall run: seq<State>, i: nat, t: nat |
        IsRun(calculate, run) && i < |run| && t in run[i].threads && run[i].threads[t].Done?
        ensures run[i].threads[t].result == calculate(run[i].threads[t].k1, run[i].threads[t].k2)
      {
        LookupReturnsValueOfKeys(calculate, run, i, t);
      }
    } else {
      var run := FreshEntryHit(calculate);
      assert 0 in run[|run| - 1].threads && run[|run| - 1].threads[0].result == 0;
    }
  }

  // One thread looks up keys (0, 0) in a fresh entry.
  lemma FreshEntryHit(calculate: Calc) returns (run: seq<State>)
    ensures IsRun(calculate, run)
    ensures run[|run| - 1].threads == map[0 := Done(0, 0, 0, true)]
  {
    var e := Entry(0, 0, 0, 0);
    run := [State(e, map[0 := Idle])];
    assert IsRun(calculate, run);
    run := OnlyThreadMoves(calculate, run, Looking(0, 0));
    run := OnlyThreadMoves(calculate, run, Reading(0, 0, 0, None, None, None));
    run := OnlyThreadMoves(calculate, run, Reading(0, 0, 0, Some(0), None, None));
    run := OnlyThreadMoves(calculate, run, Reading(0, 0, 0, Some(0), Some(0), None));
    run := OnlyThreadMoves(calculate, run, Reading(0, 0, 0, Some(0), Some(0), Some(0)));
    run := OnlyThreadMoves(calculate, run, Done(0, 0, 0, true));
  }

  lemma OnlyThreadMoves(calculate: Calc, run: seq<State>, th: Thread) returns (longer: seq<State>)
    requires IsRun(calculate, run)
    requires run[|run| - 1].entry == Entry(0, 0, 0, 0) && run[|run| - 1].threads.Keys == {0}
    requires ThreadStep(calculate, Entry(0, 0, 0, 0), run[|run| - 1].threads[0], Entry(0, 0, 0, 0), th)
    ensures IsRun(calculate, longer)
    ensures longer[|longer| - 1] == State(Entry(0, 0, 0, 0), map[0 := th])
  {
    longer := ExtendRun(calculate, run, State(Entry(0, 0, 0, 0), map[0 := th]), 0);
  }

  // Thread t is inside one lookup from run[i], just after its first version load, to run[j].
  ghost predicate ReadsThroughout(run: seq<State>, t: nat, i: nat, j: nat)
    requires 0 < i <= j < |run|
  {
    && t in run[i - 1].threads && run[i - 1].threads[t].Looking?
    && forall m | i <= m <= j :: t in run[m].threads && run[m].threads[t].Reading?
  }

  lemma {:induction false} FirstVersionIsKept(calculate: Calc, run: seq<State>, t: nat, i: nat, j: nat)
    requires IsRun(calculate, run) && 0 < i <= j < |run| && ReadsThroughout(run, t, i, j)
    ensures run[j].threads[t].first == run[i].entry.version
    ensures run[j].threads[t].k1 == run[i].threads[t].k1 && run[j].threads[t].k2 == run[i].threads[t].k2
    decreases j
  {
    assert StepAt(calculate, run, j);
    var u :| StepBy(calculate, run[j - 1], run[j], u);
    if i < j {
      FirstVersionIsKept(calculate, run, t, i, j - 1);
    }
  }

  // An accepted hit is one snapshot: from the first version load to the second, the entry held
  // exactly the requested keys and the returned value, so no two updates are mixed.
  lemma HitSeesOneUpdate(calculate: Calc, run: seq<State>, t: nat, i: nat, j: nat)
    requires IsRun(calculate, run) && 0 < i <= j && j + 1 < |run| && ReadsThroughout(run, t, i, j)
    requires t in run[j + 1].threads && run[j + 1].threads[t].Done? && run[j + 1].threads[t].hit
    ensures forall m | i <= m <= j ::
              run[m].entry.Holds(run[j + 1].threads[t].k1, run[j + 1].threads[t].k2, run[j + 1].threads[t].result)
  {
    FirstVersionIsKept(calculate, run, t, i, j);
    RunInv(calculate, run, j);
    assert StepAt(calculate, run, j + 1);
    var u :| StepBy(calculate, run[j], run[j + 1], u);
    assert u == t;
    assert ThreadInv(calculate, run[j].threads[t], run[j].entry);
    forall m | i <= m <= j
      ensures run[m].entry.SameFields(run[j].entry)
    {
      CounterIsContiguous(calculate, run, i, m, j);
      CounterIsContiguous(calculate, run, i, j, j);
    }
  }

  // ----- What the cache is for -----

  // The thread has just cleared the lock flag.
  ghost predicate Releases(calculate: Calc, run: seq<State>, t: nat, j: nat)
    requires 0 < j < |run|
  {
    && StepBy(calculate, run[j - 1], run[j], t)
    && run[j - 1].threads[t].Releasing? && run[j].threads[t].Done?
  }

  // A finished update leaves its keys with their value in the entry, unlocked and even.
  lemma UpdateIsStored(calculate: Calc, run: seq<State>, t: nat, j: nat)
    requires IsRun(calculate, run) && 0 < j < |run| && Releases(calculate, run, t, j)
    ensures var th := run[j - 1].threads[t];
            run[j].entry.Holds(th.k1, th.k2, calculate(th.k1, th.k2))
    ensures Even(run[j].entry.version) && !Locked(run[j].entry.version)
  {
    RunInv(calculate, run, j - 1);
    assert ThreadInv(calculate, run[j - 1].threads[t], run[j - 1].entry);
    VersionsOf(run[j - 1].threads[t].first);
  }

  // While an entry is unlocked and even, a lookup of its keys by any thread can come back with its value from the
  // cache.
  lemma EntryIsFound(calculate: Calc, run: seq<State>, t: nat) returns (longer: seq<State>)
    requires IsRun(calculate, run) && t in run[|run| - 1].threads
    requires run[|run| - 1].threads[t].Idle? || run[|run| - 1].threads[t].Done?
    requires Even(run[|run| - 1].entry.version) && !Locked(run[|run| - 1].entry.version)
    ensures IsRun(calculate, longer) && |longer| > |run| && longer[|longer| - 1].entry == run[|run| - 1].entry
    ensures t in longer[|longer| - 1].threads
    ensures var e := run[|run| - 1].entry;
            longer[|longer| - 1].threads[t] == Done(e.key1, e.key2, e.value, true)
  {
    hide IsRun, NoOverflow;
    LastHasRoom(calculate, run);
    var e := run[|run| - 1].entry;
    var k1, k2, v, first := e.key1, e.key2, e.value, e.version;
    longer := MoveThread(calculate, run, t, e, Looking(k1, k2));
    longer := MoveThread(calculate, longer, t, e, Reading(k1, k2, first, None, None, None));
    longer := MoveThread(calculate, longer, t, e, Reading(k1, k2, first, Some(k1), None, None));
    longer := MoveThread(calculate, longer, t, e, Reading(k1, k2, first, Some(k1), Some(k2), None));
    longer := MoveThread(calculate, longer, t, e, Reading(k1, k2, first, Some(k1), Some(k2), Some(v)));
    longer := MoveThread(calculate, longer, t, e, Done(k1, k2, v, true));
  }

  // Between two version loads a key that has been loaded was in the entry at some time.
  lemma {:induction false} LoadedWasThere(calculate: Calc, run: seq<State>, t: nat, i: nat, j: nat)
    requires IsRun(calculate, run) && 0 < i <= j < |run| && ReadsThroughout(run, t, i, j)
    ensures run[j].threads[t].key1.Some? ==>
              exists m :: i <= m <= j && run[m].entry.key1 == run[j].threads[t].key1.value
    ensures run[j].threads[t].key2.Some? ==>
              exists m :: i <= m <= j && run[m].entry.key2 == run[j].threads[t].key2.value
    decreases j
  {
    assert StepAt(calculate, run, j);
    var u :| StepBy(calculate, run[j - 1], run[j], u);
    if i < j {
      LoadedWasThere(calculate, run, t, i, j - 1);
    }
  }

  // the entry holds these keys
  predicate HasKeys(s: State, k1: u4, k2: u4) {
    s.entry.key1 == k1 && s.entry.key2 == k2
  }

  // A lookup only calculates for a reason: the entry had other keys, or was being updated, while it looked.
  lemma MissHasReason(calculate: Calc, run: seq<State>, t: nat, i: nat, j: nat)
    requires IsRun(calculate, run) && 0 < i <= j && j + 1 < |run| && ReadsThroughout(run, t, i, j)
    requires t in run[j + 1].threads
    requires run[j + 1].threads[t].Updating? || (run[j + 1].threads[t].Done? && !run[j + 1].threads[t].hit)
    ensures || !Even(run[i].entry.version) || run[j].entry.version != run[i].entry.version
            || exists m :: i <= m <= j && !HasKeys(run[m], run[i].threads[t].k1, run[i].threads[t].k2)
  {
    FirstVersionIsKept(calculate, run, t, i, j);
    LoadedWasThere(calculate, run, t, i, j);
    assert StepAt(calculate, run, j + 1);
    var u :| StepBy(calculate, run[j], run[j + 1], u);
    assert u == t;
    var th := run[j].threads[t];
    if th.key1.Some? && th.key1.value != th.k1 {
      var m :| i <= m <= j && run[m].entry.key1 == th.key1.value;
      assert !HasKeys(run[m], th.k1, th.k2);
    } else if th.key2.Some? && th.key2.value != th.k2 {
      var m :| i <= m <= j && run[m].entry.key2 == th.key2.value;
      assert !HasKeys(run[m], th.k1, th.k2);
    }
  }
}
