// Circular probe paths, shared by the open-addressing tables of vm/Hash.cpp, libdex/DexFile.cpp and
// libdex/ZipArchive.cpp.

module Probing {
  import opened Common
  import opened Bits

  // the slot after i, wrapping around
  function Next(i: nat, size: nat): (n: nat)
    requires i < size
    ensures n < size
  {
    if i + 1 == size then 0 else i + 1
  }

  // slot j is met by a probe that starts at home, before it gets to i
  predicate Before(home: nat, j: nat, i: nat) {
    if home <= i then home <= j < i else home <= j || j < i
  }

  // the number of steps a probe at i is away from e
  function Gap(i: nat, e: nat, size: nat): nat
    requires i < size && e < size
  {
    if i <= e then e - i else e + size - i
  }

  lemma StepCloses(i: nat, e: nat, size: nat)
    requires i < size && e < size && i != e
    ensures Gap(Next(i, size), e, size) < Gap(i, e, size)
  {
  }

  // One more step adds slot i to the path; nothing else.
  lemma StepExtends(home: nat, i: nat, size: nat)
    requires home < size && i < size
    ensures forall j: nat | j < size && Before(home, j, Next(i, size)) :: Before(home, j, i) || j == i
  {
  }

  // Of two different slots one is met first, unless they are the same.
  lemma OneIsFirst(home: nat, i: nat, k: nat, size: nat)
    requires home < size && i < size && k < size && i != k
    ensures Before(home, i, k) || Before(home, k, i)
    ensures !(Before(home, i, k) && Before(home, k, i))
  {
  }

  // ----- Tables that only grow -----

  // A table seen from outside: the key in each slot, None where the slot is free.
  type View<K> = seq<Option<K>>

  function Occupied<K>(view: View<K>): (n: nat)
    ensures n <= |view|
  {
    if view == [] then 0
    else Occupied(view[..|view| - 1]) + if view[|view| - 1].Some? then 1 else 0
  }

  lemma {:induction false} OccupiedUpdate<K>(view: View<K>, i: nat, key: K)
    requires i < |view| && view[i] == None
    ensures Occupied(view[i := Some(key)]) == Occupied(view) + 1
  {
    var n := |view| - 1;
    if i == n {
      assert view[i := Some(key)][..n] == view[..n];
    } else {
      assert view[i := Some(key)][..n] == view[..n][i := Some(key)];
      OccupiedUpdate(view[..n], i, key);
    }
  }

  lemma {:induction false} NothingOccupied<K>(view: View<K>)
    requires forall i | 0 <= i < |view| :: view[i] == None
    ensures Occupied(view) == 0
  {
    if view != [] {
      NothingOccupied(view[..|view| - 1]);
    }
  }

  lemma {:induction false} FreeSlot<K>(view: View<K>) returns (e: nat)
    requires Occupied(view) < |view|
    ensures e < |view| && view[e] == None
  {
    e := |view| - 1;
    if view[e] != None {
      e := FreeSlot(view[..|view| - 1]);
    }
  }

  // the slot where a probe for a hash starts
  function Home(hash: u4, size: nat): (h: nat)
    requires size > 0
    ensures h < size
  {
    Masked(hash, size)
  }

  ghost predicate IsEarlier(slotOf: seq<nat>, j: nat, k: nat) {
    exists m: nat :: m < k && m < |slotOf| && slotOf[m] == j
  }

  // Entry k is where its key is, and all slots its probe passed were taken by earlier entries.
  ghost predicate Placed<K>(view: View<K>, keys: seq<K>, slotOf: seq<nat>, hash: K -> u4, k: nat)
    requires k < |keys| == |slotOf| && |view| > 0
  {
    && slotOf[k] < |view| && view[slotOf[k]] == Some(keys[k])
    && forall j: nat | j < |view| && Before(Home(hash(keys[k]), |view|), j, slotOf[k]) :: IsEarlier(slotOf, j, k)
  }

  // The table holds these keys, added in this order, at these slots.
  ghost predicate Built<K>(view: View<K>, keys: seq<K>, slotOf: seq<nat>, hash: K -> u4) {
    && |keys| == |slotOf| == Occupied(view) && |view| > 0
    && (forall k: nat | k < |keys| :: Placed(view, keys, slotOf, hash, k))
    && (forall k: nat, m: nat | k < |keys| && m < |keys| && slotOf[k] == slotOf[m] :: k == m)
    && (forall j: nat | j < |view| && view[j].Some? :: IsEarlier(slotOf, j, |slotOf|))
  }

  // Filling the first free slot of a probe keeps the table built.
  lemma InsertBuilt<K>(view: View<K>, keys: seq<K>, slotOf: seq<nat>, hash: K -> u4, key: K, i: nat)
    requires Built(view, keys, slotOf, hash) && i < |view| && view[i] == None
    requires forall j: nat | j < |view| && Before(Home(hash(key), |view|), j, i) :: view[j].Some?
    ensures Built(view[i := Some(key)], keys + [key], slotOf + [i], hash)
    ensures |slotOf| == |keys| && forall k: nat | k < |keys| :: slotOf[k] < |view| && slotOf[k] != i
  {
    hide Occupied, Before, Home;
    OccupiedUpdate(view, i, key);
    var view', keys', slotOf' := view[i := Some(key)], keys + [key], slotOf + [i];
    forall j: nat, k: nat | k <= |slotOf| && IsEarlier(slotOf, j, k)
      ensures IsEarlier(slotOf', j, k)
    {
      var m: nat :| m < k && m < |slotOf| && slotOf[m] == j;
      assert slotOf'[m] == j;
    }
    forall k: nat | k < |keys'|
      ensures Placed(view', keys', slotOf', hash, k)
    {
      if k < |keys| {
        assert Placed(view, keys, slotOf, hash, k);
      }
    }
    forall k: nat | k < |keys|
      ensures slotOf[k] < |view| && slotOf[k] != i
    {
      assert Placed(view, keys, slotOf, hash, k);
    }
    assert slotOf'[|slotOf|] == i;
  }

  // a linear scan: the first index at or after from where the key is
  function FirstIndex<K(==)>(keys: seq<K>, key: K, from: nat): (k: Option<nat>)
    ensures k.Some? ==> k.value < |keys| && keys[k.value] == key
    decreases |keys| - from
  {
    if from >= |keys| then None
    else if keys[from] == key then Some(from)
    else FirstIndex(keys, key, from + 1)
  }

  lemma {:induction false} FirstIndexIs<K>(keys: seq<K>, key: K, from: nat, k: nat)
    requires from <= k < |keys| && keys[k] == key && (forall m: nat | m < k :: keys[m] != key)
    ensures FirstIndex(keys, key, from) == Some(k)
    decreases |keys| - from
  {
    if from < k {
      FirstIndexIs(keys, key, from + 1, k);
    }
  }

  lemma {:induction false} FirstIndexIsNone<K>(keys: seq<K>, key: K, from: nat)
    requires forall m: nat | m < |keys| :: keys[m] != key
    ensures FirstIndex(keys, key, from) == None
    decreases |keys| - from
  {
    if from < |keys| {
      FirstIndexIsNone(keys, key, from + 1);
    }
  }

  // A probe stops at the first entry added under its key, or at a free slot if there is none.
  lemma ProbeFindsFirst<K>(view: View<K>, keys: seq<K>, slotOf: seq<nat>, hash: K -> u4, key: K, i: nat)
    requires Built(view, keys, slotOf, hash) && i < |view|
    requires forall j: nat | j < |view| && Before(Home(hash(key), |view|), j, i) ::
               view[j].Some? && view[j] != Some(key)
    ensures view[i] == None ==> FirstIndex(keys, key, 0) == None
    ensures view[i] == Some(key) ==> FirstIndex(keys, key, 0).Some? && slotOf[FirstIndex(keys, key, 0).value] == i
  {
    var home := Home(hash(key), |view|);
    hide Occupied, Before, Home;
    if view[i] == None {
      forall k: nat | k < |keys|
        ensures keys[k] != key
      {
        NotBeforeFree(view, keys, slotOf, hash, k, i);
        if slotOf[k] != i {
          OneIsFirst(home, slotOf[k], i, |view|);
        }
      }
      FirstIndexIsNone(keys, key, 0);
    } else if view[i] == Some(key) {
      assert IsEarlier(slotOf, i, |slotOf|);
      var k: nat :| k < |slotOf| && slotOf[k] == i;
      assert Placed(view, keys, slotOf, hash, k);
      forall m: nat | m < k
        ensures keys[m] != key
      {
        assert Placed(view, keys, slotOf, hash, m);
        OneIsFirst(home, slotOf[m], i, |view|);
        LaterIsNotPassed(view, keys, slotOf, hash, m, k);
      }
      FirstIndexIs(keys, key, 0, k);
    }
  }

  lemma NotBeforeFree<K>(view: View<K>, keys: seq<K>, slotOf: seq<nat>, hash: K -> u4, k: nat, i: nat)
    requires Built(view, keys, slotOf, hash) && i < |view| && view[i] == None && k < |keys|
    ensures slotOf[k] < |view| && view[slotOf[k]] == Some(keys[k]) && slotOf[k] != i
    ensures !Before(Home(hash(keys[k]), |view|), i, slotOf[k])
  {
    hide Occupied, Before, Home;
    assert Placed(view, keys, slotOf, hash, k);
    forall m: nat | m < k
      ensures slotOf[m] != i
    {
      assert Placed(view, keys, slotOf, hash, m);
    }
  }

  lemma LaterIsNotPassed<K>(view: View<K>, keys: seq<K>, slotOf: seq<nat>, hash: K -> u4, m: nat, k: nat)
    requires Built(view, keys, slotOf, hash) && m < k < |keys|
    ensures slotOf[k] < |view| && !Before(Home(hash(keys[m]), |view|), slotOf[k], slotOf[m])
  {
    hide Occupied, Before, Home;
    assert Placed(view, keys, slotOf, hash, m) && Placed(view, keys, slotOf, hash, k);
    assert !IsEarlier(slotOf, slotOf[k], m);
  }

  // ----- The string hash of both tables: multiply by 31 and add, in 32 bits -----

  function Hash31(seed: u4, s: seq<u1>): u4 {
    if s == [] then seed else (Hash31(seed, s[..|s| - 1]) * 31 + s[|s| - 1]) % TWO32
  }

  // On the word of the code: h & (size - 1).
  lemma HomeIsMasked(hash: Word, size: Word)
    requires IsPower2(size) && Value(hash) < TWO32 && Value(size) > 0
    ensures Home(Value(hash), Value(size)) == Value(hash & (size - 1))
  {
    hide Value, IsPower2;
    MaskIsRemainder(hash, size);
  }

  // three bytes: a polynomial in 31
  lemma Hash31OfThree(a: u1, b: u1, c: u1)
    ensures Hash31(0, [a, b, c]) == 961 * a + 31 * b + c
  {
    assert [a, b, c][..2] == [a, b] && [a, b][..1] == [a];
    assert Hash31(0, [a]) == a;
    assert Hash31(0, [a, b]) == 31 * a + b;
  }
}
