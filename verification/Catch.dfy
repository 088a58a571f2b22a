// Try blocks and catch handlers of a code_item: the verification in libdex/DexSwapVerify.cpp (setHandlerOffsAndVerify,
// swapTriesAndCatches), the unchecked readers in libdex/DexCatch.h and libdex/DexCatch.cpp that rely on it, and
// dexGetDexCodeSize of libdex/DexFile.cpp.

module Catch {
  import opened Common
  import opened Leb128

  const NO_INDEX: u4 := 0xffff_ffff

  datatype Handler = Handler(typeIdx: u4, address: u4)
  datatype Try = Try(startAddr: u4, insnCount: u2, handlerOff: u2)

  // What a DexCode says about its tries: where it starts, how many code units it has, the try table, and the
  // address right after that table, where the encoded handlers are.
  datatype Code = Code(start: nat, insnsSize: u4, tries: seq<Try>, handlerData: nat)

  // ----- The format of an encoded_catch_handler -----

  function TypedHandlersAt(mem: Memory, pos: nat, n: nat): (r: Read<seq<Handler>>)
    ensures |r.value| == n
    decreases n
  {
    if n == 0 then Read([], pos)
    else
      var t := UnsignedAt(mem, pos);
      var a := UnsignedAt(mem, t.next);
      var rest := TypedHandlersAt(mem, a.next, n - 1);
      Read([Handler(t.value, a.value)] + rest.value, rest.next)
  }

  // n typed handlers, then the catch-all handler if there is one
  function ListAt(mem: Memory, pos: nat, n: nat, catchAll: bool): Read<seq<Handler>> {
    var typed := TypedHandlersAt(mem, pos, n);
    if catchAll then
      var a := UnsignedAt(mem, typed.next);
      Read(typed.value + [Handler(NO_INDEX, a.value)], a.next)
    else typed
  }

  function Abs(x: int): nat {
    if x < 0 then -x else x
  }

  // A size of n <= 0 stands for -n typed handlers and a catch-all.
  function HandlersAt(mem: Memory, pos: nat): Read<seq<Handler>> {
    var size := SignedAt(mem, pos);
    ListAt(mem, size.next, Abs(size.value), size.value <= 0)
  }

  // The offset of the i-th list when the first one is at offset first.
  function OffsetOf(mem: Memory, base: nat, first: nat, i: nat): nat
    decreases i
  {
    if i == 0 then first else
    var next := HandlersAt(mem, base + OffsetOf(mem, base, first, i - 1)).next;
    if next < base then 0 else next - base
  }

  // ----- What verification demands of one list -----

  datatype Limits = Limits(fileEnd: nat, typeIdsSize: u4, insnsSize: u4)

  predicate TypedOkay(mem: Memory, pos: nat, n: nat, l: Limits)
    decreases n
  {
    n == 0 ||
    var t := UnsignedAt(mem, pos);
    var a := UnsignedAt(mem, t.next);
    && Verified(mem, pos, Some(l.fileEnd)) && t.value < l.typeIdsSize
    && Verified(mem, t.next, Some(l.fileEnd)) && a.value < l.insnsSize
    && TypedOkay(mem, a.next, n - 1, l)
  }

  predicate HandlersOkay(mem: Memory, pos: nat, l: Limits) {
    var size := SignedAt(mem, pos);
    var catchAllPos := TypedHandlersAt(mem, size.next, Abs(size.value)).next;
    && Verified(mem, pos, Some(l.fileEnd)) && -65536 <= size.value <= 65536
    && TypedOkay(mem, size.next, Abs(size.value), l)
    && (size.value <= 0 ==>
          && Verified(mem, catchAllPos, Some(l.fileEnd))
          && UnsignedAt(mem, catchAllPos).value < l.insnsSize)
  }

  // A verified list: typed handlers first and the catch-all last, every type and every address in range.
  ghost predicate WellFormed(handlers: seq<Handler>, l: Limits) {
    && (forall h | h in handlers :: h.address < l.insnsSize)
    && (forall i | 0 <= i < |handlers| - 1 :: handlers[i].typeIdx < l.typeIdsSize)
    && (handlers != [] ==>
          handlers[|handlers| - 1].typeIdx < l.typeIdsSize || handlers[|handlers| - 1].typeIdx == NO_INDEX)
  }

  lemma {:induction false} TypedAreInRange(mem: Memory, pos: nat, n: nat, l: Limits)
    requires TypedOkay(mem, pos, n, l)
    ensures forall h | h in TypedHandlersAt(mem, pos, n).value :: h.typeIdx < l.typeIdsSize && h.address < l.insnsSize
    decreases n
  {
    hide UnsignedAt, Verified;
    if n > 0 {
      TypedAreInRange(mem, UnsignedAt(mem, UnsignedAt(mem, pos).next).next, n - 1, l);
    }
  }

  lemma VerifiedListIsWellFormed(mem: Memory, pos: nat, l: Limits)
    requires HandlersOkay(mem, pos, l)
    ensures WellFormed(HandlersAt(mem, pos).value, l)
  {
    hide UnsignedAt, SignedAt, Verified, TypedHandlersAt, TypedOkay;
    var size := SignedAt(mem, pos);
    TypedAreInRange(mem, size.next, Abs(size.value), l);
  }

  lemma {:induction false} ListsMoveForward(mem: Memory, pos: nat, n: nat)
    ensures pos <= TypedHandlersAt(mem, pos, n).next
    decreases n
  {
    if n > 0 {
      ListsMoveForward(mem, UnsignedAt(mem, UnsignedAt(mem, pos).next).next, n - 1);
    }
  }

  lemma HandlersMoveForward(mem: Memory, pos: nat)
    ensures pos < HandlersAt(mem, pos).next
  {
    ListsMoveForward(mem, SignedAt(mem, pos).next, Abs(SignedAt(mem, pos).value));
  }

  lemma {:induction false} OffsetsMoveForward(mem: Memory, base: nat, first: nat, i: nat)
    ensures first + i <= OffsetOf(mem, base, first, i)
    ensures i > 0 ==>
              base + OffsetOf(mem, base, first, i) == HandlersAt(mem, base + OffsetOf(mem, base, first, i - 1)).next
    decreases i
  {
    hide HandlersAt;
    if i > 0 {
      OffsetsMoveForward(mem, base, first, i - 1);
      HandlersMoveForward(mem, base + OffsetOf(mem, base, first, i - 1));
    }
  }

  // ----- Reading back what was written -----

  // the handlers of one list, as a compiler has them
  datatype CatchList = CatchList(typed: seq<Handler>, catchAll: Option<u4>) {
    // without a catch-all there is a handler
    predicate Valid() {
      |typed| < 0x8000_0000 && (catchAll == None ==> typed != [])
    }

    function All(): seq<Handler> {
      typed + if catchAll == None then [] else [Handler(0xffff_ffff, catchAll.value)]
    }

    predicate InRange(l: Limits) {
      && |typed| <= 65536 && (catchAll == None || catchAll.value < l.insnsSize)
      && forall h | h in typed :: h.typeIdx < l.typeIdsSize && h.address < l.insnsSize
    }
  }

  function EncodeTyped(typed: seq<Handler>): seq<u1> {
    if typed == [] then [] else Encode(typed[0].typeIdx) + (Encode(typed[0].address) + EncodeTyped(typed[1..]))
  }

  function EncodeCatchAll(catchAll: Option<u4>): seq<u1> {
    if catchAll == None then [] else Encode(catchAll.value)
  }

  // the size, negative if there is a catch-all, then type and address of each handler, then the catch-all's address
  function EncodeList(c: CatchList): seq<u1>
    requires c.Valid()
  {
    EncodeSigned(if c.catchAll == None then |c.typed| else -|c.typed|)
    + (EncodeTyped(c.typed) + EncodeCatchAll(c.catchAll))
  }

  lemma {:induction false} TypedReadBack(mem: Memory, pos: nat, typed: seq<Handler>, l: Limits)
    requires At(mem, pos, EncodeTyped(typed)) && pos <= l.fileEnd
    ensures TypedHandlersAt(mem, pos, |typed|) == Read(typed, pos + |EncodeTyped(typed)|)
    ensures TypedOkay(mem, pos, |typed|, l) <==>
              && pos + |EncodeTyped(typed)| <= l.fileEnd
              && forall h | h in typed :: h.typeIdx < l.typeIdsSize && h.address < l.insnsSize
    decreases typed
  {
    hide UnsignedAt, Verified, Encode;
    if typed != [] {
      var h, rest := typed[0], typed[1..];
      var afterType := pos + |Encode(h.typeIdx)|;
      var afterAddr := afterType + |Encode(h.address)|;
      AtConcat(mem, pos, Encode(h.typeIdx), Encode(h.address) + EncodeTyped(rest));
      AtConcat(mem, afterType, Encode(h.address), EncodeTyped(rest));
      RoundTrip(mem, pos, h.typeIdx, Some(l.fileEnd));
      RoundTrip(mem, afterType, h.address, Some(l.fileEnd));
      assert [h] + rest == typed;
      assert forall g :: g in typed <==> g == h || g in rest;
      if afterAddr <= l.fileEnd {
        TypedReadBack(mem, afterAddr, rest, l);
      } else {
        TypedReadBack(mem, afterAddr, rest, l.(fileEnd := afterAddr));
      }
    }
  }

  // A list that was written is read back, ends where it ended, and passes verification exactly if it ends in the file
  // and everything in it is in range.
  lemma ListReadsBack(mem: Memory, pos: nat, c: CatchList, l: Limits)
    requires c.Valid() && At(mem, pos, EncodeList(c))
    ensures HandlersAt(mem, pos) == Read(c.All(), pos + |EncodeList(c)|)
    ensures HandlersOkay(mem, pos, l) <==> pos + |EncodeList(c)| <= l.fileEnd && c.InRange(l)
  {
    hide UnsignedAt, SignedAt, Verified, Encode, EncodeSigned, EncodeTyped, TypedHandlersAt, TypedOkay;
    var size: int := if c.catchAll == None then |c.typed| else -|c.typed|;
    var afterSize := pos + |EncodeSigned(size)|;
    var afterTyped := afterSize + |EncodeTyped(c.typed)|;
    AtConcat(mem, pos, EncodeSigned(size), EncodeTyped(c.typed) + EncodeCatchAll(c.catchAll));
    AtConcat(mem, afterSize, EncodeTyped(c.typed), EncodeCatchAll(c.catchAll));
    SignedRoundTrip(mem, pos, size);
    SignedVerifiesIff(mem, pos, size, Some(l.fileEnd));
    if c.catchAll != None {
      RoundTrip(mem, afterTyped, c.catchAll.value, Some(l.fileEnd));
    }
    TypedReadBack(mem, afterSize, c.typed, if afterSize <= l.fileEnd then l else l.(fileEnd := afterSize));
    assert c.typed + [] == c.typed;
  }

  ghost predicate AllValid(lists: seq<CatchList>) {
    forall c | c in lists :: c.Valid()
  }

  ghost function EncodeLists(lists: seq<CatchList>): seq<u1>
    requires AllValid(lists)
  {
    if lists == [] then [] else EncodeList(lists[0]) + EncodeLists(lists[1..])
  }

  // where the n-th list is
  lemma ListPart(mem: Memory, pos: nat, lists: seq<CatchList>, n: nat)
    requires n < |lists| && AllValid(lists)
    requires At(mem, pos, EncodeLists(lists))
    ensures lists[n].Valid() && AllValid(lists[..n])
    ensures At(mem, pos + |EncodeLists(lists[..n])|, EncodeList(lists[n]))
  {
    hide EncodeList, EncodeLists, AllValid, At;
    ListsSplit(lists, n);
    var before, after := EncodeLists(lists[..n]), EncodeLists(lists[n + 1..]);
    AtConcat(mem, pos, before, EncodeList(lists[n]) + after);
    AtConcat(mem, pos + |before|, EncodeList(lists[n]), after);
  }

  // Each list starts at the offset that the lists before it end at.
  lemma {:induction false} OffsetsReadBack(mem: Memory, base: nat, first: nat, lists: seq<CatchList>, n: nat)
    requires n <= |lists| && AllValid(lists) && At(mem, base + first, EncodeLists(lists))
    ensures AllValid(lists[..n]) && OffsetOf(mem, base, first, n) == first + |EncodeLists(lists[..n])|
    decreases n
  {
    hide HandlersAt, EncodeList, EncodeLists, AllValid, At, OffsetOf;
    if n > 0 {
      OffsetsReadBack(mem, base, first, lists, n - 1);
      OffsetsMoveForward(mem, base, first, n);
      ListPart(mem, base + first, lists, n - 1);
      ListReadsBack(mem, base + first + |EncodeLists(lists[..n - 1])|, lists[n - 1], Limits(0, 0, 0));
      ListsSplit(lists, n - 1);
    } else {
      NoLists(mem, base, first);
      assert lists[..0] == [];
    }
  }

  // So every list of a code item is found there.
  lemma ListsReadBack(mem: Memory, base: nat, first: nat, lists: seq<CatchList>, n: nat)
    requires n < |lists| && AllValid(lists) && At(mem, base + first, EncodeLists(lists))
    ensures HandlersAt(mem, base + OffsetOf(mem, base, first, n)).value == lists[n].All()
  {
    hide HandlersAt, EncodeList, EncodeLists, AllValid, At, OffsetOf;
    OffsetsReadBack(mem, base, first, lists, n);
    ListPart(mem, base + first, lists, n);
    ListReadsBack(mem, base + first + |EncodeLists(lists[..n])|, lists[n], Limits(0, 0, 0));
  }

  lemma NoLists(mem: Memory, base: nat, first: nat)
    ensures AllValid([]) && EncodeLists([]) == [] && OffsetOf(mem, base, first, 0) == first
  {
  }

  lemma {:induction false} ListsSplit(lists: seq<CatchList>, n: nat)
    requires n < |lists| && AllValid(lists)
    ensures AllValid(lists[..n]) && lists[n].Valid() && AllValid(lists[..n + 1]) && AllValid(lists[n + 1..])
    ensures EncodeLists(lists) == EncodeLists(lists[..n]) + (EncodeList(lists[n]) + EncodeLists(lists[n + 1..]))
    ensures EncodeLists(lists[..n + 1]) == EncodeLists(lists[..n]) + EncodeList(lists[n])
    decreases n
  {
    hide EncodeList, CatchList.Valid;
    if n > 0 {
      ListsSplit(lists[1..], n - 1);
      assert lists[..n][1..] == lists[1..][..n - 1] && lists[..n + 1][1..] == lists[1..][..n];
      assert lists[1..][n..] == lists[n + 1..];
    } else {
      assert lists[..1][1..] == [];
    }
  }

  // ----- setHandlerOffsAndVerify -----

  // The loop over the typed handlers of one list.
  method VerifyTyped(mem: Memory, pos: nat, n: nat, l: Limits) returns (okay: bool, next: nat)
    ensures okay == TypedOkay(mem, pos, n, l)
    ensures okay ==> next == TypedHandlersAt(mem, pos, n).next
  {
    hide UnsignedAt, Verified;
    okay, next := true, pos;
    var size: nat := n;
    while size > 0
      invariant size <= n
      invariant okay && TypedOkay(mem, pos, n, l) == TypedOkay(mem, next, size, l)
      invariant TypedHandlersAt(mem, pos, n).next == TypedHandlersAt(mem, next, size).next
    {
      var typeIdx, afterType, okay1 := ReadAndVerifyUnsigned(mem, next, Some(l.fileEnd), okay);
      assert UnsignedAt(mem, next) == Read(typeIdx, afterType);
      if !okay1 || typeIdx >= l.typeIdsSize {
        return false, next;
      }
      var addr, afterAddr, okay2 := ReadAndVerifyUnsigned(mem, afterType, Some(l.fileEnd), okay1);
      assert UnsignedAt(mem, afterType) == Read(addr, afterAddr);
      if !okay2 || addr >= l.insnsSize {
        return false, next;
      }
      next := afterAddr;
      size := size - 1;
    }
  }

  // The body of the outer loop: one list.
  method VerifyHandlers(mem: Memory, pos: nat, l: Limits) returns (okay: bool, next: nat)
    ensures okay == HandlersOkay(mem, pos, l)
    ensures okay ==> next == HandlersAt(mem, pos).next
  {
    hide UnsignedAt, SignedAt, Verified, TypedOkay, TypedHandlersAt;
    var size, ptr, okay1 := ReadAndVerifySigned(mem, pos, Some(l.fileEnd), true);
    assert SignedAt(mem, pos) == Read(size, ptr);
    if !okay1 || size < -65536 || size > 65536 {
      return false, pos;
    }
    var catchAll := size <= 0;
    if catchAll {
      size := -size;
    }
    okay, next := VerifyTyped(mem, ptr, size, l);
    if okay && catchAll {
      var addr, afterAddr, okay2 := ReadAndVerifyUnsigned(mem, next, Some(l.fileEnd), okay);
      assert UnsignedAt(mem, next) == Read(addr, afterAddr);
      okay := okay2 && addr < l.insnsSize;
      next := afterAddr;
    }
  }

  ghost predicate AllHandlersOkay(mem: Memory, base: nat, first: nat, n: nat, l: Limits) {
    forall i: nat | i < n :: HandlersOkay(mem, base + OffsetOf(mem, base, first, i), l)
  }

  // Returns 0 on failure, as the source does; first is never 0.
  method SetHandlerOffsAndVerify(mem: Memory, base: nat, first: nat, handlerOffs: array<nat>, l: Limits)
    returns (end: nat)
    requires 0 < first
    modifies handlerOffs
    ensures end != 0 <==> AllHandlersOkay(mem, base, first, handlerOffs.Length, l)
    ensures end != 0 ==> end == OffsetOf(mem, base, first, handlerOffs.Length)
    ensures end != 0 ==>
              forall i | 0 <= i < handlerOffs.Length :: handlerOffs[i] == OffsetOf(mem, base, first, i)
  {
    hide HandlersOkay, HandlersAt;
    var offset := first;
    for i := 0 to handlerOffs.Length
      invariant offset == OffsetOf(mem, base, first, i) && offset > 0
      invariant AllHandlersOkay(mem, base, first, i, l)
      invariant forall k | 0 <= k < i :: handlerOffs[k] == OffsetOf(mem, base, first, k)
    {
      var okay, ptr := VerifyHandlers(mem, base + offset, l);
      if !okay {
        assert !HandlersOkay(mem, base + OffsetOf(mem, base, first, i), l);
        return 0;
      }
      handlerOffs[i] := offset;
      OffsetsMoveForward(mem, base, first, i + 1);
      offset := ptr - base;
    }
    return offset;
  }

  // ----- swapTriesAndCatches -----

  function End(t: Try): nat {
    t.startAddr + t.insnCount
  }

  // Tries are sorted, do not overlap, and lie inside the code; each points at one of the lists.
  ghost predicate TriesOkay(tries: seq<Try>, insnsSize: u4, handlerOffs: seq<nat>) {
    forall i | 0 <= i < |tries| :: TryOkay(tries, i, insnsSize, handlerOffs)
  }

  predicate TryOkay(tries: seq<Try>, i: nat, insnsSize: u4, handlerOffs: seq<nat>)
    requires i < |tries|
  {
    && (if i == 0 then 0 else End(tries[i - 1])) <= tries[i].startAddr < insnsSize
    && End(tries[i]) <= insnsSize
    && tries[i].handlerOff in handlerOffs
  }

  // the offsets of all lists
  function Offsets(mem: Memory, base: nat, first: nat, n: nat): seq<nat> {
    seq(n, i requires 0 <= i < n => OffsetOf(mem, base, first, i))
  }

  ghost predicate Accepted(mem: Memory, code: Code, l: Limits) {
    var count := UnsignedAt(mem, code.handlerData);
    var first := count.next - code.handlerData;
    && Verified(mem, code.handlerData, Some(l.fileEnd)) && 0 < count.value < 65536
    && AllHandlersOkay(mem, code.handlerData, first, count.value, l)
    && TriesOkay(code.tries, code.insnsSize, Offsets(mem, code.handlerData, first, count.value))
  }

  // where the last list ends
  function EndOfHandlers(mem: Memory, code: Code): nat {
    var count := UnsignedAt(mem, code.handlerData);
    code.handlerData + OffsetOf(mem, code.handlerData, count.next - code.handlerData, count.value)
  }

  // The code units fit into the file (swapCodeItem has checked that), so insnsSize is below 2^31 and the
  // 32-bit sum of a start address and a count does not wrap around.
  method SwapTriesAndCatches(mem: Memory, code: Code, l: Limits) returns (end: Option<nat>)
    requires code.insnsSize == l.insnsSize < 0x8000_0000
    ensures end.Some? <==> Accepted(mem, code, l)
    ensures end.Some? ==> end.value == EndOfHandlers(mem, code)
  {
    hide UnsignedAt, Verified, OffsetOf, HandlersOkay;
    var base := code.handlerData;
    var handlersSize, encodedPtr, okay := ReadAndVerifyUnsigned(mem, base, Some(l.fileEnd), true);
    assert UnsignedAt(mem, base) == Read(handlersSize, encodedPtr);
    if !okay || handlersSize == 0 || handlersSize >= 65536 {
      return None;
    }
    UnsignedMovesForward(mem, base);
    var first := encodedPtr - base;
    var handlerOffs := new nat[handlersSize];
    var endOffset := SetHandlerOffsAndVerify(mem, base, first, handlerOffs, l);
    if endOffset == 0 {
      return None;
    }
    assert handlerOffs[..] == Offsets(mem, base, first, handlersSize);
    var triesOkay := CheckTries(code.tries, code.insnsSize, handlerOffs);
    if !triesOkay {
      return None;
    }
    return Some(base + endOffset);
  }

  lemma UnsignedMovesForward(mem: Memory, pos: nat)
    ensures pos < UnsignedAt(mem, pos).next
  {
  }

  // The loop over the tries.
  method CheckTries(tries: seq<Try>, insnsSize: u4, handlerOffs: array<nat>) returns (okay: bool)
    requires insnsSize < 0x8000_0000
    ensures okay <==> TriesOkay(tries, insnsSize, handlerOffs[..])
  {
    var lastEnd: u4 := 0;
    for k := 0 to |tries|
      invariant forall i | 0 <= i < k :: TryOkay(tries, i, insnsSize, handlerOffs[..])
      invariant lastEnd == if k == 0 then 0 else End(tries[k - 1])
    {
      var t := tries[k];
      var i := 0;
      while i < handlerOffs.Length && t.handlerOff != handlerOffs[i]
        invariant i <= handlerOffs.Length && t.handlerOff !in handlerOffs[..i]
      {
        i := i + 1;
      }
      assert t.handlerOff in handlerOffs[..] <==> i < handlerOffs.Length by {
        if i < handlerOffs.Length {
          assert handlerOffs[..][i] == t.handlerOff;
        } else {
          assert handlerOffs[..i] == handlerOffs[..];
        }
      }
      if t.startAddr < lastEnd || t.startAddr >= insnsSize || i == handlerOffs.Length {
        assert !TryOkay(tries, k, insnsSize, handlerOffs[..]);
        return false;
      }
      lastEnd := (t.startAddr + t.insnCount) % TWO32;
      if lastEnd > insnsSize {
        assert !TryOkay(tries, k, insnsSize, handlerOffs[..]);
        return false;
      }
    }
    return true;
  }

  // ----- DexCatchIterator -----

  class CatchIterator {
    const mem: Memory
    var encodedData: nat
    var catchesAll: bool
    var countRemaining: u4
    var handler: Handler

    // dexCatchIteratorClear
    constructor (mem: Memory)
      ensures this.mem == mem && Remaining() == []
    {
      this.mem := mem;
      encodedData, catchesAll, countRemaining := 0, false, 0;
      handler := Handler(0, 0);
    }

    ghost function Rest(): Read<seq<Handler>>
      reads this
    {
      ListAt(mem, encodedData, countRemaining, catchesAll)
    }

    // the handlers that are still to come
    ghost function Remaining(): seq<Handler>
      reads this
    {
      Rest().value
    }

    // dexCatchIteratorInitToPointer
    method InitToPointer(pos: nat)
      modifies this
      ensures Rest() == HandlersAt(mem, pos)
    {
      hide SignedAt, ListAt;
      var count, data := ReadSigned(mem, pos);
      assert SignedAt(mem, pos) == Read(count, data);
      if count <= 0 {
        catchesAll := true;
        count := -count;
      } else {
        catchesAll := false;
      }
      encodedData := data;
      countRemaining := count;
    }

    // dexCatchIteratorNext; false stands for NULL
    method Next() returns (more: bool)
      modifies this
      ensures more <==> old(Remaining()) != []
      ensures more ==> old(Remaining()) == [handler] + Remaining()
      ensures !more ==> Remaining() == []
      ensures Rest().next == old(Rest()).next
    {
      hide UnsignedAt;
      if countRemaining == 0 {
        if !catchesAll {
          return false;
        }
        catchesAll := false;
        handler := handler.(typeIdx := NO_INDEX);
      } else {
        var typeIdx, data := ReadUnsigned(mem, encodedData);
        assert UnsignedAt(mem, encodedData) == Read(typeIdx, data);
        handler := handler.(typeIdx := typeIdx);
        encodedData := data;
        countRemaining := countRemaining - 1;
      }
      var address, data := ReadUnsigned(mem, encodedData);
      assert UnsignedAt(mem, encodedData) == Read(address, data);
      handler := handler.(address := address);
      encodedData := data;
      assert old(Remaining()) == [handler] + Remaining();
      return true;
    }

    // The loop of every caller: take handlers until there are no more.
    method Drain() returns (handlers: seq<Handler>)
      modifies this
      ensures handlers == old(Remaining()) && Remaining() == []
    {
      hide ListAt;
      handlers := [];
      var more := Next();
      ghost var left := Remaining();
      while more
        invariant more ==> old(Remaining()) == handlers + [handler] + Remaining()
        invariant !more ==> old(Remaining()) == handlers && Remaining() == []
        decreases |Remaining()|, more
      {
        handlers := handlers + [handler];
        more := Next();
      }
    }

    // dexCatchIteratorGetEndOffset
    method GetEndOffset(base: nat) returns (offset: int)
      modifies this
      ensures offset == old(Rest()).next - base
    {
      hide ListAt;
      var more := Next();
      while more
        invariant Rest().next == old(Rest()).next && (!more ==> Remaining() == [])
        decreases |Remaining()|, more
      {
        more := Next();
      }
      NothingRemains();
      offset := encodedData - base;
    }

    lemma NothingRemains()
      requires Remaining() == []
      ensures Rest().next == encodedData
    {
    }
  }

  // Whoever iterates from a list that verification has accepted gets exactly that list: typed handlers,
  // then the catch-all if there is one, all in range.
  method IterateVerified(mem: Memory, pos: nat, ghost l: Limits) returns (handlers: seq<Handler>)
    requires HandlersOkay(mem, pos, l)
    ensures handlers == HandlersAt(mem, pos).value && WellFormed(handlers, l)
  {
    hide HandlersOkay, HandlersAt;
    var it := new CatchIterator(mem);
    it.InitToPointer(pos);
    handlers := it.Drain();
    VerifiedListIsWellFormed(mem, pos, l);
  }

  // ----- dexGetDexCodeSize -----

  // Walking all the lists again, unchecked, ends where verification ended.
  method CodeSize(mem: Memory, code: Code, ghost l: Limits) returns (size: int)
    requires code.tries != [] && Accepted(mem, code, l)
    ensures code.start + size == EndOfHandlers(mem, code)
  {
    hide UnsignedAt, HandlersAt, Accepted;
    var base := code.handlerData;
    var handlersSize, data := ReadUnsigned(mem, base);
    UnsignedMovesForward(mem, base);
    assert UnsignedAt(mem, base) == Read(handlersSize, data);
    ghost var first := data - base;
    var offset: int := data - base;
    for ui := 0 to handlersSize
      invariant offset == OffsetOf(mem, base, first, ui)
    {
      var it := new CatchIterator(mem);
      it.InitToPointer(base + offset);
      OffsetsMoveForward(mem, base, first, ui + 1);
      offset := it.GetEndOffset(base);
    }
    size := base - code.start + offset;
  }

  // ----- Finding the handler of an address -----

  predicate Covers(t: Try, address: u4) {
    t.startAddr <= address < End(t)
  }

  ghost predicate Sorted(tries: seq<Try>) {
    forall i, j | 0 <= i < j < |tries| :: End(tries[i]) <= tries[j].startAddr
  }

  lemma {:induction false} AcceptedTriesAreSorted(tries: seq<Try>, insnsSize: u4, handlerOffs: seq<nat>)
    requires TriesOkay(tries, insnsSize, handlerOffs)
    ensures Sorted(tries)
  {
    forall i, j | 0 <= i < j < |tries|
      ensures End(tries[i]) <= tries[j].startAddr
    {
      SortedTo(tries, insnsSize, handlerOffs, i, j);
    }
  }

  lemma {:induction false} SortedTo(tries: seq<Try>, insnsSize: u4, handlerOffs: seq<nat>, i: nat, j: nat)
    requires TriesOkay(tries, insnsSize, handlerOffs) && i < j < |tries|
    ensures End(tries[i]) <= tries[j].startAddr
    decreases j
  {
    assert TryOkay(tries, j, insnsSize, handlerOffs);
    if i < j - 1 {
      SortedTo(tries, insnsSize, handlerOffs, i, j - 1);
    }
  }

  // At most one try covers an address, empty tries included.
  lemma OneTryCovers(tries: seq<Try>, insnsSize: u4, handlerOffs: seq<nat>, i: nat, j: nat, address: u4)
    requires TriesOkay(tries, insnsSize, handlerOffs) && i < |tries| && j < |tries|
    requires Covers(tries[i], address) && Covers(tries[j], address)
    ensures i == j
  {
    AcceptedTriesAreSorted(tries, insnsSize, handlerOffs);
  }

  // the handler offset of the first try that covers the address, or -1
  function LinearScan(tries: seq<Try>, address: u4): (offset: int)
    ensures offset >= -1
  {
    if tries == [] then -1
    else if Covers(tries[0], address) then tries[0].handlerOff
    else LinearScan(tries[1..], address)
  }

  lemma {:induction false} ScanFinds(tries: seq<Try>, address: u4, i: nat)
    requires i < |tries| && Covers(tries[i], address)
    requires forall k | 0 <= k < i :: !Covers(tries[k], address)
    ensures LinearScan(tries, address) == tries[i].handlerOff
  {
    if i > 0 {
      assert !Covers(tries[0], address);
      forall k | 0 <= k < i - 1
        ensures !Covers(tries[1..][k], address)
      {
        assert tries[1..][k] == tries[k + 1];
      }
      ScanFinds(tries[1..], address, i - 1);
    }
  }

  lemma {:induction false} ScanMisses(tries: seq<Try>, address: u4)
    requires forall k | 0 <= k < |tries| :: !Covers(tries[k], address)
    ensures LinearScan(tries, address) == -1
  {
    if tries != [] {
      assert !Covers(tries[0], address);
      forall k | 0 <= k < |tries| - 1
        ensures !Covers(tries[1..][k], address)
      {
        assert tries[1..][k] == tries[k + 1];
      }
      ScanMisses(tries[1..], address);
    }
  }

  // dexFindCatchHandlerOffset0
  method FindOffset0(tries: seq<Try>, address: u4) returns (offset: int)
    requires Sorted(tries) && forall t | t in tries :: End(t) < TWO32
    ensures offset == LinearScan(tries, address)
  {
    hide LinearScan;
    var min, max := 0, |tries| - 1;
    while max >= min
      invariant 0 <= min && max < |tries| && min <= max + 1
      invariant forall k | 0 <= k < min :: !Covers(tries[k], address)
      invariant forall k | max < k < |tries| :: !Covers(tries[k], address)
    {
      var guess := (min + max) / 2;
      var t := tries[guess];
      assert t in tries;
      if address < t.startAddr {
        max := guess - 1;
        continue;
      }
      var end := (t.startAddr + t.insnCount) % TWO32;
      if address >= end {
        min := guess + 1;
        continue;
      }
      forall k | 0 <= k < guess
        ensures !Covers(tries[k], address)
      {
      }
      ScanFinds(tries, address, guess);
      return t.handlerOff;
    }
    ScanMisses(tries, address);
    return -1;
  }

  // The switch of dexFindCatchHandler: short cuts for no try and for one try, else the binary search.
  method SelectOffset(tries: seq<Try>, address: u4) returns (offset: int)
    requires Sorted(tries) && forall t | t in tries :: End(t) < TWO32
    ensures offset == LinearScan(tries, address)
  {
    offset := -1;
    if |tries| == 0 {
    } else if |tries| == 1 {
      ScanOfOne(tries, address);
      var t := tries[0];
      assert t in tries;
      if address < t.startAddr {
      } else {
        var end := (t.startAddr + t.insnCount) % TWO32;
        if address >= end {
        } else {
          offset := t.handlerOff;
        }
      }
    } else {
      offset := FindOffset0(tries, address);
    }
  }

  // On code that verification has accepted, what a linear scan selects is one of the verified lists.
  lemma SelectedListIsVerified(mem: Memory, code: Code, l: Limits, address: u4)
    requires Accepted(mem, code, l) && l.insnsSize == code.insnsSize && LinearScan(code.tries, address) >= 0
    ensures HandlersOkay(mem, code.handlerData + LinearScan(code.tries, address), l)
  {
    hide HandlersOkay, LinearScan, UnsignedAt, Verified, OffsetOf;
    UnsignedMovesForward(mem, code.handlerData);
    var count := UnsignedAt(mem, code.handlerData);
    var first := count.next - code.handlerData;
    var handlerOffs := Offsets(mem, code.handlerData, first, count.value);
    ScanIsExact(code.tries, address);
    var offset := LinearScan(code.tries, address);
    var i :| 0 <= i < |code.tries| && Covers(code.tries[i], address) && offset == code.tries[i].handlerOff;
    assert TryOkay(code.tries, i, code.insnsSize, handlerOffs);
    var k :| 0 <= k < |handlerOffs| && handlerOffs[k] == offset;
    assert HandlersOkay(mem, code.handlerData + OffsetOf(mem, code.handlerData, first, k), l);
  }

  // dexFindCatchHandler, on code that verification has accepted: it finds the handlers that a linear scan of
  // the tries selects, and the iterator then holds that verified list.
  method FindCatchHandler(it: CatchIterator, code: Code, address: u4, ghost l: Limits) returns (found: bool)
    requires Accepted(it.mem, code, l) && l.insnsSize == code.insnsSize
    modifies it
    ensures found <==> exists i :: 0 <= i < |code.tries| && Covers(code.tries[i], address)
    ensures found ==>
              && LinearScan(code.tries, address) >= 0
              && it.Rest() == HandlersAt(it.mem, code.handlerData + LinearScan(code.tries, address))
              && WellFormed(it.Remaining(), l)
    ensures !found ==> LinearScan(code.tries, address) == -1
  {
    hide HandlersAt, HandlersOkay, LinearScan, WellFormed;
    assert Sorted(code.tries) && forall t | t in code.tries :: End(t) < TWO32 by {
      UnsignedMovesForward(it.mem, code.handlerData);
      var count := UnsignedAt(it.mem, code.handlerData);
      var handlerOffs := Offsets(it.mem, code.handlerData, count.next - code.handlerData, count.value);
      AcceptedTriesAreSorted(code.tries, code.insnsSize, handlerOffs);
      AcceptedTriesDoNotWrap(code.tries, code.insnsSize, handlerOffs);
    }
    var offset := SelectOffset(code.tries, address);
    ScanIsExact(code.tries, address);
    if offset < 0 {
      it.encodedData, it.catchesAll, it.countRemaining := 0, false, 0;
      it.handler := Handler(0, 0);
      return false;
    } else {
      it.InitToPointer(code.handlerData + offset);
      SelectedListIsVerified(it.mem, code, l, address);
      VerifiedListIsWellFormed(it.mem, code.handlerData + offset, l);
      return true;
    }
  }

  lemma AcceptedTriesDoNotWrap(tries: seq<Try>, insnsSize: u4, handlerOffs: seq<nat>)
    requires TriesOkay(tries, insnsSize, handlerOffs)
    ensures forall t | t in tries :: End(t) < TWO32
  {
    forall t | t in tries
      ensures End(t) < TWO32
    {
      var i :| 0 <= i < |tries| && tries[i] == t;
      assert TryOkay(tries, i, insnsSize, handlerOffs);
    }
  }

  lemma ScanOfOne(tries: seq<Try>, address: u4)
    requires |tries| == 1
    ensures LinearScan(tries, address) == if Covers(tries[0], address) then tries[0].handlerOff else -1
  {
  }

  lemma {:induction false} ScanIsExact(tries: seq<Try>, address: u4)
    ensures LinearScan(tries, address) < 0 ==>
              LinearScan(tries, address) == -1 && forall i | 0 <= i < |tries| :: !Covers(tries[i], address)
    ensures LinearScan(tries, address) >= 0 ==>
              exists i :: 0 <= i < |tries| && Covers(tries[i], address)
                          && LinearScan(tries, address) == tries[i].handlerOff
  {
    if tries != [] && !Covers(tries[0], address) {
      ScanIsExact(tries[1..], address);
      if LinearScan(tries[1..], address) >= 0 {
        var i :| 0 <= i < |tries[1..]| && Covers(tries[1..][i], address)
                 && LinearScan(tries[1..], address) == tries[1..][i].handlerOff;
        assert tries[i + 1] == tries[1..][i];
      } else {
        forall i | 0 <= i < |tries|
          ensures !Covers(tries[i], address)
        {
          if i > 0 {
            assert tries[i] == tries[1..][i - 1];
          }
        }
      }
    }
  }
}
