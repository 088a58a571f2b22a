# Verified model of the Dalvik sources under JavaHook

The hooking code of this repository sits beside a copy of the Dalvik sources (`JavaHook/jni/dalvik`). This project models
the parts of them whose correctness is hard to see from one function, and proves what they promise:

- `AtomicCache.dfy`: the mutex-free versioned cache, as interleaved steps of any number of readers and writers on one
  entry. The three field stores of an update, and the field loads of a lookup, may happen in any order between the two
  accesses of the version.
- `Sha1Spec.dfy`, `Sha1Transform.dfy`, `Sha1.dfy`, `Sha1Abc.dfy`: the streaming SHA-1 with its in-place schedule, against
  RFC 3174 and its test case.
- `Leb128.dfy`, `ClassData.dfy`: the variable-length numbers and the delta-coded class data made of them.
- `Catch.dfy`: try blocks and catch handlers, from their verification to the unchecked readers that rely on it.
- `Mutf8.dfy`, `DexUtf.dfy`, `DexProto.dfy`, `CrossVerify.dfy`: strings, descriptors, prototypes and the order of the
  id tables, from the local checks to the global order.
- `DataMap.dfy`, `Sections.dfy`, `Spacing.dfy`, `Visitors.dfy`, `Verify.dfy`, `Layout.dfy`: the walk over the sections of
  a file, the map of visited items, all passes of dexSwapAndVerify together, and the layout they read.
- `DebugInfo.dfy`, `DebugWalk.dfy`, `DebugVerify.dfy`, `DebugSteps.dfy`, `DebugWritten.dfy`: the debug info state machine,
  the verification of its streams, and the steps that a stream is written for.
- `Hash.dfy`, `ClassLookup.dfy`, `Zip.dfy`: the open-addressing tables, over `Probing.dfy` and `Bits.dfy`.
- `BitVector.dfy`: the expandable bit vector.
- `AllocTracker.dfy`, `AllocReport.dfy`, `ReportReader.dfy`, `PointerSet.dfy`: the allocation ring, its two-pass report,
  and what a client reads in it.

Code that changes state is imperative here too: classes and arrays with methods whose contracts tie the new state to the
old one. What the contracts mean is proved beside them, on specification functions.

What code and specification share, such as constants, layouts and opcodes, is fixed from outside: by a writer whose output
reads back, by a reader that goes by the format, or by the test case of the standard.

Where a promise does not hold of the code as it stands, the code is modelled as it is and the exact condition is proved:

- A version value of the cache, lock flag included, occupies one contiguous stretch of every run if and only if it is not
  an even locked one with a counter above 0 (`AtomicCache.VersionIsContiguousIff`); without the flag all do.
- The cache answers correctly in all runs if and only if the calculated value for keys (0, 0) is 0, because entries start
  out zeroed (`AtomicCache.CacheIsTransparentIff`).
- `dexIsValidTypeDescriptor` accepts bytes that are not a valid string and that `methodDescriptorNextType` splits too
  early (`DexProto.SplitsTooEarly`, `DexProto.TypeEndIff`); verified strings do not have this problem.
- `dexUtf8Cmp` disagrees with `strcmp` exactly where an encoded U+0000 meets an ASCII character (`Mutf8.AgreesWithStrcmp`).
- `dvmHashTableRemove` looks at the item only. It does what was asked for if and only if the first entry with this item on
  the probe, when there is one, is filed under this hash (`Hash.HashTable.Remove`, `Hash.RemoveIgnoresHash`).
- The register check of the debug info decoder lets one register number too many through (`DebugInfo.OneRegisterTooMany`).
  Decoding leaves the local array if and only if it gets to such an opcode (`DebugWalk.LeavesIff`), and never if a walk
  over the opcodes finds only registers that exist (`DebugWalk.DecodeStaysInside`).
- Verification of a debug stream reads the file name of DBG_SET_FILE as its operand, the decoder does not. A verified
  stream is decoded to its verified end if and only if a walk over its opcodes gets there
  (`DebugVerify.VerifiedIsDecodedIff`), as it does without that opcode (`DebugVerify.VerifiedIsDecoded`).
- Nothing checks that the id tables are aligned; items are verified where they are read if and only if they are
  (`Verify.EntryIsReadIff`), and a file whose string_ids are not can be accepted (`Verify.UnalignedIsAccepted`).
- Nothing checks that the map lists string_ids before the sections that look strings up; if and only if it does not, some
  tables that the swapping pass lets through send the checks to unverified memory (`CrossVerify.OrderStraysIff`).
- `readAndVerifySignedLeb128` takes the four low bits of a fifth byte only, as its comment says, so the usual encoding of a
  number passes if and only if the number is not below -2^27 (`Leb128.SignedVerifiesIff`).
- The block for class data holds its lists if and only if their size is below 2^32 (`ClassData.BlockHoldsIff`). A store
  leaves it if and only if it ends before the last slot whose numbers verify (`ClassData.ReadClassData`).
- `SHA1Update` stays inside its buffer if and only if the new bytes and those it has kept are fewer than 2^32
  (`Sha1.Sha1Context.Update`).
- An allocation report stays inside its string tables if and only if there are at most 0x8000 different names of each
  kind (`AllocTracker.Tracker.Report`), and tracking inside its records if and only if the configured maximum is not 0
  (`AllocTracker.Run`).
- The entry count of an allocation report does not fit when the tracker is full at its default size
  (`AllocReport.EntryCountIsExact`).

Where the code would leave a block, follow an unverified offset or fail an assert, the model stops with an outcome of its
own (`OutOfBounds`, `OutOfBlock`, `OutOfList`, `Astray`, or a flag named `okay` or `inside`).

Integers have the widths of the 32-bit ARM target, `char` is unsigned and byte order is little-endian. Readable memory is
a total function from addresses to bytes, so a read just past a file yields some byte. Masks with a power of two minus one
are written as remainders in the tables and the ring; `Bits.MaskIsRemainder` says why that is the same.

## Model

| member | source | states |
|---|---|---|
| AtomicCache.StepKeepsInv | JavaHook/jni/dalvik/vm/AtomicCache.cpp:110-163 | one load, store or CAS of any thread, reader or writer, keeps the invariant of entry and threads |
| AtomicCache.RunInv | JavaHook/jni/dalvik/vm/AtomicCache.cpp:110-163 | the invariant holds in every state of every interleaving of any number of threads |
| AtomicCache.WritersAreSafe | JavaHook/jni/dalvik/vm/AtomicCache.cpp:110-163 | at most one thread is between its two CAS steps, its asserts hold, no thread has aborted, an odd version has the lock flag, and the flag is set exactly while some thread updates |
| AtomicCache.FieldsChangeOnlyWhenOdd | JavaHook/jni/dalvik/vm/AtomicCache.cpp:140-151 | keys and value change only in steps that start and end under one odd version |
| AtomicCache.CounterIsMonotone | JavaHook/jni/dalvik/vm/AtomicCache.cpp:140-163 | the version without its lock flag never goes back in a run |
| AtomicCache.CounterIsContiguous | JavaHook/jni/dalvik/vm/AtomicCache.cpp:140-163 | each counter value fills one contiguous stretch of a run, and the fields do not change during an even one |
| AtomicCache.VersionIsAlmostContiguous | JavaHook/jni/dalvik/vm/AtomicCache.cpp:140-163 | a version value with its flag that comes back after another is even and locked, with a counter above 0, and what comes between is that counter without the flag |
| AtomicCache.ReleaseOf | JavaHook/jni/dalvik/vm/AtomicCache.cpp:110-163 | a single thread that updates again and again gets to a release of every even counter below the flag |
| AtomicCache.LockedEvenVersionRecurs | JavaHook/jni/dalvik/vm/AtomicCache.cpp:140-163 | after every release the run can be continued so that the locked even version comes back |
| AtomicCache.VersionIsContiguousIff | JavaHook/jni/dalvik/vm/AtomicCache.cpp:110-163 | a version value, flag included, fills one contiguous stretch in every run if and only if it is not an even locked one with a counter above 0 |
| AtomicCache.HitSeesOneUpdate | JavaHook/jni/dalvik/vm/AtomicCache.h:95-145 | between the two version loads of an accepted hit the entry held exactly the requested keys and the returned value throughout, so fields of two updates are never mixed |
| AtomicCache.LookupReturnsValueOfKeys | JavaHook/jni/dalvik/vm/AtomicCache.h:95-145 | in every interleaving a finished lookup returned the calculated value of its keys, or 0 for a hit with keys (0, 0) |
| AtomicCache.CacheIsTransparentIff | JavaHook/jni/dalvik/vm/AtomicCache.h:95-145 | all lookups of all runs are correct if and only if the calculated value for keys (0, 0) is 0 |
| AtomicCache.FreshEntryHit | JavaHook/jni/dalvik/vm/AtomicCache.cpp:40-67 | a fresh entry, all zero as calloc leaves it, answers keys (0, 0) with a hit of value 0 |
| AtomicCache.FlagIsTopBit | JavaHook/jni/dalvik/vm/AtomicCache.cpp:35 | the flag is the top one of 32 bits and the counter is the others |
| AtomicCache.UpdateIsStored | JavaHook/jni/dalvik/vm/AtomicCache.cpp:110-163 | when an update releases the entry, that holds its keys with their calculated value, unlocked and even |
| AtomicCache.EntryIsFound | JavaHook/jni/dalvik/vm/AtomicCache.h:95-145 | while an entry is unlocked and even, a lookup of its keys by any thread can end as a hit with its value |
| AtomicCache.MissHasReason | JavaHook/jni/dalvik/vm/AtomicCache.h:95-145 | a lookup that calculates had an odd first version, a changed version, or an entry that held other keys at some time between its two version loads |
| Sha1Transform.SwapBytesOfLittleEndian | JavaHook/jni/dalvik/libdex/sha1.cpp:115-121 | blk0 on a word loaded little-endian is the big-endian word of the message |
| Sha1Transform.ChoiceFormula | JavaHook/jni/dalvik/libdex/sha1.cpp:126 | the rewritten choice formula is f of rounds 0 to 19 in section 5 of RFC 3174 |
| Sha1Transform.MajorityFormula | JavaHook/jni/dalvik/libdex/sha1.cpp:129 | the rewritten majority formula is f of rounds 40 to 59 |
| Sha1Transform.LogicIsF | JavaHook/jni/dalvik/libdex/sha1.cpp:125-130 | the logic of R0 to R4 is f(t; B, C, D) for all 80 rounds |
| Sha1Transform.NextWord | JavaHook/jni/dalvik/libdex/sha1.cpp:115-123 | the in-place 16-word circular schedule holds W(i) at slot i mod 16 when line i uses it, and loses no word that is still needed |
| Sha1Transform.WordRecurrence | JavaHook/jni/dalvik/libdex/sha1.cpp:122-123 | the three offset slots and the slot itself are W(t-3), W(t-8), W(t-14) and W(t-16) |
| Sha1Transform.Line | JavaHook/jni/dalvik/libdex/sha1.cpp:125-130 | one macro line with rotated register names is one round of section 6.1 of RFC 3174 |
| Sha1Transform.Lines | JavaHook/jni/dalvik/libdex/sha1.cpp:158-184 | the eighty lines compute the eighty rounds on the 80-word schedule |
| Sha1Transform.Transform | JavaHook/jni/dalvik/libdex/sha1.cpp:135-196 | the state becomes the compression of section 6.1 of the old state and the block |
| Sha1.CountCarries | JavaHook/jni/dalvik/libdex/sha1.cpp:220-223 | the two-word bit count with its carry test is the 64-bit count of all bytes so far |
| Sha1.Sha1Context.constructor | JavaHook/jni/dalvik/libdex/sha1.cpp:201-210 | a new context has absorbed the empty message |
| Sha1.Sha1Context.TakeBlocks | JavaHook/jni/dalvik/libdex/sha1.cpp:224-230 | filling the buffer and then taking whole blocks from the data compresses exactly the blocks of everything fed so far, with no sum i + 63 wrapping around |
| Sha1.Sha1Context.Absorb | JavaHook/jni/dalvik/libdex/sha1.cpp:224-235 | the state is the chain over all whole blocks and the buffer holds the rest, if and only if the sum j + len does not wrap around; if it does the copy leaves the buffer |
| Sha1.Sha1Context.Update | JavaHook/jni/dalvik/libdex/sha1.cpp:215-236 | count, state and buffer are those of the bytes fed before followed by the new ones, if and only if the new ones and those kept in the buffer are fewer than 2^32 |
| Sha1.Sha1Context.Pad | JavaHook/jni/dalvik/libdex/sha1.cpp:254-257 | the padding loop ends, having fed the 1 bit and as many zero bytes as section 4 of RFC 3174 asks for |
| Sha1.CountOctetIsLengthOctet | JavaHook/jni/dalvik/libdex/sha1.cpp:248-253 | the eight count bytes are the big-endian length of section 4 of RFC 3174 |
| Sha1.Sha1Context.Final | JavaHook/jni/dalvik/libdex/sha1.cpp:241-272 | the digest is the one of RFC 3174 for everything fed, and the context is wiped |
| Sha1.HashPieces | JavaHook/jni/dalvik/libdex/sha1.cpp:215-272 | however a message is cut into updates, the digest is that of the whole message, if and only if no piece makes that sum wrap around |
| Sha1Abc.DigestOfAbc | JavaHook/jni/dalvik/libdex/sha1.cpp:125-196 | the digest of the three bytes abc is the one in section 7.3 of RFC 3174, which fixes the constants, rotations, start values and byte order that code and definition share |
| Leb128.ReadUnsigned | JavaHook/jni/dalvik/libdex/Leb128.h:31-59 | the reader yields the sum of the 7-bit groups modulo 2^32 and stops after at most five bytes |
| Leb128.ReadSigned | JavaHook/jni/dalvik/libdex/Leb128.h:66-102 | the reader yields the two's complement value of the bits that are there |
| Leb128.ReadAndVerifyUnsigned | JavaHook/jni/dalvik/libdex/Leb128.cpp:31-43 | okay stays set exactly if the number ends before the limit and a fifth byte fits in 32 bits |
| Leb128.ReadAndVerifySigned | JavaHook/jni/dalvik/libdex/Leb128.cpp:53-65 | the same for signed numbers |
| Leb128.WriteUnsigned | JavaHook/jni/dalvik/libdex/Leb128.h:133-147 | the shortest encoding is written, and nothing else changes |
| Leb128.UnsignedSize | JavaHook/jni/dalvik/libdex/Leb128.h:152-162 | the size is the length of what is written |
| Leb128.AtMostFiveBytes | JavaHook/jni/dalvik/libdex/Leb128.h:133-147 | a u4 takes at most five bytes |
| Leb128.RoundTrip | JavaHook/jni/dalvik/libdex/Leb128.h:31-59 | what was written reads back as the same value, ends where it ended, and passes verification |
| Leb128.WriterIsShortest | JavaHook/jni/dalvik/libdex/Leb128.h:133-162 | no bytes that read back as the value are fewer than those written |
| Leb128.SignedRoundTrip | JavaHook/jni/dalvik/libdex/Leb128.h:66-102 | every 32-bit number, encoded as a signed LEB128 number, reads back as itself and ends where it ended |
| Leb128.SignedVerifiesIff | JavaHook/jni/dalvik/libdex/Leb128.cpp:54-66 | that encoding passes verification if and only if it ends before the limit and the number is not below -2^27 |
| Leb128.SignedIsTwosComplement | JavaHook/jni/dalvik/libdex/Leb128.h:66-102 | for all bytes, the value is their 7-bit groups in two's complement of seven bits for each byte, or of 32 for five bytes |
| ClassData.VerifyUlebs | JavaHook/jni/dalvik/libdex/DexClass.cpp:28-37 | true exactly if that many numbers end before the limit |
| ClassData.ReadFields | JavaHook/jni/dalvik/libdex/DexClass.cpp:162-172 | the fields read are the delta-decoded list at this place, or reading fails exactly if a number does not verify; a store leaves the block exactly if the slots of the fields that verify one after the other do not fit |
| ClassData.ReadMethods | JavaHook/jni/dalvik/libdex/DexClass.cpp:174-184 | the same for methods |
| ClassData.ReadClassData | JavaHook/jni/dalvik/libdex/DexClass.cpp:104-192 | the four lists and the end are those of the format; rejected exactly if a number does not verify before a store leaves the block of resultSize bytes; and a store leaves it exactly if it is smaller than the structure or ends before the last slot whose numbers verify |
| ClassData.StoredIsAnnounced | JavaHook/jni/dalvik/libdex/DexClass.cpp:162-184 | no slot is stored to behind the announced lists, and they are filled when everything can be read |
| ClassData.BlockIsLeft | JavaHook/jni/dalvik/libdex/DexClass.cpp:118-184 | the block is only left if the announced lists take 2^32 bytes or more, and then nothing is returned |
| ClassData.BlockHoldsIff | JavaHook/jni/dalvik/libdex/DexClass.cpp:118-124 | resultSize, computed in 32 bits, is enough for the four lists if and only if their true size is below 2^32 |
| ClassData.HeaderLeavesBlock | JavaHook/jni/dalvik/libdex/DexClass.cpp:118-134 | class data whose header announces 0x1ffffffc static fields gets a block of no bytes, which storing the header leaves |
| ClassData.MethodsLeaveBlock | JavaHook/jni/dalvik/libdex/DexClass.cpp:118-134 | one that announces 0x15555553 methods of either kind gets four bytes |
| ClassData.FieldLeavesBlock | JavaHook/jni/dalvik/libdex/DexClass.cpp:118-172 | one that announces 0x20000000 gets 32 bytes, and leaves the block if and only if the first field verifies; else it is rejected |
| ClassData.ReadBackFields | JavaHook/jni/dalvik/libdex/DexClass.h:136-143 | delta-coded fields decode to the list they were made from |
| ClassData.ReadBackMethods | JavaHook/jni/dalvik/libdex/DexClass.h:152-160 | delta-coded methods decode to the list they were made from |
| ClassData.ReadBackHeader | JavaHook/jni/dalvik/libdex/DexClass.h:121-127 | the four counts are read back |
| ClassData.ClassDataRoundTrip | JavaHook/jni/dalvik/libdex/DexClass.cpp:104-192 | class data written as counts and deltas is read back as the same lists, ending at its end, if and only if it ends before the limit and its block is smaller than 2^32 bytes |
| Catch.VerifiedListIsWellFormed | JavaHook/jni/dalvik/libdex/DexSwapVerify.cpp:1669-1722 | in a verified handler list all addresses are inside the code, types are in range, and only the last handler can be a catch-all |
| Catch.ListReadsBack | JavaHook/jni/dalvik/libdex/DexCatch.h:57-129 | a handler list that was written, its size negative if there is a catch-all, reads back as its handlers and ends where it ended; it passes verification exactly if it ends in the file and sizes, types and addresses are in range |
| Catch.ListsReadBack | JavaHook/jni/dalvik/libdex/DexCatch.h:57-129 | every list of a code item is found at the offset that the lists before it end at |
| Catch.SetHandlerOffsAndVerify | JavaHook/jni/dalvik/libdex/DexSwapVerify.cpp:1653-1727 | it succeeds exactly if every list passes, records the offset of each, and returns where the last one ends |
| Catch.CheckTries | JavaHook/jni/dalvik/libdex/DexSwapVerify.cpp:1757-1800 | the loop over the tries accepts exactly ascending tries without overlap, inside the code, with a recorded handler offset |
| Catch.SwapTriesAndCatches | JavaHook/jni/dalvik/libdex/DexSwapVerify.cpp:1731-1803 | it succeeds exactly if tries and handlers are acceptable, and returns the end of the handlers |
| Catch.AcceptedTriesAreSorted | JavaHook/jni/dalvik/libdex/DexSwapVerify.cpp:1757-1800 | the check of neighbours orders all tries |
| Catch.OneTryCovers | JavaHook/jni/dalvik/libdex/DexSwapVerify.cpp:1757-1800 | at most one accepted try covers an address, zero-length ones included |
| Catch.CatchIterator.InitToPointer | JavaHook/jni/dalvik/libdex/DexCatch.h:65-79 | the iterator stands before the handler list encoded there |
| Catch.CatchIterator.Next | JavaHook/jni/dalvik/libdex/DexCatch.h:90-106 | it yields the first of the remaining handlers, the catch-all last, or nothing exactly if none remains |
| Catch.CatchIterator.GetEndOffset | JavaHook/jni/dalvik/libdex/DexCatch.cpp:85-90 | draining the iterator leaves it at the end of its list |
| Catch.IterateVerified | JavaHook/jni/dalvik/libdex/DexCatch.h:65-106 | iterating from a recorded offset yields exactly the verified handlers |
| Catch.CodeSize | JavaHook/jni/dalvik/libdex/DexFile.cpp:493-524 | with tries, the size ends exactly where verification ended |
| Catch.FindOffset0 | JavaHook/jni/dalvik/libdex/DexCatch.cpp:52-81 | the binary search finds what a linear scan finds |
| Catch.SelectOffset | JavaHook/jni/dalvik/libdex/DexCatch.h:120-143 | with the short cuts for no try and one try the result is still that of a linear scan |
| Catch.ScanIsExact | JavaHook/jni/dalvik/libdex/DexCatch.h:120-160 | the scan misses exactly if no try covers the address, and else answers the first that does |
| Catch.SelectedListIsVerified | JavaHook/jni/dalvik/libdex/DexCatch.h:120-160 | the list at a selected offset is one that was verified |
| Catch.FindCatchHandler | JavaHook/jni/dalvik/libdex/DexCatch.h:120-160 | it is found exactly if a try covers the address, and the iterator then yields that try's verified handlers |
| Hash.HashSizeSuffices | JavaHook/jni/dalvik/vm/Hash.cpp:36-38 | a table of dvmHashSize(n) slots, rounded up, is within its load with n entries |
| Hash.InsertKeeps | JavaHook/jni/dalvik/vm/Hash.cpp:209-218 | filing an item where its probe stopped keeps all entries reachable and unique |
| Hash.BuryKeeps | JavaHook/jni/dalvik/vm/Hash.cpp:262-268 | a tombstone removes exactly one pair and keeps all other entries reachable |
| Hash.ProbeIsComplete | JavaHook/jni/dalvik/vm/Hash.cpp:186-206 | a probe that stops at an empty slot has met every entry that could match |
| Hash.CountIsCardinality | JavaHook/jni/dalvik/vm/Hash.cpp:209-218 | the number of live entries is the size of the set of (hash, item) pairs |
| Hash.HashTable.constructor | JavaHook/jni/dalvik/vm/Hash.cpp:44-67 | a new table is empty, with what dexRoundUpPower2 makes of the size, the least power of two that is large enough |
| Hash.HashTable.Clear | JavaHook/jni/dalvik/vm/Hash.cpp:72-92 | the set becomes empty, without tombstones |
| Hash.HashTable.Resize | JavaHook/jni/dalvik/vm/Hash.cpp:132-167 | the same set in twice the slots, without tombstones; both loops terminate |
| Hash.HashTable.ProbeForSpot | JavaHook/jni/dalvik/vm/Hash.cpp:150-155 | the probe ends at an empty slot and has passed only occupied ones |
| Hash.HashTable.Lookup | JavaHook/jni/dalvik/vm/Hash.cpp:174-243 | it answers the entry with that hash and an equivalent item if the set has one; else it adds the item if asked to. The load bound holds again afterwards, and the table grows only past it |
| Hash.HashTable.Remove | JavaHook/jni/dalvik/vm/Hash.cpp:250-280 | what goes is the first entry on the probe with this item, whatever its hash; set and answer change as for the pair asked for if and only if that entry, when there is one, is filed under this hash, as it always is for an item filed under one hash only |
| Hash.OnlyEntryIsMet | JavaHook/jni/dalvik/vm/Hash.cpp:250-280 | the only entry of a table is met first by every probe that starts at the same slot as its own |
| Hash.RemoveIgnoresHash | JavaHook/jni/dalvik/vm/Hash.cpp:250-280 | on a table that a lookup has filled, an item filed under 1 is removed under 5 |
| Hash.HashTable.ForeachRemove | JavaHook/jni/dalvik/vm/Hash.cpp:291-313 | entries for which the function answers 1 are removed up to the first other nonzero answer, which is returned; nothing else changes |
| Hash.Preallocate | JavaHook/jni/dalvik/vm/Hash.cpp:36-38 | a table created for n items takes n additions, keeps its size and then answers all of them |
| Bits.MaskIsRemainder | JavaHook/jni/dalvik/libdex/DexFile.cpp:185-186 | masking with a power of two minus one is the remainder |
| Bits.RoundUpPower2 | JavaHook/jni/dalvik/libdex/DexFile.cpp:531-542 | for 1 to 2^31 the result is the least power of two that is not smaller; for 0 and above it is 0 |
| Bits.DexRoundUpPower2 | JavaHook/jni/dalvik/libdex/DexFile.cpp:531-542 | the same on numbers: the least power of two for 1 to 2^31, else 0 |
| Bits.LeastPower2IsLeast | JavaHook/jni/dalvik/libdex/DexFile.cpp:531-542 | no smaller power of two will do |
| Probing.HomeIsMasked | JavaHook/jni/dalvik/vm/Hash.cpp:186 | the first slot of a probe is the hash masked with the size minus one |
| Probing.InsertBuilt | JavaHook/jni/dalvik/libdex/DexFile.cpp:188-203 | filling the first free slot of a probe keeps the order in which equal keys are met |
| Probing.ProbeFindsFirst | JavaHook/jni/dalvik/libdex/DexFile.cpp:453-472 | a probe stops at the first entry added under its key, or at a free slot if there is none |
| ClassLookup.ClassDescriptorHash | JavaHook/jni/dalvik/libdex/DexFile.cpp:163-171 | the loop computes the fold h*31+c over the bytes, modulo 2^32 |
| ClassLookup.DexFile.ClassLookupAdd | JavaHook/jni/dalvik/libdex/DexFile.cpp:177-204 | the class goes to a slot from which every lookup will find the first of its descriptor |
| ClassLookup.DexFile.constructor | JavaHook/jni/dalvik/libdex/DexFile.cpp:211-262 | all classes are in the table, which has a free slot left; for no class the table has no slots |
| ClassLookup.DexFile.FindClass | JavaHook/jni/dalvik/libdex/DexFile.cpp:441-474 | the answer is that of a linear scan for the first class with the descriptor, and the loop terminates |
| Zip.ZipArchive.AddToHash | JavaHook/jni/dalvik/libdex/ZipArchive.cpp:105-119 | the name goes to a slot from which every lookup will find the first of its kind |
| Zip.ZipArchive.ParseZipArchive | JavaHook/jni/dalvik/libdex/ZipArchive.cpp:184-354 | it succeeds exactly if all entries of the central directory pass the checks, and then the table holds all their names in order |
| Zip.DirectoryReadsBack | JavaHook/jni/dalvik/libdex/ZipArchive.cpp:53-64 | a central directory written field after field passes exactly if it ends in the mapped part and the local headers are in front of it, and then the names are those that were written |
| Zip.ZipArchive.FindEntry | JavaHook/jni/dalvik/libdex/ZipArchive.cpp:425-444 | the answer is the slot of the first entry of that name, or 0 exactly if there is none |
| Mutf8.DecodesUnit | JavaHook/jni/dalvik/libdex/DexUtf.h:40-63 | the decoder undoes the canonical encoding of every code unit |
| Mutf8.IntraVerifyStringDataItem | JavaHook/jni/dalvik/libdex/DexSwapVerify.cpp:1865-1963 | it accepts exactly a verified count followed by that many canonical units that start inside the file and a terminator, and returns the end |
| Mutf8.AcceptedIsEncoding | JavaHook/jni/dalvik/libdex/DexSwapVerify.cpp:1865-1963 | whatever is accepted is the canonical encoding of some units, as many as the count says |
| Mutf8.EncodingIsAccepted | JavaHook/jni/dalvik/libdex/DexSwapVerify.cpp:1865-1963 | every such encoding is accepted |
| Mutf8.AcceptedDecodes | JavaHook/jni/dalvik/libdex/DexUtf.h:40-63 | an accepted string decodes to exactly utf16Size units, and to no others |
| Mutf8.Utf8Cmp | JavaHook/jni/dalvik/libdex/DexUtf.cpp:28-47 | for all strings the decoder reads to a terminator, overlong encodings too, the result is the lexicographic comparison of the decoded units |
| Mutf8.CompareIsZero | JavaHook/jni/dalvik/libdex/DexUtf.cpp:28-47 | the comparison is 0 exactly for equal sequences |
| Mutf8.CompareReverses | JavaHook/jni/dalvik/libdex/DexUtf.cpp:28-47 | swapping the arguments negates it |
| Mutf8.CompareIsTransitive | JavaHook/jni/dalvik/libdex/DexUtf.cpp:28-47 | it is transitive |
| Mutf8.CompareIsLexicographic | JavaHook/jni/dalvik/libdex/DexUtf.cpp:28-47 | the comparison is negative exactly if the first string is a proper prefix of the second or has the smaller unit where they first differ |
| Mutf8.EncodedExamples | JavaHook/jni/dalvik/libdex/DexUtf.h:40-63 | the bytes of four characters, one of them U+0000 |
| Mutf8.EncodeIsInjective | JavaHook/jni/dalvik/libdex/DexUtf.cpp:28-47 | accepted strings with the same units have the same bytes |
| Mutf8.AgreesWithStrcmp | JavaHook/jni/dalvik/libdex/DexUtf.cpp:28-47 | it has the sign of strcmp on the bytes if and only if the strings do not first differ in an encoded U+0000 against an ASCII character |
| Mutf8.NoZeroMeetsNothing | JavaHook/jni/dalvik/libdex/DexUtf.cpp:28-47 | so it has the sign of strcmp whenever no U+0000 is encoded |
| DexUtf.LowAsciiTable | JavaHook/jni/dalvik/libdex/DexUtf.cpp:50-55 | the bit table is true exactly for digits, letters, $, - and _ |
| DexUtf.Characters | JavaHook/jni/dalvik/libdex/DexUtf.cpp:151-260 | the constants are the characters of descriptors and names that they stand for, the eight primitive types included |
| DexUtf.IsValidTypeDescriptorOrClassName | JavaHook/jni/dalvik/libdex/DexUtf.cpp:151-260 | the loops compute the recursive definition of acceptance on the bytes |
| DexUtf.ClassNameIsTail | JavaHook/jni/dalvik/libdex/DexUtf.cpp:214-259 | on verified strings the name loop accepts exactly nonempty components between separators, closed by a semicolon in a descriptor |
| DexUtf.ValidIsGrammar | JavaHook/jni/dalvik/libdex/DexUtf.cpp:263-270 | on verified strings exactly the type descriptors, or class names, of the grammar are accepted |
| DexUtf.IsValidMemberName | JavaHook/jni/dalvik/libdex/DexUtf.cpp:115-147 | the loop computes the recursive definition of acceptance on the bytes |
| DexUtf.MemberNameIsGrammar | JavaHook/jni/dalvik/libdex/DexUtf.cpp:115-147 | on verified strings exactly the names, and names between angle brackets, are accepted |
| DexUtf.TypeHasNoZero | JavaHook/jni/dalvik/libdex/DexUtf.cpp:58-112 | a verified type descriptor has no encoded U+0000 |
| DexProto.GetMethodDescriptor | JavaHook/jni/dalvik/libdex/DexProto.cpp:133-165 | the allocated buffer holds exactly the parenthesized parameters, the return type and the terminator |
| DexProto.PrintedExample | JavaHook/jni/dalvik/libdex/DexProto.cpp:133-165 | the descriptor of a method with parameters I, [Lb; and J that returns V |
| DexProto.ProtoCompare | JavaHook/jni/dalvik/libdex/DexProto.cpp:254-315 | the result is the lexicographic comparison of return type and parameters by strcmp |
| DexProto.ProtosAreEqual | JavaHook/jni/dalvik/libdex/DexProto.cpp:254-320 | it is 0 exactly for the same prototype |
| DexProto.CompareProtosTransitive | JavaHook/jni/dalvik/libdex/DexProto.cpp:254-320 | it is transitive |
| DexProto.MethodDescriptorNextType | JavaHook/jni/dalvik/libdex/DexProto.cpp:349-371 | it advances past brackets and one type, or fails |
| DexProto.TypeEndIff | JavaHook/jni/dalvik/libdex/DexProto.cpp:349-371 | the end it finds for an accepted descriptor is right if and only if the descriptor has no semicolon before its last byte |
| DexProto.SplitsTooEarly | JavaHook/jni/dalvik/libdex/DexProto.cpp:349-371 | bytes that dexIsValidTypeDescriptor accepts although they are not a valid string are split too early |
| DexProto.TypeEndOfType | JavaHook/jni/dalvik/libdex/DexProto.cpp:349-371 | for a verified type other than void the end is right whatever follows it |
| DexProto.TypesArePrefixFree | JavaHook/jni/dalvik/libdex/DexProto.cpp:349-371 | no verified type is a proper prefix of another |
| DexProto.ListsSplitOneWay | JavaHook/jni/dalvik/libdex/DexProto.cpp:380-440 | a concatenation of such types splits in one way only |
| DexProto.PrintIsInjective | JavaHook/jni/dalvik/libdex/DexProto.cpp:133-165 | prototypes that print the same are the same |
| DexProto.ReturnTypeIs | JavaHook/jni/dalvik/libdex/DexProto.cpp:332-341 | the first closing parenthesis of a printed prototype is the one before its return type |
| DexProto.ParameterIterator.NextDescriptor | JavaHook/jni/dalvik/libdex/DexProto.cpp:514-523 | it yields the parameters in order, each once, then nothing |
| DexProto.CompareType | JavaHook/jni/dalvik/libdex/DexProto.cpp:414-432 | the character loop has the sign of strcmp on the two types |
| DexProto.CompareToParameters | JavaHook/jni/dalvik/libdex/DexProto.cpp:380-440 | the sign is that of comparing the two parameter lists type by type |
| DexProto.CompareToParameterDescriptors | JavaHook/jni/dalvik/libdex/DexProto.cpp:461-464 | the same for a bare list of parameter descriptors |
| DexProto.CompareToDescriptor | JavaHook/jni/dalvik/libdex/DexProto.cpp:443-458 | the sign is that of dexProtoCompare with the prototype the descriptor stands for, and the result is 0 exactly for the descriptor that dexProtoGetMethodDescriptor prints |
| CrossVerify.CrossVerifyStringIdItem | JavaHook/jni/dalvik/libdex/DexSwapVerify.cpp:557-577 | an item passes exactly if its data was visited and it comes after the item before it |
| CrossVerify.CrossVerifyTypeIdItem | JavaHook/jni/dalvik/libdex/DexSwapVerify.cpp:590-611 | an item passes exactly if its descriptor is found and valid and its index is larger than the one before; it goes astray exactly if the descriptor is not found, that is, read where no pass has verified it |
| CrossVerify.MatchShorty | JavaHook/jni/dalvik/libdex/DexSwapVerify.cpp:683-718 | the types of a prototype fit its shorty exactly if all of them are found and match character by character; the comparison goes astray exactly at the first type that is not found when all before it match |
| CrossVerify.CrossVerifyProtoIdItem | JavaHook/jni/dalvik/libdex/DexSwapVerify.cpp:671-761 | a prototype passes exactly if its parameter list was visited, its shorty fits its types and it comes after the item before it by type indices; it goes astray exactly if the shorty is not found, or the list was visited and a type is not found before a mismatch |
| CrossVerify.CrossVerifyFieldIdItem | JavaHook/jni/dalvik/libdex/DexSwapVerify.cpp:776-833 | an item passes exactly if its class, type and name are found and valid and its three indices come after those before it; it goes astray exactly if one of the three is not found and those before it are valid |
| CrossVerify.CrossVerifyMethodIdItem | JavaHook/jni/dalvik/libdex/DexSwapVerify.cpp:848-899 | the same for methods |
| CrossVerify.CrossVerifyItem | JavaHook/jni/dalvik/libdex/DexSwapVerify.cpp:557-899 | an item of any id section is accepted, or goes astray, under exactly the conditions of its type; a string id never goes astray |
| CrossVerify.CrossVerifySection | JavaHook/jni/dalvik/libdex/DexSwapVerify.cpp:2392-2445 | a section is accepted exactly if all its items are, and goes astray exactly if an item does after all before it were accepted |
| CrossVerify.CrossVerifyIds | JavaHook/jni/dalvik/libdex/DexSwapVerify.cpp:2692-2737 | in the order of the map, the id sections are accepted exactly if all strings and parameter lists they designate were visited, the tables they look into are aligned and all items pass; the pass goes astray exactly if a section does after all before it were accepted |
| CrossVerify.StraysEarly | JavaHook/jni/dalvik/libdex/DexSwapVerify.cpp:2692-2737 | with the tables it looks into aligned, the pass only goes astray if some string id designates no visited string and string_ids are not listed first |
| CrossVerify.OrderStraysIff | JavaHook/jni/dalvik/libdex/DexSwapVerify.cpp:2692-2737 | for a map without repetition that lists all id sections, some file with aligned tables goes astray if and only if string_ids are not listed first |
| CrossVerify.StringsAscend | JavaHook/jni/dalvik/libdex/DexSwapVerify.cpp:565-574 | all strings are in strict dexUtf8Cmp order, not only neighbours |
| CrossVerify.StringOrder | JavaHook/jni/dalvik/libdex/DexSwapVerify.cpp:565-574 | string indices compare as the strings do, so no string occurs twice |
| CrossVerify.TypeOrder | JavaHook/jni/dalvik/libdex/DexSwapVerify.cpp:600-608 | type indices compare as the descriptors do under strcmp |
| CrossVerify.ListOrder | JavaHook/jni/dalvik/libdex/DexSwapVerify.cpp:728-751 | parameter lists in order by type index are in order by descriptor |
| CrossVerify.ProtosAscend | JavaHook/jni/dalvik/libdex/DexSwapVerify.cpp:720-758 | the prototype table is in strict dexProtoCompare order |
| CrossVerify.FieldOrder | JavaHook/jni/dalvik/libdex/DexSwapVerify.cpp:798-830 | the field table is in strict order of class, name and type, as strings |
| CrossVerify.MethodOrder | JavaHook/jni/dalvik/libdex/DexSwapVerify.cpp:864-896 | the method table is in strict order of class, name and prototype, as strings |
| CrossVerify.ShortyIsDetermined | JavaHook/jni/dalvik/libdex/DexSwapVerify.cpp:628-668 | the shorty of a verified prototype is determined by its types, and no parameter is void |
| CrossVerify.VerifiedProto | JavaHook/jni/dalvik/libdex/DexSwapVerify.cpp:671-761 | verified prototypes meet what dexProtoCompareToDescriptor relies on |
| Visitors.SwapTypeList | JavaHook/jni/dalvik/libdex/DexSwapVerify.cpp:1323-1343 | it accepts exactly lists that lie in the file with all type indices in range, and returns the end |
| Verify.EntryInRange | JavaHook/jni/dalvik/libdex/DexSwapVerify.cpp:547-846 | in a file whose sections are accepted the indices of every id item are in range |
| Verify.AcceptedIsSwapped | JavaHook/jni/dalvik/libdex/DexSwapVerify.cpp:2392-2685 | accepted sections give cross verification what it relies on: visited strings are canonical and terminated, the indices in visited type lists and in the tables are in range |
| Verify.EntryIsReadIff | JavaHook/jni/dalvik/libdex/DexFile.cpp:269-281 | an id item is visited where it is read later if and only if its table starts at a multiple of four |
| Verify.UnalignedIsAccepted | JavaHook/jni/dalvik/libdex/DexSwapVerify.cpp:2392-2475 | a file of 176 bytes whose string_ids start at 0x71 is accepted by all passes; its string id is visited at 0x74 and read at 0x71, where another number stands |
| Verify.UnalignedFileExists | JavaHook/jni/dalvik/libdex/DexSwapVerify.cpp:2392-2475 | such a file, byte by byte |
| Verify.DexSwapAndVerify | JavaHook/jni/dalvik/libdex/DexSwapVerify.cpp:2822-2937 | all passes on one file in memory: acceptance is equivalent to a checked header, accepted sections and accepted id items, which includes that the tables looked into are aligned; the pass over the ids goes astray exactly if an item does after all before it were accepted |
| Verify.AlignedDoesNotStray | JavaHook/jni/dalvik/libdex/DexSwapVerify.cpp:2692-2737 | a file whose tables start at multiples of four and whose map lists string_ids first does not go astray |
| DataMap.DexDataMap.Add | JavaHook/jni/dalvik/libdex/DexDataMap.cpp:74-88 | an entry is appended, or dropped if its offset is not larger than the last; offsets stay strictly ascending |
| DataMap.DexDataMap.Get | JavaHook/jni/dalvik/libdex/DexDataMap.cpp:94-118 | the type at the offset, or -1 exactly if there is no entry |
| DataMap.DexDataMap.Verify | JavaHook/jni/dalvik/libdex/DexDataMap.cpp:125-141 | true exactly if the map has this offset with this type |
| Sections.SwapDexHeader | JavaHook/jni/dalvik/libdex/DexSwapVerify.cpp:2842-2845 | the header passes exactly if its file size, as a signed number, is at most the length, its endian tag and header size are right, and link and data sections lie in the file, the 32-bit sums included |
| Sections.CheckMapItems | JavaHook/jni/dalvik/libdex/DexSwapVerify.cpp:395-459 | the loop accepts exactly ascending offsets inside the file, known types without repetition, and no more data items than bytes of data; it counts the data items |
| Sections.SwapMap | JavaHook/jni/dalvik/libdex/DexSwapVerify.cpp:395-523 | the map at mapOff is accepted exactly if it fits, passes that loop and has the entries that must be there; the data map has room for all announced items |
| Sections.VisitItem | JavaHook/jni/dalvik/libdex/DexSwapVerify.cpp:2400-2438 | one round finds the item after zero padding, inside the file, and adds its offset to the data map without dropping it |
| Sections.IterateSection | JavaHook/jni/dalvik/libdex/DexSwapVerify.cpp:2392-2456 | the items of the section are exactly those of the format, and the data map gains their offsets |
| Sections.SwapSection | JavaHook/jni/dalvik/libdex/DexSwapVerify.cpp:2550-2674 | each section is walked by its rule and lies within its bounds |
| Sections.SwapEverythingButHeaderAndMap | JavaHook/jni/dalvik/libdex/DexSwapVerify.cpp:2518-2685 | it succeeds exactly if all sections do, and the data map then holds the visited items in order |
| Sections.SectionTiles | JavaHook/jni/dalvik/libdex/DexSwapVerify.cpp:2392-2445 | the items of a section and the padding between them follow each other without gap or overlap |
| Sections.EverythingTiles | JavaHook/jni/dalvik/libdex/DexSwapVerify.cpp:2518-2685 | all sections with the padding before them tile the file from its start, with as many items of each type as the map says |
| Spacing.ItemsAreSpaced | JavaHook/jni/dalvik/libdex/DexSwapVerify.cpp:2554-2670 | in an accepted file, class data, string data, debug info, annotations and encoded arrays follow each other without padding from the offset of their section on; all other items start at multiples of four, fewer than four bytes behind the item before them or the start of the section |
| Spacing.TypeNumbers | JavaHook/jni/dalvik/libdex/DexSwapVerify.cpp:344-369 | which type numbers are known, have a section of identifiers, and are entered into the data map |
| Layout.HeaderReadsBack | JavaHook/jni/dalvik/libdex/DexFile.h:216-240 | a header written field after field is read as its fields |
| Layout.MapReadsBack | JavaHook/jni/dalvik/libdex/DexFile.h:245-258 | a map written item after item is read as its items |
| Layout.StringIdReadsBack | JavaHook/jni/dalvik/libdex/DexFile.h:263-265 | the k-th string id that was written is the k-th that is read, and passes exactly if it ends in the file |
| Layout.TypeIdReadsBack | JavaHook/jni/dalvik/libdex/DexFile.h:270-272 | the same for type ids, whose index must be in range |
| Layout.ProtoIdReadsBack | JavaHook/jni/dalvik/libdex/DexFile.h:295-299 | the same for prototypes |
| Layout.FieldIdReadsBack | JavaHook/jni/dalvik/libdex/DexFile.h:277-281 | the same for fields |
| Layout.MethodIdReadsBack | JavaHook/jni/dalvik/libdex/DexFile.h:286-290 | the same for methods |
| Layout.TypeListReadsBack | JavaHook/jni/dalvik/libdex/DexFile.h:318-328 | a type list that was written is read as the parameters of its prototype, and passes exactly if it and its structure end in the file and its types are in range |
| Sections.EverythingEnds | JavaHook/jni/dalvik/libdex/DexSwapVerify.cpp:2518-2685 | the last of them ends inside the file, whatever sizes the header states |
| Sections.MappedIsVisited | JavaHook/jni/dalvik/libdex/DexSwapVerify.cpp:2432-2434 | an offset and type are in the data map if and only if an item of that type was visited there |
| Sections.ItemVisited | JavaHook/jni/dalvik/libdex/DexSwapVerify.cpp:2392-2445 | every item of a file, but for the header and the map, is one that its visitor accepted |
| Sections.EntryVisited | JavaHook/jni/dalvik/libdex/DexSwapVerify.cpp:2392-2445 | items of one size are visited like the entries of a table, from the first aligned offset on |
| Sections.SwapSections | JavaHook/jni/dalvik/libdex/DexSwapVerify.cpp:2895-2918 | both passes together: success is characterized, the file is tiled, and the data map answers exactly for visited items |
| DebugInfo.SpecialOpcode | JavaHook/jni/dalvik/libdex/DexDebugInfo.cpp:290-305 | the special opcode made from an address step and a line step makes exactly these steps and calls back once |
| DebugSteps.StreamIsDecoded | JavaHook/jni/dalvik/libdex/DexDebugInfo.cpp:141-331 | the stream that is written for a list of steps is decoded to exactly the calls computed on the steps: positions at the sums of the address and line steps, locals with their names, types and addresses, up to the first step that stops the decoder, and then what is left in the registers |
| DebugSteps.ParametersFollow | JavaHook/jni/dalvik/libdex/DexDebugInfo.cpp:166-209 | the named parameters are in the registers of their arguments |
| DebugWritten.WrittenIsVerifiedIff | JavaHook/jni/dalvik/libdex/DexSwapVerify.cpp:1966-2105 | the stream that is written for steps, without a change of the source file, passes verification and ends where it does exactly if its indices are in range, there are at most 65536 parameters and no line step is below -2^27 |
| DebugInfo.ExecuteKeepsOrder | JavaHook/jni/dalvik/libdex/DexDebugInfo.cpp:211-307 | every opcode keeps positions, ends and intervals in order while addresses stay below 2^16 |
| DebugInfo.ExecuteConserves | JavaHook/jni/dalvik/libdex/DexDebugInfo.cpp:211-307 | every opcode keeps the balance: what was opened has been reported or is live |
| DebugInfo.ParametersConserve | JavaHook/jni/dalvik/libdex/DexDebugInfo.cpp:179-209 | so do the parameters of a method that declares enough registers |
| DebugInfo.DebugInfoIsOrdered | JavaHook/jni/dalvik/libdex/DexDebugInfo.cpp:312-334 | over every stream whose addresses stay within the code and below 2^16, position addresses and end addresses never go back, and the intervals of each register are in order and do not overlap |
| DebugInfo.EveryLocalIsReported | JavaHook/jni/dalvik/libdex/DexDebugInfo.cpp:312-334 | every local that is opened is reported exactly once, and nothing else |
| DebugInfo.OneRegisterTooMany | JavaHook/jni/dalvik/libdex/DexDebugInfo.cpp:230-233 | a register number equal to the number of registers passes the check, and decoding leaves the array |
| DebugWalk.ExecuteSteps | JavaHook/jni/dalvik/libdex/DexDebugInfo.cpp:211-307 | where an opcode ends depends on the stream only, not on locals or callbacks |
| DebugWalk.LeavesIff | JavaHook/jni/dalvik/libdex/DexDebugInfo.cpp:227-283 | decoding leaves the array if and only if it gets to an opcode for a local whose operand, modulo 2^16, is the number of registers |
| DebugWalk.DecodeLeavesAt | JavaHook/jni/dalvik/libdex/DexDebugInfo.cpp:141-309 | the same for a whole stream, which has to pass the parameters first |
| DebugWalk.StaysInside | JavaHook/jni/dalvik/libdex/DexDebugInfo.cpp:227-283 | if a walk over the opcodes finds only registers that exist, decoding stays inside, whatever the callbacks do and whatever locals there are |
| DebugWalk.DecodeStaysInside | JavaHook/jni/dalvik/libdex/DexDebugInfo.cpp:141-309 | the same for a whole stream |
| DebugWalk.DecodeLeavesIff | JavaHook/jni/dalvik/libdex/DexDebugInfo.cpp:141-309 | some callbacks see decoding leave the array if and only if decoding without callbacks leaves it |
| DebugVerify.VerifyOpcode | JavaHook/jni/dalvik/libdex/DexSwapVerify.cpp:2010-2096 | an opcode is accepted exactly if its operands end before the end of the file and its indices and register are in range |
| DebugVerify.IntraVerifyDebugInfoItem | JavaHook/jni/dalvik/libdex/DexSwapVerify.cpp:1966-2105 | the item is accepted exactly if line, parameter names and all opcodes are, and its end is behind the end of the sequence |
| DebugVerify.EndsAlikeIff | JavaHook/jni/dalvik/libdex/DexDebugInfo.cpp:285-288 | an accepted opcode ends for the decoder where it ends for the verifier if and only if it is not DBG_SET_FILE |
| DebugVerify.DecodeKeepsToWalk | JavaHook/jni/dalvik/libdex/DexDebugInfo.cpp:141-309 | decoding any stream ends where a walk over its opcodes does, or stops before, whatever the method and the callbacks are |
| DebugVerify.VerifiedIsDecodedIff | JavaHook/jni/dalvik/libdex/DexDebugInfo.cpp:141-309 | a verified stream that is decoded to an end is decoded to its verified end if and only if a walk over its opcodes, which no callback or local influences, gets there |
| DebugVerify.VerifiedIsDecoded | JavaHook/jni/dalvik/libdex/DexDebugInfo.cpp:141-309 | so a verified stream without DBG_SET_FILE is decoded up to its verified end, unless decoding stops before |
| DebugVerify.SetFileIsDecodedAsOpcodes | JavaHook/jni/dalvik/libdex/DexSwapVerify.cpp:2083-2091 | three verified streams whose file name the decoder takes for an opcode: it ends before the verified end, at it, and behind it |
| DebugInfo.DecodeLocal | JavaHook/jni/dalvik/libdex/DexDebugInfo.cpp:227-283 | the opcodes that name a register change exactly that register and make exactly the calls of the definition |
| DebugInfo.DecodeOpcodes | JavaHook/jni/dalvik/libdex/DexDebugInfo.cpp:211-308 | the loop ends on every finite stream and computes the run of the definition, calls included |
| DebugInfo.DecodeDebugInfo0 | JavaHook/jni/dalvik/libdex/DexDebugInfo.cpp:141-309 | the same from the start of the stream, parameters included |
| DebugInfo.DecodeDebugInfo | JavaHook/jni/dalvik/libdex/DexDebugInfo.cpp:312-334 | the calls are those of the definition, with what is still live reported at the end |
| BitVectors.BitVector.constructor | JavaHook/jni/dalvik/vm/BitVector.cpp:32-47 | a new vector is the empty set |
| BitVectors.BitVector.AllocBit | JavaHook/jni/dalvik/vm/BitVector.cpp:68-97 | the least number that is not in the set is added and returned, after growing if need be; -1 exactly if the vector is full and may not grow |
| BitVectors.BitVector.SetBit | JavaHook/jni/dalvik/vm/BitVector.cpp:102-125 | the number is added, growing if need be; it fails exactly if growing is not allowed or the rounded size wraps around at 2^32 |
| BitVectors.BitVector.ClearBit | JavaHook/jni/dalvik/vm/BitVector.cpp:130-135 | the number is removed |
| BitVectors.BitVector.ClearAllBits | JavaHook/jni/dalvik/vm/BitVector.cpp:140-144 | the set becomes empty |
| BitVectors.BitVector.SetInitialBits | JavaHook/jni/dalvik/vm/BitVector.cpp:151-162 | the set becomes the first numBits numbers and what was in the words behind the last one written |
| BitVectors.BitVector.IsBitSet | JavaHook/jni/dalvik/vm/BitVector.cpp:167-173 | true exactly for members |
| BitVectors.OneBitLess | JavaHook/jni/dalvik/vm/BitVector.cpp:190-193 | val & (val-1) has exactly one bit less |
| BitVectors.BitVector.CountSetBits | JavaHook/jni/dalvik/vm/BitVector.cpp:178-200 | the count is the cardinality of the set |
| BitVectors.BitVector.Copy | JavaHook/jni/dalvik/vm/BitVector.cpp:218-224 | the destination becomes the source; it fails exactly if the sizes differ |
| BitVectors.BitVector.Intersect | JavaHook/jni/dalvik/vm/BitVector.cpp:229-243 | for vectors of one shape the destination becomes the intersection, aliased or not |
| BitVectors.BitVector.Unify | JavaHook/jni/dalvik/vm/BitVector.cpp:248-262 | for vectors of one shape the destination becomes the union, aliased or not |
| BitVectors.BitVector.Compare | JavaHook/jni/dalvik/vm/BitVector.cpp:267-278 | false exactly for vectors of one shape with the same members |
| BitVectors.BitVectorIterator.Next | JavaHook/jni/dalvik/vm/BitVector.cpp:289-307 | the least member that has not been passed, or -1 exactly if there is none |
| BitVectors.Walk | JavaHook/jni/dalvik/vm/BitVector.cpp:281-307 | the iterator yields each member once, in ascending order |
| BitVectors.BitVector.CheckMerge | JavaHook/jni/dalvik/vm/BitVector.cpp:316-332 | the destination becomes the union, and the answer is true exactly if that is strictly more than before; it fails exactly if the sizes differ |
| PointerSets.PointerSet.Has | JavaHook/jni/dalvik/vm/PointerSet.cpp:205-231 | true exactly for members; else the index is that of a neighbour |
| PointerSets.PointerSet.Find | JavaHook/jni/dalvik/vm/PointerSet.h:75-80 | the index of a member, or -1 |
| PointerSets.PointerSet.AddEntry | JavaHook/jni/dalvik/vm/PointerSet.cpp:117-178 | the pointer is added and the list stays sorted without repetition; the list is left exactly if doubling the 16-bit counter makes it no longer, which in a set grown from 128 is when it holds 0x8000 pointers and the pointer is new |
| AllocTracker.RecordMaxIsPower | JavaHook/jni/dalvik/vm/AllocTracker.cpp:101-122 | the number of records is a power of two, unless the property is 0, which passes the check for one |
| AllocTracker.Tracker.Enable | JavaHook/jni/dalvik/vm/AllocTracker.cpp:128-148 | an enabled tracker stays as it is; else an empty ring of that many records starts |
| AllocTracker.Tracker.Track | JavaHook/jni/dalvik/vm/AllocTracker.cpp:208-237 | the allocation becomes the latest of the ring, which keeps the last ones; the store leaves the block exactly if that has no records |
| AllocTracker.Tracker.HeadIsOldest | JavaHook/jni/dalvik/vm/AllocTracker.cpp:302-306 | headIndex is the slot of the oldest allocation that is kept |
| AllocTracker.Tracker.Walk | JavaHook/jni/dalvik/vm/AllocTracker.cpp:343-381 | walking the ring yields exactly the last min(n, max) allocations, oldest first |
| AllocTracker.Run | JavaHook/jni/dalvik/vm/AllocTracker.cpp:128-237 | the same after any run of enable, track and disable; the run stays inside the block if and only if it allocates nothing under a configured maximum of 0 |
| AllocTracker.Tracker.PopulateStringTables | JavaHook/jni/dalvik/vm/AllocTracker.cpp:343-381 | the three sets hold exactly the names in the records that are kept; it stays inside their lists if and only if there are at most 0x8000 different names of each kind |
| AllocTracker.Tracker.GenerateBaseOutput | JavaHook/jni/dalvik/vm/AllocTracker.cpp:393-459 | both passes agree on the size, and the second writes exactly the header and the records of the format |
| AllocReport.Utf8Len | JavaHook/jni/dalvik/vm/UtfString.cpp:107-125 | the length is the number of units the string decodes to |
| AllocReport.ComputeStringTableSize | JavaHook/jni/dalvik/vm/AllocTracker.cpp:465-478 | the size is that of the table's bytes |
| AllocReport.ConvertUtf8ToUtf16 | JavaHook/jni/dalvik/vm/AllocTracker.cpp:486-497 | the decoded units are written big-endian |
| AllocReport.OutputStringTable | JavaHook/jni/dalvik/vm/AllocTracker.cpp:502-520 | exactly the bytes of the table are written, as many as were computed |
| AllocTracker.Tracker.Report | JavaHook/jni/dalvik/vm/AllocTracker.cpp:527-611 | the report succeeds if and only if there are at most 0x8000 different names of each kind; then it is exactly the bytes of the format for the records that are kept, over sorted tables of exactly their names, and the size mismatch abort is unreachable |
| ReportReader.ReportReads | JavaHook/jni/dalvik/vm/AllocTracker.cpp:393-459 | what a client reads in a report, at the places of the format and through its string tables, are the records it is about: size, thread, class and depth of each, and class, method, source file and clipped line of each frame; and all names of the three tables |
| AllocReport.EntryCountIsExact | JavaHook/jni/dalvik/vm/AllocTracker.cpp:405 | the 2-byte entry count is right if and only if there are fewer than 65536 records, which the default maximum of 65536 exceeds by one |

## Left out

- The hooking code itself (`adbi`, `ddi-master`): ptrace, /proc and JNI glue around straight-line save and restore; it would only add easy members.
- File and memory mapping, zlib inflation and checksums, mutexes, failing allocations, logging, free callbacks and statistics.
- The printing and option parsing tools, the opcode tables, and `dexParseOptData`, whose chunk walk adds little.
- Encoded values, annotations, class definitions and the byte swapping inside items: a section visitor of another type is a function that fails or answers an end after the start, and swapping is the identity on a little-endian target. The sections do not pass the previous item to their visitors; the id checks in `CrossVerify.dfy` do.
- Verify.DexSwapAndVerify: the magic number and the checksum; offsets within 4 of 2^32, which wrap around when they are aligned; and cross verification of class definitions and annotations. Class definitions that the map lists before string_ids follow unverified offsets as well, and their check reads class data with dexReadAndVerifyClassData, which can leave its block.
- CrossVerify.CrossVerifyItem: what the check makes of memory that no pass has verified, once it has gone astray.
- ClassData.ReadClassData: the allocation of the block succeeds, even for no bytes; the model ends with the first store that leaves it.
- ClassLookup.DexFile.FindClass: asks for at least one class; a table without slots has nothing to probe. Descriptors are given by their offset as byte sequences; finding their terminators is left out.
- DebugVerify.IntraVerifyDebugInfoItem: bytes behind the end of the file read as zero, which ends the opcodes.
- Wrap-around of the cache's version counter at 2^31, as the code's own note says; the run is assumed to stay below it.
- The guard at `vm/AtomicCache.h:139`, which stores fewer values than the model's update step allows, and cache statistics.
- The static workspace of SHA1Transform, which makes it non-reentrant; the eighty unrolled lines are one loop over the line number.
- Sha1.Sha1Context.Update: says nothing of the context after a copy that leaves the buffer.
- Hash.HashTable.Lookup: asks that a table that has to grow stays within 2^28 slots, whose entries take 2^31 bytes; beyond that the allocation fails or its size wraps around. The comparison function is one fixed equivalence for the life of a table.
- Finding the end of central directory record of a zip archive, and reading entries after they are found.
- `entryToIndex`, which turns a ZipEntry back into a slot of the name table.
- DexUtf.IsValidTypeDescriptorOrClassName: asks that no multibyte character runs into the terminator, because the code would then read behind the string; every verified string meets this.
- DexProto.CompareToDescriptor: asks for a valid method descriptor, as the code's asserts do; the prototype it stands for is a ghost argument. String caches and copies of descriptors are not modelled.
- Catch.SwapTriesAndCatches: asks that the code has fewer than 2^31 units, which the size check of swapCodeItem guarantees. The tries are a field of `Code`; they are not read from the memory behind the code units.
- DebugInfo.DebugInfoIsOrdered: assumes that the sum of all address advances stays within the code and below 2^16, because start addresses have 16 bits and addresses wrap around at 2^32 in the source.
- DebugInfo.EveryLocalIsReported: assumes that the method declares enough registers for its arguments; otherwise the 16-bit register number can wrap around and a later parameter overwrite an earlier one without a report.
- DebugInfo.DecodeDebugInfo: models methods that have a stream; without one there are no calls. Debug streams are finite and read as zero, which ends them, behind their last byte.
- Removal from a set of pointers, and its intersection with an array.
- AllocTracker.Tracker.Report: walking the stack is left out: a record comes with its frames, and their line numbers are given. A set that leaves its list ends the model of the report.
- ReportReader.ReportReads: stacks have at most 255 frames (the record has room for 16), and the report and its strings are shorter than 2^32.
- DebugWritten.WrittenIsVerifiedIff: streams that change the source file, whose name the verifier reads and the decoder does not.
- AllocTracker.Tracker.Enable: a configured maximum of 2^31 is negative as an int and makes the allocation of the ring fail, as other maxima beyond the memory do; failing allocations are left out.
- BitVectors.BitVector.SetBit: sizes of 2^27 words and more, whose number of bits leaves 32 bits.
