# Models of the algorithmic cores of the SGX SDK

The SDK carries several pieces of real algorithmic code: a zlib inflater, a DWARF
reader with its lookup tables and sort, a free-list allocator (all in the bundled
libbacktrace), an allocator that keeps secrets off certain cache-line bytes, a futex event, and the
legacy symbol demangler. This project models them and proves what they are for.

`dafny verify dfyconfig.toml` checks everything.

| part | modules | main results |
|---|---|---|
| inflater | Bits, ReverseCode, Canonical, HuffmanTable, ShortCodes, LongCodes, SecondaryTables, TableRoom, TableBuilder, BitStream, RefInflate, InflateSymbols, InflateBlock, InflateDynamic, Inflate, Adler32, Departures | `TableBuilder.BuildTable`, `Inflate.InflateStream`, `Inflate.InflateAndVerify` |
| allocator and vector | FreeList, Allocator, GrowableVector, Clients | `FreeList.RunKeeps`, `Clients.RunKeepsContents`, `Clients.Program.GrowVector` |
| sort and lookups | Quicksort, Search, LineTable, PcRanges, InlineReport | `Quicksort.Qsort`, `LineTable.LookupLine`, `PcRanges.LookupRightIff`, `InlineReport.ReportPc` |
| DWARF reading | DwarfReader, LineProgram, LineInstructions, Abbrevs | `LineInstructions.WholeRoundTrip`, `LineInstructions.LookupInWhole`, `Abbrevs.LookupEncoded` |
| secret placement | AlignAlloc, SecretPlacement, AlignedPointer, SecretHeap | `AlignAlloc.CalcLspcIsLeast`, `AlignedPointer.NoSecretOnBadPosition`, `SecretHeap.RunReturnsBlocks` |
| event | EventProtocol, TcsCache | `EventProtocol.RunKeeps`, `EventProtocol.StaleWakeIff` |
| demangler | Demangle, DemangleText | `Demangle.DemangleToString`, `Demangle.MangleThenDemangle` |

`Options` and `Modular` are helpers.

How the parts are stated:

- The inflater is proved against `RefInflate`, a decoder written from RFC 1951 that reads bit by bit,
  with no tables and no read-ahead, in both directions: what it accepts the reference accepts with the
  same output, and what the reference accepts it refuses exactly when the output has the wrong size or
  the last code begins too close to the end. Where the inflater does not follow the standard the reference
  answers `Departs` with the reason.
- The allocator is a class over a word memory; its linked list lives in that memory, and its methods
  are proved to follow the abstract steps of `FreeList`, about which the whole-run invariant is proved.
  `Clients` adds what clients rely on: the words in the blocks and vectors they hold.
- Lookups are proved against a scan of the rows in emission order. The search itself may look at any
  entry of the remaining part, as the C standard leaves it open.
- The event is a state machine whose steps are the single atomic operations and system calls.
- Where a promise does not hold for all inputs, the exact condition is proved and a concrete input
  is given: over-subscribed code lengths (`BuildTable`, `DecodesOnlyFits`, `AcceptsOversubscribed`),
  unassigned codes (`LongStateTakesZero`, `CompleteNeverDeparts`, `UnassignedAccepted`), codes too close to the end (`InflateStream`, `EndTooLate`), stored blocks on a
  byte boundary (`BackUp`, `StoredDataMissed`), relocated line rows (`KeptAllIff`, `CoincidenceLosesRow`),
  ended ranges (`LookupRightIff`, `EndedInnerHidesOuter`), the operation advance (`AdvanceIsStandard`,
  `AdvanceDeparts`), small alignments (`AlignedIff`, `SmallDataMisaligned`), the saved block address
  (`SlotInsideIff`, `OneByteSlotOutside`), stale wake calls (`StaleWakeIff`, `StaleWakeRun`).

Code and documents disagree in two places; the model follows the code. The comment on nested
ranges (dwarf.c:2901-2904) assumes that the search finds some enclosing range, which
`EndedInnerHidesOuter` shows it may not. The operation advance (dwarf.c:1969-1970) multiplies before it
divides, where section 6.2.5.1 of DWARF 4 divides first.

## Model

| member | source | states |
|---|---|---|
| `ReverseCode.RippleIsSuccessor` | sgx_backtrace_sys/libbacktrace/elf.c:1279-1292 | clearing the run of ones from the top and setting the next zero maps the reversal of c to the reversal of c + 1 modulo 2^k, for every c and k |
| `ReverseCode.ReverseIncrement` | sgx_backtrace_sys/libbacktrace/elf.c:1284-1292 | the increment loop returns the reversed successor of any j-bit code, including the wrap to 0 |
| `ReverseCode.ReverseAddBit` | sgx_backtrace_sys/libbacktrace/elf.c:1321-1328 | one carry chain adds 2^k modulo 2^j to a code held in reversed order |
| `ReverseCode.ReverseAdd` | sgx_backtrace_sys/libbacktrace/elf.c:1315-1335 | the reverse-add loop adds the count modulo 2^j and fails exactly when the count needs more than j bits |
| `ReverseCode.IncrementsAddUp` | sgx_backtrace_sys/libbacktrace/elf.c:1315-1331 | adding the count in one go equals that many reverse increments, for every code and count |
| `Bits.RevRev` | sgx_backtrace_sys/libbacktrace/elf.c:1262-1282 | bit reversal is its own inverse, so counting in reversed order enumerates every code once |
| `Bits.Coverage` | sgx_backtrace_sys/libbacktrace/elf.c:1244-1256 | a bit string starts with a codeword exactly when its reversal lies in the interval of codes that extend the codeword |
| `Canonical.FitsIsKraft` | sgx_backtrace_sys/libbacktrace/elf.c:1165-1443 | placing lengths one after the other without running past the code space is the Kraft inequality on the multiset of lengths |
| `Canonical.PrefixFree` | sgx_backtrace_sys/libbacktrace/elf.c:1244-1248 | for lengths that satisfy it, no bit string starts with two different codewords: the code is unambiguous |
| `Canonical.RankSymbol` | sgx_backtrace_sys/libbacktrace/elf.c:1224-1226 | the k-th symbol of a length, in symbol order, has the canonical code of section 3.2.2 of RFC 1951 |
| `Canonical.MatchInterval` | sgx_backtrace_sys/libbacktrace/elf.c:1244-1256 | a window starts with the k-th codeword of a length exactly when its reversal lies in that codeword's interval of the code space |
| `HuffmanTable.CountLengths` | sgx_backtrace_sys/libbacktrace/elf.c:1179-1201 | fails exactly when a length is 16 or more; otherwise count, start and next thread the symbols of every length in order |
| `HuffmanTable.FillRun` | sgx_backtrace_sys/libbacktrace/elf.c:1250-1256 | fills exactly the cells that share the low bits of the code, and succeeds exactly when all of them were free |
| `ShortCodes.ShortClear` | sgx_backtrace_sys/libbacktrace/elf.c:1250-1254 | for lengths within the code space a fill loop never meets a taken cell |
| `ShortCodes.ShortStep` | sgx_backtrace_sys/libbacktrace/elf.c:1229-1293 | placing one short code keeps the table invariant: each cell holds the code that owns it, or is free |
| `ShortCodes.PlaceLength` | sgx_backtrace_sys/libbacktrace/elf.c:1211-1294 | one pass over the symbols of a length keeps that invariant and never fails on lengths within the code space |
| `ShortCodes.PlaceShort` | sgx_backtrace_sys/libbacktrace/elf.c:1208-1294 | lengths 1 to 8 together leave the code variable at the first 9-bit code |
| `TableBuilder.FirstCodes` | sgx_backtrace_sys/libbacktrace/elf.c:1296-1336 | FIRSTCODE holds the reversed first canonical code of every length from 9 to 15 |
| `LongCodes.OpenSecondary` | sgx_backtrace_sys/libbacktrace/elf.c:1368-1407 | finds or opens the secondary table of a code; succeeds exactly when the primary cell is free with room left, or points to a table wide enough |
| `LongCodes.PlaceCode` | sgx_backtrace_sys/libbacktrace/elf.c:1363-1421 | places one long code in its secondary table; succeeds exactly when the table can be opened and the run is free |
| `SecondaryTables.OpenStep` | sgx_backtrace_sys/libbacktrace/elf.c:1376-1390 | opening a secondary table keeps the invariant that tables are disjoint, inside the array and cover all codes handled so far |
| `SecondaryTables.FillStep` | sgx_backtrace_sys/libbacktrace/elf.c:1409-1421 | so does filling a run in an existing, possibly wider, secondary table |
| `SecondaryTables.LongClear` | sgx_backtrace_sys/libbacktrace/elf.c:1413-1419 | for lengths within the code space the run of a long code is free, although smaller codes share larger tables |
| `TableBuilder.PlaceLong` | sgx_backtrace_sys/libbacktrace/elf.c:1338-1436 | lengths 15 down to 9 keep that invariant; for lengths within the code space they fail only when there is no room for a further table, and never when no code is longer than 8 bits |
| `TableRoom.NoRoom` | sgx_backtrace_sys/libbacktrace/elf.c:1376-1383 | refusing to open a table means that the tables which the codes need, one per primary index and as wide as its longest code, take too many cells |
| `TableRoom.WasRoom` | sgx_backtrace_sys/libbacktrace/elf.c:1376-1390 | having opened them all means that they do not |
| `TableRoom.NarrowRoom` | sgx_backtrace_sys/libbacktrace/elf.c:1376-1390 | codes of at most 9 bits always have room |
| `TableBuilder.LongStateDecodes` | sgx_backtrace_sys/libbacktrace/elf.c:1091-1443 | the final invariant makes the two-level lookup decode every canonical codeword |
| `TableBuilder.BuildTable` | sgx_backtrace_sys/libbacktrace/elf.c:1165-1443 | success means all lengths are below 16; success with lengths within the code space means every bit string that starts with a symbol's codeword looks up to that symbol and length, and every other one to symbol 0; lengths within the code space succeed exactly when there is room for their secondary tables; over-subscribed lengths succeed only if symbol 0 has length 1 |
| `TableBuilder.LongStateTakesZero` | sgx_backtrace_sys/libbacktrace/elf.c:2066-2080 | bits that start no codeword look up to symbol 0 and use 8 bits if a longer code shares their first 8, else 1 |
| `TableBuilder.DecodesOnlyFits` | sgx_backtrace_sys/libbacktrace/elf.c:1165-1443 | no table whatever decodes over-subscribed lengths, so the Kraft condition is also necessary |
| `TableBuilder.ZeroOnceFits` | sgx_backtrace_sys/libbacktrace/elf.c:1250-1256 | placing all codes without meeting code 0 a second time shows the lengths to fit |
| `TableBuilder.ExampleCodes` | sgx_backtrace_sys/libbacktrace/elf.c:1242-1254 | the lengths 1, 1, 2 do not fit: the third code wraps to 0 |
| `TableBuilder.SymbolZeroLooksFree` | sgx_backtrace_sys/libbacktrace/elf.c:1242-1254 | yet after the first two codes the cells of the third still look free, because symbol 0 of length 1 packs to the entry that means unset |
| `TableBuilder.AcceptsOversubscribed` | sgx_backtrace_sys/libbacktrace/elf.c:1165-1443 | so the builder accepts these lengths, with a table that does not decode them |
| `BitStream.PeekWord` | sgx_backtrace_sys/libbacktrace/elf.c:1069-1081 | four bytes read as a little-endian word are the next 32 stream bits |
| `BitStream.Reservoir.Fetch` | sgx_backtrace_sys/libbacktrace/elf.c:1044-1089 | keeps the invariant that val is exactly the next `bits` <= 46 stream bits; the stream position does not move; succeeds exactly when 15 bits are held or four bytes are left, that is, up to the position 15 bits before the last whole word of the input ends |
| `BitStream.Reservoir.Take` | sgx_backtrace_sys/libbacktrace/elf.c:1669-1672 | hands out the next n bits of the stream and keeps the invariant; never more than are held |
| `BitStream.Reservoir.Align` | sgx_backtrace_sys/libbacktrace/elf.c:1647-1655 | reads single bytes up to a word boundary without moving the stream position |
| `InflateSymbols.ReadSymSound` | sgx_backtrace_sys/libbacktrace/elf.c:2066-2080 | a symbol read bit by bit is one whose codeword the window starts with |
| `InflateSymbols.LookupAgrees` | sgx_backtrace_sys/libbacktrace/elf.c:2066-2080 | with a decoding table, the lookup gives the symbol and length that the bit-by-bit reference reads |
| `InflateSymbols.CompleteAlwaysReads` | sgx_backtrace_sys/libbacktrace/elf.c:2066-2080 | for a complete code every window starts with a codeword, so the inflater cannot take unassigned bits for symbol 0 |
| `InflateSymbols.CompleteNeverDeparts` | sgx_backtrace_sys/libbacktrace/elf.c:2054-2217 | so a block whose two codes are complete is accepted or rejected and never a departure |
| `InflateSymbols.NoCodeUnassigned` | sgx_backtrace_sys/libbacktrace/elf.c:2066-2080 | where the reference finds no code the window starts with no codeword |
| `InflateSymbols.DecodeSym` | sgx_backtrace_sys/libbacktrace/elf.c:2066-2080 | consumes exactly the symbol's bits, at most 15, and agrees with the reference; where the reference finds no code it reads symbol 0 |
| `InflateSymbols.LengthForms` | sgx_backtrace_sys/libbacktrace/elf.c:2103-2125 | the closed-form expressions equal the length table of section 3.2.5 of RFC 1951 for every symbol |
| `InflateSymbols.DistForms` | sgx_backtrace_sys/libbacktrace/elf.c:2149-2187 | likewise for the distance table |
| `InflateSymbols.CopyChunk` | sgx_backtrace_sys/libbacktrace/elf.c:2205-2214 | up to dist bytes copied at once equal the byte-by-byte copy |
| `InflateSymbols.CopyMatch` | sgx_backtrace_sys/libbacktrace/elf.c:2202-2214 | the chunked overlapping copy equals out[i] = out[i - dist] byte by byte, for every distance and length |
| `InflateSymbols.RepeatLast` | sgx_backtrace_sys/libbacktrace/elf.c:2149-2164 | so does filling with the last byte for distance 1 |
| `InflateBlock.ReadLength` | sgx_backtrace_sys/libbacktrace/elf.c:2101-2126 | length symbol plus extra bits give the reference's length and position; symbols above 285 fail |
| `InflateBlock.ReadDistance` | sgx_backtrace_sys/libbacktrace/elf.c:2168-2187 | distance symbol plus extra bits give the reference's distance and position |
| `InflateBlock.InflateMatch` | sgx_backtrace_sys/libbacktrace/elf.c:2128-2215 | distance, bounds checks and copy agree with the reference's back reference, and what the reference accepts is refused exactly when the output is full or a fetch comes too late |
| `InflateBlock.InflateCopy` | sgx_backtrace_sys/libbacktrace/elf.c:2097-2215 | likewise for a length symbol and what follows it |
| `InflateBlock.InflateOne` | sgx_backtrace_sys/libbacktrace/elf.c:2057-2216 | one turn of the main loop is one step of the reference; it ends the block exactly at its end symbol and turns unassigned bits into the byte 0 |
| `InflateBlock.InflateCodes` | sgx_backtrace_sys/libbacktrace/elf.c:2054-2217 | if the main loop ends, the reference accepts the block with the same output and consumes the same bits, or meets an unassigned code; a block that the reference accepts is inflated exactly when the output has room and its last code begins in time |
| `Departures.UnassignedAccepted` | sgx_backtrace_sys/libbacktrace/elf.c:2057-2096 | a block that the standard refuses for an unassigned code and the main loop accepts with the output byte 0 |
| `InflateDynamic.ReadCodeBits` | sgx_backtrace_sys/libbacktrace/elf.c:1763-1890 | the unrolled reads put each 3-bit length in its place and never use more bits than the last fetch left; they fail only for want of input |
| `InflateDynamic.ReadOneLen` | sgx_backtrace_sys/libbacktrace/elf.c:1906-2032 | one run-length code agrees with the reference, including the repeat of the previous length and both zero runs; lengths that the reference reads are refused only for want of input |
| `InflateDynamic.ReadCodeLens` | sgx_backtrace_sys/libbacktrace/elf.c:1902-2032 | all lengths of both alphabets agree with the reference |
| `InflateDynamic.ShortNoPointer` | sgx_backtrace_sys/libbacktrace/elf.c:1916-1921 | the table of the code length code has no secondary tables, so that check never fires |
| `InflateDynamic.InflateWithLens` | sgx_backtrace_sys/libbacktrace/elf.c:2034-2052 | end-of-block check, both tables and the symbols agree with the reference |
| `InflateDynamic.InflateDynamicBlock` | sgx_backtrace_sys/libbacktrace/elf.c:1741-2052 | a whole dynamic block agrees with section 3.2.7 of RFC 1951, and one that the reference accepts is inflated exactly when the output has room and its last code begins in time |
| `Inflate.FixedTables.constructor` | sgx_backtrace_sys/libbacktrace/elf.c:1455-1491 | the generator of the fixed tables succeeds and both tables decode the fixed codes |
| `RefInflate.FixedForm` | sgx_backtrace_sys/libbacktrace/elf.c:1459-1487 | the lengths of the fixed codes, symbol by symbol |
| `RefInflate.OrderForm` | sgx_backtrace_sys/libbacktrace/elf.c:1771-1890 | the order of the code length codes: repeat codes, 0, then from 8 outwards |
| `RefInflate.HeaderForOk` | sgx_backtrace_sys/libbacktrace/elf.c:1620-1644 | the header that a compressor writes is accepted exactly for windows of at most 32 kB |
| `RefInflate.HeaderRefuses` | sgx_backtrace_sys/libbacktrace/elf.c:1620-1644 | no other check bits, no preset dictionary and no other method is accepted |
| `Inflate.InflateFixedBlock` | sgx_backtrace_sys/libbacktrace/elf.c:1729-1731 | a block with the fixed codes, which are complete, is accepted exactly when the reference accepts it, the output has room and its last code begins in time, with the same output |
| `Inflate.BackUp` | sgx_backtrace_sys/libbacktrace/elf.c:1686-1693 | the back-up loop reaches the start of the stored data exactly when the header did not end on a byte boundary |
| `Departures.StoredDataMissed` | sgx_backtrace_sys/libbacktrace/elf.c:1686-1693 | a reservoir where the header ends with byte 0: backing up gives byte 2 instead of 1 |
| `Inflate.InflateStored` | sgx_backtrace_sys/libbacktrace/elf.c:1680-1727 | stored blocks agree with the reference outside the reported cases, and are refused exactly when the output is full |
| `Inflate.InflateBody` | sgx_backtrace_sys/libbacktrace/elf.c:1674-2217 | every kind of block behind its header, with exact success |
| `Inflate.InflateBlocks` | sgx_backtrace_sys/libbacktrace/elf.c:1657-2218 | blocks until the last one agree with the reference over the whole run, and a run that the reference accepts succeeds exactly when the output has room and its last code begins in time |
| `Inflate.InflateStream` | sgx_backtrace_sys/libbacktrace/elf.c:1601-2228 | if the inflater succeeds, the reference decoder accepts the stream with exactly the same output, or names a way in which the inflater departs from the standard; a stream that the reference accepts is inflated exactly when the output has its size and its last code begins no later than 15 bits before the last whole word of the input ends |
| `Departures.EndTooLate` | sgx_backtrace_sys/libbacktrace/elf.c:1059-1062 | a block of one bit, two bytes before the end of the input, that the reference accepts and the inflater refuses |
| `Inflate.LongEndInTime` | sgx_backtrace_sys/libbacktrace/elf.c:1059-1062 | a last code of 7 bits or more, as in fixed blocks, always begins in time |
| `Inflate.InflateAndVerify` | sgx_backtrace_sys/libbacktrace/elf.c:2352-2365 | a stream that the reference accepts passes exactly under these conditions with the right Adler-32 value behind it; what passes always carries the value of the output |
| `Adler32.BoundFits` | sgx_backtrace_sys/libbacktrace/elf.c:2253-2258 | 5552 bytes of deferred sums fit in 32 bits from any reduced start |
| `Adler32.AdlerIsSums` | sgx_backtrace_sys/libbacktrace/elf.c:2336-2344 | the two sums of the standard in closed form: 1 plus all bytes, and the length plus every byte weighted by its distance from the end |
| `Adler32.VerifyChecksum` | sgx_backtrace_sys/libbacktrace/elf.c:2234-2350 | for every length the deferred, unrolled sums are those of section 2.2 of RFC 1950 in 32-bit arithmetic, and the result is true exactly when the four bytes hold that value |
| `FreeList.PutKeeps` | sgx_backtrace_sys/libbacktrace/mmap.c:88-119 | putting a loose block on the list keeps all blocks disjoint, aligned and mapped, with at most 16 entries |
| `FreeList.PutKeepsBlock` | sgx_backtrace_sys/libbacktrace/mmap.c:95-118 | a block of 16 bytes or more goes to the front while the list has room; a smaller one is leaked |
| `FreeList.PutLosesSmallest` | sgx_backtrace_sys/libbacktrace/mmap.c:107-112 | a full list loses exactly one block, one of least size among its own and the new one |
| `FreeList.FreedIsFirst` | sgx_backtrace_sys/libbacktrace/mmap.c:114-117 | a block just freed serves the next request that fits in it |
| `FreeList.TakeConserves` | sgx_backtrace_sys/libbacktrace/mmap.c:154-163 | taking n bytes costs the list n rounded up to whole words; the rest of the block stays at the front unless it is less than a header |
| `FreeList.Round8Bounds` | sgx_backtrace_sys/libbacktrace/mmap.c:157-159 | sizes are rounded up to the next multiple of 8 |
| `FreeList.FreeKeeps` | sgx_backtrace_sys/libbacktrace/mmap.c:216-271 | so does freeing an owned block |
| `FreeList.TakeKeeps` | sgx_backtrace_sys/libbacktrace/mmap.c:149-168 | so does first fit with splitting |
| `FreeList.FromPageKeeps` | sgx_backtrace_sys/libbacktrace/mmap.c:175-207 | so does carving a block out of a fresh page |
| `FreeList.UnmapKeeps` | sgx_backtrace_sys/libbacktrace/mmap.c:226-251 | so does returning whole pages |
| `FreeList.StepKeeps` | sgx_backtrace_sys/libbacktrace/mmap.c:88-271 | every operation by a client that frees only what it owns keeps the invariant |
| `FreeList.RunKeeps` | sgx_backtrace_sys/libbacktrace/mmap.c:88-362 | hence over every run live and free blocks are pairwise disjoint, 8-aligned and inside mapped pages, and the list has at most 16 entries; the contracts of Alloc, Free and the vector operations say that each is such a run |
| `Allocator.BacktraceState.Scan` | sgx_backtrace_sys/libbacktrace/mmap.c:101-106 | counts the entries and finds the first of least size through the pointers in memory |
| `Allocator.BacktraceState.FreeLocked` | sgx_backtrace_sys/libbacktrace/mmap.c:88-119 | the list in memory changes exactly as Put says, which `PutKeepsBlock` and `PutLosesSmallest` pin down, and no live byte is written |
| `Allocator.BacktraceState.Find` | sgx_backtrace_sys/libbacktrace/mmap.c:149-151 | finds the first block that is large enough, or none |
| `Allocator.BacktraceState.AllocFromList` | sgx_backtrace_sys/libbacktrace/mmap.c:149-168 | unlinks it, frees the rest, returns an 8-aligned address; no live byte is written |
| `Allocator.BacktraceState.AllocFromPage` | sgx_backtrace_sys/libbacktrace/mmap.c:175-207 | a fresh page serves the request and its rest goes to the list |
| `Allocator.BacktraceState.Alloc` | sgx_backtrace_sys/libbacktrace/mmap.c:124-211 | every outcome of an allocation: the state follows the abstract step, the block has the requested size, and live contents are untouched |
| `Allocator.BacktraceState.FreeBlock` | sgx_backtrace_sys/libbacktrace/mmap.c:215-271 | large aligned blocks are unmapped when the system agrees, others go to the list |
| `Allocator.BacktraceState.Free` | sgx_backtrace_sys/libbacktrace/mmap.c:215-271 | freeing an owned block follows the abstract step and keeps every other live block's contents; freeing no bytes does nothing |
| `Allocator.BacktraceState.FreeThenAlloc` | sgx_backtrace_sys/libbacktrace/mmap.c:124-271 | memory comes back: a block freed while the list has room is what the next fitting request gets |
| `Allocator.BacktraceState.PageThenAlloc` | sgx_backtrace_sys/libbacktrace/mmap.c:200-206 | and the rest of a new page is used |
| `Allocator.BacktraceState.Write` | sgx_backtrace_sys/libbacktrace/mmap.c:124-211 | a client's write to a block it owns never damages the list |
| `GrowableVector.Vector.Reserve` | sgx_backtrace_sys/libbacktrace/mmap.c:281-316 | moving to a larger block allocates exactly that, frees exactly the old block, keeps the bytes, and changes no other live word; on failure nothing changes |
| `GrowableVector.GrowDoubles` | sgx_backtrace_sys/libbacktrace/mmap.c:286-300 | sixteen elements to begin with, then at least double, at most a page below a page, whole pages from there on |
| `GrowableVector.Vector.Grow` | sgx_backtrace_sys/libbacktrace/mmap.c:275-322 | returns the address behind the old contents, grows by exactly n and keeps the contents, with the exact set of live blocks |
| `GrowableVector.Vector.Finish` | sgx_backtrace_sys/libbacktrace/mmap.c:326-338 | splits its block into the contents, which are handed out, and the spare room, in which it goes on |
| `GrowableVector.Vector.Release` | sgx_backtrace_sys/libbacktrace/mmap.c:342-362 | frees exactly the spare room, as a block of its own; the contents and all other live words stay |
| `GrowableVector.ReleaseStaysInside` | sgx_backtrace_sys/libbacktrace/mmap.c:353-358 | the size passed on stays within the spare room exactly when the padding to 8 bytes does; whole-word sizes always do |
| `Clients.StepConsistent` | sgx_backtrace_sys/libbacktrace/mmap.c:88-362 | every operation of any client keeps all holdings live, distinct and with the words their owners left |
| `Clients.RunConsistent` | sgx_backtrace_sys/libbacktrace/mmap.c:88-362 | so over every run of allocations, frees, writes and vector operations |
| `Clients.RunKeepsContents` | sgx_backtrace_sys/libbacktrace/mmap.c:88-362 | and a client that does nothing between two times still holds its block, live and with the same words, whatever the others do |
| `Clients.Program.Allocate` | sgx_backtrace_sys/libbacktrace/mmap.c:124-211 | allocating is such a step; the new block is no other client's |
| `Clients.Program.Dispose` | sgx_backtrace_sys/libbacktrace/mmap.c:215-271 | so is freeing |
| `Clients.Program.Store` | sgx_backtrace_sys/libbacktrace/mmap.c:124-211 | so is writing a word of what one holds, which changes just that word |
| `Clients.Program.NewVector` | sgx_backtrace_sys/libbacktrace/mmap.c:275-322 | so is starting a vector |
| `Clients.Program.GrowVector` | sgx_backtrace_sys/libbacktrace/mmap.c:275-322 | so is growing a vector; its old words stay in front, wherever they are now |
| `Clients.Program.FinishVector` | sgx_backtrace_sys/libbacktrace/mmap.c:326-338 | so is finishing a vector, which hands its words to a new client |
| `Clients.Program.ReleaseVector` | sgx_backtrace_sys/libbacktrace/mmap.c:342-362 | so is releasing the spare room |
| `Quicksort.Partition` | sgx_backtrace_sys/libbacktrace/sort.c:71-91 | partitions any window around its middle element, for any total preorder, rearranging only that window |
| `Quicksort.Qsort` | sgx_backtrace_sys/libbacktrace/sort.c:58-106 | a sorted permutation for every total preorder, with recursion depth at most floor(log2(count)) + 1 |
| `Search.Bsearch` | sgx_backtrace_sys/libbacktrace/dwarf.c:2893-2894 | whichever entries the search looks at, it returns one that compares equal, or none; with an ordered comparison none means that no entry does |
| `Search.ArrivalMissesNone` | sgx_backtrace_sys/libbacktrace/dwarf.c:2893-2894 | under an ordered comparison no choice of entries makes the search miss one |
| `LineTable.BestIsWinner` | sgx_backtrace_sys/libbacktrace/dwarf.c:1110-1113 | the scan gives the last-emitted row among those with the greatest address at most pc |
| `LineTable.BestBounded` | sgx_backtrace_sys/libbacktrace/dwarf.c:3012-3015 | and nothing exactly when all rows lie above pc |
| `LineTable.KeptSameAnswers` | sgx_backtrace_sys/libbacktrace/dwarf.c:1705-1713 | at base 0 ignoring repeated rows changes no answer |
| `LineTable.KeptAllIff` | sgx_backtrace_sys/libbacktrace/dwarf.c:1705-1725 | at any base all rows are kept and relocated exactly when no row's own address equals the relocated address of an otherwise equal row before it |
| `LineTable.CoincidenceLosesRow` | sgx_backtrace_sys/libbacktrace/dwarf.c:1705-1725 | a concrete program at base 16 where the lost row changes an answer |
| `LineTable.LineVector.AddLine` | sgx_backtrace_sys/libbacktrace/dwarf.c:1698-1734 | the vector holds the kept rows with their positions |
| `LineTable.FinishLines` | sgx_backtrace_sys/libbacktrace/dwarf.c:2212-2243 | sorts by address and position and ends with the sentinel; fails exactly for no rows |
| `LineTable.LookupLine` | sgx_backtrace_sys/libbacktrace/dwarf.c:3010-3015 | for every address below the sentinel the search gives the answer of the plain scan of all emitted rows |
| `LineProgram.LookupInProgram` | sgx_backtrace_sys/libbacktrace/dwarf.c:2160-2255 | reading, sorting and searching a whole line program answers as the scan of the rows the program emits; fails exactly when the program is malformed or emits none |
| `PcRanges.RangeOrderOk` | sgx_backtrace_sys/libbacktrace/dwarf.c:928-950 | comparing ranges by start, then longer first, then by a tie-break is a total preorder |
| `PcRanges.SortRanges` | sgx_backtrace_sys/libbacktrace/dwarf.c:1034-1064 | so sorting gives a permutation in that order |
| `PcRanges.OrderedIffNoneEnded` | sgx_backtrace_sys/libbacktrace/dwarf.c:952-971 | for sorted ranges the search comparison is ordered for a pc exactly when no range that contains pc comes before one that has ended |
| `PcRanges.WalkEndsAtLast` | sgx_backtrace_sys/libbacktrace/dwarf.c:2905-2909 | then the walk from any match ends at the last range that contains pc |
| `PcRanges.EndedGoesWrong` | sgx_backtrace_sys/libbacktrace/dwarf.c:2893-2909 | otherwise some search misses all matches, or the walk from some match stops short |
| `PcRanges.LookupRightIff` | sgx_backtrace_sys/libbacktrace/dwarf.c:2893-2909 | so every search and walk gives the last range that contains pc, or nothing when none does, exactly under that condition |
| `PcRanges.FindRange` | sgx_backtrace_sys/libbacktrace/dwarf.c:3064-3082 | search and walk together land where some choice of entries leads, on a range that contains pc, and on the right one under that condition |
| `PcRanges.AmongIsInside` | sgx_backtrace_sys/libbacktrace/dwarf.c:2901-2904 | the condition in terms of the unsorted ranges: none starts inside one that contains pc and has ended |
| `PcRanges.SortAndFind` | sgx_backtrace_sys/libbacktrace/dwarf.c:2893-2909 | sorting, searching and walking find a range exactly when one contains pc, the one that starts last and is shortest there |
| `PcRanges.LastIsSmallest` | sgx_backtrace_sys/libbacktrace/dwarf.c:2901-2904 | for properly nested ranges that is a smallest one |
| `PcRanges.EndedInnerHidesOuter` | sgx_backtrace_sys/libbacktrace/dwarf.c:2893-2899 | an outer range and an inner one that has ended: a search can end with nothing |
| `InlineReport.FramesAt` | sgx_backtrace_sys/libbacktrace/dwarf.c:2842-2866 | each frame carries its own function's name and the call site of the frame inside it, innermost first |
| `InlineReport.ChainIsInlined` | sgx_backtrace_sys/libbacktrace/dwarf.c:2821-2848 | where the lookups are ordered the chain reported is, level by level, the last inlined function whose range contains pc, and it ends exactly where none does |
| `InlineReport.ChainContains` | sgx_backtrace_sys/libbacktrace/dwarf.c:2825-2844 | in any case every reported function is inlined at pc into the next one |
| `InlineReport.DeliverStops` | sgx_backtrace_sys/libbacktrace/dwarf.c:2847-2859 | callbacks run on a prefix of the frames: all if every result is 0, else up to the first that is not, which is returned |
| `InlineReport.ReportInlined` | sgx_backtrace_sys/libbacktrace/dwarf.c:2813-2867 | reports such a chain, for every finite tree, every callback and every choice the searches make |
| `InlineReport.ReportPc` | sgx_backtrace_sys/libbacktrace/dwarf.c:3084-3096 | then the function itself, with the outermost call site |
| `DwarfReader.UlebReads` | sgx_backtrace_sys/libbacktrace/dwarf.c:630-663 | reads any ULEB128 number modulo 2^64 and stops behind it |
| `DwarfReader.UlebRoundTrip` | sgx_backtrace_sys/libbacktrace/dwarf.c:630-663 | every 64-bit number is read back from its encoding |
| `DwarfReader.SlebReads` | sgx_backtrace_sys/libbacktrace/dwarf.c:667-704 | reads any SLEB128 number modulo 2^64 with its sign |
| `DwarfReader.SlebRoundTrip` | sgx_backtrace_sys/libbacktrace/dwarf.c:667-704 | every signed 64-bit number is read back from its encoding |
| `DwarfReader.DwarfBuf.Advance` | sgx_backtrace_sys/libbacktrace/dwarf.c:455-480 | moves forward, or stays and reports |
| `DwarfReader.DwarfBuf.ReadUleb` | sgx_backtrace_sys/libbacktrace/dwarf.c:630-663 | the loop over the buffer computes that number and leaves that rest |
| `DwarfReader.DwarfBuf.ReadSleb` | sgx_backtrace_sys/libbacktrace/dwarf.c:667-704 | likewise for signed numbers |
| `LineProgram.ReadLineProgram` | sgx_backtrace_sys/libbacktrace/dwarf.c:1936-2155 | the loop over the buffer, with its readers and its early returns, adds exactly the rows that the program's bytes stand for opcode by opcode, and fails exactly when an opcode does; `WholeRoundTrip` says what those rows are |
| `LineProgram.ReadOpcode` | sgx_backtrace_sys/libbacktrace/dwarf.c:1958-2152 | reading one opcode and its operands from the buffer does what the opcode's definition says and consumes exactly its bytes |
| `LineProgram.ReadExtended` | sgx_backtrace_sys/libbacktrace/dwarf.c:1975-2064 | likewise for each extended opcode |
| `LineProgram.ReadStandard` | sgx_backtrace_sys/libbacktrace/dwarf.c:2065-2151 | likewise for each standard opcode |
| `LineProgram.RowReads` | sgx_backtrace_sys/libbacktrace/dwarf.c:1963-1974 | an encoded row, as a special opcode or as advance_pc, advance_line and copy, is read as one emitted row |
| `LineProgram.ProgramRoundTrip` | sgx_backtrace_sys/libbacktrace/dwarf.c:1936-2155 | running the encoding of any list of rows emits exactly those rows |
| `LineProgram.EncodedAnswers` | sgx_backtrace_sys/libbacktrace/dwarf.c:1936-2155 | so the encoded program answers every address as the encoded rows do |
| `LineInstructions.FixedMeans` | sgx_backtrace_sys/libbacktrace/dwarf.c:509-574 | a number of fixed size is the sum of its bytes times powers of 256, in either byte order |
| `LineInstructions.FixedRoundTrip` | sgx_backtrace_sys/libbacktrace/dwarf.c:509-574 | and is read back from its bytes |
| `LineInstructions.ExtendedReads` | sgx_backtrace_sys/libbacktrace/dwarf.c:1975-2064 | end_sequence, set_address, discriminators and unknown extended opcodes, for every header and all registers |
| `LineInstructions.NewFileReads` | sgx_backtrace_sys/libbacktrace/dwarf.c:1996-2051 | define_file, field by field |
| `LineInstructions.StandardReads` | sgx_backtrace_sys/libbacktrace/dwarf.c:2066-2151 | set_file, the opcodes without effect and unknown standard opcodes with their operands |
| `LineInstructions.AdvanceReads` | sgx_backtrace_sys/libbacktrace/dwarf.c:2116-2130 | fixed_advance_pc and const_add_pc |
| `LineInstructions.InstrReads` | sgx_backtrace_sys/libbacktrace/dwarf.c:1958-2152 | any instruction of an encoder written apart from the reader is read back: its effect, its row, exactly its bytes |
| `LineInstructions.WholeRoundTrip` | sgx_backtrace_sys/libbacktrace/dwarf.c:1936-2155 | so reading a whole program, of any number of sequences and in either byte order, emits exactly the rows its instructions stand for |
| `LineInstructions.LookupInWhole` | sgx_backtrace_sys/libbacktrace/dwarf.c:2160-2255 | and looking an address up in it answers as a scan of those rows does |
| `LineInstructions.UnknownFileFails` | sgx_backtrace_sys/libbacktrace/dwarf.c:2094-2099 | a file number that the header does not have ends the program |
| `LineInstructions.UnknownDirectoryFails` | sgx_backtrace_sys/libbacktrace/dwarf.c:2019-2028 | so does a new file in a directory that it does not have |
| `LineProgram.ToIntWraps` | sgx_backtrace_sys/libbacktrace/dwarf.c:2082-2084 | line advances are cut to 32 bits |
| `LineProgram.AdvanceIsStandard` | sgx_backtrace_sys/libbacktrace/dwarf.c:1968-1971 | for all operands the address agrees with section 6.2.5.1 of DWARF 4 exactly when min_insn_len * ((op_index + advance) mod max_ops) is below max_ops and the 64-bit product overflows a multiple of max_ops times; in particular whenever max_ops is 1 |
| `LineProgram.AdvanceDeparts` | sgx_backtrace_sys/libbacktrace/dwarf.c:1968-1971 | with min_insn_len 2 and max_ops 2 an advance of 1 moves the address by 1 instead of 0 |
| `LineProgram.RunBound` | sgx_backtrace_sys/libbacktrace/dwarf.c:1936-2155 | every emitted address fits in 64 bits |
| `Abbrevs.TableSticky` | sgx_backtrace_sys/libbacktrace/dwarf.c:1186-1208 | an underflow reported while counting is still reported at the end |
| `Abbrevs.CountAbbrevs` | sgx_backtrace_sys/libbacktrace/dwarf.c:1181-1208 | counts the abbreviations and fails exactly when the table underflows |
| `Abbrevs.FillAttrs` | sgx_backtrace_sys/libbacktrace/dwarf.c:1269-1285 | reads as many attributes as were counted, every store in bounds, the array ends up full |
| `Abbrevs.FillEntry` | sgx_backtrace_sys/libbacktrace/dwarf.c:1244-1289 | one abbreviation with exactly its attributes; both passes consume the same bytes |
| `Abbrevs.FillAbbrevs` | sgx_backtrace_sys/libbacktrace/dwarf.c:1226-1293 | stores exactly the counted abbreviations, in bounds, and cannot fail after the counting pass |
| `Abbrevs.ReadAbbrevs` | sgx_backtrace_sys/libbacktrace/dwarf.c:1155-1303 | the result is the table's abbreviations, sorted by code; `TableRoundTrip` says what they are |
| `Abbrevs.LookupAbbrev` | sgx_backtrace_sys/libbacktrace/dwarf.c:1307-1332 | found exactly when the code exists; with distinct codes the direct path and the search give the one entry |
| `Abbrevs.AttrsRoundTrip` | sgx_backtrace_sys/libbacktrace/dwarf.c:1269-1285 | any list of attributes is read back from its encoding |
| `Abbrevs.TableRoundTrip` | sgx_backtrace_sys/libbacktrace/dwarf.c:1228-1293 | any list of abbreviations is read back from its encoding, field by field |
| `Abbrevs.LookupEncoded` | sgx_backtrace_sys/libbacktrace/dwarf.c:1155-1332 | reading an encoded table and looking a code up gives the abbreviation that was encoded, or nothing exactly when there is none |
| `EventProtocol.RunKeeps` | sgx_ustdc/event.c:122-169 | in every reachable interleaving the counter is wakes - waits + resets, and a sleeping waiter implies -1 or a wake call on its way |
| `EventProtocol.NoLostWakeup` | sgx_ustdc/event.c:122-169 | once wakes cover waits a sleeper is woken by the next wake call, and one is outstanding |
| `EventProtocol.DisciplinedKeeps` | sgx_ustdc/event.c:122-169 | if waits begin with no wake call outstanding, an idle waiter never leaves a debt |
| `EventProtocol.ReturnsAreMatched` | sgx_ustdc/event.c:122-169 | then every returned wait was matched by a wake or undone by a reset |
| `EventProtocol.StaleWakeIff` | sgx_ustdc/event.c:127-128 | a wait can return with no wake after it exactly when a wake call was outstanding as it began |
| `EventProtocol.StaleWakeRun` | sgx_ustdc/event.c:122-169 | a run from the initial state in which two waits return after one wake |
| `EventProtocol.NegativeNeverSleeps` | sgx_ustdc/event.c:127-130 | after that further waits return at once, each lowering the counter |
| `EventProtocol.TimeoutReset` | sgx_ustdc/event.c:145-156 | a timed-out wait gives its decrement back exactly when no wake arrived in time |
| `EventProtocol.UntimedNeverExpires` | sgx_ustdc/event.c:122-131 | an untimed wait is never past a timeout and never resets the counter, whatever happens until the next wait begins |
| `EventProtocol.TimedCanExpire` | sgx_ustdc/event.c:145-156 | a timed wait that sleeps can always time out, reset and return |
| `EventProtocol.WakeBeforeWait` | sgx_ustdc/event.c:122-169 | a wake that comes first is taken by the next wait, with no system call by either side |
| `EventProtocol.WakeCallIff` | sgx_ustdc/event.c:164-166 | a wake is followed by a wake call exactly when it does not find the counter at 0 |
| `EventProtocol.WaiterCanReturn` | sgx_ustdc/event.c:122-157 | from every state the waiter can return by its own steps |
| `TcsCache.Cache.Add` | sgx_ustdc/event.c:35-49 | inserting behind the head keeps the ring: every step forward is undone by the step back |
| `TcsCache.Cache.EventGet` | sgx_ustdc/event.c:208-238 | a known thread keeps its one event, a new thread gets a new entry; a failed entry allocation changes nothing, a failed event allocation leaves an entry without an event |
| `AlignAlloc.RolBit` | sgx_alloc/src/alignalloc.rs:317-325 | rotating left moves bit i - c to bit i modulo 64, for every shift |
| `AlignAlloc.RorBit` | sgx_alloc/src/alignalloc.rs:327-329 | rotating right is its inverse |
| `AlignAlloc.GenMaskIs` | sgx_alloc/src/alignalloc.rs:309-315 | the recursive mask has bit 63 - o set exactly for multiples o of the alignment |
| `AlignAlloc.CountLzbIs` | sgx_alloc/src/alignalloc.rs:331-337 | the shifting count is the least distance of a set bit from the top, -1 exactly for zero |
| `AlignAlloc.ClashBit` | sgx_alloc/src/alignalloc.rs:343-344 | the rotations collect the five positions that a line offset could spoil |
| `AlignAlloc.FreeBit` | sgx_alloc/src/alignalloc.rs:343-344 | bit 63 - o is clear exactly when offset o puts no requested byte at position 0 or 4..7 |
| `AlignAlloc.CalcLspcIsLeast` | sgx_alloc/src/alignalloc.rs:339-352 | the trick refines the naive search for every bitmap: the least admissible safe offset, -1 exactly when there is none |
| `SecretPlacement.CheckAlignReq` | sgx_alloc/src/alignalloc.rs:271-307 | accepts exactly a non-empty list of in-bounds, pairwise disjoint requests, given its scratch memory |
| `SecretPlacement.MakeBitmap` | sgx_alloc/src/alignalloc.rs:370-380 | bit j is set exactly when some requested byte is at j modulo 64, including the shortcut for long requests |
| `SecretPlacement.SafeMeans` | sgx_alloc/src/alignalloc.rs:343-344 | an offset is safe for the bitmap exactly when it is safe for every requested byte |
| `AlignedPointer.CalcAlgnHolds` | sgx_alloc/src/alignalloc.rs:354-368 | the chosen alignment is the smallest of 8, 16, 32, 64 that holds the padded data, or the requested one above 64 |
| `AlignedPointer.PadAlignTo` | sgx_alloc/src/alignalloc.rs:229-253 | the padded layout splits into the least safe pad, the alignment chosen for it, and the data; every reason for failing is listed |
| `AlignedPointer.NoSecretOnBadPosition` | sgx_alloc/src/alignalloc.rs:192-258 | for every address malloc may return, no requested byte lies at line position 0 or 4..7, whatever the chosen alignment |
| `AlignedPointer.DataInside` | sgx_alloc/src/alignalloc.rs:206-218 | the data lies inside the block |
| `AlignedPointer.AlignedIff` | sgx_alloc/src/alignalloc.rs:362-368 | the pointer is a multiple of the requested alignment for every block malloc may return, which are multiples of 16, exactly outside one family: alignment 32 or 64, data of at most half of it, and requests that need no pad |
| `AlignedPointer.SmallDataMisaligned` | sgx_alloc/src/alignalloc.rs:362-368 | four bytes with alignment 32 of which 1..3 are requested: the block at 16 gives the pointer 16 |
| `AlignedPointer.FirstByteAligned` | sgx_alloc/src/alignalloc.rs:362-368 | if byte 0 is requested the pointer is aligned for any block at all |
| `AlignedPointer.SlotInsideIff` | sgx_alloc/src/alignalloc.rs:215-217 | the saved address lies inside the block for every block exactly when no offset below 8 is a safe candidate |
| `AlignedPointer.OneByteSlotOutside` | sgx_alloc/src/alignalloc.rs:215-217 | one byte with alignment 1: the saved address starts seven bytes before the block |
| `AlignedPointer.WholeRequestFits` | sgx_alloc/src/alignalloc.rs:125-132 | requesting all of the data succeeds exactly for data that fits between position 8, or its alignment, and the end of a line |
| `SecretHeap.Heap.AllocWithPadAlign` | sgx_alloc/src/alignalloc.rs:192-220 | null exactly when a check fails or malloc does; otherwise the memory after zeroing and saving the address, and a valid heap with one more block if there is room in front |
| `SecretHeap.Heap.AllocWithReq` | sgx_alloc/src/alignalloc.rs:134-151 | an empty request list stands for the whole data; the pointer keeps every requested byte off the bad positions, and the heap stays valid unless an offset below 8 is a safe candidate |
| `SecretHeap.Heap.Write` | sgx_alloc/src/alignalloc.rs:192-220 | storing into one's own data keeps every saved address |
| `SecretHeap.Heap.Dealloc` | sgx_alloc/src/alignalloc.rs:222-227 | frees the very block that malloc returned for the pointer, whatever has been allocated, stored and freed since |
| `SecretHeap.AllocSaves` | sgx_alloc/src/alignalloc.rs:212-217 | the address just saved reads back, and with zeroing every data byte is zero |
| `SecretHeap.RunKeeps` | sgx_alloc/src/alignalloc.rs:192-227 | over every run of allocations, stores and frees of blocks with room in front, blocks stay apart and each keeps its own address |
| `SecretHeap.RunReturnsBlocks` | sgx_alloc/src/alignalloc.rs:222-227 | so dealloc always gives back the block malloc returned, and a step on one block leaves the bytes of the others alone |
| `Demangle.SkipElement` | sgx_demangle/src/legacy.rs:94-113 | reads one length and name; fails exactly when the length overflows or the symbol ends too early |
| `Demangle.ParseSymbol` | sgx_demangle/src/legacy.rs:68-117 | prefix, ASCII check, element count and remainder; fails exactly when one of them does |
| `Demangle.InnerIff` | sgx_demangle/src/legacy.rs:72-83 | exactly the three prefixes are taken off |
| `Demangle.ScanComplete` | sgx_demangle/src/legacy.rs:93-116 | every well-formed sequence of elements closed by an E is accepted with its element count and remainder |
| `Demangle.ScanSound` | sgx_demangle/src/legacy.rs:93-116 | everything accepted is such a sequence |
| `Demangle.AcceptedIff` | sgx_demangle/src/legacy.rs:93-116 | both directions together |
| `Demangle.PiecesUnique` | sgx_demangle/src/legacy.rs:93-116 | a symbol is such a sequence in at most one way |
| `Demangle.NextName` | sgx_demangle/src/legacy.rs:129-135 | on an accepted symbol the unchecked reader visits the parser's element boundaries: no unwrap, number or slice fails |
| `Demangle.PrintSymbol` | sgx_demangle/src/legacy.rs:124-207 | prints the elements joined by two colons; the alternate form drops a hash in last place |
| `Demangle.DemangleToString` | sgx_demangle/src/legacy.rs:68-207 | for every string: rejected exactly when it is no symbol, otherwise printed as its elements |
| `Demangle.MangleReadable` | sgx_demangle/src/legacy.rs:51-60 | a mangled path is well formed exactly when no name starts with a digit and only the last may be empty |
| `Demangle.MangleRoundTrip` | sgx_demangle/src/legacy.rs:51-60 | names without dots and dollar signs come back joined by two colons |
| `Demangle.TextRoundTrip` | sgx_demangle/src/legacy.rs:51-60 | any path of texts in printable characters, spelled by a table written from the mangler's side, comes back joined by two colons |
| `Demangle.MangleThenDemangle` | sgx_demangle/src/legacy.rs:68-207 | end to end, from the path to the symbol and back |
| `Demangle.HashDropped` | sgx_demangle/src/legacy.rs:136-140 | the alternate form drops the hash behind a path, the plain form does not |
| `DemangleText.PrintElement` | sgx_demangle/src/legacy.rs:144-203 | the chunked printer equals the character-by-character expansion; every pass shortens the rest |
| `DemangleText.ExpandSpelling` | sgx_demangle/src/legacy.rs:147-203 | every readable sequence of plain characters, dots and escapes prints as its meaning, an unknown escape and what follows it as themselves |
| `DemangleText.Decompose` | sgx_demangle/src/legacy.rs:147-203 | and every string is such a sequence |
| `DemangleText.SpellTextReads` | sgx_demangle/src/legacy.rs:156-195 | any text of printable characters comes back from its spelling with symbol abbreviations and hexadecimal numbers |
| `DemangleText.MangledNameReads` | sgx_demangle/src/legacy.rs:144-146 | also with the underscore that is put in front of a dollar sign |
| `DemangleText.PrintableIff` | sgx_demangle/src/legacy.rs:179-189 | the characters that a number may stand for: scalar values other than control characters |

## Left out

- Inflate.InflateStream: says nothing about refusal in the `Departs` cases other than crowded tables, which are always refused. The seven cases are unassigned codewords, over-subscribed lengths that start with length 1 for symbol 0, codes whose secondary tables have no room, stored blocks whose header ends on a byte boundary, realignment past the end after a stored block, anything but a 4-byte trailer after the last block (which includes concatenated streams), and inputs of at most four bytes.
- Inflate.FixedTables.constructor: the literal default tables are modelled as what their generator builds, not compared entry by entry.
- Inflate.InflateAndVerify: needs at least four input bytes and three readable bytes behind the input, because the source reads the trailer and aligns without checking.
- HuffmanTable.CountLengths: the working arrays are separate objects; the source carves them out of one buffer.
- Allocator.BacktraceState.Alloc: the page that mmap returns is a parameter that must not be in use; the check that it lies outside the enclave, the error callbacks and the never-enabled threaded variant are left out, and sizes near 2^64 are not wrapped.
- GrowableVector.Vector.Grow: element sizes are multiples of 8, as all callers' are.
- Quicksort.Qsort: elements are values that are swapped whole, not byte by byte.
- LineTable.LineVector.AddLine: file names are compared by identity and modelled as numbers; an allocation failure, which drops the row, and wrap-around of relocated addresses are not modelled.
- LineTable.LookupLine: the addresses stored are at most the sentinel, and the address looked up lies below it.
- LineProgram.ReadLineProgram: needs header fields that divide to be non-zero, because the source divides by them unchecked; operands are cut to 32 bits as the source does, but the line number itself is unbounded, since its overflow is undefined in C; file names are identities.
- LineProgram.ProgramRoundTrip: one operation per instruction, which holds for every version below 4; `AdvanceIsStandard` says exactly when more operations agree with the standard. The same holds for LineInstructions.WholeRoundTrip.
- Abbrevs.ReadAbbrevs: the offset check and allocation failures are left out; the bytes are those from the offset on, and tags, names and forms are not cut to the size of an enumeration.
- InlineReport.ReportInlined: function trees are finite; the reader that builds them is not modelled, so that their ranges are sorted is part of the condition `OrderedAlong`.
- PcRanges.SortRanges: the tie-break between equal ranges, by name or by line offset, is a parameter that must be a total preorder.
- TableBuilder.AcceptsOversubscribed: an example; over-subscribed lengths are accepted only if symbol 0 has length 1 and can never be decoded, and which of those are accepted is stated step by step only, for codes of at most 8 bits.
- TcsCache.Cache.EventGet: the mutex is left out, so this is the body of the critical section.
- EventProtocol.RunKeeps: one waiter per event, as the cache gives each thread its own; the counter is unbounded.
- AlignedPointer.PadAlignTo: sums are compared with the limit before they could wrap; a request of 63 bytes uses the wrapped value of its mask.
- AlignedPointer.MakeAlignedPtr: masking with a power of two is written as subtracting the remainder.
- SecretHeap.RunReturnsBlocks: speaks of blocks with 8 bytes of room in front of the data; `SlotInsideIff` says exactly when all blocks of a layout have it.
- Demangle.PrintSymbol: writing to the formatter never fails.
- read_attribute, read_function_entry, find_address_ranges and the rest of the DWARF tree walk: dispatch on forms and tags, which would add many easy members.
- read_referenced_name: its recursion has no decreasing measure on malformed input.
- elf_add, debug file search, symbol tables, crc32, file reading and mapping: input and output.
- sgx_demangle/src/lib.rs and the v0 scheme, sgx_align_struct_attribute, sgx_crypto_helper, signal handling, the remaining ocall wrappers and build scripts: thin wrappers, copies of the same arithmetic, or foreign calls.
