# Models of kernel tracing components

Dafny models, with proofs, of five components: the perf event ring and the BPF ring buffer
(`bpf-basic`), the kernel symbol table (`ksym`), the wildcard matchers and the tracepoint filter
language (`ddebug`, `tp-lexer`), and kernel, user and return probes (`kprobe`, with the aarch64
back end). `dafny verify dfyconfig.toml` checks everything.

Each component is described twice: by functions on values, about which the properties are proved,
and, where the program updates objects in place, by classes whose methods are proved to compute
those functions.

| files | what they model |
|---|---|
| `Bytes`, `Slots`, `Chars` | little-endian words, modular positions, reading and storing through a ring, characters |
| `PerfRing`, `PerfRuns`, `PerfRingPage` | the perf ring: records, padding, the lost counter; runs; the object |
| `KsymOrder`, `KsymRecord`, `KsymBlob`, `KsymBuild`, `KsymLookup`, `KsymEndToEnd` | sorting, name compression, serialization, building, searching, and all of it end to end |
| `RingBuf`, `RingSteps`, `RingBufObject` | headers and mapping; the interleaving of reservers, committers and consumer; the object |
| `Glob`, `ControlGlob`, `FilterGlob`, `GlobMeaning` | what a wildcard pattern means; the two matchers; patterns written byte by byte and their meaning |
| `ProbeTypes`, `ProbeMemory`, `ProbeManager`, `ProbeRegistry`, `ProbeOrder`, `ProbeExec`, `ProbeObjects` | the instruction check, patched text and slots, the two indexes, the registry, the order of the probes of an address, out-of-line execution, the objects |
| `Retprobe`, `RetprobeRuns` | instance pools, the trampoline, the shadow stacks of many tasks |
| `FilterLexer`, `FilterParser`, `FilterPrint`, `FilterRoundTrip`, `FilterEval` | lexing, parsing, printing, their round trip, validation and evaluation |
| `FilterSyntax`, `FilterMeaning` | texts of the filter language written byte by byte, and what they are parsed as and decide |

What the caller has to know, found where a promise did not hold as stated and given its exact
condition:

- A perf sample that is small enough can be written while the pending lost record does not fit, so
  a lost record can come after samples younger than the losses (`PerfRuns.LossesStayInPlace`,
  `PerfRuns.OvertakingHappens`). The 16-bit size field wraps for records of 65536 bytes or more
  (`PerfRing.SizeFieldExact`), and an empty payload does not fit its slices
  (`PerfRing.SlicesMatchExactly`).
- Token id 511, the last that `MAX_TOKEN` allows, is written so that the reader takes it for id 1
  (`KsymRecord.IdRoundTrip`): names written with it are lost. That happens exactly when 512 tokens
  are selected and the last has ten bytes or more (`KsymEndToEnd.LastTokenExact`,
  `KsymEndToEnd.LastTokenHappens`).
- `lookup_address` subtracts the first symbol's address from an address of the text below it: a
  panic, or a wrapped offset where overflow is not checked (`KsymLookup.LookupAddress`). Of symbols at
  one address it answers the first on an exact hit, but the last for an address inside it
  (`KsymEndToEnd.ResolveAddress`).
- ddebug's matcher tries a pattern's `*` as a literal first, so it can refuse values that contain a
  `*` byte (`ControlGlob.ExactlyNoLiteralStar`).
- A range of a bracket class whose bounds are out of order still takes its first bound
  (`GlobMeaning.BracketsMean`), and behind a byte and a dash a `]` is a bound and does not close the class.
- The words of a pattern without quotes are joined without the spaces between them: `comm ~ a *` is
  `comm ~ "a*"` (`FilterSyntax.WordsCompared`).
- `validate_instruction` accepts `adrp`, `bc.cond`, `eret`, `drps` and the authenticated register
  branches (`ProbeTypes.CheckIsExactUpTo`); a probed `adrp` computes the page of the slot
  (`ProbeExec.AdrpNeedsSamePage`). What extensions after Armv8-A add to the instructions that read or
  set the PC, like FEAT_CMPBR and FEAT_PAuth_LR, is not classified.
- A trap clears the exclusive monitor. A probe between a load-exclusive and its store-exclusive makes
  the store fail, and a loop that tries again never ends; the check accepts such a probe
  (`ProbeExec.ProbeInExclusive`).
- Unregistering the only probe of an address strands a thread that is in its slot: the breakpoint
  behind the slot has no handler any more, and with the last handle the page itself is gone
  (`ProbeExec.ChangeWhileStepping`).
- A probe unregistered while a handle of it is kept leaves its breakpoint in the text, where no
  handler takes the trap and no new probe can be registered (`ProbeRegistry.UnlistedDangles`,
  `ProbeExec.DanglingIsUnhandled`, `ProbeRegistry.DanglingRefuses`).
- The least 64-bit integer has no literal with a minus sign alone, only with a plus before it
  (`FilterPrint.LeastNeedsPlus`); the printer here writes it so.

## Model

| member | source | states |
|---|---|---|
| `PerfRing.WriteEventQueues` | bpf-basic/src/perf/bpf.rs:68-173 | a call on a page whose unread bytes decode to some records leaves them, and adds exactly the pending lost record if it fits and the event if it then fits, whatever is only counted; the counter takes what was not written |
| `PerfRing.WriteEventExactly` | bpf-basic/src/perf/bpf.rs:68-104 | what one call does, by lengths and positions alone: the pending lost record goes if 24 bytes fit, the event if then 12 bytes and its data fit, each padded so that a whole header fits behind it; where the head and the counter end |
| `PerfRing.StoredBytes` | bpf-basic/src/perf/bpf.rs:136-173 | the bytes of both records as literal words at their offsets: type, misc, size with padding, length and data, or id and count |
| `Slots.StoreExactly` | bpf-basic/src/perf/bpf.rs:109-123 | byte k of a store lies in the slot of its position plus k, modulo the region |
| `PerfRing.ReadTakesOldest` | bpf-basic/src/perf/bpf.rs:176-181 | a reader that follows the size field gets the oldest record and leaves the others; an empty ring is one whose positions are equal |
| `PerfRing.PaddingNeverOverruns` | bpf-basic/src/perf/bpf.rs:61-65 | although the room check ignores the padding, a padded record never passes the reader and never leaves a position whose header the wrap would split |
| `PerfRing.CapacityIsFree` | bpf-basic/src/perf/bpf.rs:61-65 | the wrapping subtraction and addition of the check give the number of free bytes in every state that keeps the invariant |
| `PerfRing.SizeFieldExact` | bpf-basic/src/perf/bpf.rs:136-157 | the 16-bit size field leads a reader to the writer's head if and only if record and padding are shorter than 65536 bytes |
| `PerfRing.SlicesMatchExactly` | bpf-basic/src/perf/bpf.rs:109-123 | the two slices cut for a copy have the length of the data if and only if the data has between one byte and a region of bytes: empty data does not fit |
| `PerfRuns.RunRefinesQueue` | bpf-basic/src/perf/bpf.rs:68-173 | over any run of events and reads, what was taken followed by what decodes from the ring is everything written, in order; the samples are the accepted events, each what was offered at its place; every event offered is a sample, or counted in a lost record or in the pending counter; the ring is never overfull |
| `PerfRuns.LossesStayInPlace` | bpf-basic/src/perf/bpf.rs:68-104 | over any run the records and the counter tell every loss at its place among the samples if and only if no event of the run slipped in where the pending lost record did not fit; a loss told at a wrong place stays so |
| `PerfRuns.OvertakingHappens` | bpf-basic/src/perf/bpf.rs:68-104 | on a region of one page three events of 4064, 100 and 1 bytes are such a run |
| `PerfRingPage.RingPage.WriteAny` | bpf-basic/src/perf/bpf.rs:109-123 | the in-place copy into two slices stores the data from the slot of the head on, around the wrap, and advances the head; nothing else changes |
| `PerfRingPage.RingPage.WriteSample` | bpf-basic/src/perf/bpf.rs:136-157 | header and payload in place: the new page value is the one of the sample written |
| `PerfRingPage.RingPage.WriteLost` | bpf-basic/src/perf/bpf.rs:159-173 | the lost record in place, the counter reset |
| `PerfRingPage.RingPage.WriteEvent` | bpf-basic/src/perf/bpf.rs:68-104 | the recursive call in place computes the specified page; it ends because the counter is reset |
| `PerfRingPage.RingPage.Readable` | bpf-basic/src/perf/bpf.rs:176-181 | true if and only if a written record has not been taken |
| `KsymOrder.OrderCorrect` | ksym/src/bin/gen_ksym.rs:101-104 | both index orders are the stable sorts: a permutation of the input places, ordered by address or name, equal keys in input order |
| `KsymOrder.NameLessIsLexical` | ksym/src/bin/gen_ksym.rs:101-104 | a name comes before another if and only if it is a proper prefix of it or has the smaller byte at the first place where they differ |
| `KsymOrder.OrdersAre` | ksym/src/bin/gen_ksym.rs:101-104 | in the two index orders addresses grow and names grow as byte strings; equal keys stand as in the input |
| `KsymRecord.SelectTokens` | ksym/src/bin/gen_ksym.rs:136-152 | whatever the order of the candidates, the selected tokens are distinct candidates, at most 512, none the beginning of one before it; below that number every candidate is the beginning of a token |
| `KsymRecord.PrefixIsLongest` | ksym/src/bin/gen_ksym.rs:165-198 | the length used is one of the 26 candidate lengths, or none, and no longer one of them has a token for the name |
| `KsymRecord.RecordBytesAre` | ksym/src/bin/gen_ksym.rs:158-214 | a record byte for byte: type, length with the low byte first, and the name, or the token id of one byte or of two with the high one first between two bytes 0xFF, and the rest |
| `KsymRecord.IdRoundTrip` | ksym/src/bin/gen_ksym.rs:187-194 | the id bytes are read back as the id if and only if it is not 511, which reads as 1 |
| `KsymRecord.PayloadRoundTrip` | ksym/src/bin/gen_ksym.rs:158-214 | what the reader makes of a payload of 1 to 4096 bytes is the name, or nothing if and only if it was written with token id 511 |
| `KsymRecord.LastTokenIsLost` | ksym/src/lib.rs:185-225 | a record written with id 511 expands to the empty string |
| `KsymRecord.ExpandSymbol` | ksym/src/lib.rs:185-225 | filling the name buffer in place gives the specified text: token, then remaining bytes, cut at the buffer |
| `KsymRecord.ReaderExpands` | ksym/src/lib.rs:185-225 | what the reader makes of any bytes, written by the generator or not: the token of an id between marks, nothing for an id the table does not have, other bytes as they are, 4096 at most, and no text if one is not ASCII |
| `KsymBlob.AlignSkipsPadding` | ksym/src/bin/gen_ksym.rs:232-237 | at an 8-aligned base the reader skips exactly the bytes the writer padded, for both alignments |
| `KsymBlob.BlobRoundTrip` | ksym/src/lib.rs:53-161 | parsing the bytes of a table at an 8-aligned base succeeds and gives back addresses, offsets, sequence numbers, names, token table and token index |
| `KsymBlob.BlobLayout` | ksym/src/bin/gen_ksym.rs:228-283 | the blob as literal words in order: length, count, the three arrays, names and tokens after their lengths and padded with zeros, the token starts after their number |
| `KsymBlob.WrongLengthRefused` | ksym/src/lib.rs:53-161 | a blob cut short or prolonged is refused, with the error that says which |
| `KsymBlob.LengthDecides` | ksym/src/lib.rs:53-161 | the length is refused if and only if the first word of the blob is another; what is parsed has it right |
| `KsymBuild.KallsymsBlob.AddToken` | ksym/src/bin/gen_ksym.rs:82-91 | a new token is appended to table, index and map; a known one keeps its id |
| `KsymBuild.KallsymsBlob.FindToken` | ksym/src/bin/gen_ksym.rs:165-198 | finds the longest prefix of a candidate length that is a token |
| `KsymBuild.KallsymsBlob.EmitRecord` | ksym/src/bin/gen_ksym.rs:158-214 | appends exactly the record of the symbol |
| `KsymBuild.KallsymsBlob.CompressSymbols` | ksym/src/bin/gen_ksym.rs:95-224 | the arrays of the object become the table of the symbol list, for tokens taken from the names, none the beginning of one before it, and numbered in order |
| `KsymBuild.KallsymsBlob.ToBlob` | ksym/src/bin/gen_ksym.rs:228-283 | growing and patching the byte vector gives the specified blob |
| `KsymEndToEnd.RecordAt` | ksym/src/bin/gen_ksym.rs:158-214 | the records partition the names buffer: each begins where the ones before it end, and is there in full |
| `KsymEndToEnd.TableHolds` | ksym/src/bin/gen_ksym.rs:158-224 | every record decodes to its symbol's type, and to its name, or to nothing if and only if token id 511 was used |
| `KsymEndToEnd.NamesAreSorted` | ksym/src/bin/gen_ksym.rs:216-223 | the names read through the sequence numbers are the input names, growing as byte strings, with the addresses that belong to them |
| `KsymLookup.SearchName` | ksym/src/lib.rs:323-352 | what the binary search finds has the name, in any table; in a table sorted by name -1 means that no place has it |
| `KsymLookup.LookupNames` | ksym/src/lib.rs:323-389 | the run found holds the first place of the name and, with need_end, ends at the last: all and only the places of the name in a sorted table |
| `KsymLookup.LookupName` | ksym/src/lib.rs:312-321 | the address of a place with the name: in a sorted table of the first one, and nothing if and only if there is none |
| `KsymLookup.LookupAddress` | ksym/src/lib.rs:242-294 | the symbol at the greatest address not above, the first alias on an exact hit; it ends at the next greater address or at the end of the text. An address of the text below every symbol is not refused: the offset underflows for these and no others |
| `KsymEndToEnd.Resolve` | ksym/src/lib.rs:312-321 | on the blob of a symbol list, looking a name up gives the address of the first input symbol with that name, and nothing if and only if there is none, for every name if and only if no name was written with token id 511; a name written with it is never found |
| `KsymEndToEnd.LastTokenExact` | ksym/src/bin/gen_ksym.rs:136-198 | some name is written with token id 511 if and only if there is a token of that id with ten bytes or more |
| `KsymEndToEnd.LastTokenInTable` | ksym/src/bin/gen_ksym.rs:136-198 | the table shows whether there is such a token: its index has 512 entries and the last lies ten bytes or more before the end of the tokens |
| `KsymEndToEnd.AllTenBytesSelected` | ksym/src/bin/gen_ksym.rs:112-152 | from 512 certain names of ten bytes the selection loop takes every one, whatever their order, so that a name is written with token id 511 |
| `KsymEndToEnd.LastTokenHappens` | ksym/src/bin/gen_ksym.rs:136-198 | it does happen: from 512 symbols with certain names of ten bytes the generator, given all their candidates in any order, makes a blob in which no place is read as the name of one of them, and looking it up finds nothing |
| `KsymEndToEnd.ResolveAll` | ksym/src/lib.rs:323-389 | on the blob, the run of places returned holds exactly the input symbols with the name |
| `KsymEndToEnd.ResolveAddress` | ksym/src/lib.rs:242-294 | on the blob, an address is answered by an input symbol at the greatest address not above, of those at one address the first on an exact hit and the last otherwise, its size reaching to the next greater input address or the end of the text, the offset inside it; it underflows if and only if it lies in the text below every symbol |
| `KsymEndToEnd.GenerateAndResolve` | ksym/src/bin/gen_ksym.rs:95-283 | generator and reader together, for any symbols the format can carry and token candidates in any number and order: if the table that the blob parses to shows no token of id 511 or one shorter than ten bytes, looking a name up in the generated blob gives the address of the first symbol with that name, and nothing if and only if there is none; otherwise a symbol written with it exists and is never found |
| `RingBuf.MapPages` | bpf-basic/src/map/stream/ringbuf.rs:150-171 | the mapping is the allocated pages with the data pages once more at the end |
| `RingBuf.DoubleMapped` | bpf-basic/src/map/stream/ringbuf.rs:132-148 | two offsets of the doubled area name the same physical byte if and only if they agree modulo the ring size |
| `RingBuf.RestoreFindsRing` | bpf-basic/src/map/stream/ringbuf.rs:239-250 | from the address of any record and the page offset stored in it, the base of its ring |
| `RingBuf.HeaderWords` | bpf-basic/src/map/stream/ringbuf.rs:282-299 | the header a reservation writes, as two literal words: the busy bit with the length, and the page of the mapping |
| `RingBufObject.RingBuffer.Reserve` | bpf-basic/src/map/stream/ringbuf.rs:253-300 | EINVAL from 2^30 bytes on or if the record with header and padding is longer than the ring, ENOMEM if no byte would be left free, else the slice; the memory changes by the literal header only; the object ends in the state to which the reserve steps of the interleaving model lead |
| `RingBufObject.ReserveExactly` | bpf-basic/src/map/stream/ringbuf.rs:253-300 | answer and memory of a reservation by sizes and positions alone are those of the reserve steps |
| `RingBufObject.EmptyRingTakes` | bpf-basic/src/map/stream/ringbuf.rs:253-300 | an empty ring takes every record that with header and padding is shorter than the ring |
| `RingBufObject.RingBuffer.Commit` | bpf-basic/src/map/stream/ringbuf.rs:302-338 | knowing only the sample's address, ends in the state to which the commit steps of the interleaving model lead, and calls the waker in exactly the cases in which those deliver a wake-up |
| `RingBufObject.RingBuffer.Output` | bpf-basic/src/helper/ringbuf.rs:49-71 | reserve, copy and commit in one: the new record is committed with the data, every other record is as it was, and the invariant holds; every refusal leaves the ring as it was. Flag words from 4 on are refused, those with bit 1 force the wake-up, 1 forbids it |
| `RingBufObject.RingBuffer.AvailDataSize` | bpf-basic/src/map/stream/ringbuf.rs:341-345 | the bytes reserved and not consumed, from the first record not taken to the end of the last, less than the ring |
| `RingSteps.NextKeeps` | bpf-basic/src/map/stream/ringbuf.rs:253-338 | every step of producers, committers and consumer keeps the invariant |
| `RingSteps.RunKeepsInv` | bpf-basic/src/map/stream/ringbuf.rs:253-338 | every state of every interleaving satisfies the invariant |
| `RingSteps.ConsumerSeesCommitted` | bpf-basic/src/map/stream/ringbuf.rs:253-338 | in every reachable state the records ever reserved lie one after the other, the unread ones between the positions, less than a ring; the consumer has seen exactly the records not discarded, in reservation order, with the bytes they had when committed |
| `RingSteps.RunFreezes` | bpf-basic/src/map/stream/ringbuf.rs:302-320 | a committed or discarded record never changes again, none disappears |
| `RingSteps.OutstandingDisjoint` | bpf-basic/src/map/stream/ringbuf.rs:264-300 | no byte belongs to two outstanding records, in the ring and so in the doubled area |
| `RingSteps.SliceInDoubledArea` | bpf-basic/src/map/stream/ringbuf.rs:282-299 | the slice handed out for a record lies inside the doubled area and its header inside the first copy |
| `RingSteps.NoLostWakeup` | bpf-basic/src/map/stream/ringbuf.rs:322-337 | in no reachable state does the consumer sleep with no wake-up pending and no commit of its record in progress at a record that is ready, unless its commit asked for no wake-up |
| `RingSteps.AdaptiveWakesExactly` | bpf-basic/src/map/stream/ringbuf.rs:322-337 | a commit of an unread record wakes the consumer always if forced, never if forbidden, else if and only if it has come to that record |
| `RingSteps.ReserveDecides` | bpf-basic/src/map/stream/ringbuf.rs:253-300 | which reservations the steps let go on, by sizes and positions alone |
| `Glob.RecursionDecides` | tp-lexer/src/lib.rs:1074-1132 | the recursive relation holds if and only if the text is a concatenation of pieces that suit the pattern's elements |
| `ControlGlob.GlobMatch` | ddebug/src/control.rs:459-491 | the loop terminates and computes the scan; a match is always right, and without `*` on one of the two sides so is a refusal |
| `ControlGlob.ScanDecides` | ddebug/src/control.rs:459-491 | the greedy scan that remembers one star decides the meaning of the pattern whenever no byte of the value can be taken literally for a star |
| `ControlGlob.ExactlyNoLiteralStar` | ddebug/src/control.rs:459-491 | a pattern is matched correctly against every value if and only if it has no star, and a value against every pattern if and only if it has no `*` byte |
| `FilterGlob.MatchClass` | tp-lexer/src/lib.rs:1134-1174 | one scan decides membership in a class with ranges and negation, and finds its end |
| `FilterGlob.GlobMatchImpl` | tp-lexer/src/lib.rs:1078-1132 | the loop that calls itself at stars computes the recursive relation, for every pattern and text |
| `FilterGlob.GlobMatchBytes` | tp-lexer/src/lib.rs:1074-1076 | the matcher holds if and only if the pattern's declared meaning does |
| `FilterGlob.MatchersAgree` | ddebug/src/control.rs:459-491 | on patterns without `[` the two matchers of the repository agree wherever no `*` byte can be taken literally; elsewhere the scan accepts no more |
| `GlobMeaning.GlobMeans` | tp-lexer/src/lib.rs:1074-1174 | a pattern written from parts, in literal bytes, accepts the texts that the parts mean: bytes, any byte, any text, a class or its complement; a class that is not closed means nothing |
| `GlobMeaning.Spelled` | tp-lexer/src/lib.rs:1074-1174 | every pattern is written by some parts, so the meaning is that of every pattern |
| `GlobMeaning.BracketsMean` | tp-lexer/src/lib.rs:1134-1174 | `[body]` takes the bytes of its body, `[^body]` and `[!body]` all others, `[a-b]` those from a to b, and a alone if the bounds are out of order |
| `GlobMeaning.UnclosedMeansNothing` | tp-lexer/src/lib.rs:1166-1170 | no text matches a pattern that is a class without a closing bracket |
| `GlobMeaning.ScanMeans` | ddebug/src/control.rs:459-491 | ddebug's scan accepts nothing but what the parts mean, and all of it unless pattern and value both have a `*` byte |
| `ProbeTypes.CheckIsExactUpTo` | kprobe/src/arch/aarch64/mod.rs:178-205 | of the encodings of Armv8-A that read or set the PC or belong to the exception and system class, the masks reject all but the listed missed ones, and they reject nothing else |
| `ProbeTypes.AdrpIsAccepted` | kprobe/src/arch/aarch64/mod.rs:187-187 | the mask of the PC-relative check compares bit 31, so `adrp` is accepted |
| `ProbeTypes.KnownInstructions` | kprobe/src/arch/aarch64/mod.rs:178-205 | twelve encodings, one of each kind that must not be moved, are refused, an addition and a load through a register are not, and the two breakpoints are refused as such |
| `ProbeManager.Manager.InsertProbe` | kprobe/src/manager.rs:29-56 | both lists are the old lists followed by the probe |
| `ProbeManager.Manager.RemoveProbe` | kprobe/src/manager.rs:94-122 | every copy of the probe leaves both lists, the others stay in order, an emptied list leaves the index |
| `ProbeManager.Manager.ReplaceDebugListWithNewAddress` | kprobe/src/manager.rs:73-82 | the list moves to the new key; an absent key changes nothing |
| `ProbeManager.RemoveUndoesPush` | kprobe/src/manager.rs:29-122 | removing a probe just inserted gives the index back |
| `ProbeManager.WithoutKeepsOrder` | kprobe/src/manager.rs:94-122 | of two probes left by a removal the earlier one stood earlier |
| `ProbeManager.RemoveAgrees` | kprobe/src/manager.rs:94-122 | removing under a point's two keys keeps the indexes equal list by list, with none left over |
| `ProbeManager.RekeyAgrees` | kprobe/src/manager.rs:73-82 | after the run-time re-key every break list is the debug list under its point's new key, with none left over |
| `ProbeMemory.InstallKeepsMemory` | kprobe/src/arch/aarch64/mod.rs:123-169 | an installed point patches a word that had no point and fills a slot with the original; all other points keep their words and pages |
| `ProbeMemory.DropKeepsMemory` | kprobe/src/arch/aarch64/mod.rs:85-104 | a dropped point gives the original word back and frees its own pages only |
| `ProbeMemory.CopyKeepsMemory` | kprobe/src/uprobe/mod.rs:90-101 | the copy of a slot holds what the slot holds; everything else stays |
| `ProbeRegistry.RegisterKeeps` | kprobe/src/kprobe/mod.rs:13-51 | registration keeps the invariant, whether the point is shared or installed; the list of the address is the old list followed by the probe |
| `ProbeRegistry.UnlistKeeps` | kprobe/src/kprobe/mod.rs:58-69 | unregistration keeps the invariant and removes the probe from its point's address only |
| `ProbeRegistry.UnlistedDangles` | kprobe/src/kprobe/mod.rs:58-69 | a probe unregistered while a handle of it is kept leaves its breakpoint behind, at an address no list holds when it was the only probe there |
| `ProbeRegistry.DropHandleKeeps` | kprobe/src/arch/aarch64/mod.rs:85-104 | giving the last handle up keeps the invariant: the probe goes if and only if no list names it, its point if and only if nothing refers to it, and nothing else changes |
| `ProbeRegistry.FirstBreakKeeps` | kprobe/src/uprobe/mod.rs:67-116 | the lazy copy and re-key at the first break keep the invariant |
| `ProbeRegistry.RunKeeps` | kprobe/src/kprobe/mod.rs:13-69 | the invariant holds in every state of every run of registrations, removals, dropped handles and first breaks |
| `ProbeOrder.EarlierStandsEarlier` | kprobe/src/manager.rs:29-122 | in every state of every run, of two probes of one address the one registered earlier stands earlier in the break list, and the debug list is the same list |
| `ProbeRegistry.TextAgrees` | kprobe/src/arch/aarch64/mod.rs:123-169 | point list and break list have the same addresses; the text holds the breakpoint exactly there and where a probe was removed but a handle kept; every other word is the original |
| `ProbeRegistry.RemovalRestores` | kprobe/src/kprobe/mod.rs:58-69 | removing a probe with its last handle restores the word if and only if no other live probe shares the point |
| `ProbeRegistry.NothingLeft` | kprobe/src/kprobe/mod.rs:58-69 | once no probe object is left, text, pages, points and lists are what they were before the first registration |
| `ProbeRegistry.DanglingRefuses` | kprobe/src/arch/aarch64/mod.rs:123-162 | a new address can be registered if and only if it is aligned, its instruction passes the check, and no removed probe with a kept handle still has its breakpoint there; which error a refusal is |
| `ProbeExec.ThreeSteps` | kprobe/src/kprobe/mod.rs:80-131 | break, slot step and debug resume after the probed word with what first trap, instruction in the slot and second trap do to the data, for kernel and user handlers, copied slot or not |
| `ProbeExec.InstructionPreserved` | kprobe/src/kprobe/mod.rs:80-131 | on any processor that obeys the architecture, at every address of the text the patched program goes where the original goes, for probes on any words the check accepts but the missed ones, and does the same to the data if and only if no probe is there or the two traps do not disturb the instruction |
| `ProbeExec.ProbeInExclusive` | kprobe/src/kprobe/mod.rs:80-131 | where an exception return clears the exclusive monitor, a probe on an ordinary instruction leaves it clear: the patched program agrees with the original if and only if no exclusive sequence is open |
| `ProbeExec.ProbedIsMovable` | kprobe/src/arch/aarch64/mod.rs:178-205 | a probed word that is not one of the missed can be stepped anywhere: the check let it through |
| `ProbeExec.TraceFollows` | kprobe/src/kprobe/mod.rs:80-131 | on any processor that obeys the architecture, while probes come and go on any words but the missed ones and those their traps disturb, the patched program is at every moment where the unpatched one is after as many instructions, with the same data |
| `ProbeExec.GoesOnExactly` | kprobe/src/kprobe/mod.rs:108-131 | a thread about to execute a slot on behalf of an address, after any changes, comes back behind it with what the instruction does if and only if the point listed there still steps in that page; it is stranded if and only if no listed point does |
| `ProbeExec.StrandedByExactly` | kprobe/src/kprobe/mod.rs:13-69 | of all changes to the probes, the removal of the only probe of an address and the first copy of its slot take the page from a thread in it, and no others |
| `ProbeExec.ChangeWhileStepping` | kprobe/src/kprobe/mod.rs:58-131 | a thread in the slot of a listed address when probes change comes back behind the address with what the instruction does, if and only if the change is none of those |
| `ProbeExec.DanglingIsUnhandled` | kprobe/src/kprobe/mod.rs:80-106 | a trap at an unlisted address of the text is unhandled if and only if a removed probe's breakpoint is still there |
| `ProbeExec.AdrpNeedsSamePage` | kprobe/src/arch/aarch64/mod.rs:187-187 | for a probed `adrp`, whatever its offset and register, the patched program agrees with the original if and only if it steps in the page of the probed address and the traps do not disturb it |
| `ProbeExec.FallThroughExact` | kprobe/src/kprobe/mod.rs:80-131 | for any probed instruction that falls through, accepted rightly or not, the patched program agrees with the original if and only if the instruction does the same to the data in the slot between the two traps as at its address without them |
| `ProbeObjects.Probes.RegisterProbe` | kprobe/src/kprobe/mod.rs:13-51 | updating the objects in place computes the specified registration; a failure changes nothing |
| `ProbeObjects.Probes.UnregisterProbe` | kprobe/src/kprobe/mod.rs:58-69 | updating the objects in place computes the specified removal |
| `ProbeObjects.Probes.HandlerFromBreak` | kprobe/src/uprobe/mod.rs:67-119 | the break handler goes to the specified address and leaves the specified registry, with the lazy copy and the fall back to the debug handler |
| `ProbeObjects.Probes.HandlerFromDebug` | kprobe/src/kprobe/mod.rs:112-131 | the debug handler resumes after the probed word of the first probe in the list |
| `Retprobe.BuildPool` | kprobe/src/arch/retprobe.rs:182-202 | the loop gives one instance per allowed activation, the data taken from the end |
| `Retprobe.PoolHoldsLastData` | kprobe/src/arch/retprobe.rs:151-156 | whatever data was set before, every instance has the data set last |
| `Retprobe.BuildWithData` | kprobe/src/arch/retprobe.rs:151-202 | a builder given data once more builds one instance per allowed activation, each with that data |
| `Retprobe.Rethook.PreHandlerKretprobe` | kprobe/src/arch/retprobe.rs:220-250 | pops an instance, fills it from the registers and hooks the return, or counts a miss |
| `Retprobe.Rethook.Enter` | kprobe/src/kprobe/mod.rs:80-92 | all the probes of one address, in list order |
| `Retprobe.Rethook.TrampolineHandler` | kprobe/src/arch/retprobe.rs:252-290 | pops the last instance of the current task, recycles it to its probe and returns the saved address |
| `Retprobe.EntriesInListOrder` | kprobe/src/kprobe/mod.rs:80-92 | the entry handlers run in list order, one for each probe with an instance left, with the data of the instance given back last |
| `Retprobe.ReturnsInReverse` | kprobe/src/arch/retprobe.rs:252-290 | the return handlers run from the instance hooked last to the first of the call, whose instances leave the stack |
| `RetprobeRuns.ReturnReaches` | kprobe/src/arch/retprobe.rs:252-290 | a return goes through the trampoline once for each instance of its call, reaches the caller, and leaves the instances of the other calls |
| `RetprobeRuns.EveryReturnReachesItsCaller` | kprobe/src/arch/retprobe.rs:252-290 | after any well-nested run of any number of tasks, with several probes on a function and tail calls, a return reaches the address its call was given |
| `RetprobeRuns.RunKeeps` | kprobe/src/arch/retprobe.rs:220-290 | no well-nested run panics: the frame assertion holds, the instance stack is not empty, the probe is there |
| `RetprobeRuns.PoolsConserved` | kprobe/src/arch/retprobe.rs:220-290 | free and in-flight instances of a probe are its initial pool, datum by datum; an entry is missed if and only if the whole pool is in flight |
| `RetprobeRuns.EntriesAccounted` | kprobe/src/arch/retprobe.rs:220-290 | entries into a function with the probe are those missed, those whose return was handled, and those in flight |
| `FilterLexer.Lexer.Next` | tp-lexer/src/lib.rs:375-517 | the lexer moving its position gives the specified token and rest |
| `FilterLexer.Lexer.LexStringAt` | tp-lexer/src/lib.rs:319-347 | the loop over a quoted string gives its text without quotes and escapes |
| `FilterPrint.LeastNeedsPlus` | tp-lexer/src/lib.rs:109-152 | the least 64-bit integer is not a literal with a minus sign, but is one with a plus before the minus |
| `FilterPrint.NegativeLiteral` | tp-lexer/src/lib.rs:109-152 | a minus sign before digits gives the negated number, or an error beyond the greatest integer |
| `FilterPrint.TokensOfText` | tp-lexer/src/lib.rs:194-517 | lexing undoes printing for every list of printable tokens |
| `FilterParser.Parser.SignedInt` | tp-lexer/src/lib.rs:826-867 | signs, parentheses and literals as specified |
| `FilterParser.Parser.OrExpr` | tp-lexer/src/lib.rs:636-644 | the loop over `||` computes the specified parse; the parser terminates on every input |
| `FilterParser.ParseText` | tp-lexer/src/lib.rs:589-634 | lexer and parser objects together compute the specified parse of a text |
| `FilterRoundTrip.ParseIsSound` | tp-lexer/src/lib.rs:624-815 | what an ASCII text parses to nests as `||` over `&&` over comparisons, with identifiers for fields and ASCII patterns |
| `FilterRoundTrip.ParsePrinted` | tp-lexer/src/lib.rs:624-867 | printing an expression of that shape and parsing gives it back |
| `FilterRoundTrip.RoundTrip` | tp-lexer/src/lib.rs:194-867 | printing and parsing gives an expression back if and only if it has the parser's shape |
| `FilterRoundTrip.Reformat` | tp-lexer/src/lib.rs:194-867 | whatever an ASCII text parses to is stable under printing and parsing |
| `FilterSyntax.ReadsBack` | tp-lexer/src/lib.rs:194-867 | the text written for an expression in literal characters is parsed as the expression |
| `FilterSyntax.SumsOfProducts` | tp-lexer/src/lib.rs:636-671 | alternatives of conjunctions of comparisons and groups, written without further parentheses, are parsed as `&&` before `||`, both grouping to the left |
| `FilterSyntax.AnySpacing` | tp-lexer/src/lib.rs:194-517 | whitespace is needed only where a token would run into the next: with any other gaps the tokens of an expression are parsed as it |
| `FilterSyntax.WhitespaceSkipped` | tp-lexer/src/lib.rs:237-245 | space, tab, line feed, form feed and carriage return before a text change nothing |
| `FilterSyntax.DecimalCompared` | tp-lexer/src/lib.rs:247-298 | decimal digits are compared as their number, or are an error from 2^63 on |
| `FilterSyntax.HexCompared` | tp-lexer/src/lib.rs:247-298 | digits and letters of either case behind `0x` or `0X` are compared as the hexadecimal number, or are an error from 2^63 on |
| `FilterSyntax.SignedCompared` | tp-lexer/src/lib.rs:826-867 | signs apart from the number and parentheses, nested at will, negate or keep it |
| `FilterSyntax.QuotedCompared` | tp-lexer/src/lib.rs:319-347 | a pattern in quotes of either kind is what its characters and escapes say, a line feed for `\n` and a tab for `\t`; without the closing quote it is an error |
| `FilterSyntax.PiecesOf` | tp-lexer/src/lib.rs:319-347 | every text behind a quote consists of such characters and escapes, ended by the quote, by a lone backslash, or by nothing |
| `FilterSyntax.WordsCompared` | tp-lexer/src/lib.rs:786-815 | a pattern without quotes is a name, the word right behind it and the words after it, joined without the spaces between them |
| `FilterEval.ValidIffTyped` | tp-lexer/src/lib.rs:1314-1377 | validation succeeds if and only if every comparison names a schema field of its type, of the width its converter wants |
| `FilterEval.NoPanic` | tp-lexer/src/lib.rs:1230-1300 | a validated filter never reaches the unreachable arm; an error needs a malformed field |
| `FilterEval.EvalIsClassical` | tp-lexer/src/lib.rs:1183-1300 | without malformed fields, short-circuit evaluation is two-valued evaluation of the filter without the comparisons of missing fields, and unknown if and only if none is left |
| `FilterEval.EvaluateFailsOpen` | tp-lexer/src/lib.rs:1206-1228 | the filter lets an event through unless what is left of it is false |
| `FilterEval.BufNeverUnknown` | tp-lexer/src/lib.rs:1031-1071 | over a buffer with the schema of the filter the result is never unknown |
| `FilterEval.CompiledOverBuffer` | tp-lexer/src/lib.rs:1302-1312 | a text that compiles decides every event whose fields can be read as two-valued logic does |
| `FilterMeaning.NumberDecides` | tp-lexer/src/lib.rs:1267-1300 | a numeric comparison is true if and only if the field's value, or the value with exactly the bits set in it and in the mask, stands in the relation that the operator names to the number |
| `FilterMeaning.MaskedIsOne` | tp-lexer/src/lib.rs:1267-1300 | its 64 bits determine the masked value |
| `FilterMeaning.PatternDecides` | tp-lexer/src/lib.rs:1230-1266 | `==` and `!=` compare the bytes, `~` accepts what the parts of the pattern mean |
| `FilterMeaning.AbsentAndMalformed` | tp-lexer/src/lib.rs:1230-1300 | a comparison of a missing field is unknown and lets the event through, one of a malformed field is an error and drops it |
| `FilterMeaning.SidesCombine` | tp-lexer/src/lib.rs:1183-1256 | `||` and `&&` by the results of their sides: the right side does not count when the left decides or fails, and what is unknown leaves the result to the other side |
| `FilterMeaning.FirstOfName` | tp-lexer/src/lib.rs:951-958 | a name stands for the first field of that name in the schema |
| `FilterMeaning.BufferReads` | tp-lexer/src/lib.rs:1031-1071 | over a buffer a text field is its bytes before the first zero, malformed if and only if the field reaches beyond the buffer; an integer is what the converter makes of the bytes at the offset |
| `FilterMeaning.MapReads` | tp-lexer/src/lib.rs:999-1016 | a map's text is read as the integer written in it, whatever blanks are around |
| `FilterMeaning.ComparisonVerdict` | tp-lexer/src/lib.rs:1214-1312 | end to end: the text of a field, an operator and a number compiles against a schema with that integer field, and lets an event through if and only if the field's value stands in that relation to the number |
| `FilterMeaning.PatternVerdict` | tp-lexer/src/lib.rs:1214-1312 | end to end: the text of a field, `~` and a quoted pattern compiles against a schema with that text field, and lets an event through if and only if the field's text is what the pattern's parts mean |
| `FilterEval.MapDecides` | tp-lexer/src/lib.rs:999-1016 | over a map of texts a validated filter can be read if and only if every integer it asks for and finds is a literal, and is then unknown if and only if the map has none of its fields |

## Left out

- PerfRuns.RunRefinesQueue: the reader moves the tail between two calls of the writer, never between two room checks of one call.
- PerfRing.WriteEventQueues: an event that is accepted has one byte or more and a record below 65536 bytes with its padding; the exact limits are `SizeFieldExact` and `SlicesMatchExactly`. A wrap of the 64-bit positions and of the counter is not modelled. The room check wraps: where overflow is checked, its subtraction panics once the head has passed one region.
- KsymEndToEnd.Resolve: needs names of 1 to 4096 ASCII bytes, 64-bit addresses, records of less than 2^32 bytes in all, and a base address that is 8-aligned. In a table with names written with token id 511 it does not say which of the other names the search still reaches.
- KsymEndToEnd.GenerateAndResolve: the same, with names of less than 2^32 bytes in all, three more counted for each, which is enough for the bound on the records.
- KsymBlob.BlobRoundTrip: on blobs the writer makes; the arithmetic of the reader on lengths that overflow a machine word is not modelled.
- KsymLookup.LookupAddress: the value of a wrapped offset or size is not modelled; the answer is `Underflow`.
- RingSteps.RunKeepsInv: steps are sequentially consistent, and the 64-bit positions do not wrap; the ordering of the atomics is not modelled. A consumer obeys the header bits.
- RingBufObject.RingBuffer.Commit: the sample is that of a reserved record not yet committed or discarded. The methods take the state of the interleaving model as a ghost argument; that other threads run between their steps is in `RingSteps`, not here.
- ProbeExec.TraceFollows: instructions do not read the patched text as data, probe handlers leave the registers alone, the processor executes one thread, and probes change between two instructions; what becomes of a thread in a slot is `ChangeWhileStepping`, for one change.
- ProbeRegistry.RunKeeps: one registry in one address space; pages of slots begin at multiples of 8 and do not lie over the text; probe objects are not moved between registries.
- RetprobeRuns.RunKeeps: calls nest, no probe is unregistered while in flight, and the system keeps the instances of a task as a stack.
- FilterRoundTrip.RoundTrip: for ASCII patterns; a quoted string with other characters is lexed byte by byte.
- FilterParser.ParseText: an error is an error, without message and span; recursion is not bounded by a stack.
- `lookup_name_by_idx` and the dump of all symbols: each reads one place with the functions modelled.
- The scores that order the token candidates, and the order of hash maps: the candidates come in any order.
- The `matches_*` selectors, the command syntax and the flags of ddebug: one comparison each around the matcher.
- The dynptr helpers of the BPF ring buffer and its queries: reserve and commit with the pointer kept elsewhere.
- Page tables, vmap and mmap: a mapping is the sequence of pages behind it.
- The assembly of the trampoline: it calls the handler and returns to the address it gives.
- The x86-64, riscv64 and loongarch64 back ends, and enabling or disabling a probe, fault handlers and event callbacks.
- The conversions of integer field types to 64 bits: a field type carries any converter.
- The pages the back end allocates for an instruction it then refuses (kprobe/src/arch/aarch64/mod.rs:122-138): nobody gives them back.
- Hash, LRU, array, queue and per-CPU maps, the instruction preprocessor, tracepoint macros and trace output.
