# Verified model of the debugger's scan engine and memory layers

This project models, in Dafny, the parts of the console debugger server where a fast, chunked, parallel, cached or
in-place form has to agree with a simple meaning, and proves that it does.

* **Turbo-scan sessions** (`Bitmap`, `ValueStore`, `Segments`, `Windows`, `Snapshot`, `SnapshotCreate`, `RecordList`,
  `Session`, `Replies`, `StreamRescan`). A session stands for the sequence of its surviving candidates with their current, previous and
  first values (`Survivors`). Snapshot and list mode both refine that sequence, so the switch between them
  shows in no survivor count and in no GET reply.
* **Scan passes** (`Compare`, `SimdFind`, `ScanPass`, `GenericPass`, `ParallelScan`, `Runs`, `Wire`). Integer comparison,
  vector search, chunking, the two-worker stream and the framing the client decodes.
* **Byte-pattern search** (`AobSpec`, `AobDispatch`, `AobScan`, `AobMulti`, `AobSingle`). Both scanners are proved against
  one definition of the answer.
* **Paging and aliasing** (`Paging`, `PageTables`, `PagedCopy`, `PageEnum`, `VmMerge`, `ScanAlias`, `AliasArena`). Four-level x86-64 page
  tables (section 4.5 of the Intel SDM, Volume 3A), the loops over them, the cached aliasing window and when it may be
  unmapped.
* **Smaller state machines** (`RemoteArena`, `Sha1Spec`, `Sha1`, `Sha1Stream`, `Nid`, `Breakpoints`, `Watchpoints`, `EmuTls`,
  `Arc4`). `Bytes` and `Options` hold what several modules share.

Target memory is a function from address to byte that is fixed during one request. Physical memory for the paging modules
also says which pages the kernel copy can read. Time, sockets and system calls are parameters: what a call would have
answered is an argument of the method that makes it.

Where the code and its documentation disagree, the code is modelled:

* The documentation asks for disjoint segments, and that is not enough (`Snapshot.DisjointIsNotEnough`,
  `Snapshot.FallingBackIsNotEnough`). `Windows.CoversExactly` says for which slot addresses every window covers the
  survivors it was grown over; ascending regions are among them, and so are descending ones with gaps.
  `SnapshotCreate.Create` requires ascending regions, `Snapshot.Snapshot.Rescan` only the exact condition and room for
  the baselines.
* A failed alias map is meant to leave nothing behind. It does unless it is taken back with a zeroing copy that falls
  short (`AliasArena.LostReleaseLeavesEntry`); `ScanAlias.MapIdle` states this as an equivalence.
* `debugger/include/scan_alias.h:9-11` says the alias window is never unmapped; `debugger/source/scan_alias.c:104-121`
  unmaps it after a check. `AliasArena.LimitIsExact` shows where that check stops being enough.
* Some statements hold of the code only under a condition; these are stated as equivalences: `Windows.CoversExactly`,
  `SnapshotCreate.WindowFitsExactly`, `GenericPass.VisitsExactlyWhenFlat`, `AobSingle.ScanShort`, `ScanAlias.MapIdle`, `Replies.ReplyUnderstood`,
  `Breakpoints.TeardownExact`, `Breakpoints.ReuseExact`, `Breakpoints.RunExact`, `Breakpoints.WritesExact`,
  `Watchpoints.RequestExact`, `Sha1Stream.IndexExactIff`, `RemoteArena.ReservedExact`.

`dafny verify dfyconfig.toml` checks the whole project.

## Model

| member | source | states |
|---|---|---|
| Session.MaterialisingIsUnobservable | debugger/source/scan_turbo.c:591-651 | Two sessions standing for the same candidates give identical survivor counts and byte-identical GET replies on every request sequence, whatever each one's materialise threshold and buffer luck; the progress records a count also sends are not part of the answers |
| Session.Session.Run | debugger/source/scan_turbo.c:1243-1598 | The concrete answers of any request sequence, in whichever mode the session is, are those of the abstract candidate sequence, and the client reads out of them the survivor counts and exactly the candidates it asked for; the final state stands for the abstract final state |
| Session.AnswersRead | debugger/source/scan_turbo.c:1243-1598 | Whatever requests came before, a count reads as the number of survivors after it, and a GET of fewer than 2^31 candidates reads as exactly the requested slice of the survivors so far, first values included exactly when the session keeps them |
| Replies.ReplyUnderstood | debugger/source/scan_turbo.c:564-588 | A client that takes bit 31 of the header word as the first-value flag, the rest as the count, and each entry as 8 bytes of address and two or three values, reads exactly the requested candidates if and only if fewer than 2^31 are sent |
| Replies.HeaderExact | debugger/source/scan_turbo.c:564-564 | The header word gives back the flag and the count exactly when the count leaves bit 31 free |
| Session.Session.CountSnapshot | debugger/source/scan_turbo.c:1319-1353 | A COUNT in snapshot mode, with or without the switch to a list, has exactly the abstract narrowing effect; a width mismatch or a baseline buffer that cannot be had changes nothing |
| Session.Session.CountStep | debugger/source/scan_turbo.c:1319-1418 | A COUNT in either mode is one abstract narrowing and returns the number of survivors, given the baseline buffer |
| Session.Session.GetStep | debugger/source/scan_turbo.c:1521-1598 | A GET in either mode sends bytes from which the client reads exactly the requested slice of survivors, in sends that fit the output buffer |
| Session.Materialize | debugger/source/scan_turbo.c:591-651 | The record list made from a snapshot stands for the same candidates, with their current, previous and first values; otherwise nothing changes |
| Session.Complete | debugger/source/scan_turbo.c:612-637 | The copy loop ends only when every survivor has been copied |
| Session.RunSplit | debugger/source/scan_turbo.c:1243-1598 | Two request lists one after the other are one run: the second starts from exactly the candidates the first left, and the answers concatenate |
| Session.RunOnlyNarrows | debugger/source/scan_turbo.c:1243-1598 | No run invents a candidate or changes a first value, and the number of survivors never grows |
| Snapshot.Snapshot.Rescan | debugger/source/scan_turbo.c:492-551 | A windowed bitmap rescan keeps exactly the candidates whose memory satisfies the comparison, refreshes their baselines, moves old baselines to previous, leaves first values alone, and keeps the survivor count equal to the number of set bits |
| Snapshot.Snapshot.Window | debugger/source/scan_turbo.c:507-519 | The window's end and last slot are those of the specified growth, and for scannable slots it spans at most 1 MiB of memory and of baselines and contains the value of every survivor it covers |
| Snapshot.Snapshot.RescanWindow | debugger/source/scan_turbo.c:519-545 | One window decides exactly its own slots: matches get the new baseline, the rest lose their bit, slots outside keep bit and baseline |
| Snapshot.Snapshot.Compare | debugger/source/scan_turbo.c:531-543 | The compare loop writes each survivor's verdict and baseline at its own slot through either baseline pointer |
| Snapshot.Snapshot.Get | debugger/source/scan_turbo.c:553-589 | From a bitmap GET the client reads exactly the requested survivors with address, current, previous and first value, out of sends that fit 256 KiB |
| Windows.CoversExactly | debugger/source/scan_turbo.c:500-519 | For slots of up to 8 bytes below 2^63: every window of every set of survivors contains all survivors it was grown over if and only if no later slot starts before an earlier one and ends at or after its start, and no later slot lies between an earlier slot and a slot within bridging distance of it |
| Windows.SteadyCovers | debugger/source/scan_turbo.c:500-519 | Under that condition a window also ends at the value of its last slot and spans at most 1 MiB |
| Windows.UndercutEscapes | debugger/source/scan_turbo.c:511-518 | Each slot that ends inside or exactly at the start of a later-read window gives a set of survivors whose window loses one |
| Windows.FallBackCuts | debugger/source/scan_turbo.c:511-518 | So does each slot that falls back between two slots already bridged |
| Windows.DisjointUndercut | debugger/source/scan_turbo.c:511-518 | Among disjoint slots the first kind are exactly those that touch the window's start from below |
| Windows.GappedDescentIsSteady | debugger/source/scan_turbo.c:500-519 | Descending slots with gaps between them are read correctly: every window holds one of them |
| Windows.SpacedDistance | debugger/source/scan_turbo.c:297-551 | Slots of ascending regions lie at least one value apart per index, which is what bounds the baseline buffer by the memory window |
| Snapshot.ScannableWindow | debugger/source/scan_turbo.c:507-519 | For slots that are steady and leave room for their values the window covers its survivors within 1 MiB and its baselines fit 1 MiB |
| Snapshot.DisjointIsNotEnough | PROTOCOL.md:752-756 | Disjoint regions, which is all the documentation asks for, do not suffice: with two touching regions in descending order the whole window is (8, 1), of no length, and leaves out both survivors it was grown over |
| Snapshot.FallingBackIsNotEnough | PROTOCOL.md:752-756 | Nor do regions that do not even touch: with the third between the first two, the second survivor lies outside the whole window |
| Snapshot.UptoStep | debugger/source/scan_turbo.c:492-551 | One finished window extends the narrowed prefix past its last slot and disturbs no later slot |
| Survivors.NarrowingRefines | debugger/source/scan_turbo.c:531-543 | Narrowing slot by slot in bitmap and stores equals filtering the candidate sequence |
| Survivors.KeptAt | debugger/source/scan_turbo.c:569-586 | A survivor's position in the candidate sequence is the number of set bits before its slot |
| Survivors.ParseLayout | debugger/source/scan_turbo.c:610-634 | A stored list record parses back to the candidate it was written from |
| SnapshotCreate.Create | debugger/source/scan_turbo.c:297-474 | For every alignment the chunk buffers allow: a new snapshot stands for exactly one candidate per whole slot of the regions, minus all-zero values unless asked for, with all three values equal to memory, an address being a candidate exactly when it is that of a whole slot of some region and zeros are wanted or some byte of its value is not 0, provided the slots are dense, which an alignment of at least the value length guarantees; previous and first values are kept exactly when asked for and their file and the packing buffer can be had; creation fails exactly on a refused segment table, an oversized or refused bitmap, a spill file that is needed and cannot be had or packed for, or a failing store write |
| SnapshotCreate.SeedRefines | debugger/source/scan_turbo.c:386-432 | Stores filled and bits decided slot by slot give the specified candidate sequence |
| SnapshotCreate.SeedMeans | debugger/source/scan_turbo.c:424-432 | A slot address is a candidate exactly when zeros are wanted or memory holds a byte other than 0 within the value there |
| SnapshotCreate.ZeroBytes | debugger/source/scan_turbo.c:426-429 | The byte loop finds a value all zero exactly when it is the integer 0, whatever its width |
| SnapshotCreate.WindowFitsExactly | debugger/source/scan_turbo.c:379-408 | Every window's raw bytes and packed values fit their chunk buffers, however many slots are left, if and only if the number of alignment steps in a chunk, times the value length, is at most the chunk |
| SnapshotCreate.WindowFits | debugger/source/scan_turbo.c:388-408 | Under that condition both the raw window and its packed copy fit their chunk buffers |
| SnapshotCreate.WideStrideSuffices | debugger/source/scan_turbo.c:388-408 | An alignment of at least the value length always meets that condition |
| SnapshotCreate.RamPartIsWholeSlots | debugger/source/scan_turbo.c:353-368 | The RAM part of the value store is a whole number of slots in every configuration |
| ValueStore.Store.Read | debugger/source/scan_turbo.c:175-182 | A read of any range, straddling included, returns the flat byte string's slice, and fails exactly when the range leaves the store |
| ValueStore.Store.Write | debugger/source/scan_turbo.c:183-190 | A write of any range, straddling included, is one splice of the flat byte string |
| ValueStore.StraddlingWrite | debugger/source/scan_turbo.c:183-190 | The two halves of a straddling write are one write to the flat string |
| ValueStore.NoSlotStraddles | debugger/source/scan_turbo.c:353-368 | When the RAM part is a whole number of slots no slot crosses into the file |
| ValueStore.SpliceSlots | debugger/source/scan_turbo.c:183-190 | Writing whole slots replaces those slots and leaves every other slot |
| Bitmap.NextSet | debugger/source/scan_turbo.c:274-285 | Skipping zero words finds the same next survivor as a linear search, or the slot count |
| Bitmap.ClearedBits | debugger/source/scan_turbo.c:272-272 | Clearing a bit clears only that bit and lowers the count of set bits by one if it was set |
| Bitmap.ClearBit | debugger/source/scan_turbo.c:272-272 | The in-place clear turns off exactly that bit of the bitmap's decoding, and the count of set bits drops by one exactly when it was set |
| Segments.SlotAddr | debugger/source/scan_turbo.c:287-295 | The binary search over segments returns the address a linear walk gives, even with empty segments |
| Segments.WalkStopsAt | debugger/source/scan_turbo.c:287-295 | The linear walk stops in the one segment whose numbering holds the slot |
| Segments.BuildTable | debugger/source/scan_turbo.c:316-324 | The segment table numbers slots consecutively and counts exactly the whole slots |
| Segments.SlotsAreWhole | debugger/source/scan_turbo.c:287-324 | An address is a slot of the table exactly when it lies a multiple of the alignment behind the start of a region with its whole value inside that region |
| Segments.SlotsAscend | debugger/source/scan_turbo.c:287-295 | For ascending regions slot addresses ascend, by at least the value length or the alignment, whichever is less |
| RecordList.RecordList.Rescan | debugger/source/scan_turbo.c:1356-1415 | In-place list narrowing equals filtering the candidates, for any order, spacing or overlap of addresses; order, first values and unread records are preserved |
| RecordList.RecordList.Window | debugger/source/scan_turbo.c:1367-1384 | A list window covers the record it is opened for and never exceeds 1 MiB, whatever addresses follow |
| RecordList.RecordList.Get | debugger/source/scan_turbo.c:1550-1593 | From a list GET the client reads exactly the requested records, out of sends that fit 256 KiB |
| RecordList.KeptStep | debugger/source/scan_turbo.c:1396-1410 | Writing a kept record at or before the read position leaves every later record unread and unchanged |
| RecordList.ListedUpdate | debugger/source/scan_turbo.c:1396-1410 | Overwriting one record slot of the buffer replaces that record only |
| RecordList.RefreshedFields | debugger/source/scan_turbo.c:1396-1410 | Fields gathered from a record before it is overwritten make up the refreshed record: same address and first value, new current, old current as previous |
| StreamRescan.RescanChunk | debugger/source/scan_turbo.c:1436-1509 | An uploaded chunk of candidates in any order yields, after decoding, exactly the candidates whose own bytes satisfy the comparison; a trailing fragment is ignored and every frame fits its buffer |
| StreamRescan.RescanUpload | debugger/source/scan_turbo.c:1436-1509 | A client that uploads candidates in any order decodes exactly those whose own bytes satisfy the comparison, at their own offsets |
| StreamRescan.UploadedMatches | debugger/source/scan_turbo.c:1436-1509 | The matches of an uploaded chunk are the uploaded candidates that satisfy the comparison, with or without previous values |
| StreamRescan.Window | debugger/source/scan_turbo.c:1449-1470 | A streaming window covers its candidate and is at most 1 MiB |
| Runs.DecodeStreamed | debugger/source/scan_turbo.c:690-751 | Decoding the length-prefixed runs up to the sentinel recovers every (offset, value) pair in order, and every run with its header fits 0x40000 bytes |
| ScanPass.ExactPass | debugger/source/scan_turbo.c:653-752 | The chunked resident pass yields the flat ascending list of matching elements, and reports overflow exactly when that list exceeds the session's capacity |
| ScanPass.ChunkIsFlat | debugger/source/scan_turbo.c:682-692 | The offsets found in one chunk are the flat matches of that chunk |
| ScanPass.FlatSplit | debugger/source/scan_turbo.c:653-752 | Cutting a range at an element boundary splits the flat list |
| ScanPass.FlatComplete | debugger/source/scan_turbo.c:653-752 | The flat list holds exactly the elements of the range that pass the test, each with its bytes, at ascending addresses |
| ParallelScan.StreamPass | debugger/source/scan_turbo.c:653-766 | The sequential stream is the framed flat list for every chunk size |
| ParallelScan.ParallelStream | debugger/source/scan_turbo.c:797-891 | The two-worker stream is byte for byte the sequential one, or nothing is sent; it declines exactly for short ranges, failed allocations or reads, or overfull workers |
| ParallelScan.ExpectedDecodes | debugger/source/scan_turbo.c:690-751 | A client decodes the stream to the flat match list with exact addresses |
| ParallelScan.HitsAreExact | debugger/source/scan_turbo.c:1223-1228 | In a scan of at most 4 GiB no 32-bit offset wraps: base plus offset is the match address |
| ParallelScan.TwoWorkers | debugger/source/scan_turbo.c:806-813 | Any range of at least two values is cut into exactly two non-empty parts at an element boundary |
| GenericPass.VisitsExactlyWhenFlat | debugger/source/scan_turbo.c:667-745 | The generic pass visits exactly the whole elements of a range if and only if the step is not below the value length, chunks are multiples of the step (or there is one chunk), and the last chunk is empty or holds a whole element |
| GenericPass.Pass | debugger/source/scan_turbo.c:667-745 | Whenever that condition holds, the pass over its reused buffer reports exactly the whole elements that satisfy the comparison |
| GenericPass.UnalignedScanVisitsFragment | debugger/source/scan_turbo.c:709-713 | A concrete unaligned scan tests a fragment past the end of the range |
| GenericPass.NarrowStepVisitsFragment | debugger/source/scan_turbo.c:709-745 | Every non-empty scan with a step below the value length tests a fragment past its end |
| Compare.PointEqualsGeneric | debugger/source/scan_compare_simd.c:111-136 | For every supported comparison and integer type the typed point comparator decides as the generic comparator does |
| Compare.LoadInjective | debugger/source/scan_compare.c:232-236 | Typed equality of stored integers is equality of their bytes |
| Compare.DeltaIsModular | debugger/source/scan_compare.c:84-94 | Increased-by and decreased-by hold exactly when the stored words agree modulo the type's range, regardless of sign |
| Compare.DeltaRoundTrip | debugger/source/scan_compare.c:84-94 | Increased by d from old to new is decreased by d from new to old |
| Compare.Trichotomy | debugger/source/scan_compare.c:266-271 | Exactly one of increased, decreased, unchanged holds; changed is the complement of unchanged |
| Compare.OrderByBytes | debugger/source/scan_compare.c:249-301 | Bigger, smaller, increased, decreased, between, changed and non-zero hold exactly when the stored bytes, compared from the most significant down with the sign bit of signed types turned over, say so |
| Compare.BetweenIsSymmetric | debugger/source/scan_compare.c:172-265 | Value-between gives the same verdict with its bounds exchanged |
| Compare.AtMostIgnoresSign | debugger/source/scan_compare.c:287-301 | The smaller-and-non-zero comparison of a signed type decides like its unsigned type, because the operands are widened to unsigned words |
| SimdFind.FindU32 | debugger/source/scan_compare_simd.c:17-36 | The eight-lane search with scalar tail counts every exact 4-byte match and stores the first of them in ascending order up to the capacity |
| SimdFind.FindScalar | debugger/source/scan_compare_simd.c:38-68 | The typed scalar search reports exactly the elements whose bytes equal the value |
| SimdFind.FindExact | debugger/source/scan_compare_simd.c:70-78 | With room for every element all exact matches are reported, their offsets untruncated |
| AobMulti.MultiScan | debugger/source/scan.c:335-414 | For every memory, pattern list, occurrence targets, thread count and window size, each pattern's result is the specified answer: address of the target-th match, 0 if there is none or if it had to be the last and is not; a non-zero answer for a pattern without wildcards is an address that holds its bytes |
| AobMulti.MergeOne | debugger/include/aob_scan.h:166-191 | Merging capped per-worker results in address order gives the specified answer |
| AobMulti.Split | debugger/source/scan.c:342-350 | At most 16 workers, no more than were asked for, whose ranges end exactly at the end of the region and none of which is empty |
| AobMulti.SpanCovers | debugger/source/scan.c:342-350 | Rounding the span up and re-deriving the worker count loses no coverage and adds no worker |
| AobScan.Worker.ScanRange | debugger/include/aob_scan.h:131-164 | After a worker's range every pattern has recorded its earliest matches there, up to its cap, for any window size |
| AobScan.Worker.Position | debugger/include/aob_scan.h:145-158 | Dispatching one position on its byte accounts for every pattern at that position |
| AobScan.SkippedCannotMatch | debugger/include/aob_scan.h:145-158 | A pattern outside the byte's bucket and the wildcard list cannot match at that position |
| AobScan.SlotsDisjoint | debugger/source/scan.c:337-340 | Patterns' result slots do not overlap |
| AobDispatch.Build | debugger/include/aob_scan.h:77-100 | The counting sort fills each byte's bucket with exactly the patterns of that fixed first byte, in order, and the wildcard list with the rest |
| AobDispatch.BucketExact | debugger/include/aob_scan.h:77-100 | A bucket lists its patterns, each once, ascending, and nothing else |
| AobSpec.MatchesComplete | debugger/include/aob_scan.h:102-110 | The match list used as specification holds exactly the matching offsets, ascending |
| AobSpec.MatchTest | debugger/include/aob_scan.h:102-110 | The byte loop decides the wildcard match |
| AobSpec.MatchCuts | debugger/include/aob_scan.h:102-110 | Cut anywhere, a pattern matches exactly when its first part matches and the rest matches right behind it |
| AobSpec.MatchesByte | debugger/include/aob_scan.h:102-110 | A one-byte pattern matches exactly when its mask is not 1 or the byte is equal |
| AobSpec.LiteralMatch | debugger/include/aob_scan.h:102-110 | A pattern without wildcards matches exactly where its bytes are |
| AobSpec.AnswerMeans | debugger/include/aob_scan.h:166-191 | A non-zero answer is a match with exactly target - 1 matches before it, and with none behind it if it had to be the last |
| AobSpec.MatchesSplit | debugger/include/aob_scan.h:5-20 | Matches of adjacent ranges of start positions concatenate |
| AobSingle.Scan | debugger/source/scan.c:193-228 | For 1 <= pattern length <= 1 MiB and a region not shorter than the pattern, the overlapping-chunk scanner gives the same specified answer, and for a pattern without wildcards an address that holds its bytes |
| AobSingle.ScanShort | debugger/source/scan.c:201-222 | For a non-empty region shorter than the pattern the scanner is right exactly when the target is not 1, the base is 0, or the pattern does not match the buffer whose tail is left from before |
| Paging.WalkLeaf | debugger/source/proc_ptwalk.c:57-77 | The level loop finds the leaf of the recursive four-level walk |
| Paging.VtoPhys | debugger/source/proc_ptwalk.c:36-55 | The loop with its own masks and page sizes returns the recursive walk's translation, combined with a bitwise or, and 0 exactly if there is none or the translation is 0 |
| Paging.OrIsPlace | debugger/source/proc_ptwalk.c:46-50 | Or-ing the masked frame with the offset inside the page is adding them: no bit overlaps, for 1G, 2M and 4K pages |
| Paging.LeafServesPage | debugger/source/proc_ptwalk.c:57-77 | Every address of a leaf's page walks to that same leaf, for 1G, 2M and 4K pages |
| Paging.TranslateRun | debugger/source/proc_ptwalk.c:57-77 | Consecutive addresses of one page are consecutive physically |
| PageTables.FieldsRead | debugger/source/proc_ptwalk.c:57-77 | The bits a walk tests are the present, write, page-size, cache-disable and execute-disable fields, and the masked frame is the frame field |
| PageTables.EveryEntry | debugger/source/proc_ptwalk.c:57-77 | Every 64-bit word is an entry with such fields |
| PageTables.BuiltSmall | debugger/source/proc_ptwalk.c:57-77 | An address whose four indices lead through stored entries to a 4 KiB page translates to the stored frame plus its offset |
| PageTables.BuiltLarge | debugger/source/proc_ptwalk.c:57-77 | The same for a 2 MiB page, ended by the page-size bit of the third entry |
| PageTables.BuiltHuge | debugger/source/proc_ptwalk.c:57-77 | The same for a 1 GiB page |
| PagedCopy.Read | debugger/source/proc_ptwalk.c:418-467 | The paged read returns, byte for byte, the per-address translation across any mix of page sizes, and succeeds exactly when every byte is translatable and readable |
| PagedCopy.Machine.Write | debugger/source/proc_ptwalk.c:365-416 | The paged write changes exactly the physical bytes behind a prefix of the range; it succeeds exactly when every byte can be copied, and then the prefix is everything |
| PagedCopy.WriteThenRead | debugger/source/proc_ptwalk.c:365-467 | For injective translations that avoid the tables, reading back gives the written bytes and all other physical bytes are unchanged |
| PagedCopy.WalkStable | debugger/source/proc_ptwalk.c:57-77 | A write outside the table entries a walk reads does not change the walk |
| PageEnum.Enumerate | debugger/source/proc_ptwalk.c:186-257 | Below the entry cap the ranges are ascending, disjoint, give every user address exactly its leaf's protection and no unmapped address any; touching ranges differ in protection; an address is executable in the list exactly when its leaf entry is below 2^63 |
| PageEnum.EnumTable | debugger/source/proc_ptwalk.c:195-250 | The nested loops below one table extend the exact description over exactly that table's address range |
| PageEnum.Coalescer.Emit | debugger/source/proc_ptwalk.c:172-184 | Emitting a leaf adds exactly its addresses with its protection and keeps the list coalesced |
| PageEnum.ProtMeans | debugger/source/proc_ptwalk.c:150-158 | Read is always granted, execute exactly below 2^63, and the write flag adds exactly the write permission |
| PageEnum.NeatPairs | debugger/source/proc_ptwalk.c:160-184 | Any two emitted ranges are ascending and disjoint; neighbours that touch differ in protection |
| PageEnum.LookupMeans | debugger/source/proc_ptwalk.c:160-184 | An address has a protection in the list exactly when some range holds it |
| VmMerge.Merge | debugger/source/proc_ptwalk.c:259-286 | The merge of two ascending lists holds every VM-map entry and exactly the enumerated ranges whose start none of them has, in order |
| VmMerge.MergeIsUnique | debugger/source/proc_ptwalk.c:259-286 | That specification determines the merged list |
| ScanAlias.Map | debugger/source/scan_alias.c:123-222 | If a map succeeds and its copy-in arrives whole, the window shows the target's bytes over the whole range; with nothing mapped before, it succeeds exactly when every guard passes, which no page mapped with caching off does, writes only not-present entries of the fresh span's own table, and after a failure leaves an entry of its own behind exactly when it was taken back with a zeroing copy that fell short |
| ScanAlias.MapIdle | debugger/source/scan_alias.c:126-222 | The same with nothing mapped, and the span it uses is the next one of the current or a new mapping, recorded as handed out |
| ScanAlias.CacheBit | debugger/source/scan_alias.c:155-178 | A page whose entry is its frame plus flags below bit 4 may be aliased; with 0x10 added it may not |
| ScanAlias.MappableByBit | debugger/source/scan_alias.c:155-178 | Testing bit 4 of the leaf entry decides whether the entry has caching on |
| ScanAlias.LeafAddr | debugger/source/proc_ptwalk.c:502-519 | The loop that looks up where our own window entry is stored finds the leaf table of the recursive descent, if there is one |
| ScanAlias.WindowWalks | debugger/source/proc_ptwalk.c:502-519 | Every address of a window walks through that leaf table |
| ScanAlias.WindowByteIsWalk | debugger/source/scan_alias.c:171-222 | Byte x of the window, read through our own page tables, is the byte behind entry x / 4096 of that leaf table |
| ScanAlias.MapIsFaithful | debugger/source/scan_alias.c:149-188 | Entries that carry the walk's physical pages make window reads equal target bytes, for any mix of page sizes |
| ScanAlias.WindowIsTarget | debugger/source/scan_alias.c:149-222 | Byte x of the window is byte x of the target span |
| ScanAlias.PagesExact | debugger/source/scan_alias.c:126-140 | The number of pages mapped is the least that reaches from the page of the first byte to the end of the range |
| ScanAlias.SpanResolve | debugger/source/proc_ptwalk.c:573-623 | A resolved span agrees with the per-page walk at every address: one contiguous huge mapping, or the leaf table that decides it; failure means nothing there is mapped |
| ScanAlias.Reader.Fill | debugger/source/scan_alias.c:155-169 | A cache hit, a miss or a failed refill leaves the cached span in agreement with the target's tables; refusal means no page of the span may be aliased |
| ScanAlias.Reader.PagePhys | debugger/source/scan_alias.c:149-178 | Each window page gets exactly the physical page the per-page walk gives, and failure means that page may not be aliased |
| ScanAlias.Reader.Entries | debugger/source/scan_alias.c:149-188 | All entries are computed exactly when all pages may be aliased |
| ScanAlias.Rebind | debugger/source/scan_alias.c:231-237 | Rebinding to another target drops the active map and leaves a coherent cache |
| ScanAlias.Run | debugger/source/scan_alias.c:80-237 | In every run of map, release, rebind and end, with copies that may silently stop early: entries that were present at the start never change, no span is handed out twice from one mapping, every entry left at the end was there at the start or came from a map of the run, from a failed one only if it was taken back and not zeroed as far as it was written, and with maps of at most 384 pages the arena is never unmapped while an alias entry is present |
| AliasArena.Arena.Install | debugger/source/scan_alias.c:180-203 | Overwrites only not-present entries of one table, succeeds exactly when its guards pass, and a refused write leaves no alias entry behind |
| AliasArena.LostReleaseLeavesEntry | debugger/source/scan_alias.c:205-218 | A map taken back after its check with a zeroing copy that is silently lost leaves its entry behind |
| AliasArena.Arena.Release | debugger/source/scan_alias.c:94-102 | Release clears exactly the entries the zeroing copy reaches |
| AliasArena.Arena.Reclaim | debugger/source/scan_alias.c:104-121 | Whatever is mapped is released first; maps of at most 384 pages are never unmapped with an entry present |
| AliasArena.Arena.ReclaimIdle | debugger/source/scan_alias.c:104-121 | With nothing mapped the arena is unmapped exactly when the record did not overflow and every recorded table reads clean, and unsafely exactly when an entry is present then |
| AliasArena.Arena.NextSpan | debugger/source/scan_alias.c:70-78 | The span handed out is aligned, inside the arena and never handed out before in this mapping; no table entry is touched, and it fails exactly when the arena is exhausted and no new one can be had |
| AliasArena.Arena.Allocate | debugger/source/scan_alias.c:56-68 | Over-reserving by one span leaves room for the aligned arena |
| AliasArena.Arena.CleanMeansNoneLive | debugger/source/scan_alias.c:104-121 | With maps of at most 384 pages a clean check means no alias entry is present |
| AliasArena.LimitIsExact | debugger/source/scan_alias.c:104-121 | The limit is exact: a run with one 385-page map unmaps the arena with an entry still present |
| RemoteArena.GrabConserves | debugger/source/proc_remote.c:587-611 | Whatever branch serves a request (whole free block, split, segment tail, new segment), live, free, lost and unused pieces still partition the segments exactly |
| RemoteArena.FreeConserves | debugger/source/proc_remote.c:613-624 | Returning a live block moves it to the free list, or to the lost blocks when no list node can be had, and keeps the partition |
| RemoteArena.ConservedIsDisjoint | debugger/source/proc_remote.c:517-624 | Under the invariant no two pieces share an address and the pieces fill exactly the segments |
| RemoteArena.WholeTakeIsExact | debugger/source/proc_remote.c:593-596 | The branch that does not split takes a block of exactly the requested size |
| RemoteArena.ReservedExact | debugger/source/proc_remote.c:534-588 | The reserved size is the least multiple of 0x4000 that holds the request (0 counts as 0x4000), except for the last 0x3fff 64-bit lengths, which wrap to 0 |
| RemoteArena.Serve | debugger/source/proc_remote.c:591-610 | First fitting free block, else first fitting tail, else a new segment of at least 16 MiB |
| RemoteArena.Table.Alloc | debugger/source/proc_remote.c:587-611 | A grant adds exactly the returned block to its process's live blocks, keeps the invariant for all, and touches another process only when a newcomer finds all four slots taken |
| RemoteArena.Table.Free | debugger/source/proc_remote.c:613-624 | Freeing a live block with its length removes exactly that block from the live ones and touches no other process; it is refused exactly when no segment holds the address |
| RemoteArena.Table.Obtain | debugger/source/proc_remote.c:536-548 | Finds the process's slot, else the first free one, else replaces slot 0; no other slot changes |
| Sha1.FiveRounds | ps5-payload-sdk/crt/nid.c:36-55 | Five macros with rotating roles over the 16-word ring are five rounds of section 6.1.2 of FIPS 180-4 with the registers back in place |
| Sha1.NextWord | ps5-payload-sdk/crt/nid.c:31-32 | The ring macro yields the 80-word schedule's next word and keeps the last sixteen |
| Sha1.ChForm | ps5-payload-sdk/crt/nid.c:20-20 | The shortened first round function is Ch of section 4.1.1 |
| Sha1.MajForm | ps5-payload-sdk/crt/nid.c:22-22 | The shortened third round function is Maj of section 4.1.1 |
| Sha1.MacroIsRound | ps5-payload-sdk/crt/nid.c:20-55 | A round macro in its in-place form is one round of the standard |
| Sha1.RingStep | ps5-payload-sdk/crt/nid.c:31-32 | Overwriting ring slot t mod 16 keeps the ring equal to the last sixteen schedule words |
| Sha1.Transform | ps5-payload-sdk/crt/nid.c:130-230 | The unrolled transform is the compression function of the standard |
| Sha1Spec.RotationBits | ps5-payload-sdk/crt/nid.c:26-28 | Each rotation moves bit i to bit (i + k) mod 32, bit by bit |
| Sha1Spec.RoundConstants | ps5-payload-sdk/crt/nid.c:36-55 | The four round constants are the integer parts of 2^30 times the square roots of 2, 3, 5 and 10, for twenty rounds each |
| Sha1Spec.InitialPattern | ps5-payload-sdk/crt/nid.c:236-243 | The initial hash value is the byte pattern 01 23 45 ... of section 5.3.1 |
| Sha1Spec.WordRoundTrip | ps5-payload-sdk/crt/nid.c:113-122 | A word read big-endian from four bytes gives those bytes back |
| Sha1Stream.Context.Update | ps5-payload-sdk/crt/nid.c:250-276 | After any update the context stands for the old message followed by the new bytes: hash of the whole blocks, buffered rest, and 64-bit count |
| Sha1Stream.Context.Final | ps5-payload-sdk/crt/nid.c:282-303 | The digest is that of the padded message of section 5.1.1, for everything fed |
| Sha1Stream.DigestOfParts | ps5-payload-sdk/crt/nid.c:250-303 | Feeding a message in any pieces gives the digest of the whole message, provided no piece brings the bytes still buffered to 2^32 |
| Sha1Stream.CountStep | ps5-payload-sdk/crt/nid.c:255-263 | The two 32-bit count words with their carry hold the bit length modulo 2^64 |
| Sha1Stream.IndexExactIff | ps5-payload-sdk/crt/nid.c:252-270 | The 32-bit block index behaves as an unbounded one exactly when buffered plus new bytes stay below 2^32 |
| Sha1Stream.CountFieldIsLength | ps5-payload-sdk/crt/nid.c:284-291 | The eight final-count bytes are the big-endian message length of the standard |
| Sha1Stream.Context.Pad | ps5-payload-sdk/crt/nid.c:293-297 | The padding loop appends 0x80 and the least number of zeros that leaves room for the length |
| Nid.NidEncode | ps5-payload-sdk/crt/nid.c:306-335 | The identifier decodes to the first eight digest bytes of the salted name in reverse order, and is NUL-terminated |
| Nid.NidRoundTrip | ps5-payload-sdk/crt/nid.c:320-333 | Eleven characters decode back to the eight bytes they encode |
| Nid.CharRoundTrip | ps5-payload-sdk/crt/nid.c:309-309 | The 64-character table is inverted by the character ranges |
| Breakpoints.RunKeeps | debugger/source/debug.c:629-687 | After every allowed run (exactly which runs are allowed is `RunExact`), memory overlaid with the saved bytes is the target's own memory and every used slot has its trap in place |
| Breakpoints.RunExact | debugger/source/debug.c:629-687 | The overlay invariant holds all the way through a run of handler calls, steps and target writes if and only if each enable sets a non-zero address no other slot uses, in a slot that holds no byte but a trap, and each written trapped byte gets its saved value and stays a trap or is the one stepped over |
| Breakpoints.NextKeeps | debugger/source/debug.c:629-687 | One operation keeps the invariant exactly when it is allowed in that sense |
| Breakpoints.StepOverKeeps | debugger/source/debug.c:1529-1628 | Stepping over a trap executes the target's own byte, keeps its writes everywhere else, and re-arms the trap; the invariant survives exactly when the step is allowed |
| Breakpoints.HitIsOwn | debugger/source/debug.c:1385-1400 | A trap reported one byte behind a breakpoint is handled by stepping over that very breakpoint, also at the end of the address space |
| Breakpoints.OverlayIsOwn | debugger/source/debug.c:649-656 | The overlay of the saved bytes is the target's own memory at every address |
| Breakpoints.ReuseExact | debugger/source/debug.c:648-656 | Enabling any slot at any address, 0 and armed ones included, keeps the overlay exactly when the slot is not in use for a byte other than the trap, and no lower slot holds such a byte at that address |
| Breakpoints.EnableKeeps | debugger/source/debug.c:631-687 | Enabling keeps the whole invariant exactly when the address is not 0, the slot holds no byte but the trap, and no other used slot is set at the address |
| Breakpoints.WritesExact | debugger/source/debug.c:1385-1628 | Writes of the target itself keep the overlay exactly when every trapped byte they touch is rewritten with its saved value |
| Breakpoints.StepOverExact | debugger/source/debug.c:1529-1628 | The same condition decides it for a step over a trap, even if the instruction writes its own first byte |
| Breakpoints.TeardownExact | debugger/source/debug.c:395-407 | Teardown restores the target's memory exactly when no used slot behind the first empty one saved a byte other than the trap byte |
| Breakpoints.GapLosesText | debugger/source/debug.c:395-407 | Setting two breakpoints and clearing the first leaves a trap behind after teardown |
| Breakpoints.PrefixLeavesNothing | debugger/source/debug.c:395-407 | When used slots form a prefix teardown leaves nothing behind |
| Breakpoints.Debugger.SetBreakpoint | debugger/source/debug.c:631-687 | For every slot and address the handler refuses an index above 29, otherwise arms or disarms as specified; the overlay invariant survives exactly when the request is allowed |
| Breakpoints.Debugger.OnTrap | debugger/source/debug.c:1385-1628 | For every step: first slot at the previous address, instruction pointer moved back, slots as before, memory with the target's own writes and the trap back; the invariant survives exactly when the step is allowed |
| Breakpoints.Debugger.Teardown | debugger/source/debug.c:395-407 | The loop writes back the slots before the first empty one; the exact condition for full restoration |
| Watchpoints.RunDecodes | debugger/source/debug.c:730-749 | After any requests with two-bit lengths and types, DR7 and DR0-DR3 decode (section 17.2.4 of the Intel SDM, Volume 3B) to exactly the latest request of each watchpoint |
| Watchpoints.RequestExact | debugger/source/debug.c:735-749 | A request is decoded as asked and disturbs no other watchpoint exactly when its length and type are below 4 |
| Watchpoints.OthersKept | debugger/source/debug.c:735-749 | Masked updates keep every field of the other watchpoints |
| Watchpoints.LengthSpills | debugger/source/debug.c:744-746 | A length of 8 changes the next watchpoint's type |
| Watchpoints.Block.Set | debugger/source/debug.c:689-749 | The handler rewrites the register block as specified, honours every encodable request, and refuses an index above 3 |
| EmuTls.RunKeeps | ps5-payload-sdk/libc/emutls.c:309-395 | In every interleaving the invariant holds, an index once set never changes, indices are assigned without gaps, arrays never shrink and returned objects stay |
| EmuTls.NextKeeps | ps5-payload-sdk/libc/emutls.c:309-395 | Each atomic step of any thread keeps it: one thread in the critical section, distinct indices, remembered facts still true |
| EmuTls.Progress | ps5-payload-sdk/libc/emutls.c:309-395 | A thread in a lookup can always take its next step, unless another thread holds the lock, and then that one can |
| EmuTls.NextNoGaps | ps5-payload-sdk/libc/emutls.c:309-325 | Assigned indices, with the one about to be published, are exactly the numbers from 1 to the count |
| EmuTls.NextIsLater | ps5-payload-sdk/libc/emutls.c:309-395 | No step changes a set index or a returned object, or shrinks an array |
| EmuTls.PublishKeeps | ps5-payload-sdk/libc/emutls.c:316-319 | Publishing a counted index keeps indices distinct |
| EmuTls.SameObject | ps5-payload-sdk/libc/emutls.c:389-395 | Two lookups of one variable by one thread return the same non-null object, whatever happens between |
| EmuTls.DistinctObjects | ps5-payload-sdk/libc/emutls.c:389-395 | Different threads or variables never share an object |
| EmuTls.Grown | ps5-payload-sdk/libc/emutls.c:351-372 | An array that reaches the index is left as it is, any other gets exactly the new size; earlier entries are kept and new ones are null |
| EmuTls.NewSize | ps5-payload-sdk/libc/emutls.c:334-341 | The new size covers the index and with the two-word header fills whole groups of sixteen words |
| Arc4.Stream.Stirred | ps5-payload-sdk/libc/arc4random.c:99-114 | Key mixing keeps the table a permutation and performs the specified swaps |
| Arc4.Stream.GetByte | ps5-payload-sdk/libc/arc4random.c:191-203 | A draw keeps the table a permutation and outputs the specified entry |
| Arc4.Stream.GetWord | ps5-payload-sdk/libc/arc4random.c:205-214 | Four draws, most significant first |
| Arc4.Stream.Reseed | ps5-payload-sdk/libc/arc4random.c:138-178 | Mixing in the seed and discarding 3072 bytes keeps the permutation |
| Arc4.SwapKeeps | ps5-payload-sdk/libc/arc4random.c:99-203 | A swap, also of an entry with itself, keeps a permutation of 0..255 |
| Arc4.FreshStirIsKeySchedule | ps5-payload-sdk/libc/arc4random.c:88-114 | On a fresh table the mixing loop, with its odd counter start, is RC4 key scheduling |
| Arc4.FirstDraws | ps5-payload-sdk/libc/arc4random.c:191-203 | From the identity table the first three draws are 2, 5 and 7 |
| Arc4.KeyRepeats | ps5-payload-sdk/libc/arc4random.c:99-114 | The key bytes are used in order and start over at the end |
| Arc4.Uniformity | ps5-payload-sdk/libc/arc4random.c:259-293 | Every result below the bound is the image of exactly floor(2^32 / bound) accepted words |
| Arc4.ThresholdIs | ps5-payload-sdk/libc/arc4random.c:278-279 | The 32-bit threshold is 2^32 mod bound and leaves a multiple of the bound |
| Arc4.UniformDraw | ps5-payload-sdk/libc/arc4random.c:270-293 | The loop returns the first accepted word modulo the bound; bounds below 2 give 0 |

## Left out

- Server loop, sockets, discovery, notifications, logging, authentication: plumbing without a closed property.
- ELF loading, credential elevation, remote calls, kernel patching: effects on a foreign kernel that is not part of this model.
- Legacy region scan and asynchronous count (`debugger/source/scan.c`): they re-read the region's first block and ignore the value length at a window's end; the turbo versions are modelled instead.
- Float and double comparison: rounding and tolerance; every scan member is about the eight integer types.
- Disassembler and assembler calls, the runtime linker, kernel offset tables: code or data that is not part of this model.
- Unreadable target memory: the scan engine reads zeros there; memory is a total function, so a region that cannot be read is a memory of zeros.
- Memory that changes between two reads of one request.
- Disk errors of the spill file during a rescan, GET or materialise; a spill file that cannot be opened when the snapshot is created is modelled.
- Thread timing inside the parallel scans: workers share no writable state, so they are modelled one after the other.
- The alias path inside the scan passes: reads go to memory directly; `ScanAlias` proves that a window shows the same bytes.
- Session.Materialize: does not model the threshold and memory-limit arithmetic, because every choice of when to switch is covered by a free parameter.
- ScanPass.ExactPass: does not model at which record an overflowing pass stops, because the session is discarded then.
- GenericPass.Pass: does not model what a fragment's stale bytes compare to, because the exact condition for there being no fragment is proved instead.
- Session.MaterialisingIsUnobservable: does not compare progress records, because a snapshot count sends them (`debugger/source/scan_turbo.c:503-507`) and a list count does not.
- Session.Session.CountSnapshot: does not model the progress records sent while counting, because they report the position of the scan, not its result.
- Session.Session.CountStep: does not model a count whose baseline buffer cannot be had; `Session.Session.CountSnapshot` does: the old count is sent and nothing changes.
- Snapshot.Snapshot.Rescan: does not model slots that are not dense, whose baselines could outgrow the 1 MiB buffer, because nothing then bounds what the copy reads.
- SnapshotCreate.Create: does not model regions that do not ascend, because a window over them may lose survivors (`Windows.CoversExactly`).
- Session.Session.Run: does not model START, END and session eviction between requests; `SnapshotCreate.Create` gives the initial state.
- Compare.DeltaIsModular: does not model what a C compiler may assume about signed 32- and 64-bit overflow, because overflow is taken to wrap around as the narrower types do.
- AobMulti.MultiScan: does not model parsing the packed pattern list or its size limits, because the scan starts after them.
- AliasArena.Arena.Reclaim: does not model a table read that reports success with stale bytes (`debugger/source/kern_rw_fast.c` ignores the result of its last step), because nothing could then be said of the unmap; only copies into the tables may stop early silently.
- ScanAlias.Map: does not model the read of the target's and our own page-table root, because the tables are given; our own tables above the leaf level stay as they are during a map; a copy-in that reports success but stops early is modelled, and then only the entries that arrived are claimed.
- PagedCopy.Machine.Write: does not model writes that change the tables being walked, because the caller's translations must avoid them.
- RemoteArena.Table.Free: does not model a caller that frees a block twice or with another length; such a call hands one address out twice.
- RemoteArena.Table.Alloc: does not model the retry loop of the system call or the switch that disables the arena; the system's final answer is a parameter.
- Breakpoints.Debugger.OnTrap: does not model moving sibling threads back off a trap, signal filtering or the kernel register path, because they touch no memory and no slot.
- Breakpoints.Debugger.SetBreakpoint: does not model failing reads and writes of target memory.
- Watchpoints.Block.Set: does not model writing the block to each thread.
- EmuTls.RunKeeps: does not model thread exit and its destructor rounds, alignment of objects, or weak memory order beyond the atomic index.
- Arc4.UniformDraw: does not model where words come from; the supply is a finite sequence, so the unbounded retry is the case where all are rejected.
- Sha1Stream.DigestOfParts: does not cover a piece that brings the bytes still buffered to 2^32, for the same reason as the next line.
- Sha1Stream.Context.Update: does not model one call that makes buffered plus new bytes reach 2^32, where the 32-bit index wraps (`Sha1Stream.IndexExactIff`).
- In-place update of linked lists in `RemoteArena`: lists are sequences that are reassigned, so node identity is not captured.
