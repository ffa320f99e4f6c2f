# Verified models of Bun's self-contained algorithms

Most of the repository's scripts and tooling do I/O. A handful of files hold algorithms with
real state, and this project models those in Dafny and proves what they are for:

- the **source map** reader of the error overlay: Base64 VLQ numbers, the decoder of the
  "mappings" string with its growing flat array and in-place sort, and the binary search
  (ECMA-426). Files `Vlq`, `MappingRows`, `MappingsDecoder`, `MappingsGrammar`, `MappingsOrder`,
  `MappingsCodec`, `MappingsLookup`, `MappingsExact`;
- the **`using` / `await using`** runtime: the disposal stack with its suspension points and
  the SuppressedError chain, and its comparison with DisposeResources of the TC39 Explicit
  Resource Management proposal. Files `Disposal`, `DisposalReference`;
- the **Unicode tables**: the three-stage table with block deduplication, and the bit-packed
  lookup generated from it. Files `UnicodeTables`, `UnicodeLookup`;
- the **bundler runtime**: run-once module wrappers under cycles (`ModuleWrappers`,
  `ModuleValues`, `ModuleCompletion`), the decorator engine (`Decorators`, `DecoratorRuns`,
  `DecoratorVerdicts`), and the interop between module formats (`ModuleInterop`);
- smaller cores: the **ZIP** directory reader (`ZipDirectory`, `ZipEndRecord`, on `Bytes`), the index arithmetic
  of **segmented lists** (`SegmentedList`), the package list for **completions** (`Completions`, on `Utf8`),
  the **CI log** aggregation (`SlowestTests`, `SlowestAggregation`), and the **argument parser**
  of the build script (`BuildArgs`).

Code that works step by step is a method with loops (and a class where it updates shared
variables), proved equal to a function of its input or of the state before; the properties are
lemmas about those functions. 32-bit arithmetic is written out (`JsNumbers`). Check everything
with `dafny verify dfyconfig.toml`.

## Where the code does less than its name promises

Each of these is a lemma; where the code is right for some inputs only, a lemma says exactly
for which.

- `remapPosition` compares the result of `indexOfMapping` with -1, but a miss is `null`: on a
  table with rows, a miss yields the original position of row 0 (`RemapRightIffHit`).
- `decodeMappings` sorts a line only at a semicolon. A last line without one stays as written,
  and a position can then be looked up wrong (`OpenLineMustAscend`). A column past 2^31 is
  stored as a negative number, which puts a line out of order that took no backward step
  (`WideColumnsMislead`). `OrderedExactly` and `SearchedRightExactly` cover both.
- Under `await using`, the promise that a synchronous fallback disposer returns is awaited and its
  rejection counts, unlike in DisposeResources (`AgreesUnlessFallbackRejects`). Each empty
  resource waits on its own, where DisposeResources spares the wait of some, and a fallback that
  throws at once does not wait, where DisposeResources does (`EmptiesWaitEach`); `WaitsAgree` says
  exactly when the two wait equally often.
- `Generator.generate` keeps its block map between calls: a second call on one generator leaves
  stage 2 empty (`SecondCallIsEmpty`).
- The generated lookup packs indices, not values, so it computes a property only if the property
  fails at code point 0 (`LookupRightIffFalseAtZero`).
- A wrapper whose body threw does not throw again: an `__esm` wrapper returns undefined from then
  on, a `__commonJS` wrapper the exports as the body left them. `RepeatsIffReturned` says that
  later calls give what the first one gave exactly if that one returned.
- The scan for the ZIP end record can stop inside the record itself, whatever the comment says,
  if the directory offset spells the signature and the comment is long enough
  (`OffsetMistakenForSignature`); `ScanFindsEocd` says for which archives it is right.
- The completion list is decoded right exactly if all names are ASCII, because lengths and the
  size of the buffer are counted in UTF-16 code units and bytes are written
  (`RoundTripIffAscii`); its letter index is right exactly if whatever stands before a name that
  starts with a letter starts with the same letter or an earlier one (`IndexRightIff`), which one
  name that sorts below `a` spoils for a sorted list (`WithoutCapitals`).

## Model

| member | source | states |
|---|---|---|
| Vlq.BuildTable | packages/bun-error/sourcemap.ts:1-5 | filling the table from the alphabet gives, for each of the 128 entries, the position of that character, or 0xff |
| Vlq.DecodeVLQ | packages/bun-error/sourcemap.ts:54-78 | the loop computes the decoding function on 32-bit patterns, errors and their indices included |
| Vlq.SignRoundTrip | packages/bun-error/sourcemap.ts:76-77 | recovering the sign undoes moving it to bit 0 exactly for magnitudes below 2^30 |
| Vlq.RoundTrip | packages/bun-error/sourcemap.ts:54-78 | an encoded integer followed by anything decodes to itself, with exactly its own digits consumed, if and only if its magnitude is below 2^30, for all integers |
| MappingsGrammar.NumberEnds | packages/bun-error/sourcemap.ts:54-74 | a number is digits with the continuation bit and one without it; else the error is at the first code unit that is no base64 digit, or at the end of the string |
| MappingsGrammar.SegmentIsFields | packages/bun-error/sourcemap.ts:121-183 | the nested reader reads one field after the other, ends at a separator after 1, 4 or 5, and raises for the first field whose accumulator is negative, or whose source is not below the count, the error of that field |
| MappingsGrammar.SegmentInRange | packages/bun-error/sourcemap.ts:128-178 | in an accepted segment no accumulator of a field read is negative, and the source is one of those there are |
| MappingsGrammar.DecodeInRange | packages/bun-error/sourcemap.ts:35-207 | every row of an accepted string names one of the sources, or none |
| MappingRows.SortIsStable | packages/bun-error/sourcemap.ts:87-110 | insertion from the right gives ascending columns and keeps the order of rows at one column |
| MappingRows.StableOrderUnique | packages/bun-error/sourcemap.ts:85-110 | that result is the only arrangement that is sorted and keeps the rows at each column in order |
| MappingRows.SortOfAscending | packages/bun-error/sourcemap.ts:85-87 | sorting rows that are in order changes nothing, so skipping the sort is right for them |
| MappingsDecoder.InsertRow | packages/bun-error/sourcemap.ts:89-109 | the inner loop, moving cells of the flat array, inserts one row among the sorted rows of its line; every other row stays |
| MappingsDecoder.SortLine | packages/bun-error/sourcemap.ts:88-110 | the in-place sort leaves the rows of earlier lines alone and sorts those of the line |
| MappingsDecoder.Append | packages/bun-error/sourcemap.ts:185-203 | appending keeps every earlier row, in an array of twice the length when the old one is full |
| MappingsDecoder.ReadSegment | packages/bun-error/sourcemap.ts:127-183 | one, four or five fields are read, in every branch and error, as the reference reads a segment; a comma after them is consumed, a semicolon is not |
| MappingsDecoder.DecodeMappings | packages/bun-error/sourcemap.ts:35-207 | the used part of the array is the flat form of the rows the state machine yields, or the same error is raised |
| MappingsDecoder.HoldsIsFlat | packages/bun-error/sourcemap.ts:206 | an array prefix that holds the rows one after the other is their flat form |
| MappingsOrder.RunAssembles | packages/bun-error/sourcemap.ts:80-204 | from any state, the run with its flag and its in-place sort ends as the lines read from there on, each closed line that took a backward step stably sorted, and with the same errors |
| MappingsOrder.DecodeAssembles | packages/bun-error/sourcemap.ts:80-206 | for every string, decoding is reading the lines and stably sorting each closed line that took a backward step; errors are the same |
| MappingsOrder.OrderedExactly | packages/bun-error/sourcemap.ts:80-206 | for every accepted string, the table is ordered by line and column if and only if each closed line steps back or ascends, and the last line ascends, as stored in 32-bit cells |
| MappingsOrder.FitsReadInOrder | packages/bun-error/sourcemap.ts:80-206 | if every column fits its cell, that depends on the last line alone, and a final semicolon is enough |
| MappingsOrder.ClosedLastLine | packages/bun-error/sourcemap.ts:84-119 | an accepted string that ends in a semicolon leaves no row unsorted |
| MappingsCodec.FieldDecodes | packages/bun-error/sourcemap.ts:128-131 | the encoded delta from the previous value to the next one is read back as the next value, with exactly its digits consumed |
| MappingsCodec.SegmentDecodes | packages/bun-error/sourcemap.ts:127-183 | a segment of the reference encoding, followed by a separator or the end, is read back with all its absolute values |
| MappingsCodec.DecodeEncode | packages/bun-error/sourcemap.ts:35-207 | the whole format round-trips: for any lines of in-range segments the absolute rows come back, each closed line stably sorted by column |
| MappingsLookup.UnflatFlat | packages/bun-error/sourcemap.ts:305-307 | the rows a flat table is searched as are the rows that were decoded |
| MappingsLookup.IndexOfMapping | packages/bun-error/sourcemap.ts:304-331 | the loop on index and fractional count, on an array of any length, returns what the search on cells finds, which for whole rows is six times the row the search on rows finds, or null |
| MappingsLookup.SearchIsScan | packages/bun-error/sourcemap.ts:304-331 | on an ordered table the binary search equals a linear scan from the end, and finds the last row on the line with the greatest column at most the one asked for, or none |
| MappingsLookup.DecodeThenSearch | packages/bun-error/sourcemap.ts:80-331 | decoding and then searching is a linear scan of the rows, for every accepted string whose unsorted lines are read in order |
| MappingsLookup.SearchRightIffOrdered | packages/bun-error/sourcemap.ts:304-331 | with distinct positions, every query is answered right if and only if the table is ordered |
| MappingsLookup.OpenLineMustAscend | packages/bun-error/sourcemap.ts:84-111 | of an encoded string with an open last line, every position is looked up right if and only if that line was written in column order |
| MappingsExact.SearchedRightExactly | packages/bun-error/sourcemap.ts:80-331 | for every accepted string read in order all positions are looked up right, and with distinct positions for no other |
| MappingsExact.WideColumnsMislead | packages/bun-error/sourcemap.ts:185-192 | three forward steps past column 2^31 are accepted, on a closed line, leave the table out of order, and some position is then looked up wrong |
| MappingsLookup.RemapPosition | packages/bun-error/sourcemap.ts:209-228 | null exactly for an empty array or a negative position, else the cells of the row found, or of row 0 on a miss; a cell past the end of a cut-off row is no number |
| MappingsLookup.RemapRightIffHit | packages/bun-error/sourcemap.ts:222-227 | on an ordered table the answer is the expected one if and only if the table is empty, the position negative, or some row matches |
| Disposal.Stack.Using | src/runtime.bun.js:4-17 | the entry for the value and its mode is pushed, or its TypeError raised with the stack as it was; `PushesWhatIsAdded` says which entry and which error |
| Disposal.Run.constructor | src/runtime.bun.js:19-24 | a call starts with nothing disposed of and the error it was given |
| Disposal.Run.Failing | src/runtime.bun.js:20-23 | a failure becomes the error, or wraps the previous one in a SuppressedError |
| Disposal.Run.DisposeTop | src/runtime.bun.js:25-31 | one iteration pops the topmost entry, starts it, and either has settled it with the right error or waits for it |
| Disposal.Run.Next | src/runtime.bun.js:24-34 | the loop runs to the next entry that has to be awaited, or ends with the outcome of the fold; the stack only shrinks |
| Disposal.Run.OnSettled | src/runtime.bun.js:28 | when the awaited promise settles, its rejection joins the chain and the loop goes on with a strictly shorter stack |
| Disposal.CallDispose | src/runtime.bun.js:19-36 | if every awaited promise settles, the call ends with the fold of all failures in pop order, after the trace that visits every entry once; it returns a promise if and only if some entry suspends |
| Disposal.OutcomeIgnoresSuspension | src/runtime.bun.js:24-34 | the outcome is that of the stack with markers removed and every failure a synchronous throw |
| Disposal.NoFailureLost | src/runtime.bun.js:20-23 | the error thrown at the end holds the initial error and every failure, in the order they happened; nothing is thrown if and only if there was none |
| Disposal.TraceIsLifo | src/runtime.bun.js:24-31 | the trace starts and settles the entries strictly from the top down, none before the one above has settled |
| DisposalReference.PushesWhatIsAdded | src/runtime.bun.js:4-17 | what is pushed for any value and mode is what the proposal adds: the async method of an `await using`, else the synchronous one as a fallback, nothing or an empty entry for null, or the same TypeError; exactly unless a null async disposer stands beside another one |
| DisposalReference.DisposesAsProposed | src/runtime.bun.js:4-36 | over any sequence of declared values, disposal ends as in DisposeResources if and only if no `await using` falls back on a synchronous disposer that returns a promise that rejects |
| DisposalReference.AgreesUnlessFallbackRejects | src/runtime.bun.js:19-36 | the outcome is that of DisposeResources, for any stack, if and only if no synchronous disposer that stands in for an async one returns a promise that rejects |
| DisposalReference.WaitsCompare | src/runtime.bun.js:13-28 | for any stack, DisposeResources waits more often by the number of fallbacks that throw at once, and less often by the number of empty resources it spares: those below an awaited one or next to another empty one, and those with an awaited one next below |
| DisposalReference.WaitsAgree | src/runtime.bun.js:13-28 | for any stack, the two wait equally often if and only if these numbers are equal; without a fallback that throws at once, if and only if no awaited resource stands above an empty one and a synchronous one parts every empty one from the next empty or awaited one below it; of such stacks, if and only if no fallback throws at once |
| DisposalReference.EmptiesWaitEach | src/runtime.bun.js:13-28 | a family that differs: of n empty async resources and nothing else the runtime waits for each, DisposeResources once for all |
| UnicodeTables.Generator.IndexOf | misctools/unicode-generator.ts:43-48 | the loop yields the least index at which stage 3 equals the element; if there is none, the element is added at its end |
| UnicodeTables.Generator.FinishBlock | misctools/unicode-generator.ts:63-83 | a complete or padded block is found or stored, and its offset recorded, as one step of the packing function |
| UnicodeTables.Generator.AddCodePoint | misctools/unicode-generator.ts:39-88 | one iteration keeps the relation between the local variables and the tables of the code points so far, or fails only where an index does not fit 16 bits |
| UnicodeTables.Generator.Generate | misctools/unicode-generator.ts:30-91 | the tables are those of the scan and the packing function, and generation succeeds if and only if all indices and offsets fit 16 bits |
| UnicodeTables.Representatives | misctools/unicode-generator.ts:43-48 | stage 3 starts with the first element and no entry equals an earlier one |
| UnicodeTables.IndexRecovered | misctools/unicode-generator.ts:58-88 | going through stages 1 and 2 is in bounds and gives back the index of every code point, in the short last block too |
| UnicodeTables.TablesRefine | misctools/unicode-generator.ts:30-91 | the three stages yield, for every code point, an element equal to the one the mapping gives, with every index in bounds |
| UnicodeTables.DedupIsExact | misctools/unicode-generator.ts:68-83 | offsets are multiples of 256, two blocks share one if and only if they are equal, and stage 2 is 256 times the number of distinct blocks |
| UnicodeTables.ShortBlockShares | misctools/unicode-generator.ts:63-83 | a short last block shares the offset of an earlier block if and only if that one is the same followed by zeros |
| UnicodeTables.SecondCallIsEmpty | misctools/unicode-generator.ts:18-76 | a second call on the same generator repeats stage 1 and leaves stage 2 empty |
| UnicodeLookup.SetBit | misctools/gen-unicode-table.ts:31-33 | or-ing in a shifted one sets that bit and no other |
| UnicodeLookup.MaskTests | misctools/gen-unicode-table.ts:57-58 | masking with a shifted one is not zero exactly if that bit is set |
| UnicodeLookup.BitsToU64Array | misctools/gen-unicode-table.ts:26-38 | bit k mod 64 of word k div 64 says whether entry k is not zero, words stay below 2^64, and there are as many as needed |
| UnicodeLookup.LookupRefines | misctools/gen-unicode-table.ts:40-66 | the emitted lookup is in bounds and true if and only if the property at the code point differs from that at code point 0 |
| UnicodeLookup.LookupRightIffFalseAtZero | misctools/gen-unicode-table.ts:40-66 | the emitted function computes the property everywhere if and only if the property fails at code point 0 |
| ModuleWrappers.Runtime.CallWrapper | src/runtime.js:105 | a call of an `__esm` or `__commonJS` wrapper, over the captured variables, is the call function on their values; it terminates on any graph |
| ModuleWrappers.Runtime.RunBody | src/runtime.js:316 | a body, with the calls it makes and catches, is the run function on the captured variables |
| ModuleWrappers.RunsAtMostOnce | src/runtime.js:316 | of this wrapper and that of line 105: on any system of wrappers, cyclic or throwing, no sequence of calls begins a body twice, and every object allocated is a new one |
| ModuleCompletion.DependenciesFirst | src/runtime.js:316 | of this wrapper and that of line 105: on acyclic graphs, whatever throws, a call that comes back with a value finds the wrapper complete or failed earlier, and all that started has ended; if no body throws, no call does and every wrapper returned is complete |
| ModuleValues.ValuesOfPrograms | src/runtime.js:316 | of this wrapper and that of line 105, for any calls, with bodies followed through their programs along the outcomes their calls came back with: each call of a `__commonJS` wrapper gives the last value its body has assigned to `module.exports` by then, or else the object allocated for it; each call of an `__esm` wrapper gives the value its body has returned, or undefined; a call throws only where its body has come to a throw; bodies make exactly the calls their programs demand and end where those end |
| ModuleValues.SameModuleForAll | src/runtime.js:105 | a CommonJS module that keeps its exports object has that object allocated once, at the one beginning of its body, and every call from anywhere returns it: in a cycle, later, and after its body threw; no other module has it |
| ModuleCompletion.RepeatsIffReturned | src/runtime.js:316 | of this wrapper and that of line 105: whatever is called in between, a later call changes nothing and gives what the first call gave if and only if that one returned; after a body that threw it gives undefined, or the exports as the body left them |
| ModuleValues.SameValueOnceEnded | src/runtime.js:316 | of this wrapper and that of line 105, any body, on any graph: all calls, in any body or outside, that come back after the body of the wrapper has ended or thrown come back with one and the same value |
| Decorators.Engine.constructor | src/runtime.js:231 | the array starts with three holes and the metadata in slot 3 |
| Decorators.Engine.RunInitializers | src/runtime.js:241-245 | an even flag folds the value from the left through the list of its slot, an odd one only calls each function, in order |
| Decorators.Engine.TakeResult | src/runtime.js:300-306 | the branches of the source put the value a decorator returned where the table by kind of element and kind of result puts it, or raise its TypeError |
| Decorators.Engine.DecorateElement | src/runtime.js:246-314 | the loop from the last decorator to the first is the decoration function, up to the first error |
| DecoratorRuns.PerformAppends | src/runtime.js:234-239 | whatever context a decorator calls `addInitializer` on, and whether it ends or dies of an uncaught error, it can register functions through its own alone; those it registers before it ends or dies are appended to one list in order, and it dies exactly at the first attempt that fails uncaught, of the error of that attempt |
| DecoratorRuns.ApplyAllEffect | src/runtime.js:279-307 | the final value is the right-to-left composition of the decorators; returned initializers stand in source order, registered ones in call order, and no other slot changes |
| DecoratorRuns.DecorateEffect | src/runtime.js:246-314 | the same for one element in the array of its class |
| DecoratorRuns.RunLayout | src/runtime.js:231-314 | after any class, decorated without an error or up to one, slot 3 is the metadata and the n-th field or accessor that was decorated owns exactly slots 4+2n and 5+2n, with its own initializers; without an error, all values are the compositions |
| DecoratorRuns.SharedLists | src/runtime.js:255-258 | slot 0 holds what the decorators of classes registered, slot 1 those of static methods, getters and setters, slot 2 those of the others, in order, and nothing from fields or accessors; after an error, only the element that failed may have added to the end of its own list |
| DecoratorRuns.LateInitializersFail | src/runtime.js:234-298 | after any class, decorated without an error or up to one, every `addInitializer` ever handed out fails and changes nothing, except that of a decorator that itself threw or died of an uncaught error of `addInitializer`, which accepts every function |
| DecoratorRuns.FieldInitialization | src/runtime.js:241-258 | the flags 2(4+2n) and 2(5+2n)+1 select the returned and the registered initializers of the n-th field, also if a later element failed |
| DecoratorVerdicts.DecorateVerdict | src/runtime.js:279-307 | an element is decorated without an error if and only if each decorator makes all its attempts and returns nothing, a function, or for an accessor an object whose get, set and init are each missing or callable; else the error is that of the last decorator, in source order, that does not: its uncaught error, what it threw, or the TypeError for what it returned |
| DecoratorVerdicts.ClassVerdict | src/runtime.js:231-314 | a class is decorated without an error if and only if all its elements are; else it ends with the error of the first that is not |
| ModuleInterop.ReExport | src/runtime.js:27-46 | both targets get a getter for each name they lack, except `default` |
| ModuleInterop.ReExportFirstWins | src/runtime.js:27-34 | after any sequence of re-exports, own exports win, then the first module that has the name, as a live binding; `default` is never passed on |
| ModuleInterop.Runtime.ConvertToESM | src/runtime.js:57-81 | a cached namespace of the same mode is returned, else a new one is made and, for objects, cached |
| ModuleInterop.StaleIff | src/runtime.js:64-77 | a namespace computed earlier is what would be computed now if and only if the names other than an overridden `default`, and the decision about `default`, are the same |
| ModuleInterop.CachedNamespace | src/runtime.js:57-81 | asking again in the same mode gives the same namespace after any writes, deletions and other calls; it is fresh exactly under that condition |
| ModuleInterop.ReadsFollowWrites | src/runtime.js:18-77 | after any run, each name the module had reads as the module's value at the time of the read; `default` reads as the exports object in node mode, or if `__esModule` was missing or falsy when the namespace was made, else as the module's own `default`, if it had one |
| ZipDirectory.ZipBinarySize | scripts/binary-size.ts:321-350 | for a response of any length, the two loops compute the reading function: last end record, directory in the tail or an error, walk with the largest size; every read is in bounds and the walk ends on any bytes |
| ZipDirectory.WalkReads | scripts/binary-size.ts:339-348 | over a written directory the walk visits every entry once and keeps the largest size that is not a directory's |
| ZipEndRecord.SpelledAgainIff | scripts/binary-size.ts:327-333 | the signature seems to begin once more behind the start of an end record if and only if one of twelve conditions on count, size, offset, comment length and first comment bytes holds, or it stands in the comment where a record would fit |
| ZipDirectory.ScanFindsEocd | scripts/binary-size.ts:327-333 | the backward scan finds the real end record if and only if none of these conditions holds of the archive |
| ZipDirectory.InTailMisleads | scripts/binary-size.ts:327-337 | if the directory lies in the tail, only the offset, the comment length and the comment can mislead |
| ZipDirectory.PlainArchive | scripts/binary-size.ts:327-337 | less than 80 MB of files and a comment of less than 0x4b50 bytes without the signature never mislead |
| ZipDirectory.ReaderReadsWriter | scripts/binary-size.ts:327-350 | for every archive that does not mislead, the reader returns the largest file, or the right error if the end record is cut off, the directory is not in the tail, or it holds no file |
| ZipDirectory.OffsetMistakenForSignature | scripts/binary-size.ts:327-333 | if the directory starts at the offset that spells the signature and the comment has 16 bytes, the scan stops too late |
| SegmentedList.PlaceOfElement | misctools/lldb/lldb_pretty_printers.py:203-206 | every shelf and box in range is computed for exactly the element stored there when shelves are filled one after the other |
| SegmentedList.ElementHasPlace | misctools/lldb/lldb_pretty_printers.py:203-206 | every index past the prealloc items has a shelf and a box inside that shelf, and they determine it |
| SegmentedList.PlacesDistinct | misctools/lldb/lldb_pretty_printers.py:203-206 | distinct indices have distinct places |
| SegmentedList.FillsInOrder | misctools/lldb/lldb_pretty_printers.py:203-206 | the next index is the next box, or box 0 of the next shelf exactly when this one is full |
| SegmentedList.PreallocMustBePower | misctools/lldb/lldb_pretty_printers.py:203-206 | the first shelved element is at box 0 of shelf 0 if and only if the prealloc count is 0 or a power of two |
| SegmentedList.BitLengthUnique | misctools/lldb/lldb_pretty_printers.py:14 | a number between two powers of two has the bit length of the upper one |
| Completions.EncodePackages | misctools/generate-add-completions.ts:46-65 | the chunks add up to the count and the names in UTF-8 behind their lengths in code units, `totalUncompressed` to the sum of these lengths; a length that does not fit its prefix throws |
| Completions.ParsePackages | misctools/generate-add-completions.ts:177-189 | the loop returns the names of the decoding function, or stops where a read would pass the end |
| Utf8.LengthIffAscii | misctools/generate-add-completions.ts:59-62 | a string has as many UTF-8 bytes as code units, surrogates included, if and only if every code unit is ASCII |
| Utf8.ReadsBack | misctools/generate-add-completions.ts:59-62 | the bytes are UTF-8: reading them as RFC 3629 says gives the string back, with the replacement character for a surrogate on its own |
| Completions.RoundTripIffAscii | misctools/generate-add-completions.ts:46-192 | what the emitted code unpacks from the written data is the list, byte for code unit, if every name is ASCII, and nothing if one is not, because the data does not fit the buffer it makes |
| Completions.LoopIffAscii | misctools/generate-add-completions.ts:177-189 | even with a large enough buffer the decoding loop recovers the list if and only if every name is ASCII |
| Completions.GroupByLetter | misctools/generate-add-completions.ts:19-38 | each first letter has as many names as start with it, in either case, and the biggest group is the maximum |
| Completions.FirstIsLetter | misctools/generate-add-completions.ts:26 | a name belongs to a letter exactly if it starts with it, small or capital, or with the Kelvin sign for k |
| Completions.BuildIndex | misctools/generate-add-completions.ts:140-151 | each of the 26 letters has its count, at the sum of the counts of the letters before it |
| Completions.IndexRightIff | misctools/generate-add-completions.ts:140-211 | for any list, every letter selects exactly its names, in either case, if and only if whatever comes before a name that starts with a letter starts with the same letter or an earlier one |
| Completions.SortedInLetterOrder | misctools/generate-add-completions.ts:13-17 | the sorted list that the script makes is in that order if and only if whatever sorts before an initial that is a letter, in either case, is the same or an earlier letter |
| Completions.WithoutCapitals | misctools/generate-add-completions.ts:13-17 | without capital initials that holds if and only if no name starts below a, or no name starts with a letter |
| Completions.SlicesPartition | misctools/generate-add-completions.ts:206-211 | if all names start with a letter, the 26 slices, one after the other, are the whole list |
| SlowestTests.ParseLog | scripts/ci-slowest-tests.ts:77-98 | each file gets the sum of the times from its headers to the next ones, no other file is present, the keys stand in the order they come up, and all values add up to the sum of all durations |
| SlowestTests.DurationsTelescope | scripts/ci-slowest-tests.ts:82-96 | with no blank name the durations add up to the time from the first header to the last |
| SlowestTests.DurationsNotNegative | scripts/ci-slowest-tests.ts:82-96 | timestamps that never go back give no file a negative time |
| SlowestTests.DurationIsTimeRunning | scripts/ci-slowest-tests.ts:82-96 | if timestamps never go back, what a file gets is the number of instants at which its header was the last one printed |
| SlowestTests.ReportsAreDurations | scripts/ci-slowest-tests.ts:124 | what iterating over the map of a log yields for a file adds up to its durations in the log |
| SlowestAggregation.Aggregator.Process | scripts/ci-slowest-tests.ts:121-136 | one log updates the sums and maxima of the shared map as the aggregation function does; a failed fetch changes nothing |
| SlowestAggregation.PoolProgresses | scripts/ci-slowest-tests.ts:117-141 | until everything is processed some worker can go on, and each step brings the end nearer |
| SlowestAggregation.ScheduleDoesNotMatter | scripts/ci-slowest-tests.ts:77-141 | every interleaving that runs to the end takes each job once and leaves, for each file and platform, the sum of the durations in all its logs; if timestamps never go back, each maximum is the greatest sum of its file |
| SlowestAggregation.SchedulesAgree | scripts/ci-slowest-tests.ts:77-141 | on logs whose timestamps never go back, two interleavings leave the same files, sums and maxima |
| BuildArgs.ParseArgs | scripts/build.ts:414-504 | the loop with its skipped index and flag is the parsing function, errors included |
| BuildArgs.OptionsMean | scripts/build.ts:423-501 | after any options that succeed, targets and ninja flags are those given, in order; of profile, config file and every field the last value counts, booleans parsed; a config file implies configuring only |
| BuildArgs.AppliedIff | scripts/build.ts:423-501 | options are applied without an error if and only if each is a ninja flag, `--configure-only`, `--quiet`, or a value for `profile`, `target`, `configFile` or one of the two sets of fields, which for a boolean field parses |
| BuildArgs.OptionsThenRest | scripts/build.ts:414-504 | options followed by an argument that ends them are parsed as just that; followed by what is refused, they raise its error: a call for help, a key of ours without a value, a bad boolean, or an unknown key with a value |
| BuildArgs.EveryLineSplits | scripts/build.ts:414-504 | every command line is options in order, each consumed once, and then either a suffix that goes to the program untouched but for a leading `--`, or what is refused, with its error |
| BuildArgs.SpaceForEquals | scripts/build.ts:451-480 | before the cutoff, `--key=value` and `--key value` give the same result |

## Left out

- JavaScript numbers: line, column and delta accumulators, durations and counts are unbounded integers, queried positions reals; rounding beyond 2^53 is not modelled. Cells of Int32Arrays and the bit operators are 32-bit.
- DecodeThenSearch: strings are shorter than 2^31 code units, as JavaScript strings are.
- SearchRightIffOrdered: assumes distinct positions for the direction from right answers to order, since rows at one position cannot be told apart by a query.
- Fetching and parsing of source maps around the decoder (`parseSourceMap`, `fetchRemoteSourceMap`, `fetchAllMappings`): network and promise plumbing.
- Disposers: each is known by what calling it does; a disposer that pushes on the stack it is disposed from, a promise that never settles, and getters on resources are not modelled. A null async disposer, which the proposal passes over, is refused here as in the code; `PushesWhatIsAdded` shows that nothing else differs, and the comparison of whole disposals leaves such values aside.
- Generate: the code point count is a parameter, 0x110000 in the source; the mapping is a total function, and SHA-256 is taken to be injective on blocks. `writeZig` and the formatting of the output are left out.
- DedupIsExact: for a code point count that is a multiple of 256, as 0x110000 is; a short last block stores fewer entries, and `ShortBlockShares` says when it shares its offset.
- Module bodies: a body may branch on whether a call returned or threw, not on the value; asynchronous bodies and wrappers created with a value already in place are left out.
- SameModuleForAll: only for modules that do not assign `module.exports`; what callers of the others are given, in a cycle too, is said by `ValuesOfPrograms`.
- Decorators: access objects, names, property descriptors on prototypes, private names and the definition of metadata on the class are left out; a decorator is known by the `addInitializer` calls it makes and by what it returns for a value. `__runInitializers` applies given functions.
- Module interop: modules are maps from own names to values; prototypes, proxies, symbols, primitives passed to `__toESM`, `__toCommonJS`, `__export` and `__merge` are left out.
- ReaderReadsWriter: an archive without ZIP64 records; what a server answers to the range request is left out, the model starts from the fetched bytes. A name that ends in a slash is recognised by its last byte.
- Completions: reading and trimming the input file, zstd itself, and the generated Zig text around the tables are left out. Lower case is modelled where it makes a letter from a to z; other case folding can only change the size of the biggest group.
- Log parsing: a log is the list of its header lines, with the name and the cleaned name that the regular expressions take from each; fetching, caching and the final report are left out.
- SchedulesAgree: says nothing about which of several platforms with the same maximum is named, because that depends on the schedule.
- BuildArgs: the regular expressions are a classification of arguments, `parseBool` and the two field lists are parameters; errors name a key in camel case, where the code names it as written; configuring and running ninja are left out.
- SegmentedList: debugger values and memory reads are left out; only the index arithmetic is modelled.
- The legacy TypeScript decorators, private-field helpers, `bench/`, `docs/`, and the CI and release scripts not named above: thin wrappers or I/O.
