# Linux_proc_modifier memory core, in Dafny

Linux_proc_modifier is a command-line memory editor for Linux processes, in
the style of a cheat engine. It attaches to a process by pid and reads the
process's region listing (`/proc/<pid>/maps`). It then works on the
process's address space through `/proc/<pid>/mem`:

- it scans every readable region for a byte pattern or for the bytes of a
  typed value;
- it narrows the resulting working set with repeated filter passes
  (`Exact`, `Changed`, `Unchanged`, `Increased`, `Decreased`, `Range`);
- it writes new bytes at chosen addresses;
- it keeps a list of saved addresses.

This project models that core and proves what it does:

| file | module | what it models |
|---|---|---|
| `wrappers.dfy` | `Wrappers` | the `Result`/`Option` shapes and the two error kinds the core produces (a failed integer parse, a failed read/write) |
| `bytes.dfy` | `Bytes` | bytes and machine integers; the lexicographic order Rust uses to compare two `Vec<u8>`; little-endian encoding, as `bytemuck::bytes_of` lays out integers on little-endian targets such as x86-64 and aarch64 |
| `float64.dfy` | `Float64` | IEEE 754 doubles kept as their 64-bit patterns; the `>=`/`<=` comparison the `Range` filter applies (NaN compares false, -0 equals +0), proved to agree with the exact real value |
| `channel.dfy` | `Channel` | the memory file as a partial map from address to byte, with a separate set of addresses that accept writes; a read or write of a byte range either covers it entirely or fails |
| `region.rs` → `region.dfy` | `Region` | `MemoryRegion::parse_maps`: whitespace splitting, the `start-end` hex range, permissions and the rejoined pathname |
| `search.rs` → `search.dfy` | `Search` | `search_pattern` (the region scan with the 100 MiB cap and sliding windows) and `search_value` |
| `process.rs` (filter pass) → `filter.dfy` | `Filter` | the filter loop of `filter_results` as a function over the working set, with the keep rule of each `SearchFilter` (`types.rs`) |
| `process.rs` → `process.dfy` | `Process` | `ProcessMemory` as a class: `new`, `read_memory`, `write_memory`, `search_pattern`, `search_value`, `filter_results`, `save_address`, `get_saved_addresses` |

Each state-changing operation of `ProcessMemory` is a method. Its `ensures`
ties the new state to a specification function: `Matches`, `FilterPass`,
`WriteAt` or `ParseLines`. The properties the program relies on are proved
about those functions:

- soundness and completeness of the scan;
- scan results in region order;
- the abort-on-error behaviour of a filter pass;
- a filter pass keeps an order-preserving subsequence of the working set;
- each kept snapshot is the current memory;
- the partition of `Changed`/`Unchanged`/`Increased`/`Decreased`;
- the value order of `Range`;
- the round trip of the maps-line parser and of the value encodings;
- reading back what was written.

The class invariant `Valid` says every candidate address lies inside a
scanned region. Every method that touches the working set preserves it.

Where a more forgiving reading of the program would be natural, the model
follows what the code does:

- A malformed hexadecimal address in the region listing aborts the whole
  parse with a parse error (`?` on `from_str_radix`). A permissive parser
  would skip that line; `parse_maps` does not (`Region.MalformedAddressAborts`).
- The parser never checks that `end > start`. The line
  `2000-1000 r-xp 00000000 00:00 0` yields a region with reversed bounds
  (`Region.ParseKeepsReversedBounds`).
- A candidate whose address can no longer be read aborts the whole filter
  pass and leaves the working set untouched (`?` on `read_memory`). A
  forgiving filter would drop that candidate and go on; `filter_results`
  does not (`Filter.FilterError`).

`Increased`/`Decreased` compare the raw byte vectors lexicographically, as
Rust's `Vec<u8>` order does, not as numbers. For small changes in the
lowest byte the two agree: an `i32` that goes from 100 to 105 is kept by
`Changed`, and when it then falls to 101 it is kept by `Decreased`
(`Filter.ChangedThenDecreased`). When a carry crosses a byte they part: an
`i32` going from 255 to 256 counts as `Decreased`, not `Increased`
(`Filter.ByteOrderIsNotNumeric`).

## Model

| member | source | states |
|---|---|---|
| Bytes.LexLess | src/memory/process.rs:94-103 | the order Rust's `>`/`<` gives two `Vec<u8>`: the first differing byte decides, and a proper prefix is smaller |
| Bytes.LexLessIrreflexive | src/memory/process.rs:94-103 | no byte vector is `>` or `<` itself |
| Bytes.LexLessTrichotomy | src/memory/process.rs:84-103 | for any two byte vectors exactly one of equal, less or greater holds |
| Bytes.LexLessTransitive | src/memory/process.rs:94-103 | the byte-vector order is transitive |
| Bytes.LexLessFirstDifference | src/memory/process.rs:94-103 | for equal lengths, `a < b` iff `a` and `b` agree up to some index where `a`'s byte is smaller |
| Bytes.FromLittleEndianOfLittleEndian | src/memory/search.rs:41 | decoding the little-endian bytes of `n` in `width` bytes gives `n` modulo 256^width |
| Bytes.LittleEndianOfFromLittleEndian | src/memory/search.rs:41 | re-encoding the value of any byte string gives back that byte string |
| Float64.Le | src/memory/process.rs:106 | IEEE `x <= y` on bit patterns: false if either is NaN, otherwise the signed magnitudes compare, so -0 and +0 are equal |
| Float64.FromBytes | src/memory/process.rs:105 | the double whose bit pattern is the eight bytes read little-endian |
| Float64.LeIsValueOrder | src/memory/process.rs:104-110 | for finite doubles, the bit-pattern comparison `x <= y` holds iff the exact value of `x` is at most that of `y` |
| Float64.NaNIsUnordered | src/memory/process.rs:106 | a NaN is neither `<=` nor `>=` anything |
| Float64.InfinityIsGreatest | src/memory/process.rs:106 | every non-NaN double is `<=` +infinity |
| Float64.NegativeInfinityIsLeast | src/memory/process.rs:106 | -infinity is `<=` every non-NaN double, so `Range` with infinite bounds is covered by `RangeKeepsByValue` and this lemma together |
| Float64.ScaledOfMagnitudeMonotone | src/memory/process.rs:106 | the exact value of a non-negative double strictly increases with its magnitude bits |
| Channel.ReadAt | src/memory/process.rs:37-42 | a read succeeds iff every byte of the range is mapped; then it returns exactly those bytes, `size` of them; otherwise an I/O error |
| Channel.WriteAt | src/memory/process.rs:44-49 | a write succeeds iff every byte of the range is mapped and writable; it changes no other address and maps no new one; otherwise an I/O error |
| Channel.ReadAfterWrite | src/memory/process.rs:37-49 | after a successful write, reading the same range returns the written bytes |
| Channel.WriteFrame | src/memory/process.rs:37-49 | a write leaves reads of disjoint ranges unchanged |
| Channel.ReadWithin | src/memory/search.rs:22-27 | a read inside a larger successful read returns `expected` iff the larger read holds `expected` at that offset |
| Channel.WriteWhatWasRead | src/memory/process.rs:37-49 | writing back the bytes just read to a writable range leaves memory unchanged |
| Region.Join | src/memory/region.rs:30 | the path words joined with single spaces |
| Region.Fields | src/memory/region.rs:22 | every field of a line is a non-empty run of non-whitespace |
| Region.FieldsOfJoin | src/memory/region.rs:22 | splitting words joined by single spaces gives those words back |
| Region.Split | src/memory/region.rs:24 | the pieces of a string between occurrences of the separator, empty ones included, at least one piece |
| Region.SplitPair | src/memory/region.rs:24-25 | splitting `a-b` at `-`, with no `-` in `a` or `b`, gives exactly `[a, b]` |
| Region.ParseHexOfToHex | src/memory/region.rs:26-27 | parsing the hexadecimal digits of any 64-bit value gives that value |
| Region.HexValueLeadingZero | src/memory/region.rs:26-27 | a leading `0` digit does not change the value of a hex string |
| Region.HexValueLeadingZeros | src/memory/region.rs:26-27 | any run of leading `0` digits does not change the value of a hex string |
| Region.PaddedHexDigits | src/memory/region.rs:26-27 | zero digits in front of hex digits still form a string of hex digits |
| Region.ParseHexOfPadded | src/memory/region.rs:26-27 | parsing the zero-padded hex digits of a 64-bit value, as the kernel writes addresses, gives that value |
| Region.HexValue | src/memory/region.rs:26-27 | the value of a string of hex digits, most significant first |
| Region.ParseHexRejectsBadDigit | src/memory/region.rs:26-27 | a character that is not a hex digit, anywhere except a leading `+`, makes the parse fail with a parse error |
| Region.ParseHex | src/memory/region.rs:26-27 | a failed hex parse is a parse error |
| Region.ParseFields | src/memory/region.rs:23-40 | over the whitespace fields of a line: nothing with fewer than two fields or a first field not split into two by `-`, a parse error when a bound is not 64-bit hex, otherwise the region with field 2 as permissions and fields 6 onwards joined as pathname |
| Region.ParseLine | src/memory/region.rs:21-41 | a line yields a region, nothing (fewer than two fields, or no single `-` in the first), or a parse error |
| Region.ParseLines | src/memory/region.rs:18-45 | the regions of the lines that yield one, in listing order, or the first line's parse error |
| Region.ParseMaps | src/memory/region.rs:14-46 | the loop computes `ParseLines`, and it fails iff some line fails to parse |
| Region.ParseLinesError | src/memory/region.rs:20-45 | parsing a prefix of the listing fails iff one of its lines does |
| Region.ParseLinesErrorStops | src/memory/region.rs:26-27 | after the first failing line the result stays that error |
| Region.ParseLinesAppend | src/memory/region.rs:20-43 | parsing a listing in two parts gives the regions of the first followed by those of the second, in order |
| Region.ParseSingleLine | src/memory/region.rs:20-45 | a one-line listing gives that line's region, or none |
| Region.FieldsOfFormatLine | src/memory/region.rs:22 | the fields of a formatted maps line are the range, the permissions, three filler fields and the path words |
| Region.ParseFormatFields | src/memory/region.rs:23-40 | those fields parse back to the region with the path words joined by single spaces |
| Region.ParseFormatLine | src/memory/region.rs:14-40 | round trip: a formatted maps line parses to exactly its region |
| Region.MalformedLineFields | src/memory/region.rs:22 | the whitespace fields of `zz-1000 r-xp` are `zz-1000` and `r-xp` |
| Region.MalformedRangeSplit | src/memory/region.rs:24 | the range field `zz-1000` splits at `-` into `zz` and `1000` |
| Region.MalformedLineRejected | src/memory/region.rs:22-27 | the line `zz-1000 r-xp` fails with a parse error at its start address |
| Region.MalformedAddressAborts | src/memory/region.rs:20-27 | a listing whose line `zz-1000 r-xp` has a non-hex start address fails as a whole with a parse error; the line is not skipped |
| Region.ParseKeepsReversedBounds | src/memory/region.rs:26-40 | a range with `end < start` is accepted as it is |
| Search.Scanned | src/memory/search.rs:15-20 | a region is scanned iff its permissions contain `r` and it spans at most 100 MiB |
| Search.RegionMatches | src/memory/search.rs:15-31 | a region's matches: none when it is not scanned or does not read in full, otherwise `start + i` for each window `i` equal to the pattern |
| Search.Matches | src/memory/search.rs:14-32 | the matches of all regions, region by region in list order |
| Search.SearchPattern | src/memory/search.rs:4-35 | the scan loop computes `Matches`, region by region in list order |
| Search.ScanWindows | src/memory/search.rs:24-28 | the window loop reports `base + i` for every window `i` equal to the pattern, in order |
| Search.Hits | src/memory/search.rs:24-27 | the offsets `base + i`, ascending, of the first `count` windows of the data that equal the pattern |
| Search.HitsSound | src/memory/search.rs:24-27 | every reported offset starts a copy of the pattern inside the data |
| Search.HitsComplete | src/memory/search.rs:24-27 | every copy of the pattern inside the data is reported |
| Search.HitsAscending | src/memory/search.rs:24-27 | the matches within one region are strictly ascending |
| Search.RegionMatchesSound | src/memory/search.rs:15-31 | a match in a region comes from a readable region of at most 100 MiB, lies inside it, and the memory there holds the pattern |
| Search.RegionMatchesComplete | src/memory/search.rs:15-31 | in a scanned region that reads, every address holding the pattern inside the region is reported |
| Search.RegionMatchesAscending | src/memory/search.rs:14-31 | one region's matches are strictly ascending |
| Search.MatchesUpToSource | src/memory/search.rs:14-32 | every match of the scan so far comes from one of the regions scanned so far |
| Search.MatchesUpToIncludes | src/memory/search.rs:14-32 | a region's matches all appear in the scan of any prefix containing that region |
| Search.MatchesSound | src/memory/search.rs:4-35 | every reported address holds the pattern and lies inside a readable region no larger than 100 MiB |
| Search.MatchesComplete | src/memory/search.rs:4-35 | every occurrence inside a scanned, readable region is reported, overlapping ones included |
| Search.MatchesAppend | src/memory/search.rs:14-32 | scanning two region lists one after the other gives the concatenation of their matches |
| Search.MatchesAgree | src/memory/search.rs:14-32 | the scan of a prefix depends only on the regions in it |
| Search.OrderedAppend | src/memory/search.rs:18 | helper for the `start <= end` precondition `MatchesAppend` carries: two lists whose regions all have `start <= end` still have it once appended |
| Search.BytesOf | src/memory/search.rs:41 | a typed value's bytes are as many as its width |
| Search.BytesOfRoundTrip | src/memory/search.rs:41 | reading a value's bytes back as the same type gives the value |
| Search.UnsignedRoundTrip | src/memory/search.rs:41 | an unsigned value below 256^width survives encoding and decoding |
| Search.I32RoundTrip | src/memory/search.rs:41 | an `i32` (two's complement) survives encoding and decoding |
| Search.I64RoundTrip | src/memory/search.rs:41 | an `i64` (two's complement) survives encoding and decoding |
| Search.SearchValue | src/memory/search.rs:37-43 | searching a value is searching its bytes |
| Filter.Keeps | src/memory/process.rs:76-111 | `Exact` keeps iff a value was given and equals the fresh bytes; `Changed`/`Unchanged` by (in)equality with the snapshot; `Increased`/`Decreased` by `LexLess`; `Range` iff the fresh bytes are 8 long and `min <= v <= max` as doubles, so a kept `Exact` value is the fresh bytes and a kept `Range` value is not NaN and lies between bounds with `min <= max` |
| Filter.FilterPass | src/memory/process.rs:72-112 | the whole pass: the candidates, in order, whose fresh bytes the filter keeps, with those bytes, or the error of the first failed read |
| Filter.FilterUpTo | src/memory/process.rs:74-112 | a pass fails only with an I/O error |
| Filter.Addresses | src/memory/process.rs:114 | the returned addresses are those of the working set, index by index |
| Filter.FilterError | src/memory/process.rs:74-75 | a pass fails iff some candidate cannot be re-read in full; unreadable candidates are not skipped |
| Filter.FilterErrorStops | src/memory/process.rs:75 | after the first failed read the pass result stays that error |
| Filter.FilterShrinks | src/memory/process.rs:72-112 | a pass never grows the working set |
| Filter.FilterSound | src/memory/process.rs:74-112 | every kept entry comes from a candidate at the same address, with bytes of the same length that memory holds now and that the filter accepts |
| Filter.FilterKeepsOrder | src/memory/process.rs:72-113 | the survivors of a pass come, one each, from strictly increasing positions of the working set (given by `KeptIndices`), each with its candidate's address, snapshot length and fresh bytes |
| Filter.FilterNarrows | src/memory/process.rs:72-114 | the working set after a pass is the old one with some entries left out and the rest in their order, at the same addresses |
| Filter.FilterComplete | src/memory/process.rs:74-112 | every candidate whose fresh bytes the filter accepts is kept with those bytes |
| Filter.FilterFresh | src/memory/process.rs:75-113 | after a pass every snapshot equals the current memory at its address |
| Filter.UnchangedKeepsFresh | src/memory/process.rs:89-93 | `Unchanged` keeps a working set with current snapshots as it is |
| Filter.UnchangedAfterPass | src/memory/process.rs:67-115 | with memory untouched, `Unchanged` after any successful pass keeps that pass's result unchanged |
| Filter.KeepsPartition | src/memory/process.rs:84-103 | `Changed` keeps iff `Unchanged` does not, iff `Increased` or `Decreased` does; `Increased` and `Decreased` never both keep |
| Filter.RangeKeepsByValue | src/memory/process.rs:104-110 | for finite doubles, `Range(min, max)` keeps iff min <= value <= max in exact value |
| Filter.RangeDrops | src/memory/process.rs:104-110 | `Range` drops bytes that are not 8 long, and NaN |
| Filter.ByteOrderIsNotNumeric | src/memory/process.rs:94-103 | an `i32` going from 255 to 256 is not `Increased` but `Decreased` |
| Filter.ChangedThenDecreased | src/memory/process.rs:84-103 | 100 → 105 is kept by `Changed` with 105 as the new snapshot, and 105 → 101 is then kept by `Decreased` |
| Filter.SinglePass | src/memory/process.rs:74-113 | a pass over one readable candidate keeps it with its fresh bytes iff the filter accepts them |
| Filter.FromBytesOfBits | src/memory/process.rs:105 | reading back the eight little-endian bytes of a double gives that double |
| Filter.RangeScenarioOrder | src/memory/process.rs:106 | 50.0 < 100.0 <= 150.0 <= 200.0 < 250.0 in the double comparison |
| Filter.RangeScenarioKeeps | src/memory/process.rs:104-110 | `Range(100.0, 200.0)` drops 50.0 and 250.0 and keeps 150.0 |
| Filter.RangeScenario | src/memory/process.rs:67-115 | over three candidates holding 50.0, 150.0 and 250.0, `Range(100.0, 200.0)` keeps only the one holding 150.0 |
| Process.Tagged | src/memory/process.rs:53 | the new working set pairs each match, in order, with the searched bytes, and its addresses are the matches |
| Process.SearchResultsFresh | src/memory/process.rs:51-65 | right after a search every candidate's snapshot is the memory at its address, and every candidate lies in a scanned region |
| Process.UnchangedAfterSearch | src/memory/process.rs:51-115 | with memory untouched, `Unchanged` right after a search keeps every match |
| Process.FilterStaysInRegions | src/memory/process.rs:67-115 | a filter pass keeps the working set inside the scanned regions |
| Process.ProcessMemory.constructor | src/memory/process.rs:28-34 | a new handle has the given pid, regions and memory, an empty working set and an empty saved list |
| Process.ProcessMemory.New | src/memory/process.rs:19-35 | attaching fails with an I/O error when the memory file does not open or the listing cannot be read, and otherwise with a parse error iff the listing does not parse; on success the regions are the parsed listing and both lists are empty |
| Process.ProcessMemory.ReadMemory | src/memory/process.rs:37-42 | reads exactly `size` bytes at `address`, or fails |
| Process.ProcessMemory.WriteMemory | src/memory/process.rs:44-49 | a write succeeds iff `WriteAt` does on the current memory and writable set; then memory is `WriteAt`'s result and the same bytes read back; a failed one changes nothing; the lists are untouched |
| Process.ProcessMemory.SearchPattern | src/memory/process.rs:51-55 | returns the scan's matches and makes them the working set with the pattern as snapshot; the invariant holds and every snapshot is current |
| Process.ProcessMemory.SearchValue | src/memory/process.rs:57-65 | as `SearchPattern`, with the value's bytes |
| Process.ProcessMemory.FilterResults | src/memory/process.rs:67-115 | on success the working set becomes `FilterPass` of the old one, a subsequence of it in its order, no longer than it, with current snapshots, and the result is its addresses; on a failed read it returns an I/O error and keeps the old working set; the invariant is kept |
| Process.ProcessMemory.Refilter | src/memory/process.rs:72-112 | the re-read loop, with the `match` on the filter, computes `FilterPass`, stopping at the first failed read |
| Process.ProcessMemory.GetSavedAddresses | src/memory/process.rs:121-123 | the saved `(address, description)` pairs, in the order they were saved |
| Process.ProcessMemory.SaveAddress | src/memory/process.rs:117-123 | saving appends the pair to what `GetSavedAddresses` returns and changes nothing else |

## Left out

- File handling is left out: opening `/proc/<pid>/mem` and `/proc/<pid>/maps`, the seek cursor, buffering and flushing. Whether the memory file opens is a parameter of `New`. Whether the listing can be read is given as an `Option` of its lines.
- Process.ProcessMemory.New: a read error part-way through the listing (`line?`) is not modelled separately from a listing that cannot be read at all.
- Wrappers.Error has one kind per error source (parse, I/O). The distinct messages of `ParseIntError` (empty, invalid digit, overflow) and of the I/O errors are not distinguished.
- Channel.WriteAt: which addresses accept a write is given as a set, not derived from the region permissions or the kernel's rules for `/proc/<pid>/mem`.
- Channel.WriteAt: a write either succeeds in full or changes nothing. A partial `write_all` that fails after some bytes is not modelled.
- The memory of the target changes by itself between calls. The class exposes `mem` as a field the caller may reassign. The target running concurrently within one call is not modelled.
- Search.SearchPattern and Search.Matches require the regions to have `start <= end`. With reversed bounds, the source's `end - start` on `u64` would panic in debug builds and wrap in release builds; neither is modelled.
- Search.SearchPattern requires a non-empty pattern, because `windows(0)` panics in the source.
- Search.SearchPattern and Process.ProcessMemory.SearchPattern: the source returns a `Result` that is always `Ok`, and the model does the same.
- Search.BytesOf: the byte layout is fixed little-endian; on a big-endian target `bytemuck::bytes_of` gives the bytes in the other order.
- `search_value` is generic over any `bytemuck::Pod` type. The model covers the types the program passes (`i32`, `i64`, `u32`, `u64`, `f32`, `f64`). Floating-point values are carried as their bit patterns.
- Float64: only the comparison the `Range` filter uses is modelled, on bit patterns; no floating-point arithmetic is done.
- The menus, the display code, the process list (`src/proc_utils.rs`), `src/utils/system.rs` and `src/main.rs` are not part of this model.
