/** The initial scan (`search_pattern`, `search_value`): every readable
    region of at most 100 MiB is read in full through the memory channel and
    searched for every (possibly overlapping) occurrence of the pattern. */
module Search {
  import opened Bytes
  import opened Wrappers
  import opened Channel
  import opened Region

  /** The per-region size ceiling, 100 MiB. */
  const MAX_REGION_SIZE: nat := 100 * 1024 * 1024

  /** Every region's bounds are in order, so its size `end - start` does not
      wrap around. */
  predicate Ordered(regions: seq<MemoryRegion>)
  {
    forall k :: 0 <= k < |regions| ==> regions[k].start <= regions[k].end
  }

  /** A region the scan reads: readable, and no larger than the ceiling. */
  predicate Scanned(region: MemoryRegion)
  {
    'r' in region.permissions && region.end - region.start <= MAX_REGION_SIZE
  }

  /** How many windows of width `n` `slice::windows` yields over `size` bytes. */
  function WindowCount(size: nat, n: nat): nat
  {
    if size >= n then size - n + 1 else 0
  }

  /** `base + i` for every `i < count` whose window `data[i..i + |pattern|]`
      is the pattern, in ascending order. */
  function Hits(data: seq<u8>, pattern: seq<u8>, base: u64, count: nat): seq<u64>
    requires count <= WindowCount(|data|, |pattern|)
    requires base + |data| < U64_LIMIT
  {
    if count == 0 then []
    else
      var i := count - 1;
      var a: u64 := base + i;
      Hits(data, pattern, base, i) + (if SliceIs(data, i, pattern) then [a] else [])
  }

  /** What one region contributes to the scan. */
  function RegionMatches(region: MemoryRegion, mem: Memory, pattern: seq<u8>): seq<u64>
    requires region.start <= region.end
  {
    var read := ReadAt(mem, region.start, region.end - region.start);
    if Scanned(region) && read.Ok? then Hits(read.value, pattern, region.start, WindowCount(|read.value|, |pattern|))
    else []
  }

  /** What the first `count` regions of the list contribute, in list order. */
  function MatchesUpTo(regions: seq<MemoryRegion>, mem: Memory, pattern: seq<u8>, count: nat): seq<u64>
    requires Ordered(regions) && count <= |regions|
  {
    if count == 0 then []
    else MatchesUpTo(regions, mem, pattern, count - 1) + RegionMatches(regions[count - 1], mem, pattern)
  }

  /** The addresses `search_pattern` reports: region by region, in list order. */
  function Matches(regions: seq<MemoryRegion>, mem: Memory, pattern: seq<u8>): seq<u64>
    requires Ordered(regions)
  {
    MatchesUpTo(regions, mem, pattern, |regions|)
  }

  /** `search_pattern`: scan the regions in order, skipping unreadable,
      oversized and failing ones, and collect every window equal to the
      pattern. The source's `Result` is always `Ok`, so the list is returned
      directly. */
  method SearchPattern(regions: seq<MemoryRegion>, mem: Memory, pattern: seq<u8>) returns (matches: seq<u64>)
    requires Ordered(regions)
    requires |pattern| > 0
    ensures matches == Matches(regions, mem, pattern)
  {
    matches := [];
    for k := 0 to |regions|
      invariant matches == MatchesUpTo(regions, mem, pattern, k)
    {
      var region := regions[k];
      if 'r' !in region.permissions {
        assert RegionMatches(region, mem, pattern) == [];
        continue;
      }
      if region.end - region.start > MAX_REGION_SIZE {
        assert RegionMatches(region, mem, pattern) == [];
        continue;
      }
      var read := ReadAt(mem, region.start, region.end - region.start);
      if read.Ok? {
        var found := ScanWindows(read.value, pattern, region.start);
        assert found == RegionMatches(region, mem, pattern);
        matches := matches + found;
      } else {
        assert RegionMatches(region, mem, pattern) == [];
      }
    }
  }

  /** The window loop of `search_pattern` over one region's bytes: slide a
      window of the pattern's width one byte at a time and record
      `base + i` for each window equal to the pattern. */
  method ScanWindows(data: seq<u8>, pattern: seq<u8>, base: u64) returns (found: seq<u64>)
    requires |pattern| > 0
    requires base + |data| < U64_LIMIT
    ensures found == Hits(data, pattern, base, WindowCount(|data|, |pattern|))
  {
    found := [];
    for i := 0 to WindowCount(|data|, |pattern|)
      invariant found == Hits(data, pattern, base, i)
    {
      SliceIsSlice(data, i, pattern);
      if data[i..i + |pattern|] == pattern {
        found := found + [base + i];
      }
    }
  }

  // ---------------------------------------------------------------------
  // Soundness, completeness and order
  // ---------------------------------------------------------------------

  lemma {:induction false} HitsSound(data: seq<u8>, pattern: seq<u8>, base: u64, count: nat, a: int)
    requires count <= WindowCount(|data|, |pattern|)
    requires base + |data| < U64_LIMIT
    requires a in Hits(data, pattern, base, count)
    ensures base <= a < base + count && SliceIs(data, a - base, pattern)
  {
    if count > 0 && a !in Hits(data, pattern, base, count - 1) {
    } else if count > 0 {
      HitsSound(data, pattern, base, count - 1, a);
    }
  }

  lemma {:induction false} HitsComplete(data: seq<u8>, pattern: seq<u8>, base: u64, count: nat, a: int)
    requires count <= WindowCount(|data|, |pattern|)
    requires base + |data| < U64_LIMIT
    requires base <= a < base + count && SliceIs(data, a - base, pattern)
    ensures a in Hits(data, pattern, base, count)
  {
    if a < base + count - 1 {
      HitsComplete(data, pattern, base, count - 1, a);
    }
  }

  /** Within one region addresses are reported in strictly ascending order. */
  lemma {:induction false} HitsAscending(data: seq<u8>, pattern: seq<u8>, base: u64, count: nat)
    requires count <= WindowCount(|data|, |pattern|)
    requires base + |data| < U64_LIMIT
    ensures forall j, k :: 0 <= j < k < |Hits(data, pattern, base, count)| ==>
      Hits(data, pattern, base, count)[j] < Hits(data, pattern, base, count)[k]
  {
    if count > 0 {
      HitsAscending(data, pattern, base, count - 1);
      var prev := Hits(data, pattern, base, count - 1);
      var hits := Hits(data, pattern, base, count);
      forall a | a in prev
        ensures a < base + count - 1
      {
        HitsSound(data, pattern, base, count - 1, a);
      }
      forall j, k | 0 <= j < k < |hits|
        ensures hits[j] < hits[k]
      {
        if k >= |prev| {
          assert hits[k] == base + count - 1;
          assert hits[j] == prev[j] && prev[j] in prev;
        } else {
          assert hits[j] == prev[j] && hits[k] == prev[k];
        }
      }
    }
  }

  /** One region's contribution is sound: each address it reports starts a
      copy of the pattern inside the region, which the scan reads. */
  lemma RegionMatchesSound(region: MemoryRegion, mem: Memory, pattern: seq<u8>, a: int)
    requires region.start <= region.end
    requires a in RegionMatches(region, mem, pattern)
    ensures Scanned(region) && region.start <= a && a + |pattern| <= region.end
    ensures ReadAt(mem, a, |pattern|) == Ok(pattern)
  {
    var size := region.end - region.start;
    var read := ReadAt(mem, region.start, size);
    assert Scanned(region) && read.Ok?;
    HitsSound(read.value, pattern, region.start, WindowCount(size, |pattern|), a);
    ReadWithin(mem, region.start, size, a, pattern);
  }

  /** One region's contribution is complete: if the scan reads the region,
      every copy of the pattern inside it is reported. */
  lemma RegionMatchesComplete(region: MemoryRegion, mem: Memory, pattern: seq<u8>, a: int)
    requires region.start <= region.end && Scanned(region)
    requires ReadAt(mem, region.start, region.end - region.start).Ok?
    requires region.start <= a && a + |pattern| <= region.end
    requires ReadAt(mem, a, |pattern|) == Ok(pattern)
    ensures a in RegionMatches(region, mem, pattern)
  {
    var size := region.end - region.start;
    var data := ReadAt(mem, region.start, size).value;
    ReadWithin(mem, region.start, size, a, pattern);
    HitsComplete(data, pattern, region.start, WindowCount(|data|, |pattern|), a);
  }

  /** Every address the first `count` regions report comes from one of them. */
  lemma {:induction false} MatchesUpToSource(regions: seq<MemoryRegion>, mem: Memory, pattern: seq<u8>, count: nat, a: int)
    requires Ordered(regions) && count <= |regions|
    requires a in MatchesUpTo(regions, mem, pattern, count)
    ensures exists k :: 0 <= k < count && a in RegionMatches(regions[k], mem, pattern)
  {
    if a in MatchesUpTo(regions, mem, pattern, count - 1) {
      MatchesUpToSource(regions, mem, pattern, count - 1, a);
    } else {
      assert a in RegionMatches(regions[count - 1], mem, pattern);
    }
  }

  /** Everything one of the first `count` regions reports is kept. */
  lemma {:induction false} MatchesUpToIncludes(regions: seq<MemoryRegion>, mem: Memory, pattern: seq<u8>, count: nat, k: nat, a: int)
    requires Ordered(regions) && count <= |regions|
    requires k < count && a in RegionMatches(regions[k], mem, pattern)
    ensures a in MatchesUpTo(regions, mem, pattern, count)
  {
    if k < count - 1 {
      MatchesUpToIncludes(regions, mem, pattern, count - 1, k, a);
    }
  }

  /** Soundness: every reported address starts a copy of the pattern that
      lies wholly inside a readable region of at most 100 MiB. */
  lemma MatchesSound(regions: seq<MemoryRegion>, mem: Memory, pattern: seq<u8>, a: int)
    requires Ordered(regions)
    requires a in Matches(regions, mem, pattern)
    ensures ReadAt(mem, a, |pattern|) == Ok(pattern)
    ensures exists k :: 0 <= k < |regions| && Scanned(regions[k]) &&
                        regions[k].start <= a && a + |pattern| <= regions[k].end
  {
    MatchesUpToSource(regions, mem, pattern, |regions|, a);
    var k :| 0 <= k < |regions| && a in RegionMatches(regions[k], mem, pattern);
    RegionMatchesSound(regions[k], mem, pattern, a);
  }

  /** Completeness: in a region the scan reads successfully, every address
      that starts a copy of the pattern inside the region is reported,
      overlapping copies included. */
  lemma MatchesComplete(regions: seq<MemoryRegion>, mem: Memory, pattern: seq<u8>, k: nat, a: int)
    requires Ordered(regions)
    requires k < |regions| && Scanned(regions[k])
    requires ReadAt(mem, regions[k].start, regions[k].end - regions[k].start).Ok?
    requires regions[k].start <= a && a + |pattern| <= regions[k].end
    requires ReadAt(mem, a, |pattern|) == Ok(pattern)
    ensures a in Matches(regions, mem, pattern)
  {
    RegionMatchesComplete(regions[k], mem, pattern, a);
    MatchesUpToIncludes(regions, mem, pattern, |regions|, k, a);
  }

  /** Results follow the region list's order: scanning two lists one after
      the other gives the scan of their concatenation. */
  lemma {:induction false} MatchesAppend(first: seq<MemoryRegion>, second: seq<MemoryRegion>, mem: Memory, pattern: seq<u8>, count: nat)
    requires Ordered(first) && Ordered(second) && count <= |second|
    ensures Ordered(first + second)
    ensures MatchesUpTo(first + second, mem, pattern, |first| + count)
         == Matches(first, mem, pattern) + MatchesUpTo(second, mem, pattern, count)
  {
    OrderedAppend(first, second);
    if count == 0 {
      MatchesAgree(first, first + second, mem, pattern, |first|);
    } else {
      MatchesAppend(first, second, mem, pattern, count - 1);
      assert (first + second)[|first| + count - 1] == second[count - 1];
      AppendAssociates(Matches(first, mem, pattern), MatchesUpTo(second, mem, pattern, count - 1),
                       RegionMatches(second[count - 1], mem, pattern));
    }
  }

  /** Kept as a lemma so the regrouping is proved away from the scan's
      definitions, which would otherwise flood the solver. */
  lemma AppendAssociates(a: seq<u64>, b: seq<u64>, c: seq<u64>)
    ensures (a + b) + c == a + (b + c)
  {
  }

  /** Two lists that agree on their first `count` regions scan alike that far. */
  lemma {:induction false} MatchesAgree(regions: seq<MemoryRegion>, other: seq<MemoryRegion>, mem: Memory, pattern: seq<u8>, count: nat)
    requires Ordered(regions) && Ordered(other) && count <= |regions| && count <= |other|
    requires forall k :: 0 <= k < count ==> regions[k] == other[k]
    ensures MatchesUpTo(regions, mem, pattern, count) == MatchesUpTo(other, mem, pattern, count)
  {
    if count > 0 {
      MatchesAgree(regions, other, mem, pattern, count - 1);
    }
  }

  lemma OrderedAppend(first: seq<MemoryRegion>, second: seq<MemoryRegion>)
    requires Ordered(first) && Ordered(second)
    ensures Ordered(first + second)
  {
    var all := first + second;
    forall k | 0 <= k < |all|
      ensures all[k].start <= all[k].end
    {
      if k < |first| {
        assert all[k] == first[k];
      } else {
        assert all[k] == second[k - |first|];
      }
    }
  }

  /** The scan of a single region lists its addresses in ascending order. */
  lemma RegionMatchesAscending(region: MemoryRegion, mem: Memory, pattern: seq<u8>)
    requires region.start <= region.end
    ensures forall j, k :: 0 <= j < k < |RegionMatches(region, mem, pattern)| ==>
      RegionMatches(region, mem, pattern)[j] < RegionMatches(region, mem, pattern)[k]
  {
    if Scanned(region) {
      var read := ReadAt(mem, region.start, region.end - region.start);
      if read.Ok? {
        HitsAscending(read.value, pattern, region.start, WindowCount(|read.value|, |pattern|));
      }
    }
  }

  // ---------------------------------------------------------------------
  // Typed values
  // ---------------------------------------------------------------------

  /** The scalar types the scanner searches for; a float is carried as its
      IEEE-754 bit pattern. */
  datatype ScanValue = I32(i: i32) | I64(l: i64) | U32(u: u32) | U64(w: u64) | F32(f: u32) | F64(d: u64)

  function Width(value: ScanValue): nat
  {
    match value
    case I32(_) => 4
    case U32(_) => 4
    case F32(_) => 4
    case _ => 8
  }

  /** `bytemuck::bytes_of`: the value's in-memory bytes on a little-endian
      target (two's complement for the signed types). */
  function BytesOf(value: ScanValue): (bytes: seq<u8>)
    ensures |bytes| == Width(value) > 0
  {
    match value
    case I32(x) => LittleEndian(x % U32_LIMIT, 4)
    case I64(x) => LittleEndian(x % U64_LIMIT, 8)
    case U32(x) => LittleEndian(x, 4)
    case U64(x) => LittleEndian(x, 8)
    case F32(x) => LittleEndian(x, 4)
    case F64(x) => LittleEndian(x, 8)
  }

  /** Reads bytes back as a value of the same type as `kind`. */
  function ValueOf(kind: ScanValue, bytes: seq<u8>): ScanValue
    requires |bytes| == Width(kind)
  {
    Pow256Widths();
    var n := FromLittleEndian(bytes);
    match kind
    case I32(_) => I32(if n < 0x8000_0000 then n else n - U32_LIMIT)
    case I64(_) => I64(if n < 0x8000_0000_0000_0000 then n else n - U64_LIMIT)
    case U32(_) => U32(n)
    case U64(_) => U64(n)
    case F32(_) => F32(n)
    case F64(_) => F64(n)
  }

  /** The layout is faithful: reading a value's bytes gives the value back,
      so two values of one type have the same bytes only if they are equal. */
  lemma BytesOfRoundTrip(value: ScanValue)
    ensures ValueOf(value, BytesOf(value)) == value
  {
    match value
    case I32(x) => I32RoundTrip(x);
    case I64(x) => I64RoundTrip(x);
    case U32(x) => UnsignedRoundTrip(x, 4);
    case U64(x) => UnsignedRoundTrip(x, 8);
    case F32(x) => UnsignedRoundTrip(x, 4);
    case F64(x) => UnsignedRoundTrip(x, 8);
  }

  lemma UnsignedRoundTrip(x: nat, width: nat)
    requires x < Pow256(width)
    ensures FromLittleEndian(LittleEndian(x, width)) == x
  {
    FromLittleEndianOfLittleEndian(x, width);
  }

  lemma I32RoundTrip(x: i32)
    ensures ValueOf(I32(x), BytesOf(I32(x))) == I32(x)
  {
    Pow256Widths();
    var n := x % U32_LIMIT;
    assert n == if x >= 0 then x else x + U32_LIMIT;
    FromLittleEndianOfLittleEndian(n, 4);
  }

  lemma I64RoundTrip(x: i64)
    ensures ValueOf(I64(x), BytesOf(I64(x))) == I64(x)
  {
    Pow256Widths();
    var n := x % U64_LIMIT;
    assert n == if x >= 0 then x else x + U64_LIMIT;
    FromLittleEndianOfLittleEndian(n, 8);
  }

  /** `search_value`: the value's bytes, handed to `search_pattern`. */
  method SearchValue(regions: seq<MemoryRegion>, mem: Memory, value: ScanValue) returns (matches: seq<u64>)
    requires Ordered(regions)
    ensures matches == Matches(regions, mem, BytesOf(value))
  {
    matches := SearchPattern(regions, mem, BytesOf(value));
  }
}
