/** One refinement pass of the scanner (`filter_results`): every stored
    snapshot is read again at its address, the filter decides from the previous
    and the fresh bytes whether to keep it, and a kept address carries the
    fresh bytes as its new snapshot. */
module Filter {
  import opened Bytes
  import opened Wrappers
  import opened Channel
  import opened Float64
  import opened Search

  /** The filters an operator can apply; the bounds of `Range` are IEEE-754
      doubles carried as their bit patterns. */
  datatype SearchFilter = Exact | Changed | Unchanged | Increased | Decreased | Range(min: u64, max: u64)

  /** One entry of the working set: an address and the bytes last seen there. */
  datatype Entry = Entry(address: u64, bytes: seq<u8>)

  /** Whether `filter` keeps an entry whose snapshot was `previous` and whose
      bytes now read `current`. `Exact` compares with the operator's value
      and keeps nothing when none was given; `Increased` and `Decreased`
      compare the raw bytes lexicographically; `Range` reads exactly eight
      bytes as a double and tests `min <= v && v <= max`. */
  predicate Keeps(filter: SearchFilter, value: Option<seq<u8>>, previous: seq<u8>, current: seq<u8>)
    ensures Keeps(filter, value, previous, current) && filter.Exact? ==> value == Some(current)
    ensures Keeps(filter, value, previous, current) && filter.Range? ==>
              |current| == 8 && !IsNaN(FromBytes(current)) && Le(filter.min, filter.max)
  {
    match filter
    case Exact => value.Some? && current == value.value
    case Changed => current != previous
    case Unchanged => current == previous
    case Increased => LexLess(previous, current)
    case Decreased => LexLess(current, previous)
    case Range(min, max) => |current| == 8 && Le(min, FromBytes(current)) && Le(FromBytes(current), max)
  }

  /** The pass over the first `count` entries: the kept entries with their
      fresh bytes, in working-set order, or the error of the first read
      that fails (which ends the pass). */
  function FilterUpTo(results: seq<Entry>, mem: Memory, filter: SearchFilter, value: Option<seq<u8>>, count: nat): (r: Result<seq<Entry>>)
    requires count <= |results|
    ensures r.Err? ==> r.error == IoError
  {
    if count == 0 then Ok([])
    else
      var prev := FilterUpTo(results, mem, filter, value, count - 1);
      var entry := results[count - 1];
      var read := ReadAt(mem, entry.address, |entry.bytes|);
      if prev.Err? then prev
      else if read.Err? then Err(read.error)
      else if Keeps(filter, value, entry.bytes, read.value) then Ok(prev.value + [Entry(entry.address, read.value)])
      else prev
  }

  /** The whole pass. */
  function FilterPass(results: seq<Entry>, mem: Memory, filter: SearchFilter, value: Option<seq<u8>>): Result<seq<Entry>>
  {
    FilterUpTo(results, mem, filter, value, |results|)
  }

  /** The addresses of a working set, in order (what `filter_results`
      returns). */
  function Addresses(entries: seq<Entry>): (addresses: seq<u64>)
    ensures |addresses| == |entries|
    ensures forall i :: 0 <= i < |entries| ==> addresses[i] == entries[i].address
  {
    if entries == [] then [] else Addresses(entries[..|entries| - 1]) + [entries[|entries| - 1].address]
  }

  /** The bytes at `entry`'s address, read with the snapshot's width. */
  function Reread(mem: Memory, entry: Entry): Result<seq<u8>>
  {
    ReadAt(mem, entry.address, |entry.bytes|)
  }

  // ---------------------------------------------------------------------
  // The pass as a whole
  // ---------------------------------------------------------------------

  /** The pass fails exactly when one of the addresses cannot be read in
      full; an unreadable address is not skipped. */
  lemma {:induction false} FilterError(results: seq<Entry>, mem: Memory, filter: SearchFilter, value: Option<seq<u8>>, count: nat)
    requires count <= |results|
    ensures FilterUpTo(results, mem, filter, value, count).Err?
        <==> exists i :: 0 <= i < count && Reread(mem, results[i]).Err?
  {
    if count > 0 {
      FilterError(results, mem, filter, value, count - 1);
    }
  }

  /** Once a read fails the rest of the pass changes nothing: the result
      stays that error. */
  lemma {:induction false} FilterErrorStops(results: seq<Entry>, mem: Memory, filter: SearchFilter, value: Option<seq<u8>>, count: nat, more: nat)
    requires count <= more <= |results|
    requires FilterUpTo(results, mem, filter, value, count).Err?
    ensures FilterUpTo(results, mem, filter, value, more) == FilterUpTo(results, mem, filter, value, count)
    decreases more - count
  {
    if count < more {
      FilterErrorStops(results, mem, filter, value, count, more - 1);
    }
  }

  /** A pass never grows the working set. */
  lemma {:induction false} FilterShrinks(results: seq<Entry>, mem: Memory, filter: SearchFilter, value: Option<seq<u8>>, count: nat)
    requires count <= |results|
    requires FilterUpTo(results, mem, filter, value, count).Ok?
    ensures |FilterUpTo(results, mem, filter, value, count).value| <= count
  {
    if count > 0 {
      FilterShrinks(results, mem, filter, value, count - 1);
    }
  }

  /** Soundness: every kept entry comes from an entry of the working set at
      the same address that the filter keeps, and carries exactly the bytes
      now at that address, as many as the previous snapshot had. */
  lemma {:induction false} FilterSound(results: seq<Entry>, mem: Memory, filter: SearchFilter, value: Option<seq<u8>>, count: nat, j: nat)
    requires count <= |results|
    requires FilterUpTo(results, mem, filter, value, count).Ok?
    requires j < |FilterUpTo(results, mem, filter, value, count).value|
    ensures exists i :: 0 <= i < count && Kept(results[i], FilterUpTo(results, mem, filter, value, count).value[j], mem, filter, value)
  {
    var prev := FilterUpTo(results, mem, filter, value, count - 1);
    if j < |prev.value| {
      FilterSound(results, mem, filter, value, count - 1, j);
      var i :| 0 <= i < count - 1 && Kept(results[i], prev.value[j], mem, filter, value);
      assert FilterUpTo(results, mem, filter, value, count).value[j] == prev.value[j];
    } else {
      assert Kept(results[count - 1], FilterUpTo(results, mem, filter, value, count).value[j], mem, filter, value);
    }
  }

  /** `kept` is what the pass makes of `entry`. */
  predicate Kept(entry: Entry, kept: Entry, mem: Memory, filter: SearchFilter, value: Option<seq<u8>>)
  {
    kept.address == entry.address && |kept.bytes| == |entry.bytes| &&
    Reread(mem, entry) == Ok(kept.bytes) && Keeps(filter, value, entry.bytes, kept.bytes)
  }

  /** The positions in the working set whose entries the pass keeps, in
      loop order. */
  function KeptIndices(results: seq<Entry>, mem: Memory, filter: SearchFilter, value: Option<seq<u8>>, count: nat): seq<nat>
    requires count <= |results|
  {
    if count == 0 then []
    else
      var prev := KeptIndices(results, mem, filter, value, count - 1);
      var read := Reread(mem, results[count - 1]);
      if read.Ok? && Keeps(filter, value, results[count - 1].bytes, read.value) then prev + [count - 1]
      else prev
  }

  /** `idx` picks out, in strictly increasing positions of `results`, the
      entry each element of `kept` was made from. */
  predicate IndexedBy(kept: seq<Entry>, results: seq<Entry>, idx: seq<nat>, mem: Memory, filter: SearchFilter, value: Option<seq<u8>>)
  {
    |idx| == |kept| &&
    (forall j :: 0 <= j < |idx| ==> idx[j] < |results| && Kept(results[idx[j]], kept[j], mem, filter, value)) &&
    (forall j, k :: 0 <= j < k < |idx| ==> idx[j] < idx[k])
  }

  /** Order: a successful pass keeps a subsequence of the working set, each
      survivor made from the candidate at the matching position, in the
      candidates' order; no candidate yields two survivors. */
  lemma {:induction false} FilterKeepsOrder(results: seq<Entry>, mem: Memory, filter: SearchFilter, value: Option<seq<u8>>, count: nat)
    requires count <= |results|
    requires FilterUpTo(results, mem, filter, value, count).Ok?
    ensures IndexedBy(FilterUpTo(results, mem, filter, value, count).value, results,
                      KeptIndices(results, mem, filter, value, count), mem, filter, value)
    ensures forall j :: 0 <= j < |KeptIndices(results, mem, filter, value, count)| ==>
              KeptIndices(results, mem, filter, value, count)[j] < count
  {
    if count > 0 {
      var prev := FilterUpTo(results, mem, filter, value, count - 1);
      assert prev.Ok?;
      FilterKeepsOrder(results, mem, filter, value, count - 1);
      var prevIdx := KeptIndices(results, mem, filter, value, count - 1);
      var entry := results[count - 1];
      var read := Reread(mem, entry);
      assert read.Ok?;
      if Keeps(filter, value, entry.bytes, read.value) {
        var survivor := Entry(entry.address, read.value);
        assert FilterUpTo(results, mem, filter, value, count).value == prev.value + [survivor];
        assert KeptIndices(results, mem, filter, value, count) == prevIdx + [count - 1];
        IndexedBySnoc(prev.value, results, prevIdx, survivor, count - 1, mem, filter, value);
      } else {
        assert FilterUpTo(results, mem, filter, value, count) == prev;
        assert KeptIndices(results, mem, filter, value, count) == prevIdx;
      }
    }
  }

  /** Appending a survivor made from a later position extends an indexing. */
  lemma IndexedBySnoc(kept: seq<Entry>, results: seq<Entry>, idx: seq<nat>, survivor: Entry, i: nat,
                      mem: Memory, filter: SearchFilter, value: Option<seq<u8>>)
    requires IndexedBy(kept, results, idx, mem, filter, value)
    requires forall j :: 0 <= j < |idx| ==> idx[j] < i
    requires i < |results| && Kept(results[i], survivor, mem, filter, value)
    ensures IndexedBy(kept + [survivor], results, idx + [i], mem, filter, value)
  {
    var kept', idx' := kept + [survivor], idx + [i];
    assert forall j :: 0 <= j < |idx| ==> idx'[j] == idx[j] && kept'[j] == kept[j];
  }

  /** The addresses of a successful pass are a subsequence of the working
      set's addresses. */
  lemma FilterNarrows(results: seq<Entry>, mem: Memory, filter: SearchFilter, value: Option<seq<u8>>)
    requires FilterPass(results, mem, filter, value).Ok?
    ensures Narrows(FilterPass(results, mem, filter, value).value, results)
  {
    var kept := FilterPass(results, mem, filter, value).value;
    var idx := KeptIndices(results, mem, filter, value, |results|);
    FilterKeepsOrder(results, mem, filter, value, |results|);
    assert Picks(kept, results, idx);
  }

  /** `kept` is `results` with some entries left out and the rest, in order,
      at the same address and with a snapshot of the same length. */
  ghost predicate Narrows(kept: seq<Entry>, results: seq<Entry>)
  {
    exists idx :: Picks(kept, results, idx)
  }

  predicate Picks(kept: seq<Entry>, results: seq<Entry>, idx: seq<nat>)
  {
    |idx| == |kept| &&
    (forall j :: 0 <= j < |idx| ==> idx[j] < |results| && kept[j].address == results[idx[j]].address &&
                                     |kept[j].bytes| == |results[idx[j]].bytes|) &&
    (forall j, k :: 0 <= j < k < |idx| ==> idx[j] < idx[k])
  }

  /** Completeness: an entry whose fresh bytes the filter keeps is in the
      result with those bytes. */
  lemma {:induction false} FilterComplete(results: seq<Entry>, mem: Memory, filter: SearchFilter, value: Option<seq<u8>>, count: nat, i: nat)
    requires count <= |results|
    requires FilterUpTo(results, mem, filter, value, count).Ok?
    requires i < count
    requires Reread(mem, results[i]).Ok? && Keeps(filter, value, results[i].bytes, Reread(mem, results[i]).value)
    ensures Entry(results[i].address, Reread(mem, results[i]).value) in FilterUpTo(results, mem, filter, value, count).value
  {
    if i < count - 1 {
      FilterComplete(results, mem, filter, value, count - 1, i);
    }
  }

  /** Every snapshot a pass keeps is what memory holds at its address now. */
  lemma FilterFresh(results: seq<Entry>, mem: Memory, filter: SearchFilter, value: Option<seq<u8>>)
    requires FilterPass(results, mem, filter, value).Ok?
    ensures Fresh(FilterPass(results, mem, filter, value).value, mem)
  {
    var kept := FilterPass(results, mem, filter, value).value;
    forall j | 0 <= j < |kept|
      ensures Reread(mem, kept[j]) == Ok(kept[j].bytes)
    {
      FilterSound(results, mem, filter, value, |results|, j);
    }
  }

  /** Each entry's snapshot is what memory holds at its address. */
  predicate Fresh(entries: seq<Entry>, mem: Memory)
  {
    forall j :: 0 <= j < |entries| ==> Reread(mem, entries[j]) == Ok(entries[j].bytes)
  }

  /** `Unchanged` keeps a working set whose snapshots are all current, as
      it is. */
  lemma {:induction false} UnchangedKeepsFresh(entries: seq<Entry>, mem: Memory, value: Option<seq<u8>>, count: nat)
    requires count <= |entries|
    requires Fresh(entries, mem)
    ensures FilterUpTo(entries, mem, Unchanged, value, count) == Ok(entries[..count])
  {
    if count > 0 {
      UnchangedKeepsFresh(entries, mem, value, count - 1);
      var entry := entries[count - 1];
      assert Reread(mem, entry) == Ok(entry.bytes);
      assert Keeps(Unchanged, value, entry.bytes, entry.bytes);
      assert FilterUpTo(entries, mem, Unchanged, value, count) == Ok(entries[..count - 1] + [entry]);
      PrefixSnoc(entries, count);
    }
  }

  /** A prefix one longer is the shorter prefix and the next entry. */
  lemma PrefixSnoc(entries: seq<Entry>, count: nat)
    requires 0 < count <= |entries|
    ensures entries[..count] == entries[..count - 1] + [entries[count - 1]]
  {
  }

  /** With no change to memory in between, `Unchanged` after any successful
      pass keeps everything; in particular `Unchanged` twice in a row gives
      the same working set both times. */
  lemma UnchangedAfterPass(results: seq<Entry>, mem: Memory, filter: SearchFilter, value: Option<seq<u8>>, value': Option<seq<u8>>)
    requires FilterPass(results, mem, filter, value).Ok?
    ensures FilterPass(FilterPass(results, mem, filter, value).value, mem, Unchanged, value')
         == FilterPass(results, mem, filter, value)
  {
    var kept := FilterPass(results, mem, filter, value).value;
    FilterFresh(results, mem, filter, value);
    UnchangedKeepsFresh(kept, mem, value', |kept|);
    assert kept[..|kept|] == kept;
  }

  // ---------------------------------------------------------------------
  // The keep rule
  // ---------------------------------------------------------------------

  /** For any previous and fresh bytes exactly one of `Unchanged`, `Increased`
      and `Decreased` keeps the entry, and `Changed` keeps it exactly when
      `Increased` or `Decreased` does. */
  lemma KeepsPartition(value: Option<seq<u8>>, previous: seq<u8>, current: seq<u8>)
    ensures Keeps(Changed, value, previous, current) <==> !Keeps(Unchanged, value, previous, current)
    ensures Keeps(Changed, value, previous, current)
        <==> Keeps(Increased, value, previous, current) || Keeps(Decreased, value, previous, current)
    ensures !(Keeps(Increased, value, previous, current) && Keeps(Decreased, value, previous, current))
    ensures Keeps(Unchanged, value, previous, current) ==> !Keeps(Increased, value, previous, current)
  {
    LexLessTrichotomy(previous, current);
  }

  /** `Range` keeps finite doubles by their exact value, bounds included. */
  lemma RangeKeepsByValue(min: u64, max: u64, value: Option<seq<u8>>, previous: seq<u8>, current: seq<u8>)
    requires |current| == 8
    requires IsFinite(min) && IsFinite(max) && IsFinite(FromBytes(current))
    ensures Keeps(Range(min, max), value, previous, current)
        <==> ScaledValue(min) <= ScaledValue(FromBytes(current)) <= ScaledValue(max)
  {
    LeIsValueOrder(min, FromBytes(current));
    LeIsValueOrder(FromBytes(current), max);
  }

  /** `Range` drops bytes that are not one double wide, and NaN. */
  lemma RangeDrops(min: u64, max: u64, value: Option<seq<u8>>, previous: seq<u8>, current: seq<u8>)
    requires |current| != 8 || IsNaN(FromBytes(current))
    ensures !Keeps(Range(min, max), value, previous, current)
  {
  }

  // ---------------------------------------------------------------------
  // Scenarios
  // ---------------------------------------------------------------------

  /** The byte-wise order is not the numeric one: an `i32` going from 255 to
      256 is not `Increased` but `Decreased`, because its lowest byte, which
      comes first, drops from 0xFF to 0x00. */
  lemma ByteOrderIsNotNumeric()
    ensures BytesOf(I32(255)) == [0xFF, 0, 0, 0] && BytesOf(I32(256)) == [0, 1, 0, 0]
    ensures !Keeps(Increased, None, BytesOf(I32(255)), BytesOf(I32(256)))
    ensures Keeps(Decreased, None, BytesOf(I32(255)), BytesOf(I32(256)))
  {
    var previous, current := BytesOf(I32(255)), BytesOf(I32(256));
    assert previous == [0xFF, 0, 0, 0];
    assert current == [0, 1, 0, 0];
  }

  /** A snapshot of the `i32` 100 at 0x2000 whose memory now holds 105 is
      kept by `Changed` with 105 as its new snapshot; when the value then
      falls to 101, `Decreased` against that baseline keeps it again. */
  lemma ChangedThenDecreased(mem1: Memory, mem2: Memory)
    requires ReadAt(mem1, 0x2000, 4) == Ok(BytesOf(I32(105)))
    requires ReadAt(mem2, 0x2000, 4) == Ok(BytesOf(I32(101)))
    ensures FilterPass([Entry(0x2000, BytesOf(I32(100)))], mem1, Changed, None)
         == Ok([Entry(0x2000, BytesOf(I32(105)))])
    ensures FilterPass([Entry(0x2000, BytesOf(I32(105)))], mem2, Decreased, None)
         == Ok([Entry(0x2000, BytesOf(I32(101)))])
  {
    var b100, b105, b101 := BytesOf(I32(100)), BytesOf(I32(105)), BytesOf(I32(101));
    assert b100 == [100, 0, 0, 0] && b105 == [105, 0, 0, 0] && b101 == [101, 0, 0, 0];
    assert b100[0] != b105[0];
    SinglePass(Entry(0x2000, b100), mem1, Changed, None);
    assert LexLess(b101, b105);
    SinglePass(Entry(0x2000, b105), mem2, Decreased, None);
  }

  /** A pass over one readable entry keeps it, with its fresh bytes, exactly
      when the filter says so. */
  lemma SinglePass(entry: Entry, mem: Memory, filter: SearchFilter, value: Option<seq<u8>>)
    requires Reread(mem, entry).Ok?
    ensures FilterPass([entry], mem, filter, value)
         == if Keeps(filter, value, entry.bytes, Reread(mem, entry).value)
            then Ok([Entry(entry.address, Reread(mem, entry).value)]) else Ok([])
  {
    var kept := Entry(entry.address, Reread(mem, entry).value);
    assert [entry][0] == entry;
    assert FilterUpTo([entry], mem, filter, value, 0) == Ok([]);
    assert [] + [kept] == [kept];
  }

  const F50: u64 := 0x4049_0000_0000_0000
  const F100: u64 := 0x4059_0000_0000_0000
  const F150: u64 := 0x4062_C000_0000_0000
  const F200: u64 := 0x4069_0000_0000_0000
  const F250: u64 := 0x406F_4000_0000_0000

  /** The eight bytes of a double read back as that double. */
  lemma FromBytesOfBits(bits: u64)
    ensures FromBytes(LittleEndian(bits, 8)) == bits
  {
    Pow256Widths();
    FromLittleEndianOfLittleEndian(bits, 8);
  }

  /** The doubles of the range scenario compare as their values do. */
  lemma RangeScenarioOrder()
    ensures !Le(F100, F50) && Le(F100, F150) && Le(F150, F200) && !Le(F250, F200)
  {
    assert Magnitude(F50) == F50 && Magnitude(F100) == F100 && Magnitude(F150) == F150;
    assert Magnitude(F200) == F200 && Magnitude(F250) == F250;
    assert !IsNaN(F50) && !IsNaN(F100) && !IsNaN(F150) && !IsNaN(F200) && !IsNaN(F250);
  }

  /** Of 50.0, 150.0 and 250.0 read back, `Range(100.0, 200.0)` keeps only 150.0. */
  lemma RangeScenarioKeeps(previous: seq<u8>)
    ensures !Keeps(Range(F100, F200), None, previous, LittleEndian(F50, 8))
    ensures Keeps(Range(F100, F200), None, previous, LittleEndian(F150, 8))
    ensures !Keeps(Range(F100, F200), None, previous, LittleEndian(F250, 8))
  {
    FromBytesOfBits(F50);
    FromBytesOfBits(F150);
    FromBytesOfBits(F250);
    RangeScenarioOrder();
  }

  /** Under `Range(100.0, 200.0)` the doubles 50.0, 150.0 and 250.0 leave
      only the address holding 150.0. */
  lemma RangeScenario(mem: Memory, previous: seq<u8>)
    requires |previous| == 8
    requires ReadAt(mem, 0x1000, 8) == Ok(LittleEndian(F50, 8))
    requires ReadAt(mem, 0x2000, 8) == Ok(LittleEndian(F150, 8))
    requires ReadAt(mem, 0x3000, 8) == Ok(LittleEndian(F250, 8))
    ensures FilterPass([Entry(0x1000, previous), Entry(0x2000, previous), Entry(0x3000, previous)], mem, Range(F100, F200), None)
         == Ok([Entry(0x2000, LittleEndian(F150, 8))])
  {
    var results := [Entry(0x1000, previous), Entry(0x2000, previous), Entry(0x3000, previous)];
    var range := Range(F100, F200);
    var b50, b150, b250 := LittleEndian(F50, 8), LittleEndian(F150, 8), LittleEndian(F250, 8);
    RangeScenarioKeeps(previous);
    assert Reread(mem, results[0]) == Ok(b50);
    assert Reread(mem, results[1]) == Ok(b150);
    assert Reread(mem, results[2]) == Ok(b250);
    assert FilterUpTo(results, mem, range, None, 0) == Ok([]);
    assert FilterUpTo(results, mem, range, None, 1) == Ok([]);
    assert [] + [Entry(0x2000, b150)] == [Entry(0x2000, b150)];
    assert FilterUpTo(results, mem, range, None, 2) == Ok([Entry(0x2000, b150)]);
  }
}
