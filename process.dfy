// The process handle: one attached target, its region list, the working
// set of candidate addresses and the user's saved addresses.

module Process {
  import opened Bytes
  import opened Wrappers
  import opened Channel
  import opened Region
  import opened Search
  import opened Filter
  import opened Float64

  /** `entry` lies wholly inside a region the pattern scan reads. */
  predicate InRegion(regions: seq<MemoryRegion>, entry: Entry)
  {
    exists k :: 0 <= k < |regions| && Scanned(regions[k]) &&
                regions[k].start <= entry.address && entry.address + |entry.bytes| <= regions[k].end
  }

  /** The working set a search leaves: each match paired with the searched
      bytes. */
  function Tagged(matches: seq<u64>, bytes: seq<u8>): (entries: seq<Entry>)
    ensures |entries| == |matches|
    ensures forall i :: 0 <= i < |matches| ==> entries[i] == Entry(matches[i], bytes)
    ensures Addresses(entries) == matches
  {
    var entries := seq(|matches|, i requires 0 <= i < |matches| => Entry(matches[i], bytes));
    assert Addresses(entries) == matches;
    entries
  }

  /** A fresh search's working set holds exactly the searched bytes at every
      address, and every address lies inside a scanned region. */
  lemma SearchResultsFresh(regions: seq<MemoryRegion>, mem: Memory, pattern: seq<u8>)
    requires Ordered(regions)
    ensures Fresh(Tagged(Matches(regions, mem, pattern), pattern), mem)
    ensures forall j :: 0 <= j < |Matches(regions, mem, pattern)| ==>
              InRegion(regions, Tagged(Matches(regions, mem, pattern), pattern)[j])
  {
    var matches := Matches(regions, mem, pattern);
    var entries := Tagged(matches, pattern);
    forall j | 0 <= j < |matches|
      ensures Reread(mem, entries[j]) == Ok(entries[j].bytes) && InRegion(regions, entries[j])
    {
      MatchesSound(regions, mem, pattern, matches[j]);
    }
  }

  /** Filtering with `Unchanged` right after a search, memory untouched,
      keeps every match. */
  lemma UnchangedAfterSearch(regions: seq<MemoryRegion>, mem: Memory, pattern: seq<u8>, value: Option<seq<u8>>)
    requires Ordered(regions)
    ensures FilterPass(Tagged(Matches(regions, mem, pattern), pattern), mem, Unchanged, value)
         == Ok(Tagged(Matches(regions, mem, pattern), pattern))
  {
    var entries := Tagged(Matches(regions, mem, pattern), pattern);
    SearchResultsFresh(regions, mem, pattern);
    UnchangedKeepsFresh(entries, mem, value, |entries|);
    assert entries[..|entries|] == entries;
  }

  /** A filter pass keeps the working set inside the scanned regions: it
      only drops entries and keeps each survivor's address and length. */
  lemma FilterStaysInRegions(regions: seq<MemoryRegion>, results: seq<Entry>, mem: Memory, filter: SearchFilter, value: Option<seq<u8>>)
    requires forall i :: 0 <= i < |results| ==> InRegion(regions, results[i])
    requires FilterPass(results, mem, filter, value).Ok?
    ensures forall j :: 0 <= j < |FilterPass(results, mem, filter, value).value| ==>
              InRegion(regions, FilterPass(results, mem, filter, value).value[j])
  {
    var kept := FilterPass(results, mem, filter, value).value;
    forall j | 0 <= j < |kept|
      ensures InRegion(regions, kept[j])
    {
      FilterSound(results, mem, filter, value, |results|, j);
      var i :| 0 <= i < |results| && Kept(results[i], kept[j], mem, filter, value);
      assert InRegion(regions, results[i]);
    }
  }

  /** An attached process. `mem` stands for the target's address space as
      seen through its memory file and `writable` for the addresses that file
      accepts writes to; the target itself may change both between any two
      calls. */
  class ProcessMemory {
    const pid: u32
    const regions: seq<MemoryRegion>
    var mem: Memory
    var writable: set<u64>
    var searchResults: seq<Entry>
    var savedAddresses: seq<(u64, string)>

    /** Every candidate address lies inside a region the scan reads. */
    predicate Valid()
      reads this
    {
      forall j :: 0 <= j < |searchResults| ==> InRegion(regions, searchResults[j])
    }

    constructor (pid: u32, regions: seq<MemoryRegion>, mem: Memory, writable: set<u64>)
      ensures this.pid == pid && this.regions == regions && this.mem == mem && this.writable == writable
      ensures searchResults == [] && savedAddresses == []
      ensures Valid()
    {
      this.pid := pid;
      this.regions := regions;
      this.mem := mem;
      this.writable := writable;
      searchResults := [];
      savedAddresses := [];
    }

    /** Attaching: the memory file must open (`memOpened`), then the region
        listing must be read (`listing`, `None` when it cannot be opened) and
        parsed; the working set and the saved list start empty. */
    static method New(pid: u32, memOpened: bool, listing: Option<seq<string>>, mem: Memory, writable: set<u64>) returns (r: Result<ProcessMemory>)
      ensures !memOpened ==> r == Err(IoError)
      ensures memOpened && listing.None? ==> r == Err(IoError)
      ensures memOpened && listing.Some? ==> (r.Ok? <==> ParseLines(listing.value).Ok?)
      ensures memOpened && listing.Some? && r.Err? ==> r.error == ParseIntError
      ensures r.Ok? ==> fresh(r.value) && r.value.Valid() && r.value.pid == pid && r.value.mem == mem && r.value.writable == writable &&
                        listing.Some? && r.value.regions == ParseLines(listing.value).value &&
                        r.value.searchResults == [] && r.value.savedAddresses == []
    {
      if !memOpened {
        return Err(IoError);
      }
      if listing.None? {
        return Err(IoError);
      }
      var parsed := ParseMaps(listing.value);
      if parsed.Err? {
        return Err(parsed.error);
      }
      var process := new ProcessMemory(pid, parsed.value, mem, writable);
      r := Ok(process);
    }

    /** Reads `size` bytes at `address`: all of them, or an error. */
    method ReadMemory(address: u64, size: nat) returns (r: Result<seq<u8>>)
      ensures r == ReadAt(mem, address, size)
      ensures r.Ok? ==> |r.value| == size
    {
      r := ReadAt(mem, address, size);
    }

    /** Writes `data` at `address`; afterwards the same bytes read back, and
        nothing else of the process changes. */
    method WriteMemory(address: u64, data: seq<u8>) returns (r: Result<()>)
      modifies this
      ensures r.Ok? <==> WriteAt(old(mem), writable, address, data).Ok?
      ensures r.Ok? ==> mem == WriteAt(old(mem), writable, address, data).value && ReadAt(mem, address, |data|) == Ok(data)
      ensures r.Err? ==> r.error == IoError && mem == old(mem)
      ensures writable == old(writable) && searchResults == old(searchResults) && savedAddresses == old(savedAddresses)
    {
      var written := WriteAt(mem, writable, address, data);
      if written.Err? {
        return Err(written.error);
      }
      mem := written.value;
      ReadAfterWrite(old(mem), writable, address, data);
      r := Ok(());
    }

    /** Scans every readable region for `pattern`; the matches become the
        working set, each with the pattern as its snapshot. */
    method SearchPattern(pattern: seq<u8>) returns (r: Result<seq<u64>>)
      requires Ordered(regions)
      requires |pattern| > 0
      modifies this
      ensures r == Ok(Matches(regions, mem, pattern))
      ensures searchResults == Tagged(r.value, pattern)
      ensures Valid() && Fresh(searchResults, mem)
      ensures mem == old(mem) && writable == old(writable) && savedAddresses == old(savedAddresses)
    {
      var matches := Search.SearchPattern(regions, mem, pattern);
      searchResults := Tagged(matches, pattern);
      SearchResultsFresh(regions, mem, pattern);
      r := Ok(matches);
    }

    /** Scans for the in-memory bytes of a typed value; the matches become
        the working set, each with those bytes as its snapshot. */
    method SearchValue(value: ScanValue) returns (r: Result<seq<u64>>)
      requires Ordered(regions)
      modifies this
      ensures r == Ok(Matches(regions, mem, BytesOf(value)))
      ensures searchResults == Tagged(r.value, BytesOf(value))
      ensures Valid() && Fresh(searchResults, mem)
      ensures mem == old(mem) && writable == old(writable) && savedAddresses == old(savedAddresses)
    {
      var matches := Search.SearchValue(regions, mem, value);
      var bytes := BytesOf(value);
      searchResults := Tagged(matches, bytes);
      SearchResultsFresh(regions, mem, bytes);
      r := Ok(matches);
    }

    /** Re-reads every candidate and keeps those the filter accepts, in
        order, with their fresh bytes; the first unreadable candidate aborts the pass and
        leaves the working set as it was. */
    method FilterResults(filter: SearchFilter, value: Option<seq<u8>>) returns (r: Result<seq<u64>>)
      requires Valid()
      modifies this
      ensures r.Ok? <==> FilterPass(old(searchResults), mem, filter, value).Ok?
      ensures r.Ok? ==> searchResults == FilterPass(old(searchResults), mem, filter, value).value &&
                        r.value == Addresses(searchResults) && Fresh(searchResults, mem) &&
                        Narrows(searchResults, old(searchResults)) &&
                        |searchResults| <= |old(searchResults)|
      ensures r.Err? ==> r.error == IoError && searchResults == old(searchResults)
      ensures Valid()
      ensures mem == old(mem) && writable == old(writable) && savedAddresses == old(savedAddresses)
    {
      var pass := Refilter(searchResults, filter, value);
      if pass.Err? {
        return Err(pass.error);
      }
      FilterStaysInRegions(regions, searchResults, mem, filter, value);
      FilterFresh(searchResults, mem, filter, value);
      FilterNarrows(searchResults, mem, filter, value);
      FilterShrinks(searchResults, mem, filter, value, |searchResults|);
      searchResults := pass.value;
      r := Ok(Addresses(pass.value));
    }

    /** The loop of a filter pass: re-reads each entry in order and collects
        the survivors; the first failed read ends the pass with that error. */
    method Refilter(results: seq<Entry>, filter: SearchFilter, value: Option<seq<u8>>) returns (r: Result<seq<Entry>>)
      ensures r == FilterPass(results, mem, filter, value)
    {
      var kept: seq<Entry> := [];
      for k := 0 to |results|
        invariant FilterUpTo(results, mem, filter, value, k) == Ok(kept)
      {
        var entry := results[k];
        var current := ReadMemory(entry.address, |entry.bytes|);
        if current.Err? {
          FilterErrorStops(results, mem, filter, value, k + 1, |results|);
          return Err(current.error);
        }
        var bytes := current.value;
        var keep := false;
        match filter {
          case Exact => keep := value.Some? && bytes == value.value;
          case Changed => keep := bytes != entry.bytes;
          case Unchanged => keep := bytes == entry.bytes;
          case Increased => keep := LexLess(entry.bytes, bytes);
          case Decreased => keep := LexLess(bytes, entry.bytes);
          case Range(min, max) =>
            if |bytes| == 8 {
              var v := FromBytes(bytes);
              keep := Le(min, v) && Le(v, max);
            }
        }
        assert keep == Keeps(filter, value, entry.bytes, bytes);
        if keep {
          kept := kept + [Entry(entry.address, bytes)];
        }
      }
      r := Ok(kept);
    }

    /** Saving appends the pair to the saved list, which keeps every earlier
        pair in order. */
    method SaveAddress(address: u64, description: string)
      modifies this
      ensures GetSavedAddresses() == old(GetSavedAddresses()) + [(address, description)]
      ensures mem == old(mem) && writable == old(writable) && searchResults == old(searchResults)
    {
      savedAddresses := savedAddresses + [(address, description)];
    }

    function GetSavedAddresses(): seq<(u64, string)>
      reads this
    {
      savedAddresses
    }
  }
}
