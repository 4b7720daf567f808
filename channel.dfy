/** The positioned read/write channel into the target's address space
    (`/proc/<pid>/mem`), modelled as a fake backing store: the bytes at the
    addresses that can be read, and apart from them the set of addresses
    that accept a write (a read-only shared mapping reads but refuses
    writes). */
module Channel {
  import opened Bytes
  import opened Wrappers

  type Memory = map<u64, u8>

  /** Every byte of `[address, address + size)` can be reached. */
  predicate Accessible(mem: Memory, address: u64, size: nat)
  {
    forall a: int :: address <= a < address + size ==> a in mem
  }

  /** Every byte of `[address, address + size)` accepts a write. */
  predicate Writable(writable: set<u64>, address: u64, size: nat)
  {
    forall a: int :: address <= a < address + size ==> a in writable
  }

  /** `read_exact` of `size` bytes at `address`: all of them, or an error
      (a short read is an error, never a partial success). */
  function ReadAt(mem: Memory, address: u64, size: nat): (r: Result<seq<u8>>)
    ensures r.Ok? <==> Accessible(mem, address, size)
    ensures r.Ok? ==> |r.value| == size
    ensures r.Ok? ==> forall i {:trigger r.value[i]} :: 0 <= i < size ==> r.value[i] == mem[address + i]
    ensures r.Err? ==> r.error == IoError
  {
    if Accessible(mem, address, size) then Ok(RangeBytes(mem, address, size)) else Err(IoError)
  }

  /** The bytes of `[address, address + size)`, lowest address first. */
  function RangeBytes(mem: Memory, address: u64, size: nat): (bytes: seq<u8>)
    requires Accessible(mem, address, size)
    ensures |bytes| == size
    ensures forall i {:trigger bytes[i]} :: 0 <= i < size ==> bytes[i] == mem[address + i]
  {
    if size == 0 then [] else RangeBytes(mem, address, size - 1) + [mem[address + size - 1]]
  }

  /** `write_all` of `data` at `address` followed by a flush: the new memory,
      or an error with nothing written. Every byte written must be both
      mapped and writable. */
  function WriteAt(mem: Memory, writable: set<u64>, address: u64, data: seq<u8>): (r: Result<Memory>)
    ensures r.Ok? <==> Accessible(mem, address, |data|) && Writable(writable, address, |data|)
    ensures r.Ok? ==> r.value.Keys == mem.Keys
    ensures r.Ok? ==> forall a :: a in mem && !(address <= a < address + |data|) ==> r.value[a] == mem[a]
    ensures r.Err? ==> r.error == IoError
  {
    if Accessible(mem, address, |data|) && Writable(writable, address, |data|) then
      Ok(map a | a in mem :: if address <= a < address + |data| then data[a - address] else mem[a])
    else
      Err(IoError)
  }

  /** Reading back what was just written returns exactly those bytes. */
  lemma ReadAfterWrite(mem: Memory, writable: set<u64>, address: u64, data: seq<u8>)
    requires WriteAt(mem, writable, address, data).Ok?
    ensures ReadAt(WriteAt(mem, writable, address, data).value, address, |data|) == Ok(data)
  {
    var mem' := WriteAt(mem, writable, address, data).value;
    var r := ReadAt(mem', address, |data|);
    assert r.Ok?;
    assert r.value == data by {
      forall i | 0 <= i < |data|
        ensures r.value[i] == data[i]
      {
        assert mem'[address + i] == data[i];
      }
    }
  }

  /** A write leaves every read of a range it does not touch unchanged. */
  lemma WriteFrame(mem: Memory, writable: set<u64>, address: u64, data: seq<u8>, other: u64, size: nat)
    requires WriteAt(mem, writable, address, data).Ok?
    requires other + size <= address || address + |data| <= other
    ensures ReadAt(WriteAt(mem, writable, address, data).value, other, size) == ReadAt(mem, other, size)
  {
    var mem' := WriteAt(mem, writable, address, data).value;
    var r, r' := ReadAt(mem, other, size), ReadAt(mem', other, size);
    if r.Ok? {
      assert r'.Ok?;
      assert r'.value == r.value by {
        forall i | 0 <= i < size
          ensures r'.value[i] == r.value[i]
        {
          assert mem'[other + i] == mem[other + i];
        }
      }
    }
  }

  /** A read of a sub-range of a successful read yields `expected` exactly
      when those bytes of the larger read are `expected`. */
  lemma ReadWithin(mem: Memory, address: u64, size: nat, at: u64, expected: seq<u8>)
    requires ReadAt(mem, address, size).Ok?
    requires address <= at && at + |expected| <= address + size
    ensures ReadAt(mem, at, |expected|) == Ok(expected)
        <==> SliceIs(ReadAt(mem, address, size).value, at - address, expected)
  {
    var whole := ReadAt(mem, address, size).value;
    var part := ReadAt(mem, at, |expected|);
    assert part.Ok?;
    forall j | 0 <= j < |expected|
      ensures part.value[j] == whole[at - address + j]
    {
      assert whole[at - address + j] == mem[address + (at - address + j)];
    }
    if SliceIs(whole, at - address, expected) {
      assert part.value == expected;
    }
  }

  /** Writing back the bytes just read to a writable range changes nothing. */
  lemma WriteWhatWasRead(mem: Memory, writable: set<u64>, address: u64, size: nat)
    requires ReadAt(mem, address, size).Ok? && Writable(writable, address, size)
    ensures WriteAt(mem, writable, address, ReadAt(mem, address, size).value) == Ok(mem)
  {
    var data := ReadAt(mem, address, size).value;
    var mem' := WriteAt(mem, writable, address, data).value;
    forall a | a in mem
      ensures mem'[a] == mem[a]
    {
      if address <= a < address + size {
        assert data[a - address] == mem[address + (a - address)];
      }
    }
    assert mem' == mem;
  }
}
