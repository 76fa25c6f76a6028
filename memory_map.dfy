/** The memory map of cli/src/memory_mapping.rs: one mapping per XBE
    section from its virtual range to its place in the file, searched in
    order for the first mapping whose range holds an address. The range
    test is inclusive at the top (`address <= virtual_start + size`). The
    two u32 additions of the lookup panic on overflow in Rust; here they
    are the explicit error `Overflow`. */
module MemoryMapping {
  import opened Common
  import opened XbeHeader

  datatype Mapping = Mapping(fileStart: u32, virtualStart: u32, size: u32)

  datatype MemoryMap = MemoryMap(mappings: seq<Mapping>)

  datatype MapError =
    /** "The memory map does not contain the virtual address specified." */
    | NotMapped
    /** A u32 addition of the lookup overflowed (a panic in Rust). */
    | Overflow

  /** The inclusive range test, read as mathematics. */
  predicate Contains(m: Mapping, address: int)
  {
    m.virtualStart <= address <= m.virtualStart + m.size
  }

  /** `MemoryMap::new` keeps the mappings as given, in order. */
  function New(mappings: seq<Mapping>): (m: MemoryMap)
    ensures m.mappings == mappings
  {
    MemoryMap(mappings)
  }

  /** The mapping built for one section. */
  function SectionMapping(s: SectionHeader): Mapping
  {
    Mapping(s.fileOffset, s.virtualOffset, s.virtualSize)
  }

  /** `MemoryMap::from_xbe_header`: one mapping pushed per section. */
  method FromXbeHeader(header: Header) returns (m: MemoryMap)
    ensures |m.mappings| == |header.Sections()|
    ensures forall i :: 0 <= i < |m.mappings| ==>
      m.mappings[i].fileStart == header.Sections()[i].fileOffset &&
      m.mappings[i].virtualStart == header.Sections()[i].virtualOffset &&
      m.mappings[i].size == header.Sections()[i].virtualSize
  {
    var mappings: seq<Mapping> := [];
    var sections := header.Sections();
    for i := 0 to |sections|
      invariant |mappings| == i
      invariant forall j :: 0 <= j < i ==> mappings[j] == SectionMapping(sections[j])
    {
      mappings := mappings + [SectionMapping(sections[i])];
    }
    m := MemoryMap(mappings);
  }

  /** The lookup of `get_raw_offset` over `ms`, one mapping at a time:
      `virtual_start <= address` is tested first, so `virtual_start + size`
      is only computed (and can only overflow) for mappings that start at or
      below the address; `file_start + address` is computed before the
      subtraction and can overflow too. */
  function Resolve(ms: seq<Mapping>, address: u32): Result<u32, MapError>
  {
    if |ms| == 0 then Err(NotMapped)
    else
      var m := ms[0];
      if m.virtualStart > address then Resolve(ms[1..], address)
      else if m.virtualStart + m.size > MAX_U32 then Err(Overflow)
      else if address > m.virtualStart + m.size then Resolve(ms[1..], address)
      else if m.fileStart + address > MAX_U32 then Err(Overflow)
      else Ok(m.fileStart + address - m.virtualStart)
  }

  /** `MemoryMap::get_raw_offset`: a scan with an early return. */
  method GetRawOffset(memMap: MemoryMap, address: u32) returns (r: Result<u32, MapError>)
    ensures r == Resolve(memMap.mappings, address)
  {
    var ms := memMap.mappings;
    var i := 0;
    while i < |ms|
      invariant 0 <= i <= |ms|
      invariant Resolve(ms, address) == Resolve(ms[i..], address)
    {
      var m := ms[i];
      assert ms[i..][0] == m && ms[i..][1..] == ms[i + 1..];
      if m.virtualStart <= address {
        if m.virtualStart + m.size > MAX_U32 {
          return Err(Overflow);
        }
        if address <= m.virtualStart + m.size {
          if m.fileStart + address > MAX_U32 {
            return Err(Overflow);
          }
          return Ok(m.fileStart + address - m.virtualStart);
        }
      }
      i := i + 1;
    }
    r := Err(NotMapped);
  }

  /** An address no mapping contains is an error, never a default offset;
      and an address some mapping contains is never `NotMapped`. */
  lemma {:induction false} NotMappedIff(ms: seq<Mapping>, address: u32)
    ensures Resolve(ms, address) == Err(NotMapped) <==>
      forall m :: m in ms ==> !Contains(m, address)
  {
    if |ms| > 0 {
      if Contains(ms[0], address) {
        assert ms[0] in ms;
      } else {
        NotMappedIff(ms[1..], address);
        assert Resolve(ms, address) == Resolve(ms[1..], address);
        assert forall m :: m in ms ==> m == ms[0] || m in ms[1..];
        assert forall m :: m in ms[1..] ==> m in ms;
      }
    }
  }

  /** The first mapping that contains the address decides the result:
      `file_start + address - virtual_start` when the arithmetic fits, and
      no later mapping is consulted. */
  lemma {:induction false} FirstMatchWins(ms: seq<Mapping>, address: u32, k: nat)
    requires k < |ms| && Contains(ms[k], address)
    requires forall j :: 0 <= j < k ==> !Contains(ms[j], address)
    requires forall j :: 0 <= j < k && ms[j].virtualStart <= address ==> ms[j].virtualStart + ms[j].size <= MAX_U32
    requires ms[k].virtualStart + ms[k].size <= MAX_U32 && ms[k].fileStart + address <= MAX_U32
    ensures Resolve(ms, address) == Ok(ms[k].fileStart + address - ms[k].virtualStart)
  {
    if k > 0 {
      FirstMatchWins(ms[1..], address, k - 1);
    }
  }

  /** Mappings after the first one that contains the address play no part. */
  lemma {:induction false} LaterMappingsIgnored(ms: seq<Mapping>, rest: seq<Mapping>, address: u32)
    requires exists m :: m in ms && Contains(m, address)
    ensures Resolve(ms + rest, address) == Resolve(ms, address)
  {
    if |ms| > 0 {
      assert (ms + rest)[1..] == ms[1..] + rest;
      if !Contains(ms[0], address) {
        var m :| m in ms && Contains(m, address);
        assert m in ms[1..];
        LaterMappingsIgnored(ms[1..], rest, address);
      }
    }
  }

  /** A successful lookup lands inside some mapping's file range: the
      offset is `file_start + (address - virtual_start)` for a mapping that
      contains the address. */
  lemma {:induction false} ResolveSound(ms: seq<Mapping>, address: u32)
    requires Resolve(ms, address).Ok?
    ensures exists m :: (m in ms && Contains(m, address) &&
                         Resolve(ms, address).value == m.fileStart + (address - m.virtualStart))
  {
    if Contains(ms[0], address) && ms[0].virtualStart + ms[0].size <= MAX_U32 {
      assert ms[0] in ms;
    } else {
      ResolveSound(ms[1..], address);
      var m :| m in ms[1..] && Contains(m, address) &&
        Resolve(ms[1..], address).value == m.fileStart + (address - m.virtualStart);
      assert m in ms;
    }
  }

  /** The two mappings of the module's own test. */
  function Fixture(): MemoryMap
  {
    MemoryMap([Mapping(0x0, 0x0001_0000, 0xF60), Mapping(0x1000, 0x0001_1000, 0x16_0020)])
  }

  /** The test's lookup, and the inclusive top of the first range. */
  lemma FixtureLookups()
    ensures Resolve(Fixture().mappings, 0x4D5AC) == Ok(0x3D5AC)
    ensures Resolve(Fixture().mappings, 0x1_0F60) == Ok(0xF60)
    ensures Resolve(Fixture().mappings, 0x1_0F61) == Err(NotMapped)
    ensures Resolve(Fixture().mappings, 0xFFFF) == Err(NotMapped)
  {
    var ms := Fixture().mappings;
    assert ms[1..] == [Mapping(0x1000, 0x0001_1000, 0x16_0020)];
    assert ms[1..][1..] == [];
  }

  /** `MemoryMapping::contains_block`: `block_start < size` is tested first,
      so `size - block_start - block_size` is only computed (and can only
      underflow, a panic) when the block starts inside the mapping. */
  function ContainsBlock(m: Mapping, blockStart: u32, blockSize: u32): (r: Result<bool, MapError>)
    ensures blockStart >= m.size ==> r == Ok(false)
    ensures blockStart < m.size && blockStart + blockSize > m.size ==> r == Err(Overflow)
    ensures r == Ok(true) <==> blockStart < m.size && blockStart + blockSize <= m.size && blockStart + blockSize > 0
  {
    if blockStart >= m.size then Ok(false)
    else if m.size - blockStart < blockSize then Err(Overflow)
    else Ok(m.size - blockStart - blockSize < m.size)
  }
}
