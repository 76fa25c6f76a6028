/** `XBEWriter` and `PatchReport` of core/src/xbe.rs. The writer holds the
    open XBE file (its bytes, updated in place), the header read from it
    and the memory map built from that header; a patch is written at its
    raw offset, or at its virtual offset translated through the map. */
module XbeWriting {
  import opened Common
  import opened XbeHeader
  import opened MemoryMapping
  import opened Patching

  function Max(a: nat, b: nat): nat
  {
    if a < b then b else a
  }

  /** The file after a seek to `off` and a `write_all` of `data`: the bytes
      `[off, off + |data|)` hold `data`, every other byte keeps its value,
      and a write that starts beyond the end first fills the gap with
      zeros. Writing nothing changes nothing, not even the length. */
  function Overwrite(f: seq<u8>, off: nat, data: seq<u8>): (r: seq<u8>)
    ensures |data| == 0 ==> r == f
    ensures |data| > 0 ==> |r| == Max(|f|, off + |data|)
    ensures forall i :: off <= i < off + |data| ==> i < |r| && r[i] == data[i - off]
    ensures forall i :: 0 <= i < |r| && !(off <= i < off + |data|) ==>
      (i < |f| && r[i] == f[i]) || (|f| <= i < off && r[i] == 0)
  {
    if |data| == 0 then f
    else
      var padded := if off > |f| then f + Zeros(off - |f|) else f;
      var tail := if off + |data| < |padded| then padded[off + |data|..] else [];
      padded[..off] + data + tail
  }

  /** Writing the same bytes twice at the same place is writing them once,
      so re-applying a patch is harmless. */
  lemma OverwriteIdempotent(f: seq<u8>, off: nat, data: seq<u8>)
    ensures Overwrite(Overwrite(f, off, data), off, data) == Overwrite(f, off, data)
  {
    var once := Overwrite(f, off, data);
    var twice := Overwrite(once, off, data);
    if |data| > 0 {
      assert |twice| == |once|;
      forall i | 0 <= i < |once|
        ensures twice[i] == once[i]
      {
      }
    }
  }

  /** A patch that records the bytes it replaces can be undone: writing
      `original_bytes` back over a patch inside the file restores the file. */
  lemma RestoreOriginal(f: seq<u8>, off: nat, data: seq<u8>)
    requires off + |data| <= |f|
    ensures Overwrite(Overwrite(f, off, data), off, f[off..off + |data|]) == f
  {
    var patched := Overwrite(f, off, data);
    var restored := Overwrite(patched, off, f[off..off + |data|]);
    if |data| > 0 {
      assert |restored| == |f|;
      forall i | 0 <= i < |f|
        ensures restored[i] == f[i]
      {
        if off <= i < off + |data| {
          assert restored[i] == f[off..off + |data|][i - off];
        }
      }
    }
  }

  /** The file offset a patch is written at: `Raw` offsets as they are,
      `Virtual` ones through `get_raw_offset`. */
  function TargetOffset(memMap: MemoryMap, p: Patch): (r: Result<u32, MapError>)
    ensures p.offsetType == Raw ==> r == Ok(p.offset)
    ensures p.offsetType == Virtual ==> r == Resolve(memMap.mappings, p.offset)
  {
    match p.offsetType
    case Raw => Ok(p.offset)
    case Virtual => Resolve(memMap.mappings, p.offset)
  }

  /** The file after one attempt of `apply_patch`: unchanged when the
      offset cannot be translated. */
  function ApplyOne(f: seq<u8>, memMap: MemoryMap, p: Patch): seq<u8>
  {
    match TargetOffset(memMap, p)
    case Ok(off) => Overwrite(f, off, p.replacementBytes)
    case Err(_) => f
  }

  /** The file after every patch of `ps` was attempted, in order. */
  function ApplyAll(f: seq<u8>, memMap: MemoryMap, ps: seq<Patch>): seq<u8>
  {
    if |ps| == 0 then f
    else ApplyOne(ApplyAll(f, memMap, ps[..|ps| - 1]), memMap, ps[|ps| - 1])
  }

  /** How many patches of `ps` fail to translate. */
  function FailureCount(memMap: MemoryMap, ps: seq<Patch>): (n: nat)
    ensures n <= |ps|
  {
    if |ps| == 0 then 0
    else FailureCount(memMap, ps[..|ps| - 1]) + (if TargetOffset(memMap, ps[|ps| - 1]).Err? then 1 else 0)
  }

  /** No failures exactly when every patch's offset resolves. */
  lemma {:induction false} NoFailuresIff(memMap: MemoryMap, ps: seq<Patch>)
    ensures FailureCount(memMap, ps) == 0 <==>
      forall i :: 0 <= i < |ps| ==> TargetOffset(memMap, ps[i]).Ok?
  {
    if |ps| > 0 {
      var init := ps[..|ps| - 1];
      NoFailuresIff(memMap, init);
      assert forall i :: 0 <= i < |init| ==> init[i] == ps[i];
    }
  }

  /** Patches that all fail leave the file as it was. */
  lemma {:induction false} AllFailedUnchanged(f: seq<u8>, memMap: MemoryMap, ps: seq<Patch>)
    requires forall i :: 0 <= i < |ps| ==> TargetOffset(memMap, ps[i]).Err?
    ensures ApplyAll(f, memMap, ps) == f
  {
    if |ps| > 0 {
      var init := ps[..|ps| - 1];
      assert forall i :: 0 <= i < |init| ==> init[i] == ps[i];
      AllFailedUnchanged(f, memMap, init);
    }
  }

  /** The counters of one `apply_patches` run. `total` is never written:
      it stays at its default 0. */
  class PatchReport {
    var successes: u32
    var failures: u32
    var total: u32

    /** `PatchReport::default()`. */
    constructor ()
      ensures successes == 0 && failures == 0 && total == 0
    {
      successes := 0;
      failures := 0;
      total := 0;
    }

    /** `patch_successful`: holds when no patch failed, whatever the
        number of successes. */
    predicate PatchSuccessful(): (b: bool)
      reads this
      ensures b <==> failures == 0
    {
      failures == 0
    }

    /** `add_success`; the `+= 1` panics at the u32 maximum. */
    method AddSuccess()
      requires successes < MAX_U32
      modifies this`successes
      ensures successes == old(successes) + 1
      ensures failures == old(failures) && total == old(total)
    {
      successes := successes + 1;
    }

    /** `add_failure`; the `+= 1` panics at the u32 maximum. */
    method AddFailure()
      requires failures < MAX_U32
      modifies this`failures
      ensures failures == old(failures) + 1
      ensures successes == old(successes) && total == old(total)
    {
      failures := failures + 1;
    }

    /** `increment_from_bool`: `add_success` for true, `add_failure` for false. */
    method IncrementFromBool(success: bool)
      requires success ==> successes < MAX_U32
      requires !success ==> failures < MAX_U32
      modifies this`successes, this`failures
      ensures success ==> successes == old(successes) + 1 && failures == old(failures)
      ensures !success ==> failures == old(failures) + 1 && successes == old(successes)
      ensures total == old(total)
    {
      if success {
        successes := successes + 1;
      } else {
        failures := failures + 1;
      }
    }
  }

  class XbeWriter {
    /** The bytes of the open XBE file. */
    var contents: seq<u8>
    var header: Header
    var memMap: MemoryMap

    constructor (contents: seq<u8>, header: Header, memMap: MemoryMap)
      ensures this.contents == contents && this.header == header && this.memMap == memMap
    {
      this.contents := contents;
      this.header := header;
      this.memMap := memMap;
    }

    /** `XBEWriter::new` on a file that opened: read the header, then build
        the map from its sections. A header that cannot be read is the
        error. */
    static method Open(file: seq<u8>) returns (r: Result<XbeWriter, HeaderError>)
      ensures r.Err? <==> ParseHeader(file).Err?
      ensures r.Err? ==> r.error == ParseHeader(file).error
      ensures r.Ok? ==> fresh(r.value) && r.value.contents == file
      ensures r.Ok? ==> r.value.header == ParseHeader(file).value
      ensures r.Ok? ==> (|r.value.memMap.mappings| == |r.value.header.sections| &&
                         forall i :: 0 <= i < |r.value.header.sections| ==>
                           r.value.memMap.mappings[i] == SectionMapping(r.value.header.sections[i]))
    {
      var header := FromFile(file);
      if header.Err? {
        return Err(header.error);
      }
      var memMap := FromXbeHeader(header.value);
      var w := new XbeWriter(file, header.value, memMap);
      r := Ok(w);
    }

    /** `apply_patch`: a translation error returns before anything is
        written; otherwise `replacement_bytes` overwrite the file at the
        offset and nothing else changes. */
    method ApplyPatch(p: Patch) returns (r: Result<(), MapError>)
      modifies this`contents
      ensures TargetOffset(memMap, p).Err? ==>
        r == Err(TargetOffset(memMap, p).error) && contents == old(contents)
      ensures TargetOffset(memMap, p).Ok? ==>
        r.Ok? && contents == Overwrite(old(contents), TargetOffset(memMap, p).value, p.replacementBytes)
    {
      var offset: u32;
      match p.offsetType {
        case Raw =>
          offset := p.offset;
        case Virtual =>
          var t := GetRawOffset(memMap, p.offset);
          if t.Err? {
            return Err(t.error);
          }
          offset := t.value;
      }
      contents := Overwrite(contents, offset, p.replacementBytes);
      r := Ok(());
    }

    /** `apply_patches`: every patch is attempted in order, a failure is
        counted and the loop goes on, and the result is always `Ok`. An
        offset translation that overflows panics in Rust, and a counter
        cannot pass the u32 maximum, so neither is allowed here. */
    method ApplyPatches(entry: PatchEntry) returns (r: Result<PatchReport, MapError>)
      requires |entry.GetPatches()| <= MAX_U32
      requires forall i :: 0 <= i < |entry.GetPatches()| ==>
        TargetOffset(memMap, entry.GetPatches()[i]) != Err(Overflow)
      modifies this`contents
      ensures r.Ok? && fresh(r.value)
      ensures r.value.successes + r.value.failures == |entry.GetPatches()|
      ensures r.value.failures == FailureCount(memMap, entry.GetPatches())
      ensures r.value.PatchSuccessful() <==>
        forall i :: 0 <= i < |entry.GetPatches()| ==> TargetOffset(memMap, entry.GetPatches()[i]).Ok?
      ensures r.value.total == 0
      ensures contents == ApplyAll(old(contents), memMap, entry.GetPatches())
    {
      var report := new PatchReport();
      var ps := entry.GetPatches();
      var i := 0;
      while i < |ps|
        invariant 0 <= i <= |ps|
        invariant report.successes + report.failures == i
        invariant report.failures == FailureCount(memMap, ps[..i])
        invariant report.total == 0
        invariant contents == ApplyAll(old(contents), memMap, ps[..i])
      {
        assert ps[..i + 1][..i] == ps[..i];
        var result := ApplyPatch(ps[i]);
        match result {
          case Ok(_) =>
            report.successes := report.successes + 1;
          case Err(_) =>
            report.failures := report.failures + 1;
        }
        i := i + 1;
      }
      assert ps[..|ps|] == ps;
      NoFailuresIff(memMap, ps);
      r := Ok(report);
    }
  }
}
