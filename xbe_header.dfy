/** `XBEHeader::from_file` (core/src/xbe.rs, and the identical parser of
    src/xiso.rs): the image base, the section count and the section-header
    address are little-endian u32 values at fixed offsets of the XBE image;
    the section table is `section_count` records of nine u32 values (36
    bytes each) starting at `section_header_ptr - image_base`. The file is
    a byte sequence and the read cursor an index into it; a read that runs
    past the end fails as `read_exact` does, and no header is produced. */
module XbeHeader {
  import opened Common

  const IMAGE_BASE_OFFSET: nat := 0x104
  const SECTION_COUNT_OFFSET: nat := 0x11C
  const SECTION_HEADER_PTR_OFFSET: nat := 0x120
  /** Nine u32 fields per section record. */
  const SECTION_RECORD_SIZE: nat := 36

  datatype SectionHeader = SectionHeader(
    flags: u32,
    virtualOffset: u32,
    virtualSize: u32,
    fileOffset: u32,
    fileSize: u32,
    namePtr: u32,
    reference: u32,
    headRefPtr: u32,
    tailRefPtr: u32)

  /** `XBESectionHeader::default()`. */
  const DEFAULT_SECTION := SectionHeader(0, 0, 0, 0, 0, 0, 0, 0, 0)

  datatype Header = Header(
    imageBase: u32,
    sectionCount: u32,
    sectionHeaderPtr: u32,
    sections: seq<SectionHeader>)
  {
    function Sections(): seq<SectionHeader>
    {
      sections
    }

    function SectionCount(): u32
    {
      sectionCount
    }
  }

  datatype HeaderError =
    /** `read_exact` reached the end of the file. */
    | UnexpectedEof
    /** `section_header_ptr - image_base` underflows: a panic in Rust. */
    | PointerUnderflow

  /** `u32::from_le_bytes`. */
  function LeU32(b0: u8, b1: u8, b2: u8, b3: u8): u32
  {
    b0 + 0x100 * b1 + 0x1_0000 * b2 + 0x100_0000 * b3
  }

  /** The little-endian u32 whose four bytes start at `p`. */
  function LeU32At(file: seq<u8>, p: nat): u32
    requires p + 4 <= |file|
  {
    LeU32(file[p], file[p + 1], file[p + 2], file[p + 3])
  }

  /** The four little-endian bytes of `v`. */
  function LeBytes(v: u32): (r: seq<u8>)
    ensures |r| == 4
  {
    [v % 0x100, (v / 0x100) % 0x100, (v / 0x100 / 0x100) % 0x100, v / 0x100 / 0x100 / 0x100]
  }

  /** `from_le_bytes` inverts the byte layout of a u32. */
  lemma LeBytesRoundTrip(v: u32, prefix: seq<u8>, suffix: seq<u8>)
    ensures LeU32At(prefix + LeBytes(v) + suffix, |prefix|) == v
  {
    var f := prefix + LeBytes(v) + suffix;
    var p := |prefix|;
    var q1 := v / 0x100;
    var q2 := q1 / 0x100;
    var q3 := q2 / 0x100;
    assert v == 0x100 * q1 + v % 0x100;
    assert q1 == 0x100 * q2 + q1 % 0x100;
    assert q2 == 0x100 * q3 + q2 % 0x100;
    assert f[p] == v % 0x100 && f[p + 1] == q1 % 0x100;
    assert f[p + 2] == q2 % 0x100 && f[p + 3] == q3;
  }

  /** A 36-byte section record at `p`, fields in declaration order. */
  function SectionAt(file: seq<u8>, p: nat): SectionHeader
    requires p + SECTION_RECORD_SIZE <= |file|
  {
    SectionHeader(
      LeU32At(file, p), LeU32At(file, p + 4), LeU32At(file, p + 8),
      LeU32At(file, p + 12), LeU32At(file, p + 16), LeU32At(file, p + 20),
      LeU32At(file, p + 24), LeU32At(file, p + 28), LeU32At(file, p + 32))
  }

  /** Field `k` (0 for `flags` … 8 for `tail_ref_ptr`) of a section. */
  function SectionField(s: SectionHeader, k: nat): u32
    requires k < 9
  {
    match k
    case 0 => s.flags
    case 1 => s.virtualOffset
    case 2 => s.virtualSize
    case 3 => s.fileOffset
    case 4 => s.fileSize
    case 5 => s.namePtr
    case 6 => s.reference
    case 7 => s.headRefPtr
    case _ => s.tailRefPtr
  }

  /** The `n` section records read from `start` on, or `None` when the
      table runs past the end of the file (no read happens when `n` is 0). */
  function SectionTable(file: seq<u8>, start: nat, n: nat): (r: Option<seq<SectionHeader>>)
    ensures r.Some? ==> |r.value| == n
  {
    if n > 0 && start + SECTION_RECORD_SIZE * n > |file| then None
    else Some(seq(n, i requires 0 <= i < n => SectionAt(file, start + SECTION_RECORD_SIZE * i)))
  }

  /** What `from_file` produces from a file's bytes. */
  function ParseHeader(file: seq<u8>): Result<Header, HeaderError>
  {
    if |file| < SECTION_HEADER_PTR_OFFSET + 4 then Err(UnexpectedEof)
    else
      var base := LeU32At(file, IMAGE_BASE_OFFSET);
      var count := LeU32At(file, SECTION_COUNT_OFFSET);
      var ptr := LeU32At(file, SECTION_HEADER_PTR_OFFSET);
      if ptr < base then Err(PointerUnderflow)
      else
        match SectionTable(file, ptr - base, count)
        case None => Err(UnexpectedEof)
        case Some(sections) => Ok(Header(base, count, ptr, sections))
  }

  /** `read_exact` of four bytes at the cursor. */
  method ReadU32(file: seq<u8>, cursor: nat) returns (r: Option<u32>, next: nat)
    ensures cursor + 4 <= |file| ==> r == Some(LeU32At(file, cursor))
    ensures cursor + 4 > |file| ==> r == None
    ensures next == cursor + 4
  {
    next := cursor + 4;
    if cursor + 4 > |file| {
      r := None;
    } else {
      r := Some(LeU32(file[cursor], file[cursor + 1], file[cursor + 2], file[cursor + 3]));
    }
  }

  /** The nine reads of one loop iteration of `from_file`. */
  method ReadSection(file: seq<u8>, cursor: nat) returns (r: Option<SectionHeader>, next: nat)
    ensures cursor + SECTION_RECORD_SIZE <= |file| ==> r == Some(SectionAt(file, cursor))
    ensures cursor + SECTION_RECORD_SIZE > |file| ==> r == None
    ensures next == cursor + SECTION_RECORD_SIZE
  {
    next := cursor + SECTION_RECORD_SIZE;
    var c := cursor;
    var fields: seq<u32> := [];
    while |fields| < 9
      invariant |fields| <= 9
      invariant c == cursor + 4 * |fields|
      invariant forall k :: 0 <= k < |fields| ==>
        cursor + 4 * k + 4 <= |file| && fields[k] == LeU32At(file, cursor + 4 * k)
    {
      var v, c' := ReadU32(file, c);
      if v.None? {
        r := None;
        return;
      }
      fields := fields + [v.value];
      c := c';
    }
    r := Some(SectionHeader(fields[0], fields[1], fields[2], fields[3], fields[4],
                            fields[5], fields[6], fields[7], fields[8]));
  }

  /** The loop of `from_file`: a vector of `n` default records, filled in
      place one record per iteration while the cursor advances. */
  method ReadSections(file: seq<u8>, start: nat, n: nat) returns (r: Option<seq<SectionHeader>>)
    ensures r == SectionTable(file, start, n)
  {
    var sections := seq(n, _ => DEFAULT_SECTION);
    var cursor := start;
    var i := 0;
    while i < n
      invariant 0 <= i <= n
      invariant |sections| == n
      invariant cursor == start + SECTION_RECORD_SIZE * i
      invariant i > 0 ==> cursor <= |file|
      invariant forall j :: 0 <= j < i ==>
        start + SECTION_RECORD_SIZE * j + SECTION_RECORD_SIZE <= |file| &&
        sections[j] == SectionAt(file, start + SECTION_RECORD_SIZE * j)
    {
      var s;
      s, cursor := ReadSection(file, cursor);
      if s.None? {
        assert start + SECTION_RECORD_SIZE * n >= start + SECTION_RECORD_SIZE * (i + 1);
        return None;
      }
      sections := sections[i := s.value];
      i := i + 1;
    }
    assert n > 0 ==> start + SECTION_RECORD_SIZE * (n - 1) + SECTION_RECORD_SIZE <= |file|;
    assert sections == seq(n, j requires 0 <= j < n => SectionAt(file, start + SECTION_RECORD_SIZE * j));
    r := Some(sections);
  }

  /** The three fixed reads of `from_file`: seek to 0x104 and read the
      image base, seek to 0x11C and read the section count and the
      section-header address that follows it. */
  method ReadFixedFields(file: seq<u8>) returns (r: Option<(u32, u32, u32)>)
    ensures |file| < SECTION_HEADER_PTR_OFFSET + 4 ==> r == None
    ensures |file| >= SECTION_HEADER_PTR_OFFSET + 4 ==>
      r == Some((LeU32At(file, IMAGE_BASE_OFFSET), LeU32At(file, SECTION_COUNT_OFFSET),
                 LeU32At(file, SECTION_HEADER_PTR_OFFSET)))
  {
    var base, count, ptr: Option<u32>;
    var cursor := IMAGE_BASE_OFFSET;
    base, cursor := ReadU32(file, cursor);
    if base.None? {
      return None;
    }
    cursor := SECTION_COUNT_OFFSET;
    count, cursor := ReadU32(file, cursor);
    if count.None? {
      return None;
    }
    ptr, cursor := ReadU32(file, cursor);
    if ptr.None? {
      return None;
    }
    r := Some((base.value, count.value, ptr.value));
  }

  /** `XBEHeader::from_file`: the fixed fields, then the table. */
  method FromFile(file: seq<u8>) returns (r: Result<Header, HeaderError>)
    ensures r == ParseHeader(file)
  {
    var fixed := ReadFixedFields(file);
    if fixed.None? {
      return Err(UnexpectedEof);
    }
    var (base, count, ptr) := fixed.value;
    if ptr < base {
      return Err(PointerUnderflow);
    }
    var sections := ReadSections(file, ptr - base, count);
    if sections.None? {
      return Err(UnexpectedEof);
    }
    ParseHeaderOf(file, base, count, ptr, sections.value);
    r := Ok(Header(base, count, ptr, sections.value));
  }

  /** The sections vector holds exactly `section_count` records, and the
      accessors return what was read. */
  lemma ParsedSectionCount(file: seq<u8>)
    requires ParseHeader(file).Ok?
    ensures |ParseHeader(file).value.Sections()| == ParseHeader(file).value.SectionCount()
    ensures ParseHeader(file).value.SectionCount() == LeU32At(file, SECTION_COUNT_OFFSET)
  {
  }

  /** Where each value comes from: `image_base` at 0x104, `section_count` at
      0x11C, `section_header_ptr` right after it at 0x120, and field `k` of
      section `i` at `(section_header_ptr - image_base) + 36 * i + 4 * k`. */
  lemma FieldOffsets(file: seq<u8>, i: nat, k: nat)
    requires ParseHeader(file).Ok?
    requires i < ParseHeader(file).value.sectionCount && k < 9
    ensures ParseHeader(file).value.imageBase == LeU32At(file, 0x104)
    ensures ParseHeader(file).value.sectionHeaderPtr == LeU32At(file, 0x120)
    ensures var h := ParseHeader(file).value;
            var p := (h.sectionHeaderPtr - h.imageBase) + 36 * i + 4 * k;
            p + 4 <= |file| && SectionField(h.sections[i], k) == LeU32At(file, p)
  {
    var h := ParseHeader(file).value;
    var start := h.sectionHeaderPtr - h.imageBase;
    assert start + 36 * i + 36 <= start + 36 * h.sectionCount;
    assert h.sections[i] == SectionAt(file, start + 36 * i);
  }

  /** Every failure is one of: a file too short for the fixed fields, a
      section-header address below the image base, or a section table that
      runs past the end of the file. */
  lemma ParseHeaderErrors(file: seq<u8>)
    ensures |file| < 0x124 ==> ParseHeader(file) == Err(UnexpectedEof)
    ensures ParseHeader(file) == Err(PointerUnderflow) <==>
      |file| >= 0x124 && LeU32At(file, 0x120) < LeU32At(file, 0x104)
    ensures ParseHeader(file).Ok? <==>
      |file| >= 0x124 && LeU32At(file, 0x120) >= LeU32At(file, 0x104) &&
      var count := LeU32At(file, 0x11C);
      (count == 0 || LeU32At(file, 0x120) - LeU32At(file, 0x104) + 36 * count <= |file|)
  {
  }

  lemma LeU32AtExtend(file: seq<u8>, more: seq<u8>, p: nat)
    requires p + 4 <= |file|
    ensures LeU32At(file + more, p) == LeU32At(file, p)
  {
    var f := file + more;
    assert f[p] == file[p] && f[p + 1] == file[p + 1] && f[p + 2] == file[p + 2] && f[p + 3] == file[p + 3];
  }

  lemma SectionTableExtend(file: seq<u8>, more: seq<u8>, start: nat, n: nat)
    requires SectionTable(file, start, n).Some?
    ensures SectionTable(file + more, start, n) == SectionTable(file, start, n)
  {
    var f := file + more;
    var t := SectionTable(file, start, n).value;
    var t' := SectionTable(f, start, n).value;
    forall i | 0 <= i < n
      ensures t'[i] == t[i]
    {
      var p := start + SECTION_RECORD_SIZE * i;
      assert p + SECTION_RECORD_SIZE <= start + SECTION_RECORD_SIZE * n;
      LeU32AtExtend(file, more, p);
      LeU32AtExtend(file, more, p + 4);
      LeU32AtExtend(file, more, p + 8);
      LeU32AtExtend(file, more, p + 12);
      LeU32AtExtend(file, more, p + 16);
      LeU32AtExtend(file, more, p + 20);
      LeU32AtExtend(file, more, p + 24);
      LeU32AtExtend(file, more, p + 28);
      LeU32AtExtend(file, more, p + 32);
    }
    assert t' == t;
  }

  /** `ParseHeader` on a file whose fixed fields and section table read as
      given. */
  lemma ParseHeaderOf(file: seq<u8>, base: u32, count: u32, ptr: u32, table: seq<SectionHeader>)
    requires |file| >= SECTION_HEADER_PTR_OFFSET + 4
    requires LeU32At(file, IMAGE_BASE_OFFSET) == base
    requires LeU32At(file, SECTION_COUNT_OFFSET) == count
    requires LeU32At(file, SECTION_HEADER_PTR_OFFSET) == ptr
    requires base <= ptr && SectionTable(file, ptr - base, count) == Some(table)
    ensures ParseHeader(file) == Ok(Header(base, count, ptr, table))
  {
  }

  /** The parser reads nothing beyond the bytes it needs: appending to a
      file that parses does not change the header. */
  lemma ParseIgnoresTrailingBytes(file: seq<u8>, more: seq<u8>)
    requires ParseHeader(file).Ok?
    ensures ParseHeader(file + more) == ParseHeader(file)
  {
    var h := ParseHeader(file).value;
    LeU32AtExtend(file, more, IMAGE_BASE_OFFSET);
    LeU32AtExtend(file, more, SECTION_COUNT_OFFSET);
    LeU32AtExtend(file, more, SECTION_HEADER_PTR_OFFSET);
    SectionTableExtend(file, more, h.sectionHeaderPtr - h.imageBase, h.sectionCount);
    ParseHeaderOf(file + more, h.imageBase, h.sectionCount, h.sectionHeaderPtr, h.sections);
  }
}
