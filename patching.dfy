/** The patch data model of core/src/patching/mod.rs: a `Patch` names an
    offset (raw, or virtual and translated through the memory map), the
    bytes to write there and, optionally, the bytes it replaces; a
    `PatchEntry` is a named list of patches that grows by `add_patch` and is
    replaced wholesale by `set_patches`. The earlier core/src/patching.rs
    declares the same `Patch`, `PatchEntry` and `HasPatches` (less the
    `description()` accessor and the hex field encodings) and is modelled by
    the same declarations. */
module Patching {
  import opened Common
  import opened JsonValue
  import opened Hex
  import opened Serde

  datatype PatchOffsetType = Raw | Virtual

  datatype Patch = Patch(
    offset: u32,
    offsetType: PatchOffsetType,
    replacementBytes: seq<u8>,
    originalBytes: Option<seq<u8>>)

  /** A unit variant is written as its name. */
  function OffsetTypeJson(t: PatchOffsetType): Json
  {
    match t
    case Raw => JString("Raw")
    case Virtual => JString("Virtual")
  }

  /** A `PatchOffsetType` field: the string naming one of the two unit
      variants; a missing key, a non-string and any other name are errors. */
  function OffsetTypeField(fields: map<string, Json>, key: string): (r: Result<PatchOffsetType, DecodeError>)
    ensures r.Ok? <==> key in fields && (fields[key] == JString("Raw") || fields[key] == JString("Virtual"))
    ensures r.Ok? ==> fields[key] == OffsetTypeJson(r.value)
    ensures key !in fields ==> r == Err(MissingField(key))
    ensures key in fields && !fields[key].JString? ==> r == Err(InvalidType(key))
    ensures key in fields && fields[key].JString? && !r.Ok? ==> r == Err(InvalidValue(key))
  {
    var s :- StringField(fields, key);
    if s == "Raw" then Ok(Raw)
    else if s == "Virtual" then Ok(Virtual)
    else Err(InvalidValue(key))
  }

  lemma OffsetTypeRoundTrip(t: PatchOffsetType, fields: map<string, Json>, key: string)
    requires key in fields && fields[key] == OffsetTypeJson(t)
    ensures OffsetTypeField(fields, key) == Ok(t)
  {
  }

  /** `original_bytes`: `de_hex_to_ovu8` on a string; a missing key takes
      the default `get_none`; an explicit `null` is not a string and is
      refused. */
  function OriginalBytesField(fields: map<string, Json>): (r: Result<Option<seq<u8>>, DecodeError>)
    ensures "original_bytes" !in fields ==> r == Ok(None)
    ensures "original_bytes" in fields && fields["original_bytes"] == JNull ==>
      r == Err(InvalidType("original_bytes"))
    ensures "original_bytes" in fields && r.Ok? ==>
      fields["original_bytes"].JString? && DeHexToOvu8(fields["original_bytes"].s) == Ok(r.value)
  {
    if "original_bytes" !in fields then Ok(GetNone())
    else
      var s :- StringField(fields, "original_bytes");
      match DeHexToOvu8(s)
      case Err(h) => Err(BadHex("original_bytes", h))
      case Ok(o) => Ok(o)
  }

  /** The serialised form of a `Patch`: offset and byte strings as hex
      strings, `original_bytes` left out when `None`. */
  function EncodePatch(p: Patch): (j: Json)
    ensures j.JObject?
    ensures "original_bytes" in j.fields <==> p.originalBytes.Some?
    ensures j.fields.Keys == {"offset", "offset_type", "replacement_bytes"} +
      (if p.originalBytes.Some? then {"original_bytes"} else {})
  {
    var fields := map[
      "offset" := U32Json(p.offset),
      "offset_type" := OffsetTypeJson(p.offsetType),
      "replacement_bytes" := BytesJson(p.replacementBytes)];
    if p.originalBytes.Some? then JObject(fields["original_bytes" := SeOvu8ToHex(p.originalBytes)])
    else JObject(fields)
  }

  /** The derived deserialiser of a `Patch`; keys it does not know are
      ignored. */
  function DecodePatch(j: Json): (r: Result<Patch, DecodeError>)
    ensures !j.JObject? ==> r == Err(NotAnObject)
    ensures r.Ok? ==> (j.JObject? && "offset" in j.fields && j.fields["offset"].JString? &&
                       DeHexToU32(j.fields["offset"].s) == Ok(r.value.offset))
    ensures r.Ok? ==> (j.JObject? && "replacement_bytes" in j.fields && j.fields["replacement_bytes"].JString? &&
                       DeHexToVu8(j.fields["replacement_bytes"].s) == Ok(r.value.replacementBytes))
    ensures r.Ok? && "original_bytes" !in j.fields ==> r.value.originalBytes == None
  {
    if !j.JObject? then Err(NotAnObject)
    else
      var offset :- HexU32Field(j.fields, "offset");
      var offsetType :- OffsetTypeField(j.fields, "offset_type");
      var replacementBytes :- HexBytesField(j.fields, "replacement_bytes");
      var originalBytes :- OriginalBytesField(j.fields);
      Ok(Patch(offset, offsetType, replacementBytes, originalBytes))
  }

  /** Every patch survives being written and read back, whether or not it
      records its original bytes. */
  lemma EncodePatchFields(p: Patch)
    ensures EncodePatch(p).fields["offset"] == U32Json(p.offset)
    ensures EncodePatch(p).fields["offset_type"] == OffsetTypeJson(p.offsetType)
    ensures EncodePatch(p).fields["replacement_bytes"] == BytesJson(p.replacementBytes)
    ensures p.originalBytes.Some? ==> EncodePatch(p).fields["original_bytes"] == BytesJson(p.originalBytes.value)
  {
  }

  lemma PatchRoundTrip(p: Patch)
    ensures DecodePatch(EncodePatch(p)) == Ok(p)
  {
    var f := EncodePatch(p).fields;
    EncodePatchFields(p);
    assert HexU32Field(f, "offset") == Ok(p.offset) by {
      U32RoundTrip(p.offset);
    }
    assert OffsetTypeField(f, "offset_type") == Ok(p.offsetType);
    assert HexBytesField(f, "replacement_bytes") == Ok(p.replacementBytes) by {
      Vu8RoundTrip(p.replacementBytes);
    }
    assert OriginalBytesField(f) == Ok(p.originalBytes) by {
      if p.originalBytes.Some? {
        Vu8RoundTrip(p.originalBytes.value);
      }
    }
  }

  /** A named list of patches (`PatchEntry` with its `HasPatches`
      implementation). */
  class PatchEntry {
    var name: string
    var description: string
    var altAuthor: Option<string>
    var patches: seq<Patch>

    /** `PatchEntry::new`. */
    constructor (name: string, description: string, altAuthor: Option<string>, patches: seq<Patch>)
      ensures Name() == name && Description() == description
      ensures this.altAuthor == altAuthor && GetPatches() == patches
    {
      this.name := name;
      this.description := description;
      this.altAuthor := altAuthor;
      this.patches := patches;
    }

    function Name(): string
      reads this
    {
      name
    }

    function Description(): string
      reads this
    {
      description
    }

    function GetPatches(): seq<Patch>
      reads this
    {
      patches
    }

    /** `add_patch`: push at the end. */
    method AddPatch(patch: Patch)
      modifies this`patches
      ensures |GetPatches()| == |old(GetPatches())| + 1
      ensures GetPatches()[..|old(GetPatches())|] == old(GetPatches())
      ensures GetPatches()[|old(GetPatches())|] == patch
    {
      patches := patches + [patch];
    }

    /** `set_patches`: replace the whole list; it never fails. */
    method SetPatches(newPatches: seq<Patch>) returns (r: Result<(), string>)
      modifies this`patches
      ensures GetPatches() == newPatches
      ensures r.Ok?
    {
      patches := newPatches;
      r := Ok(());
    }
  }
}
