/** Schema generation 1 of the patch-set document
    (core/src/patching/version1.rs): an entry carries a list of parameters
    beside its patches, and a patch's replacement is either literal bytes
    or the index of one of those parameters. Parameter values stay strings
    here; nothing in this generation parses them, checks them against
    their bounds or resolves an index.
    As in `PatchFormatV0`, the `…Object` and `…ReadBack` lemmas are steps of
    the round trips, split only to keep every proof small for the solver. */
module PatchFormatV1 {
  import opened Common
  import opened JsonValue
  import opened Hex
  import opened Serde
  import opened Patching

  /** `Endiannness` of core/src/patching/param.rs. */
  datatype Endianness = Little | Big

  /** Externally tagged: `{"Bytes": "0x.."}` or `{"Parameter": n}`. */
  datatype PatchReplacement = Bytes(bytes: seq<u8>) | Parameter(index: usize)

  datatype PatchV1 = PatchV1(offset: u32, offsetType: PatchOffsetType, replacement: PatchReplacement)

  datatype SerializedParameter = SerializedParameter(
    name: string,
    typeName: string,
    endianness: Endianness,
    default: Option<string>,
    min: Option<string>,
    max: Option<string>,
    value: string)

  datatype PatchEntryV1 = PatchEntryV1(
    name: string,
    description: string,
    altAuthor: Option<string>,
    parameters: seq<SerializedParameter>,
    patches: seq<PatchV1>)

  datatype PatchSetV1 = PatchSetV1(
    xbpatchsetSchema: u32,
    name: string,
    author: string,
    versionMajor: u8,
    versionMinor: u8,
    gameTitle: string,
    entries: seq<PatchEntryV1>)

  function EncodeReplacement(r: PatchReplacement): (j: Json)
    ensures j.JObject? && |j.fields| == 1
  {
    match r
    case Bytes(b) => JObject(map["Bytes" := BytesJson(b)])
    case Parameter(i) => JObject(map["Parameter" := JNumber(i)])
  }

  /** An externally tagged enum is an object with exactly one key, the
      variant's name. */
  function DecodeReplacement(j: Json): (r: Result<PatchReplacement, DecodeError>)
    ensures r.Ok? ==> j.JObject? && |j.fields| == 1
    ensures r.Ok? && r.value.Parameter? ==> "Bytes" !in j.fields && "Parameter" in j.fields &&
                                            j.fields["Parameter"] == JNumber(r.value.index)
    ensures r.Ok? && r.value.Bytes? ==> "Bytes" in j.fields && j.fields["Bytes"].JString? &&
                                        DeHexToVu8(j.fields["Bytes"].s) == Ok(r.value.bytes)
  {
    if !j.JObject? || |j.fields| != 1 then Err(InvalidType("replacement"))
    else if "Bytes" in j.fields then
      var b :- HexBytesField(j.fields, "Bytes");
      Ok(Bytes(b))
    else if "Parameter" in j.fields then
      var i :- UnsignedField(j.fields, "Parameter", MAX_USIZE);
      Ok(Parameter(i))
    else Err(InvalidValue("replacement"))
  }

  lemma ReplacementRoundTrip(r: PatchReplacement)
    ensures DecodeReplacement(EncodeReplacement(r)) == Ok(r)
  {
    if r.Bytes? {
      Vu8RoundTrip(r.bytes);
    }
  }

  /** `PatchV1` has no `original_bytes`: its object has exactly three keys. */
  function EncodePatchV1(p: PatchV1): (j: Json)
    ensures j.JObject? && j.fields.Keys == {"offset", "offset_type", "replacement"}
  {
    JObject(map[
      "offset" := U32Json(p.offset),
      "offset_type" := OffsetTypeJson(p.offsetType),
      "replacement" := EncodeReplacement(p.replacement)])
  }

  function DecodePatchV1(j: Json): (r: Result<PatchV1, DecodeError>)
    ensures r.Ok? ==> (j.JObject? && "offset" in j.fields && j.fields["offset"].JString? &&
                       DeHexToU32(j.fields["offset"].s) == Ok(r.value.offset))
  {
    if !j.JObject? then Err(NotAnObject)
    else
      var offset :- HexU32Field(j.fields, "offset");
      var offsetType :- OffsetTypeField(j.fields, "offset_type");
      var replacementJson :- Field(j.fields, "replacement");
      var replacement :- DecodeReplacement(replacementJson);
      Ok(PatchV1(offset, offsetType, replacement))
  }

  /** Proof step of `PatchV1RoundTrip`: an object whose three fields each read
      back decodes to the patch. */
  lemma DecodePatchV1Object(f: map<string, Json>, p: PatchV1)
    requires HexU32Field(f, "offset") == Ok(p.offset)
    requires OffsetTypeField(f, "offset_type") == Ok(p.offsetType)
    requires "replacement" in f && DecodeReplacement(f["replacement"]) == Ok(p.replacement)
    ensures DecodePatchV1(JObject(f)) == Ok(p)
  {
  }

  /** Proof step of `PatchV1RoundTrip`: the three fields of a patch, written
      by `EncodePatchV1`, read back. */
  lemma PatchV1FieldsReadBack(f: map<string, Json>, p: PatchV1)
    requires "offset" in f && f["offset"] == U32Json(p.offset)
    requires "offset_type" in f && f["offset_type"] == OffsetTypeJson(p.offsetType)
    requires "replacement" in f && f["replacement"] == EncodeReplacement(p.replacement)
    ensures HexU32Field(f, "offset") == Ok(p.offset)
    ensures OffsetTypeField(f, "offset_type") == Ok(p.offsetType)
    ensures DecodeReplacement(f["replacement"]) == Ok(p.replacement)
  {
    U32RoundTrip(p.offset);
    ReplacementRoundTrip(p.replacement);
  }

  lemma PatchV1RoundTrip(p: PatchV1)
    ensures DecodePatchV1(EncodePatchV1(p)) == Ok(p)
  {
    var f := EncodePatchV1(p).fields;
    PatchV1FieldsReadBack(f, p);
    DecodePatchV1Object(f, p);
  }

  /** An `original_bytes` key, which version 0 understood, is an unknown key
      here and is ignored, whatever it holds. */
  lemma PatchV1IgnoresOriginalBytes(p: PatchV1, extra: Json)
    ensures DecodePatchV1(JObject(EncodePatchV1(p).fields["original_bytes" := extra])) == Ok(p)
  {
    var f := EncodePatchV1(p).fields["original_bytes" := extra];
    assert f["offset"] == U32Json(p.offset);
    assert f["offset_type"] == OffsetTypeJson(p.offsetType);
    assert f["replacement"] == EncodeReplacement(p.replacement);
    PatchV1FieldsReadBack(f, p);
    DecodePatchV1Object(f, p);
  }

  function EndiannessJson(e: Endianness): Json
  {
    match e
    case Little => JString("Little")
    case Big => JString("Big")
  }

  function EndiannessField(fields: map<string, Json>, key: string): (r: Result<Endianness, DecodeError>)
    ensures r.Ok? ==> key in fields && fields[key] == EndiannessJson(r.value)
  {
    var s :- StringField(fields, key);
    if s == "Little" then Ok(Little)
    else if s == "Big" then Ok(Big)
    else Err(InvalidValue(key))
  }

  /** The type name is stored under the key `type`; every value is kept as
      the string it was written as. */
  function EncodeParameter(p: SerializedParameter): (j: Json)
    ensures j.JObject? && j.fields.Keys == {"name", "type", "endianness", "default", "min", "max", "value"}
    ensures j.fields["type"] == JString(p.typeName) && j.fields["value"] == JString(p.value)
  {
    JObject(map[
      "name" := JString(p.name),
      "type" := JString(p.typeName),
      "endianness" := EndiannessJson(p.endianness),
      "default" := OptionalString(p.default),
      "min" := OptionalString(p.min),
      "max" := OptionalString(p.max),
      "value" := JString(p.value)])
  }

  function DecodeParameter(j: Json): (r: Result<SerializedParameter, DecodeError>)
    ensures r.Ok? ==> j.JObject? && "type" in j.fields && j.fields["type"] == JString(r.value.typeName)
    ensures r.Ok? ==> "value" in j.fields && j.fields["value"] == JString(r.value.value)
  {
    if !j.JObject? then Err(NotAnObject)
    else
      var name :- StringField(j.fields, "name");
      var typeName :- StringField(j.fields, "type");
      var endianness :- EndiannessField(j.fields, "endianness");
      var default :- OptionalStringField(j.fields, "default");
      var min :- OptionalStringField(j.fields, "min");
      var max :- OptionalStringField(j.fields, "max");
      var value :- StringField(j.fields, "value");
      Ok(SerializedParameter(name, typeName, endianness, default, min, max, value))
  }

  lemma ParameterRoundTrip(p: SerializedParameter)
    ensures DecodeParameter(EncodeParameter(p)) == Ok(p)
  {
    var f := EncodeParameter(p).fields;
    assert StringField(f, "name") == Ok(p.name);
    assert EndiannessField(f, "endianness") == Ok(p.endianness);
    assert OptionalStringField(f, "default") == Ok(p.default);
    assert OptionalStringField(f, "min") == Ok(p.min);
    assert OptionalStringField(f, "max") == Ok(p.max);
  }

  function EncodeEntryV1(e: PatchEntryV1): (j: Json)
    ensures j.JObject? && j.fields.Keys == {"name", "description", "alt_author", "parameters", "patches"}
  {
    JObject(map[
      "name" := JString(e.name),
      "description" := JString(e.description),
      "alt_author" := OptionalString(e.altAuthor),
      "parameters" := JArray(EncodeArray(e.parameters, EncodeParameter)),
      "patches" := JArray(EncodeArray(e.patches, EncodePatchV1))])
  }

  function DecodeEntryV1(j: Json): (r: Result<PatchEntryV1, DecodeError>)
    ensures r.Ok? ==> j.JObject? && "parameters" in j.fields && j.fields["parameters"].JArray?
    ensures r.Ok? ==> |r.value.parameters| == |j.fields["parameters"].items|
  {
    if !j.JObject? then Err(NotAnObject)
    else
      var name :- StringField(j.fields, "name");
      var description :- StringField(j.fields, "description");
      var altAuthor :- OptionalStringField(j.fields, "alt_author");
      var parameters :- ArrayField(j.fields, "parameters", DecodeParameter);
      var patches :- ArrayField(j.fields, "patches", DecodePatchV1);
      Ok(PatchEntryV1(name, description, altAuthor, parameters, patches))
  }

  lemma ParametersRoundTrip(ps: seq<SerializedParameter>)
    ensures DecodeArray(EncodeArray(ps, EncodeParameter), DecodeParameter) == Ok(ps)
  {
    forall p | p in ps
      ensures DecodeParameter(EncodeParameter(p)) == Ok(p)
    {
      ParameterRoundTrip(p);
    }
    ArrayRoundTrip(ps, EncodeParameter, DecodeParameter);
  }

  lemma PatchesV1RoundTrip(ps: seq<PatchV1>)
    ensures DecodeArray(EncodeArray(ps, EncodePatchV1), DecodePatchV1) == Ok(ps)
  {
    forall p | p in ps
      ensures DecodePatchV1(EncodePatchV1(p)) == Ok(p)
    {
      PatchV1RoundTrip(p);
    }
    ArrayRoundTrip(ps, EncodePatchV1, DecodePatchV1);
  }

  /** Proof step of `EntryV1RoundTrip`: an object whose five fields each read
      back decodes to the entry. */
  lemma DecodeEntryV1Object(f: map<string, Json>, e: PatchEntryV1)
    requires StringField(f, "name") == Ok(e.name)
    requires StringField(f, "description") == Ok(e.description)
    requires OptionalStringField(f, "alt_author") == Ok(e.altAuthor)
    requires ArrayField(f, "parameters", DecodeParameter) == Ok(e.parameters)
    requires ArrayField(f, "patches", DecodePatchV1) == Ok(e.patches)
    ensures DecodeEntryV1(JObject(f)) == Ok(e)
  {
  }

  /** Proof step of `EntryV1RoundTrip`: the two arrays of an entry, as
      written, read back. */
  lemma EntryV1ArraysReadBack(e: PatchEntryV1)
    ensures ArrayField(EncodeEntryV1(e).fields, "parameters", DecodeParameter) == Ok(e.parameters)
    ensures ArrayField(EncodeEntryV1(e).fields, "patches", DecodePatchV1) == Ok(e.patches)
  {
    var f := EncodeEntryV1(e).fields;
    ParametersRoundTrip(e.parameters);
    PatchesV1RoundTrip(e.patches);
    assert f["parameters"] == JArray(EncodeArray(e.parameters, EncodeParameter));
    assert f["patches"] == JArray(EncodeArray(e.patches, EncodePatchV1));
  }

  /** Proof step of `EntryV1RoundTrip`: the string fields of an entry, as
      written, read back. */
  lemma EntryV1StringsReadBack(e: PatchEntryV1)
    ensures StringField(EncodeEntryV1(e).fields, "name") == Ok(e.name)
    ensures StringField(EncodeEntryV1(e).fields, "description") == Ok(e.description)
    ensures OptionalStringField(EncodeEntryV1(e).fields, "alt_author") == Ok(e.altAuthor)
  {
    var f := EncodeEntryV1(e).fields;
    assert f["name"] == JString(e.name);
    assert f["description"] == JString(e.description);
    assert f["alt_author"] == OptionalString(e.altAuthor);
  }

  lemma EntryV1RoundTrip(e: PatchEntryV1)
    ensures DecodeEntryV1(EncodeEntryV1(e)) == Ok(e)
  {
    EntryV1ArraysReadBack(e);
    EntryV1StringsReadBack(e);
    DecodeEntryV1Object(EncodeEntryV1(e).fields, e);
  }

  function EncodeSetV1(s: PatchSetV1): (j: Json)
    ensures j.JObject? && j.fields.Keys ==
      {"xbpatchset_schema", "name", "author", "version_major", "version_minor", "game_title", "entries"}
  {
    JObject(map[
      "xbpatchset_schema" := JNumber(s.xbpatchsetSchema),
      "name" := JString(s.name),
      "author" := JString(s.author),
      "version_major" := JNumber(s.versionMajor),
      "version_minor" := JNumber(s.versionMinor),
      "game_title" := JString(s.gameTitle),
      "entries" := JArray(EncodeArray(s.entries, EncodeEntryV1))])
  }

  function DecodeSetV1(j: Json): (r: Result<PatchSetV1, DecodeError>)
    ensures r.Ok? ==> j.JObject? && "entries" in j.fields && j.fields["entries"].JArray? &&
                      |r.value.entries| == |j.fields["entries"].items|
  {
    if !j.JObject? then Err(NotAnObject)
    else
      var schema :- UnsignedField(j.fields, "xbpatchset_schema", MAX_U32);
      var name :- StringField(j.fields, "name");
      var author :- StringField(j.fields, "author");
      var versionMajor :- UnsignedField(j.fields, "version_major", MAX_U8);
      var versionMinor :- UnsignedField(j.fields, "version_minor", MAX_U8);
      var gameTitle :- StringField(j.fields, "game_title");
      var entries :- ArrayField(j.fields, "entries", DecodeEntryV1);
      Ok(PatchSetV1(schema, name, author, versionMajor, versionMinor, gameTitle, entries))
  }

  /** Proof step of `SetV1RoundTrip`: an object whose seven fields each read
      back decodes to the set. */
  lemma DecodeSetV1Object(f: map<string, Json>, s: PatchSetV1)
    requires UnsignedField(f, "xbpatchset_schema", MAX_U32) == Ok(s.xbpatchsetSchema)
    requires StringField(f, "name") == Ok(s.name)
    requires StringField(f, "author") == Ok(s.author)
    requires UnsignedField(f, "version_major", MAX_U8) == Ok(s.versionMajor)
    requires UnsignedField(f, "version_minor", MAX_U8) == Ok(s.versionMinor)
    requires StringField(f, "game_title") == Ok(s.gameTitle)
    requires ArrayField(f, "entries", DecodeEntryV1) == Ok(s.entries)
    ensures DecodeSetV1(JObject(f)) == Ok(s)
  {
  }

  lemma EntriesV1RoundTrip(es: seq<PatchEntryV1>)
    ensures DecodeArray(EncodeArray(es, EncodeEntryV1), DecodeEntryV1) == Ok(es)
  {
    forall e | e in es
      ensures DecodeEntryV1(EncodeEntryV1(e)) == Ok(e)
    {
      EntryV1RoundTrip(e);
    }
    ArrayRoundTrip(es, EncodeEntryV1, DecodeEntryV1);
  }

  /** Proof step of `SetV1RoundTrip`: the six scalar fields of a set, as
      written, read back. */
  lemma SetV1ScalarsReadBack(s: PatchSetV1)
    ensures UnsignedField(EncodeSetV1(s).fields, "xbpatchset_schema", MAX_U32) == Ok(s.xbpatchsetSchema)
    ensures StringField(EncodeSetV1(s).fields, "name") == Ok(s.name)
    ensures StringField(EncodeSetV1(s).fields, "author") == Ok(s.author)
    ensures UnsignedField(EncodeSetV1(s).fields, "version_major", MAX_U8) == Ok(s.versionMajor)
    ensures UnsignedField(EncodeSetV1(s).fields, "version_minor", MAX_U8) == Ok(s.versionMinor)
    ensures StringField(EncodeSetV1(s).fields, "game_title") == Ok(s.gameTitle)
  {
    var f := EncodeSetV1(s).fields;
    assert f["xbpatchset_schema"] == JNumber(s.xbpatchsetSchema);
    assert f["name"] == JString(s.name);
    assert f["author"] == JString(s.author);
    assert f["version_major"] == JNumber(s.versionMajor);
    assert f["version_minor"] == JNumber(s.versionMinor);
    assert f["game_title"] == JString(s.gameTitle);
  }

  /** A version-1 patch set is written and read back unchanged, parameter
      strings and parameter indices included. */
  lemma SetV1RoundTrip(s: PatchSetV1)
    ensures DecodeSetV1(EncodeSetV1(s)) == Ok(s)
  {
    var f := EncodeSetV1(s).fields;
    assert ArrayField(f, "entries", DecodeEntryV1) == Ok(s.entries) by {
      EntriesV1RoundTrip(s.entries);
      assert f["entries"] == JArray(EncodeArray(s.entries, EncodeEntryV1));
    }
    SetV1ScalarsReadBack(s);
    DecodeSetV1Object(f, s);
  }
}
