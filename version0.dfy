/** Schema generation 0 of the patch-set document
    (core/src/patching/version0.rs): a set holds entries, an entry holds
    literal byte patches and no parameters. `PatchV0` carries the same fields
    and the same field attributes as `Patch` of core/src/patching/mod.rs,
    so it is that type.
    The round trips are proved in steps: each `…Object` lemma says that an
    object decodes once each of its fields reads back, and each `…ReadBack`
    lemma reads back a group of fields. They are split only to keep every
    proof small for the solver. */
module PatchFormatV0 {
  import opened Common
  import opened JsonValue
  import opened Serde
  import opened Patching

  type PatchV0 = Patch

  datatype PatchEntryV0 = PatchEntryV0(
    name: string,
    description: string,
    altAuthor: Option<string>,
    patches: seq<PatchV0>)

  datatype PatchSetV0 = PatchSetV0(
    xbpatchsetSchema: u32,
    name: string,
    author: string,
    versionMajor: u8,
    versionMinor: u8,
    gameTitle: string,
    entries: seq<PatchEntryV0>)

  function EncodeEntryV0(e: PatchEntryV0): (j: Json)
    ensures j.JObject? && j.fields.Keys == {"name", "description", "alt_author", "patches"}
  {
    JObject(map[
      "name" := JString(e.name),
      "description" := JString(e.description),
      "alt_author" := OptionalString(e.altAuthor),
      "patches" := JArray(EncodeArray(e.patches, EncodePatch))])
  }

  function DecodeEntryV0(j: Json): (r: Result<PatchEntryV0, DecodeError>)
    ensures r.Ok? ==> j.JObject? && "patches" in j.fields && j.fields["patches"].JArray?
    ensures r.Ok? ==> |r.value.patches| == |j.fields["patches"].items|
  {
    if !j.JObject? then Err(NotAnObject)
    else
      var name :- StringField(j.fields, "name");
      var description :- StringField(j.fields, "description");
      var altAuthor :- OptionalStringField(j.fields, "alt_author");
      var patches :- ArrayField(j.fields, "patches", DecodePatch);
      Ok(PatchEntryV0(name, description, altAuthor, patches))
  }

  function EncodeSetV0(s: PatchSetV0): (j: Json)
    ensures j.JObject? && j.fields.Keys ==
      {"xbpatchset_schema", "name", "author", "version_major", "version_minor", "game_title", "entries"}
  {
    JObject(map[
      "xbpatchset_schema" := JNumber(s.xbpatchsetSchema),
      "name" := JString(s.name),
      "author" := JString(s.author),
      "version_major" := JNumber(s.versionMajor),
      "version_minor" := JNumber(s.versionMinor),
      "game_title" := JString(s.gameTitle),
      "entries" := JArray(EncodeArray(s.entries, EncodeEntryV0))])
  }

  function DecodeSetV0(j: Json): (r: Result<PatchSetV0, DecodeError>)
    ensures r.Ok? ==> j.JObject? && "version_major" in j.fields && j.fields["version_major"] == JNumber(r.value.versionMajor)
    ensures r.Ok? ==> "entries" in j.fields && j.fields["entries"].JArray? &&
                      |r.value.entries| == |j.fields["entries"].items|
  {
    if !j.JObject? then Err(NotAnObject)
    else
      var schema :- UnsignedField(j.fields, "xbpatchset_schema", MAX_U32);
      var name :- StringField(j.fields, "name");
      var author :- StringField(j.fields, "author");
      var versionMajor :- UnsignedField(j.fields, "version_major", MAX_U8);
      var versionMinor :- UnsignedField(j.fields, "version_minor", MAX_U8);
      var gameTitle :- StringField(j.fields, "game_title");
      var entries :- ArrayField(j.fields, "entries", DecodeEntryV0);
      Ok(PatchSetV0(schema, name, author, versionMajor, versionMinor, gameTitle, entries))
  }

  /** Proof step of `EntryV0RoundTrip`: an object whose four fields each read
      back decodes to the entry, whatever other keys it holds. */
  lemma DecodeEntryV0Object(f: map<string, Json>, e: PatchEntryV0)
    requires StringField(f, "name") == Ok(e.name)
    requires StringField(f, "description") == Ok(e.description)
    requires OptionalStringField(f, "alt_author") == Ok(e.altAuthor)
    requires ArrayField(f, "patches", DecodePatch) == Ok(e.patches)
    ensures DecodeEntryV0(JObject(f)) == Ok(e)
  {
  }

  lemma PatchesRoundTrip(ps: seq<PatchV0>)
    ensures DecodeArray(EncodeArray(ps, EncodePatch), DecodePatch) == Ok(ps)
  {
    forall p | p in ps
      ensures DecodePatch(EncodePatch(p)) == Ok(p)
    {
      PatchRoundTrip(p);
    }
    ArrayRoundTrip(ps, EncodePatch, DecodePatch);
  }

  /** Proof step of `EntryV0RoundTrip`: the string fields of an entry, as
      written, read back. */
  lemma EntryV0StringsReadBack(e: PatchEntryV0)
    ensures StringField(EncodeEntryV0(e).fields, "name") == Ok(e.name)
    ensures StringField(EncodeEntryV0(e).fields, "description") == Ok(e.description)
    ensures OptionalStringField(EncodeEntryV0(e).fields, "alt_author") == Ok(e.altAuthor)
  {
    var f := EncodeEntryV0(e).fields;
    assert f["name"] == JString(e.name);
    assert f["description"] == JString(e.description);
    assert f["alt_author"] == OptionalString(e.altAuthor);
  }

  /** Proof step of `EntryV0RoundTrip`: the patches of an entry, as written,
      read back. */
  lemma EntryV0PatchesReadBack(e: PatchEntryV0)
    ensures ArrayField(EncodeEntryV0(e).fields, "patches", DecodePatch) == Ok(e.patches)
  {
    PatchesRoundTrip(e.patches);
    assert EncodeEntryV0(e).fields["patches"] == JArray(EncodeArray(e.patches, EncodePatch));
  }

  lemma EntryV0RoundTrip(e: PatchEntryV0)
    ensures DecodeEntryV0(EncodeEntryV0(e)) == Ok(e)
  {
    EntryV0StringsReadBack(e);
    EntryV0PatchesReadBack(e);
    DecodeEntryV0Object(EncodeEntryV0(e).fields, e);
  }

  /** Proof step of `SetV0RoundTrip`: an object whose seven fields each read
      back decodes to the set. */
  lemma DecodeSetV0Object(f: map<string, Json>, s: PatchSetV0)
    requires UnsignedField(f, "xbpatchset_schema", MAX_U32) == Ok(s.xbpatchsetSchema)
    requires StringField(f, "name") == Ok(s.name)
    requires StringField(f, "author") == Ok(s.author)
    requires UnsignedField(f, "version_major", MAX_U8) == Ok(s.versionMajor)
    requires UnsignedField(f, "version_minor", MAX_U8) == Ok(s.versionMinor)
    requires StringField(f, "game_title") == Ok(s.gameTitle)
    requires ArrayField(f, "entries", DecodeEntryV0) == Ok(s.entries)
    ensures DecodeSetV0(JObject(f)) == Ok(s)
  {
  }

  lemma EntriesV0RoundTrip(es: seq<PatchEntryV0>)
    ensures DecodeArray(EncodeArray(es, EncodeEntryV0), DecodeEntryV0) == Ok(es)
  {
    forall e | e in es
      ensures DecodeEntryV0(EncodeEntryV0(e)) == Ok(e)
    {
      EntryV0RoundTrip(e);
    }
    ArrayRoundTrip(es, EncodeEntryV0, DecodeEntryV0);
  }

  /** Proof step of `SetV0RoundTrip`: the six scalar fields of a set, as
      written, read back. */
  lemma SetV0ScalarsReadBack(s: PatchSetV0)
    ensures UnsignedField(EncodeSetV0(s).fields, "xbpatchset_schema", MAX_U32) == Ok(s.xbpatchsetSchema)
    ensures StringField(EncodeSetV0(s).fields, "name") == Ok(s.name)
    ensures StringField(EncodeSetV0(s).fields, "author") == Ok(s.author)
    ensures UnsignedField(EncodeSetV0(s).fields, "version_major", MAX_U8) == Ok(s.versionMajor)
    ensures UnsignedField(EncodeSetV0(s).fields, "version_minor", MAX_U8) == Ok(s.versionMinor)
    ensures StringField(EncodeSetV0(s).fields, "game_title") == Ok(s.gameTitle)
  {
    var f := EncodeSetV0(s).fields;
    assert f["xbpatchset_schema"] == JNumber(s.xbpatchsetSchema);
    assert f["name"] == JString(s.name);
    assert f["author"] == JString(s.author);
    assert f["version_major"] == JNumber(s.versionMajor);
    assert f["version_minor"] == JNumber(s.versionMinor);
    assert f["game_title"] == JString(s.gameTitle);
  }

  /** A version-0 patch set is written and read back unchanged: every
      entry, every patch, and `original_bytes` whether present or not. */
  lemma SetV0RoundTrip(s: PatchSetV0)
    ensures DecodeSetV0(EncodeSetV0(s)) == Ok(s)
  {
    var f := EncodeSetV0(s).fields;
    assert ArrayField(f, "entries", DecodeEntryV0) == Ok(s.entries) by {
      EntriesV0RoundTrip(s.entries);
      assert f["entries"] == JArray(EncodeArray(s.entries, EncodeEntryV0));
    }
    SetV0ScalarsReadBack(s);
    DecodeSetV0Object(f, s);
  }
}
