/** What serde's derived implementations do with a JSON value: required
    and optional fields, integers of a fixed width, arrays, and the hex
    string fields whose codecs live in module Hex. */
module Serde {
  import opened Common
  import opened JsonValue
  import opened Hex

  /** Why a document does not decode into the record asked for. Several
      malformed fields report the first one in the record's field order. */
  datatype DecodeError =
    | NotAnObject
    | MissingField(key: string)
    | InvalidType(key: string)
    | InvalidValue(key: string)
    | BadHex(key: string, hexError: HexError)

  /** A required field of an object. */
  function Field(fields: map<string, Json>, key: string): (r: Result<Json, DecodeError>)
    ensures r.Ok? <==> key in fields
    ensures r.Ok? ==> r.value == fields[key]
  {
    if key in fields then Ok(fields[key]) else Err(MissingField(key))
  }

  /** A required string field. */
  function StringField(fields: map<string, Json>, key: string): (r: Result<string, DecodeError>)
    ensures r.Ok? <==> key in fields && fields[key].JString?
    ensures r.Ok? ==> fields[key] == JString(r.value)
  {
    if key !in fields then Err(MissingField(key))
    else if fields[key].JString? then Ok(fields[key].s)
    else Err(InvalidType(key))
  }

  /** A field of type `Option<String>` without attributes: serde reads a
      missing key and `null` alike as `None`. */
  function OptionalStringField(fields: map<string, Json>, key: string): (r: Result<Option<string>, DecodeError>)
    ensures key !in fields ==> r == Ok(None)
    ensures key in fields && fields[key] == JNull ==> r == Ok(None)
    ensures key in fields ==> (r.Ok? && r.value.Some? <==> fields[key].JString?)
    ensures r.Ok? && r.value.Some? ==> fields[key] == JString(r.value.value)
  {
    if key !in fields then Ok(None)
    else match fields[key]
      case JNull => Ok(None)
      case JString(s) => Ok(Some(s))
      case _ => Err(InvalidType(key))
  }

  /** The JSON form of an `Option<String>`: `null` or the string. */
  function OptionalString(o: Option<string>): Json
  {
    match o
    case None => JNull
    case Some(s) => JString(s)
  }

  /** An integer field of the unsigned type whose largest value is `max`. */
  function UnsignedField(fields: map<string, Json>, key: string, max: nat): (r: Result<nat, DecodeError>)
    ensures r.Ok? <==> key in fields && fields[key].JNumber? && 0 <= fields[key].n <= max
    ensures r.Ok? ==> fields[key] == JNumber(r.value)
  {
    if key !in fields then Err(MissingField(key))
    else if !fields[key].JNumber? then Err(InvalidType(key))
    else if 0 <= fields[key].n <= max then Ok(fields[key].n)
    else Err(InvalidValue(key))
  }

  /** A JSON array decoded element by element; the first element that fails
      decides the error. */
  function DecodeArray<T>(items: seq<Json>, decode: Json -> Result<T, DecodeError>): (r: Result<seq<T>, DecodeError>)
    ensures r.Ok? ==> |r.value| == |items|
    ensures r.Ok? ==> forall i :: 0 <= i < |items| ==> decode(items[i]) == Ok(r.value[i])
  {
    if |items| == 0 then Ok([])
    else match decode(items[0])
      case Err(e) => Err(e)
      case Ok(x) =>
        match DecodeArray(items[1..], decode)
        case Err(e) => Err(e)
        case Ok(xs) => Ok([x] + xs)
  }

  function EncodeArray<T>(xs: seq<T>, encode: T -> Json): (r: seq<Json>)
    ensures |r| == |xs|
    ensures forall i :: 0 <= i < |xs| ==> r[i] == encode(xs[i])
  {
    seq(|xs|, i requires 0 <= i < |xs| => encode(xs[i]))
  }

  /** Decoding an encoded array gives the elements back whenever each
      element does. */
  lemma {:induction false} ArrayRoundTrip<T>(xs: seq<T>, encode: T -> Json, decode: Json -> Result<T, DecodeError>)
    requires forall x :: x in xs ==> decode(encode(x)) == Ok(x)
    ensures DecodeArray(EncodeArray(xs, encode), decode) == Ok(xs)
  {
    if |xs| > 0 {
      var items := EncodeArray(xs, encode);
      assert items[0] == encode(xs[0]);
      assert items[1..] == EncodeArray(xs[1..], encode);
      ArrayRoundTrip(xs[1..], encode, decode);
      assert [xs[0]] + xs[1..] == xs;
    }
  }

  /** An array field. */
  function ArrayField<T>(fields: map<string, Json>, key: string, decode: Json -> Result<T, DecodeError>): (r: Result<seq<T>, DecodeError>)
    ensures r.Ok? ==> key in fields && fields[key].JArray?
    ensures r.Ok? ==> r == DecodeArray(fields[key].items, decode)
  {
    if key !in fields then Err(MissingField(key))
    else if !fields[key].JArray? then Err(InvalidType(key))
    else DecodeArray(fields[key].items, decode)
  }

  /** A `u32` field written with `se_u32_to_hex` and read with
      `de_hex_to_u32`. */
  function HexU32Field(fields: map<string, Json>, key: string): (r: Result<u32, DecodeError>)
    ensures r.Ok? ==> key in fields && fields[key].JString? && DeHexToU32(fields[key].s) == Ok(r.value)
  {
    match StringField(fields, key)
    case Err(e) => Err(e)
    case Ok(s) =>
      match DeHexToU32(s)
      case Err(h) => Err(BadHex(key, h))
      case Ok(v) => Ok(v)
  }

  /** A `Vec<u8>` field written with `se_vu8_to_hex` and read with
      `de_hex_to_vu8`. */
  function HexBytesField(fields: map<string, Json>, key: string): (r: Result<seq<u8>, DecodeError>)
    ensures r.Ok? ==> key in fields && fields[key].JString? && DeHexToVu8(fields[key].s) == Ok(r.value)
  {
    match StringField(fields, key)
    case Err(e) => Err(e)
    case Ok(s) =>
      match DeHexToVu8(s)
      case Err(h) => Err(BadHex(key, h))
      case Ok(v) => Ok(v)
  }

  /** The JSON string of a byte string: `0x` and two lower-case digits per
      byte, as `se_vu8_to_hex` writes it. */
  function BytesJson(bs: seq<u8>): Json
  {
    JString("0x" + EncodeBytes(bs))
  }

  /** The JSON string of a `u32`, as `se_u32_to_hex` writes it. */
  function U32Json(v: u32): Json
  {
    JString(SeU32ToHex(v))
  }
}
