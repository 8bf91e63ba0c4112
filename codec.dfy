/** The framing codec: `zip` puts one format byte in front of a payload's UTF-8 bytes,
    `format` reads that byte back and `unzip` rebuilds the payload from it. */
module Codec {
  import opened Formats
  import opened Wrappers
  import Utf8

  /** A value that JSON can carry. Numbers are modelled as integers. */
  datatype Json =
    | JNull
    | JBool(b: bool)
    | JNumber(n: int)
    | JString(s: string)
    | JArray(items: seq<Json>)
    | JObject(fields: seq<(string, Json)>)

  /** A JSON value that is not a string: what `typeof message !== 'string'` lets through to `JSON.stringify`. */
  type NonString = j: Json | !j.JString? witness JNull

  /** `JSON.stringify` and `JSON.parse`; parsing fails (throws a SyntaxError) on malformed text. */
  datatype JsonCodec = JsonCodec(stringify: Json -> string, parse: string -> Option<Json>)

  /** Parsing the text that `JSON.stringify` writes for j gives j back. This holds for the
      values a JavaScript program can build (distinct keys, safe integers), not for every
      `Json`: `JSON.parse` keeps only the last of two equal keys, for one. */
  predicate Survives(json: JsonCodec, j: Json)
  {
    json.parse(json.stringify(j)) == Some(j)
  }

  /** What `send` accepts and a `message` event carries: a Buffer, a string, or any other value. */
  datatype Value =
    | BufferValue(bytes: seq<byte>)
    | StringValue(text: string)
    | ObjectValue(data: NonString)

  /** The format `zip` chooses, checked in this order: a Buffer, then a string, then anything else. */
  function FormatOf(v: Value): (f: Format)
    ensures !IsControl(ByteOf(f))
    ensures f == Buffer <==> v.BufferValue?
    ensures f == String <==> v.StringValue?
  {
    match v
    case BufferValue(_) => Buffer
    case StringValue(_) => String
    case ObjectValue(_) => Object
  }

  /** The text `zip` writes after the format byte: a Buffer's `toString()`, the string
      itself, or the JSON serialisation. */
  function TextOf(json: JsonCodec, v: Value): (t: string)
    ensures v.BufferValue? ==> |t| <= |v.bytes|
    ensures v.BufferValue? ==> (Utf8.Encode(t) == v.bytes <==> Utf8.WellFormed(v.bytes))
  {
    match v
    case BufferValue(b) => Utf8.RoundTripIffWellFormed(b); Utf8.Decode(b)
    case StringValue(s) => s
    case ObjectValue(j) => json.stringify(j)
  }

  /** The frame for v: its format byte followed by the UTF-8 bytes of its text. */
  function Zip(json: JsonCodec, v: Value): (m: seq<byte>)
    ensures |m| >= 1
  {
    [ByteOf(FormatOf(v))] + Utf8.Encode(TextOf(json, v))
  }

  /** The format byte of a datagram; reading byte 0 of an empty buffer throws. */
  function ReadFormat(m: seq<byte>): (r: Result<byte>)
    ensures r.Ok? <==> |m| > 0
    ensures r.Ok? ==> r.value == m[0]
  {
    if |m| == 0 then Err(RangeError) else Ok(m[0])
  }

  /** The JavaScript value `JSON.parse` yields: a parsed string is a string. */
  function FromJson(j: Json): (v: Value)
    ensures v.StringValue? <==> j.JString?
  {
    if j.JString? then StringValue(j.s) else ObjectValue(j)
  }

  /** The payload of a datagram with format byte f: everything after byte 0, as a string
      for STRING, as bytes for BUFFER, and parsed as JSON for every other byte. */
  function Unzip(json: JsonCodec, f: byte, m: seq<byte>): (r: Result<Value>)
    ensures r.Err? ==> r.error == SyntaxError && f != ByteOf(String) && f != ByteOf(Buffer)
    ensures f == ByteOf(Buffer) && |m| > 0 ==> r == Ok(BufferValue(m[1..]))
  {
    var payload := if |m| == 0 then [] else m[1..];
    if f == ByteOf(String) then Ok(StringValue(Utf8.Decode(payload)))
    else if f == ByteOf(Buffer) then Ok(BufferValue(payload))
    else match json.parse(Utf8.Decode(payload))
      case None => Err(SyntaxError)
      case Some(j) => Ok(FromJson(j))
  }

  /** A frame is one format byte, chosen as the source checks (Buffer, then string, then
      anything else), followed by `Buffer.byteLength` bytes that decode to the text;
      a well-formed Buffer travels verbatim. */
  lemma ZipLayout(json: JsonCodec, v: Value)
    ensures var m := Zip(json, v);
      && |m| == 1 + |Utf8.Encode(TextOf(json, v))|
      && m[0] == ByteOf(if v.BufferValue? then Buffer else if v.StringValue? then String else Object)
      && Utf8.Decode(m[1..]) == TextOf(json, v)
      && (v.BufferValue? && Utf8.WellFormed(v.bytes) ==> m[1..] == v.bytes)
  {
    var m := Zip(json, v);
    assert m[1..] == Utf8.Encode(TextOf(json, v));
    Utf8.DecodeEncode(TextOf(json, v));
    if v.BufferValue? {
      Utf8.RoundTripIffWellFormed(v.bytes);
    }
  }

  /** `format` of a frame reads the format `zip` chose. */
  lemma ReadFormatZip(json: JsonCodec, v: Value)
    ensures ReadFormat(Zip(json, v)) == Ok(ByteOf(FormatOf(v)))
  {
  }

  /** A string comes back as the same string. */
  lemma UnzipZipString(json: JsonCodec, s: string)
    ensures var m := Zip(json, StringValue(s)); Unzip(json, m[0], m) == Ok(StringValue(s))
  {
    var m := Zip(json, StringValue(s));
    assert m[1..] == Utf8.Encode(s);
    Utf8.DecodeEncode(s);
  }

  /** A Buffer comes back as the UTF-8 re-encoding of its `toString()`, which is the
      Buffer itself exactly when its bytes are well-formed UTF-8. */
  lemma UnzipZipBuffer(json: JsonCodec, b: seq<byte>)
    ensures var m := Zip(json, BufferValue(b));
      && Unzip(json, m[0], m) == Ok(BufferValue(Utf8.Encode(Utf8.Decode(b))))
      && (Unzip(json, m[0], m) == Ok(BufferValue(b)) <==> Utf8.WellFormed(b))
  {
    var m := Zip(json, BufferValue(b));
    assert m[1..] == Utf8.Encode(Utf8.Decode(b));
    Utf8.RoundTripIffWellFormed(b);
  }

  /** Any other value comes back deep-equal whenever `JSON.parse` reads back what
      `JSON.stringify` wrote for it. */
  lemma UnzipZipObject(json: JsonCodec, j: NonString)
    requires Survives(json, j)
    ensures var m := Zip(json, ObjectValue(j)); Unzip(json, m[0], m) == Ok(ObjectValue(j))
  {
    var m := Zip(json, ObjectValue(j));
    assert m[1..] == Utf8.Encode(json.stringify(j));
    Utf8.DecodeEncode(json.stringify(j));
  }
}
