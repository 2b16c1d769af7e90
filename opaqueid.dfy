/**
 * The opaque-id codec: `encodeId` frames `type|id[|metadata]` and Base64-
 * encodes it; `decodeId`, `getIdType` and `getIdMetadata` decode a token,
 * split it on `|`, check the type tag and classify failures.
 *
 * JavaScript exceptions become the `InvalidId` and `InvalidType` outcomes;
 * metadata is carried as its already-serialised JSON text.
 */
module OpaqueId {
  import opened Wrappers
  import opened Strings
  import opened Numbers
  import Transform
  import Base64

  /** An identifier: `string | number`, numbers being integers here. */
  datatype Id = Str(text: string) | Num(n: int)

  /** The result of a decoding call, or the error it throws. */
  datatype Outcome<T> =
    | Ok(value: T)
    | InvalidId(message: string)
    | InvalidType(expected: string, actual: string)
  {
    /** The message of the thrown error. */
    function Message(): string
      requires !Ok?
    {
      match this
      case InvalidId(m) => m
      case InvalidType(e, a) => "Expected " + e + " ID, got " + a + " ID"
    }
  }

  /** `${id}` */
  function IdText(id: Id): string {
    match id
    case Str(s) => s
    case Num(n) => IntToString(n)
  }

  /** The serialised form: `type|id`, then `|metadata` only when metadata is given. */
  function Frame(tag: string, id: Id, metadata: Option<string>): string {
    var idData := tag + [Delimiter] + IdText(id);
    match metadata
    case None => idData
    case Some(json) => idData + [Delimiter] + json
  }

  /**
   * `encodeId(id, type, metadata)`; the type defaults to `""` at the call
   * site.  The token is Base64: a whole number of 4-character groups.
   */
  function EncodeId(id: Id, tag: string, metadata: Option<string>): (token: string)
    ensures |token| % 4 == 0
    ensures Base64.IsTokenText(token)
  {
    var bytes := Transform.Utf8(Frame(tag, id, metadata));
    Base64.EncodeShape(bytes);
    Base64.Encode(bytes)
  }

  /** `split[1] * 1` when `split[1]` is numeric, else `split[1]` itself. */
  function Coerce(field: string): (id: Id)
    ensures id.Num? <==> IsNumeric(field)
    ensures id.Str? ==> id.text == field
    ensures id.Num? ==> id.n == NumericValue(field)
  {
    if IsNumeric(field) then Num(NumericValue(field)) else Str(field)
  }

  /**
   * `decodeId(token, type)`: invalid exactly when the decoded text has no
   * `|`; a type mismatch only when a type is given and differs from the
   * first field; otherwise the second field, coerced.
   */
  function DecodeId(token: string, tag: Option<string>): (r: Outcome<Id>)
    ensures var decoded := Transform.Decode(token);
      && (r.InvalidId? <==> Delimiter !in decoded)
      && (r.InvalidId? ==> r.message == "Invalid " + OrEmpty(tag) + " ID")
      && (r.InvalidType? <==> Delimiter in decoded && tag.Some? && Split(decoded)[0] != tag.value)
      && (r.InvalidType? ==> r.expected == tag.value && r.actual == Split(decoded)[0])
      && (r.Ok? ==> |Split(decoded)| >= 2 && r.value == Coerce(Split(decoded)[1]))
    ensures tag.None? ==> !r.InvalidType?
  {
    var decoded := Transform.Decode(token);
    if Delimiter !in decoded then
      InvalidId("Invalid " + OrEmpty(tag) + " ID")
    else
      SplitSingle(decoded);
      var split := Split(decoded);
      if tag.Some? && split[0] != tag.value then
        InvalidType(tag.value, split[0])
      else
        Ok(Coerce(split[1]))
  }

  /** `getIdType(token)`: the first `|`-field of the decoded text, `""` read as undefined. */
  function GetIdType(token: string): (r: Option<string>)
    ensures var first := Split(Transform.Decode(token))[0];
      && (r.None? <==> first == "")
      && (r.Some? ==> r.value == first)
  {
    var first := Split(Transform.Decode(token))[0];
    if first == "" then None else Some(first)
  }

  /**
   * `getIdMetadata(token, type)`: the first field is always checked against
   * the type (which defaults to `""`); then the third field when it is
   * present and non-empty.  It never reports an invalid id.
   */
  function GetIdMetadata(token: string, tag: string): (r: Outcome<Option<string>>)
    ensures !r.InvalidId?
    ensures var split := Split(Transform.Decode(token));
      && (r.InvalidType? <==> split[0] != tag)
      && (r.InvalidType? ==> r.expected == tag && r.actual == split[0])
      && (r.Ok? && r.value.Some? <==> split[0] == tag && |split| >= 3 && split[2] != "")
      && (r.Ok? && r.value.Some? ==> r.value.value == split[2])
  {
    var split := Split(Transform.Decode(token));
    if split[0] != tag then InvalidType(tag, split[0])
    else if |split| >= 3 && split[2] != "" then Ok(Some(split[2]))
    else Ok(None)
  }

  /** Inputs that survive the transform: UTF-8 and Latin-1 agree only on ASCII. */
  predicate AsciiInputs(tag: string, id: Id, metadata: Option<string>) {
    IsAscii(tag) && IsAscii(IdText(id)) && (metadata.Some? ==> IsAscii(metadata.value))
  }

  /** ASCII type, id and metadata give ASCII framed text. */
  lemma FrameAscii(tag: string, id: Id, metadata: Option<string>)
    requires AsciiInputs(tag, id, metadata)
    ensures IsAscii(Frame(tag, id, metadata))
  {
    var idData := tag + [Delimiter] + IdText(id);
    assert IsAscii(idData) by {
      forall i | 0 <= i < |idData| ensures idData[i] as int < 0x80 {
        if i > |tag| { assert idData[i] == IdText(id)[i - |tag| - 1]; }
      }
    }
    if metadata.Some? {
      var f := idData + [Delimiter] + metadata.value;
      forall i | 0 <= i < |f| ensures f[i] as int < 0x80 {
        if i > |idData| { assert f[i] == metadata.value[i - |idData| - 1]; }
      }
    }
  }

  /** The token of `encodeId` decodes to the serialised form, for ASCII inputs. */
  lemma DecodedEncodeId(id: Id, tag: string, metadata: Option<string>)
    requires AsciiInputs(tag, id, metadata)
    ensures Transform.Decode(EncodeId(id, tag, metadata)) == Frame(tag, id, metadata)
  {
    FrameAscii(tag, id, metadata);
    Transform.RoundTrip(Frame(tag, id, metadata));
  }

  /**
   * `encodeId` writes exactly `type|id`, followed by `|metadata` if and only
   * if metadata is given: splitting the decoded token gives those fields back.
   */
  lemma FieldsOfEncodeId(id: Id, tag: string, metadata: Option<string>)
    requires AsciiInputs(tag, id, metadata)
    requires Delimiter !in tag && Delimiter !in IdText(id)
    requires metadata.Some? ==> Delimiter !in metadata.value
    ensures Split(Transform.Decode(EncodeId(id, tag, metadata))) ==
      [tag, IdText(id)] + (if metadata.Some? then [metadata.value] else [])
  {
    DecodedEncodeId(id, tag, metadata);
    var fields := [tag, IdText(id)] + (if metadata.Some? then [metadata.value] else []);
    FrameIsJoin(tag, id, metadata);
    assert AllFree(fields);
    SplitJoin(fields);
  }

  /** The serialised form is the fields joined with `|`. */
  lemma FrameIsJoin(tag: string, id: Id, metadata: Option<string>)
    ensures Frame(tag, id, metadata) == Join([tag, IdText(id)] + (if metadata.Some? then [metadata.value] else []))
  {
    var idText := IdText(id);
    match metadata
    case None =>
      assert Join([idText]) == idText;
      assert [tag, idText][1..] == [idText];
    case Some(json) =>
      var fields := [tag, idText, json];
      assert fields[1..] == [idText, json] && fields[1..][1..] == [json];
      assert Join([idText, json]) == idText + [Delimiter] + json;
      assert tag + [Delimiter] + idText + [Delimiter] + json == tag + [Delimiter] + (idText + [Delimiter] + json);
  }

  /**
   * The leading fields survive even when a later field holds a `|`: the type
   * is always the first field, and an id whose text has no `|` the second.
   */
  lemma {:induction false} LeadingFieldsOfEncodeId(id: Id, tag: string, metadata: Option<string>)
    requires AsciiInputs(tag, id, metadata)
    requires Delimiter !in tag
    ensures var split := Split(Transform.Decode(EncodeId(id, tag, metadata)));
      && |split| >= 2 && split[0] == tag && split[1] == Split(IdText(id))[0]
  {
    DecodedEncodeId(id, tag, metadata);
    LeadingFieldsOfFrame(id, tag, metadata);
  }

  /** The type is the first field of a frame, and the id's first piece the second. */
  lemma LeadingFieldsOfFrame(id: Id, tag: string, metadata: Option<string>)
    requires Delimiter !in tag
    ensures var split := Split(Frame(tag, id, metadata));
      && |split| >= 2 && split[0] == tag && split[1] == Split(IdText(id))[0]
  {
    var more := if metadata.Some? then [Delimiter] + metadata.value else [];
    var rest := IdText(id) + more;
    assert Frame(tag, id, metadata) == tag + [Delimiter] + rest;
    SplitPrefix(tag, rest);
    SplitFirstOfAppend(IdText(id), more);
  }

  /**
   * Decoding an encoded id: a given type other than the encoded one is a
   * type error; otherwise the id text comes back, read as a number when it
   * is numeric.  With no type given there is never a type error.
   */
  lemma DecodeIdOfEncodeId(id: Id, tag: string, metadata: Option<string>, expected: Option<string>)
    requires AsciiInputs(tag, id, metadata)
    requires Delimiter !in tag && Delimiter !in IdText(id)
    ensures DecodeId(EncodeId(id, tag, metadata), expected) ==
      if expected.Some? && expected.value != tag then InvalidType(expected.value, tag)
      else Ok(Coerce(IdText(id)))
  {
    var decoded := Transform.Decode(EncodeId(id, tag, metadata));
    LeadingFieldsOfEncodeId(id, tag, metadata);
    SplitSingle(decoded);
    SplitFree(IdText(id));
  }

  /**
   * `decodeId(encodeId(id, t), t) == id` for a string id that JavaScript
   * cannot read as a number: one that does not start the way a number does.
   */
  lemma StringIdRoundTrip(s: string, tag: string, metadata: Option<string>, expected: Option<string>)
    requires AsciiInputs(tag, Str(s), metadata)
    requires Delimiter !in tag && Delimiter !in s && !MayReadAsNumber(s)
    requires expected == None || expected == Some(tag)
    ensures DecodeId(EncodeId(Str(s), tag, metadata), expected) == Ok(Str(s))
  {
    if IsNumeric(s) {
      NumericMayReadAsNumber(s);
    }
    DecodeIdOfEncodeId(Str(s), tag, metadata, expected);
  }

  /** `decodeId(encodeId(n, t), t) == n`, a number again. */
  lemma NumberIdRoundTrip(n: int, tag: string, metadata: Option<string>, expected: Option<string>)
    requires IsAscii(tag) && (metadata.Some? ==> IsAscii(metadata.value))
    requires Delimiter !in tag
    requires expected == None || expected == Some(tag)
    ensures DecodeId(EncodeId(Num(n), tag, metadata), expected) == Ok(Num(n))
  {
    IntToStringPlain(n);
    IntToStringValue(n);
    DecodeIdOfEncodeId(Num(n), tag, metadata, expected);
  }

  /** A string id that is numeric text comes back as a number, not as the string. */
  lemma NumericStringIdBecomesNumber(s: string, tag: string, metadata: Option<string>)
    requires AsciiInputs(tag, Str(s), metadata)
    requires Delimiter !in tag && Delimiter !in s && IsNumeric(s)
    ensures DecodeId(EncodeId(Str(s), tag, metadata), None) == Ok(Num(NumericValue(s)))
  {
    DecodeIdOfEncodeId(Str(s), tag, metadata, None);
  }

  /** An id holding `|` is cut at its first `|` on the way back. */
  lemma TruncatedStringId(a: string, b: string, tag: string, metadata: Option<string>)
    requires AsciiInputs(tag, Str(a + [Delimiter] + b), metadata)
    requires Delimiter !in tag && Delimiter !in a
    ensures DecodeId(EncodeId(Str(a + [Delimiter] + b), tag, metadata), Some(tag)) == Ok(Coerce(a))
  {
    var id := Str(a + [Delimiter] + b);
    LeadingFieldsOfEncodeId(id, tag, metadata);
    SplitPrefix(a, b);
    SplitSingle(Transform.Decode(EncodeId(id, tag, metadata)));
  }

  /** `getIdType(encodeId(id, t))` is `t`, and undefined for the default type `""`. */
  lemma GetIdTypeOfEncodeId(id: Id, tag: string, metadata: Option<string>)
    requires AsciiInputs(tag, id, metadata)
    requires Delimiter !in tag
    ensures GetIdType(EncodeId(id, tag, metadata)) == if tag == "" then None else Some(tag)
  {
    LeadingFieldsOfEncodeId(id, tag, metadata);
  }

  /**
   * `getIdMetadata(encodeId(id, t, m), e)`: a type error unless `e` is `t`;
   * then `m` when it was given and is not empty, and undefined otherwise.
   */
  lemma GetIdMetadataOfEncodeId(id: Id, tag: string, metadata: Option<string>, expected: string)
    requires AsciiInputs(tag, id, metadata)
    requires Delimiter !in tag && Delimiter !in IdText(id)
    requires metadata.Some? ==> Delimiter !in metadata.value
    ensures GetIdMetadata(EncodeId(id, tag, metadata), expected) ==
      if expected != tag then InvalidType(expected, tag)
      else if metadata.Some? && metadata.value != "" then Ok(Some(metadata.value))
      else Ok(None)
  {
    FieldsOfEncodeId(id, tag, metadata);
  }

  /**
   * A token that is not Base64 of a delimited text is an invalid id, its
   * message naming the expected type; with no type the message has two
   * spaces, `"Invalid  ID"`.  Here the token is refused for its length of
   * 15; Node's lenient decoder would instead read it as the bytes
   * f2 de ee 86 f8 2f 91 bb e9 8a f8, none of them `|` (0x7c), so the
   * program reaches the same two messages.
   */
  lemma MalformedToken()
    ensures DecodeId("8t7uhvgvkbvpivi", Some("Test")) == InvalidId("Invalid Test ID")
    ensures DecodeId("8t7uhvgvkbvpivi", None) == InvalidId("Invalid  ID")
  {
    Base64.DecodeLength("8t7uhvgvkbvpivi");
  }
}
