/**
 * How the messages thrown by the codec compare with the error records.
 * The codec builds its own messages instead of using the records: the
 * type-mismatch text is the same, the invalid-id text differs by one space
 * when no type (or the empty type) is given.
 */
module MessageAgreement {
  import opened Wrappers
  import opened Strings
  import opened OpaqueId
  import opened Errors
  import Transform

  /**
   * `decodeId`'s "Invalid <type> ID" equals `InvalidIDError`'s message if and
   * only if the type is a non-empty string; otherwise the codec's text is
   * `"Invalid  ID"` and the record's `"Invalid ID"`.
   */
  lemma InvalidIdMessageAgreement(token: string, tag: Option<string>)
    requires DecodeId(token, tag).InvalidId?
    ensures DecodeId(token, tag).Message() == NewInvalidIdError(tag).message <==> OrEmpty(tag) != ""
    ensures OrEmpty(tag) == "" ==> DecodeId(token, tag).Message() == "Invalid  ID"
  {
    var m := DecodeId(token, tag).Message();
    if OrEmpty(tag) == "" {
      assert |m| == 11 && |NewInvalidIdError(tag).message| == 10;
    }
  }

  /**
   * A type mismatch thrown by `decodeId` carries the message an
   * `InvalidIDTypeError` for the same two types would have, and those types
   * are the requested type and the token's first field.
   */
  lemma DecodeIdTypeErrorAgreement(token: string, tag: Option<string>)
    requires DecodeId(token, tag).InvalidType?
    ensures var r := DecodeId(token, tag);
      var e := NewInvalidIdTypeError(r.expected, r.actual);
      && r.Message() == e.message
      && tag == Some(e.expectedType)
      && e.actualType == Split(Transform.Decode(token))[0]
  {
  }

  /** The same for a type mismatch thrown by `getIdMetadata`. */
  lemma GetIdMetadataTypeErrorAgreement(token: string, tag: string)
    requires GetIdMetadata(token, tag).InvalidType?
    ensures var r := GetIdMetadata(token, tag);
      var e := NewInvalidIdTypeError(r.expected, r.actual);
      && r.Message() == e.message
      && e.expectedType == tag
      && e.actualType == Split(Transform.Decode(token))[0]
  {
  }
}
