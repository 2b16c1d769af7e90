/**
 * The two error records of the package, `InvalidIDError` and
 * `InvalidIDTypeError`, as values: each constructor computes the message
 * and the fields once and nothing updates them afterwards.
 */
module Errors {
  import opened Wrappers
  import opened Strings

  /** `InvalidIDError`: its declared `type` field is never assigned. */
  datatype InvalidIdError = InvalidIdError(message: string, name: string, declaredType: Option<string>)

  /** `InvalidIDTypeError`: the message and both type strings. */
  datatype InvalidIdTypeError =
    InvalidIdTypeError(message: string, name: string, expectedType: string, actualType: string)

  /**
   * `new InvalidIDError(type)`: "Invalid <type> ID" for a non-empty type,
   * "Invalid ID" when the type is undefined or empty (both are falsy).
   */
  function NewInvalidIdError(tag: Option<string>): (e: InvalidIdError)
    ensures e.name == "Invalid ID Error"
    ensures e.declaredType == None
    ensures OrEmpty(tag) != "" ==> e.message == "Invalid " + tag.value + " ID"
    ensures OrEmpty(tag) == "" ==> e.message == "Invalid ID"
  {
    var message := if OrEmpty(tag) != "" then "Invalid " + OrEmpty(tag) + " ID" else "Invalid ID";
    InvalidIdError(message, "Invalid ID Error", None)
  }

  /** `new InvalidIDTypeError(expectedType, actualType)`. */
  function NewInvalidIdTypeError(expected: string, actual: string): (e: InvalidIdTypeError)
    ensures e.name == "Invalid ID Type Error"
    ensures e.expectedType == expected && e.actualType == actual
    ensures e.message == "Expected " + expected + " ID, got " + actual + " ID"
  {
    InvalidIdTypeError("Expected " + expected + " ID, got " + actual + " ID", "Invalid ID Type Error", expected, actual)
  }

  /** The message of an `InvalidIDError` tells its type label apart: equal messages, equal labels. */
  lemma InvalidIdMessageDeterminesType(x: Option<string>, y: Option<string>)
    ensures NewInvalidIdError(x).message == NewInvalidIdError(y).message <==> OrEmpty(x) == OrEmpty(y)
  {
    var mx, my := NewInvalidIdError(x).message, NewInvalidIdError(y).message;
    if mx == my && OrEmpty(x) != "" && OrEmpty(y) != "" {
      assert OrEmpty(x) == mx[8..|mx| - 3];
      assert OrEmpty(y) == my[8..|my| - 3];
    }
  }

  /**
   * The message of an `InvalidIDTypeError` alone does not tell its two types
   * apart, which is why the record keeps them as fields.
   */
  lemma TypeMessageIsAmbiguous()
    ensures NewInvalidIdTypeError("A ID, got B", "C").message == NewInvalidIdTypeError("A", "B ID, got C").message
    ensures NewInvalidIdTypeError("A ID, got B", "C") != NewInvalidIdTypeError("A", "B ID, got C")
  {
  }
}
