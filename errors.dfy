/**
 * The error taxonomy of the codec: a closed sum of two kinds, running out of
 * bytes and a format violation, each carrying a message. Two errors are equal
 * when they are of the same kind and carry the same message; exception
 * objects, inner exceptions and hash codes are not modelled.
 */
module Errors {

  datatype ParsingError =
    | EndOfStream(message: string)
    | Format(message: string)

  /** The message .NET gives an end-of-stream exception created without one. */
  const END_OF_STREAM_MESSAGE: string := "Attempted to read past the end of the stream."

  /** `ParsingError.Equals`: same kind and same message. */
  predicate Same(a: ParsingError, b: ParsingError) {
    || (a.EndOfStream? && b.EndOfStream? && a.message == b.message)
    || (a.Format? && b.Format? && a.message == b.message)
  }

  /** Equality by kind and message is exactly value equality of the model. */
  lemma SameIsEquality(a: ParsingError, b: ParsingError)
    ensures Same(a, b) <==> a == b
  {
  }

  lemma SameIsReflexiveAndSymmetric(a: ParsingError, b: ParsingError)
    ensures Same(a, a)
    ensures Same(a, b) <==> Same(b, a)
  {
  }

  // The fixed errors and the helper constructors.

  function UnexpectedEof(): (e: ParsingError)
    ensures e.EndOfStream?
  {
    EndOfStream(END_OF_STREAM_MESSAGE)
  }

  function FormatException(message: string): (e: ParsingError)
    ensures e.Format? && e.message == message
  {
    Format(message)
  }

  const INVALID_PREFIX_HEAD: string := "Invalid prefix character '"
  const UNCLOSED_PREFIX_HEAD: string := "The prefix '"
  const UNCLOSED_PREFIX_TAIL: string := "' wasn't closed with 'e'."
  const MISSING_VALUE_HEAD: string := "The dictionary key '"
  const MISSING_VALUE_TAIL: string := "' is missing a value."

  function InvalidPrefixChar(prefix: char): (e: ParsingError)
    ensures e.Format? && |e.message| == |INVALID_PREFIX_HEAD| + 3
    ensures e.message[|INVALID_PREFIX_HEAD|] == prefix
  {
    Format(INVALID_PREFIX_HEAD + [prefix] + "'.")
  }

  function UnclosedPrefix(prefix: char): (e: ParsingError)
    ensures e.Format? && |e.message| == |UNCLOSED_PREFIX_HEAD| + 1 + |UNCLOSED_PREFIX_TAIL|
    ensures e.message[|UNCLOSED_PREFIX_HEAD|] == prefix
  {
    Format(UNCLOSED_PREFIX_HEAD + [prefix] + UNCLOSED_PREFIX_TAIL)
  }

  const MissingColon: ParsingError := Format("Missing ':' separator for string prefix.")
  const EmptyInteger: ParsingError := Format("Empty integers (ie) are not valid.")
  const LeadingZeros: ParsingError := Format("Leading zeros (01) are not allowed on integers.")
  const MinusZero: ParsingError := Format("'-0' is not a valid integer value.")
  const KeyIsNotString: ParsingError := Format("Dictionary's keys can only be strings.")
  const UnorderedKeys: ParsingError :=
    Format("Dictionary's keys should be ordered by the 'raw' bytes string representation.")

  function MissingDictionaryValues(key: string): (e: ParsingError)
    ensures e.Format? && |e.message| == |MISSING_VALUE_HEAD| + |key| + |MISSING_VALUE_TAIL|
    ensures e.message[|MISSING_VALUE_HEAD|..|MISSING_VALUE_HEAD| + |key|] == key
  {
    Format(MISSING_VALUE_HEAD + key + MISSING_VALUE_TAIL)
  }

  /** The message the integer parser attaches to a malformed numeral. */
  const InvalidIntegerFormat: ParsingError := Format("Invalid integer format")

  // Properties of the taxonomy.

  lemma EndOfStreamIsNoFormatError(e: ParsingError)
    requires e.Format?
    ensures UnexpectedEof() != e && !Same(UnexpectedEof(), e)
  {
  }

  lemma InvalidPrefixCharInjective(a: char, b: char)
    ensures InvalidPrefixChar(a) == InvalidPrefixChar(b) <==> a == b
  {
    if InvalidPrefixChar(a) == InvalidPrefixChar(b) {
      assert InvalidPrefixChar(a).message[|INVALID_PREFIX_HEAD|] == a;
    }
  }

  lemma UnclosedPrefixInjective(a: char, b: char)
    ensures UnclosedPrefix(a) == UnclosedPrefix(b) <==> a == b
  {
    if UnclosedPrefix(a) == UnclosedPrefix(b) {
      assert UnclosedPrefix(a).message[|UNCLOSED_PREFIX_HEAD|] == a;
    }
  }

  lemma MissingDictionaryValuesInjective(k1: string, k2: string)
    ensures MissingDictionaryValues(k1) == MissingDictionaryValues(k2) <==> k1 == k2
  {
    if MissingDictionaryValues(k1) == MissingDictionaryValues(k2) {
      var m := MissingDictionaryValues(k1).message;
      assert |k1| == |k2|;
      assert k1 == m[|MISSING_VALUE_HEAD|..|MISSING_VALUE_HEAD| + |k1|];
    }
  }

  /** The six fixed format errors are pairwise distinct. */
  lemma FixedErrorsDistinct()
    ensures MissingColon != EmptyInteger && MissingColon != LeadingZeros && MissingColon != MinusZero
    ensures MissingColon != KeyIsNotString && MissingColon != UnorderedKeys
    ensures EmptyInteger != LeadingZeros && EmptyInteger != MinusZero
    ensures EmptyInteger != KeyIsNotString && EmptyInteger != UnorderedKeys
    ensures LeadingZeros != MinusZero && LeadingZeros != KeyIsNotString && LeadingZeros != UnorderedKeys
    ensures MinusZero != KeyIsNotString && MinusZero != UnorderedKeys
    ensures KeyIsNotString != UnorderedKeys
  {
  }

  /**
   * The dictionary parser rewrites a value error into MissingDictionaryValues
   * exactly when it equals InvalidPrefixChar('e'); no other error of the
   * taxonomy can be mistaken for it.
   */
  lemma OnlyPrefixEIsRewritten(c: char, k: string)
    ensures InvalidPrefixChar('e') != UnexpectedEof()
    ensures InvalidPrefixChar('e') != MissingColon && InvalidPrefixChar('e') != EmptyInteger
    ensures InvalidPrefixChar('e') != LeadingZeros && InvalidPrefixChar('e') != MinusZero
    ensures InvalidPrefixChar('e') != KeyIsNotString && InvalidPrefixChar('e') != UnorderedKeys
    ensures InvalidPrefixChar('e') != InvalidIntegerFormat
    ensures InvalidPrefixChar('e') != UnclosedPrefix(c)
    ensures InvalidPrefixChar('e') != MissingDictionaryValues(k)
    ensures InvalidPrefixChar(c) == InvalidPrefixChar('e') <==> c == 'e'
  {
    InvalidPrefixCharInjective(c, 'e');
  }
}
