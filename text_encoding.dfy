/**
 * Bytes and the ASCII encoding of .NET (`System.Text.Encoding.ASCII`): a character
 * below 128 becomes its own code, every other character becomes '?' (63), the
 * replacement the encoder substitutes for what ASCII cannot represent.
 */
module TextEncoding {

  type Byte = b: int | 0 <= b < 256

  /** The byte that `Encoding.ASCII` writes for a character it cannot encode. */
  const QUESTION_MARK: Byte := 63

  predicate IsAscii(s: string) {
    forall i :: 0 <= i < |s| ==> s[i] as int < 128
  }

  /** `Encoding.ASCII.GetBytes`: one byte per character. */
  function AsciiGetBytes(s: string): (r: seq<Byte>)
    ensures |r| == |s|
  {
    seq(|s|, i requires 0 <= i < |s| => if s[i] as int < 128 then s[i] as int else QUESTION_MARK)
  }

  /** `Encoding.ASCII.GetString`: a byte of 128 or more decodes to '?'. */
  function AsciiGetString(b: seq<Byte>): (r: string)
    ensures |r| == |b|
  {
    seq(|b|, i requires 0 <= i < |b| => if b[i] < 128 then b[i] as char else '?')
  }

  /** For an ASCII string the encoding loses nothing: decoding gives the string back. */
  lemma AsciiRoundTrip(s: string)
    requires IsAscii(s)
    ensures AsciiGetString(AsciiGetBytes(s)) == s
  {
  }
}
