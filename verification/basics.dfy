/** Shared vocabulary of the vault model: optional values, bytes, ASCII
    passwords and the encrypt/decrypt mode that every layer is parameterised by. */
module Basics {

  /** A value that may be absent, standing for JavaScript's optional properties
      (`data?`, `error?`). */
  datatype Option<+T> = None | Some(value: T)

  /** One octet of a file's contents. */
  type byte = x: int | 0 <= x < 256

  /** The two tabs of the page, and the `mode` argument of the services. */
  datatype Mode = Encrypt | Decrypt

  function Min(a: int, b: int): int {
    if a <= b then a else b
  }

  /** Every character is in the 7-bit ASCII range. */
  predicate IsAscii(s: string) {
    forall i :: 0 <= i < |s| ==> s[i] as int < 128
  }

  /** Passwords are modelled as ASCII text, where one character is one UTF-16 code
      unit and one UTF-8 byte. */
  type AsciiString = s: string | IsAscii(s)

  /** The UTF-8 encoding of an ASCII string: one byte per character, same code. */
  function AsciiBytes(s: AsciiString): (b: seq<byte>)
    ensures |b| == |s|
    ensures forall i :: 0 <= i < |s| ==> b[i] == s[i] as int
  {
    seq(|s|, i requires 0 <= i < |s| => s[i] as int)
  }

  /** Distinct ASCII strings have distinct encodings, so comparing the encoded bytes
      decides the same thing as comparing the strings. */
  lemma AsciiBytesInjective(s: AsciiString, t: AsciiString)
    ensures AsciiBytes(s) == AsciiBytes(t) <==> s == t
  {
    if AsciiBytes(s) == AsciiBytes(t) {
      assert |s| == |t|;
      forall i | 0 <= i < |s|
        ensures s[i] == t[i]
      {
        assert AsciiBytes(s)[i] == AsciiBytes(t)[i];
      }
    }
  }
}
