/** The wrapped base64 codec (Go's encoding/base64), seen from outside.

    Its decoding tables are not part of this model: the codec is a capability
    handed in as a pair of function values, one per decode entry point, each
    indexed by the alphabet it was configured with. Nothing here is proved
    about what those functions compute; the shim that wraps them is only ever
    proved to forward to them.
 */
module Base64 {

  /** A Go byte. */
  newtype byte = x: int | 0 <= x < 0x100

  /** The two alphabets the shim offers. They share the first 62 symbols
      ('A'-'Z', 'a'-'z', '0'-'9') and the pad character '=', and differ in
      values 62 and 63: '+' and '/' for the standard alphabet (section 4 of
      RFC 4648), '-' and '_' for the URL- and filename-safe one (section 5). */
  datatype Alphabet = Standard | URLSafe

  /** The codec's only error kind: the offset of the first byte it could not
      accept (Go's CorruptInputError). */
  datatype CodecError = CorruptInput(offset: int)

  datatype Option<T> = None | Some(value: T)

  /** What one decode call of the codec yields: the decoded bytes (for the
      buffer entry point, dst[:n] where n is the count it returns) and the
      error, if any. */
  datatype Outcome = Outcome(decoded: seq<byte>, err: Option<CodecError>)

  /** The codec capability: `decode` stands for (*base64.Encoding).Decode,
      `decodeString` for (*base64.Encoding).DecodeString. */
  datatype Codec = Codec(
    decode: (Alphabet, seq<byte>) -> Outcome,
    decodeString: (Alphabet, string) -> Outcome)
}
