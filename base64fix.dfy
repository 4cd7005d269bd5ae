/** A padding-tolerant base64 decoder: each entry point first pads its input
    with '=' to a multiple of 4 and then hands it to the wrapped codec,
    returning the codec's outcome unchanged. */
module Base64Fix {
  import opened Base64
  import opened Padding

  /** A decoder: which of the codec's configurations it wraps. The
      configuration is fixed when the value is built and never changes. */
  datatype Encoding = Encoding(alphabet: Alphabet)

  /** The decoder wrapping the codec's standard alphabet. */
  const StdEncoding: Encoding := Encoding(Standard)

  /** The decoder wrapping the codec's URL-safe alphabet. */
  const URLEncoding: Encoding := Encoding(URLSafe)

  /** The buffer entry point: the pad is built in a fresh array, filled
      with '=' one element at a time, and appended to a copy of `src`; the
      codec's outcome on that input is returned as it is. */
  method Decode(enc: Encoding, lib: Codec, src: seq<byte>) returns (result: Outcome)
    ensures result == lib.decode(enc.alphabet, Repaired(src, PadByte))
  {
    var input := src;
    var n := |src| % 4;
    if n != 0 {
      var p := new byte[4 - n];
      for i := 0 to p.Length
        invariant forall j :: 0 <= j < i ==> p[j] == PadByte
      {
        p[i] := PadByte;
      }
      input := input + p[..];
      assert p[..] == Repeat(PadByte, 4 - n);
    }
    result := lib.decode(enc.alphabet, input);
  }

  /** The string entry point: '=' repeated as often as needed is
      concatenated to `s`, and the codec's outcome on that is returned as
      it is. */
  function DecodeString(enc: Encoding, lib: Codec, s: string): (result: Outcome)
    ensures result == lib.decodeString(enc.alphabet, Repaired(s, PadChar))
    ensures |s| % 4 == 0 ==> result == lib.decodeString(enc.alphabet, s)
  {
    var n := |s| % 4;
    if n != 0 then lib.decodeString(enc.alphabet, s + Repeat(PadChar, 4 - n))
    else lib.decodeString(enc.alphabet, s)
  }

  /** A reading aid that holds by construction: the two decoders pass the
      same repaired input on and differ only in the configuration of the
      codec they pass it to. */
  lemma VariantsDifferOnlyInAlphabet(lib: Codec, s: string)
    ensures StdEncoding.alphabet == Standard && URLEncoding.alphabet == URLSafe
    ensures DecodeString(StdEncoding, lib, s) == lib.decodeString(Standard, Repaired(s, PadChar))
    ensures DecodeString(URLEncoding, lib, s) == lib.decodeString(URLSafe, Repaired(s, PadChar))
  {
  }

  /** Dropping up to three trailing '=' from a correctly padded text does
      not change what the string entry point returns. For the buffer entry
      point the same follows from the contract of `Decode` together with
      `StripThenRepair`. */
  lemma StrippedPaddingIsRestored(enc: Encoding, lib: Codec, e: string, k: nat)
    requires |e| % 4 == 0 && k < 4 && k <= |e|
    requires forall i :: |e| - k <= i < |e| ==> e[i] == PadChar
    ensures DecodeString(enc, lib, e[..|e| - k]) == lib.decodeString(enc.alphabet, e)
  {
    StripThenRepair(e, PadChar, k);
  }

  /** A codec whose string entry point decodes a string exactly as its
      buffer entry point decodes the string's bytes. */
  ghost predicate Consistent(lib: Codec)
  {
    forall a: Alphabet, x: seq<byte> {:trigger lib.decode(a, x)} ::
      lib.decodeString(a, Chars(x)) == lib.decode(a, x)
  }

  /** Over a consistent codec, the string entry point on the characters
      of `b` returns what the buffer entry point returns on `b`. */
  lemma StringPathAgreesWithBytePath(enc: Encoding, lib: Codec, b: seq<byte>)
    requires Consistent(lib)
    ensures DecodeString(enc, lib, Chars(b)) == lib.decode(enc.alphabet, Repaired(b, PadByte))
  {
    RepairBytesAsString(b);
    assert lib.decodeString(enc.alphabet, Chars(Repaired(b, PadByte)))
        == lib.decode(enc.alphabet, Repaired(b, PadByte));
  }
}
