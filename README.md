# base64fix, modelled in Dafny

base64fix is a padding-tolerant front end to Go's `encoding/base64`. Its
`Encoding` type holds a reference to one configuration of the standard
codec, and two process-wide values are built with one: `StdEncoding` (standard alphabet, `+` and `/`,
section 4 of RFC 4648) and `URLEncoding` (URL- and filename-safe alphabet,
`-` and `_`, section 5 of RFC 4648). Both decode entry points, `Decode` on a
byte slice and `DecodeString` on a string, first append `=` until the input
length is a multiple of 4, as padded base64 text must be (section 3.2 of
RFC 4648), and then return whatever the wrapped codec returns on that input.

The model has three modules:

- `Base64` (`codec.dfy`): bytes, the two alphabets, the codec's outcome and
  the codec itself. The codec is a capability passed in as two function
  values (`decode` and `decodeString`), each taking the alphabet it is
  configured with; its decoding is never defined, only forwarded to.
- `Padding` (`padding.dfy`): the padding rule once, over any element type
  (`Repaired`), with its properties, and Go's byte/string conversions.
- `Base64Fix` (`base64fix.dfy`): the `Encoding` value, the two singletons,
  `Decode` as a method that builds the pad in an array with a loop, as the
  Go code does, and `DecodeString` as a function.

A Go string is a sequence of bytes and `len` counts bytes; in the model
each character of a `string` stands for one byte, so `|s|` is `len(s)`.

## Model

| member | source | states |
|---|---|---|
| Base64Fix.Decode | base64fix.go:36-45 | returns exactly the codec's outcome, for the decoder's alphabet, on `src` repaired with the byte `=` (the loop invariant that every filled element of the pad array is `=` is what makes this verify); with `StripThenRepair`, `Decode` on a padded text with 0 to 3 trailing `=` removed returns the codec's outcome on the full text |
| Base64Fix.DecodeString | base64fix.go:48-54 | returns exactly the codec's string outcome, for the decoder's alphabet, on `s` repaired with `=`; an input whose length is a multiple of 4 is forwarded untouched |
| Padding.PadCount | base64fix.go:37-38 | the pad count is below 4, makes the length a multiple of 4, and is zero exactly when the length already is one |
| Padding.Repeat | base64fix.go:38-41 | the pad has the requested length and every element is the fill element |
| Padding.Repaired | base64fix.go:37-42 | the repaired input is a multiple of 4 long, grows by the pad count (0 to 3), keeps the original as its prefix, adds only the fill element, and equals the input exactly when the input length is a multiple of 4 (empty input included) |
| Padding.RepairedUnique | base64fix.go:37-42 | any extension of the input by fill elements only, a multiple of 4 long and fewer than 4 longer, is the repaired input |
| Padding.RepairedIdempotent | base64fix.go:37 | repairing twice is repairing once |
| Padding.OneModFourGetsThree | base64fix.go:37-44 | an input of length 1 mod 4 is not rejected: exactly three fill elements are appended |
| Padding.StripThenRepair | base64fix.go:50-51 | removing up to three trailing fill elements from a padded text and repairing it restores the text |
| Padding.RepairBytesAsString | base64fix.go:37-51 | repairing a byte slice with the byte `=` and converting it to a string equals converting first and repairing the string with `=` |
| Padding.RepairStringAsBytes | base64fix.go:37-51 | the converse: for a byte string, converting to bytes commutes with repair |
| Base64Fix.VariantsDifferOnlyInAlphabet | base64fix.go:30-33 | holds by construction, as a reading aid: the two singletons carry the standard and URL-safe alphabets and hand the same repaired input to the codec, as `DecodeString`'s contract already gives |
| Base64Fix.StrippedPaddingIsRestored | base64fix.go:48-54 | `DecodeString` on a correctly padded text with 0 to 3 trailing `=` removed returns the codec's outcome on the full text (for the byte path the same follows from `Decode`'s contract and `StripThenRepair`) |
| Base64Fix.StringPathAgreesWithBytePath | base64fix.go:36-54 | over a codec whose string and byte entry points agree, `DecodeString` on the characters of `b` returns what `Decode` returns on `b` |

## Left out

- The decoding itself (alphabet lookup, group assembly, error offsets) belongs to Go's `encoding/base64` and is a parameter of the model, not defined by it.
- The `dst` buffer of `Decode` and the count it returns: the codec's outcome is modelled as the decoded bytes (what `dst[:n]` holds) and the error; how large `dst` must be is the codec's contract.
- Aliasing by `append` (base64fix.go:42): when `src` has spare capacity, Go writes the pad into the caller's backing array past `len(src)`. The model builds the padded input as a fresh sequence; the caller's `src[0..len)` is unchanged either way.
- Base64Fix.StringPathAgreesWithBytePath: holds only for a codec whose two entry points agree (the predicate `Consistent`), because that agreement is the codec's own behaviour and is not defined here.
- The zero value of `Encoding` (`Encoding{}`, base64fix.go:25-27), whose library reference is nil: its calls still pad the input and then reach the library through a nil codec. The model has only the two configured values, so it says nothing about calls through the zero value.
- Concurrent use of the two singletons: they are never written after initialisation.
- The `convert` field read by base64x_test.go:21-26 does not exist on `Encoding` (base64fix.go:25-27), and that test file declares another package; there is no behaviour behind it.
- The concrete `"YWJjZGU"` to `"abcde"` outcomes in base64x_test.go depend on the real decoder, which is not modelled.
