/** The padding-repair rule: extend an input with pad elements until its
    length is a multiple of 4, the length every padded base64 text has
    (section 3.2 and section 4 of RFC 4648). Stated once, over any element
    type, and used for Go strings (as `string`) and byte slices (as
    `seq<byte>`). */
module Padding {
  import opened Base64

  /** The pad character. */
  const PadChar: char := '='

  /** The pad character as a byte. */
  const PadByte: byte := 0x3D

  /** How many pad elements an input of length `n` needs: `4 - n % 4`, or
      none when `n` is already a multiple of 4. Being below 4, it is the
      only count below 4 that makes the length a multiple of 4. */
  function PadCount(n: nat): (k: nat)
    ensures k < 4 && (n + k) % 4 == 0
    ensures k == 0 <==> n % 4 == 0
  {
    if n % 4 == 0 then 0 else 4 - n % 4
  }

  /** `k` copies of `x` (Go's strings.Repeat, and the make-then-fill loop). */
  function Repeat<T>(x: T, k: nat): (r: seq<T>)
    ensures |r| == k
    ensures forall i :: 0 <= i < k ==> r[i] == x
  {
    if k == 0 then [] else Repeat(x, k - 1) + [x]
  }

  /** The input the shim hands to the codec: `s` followed by as many `fill`
      elements as its length needs. */
  function Repaired<T>(s: seq<T>, fill: T): (r: seq<T>)
    ensures |r| % 4 == 0
    ensures |r| == |s| + PadCount(|s|)
    ensures r[..|s|] == s
    ensures forall i :: |s| <= i < |r| ==> r[i] == fill
    ensures r == s <==> |s| % 4 == 0
  {
    var n := |s| % 4;
    if n != 0 then s + Repeat(fill, 4 - n) else s
  }

  /** A padded extension of `s`: `s` itself, then only `fill`. */
  ghost predicate PaddedExtension<T>(s: seq<T>, fill: T, t: seq<T>)
  {
    |s| <= |t| && t[..|s|] == s && forall i :: |s| <= i < |t| ==> t[i] == fill
  }

  /** Repaired is the one padded extension of `s` that is a multiple of 4
      long and adds fewer than 4 elements. */
  lemma RepairedUnique<T>(s: seq<T>, fill: T, t: seq<T>)
    requires PaddedExtension(s, fill, t)
    requires |t| % 4 == 0 && |t| - |s| < 4
    ensures t == Repaired(s, fill)
  {
  }

  /** Repair is idempotent: a repaired input is left alone. */
  lemma RepairedIdempotent<T>(s: seq<T>, fill: T)
    ensures Repaired(Repaired(s, fill), fill) == Repaired(s, fill)
  {
  }

  /** An input of length 1 mod 4 cannot encode any byte count, yet it is
      not rejected: three pad elements are appended. */
  lemma OneModFourGetsThree<T>(s: seq<T>, fill: T)
    requires |s| % 4 == 1
    ensures Repaired(s, fill) == s + [fill, fill, fill]
  {
  }

  /** Stripping up to three trailing pad elements from a correctly padded
      text and repairing it gives the text back. */
  lemma StripThenRepair<T>(e: seq<T>, fill: T, k: nat)
    requires |e| % 4 == 0 && k < 4 && k <= |e|
    requires forall i :: |e| - k <= i < |e| ==> e[i] == fill
    ensures Repaired(e[..|e| - k], fill) == e
  {
  }

  /** Go's `string(b)`: each byte becomes one character of the same value. */
  function Chars(b: seq<byte>): (s: string)
    ensures |s| == |b|
    ensures forall i :: 0 <= i < |b| ==> s[i] as int == b[i] as int
  {
    seq(|b|, i requires 0 <= i < |b| => b[i] as int as char)
  }

  /** A string whose every character stands for one byte. */
  predicate IsByteString(s: string)
  {
    forall i :: 0 <= i < |s| ==> s[i] as int < 0x100
  }

  /** Go's `[]byte(s)` for a byte string. */
  function Bytes(s: string): (b: seq<byte>)
    requires IsByteString(s)
    ensures |b| == |s|
    ensures forall i :: 0 <= i < |s| ==> b[i] as int == s[i] as int
  {
    seq(|s|, i requires 0 <= i < |s| => s[i] as int as byte)
  }

  /** The two conversions are inverse to each other. */
  lemma CharsBytesInverse(b: seq<byte>, s: string)
    ensures IsByteString(Chars(b)) && Bytes(Chars(b)) == b
    ensures IsByteString(s) ==> Chars(Bytes(s)) == s
  {
  }

  /** The byte path and the string path repair alike: repairing bytes and
      then reading them as a string is repairing the string. */
  lemma RepairBytesAsString(b: seq<byte>)
    ensures Chars(Repaired(b, PadByte)) == Repaired(Chars(b), PadChar)
  {
  }

  /** The converse direction, for strings that hold bytes. */
  lemma RepairStringAsBytes(s: string)
    requires IsByteString(s)
    ensures IsByteString(Repaired(s, PadChar))
    ensures Bytes(Repaired(s, PadChar)) == Repaired(Bytes(s), PadByte)
  {
  }
}
