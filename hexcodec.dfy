/**
 * Base16 ("hex") decoding of a run of pattern text, as section 8 of RFC 4648
 * describes it and as Python's `bytes.fromhex` performs it for input without
 * whitespace: two digits per byte, upper or lower case, high nibble first.
 */
module HexCodec {
  import opened Wrappers

  type byte = x: int | 0 <= x < 256
  type Bytes = seq<byte>

  predicate IsHexDigit(c: char) {
    '0' <= c <= '9' || 'a' <= c <= 'f' || 'A' <= c <= 'F'
  }

  function DigitValue(c: char): (v: nat)
    requires IsHexDigit(c)
    ensures v < 16
  {
    if '0' <= c <= '9' then c as int - '0' as int
    else if 'a' <= c <= 'f' then c as int - 'a' as int + 10
    else c as int - 'A' as int + 10
  }

  /** The lower-case digit for a nibble; DigitValue inverts it. */
  function Digit(v: nat): (c: char)
    requires v < 16
    ensures IsHexDigit(c) && DigitValue(c) == v
  {
    if v < 10 then ('0' as int + v) as char else ('a' as int + v - 10) as char
  }

  /** Decodes a digit string; None for an odd length or a non-digit character. */
  function Decode(s: string): (r: Option<Bytes>)
    ensures r.Some? ==> 2 * |r.value| == |s|
    decreases |s|
  {
    if |s| == 0 then Some([])
    else if |s| == 1 || !IsHexDigit(s[0]) || !IsHexDigit(s[1]) then None
    else
      match Decode(s[2..])
      case None => None
      case Some(rest) => Some([16 * DigitValue(s[0]) + DigitValue(s[1])] + rest)
  }

  /** Lower-case hex text of a byte string: the inverse direction of Decode. */
  function Encode(b: Bytes): (s: string)
    ensures |s| == 2 * |b|
    ensures forall i :: 0 <= i < |s| ==> IsHexDigit(s[i])
  {
    if b == [] then "" else [Digit(b[0] / 16), Digit(b[0] % 16)] + Encode(b[1..])
  }

  /** Decoding succeeds exactly on even-length strings of hex digits. */
  lemma {:induction false} DecodeSucceeds(s: string)
    ensures Decode(s).Some? <==> |s| % 2 == 0 && forall i :: 0 <= i < |s| ==> IsHexDigit(s[i])
    decreases |s|
  {
    if |s| >= 2 {
      DecodeSucceeds(s[2..]);
      assert forall i :: 2 <= i < |s| ==> s[i] == s[2..][i - 2];
    }
  }

  /** ASCII lower-casing of one character. */
  function ToLower(c: char): char {
    if 'A' <= c <= 'Z' then (c as int + 32) as char else c
  }

  /** The string with every ASCII capital replaced by its small letter. */
  function Lowered(s: string): (t: string)
    ensures |t| == |s|
    ensures forall i :: 0 <= i < |s| ==> t[i] == ToLower(s[i])
  {
    seq(|s|, i requires 0 <= i < |s| => ToLower(s[i]))
  }

  /** Case does not matter: a digit string decodes as its lower-cased form does. */
  lemma {:induction false} DecodeIgnoresCase(s: string)
    ensures Decode(Lowered(s)) == Decode(s)
    decreases |s|
  {
    if |s| >= 2 {
      DecodeIgnoresCase(s[2..]);
      assert Lowered(s)[2..] == Lowered(s[2..]);
    }
  }

  lemma {:induction false} DecodeEncode(b: Bytes)
    ensures Decode(Encode(b)) == Some(b)
  {
    if b != [] {
      var s := Encode(b);
      DecodeEncode(b[1..]);
      assert s[2..] == Encode(b[1..]);
      assert 16 * DigitValue(s[0]) + DigitValue(s[1]) == b[0];
      assert [b[0]] + b[1..] == b;
    }
  }
}
