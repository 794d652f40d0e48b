/**
 * Patterns (searchbin.py lines 73-99, 179-186): a pattern is a non-empty list of
 * literal byte segments; between two consecutive segments stands exactly one
 * unknown byte. Text and hex pattern strings are compiled into this form, and
 * the scanner matches it where the source builds a regular expression
 * (each segment escaped, the segments joined by `.` under DOTALL).
 */
module Patterns {
  import opened Wrappers
  import HexCodec

  type byte = HexCodec.byte
  type Bytes = HexCodec.Bytes

  /** A compiled pattern always has at least one segment. */
  type Pattern = p: seq<Bytes> | |p| >= 1 witness [[]]

  /** The byte `?`, the wildcard of text patterns. */
  const QuestionMark: byte := 63

  /** The configuration errors of the source's `_exit_error` that reach the core. */
  datatype ArgError =
    | MultiplePatterns       // "Xpatterns"
    | NoPattern              // "0patterns"
    | BadHex(input: string)  // "decode", carrying the offending pattern string

  // ---------------------------------------------------------------------------
  // Joining and splitting (Python's `sep.join(segs)` and `s.split(sep)`)
  // ---------------------------------------------------------------------------

  function Join<T>(segs: seq<seq<T>>, sep: seq<T>): (r: seq<T>)
    requires |segs| >= 1
    ensures segs[0] <= r
    ensures |r| >= TotalLength(segs)
    decreases |segs|
  {
    if |segs| == 1 then segs[0] else segs[0] + sep + Join(segs[1..], sep)
  }

  /** Sum of the segment lengths, i.e. the length of `b"".join(segs)`. */
  function TotalLength<T>(segs: seq<seq<T>>): nat
  {
    if segs == [] then 0 else |segs[0]| + TotalLength(segs[1..])
  }

  /** Python's `s.split(sep)`: cut at each leftmost non-overlapping occurrence. */
  function SplitOn<T(==)>(s: seq<T>, sep: seq<T>): (r: seq<seq<T>>)
    requires |sep| > 0
    ensures |r| >= 1
    decreases |s|
  {
    if |s| < |sep| then [s]
    else if s[..|sep|] == sep then [[]] + SplitOn(s[|sep|..], sep)
    else
      var rest := SplitOn(s[1..], sep);
      [[s[0]] + rest[0]] + rest[1..]
  }

  lemma {:induction false} JoinLength<T>(segs: seq<seq<T>>, sep: seq<T>)
    requires |segs| >= 1
    ensures |Join(segs, sep)| == TotalLength(segs) + (|segs| - 1) * |sep|
    decreases |segs|
  {
    if |segs| > 1 {
      JoinLength(segs[1..], sep);
      assert (|segs| - 1) * |sep| == (|segs| - 2) * |sep| + |sep|;
    }
  }

  /** Gluing a prefix onto the first segment glues it onto the join. */
  lemma {:induction false} JoinGlue<T>(a: seq<T>, segs: seq<seq<T>>, sep: seq<T>)
    requires |segs| >= 1
    ensures Join([a + segs[0]] + segs[1..], sep) == a + Join(segs, sep)
  {
    var g := [a + segs[0]] + segs[1..];
    if |segs| > 1 {
      assert g[1..] == segs[1..];
    }
  }

  /** Splitting and joining back with the same separator gives the input. */
  lemma {:induction false} SplitJoin<T>(s: seq<T>, sep: seq<T>)
    requires |sep| > 0
    ensures Join(SplitOn(s, sep), sep) == s
    decreases |s|
  {
    if |s| < |sep| {
    } else if s[..|sep|] == sep {
      var rest := SplitOn(s[|sep|..], sep);
      SplitJoin(s[|sep|..], sep);
      assert SplitOn(s, sep) == [[]] + rest;
      assert ([[]] + rest)[1..] == rest;
      assert s == sep + s[|sep|..];
    } else {
      var rest := SplitOn(s[1..], sep);
      SplitJoin(s[1..], sep);
      assert SplitOn(s, sep) == [[s[0]] + rest[0]] + rest[1..];
      JoinGlue([s[0]], rest, sep);
      assert s == [s[0]] + s[1..];
    }
  }

  /** A first element that is not in the separator is glued to the first piece. */
  lemma {:induction false} SplitOnSkip<T>(s: seq<T>, sep: seq<T>)
    requires |sep| > 0 && |s| >= |sep| && s[0] !in sep
    ensures SplitOn(s, sep) == [[s[0]] + SplitOn(s[1..], sep)[0]] + SplitOn(s[1..], sep)[1..]
  {
    assert s[..|sep|] != sep by {
      assert s[..|sep|][0] == s[0] && sep[0] in sep;
    }
  }

  /** A prefix free of separator elements stays glued to the first piece. */
  lemma {:induction false} SplitOnGluedPrefix<T>(a: seq<T>, t: seq<T>, sep: seq<T>)
    requires |sep| > 0
    requires forall j :: 0 <= j < |a| ==> a[j] !in sep
    ensures SplitOn(a + t, sep) == [a + SplitOn(t, sep)[0]] + SplitOn(t, sep)[1..]
    decreases |a|
  {
    var split := SplitOn(t, sep);
    if a == [] {
      assert a + t == t && a + split[0] == split[0];
      assert [split[0]] + split[1..] == split;
    } else {
      var s := a + t;
      SplitOnGluedPrefix(a[1..], t, sep);
      assert s[1..] == a[1..] + t;
      if |s| >= |sep| {
        SplitOnSkip(s, sep);
        var rest := SplitOn(s[1..], sep);
        assert rest[0] == a[1..] + split[0] && rest[1..] == split[1..];
        assert [s[0]] + rest[0] == a + split[0];
      } else {
        assert |t| < |sep|;
        assert split == [t];
      }
    }
  }

  /**
   * Joining segments that share no element with the separator and splitting
   * again gives the segments back.
   */
  lemma {:induction false} JoinSplit<T>(segs: seq<seq<T>>, sep: seq<T>)
    requires |segs| >= 1 && |sep| > 0
    requires forall i, j :: 0 <= i < |segs| && 0 <= j < |segs[i]| ==> segs[i][j] !in sep
    ensures SplitOn(Join(segs, sep), sep) == segs
    decreases |segs|
  {
    if |segs| == 1 {
      SplitOnGluedPrefix(segs[0], [], sep);
      assert segs[0] + [] == segs[0];
    } else {
      var tail := Join(segs[1..], sep);
      JoinSplit(segs[1..], sep);
      var t := sep + tail;
      assert t[..|sep|] == sep && t[|sep|..] == tail;
      assert SplitOn(t, sep) == [[]] + segs[1..];
      SplitOnGluedPrefix(segs[0], t, sep);
      assert Join(segs, sep) == segs[0] + t;
      assert segs[0] + [] == segs[0];
    }
  }

  // ---------------------------------------------------------------------------
  // text_to_pattern (line 96-98)
  // ---------------------------------------------------------------------------

  lemma {:induction false} SplitOnOne(s: Bytes, c: byte)
    ensures |SplitOn(s, [c])| == multiset(s)[c] + 1
    ensures forall i :: 0 <= i < |SplitOn(s, [c])| ==> c !in SplitOn(s, [c])[i]
    decreases |s|
  {
    if |s| > 0 {
      SplitOnOne(s[1..], c);
      assert s == [s[0]] + s[1..];
      assert multiset(s) == multiset([s[0]]) + multiset(s[1..]);
      assert s[..1] == [s[0]];
    }
  }

  /**
   * The text is taken as its bytes (UTF-8 encoding happens before); each `?`
   * ends one segment, so there is one segment more than there are `?`, no
   * segment holds a `?`, and joining with `?` gives the text back.
   */
  function TextToPattern(text: Bytes): (r: Pattern)
    ensures |r| == multiset(text)[QuestionMark] + 1
    ensures forall i :: 0 <= i < |r| ==> QuestionMark !in r[i]
    ensures Join(r, [QuestionMark]) == text
  {
    SplitOnOne(text, QuestionMark);
    SplitJoin(text, [QuestionMark]);
    SplitOn(text, [QuestionMark])
  }

  /** A pattern free of `?` bytes is recovered from its text form. */
  lemma {:induction false} TextToPatternOfJoin(p: Pattern)
    requires forall i, j :: 0 <= i < |p| && 0 <= j < |p[i]| ==> p[i][j] != QuestionMark
    ensures TextToPattern(Join(p, [QuestionMark])) == p
  {
    JoinSplit(p, [QuestionMark]);
  }

  // ---------------------------------------------------------------------------
  // hex_to_pattern (lines 82-93)
  // ---------------------------------------------------------------------------

  /** `hex[2:]` when the string starts with "0x", else the string itself. */
  function StripHexPrefix(hex: string): (s: string)
    ensures |hex| >= 2 && hex[..2] == "0x" ==> hex == "0x" + s
    ensures !(|hex| >= 2 && hex[..2] == "0x") ==> s == hex
  {
    if |hex| >= 2 && hex[..2] == "0x" then hex[2..] else hex
  }

  /** The runs between `??` tokens. */
  function HexRuns(hex: string): (runs: seq<string>)
    ensures |runs| >= 1
    ensures Join(runs, "??") == StripHexPrefix(hex)
  {
    SplitJoin(StripHexPrefix(hex), "??");
    SplitOn(StripHexPrefix(hex), "??")
  }

  /** Decodes every run; None as soon as one of them is not valid hex. */
  function DecodeRuns(runs: seq<string>): (r: Option<seq<Bytes>>)
    ensures r.Some? <==> forall i :: 0 <= i < |runs| ==> HexCodec.Decode(runs[i]).Some?
    ensures r.Some? ==> |r.value| == |runs|
    ensures r.Some? ==> forall i :: 0 <= i < |runs| ==> HexCodec.Decode(runs[i]) == Some(r.value[i])
    ensures r.Some? ==> 2 * TotalLength(r.value) == TotalLength(runs)
  {
    if runs == [] then Some([])
    else
      match HexCodec.Decode(runs[0])
      case None => None
      case Some(b) =>
        match DecodeRuns(runs[1..])
        case None => None
        case Some(rest) => Some([b] + rest)
  }

  /**
   * Strips a leading "0x", splits on "??" and decodes each run; a run that is
   * not valid hex makes the whole conversion fail with the "decode" error.
   * Each decoded byte takes two characters and each wildcard the two
   * characters of "??", so the pattern spans half the stripped string.
   */
  function HexToPattern(hex: string): (r: Result<Pattern, ArgError>)
    ensures r.Err? <==> exists i :: 0 <= i < |HexRuns(hex)| && HexCodec.Decode(HexRuns(hex)[i]).None?
    ensures r.Err? ==> r.error == BadHex(hex)
    ensures r.Ok? ==> |r.value| == |HexRuns(hex)|
    ensures r.Ok? ==> forall i :: 0 <= i < |r.value| ==> HexCodec.Decode(HexRuns(hex)[i]) == Some(r.value[i])
    ensures r.Ok? ==> 2 * LenPattern(r.value) == |StripHexPrefix(hex)|
  {
    var runs := HexRuns(hex);
    match DecodeRuns(runs)
    case None => Err(BadHex(hex))
    case Some(p) =>
      SplitJoin(StripHexPrefix(hex), "??");
      JoinLength(runs, "??");
      JoinLength(p, [QuestionMark]);
      Ok(p)
  }

  function EncodeAll(p: Pattern): (runs: seq<string>)
    ensures |runs| == |p|
  {
    seq(|p|, i requires 0 <= i < |p| => HexCodec.Encode(p[i]))
  }

  lemma {:induction false} DecodeRunsEncodeAll(p: seq<Bytes>)
    ensures DecodeRuns(seq(|p|, i requires 0 <= i < |p| => HexCodec.Encode(p[i]))) == Some(p)
    decreases |p|
  {
    var runs := seq(|p|, i requires 0 <= i < |p| => HexCodec.Encode(p[i]));
    if p != [] {
      HexCodec.DecodeEncode(p[0]);
      DecodeRunsEncodeAll(p[1..]);
      assert runs[1..] == seq(|p[1..]|, i requires 0 <= i < |p[1..]| => HexCodec.Encode(p[1..][i]));
      assert [p[0]] + p[1..] == p;
    }
  }

  /** A string whose prefix-stripped form is the "??"-joined hex of a pattern compiles to that pattern. */
  lemma {:induction false} CompilesTo(p: Pattern, hex: string)
    requires StripHexPrefix(hex) == Join(EncodeAll(p), "??")
    ensures HexToPattern(hex) == Ok(p)
  {
    var runs := EncodeAll(p);
    forall i, j | 0 <= i < |runs| && 0 <= j < |runs[i]|
      ensures runs[i][j] !in "??"
    {
      assert HexCodec.IsHexDigit(runs[i][j]);
    }
    JoinSplit(runs, "??");
    assert HexRuns(hex) == runs;
    DecodeRunsEncodeAll(p);
  }

  /** Writing each segment in hex and joining with "??" compiles back to the pattern. */
  lemma {:induction false} HexRoundTrip(p: Pattern)
    ensures HexToPattern(Join(EncodeAll(p), "??")) == Ok(p)
  {
    var hex := Join(EncodeAll(p), "??");
    assert !(|hex| >= 2 && hex[..2] == "0x") by {
      JoinPrefix(EncodeAll(p), "??");
      if |hex| >= 2 {
        assert hex[..2][1] == hex[1];
      }
    }
    CompilesTo(p, hex);
  }

  /** The same hex text behind a "0x" prefix compiles to the same pattern. */
  lemma {:induction false} PrefixedHexRoundTrip(p: Pattern)
    ensures HexToPattern("0x" + Join(EncodeAll(p), "??")) == Ok(p)
  {
    var h := Join(EncodeAll(p), "??");
    var hex := "0x" + h;
    assert hex[..2] == "0x" && hex[2..] == h;
    CompilesTo(p, hex);
  }

  /** No character of a join of hex runs with "??" is 'x'. */
  lemma {:induction false} JoinPrefix(runs: seq<string>, sep: string)
    requires |runs| >= 1 && sep == "??"
    requires forall i, j :: 0 <= i < |runs| && 0 <= j < |runs[i]| ==> HexCodec.IsHexDigit(runs[i][j])
    ensures forall j :: 0 <= j < |Join(runs, sep)| ==> Join(runs, sep)[j] != 'x'
    decreases |runs|
  {
    if |runs| > 1 {
      JoinPrefix(runs[1..], sep);
      var rest := Join(runs[1..], sep);
      forall j | 0 <= j < |Join(runs, sep)| ensures Join(runs, sep)[j] != 'x' {
        if j < |runs[0]| {
          assert Join(runs, sep)[j] == runs[0][j];
        } else if j >= |runs[0]| + 2 {
          assert Join(runs, sep)[j] == rest[j - |runs[0]| - 2];
        }
      }
    }
  }

  // ---------------------------------------------------------------------------
  // Pattern length and the match predicate (lines 179-186)
  // ---------------------------------------------------------------------------

  /** `len(b"?".join(pattern))`: the number of bytes one match spans. */
  function LenPattern(p: Pattern): (n: nat)
    ensures |p[0]| <= n
    ensures TotalLength(p) <= n
  {
    |Join(p, [QuestionMark])|
  }

  /** The span is the literal bytes plus one byte per wildcard. */
  lemma {:induction false} LenPatternCount(p: Pattern)
    ensures LenPattern(p) == TotalLength(p) + |p| - 1
    ensures |Join(p, [])| == TotalLength(p)
  {
    JoinLength(p, [QuestionMark]);
    JoinLength(p, []);
  }

  lemma {:induction false} LenPatternStep(p: Pattern)
    requires |p| > 1
    ensures LenPattern(p) == |p[0]| + 1 + LenPattern(p[1..])
  {
  }

  /** `seg` occurs verbatim at position `at` of `buf`, compared byte by byte. */
  predicate OccursAt(buf: Bytes, seg: Bytes, at: nat)
    decreases |seg|
  {
    |seg| == 0 || (at < |buf| && buf[at] == seg[0] && OccursAt(buf, seg[1..], at + 1))
  }

  /** Whether `seg` occurs depends only on the bytes it would cover. */
  lemma {:induction false} OccursAtShift(a: Bytes, i: nat, b: Bytes, j: nat, seg: Bytes)
    requires i + |seg| <= |a| && j + |seg| <= |b|
    requires forall k :: i <= k < i + |seg| ==> a[k] == b[k - i + j]
    ensures OccursAt(a, seg, i) == OccursAt(b, seg, j)
    decreases |seg|
  {
    if |seg| > 0 {
      assert a[i] == b[j];
      OccursAtShift(a, i + 1, b, j + 1, seg[1..]);
    }
  }

  /**
   * The compiled expression `re.escape(p0) . re.escape(p1) . ...` under
   * DOTALL matches at `m`: segment 0 occurs verbatim at `m`, then one
   * arbitrary byte, then the rest of the pattern.
   */
  predicate MatchesAt(buf: Bytes, p: Pattern, m: nat)
    ensures MatchesAt(buf, p, m) ==> m + LenPattern(p) <= |buf|
    decreases |p|
  {
    && m + |p[0]| <= |buf|
    && OccursAt(buf, p[0], m)
    && (|p| == 1 || MatchesAt(buf, p[1..], m + |p[0]| + 1))
  }

  /** Where segment k starts, relative to the match: earlier literal bytes plus k gaps. */
  function SegmentStart(p: Pattern, k: nat): nat
    requires k <= |p|
  {
    TotalLength(p[..k]) + k
  }


  /** Every segment occurs verbatim at its place, with one free byte between segments. */
  ghost predicate SegmentsAt(buf: Bytes, p: Pattern, m: nat) {
    forall k :: 0 <= k < |p| ==> OccursAt(buf, p[k], m + SegmentStart(p, k))
  }

  lemma {:induction false} SegmentStartStep(p: Pattern, k: nat)
    requires 1 <= k < |p|
    ensures SegmentStart(p, k) == |p[0]| + 1 + SegmentStart(p[1..], k - 1)
  {
    assert p[..k][1..] == p[1..][..k - 1];
  }

  lemma {:induction false} MatchesAtSegments(buf: Bytes, p: Pattern, m: nat)
    requires MatchesAt(buf, p, m)
    ensures SegmentsAt(buf, p, m)
    decreases |p|
  {
    var s := p[0];
    if |p| > 1 {
      MatchesAtSegments(buf, p[1..], m + |s| + 1);
    }
    forall k | 0 <= k < |p| ensures OccursAt(buf, p[k], m + SegmentStart(p, k)) {
      if k == 0 {
        assert SegmentStart(p, 0) == 0;
      } else {
        SegmentStartStep(p, k);
        assert p[1..][k - 1] == p[k];
        assert OccursAt(buf, p[1..][k - 1], m + |s| + 1 + SegmentStart(p[1..], k - 1));
      }
    }
  }

  lemma {:induction false} SegmentsMatchAt(buf: Bytes, p: Pattern, m: nat)
    requires m + LenPattern(p) <= |buf| && SegmentsAt(buf, p, m)
    ensures MatchesAt(buf, p, m)
    decreases |p|
  {
    var s := p[0];
    assert SegmentStart(p, 0) == 0;
    assert OccursAt(buf, p[0], m + SegmentStart(p, 0));
    if |p| > 1 {
      LenPatternStep(p);
      forall k | 0 <= k < |p[1..]|
        ensures OccursAt(buf, p[1..][k], m + |s| + 1 + SegmentStart(p[1..], k))
      {
        SegmentStartStep(p, k + 1);
        assert p[1..][k] == p[k + 1];
        assert OccursAt(buf, p[k + 1], m + SegmentStart(p, k + 1));
      }
      SegmentsMatchAt(buf, p[1..], m + |s| + 1);
    }
  }

  /** The match predicate agrees with the explicit segment-by-segment reading. */
  lemma {:induction false} MatchesAtIffSegments(buf: Bytes, p: Pattern, m: nat)
    ensures MatchesAt(buf, p, m) <==> m + LenPattern(p) <= |buf| && SegmentsAt(buf, p, m)
  {
    if MatchesAt(buf, p, m) {
      MatchesAtSegments(buf, p, m);
    }
    if m + LenPattern(p) <= |buf| && SegmentsAt(buf, p, m) {
      SegmentsMatchAt(buf, p, m);
    }
  }

  /**
   * Whether a pattern matches depends only on the bytes it spans: two byte
   * strings that agree on those bytes agree on the match.
   */
  lemma {:induction false} MatchesAtShift(a: Bytes, i: nat, b: Bytes, j: nat, p: Pattern)
    requires i + LenPattern(p) <= |a| && j + LenPattern(p) <= |b|
    requires forall k :: i <= k < i + LenPattern(p) ==> a[k] == b[k - i + j]
    ensures MatchesAt(a, p, i) <==> MatchesAt(b, p, j)
    decreases |p|
  {
    var s := p[0];
    assert |s| <= LenPattern(p) by {
      if |p| > 1 { LenPatternStep(p); }
    }
    OccursAtShift(a, i, b, j, s);
    if |p| > 1 {
      LenPatternStep(p);
      MatchesAtShift(a, i + |s| + 1, b, j + |s| + 1, p[1..]);
    }
  }
}
