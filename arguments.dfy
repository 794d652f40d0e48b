/**
 * verify_args (searchbin.py lines 113-158): checks that exactly one pattern
 * source was given, compiles it, and normalises the buffer size and the end
 * bound on the argument object in place.
 */
module Arguments {
  import opened Wrappers
  import opened Patterns

  /** 2**23 bytes, the default and fallback buffer size. */
  const DefaultBufferSize: nat := 0x80_0000

  /**
   * A pattern file as the argument record sees it: the name it was given
   * under, and the content `file_to_pattern` reads from it.
   */
  datatype PatternFile = PatternFile(name: string, content: Bytes)

  /** Python truthiness of an optional string: present and non-empty. */
  predicate Given<T>(src: Option<seq<T>>) {
    src.Some? && |src.value| > 0
  }

  /** A pattern file counts as given by its name, whatever its content. */
  predicate Named(file: Option<PatternFile>) {
    file.Some? && |file.value.name| > 0
  }

  /** Line 119: how many of the three sources survive `filter(None, ...)`. */
  function GivenCount(file: Option<PatternFile>, text: Option<Bytes>, hex: Option<string>): (n: nat)
    ensures n <= 3
    ensures n == 0 <==> !Named(file) && !Given(text) && !Given(hex)
    ensures n == 1 ==>
      || (Named(file) && !Given(text) && !Given(hex))
      || (!Named(file) && Given(text) && !Given(hex))
      || (!Named(file) && !Given(text) && Given(hex))
  {
    (if Named(file) then 1 else 0) + (if Given(text) then 1 else 0) + (if Given(hex) then 1 else 0)
  }

  /**
   * Lines 119-132: refuse several or no sources, then compile the one given.
   * A pattern file contributes its whole content, even an empty one, as one
   * literal segment.
   */
  function SelectPattern(file: Option<PatternFile>, text: Option<Bytes>, hex: Option<string>): (r: Result<Pattern, ArgError>)
    ensures r == Err(MultiplePatterns) <==> GivenCount(file, text, hex) > 1
    ensures r == Err(NoPattern) <==> GivenCount(file, text, hex) == 0
    ensures GivenCount(file, text, hex) == 1 && Named(file) ==> r == Ok([file.value.content])
    ensures GivenCount(file, text, hex) == 1 && Given(text) ==> r == Ok(TextToPattern(text.value))
    ensures GivenCount(file, text, hex) == 1 && Given(hex) ==> r == HexToPattern(hex.value)
  {
    if GivenCount(file, text, hex) > 1 then Err(MultiplePatterns)
    else if GivenCount(file, text, hex) == 0 then Err(NoPattern)
    else if Named(file) then Ok([file.value.content])
    else if Given(text) then Ok(TextToPattern(text.value))
    else HexToPattern(hex.value)
  }

  /** A named pattern file counts even when empty: beside a text it clashes, and alone it is one empty segment. */
  lemma {:induction false} EmptyPatternFile(name: string, text: Bytes)
    requires |name| > 0 && |text| > 0
    ensures SelectPattern(Some(PatternFile(name, [])), Some(text), None) == Err(MultiplePatterns)
    ensures SelectPattern(Some(PatternFile(name, [])), None, None) == Ok([[]])
  {
  }

  /** A hex string alone selects its compiled pattern, or "no pattern" when it is empty. */
  lemma {:induction false} SelectHex(hex: string)
    ensures SelectPattern(None, None, Some(hex)) == if hex == "" then Err(NoPattern) else HexToPattern(hex)
  {
  }

  /** A text alone selects its compiled pattern, or "no pattern" when it is empty. */
  lemma {:induction false} SelectText(text: Bytes)
    ensures SelectPattern(None, Some(text), None) == if text == [] then Err(NoPattern) else Ok(TextToPattern(text))
  {
  }

  /**
   * Lines 144-149. A requested size below twice the pattern span falls back
   * to 2**23; with no request the size is twice the literal bytes, but at
   * least 2**23.
   */
  function BufferSize(requested: nat, p: Pattern): (b: nat)
    ensures requested > 0 ==> b == requested || b == DefaultBufferSize
    ensures requested > 0 && requested >= 2 * LenPattern(p) ==> b == requested
    ensures requested > 0 && requested < 2 * LenPattern(p) ==> b == DefaultBufferSize
    ensures requested == 0 ==> b == if 2 * TotalLength(p) < DefaultBufferSize then DefaultBufferSize else 2 * TotalLength(p)
    ensures 1 <= LenPattern(p) < DefaultBufferSize ==> b > LenPattern(p)
  {
    LenPatternCount(p);
    if requested > 0 then
      if requested < 2 * LenPattern(p) then DefaultBufferSize else requested
    else
      var doubled := 2 * |Join(p, [])|;
      if doubled > DefaultBufferSize then doubled else DefaultBufferSize
  }

  /**
   * Lines 144-149 as written: when a size was requested, line 145 takes the
   * length of a `str` separator joined over byte strings, which raises
   * TypeError for every pattern; None stands for that exception. Only the
   * default size survives, and it agrees with BufferSize.
   */
  function BufferSizeAsWritten(requested: nat, p: Pattern): (r: Option<nat>)
    ensures r.Some? ==> r.value == BufferSize(requested, p)
    ensures r.None? <==> requested > 0
  {
    if requested > 0 then None else Some(BufferSize(0, p))
  }

  /** A request of 16 bytes for the one-byte pattern `A` raises, where the intended check keeps 16. */
  lemma {:induction false} RequestedSizeRaises()
    ensures BufferSizeAsWritten(16, [[65]]) == None
    ensures BufferSize(16, [[65]]) == 16
  {
    LenPatternCount([[65]]);
  }

  /** Lines 152-156: an end at or before the start is dropped (0 means unbounded). */
  function EndBound(start: nat, end: nat): (e: nat)
    ensures e == 0 || start < e
    ensures e == end || e == 0
    ensures start < end ==> e == end
  {
    if end > 0 && start >= end then 0 else end
  }

  /** The argument record, its fields updated in place by Verify. */
  class SearchArgs {
    var filePattern: Option<PatternFile>
    var textPattern: Option<Bytes>
    var hexPattern: Option<string>
    var pattern: Option<Pattern>
    var maxMatches: nat
    var start: nat
    var end: nat
    var bsize: nat

    constructor ()
      ensures filePattern == None && textPattern == None && hexPattern == None && pattern == None
      ensures maxMatches == 0 && start == 0 && end == 0 && bsize == 0
    {
      filePattern, textPattern, hexPattern, pattern := None, None, None, None;
      maxMatches, start, end, bsize := 0, 0, 0, 0;
    }

    /**
     * verify_args: on a configuration error nothing changes and the error is
     * returned; otherwise the compiled pattern is stored and the buffer size
     * and end bound are normalised.
     */
    method Verify() returns (err: Option<ArgError>)
      modifies this
      ensures filePattern == old(filePattern) && textPattern == old(textPattern) && hexPattern == old(hexPattern)
      ensures maxMatches == old(maxMatches) && start == old(start)
      ensures var sel := SelectPattern(old(filePattern), old(textPattern), old(hexPattern));
        && (sel.Err? ==> err == Some(sel.error) && pattern == old(pattern) && bsize == old(bsize) && end == old(end))
        && (sel.Ok? ==> err == None && pattern == Some(sel.value)
                        && bsize == BufferSize(old(bsize), sel.value) && end == EndBound(start, old(end)))
    {
      var count := GivenCount(filePattern, textPattern, hexPattern);
      if count > 1 {
        return Some(MultiplePatterns);
      }
      if count == 0 {
        return Some(NoPattern);
      }
      var p: Pattern;
      if Named(filePattern) {
        p := [filePattern.value.content];
      } else if Given(textPattern) {
        p := TextToPattern(textPattern.value);
      } else {
        var compiled := HexToPattern(hexPattern.value);
        if compiled.Err? {
          return Some(compiled.error);
        }
        p := compiled.value;
      }
      pattern := Some(p);

      LenPatternCount(p);
      if bsize > 0 {
        if bsize < 2 * LenPattern(p) {
          bsize := DefaultBufferSize;
        }
      } else {
        bsize := 2 * |Join(p, [])|;
        if bsize < DefaultBufferSize {
          bsize := DefaultBufferSize;
        }
      }

      if end > 0 && start >= end {
        end := 0;
      }
      err := None;
    }
  }
}
