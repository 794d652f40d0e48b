/**
 * The library entry points (searchbin.py lines 253-299): build an argument
 * record, verify it, and run the scanner over the file's bytes. Opening the
 * file is replaced by passing its content.
 */
module Searchbin {
  import opened Wrappers
  import opened Patterns
  import Arguments
  import opened Scanner

  /** A hex pattern other than "" and "0x" spans at least one byte once compiled. */
  lemma {:induction false} HexSpan(hex: string, p: Pattern)
    requires hex != "" && hex != "0x"
    requires HexToPattern(hex) == Ok(p)
    ensures LenPattern(p) >= 1
  {
  }

  /**
   * search (lines 161-170): forward the fields of a verified argument record
   * to the scan loop.
   */
  method RunSearch(args: Arguments.SearchArgs, file: Bytes) returns (result: seq<nat>)
    requires args.pattern.Some? && 1 <= LenPattern(args.pattern.value) < args.bsize
    ensures Scanned(file, args.pattern.value, args.start, args.end, args.bsize, args.maxMatches, result)
  {
    result := SearchLoop(file, args.start, args.end, args.bsize, args.pattern.value, args.maxMatches);
  }

  /**
   * The steps search_hex and search_text share (lines 271-280 and 289-298):
   * verify the record, stop on a configuration error, otherwise scan the
   * file with the verified record.
   */
  method VerifyAndSearch(args: Arguments.SearchArgs, file: Bytes) returns (r: Result<seq<nat>, ArgError>)
    modifies args
    requires var sel := Arguments.SelectPattern(args.filePattern, args.textPattern, args.hexPattern);
      sel.Ok? ==> 1 <= LenPattern(sel.value) < Arguments.BufferSize(args.bsize, sel.value)
    ensures var sel := Arguments.SelectPattern(old(args.filePattern), old(args.textPattern), old(args.hexPattern));
      && (sel.Err? ==> r == Err(sel.error))
      && (sel.Ok? ==> r.Ok? && Scanned(file, sel.value, old(args.start), Arguments.EndBound(old(args.start), old(args.end)),
                                       Arguments.BufferSize(old(args.bsize), sel.value), old(args.maxMatches), r.value))
  {
    var err := args.Verify();
    if err.Some? {
      return Err(err.value);
    }
    var result := RunSearch(args, file);
    return Ok(result);
  }

  /**
   * search_hex: an empty pattern is the "no pattern" error and undecodable
   * hex the decode error; otherwise the offsets the scanner reports for the
   * compiled pattern, with the end bound normalised as verify_args does.
   */
  method SearchHex(file: Bytes, hex: string, maxMatches: nat, start: nat, end: nat, bsize: nat)
    returns (r: Result<seq<nat>, ArgError>)
    requires hex != "0x"
    requires HexToPattern(hex).Ok? ==>
      LenPattern(HexToPattern(hex).value) < Arguments.BufferSize(bsize, HexToPattern(hex).value)
    ensures r.Ok? <==> hex != "" && HexToPattern(hex).Ok?
    ensures hex == "" ==> r == Err(NoPattern)
    ensures hex != "" && HexToPattern(hex).Err? ==> r == Err(BadHex(hex))
    ensures r.Ok? ==> Scanned(file, HexToPattern(hex).value, start, Arguments.EndBound(start, end),
                              Arguments.BufferSize(bsize, HexToPattern(hex).value), maxMatches, r.value)
  {
    var args := new Arguments.SearchArgs();
    args.hexPattern := Some(hex);
    args.maxMatches := maxMatches;
    args.start := start;
    args.end := end;
    args.bsize := bsize;
    Arguments.SelectHex(hex);
    if hex != "" && HexToPattern(hex).Ok? {
      HexSpan(hex, HexToPattern(hex).value);
    }
    r := VerifyAndSearch(args, file);
  }

  /**
   * search_text: the pattern is the text's bytes with `?` as a one-byte
   * wildcard; an empty text is the "no pattern" error.
   */
  method SearchText(file: Bytes, text: Bytes, maxMatches: nat, start: nat, end: nat, bsize: nat)
    returns (r: Result<seq<nat>, ArgError>)
    requires |text| < Arguments.BufferSize(bsize, TextToPattern(text))
    ensures r.Ok? <==> text != []
    ensures text == [] ==> r == Err(NoPattern)
    ensures r.Ok? ==> Scanned(file, TextToPattern(text), start, Arguments.EndBound(start, end),
                              Arguments.BufferSize(bsize, TextToPattern(text)), maxMatches, r.value)
  {
    var args := new Arguments.SearchArgs();
    args.textPattern := Some(text);
    args.maxMatches := maxMatches;
    args.start := start;
    args.end := end;
    args.bsize := bsize;
    Arguments.SelectText(text);
    r := VerifyAndSearch(args, file);
  }

  /**
   * What search_one_* returns: -1 when nothing matches from `start` up to
   * `end` (anywhere from `start` when `end` is 0); otherwise the first match
   * at or after `start`.
   */
  ghost predicate FirstMatch(file: Bytes, p: Pattern, start: nat, end: nat, r: int) {
    if r < 0 then
      r == -1 && forall q: nat :: start <= q && (end == 0 || q <= end) ==> !MatchesAt(file, p, q)
    else
      start <= r && MatchesAt(file, p, r) && forall q: nat :: start <= q < r ==> !MatchesAt(file, p, q)
  }

  /** A search capped at one match reports the first match, or nothing when there is none up to `end`. */
  lemma {:induction false} FirstOfReported(file: Bytes, p: Pattern, start: nat, end: nat, result: seq<nat>)
    requires Reported(file, p, start, end, 1, result)
    ensures FirstMatch(file, p, start, end, if |result| > 0 then result[0] else -1)
  {
    if |result| > 0 {
      assert |result| == 1;
      forall q: nat | start <= q < result[0] ensures !MatchesAt(file, p, q) {
      }
    } else {
      forall q: nat | start <= q && (end == 0 || q <= end) ensures !MatchesAt(file, p, q) {
      }
    }
  }

  /** search_one_hex: the first match of a hex pattern, or -1. */
  method SearchOneHex(file: Bytes, hex: string, start: nat, end: nat, bsize: nat) returns (r: Result<int, ArgError>)
    requires hex != "0x"
    requires HexToPattern(hex).Ok? ==>
      LenPattern(HexToPattern(hex).value) < Arguments.BufferSize(bsize, HexToPattern(hex).value)
    ensures r.Ok? <==> hex != "" && HexToPattern(hex).Ok?
    ensures hex == "" ==> r == Err(NoPattern)
    ensures hex != "" && HexToPattern(hex).Err? ==> r == Err(BadHex(hex))
    ensures r.Ok? ==> FirstMatch(file, HexToPattern(hex).value, start, Arguments.EndBound(start, end), r.value)
  {
    var found := SearchHex(file, hex, 1, start, end, bsize);
    if found.Err? {
      return Err(found.error);
    }
    FirstOfReported(file, HexToPattern(hex).value, start, Arguments.EndBound(start, end), found.value);
    if |found.value| > 0 {
      return Ok(found.value[0]);
    }
    return Ok(-1);
  }

  /** search_one_text: the first match of a text pattern, or -1. */
  method SearchOneText(file: Bytes, text: Bytes, start: nat, end: nat, bsize: nat) returns (r: Result<int, ArgError>)
    requires |text| < Arguments.BufferSize(bsize, TextToPattern(text))
    ensures r.Ok? <==> text != []
    ensures text == [] ==> r == Err(NoPattern)
    ensures r.Ok? ==> FirstMatch(file, TextToPattern(text), start, Arguments.EndBound(start, end), r.value)
  {
    var found := SearchText(file, text, 1, start, end, bsize);
    if found.Err? {
      return Err(found.error);
    }
    FirstOfReported(file, TextToPattern(text), start, Arguments.EndBound(start, end), found.value);
    if |found.value| > 0 {
      return Ok(found.value[0]);
    }
    return Ok(-1);
  }
}
