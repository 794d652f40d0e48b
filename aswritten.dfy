/**
 * The scan loop of searchbin.py (lines 172-240) as written, for every buffer
 * size and pattern, including the two cases `Scanner.SearchLoop` excludes:
 * a pattern that spans no byte (hex "0x"), and a `read_size = bsize -
 * len_pattern` that is zero or negative. Here Python's own rules apply: a
 * search position past the end of the buffer is moved back to its end, a
 * negative slice start counts from the end of the buffer, and on the
 * buffered file that `open(path, "rb")` gives, a read of size -1 reads to
 * the end of the file while a read of size -2 or less raises ValueError,
 * which no handler of the source catches. One call of `Step` is one turn of
 * the `while True` loop.
 */
module LoopAsWritten {
  import opened Patterns
  import opened Wrappers
  import Scanner

  /** Python's `buf[k:]`: what is left of `buf` once its first `k` bytes are dropped, or its last `-k` bytes when `k` is negative. */
  function SliceFrom(buf: Bytes, k: int): (r: Bytes)
    ensures |r| <= |buf| && r == buf[|buf| - |r|..]
    ensures k >= 0 ==> |r| == Scanner.Max(|buf| - k, 0)
    ensures k < 0 ==> |r| == Scanner.Min(-k, |buf|)
  {
    if k >= 0 then (if k <= |buf| then buf[k..] else [])
    else buf[|buf| - Scanner.Min(-k, |buf|)..]
  }

  /**
   * `fh_read(n)` with the handle at `pos`: `n = -1` reads everything left.
   * A smaller `n` raises ValueError; `Step` raises before it reads.
   */
  function ReadAny(file: Bytes, pos: nat, n: int): (r: Bytes)
    requires n >= -1
    ensures n >= 0 ==> r == Scanner.Read(file, pos, n)
    ensures n == -1 ==> pos + |r| >= |file| && r == Scanner.Read(file, pos, |r|)
  {
    if n >= 0 then Scanner.Read(file, pos, n) else Scanner.Read(file, pos, |file|)
  }

  /** `regex_search(buf, from)`: a `from` past the end of the buffer is searched from its end. */
  function ClampedSearch(buf: Bytes, p: Pattern, from: nat): Option<nat> {
    Scanner.Search(buf, p, Scanner.Min(from, |buf|))
  }

  /** For a pattern spanning at least one byte the clamp changes nothing. */
  lemma {:induction false} ClampedSearchAgrees(buf: Bytes, p: Pattern, from: nat)
    requires LenPattern(p) >= 1
    ensures ClampedSearch(buf, p, from) == Scanner.Search(buf, p, from)
  {
    if from > |buf| {
      assert !MatchesAt(buf, p, |buf|);
      assert Scanner.Search(buf, p, |buf| + 1) == None;
    }
  }

  /** The empty pattern matches everywhere, so a clamped search always finds the cursor or the end of the buffer. */
  lemma {:induction false} EmptyPatternSearch(buf: Bytes, from: nat)
    ensures ClampedSearch(buf, [[]], from) == Some(Scanner.Min(from, |buf|))
  {
    assert MatchesAt(buf, [[]], Scanner.Min(from, |buf|));
  }

  /**
   * The loop's variables between two turns, the list it returned, or a
   * ValueError it raised, with the offsets gathered before it, which the
   * caller never receives.
   */
  datatype State =
    | Running(offset: int, pos: nat, buffer: Bytes, found: Option<nat>, remaining: nat, result: seq<int>)
    | Stopped(result: seq<int>)
    | Raised(result: seq<int>)

  /** Lines 188-201: seek to `start`, read `len_pattern + read_size` bytes and search them. */
  function Start(file: Bytes, start: nat, bsize: nat, p: Pattern, maxMatches: nat): (s: State)
    ensures s.Running? && s.offset == start && s.result == []
    ensures s.buffer == Scanner.Read(file, start, bsize)
  {
    var buffer := ReadAny(file, start, bsize);
    Running(start, start + |buffer|, buffer, ClampedSearch(buffer, p, 0), maxMatches, [])
  }

  /** Line 233: the loop returns once the buffer holds no more than `len_pattern` bytes. */
  function Continue(lenPattern: nat, s: State): State
    requires s.Running?
  {
    if |s.buffer| <= lenPattern then Stopped(s.result) else s
  }

  /**
   * One turn of the loop (lines 204-234). With no match, `offset` moves by
   * `read_size`, the loop returns past `end`, a `read_size` below -1 raises
   * at the read of line 210, and otherwise the buffer is refilled and
   * searched from 0. With a match at `m`, `offset + m` is
   * reported, counted against `max_matches`, and the buffer is searched
   * again from `m + 1`. A turn reports at most one offset and keeps the
   * ones before it.
   */
  function Step(file: Bytes, end: nat, bsize: nat, p: Pattern, s: State): (r: State)
    requires s.Running?
    ensures s.result <= r.result && |r.result| <= |s.result| + 1
  {
    var lenPattern := LenPattern(p);
    var readSize := bsize - lenPattern;
    if s.found.None? then
      var offset := s.offset + readSize;
      if end != 0 && offset > end then Stopped(s.result)
      else if readSize < -1 then Raised(s.result)
      else
        var more := ReadAny(file, s.pos, readSize);
        var buffer := SliceFrom(s.buffer, readSize) + more;
        Continue(lenPattern, Running(offset, s.pos + |more|, buffer, ClampedSearch(buffer, p, 0), s.remaining, s.result))
    else
      var m := s.found.value;
      var result := s.result + [s.offset + m];
      if s.remaining == 1 then Stopped(result)
      else
        var remaining := if s.remaining > 0 then s.remaining - 1 else 0;
        Continue(lenPattern, Running(s.offset, s.pos, s.buffer, ClampedSearch(s.buffer, p, m + 1), remaining, result))
  }

  /** `turns` turns of the loop, fewer if it returns or raises first. Offsets once reported stay reported. */
  function Run(file: Bytes, end: nat, bsize: nat, p: Pattern, s: State, turns: nat): (r: State)
    ensures s.result <= r.result && |r.result| <= |s.result| + turns
    ensures !s.Running? ==> r == s
    decreases turns
  {
    if turns == 0 || !s.Running? then s
    else Run(file, end, bsize, p, Step(file, end, bsize, p, s), turns - 1)
  }

  // ---------------------------------------------------------------------------
  // A pattern that spans no byte
  // ---------------------------------------------------------------------------

  /** The offsets the empty pattern reports: each position of the window from `start`, then its end over and over. */
  ghost predicate CountsUp(result: seq<int>, start: nat, window: nat) {
    forall i :: 0 <= i < |result| ==> result[i] == start + Scanner.Min(i, window)
  }

  /** The loop with the empty pattern after `|result|` matches: nothing but the result and the budget has moved. */
  ghost predicate EmptyScan(s: State, start: nat, buffer: Bytes, maxMatches: nat) {
    && s.Running?
    && s.offset == start && s.buffer == buffer && |buffer| > 0
    && s.found == Some(Scanner.Min(|s.result|, |buffer|))
    && (maxMatches == 0 ==> s.remaining == 0)
    && (maxMatches > 0 ==> |s.result| < maxMatches && s.remaining == maxMatches - |s.result|)
    && CountsUp(s.result, start, |buffer|)
  }

  /** One turn with the empty pattern: one more offset, and a stop only when the budget runs out. */
  lemma {:induction false} EmptyStep(file: Bytes, end: nat, bsize: nat, s: State, start: nat, buffer: Bytes, maxMatches: nat)
    requires EmptyScan(s, start, buffer, maxMatches)
    ensures var r := Step(file, end, bsize, [[]], s);
      && |r.result| == |s.result| + 1 && CountsUp(r.result, start, |buffer|)
      && (r.Running? <==> maxMatches == 0 || |r.result| < maxMatches)
      && (r.Running? ==> EmptyScan(r, start, buffer, maxMatches))
  {
    var k := |s.result|;
    EmptyPatternSearch(buffer, k + 1);
    assert LenPattern([[]]) == 0;
    var r := Step(file, end, bsize, [[]], s);
    assert r.result == s.result + [start + Scanner.Min(k, |buffer|)];
  }

  /** `turns` turns with the empty pattern, from any point of such a scan. */
  lemma {:induction false} EmptyRun(file: Bytes, end: nat, bsize: nat, s: State, start: nat, buffer: Bytes, maxMatches: nat,
                                    turns: nat)
    requires EmptyScan(s, start, buffer, maxMatches)
    ensures var r := Run(file, end, bsize, [[]], s, turns);
      && CountsUp(r.result, start, |buffer|)
      && (maxMatches == 0 || |s.result| + turns < maxMatches ==>
            r.Running? && |r.result| == |s.result| + turns)
      && (maxMatches > 0 && |s.result| + turns >= maxMatches ==>
            r.Stopped? && |r.result| == maxMatches)
    decreases turns
  {
    if turns > 0 {
      var t := Step(file, end, bsize, [[]], s);
      EmptyStep(file, end, bsize, s, start, buffer, maxMatches);
      assert Run(file, end, bsize, [[]], s, turns) == Run(file, end, bsize, [[]], t, turns - 1);
      if t.Running? {
        EmptyRun(file, end, bsize, t, start, buffer, maxMatches, turns - 1);
      }
    }
  }

  /**
   * As written, the pattern of hex "0x" reports `start`, `start + 1`, ... up
   * to the end of the first window and then that end over and over: with no
   * cap the loop is still running after any number of turns, and with a
   * cap it returns exactly `max_matches` offsets of that kind.
   */
  lemma {:induction false} EmptyPatternRepeats(file: Bytes, start: nat, end: nat, bsize: nat, maxMatches: nat, turns: nat)
    requires start < |file| && bsize >= 1
    ensures var window := |Scanner.Read(file, start, bsize)|;
      var r := Run(file, end, bsize, [[]], Start(file, start, bsize, [[]], maxMatches), turns);
      && window >= 1
      && CountsUp(r.result, start, window)
      && (maxMatches == 0 ==> r.Running? && |r.result| == turns)
      && (maxMatches > 0 && turns >= maxMatches ==> r == Stopped(r.result) && |r.result| == maxMatches)
  {
    var s := Start(file, start, bsize, [[]], maxMatches);
    EmptyPatternSearch(s.buffer, 0);
    EmptyRun(file, end, bsize, s, start, s.buffer, maxMatches, turns);
  }

  /** The hex pattern "0x" compiles to the empty pattern. */
  lemma {:induction false} HexPrefixOnly()
    ensures HexToPattern("0x") == Ok([[]])
  {
    assert StripHexPrefix("0x") == [];
    assert HexRuns("0x") == [[]];
    var runs: seq<string> := [[]];
    assert HexCodec.Decode(runs[0]) == Some([]);
    var r := DecodeRuns(runs);
    assert r.Some? && |r.value| == 1 && r.value[0] == [];
    var empty: seq<Bytes> := [[]];
    assert r.value == empty;
  }

  // ---------------------------------------------------------------------------
  // A read size that is zero or negative
  // ---------------------------------------------------------------------------

  /**
   * As written, with `bsize == len_pattern` (a `read_size` of 0) the loop
   * returns within one turn and reports at most `start`, however long the
   * file is.
   */
  lemma {:induction false} ZeroReadSizeStops(file: Bytes, start: nat, end: nat, p: Pattern, maxMatches: nat, turns: nat)
    requires LenPattern(p) >= 1 && turns >= 1
    ensures var r := Run(file, end, LenPattern(p), p, Start(file, start, LenPattern(p), p, maxMatches), turns);
      r.Stopped? && |r.result| <= 1 && (|r.result| == 1 ==> r.result[0] == start)
  {
    var len := LenPattern(p);
    var s := Start(file, start, len, p, maxMatches);
    var t := Step(file, end, len, p, s);
    if s.found.Some? {
      ZeroReadSizeMatchTurn(file, start, end, p, maxMatches);
    } else {
      ZeroReadSizeEmptyTurn(file, start, end, p, maxMatches);
    }
    assert Run(file, end, len, p, s, turns) == Run(file, end, len, p, t, turns - 1);
  }

  /** A zero read size and a match in the first window: it is at 0, and the turn that reports it returns. */
  lemma {:induction false} ZeroReadSizeMatchTurn(file: Bytes, start: nat, end: nat, p: Pattern, maxMatches: nat)
    requires LenPattern(p) >= 1
    requires Start(file, start, LenPattern(p), p, maxMatches).found.Some?
    ensures Step(file, end, LenPattern(p), p, Start(file, start, LenPattern(p), p, maxMatches)) == Stopped([start])
  {
    var s := Start(file, start, LenPattern(p), p, maxMatches);
    assert s.found.value == 0;
    ClampedSearchAgrees(s.buffer, p, 1);
  }

  /** A zero read size and no match in the first window: the refill changes nothing, and the loop returns. */
  lemma {:induction false} ZeroReadSizeEmptyTurn(file: Bytes, start: nat, end: nat, p: Pattern, maxMatches: nat)
    requires LenPattern(p) >= 1
    requires Start(file, start, LenPattern(p), p, maxMatches).found.None?
    ensures Step(file, end, LenPattern(p), p, Start(file, start, LenPattern(p), p, maxMatches)) == Stopped([])
  {
    var s := Start(file, start, LenPattern(p), p, maxMatches);
    assert SliceFrom(s.buffer, 0) + ReadAny(file, s.pos, 0) == s.buffer;
  }

  /** The zero read size loses a match one byte into the file: "A" in "BA" with a one-byte buffer. */
  lemma {:induction false} ZeroReadSizeMisses()
    ensures MatchesAt([66, 65], [[65]], 1)
    ensures Run([66, 65], 0, 1, [[65]], Start([66, 65], 0, 1, [[65]], 0), 1) == Stopped([])
  {
    assert LenPattern([[65]]) == 1;
    ZeroReadSizeStops([66, 65], 0, 0, [[65]], 0, 1);
    assert !MatchesAt([66], [[65]], 0);
  }

  /** The file, pattern and buffer size of the negative-read-size example: span 3, buffer 2. */
  const NegFile: Bytes := [0, 0, 65, 0, 0]
  const NegPattern: Pattern := [[65], [], []]

  /** The first refill keeps the last byte of [0, 0], reads on to the end, and finds the match at 1. */
  lemma {:induction false} NegativeFirstTurn()
    ensures Step(NegFile, 0, 2, NegPattern, Start(NegFile, 0, 2, NegPattern, 0))
         == Running(-1, 5, [0, 65, 0, 0], Some(1), 0, [])
  {
    assert LenPattern(NegPattern) == 3;
    var s0 := Start(NegFile, 0, 2, NegPattern, 0);
    assert Scanner.Read(NegFile, 0, 2) == [0, 0];
    assert s0.buffer == [0, 0] && s0.pos == 2 && s0.remaining == 0;
    assert ClampedSearch([0, 0], NegPattern, 0) == None by {
      assert !MatchesAt([0, 0], NegPattern, 0);
      assert Scanner.Search([0, 0], NegPattern, 1) == None;
    }
    assert SliceFrom([0, 0], -1) == [0];
    assert ReadAny(NegFile, 2, -1) == [65, 0, 0];
    assert ClampedSearch([0, 65, 0, 0], NegPattern, 0) == Some(1) by {
      assert !MatchesAt([0, 65, 0, 0], NegPattern, 0);
      assert MatchesAt([0, 65, 0, 0], NegPattern, 1);
    }
    assert s0.found == None;
    var buffer := SliceFrom([0, 0], -1) + ReadAny(NegFile, 2, -1);
    assert buffer == [0, 65, 0, 0];
  }

  /** The second turn reports `-1 + 1` and finds nothing more from 2. */
  lemma {:induction false} NegativeSecondTurn()
    ensures Step(NegFile, 0, 2, NegPattern, Running(-1, 5, [0, 65, 0, 0], Some(1), 0, []))
         == Running(-1, 5, [0, 65, 0, 0], None, 0, [0])
  {
    assert LenPattern(NegPattern) == 3;
    assert ClampedSearch([0, 65, 0, 0], NegPattern, 2) == None by {
      assert !MatchesAt([0, 65, 0, 0], NegPattern, 2);
      assert Scanner.Search([0, 65, 0, 0], NegPattern, 3) == None;
    }
  }

  /** The third turn keeps one byte, reads nothing more, and returns. */
  lemma {:induction false} NegativeThirdTurn()
    ensures Step(NegFile, 0, 2, NegPattern, Running(-1, 5, [0, 65, 0, 0], None, 0, [0])) == Stopped([0])
  {
    assert LenPattern(NegPattern) == 3;
    assert |SliceFrom([0, 65, 0, 0], -1) + ReadAny(NegFile, 5, -1)| == 1;
  }

  /**
   * A read size of -1 moves `offset` back while the refill reads on to the
   * end of the file: for a one-byte literal, a gap and a second gap
   * (span 3) with a 2-byte buffer, the match at 2 in [0, 0, 65, 0, 0] is
   * reported as 0, where nothing matches.
   */
  lemma {:induction false} NegativeReadSizeMisreports()
    ensures MatchesAt(NegFile, NegPattern, 2)
    ensures !MatchesAt(NegFile, NegPattern, 0)
    ensures Run(NegFile, 0, 2, NegPattern, Start(NegFile, 0, 2, NegPattern, 0), 3) == Stopped([0])
  {
    NegativeMatches();
    NegativeRun();
  }

  /** In [0, 0, 65, 0, 0] the pattern of span 3 matches at 2 and not at 0. */
  lemma {:induction false} NegativeMatches()
    ensures MatchesAt(NegFile, NegPattern, 2)
    ensures !MatchesAt(NegFile, NegPattern, 0)
  {
    assert NegFile[2] == 65 && NegFile[0] != 65;
  }

  /** The three turns in a row. */
  lemma {:induction false} NegativeRun()
    ensures Run(NegFile, 0, 2, NegPattern, Start(NegFile, 0, 2, NegPattern, 0), 3) == Stopped([0])
  {
    var s0 := Start(NegFile, 0, 2, NegPattern, 0);
    var s1 := Running(-1, 5, [0, 65, 0, 0], Some(1), 0, []);
    var s2 := Running(-1, 5, [0, 65, 0, 0], None, 0, [0]);
    NegativeFirstTurn();
    assert Run(NegFile, 0, 2, NegPattern, s0, 3) == Run(NegFile, 0, 2, NegPattern, s1, 2);
    NegativeSecondTurn();
    assert Run(NegFile, 0, 2, NegPattern, s1, 2) == Run(NegFile, 0, 2, NegPattern, s2, 1);
    NegativeThirdTurn();
    assert Run(NegFile, 0, 2, NegPattern, s2, 1) == Run(NegFile, 0, 2, NegPattern, Stopped([0]), 0);
  }

  // The all-wildcard text "???" (span 3) with a 2-byte buffer: the scale
  // model of a text of 2**23 + 1 wildcards with the default 2**23 buffer,
  // where `read_size` is -1.

  const Wildcards: Pattern := [[], [], [], []]

  /** The loop starts on the first two bytes and finds no match in them. */
  lemma {:induction false} WildcardsStart(file: Bytes)
    requires file == [0, 0, 0, 0, 0]
    ensures Start(file, 0, 2, Wildcards, 0) == Running(0, 2, [0, 0], None, 0, [])
  {
    assert ReadAny(file, 0, 2) == [0, 0];
    assert ClampedSearch([0, 0], Wildcards, 0) == None by {
      assert !MatchesAt([0, 0], Wildcards, 0);
      assert Scanner.Search([0, 0], Wildcards, 1) == None;
    }
  }

  /** The refill keeps the last byte of [0, 0], reads the other three, and matches at 0. */
  lemma {:induction false} WildcardsRefill(file: Bytes)
    requires file == [0, 0, 0, 0, 0]
    ensures SliceFrom([0, 0], -1) + ReadAny(file, 2, -1) == [0, 0, 0, 0]
    ensures ClampedSearch([0, 0, 0, 0], Wildcards, 0) == Some(0)
  {
    assert SliceFrom([0, 0], -1) == [0] by {}
    assert ReadAny(file, 2, -1) == [0, 0, 0] by {}
    assert ClampedSearch([0, 0, 0, 0], Wildcards, 0) == Some(0) by {
      assert MatchesAt([0, 0, 0, 0], Wildcards, 0);
    }
  }

  /** The first turn refills [0, 0] to four bytes and finds the match at 0. */
  lemma {:induction false} WildcardsFirstTurn(file: Bytes)
    requires file == [0, 0, 0, 0, 0]
    ensures Step(file, 0, 2, Wildcards, Running(0, 2, [0, 0], None, 0, []))
         == Running(-1, 5, [0, 0, 0, 0], Some(0), 0, [])
  {
    assert LenPattern(Wildcards) == 3;
    WildcardsRefill(file);
  }

  /** The second turn reports -1 and finds the match at 1. */
  lemma {:induction false} WildcardsSecondTurn(file: Bytes)
    ensures Step(file, 0, 2, Wildcards, Running(-1, 5, [0, 0, 0, 0], Some(0), 0, []))
         == Running(-1, 5, [0, 0, 0, 0], Some(1), 0, [-1])
  {
    assert LenPattern(Wildcards) == 3;
    assert ClampedSearch([0, 0, 0, 0], Wildcards, 1) == Some(1) by {
      assert MatchesAt([0, 0, 0, 0], Wildcards, 1);
    }
  }

  /** The third turn reports 0 and finds nothing from 2. */
  lemma {:induction false} WildcardsThirdTurn(file: Bytes)
    ensures Step(file, 0, 2, Wildcards, Running(-1, 5, [0, 0, 0, 0], Some(1), 0, [-1]))
         == Running(-1, 5, [0, 0, 0, 0], None, 0, [-1, 0])
  {
    assert LenPattern(Wildcards) == 3;
    assert ClampedSearch([0, 0, 0, 0], Wildcards, 2) == None by {
      assert !MatchesAt([0, 0, 0, 0], Wildcards, 2);
      assert Scanner.Search([0, 0, 0, 0], Wildcards, 3) == None;
    }
  }

  /** The fourth turn keeps one byte, reads nothing more, and returns. */
  lemma {:induction false} WildcardsFourthTurn(file: Bytes)
    requires |file| == 5
    ensures Step(file, 0, 2, Wildcards, Running(-1, 5, [0, 0, 0, 0], None, 0, [-1, 0])) == Stopped([-1, 0])
  {
    assert LenPattern(Wildcards) == 3;
    assert |SliceFrom([0, 0, 0, 0], -1) + ReadAny(file, 5, -1)| == 1;
  }

  /**
   * As written, "???" with a 2-byte buffer in five zero bytes reports -1 and
   * 0 and nothing else, although every offset from 0 to 2 matches.
   */
  lemma {:induction false} WildcardsMisreport(file: Bytes)
    requires file == [0, 0, 0, 0, 0]
    ensures forall q: nat :: q <= 2 ==> MatchesAt(file, Wildcards, q)
    ensures Run(file, 0, 2, Wildcards, Start(file, 0, 2, Wildcards, 0), 4) == Stopped([-1, 0])
  {
    forall q: nat | q <= 2 ensures MatchesAt(file, Wildcards, q) {
    }
    var s0 := Running(0, 2, [0, 0], None, 0, []);
    var s1 := Running(-1, 5, [0, 0, 0, 0], Some(0), 0, []);
    var s2 := Running(-1, 5, [0, 0, 0, 0], Some(1), 0, [-1]);
    var s3 := Running(-1, 5, [0, 0, 0, 0], None, 0, [-1, 0]);
    WildcardsStart(file);
    WildcardsFirstTurn(file);
    assert Run(file, 0, 2, Wildcards, s0, 4) == Run(file, 0, 2, Wildcards, s1, 3);
    WildcardsSecondTurn(file);
    assert Run(file, 0, 2, Wildcards, s1, 3) == Run(file, 0, 2, Wildcards, s2, 2);
    WildcardsThirdTurn(file);
    assert Run(file, 0, 2, Wildcards, s2, 2) == Run(file, 0, 2, Wildcards, s3, 1);
    WildcardsFourthTurn(file);
    assert Run(file, 0, 2, Wildcards, s3, 1) == Run(file, 0, 2, Wildcards, Stopped([-1, 0]), 0);
  }

  /**
   * One byte less and the refilled buffer holds exactly the span: line 233
   * returns before the match at 0 is reported, so the result is empty
   * although the offsets 0 and 1 match.
   */
  lemma {:induction false} WildcardsMissAll(file: Bytes)
    requires file == [0, 0, 0, 0]
    ensures MatchesAt(file, Wildcards, 0) && MatchesAt(file, Wildcards, 1)
    ensures Run(file, 0, 2, Wildcards, Start(file, 0, 2, Wildcards, 0), 1) == Stopped([])
  {
    assert LenPattern(Wildcards) == 3;
    assert MatchesAt(file, Wildcards, 0) && MatchesAt(file, Wildcards, 1);
    var s0 := Start(file, 0, 2, Wildcards, 0);
    assert Scanner.Read(file, 0, 2) == [0, 0];
    assert s0.buffer == [0, 0] && s0.pos == 2;
    assert ClampedSearch([0, 0], Wildcards, 0) == None by {
      assert !MatchesAt([0, 0], Wildcards, 0);
      assert Scanner.Search([0, 0], Wildcards, 1) == None;
    }
    assert SliceFrom([0, 0], -1) + ReadAny(file, 2, -1) == [0, 0, 0];
    assert Step(file, 0, 2, Wildcards, s0) == Stopped([]);
  }

  /**
   * As written, a `read_size` of -2 or less raises ValueError at the read of
   * line 210 on the first turn, whatever the file: the first window holds
   * at most `bsize` bytes, fewer than the span, so nothing matches in it,
   * and with `end` either 0 or past `start` the check of line 207 does not
   * return first. No offset reaches the caller.
   */
  lemma {:induction false} ReadSizeBelowMinusOneRaises(file: Bytes, start: nat, end: nat, bsize: nat, p: Pattern,
                                                       maxMatches: nat, turns: nat)
    requires bsize + 2 <= LenPattern(p)
    requires end == 0 || end > start
    requires turns >= 1
    ensures Run(file, end, bsize, p, Start(file, start, bsize, p, maxMatches), turns) == Raised([])
  {
    var s := Start(file, start, bsize, p, maxMatches);
    assert |s.buffer| < LenPattern(p);
    assert s.found == None;
    var t := Step(file, end, bsize, p, s);
    assert t == Raised([]);
    assert Run(file, end, bsize, p, s, turns) == Run(file, end, bsize, p, t, turns - 1);
  }

  // The all-wildcard text "????" (span 4) with a 2-byte buffer: the scale
  // model of a text of 2**23 + 2 wildcards with the default 2**23 buffer,
  // where `read_size` is -2.

  const FourWildcards: Pattern := [[], [], [], [], []]

  /**
   * As written, "????" with a 2-byte buffer raises on any file, even one of
   * four bytes or more, where it matches at 0.
   */
  lemma {:induction false} WildcardsRaise(file: Bytes, turns: nat)
    requires turns >= 1
    ensures LenPattern(FourWildcards) == 4
    ensures |file| >= 4 ==> MatchesAt(file, FourWildcards, 0)
    ensures Run(file, 0, 2, FourWildcards, Start(file, 0, 2, FourWildcards, 0), turns) == Raised([])
  {
    assert LenPattern(FourWildcards) == 4;
    if |file| >= 4 {
      assert MatchesAt(file, FourWildcards, 0);
    }
    ReadSizeBelowMinusOneRaises(file, 0, 0, 2, FourWildcards, 0, turns);
  }

  /**
   * As written, the empty pattern on a window with no byte in it (an empty
   * file, or `start` at or past its end) reports `start` once and returns.
   */
  lemma {:induction false} EmptyPatternEmptyWindow(file: Bytes, start: nat, end: nat, bsize: nat, maxMatches: nat, turns: nat)
    requires start >= |file| && turns >= 1
    ensures Run(file, end, bsize, [[]], Start(file, start, bsize, [[]], maxMatches), turns) == Stopped([start])
  {
    var s := Start(file, start, bsize, [[]], maxMatches);
    assert s.buffer == [];
    EmptyPatternSearch([], 0);
    EmptyPatternSearch([], 1);
    assert LenPattern([[]]) == 0;
    var t := Step(file, end, bsize, [[]], s);
    assert t == Stopped([start]);
    assert Run(file, end, bsize, [[]], s, turns) == Run(file, end, bsize, [[]], t, turns - 1);
  }
}
