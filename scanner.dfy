/**
 * The sliding-window scanner (_search_loop, searchbin.py lines 172-240). The
 * file is an immutable byte string; reading `n` bytes at position `pos`
 * yields the next `min(n, remaining)` bytes, as a file handle's `read` does
 * after `seek`.
 */
module Scanner {
  import opened Wrappers
  import opened Patterns

  function Max(a: int, b: int): int {
    if a < b then b else a
  }

  function Min(a: int, b: int): int {
    if a < b then a else b
  }

  /** `fh_read(n)` with the handle at `pos`: the next `n` bytes, fewer where the file ends. */
  function Read(file: Bytes, pos: nat, n: nat): (r: Bytes)
    ensures |r| <= n
    ensures |r| == n || pos + |r| >= |file|
  {
    file[Min(pos, |file|)..Min(pos + n, |file|)]
  }

  /**
   * `regex_search(buf, from)`: the leftmost position at or after `from` where
   * the pattern matches inside `buf`, or None when there is none.
   */
  function Search(buf: Bytes, p: Pattern, from: nat): (r: Option<nat>)
    ensures r.Some? ==> from <= r.value && r.value + LenPattern(p) <= |buf|
    decreases if from <= |buf| then |buf| + 1 - from else 0
  {
    if from > |buf| then None
    else if MatchesAt(buf, p, from) then Some(from)
    else Search(buf, p, from + 1)
  }

  /** The search finds a match at or after `from`, and none lies between `from` and it. */
  lemma {:induction false} SearchSpec(buf: Bytes, p: Pattern, from: nat)
    ensures var r := Search(buf, p, from);
      && (r.Some? ==> from <= r.value && MatchesAt(buf, p, r.value))
      && (forall k: nat :: from <= k && MatchesAt(buf, p, k) ==> r.Some? && r.value <= k)
    decreases if from <= |buf| then |buf| + 1 - from else 0
  {
    if from <= |buf| && !MatchesAt(buf, p, from) {
      SearchSpec(buf, p, from + 1);
      forall k: nat | from <= k && MatchesAt(buf, p, k) ensures from + 1 <= k {
      }
    }
  }

  // ---------------------------------------------------------------------------
  // What a result list promises
  // ---------------------------------------------------------------------------

  /** Every reported offset is a true match in the file, at or after `start`. */
  ghost predicate Sound(file: Bytes, p: Pattern, start: nat, result: seq<nat>) {
    forall i :: 0 <= i < |result| ==> start <= result[i] && MatchesAt(file, p, result[i])
  }

  /** Each reported offset is no smaller than the one before it. */
  ghost predicate NonDecreasing(result: seq<nat>) {
    forall i :: 0 < i < |result| ==> result[i - 1] <= result[i]
  }

  /** Every match at or after `start` and below `upto` has been reported. */
  ghost predicate FoundBelow(file: Bytes, p: Pattern, start: nat, result: seq<nat>, upto: int) {
    forall q: nat :: start <= q < upto && MatchesAt(file, p, q) ==> q in result
  }

  /** Every match at or after `start` has been reported. */
  ghost predicate FoundAll(file: Bytes, p: Pattern, start: nat, result: seq<nat>) {
    forall q: nat :: start <= q && MatchesAt(file, p, q) ==> q in result
  }

  /** Every match at or after `start`, and not beyond `end` when `end` is set, has been reported. */
  ghost predicate FoundUpTo(file: Bytes, p: Pattern, start: nat, end: nat, result: seq<nat>) {
    forall q: nat :: start <= q && (end == 0 || q <= end) && MatchesAt(file, p, q) ==> q in result
  }

  /**
   * The outcome of a search: true matches in non-decreasing order, at most
   * `maxMatches` of them when that is set, none skipped up to the last one,
   * and, unless the cap was reached, every match up to `end`.
   */
  ghost predicate Reported(file: Bytes, p: Pattern, start: nat, end: nat, maxMatches: nat, result: seq<nat>) {
    var matches := Sound(file, p, start, result) && NonDecreasing(result);
    var capped := maxMatches > 0 ==> |result| <= maxMatches;
    var complete :=
      && (|result| > 0 ==> FoundBelow(file, p, start, result, result[|result| - 1] + 1))
      && ((maxMatches == 0 || |result| < maxMatches) ==> FoundUpTo(file, p, start, end, result));
    // bound to one name so that the predicate is a single proof obligation
    var all := matches && capped && complete;
    all
  }

  /** `offset` is `start` or lies a whole number of `readSize` steps after it. */
  ghost predicate OnBoundary(offset: int, start: int, readSize: nat)
    requires readSize > 0
    decreases offset - start
  {
    offset == start || (offset > start && OnBoundary(offset - readSize, start, readSize))
  }

  /** Lying on a window boundary is lying a multiple of `readSize` at or after `start`. */
  lemma {:induction false} OnBoundaryMod(x: int, start: int, readSize: nat)
    requires readSize > 0
    ensures OnBoundary(x, start, readSize) <==> start <= x && (x - start) % readSize == 0
    decreases x - start
  {
    if x > start {
      OnBoundaryMod(x - readSize, start, readSize);
      ModShift(x - readSize - start, readSize);
    }
  }

  /** Adding the divisor leaves the remainder as it was. */
  lemma {:induction false} ModShift(a: int, r: int)
    requires r > 0
    ensures (a + r) % r == a % r
  {
    var q, s := a / r, a % r;
    var u, t := (a + r) / r, (a + r) % r;
    var d := u - q - 1;
    assert d * r == s - t by {
      assert a == q * r + s;
      assert a + r == u * r + t;
      assert u * r == (d + q + 1) * r;
      assert (d + q + 1) * r == d * r + q * r + r;
    }
  }

  /**
   * A match on the boundary of two windows is reported twice: at the end of
   * one window and again at the start of the next. No other offset repeats:
   * a repeat lies past `start` at a whole number of `readSize` steps from it,
   * and no offset is reported three times.
   */
  ghost predicate FewRepeats(result: seq<nat>, start: nat, readSize: nat)
    requires readSize > 0
  {
    && (forall i, j :: 0 <= i && j == i + 1 && j < |result| && result[i] == result[j] ==>
          start < result[j] && OnBoundary(result[j], start, readSize))
    && (forall i, j :: 0 <= i && j == i + 2 && j < |result| ==> result[i] < result[j])
  }

  /**
   * With `end` set, no reported offset lies more than `slack` bytes past
   * `max(start, end)`: the check against `end` happens once per refill, so
   * matches inside the last window may pass `end` by up to `read_size`.
   */
  ghost predicate EndBounded(result: seq<nat>, start: nat, end: nat, slack: int) {
    end > 0 ==> forall i :: 0 <= i < |result| ==> result[i] <= Max(start, end) + slack
  }

  /**
   * Everything a scan of `file` with buffer size `bsize` promises about its
   * offsets: they are the matches `Reported` describes, they pass `end` by
   * at most one `read_size`, and only window boundaries repeat, twice at most.
   */
  ghost predicate Scanned(file: Bytes, p: Pattern, start: nat, end: nat, bsize: nat, maxMatches: nat, result: seq<nat>)
    requires LenPattern(p) < bsize
  {
    var readSize := bsize - LenPattern(p);
    // bound to one name so that the predicate is a single proof obligation
    var all := Reported(file, p, start, end, maxMatches, result)
      && EndBounded(result, start, end, readSize)
      && FewRepeats(result, start, readSize);
    all
  }

  // ---------------------------------------------------------------------------
  // Lemmas about the window
  // ---------------------------------------------------------------------------

  /** A match inside the window is a match in the file at the shifted position, and back. */
  lemma {:induction false} WindowMatch(file: Bytes, p: Pattern, lo: nat, n: nat, m: nat)
    requires LenPattern(p) >= 1
    ensures MatchesAt(Read(file, lo, n), p, m)
        <==> m + LenPattern(p) <= |Read(file, lo, n)| && MatchesAt(file, p, lo + m)
  {
    var w := Read(file, lo, n);
    var len := LenPattern(p);
    if m + len <= |w| {
      forall t | m <= t < m + len ensures w[t] == file[t - m + (lo + m)] {
      }
      MatchesAtShift(w, m, file, lo + m, p);
    }
  }

  /**
   * A search of the window from `cursor` that finds nothing extends what has
   * been reported up to the last position where a whole match still fits.
   */
  lemma {:induction false} NoMatchBeyond(file: Bytes, p: Pattern, start: nat, result: seq<nat>, offset: nat, bsize: nat, cursor: nat)
    requires LenPattern(p) >= 1
    requires Search(Read(file, offset, bsize), p, cursor).None?
    requires FoundBelow(file, p, start, result, offset + cursor)
    ensures FoundBelow(file, p, start, result, offset + |Read(file, offset, bsize)| - LenPattern(p) + 1)
  {
    var w := Read(file, offset, bsize);
    SearchSpec(w, p, cursor);
    forall q: nat | start <= q < offset + |w| - LenPattern(p) + 1 && MatchesAt(file, p, q)
      ensures q in result
    {
      if q >= offset + cursor {
        WindowMatch(file, p, offset, bsize, q - offset);
      }
    }
  }

  /** When the window came back short, the file ends with it. */
  lemma {:induction false} ShortTail(file: Bytes, p: Pattern, lo: nat, n: nat)
    requires |Read(file, lo, n)| < n
    ensures forall q: nat :: MatchesAt(file, p, q) ==> q + LenPattern(p) <= lo + |Read(file, lo, n)|
  {
  }

  /**
   * A refill drops `readSize` bytes from the front and appends what the
   * handle returns: the result is the window `readSize` bytes further on.
   */
  lemma {:induction false} Refill(file: Bytes, offset: nat, bsize: nat, readSize: nat, pos: nat)
    requires 1 <= readSize < bsize
    requires pos == offset + bsize || (|file| <= pos && |file| <= offset + bsize)
    ensures var w := Read(file, offset, bsize);
      var more := Read(file, pos, readSize);
      && (if readSize <= |w| then w[readSize..] else []) + more == Read(file, offset + readSize, bsize)
      && (pos + |more| == offset + readSize + bsize || (|file| <= pos + |more| && |file| <= offset + readSize + bsize))
  {
    var w := Read(file, offset, bsize);
    var more := Read(file, pos, readSize);
    var keep := if readSize <= |w| then w[readSize..] else [];
    var next := offset + readSize;
    if pos < |file| {
      var hi := Min(pos + readSize, |file|);
      SliceTail(file, offset, pos, readSize);
      SliceSplit(file, next, pos, hi);
    } else if readSize <= |w| {
      SliceTail(file, offset, |file|, readSize);
    }
  }

  /** Dropping `k` elements from a slice starts it `k` later. */
  lemma {:induction false} SliceTail<T>(s: seq<T>, lo: nat, hi: nat, k: nat)
    requires lo + k <= hi <= |s|
    ensures s[lo..hi][k..] == s[lo + k..hi]
  {
  }

  /** A slice is its two halves joined. */
  lemma {:induction false} SliceSplit<T>(s: seq<T>, lo: nat, mid: nat, hi: nat)
    requires lo <= mid <= hi <= |s|
    ensures s[lo..hi] == s[lo..mid] + s[mid..hi]
  {
  }

  /** Appending a true match no smaller than the last keeps the result sound and non-decreasing. */
  lemma {:induction false} AppendMatch(file: Bytes, p: Pattern, start: nat, result: seq<nat>, x: nat)
    requires Sound(file, p, start, result) && NonDecreasing(result)
    requires start <= x && MatchesAt(file, p, x)
    requires |result| > 0 ==> result[|result| - 1] <= x
    ensures Sound(file, p, start, result + [x]) && NonDecreasing(result + [x])
  {
    var r := result + [x];
    assert forall i :: 0 <= i < |result| ==> r[i] == result[i];
  }

  // ---------------------------------------------------------------------------
  // _search_loop
  // ---------------------------------------------------------------------------

  /**
   * The window: `buffer` holds the `bsize` bytes of the file at `offset`,
   * clipped at its end, and the handle stands just past them.
   */
  ghost predicate Window(file: Bytes, bsize: nat, offset: nat, pos: nat, buffer: Bytes) {
    && buffer == Read(file, offset, bsize)
    && (pos == offset + bsize || (|file| <= pos && |file| <= offset + bsize))
  }

  /** `found` is the search of the window from `cursor`; a match it finds lies wholly inside the window. */
  ghost predicate Cursor(buffer: Bytes, p: Pattern, found: Option<nat>, cursor: nat) {
    && (cursor == 0 || cursor + LenPattern(p) <= |buffer| + 1)
    && found == Search(buffer, p, cursor)
    && (found.Some? ==> cursor <= found.value && found.value + LenPattern(p) <= |buffer|)
  }

  /**
   * The results so far are true matches in non-decreasing order; none is missing
   * up to the last one or below `offset + cursor`, and the last one lies
   * below that point (at it, when the cursor is at the start of the window).
   */
  ghost predicate Progress(file: Bytes, p: Pattern, start: nat, result: seq<nat>, offset: nat, cursor: nat) {
    && Sound(file, p, start, result)
    && NonDecreasing(result)
    && (|result| > 0 ==> result[|result| - 1] <= offset + cursor)
    && (|result| > 0 && cursor > 0 ==> result[|result| - 1] < offset + cursor)
    && (|result| > 0 ==> FoundBelow(file, p, start, result, result[|result| - 1] + 1))
    && FoundBelow(file, p, start, result, offset + cursor)
  }

  /** `remaining` counts down from `maxMatches`, and stays 0 when there is no cap. */
  ghost predicate Budget(maxMatches: nat, remaining: nat, result: seq<nat>) {
    && (maxMatches == 0 ==> remaining == 0)
    && (maxMatches > 0 ==> 1 <= remaining && remaining + |result| == maxMatches)
  }

  /** With `end` set, the window starts at or before `max(start, end)` and the results keep within `slack` of it. */
  ghost predicate Bounded(start: nat, end: nat, offset: nat, result: seq<nat>, slack: int) {
    && (end > 0 ==> offset <= Max(start, end))
    && EndBounded(result, start, end, slack)
  }

  /**
   * Windows start whole `readSize` steps after `start`. Once something is
   * reported, a window searched from its start lies past `start`, and an
   * offset already reported twice lies at or before the window start (before
   * it while the cursor is still at the start), so it cannot come back.
   */
  ghost predicate Repeats(start: nat, readSize: nat, offset: nat, cursor: nat, result: seq<nat>)
    requires readSize > 0
  {
    && OnBoundary(offset, start, readSize)
    && (|result| > 0 && cursor == 0 ==> start < offset)
    && (|result| > 1 && result[|result| - 2] == result[|result| - 1] ==>
          result[|result| - 1] <= offset && (cursor == 0 ==> result[|result| - 1] < offset))
    && FewRepeats(result, start, readSize)
  }

  /** The loop invariant of the scanner, part by part. */
  ghost predicate ScanInv(file: Bytes, p: Pattern, start: nat, end: nat, bsize: nat, maxMatches: nat,
                          offset: nat, pos: nat, buffer: Bytes, found: Option<nat>, cursor: nat,
                          result: seq<nat>, remaining: nat)
  {
    var sizes := 1 <= LenPattern(p) < bsize && start <= offset;
    var window := Window(file, bsize, offset, pos, buffer);
    var search := Cursor(buffer, p, found, cursor);
    var progress := Progress(file, p, start, result, offset, cursor);
    var budget := Budget(maxMatches, remaining, result);
    var bounded := Bounded(start, end, offset, result, bsize - LenPattern(p));
    var repeats := sizes && Repeats(start, bsize - LenPattern(p), offset, cursor, result);
    // bound to one name so that the predicate is a single proof obligation
    var all := sizes && window && search && progress && budget && bounded && repeats;
    all
  }

  // Each step of the loop is argued part by part: the window, the cursor,
  // the results and the bounds each have a lemma of their own.

  /** The window after a refill is the window `readSize` bytes further on. */
  lemma {:induction false} RefillWindow(file: Bytes, bsize: nat, offset: nat, pos: nat, buffer: Bytes, readSize: nat,
                     offset': nat, pos': nat, buffer': Bytes)
    requires 1 <= readSize < bsize
    requires Window(file, bsize, offset, pos, buffer)
    requires offset' == offset + readSize
    requires buffer' == (if readSize <= |buffer| then buffer[readSize..] else []) + Read(file, pos, readSize)
    requires pos' == pos + |Read(file, pos, readSize)|
    ensures Window(file, bsize, offset', pos', buffer')
  {
    Refill(file, offset, bsize, readSize, pos);
  }

  /** Searching the window afresh from `from` sets up the cursor. */
  lemma {:induction false} CursorFrom(buffer: Bytes, p: Pattern, from: nat)
    requires LenPattern(p) >= 1
    requires from == 0 || from + LenPattern(p) <= |buffer| + 1
    ensures Cursor(buffer, p, Search(buffer, p, from), from)
  {
    var found := Search(buffer, p, from);
    SearchSpec(buffer, p, from);
  }

  /**
   * No match from the cursor to the end of the window: nothing is missing
   * up to the last position where a whole match fits in it, nothing at all
   * when the window is the tail of the file, and the results stand as they
   * are for the window `bsize - len_pattern` bytes further on.
   */
  lemma {:induction false} NoMatchProgress(file: Bytes, p: Pattern, start: nat, bsize: nat, offset: nat, pos: nat, buffer: Bytes,
                        cursor: nat, result: seq<nat>)
    requires 1 <= LenPattern(p) < bsize
    requires Window(file, bsize, offset, pos, buffer)
    requires Cursor(buffer, p, None, cursor)
    requires Progress(file, p, start, result, offset, cursor)
    ensures FoundBelow(file, p, start, result, offset + |buffer| - LenPattern(p) + 1)
    ensures |buffer| < bsize ==> FoundAll(file, p, start, result)
    ensures Progress(file, p, start, result, offset + bsize - LenPattern(p), 0)
  {
    NoMatchBeyond(file, p, start, result, offset, bsize, cursor);
    if |buffer| < bsize {
      ShortTail(file, p, offset, bsize);
    }
  }

  /** A match at `m` in the window is reported, and the cursor moves just past it. */
  lemma {:induction false} MatchProgress(file: Bytes, p: Pattern, start: nat, bsize: nat, offset: nat, pos: nat, buffer: Bytes,
                      m: nat, cursor: nat, result: seq<nat>)
    requires 1 <= LenPattern(p) && start <= offset
    requires Window(file, bsize, offset, pos, buffer)
    requires Cursor(buffer, p, Some(m), cursor)
    requires Progress(file, p, start, result, offset, cursor)
    ensures Progress(file, p, start, result + [offset + m], offset, m + 1)
  {
    var result' := result + [offset + m];
    SearchSpec(buffer, p, cursor);
    forall q: nat | start <= q < offset + m + 1 && MatchesAt(file, p, q)
      ensures q in result'
    {
      if offset + cursor <= q < offset + m {
        WindowMatch(file, p, offset, bsize, q - offset);
      }
    }
    WindowMatch(file, p, offset, bsize, m);
    AppendMatch(file, p, start, result, offset + m);
  }

  /** A window that came back short leaves nothing unreported once everything below `upto` is. */
  lemma {:induction false} ShortWindowAll(file: Bytes, p: Pattern, start: nat, result: seq<nat>, lo: nat, n: nat, upto: int)
    requires |Read(file, lo, n)| < n
    requires lo + |Read(file, lo, n)| - LenPattern(p) < upto
    requires FoundBelow(file, p, start, result, upto)
    ensures FoundAll(file, p, start, result)
  {
    ShortTail(file, p, lo, n);
  }

  /** An offset appended within `slack` of `max(start, end)` keeps the results bounded. */
  lemma {:induction false} BoundedAppend(start: nat, end: nat, offset: nat, result: seq<nat>, slack: int, x: nat)
    requires Bounded(start, end, offset, result, slack)
    requires end > 0 ==> x <= Max(start, end) + slack
    ensures Bounded(start, end, offset, result + [x], slack)
  {
    var r := result + [x];
    assert forall i :: 0 <= i < |result| ==> r[i] == result[i];
  }

  /** Where the loop stops, its results are what `Reported` promises. */
  lemma {:induction false} Conclude(file: Bytes, p: Pattern, start: nat, end: nat, maxMatches: nat, result: seq<nat>,
                 offset: nat, cursor: nat)
    requires Progress(file, p, start, result, offset, cursor)
    requires maxMatches > 0 ==> |result| <= maxMatches
    requires (maxMatches == 0 || |result| < maxMatches) ==> FoundUpTo(file, p, start, end, result)
    ensures Reported(file, p, start, end, maxMatches, result)
  {
  }

  /** A refill moves the window one `readSize` step on and the cursor back to its start. */
  lemma {:induction false} RepeatsRefill(start: nat, readSize: nat, offset: nat, cursor: nat, result: seq<nat>)
    requires readSize > 0 && start <= offset
    requires Repeats(start, readSize, offset, cursor, result)
    ensures Repeats(start, readSize, offset + readSize, 0, result)
  {
  }

  /**
   * Reporting the match at `m`, found from the cursor: it repeats the last
   * offset only when both sit at the start of a window past `start`.
   */
  lemma {:induction false} RepeatsMatch(start: nat, readSize: nat, offset: nat, cursor: nat, result: seq<nat>, m: nat)
    requires readSize > 0
    requires Repeats(start, readSize, offset, cursor, result)
    requires NonDecreasing(result)
    requires cursor <= m
    requires |result| > 0 ==> result[|result| - 1] <= offset + cursor
    requires |result| > 0 && cursor > 0 ==> result[|result| - 1] < offset + cursor
    ensures Repeats(start, readSize, offset, m + 1, result + [offset + m])
  {
    var r := result + [offset + m];
    assert forall i :: 0 <= i < |result| ==> r[i] == result[i];
  }

  lemma {:induction false} ScanStart(file: Bytes, p: Pattern, start: nat, end: nat, bsize: nat, maxMatches: nat)
    requires 1 <= LenPattern(p) < bsize
    ensures var buffer := Read(file, start, bsize);
      ScanInv(file, p, start, end, bsize, maxMatches, start, start + |buffer|, buffer,
              Search(buffer, p, 0), 0, [], maxMatches)
  {
    CursorFrom(Read(file, start, bsize), p, 0);
  }

  /** No match and the refill would pass `end`: everything up to `end` is reported. */
  lemma {:induction false} NoMatchPastEnd(file: Bytes, p: Pattern, start: nat, end: nat, bsize: nat, maxMatches: nat,
                       offset: nat, pos: nat, buffer: Bytes, cursor: nat, result: seq<nat>, remaining: nat)
    requires ScanInv(file, p, start, end, bsize, maxMatches, offset, pos, buffer, None, cursor, result, remaining)
    requires end > 0 && offset + bsize - LenPattern(p) > end
    ensures Reported(file, p, start, end, maxMatches, result)
    ensures EndBounded(result, start, end, bsize - LenPattern(p))
    ensures FewRepeats(result, start, bsize - LenPattern(p))
  {
    NoMatchProgress(file, p, start, bsize, offset, pos, buffer, cursor, result);
    Conclude(file, p, start, end, maxMatches, result, offset, cursor);
  }

  /** The invariant survives a refill that stays within `end`. */
  lemma {:induction false} RefillInv(file: Bytes, p: Pattern, start: nat, end: nat, bsize: nat, maxMatches: nat,
                 offset: nat, pos: nat, buffer: Bytes, cursor: nat, result: seq<nat>, remaining: nat,
                 readSize: nat, offset': nat, pos': nat, buffer': Bytes, found': Option<nat>, cursor': nat)
    requires ScanInv(file, p, start, end, bsize, maxMatches, offset, pos, buffer, None, cursor, result, remaining)
    requires readSize == bsize - LenPattern(p)
    requires offset' == offset + readSize
    requires !(end > 0 && offset' > end)
    requires buffer' == (if readSize <= |buffer| then buffer[readSize..] else []) + Read(file, pos, readSize)
    requires pos' == pos + |Read(file, pos, readSize)|
    requires found' == Search(buffer', p, 0) && cursor' == 0
    ensures ScanInv(file, p, start, end, bsize, maxMatches, offset', pos', buffer', found', cursor', result, remaining)
  {
    RefillWindow(file, bsize, offset, pos, buffer, readSize, offset', pos', buffer');
    RepeatsRefill(start, readSize, offset, cursor, result);
    NoMatchProgress(file, p, start, bsize, offset, pos, buffer, cursor, result);
    assert offset + bsize - LenPattern(p) == offset';
    CursorFrom(buffer', p, 0);
  }

  /**
   * No match: drop `read_size` bytes from the front, append the next
   * `read_size` bytes of the file and search the new window from 0.
   */
  lemma {:induction false} NoMatchRefill(file: Bytes, p: Pattern, start: nat, end: nat, bsize: nat, maxMatches: nat,
                      offset: nat, pos: nat, buffer: Bytes, cursor: nat, result: seq<nat>, remaining: nat,
                      readSize: nat, offset': nat, pos': nat, buffer': Bytes, found': Option<nat>, cursor': nat)
    requires ScanInv(file, p, start, end, bsize, maxMatches, offset, pos, buffer, None, cursor, result, remaining)
    requires readSize == bsize - LenPattern(p)
    requires offset' == offset + readSize
    requires !(end > 0 && offset' > end)
    requires buffer' == (if readSize <= |buffer| then buffer[readSize..] else []) + Read(file, pos, readSize)
    requires pos' == pos + |Read(file, pos, readSize)|
    requires found' == Search(buffer', p, 0) && cursor' == 0
    ensures ScanInv(file, p, start, end, bsize, maxMatches, offset', pos', buffer', found', cursor', result, remaining)
    ensures |buffer'| <= LenPattern(p) ==>
      && Reported(file, p, start, end, maxMatches, result)
      && EndBounded(result, start, end, bsize - LenPattern(p))
      && FewRepeats(result, start, bsize - LenPattern(p))
    ensures |buffer'| > LenPattern(p) ==> offset < offset' < |file|
  {
    RefillInv(file, p, start, end, bsize, maxMatches, offset, pos, buffer, cursor, result, remaining,
              readSize, offset', pos', buffer', found', cursor');
    RefillWindow(file, bsize, offset, pos, buffer, readSize, offset', pos', buffer');
    NoMatchProgress(file, p, start, bsize, offset, pos, buffer, cursor, result);
    if |buffer'| <= LenPattern(p) {
      if |buffer| == bsize {
        ShortWindowAll(file, p, start, result, offset', bsize, offset' + 1);
      }
      Conclude(file, p, start, end, maxMatches, result, offset', 0);
    }
  }

  /** A match at `m` that uses up the last of `max_matches`: the search is over. */
  lemma {:induction false} MatchCapped(file: Bytes, p: Pattern, start: nat, end: nat, bsize: nat, maxMatches: nat,
                                       offset: nat, pos: nat, buffer: Bytes, m: nat, cursor: nat, result: seq<nat>,
                                       remaining: nat, result': seq<nat>)
    requires ScanInv(file, p, start, end, bsize, maxMatches, offset, pos, buffer, Some(m), cursor, result, remaining)
    requires remaining == 1
    requires result' == result + [offset + m]
    ensures Reported(file, p, start, end, maxMatches, result')
    ensures EndBounded(result', start, end, bsize - LenPattern(p))
    ensures FewRepeats(result', start, bsize - LenPattern(p))
  {
    MatchProgress(file, p, start, bsize, offset, pos, buffer, m, cursor, result);
    RepeatsMatch(start, bsize - LenPattern(p), offset, cursor, result, m);
    BoundedAppend(start, end, offset, result, bsize - LenPattern(p), offset + m);
    Conclude(file, p, start, end, maxMatches, result', offset, m + 1);
  }

  /**
   * A match at `m` with the cap not reached: report `offset + m`, count it,
   * and search the window again from `m + 1`.
   */
  lemma {:induction false} MatchContinue(file: Bytes, p: Pattern, start: nat, end: nat, bsize: nat, maxMatches: nat,
                                         offset: nat, pos: nat, buffer: Bytes, m: nat, cursor: nat, result: seq<nat>,
                                         remaining: nat, result': seq<nat>, remaining': nat, found': Option<nat>,
                                         cursor': nat)
    requires ScanInv(file, p, start, end, bsize, maxMatches, offset, pos, buffer, Some(m), cursor, result, remaining)
    requires remaining != 1
    requires result' == result + [offset + m]
    requires remaining' == if remaining > 0 then remaining - 1 else 0
    requires found' == Search(buffer, p, m + 1) && cursor' == m + 1
    ensures ScanInv(file, p, start, end, bsize, maxMatches, offset, pos, buffer, found', cursor', result', remaining')
    ensures |buffer| <= LenPattern(p) ==>
      && Reported(file, p, start, end, maxMatches, result')
      && EndBounded(result', start, end, bsize - LenPattern(p))
      && FewRepeats(result', start, bsize - LenPattern(p))
  {
    MatchProgress(file, p, start, bsize, offset, pos, buffer, m, cursor, result);
    RepeatsMatch(start, bsize - LenPattern(p), offset, cursor, result, m);
    BoundedAppend(start, end, offset, result, bsize - LenPattern(p), offset + m);
    CursorFrom(buffer, p, m + 1);
    if |buffer| <= LenPattern(p) {
      ShortWindowAll(file, p, start, result', offset, bsize, offset + m + 1);
      Conclude(file, p, start, end, maxMatches, result', offset, m + 1);
    }
  }

  /**
   * The scanner. It needs `read_size = bsize - len_pattern >= 1` and a
   * pattern that spans at least one byte.
   */
  method SearchLoop(file: Bytes, start: nat, end: nat, bsize: nat, pattern: Pattern, maxMatches: nat)
    returns (result: seq<nat>)
    requires 1 <= LenPattern(pattern) < bsize
    ensures Reported(file, pattern, start, end, maxMatches, result)
    ensures EndBounded(result, start, end, bsize - LenPattern(pattern))
    ensures FewRepeats(result, start, bsize - LenPattern(pattern))
  {
    result := [];
    var lenPattern := LenPattern(pattern);
    var readSize := bsize - lenPattern;
    var offset: nat := start;
    var pos: nat := start;  // fh_seek(start)
    var buffer := Read(file, pos, lenPattern + readSize);
    pos := pos + |buffer|;
    var found := Search(buffer, pattern, 0);
    var remaining: nat := maxMatches;
    ghost var cursor: nat := 0;
    ScanStart(file, pattern, start, end, bsize, maxMatches);

    while true
      invariant ScanInv(file, pattern, start, end, bsize, maxMatches, offset, pos, buffer, found, cursor, result, remaining)
      decreases if offset <= |file| then |file| - offset else 0,
                if found.Some? then |buffer| + 1 - found.value else 0
    {
      if found.None? {
        if end > 0 && offset + readSize > end {
          NoMatchPastEnd(file, pattern, start, end, bsize, maxMatches, offset, pos, buffer, cursor, result, remaining);
        }
        ghost var offset0, pos0, buffer0, cursor0 := offset, pos, buffer, cursor;
        offset := offset + readSize;
        if end > 0 && offset > end {
          return;
        }
        var more := Read(file, pos, readSize);
        buffer := (if readSize <= |buffer| then buffer[readSize..] else []) + more;
        pos := pos + |more|;
        found := Search(buffer, pattern, 0);
        cursor := 0;
        NoMatchRefill(file, pattern, start, end, bsize, maxMatches, offset0, pos0, buffer0, cursor0,
                      result, remaining, readSize, offset, pos, buffer, found, cursor);
      } else {
        var m := found.value;
        // The guard of line 216 requires `match == -1` inside the branch
        // where a match was found, so it never holds and is not modelled.
        ghost var result0, remaining0, cursor0 := result, remaining, cursor;
        result := result + [offset + m];
        if remaining > 0 {
          remaining := remaining - 1;
          if remaining == 0 {
            MatchCapped(file, pattern, start, end, bsize, maxMatches, offset, pos, buffer, m, cursor0, result0,
                        remaining0, result);
            return;
          }
        }
        found := Search(buffer, pattern, m + 1);
        cursor := m + 1;
        MatchContinue(file, pattern, start, end, bsize, maxMatches, offset, pos, buffer, m, cursor0, result0,
                      remaining0, result, remaining, found, cursor);
      }
      if |buffer| <= lenPattern {
        return;
      }
    }
  }
}
