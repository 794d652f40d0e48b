# searchbin in Dafny

A model of the search core of `pysearchbin` (`pysearchbin/searchbin.py`), a
small library that finds a byte pattern in a binary file. A pattern is given
as text (`?` stands for any one byte), as hex digits (`??` stands for any one
byte, with an optional `0x` prefix) or as the content of a pattern file. It is
compiled into a list of literal segments with one unknown byte between each
pair. The scanner then slides a window of `bsize` bytes over the file and
reports the offsets where the pattern matches.

The model has seven modules:

- `Wrappers`: `Option` and `Result`.
- `HexCodec`: base16 decoding of one run of digits (what `bytes.fromhex` does) and a lower-case encoder that inverts it.
- `Patterns`: `hex_to_pattern` and `text_to_pattern` over Python's `split` and `join`; the span of a pattern (`len(b"?".join(pattern))`); and `MatchesAt`, the byte-level meaning of the regular expression the scanner compiles.
- `Arguments`: `verify_args`, as the method `Verify` of the class `SearchArgs`, whose fields it updates in place.
- `Scanner`: `_search_loop`, as a method with a `while` loop over the sliding window. Its loop invariant ties the window, the search cursor, the results and the match budget to the file.
- `Searchbin`: `search`, `search_hex`, `search_text`, `search_one_hex` and `search_one_text`.
- `LoopAsWritten`: the scan loop as written, one turn at a time, for the inputs `Scanner.SearchLoop` excludes: the pattern of hex `"0x"`, which spans no byte, and a `read_size` of zero or less, where a read of -2 or less raises. It shows the two defects recorded under "## Findings".

What the scanner promises (`Scanner.Reported`):

- Every reported offset is a true match at or after `start`.
- Offsets come in non-decreasing order. A match at a refill boundary can be reported twice.
- No match is skipped below the last offset reported.
- With `max_matches` set, there are at most that many.
- Unless that cap is reached, every match up to `end` is reported (every match at all when `end` is 0).

`Scanner.Scanned` adds two facts to these. `Scanner.FewRepeats` says which offsets can repeat. An offset is reported twice only when it lies past `start` on a window boundary, a whole number of `read_size` steps after `start`. No offset is reported three times. `Scanner.EndBounded` states how far past `end` a result may lie. The end check runs only when the window is refilled, and the guard on line 216 can never fire, so matches in the last window may pass `end` by up to `read_size` bytes. The model keeps that behaviour.

## Model

| member | source | states |
|---|---|---|
| HexCodec.Decode | pysearchbin/searchbin.py:90 | a decoded run is half as long as its digit string |
| HexCodec.DecodeSucceeds | pysearchbin/searchbin.py:90-91 | decoding fails (the ValueError caught on line 91) exactly when the run has odd length or a non-hex character |
| HexCodec.DecodeEncode | pysearchbin/searchbin.py:90 | decoding the hex text of any byte string gives that byte string back |
| HexCodec.DecodeIgnoresCase | pysearchbin/searchbin.py:90 | a digit string decodes exactly as its lower-cased form does, so capital digits `A`-`F` have the values of `a`-`f` |
| Patterns.Join | pysearchbin/searchbin.py:148 | `sep.join(segs)` starts with the first segment and is at least as long as its segments together |
| Patterns.JoinLength | pysearchbin/searchbin.py:179 | a join is as long as its segments together plus one separator between each pair |
| Patterns.SplitOn | pysearchbin/searchbin.py:89 | `s.split(sep)` gives at least one piece (its meaning is fixed by SplitJoin and JoinSplit) |
| Patterns.SplitJoin | pysearchbin/searchbin.py:89 | joining the pieces of `s.split(sep)` with `sep` rebuilds `s` |
| Patterns.JoinSplit | pysearchbin/searchbin.py:89 | splitting `sep.join(segs)` on `sep` gives `segs` back when no segment contains a separator character |
| Patterns.SplitOnOne | pysearchbin/searchbin.py:98 | splitting on one byte gives one piece more than the byte's occurrences, and no piece contains it |
| Patterns.TextToPattern | pysearchbin/searchbin.py:96-98 | a text pattern has one segment more than the text has `?`, no segment holds `?`, and joining the segments with `?` gives the text back |
| Patterns.TextToPatternOfJoin | pysearchbin/searchbin.py:96-98 | compiling the `?`-joined text of any `?`-free pattern gives that pattern back |
| Patterns.StripHexPrefix | pysearchbin/searchbin.py:86-87 | a string that starts with `0x` loses exactly those two characters, and any other string is kept as it is |
| Patterns.HexRuns | pysearchbin/searchbin.py:86-89 | the runs between `??` tokens, joined back with `??`, give the string after the prefix |
| Patterns.DecodeRuns | pysearchbin/searchbin.py:90 | the runs decode exactly when every run is valid hex |
| Patterns.HexToPattern | pysearchbin/searchbin.py:82-93 | a hex pattern fails with the decode error (which carries the input) exactly when some `??`-separated run is not valid hex; otherwise each segment is its run decoded, and the span is half the digits after the prefix |
| Patterns.DecodeRunsEncodeAll | pysearchbin/searchbin.py:89-90 | the runs of hex text written for any list of segments decode back to those segments |
| Patterns.HexRoundTrip | pysearchbin/searchbin.py:82-93 | compiling the `??`-joined hex text of any pattern gives that pattern back |
| Patterns.PrefixedHexRoundTrip | pysearchbin/searchbin.py:82-93 | the same hex text behind a `0x` prefix compiles to the same pattern |
| Patterns.LenPattern | pysearchbin/searchbin.py:179 | a match spans at least its first segment and at least all its literal bytes |
| Patterns.LenPatternCount | pysearchbin/searchbin.py:179 | the span of a pattern is its literal bytes plus one byte per wildcard, and `b"".join` gives just the literal bytes (line 148) |
| Patterns.MatchesAt | pysearchbin/searchbin.py:183-186 | a match of the escaped segments joined by `.` lies wholly inside the buffer searched |
| Patterns.MatchesAtIffSegments | pysearchbin/searchbin.py:183-186 | the compiled expression matches at `m` exactly when the whole span fits and every segment occurs at its own offset, whatever the bytes under the wildcards |
| Patterns.MatchesAtShift | pysearchbin/searchbin.py:183-186 | whether a pattern matches depends only on the bytes under its span |
| Arguments.GivenCount | pysearchbin/searchbin.py:119 | no source survives the filter exactly when the file name, the text and the hex string are all absent or empty, and a count of one names the single source given |
| Arguments.SelectPattern | pysearchbin/searchbin.py:119-132 | several given sources give the "Xpatterns" error and none gives "0patterns"; a single source selects the file content (a file counts by its name), the compiled text or the compiled hex |
| Arguments.EmptyPatternFile | pysearchbin/searchbin.py:119-128 | a named but empty pattern file still counts: beside a text it gives "Xpatterns", and alone it is one empty segment |
| Arguments.SelectHex | pysearchbin/searchbin.py:119-132 | a hex string on its own selects its compiled pattern, or "0patterns" when it is empty |
| Arguments.SelectText | pysearchbin/searchbin.py:119-132 | a text on its own selects its compiled pattern, or "0patterns" when it is empty |
| Arguments.BufferSize | pysearchbin/searchbin.py:143-149 | a request of at least twice the pattern span is kept and a smaller one falls back to 2**23; with no request the size is the larger of twice the literal bytes and 2**23 |
| Arguments.BufferSizeAsWritten | pysearchbin/searchbin.py:144-149 | as written, every requested size raises and only the unrequested default survives, agreeing with BufferSize |
| Arguments.RequestedSizeRaises | pysearchbin/searchbin.py:145 | a request of 16 bytes for a one-byte pattern raises as written, where the intended check keeps 16 |
| Arguments.EndBound | pysearchbin/searchbin.py:151-156 | the end bound is either unset (0) or strictly after the start; it keeps any end strictly after the start |
| Arguments.SearchArgs.constructor | pysearchbin/searchbin.py:242-251 | a new argument record has no pattern sources and zero sizes |
| Arguments.SearchArgs.Verify | pysearchbin/searchbin.py:113-158 | on a configuration error the record is unchanged and the error is returned; otherwise the pattern selected from the sources (a file by its name) is stored, the buffer size and end are normalised, and the sources, `max_matches` and `start` stay as they were |
| Scanner.Read | pysearchbin/searchbin.py:198 | a read returns at most the bytes asked for, and fewer only at the end of the file |
| Scanner.Search | pysearchbin/searchbin.py:199 | a match the search reports lies at or after the cursor and wholly inside the buffer |
| Scanner.SearchSpec | pysearchbin/searchbin.py:199-201 | a search from `from` finds the leftmost match at or after `from`, or reports none when there is no match from there |
| Scanner.WindowMatch | pysearchbin/searchbin.py:198-199 | a match at `m` in the window read at `lo` is a match at `lo + m` in the file, and back, when the span fits in the window |
| Scanner.Refill | pysearchbin/searchbin.py:209-210 | dropping `read_size` bytes and appending the next read gives the window `read_size` bytes further on, with the handle just past it |
| Scanner.AppendMatch | pysearchbin/searchbin.py:220-222 | appending a true match no smaller than the last keeps the results sound and non-decreasing |
| Scanner.CursorFrom | pysearchbin/searchbin.py:230-231 | a search of the window from a cursor finds a match that lies wholly in the window, at or after the cursor |
| Scanner.NoMatchProgress | pysearchbin/searchbin.py:204-213 | a window with no match past the cursor leaves no match unreported up to the last position where the span fits in it, and none at all when the window is the end of the file |
| Scanner.MatchProgress | pysearchbin/searchbin.py:214-231 | reporting the match at `m` leaves no match unreported below the new cursor `m + 1` |
| Scanner.ScanStart | pysearchbin/searchbin.py:188-201 | the first window and search establish the loop invariant |
| Scanner.NoMatchPastEnd | pysearchbin/searchbin.py:205-208 | stopping because the next window would start past `end` leaves every match up to `end` reported |
| Scanner.NoMatchRefill | pysearchbin/searchbin.py:204-213 | a refill that stays within `end` keeps the loop invariant; when the new window holds no more than the span (line 233), the results are complete as `Reported` promises, and otherwise the window has advanced inside the file |
| Scanner.MatchCapped | pysearchbin/searchbin.py:224-227 | stopping when the last of `max_matches` is used gives a complete, sound result |
| Scanner.MatchContinue | pysearchbin/searchbin.py:219-231 | reporting a match and searching again from `m + 1` keeps the loop invariant, and the results are complete when the window holds no more than the span (line 233) |
| Scanner.OnBoundaryMod | pysearchbin/searchbin.py:204-205 | a window starts at `start` plus a whole number of `read_size` steps: lying on a boundary is `start <= x` and `(x - start) % read_size == 0` |
| Scanner.RepeatsRefill | pysearchbin/searchbin.py:204-213 | a refill moves the window start one `read_size` step on and the cursor back to 0, keeping the rule on repeated offsets |
| Scanner.RepeatsMatch | pysearchbin/searchbin.py:214-231 | reporting the match found from the cursor repeats the last offset only when both lie at the start of a window past `start`, and never a third time |
| Scanner.SearchLoop | pysearchbin/searchbin.py:172-240 | the scanner's offsets are true matches in non-decreasing order, at most `max_matches` when it is set, none skipped below the last, and all up to `end` unless capped; none lies more than `read_size` past `max(start, end)`; an offset repeats only on a window boundary past `start`, and at most twice |
| Searchbin.HexSpan | pysearchbin/searchbin.py:86-90 | a compiled hex pattern other than `""` and `"0x"` spans at least one byte |
| Searchbin.RunSearch | pysearchbin/searchbin.py:161-170 | `search` passes the fields of a verified record to the scan loop, and the result is what the scanner promises for them |
| Searchbin.VerifyAndSearch | pysearchbin/searchbin.py:271-280 | the steps `search_hex` and `search_text` share: a configuration error from `verify_args` is returned as is, and otherwise the result is what the scanner promises for the selected pattern with the normalised end and buffer size |
| Searchbin.SearchHex | pysearchbin/searchbin.py:265-281 | an empty hex string is "0patterns", bad hex is the decode error for that string, and otherwise the result is what the scanner promises for the compiled pattern with the normalised end and buffer size: sound, non-decreasing, capped, complete, bounded past `end`, and repeating only on window boundaries |
| Searchbin.SearchText | pysearchbin/searchbin.py:283-299 | an empty text is "0patterns"; otherwise the result is what the scanner promises for the compiled text with the normalised end and buffer size: sound, non-decreasing, capped, complete, bounded past `end`, and repeating only on window boundaries |
| Searchbin.FirstOfReported | pysearchbin/searchbin.py:253-263 | a search capped at one match reports the first match at or after `start`, or nothing when there is none up to `end` |
| Searchbin.SearchOneHex | pysearchbin/searchbin.py:253-257 | the first match of a hex pattern at or after `start`, or -1 when there is none up to `end`, with the errors of SearchHex |
| Searchbin.SearchOneText | pysearchbin/searchbin.py:259-263 | the first match of a text pattern at or after `start`, or -1 when there is none up to `end`, with the errors of SearchText |
| LoopAsWritten.SliceFrom | pysearchbin/searchbin.py:209 | `buffer[read_size:]` is a suffix of the buffer: all but the first `read_size` bytes, or the last `-read_size` bytes when `read_size` is negative |
| LoopAsWritten.ReadAny | pysearchbin/searchbin.py:198-210 | `fh_read(n)` is the next `n` bytes for `n >= 0` and everything left for `n = -1`; a smaller `n` raises ValueError, which `Step` models before it reads |
| LoopAsWritten.ClampedSearchAgrees | pysearchbin/searchbin.py:199-231 | `regex_search` with Python's clamp of a position past the end agrees with `Scanner.Search` for a pattern spanning at least one byte |
| LoopAsWritten.EmptyPatternSearch | pysearchbin/searchbin.py:183-231 | the empty pattern matches at the cursor, or at the end of the buffer once the cursor is past it |
| LoopAsWritten.Start | pysearchbin/searchbin.py:188-201 | the loop starts at `start` with no results and the first `bsize` bytes from there |
| LoopAsWritten.Step | pysearchbin/searchbin.py:203-234 | one turn of the loop reports at most one new offset and keeps those before it; a refill with `read_size <= -2` raises at line 210 |
| LoopAsWritten.Run | pysearchbin/searchbin.py:203-234 | any number of turns only appends offsets, at most one per turn, and a loop that returned or raised stays so |
| LoopAsWritten.HexPrefixOnly | pysearchbin/searchbin.py:86-93 | hex `"0x"` compiles to the single empty segment |
| LoopAsWritten.EmptyPatternRepeats | pysearchbin/searchbin.py:230-233 | with the empty pattern and a byte at or after `start`, the loop reports `start`, `start + 1`, … up to the end of the first window and from then on that end again at every turn; with no cap it is still running after any number of turns, and with a cap it returns exactly `max_matches` such offsets |
| LoopAsWritten.ZeroReadSizeStops | pysearchbin/searchbin.py:180-233 | with `bsize == len_pattern` the loop returns within one turn, having reported at most `start` |
| LoopAsWritten.ZeroReadSizeMisses | pysearchbin/searchbin.py:180-233 | with a zero `read_size`, "A" in "BA" with a one-byte buffer is not found |
| LoopAsWritten.NegativeReadSizeMisreports | pysearchbin/searchbin.py:180-222 | with a `read_size` of -1, a pattern of span 3 searched with a 2-byte buffer has its match at 2 reported as 0, where nothing matches |
| LoopAsWritten.WildcardsMisreport | pysearchbin/searchbin.py:180-233 | the all-wildcard pattern of span 3 with a 2-byte buffer, on 5 bytes where the offsets 0, 1 and 2 all match, reports -1 and 0 and then returns: the scale model of `"?" * (2**23 + 1)` on 2**24 + 1 bytes |
| LoopAsWritten.ReadSizeBelowMinusOneRaises | pysearchbin/searchbin.py:198-210 | with `read_size <= -2` and `end` either 0 or past `start`, the loop raises ValueError at line 210 on the first turn on every file, and no offset reaches the caller |
| LoopAsWritten.WildcardsRaise | pysearchbin/searchbin.py:198-210 | the all-wildcard pattern of span 4 with a 2-byte buffer raises on every file, including those of 4 bytes or more, where it matches at 0: the scale model of `"?" * (2**23 + 2)` |
| LoopAsWritten.EmptyPatternEmptyWindow | pysearchbin/searchbin.py:198-233 | the empty pattern on an empty first window (an empty file, or `start` at or past its end) reports `start` once and returns |
| LoopAsWritten.WildcardsMissAll | pysearchbin/searchbin.py:180-233 | the same pattern on 4 bytes, where the offsets 0 and 1 match, returns no offset after one turn, because the refilled buffer holds exactly the span |

## Left out

- Files and I/O: the file is passed as its bytes, and `fh_read` after `fh_seek(start)` is a slice of them. Failures to open, seek or read (lines 190-195, 237-239, 274-280, 292-298) are not modelled.
- `_exit_error` (lines 37-70) writes to stderr and then raises or exits. The model returns its configuration errors as `Err` values instead.
- `file_to_pattern` (lines 102-109) reads a pattern file. `SearchArgs.filePattern` holds its name together with the content already read, so the missing-file error is not modelled.
- The conversion of the numeric arguments with `int()` (lines 134-141) does nothing for the integers the entry points pass, so its "sizes" error is not modelled. Sizes, offsets and `max_matches` are `nat`. Negative values are not modelled.
- The `re` module is replaced by `MatchesAt` and `Search`. These give the leftmost match of the escaped segments joined by `.` under DOTALL. A search that starts past the end of the buffer finds nothing, which is what Python's clamped `pos` gives for a pattern spanning at least one byte. `LoopAsWritten.ClampedSearch` keeps the clamp, and `ClampedSearchAgrees` proves the two agree for such patterns.
- HexCodec.Decode: does not accept the ASCII whitespace between byte pairs that `bytes.fromhex` skips.
- Searchbin.SearchText, Searchbin.SearchOneText: take the pattern text already encoded as UTF-8 and splits it on the byte `?`. The source splits on `?` first and then encodes each piece. The results agree, because the byte 0x3F never occurs inside a multi-byte UTF-8 sequence, but that is not proved here.
- Searchbin.SearchHex, Searchbin.SearchOneHex, Scanner.SearchLoop, Searchbin.RunSearch, Searchbin.VerifyAndSearch: require the hex string to differ from `"0x"`, or the pattern to span at least one byte. That string compiles to the empty pattern (`LoopAsWritten.HexPrefixOnly`). As written, on a file with at least one byte at or after `start`, the loop then never returns when there is no cap. With a cap it reports `start`, `start + 1`, … and, once it reaches the end of the first window, that end again until the cap is used (`LoopAsWritten.EmptyPatternRepeats`, under "## Findings"). With no byte at or after `start`, it reports `start` once and returns (`LoopAsWritten.EmptyPatternEmptyWindow`).
- Searchbin.SearchHex, Searchbin.SearchText, Searchbin.SearchOneHex, Searchbin.SearchOneText, Scanner.SearchLoop, Searchbin.RunSearch, Searchbin.VerifyAndSearch: require the pattern span to be below the normalised buffer size. Otherwise `read_size` is zero or negative. At zero the source returns after the first window and misses every later match. At -1, line 205 moves `offset` back while `fh_read(-1)` takes the rest of the file, so offsets are reported too low. At -2 or less, `fh_read` raises ValueError at line 210, and no handler catches it (`LoopAsWritten`, under "## Findings"). This can only happen for spans of at least 2**23 bytes.
- Arguments.SearchArgs.Verify, Searchbin.SearchHex, Searchbin.SearchText, Searchbin.SearchOneHex, Searchbin.SearchOneText: use the intended buffer-size check of line 145 (`Arguments.BufferSize`). Where the source raises TypeError because a buffer size was requested, they return a result. See "## Findings".
- Default parameter values (`max_matches=999` and the zeros) are not modelled. Every parameter is explicit.
- Writing each offset to stdout (line 221, commented out in the source) is not modelled.

## Findings

| source | as written | input that shows it | evidently intended | confidence | as-written member | corrected member |
|---|---|---|---|---|---|---|
| pysearchbin/searchbin.py:145 | `len("?".join(ar.pattern))` joins a list of byte strings with a `str` separator, which raises TypeError whenever a buffer size is requested | `search_hex(path, "41", 999, 0, 0, 16)` | the pattern span `len(b"?".join(ar.pattern))`, as line 179 computes it | high; not executed | Arguments.BufferSizeAsWritten, Arguments.RequestedSizeRaises | Arguments.BufferSize, Arguments.SearchArgs.Verify, Searchbin.SearchHex, Searchbin.SearchText, Searchbin.SearchOneHex, Searchbin.SearchOneText |
| pysearchbin/searchbin.py:230-233 | hex `"0x"` compiles to `[b""]`, whose empty expression matches everywhere; once the cursor passes the end of the buffer, `regex_search(buffer, match+1)` is moved back to the end and matches there again, and line 233 returns only on an empty buffer | `search_hex(path, "0x", 0)` on a non-empty file never returns; `search_hex(path, "0x")` on a file of at most 997 bytes reports 0, 1, … up to the end of the first window and then that end again until 999 offsets; on an empty file it returns [0] | a pattern spanning at least one byte, so that every search moves the cursor on and the loop ends | high; not executed | LoopAsWritten.EmptyPatternRepeats, LoopAsWritten.EmptyPatternEmptyWindow, LoopAsWritten.HexPrefixOnly | Scanner.SearchLoop, Searchbin.SearchHex, Searchbin.SearchOneHex |
| pysearchbin/searchbin.py:148 | the default buffer size counts only literal bytes (`b"".join`), while the span counts one byte per wildcard too, so a pattern with at least as many wildcards as literal bytes and a span of 2**23 or more gets `read_size = bsize - len_pattern <= 0`; at 0 the loop returns after the first window, at -1 line 205 moves `offset` back while `fh_read(-1)` reads on to the end of the file, and at -2 or less (the usual case) `fh_read` of the buffered file raises ValueError at line 210, which the `except IOError` of lines 237 and 296 does not catch | `search_text(path, "A" * 2**22 + "?" * 2**22)` can report nothing past offset 0; `search_text(path, "?" * (2**23 + 1))` on a file of 2**24 + 1 bytes reports -1, then 0, and nothing else, although every offset from 0 to 2**23 matches; on a file of 2**24 bytes it returns [] although every offset from 0 to 2**23 - 1 matches; `search_text(path, "?" * (2**23 + 2))` raises ValueError on every file | a buffer of at least twice the span, so that `read_size >= len_pattern >= 1` | medium; not executed | LoopAsWritten.ZeroReadSizeStops, LoopAsWritten.ZeroReadSizeMisses, LoopAsWritten.NegativeReadSizeMisreports, LoopAsWritten.WildcardsMisreport, LoopAsWritten.WildcardsMissAll, LoopAsWritten.ReadSizeBelowMinusOneRaises, LoopAsWritten.WildcardsRaise | Scanner.SearchLoop |
