# Range streaming and video catalog of py-video-stream-in-grid

py-video-stream-in-grid serves the video files of one directory over HTTP so
that a page can play several of them side by side. Two near-identical Flask
scripts do the work, `streamer_server.py` and `server.py`. Both contain the
same two pieces of logic, and this project models and proves those two pieces.

**The byte-range engine.**
- `get_range` reads the `Range` request header against the pattern
  `bytes=(?P<start>\d+)-(?P<end>\d+)?`. The match is anchored only at the start
  of the header.
- `partial_response` clamps the requested window to the file and to a
  10 MiB buffer (`BUFF_SIZE`), then reads that window.
- It answers with a 206 Partial Content response that carries
  `Content-Range: bytes start-end/size` and `Accept-Ranges: bytes`.
- The relevant standard is RFC 9110: section 14.1.2 for the range syntax,
  section 14.4 for Content-Range and section 15.3.7 for the 206 status.

**The catalog (`Videos`).**
- It lists one directory and keeps the entries whose lower-cased extension is
  in `ALLOWED`.
- It puts them in natural order and numbers them 1, 2, … N in a counting loop,
  storing each as a `Video(name, ext, mime, path)` in a dictionary.
- It then keeps the key-sorted listing `[k, name, mime]`.
- Lookup by number raises `KeyError` outside 1..N.

## Modules

- `common.dfy`, module `Common`:
  - `Option`, `Result` and the Python exceptions the core raises (`TypeError`, `ValueError`, `AssertionError`, `KeyError`);
  - Python's `min`.
- `decimal.dfy`, module `Decimal`: `int()` of a digit string and `str()` of an integer, with their round trips.
- `range_header.dfy`, module `RangeHeader`: the regular expression as a function (`MatchRange`) and `get_range` (`GetRange`).
- `partial_content.dfy`, module `PartialContent`:
  - the window arithmetic (`WindowEnd`);
  - the read (`ReadAt`);
  - `partial_response` as a method that reassigns `end` step by step, as the source does.
- `catalog.dfy`, module `Catalog`:
  - the extension test and the filter;
  - the numbering specification `Catalogue`;
  - the key-sorted listing `SortedRows`;
  - the class `Videos`. Its `entries` field is `_map` and its `listing` field is `_videos`.

The two scripts differ only in configuration. One model serves both:
- `Videos.constructor` takes the directory and the allowed extensions as parameters, like `streamer_server.py`.
- `Videos.Fixed` uses the constants of `server.py`: `D:\Downloads` and `{".mp4", ".mkv"}`.

The file contents, the directory listing, `os.path.isdir`, `natsort.natsorted`,
`mimetypes.guess_type` and `os.path.abspath(os.path.join(...))` are parameters:
- a byte sequence for the file;
- a sequence of names for the directory listing;
- a `Host` value of total functions for the library calls.

Four things the code does that a reader might not expect:
- **A request without a `Range` header.** `re.match` is given `None` and raises `TypeError` (`streamer_server.py:120-121`). There is no `(0, None)` default for it: `GetRange(None)` is `Err(TypeError)`.
- **No 416 response.** The file is opened as a buffered binary reader, so the window length decides what happens:
  - a length of -1 makes `read` return the rest of the file, and the length assertion then fails (`Err(AssertionError)`);
  - a length below -1 makes `read` raise ValueError (`Err(ValueError)`), for example `bytes=150-` on a 100-byte file;
  - a length of zero is served as an empty 206.
- **`Video.ext` keeps the case of the file name.** Only the filter lower-cases it.
- **The scan is one level deep.** It uses `os.listdir` and does not walk subdirectories.

## Model

| member | source | states |
|---|---|---|
| Common.Min | streamer_server.py:99 | `min(a, b)` is at most both arguments and equals one of them |
| Decimal.ParseDigits | streamer_server.py:125-127 | `int(s)` of a digit string; it is 0 exactly when every digit is '0' |
| Decimal.FormatNat | streamer_server.py:113 | `str(n)` of a non-negative integer is a canonical numeral (digits, no leading zero), and its first digit is '0' exactly when n is 0 |
| Decimal.FormatInt | streamer_server.py:113 | `str(i)` of any integer reads back as i: the digits alone for i >= 0, '-' then the digits of -i otherwise (the end is -1 for an empty file) |
| Decimal.ParseFormat | streamer_server.py:125-127 | `int(str(n)) == n` for every natural n |
| Decimal.FormatParse | streamer_server.py:125-127 | `str(int(s)) == s` for every canonical numeral s |
| RangeHeader.DigitRun | streamer_server.py:27 | the greedy `\d` run: a digit prefix that is followed by a non-digit or by the end |
| RangeHeader.DigitRunExact | streamer_server.py:27 | the greedy run is unique: any digit prefix followed by a non-digit or by the end is it |
| RangeHeader.MatchRange | streamer_server.py:121-127 | the pattern matches (at the start only) exactly when the header begins `bytes=`, one or more digits and `-` |
| RangeHeader.GetRange | streamer_server.py:119-130 | missing header gives TypeError and nothing else does; a header the pattern rejects gives (0, None); a matching header gives the matched groups as integers (same code at server.py:118-130) |
| RangeHeader.MatchOfParts | streamer_server.py:121-128 | `bytes=` S `-` E followed by text that does not start with a digit yields (int(S), int(E)), or (int(S), None) when E is empty |
| RangeHeader.GetRangeOfFormatted | streamer_server.py:121-128 | round trip: `get_range` of the header `bytes=S-[E]` of a request, followed by any text not starting with a digit, gives that request back |
| RangeHeader.MatchGroups | streamer_server.py:121-128 | every match decomposes as `bytes=` S `-` E rest, with S one or more digits, E zero or more digits, rest not starting with a digit, and groups int(S) and int(E) (None when E is empty) |
| RangeHeader.MultiRangeKeepsFirst | streamer_server.py:121 | `bytes=0-10,20-30` gives (0, 10): only the first range is read |
| RangeHeader.SuffixRangeFallsBack | streamer_server.py:129-130 | the suffix form `bytes=-500` is not matched and gives (0, None) |
| RangeHeader.OtherUnitFallsBack | streamer_server.py:129-130 | a unit other than bytes (`items=0-10`) gives (0, None) |
| PartialContent.WindowEnd | streamer_server.py:97-100 | the served end is `min(requested end or start+BUFF_SIZE-1, size-1, start+BUFF_SIZE-1)`: below each cap and equal to one of them (server.py:93-96) |
| PartialContent.WindowBounds | streamer_server.py:97-101 | for 0 <= start < size and end >= start when given: start <= end <= size-1 and 1 <= length <= BUFF_SIZE (server.py:93-97) |
| PartialContent.RequestedEndKept | streamer_server.py:99-100 | an explicit end inside the file and inside one buffer is kept unchanged (server.py:95-96) |
| PartialContent.OpenEndedWindow | streamer_server.py:97-100 | without an end the window ends at min(start+BUFF_SIZE-1, size-1) |
| PartialContent.WindowPastEnd | streamer_server.py:101 | a start at the end of the file gives length 0 when no end is given; a start beyond it gives a negative length |
| PartialContent.WindowLength | streamer_server.py:101 | `length = end - start + 1` is at most BUFF_SIZE and at most the bytes left after start; it is positive exactly when start is inside the file and the end, if given, is not before start |
| PartialContent.ReadAt | streamer_server.py:104-106 | `seek(start); read(n)` on a buffered reader: ValueError exactly when n < -1; for n >= 0 the bytes from start up to n of them (exactly n when they exist); for n = -1 the rest of the file; nothing when start is past the end |
| PartialContent.UnsatisfiableReadsRaise | streamer_server.py:98-106 | `bytes=150-` on a 100-byte file gives length -50, and `bytes=10-5` gives -4; the read of either raises ValueError |
| PartialContent.LengthMinusOneAsserts | streamer_server.py:98-107 | a start one past the end of a 100-byte file gives length -1, and the read returns no bytes, so the assertion fails |
| PartialContent.ContentRange | streamer_server.py:113 | the definition of `bytes {start}-{end}/{size}` with each number as `str` writes it; ContentRangeWellFormed states its unsigned form for satisfiable requests |
| PartialContent.PartialResponse | streamer_server.py:93-116 | the response is produced exactly when the window length is >= 0; length -1 gives AssertionError and a length below -1 gives ValueError from `read`; the response has status 206, body `file[start..end+1]`, the guessed MIME type, `Content-Range: bytes start-end/size` and `Accept-Ranges: bytes` (server.py:88-115) |
| PartialContent.ContentRangeWellFormed | streamer_server.py:112-114 | for a satisfiable request the Content-Range value is `bytes first-last/size` in unsigned decimals with first <= last < size |
| PartialContent.TilesReconstruct | streamer_server.py:97-100 | a player that asks for successive open-ended windows receives the rest of the file exactly once, in order |
| Catalog.LastDot | streamer_server.py:44 | the position of the last '.' of the name, with no dot after it; -1 when there is none |
| Catalog.SplitExt | streamer_server.py:44 | `splitext`: the two parts join to the name; the extension is empty or one leading dot and no other; it is non-empty exactly when some dot has a non-dot before it |
| Catalog.LowerChar | streamer_server.py:59 | `str.lower` on one character: the result is never an ASCII capital, and a changed character becomes a lower-case ASCII letter |
| Catalog.Lower | streamer_server.py:59 | `ext.lower()`: same length, no ASCII capital left, and each character is kept or becomes a lower-case ASCII letter |
| Catalog.LowerIdempotent | streamer_server.py:59 | lower-casing twice is lower-casing once |
| Catalog.Accepted | streamer_server.py:55-60 | the definition of the test applied to each entry: not a directory, and the lower-cased `splitext` extension is allowed; Possible states the filter it drives |
| Catalog.UpperCaseExtensionKept | streamer_server.py:58-59 | `Clip.MP4` passes the lower-cased test, yet its record keeps ext `.MP4` (streamer_server.py:44) |
| Catalog.DotFileSkipped | streamer_server.py:58-60 | a hidden file named `.mp4` has no extension and is skipped |
| Catalog.Possible | streamer_server.py:53-61 | an entry survives exactly when it is not a directory and its lower-cased extension is allowed; each survivor keeps its multiplicity (server.py:50-58) |
| Catalog.EntryFor | streamer_server.py:44-46 | the stored record's name and extension join back to the file name |
| Catalog.Catalogue | streamer_server.py:41-47 | the map the numbering builds: keys exactly 1..N with N the number of sorted candidates, key k holding the record of the k-th; CatalogueOfLoop proves the loop builds it |
| Catalog.RowOf | streamer_server.py:65 | the definition of the row `[k, v.name, v.mime]` for key k; SortedRows states the listing built from it |
| Catalog.SortedKeys | streamer_server.py:64-65 | the keys in strictly ascending order, exactly the set given |
| Catalog.SortedRows | streamer_server.py:63-66 | one row `[k, name, mime]` per key of the map, strictly ascending by key (server.py:60-61) |
| Catalog.DenseListing | streamer_server.py:63-66 | on a map keyed 1..n the listing has n rows and row i has index i+1 |
| Catalog.NumberingStep | streamer_server.py:43-47 | one turn of the loop extends keys 1..i-1 to 1..i, with key i holding the record of the i-th sorted candidate |
| Catalog.CatalogueOfLoop | streamer_server.py:40-48 | the map the loop leaves is the catalogue, keyed 1..N with N the length of the listing |
| Catalog.CataloguedIffAccepted | streamer_server.py:40-48 | keys are exactly 1..N with N the number of accepted entries; a file is catalogued exactly when it is listed and accepted |
| Catalog.Videos.constructor | streamer_server.py:33-38 | the catalog of the given directory and extensions, with its invariant established |
| Catalog.Videos.Fixed | server.py:32-45 | `server.py`'s `Videos()`: the catalog of `D:\Downloads` with `{".mp4", ".mkv"}` |
| Catalog.Videos.MapVideos | streamer_server.py:40-48 | the counting loop stores the i-th sorted candidate under key i, then the key-sorted listing; keys are 1..N with N the listing length |
| Catalog.Videos.GetItem | streamer_server.py:72-73 | lookup succeeds exactly for 1..N and returns the stored record; any other number raises KeyError with that number (server.py:67-68) |
| Catalog.Videos.ListVideos | streamer_server.py:68-70 | the `videos` listing is `[k, name, mime]` for k = 1..N in ascending order (server.py:63-65) |

## Left out

- Flask routing, `render_template`, the `Response` object's internals (`direct_passthrough`), `int(vid)` in the view, and server start-up: these belong to the framework.
- The filesystem and the libraries become parameters:
  - `os.listdir` becomes a sequence of names, and `os.path.getsize` with `open`/`seek`/`read` become a byte sequence;
  - `os.path.isdir` is evaluated against the working directory, not the scan root, so it is an uninterpreted predicate;
  - `natsort.natsorted`, `mimetypes.guess_type` and `os.path.abspath(os.path.join(...))` are uninterpreted functions.
- Catalog.CataloguedIffAccepted: assumes that `natsorted` only reorders its input, because the natsort library is not part of this model.
- RangeHeader.MatchRange: recognises ASCII digits only. Python's `\d` and `int()` also accept other Unicode decimal digits, and `int()` refuses numerals longer than 4300 digits; neither is modelled.
- Catalog.Accepted: `str.lower` is modelled only for the characters whose lower case is ASCII ('A'..'Z' and U+212A KELVIN SIGN). Other characters are kept unchanged, which cannot affect membership in an ASCII extension set.
- Catalog.SplitExt: models names without path separators, which is all `os.listdir` returns.
- Logging, `datetime.now()`, frozen-executable detection and command-line port parsing are diagnostics and start-up only.
- Concurrent requests and the sharing of the catalog between threads are not modelled.
