/** `get_range`: the Range request header read against the pattern
    `bytes=(?P<start>\d+)-(?P<end>\d+)?`, anchored at the start of the
    header only (Python's `re.match`), with a lenient fallback to
    "from byte 0, no end" when the pattern does not match. */
module RangeHeader {
  import opened Common
  import opened Decimal

  const PREFIX: string := "bytes="

  /** What `get_range` returns: the first byte and, when the client gave one,
      the last byte it asked for. */
  datatype ByteRequest = ByteRequest(start: nat, end: Option<nat>)

  /** Length of the greedy `\d+` / `\d*` run at the front of `s`. */
  function DigitRun(s: string): (n: nat)
    ensures n <= |s| && AllDigits(s[..n])
    ensures n == |s| || !IsDigit(s[n])
  {
    if s == [] || !IsDigit(s[0]) then 0
    else
      var n := 1 + DigitRun(s[1..]);
      assert s[..n] == [s[0]] + s[1..][..n - 1];
      n
  }

  /** The regex, stated without computing it: the header starts with
      `bytes=`, one or more digits, and a `-`. */
  ghost predicate PrefixMatches(h: string) {
    exists k :: |PREFIX| < k < |h| && h[..|PREFIX|] == PREFIX && AllDigits(h[|PREFIX|..k]) && h[k] == '-'
  }

  /** `REGEX_RANGE.match(h)` followed by the `int()` conversions of its
      groups: `None` when the pattern does not match at the start of `h`. */
  function MatchRange(h: string): (m: Option<ByteRequest>)
    ensures m.Some? <==> PrefixMatches(h)
  {
    if |h| < |PREFIX| || h[..|PREFIX|] != PREFIX then
      None
    else
      MatchAfterPrefixMatches(h);
      MatchAfterPrefix(h[|PREFIX|..])
  }

  /** The part of the pattern after `bytes=`: `(?P<start>\d+)-(?P<end>\d+)?`. */
  function MatchAfterPrefix(s: string): Option<ByteRequest> {
    var n := DigitRun(s);
    if n == 0 || n == |s| || s[n] != '-' then None
    else
      var tail := s[n + 1..];
      var k := DigitRun(tail);
      Some(ByteRequest(ParseDigits(s[..n]), if k == 0 then None else Some(ParseDigits(tail[..k]))))
  }

  /** Once `bytes=` is matched, the rest of the pattern matches exactly when
      one or more digits are followed by `-`. */
  lemma MatchAfterPrefixMatches(h: string)
    requires |h| >= |PREFIX| && h[..|PREFIX|] == PREFIX
    ensures MatchAfterPrefix(h[|PREFIX|..]).Some? <==> PrefixMatches(h)
  {
    var s := h[|PREFIX|..];
    var n := DigitRun(s);
    if MatchAfterPrefix(s).Some? {
      assert h[|PREFIX|..|PREFIX| + n] == s[..n];
      assert |PREFIX| < |PREFIX| + n < |h| && AllDigits(h[|PREFIX|..|PREFIX| + n]) && h[|PREFIX| + n] == '-';
    } else if k :| |PREFIX| < k < |h| && h[..|PREFIX|] == PREFIX && AllDigits(h[|PREFIX|..k]) && h[k] == '-' {
      assert h[|PREFIX|..k] == s[..k - |PREFIX|];
      DigitRunExact(s, k - |PREFIX|);
    }
  }

  /** `get_range(request)`: a missing header makes `re.match` raise
      TypeError; a header the pattern rejects falls back to (0, None). */
  function GetRange(header: Option<string>): (r: Result<ByteRequest>)
    ensures header.None? <==> r == Err(TypeError)
    ensures header.Some? && !PrefixMatches(header.value) ==> r == Ok(ByteRequest(0, None))
    ensures header.Some? && PrefixMatches(header.value) ==> r.Ok? && Some(r.value) == MatchRange(header.value)
  {
    match header
    case None => Err(TypeError)
    case Some(h) =>
      match MatchRange(h)
      case None => Ok(ByteRequest(0, None))
      case Some(req) => Ok(req)
  }

  /** The header a client sends for a request: `bytes=S-` or `bytes=S-E`. */
  function RangeHeaderValue(req: ByteRequest): string {
    PREFIX + FormatNat(req.start) + "-" + (if req.end.Some? then FormatNat(req.end.value) else "")
  }

  /** The digit run is unique: a digit prefix followed by a non-digit (or the end). */
  lemma DigitRunExact(s: string, k: nat)
    requires k <= |s| && AllDigits(s[..k]) && (k == |s| || !IsDigit(s[k]))
    ensures DigitRun(s) == k
  {
    forall i | 0 <= i < k
      ensures IsDigit(s[i])
    {
      assert s[..k][i] == s[i];
    }
    var n := DigitRun(s);
    forall i | 0 <= i < n
      ensures IsDigit(s[i])
    {
      assert s[..n][i] == s[i];
    }
  }

  /** The match over a header given as its parts: `bytes=`, the start
      digits, `-`, the end digits, and text that does not start with a digit. */
  lemma MatchOfParts(first: string, last: string, rest: string)
    requires |first| >= 1 && AllDigits(first) && AllDigits(last)
    requires rest == [] || !IsDigit(rest[0])
    ensures MatchRange(PREFIX + first + "-" + last + rest)
         == Some(ByteRequest(ParseDigits(first), if last == [] then None else Some(ParseDigits(last))))
  {
    var after := first + "-" + last + rest;
    var h := PREFIX + after;
    assert PREFIX + first + "-" + last + rest == h;
    assert h[..|PREFIX|] == PREFIX && h[|PREFIX|..] == after;
    MatchAfterOfParts(first, last, rest);
  }

  lemma MatchAfterOfParts(first: string, last: string, rest: string)
    requires |first| >= 1 && AllDigits(first) && AllDigits(last)
    requires rest == [] || !IsDigit(rest[0])
    ensures MatchAfterPrefix(first + "-" + last + rest)
         == Some(ByteRequest(ParseDigits(first), if last == [] then None else Some(ParseDigits(last))))
  {
    var tail := last + rest;
    var after := first + "-" + tail;
    assert first + "-" + last + rest == after;
    assert after[..|first|] == first;
    assert DigitRun(after) == |first| by {
      assert after[|first|] == '-';
      DigitRunExact(after, |first|);
    }
    assert after[|first| + 1..] == tail;
    assert tail[..|last|] == last;
    assert DigitRun(tail) == |last| by {
      if |last| < |tail| {
        assert tail[|last|] == rest[0];
      }
      DigitRunExact(tail, |last|);
    }
  }

  /** Round trip: `get_range` recovers the request from the header that
      encodes it, whatever follows the last digit (a second range, say). */
  lemma {:induction false} GetRangeOfFormatted(req: ByteRequest, rest: string)
    requires rest == [] || !IsDigit(rest[0])
    ensures GetRange(Some(RangeHeaderValue(req) + rest)) == Ok(req)
  {
    var first := FormatNat(req.start);
    var last := if req.end.Some? then FormatNat(req.end.value) else "";
    assert RangeHeaderValue(req) + rest == PREFIX + first + "-" + last + rest;
    MatchOfParts(first, last, rest);
    ParseFormat(req.start);
    if req.end.Some? {
      ParseFormat(req.end.value);
    }
  }

  /** Completeness of the match: a matched header is `bytes=`, the start
      digits, `-`, the (possibly empty) end digits, then text that does not
      start with a digit, and the groups are read as decimal numbers. */
  lemma MatchGroups(h: string) returns (first: string, last: string, rest: string)
    requires MatchRange(h).Some?
    ensures h == PREFIX + first + "-" + last + rest
    ensures |first| >= 1 && AllDigits(first) && AllDigits(last)
    ensures rest == [] || !IsDigit(rest[0])
    ensures MatchRange(h) == Some(ByteRequest(ParseDigits(first), if last == [] then None else Some(ParseDigits(last))))
  {
    var after := MatchRangeAfter(h);
    first, last, rest := MatchAfterGroups(after);
    PrefixRegroup(h, after, first, last, rest);
  }

  /** A matching header is `bytes=` followed by the text the rest of the
      pattern reads. A step of `MatchGroups`, kept apart so that its proof
      stays small and stable. */
  lemma MatchRangeAfter(h: string) returns (after: string)
    requires MatchRange(h).Some?
    ensures h == PREFIX + after
    ensures MatchRange(h) == MatchAfterPrefix(after)
  {
    after := h[|PREFIX|..];
    assert h == h[..|PREFIX|] + after;
  }

  /** Regrouping the concatenation; a step of `MatchGroups`, kept apart so
      that its proof stays small and stable. */
  lemma PrefixRegroup(h: string, after: string, first: string, last: string, rest: string)
    requires h == PREFIX + after && after == first + "-" + last + rest
    ensures h == PREFIX + first + "-" + last + rest
  {
  }

  lemma MatchAfterGroups(s: string) returns (first: string, last: string, rest: string)
    requires MatchAfterPrefix(s).Some?
    ensures s == first + "-" + last + rest
    ensures |first| >= 1 && AllDigits(first) && AllDigits(last)
    ensures rest == [] || !IsDigit(rest[0])
    ensures MatchAfterPrefix(s) == Some(ByteRequest(ParseDigits(first), if last == [] then None else Some(ParseDigits(last))))
  {
    var n := DigitRun(s);
    first := s[..n];
    var tail := s[n + 1..];
    assert s == first + "-" + tail;
    var k := DigitRun(tail);
    last := tail[..k];
    rest := tail[k..];
    assert tail == last + rest;
  }

  /** `bytes=0-10,20-30`: only the first range is read. */
  lemma MultiRangeKeepsFirst()
    ensures GetRange(Some("bytes=0-10,20-30")) == Ok(ByteRequest(0, Some(10)))
  {
    var req := ByteRequest(0, Some(10));
    assert FormatNat(0) == "0" && FormatNat(10) == "10";
    assert "bytes=0-10,20-30" == RangeHeaderValue(req) + ",20-30";
    GetRangeOfFormatted(req, ",20-30");
  }

  /** `bytes=-500`, the suffix form, is not understood: it falls back to (0, None). */
  lemma SuffixRangeFallsBack()
    ensures GetRange(Some("bytes=-500")) == Ok(ByteRequest(0, None))
  {
    assert DigitRun("-500") == 0;
  }

  /** A unit other than `bytes` falls back to (0, None). */
  lemma OtherUnitFallsBack()
    ensures GetRange(Some("items=0-10")) == Ok(ByteRequest(0, None))
  {
    assert "items=0-10"[..|PREFIX|][0] != PREFIX[0];
  }
}
