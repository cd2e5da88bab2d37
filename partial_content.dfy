/** `partial_response`: the byte window a request is served, the read of
    that window from the file, and the 206 Partial Content response that
    carries it (RFC 9110 sections 15.3.7, 14.4 and 14.3). */
module PartialContent {
  import opened Common
  import opened Decimal

  newtype Byte = b: int | 0 <= b < 256

  const MB: nat := 0x10_0000         // 1 << 20
  const BUFF_SIZE: nat := 10 * MB    // the most bytes one response carries

  datatype Header = Header(name: string, value: string)

  /** What the handler hands to the framework: status, body, the MIME type
      given as both `mimetype` and `content_type`, and the added headers. */
  datatype Response = Response(status: int, body: seq<Byte>, mime: Option<string>, headers: seq<Header>)

  /** The last byte served. A missing end asks for a full buffer; the end is
      then clamped to the last byte of the file and to one buffer from `start`. */
  function WindowEnd(fileSize: nat, start: nat, end: Option<nat>): (e: int)
    ensures e <= fileSize - 1 && e <= start + BUFF_SIZE - 1
    ensures end.Some? ==> e <= end.value
    ensures e == fileSize - 1 || e == start + BUFF_SIZE - 1 || (end.Some? && e == end.value)
  {
    Min(Min(end.GetOr(start + BUFF_SIZE - 1), fileSize - 1), start + BUFF_SIZE - 1)
  }

  /** The number of bytes served, `end - start + 1`: positive exactly for a
      satisfiable request, and never more than one buffer or the bytes left. */
  function WindowLength(fileSize: nat, start: nat, end: Option<nat>): (n: int)
    ensures n <= BUFF_SIZE && n <= fileSize - start
    ensures n >= 1 <==> start < fileSize && (end.None? || end.value >= start)
  {
    WindowEnd(fileSize, start, end) - start + 1
  }

  /** `fd.seek(start); fd.read(n)` on a buffered binary file holding `file`:
      seeking past the end is allowed and reads nothing, `-1` reads to the
      end, and a length below -1 raises ValueError. */
  function ReadAt(file: seq<Byte>, start: nat, n: int): (r: Result<seq<Byte>>)
    ensures r.Err? <==> n < -1
    ensures r.Err? ==> r.error == ValueError
    ensures r.Ok? && start >= |file| ==> r.value == []
    ensures n == -1 && start <= |file| ==> r.value == file[start..]
    ensures n >= 0 && start <= |file| ==> r.value == file[start..Min(start + n, |file|)]
    ensures n >= 0 && start + n <= |file| ==> |r.value| == n
  {
    var from := Min(start, |file|);
    if n < -1 then Err(ValueError)
    else if n == -1 then Ok(file[from..])
    else Ok(file[from..Min(from + n, |file|)])
  }

  /** The `Content-Range` value `bytes {start}-{end}/{size}`, each number as `str` writes it. */
  function ContentRange(start: int, end: int, size: int): string {
    "bytes " + FormatInt(start) + "-" + FormatInt(end) + "/" + FormatInt(size)
  }

  /** `partial_response(path, start, end)` for a file whose content is `file`
      and whose guessed MIME type is `mime`. There is no 416 branch: a window
      of length -1 makes `read` return the rest of the file and the length
      assertion fails; a shorter one makes `read` raise ValueError. */
  method PartialResponse(file: seq<Byte>, mime: Option<string>, start: nat, requestedEnd: Option<nat>)
    returns (r: Result<Response>)
    ensures r.Ok? <==> WindowLength(|file|, start, requestedEnd) >= 0
    ensures WindowLength(|file|, start, requestedEnd) == -1 ==> r == Err(AssertionError)
    ensures WindowLength(|file|, start, requestedEnd) < -1 ==> r == Err(ValueError)
    ensures r.Ok? ==>
      var end := WindowEnd(|file|, start, requestedEnd);
      && r.value.status == 206
      && r.value.body == file[start..end + 1]
      && r.value.mime == mime
      && r.value.headers == [Header("Content-Range", ContentRange(start, end, |file|)),
                             Header("Accept-Ranges", "bytes")]
  {
    var fileSize := |file|;
    var end: int;
    if requestedEnd.None? {
      end := start + BUFF_SIZE - 1;
    } else {
      end := requestedEnd.value;
    }
    end := Min(end, fileSize - 1);
    end := Min(end, start + BUFF_SIZE - 1);
    var length := end - start + 1;
    assert end == WindowEnd(fileSize, start, requestedEnd);

    var read := ReadAt(file, start, length);
    if read.Err? {
      return Err(read.error);
    }
    var bytes := read.value;
    if |bytes| != length {
      return Err(AssertionError);
    }
    assert start + length == end + 1 <= fileSize;
    var headers := [Header("Content-Range", ContentRange(start, end, fileSize)),
                    Header("Accept-Ranges", "bytes")];
    return Ok(Response(206, bytes, mime, headers));
  }

  /** A satisfiable request (start inside the file, end not before start)
      is served a non-empty window inside the file of at most one buffer. */
  lemma WindowBounds(fileSize: nat, start: nat, end: Option<nat>)
    requires start < fileSize
    requires end.Some? ==> end.value >= start
    ensures start <= WindowEnd(fileSize, start, end) <= fileSize - 1
    ensures 1 <= WindowLength(fileSize, start, end) <= BUFF_SIZE
  {
  }

  /** An explicit end is kept as it is when it lies inside the file and
      inside one buffer from the start. */
  lemma RequestedEndKept(fileSize: nat, start: nat, end: nat)
    requires end <= fileSize - 1 && end <= start + BUFF_SIZE - 1
    ensures WindowEnd(fileSize, start, Some(end)) == end
  {
  }

  /** Without an explicit end a full buffer is served, or the rest of the file if shorter. */
  lemma OpenEndedWindow(fileSize: nat, start: nat)
    ensures WindowEnd(fileSize, start, None) == Min(start + BUFF_SIZE - 1, fileSize - 1)
  {
  }

  /** A start exactly at the end of the file (and no earlier end) yields an
      empty window; a start beyond it yields a negative one. */
  lemma WindowPastEnd(fileSize: nat, start: nat, end: Option<nat>)
    requires start >= fileSize
    ensures WindowLength(fileSize, start, end) <= 0
    ensures start > fileSize ==> WindowLength(fileSize, start, end) < 0
    ensures start == fileSize && end.None? ==> WindowLength(fileSize, start, end) == 0
  {
  }

  /** `bytes=150-` on a 100-byte file asks `read` for -50 bytes, and
      `bytes=10-5` for -4: both raise ValueError before the assertion. */
  lemma UnsatisfiableReadsRaise(file: seq<Byte>)
    requires |file| == 100
    ensures WindowLength(100, 150, None) == -50 && ReadAt(file, 150, -50) == Err(ValueError)
    ensures WindowLength(100, 10, Some(5)) == -4 && ReadAt(file, 10, -4) == Err(ValueError)
  {
  }

  /** A start one past the end of a 100-byte file gives length -1: `read`
      returns nothing, and the length assertion fails. */
  lemma LengthMinusOneAsserts(file: seq<Byte>)
    requires |file| == 100
    ensures WindowLength(100, 101, None) == -1 && ReadAt(file, 101, -1) == Ok([])
  {
  }

  /** For a satisfiable request the Content-Range header has the shape of
      section 14.4 of RFC 9110: unsigned decimal first-last/complete-length
      with first <= last < complete-length. */
  lemma ContentRangeWellFormed(fileSize: nat, start: nat, end: Option<nat>)
    requires start < fileSize
    requires end.Some? ==> end.value >= start
    ensures var last := WindowEnd(fileSize, start, end);
      && 0 <= start <= last < fileSize
      && ContentRange(start, last, fileSize)
         == "bytes " + FormatNat(start) + "-" + FormatNat(last) + "/" + FormatNat(fileSize)
  {
  }

  /** The bodies of the successive open-ended windows from `start` on:
      what a player that keeps asking for the next byte receives. */
  function Tiles(file: seq<Byte>, start: nat): seq<Byte>
    decreases |file| - start
  {
    if start >= |file| then []
    else
      var end := WindowEnd(|file|, start, None);
      file[start..end + 1] + Tiles(file, end + 1)
  }

  /** Successive windows cover the rest of the file exactly, in order, with
      no byte lost or repeated. */
  lemma {:induction false} TilesReconstruct(file: seq<Byte>, start: nat)
    requires start <= |file|
    ensures Tiles(file, start) == file[start..]
    decreases |file| - start
  {
    if start < |file| {
      var end := WindowEnd(|file|, start, None);
      TilesReconstruct(file, end + 1);
      assert file[start..] == file[start..end + 1] + file[end + 1..];
    }
  }
}
