/** The `Videos` catalog: the directory entries whose lower-cased extension
    is allowed, put in natural order and numbered 1, 2, ... N; lookup by
    number, and the listing `[index, name, mime]` in index order. */
module Catalog {
  import opened Common

  /** `Video = namedtuple("Video", ("name", "ext", "mime", "path"))`. */
  datatype Video = Video(name: string, ext: string, mime: Option<string>, path: string)

  /** One row of the listing: `[k, v.name, v.mime]`. */
  datatype Row = Row(index: int, name: string, mime: Option<string>)

  /** The operating system and library calls the catalog makes. */
  datatype Host = Host(
    isDir: string -> bool,                  // os.path.isdir, resolved against the working directory
    natsorted: seq<string> -> seq<string>,  // natsort.natsorted
    guessType: string -> Option<string>,    // mimetypes.guess_type(...)[0]
    absJoin: (string, string) -> string)    // os.path.abspath(os.path.join(location, name))

  /** The allowed extensions of both scripts (a tuple in one, a set in the other). */
  const ALLOWED: set<string> := {".mp4", ".mkv"}

  /** The fixed scan directory of server.py. */
  const SERVER_LOCATION: string := "D:\\Downloads"

  /** Position of the last '.' in `s`, or -1 when there is none. */
  function LastDot(s: string): (k: int)
    ensures -1 <= k < |s|
    ensures k >= 0 ==> s[k] == '.'
    ensures forall j :: k < j < |s| ==> s[j] != '.'
  {
    if s == [] then -1
    else if s[|s| - 1] == '.' then |s| - 1
    else LastDot(s[..|s| - 1])
  }

  /** `os.path.splitext(name)` for a directory entry (which holds no path
      separator): the extension runs from the last dot to the end, unless
      only dots come before that dot (".mp4" has no extension). */
  function SplitExt(name: string): (parts: (string, string))
    ensures parts.0 + parts.1 == name
    ensures parts.1 != [] ==> parts.1[0] == '.' && forall j :: 1 <= j < |parts.1| ==> parts.1[j] != '.'
    ensures parts.1 != [] <==> exists i, j :: 0 <= j < i < |name| && name[i] == '.' && name[j] != '.'
  {
    var k := LastDot(name);
    if k >= 0 && exists j :: 0 <= j < k && name[j] != '.' then
      (name[..k], name[k..])
    else
      (name, [])
  }

  /** `str.lower` on one character, for the characters whose lower case is
      ASCII: 'A'..'Z' and U+212A KELVIN SIGN (which becomes 'k'). */
  function LowerChar(c: char): (r: char)
    ensures !('A' <= r <= 'Z')
    ensures r != c ==> 'a' <= r <= 'z'
  {
    if 'A' <= c <= 'Z' then (c as int + 32) as char
    else if c == '\U{212A}' then 'k'
    else c
  }

  /** `str.lower`: no ASCII capital is left, and only letters change. */
  function Lower(s: string): (r: string)
    ensures |r| == |s|
    ensures forall i :: 0 <= i < |r| ==> !('A' <= r[i] <= 'Z')
    ensures forall i :: 0 <= i < |r| ==> r[i] == s[i] || 'a' <= r[i] <= 'z'
  {
    seq(|s|, i requires 0 <= i < |s| => LowerChar(s[i]))
  }

  /** Lower-casing twice is lower-casing once. */
  lemma LowerIdempotent(s: string)
    ensures Lower(Lower(s)) == Lower(s)
  {
    var l := Lower(s);
    forall i | 0 <= i < |l|
      ensures Lower(l)[i] == l[i]
    {
      assert !('A' <= l[i] <= 'Z') && l[i] != '\U{212A}';
    }
  }

  /** The test `_possible` applies to one entry of `os.listdir`. */
  predicate Accepted(name: string, isDir: string -> bool, allowed: set<string>) {
    !isDir(name) && Lower(SplitExt(name).1) in allowed
  }

  /** `_possible()`: the entries that pass, in the order `os.listdir` gave them. */
  function Possible(names: seq<string>, isDir: string -> bool, allowed: set<string>): (r: seq<string>)
    ensures forall x :: x in r <==> x in names && Accepted(x, isDir, allowed)
    ensures forall x :: multiset(r)[x] == if Accepted(x, isDir, allowed) then multiset(names)[x] else 0
  {
    if names == [] then []
    else
      assert names == [names[0]] + names[1..];
      (if Accepted(names[0], isDir, allowed) then [names[0]] else []) + Possible(names[1..], isDir, allowed)
  }

  /** The record the loop stores for one entry: `Video(name, ext, mime, abs)`. */
  function EntryFor(location: string, name: string, host: Host): (v: Video)
    ensures v.name + v.ext == name
  {
    var parts := SplitExt(name);
    Video(parts.0, parts.1, host.guessType(name), host.absJoin(location, name))
  }

  /** The candidates in the order the numbering follows. */
  function SortedCandidates(names: seq<string>, host: Host, allowed: set<string>): seq<string> {
    host.natsorted(Possible(names, host.isDir, allowed))
  }

  /** The record for the candidate numbered `k` (counting from 1). */
  function EntryAt(location: string, sorted: seq<string>, k: int, host: Host): Video
    requires 1 <= k <= |sorted|
  {
    EntryFor(location, sorted[k - 1], host)
  }

  /** The map the counting loop builds: key i holds the i-th sorted candidate. */
  function Catalogue(location: string, allowed: set<string>, names: seq<string>, host: Host): (m: map<int, Video>)
    ensures forall k :: k in m <==> 1 <= k <= |SortedCandidates(names, host, allowed)|
  {
    var sorted := SortedCandidates(names, host, allowed);
    map k | 1 <= k <= |sorted| :: EntryAt(location, sorted, k, host)
  }

  /** A set other than the empty set has an element. */
  lemma NonEmptyHasElement(s: set<int>)
    requires s != {}
    ensures exists x :: x in s
  {
    if forall x :: x !in s {
      assert false;
    }
  }

  /** Every non-empty finite set of integers has a least element. */
  lemma {:induction false} MinExists(s: set<int>)
    requires s != {}
    ensures exists m :: m in s && forall j :: j in s ==> m <= j
    decreases s
  {
    NonEmptyHasElement(s);
    var x :| x in s;
    var rest := s - {x};
    if rest == {} {
      forall j | j in s
        ensures x <= j
      {
        assert j in rest || j == x;
      }
    } else {
      MinExists(rest);
      var m :| m in rest && forall j :: j in rest ==> m <= j;
      var least := if x < m then x else m;
      forall j | j in s
        ensures least <= j
      {
        assert j in rest || j == x;
      }
      assert least in s;
    }
  }

  /** The keys of a map in ascending order. */
  function SortedKeys(s: set<int>): (r: seq<int>)
    ensures forall k :: k in r <==> k in s
    ensures forall i, j :: 0 <= i < j < |r| ==> r[i] < r[j]
    decreases s
  {
    if s == {} then []
    else
      MinExists(s);
      var m :| m in s && forall j :: j in s ==> m <= j;
      var rest := SortedKeys(s - {m});
      assert forall k :: k in rest ==> m < k;
      [m] + rest
  }

  /** `[k, v.name, v.mime]` for the key `k` of the map. */
  function RowOf(m: map<int, Video>, k: int): Row
    requires k in m
  {
    Row(k, m[k].name, m[k].mime)
  }

  /** `_sorted_videos()` / server.py's `_videos()`: one row per key of the
      map, sorted by key. */
  function SortedRows(m: map<int, Video>): (rows: seq<Row>)
    ensures forall i, j :: 0 <= i < j < |rows| ==> rows[i].index < rows[j].index
    ensures forall k :: k in m <==> exists i :: 0 <= i < |rows| && rows[i].index == k
    ensures forall i :: 0 <= i < |rows| ==> rows[i].index in m && rows[i] == RowOf(m, rows[i].index)
  {
    var ks := SortedKeys(m.Keys);
    KeysInMap(m, ks);
    var rows := RowsOfKeys(m, ks);
    RowsCoverKeys(m, ks, rows);
    rows
  }

  /** The rows for the keys `ks`, in the order of `ks`. */
  function RowsOfKeys(m: map<int, Video>, ks: seq<int>): (rows: seq<Row>)
    requires forall i :: 0 <= i < |ks| ==> ks[i] in m
    ensures |rows| == |ks|
    ensures forall i :: 0 <= i < |rows| ==> rows[i] == RowOf(m, ks[i]) && rows[i].index == ks[i]
  {
    seq(|ks|, i requires 0 <= i < |ks| => RowOf(m, ks[i]))
  }

  /** Rows built from the ascending keys of `m` cover every key. A step of
      `SortedRows`, kept apart so that its proof stays small and stable. */
  lemma RowsCoverKeys(m: map<int, Video>, ks: seq<int>, rows: seq<Row>)
    requires forall k :: k in ks <==> k in m.Keys
    requires |rows| == |ks|
    requires forall i :: 0 <= i < |rows| ==> rows[i].index == ks[i]
    ensures forall k :: k in m <==> exists i :: 0 <= i < |rows| && rows[i].index == k
  {
    forall k | k in m
      ensures exists i :: 0 <= i < |rows| && rows[i].index == k
    {
      assert k in ks;
      var i :| 0 <= i < |ks| && ks[i] == k;
      assert rows[i].index == k;
    }
    forall k | exists i :: 0 <= i < |rows| && rows[i].index == k
      ensures k in m
    {
      var i :| 0 <= i < |rows| && rows[i].index == k;
      var key := ks[i];
      assert key in ks;
    }
  }

  lemma KeysInMap(m: map<int, Video>, ks: seq<int>)
    requires forall k :: k in ks <==> k in m.Keys
    ensures forall i :: 0 <= i < |ks| ==> ks[i] in m
  {
    forall i | 0 <= i < |ks|
      ensures ks[i] in m
    {
      var k := ks[i];
      assert k in ks;
    }
  }

  /** A strictly ascending sequence whose elements are exactly 1..n is 1, 2, ..., n. */
  lemma {:induction false} AscendingAt(r: seq<int>, n: nat, i: nat)
    requires forall a, b :: 0 <= a < b < |r| ==> r[a] < r[b]
    requires forall k :: k in r <==> 1 <= k <= n
    requires i < n
    ensures i < |r| && r[i] == i + 1
    decreases i
  {
    assert i + 1 in r;
    var p :| 0 <= p < |r| && r[p] == i + 1;
    if i == 0 {
      assert r[0] in r;
    } else {
      AscendingAt(r, n, i - 1);
      assert r[i - 1] < r[p];
      assert r[i] in r;
    }
  }

  /** In a strictly ascending sequence of integers each element is at least
      its distance from the first above the first. */
  lemma {:induction false} AscendingGap(r: seq<int>, i: nat)
    requires forall a, b :: 0 <= a < b < |r| ==> r[a] < r[b]
    requires i < |r|
    ensures r[i] >= r[0] + i
    decreases i
  {
    if i > 0 {
      AscendingGap(r, i - 1);
    }
  }

  /** On a map whose keys are exactly 1..n, the listing holds rows 1..n in order. */
  lemma DenseListing(m: map<int, Video>, n: nat)
    requires forall k :: k in m <==> 1 <= k <= n
    ensures |SortedRows(m)| == n
    ensures forall i :: 0 <= i < n ==> SortedRows(m)[i].index == i + 1
  {
    var r := SortedKeys(m.Keys);
    forall i | 0 <= i < n
      ensures i < |r| && r[i] == i + 1
    {
      AscendingAt(r, n, i);
    }
    if n > 0 {
      AscendingAt(r, n, n - 1);
    }
    if |r| > 0 {
      var first, last := r[0], r[|r| - 1];
      assert first in r && last in r;
      AscendingGap(r, |r| - 1);
    }
  }

  /** The catalog holds exactly the accepted entries, numbered 1..N with N
      their count, provided the sort only reorders its input. */
  lemma CataloguedIffAccepted(location: string, allowed: set<string>, names: seq<string>, host: Host)
    requires var p := Possible(names, host.isDir, allowed); multiset(host.natsorted(p)) == multiset(p)
    ensures var m := Catalogue(location, allowed, names, host);
      && (forall k :: k in m <==> 1 <= k <= |Possible(names, host.isDir, allowed)|)
      && (forall name :: (exists k :: k in m && m[k].name + m[k].ext == name)
                         <==> name in names && Accepted(name, host.isDir, allowed))
  {
    var p := Possible(names, host.isDir, allowed);
    var sorted := SortedCandidates(names, host, allowed);
    assert |sorted| == |multiset(sorted)| == |multiset(p)| == |p|;
    var m := Catalogue(location, allowed, names, host);
    forall name
      ensures (exists k :: k in m && m[k].name + m[k].ext == name) <==> name in names && Accepted(name, host.isDir, allowed)
    {
      if name in names && Accepted(name, host.isDir, allowed) {
        AcceptedIsCatalogued(location, allowed, names, host, name);
      }
      if k :| k in m && m[k].name + m[k].ext == name {
        CataloguedIsAccepted(location, allowed, names, host, k);
      }
    }
  }

  /** An accepted entry is catalogued under some number. A step of
      `CataloguedIffAccepted`, kept apart so that its proof stays small. */
  lemma AcceptedIsCatalogued(location: string, allowed: set<string>, names: seq<string>, host: Host, name: string)
    requires var p := Possible(names, host.isDir, allowed); multiset(host.natsorted(p)) == multiset(p)
    requires name in names && Accepted(name, host.isDir, allowed)
    ensures var m := Catalogue(location, allowed, names, host);
      exists k :: k in m && m[k].name + m[k].ext == name
  {
    var p := Possible(names, host.isDir, allowed);
    var sorted := SortedCandidates(names, host, allowed);
    var m := Catalogue(location, allowed, names, host);
    assert name in multiset(p);
    assert name in sorted;
    var q :| 0 <= q < |sorted| && sorted[q] == name;
    assert (q + 1) in m && m[q + 1].name + m[q + 1].ext == name;
  }

  /** A catalogued record comes from an accepted entry. A step of
      `CataloguedIffAccepted`, kept apart so that its proof stays small. */
  lemma CataloguedIsAccepted(location: string, allowed: set<string>, names: seq<string>, host: Host, k: int)
    requires var p := Possible(names, host.isDir, allowed); multiset(host.natsorted(p)) == multiset(p)
    requires k in Catalogue(location, allowed, names, host)
    ensures var v := Catalogue(location, allowed, names, host)[k];
      v.name + v.ext in names && Accepted(v.name + v.ext, host.isDir, allowed)
  {
    var p := Possible(names, host.isDir, allowed);
    var sorted := SortedCandidates(names, host, allowed);
    var m := Catalogue(location, allowed, names, host);
    var name := sorted[k - 1];
    assert m[k].name + m[k].ext == name;
    assert name in multiset(sorted);
    assert name in p;
  }


  /** `LastDot` is the position of the one dot with no dot after it. */
  lemma LastDotAt(s: string, k: nat)
    requires k < |s| && s[k] == '.'
    requires forall j :: k < j < |s| ==> s[j] != '.'
    ensures LastDot(s) == k
  {
  }

  /** Video.ext keeps the case of the file name; only the test lower-cases it. */
  lemma UpperCaseExtensionKept(location: string, host: Host)
    requires !host.isDir("Clip.MP4")
    ensures Accepted("Clip.MP4", host.isDir, ALLOWED)
    ensures EntryFor(location, "Clip.MP4", host).ext == ".MP4"
  {
    LastDotAt("Clip.MP4", 4);
    assert "Clip.MP4"[0] != '.';
    assert "Clip.MP4"[..4] == "Clip" && "Clip.MP4"[4..] == ".MP4";
    assert SplitExt("Clip.MP4") == ("Clip", ".MP4");
    assert Lower(".MP4") == ".mp4";
  }

  /** A hidden file named ".mp4" has no extension and is skipped. */
  lemma DotFileSkipped(isDir: string -> bool)
    ensures !Accepted(".mp4", isDir, ALLOWED)
  {
    LastDotAt(".mp4", 0);
    assert SplitExt(".mp4").1 == [];
    assert Lower([]) == [];
  }

  /** One turn of the counting loop keeps keys 1..i-1 holding the first
      i-1 sorted candidates. */
  lemma NumberingStep(m: map<int, Video>, next: map<int, Video>, location: string, sorted: seq<string>, i: int, host: Host, video: Video)
    requires next == m[i := video]
    requires 1 <= i <= |sorted|
    requires forall k :: k in m <==> 1 <= k < i
    requires forall k :: 1 <= k < i ==> m[k] == EntryAt(location, sorted, k, host)
    requires var parts := SplitExt(sorted[i - 1]);
      video == Video(parts.0, parts.1, host.guessType(sorted[i - 1]), host.absJoin(location, sorted[i - 1]))
    ensures forall k :: k in next <==> 1 <= k < i + 1
    ensures forall k :: 1 <= k < i + 1 ==> next[k] == EntryAt(location, sorted, k, host)
  {
  }

  /** The map the loop leaves behind is the catalogue. */
  lemma CatalogueOfLoop(m: map<int, Video>, location: string, allowed: set<string>, names: seq<string>, host: Host)
    requires var sorted := SortedCandidates(names, host, allowed);
      && (forall k :: k in m <==> 1 <= k < |sorted| + 1)
      && (forall k :: 1 <= k < |sorted| + 1 ==> m[k] == EntryAt(location, sorted, k, host))
    ensures m == Catalogue(location, allowed, names, host)
    ensures forall k :: k in m <==> 1 <= k <= |SortedRows(m)|
  {
    var sorted := SortedCandidates(names, host, allowed);
    DenseListing(m, |sorted|);
    var c := Catalogue(location, allowed, names, host);
    assert forall k :: k in c <==> 1 <= k <= |sorted|;
    forall k | k in m
      ensures m[k] == c[k]
    {
      assert c[k] == EntryAt(location, sorted, k, host);
    }
  }

  /** `Videos`: `_map` is `entries`, `_videos` is `listing`. */
  class Videos {
    const location: string
    const allowed: set<string>
    var entries: map<int, Video>
    var listing: seq<Row>

    /** Keys are 1..N with N the length of the listing, and the listing is the
        key-sorted view of the map. */
    ghost predicate Valid()
      reads this
    {
      && (forall k :: k in entries <==> 1 <= k <= |listing|)
      && listing == SortedRows(entries)
    }

    /** `Videos(videos_path, allowed)` of streamer_server.py, given what
        `os.listdir(videos_path)` returns. */
    constructor (location: string, allowed: set<string>, names: seq<string>, host: Host)
      ensures this.location == location && this.allowed == allowed
      ensures entries == Catalogue(location, allowed, names, host)
      ensures Valid()
    {
      this.location := location;
      this.allowed := allowed;
      entries := map[];
      listing := [];
      new;
      MapVideos(names, host);
    }

    /** `Videos()` of server.py: the fixed directory and extension set. */
    constructor Fixed(names: seq<string>, host: Host)
      ensures location == SERVER_LOCATION && allowed == ALLOWED
      ensures entries == Catalogue(SERVER_LOCATION, ALLOWED, names, host)
      ensures Valid()
    {
      location := SERVER_LOCATION;
      allowed := ALLOWED;
      entries := map[];
      listing := [];
      new;
      MapVideos(names, host);
    }

    /** `_map_videos()`: number the sorted candidates 1, 2, ... in a
        counting loop, then store the key-sorted listing. */
    method MapVideos(names: seq<string>, host: Host)
      requires entries == map[]
      modifies this
      ensures entries == Catalogue(location, allowed, names, host)
      ensures Valid()
    {
      var i := 1;
      var videos := host.natsorted(Possible(names, host.isDir, allowed));
      for j := 0 to |videos|
        invariant i == j + 1
        invariant forall k :: k in entries <==> 1 <= k < i
        invariant forall k :: 1 <= k < i ==> entries[k] == EntryAt(location, videos, k, host)
      {
        var vid := videos[j];
        var parts := SplitExt(vid);
        var mime := host.guessType(vid);
        var video := Video(parts.0, parts.1, mime, host.absJoin(location, vid));
        var next := entries[i := video];
        NumberingStep(entries, next, location, videos, i, host, video);
        entries := next;
        i := i + 1;
      }
      assert videos == SortedCandidates(names, host, allowed);
      CatalogueOfLoop(entries, location, allowed, names, host);
      listing := SortedRows(entries);
    }

    /** `videos[item]`: the record numbered `item`, KeyError for any number
        outside 1..N. */
    function GetItem(item: int): (r: Result<Video>)
      reads this
      ensures Valid() ==> (r.Ok? <==> 1 <= item <= |listing|)
      ensures r.Ok? ==> item in entries && r.value == entries[item]
      ensures r.Err? ==> r.error == KeyError(item)
    {
      if item in entries then Ok(entries[item]) else Err(KeyError(item))
    }

    /** The `videos` property: `[k, name, mime]` for k = 1..N in order. */
    function ListVideos(): (rows: seq<Row>)
      reads this
      requires Valid()
      ensures |rows| == |listing|
      ensures forall i :: 0 <= i < |rows| ==>
        (i + 1) in entries && rows[i] == Row(i + 1, entries[i + 1].name, entries[i + 1].mime)
    {
      DenseListing(entries, |listing|);
      listing
    }
  }
}
