/** Reading the batch id out of the page address, and the base path the
    share link is built on. The address parts come in as parameters: the
    value of the `id` query parameter (absent or a string) and the path. */
module UrlPaths {
  import opened Wrappers
  import opened Text

  /** `pathname.split("/").filter(Boolean)`: the non-empty path segments. */
  function Segments(pathname: string): (parts: seq<string>)
    ensures forall i :: 0 <= i < |parts| ==> parts[i] != [] && NoneIn(parts[i], {'/'})
  {
    NonEmpty(Split(pathname, {'/'}))
  }

  /** `parts.indexOf(segment)`: the first position of `segment`, or -1. */
  function IndexOfSegment(parts: seq<string>, segment: string): (r: int)
    ensures -1 <= r < |parts|
    ensures r >= 0 ==> parts[r] == segment
    ensures forall k :: 0 <= k < |parts| && (r == -1 || k < r) ==> parts[k] != segment
  {
    if parts == [] then -1
    else if parts[0] == segment then 0
    else
      var r := IndexOfSegment(parts[1..], segment);
      if r == -1 then -1 else r + 1
  }

  /** `getBatchId`: a non-empty `id` query value, else the path segment after
      the first `b` segment, else nothing. The last `if` of `getBatchId`
      (two segments, the first `b`) is kept as written. */
  function GetBatchId(idParam: Option<string>, pathname: string): Option<string> {
    if idParam.Some? && idParam.value != [] then idParam
    else
      var parts := Segments(pathname);
      var bIndex := IndexOfSegment(parts, "b");
      if bIndex >= 0 && bIndex + 1 < |parts| && parts[bIndex + 1] != [] then Some(parts[bIndex + 1])
      else if |parts| == 2 && parts[0] == "b" then Some(parts[1])
      else None
  }

  /** The order in which `getBatchId` looks: a non-empty query value wins;
      otherwise the segment after the first `b` segment, when there is one;
      otherwise nothing. In particular the two-segment branch never decides
      the result, and a segment read from the path is never empty. */
  lemma {:induction false} GetBatchIdOrder(idParam: Option<string>, pathname: string)
    ensures idParam.Some? && idParam.value != [] ==> GetBatchId(idParam, pathname) == idParam
    ensures var parts := Segments(pathname);
      !(idParam.Some? && idParam.value != []) ==>
        (forall i :: 0 <= i < |parts| - 1 && parts[i] == "b" && (forall j :: 0 <= j < i ==> parts[j] != "b") ==>
          GetBatchId(idParam, pathname) == Some(parts[i + 1])) &&
        ((forall i :: 0 <= i < |parts| - 1 ==> parts[i] != "b") ==> GetBatchId(idParam, pathname) == None)
    ensures GetBatchId(idParam, pathname).Some? ==> GetBatchId(idParam, pathname).value != []
  {
    var parts := Segments(pathname);
    var bIndex := IndexOfSegment(parts, "b");
    assert forall i :: 0 <= i < |parts| - 1 && parts[i] == "b" && (forall j :: 0 <= j < i ==> parts[j] != "b") ==>
      i == bIndex;
  }

  // ---------------------------------------------------------------------------
  // getBasePath

  /** `s.lastIndexOf(c)` for one character: the last position of `c`, or -1. */
  function LastIndexOfChar(s: string, c: char): (r: int)
    ensures -1 <= r < |s|
    ensures r >= 0 ==> s[r] == c
    ensures forall k :: r < k < |s| ==> s[k] != c
  {
    if s == [] then -1
    else if s[|s| - 1] == c then |s| - 1
    else LastIndexOfChar(s[..|s| - 1], c)
  }

  const BatchPage := "batch.html"

  /** `getBasePath`: the directory the site is served from, derived from the
      current path. */
  function GetBasePath(pathname: string): string {
    if Contains(pathname, "/b/") then
      var prefix := pathname[..IndexOf(pathname, "/b/")];
      if EndsWith(prefix, "/") then prefix else prefix + "/"
    else if EndsWith(pathname, "/" + BatchPage) then pathname[..|pathname| - |BatchPage|]
    else if EndsWith(pathname, "/") then pathname
    else
      var idx := LastIndexOfChar(pathname, '/');
      if idx >= 0 then pathname[..idx + 1] else "/"
  }

  /** The base path always ends in `/`. When the path holds a `/` it is a
      prefix of the path, and otherwise it is `/` itself. */
  lemma {:induction false} BasePathShape(pathname: string)
    ensures EndsWith(GetBasePath(pathname), "/")
    ensures '/' in pathname ==> GetBasePath(pathname) <= pathname
    ensures '/' !in pathname ==> GetBasePath(pathname) == "/"
  {
    var r := GetBasePath(pathname);
    if Contains(pathname, "/b/") {
      var i := IndexOf(pathname, "/b/");
      assert pathname[i] == '/' by { assert pathname[i..i + 3][0] == pathname[i]; }
      assert pathname[..i] + "/" == pathname[..i + 1];
      assert '/' in pathname;
    } else if EndsWith(pathname, "/" + BatchPage) {
      var n := |pathname|;
      assert pathname[n - 11..][0] == pathname[n - 11];
      assert pathname[..n - 10][n - 11] == pathname[n - 11];
      assert '/' in pathname;
    } else if EndsWith(pathname, "/") {
      assert pathname[|pathname| - 1..][0] == pathname[|pathname| - 1];
      assert '/' in pathname;
    } else {
      var idx := LastIndexOfChar(pathname, '/');
      if '/' in pathname {
        var k :| 0 <= k < |pathname| && pathname[k] == '/';
        assert idx >= 0;
      }
    }
  }

  /** An occurrence inside a prefix is an occurrence in the whole. */
  lemma {:induction false} OccursInPrefix(a: string, b: string, needle: string, j: int)
    requires a <= b && OccursAt(a, needle, j)
    ensures OccursAt(b, needle, j)
  {
    assert b[j..j + |needle|] == a[j..j + |needle|];
  }

  /** The base path never holds `/b/`, the marker of a share link. */
  lemma {:induction false} BasePathHasNoMarker(pathname: string)
    ensures !Contains(GetBasePath(pathname), "/b/")
  {
    var r := GetBasePath(pathname);
    BasePathShape(pathname);
    if Contains(r, "/b/") {
      var j :| 0 <= j <= |r| && OccursAt(r, "/b/", j);
      if Contains(pathname, "/b/") {
        var i := IndexOf(pathname, "/b/");
        assert pathname[i] == '/' by { assert pathname[i..i + 3][0] == pathname[i]; }
        assert r <= pathname[..i + 1];
        OccursInPrefix(r, pathname, "/b/", j);
      } else {
        OccursInPrefix(r, pathname, "/b/", j);
      }
    }
  }

  /** Taking the base path of a base path changes nothing. */
  lemma {:induction false} BasePathIdempotent(pathname: string)
    ensures GetBasePath(GetBasePath(pathname)) == GetBasePath(pathname)
  {
    var r := GetBasePath(pathname);
    BasePathShape(pathname);
    BasePathHasNoMarker(pathname);
    assert r[|r| - 1..] == "/";
    EndsWithLast(r, "/" + BatchPage);
    EndsWithLast(r, "/");
  }

  /** A string ends with the last character of any non-empty suffix it has. */
  lemma {:induction false} EndsWithLast(s: string, suffix: string)
    ensures EndsWith(s, suffix) && suffix != [] ==> s[|s| - 1] == suffix[|suffix| - 1]
  {
    if EndsWith(s, suffix) && suffix != [] {
      assert s[|s| - |suffix|..][|suffix| - 1] == s[|s| - 1];
    }
  }

  // ---------------------------------------------------------------------------
  // The share link

  /** The position of the first `/` in `s`. */
  function FirstSlash(s: string): (k: nat)
    requires '/' in s
    ensures k < |s| && s[k] == '/'
    ensures forall j :: 0 <= j < k ==> s[j] != '/'
  {
    if s[0] == '/' then 0 else 1 + FirstSlash(s[1..])
  }

  /** An occurrence in a suffix is an occurrence in the whole. */
  lemma {:induction false} OccursInSuffix(a: string, b: string, needle: string)
    ensures Contains(b, needle) ==> Contains(a + b, needle)
  {
    if Contains(b, needle) {
      var i :| 0 <= i <= |b| && OccursAt(b, needle, i);
      assert (a + b)[|a| + i..|a| + i + |needle|] == b[i..i + |needle|];
      assert OccursAt(a + b, needle, |a| + i);
    }
  }

  /** Splitting at the first `/`: the text before it is the first piece. */
  lemma {:induction false} SplitFirstSlash(s: string)
    requires '/' in s
    ensures var k := FirstSlash(s);
      Split(s, {'/'}) == [s[..k]] + Split(s[k + 1..], {'/'})
  {
    var k := FirstSlash(s);
    var w, rest := s[..k], s[k + 1..];
    assert s == w + ['/'] + rest;
    assert NoneIn(w, {'/'}) by {
      forall c | c in w ensures c != '/' {
        var j :| 0 <= j < |w| && w[j] == c;
        assert s[j] == c;
      }
    }
    SplitAround(w, '/', rest, {'/'});
    SplitWhole(w, {'/'});
  }

  /** A path whose first segment is `b` holds the marker at its start. */
  lemma {:induction false} MarkerAtStart(w: string, tail: string)
    requires w == "b"
    ensures Contains("/" + w + "/" + tail, "/b/")
  {
    var whole := "/" + w + "/" + tail;
    assert whole[0..3] == "/b/";
    assert OccursAt(whole, "/b/", 0);
  }

  /** Without the marker in `/<w>/<rest>/`, the first segment `w` is not `b`
      and the marker is not in `/<rest>/` either. */
  lemma {:induction false} NoMarkerInParts(w: string, rest: string)
    requires !Contains("/" + (w + "/" + rest) + "/", "/b/")
    ensures w != "b" && !Contains("/" + rest + "/", "/b/")
  {
    var whole := "/" + (w + "/" + rest) + "/";
    assert whole == "/" + w + "/" + (rest + "/");
    if w == "b" {
      MarkerAtStart(w, rest + "/");
    }
    assert whole == ("/" + w) + ("/" + rest + "/");
    OccursInSuffix("/" + w, "/" + rest + "/", "/b/");
  }

  /** A directory path `/s/` without the `/b/` marker has no `b` segment. */
  lemma {:induction false} NoMarkerNoSegment(s: string)
    requires !Contains("/" + s + "/", "/b/")
    ensures "b" !in Split(s, {'/'})
    decreases |s|
  {
    if '/' in s {
      var k := FirstSlash(s);
      var w, rest := s[..k], s[k + 1..];
      SplitFirstSlash(s);
      assert s == w + "/" + rest;
      NoMarkerInParts(w, rest);
      NoMarkerNoSegment(rest);
    } else {
      SplitWhole(s, {'/'});
      if s == "b" {
        assert "/" + s + "/" == "/" + s + "/" + [];
        MarkerAtStart(s, []);
      }
    }
  }

  /** The segments of `b/<id>` are `b` and the id. */
  lemma {:induction false} TailPieces(id: string)
    requires NoneIn(id, {'/'})
    ensures Split("b" + ['/'] + id, {'/'}) == ["b", id]
  {
    SplitAround("b", '/', id, {'/'});
    SplitWhole("b", {'/'});
    SplitWhole(id, {'/'});
  }

  /** The segments of `<dir>/b/<id>`: those of the directory, then `b` and the id. */
  lemma {:induction false} LinkPieces(dir: string, id: string)
    requires NoneIn(id, {'/'})
    ensures Split(dir + "/b/" + id, {'/'}) == Split(dir, {'/'}) + ["b", id]
  {
    var tail := "b" + ['/'] + id;
    assert dir + "/b/" + id == dir + ['/'] + tail;
    SplitAround(dir, '/', tail, {'/'});
    TailPieces(id);
  }

  /** A base path has no `b` segment before its final `/`. */
  lemma {:induction false} BaseHasNoBSegment(base: string)
    requires |base| > 0 && base[0] == '/' && base[|base| - 1] == '/'
    requires !Contains(base, "/b/")
    ensures "b" !in Split(base[..|base| - 1], {'/'})
  {
    var u := base[..|base| - 1];
    if u == [] {
      assert Split(u, {'/'}) == [""];
    } else {
      var t := u[1..];
      assert u == [] + ['/'] + t;
      SplitAround([], '/', t, {'/'});
      assert Split([], {'/'}) == [""];
      assert "/" + t + "/" == base;
      NoMarkerNoSegment(t);
    }
  }

  /** With no `b` among the first segments, the first `b` is the one after them. */
  lemma {:induction false} FirstBAfter(front: seq<string>, id: string)
    requires "b" !in front
    ensures IndexOfSegment(front + ["b", id], "b") == |front|
  {
    var parts := front + ["b", id];
    assert parts[|front|] == "b";
    assert forall k :: 0 <= k < |front| ==> parts[k] == front[k];
  }

  /** The share link `<base path>b/<id>` that the copy button builds from any
      page path leads back to the batch: `getBatchId` reads `id` out of it,
      provided the id is a single path segment. */
  lemma {:induction false} ShareLinkRoundTrip(pathname: string, id: string)
    requires |pathname| > 0 && pathname[0] == '/'
    requires id != [] && NoneIn(id, {'/'})
    ensures GetBatchId(None, GetBasePath(pathname) + "b/" + id) == Some(id)
  {
    var base := GetBasePath(pathname);
    BaseDelimited(pathname);
    var front := LinkSegments(base, id);
    FirstBAfter(front, id);
  }

  /** A base path computed from a path that starts with `/` starts and ends
      with `/` and holds no marker. */
  lemma {:induction false} BaseDelimited(pathname: string)
    requires |pathname| > 0 && pathname[0] == '/'
    ensures var base := GetBasePath(pathname);
      |base| > 0 && base[0] == '/' && base[|base| - 1] == '/' && !Contains(base, "/b/")
  {
    var base := GetBasePath(pathname);
    BasePathShape(pathname);
    BasePathHasNoMarker(pathname);
    assert pathname[0] in pathname;
    assert base[|base| - 1..][0] == base[|base| - 1];
  }

  /** The segments of a share link: those of the base path, none of them
      `b`, then `b` and the id. */
  lemma {:induction false} LinkSegments(base: string, id: string) returns (front: seq<string>)
    requires |base| > 0 && base[0] == '/' && base[|base| - 1] == '/' && !Contains(base, "/b/")
    requires id != [] && NoneIn(id, {'/'})
    ensures "b" !in front && Segments(base + "b/" + id) == front + ["b", id]
  {
    var u := base[..|base| - 1];
    assert base + "b/" + id == u + "/b/" + id by {
      assert base == u + "/";
    }
    LinkPieces(u, id);
    BaseHasNoBSegment(base);
    front := NonEmpty(Split(u, {'/'}));
    NonEmptyAppend(Split(u, {'/'}), ["b", id]);
    assert NonEmpty(["b", id]) == ["b", id] by {
      assert ["b", id][1..] == [id];
      assert [id][1..] == [];
    }
  }
}
