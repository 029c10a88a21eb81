/** The film segment of a Letterboxd link: the capture of `/\/film\/([^/]+)/`
    used by api/watchtime.js for its rewatch keys and by api/ratings.js for a
    film's slug. */
module Links {
  import opened Text

  const FilmPath := "/film/"

  predicate NotSlash(c: char) { c != '/' }

  /** The regex can match at `i`: "/film/" followed by a character other
      than '/'. */
  predicate FilmLinkAt(s: string, i: nat) {
    i + 6 < |s| && s[i..i + 6] == FilmPath && s[i + 6] != '/'
  }

  /** The capture of a match at `i`: every character up to the next '/'. */
  function SegmentAt(s: string, i: nat): (seg: string)
    requires FilmLinkAt(s, i)
    ensures seg != [] && forall j :: 0 <= j < |seg| ==> seg[j] != '/'
    ensures i + 6 + |seg| <= |s| && seg == s[i + 6..i + 6 + |seg|]
    ensures i + 6 + |seg| == |s| || s[i + 6 + |seg|] == '/'
  {
    s[i + 6..i + 6 + RunFrom(s, i + 6, NotSlash)]
  }

  /** `s.match(/\/film\/([^/]+)/)`, the capture of the leftmost match. */
  function FilmSegment(s: string): (r: Option<string>)
    ensures r.Some? <==> exists i :: FilmLinkAt(s, i)
    ensures r.Some? ==> exists i :: FilmLinkAt(s, i) && r.value == SegmentAt(s, i)
  {
    match FirstMatch(s, 0, FilmLinkAt)
    case None => None
    case Some(i) => Some(SegmentAt(s, i))
  }

  /** The leftmost match decides the segment. */
  lemma FilmSegmentLeftmost(s: string, i: nat)
    requires FilmLinkAt(s, i) && forall j :: 0 <= j < i ==> !FilmLinkAt(s, j)
    ensures FilmSegment(s) == Some(SegmentAt(s, i))
  {
    var r := FirstMatch(s, 0, FilmLinkAt);
    assert r.Some?;
  }

  /** A link that starts "/film/<seg>", the segment running to a '/' or to
      the end, gives `seg`. */
  lemma FilmSegmentOfPath(seg: string, rest: string)
    requires seg != [] && forall j :: 0 <= j < |seg| ==> seg[j] != '/'
    requires rest == [] || rest[0] == '/'
    ensures FilmSegment(FilmPath + seg + rest) == Some(seg)
  {
    var s := FilmPath + seg + rest;
    assert s[..6] == FilmPath;
    assert s[6] == seg[0];
    assert FilmLinkAt(s, 0);
    FilmSegmentLeftmost(s, 0);
    var t := SegmentAt(s, 0);
    assert s[6..6 + |seg|] == seg;
  }
}
