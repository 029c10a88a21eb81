/** api/ratings.js: every rated film of a user's ratings pages, read tile by
    tile with fallback chains for the title, the slug and the year. Ratings
    are in half stars. */
module Ratings {
  import opened Text
  import opened Net
  import opened Users
  import opened Links
  import opened Stars

  // ------------------------------------------------------------ one tile

  /** What the HTML parser finds in one `li` of a ratings page: the first
      value of each attribute the fallback chains read (None where no
      element carries it), the text of the first `.year,.metadata,small`
      element ("" when there is none), the candidate texts of
      extractStarsText and the text of the whole tile. */
  datatype Tile = Tile(
    filmName: Option<string>,
    imgAlt: Option<string>,
    filmSlug: Option<string>,
    filmHref: Option<string>,
    targetLink: Option<string>,
    filmLink: Option<string>,
    yearAttr: Option<string>,
    releaseYearAttr: Option<string>,
    metaText: string,
    candidates: seq<string>,
    text: string)

  /** An attribute value JavaScript treats as true: present and not "". */
  predicate Truthy(a: Option<string>) { a.Some? && a.value != "" }

  /** `a || b` on attribute values. */
  function Or(a: Option<string>, b: Option<string>): (r: Option<string>)
    ensures Truthy(a) ==> r == a
    ensures !Truthy(a) ==> r == b
  {
    if Truthy(a) then a else b
  }

  /** `(a || "")`. */
  function OrEmpty(a: Option<string>): (r: string)
    ensures Truthy(a) ==> r == a.value
    ensures !Truthy(a) ==> r == ""
  {
    if Truthy(a) then a.value else ""
  }

  /** The title: `data-film-name`, else the `alt` of an image, trimmed. */
  function TileTitle(t: Tile): string {
    Trim(OrEmpty(Or(t.filmName, t.imgAlt)))
  }

  /** The slug: `data-film-slug`; else the film segment of the first film
      link; else that of `data-target-link` or `data-film-link`; else null. */
  function TileSlug(t: Tile): (slug: Option<string>)
    ensures slug.Some? ==> slug.value != ""
  {
    var a := if Truthy(t.filmSlug) then t.filmSlug else None;
    var b := if a.None? then FilmSegment(OrEmpty(t.filmHref)) else a;
    if b.None? then FilmSegment(OrEmpty(Or(t.targetLink, t.filmLink))) else b
  }

  /** The slug chain in order: each source is used exactly when every
      earlier one gave nothing. */
  lemma TileSlugChain(t: Tile)
    ensures Truthy(t.filmSlug) ==> TileSlug(t) == t.filmSlug
    ensures !Truthy(t.filmSlug) && FilmSegment(OrEmpty(t.filmHref)).Some? ==>
              TileSlug(t) == FilmSegment(OrEmpty(t.filmHref))
    ensures !Truthy(t.filmSlug) && FilmSegment(OrEmpty(t.filmHref)).None? ==>
              TileSlug(t) == FilmSegment(OrEmpty(Or(t.targetLink, t.filmLink)))
    ensures TileSlug(t).None? ==>
              && !Truthy(t.filmSlug)
              && (forall i :: !FilmLinkAt(OrEmpty(t.filmHref), i))
              && (forall i :: !FilmLinkAt(OrEmpty(Or(t.targetLink, t.filmLink)), i))
  {
  }

  /** A tile without `data-film-slug` whose link is "/film/<seg>/..." gets
      `seg`. */
  lemma TileSlugOfLink(t: Tile, seg: string, rest: string)
    requires !Truthy(t.filmSlug) && t.filmHref == Some(FilmPath + seg + rest)
    requires seg != [] && forall j :: 0 <= j < |seg| ==> seg[j] != '/'
    requires rest == [] || rest[0] == '/'
    ensures TileSlug(t) == Some(seg)
  {
    FilmSegmentOfPath(seg, rest);
  }

  /** `/^\d{4}$/.test(s)`. */
  predicate FourDigits(s: string) { |s| == 4 && AllDigits(s) }

  /** `\b(19|20)\d{2}\b` can match at `i`. */
  predicate YearAt(s: string, i: nat) {
    && i + 4 <= |s|
    && (i == 0 || !IsWordChar(s[i - 1]))
    && ((s[i] == '1' && s[i + 1] == '9') || (s[i] == '2' && s[i + 1] == '0'))
    && IsDigit(s[i + 2]) && IsDigit(s[i + 3])
    && (i + 4 == |s| || !IsWordChar(s[i + 4]))
  }

  /** `+s.match(/\b(19|20)\d{2}\b/)[0]`, or None without a match. */
  function MetaYear(s: string): (y: Option<nat>)
    ensures y.Some? ==> 1900 <= y.value <= 2099
    ensures y.Some? <==> exists i :: YearAt(s, i)
  {
    match FirstMatch(s, 0, YearAt)
    case None => None
    case Some(i) =>
      var d := s[i..i + 4];
      assert d == [s[i], s[i + 1]] + s[i + 2..i + 4];
      YearDigitsValue(d);
      Some(DigitsValue(d))
  }

  /** A year written 19xx or 20xx reads as 1900 to 2099. */
  lemma YearDigitsValue(d: string)
    requires |d| == 4 && ((d[0] == '1' && d[1] == '9') || (d[0] == '2' && d[1] == '0'))
    requires IsDigit(d[2]) && IsDigit(d[3])
    ensures 1900 <= DigitsValue(d) <= 2099
  {
    DigitsValueOf4(d);
  }

  /** `+slug.match(/-(\d{4})$/)[1]`, or None without a match. */
  function SlugYear(slug: string): (y: Option<nat>)
    ensures y.Some? <==> |slug| >= 5 && slug[|slug| - 5] == '-' && FourDigits(slug[|slug| - 4..])
    ensures y.Some? ==> y.value <= 9999
  {
    if |slug| >= 5 && slug[|slug| - 5] == '-' && FourDigits(slug[|slug| - 4..]) then
      DigitsValueOf4(slug[|slug| - 4..]);
      Some(DigitsValue(slug[|slug| - 4..]))
    else None
  }

  /** A year JavaScript treats as false: null or 0. */
  predicate NoYear(y: Option<nat>) { y.None? || y.value == 0 }

  /** The year: a four-digit `data-film-year` (else `data-film-release-year`);
      if that gives no year or 0, the first 19xx or 20xx of the metadata
      text; if still none, the trailing "-YYYY" of the slug. */
  function TileYear(t: Tile, slug: Option<string>): Option<nat> {
    var yAttr := Or(t.yearAttr, t.releaseYearAttr);
    var y1 := if Truthy(yAttr) && FourDigits(yAttr.value) then Some(DigitsValue(yAttr.value)) else None;
    var m := MetaYear(t.metaText);
    var y2 := if NoYear(y1) && m.Some? then m else y1;
    var s := if slug.Some? then SlugYear(slug.value) else None;
    if NoYear(y2) && slug.Some? && s.Some? then s else y2
  }

  /** The year chain in order, a year of 0 counting as none. */
  lemma TileYearChain(t: Tile, slug: Option<string>)
    ensures var yAttr := Or(t.yearAttr, t.releaseYearAttr);
            Truthy(yAttr) && FourDigits(yAttr.value) && DigitsValue(yAttr.value) != 0 ==>
              TileYear(t, slug) == Some(DigitsValue(yAttr.value))
    ensures var yAttr := Or(t.yearAttr, t.releaseYearAttr);
            !(Truthy(yAttr) && FourDigits(yAttr.value) && DigitsValue(yAttr.value) != 0) && MetaYear(t.metaText).Some? ==>
              TileYear(t, slug) == MetaYear(t.metaText)
    ensures var yAttr := Or(t.yearAttr, t.releaseYearAttr);
            !(Truthy(yAttr) && FourDigits(yAttr.value) && DigitsValue(yAttr.value) != 0) && MetaYear(t.metaText).None?
            && slug.Some? && SlugYear(slug.value).Some? ==>
              TileYear(t, slug) == SlugYear(slug.value)
    ensures TileYear(t, slug).Some? ==> TileYear(t, slug).value <= 9999
  {
    var yAttr := Or(t.yearAttr, t.releaseYearAttr);
    if Truthy(yAttr) && FourDigits(yAttr.value) {
      DigitsValueOf4(yAttr.value);
    }
  }

  /** A slug such as "weapons-2025" gives its year when the tile names none. */
  lemma TileYearOfSlug(t: Tile, name: string, digits: string)
    requires !Truthy(t.yearAttr) && !Truthy(t.releaseYearAttr) && MetaYear(t.metaText).None?
    requires FourDigits(digits)
    ensures TileYear(t, Some(name + "-" + digits)) == Some(DigitsValue(digits))
  {
    var slug := name + "-" + digits;
    assert slug[|slug| - 5] == '-' && slug[|slug| - 4..] == digits;
    assert SlugYear(slug) == Some(DigitsValue(digits));
    assert !Truthy(Or(t.yearAttr, t.releaseYearAttr));
  }

  /** `{ title, starsText, rating, slug, url, year }`. */
  datatype Item = Item(title: string, starsText: string, rating: nat, slug: Option<string>,
                       url: Option<string>, year: Option<nat>)

  /** The canonical film page of a slug. */
  function FilmUrl(slug: string): string {
    "https://letterboxd.com/film/" + slug + "/"
  }

  /** The item one tile gives: none when its title is empty or no rating can
      be read from it. */
  function TileItem(t: Tile): (it: Option<Item>)
    ensures it.Some? ==>
              && it.value.title == TileTitle(t) && it.value.title != ""
              && it.value.starsText == ExtractStarsText(t.candidates, t.text)
              && Some(it.value.rating) == StarsToHalves(it.value.starsText)
              && it.value.slug == TileSlug(t)
              && it.value.year == TileYear(t, TileSlug(t))
              && (it.value.url.Some? <==> it.value.slug.Some?)
              && (it.value.url.Some? ==> it.value.url.value == FilmUrl(it.value.slug.value))
    ensures it.None? <==> TileTitle(t) == "" || !HasStarGlyph(ExtractStarsText(t.candidates, t.text))
  {
    var title := TileTitle(t);
    var starsText := ExtractStarsText(t.candidates, t.text);
    StarsToHalvesDefined(starsText);
    if title == "" then None
    else
      var slug := TileSlug(t);
      var year := TileYear(t, slug);
      match StarsToHalves(starsText)
      case None => None
      case Some(rating) =>
        var url := if slug.Some? then Some(FilmUrl(slug.value)) else None;
        Some(Item(title, starsText, rating, slug, url, year))
  }

  // ------------------------------------------------------------ one page

  function TileItems(tiles: seq<Tile>): (its: seq<Option<Item>>)
    ensures |its| == |tiles| && forall i :: 0 <= i < |tiles| ==> its[i] == TileItem(tiles[i])
  {
    seq(|tiles|, i requires 0 <= i < |tiles| => TileItem(tiles[i]))
  }

  /** parsePage: the items of the tiles, in document order. */
  function PageItems(tiles: seq<Tile>): (items: seq<Item>)
    ensures |items| <= |tiles|
  {
    Somes(TileItems(tiles))
  }

  /** An item is on the page exactly when some tile gives it. */
  lemma PageItemsFromTiles(tiles: seq<Tile>, it: Item)
    ensures it in PageItems(tiles) <==> exists i :: 0 <= i < |tiles| && TileItem(tiles[i]) == Some(it)
  {
    SomesOfMap(tiles, TileItems(tiles), TileItem, it);
  }

  /** The `$("li").each` loop of parsePage. */
  method ParsePage(tiles: seq<Tile>) returns (items: seq<Item>)
    ensures items == PageItems(tiles)
  {
    ghost var its := TileItems(tiles);
    items := [];
    for i := 0 to |tiles|
      invariant items == Somes(its[..i])
    {
      assert its[..i + 1][..i] == its[..i];
      var it := TileItem(tiles[i]);
      if it.None? {
        continue;
      }
      items := items + [it.value];
    }
    assert its[..|tiles|] == its;
  }

  // ------------------------------------------------------------ the scan

  /** fetchPage's URL; the user name goes in as it is. */
  function RatingsUrl(user: string, page: nat): string {
    var base := "https://letterboxd.com/" + user + "/films/ratings/";
    if page > 1 then base + "page/" + NatToString(page) + "/" else base
  }

  function RatingsPages(user: string): nat -> string {
    (page: nat) => RatingsUrl(user, page)
  }

  /** The requests for the `k` pages from `page` on. */
  function Urls(url: nat -> string, page: nat, k: nat): (r: seq<string>)
    ensures |r| == k && forall j :: 0 <= j < k ==> r[j] == url(page + j)
  {
    seq(k, j requires 0 <= j < k => url(page + j))
  }

  /** How the page loop ends: with the items and `page - 1`, with the
      failed status of page 1, or with a rejected fetch. */
  datatype Scan<D, T> = Done(items: seq<T>, pagesScanned: nat, net: Net<D>)
                      | FirstPageFailed(status: int, url: string, net: Net<D>)
                      | Thrown(net: Net<D>)

  /** The handler's page loop from `page` on, `all` the items collected so
      far, `limit` the `maxPages` bound; `url` gives fetchPage's request and
      `read` the items of a page. */
  function ScanPages<D, T>(net: Net<D>, url: nat -> string, read: D -> seq<T>, page: nat, limit: int, all: seq<T>): Scan<D, T>
    requires page >= 1
    decreases if limit + 1 - page > 0 then limit + 1 - page else 0
  {
    if page > limit then Done(all, page - 1, net)
    else
      var after := net.After(url(page));
      match net.Next()
      case None => Thrown(after)
      case Some(r) =>
        if !r.ok then
          if page == 1 then FirstPageFailed(r.status, url(page), after) else Done(all, page - 1, after)
        else
          var items := read(r.doc);
          if items == [] then Done(all, page - 1, after)
          else ScanPages(after, url, read, page + 1, limit, all + items)
  }

  /** The items of the `k` responses from `first` on, concatenated. */
  function ScriptItems<D, T>(script: seq<Response<D>>, read: D -> seq<T>, first: nat, k: nat): seq<T>
    requires k == 0 || first + k <= |script|
    decreases k
  {
    if k == 0 then [] else read(script[first].doc) + ScriptItems(script, read, first + 1, k - 1)
  }

  /** A page that contributes: served ok and holding at least one item. */
  predicate Contributes<D, T>(r: Response<D>, read: D -> seq<T>) { r.ok && read(r.doc) != [] }

  /** Number of requests of the scan from `page` on. */
  function ScanRequests<D, T>(net: Net<D>, url: nat -> string, read: D -> seq<T>, page: nat, limit: int, all: seq<T>): int
    requires page >= 1
  {
    |ScanPages(net, url, read, page, limit, all).net.log| - |net.log|
  }

  /** The loop asks for the pages in order from `page` on, once each, and
      for none past `maxPages`. */
  lemma {:induction false} ScanRequestsInOrder<D, T>(net: Net<D>, url: nat -> string, read: D -> seq<T>,
                                                    page: nat, limit: int, all: seq<T>)
    requires page >= 1
    ensures var s := ScanPages(net, url, read, page, limit, all);
            var k := ScanRequests(net, url, read, page, limit, all);
            && 0 <= k && (page + k - 1 <= limit || k == 0)
            && s.net.script == net.script
            && s.net.log == net.log + Urls(url, page, k)
    decreases if limit + 1 - page > 0 then limit + 1 - page else 0
  {
    if page <= limit {
      var after := net.After(url(page));
      var r := net.Next();
      if r.Some? && r.value.ok && read(r.value.doc) != [] {
        var all' := all + read(r.value.doc);
        ScanRequestsInOrder(after, url, read, page + 1, limit, all');
        var k' := ScanRequests(after, url, read, page + 1, limit, all');
        assert ScanRequests(net, url, read, page, limit, all) == k' + 1;
        assert net.log + Urls(url, page, k' + 1) == after.log + Urls(url, page + 1, k');
      } else {
        assert Urls(url, page, 1) == [url(page)];
      }
    }
  }

  /** A finished scan returns the plain concatenation, with nothing
      removed, of the items of the pages that contributed, and
      `pagesScanned` counts exactly those pages. */
  lemma {:induction false} ScanDone<D, T>(net: Net<D>, url: nat -> string, read: D -> seq<T>,
                                         page: nat, limit: int, all: seq<T>)
    requires page >= 1
    requires ScanPages(net, url, read, page, limit, all).Done?
    ensures var s := ScanPages(net, url, read, page, limit, all);
            var first := |net.log|;
            var k := s.pagesScanned - (page - 1);
            && page - 1 <= s.pagesScanned && (s.pagesScanned <= limit || s.pagesScanned == page - 1)
            && (k == 0 || first + k <= |net.script|)
            && (forall j :: first <= j < first + k ==> j < |net.script| && Contributes(net.script[j], read))
            && s.items == all + ScriptItems(net.script, read, first, k)
    decreases if limit + 1 - page > 0 then limit + 1 - page else 0
  {
    var first := |net.log|;
    if page <= limit && first < |net.script| && Contributes(net.script[first], read) {
      var r := net.script[first];
      var after := net.After(url(page));
      assert net.Next() == Some(r);
      var all' := all + read(r.doc);
      ScanDone(after, url, read, page + 1, limit, all');
      var k' := ScanPages(after, url, read, page + 1, limit, all').pagesScanned - page;
      assert ScriptItems(net.script, read, first, k' + 1) == read(r.doc) + ScriptItems(net.script, read, first + 1, k');
      assert all' + ScriptItems(net.script, read, first + 1, k') == all + ScriptItems(net.script, read, first, k' + 1);
    } else {
      assert ScanPages(net, url, read, page, limit, all).pagesScanned == page - 1;
      assert all + ScriptItems(net.script, read, first, 0) == all;
    }
  }

  /** Why a finished scan stopped: `maxPages` was passed, or the next page
      came back not ok (a page after the first) or without items. */
  lemma {:induction false} ScanDoneStop<D, T>(net: Net<D>, url: nat -> string, read: D -> seq<T>,
                                             page: nat, limit: int, all: seq<T>)
    requires page >= 1
    requires ScanPages(net, url, read, page, limit, all).Done?
    ensures var s := ScanPages(net, url, read, page, limit, all);
            var first := |net.log|;
            var k := s.pagesScanned - (page - 1);
            var n := ScanRequests(net, url, read, page, limit, all);
            || (s.pagesScanned >= limit && n == k)
            || (0 <= k && first + k < |net.script| && n == k + 1 && !Contributes(net.script[first + k], read)
                && (s.pagesScanned >= 1 || net.script[first + k].ok))
    decreases if limit + 1 - page > 0 then limit + 1 - page else 0
  {
    var first := |net.log|;
    if page <= limit && first < |net.script| && Contributes(net.script[first], read) {
      var r := net.script[first];
      var after := net.After(url(page));
      assert net.Next() == Some(r);
      ScanDoneStop(after, url, read, page + 1, limit, all + read(r.doc));
    }
  }

  /** Only page 1 answers with its upstream status, after one request for
      it that came back not ok. */
  lemma {:induction false} ScanFirstPageFailed<D, T>(net: Net<D>, url: nat -> string, read: D -> seq<T>,
                                                    page: nat, limit: int, all: seq<T>)
    requires page >= 1
    requires ScanPages(net, url, read, page, limit, all).FirstPageFailed?
    ensures var s := ScanPages(net, url, read, page, limit, all);
            && page == 1 && |net.log| < |net.script|
            && !net.script[|net.log|].ok && s.status == net.script[|net.log|].status
            && s.url == url(1) && s.net.log == net.log + [url(1)]
    decreases if limit + 1 - page > 0 then limit + 1 - page else 0
  {
    if page <= limit {
      var r := net.Next();
      if r.Some? && r.value.ok && read(r.value.doc) != [] {
        ScanFirstPageFailed(net.After(url(page)), url, read, page + 1, limit, all + read(r.value.doc));
        assert false;
      }
    }
  }

  // ------------------------------------------------------------ handler

  /** `Math.min(+(q || 50), 200)` as the bound of `page <= maxPages`: a NaN
      bound lets no page through, as -1 does. */
  function PageLimit(q: Option<string>): (limit: int)
    ensures limit <= 200
    ensures q.None? || q == Some("") ==> limit == 50
  {
    var v := if q.None? || q.value == "" then Some(50) else ToNumber(q.value);
    match v
    case None => -1
    case Some(x) => if x < 200 then x else 200
  }

  /** The replies: 400, the upstream status of page 1, 500, or 200. */
  datatype Reply = BadRequest(error: string)
                 | Upstream(status: int, error: string)
                 | Failure(error: string)
                 | Listing(user: string, count: nat, pagesScanned: nat, items: seq<Item>)

  /** The handler for the query parameters `user` and `maxPages`. */
  function RatingsReply(user: Option<string>, maxPages: Option<string>, net: Net<seq<Tile>>): Reply {
    match NormUser(user)
    case None => BadRequest("Provide ?user=<letterboxd username>")
    case Some(u) =>
      match ScanPages(net, RatingsPages(u), PageItems, 1, PageLimit(maxPages), [])
      case Thrown(_) => Failure(ErrorMessage(NetworkError, ""))
      case FirstPageFailed(status, url, _) => Upstream(status, "Fetch failed for " + url)
      case Done(items, pages, _) => Listing(u, |items|, pages, items)
  }

  /** The page loop of the handler. */
  method ScanRatings(net: Net<seq<Tile>>, user: string, limit: int) returns (s: Scan<seq<Tile>, Item>)
    ensures s == ScanPages(net, RatingsPages(user), PageItems, 1, limit, [])
  {
    var n := net;
    var all: seq<Item> := [];
    var page := 1;
    while page <= limit
      invariant page >= 1
      invariant ScanPages(n, RatingsPages(user), PageItems, page, limit, all)
                == ScanPages(net, RatingsPages(user), PageItems, 1, limit, [])
      decreases limit + 1 - page
    {
      var url := RatingsUrl(user, page);
      var r := n.Next();
      n := n.After(url);
      if r.None? {
        return Thrown(n);
      }
      if !r.value.ok {
        if page == 1 {
          return FirstPageFailed(r.value.status, url, n);
        }
        return Done(all, page - 1, n);
      }
      var items := ParsePage(r.value.doc);
      if items == [] {
        return Done(all, page - 1, n);
      }
      all := all + items;
      page := page + 1;
    }
    return Done(all, page - 1, n);
  }

  method Handler(user: Option<string>, maxPages: Option<string>, net: Net<seq<Tile>>) returns (reply: Reply)
    ensures reply == RatingsReply(user, maxPages, net)
  {
    var u := NormUser(user);
    if u.None? {
      return BadRequest("Provide ?user=<letterboxd username>");
    }
    var s := ScanRatings(net, u.value, PageLimit(maxPages));
    match s
    case Thrown(_) => reply := Failure(ErrorMessage(NetworkError, ""));
    case FirstPageFailed(status, url, _) => reply := Upstream(status, "Fetch failed for " + url);
    case Done(items, pages, _) => reply := Listing(u.value, |items|, pages, items);
  }

  /** With no usable bound (0, a negative number, NaN) nothing is fetched and
      no page is scanned. */
  lemma NoPagesBelowOne(user: Option<string>, maxPages: Option<string>, net: Net<seq<Tile>>)
    requires NormUser(user).Some? && PageLimit(maxPages) < 1
    ensures RatingsReply(user, maxPages, net) == Listing(NormUser(user).value, 0, 0, [])
  {
  }

  /** A listing counts its items, and holds exactly the items of the pages
      it scanned, at most 200 of them. */
  lemma ListingCounts(user: Option<string>, maxPages: Option<string>, net: Net<seq<Tile>>)
    ensures var r := RatingsReply(user, maxPages, net);
            r.Listing? ==>
              && r.count == |r.items|
              && r.pagesScanned <= 200
              && (r.pagesScanned == 0 || |net.log| + r.pagesScanned <= |net.script|)
              && r.items == ScriptItems(net.script, PageItems, |net.log|, r.pagesScanned)
  {
    var r := RatingsReply(user, maxPages, net);
    if r.Listing? {
      var u := NormUser(user).value;
      var limit := PageLimit(maxPages);
      ScanDone(net, RatingsPages(u), PageItems, 1, limit, []);
      ScanRequestsInOrder(net, RatingsPages(u), PageItems, 1, limit, []);
      assert [] + ScriptItems(net.script, PageItems, |net.log|, r.pagesScanned)
             == ScriptItems(net.script, PageItems, |net.log|, r.pagesScanned);
    }
  }

  /** The handler's requests: pages 1, 2, ... of the user's ratings in
      order (RatingsUrl: page 1 at the bare ratings URL, page N > 1 at its
      "page/N/"), never more than 200 of them. */
  lemma RatingsRequests(net: Net<seq<Tile>>, user: string, maxPages: Option<string>)
    ensures var s := ScanPages(net, RatingsPages(user), PageItems, 1, PageLimit(maxPages), []);
            var k := |s.net.log| - |net.log|;
            && 0 <= k <= 200
            && s.net.log == net.log + s.net.log[|net.log|..]
            && forall j :: 1 <= j <= k ==> s.net.log[|net.log| + j - 1] == RatingsUrl(user, j)
  {
    var limit := PageLimit(maxPages);
    var s := ScanPages(net, RatingsPages(user), PageItems, 1, limit, []);
    ScanRequestsInOrder(net, RatingsPages(user), PageItems, 1, limit, []);
    var k := |s.net.log| - |net.log|;
    var us := Urls(RatingsPages(user), 1, k);
    assert s.net.log[|net.log|..] == us;
    forall j | 1 <= j <= k
      ensures s.net.log[|net.log| + j - 1] == RatingsUrl(user, j)
    {
      assert us[j - 1] == RatingsUrl(user, j);
    }
  }

  /** 400 exactly for a user normUser refuses; a listing is for the
      normalised user; an upstream status is that of a refused first page. */
  lemma RatingsReplyCases(user: Option<string>, maxPages: Option<string>, net: Net<seq<Tile>>)
    ensures var r := RatingsReply(user, maxPages, net);
            && (r.BadRequest? <==> NormUser(user).None?)
            && (r.Listing? ==> NormUser(user) == Some(r.user))
            && (r.Upstream? ==> |net.log| < |net.script| && !net.script[|net.log|].ok
                                && r.status == net.script[|net.log|].status)
  {
    var r := RatingsReply(user, maxPages, net);
    if r.Upstream? {
      var u := NormUser(user).value;
      ScanFirstPageFailed(net, RatingsPages(u), PageItems, 1, PageLimit(maxPages), []);
    }
  }
}
