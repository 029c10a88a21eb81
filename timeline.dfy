/** api/ratings-timeline.js: a user's diary ratings in date order, and the
    cumulative histogram of those ratings after each entry, one frame per
    entry, for an animated rating curve. Ratings are in half stars, so the
    bins 0.5, 1.0, ..., 5.0 are 1 to 10. */
module Timeline {
  import opened Text
  import opened Net
  import opened Users
  import opened Stars

  /** getHTML's default number of retries. */
  const Retries := 3

  /** DEFAULT_MAX_PAGES, also the largest `maxPages` accepted. */
  const DefaultMaxPages := 80

  // ------------------------------------------------------------ diary rows

  /** A diary row as the HTML parser finds it: the `datetime` attribute of
      its first `time[datetime]` element, the texts of the first element that
      each rating selector of extractStarsText finds ("" where none), and the
      text of the whole row. */
  datatype Row = Row(datetime: Option<string>, candidates: seq<string>, text: string)

  /** `{ dateTime, rating }`, the rating in half stars. */
  datatype Entry = Entry(dateTime: string, rating: nat)

  /** The entry a row makes: none when its date is missing or blank, or when
      no rating can be read from it. */
  function RowEntry(r: Row): (e: Option<Entry>)
    ensures Trim(r.datetime.GetOr("")) == "" ==> e.None?
    ensures e.Some? ==> e.value.dateTime == Trim(r.datetime.GetOr("")) && e.value.dateTime != ""
    ensures e.Some? ==> e.value.rating >= 1 && Some(e.value.rating) == StarsToHalves(ExtractStarsText(r.candidates, r.text))
    ensures e.None? && Trim(r.datetime.GetOr("")) != "" ==> !HasStarGlyph(ExtractStarsText(r.candidates, r.text))
  {
    var dt := Trim(r.datetime.GetOr(""));
    var stars := ExtractStarsText(r.candidates, r.text);
    StarsToHalvesDefined(stars);
    if dt == "" then None
    else
      match StarsToHalves(stars)
      case None => None
      case Some(v) => Some(Entry(dt, v))
  }

  /** A dated row whose first rating element reads `n` stars and maybe a
      half gives that rating. */
  lemma RowEntryOfStars(dt: string, n: nat, half: bool, rest: seq<string>, text: string)
    requires Trim(dt) != "" && (n > 0 || half)
    ensures RowEntry(Row(Some(dt), [StarText(n, half)] + rest, text))
            == Some(Entry(Trim(dt), 2 * n + (if half then 1 else 0)))
  {
    var s := StarText(n, half);
    var cs := [s] + rest;
    StarTextValue(n, half);
    StarTextIsRun(n, half);
    assert cs[0] == s;
    ExtractStarsFromCandidate(cs, text, 0);
  }

  /** `n` stars and maybe a half make one run of glyphs, unchanged by
      trimming. */
  lemma StarTextIsRun(n: nat, half: bool)
    requires n > 0 || half
    ensures Trim(StarText(n, half)) == StarText(n, half)
    ensures HasStarGlyph(StarText(n, half)) && FirstGlyphRun(StarText(n, half)) == Some(StarText(n, half))
  {
    var s := StarText(n, half);
    assert forall i :: 0 <= i < |s| ==> IsStarGlyph(s[i]);
    AllGlyphsRun(s);
    AllGlyphsTrimmed(s);
  }

  lemma AllGlyphsRun(s: string)
    requires s != [] && forall i :: 0 <= i < |s| ==> IsStarGlyph(s[i])
    ensures HasStarGlyph(s) && FirstGlyphRun(s) == Some(s)
  {
    assert IsStarGlyph(s[0]);
    assert s[..GlyphRun(s)] == s;
  }

  lemma AllGlyphsTrimmed(s: string)
    requires s != [] && forall i :: 0 <= i < |s| ==> IsStarGlyph(s[i])
    ensures Trim(s) == s
  {
    assert IsStarGlyph(s[0]) && IsStarGlyph(s[|s| - 1]);
    TrimUnchanged(s);
  }

  /** The entry each row makes, row by row. */
  function RowEntries(rows: seq<Row>): (es: seq<Option<Entry>>)
    ensures |es| == |rows| && forall i :: 0 <= i < |rows| ==> es[i] == RowEntry(rows[i])
  {
    MapAll(rows, RowEntry)
  }

  /** parseDiaryPage: the entries of the rows that have a date and a rating,
      in document order. */
  function DiaryEntries(rows: seq<Row>): (es: seq<Entry>)
    ensures |es| <= |rows|
  {
    Somes(RowEntries(rows))
  }

  /** Parsing works row by row: the entries of two runs of rows are those of
      the first, then those of the second. */
  lemma DiaryEntriesAppend(a: seq<Row>, b: seq<Row>)
    ensures DiaryEntries(a + b) == DiaryEntries(a) + DiaryEntries(b)
  {
    MapAllAppend(a, b, RowEntry);
    SomesAppend(RowEntries(a), RowEntries(b));
  }

  /** An entry is kept exactly when some row makes it. */
  lemma DiaryEntriesFromRows(rows: seq<Row>, e: Entry)
    ensures e in DiaryEntries(rows) <==> exists i :: 0 <= i < |rows| && RowEntry(rows[i]) == Some(e)
  {
    SomesOfMap(rows, RowEntries(rows), RowEntry, e);
  }

  /** The `$(SEL_ENTRY).each` loop of parseDiaryPage. */
  method ParseDiaryPage(rows: seq<Row>) returns (entries: seq<Entry>)
    ensures entries == DiaryEntries(rows)
  {
    ghost var es := RowEntries(rows);
    entries := [];
    for i := 0 to |rows|
      invariant entries == Somes(es[..i])
    {
      SomesSnoc(es, i);
      assert es[i] == RowEntry(rows[i]);
      var dt := Trim(rows[i].datetime.GetOr(""));
      if dt == "" {
        assert es[i].None?;
        assert Somes(es[..i + 1]) == entries by { assert entries + [] == entries; }
        continue;
      }
      var rating := StarsToHalves(ExtractStarsText(rows[i].candidates, rows[i].text));
      if rating.None? {
        assert es[i].None?;
        assert Somes(es[..i + 1]) == entries by { assert entries + [] == entries; }
        continue;
      }
      assert es[i] == Some(Entry(dt, rating.value));
      assert Somes(es[..i + 1]) == entries + [Entry(dt, rating.value)];
      entries := entries + [Entry(dt, rating.value)];
    }
    assert es[..|rows|] == es;
  }

  // ------------------------------------------------------------ date order

  /** `a.dateTime.localeCompare(b.dateTime) <= 0`, taken as the order of the
      characters. */
  predicate DateLeq(a: Entry, b: Entry) { LexLeq(a.dateTime, b.dateTime) }

  predicate SortedByDate(s: seq<Entry>) {
    forall i, j :: 0 <= i < j < |s| ==> DateLeq(s[i], s[j])
  }

  /** Where `x` goes in `t`: after the last entry not later than it. */
  function InsertPos(t: seq<Entry>, x: Entry): (m: nat)
    ensures m <= |t|
    ensures forall j :: m <= j < |t| ==> !DateLeq(t[j], x)
    ensures m > 0 ==> DateLeq(t[m - 1], x)
  {
    if t == [] then 0
    else if DateLeq(t[|t| - 1], x) then |t|
    else InsertPos(t[..|t| - 1], x)
  }

  function Insert(t: seq<Entry>, x: Entry): seq<Entry> {
    var m := InsertPos(t, x);
    t[..m] + [x] + t[m..]
  }

  /** `all.sort(...)`: a stable sort by date, as an insertion sort. */
  function SortByDate(s: seq<Entry>): seq<Entry> {
    if s == [] then [] else Insert(SortByDate(s[..|s| - 1]), s[|s| - 1])
  }

  /** The entries of date `d`, in order. */
  function WithDate(s: seq<Entry>, d: string): seq<Entry> {
    if s == [] then [] else WithDate(s[..|s| - 1], d) + (if s[|s| - 1].dateTime == d then [s[|s| - 1]] else [])
  }

  lemma {:induction false} WithDateAppend(a: seq<Entry>, b: seq<Entry>, d: string)
    ensures WithDate(a + b, d) == WithDate(a, d) + WithDate(b, d)
    decreases |b|
  {
    if b == [] {
      assert a + b == a;
    } else {
      var b' := b[..|b| - 1];
      var x := b[|b| - 1];
      var tail := if x.dateTime == d then [x] else [];
      WithDateAppend(a, b', d);
      assert (a + b)[..|a + b| - 1] == a + b';
      assert (a + b)[|a + b| - 1] == x;
      assert WithDate(a + b, d) == (WithDate(a, d) + WithDate(b', d)) + tail;
      assert (WithDate(a, d) + WithDate(b', d)) + tail == WithDate(a, d) + (WithDate(b', d) + tail);
    }
  }

  /** Entries all later than `x` hold none of its date. */
  lemma {:induction false} WithDateLater(t: seq<Entry>, x: Entry)
    requires forall j :: 0 <= j < |t| ==> !DateLeq(t[j], x)
    ensures WithDate(t, x.dateTime) == []
    decreases |t|
  {
    if t != [] {
      LexLeqTotal(x.dateTime, x.dateTime);
      WithDateLater(t[..|t| - 1], x);
    }
  }

  lemma InsertSorted(t: seq<Entry>, x: Entry)
    requires SortedByDate(t)
    ensures SortedByDate(Insert(t, x))
  {
    var m := InsertPos(t, x);
    var r := Insert(t, x);
    assert |r| == |t| + 1;
    forall i, j | 0 <= i < j < |r| ensures DateLeq(r[i], r[j]) {
      if j < m {
        assert r[i] == t[i] && r[j] == t[j];
      } else if j == m {
        assert r[i] == t[i] && r[j] == x;
        if i < m - 1 { LexLeqTransitive(t[i].dateTime, t[m - 1].dateTime, x.dateTime); }
      } else if i < m {
        assert r[i] == t[i] && r[j] == t[j - 1];
      } else if i == m {
        assert r[i] == x && r[j] == t[j - 1];
        LexLeqTotal(x.dateTime, t[j - 1].dateTime);
      } else {
        assert r[i] == t[i - 1] && r[j] == t[j - 1];
      }
    }
  }

  /** The entries of date `d` in a one-entry sequence. */
  lemma WithDateSingle(x: Entry, d: string)
    ensures WithDate([x], d) == if x.dateTime == d then [x] else []
  {
    assert [x][..0] == [];
  }

  /** The entries of date `d` around an entry put between `a` and `b`. */
  lemma WithDateAround(a: seq<Entry>, x: Entry, b: seq<Entry>, d: string)
    ensures WithDate(a + [x] + b, d) == WithDate(a, d) + (if x.dateTime == d then [x] else []) + WithDate(b, d)
  {
    WithDateAppend(a + [x], b, d);
    WithDateAppend(a, [x], d);
    WithDateSingle(x, d);
  }

  /** An entry put before entries all later than it comes last among those
      of its date. */
  lemma WithDateBeforeLater(a: seq<Entry>, x: Entry, b: seq<Entry>, d: string)
    requires forall j :: 0 <= j < |b| ==> !DateLeq(b[j], x)
    ensures WithDate(a + [x] + b, d) == WithDate(a + b, d) + (if x.dateTime == d then [x] else [])
  {
    var tx := if x.dateTime == d then [x] else [];
    var wa, wb := WithDate(a, d), WithDate(b, d);
    WithDateAround(a, x, b, d);
    WithDateAppend(a, b, d);
    if x.dateTime == d {
      WithDateLater(b, x);
      assert wa + tx + [] == (wa + []) + tx;
    } else {
      assert wa + [] + wb == wa + wb;
    }
  }

  lemma InsertStable(t: seq<Entry>, x: Entry, d: string)
    ensures WithDate(Insert(t, x), d) == WithDate(t, d) + (if x.dateTime == d then [x] else [])
  {
    var m := InsertPos(t, x);
    assert t == t[..m] + t[m..];
    WithDateBeforeLater(t[..m], x, t[m..], d);
  }

  lemma InsertPermutes(t: seq<Entry>, x: Entry)
    ensures multiset(Insert(t, x)) == multiset(t) + multiset{x}
  {
    var m := InsertPos(t, x);
    assert t == t[..m] + t[m..];
    assert multiset(t[..m] + [x] + t[m..]) == multiset(t[..m]) + multiset{x} + multiset(t[m..]);
  }

  /** The sort orders the entries by date. */
  lemma {:induction false} SortByDateSorted(s: seq<Entry>)
    ensures SortedByDate(SortByDate(s))
    decreases |s|
  {
    if s != [] {
      SortByDateSorted(s[..|s| - 1]);
      InsertSorted(SortByDate(s[..|s| - 1]), s[|s| - 1]);
    }
  }

  /** The sort keeps every entry, as often as it occurs. */
  lemma {:induction false} SortByDatePermutes(s: seq<Entry>)
    ensures multiset(SortByDate(s)) == multiset(s)
    decreases |s|
  {
    if s != [] {
      var init := s[..|s| - 1];
      var t := SortByDate(init);
      var x := s[|s| - 1];
      SortByDatePermutes(init);
      InsertPermutes(t, x);
      assert s == init + [x];
      calc {
        multiset(SortByDate(s));
        multiset(Insert(t, x));
        multiset(t) + multiset{x};
        multiset(init) + multiset([x]);
        multiset(s);
      }
    }
  }

  /** The sort is stable: the entries of one date keep their order. */
  lemma {:induction false} SortByDateStable(s: seq<Entry>, d: string)
    ensures WithDate(SortByDate(s), d) == WithDate(s, d)
    decreases |s|
  {
    if s != [] {
      var init := s[..|s| - 1];
      SortByDateStable(init, d);
      InsertStable(SortByDate(init), s[|s| - 1], d);
    }
  }

  // ------------------------------------------------------------ the crawl

  /** The request for diary page `page`: the diary itself for page 1. */
  function DiaryUrl(user: string, encode: string -> string, page: nat): string {
    var base := "https://letterboxd.com/" + encode(user) + "/films/diary/";
    if page == 1 then base else base + "page/" + NatToString(page) + "/"
  }

  function DatedPageUrl(user: string, encode: string -> string): nat -> string {
    (page: nat) => DiaryUrl(user, encode, page)
  }

  /** collectDatedRatings(user, maxPages): the entries of pages 1 to
      `maxPages` read through getHTML until a page has none, then sorted by
      date. */
  function DatedRatings(net: Net<seq<Row>>, user: string, maxPages: nat, encode: string -> string): Paged<seq<Row>, Entry> {
    var p := Paginate(net, DatedPageUrl(user, encode), DiaryEntries, Retries, BlockPhrases, 1, maxPages, []);
    if p.result.Ok? then Paged(Ok(SortByDate(p.result.value)), p.net) else p
  }

  /** The page loop of collectDatedRatings. */
  method ReadDiaryPages(net: Net<seq<Row>>, user: string, maxPages: nat, encode: string -> string)
    returns (c: Paged<seq<Row>, Entry>)
    ensures c == Paginate(net, DatedPageUrl(user, encode), DiaryEntries, Retries, BlockPhrases, 1, maxPages, [])
  {
    ghost var url := DatedPageUrl(user, encode);
    var n := net;
    var all: seq<Entry> := [];
    var page := 1;
    while page <= maxPages
      invariant 1 <= page
      invariant Paginate(n, url, DiaryEntries, Retries, BlockPhrases, page, maxPages, all)
                == Paginate(net, url, DiaryEntries, Retries, BlockPhrases, 1, maxPages, [])
      decreases maxPages + 1 - page
    {
      var u := DiaryUrl(user, encode, page);
      var f := GetHtml(n, u, Retries, BlockPhrases);
      if f.result.Err? {
        return Paged(Err(ErrorMessage(f.result.error, u)), f.net);
      }
      var rows := ParseDiaryPage(f.result.value.doc);
      n := f.net;
      if rows == [] {
        return Paged(Ok(all), n);
      }
      all := all + rows;
      page := page + 1;
    }
    return Paged(Ok(all), n);
  }

  method CollectDatedRatings(net: Net<seq<Row>>, user: string, maxPages: nat, encode: string -> string)
    returns (c: Paged<seq<Row>, Entry>)
    ensures c == DatedRatings(net, user, maxPages, encode)
  {
    c := ReadDiaryPages(net, user, maxPages, encode);
    if c.result.Ok? {
      c := Paged(Ok(SortByDate(c.result.value)), c.net);
    }
  }

  /** The collected entries come out in date order, every one of them, the
      entries of one date in the order they were read. */
  lemma DatedRatingsOrdered(net: Net<seq<Row>>, user: string, maxPages: nat, encode: string -> string)
    ensures var p := Paginate(net, DatedPageUrl(user, encode), DiaryEntries, Retries, BlockPhrases, 1, maxPages, []);
            var c := DatedRatings(net, user, maxPages, encode);
            p.result.Ok? ==>
              && SortedByDate(c.result.value)
              && multiset(c.result.value) == multiset(p.result.value)
              && forall d :: WithDate(c.result.value, d) == WithDate(p.result.value, d)
  {
    var p := Paginate(net, DatedPageUrl(user, encode), DiaryEntries, Retries, BlockPhrases, 1, maxPages, []);
    if p.result.Ok? {
      SortByDateSorted(p.result.value);
      SortByDatePermutes(p.result.value);
      forall d ensures WithDate(SortByDate(p.result.value), d) == WithDate(p.result.value, d) {
        SortByDateStable(p.result.value, d);
      }
    }
  }

  /** collectDatedRatings reads diary pages 1, 2, ... in order, each by
      getHTML on what the page before left; it goes on only after a page
      with entries, and stops after a page without any or after page
      `maxPages`. Its result is the sorted concatenation of the entries of
      every page read. */
  lemma DatedRatingsRead(net: Net<seq<Row>>, user: string, maxPages: nat, encode: string -> string)
    ensures var url := DatedPageUrl(user, encode);
            var c := DatedRatings(net, user, maxPages, encode);
            var fs := Pages(net, url, DiaryEntries, Retries, BlockPhrases, 1, maxPages);
            var ks := TriesOf(net, fs);
            && |fs| <= maxPages && (1 <= maxPages ==> 1 <= |fs|)
            && Chained(net, fs, url, 1, Retries, BlockPhrases)
            && c.net.log == net.log + Runs(url, 1, ks)
            && (forall i :: 0 <= i < |ks| ==> 1 <= ks[i] <= Retries + 1)
            && (forall i :: 0 <= i < |fs| - 1 ==> Full(fs[i], DiaryEntries))
            && (c.result.Ok? ==> forall i :: 0 <= i < |fs| ==> fs[i].result.Ok?)
            && (c.result.Ok? ==> c.result.value == SortByDate(ItemsOf(fs, DiaryEntries)))
            && (c.result.Ok? && fs != [] ==>
                  |fs| == maxPages || DiaryEntries(fs[|fs| - 1].result.value.doc) == [])
  {
    var url := DatedPageUrl(user, encode);
    PaginatePages(net, url, DiaryEntries, Retries, BlockPhrases, 1, maxPages);
    PaginateOutcome(net, url, DiaryEntries, Retries, BlockPhrases, 1, maxPages, []);
    PaginateRequests(net, url, DiaryEntries, Retries, BlockPhrases, 1, maxPages, []);
    assert [] + ItemsOf(Pages(net, url, DiaryEntries, Retries, BlockPhrases, 1, maxPages), DiaryEntries)
        == ItemsOf(Pages(net, url, DiaryEntries, Retries, BlockPhrases, 1, maxPages), DiaryEntries);
  }

  // ------------------------------------------------------------ histogram

  /** `r.toFixed(1)` for a rating of `r` half stars: "2.5" for 5, "3.0"
      for 6. */
  function HalfKey(r: nat): string {
    NatToString(r / 2) + "." + (if r % 2 == 1 then "5" else "0")
  }

  /** The ten bins 0.5, 1.0, ..., 5.0, in half stars. */
  function Bins(): (bs: seq<nat>)
    ensures |bs| == 10 && forall i :: 0 <= i < 10 ==> bs[i] == i + 1
  {
    seq(10, i => i + 1)
  }

  /** `bins.map((b) => b.toFixed(1))`. */
  function BinKeys(): (ks: seq<string>)
    ensures |ks| == 10 && forall i :: 0 <= i < 10 ==> ks[i] == HalfKey(i + 1)
  {
    seq(10, i requires 0 <= i < 10 => HalfKey(i + 1))
  }

  predicate IsBin(r: nat) { 1 <= r <= 10 }

  /** Different ratings have different keys. */
  lemma HalfKeyInjective(a: nat, b: nat)
    requires HalfKey(a) == HalfKey(b)
    ensures a == b
  {
    var da, db := NatToString(a / 2), NatToString(b / 2);
    var k := HalfKey(a);
    assert |k| == |da| + 2 == |db| + 2;
    assert da == k[..|da|] && db == k[..|db|];
    NatToStringValue(a / 2);
    NatToStringValue(b / 2);
    assert a / 2 == b / 2;
    assert HalfKey(a)[|k| - 1] == HalfKey(b)[|k| - 1];
    assert a % 2 == b % 2;
  }

  /** `counts.hasOwnProperty(e.rating.toFixed(1))` holds exactly for the
      ratings 0.5 to 5.0. */
  lemma HalfKeyIsBin(r: nat)
    ensures HalfKey(r) in BinKeys() <==> IsBin(r)
  {
    if IsBin(r) {
      assert BinKeys()[r - 1] == HalfKey(r);
    }
    if HalfKey(r) in BinKeys() {
      var i :| 0 <= i < 10 && BinKeys()[i] == HalfKey(r);
      HalfKeyInjective(i + 1, r);
    }
  }

  /** How many of `es` are rated `r`. */
  function Tally(es: seq<Entry>, r: nat): nat {
    if es == [] then 0 else Tally(es[..|es| - 1], r) + (if es[|es| - 1].rating == r then 1 else 0)
  }

  /** The count of each bin over `es`. */
  function BinCounts(es: seq<Entry>): (c: seq<nat>)
    ensures |c| == 10
  {
    seq(10, i requires 0 <= i < 10 => Tally(es, i + 1))
  }

  /** A frame of the animation: an entry and the bin counts up to it. */
  datatype Frame = Frame(dateTime: string, rating: nat, counts: seq<nat>)

  /** The frames the loop of buildHistogramFrames pushes: one per entry
      rated 0.5 to 5.0, with the counts of every entry up to it. */
  function Frames(es: seq<Entry>): (fs: seq<Frame>)
    ensures forall k :: 0 <= k < |fs| ==> |fs[k].counts| == 10
  {
    if es == [] then []
    else
      var e := es[|es| - 1];
      Frames(es[..|es| - 1]) + (if IsBin(e.rating) then [Frame(e.dateTime, e.rating, BinCounts(es))] else [])
  }

  /** The entries that are rated 0.5 to 5.0, in order. */
  function BinEntries(es: seq<Entry>): seq<Entry> {
    if es == [] then []
    else
      var e := es[|es| - 1];
      BinEntries(es[..|es| - 1]) + (if IsBin(e.rating) then [e] else [])
  }

  function Sum(s: seq<nat>): nat {
    if s == [] then 0 else s[0] + Sum(s[1..])
  }

  /** One more entry adds one to its own bin and nothing to the others. */
  lemma BinCountsStep(es: seq<Entry>, e: Entry)
    ensures forall i :: 0 <= i < 10 ==> BinCounts(es + [e])[i] == BinCounts(es)[i] + (if i + 1 == e.rating then 1 else 0)
  {
    assert (es + [e])[..|es|] == es;
  }

  lemma {:induction false} SumBump(s: seq<nat>, j: nat)
    requires j < |s|
    ensures Sum(s[j := s[j] + 1]) == Sum(s) + 1
    decreases |s|
  {
    if j > 0 {
      SumBump(s[1..], j - 1);
      assert s[j := s[j] + 1][1..] == s[1..][j - 1 := s[j] + 1];
    }
  }

  lemma {:induction false} SumZeros(n: nat)
    ensures Sum(seq(n, _ => 0)) == 0
    decreases n
  {
    if n > 0 {
      assert seq(n, _ => 0)[1..] == seq(n - 1, _ => 0);
      SumZeros(n - 1);
    }
  }

  /** After an entry the counts are those before it with its bin raised by
      one; an entry outside the bins leaves them as they were. */
  lemma BinCountsBump(es: seq<Entry>, e: Entry)
    ensures IsBin(e.rating) ==> BinCounts(es + [e]) == BinCounts(es)[e.rating - 1 := BinCounts(es)[e.rating - 1] + 1]
    ensures !IsBin(e.rating) ==> BinCounts(es + [e]) == BinCounts(es)
  {
    BinCountsStep(es, e);
  }

  /** The counts over no entry are all zero. */
  lemma BinCountsEmpty()
    ensures BinCounts([]) == seq(10, _ => 0)
  {
  }

  /** Counting every entry rated 0.5 to 5.0: the bins add up to the number
      of frames. */
  lemma {:induction false} SumBinCounts(es: seq<Entry>)
    ensures Sum(BinCounts(es)) == |Frames(es)|
    decreases |es|
  {
    if es == [] {
      BinCountsEmpty();
      SumZeros(10);
    } else {
      var init, e := es[..|es| - 1], es[|es| - 1];
      assert es == init + [e];
      SumBinCounts(init);
      BinCountsBump(init, e);
      if IsBin(e.rating) { SumBump(BinCounts(init), e.rating - 1); }
    }
  }

  /** The frames are the entries rated 0.5 to 5.0, in order, each with the
      counts of every entry up to and including it. */
  lemma {:induction false} FramesAreBinEntries(es: seq<Entry>)
    ensures |Frames(es)| == |BinEntries(es)|
    ensures forall k :: 0 <= k < |Frames(es)| ==>
              Frames(es)[k].dateTime == BinEntries(es)[k].dateTime && Frames(es)[k].rating == BinEntries(es)[k].rating
    decreases |es|
  {
    if es != [] { FramesAreBinEntries(es[..|es| - 1]); }
  }

  /** The last frame holds the counts of all the entries. */
  lemma {:induction false} LastFrameCounts(es: seq<Entry>)
    ensures Frames(es) == [] ==> BinCounts(es) == seq(10, _ => 0)
    ensures Frames(es) != [] ==> Frames(es)[|Frames(es)| - 1].counts == BinCounts(es)
    decreases |es|
  {
    if es != [] {
      var init, e := es[..|es| - 1], es[|es| - 1];
      assert es == init + [e];
      LastFrameCounts(init);
      BinCountsBump(init, e);
    }
  }

  /** Frame `k + 1` has the counts of frame `k` with the bin of its own
      rating raised by one. */
  predicate Steps(f: Frame, g: Frame) {
    && |f.counts| == 10 && |g.counts| == 10 && IsBin(g.rating)
    && forall i :: 0 <= i < 10 ==> g.counts[i] == f.counts[i] + (if i + 1 == g.rating then 1 else 0)
  }

  /** Each frame's counts are the previous frame's with exactly the entry's
      bin incremented, the first frame's the zeros with its bin at 1. */
  lemma {:induction false} FramesStep(es: seq<Entry>)
    ensures forall k :: 0 <= k < |Frames(es)| - 1 ==> Steps(Frames(es)[k], Frames(es)[k + 1])
    ensures Frames(es) != [] ==> Steps(Frame("", 0, seq(10, _ => 0)), Frames(es)[0])
    decreases |es|
  {
    if es != [] {
      var init, e := es[..|es| - 1], es[|es| - 1];
      assert es == init + [e];
      FramesStep(init);
      LastFrameCounts(init);
      BinCountsStep(init, e);
    }
  }

  /** Frame `k` counts `k + 1` entries. */
  lemma {:induction false} FrameSums(es: seq<Entry>)
    ensures forall k :: 0 <= k < |Frames(es)| ==> Sum(Frames(es)[k].counts) == k + 1
    decreases |es|
  {
    if es != [] {
      var init, e := es[..|es| - 1], es[|es| - 1];
      FrameSums(init);
      if IsBin(e.rating) { SumBinCounts(es); }
    }
  }

  /** No bin ever goes down from one frame to a later one. */
  lemma FramesMonotone(es: seq<Entry>, k: nat, l: nat, i: nat)
    requires k <= l < |Frames(es)| && i < 10
    ensures Frames(es)[k].counts[i] <= Frames(es)[l].counts[i]
    decreases l - k
  {
    if k < l {
      FramesStep(es);
      FramesMonotone(es, k, l - 1, i);
    }
  }

  /** An entry outside the bins adds no frame and changes no count. */
  lemma NonBinEntryIgnored(es: seq<Entry>, e: Entry)
    requires !IsBin(e.rating)
    ensures Frames(es + [e]) == Frames(es) && BinCounts(es + [e]) == BinCounts(es)
  {
    assert (es + [e])[..|es|] == es;
    BinCountsBump(es, e);
  }

  /** `{ user, bins, frames }`. */
  datatype Histogram = Histogram(user: string, bins: seq<nat>, frames: seq<Frame>)

  /** The bin loop of buildHistogramFrames, 0.5 to 5.0 in steps of 0.5. */
  method MakeBins() returns (bins: seq<nat>)
    ensures bins == Bins()
  {
    bins := [];
    var v := 1;
    while v <= 10
      invariant 1 <= v <= 11 && bins == seq(v - 1, i => i + 1)
    {
      bins := bins + [v];
      v := v + 1;
    }
  }

  /** `for (const k of keys) counts[k] = 0`. */
  method ZeroCounts(keys: seq<string>) returns (counts: map<string, nat>)
    ensures forall k :: k in counts <==> k in keys
    ensures forall k :: k in counts ==> counts[k] == 0
  {
    counts := map[];
    for j := 0 to |keys|
      invariant forall k :: k in counts <==> k in keys[..j]
      invariant forall k :: k in counts ==> counts[k] == 0
    {
      counts := counts[keys[j] := 0];
    }
    assert keys[..|keys|] == keys;
  }

  /** The counts object after the entries `es`: a key for each bin, holding
      how many of `es` have that rating. */
  ghost predicate CountsAre(counts: map<string, nat>, es: seq<Entry>) {
    && (forall r: nat :: HalfKey(r) in counts <==> IsBin(r))
    && forall r: nat :: IsBin(r) ==> counts[HalfKey(r)] == Tally(es, r)
  }

  /** `keys.map((k) => counts[k])`. */
  function Snapshot(counts: map<string, nat>): (c: seq<nat>)
    requires forall r: nat :: IsBin(r) ==> HalfKey(r) in counts
    ensures |c| == 10
  {
    seq(10, i requires 0 <= i < 10 => assert IsBin(i + 1); counts[HalfKey(i + 1)])
  }

  lemma TallySnoc(es: seq<Entry>, e: Entry, r: nat)
    ensures Tally(es + [e], r) == Tally(es, r) + (if e.rating == r then 1 else 0)
  {
    assert (es + [e])[..|es|] == es;
  }

  /** Counting an entry in its bin keeps the counts right. */
  lemma CountEntry(counts: map<string, nat>, es: seq<Entry>, e: Entry)
    requires CountsAre(counts, es) && IsBin(e.rating)
    ensures HalfKey(e.rating) in counts
    ensures CountsAre(counts[HalfKey(e.rating) := counts[HalfKey(e.rating)] + 1], es + [e])
  {
    var key := HalfKey(e.rating);
    var next := counts[key := counts[key] + 1];
    forall r: nat | IsBin(r) ensures next[HalfKey(r)] == Tally(es + [e], r) {
      TallySnoc(es, e, r);
      if r != e.rating && HalfKey(r) == key { HalfKeyInjective(r, e.rating); }
    }
  }

  /** Once the counts are right, the snapshot is the histogram. */
  lemma SnapshotIsBinCounts(counts: map<string, nat>, es: seq<Entry>)
    requires CountsAre(counts, es)
    ensures Snapshot(counts) == BinCounts(es)
  {
    forall i | 0 <= i < 10 ensures Snapshot(counts)[i] == BinCounts(es)[i] {
      assert IsBin(i + 1);
    }
  }

  /** The counts set up by ZeroCounts are those of no entry. */
  lemma ZeroCountsAre(counts: map<string, nat>, keys: seq<string>)
    requires keys == BinKeys()
    requires forall k :: k in counts <==> k in keys
    requires forall k :: k in counts ==> counts[k] == 0
    ensures CountsAre(counts, [])
  {
    forall r: nat ensures HalfKey(r) in counts <==> IsBin(r) {
      HalfKeyIsBin(r);
    }
  }

  /** The set-up of buildHistogramFrames: the bins, their keys and a zero
      count under each key. */
  method StartHistogram() returns (bins: seq<nat>, counts: map<string, nat>)
    ensures bins == Bins() && CountsAre(counts, [])
  {
    bins := MakeBins();
    var keys := seq(|bins|, i requires 0 <= i < |bins| => HalfKey(bins[i]));
    assert keys == BinKeys();
    counts := ZeroCounts(keys);
    ZeroCountsAre(counts, keys);
  }

  /** One turn of the entry loop: an entry outside the bins is skipped, one
      in a bin raises its count and pushes a frame with the new counts. */
  lemma HistogramStep(counts: map<string, nat>, es: seq<Entry>, e: Entry)
    requires CountsAre(counts, es)
    ensures HalfKey(e.rating) in counts <==> IsBin(e.rating)
    ensures !IsBin(e.rating) ==> CountsAre(counts, es + [e]) && Frames(es + [e]) == Frames(es)
    ensures IsBin(e.rating) ==>
              var next := counts[HalfKey(e.rating) := counts[HalfKey(e.rating)] + 1];
              && CountsAre(next, es + [e])
              && Frames(es + [e]) == Frames(es) + [Frame(e.dateTime, e.rating, Snapshot(next))]
  {
    assert (es + [e])[..|es|] == es;
    if IsBin(e.rating) {
      CountEntry(counts, es, e);
      SnapshotIsBinCounts(counts[HalfKey(e.rating) := counts[HalfKey(e.rating)] + 1], es + [e]);
    } else {
      forall r: nat | IsBin(r) ensures counts[HalfKey(r)] == Tally(es + [e], r) {
        TallySnoc(es, e, r);
      }
    }
  }

  /** buildHistogramFrames(user, entries). */
  method BuildHistogramFrames(user: string, entries: seq<Entry>) returns (h: Histogram)
    ensures h == Histogram(user, Bins(), Frames(entries))
  {
    var bins, counts := StartHistogram();
    var frames: seq<Frame> := [];
    for j := 0 to |entries|
      invariant CountsAre(counts, entries[..j])
      invariant frames == Frames(entries[..j])
    {
      var e := entries[j];
      assert entries[..j + 1] == entries[..j] + [e];
      HistogramStep(counts, entries[..j], e);
      var key := HalfKey(e.rating);
      if key !in counts {
        continue;
      }
      counts := counts[key := counts[key] + 1];
      frames := frames + [Frame(e.dateTime, e.rating, Snapshot(counts))];
    }
    assert entries[..|entries|] == entries;
    return Histogram(user, bins, frames);
  }
  // ------------------------------------------------------------ handler

  /** The handler's replies: 400 with an error, 500 with the message of the
      error thrown, or 200 with the histogram. */
  datatype Reply = BadRequest(error: string) | Failure(error: string) | Timeline(histogram: Histogram)

  /** The handler: `user` and `maxPages` are the query parameters, `net` the
      diary pages the site serves. */
  function RatingsTimeline(user: Option<string>, maxPages: Option<string>, net: Net<seq<Row>>,
                           encode: string -> string): Reply
  {
    match NormUser(user)
    case None => BadRequest("Missing or invalid ?user=<letterboxd username>")
    case Some(u) =>
      var c := DatedRatings(net, u, MaxPagesParam(maxPages, DefaultMaxPages), encode);
      match c.result
      case Err(msg) => Failure(msg)
      case Ok(entries) => Timeline(Histogram(u, Bins(), Frames(entries)))
  }

  method Handler(user: Option<string>, maxPages: Option<string>, net: Net<seq<Row>>, encode: string -> string)
    returns (reply: Reply)
    ensures reply == RatingsTimeline(user, maxPages, net, encode)
  {
    var u := NormUser(user);
    if u.None? {
      return BadRequest("Missing or invalid ?user=<letterboxd username>");
    }
    var pages := MaxPagesParam(maxPages, DefaultMaxPages);
    var c := CollectDatedRatings(net, u.value, pages, encode);
    if c.result.Err? {
      return Failure(c.result.error);
    }
    var payload := BuildHistogramFrames(u.value, c.result.value);
    return Timeline(payload);
  }

  /** A reply with a histogram is for a valid user name; its frames are
      in date order and each counts one entry more than the one before. */
  lemma TimelineReplyValid(user: Option<string>, maxPages: Option<string>, net: Net<seq<Row>>, encode: string -> string)
    ensures RatingsTimeline(user, maxPages, net, encode).BadRequest? <==> NormUser(user).None?
    ensures var r := RatingsTimeline(user, maxPages, net, encode);
            r.Timeline? ==>
              && ValidUser(r.histogram.user)
              && r.histogram.bins == Bins()
              && forall k :: 0 <= k < |r.histogram.frames| ==> Sum(r.histogram.frames[k].counts) == k + 1
  {
    var r := RatingsTimeline(user, maxPages, net, encode);
    if r.Timeline? {
      var u := NormUser(user).value;
      var n := MaxPagesParam(maxPages, DefaultMaxPages);
      var c := DatedRatings(net, u, n, encode);
      FrameSums(c.result.value);
    }
  }

  /** The crawl changes nothing the site serves and asks at most four
      times for each of `maxPages` pages. */
  lemma DatedRatingsRequests(net: Net<seq<Row>>, user: string, maxPages: nat, encode: string -> string)
    ensures var c := DatedRatings(net, user, maxPages, encode);
            && c.net.script == net.script
            && net.log <= c.net.log
            && |c.net.log| - |net.log| <= (Retries + 1) * maxPages
  {
    var url := DatedPageUrl(user, encode);
    var p := Paginate(net, url, DiaryEntries, Retries, BlockPhrases, 1, maxPages, []);
    PaginateRequestRange(net, url, DiaryEntries, Retries, BlockPhrases, 1, maxPages, []);
    assert DatedRatings(net, user, maxPages, encode).net == p.net;
    var b := if 1 <= maxPages then maxPages + 1 - 1 else 0;
    assert b == maxPages;
    assert |p.net.log| - |net.log| <= (Retries + 1) * b;
  }

  /** It asks only for the user's diary pages 1 to `maxPages`. */
  lemma DatedRatingsPages(net: Net<seq<Row>>, user: string, maxPages: nat, encode: string -> string)
    ensures var c := DatedRatings(net, user, maxPages, encode);
            forall j :: |net.log| <= j < |c.net.log| ==>
              exists q: nat :: 1 <= q <= maxPages && c.net.log[j] == DiaryUrl(user, encode, q)
  {
    var url := DatedPageUrl(user, encode);
    var p := Paginate(net, url, DiaryEntries, Retries, BlockPhrases, 1, maxPages, []);
    PaginateRequestRange(net, url, DiaryEntries, Retries, BlockPhrases, 1, maxPages, []);
    assert DatedRatings(net, user, maxPages, encode).net == p.net;
    forall j | |net.log| <= j < |p.net.log|
      ensures exists q: nat :: 1 <= q <= maxPages && p.net.log[j] == DiaryUrl(user, encode, q)
    {
      assert RequestedPage(p.net.log[j], url, 1, maxPages);
      var q: nat :| 1 <= q <= maxPages && p.net.log[j] == url(q);
      assert url(q) == DiaryUrl(user, encode, q);
    }
  }
}
