/** api/diary.js: how many diary entries a user logged in each year of a
    range, read from the header sentence of the year's diary or, failing
    that, by counting the dated rows of its pages. */
module Diary {
  import opened Text
  import opened Net
  import opened DiaryPages
  import opened NatOrder


  /** What the HTML parser finds in a diary page: the text of its body, the
      `datetime` attribute of each `time[datetime]` element inside a diary
      row or item (`tr.diary-entry-row`, `li.diary-entry`,
      `article.diary-entry`), in document order, so that a row holding two
      such elements is counted twice (None stands for an attribute the
      parser does not return), and the hrefs of its links to yearly
      diaries. */
  datatype Page = Page(bodyText: string, datetimes: seq<Option<string>>, yearLinks: seq<string>)

  // ------------------------------------------------------------ headerCount

  /** `s.replace(/\s+/g, " ")`: each run of white space becomes one space. */
  function Collapse(s: string): (r: string)
    ensures |r| <= |s|
    ensures r == [] <==> s == []
    ensures s != [] ==> r[0] == (if IsSpace(s[0]) then ' ' else s[0])
    ensures Collapsed(r)
    decreases |s|
  {
    if s == [] then []
    else if IsSpace(s[0]) then
      var t := TrimStart(s);
      CollapsedCons(' ', Collapse(t));
      [' '] + Collapse(t)
    else
      CollapsedCons(s[0], Collapse(s[1..]));
      [s[0]] + Collapse(s[1..])
  }

  /** What Collapse leaves: white space only as single ' ' characters. */
  predicate Collapsed(t: string) {
    && (forall i :: 0 <= i < |t| && IsSpace(t[i]) ==> t[i] == ' ')
    && (forall i :: 0 <= i < |t| - 1 ==> !TwoSpacesAt(t, i))
  }

  predicate TwoSpacesAt(t: string, i: nat)
    requires i + 1 < |t|
  {
    t[i] == ' ' && t[i + 1] == ' '
  }

  lemma CollapsedCons(x: char, t: string)
    requires Collapsed(t) && (IsSpace(x) ==> x == ' ') && (x == ' ' && t != [] ==> t[0] != ' ')
    ensures Collapsed([x] + t)
  {
    var u := [x] + t;
    forall i | 0 <= i < |u| - 1 ensures !TwoSpacesAt(u, i) {
      if i > 0 { assert u[i] == t[i - 1] && u[i + 1] == t[i]; assert !TwoSpacesAt(t, i - 1); }
    }
  }

  lemma CollapsedTail(t: string)
    requires Collapsed(t) && t != []
    ensures Collapsed(t[1..])
  {
    var u := t[1..];
    forall i | 0 <= i < |u| - 1 ensures !TwoSpacesAt(u, i) {
      assert !TwoSpacesAt(t, i + 1);
    }
  }

  /** Collapsing a collapsed text changes nothing. */
  lemma {:induction false} CollapseCollapsed(t: string)
    requires Collapsed(t)
    ensures Collapse(t) == t
    decreases |t|
  {
    if t != [] {
      CollapsedTail(t);
      CollapseCollapsed(t[1..]);
      if IsSpace(t[0]) {
        if |t| > 1 {
          assert !TwoSpacesAt(t, 0);
          assert !IsSpace(t[1]);
        }
        assert TrimStart(t[1..]) == t[1..];
        assert TrimStart(t) == t[1..];
      }
    }
  }

  /** So collapsing twice is collapsing once. */
  lemma CollapseIdempotent(s: string)
    ensures Collapse(Collapse(s)) == Collapse(s)
  {
    CollapseCollapsed(Collapse(s));
  }

  /** A character of the class [\d,]. */
  predicate NumChar(c: char) { IsDigit(c) || c == ',' }

  /** `s.replace(/,/g, "")`. */
  function RemoveCommas(s: string): (r: string)
    ensures |r| <= |s|
    ensures forall i :: 0 <= i < |r| ==> r[i] != ','
    ensures (forall i :: 0 <= i < |s| ==> NumChar(s[i])) ==> AllDigits(r)
    decreases |s|
  {
    if s == [] then []
    else
      var rest := RemoveCommas(s[1..]);
      assert (forall i :: 0 <= i < |s| ==> NumChar(s[i])) ==> forall i :: 0 <= i < |s[1..]| ==> NumChar(s[1..][i]);
      if s[0] == ',' then rest else [s[0]] + rest
  }

  /** Removing commas from two parts removes them from the whole. */
  lemma {:induction false} RemoveCommasAppend(a: string, b: string)
    ensures RemoveCommas(a + b) == RemoveCommas(a) + RemoveCommas(b)
    decreases |a|
  {
    if a != [] {
      assert (a + b)[1..] == a[1..] + b;
      RemoveCommasAppend(a[1..], b);
    } else {
      assert a + b == b;
    }
  }

  /** A string of digits has no commas to remove. */
  lemma {:induction false} RemoveCommasOfDigits(d: string)
    requires AllDigits(d)
    ensures RemoveCommas(d) == d
    decreases |d|
  {
    if d != [] {
      RemoveCommasOfDigits(d[1..]);
      assert d == [d[0]] + d[1..];
    }
  }

  /** A thousands separator goes: "1,234" reads as "1234". */
  lemma RemoveCommasThousands(a: string, b: string)
    requires AllDigits(a) && AllDigits(b)
    ensures RemoveCommas(a + "," + b) == a + b
  {
    var ac := a + ",";
    RemoveCommasAppend(ac, b);
    RemoveCommasAppend(a, ",");
    RemoveCommasOfDigits(a);
    RemoveCommasOfDigits(b);
    assert RemoveCommas(",") == [] by {
      assert ","[1..] == [];
    }
    assert RemoveCommas(ac) == a;
    assert a + "," + b == ac + b;
  }

  /** The words the header sentence begins with. */
  const HasLogged: string := "has logged "

  /** The words after the count, ending with the year as String() writes it. */
  function DuringYear(year: int): string {
    " entries for films during " + IntToString(year)
  }

  /** The regex `pre([\d,]+)post`, with `\s+` written as one ' ' and letters
      in any case, matches the collapsed text `t` at `i`. Each `\s+` meets
      exactly one ' ' in a collapsed text, and when `post` starts with a
      space the greedy run cannot give back a character. */
  predicate CountAt(t: string, i: nat, pre: string, post: string) {
    && WordAt(t, i, pre)
    && var k := RunFrom(t, i + |pre|, NumChar);
       k > 0 && WordAt(t, i + |pre| + k, post)
  }

  /** The digits and commas that a match at `i` captures. */
  function CountDigits(t: string, i: nat, pre: string, post: string): (d: string)
    requires CountAt(t, i, pre, post)
    ensures d != [] && forall j :: 0 <= j < |d| ==> NumChar(d[j])
  {
    t[i + |pre|..i + |pre| + RunFrom(t, i + |pre|, NumChar)]
  }

  function CountMatchAt(pre: string, post: string): (string, nat) -> bool {
    (t: string, i: nat) => CountAt(t, i, pre, post)
  }

  /** `exec` of that regex on `t`, the capture read as parseInt reads it
      once its commas are removed: the number at the leftmost match. None
      when there is no match (null), or when the capture holds only commas
      (NaN; both fail Number.isInteger). */
  function FindCount(t: string, pre: string, post: string): (n: Option<nat>)
    ensures (forall i: nat :: !CountAt(t, i, pre, post)) ==> n.None?
    ensures n.Some? ==>
              exists i: nat :: && CountAt(t, i, pre, post)
                               && (forall j: nat :: j < i ==> !CountAt(t, j, pre, post))
                               && RemoveCommas(CountDigits(t, i, pre, post)) != []
                               && n.value == DigitsValue(RemoveCommas(CountDigits(t, i, pre, post)))
    ensures forall i: nat :: CountAt(t, i, pre, post) && (forall j: nat :: j < i ==> !CountAt(t, j, pre, post)) ==>
              n == (var d := RemoveCommas(CountDigits(t, i, pre, post)); if d == [] then None else Some(DigitsValue(d)))
  {
    match FirstMatch(t, 0, CountMatchAt(pre, post))
    case None =>
      assert forall i: nat :: !CountAt(t, i, pre, post) by {
        forall i: nat ensures !CountAt(t, i, pre, post) {
          if i < |t| { assert !CountMatchAt(pre, post)(t, i); }
        }
      }
      None
    case Some(i) =>
      assert CountMatchAt(pre, post)(t, i);
      assert forall j: nat :: j < i ==> !CountAt(t, j, pre, post) by {
        forall j: nat | j < i ensures !CountAt(t, j, pre, post) {
          assert !CountMatchAt(pre, post)(t, j);
        }
      }
      var d := RemoveCommas(CountDigits(t, i, pre, post));
      if d == [] then None else Some(DigitsValue(d))
  }

  /** headerCount(html, year) as countYear uses it: the header regex run on
      the body text with its white space collapsed. */
  function HeaderCount(bodyText: string, year: int): Option<nat> {
    FindCount(Collapse(bodyText), HasLogged, DuringYear(year))
  }

  predicate NoUpper(s: string) { forall j :: 0 <= j < |s| ==> !IsUpper(s[j]) }

  lemma SentenceWords(lead: string, pre: string, g: string, post: string, rest: string)
    requires NoUpper(pre) && NoUpper(post)
    ensures WordAt(lead + pre + g + post + rest, |lead|, pre)
    ensures WordAt(lead + pre + g + post + rest, |lead| + |pre| + |g|, post)
  {
    WordAtJoin(lead, pre, g + post + rest);
    assert lead + pre + (g + post + rest) == lead + pre + g + post + rest;
    WordAtJoin(lead + pre + g, post, rest);
  }

  lemma SentenceRun(lead: string, pre: string, g: string, post: string, rest: string)
    requires post != [] && !NumChar(post[0])
    requires forall j :: 0 <= j < |g| ==> NumChar(g[j])
    ensures var t := lead + pre + g + post + rest;
            var i := |lead| + |pre|;
            t[i..i + |g|] == g && RunFrom(t, i, NumChar) == |g|
  {
    var t := lead + pre + g + post + rest;
    MiddleOfJoin(lead + pre, g, post + rest);
    assert lead + pre + g + (post + rest) == t;
    assert t[|lead| + |pre| + |g|] == post[0];
    RunFromBlock(t, |lead| + |pre|, |g|, NumChar);
  }

  /** A text holding `pre`, a run `g` of digits and commas and `post`
      after `lead` matches after `lead` and captures `g`. */
  lemma CountAtSentence(lead: string, pre: string, g: string, post: string, rest: string)
    requires NoUpper(pre) && NoUpper(post) && post != [] && !NumChar(post[0])
    requires g != [] && forall j :: 0 <= j < |g| ==> NumChar(g[j])
    ensures CountAt(lead + pre + g + post + rest, |lead|, pre, post)
    ensures CountDigits(lead + pre + g + post + rest, |lead|, pre, post) == g
  {
    SentenceWords(lead, pre, g, post, rest);
    SentenceRun(lead, pre, g, post, rest);
  }

  /** Such a text, with no match inside `lead`, gives the number the run
      states, thousands separators and all. */
  lemma FindCountOfSentence(lead: string, pre: string, g: string, post: string, rest: string)
    requires NoUpper(pre) && NoUpper(post) && post != [] && !NumChar(post[0])
    requires forall j :: 0 <= j < |g| ==> NumChar(g[j])
    requires RemoveCommas(g) != []
    requires forall j: nat :: j < |lead| ==> !CountAt(lead + pre + g + post + rest, j, pre, post)
    ensures FindCount(lead + pre + g + post + rest, pre, post) == Some(DigitsValue(RemoveCommas(g)))
  {
    assert g != [];
    CountAtSentence(lead, pre, g, post, rest);
  }

  /** The words of the header sentence hold no capitals, and the count is
      followed by a space. */
  lemma SentenceNoUpper(year: int)
    ensures NoUpper(HasLogged)
    ensures NoUpper(DuringYear(year)) && !NumChar(DuringYear(year)[0])
  {
    assert NoUpper(HasLogged);
    var d := if year < 0 then NatToString(-year) else NatToString(year);
    assert forall j :: 0 <= j < |d| ==> !IsUpper(d[j]) by {
      assert AllDigits(d);
    }
    assert NoUpper(" entries for films during ");
  }

  /** A body text whose collapsed form holds the header sentence "has
      logged N entries for films during YEAR", with no match before it,
      gives N, its commas removed. */
  lemma HeaderCountOfSentence(bodyText: string, lead: string, g: string, year: int, rest: string)
    requires Collapse(bodyText) == lead + HasLogged + g + DuringYear(year) + rest
    requires forall j: nat :: j < |lead| ==> !CountAt(Collapse(bodyText), j, HasLogged, DuringYear(year))
    requires forall j :: 0 <= j < |g| ==> NumChar(g[j])
    requires RemoveCommas(g) != []
    ensures HeaderCount(bodyText, year) == Some(DigitsValue(RemoveCommas(g)))
  {
    SentenceNoUpper(year);
    FindCountOfSentence(lead, HasLogged, g, DuringYear(year), rest);
  }

  // ------------------------------------------------------------ pageYearMatches

  /** `(attr || "").slice(0, 4)`. */
  function YearPrefix(dt: Option<string>): (p: string)
    ensures |p| <= 4
  {
    var s := if dt.Some? then dt.value else "";
    if |s| <= 4 then s else s[..4]
  }

  /** A row dated in `year`: its datetime begins with String(year). */
  predicate OfYear(dt: Option<string>, year: int) { YearPrefix(dt) == IntToString(year) }

  function DatedIn(year: int): Option<string> -> bool {
    (dt: Option<string>) => OfYear(dt, year)
  }

  /** The number of rows dated in `year`. */
  function Hits(dts: seq<Option<string>>, year: int): nat {
    CountWhere(dts, DatedIn(year))
  }

  /** The positions of the rows dated in `year`. */
  function YearRows(dts: seq<Option<string>>, year: int): set<nat> {
    set i: nat | i < |dts| && OfYear(dts[i], year)
  }

  /** The count is the number of rows dated in the year, no more, no less. */
  lemma HitsAreYearRows(dts: seq<Option<string>>, year: int)
    ensures Hits(dts, year) == |YearRows(dts, year)|
  {
    CountWhereIndices(dts, DatedIn(year));
    assert YearRows(dts, year) == IndicesWhere(dts, DatedIn(year));
  }

  /** pageYearMatches: the counter loop over the dated rows. */
  method PageYearMatches(dts: seq<Option<string>>, year: int) returns (n: nat)
    ensures n == Hits(dts, year)
  {
    n := 0;
    for i := 0 to |dts|
      invariant n == Hits(dts[..i], year)
    {
      assert dts[..i + 1][..i] == dts[..i];
      if OfYear(dts[i], year) {
        n := n + 1;
      }
    }
    assert dts[..|dts|] == dts;
  }

  // ------------------------------------------------------------ countYear

  /** `base` for page 1, `base + "page/N/"` for page N, where `base` is the
      year's diary. */
  function YearUrl(user: string, year: int, page: nat): string {
    var base := "https://letterboxd.com/" + user + "/films/diary/for/" + IntToString(year) + "/";
    if page == 1 then base else base + "page/" + NatToString(page) + "/"
  }

  function YearPages(user: string, year: int): nat -> string {
    (page: nat) => YearUrl(user, year, page)
  }

  function PageHits(year: int): Page -> nat {
    (p: Page) => Hits(p.datetimes, year)
  }

  /** countYear(user, year), `user` as encodeURIComponent gives it: the
      header count of the year's diary when it states one, else the count
      of the dated rows of its pages. */
  function CountYear(net: Net<Page>, user: string, year: int): Count<Page> {
    var g := DiaryPages.GetHtml(net, YearUrl(user, year, 1), 1, DiaryBlockPhrases);
    match g.response
    case None => Count(None, [], g.net)
    case Some(r) =>
      match HeaderCount(r.doc.bodyText, year)
      case Some(n) => Count(Some(n), [], g.net)
      case None => CountFrom(g.net, YearPages(user, year), PageHits(year), DiaryBlockPhrases, 1)
  }

  /** A header count is returned outright: no page is counted and only the
      header page, with its retry, is fetched. */
  lemma CountYearFromHeader(net: Net<Page>, user: string, year: int)
    requires var g := DiaryPages.GetHtml(net, YearUrl(user, year, 1), 1, DiaryBlockPhrases);
             g.response.Some? && HeaderCount(g.response.value.doc.bodyText, year).Some?
    ensures var g := DiaryPages.GetHtml(net, YearUrl(user, year, 1), 1, DiaryBlockPhrases);
            var c := CountYear(net, user, year);
            && c.total == HeaderCount(g.response.value.doc.bodyText, year)
            && c.counted == []
            && |c.net.log| - |net.log| <= 2
  {
    GetHtmlRequests(net, YearUrl(user, year, 1), 1, DiaryBlockPhrases);
  }

  /** Without a header count, the total is the sum of the hits of the
      pages counted, at most MaxPages of them, each with hits. */
  lemma CountYearFromPages(net: Net<Page>, user: string, year: int)
    ensures var c := CountYear(net, user, year);
            && |c.counted| <= MaxPages
            && (forall j :: 0 <= j < |c.counted| ==> c.counted[j] > 0)
            && (c.total.Some? && c.counted != [] ==> c.total.value == Sum(c.counted))
  {
    var g := DiaryPages.GetHtml(net, YearUrl(user, year, 1), 1, DiaryBlockPhrases);
    if g.response.Some? && HeaderCount(g.response.value.doc.bodyText, year).None? {
      CountFromCounted(g.net, YearPages(user, year), PageHits(year), DiaryBlockPhrases, 1);
      CountFromTotal(g.net, YearPages(user, year), PageHits(year), DiaryBlockPhrases, 1);
    }
  }

  /** Without a header count, a count that stops before page MaxPages
      stops at the page after the last one counted: the last request was
      for that page, and the response it got, after the retry, was blocked
      or held no row of the year. */
  lemma CountYearStop(net: Net<Page>, user: string, year: int)
    requires var g := DiaryPages.GetHtml(net, YearUrl(user, year, 1), 1, DiaryBlockPhrases);
             g.response.Some? && HeaderCount(g.response.value.doc.bodyText, year).None?
    ensures var c := CountYear(net, user, year);
            c.total.Some? && |c.counted| < MaxPages ==>
              StoppedAt(c, YearPages(user, year), PageHits(year), DiaryBlockPhrases, 1)
  {
    var g := DiaryPages.GetHtml(net, YearUrl(user, year, 1), 1, DiaryBlockPhrases);
    var c := CountFrom(g.net, YearPages(user, year), PageHits(year), DiaryBlockPhrases, 1);
    assert CountYear(net, user, year) == c;
    CountFromStop(g.net, YearPages(user, year), PageHits(year), DiaryBlockPhrases, 1);
  }

  /** countYear: the header first, the page loop failing that. */
  method CountYearOf(net: Net<Page>, user: string, year: int) returns (c: Count<Page>)
    ensures c == CountYear(net, user, year)
  {
    var g := DiaryPages.GetHtml(net, YearUrl(user, year, 1), 1, DiaryBlockPhrases);
    if g.response.None? {
      return Count(None, [], g.net);
    }
    var fromHeader := HeaderCount(g.response.value.doc.bodyText, year);
    if fromHeader.Some? {
      return Count(fromHeader, [], g.net);
    }
    c := CountPagesLoop(g.net, YearPages(user, year), PageHits(year), DiaryBlockPhrases, 1);
  }

  // ------------------------------------------------------------ buildYears

  /** The count recorded for a year: countYear's total, 0 when it throws. */
  function YearTotal(net: Net<Page>, user: string, year: int): nat {
    CountYear(net, user, year).total.GetOr(0)
  }

  /** A map from each year `lo` to `hi` to its value under `f`. */
  function Tally(f: int -> nat, lo: int, hi: int): map<int, nat> {
    map y | lo <= y <= hi :: f(y)
  }

  /** One more year extends the map by that year's value. */
  lemma TallyStep(f: int -> nat, lo: int, y: int)
    requires lo <= y
    ensures Tally(f, lo, y) == Tally(f, lo, y - 1)[y := f(y)]
  {
    assert Tally(f, lo, y).Keys == Tally(f, lo, y - 1).Keys + {y};
  }

  lemma TallyKeys(f: int -> nat, lo: int, hi: int)
    ensures forall y :: y in Tally(f, lo, hi) <==> lo <= y <= hi
  {
  }

  lemma TallyEmpty(f: int -> nat, lo: int, hi: int)
    requires hi < lo
    ensures Tally(f, lo, hi) == map[]
  {
    assert Tally(f, lo, hi).Keys == {};
  }

  function YearTotals(nets: int -> Net<Page>, user: string): int -> nat {
    (y: int) => YearTotal(nets(y), user, y)
  }

  /** buildYears(user, fromY, toY), year `y` reading the responses `nets(y)`. */
  function YearCounts(nets: int -> Net<Page>, user: string, fromY: int, toY: int): map<int, nat> {
    Tally(YearTotals(nets, user), fromY, toY)
  }

  /** The keys are exactly `from` to `to`; a year whose count throws records
      0, and what a year records depends on its own responses alone. */
  lemma YearCountsKeys(nets: int -> Net<Page>, others: int -> Net<Page>, user: string, fromY: int, toY: int, y: int)
    ensures y in YearCounts(nets, user, fromY, toY) <==> fromY <= y <= toY
    ensures fromY <= y <= toY && CountYear(nets(y), user, y).total.None? ==> YearCounts(nets, user, fromY, toY)[y] == 0
    ensures fromY <= y <= toY && others(y) == nets(y) ==>
              YearCounts(others, user, fromY, toY)[y] == YearCounts(nets, user, fromY, toY)[y]
  {
  }

  /** The try/catch around one countYear. */
  method YearTotalOf(net: Net<Page>, user: string, year: int) returns (n: nat)
    ensures n == YearTotal(net, user, year)
  {
    var c := CountYearOf(net, user, year);
    n := if c.total.Some? then c.total.value else 0;
  }

  /** buildYears: one countYear per year, in order. */
  method BuildYears(nets: int -> Net<Page>, user: string, fromY: int, toY: int) returns (years: map<int, nat>)
    ensures years == YearCounts(nets, user, fromY, toY)
  {
    ghost var f := YearTotals(nets, user);
    TallyEmpty(f, fromY, fromY - 1);
    years := map[];
    var y := fromY;
    while y <= toY
      invariant fromY <= y && (y <= toY + 1 || y == fromY)
      invariant years == YearCounts(nets, user, fromY, y - 1)
      decreases toY + 1 - y
    {
      var n := YearTotalOf(nets(y), user, y);
      TallyStep(f, fromY, y);
      years := years[y := n];
      y := y + 1;
    }
    if y == fromY {
      TallyEmpty(f, fromY, toY);
    }
  }

  // ------------------------------------------------------------ fetchDiaryYears

  /** `/\/for\/(\d{4})\//` can match at `i`. */
  predicate ForYearAt(h: string, i: nat) {
    i + 10 <= |h| && h[i..i + 5] == "/for/" && AllDigits(h[i + 5..i + 9]) && h[i + 9] == '/'
  }

  /** `+href.match(/\/for\/(\d{4})\//)[1]`, or None without a match. */
  function LinkYear(h: string): (y: Option<nat>)
    ensures y.Some? <==> exists i :: ForYearAt(h, i)
    ensures y.Some? ==> y.value <= 9999
  {
    match FirstMatch(h, 0, ForYearAt)
    case None => None
    case Some(i) =>
      DigitsValueOf4(h[i + 5..i + 9]);
      Some(DigitsValue(h[i + 5..i + 9]))
  }

  function LinkYearOpts(hrefs: seq<string>): (ys: seq<Option<nat>>)
    ensures |ys| == |hrefs| && forall i :: 0 <= i < |hrefs| ==> ys[i] == LinkYear(hrefs[i])
  {
    seq(|hrefs|, i requires 0 <= i < |hrefs| => LinkYear(hrefs[i]))
  }

  /** The years of the links, in document order, repeats included. */
  function LinkYears(hrefs: seq<string>): seq<nat> {
    Somes(LinkYearOpts(hrefs))
  }

  /** The values of `xs` in the order they first occur: the iteration order
      of a Set they were added to. */
  function Distinct(xs: seq<nat>): (d: seq<nat>)
    ensures forall x :: x in d <==> x in xs
    ensures forall i, j :: 0 <= i < j < |d| ==> d[i] != d[j]
  {
    if xs == [] then []
    else
      var d := Distinct(xs[..|xs| - 1]);
      assert xs == xs[..|xs| - 1] + [xs[|xs| - 1]];
      if xs[|xs| - 1] in d then d else d + [xs[|xs| - 1]]
  }

  /** The `.each` loop of fetchDiaryYears, adding to a Set. */
  method CollectYears(hrefs: seq<string>) returns (found: seq<nat>)
    ensures found == Distinct(LinkYears(hrefs))
  {
    ghost var ys := LinkYearOpts(hrefs);
    found := [];
    for i := 0 to |hrefs|
      invariant found == Distinct(Somes(ys[..i]))
    {
      ghost var pre := Somes(ys[..i]);
      assert ys[..i + 1][..i] == ys[..i];
      var y := LinkYear(hrefs[i]);
      assert ys[..i + 1][i] == y;
      if y.Some? {
        assert Somes(ys[..i + 1]) == pre + [y.value];
        assert (pre + [y.value])[..|pre|] == pre;
        if y.value !in found {
          found := found + [y.value];
        }
      } else {
        assert Somes(ys[..i + 1]) == pre;
      }
    }
    assert ys[..|hrefs|] == ys;
  }

  /** The archive's years: strictly ascending, and exactly the years its
      links give. */
  function ArchiveYears(hrefs: seq<string>): (ys: seq<nat>)
    ensures StrictlyAscending(ys)
    ensures forall y :: y in ys <==> exists i :: 0 <= i < |hrefs| && LinkYear(hrefs[i]) == Some(y)
  {
    var d := Distinct(LinkYears(hrefs));
    SortDistinct(d);
    forall y ensures y in LinkYears(hrefs) <==> exists i :: 0 <= i < |hrefs| && LinkYear(hrefs[i]) == Some(y) {
      SomesOfMap(hrefs, LinkYearOpts(hrefs), LinkYear, y);
    }
    SortNats(d)
  }

  /** The archive page of a user's diary. */
  function ArchiveUrl(user: string): string {
    "https://letterboxd.com/" + user + "/films/diary/"
  }

  /** fetchDiaryYears(user): None when a fetch is rejected (it throws), no
      years when the archive is still blocked after the retry. */
  function DiaryYears(net: Net<Page>, user: string): (years: Option<seq<nat>>)
    ensures years.Some? ==> StrictlyAscending(years.value)
  {
    var g := DiaryPages.GetHtml(net, ArchiveUrl(user), 1, DiaryBlockPhrases);
    match g.response
    case None => None
    case Some(r) => if Blocked(r.html, DiaryBlockPhrases) then Some([]) else Some(ArchiveYears(r.doc.yearLinks))
  }

  method FetchDiaryYears(net: Net<Page>, user: string) returns (years: Option<seq<nat>>)
    ensures years == DiaryYears(net, user)
  {
    var g := DiaryPages.GetHtml(net, ArchiveUrl(user), 1, DiaryBlockPhrases);
    if g.response.None? {
      return None;
    }
    var r := g.response.value;
    if Blocked(r.html, DiaryBlockPhrases) {
      return Some([]);
    }
    var found := CollectYears(r.doc.yearLinks);
    return Some(SortNats(found));
  }

  // ------------------------------------------------------------ resolveYearRange

  /** `Number.isInteger(+q) ? +q : dflt`. */
  function YearParam(q: Option<string>, dflt: int): int {
    if q.None? then dflt
    else match ToNumber(q.value)
      case Some(n) => n
      case None => dflt
  }

  /** The first year discovered, else 2011. */
  function MinYear(years: seq<nat>): int { if years != [] then years[0] else 2011 }

  /** The last year discovered, else the current year. */
  function MaxYear(years: seq<nat>, nowY: int): int { if years != [] then years[|years| - 1] else nowY }

  /** `Math.max(lo, Math.min(x, hi))`. */
  function Clamp(x: int, lo: int, hi: int): int {
    var m := if x < hi then x else hi;
    if lo > m then lo else m
  }

  /** The range resolveYearRange settles on: the query years or the
      discovered bounds, swapped into order and clamped to those bounds. */
  function YearRange(years: seq<nat>, nowY: int, qFrom: Option<string>, qTo: Option<string>): (r: (int, int))
    ensures r.0 <= r.1 && MinYear(years) <= r.0
    ensures MinYear(years) <= MaxYear(years, nowY) ==> r.1 <= MaxYear(years, nowY)
    ensures var f := YearParam(qFrom, MinYear(years));
            var t := YearParam(qTo, MaxYear(years, nowY));
            MinYear(years) <= f <= MaxYear(years, nowY) && MinYear(years) <= t <= MaxYear(years, nowY) ==>
              r == (if f <= t then (f, t) else (t, f))
  {
    var lo, hi := MinYear(years), MaxYear(years, nowY);
    var f, t := YearParam(qFrom, lo), YearParam(qTo, hi);
    var a, b := if f > t then t else f, if f > t then f else t;
    (Clamp(a, lo, hi), Clamp(b, lo, hi))
  }

  /** Without query years the whole discovered range is taken; with years
      discovered, the range lies within them. */
  lemma YearRangeDefaults(years: seq<nat>, nowY: int, qFrom: Option<string>, qTo: Option<string>)
    requires StrictlyAscending(years)
    requires years != [] || 2011 <= nowY
    ensures MinYear(years) <= MaxYear(years, nowY)
    ensures var r := YearRange(years, nowY, qFrom, qTo);
            MinYear(years) <= r.0 <= r.1 <= MaxYear(years, nowY)
    ensures qFrom.None? && qTo.None? ==> YearRange(years, nowY, qFrom, qTo) == (MinYear(years), MaxYear(years, nowY))
  {
    if |years| > 1 {
      assert years[0] < years[|years| - 1];
    }
    var lo, hi := MinYear(years), MaxYear(years, nowY);
    if qFrom.None? && qTo.None? {
      assert YearParam(qFrom, lo) == lo && YearParam(qTo, hi) == hi;
    }
  }

  /** resolveYearRange once the years are discovered: the swap, then the
      clamp. */
  method ResolveYearRange(years: seq<nat>, nowY: int, qFrom: Option<string>, qTo: Option<string>)
    returns (fromY: int, toY: int)
    ensures (fromY, toY) == YearRange(years, nowY, qFrom, qTo)
  {
    var minY := if |years| > 0 then years[0] else 2011;
    var maxY := if |years| > 0 then years[|years| - 1] else nowY;
    fromY := YearParam(qFrom, minY);
    toY := YearParam(qTo, maxY);
    if fromY > toY {
      fromY, toY := toY, fromY;
    }
    fromY := Clamp(fromY, minY, maxY);
    toY := Clamp(toY, minY, maxY);
  }

  // ------------------------------------------------------------ the handler

  /** The replies: 400, 500, or 200 with the counts by year. */
  datatype Reply = BadRequest(error: string)
                 | Failure(error: string)
                 | Counts(user: string, years: map<int, nat>)

  /** The reply once the archive has answered with `d` (None: the fetch
      threw), each year `y` of the range counting `f(y)`. */
  function ReplyFor(u: string, d: Option<seq<nat>>, nowY: int, qFrom: Option<string>, qTo: Option<string>,
                    f: int -> nat): Reply
  {
    match d
    case None => Failure(ErrorMessage(NetworkError, ""))
    case Some(ys) =>
      var r := YearRange(ys, nowY, qFrom, qTo);
      Counts(u, Tally(f, r.0, r.1))
  }

  /** The handler for the query parameters `user`, `from` and `to`; `nowY`
      is the current year, `encode` encodeURIComponent, `archive` the
      responses to the archive request and `nets(y)` those to year `y`'s. */
  function DiaryReply(user: Option<string>, qFrom: Option<string>, qTo: Option<string>, nowY: int,
                      encode: string -> string, archive: Net<Page>, nets: int -> Net<Page>): Reply
  {
    var u := Trim(if user.Some? then user.value else "");
    if u == "" then BadRequest("Missing ?user")
    else ReplyFor(u, DiaryYears(archive, encode(u)), nowY, qFrom, qTo, YearTotals(nets, encode(u)))
  }

  method Handler(user: Option<string>, qFrom: Option<string>, qTo: Option<string>, nowY: int,
                 encode: string -> string, archive: Net<Page>, nets: int -> Net<Page>)
    returns (reply: Reply)
    ensures reply == DiaryReply(user, qFrom, qTo, nowY, encode, archive, nets)
  {
    var u := Trim(if user.Some? then user.value else "");
    if u == "" {
      return BadRequest("Missing ?user");
    }
    var ys := FetchDiaryYears(archive, encode(u));
    if ys.None? {
      return Failure(ErrorMessage(NetworkError, ""));
    }
    var fromY, toY := ResolveYearRange(ys.value, nowY, qFrom, qTo);
    var years := BuildYears(nets, encode(u), fromY, toY);
    return Counts(u, years);
  }

  /** A reply with counts covers one contiguous run of years, inside the
      discovered range when any year was discovered, and either way from the
      first discovered year (2011 without any) on. */
  lemma ReplyForValid(u: string, d: Option<seq<nat>>, nowY: int, qFrom: Option<string>, qTo: Option<string>,
                      f: int -> nat)
    requires d.Some? ==> StrictlyAscending(d.value)
    ensures var r := ReplyFor(u, d, nowY, qFrom, qTo, f);
            && (r.Counts? || r.Failure?)
            && (r.Counts? <==> d.Some?)
            && (r.Counts? ==>
                  && r.user == u
                  && var range := YearRange(d.value, nowY, qFrom, qTo);
                     && (forall y :: y in r.years <==> range.0 <= y <= range.1)
                     && MinYear(d.value) <= range.0 <= range.1
                     && (d.value != [] ==> range.1 <= MaxYear(d.value, nowY)))
  {
    if d.Some? {
      var ys := d.value;
      var range := YearRange(ys, nowY, qFrom, qTo);
      TallyKeys(f, range.0, range.1);
      if |ys| > 1 {
        assert ys[0] < ys[|ys| - 1];
      }
    }
  }

  /** Only a missing or blank user is refused, and a reply with counts
      counts the years ReplyForValid describes. */
  lemma DiaryReplyValid(user: Option<string>, qFrom: Option<string>, qTo: Option<string>, nowY: int,
                        encode: string -> string, archive: Net<Page>, nets: int -> Net<Page>)
    ensures var r := DiaryReply(user, qFrom, qTo, nowY, encode, archive, nets);
            var u := Trim(if user.Some? then user.value else "");
            && (r.BadRequest? <==> u == "")
            && (u != "" ==> r == ReplyFor(u, DiaryYears(archive, encode(u)), nowY, qFrom, qTo, YearTotals(nets, encode(u))))
            && (r.Counts? ==> r.user == u && DiaryYears(archive, encode(u)).Some?)
  {
    var u := Trim(if user.Some? then user.value else "");
    if u != "" {
      var d := DiaryYears(archive, encode(u));
      ReplyForValid(u, d, nowY, qFrom, qTo, YearTotals(nets, encode(u)));
    }
  }
}
