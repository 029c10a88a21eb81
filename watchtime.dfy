/** api/watchtime.js: the total time a Letterboxd user has spent watching the
    films of their diary. Every diary entry counts its film's runtime once, so
    a rewatch counts again; a film's runtime is read from its page once. */
module Watchtime {
  import opened Text
  import opened Net
  import opened Users
  import opened Links
  import opened Runtime

  // ------------------------------------------------------------ diary links

  /** getHTML's default number of retries. */
  const Retries := 3

  /** DEFAULT_MAX_PAGES, also the largest `maxPages` accepted. */
  const DefaultMaxPages := 200

  /** What the HTML parser finds on a diary page: the `href` attribute of
      every entry link the diary selector matches, in document order, None
      where a link has none. */
  type DiaryLinks = seq<Option<string>>

  /** The request for diary page `page`; `encode` is encodeURIComponent. */
  function DiaryUrl(user: string, encode: string -> string, page: nat): string {
    "https://letterboxd.com/" + encode(user) + "/films/diary/page/" + NatToString(page) + "/"
  }

  function DiaryPageUrl(user: string, encode: string -> string): nat -> string {
    (page: nat) => DiaryUrl(user, encode, page)
  }

  /** `[#?].*$` can match at `i`: a '#' or '?' with no line terminator after
      it, since `.` does not match one. */
  predicate CutAt(s: string, i: nat) {
    i < |s| && (s[i] == '#' || s[i] == '?') && forall j :: i < j < |s| ==> !IsLineTerminator(s[j])
  }

  predicate NoQueryOrFragment(s: string) { forall j :: 0 <= j < |s| ==> s[j] != '#' && s[j] != '?' }

  predicate NoLineTerminator(s: string) { forall j :: 0 <= j < |s| ==> !IsLineTerminator(s[j]) }

  /** `s.replace(/[#?].*$/, "")`: the text before the query or fragment. */
  function StripQueryFragment(s: string): (r: string)
    ensures |r| <= |s| && r == s[..|r|]
    ensures NoLineTerminator(s) ==> NoQueryOrFragment(r)
    ensures NoQueryOrFragment(s) ==> r == s
  {
    match FirstMatch(s, 0, CutAt)
    case None => CutFacts(s, |s|); assert s[..|s|] == s; s
    case Some(i) => CutFacts(s, i); s[..i]
  }

  lemma CutFacts(s: string, i: nat)
    requires i <= |s| && forall j :: 0 <= j < i ==> !CutAt(s, j)
    ensures NoLineTerminator(s) ==> NoQueryOrFragment(s[..i])
  {
    if NoLineTerminator(s) {
      forall j | 0 <= j < i ensures s[..i][j] != '#' && s[..i][j] != '?' {
        assert !CutAt(s, j);
      }
    }
  }

  /** Cutting twice cuts nothing more. */
  lemma StripQueryFragmentIdempotent(s: string)
    requires NoLineTerminator(s)
    ensures StripQueryFragment(StripQueryFragment(s)) == StripQueryFragment(s)
  {
  }

  /** The links of one page: every href that contains "/film/", made
      absolute by `resolve` (`new URL(href, "https://letterboxd.com")`) and
      cut before its query or fragment. */
  function PageLinks(doc: DiaryLinks, resolve: string -> string): (links: seq<string>)
    ensures |links| <= |doc|
  {
    if doc == [] then []
    else
      var href := doc[|doc| - 1].GetOr("");
      PageLinks(doc[..|doc| - 1], resolve)
      + (if Contains(href, FilmPath) then [StripQueryFragment(resolve(href))] else [])
  }

  /** Every link kept comes from an href that mentions "/film/", and every
      such href gives one. */
  lemma {:induction false} PageLinksFromFilmHrefs(doc: DiaryLinks, resolve: string -> string)
    ensures forall l :: l in PageLinks(doc, resolve) ==>
              exists i :: 0 <= i < |doc| && Contains(doc[i].GetOr(""), FilmPath)
                          && l == StripQueryFragment(resolve(doc[i].GetOr("")))
    ensures (forall i :: 0 <= i < |doc| ==> Contains(doc[i].GetOr(""), FilmPath)) ==> |PageLinks(doc, resolve)| == |doc|
    decreases |doc|
  {
    if doc != [] {
      var init := doc[..|doc| - 1];
      PageLinksFromFilmHrefs(init, resolve);
      forall i | 0 <= i < |init| ensures init[i] == doc[i] { }
    }
  }

  /** The `.each` loop over the links of a page. */
  method ReadPageLinks(doc: DiaryLinks, resolve: string -> string) returns (links: seq<string>)
    ensures links == PageLinks(doc, resolve)
  {
    links := [];
    var i := 0;
    while i < |doc|
      invariant 0 <= i <= |doc|
      invariant links == PageLinks(doc[..i], resolve)
    {
      var href := if doc[i].Some? then doc[i].value else "";
      assert doc[..i + 1][..i] == doc[..i];
      if Contains(href, FilmPath) {
        links := links + [StripQueryFragment(resolve(href))];
      }
      i := i + 1;
    }
    assert doc[..i] == doc;
  }

  /** When URL resolution yields no line terminator, no link kept has a
      query or a fragment. */
  lemma PageLinksClean(doc: DiaryLinks, resolve: string -> string)
    requires forall h :: NoLineTerminator(resolve(h))
    ensures forall l :: l in PageLinks(doc, resolve) ==> NoQueryOrFragment(l)
  {
    PageLinksFromFilmHrefs(doc, resolve);
  }

  /** What one diary page yields: its film links. */
  function LinksOf(resolve: string -> string): DiaryLinks -> seq<string> {
    (doc: DiaryLinks) => PageLinks(doc, resolve)
  }

  /** collectDiaryFilmLinks(user, maxPages): pages 1 to `maxPages` through
      getHTML with three retries, until a page has no film link. */
  method CollectDiaryFilmLinks(net: Net<DiaryLinks>, user: string, maxPages: nat,
                               encode: string -> string, resolve: string -> string)
    returns (c: Paged<DiaryLinks, string>)
    ensures c == Paginate(net, DiaryPageUrl(user, encode), LinksOf(resolve), Retries, BlockPhrases, 1, maxPages, [])
  {
    ghost var url := DiaryPageUrl(user, encode);
    ghost var read := LinksOf(resolve);
    var n := net;
    var hrefs: seq<string> := [];
    var page := 1;
    while page <= maxPages
      invariant 1 <= page
      invariant Paginate(n, url, read, Retries, BlockPhrases, page, maxPages, hrefs)
                == Paginate(net, url, read, Retries, BlockPhrases, 1, maxPages, [])
      decreases maxPages + 1 - page
    {
      var u := DiaryUrl(user, encode, page);
      var f := GetHtml(n, u, Retries, BlockPhrases);
      if f.result.Err? {
        return Paged(Err(ErrorMessage(f.result.error, u)), f.net);
      }
      var pageLinks := ReadPageLinks(f.result.value.doc, resolve);
      n := f.net;
      if pageLinks == [] {
        return Paged(Ok(hrefs), n);
      }
      hrefs := hrefs + pageLinks;
      page := page + 1;
    }
    return Paged(Ok(hrefs), n);
  }

  /** Every link collected has nothing from a '?' or '#' on. */
  lemma CollectedLinksClean(net: Net<DiaryLinks>, user: string, maxPages: nat,
                            encode: string -> string, resolve: string -> string)
    requires forall h :: NoLineTerminator(resolve(h))
    ensures var c := Paginate(net, DiaryPageUrl(user, encode), LinksOf(resolve), Retries, BlockPhrases, 1, maxPages, []);
            c.result.Ok? ==> forall l :: l in c.result.value ==> NoQueryOrFragment(l)
  {
    var read := LinksOf(resolve);
    PaginateItemsFromScript(net, DiaryPageUrl(user, encode), read, Retries, BlockPhrases, 1, maxPages, []);
    forall j | 0 <= j < |net.script| ensures forall l :: l in read(net.script[j].doc) ==> NoQueryOrFragment(l) {
      PageLinksClean(net.script[j].doc, resolve);
    }
  }

  /** collectDiaryFilmLinks asks for diary pages 1, 2, ... in order, each
      through getHTML on what the page before left; it goes on only after a
      page with film links, and stops after a page without any or after
      page `maxPages`. The links are those of every page read, in page
      order. */
  lemma CollectedLinksRead(net: Net<DiaryLinks>, user: string, maxPages: nat,
                           encode: string -> string, resolve: string -> string)
    ensures var url := DiaryPageUrl(user, encode);
            var read := LinksOf(resolve);
            var c := Paginate(net, url, read, Retries, BlockPhrases, 1, maxPages, []);
            var fs := Pages(net, url, read, Retries, BlockPhrases, 1, maxPages);
            var ks := TriesOf(net, fs);
            && |fs| <= maxPages && (1 <= maxPages ==> 1 <= |fs|)
            && Chained(net, fs, url, 1, Retries, BlockPhrases)
            && c.net.log == net.log + Runs(url, 1, ks)
            && (forall i :: 0 <= i < |ks| ==> 1 <= ks[i] <= Retries + 1)
            && (forall i :: 0 <= i < |fs| - 1 ==> Full(fs[i], read))
            && (c.result.Ok? ==> forall i :: 0 <= i < |fs| ==> fs[i].result.Ok?)
            && (c.result.Ok? ==> c.result.value == ItemsOf(fs, read))
            && (c.result.Ok? && fs != [] ==> |fs| == maxPages || read(fs[|fs| - 1].result.value.doc) == [])
  {
    var url := DiaryPageUrl(user, encode);
    var read := LinksOf(resolve);
    PaginatePages(net, url, read, Retries, BlockPhrases, 1, maxPages);
    PaginateOutcome(net, url, read, Retries, BlockPhrases, 1, maxPages, []);
    PaginateRequests(net, url, read, Retries, BlockPhrases, 1, maxPages, []);
    assert [] + ItemsOf(Pages(net, url, read, Retries, BlockPhrases, 1, maxPages), read)
        == ItemsOf(Pages(net, url, read, Retries, BlockPhrases, 1, maxPages), read);
  }

  // -------------------------------------------------------------- rewatches

  /** The key a link is counted under, "/film/<slug>" after
      `h.match(/\/film\/([^/]+)\/?/)`; None when the link has no film segment
      and is skipped. */
  function FilmKey(href: string): (k: Option<string>)
    ensures k.Some? <==> FilmSegment(href).Some?
  {
    match FilmSegment(href)
    case None => None
    case Some(seg) => Some(FilmPath + seg)
  }

  /** A key is its own key, with the same film segment as the link it came
      from: two links to one film, with or without a trailing part, count
      together. */
  lemma FilmKeyIsKey(href: string)
    requires FilmKey(href).Some?
    ensures FilmSegment(FilmKey(href).value) == FilmSegment(href)
    ensures FilmKey(FilmKey(href).value) == FilmKey(href)
  {
    var seg := FilmSegment(href).value;
    FilmSegmentOfPath(seg, []);
    assert FilmPath + seg + [] == FilmPath + seg;
  }

  /** The key of every diary entry, in diary order. */
  function EntryKeys(hrefs: seq<string>): (es: seq<Option<string>>)
    ensures |es| == |hrefs| && forall i :: 0 <= i < |hrefs| ==> es[i] == FilmKey(hrefs[i])
  {
    seq(|hrefs|, i requires 0 <= i < |hrefs| => FilmKey(hrefs[i]))
  }

  /** How many entries are of the film keyed `k`. */
  function Count(es: seq<Option<string>>, k: string): (n: nat)
    ensures n <= |es|
  {
    if es == [] then 0
    else Count(es[..|es| - 1], k) + (if es[|es| - 1] == Some(k) then 1 else 0)
  }

  /** `Array.from(counts.keys())`: the films of the entries, each once, in the
      order they were first met (a Map keeps insertion order). */
  function Keys(es: seq<Option<string>>): seq<string> {
    if es == [] then []
    else
      var ks := Keys(es[..|es| - 1]);
      var key := es[|es| - 1];
      if key.Some? && key.value !in ks then ks + [key.value] else ks
  }

  predicate Distinct(ks: seq<string>) { forall i, j :: 0 <= i < j < |ks| ==> ks[i] != ks[j] }

  /** Each film is listed once, and exactly the films with an entry are. */
  lemma {:induction false} KeysAreCounted(es: seq<Option<string>>)
    ensures Distinct(Keys(es))
    ensures forall k :: k in Keys(es) <==> Count(es, k) > 0
    decreases |es|
  {
    if es != [] {
      KeysAreCounted(es[..|es| - 1]);
    }
  }

  /** Entries met later never reorder the films met earlier. */
  lemma {:induction false} KeysKeepOrder(a: seq<Option<string>>, b: seq<Option<string>>)
    ensures Keys(a) <= Keys(a + b)
    decreases |b|
  {
    if b == [] {
      assert a + b == a;
    } else {
      var b' := b[..|b| - 1];
      KeysKeepOrder(a, b');
      assert (a + b)[..|a + b| - 1] == a + b';
    }
  }

  /** One more entry adds its film at the end if it is new. */
  lemma KeysStep(es: seq<Option<string>>, e: Option<string>)
    ensures Keys(es + [e]) == if e.Some? && e.value !in Keys(es) then Keys(es) + [e.value] else Keys(es)
    ensures e.Some? ==> (e.value in Keys(es) <==> Count(es, e.value) > 0)
  {
    assert (es + [e])[..|es|] == es;
    KeysAreCounted(es);
  }

  /** One more entry counts once for its film and for no other. */
  lemma CountStep(es: seq<Option<string>>, e: Option<string>, k: string)
    ensures Count(es + [e], k) == Count(es, k) + (if e == Some(k) then 1 else 0)
  {
    assert (es + [e])[..|es|] == es;
  }

  /** What the counting loop keeps: the films met so far, in order, and the
      count of each. */
  ghost predicate Counted(es: seq<Option<string>>, slugs: seq<string>, counts: map<string, nat>) {
    && slugs == Keys(es)
    && (forall k :: k in counts <==> k in slugs)
    && (forall k :: k in counts ==> counts[k] == Count(es, k))
  }

  /** One entry of the counting loop: a new film is appended with count 1,
      a known one gets one more, and an entry without a film changes
      nothing. */
  lemma CountedStep(es: seq<Option<string>>, e: Option<string>, slugs: seq<string>, counts: map<string, nat>,
                    slugs': seq<string>, counts': map<string, nat>)
    requires Counted(es, slugs, counts)
    requires e.None? ==> slugs' == slugs && counts' == counts
    requires e.Some? && e.value in counts ==> slugs' == slugs && counts' == counts[e.value := counts[e.value] + 1]
    requires e.Some? && e.value !in counts ==> slugs' == slugs + [e.value] && counts' == counts[e.value := 1]
    ensures Counted(es + [e], slugs', counts')
  {
    KeysStep(es, e);
    forall k | k in counts' ensures counts'[k] == Count(es + [e], k) {
      CountStep(es, e, k);
    }
  }

  /** The `for (const h of hrefs)` loop that fills `counts`; `slugs` is the
      insertion order of the Map. */
  method CountRewatches(hrefs: seq<string>) returns (slugs: seq<string>, counts: map<string, nat>)
    ensures slugs == Keys(EntryKeys(hrefs))
    ensures forall k :: k in counts <==> k in slugs
    ensures forall k :: k in counts ==> counts[k] == Count(EntryKeys(hrefs), k)
  {
    ghost var es := EntryKeys(hrefs);
    slugs := [];
    counts := map[];
    for i := 0 to |hrefs|
      invariant Counted(es[..i], slugs, counts)
    {
      ghost var slugsBefore, countsBefore := slugs, counts;
      var key := FilmKey(hrefs[i]);
      if key.Some? {
        var slug := key.value;
        if slug in counts {
          counts := counts[slug := counts[slug] + 1];
        } else {
          slugs := slugs + [slug];
          counts := counts[slug := 1];
        }
      }
      CountedStep(es[..i], es[i], slugsBefore, countsBefore, slugs, counts);
      assert es[..i + 1] == es[..i] + [es[i]];
    }
    assert es[..|hrefs|] == es;
  }

  // ------------------------------------------------------------ the total

  /** `m.get(k) || 0`. */
  function Lookup(m: map<string, nat>, k: string): (v: nat)
    ensures k !in m ==> v == 0
    ensures k in m ==> v == m[k]
  {
    if k in m then m[k] else 0
  }

  /** The diary's total: every entry adds the runtime `rt` holds for its
      film, so a film logged three times counts three times; entries without
      a film add nothing. */
  function EntryMinutes(es: seq<Option<string>>, rt: map<string, nat>): nat {
    if es == [] then 0
    else
      var key := es[|es| - 1];
      EntryMinutes(es[..|es| - 1], rt) + (if key.Some? then Lookup(rt, key.value) else 0)
  }

  /** `Σ (cache.get(slug) || 0) * cnt` over the films `ks`. */
  function FilmMinutes(ks: seq<string>, counts: map<string, nat>, rt: map<string, nat>): nat {
    if ks == [] then 0
    else FilmMinutes(ks[..|ks| - 1], counts, rt) + Lookup(rt, ks[|ks| - 1]) * Lookup(counts, ks[|ks| - 1])
  }

  /** The same sum with each film's count taken from the entries. */
  ghost function ByFilm(ks: seq<string>, es: seq<Option<string>>, rt: map<string, nat>): nat {
    if ks == [] then 0
    else ByFilm(ks[..|ks| - 1], es, rt) + Lookup(rt, ks[|ks| - 1]) * Count(es, ks[|ks| - 1])
  }

  /** A map holding the entry counts of the films summed gives that sum. */
  lemma {:induction false} FilmMinutesByFilm(ks: seq<string>, es: seq<Option<string>>, counts: map<string, nat>, rt: map<string, nat>)
    requires forall i :: 0 <= i < |ks| ==> Lookup(counts, ks[i]) == Count(es, ks[i])
    ensures FilmMinutes(ks, counts, rt) == ByFilm(ks, es, rt)
    decreases |ks|
  {
    if ks != [] {
      var init := ks[..|ks| - 1];
      assert forall i :: 0 <= i < |init| ==> init[i] == ks[i];
      FilmMinutesByFilm(init, es, counts, rt);
      assert Lookup(counts, ks[|ks| - 1]) == Count(es, ks[|ks| - 1]);
    }
  }

  lemma ByFilmSnoc(ks: seq<string>, k: string, es: seq<Option<string>>, rt: map<string, nat>)
    ensures ByFilm(ks + [k], es, rt) == ByFilm(ks, es, rt) + Lookup(rt, k) * Count(es, k)
  {
    assert (ks + [k])[..|ks|] == ks;
  }

  lemma EntryMinutesSnoc(es: seq<Option<string>>, e: Option<string>, rt: map<string, nat>)
    ensures EntryMinutes(es + [e], rt) == EntryMinutes(es, rt) + (if e.Some? then Lookup(rt, e.value) else 0)
  {
    assert (es + [e])[..|es|] == es;
  }

  lemma MulStep(r: nat, c: nat, d: nat)
    requires d <= 1
    ensures r * (c + d) == r * c + (if d == 1 then r else 0)
  {
  }

  /** The arithmetic of one bump: the last film's term grows by its runtime
      when the new entry is that film, the rest by `x`. */
  lemma BumpSum(s: nat, s': nat, t: nat, t': nat, r: nat, c: nat, d: nat, x: nat)
    requires d <= 1
    requires s == t + r * c && s' == t' + r * (c + d) && t' == t + x
    ensures s' == s + x + (if d == 1 then r else 0)
  {
    MulStep(r, c, d);
  }

  /** Counting one more entry adds its film's runtime once, if that film is
      among `ks`, listed once. */
  lemma {:induction false} ByFilmBump(ks: seq<string>, es: seq<Option<string>>, e: Option<string>, rt: map<string, nat>)
    requires Distinct(ks)
    ensures ByFilm(ks, es + [e], rt) == ByFilm(ks, es, rt) + (if e.Some? && e.value in ks then Lookup(rt, e.value) else 0)
    decreases |ks|
  {
    if ks != [] {
      var init := ks[..|ks| - 1];
      var last := ks[|ks| - 1];
      assert ks == init + [last];
      assert Distinct(init) && last !in init;
      ByFilmBump(init, es, e, rt);
      ByFilmSnoc(init, last, es, rt);
      ByFilmSnoc(init, last, es + [e], rt);
      CountStep(es, e, last);
      var d := if e == Some(last) then 1 else 0;
      var x := if e.Some? && e.value in init then Lookup(rt, e.value) else 0;
      BumpSum(ByFilm(ks, es, rt), ByFilm(ks, es + [e], rt), ByFilm(init, es, rt), ByFilm(init, es + [e], rt),
              Lookup(rt, last), Count(es, last), d, x);
    }
  }

  /** The source's `runtime * rewatch count` over the films is the sum over
      the diary entries. */
  lemma {:induction false} ByFilmIsEntryMinutes(es: seq<Option<string>>, rt: map<string, nat>)
    ensures ByFilm(Keys(es), es, rt) == EntryMinutes(es, rt)
    decreases |es|
  {
    if es != [] {
      var init := es[..|es| - 1];
      assert es == init + [es[|es| - 1]];
      ByFilmIsEntryMinutes(init, rt);
      ByFilmStep(init, es[|es| - 1], rt);
    }
  }

  lemma ByFilmStep(es: seq<Option<string>>, e: Option<string>, rt: map<string, nat>)
    requires ByFilm(Keys(es), es, rt) == EntryMinutes(es, rt)
    ensures ByFilm(Keys(es + [e]), es + [e], rt) == EntryMinutes(es + [e], rt)
  {
    var es' := es + [e];
    EntryMinutesSnoc(es, e, rt);
    KeysStep(es, e);
    KeysAreCounted(es);
    ByFilmBump(Keys(es), es, e, rt);
    if e.Some? && e.value !in Keys(es) {
      var v := e.value;
      ByFilmSnoc(Keys(es), v, es', rt);
      CountStep(es, e, v);
      assert Count(es', v) == 1;
      MulStep(Lookup(rt, v), 0, 1);
      assert ByFilm(Keys(es'), es', rt) == ByFilm(Keys(es), es', rt) + Lookup(rt, v);
    } else {
      assert Keys(es') == Keys(es);
    }
  }

  /** The counts CountRewatches builds, weighted by runtime, add up to the
      sum over the diary entries. */
  lemma TotalIsEntryMinutes(es: seq<Option<string>>, slugs: seq<string>, counts: map<string, nat>, rt: map<string, nat>)
    requires slugs == Keys(es)
    requires forall k :: k in counts <==> k in slugs
    requires forall k :: k in counts ==> counts[k] == Count(es, k)
    ensures FilmMinutes(slugs, counts, rt) == EntryMinutes(es, rt)
  {
    forall i | 0 <= i < |slugs| ensures Lookup(counts, slugs[i]) == Count(es, slugs[i]) {
      assert slugs[i] in counts;
    }
    FilmMinutesByFilm(slugs, es, counts, rt);
    ByFilmIsEntryMinutes(es, rt);
  }

  /** The total is at most the number of entries times the longest runtime;
      with every runtime 1 it is the sum of the counts, so that sum is at
      most `logs`. */
  lemma {:induction false} EntryMinutesBound(es: seq<Option<string>>, rt: map<string, nat>, m: nat)
    requires forall k :: k in rt ==> rt[k] <= m
    ensures EntryMinutes(es, rt) <= m * |es|
    decreases |es|
  {
    if es != [] {
      var init := es[..|es| - 1];
      EntryMinutesBound(init, rt, m);
      MulStep(m, |init|, 1);
    }
  }

  /** The sum of the counts of the films `ks`. */
  function CountSum(ks: seq<string>, counts: map<string, nat>): nat {
    if ks == [] then 0 else CountSum(ks[..|ks| - 1], counts) + Lookup(counts, ks[|ks| - 1])
  }

  /** Weighted by runtime 1, the total is the sum of the counts. */
  lemma {:induction false} FilmMinutesOfOnes(ks: seq<string>, counts: map<string, nat>, rt: map<string, nat>)
    requires forall i :: 0 <= i < |ks| ==> Lookup(rt, ks[i]) == 1
    ensures FilmMinutes(ks, counts, rt) == CountSum(ks, counts)
    decreases |ks|
  {
    if ks != [] {
      var init := ks[..|ks| - 1];
      assert forall i :: 0 <= i < |init| ==> init[i] == ks[i];
      FilmMinutesOfOnes(init, counts, rt);
      assert Lookup(rt, ks[|ks| - 1]) == 1;
    }
  }

  /** The rewatch counts CountRewatches builds add up to at most the number
      of links, `logs`. */
  lemma CountsAtMostLogs(hrefs: seq<string>, slugs: seq<string>, counts: map<string, nat>)
    requires slugs == Keys(EntryKeys(hrefs))
    requires forall k :: k in counts <==> k in slugs
    requires forall k :: k in counts ==> counts[k] == Count(EntryKeys(hrefs), k)
    ensures CountSum(slugs, counts) <= |hrefs|
  {
    var es := EntryKeys(hrefs);
    var ones := map k | k in slugs :: 1;
    forall i | 0 <= i < |slugs| ensures Lookup(ones, slugs[i]) == 1 {
      assert slugs[i] in ones;
    }
    FilmMinutesOfOnes(slugs, counts, ones);
    TotalIsEntryMinutes(es, slugs, counts, ones);
    EntryMinutesBound(es, ones, 1);
  }

  /** Two entries of one film and one of another count the first film's
      runtime twice, and list the two films once each in order. */
  lemma RewatchExample(a: string, b: string)
    requires a != b
    ensures var es := [Some(a), Some(a), Some(b)];
            && Keys(es) == [a, b]
            && EntryMinutes(es, map[a := 100, b := 50]) == 250
  {
    var es := [Some(a), Some(a), Some(b)];
    var rt := map[a := 100, b := 50];
    assert es[..2] == [Some(a), Some(a)] && es[..2][..1] == [Some(a)] && es[..2][..1][..0] == [];
    assert Keys([Some(a)]) == [a];
    assert Keys([Some(a), Some(a)]) == [a];
    assert EntryMinutes([Some(a)], rt) == 100;
    assert EntryMinutes([Some(a), Some(a)], rt) == 200;
  }

  /** The `for (const [slug, cnt] of counts.entries())` loop. */
  method TotalMinutes(slugs: seq<string>, counts: map<string, nat>, cache: map<string, nat>) returns (total: nat)
    ensures total == FilmMinutes(slugs, counts, cache)
  {
    total := 0;
    for i := 0 to |slugs|
      invariant total == FilmMinutes(slugs[..i], counts, cache)
    {
      assert slugs[..i + 1][..i] == slugs[..i];
      var cnt := if slugs[i] in counts then counts[slugs[i]] else 0;
      var mins := if slugs[i] in cache then cache[slugs[i]] else 0;
      total := total + mins * cnt;
    }
    assert slugs[..|slugs|] == slugs;
  }

  // --------------------------------------------------------- the handler

  /** getRuntimeMinutes(filmUrl) under the worker's try/catch: the runtime
      sniffed from the page getHTML returns, 0 when getHTML throws or no
      runtime is found. */
  function RuntimeOf(net: Net<FilmPage>, url: string): nat {
    var f := Attempts(net, url, 0, Retries, BlockPhrases);
    if f.result.Ok? then SniffRuntimeMinutes(f.result.value.doc).GetOr(0) else 0
  }

  /** A film page served at once decides the runtime. */
  lemma RuntimeOfFirstPage(net: Net<FilmPage>, url: string)
    requires |net.log| < |net.script| && !Refused(net.script[|net.log|], BlockPhrases)
    ensures RuntimeOf(net, url) == SniffRuntimeMinutes(net.script[|net.log|].doc).GetOr(0)
  {
  }

  /** The runtime of every film, each film's page fetched once: `films(slug)`
      is what the network answers for that film's page. */
  function RuntimeCache(slugs: seq<string>, films: string -> Net<FilmPage>, resolve: string -> string): (cache: map<string, nat>)
    ensures forall k :: k in cache <==> k in slugs
  {
    map k | k in slugs :: RuntimeOf(films(k), resolve(k + "/"))
  }

  /** The runWithConcurrency pass that fills `cache`: a film already in the
      cache is not fetched again. `fetched` lists the films whose page was
      fetched, in order: every film once and no film twice. */
  method FetchRuntimes(slugs: seq<string>, films: string -> Net<FilmPage>, resolve: string -> string)
    returns (cache: map<string, nat>, ghost fetched: seq<string>)
    ensures cache == RuntimeCache(slugs, films, resolve)
    ensures forall k :: k in fetched <==> k in slugs
    ensures forall i, j :: 0 <= i < j < |fetched| ==> fetched[i] != fetched[j]
  {
    cache := map[];
    fetched := [];
    for i := 0 to |slugs|
      invariant forall k :: k in cache <==> k in slugs[..i]
      invariant forall k :: k in fetched <==> k in slugs[..i]
      invariant forall p, q :: 0 <= p < q < |fetched| ==> fetched[p] != fetched[q]
      invariant forall k :: k in cache ==> cache[k] == RuntimeOf(films(k), resolve(k + "/"))
    {
      assert slugs[..i + 1] == slugs[..i] + [slugs[i]];
      var slug := slugs[i];
      var filmUrl := resolve(slug + "/");
      if slug !in cache {
        var f := GetHtml(films(slug), filmUrl, Retries, BlockPhrases);
        fetched := fetched + [slug];
        var mins := if f.result.Ok? then SniffRuntimeMinutes(f.result.value.doc).GetOr(0) else 0;
        cache := cache[slug := mins];
      }
    }
    assert slugs[..|slugs|] == slugs;
  }

  /** The JSON the handler answers with. */
  datatype Reply =
    | BadRequest(error: string)            // 400
    | Failure(error: string)               // 500, the message thrown
    | Totals(user: string, logs: nat, minutes: nat)  // 200

  /** The handler: `user` and `maxPages` are the query parameters, `diary`
      the network as the diary pages are fetched, `films(slug)` as the page
      of that film is. */
  function Watchtime(user: Option<string>, maxPages: Option<string>, diary: Net<DiaryLinks>,
                     films: string -> Net<FilmPage>, encode: string -> string, resolve: string -> string): Reply
  {
    match NormUser(user)
    case None => BadRequest("Missing or invalid ?user")
    case Some(u) =>
      var c := Paginate(diary, DiaryPageUrl(u, encode), LinksOf(resolve), Retries, BlockPhrases,
                        1, MaxPagesParam(maxPages, DefaultMaxPages), []);
      match c.result
      case Err(msg) => Failure(msg)
      case Ok(hrefs) =>
        var es := EntryKeys(hrefs);
        Totals(u, |hrefs|, EntryMinutes(es, RuntimeCache(Keys(es), films, resolve)))
  }

  method Handler(user: Option<string>, maxPages: Option<string>, diary: Net<DiaryLinks>,
                 films: string -> Net<FilmPage>, encode: string -> string, resolve: string -> string)
    returns (reply: Reply)
    ensures reply == Watchtime(user, maxPages, diary, films, encode, resolve)
  {
    var u := NormUser(user);
    if u.None? {
      return BadRequest("Missing or invalid ?user");
    }
    var pages := MaxPagesParam(maxPages, DefaultMaxPages);
    var c := CollectDiaryFilmLinks(diary, u.value, pages, encode, resolve);
    if c.result.Err? {
      return Failure(c.result.error);
    }
    var hrefs := c.result.value;
    var slugs, counts := CountRewatches(hrefs);
    var cache, fetched := FetchRuntimes(slugs, films, resolve);
    var total := TotalMinutes(slugs, counts, cache);
    TotalIsEntryMinutes(EntryKeys(hrefs), slugs, counts, cache);
    return Totals(u.value, |hrefs|, total);
  }

  /** 400 exactly for a user normUser refuses; a 200 answer is for the
      normalised user. */
  lemma WatchtimeReplyUser(user: Option<string>, maxPages: Option<string>, diary: Net<DiaryLinks>,
                           films: string -> Net<FilmPage>, encode: string -> string, resolve: string -> string)
    ensures var r := Watchtime(user, maxPages, diary, films, encode, resolve);
            && (r.BadRequest? <==> NormUser(user).None?)
            && (r.Totals? ==> NormUser(user) == Some(r.user) && ValidUser(r.user))
  {
  }

  /** When no film runs longer than `m` minutes, the total is at most `m`
      minutes per logged entry. */
  lemma WatchtimeBound(user: Option<string>, maxPages: Option<string>, diary: Net<DiaryLinks>,
                       films: string -> Net<FilmPage>, encode: string -> string, resolve: string -> string, m: nat)
    requires forall k :: RuntimeOf(films(k), resolve(k + "/")) <= m
    ensures var r := Watchtime(user, maxPages, diary, films, encode, resolve);
            r.Totals? ==> r.minutes <= m * r.logs
  {
    var r := Watchtime(user, maxPages, diary, films, encode, resolve);
    if r.Totals? {
      var u := NormUser(user).value;
      var c := Paginate(diary, DiaryPageUrl(u, encode), LinksOf(resolve), Retries, BlockPhrases,
                        1, MaxPagesParam(maxPages, DefaultMaxPages), []);
      var hrefs := c.result.value;
      var es := EntryKeys(hrefs);
      var cache := RuntimeCache(Keys(es), films, resolve);
      EntryMinutesBound(es, cache, m);
    }
  }
}
