/** The upstream site as the scraper meets it. A request is answered by the
    next response of a script fixed in advance; a request past the end of the
    script is a fetch that rejects (a network error, which the JavaScript code
    sees as a thrown exception). Every request is recorded in the log, in
    order. The `doc` of a response is what the HTML parser makes of its `html`. */
module Net {
  import opened Text

  datatype Response<D> = Response(ok: bool, status: int, html: string, doc: D)

  datatype Net<D> = Net(script: seq<Response<D>>, log: seq<string>) {
    /** What the next request will get. */
    function Next(): Option<Response<D>> {
      if |log| < |script| then Some(script[|log|]) else None
    }
    /** The network after a request for `url`. */
    function After(url: string): (n: Net<D>)
      ensures n.script == script && n.log == log + [url]
    {
      Net(script, log + [url])
    }
  }

  function Repeat(url: string, k: nat): (r: seq<string>)
    ensures |r| == k && forall j :: 0 <= j < k ==> r[j] == url
  {
    seq(k, _ => url)
  }

  /** BLOCK_RE of api/watchtime.js, api/ratings-timeline.js and api/avatar.js. */
  const BlockPhrases: seq<string> :=
    ["Just a moment", "Attention Required", "cloudflare", "Please enable cookies", "Checking your browser"]

  /** BLOCK_RE of api/diary.js, which lacks "Checking your browser". */
  const DiaryBlockPhrases: seq<string> :=
    ["Just a moment", "Attention Required", "cloudflare", "Please enable cookies"]

  /** `BLOCK_RE.test(html)` for the alternation of `phrases`: the page is an
      anti-bot interstitial. */
  predicate Blocked(html: string, phrases: seq<string>) { ContainsAnyIgnoreCase(html, phrases) }

  /** A response getHTML refuses: a block page, or a non-2xx status. */
  predicate Refused<D>(r: Response<D>, phrases: seq<string>) { Blocked(r.html, phrases) || !r.ok }

  datatype FetchError = BlockedError | HttpError(status: int) | NetworkError

  /** The text of the Error that getHTML throws for `e`. */
  function ErrorMessage(e: FetchError, url: string): string {
    match e
    case BlockedError => "Blocked by Cloudflare/anti-bot"
    case HttpError(s) => "HTTP " + IntToString(s) + " for " + url
    case NetworkError => "fetch failed"
  }

  /** The sleep after refused response `r` at attempt `i`. */
  function Delay<D>(r: Response<D>, i: nat, ps: seq<string>): nat {
    if Blocked(r.html, ps) then 800 + 400 * i else 400
  }

  /** What a call of getHTML ends with: the accepted response or the error it
      throws, the network afterwards, and the sleeps it took, in order. */
  datatype Fetched<D> = Fetched(result: Result<Response<D>, FetchError>, net: Net<D>, delays: seq<nat>)

  /** getHTML(url, retries) from attempt `i` on. */
  function Attempts<D>(net: Net<D>, url: string, i: nat, retries: nat, ps: seq<string>): Fetched<D>
    requires i <= retries
    decreases retries - i
  {
    var after := net.After(url);
    match net.Next()
    case None => Fetched(Err(NetworkError), after, [])
    case Some(res) =>
      if !Refused(res, ps) then Fetched(Ok(res), after, [])
      else if i == retries then
        Fetched(Err(if Blocked(res.html, ps) then BlockedError else HttpError(res.status)), after, [])
      else
        var rest := Attempts(after, url, i + 1, retries, ps);
        Fetched(rest.result, rest.net, [Delay(res, i, ps)] + rest.delays)
  }

  /** getHTML(url, retries): up to retries + 1 attempts; the block test comes
      before the status test; the last attempt's failure is thrown. */
  method GetHtml<D>(net: Net<D>, url: string, retries: nat, ps: seq<string>) returns (f: Fetched<D>)
    ensures f == Attempts(net, url, 0, retries, ps)
  {
    ghost var goal := Attempts(net, url, 0, retries, ps);
    var n := net;
    var delays: seq<nat> := [];
    var i := 0;
    while true
      invariant i <= retries
      invariant goal.result == Attempts(n, url, i, retries, ps).result
      invariant goal.net == Attempts(n, url, i, retries, ps).net
      invariant goal.delays == delays + Attempts(n, url, i, retries, ps).delays
      decreases retries - i
    {
      var res := n.Next();
      ghost var before := n;
      n := n.After(url);
      if res.None? {
        return Fetched(Err(NetworkError), n, delays);
      }
      var r := res.value;
      if Blocked(r.html, ps) {
        if i == retries {
          return Fetched(Err(BlockedError), n, delays);
        }
        assert delays + Attempts(before, url, i, retries, ps).delays
            == (delays + [800 + 400 * i]) + Attempts(n, url, i + 1, retries, ps).delays;
        delays := delays + [800 + 400 * i];
        i := i + 1;
        continue;
      }
      if !r.ok {
        if i == retries {
          return Fetched(Err(HttpError(r.status)), n, delays);
        }
        assert delays + Attempts(before, url, i, retries, ps).delays
            == (delays + [400]) + Attempts(n, url, i + 1, retries, ps).delays;
        delays := delays + [400];
        i := i + 1;
        continue;
      }
      return Fetched(Ok(r), n, delays);
    }
  }

  /** How many requests getHTML makes from attempt `i` on. */
  function Tries<D>(net: Net<D>, url: string, i: nat, retries: nat, ps: seq<string>): int
    requires i <= retries
  {
    |Attempts(net, url, i, retries, ps).net.log| - |net.log|
  }

  /** From attempt `i` on, getHTML makes between one and retries + 1 - i
      requests, all for `url`, leaves the script alone, and sleeps once between
      two consecutive requests. */
  lemma {:induction false} AttemptsRequests<D>(net: Net<D>, url: string, i: nat, retries: nat, ps: seq<string>)
    requires i <= retries
    ensures var f := Attempts(net, url, i, retries, ps);
            var k := Tries(net, url, i, retries, ps);
            && f.net.script == net.script
            && 1 <= k <= retries + 1 - i
            && f.net.log == net.log + Repeat(url, k)
            && |f.delays| == k - 1
    decreases retries - i
  {
    var after := net.After(url);
    if net.Next().Some? && Refused(net.Next().value, ps) && i < retries {
      AttemptsRequests(after, url, i + 1, retries, ps);
      var k := Tries(net, url, i, retries, ps);
      assert after.log + Repeat(url, k - 1) == net.log + Repeat(url, k);
    }
  }

  /** `r` was refused at attempt `attempt`, and `d` is the sleep that followed. */
  predicate RefusedThenSlept<D>(r: Response<D>, d: nat, attempt: nat, ps: seq<string>) {
    Refused(r, ps) && d == Delay(r, attempt, ps)
  }

  /** Every response before the last was refused, and each refusal was
      followed by a sleep of 800 + 400 * i after a block page and 400 after an
      HTTP error, `i` being the number of the attempt. */
  lemma {:induction false} AttemptsRefusals<D>(net: Net<D>, url: string, i: nat, retries: nat, ps: seq<string>, f: Fetched<D>)
    requires i <= retries && f == Attempts(net, url, i, retries, ps)
    ensures f.delays != [] ==> |net.log| + |f.delays| <= |net.script|
    ensures forall j :: 0 <= j < |f.delays| ==>
              RefusedThenSlept(net.script[|net.log| + j], f.delays[j], i + j, ps)
    decreases retries - i
  {
    var after := net.After(url);
    if net.Next().Some? && Refused(net.Next().value, ps) && i < retries {
      var rest := Attempts(after, url, i + 1, retries, ps);
      AttemptsRefusals(after, url, i + 1, retries, ps, rest);
      var c := |net.log|;
      assert f.delays == [Delay(net.script[c], i, ps)] + rest.delays;
      forall j | 0 <= j < |f.delays|
        ensures RefusedThenSlept(net.script[c + j], f.delays[j], i + j, ps)
      {
        if j == 0 {
          assert net.script[c] == net.Next().value;
        } else {
          assert f.delays[j] == rest.delays[j - 1];
          assert |after.log| + (j - 1) == c + j;
        }
      }
    }
  }

  /** The outcome is decided by the last response: it is returned when it is
      accepted; "Blocked" and "HTTP <status>" are thrown only when the final
      allowed attempt was refused, the block test coming first; a network
      error only when the script ran out. */
  lemma {:induction false} AttemptsOutcome<D>(net: Net<D>, url: string, i: nat, retries: nat, ps: seq<string>)
    requires i <= retries
    ensures var f := Attempts(net, url, i, retries, ps);
            var last := |net.log| + Tries(net, url, i, retries, ps) - 1;
            && (f.result.Ok? ==>
                  0 <= last < |net.script| && f.result.value == net.script[last] && !Refused(f.result.value, ps))
            && (f.result == Err(NetworkError) ==> last >= |net.script|)
            && (f.result == Err(BlockedError) ==>
                  Tries(net, url, i, retries, ps) == retries + 1 - i
                  && 0 <= last < |net.script| && Blocked(net.script[last].html, ps))
            && (f.result.Err? && f.result.error.HttpError? ==>
                  Tries(net, url, i, retries, ps) == retries + 1 - i
                  && 0 <= last < |net.script| && !Blocked(net.script[last].html, ps) && !net.script[last].ok
                  && f.result.error.status == net.script[last].status)
    decreases retries - i
  {
    var after := net.After(url);
    if net.Next().Some? && Refused(net.Next().value, ps) && i < retries {
      AttemptsOutcome(after, url, i + 1, retries, ps);
      AttemptsRequests(after, url, i + 1, retries, ps);
      assert Tries(net, url, i, retries, ps) == Tries(after, url, i + 1, retries, ps) + 1;
    }
  }

  // ------------------------------------------------------------ pagination

  /** What a page loop ends with: the items gathered, or the message of the
      error it threw, and the network afterwards. */
  datatype Paged<D, T> = Paged(result: Result<seq<T>, string>, net: Net<D>)

  /** The page loop of collectDiaryFilmLinks (api/watchtime.js) and of
      collectDatedRatings (api/ratings-timeline.js) from page `page` on, `acc`
      holding the items of the earlier pages: page `url(page)` is fetched
      with getHTML(url, retries) and `read` turns its document into items; an
      error ends the loop by throwing, and so do a page without items and
      passing `maxPages`. */
  function Paginate<D, T>(net: Net<D>, url: nat -> string, read: D -> seq<T>, retries: nat, ps: seq<string>,
                          page: nat, maxPages: nat, acc: seq<T>): Paged<D, T>
    decreases maxPages + 1 - page, 1
  {
    if page > maxPages then Paged(Ok(acc), net)
    else Visit(Attempts(net, url(page), 0, retries, ps), url, read, retries, ps, page, maxPages, acc)
  }

  /** The loop once page `page` has been fetched, with outcome `f`. */
  function Visit<D, T>(f: Fetched<D>, url: nat -> string, read: D -> seq<T>, retries: nat, ps: seq<string>,
                       page: nat, maxPages: nat, acc: seq<T>): Paged<D, T>
    requires page <= maxPages
    decreases maxPages + 1 - page, 0
  {
    match f.result
    case Err(e) => Paged(Err(ErrorMessage(e, url(page))), f.net)
    case Ok(res) =>
      var items := read(res.doc);
      if items == [] then Paged(Ok(acc), f.net)
      else Paginate(f.net, url, read, retries, ps, page + 1, maxPages, acc + items)
  }

  /** `r` is the request for one of the pages `page` to `maxPages`. */
  predicate RequestedPage(r: string, url: nat -> string, page: nat, maxPages: nat) {
    exists p: nat :: page <= p <= maxPages && r == url(p)
  }

  /** The loop leaves the script alone and only asks for pages `page` to
      `maxPages`, at most retries + 1 times each. */
  lemma {:induction false} PaginateRequestRange<D, T>(net: Net<D>, url: nat -> string, read: D -> seq<T>, retries: nat,
                                                  ps: seq<string>, page: nat, maxPages: nat, acc: seq<T>)
    ensures var c := Paginate(net, url, read, retries, ps, page, maxPages, acc);
            && c.net.script == net.script
            && net.log <= c.net.log
            && |c.net.log| - |net.log| <= (retries + 1) * (if page <= maxPages then maxPages + 1 - page else 0)
            && forall j :: |net.log| <= j < |c.net.log| ==> RequestedPage(c.net.log[j], url, page, maxPages)
    decreases maxPages + 1 - page, 1
  {
    if page <= maxPages {
      var f := Attempts(net, url(page), 0, retries, ps);
      AttemptsRequests(net, url(page), 0, retries, ps);
      assert forall j :: |net.log| <= j < |f.net.log| ==> f.net.log[j] == url(page);
      assert net.log <= f.net.log;
      VisitRequests(f, net, url, read, retries, ps, page, maxPages, acc);
    }
  }

  lemma {:induction false} VisitRequests<D, T>(f: Fetched<D>, net: Net<D>, url: nat -> string, read: D -> seq<T>,
                                               retries: nat, ps: seq<string>, page: nat, maxPages: nat, acc: seq<T>)
    requires page <= maxPages
    requires f.net.script == net.script && net.log <= f.net.log && |f.net.log| - |net.log| <= retries + 1
    requires forall j :: |net.log| <= j < |f.net.log| ==> f.net.log[j] == url(page)
    ensures var c := Visit(f, url, read, retries, ps, page, maxPages, acc);
            && c.net.script == net.script
            && net.log <= c.net.log
            && |c.net.log| - |net.log| <= (retries + 1) * (maxPages + 1 - page)
            && forall j :: |net.log| <= j < |c.net.log| ==> RequestedPage(c.net.log[j], url, page, maxPages)
    decreases maxPages + 1 - page, 0
  {
    if f.result.Ok? && read(f.result.value.doc) != [] {
      var items := read(f.result.value.doc);
      var c := Paginate(f.net, url, read, retries, ps, page + 1, maxPages, acc + items);
      PaginateRequestRange(f.net, url, read, retries, ps, page + 1, maxPages, acc + items);
      assert (retries + 1) * (maxPages + 1 - page) == (retries + 1) + (retries + 1) * (maxPages - page);
      forall j | |net.log| <= j < |c.net.log| ensures RequestedPage(c.net.log[j], url, page, maxPages) {
        if j < |f.net.log| {
          assert c.net.log[j] == f.net.log[j];
        } else {
          var p :| page + 1 <= p <= maxPages && c.net.log[j] == url(p);
        }
      }
    } else {
      assert f.result.Err? ==> RequestedPage(url(page), url, page, maxPages);
      assert retries + 1 <= (retries + 1) * (maxPages + 1 - page);
    }
  }

  /** The items of the earlier pages stay in front, in order. */
  lemma {:induction false} PaginateKeepsEarlier<D, T>(net: Net<D>, url: nat -> string, read: D -> seq<T>, retries: nat,
                                                      ps: seq<string>, page: nat, maxPages: nat, acc: seq<T>)
    ensures var c := Paginate(net, url, read, retries, ps, page, maxPages, acc);
            c.result.Ok? ==> acc <= c.result.value
    decreases maxPages + 1 - page, 1
  {
    if page <= maxPages {
      VisitKeepsEarlier(Attempts(net, url(page), 0, retries, ps), url, read, retries, ps, page, maxPages, acc);
    }
  }

  lemma {:induction false} VisitKeepsEarlier<D, T>(f: Fetched<D>, url: nat -> string, read: D -> seq<T>, retries: nat,
                                                   ps: seq<string>, page: nat, maxPages: nat, acc: seq<T>)
    requires page <= maxPages
    ensures var c := Visit(f, url, read, retries, ps, page, maxPages, acc);
            c.result.Ok? ==> acc <= c.result.value
    decreases maxPages + 1 - page, 0
  {
    if f.result.Ok? && read(f.result.value.doc) != [] {
      var items := read(f.result.value.doc);
      PaginateKeepsEarlier(f.net, url, read, retries, ps, page + 1, maxPages, acc + items);
      assert acc <= acc + items;
    }
  }

  /** `x` is an item of the document of some response of the script. */
  predicate FromScript<D, T(==)>(x: T, script: seq<Response<D>>, read: D -> seq<T>) {
    exists j :: 0 <= j < |script| && x in read(script[j].doc)
  }

  /** Every item gathered was read from a page the network served. */
  lemma {:induction false} PaginateItemsFromScript<D, T>(net: Net<D>, url: nat -> string, read: D -> seq<T>, retries: nat,
                                                         ps: seq<string>, page: nat, maxPages: nat, acc: seq<T>)
    ensures var c := Paginate(net, url, read, retries, ps, page, maxPages, acc);
            c.result.Ok? ==> forall x :: x in c.result.value ==> x in acc || FromScript(x, net.script, read)
    decreases maxPages + 1 - page, 1
  {
    if page <= maxPages {
      var f := Attempts(net, url(page), 0, retries, ps);
      AttemptsRequests(net, url(page), 0, retries, ps);
      AttemptsOutcome(net, url(page), 0, retries, ps);
      VisitItemsFromScript(f, net.script, url, read, retries, ps, page, maxPages, acc);
    }
  }

  lemma {:induction false} VisitItemsFromScript<D, T>(f: Fetched<D>, script: seq<Response<D>>, url: nat -> string,
                                                      read: D -> seq<T>, retries: nat, ps: seq<string>,
                                                      page: nat, maxPages: nat, acc: seq<T>)
    requires page <= maxPages && f.net.script == script
    requires f.result.Ok? ==> exists j :: 0 <= j < |script| && f.result.value == script[j]
    ensures var c := Visit(f, url, read, retries, ps, page, maxPages, acc);
            c.result.Ok? ==> forall x :: x in c.result.value ==> x in acc || FromScript(x, script, read)
    decreases maxPages + 1 - page, 0
  {
    if f.result.Ok? && read(f.result.value.doc) != [] {
      var items := read(f.result.value.doc);
      var j :| 0 <= j < |script| && f.result.value == script[j];
      PaginateItemsFromScript(f.net, url, read, retries, ps, page + 1, maxPages, acc + items);
      var c := Paginate(f.net, url, read, retries, ps, page + 1, maxPages, acc + items);
      if c.result.Ok? {
        forall x | x in c.result.value ensures x in acc || FromScript(x, script, read) {
          if x in items {
            assert x in read(script[j].doc);
          }
        }
      }
    }
  }

  // ------------------------------------------------------------ the pages read

  /** `f` accepted a page holding items, so the loop goes on. */
  predicate Full<D, T>(f: Fetched<D>, read: D -> seq<T>) {
    f.result.Ok? && read(f.result.value.doc) != []
  }

  /** The getHTML calls of the page loop from `page` on, one per page in
      page order, each on the network the previous one left; the loop
      goes on only after a page with items and stops after `maxPages`. */
  function Pages<D, T>(net: Net<D>, url: nat -> string, read: D -> seq<T>, retries: nat, ps: seq<string>,
                       page: nat, maxPages: nat): seq<Fetched<D>>
    decreases maxPages + 1 - page, 1
  {
    if page > maxPages then []
    else PagesAfter(Attempts(net, url(page), 0, retries, ps), url, read, retries, ps, page, maxPages)
  }

  /** The calls once page `page` has been fetched, with outcome `f`. */
  function PagesAfter<D, T>(f: Fetched<D>, url: nat -> string, read: D -> seq<T>, retries: nat, ps: seq<string>,
                            page: nat, maxPages: nat): seq<Fetched<D>>
    requires page <= maxPages
    decreases maxPages + 1 - page, 0
  {
    if Full(f, read) then [f] + Pages(f.net, url, read, retries, ps, page + 1, maxPages) else [f]
  }

  /** The network after the calls `fs`. */
  function NetAfter<D>(net: Net<D>, fs: seq<Fetched<D>>): Net<D> {
    if fs == [] then net else fs[|fs| - 1].net
  }

  /** The calls `fs` are getHTML for pages `page`, `page + 1`, ... in turn,
      the first on `net` and each next one on the network the one before
      left. */
  ghost predicate Chained<D>(net: Net<D>, fs: seq<Fetched<D>>, url: nat -> string, page: nat, retries: nat,
                             ps: seq<string>)
    decreases |fs|
  {
    fs == [] || (fs[0] == Attempts(net, url(page), 0, retries, ps) && Chained(fs[0].net, fs[1..], url, page + 1, retries, ps))
  }

  /** The items of the pages `fs` accepted, concatenated in page order. */
  function ItemsOf<D, T>(fs: seq<Fetched<D>>, read: D -> seq<T>): seq<T> {
    if fs == [] then []
    else (if fs[0].result.Ok? then read(fs[0].result.value.doc) else []) + ItemsOf(fs[1..], read)
  }

  /** The number of requests each of the calls `fs` made, starting on `net`. */
  function TriesOf<D>(net: Net<D>, fs: seq<Fetched<D>>): (ks: seq<nat>)
    ensures |ks| == |fs|
    decreases |fs|
  {
    if fs == [] then []
    else
      var k := |fs[0].net.log| - |net.log|;
      [if k < 0 then 0 else k] + TriesOf(fs[0].net, fs[1..])
  }

  /** `ks[0]` requests for page `page`, then `ks[1]` for page `page + 1`, ... */
  function Runs(url: nat -> string, page: nat, ks: seq<nat>): seq<string>
    decreases |ks|
  {
    if ks == [] then [] else Repeat(url(page), ks[0]) + Runs(url, page + 1, ks[1..])
  }

  /** Pages are fetched in order from `page` on, each by getHTML on the
      network the fetch of the page before left, one at least and none
      past `maxPages`; every page but the last one fetched held items. */
  lemma PaginatePages<D, T>(net: Net<D>, url: nat -> string, read: D -> seq<T>, retries: nat,
                            ps: seq<string>, page: nat, maxPages: nat)
    ensures var fs := Pages(net, url, read, retries, ps, page, maxPages);
            && |fs| <= (if page <= maxPages then maxPages + 1 - page else 0)
            && (page <= maxPages ==> 1 <= |fs|)
            && Chained(net, fs, url, page, retries, ps)
            && (forall i :: 0 <= i < |fs| - 1 ==> Full(fs[i], read))
  {
    if page <= maxPages {
      var f := Attempts(net, url(page), 0, retries, ps);
      PagesAfterChained(f, net, url, read, retries, ps, page, maxPages);
    }
  }

  lemma {:induction false} PagesAfterChained<D, T>(f: Fetched<D>, net: Net<D>, url: nat -> string, read: D -> seq<T>,
                                                   retries: nat, ps: seq<string>, page: nat, maxPages: nat)
    requires page <= maxPages && f == Attempts(net, url(page), 0, retries, ps)
    ensures var fs := PagesAfter(f, url, read, retries, ps, page, maxPages);
            && 1 <= |fs| <= maxPages + 1 - page
            && Chained(net, fs, url, page, retries, ps)
            && (forall i :: 0 <= i < |fs| - 1 ==> Full(fs[i], read))
    decreases maxPages + 1 - page
  {
    var fs := PagesAfter(f, url, read, retries, ps, page, maxPages);
    if Full(f, read) {
      var rest := Pages(f.net, url, read, retries, ps, page + 1, maxPages);
      if page + 1 <= maxPages {
        PagesAfterChained(Attempts(f.net, url(page + 1), 0, retries, ps), f.net, url, read, retries, ps, page + 1, maxPages);
      }
      assert fs == [f] + rest && fs[1..] == rest;
      forall i | 1 <= i < |fs| - 1 ensures Full(fs[i], read) {
        assert fs[i] == rest[i - 1];
      }
    } else {
      assert fs[1..] == [];
    }
  }

  /** How the loop ends, in terms of the pages it fetched: with the items
      gathered before plus those of every page fetched, concatenated in
      page order, after a page without items or after page `maxPages`;
      or with the error of the last page fetched, which then failed. */
  lemma PaginateOutcome<D, T>(net: Net<D>, url: nat -> string, read: D -> seq<T>, retries: nat,
                              ps: seq<string>, page: nat, maxPages: nat, acc: seq<T>)
    ensures var c := Paginate(net, url, read, retries, ps, page, maxPages, acc);
            var fs := Pages(net, url, read, retries, ps, page, maxPages);
            && c.net == NetAfter(net, fs)
            && (c.result.Ok? ==> c.result.value == acc + ItemsOf(fs, read))
            && (c.result.Ok? ==> forall i :: 0 <= i < |fs| ==> fs[i].result.Ok?)
            && (c.result.Ok? && fs != [] ==> page + |fs| == maxPages + 1 || read(fs[|fs| - 1].result.value.doc) == [])
            && (c.result.Err? ==>
                  1 <= |fs| && fs[|fs| - 1].result.Err?
                  && c.result.error == ErrorMessage(fs[|fs| - 1].result.error, url(page + |fs| - 1)))
  {
    if page <= maxPages {
      VisitOutcome(Attempts(net, url(page), 0, retries, ps), url, read, retries, ps, page, maxPages, acc);
    } else {
      assert acc + ItemsOf([], read) == acc;
    }
  }

  lemma VisitOutcome<D, T>(f: Fetched<D>, url: nat -> string, read: D -> seq<T>,
                           retries: nat, ps: seq<string>, page: nat, maxPages: nat, acc: seq<T>)
    requires page <= maxPages
    ensures var c := Visit(f, url, read, retries, ps, page, maxPages, acc);
            var fs := PagesAfter(f, url, read, retries, ps, page, maxPages);
            && fs != [] && fs[0] == f
            && c.net == fs[|fs| - 1].net
            && (c.result.Ok? ==> c.result.value == acc + ItemsOf(fs, read))
            && (c.result.Ok? ==> forall i :: 0 <= i < |fs| ==> fs[i].result.Ok?)
            && (c.result.Ok? ==> page + |fs| == maxPages + 1 || read(fs[|fs| - 1].result.value.doc) == [])
            && (c.result.Err? ==>
                  fs[|fs| - 1].result.Err?
                  && c.result.error == ErrorMessage(fs[|fs| - 1].result.error, url(page + |fs| - 1)))
  {
    VisitItems(f, url, read, retries, ps, page, maxPages, acc);
    var c := Visit(f, url, read, retries, ps, page, maxPages, acc);
    if c.result.Ok? {
      VisitStop(f, url, read, retries, ps, page, maxPages, acc);
    } else {
      VisitError(f, url, read, retries, ps, page, maxPages, acc);
    }
  }

  /** The network the loop leaves and the items it returns. */
  lemma {:induction false} VisitItems<D, T>(f: Fetched<D>, url: nat -> string, read: D -> seq<T>,
                                            retries: nat, ps: seq<string>, page: nat, maxPages: nat, acc: seq<T>)
    requires page <= maxPages
    ensures var c := Visit(f, url, read, retries, ps, page, maxPages, acc);
            var fs := PagesAfter(f, url, read, retries, ps, page, maxPages);
            && fs != [] && fs[0] == f
            && c.net == fs[|fs| - 1].net
            && (c.result.Ok? ==> c.result.value == acc + ItemsOf(fs, read))
    decreases maxPages + 1 - page
  {
    var fs := PagesAfter(f, url, read, retries, ps, page, maxPages);
    if Full(f, read) {
      var items := read(f.result.value.doc);
      var rest := Pages(f.net, url, read, retries, ps, page + 1, maxPages);
      assert fs == [f] + rest && fs[1..] == rest;
      if page + 1 <= maxPages {
        VisitItems(Attempts(f.net, url(page + 1), 0, retries, ps), url, read, retries, ps,
                   page + 1, maxPages, acc + items);
        assert fs[|fs| - 1] == rest[|rest| - 1];
      } else {
        assert rest == [];
      }
      assert ItemsOf(fs, read) == items + ItemsOf(rest, read);
      assert (acc + items) + ItemsOf(rest, read) == acc + ItemsOf(fs, read);
    } else {
      assert fs == [f] && fs[1..] == [];
      assert ItemsOf(fs, read) == (if f.result.Ok? then read(f.result.value.doc) else []) + ItemsOf([], read);
    }
  }

  /** A loop that ends well accepted every page and stopped after a page
      without items or after page `maxPages`. */
  lemma {:induction false} VisitStop<D, T>(f: Fetched<D>, url: nat -> string, read: D -> seq<T>,
                                           retries: nat, ps: seq<string>, page: nat, maxPages: nat, acc: seq<T>)
    requires page <= maxPages
    requires Visit(f, url, read, retries, ps, page, maxPages, acc).result.Ok?
    ensures var fs := PagesAfter(f, url, read, retries, ps, page, maxPages);
            && fs != []
            && (forall i :: 0 <= i < |fs| ==> fs[i].result.Ok?)
            && (page + |fs| == maxPages + 1 || read(fs[|fs| - 1].result.value.doc) == [])
    decreases maxPages + 1 - page
  {
    var fs := PagesAfter(f, url, read, retries, ps, page, maxPages);
    if Full(f, read) {
      var rest := Pages(f.net, url, read, retries, ps, page + 1, maxPages);
      assert fs == [f] + rest;
      if page + 1 <= maxPages {
        var items := read(f.result.value.doc);
        assert Visit(f, url, read, retries, ps, page, maxPages, acc) == Paginate(f.net, url, read, retries, ps, page + 1, maxPages, acc + items);
        VisitStop(Attempts(f.net, url(page + 1), 0, retries, ps), url, read, retries, ps,
                  page + 1, maxPages, acc + items);
        assert fs[|fs| - 1] == rest[|rest| - 1];
        forall i | 0 <= i < |fs| ensures fs[i].result.Ok? {
          if i > 0 { assert fs[i] == rest[i - 1]; }
        }
      } else {
        assert rest == [];
      }
    } else {
      assert fs == [f];
    }
  }

  /** A loop that fails fails on the last page fetched, with that page's
      error and URL. */
  lemma {:induction false} VisitError<D, T>(f: Fetched<D>, url: nat -> string, read: D -> seq<T>,
                                            retries: nat, ps: seq<string>, page: nat, maxPages: nat, acc: seq<T>)
    requires page <= maxPages
    requires Visit(f, url, read, retries, ps, page, maxPages, acc).result.Err?
    ensures var c := Visit(f, url, read, retries, ps, page, maxPages, acc);
            var fs := PagesAfter(f, url, read, retries, ps, page, maxPages);
            && fs != []
            && fs[|fs| - 1].result.Err?
            && c.result.error == ErrorMessage(fs[|fs| - 1].result.error, url(page + |fs| - 1))
    decreases maxPages + 1 - page
  {
    var fs := PagesAfter(f, url, read, retries, ps, page, maxPages);
    if Full(f, read) {
      var rest := Pages(f.net, url, read, retries, ps, page + 1, maxPages);
      assert fs == [f] + rest;
      var items := read(f.result.value.doc);
      assert page + 1 <= maxPages;
      assert Visit(f, url, read, retries, ps, page, maxPages, acc) == Paginate(f.net, url, read, retries, ps, page + 1, maxPages, acc + items);
      VisitError(Attempts(f.net, url(page + 1), 0, retries, ps), url, read, retries, ps,
                 page + 1, maxPages, acc + items);
      assert fs[|fs| - 1] == rest[|rest| - 1];
      assert page + |fs| - 1 == (page + 1) + |rest| - 1;
    } else {
      assert fs == [f];
    }
  }

  /** Along a chain of getHTML calls, call `i` appends one to retries + 1
      requests for page `page + i` and nothing else, so the requests are
      a run for each page, in page order; the script stays as it was. */
  lemma {:induction false} ChainedRequests<D>(net: Net<D>, fs: seq<Fetched<D>>, url: nat -> string, page: nat,
                                              retries: nat, ps: seq<string>)
    requires Chained(net, fs, url, page, retries, ps)
    ensures var ks := TriesOf(net, fs);
            && (forall i :: 0 <= i < |ks| ==> 1 <= ks[i] <= retries + 1)
            && NetAfter(net, fs).script == net.script
            && NetAfter(net, fs).log == net.log + Runs(url, page, ks)
    decreases |fs|
  {
    if fs != [] {
      var f := fs[0];
      var rest := fs[1..];
      AttemptsRequests(net, url(page), 0, retries, ps);
      ChainedRequests(f.net, rest, url, page + 1, retries, ps);
      var ks := TriesOf(net, fs);
      var ks' := TriesOf(f.net, rest);
      assert ks == [ks[0]] + ks' && ks[1..] == ks';
      assert Runs(url, page, ks) == Repeat(url(page), ks[0]) + Runs(url, page + 1, ks');
      assert NetAfter(net, fs) == NetAfter(f.net, rest) by {
        if rest != [] { assert fs[|fs| - 1] == rest[|rest| - 1]; }
      }
      assert net.log + Repeat(url(page), ks[0]) + Runs(url, page + 1, ks') == net.log + Runs(url, page, ks);
      forall i | 0 <= i < |ks| ensures 1 <= ks[i] <= retries + 1 {
        if i > 0 { assert ks[i] == ks'[i - 1]; }
      }
    }
  }

  /** The requests of the loop, in order: for each page fetched, from
      `page` on, one to retries + 1 requests for that page's URL, after
      those of the page before; the script is left alone. */
  lemma PaginateRequests<D, T>(net: Net<D>, url: nat -> string, read: D -> seq<T>, retries: nat,
                               ps: seq<string>, page: nat, maxPages: nat, acc: seq<T>)
    ensures var c := Paginate(net, url, read, retries, ps, page, maxPages, acc);
            var ks := TriesOf(net, Pages(net, url, read, retries, ps, page, maxPages));
            && |ks| <= (if page <= maxPages then maxPages + 1 - page else 0)
            && (forall i :: 0 <= i < |ks| ==> 1 <= ks[i] <= retries + 1)
            && c.net.script == net.script
            && c.net.log == net.log + Runs(url, page, ks)
  {
    var fs := Pages(net, url, read, retries, ps, page, maxPages);
    PaginatePages(net, url, read, retries, ps, page, maxPages);
    PaginateOutcome(net, url, read, retries, ps, page, maxPages, acc);
    ChainedRequests(net, fs, url, page, retries, ps);
  }
}
