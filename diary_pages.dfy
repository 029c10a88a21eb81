/** getHTML and the page loop of countYear in api/diary.js, over any
    parsed page type: a fetch retried once on a block signature, and the
    loop that counts hits page by page. */
module DiaryPages {
  import opened Text
  import opened Net

  /** MAX_PAGES: the page bound of countYear's loop. */
  const MaxPages: nat := 60

  // ------------------------------------------------------------ getHTML

  /** What getHTML ends with: the last response it read, or None when a
      fetch is rejected and getHTML throws. */
  datatype Got<D> = Got(response: Option<Response<D>>, net: Net<D>)

  /** getHTML(url, retry): fetch `url`, and fetch it again while the body
      shows a block signature of `ps` and retries remain. The status is
      never looked at. */
  function GetHtml<D>(net: Net<D>, url: string, retry: nat, ps: seq<string>): Got<D>
    decreases retry
  {
    var after := net.After(url);
    match net.Next()
    case None => Got(None, after)
    case Some(r) =>
      if Blocked(r.html, ps) && retry > 0 then GetHtml(after, url, retry - 1, ps)
      else Got(Some(r), after)
  }

  /** Number of fetches one getHTML makes. */
  function Fetches<D>(net: Net<D>, url: string, retry: nat, ps: seq<string>): int {
    |GetHtml(net, url, retry, ps).net.log| - |net.log|
  }

  /** getHTML fetches `url` at least once and at most `retry + 1` times,
      and nothing else. */
  lemma {:induction false} GetHtmlRequests<D>(net: Net<D>, url: string, retry: nat, ps: seq<string>)
    ensures var g := GetHtml(net, url, retry, ps);
            var k := Fetches(net, url, retry, ps);
            && 1 <= k <= retry + 1
            && g.net.script == net.script
            && g.net.log == net.log + Repeat(url, k)
    decreases retry
  {
    var r := net.Next();
    if r.Some? && Blocked(r.value.html, ps) && retry > 0 {
      var after := net.After(url);
      GetHtmlRequests(after, url, retry - 1, ps);
      var k := Fetches(after, url, retry - 1, ps);
      assert GetHtml(net, url, retry, ps) == GetHtml(after, url, retry - 1, ps);
      assert Fetches(net, url, retry, ps) == k + 1;
      assert [url] + Repeat(url, k) == Repeat(url, k + 1);
      assert net.log + [url] + Repeat(url, k) == net.log + ([url] + Repeat(url, k));
    } else {
      assert Repeat(url, 1) == [url];
    }
  }

  /** It retries only after a blocked body, and returns the last response
      read: one that is not blocked, or a blocked one once the retries are
      spent. */
  lemma GetHtmlOutcome<D>(net: Net<D>, url: string, retry: nat, ps: seq<string>)
    ensures var g := GetHtml(net, url, retry, ps);
            var k := Fetches(net, url, retry, ps);
            && 1 <= k
            && (forall j :: |net.log| <= j < |net.log| + k - 1 ==> j < |net.script| && Blocked(net.script[j].html, ps))
            && (g.response.Some? ==>
                  && |net.log| + k - 1 < |net.script|
                  && g.response.value == net.script[|net.log| + k - 1]
                  && (!Blocked(g.response.value.html, ps) || k == retry + 1))
            && (g.response.None? ==> |net.script| <= |net.log| + k - 1)
  {
    GetHtmlSkipped(net, url, retry, ps);
    GetHtmlLast(net, url, retry, ps);
    var k := Fetches(net, url, retry, ps);
    forall j | |net.log| <= j < |net.log| + k - 1 ensures j < |net.script| && Blocked(net.script[j].html, ps) {
    }
  }

  /** Every response before the last one read was blocked. */
  lemma {:induction false} GetHtmlSkipped<D>(net: Net<D>, url: string, retry: nat, ps: seq<string>)
    ensures var k := Fetches(net, url, retry, ps);
            && (k > 1 ==> |net.log| + k - 1 <= |net.script|)
            && forall j :: |net.log| <= j < |net.log| + k - 1 ==> Blocked(net.script[j].html, ps)
    decreases retry
  {
    var r := net.Next();
    if r.Some? && Blocked(r.value.html, ps) && retry > 0 {
      var after := net.After(url);
      GetHtmlSkipped(after, url, retry - 1, ps);
      GetHtmlLast(after, url, retry - 1, ps);
      var k' := Fetches(after, url, retry - 1, ps);
      assert Fetches(net, url, retry, ps) == k' + 1;
      assert |after.log| == |net.log| + 1 && after.script == net.script;
      assert |net.log| + k' <= |net.script|;
      forall j | |net.log| <= j < |net.log| + k' ensures Blocked(net.script[j].html, ps) {
        if j == |net.log| {
          assert r.value == net.script[j];
        } else {
          assert Blocked(after.script[j].html, ps);
        }
      }
    } else {
      assert Fetches(net, url, retry, ps) == 1;
    }
  }

  /** The response returned is the last one read, and is blocked only once
      the retries are spent; no response means the script ran out. */
  lemma {:induction false} GetHtmlLast<D>(net: Net<D>, url: string, retry: nat, ps: seq<string>)
    ensures var g := GetHtml(net, url, retry, ps);
            var k := Fetches(net, url, retry, ps);
            && 1 <= k <= retry + 1
            && (g.response.Some? ==>
                  && |net.log| + k - 1 < |net.script|
                  && g.response.value == net.script[|net.log| + k - 1]
                  && (!Blocked(g.response.value.html, ps) || k == retry + 1))
            && (g.response.None? ==> |net.script| <= |net.log| + k - 1)
    decreases retry
  {
    var r := net.Next();
    if r.Some? && Blocked(r.value.html, ps) && retry > 0 {
      var after := net.After(url);
      GetHtmlLast(after, url, retry - 1, ps);
      assert GetHtml(net, url, retry, ps) == GetHtml(after, url, retry - 1, ps);
      assert Fetches(net, url, retry, ps) == Fetches(after, url, retry - 1, ps) + 1;
    } else {
      assert Fetches(net, url, retry, ps) == 1;
    }
  }

  /** What counting a year ends with: the total (None when a fetch is
      rejected and countYear throws), the hits of each page counted, in
      order, and the network after it. */
  datatype Count<D> = Count(total: Option<nat>, counted: seq<nat>, net: Net<D>)


  /** countYear's page loop from `page` on: each page is read with one
      retry; a blocked page, a page without hits or page MaxPages ends it.
      The result holds the hits of the pages counted, in order, and their
      total, or None when a fetch is rejected. */
  function CountFrom<D>(net: Net<D>, url: nat -> string, hits: D -> nat, ps: seq<string>, page: nat): Count<D>
    decreases if page <= MaxPages then MaxPages + 1 - page else 0
  {
    if page > MaxPages then Count(Some(0), [], net)
    else
      var g := GetHtml(net, url(page), 1, ps);
      match g.response
      case None => Count(None, [], g.net)
      case Some(r) =>
        if Blocked(r.html, ps) || hits(r.doc) == 0 then Count(Some(0), [], g.net)
        else Extend(hits(r.doc), [hits(r.doc)], CountFrom(g.net, url, hits, ps, page + 1))
  }

  /** `c` after `total` and `counted` so far. */
  function Extend<D>(total: nat, counted: seq<nat>, c: Count<D>): Count<D> {
    Count(if c.total.Some? then Some(total + c.total.value) else None, counted + c.counted, c.net)
  }

  function Sum(s: seq<nat>): nat {
    if s == [] then 0 else s[0] + Sum(s[1..])
  }

  /** Each page counted had hits, and at most one page per number from
      `page` to MaxPages was counted. */
  lemma {:induction false} CountFromCounted<D>(net: Net<D>, url: nat -> string, hits: D -> nat, ps: seq<string>, page: nat)
    ensures var c := CountFrom(net, url, hits, ps, page);
            && |c.counted| <= (if page <= MaxPages then MaxPages + 1 - page else 0)
            && (forall j :: 0 <= j < |c.counted| ==> c.counted[j] > 0)
    decreases if page <= MaxPages then MaxPages + 1 - page else 0
  {
    if page <= MaxPages {
      var g := GetHtml(net, url(page), 1, ps);
      if g.response.Some? && !Blocked(g.response.value.html, ps) && hits(g.response.value.doc) != 0 {
        CountFromCounted(g.net, url, hits, ps, page + 1);
      }
    }
  }

  /** The total, when there is one, is the sum of the hits counted. */
  lemma {:induction false} CountFromTotal<D>(net: Net<D>, url: nat -> string, hits: D -> nat, ps: seq<string>, page: nat)
    ensures var c := CountFrom(net, url, hits, ps, page);
            c.total.Some? ==> c.total.value == Sum(c.counted)
    decreases if page <= MaxPages then MaxPages + 1 - page else 0
  {
    if page <= MaxPages {
      var g := GetHtml(net, url(page), 1, ps);
      if g.response.Some? && !Blocked(g.response.value.html, ps) && hits(g.response.value.doc) != 0 {
        var h := hits(g.response.value.doc);
        var rest := CountFrom(g.net, url, hits, ps, page + 1);
        CountFromTotal(g.net, url, hits, ps, page + 1);
        assert ([h] + rest.counted)[1..] == rest.counted;
      }
    }
  }

  /** Where the loop requests from `page` on: only pages `page` to
      MaxPages, each at most twice. */
  lemma {:induction false} CountFromRequests<D>(net: Net<D>, url: nat -> string, hits: D -> nat, ps: seq<string>, page: nat)
    requires page >= 1
    ensures var c := CountFrom(net, url, hits, ps, page);
            && c.net.script == net.script
            && |net.log| <= |c.net.log|
            && c.net.log[..|net.log|] == net.log
            && |c.net.log| - |net.log| <= 2 * (if page <= MaxPages then MaxPages + 1 - page else 0)
            && forall j :: |net.log| <= j < |c.net.log| ==>
                 exists p :: page <= p <= MaxPages && c.net.log[j] == url(p)
    decreases if page <= MaxPages then MaxPages + 1 - page else 0
  {
    if page <= MaxPages {
      var g := GetHtml(net, url(page), 1, ps);
      GetHtmlRequests(net, url(page), 1, ps);
      assert forall j :: |net.log| <= j < |g.net.log| ==> g.net.log[j] == url(page);
      if g.response.Some? && !Blocked(g.response.value.html, ps) && hits(g.response.value.doc) != 0 {
        CountFromRequests(g.net, url, hits, ps, page + 1);
        var c := CountFrom(g.net, url, hits, ps, page + 1);
        assert c.net.log[..|g.net.log|][..|net.log|] == c.net.log[..|net.log|];
        forall j | |net.log| <= j < |c.net.log|
          ensures exists p :: page <= p <= MaxPages && c.net.log[j] == url(p)
        {
          if j < |g.net.log| {
            assert c.net.log[j] == c.net.log[..|g.net.log|][j];
            assert c.net.log[j] == url(page);
          }
        }
      }
    }
  }

  /** The count `c` of the loop from `page` on stopped at the page after
      the last one it counted: the last request was for that page, and the
      response it got, after the retry, was blocked or had no hits. */
  predicate StoppedAt<D>(c: Count<D>, url: nat -> string, hits: D -> nat, ps: seq<string>, page: nat) {
    var last := |c.net.log| - 1;
    && 0 <= last < |c.net.script|
    && c.net.log[last] == url(page + |c.counted|)
    && (Blocked(c.net.script[last].html, ps) || hits(c.net.script[last].doc) == 0)
  }

  /** Why a finished count stopped: every page up to MaxPages was
      counted, or it stopped at the page after the last one counted. */
  lemma {:induction false} CountFromStop<D>(net: Net<D>, url: nat -> string, hits: D -> nat, ps: seq<string>, page: nat)
    requires page >= 1
    ensures var c := CountFrom(net, url, hits, ps, page);
            c.total.Some? && page + |c.counted| <= MaxPages ==> StoppedAt(c, url, hits, ps, page)
    decreases if page <= MaxPages then MaxPages + 1 - page else 0
  {
    if page <= MaxPages {
      var g := GetHtml(net, url(page), 1, ps);
      if g.response.Some? && !Blocked(g.response.value.html, ps) && hits(g.response.value.doc) != 0 {
        CountFromStop(g.net, url, hits, ps, page + 1);
        var rest := CountFrom(g.net, url, hits, ps, page + 1);
        var h := hits(g.response.value.doc);
        assert CountFrom(net, url, hits, ps, page) == Extend(h, [h], rest);
        StoppedAtExtend(rest, h, url, hits, ps, page);
      } else if g.response.Some? {
        StopHere(net, url, hits, ps, page);
      }
    }
  }

  /** A count that stopped after counting from `page + 1` on stopped at
      the same place once page `page` is counted before it. */
  lemma StoppedAtExtend<D>(rest: Count<D>, h: nat, url: nat -> string, hits: D -> nat, ps: seq<string>, page: nat)
    requires rest.total.Some? && page + 1 + |rest.counted| <= MaxPages ==> StoppedAt(rest, url, hits, ps, page + 1)
    ensures var c := Extend(h, [h], rest);
            c.total.Some? && page + |c.counted| <= MaxPages ==> StoppedAt(c, url, hits, ps, page)
  {
    var c := Extend(h, [h], rest);
    assert c.net == rest.net && |c.counted| == 1 + |rest.counted|;
  }

  /** A count that stops at page `page` itself stopped there. */
  lemma StopHere<D>(net: Net<D>, url: nat -> string, hits: D -> nat, ps: seq<string>, page: nat)
    requires 1 <= page <= MaxPages
    requires var g := GetHtml(net, url(page), 1, ps);
             g.response.Some? && (Blocked(g.response.value.html, ps) || hits(g.response.value.doc) == 0)
    ensures StoppedAt(CountFrom(net, url, hits, ps, page), url, hits, ps, page)
  {
    var g := GetHtml(net, url(page), 1, ps);
    assert CountFrom(net, url, hits, ps, page) == Count(Some(0), [], g.net);
    GetHtmlRequests(net, url(page), 1, ps);
    GetHtmlOutcome(net, url(page), 1, ps);
    var k := Fetches(net, url(page), 1, ps);
    assert g.net.log[|g.net.log| - 1] == url(page);
    assert |g.net.log| - 1 == |net.log| + k - 1;
  }

  /** The loop from `page` on, with `total` and `counted` so far, ends
      with `goal`. */
  ghost predicate Resumes<D>(net: Net<D>, url: nat -> string, hits: D -> nat, ps: seq<string>,
                             page: nat, total: nat, counted: seq<nat>, goal: Count<D>) {
    Extend(total, counted, CountFrom(net, url, hits, ps, page)) == goal
  }

  /** One round of the loop, with `total` and `counted` so far, on the
      response `g` that reading page `page` ends with: a rejected fetch
      ends it with None, a blocked page or one without hits ends it with
      `total`, and a page with `h` hits is counted. */
  lemma CountFromStep<D>(net: Net<D>, url: nat -> string, hits: D -> nat, ps: seq<string>,
                         page: nat, total: nat, counted: seq<nat>, goal: Count<D>, g: Got<D>, h: nat)
    requires Resumes(net, url, hits, ps, page, total, counted, goal)
    requires 1 <= page <= MaxPages && g == GetHtml(net, url(page), 1, ps)
    requires g.response.Some? ==> h == hits(g.response.value.doc)
    ensures g.response.None? ==> goal == Count(None, counted, g.net)
    ensures g.response.Some? && (Blocked(g.response.value.html, ps) || h == 0) ==> goal == Count(Some(total), counted, g.net)
    ensures g.response.Some? && !Blocked(g.response.value.html, ps) && h != 0 ==>
              Resumes(g.net, url, hits, ps, page + 1, total + h, counted + [h], goal)
  {
    var c := CountFrom(net, url, hits, ps, page);
    if g.response.None? {
      assert c == Count(None, [], g.net);
      assert counted + [] == counted;
    } else if Blocked(g.response.value.html, ps) || h == 0 {
      assert c == Count(Some(0), [], g.net);
      assert counted + [] == counted;
    } else {
      var rest := CountFrom(g.net, url, hits, ps, page + 1);
      assert c == Extend(h, [h], rest);
      assert counted + ([h] + rest.counted) == counted + [h] + rest.counted;
    }
  }

  /** Past page MaxPages the loop ends with what it has counted. */
  lemma ResumesPastLast<D>(net: Net<D>, url: nat -> string, hits: D -> nat, ps: seq<string>,
                           page: nat, total: nat, counted: seq<nat>, goal: Count<D>)
    requires page > MaxPages && Resumes(net, url, hits, ps, page, total, counted, goal)
    ensures goal == Count(Some(total), counted, net)
  {
    assert counted + [] == counted;
  }

  /** One round of countYear's page loop on page `page`: the count it
      ends with, or the state the next round starts from. */
  method Round<D>(n: Net<D>, url: nat -> string, hits: D -> nat, ps: seq<string>,
                  page: nat, total: nat, counted: seq<nat>, ghost goal: Count<D>)
    returns (n': Net<D>, total': nat, counted': seq<nat>, end: Option<Count<D>>)
    requires 1 <= page <= MaxPages && Resumes(n, url, hits, ps, page, total, counted, goal)
    ensures end.Some? ==> end.value == goal
    ensures end.None? ==> Resumes(n', url, hits, ps, page + 1, total', counted', goal)
  {
    var g := GetHtml(n, url(page), 1, ps);
    if g.response.None? {
      CountFromStep(n, url, hits, ps, page, total, counted, goal, g, 0);
      return n, total, counted, Some(Count(None, counted, g.net));
    }
    var r := g.response.value;
    var h := hits(r.doc);
    CountFromStep(n, url, hits, ps, page, total, counted, goal, g, h);
    if Blocked(r.html, ps) || h == 0 {
      return n, total, counted, Some(Count(Some(total), counted, g.net));
    }
    return g.net, total + h, counted + [h], None;
  }

  /** countYear's page loop, reading page `page` with `url(page)` and
      counting its hits with `hits`. */
  method CountPagesLoop<D>(net: Net<D>, url: nat -> string, hits: D -> nat, ps: seq<string>, first: nat) returns (c: Count<D>)
    requires first >= 1
    ensures c == CountFrom(net, url, hits, ps, first)
  {
    ghost var goal := CountFrom(net, url, hits, ps, first);
    assert Resumes(net, url, hits, ps, first, 0, [], goal) by { assert [] + goal.counted == goal.counted; }
    var n := net;
    var total: nat := 0;
    var counted: seq<nat> := [];
    var page: nat := first;
    while page <= MaxPages
      invariant page >= 1
      invariant Resumes(n, url, hits, ps, page, total, counted, goal)
      decreases MaxPages + 1 - page
    {
      var end;
      n, total, counted, end := Round(n, url, hits, ps, page, total, counted, goal);
      if end.Some? {
        return end.value;
      }
      page := page + 1;
    }
    ResumesPastLast(n, url, hits, ps, page, total, counted, goal);
    return Count(Some(total), counted, n);
  }
}
