/** The runtime of a film, as api/watchtime.js reads it from the film's page:
    an ISO 8601 duration in the page's metadata, else a mention of minutes or
    hours in its text. */
module Runtime {
  import opened Text

  // ------------------------------------------------------------ runtimes

  /** iso8601ToMinutes(dur): `/^PT(?:(\d+)H)?(?:(\d+)M)?$/i`, hours times 60
      plus minutes, either part optional, or null. */
  function Iso8601ToMinutes(dur: string): (r: Option<nat>)
    ensures r.Some? ==> |dur| >= 2 && LowerChar(dur[0]) == 'p' && LowerChar(dur[1]) == 't'
  {
    if |dur| < 2 || LowerChar(dur[0]) != 'p' || LowerChar(dur[1]) != 't' then None
    else IsoRest(dur[2..])
  }

  /** What follows "PT": the optional "<h>H" group, then the rest. */
  function IsoRest(rest: string): Option<nat> {
    var a := DigitRun(rest);
    if 0 < a < |rest| && LowerChar(rest[a]) == 'h' then IsoTail(rest[a + 1..], DigitsValue(rest[..a]))
    else IsoTail(rest, 0)
  }

  /** The optional "<m>M" group and the end of the text, after `hours`. */
  function IsoTail(tail: string, hours: nat): Option<nat> {
    if tail == [] then Some(hours * 60)
    else
      var b := DigitRun(tail);
      if 0 < b && b + 1 == |tail| && LowerChar(tail[b]) == 'm' then Some(hours * 60 + DigitsValue(tail[..b]))
      else None
  }

  lemma IsoTailMinutes(m: nat, hours: nat)
    ensures IsoTail(NatToString(m) + "M", hours) == Some(hours * 60 + m)
  {
    var ms := NatToString(m);
    DigitRunOfDigits(ms, "M");
    assert (ms + "M")[..|ms|] == ms;
    NatToStringValue(m);
  }

  lemma IsoRestHours(h: nat, tail: string)
    ensures IsoRest(NatToString(h) + "H" + tail) == IsoTail(tail, h)
  {
    var hs := NatToString(h);
    var rest := hs + "H" + tail;
    assert rest == hs + ("H" + tail);
    DigitRunOfDigits(hs, "H" + tail);
    assert rest[..|hs|] == hs;
    assert rest[|hs| + 1..] == tail;
    NatToStringValue(h);
  }

  lemma IsoOfPT(rest: string)
    ensures Iso8601ToMinutes("PT" + rest) == IsoRest(rest)
  {
    assert ("PT" + rest)[2..] == rest;
  }

  lemma IsoTextAssoc(hs: string, ms: string)
    ensures "PT" + hs + "H" + ms + "M" == "PT" + (hs + "H" + (ms + "M"))
  {
  }

  /** "PT<h>H<m>M" is h hours and m minutes ("PT2H14M" is 134). */
  lemma IsoHoursMinutes(h: nat, m: nat)
    ensures Iso8601ToMinutes("PT" + NatToString(h) + "H" + NatToString(m) + "M") == Some(h * 60 + m)
  {
    var hs, ms := NatToString(h), NatToString(m);
    var tail := ms + "M";
    IsoTextAssoc(hs, ms);
    IsoOfPT(hs + "H" + tail);
    IsoRestHours(h, tail);
    IsoTailMinutes(m, h);
  }

  /** "PT<m>M" is m minutes ("PT95M" is 95). */
  lemma IsoMinutes(m: nat)
    ensures Iso8601ToMinutes("PT" + NatToString(m) + "M") == Some(m)
  {
    var ms := NatToString(m);
    var rest := ms + "M";
    assert "PT" + ms + "M" == "PT" + rest;
    IsoOfPT(rest);
    DigitRunOfDigits(ms, "M");
    assert rest[DigitRun(rest)] == 'M';
    IsoTailMinutes(m, 0);
  }

  /** "PT<h>H" is h hours. */
  lemma IsoHours(h: nat)
    ensures Iso8601ToMinutes("PT" + NatToString(h) + "H") == Some(h * 60)
  {
    var hs := NatToString(h);
    assert hs + "H" + [] == hs + "H";
    assert "PT" + hs + "H" == "PT" + (hs + "H");
    IsoOfPT(hs + "H");
    IsoRestHours(h, []);
  }

  /** `(?:(\d+)X)?` matches all of `g`, X being `letter` in either case:
      `g` is empty, or one or more digits and then the letter. */
  predicate Group(g: string, letter: char) {
    g == [] || (|g| >= 2 && AllDigits(g[..|g| - 1]) && LowerChar(g[|g| - 1]) == letter)
  }

  /** The number a group captures, 0 when the group is absent. */
  function GroupValue(g: string, letter: char): nat
    requires Group(g, letter)
  {
    if g == [] then 0 else DigitsValue(g[..|g| - 1])
  }

  /** `/^PT(?:(\d+)H)?(?:(\d+)M)?$/i` matches `dur`, with the hours group
      spanning `dur[2..k]` and the minutes group `dur[k..]`. */
  predicate IsoSplit(dur: string, k: nat) {
    && 2 <= k <= |dur|
    && LowerChar(dur[0]) == 'p' && LowerChar(dur[1]) == 't'
    && Group(dur[2..k], 'h') && Group(dur[k..], 'm')
  }

  /** A group followed by anything: the digit run stops at its letter. */
  lemma GroupRun(g: string, s: string, letter: char)
    requires Group(g, letter) && g != [] && !IsDigit(letter)
    ensures DigitRun(g + s) == |g| - 1
  {
    var d := g[..|g| - 1];
    assert g + s == d + ([g[|g| - 1]] + s);
    DigitRunOfDigits(d, [g[|g| - 1]] + s);
  }

  lemma IsoTailGroup(tail: string, hours: nat)
    requires Group(tail, 'm')
    ensures IsoTail(tail, hours) == Some(hours * 60 + GroupValue(tail, 'm'))
  {
    if tail != [] {
      GroupRun(tail, [], 'm');
      assert tail + [] == tail;
    }
  }

  lemma IsoTailOnlyGroup(tail: string, hours: nat)
    requires IsoTail(tail, hours).Some?
    ensures Group(tail, 'm')
  {
    if tail != [] {
      var b := DigitRun(tail);
      assert tail[..|tail| - 1] == tail[..b];
    }
  }

  /** Every text of the form PT[<digits>H][<digits>M], in any case and with
      any digits, leading zeros included, is read as 60 times the hours
      plus the minutes, an absent group counting 0 ("PT" is 0). */
  lemma IsoMatches(dur: string, k: nat)
    requires IsoSplit(dur, k)
    ensures Iso8601ToMinutes(dur) == Some(60 * GroupValue(dur[2..k], 'h') + GroupValue(dur[k..], 'm'))
  {
    assert dur[2..] == dur[2..k] + dur[k..];
    IsoRestGroups(dur[2..k], dur[k..]);
  }

  /** What follows "PT", an hours group and a minutes group. */
  lemma IsoRestGroups(hg: string, mg: string)
    requires Group(hg, 'h') && Group(mg, 'm')
    ensures IsoRest(hg + mg) == Some(60 * GroupValue(hg, 'h') + GroupValue(mg, 'm'))
  {
    if hg == [] {
      assert hg + mg == mg;
      IsoRestMinutesOnly(mg);
    } else {
      IsoRestWithHours(hg, mg);
    }
  }

  lemma IsoRestMinutesOnly(mg: string)
    requires Group(mg, 'm')
    ensures IsoRest(mg) == Some(GroupValue(mg, 'm'))
  {
    if mg != [] {
      GroupRun(mg, [], 'm');
      assert mg + [] == mg;
      assert LowerChar(mg[|mg| - 1]) != 'h';
      assert IsoRest(mg) == IsoTail(mg, 0);
    }
    IsoTailGroup(mg, 0);
  }

  lemma IsoRestWithHours(hg: string, mg: string)
    requires Group(hg, 'h') && hg != [] && Group(mg, 'm')
    ensures IsoRest(hg + mg) == Some(60 * GroupValue(hg, 'h') + GroupValue(mg, 'm'))
  {
    var rest := hg + mg;
    GroupRun(hg, mg, 'h');
    var a := |hg| - 1;
    assert rest[..a] == hg[..a];
    assert rest[a] == hg[a];
    assert rest[a + 1..] == mg;
    assert IsoRest(rest) == IsoTail(mg, DigitsValue(hg[..a]));
    IsoTailGroup(mg, DigitsValue(hg[..a]));
  }

  /** Only text of that form is read as a duration: anything else, such as
      "PT5", "PT5X" or "PT1M2H", gives null. */
  lemma IsoOnlyMatches(dur: string)
    requires Iso8601ToMinutes(dur).Some?
    ensures exists k: nat :: IsoSplit(dur, k)
  {
    var rest := dur[2..];
    var a := DigitRun(rest);
    if 0 < a < |rest| && LowerChar(rest[a]) == 'h' {
      var k := a + 3;
      assert dur[2..k] == rest[..a + 1];
      assert dur[2..k][..a] == rest[..a];
      assert dur[k..] == rest[a + 1..];
      IsoTailOnlyGroup(rest[a + 1..], DigitsValue(rest[..a]));
      assert IsoSplit(dur, k);
    } else {
      assert dur[2..2] == [] && dur[2..] == rest;
      IsoTailOnlyGroup(rest, 0);
      assert IsoSplit(dur, 2);
    }
  }

  /** iso8601ToMinutes gives a number exactly for the texts the regular
      expression matches, and then 60 times the hours plus the minutes. */
  lemma IsoForm(dur: string)
    ensures Iso8601ToMinutes(dur).Some? <==> exists k: nat :: IsoSplit(dur, k)
    ensures forall k: nat :: IsoSplit(dur, k) ==>
              Iso8601ToMinutes(dur) == Some(60 * GroupValue(dur[2..k], 'h') + GroupValue(dur[k..], 'm'))
  {
    if Iso8601ToMinutes(dur).Some? {
      IsoOnlyMatches(dur);
    }
    forall k: nat | IsoSplit(dur, k)
      ensures Iso8601ToMinutes(dur) == Some(60 * GroupValue(dur[2..k], 'h') + GroupValue(dur[k..], 'm'))
    {
      IsoMatches(dur, k);
    }
  }

  /** "PT" alone is 0 minutes; "PT5", "PT5X" and "PT1M2H" are null. */
  lemma IsoExamples()
    ensures Iso8601ToMinutes("PT") == Some(0)
    ensures Iso8601ToMinutes("PT5") == None
    ensures Iso8601ToMinutes("PT5X") == None
    ensures Iso8601ToMinutes("PT1M2H") == None
  {
    assert IsoSplit("PT", 2);
    IsoMatches("PT", 2);
    forall k: nat ensures !IsoSplit("PT5", k) && !IsoSplit("PT5X", k) {
    }
    forall k: nat ensures !IsoSplit("PT1M2H", k) {
      var d := "PT1M2H";
      if 2 <= k < 6 {
        assert d[k..][|d[k..]| - 1] == d[5] == 'H';
      } else if k == 6 {
        assert d[2..6][..3][1] == 'M';
      }
    }
    IsoForm("PT5");
    IsoForm("PT5X");
    IsoForm("PT1M2H");
  }

  /** The letters are matched ignoring case ("pt2h14m" is 134). */
  lemma IsoIgnoresCase(dur: string, other: string)
    requires Agree(dur, other)
    ensures Iso8601ToMinutes(dur) == Iso8601ToMinutes(other)
  {
    if |dur| >= 2 {
      IsoRestAgree(dur[2..], other[2..]);
    }
  }

  /** `a` and `b` are equal but for the case of their letters. */
  predicate Agree(a: string, b: string) {
    && |a| == |b|
    && (forall i :: 0 <= i < |a| ==> LowerChar(a[i]) == LowerChar(b[i]))
    && (forall i :: 0 <= i < |a| ==> (IsDigit(a[i]) || IsDigit(b[i])) ==> a[i] == b[i])
  }

  lemma AgreeSlice(a: string, b: string, i: nat, j: nat)
    requires Agree(a, b) && i <= j <= |a|
    ensures Agree(a[i..j], b[i..j])
  {
  }

  lemma IsoTailAgree(a: string, b: string, hours: nat)
    requires Agree(a, b)
    ensures IsoTail(a, hours) == IsoTail(b, hours)
  {
    DigitRunAgree(a, b);
    var k := DigitRun(a);
    assert a[..k] == b[..k];
  }

  lemma IsoRestAgree(a: string, b: string)
    requires Agree(a, b)
    ensures IsoRest(a) == IsoRest(b)
  {
    DigitRunAgree(a, b);
    var k := DigitRun(a);
    assert a[..k] == b[..k];
    if 0 < k < |a| && LowerChar(a[k]) == 'h' {
      assert LowerChar(b[k]) == 'h';
      assert a[k + 1..|a|] == a[k + 1..] && b[k + 1..|b|] == b[k + 1..];
      AgreeSlice(a, b, k + 1, |a|);
      IsoTailAgree(a[k + 1..], b[k + 1..], DigitsValue(a[..k]));
      assert IsoRest(b) == IsoTail(b[k + 1..], DigitsValue(b[..k]));
    } else {
      assert !(0 < k < |b| && LowerChar(b[k]) == 'h');
      IsoTailAgree(a, b, 0);
    }
  }

  /** Two strings that agree on their digits and, ignoring case, on every
      other character have the same digit run. */
  lemma {:induction false} DigitRunAgree(a: string, b: string)
    requires Agree(a, b)
    ensures DigitRun(a) == DigitRun(b)
    decreases |a|
  {
    if a != [] && IsDigit(a[0]) {
      AgreeSlice(a, b, 1, |a|);
      DigitRunAgree(a[1..], b[1..]);
    }
  }

  /** The digits of the run that starts at `i`. */
  function DigitsAt(s: string, i: nat): (d: string)
    requires i <= |s|
    ensures AllDigits(d) && i + |d| <= |s| && d == s[i..i + |d|]
    ensures i + |d| < |s| ==> !IsDigit(s[i + |d|])
  {
    s[i..i + RunFrom(s, i, IsDigit)]
  }

  /** `w` in any case at `i`, ending at a word boundary. */
  predicate WholeWordAt(s: string, i: nat, w: string) {
    WordAt(s, i, w) && (i + |w| == |s| || !IsWordChar(s[i + |w|]))
  }

  /** Where the spaces after position `i` end. */
  function AfterSpaces(s: string, i: nat): (j: nat)
    requires i <= |s|
    ensures i <= j <= |s| && (j < |s| ==> !IsSpace(s[j]))
  {
    i + RunFrom(s, i, IsSpace)
  }

  /** `/(\d+)\s*(?:mins?|minutes)\b/i` matches at `i`. */
  predicate MinutesAt(s: string, i: nat) {
    i < |s| && IsDigit(s[i]) &&
    MinutesWordAt(s, AfterSpaces(s, i + |DigitsAt(s, i)|))
  }

  /** `(?:mins?|minutes)\b` matches at `q`. */
  predicate MinutesWordAt(s: string, q: nat) {
    WholeWordAt(s, q, "min") || WholeWordAt(s, q, "mins") || WholeWordAt(s, q, "minutes")
  }

  /** The number of the leftmost "<n> min", "<n> mins" or "<n> minutes". */
  function MinutesMention(s: string): (r: Option<nat>)
    ensures r.Some? <==> exists i :: MinutesAt(s, i)
  {
    match FirstMatch(s, 0, MinutesAt)
    case None => None
    case Some(i) => Some(DigitsValue(DigitsAt(s, i)))
  }

  /** `/(\d+)\s*h(?:\s*(\d+)\s*m)?/i` matches at `i`. */
  predicate HoursAt(s: string, i: nat) {
    i < |s| && IsDigit(s[i]) &&
    var q := AfterSpaces(s, i + |DigitsAt(s, i)|);
    q < |s| && LowerChar(s[q]) == 'h'
  }

  /** The optional minutes group after the 'h' at `q`. */
  function MinutesAfterHours(s: string, q: nat): (m: nat)
    requires q < |s|
  {
    var p := AfterSpaces(s, q + 1);
    var d := DigitsAt(s, p);
    if d == [] then 0
    else
      var e := AfterSpaces(s, p + |d|);
      if e < |s| && LowerChar(s[e]) == 'm' then DigitsValue(d) else 0
  }

  /** The leftmost "<h>h" or "<h>h <m>m", as minutes. */
  function HoursMention(s: string): (r: Option<nat>)
    ensures r.Some? <==> exists i :: HoursAt(s, i)
  {
    match FirstMatch(s, 0, HoursAt)
    case None => None
    case Some(i) => Some(HoursValueAt(s, i))
  }

  /** The minutes a match at `i` stands for. */
  function HoursValueAt(s: string, i: nat): nat
    requires HoursAt(s, i)
  {
    var d := DigitsAt(s, i);
    DigitsValue(d) * 60 + MinutesAfterHours(s, AfterSpaces(s, i + |d|))
  }

  /** What the HTML parser finds on a film page: the `content` of the first
      element with itemprop "duration", of the first such meta element, of
      the first meta with property "video:duration" (None where there is
      none), and the text of the whole document. */
  datatype FilmPage = FilmPage(itemprop: Option<string>, metaItemprop: Option<string>,
                               videoDuration: Option<string>, text: string)

  /** The duration sniffRuntimeMinutes reads, if any is given and parses. */
  function IsoRuntime(p: FilmPage): Option<nat> {
    var iso := FirstTruthy([p.itemprop, p.metaItemprop, p.videoDuration]);
    if iso.Some? then Iso8601ToMinutes(iso.value) else None
  }

  /** sniffRuntimeMinutes: the schema.org duration if it parses, else the
      first "<n> min" of the text, else the first "<h>h <m>m", else null. */
  function SniffRuntimeMinutes(p: FilmPage): (r: Option<nat>)
    ensures r.None? <==> IsoRuntime(p).None? && MinutesMention(p.text).None? && HoursMention(p.text).None?
  {
    var iso := IsoRuntime(p);
    if iso.Some? then iso
    else
      var m1 := MinutesMention(p.text);
      if m1.Some? then m1 else HoursMention(p.text)
  }

  /** `k` digits at `i`, one space and a whole word "min" make a match. */
  lemma MinutesAtBlock(s: string, i: nat, k: nat)
    requires 0 < k && i + k + 4 <= |s|
    requires forall j :: i <= j < i + k ==> IsDigit(s[j])
    requires s[i + k] == ' ' && s[i + k + 1] == 'm' && s[i + k + 2] == 'i' && s[i + k + 3] == 'n'
    requires i + k + 4 == |s| || !IsWordChar(s[i + k + 4])
    ensures MinutesAt(s, i) && DigitsAt(s, i) == s[i..i + k]
  {
    RunFromBlock(s, i, k, IsDigit);
    assert |DigitsAt(s, i)| == k;
    RunFromBlock(s, i + k, 1, IsSpace);
    assert AfterSpaces(s, i + k) == i + k + 1;
    WordMin(s, i + k + 1);
  }

  lemma WordMin(s: string, q: nat)
    requires q + 3 <= |s| && s[q] == 'm' && s[q + 1] == 'i' && s[q + 2] == 'n'
    requires q + 3 == |s| || !IsWordChar(s[q + 3])
    ensures MinutesWordAt(s, q)
  {
    forall j | 0 <= j < 3 ensures LowerChar(s[q + j]) == "min"[j] {
      if j == 0 {} else if j == 1 {} else {}
    }
    assert WholeWordAt(s, q, "min");
  }

  /** "<n> min" after a text without digits gives n, whatever follows
      after a word boundary ("Drama 95 min" is 95). */
  lemma MinutesMentionOf(pre: string, ds: string, post: string)
    requires forall j :: 0 <= j < |pre| ==> !IsDigit(pre[j])
    requires AllDigits(ds) && ds != []
    requires post == [] || !IsWordChar(post[0])
    ensures MinutesMention(pre + ds + " min" + post) == Some(DigitsValue(ds))
  {
    var s := pre + ds + " min" + post;
    assert MinutesAt(s, |pre|) && DigitsAt(s, |pre|) == ds by {
      MinutesTextFacts(pre, ds, post);
    }
    assert forall j :: 0 <= j < |pre| ==> !MinutesAt(s, j) by {
      PrefixNoMatch(pre, ds + " min" + post);
      JoinAssoc(pre, ds, " min", post);
    }
    FirstMatchIs(s, |pre|, MinutesAt);
    assert FirstMatch(s, 0, MinutesAt) == Some(|pre|);
  }

  lemma MinutesTextFacts(pre: string, ns: string, post: string)
    requires AllDigits(ns) && ns != []
    requires post == [] || !IsWordChar(post[0])
    ensures var s := pre + ns + " min" + post;
            MinutesAt(s, |pre|) && DigitsAt(s, |pre|) == ns
  {
    var s := pre + ns + " min" + post;
    BlockFacts(pre, ns, " min", post);
    MinutesAtBlock(s, |pre|, |ns|);
  }

  /** Neither pattern can match inside a text without digits, since both
      start with a digit. */
  lemma PrefixNoMatch(pre: string, rest: string)
    requires forall j :: 0 <= j < |pre| ==> !IsDigit(pre[j])
    ensures forall j :: 0 <= j < |pre| ==> !MinutesAt(pre + rest, j) && !HoursAt(pre + rest, j)
  {
    forall j | 0 <= j < |pre| ensures (pre + rest)[j] == pre[j] { }
  }

  /** Where the pieces of `pre + d + w + post` sit. */
  lemma BlockFacts(pre: string, d: string, w: string, post: string)
    requires AllDigits(d)
    ensures var s := pre + d + w + post;
            var e := |pre| + |d|;
            && |s| == e + |w| + |post|
            && (forall j :: 0 <= j < |pre| ==> s[j] == pre[j])
            && (forall j :: |pre| <= j < e ==> IsDigit(s[j]))
            && s[|pre|..e] == d
            && (forall j :: 0 <= j < |w| ==> s[e + j] == w[j])
            && (post != [] ==> s[e + |w|] == post[0])
  {
    var s := pre + d + w + post;
    assert s == pre + (d + (w + post));
    forall j | |pre| <= j < |pre| + |d| ensures s[j] == d[j - |pre|] { }
  }

  /** `k` digits at `i` followed by an 'h' make a match. */
  lemma HoursAtBlock(s: string, i: nat, k: nat)
    requires 0 < k && i + k < |s|
    requires forall j :: i <= j < i + k ==> IsDigit(s[j])
    requires s[i + k] == 'h'
    ensures HoursAt(s, i) && DigitsAt(s, i) == s[i..i + k] && AfterSpaces(s, i + k) == i + k
    ensures AfterSpaces(s, i + |DigitsAt(s, i)|) == i + k
  {
    RunFromBlock(s, i, k, IsDigit);
    assert |DigitsAt(s, i)| == k;
    RunFromBlock(s, i + k, 0, IsSpace);
  }

  /** " <m>m" after the 'h' at `q` is read as m minutes. */
  lemma MinutesAfterHoursBlock(s: string, q: nat, k: nat)
    requires 0 < k && q + k + 2 < |s|
    requires s[q + 1] == ' ' && forall j :: q + 2 <= j < q + 2 + k ==> IsDigit(s[j])
    requires s[q + 2 + k] == 'm'
    ensures MinutesAfterHours(s, q) == DigitsValue(s[q + 2..q + 2 + k])
  {
    assert !IsSpace(s[q + 2]);
    RunFromBlock(s, q + 1, 1, IsSpace);
    assert AfterSpaces(s, q + 1) == q + 2;
    RunFromBlock(s, q + 2, k, IsDigit);
    var d := DigitsAt(s, q + 2);
    assert |d| == k && d == s[q + 2..q + 2 + k];
    RunFromBlock(s, q + 2 + k, 0, IsSpace);
    assert AfterSpaces(s, q + 2 + k) == q + 2 + k;
  }

  /** The minutes of a match: 60 per hour, plus the optional minutes group. */
  lemma HoursValueParts(s: string, i: nat)
    requires HoursAt(s, i)
    ensures HoursValueAt(s, i)
            == DigitsValue(DigitsAt(s, i)) * 60 + MinutesAfterHours(s, AfterSpaces(s, i + |DigitsAt(s, i)|))
  {
  }

  /** The leftmost match is the one the hours mention reads. */
  lemma HoursMentionAt(s: string, i: nat, v: nat)
    requires HoursAt(s, i) && forall j :: 0 <= j < i ==> !HoursAt(s, j)
    requires HoursValueAt(s, i) == v
    ensures HoursMention(s) == Some(v)
  {
    FirstMatchIs(s, i, HoursAt);
  }

  /** A value known to be h·60 + m may be written so inside `Some`. */
  lemma SomeSum(r: Option<nat>, v: nat, h: nat, m: nat)
    requires r == Some(v) && v == h * 60 + m
    ensures r == Some(h * 60 + m)
  {
  }

  /** "<h>h <m>m" after a text without digits gives h·60 + m minutes,
      whatever follows ("2h 14m" is 134). */
  lemma HoursMentionOf(pre: string, hs: string, ms: string, post: string)
    requires forall j :: 0 <= j < |pre| ==> !IsDigit(pre[j])
    requires AllDigits(hs) && hs != [] && AllDigits(ms) && ms != []
    ensures HoursMention(pre + hs + "h " + ms + "m" + post) == Some(DigitsValue(hs) * 60 + DigitsValue(ms))
  {
    HoursTextLayout(pre, hs, ms, post);
    HoursMentionLayout(pre + hs + "h " + ms + "m" + post, pre, hs, ms, post);
  }

  /** The same for any text laid out as `pre`, "<h>h <m>m" and `post`. */
  lemma HoursMentionLayout(s: string, pre: string, hs: string, ms: string, post: string)
    requires HoursLayout(s, pre, hs, ms, post)
    requires forall j :: 0 <= j < |pre| ==> !IsDigit(pre[j])
    requires AllDigits(hs) && hs != [] && AllDigits(ms) && ms != []
    ensures HoursMention(s) == Some(DigitsValue(hs) * 60 + DigitsValue(ms))
  {
    HoursMinutesAt(s, |pre|, hs, ms);
    forall j | 0 <= j < |pre| ensures !HoursAt(s, j) {
      assert s[j] == pre[j];
    }
    HoursMentionAt(s, |pre|, HoursValueAt(s, |pre|));
    SomeSum(HoursMention(s), HoursValueAt(s, |pre|), DigitsValue(hs), DigitsValue(ms));
  }

  /** `s` reads `pre`, the digits `hs`, "h ", the digits `ms`, "m" and
      `post`, character by character. */
  predicate HoursLayout(s: string, pre: string, hs: string, ms: string, post: string) {
    var q := |pre| + |hs|;
    var e := q + 2 + |ms|;
    && |s| == e + 1 + |post|
    && s[q] == 'h' && s[q + 1] == ' ' && s[e] == 'm'
    && s[|pre|..q] == hs && s[q + 2..e] == ms
    && (forall j :: 0 <= j < |pre| ==> s[j] == pre[j])
    && (forall j :: |pre| <= j < q ==> s[j] == hs[j - |pre|])
    && (forall j :: q + 2 <= j < e ==> s[j] == ms[j - q - 2])
    && (forall j :: e < j < |s| ==> s[j] == post[j - e - 1])
  }

  /** `pre + hs + "h " + ms + "m" + post` is laid out so. */
  lemma HoursTextLayout(pre: string, hs: string, ms: string, post: string)
    ensures HoursLayout(pre + hs + "h " + ms + "m" + post, pre, hs, ms, post)
  {
    var s := pre + hs + "h " + ms + "m" + post;
    PiecesOfJoin(pre, hs, "h ", ms, "m", post);
    var q := |pre| + |hs|;
    assert s[q] == "h "[0] && s[q + 1] == "h "[1];
    assert s[q + 2 + |ms|] == "m"[0];
  }

  /** The digits `hs` at `i`, "h ", the digits `ms` and an 'm' are read
      as hours and minutes. */
  lemma HoursMinutesAt(s: string, i: nat, hs: string, ms: string)
    requires AllDigits(hs) && hs != [] && AllDigits(ms) && ms != []
    requires i + |hs| + 2 + |ms| < |s|
    requires s[i..i + |hs|] == hs && s[i + |hs| + 2..i + |hs| + 2 + |ms|] == ms
    requires s[i + |hs|] == 'h' && s[i + |hs| + 1] == ' ' && s[i + |hs| + 2 + |ms|] == 'm'
    ensures HoursAt(s, i) && HoursValueAt(s, i) == DigitsValue(hs) * 60 + DigitsValue(ms)
  {
    var k, m := |hs|, |ms|;
    forall j | i <= j < i + k ensures IsDigit(s[j]) {
      assert s[j] == s[i..i + k][j - i];
    }
    forall j | i + k + 2 <= j < i + k + 2 + m ensures IsDigit(s[j]) {
      assert s[j] == s[i + k + 2..i + k + 2 + m][j - i - k - 2];
    }
    HoursMinutesBlock(s, i, k, m);
  }

  /** `k` digits at `i`, "h ", `m` digits and an 'm'. */
  lemma HoursMinutesBlock(s: string, i: nat, k: nat, m: nat)
    requires 0 < k && 0 < m && i + k + 2 + m < |s|
    requires s[i + k] == 'h' && s[i + k + 1] == ' ' && s[i + k + 2 + m] == 'm'
    requires forall j :: i <= j < i + k ==> IsDigit(s[j])
    requires forall j :: i + k + 2 <= j < i + k + 2 + m ==> IsDigit(s[j])
    ensures HoursAt(s, i)
    ensures HoursValueAt(s, i) == DigitsValue(s[i..i + k]) * 60 + DigitsValue(s[i + k + 2..i + k + 2 + m])
  {
    HoursAtBlock(s, i, k);
    MinutesAfterHoursBlock(s, i + k, m);
    HoursValueParts(s, i);
  }

  /** "<h>h" that no space or digit follows, after a text without digits,
      gives h·60 minutes ("3h" is 180). */
  lemma HoursOnlyMentionOf(pre: string, hs: string, post: string)
    requires forall j :: 0 <= j < |pre| ==> !IsDigit(pre[j])
    requires AllDigits(hs) && hs != []
    requires post == [] || (!IsSpace(post[0]) && !IsDigit(post[0]))
    ensures HoursMention(pre + hs + "h" + post) == Some(DigitsValue(hs) * 60)
  {
    var s := pre + hs + "h" + post;
    BlockFacts(pre, hs, "h", post);
    HoursOnlyAt(s, |pre|, hs);
    forall j | 0 <= j < |pre| ensures !HoursAt(s, j) {
      assert s[j] == pre[j];
    }
    HoursMentionAt(s, |pre|, DigitsValue(hs) * 60);
  }

  /** The digits `hs` at `i` and an 'h' that no space or digit follows are
      read as whole hours. */
  lemma HoursOnlyAt(s: string, i: nat, hs: string)
    requires AllDigits(hs) && hs != [] && i + |hs| < |s|
    requires s[i..i + |hs|] == hs && s[i + |hs|] == 'h'
    requires i + |hs| + 1 == |s| || (!IsSpace(s[i + |hs| + 1]) && !IsDigit(s[i + |hs| + 1]))
    ensures HoursAt(s, i) && HoursValueAt(s, i) == DigitsValue(hs) * 60
  {
    var q := i + |hs|;
    forall j | i <= j < q ensures IsDigit(s[j]) {
      assert s[j] == s[i..q][j - i];
    }
    HoursOnlyBlock(s, i, |hs|);
  }

  /** `k` digits at `i` and an 'h' that no space or digit follows. */
  lemma HoursOnlyBlock(s: string, i: nat, k: nat)
    requires 0 < k && i + k < |s| && s[i + k] == 'h'
    requires forall j :: i <= j < i + k ==> IsDigit(s[j])
    requires i + k + 1 == |s| || (!IsSpace(s[i + k + 1]) && !IsDigit(s[i + k + 1]))
    ensures HoursAt(s, i) && HoursValueAt(s, i) == DigitsValue(s[i..i + k]) * 60
  {
    var q := i + k;
    HoursAtBlock(s, i, k);
    RunFromBlock(s, q + 1, 0, IsSpace);
    RunFromBlock(s, q + 1, 0, IsDigit);
    assert DigitsAt(s, q + 1) == [];
    assert MinutesAfterHours(s, q) == 0;
    HoursValueParts(s, i);
  }

  /** A run of digits from `i` that ends at `e`, where no minutes word
      starts, is no minutes mention. */
  lemma NoMinutesAtRun(s: string, i: nat, e: nat)
    requires i < e < |s| && forall j :: i <= j < e ==> IsDigit(s[j])
    requires !IsSpace(s[e]) && !IsDigit(s[e]) && !MinutesWordAt(s, e)
    ensures !MinutesAt(s, i)
  {
    RunFromBlock(s, i, e - i, IsDigit);
    assert i + |DigitsAt(s, i)| == e;
    RunFromBlock(s, e, 0, IsSpace);
    assert AfterSpaces(s, i + |DigitsAt(s, i)|) == e;
  }

  /** The first duration attribute given, when it has the form
      PT[<h>H][<m>M], is the runtime, whatever the text says. */
  lemma SniffPrefersDuration(p: FilmPage, dur: string, k: nat)
    requires FirstTruthy([p.itemprop, p.metaItemprop, p.videoDuration]) == Some(dur) && IsoSplit(dur, k)
    ensures SniffRuntimeMinutes(p) == Some(60 * GroupValue(dur[2..k], 'h') + GroupValue(dur[k..], 'm'))
  {
    IsoMatches(dur, k);
  }

  /** Without a duration attribute, "<n> min" in the text is the runtime. */
  lemma SniffReadsMinutes(pre: string, n: nat, post: string)
    requires forall j :: 0 <= j < |pre| ==> !IsDigit(pre[j])
    requires post == [] || !IsWordChar(post[0])
    ensures SniffRuntimeMinutes(FilmPage(None, None, None, pre + NatToString(n) + " min" + post)) == Some(n)
  {
    var s := pre + NatToString(n) + " min" + post;
    MinutesMentionOf(pre, NatToString(n), post);
    NatToStringValue(n);
    SniffFromMinutes(s);
  }

  /** Without a duration attribute, a minutes mention is the runtime. */
  lemma SniffFromMinutes(t: string)
    requires MinutesMention(t).Some?
    ensures SniffRuntimeMinutes(FilmPage(None, None, None, t)) == MinutesMention(t)
  {
  }

  /** Without a duration attribute, "<h>h <m>m" in a text with no other
      digits is the runtime, h·60 + m: the 'm' of "14m" followed by a word
      boundary is not a minutes mention. */
  lemma SniffReadsHours(pre: string, hs: string, ms: string, post: string)
    requires forall j :: 0 <= j < |pre| ==> !IsDigit(pre[j])
    requires forall j :: 0 <= j < |post| ==> !IsDigit(post[j])
    requires post == [] || !IsWordChar(post[0])
    requires AllDigits(hs) && hs != [] && AllDigits(ms) && ms != []
    ensures SniffRuntimeMinutes(FilmPage(None, None, None, pre + hs + "h " + ms + "m" + post))
            == Some(DigitsValue(hs) * 60 + DigitsValue(ms))
  {
    HoursTextLayout(pre, hs, ms, post);
    SniffHoursLayout(pre + hs + "h " + ms + "m" + post, pre, hs, ms, post);
  }

  /** The same for any text laid out as `pre`, "<h>h <m>m" and `post`. */
  lemma SniffHoursLayout(s: string, pre: string, hs: string, ms: string, post: string)
    requires HoursLayout(s, pre, hs, ms, post)
    requires forall j :: 0 <= j < |pre| ==> !IsDigit(pre[j])
    requires forall j :: 0 <= j < |post| ==> !IsDigit(post[j])
    requires post == [] || !IsWordChar(post[0])
    requires AllDigits(hs) && hs != [] && AllDigits(ms) && ms != []
    ensures SniffRuntimeMinutes(FilmPage(None, None, None, s)) == Some(DigitsValue(hs) * 60 + DigitsValue(ms))
  {
    NoMinutesInHours(s, pre, hs, ms, post);
    HoursMentionLayout(s, pre, hs, ms, post);
    SniffFromHours(s);
  }

  /** Without a duration attribute or a minutes mention, the hours mention
      is the runtime. */
  lemma SniffFromHours(t: string)
    requires MinutesMention(t) == None
    ensures SniffRuntimeMinutes(FilmPage(None, None, None, t)) == HoursMention(t)
  {
  }

  /** No minutes mention in a text whose only digits are those of
      "<h>h <m>m", when a word boundary follows the 'm'. */
  lemma NoMinutesInHours(s: string, pre: string, hs: string, ms: string, post: string)
    requires HoursLayout(s, pre, hs, ms, post)
    requires forall j :: 0 <= j < |pre| ==> !IsDigit(pre[j])
    requires forall j :: 0 <= j < |post| ==> !IsDigit(post[j])
    requires post == [] || !IsWordChar(post[0])
    requires AllDigits(hs) && hs != [] && AllDigits(ms) && ms != []
    ensures MinutesMention(s) == None
  {
    var q := |pre| + |hs|;
    var e := q + 2 + |ms|;
    assert e + 1 < |s| ==> s[e + 1] == post[0];
    NoMinutesWord(s, q);
    NoMinutesWord(s, e);
    forall p: nat ensures !MinutesAt(s, p) {
      if p < |pre| {
        assert s[p] == pre[p];
      } else if p < q {
        assert forall j :: p <= j < q ==> IsDigit(s[j]);
        NoMinutesAtRun(s, p, q);
      } else if q + 2 <= p < e {
        assert forall j :: p <= j < e ==> IsDigit(s[j]);
        NoMinutesAtRun(s, p, e);
      } else if e < p < |s| {
        assert s[p] == post[p - e - 1];
      }
    }
  }

  /** No minutes word starts where the text does not read "mi" in any case. */
  lemma NoMinutesWord(s: string, q: nat)
    requires q < |s|
    requires LowerChar(s[q]) != 'm' || q + 1 == |s| || LowerChar(s[q + 1]) != 'i'
    ensures !MinutesWordAt(s, q)
  {
    assert "min"[0] == "mins"[0] == "minutes"[0] == 'm';
    assert "min"[1] == "mins"[1] == "minutes"[1] == 'i';
  }
}
