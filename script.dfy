/** The browser scraper of script.js: cleaning the typed user name, routing a
    request through a CORS proxy, reading films from a /films/ page, walking
    the pages of a profile with de-duplication, trying the proxies in turn,
    and writing the CSV export. */
module Script {
  import opened Text
  import opened Net
  import Users

  // ------------------------------------------------------------ user name

  /** `replace(/\/+$/, "")`: every trailing '/' removed. */
  function StripTrailingSlashes(s: string): (r: string)
    ensures |r| <= |s| && r == s[..|r|]
    ensures r == [] || r[|r| - 1] != '/'
    ensures forall i :: |r| <= i < |s| ==> s[i] == '/'
  {
    if s != [] && s[|s| - 1] == '/' then StripTrailingSlashes(s[..|s| - 1]) else s
  }

  const HttpsProfilePrefix := "https://letterboxd.com/"
  const HttpProfilePrefix := "http://letterboxd.com/"

  /** `replace(/^https?:\/\/letterboxd\.com\//, "")`. */
  function StripProfilePrefix(s: string): (r: string)
    ensures StartsWith(s, HttpsProfilePrefix) ==> r == s[|HttpsProfilePrefix|..]
    ensures !StartsWith(s, HttpsProfilePrefix) && StartsWith(s, HttpProfilePrefix) ==> r == s[|HttpProfilePrefix|..]
    ensures !StartsWith(s, HttpsProfilePrefix) && !StartsWith(s, HttpProfilePrefix) ==> r == s
  {
    if StartsWith(s, HttpsProfilePrefix) then s[|HttpsProfilePrefix|..]
    else if StartsWith(s, HttpProfilePrefix) then s[|HttpProfilePrefix|..]
    else s
  }

  /** `replace(/[^a-z0-9-_]/g, "")`: only the characters of the class, in order. */
  function KeepUserChars(s: string): (r: string)
    ensures |r| <= |s|
    ensures forall i :: 0 <= i < |r| ==> Users.IsUserChar(r[i])
    ensures (forall i :: 0 <= i < |s| ==> Users.IsUserChar(s[i])) ==> r == s
  {
    if s == [] then []
    else (if Users.IsUserChar(s[0]) then [s[0]] else []) + KeepUserChars(s[1..])
  }

  /** sanitizeUsername(raw): "" for a missing or empty value; otherwise trim,
      lower-case, drop one leading '@', a leading profile URL and trailing
      slashes, then every character outside [a-z0-9-_]. */
  function SanitizeUsername(raw: Option<string>): (r: string)
    ensures raw.None? || raw == Some("") ==> r == ""
    ensures forall i :: 0 <= i < |r| ==> Users.IsUserChar(r[i])
  {
    if raw.None? || raw.value == "" then ""
    else KeepUserChars(StripTrailingSlashes(StripProfilePrefix(Users.StripAt(Lower(Trim(raw.value))))))
  }

  lemma UserCharFacts(c: char)
    requires Users.IsUserChar(c)
    ensures !IsSpace(c) && !IsUpper(c) && c != '@' && c != '/' && c != ':'
  {
  }

  /** Neither profile prefix can start a string whose fifth and sixth
      characters are not ':'. */
  lemma NoProfilePrefix(s: string)
    requires |s| > 5 ==> s[4] != ':' && s[5] != ':'
    ensures StripProfilePrefix(s) == s
  {
    assert HttpsProfilePrefix[5] == ':' && HttpProfilePrefix[4] == ':';
  }

  /** A string of user-name characters passes through every step unchanged. */
  lemma SanitizeUserChars(s: string)
    requires s != [] && forall i :: 0 <= i < |s| ==> Users.IsUserChar(s[i])
    ensures SanitizeUsername(Some(s)) == s
  {
    UserCharFacts(s[0]);
    UserCharFacts(s[|s| - 1]);
    if |s| > 5 {
      UserCharFacts(s[4]);
      UserCharFacts(s[5]);
    }
    TrimUnchanged(s);
    forall i | 0 <= i < |s| ensures !IsUpper(s[i]) { UserCharFacts(s[i]); }
    LowerUnchanged(s);
    assert Users.StripAt(s) == s;
    NoProfilePrefix(s);
    assert StripTrailingSlashes(s) == s;
  }

  /** Sanitising twice is sanitising once. */
  lemma SanitizeIdempotent(raw: Option<string>)
    ensures SanitizeUsername(Some(SanitizeUsername(raw))) == SanitizeUsername(raw)
  {
    var r := SanitizeUsername(raw);
    if r != "" { SanitizeUserChars(r); }
  }

  lemma LowerAppend(a: string, b: string)
    ensures Lower(a + b) == Lower(a) + Lower(b)
  {
    assert forall i :: 0 <= i < |a + b| ==> Lower(a + b)[i] == (Lower(a) + Lower(b))[i];
  }

  lemma StripProfilePrefixOf(w: string)
    ensures StripProfilePrefix(HttpsProfilePrefix + w) == w
    ensures StripProfilePrefix(HttpProfilePrefix + w) == w
  {
    var a := HttpsProfilePrefix + w;
    var b := HttpProfilePrefix + w;
    assert a[..|HttpsProfilePrefix|] == HttpsProfilePrefix && a[|HttpsProfilePrefix|..] == w;
    assert b[..|HttpProfilePrefix|] == HttpProfilePrefix && b[|HttpProfilePrefix|..] == w;
    assert b[4] == ':' != HttpsProfilePrefix[4];
  }

  lemma StripOneTrailingSlash(v: string)
    requires v == [] || v[|v| - 1] != '/'
    ensures StripTrailingSlashes(v + "/") == v
  {
    assert (v + "/")[..|v|] == v;
  }

  lemma LowerUserChars(v: string)
    requires forall i :: 0 <= i < |v| ==> Users.IsUserChar(LowerChar(v[i]))
    ensures forall i :: 0 <= i < |Lower(v)| ==> Users.IsUserChar(Lower(v)[i])
  {
  }

  /** The steps of SanitizeUsername after the '@' step, one at a time. */
  lemma SanitizeSteps(s: string, m: string, w: string, x: string)
    requires s != "" && Users.StripAt(Lower(Trim(s))) == m
    requires StripProfilePrefix(m) == w && StripTrailingSlashes(w) == x && KeepUserChars(x) == x
    ensures SanitizeUsername(Some(s)) == x
  {
  }

  lemma LowerProfileUrl(p: string, v: string)
    ensures Lower(p + v + "/") == Lower(p) + (Lower(v) + "/")
  {
    LowerAppend(p + v, "/");
    LowerAppend(p, v);
    assert Lower(p) + Lower(v) + "/" == Lower(p) + (Lower(v) + "/");
  }

  /** The lower-cased user-name part and its slash after the prefix is gone. */
  lemma LowerNameTail(v: string)
    requires v != [] && forall i :: 0 <= i < |v| ==> Users.IsUserChar(LowerChar(v[i]))
    ensures StripTrailingSlashes(Lower(v) + "/") == Lower(v)
    ensures KeepUserChars(Lower(v)) == Lower(v)
  {
    LowerUserChars(v);
    UserCharFacts(Lower(v)[|v| - 1]);
    StripOneTrailingSlash(Lower(v));
  }

  lemma LowerCharIsH(c: char)
    requires LowerChar(c) == 'h'
    ensures !IsSpace(c)
  {
  }

  lemma LowerCharIsSlash(c: char)
    requires LowerChar(c) == '/'
    ensures !IsSpace(c)
  {
  }

  /** A string that lower-cases to `q + w`, `q` starting with 'h' and `w`
      ending in '/', is unchanged by trimming and by the '@' step. */
  lemma TrimLowerStripAt(s: string, q: string, w: string)
    requires Lower(s) == q + w && q != [] && q[0] == 'h' && w != [] && w[|w| - 1] == '/'
    ensures Users.StripAt(Lower(Trim(s))) == q + w
  {
    assert LowerChar(s[0]) == 'h' by { assert Lower(s)[0] == q[0]; }
    assert LowerChar(s[|s| - 1]) == '/' by { assert Lower(s)[|s| - 1] == w[|w| - 1]; }
    LowerCharIsH(s[0]);
    LowerCharIsSlash(s[|s| - 1]);
    TrimUnchanged(s);
    Users.StripAtNoAt(q + w);
  }

  /** Trimming, lower-casing and the '@' step turn `p + v + "/"` into
      `q + Lower(v) + "/"` when `p` lower-cases to `q`, which starts with 'h'. */
  lemma LowerProfileUrlSteps(p: string, v: string, q: string)
    requires Lower(p) == q && q != [] && q[0] == 'h'
    ensures Users.StripAt(Lower(Trim(p + v + "/"))) == q + (Lower(v) + "/")
  {
    LowerProfileUrl(p, v);
    TrimLowerStripAt(p + v + "/", q, Lower(v) + "/");
  }

  /** A profile URL typed in any case, with a trailing slash, gives the user
      name it names, lower-cased ("HTTPS://Letterboxd.com/Jane/" gives "jane"). */
  lemma SanitizeProfileUrl(p: string, v: string)
    requires Lower(p) == HttpsProfilePrefix || Lower(p) == HttpProfilePrefix
    requires v != [] && forall i :: 0 <= i < |v| ==> Users.IsUserChar(LowerChar(v[i]))
    ensures SanitizeUsername(Some(p + v + "/")) == Lower(v)
  {
    var w := Lower(v) + "/";
    var q := Lower(p);
    assert q[0] == 'h';
    LowerProfileUrlSteps(p, v, q);
    StripProfilePrefixOf(w);
    LowerNameTail(v);
    SanitizeSteps(p + v + "/", q + w, w, Lower(v));
  }

  // ------------------------------------------------------------ proxy URL

  /** The three CORS proxies of PROXIES, in rotation order. */
  const Proxies: seq<string> :=
    ["https://cors.isomorphic-git.org/", "https://api.allorigins.win/raw?url=", "https://thingproxy.freeboard.io/fetch/"]

  /** makeProxyUrl(proxyBase, target); `encode` is encodeURIComponent. */
  function MakeProxyUrl(proxyBase: string, target: string, encode: string -> string): string {
    if proxyBase == "" then target
    else
      var b := StripTrailingSlashes(proxyBase);
      if ContainsIgnoreCase(b, "allorigins") then
        var sepOk := EndsWith(b, "=") || EndsWith(Lower(b), "?url=") || EndsWith(Lower(b), "&url=");
        b + (if sepOk then "" else "?url=") + encode(target)
      else if ContainsIgnoreCase(b, "thingproxy") then
        (if EndsWith(b, "/fetch") then b + "/" else b + "/fetch/") + target
      else b + "/" + target
  }

  /** Without a proxy the target is fetched directly. */
  lemma MakeProxyUrlDirect(target: string, encode: string -> string)
    ensures MakeProxyUrl("", target, encode) == target
  {
  }

  /** An unrecognised proxy gets the target appended as a path. */
  lemma MakeProxyUrlDefault(base: string, target: string, encode: string -> string)
    requires base != ""
    requires !ContainsIgnoreCase(StripTrailingSlashes(base), "allorigins")
    requires !ContainsIgnoreCase(StripTrailingSlashes(base), "thingproxy")
    ensures MakeProxyUrl(base, target, encode) == StripTrailingSlashes(base) + "/" + target
  {
  }

  /** Only the base without its trailing slashes matters. */
  lemma MakeProxyUrlSlashes(a: string, b: string, target: string, encode: string -> string)
    requires a != "" && b != "" && StripTrailingSlashes(a) == StripTrailingSlashes(b)
    ensures MakeProxyUrl(a, target, encode) == MakeProxyUrl(b, target, encode)
  {
  }

  lemma {:induction false} ContainsIgnoreCaseExtend(s: string, t: string, p: string)
    requires ContainsIgnoreCase(s, p)
    ensures ContainsIgnoreCase(s + t, p)
    decreases |s|
  {
    assert (s + t)[..|p|] == s[..|p|];
    if !EqualsIgnoreCase(s[..|p|], p) {
      assert (s + t)[1..] == s[1..] + t;
      ContainsIgnoreCaseExtend(s[1..], t, p);
    }
  }

  lemma NoTrailingSlash(s: string)
    requires s == [] || s[|s| - 1] != '/'
    ensures StripTrailingSlashes(s) == s
  {
  }

  /** A thingproxy base that does not end in "/fetch" gets "/fetch/" added. */
  lemma ThingproxyPlain(x: string, target: string, encode: string -> string)
    requires x != [] && x[|x| - 1] != '/' && !EndsWith(x, "/fetch")
    requires !ContainsIgnoreCase(x, "allorigins") && ContainsIgnoreCase(x, "thingproxy")
    ensures MakeProxyUrl(x, target, encode) == x + "/fetch/" + target
  {
    NoTrailingSlash(x);
  }

  /** A thingproxy base ending in "/fetch" gets only "/" added. */
  lemma ThingproxyFetch(xf: string, target: string, encode: string -> string)
    requires xf != [] && StripTrailingSlashes(xf) == xf && EndsWith(xf, "/fetch")
    requires !ContainsIgnoreCase(xf, "allorigins") && ContainsIgnoreCase(xf, "thingproxy")
    ensures MakeProxyUrl(xf, target, encode) == xf + "/" + target
  {
  }

  lemma FetchSuffix(x: string, target: string)
    ensures x + "/fetch" + "/" + target == x + "/fetch/" + target
    ensures EndsWith(x + "/fetch", "/fetch")
    ensures StripTrailingSlashes(x + "/fetch") == x + "/fetch"
    ensures StripTrailingSlashes(x + "/fetch/") == x + "/fetch"
  {
    var xf := x + "/fetch";
    assert xf[|xf| - 6..] == "/fetch";
    assert xf[|xf| - 1] == 'h';
    NoTrailingSlash(xf);
    StripOneTrailingSlash(xf);
    assert xf + "/" == x + "/fetch/";
    assert "/fetch" + "/" == "/fetch/";
  }

  lemma NotContainsPrefix(s: string, t: string, p: string)
    requires !ContainsIgnoreCase(s + t, p)
    ensures !ContainsIgnoreCase(s, p)
  {
    if ContainsIgnoreCase(s, p) { ContainsIgnoreCaseExtend(s, t, p); }
  }

  /** "X/fetch" gives the request that "X" gives. */
  lemma ThingproxyWithFetch(x: string, target: string, encode: string -> string)
    requires x != [] && x[|x| - 1] != '/' && !EndsWith(x, "/fetch")
    requires !ContainsIgnoreCase(x + "/fetch", "allorigins")
    requires ContainsIgnoreCase(x, "thingproxy")
    ensures MakeProxyUrl(x + "/fetch", target, encode) == x + "/fetch/" + target
  {
    var xf := x + "/fetch";
    ContainsIgnoreCaseExtend(x, "/fetch", "thingproxy");
    FetchSuffix(x, target);
    ThingproxyFetch(xf, target, encode);
  }

  /** The same thingproxy request is built from "X", "X/fetch" and "X/fetch/". */
  lemma MakeProxyUrlThingproxyForms(x: string, target: string, encode: string -> string)
    requires x != [] && x[|x| - 1] != '/' && !EndsWith(x, "/fetch")
    requires !ContainsIgnoreCase(x + "/fetch", "allorigins")
    requires ContainsIgnoreCase(x, "thingproxy")
    ensures MakeProxyUrl(x, target, encode) == x + "/fetch/" + target
    ensures MakeProxyUrl(x + "/fetch", target, encode) == x + "/fetch/" + target
    ensures MakeProxyUrl(x + "/fetch/", target, encode) == x + "/fetch/" + target
  {
    NotContainsPrefix(x, "/fetch", "allorigins");
    ThingproxyPlain(x, target, encode);
    ThingproxyWithFetch(x, target, encode);
    FetchSuffix(x, target);
    MakeProxyUrlSlashes(x + "/fetch/", x + "/fetch", target, encode);
  }

  /** The sepOk test of allorigins amounts to "ends in '='". */
  lemma AllOriginsSeparator(b: string)
    ensures (EndsWith(b, "=") || EndsWith(Lower(b), "?url=") || EndsWith(Lower(b), "&url="))
            <==> EndsWith(b, "=")
  {
    if EndsWith(Lower(b), "?url=") || EndsWith(Lower(b), "&url=") {
      assert Lower(b)[|b| - 1] == '=';
      assert LowerChar(b[|b| - 1]) == '=';
    }
  }

  /** An allorigins base gets "?url=" only when it does not already end in
      '=', and then the encoded target. */
  lemma MakeProxyUrlAllOrigins(base: string, target: string, encode: string -> string)
    requires base != ""
    requires ContainsIgnoreCase(StripTrailingSlashes(base), "allorigins")
    ensures var b := StripTrailingSlashes(base);
            MakeProxyUrl(base, target, encode)
            == b + (if EndsWith(b, "=") then "" else "?url=") + encode(target)
  {
    AllOriginsSeparator(StripTrailingSlashes(base));
  }

  // ------------------------------------------------------------ film pages

  /** A four-digit year as the page markup gives it (`\d{4}`). */
  type Year = s: string | |s| == 4 && AllDigits(s) witness "2000"

  datatype Film = Film(title: string, year: Year)

  /** What the three regex scans of parseFilmsFromHtml find on a page, each in
      document order, titles already HTML-decoded: poster attributes, tooltip
      titles and image alt texts. */
  datatype FilmScans = FilmScans(byAttributes: seq<Film>, byTooltip: seq<Film>, byAlt: seq<Film>)

  /** The alternation of the block/404 test. */
  const UnavailablePhrases: seq<string> :=
    ["page you want", "not found", "doesn't exist", "blocked", "denied", "verify you are human"]

  const UnavailableHint := "Page not available or blocked"

  datatype ParsedPage = ParsedPage(films: seq<Film>, hint: Option<string>)

  /** parseFilmsFromHtml(html): a block/404 phrase gives no films and a hint;
      otherwise the first non-empty scan, tried in the order attributes,
      tooltips, alt texts. */
  function ParseFilmsFromHtml(html: string, scans: FilmScans): (p: ParsedPage)
    ensures ContainsAnyIgnoreCase(html, UnavailablePhrases) ==> p == ParsedPage([], Some(UnavailableHint))
    ensures !ContainsAnyIgnoreCase(html, UnavailablePhrases) ==> p.hint.None?
    ensures !ContainsAnyIgnoreCase(html, UnavailablePhrases) && scans.byAttributes != [] ==>
              p.films == scans.byAttributes
    ensures !ContainsAnyIgnoreCase(html, UnavailablePhrases) && scans.byAttributes == [] && scans.byTooltip != [] ==>
              p.films == scans.byTooltip
    ensures !ContainsAnyIgnoreCase(html, UnavailablePhrases) && scans.byAttributes == [] && scans.byTooltip == [] ==>
              p.films == scans.byAlt
  {
    if ContainsAnyIgnoreCase(html, UnavailablePhrases) then ParsedPage([], Some(UnavailableHint))
    else if scans.byAttributes != [] then ParsedPage(scans.byAttributes, None)
    else if scans.byTooltip != [] then ParsedPage(scans.byTooltip, None)
    else ParsedPage(scans.byAlt, None)
  }

  // ------------------------------------------------------------ de-duplication

  /** The `seen` key `${title}__${year}`. */
  function Key(f: Film): string { f.title + "__" + f.year }

  /** Years have four characters, so the key determines the film. */
  lemma KeyInjective(a: Film, b: Film)
    requires Key(a) == Key(b)
    ensures a == b
  {
    var k := Key(a);
    assert a.year == k[|k| - 4..] == b.year;
    assert a.title == k[..|k| - 6] == b.title;
  }

  function KeySet(s: seq<Film>): set<string> {
    set i | 0 <= i < |s| :: Key(s[i])
  }

  lemma KeySetAppend(s: seq<Film>, f: Film)
    ensures KeySet(s + [f]) == KeySet(s) + {Key(f)}
  {
    var t := s + [f];
    assert Key(t[|s|]) in KeySet(t);
    forall k | k in KeySet(t) ensures k in KeySet(s) + {Key(f)} {
      var i :| 0 <= i < |t| && Key(t[i]) == k;
      if i < |s| { assert t[i] == s[i]; }
    }
    forall k | k in KeySet(s) ensures k in KeySet(t) {
      var i :| 0 <= i < |s| && Key(s[i]) == k;
      assert t[i] == s[i];
    }
  }

  predicate NoDuplicateKeys(s: seq<Film>) {
    forall i, j :: 0 <= i < j < |s| ==> Key(s[i]) != Key(s[j])
  }

  /** The items fetchAllPages keeps from the films `xs` met in page order:
      each film whose key was not seen before. */
  function Dedup(xs: seq<Film>): seq<Film> {
    if xs == [] then []
    else
      var d := Dedup(xs[..|xs| - 1]);
      var x := xs[|xs| - 1];
      if Key(x) in KeySet(d) then d else d + [x]
  }

  /** One more film is dropped exactly when its key is already kept. */
  lemma DedupSnoc(xs: seq<Film>, f: Film)
    ensures Dedup(xs + [f]) == if Key(f) in KeySet(Dedup(xs)) then Dedup(xs) else Dedup(xs) + [f]
  {
    assert (xs + [f])[..|xs + [f]| - 1] == xs;
  }

  /** The index in `xs` where key `k` first appears. */
  function FirstIndex(xs: seq<Film>, k: string): (i: nat)
    requires k in KeySet(xs)
    ensures i < |xs| && Key(xs[i]) == k
    ensures forall m :: 0 <= m < i ==> Key(xs[m]) != k
  {
    var p := xs[..|xs| - 1];
    if k in KeySet(p) then
      var i := FirstIndex(p, k);
      assert xs[i] == p[i];
      i
    else
      assert forall m :: 0 <= m < |p| ==> Key(xs[m]) == Key(p[m]);
      |xs| - 1
  }

  /** Dedup keeps a film for every key seen and no other keys. */
  lemma {:induction false} DedupKeySet(xs: seq<Film>)
    ensures KeySet(Dedup(xs)) == KeySet(xs)
    decreases |xs|
  {
    if xs != [] {
      var p := xs[..|xs| - 1];
      var x := xs[|xs| - 1];
      assert xs == p + [x];
      DedupKeySet(p);
      KeySetAppend(p, x);
      if Key(x) !in KeySet(Dedup(p)) { KeySetAppend(Dedup(p), x); }
    }
  }

  /** Dedup keeps at most one film per key. */
  lemma {:induction false} DedupNoDuplicates(xs: seq<Film>)
    ensures NoDuplicateKeys(Dedup(xs))
    decreases |xs|
  {
    if xs != [] {
      var p := xs[..|xs| - 1];
      var x := xs[|xs| - 1];
      DedupNoDuplicates(p);
      var d := Dedup(p);
      if Key(x) !in KeySet(d) {
        var d' := d + [x];
        forall i, j | 0 <= i < j < |d'| ensures Key(d'[i]) != Key(d'[j]) {
          if j == |d| { assert Key(d[i]) in KeySet(d); } else { assert d'[i] == d[i] && d'[j] == d[j]; }
        }
      }
    }
  }

  /** The film Dedup keeps for a key is the one where the key first occurred. */
  lemma {:induction false} DedupKeepsFirst(xs: seq<Film>)
    ensures forall i :: 0 <= i < |Dedup(xs)| ==> Key(Dedup(xs)[i]) in KeySet(xs)
    ensures forall i :: 0 <= i < |Dedup(xs)| ==> Dedup(xs)[i] == xs[FirstIndex(xs, Key(Dedup(xs)[i]))]
    decreases |xs|
  {
    DedupKeySet(xs);
    forall i | 0 <= i < |Dedup(xs)| ensures Key(Dedup(xs)[i]) in KeySet(xs) {
      assert Key(Dedup(xs)[i]) in KeySet(Dedup(xs));
    }
    if xs != [] {
      var p := xs[..|xs| - 1];
      var x := xs[|xs| - 1];
      DedupKeepsFirst(p);
      DedupKeySet(p);
      var d := Dedup(p);
      forall i | 0 <= i < |d| ensures FirstIndex(xs, Key(d[i])) == FirstIndex(p, Key(d[i])) {
        assert Key(d[i]) in KeySet(d);
      }
      if Key(x) !in KeySet(d) {
        assert Key(x) !in KeySet(p);
        assert FirstIndex(xs, Key(x)) == |xs| - 1;
      }
    }
  }

  /** The items of earlier pages keep their places when later pages add more. */
  lemma {:induction false} DedupPrefix(xs: seq<Film>, ys: seq<Film>)
    ensures Dedup(xs) <= Dedup(xs + ys)
    decreases |ys|
  {
    if ys != [] {
      var p := ys[..|ys| - 1];
      assert (xs + ys)[..|xs + ys| - 1] == xs + p;
      DedupPrefix(xs, p);
      assert Dedup(xs + p) <= Dedup(xs + ys);
    } else {
      assert xs + ys == xs;
    }
  }

  // ------------------------------------------------------------ crawling

  const MaxPages := 500

  /** `https://letterboxd.com/${username}/films/page/${page}/`. */
  function PageTarget(username: string, page: nat): string {
    HttpsProfilePrefix + username + "/films/page/" + NatToString(page) + "/"
  }

  /** How one page of fetchAllPages fails. */
  datatype PageError = NetworkFailure | HttpFailure(status: int, page: nat) | Unavailable(hint: string)

  /** `proxyBase || "none"`. */
  function ProxyLabel(proxyBase: string): string { if proxyBase == "" then "none" else proxyBase }

  /** The message of the Error thrown for `e`; `detail` is the message of the
      rejected fetch. */
  function PageErrorMessage(e: PageError, proxyBase: string, detail: string): string {
    match e
    case NetworkFailure => "Network error via proxy (" + ProxyLabel(proxyBase) + "): " + detail
    case HttpFailure(status, page) =>
      "HTTP " + IntToString(status) + " via proxy (" + ProxyLabel(proxyBase) + ") on page " + NatToString(page)
      + (if status == 403 then " — blocked by target or proxy."
         else if status == 404 then " — user or page not found."
         else "")
    case Unavailable(hint) => hint + " (is the profile private or username wrong?)"
  }

  /** The prefix and the suffixes of a seven-part concatenation. */
  lemma SevenParts(a: string, b: string, c: string, d: string, e: string, f: string, g: string)
    ensures StartsWith(a + b + c + d + e + f + g, a + b)
    ensures EndsWith(a + b + c + d + e + f + g, g)
    ensures EndsWith(a + b + c + d + e + f, e + f)
  {
    var m := a + b + c + d + e + f + g;
    assert m == (a + b) + (c + d + e + f + g);
    assert m[..|a + b|] == a + b;
    var n := a + b + c + d + e + f;
    assert n == (a + b + c + d) + (e + f);
    assert n[|n| - |e + f|..] == e + f;
  }

  /** An HTTP failure is reported with its status first; a 403 and a 404 end
      with their explanation, any other status with the page number. */
  lemma HttpFailureMessage(status: int, page: nat, proxyBase: string, detail: string)
    ensures var m := PageErrorMessage(HttpFailure(status, page), proxyBase, detail);
            && StartsWith(m, "HTTP " + IntToString(status))
            && (status == 403 ==> EndsWith(m, " — blocked by target or proxy."))
            && (status == 404 ==> EndsWith(m, " — user or page not found."))
            && (status != 403 && status != 404 ==> EndsWith(m, ") on page " + NatToString(page)))
  {
    var note := if status == 403 then " — blocked by target or proxy."
                else if status == 404 then " — user or page not found." else "";
    SevenParts("HTTP ", IntToString(status), " via proxy (", ProxyLabel(proxyBase), ") on page ", NatToString(page), note);
  }

  datatype Crawled = Crawled(result: Result<seq<Film>, PageError>, net: Net<FilmScans>)

  /** The request fetchPage makes for each page number. */
  function PageUrl(username: string, proxyBase: string, encode: string -> string): nat -> string {
    (page: nat) => MakeProxyUrl(proxyBase, PageTarget(username, page), encode)
  }

  /** parseFilmsFromHtml applied to the body of a response. */
  function ReadPage(r: Response<FilmScans>): ParsedPage {
    ParseFilmsFromHtml(r.html, r.doc)
  }

  /** fetchAllPages from page `page` on, `all` being the films of the earlier
      pages in order; `url` gives the request for a page number and `read`
      what parseFilmsFromHtml finds in a response. */
  function Crawl(net: Net<FilmScans>, url: nat -> string, read: Response<FilmScans> -> ParsedPage,
                 page: nat, all: seq<Film>): Crawled
    requires page >= 1
    decreases MaxPages + 1 - page
  {
    if page > MaxPages then Crawled(Ok(Dedup(all)), net)
    else
      var after := net.After(url(page));
      match net.Next()
      case None => Crawled(Err(NetworkFailure), after)
      case Some(res) =>
        if !res.ok then Crawled(Err(HttpFailure(res.status, page)), after)
        else
          var parsed := read(res);
          if parsed.films == [] then
            if page == 1 && parsed.hint.Some? then Crawled(Err(Unavailable(parsed.hint.value)), after)
            else Crawled(Ok(Dedup(all)), after)
          else Crawl(after, url, read, page + 1, all + parsed.films)
  }

  /** One film of the inner loop: added with its key when the key is new,
      skipped otherwise, the items stay the de-duplicated films so far. */
  lemma AddFilmStep(all: seq<Film>, f: Film, items: seq<Film>, seen: set<string>,
                    items': seq<Film>, seen': set<string>)
    requires items == Dedup(all) && seen == KeySet(items)
    requires Key(f) in seen ==> items' == items && seen' == seen
    requires Key(f) !in seen ==> items' == items + [f] && seen' == seen + {Key(f)}
    ensures items' == Dedup(all + [f]) && seen' == KeySet(items')
  {
    DedupSnoc(all, f);
    KeySetAppend(items, f);
  }

  /** The inner loop of fetchAllPages: each film whose key is not in `seen`
      is added to the items and its key to `seen`. */
  method AddNewFilms(items: seq<Film>, seen: set<string>, films: seq<Film>, ghost all: seq<Film>)
    returns (items': seq<Film>, seen': set<string>)
    requires items == Dedup(all) && seen == KeySet(items)
    ensures items' == Dedup(all + films) && seen' == KeySet(items')
  {
    items', seen' := items, seen;
    var j := 0;
    assert all + films[..0] == all;
    while j < |films|
      invariant 0 <= j <= |films|
      invariant items' == Dedup(all + films[..j]) && seen' == KeySet(items')
    {
      var f := films[j];
      ghost var before, seenBefore := items', seen';
      if Key(f) !in seen' {
        seen' := seen' + {Key(f)};
        items' := items' + [f];
      }
      AddFilmStep(all + films[..j], f, before, seenBefore, items', seen');
      assert all + films[..j + 1] == (all + films[..j]) + [f];
      j := j + 1;
    }
    assert films[..j] == films;
  }

  /** fetchAllPages(username, proxyBase). */
  method FetchAllPages(net: Net<FilmScans>, username: string, proxyBase: string, encode: string -> string)
    returns (c: Crawled)
    ensures c == Crawl(net, PageUrl(username, proxyBase, encode), ReadPage, 1, [])
  {
    ghost var url := PageUrl(username, proxyBase, encode);
    var n := net;
    var seen: set<string> := {};
    var items: seq<Film> := [];
    ghost var all: seq<Film> := [];
    var page := 1;
    while page <= MaxPages
      invariant 1 <= page <= MaxPages + 1
      invariant items == Dedup(all) && seen == KeySet(items)
      invariant Crawl(n, url, ReadPage, page, all) == Crawl(net, url, ReadPage, 1, [])
      decreases MaxPages + 1 - page
    {
      var res := n.Next();
      n := n.After(MakeProxyUrl(proxyBase, PageTarget(username, page), encode));
      assert n.log[|n.log| - 1] == url(page);
      if res.None? {
        return Crawled(Err(NetworkFailure), n);
      }
      var r := res.value;
      if !r.ok {
        return Crawled(Err(HttpFailure(r.status, page)), n);
      }
      var parsed := ParseFilmsFromHtml(r.html, r.doc);
      assert parsed == ReadPage(r);
      if parsed.films == [] {
        if page == 1 && parsed.hint.Some? {
          return Crawled(Err(Unavailable(parsed.hint.value)), n);
        }
        return Crawled(Ok(items), n);
      }
      items, seen := AddNewFilms(items, seen, parsed.films, all);
      all := all + parsed.films;
      page := page + 1;
    }
    return Crawled(Ok(items), n);
  }

  /** The films of `k` consecutive pages of the script from request `c` on. */
  function PagesFilms(script: seq<Response<FilmScans>>, read: Response<FilmScans> -> ParsedPage, c: nat, k: nat): seq<Film>
    requires c + k <= |script|
    decreases k
  {
    if k == 0 then [] else read(script[c]).films + PagesFilms(script, read, c + 1, k - 1)
  }

  /** The requests for `k` pages from `page` on, in page order. */
  function Requests(url: nat -> string, page: nat, k: nat): (r: seq<string>)
    ensures |r| == k
    ensures forall j :: 0 <= j < k ==> r[j] == url(page + j)
  {
    seq(k, j requires 0 <= j < k => url(page + j))
  }

  /** The number of requests Crawl makes. */
  function CrawlRequests(net: Net<FilmScans>, url: nat -> string, read: Response<FilmScans> -> ParsedPage,
                         page: nat, all: seq<Film>): int
    requires page >= 1
  {
    |Crawl(net, url, read, page, all).net.log| - |net.log|
  }

  /** From page `page` on, fetchAllPages requests the pages in order, one
      request each, and no page past 500. */
  lemma {:induction false} CrawlFetchesPagesInOrder(net: Net<FilmScans>, url: nat -> string,
                                                    read: Response<FilmScans> -> ParsedPage, page: nat, all: seq<Film>)
    requires 1 <= page <= MaxPages + 1
    ensures var c := Crawl(net, url, read, page, all);
            var k := CrawlRequests(net, url, read, page, all);
            && 0 <= k <= MaxPages + 1 - page
            && (page <= MaxPages ==> k >= 1)
            && c.net.script == net.script
            && c.net.log == net.log + Requests(url, page, k)
    decreases MaxPages + 1 - page
  {
    if page <= MaxPages {
      var after := net.After(url(page));
      var res := net.Next();
      if res.Some? && res.value.ok && read(res.value).films != [] {
        var all' := all + read(res.value).films;
        CrawlFetchesPagesInOrder(after, url, read, page + 1, all');
        var k := CrawlRequests(net, url, read, page, all);
        assert k == CrawlRequests(after, url, read, page + 1, all') + 1;
        assert net.log + Requests(url, page, k) == after.log + Requests(url, page + 1, k - 1);
      }
    }
  }

  /** Every page fetched before the last one was ok and had films. */
  lemma {:induction false} CrawlReadsFullPages(net: Net<FilmScans>, url: nat -> string,
                                               read: Response<FilmScans> -> ParsedPage, page: nat, all: seq<Film>)
    requires 1 <= page <= MaxPages + 1
    ensures var k := CrawlRequests(net, url, read, page, all);
            forall j :: |net.log| <= j < |net.log| + k - 1 ==>
              j < |net.script| && net.script[j].ok && read(net.script[j]).films != []
    decreases MaxPages + 1 - page
  {
    var first := |net.log|;
    if page <= MaxPages {
      var after := net.After(url(page));
      var res := net.Next();
      if res.Some? && res.value.ok && read(res.value).films != [] {
        var all' := all + read(res.value).films;
        CrawlReadsFullPages(after, url, read, page + 1, all');
        var k' := CrawlRequests(after, url, read, page + 1, all');
        assert CrawlRequests(net, url, read, page, all) == k' + 1;
        assert after.script == net.script && |after.log| == first + 1;
        assert res.value == net.script[first];
        forall j | first <= j < first + k'
          ensures j < |net.script| && net.script[j].ok && read(net.script[j]).films != []
        {
          if j > first {
            assert |after.log| <= j < |after.log| + k' - 1;
            assert after.script[j] == net.script[j];
          }
        }
      }
    }
  }

  /** A successful crawl read only responses that were in the script. */
  lemma {:induction false} CrawlSuccessInScript(net: Net<FilmScans>, url: nat -> string,
                                                read: Response<FilmScans> -> ParsedPage, page: nat, all: seq<Film>)
    requires 1 <= page <= MaxPages + 1
    requires page <= MaxPages || |net.log| <= |net.script|
    requires Crawl(net, url, read, page, all).result.Ok?
    ensures 0 <= CrawlRequests(net, url, read, page, all)
    ensures |net.log| + CrawlRequests(net, url, read, page, all) <= |net.script|
    decreases MaxPages + 1 - page
  {
    CrawlFetchesPagesInOrder(net, url, read, page, all);
    if page <= MaxPages {
      var after := net.After(url(page));
      var r := net.Next().value;
      if read(r).films != [] {
        var all' := all + read(r).films;
        CrawlSuccessInScript(after, url, read, page + 1, all');
        assert CrawlRequests(net, url, read, page, all) == CrawlRequests(after, url, read, page + 1, all') + 1;
      }
    }
  }

  /** It returns the de-duplicated films of every page it read. */
  lemma {:induction false} CrawlSuccessFilms(net: Net<FilmScans>, url: nat -> string,
                                             read: Response<FilmScans> -> ParsedPage, page: nat, all: seq<Film>)
    requires 1 <= page <= MaxPages + 1
    requires page <= MaxPages || |net.log| <= |net.script|
    requires Crawl(net, url, read, page, all).result.Ok?
    ensures CrawlRequests(net, url, read, page, all) >= 0
    ensures |net.log| + CrawlRequests(net, url, read, page, all) <= |net.script|
    ensures Crawl(net, url, read, page, all).result.value
            == Dedup(all + PagesFilms(net.script, read, |net.log|, CrawlRequests(net, url, read, page, all)))
    decreases MaxPages + 1 - page
  {
    var first := |net.log|;
    CrawlSuccessInScript(net, url, read, page, all);
    if page <= MaxPages {
      var after := net.After(url(page));
      var r := net.script[first];
      assert net.Next() == Some(r);
      if read(r).films != [] {
        var all' := all + read(r).films;
        CrawlSuccessFilms(after, url, read, page + 1, all');
        var k' := CrawlRequests(after, url, read, page + 1, all');
        assert CrawlRequests(net, url, read, page, all) == k' + 1;
        assert PagesFilms(net.script, read, first, k' + 1)
               == read(r).films + PagesFilms(net.script, read, first + 1, k');
        assert all' + PagesFilms(net.script, read, first + 1, k') == all + PagesFilms(net.script, read, first, k' + 1);
      } else {
        assert CrawlRequests(net, url, read, page, all) == 1;
        assert PagesFilms(net.script, read, first, 1) == [];
        assert all + [] == all;
      }
    } else {
      assert PagesFilms(net.script, read, first, 0) == [];
      assert all + [] == all;
    }
  }

  /** It ended because page 500 was passed or because the last page read
      had no films. */
  lemma {:induction false} CrawlSuccessEnd(net: Net<FilmScans>, url: nat -> string,
                                           read: Response<FilmScans> -> ParsedPage, page: nat, all: seq<Film>)
    requires 1 <= page <= MaxPages + 1
    requires page <= MaxPages || |net.log| <= |net.script|
    requires Crawl(net, url, read, page, all).result.Ok?
    ensures var k := CrawlRequests(net, url, read, page, all);
            && 0 <= k && |net.log| + k <= |net.script|
            && (page + k == MaxPages + 1 || (k >= 1 && read(net.script[|net.log| + k - 1]).films == []))
    decreases MaxPages + 1 - page
  {
    CrawlSuccessInScript(net, url, read, page, all);
    CrawlFetchesPagesInOrder(net, url, read, page, all);
    if page <= MaxPages {
      var after := net.After(url(page));
      var r := net.Next().value;
      if read(r).films != [] {
        var all' := all + read(r).films;
        CrawlSuccessEnd(after, url, read, page + 1, all');
        assert CrawlRequests(net, url, read, page, all) == CrawlRequests(after, url, read, page + 1, all') + 1;
      } else {
        assert CrawlRequests(net, url, read, page, all) == 1;
        assert net.script[|net.log|] == r;
      }
    }
  }

  /** A successful crawl returns the de-duplicated films of every page it
      read, all of which were in the script, and it ended because page 500
      was passed or because the last page read had no films. */
  lemma CrawlSuccess(net: Net<FilmScans>, url: nat -> string,
                     read: Response<FilmScans> -> ParsedPage, page: nat, all: seq<Film>)
    requires 1 <= page <= MaxPages + 1
    requires page <= MaxPages || |net.log| <= |net.script|
    requires Crawl(net, url, read, page, all).result.Ok?
    ensures var k := CrawlRequests(net, url, read, page, all);
            var first := |net.log|;
            && 0 <= k && first + k <= |net.script|
            && Crawl(net, url, read, page, all).result.value == Dedup(all + PagesFilms(net.script, read, first, k))
            && (page + k == MaxPages + 1 || (k >= 1 && read(net.script[first + k - 1]).films == []))
  {
    CrawlSuccessFilms(net, url, read, page, all);
    CrawlSuccessEnd(net, url, read, page, all);
  }

  /** A failed crawl failed on its last request: a rejected fetch when the
      script ran out, a non-ok status with that status and page number, or an
      empty first page with a hint. */
  lemma {:induction false} CrawlFailure(net: Net<FilmScans>, url: nat -> string,
                                        read: Response<FilmScans> -> ParsedPage, page: nat, all: seq<Film>)
    requires 1 <= page <= MaxPages + 1
    requires Crawl(net, url, read, page, all).result.Err?
    ensures var e := Crawl(net, url, read, page, all).result.error;
            var k := CrawlRequests(net, url, read, page, all);
            var last := |net.log| + k - 1;
            && k >= 1 && page + k - 1 <= MaxPages
            && (e == NetworkFailure ==> last >= |net.script|)
            && (e.HttpFailure? ==>
                  0 <= last < |net.script| && !net.script[last].ok
                  && e == HttpFailure(net.script[last].status, page + k - 1))
            && (e.Unavailable? ==>
                  page == 1 && k == 1 && 0 <= last < |net.script| && net.script[last].ok
                  && read(net.script[last]).films == [] && read(net.script[last]).hint == Some(e.hint))
    decreases MaxPages + 1 - page
  {
    var first := |net.log|;
    var after := net.After(url(page));
    var res := net.Next();
    if res.Some? && res.value.ok && read(res.value).films != [] {
      var all' := all + read(res.value).films;
      CrawlFailure(after, url, read, page + 1, all');
      assert CrawlRequests(net, url, read, page, all) == CrawlRequests(after, url, read, page + 1, all') + 1;
    } else {
      assert CrawlRequests(net, url, read, page, all) == 1;
      if res.Some? { assert res.value == net.script[first]; }
    }
  }

  /** The items fetchAllPages returns never share a (title, year) key, so no
      film appears twice. */
  lemma FetchAllPagesDistinct(net: Net<FilmScans>, username: string, proxyBase: string, encode: string -> string)
    ensures var c := Crawl(net, PageUrl(username, proxyBase, encode), ReadPage, 1, []);
            c.result.Ok? ==> NoDuplicateKeys(c.result.value)
                             && forall i, j :: 0 <= i < j < |c.result.value| ==> c.result.value[i] != c.result.value[j]
  {
    var url := PageUrl(username, proxyBase, encode);
    var c := Crawl(net, url, ReadPage, 1, []);
    if c.result.Ok? {
      CrawlSuccess(net, url, ReadPage, 1, []);
      var k := CrawlRequests(net, url, ReadPage, 1, []);
      DedupNoDuplicates([] + PagesFilms(net.script, ReadPage, |net.log|, k));
    }
  }

  // ------------------------------------------------------------ proxy rotation

  /** `state.proxyOverride ? [state.proxyOverride] : PROXIES`. */
  function ProxyOrder(proxyOverride: string): (order: seq<string>)
    ensures |order| >= 1
    ensures proxyOverride != "" ==> order == [proxyOverride]
    ensures proxyOverride == "" ==> order == Proxies
  {
    if proxyOverride != "" then [proxyOverride] else Proxies
  }

  /** What tryWithProxies ends with after `attempts` proxies: the items of
      the first crawl that succeeded, or the last proxy tried with its error
      (`None` is the fallback "All proxies failed."). */
  datatype Tried = Tried(result: Result<seq<Film>, Option<(string, PageError)>>, attempts: nat)

  /** What fetchAllPages would give through each proxy of `order`, `nets[i]`
      being the network as the `i`-th proxy relays it. */
  function ProxyCrawls(order: seq<string>, nets: seq<Net<FilmScans>>, username: string, encode: string -> string)
    : (r: seq<Result<seq<Film>, PageError>>)
    requires |order| == |nets|
    ensures |r| == |order|
    ensures forall i :: 0 <= i < |order| ==> r[i] == Crawl(nets[i], PageUrl(username, order[i], encode), ReadPage, 1, []).result
  {
    seq(|order|, i requires 0 <= i < |order| => Crawl(nets[i], PageUrl(username, order[i], encode), ReadPage, 1, []).result)
  }

  /** tryWithProxies from the `i`-th proxy on, `crawls[i]` being the outcome of
      fetchAllPages through that proxy. */
  function TryFrom(order: seq<string>, crawls: seq<Result<seq<Film>, PageError>>,
                   i: nat, lastErr: Option<(string, PageError)>): Tried
    requires i <= |order| == |crawls|
    decreases |order| - i
  {
    if i == |order| then Tried(Err(lastErr), i)
    else
      match crawls[i]
      case Ok(items) => Tried(Ok(items), i + 1)
      case Err(e) => TryFrom(order, crawls, i + 1, Some((order[i], e)))
  }

  /** tryWithProxies(username). */
  method TryWithProxies(proxyOverride: string, nets: seq<Net<FilmScans>>, username: string, encode: string -> string)
    returns (t: Tried)
    requires |nets| == |ProxyOrder(proxyOverride)|
    ensures t == TryFrom(ProxyOrder(proxyOverride), ProxyCrawls(ProxyOrder(proxyOverride), nets, username, encode), 0, None)
  {
    var order := ProxyOrder(proxyOverride);
    ghost var crawls := ProxyCrawls(order, nets, username, encode);
    var lastErr: Option<(string, PageError)> := None;
    var i := 0;
    while i < |order|
      invariant 0 <= i <= |order|
      invariant TryFrom(order, crawls, i, lastErr) == TryFrom(order, crawls, 0, None)
    {
      var c := FetchAllPages(nets[i], username, order[i], encode);
      if c.result.Ok? {
        return Tried(Ok(c.result.value), i + 1);
      }
      lastErr := Some((order[i], c.result.error));
      i := i + 1;
    }
    return Tried(Err(lastErr), i);
  }

  /** The first proxy whose crawl succeeds supplies the items, and every proxy
      before it failed; when all fail, the error thrown is the last proxy's. */
  lemma {:induction false} TryFromSpec(order: seq<string>, crawls: seq<Result<seq<Film>, PageError>>,
                                       i: nat, lastErr: Option<(string, PageError)>)
    requires i <= |order| == |crawls|
    ensures var t := TryFrom(order, crawls, i, lastErr);
            && i <= t.attempts <= |order|
            && (forall j :: i <= j < t.attempts - 1 ==> crawls[j].Err?)
            && (t.result.Ok? ==> t.attempts >= 1 && crawls[t.attempts - 1] == Ok(t.result.value))
            && (t.result.Err? ==> t.attempts == |order|)
            && (t.result.Err? && i < |order| ==>
                  crawls[|order| - 1].Err? && t.result.error == Some((order[|order| - 1], crawls[|order| - 1].error)))
            && (t.result.Err? && i == |order| ==> t.result.error == lastErr)
    decreases |order| - i
  {
    if i < |order| && crawls[i].Err? {
      TryFromSpec(order, crawls, i + 1, Some((order[i], crawls[i].error)));
    }
  }

  /** With the proxies of tryWithProxies there is always a proxy to try, so
      the fallback "All proxies failed." is never what is thrown. */
  lemma TryWithProxiesError(proxyOverride: string, crawls: seq<Result<seq<Film>, PageError>>)
    requires |crawls| == |ProxyOrder(proxyOverride)|
    ensures var t := TryFrom(ProxyOrder(proxyOverride), crawls, 0, None);
            t.result.Err? ==> t.result.error.Some?
  {
    TryFromSpec(ProxyOrder(proxyOverride), crawls, 0, None);
  }

  // ------------------------------------------------------------ CSV

  /** `replace(/"/g, '""')`. */
  function EscapeQuotes(s: string): string {
    if s == [] then [] else (if s[0] == '"' then "\"\"" else [s[0]]) + EscapeQuotes(s[1..])
  }

  /** `"${title}",${year}`. */
  function CsvLine(f: Film): string { "\"" + EscapeQuotes(f.title) + "\"," + f.year }

  /** `lines.join(sep)`. */
  function Join(lines: seq<string>, sep: string): string {
    if lines == [] then "" else if |lines| == 1 then lines[0] else lines[0] + sep + Join(lines[1..], sep)
  }

  const CsvHeader := "Title,Year\n"

  /** makeCsv(items). */
  function MakeCsv(items: seq<Film>): (csv: string)
    ensures StartsWith(csv, CsvHeader)
  {
    CsvHeader + Join(MapAll(items, CsvLine), "\n")
  }

  /** Reads the rest of a quoted field, after its opening quote, as RFC 4180
      section 2 rule 7 has it: a doubled quote stands for a quote and a single
      quote closes the field. Gives the field and what follows it. */
  function ReadQuoted(s: string): Option<(string, string)>
    decreases |s|
  {
    if s == [] then None
    else if s[0] == '"' then
      if |s| >= 2 && s[1] == '"' then
        match ReadQuoted(s[2..])
        case None => None
        case Some(p) => Some(("\"" + p.0, p.1))
      else Some(("", s[1..]))
    else
      match ReadQuoted(s[1..])
      case None => None
      case Some(p) => Some(([s[0]] + p.0, p.1))
  }

  /** A doubled quote reads as one quote. */
  lemma ReadQuotedQuoteStep(tail: string)
    requires ReadQuoted(tail).Some?
    ensures ReadQuoted("\"\"" + tail) == Some(("\"" + ReadQuoted(tail).value.0, ReadQuoted(tail).value.1))
  {
    var s := "\"\"" + tail;
    assert s[0] == '"' && s[1] == '"';
    assert s[2..] == tail;
  }

  /** Any other character reads as itself. */
  lemma ReadQuotedCharStep(c: char, tail: string)
    requires c != '"' && ReadQuoted(tail).Some?
    ensures ReadQuoted([c] + tail) == Some(([c] + ReadQuoted(tail).value.0, ReadQuoted(tail).value.1))
  {
    var s := [c] + tail;
    assert s[1..] == tail;
  }

  /** Un-doubling a quoted title gives the title back. */
  lemma {:induction false} ReadQuotedEscape(t: string, rest: string)
    requires rest == [] || rest[0] != '"'
    ensures ReadQuoted(EscapeQuotes(t) + "\"" + rest) == Some((t, rest))
    decreases |t|
  {
    if t == [] {
      var s := "\"" + rest;
      assert EscapeQuotes(t) + "\"" + rest == s;
      if rest != [] { assert s[1] == rest[0]; }
      assert s[1..] == rest;
    } else {
      var tail := EscapeQuotes(t[1..]) + "\"" + rest;
      ReadQuotedEscape(t[1..], rest);
      if t[0] == '"' {
        assert EscapeQuotes(t) + "\"" + rest == "\"\"" + tail;
        ReadQuotedQuoteStep(tail);
        assert "\"" + t[1..] == t;
      } else {
        assert EscapeQuotes(t) + "\"" + rest == [t[0]] + tail;
        ReadQuotedCharStep(t[0], tail);
        assert [t[0]] + t[1..] == t;
      }
    }
  }

  /** Reads one CSV row `"<title>",<year>` and what follows it. */
  function ReadRow(s: string): Option<(Film, string)> {
    if s == [] || s[0] != '"' then None
    else
      match ReadQuoted(s[1..])
      case None => None
      case Some(p) =>
        var r := p.1;
        if |r| >= 5 && r[0] == ',' && AllDigits(r[1..5]) then Some((Film(p.0, r[1..5]), r[5..]))
        else None
  }

  /** Reads rows separated by newlines up to the end of the text. */
  function ReadRows(s: string): Option<seq<Film>>
    decreases |s|
  {
    match ReadRow(s)
    case None => None
    case Some(p) =>
      if p.1 == [] then Some([p.0])
      else if p.1[0] == '\n' && |p.1[1..]| < |s| then
        match ReadRows(p.1[1..])
        case None => None
        case Some(fs) => Some([p.0] + fs)
      else None
  }

  /** Reads a CSV export back into its items. */
  function ParseCsv(csv: string): Option<seq<Film>> {
    if !StartsWith(csv, CsvHeader) then None
    else if csv == CsvHeader then Some([])
    else ReadRows(csv[|CsvHeader|..])
  }

  lemma CsvLineSplit(f: Film, rest: string)
    ensures CsvLine(f) + rest == "\"" + (EscapeQuotes(f.title) + "\"" + ("," + f.year + rest))
  {
  }

  lemma YearField(y: Year, rest: string)
    ensures var r := "," + y + rest;
            |r| >= 5 && r[0] == ',' && r[1..5] == y && r[5..] == rest
  {
    var r := "," + y + rest;
    assert r[1..5] == y;
    assert r[5..] == rest;
  }

  lemma ReadRowLine(f: Film, rest: string)
    ensures ReadRow(CsvLine(f) + rest) == Some((f, rest))
  {
    var after := "," + f.year + rest;
    var q := EscapeQuotes(f.title) + "\"" + after;
    CsvLineSplit(f, rest);
    assert ("\"" + q)[1..] == q;
    ReadQuotedEscape(f.title, after);
    YearField(f.year, rest);
  }

  lemma {:induction false} ReadRowsJoin(items: seq<Film>)
    requires items != []
    ensures ReadRows(Join(MapAll(items, CsvLine), "\n")) == Some(items)
    decreases |items|
  {
    var lines := MapAll(items, CsvLine);
    MapAllTail(items, CsvLine);
    if |items| == 1 {
      ReadRowLine(items[0], []);
      assert CsvLine(items[0]) + [] == Join(lines, "\n");
      assert items == [items[0]];
    } else {
      var rest := Join(MapAll(items[1..], CsvLine), "\n");
      assert lines[1..] == MapAll(items[1..], CsvLine);
      assert Join(lines, "\n") == CsvLine(items[0]) + ("\n" + rest);
      ReadRowLine(items[0], "\n" + rest);
      assert ("\n" + rest)[1..] == rest;
      ReadRowsJoin(items[1..]);
      assert [items[0]] + items[1..] == items;
    }
  }

  /** The CSV export reads back as the items it was made from. */
  lemma MakeCsvRoundTrip(items: seq<Film>)
    ensures ParseCsv(MakeCsv(items)) == Some(items)
  {
    var lines := MapAll(items, CsvLine);
    var csv := MakeCsv(items);
    if items == [] {
      assert csv == CsvHeader;
    } else {
      ReadRowsJoin(items);
      assert csv[|CsvHeader|..] == Join(lines, "\n");
      assert Join(lines, "\n") != [] by { assert |CsvLine(items[0])| > 0; }
    }
  }
}
