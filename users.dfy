/** normUser of api/watchtime.js, api/ratings-timeline.js and api/ratings.js:
    the `user` query parameter made into a Letterboxd user name, or null. */
module Users {
  import opened Text

  /** A character of the class [a-z0-9_-]. */
  predicate IsUserChar(c: char) { IsLower(c) || IsDigit(c) || c == '_' || c == '-' }

  /** `/^[a-z0-9_-]{1,30}$/.test(s)`. */
  predicate ValidUser(s: string) {
    1 <= |s| <= 30 && forall i :: 0 <= i < |s| ==> IsUserChar(s[i])
  }

  /** `/^[a-z0-9_-]{1,30}$/i.test(s)`: with the i flag the class also takes A-Z. */
  predicate ValidUserIgnoreCase(s: string) {
    1 <= |s| <= 30 && forall i :: 0 <= i < |s| ==> IsUserChar(LowerChar(s[i]))
  }

  /** `replace(/^@/, "")`: one leading '@' removed. */
  function StripAt(s: string): (r: string)
    ensures r == if s != [] && s[0] == '@' then s[1..] else s
  {
    if s != [] && s[0] == '@' then s[1..] else s
  }

  lemma StripAtNoAt(s: string)
    requires s == [] || s[0] != '@'
    ensures StripAt(s) == s
  {
  }

  /** normUser(u): null for a missing or empty parameter; otherwise the value
      trimmed, with one leading '@' removed and lower-cased, if that is 1 to 30
      characters of [a-z0-9_-], else null. `u` is None when the query has no
      `user` parameter. */
  function NormUser(u: Option<string>): (r: Option<string>)
    ensures (u.None? || u == Some("")) ==> r.None?
    ensures r.Some? ==> ValidUser(r.value)
    ensures r.Some? ==> u.Some? && r.value == Lower(StripAt(Trim(u.value)))
    ensures u.Some? && u.value != "" && ValidUser(Lower(StripAt(Trim(u.value)))) ==> r.Some?
  {
    if u.None? || u.value == "" then None
    else
      var s := Lower(StripAt(Trim(u.value)));
      if ValidUserIgnoreCase(s) then Some(s) else None
  }

  /** A valid user name is a fixed point of every normalisation step. */
  lemma ValidUserIsNormal(s: string)
    requires ValidUser(s)
    ensures Lower(StripAt(Trim(s))) == s
  {
    assert !IsSpace(s[0]) && !IsSpace(s[|s| - 1]);
    TrimUnchanged(s);
    assert StripAt(s) == s;
    LowerUnchanged(s);
  }

  lemma ValidUserPassesTest(s: string)
    requires ValidUser(s)
    ensures ValidUserIgnoreCase(s)
  {
    assert forall i :: 0 <= i < |s| ==> LowerChar(s[i]) == s[i];
  }

  /** Every valid user name is accepted unchanged. */
  lemma NormUserOfValid(s: string)
    requires ValidUser(s)
    ensures NormUser(Some(s)) == Some(s)
  {
    ValidUserIsNormal(s);
    ValidUserPassesTest(s);
  }

  /** Normalising an accepted name again gives it back. */
  lemma NormUserIdempotent(u: Option<string>)
    requires NormUser(u).Some?
    ensures NormUser(NormUser(u)) == NormUser(u)
  {
    NormUserOfValid(NormUser(u).value);
  }

  lemma UserCharNotSpace(c: char)
    requires IsUserChar(LowerChar(c))
    ensures !IsSpace(c)
  {
  }

  /** Lower-casing a name accepted ignoring case gives a valid name. */
  lemma LowerOfValidIgnoreCase(v: string)
    requires ValidUserIgnoreCase(v)
    ensures ValidUser(Lower(v))
  {
    var l := Lower(v);
    assert forall i :: 0 <= i < |l| ==> l[i] == LowerChar(v[i]);
  }

  /** NormUser of a value that trimming and '@'-stripping turn into `v`. */
  lemma NormUserVia(u: string, v: string)
    requires u != "" && StripAt(Trim(u)) == v && ValidUserIgnoreCase(v)
    ensures NormUser(Some(u)) == Some(Lower(v))
  {
    LowerOfValidIgnoreCase(v);
    ValidUserPassesTest(Lower(v));
  }

  /** A name in any mix of case, with or without one leading '@', comes out
      lower-cased and without the '@' ("@JaneDoe" gives "janedoe"). */
  lemma NormUserStripsAtAndCase(v: string)
    requires ValidUserIgnoreCase(v) && v[0] != '@'
    ensures NormUser(Some(v)) == Some(Lower(v))
    ensures NormUser(Some("@" + v)) == Some(Lower(v))
  {
    var w := "@" + v;
    UserCharNotSpace(v[0]);
    UserCharNotSpace(v[|v| - 1]);
    assert w[0] == '@' && w[|w| - 1] == v[|v| - 1];
    TrimUnchanged(v);
    TrimUnchanged(w);
    assert StripAt(v) == v;
    assert StripAt(w) == v;
    NormUserVia(v, v);
    NormUserVia(w, v);
  }

  /** More than 30 characters after normalisation are refused. */
  lemma NormUserLength(u: string)
    requires |Lower(StripAt(Trim(u)))| > 30
    ensures NormUser(Some(u)) == None
  {
  }

  // ------------------------------------------------------------ maxPages

  /** `Math.max(1, Math.min(dflt, parseInt(q || dflt, 10) || dflt))`: the
      `maxPages` parameter of api/watchtime.js and api/ratings-timeline.js. A
      missing or empty parameter, one that does not start with a number and
      one that reads as 0 give `dflt`; anything else is clamped to 1 ..
      `dflt`. */
  function MaxPagesParam(q: Option<string>, dflt: nat): (n: nat)
    requires dflt >= 1
    ensures 1 <= n <= dflt
    ensures (q.None? || q == Some("")) ==> n == dflt
    ensures q.Some? && (ParseInt(q.value).None? || ParseInt(q.value) == Some(0)) ==> n == dflt
    ensures q.Some? && ParseInt(q.value).Some? && ParseInt(q.value).value < 0 ==> n == 1
    ensures q.Some? && ParseInt(q.value).Some? && ParseInt(q.value).value > dflt ==> n == dflt
  {
    var v := if q.None? || q.value == "" then Some(dflt as int) else ParseInt(q.value);
    var w := if v.None? || v.value == 0 then dflt as int else v.value;
    if w > dflt then dflt else if w < 1 then 1 else w
  }

  /** Every page count from 1 to `dflt`, written in decimal, is taken as it is. */
  lemma MaxPagesParamOfNat(n: nat, dflt: nat)
    requires 1 <= n <= dflt
    ensures MaxPagesParam(Some(NatToString(n)), dflt) == n
  {
    ParseIntOfNat(n);
  }
}
