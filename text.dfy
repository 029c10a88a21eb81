/** Strings as the scraper's JavaScript sees them: ASCII case folding, the
    ECMAScript white-space set used by trim(), parseInt() and the regex class
    \s, decimal digit strings, and the code-unit order used to sort dates. */
module Text {

  datatype Option<+T> = None | Some(value: T) {
    function GetOr(default: T): T { if Some? then value else default }
  }

  datatype Result<+T, +E> = Ok(value: T) | Err(error: E)

  // ---------------------------------------------------------------- chars

  predicate IsDigit(c: char) { '0' <= c <= '9' }
  predicate IsUpper(c: char) { 'A' <= c <= 'Z' }
  predicate IsLower(c: char) { 'a' <= c <= 'z' }

  /** A regex "word" character (\w, and the sides of \b) without the u flag. */
  predicate IsWordChar(c: char) { IsDigit(c) || IsUpper(c) || IsLower(c) || c == '_' }

  /** WhiteSpace and LineTerminator of ECMAScript: what trim() removes, what
      parseInt() skips and what \s matches. */
  predicate IsSpace(c: char) {
    c == '\t' || c == '\n' || c == '\U{B}' || c == '\U{C}' || c == '\r' || c == ' '
    || c == '\U{A0}' || c == '\U{1680}' || ('\U{2000}' <= c <= '\U{200A}')
    || c == '\U{2028}' || c == '\U{2029}' || c == '\U{202F}' || c == '\U{205F}'
    || c == '\U{3000}' || c == '\U{FEFF}'
  }

  function LowerChar(c: char): (r: char)
    ensures !IsUpper(r)
    ensures IsUpper(c) ==> r as int == c as int + 32
    ensures !IsUpper(c) ==> r == c
  {
    if IsUpper(c) then (c as int + 32) as char else c
  }

  /** toLowerCase() restricted to the ASCII letters. */
  function Lower(s: string): (r: string)
    ensures |r| == |s|
    ensures forall i :: 0 <= i < |s| ==> r[i] == LowerChar(s[i])
  {
    seq(|s|, i requires 0 <= i < |s| => LowerChar(s[i]))
  }

  /** Lower-casing leaves a string without upper-case letters unchanged. */
  lemma LowerUnchanged(s: string)
    requires forall i :: 0 <= i < |s| ==> !IsUpper(s[i])
    ensures Lower(s) == s
  {
    assert forall i :: 0 <= i < |s| ==> Lower(s)[i] == s[i];
  }

  predicate EqualsIgnoreCase(a: string, b: string) { Lower(a) == Lower(b) }

  /** The LineTerminator characters of ECMAScript, which `.` does not match. */
  predicate IsLineTerminator(c: char) { c == '\n' || c == '\r' || c == '\U{2028}' || c == '\U{2029}' }

  // ------------------------------------------------------------- prefixes

  predicate StartsWith(s: string, p: string) { |p| <= |s| && s[..|p|] == p }
  predicate EndsWith(s: string, p: string) { |p| <= |s| && s[|s| - |p|..] == p }

  /** `s.includes(p)`. */
  predicate Contains(s: string, p: string) {
    exists i :: 0 <= i <= |s| && OccursAt(s, p, i)
  }

  predicate OccursAt(s: string, p: string, i: nat) {
    i + |p| <= |s| && s[i..i + |p|] == p
  }

  /** `s` holds the lower-case ASCII word `w` at `i`, ignoring case. */
  predicate WordAt(s: string, i: nat, w: string) {
    i + |w| <= |s| && forall j :: 0 <= j < |w| ==> LowerChar(s[i + j]) == w[j]
  }

  lemma JoinAssoc(a: string, b: string, c: string, d: string)
    ensures a + (b + c + d) == a + b + c + d
  {
  }

  /** Where each piece of a six-part concatenation sits. */
  lemma PiecesOfJoin(a: string, b: string, c: string, d: string, e: string, f: string)
    ensures var s := a + b + c + d + e + f;
            var i1 := |a|;
            var i2 := i1 + |b|;
            var i3 := i2 + |c|;
            var i4 := i3 + |d|;
            var i5 := i4 + |e|;
            && |s| == i5 + |f|
            && (forall j :: 0 <= j < i1 ==> s[j] == a[j])
            && (forall j :: i1 <= j < i2 ==> s[j] == b[j - i1])
            && (forall j :: i2 <= j < i3 ==> s[j] == c[j - i2])
            && (forall j :: i3 <= j < i4 ==> s[j] == d[j - i3])
            && (forall j :: i4 <= j < i5 ==> s[j] == e[j - i4])
            && (forall j :: i5 <= j < |s| ==> s[j] == f[j - i5])
            && s[i1..i2] == b && s[i3..i4] == d
  {
    var s := a + b + c + d + e + f;
    assert s[|a|..|a| + |b|] == b;
    assert s[|a| + |b| + |c|..|a| + |b| + |c| + |d|] == d;
  }

  /** The middle of a concatenation is found where it is written. */
  lemma MiddleOfJoin(a: string, w: string, b: string)
    ensures (a + w + b)[|a|..|a| + |w|] == w
    ensures forall j :: |a| <= j < |a| + |w| ==> (a + w + b)[j] == w[j - |a|]
  {
    var s := a + w + b;
    assert s[..|a| + |w|] == a + w;
    assert s[|a|..|a| + |w|] == (a + w)[|a|..];
  }

  /** A word without capitals is found where it is written. */
  lemma WordAtJoin(a: string, w: string, b: string)
    requires forall j :: 0 <= j < |w| ==> !IsUpper(w[j])
    ensures WordAt(a + w + b, |a|, w)
  {
    var s := a + w + b;
    forall j | 0 <= j < |w| ensures LowerChar(s[|a| + j]) == w[j] {
      assert s[|a| + j] == (a + w)[|a| + j] == w[j];
    }
  }

  /** `s` contains `p` ignoring ASCII case, as `/p/i.test(s)` for an ASCII `p`. */
  predicate ContainsIgnoreCase(s: string, p: string)
    decreases |s|
  {
    |p| <= |s| && (EqualsIgnoreCase(s[..|p|], p) || ContainsIgnoreCase(s[1..], p))
  }

  /** `/p1|p2|...|pn/i.test(s)`. */
  predicate ContainsAnyIgnoreCase(s: string, ps: seq<string>) {
    exists k :: 0 <= k < |ps| && ContainsIgnoreCase(s, ps[k])
  }

  lemma {:induction false} ContainsIgnoreCaseAt(s: string, p: string, i: nat)
    requires i + |p| <= |s| && EqualsIgnoreCase(s[i..i + |p|], p)
    ensures ContainsIgnoreCase(s, p)
    decreases i
  {
    if i > 0 {
      assert s[1..][i - 1..i - 1 + |p|] == s[i..i + |p|];
      ContainsIgnoreCaseAt(s[1..], p, i - 1);
    }
  }

  // ----------------------------------------------------------- white space

  function TrimStart(s: string): (r: string)
    ensures |r| <= |s| && r == s[|s| - |r|..]
    ensures r == [] || !IsSpace(r[0])
    ensures forall i :: 0 <= i < |s| - |r| ==> IsSpace(s[i])
  {
    if s != [] && IsSpace(s[0]) then TrimStart(s[1..]) else s
  }

  function TrimEnd(s: string): (r: string)
    ensures |r| <= |s| && r == s[..|r|]
    ensures r == [] || !IsSpace(r[|r| - 1])
    ensures forall i :: |r| <= i < |s| ==> IsSpace(s[i])
  {
    if s != [] && IsSpace(s[|s| - 1]) then TrimEnd(s[..|s| - 1]) else s
  }

  /** String.prototype.trim(). */
  function Trim(s: string): (r: string)
    ensures |r| <= |s|
    ensures r == [] || (!IsSpace(r[0]) && !IsSpace(r[|r| - 1]))
  {
    TrimEnd(TrimStart(s))
  }

  /** A string that neither starts nor ends with white space is its own trim. */
  lemma TrimUnchanged(s: string)
    requires s == [] || (!IsSpace(s[0]) && !IsSpace(s[|s| - 1]))
    ensures Trim(s) == s
  {
    assert TrimStart(s) == s;
  }

  // ---------------------------------------------------------------- digits

  predicate AllDigits(s: string) { forall i :: 0 <= i < |s| ==> IsDigit(s[i]) }

  function DigitValue(c: char): (d: nat)
    requires IsDigit(c)
    ensures d < 10
  {
    c as int - '0' as int
  }

  /** The number that a string of decimal digits denotes (`+s`, parseInt). */
  function DigitsValue(s: string): nat
    requires AllDigits(s)
  {
    if s == [] then 0 else DigitsValue(s[..|s| - 1]) * 10 + DigitValue(s[|s| - 1])
  }

  function DigitChar(d: nat): (c: char)
    requires d < 10
    ensures IsDigit(c) && DigitValue(c) == d
  {
    ('0' as int + d) as char
  }

  /** String(n) for a natural number: decimal, no leading zeros. */
  function NatToString(n: nat): (s: string)
    ensures AllDigits(s) && s != []
    ensures |s| > 1 ==> s[0] != '0'
    decreases n
  {
    if n < 10 then [DigitChar(n)] else NatToString(n / 10) + [DigitChar(n % 10)]
  }

  lemma {:induction false} NatToStringValue(n: nat)
    ensures DigitsValue(NatToString(n)) == n
    decreases n
  {
    if n >= 10 {
      var s := NatToString(n);
      assert s[..|s| - 1] == NatToString(n / 10);
      NatToStringValue(n / 10);
    }
  }

  /** The value of four digits. */
  lemma DigitsValueOf4(d: string)
    requires |d| == 4 && AllDigits(d)
    ensures DigitsValue(d) == 1000 * DigitValue(d[0]) + 100 * DigitValue(d[1]) + 10 * DigitValue(d[2]) + DigitValue(d[3])
  {
    var d3, d2, d1 := d[..3], d[..2], d[..1];
    assert d3[..2] == d2 && d2[..1] == d1 && d1[..0] == [];
    assert DigitsValue(d1) == DigitValue(d[0]);
    assert DigitsValue(d2) == DigitsValue(d1) * 10 + DigitValue(d[1]);
    assert DigitsValue(d3) == DigitsValue(d2) * 10 + DigitValue(d[2]);
    assert DigitsValue(d) == DigitsValue(d3) * 10 + DigitValue(d[3]);
  }

  /** String(n) for any integer. */
  function IntToString(n: int): (s: string)
    ensures s != []
  {
    if n < 0 then "-" + NatToString(-n) else NatToString(n)
  }

  /** Length of the longest prefix of `s` made of decimal digits. */
  function DigitRun(s: string): (k: nat)
    ensures k <= |s| && AllDigits(s[..k])
    ensures k < |s| ==> !IsDigit(s[k])
  {
    if s != [] && IsDigit(s[0]) then
      var k := 1 + DigitRun(s[1..]);
      assert s[..k] == [s[0]] + s[1..][..k - 1];
      k
    else 0
  }

  lemma {:induction false} DigitRunOfDigits(d: string, rest: string)
    requires AllDigits(d)
    requires rest == [] || !IsDigit(rest[0])
    ensures DigitRun(d + rest) == |d|
    decreases |d|
  {
    if d != [] {
      assert (d + rest)[1..] == d[1..] + rest;
      DigitRunOfDigits(d[1..], rest);
    }
  }

  /** The number parseInt(s, 10) yields, or None for NaN: leading white space,
      an optional sign, then the longest run of decimal digits. */
  function ParseInt(s: string): (r: Option<int>)
    ensures r.Some? <==> (var t := TrimStart(s);
                           var u := if t != [] && (t[0] == '+' || t[0] == '-') then t[1..] else t;
                           u != [] && IsDigit(u[0]))
  {
    var t := TrimStart(s);
    var negative := t != [] && t[0] == '-';
    var u := if t != [] && (t[0] == '+' || t[0] == '-') then t[1..] else t;
    var k := DigitRun(u);
    if k == 0 then None
    else if negative then Some(-(DigitsValue(u[..k]) as int))
    else Some(DigitsValue(u[..k]))
  }

  lemma ParseIntOfNat(n: nat)
    ensures ParseInt(NatToString(n)) == Some(n)
  {
    var s := NatToString(n);
    assert !IsSpace(s[0]);
    assert TrimStart(s) == s;
    DigitRunOfDigits(s, []);
    assert s + [] == s;
    NatToStringValue(n);
  }

  /** `+q`, the JavaScript conversion of a query string to a number, for
      the decimal integers written with an optional sign and surrounding
      white space; "" is 0 and anything else is NaN (None). */
  function ToNumber(q: string): Option<int> {
    var s := Trim(q);
    if s == "" then Some(0)
    else if AllDigits(s) then Some(DigitsValue(s))
    else if s[0] == '-' && |s| > 1 && AllDigits(s[1..]) then Some(-(DigitsValue(s[1..]) as int))
    else if s[0] == '+' && |s| > 1 && AllDigits(s[1..]) then Some(DigitsValue(s[1..]))
    else None
  }

  /** A count written in decimal converts to itself. */
  lemma ToNumberOfNat(n: nat)
    ensures ToNumber(NatToString(n)) == Some(n)
  {
    var s := NatToString(n);
    assert !IsSpace(s[0]) && !IsSpace(s[|s| - 1]);
    TrimUnchanged(s);
    NatToStringValue(n);
  }

  /** So does any integer written as String() writes it. */
  lemma ToNumberOfInt(n: int)
    ensures ToNumber(IntToString(n)) == Some(n)
  {
    if n >= 0 {
      ToNumberOfNat(n);
    } else {
      var d := NatToString(-n);
      var s := ['-'] + d;
      assert s == IntToString(n);
      assert s[1..] == d;
      assert s[|s| - 1] == d[|d| - 1];
      TrimUnchanged(s);
      NatToStringValue(-n);
      assert ToNumber(s) == Some(-(DigitsValue(d) as int));
    }
  }

  // ------------------------------------------------------------ searching

  /** The leftmost position at or after `i` where a match of `p` starts, as
      a regex without the g flag finds it. */
  function FirstMatch(s: string, i: nat, p: (string, nat) -> bool): (r: Option<nat>)
    ensures r.Some? ==> i <= r.value < |s| && p(s, r.value) && forall j :: i <= j < r.value ==> !p(s, j)
    ensures r.None? ==> forall j :: i <= j < |s| ==> !p(s, j)
    decreases |s| - i
  {
    if i >= |s| then None else if p(s, i) then Some(i) else FirstMatch(s, i + 1, p)
  }

  /** A position where `p` holds and before which it never does is the
      leftmost match. */
  lemma FirstMatchIs(s: string, i: nat, p: (string, nat) -> bool)
    requires i < |s| && p(s, i) && forall j :: 0 <= j < i ==> !p(s, j)
    ensures FirstMatch(s, 0, p) == Some(i)
  {
    assert FirstMatch(s, 0, p).Some?;
  }

  /** A block of `k` characters satisfying `c` that is followed by one that
      does not, or by the end, is the run at `i`. */
  lemma {:induction false} RunFromBlock(s: string, i: nat, k: nat, c: char -> bool)
    requires i + k <= |s|
    requires forall j :: i <= j < i + k ==> c(s[j])
    requires i + k == |s| || !c(s[i + k])
    ensures RunFrom(s, i, c) == k
    decreases k
  {
    if k > 0 { RunFromBlock(s, i + 1, k - 1, c); }
  }

  /** Length of the run of characters of `s` from `i` on that satisfy `c`. */
  function RunFrom(s: string, i: nat, c: char -> bool): (k: nat)
    requires i <= |s|
    ensures i + k <= |s|
    ensures forall j :: i <= j < i + k ==> c(s[j])
    ensures i + k < |s| ==> !c(s[i + k])
    decreases |s| - i
  {
    if i < |s| && c(s[i]) then 1 + RunFrom(s, i + 1, c) else 0
  }

  // ------------------------------------------------------------ ordering

  /** `a <= b` on strings: the lexicographic order of their characters. */
  predicate LexLeq(a: string, b: string)
    decreases |a|
  {
    a == [] || (b != [] && (a[0] < b[0] || (a[0] == b[0] && LexLeq(a[1..], b[1..]))))
  }

  lemma {:induction false} LexLeqTotal(a: string, b: string)
    ensures LexLeq(a, b) || LexLeq(b, a)
    decreases |a|
  {
    if a != [] && b != [] && a[0] == b[0] { LexLeqTotal(a[1..], b[1..]); }
  }

  lemma {:induction false} LexLeqTransitive(a: string, b: string, c: string)
    requires LexLeq(a, b) && LexLeq(b, c)
    ensures LexLeq(a, c)
    decreases |a|
  {
    if a != [] && a[0] == b[0] && b[0] == c[0] { LexLeqTransitive(a[1..], b[1..], c[1..]); }
  }

  lemma {:induction false} LexLeqAntisymmetric(a: string, b: string)
    requires LexLeq(a, b) && LexLeq(b, a)
    ensures a == b
    decreases |a|
  {
    if a != [] {
      LexLeqAntisymmetric(a[1..], b[1..]);
      assert a == [a[0]] + a[1..] && b == [b[0]] + b[1..];
    }
  }
  // ------------------------------------------------------------ filtering

  /** An attribute value JavaScript treats as false: missing or "". */
  predicate Falsy(a: Option<string>) { a.None? || a.value == "" }

  /** `a || b || c` over attribute values: the first present and non-empty
      one, None when every one is missing or "". */
  function FirstTruthy(xs: seq<Option<string>>): (r: Option<string>)
    ensures r.Some? ==> r.value != "" && exists i :: 0 <= i < |xs| && xs[i] == r && forall j :: 0 <= j < i ==> Falsy(xs[j])
    ensures r.None? ==> forall i :: 0 <= i < |xs| ==> Falsy(xs[i])
  {
    if xs == [] then None
    else if !Falsy(xs[0]) then xs[0]
    else
      var r := FirstTruthy(xs[1..]);
      assert forall i :: 1 <= i < |xs| ==> xs[i] == xs[1..][i - 1];
      assert r.Some? ==> exists i :: 0 <= i < |xs| && xs[i] == r && forall j :: 0 <= j < i ==> Falsy(xs[j]) by {
        if r.Some? {
          var i :| 0 <= i < |xs[1..]| && xs[1..][i] == r && forall j :: 0 <= j < i ==> Falsy(xs[1..][j]);
          assert xs[i + 1] == r && forall j :: 0 <= j < i + 1 ==> Falsy(xs[j]);
        }
      }
      r
  }

  /** The values of the present elements, in order: what a loop that skips
      the missing ones and pushes the rest collects. */
  function Somes<T>(s: seq<Option<T>>): (r: seq<T>)
    ensures |r| <= |s|
  {
    if s == [] then [] else Somes(s[..|s| - 1]) + (if s[|s| - 1].Some? then [s[|s| - 1].value] else [])
  }

  /** One more element adds its value when it has one. */
  lemma SomesSnoc<T>(s: seq<Option<T>>, i: nat)
    requires i < |s|
    ensures Somes(s[..i + 1]) == Somes(s[..i]) + (if s[i].Some? then [s[i].value] else [])
  {
    assert s[..i + 1][..i] == s[..i];
  }

  lemma {:induction false} SomesAppend<T>(a: seq<Option<T>>, b: seq<Option<T>>)
    ensures Somes(a + b) == Somes(a) + Somes(b)
    decreases |b|
  {
    if b == [] {
      assert a + b == a;
    } else {
      var b' := b[..|b| - 1];
      var tail := if b[|b| - 1].Some? then [b[|b| - 1].value] else [];
      SomesAppend(a, b');
      assert (a + b)[..|a + b| - 1] == a + b';
      assert (a + b)[|a + b| - 1] == b[|b| - 1];
      assert Somes(a + b) == (Somes(a) + Somes(b')) + tail;
      assert (Somes(a) + Somes(b')) + tail == Somes(a) + (Somes(b') + tail);
    }
  }

  /** A value is collected exactly when some element holds it. */
  lemma {:induction false} SomesMembers<T>(s: seq<Option<T>>, x: T)
    ensures x in Somes(s) <==> Some(x) in s
    decreases |s|
  {
    if s != [] {
      var init := s[..|s| - 1];
      SomesMembers(init, x);
      assert s == init + [s[|s| - 1]];
    }
  }

  /** The values that `f` gives the elements of `xs`, collected in order:
      a value is among them exactly when some element gives it. */
  lemma SomesOfMap<A, B>(xs: seq<A>, ys: seq<Option<B>>, f: A -> Option<B>, y: B)
    requires |ys| == |xs| && forall i :: 0 <= i < |xs| ==> ys[i] == f(xs[i])
    ensures y in Somes(ys) <==> exists i :: 0 <= i < |xs| && f(xs[i]) == Some(y)
  {
    SomesMembers(ys, y);
    if Some(y) in ys {
      var i :| 0 <= i < |ys| && ys[i] == Some(y);
      assert f(xs[i]) == Some(y);
    }
  }

  /** The number of elements satisfying `p`, counted from the front. */
  function CountWhere<T>(s: seq<T>, p: T -> bool): (n: nat)
    ensures n <= |s|
  {
    if s == [] then 0 else CountWhere(s[..|s| - 1], p) + (if p(s[|s| - 1]) then 1 else 0)
  }

  /** The positions of the elements satisfying `p`. */
  function IndicesWhere<T>(s: seq<T>, p: T -> bool): set<nat> {
    set i: nat | i < |s| && p(s[i])
  }

  /** The count is the number of positions satisfying `p`, no more, no less. */
  lemma {:induction false} CountWhereIndices<T>(s: seq<T>, p: T -> bool)
    ensures CountWhere(s, p) == |IndicesWhere(s, p)|
    decreases |s|
  {
    if s != [] {
      var init := s[..|s| - 1];
      var last := |s| - 1;
      CountWhereIndices(init, p);
      var a, b := IndicesWhere(init, p), IndicesWhere(s, p);
      var c := if p(s[last]) then {last} else {};
      forall i: nat ensures i in b <==> i in a + c {
        if i < last { assert s[i] == init[i]; }
      }
      assert b == a + c;
      assert a * c == {};
    }
  }

  /** `xs.map(f)`. */
  function MapAll<A, B>(xs: seq<A>, f: A -> B): (ys: seq<B>)
    ensures |ys| == |xs| && forall i :: 0 <= i < |xs| ==> ys[i] == f(xs[i])
  {
    seq(|xs|, i requires 0 <= i < |xs| => f(xs[i]))
  }

  lemma MapAllAppend<A, B>(a: seq<A>, b: seq<A>, f: A -> B)
    ensures MapAll(a + b, f) == MapAll(a, f) + MapAll(b, f)
  {
    var l, r := MapAll(a + b, f), MapAll(a, f) + MapAll(b, f);
    forall i | 0 <= i < |l| ensures l[i] == r[i] {
      if i < |a| { assert (a + b)[i] == a[i]; } else { assert (a + b)[i] == b[i - |a|]; }
    }
  }

  lemma MapAllTail<A, B>(xs: seq<A>, f: A -> B)
    requires xs != []
    ensures MapAll(xs, f) == [f(xs[0])] + MapAll(xs[1..], f)
  {
    assert xs == [xs[0]] + xs[1..];
    MapAllAppend([xs[0]], xs[1..], f);
  }
}
