/** Numeric ordering of years: the `.sort((a, b) => a - b)` of
    fetchDiaryYears in api/diary.js. */
module NatOrder {

  predicate Ascending(s: seq<nat>) { forall i, j :: 0 <= i < j < |s| ==> s[i] <= s[j] }

  predicate StrictlyAscending(s: seq<nat>) { forall i, j :: 0 <= i < j < |s| ==> s[i] < s[j] }

  predicate NoRepeats(s: seq<nat>) { forall i, j :: 0 <= i < j < |s| ==> s[i] != s[j] }

  /** `x` put before the first element of `s` it does not exceed. */
  function InsertNat(x: nat, s: seq<nat>): seq<nat> {
    if s == [] || x <= s[0] then [x] + s else [s[0]] + InsertNat(x, s[1..])
  }

  /** `.sort((a, b) => a - b)`: an insertion sort, which orders numbers as
      the comparator does. */
  function SortNats(s: seq<nat>): seq<nat> {
    if s == [] then [] else InsertNat(s[0], SortNats(s[1..]))
  }

  lemma {:induction false} InsertNatPermutes(x: nat, s: seq<nat>)
    ensures multiset(InsertNat(x, s)) == multiset(s) + multiset{x}
    decreases |s|
  {
    if s != [] && x > s[0] {
      InsertNatPermutes(x, s[1..]);
      assert s == [s[0]] + s[1..];
    }
  }

  predicate AtLeast(s: seq<nat>, b: nat) { forall j :: 0 <= j < |s| ==> b <= s[j] }

  /** Inserting keeps a lower bound that `x` meets too. */
  lemma {:induction false} InsertNatAtLeast(x: nat, s: seq<nat>, b: nat)
    requires AtLeast(s, b) && b <= x
    ensures AtLeast(InsertNat(x, s), b)
    decreases |s|
  {
    if s != [] && x > s[0] {
      InsertNatAtLeast(x, s[1..], b);
      var t := InsertNat(x, s[1..]);
      assert forall j :: 1 <= j < |t| + 1 ==> ([s[0]] + t)[j] == t[j - 1];
    }
  }

  lemma ConsAscending(y: nat, t: seq<nat>)
    requires Ascending(t) && AtLeast(t, y)
    ensures Ascending([y] + t)
  {
    var r := [y] + t;
    forall i, j | 0 <= i < j < |r| ensures r[i] <= r[j] {
      assert r[j] == t[j - 1];
      if i > 0 { assert r[i] == t[i - 1]; }
    }
  }

  lemma {:induction false} InsertNatAscending(x: nat, s: seq<nat>)
    requires Ascending(s)
    ensures Ascending(InsertNat(x, s))
    decreases |s|
  {
    if s == [] || x <= s[0] {
      assert AtLeast(s, x) by {
        forall j | 0 <= j < |s| ensures x <= s[j] { if j > 0 { assert s[0] <= s[j]; } }
      }
      ConsAscending(x, s);
    } else {
      var tail := s[1..];
      assert Ascending(tail) by {
        forall i, j | 0 <= i < j < |tail| ensures tail[i] <= tail[j] { assert tail[i] == s[i + 1] && tail[j] == s[j + 1]; }
      }
      assert AtLeast(tail, s[0]) by {
        forall j | 0 <= j < |tail| ensures s[0] <= tail[j] { assert tail[j] == s[j + 1]; }
      }
      InsertNatAscending(x, tail);
      InsertNatAtLeast(x, tail, s[0]);
      ConsAscending(s[0], InsertNat(x, tail));
    }
  }

  /** The sort orders its input and keeps every element as often as it
      occurs. */
  lemma {:induction false} SortNatsSorts(s: seq<nat>)
    ensures Ascending(SortNats(s))
    ensures multiset(SortNats(s)) == multiset(s)
    decreases |s|
  {
    if s != [] {
      SortNatsSorts(s[1..]);
      InsertNatAscending(s[0], SortNats(s[1..]));
      InsertNatPermutes(s[0], SortNats(s[1..]));
      assert s == [s[0]] + s[1..];
    }
  }

  lemma {:induction false} MultisetOfDistinct(s: seq<nat>, x: nat)
    requires NoRepeats(s)
    ensures multiset(s)[x] <= 1
    decreases |s|
  {
    if s != [] {
      var init := s[..|s| - 1];
      MultisetOfDistinct(init, x);
      assert s == init + [s[|s| - 1]];
      assert s[|s| - 1] == x ==> x !in init;
    }
  }

  /** An ascending sequence holding each value at most once is strictly
      ascending. */
  lemma StrictOfAscending(r: seq<nat>)
    requires Ascending(r)
    requires forall x :: multiset(r)[x] <= 1
    ensures StrictlyAscending(r)
  {
    forall i, j | 0 <= i < j < |r| ensures r[i] < r[j] {
      assert r == r[..j] + r[j..];
      assert r[..j][i] == r[i] && r[j..][0] == r[j];
      assert multiset(r)[r[j]] == multiset(r[..j])[r[j]] + multiset(r[j..])[r[j]];
    }
  }

  /** Sorting values without repeats orders them strictly and keeps exactly
      the values given. */
  lemma SortDistinct(s: seq<nat>)
    requires NoRepeats(s)
    ensures StrictlyAscending(SortNats(s))
    ensures forall x :: x in SortNats(s) <==> x in s
  {
    var r := SortNats(s);
    SortNatsSorts(s);
    forall x ensures x in r <==> x in s {
      assert x in r <==> x in multiset(r);
    }
    forall x ensures multiset(r)[x] <= 1 {
      MultisetOfDistinct(s, x);
    }
    StrictOfAscending(r);
  }
}
