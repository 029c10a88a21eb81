/** The star glyphs of a rating: extractStarsText and starsTextToFloat of
    api/ratings-timeline.js and api/ratings.js. A rating is counted in half
    stars: "★★½" is 5, so 1 to 10 are the ratings 0.5 to 5.0. */
module Stars {
  import opened Text

  const FullStar: char := '★'
  const HalfStar: char := '½'

  /** The character class [★½]. */
  predicate IsStarGlyph(c: char) { c == FullStar || c == HalfStar }

  predicate HasStarGlyph(s: string) { exists i :: 0 <= i < |s| && IsStarGlyph(s[i]) }

  /** Length of the run of star glyphs that starts `s`. */
  function GlyphRun(s: string): (k: nat)
    ensures k <= |s|
    ensures forall i :: 0 <= i < k ==> IsStarGlyph(s[i])
    ensures k < |s| ==> !IsStarGlyph(s[k])
  {
    if s != [] && IsStarGlyph(s[0]) then 1 + GlyphRun(s[1..]) else 0
  }

  /** `s.match(/([★½]+)/)`: the leftmost run of star glyphs, taken whole. */
  function FirstGlyphRun(s: string): (r: Option<string>)
    ensures r.Some? <==> HasStarGlyph(s)
    ensures r.Some? ==> r.value != [] && forall i :: 0 <= i < |r.value| ==> IsStarGlyph(r.value[i])
  {
    if s == [] then None
    else if IsStarGlyph(s[0]) then Some(s[..GlyphRun(s)])
    else
      var r := FirstGlyphRun(s[1..]);
      assert HasStarGlyph(s[1..]) ==> HasStarGlyph(s) by {
        if HasStarGlyph(s[1..]) { var i :| 0 <= i < |s[1..]| && IsStarGlyph(s[1..][i]); assert s[i + 1] == s[1..][i]; }
      }
      assert HasStarGlyph(s) ==> HasStarGlyph(s[1..]) by {
        if HasStarGlyph(s) { var i :| 0 <= i < |s| && IsStarGlyph(s[i]); assert s[1..][i - 1] == s[i]; }
      }
      r
  }

  /** The run found is a maximal run of glyphs and everything before it is
      not a glyph. */
  lemma {:induction false} FirstGlyphRunSpec(s: string)
    requires HasStarGlyph(s)
    ensures exists i :: 0 <= i < |s| && GlyphRunAt(s, i, FirstGlyphRun(s).value)
    decreases |s|
  {
    if IsStarGlyph(s[0]) {
      assert GlyphRunAt(s, 0, FirstGlyphRun(s).value);
    } else {
      FirstGlyphRunSpec(s[1..]);
      var i :| 0 <= i < |s[1..]| && GlyphRunAt(s[1..], i, FirstGlyphRun(s[1..]).value);
      assert s[1..][i..] == s[i + 1..];
      assert GlyphRunAt(s, i + 1, FirstGlyphRun(s).value);
    }
  }

  /** `run` is the run of glyphs starting at `i`, taken whole, and no glyph
      comes before `i`. */
  predicate GlyphRunAt(s: string, i: nat, run: string)
    requires i < |s|
  {
    && (forall j :: 0 <= j < i ==> !IsStarGlyph(s[j]))
    && run != [] && run == s[i..][..GlyphRun(s[i..])]
  }

  /** extractStarsText: the glyph run of the first candidate text (trimmed)
      that holds a glyph, else the first run of the whole element text, else
      "". `candidates` are the texts of the first element each selector
      finds, "" where it finds none. */
  function ExtractStarsText(candidates: seq<string>, wholeText: string): (r: string)
    ensures r == [] || forall i :: 0 <= i < |r| ==> IsStarGlyph(r[i])
  {
    if candidates == [] then FirstGlyphRun(wholeText).GetOr("")
    else
      var t := Trim(candidates[0]);
      if HasStarGlyph(t) then FirstGlyphRun(t).value
      else ExtractStarsText(candidates[1..], wholeText)
  }

  /** The candidates are tried in order: the answer is the glyph run of the
      first candidate whose trimmed text has a glyph. */
  lemma {:induction false} ExtractStarsFromCandidate(candidates: seq<string>, wholeText: string, k: nat)
    requires k < |candidates| && FirstCandidate(candidates, k)
    ensures ExtractStarsText(candidates, wholeText) == FirstGlyphRun(Trim(candidates[k])).value
    decreases k
  {
    if k > 0 {
      assert !HasStarGlyph(Trim(candidates[0]));
      var c := candidates[1..];
      forall j | 0 <= j < k - 1 ensures !HasStarGlyph(Trim(c[j])) { assert c[j] == candidates[j + 1]; }
      assert c[k - 1] == candidates[k];
      ExtractStarsFromCandidate(c, wholeText, k - 1);
    }
  }

  /** Only when no candidate has a glyph is the whole text searched. */
  lemma {:induction false} ExtractStarsFromWholeText(candidates: seq<string>, wholeText: string)
    requires forall k :: 0 <= k < |candidates| ==> !HasStarGlyph(Trim(candidates[k]))
    ensures ExtractStarsText(candidates, wholeText) == FirstGlyphRun(wholeText).GetOr("")
    decreases |candidates|
  {
    if candidates != [] {
      var c := candidates[1..];
      assert !HasStarGlyph(Trim(candidates[0]));
      forall j | 0 <= j < |c| ensures !HasStarGlyph(Trim(c[j])) { assert c[j] == candidates[j + 1]; }
      ExtractStarsFromWholeText(c, wholeText);
    }
  }

  /** Candidate `k` is the first whose trimmed text holds a glyph. */
  predicate FirstCandidate(candidates: seq<string>, k: nat)
    requires k < |candidates|
  {
    HasStarGlyph(Trim(candidates[k])) && forall j :: 0 <= j < k ==> !HasStarGlyph(Trim(candidates[j]))
  }

  /** `(s.match(/★/g) || []).length`. */
  function CountFull(s: string): (n: nat)
    ensures n <= |s|
  {
    if s == [] then 0 else (if s[0] == FullStar then 1 else 0) + CountFull(s[1..])
  }

  predicate HasHalf(s: string) { exists i :: 0 <= i < |s| && s[i] == HalfStar }

  /** starsTextToFloat(s) in half stars: two per '★', one more if any '½' is
      present, null for the empty text or a value of 0. */
  function StarsToHalves(s: string): (r: Option<nat>)
    ensures r.Some? ==> r.value >= 1
  {
    if s == [] then None
    else
      var v := 2 * CountFull(s) + (if HasHalf(s) then 1 else 0);
      if v > 0 then Some(v) else None
  }

  /** `n` full stars, then a half star when `half` holds. */
  function StarText(n: nat, half: bool): string {
    seq(n, _ => FullStar) + (if half then [HalfStar] else [])
  }

  lemma {:induction false} CountFullStars(n: nat)
    ensures CountFull(seq(n, _ => FullStar)) == n
    decreases n
  {
    if n > 0 {
      assert seq(n, _ => FullStar)[1..] == seq(n - 1, _ => FullStar);
      CountFullStars(n - 1);
    }
  }

  lemma {:induction false} CountFullAppend(a: string, b: string)
    ensures CountFull(a + b) == CountFull(a) + CountFull(b)
    decreases |a|
  {
    if a != [] {
      assert (a + b)[1..] == a[1..] + b;
      CountFullAppend(a[1..], b);
    } else {
      assert a + b == b;
    }
  }

  /** Decoding the glyphs of `n` stars and an optional half gives 2n or 2n + 1
      half stars ("★★★" is 3.0, "★★½" is 2.5), and nothing for no glyph. */
  lemma StarTextValue(n: nat, half: bool)
    ensures StarsToHalves(StarText(n, half)) == if n == 0 && !half then None else Some(2 * n + (if half then 1 else 0))
  {
    var full := seq(n, _ => FullStar);
    var s := StarText(n, half);
    CountFullStars(n);
    CountFullAppend(full, if half then [HalfStar] else []);
    if half {
      assert s[|s| - 1] == HalfStar;
    } else {
      assert s == full;
      assert !HasHalf(s) by {
        forall i | 0 <= i < |s| ensures s[i] != HalfStar { assert s[i] == FullStar; }
      }
    }
  }

  /** A text decodes to a rating exactly when it holds a glyph. */
  lemma StarsToHalvesDefined(s: string)
    ensures StarsToHalves(s).Some? <==> HasStarGlyph(s)
  {
    CountFullPositive(s);
    if HasStarGlyph(s) {
      var i :| 0 <= i < |s| && IsStarGlyph(s[i]);
      assert s[i] == FullStar || s[i] == HalfStar;
    }
  }

  lemma {:induction false} CountFullPositive(s: string)
    ensures CountFull(s) > 0 <==> exists i :: 0 <= i < |s| && s[i] == FullStar
    decreases |s|
  {
    if s != [] {
      CountFullPositive(s[1..]);
      if exists i :: 0 <= i < |s| && s[i] == FullStar {
        var i :| 0 <= i < |s| && s[i] == FullStar;
        if i > 0 { assert s[1..][i - 1] == FullStar; }
      }
      if exists i :: 0 <= i < |s[1..]| && s[1..][i] == FullStar {
        var i :| 0 <= i < |s[1..]| && s[1..][i] == FullStar;
        assert s[i + 1] == FullStar;
      }
    }
  }
}
