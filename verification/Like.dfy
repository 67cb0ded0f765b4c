/** The LIKE matcher: `%` stands for any text, `_` for any one character. */
module Like {
  import opened Wrappers

  /** What it means to match, pattern character by pattern character. */
  ghost predicate Matches(t: string, p: string)
    decreases |p|
  {
    if p == "" then t == ""
    else if p[0] == '%' then exists i {:trigger t[i..]} :: 0 <= i <= |t| && Matches(t[i..], p[1..])
    else t != "" && (p[0] == '_' || p[0] == t[0]) && Matches(t[1..], p[1..])
  }

  /** A pattern of nothing but `%`. */
  predicate AllStars(p: string) {
    forall i :: 0 <= i < |p| ==> p[i] == '%'
  }

  predicate NoStar(p: string) {
    forall i :: 0 <= i < |p| ==> p[i] != '%'
  }

  // ---------------------------------------------------------------- matching, position by position

  /** Pattern character `i` stands for the text from position `cuts[i]` to `cuts[i + 1]`. */
  ghost predicate StandsFor(t: string, p: string, cuts: seq<nat>, i: nat)
    requires i < |p| && |cuts| == |p| + 1
  {
    && cuts[i] <= cuts[i + 1] <= |t|
    && (p[i] != '%' ==> cuts[i + 1] == cuts[i] + 1 && (p[i] == '_' || p[i] == t[cuts[i]]))
  }

  /** The text is cut into pieces, one for each pattern character. */
  ghost predicate Cut(t: string, p: string, cuts: seq<nat>) {
    && |cuts| == |p| + 1 && cuts[0] == 0 && cuts[|p|] == |t|
    && forall i {:trigger StandsFor(t, p, cuts, i)} :: 0 <= i < |p| ==> StandsFor(t, p, cuts, i)
  }

  /** A text matches exactly when it can be cut into pieces that the pattern characters stand for. */
  lemma MatchesIsCut(t: string, p: string)
    ensures Matches(t, p) <==> exists cuts: seq<nat> :: Cut(t, p, cuts)
  {
    if Matches(t, p) {
      var cuts := CutOf(t, p);
    }
    if cuts: seq<nat> :| Cut(t, p, cuts) {
      CutMatches(t, p, cuts);
    }
  }

  lemma {:induction false} CutOf(t: string, p: string) returns (cuts: seq<nat>)
    requires Matches(t, p)
    ensures Cut(t, p, cuts)
    decreases |p|
  {
    if p == "" {
      cuts := [0];
    } else {
      var k: nat := 1;
      if p[0] == '%' {
        k :| 0 <= k <= |t| && Matches(t[k..], p[1..]);
      }
      var rest := CutOf(t[k..], p[1..]);
      cuts := [0] + seq(|p|, i requires 0 <= i < |p| => rest[i] + k);
      forall i {:trigger StandsFor(t, p, cuts, i)} | 0 <= i < |p| ensures StandsFor(t, p, cuts, i) {
        if i > 0 { assert StandsFor(t[k..], p[1..], rest, i - 1); }
      }
    }
  }

  lemma {:induction false} CutMatches(t: string, p: string, cuts: seq<nat>)
    requires Cut(t, p, cuts)
    ensures Matches(t, p)
    decreases |p|
  {
    if p != "" {
      assert StandsFor(t, p, cuts, 0);
      var k := cuts[1];
      Ascends(t, p, cuts, 1);
      var rest := seq(|p|, i requires 0 <= i < |p| => AtLeast(cuts, k, i + 1) - k);
      forall i {:trigger StandsFor(t[k..], p[1..], rest, i)} | 0 <= i < |p| - 1
        ensures StandsFor(t[k..], p[1..], rest, i)
      {
        assert StandsFor(t, p, cuts, i + 1);
        Ascends(t, p, cuts, i + 1);
        Ascends(t, p, cuts, i + 2);
      }
      Ascends(t, p, cuts, |p|);
      CutMatches(t[k..], p[1..], rest);
    }
  }

  function AtLeast(cuts: seq<nat>, k: nat, i: nat): (r: nat)
    requires i < |cuts|
    ensures r >= k && (cuts[i] >= k ==> r == cuts[i])
  {
    if cuts[i] >= k then cuts[i] else k
  }

  lemma {:induction false} Ascends(t: string, p: string, cuts: seq<nat>, i: nat)
    requires Cut(t, p, cuts) && 1 <= i <= |p|
    ensures cuts[1] <= cuts[i]
  {
    if i > 1 {
      Ascends(t, p, cuts, i - 1);
      assert StandsFor(t, p, cuts, i - 1);
    }
  }

  // ---------------------------------------------------------------- facts about matching

  /** Only stars match the empty text. */
  lemma {:induction false} MatchesEmpty(p: string)
    ensures Matches("", p) <==> AllStars(p)
  {
    if p != "" {
      MatchesEmpty(p[1..]);
      if p[0] == '%' {
        assert ""[0..] == "";
        assert Matches("", p[1..]) ==> Matches(""[0..], p[1..]);
        assert AllStars(p) <==> AllStars(p[1..]) by {
          assert forall i {:trigger p[1..][i]} :: 0 <= i < |p| - 1 ==> p[1..][i] == p[i + 1];
          assert AllStars(p[1..]) ==> forall i :: 0 < i < |p| ==> p[i] == p[1..][i - 1];
        }
      }
    }
  }

  /** A star can take in more text. */
  lemma StarAbsorbs(t: string, k: nat, p: string)
    requires p != "" && p[0] == '%' && k <= |t| && Matches(t[k..], p)
    ensures Matches(t, p)
  {
    var i :| 0 <= i <= |t[k..]| && Matches(t[k..][i..], p[1..]);
    assert t[k..][i..] == t[k + i..];
  }

  /** A part without stars takes as many characters as it has. */
  lemma {:induction false} SegmentTakes(t: string, p: string, n: nat)
    requires n <= |p| && NoStar(p[..n]) && Matches(t, p)
    ensures n <= |t| && Matches(t[n..], p[n..])
    decreases n
  {
    if n == 0 {
      assert t[0..] == t && p[0..] == p;
    } else {
      assert p[0] == p[..n][0];
      assert forall i {:trigger p[1..][..n - 1][i]} :: 0 <= i < n - 1 ==> p[1..][..n - 1][i] == p[..n][i + 1];
      SegmentTakes(t[1..], p[1..], n - 1);
      assert t[1..][n - 1..] == t[n..] && p[1..][n - 1..] == p[n..];
    }
  }

  /** The text from some later position on matches what follows the star. */
  ghost predicate Later(text: string, pat: string, starP: nat, starT: nat) {
    starP < |pat| && exists i {:trigger text[i..]} :: starT < i <= |text| && Matches(text[i..], pat[starP + 1..])
  }

  /** What is left to try: here, or at a later position for the last star. */
  ghost predicate Remaining(text: string, pat: string, t: nat, p: nat, backtrack: Option<(nat, nat)>)
    requires t <= |text| && p <= |pat|
  {
    Matches(text[t..], pat[p..]) || (backtrack.Some? && Later(text, pat, backtrack.value.0, backtrack.value.1))
  }

  /** Since the last star, pattern and text advanced together, past no other star. */
  predicate SinceStar(pat: string, t: nat, p: nat, backtrack: Option<(nat, nat)>)
    requires p <= |pat|
  {
    backtrack.Some? ==>
      var (starP, starT) := backtrack.value;
      starP < p && starT <= t && t - starT == p - starP - 1 && NoStar(pat[starP + 1..p])
  }

  /** At a new star the older one is no longer needed. */
  lemma NewStar(text: string, pat: string, t: nat, p: nat, backtrack: Option<(nat, nat)>)
    requires t < |text| && p < |pat| && pat[p] == '%' && SinceStar(pat, t, p, backtrack)
    ensures Remaining(text, pat, t, p, backtrack) <==> Remaining(text, pat, t, p + 1, Some((p, t)))
  {
    if backtrack.Some? && Later(text, pat, backtrack.value.0, backtrack.value.1) {
      var (starP, starT) := backtrack.value;
      var i :| starT < i <= |text| && Matches(text[i..], pat[starP + 1..]);
      var n := p - starP - 1;
      assert pat[starP + 1..][..n] == pat[starP + 1..p];
      SegmentTakes(text[i..], pat[starP + 1..], n);
      assert text[i..][n..] == text[i + n..] && pat[starP + 1..][n..] == pat[p..];
      assert text[t..][i + n - t..] == text[i + n..];
      StarAbsorbs(text[t..], i + n - t, pat[p..]);
    }
    StarTries(text, pat, t, p);
  }

  /** A star matches here or later. */
  lemma StarTries(text: string, pat: string, t: nat, p: nat)
    requires t <= |text| && p < |pat| && pat[p] == '%'
    ensures Matches(text[t..], pat[p..]) <==> Matches(text[t..], pat[p + 1..]) || Later(text, pat, p, t)
  {
    assert pat[p..][1..] == pat[p + 1..];
    if Matches(text[t..], pat[p..]) {
      var i :| 0 <= i <= |text[t..]| && Matches(text[t..][i..], pat[p..][1..]);
      assert text[t..][i..] == text[t + i..];
      assert i == 0 ==> text[t..][i..] == text[t..];
    }
    if Matches(text[t..], pat[p + 1..]) {
      assert text[t..][0..] == text[t..];
    }
    if Later(text, pat, p, t) {
      var i :| t < i <= |text| && Matches(text[i..], pat[p + 1..]);
      assert text[t..][i - t..] == text[i..];
    }
  }

  /** One character of each. */
  lemma OneCharacter(text: string, pat: string, t: nat, p: nat)
    requires t < |text| && p < |pat| && pat[p] != '%'
    ensures Matches(text[t..], pat[p..])
      <==> (pat[p] == '_' || pat[p] == text[t]) && Matches(text[t + 1..], pat[p + 1..])
  {
    assert text[t..][1..] == text[t + 1..] && pat[p..][1..] == pat[p + 1..];
  }

  /** The next position for the last star. */
  lemma TryLater(text: string, pat: string, starP: nat, starT: nat)
    requires starP < |pat| && starT < |text|
    ensures Later(text, pat, starP, starT)
        <==> Remaining(text, pat, starT + 1, starP + 1, Some((starP, starT + 1)))
  {
    if Later(text, pat, starP, starT) {
      var i :| starT < i <= |text| && Matches(text[i..], pat[starP + 1..]);
      assert i == starT + 1 || starT + 1 < i;
    }
    if Matches(text[starT + 1..], pat[starP + 1..]) {
      assert starT < starT + 1 <= |text|;
    }
  }

  /** At the end of the text no later position is left for the last star. */
  lemma TextDone(text: string, pat: string, p: nat, backtrack: Option<(nat, nat)>)
    requires p <= |pat| && SinceStar(pat, |text|, p, backtrack)
    ensures Remaining(text, pat, |text|, p, backtrack) <==> AllStars(pat[p..])
  {
    assert text[|text|..] == "";
    MatchesEmpty(pat[p..]);
    if backtrack.Some? {
      var (starP, starT) := backtrack.value;
      var n := p - starP - 1;
      forall i {:trigger text[i..]} | starT < i <= |text| ensures !Matches(text[i..], pat[starP + 1..]) {
        if Matches(text[i..], pat[starP + 1..]) {
          assert pat[starP + 1..][..n] == pat[starP + 1..p];
          SegmentTakes(text[i..], pat[starP + 1..], n);
          assert false;
        }
      }
    }
  }

  lemma NoMatchHere(text: string, pat: string, t: nat, p: nat)
    requires t < |text| && p <= |pat| && (p < |pat| ==> pat[p] != '%' && pat[p] != '_' && pat[p] != text[t])
    ensures !Matches(text[t..], pat[p..])
  {
    if p < |pat| { OneCharacter(text, pat, t, p); }
  }

  // ---------------------------------------------------------------- the matcher

  /** Matches with one remembered star; `fold` is applied to both strings when case is ignored. */
  method LikeMatch(value: string, pattern: string, caseInsensitive: bool, fold: string -> string) returns (r: bool)
    ensures r <==> if caseInsensitive then Matches(fold(value), fold(pattern)) else Matches(value, pattern)
  {
    hide Matches, Later;
    var text := if caseInsensitive then fold(value) else value;
    var pat := if caseInsensitive then fold(pattern) else pattern;
    var t, p := 0, 0;
    var backtrack: Option<(nat, nat)> := None;
    assert text[0..] == text && pat[0..] == pat;
    while t < |text|
      invariant 0 <= t <= |text| && 0 <= p <= |pat| && SinceStar(pat, t, p, backtrack)
      invariant Matches(text, pat) <==> Remaining(text, pat, t, p, backtrack)
      decreases if backtrack.Some? then |pat| - backtrack.value.0 else |pat| + 1,
                if backtrack.Some? then |text| - backtrack.value.1 else 0,
                |text| - t
    {
      if p < |pat| && pat[p] == '%' {
        NewStar(text, pat, t, p, backtrack);
        backtrack := Some((p, t));
        p := p + 1;
      } else if p < |pat| && (pat[p] == '_' || pat[p] == text[t]) {
        OneCharacter(text, pat, t, p);
        SegmentGrows(pat, t, p, backtrack);
        t := t + 1;
        p := p + 1;
      } else {
        NoMatchHere(text, pat, t, p);
        match backtrack
        case Some(star) =>
          TryLater(text, pat, star.0, star.1);
          p := star.0 + 1;
          t := star.1 + 1;
          backtrack := Some((star.0, star.1 + 1));
        case None =>
          return false;
      }
    }
    TextDone(text, pat, p, backtrack);
    r := OnlyStars(pat[p..]);
  }

  lemma SegmentGrows(pat: string, t: nat, p: nat, backtrack: Option<(nat, nat)>)
    requires p < |pat| && pat[p] != '%' && SinceStar(pat, t, p, backtrack)
    ensures SinceStar(pat, t + 1, p + 1, backtrack)
  {
    if backtrack.Some? {
      var starP := backtrack.value.0;
      assert pat[starP + 1..p + 1] == pat[starP + 1..p] + [pat[p]];
    }
  }

  method OnlyStars(p: string) returns (r: bool)
    ensures r <==> AllStars(p)
  {
    for i := 0 to |p|
      invariant forall k :: 0 <= k < i ==> p[k] == '%'
    {
      if p[i] != '%' {
        return false;
      }
    }
    return true;
  }
}
