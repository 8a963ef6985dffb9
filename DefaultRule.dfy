/**
 * What the synthesised rule `(P[\d\s]+?S)\b` matches, when the user keeps
 * the detected prefix P and suffix S (both digits).
 *
 * After P the lazy `[\d\s]+?` takes one character of digits or whitespace,
 * then tries S followed by a word boundary, and takes one more character
 * each time that fails. So a match ends at the first S that is followed by
 * a non-word character, which need not be the longest run.
 */
module DefaultRule {
  import opened Wrappers
  import opened Chars
  import Extraction

  /** `[\d\s]`. */
  predicate IsDigitOrSpace(c: char) { IsDigit(c) || IsSpace(c) }

  /** Every character of t[a..b] is a digit or whitespace. */
  predicate FillerIn(t: string, a: nat, b: nat)
    requires a <= b <= |t|
  {
    forall m :: a <= m < b ==> IsDigitOrSpace(t[m])
  }

  /** t holds w at position j. */
  predicate LiteralAt(t: string, j: nat, w: string)
  {
    j + |w| <= |t| && t[j..j + |w|] == w
  }

  // ---------------------------------------------------------------- scanner

  /**
   * The lazy loop: the filler so far is t[i + |p|..j]; try S and `\b` at j,
   * otherwise take one more filler character.
   */
  function LazyFrom(t: string, j: nat, s: string): (r: Option<nat>)
    requires j <= |t|
    ensures r.Some? ==> j + |s| <= r.value <= |t|
    decreases |t| - j
  {
    if LiteralAt(t, j, s) && IsBoundary(t, j + |s|) then Some(j + |s|)
    else if j < |t| && IsDigitOrSpace(t[j]) then LazyFrom(t, j + 1, s)
    else None
  }

  /** `(P[\d\s]+?S)\b` anchored at i: where the match ends, if there is one. */
  function RuleAt(t: string, i: nat, p: string, s: string): (r: Option<nat>)
    requires i <= |t|
    ensures r.Some? ==> i + |p| < r.value <= |t|
  {
    var f := i + |p|;
    if LiteralAt(t, i, p) && f < |t| && IsDigitOrSpace(t[f]) then LazyFrom(t, f + 1, s) else None
  }

  /** The `re.findall` scan from i: the spans of the successive matches. */
  function RuleSpans(t: string, p: string, s: string, i: nat): (ps: seq<(nat, nat)>)
    requires i <= |t|
    ensures forall m :: 0 <= m < |ps| ==> i <= ps[m].0 < ps[m].1 <= |t|
    decreases |t| - i
  {
    if i == |t| then []
    else
      match RuleAt(t, i, p, s)
      case Some(e) => [(i, e)] + RuleSpans(t, p, s, e)
      case None => RuleSpans(t, p, s, i + 1)
  }

  /** `re.findall(rule, t)`: the texts of the successive matches. */
  function RuleMatches(t: string, p: string, s: string): (ms: seq<string>)
    ensures |ms| == |RuleSpans(t, p, s, 0)|
  {
    var ps := RuleSpans(t, p, s, 0);
    seq(|ps|, m requires 0 <= m < |ps| => t[ps[m].0..ps[m].1])
  }

  // ---------------------------------------------------- declarative pattern

  /** t[i..e] is P, then at least one digit or whitespace, then S, with `\b` at e. */
  predicate IsRuleSpan(t: string, i: nat, e: nat, p: string, s: string)
  {
    && i + |p| + |s| < e <= |t|
    && LiteralAt(t, i, p)
    && FillerIn(t, i + |p|, e - |s|)
    && LiteralAt(t, e - |s|, s)
    && IsBoundary(t, e)
  }

  // ------------------------------------------------------------ the proofs

  /** Where the lazy loop stops, a filler is followed by S and `\b`. */
  lemma {:induction false} LazyFromSound(t: string, f: nat, j: nat, s: string)
    requires f < j <= |t| && FillerIn(t, f, j) && LazyFrom(t, j, s).Some?
    ensures var e := LazyFrom(t, j, s).value;
      FillerIn(t, f, e - |s|) && LiteralAt(t, e - |s|, s) && IsBoundary(t, e)
    decreases |t| - j
  {
    if !(LiteralAt(t, j, s) && IsBoundary(t, j + |s|)) {
      LazyFromSound(t, f, j + 1, s);
    }
  }

  /** The lazy loop stops no later than any place where S and `\b` follow a filler. */
  lemma {:induction false} LazyFromFirst(t: string, f: nat, j: nat, s: string, k: nat)
    requires f < j <= k && k + |s| <= |t| && FillerIn(t, f, k) && LiteralAt(t, k, s) && IsBoundary(t, k + |s|)
    ensures LazyFrom(t, j, s).Some? && LazyFrom(t, j, s).value <= k + |s|
    decreases k - j
  {
    if j < k && !(LiteralAt(t, j, s) && IsBoundary(t, j + |s|)) {
      LazyFromFirst(t, f, j + 1, s, k);
    }
  }

  /** What the rule matches at i is a rule span. */
  lemma RuleAtSound(t: string, i: nat, p: string, s: string)
    requires i <= |t| && RuleAt(t, i, p, s).Some?
    ensures IsRuleSpan(t, i, RuleAt(t, i, p, s).value, p, s)
  {
    LazyFromSound(t, i + |p|, i + |p| + 1, s);
  }

  /** Any rule span at i is found, and the match ends no later than it. */
  lemma RuleAtFirst(t: string, i: nat, p: string, s: string, e: nat)
    requires IsRuleSpan(t, i, e, p, s)
    ensures RuleAt(t, i, p, s).Some? && RuleAt(t, i, p, s).value <= e
  {
    var f := i + |p|;
    assert IsDigitOrSpace(t[f]);
    LazyFromFirst(t, f, f + 1, s, e - |s|);
  }

  /**
   * The match at i is the shortest rule span starting at i, and there is
   * none exactly when no rule span starts at i.
   */
  lemma RuleAtSpec(t: string, i: nat, p: string, s: string)
    requires i <= |t|
    ensures RuleAt(t, i, p, s).Some? ==> IsRuleSpan(t, i, RuleAt(t, i, p, s).value, p, s)
    ensures forall e: nat :: IsRuleSpan(t, i, e, p, s) ==> RuleAt(t, i, p, s).Some? && RuleAt(t, i, p, s).value <= e
  {
    if RuleAt(t, i, p, s).Some? {
      RuleAtSound(t, i, p, s);
    }
    forall e: nat | IsRuleSpan(t, i, e, p, s)
      ensures RuleAt(t, i, p, s).Some? && RuleAt(t, i, p, s).value <= e
    {
      RuleAtFirst(t, i, p, s, e);
    }
  }

  /** A span shorter than the match is never a rule span: the match is the shortest. */
  lemma RuleAtShortest(t: string, i: nat, p: string, s: string, e: nat)
    requires i <= |t| && RuleAt(t, i, p, s).Some? && e < RuleAt(t, i, p, s).value
    ensures !IsRuleSpan(t, i, e, p, s)
  {
    RuleAtSpec(t, i, p, s);
  }

  /**
   * The intent stated at lines 65-68: an S followed by another digit does
   * not end the match, because `\b` fails between two digits.
   */
  lemma SuffixInsideRunNotEnd(t: string, i: nat, p: string, s: string, k: nat)
    requires i <= |t| && 0 < |s| && k + |s| < |t| && LiteralAt(t, k, s)
    requires IsDigit(s[|s| - 1]) && IsDigit(t[k + |s|])
    ensures RuleAt(t, i, p, s) != Some(k + |s|)
  {
    RuleAtSpec(t, i, p, s);
    assert t[k + |s| - 1] == s[|s| - 1];
  }

  /**
   * The worked example of lines 65-68 and 189-190: in "03024052626" with
   * prefix "0302" and suffix "26", the first "26" is followed by a digit,
   * so the match runs to the last "26".
   */
  lemma WorkedExampleMatch()
    ensures RuleAt("03024052626", 0, "0302", "26") == Some(11)
  {
    var t := "03024052626";
    RuleAtSpec(t, 0, "0302", "26");
    assert IsRuleSpan(t, 0, 11, "0302", "26") by {
      assert t[0..4] == "0302";
      assert t[9..11] == "26";
      assert FillerIn(t, 4, 9);
    }
    forall k: nat | 6 < k < 11
      ensures !IsRuleSpan(t, 0, k, "0302", "26")
    {
      assert !IsBoundary(t, k);
    }
  }

  /** The rule's outcome at every position of t (nothing past its end). */
  function Outcomes(t: string, p: string, s: string): nat -> Option<nat>
  {
    (x: nat) => if x <= |t| then RuleAt(t, x, p, s) else None
  }

  /** No position from a up to b has a match. */
  predicate NoMatchIn(at: nat -> Option<nat>, a: nat, b: nat)
  {
    a <= b && forall x: nat :: a <= x < b ==> at(x).None?
  }

  /**
   * ps is what repeated leftmost search from i up to n finds: the first
   * span starts at the first position with a match and is that match, the
   * rest is what the search from its end finds, and when nothing is found
   * there is no match left.
   */
  predicate FindsAll(at: nat -> Option<nat>, n: nat, i: nat, ps: seq<(nat, nat)>)
    decreases |ps|
  {
    if ps == [] then NoMatchIn(at, i, n)
    else
      && NoMatchIn(at, i, ps[0].0)
      && at(ps[0].0) == Some(ps[0].1)
      && FindsAll(at, n, ps[0].1, ps[1..])
  }

  /** A match at i, put in front of what the search from its end finds. */
  lemma FindsAllMatch(at: nat -> Option<nat>, n: nat, i: nat, e: nat, rest: seq<(nat, nat)>)
    requires at(i) == Some(e) && FindsAll(at, n, e, rest)
    ensures FindsAll(at, n, i, [(i, e)] + rest)
  {
    assert ([(i, e)] + rest)[1..] == rest;
  }

  /** A position without a match is passed over. */
  lemma FindsAllSkip(at: nat -> Option<nat>, n: nat, i: nat, ps: seq<(nat, nat)>)
    requires at(i).None? && FindsAll(at, n, i + 1, ps)
    ensures FindsAll(at, n, i, ps)
  {
    if ps != [] {
      assert NoMatchIn(at, i + 1, ps[0].0);
    }
  }

  /** Every span a search finds is the match at its start. */
  lemma {:induction false} FindsAllMatches(at: nat -> Option<nat>, n: nat, i: nat, ps: seq<(nat, nat)>)
    requires FindsAll(at, n, i, ps)
    ensures forall m :: 0 <= m < |ps| ==> at(ps[m].0) == Some(ps[m].1)
    decreases |ps|
  {
    if ps != [] {
      FindsAllMatches(at, n, ps[0].1, ps[1..]);
      forall m | 0 < m < |ps|
        ensures at(ps[m].0) == Some(ps[m].1)
      {
        assert ps[m] == ps[1..][m - 1];
      }
    }
  }

  /**
   * The `re.findall` scan lists every leftmost non-overlapping match, in
   * order: each is the match at its start, no match was passed over before
   * it, and none is left after the last.
   */
  lemma {:induction false} RuleSpansSpec(t: string, p: string, s: string, i: nat)
    requires i <= |t|
    ensures FindsAll(Outcomes(t, p, s), |t|, i, RuleSpans(t, p, s, i))
    decreases |t| - i
  {
    var at := Outcomes(t, p, s);
    if i < |t| {
      var d := RuleAt(t, i, p, s);
      assert at(i) == d;
      if d.Some? {
        var rest := RuleSpans(t, p, s, d.value);
        assert RuleSpans(t, p, s, i) == [(i, d.value)] + rest;
        RuleSpansSpec(t, p, s, d.value);
        FindsAllMatch(at, |t|, i, d.value, rest);
      } else {
        var ps := RuleSpans(t, p, s, i + 1);
        assert RuleSpans(t, p, s, i) == ps;
        RuleSpansSpec(t, p, s, i + 1);
        FindsAllSkip(at, |t|, i, ps);
      }
    } else {
      assert RuleSpans(t, p, s, i) == [];
    }
  }

  /** Every element of `re.findall` is the text of a match, at the position the search found. */
  lemma RuleMatchesAreMatches(t: string, p: string, s: string)
    ensures var ps := RuleSpans(t, p, s, 0);
      forall m :: 0 <= m < |ps| ==>
        ps[m].0 <= |t| && RuleAt(t, ps[m].0, p, s) == Some(ps[m].1) && RuleMatches(t, p, s)[m] == t[ps[m].0..ps[m].1]
  {
    var ps := RuleSpans(t, p, s, 0);
    RuleSpansSpec(t, p, s, 0);
    FindsAllMatches(Outcomes(t, p, s), |t|, 0, ps);
    forall m | 0 <= m < |ps|
      ensures RuleAt(t, ps[m].0, p, s) == Some(ps[m].1)
    {
      assert Outcomes(t, p, s)(ps[m].0) == Some(ps[m].1);
    }
  }

  /**
   * The key a default-rule match yields: with a blank-free prefix and
   * suffix, cleaning the match leaves the prefix, the cleaned filler and
   * the suffix, and trimming keeps exactly the cleaned filler when it is a
   * non-empty run of digits. A filler holding whitespace other than ' '
   * and '\n' (a tab, a carriage return) is therefore dropped.
   */
  lemma MatchKey(t: string, i: nat, e: nat, p: string, s: string)
    requires IsRuleSpan(t, i, e, p, s)
    requires forall k :: 0 <= k < |p| ==> !IsBlank(p[k])
    requires forall k :: 0 <= k < |s| ==> !IsBlank(s[k])
    ensures var c := Clean(t[i + |p|..e - |s|]);
      && Clean(t[i..e]) == p + c + s
      && Extraction.TrimKey(Clean(t[i..e]), |p|, |s|) == (if IsDecimal(c) then Some(DecimalValue(c)) else None)
  {
    var mid := t[i + |p|..e - |s|];
    var c := Clean(mid);
    assert t[i..e] == p + mid + s by {
      assert t[i..i + |p|] == p;
      assert t[e - |s|..e] == s;
    }
    CleanConcat(p + mid, s);
    CleanConcat(p, mid);
    CleanKeeps(p);
    CleanKeeps(s);
    var w := p + c + s;
    assert w[|p|..|w| - |s|] == c;
  }

  /** A character of the filler that is neither a digit nor ' ' nor '\n' makes the match yield no key. */
  lemma StrayWhitespaceDropsMatch(t: string, i: nat, e: nat, p: string, s: string, k: nat)
    requires IsRuleSpan(t, i, e, p, s)
    requires forall j :: 0 <= j < |p| ==> !IsBlank(p[j])
    requires forall j :: 0 <= j < |s| ==> !IsBlank(s[j])
    requires i + |p| <= k < e - |s| && !IsDigit(t[k]) && !IsBlank(t[k])
    ensures Extraction.TrimKey(Clean(t[i..e]), |p|, |s|) == None
  {
    MatchKey(t, i, e, p, s);
    var mid := t[i + |p|..e - |s|];
    assert mid[k - i - |p|] == t[k];
    assert multiset(mid)[t[k]] > 0;
    CleanCounts(mid, t[k]);
    assert t[k] in Clean(mid);
  }
}
