/**
 * `detectar_patron_inteligente`: guessing the extraction rule for the keys
 * printed in a PDF. Dates are deleted, the 10 to 14 digit runs are
 * collected, and the most common first four characters and last two
 * characters of those runs become the prefix and suffix of a synthesised
 * regular expression.
 */
module Inference {
  import opened Wrappers
  import opened Chars
  import Dates
  import Candidates
  import opened Mode

  /** What the detection returns: the rule text, the number of candidates, the prefix and the suffix. */
  datatype Detection = Detection(rule: string, count: nat, prefix: string, suffix: string)

  /** The answer when there is nothing to learn from: `("", 0, "", "")`. */
  const NoDetection := Detection("", 0, "", "")

  const PrefixLength := 4
  const SuffixLength := 2

  /** The pieces of the synthesised rule around the prefix and suffix. */
  const Open := "("
  const Middle := "[\\d\\s]+?"
  const Close := ")\\b"

  /** `c[:4]`. */
  function Prefix(c: string): string
  {
    if |c| >= PrefixLength then c[..PrefixLength] else c
  }

  /** `c[-2:]`. */
  function Suffix(c: string): string
  {
    if |c| >= SuffixLength then c[|c| - SuffixLength..] else c
  }

  /** `[c[:4] for c in cs]`: each entry is the first four characters of its candidate, or all of a shorter one. */
  function Prefixes(cs: seq<string>): (ps: seq<string>)
    ensures |ps| == |cs|
    ensures forall m :: 0 <= m < |cs| ==>
      |ps[m]| == (if |cs[m]| < PrefixLength then |cs[m]| else PrefixLength) && ps[m] <= cs[m]
  {
    seq(|cs|, m requires 0 <= m < |cs| => Prefix(cs[m]))
  }

  /** `[c[-2:] for c in cs]`: each entry is the last two characters of its candidate, or all of a shorter one. */
  function Suffixes(cs: seq<string>): (ss: seq<string>)
    ensures |ss| == |cs|
    ensures forall m :: 0 <= m < |cs| ==>
      |ss[m]| == (if |cs[m]| < SuffixLength then |cs[m]| else SuffixLength) && ss[m] == cs[m][|cs[m]| - |ss[m]|..]
  {
    seq(|cs|, m requires 0 <= m < |cs| => Suffix(cs[m]))
  }

  /** `rf"({p}[\d\s]+?{s})\b"`. */
  function RuleText(p: string, s: string): string
  {
    Open + p + Middle + s + Close
  }

  /** The candidates the detection learns from: 10 to 14 digit runs of the text with dates removed. */
  function CandidatesOf(t: string): seq<string>
  {
    Candidates.Candidates(Dates.RemoveDates(t))
  }

  /** `detectar_patron_inteligente(t)`. */
  function DetectPattern(t: string): Detection
  {
    if t == "" then NoDetection
    else
      var cs := CandidatesOf(t);
      if cs == [] then NoDetection
      else
        var p := MostCommon(Prefixes(cs));
        var s := MostCommon(Suffixes(cs));
        Detection(RuleText(p, s), |cs|, p, s)
  }

  // ------------------------------------------------- reading a rule back

  /** The first position at or after i holding c (|r| if none). */
  function Until(r: string, i: nat, c: char): (k: nat)
    requires i <= |r|
    ensures i <= k <= |r|
    ensures forall j :: i <= j < k ==> r[j] != c
    ensures k < |r| ==> r[k] == c
    decreases |r| - i
  {
    if i == |r| || r[i] == c then i else Until(r, i + 1, c)
  }

  /**
   * Recovers the prefix and suffix from a rule of the synthesised shape;
   * the prefix ends at the first '['.
   */
  function ParseRule(r: string): Option<(string, string)>
  {
    if |r| < |Open| + |Middle| + |Close| || r[..1] != Open || r[|r| - |Close|..] != Close then None
    else
      var k := Until(r, 1, '[');
      if k + |Middle| > |r| - |Close| || r[k..k + |Middle|] != Middle then None
      else Some((r[1..k], r[k + |Middle|..|r| - |Close|]))
  }

  // ------------------------------------------------------------ the proofs

  /** A synthesised rule is read back to its prefix and suffix, when the prefix holds no '['. */
  lemma ParseRuleText(p: string, s: string)
    requires '[' !in p
    ensures ParseRule(RuleText(p, s)) == Some((p, s))
  {
    var r := RuleText(p, s);
    var k := 1 + |p|;
    assert r == Open + p + (Middle + s + Close);
    assert r[..1] == Open;
    assert r[1..k] == p;
    assert r[k..k + |Middle|] == Middle;
    assert r[k + |Middle|..|r| - |Close|] == s;
    assert r[|r| - |Close|..] == Close;
    assert Until(r, 1, '[') == k by {
      forall j | 1 <= j < k
        ensures r[j] != '['
      {
        assert r[j] == p[j - 1];
      }
      assert r[k] == '[';
      UntilFirst(r, 1, '[', k);
    }
  }

  /** Until stops at the first c from i. */
  lemma {:induction false} UntilFirst(r: string, i: nat, c: char, k: nat)
    requires i <= k < |r| && r[k] == c
    requires forall j :: i <= j < k ==> r[j] != c
    ensures Until(r, i, c) == k
    decreases k - i
  {
    if i < k {
      UntilFirst(r, i + 1, c, k);
    }
  }

  /** Whatever ParseRule accepts is exactly the synthesised rule of what it returns. */
  lemma ParseRuleSound(r: string)
    requires ParseRule(r).Some?
    ensures var (p, s) := ParseRule(r).value; '[' !in p && r == RuleText(p, s)
  {
    var (p, s) := ParseRule(r).value;
    var k := Until(r, 1, '[');
    assert forall j :: 0 <= j < |p| ==> p[j] == r[1 + j];
    assert r == r[..1] + r[1..k] + r[k..k + |Middle|] + r[k + |Middle|..|r| - |Close|] + r[|r| - |Close|..];
  }

  /** Runs of 10 to 14 digits, as the candidate search returns them. */
  predicate DigitRuns(cs: seq<string>)
  {
    forall m :: 0 <= m < |cs| ==> Candidates.MinRun <= |cs[m]| && AllDigits(cs[m])
  }

  /** The most common prefix of digit runs is the mode of their first four digits, four digits long. */
  lemma CommonPrefixSpec(cs: seq<string>)
    requires cs != [] && DigitRuns(cs)
    ensures var p := MostCommon(Prefixes(cs));
      IsModeOf(Prefixes(cs), p) && |p| == PrefixLength && AllDigits(p)
  {
    var ps := Prefixes(cs);
    MostCommonSpec(ps);
    var i :| 0 <= i < |ps| && ps[i] == MostCommon(ps);
    assert AllDigits(cs[i]);
  }

  /** The most common suffix of digit runs is the mode of their last two digits, two digits long. */
  lemma CommonSuffixSpec(cs: seq<string>)
    requires cs != [] && DigitRuns(cs)
    ensures var s := MostCommon(Suffixes(cs));
      IsModeOf(Suffixes(cs), s) && |s| == SuffixLength && AllDigits(s)
  {
    var ss := Suffixes(cs);
    MostCommonSpec(ss);
    var i :| 0 <= i < |ss| && ss[i] == MostCommon(ss);
    assert AllDigits(cs[i]);
  }

  /**
   * Nothing to learn from: an empty text, or a text without a 10 to 14
   * digit run once dates are deleted, gives `("", 0, "", "")`; any other
   * text gives a positive count.
   */
  lemma DetectPatternEmpty(t: string)
    ensures DetectPattern(t) == NoDetection <==> t == "" || CandidatesOf(t) == []
    ensures DetectPattern(t).count == 0 <==> DetectPattern(t) == NoDetection
  {
  }

  /**
   * When there are candidates: the count is their number, the prefix is the
   * mode of their first four characters and the suffix the mode of their
   * last two (first seen among ties), both made of digits, and the rule is
   * the synthesised text, from which the prefix and suffix read back.
   */
  lemma DetectPatternSpec(t: string)
    requires t != "" && CandidatesOf(t) != []
    ensures var d := DetectPattern(t);
      var cs := CandidatesOf(t);
      && d.count == |cs|
      && IsModeOf(Prefixes(cs), d.prefix)
      && IsModeOf(Suffixes(cs), d.suffix)
      && |d.prefix| == PrefixLength && AllDigits(d.prefix)
      && |d.suffix| == SuffixLength && AllDigits(d.suffix)
      && d.rule == RuleText(d.prefix, d.suffix)
      && ParseRule(d.rule) == Some((d.prefix, d.suffix))
  {
    var cs := CandidatesOf(t);
    var p, s := MostCommon(Prefixes(cs)), MostCommon(Suffixes(cs));
    assert DetectPattern(t) == Detection(RuleText(p, s), |cs|, p, s);
    assert DigitRuns(cs) by {
      Candidates.CandidatesShape(Dates.RemoveDates(t));
    }
    CommonPrefixSpec(cs);
    CommonSuffixSpec(cs);
    ParseRuleText(p, s);
  }
}
