/**
 * The second step of `detectar_patron_inteligente`: `re.findall` of
 * `\b\d{10,14}\b` over the text with dates removed.
 *
 * `CandidateAt` follows the regular expression engine at one position
 * (greedy `\d{10,14}`, then backing off one digit at a time until `\b`
 * holds); `IsCandidateSpan` describes the accepted spans declaratively, and
 * `CandidateSpansSpec` proves that the scan lists exactly those spans.
 */
module Candidates {
  import opened Wrappers
  import opened Chars
  import Dates

  const MinRun := 10
  const MaxRun := 14

  // ---------------------------------------------------------------- scanner

  /** Backing off from k digits down to MinRun until a word boundary follows. */
  function BackOff(s: string, i: nat, k: nat): (r: Option<nat>)
    requires MinRun <= k && i + k <= |s|
    ensures r.Some? ==> i + MinRun <= r.value <= i + k && IsBoundary(s, r.value)
    decreases k
  {
    if IsBoundary(s, i + k) then Some(i + k)
    else if k == MinRun then None
    else BackOff(s, i, k - 1)
  }

  /** `\b\d{10,14}\b` anchored at i: where the match ends, if there is one. */
  function CandidateAt(s: string, i: nat): (r: Option<nat>)
    requires i <= |s|
    ensures r.Some? ==> i + MinRun <= r.value <= |s|
  {
    if !IsBoundary(s, i) then None
    else
      var k := Dates.DigitsFrom(s, i, MaxRun);
      if k < MinRun then None else BackOff(s, i, k)
  }

  /** The `re.findall` scan from i: the spans of the successive matches. */
  function CandidateSpans(s: string, i: nat): (ps: seq<(nat, nat)>)
    requires i <= |s|
    ensures forall m :: 0 <= m < |ps| ==> i <= ps[m].0 < ps[m].1 <= |s|
    decreases |s| - i
  {
    if i == |s| then []
    else
      match CandidateAt(s, i)
      case Some(e) => [(i, e)] + CandidateSpans(s, e)
      case None => CandidateSpans(s, i + 1)
  }

  /** The matched texts of `re.findall(r'\b\d{10,14}\b', s)`, in order. */
  function Candidates(s: string): (cs: seq<string>)
    ensures |cs| == |CandidateSpans(s, 0)|
  {
    var ps := CandidateSpans(s, 0);
    seq(|ps|, m requires 0 <= m < |ps| => s[ps[m].0..ps[m].1])
  }

  // ---------------------------------------------------- declarative pattern

  /** s[a..e] is 10 to 14 digits with a word boundary at both ends. */
  predicate IsCandidateSpan(s: string, a: nat, e: nat)
  {
    && a + MinRun <= e <= a + MaxRun
    && e <= |s|
    && Dates.DigitsIn(s, a, e)
    && IsBoundary(s, a)
    && IsBoundary(s, e)
  }

  // ------------------------------------------------------------ the proofs

  /** Inside a run of digits there is no word boundary. */
  lemma NoBoundaryInsideDigits(s: string, m: nat)
    requires 0 < m < |s| && IsDigit(s[m - 1]) && IsDigit(s[m])
    ensures !IsBoundary(s, m)
  {
  }

  /** Backing off stops at the first boundary from the top, which must be the end of the digit run. */
  lemma {:induction false} BackOffSpec(s: string, i: nat, k: nat)
    requires MinRun <= k && i + k <= |s|
    requires forall m :: i <= m < i + k ==> IsDigit(s[m])
    ensures BackOff(s, i, k).Some? ==> BackOff(s, i, k) == Some(i + k)
    decreases k
  {
    if !IsBoundary(s, i + k) && k > MinRun {
      BackOffSpec(s, i, k - 1);
      NoBoundaryInsideDigits(s, i + k - 1);
    }
  }

  /** The scanner's match at i is a candidate span, and it is the only one starting at i. */
  lemma CandidateAtSpec(s: string, i: nat)
    requires i <= |s|
    ensures CandidateAt(s, i).Some? ==> IsCandidateSpan(s, i, CandidateAt(s, i).value)
    ensures forall e: nat :: IsCandidateSpan(s, i, e) ==> CandidateAt(s, i) == Some(e)
  {
    if IsBoundary(s, i) {
      var k := Dates.DigitsFrom(s, i, MaxRun);
      if MinRun <= k {
        BackOffSpec(s, i, k);
      }
    }
    forall e: nat | IsCandidateSpan(s, i, e)
      ensures CandidateAt(s, i) == Some(e)
    {
      CandidateAtFinds(s, i, e);
    }
  }

  /** A candidate span at i is what the scanner returns there. */
  lemma CandidateAtFinds(s: string, i: nat, e: nat)
    requires IsCandidateSpan(s, i, e)
    ensures CandidateAt(s, i) == Some(e)
  {
    if e < |s| {
      DigitRunEnd(s, e);
    }
    Dates.DigitsFromExact(s, i, e - i, MaxRun);
    assert BackOff(s, i, e - i) == Some(e);
  }

  /** A word boundary right after a digit is followed by a non-digit (or the end). */
  lemma DigitRunEnd(s: string, e: nat)
    requires 0 < e < |s| && IsDigit(s[e - 1]) && IsBoundary(s, e)
    ensures !IsDigit(s[e])
  {
  }

  /** Two candidate spans that overlap are the same span. */
  lemma CandidatesDisjoint(s: string, a: nat, e: nat, a': nat, e': nat)
    requires IsCandidateSpan(s, a, e) && IsCandidateSpan(s, a', e')
    requires a <= a' < e
    ensures a == a' && e == e'
  {
    if a < a' {
      NoBoundaryInsideDigits(s, a');
    }
    CandidateAtFinds(s, a, e);
    CandidateAtFinds(s, a', e');
  }

  /** The `re.findall` scan from i lists exactly the candidate spans that start at or after i. */
  lemma {:induction false} CandidateSpansSpec(s: string, i: nat)
    requires i <= |s|
    ensures forall a: nat, e: nat :: (a, e) in CandidateSpans(s, i) <==> i <= a && IsCandidateSpan(s, a, e)
    decreases |s| - i
  {
    if i < |s| {
      CandidateAtSpec(s, i);
      match CandidateAt(s, i)
      case Some(e) =>
        CandidateSpansSpec(s, e);
        forall a': nat, e': nat | i < a' < e && IsCandidateSpan(s, a', e')
          ensures false
        {
          CandidatesDisjoint(s, i, e, a', e');
        }
      case None =>
        CandidateSpansSpec(s, i + 1);
    } else {
      forall a: nat, e: nat | i <= a && IsCandidateSpan(s, a, e)
        ensures false
      {
      }
    }
  }

  /** Spans in text order that do not overlap. */
  predicate InOrder(ps: seq<(nat, nat)>)
  {
    forall m, n :: 0 <= m < n < |ps| ==> ps[m].1 <= ps[n].0
  }

  /** A span put in front of spans that start after it keeps the order. */
  lemma ConsInOrder(a: nat, e: nat, rest: seq<(nat, nat)>)
    requires InOrder(rest)
    requires forall n :: 0 <= n < |rest| ==> e <= rest[n].0
    ensures InOrder([(a, e)] + rest)
  {
    var ps := [(a, e)] + rest;
    forall m, n | 0 <= m < n < |ps|
      ensures ps[m].1 <= ps[n].0
    {
      assert ps[n] == rest[n - 1];
      if 0 < m {
        assert ps[m] == rest[m - 1];
      }
    }
  }

  /** The spans come in text order and do not overlap. */
  lemma {:induction false} CandidateSpansOrdered(s: string, i: nat)
    requires i <= |s|
    ensures InOrder(CandidateSpans(s, i))
    decreases |s| - i
  {
    if i < |s| {
      var c := CandidateAt(s, i);
      if c.Some? {
        var e := c.value;
        assert CandidateSpans(s, i) == [(i, e)] + CandidateSpans(s, e);
        CandidateSpansOrdered(s, e);
        ConsInOrder(i, e, CandidateSpans(s, e));
      } else {
        assert CandidateSpans(s, i) == CandidateSpans(s, i + 1);
        CandidateSpansOrdered(s, i + 1);
      }
    } else {
      assert CandidateSpans(s, i) == [];
    }
  }

  /** Every candidate is a run of 10 to 14 digits. */
  lemma CandidatesShape(s: string)
    ensures forall m :: 0 <= m < |Candidates(s)| ==>
      MinRun <= |Candidates(s)[m]| <= MaxRun && AllDigits(Candidates(s)[m])
  {
    var ps := CandidateSpans(s, 0);
    CandidateSpansSpec(s, 0);
    forall m | 0 <= m < |ps|
      ensures MinRun <= |Candidates(s)[m]| <= MaxRun && AllDigits(Candidates(s)[m])
    {
      assert ps[m] in ps;
      assert IsCandidateSpan(s, ps[m].0, ps[m].1);
    }
  }
}
