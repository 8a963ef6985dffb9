/**
 * The container identifier search of `extraer_info_pdf`: the first match of
 * `[A-Z]{4}(?:\s*\d){6,7}(?:\s*-\s*\d)?` in the extracted text, with spaces
 * and newlines then deleted from it.
 *
 * The scanner below follows the regular expression engine step by step
 * (leftmost start, greedy repetitions); `IsContainerText` is an independent,
 * declarative description of the strings the pattern accepts, and
 * `ContainerSpanSpec` proves that the scanner returns the leftmost start
 * and, there, the longest accepted span.
 */
module Container {
  import opened Wrappers
  import opened Chars

  const Letters := 4
  const MinDigits := 6
  const MaxDigits := 7

  // ---------------------------------------------------------------- scanner

  /** `\s*` at j: the index of the first non-whitespace character at or after j. */
  function SkipSpace(t: string, j: nat): (k: nat)
    requires j <= |t|
    ensures j <= k <= |t|
    ensures k < |t| ==> !IsSpace(t[k])
    decreases |t| - j
  {
    if j < |t| && IsSpace(t[j]) then SkipSpace(t, j + 1) else j
  }

  /** One repetition of `\s*\d` at j: where it ends, if it matches. */
  function DigitStep(t: string, j: nat): (r: Option<nat>)
    requires j <= |t|
    ensures r.Some? ==> j < r.value <= |t|
  {
    var k := SkipSpace(t, j);
    if k < |t| && IsDigit(t[k]) then Some(k + 1) else None
  }

  /** At most n greedy repetitions of `\s*\d` at j: how many matched, and where they end. */
  function DigitReps(t: string, j: nat, n: nat): (r: (nat, nat))
    requires j <= |t|
    ensures r.0 <= n && j <= r.1 <= |t|
    decreases n
  {
    if n == 0 then (0, j)
    else
      match DigitStep(t, j)
      case None => (0, j)
      case Some(e) =>
        var rest := DigitReps(t, e, n - 1);
        (rest.0 + 1, rest.1)
  }

  /** The optional group `\s*-\s*\d` at j: where it ends, if it matches. */
  function DashStep(t: string, j: nat): (r: Option<nat>)
    requires j <= |t|
    ensures r.Some? ==> j < r.value <= |t|
  {
    var k := SkipSpace(t, j);
    if k < |t| && t[k] == '-' then
      var m := SkipSpace(t, k + 1);
      if m < |t| && IsDigit(t[m]) then Some(m + 1) else None
    else None
  }

  /** `[A-Z]{4}` at i. */
  predicate UppersAt(t: string, i: nat)
    requires i + Letters <= |t|
  {
    IsUpper(t[i]) && IsUpper(t[i + 1]) && IsUpper(t[i + 2]) && IsUpper(t[i + 3])
  }

  /** `(?:\s*\d){6,7}(?:\s*-\s*\d)?` at j: where it ends, if it matches. */
  function SerialEnd(t: string, j: nat): (r: Option<nat>)
    requires j <= |t|
    ensures r.Some? ==> j < r.value <= |t|
  {
    var reps := DigitReps(t, j, MaxDigits);
    if reps.0 >= MinDigits then
      match DashStep(t, reps.1)
      case Some(e) => Some(e)
      case None => Some(reps.1)
    else None
  }

  /** The whole pattern anchored at i: where the match ends, if there is one. */
  function MatchAt(t: string, i: nat): (r: Option<nat>)
    requires i <= |t|
    ensures r.Some? ==> i + Letters < r.value <= |t|
  {
    if i + Letters <= |t| && UppersAt(t, i) then SerialEnd(t, i + Letters) else None
  }

  /** The outcome of the pattern at every start position of t. */
  function MatchTable(t: string): (ms: seq<Option<nat>>)
    ensures |ms| == |t| + 1
  {
    seq(|t| + 1, a requires 0 <= a <= |t| => MatchAt(t, a))
  }

  /** The first position at or after i whose entry is a match, with that match's end. */
  function FirstMatch(ms: seq<Option<nat>>, i: nat): (r: Option<(nat, nat)>)
    requires i <= |ms|
    ensures r.Some? ==> i <= r.value.0 < |ms| && ms[r.value.0] == Some(r.value.1)
    ensures r.Some? ==> forall a :: i <= a < r.value.0 ==> ms[a].None?
    ensures r.None? ==> forall a :: i <= a < |ms| ==> ms[a].None?
    decreases |ms| - i
  {
    if i == |ms| then None
    else
      match ms[i]
      case Some(e) => Some((i, e))
      case None => FirstMatch(ms, i + 1)
  }

  /** `re.search`: the first start at which the pattern matches, with the end of that match. */
  function Search(t: string): Option<(nat, nat)>
  {
    FirstMatch(MatchTable(t), 0)
  }

  /**
   * The container identifier found in the text: the matched span with
   * `" "` and `"\n"` deleted, or "" when nothing matches.
   */
  function ContainerId(t: string): string
  {
    match Search(t)
    case None => ""
    case Some((a, e)) => if a <= e <= |t| then Clean(t[a..e]) else ""
  }

  // ---------------------------------------------------- declarative pattern

  /** The non-whitespace characters of t[j..e], in order. */
  function Squeezed(t: string, j: nat, e: nat): string
    requires j <= e <= |t|
    decreases e - j
  {
    if j == e then []
    else if IsSpace(t[j]) then Squeezed(t, j + 1, e)
    else [t[j]] + Squeezed(t, j + 1, e)
  }

  /** The digits part once whitespace is removed: `\d{6,7}(-\d)?`. */
  predicate IsSerial(s: string)
  {
    || (MinDigits <= |s| <= MaxDigits && AllDigits(s))
    || (MinDigits + 2 <= |s| <= MaxDigits + 2 && AllDigits(s[..|s| - 2])
        && s[|s| - 2] == '-' && IsDigit(s[|s| - 1]))
  }

  /**
   * The strings the container pattern accepts: four capital letters, then a
   * part that does not end in whitespace and that, with its whitespace
   * removed, is 6 or 7 digits optionally followed by a dash and one digit.
   */
  predicate IsContainerText(w: string)
  {
    && |w| > Letters
    && (forall m :: 0 <= m < Letters ==> IsUpper(w[m]))
    && !IsSpace(w[|w| - 1])
    && IsSerial(Squeezed(w, Letters, |w|))
  }

  /** t[j..e] as the digits part of the pattern, stated on positions of t. */
  predicate IsSerialSpan(t: string, j: nat, e: nat)
    requires j <= e <= |t|
  {
    j < e && !IsSpace(t[e - 1]) && IsSerial(Squeezed(t, j, e))
  }

  /** t[a..e] as a whole container identifier, stated on positions of t. */
  predicate IsContainerSpan(t: string, a: nat, e: nat)
    requires a <= e <= |t|
  {
    a + Letters <= e && UppersAt(t, a) && IsSerialSpan(t, a + Letters, e)
  }

  // ------------------------------------------------------------ the proofs

  lemma {:induction false} SqueezedSplit(t: string, j: nat, k: nat, e: nat)
    requires j <= k <= e <= |t|
    ensures Squeezed(t, j, e) == Squeezed(t, j, k) + Squeezed(t, k, e)
    decreases k - j
  {
    if j < k {
      SqueezedSplit(t, j + 1, k, e);
    }
  }

  lemma {:induction false} SqueezedShift(t: string, a: nat, b: nat, x: nat, y: nat)
    requires a <= b <= |t| && x <= y <= b - a
    ensures Squeezed(t[a..b], x, y) == Squeezed(t, a + x, a + y)
    decreases y - x
  {
    if x < y {
      SqueezedShift(t, a, b, x + 1, y);
      assert t[a..b][x] == t[a + x];
    }
  }

  /** Skipped whitespace contributes nothing to the squeezed text. */
  lemma {:induction false} SqueezedAfterSkip(t: string, j: nat, e: nat)
    requires j <= |t| && SkipSpace(t, j) <= e <= |t|
    ensures Squeezed(t, j, e) == Squeezed(t, SkipSpace(t, j), e)
    decreases |t| - j
  {
    if j < |t| && IsSpace(t[j]) {
      SqueezedAfterSkip(t, j + 1, e);
    }
  }

  /** A span ending in a non-whitespace character squeezes to something non-empty. */
  lemma SqueezedLastKept(t: string, j: nat, e: nat)
    requires j < e <= |t| && !IsSpace(t[e - 1])
    ensures |Squeezed(t, j, e)| > 0
  {
    SqueezedSplit(t, j, e - 1, e);
  }

  /** After skipping whitespace, the squeezed text starts with the character found there. */
  lemma SqueezedAtSkip(t: string, j: nat, e: nat)
    requires j <= |t| && SkipSpace(t, j) < e <= |t|
    ensures var k := SkipSpace(t, j);
      Squeezed(t, j, e) == [t[k]] + Squeezed(t, k + 1, e)
  {
    SqueezedAfterSkip(t, j, e);
  }

  /** When only whitespace is left, the squeezed text is empty. */
  lemma SqueezedAllSkipped(t: string, j: nat)
    requires j <= |t| && SkipSpace(t, j) == |t|
    ensures Squeezed(t, j, |t|) == []
  {
    SqueezedAfterSkip(t, j, |t|);
  }

  /** What one `\s*\d` step sees: the next non-whitespace character. */
  lemma DigitStepSpec(t: string, j: nat)
    requires j <= |t|
    ensures var ns := Squeezed(t, j, |t|);
      DigitStep(t, j).Some? <==> (|ns| > 0 && IsDigit(ns[0]))
    ensures DigitStep(t, j).Some? ==>
      var e := DigitStep(t, j).value;
      var ns := Squeezed(t, j, |t|);
      && !IsSpace(t[e - 1])
      && Squeezed(t, j, e) == [ns[0]]
      && Squeezed(t, e, |t|) == ns[1..]
  {
    var k := SkipSpace(t, j);
    if k < |t| {
      SqueezedAtSkip(t, j, |t|);
      SqueezedAtSkip(t, j, k + 1);
    } else {
      SqueezedAllSkipped(t, j);
    }
  }

  /** The greedy `(?:\s*\d){..n}` covers one non-whitespace character per repetition and ends on one. */
  lemma {:induction false} DigitRepsSpan(t: string, j: nat, n: nat)
    requires j <= |t|
    ensures var r := DigitReps(t, j, n);
      && |Squeezed(t, j, r.1)| == r.0
      && (r.0 > 0 ==> !IsSpace(t[r.1 - 1]))
    decreases n
  {
    DigitStepSpec(t, j);
    if n > 0 && DigitStep(t, j).Some? {
      var e1 := DigitStep(t, j).value;
      DigitRepsSpan(t, e1, n - 1);
      SqueezedSplit(t, j, e1, DigitReps(t, j, n).1);
    }
  }

  /** The repetitions taken are the leading digits of the squeezed text, as many as there are up to n. */
  lemma {:induction false} DigitRepsLead(t: string, j: nat, n: nat)
    requires j <= |t|
    ensures var r := DigitReps(t, j, n);
      var ns := Squeezed(t, j, |t|);
      && r.0 <= |ns|
      && (forall m :: 0 <= m < r.0 ==> IsDigit(ns[m]))
      && (r.0 < n ==> r.0 == |ns| || !IsDigit(ns[r.0]))
    decreases n
  {
    DigitStepSpec(t, j);
    if n > 0 && DigitStep(t, j).Some? {
      var e1 := DigitStep(t, j).value;
      DigitRepsLead(t, e1, n - 1);
    }
  }

  /** The optional `\s*-\s*\d` matches exactly when the next two non-whitespace characters are a dash and a digit. */
  lemma DashStepMatches(t: string, j: nat)
    requires j <= |t|
    ensures var ns := Squeezed(t, j, |t|);
      DashStep(t, j).Some? <==> (|ns| >= 2 && ns[0] == '-' && IsDigit(ns[1]))
  {
    var k := SkipSpace(t, j);
    if k < |t| {
      SqueezedAtSkip(t, j, |t|);
      var m := SkipSpace(t, k + 1);
      if m < |t| {
        SqueezedAtSkip(t, k + 1, |t|);
      } else {
        SqueezedAllSkipped(t, k + 1);
      }
    } else {
      SqueezedAllSkipped(t, j);
    }
  }

  /** What the optional `\s*-\s*\d` consumes ends in its digit and squeezes to two characters. */
  lemma DashStepConsumes(t: string, j: nat)
    requires j <= |t| && DashStep(t, j).Some?
    ensures var e := DashStep(t, j).value;
      && !IsSpace(t[e - 1])
      && |Squeezed(t, j, e)| == 2
  {
    var k := SkipSpace(t, j);
    var m := SkipSpace(t, k + 1);
    SqueezedAtSkip(t, j, m + 1);
    SqueezedAtSkip(t, k + 1, m + 1);
  }

  /** What the optional `\s*-\s*\d` consumes: a dash and a digit, as the next two non-whitespace characters. */
  lemma DashStepSpec(t: string, j: nat)
    requires j <= |t|
    ensures var ns := Squeezed(t, j, |t|);
      DashStep(t, j).Some? <==> (|ns| >= 2 && ns[0] == '-' && IsDigit(ns[1]))
    ensures DashStep(t, j).Some? ==>
      var e := DashStep(t, j).value;
      && !IsSpace(t[e - 1])
      && |Squeezed(t, j, e)| == 2
  {
    DashStepMatches(t, j);
    if DashStep(t, j).Some? {
      DashStepConsumes(t, j);
    }
  }

  /** The squeezed text of t[j..e] is a prefix of the squeezed rest of t. */
  lemma SqueezedPrefix(t: string, j: nat, e: nat)
    requires j <= e <= |t|
    ensures var p := Squeezed(t, j, e);
      |p| <= |Squeezed(t, j, |t|)| && p == Squeezed(t, j, |t|)[..|p|]
  {
    SqueezedSplit(t, j, e, |t|);
  }

  /** Reaching past a non-whitespace character squeezes to strictly more. */
  lemma SqueezedLonger(t: string, j: nat, e1: nat, e2: nat)
    requires j <= e1 < e2 <= |t| && !IsSpace(t[e2 - 1])
    ensures |Squeezed(t, j, e1)| < |Squeezed(t, j, e2)|
  {
    SqueezedSplit(t, j, e1, e2);
    SqueezedLastKept(t, e1, e2);
  }

  /** c is the number of leading digits of ns, counted up to MaxDigits. */
  predicate LeadDigits(ns: string, c: nat)
  {
    && c <= MaxDigits && c <= |ns|
    && (forall m :: 0 <= m < c ==> IsDigit(ns[m]))
    && (c < MaxDigits ==> c == |ns| || !IsDigit(ns[c]))
  }

  /** dash tells whether a dash and a digit come right after the first c characters of ns. */
  predicate DashNext(ns: string, c: nat, dash: bool)
  {
    dash <==> (c + 2 <= |ns| && ns[c] == '-' && IsDigit(ns[c + 1]))
  }

  /** How many non-whitespace characters the digits part covers. */
  function ScanLength(c: nat, dash: bool): nat
  {
    if dash then c + 2 else c
  }

  /** Taking the greedy digits and then the dash group when it is there gives an accepted serial. */
  lemma ScanIsSerial(ns: string, c: nat, dash: bool)
    requires LeadDigits(ns, c) && MinDigits <= c && DashNext(ns, c, dash)
    ensures ScanLength(c, dash) <= |ns| && IsSerial(ns[..ScanLength(c, dash)])
  {
    if dash {
      var s := ns[..c + 2];
      assert s[..|s| - 2] == ns[..c];
    }
  }

  /** No accepted serial at the front of ns is longer than the greedy scan, which needs six digits. */
  lemma ScanIsLongest(ns: string, c: nat, dash: bool, p: string)
    requires LeadDigits(ns, c) && DashNext(ns, c, dash)
    requires |p| <= |ns| && p == ns[..|p|] && IsSerial(p)
    ensures MinDigits <= c && |p| <= ScanLength(c, dash)
  {
    var q := if |p| <= MaxDigits then |p| else |p| - 2;
    forall m | 0 <= m < q
      ensures IsDigit(ns[m])
    {
      assert p[m] == ns[m];
    }
    if |p| > MaxDigits {
      assert p[q] == ns[q] && p[q + 1] == ns[q + 1];
    }
  }

  /** What the scanner's two stages see in the squeezed text. */
  lemma SerialEndScan(t: string, j: nat)
    requires j <= |t|
    ensures var reps := DigitReps(t, j, MaxDigits);
      var ns := Squeezed(t, j, |t|);
      LeadDigits(ns, reps.0) && DashNext(ns, reps.0, DashStep(t, reps.1).Some?)
  {
    var reps := DigitReps(t, j, MaxDigits);
    DigitRepsLead(t, j, MaxDigits);
    DigitRepsSpan(t, j, MaxDigits);
    DashStepSpec(t, reps.1);
    SqueezedSplit(t, j, reps.1, |t|);
  }

  /** Where the digits part ends: after a non-whitespace character, covering ScanLength characters of the squeezed text. */
  lemma SerialEndShape(t: string, j: nat)
    requires j <= |t| && SerialEnd(t, j).Some?
    ensures var reps := DigitReps(t, j, MaxDigits);
      var end := SerialEnd(t, j).value;
      && MinDigits <= reps.0
      && !IsSpace(t[end - 1])
      && |Squeezed(t, j, end)| == ScanLength(reps.0, DashStep(t, reps.1).Some?)
  {
    var reps := DigitReps(t, j, MaxDigits);
    var e := reps.1;
    DigitRepsSpan(t, j, MaxDigits);
    if DashStep(t, e).Some? {
      var end := DashStep(t, e).value;
      assert SerialEnd(t, j).value == end;
      assert !IsSpace(t[end - 1]) && |Squeezed(t, j, end)| == reps.0 + 2 by {
        DashStepSpec(t, e);
        SqueezedSplit(t, j, e, end);
      }
    } else {
      assert SerialEnd(t, j).value == e;
    }
  }

  /** The digits part the scanner finds is accepted by the pattern. */
  lemma SerialEndSound(t: string, j: nat)
    requires j <= |t| && SerialEnd(t, j).Some?
    ensures IsSerialSpan(t, j, SerialEnd(t, j).value)
  {
    var reps := DigitReps(t, j, MaxDigits);
    SerialEndScan(t, j);
    SerialEndShape(t, j);
    SqueezedPrefix(t, j, SerialEnd(t, j).value);
    ScanIsSerial(Squeezed(t, j, |t|), reps.0, DashStep(t, reps.1).Some?);
  }

  /** An accepted digits part at j exists only if the scanner finds one, and it ends no later. */
  lemma SerialEndLongest(t: string, j: nat, e: nat)
    requires j <= e <= |t| && IsSerialSpan(t, j, e)
    ensures SerialEnd(t, j).Some? && e <= SerialEnd(t, j).value
  {
    var reps := DigitReps(t, j, MaxDigits);
    var ns := Squeezed(t, j, |t|);
    var dash := DashStep(t, reps.1).Some?;
    SerialEndScan(t, j);
    SqueezedPrefix(t, j, e);
    ScanIsLongest(ns, reps.0, dash, Squeezed(t, j, e));
    SerialEndShape(t, j);
    var end := SerialEnd(t, j).value;
    if end < e {
      SqueezedLonger(t, j, end, e);
    }
  }

  /** The scanner's match at i is accepted by the pattern. */
  lemma MatchAtSound(t: string, i: nat)
    requires i <= |t| && MatchAt(t, i).Some?
    ensures IsContainerSpan(t, i, MatchAt(t, i).value)
  {
    assert MatchAt(t, i) == SerialEnd(t, i + Letters);
    SerialEndSound(t, i + Letters);
  }

  /** Every span the pattern accepts at i is found, and the match ends no earlier. */
  lemma MatchAtLongest(t: string, i: nat, e: nat)
    requires i <= e <= |t| && IsContainerSpan(t, i, e)
    ensures MatchAt(t, i).Some? && e <= MatchAt(t, i).value
  {
    SerialEndLongest(t, i + Letters, e);
    assert MatchAt(t, i) == SerialEnd(t, i + Letters);
  }

  /** The scanner's match at i is accepted by the pattern, and every accepted span at i ends no later. */
  lemma MatchAtSpec(t: string, i: nat)
    requires i <= |t|
    ensures MatchAt(t, i).Some? ==> IsContainerSpan(t, i, MatchAt(t, i).value)
    ensures forall e :: i <= e <= |t| && IsContainerSpan(t, i, e) ==>
      MatchAt(t, i).Some? && e <= MatchAt(t, i).value
  {
    if MatchAt(t, i).Some? {
      MatchAtSound(t, i);
    }
    forall e | i <= e <= |t| && IsContainerSpan(t, i, e)
      ensures MatchAt(t, i).Some? && e <= MatchAt(t, i).value
    {
      MatchAtLongest(t, i, e);
    }
  }

  /** The declarative description on a slice agrees with the one on positions. */
  lemma ContainerTextSpan(t: string, a: nat, e: nat)
    requires a <= e <= |t|
    ensures IsContainerText(t[a..e]) <==> IsContainerSpan(t, a, e)
  {
    var w := t[a..e];
    if |w| > Letters {
      assert Squeezed(w, Letters, |w|) == Squeezed(t, a + Letters, e) by {
        SqueezedShift(t, a, e, Letters, e - a);
      }
      assert w[|w| - 1] == t[e - 1];
      assert (forall m :: 0 <= m < Letters ==> IsUpper(w[m])) <==> UppersAt(t, a) by {
        assert w[0] == t[a] && w[1] == t[a + 1] && w[2] == t[a + 2] && w[3] == t[a + 3];
      }
    }
  }

  /**
   * The container search returns the leftmost start of any span the pattern
   * accepts and, at that start, the longest accepted span; it returns nothing
   * exactly when no span of the text is accepted.
   */
  lemma ContainerSpanSpec(t: string)
    ensures Search(t).None? ==>
      forall a, e :: 0 <= a <= e <= |t| ==> !IsContainerText(t[a..e])
    ensures Search(t).Some? ==>
      var (a, e) := Search(t).value;
      && a <= e <= |t|
      && IsContainerText(t[a..e])
      && (forall e' :: e < e' <= |t| ==> !IsContainerText(t[a..e']))
      && (forall a', e' :: 0 <= a' < a && a' <= e' <= |t| ==> !IsContainerText(t[a'..e']))
  {
    var ms := MatchTable(t);
    forall a, e | 0 <= a <= e <= |t| && IsContainerText(t[a..e])
      ensures ms[a].Some? && e <= ms[a].value
    {
      ContainerTextSpan(t, a, e);
      MatchAtSpec(t, a);
    }
    if Search(t).Some? {
      var (a, e) := Search(t).value;
      MatchAtSpec(t, a);
      ContainerTextSpan(t, a, e);
    }
  }

  /** Deleting spaces and newlines first does not change the squeezed text. */
  lemma {:induction false} DropBlankSqueezed(s: string)
    ensures var c := DropWhere(s, IsBlank);
      Squeezed(c, 0, |c|) == Squeezed(s, 0, |s|)
  {
    if |s| > 0 {
      var c := DropWhere(s, IsBlank);
      var rest := DropWhere(s[1..], IsBlank);
      DropBlankSqueezed(s[1..]);
      SqueezedShift(s, 1, |s|, 0, |s| - 1);
      assert s[1..|s|] == s[1..];
      if IsBlank(s[0]) {
        assert c == rest;
        assert IsSpace(s[0]);
      } else {
        assert c == [s[0]] + rest;
        SqueezedShift(c, 1, |c|, 0, |c| - 1);
        assert c[1..|c|] == rest;
      }
    }
  }

  /**
   * Cleaning an accepted span keeps its four capital letters in front and
   * its squeezed digits part unchanged.
   */
  lemma CleanContainerText(w: string)
    requires IsContainerText(w)
    ensures var r := Clean(w);
      && |r| > Letters
      && r[..Letters] == w[..Letters]
      && Squeezed(r, Letters, |r|) == Squeezed(w, Letters, |w|)
  {
    var head, tail := w[..Letters], w[Letters..];
    var r, c := Clean(w), Clean(tail);
    CleanHead(w);
    SqueezedFrom(w, Letters);
    SqueezedFrom(r, Letters);
    assert r[Letters..] == c;
    DropBlankSqueezed(tail);
    SqueezedNoLonger(c, 0, |c|);
  }

  /** Cleaning leaves four capital letters in front untouched. */
  lemma CleanHead(w: string)
    requires |w| >= Letters && forall m :: 0 <= m < Letters ==> IsUpper(w[m])
    ensures Clean(w) == w[..Letters] + Clean(w[Letters..])
  {
    assert w == w[..Letters] + w[Letters..];
    CleanConcat(w[..Letters], w[Letters..]);
    CleanKeeps(w[..Letters]);
  }

  /** Squeezing from n on is squeezing the suffix from n. */
  lemma SqueezedFrom(w: string, n: nat)
    requires n <= |w|
    ensures Squeezed(w, n, |w|) == Squeezed(w[n..], 0, |w| - n)
  {
    SqueezedShift(w, n, |w|, 0, |w| - n);
    assert w[n..|w|] == w[n..];
  }

  /** Squeezing never lengthens. */
  lemma {:induction false} SqueezedNoLonger(t: string, j: nat, e: nat)
    requires j <= e <= |t|
    ensures |Squeezed(t, j, e)| <= e - j
    decreases e - j
  {
    if j < e {
      SqueezedNoLonger(t, j + 1, e);
    }
  }

  /**
   * The identifier is "" exactly when no span is accepted; otherwise it is
   * the accepted span with spaces and newlines deleted: it keeps the four
   * capital letters, contains no space or newline, and once all whitespace
   * is removed it reads `[A-Z]{4}\d{6,7}(-\d)?`.
   */
  lemma ContainerIdSpec(t: string)
    ensures ContainerId(t) == "" <==>
      forall a, e :: 0 <= a <= e <= |t| ==> !IsContainerText(t[a..e])
    ensures var r := ContainerId(t);
      r != "" ==>
        && |r| > Letters
        && (forall m :: 0 <= m < Letters ==> IsUpper(r[m]))
        && (forall m :: 0 <= m < |r| ==> r[m] != ' ' && r[m] != '\n')
        && IsSerial(Squeezed(r, Letters, |r|))
  {
    ContainerSpanSpec(t);
    if Search(t).Some? {
      var (a, e) := Search(t).value;
      var w := t[a..e];
      CleanContainerText(w);
      var r := Clean(w);
      assert forall m :: 0 <= m < Letters ==> r[m] == r[..Letters][m];
    }
  }

  /** A span without whitespace squeezes to itself. */
  lemma {:induction false} SqueezedKeeps(t: string, j: nat, e: nat)
    requires j <= e <= |t|
    requires forall m :: j <= m < e ==> !IsSpace(t[m])
    ensures Squeezed(t, j, e) == t[j..e]
    decreases e - j
  {
    if j < e {
      SqueezedKeeps(t, j + 1, e);
      assert t[j..e] == [t[j]] + t[j + 1..e];
    }
  }

  /** Four capital letters, one space and six or seven digits form an accepted span. */
  lemma EmbeddedSpaceAccepted(p: string, d: string)
    requires |p| == Letters && forall m :: 0 <= m < |p| ==> IsUpper(p[m])
    requires MinDigits <= |d| <= MaxDigits && AllDigits(d)
    ensures IsContainerText(p + " " + d)
  {
    var t := p + " " + d;
    var n := |t|;
    assert t[Letters] == ' ';
    SqueezedKeeps(t, Letters + 1, n);
    assert t[Letters + 1..n] == d;
    assert Squeezed(t, Letters, n) == d;
    assert UppersAt(t, 0);
    assert IsContainerSpan(t, 0, n);
    ContainerTextSpan(t, 0, n);
    assert t[0..n] == t;
  }

  /**
   * The documented case: four capital letters, one space and six or seven
   * digits give back the letters and digits with the space removed.
   */
  lemma EmbeddedSpaceRemoved(p: string, d: string)
    requires |p| == Letters && forall m :: 0 <= m < |p| ==> IsUpper(p[m])
    requires MinDigits <= |d| <= MaxDigits && AllDigits(d)
    ensures ContainerId(p + " " + d) == p + d
  {
    var t := p + " " + d;
    EmbeddedSpaceAccepted(p, d);
    assert t[0..|t|] == t;
    ContainerSpanSpec(t);
    var (a, e) := Search(t).value;
    assert a == 0 && e == |t|;
    assert ContainerId(t) == Clean(t[a..e]);
    CleanAroundSpace(p, d);
  }
}
