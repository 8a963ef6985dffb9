/**
 * The first step of `detectar_patron_inteligente`: every substring shaped
 * like a date, `\d{1,2}/\d{1,2}/\d{2,4}`, is deleted from the text with
 * `re.sub`, scanning left to right over non-overlapping matches.
 *
 * `DateAt` follows the regular expression engine at one position;
 * `IsDateSpan` describes declaratively which spans have the date shape.
 * `Pieces` is the left-to-right scan of `re.sub`: the text is cut into kept
 * characters and deleted date matches, and `RemoveDates` keeps the former.
 */
module Dates {
  import opened Wrappers
  import opened Chars

  // ---------------------------------------------------------------- scanner

  /** Greedy `\d{0,cap}` at i: how many digits follow i, counting at most cap. */
  function DigitsFrom(t: string, i: nat, cap: nat): (k: nat)
    requires i <= |t|
    ensures k <= cap && i + k <= |t|
    ensures forall m :: i <= m < i + k ==> IsDigit(t[m])
    ensures k < cap && i + k < |t| ==> !IsDigit(t[i + k])
    decreases cap
  {
    if cap == 0 || i == |t| || !IsDigit(t[i]) then 0 else 1 + DigitsFrom(t, i + 1, cap - 1)
  }

  /**
   * `\d{1,2}/` at i: where it ends, if it matches. Backing off to one digit
   * never helps, because the character after it is then a digit, not '/'.
   */
  function FieldAt(t: string, i: nat): (r: Option<nat>)
    requires i <= |t|
    ensures r.Some? ==> i + 2 <= r.value <= i + 3 && r.value <= |t|
  {
    var k := DigitsFrom(t, i, 2);
    if 1 <= k && i + k < |t| && t[i + k] == '/' then Some(i + k + 1) else None
  }

  /** The whole date pattern anchored at i: where the match ends, if there is one. */
  function DateAt(t: string, i: nat): (r: Option<nat>)
    requires i <= |t|
    ensures r.Some? ==> i < r.value <= |t|
  {
    match FieldAt(t, i)
    case None => None
    case Some(j) =>
      match FieldAt(t, j)
      case None => None
      case Some(k) =>
        var c := DigitsFrom(t, k, 4);
        if 2 <= c then Some(k + c) else None
  }

  /** One step of the `re.sub` scan: a character kept, or a deleted date match. */
  datatype Piece = Keep(at: nat) | Cut(from: nat, to: nat)
  {
    function Start(): nat
    {
      if Keep? then at else from
    }
  }

  /** The `re.sub` scan from i: at each position, delete the date match there or keep the character. */
  function Pieces(t: string, i: nat): (ps: seq<Piece>)
    requires i <= |t|
    ensures forall m :: 0 <= m < |ps| ==> i <= ps[m].Start() < |t|
    decreases |t| - i
  {
    if i == |t| then []
    else
      match DateAt(t, i)
      case Some(e) => [Cut(i, e)] + Pieces(t, e)
      case None => [Keep(i)] + Pieces(t, i + 1)
  }

  /** The characters the scan keeps, in order. */
  function Render(t: string, ps: seq<Piece>): string
    requires forall m :: 0 <= m < |ps| ==> ps[m].Keep? ==> ps[m].at < |t|
  {
    if ps == [] then []
    else (if ps[0].Keep? then [t[ps[0].at]] else []) + Render(t, ps[1..])
  }

  /** `re.sub(r'\d{1,2}/\d{1,2}/\d{2,4}', '', t)`. */
  function RemoveDates(t: string): string
  {
    Render(t, Pieces(t, 0))
  }

  // ---------------------------------------------------- declarative pattern

  /** Every character of t[a..b] is a digit. */
  predicate DigitsIn(t: string, a: nat, b: nat)
    requires a <= b <= |t|
  {
    forall m :: a <= m < b ==> IsDigit(t[m])
  }

  /**
   * t[i..e] is a date whose slashes sit at p and q: one or two digits, '/',
   * one or two digits, '/', two to four digits.
   */
  predicate DateShape(t: string, i: nat, p: nat, q: nat, e: nat)
  {
    && i < p < q < e <= |t|
    && 1 <= p - i <= 2 && 1 <= q - p - 1 <= 2 && 2 <= e - q - 1 <= 4
    && t[p] == '/' && t[q] == '/'
    && DigitsIn(t, i, p) && DigitsIn(t, p + 1, q) && DigitsIn(t, q + 1, e)
  }

  /** t[i..e] has the date shape. */
  predicate IsDateSpan(t: string, i: nat, e: nat)
  {
    exists p: nat, q: nat | i < p < q < e :: DateShape(t, i, p, q, e)
  }

  /** The scan's pieces follow each other without gap from i to n. */
  predicate Tiles(ps: seq<Piece>, i: nat, n: nat)
    decreases |ps|
  {
    if ps == [] then i == n
    else
      && ps[0].Start() == i
      && (ps[0].Cut? ==> i < ps[0].to)
      && Tiles(ps[1..], if ps[0].Keep? then i + 1 else ps[0].to, n)
  }

  // ------------------------------------------------------------ the proofs

  /** Digits followed by a non-digit: the greedy count stops exactly there. */
  lemma DigitsFromExact(t: string, i: nat, n: nat, cap: nat)
    requires i + n <= |t| && n <= cap
    requires forall m :: i <= m < i + n ==> IsDigit(t[m])
    ensures n <= DigitsFrom(t, i, cap)
    ensures i + n < |t| && !IsDigit(t[i + n]) ==> DigitsFrom(t, i, cap) == n
  {
  }

  /** A field `\d{1,2}/` with its slash at p is what the scanner finds at i. */
  lemma FieldAtShape(t: string, i: nat, p: nat)
    requires i < p < |t| && p - i <= 2 && t[p] == '/' && DigitsIn(t, i, p)
    ensures FieldAt(t, i) == Some(p + 1)
  {
    DigitsFromExact(t, i, p - i, 2);
  }

  /** What the scanner finds at i has the date shape. */
  lemma DateAtSound(t: string, i: nat)
    requires i <= |t| && DateAt(t, i).Some?
    ensures IsDateSpan(t, i, DateAt(t, i).value)
  {
    var j := FieldAt(t, i).value;
    var k := FieldAt(t, j).value;
    var e := DateAt(t, i).value;
    assert DateShape(t, i, j - 1, k - 1, e);
  }

  /** A date with its slashes at p and q is found by the scanner, which stops no earlier than it. */
  lemma DateShapeFound(t: string, i: nat, p: nat, q: nat, e: nat)
    requires DateShape(t, i, p, q, e)
    ensures DateAt(t, i).Some? && e <= DateAt(t, i).value
  {
    FieldAtShape(t, i, p);
    FieldAtShape(t, p + 1, q);
    DigitsFromExact(t, q + 1, e - q - 1, 4);
    DateAtFields(t, i, p + 1, q + 1);
  }

  /** Two fields found one after the other: the date match ends after the year digits. */
  lemma DateAtFields(t: string, i: nat, j: nat, k: nat)
    requires i <= |t| && FieldAt(t, i) == Some(j) && FieldAt(t, j) == Some(k)
    ensures DateAt(t, i) == (if 2 <= DigitsFrom(t, k, 4) then Some(k + DigitsFrom(t, k, 4)) else None)
  {
  }

  /** Every date span at i is found by the scanner, which stops no earlier than it. */
  lemma DateAtLongest(t: string, i: nat, e: nat)
    requires i <= e <= |t| && IsDateSpan(t, i, e)
    ensures DateAt(t, i).Some? && e <= DateAt(t, i).value
  {
    var p: nat, q: nat :| i < p < q < e && DateShape(t, i, p, q, e);
    DateShapeFound(t, i, p, q, e);
  }

  /**
   * The scanner at i returns the longest date span starting at i, and
   * nothing exactly when no date span starts at i.
   */
  lemma DateAtSpec(t: string, i: nat)
    requires i <= |t|
    ensures DateAt(t, i).Some? ==> IsDateSpan(t, i, DateAt(t, i).value)
    ensures forall e :: i <= e <= |t| && IsDateSpan(t, i, e) ==>
      DateAt(t, i).Some? && e <= DateAt(t, i).value
  {
    if DateAt(t, i).Some? {
      DateAtSound(t, i);
    }
    forall e | i <= e <= |t| && IsDateSpan(t, i, e)
      ensures DateAt(t, i).Some? && e <= DateAt(t, i).value
    {
      DateAtLongest(t, i, e);
    }
  }

  /** The scan's first piece from i, and the scan after it. */
  lemma PiecesFirst(t: string, i: nat)
    requires i < |t|
    ensures Pieces(t, i) == match DateAt(t, i)
      case Some(e) => [Cut(i, e)] + Pieces(t, e)
      case None => [Keep(i)] + Pieces(t, i + 1)
  {
  }

  /** The `re.sub` scan cuts the text from i into consecutive pieces, without gap, up to its end. */
  lemma {:induction false} PiecesTile(t: string, i: nat)
    requires i <= |t|
    ensures Tiles(Pieces(t, i), i, |t|)
    decreases |t| - i
  {
    if i < |t| {
      PiecesFirst(t, i);
      match DateAt(t, i)
      case Some(e) =>
        PiecesTile(t, e);
      case None =>
        PiecesTile(t, i + 1);
    }
  }

  /** The piece agrees with the scanner: a cut is the date match at its start, a kept character starts none. */
  predicate Agrees(t: string, pc: Piece)
  {
    && (pc.Cut? ==> pc.from <= |t| && DateAt(t, pc.from) == Some(pc.to))
    && (pc.Keep? ==> pc.at <= |t| && DateAt(t, pc.at).None?)
  }

  /** A piece that agrees, put in front of pieces that agree. */
  lemma ConsAgrees(t: string, pc: Piece, rest: seq<Piece>)
    requires Agrees(t, pc)
    requires forall m :: 0 <= m < |rest| ==> Agrees(t, rest[m])
    ensures forall m :: 0 <= m < |[pc] + rest| ==> Agrees(t, ([pc] + rest)[m])
  {
    var ps := [pc] + rest;
    forall m | 0 < m < |ps|
      ensures Agrees(t, ps[m])
    {
      assert ps[m] == rest[m - 1];
    }
  }

  /** Each deleted piece is the longest date match at its start, and no date match starts at a kept character. */
  lemma {:induction false} PiecesMatch(t: string, i: nat)
    requires i <= |t|
    ensures forall m :: 0 <= m < |Pieces(t, i)| ==> Agrees(t, Pieces(t, i)[m])
    decreases |t| - i
  {
    if i < |t| {
      var d := DateAt(t, i);
      var pc := if d.Some? then Cut(i, d.value) else Keep(i);
      var j := if d.Some? then d.value else i + 1;
      assert Pieces(t, i) == [pc] + Pieces(t, j);
      PiecesMatch(t, j);
      ConsAgrees(t, pc, Pieces(t, j));
    }
  }

  /**
   * The `re.sub` scan cuts the text from i into consecutive pieces; each
   * deleted piece is the longest date span at its start, and no date span
   * starts at a kept character.
   */
  lemma PiecesSpec(t: string, i: nat)
    requires i <= |t|
    ensures Tiles(Pieces(t, i), i, |t|)
    ensures forall m :: 0 <= m < |Pieces(t, i)| ==>
      var pc := Pieces(t, i)[m];
      && (pc.Cut? ==> DateAt(t, pc.from) == Some(pc.to))
      && (pc.Keep? ==> DateAt(t, pc.at).None?)
  {
    PiecesTile(t, i);
    PiecesMatch(t, i);
  }

  /** Where the scanner finds no date anywhere from i on, the scan keeps every character. */
  lemma {:induction false} RenderAllKept(t: string, i: nat)
    requires i <= |t|
    requires forall a :: i <= a < |t| ==> DateAt(t, a).None?
    ensures Render(t, Pieces(t, i)) == t[i..]
    decreases |t| - i
  {
    if i < |t| {
      var ps := Pieces(t, i);
      assert ps == [Keep(i)] + Pieces(t, i + 1);
      RenderAllKept(t, i + 1);
      assert t[i..] == [t[i]] + t[i + 1..];
    }
  }

  /** A text in which no date span starts anywhere comes back unchanged. */
  lemma RemoveDatesNoDate(t: string)
    requires forall a, e :: 0 <= a <= e <= |t| ==> !IsDateSpan(t, a, e)
    ensures RemoveDates(t) == t
  {
    forall a | 0 <= a < |t|
      ensures DateAt(t, a).Some? ==> IsDateSpan(t, a, DateAt(t, a).value)
    {
      if DateAt(t, a).Some? {
        DateAtSound(t, a);
      }
    }
    RenderAllKept(t, 0);
  }

  /** A text that is one whole date is deleted entirely. */
  lemma RemoveWholeDate(t: string)
    requires IsDateSpan(t, 0, |t|)
    ensures RemoveDates(t) == ""
  {
    DateAtLongest(t, 0, |t|);
    var ps := Pieces(t, 0);
    assert ps == [Cut(0, |t|)] + Pieces(t, |t|);
    assert Pieces(t, |t|) == [];
    assert Render(t, ps) == [] + Render(t, ps[1..]);
  }

  /** The positions of the kept characters, in order. */
  function Kept(ps: seq<Piece>): (ks: seq<nat>)
    ensures |ks| <= |ps|
  {
    if ps == [] then []
    else (if ps[0].Keep? then [ps[0].at] else []) + Kept(ps[1..])
  }

  /** The rendered text is the kept characters of t, in order. */
  lemma {:induction false} RenderKept(t: string, ps: seq<Piece>)
    requires forall m :: 0 <= m < |ps| ==> ps[m].Keep? ==> ps[m].at < |t|
    ensures |Render(t, ps)| == |Kept(ps)|
    ensures forall k :: 0 <= k < |Kept(ps)| ==> Kept(ps)[k] < |t| && Render(t, ps)[k] == t[Kept(ps)[k]]
  {
    if ps != [] {
      RenderKept(t, ps[1..]);
    }
  }

  /** In a tiling from i, every piece and every kept position lies at or after i. */
  lemma {:induction false} TilesFrom(ps: seq<Piece>, i: nat, n: nat)
    requires Tiles(ps, i, n)
    ensures forall m :: 0 <= m < |ps| ==> i <= ps[m].Start()
    ensures forall k :: 0 <= k < |Kept(ps)| ==> i <= Kept(ps)[k]
    decreases |ps|
  {
    if ps != [] {
      TilesFrom(ps[1..], if ps[0].Keep? then i + 1 else ps[0].to, n);
    }
  }

  /** In a tiling, no kept position falls inside a cut piece. */
  lemma {:induction false} KeptOutsideCuts(ps: seq<Piece>, i: nat, n: nat)
    requires Tiles(ps, i, n)
    ensures forall k, m :: 0 <= k < |Kept(ps)| && 0 <= m < |ps| && ps[m].Cut? ==>
      !(ps[m].from <= Kept(ps)[k] < ps[m].to)
    decreases |ps|
  {
    if ps != [] {
      var j := if ps[0].Keep? then i + 1 else ps[0].to;
      var rest := ps[1..];
      KeptOutsideCuts(rest, j, n);
      TilesFrom(rest, j, n);
      assert Kept(ps) == (if ps[0].Keep? then [ps[0].at] else []) + Kept(rest);
      forall k, m | 0 <= k < |Kept(ps)| && 0 <= m < |ps| && ps[m].Cut?
        ensures !(ps[m].from <= Kept(ps)[k] < ps[m].to)
      {
        if 0 < m {
          assert ps[m] == rest[m - 1];
        }
      }
    }
  }

  /**
   * What the candidate search sees: each character of RemoveDates(t) is the
   * character of t at a kept position, and no kept position lies inside a
   * deleted date match.
   */
  lemma RemoveDatesKeepsOnlyOutsideDates(t: string)
    ensures var ps := Pieces(t, 0);
      && |RemoveDates(t)| == |Kept(ps)|
      && (forall k :: 0 <= k < |Kept(ps)| ==> Kept(ps)[k] < |t| && RemoveDates(t)[k] == t[Kept(ps)[k]])
      && (forall k, m :: 0 <= k < |Kept(ps)| && 0 <= m < |ps| && ps[m].Cut? ==>
            DateAt(t, ps[m].from) == Some(ps[m].to) && !(ps[m].from <= Kept(ps)[k] < ps[m].to))
  {
    PiecesSpec(t, 0);
    RenderKept(t, Pieces(t, 0));
    KeptOutsideCuts(Pieces(t, 0), 0, |t|);
  }
}
