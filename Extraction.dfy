/**
 * From the raw matches of the extraction rule to the keys to look up:
 * every match loses its spaces and newlines, the user's prefix and suffix
 * lengths are cut off, a remainder made of digits becomes a key, and the
 * keys are deduplicated and sorted, `sorted(list(set(keys)))`.
 *
 * Only the lengths of the prefix and suffix matter here: their characters
 * are never compared with the match.
 */
module Extraction {
  import opened Wrappers
  import opened Chars

  /**
   * One raw match, already cleaned, with lenP leading and lenS trailing
   * characters cut off: kept only when longer than lenP + lenS and when
   * what is left is all digits, and then read as a number.
   */
  function TrimKey(s: string, lenP: nat, lenS: nat): (r: Option<nat>)
    ensures r.Some? ==> |s| > lenP + lenS && IsDecimal(s[lenP..|s| - lenS])
                        && r.value == DecimalValue(s[lenP..|s| - lenS])
    ensures |s| > lenP + lenS && IsDecimal(s[lenP..|s| - lenS]) ==> r.Some?
  {
    if |s| > lenP + lenS then
      var rest := if lenS > 0 then s[lenP..|s| - lenS] else s[lenP..];
      assert rest == s[lenP..|s| - lenS];
      if IsDecimal(rest) then Some(DecimalValue(rest)) else None
    else None
  }

  /** `[x.replace(" ", "").replace("\n", "") for x in raws]`. */
  function CleanAll(raws: seq<string>): (cs: seq<string>)
    ensures |cs| == |raws|
    ensures forall i :: 0 <= i < |raws| ==> cs[i] == Clean(raws[i])
  {
    seq(|raws|, i requires 0 <= i < |raws| => Clean(raws[i]))
  }

  /** The keys the trimming loop appends, in the order of the matches. */
  function KeptKeys(cleaned: seq<string>, lenP: nat, lenS: nat): seq<nat>
    decreases |cleaned|
  {
    if cleaned == [] then []
    else
      var init := KeptKeys(cleaned[..|cleaned| - 1], lenP, lenS);
      match TrimKey(cleaned[|cleaned| - 1], lenP, lenS)
      case Some(n) => init + [n]
      case None => init
  }

  /** The trimming loop: one pass over the cleaned matches, appending each key kept. */
  method CollectKeys(cleaned: seq<string>, lenP: nat, lenS: nat) returns (keys: seq<nat>)
    ensures keys == KeptKeys(cleaned, lenP, lenS)
  {
    keys := [];
    var i := 0;
    while i < |cleaned|
      invariant 0 <= i <= |cleaned|
      invariant keys == KeptKeys(cleaned[..i], lenP, lenS)
    {
      var s := cleaned[i];
      if |s| > lenP + lenS {
        var rest := if lenS > 0 then s[lenP..|s| - lenS] else s[lenP..];
        if IsDecimal(rest) {
          keys := keys + [DecimalValue(rest)];
        }
      }
      assert cleaned[..i + 1][..i] == cleaned[..i];
      i := i + 1;
    }
    assert cleaned[..i] == cleaned;
  }

  /** All elements in strictly ascending order (hence no repetition). */
  predicate Ascending(xs: seq<nat>)
  {
    forall i, j :: 0 <= i < j < |xs| ==> xs[i] < xs[j]
  }

  /** Puts x into an ascending list, unless it is already there. */
  function Insert(x: nat, ys: seq<nat>): (r: seq<nat>)
    requires Ascending(ys)
    ensures Ascending(r)
    ensures forall z :: z in r <==> z == x || z in ys
    decreases |ys|
  {
    if ys == [] then [x]
    else if x < ys[0] then [x] + ys
    else if x == ys[0] then ys
    else
      var tail := Insert(x, ys[1..]);
      assert forall z :: z in ys[1..] ==> ys[0] < z;
      assert forall j :: 0 <= j < |tail| ==> ys[0] < tail[j] by {
        forall j | 0 <= j < |tail|
          ensures ys[0] < tail[j]
        {
          assert tail[j] in tail;
        }
      }
      [ys[0]] + tail
  }

  /** `sorted(list(set(xs)))`: the distinct elements of xs in ascending order. */
  function SortedDistinct(xs: seq<nat>): (r: seq<nat>)
    ensures Ascending(r)
    ensures forall z :: z in r <==> z in xs
    decreases |xs|
  {
    if xs == [] then []
    else Insert(xs[|xs| - 1], SortedDistinct(xs[..|xs| - 1]))
  }

  /**
   * Lines 174-196 as one step: the keys to look up are strictly ascending,
   * and a number is among them exactly when some raw match, cleaned and
   * trimmed, reads as that number.
   */
  method ExtractKeys(raws: seq<string>, lenP: nat, lenS: nat) returns (keys: seq<nat>)
    ensures keys == KeysToLookUp(raws, lenP, lenS)
    ensures Ascending(keys)
    ensures forall n :: n in keys <==> exists i :: 0 <= i < |raws| && TrimKey(Clean(raws[i]), lenP, lenS) == Some(n)
  {
    var cleaned := CleanAll(raws);
    var kept := CollectKeys(cleaned, lenP, lenS);
    keys := SortedDistinct(kept);
    KeysToLookUpSpec(raws, lenP, lenS);
  }

  /** `lista_folios_a_buscar` once line 196 has run: the distinct kept keys, ascending. */
  function KeysToLookUp(raws: seq<string>, lenP: nat, lenS: nat): seq<nat>
  {
    SortedDistinct(KeptKeys(CleanAll(raws), lenP, lenS))
  }

  // ------------------------------------------------------------ the proofs

  /** Some cleaned match trims to n. */
  predicate Yields(cleaned: seq<string>, lenP: nat, lenS: nat, n: nat)
  {
    exists i :: 0 <= i < |cleaned| && TrimKey(cleaned[i], lenP, lenS) == Some(n)
  }

  /** The keys of all matches but the last, then the last match's key if it has one. */
  lemma KeptKeysLast(cleaned: seq<string>, lenP: nat, lenS: nat)
    requires cleaned != []
    ensures var init, last := cleaned[..|cleaned| - 1], cleaned[|cleaned| - 1];
      KeptKeys(cleaned, lenP, lenS) == KeptKeys(init, lenP, lenS) +
        (if TrimKey(last, lenP, lenS).Some? then [TrimKey(last, lenP, lenS).value] else [])
  {
  }

  /** Every kept number comes from some cleaned match. */
  lemma {:induction false} KeptKeysSound(cleaned: seq<string>, lenP: nat, lenS: nat)
    ensures forall n :: n in KeptKeys(cleaned, lenP, lenS) ==> Yields(cleaned, lenP, lenS, n)
    decreases |cleaned|
  {
    if cleaned != [] {
      var init := cleaned[..|cleaned| - 1];
      KeptKeysSound(init, lenP, lenS);
      KeptKeysLast(cleaned, lenP, lenS);
      forall n | n in KeptKeys(init, lenP, lenS)
        ensures Yields(cleaned, lenP, lenS, n)
      {
        var i :| 0 <= i < |init| && TrimKey(init[i], lenP, lenS) == Some(n);
        assert cleaned[i] == init[i];
      }
    }
  }

  /** Every number some cleaned match trims to is kept. */
  lemma KeptKeysComplete(cleaned: seq<string>, lenP: nat, lenS: nat)
    ensures forall n :: Yields(cleaned, lenP, lenS, n) ==> n in KeptKeys(cleaned, lenP, lenS)
  {
    forall n | Yields(cleaned, lenP, lenS, n)
      ensures n in KeptKeys(cleaned, lenP, lenS)
    {
      var i :| 0 <= i < |cleaned| && TrimKey(cleaned[i], lenP, lenS) == Some(n);
      KeptKeysHas(cleaned, lenP, lenS, i);
    }
  }

  /** The key of the match at position i is kept. */
  lemma {:induction false} KeptKeysHas(cleaned: seq<string>, lenP: nat, lenS: nat, i: nat)
    requires i < |cleaned| && TrimKey(cleaned[i], lenP, lenS).Some?
    ensures TrimKey(cleaned[i], lenP, lenS).value in KeptKeys(cleaned, lenP, lenS)
    decreases |cleaned|
  {
    var init := cleaned[..|cleaned| - 1];
    KeptKeysGrow(cleaned, lenP, lenS);
    if i < |init| {
      assert init[i] == cleaned[i];
      KeptKeysHas(init, lenP, lenS, i);
    }
  }

  /** The keys of all matches but the last are kept, and so is the last match's key. */
  lemma KeptKeysGrow(cleaned: seq<string>, lenP: nat, lenS: nat)
    requires cleaned != []
    ensures var init, last := cleaned[..|cleaned| - 1], cleaned[|cleaned| - 1];
      && (forall n :: n in KeptKeys(init, lenP, lenS) ==> n in KeptKeys(cleaned, lenP, lenS))
      && (TrimKey(last, lenP, lenS).Some? ==> TrimKey(last, lenP, lenS).value in KeptKeys(cleaned, lenP, lenS))
  {
    KeptKeysLast(cleaned, lenP, lenS);
  }

  /** The values a list holds. */
  function Values(xs: seq<nat>): set<nat>
  {
    set x | x in xs
  }

  /** An ascending list has as many elements as distinct values. */
  lemma {:induction false} AscendingSize(xs: seq<nat>)
    requires Ascending(xs)
    ensures |Values(xs)| == |xs|
  {
    if xs != [] {
      var rest := xs[1..];
      assert Ascending(rest) by {
        forall i, j | 0 <= i < j < |rest|
          ensures rest[i] < rest[j]
        {
          assert rest[i] == xs[i + 1] && rest[j] == xs[j + 1];
        }
      }
      AscendingSize(rest);
      assert xs[0] !in Values(rest) by {
        forall j | 0 <= j < |rest|
          ensures xs[0] < rest[j]
        {
          assert rest[j] == xs[j + 1];
        }
      }
      assert Values(xs) == Values(rest) + {xs[0]} by {
        assert xs == [xs[0]] + rest;
      }
    } else {
      assert Values(xs) == {};
    }
  }

  /** A number is kept exactly when some cleaned match trims to it. */
  lemma KeptKeysSpec(cleaned: seq<string>, lenP: nat, lenS: nat)
    ensures forall n :: n in KeptKeys(cleaned, lenP, lenS) <==> Yields(cleaned, lenP, lenS, n)
  {
    KeptKeysSound(cleaned, lenP, lenS);
    KeptKeysComplete(cleaned, lenP, lenS);
  }

  /**
   * The keys to look up are strictly ascending, and a number is among them
   * exactly when some raw match, cleaned and trimmed, reads as that number.
   */
  lemma KeysToLookUpSpec(raws: seq<string>, lenP: nat, lenS: nat)
    ensures Ascending(KeysToLookUp(raws, lenP, lenS))
    ensures forall n :: n in KeysToLookUp(raws, lenP, lenS) <==>
      exists i :: 0 <= i < |raws| && TrimKey(Clean(raws[i]), lenP, lenS) == Some(n)
  {
    var cleaned := CleanAll(raws);
    KeptKeysSpec(cleaned, lenP, lenS);
    forall n: nat | Yields(cleaned, lenP, lenS, n)
      ensures exists i :: 0 <= i < |raws| && TrimKey(Clean(raws[i]), lenP, lenS) == Some(n)
    {
      var i :| 0 <= i < |cleaned| && TrimKey(cleaned[i], lenP, lenS) == Some(n);
      assert TrimKey(Clean(raws[i]), lenP, lenS) == Some(n);
    }
    forall n: nat | exists i :: 0 <= i < |raws| && TrimKey(Clean(raws[i]), lenP, lenS) == Some(n)
      ensures Yields(cleaned, lenP, lenS, n)
    {
      var i :| 0 <= i < |raws| && TrimKey(Clean(raws[i]), lenP, lenS) == Some(n);
      assert TrimKey(cleaned[i], lenP, lenS) == Some(n);
    }
  }

  /**
   * Trimming undoes framing: a number written out between any prefix and
   * suffix comes back when the prefix's and suffix's lengths are cut off.
   */
  lemma TrimKeyRoundTrip(p: string, n: nat, s: string)
    ensures TrimKey(p + ShowNat(n) + s, |p|, |s|) == Some(n)
  {
    var w := p + ShowNat(n) + s;
    assert w[|p|..|w| - |s|] == ShowNat(n);
    DecimalValueOfShowNat(n);
  }

  /** A match no longer than the prefix and suffix together is dropped. */
  lemma TrimKeyTooShort(s: string, lenP: nat, lenS: nat)
    requires |s| <= lenP + lenS
    ensures TrimKey(s, lenP, lenS) == None
  {
  }

  /** The worked example of lines 189-190: "03024052626" with lengths 4 and 2 gives 40526. */
  lemma TrimKeyExample()
    ensures TrimKey("03024052626", 4, 2) == Some(40526)
  {
    var s := "03024052626";
    var m := s[4..9];
    assert m == ['4', '0', '5', '2', '6'];
    assert m[..1] == ['4'] && m[..2] == ['4', '0'] && m[..3] == ['4', '0', '5'] && m[..4] == ['4', '0', '5', '2'];
    assert DecimalValue(m[..1]) == 4;
    assert DecimalValue(m[..2]) == 40;
    assert m[..3][..2] == m[..2];
    assert DecimalValue(m[..3]) == 405;
    assert m[..4][..3] == m[..3];
    assert DecimalValue(m[..4]) == 4052;
    assert m[..|m| - 1] == m[..4];
    assert DecimalValue(m) == 40526;
  }
}
