/**
 * `Counter(xs).most_common(1)[0][0]`: the most frequent value of a list.
 *
 * A `Counter` is a dictionary whose keys keep the order in which they were
 * first seen; `most_common(1)` takes the maximum of its items by count,
 * and the maximum of a sequence is its first maximal element. So among
 * equally frequent values the one seen first wins.
 */
module Mode {

  /** How many times x occurs in xs. */
  function Count<T(==)>(xs: seq<T>, x: T): nat
  {
    multiset(xs)[x]
  }

  /** The index of the first occurrence of x in xs. */
  function FirstIndex<T(==)>(xs: seq<T>, x: T): (k: nat)
    requires x in xs
    ensures k < |xs| && xs[k] == x && x !in xs[..k]
    decreases |xs|
  {
    var init := xs[..|xs| - 1];
    if x in init then
      var k := FirstIndex(init, x);
      assert xs[..k] == init[..k];
      k
    else
      assert xs == init + [xs[|xs| - 1]];
      |xs| - 1
  }

  /** The keys of `Counter(xs)`, in the order they were first seen. */
  function Keys<T(==)>(xs: seq<T>): (ks: seq<T>)
    ensures |ks| <= |xs| && (|xs| > 0 ==> |ks| > 0)
    decreases |xs|
  {
    if xs == [] then []
    else
      var ks := Keys(xs[..|xs| - 1]);
      if xs[|xs| - 1] in ks then ks else ks + [xs[|xs| - 1]]
  }

  /** `max(ks, key=count)`: a left-to-right scan that moves only to a strictly larger count. */
  function Heaviest<T(==)>(xs: seq<T>, ks: seq<T>): T
    requires |ks| > 0
    decreases |ks|
  {
    if |ks| == 1 then ks[0]
    else
      var b := Heaviest(xs, ks[..|ks| - 1]);
      if Count(xs, ks[|ks| - 1]) > Count(xs, b) then ks[|ks| - 1] else b
  }

  /** `Counter(xs).most_common(1)[0][0]` on a non-empty list. */
  function MostCommon<T(==)>(xs: seq<T>): T
    requires |xs| > 0
  {
    Heaviest(xs, Keys(xs))
  }

  // ---------------------------------------------------- declarative meaning

  /**
   * m is the mode of xs in the sense of `most_common`: it occurs in xs, no
   * value occurs more often, and any value occurring as often was first seen
   * no earlier than m.
   */
  predicate IsModeOf<T(==)>(xs: seq<T>, m: T)
  {
    && m in xs
    && (forall y :: y in xs ==> Count(xs, y) <= Count(xs, m))
    && (forall y :: y in xs && Count(xs, y) == Count(xs, m) ==> FirstIndex(xs, m) <= FirstIndex(xs, y))
  }

  /** Every key before position i has a strictly smaller count than ks[i]. */
  predicate FirstMaximal<T(==)>(xs: seq<T>, ks: seq<T>, i: nat)
    requires i < |ks|
  {
    forall j :: 0 <= j < i ==> Count(xs, ks[j]) < Count(xs, ks[i])
  }

  // ------------------------------------------------------------ the proofs

  /** First occurrences do not move when the list grows at the end. */
  lemma FirstIndexExtend<T>(ys: seq<T>, z: T, x: T)
    requires x in ys
    ensures FirstIndex(ys + [z], x) == FirstIndex(ys, x)
  {
    assert (ys + [z])[..|ys|] == ys;
  }

  /**
   * The keys are the values of xs, each once, in the order of their first
   * occurrence.
   */
  lemma {:induction false} KeysSpec<T>(xs: seq<T>)
    ensures forall x :: x in Keys(xs) <==> x in xs
    ensures forall i, j :: 0 <= i < j < |Keys(xs)| ==> Keys(xs)[i] != Keys(xs)[j]
    ensures forall i, j :: 0 <= i < j < |Keys(xs)| ==>
      FirstIndex(xs, Keys(xs)[i]) < FirstIndex(xs, Keys(xs)[j])
    decreases |xs|
  {
    if xs != [] {
      var ys, z := xs[..|xs| - 1], xs[|xs| - 1];
      assert xs == ys + [z];
      KeysSpec(ys);
      var ks := Keys(ys);
      forall x | x in ys
        ensures FirstIndex(xs, x) == FirstIndex(ys, x)
      {
        FirstIndexExtend(ys, z, x);
      }
      if z !in ks {
        assert FirstIndex(xs, z) == |ys|;
      }
    }
  }

  /**
   * The scan returns a key of maximal count, and every key before it has a
   * strictly smaller count: it is the first maximal key.
   */
  lemma {:induction false} HeaviestSpec<T>(xs: seq<T>, ks: seq<T>)
    requires |ks| > 0
    ensures exists i :: 0 <= i < |ks| && ks[i] == Heaviest(xs, ks) && FirstMaximal(xs, ks, i)
    ensures forall j :: 0 <= j < |ks| ==> Count(xs, ks[j]) <= Count(xs, Heaviest(xs, ks))
    decreases |ks|
  {
    if |ks| > 1 {
      var init := ks[..|ks| - 1];
      HeaviestSpec(xs, init);
      var i :| 0 <= i < |init| && init[i] == Heaviest(xs, init) && FirstMaximal(xs, init, i);
      if Count(xs, ks[|ks| - 1]) > Count(xs, Heaviest(xs, init)) {
        assert forall j :: 0 <= j < |ks| - 1 ==> ks[j] == init[j];
      } else {
        assert ks[i] == init[i];
      }
    } else {
      assert ks[0] == Heaviest(xs, ks);
    }
  }

  /** A first maximal key, over keys listed in order of first occurrence, is the mode. */
  lemma FirstMaximalIsMode<T>(xs: seq<T>, ks: seq<T>, i: nat)
    requires i < |ks| && FirstMaximal(xs, ks, i)
    requires forall j :: 0 <= j < |ks| ==> Count(xs, ks[j]) <= Count(xs, ks[i])
    requires forall x :: x in ks <==> x in xs
    requires forall a, b :: 0 <= a < b < |ks| ==> FirstIndex(xs, ks[a]) < FirstIndex(xs, ks[b])
    ensures IsModeOf(xs, ks[i])
  {
    var m := ks[i];
    forall y | y in xs
      ensures Count(xs, y) <= Count(xs, m)
      ensures Count(xs, y) == Count(xs, m) ==> FirstIndex(xs, m) <= FirstIndex(xs, y)
    {
      assert y in ks;
      var j :| 0 <= j < |ks| && ks[j] == y;
    }
  }

  /** `most_common(1)` picks the mode: the most frequent value, the first seen among ties. */
  lemma MostCommonSpec<T>(xs: seq<T>)
    requires |xs| > 0
    ensures IsModeOf(xs, MostCommon(xs))
  {
    var ks := Keys(xs);
    KeysSpec(xs);
    HeaviestSpec(xs, ks);
    var i :| 0 <= i < |ks| && ks[i] == Heaviest(xs, ks) && FirstMaximal(xs, ks, i);
    FirstMaximalIsMode(xs, ks, i);
  }

  /** The mode is unique, so `most_common(1)` returns m exactly when m is the mode. */
  lemma ModeUnique<T>(xs: seq<T>, a: T, b: T)
    requires IsModeOf(xs, a) && IsModeOf(xs, b)
    ensures a == b
  {
    var ia, ib := FirstIndex(xs, a), FirstIndex(xs, b);
    assert xs[ia] == a && xs[ib] == b;
  }

  /** A value that occurs more often than every other value is the mode. */
  lemma StrictMajorityIsMode<T>(xs: seq<T>, m: T)
    requires m in xs
    requires forall y :: y in xs && y != m ==> Count(xs, y) < Count(xs, m)
    ensures |xs| > 0 && MostCommon(xs) == m
  {
    MostCommonSpec(xs);
  }
}
