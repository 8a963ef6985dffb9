/**
 * Looking the extracted keys up in the reference sheet.
 *
 * The key column is the first column whose name, lower-cased and stripped,
 * is "folio". Each key, in ascending order, is matched against that column:
 * the first row holding it is recorded, with a "Contenedor - Folio" entry
 * added, and the match counter goes up; a key no row holds joins the
 * not-found list.
 */
module Reconciliation {
  import opened Wrappers
  import opened Chars
  import Extraction

  /** A row of the sheet as a dictionary from column name to cell text. */
  type Record = map<string, string>

  /**
   * A row: its key column after `pd.to_numeric(errors='coerce')` (None for
   * a cell that is not a number) and its cells.
   */
  datatype Row = Row(folio: Option<int>, cells: Record)

  datatype Sheet = Sheet(columns: seq<string>, rows: seq<Row>)

  /**
   * What the reconciliation ends with: no key to look up, no key column,
   * or the found records, the keys not found and the match count.
   */
  datatype Outcome =
    | NoKeys
    | NoFolioColumn
    | Reconciled(found: seq<Record>, missing: seq<nat>, matches: nat)

  const FolioName := "folio"
  const FolioCapitals := "FOLIO"
  const LabelColumn := "Contenedor - Folio"
  const LabelSeparator := " - "

  /** `str(c).lower().strip() == "folio"`. */
  predicate IsFolioName(c: string)
  {
    Strip(Lower(c)) == FolioName
  }

  /** w spells "folio", each letter small or capital. */
  predicate FolioAnyCase(w: string)
  {
    |w| == |FolioName| && forall k :: 0 <= k < |w| ==> w[k] == FolioName[k] || w[k] == FolioCapitals[k]
  }

  /** Only whitespace before position a and from position b on. */
  predicate SpacesAround(c: string, a: nat, b: nat)
  {
    && a <= b <= |c|
    && (forall i :: 0 <= i < a ==> IsSpace(c[i]))
    && (forall i :: b <= i < |c| ==> IsSpace(c[i]))
  }

  /** `next((c for c in cs if p(c)), None)` from position i on, as an index. */
  function FirstWhere(cs: seq<string>, p: string -> bool, i: nat): (r: Option<nat>)
    requires i <= |cs|
    ensures r.Some? ==> i <= r.value < |cs| && p(cs[r.value])
                        && forall j :: i <= j < r.value ==> !p(cs[j])
    ensures r.None? ==> forall j :: i <= j < |cs| ==> !p(cs[j])
    decreases |cs| - i
  {
    if i == |cs| then None
    else if p(cs[i]) then Some(i)
    else FirstWhere(cs, p, i + 1)
  }

  /** The index of the key column: the first whose name normalises to "folio". */
  function FolioColumn(columns: seq<string>): Option<nat>
  {
    FirstWhere(columns, IsFolioName, 0)
  }

  /** `f"{contenedor} - {folio}"`. */
  function Label(container: string, k: nat): string
  {
    container + LabelSeparator + ShowNat(k)
  }

  /** The index of the first row whose key equals k, from row i on. */
  function FirstRowFrom(rows: seq<Row>, k: nat, i: nat): (r: Option<nat>)
    requires i <= |rows|
    ensures r.Some? ==> i <= r.value < |rows| && rows[r.value].folio == Some(k)
                        && forall j :: i <= j < r.value ==> rows[j].folio != Some(k)
    ensures r.None? ==> forall j :: i <= j < |rows| ==> rows[j].folio != Some(k)
    decreases |rows| - i
  {
    if i == |rows| then None
    else if rows[i].folio == Some(k) then Some(i)
    else FirstRowFrom(rows, k, i + 1)
  }

  /** `df[df[col] == k]`, reduced to the first row it selects (`iloc[0]`). */
  function FirstRow(rows: seq<Row>, k: nat): Option<nat>
  {
    FirstRowFrom(rows, k, 0)
  }

  /** `fila.to_dict()` with the "Contenedor - Folio" entry set. */
  function RecordFor(row: Row, container: string, k: nat): Record
  {
    row.cells[LabelColumn := Label(container, k)]
  }

  /** The records the loop collects for keys, in key order. */
  function Found(rows: seq<Row>, keys: seq<nat>, container: string): seq<Record>
    decreases |keys|
  {
    if keys == [] then []
    else
      var init := Found(rows, keys[..|keys| - 1], container);
      var k := keys[|keys| - 1];
      match FirstRow(rows, k)
      case Some(r) => init + [RecordFor(rows[r], container, k)]
      case None => init
  }

  /** The keys that have a row, in key order. */
  function FoundKeys(rows: seq<Row>, keys: seq<nat>): seq<nat>
    decreases |keys|
  {
    if keys == [] then []
    else
      var init := FoundKeys(rows, keys[..|keys| - 1]);
      var k := keys[|keys| - 1];
      if FirstRow(rows, k).Some? then init + [k] else init
  }

  /** The keys that have no row, in key order. */
  function Missing(rows: seq<Row>, keys: seq<nat>): seq<nat>
    decreases |keys|
  {
    if keys == [] then []
    else
      var init := Missing(rows, keys[..|keys| - 1]);
      var k := keys[|keys| - 1];
      if FirstRow(rows, k).None? then init + [k] else init
  }

  /**
   * The reconciliation of lines 198-221: nothing to do without keys, an
   * error without a key column, and otherwise one lookup per key.
   */
  method Reconcile(sheet: Sheet, container: string, keys: seq<nat>) returns (out: Outcome)
    ensures keys == [] ==> out == NoKeys
    ensures keys != [] && FolioColumn(sheet.columns).None? ==> out == NoFolioColumn
    ensures keys != [] && FolioColumn(sheet.columns).Some? ==>
      out == Reconciled(Found(sheet.rows, keys, container), Missing(sheet.rows, keys),
                        |Found(sheet.rows, keys, container)|)
  {
    if |keys| == 0 {
      return NoKeys;
    }
    if FolioColumn(sheet.columns).None? {
      return NoFolioColumn;
    }
    var found: seq<Record> := [];
    var missing: seq<nat> := [];
    var matches := 0;
    var i := 0;
    while i < |keys|
      invariant 0 <= i <= |keys|
      invariant found == Found(sheet.rows, keys[..i], container)
      invariant missing == Missing(sheet.rows, keys[..i])
      invariant matches == |found|
    {
      var k := keys[i];
      var hit := FirstRow(sheet.rows, k);
      LookupStep(sheet.rows, keys, container, i);
      if hit.Some? {
        matches := matches + 1;
        found := found + [RecordFor(sheet.rows[hit.value], container, k)];
      } else {
        missing := missing + [k];
      }
      i := i + 1;
    }
    assert keys[..i] == keys;
    out := Reconciled(found, missing, matches);
  }

  /**
   * The "Procesar" step of lines 159-221: nothing happens while the
   * container, the rule or the column selection is empty (None); otherwise
   * the raw matches of the rule become keys and the keys are reconciled.
   * The rule text is only checked for emptiness: its matches are an input.
   */
  method Process(container: string, rule: string, selected: seq<string>, raws: seq<string>,
                 prefix: string, suffix: string, sheet: Sheet) returns (r: Option<Outcome>)
    ensures r.None? <==> container == "" || rule == "" || selected == []
    ensures r.Some? ==>
      (r.value == NoKeys <==>
        forall i :: 0 <= i < |raws| ==> Extraction.TrimKey(Clean(raws[i]), |prefix|, |suffix|).None?)
    ensures r.Some? && r.value.Reconciled? ==>
      && r.value.matches + |r.value.missing| == |Yielded(raws, |prefix|, |suffix|)|
      && Extraction.Ascending(r.value.missing)
      && forall k :: k in r.value.missing ==>
           (exists i :: 0 <= i < |raws| && Extraction.TrimKey(Clean(raws[i]), |prefix|, |suffix|) == Some(k))
           && forall j :: 0 <= j < |sheet.rows| ==> sheet.rows[j].folio != Some(k)
    ensures r.Some? && r.value != NoKeys ==>
      (r.value == NoFolioColumn <==> FolioColumn(sheet.columns).None?)
    ensures r.Some? && r.value.Reconciled? ==>
      var keys := Extraction.KeysToLookUp(raws, |prefix|, |suffix|);
      && r.value.found == Found(sheet.rows, keys, container)
      && r.value.missing == Missing(sheet.rows, keys)
      && r.value.matches == |r.value.found|
  {
    if container == "" || rule == "" || selected == [] {
      return None;
    }
    var keys := Extraction.ExtractKeys(raws, |prefix|, |suffix|);
    var out := Reconcile(sheet, container, keys);
    KeysAccounting(sheet.rows, keys, container, raws, |prefix|, |suffix|);
    r := Some(out);
  }

  // ------------------------------------------------------------ the proofs

  /** The distinct keys the raw matches yield once cleaned and trimmed. */
  function Yielded(raws: seq<string>, lenP: nat, lenS: nat): set<nat>
  {
    set i | 0 <= i < |raws| && Extraction.TrimKey(Clean(raws[i]), lenP, lenS).Some?
      :: Extraction.TrimKey(Clean(raws[i]), lenP, lenS).value
  }

  /**
   * For the keys extraction returns: there are keys exactly when some match
   * yields one, the found and missing keys together count the distinct keys
   * yielded, and the missing ones are ascending, yielded and held by no row.
   */
  lemma KeysAccounting(rows: seq<Row>, keys: seq<nat>, container: string,
                       raws: seq<string>, lenP: nat, lenS: nat)
    requires Extraction.Ascending(keys)
    requires forall n :: n in keys <==>
      exists i :: 0 <= i < |raws| && Extraction.TrimKey(Clean(raws[i]), lenP, lenS) == Some(n)
    ensures keys == [] <==> forall i :: 0 <= i < |raws| ==> Extraction.TrimKey(Clean(raws[i]), lenP, lenS).None?
    ensures |Found(rows, keys, container)| + |Missing(rows, keys)| == |Yielded(raws, lenP, lenS)|
    ensures Extraction.Ascending(Missing(rows, keys))
    ensures forall k :: k in Missing(rows, keys) ==>
      (exists i :: 0 <= i < |raws| && Extraction.TrimKey(Clean(raws[i]), lenP, lenS) == Some(k))
      && forall j :: 0 <= j < |rows| ==> rows[j].folio != Some(k)
  {
    if keys != [] {
      assert keys[0] in keys;
    }
    Accounting(rows, keys, container);
    MissingAscending(rows, keys);
    Extraction.AscendingSize(keys);
    assert Yielded(raws, lenP, lenS) == Extraction.Values(keys);
  }

  /** One more key looked up: its record or the key itself is appended to the right list. */
  lemma LookupStep(rows: seq<Row>, keys: seq<nat>, container: string, i: nat)
    requires i < |keys|
    ensures var k, hit := keys[i], FirstRow(rows, keys[i]);
      && Found(rows, keys[..i + 1], container) ==
           Found(rows, keys[..i], container) + (if hit.Some? then [RecordFor(rows[hit.value], container, k)] else [])
      && Missing(rows, keys[..i + 1]) ==
           Missing(rows, keys[..i]) + (if hit.None? then [k] else [])
  {
    assert keys[..i + 1][..i] == keys[..i];
  }

  /** There is one found record per key that has a row, built from that key's first row. */
  lemma {:induction false} FoundSpec(rows: seq<Row>, keys: seq<nat>, container: string)
    ensures |Found(rows, keys, container)| == |FoundKeys(rows, keys)|
    ensures forall m :: 0 <= m < |FoundKeys(rows, keys)| ==>
      var k := FoundKeys(rows, keys)[m];
      FirstRow(rows, k).Some? &&
      Found(rows, keys, container)[m] == RecordFor(rows[FirstRow(rows, k).value], container, k)
    decreases |keys|
  {
    if keys != [] {
      FoundSpec(rows, keys[..|keys| - 1], container);
    }
  }

  /**
   * Every key lands in exactly one of the two lists: the keys found and
   * the keys missing together are the keys, so the counts add up.
   */
  lemma {:induction false} Partition(rows: seq<Row>, keys: seq<nat>)
    ensures multiset(FoundKeys(rows, keys)) + multiset(Missing(rows, keys)) == multiset(keys)
    ensures forall k :: k in FoundKeys(rows, keys) ==> FirstRow(rows, k).Some?
    ensures forall k :: k in Missing(rows, keys) ==> FirstRow(rows, k).None?
    decreases |keys|
  {
    if keys != [] {
      var init := keys[..|keys| - 1];
      Partition(rows, init);
      assert keys == init + [keys[|keys| - 1]];
    }
  }

  /**
   * `coincidencias + len(folios_no_encontrados) == total_items`, and a key
   * is reported missing exactly when it is one of the keys and no row holds it.
   */
  lemma Accounting(rows: seq<Row>, keys: seq<nat>, container: string)
    ensures |Found(rows, keys, container)| + |Missing(rows, keys)| == |keys|
    ensures forall k :: k in Missing(rows, keys) <==>
      k in keys && forall j :: 0 <= j < |rows| ==> rows[j].folio != Some(k)
  {
    FoundSpec(rows, keys, container);
    Partition(rows, keys);
    assert |multiset(FoundKeys(rows, keys))| + |multiset(Missing(rows, keys))| == |multiset(keys)|;
    forall k | k in FoundKeys(rows, keys)
      ensures exists j :: 0 <= j < |rows| && rows[j].folio == Some(k)
    {
      var r := FirstRow(rows, k).value;
      assert rows[r].folio == Some(k);
    }
    forall k | k in keys && forall j :: 0 <= j < |rows| ==> rows[j].folio != Some(k)
      ensures k in Missing(rows, keys)
    {
      assert k in multiset(keys);
    }
    forall k | k in Missing(rows, keys)
      ensures k in keys
    {
      assert k in multiset(Missing(rows, keys));
      assert k in multiset(keys);
    }
  }

  /** A found key is one of the keys, and its record is built from the first row holding it. */
  lemma FoundIsFirstRow(rows: seq<Row>, keys: seq<nat>, container: string, m: nat)
    requires m < |FoundKeys(rows, keys)|
    ensures var k := FoundKeys(rows, keys)[m];
      && |Found(rows, keys, container)| == |FoundKeys(rows, keys)|
      && k in keys
      && exists r :: 0 <= r < |rows| && rows[r].folio == Some(k)
           && (forall j :: 0 <= j < r ==> rows[j].folio != Some(k))
           && Found(rows, keys, container)[m] == RecordFor(rows[r], container, k)
  {
    FoundSpec(rows, keys, container);
    Partition(rows, keys);
    var k := FoundKeys(rows, keys)[m];
    assert k in multiset(FoundKeys(rows, keys));
    assert k in multiset(keys);
    var r := FirstRow(rows, k).value;
    assert rows[r].folio == Some(k);
  }

  /** Missing keys keep the ascending order of the keys. */
  lemma {:induction false} MissingAscending(rows: seq<Row>, keys: seq<nat>)
    requires Extraction.Ascending(keys)
    ensures Extraction.Ascending(Missing(rows, keys))
    ensures forall k :: k in Missing(rows, keys) ==> k in keys
    decreases |keys|
  {
    if keys != [] {
      var init := keys[..|keys| - 1];
      assert Extraction.Ascending(init);
      MissingAscending(rows, init);
      var ms := Missing(rows, init);
      forall j | 0 <= j < |ms|
        ensures ms[j] < keys[|keys| - 1]
      {
        assert ms[j] in init;
      }
    }
  }

  /**
   * The label of a found record carries the container, the separator and
   * the key written in decimal without leading zeros, which reads back as
   * the key.
   */
  lemma LabelReadsBack(container: string, k: nat)
    ensures var l := Label(container, k);
      && l[..|container|] == container
      && l[|container|..|container| + 3] == LabelSeparator
      && IsDecimal(l[|container| + 3..])
      && DecimalValue(l[|container| + 3..]) == k
  {
    var l := Label(container, k);
    assert l[|container| + 3..] == ShowNat(k);
    DecimalValueOfShowNat(k);
  }

  /**
   * The key column's name: a column is accepted exactly when its name is
   * "folio" in any mix of small and capital letters, with only whitespace
   * around it.
   */
  lemma FolioNameSpec(c: string)
    ensures IsFolioName(c) <==> exists a: nat, b: nat :: SpacesAround(c, a, b) && FolioAnyCase(c[a..b])
  {
    if IsFolioName(c) {
      FolioNameSound(c);
    }
    if exists a: nat, b: nat :: SpacesAround(c, a, b) && FolioAnyCase(c[a..b]) {
      var a: nat, b: nat :| SpacesAround(c, a, b) && FolioAnyCase(c[a..b]);
      FolioNameComplete(c, a, b);
    }
  }

  /** An accepted name is "folio" in some mix of cases with only whitespace around it. */
  lemma FolioNameSound(c: string)
    requires IsFolioName(c)
    ensures exists a: nat, b: nat :: SpacesAround(c, a, b) && FolioAnyCase(c[a..b])
  {
    var l := Lower(c);
    var a, b := LeadEnd(l), TrailStart(l);
    assert a < b && Strip(l) == l[a..b] by {
      assert Strip(l) != [];
    }
    assert SpacesAround(c, a, b) by {
      LowerKeepsSpaces(c);
    }
    assert FolioAnyCase(c[a..b]) by {
      LowerSlice(c, a, b);
      LowerFolio(c[a..b]);
    }
  }

  /** "folio" in any mix of cases with only whitespace around it is accepted. */
  lemma FolioNameComplete(c: string, a: nat, b: nat)
    requires SpacesAround(c, a, b) && FolioAnyCase(c[a..b])
    ensures IsFolioName(c)
  {
    var l := Lower(c);
    assert l[a..b] == FolioName by {
      LowerSlice(c, a, b);
      LowerFolio(c[a..b]);
    }
    assert l[a] == 'f' && l[b - 1] == 'o' by {
      assert l[a..b][0] == l[a] && l[a..b][4] == l[b - 1];
    }
    assert SpacesAround(l, a, b) by {
      LowerKeepsSpaces(c);
    }
    StripExact(l, a, b);
  }

  /** A five-letter name lower-cases to "folio" exactly when it is "folio" in any mix of cases. */
  lemma LowerFolio(w: string)
    ensures FolioAnyCase(w) <==> Lower(w) == FolioName
  {
    if FolioAnyCase(w) {
      forall k | 0 <= k < |w|
        ensures Lower(w)[k] == FolioName[k]
      {
      }
    }
  }

  /** The record of a found key keeps the row's other cells and adds the label. */
  lemma RecordForSpec(row: Row, container: string, k: nat)
    ensures LabelColumn in RecordFor(row, container, k)
    ensures RecordFor(row, container, k)[LabelColumn] == Label(container, k)
    ensures forall c :: c in row.cells && c != LabelColumn ==> RecordFor(row, container, k)[c] == row.cells[c]
    ensures RecordFor(row, container, k).Keys == row.cells.Keys + {LabelColumn}
  {
  }
}
