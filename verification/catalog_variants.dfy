/** The variant fields of a stored catalog row: how many finishes it lists
    (`gcb_count_finishes`), its highest variant index (`gcb_max_variant_index`), the
    columns an export of such rows uses, and the projection of a row onto them. */
module CatalogVariants {
  import opened Base
  import opened Text
  import opened PhpText
  import opened Schema
  import opened CatalogModes

  // ---------- counting finishes ----------

  /** `cod<i>`. */
  function CodKey(i: nat): string
  {
    SlotKey("cod", i)
  }

  /** The first loop of `gcb_count_finishes` from index `i` on: while `cod<i>` is present
      (and at most up to `cod100`), count the ones whose trimmed value is not blank. */
  function ScanCount(data: Row, i: nat): (n: nat)
    requires i >= 1
    ensures n <= if i > 100 then 0 else 101 - i
    decreases 101 - i
  {
    if i > 100 || CodKey(i) !in data then 0
    else (if PhpTrim(data[CodKey(i)]) != "" then 1 else 0) + ScanCount(data, i + 1)
  }

  /** The classic fallback: how many of `cod1`..`cod5` are non-empty in PHP's sense once
      trimmed ("0" counts as empty). */
  function FallbackCount(data: Row, i: nat): (n: nat)
    requires 1 <= i <= 6
    ensures n <= 6 - i
    decreases 6 - i
  {
    if i == 6 then 0
    else (if !PhpEmpty(PhpTrim(Cell(data, CodKey(i)))) then 1 else 0) + FallbackCount(data, i + 1)
  }

  /** `($data['_gcb_mode'] ?? 'classic') === 'classic'`. */
  predicate IsClassicRow(data: Row)
  {
    (if "_gcb_mode" in data then data["_gcb_mode"] else "classic") == "classic"
  }

  /** `gcb_count_finishes`: the non-blank codes of the run `cod1`, `cod2`, ... of present
      keys; for a classic row where that finds none, the non-empty ones among `cod1`..`cod5`. */
  function CountFinishes(data: Row): (n: nat)
    ensures n <= 100
    ensures n == 0 ==> ScanCount(data, 1) == 0
  {
    var c := ScanCount(data, 1);
    if c == 0 && IsClassicRow(data) then FallbackCount(data, 1) else c
  }

  /** When the scan finds nothing from `i` on and `cod<i>`..`cod5` are all present, they are
      all blank, so the fallback adds nothing either. */
  lemma {:induction false} NoScanNoFallback(data: Row, i: nat)
    requires 1 <= i <= 6
    requires forall k :: i <= k <= 5 ==> CodKey(k) in data
    requires ScanCount(data, i) == 0
    ensures FallbackCount(data, i) == 0
    decreases 6 - i
  {
    if i < 6 {
      assert PhpTrim(data[CodKey(i)]) == "";
      NoScanNoFallback(data, i + 1);
    }
  }

  /** A row that has `cod1`..`cod5` (as every built classic row has) counts exactly the
      non-blank codes of its run of present keys. */
  lemma CountOfFullRow(data: Row)
    requires forall k :: 1 <= k <= 5 ==> CodKey(k) in data
    ensures CountFinishes(data) == ScanCount(data, 1)
  {
    if ScanCount(data, 1) == 0 {
      NoScanNoFallback(data, 1);
    }
  }

  /** A classic row without `cod1` is counted by the fallback alone. */
  lemma CountWithoutFirstCode(data: Row)
    requires CodKey(1) !in data && IsClassicRow(data)
    ensures CountFinishes(data) == FallbackCount(data, 1)
  {
  }

  /** `cod1`..`cod<L>` are all present and the run stops there: `cod<L+1>` is missing, or
      `L` is the cap of 100. */
  ghost predicate LeadingRun(data: Row, L: nat)
  {
    && L <= 100
    && (forall k :: 1 <= k <= L ==> CodKey(k) in data)
    && (L == 100 || CodKey(L + 1) !in data)
  }

  /** `cod<k>` is present and not blank once trimmed. */
  predicate FilledCode(data: Row, k: nat)
  {
    CodKey(k) in data && PhpTrim(data[CodKey(k)]) != ""
  }

  /** `cod<k>`, trimmed, is non-empty in PHP's sense (a missing key reads as ""). */
  predicate NonEmptyCode(data: Row, k: nat)
  {
    !PhpEmpty(PhpTrim(Cell(data, CodKey(k))))
  }

  /** The indexes from `i` to `L` whose code is filled. */
  ghost function FilledCodes(data: Row, i: nat, L: nat): set<nat>
  {
    set k: nat | i <= k <= L && FilledCode(data, k)
  }

  /** The indexes from `i` to 5 whose code is non-empty. */
  ghost function NonEmptyCodes(data: Row, i: nat): set<nat>
  {
    set k: nat | i <= k <= 5 && NonEmptyCode(data, k)
  }

  /** Every row has a leading run of present codes. */
  lemma {:induction false} LeadingRunFrom(data: Row, i: nat)
    requires 1 <= i <= 101 && forall k :: 1 <= k < i ==> CodKey(k) in data
    ensures exists L :: LeadingRun(data, L)
    decreases 101 - i
  {
    if i == 101 {
      assert LeadingRun(data, 100);
    } else if CodKey(i) !in data {
      assert LeadingRun(data, i - 1);
    } else {
      LeadingRunFrom(data, i + 1);
    }
  }

  /** The filled codes from `i` on: `i` itself, if filled, and those from `i + 1` on. */
  lemma SplitCount(A: set<nat>, i: nat, rest: set<nat>, filled: bool)
    requires forall x :: x in A <==> (x == i && filled) || x in rest
    requires forall x :: x in rest ==> x > i
    ensures |A| == (if filled then 1 else 0) + |rest|
  {
    if filled {
      assert A == {i} + rest;
    } else {
      assert A == rest;
    }
  }

  /** The scan from `i` on counts the filled codes of the leading run from `i` on. */
  lemma {:induction false} ScanCountFrom(data: Row, i: nat, L: nat)
    requires LeadingRun(data, L) && 1 <= i <= L + 1
    ensures ScanCount(data, i) == |FilledCodes(data, i, L)|
    decreases 101 - i
  {
    if i == L + 1 {
      assert FilledCodes(data, i, L) == {};
    } else {
      assert CodKey(i) in data;
      ScanCountFrom(data, i + 1, L);
      SplitCount(FilledCodes(data, i, L), i, FilledCodes(data, i + 1, L), FilledCode(data, i));
    }
  }

  /** The scan counts the filled codes of the leading run. */
  lemma ScanCountIsFilled(data: Row, L: nat)
    requires LeadingRun(data, L)
    ensures ScanCount(data, 1) == |FilledCodes(data, 1, L)|
  {
    ScanCountFrom(data, 1, L);
  }

  /** The fallback from `i` on counts the non-empty codes among `cod<i>`..`cod5`. */
  lemma {:induction false} FallbackCountIsNonEmpty(data: Row, i: nat)
    requires 1 <= i <= 6
    ensures FallbackCount(data, i) == |NonEmptyCodes(data, i)|
    decreases 6 - i
  {
    if i == 6 {
      assert NonEmptyCodes(data, i) == {};
    } else {
      FallbackCountIsNonEmpty(data, i + 1);
      SplitCount(NonEmptyCodes(data, i), i, NonEmptyCodes(data, i + 1), NonEmptyCode(data, i));
    }
  }

  /** `gcb_count_finishes` as counts: the filled codes of the leading run of present keys, or,
      for a classic row where those are none, the non-empty ones among `cod1`..`cod5`. */
  lemma CountFinishesIsCount(data: Row, L: nat)
    requires LeadingRun(data, L)
    ensures |FilledCodes(data, 1, L)| > 0 || !IsClassicRow(data) ==> CountFinishes(data) == |FilledCodes(data, 1, L)|
    ensures |FilledCodes(data, 1, L)| == 0 && IsClassicRow(data) ==> CountFinishes(data) == |NonEmptyCodes(data, 1)|
  {
    ScanCountIsFilled(data, L);
    FallbackCountIsNonEmpty(data, 1);
  }

  // ---------- the highest variant index ----------

  /** The index of a key that `/^cod(\d+)$/` matches (`$` also matches before a final
      newline), read as a decimal number; None for any other key. */
  function KeyIndex(k: string): (r: Option<nat>)
    ensures r.Some? ==> StartsWith(k, "cod")
  {
    if |k| >= 3 && k[..3] == "cod" then
      var rest := k[3..];
      var digits := if |rest| > 0 && rest[|rest| - 1] == '\n' then rest[..|rest| - 1] else rest;
      if |digits| > 0 && AllDigits(digits) then Some(DigitsValue(digits)) else None
    else None
  }

  /** The key of slot `n` is read back as index `n`. */
  lemma KeyIndexOfCodKey(n: nat)
    ensures KeyIndex(CodKey(n)) == Some(n)
  {
    var k := CodKey(n);
    assert k[..3] == "cod" && k[3..] == NatStr(n);
    DigitsValueOfNatStr(n);
  }

  /** `k` names a variant code of `row` with a non-blank value. */
  predicate IsFilledVariantKey(row: Row, k: string)
  {
    k in row && KeyIndex(k).Some? && PhpTrim(row[k]) != ""
  }

  /** `gcb_max_variant_index`: the largest index among the filled variant keys of the row,
      0 when there is none. */
  method MaxVariantIndex(row: Row) returns (m: nat)
    ensures forall k :: IsFilledVariantKey(row, k) ==> KeyIndex(k).value <= m
    ensures m > 0 ==> exists k :: IsFilledVariantKey(row, k) && KeyIndex(k).value == m
    ensures m == 0 <==> forall k :: IsFilledVariantKey(row, k) ==> KeyIndex(k).value == 0
  {
    m := 0;
    var keys := row.Keys;
    while keys != {}
      invariant keys <= row.Keys
      invariant forall k :: k in row.Keys - keys && IsFilledVariantKey(row, k) ==> KeyIndex(k).value <= m
      invariant m > 0 ==> exists k :: k in row.Keys && IsFilledVariantKey(row, k) && KeyIndex(k).value == m
      decreases keys
    {
      var k :| k in keys;
      if IsFilledVariantKey(row, k) && KeyIndex(k).value > m {
        m := KeyIndex(k).value;
      }
      keys := keys - {k};
    }
  }

  // ---------- export ----------

  /** `n` is the slot count of a morsetti/tubi export of `rows`: the largest index of a filled
      variant key of any row, and 1 when that is smaller. */
  ghost predicate ExportSlotCount(rows: seq<Row>, n: nat)
  {
    && n >= 1
    && (forall r, k :: 0 <= r < |rows| && IsFilledVariantKey(rows[r], k) ==> KeyIndex(k).value <= n)
    && (n == 1 || exists r, k :: 0 <= r < |rows| && IsFilledVariantKey(rows[r], k) && KeyIndex(k).value == n)
  }

  /** The slot count is determined by the rows. */
  lemma ExportSlotCountUnique(rows: seq<Row>, n: nat, m: nat)
    requires ExportSlotCount(rows, n) && ExportSlotCount(rows, m)
    ensures n == m
  {
  }

  /** The columns of an export (the export branch of the shortcode): classic rows use the
      classic schema; morsetti/tubi rows use the dynamic schema sized by the largest variant
      index of any row, at least 1. No rows is an error (None). */
  method ExportColumns(mode: Mode, rows: seq<Row>) returns (cols: Option<seq<string>>)
    ensures cols.None? <==> rows == []
    ensures cols.Some? && !IsVariantMode(mode) ==> cols.value == ClassicColumns()
    ensures cols.Some? && IsVariantMode(mode) ==>
      forall r, k :: 0 <= r < |rows| && IsFilledVariantKey(rows[r], k) && KeyIndex(k).value >= 1 ==>
        CodKey(KeyIndex(k).value) in cols.value
    ensures cols.Some? && IsVariantMode(mode) ==> exists n: nat :: ExportSlotCount(rows, n) && cols.value == DynamicColumns(n)
  {
    if rows == [] {
      return None;
    }
    if !IsVariantMode(mode) {
      return Some(ClassicColumns());
    }
    var maxN := 0;
    var i := 0;
    while i < |rows|
      invariant i <= |rows|
      invariant forall r, k :: 0 <= r < i && IsFilledVariantKey(rows[r], k) ==> KeyIndex(k).value <= maxN
      invariant maxN > 0 ==> exists r, k :: 0 <= r < i && IsFilledVariantKey(rows[r], k) && KeyIndex(k).value == maxN
    {
      var m := MaxVariantIndex(rows[i]);
      maxN := if m > maxN then m else maxN;
      i := i + 1;
    }
    if maxN < 1 {
      maxN := 1;
    }
    assert ExportSlotCount(rows, maxN);
    var c := DynamicColumns(maxN);
    forall r, k | 0 <= r < |rows| && IsFilledVariantKey(rows[r], k) && KeyIndex(k).value >= 1
      ensures CodKey(KeyIndex(k).value) in c
    {
      var n := KeyIndex(k).value;
      assert c[7 + 3 * (n - 1)] == SlotKey("cod", n);
    }
    return Some(c);
  }

  /** The line `gcb_write_csv_semicolon` writes for a row: the row's value under each
      column, "" where it has none. */
  function ProjectRow(cols: seq<string>, row: Row): (line: seq<string>)
    ensures |line| == |cols|
  {
    seq(|cols|, j requires 0 <= j < |cols| => Cell(row, cols[j]))
  }

  /** The associative array of a record: a later field of the same name overwrites the
      value of an earlier one. */
  function RowOf(r: Record): (row: Row)
    ensures forall k :: k in row <==> exists i :: 0 <= i < |r| && r[i].0 == k
    decreases |r|
  {
    if |r| == 0 then map[]
    else
      var prev := RowOf(r[..|r| - 1]);
      assert forall i :: 0 <= i < |r| - 1 ==> r[..|r| - 1][i] == r[i];
      prev[r[|r| - 1].0 := r[|r| - 1].1]
  }

  /** In a record with distinct names, each field's value is what the array holds. */
  lemma {:induction false} RowOfDistinct(r: Record, i: nat)
    requires i < |r| && Distinct(Keys(r))
    ensures r[i].0 in RowOf(r) && RowOf(r)[r[i].0] == r[i].1
    decreases |r|
  {
    if i < |r| - 1 {
      var p := r[..|r| - 1];
      assert Keys(p) == Keys(r)[..|r| - 1];
      assert p[i] == r[i];
      RowOfDistinct(p, i);
      assert r[|r| - 1].0 != r[i].0 by {
        assert Keys(r)[i] != Keys(r)[|r| - 1];
      }
    }
  }

  /** Round trip: exporting a record under its own column list writes its values back in
      order. */
  lemma ProjectRecord(cols: seq<string>, vals: seq<string>)
    requires |cols| == |vals| && Distinct(cols)
    ensures ProjectRow(cols, RowOf(Zip(cols, vals))) == vals
  {
    var r := Zip(cols, vals);
    forall j | 0 <= j < |cols| ensures ProjectRow(cols, RowOf(r))[j] == vals[j] {
      RowOfDistinct(r, j);
    }
  }
}
