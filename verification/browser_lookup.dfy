/** The lookup half of the browser builder (app.js): column resolution, cell access through
    the column map, the blank-parent test, the adjacency-based search for the main row of
    a code, and collection of the main row's variant run. The source table and the column
    map, global state in the source, are explicit parameters here. */
module BrowserLookup {
  import opened Base
  import opened Text
  import opened Columns

  // ---------- column resolution ----------

  /** `findColumn`: an exact pass over every candidate first; only when no candidate matches
      any header exactly, a substring pass. Both passes go candidate by candidate and return
      the first header that matches. */
  function FindColumn(columns: seq<string>, candidates: seq<string>): (r: Option<string>)
    ensures |columns| == 0 ==> r.None?
    ensures r.None? <==> NoHitBefore(columns, candidates, SubstringMatch, |candidates|)
    ensures r.Some? ==> r.value in columns
    ensures !NoHitBefore(columns, candidates, ExactMatch, |candidates|) ==>
      exists k: nat, i: nat :: IsFirstHit(columns, candidates, ExactMatch, k, i) && r == Some(columns[i])
    ensures NoHitBefore(columns, candidates, ExactMatch, |candidates|) && r.Some? ==>
      exists k: nat, i: nat :: IsFirstHit(columns, candidates, SubstringMatch, k, i) && r == Some(columns[i])
  {
    if |columns| == 0 then None
    else match FirstHit(columns, candidates, ExactMatch)
      case Some(p) =>
        ExactIsSubstring(columns[p.1], candidates[p.0]);
        Some(columns[p.1])
      case None =>
        match FirstHit(columns, candidates, SubstringMatch)
        case Some(p) => Some(columns[p.1])
        case None => None
  }

  /** `findColumns`: every role resolved against the header names of the first row. */
  function FindColumns(columns: seq<string>): (m: ColumnMap)
  {
    ColumnMap(
      FindColumn(columns, Candidates(Sku)), FindColumn(columns, Candidates(Parent)),
      FindColumn(columns, Candidates(Title)), FindColumn(columns, Candidates(Cat)),
      FindColumn(columns, Candidates(Price)), FindColumn(columns, Candidates(Fin)),
      FindColumn(columns, Candidates(Um)), FindColumn(columns, Candidates(Mat)),
      FindColumn(columns, Candidates(Dim)), FindColumn(columns, Candidates(Glass)))
  }

  /** An exact header wins over an earlier header that only contains the candidate. */
  lemma FindColumnExactBeatsEarlierSubstring()
    ensures FindColumn(["my parent_sku", "parent"], Candidates(Parent)) == Some("parent")
  {
    var cols := ["my parent_sku", "parent"];
    var cands := Candidates(Parent);
    assert Lower("parent") == "parent";
    assert ExactMatch(cols[1], cands[2]);
    assert Lower("my parent_sku") == "my parent_sku";
    assert Lower("parent_sku") == "parent_sku";
    assert Lower("parent sku") == "parent sku";
    assert !ExactMatch(cols[0], cands[0]) && !ExactMatch(cols[1], cands[0]);
    assert !ExactMatch(cols[0], cands[1]) && !ExactMatch(cols[1], cands[1]);
    assert !ExactMatch(cols[0], cands[2]);
  }

  // ---------- cell access ----------

  /** The header a role reads from: none when no map is loaded, the role is unresolved, or it
      resolved to the empty header name (a falsy column in `getValue`). */
  function ResolvedColumn(cm: Option<ColumnMap>, role: Role): Option<string>
  {
    match cm
    case None => None
    case Some(m) => Resolved(m, role)
  }

  /** `getValue`: the trimmed cell of the role's column, or "" when there is none. */
  function GetValue(row: Row, cm: Option<ColumnMap>, role: Role): (v: string)
    ensures ResolvedColumn(cm, role).None? ==> v == ""
  {
    match ResolvedColumn(cm, role)
    case None => ""
    case Some(col) => Strip(Cell(row, col), IsJsSpace)
  }

  /** A resolved value is the cell with its JavaScript whitespace trimmed at both ends. */
  lemma GetValueIsTrimmedCell(row: Row, cm: Option<ColumnMap>, role: Role)
    requires ResolvedColumn(cm, role).Some?
    ensures GetValue(row, cm, role) == Trim(Cell(row, ResolvedColumn(cm, role).value), IsJsSpace)
  {
    StripIsTrim(Cell(row, ResolvedColumn(cm, role).value), IsJsSpace);
  }

  /** Parent-reference values that `isParentEmpty` treats as blank, after lower-casing. */
  function BlankParentValues(): seq<string>
  {
    ["", "nan", "none", "null", "na"]
  }

  /** `isParentEmpty`: the row is a main row. */
  predicate IsParentEmpty(row: Row, cm: Option<ColumnMap>)
  {
    var parent := GetValue(row, cm, Parent);
    parent == "" || Lower(parent) in BlankParentValues()
  }

  /** The blank-parent test read off the raw cell: an unresolved parent column makes every
      row a main row; otherwise the trimmed, lower-cased cell is one of the placeholders. */
  lemma IsParentEmptyMeaning(row: Row, cm: Option<ColumnMap>)
    ensures ResolvedColumn(cm, Parent).None? ==> IsParentEmpty(row, cm)
    ensures ResolvedColumn(cm, Parent).Some? ==>
      (IsParentEmpty(row, cm) <==>
        Lower(Trim(Cell(row, ResolvedColumn(cm, Parent).value), IsJsSpace)) in ["", "nan", "none", "null", "na"])
  {
    if ResolvedColumn(cm, Parent).Some? {
      GetValueIsTrimmedCell(row, cm, Parent);
    }
  }

  // ---------- main-row search ----------

  /** The row's sku equals `code` up to case. */
  predicate SkuMatches(row: Row, cm: Option<ColumnMap>, code: string)
  {
    EqualsIgnoreCase(GetValue(row, cm, Sku), code)
  }

  /** Row `m` is the first row whose sku matches `code`. */
  predicate IsFirstSkuMatch(rows: seq<Row>, cm: Option<ColumnMap>, code: string, m: nat)
  {
    m < |rows| && SkuMatches(rows[m], cm, code) && forall j :: 0 <= j < m ==> !SkuMatches(rows[j], cm, code)
  }

  lemma FirstSkuMatchUnique(rows: seq<Row>, cm: Option<ColumnMap>, code: string, a: nat, b: nat)
    requires IsFirstSkuMatch(rows, cm, code, a) && IsFirstSkuMatch(rows, cm, code, b)
    ensures a == b
  {
  }

  /** No row's sku matches `code`. */
  predicate NoSkuMatch(rows: seq<Row>, cm: Option<ColumnMap>, code: string)
  {
    forall j :: 0 <= j < |rows| ==> !SkuMatches(rows[j], cm, code)
  }

  /** Row `r` is the nearest main row at or before row `m`. */
  predicate IsNearestMain(rows: seq<Row>, cm: Option<ColumnMap>, m: nat, r: nat)
  {
    r <= m < |rows| && IsParentEmpty(rows[r], cm) && forall j :: r < j <= m ==> !IsParentEmpty(rows[j], cm)
  }

  /** No row at or before row `m` is a main row. */
  predicate NoMainUpTo(rows: seq<Row>, cm: Option<ColumnMap>, m: nat)
  {
    m < |rows| && forall j :: 0 <= j <= m ==> !IsParentEmpty(rows[j], cm)
  }

  /** `indexOfMainForCode`: only the first row whose sku matches counts; its main row is
      the nearest row at or before it with a blank parent; -1 when the code is empty, no sku
      matches, or no such main row exists. */
  function IndexOfMainForCode(rows: seq<Row>, cm: Option<ColumnMap>, code: string): (r: int)
    ensures -1 <= r < |rows|
    ensures r >= 0 ==> code != "" && exists m: nat :: IsFirstSkuMatch(rows, cm, code, m) && IsNearestMain(rows, cm, m, r)
    ensures r == -1 <==>
      || code == ""
      || NoSkuMatch(rows, cm, code)
      || exists m: nat :: IsFirstSkuMatch(rows, cm, code, m) && NoMainUpTo(rows, cm, m)
  {
    if code == "" then -1
    else match FirstWhere(rows, row => SkuMatches(row, cm, code), 0)
      case None => -1
      case Some(m) =>
        assert IsFirstSkuMatch(rows, cm, code, m);
        match LastWhereAtOrBefore(rows, row => IsParentEmpty(row, cm), m)
        case None =>
          assert NoMainUpTo(rows, cm, m);
          -1
        case Some(i) =>
          assert IsNearestMain(rows, cm, m, i);
          forall m': nat | IsFirstSkuMatch(rows, cm, code, m') ensures !NoMainUpTo(rows, cm, m') {
            FirstSkuMatchUnique(rows, cm, code, m, m');
          }
          i
  }

  // ---------- group collection ----------

  /** The main-row test as a function value. */
  function MainTest(cm: Option<ColumnMap>): Row -> bool
  {
    row => IsParentEmpty(row, cm)
  }

  /** `collectGroup`: the row at `start` with the run of rows after it that stops before the
      next main row or at the end of the table. */
  function CollectGroup(rows: seq<Row>, cm: Option<ColumnMap>, start: nat): (g: Group)
    requires start < |rows|
    ensures g.main == rows[start]
    ensures start + 1 + |g.variants| <= |rows|
    ensures g.variants == rows[start + 1 .. start + 1 + |g.variants|]
  {
    var n := RunUntil(rows, MainTest(cm), start + 1);
    Group(rows[start], rows[start + 1 .. start + 1 + n])
  }

  /** A group has as many variants as the run after its main row is long. */
  lemma GroupLength(rows: seq<Row>, cm: Option<ColumnMap>, start: nat)
    requires start < |rows|
    ensures |CollectGroup(rows, cm, start).variants| == RunUntil(rows, MainTest(cm), start + 1)
  {
  }

  /** The rows of the run after `start` are variant rows. */
  lemma RunRowsAreVariants(rows: seq<Row>, cm: Option<ColumnMap>, start: nat)
    requires start < |rows|
    ensures forall j :: start < j <= start + RunUntil(rows, MainTest(cm), start + 1) ==> !IsParentEmpty(rows[j], cm)
  {
    RunUntilSkips(rows, MainTest(cm), start + 1);
    forall j | start < j <= start + RunUntil(rows, MainTest(cm), start + 1) ensures !IsParentEmpty(rows[j], cm) {
      assert !MainTest(cm)(rows[j]);
    }
  }

  /** The row after the run, if any, is a main row. */
  lemma RunEndsAtMainRow(rows: seq<Row>, cm: Option<ColumnMap>, start: nat)
    requires start < |rows|
    ensures var k := start + 1 + RunUntil(rows, MainTest(cm), start + 1);
      k < |rows| ==> IsParentEmpty(rows[k], cm)
  {
    RunUntilStops(rows, MainTest(cm), start + 1);
  }

  /** The rows of a group after its main row are all variant rows. */
  lemma GroupVariantsAreVariantRows(rows: seq<Row>, cm: Option<ColumnMap>, start: nat)
    requires start < |rows|
    ensures var g := CollectGroup(rows, cm, start);
      forall j :: 0 <= j < |g.variants| ==> !IsParentEmpty(g.variants[j], cm)
  {
    var g := CollectGroup(rows, cm, start);
    GroupLength(rows, cm, start);
    RunRowsAreVariants(rows, cm, start);
    forall j | 0 <= j < |g.variants| ensures !IsParentEmpty(g.variants[j], cm) {
      assert g.variants[j] == rows[start + 1 + j];
    }
  }

  /** The row after a group, if any, is a main row. */
  lemma GroupStopsAtMain(rows: seq<Row>, cm: Option<ColumnMap>, start: nat)
    requires start < |rows|
    ensures var g := CollectGroup(rows, cm, start);
      start + 1 + |g.variants| == |rows| || IsParentEmpty(rows[start + 1 + |g.variants|], cm)
  {
    RunEndsAtMainRow(rows, cm, start);
    GroupLength(rows, cm, start);
  }

  /** The group of the nearest main row above a row reaches down to it. */
  lemma GroupReaches(rows: seq<Row>, cm: Option<ColumnMap>, s: nat, m: nat)
    requires IsNearestMain(rows, cm, m, s)
    ensures m <= s + |CollectGroup(rows, cm, s).variants|
  {
    GroupStopsAtMain(rows, cm, s);
  }

  /** A group reaches every row up to the next main row. */
  lemma GroupCoversRun(rows: seq<Row>, cm: Option<ColumnMap>, s: nat, m: nat)
    requires IsNearestMain(rows, cm, m, s)
    ensures rows[m] == CollectGroup(rows, cm, s).main || rows[m] in CollectGroup(rows, cm, s).variants
  {
    var g := CollectGroup(rows, cm, s);
    GroupReaches(rows, cm, s, m);
    if s < m {
      assert rows[m] == g.variants[m - s - 1];
    }
  }

  /** The group found for a code holds the row that matched it: either as the main row or
      among the variants. */
  lemma LookupGroupHoldsMatchedRow(rows: seq<Row>, cm: Option<ColumnMap>, code: string, m: nat)
    requires IsFirstSkuMatch(rows, cm, code, m)
    requires IndexOfMainForCode(rows, cm, code) >= 0
    ensures var s := IndexOfMainForCode(rows, cm, code);
      rows[m] == CollectGroup(rows, cm, s).main || rows[m] in CollectGroup(rows, cm, s).variants
  {
    var s := IndexOfMainForCode(rows, cm, code);
    var m' :| IsFirstSkuMatch(rows, cm, code, m') && IsNearestMain(rows, cm, m', s);
    FirstSkuMatchUnique(rows, cm, code, m, m');
    GroupCoversRun(rows, cm, s, m);
  }
}
