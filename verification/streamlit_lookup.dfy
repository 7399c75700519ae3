/** The lookup half of the Streamlit builder (streamlit_app.py): column resolution that tries
    exact then substring matching candidate by candidate, cell access with Python `strip`,
    the blank-parent test without the "na" placeholder, the case-sensitive search for the
    main row of a code, and collection of the variant run. The column map is the one
    loading produced; loading itself is left out. */
module StreamlitLookup {
  import opened Base
  import opened Text
  import opened Columns
  import BrowserLookup

  // ---------- column resolution ----------

  /** The column `_find_column` settles on for one candidate: the first exact match, or
      failing that the first substring match. */
  function CandidateHit(columns: seq<string>, cand: string): (r: Option<nat>)
    ensures r.None? <==> forall j :: 0 <= j < |columns| ==> !SubstringMatch(columns[j], cand)
    ensures r.Some? ==> r.value < |columns|
    ensures r.Some? ==>
      || IsFirstIndex(columns, cand, ExactMatch, r.value)
      || ((forall j :: 0 <= j < |columns| ==> !ExactMatch(columns[j], cand))
          && IsFirstIndex(columns, cand, SubstringMatch, r.value))
  {
    match FirstIndex(columns, cand, ExactMatch)
    case Some(i) =>
      ExactIsSubstring(columns[i], cand);
      Some(i)
    case None => FirstIndex(columns, cand, SubstringMatch)
  }

  predicate HasCandidateHit(columns: seq<string>, cand: string)
  {
    CandidateHit(columns, cand).Some?
  }

  /** `_find_column`: the first candidate that matches any column, exactly or as a
      substring, decides; `None` when no candidate matches at all. */
  function FindColumn(columns: seq<string>, candidates: seq<string>): (r: Option<string>)
    ensures r.None? <==> NoHitBefore(columns, candidates, SubstringMatch, |candidates|)
    ensures r.Some? ==> r.value in columns
    ensures r.Some? ==> exists k: nat ::
      && k < |candidates|
      && NoHitBefore(columns, candidates, SubstringMatch, k)
      && CandidateHit(columns, candidates[k]).Some?
      && r.value == columns[CandidateHit(columns, candidates[k]).value]
  {
    match FirstWhere(candidates, c => HasCandidateHit(columns, c), 0)
    case None => None
    case Some(k) =>
      var i := CandidateHit(columns, candidates[k]).value;
      Some(columns[i])
  }

  /** `_find_columns`: every role resolved against the header names. */
  function FindColumns(columns: seq<string>): ColumnMap
  {
    ColumnMap(
      FindColumn(columns, Candidates(Sku)), FindColumn(columns, Candidates(Parent)),
      FindColumn(columns, Candidates(Title)), FindColumn(columns, Candidates(Cat)),
      FindColumn(columns, Candidates(Price)), FindColumn(columns, Candidates(Fin)),
      FindColumn(columns, Candidates(Um)), FindColumn(columns, Candidates(Mat)),
      FindColumn(columns, Candidates(Dim)), FindColumn(columns, Candidates(Glass)))
  }

  /** With a single candidate the two resolvers agree: the interleaving only matters when a
      later candidate matches exactly and an earlier one only as a substring. */
  lemma SingleCandidateAgrees(columns: seq<string>, cand: string)
    ensures FindColumn(columns, [cand]) == BrowserLookup.FindColumn(columns, [cand])
  {
    var cands := [cand];
    match FirstIndex(columns, cand, ExactMatch)
    case Some(i) =>
      assert IsFirstHit(columns, cands, ExactMatch, 0, i);
    case None =>
      assert NoHitBefore(columns, cands, ExactMatch, 1);
      match FirstIndex(columns, cand, SubstringMatch)
      case Some(i) =>
        assert IsFirstHit(columns, cands, SubstringMatch, 0, i);
      case None =>
  }

  /** "my parent_sku" contains the first parent candidate. */
  lemma FirstParentCandidateHit()
    ensures CandidateHit(["my parent_sku", "parent"], "parent_sku") == Some(0)
  {
    var col := "my parent_sku";
    var cand := "parent_sku";
    assert Lower(col) == col;
    assert Lower(cand) == cand;
    assert !ExactMatch(col, cand) && !ExactMatch("parent", cand);
    assert StartsWith(col[3..], cand);
    assert Contains(col[3..], cand);
    assert col[3..] == col[1..][1..][1..];
    assert Contains(col[1..][1..], cand);
    assert Contains(col[1..], cand);
    assert SubstringMatch(col, cand);
  }

  /** A substring hit on an earlier candidate beats an exact hit on a later one, so the two
      builders resolve the parent column of this header row differently. */
  lemma EarlierSubstringBeatsLaterExact()
    ensures FindColumn(["my parent_sku", "parent"], Candidates(Parent)) == Some("my parent_sku")
    ensures BrowserLookup.FindColumn(["my parent_sku", "parent"], Candidates(Parent)) == Some("parent")
  {
    FirstParentCandidateHit();
    assert HasCandidateHit(["my parent_sku", "parent"], Candidates(Parent)[0]);
    BrowserLookup.FindColumnExactBeatsEarlierSubstring();
  }

  // ---------- cell access ----------

  /** `str(row.get(key, "")).strip() if key else ""`: the stripped cell of the role's
      column, or "" when the role has no column. */
  function Value(row: Row, cm: ColumnMap, role: Role): (v: string)
    ensures Resolved(cm, role).None? ==> v == ""
  {
    match Resolved(cm, role)
    case None => ""
    case Some(col) => Strip(Cell(row, col), IsPySpace)
  }

  /** A resolved value is the cell with its Python whitespace trimmed at both ends. */
  lemma ValueIsTrimmedCell(row: Row, cm: ColumnMap, role: Role)
    requires Resolved(cm, role).Some?
    ensures Value(row, cm, role) == Trim(Cell(row, Resolved(cm, role).value), IsPySpace)
  {
    StripIsTrim(Cell(row, Resolved(cm, role).value), IsPySpace);
  }

  /** A cell value is already stripped. */
  lemma ValueIsStripped(row: Row, cm: ColumnMap, role: Role)
    ensures Trim(Value(row, cm, role), IsPySpace) == Value(row, cm, role)
  {
    if Resolved(cm, role).Some? {
      ValueIsTrimmedCell(row, cm, role);
      TrimIdempotent(Cell(row, Resolved(cm, role).value), IsPySpace);
    }
  }

  /** Parent-reference values `_is_parent_empty` treats as blank, after lower-casing; "na"
      is not among them. */
  function BlankParentValues(): seq<string>
  {
    ["", "nan", "none", "null"]
  }

  /** `_is_parent_empty`: the row is a main row. */
  predicate IsParentEmpty(row: Row, cm: ColumnMap)
  {
    Resolved(cm, Parent).None? || Lower(Value(row, cm, Parent)) in BlankParentValues()
  }

  /** "NA" is not a blank placeholder here. */
  lemma NaIsNotBlank()
    ensures Lower("NA") !in BlankParentValues()
  {
    assert Lower("NA") == "na";
  }

  /** A row whose parent cell reads "NA" is a variant row here. */
  lemma NaParentIsVariant(row: Row, cm: ColumnMap)
    requires Resolved(cm, Parent) == Some("parent") && "parent" in row && row["parent"] == "NA"
    ensures !IsParentEmpty(row, cm)
  {
    TrimNoop("NA", IsPySpace);
    NaIsNotBlank();
  }

  /** The same row is a main row for the browser builder. */
  lemma NaParentDiffers(row: Row, cm: ColumnMap)
    requires Resolved(cm, Parent) == Some("parent") && "parent" in row && row["parent"] == "NA"
    ensures !IsParentEmpty(row, cm)
    ensures BrowserLookup.IsParentEmpty(row, Some(cm))
  {
    NaParentIsVariant(row, cm);
    TrimNoop("NA", IsJsSpace);
    assert Lower("NA") == "na";
  }

  // ---------- main-row search ----------

  /** The row's stripped sku equals the needle exactly. */
  predicate SkuIs(row: Row, cm: ColumnMap, needle: string)
  {
    Value(row, cm, Sku) == needle
  }

  /** Row `m` is the first row whose sku is `needle`. */
  predicate IsFirstSku(rows: seq<Row>, cm: ColumnMap, needle: string, m: nat)
  {
    m < |rows| && SkuIs(rows[m], cm, needle) && forall j :: 0 <= j < m ==> !SkuIs(rows[j], cm, needle)
  }

  lemma FirstSkuUnique(rows: seq<Row>, cm: ColumnMap, needle: string, a: nat, b: nat)
    requires IsFirstSku(rows, cm, needle, a) && IsFirstSku(rows, cm, needle, b)
    ensures a == b
  {
  }

  /** No row's sku is `needle`. */
  predicate NoSku(rows: seq<Row>, cm: ColumnMap, needle: string)
  {
    forall j :: 0 <= j < |rows| ==> !SkuIs(rows[j], cm, needle)
  }

  /** Row `r` is the nearest main row at or before row `m`. */
  predicate IsNearestMain(rows: seq<Row>, cm: ColumnMap, m: nat, r: nat)
  {
    r <= m < |rows| && IsParentEmpty(rows[r], cm) && forall j :: r < j <= m ==> !IsParentEmpty(rows[j], cm)
  }

  /** No row at or before row `m` is a main row. */
  predicate NoMainUpTo(rows: seq<Row>, cm: ColumnMap, m: nat)
  {
    m < |rows| && forall j :: 0 <= j <= m ==> !IsParentEmpty(rows[j], cm)
  }

  /** `_index_of_main_for_code`: `None` without a sku column; otherwise the first row whose
      stripped sku equals the stripped code (case-sensitively) decides, and its main row is
      the nearest row at or before it with a blank parent. */
  function IndexOfMainForCode(code: string, rows: seq<Row>, cm: ColumnMap): (r: Option<nat>)
    ensures r.Some? ==>
      && Resolved(cm, Sku).Some?
      && r.value < |rows|
      && exists m: nat :: IsFirstSku(rows, cm, Trim(code, IsPySpace), m) && IsNearestMain(rows, cm, m, r.value)
    ensures r.None? <==>
      || Resolved(cm, Sku).None?
      || NoSku(rows, cm, Trim(code, IsPySpace))
      || exists m: nat :: IsFirstSku(rows, cm, Trim(code, IsPySpace), m) && NoMainUpTo(rows, cm, m)
  {
    var needle := Trim(code, IsPySpace);
    if Resolved(cm, Sku).None? then None
    else match FirstWhere(rows, row => SkuIs(row, cm, needle), 0)
      case None => None
      case Some(m) =>
        assert IsFirstSku(rows, cm, needle, m);
        match LastWhereAtOrBefore(rows, row => IsParentEmpty(row, cm), m)
        case None =>
          assert NoMainUpTo(rows, cm, m);
          None
        case Some(i) =>
          assert IsNearestMain(rows, cm, m, i);
          forall m': nat | IsFirstSku(rows, cm, needle, m') ensures !NoMainUpTo(rows, cm, m') {
            FirstSkuUnique(rows, cm, needle, m, m');
          }
          Some(i)
  }

  lemma PlainSkuValue(row: Row, cm: ColumnMap)
    requires Resolved(cm, Sku) == Some("sku") && "sku" in row && row["sku"] == "AB1"
    ensures Value(row, cm, Sku) == "AB1" && Trim("AB1", IsPySpace) == "AB1"
  {
    TrimNoop("AB1", IsPySpace);
  }

  lemma NearestMainUnique(rows: seq<Row>, cm: ColumnMap, m: nat, a: nat, b: nat)
    requires IsNearestMain(rows, cm, m, a) && IsNearestMain(rows, cm, m, b)
    ensures a == b
  {
  }

  /** The lookup finds the nearest main row of the first row whose sku is the stripped code. */
  lemma IndexOfMainIs(code: string, rows: seq<Row>, cm: ColumnMap, m: nat, r: nat)
    requires Resolved(cm, Sku).Some?
    requires IsFirstSku(rows, cm, Trim(code, IsPySpace), m) && IsNearestMain(rows, cm, m, r)
    ensures IndexOfMainForCode(code, rows, cm) == Some(r)
  {
    var needle := Trim(code, IsPySpace);
    assert !NoSku(rows, cm, needle);
    forall m': nat | IsFirstSku(rows, cm, needle, m') ensures !NoMainUpTo(rows, cm, m') {
      FirstSkuUnique(rows, cm, needle, m, m');
    }
    var x := IndexOfMainForCode(code, rows, cm);
    var m': nat :| IsFirstSku(rows, cm, needle, m') && IsNearestMain(rows, cm, m', x.value);
    FirstSkuUnique(rows, cm, needle, m, m');
    NearestMainUnique(rows, cm, m, r, x.value);
  }

  /** Only the exact spelling finds a row: in a table whose single row has the sku "AB1",
      the code "ab1" is not found ... */
  lemma OtherCaseNotFound(row: Row, cm: ColumnMap)
    requires Resolved(cm, Sku) == Some("sku") && "sku" in row && row["sku"] == "AB1"
    ensures IndexOfMainForCode("ab1", [row], cm).None?
  {
    PlainSkuValue(row, cm);
    assert Trim("ab1", IsPySpace) == "ab1" by {
      TrimNoop("ab1", IsPySpace);
    }
    assert !SkuIs(row, cm, "ab1");
  }

  /** ... while "AB1" finds the row when it is a main row. */
  lemma ExactCaseFound(row: Row, cm: ColumnMap)
    requires Resolved(cm, Sku) == Some("sku") && "sku" in row && row["sku"] == "AB1"
    requires IsParentEmpty(row, cm)
    ensures IndexOfMainForCode("AB1", [row], cm) == Some(0)
  {
    PlainSkuValue(row, cm);
    assert IsFirstSku([row], cm, "AB1", 0);
    assert IsNearestMain([row], cm, 0, 0);
  }

  // ---------- group collection ----------

  /** The main-row test as a function value. */
  function MainTest(cm: ColumnMap): Row -> bool
  {
    row => IsParentEmpty(row, cm)
  }

  /** `_collect_group`: the row at `start` with the run of rows after it that stops before the
      next main row or at the end of the table. */
  function CollectGroup(start: nat, rows: seq<Row>, cm: ColumnMap): (g: Group)
    requires start < |rows|
    ensures g.main == rows[start]
    ensures start + 1 + |g.variants| <= |rows|
    ensures g.variants == rows[start + 1 .. start + 1 + |g.variants|]
  {
    var n := RunUntil(rows, MainTest(cm), start + 1);
    Group(rows[start], rows[start + 1 .. start + 1 + n])
  }

  /** A group has as many variants as the run after its main row is long. */
  lemma GroupLength(start: nat, rows: seq<Row>, cm: ColumnMap)
    requires start < |rows|
    ensures |CollectGroup(start, rows, cm).variants| == RunUntil(rows, MainTest(cm), start + 1)
  {
  }

  /** The rows of the run after `start` are variant rows. */
  lemma RunRowsAreVariants(rows: seq<Row>, cm: ColumnMap, start: nat)
    requires start < |rows|
    ensures forall j :: start < j <= start + RunUntil(rows, MainTest(cm), start + 1) ==> !IsParentEmpty(rows[j], cm)
  {
    RunUntilSkips(rows, MainTest(cm), start + 1);
    forall j | start < j <= start + RunUntil(rows, MainTest(cm), start + 1) ensures !IsParentEmpty(rows[j], cm) {
      assert !MainTest(cm)(rows[j]);
    }
  }

  /** The row after the run, if any, is a main row. */
  lemma RunEndsAtMainRow(rows: seq<Row>, cm: ColumnMap, start: nat)
    requires start < |rows|
    ensures var k := start + 1 + RunUntil(rows, MainTest(cm), start + 1);
      k < |rows| ==> IsParentEmpty(rows[k], cm)
  {
    RunUntilStops(rows, MainTest(cm), start + 1);
  }

  /** The rows of a group after its main row are all variant rows. */
  lemma GroupVariantsAreVariantRows(start: nat, rows: seq<Row>, cm: ColumnMap)
    requires start < |rows|
    ensures var g := CollectGroup(start, rows, cm);
      forall j :: 0 <= j < |g.variants| ==> !IsParentEmpty(g.variants[j], cm)
  {
    var g := CollectGroup(start, rows, cm);
    GroupLength(start, rows, cm);
    RunRowsAreVariants(rows, cm, start);
    forall j | 0 <= j < |g.variants| ensures !IsParentEmpty(g.variants[j], cm) {
      assert g.variants[j] == rows[start + 1 + j];
    }
  }

  /** The row after a group, if any, is a main row. */
  lemma GroupStopsAtMain(start: nat, rows: seq<Row>, cm: ColumnMap)
    requires start < |rows|
    ensures var g := CollectGroup(start, rows, cm);
      start + 1 + |g.variants| == |rows| || IsParentEmpty(rows[start + 1 + |g.variants|], cm)
  {
    RunEndsAtMainRow(rows, cm, start);
    GroupLength(start, rows, cm);
  }

  /** The group of the nearest main row above a row reaches down to it. */
  lemma GroupReaches(rows: seq<Row>, cm: ColumnMap, s: nat, m: nat)
    requires IsNearestMain(rows, cm, m, s)
    ensures m <= s + |CollectGroup(s, rows, cm).variants|
  {
    GroupStopsAtMain(s, rows, cm);
  }

  /** A group reaches every row up to the next main row. */
  lemma GroupCoversRun(rows: seq<Row>, cm: ColumnMap, s: nat, m: nat)
    requires IsNearestMain(rows, cm, m, s)
    ensures rows[m] == CollectGroup(s, rows, cm).main || rows[m] in CollectGroup(s, rows, cm).variants
  {
    var g := CollectGroup(s, rows, cm);
    GroupReaches(rows, cm, s, m);
    if s < m {
      assert rows[m] == g.variants[m - s - 1];
    }
  }

  /** The group found for a code holds the row that matched it. */
  lemma LookupGroupHoldsMatchedRow(code: string, rows: seq<Row>, cm: ColumnMap, m: nat)
    requires IsFirstSku(rows, cm, Trim(code, IsPySpace), m)
    requires IndexOfMainForCode(code, rows, cm).Some?
    ensures var s := IndexOfMainForCode(code, rows, cm).value;
      rows[m] == CollectGroup(s, rows, cm).main || rows[m] in CollectGroup(s, rows, cm).variants
  {
    var s := IndexOfMainForCode(code, rows, cm).value;
    var needle := Trim(code, IsPySpace);
    var m' :| IsFirstSku(rows, cm, needle, m') && IsNearestMain(rows, cm, m', s);
    FirstSkuUnique(rows, cm, needle, m, m');
    GroupCoversRun(rows, cm, s, m);
  }
}
