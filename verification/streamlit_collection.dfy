/** The preview list of the Streamlit builder: `add_by_code` and `clear_all` in
    streamlit_app.py, with the session state an explicit value. Messages, the export
    payload reset and the widgets are left out; the outcome names the message shown.

    The duplicate check of `add_by_code` compares the stored codes with the code as typed,
    before the lookup, while the stored code is the main row's sku. Adding a main row's
    code and then one of its variants' codes therefore appends the same group twice.
    `AddByCodeAsWritten` models the function as it stands and `TypedCodeCheckAdmitsDuplicate`
    exhibits the duplicate; `AddByCode` checks the code of the row about to be appended and
    keeps the preview free of duplicates (`AddByCodeKeepsCodesUnique`). */
module StreamlitCollection {
  import opened Base
  import opened Text
  import opened Columns
  import opened StreamlitLookup
  import opened StreamlitRow

  datatype Session = Session(sourceRows: seq<Row>, columnMap: ColumnMap, modelRows: seq<Record>)

  datatype AddOutcome =
    | InvalidCode          // the stripped code is empty
    | AlreadyPresent       // a preview row already carries the code
    | NotFound             // no main row for the code
    | Added(extra: nat)    // appended; `extra` variants past the fifth were dropped

  /** `row["Codice Articolo"]` of a preview row. */
  function RowCode(r: Record): string
  {
    GetOr(r, "Codice Articolo")
  }

  /** Some preview row carries exactly `code`. */
  predicate HasCode(rows: seq<Record>, code: string)
  {
    exists i :: 0 <= i < |rows| && RowCode(rows[i]) == code
  }

  /** No two preview rows carry the same code. */
  predicate UniqueCodes(rows: seq<Record>)
  {
    forall i, j :: 0 <= i < j < |rows| ==> RowCode(rows[i]) != RowCode(rows[j])
  }

  /** The group of main row `index` flattened by `_build_model_row`. */
  function GroupRow(rows: seq<Row>, cm: ColumnMap, index: nat, toFloat2: string -> Option<string>): (Record, nat)
    requires index < |rows|
  {
    var g := CollectGroup(index, rows, cm);
    BuildModelRow(g.main, g.variants, cm, toFloat2)
  }

  /** `add_by_code` as written: the typed code is checked against the stored codes before
      the lookup. */
  function AddByCodeAsWritten(s: Session, code: string, toFloat2: string -> Option<string>): (res: (AddOutcome, Session))
    ensures res.0 == InvalidCode <==> Trim(code, IsPySpace) == ""
    ensures res.0 == AlreadyPresent <==> Trim(code, IsPySpace) != "" && HasCode(s.modelRows, Trim(code, IsPySpace))
    ensures res.0 == NotFound <==>
      && Trim(code, IsPySpace) != ""
      && !HasCode(s.modelRows, Trim(code, IsPySpace))
      && IndexOfMainForCode(Trim(code, IsPySpace), s.sourceRows, s.columnMap).None?
    ensures !res.0.Added? ==> res.1 == s
    ensures res.0.Added? ==>
      var idx := IndexOfMainForCode(Trim(code, IsPySpace), s.sourceRows, s.columnMap);
      && idx.Some? && idx.value < |s.sourceRows|
      && res.1 == s.(modelRows := s.modelRows + [GroupRow(s.sourceRows, s.columnMap, idx.value, toFloat2).0])
      && res.0.extra == GroupRow(s.sourceRows, s.columnMap, idx.value, toFloat2).1
  {
    var trimmed := Trim(code, IsPySpace);
    if trimmed == "" then (InvalidCode, s)
    else if HasCode(s.modelRows, trimmed) then (AlreadyPresent, s)
    else match IndexOfMainForCode(trimmed, s.sourceRows, s.columnMap)
      case None => (NotFound, s)
      case Some(index) =>
        var built := GroupRow(s.sourceRows, s.columnMap, index, toFloat2);
        (Added(built.1), s.(modelRows := s.modelRows + [built.0]))
  }

  /** The lookup in a two-row table, a main row with sku `a` followed by one of its variants
      with sku `b`: the main row's code finds the main row ... */
  lemma MainCodeFound(p: Row, v: Row, cm: ColumnMap, a: string)
    requires a != "" && SkuIs(p, cm, a) && IsParentEmpty(p, cm)
    ensures IndexOfMainForCode(a, [p, v], cm) == Some(0)
  {
    ValueIsStripped(p, cm, Sku);
    assert IsFirstSku([p, v], cm, a, 0);
    IndexOfMainIs(a, [p, v], cm, 0, 0);
  }

  /** ... and so does the variant's code. */
  lemma VariantCodeFound(p: Row, v: Row, cm: ColumnMap, a: string, b: string)
    requires a != "" && b != "" && a != b
    requires SkuIs(p, cm, a) && SkuIs(v, cm, b)
    requires IsParentEmpty(p, cm) && !IsParentEmpty(v, cm)
    ensures IndexOfMainForCode(b, [p, v], cm) == Some(0)
  {
    ValueIsStripped(v, cm, Sku);
    assert [p, v][0] == p && [p, v][1] == v;
    assert !SkuIs(p, cm, b);
    assert IsFirstSku([p, v], cm, b, 1);
    assert IsNearestMain([p, v], cm, 1, 0);
    IndexOfMainIs(b, [p, v], cm, 1, 0);
  }

  /** Both lookups of the duplicate scenario land on the main row. */
  lemma TwoRowLookup(p: Row, v: Row, cm: ColumnMap, a: string, b: string)
    requires a != "" && b != "" && a != b
    requires SkuIs(p, cm, a) && SkuIs(v, cm, b)
    requires IsParentEmpty(p, cm) && !IsParentEmpty(v, cm)
    ensures Trim(a, IsPySpace) == a && Trim(b, IsPySpace) == b
    ensures IndexOfMainForCode(a, [p, v], cm) == Some(0)
    ensures IndexOfMainForCode(b, [p, v], cm) == Some(0)
  {
    ValueIsStripped(p, cm, Sku);
    ValueIsStripped(v, cm, Sku);
    MainCodeFound(p, v, cm, a);
    VariantCodeFound(p, v, cm, a, b);
  }

  /** An add whose typed code is not stored and resolves to main row `index` appends that
      row's group. */
  lemma AddAsWrittenAppends(s: Session, code: string, index: nat, toFloat2: string -> Option<string>)
    requires code != "" && Trim(code, IsPySpace) == code
    requires !HasCode(s.modelRows, code)
    requires IndexOfMainForCode(code, s.sourceRows, s.columnMap) == Some(index)
    ensures index < |s.sourceRows|
    ensures AddByCodeAsWritten(s, code, toFloat2).1.modelRows
      == s.modelRows + [GroupRow(s.sourceRows, s.columnMap, index, toFloat2).0]
    ensures AddByCodeAsWritten(s, code, toFloat2).1.sourceRows == s.sourceRows
    ensures AddByCodeAsWritten(s, code, toFloat2).1.columnMap == s.columnMap
  {
  }

  /** The row built from the main row `p` of the scenario carries `a`. */
  lemma MainGroupRowCode(p: Row, v: Row, cm: ColumnMap, a: string, toFloat2: string -> Option<string>)
    requires SkuIs(p, cm, a)
    ensures RowCode(GroupRow([p, v], cm, 0, toFloat2).0) == a
  {
    var g := CollectGroup(0, [p, v], cm);
    BuiltRowCode(g.main, g.variants, cm, toFloat2);
  }

  /** The duplicate the typed-code check lets through: in a table of a main row with sku
      `a` followed by its variant with sku `b`, adding `a` to an empty preview appends the
      main row's group, whose code is `a`; adding `b` afterwards appends the same row again. */
  lemma TypedCodeCheckAdmitsDuplicate(p: Row, v: Row, cm: ColumnMap, a: string, b: string, toFloat2: string -> Option<string>)
    requires a != "" && b != "" && a != b
    requires SkuIs(p, cm, a) && SkuIs(v, cm, b)
    requires IsParentEmpty(p, cm) && !IsParentEmpty(v, cm)
    ensures var row := GroupRow([p, v], cm, 0, toFloat2).0;
      var s1 := AddByCodeAsWritten(Session([p, v], cm, []), a, toFloat2).1;
      && RowCode(row) == a
      && s1.modelRows == [row]
      && AddByCodeAsWritten(s1, b, toFloat2).1.modelRows == [row, row]
  {
    TwoRowLookup(p, v, cm, a, b);
    MainGroupRowCode(p, v, cm, a, toFloat2);
    var row := GroupRow([p, v], cm, 0, toFloat2).0;
    var s0 := Session([p, v], cm, []);
    AddAsWrittenAppends(s0, a, 0, toFloat2);
    var s1 := AddByCodeAsWritten(s0, a, toFloat2).1;
    SecondAddAppends(s1, a, b, row, toFloat2);
  }

  lemma SecondAddAppends(s1: Session, a: string, b: string, row: Record, toFloat2: string -> Option<string>)
    requires s1.modelRows == [] + [row] && RowCode(row) == a && a != b && b != "" && Trim(b, IsPySpace) == b
    requires IndexOfMainForCode(b, s1.sourceRows, s1.columnMap) == Some(0)
    requires 0 < |s1.sourceRows| && row == GroupRow(s1.sourceRows, s1.columnMap, 0, toFloat2).0
    ensures s1.modelRows == [row]
    ensures AddByCodeAsWritten(s1, b, toFloat2).1.modelRows == [row, row]
  {
    SingleRowCodes(s1.modelRows, row, a, b);
    AddAsWrittenAppends(s1, b, 0, toFloat2);
  }

  /** A preview holding one row with code `a` has no row with another code `b`. */
  lemma SingleRowCodes(rows: seq<Record>, row: Record, a: string, b: string)
    requires rows == [] + [row] && RowCode(row) == a && a != b
    ensures rows == [row] && rows + [row] == [row, row]
    ensures !HasCode(rows, b)
  {
  }

  /** `add_by_code` with the duplicate check moved after the lookup, on the code of the row
      about to be appended. */
  function AddByCode(s: Session, code: string, toFloat2: string -> Option<string>): (res: (AddOutcome, Session))
    ensures res.0 == InvalidCode <==> Trim(code, IsPySpace) == ""
    ensures res.0 == NotFound <==>
      Trim(code, IsPySpace) != "" && IndexOfMainForCode(Trim(code, IsPySpace), s.sourceRows, s.columnMap).None?
    ensures !res.0.Added? ==> res.1 == s
    ensures res.0.Added? ==>
      var idx := IndexOfMainForCode(Trim(code, IsPySpace), s.sourceRows, s.columnMap);
      && idx.Some? && idx.value < |s.sourceRows|
      && !HasCode(s.modelRows, RowCode(GroupRow(s.sourceRows, s.columnMap, idx.value, toFloat2).0))
      && res.1 == s.(modelRows := s.modelRows + [GroupRow(s.sourceRows, s.columnMap, idx.value, toFloat2).0])
      && res.0.extra == GroupRow(s.sourceRows, s.columnMap, idx.value, toFloat2).1
    ensures res.0 == AlreadyPresent ==>
      var idx := IndexOfMainForCode(Trim(code, IsPySpace), s.sourceRows, s.columnMap);
      idx.Some? && idx.value < |s.sourceRows| && HasCode(s.modelRows, RowCode(GroupRow(s.sourceRows, s.columnMap, idx.value, toFloat2).0))
  {
    var trimmed := Trim(code, IsPySpace);
    if trimmed == "" then (InvalidCode, s)
    else match IndexOfMainForCode(trimmed, s.sourceRows, s.columnMap)
      case None => (NotFound, s)
      case Some(index) =>
        var built := GroupRow(s.sourceRows, s.columnMap, index, toFloat2);
        if HasCode(s.modelRows, RowCode(built.0)) then (AlreadyPresent, s)
        else (Added(built.1), s.(modelRows := s.modelRows + [built.0]))
  }

  /** Appending a row whose code is new keeps the codes unique. */
  lemma AppendKeepsCodesUnique(rows: seq<Record>, row: Record)
    requires UniqueCodes(rows)
    requires !HasCode(rows, RowCode(row))
    ensures UniqueCodes(rows + [row])
  {
    var r := rows + [row];
    forall i, j | 0 <= i < j < |r| ensures RowCode(r[i]) != RowCode(r[j]) {
      assert r[i] == rows[i];
      if j < |rows| {
        assert r[j] == rows[j];
      }
    }
  }

  /** The corrected add keeps the preview free of duplicate codes. */
  lemma AddByCodeKeepsCodesUnique(s: Session, code: string, toFloat2: string -> Option<string>)
    requires UniqueCodes(s.modelRows)
    ensures UniqueCodes(AddByCode(s, code, toFloat2).1.modelRows)
  {
    var res := AddByCode(s, code, toFloat2);
    if res.0.Added? {
      var idx := IndexOfMainForCode(Trim(code, IsPySpace), s.sourceRows, s.columnMap);
      AppendKeepsCodesUnique(s.modelRows, GroupRow(s.sourceRows, s.columnMap, idx.value, toFloat2).0);
    }
  }

  /** The second add of the duplicate scenario is refused by the corrected add. */
  lemma VariantCodeOfPresentGroupRefused(p: Row, v: Row, cm: ColumnMap, a: string, b: string, toFloat2: string -> Option<string>)
    requires a != "" && b != "" && a != b
    requires SkuIs(p, cm, a) && SkuIs(v, cm, b)
    requires IsParentEmpty(p, cm) && !IsParentEmpty(v, cm)
    ensures var row := GroupRow([p, v], cm, 0, toFloat2).0;
      AddByCode(Session([p, v], cm, [row]), b, toFloat2) == (AlreadyPresent, Session([p, v], cm, [row]))
  {
    TwoRowLookup(p, v, cm, a, b);
    var row := GroupRow([p, v], cm, 0, toFloat2).0;
    RefusedWhenGroupStored(Session([p, v], cm, [row]), b, 0, toFloat2);
  }

  /** An add whose code resolves to a main row whose group is already stored is refused. */
  lemma RefusedWhenGroupStored(s: Session, code: string, index: nat, toFloat2: string -> Option<string>)
    requires code != "" && Trim(code, IsPySpace) == code
    requires IndexOfMainForCode(code, s.sourceRows, s.columnMap) == Some(index)
    requires index < |s.sourceRows| && GroupRow(s.sourceRows, s.columnMap, index, toFloat2).0 in s.modelRows
    ensures AddByCode(s, code, toFloat2) == (AlreadyPresent, s)
  {
    var row := GroupRow(s.sourceRows, s.columnMap, index, toFloat2).0;
    var i :| 0 <= i < |s.modelRows| && s.modelRows[i] == row;
    assert HasCode(s.modelRows, RowCode(row));
  }

  /** `clear_all`: the preview is empty afterwards and the source stays loaded. */
  function ClearAll(s: Session): (r: Session)
    ensures r.modelRows == []
    ensures r.sourceRows == s.sourceRows && r.columnMap == s.columnMap
  {
    s.(modelRows := [])
  }
}
