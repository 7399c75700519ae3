/** The preview collection of the browser builder: adding a group by code (`addByCode`),
    removing a row (`removeRow`) and clearing (`clearAll`) in app.js. The global `state` is
    an explicit session value; rendering, messages and local storage are left out, and the
    outcome names the message the source shows. */
module BrowserCollection {
  import opened Base
  import opened Text
  import opened Columns
  import opened BrowserLookup
  import opened BrowserRow

  datatype Session = Session(sourceRows: seq<Row>, columnMap: Option<ColumnMap>, modelRows: seq<Record>)

  datatype AddOutcome =
    | InvalidCode      // the trimmed code is empty
    | NoSource         // no source table or no column map loaded
    | NotFound         // no main row for the code
    | EmptyParentSku   // the main row found has an empty sku
    | AlreadyPresent   // a preview row already carries the main row's code, up to case
    | Added(truncated: bool)  // appended; `truncated` when variants past the fifth were dropped

  /** The article code of a preview row. */
  function RowCode(r: Record): string
  {
    GetOr(r, "Codice Articolo")
  }

  /** Some preview row carries `code` up to case. */
  predicate HasCode(rows: seq<Record>, code: string)
  {
    exists i :: 0 <= i < |rows| && EqualsIgnoreCase(RowCode(rows[i]), code)
  }

  /** The invariant the duplicate check keeps: every preview row has a code, and no two rows
      have the same code up to case. */
  predicate UniqueCodes(rows: seq<Record>)
  {
    && (forall i :: 0 <= i < |rows| ==> RowCode(rows[i]) != "")
    && (forall i, j :: 0 <= i < j < |rows| ==> !EqualsIgnoreCase(RowCode(rows[i]), RowCode(rows[j])))
  }

  /** The checks `addByCode` makes before the lookup pass: a non-blank code and a loaded source. */
  predicate Ready(s: Session, trimmed: string)
  {
    trimmed != "" && |s.sourceRows| > 0 && s.columnMap.Some?
  }

  /** `addByCode`: checks in source order, then the group of the main row found for the
      trimmed code is flattened and appended. Each outcome holds exactly when the checks
      before it pass and its own fails; every outcome but `Added` leaves the session as it
      was. */
  function AddByCode(s: Session, code: string, toFixed2: string -> string): (res: (AddOutcome, Session))
    ensures res.0 == InvalidCode <==> Trim(code, IsJsSpace) == ""
    ensures res.0 == NoSource <==> Trim(code, IsJsSpace) != "" && (|s.sourceRows| == 0 || s.columnMap.None?)
    ensures var idx := IndexOfMainForCode(s.sourceRows, s.columnMap, Trim(code, IsJsSpace));
      res.0 == NotFound <==> Ready(s, Trim(code, IsJsSpace)) && idx == -1
    ensures var idx := IndexOfMainForCode(s.sourceRows, s.columnMap, Trim(code, IsJsSpace));
      res.0 == EmptyParentSku <==>
        Ready(s, Trim(code, IsJsSpace)) && idx != -1 && GetValue(s.sourceRows[idx], s.columnMap, Sku) == ""
    ensures var idx := IndexOfMainForCode(s.sourceRows, s.columnMap, Trim(code, IsJsSpace));
      res.0 == AlreadyPresent <==>
        && Ready(s, Trim(code, IsJsSpace)) && idx != -1
        && var main := GetValue(s.sourceRows[idx], s.columnMap, Sku);
        && main != "" && HasCode(s.modelRows, main)
    ensures var idx := IndexOfMainForCode(s.sourceRows, s.columnMap, Trim(code, IsJsSpace));
      res.0.Added? <==>
        && Ready(s, Trim(code, IsJsSpace)) && idx != -1
        && var main := GetValue(s.sourceRows[idx], s.columnMap, Sku);
        && main != "" && !HasCode(s.modelRows, main)
    ensures !res.0.Added? ==> res.1 == s
    ensures res.0.Added? ==>
      var idx := IndexOfMainForCode(s.sourceRows, s.columnMap, Trim(code, IsJsSpace));
      && 0 <= idx < |s.sourceRows|
      && var g := CollectGroup(s.sourceRows, s.columnMap, idx);
      && res.1 == s.(modelRows := s.modelRows + [BuildModelRow(g.main, g.variants, s.columnMap, toFixed2)])
      && res.0.truncated == (|g.variants| > 5)
  {
    var trimmed := Trim(code, IsJsSpace);
    if trimmed == "" then (InvalidCode, s)
    else if |s.sourceRows| == 0 || s.columnMap.None? then (NoSource, s)
    else
      var index := IndexOfMainForCode(s.sourceRows, s.columnMap, trimmed);
      if index == -1 then (NotFound, s)
      else
        var g := CollectGroup(s.sourceRows, s.columnMap, index);
        var main := GetValue(g.main, s.columnMap, Sku);
        if main == "" then (EmptyParentSku, s)
        else if HasCode(s.modelRows, main) then (AlreadyPresent, s)
        else
          var row := BuildModelRow(g.main, g.variants, s.columnMap, toFixed2);
          (Added(|g.variants| > 5), s.(modelRows := s.modelRows + [row]))
  }

  /** Appending a row whose code is new and non-empty keeps the codes unique. */
  lemma AppendKeepsCodesUnique(rows: seq<Record>, row: Record)
    requires UniqueCodes(rows)
    requires RowCode(row) != "" && !HasCode(rows, RowCode(row))
    ensures UniqueCodes(rows + [row])
  {
    var r := rows + [row];
    forall i, j | 0 <= i < j < |r| ensures !EqualsIgnoreCase(RowCode(r[i]), RowCode(r[j])) {
      assert r[i] == rows[i];
      if j < |rows| {
        assert r[j] == rows[j];
      }
    }
  }

  /** Adding by code keeps the preview codes unique. */
  lemma AddByCodeKeepsCodesUnique(s: Session, code: string, toFixed2: string -> string)
    requires UniqueCodes(s.modelRows)
    ensures UniqueCodes(AddByCode(s, code, toFixed2).1.modelRows)
  {
    var res := AddByCode(s, code, toFixed2);
    if res.0.Added? {
      var idx := IndexOfMainForCode(s.sourceRows, s.columnMap, Trim(code, IsJsSpace));
      var g := CollectGroup(s.sourceRows, s.columnMap, idx);
      BuiltRowCode(g.main, g.variants, s.columnMap, toFixed2);
      AppendKeepsCodesUnique(s.modelRows, BuildModelRow(g.main, g.variants, s.columnMap, toFixed2));
    }
  }

  /** After a successful add the row for the code is in the preview: the row the code
      matched belongs to the group that was appended. */
  lemma AddedGroupHoldsCode(s: Session, code: string, toFixed2: string -> string, m: nat)
    requires AddByCode(s, code, toFixed2).0.Added?
    requires IsFirstSkuMatch(s.sourceRows, s.columnMap, Trim(code, IsJsSpace), m)
    ensures var idx := IndexOfMainForCode(s.sourceRows, s.columnMap, Trim(code, IsJsSpace));
      var g := CollectGroup(s.sourceRows, s.columnMap, idx);
      s.sourceRows[m] == g.main || s.sourceRows[m] in g.variants
  {
    LookupGroupHoldsMatchedRow(s.sourceRows, s.columnMap, Trim(code, IsJsSpace), m);
  }

  /** The start position `Array.prototype.splice` derives from `index`: counted from the end
      when negative, clamped to the bounds. */
  function SpliceStart(len: nat, index: int): (k: nat)
    ensures k <= len
    ensures 0 <= index <= len ==> k == index
    ensures -(len as int) <= index < 0 ==> k as int == len + index
  {
    if index < 0 then (if len + index < 0 then 0 else len + index)
    else if index > len then len
    else index
  }

  /** `removeRow`: `splice(index, 1)` on the preview rows. */
  function RemoveRow(rows: seq<Record>, index: int): (r: seq<Record>)
    ensures SpliceStart(|rows|, index) < |rows| ==> |r| == |rows| - 1
    ensures SpliceStart(|rows|, index) == |rows| ==> r == rows
    ensures var k := SpliceStart(|rows|, index);
      k < |rows| ==>
        (forall i :: 0 <= i < k ==> r[i] == rows[i]) && (forall i :: k <= i < |r| ==> r[i] == rows[i + 1])
  {
    var k := SpliceStart(|rows|, index);
    if k < |rows| then rows[..k] + rows[k + 1..] else rows
  }

  /** Removing a row keeps the preview codes unique. */
  lemma RemoveRowKeepsCodesUnique(rows: seq<Record>, index: int)
    requires UniqueCodes(rows)
    ensures UniqueCodes(RemoveRow(rows, index))
  {
    var r := RemoveRow(rows, index);
    var k := SpliceStart(|rows|, index);
    if k < |rows| {
      forall i | 0 <= i < |r| ensures r[i] == rows[if i < k then i else i + 1] {
      }
      forall i, j | 0 <= i < j < |r| ensures !EqualsIgnoreCase(RowCode(r[i]), RowCode(r[j])) {
        var i' := if i < k then i else i + 1;
        var j' := if j < k then j else j + 1;
        assert r[i] == rows[i'] && r[j] == rows[j'] && i' < j';
      }
    }
  }

  /** `clearAll`: the preview is empty afterwards, and the source table stays loaded. */
  function ClearAll(s: Session): (r: Session)
    ensures r.modelRows == []
    ensures r.sourceRows == s.sourceRows && r.columnMap == s.columnMap
  {
    if |s.modelRows| == 0 then s else s.(modelRows := [])
  }
}
