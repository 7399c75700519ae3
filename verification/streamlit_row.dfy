/** Flattening of a group into one row of the classic schema in the Streamlit builder
    (`_build_model_row` in streamlit_app.py). The row dict is created from the schema keys,
    so its fields are in schema order; the function also returns how many variants past the
    fifth it dropped. */
module StreamlitRow {
  import opened Base
  import opened Text
  import opened Columns
  import opened Schema
  import opened Layout
  import opened StreamlitLookup
  import opened StreamlitPrice

  /** `variant.get(price_key)`: the raw cell, or `None` when the row lacks the column. */
  function RawCell(row: Row, col: string): (v: Option<string>)
    ensures v.Some? <==> col in row
  {
    if col in row then Some(row[col]) else None
  }

  /** The price of a variant: "" when there is no price column, since the slot is then
      never assigned. */
  function VariantPrice(v: Row, cm: ColumnMap, toFloat2: string -> Option<string>): (p: string)
    ensures Resolved(cm, Price).None? ==> p == ""
  {
    match Resolved(cm, Price)
    case None => ""
    case Some(col) => NormalizePrice(RawCell(v, col), toFloat2)
  }

  /** The four slot values a variant contributes: code, price, finish, image. */
  function VariantSlot(v: Row, cm: ColumnMap, toFloat2: string -> Option<string>): seq<string>
  {
    var sku := Value(v, cm, Sku);
    [sku, VariantPrice(v, cm, toFloat2), Value(v, cm, Fin), ImagePath(sku)]
  }

  /** What slot `i` (1-based) holds: the values of variant i, or four empty strings past
      the last variant. */
  function SlotFor(variants: seq<Row>, cm: ColumnMap, toFloat2: string -> Option<string>, i: nat): (r: seq<string>)
    ensures |r| == 4
  {
    if 1 <= i <= |variants| then VariantSlot(variants[i - 1], cm, toFloat2) else ["", "", "", ""]
  }

  /** The product fields taken from the main row. */
  function MainHead(main: Row, cm: ColumnMap): (h: seq<string>)
    ensures |h| == 7
  {
    var code := Value(main, cm, Sku);
    ["", Value(main, cm, Cat), ImagePath(code), SheetPath(code), Value(main, cm, Title), "", code]
  }

  /** The closing fields taken from the main row. */
  function MainTail(main: Row, cm: ColumnMap): (t: seq<string>)
    ensures |t| == 5
  {
    [Value(main, cm, Dim), Value(main, cm, Glass), Value(main, cm, Mat), Value(main, cm, Um), ""]
  }

  /** `max(0, n - 5)`: the number of variants that find no slot. */
  function Overflow(n: nat): (e: nat)
    ensures e > 0 <==> n > 5
    ensures e + (if n < 5 then n else 5) == n
  {
    if n > 5 then n - 5 else 0
  }

  /** `_build_model_row`: the row, whose product fields come from the main row and whose
      slots come from the first five variants, and the count of variants left out. */
  function BuildModelRow(main: Row, variants: seq<Row>, cm: ColumnMap, toFloat2: string -> Option<string>): (r: (Record, nat))
    ensures Keys(r.0) == ClassicColumns()
    ensures forall k :: 0 <= k < 7 ==> r.0[k].1 == MainHead(main, cm)[k]
    ensures forall i :: 1 <= i <= 5 ==> ClassicSlot(r.0, i) == SlotFor(variants, cm, toFloat2, i)
    ensures forall k :: 0 <= k < 5 ==> r.0[27 + k].1 == MainTail(main, cm)[k]
    ensures r.1 > 0 <==> |variants| > 5
    ensures r.1 + (if |variants| < 5 then |variants| else 5) == |variants|
  {
    (SlottedRecord(MainHead(main, cm), (i: nat) => SlotFor(variants, cm, toFloat2, i), MainTail(main, cm)), Overflow(|variants|))
  }

  /** "Codice Articolo" of the built row is the main row's stripped sku. */
  lemma BuiltRowCode(main: Row, variants: seq<Row>, cm: ColumnMap, toFloat2: string -> Option<string>)
    ensures GetOr(BuildModelRow(main, variants, cm, toFloat2).0, "Codice Articolo") == Value(main, cm, Sku)
  {
    var r := BuildModelRow(main, variants, cm, toFloat2).0;
    assert r[6].1 == MainHead(main, cm)[6];
    ClassicCodeLookup(r);
  }

  /** Slots are filled in variant order up to the fifth variant, and the rest stay blank. */
  lemma SlotsInOrder(main: Row, variants: seq<Row>, cm: ColumnMap, toFloat2: string -> Option<string>, i: nat)
    requires 1 <= i <= 5
    ensures var s := ClassicSlot(BuildModelRow(main, variants, cm, toFloat2).0, i);
      && (i <= |variants| ==> s[0] == Value(variants[i - 1], cm, Sku) && s[2] == Value(variants[i - 1], cm, Fin))
      && (i > |variants| ==> s == ["", "", "", ""])
  {
  }

  /** Without a price column every price slot is blank. */
  lemma NoPriceColumnNoPrices(main: Row, variants: seq<Row>, cm: ColumnMap, toFloat2: string -> Option<string>, i: nat)
    requires Resolved(cm, Price).None?
    requires 1 <= i <= 5
    ensures ClassicSlot(BuildModelRow(main, variants, cm, toFloat2).0, i)[1] == ""
  {
  }

  /** A slot's finish image is blank exactly when its code is. */
  lemma SlotImageBlankIffCodeBlank(main: Row, variants: seq<Row>, cm: ColumnMap, toFloat2: string -> Option<string>, i: nat)
    requires 1 <= i <= 5
    ensures var s := ClassicSlot(BuildModelRow(main, variants, cm, toFloat2).0, i);
      s[3] == "" <==> s[0] == ""
  {
  }

  /** Variants past the fifth leave no trace in the row, only in the count. */
  lemma ExtraVariantsIgnored(main: Row, variants: seq<Row>, cm: ColumnMap, toFloat2: string -> Option<string>)
    requires |variants| > 5
    ensures BuildModelRow(main, variants, cm, toFloat2).0 == BuildModelRow(main, variants[..5], cm, toFloat2).0
  {
    var f := (i: nat) => SlotFor(variants, cm, toFloat2, i);
    var g := (i: nat) => SlotFor(variants[..5], cm, toFloat2, i);
    SameFirstFive(variants, cm, toFloat2);
    SlotValuesAgree(f, g, 5);
  }

  /** The first five slots only look at the first five variants. */
  lemma SameFirstFive(variants: seq<Row>, cm: ColumnMap, toFloat2: string -> Option<string>)
    requires |variants| > 5
    ensures forall i :: 1 <= i <= 5 ==> SlotFor(variants, cm, toFloat2, i) == SlotFor(variants[..5], cm, toFloat2, i)
  {
    forall i | 1 <= i <= 5 ensures SlotFor(variants, cm, toFloat2, i) == SlotFor(variants[..5], cm, toFloat2, i) {
      assert variants[..5][i - 1] == variants[i - 1];
    }
  }
}
