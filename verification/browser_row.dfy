/** Flattening of a group into one row of the classic schema (`buildModelRow` in app.js).
    The row starts with every schema field set to "" and only existing fields are assigned,
    so its fields stay in schema order. */
module BrowserRow {
  import opened Base
  import opened Text
  import opened Columns
  import opened Schema
  import opened BrowserLookup
  import opened BrowserPrice
  import opened Layout

  /** The four slot values a variant contributes: code, price, finish, image. */
  function VariantSlot(v: Row, cm: Option<ColumnMap>, toFixed2: string -> string): seq<string>
  {
    var sku := GetValue(v, cm, Sku);
    [sku, NormalizePrice(GetValue(v, cm, Price), toFixed2), GetValue(v, cm, Fin), ImagePath(sku)]
  }

  /** What slot `i` (1-based) holds: the values of variant i, or four empty strings past
      the last variant. */
  function SlotFor(variants: seq<Row>, cm: Option<ColumnMap>, toFixed2: string -> string, i: nat): (r: seq<string>)
    ensures |r| == 4
  {
    if 1 <= i <= |variants| then VariantSlot(variants[i - 1], cm, toFixed2) else ["", "", "", ""]
  }

  /** The product fields taken from the main row. */
  function MainHead(main: Row, cm: Option<ColumnMap>): (h: seq<string>)
    ensures |h| == 7
  {
    var sku := GetValue(main, cm, Sku);
    ["", GetValue(main, cm, Cat), ImagePath(sku), SheetPath(sku), GetValue(main, cm, Title), "", sku]
  }

  /** The closing fields taken from the main row. */
  function MainTail(main: Row, cm: Option<ColumnMap>): (t: seq<string>)
    ensures |t| == 5
  {
    [GetValue(main, cm, Dim), GetValue(main, cm, Glass), GetValue(main, cm, Mat), GetValue(main, cm, Um), ""]
  }

  /** `buildModelRow`: the main row fills the product fields, the first five variants fill
      the slots; variants past the fifth are dropped. */
  function BuildModelRow(main: Row, variants: seq<Row>, cm: Option<ColumnMap>, toFixed2: string -> string): (r: Record)
    ensures Keys(r) == ClassicColumns()
    ensures forall k :: 0 <= k < 7 ==> r[k].1 == MainHead(main, cm)[k]
    ensures forall i :: 1 <= i <= 5 ==> ClassicSlot(r, i) == SlotFor(variants, cm, toFixed2, i)
    ensures forall k :: 0 <= k < 5 ==> r[27 + k].1 == MainTail(main, cm)[k]
  {
    SlottedRecord(MainHead(main, cm), (i: nat) => SlotFor(variants, cm, toFixed2, i), MainTail(main, cm))
  }

  /** The article code is what a lookup of "Codice Articolo" in the built row finds. */
  lemma BuiltRowCode(main: Row, variants: seq<Row>, cm: Option<ColumnMap>, toFixed2: string -> string)
    ensures GetOr(BuildModelRow(main, variants, cm, toFixed2), "Codice Articolo") == GetValue(main, cm, Sku)
  {
    var r := BuildModelRow(main, variants, cm, toFixed2);
    assert r[6].1 == MainHead(main, cm)[6];
    ClassicCodeLookup(r);
  }

  /** Variants past the fifth leave no trace in the row. */
  lemma ExtraVariantsIgnored(main: Row, variants: seq<Row>, cm: Option<ColumnMap>, toFixed2: string -> string)
    requires |variants| > 5
    ensures BuildModelRow(main, variants, cm, toFixed2) == BuildModelRow(main, variants[..5], cm, toFixed2)
  {
    var f := (i: nat) => SlotFor(variants, cm, toFixed2, i);
    var g := (i: nat) => SlotFor(variants[..5], cm, toFixed2, i);
    forall i | 1 <= i <= 5 ensures |f(i)| == 4 && f(i) == g(i) {
      assert variants[..5][i - 1] == variants[i - 1];
    }
    SlotValuesAgree(f, g, 5);
  }

  /** Slots are filled in variant order up to the fifth variant, and the rest stay blank. */
  lemma SlotsInOrder(main: Row, variants: seq<Row>, cm: Option<ColumnMap>, toFixed2: string -> string, i: nat)
    requires 1 <= i <= 5
    ensures var s := ClassicSlot(BuildModelRow(main, variants, cm, toFixed2), i);
      && (i <= |variants| ==> s[0] == GetValue(variants[i - 1], cm, Sku) && s[2] == GetValue(variants[i - 1], cm, Fin))
      && (i > |variants| ==> s == ["", "", "", ""])
  {
  }

  /** A slot's finish image is blank exactly when its code is. */
  lemma SlotImageBlankIffCodeBlank(main: Row, variants: seq<Row>, cm: Option<ColumnMap>, toFixed2: string -> string, i: nat)
    requires 1 <= i <= 5
    ensures var s := ClassicSlot(BuildModelRow(main, variants, cm, toFixed2), i);
      s[3] == "" <==> s[0] == ""
  {
  }
}
