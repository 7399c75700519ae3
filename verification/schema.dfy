/** The output schemas. The classic schema (32 columns, five variant slots of four fields)
    is the same list in all three builders; the morsetti/tubi builder uses a base of twelve
    columns and a dynamic schema with one three-field slot per variant. */
module Schema {
  import opened Text
  import opened Base

  /** The seven columns before the variant slots. */
  function HeadColumns(): seq<string>
  {
    ["Prodotto", "Categoria", "@image_01", "@image_scheda", "Nome Articolo", "Sottotitolo", "Codice Articolo"]
  }

  /** The five columns after the variant slots. */
  function TailColumns(): seq<string>
  {
    ["Dimensione", "Per Vetro", "Materiale", "UM", "@image_SchedeTecniche"]
  }

  /** The classic schema, as the three builders list it. */
  function ClassicColumns(): seq<string>
  {
    [
      "Prodotto", "Categoria", "@image_01", "@image_scheda", "Nome Articolo", "Sottotitolo", "Codice Articolo",
      "cod1", "Prezzo_cod1", "fin1", "@image_fin1",
      "cod2", "Prezzo_cod2", "fin2", "@image_fin2",
      "cod3", "Prezzo_cod3", "fin3", "@image_fin3",
      "cod4", "Prezzo_cod4", "fin4", "@image_fin4",
      "cod5", "Prezzo_cod5", "fin5", "@image_fin5",
      "Dimensione", "Per Vetro", "Materiale", "UM", "@image_SchedeTecniche"
    ]
  }

  /** The base schema of the morsetti/tubi modes. */
  function VariantBaseColumns(): seq<string>
  {
    [
      "Prodotto", "Categoria", "@image_01", "@image_scheda", "Nome Articolo", "Sottotitolo", "Codice Articolo",
      "Dimensione", "Per Vetro", "Materiale", "UM", "@image_SchedeTecniche"
    ]
  }

  /** The name of field `prefix` of slot `i`, as `prefix.$i` or `` `${prefix}${i}` `` builds it. */
  function SlotKey(prefix: string, i: nat): string
  {
    prefix + NatStr(i)
  }

  /** The four fields of classic slots 1..n, slot by slot. */
  function ClassicSlotColumns(n: nat): (r: seq<string>)
    ensures |r| == 4 * n
    ensures forall i :: 1 <= i <= n ==>
      && r[4 * (i - 1)] == SlotKey("cod", i)
      && r[4 * (i - 1) + 1] == SlotKey("Prezzo_cod", i)
      && r[4 * (i - 1) + 2] == SlotKey("fin", i)
      && r[4 * (i - 1) + 3] == SlotKey("@image_fin", i)
  {
    if n == 0 then []
    else ClassicSlotColumns(n - 1) + [SlotKey("cod", n), SlotKey("Prezzo_cod", n), SlotKey("fin", n), SlotKey("@image_fin", n)]
  }

  /** The three fields of dynamic slots 1..n, slot by slot (the loop of
      `gcb_target_cols_variant_dynamic`). */
  function VariantSlotColumns(n: nat): (r: seq<string>)
    ensures |r| == 3 * n
    ensures forall i :: 1 <= i <= n ==>
      && r[3 * (i - 1)] == SlotKey("cod", i)
      && r[3 * (i - 1) + 1] == SlotKey("Prezzo_cod", i)
      && r[3 * (i - 1) + 2] == SlotKey("var", i)
  {
    if n == 0 then []
    else VariantSlotColumns(n - 1) + [SlotKey("cod", n), SlotKey("Prezzo_cod", n), SlotKey("var", n)]
  }

  /** `gcb_target_cols_variant_dynamic($n)`: head, one slot per index 1..n, tail. */
  function DynamicColumns(n: int): (r: seq<string>)
    ensures |r| == 12 + 3 * (if n < 0 then 0 else n)
    ensures r[..7] == HeadColumns() && r[|r| - 5..] == TailColumns()
    ensures forall i :: 1 <= i <= n ==>
      && r[7 + 3 * (i - 1)] == SlotKey("cod", i)
      && r[7 + 3 * (i - 1) + 1] == SlotKey("Prezzo_cod", i)
      && r[7 + 3 * (i - 1) + 2] == SlotKey("var", i)
  {
    HeadColumns() + VariantSlotColumns(if n < 0 then 0 else n) + TailColumns()
  }

  /** The literal classic list is head, five four-field slots, tail. */
  lemma ClassicLayout()
    ensures ClassicColumns() == HeadColumns() + ClassicSlotColumns(5) + TailColumns()
  {
    assert SlotKey("cod", 1) == "cod1";
    assert SlotKey("Prezzo_cod", 1) == "Prezzo_cod1";
    assert SlotKey("fin", 1) == "fin1";
    assert SlotKey("@image_fin", 1) == "@image_fin1";
    assert ClassicSlotColumns(1) == ClassicSlotColumns(0) + [SlotKey("cod", 1), SlotKey("Prezzo_cod", 1), SlotKey("fin", 1), SlotKey("@image_fin", 1)];
    assert SlotKey("cod", 2) == "cod2";
    assert SlotKey("Prezzo_cod", 2) == "Prezzo_cod2";
    assert SlotKey("fin", 2) == "fin2";
    assert SlotKey("@image_fin", 2) == "@image_fin2";
    assert ClassicSlotColumns(2) == ClassicSlotColumns(1) + [SlotKey("cod", 2), SlotKey("Prezzo_cod", 2), SlotKey("fin", 2), SlotKey("@image_fin", 2)];
    assert SlotKey("cod", 3) == "cod3";
    assert SlotKey("Prezzo_cod", 3) == "Prezzo_cod3";
    assert SlotKey("fin", 3) == "fin3";
    assert SlotKey("@image_fin", 3) == "@image_fin3";
    assert ClassicSlotColumns(3) == ClassicSlotColumns(2) + [SlotKey("cod", 3), SlotKey("Prezzo_cod", 3), SlotKey("fin", 3), SlotKey("@image_fin", 3)];
    assert SlotKey("cod", 4) == "cod4";
    assert SlotKey("Prezzo_cod", 4) == "Prezzo_cod4";
    assert SlotKey("fin", 4) == "fin4";
    assert SlotKey("@image_fin", 4) == "@image_fin4";
    assert ClassicSlotColumns(4) == ClassicSlotColumns(3) + [SlotKey("cod", 4), SlotKey("Prezzo_cod", 4), SlotKey("fin", 4), SlotKey("@image_fin", 4)];
    assert SlotKey("cod", 5) == "cod5";
    assert SlotKey("Prezzo_cod", 5) == "Prezzo_cod5";
    assert SlotKey("fin", 5) == "fin5";
    assert SlotKey("@image_fin", 5) == "@image_fin5";
    assert ClassicSlotColumns(5) == ClassicSlotColumns(4) + [SlotKey("cod", 5), SlotKey("Prezzo_cod", 5), SlotKey("fin", 5), SlotKey("@image_fin", 5)];
  }

  /** Field `f` of classic slot `i` sits at column 7 + 4(i-1) + f. */
  lemma ClassicSlotPositions(i: nat)
    requires 1 <= i <= 5
    ensures ClassicColumns()[7 + 4 * (i - 1)] == SlotKey("cod", i)
    ensures ClassicColumns()[7 + 4 * (i - 1) + 1] == SlotKey("Prezzo_cod", i)
    ensures ClassicColumns()[7 + 4 * (i - 1) + 2] == SlotKey("fin", i)
    ensures ClassicColumns()[7 + 4 * (i - 1) + 3] == SlotKey("@image_fin", i)
  {
    ClassicLayout();
    var s := ClassicSlotColumns(5);
    assert ClassicColumns()[7 + 4 * (i - 1)] == s[4 * (i - 1)];
    assert ClassicColumns()[7 + 4 * (i - 1) + 1] == s[4 * (i - 1) + 1];
    assert ClassicColumns()[7 + 4 * (i - 1) + 2] == s[4 * (i - 1) + 2];
    assert ClassicColumns()[7 + 4 * (i - 1) + 3] == s[4 * (i - 1) + 3];
  }

  /** With no variant slot the dynamic schema is the morsetti/tubi base schema. */
  lemma DynamicWithoutSlotsIsBase(n: int)
    requires n <= 0
    ensures DynamicColumns(n) == VariantBaseColumns()
  {
  }

  /** The classic schema and the dynamic one share head and tail; only the slots differ. */
  lemma ClassicAndDynamicShareFrame(n: int)
    ensures ClassicColumns()[..7] == DynamicColumns(n)[..7]
    ensures ClassicColumns()[27..] == DynamicColumns(n)[|DynamicColumns(n)| - 5..]
  {
  }

  /** "Codice Articolo" is column 6 of the classic schema and occurs nowhere before it. */
  lemma ClassicCodePosition()
    ensures ClassicColumns()[6] == "Codice Articolo"
    ensures forall j :: 0 <= j < 6 ==> ClassicColumns()[j] != "Codice Articolo"
  {
  }
}
