/** The second half of the build step: the preview row made for each typed parent code
    from its items (ordered by variant), or the placeholder row of a parent with no items,
    and the preview over the whole list of parents. */
module CatalogBuild {
  import opened Base
  import opened Text
  import opened PhpText
  import opened Schema
  import opened Layout
  import opened CatalogModes
  import opened CatalogFinish
  import opened CatalogAssets
  import opened CatalogFields
  import opened CatalogHeaders
  import opened CatalogSort
  import opened CatalogParents
  import opened CatalogItems

  /** What a build reads besides the source rows: the mode, the guessed source columns, the
      ids under which parents are already saved (keyed by canonical parent code), the
      comparator the items are ordered with, and the two number conversions of the price
      (`is_numeric`, and `floatval` followed by two-decimal `number_format` with a comma). */
  datatype Env = Env(
    mode: Mode,
    keys: SourceKeys,
    saved: map<string, nat>,
    cmp: (string, string) -> int,
    isNumeric: string -> bool,
    format2: string -> string)

  // ---------- fields shared by every row ----------

  /** `$existing_map[$parent_code_actual] ?? 0`, written out. */
  function SavedId(env: Env, actual: string): string
  {
    NatStr(if actual in env.saved then env.saved[actual] else 0)
  }

  /** The two bookkeeping fields closing every preview row. */
  function Trailer(env: Env, actual: string): Record
  {
    [("_already_saved_id", SavedId(env, actual)), ("_gcb_mode", ModeName(env.mode))]
  }

  /** The price of an item: its trimmed cell, reformatted with two decimals when, commas read
      as points, it is numeric. */
  function PriceCell(raw: string, isNumeric: string -> bool, format2: string -> string): (pre: string)
    ensures raw == "" || !isNumeric(ReplaceChar(raw, ',', '.')) ==> pre == raw
    ensures raw != "" && isNumeric(ReplaceChar(raw, ',', '.')) ==> pre == format2(ReplaceChar(raw, ',', '.'))
  {
    var dotted := ReplaceChar(raw, ',', '.');
    if raw != "" && isNumeric(dotted) then format2(dotted) else raw
  }

  function ItemPrice(item: Row, env: Env): string
  {
    PriceCell(PhpTrim(Cell(item, env.keys.price)), env.isNumeric, env.format2)
  }

  // ---------- the placeholder row ----------

  /** The row of a parent without items: every target column blank except "Codice Articolo",
      then the saved id, `_not_found` = 1 and the mode. */
  function GhostRecord(env: Env, actual: string): (r: Record)
    ensures |r| == |TargetColumns(env.mode)| + 3
    ensures Keys(r)[..|r| - 3] == TargetColumns(env.mode)
    ensures r[6] == ("Codice Articolo", actual)
    ensures forall k :: 0 <= k < |r| - 3 && k != 6 ==> r[k].1 == ""
    ensures r[|r| - 3] == ("_already_saved_id", SavedId(env, actual))
    ensures r[|r| - 2] == ("_not_found", "1")
    ensures r[|r| - 1] == ("_gcb_mode", ModeName(env.mode))
  {
    var cols := TargetColumns(env.mode);
    var vals := seq(|cols|, k requires 0 <= k < |cols| => if k == 6 then actual else "");
    var fields := Zip(cols, vals);
    var r := fields + [("_already_saved_id", SavedId(env, actual)), ("_not_found", "1"), ("_gcb_mode", ModeName(env.mode))];
    assert Keys(r)[..|r| - 3] == Keys(fields);
    r
  }

  // ---------- the product fields ----------

  /** The product image of a parent, named after its asset file. */
  function AssetImagePath(actual: string): string
  {
    "singoli-componenti/ALLimages/" + AssetFilename(actual) + ".jpg"
  }

  /** The data sheet of a parent, named after its asset file. */
  function AssetSheetPath(actual: string): string
  {
    "singoli-componenti/ALLpdf/" + AssetFilename(actual) + ".pdf"
  }

  /** The product and closing fields of a laid-out row, read at the head columns and at
      the five closing columns from `tailAt` on. Categoria and UM are the most common
      values among the items, the two images are named after the asset file of the parent,
      Nome Articolo is the first item's trimmed description, "Codice Articolo" is the
      parent, the technical sheet repeats the data sheet, and the other fields keep the
      blank of `array_fill_keys`. */
  predicate ProductFields(r: Record, tailAt: nat, items: seq<Row>, env: Env, actual: string)
  {
    && |items| > 0 && 7 <= tailAt && tailAt + 5 <= |r|
    && r[0].1 == "" && r[5].1 == ""
    && r[1].1 == MostCommonField(items, env.keys.catm)
    && r[2].1 == AssetImagePath(actual)
    && r[3].1 == AssetSheetPath(actual)
    && r[4].1 == PhpTrim(Cell(items[0], env.keys.desc))
    && r[6].1 == actual
    && r[tailAt].1 == "" && r[tailAt + 1].1 == "" && r[tailAt + 2].1 == ""
    && r[tailAt + 3].1 == MostCommonField(items, env.keys.um)
    && r[tailAt + 4].1 == r[3].1
  }

  /** The seven product fields: the most common category, the image and sheet paths of the
      asset name, the trimmed description of the first item and the canonical parent code. */
  function HeadValues(items: seq<Row>, env: Env, actual: string): (h: seq<string>)
    requires |items| > 0
    ensures |h| == 7 && h[6] == actual
    ensures h[0] == "" && h[5] == ""
    ensures h[1] == MostCommonField(items, env.keys.catm)
    ensures h[2] == AssetImagePath(actual) && h[3] == AssetSheetPath(actual)
    ensures h[4] == PhpTrim(Cell(items[0], env.keys.desc))
  {
    var cat, image, sheet := MostCommonField(items, env.keys.catm), AssetImagePath(actual), AssetSheetPath(actual);
    var name := PhpTrim(Cell(items[0], env.keys.desc));
    Seven("", cat, image, sheet, name, "", actual)
  }

  /** A seven-field row, field by field. */
  function Seven(a: string, b: string, c: string, d: string, e: string, f: string, g: string): (r: seq<string>)
    ensures |r| == 7 && r[0] == a && r[1] == b && r[2] == c && r[3] == d
    ensures r[4] == e && r[5] == f && r[6] == g
  {
    [a, b, c, d, e, f, g]
  }

  /** A five-field row, field by field. */
  function Five(a: string, b: string, c: string, d: string, e: string): (r: seq<string>)
    ensures |r| == 5 && r[0] == a && r[1] == b && r[2] == c && r[3] == d && r[4] == e
  {
    [a, b, c, d, e]
  }

  /** The five closing fields: the most common unit and the sheet path again. */
  function TailValues(items: seq<Row>, env: Env, actual: string): (t: seq<string>)
    ensures |t| == 5
    ensures t[0] == "" && t[1] == "" && t[2] == ""
    ensures t[3] == MostCommonField(items, env.keys.um)
    ensures |items| > 0 ==> t[4] == HeadValues(items, env, actual)[3]
  {
    var um, sheet := MostCommonField(items, env.keys.um), AssetSheetPath(actual);
    Five("", "", "", um, sheet)
  }

  // ---------- classic rows ----------

  /** The finish read off an item's code: "" or a finish code. */
  function ItemFinish(item: Row, env: Env, actual: string): string
  {
    FinishCodeFromVariant(actual, FullCode(item, env.keys.code))
  }

  /** The four slot fields of an item: code, price, finish label and finish image, the last
      two blank when no finish is recognised (the finish code goes through a PHP truthiness test). */
  function FinishSlot(item: Row, env: Env, actual: string): (slot: seq<string>)
    ensures |slot| == 4
  {
    var sigla := ItemFinish(item, env, actual);
    var finish := if !PhpEmpty(sigla) then FinishLabelByCode(sigla) else "";
    var image := if !PhpEmpty(sigla) then "finiture/" + sigla + ".jpg" else "";
    [FullCode(item, env.keys.code), ItemPrice(item, env), finish, image]
  }

  /** An item whose code is the parent, a space and a finish code gets that finish's label
      and image in its slot. */
  lemma FinishSlotOfSuffixedCode(item: Row, env: Env, actual: string, k: nat)
    requires k < |FinishOptions()|
    requires |actual| > 0 && IsTrimmed(actual)
    requires FullCode(item, env.keys.code) == actual + " " + FinishOptions()[k].1
    ensures var slot := FinishSlot(item, env, actual);
      && slot[0] == actual + " " + FinishOptions()[k].1
      && slot[2] == FinishOptions()[k].0
      && slot[3] == "finiture/" + FinishOptions()[k].1 + ".jpg"
  {
    FinishOfSuffixedCode(actual, k);
    LabelOfEachCode(k);
    FinishSlotOfCode(item, env, actual, FinishOptions()[k].1, FinishOptions()[k].0);
  }

  /** The slot of an item whose code names a finish holds that finish's label and image. */
  lemma FinishSlotOfCode(item: Row, env: Env, actual: string, sigla: string, name: string)
    requires FinishCodeFromVariant(actual, FullCode(item, env.keys.code)) == sigla
    requires |sigla| >= 2 && FinishLabelByCode(sigla) == name
    ensures var slot := FinishSlot(item, env, actual);
      slot[2] == name && slot[3] == "finiture/" + sigla + ".jpg"
  {
    assert ItemFinish(item, env, actual) == sigla;
    assert sigla != "" && sigla != "0" by {
      assert |"0"| == 1;
    }
  }

  /** An item whose code names no finish gets a blank finish label and image. */
  lemma FinishSlotWithoutFinish(item: Row, env: Env, actual: string)
    requires FinishCodeFromVariant(actual, FullCode(item, env.keys.code)) == ""
    ensures var slot := FinishSlot(item, env, actual);
      slot[0] == FullCode(item, env.keys.code) && slot[2] == "" && slot[3] == ""
  {
  }

  /** Classic slot `i`: the fields of item `i` when there is one, blank otherwise. */
  function ClassicSlotOf(items: seq<Row>, env: Env, actual: string, i: nat): (slot: seq<string>)
    ensures |slot| == 4
  {
    if 1 <= i <= |items| then FinishSlot(items[i - 1], env, actual) else ["", "", "", ""]
  }

  /** A classic row from its product fields, twenty slot fields, closing fields and
      trailing fields. */
  function ClassicRow(head: seq<string>, slots: seq<string>, tail: seq<string>, trailer: Record): (r: Record)
    requires |head| == 7 && |slots| == 20 && |tail| == 5
    ensures |r| == 32 + |trailer| && Keys(r)[..32] == ClassicColumns()
    ensures r[6] == ("Codice Articolo", head[6])
    ensures forall k :: 0 <= k < 7 ==> r[k].1 == head[k]
    ensures forall i :: 1 <= i <= 5 ==> ClassicSlot(r[..32], i) == SlotIn(slots, i)
    ensures forall k :: 0 <= k < 5 ==> r[27 + k].1 == tail[k]
    ensures r[32..] == trailer
  {
    var fields := ClassicRecord(head, slots, tail);
    ClassicCodePosition();
    assert (fields + trailer)[..32] == fields;
    fields + trailer
  }

  // ---------- morsetti and tubi rows ----------

  /** Three-value groups laid end to end. */
  function FlatSlots(vals: seq<seq<string>>): (f: seq<string>)
    requires forall i :: 0 <= i < |vals| ==> |vals[i]| == 3
    ensures |f| == 3 * |vals|
    ensures forall i :: 0 <= i < |vals| ==> f[3 * i] == vals[i][0] && f[3 * i + 1] == vals[i][1] && f[3 * i + 2] == vals[i][2]
    decreases |vals|
  {
    if |vals| == 0 then []
    else
      var n := |vals|;
      var prev := FlatSlots(vals[..n - 1]);
      assert forall i :: 0 <= i < n - 1 ==> vals[..n - 1][i] == vals[i];
      prev + vals[n - 1]
  }

  /** Slots 1..n with the given code, price and variant values. */
  function VariantSlotRecord(vals: seq<seq<string>>): (r: Record)
    requires forall i :: 0 <= i < |vals| ==> |vals[i]| == 3
    ensures |r| == 3 * |vals|
    ensures Keys(r) == VariantSlotColumns(|vals|)
    ensures forall i :: 0 <= i < |vals| ==> r[3 * i].1 == vals[i][0] && r[3 * i + 1].1 == vals[i][1] && r[3 * i + 2].1 == vals[i][2]
  {
    var flat := FlatSlots(vals);
    var r := Zip(VariantSlotColumns(|vals|), flat);
    assert forall i :: 0 <= i < |vals| ==> r[3 * i].1 == vals[i][0] && r[3 * i + 1].1 == vals[i][1] && r[3 * i + 2].1 == vals[i][2] by {
      forall i | 0 <= i < |vals|
        ensures r[3 * i].1 == vals[i][0] && r[3 * i + 1].1 == vals[i][1] && r[3 * i + 2].1 == vals[i][2]
      {
        assert r[3 * i].1 == flat[3 * i] && r[3 * i + 1].1 == flat[3 * i + 1] && r[3 * i + 2].1 == flat[3 * i + 2];
      }
    }
    r
  }

  /** A morsetti/tubi row from its product and closing fields, its slot values and its
      trailing fields: the base fields, the slots, the slot count, the trailer. */
  function VariantRow(head: seq<string>, tail: seq<string>, vals: seq<seq<string>>, trailer: Record): (r: Record)
    requires |head| == 7 && |tail| == 5
    requires forall i :: 0 <= i < |vals| ==> |vals[i]| == 3
    ensures |r| == 12 + 3 * |vals| + 1 + |trailer|
    ensures r[6] == ("Codice Articolo", head[6])
    ensures forall k :: 0 <= k < 7 ==> r[k].1 == head[k]
    ensures forall k :: 0 <= k < 5 ==> r[7 + k].1 == tail[k]
  {
    var base := Zip(VariantBaseColumns(), head + tail);
    var r := base + VariantSlotRecord(vals) + [("_var_count", NatStr(|vals|))] + trailer;
    assert forall k :: 0 <= k < 12 ==> r[k] == base[k];
    r
  }

  /** The parts of a morsetti/tubi row: the base columns, the slot fields, the slot count
      and the trailer, in this order. */
  lemma VariantRowParts(head: seq<string>, tail: seq<string>, vals: seq<seq<string>>, trailer: Record)
    requires |head| == 7 && |tail| == 5
    requires forall i :: 0 <= i < |vals| ==> |vals[i]| == 3
    ensures var r := VariantRow(head, tail, vals, trailer);
      && Keys(r)[..12] == VariantBaseColumns()
      && r[12..12 + 3 * |vals|] == VariantSlotRecord(vals)
      && r[12 + 3 * |vals|] == ("_var_count", NatStr(|vals|))
      && r[12 + 3 * |vals| + 1..] == trailer
  {
    var base := Zip(VariantBaseColumns(), head + tail);
    var slots := VariantSlotRecord(vals);
    var r := VariantRow(head, tail, vals, trailer);
    assert r == base + slots + [("_var_count", NatStr(|vals|))] + trailer;
    RecordParts(base, slots, ("_var_count", NatStr(|vals|)), trailer);
    KeysPrefix(r, 12);
  }

  /** The pieces of a record built from a prefix, a middle, one field and a suffix. */
  lemma RecordParts(a: Record, b: Record, f: (string, string), c: Record)
    ensures var r := a + b + [f] + c;
      && r[..|a|] == a && r[|a|..|a| + |b|] == b && r[|a| + |b|] == f && r[|a| + |b| + 1..] == c
  {
  }

  /** The names of a prefix of a record are the prefix of its names. */
  lemma KeysPrefix(r: Record, n: nat)
    requires n <= |r|
    ensures Keys(r)[..n] == Keys(r[..n])
  {
  }

  /** The fields of slot `i + 1` of a morsetti/tubi row and its slot count. */
  lemma VariantRowSlot(head: seq<string>, tail: seq<string>, vals: seq<seq<string>>, trailer: Record, i: nat)
    requires |head| == 7 && |tail| == 5
    requires forall i :: 0 <= i < |vals| ==> |vals[i]| == 3
    requires i < |vals|
    ensures var r := VariantRow(head, tail, vals, trailer);
      && Keys(r)[..12] == VariantBaseColumns()
      && r[12 + 3 * i] == (SlotKey("cod", i + 1), vals[i][0])
      && r[12 + 3 * i + 1] == (SlotKey("Prezzo_cod", i + 1), vals[i][1])
      && r[12 + 3 * i + 2] == (SlotKey("var", i + 1), vals[i][2])
      && r[12 + 3 * |vals|] == ("_var_count", NatStr(|vals|))
  {
    var r := VariantRow(head, tail, vals, trailer);
    var slots := VariantSlotRecord(vals);
    VariantRowParts(head, tail, vals, trailer);
    assert r[12 + 3 * i] == slots[3 * i] && r[12 + 3 * i + 1] == slots[3 * i + 1] && r[12 + 3 * i + 2] == slots[3 * i + 2];
    assert Keys(slots)[3 * i] == SlotKey("cod", i + 1);
    assert Keys(slots)[3 * i + 1] == SlotKey("Prezzo_cod", i + 1);
    assert Keys(slots)[3 * i + 2] == SlotKey("var", i + 1);
  }

  /** The code, price and variant of an item. */
  function VariantSlotOf(item: Row, env: Env): (v: seq<string>)
    ensures |v| == 3
  {
    [FullCode(item, env.keys.code), ItemPrice(item, env), VariantOf(item)]
  }

  // ---------- one parent ----------

  /** The items of a typed parent, ordered by variant. */
  function SortedItems(env: Env, data: seq<Row>, input: string): seq<Row>
  {
    SortItems(CollectItems(env.mode, env.keys.code, data, input), env.cmp)
  }

  /** The twenty slot fields of a classic row. */
  function ClassicSlots(items: seq<Row>, env: Env, actual: string): (slots: seq<string>)
    ensures |slots| == 20
    ensures forall i :: 1 <= i <= 5 ==> SlotIn(slots, i) == ClassicSlotOf(items, env, actual, i)
  {
    SlotValues((i: nat) => ClassicSlotOf(items, env, actual, i), 5)
  }

  /** The slot values of a morsetti/tubi row, one group per item. */
  function VariantSlotVals(items: seq<Row>, env: Env): (vals: seq<seq<string>>)
    ensures |vals| == |items|
    ensures forall i :: 0 <= i < |vals| ==> |vals[i]| == 3
    ensures forall i :: 0 <= i < |items| ==> vals[i] == VariantSlotOf(items[i], env)
  {
    seq(|items|, i requires 0 <= i < |items| => VariantSlotOf(items[i], env))
  }

  /** The row of a classic or senza-separatore parent: the first five ordered items fill the
      five slots, the remaining slots stay blank. */
  function ClassicFound(env: Env, items: seq<Row>, actual: string): (r: Record)
    requires |items| > 0
    ensures |r| == 34 && Keys(r)[..32] == ClassicColumns()
    ensures r[6] == ("Codice Articolo", actual)
    ensures forall i :: 1 <= i <= 5 ==> ClassicSlot(r[..32], i) == ClassicSlotOf(items, env, actual, i)
    ensures r[32..] == Trailer(env, actual)
    ensures ProductFields(r, 27, items, env, actual)
  {
    var head := HeadValues(items, env, actual);
    ClassicRow(head, ClassicSlots(items, env, actual), TailValues(items, env, actual), Trailer(env, actual))
  }

  /** The row of a morsetti/tubi parent: one slot per ordered item, then the slot count. */
  function VariantFound(env: Env, items: seq<Row>, actual: string): (r: Record)
    requires |items| > 0
    ensures |r| == 15 + 3 * |items|
    ensures r[6] == ("Codice Articolo", actual)
    ensures ProductFields(r, 7, items, env, actual)
    ensures r[|r| - 2..] == Trailer(env, actual)
  {
    var head := HeadValues(items, env, actual);
    VariantRow(head, TailValues(items, env, actual), VariantSlotVals(items, env), Trailer(env, actual))
  }

  /** Slot `i + 1` of a morsetti/tubi row holds the code, price and variant of the `i`-th
      ordered item. */
  lemma VariantFoundSlots(env: Env, items: seq<Row>, actual: string, i: nat)
    requires i < |items|
    ensures var r := VariantFound(env, items, actual);
      && r[12 + 3 * i] == (SlotKey("cod", i + 1), FullCode(items[i], env.keys.code))
      && r[12 + 3 * i + 1] == (SlotKey("Prezzo_cod", i + 1), ItemPrice(items[i], env))
      && r[12 + 3 * i + 2] == (SlotKey("var", i + 1), VariantOf(items[i]))
  {
    VariantRowItemSlot(HeadValues(items, env, actual), TailValues(items, env, actual), items, env, Trailer(env, actual), i);
  }

  /** Slot `i + 1` of a morsetti/tubi row laid out from items holds the `i`-th item's code,
      price and variant, whatever the other fields. */
  lemma VariantRowItemSlot(head: seq<string>, tail: seq<string>, items: seq<Row>, env: Env, trailer: Record, i: nat)
    requires |head| == 7 && |tail| == 5 && i < |items|
    ensures var r := VariantRow(head, tail, VariantSlotVals(items, env), trailer);
      && r[12 + 3 * i] == (SlotKey("cod", i + 1), FullCode(items[i], env.keys.code))
      && r[12 + 3 * i + 1] == (SlotKey("Prezzo_cod", i + 1), ItemPrice(items[i], env))
      && r[12 + 3 * i + 2] == (SlotKey("var", i + 1), VariantOf(items[i]))
  {
    var vals := VariantSlotVals(items, env);
    VariantRowSlot(head, tail, vals, trailer, i);
    assert vals[i] == VariantSlotOf(items[i], env);
  }

  /** A morsetti/tubi row starts with the variant base columns and records how many items
      it lays out. */
  lemma VariantFoundCount(env: Env, items: seq<Row>, actual: string)
    requires |items| > 0
    ensures var r := VariantFound(env, items, actual);
      && Keys(r)[..12] == VariantBaseColumns()
      && r[12 + 3 * |items|] == ("_var_count", NatStr(|items|))
  {
    VariantRowSlot(HeadValues(items, env, actual), TailValues(items, env, actual), VariantSlotVals(items, env), Trailer(env, actual), 0);
  }

  /** The row laid out from a parent's ordered items. */
  function FoundRecord(env: Env, items: seq<Row>, actual: string): (r: Record)
    requires |items| > 0
    ensures |r| > 6 && r[6] == ("Codice Articolo", actual)
  {
    if IsVariantMode(env.mode) then VariantFound(env, items, actual) else ClassicFound(env, items, actual)
  }

  /** The preview row of one typed parent and whether it had items. The canonical code is
      the typed code upper-cased; the items are ordered by variant before they are laid
      out. */
  function BuildParent(env: Env, data: seq<Row>, input: string): (b: (Record, bool))
    ensures |b.0| > 6 && b.0[6] == ("Codice Articolo", Upper(input))
    ensures b.1 <==> !Unmatched(env.mode, env.keys.code, data, input)
  {
    var actual := Upper(input);
    var items := SortedItems(env, data, input);
    if |items| == 0 then (GhostRecord(env, actual), false)
    else (FoundRecord(env, items, actual), true)
  }

  /** A parent without items gets the placeholder row. */
  lemma UnmatchedParent(env: Env, data: seq<Row>, input: string)
    requires Unmatched(env.mode, env.keys.code, data, input)
    ensures BuildParent(env, data, input) == (GhostRecord(env, Upper(input)), false)
  {
  }

  /** A parent with items gets the row laid out from its items, ordered by variant: the
      same items that were collected, in variant order when the comparator's "greater"
      mirrors its "less". */
  lemma MatchedParent(env: Env, data: seq<Row>, input: string)
    requires !Unmatched(env.mode, env.keys.code, data, input)
    ensures var items := SortedItems(env, data, input);
      && |items| > 0
      && BuildParent(env, data, input) == (FoundRecord(env, items, Upper(input)), true)
      && multiset(items) == multiset(CollectItems(env.mode, env.keys.code, data, input))
      && (Antisymmetric(env.cmp) ==> SortedBy(items, env.cmp))
  {
    if Antisymmetric(env.cmp) {
      SortItemsSorted(CollectItems(env.mode, env.keys.code, data, input), env.cmp);
    }
  }

  // ---------- the whole list ----------

  /** The parents that have no items, in order. */
  function NotFound(env: Env, data: seq<Row>, ps: seq<string>): (nf: seq<string>)
    ensures |nf| <= |ps|
    ensures forall p :: p in nf <==> p in ps && Unmatched(env.mode, env.keys.code, data, p)
  {
    if |ps| == 0 then []
    else
      assert forall p :: p in ps <==> p == ps[0] || p in ps[1..];
      (if Unmatched(env.mode, env.keys.code, data, ps[0]) then [ps[0]] else []) + NotFound(env, data, ps[1..])
  }

  /** Duplicates are kept: an unmatched parent is listed as often as it is requested, a matched
      one never. */
  lemma {:induction false} NotFoundCounts(env: Env, data: seq<Row>, ps: seq<string>, p: string)
    ensures multiset(NotFound(env, data, ps))[p]
         == if Unmatched(env.mode, env.keys.code, data, p) then multiset(ps)[p] else 0
  {
    if |ps| > 0 {
      var q, rest := ps[0], ps[1..];
      NotFoundCounts(env, data, rest, p);
      var head := if Unmatched(env.mode, env.keys.code, data, q) then [q] else [];
      assert NotFound(env, data, ps) == head + NotFound(env, data, rest);
      assert multiset(NotFound(env, data, ps)) == multiset(head) + multiset(NotFound(env, data, rest));
      assert ps == [q] + rest;
      assert multiset(ps) == multiset{q} + multiset(rest);
    }
  }

  /** The list keeps the parents' order: the unmatched parents of a concatenation are those of
      its first part followed by those of its second. */
  lemma {:induction false} NotFoundAppend(env: Env, data: seq<Row>, a: seq<string>, b: seq<string>)
    ensures NotFound(env, data, a + b) == NotFound(env, data, a) + NotFound(env, data, b)
    decreases |a|
  {
    if |a| > 0 {
      assert (a + b)[0] == a[0];
      assert (a + b)[1..] == a[1..] + b;
      NotFoundAppend(env, data, a[1..], b);
    } else {
      assert a + b == b;
    }
  }

  /** The preview rows of the parents, in order, and the parents that had no items. */
  function PreviewRows(env: Env, data: seq<Row>, ps: seq<string>): (out: (seq<Record>, seq<string>))
    ensures |out.0| == |ps|
    ensures forall k :: 0 <= k < |ps| ==> |out.0[k]| > 6 && out.0[k][6] == ("Codice Articolo", Upper(ps[k]))
    ensures forall p :: p in out.1 <==> p in ps && Unmatched(env.mode, env.keys.code, data, p)
  {
    (seq(|ps|, k requires 0 <= k < |ps| => BuildParent(env, data, ps[k]).0), NotFound(env, data, ps))
  }

  /** The build action: the mode posted (anything unknown read as classic), the source
      columns guessed from the headers, then one preview row per parent code of the
      trimmed text. A blank text is an error (None). */
  function Preview(
    postedMode: string, headers: seq<string>, data: seq<Row>, txt: string,
    saved: map<string, nat>, cmp: (string, string) -> int,
    isNumeric: string -> bool, format2: string -> string): (r: Option<(seq<Record>, seq<string>)>)
    ensures r.None? <==> PhpTrim(txt) == ""
    ensures r.Some? ==> |r.value.0| == |ParentCodes(txt)|
  {
    if PhpTrim(txt) == "" then None
    else
      var env := Env(ParseMode(postedMode), GuessKeys(headers), saved, cmp, isNumeric, format2);
      Some(PreviewRows(env, data, ParentCodes(txt)))
  }
}
