/** The first half of the build step for one typed parent code: the source rows that belong
    to it, each tagged with the parent and variant read off its code. */
module CatalogItems {
  import opened Base
  import opened Text
  import opened PhpText
  import opened CatalogModes
  import opened CatalogCodes

  /** The trimmed code of a source row (`trim((string) ($row[$key_code] ?? ''))`). */
  function FullCode(row: Row, codeKey: string): string
  {
    PhpTrim(Cell(row, codeKey))
  }

  /** The row with `_parent` and `_variant` set, every other field as it was. */
  function Tagged(row: Row, parent: string, variant: string): (item: Row)
    ensures Cell(item, "_parent") == parent && Cell(item, "_variant") == variant
    ensures forall k :: k != "_parent" && k != "_variant" ==> Cell(item, k) == Cell(row, k)
  {
    row["_parent" := parent]["_variant" := variant]
  }

  /** The parser of a mode that splits codes: `/` for morsetti, `-` for tubi, the classic
      rules otherwise. */
  function SplitCode(mode: Mode, full: string): (string, string)
  {
    match mode
    case Morsetti => MorsettiParts(full)
    case Tubi => TubiParts(full)
    case _ => ClassicParts(full)
  }

  /** Whether a source row belongs to the typed parent: in senza-separatore mode its code
      starts with the parent, ignoring case; otherwise its parsed parent equals the typed
      one up to case. Rows with a blank code never belong. */
  predicate Matches(mode: Mode, codeKey: string, row: Row, input: string)
  {
    var full := FullCode(row, codeKey);
    if mode == Senza then full != "" && StartsWithIgnoreCase(full, input)
    else full != "" && SplitCode(mode, full).0 != "" && Upper(SplitCode(mode, full).0) == Upper(input)
  }

  /** The item a matching row becomes. In senza-separatore mode the parent is the typed code
      upper-cased and the variant is the trimmed rest of the code after as many bytes as
      the typed code has; otherwise both come from the parser. (A row that does not match
      is never turned into an item; for it the rest is taken as empty.) */
  function ItemOf(mode: Mode, codeKey: string, row: Row, input: string): Row
  {
    var full := FullCode(row, codeKey);
    if mode == Senza then
      Tagged(row, Upper(input), PhpTrim(if |input| <= |full| then full[|input|..] else ""))
    else
      var pv := SplitCode(mode, full);
      Tagged(row, pv.0, pv.1)
  }

  /** The images under `f` of the elements that satisfy `keep`, in order. */
  function FilterMap<T>(s: seq<T>, keep: T -> bool, f: T -> T): (out: seq<T>)
    ensures |out| <= |s|
    ensures |out| == 0 <==> forall i :: 0 <= i < |s| ==> !keep(s[i])
  {
    if |s| == 0 then []
    else
      var rest := FilterMap(s[1..], keep, f);
      assert forall i :: 1 <= i < |s| ==> s[i] == s[1..][i - 1];
      if keep(s[0]) then [f(s[0])] + rest else rest
  }

  /** Every element of the output is the image of a kept element. */
  lemma {:induction false} FilterMapFrom<T>(s: seq<T>, keep: T -> bool, f: T -> T, j: nat)
    requires j < |FilterMap(s, keep, f)|
    ensures exists i :: 0 <= i < |s| && keep(s[i]) && FilterMap(s, keep, f)[j] == f(s[i])
  {
    var out := FilterMap(s, keep, f);
    if keep(s[0]) && j == 0 {
      assert out[0] == f(s[0]);
    } else {
      var jj := if keep(s[0]) then j - 1 else j;
      assert out[j] == FilterMap(s[1..], keep, f)[jj];
      FilterMapFrom(s[1..], keep, f, jj);
      var i :| 0 <= i < |s[1..]| && keep(s[1..][i]) && FilterMap(s[1..], keep, f)[jj] == f(s[1..][i]);
      assert s[1..][i] == s[i + 1];
    }
  }

  /** The image of every kept element is in the output. */
  lemma {:induction false} FilterMapHas<T>(s: seq<T>, keep: T -> bool, f: T -> T, i: nat)
    requires i < |s| && keep(s[i])
    ensures f(s[i]) in FilterMap(s, keep, f)
  {
    if i > 0 {
      assert s[1..][i - 1] == s[i];
      FilterMapHas(s[1..], keep, f, i - 1);
    }
  }

  /** The output keeps the input's order: that of a concatenation is the two outputs joined. */
  lemma {:induction false} FilterMapAppend<T>(a: seq<T>, b: seq<T>, keep: T -> bool, f: T -> T)
    ensures FilterMap(a + b, keep, f) == FilterMap(a, keep, f) + FilterMap(b, keep, f)
    decreases |a|
  {
    if |a| == 0 {
      assert a + b == b;
    } else {
      assert (a + b)[0] == a[0];
      assert (a + b)[1..] == a[1..] + b;
      FilterMapAppend(a[1..], b, keep, f);
    }
  }

  /** A single element contributes its image exactly when it is kept. */
  lemma FilterMapSingle<T>(x: T, keep: T -> bool, f: T -> T)
    ensures FilterMap([x], keep, f) == if keep(x) then [f(x)] else []
  {
    assert [x][1..] == [];
  }

  /** No source row belongs to the typed parent. */
  predicate Unmatched(mode: Mode, codeKey: string, data: seq<Row>, input: string)
  {
    forall i :: 0 <= i < |data| ==> !Matches(mode, codeKey, data[i], input)
  }

  /** The items of the typed parent, in source order. */
  function CollectItems(mode: Mode, codeKey: string, data: seq<Row>, input: string): (items: seq<Row>)
    ensures |items| <= |data|
    ensures |items| == 0 <==> Unmatched(mode, codeKey, data, input)
  {
    FilterMap(data, (r: Row) => Matches(mode, codeKey, r, input), (r: Row) => ItemOf(mode, codeKey, r, input))
  }

  /** The items come in table order, one per matching row: the items of a table split in two
      are those of its first part followed by those of its second, and a single row yields its
      item exactly when it matches. */
  lemma CollectItemsAppend(mode: Mode, codeKey: string, a: seq<Row>, b: seq<Row>, input: string, row: Row)
    ensures CollectItems(mode, codeKey, a + b, input)
         == CollectItems(mode, codeKey, a, input) + CollectItems(mode, codeKey, b, input)
    ensures CollectItems(mode, codeKey, [row], input)
         == if Matches(mode, codeKey, row, input) then [ItemOf(mode, codeKey, row, input)] else []
  {
    var keep := (r: Row) => Matches(mode, codeKey, r, input);
    var f := (r: Row) => ItemOf(mode, codeKey, r, input);
    FilterMapAppend(a, b, keep, f);
    FilterMapSingle(row, keep, f);
  }

  /** Every collected item is what some matching source row becomes. */
  lemma CollectedFromMatch(mode: Mode, codeKey: string, data: seq<Row>, input: string, j: nat)
    requires j < |CollectItems(mode, codeKey, data, input)|
    ensures exists i ::
      && 0 <= i < |data| && Matches(mode, codeKey, data[i], input)
      && CollectItems(mode, codeKey, data, input)[j] == ItemOf(mode, codeKey, data[i], input)
  {
    FilterMapFrom(data, (r: Row) => Matches(mode, codeKey, r, input), (r: Row) => ItemOf(mode, codeKey, r, input), j);
  }

  /** Every matching source row is collected. */
  lemma MatchCollected(mode: Mode, codeKey: string, data: seq<Row>, input: string, i: nat)
    requires i < |data| && Matches(mode, codeKey, data[i], input)
    ensures ItemOf(mode, codeKey, data[i], input) in CollectItems(mode, codeKey, data, input)
  {
    FilterMapHas(data, (r: Row) => Matches(mode, codeKey, r, input), (r: Row) => ItemOf(mode, codeKey, r, input), i);
  }

  /** In the modes that parse codes, an item's parent is the typed parent up to case, and
      its variant is the one the parser read. */
  lemma ParsedItem(mode: Mode, codeKey: string, row: Row, input: string)
    requires mode != Senza && Matches(mode, codeKey, row, input)
    ensures var item := ItemOf(mode, codeKey, row, input);
      && Upper(Cell(item, "_parent")) == Upper(input)
      && Cell(item, "_variant") == SplitCode(mode, FullCode(row, codeKey)).1
  {
  }

  /** In senza-separatore mode an item's code starts with the typed parent (ignoring case),
      its parent is the typed parent upper-cased, and its variant is the trimmed rest of
      the code. */
  lemma SenzaItem(codeKey: string, row: Row, input: string)
    requires Matches(Senza, codeKey, row, input)
    ensures var full := FullCode(row, codeKey); var item := ItemOf(Senza, codeKey, row, input);
      && |input| <= |full| && EqualsIgnoreCase(full[..|input|], input)
      && Cell(item, "_parent") == Upper(input)
      && Cell(item, "_variant") == PhpTrim(full[|input|..])
  {
    var full := FullCode(row, codeKey);
    assert Lower(full)[..|input|] == Lower(input);
    assert Lower(full[..|input|]) == Lower(full)[..|input|];
  }
}
