/** Field helpers of the catalog plugin: the category/subcategory split of a category text
    (`gcb_extract_cat_sub`) and the most frequent value of a column over a group of source
    rows (`gcb_most_common_field`). */
module CatalogFields {
  import opened Base
  import opened Text
  import opened PhpText

  // ---------- category and subcategory ----------

  /** `>`, `|` or `/`: the bytes that separate a category from its subcategory. */
  predicate IsCatSep(c: char)
  {
    c == '>' || c == '|' || c == '/'
  }

  /** A string with no category separator. */
  predicate NoCatSep(s: string)
  {
    forall i :: 0 <= i < |s| ==> !IsCatSep(s[i])
  }

  /** Upper-casing and trimming introduce no separator. */
  lemma CanonKeepsNoCatSep(s: string)
    requires NoCatSep(s)
    ensures NoCatSep(CanonCode(s))
  {
    var t := PhpTrim(s);
    var a := WhileLen(s, IsPhpTrimChar);
    assert NoCatSep(t) by {
      forall i | 0 <= i < |t| ensures !IsCatSep(t[i]) {
        assert t[i] == s[a..a + |t|][i] == s[a + i];
      }
    }
    var u := Upper(t);
    forall i | 0 <= i < |u| ensures !IsCatSep(u[i]) {
      assert u[i] == UpperChar(t[i]);
    }
  }

  // The two-piece `preg_split` of `gcb_extract_cat_sub` (a separator with the spaces
  // around it) on a category text whose first separator is at `j`: the text before it
  // without the spaces in front of the separator, and the text after it without the spaces
  // behind.
  function SplitAtSep(cat: string, j: nat): (parts: (string, string))
    requires j < |cat| && IsCatSep(cat[j]) && NoCatSep(cat[..j])
    ensures NoCatSep(parts.0)
  {
    var before := TrimEnd(cat[..j], IsPcreSpace);
    assert NoCatSep(before) by {
      forall i | 0 <= i < |before| ensures !IsCatSep(before[i]) {
        assert before[i] == cat[..j][i];
      }
    }
    (before, TrimStart(cat[j + 1..], IsPcreSpace))
  }

  /** The category and subcategory read off a canonical category text: split at the first
      separator, each side canonical; the whole text and "" without a separator. */
  function CatParts(cat: string): (parts: (string, string))
    requires NoLower(cat) && IsTrimmed(cat)
    ensures NoCatSep(parts.0) && NoLower(parts.0) && IsTrimmed(parts.0)
    ensures NoLower(parts.1) && IsTrimmed(parts.1)
    ensures NoCatSep(cat) ==> parts == (cat, "")
  {
    var j := UntilLen(cat, IsCatSep);
    if j == |cat| then
      assert cat[..j] == cat;
      (cat, "")
    else
      var p := SplitAtSep(cat, j);
      CanonKeepsNoCatSep(p.0);
      (CanonCode(p.0), CanonCode(p.1))
  }

  /** `gcb_extract_cat_sub`: the canonical category before the first separator and the
      canonical text after it; without a subcategory there, the canonical subtitle unless
      it is PHP-empty. */
  function ExtractCatSub(categoria: string, sottotitolo: string): (r: (string, string))
    ensures NoCatSep(r.0) && NoLower(r.0) && IsTrimmed(r.0)
    ensures NoLower(r.1) && IsTrimmed(r.1)
    ensures NoCatSep(CanonCode(categoria)) ==> r.0 == CanonCode(categoria)
    ensures r.1 == "" && !PhpEmpty(sottotitolo) ==> CanonCode(sottotitolo) == ""
    ensures PhpEmpty(sottotitolo) && NoCatSep(CanonCode(categoria)) ==> r.1 == ""
  {
    var parts := CatParts(CanonCode(categoria));
    if parts.1 == "" && !PhpEmpty(sottotitolo) then (parts.0, CanonCode(sottotitolo))
    else parts
  }

  /** A canonical piece of a category text: non-empty, without lower-case letters, with
      neither trimmed bytes nor spaces at its ends. */
  predicate IsCatPart(s: string)
  {
    && |s| > 0 && NoLower(s)
    && !IsPhpTrimChar(s[0]) && !IsPcreSpace(s[0])
    && !IsPhpTrimChar(s[|s| - 1]) && !IsPcreSpace(s[|s| - 1])
  }

  lemma CatPartIsCanonical(s: string)
    requires IsCatPart(s)
    ensures CanonCode(s) == s
  {
    PhpTrimNoop(s);
    UpperOfUpper(s);
  }

  /** The category text `a > b` is canonical when both parts are. */
  lemma JoinedCatIsCanonical(a: string, b: string)
    requires IsCatPart(a) && IsCatPart(b)
    ensures CanonCode(a + " > " + b) == a + " > " + b
  {
    var s := a + " > " + b;
    assert s[0] == a[0] && s[|s| - 1] == b[|b| - 1];
    assert NoLower(s) by {
      forall i | 0 <= i < |s| ensures !IsAsciiLower(s[i]) {
        if i < |a| { assert s[i] == a[i]; }
        else if i >= |a| + 3 { assert s[i] == b[i - |a| - 3]; }
      }
    }
    PhpTrimNoop(s);
    UpperOfUpper(s);
  }

  /** The split of `a > b` at its first separator gives back `a` and `b`. */
  lemma SplitJoinedCat(a: string, b: string)
    requires IsCatPart(a) && IsCatPart(b) && NoCatSep(a)
    ensures UntilLen(a + " > " + b, IsCatSep) == |a| + 1
    ensures SplitAtSep(a + " > " + b, |a| + 1) == (a, b)
  {
    JoinedSepAt(a, b);
    SpaceTrimmedEnd(a);
    SpaceTrimmedStart(b);
  }

  /** The first separator of `a > b` is the one between the parts, with a space on either
      side. */
  lemma JoinedSepAt(a: string, b: string)
    requires NoCatSep(a)
    ensures var s := a + " > " + b; s[|a| + 1] == '>' && NoCatSep(s[..|a| + 1])
    ensures var s := a + " > " + b; s[..|a| + 1] == a + " " && s[|a| + 2..] == " " + b
    ensures UntilLen(a + " > " + b, IsCatSep) == |a| + 1
  {
    var s := a + " > " + b;
    var j := |a| + 1;
    assert s[..j] == a + " ";
    assert s[j + 1..] == " " + b;
    assert s[j] == '>';
    forall i | 0 <= i < j ensures !IsCatSep(s[i]) {
      if i < |a| { assert s[i] == a[i]; }
    }
    assert NoCatSep(s[..j]) by {
      forall i | 0 <= i < j ensures !IsCatSep(s[..j][i]) {
        assert s[..j][i] == s[i];
      }
    }
    UntilLenAt(s, IsCatSep, j);
  }

  lemma SpaceTrimmedEnd(a: string)
    requires IsCatPart(a)
    ensures TrimEnd(a + " ", IsPcreSpace) == a
  {
    assert (a + " ")[..|a|] == a;
  }

  lemma SpaceTrimmedStart(b: string)
    requires IsCatPart(b)
    ensures TrimStart(" " + b, IsPcreSpace) == b
  {
    assert WhileLen(" " + b, IsPcreSpace) == 1;
  }

  /** Round trip: the category and subcategory written as `a > b` come back apart,
      whatever the subtitle. */
  lemma ExtractCatSubRoundTrip(a: string, b: string, sottotitolo: string)
    requires IsCatPart(a) && IsCatPart(b) && NoCatSep(a)
    ensures ExtractCatSub(a + " > " + b, sottotitolo) == (a, b)
  {
    JoinedCatIsCanonical(a, b);
    SplitJoinedCat(a, b);
    CatPartIsCanonical(a);
    CatPartIsCanonical(b);
  }

  /** A category without a separator keeps the subtitle as its subcategory. */
  lemma ExtractCatSubPlain(categoria: string, sottotitolo: string)
    requires NoCatSep(CanonCode(categoria)) && !PhpEmpty(sottotitolo)
    ensures ExtractCatSub(categoria, sottotitolo) == (CanonCode(categoria), CanonCode(sottotitolo))
  {
  }

  // ---------- most common value ----------

  /** The trimmed non-blank values of column `key` over the items, in item order. */
  function Values(items: seq<Row>, key: string): (vals: seq<string>)
    ensures |vals| <= |items|
    ensures forall i :: 0 <= i < |vals| ==> vals[i] != ""
  {
    if |items| == 0 then []
    else
      var v := PhpTrim(Cell(items[0], key));
      if v == "" then Values(items[1..], key) else [v] + Values(items[1..], key)
  }

  /** There are no values exactly when every item's value is blank. */
  lemma {:induction false} ValuesEmpty(items: seq<Row>, key: string)
    ensures Values(items, key) == [] <==> forall i :: 0 <= i < |items| ==> PhpTrim(Cell(items[i], key)) == ""
  {
    if |items| > 0 {
      var tail := items[1..];
      ValuesEmpty(tail, key);
      var w := PhpTrim(Cell(items[0], key));
      var rest := Values(tail, key);
      assert Values(items, key) == if w == "" then rest else [w] + rest;
      if w == "" {
        assert (forall i :: 0 <= i < |items| ==> PhpTrim(Cell(items[i], key)) == "")
          <==> (forall i :: 0 <= i < |tail| ==> PhpTrim(Cell(tail[i], key)) == "") by {
          assert forall i :: 0 <= i < |tail| ==> tail[i] == items[i + 1];
          assert forall i :: 1 <= i < |items| ==> items[i] == tail[i - 1];
        }
      }
    }
  }

  /** How many times `v` occurs among the values. */
  function Count(vals: seq<string>, v: string): nat
  {
    multiset(vals)[v]
  }

  /** Position `i` holds a value with the highest count, and every value before it has a
      strictly lower count: the first-seen most frequent value. */
  predicate IsBest(vals: seq<string>, i: nat)
  {
    && i < |vals|
    && (forall j :: 0 <= j < |vals| ==> Count(vals, vals[j]) <= Count(vals, vals[i]))
    && (forall j :: 0 <= j < i ==> Count(vals, vals[j]) < Count(vals, vals[i]))
  }

  /** The first position among the first `n` whose count is highest among them. */
  function BestUpTo(vals: seq<string>, n: nat): (i: nat)
    requires 0 < n <= |vals|
    ensures i < n
    ensures forall j :: 0 <= j < n ==> Count(vals, vals[j]) <= Count(vals, vals[i])
    ensures forall j :: 0 <= j < i ==> Count(vals, vals[j]) < Count(vals, vals[i])
  {
    if n == 1 then 0
    else
      var b := BestUpTo(vals, n - 1);
      if Count(vals, vals[n - 1]) > Count(vals, vals[b]) then n - 1 else b
  }

  /** `gcb_most_common_field`: the trimmed value of `key` that occurs most often among the
      items, the first seen among equally frequent ones (`arsort` keeps the insertion order
      of equal counts), or "" when every value is blank. */
  function MostCommonField(items: seq<Row>, key: string): (r: string)
    ensures r == "" <==> forall i :: 0 <= i < |items| ==> PhpTrim(Cell(items[i], key)) == ""
    ensures r != "" ==> exists i :: 0 <= i < |Values(items, key)| && IsBest(Values(items, key), i) && Values(items, key)[i] == r
  {
    var vals := Values(items, key);
    ValuesEmpty(items, key);
    if |vals| == 0 then ""
    else
      var i := BestUpTo(vals, |vals|);
      BestUpToIsBest(vals);
      vals[i]
  }

  lemma BestUpToIsBest(vals: seq<string>)
    requires |vals| > 0
    ensures IsBest(vals, BestUpTo(vals, |vals|))
  {
  }

  /** Two positions holding the first-seen most frequent value are the same position, so
      the characterisation fixes the result. */
  lemma BestUnique(vals: seq<string>, i: nat, k: nat)
    requires IsBest(vals, i) && IsBest(vals, k)
    ensures i == k
  {
    var ci, ck := Count(vals, vals[i]), Count(vals, vals[k]);
    assert i < k ==> ci < ck;
    assert k < i ==> ck < ci;
  }

  /** Any value that occurs most often and beats every value seen before it is the result. */
  lemma MostCommonIsBest(items: seq<Row>, key: string, k: nat)
    requires IsBest(Values(items, key), k)
    ensures MostCommonField(items, key) == Values(items, key)[k]
  {
    var vals := Values(items, key);
    BestUnique(vals, BestUpTo(vals, |vals|), k);
  }

  /** When every non-blank value is the same, that value is the result. */
  lemma MostCommonOfUniform(items: seq<Row>, key: string, v: string)
    requires v != ""
    requires forall i :: 0 <= i < |items| ==> PhpTrim(Cell(items[i], key)) in {"", v}
    requires exists i :: 0 <= i < |items| && PhpTrim(Cell(items[i], key)) == v
    ensures MostCommonField(items, key) == v
  {
    ValuesEmpty(items, key);
    UniformValues(items, key, v);
  }

  /** The values of such items are all `v`. */
  lemma {:induction false} UniformValues(items: seq<Row>, key: string, v: string)
    requires forall i :: 0 <= i < |items| ==> PhpTrim(Cell(items[i], key)) in {"", v}
    ensures forall j :: 0 <= j < |Values(items, key)| ==> Values(items, key)[j] == v
  {
    if |items| > 0 {
      var tail := items[1..];
      assert forall i :: 0 <= i < |tail| ==> tail[i] == items[i + 1];
      UniformValues(tail, key, v);
      var w := PhpTrim(Cell(items[0], key));
      assert w in {"", v};
      var rest := Values(tail, key);
      assert Values(items, key) == if w == "" then rest else [w] + rest;
    }
  }
}
