/** The finish vocabulary of the catalog plugin and the resolver that reads the finish
    code off the end of a variant's article code (classic and senza-separatore modes). */
module CatalogFinish {
  import opened Base
  import opened Text
  import opened PhpText

  /** `gcb_finish_options`: label and code of each finish, in the order of the source. */
  function FinishOptions(): seq<(string, string)>
  {
    [
      ("Oro Satinato Antichizzato", "AO"),
      ("Cromo Lucido", "CR"),
      ("Cromo Satinato", "CS"),
      ("Cromo Opaco", "CO"),
      ("Cromo Perla", "CP"),
      ("Grigio Argento", "GA"),
      ("Inox Lucido", "IL"),
      ("Inox Satinato", "IX"),
      ("Effetto Inox Satinato", "EIX"),
      ("Nero Opaco", "NO"),
      ("Nichel Lucido", "NL"),
      ("Nichel Satinato", "NS"),
      ("Nichelato Opaco", "NP"),
      ("Alluminio Anodizzato", "AN"),
      ("Brillantato", "BA"),
      ("Ottone Lucido", "OLC"),
      ("Ottone Cromo Lucido", "OCL"),
      ("Ottone Cromo Satinato", "OCO"),
      ("Ottone Bronzato", "OBZ"),
      ("Ottone Spazzolato", "OSP"),
      ("Zincato", "ZN")
    ]
  }

  /** `c` is the code of some finish. */
  predicate IsFinishCode(c: string)
  {
    exists k :: 0 <= k < |FinishOptions()| && FinishOptions()[k].1 == c
  }

  /** The finish codes: two or three upper-case letters, no two alike. */
  lemma FinishCodesShape()
    ensures forall k :: 0 <= k < |FinishOptions()| ==>
      2 <= |FinishOptions()[k].1| <= 3 && forall i :: 0 <= i < |FinishOptions()[k].1| ==> IsAsciiUpper(FinishOptions()[k].1[i])
    ensures forall k :: 0 <= k < |FinishOptions()| ==> FinishOptions()[k].0 != ""
  {
  }

  lemma FinishCodesDistinct()
    ensures forall j, k :: 0 <= j < k < |FinishOptions()| ==> FinishOptions()[j].1 != FinishOptions()[k].1
  {
  }

  /** `array_flip(gcb_finish_options())[$code] ?? ''`: the label of the last finish with
      this code (a later key of `array_flip` overwrites an earlier one), or "". */
  function FlipLookup(opts: seq<(string, string)>, code: string): (name: string)
    ensures name != "" ==> exists k :: 0 <= k < |opts| && opts[k] == (name, code)
  {
    match LastWhereAtOrBefore(opts, (o: (string, string)) => o.1 == code, |opts| - 1)
    case None => ""
    case Some(k) => opts[k].0
  }

  /** `gcb_finish_label_by_code`: the label of the canonical code, "" for a blank or unknown
      code. */
  function FinishLabelByCode(code: string): (name: string)
    ensures name != "" ==> IsFinishCode(CanonCode(code))
    ensures name == "" ==> CanonCode(code) == "" || !IsFinishCode(CanonCode(code))
  {
    var c := CanonCode(code);
    FinishCodesShape();
    if c == "" then "" else FlipLookup(FinishOptions(), c)
  }

  /** Each code gives back its own label: the codes are distinct and already canonical (and
      at least two letters long). */
  lemma LabelOfEachCode(k: nat)
    requires k < |FinishOptions()|
    ensures FinishLabelByCode(FinishOptions()[k].1) == FinishOptions()[k].0
    ensures |FinishOptions()[k].1| >= 2
  {
    var opts := FinishOptions();
    var c := opts[k].1;
    FinishCodesShape();
    FinishCodesDistinct();
    assert NoLower(c) && IsTrimmed(c);
    PhpTrimNoop(c);
    UpperOfUpper(c);
  }

  /** `[\s\-_]`: the bytes stripped from the front of the rest of a variant code. */
  predicate IsLeadFiller(c: char)
  {
    IsPcreSpace(c) || c == '-' || c == '_'
  }

  /** The text after the parent: the trimmed remainder when the code starts with the parent
      (ignoring case), the whole code otherwise, without leading spaces, dashes and
      underscores. */
  function RestAfterParent(p: string, f: string): string
  {
    var rest := if StartsWithIgnoreCase(f, p) then PhpTrim(f[|p|..]) else f;
    TrimStart(rest, IsLeadFiller)
  }

  /** `gcb_finish_code_from_variant`: the last whitespace-separated piece of the text after
      the parent, upper-cased, when it is a finish code; "" otherwise and for a blank parent
      or code. */
  function FinishCodeFromVariant(parent: string, full: string): (sigla: string)
    ensures PhpTrim(parent) == "" || PhpTrim(full) == "" ==> sigla == ""
    ensures sigla == "" || IsFinishCode(sigla)
    ensures sigla != "" ==> FinishLabelByCode(sigla) != ""
  {
    var p := PhpTrim(parent);
    var f := PhpTrim(full);
    if p == "" || f == "" then ""
    else
      var sigla := CanonCode(LastPiece(RestAfterParent(p, f), IsPcreSpace));
      if FinishLabelByCode(sigla) != "" then
        CanonCodeIdempotent(LastPiece(RestAfterParent(p, f), IsPcreSpace));
        sigla
      else ""
  }

  /** A piece with no whitespace is its own last piece. */
  lemma {:induction false} LastPieceOfPiece(s: string)
    requires forall i :: 0 <= i < |s| ==> !IsPcreSpace(s[i])
    ensures LastPiece(s, IsPcreSpace) == s
    decreases |s|
  {
    if |s| > 0 {
      LastPieceOfPiece(s[..|s| - 1]);
    }
  }

  /** An upper-case word with no space or filler in it. */
  predicate IsUpperWord(c: string)
  {
    |c| > 0 && forall i :: 0 <= i < |c| ==> IsAsciiUpper(c[i])
  }

  /** A string starts with each of its prefixes, ignoring case. */
  lemma StartsWithOwnPrefix(p: string, q: string)
    ensures StartsWithIgnoreCase(p + q, p)
  {
    assert Lower(p + q)[..|p|] == Lower(p);
  }

  /** A space in front of an upper-case word is trimmed away. */
  lemma TrimSpacedWord(c: string)
    requires IsUpperWord(c)
    ensures PhpTrim(" " + c) == c
  {
    assert WhileLen(" " + c, IsPhpTrimChar) == 1 + WhileLen(c, IsPhpTrimChar);
    assert WhileLen(c, IsPhpTrimChar) == 0;
    assert (" " + c)[1..] == c;
    TrimNoop(c, IsPhpTrimChar);
  }

  /** A trimmed parent, a space and an upper-case word need no trimming. */
  lemma SuffixedIsTrimmed(parent: string, c: string)
    requires |parent| > 0 && IsTrimmed(parent) && IsUpperWord(c)
    ensures PhpTrim(parent + " " + c) == parent + " " + c
  {
    var full := parent + " " + c;
    assert full[0] == parent[0] && full[|full| - 1] == c[|c| - 1];
    PhpTrimNoop(full);
  }

  /** When the code starts with the parent, the text after the parent is the trimmed
      remainder without its leading filler. */
  lemma RestAfterPrefix(p: string, q: string)
    ensures RestAfterParent(p, p + q) == TrimStart(PhpTrim(q), IsLeadFiller)
  {
    StartsWithOwnPrefix(p, q);
    assert (p + q)[|p|..] == q;
  }

  /** An upper-case word has no leading filler. */
  lemma NoFillerInWord(c: string)
    requires IsUpperWord(c)
    ensures TrimStart(c, IsLeadFiller) == c
  {
    assert WhileLen(c, IsLeadFiller) == 0;
  }

  /** After a parent and a space, the text after the parent is the upper-case word that
      follows. */
  lemma RestOfSuffixedCode(parent: string, c: string)
    requires |parent| > 0 && IsTrimmed(parent) && IsUpperWord(c)
    ensures PhpTrim(parent) == parent && PhpTrim(parent + " " + c) == parent + " " + c
    ensures RestAfterParent(parent, parent + " " + c) == c
  {
    PhpTrimNoop(parent);
    SuffixedIsTrimmed(parent, c);
    assert parent + " " + c == parent + (" " + c);
    RestAfterPrefix(parent, " " + c);
    TrimSpacedWord(c);
    NoFillerInWord(c);
  }

  /** An upper-case word is its own canonical last piece. */
  lemma UpperWordPiece(c: string)
    requires IsUpperWord(c)
    ensures CanonCode(LastPiece(c, IsPcreSpace)) == c
  {
    LastPieceOfPiece(c);
    PhpTrimNoop(c);
    UpperOfUpper(c);
  }

  /** A variant written as its parent, a space and a finish code resolves to that code. */
  lemma FinishOfSuffixedCode(parent: string, k: nat)
    requires k < |FinishOptions()|
    requires |parent| > 0 && IsTrimmed(parent)
    ensures FinishCodeFromVariant(parent, parent + " " + FinishOptions()[k].1) == FinishOptions()[k].1
  {
    var c := FinishOptions()[k].1;
    FinishCodesShape();
    assert IsUpperWord(c);
    RestOfSuffixedCode(parent, c);
    UpperWordPiece(c);
    LabelOfEachCode(k);
  }
}
