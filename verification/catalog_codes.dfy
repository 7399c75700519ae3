/** The code parsers of the catalog plugin (glasscom-catalog-builder.php): they split a
    full article code into the parent code it is grouped under and the variant part.
    Morsetti codes split at the first '/', tubi codes at the first '-', classic codes at
    runs of whitespace and underscores, with the DX/SX and SMF rules. */
module CatalogCodes {
  import opened Base
  import opened Text
  import opened PhpText

  /** Only bytes that `trim` removes. */
  predicate AllTrimChars(s: string)
  {
    forall i :: 0 <= i < |s| ==> IsPhpTrimChar(s[i])
  }

  /** `explode($sep, $s, 2)`: the text before the first `sep` and, when there is one, the
      text after it. */
  function ExplodeOnce(s: string, sep: char): (r: (string, Option<string>))
    ensures !Has(r.0, sep)
    ensures r.1.None? <==> !Has(s, sep)
    ensures r.1.None? ==> r.0 == s
    ensures r.1.Some? ==> s == r.0 + [sep] + r.1.value
  {
    var n := UntilLen(s, c => c == sep);
    if n == |s| then (s, None)
    else
      assert s == s[..n] + [sep] + s[n + 1..];
      (s[..n], Some(s[n + 1..]))
  }

  /** The missing second piece reads as "" (`$parts[1] ?? ''`). */
  function OrEmpty(o: Option<string>): string
  {
    match o
    case None => ""
    case Some(s) => s
  }

  /** The separator parser shared in shape by morsetti and tubi codes: the canonical code
      split at the first `sep`, each side trimmed. */
  function SeparatorParts(full: string, sep: char): (r: (string, string))
    ensures CanonCode(full) == "" ==> r == ("", "")
    ensures !Has(r.0, sep)
    ensures !Has(CanonCode(full), sep) ==> r == (CanonCode(full), "")
  {
    var code := CanonCode(full);
    if code == "" then ("", "")
    else
      var parts := ExplodeOnce(code, sep);
      var parent := PhpTrim(parts.0);
      assert !Has(parent, sep) by {
        var w := WhileLen(parts.0, IsPhpTrimChar);
        assert forall i :: 0 <= i < |parent| ==> parent[i] == parts.0[w + i];
      }
      PhpTrimNoop(code);
      (parent, PhpTrim(OrEmpty(parts.1)))
  }

  /** `gcb_parent_and_variable_for_morsetti`. */
  function MorsettiParts(full: string): (r: (string, string))
    ensures r == SeparatorParts(full, '/')
  {
    SeparatorParts(full, '/')
  }

  /** `gcb_parent_and_variable_for_tubi`: as the morsetti parser with '-', plus an explicit
      branch for a code without '-'. */
  function TubiParts(full: string): (r: (string, string))
  {
    var code := CanonCode(full);
    if code == "" then ("", "")
    else
      var parts := ExplodeOnce(code, '-');
      var parent := PhpTrim(parts.0);
      var variant := PhpTrim(OrEmpty(parts.1));
      if parts.1.None? then (parent, "") else (parent, variant)
  }

  /** The extra branch of the tubi parser changes nothing: it is the separator parser. */
  lemma TubiIsSeparatorParts(full: string)
    ensures TubiParts(full) == SeparatorParts(full, '-')
  {
  }

  /** A string that does not start with a trimmed byte is its trimmed form followed by
      trimmed bytes. */
  lemma TrimKeepsStart(s: string)
    requires |s| > 0 ==> !IsPhpTrimChar(s[0])
    ensures StartsWith(s, PhpTrim(s))
    ensures AllTrimChars(s[|PhpTrim(s)|..])
  {
    assert WhileLen(s, IsPhpTrimChar) == 0;
  }

  /** A string that does not end with a trimmed byte is trimmed bytes followed by its
      trimmed form. */
  lemma TrimKeepsEnd(s: string)
    requires |s| > 0 ==> !IsPhpTrimChar(s[|s| - 1])
    ensures |PhpTrim(s)| <= |s| && s[|s| - |PhpTrim(s)|..] == PhpTrim(s)
    ensures AllTrimChars(s[..|s| - |PhpTrim(s)|])
  {
    var w := WhileLen(s, IsPhpTrimChar);
    assert w + |PhpTrim(s)| == |s|;
  }

  /** Two pieces around a separator, the first not starting and the second not ending
      with a trimmed byte, are their trimmed forms with trimmed bytes next to the separator. */
  lemma TrimAroundSeparator(before: string, sep: char, after: string)
    requires |before| > 0 ==> !IsPhpTrimChar(before[0])
    requires |after| > 0 ==> !IsPhpTrimChar(after[|after| - 1])
    ensures StartsWith(before + [sep] + after, PhpTrim(before))
    ensures exists a, b ::
      && AllTrimChars(a) && AllTrimChars(b)
      && before + [sep] + after == PhpTrim(before) + a + [sep] + b + PhpTrim(after)
  {
    TrimKeepsStart(before);
    TrimKeepsEnd(after);
    var p, v := PhpTrim(before), PhpTrim(after);
    var a, b := before[|p|..], after[..|after| - |v|];
    assert before == p + a;
    assert after == b + v;
    Regroup(p, a, sep, b, v);
  }

  lemma Regroup(p: string, a: string, sep: char, b: string, v: string)
    ensures (p + a) + [sep] + (b + v) == p + a + [sep] + b + v
  {
  }

  /** Explode-and-trim of a trimmed text that contains the separator: the parent piece is
      a prefix, and the pieces give back the text up to trimmed bytes around the separator. */
  lemma ExplodeTrimRebuild(code: string, sep: char)
    requires IsTrimmed(code) && Has(code, sep)
    ensures var parts := ExplodeOnce(code, sep);
      && parts.1.Some?
      && StartsWith(code, PhpTrim(parts.0))
      && exists a, b :: AllTrimChars(a) && AllTrimChars(b) && code == PhpTrim(parts.0) + a + [sep] + b + PhpTrim(parts.1.value)
  {
    var parts := ExplodeOnce(code, sep);
    var before, after := parts.0, parts.1.value;
    assert code == before + [sep] + after;
    assert |before| > 0 ==> before[0] == code[0];
    assert |after| > 0 ==> after[|after| - 1] == code[|code| - 1];
    TrimAroundSeparator(before, sep, after);
  }

  /** With a separator present, the parent is a prefix of the canonical code, and parent,
      separator and variant give back the code up to trimmed bytes around the separator. */
  lemma SeparatorPartsRebuild(full: string, sep: char)
    requires Has(CanonCode(full), sep)
    ensures var r := SeparatorParts(full, sep);
      && StartsWith(CanonCode(full), r.0)
      && exists a, b :: AllTrimChars(a) && AllTrimChars(b) && CanonCode(full) == r.0 + a + [sep] + b + r.1
  {
    ExplodeTrimRebuild(CanonCode(full), sep);
  }

  /** A code with no lower-case letter and no trimmed byte at either end, written parent,
      separator, variant, parses back into that parent and variant. */
  lemma SeparatorPartsOfPlainCode(p: string, v: string, sep: char)
    requires NoLower(p) && NoLower(v) && !IsAsciiLower(sep) && !IsPhpTrimChar(sep)
    requires IsTrimmed(p) && IsTrimmed(v)
    requires |p| > 0 && |v| > 0
    requires !Has(p, sep)
    ensures SeparatorParts(p + [sep] + v, sep) == (p, v)
  {
    var s := p + [sep] + v;
    assert s[0] == p[0] && s[|s| - 1] == v[|v| - 1];
    PhpTrimNoop(s);
    UpperOfUpper(s);
    assert CanonCode(s) == s;
    var parts := ExplodeOnce(s, sep);
    assert s[|p|] == sep;
    assert s == parts.0 + [sep] + parts.1.value;
    assert s[|parts.0|] == sep;
    assert |parts.0| == |p|;
    assert parts.0 == p;
    assert parts.1.value == v;
    PhpTrimNoop(p);
    PhpTrimNoop(v);
  }

  /** `MB2/17.52` is the morsetti code of parent `MB2`, variant `17.52`. */
  lemma MorsettiExample()
    ensures MorsettiParts("MB2/17.52") == ("MB2", "17.52")
  {
    assert "MB2/17.52" == "MB2" + ['/'] + "17.52";
    SeparatorPartsOfPlainCode("MB2", "17.52", '/');
  }

  /** `TUCO-01.304` is the tubi code of parent `TUCO`, variant `01.304`. */
  lemma TubiExample()
    ensures TubiParts("TUCO-01.304") == ("TUCO", "01.304")
  {
    assert "TUCO-01.304" == "TUCO" + ['-'] + "01.304";
    SeparatorPartsOfPlainCode("TUCO", "01.304", '-');
    TubiIsSeparatorParts("TUCO-01.304");
  }

  // ---------- classic codes ----------

  /** `[\s_]`: the bytes at which classic codes are split into tokens. */
  predicate IsClassicSep(c: char)
  {
    IsPcreSpace(c) || c == '_'
  }

  /** The SMF rule's two tests on the first token: it is "SMF" followed by one or more
      alphanumerics (`ctype_alnum`), and it matches `^SMF([0-9][A-Z0-9]*)$` (a token holds
      no newline, so the end anchor has no other way to match). */
  predicate IsSmfToken(t: string)
  {
    && StartsWith(t, "SMF") && |t| > 3 && (forall i :: 3 <= i < |t| ==> IsAsciiAlnum(t[i]))
    && IsDigit(t[3]) && (forall i :: 3 <= i < |t| ==> IsUpperAlnum(t[i]))
  }

  /** The tokens of the canonical code. */
  function ClassicTokens(full: string): (t: seq<string>)
  {
    Tokens(CanonCode(full), IsClassicSep)
  }

  /** The second token names a side. */
  predicate IsSideToken(t: string)
  {
    t == "DX" || t == "SX"
  }

  /** Tokens as `preg_split` with `PREG_SPLIT_NO_EMPTY` yields them: non-empty, with no
      separator byte. */
  predicate WellFormedTokens(tokens: seq<string>)
  {
    forall k :: 0 <= k < |tokens| ==> IsToken(tokens[k], IsClassicSep)
  }

  /** The rules of the classic parser on the tokens of a non-empty code. */
  function PartsOfTokens(tokens: seq<string>): (r: (string, string))
    requires WellFormedTokens(tokens)
    ensures r.0 == "" <==> tokens == []
    ensures r.0 == "" ==> r.1 == ""
    ensures forall i :: 0 <= i < |r.0| ==> !IsClassicSep(r.0[i])
  {
    if |tokens| == 0 then ("", "")
    else if |tokens| >= 2 && IsSideToken(tokens[1]) then
      var p := tokens[0] + tokens[1];
      assert forall i :: 0 <= i < |p| ==> p[i] == if i < |tokens[0]| then tokens[0][i] else tokens[1][i - |tokens[0]|];
      (p, PhpTrim(Join(tokens[2..], " ")))
    else if IsSmfToken(tokens[0]) then
      var rest := if |tokens| == 1 then "" else " " + Join(tokens[1..], " ");
      ("SMF", PhpTrim(tokens[0][3..] + rest))
    else (tokens[0], PhpTrim(Join(tokens[1..], " ")))
  }

  /** `gcb_parent_and_variant`: the first token is the parent, joined with a DX/SX second
      token when there is one; a first token SMF<digit>... has parent "SMF" and its tail
      opens the variant. The variant is the remaining tokens joined by single spaces. */
  function ClassicParts(full: string): (r: (string, string))
    ensures r.0 == "" <==> forall i :: 0 <= i < |CanonCode(full)| ==> IsClassicSep(CanonCode(full)[i])
    ensures r.0 == "" ==> r.1 == ""
    ensures forall i :: 0 <= i < |r.0| ==> !IsClassicSep(r.0[i])
  {
    var code := CanonCode(full);
    if code == "" then ("", "")
    else
      var tokens := Tokens(code, IsClassicSep);
      TokensEmpty(code, IsClassicSep);
      PartsOfTokens(tokens)
  }

  /** A DX/SX second token joins the parent, and this rule is tried before the SMF rule. */
  lemma ClassicSideRule(full: string)
    requires |ClassicTokens(full)| >= 2 && IsSideToken(ClassicTokens(full)[1])
    ensures var t := ClassicTokens(full);
      ClassicParts(full) == (t[0] + t[1], PhpTrim(Join(t[2..], " ")))
  {
  }

  /** Without a side token, a first token SMF<digit><alphanumerics> has parent "SMF", a
      prefix of that token. */
  lemma ClassicSmfRule(full: string)
    requires |ClassicTokens(full)| >= 1 && IsSmfToken(ClassicTokens(full)[0])
    requires |ClassicTokens(full)| >= 2 ==> !IsSideToken(ClassicTokens(full)[1])
    ensures ClassicParts(full).0 == "SMF"
    ensures StartsWith(ClassicTokens(full)[0], ClassicParts(full).0)
  {
  }

  /** Otherwise the parent is the first token and the variant the other tokens. */
  lemma ClassicFirstTokenRule(full: string)
    requires |ClassicTokens(full)| >= 1 && !IsSmfToken(ClassicTokens(full)[0])
    requires |ClassicTokens(full)| >= 2 ==> !IsSideToken(ClassicTokens(full)[1])
    ensures var t := ClassicTokens(full);
      ClassicParts(full) == (t[0], PhpTrim(Join(t[1..], " ")))
  {
  }

  /** On the tokens of `SMF12 DX CR` the side rule wins over the SMF rule. */
  lemma SideRuleBeatsSmfExample()
    ensures PartsOfTokens(["SMF12", "DX", "CR"]) == ("SMF12DX", "CR")
  {
    var t := ["SMF12", "DX", "CR"];
    assert t[2..] == ["CR"];
    assert Join(["CR"], " ") == "CR";
    assert t[0] + t[1] == "SMF12DX";
    PhpTrimNoop("CR");
  }

  /** On the tokens of `SMF12 CR` the SMF rule takes the digits into the variant. */
  lemma SmfRuleExample()
    ensures PartsOfTokens(["SMF12", "CR"]) == ("SMF", "12 CR")
  {
    var t := ["SMF12", "CR"];
    assert !IsSideToken(t[1]);
    assert IsSmfToken("SMF12");
    assert t[1..] == ["CR"];
    assert Join(["CR"], " ") == "CR";
    assert t[0][3..] + (" " + Join(t[1..], " ")) == "12 CR";
    PhpTrimNoop("12 CR");
  }
}
