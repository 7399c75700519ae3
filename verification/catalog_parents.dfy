/** The list of parent codes typed into the build form: one code per line, each trimmed,
    with empty lines and PHP-empty codes dropped
    (`array_filter(array_map('trim', preg_split('/\R+/', ...)))`). */
module CatalogParents {
  import opened Text
  import opened PhpText

  /** A line that survives the filtering unchanged: not PHP-empty, trimmed, and free of
      line breaks. */
  predicate IsParentLine(s: string)
  {
    !PhpEmpty(s) && IsTrimmed(s) && NoBreak(s)
  }

  /** A string without line breaks. */
  predicate NoBreak(s: string)
  {
    forall i :: 0 <= i < |s| ==> !IsPcreNewline(s[i])
  }

  /** Trimming a piece with no line break leaves none. */
  lemma TrimmedPiece(t: string)
    requires NoBreak(t)
    ensures NoBreak(PhpTrim(t))
  {
    var w := WhileLen(t, IsPhpTrimChar);
    assert forall i :: 0 <= i < |PhpTrim(t)| ==> PhpTrim(t)[i] == t[w + i];
  }

  /** The trimmed pieces that are not PHP-empty, in order. */
  function KeepFilled(pieces: seq<string>): (ps: seq<string>)
    ensures |ps| <= |pieces|
    ensures forall k :: 0 <= k < |ps| ==> !PhpEmpty(ps[k]) && IsTrimmed(ps[k])
    ensures (forall k :: 0 <= k < |pieces| ==> NoBreak(pieces[k])) ==> forall k :: 0 <= k < |ps| ==> NoBreak(ps[k])
  {
    if |pieces| == 0 then []
    else
      var p := PhpTrim(pieces[0]);
      assert NoBreak(pieces[0]) ==> NoBreak(p) by {
        if NoBreak(pieces[0]) {
          TrimmedPiece(pieces[0]);
        }
      }
      var rest := KeepFilled(pieces[1..]);
      if PhpEmpty(p) then rest else [p] + rest
  }

  /** The parent codes of the form's text. */
  function ParentCodes(txt: string): (ps: seq<string>)
    ensures forall k :: 0 <= k < |ps| ==> IsParentLine(ps[k])
  {
    var lines := Tokens(PhpTrim(txt), IsPcreNewline);
    assert forall k :: 0 <= k < |lines| ==> NoBreak(lines[k]) by {
      forall k | 0 <= k < |lines| ensures NoBreak(lines[k]) {
        assert IsToken(lines[k], IsPcreNewline);
      }
    }
    KeepFilled(lines)
  }

  /** Lines that survive the filtering are kept as they are. */
  lemma {:induction false} KeepFilledNoop(ps: seq<string>)
    requires forall k :: 0 <= k < |ps| ==> IsParentLine(ps[k])
    ensures KeepFilled(ps) == ps
  {
    if |ps| > 0 {
      PhpTrimNoop(ps[0]);
      KeepFilledNoop(ps[1..]);
      assert ps == [ps[0]] + ps[1..];
    }
  }

  /** A piece with no line break is a whole line of its own. */
  lemma LineLength(p: string, t: string)
    requires NoBreak(p)
    requires |t| > 0 ==> IsPcreNewline(t[0])
    ensures UntilLen(p + t, IsPcreNewline) == |p|
  {
    var s := p + t;
    assert forall i :: 0 <= i < |p| ==> s[i] == p[i];
    assert |t| > 0 ==> s[|p|] == t[0];
  }

  /** A line followed by nothing or by a line break is the first line. */
  lemma TokensOfLine(p: string, t: string)
    requires |p| > 0 && NoBreak(p)
    requires |t| > 0 ==> IsPcreNewline(t[0])
    ensures Tokens(p + t, IsPcreNewline) == [p] + Tokens(t, IsPcreNewline)
  {
    var s := p + t;
    assert WhileLen(s, IsPcreNewline) == 0 by {
      assert s[0] == p[0];
    }
    LineLength(p, t);
    assert s[..|p|] == p && s[|p|..] == t;
  }

  /** A leading line break does not change the lines. */
  lemma TokensSkipBreak(t: string)
    ensures Tokens("\n" + t, IsPcreNewline) == Tokens(t, IsPcreNewline)
  {
    var s := "\n" + t;
    assert s[1..] == t;
    assert WhileLen(s, IsPcreNewline) == 1 + WhileLen(t, IsPcreNewline);
    assert TrimStart(s, IsPcreNewline) == TrimStart(t, IsPcreNewline);
  }

  /** The first and last characters of lines joined by line breaks. */
  lemma {:induction false} JoinEnds(ps: seq<string>)
    requires |ps| > 0 && forall k :: 0 <= k < |ps| ==> |ps[k]| > 0
    ensures var j := Join(ps, "\n"); |j| > 0 && j[0] == ps[0][0] && j[|j| - 1] == ps[|ps| - 1][|ps[|ps| - 1]| - 1]
  {
    if |ps| > 1 {
      JoinEnds(ps[1..]);
    }
  }

  /** A single line is split into itself. */
  lemma TokensOfOneLine(p: string)
    requires |p| > 0 && NoBreak(p)
    ensures Tokens(p, IsPcreNewline) == [p]
  {
    TokensOfLine(p, "");
    assert p + "" == p;
    assert Tokens("", IsPcreNewline) == [];
  }

  /** The lines of `p`, a line break and the rest are `p` and the lines of the rest. */
  lemma TokensOfBrokenLine(p: string, rest: string)
    requires |p| > 0 && NoBreak(p)
    ensures Tokens(p + ("\n" + rest), IsPcreNewline) == [p] + Tokens(rest, IsPcreNewline)
  {
    TokensOfLine(p, "\n" + rest);
    TokensSkipBreak(rest);
  }

  lemma TokensOfJoinCons(ps: seq<string>)
    requires |ps| > 1 && |ps[0]| > 0 && NoBreak(ps[0])
    requires Tokens(Join(ps[1..], "\n"), IsPcreNewline) == ps[1..]
    ensures Tokens(Join(ps, "\n"), IsPcreNewline) == ps
  {
    var rest := Join(ps[1..], "\n");
    assert Join(ps, "\n") == ps[0] + ("\n" + rest);
    TokensOfBrokenLine(ps[0], rest);
    assert ps == [ps[0]] + ps[1..];
  }

  /** Splitting lines joined by line breaks gives the lines back. */
  lemma {:induction false} TokensOfJoin(ps: seq<string>)
    requires forall k :: 0 <= k < |ps| ==> IsParentLine(ps[k])
    ensures Tokens(Join(ps, "\n"), IsPcreNewline) == ps
  {
    if |ps| == 1 {
      TokensOfOneLine(ps[0]);
    } else if |ps| > 1 {
      assert forall k :: 0 <= k < |ps| - 1 ==> ps[1..][k] == ps[k + 1];
      TokensOfJoin(ps[1..]);
      TokensOfJoinCons(ps);
    }
  }

  /** Round trip: parent codes written one per line are read back as they were. */
  lemma ParentCodesOfLines(ps: seq<string>)
    requires forall k :: 0 <= k < |ps| ==> IsParentLine(ps[k])
    ensures ParentCodes(Join(ps, "\n")) == ps
  {
    var j := Join(ps, "\n");
    if |ps| > 0 {
      JoinEnds(ps);
    }
    PhpTrimNoop(j);
    TokensOfJoin(ps);
    KeepFilledNoop(ps);
  }
}
