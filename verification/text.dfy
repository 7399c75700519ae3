/** String helpers shared by the three builders: character classes (written out per
    language, since JavaScript, Python, PHP and PCRE disagree on what whitespace is),
    ASCII case mapping, trimming, prefix and substring tests, run-based splitting and
    replacement as done by the regular expressions of the source, joining, and decimal
    numerals. PHP strings are byte strings; here each `char` stands for one byte. */
module Text {

  // ---------- character classes ----------

  predicate IsDigit(c: char) { '0' <= c <= '9' }

  predicate IsAsciiUpper(c: char) { 'A' <= c <= 'Z' }

  predicate IsAsciiLower(c: char) { 'a' <= c <= 'z' }

  /** `[A-Z0-9]` */
  predicate IsUpperAlnum(c: char) { IsAsciiUpper(c) || IsDigit(c) }

  /** `[a-z0-9]` */
  predicate IsLowerAlnum(c: char) { IsAsciiLower(c) || IsDigit(c) }

  /** PHP `ctype_alnum` for one byte in the C locale. */
  predicate IsAsciiAlnum(c: char) { IsAsciiUpper(c) || IsAsciiLower(c) || IsDigit(c) }

  /** Whitespace removed by JavaScript `String.prototype.trim` and matched by `\s` in a
      JavaScript regular expression: WhiteSpace and LineTerminator of ECMAScript. */
  predicate IsJsSpace(c: char)
  {
    c == '\t' || c == '\n' || c == '\U{B}' || c == '\U{C}' || c == '\r' || c == ' '
    || c == '\U{A0}' || c == '\U{1680}' || ('\U{2000}' <= c <= '\U{200A}')
    || c == '\U{2028}' || c == '\U{2029}' || c == '\U{202F}' || c == '\U{205F}'
    || c == '\U{3000}' || c == '\U{FEFF}'
  }

  /** Whitespace removed by Python `str.strip()` (the characters for which `str.isspace` holds). */
  predicate IsPySpace(c: char)
  {
    ('\t' <= c <= '\r') || ('\U{1C}' <= c <= '\U{1F}') || c == ' ' || c == '\U{85}'
    || c == '\U{A0}' || c == '\U{1680}' || ('\U{2000}' <= c <= '\U{200A}')
    || c == '\U{2028}' || c == '\U{2029}' || c == '\U{202F}' || c == '\U{205F}'
    || c == '\U{3000}'
  }

  /** Bytes removed by PHP `trim($s)` with its default character list " \t\n\r\0\x0B". */
  predicate IsPhpTrimChar(c: char)
  {
    c == ' ' || c == '\t' || c == '\n' || c == '\r' || c == '\0' || c == '\U{B}'
  }

  /** `\s` of a PCRE pattern without the `u` flag: tab, LF, VT, FF, CR and space. */
  predicate IsPcreSpace(c: char)
  {
    ('\t' <= c <= '\r') || c == ' '
  }

  /** The single characters `\R` matches in a PCRE pattern without the `u` flag
      (CR LF is a run of two of them). */
  predicate IsPcreNewline(c: char)
  {
    ('\n' <= c <= '\r') || c == '\U{85}'
  }

  // ---------- case mapping (ASCII) ----------

  function UpperChar(c: char): char
  {
    if IsAsciiLower(c) then (c as int - 32) as char else c
  }

  function LowerChar(c: char): char
  {
    if IsAsciiUpper(c) then (c as int + 32) as char else c
  }

  function Upper(s: string): (r: string)
    ensures |r| == |s|
    ensures forall i :: 0 <= i < |s| ==> r[i] == UpperChar(s[i])
  {
    seq(|s|, i requires 0 <= i < |s| => UpperChar(s[i]))
  }

  function Lower(s: string): (r: string)
    ensures |r| == |s|
    ensures forall i :: 0 <= i < |s| ==> r[i] == LowerChar(s[i])
  {
    seq(|s|, i requires 0 <= i < |s| => LowerChar(s[i]))
  }

  /** Equality up to ASCII case, as `a.toLowerCase() === b.toLowerCase()` compares. */
  predicate EqualsIgnoreCase(a: string, b: string)
  {
    Lower(a) == Lower(b)
  }

  lemma UpperIdempotent(s: string)
    ensures Upper(Upper(s)) == Upper(s)
  {
  }

  /** A string without lower-case ASCII letters is its own upper-case form. */
  lemma UpperOfUpper(s: string)
    requires forall i :: 0 <= i < |s| ==> !IsAsciiLower(s[i])
    ensures Upper(s) == s
  {
  }

  /** A string without upper-case ASCII letters is its own lower-case form. */
  lemma LowerOfLower(s: string)
    requires forall i :: 0 <= i < |s| ==> !IsAsciiUpper(s[i])
    ensures Lower(s) == s
  {
  }

  // ---------- prefixes, substrings, runs ----------

  predicate StartsWith(s: string, p: string)
  {
    |p| <= |s| && s[..|p|] == p
  }

  /** `s` contains `sub` as a contiguous substring. */
  predicate Contains(s: string, sub: string)
    decreases |s|
  {
    StartsWith(s, sub) || (|s| > 0 && Contains(s[1..], sub))
  }

  lemma ContainsSelf(s: string)
    ensures Contains(s, s)
  {
    assert s[..|s|] == s;
  }

  /** An occurrence at position `k` is a containment. */
  lemma {:induction false} ContainsAt(s: string, sub: string, k: nat)
    requires k + |sub| <= |s| && s[k..k + |sub|] == sub
    ensures Contains(s, sub)
    decreases k
  {
    if k > 0 {
      assert s[1..][k - 1..k - 1 + |sub|] == sub;
      ContainsAt(s[1..], sub, k - 1);
    } else {
      assert s[..|sub|] == sub;
    }
  }

  /** Nothing longer than `s` occurs in it. */
  lemma {:induction false} ContainsLonger(s: string, sub: string)
    requires |sub| > |s|
    ensures !Contains(s, sub)
    decreases |s|
  {
    if |s| > 0 {
      ContainsLonger(s[1..], sub);
    }
  }

  /** `s` contains character `c`. */
  predicate Has(s: string, c: char)
  {
    exists i :: 0 <= i < |s| && s[i] == c
  }

  /** Length of the longest prefix of `s` whose characters all satisfy `p`. */
  function WhileLen(s: string, p: char -> bool): (n: nat)
    ensures n <= |s|
    ensures forall i :: 0 <= i < n ==> p(s[i])
    ensures n < |s| ==> !p(s[n])
  {
    if |s| == 0 || !p(s[0]) then 0 else 1 + WhileLen(s[1..], p)
  }

  /** Length of the longest prefix of `s` with no character satisfying `p`. */
  function UntilLen(s: string, p: char -> bool): (n: nat)
    ensures n <= |s|
    ensures forall i :: 0 <= i < n ==> !p(s[i])
    ensures n < |s| ==> p(s[n])
  {
    if |s| == 0 || p(s[0]) then 0 else 1 + UntilLen(s[1..], p)
  }

  /** The first character satisfying `p` sits at `j` when `p` holds there and nowhere
      before. */
  lemma UntilLenAt(s: string, p: char -> bool, j: nat)
    requires j < |s| && p(s[j])
    requires forall i :: 0 <= i < j ==> !p(s[i])
    ensures UntilLen(s, p) == j
  {
  }

  /** `s` without its leading characters that satisfy `p`. */
  function TrimStart(s: string, p: char -> bool): (r: string)
    ensures |r| <= |s| && r == s[|s| - |r|..]
    ensures forall i :: 0 <= i < |s| - |r| ==> p(s[i])
    ensures |r| > 0 ==> !p(r[0])
  {
    s[WhileLen(s, p)..]
  }

  /** `s` without its trailing characters that satisfy `p`. */
  function TrimEnd(s: string, p: char -> bool): (r: string)
    ensures |r| <= |s| && r == s[..|r|]
    ensures forall i :: |r| <= i < |s| ==> p(s[i])
    ensures |r| > 0 ==> !p(r[|r| - 1])
    decreases |s|
  {
    if |s| > 0 && p(s[|s| - 1]) then TrimEnd(s[..|s| - 1], p) else s
  }

  /** `s` without leading and trailing characters that satisfy `p`. */
  function Trim(s: string, p: char -> bool): (r: string)
    ensures WhileLen(s, p) + |r| <= |s| && r == s[WhileLen(s, p)..WhileLen(s, p) + |r|]
    ensures forall i :: WhileLen(s, p) + |r| <= i < |s| ==> p(s[i])
    ensures |r| > 0 ==> !p(r[0]) && !p(r[|r| - 1])
  {
    var a := TrimStart(s, p);
    var r := TrimEnd(a, p);
    var k := |s| - |a|;
    assert r == s[k..k + |r|];
    assert forall i :: k + |r| <= i < |s| ==> p(s[i]) by {
      forall i | k + |r| <= i < |s| ensures p(s[i]) {
        assert s[i] == a[i - k];
      }
    }
    r
  }

  /** A string that starts and ends outside `p` is left alone by `Trim`. */
  lemma TrimNoop(s: string, p: char -> bool)
    requires |s| > 0 ==> !p(s[0]) && !p(s[|s| - 1])
    ensures Trim(s, p) == s
  {
    assert WhileLen(s, p) == 0;
    assert TrimStart(s, p) == s;
  }

  /** `Trim` computed one end character at a time, as `str.strip` and `String.trim` work.
      It carries no contract of its own: `StripIsTrim` shows it equals `Trim`. */
  function Strip(s: string, p: char -> bool): string
    decreases |s|
  {
    if |s| > 0 && p(s[0]) then Strip(s[1..], p)
    else if |s| > 0 && p(s[|s| - 1]) then Strip(s[..|s| - 1], p)
    else s
  }

  /** Dropping a leading character that `p` removes does not change the trimmed text. */
  lemma TrimDropFirst(s: string, p: char -> bool)
    requires |s| > 0 && p(s[0])
    ensures Trim(s, p) == Trim(s[1..], p)
  {
    var w := WhileLen(s[1..], p);
    assert WhileLen(s, p) == 1 + w;
    assert TrimStart(s, p) == s[1..][w..];
  }

  /** Dropping a trailing character that `p` removes does not change the trimmed text. */
  lemma TrimDropLast(s: string, p: char -> bool)
    requires |s| > 0 && p(s[|s| - 1])
    ensures Trim(s, p) == Trim(s[..|s| - 1], p)
  {
    var t := s[..|s| - 1];
    var w := WhileLen(s, p);
    if w == |s| {
      forall i | 0 <= i < w - 1 ensures p(t[i]) {
        assert t[i] == s[i];
      }
      WhileLenAt(t, p, w - 1);
    } else {
      forall i | 0 <= i < w ensures p(t[i]) {
        assert t[i] == s[i];
      }
      assert t[w] == s[w];
      WhileLenAt(t, p, w);
      var a := TrimStart(s, p);
      assert TrimStart(t, p) == a[..|a| - 1];
    }
  }

  /** `WhileLen` is the first position that `p` does not hold at. */
  lemma WhileLenAt(s: string, p: char -> bool, j: nat)
    requires j <= |s|
    requires forall i :: 0 <= i < j ==> p(s[i])
    requires j < |s| ==> !p(s[j])
    ensures WhileLen(s, p) == j
  {
  }

  /** Trimming one character at a time gives the same text as `Trim`. */
  lemma {:induction false} StripIsTrim(s: string, p: char -> bool)
    ensures Strip(s, p) == Trim(s, p)
    decreases |s|
  {
    if |s| > 0 && p(s[0]) {
      StripIsTrim(s[1..], p);
      TrimDropFirst(s, p);
    } else if |s| > 0 && p(s[|s| - 1]) {
      StripIsTrim(s[..|s| - 1], p);
      TrimDropLast(s, p);
    } else {
      TrimNoop(s, p);
    }
  }

  /** Trimming twice is trimming once. */
  lemma TrimIdempotent(s: string, p: char -> bool)
    ensures Trim(Trim(s, p), p) == Trim(s, p)
  {
    TrimNoop(Trim(s, p), p);
  }

  /** Every character of `s` that satisfies `p`, in order. */
  function Filter(s: string, p: char -> bool): (r: string)
    ensures |r| <= |s|
    ensures forall i :: 0 <= i < |r| ==> p(r[i])
  {
    if |s| == 0 then ""
    else if p(s[0]) then [s[0]] + Filter(s[1..], p)
    else Filter(s[1..], p)
  }

  lemma FilterAppend(a: string, b: string, p: char -> bool)
    ensures Filter(a + b, p) == Filter(a, p) + Filter(b, p)
  {
    if |a| > 0 {
      assert (a + b)[0] == a[0];
      assert (a + b)[1..] == a[1..] + b;
      FilterAppend(a[1..], b, p);
    } else {
      assert a + b == b;
    }
  }

  /** Filtering by `q` sees nothing of a string none of whose characters satisfies `q`. */
  lemma FilterNone(s: string, q: char -> bool)
    requires forall i :: 0 <= i < |s| ==> !q(s[i])
    ensures Filter(s, q) == ""
  {
  }

  /** A filter yields nothing exactly when no character passes it. */
  lemma {:induction false} FilterEmpty(s: string, q: char -> bool)
    ensures Filter(s, q) == "" <==> forall i :: 0 <= i < |s| ==> !q(s[i])
    decreases |s|
  {
    if |s| > 0 {
      FilterEmpty(s[1..], q);
      assert forall i :: 1 <= i < |s| ==> s[i] == s[1..][i - 1];
    }
  }

  /** A filter every character passes changes nothing. */
  lemma {:induction false} FilterAll(s: string, q: char -> bool)
    requires forall i :: 0 <= i < |s| ==> q(s[i])
    ensures Filter(s, q) == s
    decreases |s|
  {
    if |s| > 0 {
      assert forall i :: 0 <= i < |s[1..]| ==> s[1..][i] == s[i + 1];
      FilterAll(s[1..], q);
      assert [s[0]] + s[1..] == s;
    }
  }

  /** A filter that rejects some character shortens the string. */
  lemma {:induction false} FilterShorter(s: string, q: char -> bool, i: nat)
    requires i < |s| && !q(s[i])
    ensures |Filter(s, q)| < |s|
    decreases |s|
  {
    if i > 0 {
      assert s[1..][i - 1] == s[i];
      FilterShorter(s[1..], q, i - 1);
    }
  }

  /** A property every character of `s` has is kept by every filter. */
  lemma {:induction false} FilterPreserves(s: string, p: char -> bool, q: char -> bool)
    requires forall i :: 0 <= i < |s| ==> q(s[i])
    ensures forall i :: 0 <= i < |Filter(s, p)| ==> q(Filter(s, p)[i])
    decreases |s|
  {
    if |s| > 0 {
      assert forall i :: 0 <= i < |s[1..]| ==> s[1..][i] == s[i + 1];
      FilterPreserves(s[1..], p, q);
    }
  }

  /** A coarser filter first changes nothing for a finer one. */
  lemma {:induction false} FilterFilter(s: string, p: char -> bool, q: char -> bool)
    requires forall c :: q(c) ==> p(c)
    ensures Filter(Filter(s, p), q) == Filter(s, q)
    decreases |s|
  {
    if |s| > 0 {
      FilterFilter(s[1..], p, q);
      if p(s[0]) {
        var f := Filter(s[1..], p);
        assert ([s[0]] + f)[0] == s[0];
        assert ([s[0]] + f)[1..] == f;
      }
    }
  }

  /** Trimming characters `q` never accepts changes nothing for a filter by `q`. */
  lemma FilterTrim(s: string, p: char -> bool, q: char -> bool)
    requires forall c :: p(c) ==> !q(c)
    ensures Filter(Trim(s, p), q) == Filter(s, q)
  {
    var w := WhileLen(s, p);
    var r := Trim(s, p);
    var head, tail := s[..w], s[w + |r|..];
    assert s == head + r + tail;
    assert forall i :: 0 <= i < |head| ==> !q(head[i]) by {
      forall i | 0 <= i < |head| ensures !q(head[i]) { assert p(s[i]); }
    }
    assert forall i :: 0 <= i < |tail| ==> !q(tail[i]) by {
      forall i | 0 <= i < |tail| ensures !q(tail[i]) { assert p(s[w + |r| + i]); }
    }
    FilterAppend(head + r, tail, q);
    FilterAppend(head, r, q);
    FilterNone(head, q);
    FilterNone(tail, q);
  }

  /** `s` with every `a` replaced by `b`. */
  function ReplaceChar(s: string, a: char, b: char): (r: string)
    ensures |r| == |s|
    ensures forall i :: 0 <= i < |s| ==> r[i] == if s[i] == a then b else s[i]
  {
    seq(|s|, i requires 0 <= i < |s| => if s[i] == a then b else s[i])
  }

  /** Replacing one character `q` rejects by another it rejects changes nothing for a filter by `q`. */
  lemma {:induction false} FilterReplaceChar(s: string, a: char, b: char, q: char -> bool)
    requires !q(a) && !q(b)
    ensures Filter(ReplaceChar(s, a, b), q) == Filter(s, q)
    decreases |s|
  {
    if |s| > 0 {
      var t := ReplaceChar(s, a, b);
      assert t[1..] == ReplaceChar(s[1..], a, b);
      FilterReplaceChar(s[1..], a, b, q);
    }
  }

  /** `s.replace(pat, "")` in Python: occurrences of `pat` removed left to right,
      scanning resumes after each removed occurrence. */
  function RemoveAll(s: string, pat: string): (r: string)
    requires |pat| > 0
    ensures |r| <= |s|
    decreases |s|
  {
    if |s| < |pat| then s
    else if s[..|pat|] == pat then RemoveAll(s[|pat|..], pat)
    else [s[0]] + RemoveAll(s[1..], pat)
  }

  /** Removing a pattern none of whose characters `q` accepts changes nothing for a filter
      by `q`. */
  lemma {:induction false} RemoveAllFilter(s: string, pat: string, q: char -> bool)
    requires |pat| > 0
    requires forall i :: 0 <= i < |pat| ==> !q(pat[i])
    ensures Filter(RemoveAll(s, pat), q) == Filter(s, q)
    decreases |s|
  {
    if |s| < |pat| {
    } else if s[..|pat|] == pat {
      var rest := s[|pat|..];
      assert s == pat + rest;
      FilterAppend(pat, rest, q);
      FilterNone(pat, q);
      RemoveAllFilter(rest, pat, q);
    } else {
      var rest := RemoveAll(s[1..], pat);
      FilterAppend([s[0]], rest, q);
      RemoveAllFilter(s[1..], pat, q);
    }
  }

  /** A string in which the pattern's first character never occurs is left alone. */
  lemma {:induction false} RemoveAllAbsent(s: string, pat: string)
    requires |pat| > 0
    requires forall i :: 0 <= i < |s| ==> s[i] != pat[0]
    ensures RemoveAll(s, pat) == s
    decreases |s|
  {
    if |s| >= |pat| {
      assert s[..|pat|][0] == s[0];
      assert forall i :: 0 <= i < |s[1..]| ==> s[1..][i] == s[i + 1];
      RemoveAllAbsent(s[1..], pat);
      assert [s[0]] + s[1..] == s;
    }
  }

  /** A leading occurrence of the pattern is removed. */
  lemma RemoveAllLeading(pat: string, s: string)
    requires |pat| > 0
    ensures RemoveAll(pat + s, pat) == RemoveAll(s, pat)
  {
    assert (pat + s)[..|pat|] == pat;
    assert (pat + s)[|pat|..] == s;
  }

  /** Each maximal run of characters satisfying `p` replaced by the single character `r`,
      as `preg_replace('/[class]+/', r, s)` does. Every character kept is `r` or one of
      `s` outside the class, and a string that starts outside the class keeps its first
      character. */
  function CollapseRuns(s: string, p: char -> bool, r: char): (out: string)
    ensures |out| <= |s| && (|s| > 0 <==> |out| > 0)
    ensures forall i :: 0 <= i < |out| ==> out[i] == r || (!p(out[i]) && out[i] in s)
    ensures |s| > 0 && !p(s[0]) ==> out[0] == s[0]
    decreases |s|
  {
    if |s| == 0 then ""
    else if p(s[0]) then [r] + CollapseRuns(s[WhileLen(s, p)..], p, r)
    else
      var rest := CollapseRuns(s[1..], p, r);
      assert forall i :: 0 <= i < |rest| ==> rest[i] == r || (!p(rest[i]) && rest[i] in s) by {
        forall i | 0 <= i < |rest| && rest[i] != r ensures rest[i] in s {
          assert rest[i] in s[1..];
        }
      }
      [s[0]] + rest
  }

  /** No two neighbouring characters both satisfy `p`. */
  predicate NoAdjacent(s: string, p: char -> bool)
  {
    forall i :: 0 <= i < |s| - 1 ==> !(p(s[i]) && p(s[i + 1]))
  }

  /** When the replacement is itself in the class, no two class characters end up side by
      side. */
  lemma {:induction false} CollapseRunsNoAdjacent(s: string, p: char -> bool, r: char)
    requires p(r)
    ensures NoAdjacent(CollapseRuns(s, p, r), p)
    decreases |s|
  {
    if |s| > 0 {
      var out := CollapseRuns(s, p, r);
      if p(s[0]) {
        var rest := s[WhileLen(s, p)..];
        CollapseRunsNoAdjacent(rest, p, r);
        var tail := CollapseRuns(rest, p, r);
        assert out == [r] + tail;
        assert |tail| > 0 ==> !p(tail[0]);
        forall i | 0 <= i < |out| - 1 ensures !(p(out[i]) && p(out[i + 1])) {
          if i > 0 { assert out[i] == tail[i - 1] && out[i + 1] == tail[i]; }
        }
      } else {
        CollapseRunsNoAdjacent(s[1..], p, r);
        var tail := CollapseRuns(s[1..], p, r);
        assert out == [s[0]] + tail;
        forall i | 0 <= i < |out| - 1 ensures !(p(out[i]) && p(out[i + 1])) {
          if i > 0 { assert out[i] == tail[i - 1] && out[i + 1] == tail[i]; }
        }
      }
    }
  }

  /** A string whose class characters are all `r` and never neighbours is left alone. */
  lemma {:induction false} CollapseRunsNoop(s: string, p: char -> bool, r: char)
    requires forall i :: 0 <= i < |s| && p(s[i]) ==> s[i] == r
    requires NoAdjacent(s, p)
    ensures CollapseRuns(s, p, r) == s
    decreases |s|
  {
    if |s| > 0 {
      assert NoAdjacent(s[1..], p) by {
        forall i | 0 <= i < |s[1..]| - 1 ensures !(p(s[1..][i]) && p(s[1..][i + 1])) {
          assert s[1..][i] == s[i + 1] && s[1..][i + 1] == s[i + 2];
        }
      }
      CollapseRunsNoop(s[1..], p, r);
      if p(s[0]) {
        assert WhileLen(s, p) == 1 by {
          if |s| > 1 { assert !p(s[1]); }
        }
      }
      assert s == [s[0]] + s[1..];
    }
  }

  /** A slice of a string without neighbouring class characters has none either. */
  lemma NoAdjacentSlice(s: string, p: char -> bool, a: nat, b: nat)
    requires a <= b <= |s| && NoAdjacent(s, p)
    ensures NoAdjacent(s[a..b], p)
  {
    forall i | 0 <= i < b - a - 1 ensures !(p(s[a..b][i]) && p(s[a..b][i + 1])) {
      assert s[a..b][i] == s[a + i] && s[a..b][i + 1] == s[a + i + 1];
    }
  }

  /** A non-empty string with no separator. */
  predicate IsToken(t: string, sep: char -> bool)
  {
    |t| > 0 && forall i :: 0 <= i < |t| ==> !sep(t[i])
  }

  /** The maximal non-empty runs of characters outside `sep`, in order: `preg_split` on
      `/[sep]+/` with `PREG_SPLIT_NO_EMPTY`. */
  function Tokens(s: string, sep: char -> bool): (r: seq<string>)
    ensures forall k :: 0 <= k < |r| ==> IsToken(r[k], sep)
    decreases |s|
  {
    var rest := TrimStart(s, sep);
    if |rest| == 0 then []
    else
      var n := UntilLen(rest, sep);
      [rest[..n]] + Tokens(rest[n..], sep)
  }

  /** A string has no tokens exactly when all of it is separators. */
  lemma TokensEmpty(s: string, sep: char -> bool)
    ensures Tokens(s, sep) == [] <==> forall i :: 0 <= i < |s| ==> sep(s[i])
  {
  }

  /** The last piece of `preg_split('/[ws]+/', s)`: the text after the last character
      satisfying `ws` (empty when `s` ends with one). */
  function LastPiece(s: string, ws: char -> bool): (r: string)
    ensures |r| <= |s| && r == s[|s| - |r|..]
    ensures forall i :: 0 <= i < |r| ==> !ws(r[i])
    ensures |r| < |s| ==> ws(s[|s| - |r| - 1])
    decreases |s|
  {
    if |s| == 0 || ws(s[|s| - 1]) then ""
    else LastPiece(s[..|s| - 1], ws) + [s[|s| - 1]]
  }

  /** The pieces joined with `sep` between them (`implode`, `Array.prototype.join`). */
  function Join(parts: seq<string>, sep: string): string
    decreases |parts|
  {
    if |parts| == 0 then ""
    else if |parts| == 1 then parts[0]
    else parts[0] + sep + Join(parts[1..], sep)
  }

  // ---------- decimal numerals ----------

  function DigitChar(d: nat): (c: char)
    requires d < 10
    ensures IsDigit(c)
  {
    ('0' as int + d) as char
  }

  predicate AllDigits(s: string)
  {
    forall i :: 0 <= i < |s| ==> IsDigit(s[i])
  }

  /** The decimal numeral of `n`, as string interpolation of an integer writes it. */
  function NatStr(n: nat): (r: string)
    ensures |r| > 0 && AllDigits(r)
  {
    if n < 10 then [DigitChar(n)] else NatStr(n / 10) + [DigitChar(n % 10)]
  }

  /** The value of a string of decimal digits (leading zeros allowed). */
  function DigitsValue(s: string): nat
    requires AllDigits(s)
  {
    if |s| == 0 then 0 else DigitsValue(s[..|s| - 1]) * 10 + (s[|s| - 1] as int - '0' as int)
  }

  /** Reading back a numeral gives the number it was written from. */
  lemma {:induction false} DigitsValueOfNatStr(n: nat)
    ensures DigitsValue(NatStr(n)) == n
  {
    if n >= 10 {
      var s := NatStr(n);
      assert s[..|s| - 1] == NatStr(n / 10);
      DigitsValueOfNatStr(n / 10);
    }
  }

  /** Different numbers have different numerals. */
  lemma NatStrInjective(a: nat, b: nat)
    requires NatStr(a) == NatStr(b)
    ensures a == b
  {
    DigitsValueOfNatStr(a);
    DigitsValueOfNatStr(b);
  }
}
