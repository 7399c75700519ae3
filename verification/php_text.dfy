/** The PHP string primitives the catalog plugin builds on: `trim` with its default
    character list, `strtoupper(trim(...))` (ASCII only, as in PHP 8.2 and later), the
    falsiness of strings (`empty`, `if ($s)`), and `stripos(...) === 0`. */
module PhpText {
  import opened Text

  /** `trim($s)` with the default character list. */
  function PhpTrim(s: string): (r: string)
    ensures |r| <= |s|
    ensures |r| > 0 ==> !IsPhpTrimChar(r[0]) && !IsPhpTrimChar(r[|r| - 1])
  {
    Trim(s, IsPhpTrimChar)
  }

  /** A string that neither starts nor ends with a trimmed byte. */
  predicate IsTrimmed(s: string)
  {
    |s| > 0 ==> !IsPhpTrimChar(s[0]) && !IsPhpTrimChar(s[|s| - 1])
  }

  lemma PhpTrimNoop(s: string)
    requires IsTrimmed(s)
    ensures PhpTrim(s) == s
  {
    TrimNoop(s, IsPhpTrimChar);
  }

  /** A string without lower-case ASCII letters. */
  predicate NoLower(s: string)
  {
    forall i :: 0 <= i < |s| ==> !IsAsciiLower(s[i])
  }

  /** `strtoupper(trim((string) $s))`, the canonical form codes are compared in. */
  function CanonCode(s: string): (r: string)
    ensures NoLower(r) && IsTrimmed(r)
    ensures |r| == |PhpTrim(s)|
    ensures r == "" <==> PhpTrim(s) == ""
  {
    Upper(PhpTrim(s))
  }

  /** The canonical form is its own canonical form. */
  lemma CanonCodeIdempotent(s: string)
    ensures CanonCode(CanonCode(s)) == CanonCode(s)
  {
    var c := CanonCode(s);
    PhpTrimNoop(c);
    UpperOfUpper(c);
  }

  /** PHP `empty($s)` on a string: "" and "0" are empty. */
  predicate PhpEmpty(s: string)
  {
    s == "" || s == "0"
  }

  /** `stripos($haystack, $needle) === 0` for a non-empty needle: the haystack starts with
      the needle up to ASCII case. */
  predicate StartsWithIgnoreCase(haystack: string, needle: string)
  {
    StartsWith(Lower(haystack), Lower(needle))
  }
}
