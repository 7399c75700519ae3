/** `gcb_asset_filename_from_code`: the file name under which the images and sheets of an
    article are stored, made of upper-case letters, digits and single underscores. */
module CatalogAssets {
  import opened Text
  import opened PhpText

  /** `[^A-Z0-9]`: the bytes replaced by an underscore. */
  predicate NotUpperAlnum(c: char)
  {
    !IsUpperAlnum(c)
  }

  predicate IsUnderscore(c: char)
  {
    c == '_'
  }

  /** The characters an asset name may hold. */
  predicate IsAssetChar(c: char)
  {
    IsUpperAlnum(c) || c == '_'
  }

  /** A well-formed asset name: only `[A-Z0-9_]`, no underscore at either end and never two
      underscores in a row. */
  predicate IsAssetName(s: string)
  {
    && (forall i :: 0 <= i < |s| ==> IsAssetChar(s[i]))
    && (|s| > 0 ==> s[0] != '_' && s[|s| - 1] != '_')
    && NoAdjacent(s, IsUnderscore)
  }

  /** Every character of `s` is an asset character. */
  predicate AssetChars(s: string)
  {
    forall i :: 0 <= i < |s| ==> IsAssetChar(s[i])
  }

  /** Both collapsing passes leave only asset characters, with no two underscores together. */
  lemma CollapsedShape(s1: string)
    ensures AssetChars(CollapseRuns(CollapseRuns(s1, NotUpperAlnum, '_'), IsUnderscore, '_'))
    ensures NoAdjacent(CollapseRuns(CollapseRuns(s1, NotUpperAlnum, '_'), IsUnderscore, '_'), IsUnderscore)
  {
    var s2 := CollapseRuns(s1, NotUpperAlnum, '_');
    var s3 := CollapseRuns(s2, IsUnderscore, '_');
    CollapseRunsNoAdjacent(s2, IsUnderscore, '_');
    assert AssetChars(s2);
    forall i | 0 <= i < |s3| ensures IsAssetChar(s3[i]) {
      assert s3[i] == '_' || s3[i] in s2;
    }
  }

  /** Stripping the end underscores of such a string gives a well-formed asset name. */
  lemma TrimmedShape(s3: string)
    requires AssetChars(s3) && NoAdjacent(s3, IsUnderscore)
    ensures IsAssetName(Trim(s3, IsUnderscore))
  {
    var name := Trim(s3, IsUnderscore);
    var a := WhileLen(s3, IsUnderscore);
    NoAdjacentSlice(s3, IsUnderscore, a, a + |name|);
    forall i | 0 <= i < |name| ensures IsAssetChar(name[i]) {
      assert name[i] == s3[a + i];
    }
  }

  /** The upper-cased trimmed code with every run of other bytes turned into one underscore,
      runs of underscores merged, and underscores stripped from both ends. */
  function AssetFilename(code: string): (name: string)
    ensures IsAssetName(name)
    ensures |name| <= |CanonCode(code)|
  {
    var s1 := CanonCode(code);
    var s3 := CollapseRuns(CollapseRuns(s1, NotUpperAlnum, '_'), IsUnderscore, '_');
    CollapsedShape(s1);
    TrimmedShape(s3);
    Trim(s3, IsUnderscore)
  }

  /** A well-formed asset name is its own asset name: sanitising twice changes nothing. */
  lemma AssetNameFixed(s: string)
    requires IsAssetName(s)
    ensures AssetFilename(s) == s
  {
    assert IsTrimmed(s);
    PhpTrimNoop(s);
    UpperOfUpper(s);
    assert CanonCode(s) == s;
    assert NoAdjacent(s, NotUpperAlnum) by {
      forall i | 0 <= i < |s| - 1 ensures !(NotUpperAlnum(s[i]) && NotUpperAlnum(s[i + 1])) {
        assert IsAssetChar(s[i]) && IsAssetChar(s[i + 1]);
      }
    }
    CollapseRunsNoop(s, NotUpperAlnum, '_');
    CollapseRunsNoop(s, IsUnderscore, '_');
    TrimNoop(s, IsUnderscore);
  }

  lemma AssetFilenameIdempotent(code: string)
    ensures AssetFilename(AssetFilename(code)) == AssetFilename(code)
  {
    AssetNameFixed(AssetFilename(code));
  }

  /** A code of letters and digits alone only changes case. */
  lemma AssetOfAlnumCode(code: string)
    requires forall i :: 0 <= i < |code| ==> IsAsciiAlnum(code[i])
    ensures AssetFilename(code) == Upper(code)
  {
    assert IsTrimmed(code);
    PhpTrimNoop(code);
    var u := Upper(code);
    assert forall i :: 0 <= i < |u| ==> IsUpperAlnum(u[i]);
    AssetNameFixed(u);
    UpperIdempotent(code);
  }
}
