/** Header guessing of the catalog plugin: `gcb_norm` (restricted to ASCII text) and
    `gcb_guess_col`, which picks the source column for each field from a list of candidate
    names, and the five columns the build step asks it for. */
module CatalogHeaders {
  import opened Base
  import opened Text
  import opened PhpText
  import opened Columns

  /** `[^a-z0-9]`: the bytes a normalised name turns into spaces. */
  predicate NotLowerAlnum(c: char)
  {
    !IsLowerAlnum(c)
  }

  /** A normalised name: lower-case letters and digits in words separated by single spaces. */
  predicate IsNormText(s: string)
  {
    && (forall i :: 0 <= i < |s| ==> IsLowerAlnum(s[i]) || s[i] == ' ')
    && IsTrimmed(s)
    && NoAdjacent(s, NotLowerAlnum)
  }

  /** Every character of `s` is a lower-case letter, a digit or a space. */
  predicate NormChars(s: string)
  {
    forall i :: 0 <= i < |s| ==> IsLowerAlnum(s[i]) || s[i] == ' '
  }

  /** Trimming a string of such characters with no two spaces together gives a normalised
      name. */
  lemma TrimmedNorm(s: string)
    requires NormChars(s) && NoAdjacent(s, NotLowerAlnum)
    ensures IsNormText(PhpTrim(s))
  {
    var r := PhpTrim(s);
    var a := WhileLen(s, IsPhpTrimChar);
    NoAdjacentSlice(s, NotLowerAlnum, a, a + |r|);
    forall i | 0 <= i < |r| ensures IsLowerAlnum(r[i]) || r[i] == ' ' {
      assert r[i] == s[a + i];
    }
  }

  /** `gcb_norm` on ASCII text: lower-cased and trimmed, every run of bytes other than
      letters and digits turned into one space, trimmed again. */
  function Norm(s: string): (r: string)
    ensures IsNormText(r)
  {
    var t := CollapseRuns(Lower(PhpTrim(s)), NotLowerAlnum, ' ');
    CollapseRunsNoAdjacent(Lower(PhpTrim(s)), NotLowerAlnum, ' ');
    TrimmedNorm(t);
    PhpTrim(t)
  }

  /** A normalised name is its own normal form. */
  lemma NormFixed(s: string)
    requires IsNormText(s)
    ensures Norm(s) == s
  {
    PhpTrimNoop(s);
    LowerOfLower(s);
    CollapseRunsNoop(s, NotLowerAlnum, ' ');
  }

  lemma NormIdempotent(s: string)
    ensures Norm(Norm(s)) == Norm(s)
  {
    NormFixed(Norm(s));
  }

  /** `array_map('trim', $headers)`. */
  function TrimAll(hs: seq<string>): (r: seq<string>)
    ensures |r| == |hs| && forall i :: 0 <= i < |hs| ==> r[i] == PhpTrim(hs[i])
  {
    seq(|hs|, i requires 0 <= i < |hs| => PhpTrim(hs[i]))
  }

  /** `array_map('gcb_norm', ...)`. */
  function NormAll(hs: seq<string>): (r: seq<string>)
    ensures |r| == |hs| && forall i :: 0 <= i < |hs| ==> r[i] == Norm(hs[i])
  {
    seq(|hs|, i requires 0 <= i < |hs| => Norm(hs[i]))
  }

  /** The exact pass accepts the normalised candidate `n`: some normalised header equals it
      (and, when `guarded`, it is not empty). */
  predicate ExactHit(hs: seq<string>, n: string, guarded: bool)
  {
    (!guarded || n != "") && n in hs
  }

  /** Candidate `k` is the first candidate the exact pass accepts and header `i` the last
      header equal to it: `array_flip` keeps the last index of a repeated name. */
  predicate IsFirstExact(hs: seq<string>, ncs: seq<string>, guarded: bool, k: nat, i: nat)
  {
    && k < |ncs| && i < |hs|
    && ExactHit(hs, ncs[k], guarded)
    && (forall k' :: 0 <= k' < k ==> !ExactHit(hs, ncs[k'], guarded))
    && hs[i] == ncs[k]
    && (forall j :: i < j < |hs| ==> hs[j] != ncs[k])
  }

  /** At most one candidate/header pair is the first exact hit. */
  lemma FirstExactUnique(hs: seq<string>, ncs: seq<string>, guarded: bool, k: nat, i: nat, k2: nat, i2: nat)
    requires IsFirstExact(hs, ncs, guarded, k, i) && IsFirstExact(hs, ncs, guarded, k2, i2)
    ensures k == k2 && i == i2
  {
  }

  /** `$headerMap[$norm]` with `$headerMap = array_flip($normHeaders)`: the last position of
      `n` among the headers. */
  function FlipIndex(hs: seq<string>, n: string): (r: Option<nat>)
    ensures r.None? <==> n !in hs
    ensures r.Some? ==> r.value < |hs| && hs[r.value] == n && forall j :: r.value < j < |hs| ==> hs[j] != n
  {
    LastWhereAtOrBefore(hs, (h: string) => h == n, |hs| - 1)
  }

  /** The first loop of `gcb_guess_col`, from candidate `from` on: the first accepted
      candidate and the header it names. */
  function ExactPassFrom(hs: seq<string>, ncs: seq<string>, guarded: bool, from: nat): (r: Option<(nat, nat)>)
    requires forall k' :: 0 <= k' < from && k' < |ncs| ==> !ExactHit(hs, ncs[k'], guarded)
    ensures r.None? <==> forall k :: 0 <= k < |ncs| ==> !ExactHit(hs, ncs[k], guarded)
    ensures r.Some? ==> IsFirstExact(hs, ncs, guarded, r.value.0, r.value.1)
    decreases |ncs| - from
  {
    if from >= |ncs| then None
    else if ExactHit(hs, ncs[from], guarded) then
      match FlipIndex(hs, ncs[from])
      case Some(i) => Some((from, i))
      case None => None
    else ExactPassFrom(hs, ncs, guarded, from + 1)
  }

  /** The second loop of `gcb_guess_col`: a non-empty normalised header containing the
      non-empty normalised candidate. */
  predicate SubHit(h: string, n: string)
  {
    h != "" && n != "" && Contains(h, n)
  }

  /** `$clean_headers[$fallback_index] ?? ($clean_headers[0] ?? '')`. */
  function Fallback(clean: seq<string>, fallback: nat): (r: string)
    ensures |clean| == 0 ==> r == ""
    ensures |clean| > 0 ==> r in clean
  {
    if fallback < |clean| then clean[fallback]
    else if |clean| > 0 then clean[0]
    else ""
  }

  /** The three passes of `gcb_guess_col` over the trimmed headers `clean`, their
      normalised forms `hs` and the normalised candidates `ncs`. */
  function GuessNormed(clean: seq<string>, hs: seq<string>, ncs: seq<string>, fallback: nat, guarded: bool): (r: string)
    requires |hs| == |clean|
    ensures |clean| == 0 ==> r == ""
    ensures |clean| > 0 ==> r in clean
  {
    match ExactPassFrom(hs, ncs, guarded, 0)
    case Some(p) => clean[p.1]
    case None =>
      match FirstHit(hs, ncs, SubHit)
      case Some(p) => clean[p.1]
      case None => Fallback(clean, fallback)
  }

  /** `gcb_guess_col`, with the exact pass guarded against an empty normalised candidate
      when `guarded` holds. */
  function GuessColWith(headers: seq<string>, cands: seq<string>, fallback: nat, guarded: bool): (r: string)
    ensures |headers| == 0 ==> r == ""
    ensures |headers| > 0 ==> r in TrimAll(headers)
  {
    var clean := TrimAll(headers);
    GuessNormed(clean, NormAll(clean), NormAll(cands), fallback, guarded)
  }

  /** `gcb_guess_col` as written: the exact pass also accepts an empty normalised
      candidate, which then names a blank or punctuation-only header. */
  function GuessColAsWritten(headers: seq<string>, cands: seq<string>, fallback: nat): (r: string)
    ensures |headers| == 0 ==> r == ""
    ensures |headers| > 0 ==> r in TrimAll(headers)
  {
    GuessColWith(headers, cands, fallback, false)
  }

  /** `gcb_guess_col` with the exact pass skipping an empty normalised candidate, as the
      substring pass already does. */
  function GuessCol(headers: seq<string>, cands: seq<string>, fallback: nat): (r: string)
    ensures |headers| == 0 ==> r == ""
    ensures |headers| > 0 ==> r in TrimAll(headers)
  {
    GuessColWith(headers, cands, fallback, true)
  }

  lemma NormedPrefersExact(clean: seq<string>, hs: seq<string>, ncs: seq<string>, fallback: nat, guarded: bool, k: nat, i: nat)
    requires |hs| == |clean| && IsFirstExact(hs, ncs, guarded, k, i)
    ensures GuessNormed(clean, hs, ncs, fallback, guarded) == clean[i]
  {
    var r := ExactPassFrom(hs, ncs, guarded, 0);
    assert r.Some?;
    FirstExactUnique(hs, ncs, guarded, k, i, r.value.0, r.value.1);
  }

  /** An exact hit for any candidate wins: the result is the last header equal to the
      first candidate with an exact hit, whatever the substring pass would find. */
  lemma GuessPrefersExact(headers: seq<string>, cands: seq<string>, fallback: nat, guarded: bool, k: nat, i: nat)
    requires IsFirstExact(NormAll(TrimAll(headers)), NormAll(cands), guarded, k, i)
    ensures GuessColWith(headers, cands, fallback, guarded) == PhpTrim(headers[i])
  {
    var clean := TrimAll(headers);
    NormedPrefersExact(clean, NormAll(clean), NormAll(cands), fallback, guarded, k, i);
  }

  /** At most one candidate/header pair is the first substring hit. */
  lemma FirstHitUnique(cols: seq<string>, cands: seq<string>, hit: (string, string) -> bool, k: nat, i: nat, k2: nat, i2: nat)
    requires IsFirstHit(cols, cands, hit, k, i) && IsFirstHit(cols, cands, hit, k2, i2)
    ensures k == k2 && i == i2
  {
  }

  lemma NormedThenSubstring(clean: seq<string>, hs: seq<string>, ncs: seq<string>, fallback: nat, guarded: bool, k: nat, i: nat)
    requires |hs| == |clean|
    requires forall k' :: 0 <= k' < |ncs| ==> !ExactHit(hs, ncs[k'], guarded)
    requires IsFirstHit(hs, ncs, SubHit, k, i)
    ensures GuessNormed(clean, hs, ncs, fallback, guarded) == clean[i]
  {
    var r := FirstHit(hs, ncs, SubHit);
    assert SubHit(hs[i], ncs[k]);
    FirstHitUnique(hs, ncs, SubHit, k, i, r.value.0, r.value.1);
  }

  /** With no exact hit, the first substring hit (candidates outer, headers inner) wins. */
  lemma GuessThenSubstring(headers: seq<string>, cands: seq<string>, fallback: nat, guarded: bool, k: nat, i: nat)
    requires forall k' :: 0 <= k' < |cands| ==> !ExactHit(NormAll(TrimAll(headers)), Norm(cands[k']), guarded)
    requires IsFirstHit(NormAll(TrimAll(headers)), NormAll(cands), SubHit, k, i)
    ensures GuessColWith(headers, cands, fallback, guarded) == PhpTrim(headers[i])
  {
    var clean := TrimAll(headers);
    NormedThenSubstring(clean, NormAll(clean), NormAll(cands), fallback, guarded, k, i);
  }

  /** With no hit in either pass, the header at the fallback index, else the first header,
      else "". */
  lemma GuessFallback(headers: seq<string>, cands: seq<string>, fallback: nat, guarded: bool)
    requires forall k :: 0 <= k < |cands| ==> !ExactHit(NormAll(TrimAll(headers)), Norm(cands[k]), guarded)
    requires NoHitBefore(NormAll(TrimAll(headers)), NormAll(cands), SubHit, |cands|)
    ensures GuessColWith(headers, cands, fallback, guarded) ==
      if fallback < |headers| then PhpTrim(headers[fallback])
      else if |headers| > 0 then PhpTrim(headers[0])
      else ""
  {
  }

  /** In the guarded form an exact hit never comes from an empty normalised candidate. */
  lemma GuardedExactNotBlank(headers: seq<string>, cands: seq<string>, k: nat, i: nat)
    requires IsFirstExact(NormAll(TrimAll(headers)), NormAll(cands), true, k, i)
    ensures Norm(PhpTrim(headers[i])) != ""
  {
  }

  // ---------- the columns the build step guesses ----------

  function CodeCandidates(): seq<string> { ["codice dream", "codice", "sku", "articolo", "code"] }
  function DescCandidates(): seq<string> { ["descrizione"] }
  function CatCandidates(): seq<string> { ["categoria merc", "categoria", "cat merc", "merc"] }
  function UmCandidates(): seq<string> { ["u.m.", "um", "unita", "unità", "unità di misura", "u m"] }
  function PriceCandidates(): seq<string> { ["listino", "prezzo", "price", "€", "eur"] }

  /** The source columns of the code, description, category, unit and price fields. */
  datatype SourceKeys = SourceKeys(code: string, desc: string, catm: string, um: string, price: string)

  /** The five `gcb_guess_col` calls of the build step, with their fallback indexes, and
      the exact pass guarded when `guarded` holds. Each key is one of the trimmed headers,
      and all are "" when there are no headers. */
  function GuessKeysWith(headers: seq<string>, guarded: bool): (keys: SourceKeys)
    ensures |headers| > 0 ==>
      && keys.code in TrimAll(headers) && keys.desc in TrimAll(headers) && keys.catm in TrimAll(headers)
      && keys.um in TrimAll(headers) && keys.price in TrimAll(headers)
    ensures |headers| == 0 ==> keys == SourceKeys("", "", "", "", "")
  {
    SourceKeys(
      GuessColWith(headers, CodeCandidates(), 0, guarded),
      GuessColWith(headers, DescCandidates(), 3, guarded),
      GuessColWith(headers, CatCandidates(), 2, guarded),
      GuessColWith(headers, UmCandidates(), 4, guarded),
      GuessColWith(headers, PriceCandidates(), 6, guarded))
  }

  /** The keys the build step uses: `gcb_guess_col` as written, unguarded exact pass. */
  function GuessKeys(headers: seq<string>): (keys: SourceKeys)
    ensures |headers| > 0 ==>
      && keys.code in TrimAll(headers) && keys.desc in TrimAll(headers) && keys.catm in TrimAll(headers)
      && keys.um in TrimAll(headers) && keys.price in TrimAll(headers)
    ensures |headers| == 0 ==> keys == SourceKeys("", "", "", "", "")
    ensures keys.price == GuessColAsWritten(headers, PriceCandidates(), 6)
  {
    GuessKeysWith(headers, false)
  }

  // ---------- the empty candidate of the price list ----------

  /** The euro sign normalises to the empty name (it is neither a letter nor a digit). */
  lemma NormOfEuro()
    ensures Norm(PriceCandidates()[3]) == ""
  {
    var e := PriceCandidates()[3];
    assert e == "€";
    PhpTrimNoop(e);
    LowerOfLower(e);
    assert CollapseRuns(e, NotLowerAlnum, ' ') == " ";
  }

  /** As written, a candidate that normalises to the empty name (the euro sign of the price
      list), reached with no earlier exact hit, takes the last header whose normalised name
      is empty: a blank or punctuation-only column, whatever the substring pass would find. */
  lemma EmptyCandidateTakesBlankHeader(headers: seq<string>, cands: seq<string>, fallback: nat, k: nat, i: nat)
    requires k < |cands| && Norm(cands[k]) == ""
    requires forall k' :: 0 <= k' < k ==> Norm(cands[k']) !in NormAll(TrimAll(headers))
    requires i < |headers| && Norm(PhpTrim(headers[i])) == ""
    requires forall j :: i < j < |headers| ==> Norm(PhpTrim(headers[j])) != ""
    ensures GuessColAsWritten(headers, cands, fallback) == PhpTrim(headers[i])
    ensures Norm(GuessColAsWritten(headers, cands, fallback)) == ""
  {
    var hs := NormAll(TrimAll(headers));
    var ncs := NormAll(cands);
    assert IsFirstExact(hs, ncs, false, k, i) by {
      forall k' | 0 <= k' < k ensures !ExactHit(hs, ncs[k'], false) {
        assert ncs[k'] == Norm(cands[k']);
      }
    }
    GuessPrefersExact(headers, cands, fallback, false, k, i);
  }

  /** With the guard, a column whose normalised name is empty is chosen only as the
      fallback: neither pass ever names it. */
  lemma GuardedBlankOnlyAsFallback(headers: seq<string>, cands: seq<string>, fallback: nat)
    ensures Norm(GuessCol(headers, cands, fallback)) == "" && |headers| > 0 ==>
      GuessCol(headers, cands, fallback) == Fallback(TrimAll(headers), fallback)
  {
    var clean := TrimAll(headers);
    var hs := NormAll(clean);
    var ncs := NormAll(cands);
    match ExactPassFrom(hs, ncs, true, 0)
    case Some(p) =>
      assert hs[p.1] == ncs[p.0] != "";
    case None =>
      match FirstHit(hs, ncs, SubHit)
      case Some(p) =>
        assert SubHit(hs[p.1], ncs[p.0]);
      case None =>
  }
}
