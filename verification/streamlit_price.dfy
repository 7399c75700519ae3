/** Price normalisation of the Streamlit builder (`_normalize_price` in streamlit_app.py).
    Only the currency spellings "€", "EUR", "euro" and spaces are removed, so unlike the
    browser builder other characters reach the number parser. The parse-and-format step
    (`float(text)` rendered with `:.2f`, or the `ValueError` it raises) is the parameter
    `toFloat2`, which yields `None` where `float` raises. */
module StreamlitPrice {
  import opened Base
  import opened Text
  import BrowserPrice

  /** The stripped cell after the four `str.replace(token, "")` calls. */
  function WithoutSymbols(text: string): (t: string)
    ensures |t| <= |text|
    ensures Filter(t, IsDigit) == Filter(text, IsDigit)
  {
    var a := RemoveAll(text, "\U{20AC}");
    var b := RemoveAll(a, "EUR");
    var c := RemoveAll(b, "euro");
    RemoveAllFilter(text, "\U{20AC}", IsDigit);
    RemoveAllFilter(a, "EUR", IsDigit);
    RemoveAllFilter(b, "euro", IsDigit);
    RemoveAllFilter(c, " ", IsDigit);
    RemoveAll(c, " ")
  }

  /** The separator rule: with both ',' and '.' present the points are dropped and the
      commas become points; with only ',' the commas become points. */
  function Separators(t: string): (r: string)
    ensures !Has(r, ',')
    ensures Filter(r, IsDigit) == Filter(t, IsDigit)
    ensures !Has(t, ',') ==> r == t
    ensures Has(t, ',') && Has(t, '.') ==> |r| < |t|
  {
    if Has(t, ',') && Has(t, '.') then
      var dropped := Filter(t, BrowserPrice.IsNotPoint);
      FilterFilter(t, BrowserPrice.IsNotPoint, IsDigit);
      FilterReplaceChar(dropped, ',', '.', IsDigit);
      assert |dropped| < |t| by {
        var i :| 0 <= i < |t| && t[i] == '.';
        FilterShorter(t, BrowserPrice.IsNotPoint, i);
      }
      ReplaceChar(dropped, ',', '.')
    else if Has(t, ',') then
      FilterReplaceChar(t, ',', '.', IsDigit);
      ReplaceChar(t, ',', '.')
    else t
  }

  /** The text handed to `float`. */
  function PriceText(value: string): string
  {
    Separators(WithoutSymbols(Trim(value, IsPySpace)))
  }

  /** `_normalize_price`: "" for a missing or blank cell, for a cell that is empty once the
      symbols are removed, and for text `float` rejects; otherwise the two-decimal rendering. */
  function NormalizePrice(value: Option<string>, toFloat2: string -> Option<string>): (r: string)
    ensures value.None? ==> r == ""
    ensures value.Some? && Trim(value.value, IsPySpace) == "" ==> r == ""
    ensures r != "" ==> value.Some? && toFloat2(PriceText(value.value)) == Some(r)
    ensures value.Some? && PriceText(value.value) != "" && toFloat2(PriceText(value.value)).Some? ==>
      r == toFloat2(PriceText(value.value)).value
  {
    match value
    case None => ""
    case Some(v) =>
      var text := Trim(v, IsPySpace);
      if text == "" then ""
      else
        var bare := WithoutSymbols(text);
        if bare == "" then ""
        else match toFloat2(Separators(bare))
          case None => ""
          case Some(s) => s
  }

  /** Every digit of the cell, and nothing else of its digits, reaches `float`. */
  lemma PriceTextDigits(value: string)
    ensures Filter(PriceText(value), IsDigit) == Filter(value, IsDigit)
    ensures !Has(PriceText(value), ',')
  {
    FilterTrim(value, IsPySpace, IsDigit);
  }

  /** The Streamlit separator rule is the browser's on text of digits, separators and
      minus signs. */
  lemma SeparatorsAgree(t: string)
    requires forall i :: 0 <= i < |t| ==> BrowserPrice.IsPriceChar(t[i])
    ensures Separators(t) == BrowserPrice.FixSeparators(t)
  {
  }

  /** A character that neither stripping nor the removals touch. */
  predicate Untouched(c: char)
  {
    !IsPySpace(c) && c != '\U{20AC}' && c != 'E' && c != 'e' && c != ' '
  }

  /** On a cell of digits, separators and minus signs both builders hand the same text to
      their number parser. */
  lemma PricesAgreeOnCleanCells(value: string)
    requires forall i :: 0 <= i < |value| ==> BrowserPrice.IsPriceChar(value[i])
    ensures PriceText(value) == BrowserPrice.PriceText(value)
  {
    assert forall i :: 0 <= i < |value| ==> Untouched(value[i]) by {
      forall i | 0 <= i < |value| ensures Untouched(value[i]) {
        assert BrowserPrice.IsPriceChar(value[i]);
      }
    }
    TrimNoop(value, IsPySpace);
    RemoveAllAbsent(value, "\U{20AC}");
    RemoveAllAbsent(value, "EUR");
    RemoveAllAbsent(value, "euro");
    RemoveAllAbsent(value, " ");
    BrowserPrice.PriceCharsOfCleanCell(value);
    SeparatorsAgree(value);
  }

  /** A leading euro sign and space are removed without a trace ... */
  lemma EuroPrefixRemoved(num: string)
    requires forall i :: 0 <= i < |num| ==> Untouched(num[i])
    ensures WithoutSymbols("\U{20AC} " + num) == num
  {
    var rest := " " + num;
    assert "\U{20AC} " + num == "\U{20AC}" + rest;
    RemoveAllLeading("\U{20AC}", rest);
    RemoveAllAbsent(rest, "\U{20AC}");
    RemoveAllAbsent(rest, "EUR");
    RemoveAllAbsent(rest, "euro");
    RemoveAllLeading(" ", num);
    RemoveAllAbsent(num, " ");
  }

  /** ... so a price written "€ " followed by digits and separators reaches `float` as the
      bare number reaches the browser builder's `parseFloat`. */
  lemma EuroPricedCell(num: string)
    requires |num| > 0
    requires forall i :: 0 <= i < |num| ==> BrowserPrice.IsPriceChar(num[i])
    ensures PriceText("\U{20AC} " + num) == BrowserPrice.PriceText(num)
  {
    var v := "\U{20AC} " + num;
    assert forall i :: 0 <= i < |num| ==> Untouched(num[i]) by {
      forall i | 0 <= i < |num| ensures Untouched(num[i]) {
        assert BrowserPrice.IsPriceChar(num[i]);
      }
    }
    assert v[0] == '\U{20AC}';
    assert v[|v| - 1] == num[|num| - 1] && Untouched(num[|num| - 1]);
    TrimNoop(v, IsPySpace);
    EuroPrefixRemoved(num);
    BrowserPrice.PriceCharsOfCleanCell(num);
    SeparatorsAgree(num);
  }
}
