/** Price normalisation of the browser builder (`normalizePrice` in app.js): the raw cell is
    reduced to digits, separators and minus signs, the decimal comma is turned into a point,
    and the text is formatted with two decimals when `parseFloat` reads a number from it.
    The float formatting (`Number.prototype.toFixed(2)` applied to `parseFloat`) is the
    parameter `toFixed2`, applied to the reduced text. */
module BrowserPrice {
  import opened Text

  /** The characters the source keeps: `[0-9,.-]`. */
  predicate IsPriceChar(c: char)
  {
    IsDigit(c) || c == ',' || c == '.' || c == '-'
  }

  predicate IsNotJsSpace(c: char)
  {
    !IsJsSpace(c)
  }

  /** The trimmed cell without whitespace and without characters outside `[0-9,.-]`. */
  function PriceChars(value: string): (t: string)
    ensures forall i :: 0 <= i < |t| ==> IsPriceChar(t[i])
    ensures Filter(t, IsDigit) == Filter(value, IsDigit)
  {
    var trimmed := Trim(value, IsJsSpace);
    var compact := Filter(trimmed, IsNotJsSpace);
    FilterTrim(value, IsJsSpace, IsDigit);
    FilterFilter(trimmed, IsNotJsSpace, IsDigit);
    FilterFilter(compact, IsPriceChar, IsDigit);
    Filter(compact, IsPriceChar)
  }

  predicate IsNotPoint(c: char)
  {
    c != '.'
  }

  /** The separator rule: with both separators present the points are thousands marks and
      are dropped and the comma becomes the decimal point; with only commas each comma
      becomes a point. */
  function FixSeparators(kept: string): (t: string)
    requires forall i :: 0 <= i < |kept| ==> IsPriceChar(kept[i])
    ensures forall i :: 0 <= i < |t| ==> IsDigit(t[i]) || t[i] == '.' || t[i] == '-'
    ensures Filter(t, IsDigit) == Filter(kept, IsDigit)
    ensures !Has(kept, ',') ==> t == kept
    ensures Has(kept, ',') && Has(kept, '.') ==> |t| < |kept|
  {
    if Has(kept, ',') && Has(kept, '.') then
      var dropped := Filter(kept, IsNotPoint);
      FilterFilter(kept, IsNotPoint, IsDigit);
      FilterReplaceChar(dropped, ',', '.', IsDigit);
      FilterPreserves(kept, IsNotPoint, IsPriceChar);
      assert |dropped| < |kept| by {
        var i :| 0 <= i < |kept| && kept[i] == '.';
        FilterShorter(kept, IsNotPoint, i);
      }
      var t := ReplaceChar(dropped, ',', '.');
      assert forall i :: 0 <= i < |t| ==> IsDigit(t[i]) || t[i] == '.' || t[i] == '-' by {
        forall i | 0 <= i < |t| ensures IsDigit(t[i]) || t[i] == '.' || t[i] == '-' {
          assert IsPriceChar(dropped[i]);
        }
      }
      t
    else if Has(kept, ',') then
      FilterReplaceChar(kept, ',', '.', IsDigit);
      var t := ReplaceChar(kept, ',', '.');
      assert forall i :: 0 <= i < |t| ==> IsDigit(t[i]) || t[i] == '.' || t[i] == '-' by {
        forall i | 0 <= i < |t| ensures IsDigit(t[i]) || t[i] == '.' || t[i] == '-' {
          assert IsPriceChar(kept[i]);
        }
      }
      t
    else
      assert forall i :: 0 <= i < |kept| ==> IsDigit(kept[i]) || kept[i] == '.' || kept[i] == '-' by {
        forall i | 0 <= i < |kept| ensures IsDigit(kept[i]) || kept[i] == '.' || kept[i] == '-' {
          assert IsPriceChar(kept[i]) && kept[i] != ',';
        }
      }
      kept
  }

  /** The text handed to `parseFloat`: the kept characters with the separator rule applied. */
  function PriceText(value: string): (t: string)
    ensures forall i :: 0 <= i < |t| ==> IsDigit(t[i]) || t[i] == '.' || t[i] == '-'
    ensures Filter(t, IsDigit) == Filter(value, IsDigit)
  {
    FixSeparators(PriceChars(value))
  }

  /** `Number.isNaN(Number.parseFloat(t))` is false, for a text over `[0-9.-]`: after an
      optional minus sign, a digit, or a point followed by a digit. */
  predicate ParsesAsNumber(t: string)
  {
    var u := if |t| > 0 && t[0] == '-' then t[1..] else t;
    (|u| > 0 && IsDigit(u[0])) || (|u| > 1 && u[0] == '.' && IsDigit(u[1]))
  }

  /** `normalizePrice`: "" for an empty or blank cell and for text from which no number can
      be read; otherwise the two-decimal rendering of the number. */
  function NormalizePrice(value: string, toFixed2: string -> string): (r: string)
    ensures !ParsesAsNumber(PriceText(value)) ==> r == ""
    ensures ParsesAsNumber(PriceText(value)) ==> r == toFixed2(PriceText(value))
  {
    if value == "" then ""
    else
      var raw := Trim(value, IsJsSpace);
      if raw == "" then ""
      else
        var t := PriceText(value);
        if ParsesAsNumber(t) then toFixed2(t) else ""
  }

  /** A cell without any digit never yields a price. */
  lemma NoDigitNoPrice(value: string, toFixed2: string -> string)
    requires forall i :: 0 <= i < |value| ==> !IsDigit(value[i])
    ensures NormalizePrice(value, toFixed2) == ""
  {
    var t := PriceText(value);
    FilterEmpty(value, IsDigit);
    FilterEmpty(t, IsDigit);
  }

  /** A cell that already consists of price characters only reaches the separator rule
      unchanged. */
  lemma PriceCharsOfCleanCell(value: string)
    requires forall i :: 0 <= i < |value| ==> IsPriceChar(value[i])
    ensures PriceChars(value) == value
  {
    assert forall i :: 0 <= i < |value| ==> !IsJsSpace(value[i]) by {
      forall i | 0 <= i < |value| ensures !IsJsSpace(value[i]) {
        assert IsPriceChar(value[i]);
      }
    }
    TrimNoop(value, IsJsSpace);
    FilterAll(value, IsNotJsSpace);
    FilterAll(value, IsPriceChar);
  }

  /** The sample cell with thousands points and a decimal comma is rendered from "1234.56". */
  lemma SampleNormalizedPrice(toFixed2: string -> string)
    ensures NormalizePrice("1.234,56", toFixed2) == toFixed2("1234.56")
  {
    var v := "1.234,56";
    assert forall i :: 0 <= i < |v| ==> IsPriceChar(v[i]);
    PriceCharsOfCleanCell(v);
    SampleThousandsPrice();
    assert ParsesAsNumber("1234.56");
  }

  /** The sample cell with a decimal comma is rendered from "1234.56". */
  lemma SampleCommaNormalized(toFixed2: string -> string)
    ensures NormalizePrice("1234,56", toFixed2) == toFixed2("1234.56")
  {
    var v := "1234,56";
    assert forall i :: 0 <= i < |v| ==> IsPriceChar(v[i]);
    PriceCharsOfCleanCell(v);
    SampleCommaPrice();
    assert ParsesAsNumber("1234.56");
  }

  /** The sample cell with a decimal point is rendered from itself. */
  lemma SamplePointNormalized(toFixed2: string -> string)
    ensures NormalizePrice("1234.56", toFixed2) == toFixed2("1234.56")
  {
    var v := "1234.56";
    assert forall i :: 0 <= i < |v| ==> IsPriceChar(v[i]);
    PriceCharsOfCleanCell(v);
    SamplePointPrice();
    assert ParsesAsNumber("1234.56");
  }

  /** The three spellings of the sample table give one and the same price, whatever the
      two-decimal rendering is. */
  lemma SampleSpellingsAgree(toFixed2: string -> string)
    ensures NormalizePrice("1234,56", toFixed2) == NormalizePrice("1.234,56", toFixed2)
    ensures NormalizePrice("1234.56", toFixed2) == NormalizePrice("1.234,56", toFixed2)
  {
    SampleCommaNormalized(toFixed2);
    SampleNormalizedPrice(toFixed2);
    SamplePointNormalized(toFixed2);
  }

  /** The three spellings of the sample table (plain comma, dotted thousands with comma,
      plain point) reach `parseFloat` as the same text. */
  lemma SampleCommaPrice()
    ensures FixSeparators("1234,56") == "1234.56"
  {
    CommaRule("1234", "56");
    assert "1234" + "," + "56" == "1234,56";
    assert "1234" + "." + "56" == "1234.56";
  }

  /** A lone comma between digit groups is the decimal separator: `a,c` becomes `a.c`. */
  lemma CommaRule(a: string, c: string)
    requires AllDigits(a) && AllDigits(c)
    ensures forall i :: 0 <= i < |a + "," + c| ==> IsPriceChar((a + "," + c)[i])
    ensures FixSeparators(a + "," + c) == a + "." + c
  {
    var kept := a + "," + c;
    forall i | 0 <= i < |kept| ensures IsPriceChar(kept[i]) && kept[i] != '.' {
      if i < |a| { assert kept[i] == a[i]; }
      else if i > |a| { assert kept[i] == c[i - |a| - 1]; }
    }
    assert kept[|a|] == ',';
    var t := ReplaceChar(kept, ',', '.');
    assert t == a + "." + c;
  }

  /** A point between digit groups is a thousands mark and the comma is the decimal
      separator: `a.b,c` becomes `ab.c`. */
  lemma ThousandsRule(a: string, b: string, c: string)
    requires AllDigits(a) && AllDigits(b) && AllDigits(c)
    ensures forall i :: 0 <= i < |a + "." + b + "," + c| ==> IsPriceChar((a + "." + b + "," + c)[i])
    ensures FixSeparators(a + "." + b + "," + c) == a + b + "." + c
  {
    var kept := a + "." + b + "," + c;
    GroupedPriceChars(a, b, c);
    assert kept[|a|] == '.' && kept[|a| + 1 + |b|] == ',';
    BothSeparators(kept);
    DropThousandsPoints(a, b, c);
    var t := ReplaceChar(a + b + "," + c, ',', '.');
    assert t == a + b + "." + c;
  }

  /** With both separators present the points are dropped and the commas become points. */
  lemma BothSeparators(kept: string)
    requires forall i :: 0 <= i < |kept| ==> IsPriceChar(kept[i])
    requires Has(kept, ',') && Has(kept, '.')
    ensures FixSeparators(kept) == ReplaceChar(Filter(kept, IsNotPoint), ',', '.')
  {
  }

  lemma GroupedPriceChars(a: string, b: string, c: string)
    requires AllDigits(a) && AllDigits(b) && AllDigits(c)
    ensures forall i :: 0 <= i < |a + "." + b + "," + c| ==> IsPriceChar((a + "." + b + "," + c)[i])
  {
    var kept := a + "." + b + "," + c;
    forall i | 0 <= i < |kept| ensures IsPriceChar(kept[i]) {
      if i < |a| { assert kept[i] == a[i]; }
      else if |a| < i < |a| + 1 + |b| { assert kept[i] == b[i - |a| - 1]; }
      else if i > |a| + 1 + |b| { assert kept[i] == c[i - |a| - |b| - 2]; }
    }
  }

  lemma DropThousandsPoints(a: string, b: string, c: string)
    requires AllDigits(a) && AllDigits(b) && AllDigits(c)
    ensures Filter(a + "." + b + "," + c, IsNotPoint) == a + b + "," + c
  {
    var x := a + ".";
    assert Filter(x, IsNotPoint) == a by {
      FilterAppend(a, ".", IsNotPoint);
      FilterAll(a, IsNotPoint);
      FilterNone(".", IsNotPoint);
    }
    var y := x + b;
    assert Filter(y, IsNotPoint) == a + b by {
      FilterAppend(x, b, IsNotPoint);
      FilterAll(b, IsNotPoint);
    }
    var z := y + ",";
    assert Filter(z, IsNotPoint) == a + b + "," by {
      FilterAppend(y, ",", IsNotPoint);
      FilterAll(",", IsNotPoint);
    }
    FilterAppend(z, c, IsNotPoint);
    FilterAll(c, IsNotPoint);
  }


  lemma SampleThousandsPrice()
    ensures FixSeparators("1.234,56") == "1234.56"
  {
    ThousandsRule("1", "234", "56");
    assert "1" + "." + "234" + "," + "56" == "1.234,56";
    assert "1" + "234" + "." + "56" == "1234.56";
  }

  lemma SamplePointPrice()
    ensures FixSeparators("1234.56") == "1234.56"
  {
    assert !Has("1234.56", ',');
  }
}
