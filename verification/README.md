# Catalog builder: grouping and normalisation core

The catalog builder reads a flat product table in which a main row is followed by the rows
of its variants. For each code a user types, it builds one "model" row: the main product's
fields, then one slot per variant, then closing fields. The builder exists in three variants,
and each is modelled against its own source file:

- **Browser builder** (`app.js`), modules `BrowserLookup`, `BrowserPrice`, `BrowserRow`,
  `BrowserCollection` and `BrowserExport`. It covers:
  - column resolution (exact pass over all candidates, then substring pass);
  - the blank-parent test, including "na";
  - the adjacency lookup of a code's main row and the collection of its variants;
  - the string stage of price normalisation;
  - the fixed five-slot row;
  - the preview list (add by code, remove, clear);
  - the semicolon CSV export, with a reader for it.
- **Streamlit builder** (`streamlit_app.py`), modules `StreamlitLookup`, `StreamlitPrice`,
  `StreamlitRow` and `StreamlitCollection`. The pipeline is the same, with different choices:
  - exact and substring matching are interleaved per candidate;
  - there is no "na" placeholder;
  - code lookup is case-sensitive;
  - price stripping removes only currency words and spaces;
  - the row builder also returns the overflow count.
- **WordPress plugin** (`glasscom-catalog-builder.php`), modules `CatalogModes`,
  `CatalogCodes`, `CatalogFinish`, `CatalogAssets`, `CatalogHeaders`, `CatalogFields`,
  `CatalogParents`, `CatalogItems`, `CatalogSort`, `CatalogVariants` and `CatalogBuild`.
  It covers:
  - the four code parsers (classic with the DX/SX and SMF rules, morsetti `/`, tubi `-`,
    and senza-separatore prefix matching);
  - the finish vocabulary and finish resolution;
  - asset file names;
  - the static and dynamic output schemas;
  - header guessing over normalised names;
  - category/subcategory splitting and most-common-field selection;
  - finish counting and variant-index scanning, and the export column choice;
  - the per-parent build step (collect, order, placeholder or laid-out row), written as a
    pure function of the posted text, the headers and the source rows.

Shared modules:

| Module | Contents |
|---|---|
| `Base` | rows as maps, records as ordered field lists, generic scans |
| `Text` | character classes of the three languages, trimming, filtering, tokenising, decimal rendering of naturals |
| `PhpText` | PHP `trim`, `strtoupper(trim())`, PHP emptiness |
| `Schema` | the classic and dynamic column lists |
| `Columns` | roles, candidate names and the first-hit search |
| `Layout` | the classic row shared by the browser and Streamlit builders |

Floating-point parsing and formatting (`parseFloat`/`toFixed(2)`, `float`/`:.2f`,
`is_numeric`/`floatval`/`number_format`) are function parameters: `toFixed2`, `toFloat2`,
`isNumeric` and `format2`. The string stage that feeds them is modelled exactly. The
`strnatcasecmp` ordering is the comparator parameter `cmp`. The ids of already saved
parents, read from the database, are the `saved` map of `CatalogBuild.Env`.

PHP strings are byte strings: in the WordPress plugin's modules each `char` stands for one
byte, so `strlen`, `substr` and `stripos` count characters. JavaScript and Python strings are
sequences of characters as well.

## Model

| member | source | states |
|---|---|---|
| Schema.ClassicLayout | app.js:7-40 | The 32-column schema is the seven product columns, five slots of cod/Prezzo_cod/fin/@image_fin, and the five closing columns |
| Schema.ClassicSlotPositions | streamlit_app.py:19-52 | Field f of slot i (1..5) is at column 7 + 4(i-1) + f, and its name is the slot-numbered key |
| Schema.ClassicCodePosition | glasscom-catalog-builder.php:29-39 | "Codice Articolo" is column 6 and occurs nowhere earlier, so a lookup by name finds that column |
| Schema.DynamicColumns | glasscom-catalog-builder.php:50-60 | The dynamic schema has 12 + 3n columns: head, then cod/Prezzo_cod/var for each i in 1..n, then tail; for n ≤ 0 it has no slots |
| Schema.DynamicWithoutSlotsIsBase | glasscom-catalog-builder.php:42-47 | The dynamic schema with no slots is the morsetti/tubi base schema |
| Schema.ClassicAndDynamicShareFrame | glasscom-catalog-builder.php:42-60 | The classic and dynamic schemas share the seven head columns and the five tail columns |
| Layout.ImagePath | app.js:250 | A product image path is empty exactly when the code is empty |
| Layout.SheetPath | app.js:251 | A data-sheet path is empty exactly when the code is empty |
| Layout.ClassicCodeLookup | app.js:308 | In a row laid out under the classic schema, a lookup of "Codice Articolo" reads field 6 |
| BrowserLookup.FindColumn | app.js:67-85 | Undefined for an empty column list and exactly when no candidate is a substring of any header. The result is one of the headers. If any candidate matches some header exactly, the result is the first such header for the first such candidate; otherwise it is the first substring hit |
| BrowserLookup.FindColumnExactBeatsEarlierSubstring | app.js:67-85 | An exact "parent" header beats an earlier "my parent_sku" header that only contains a candidate |
| BrowserLookup.GetValueIsTrimmedCell | app.js:115-122 | The value of a resolved role is its cell with JavaScript whitespace trimmed, and "" when the row lacks that cell |
| BrowserLookup.IsParentEmptyMeaning | app.js:129-134 | A row is a main row exactly when the trimmed, lower-cased parent cell is "", "nan", "none", "null" or "na", and always when the parent column is unresolved |
| BrowserLookup.IndexOfMainForCode | app.js:176-194 | Only the first row whose sku equals the code ignoring case counts. The result is the nearest main row at or before it, or -1 when the code is empty, nothing matches, or no main row precedes the match |
| BrowserLookup.CollectGroup | app.js:201-212 | The group is the start row plus a contiguous run of the rows right after it |
| BrowserLookup.GroupVariantsAreVariantRows | app.js:205-210 | No variant of a group is a main row |
| BrowserLookup.GroupStopsAtMain | app.js:205-210 | The row after a group, if any, is a main row, so the run is maximal |
| BrowserLookup.GroupCoversRun | app.js:201-212 | Every row whose nearest main row is s belongs to the group collected from s |
| BrowserLookup.LookupGroupHoldsMatchedRow | app.js:176-212 | The group found for a code contains the row whose sku matched it |
| BrowserPrice.PriceChars | app.js:221-224 | After whitespace removal and filtering, only digits, ',', '.' and '-' remain, and every digit of the cell survives in order |
| BrowserPrice.FixSeparators | app.js:225-229 | The separator rule leaves only digits, '.' and '-'. It keeps every digit, leaves comma-free text unchanged, and shortens text that has both separators |
| BrowserPrice.BothSeparators | app.js:225-226 | With both separators present, every point is dropped and every comma becomes a point |
| BrowserPrice.CommaRule | app.js:227-228 | A lone comma between digit groups becomes the decimal point |
| BrowserPrice.ThousandsRule | app.js:225-226 | In digits.digits,digits the point is a thousands mark and the comma the decimal point |
| BrowserPrice.PriceText | app.js:221-229 | The text handed to parseFloat contains only digits, '.' and '-', and exactly the digits of the cell |
| BrowserPrice.NormalizePrice | app.js:219-233 | The price is "" when no number parses from the cleaned text; otherwise it is the two-decimal rendering of that text |
| BrowserPrice.NoDigitNoPrice | app.js:219-233 | A cell without a digit gives "" |
| BrowserPrice.SampleNormalizedPrice | app.js:542 | "1.234,56" is rendered from "1234.56" |
| BrowserPrice.SampleCommaPrice | app.js:541 | "1234,56" reaches the parser as "1234.56" |
| BrowserPrice.SampleThousandsPrice | app.js:542 | "1.234,56" reaches the parser as "1234.56" |
| BrowserPrice.SamplePointPrice | app.js:543 | "1234.56" reaches the parser unchanged |
| BrowserPrice.SampleCommaNormalized | app.js:541 | "1234,56" is rendered from "1234.56" |
| BrowserPrice.SamplePointNormalized | app.js:543 | "1234.56" is rendered from "1234.56" |
| BrowserPrice.SampleSpellingsAgree | app.js:541-543 | The three sample spellings "1234,56", "1.234,56" and "1234.56" normalise to the same price, whatever the two-decimal rendering |
| BrowserRow.BuildModelRow | app.js:241-281 | Every schema key is present, in schema order. The product fields come from the main row, slot i holds variant i's code/price/finish/image (blank past the last variant), and the closing fields come from the main row |
| BrowserRow.BuiltRowCode | app.js:247-254 | "Codice Articolo" of the built row is the main row's sku |
| BrowserRow.SlotsInOrder | app.js:256-272 | Slot i holds the sku of variant i for i ≤ min(5, n); later slots are all "" |
| BrowserRow.SlotImageBlankIffCodeBlank | app.js:271 | A slot's finish image is "" exactly when its code is "" |
| BrowserRow.ExtraVariantsIgnored | app.js:256-259 | Variants past the fifth do not change the row |
| BrowserCollection.AddByCode | app.js:287-318 | A blank code, and then a missing source, are refused exactly when they occur. "Not found" means the lookup gave -1. "Already present" means the found main row's code is stored, ignoring case. Every refusal leaves the session unchanged. On success the main code is non-empty and not yet stored, exactly one row built from the found group is appended, and the truncation flag is set exactly when the group has more than five variants |
| BrowserCollection.AddByCodeKeepsCodesUnique | app.js:308-314 | Adding keeps the preview's codes non-empty and pairwise different ignoring case |
| BrowserCollection.AddedGroupHoldsCode | app.js:297-314 | After a successful add, the appended row is built from the group that contains the row matching the typed code |
| BrowserCollection.SpliceStart | app.js:325 | The splice start is the index itself when in range, counted from the end when negative, and clamped to the list |
| BrowserCollection.RemoveRow | app.js:324-329 | Removing deletes only the row at the splice start, if any, and keeps the order of the others |
| BrowserCollection.RemoveRowKeepsCodesUnique | app.js:324-329 | Removing keeps the preview's codes unique |
| BrowserCollection.ClearAll | app.js:334-340 | Clearing empties the preview and leaves the loaded source untouched |
| BrowserExport.DoubleQuotes | app.js:355 | Doubling quotes never shortens the text |
| BrowserExport.DoubleQuotesWithoutQuote | app.js:355 | A doubled text without a quote is the original text |
| BrowserExport.EscapeFieldCases | app.js:355-359 | A field is wrapped in quotes exactly when it contains ';', '"' or a line feed, and is then its quote-doubled text; otherwise it is written unchanged |
| BrowserExport.EscapedFields | app.js:352-361 | Each exported field is the escaped value of the schema key at its position |
| BrowserExport.ExportLines | app.js:350-363 | The first line is the schema joined by ";"; line i+1 is row i's escaped values under the schema, "" where the row has no key |
| BrowserExport.ExportCsv | app.js:345-367 | There is nothing to export exactly when the preview is empty |
| BrowserExport.PlainHeader | app.js:350 | When no schema name needs escaping, the plain header equals the escaped line of the schema |
| BrowserExport.ParseFieldEscaped | app.js:355-359 | Reading an escaped field back gives the original value, whatever characters it holds |
| BrowserExport.ParseQuotedDoubled | app.js:355-357 | A quoted field's doubled quotes read back as single ones |
| BrowserExport.ParseFieldsExported | app.js:352-361 | An exported line reads back as its fields |
| BrowserExport.ParseDocumentLines | app.js:364 | Lines joined by line feeds read back line by line |
| BrowserExport.ExportReadsBack | app.js:345-367 | Reading an export back gives the schema followed by each preview row's values under the schema |
| StreamlitLookup.CandidateHit | streamlit_app.py:69-76 | For one candidate, the first exact match wins, otherwise the first substring match; there is no hit exactly when no header contains the candidate |
| StreamlitLookup.FindColumn | streamlit_app.py:65-77 | None exactly when no candidate hits any header. Otherwise the result is a header, and it is the hit of the first candidate that has any hit |
| StreamlitLookup.SingleCandidateAgrees | streamlit_app.py:65-77 | With one candidate the Streamlit and browser resolvers agree |
| StreamlitLookup.EarlierSubstringBeatsLaterExact | streamlit_app.py:69-76 | A substring hit for an earlier candidate beats an exact hit for a later one, where the browser resolver picks the exact one |
| StreamlitLookup.Value | streamlit_app.py:196-209 | An unresolved role reads as "" |
| StreamlitLookup.ValueIsTrimmedCell | streamlit_app.py:196-209 | A resolved role reads as its cell with Python whitespace stripped |
| StreamlitLookup.ValueIsStripped | streamlit_app.py:196-209 | A value read from a cell has nothing left to strip |
| StreamlitLookup.NaIsNotBlank | streamlit_app.py:128-135 | "na" is not among the blank parent values |
| StreamlitLookup.NaParentIsVariant | streamlit_app.py:128-135 | A row whose parent cell is "NA" is a variant row |
| StreamlitLookup.NaParentDiffers | streamlit_app.py:128-135 | The same "NA" row is a main row for the browser builder |
| StreamlitLookup.IndexOfMainForCode | streamlit_app.py:138-161 | None without a sku column. Otherwise only the first row whose stripped sku equals the stripped code exactly counts, and the result is its nearest main row at or before it, or None |
| StreamlitLookup.IndexOfMainIs | streamlit_app.py:138-161 | When row m is the first exact match and r its nearest main row, the lookup returns r |
| StreamlitLookup.OtherCaseNotFound | streamlit_app.py:151 | Matching is case-sensitive: "ab1" does not find a row whose sku is "AB1" |
| StreamlitLookup.ExactCaseFound | streamlit_app.py:149-154 | "AB1" finds that main row |
| StreamlitLookup.CollectGroup | streamlit_app.py:164-176 | The group is the start row plus a contiguous run of the rows right after it |
| StreamlitLookup.GroupVariantsAreVariantRows | streamlit_app.py:172-175 | No variant of a group is a main row |
| StreamlitLookup.GroupStopsAtMain | streamlit_app.py:172-175 | The row after a group, if any, is a main row |
| StreamlitLookup.GroupCoversRun | streamlit_app.py:164-176 | Every row whose nearest main row is s belongs to the group collected from s |
| StreamlitLookup.LookupGroupHoldsMatchedRow | streamlit_app.py:138-176 | The group found for a code contains the row whose sku matched it |
| StreamlitPrice.WithoutSymbols | streamlit_app.py:102-109 | Stripping and removing "€", "EUR", "euro" and spaces never lengthens the text and keeps every digit |
| StreamlitPrice.Separators | streamlit_app.py:115-118 | After the separator rule no comma is left and every digit is kept. Comma-free text is unchanged, and text with both separators gets shorter |
| StreamlitPrice.PriceTextDigits | streamlit_app.py:102-118 | The text handed to float holds exactly the cell's digits and no comma |
| StreamlitPrice.NormalizePrice | streamlit_app.py:97-125 | None or a blank cell gives "". A non-empty price is the two-decimal rendering of the cleaned text. A non-empty cleaned text that parses always yields its rendering |
| StreamlitPrice.SeparatorsAgree | streamlit_app.py:115-118 | On digits, separators and minus signs, the Streamlit separator rule equals the browser's |
| StreamlitPrice.PricesAgreeOnCleanCells | streamlit_app.py:97-125 | On such cells both builders hand the same text to the parser |
| StreamlitPrice.EuroPrefixRemoved | streamlit_app.py:107-109 | A leading "€ " is removed without a trace |
| StreamlitPrice.EuroPricedCell | streamlit_app.py:97-125 | "€ " followed by a clean number reaches the parser as the browser's text of that number |
| StreamlitRow.RawCell | streamlit_app.py:217 | A missing cell is None, not "" |
| StreamlitRow.VariantPrice | streamlit_app.py:216-217 | Without a price column a slot's price is "" |
| StreamlitRow.Overflow | streamlit_app.py:212 | The overflow is positive exactly when there are more than five variants, and together with the filled slots it accounts for every variant |
| StreamlitRow.BuildModelRow | streamlit_app.py:179-223 | The row has the classic keys in order, product fields from the main row, slot i from variant i or blank, and closing fields from the main row. The returned count is max(0, n - 5) |
| StreamlitRow.BuiltRowCode | streamlit_app.py:196-203 | "Codice Articolo" is the main row's stripped sku |
| StreamlitRow.SlotsInOrder | streamlit_app.py:213-221 | Slot i holds variant i's sku for i ≤ min(5, n); later slots are all "" |
| StreamlitRow.NoPriceColumnNoPrices | streamlit_app.py:216-217 | Without a price column every Prezzo_cod slot is "" |
| StreamlitRow.SlotImageBlankIffCodeBlank | streamlit_app.py:219-221 | A slot's finish image is "" exactly when its code is "" |
| StreamlitRow.ExtraVariantsIgnored | streamlit_app.py:212-213 | Variants past the fifth do not change the row, only the count |
| StreamlitRow.SameFirstFive | streamlit_app.py:213 | The five slots depend only on the first five variants |
| StreamlitCollection.AddByCodeAsWritten | streamlit_app.py:302-328 | A blank code is refused. A typed code already stored is refused before the lookup. A code not found leaves the list unchanged. Otherwise one row, from the found group, is appended |
| StreamlitCollection.AddAsWrittenAppends | streamlit_app.py:314-321 | A new typed code that resolves to main row `index` appends exactly that group's row and leaves the source alone |
| StreamlitCollection.TypedCodeCheckAdmitsDuplicate | streamlit_app.py:310 | Adding a main code and then its variant's code stores the same row twice |
| StreamlitCollection.AddByCode | streamlit_app.py:302-328 | Corrected add: the duplicate check compares the code of the row that would be added. Refusals leave the session unchanged; success appends one row whose code was not stored |
| StreamlitCollection.AddByCodeKeepsCodesUnique | streamlit_app.py:302-328 | The corrected add keeps stored codes pairwise different |
| StreamlitCollection.VariantCodeOfPresentGroupRefused | streamlit_app.py:310 | In the duplicate scenario the corrected add refuses the variant's code |
| StreamlitCollection.RefusedWhenGroupStored | streamlit_app.py:310-319 | A code whose group's row is already stored is refused, and nothing changes |
| StreamlitCollection.MainCodeFound | streamlit_app.py:149-154 | In a main row followed by its variant, the main code finds the main row |
| StreamlitCollection.VariantCodeFound | streamlit_app.py:155-159 | The variant's code also finds that main row |
| StreamlitCollection.ClearAll | streamlit_app.py:331-336 | Clearing empties the preview and keeps the source |
| CatalogModes.ParseMode | glasscom-catalog-builder.php:312-315 | A posted mode outside the four names reads as classic; any other result is the mode of that name |
| CatalogModes.ParseModeName | glasscom-catalog-builder.php:237-240 | Each mode's stored name parses back to the mode |
| CatalogModes.TargetColumns | glasscom-catalog-builder.php:316-320 | Morsetti/tubi start from the 12 base columns, the other modes from the 32 classic ones; both share head and tail |
| CatalogCodes.ExplodeOnce | glasscom-catalog-builder.php:68 | Splitting at the first separator gives a separator-free head. The rest is absent exactly when there is no separator, and head, separator and rest rebuild the input |
| CatalogCodes.SeparatorParts | glasscom-catalog-builder.php:63-72 | A blank code gives ("",""). A code without the separator gives (canonical code, ""). The parent never holds the separator |
| CatalogCodes.SeparatorPartsRebuild | glasscom-catalog-builder.php:63-72 | With a separator present, parent, separator and variant, each with its trimmed-off padding, rebuild the canonical code |
| CatalogCodes.SeparatorPartsOfPlainCode | glasscom-catalog-builder.php:63-87 | Parsing parent + separator + variant, all upper-case and trimmed, gives back (parent, variant) |
| CatalogCodes.MorsettiParts | glasscom-catalog-builder.php:63-72 | The morsetti parser is the separator parser on '/' |
| CatalogCodes.TubiIsSeparatorParts | glasscom-catalog-builder.php:75-87 | The tubi parser, with its one-part early return, is the separator parser on '-' |
| CatalogCodes.MorsettiExample | glasscom-catalog-builder.php:63-72 | "MB2/17.52" parses to ("MB2", "17.52") |
| CatalogCodes.TubiExample | glasscom-catalog-builder.php:75-87 | "TUCO-01.304" parses to ("TUCO", "01.304") |
| CatalogCodes.PartsOfTokens | glasscom-catalog-builder.php:156-178 | The parent is empty exactly when there are no tokens, and then so is the variant; the parent never holds a space or '_' |
| CatalogCodes.ClassicParts | glasscom-catalog-builder.php:149-179 | The parent is empty exactly when the canonical code is all spaces/underscores, and then so is the variant; the parent has no separator character |
| CatalogCodes.ClassicSideRule | glasscom-catalog-builder.php:161-165 | A DX/SX second token joins the first token into the parent, and the variant is the remaining tokens joined by spaces |
| CatalogCodes.ClassicSmfRule | glasscom-catalog-builder.php:166-175 | An SMF+digit+alphanumerics first token, without a DX/SX second token, gives the parent "SMF" |
| CatalogCodes.ClassicFirstTokenRule | glasscom-catalog-builder.php:176-178 | Otherwise the parent is the first token and the variant the rest joined by spaces |
| CatalogCodes.SideRuleBeatsSmfExample | glasscom-catalog-builder.php:161-175 | The DX/SX rule runs before the SMF rule: SMF12 DX CR gives ("SMF12DX", "CR") |
| CatalogCodes.SmfRuleExample | glasscom-catalog-builder.php:166-175 | SMF12 CR gives ("SMF", "12 CR") |
| CatalogFinish.FinishCodesShape | glasscom-catalog-builder.php:90-114 | Every finish code is two or three upper-case letters, and every name is non-empty |
| CatalogFinish.FinishCodesDistinct | glasscom-catalog-builder.php:90-114 | No two finishes share a code, so flipping the table loses nothing |
| CatalogFinish.FlipLookup | glasscom-catalog-builder.php:120-121 | A non-empty name found for a code is a table entry with that code |
| CatalogFinish.FinishLabelByCode | glasscom-catalog-builder.php:115-122 | A name is found only for a known canonical code; a blank or unknown code gives "" |
| CatalogFinish.LabelOfEachCode | glasscom-catalog-builder.php:115-122 | Looking up each finish's code gives back its name |
| CatalogFinish.FinishCodeFromVariant | glasscom-catalog-builder.php:123-138 | A blank parent or code gives "". Any result is "" or a known finish code, and a non-empty result always has a name |
| CatalogFinish.FinishOfSuffixedCode | glasscom-catalog-builder.php:123-138 | A code made of the parent, a space and a finish code resolves to that finish code |
| CatalogAssets.AssetFilename | glasscom-catalog-builder.php:141-146 | The file name holds only A-Z, 0-9 and '_', has no leading, trailing or doubled '_', and is no longer than the canonical code |
| CatalogAssets.AssetNameFixed | glasscom-catalog-builder.php:141-146 | A name already of that shape is its own file name |
| CatalogAssets.AssetFilenameIdempotent | glasscom-catalog-builder.php:141-146 | Applying the sanitiser twice is the same as once |
| CatalogAssets.AssetOfAlnumCode | glasscom-catalog-builder.php:141-146 | An alphanumeric code's file name is the code upper-cased |
| CatalogHeaders.Norm | glasscom-catalog-builder.php:1737-1747 | A normalised name is trimmed lower-case ASCII letters and digits with single spaces between runs |
| CatalogHeaders.NormFixed | glasscom-catalog-builder.php:1737-1747 | A name already in normal form is unchanged |
| CatalogHeaders.NormIdempotent | glasscom-catalog-builder.php:1737-1747 | Normalising twice is normalising once |
| CatalogHeaders.FlipIndex | glasscom-catalog-builder.php:1836 | The flipped map yields the last header with a given normalised name, and nothing when no header has it |
| CatalogHeaders.ExactPassFrom | glasscom-catalog-builder.php:1837-1842 | The exact pass fails exactly when no candidate is accepted; otherwise it gives the first accepted candidate and the last header equal to it |
| CatalogHeaders.Fallback | glasscom-catalog-builder.php:1851 | With no headers the fallback is ""; otherwise it is one of the headers |
| CatalogHeaders.GuessCol | glasscom-catalog-builder.php:1833-1852 | The guessed key is "" without headers and otherwise one of the trimmed headers |
| CatalogHeaders.GuessColAsWritten | glasscom-catalog-builder.php:1833-1852 | The same bounds hold for the guard-less exact pass as written |
| CatalogHeaders.GuessPrefersExact | glasscom-catalog-builder.php:1837-1842 | When a candidate matches exactly, the result is the header the exact pass names, whatever the substring pass would find |
| CatalogHeaders.GuessThenSubstring | glasscom-catalog-builder.php:1843-1850 | With no exact hit, the first candidate with a substring hit decides, and its first header is the result |
| CatalogHeaders.GuessFallback | glasscom-catalog-builder.php:1851 | With no hit at all, the result is the header at the fallback index, else header 0, else "" |
| CatalogHeaders.GuardedExactNotBlank | glasscom-catalog-builder.php:1846 | With the guard, an exact hit never names a header that normalises to "" |
| CatalogHeaders.GuessKeys | glasscom-catalog-builder.php:339-343 | The five source keys of the build are guessed as written, with no empty-name guard in the exact pass; each is one of the trimmed headers, or all are "" without headers |
| CatalogHeaders.GuessKeysWith | glasscom-catalog-builder.php:339-343 | With or without the guard, each of the five keys is one of the trimmed headers, or all are "" without headers |
| CatalogHeaders.NormOfEuro | glasscom-catalog-builder.php:343 | The price candidate "€" normalises to the empty name |
| CatalogHeaders.EmptyCandidateTakesBlankHeader | glasscom-catalog-builder.php:1837-1842 | As written, an empty normalised candidate exactly matches the last blank header before any substring candidate is tried |
| CatalogHeaders.GuardedBlankOnlyAsFallback | glasscom-catalog-builder.php:1843-1851 | With the guard, a header that normalises to "" is chosen only as the fallback |
| CatalogFields.CatParts | glasscom-catalog-builder.php:1858-1862 | The category part holds no '>', '|' or '/'. Both parts are upper-case and trimmed. Text without a separator is all category |
| CatalogFields.ExtractCatSub | glasscom-catalog-builder.php:1854-1868 | The category is upper-case, trimmed and free of separators; the subcategory is upper-case and trimmed. A category without a separator is kept whole. With no subtitle it gets an empty subcategory. A non-empty subtitle leaves the subcategory empty only when the subtitle itself is blank once canonicalised |
| CatalogFields.ExtractCatSubRoundTrip | glasscom-catalog-builder.php:1854-1868 | Splitting "A > B" for canonical parts gives back (A, B), whatever the subtitle |
| CatalogFields.ExtractCatSubPlain | glasscom-catalog-builder.php:1864-1866 | A plain category with a non-empty subtitle gives (category, subtitle), both canonical |
| CatalogFields.ValuesEmpty | glasscom-catalog-builder.php:1872-1881 | No value is counted exactly when every item's trimmed field is blank |
| CatalogFields.BestUpTo | glasscom-catalog-builder.php:1882-1883 | The chosen value has the highest count, and every value seen earlier has a strictly lower count |
| CatalogFields.MostCommonField | glasscom-catalog-builder.php:1870-1884 | The result is "" exactly when all trimmed fields are blank. Otherwise it is the most frequent non-blank value, ties going to the first value seen |
| CatalogFields.MostCommonIsBest | glasscom-catalog-builder.php:1870-1884 | Whatever value is most frequent and first seen is the result |
| CatalogFields.BestUnique | glasscom-catalog-builder.php:1882-1883 | Only one value is most frequent and first seen |
| CatalogFields.MostCommonOfUniform | glasscom-catalog-builder.php:1870-1884 | When every non-blank field is v, the result is v |
| CatalogParents.KeepFilled | glasscom-catalog-builder.php:345 | Kept lines are trimmed and not PHP-empty, none is added, and when no piece holds a line break no kept line does |
| CatalogParents.ParentCodes | glasscom-catalog-builder.php:345 | Each parent code is trimmed, has no line break and is not PHP-empty |
| CatalogParents.KeepFilledNoop | glasscom-catalog-builder.php:345 | Lines that already qualify are kept as they are |
| CatalogParents.TokensOfJoin | glasscom-catalog-builder.php:345 | Splitting qualifying lines joined by line feeds gives the lines back |
| CatalogParents.ParentCodesOfLines | glasscom-catalog-builder.php:311-345 | Parent codes written one per line are read back as they were |
| CatalogItems.Tagged | glasscom-catalog-builder.php:356-358 | An item carries the given _parent and _variant, and every other field of its row unchanged |
| CatalogItems.FilterMap | glasscom-catalog-builder.php:352-390 | Nothing is collected exactly when no row is kept |
| CatalogItems.FilterMapAppend | glasscom-catalog-builder.php:352-390 | The collected output keeps the input order: that of a concatenation is the two outputs joined |
| CatalogItems.FilterMapSingle | glasscom-catalog-builder.php:352-390 | One element contributes its image exactly when it is kept, and nothing otherwise |
| CatalogItems.CollectItems | glasscom-catalog-builder.php:351-391 | There are no items exactly when no source row belongs to the typed parent |
| CatalogItems.CollectItemsAppend | glasscom-catalog-builder.php:351-391 | The items come in table order, one per matching row: a split table yields the items of its first part followed by those of its second, and a single row yields its item exactly when it matches |
| CatalogItems.CollectedFromMatch | glasscom-catalog-builder.php:351-391 | Every item is what some matching source row becomes |
| CatalogItems.MatchCollected | glasscom-catalog-builder.php:351-391 | Every matching source row is collected |
| CatalogItems.ParsedItem | glasscom-catalog-builder.php:363-390 | Outside senza mode, an item's parent upper-cased is the typed parent upper-cased, and its variant is the parser's |
| CatalogItems.SenzaItem | glasscom-catalog-builder.php:351-361 | In senza mode an item's code starts with the typed parent ignoring case. Its _parent is the typed parent upper-cased and its _variant is the trimmed rest of the code |
| CatalogSort.Insert | glasscom-catalog-builder.php:408-410 | Insertion adds exactly one item and changes nothing else in the multiset |
| CatalogSort.InsertSorted | glasscom-catalog-builder.php:408-410 | Inserting into variant-ordered items keeps them ordered, for a comparator whose "greater" mirrors its "less" |
| CatalogSort.SortItems | glasscom-catalog-builder.php:408-410 | Sorting is a permutation of the items |
| CatalogSort.SortItemsSorted | glasscom-catalog-builder.php:408-410 | Sorted items are in variant order |
| CatalogSort.SortKeepsSorted | glasscom-catalog-builder.php:408-410 | Items already in order are left as they are |
| CatalogSort.SortIdempotent | glasscom-catalog-builder.php:408-410 | Sorting twice is sorting once |
| CatalogSort.WithVariant | glasscom-catalog-builder.php:408-410 | The items picked for a variant are exactly the items that have it |
| CatalogSort.InsertWithVariant | glasscom-catalog-builder.php:408-410 | An inserted item goes in front of the items sharing its variant and leaves every other variant's items in order |
| CatalogSort.SortStable | glasscom-catalog-builder.php:408-410 | When the comparator finds a variant equal to itself, the items with that variant leave the sort in the order they entered it |
| CatalogVariants.ScanCount | glasscom-catalog-builder.php:1922-1931 | The scan counts at most the 100 slots from its index on |
| CatalogVariants.FallbackCount | glasscom-catalog-builder.php:1932-1938 | The classic fallback counts at most the slots from its index up to the fifth |
| CatalogVariants.CountFinishes | glasscom-catalog-builder.php:1917-1940 | The count is at most 100, and zero only when the scan counts nothing |
| CatalogVariants.NoScanNoFallback | glasscom-catalog-builder.php:1923-1938 | When cod1..cod5 are present and the scan counts none, the fallback counts none either |
| CatalogVariants.CountOfFullRow | glasscom-catalog-builder.php:1917-1940 | With cod1..cod5 present, the count is the scan's count |
| CatalogVariants.CountWithoutFirstCode | glasscom-catalog-builder.php:1932-1938 | A classic row without cod1 is counted by the fallback over cod1..cod5 |
| CatalogVariants.LeadingRunFrom | glasscom-catalog-builder.php:1923-1930 | Every row has a run cod1..codL of present keys that stops at a missing key or at 100 |
| CatalogVariants.ScanCountFrom | glasscom-catalog-builder.php:1923-1930 | From index i on, the scan counts the indexes up to L whose code is present and not blank once trimmed |
| CatalogVariants.ScanCountIsFilled | glasscom-catalog-builder.php:1923-1930 | The scan counts the filled codes among cod1..codL, the leading run of present keys |
| CatalogVariants.FallbackCountIsNonEmpty | glasscom-catalog-builder.php:1932-1938 | The fallback counts the indexes from i to 5 whose trimmed code is non-empty in PHP's sense |
| CatalogVariants.CountFinishesIsCount | glasscom-catalog-builder.php:1917-1940 | The count is the number of filled codes in the leading run; when that is zero for a classic row, it is the number of non-empty codes among cod1..cod5 |
| CatalogVariants.KeyIndex | glasscom-catalog-builder.php:1948-1949 | A key has an index only when it starts with "cod" |
| CatalogVariants.KeyIndexOfCodKey | glasscom-catalog-builder.php:1948-1949 | "cod" followed by the decimal form of n has index n |
| CatalogVariants.MaxVariantIndex | glasscom-catalog-builder.php:1942-1956 | The result bounds the index of every non-blank codN key. A positive result is attained by one of them. It is zero exactly when every such key has index zero |
| CatalogVariants.ExportColumns | glasscom-catalog-builder.php:246-257 | No rows is an error. Classic rows use the classic schema. Morsetti/tubi use the dynamic schema whose slot count is the largest index of a non-blank codK in any row, or 1 when that is smaller, so it holds codK for each such key |
| CatalogVariants.RowOf | glasscom-catalog-builder.php:1722-1725 | The associative row has exactly the record's field names |
| CatalogVariants.RowOfDistinct | glasscom-catalog-builder.php:1722-1725 | With distinct names, each field's value is what the row holds under its name |
| CatalogVariants.ProjectRecord | glasscom-catalog-builder.php:1714-1735 | Writing a record under its own column list gives its values back in order |
| CatalogBuild.PriceCell | glasscom-catalog-builder.php:427-432 | A blank or non-numeric raw price is copied unchanged. A non-blank one that is numeric once commas are read as points is formatted with two decimals from the dotted text |
| CatalogBuild.GhostRecord | glasscom-catalog-builder.php:393-406 | The placeholder row lists the mode's target columns, all "" except "Codice Articolo" = the canonical code, followed by _already_saved_id = the saved id of the code (0 when none), _not_found = 1 and _gcb_mode = the mode's name |
| CatalogBuild.HeadValues | glasscom-catalog-builder.php:412-418 | Prodotto and Sottotitolo are blank. Categoria is the items' most common category. @image_01 and @image_scheda are singoli-componenti/ALLimages/<asset>.jpg and singoli-componenti/ALLpdf/<asset>.pdf. Nome Articolo is the first item's trimmed description. Codice Articolo is the canonical code |
| CatalogBuild.TailValues | glasscom-catalog-builder.php:412-420 | Dimensione, Per Vetro and Materiale are blank. UM is the items' most common unit. @image_SchedeTecniche repeats @image_scheda |
| CatalogBuild.FinishSlotOfSuffixedCode | glasscom-catalog-builder.php:446-458 | An item coded parent + space + finish code gets that code, the finish's name and finiture/<code>.jpg |
| CatalogBuild.FinishSlotOfCode | glasscom-catalog-builder.php:447-458 | When a finish code is resolved, the slot holds its name and image |
| CatalogBuild.FinishSlotWithoutFinish | glasscom-catalog-builder.php:447-458 | When no finish is resolved, the slot keeps the code and has a blank name and image |
| CatalogBuild.ClassicRow | glasscom-catalog-builder.php:462-474 | A classic row lists the classic columns, carries the code at column 6, slot i's four values, the tail values and then the bookkeeping fields |
| CatalogBuild.FlatSlots | glasscom-catalog-builder.php:422-437 | The flattened slot values list each item's three values in item order |
| CatalogBuild.VariantSlotRecord | glasscom-catalog-builder.php:433-435 | The slot fields are named cod/Prezzo_cod/var for 1..n and carry each item's three values |
| CatalogBuild.VariantRowParts | glasscom-catalog-builder.php:462-477 | A morsetti/tubi row is the base head, the slots, _var_count and the bookkeeping fields, in that order |
| CatalogBuild.VariantRowSlot | glasscom-catalog-builder.php:433-435 | Slot i+1 of a morsetti/tubi row holds the i-th values under their slot names |
| CatalogBuild.ClassicSlots | glasscom-catalog-builder.php:440-459 | Classic slot i holds item i's fields when there is one, blank otherwise |
| CatalogBuild.VariantSlotVals | glasscom-catalog-builder.php:422-437 | There is one three-value slot per item, in item order |
| CatalogBuild.ClassicFound | glasscom-catalog-builder.php:412-474 | The classic row has the classic columns, the canonical code, classic slot i from item i and the bookkeeping trailer. Its product fields are the category, asset paths, name, unit and sheet copy of the items, with the other fixed columns blank |
| CatalogBuild.VariantFound | glasscom-catalog-builder.php:412-477 | The morsetti/tubi row has 15 + 3n fields and the canonical code. Its product fields are the category, asset paths, name, unit and sheet copy of the items, with the other fixed columns blank. It ends with _already_saved_id and _gcb_mode |
| CatalogBuild.VariantFoundSlots | glasscom-catalog-builder.php:422-437 | Slot i+1 holds the i-th ordered item's code, price and variant |
| CatalogBuild.VariantFoundCount | glasscom-catalog-builder.php:438 | The row starts with the base columns and records _var_count = n |
| CatalogBuild.FoundRecord | glasscom-catalog-builder.php:412-478 | The row laid out from items carries the canonical code |
| CatalogBuild.BuildParent | glasscom-catalog-builder.php:346-479 | Each parent's row carries the typed code upper-cased, and the parent is marked found exactly when some source row belongs to it |
| CatalogBuild.UnmatchedParent | glasscom-catalog-builder.php:393-406 | A parent without items gets the placeholder row |
| CatalogBuild.MatchedParent | glasscom-catalog-builder.php:408-478 | A parent with items gets the row laid out from a permutation of its collected items, in variant order when the comparator is antisymmetric |
| CatalogBuild.NotFound | glasscom-catalog-builder.php:393-394 | The not-found list holds exactly the typed parents without items |
| CatalogBuild.NotFoundAppend | glasscom-catalog-builder.php:346-394 | The not-found list keeps the order of the typed parents: that of a concatenation is the two lists joined |
| CatalogBuild.NotFoundCounts | glasscom-catalog-builder.php:346-394 | An unmatched parent is listed as often as it is typed, and a matched one never |
| CatalogBuild.PreviewRows | glasscom-catalog-builder.php:346-479 | There is one preview row per parent, in order, each carrying its upper-cased code, plus the not-found list |
| CatalogBuild.Preview | glasscom-catalog-builder.php:307-345 | A blank text is an error; otherwise there is one preview row per parent code of the text |
| PhpText.PhpTrimNoop | glasscom-catalog-builder.php:64 | PHP trim leaves already trimmed text unchanged |
| PhpText.CanonCodeIdempotent | glasscom-catalog-builder.php:116 | Canonicalising a code (upper-case after trim) twice is canonicalising it once |
| Text.StripIsTrim | streamlit_app.py:134 | Python's `strip` gives the same text as trimming the same characters from both ends |

## Left out

- I/O and UI:
  - file and network loading (`Papa.parse`, `load_origin`, `gcb_read_csv_assoc`, `gcb_fetch_and_cache_stan`);
  - WordPress rendering, nonces, `$_POST`, the database (`gcb_ensure_table`, `gcb_db_upsert_row`, the saved-list page);
  - browser localStorage, DOM rendering and `showMessage`;
  - Streamlit widgets, session state and messages.

  The preview list is an explicit `Session` value instead.
- The database ids of saved parents are the `saved` map parameter, not a query.
- Floating point: `parseFloat`/`toFixed`, `float`/`:.2f`, `is_numeric`/`floatval`/`number_format` are parameters. `gcb_row_has_zero_price` is not modelled because it is a numeric comparison on parsed floats.
- BrowserPrice.NormalizePrice: the parse test `ParsesAsNumber` is a string approximation of `parseFloat` yielding a number (an optional sign, then a digit, or a point followed by a digit).
- `iconv` transliteration in `gcb_norm`: names are ASCII-only, and characters outside ASCII count as non-alphanumeric.
- Unicode case mapping in `toLowerCase`/`lower()`: only ASCII letters change case.
- `strnatcasecmp`: the comparator is a parameter, and only its antisymmetry is assumed. CatalogSort.SortItems is a stable insertion sort; PHP 8's `usort` is stable as well, so the two agree for comparators that are total preorders, which the model does not require.
- CatalogVariants.KeyIndex: reads the digits as an unbounded natural; PHP's `(int)` saturates for more than 18 digits.
- `sanitize_text_field` on the posted mode is not modelled; the mode is matched as posted.
- BrowserLookup.FindColumns and StreamlitLookup.FindColumns have no contract of their own: they are tables of `FindColumn` calls, whose contracts carry the meaning.
- `fputcsv` quoting in `gcb_write_csv_semicolon`: only the projection of a row onto the columns is modelled (`ProjectRow`).
- CatalogItems.ItemOf is only meaningful for matching rows; the source never calls it on others.
- CatalogBuild.VariantFound: its contract states length, code, product fields and the closing bookkeeping fields; the slot contents and `_var_count` are in `VariantFoundSlots` and `VariantFoundCount`.
- CatalogBuild.BuildParent: outside senza-separatore mode `$parent_code_actual` is `strtoupper` of the first matching item's parent. That equals the typed code upper-cased because matching compares the two upper-cased, so the model uses the latter directly.
- The Streamlit export and the empty-template download are pandas/FileSaver calls and are not modelled.

## Findings

| source | as written | input that shows it | evidently intended | confidence | as-written member | corrected member |
|---|---|---|---|---|---|---|
| streamlit_app.py:310 | The duplicate check compares the typed code with the stored codes before the lookup. A variant's code resolves to its main row, whose row may already be stored | Table with main row PARENT1 followed by variant VAR1. Add "PARENT1", then "VAR1": the preview holds two rows for PARENT1 | Refuse an add whose resolved row's code is already stored, as the browser builder does (app.js:303-312) | medium, not executed | StreamlitCollection.TypedCodeCheckAdmitsDuplicate | StreamlitCollection.AddByCodeKeepsCodesUnique |
| glasscom-catalog-builder.php:1837-1842 | The exact pass accepts a candidate whose normalised form is empty. The price candidate "€" normalises to "" and so matches a blank or punctuation-only header. The substring pass skips empty names | Headers ["Codice", "Prezzo Listino", ""] (a trailing separator): the price key becomes "" instead of "Prezzo Listino" | Skip empty normalised candidates in the exact pass too, so a blank header is chosen only as the fallback | medium, not executed | CatalogHeaders.EmptyCandidateTakesBlankHeader | CatalogHeaders.GuardedBlankOnlyAsFallback |

The build itself (`CatalogBuild.Preview`, through `CatalogHeaders.GuessKeys`) follows the exact pass as written, so that the preview matches what the plugin produces; `CatalogHeaders.GuessKeysWith(headers, true)` gives the keys with the correction.
