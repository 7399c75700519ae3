/** The four build modes of the catalog plugin and the output schema each one starts from. */
module CatalogModes {
  import opened Schema

  /** Classic codes (`_`/space separated, with the DX/SX and SMF rules), morsetti (`/`),
      tubi (`-`) and senza-separatore (the variant is whatever follows the parent). */
  datatype Mode = Classic | Morsetti | Tubi | Senza

  /** The value the mode is posted and stored under (`_gcb_mode`). */
  function ModeName(m: Mode): (name: string)
    ensures name != ""
  {
    match m
    case Classic => "classic"
    case Morsetti => "morsetti"
    case Tubi => "tubi"
    case Senza => "senza_separatore"
  }

  /** The posted mode, with anything outside the four names read as classic. */
  function ParseMode(s: string): (m: Mode)
    ensures m != Classic ==> ModeName(m) == s
  {
    if s == "morsetti" then Morsetti
    else if s == "tubi" then Tubi
    else if s == "senza_separatore" then Senza
    else Classic
  }

  /** Every mode reads back from its own name. */
  lemma ParseModeName(m: Mode)
    ensures ParseMode(ModeName(m)) == m
  {
  }

  /** Morsetti and tubi rows carry one three-field slot per variant. */
  predicate IsVariantMode(m: Mode)
  {
    m == Morsetti || m == Tubi
  }

  /** `$TARGET_COLS`: the base schema of the morsetti/tubi modes, the classic schema
      otherwise. */
  function TargetColumns(m: Mode): (cols: seq<string>)
    ensures |cols| == if IsVariantMode(m) then 12 else 32
    ensures cols[..7] == HeadColumns() && cols[|cols| - 5..] == TailColumns()
  {
    if IsVariantMode(m) then VariantBaseColumns() else ClassicColumns()
  }
}
