/** Semantic roles of the source columns, their candidate header names, the column map, and
    the candidate-major first-hit scan the column resolvers are built from. The candidate
    lists are the same in app.js and streamlit_app.py; the resolvers differ and live in the
    Browser* and Streamlit* modules. */
module Columns {
  import opened Base
  import opened Text

  datatype Role = Sku | Parent | Title | Cat | Price | Fin | Um | Mat | Dim | Glass

  /** Candidate header names for each role, in priority order. */
  function Candidates(role: Role): seq<string>
  {
    match role
    case Sku => ["sku"]
    case Parent => ["parent_sku", "parent sku", "parent"]
    case Title => ["post_title", "titolo"]
    case Cat => ["categoria", "product_cat"]
    case Price => ["regular_price", "price"]
    case Fin => ["meta:attribute_pa_finitura", "finitura"]
    case Um => ["um"]
    case Mat => ["materiale"]
    case Dim => ["dimensione", "size"]
    case Glass => ["per vetro", "vetro"]
  }

  /** The header resolved for each role, or None when the role is unresolved. */
  datatype ColumnMap = ColumnMap(
    sku: Option<string>, parent: Option<string>, title: Option<string>, cat: Option<string>,
    price: Option<string>, fin: Option<string>, um: Option<string>, mat: Option<string>,
    dim: Option<string>, glass: Option<string>)
  {
    function Get(role: Role): Option<string>
    {
      match role
      case Sku => sku
      case Parent => parent
      case Title => title
      case Cat => cat
      case Price => price
      case Fin => fin
      case Um => um
      case Mat => mat
      case Dim => dim
      case Glass => glass
    }
  }

  /** The header a role reads from: none when the role is unresolved or resolved to the empty
      header name, which both builders treat as a missing column (it is falsy). */
  function Resolved(m: ColumnMap, role: Role): Option<string>
  {
    match m.Get(role)
    case None => None
    case Some(col) => if col == "" then None else Some(col)
  }

  /** Case-insensitive equality of a header with a candidate. */
  predicate ExactMatch(col: string, cand: string)
  {
    Lower(col) == Lower(cand)
  }

  /** The lower-cased header contains the lower-cased candidate. */
  predicate SubstringMatch(col: string, cand: string)
  {
    Contains(Lower(col), Lower(cand))
  }

  lemma ExactIsSubstring(col: string, cand: string)
    requires ExactMatch(col, cand)
    ensures SubstringMatch(col, cand)
  {
    ContainsSelf(Lower(col));
  }

  /** Column `i` is the first column that `hit` accepts for candidate `cand`. */
  predicate IsFirstIndex(cols: seq<string>, cand: string, hit: (string, string) -> bool, i: nat)
  {
    i < |cols| && hit(cols[i], cand) && forall j :: 0 <= j < i ==> !hit(cols[j], cand)
  }

  /** The first column at or after `from` that `hit` accepts for `cand` (`findIndex`). */
  function FirstIndexFrom(cols: seq<string>, cand: string, hit: (string, string) -> bool, from: nat): (r: Option<nat>)
    requires forall j :: 0 <= j < from && j < |cols| ==> !hit(cols[j], cand)
    ensures r.None? <==> forall j :: 0 <= j < |cols| ==> !hit(cols[j], cand)
    ensures r.Some? ==> IsFirstIndex(cols, cand, hit, r.value)
    decreases |cols| - from
  {
    if from >= |cols| then None
    else if hit(cols[from], cand) then Some(from)
    else FirstIndexFrom(cols, cand, hit, from + 1)
  }

  function FirstIndex(cols: seq<string>, cand: string, hit: (string, string) -> bool): (r: Option<nat>)
    ensures r.None? <==> forall j :: 0 <= j < |cols| ==> !hit(cols[j], cand)
    ensures r.Some? ==> IsFirstIndex(cols, cand, hit, r.value)
  {
    FirstIndexFrom(cols, cand, hit, 0)
  }

  /** No column is accepted for any of the candidates before position `k`. */
  predicate NoHitBefore(cols: seq<string>, cands: seq<string>, hit: (string, string) -> bool, k: nat)
  {
    forall k', j :: 0 <= k' < k && k' < |cands| && 0 <= j < |cols| ==> !hit(cols[j], cands[k'])
  }

  /** Candidate `k` is the first candidate with any hit and column `i` its first hit. */
  predicate IsFirstHit(cols: seq<string>, cands: seq<string>, hit: (string, string) -> bool, k: nat, i: nat)
  {
    k < |cands| && NoHitBefore(cols, cands, hit, k) && IsFirstIndex(cols, cands[k], hit, i)
  }

  /** Candidates outer, columns inner: the first candidate for which some column is accepted,
      with the first such column. */
  function FirstHit(cols: seq<string>, cands: seq<string>, hit: (string, string) -> bool): (r: Option<(nat, nat)>)
    ensures r.None? <==> NoHitBefore(cols, cands, hit, |cands|)
    ensures r.Some? ==> IsFirstHit(cols, cands, hit, r.value.0, r.value.1)
    decreases |cands|
  {
    if |cands| == 0 then None
    else match FirstIndex(cols, cands[0], hit)
      case Some(i) => Some((0, i))
      case None =>
        match FirstHit(cols, cands[1..], hit)
        case None => None
        case Some(p) =>
          assert forall k' :: 1 <= k' < |cands| ==> cands[k'] == cands[1..][k' - 1];
          Some((p.0 + 1, p.1))
  }
}
