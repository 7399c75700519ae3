/** Shared value types: an optional value, the source-row accessor with its empty-string
    default, and the ordered key/value record used for flattened model rows. JavaScript
    objects, Python dicts and PHP arrays all keep insertion order, so a row is modelled as
    its fields in column order. */
module Base {

  datatype Option<+T> = None | Some(value: T)

  /** A source-table row: raw header name to raw cell text. */
  type Row = map<string, string>

  /** A flattened output row: field names with their values, in column order. */
  type Record = seq<(string, string)>

  /** `row[key] ?? ""`: the cell under `key`, or the empty string when there is none. */
  function Cell(row: Row, key: string): string
  {
    if key in row then row[key] else ""
  }

  /** The field names of a record, in order. */
  function Keys(r: Record): (ks: seq<string>)
    ensures |ks| == |r|
    ensures forall i :: 0 <= i < |r| ==> ks[i] == r[i].0
  {
    seq(|r|, i requires 0 <= i < |r| => r[i].0)
  }

  /** The value of the first field named `k`, as a lookup on an object or dict does. */
  function Get(r: Record, k: string): (v: Option<string>)
    ensures v.None? <==> forall i :: 0 <= i < |r| ==> r[i].0 != k
    ensures v.Some? ==> exists i :: 0 <= i < |r| && r[i] == (k, v.value) && forall j :: 0 <= j < i ==> r[j].0 != k
  {
    if |r| == 0 then None
    else if r[0].0 == k then Some(r[0].1)
    else
      var v := Get(r[1..], k);
      assert v.Some? ==> exists i :: 1 <= i < |r| && r[i] == (k, v.value) && forall j :: 0 <= j < i ==> r[j].0 != k by {
        if v.Some? {
          var i :| 0 <= i < |r[1..]| && r[1..][i] == (k, v.value) && forall j :: 0 <= j < i ==> r[1..][j].0 != k;
          assert r[i + 1] == (k, v.value);
          assert forall j :: 0 <= j < i + 1 ==> r[j].0 != k by {
            forall j | 0 <= j < i + 1 ensures r[j].0 != k {
              if j > 0 { assert r[j] == r[1..][j - 1]; }
            }
          }
        }
      }
      v
  }

  /** `row[key] ?? ""` on a flattened record. */
  function GetOr(r: Record, k: string): string
  {
    match Get(r, k)
    case Some(v) => v
    case None => ""
  }

  /** A field whose name occurs nowhere earlier in the record is what a lookup by that name finds. */
  lemma GetFirstOccurrence(r: Record, i: nat)
    requires i < |r|
    requires forall j :: 0 <= j < i ==> r[j].0 != r[i].0
    ensures Get(r, r[i].0) == Some(r[i].1)
  {
    if i > 0 {
      assert r[1..][i - 1] == r[i];
      GetFirstOccurrence(r[1..], i - 1);
    }
  }

  /** True when no name occurs twice among `ks`. */
  predicate Distinct(ks: seq<string>)
  {
    forall i, j :: 0 <= i < j < |ks| ==> ks[i] != ks[j]
  }

  /** In a record whose names are distinct, the field at position `i` is what a lookup finds. */
  lemma GetDistinct(r: Record, i: nat)
    requires i < |r|
    requires Distinct(Keys(r))
    ensures GetOr(r, r[i].0) == r[i].1
  {
    assert forall j :: 0 <= j < i ==> Keys(r)[j] != Keys(r)[i];
    GetFirstOccurrence(r, i);
  }

  /** The record with names `ks` and values `vs`, position by position. */
  function Zip(ks: seq<string>, vs: seq<string>): (r: Record)
    requires |ks| == |vs|
    ensures Keys(r) == ks
    ensures forall i :: 0 <= i < |r| ==> r[i] == (ks[i], vs[i])
  {
    seq(|ks|, i requires 0 <= i < |ks| => (ks[i], vs[i]))
  }

  /** The first position at or after `from` whose element satisfies `p` (`findIndex`). */
  function FirstWhere<T>(s: seq<T>, p: T -> bool, from: nat): (r: Option<nat>)
    requires forall j :: 0 <= j < from && j < |s| ==> !p(s[j])
    ensures r.None? <==> forall j :: 0 <= j < |s| ==> !p(s[j])
    ensures r.Some? ==> r.value < |s| && p(s[r.value]) && forall j :: 0 <= j < r.value ==> !p(s[j])
    decreases |s| - from
  {
    if from >= |s| then None
    else if p(s[from]) then Some(from)
    else FirstWhere(s, p, from + 1)
  }

  /** The last position at or before `m` whose element satisfies `p`, scanning backwards. */
  function LastWhereAtOrBefore<T>(s: seq<T>, p: T -> bool, m: int): (r: Option<nat>)
    requires m < |s|
    ensures r.None? <==> forall j :: 0 <= j <= m ==> !p(s[j])
    ensures r.Some? ==> r.value <= m && p(s[r.value]) && forall j :: r.value < j <= m ==> !p(s[j])
    decreases m
  {
    if m < 0 then None
    else if p(s[m]) then Some(m)
    else LastWhereAtOrBefore(s, p, m - 1)
  }

  /** The length of the run of elements from `from` on that do not satisfy `p`. */
  function RunUntil<T>(s: seq<T>, p: T -> bool, from: nat): (n: nat)
    requires from <= |s|
    ensures from + n <= |s|
    decreases |s| - from
  {
    if from == |s| || p(s[from]) then 0 else 1 + RunUntil(s, p, from + 1)
  }

  /** No element of the run satisfies `p`. */
  lemma {:induction false} RunUntilSkips<T>(s: seq<T>, p: T -> bool, from: nat)
    requires from <= |s|
    ensures forall j {:trigger p(s[j])} :: from <= j < from + RunUntil(s, p, from) ==> !p(s[j])
    decreases |s| - from
  {
    if from < |s| && !p(s[from]) {
      RunUntilSkips(s, p, from + 1);
    }
  }

  /** The run stops at the end or at an element that satisfies `p`. */
  lemma {:induction false} RunUntilStops<T>(s: seq<T>, p: T -> bool, from: nat)
    requires from <= |s|
    ensures from + RunUntil(s, p, from) < |s| ==> p(s[from + RunUntil(s, p, from)])
    decreases |s| - from
  {
    if from < |s| && !p(s[from]) {
      RunUntilStops(s, p, from + 1);
    }
  }

  /** A main row and the rows that follow it up to the next main row. */
  datatype Group = Group(main: Row, variants: seq<Row>)
}
