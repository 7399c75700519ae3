/** The ordering of a parent's collected items by their variant text (`usort` with
    `strnatcasecmp` on `_variant`). The comparison is a parameter: any three-way comparator
    whose "greater" is the mirror of its "less". */
module CatalogSort {
  import opened Base

  /** The sort key of a collected item. */
  function VariantOf(item: Row): string
  {
    Cell(item, "_variant")
  }

  /** A comparator in which `a` above `b` means `b` below `a`. */
  ghost predicate Antisymmetric(cmp: (string, string) -> int)
  {
    forall a, b :: cmp(a, b) > 0 ==> cmp(b, a) < 0
  }

  /** Every item's variant is at most its successor's. */
  predicate SortedBy(items: seq<Row>, cmp: (string, string) -> int)
  {
    forall i :: 0 <= i < |items| - 1 ==> cmp(VariantOf(items[i]), VariantOf(items[i + 1])) <= 0
  }

  /** `x` placed in front of the first item whose variant it does not exceed. */
  function Insert(x: Row, items: seq<Row>, cmp: (string, string) -> int): (r: seq<Row>)
    ensures multiset(r) == multiset(items) + multiset{x}
    ensures |r| == |items| + 1 && (r[0] == x || (|items| > 0 && r[0] == items[0]))
  {
    if |items| == 0 || cmp(VariantOf(x), VariantOf(items[0])) <= 0 then
      [x] + items
    else
      assert items == [items[0]] + items[1..];
      [items[0]] + Insert(x, items[1..], cmp)
  }

  /** Inserting into sorted items keeps them sorted. */
  lemma {:induction false} InsertSorted(x: Row, items: seq<Row>, cmp: (string, string) -> int)
    requires Antisymmetric(cmp) && SortedBy(items, cmp)
    ensures SortedBy(Insert(x, items, cmp), cmp)
  {
    if |items| > 0 && cmp(VariantOf(x), VariantOf(items[0])) > 0 {
      var tail := items[1..];
      assert SortedBy(tail, cmp) by {
        forall i | 0 <= i < |tail| - 1 ensures cmp(VariantOf(tail[i]), VariantOf(tail[i + 1])) <= 0 {
          assert tail[i] == items[i + 1] && tail[i + 1] == items[i + 2];
        }
      }
      InsertSorted(x, tail, cmp);
      var rest := Insert(x, tail, cmp);
      var r := [items[0]] + rest;
      assert cmp(VariantOf(items[0]), VariantOf(x)) < 0;
      assert |tail| > 0 ==> cmp(VariantOf(items[0]), VariantOf(tail[0])) <= 0;
      assert cmp(VariantOf(r[0]), VariantOf(r[1])) <= 0;
      forall i | 1 <= i < |r| - 1 ensures cmp(VariantOf(r[i]), VariantOf(r[i + 1])) <= 0 {
        assert r[i] == rest[i - 1] && r[i + 1] == rest[i];
      }
    }
  }

  /** The items in variant order: each item goes in front of the later items it does not
      exceed, so items with equal variants keep their order. */
  function SortItems(items: seq<Row>, cmp: (string, string) -> int): (r: seq<Row>)
    ensures multiset(r) == multiset(items)
    ensures |r| == |items|
  {
    if |items| == 0 then []
    else
      assert items == [items[0]] + items[1..];
      Insert(items[0], SortItems(items[1..], cmp), cmp)
  }

  /** With a comparator whose "greater" mirrors its "less", the sorted items are in
      variant order. */
  lemma {:induction false} SortItemsSorted(items: seq<Row>, cmp: (string, string) -> int)
    requires Antisymmetric(cmp)
    ensures SortedBy(SortItems(items, cmp), cmp)
  {
    if |items| > 0 {
      SortItemsSorted(items[1..], cmp);
      InsertSorted(items[0], SortItems(items[1..], cmp), cmp);
    }
  }

  /** Items already in variant order are left as they are. */
  lemma {:induction false} SortKeepsSorted(items: seq<Row>, cmp: (string, string) -> int)
    requires SortedBy(items, cmp)
    ensures SortItems(items, cmp) == items
  {
    if |items| > 0 {
      var rest := items[1..];
      assert SortedBy(rest, cmp) by {
        forall i | 0 <= i < |rest| - 1 ensures cmp(VariantOf(rest[i]), VariantOf(rest[i + 1])) <= 0 {
          assert rest[i] == items[i + 1] && rest[i + 1] == items[i + 2];
        }
      }
      SortKeepsSorted(rest, cmp);
      assert items == [items[0]] + rest;
    }
  }

  /** Sorting twice is sorting once. */
  lemma SortIdempotent(items: seq<Row>, cmp: (string, string) -> int)
    requires Antisymmetric(cmp)
    ensures SortItems(SortItems(items, cmp), cmp) == SortItems(items, cmp)
  {
    SortItemsSorted(items, cmp);
    SortKeepsSorted(SortItems(items, cmp), cmp);
  }

  /** The items whose variant is exactly `v`, in their order. */
  function WithVariant(items: seq<Row>, v: string): (r: seq<Row>)
    ensures forall x :: x in r <==> x in items && VariantOf(x) == v
  {
    if |items| == 0 then []
    else (if VariantOf(items[0]) == v then [items[0]] else []) + WithVariant(items[1..], v)
  }

  /** Filtering an item in front of a sequence. */
  lemma WithVariantCons(y: Row, rest: seq<Row>, v: string)
    ensures WithVariant([y] + rest, v) == (if VariantOf(y) == v then [y] else []) + WithVariant(rest, v)
  {
    assert ([y] + rest)[1..] == rest;
  }

  /** Inserting an item with variant `v` puts it in front of the items that share its variant,
      and leaves the other variants' items in their order. */
  lemma {:induction false} InsertWithVariant(x: Row, items: seq<Row>, cmp: (string, string) -> int, v: string)
    requires cmp(v, v) <= 0
    ensures WithVariant(Insert(x, items, cmp), v)
         == if VariantOf(x) == v then [x] + WithVariant(items, v) else WithVariant(items, v)
  {
    if |items| == 0 || cmp(VariantOf(x), VariantOf(items[0])) <= 0 {
      assert Insert(x, items, cmp) == [x] + items;
      WithVariantCons(x, items, v);
    } else {
      var y, tail := items[0], items[1..];
      assert items == [y] + tail;
      assert VariantOf(x) == v ==> VariantOf(y) != v;
      InsertWithVariant(x, tail, cmp, v);
      assert Insert(x, items, cmp) == [y] + Insert(x, tail, cmp);
      WithVariantCons(y, Insert(x, tail, cmp), v);
      WithVariantCons(y, tail, v);
    }
  }

  /** The sort is stable: with a comparator under which every variant equals itself, the items
      sharing a variant come out in the order they went in. */
  lemma {:induction false} SortStable(items: seq<Row>, cmp: (string, string) -> int, v: string)
    requires cmp(v, v) <= 0
    ensures WithVariant(SortItems(items, cmp), v) == WithVariant(items, v)
  {
    if |items| > 0 {
      SortStable(items[1..], cmp, v);
      InsertWithVariant(items[0], SortItems(items[1..], cmp), cmp, v);
    }
  }
}
