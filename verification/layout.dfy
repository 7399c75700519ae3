/** The classic row layout shared by the browser and Streamlit builders: seven product
    fields, five slots of four fields (code, price, finish, finish image) and five closing
    fields under the classic column names, and the asset paths derived from a code. */
module Layout {
  import opened Base
  import opened Schema

  /** The product image of a code, or "" for an empty code. */
  function ImagePath(sku: string): (p: string)
    ensures sku == "" <==> p == ""
  {
    if sku == "" then "" else "singoli-componenti/images/" + sku + ".png"
  }

  /** The data sheet of a code, or "" for an empty code. */
  function SheetPath(sku: string): (p: string)
    ensures sku == "" <==> p == ""
  {
    if sku == "" then "" else "singoli-componenti/pdf/" + sku + ".pdf"
  }

  /** The four values at slot `i` of a flat value list. */
  function SlotIn(vals: seq<string>, i: nat): seq<string>
    requires 1 <= i && 4 * i <= |vals|
  {
    vals[4 * (i - 1) .. 4 * i]
  }

  /** The values of slots 1..n, slot after slot. */
  function SlotValues(slot: nat -> seq<string>, n: nat): (r: seq<string>)
    requires forall i :: 1 <= i <= n ==> |slot(i)| == 4
    ensures |r| == 4 * n
    ensures forall i :: 1 <= i <= n ==> SlotIn(r, i) == slot(i)
  {
    if n == 0 then []
    else
      var prev := SlotValues(slot, n - 1);
      var r := prev + slot(n);
      assert forall i :: 1 <= i < n ==> SlotIn(r, i) == SlotIn(prev, i);
      r
  }

  /** The slot values depend only on what the slot function gives for 1..n. */
  lemma {:induction false} SlotValuesAgree(f: nat -> seq<string>, g: nat -> seq<string>, n: nat)
    requires forall i :: 1 <= i <= n ==> |f(i)| == 4 && f(i) == g(i)
    ensures SlotValues(f, n) == SlotValues(g, n)
  {
    if n > 0 {
      SlotValuesAgree(f, g, n - 1);
    }
  }

  /** The four values of classic slot `i` (1..5) of a built row. */
  function ClassicSlot(r: Record, i: nat): seq<string>
    requires 1 <= i <= 5 && |r| == 32
  {
    var b := 7 + 4 * (i - 1);
    [r[b].1, r[b + 1].1, r[b + 2].1, r[b + 3].1]
  }

  /** The classic row with the given values: seven product fields, twenty slot fields and
      five closing fields, under the classic column names. */
  function ClassicRecord(head: seq<string>, slots: seq<string>, tail: seq<string>): (r: Record)
    requires |head| == 7 && |slots| == 20 && |tail| == 5
    ensures Keys(r) == ClassicColumns()
    ensures forall k :: 0 <= k < 7 ==> r[k].1 == head[k]
    ensures forall i :: 1 <= i <= 5 ==> ClassicSlot(r, i) == SlotIn(slots, i)
    ensures forall k :: 0 <= k < 5 ==> r[27 + k].1 == tail[k]
  {
    var vals := head + slots + tail;
    var r := Zip(ClassicColumns(), vals);
    assert forall i :: 1 <= i <= 5 ==> ClassicSlot(r, i) == SlotIn(slots, i) by {
      forall i | 1 <= i <= 5 ensures ClassicSlot(r, i) == SlotIn(slots, i) {
        var b := 4 * (i - 1);
        assert vals[7 + b] == slots[b] && vals[8 + b] == slots[b + 1];
        assert vals[9 + b] == slots[b + 2] && vals[10 + b] == slots[b + 3];
      }
    }
    r
  }

  /** The classic row whose slot `i` holds `slot(i)`. */
  function SlottedRecord(head: seq<string>, slot: nat -> seq<string>, tail: seq<string>): (r: Record)
    requires |head| == 7 && |tail| == 5
    requires forall i :: 1 <= i <= 5 ==> |slot(i)| == 4
    ensures Keys(r) == ClassicColumns()
    ensures forall k :: 0 <= k < 7 ==> r[k].1 == head[k]
    ensures forall i :: 1 <= i <= 5 ==> ClassicSlot(r, i) == slot(i)
    ensures forall k :: 0 <= k < 5 ==> r[27 + k].1 == tail[k]
  {
    ClassicRecord(head, SlotValues(slot, 5), tail)
  }

  /** In a row under the classic columns, a lookup of "Codice Articolo" finds the seventh
      field. */
  lemma ClassicCodeLookup(r: Record)
    requires Keys(r) == ClassicColumns()
    ensures GetOr(r, "Codice Articolo") == r[6].1
  {
    ClassicCodePosition();
    assert forall j :: 0 <= j < 6 ==> r[j].0 == ClassicColumns()[j];
    GetFirstOccurrence(r, 6);
  }
}
