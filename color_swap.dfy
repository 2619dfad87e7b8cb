/**
 * Colour swap with restore. Before painting a list of items, the accessor
 * writes down one record per item holding the colour it had; clearing writes
 * the records back in order. This module states, on values, what the records
 * hold and what colour each item ends with.
 */
module ColorSwap {

  /** An RGBA colour, components in [0, 1] by convention. */
  datatype Color = Rgba(red: real, green: real, blue: real, alpha: real)

  /** The default highlight colour (the host's YELLOW). */
  const Yellow: Color := Rgba(1.0, 1.0, 0.0, 1.0)
  /** The default selection colour (the host's LIME). */
  const Lime: Color := Rgba(0.0, 1.0, 0.0, 1.0)

  /** `{feature, originalColor}`: one item and the colour it had before painting. */
  datatype Record<T> = Record(item: T, originalColor: Color)

  /** The items the records name. */
  function Items<T>(records: seq<Record<T>>): set<T> {
    set r | r in records :: r.item
  }

  predicate Distinct<T(==)>(s: seq<T>) {
    forall i, j :: 0 <= i < j < |s| ==> s[i] != s[j]
  }

  /**
   * The records the painting loop writes for `items`, given the colours the
   * items had when it started: record `i` holds the colour item `i` carries at
   * that step, which is `paint` when the same item came earlier in the list.
   */
  function Captured<T(==)>(items: seq<T>, paint: Color, before: map<T, Color>): (r: seq<Record<T>>)
    requires forall x :: x in items ==> x in before
    ensures |r| == |items|
  {
    if items == [] then []
    else
      var n := |items| - 1;
      Captured(items[..n], paint, before) + [Record(items[n], if items[n] in items[..n] then paint else before[items[n]])]
  }

  /** One more item appends one record: the paint colour if the item came before, else its colour. */
  lemma CapturedSnoc<T>(items: seq<T>, x: T, paint: Color, before: map<T, Color>)
    requires forall y :: y in items ==> y in before
    requires x in before
    ensures Captured(items + [x], paint, before) ==
      Captured(items, paint, before) + [Record(x, if x in items then paint else before[x])]
  {
    assert (items + [x])[..|items|] == items;
  }

  /**
   * Record `i` names item `i` and holds the colour that item carries when the
   * loop reaches it: `paint` when the same item came earlier in the list,
   * its colour from `before` otherwise.
   */
  lemma {:induction false} CapturedAt<T>(items: seq<T>, paint: Color, before: map<T, Color>)
    requires forall x :: x in items ==> x in before
    ensures forall i :: 0 <= i < |items| ==>
      Captured(items, paint, before)[i] == Record(items[i], if items[i] in items[..i] then paint else before[items[i]])
  {
    if items != [] {
      var n := |items| - 1;
      CapturedAt(items[..n], paint, before);
      forall i | 0 <= i < n
        ensures Captured(items, paint, before)[i] == Record(items[i], if items[i] in items[..i] then paint else before[items[i]])
      {
        assert items[..n][i] == items[i] && items[..n][..i] == items[..i];
      }
    }
  }

  /** The records name exactly the items of the list they were captured from. */
  lemma CapturedItems<T>(items: seq<T>, paint: Color, before: map<T, Color>)
    requires forall x :: x in items ==> x in before
    ensures forall r :: r in Captured(items, paint, before) ==> r.item in items
    ensures forall x :: x in items ==> x in Items(Captured(items, paint, before))
  {
    var records := Captured(items, paint, before);
    CapturedAt(items, paint, before);
    forall r | r in records ensures r.item in items {
      var i :| 0 <= i < |records| && records[i] == r;
      assert records[i].item == items[i];
    }
    forall x | x in items ensures x in Items(records) {
      var i :| 0 <= i < |items| && items[i] == x;
      assert records[i] in records;
    }
  }

  /**
   * The colour `x` carries once `records` have been written back in order,
   * when it carried `current` before: the colour of the last record naming
   * `x`, or `current` when no record names it.
   */
  function RestoredColor<T(==)>(records: seq<Record<T>>, x: T, current: Color): (c: Color)
    ensures c == current || Record(x, c) in records
  {
    if records == [] then current
    else if records[|records| - 1].item == x then records[|records| - 1].originalColor
    else RestoredColor(records[..|records| - 1], x, current)
  }

  /** Writing back records that do not name `x` leaves its colour alone. */
  lemma {:induction false} RestoredColorUnnamed<T>(records: seq<Record<T>>, x: T, current: Color)
    requires x !in Items(records)
    ensures RestoredColor(records, x, current) == current
  {
    if records != [] {
      var n := |records| - 1;
      assert records[n] in records;
      assert Items(records[..n]) <= Items(records) by {
        forall r | r in records[..n] ensures r in records { }
      }
      RestoredColorUnnamed(records[..n], x, current);
    }
  }

  /** Writing back `a` and then `b` is writing back `a + b`. */
  lemma {:induction false} RestoredColorAppend<T>(a: seq<Record<T>>, b: seq<Record<T>>, x: T, current: Color)
    ensures RestoredColor(a + b, x, current) == RestoredColor(b, x, RestoredColor(a, x, current))
  {
    if b == [] {
      assert a + b == a;
    } else {
      var n := |b| - 1;
      assert (a + b)[..|a + b| - 1] == a + b[..n];
      assert (a + b)[|a + b| - 1] == b[n];
      RestoredColorAppend(a, b[..n], x, current);
    }
  }

  /**
   * Round trip: painting a list of distinct items and then writing the
   * records back returns every item to the colour it had before, whatever it
   * carried in between.
   */
  lemma {:induction false} RestoreUndoesPaint<T>(items: seq<T>, paint: Color, before: map<T, Color>, x: T, current: Color)
    requires Distinct(items)
    requires forall y :: y in items ==> y in before
    requires x in items
    ensures RestoredColor(Captured(items, paint, before), x, current) == before[x]
  {
    var n := |items| - 1;
    var records := Captured(items, paint, before);
    assert records[..n] == Captured(items[..n], paint, before);
    if items[n] == x {
      assert x !in items[..n];
    } else {
      assert x in items[..n] by {
        var i :| 0 <= i < |items| && items[i] == x;
        assert items[..n][i] == x;
      }
      RestoreUndoesPaint(items[..n], paint, before, x, current);
    }
  }

  /** The round trip for every item of a list without repeats, whatever colour it has when written back. */
  lemma RestoreUndoesPaintAll<T>(items: seq<T>, paint: Color, before: map<T, Color>)
    requires Distinct(items)
    requires forall y :: y in items ==> y in before
    ensures forall x, current :: x in items ==> RestoredColor(Captured(items, paint, before), x, current) == before[x]
  {
    forall x, current | x in items
      ensures RestoredColor(Captured(items, paint, before), x, current) == before[x]
    {
      RestoreUndoesPaint(items, paint, before, x, current);
    }
  }

  /**
   * The hazard distinctness avoids: an item listed twice is recorded the
   * second time with the paint colour, so writing the records back leaves it
   * painted.
   */
  lemma {:induction false} RepeatedItemStaysPainted<T>(items: seq<T>, paint: Color, before: map<T, Color>, i: nat, j: nat, current: Color)
    requires forall y :: y in items ==> y in before
    requires i < j < |items| && items[i] == items[j]
    ensures RestoredColor(Captured(items, paint, before), items[j], current) == paint
  {
    var n := |items| - 1;
    var records := Captured(items, paint, before);
    assert records[..n] == Captured(items[..n], paint, before);
    if j == n {
      assert items[..n][i] == items[j];
    } else {
      assert items[..n][i] == items[i] && items[..n][j] == items[j];
      if items[n] != items[j] {
        RepeatedItemStaysPainted(items[..n], paint, before, i, j, current);
      } else {
        assert items[..n][j] == items[n];
      }
    }
  }
}
