/**
 * The info-panel rendering of a component's property document: the name,
 * falling back to "<null>", and an HTML table with one title row per category
 * that has a shown property and one row per shown property. Formatting a
 * "double" entry calls `toFixed`, which throws when the entry is not a number;
 * the whole table is then lost, which the model writes as `None`.
 */
module PropsTable {
  import opened Wrappers

  /** A JSON value as it appears in a property document. */
  datatype Value = Bool(b: bool) | Number(x: real) | Text(s: string) | Null | Undefined

  /**
   * The host's number formatting, which the model does not reimplement:
   * `fixed3(x)` is `x.toFixed(3)` and `text(x)` is `x + ''`.
   */
  datatype NumberFormat = NumberFormat(fixed3: real -> string, text: real -> string)

  /** The parallel arrays describing the properties of one category. */
  datatype Props = Props(names: seq<string>, types: seq<string>, values: seq<Value>, units: seq<string>, flags: seq<bool>)
  datatype Category = Category(name: string, count: int, props: Props)
  /** A component's property document; `name` is None when the key is absent. */
  datatype PropsNode = PropsNode(name: Option<string>, categories: seq<Category>)

  const TableOpen: string := "<table class=\"cesium-infoBox-defaultTable\"><tbody>"
  const TableClose: string := "</tbody></table>"

  /** JavaScript truthiness of a value. */
  predicate Truthy(v: Value) {
    match v
    case Bool(b) => b
    case Number(x) => x != 0.0
    case Text(s) => s != ""
    case Null => false
    case Undefined => false
  }

  /** `value + ''` */
  function ToText(v: Value, fmt: NumberFormat): string {
    match v
    case Bool(b) => if b then "true" else "false"
    case Number(x) => fmt.text(x)
    case Text(s) => s
    case Null => "null"
    case Undefined => "undefined"
  }

  /** `node.name || "<null>"` */
  function DisplayName(name: Option<string>): (r: string)
    ensures name.Some? && name.value != "" ==> r == name.value
    ensures name.None? || name.value == "" ==> r == "<null>"
  {
    match name
    case Some(s) => if s != "" then s else "<null>"
    case None => "<null>"
  }

  // Reads past the end of an array give `undefined`: an absent name prints as
  // "undefined", an absent type takes the default branch, an absent unit or
  // flag is falsy. The empty string stands for an absent type or unit, since
  // it behaves the same way there.
  function NameAt(p: Props, i: nat): string { if i < |p.names| then p.names[i] else "undefined" }
  function TypeAt(p: Props, i: nat): string { if i < |p.types| then p.types[i] else "" }
  function ValueAt(p: Props, i: nat): Value { if i < |p.values| then p.values[i] else Undefined }
  function UnitAt(p: Props, i: nat): string { if i < |p.units| then p.units[i] else "" }
  predicate Flagged(p: Props, i: nat) { i < |p.flags| && p.flags[i] }

  predicate IsDouble(kind: string) { kind == "double" }
  predicate IsBoolean(kind: string) { kind == "boolean" }

  /** `toFixed` exists only on numbers: a "double" entry must hold one. */
  predicate CellRenderable(p: Props, i: nat) {
    IsDouble(TypeAt(p, i)) ==> ValueAt(p, i).Number?
  }

  /**
   * The value cell: booleans as Yes/No, doubles to three decimals with their
   * unit, anything else as text; None where `toFixed` would throw.
   */
  function FormatValue(kind: string, v: Value, unit: string, fmt: NumberFormat): (r: Option<string>)
    ensures r.None? <==> IsDouble(kind) && !v.Number?
    ensures IsBoolean(kind) ==> r == Some(if Truthy(v) then "Yes" else "No")
    ensures IsDouble(kind) && v.Number? && unit != "" ==> r == Some(fmt.fixed3(v.x) + " " + unit)
    ensures IsDouble(kind) && v.Number? && unit == "" ==> r == Some(fmt.fixed3(v.x))
    ensures !IsBoolean(kind) && !IsDouble(kind) ==> r == Some(ToText(v, fmt))
  {
    if IsBoolean(kind) then Some(if Truthy(v) then "Yes" else "No")
    else if IsDouble(kind) then
      (if !v.Number? then None
       else if unit != "" then Some(fmt.fixed3(v.x) + " " + unit)
       else Some(fmt.fixed3(v.x)))
    else Some(ToText(v, fmt))
  }

  function TitleHtml(title: string): string {
    "<tr><th colspan=2>" + title + "</th></tr>"
  }

  function PropHtml(name: string, value: string): string {
    "<tr><th>" + name + "</th><td>" + value + "</td></tr>"
  }

  /** How many indices the loop `for (i = 0; i < count; i++)` visits. */
  function Bound(c: Category): nat { if c.count < 0 then 0 else c.count }

  /** Whether one of the first `n` properties is not flagged (the loop's `haveTitle`). */
  function HasUnflagged(p: Props, n: nat): bool {
    n > 0 && (HasUnflagged(p, n - 1) || !Flagged(p, n - 1))
  }

  /** Both parts written out, or None when either throws. */
  function Both(x: Option<seq<string>>, y: Option<seq<string>>): Option<seq<string>> {
    if x.Some? && y.Some? then Some(x.value + y.value) else None
  }

  /**
   * What iteration `i` of the inner loop pushes: nothing for a flagged
   * property, else the title when no earlier property was shown, then the
   * property's row; None where formatting its value throws.
   */
  function CellsAt(c: Category, i: nat, fmt: NumberFormat): Option<seq<string>> {
    if Flagged(c.props, i) then Some([])
    else
      var value := FormatValue(TypeAt(c.props, i), ValueAt(c.props, i), UnitAt(c.props, i), fmt);
      if value.None? then None
      else Some((if HasUnflagged(c.props, i) then [] else [TitleHtml(c.name)]) + [PropHtml(NameAt(c.props, i), value.value)])
  }

  /** What the first `n` iterations of the inner loop push. */
  function CategoryCells(c: Category, n: nat, fmt: NumberFormat): Option<seq<string>> {
    if n == 0 then Some([]) else Both(CategoryCells(c, n - 1, fmt), CellsAt(c, n - 1, fmt))
  }

  /** What the outer loop pushes for a list of categories. */
  function TableCells(categories: seq<Category>, fmt: NumberFormat): Option<seq<string>> {
    if categories == [] then Some([])
    else
      var n := |categories| - 1;
      Both(TableCells(categories[..n], fmt), CategoryCells(categories[n], Bound(categories[n]), fmt))
  }

  /** `strings.join('')` */
  function Join(parts: seq<string>): string {
    if parts == [] then "" else Join(parts[..|parts| - 1]) + parts[|parts| - 1]
  }

  /**
   * The description the panel shows: the opening, the strings of every
   * category, the closing, joined; None when formatting throws.
   */
  function Table(node: PropsNode, fmt: NumberFormat): (html: Option<string>)
    ensures html.Some? ==> |html.value| >= |TableOpen| + |TableClose|
    ensures html.Some? ==> html.value[..|TableOpen|] == TableOpen
    ensures html.Some? ==> html.value[|html.value| - |TableClose|..] == TableClose
  {
    var cells := TableCells(node.categories, fmt);
    if cells.Some? then Some(TableOpen + Join(cells.value) + TableClose) else None
  }

  /** Every shown property among the first `n` of `c` can be formatted. */
  predicate RenderableBelow(c: Category, n: nat) {
    forall i: nat :: i < n && !Flagged(c.props, i) ==> CellRenderable(c.props, i)
  }

  predicate Renderable(node: PropsNode) {
    forall c :: c in node.categories ==> RenderableBelow(c, Bound(c))
  }

  lemma {:induction false} CategoryCellsDefined(c: Category, n: nat, fmt: NumberFormat)
    ensures CategoryCells(c, n, fmt).Some? <==> RenderableBelow(c, n)
  {
    if n > 0 {
      CategoryCellsDefined(c, n - 1, fmt);
      if !RenderableBelow(c, n - 1) {
        var i: nat :| i < n - 1 && !Flagged(c.props, i) && !CellRenderable(c.props, i);
        assert !RenderableBelow(c, n);
      }
    }
  }

  lemma {:induction false} TableCellsDefined(categories: seq<Category>, fmt: NumberFormat)
    ensures TableCells(categories, fmt).Some? <==> forall c :: c in categories ==> RenderableBelow(c, Bound(c))
  {
    if categories != [] {
      var n := |categories| - 1;
      TableCellsDefined(categories[..n], fmt);
      CategoryCellsDefined(categories[n], Bound(categories[n]), fmt);
      assert categories == categories[..n] + [categories[n]];
    }
  }

  /** The table is produced exactly when every shown "double" entry is a number. */
  lemma TableDefinedIffRenderable(node: PropsNode, fmt: NumberFormat)
    ensures Table(node, fmt).Some? <==> Renderable(node)
  {
    TableCellsDefined(node.categories, fmt);
  }

  lemma {:induction false} JoinAppend(a: seq<string>, b: seq<string>)
    ensures Join(a + b) == Join(a) + Join(b)
    decreases |b|
  {
    if b == [] {
      assert a + b == a;
    } else {
      var n := |b| - 1;
      var init, last := b[..n], b[n];
      assert (a + b)[..|a + b| - 1] == a + init;
      assert (a + b)[|a + b| - 1] == last;
      assert Join(a + b) == Join(a + init) + last;
      JoinAppend(a, init);
      assert Join(b) == Join(init) + last;
      assert Join(a) + Join(init) + last == Join(a) + (Join(init) + last);
    }
  }

  lemma JoinSingle(part: string)
    ensures Join([part]) == part
  {
    assert [part][..0] == [];
    assert "" + part == part;
  }

  // The same table described by its rows: a category contributes its title
  // once, in front of the first shown property, and then one row per shown
  // property in order.

  /** A row of the table: a category title or property `index` of `props`. */
  datatype Row = TitleRow(title: string) | PropRow(props: Props, index: nat)

  function RowHtml(row: Row, fmt: NumberFormat): (r: Option<string>)
    ensures r.None? <==> row.PropRow? && !CellRenderable(row.props, row.index)
  {
    match row
    case TitleRow(title) => Some(TitleHtml(title))
    case PropRow(p, i) =>
      var cell := FormatValue(TypeAt(p, i), ValueAt(p, i), UnitAt(p, i), fmt);
      if cell.None? then None else Some(PropHtml(NameAt(p, i), cell.value))
  }

  /** The HTML strings of a list of rows, or None when one of them cannot be formatted. */
  function Html(rows: seq<Row>, fmt: NumberFormat): (r: Option<seq<string>>)
    ensures r.Some? ==> |r.value| == |rows|
  {
    if rows == [] then Some([])
    else
      var init, last := Html(rows[..|rows| - 1], fmt), RowHtml(rows[|rows| - 1], fmt);
      if init.Some? && last.Some? then Some(init.value + [last.value]) else None
  }

  lemma {:induction false} HtmlAppend(a: seq<Row>, b: seq<Row>, fmt: NumberFormat)
    ensures Html(a + b, fmt) == Both(Html(a, fmt), Html(b, fmt))
    decreases |b|
  {
    if b == [] {
      assert a + b == a;
      if Html(a, fmt).Some? {
        assert Html(a, fmt).value + [] == Html(a, fmt).value;
      }
    } else {
      var n := |b| - 1;
      assert (a + b)[..|a + b| - 1] == a + b[..n];
      assert (a + b)[|a + b| - 1] == b[n];
      HtmlAppend(a, b[..n], fmt);
      var x, y, last := Html(a, fmt), Html(b[..n], fmt), RowHtml(b[n], fmt);
      if x.Some? && y.Some? && last.Some? {
        assert x.value + y.value + [last.value] == x.value + (y.value + [last.value]);
      }
    }
  }

  /** A list of rows can be written out exactly when each of its rows can. */
  lemma {:induction false} HtmlDefined(rows: seq<Row>, fmt: NumberFormat)
    ensures Html(rows, fmt).Some? <==> forall k :: 0 <= k < |rows| ==> RowHtml(rows[k], fmt).Some?
  {
    if rows != [] {
      var n := |rows| - 1;
      HtmlDefined(rows[..n], fmt);
      assert forall k :: 0 <= k < n ==> rows[..n][k] == rows[k];
    }
  }

  /** The rows iteration `i` of the inner loop pushes. */
  function RowsAt(c: Category, i: nat): seq<Row> {
    if Flagged(c.props, i) then []
    else (if HasUnflagged(c.props, i) then [] else [TitleRow(c.name)]) + [PropRow(c.props, i)]
  }

  function CategoryRows(c: Category, n: nat): seq<Row> {
    if n == 0 then [] else CategoryRows(c, n - 1) + RowsAt(c, n - 1)
  }

  /** The rows pushed for a list of categories, in order. */
  function AllRows(categories: seq<Category>): seq<Row> {
    if categories == [] then []
    else
      var n := |categories| - 1;
      AllRows(categories[..n]) + CategoryRows(categories[n], Bound(categories[n]))
  }

  lemma RowsAtHtml(c: Category, i: nat, fmt: NumberFormat)
    ensures Html(RowsAt(c, i), fmt) == CellsAt(c, i, fmt)
  {
    var row := PropRow(c.props, i);
    if !Flagged(c.props, i) {
      assert [row][..0] == [];
      var cell := RowHtml(row, fmt);
      if cell.Some? {
        assert [] + [cell.value] == [cell.value];
      }
      assert Html([row], fmt) == if cell.Some? then Some([cell.value]) else None;
      if !HasUnflagged(c.props, i) {
        var title := TitleRow(c.name);
        assert [title][..0] == [];
        assert [] + [TitleHtml(c.name)] == [TitleHtml(c.name)];
        assert Html([title], fmt) == Some([TitleHtml(c.name)]);
        assert RowsAt(c, i) == [title] + [row];
        HtmlAppend([title], [row], fmt);
      } else {
        assert RowsAt(c, i) == [row];
      }
    }
  }

  lemma {:induction false} CategoryCellsAreRows(c: Category, n: nat, fmt: NumberFormat)
    ensures CategoryCells(c, n, fmt) == Html(CategoryRows(c, n), fmt)
  {
    if n > 0 {
      var before, added := CategoryRows(c, n - 1), RowsAt(c, n - 1);
      CategoryCellsAreRows(c, n - 1, fmt);
      RowsAtHtml(c, n - 1, fmt);
      HtmlAppend(before, added, fmt);
      assert CategoryRows(c, n) == before + added;
      assert CategoryCells(c, n, fmt) == Both(Html(before, fmt), Html(added, fmt));
    }
  }

  /** The table's strings are the HTML of the rows of all categories. */
  lemma {:induction false} TableCellsAreRows(categories: seq<Category>, fmt: NumberFormat)
    ensures TableCells(categories, fmt) == Html(AllRows(categories), fmt)
  {
    if categories != [] {
      var n := |categories| - 1;
      TableCellsAreRows(categories[..n], fmt);
      CategoryCellsAreRows(categories[n], Bound(categories[n]), fmt);
      HtmlAppend(AllRows(categories[..n]), CategoryRows(categories[n], Bound(categories[n])), fmt);
    }
  }

  /** The indices below `n` whose property is not flagged, in increasing order. */
  function UnflaggedBelow(c: Category, n: nat): seq<nat> {
    if n == 0 then []
    else UnflaggedBelow(c, n - 1) + (if Flagged(c.props, n - 1) then [] else [n - 1])
  }

  /** One row per listed index. */
  function PropRows(p: Props, indices: seq<nat>): seq<Row> {
    if indices == [] then []
    else PropRows(p, indices[..|indices| - 1]) + [PropRow(p, indices[|indices| - 1])]
  }

  lemma {:induction false} HasUnflaggedIffListed(c: Category, n: nat)
    ensures HasUnflagged(c.props, n) <==> UnflaggedBelow(c, n) != []
  {
    if n > 0 { HasUnflaggedIffListed(c, n - 1); }
  }

  /**
   * What a category contributes, stated without the loop: nothing when every
   * considered property is flagged, otherwise its title row once, followed by
   * the rows of the unflagged properties in order.
   */
  lemma {:induction false} CategoryRowsShape(c: Category, n: nat)
    ensures CategoryRows(c, n) ==
      if UnflaggedBelow(c, n) == [] then []
      else [TitleRow(c.name)] + PropRows(c.props, UnflaggedBelow(c, n))
  {
    if n == 0 {
      assert UnflaggedBelow(c, n) == [];
    } else {
      CategoryRowsShape(c, n - 1);
      if Flagged(c.props, n - 1) {
        var u, v := UnflaggedBelow(c, n - 1), CategoryRows(c, n - 1);
        assert UnflaggedBelow(c, n) == u + [] == u;
        assert RowsAt(c, n - 1) == [];
        assert CategoryRows(c, n) == v + [] == v;
      } else {
        HasUnflaggedIffListed(c, n - 1);
        UnflaggedStep(c, n);
      }
    }
  }

  /** The step of `CategoryRowsShape` past an unflagged property. */
  lemma UnflaggedStep(c: Category, n: nat)
    requires n > 0 && !Flagged(c.props, n - 1)
    requires HasUnflagged(c.props, n - 1) <==> UnflaggedBelow(c, n - 1) != []
    requires CategoryRows(c, n - 1) ==
      if UnflaggedBelow(c, n - 1) == [] then []
      else [TitleRow(c.name)] + PropRows(c.props, UnflaggedBelow(c, n - 1))
    ensures CategoryRows(c, n) == [TitleRow(c.name)] + PropRows(c.props, UnflaggedBelow(c, n))
  {
    var u, v := UnflaggedBelow(c, n), UnflaggedBelow(c, n - 1);
    var row := PropRow(c.props, n - 1);
    assert u == v + [n - 1];
    assert u[..|u| - 1] == v;
    assert PropRows(c.props, u) == PropRows(c.props, v) + [row];
  }

  /**
   * The inner loop of the table builder for one category: skip flagged
   * properties, push the title before the first shown one, then each row.
   * Returns None where formatting a value throws.
   */
  method RenderCategory(category: Category, fmt: NumberFormat) returns (cells: Option<seq<string>>)
    ensures cells == CategoryCells(category, Bound(category), fmt)
  {
    var props := category.props;
    var propCount := category.count;
    var haveTitle := false;
    var strings: seq<string> := [];
    var i := 0;
    while i < propCount
      invariant 0 <= i <= Bound(category)
      invariant haveTitle == HasUnflagged(props, i)
      invariant CategoryCells(category, i, fmt) == Some(strings)
    {
      ghost var before := strings;
      if !Flagged(props, i) {
        if !haveTitle {
          haveTitle := true;
          strings := strings + [TitleHtml(category.name)];
        }
        var value := FormatValue(TypeAt(props, i), ValueAt(props, i), UnitAt(props, i), fmt);
        if value.None? {
          CategoryCellsDefined(category, Bound(category), fmt);
          assert !RenderableBelow(category, Bound(category));
          return None;
        }
        strings := strings + [PropHtml(NameAt(props, i), value.value)];
        assert strings == before + CellsAt(category, i, fmt).value;
      } else {
        assert strings == before + [];
      }
      i := i + 1;
    }
    cells := Some(strings);
  }

  /**
   * The table as the source builds it: push the opening, then each
   * category's strings, then the closing, and join. Returns None where
   * formatting a value throws.
   */
  method RenderTable(node: PropsNode, fmt: NumberFormat) returns (html: Option<string>)
    ensures html == Table(node, fmt)
  {
    var strings: seq<string> := [TableOpen];
    ghost var out: seq<string> := [];
    var k := 0;
    while k < |node.categories|
      invariant 0 <= k <= |node.categories|
      invariant TableCells(node.categories[..k], fmt) == Some(out)
      invariant strings == [TableOpen] + out
    {
      var cells := RenderCategory(node.categories[k], fmt);
      if cells.None? {
        FailedCategory(node, k, fmt);
        return None;
      }
      TableCellsStep(node.categories, k, fmt, out, cells.value);
      PushKeepsOpening(out, cells.value);
      strings, out := strings + cells.value, out + cells.value;
      k := k + 1;
    }
    assert node.categories[..k] == node.categories;
    strings := strings + [TableClose];
    JoinFrame(out);
    html := Some(Join(strings));
  }

  /** One more category appends what its loop pushes. */
  lemma TableCellsStep(categories: seq<Category>, k: nat, fmt: NumberFormat, out: seq<string>, cells: seq<string>)
    requires k < |categories|
    requires TableCells(categories[..k], fmt) == Some(out)
    requires CategoryCells(categories[k], Bound(categories[k]), fmt) == Some(cells)
    ensures TableCells(categories[..k + 1], fmt) == Some(out + cells)
  {
    assert categories[..k + 1][..k] == categories[..k];
  }

  /** Pushing onto the strings after the opening keeps the opening first. */
  lemma PushKeepsOpening(out: seq<string>, cells: seq<string>)
    ensures [TableOpen] + out + cells == [TableOpen] + (out + cells)
  {
  }

  /** One category that throws loses the whole table. */
  lemma FailedCategory(node: PropsNode, k: nat, fmt: NumberFormat)
    requires k < |node.categories|
    requires CategoryCells(node.categories[k], Bound(node.categories[k]), fmt).None?
    ensures Table(node, fmt).None?
  {
    TableCellsDefined(node.categories, fmt);
    CategoryCellsDefined(node.categories[k], Bound(node.categories[k]), fmt);
    assert node.categories[k] in node.categories;
  }

  lemma JoinFrame(out: seq<string>)
    ensures Join([TableOpen] + out + [TableClose]) == TableOpen + Join(out) + TableClose
  {
    JoinAppend([TableOpen], out);
    JoinAppend([TableOpen] + out, [TableClose]);
    JoinSingle(TableOpen);
    JoinSingle(TableClose);
  }
}
