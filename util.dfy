/**
 The helpers of lib/util.js: the `hsl(H, S%, L%)` colour text, the colour average of a
 list of cells, and the flattening of a row/column diff into the list of changed cells.
 */
module Util {
  import opened Js
  import opened Cells

  // ---------------------------------------------------------------- colour text

  /** An `[h, s, l]` colour array with integer components. */
  datatype Hsl = Hsl(h: SafeInt, s: SafeInt, l: SafeInt)

  /** hslArrayToString: the template `hsl(${h}, ${s}%, ${l}%)`. */
  function HslArrayToString(c: Hsl): string {
    "hsl(" + IntToString(c.h) + ", " + IntToString(c.s) + "%, " + IntToString(c.l) + "%)"
  }

  /** What hslStringToArray does to one comma-separated piece before converting it:
      the first "hsl(", then the first "%", then the first ")" are removed. */
  function StripHslSyntax(piece: string): string {
    RemoveFirst(RemoveFirst(RemoveFirst(piece, "hsl("), "%"), ")")
  }

  /** hslStringToArray: split on "," and convert every piece to a number. */
  function HslStringToArray(str: string): (r: seq<Number>)
    ensures |r| == Count(str, ',') + 1
  {
    var pieces := Split(str, ',');
    seq(|pieces|, k requires 0 <= k < |pieces| => ToNumber(StripHslSyntax(pieces[k])))
  }

  /** The formatted text has exactly three comma-separated pieces. */
  lemma HslPieces(c: Hsl)
    ensures Split(HslArrayToString(c), ',') ==
      ["hsl(" + IntToString(c.h), " " + IntToString(c.s) + "%", " " + IntToString(c.l) + "%)"]
  {
    var a := "hsl(" + IntToString(c.h);
    var b := " " + IntToString(c.s) + "%";
    var d := " " + IntToString(c.l) + "%)";
    assert HslArrayToString(c) == a + [','] + (b + [','] + d);
    assert ',' !in a && ',' !in b && ',' !in d by {
      assert forall k :: 4 <= k < |a| ==> a[k] == IntToString(c.h)[k - 4];
      assert forall k :: 1 <= k < |b| - 1 ==> b[k] == IntToString(c.s)[k - 1];
      assert forall k :: 1 <= k < |d| - 2 ==> d[k] == IntToString(c.l)[k - 1];
    }
    SplitFirst(a, ',', b + [','] + d);
    SplitFirst(b, ',', d);
    SplitWhole(d, ',');
  }

  /** The text of an integer holds only digits and a minus sign. */
  lemma IntTextChars(n: SafeInt)
    ensures '%' !in IntToString(n) && ')' !in IntToString(n) && 'h' !in IntToString(n)
  {
    var t := IntToString(n);
    assert forall k :: 0 <= k < |t| ==> IsDigit(t[k]) || t[k] == '-';
  }

  lemma HueRoundTrip(n: SafeInt)
    ensures ToNumber(StripHslSyntax("hsl(" + IntToString(n))) == Int(n)
  {
    var t := IntToString(n);
    IntTextChars(n);
    assert ("hsl(" + t)[..4] == "hsl(" && ("hsl(" + t)[4..] == t;
    RemoveFirstAbsent(t, "%");
    RemoveFirstAbsent(t, ")");
    IntToStringRoundTrip("", n);
    assert "" + t == t;
  }

  lemma SaturationRoundTrip(n: SafeInt)
    ensures ToNumber(StripHslSyntax(" " + IntToString(n) + "%")) == Int(n)
  {
    var t := IntToString(n);
    var p := " " + t + "%";
    IntTextChars(n);
    RemoveFirstAbsent(p, "hsl(");
    assert p == (" " + t) + "%" + "";
    RemoveFirstMatch(" " + t, "%", "");
    assert (" " + t) + "" == " " + t;
    RemoveFirstAbsent(" " + t, ")");
    IntToStringRoundTrip(" ", n);
  }

  lemma LightnessRoundTrip(n: SafeInt)
    ensures ToNumber(StripHslSyntax(" " + IntToString(n) + "%)")) == Int(n)
  {
    var t := IntToString(n);
    var p := " " + t + "%)";
    IntTextChars(n);
    RemoveFirstAbsent(p, "hsl(");
    assert p == (" " + t) + "%" + ")";
    RemoveFirstMatch(" " + t, "%", ")");
    assert (" " + t) + ")" == (" " + t) + ")" + "";
    RemoveFirstMatch(" " + t, ")", "");
    assert (" " + t) + "" == " " + t;
    IntToStringRoundTrip(" ", n);
  }

  /** hslStringToArray on a text of three pieces converts each of them. */
  lemma ThreePieces(str: string, a: string, b: string, d: string)
    requires Split(str, ',') == [a, b, d]
    ensures HslStringToArray(str) ==
      [ToNumber(StripHslSyntax(a)), ToNumber(StripHslSyntax(b)), ToNumber(StripHslSyntax(d))]
  {
    var r := HslStringToArray(str);
    assert |r| == 3;
    assert r[0] == ToNumber(StripHslSyntax(a));
    assert r[1] == ToNumber(StripHslSyntax(b));
    assert r[2] == ToNumber(StripHslSyntax(d));
  }

  /** Round trip: parsing a formatted integer colour gives back its three components. */
  lemma HslRoundTrip(c: Hsl)
    ensures HslStringToArray(HslArrayToString(c)) == [Int(c.h), Int(c.s), Int(c.l)]
  {
    HslPieces(c);
    ThreePieces(HslArrayToString(c), "hsl(" + IntToString(c.h), " " + IntToString(c.s) + "%",
      " " + IntToString(c.l) + "%)");
    HueRoundTrip(c.h);
    SaturationRoundTrip(c.s);
    LightnessRoundTrip(c.l);
  }

  /** The texts of the white colour's components. */
  lemma ComponentTexts()
    ensures IntToString(360) == "360" && IntToString(100) == "100"
  {
    assert NatToString(3) == "3";
    assert NatToString(36) == "36";
    assert NatToString(1) == "1";
    assert NatToString(10) == "10";
  }

  /** The dead-cell colour is the canonical text of (360, 100, 100), so HslRoundTrip reads it back. */
  lemma WhiteIsCanonical()
    ensures WHITE_COLOR_HSL == HslArrayToString(Hsl(360, 100, 100))
  {
    ComponentTexts();
    assert HslArrayToString(Hsl(360, 100, 100)) == "hsl(" + "360" + ", " + "100" + "%, " + "100" + "%)";
  }

  // ---------------------------------------------------------------- colour average

  /** The colour of every listed cell, parsed. */
  function ParsedColors(cells: seq<Cell>): seq<seq<Number>> {
    seq(|cells|, k requires 0 <= k < |cells| => HslStringToArray(cells[k].color))
  }

  /**
   colorAverage: the average, computed by the `averageColor` library (a parameter here), of
   the parsed colours of the cells, formatted back to text.
   */
  function ColorAverage(cells: seq<Cell>, averageColor: seq<seq<Number>> -> Hsl): string {
    HslArrayToString(averageColor(ParsedColors(cells)))
  }

  /** The average colour is canonical `hsl(H, S%, L%)` text that reads back as the library's
      three components. */
  lemma ColorAverageRoundTrip(cells: seq<Cell>, averageColor: seq<seq<Number>> -> Hsl)
    ensures var a := averageColor(ParsedColors(cells));
      HslStringToArray(ColorAverage(cells, averageColor)) == [Int(a.h), Int(a.s), Int(a.l)]
  {
    HslRoundTrip(averageColor(ParsedColors(cells)));
  }

  // ---------------------------------------------------------------- diff to cells

  /** A changed property of a diff entry: `[old, new]`. */
  datatype Change<T> = Change(before: T, after: T)

  /**
   The value under a column key of a diff row: anything whose `typeof` is not "object"
   (a string marker, a number) is `Primitive`; a changed cell holds its `state` and
   `color` changes.
   */
  datatype EntryDelta = Primitive | CellDelta(state: Change<int>, color: Change<string>)

  /**
   The value under a row key: a primitive (for-in over it reaches no object, as for the
   array marker "a") or an object whose keys are visited in the given order.
   */
  datatype RowDelta = PrimitiveRow | RowObject(entries: seq<(string, EntryDelta)>)

  /** A diff value: falsy (undefined when nothing changed) or an object of rows in key order. */
  datatype Diff = NoDiff | DiffObject(rows: seq<(string, RowDelta)>)

  /**
   A cell pushed by jsonDiffToCells: `{y: +k, x: +ik, state, color}`. It keeps the row key
   k and the column key ik as text; its coordinates are their numbers, `y()` and `x()`.
   */
  datatype DiffCell = DiffCell(rowKey: string, columnKey: string, state: int, color: string)
  {
    function y(): Number {
      ToNumber(rowKey)
    }

    function x(): Number {
      ToNumber(columnKey)
    }
  }

  /** The cell recorded for the delta under row key `rowKey` and column key `key`. */
  function CellOf(rowKey: string, key: string, d: EntryDelta): DiffCell
    requires d.CellDelta?
  {
    DiffCell(rowKey, key, d.state.after, d.color.after)
  }

  /** The cells recorded for the entries of one row, in key order. */
  function EntryCells(rowKey: string, entries: seq<(string, EntryDelta)>): seq<DiffCell> {
    if entries == [] then []
    else
      var (key, d) := entries[|entries| - 1];
      EntryCells(rowKey, entries[..|entries| - 1]) + (if d.CellDelta? then [CellOf(rowKey, key, d)] else [])
  }

  function RowCells(row: (string, RowDelta)): seq<DiffCell> {
    match row.1
    case PrimitiveRow => []
    case RowObject(entries) => EntryCells(row.0, entries)
  }

  /** The cells recorded for a list of rows, row after row. */
  function RowsCells(rows: seq<(string, RowDelta)>): seq<DiffCell> {
    if rows == [] then [] else RowsCells(rows[..|rows| - 1]) + RowCells(rows[|rows| - 1])
  }

  /** What jsonDiffToCells returns for a diff. */
  function DiffCells(diff: Diff): seq<DiffCell> {
    match diff
    case NoDiff => []
    case DiffObject(rows) => RowsCells(rows)
  }

  /** The inner for-in of jsonDiffToCells over the entries of row k: one cell pushed per entry
      that is an object. */
  method PushRowCells(k: string, entries: seq<(string, EntryDelta)>, cells: seq<DiffCell>)
    returns (pushed: seq<DiffCell>)
    ensures pushed == cells + EntryCells(k, entries)
  {
    pushed := cells;
    var j := 0;
    while j < |entries|
      invariant 0 <= j <= |entries|
      invariant pushed == cells + EntryCells(k, entries[..j])
    {
      var (ik, obj) := entries[j];
      if obj.CellDelta? {
        pushed := pushed + [DiffCell(k, ik, obj.state.after, obj.color.after)];
      }
      assert entries[..j + 1][..j] == entries[..j];
      j := j + 1;
    }
    assert entries[..j] == entries;
  }

  /** jsonDiffToCells: a falsy diff gives no cells; otherwise the outer for-in over the rows
      runs the inner one on every row that is an object. */
  method JsonDiffToCells(diff: Diff) returns (cells: seq<DiffCell>)
    ensures diff.NoDiff? ==> cells == []
    ensures cells == DiffCells(diff)
  {
    cells := [];
    if diff.NoDiff? {
      return;
    }
    var rows := diff.rows;
    var i := 0;
    while i < |rows|
      invariant 0 <= i <= |rows|
      invariant cells == RowsCells(rows[..i])
    {
      var (k, row) := rows[i];
      if row.RowObject? {
        cells := PushRowCells(k, row.entries, cells);
      }
      assert rows[..i + 1][..i] == rows[..i];
      i := i + 1;
    }
    assert rows[..i] == rows;
  }

  /** Number of entries of a row that are cell deltas. */
  function DeltaCount(entries: seq<(string, EntryDelta)>): nat {
    if entries == [] then 0
    else DeltaCount(entries[..|entries| - 1]) + (if entries[|entries| - 1].1.CellDelta? then 1 else 0)
  }

  /** One cell per delta entry, no more. */
  lemma {:induction false} EntryCellsCount(rowKey: string, entries: seq<(string, EntryDelta)>)
    ensures |EntryCells(rowKey, entries)| == DeltaCount(entries)
    decreases |entries|
  {
    if entries != [] {
      EntryCellsCount(rowKey, entries[..|entries| - 1]);
    }
  }

  /** Entry j of the row is a cell delta and c is the cell recorded for it. */
  predicate RecordedAt(rowKey: string, entries: seq<(string, EntryDelta)>, j: int, c: DiffCell) {
    0 <= j < |entries| && entries[j].1.CellDelta? && c == CellOf(rowKey, entries[j].0, entries[j].1)
  }

  /** The cells of a row are exactly the cells of its delta entries. */
  lemma EntryCellsMembership(rowKey: string, entries: seq<(string, EntryDelta)>, c: DiffCell)
    ensures c in EntryCells(rowKey, entries) <==> exists j :: RecordedAt(rowKey, entries, j, c)
  {
    if c in EntryCells(rowKey, entries) {
      EntryCellsSound(rowKey, entries, c);
    }
    if exists j :: RecordedAt(rowKey, entries, j, c) {
      var j :| RecordedAt(rowKey, entries, j, c);
      EntryCellsComplete(rowKey, entries, j, c);
    }
  }

  lemma {:induction false} EntryCellsSound(rowKey: string, entries: seq<(string, EntryDelta)>, c: DiffCell)
    requires c in EntryCells(rowKey, entries)
    ensures exists j :: RecordedAt(rowKey, entries, j, c)
    decreases |entries|
  {
    var init, last := entries[..|entries| - 1], entries[|entries| - 1];
    var tail := if last.1.CellDelta? then [CellOf(rowKey, last.0, last.1)] else [];
    assert EntryCells(rowKey, entries) == EntryCells(rowKey, init) + tail;
    if c in EntryCells(rowKey, init) {
      EntryCellsSound(rowKey, init, c);
      var j :| RecordedAt(rowKey, init, j, c);
      assert entries[j] == init[j];
      assert RecordedAt(rowKey, entries, j, c);
    } else {
      assert RecordedAt(rowKey, entries, |entries| - 1, c);
    }
  }

  lemma {:induction false} EntryCellsComplete(rowKey: string, entries: seq<(string, EntryDelta)>, j: int, c: DiffCell)
    requires RecordedAt(rowKey, entries, j, c)
    ensures c in EntryCells(rowKey, entries)
    decreases |entries|
  {
    var init, last := entries[..|entries| - 1], entries[|entries| - 1];
    var tail := if last.1.CellDelta? then [CellOf(rowKey, last.0, last.1)] else [];
    assert EntryCells(rowKey, entries) == EntryCells(rowKey, init) + tail;
    if j < |init| {
      assert init[j] == entries[j];
      EntryCellsComplete(rowKey, init, j, c);
    } else {
      assert c in tail;
    }
  }

  lemma ConcatAssoc<T>(x: seq<T>, y: seq<T>, z: seq<T>)
    ensures (x + y) + z == x + (y + z)
  {
  }

  /** One entry more at the end adds its cell, if it is a delta, at the end. */
  lemma EntryCellsSnoc(rowKey: string, entries: seq<(string, EntryDelta)>, e: (string, EntryDelta))
    ensures EntryCells(rowKey, entries + [e]) ==
      EntryCells(rowKey, entries) + (if e.1.CellDelta? then [CellOf(rowKey, e.0, e.1)] else [])
  {
    assert (entries + [e])[..|entries|] == entries;
  }

  /** Entries are visited in order: the cells of a concatenation are concatenated. */
  lemma {:induction false} EntryCellsAppend(rowKey: string, a: seq<(string, EntryDelta)>, b: seq<(string, EntryDelta)>)
    ensures EntryCells(rowKey, a + b) == EntryCells(rowKey, a) + EntryCells(rowKey, b)
    decreases |b|
  {
    if b == [] {
      assert a + b == a;
    } else {
      var b', last := b[..|b| - 1], b[|b| - 1];
      assert b == b' + [last];
      assert a + b == (a + b') + [last];
      EntryCellsSnoc(rowKey, a + b', last);
      EntryCellsSnoc(rowKey, b', last);
      EntryCellsAppend(rowKey, a, b');
      ConcatAssoc(EntryCells(rowKey, a), EntryCells(rowKey, b'),
        if last.1.CellDelta? then [CellOf(rowKey, last.0, last.1)] else []);
    }
  }

  /** One row more at the end adds its cells at the end. */
  lemma RowsCellsSnoc(rows: seq<(string, RowDelta)>, r: (string, RowDelta))
    ensures RowsCells(rows + [r]) == RowsCells(rows) + RowCells(r)
  {
    assert (rows + [r])[..|rows|] == rows;
  }

  /** Rows are visited in order: the cells of a concatenation are concatenated. */
  lemma {:induction false} RowsCellsAppend(a: seq<(string, RowDelta)>, b: seq<(string, RowDelta)>)
    ensures RowsCells(a + b) == RowsCells(a) + RowsCells(b)
    decreases |b|
  {
    if b == [] {
      assert a + b == a;
    } else {
      var b', last := b[..|b| - 1], b[|b| - 1];
      assert b == b' + [last];
      assert a + b == (a + b') + [last];
      RowsCellsSnoc(a + b', last);
      RowsCellsSnoc(b', last);
      RowsCellsAppend(a, b');
      ConcatAssoc(RowsCells(a), RowsCells(b'), RowCells(last));
    }
  }

  /** Row i of the diff is an object whose entry j is a cell delta, and c is the cell recorded for it. */
  predicate RecordedIn(rows: seq<(string, RowDelta)>, i: int, j: int, c: DiffCell) {
    0 <= i < |rows| && rows[i].1.RowObject? && RecordedAt(rows[i].0, rows[i].1.entries, j, c)
  }

  /** The diff's cells are exactly the cells of the delta entries of its object rows. */
  lemma RowsCellsMembership(rows: seq<(string, RowDelta)>, c: DiffCell)
    ensures c in RowsCells(rows) <==> exists i, j :: RecordedIn(rows, i, j, c)
  {
    if c in RowsCells(rows) {
      RowsCellsSound(rows, c);
    }
    if exists i, j :: RecordedIn(rows, i, j, c) {
      var i, j :| RecordedIn(rows, i, j, c);
      RowsCellsComplete(rows, i, j, c);
    }
  }

  lemma {:induction false} RowsCellsSound(rows: seq<(string, RowDelta)>, c: DiffCell)
    requires c in RowsCells(rows)
    ensures exists i, j :: RecordedIn(rows, i, j, c)
    decreases |rows|
  {
    var init, last := rows[..|rows| - 1], rows[|rows| - 1];
    assert RowsCells(rows) == RowsCells(init) + RowCells(last);
    if c in RowsCells(init) {
      RowsCellsSound(init, c);
      var i, j :| RecordedIn(init, i, j, c);
      assert rows[i] == init[i];
      assert RecordedIn(rows, i, j, c);
    } else {
      assert last.1.RowObject?;
      EntryCellsMembership(last.0, last.1.entries, c);
      var j :| RecordedAt(last.0, last.1.entries, j, c);
      assert RecordedIn(rows, |rows| - 1, j, c);
    }
  }

  lemma {:induction false} RowsCellsComplete(rows: seq<(string, RowDelta)>, i: int, j: int, c: DiffCell)
    requires RecordedIn(rows, i, j, c)
    ensures c in RowsCells(rows)
    decreases |rows|
  {
    var init, last := rows[..|rows| - 1], rows[|rows| - 1];
    assert RowsCells(rows) == RowsCells(init) + RowCells(last);
    if i < |init| {
      assert init[i] == rows[i];
      RowsCellsComplete(init, i, j, c);
    } else {
      EntryCellsMembership(last.0, last.1.entries, c);
    }
  }
}
