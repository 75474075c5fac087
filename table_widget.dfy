/**
 * The part of Qt's `QTableWidget` that the windows and dialogs use: a grid of
 * optional text items with a fixed number of columns, and a hidden flag per
 * row. As in Qt, an index out of range makes `insertRow`, `setItem` and
 * `setRowHidden` do nothing and makes `item` answer None.
 */
module TableWidgets {
  import opened Wrappers

  /** A row of `columns` cells without items. */
  function EmptyRow(columns: nat): seq<Option<string>>
  {
    seq(columns, _ => None)
  }

  /** A row of `columns` cells after `setItem(row, c, texts[c])` was called for
      every `c < filled` on an empty row: each such call within the column count
      places its text, the calls past the last column are ignored. */
  function FilledRow(texts: seq<string>, columns: nat, filled: nat): seq<Option<string>>
    requires filled <= |texts|
  {
    seq(columns, c requires 0 <= c < columns => if c < filled then Some(texts[c]) else None)
  }

  /** Replacing the last of a sequence of rows, whatever a row holds. */
  lemma ReplaceLast<T>(done: seq<T>, last: T, replacement: T)
    ensures (done + [last])[|done| := replacement] == done + [replacement]
  {
  }

  /** Inserting at the end of a sequence appends. */
  lemma InsertAtEnd<T>(s: seq<T>, x: T)
    ensures s[..|s|] + [x] + s[|s|..] == s + [x]
  {
  }

  /** `n` rows without items. */
  function EmptyRows(n: nat, columns: nat): seq<seq<Option<string>>>
  {
    seq(n, _ => EmptyRow(columns))
  }

  /** The hidden flags of `n` visible rows. */
  function AllShown(n: nat): seq<bool>
  {
    seq(n, _ => false)
  }

  /** One more visible row. */
  lemma AllShownGrows(n: nat)
    ensures AllShown(n + 1) == AllShown(n) + [false]
  {
  }

  class TableWidget {
    const columnCount: nat
    var cells: seq<seq<Option<string>>>
    var hidden: seq<bool>

    ghost predicate Valid()
      reads this
    {
      |hidden| == |cells| && forall r :: 0 <= r < |cells| ==> |cells[r]| == columnCount
    }

    /** `QTableWidget(rows, columns)`: empty, visible rows. */
    constructor (rows: nat, columns: nat)
      ensures Valid() && columnCount == columns
      ensures cells == EmptyRows(rows, columns) && hidden == AllShown(rows)
    {
      columnCount := columns;
      cells := EmptyRows(rows, columns);
      hidden := AllShown(rows);
    }

    function RowCount(): nat
      reads this
    {
      |cells|
    }

    /** `setRowCount(n)`: drops the rows from `n` on, or appends empty visible
        rows up to `n`. */
    method SetRowCount(n: nat)
      requires Valid()
      modifies this
      ensures Valid()
      ensures n <= |old(cells)| ==> cells == old(cells)[..n] && hidden == old(hidden)[..n]
      ensures n > |old(cells)| ==>
                cells == old(cells) + EmptyRows(n - |old(cells)|, columnCount) &&
                hidden == old(hidden) + AllShown(n - |old(cells)|)
    {
      if n <= |cells| {
        cells, hidden := cells[..n], hidden[..n];
      } else {
        cells, hidden := cells + EmptyRows(n - |cells|, columnCount), hidden + AllShown(n - |cells|);
      }
    }

    /** `insertRow(row)`: an empty visible row at position `row`, the rows from
        there on moving down by one. */
    method InsertRow(row: int)
      requires Valid()
      modifies this
      ensures Valid()
      ensures 0 <= row <= |old(cells)| ==>
                cells == old(cells)[..row] + [EmptyRow(columnCount)] + old(cells)[row..] &&
                hidden == old(hidden)[..row] + [false] + old(hidden)[row..]
      ensures !(0 <= row <= |old(cells)|) ==> cells == old(cells) && hidden == old(hidden)
    {
      if 0 <= row <= |cells| {
        cells := cells[..row] + [EmptyRow(columnCount)] + cells[row..];
        hidden := hidden[..row] + [false] + hidden[row..];
      }
    }

    /** `setItem(row, column, QTableWidgetItem(text))`. */
    method SetItem(row: int, column: int, text: string)
      requires Valid()
      modifies this
      ensures Valid() && hidden == old(hidden)
      ensures 0 <= row < |old(cells)| && 0 <= column < columnCount ==>
                cells == old(cells)[row := old(cells)[row][column := Some(text)]]
      ensures !(0 <= row < |old(cells)| && 0 <= column < columnCount) ==> cells == old(cells)
    {
      if 0 <= row < |cells| && 0 <= column < columnCount {
        cells := cells[row := cells[row][column := Some(text)]];
      }
    }

    /** `item(row, column)`: the text of the item there, or None. */
    function Item(row: int, column: int): Option<string>
      reads this
    {
      if 0 <= row < |cells| && 0 <= column < |cells[row]| then cells[row][column] else None
    }

    /** `setRowHidden(row, isHidden)`. */
    method SetRowHidden(row: int, isHidden: bool)
      requires Valid()
      modifies this
      ensures Valid() && cells == old(cells)
      ensures 0 <= row < |old(hidden)| ==> hidden == old(hidden)[row := isHidden]
      ensures !(0 <= row < |old(hidden)|) ==> hidden == old(hidden)
    {
      if 0 <= row < |hidden| {
        hidden := hidden[row := isHidden];
      }
    }
  }
}
