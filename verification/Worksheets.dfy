/** Writing changes into a copy of a sheet: columns added to the right of everything,
    one cell per data row, and single cells set.
 */
module Worksheets {
  import Columns
  import opened Formulas
  import opened Meaning
  import opened References

  /** What a new column holds: a formula written for each row, values given row by
      row from row 2, or one value throughout.
   */
  datatype Fill = Template(f: nat -> Formula) | Values(vs: seq<Content>) | Every(v: Content)

  datatype Change = NewColumn(header: string, fill: Fill) | SetCell(cell: Cell, to: Content)

  /** The open sheet: its cells, its rightmost column and its bottom row. */
  datatype Worksheet = Worksheet(cells: map<Cell, Content>, width: nat, height: nat) {
    ghost predicate Valid() {
      width >= 1 && forall c :: c in cells ==> Columns.IsLetters(c.letters) && 1 <= Column(c) <= width
    }

    function Get(c: Cell): Content {
      if c in cells then cells[c] else Plain(Blank)
    }
  }

  function AsSheet(ws: Worksheet, maths: Maths): Sheet {
    Sheet(ws.cells, map[], maths)
  }

  predicate Empty(v: Content) {
    v == Plain(Blank) || v == Plain(Text(""))
  }

  /** The last row, from `row` up, with anything in column A; the header row if none. */
  function LastFilled(ws: Worksheet, row: nat): (last: nat)
    ensures last >= 1
  {
    if row <= 1 then 1
    else if !Empty(ws.Get(Cell("A", row))) then row
    else LastFilled(ws, row - 1)
  }

  function LastRow(ws: Worksheet): nat {
    LastFilled(ws, ws.height)
  }

  /** The data rows end where column A's last entry is. */
  lemma {:induction false} LastFilledExactly(ws: Worksheet, row: nat)
    ensures var last := LastFilled(ws, row);
      && (last == 1 || (last <= row && !Empty(ws.Get(Cell("A", last)))))
      && forall r :: last < r <= row ==> Empty(ws.Get(Cell("A", r)))
  {
    if row > 1 { LastFilledExactly(ws, row - 1); }
  }

  /** A column asked for without a heading is given one. */
  function Titled(header: string): string {
    if header == "" then "New column" else header
  }

  /** What a column addition puts in one of its rows. */
  function Entry(header: string, fill: Fill, row: nat): Content {
    if row == 1 then Plain(Text(Titled(header)))
    else
      match fill
      case Template(f) => Formulaic(f(row))
      case Every(v) => v
      case Values(vs) => if 2 <= row < |vs| + 2 && !Empty(vs[row - 2]) then vs[row - 2] else Plain(Blank)
  }

  /** A column's cells written down to a row. */
  function Filled(cells: map<Cell, Content>, letters: string, header: string, fill: Fill, row: nat)
    : map<Cell, Content>
  {
    if row == 0 then cells
    else Filled(cells, letters, header, fill, row - 1)[Cell(letters, row) := Entry(header, fill, row)]
  }

  lemma {:induction false} FilledAt(
    cells: map<Cell, Content>, letters: string, header: string, fill: Fill, row: nat, c: Cell)
    ensures var out := Filled(cells, letters, header, fill, row);
      if c.letters == letters && 1 <= c.row <= row then c in out && out[c] == Entry(header, fill, c.row)
      else (c in out <==> c in cells) && (c in out ==> out[c] == cells[c])
  {
    if row > 0 { FilledAt(cells, letters, header, fill, row - 1, c); }
  }

  /** A column's data cells, from row 2 down. */
  function DataCells(letters: string, row: nat): seq<Cell> {
    if row < 2 then [] else DataCells(letters, row - 1) + [Cell(letters, row)]
  }

  /** A sheet after one change. */
  function After(ws: Worksheet, change: Change, last: nat): Worksheet {
    match change
    case NewColumn(header, fill) =>
      var letters := Columns.Letters(ws.width + 1);
      Worksheet(Filled(ws.cells, letters, header, fill, last), ws.width + 1, Max(ws.height, last))
    case SetCell(c, to) =>
      Worksheet(ws.cells[c := to], Max(ws.width, Column(c)), Max(ws.height, c.row))
  }

  function AfterAll(ws: Worksheet, changes: seq<Change>, last: nat): Worksheet
    decreases |changes|
  {
    if changes == [] then ws else AfterAll(After(ws, changes[0], last), changes[1..], last)
  }

  /** The cells a change writes its values into, header aside. */
  function WrittenBy(ws: Worksheet, change: Change, last: nat): seq<Cell> {
    match change
    case SetCell(c, _) => [c]
    case NewColumn(_, _) => DataCells(Columns.Letters(ws.width + 1), last)
  }

  function WrittenByAll(ws: Worksheet, changes: seq<Change>, last: nat): seq<Cell>
    decreases |changes|
  {
    if changes == [] then []
    else WrittenBy(ws, changes[0], last) + WrittenByAll(After(ws, changes[0], last), changes[1..], last)
  }

  /** A new column, written header first and then row by row. */
  method WriteColumn(ws: Worksheet, header: string, fill: Fill, last: nat)
    returns (out: Worksheet, written: seq<Cell>)
    requires last >= 1
    ensures out == After(ws, NewColumn(header, fill), last)
    ensures written == WrittenBy(ws, NewColumn(header, fill), last)
  {
    var letters := Columns.ColumnLetters(ws.width + 1);
    var cells := ws.cells[Cell(letters, 1) := Plain(Text(Titled(header)))];
    written := [];
    for r := 2 to last + 1
      invariant cells == Filled(ws.cells, letters, header, fill, r - 1)
      invariant written == DataCells(letters, r - 1)
    {
      cells := cells[Cell(letters, r) := Entry(header, fill, r)];
      written := written + [Cell(letters, r)];
    }
    out := Worksheet(cells, ws.width + 1, Max(ws.height, last));
  }

  method ApplyOne(ws: Worksheet, change: Change, last: nat) returns (out: Worksheet, written: seq<Cell>)
    requires last >= 1
    ensures out == After(ws, change, last) && written == WrittenBy(ws, change, last)
  {
    match change
    case SetCell(c, to) =>
      out := Worksheet(ws.cells[c := to], Max(ws.width, Column(c)), Max(ws.height, c.row));
      written := [c];
    case NewColumn(header, fill) =>
      out, written := WriteColumn(ws, header, fill, last);
  }

  /** `_apply`'s loop over the changes. */
  method Apply(ws: Worksheet, changes: seq<Change>) returns (out: Worksheet, written: seq<Cell>)
    ensures out == AfterAll(ws, changes, LastRow(ws))
    ensures written == WrittenByAll(ws, changes, LastRow(ws))
  {
    var last := LastRow(ws);
    out, written := ws, [];
    for i := 0 to |changes|
      invariant AfterAll(ws, changes, last) == AfterAll(out, changes[i..], last)
      invariant WrittenByAll(ws, changes, last) == written + WrittenByAll(out, changes[i..], last)
    {
      var cells;
      assert changes[i..][1..] == changes[i + 1..];
      out, cells := ApplyOne(out, changes[i], last);
      written := written + cells;
    }
  }

  /** In one of the k columns right of the sheet. */
  predicate IsNew(ws: Worksheet, k: nat, c: Cell) {
    Columns.IsLetters(c.letters) && ws.width < Column(c) <= ws.width + k
  }

  lemma ColumnLands(ws: Worksheet, change: Change, last: nat, c: Cell)
    requires change.NewColumn?
    ensures After(ws, change, last).width == ws.width + 1
    ensures After(ws, change, last).Get(c) ==
      if IsNew(ws, 1, c) && 1 <= c.row <= last then Entry(change.header, change.fill, c.row) else ws.Get(c)
  {
    hide Columns.Letters, Columns.Number, Columns.IsLetters, Filled, Entry, IsNew;
    FilledAt(ws.cells, Columns.Letters(ws.width + 1), change.header, change.fill, last, c);
    NewestColumn(ws, c);
  }

  /** A batch of column additions: consecutive columns, in the order given, each holding
      its header and its entries down to the last data row; every other cell is as it was.
   */
  lemma {:induction false} ColumnsLand(ws: Worksheet, changes: seq<Change>, last: nat, c: Cell)
    requires forall i :: 0 <= i < |changes| ==> changes[i].NewColumn?
    ensures AfterAll(ws, changes, last).width == ws.width + |changes|
    ensures AfterAll(ws, changes, last).Get(c) ==
      if IsNew(ws, |changes|, c) && 1 <= c.row <= last
      then Entry(changes[Column(c) - ws.width - 1].header, changes[Column(c) - ws.width - 1].fill, c.row)
      else ws.Get(c)
    decreases |changes|
  {
    if changes != [] {
      ColumnsLand(After(ws, changes[0], last), changes[1..], last, c);
      ColumnLands(ws, changes[0], last, c);
    }
  }

  lemma {:induction false} DataCellsExactly(letters: string, row: nat, c: Cell)
    ensures c in DataCells(letters, row) <==> c.letters == letters && 2 <= c.row <= row
  {
    if row >= 2 { DataCellsExactly(letters, row - 1, c); }
  }

  /** The cells reported as written are the data cells of the new columns, all of them. */
  lemma {:induction false} WrittenExactly(ws: Worksheet, changes: seq<Change>, last: nat, c: Cell)
    requires forall i :: 0 <= i < |changes| ==> changes[i].NewColumn?
    ensures c in WrittenByAll(ws, changes, last) <==> IsNew(ws, |changes|, c) && 2 <= c.row <= last
    decreases |changes|
  {
    if changes != [] {
      NewestColumn(ws, c);
      DataCellsExactly(Columns.Letters(ws.width + 1), last, c);
      hide Columns.Letters, Columns.Number, Columns.IsLetters, Filled, DataCells;
      WrittenExactly(After(ws, changes[0], last), changes[1..], last, c);
    }
  }

  lemma NewestColumn(ws: Worksheet, c: Cell)
    ensures c.letters == Columns.Letters(ws.width + 1) <==> IsNew(ws, 1, c)
  {
    Columns.NumberOfLetters(ws.width + 1);
    if Columns.IsLetters(c.letters) { Columns.LettersOfNumber(c.letters); }
  }

  /** The columns added were empty before: nothing of the sheet is overwritten. */
  lemma ColumnsFresh(ws: Worksheet, k: nat, c: Cell)
    requires ws.Valid() && IsNew(ws, k, c)
    ensures c !in ws.cells
    ensures c.letters == Columns.Letters(Column(c))
  {
    Columns.LettersOfNumber(c.letters);
  }

  /** No value changes for a cell whose formulas do not reach a new column: it has the
      same meaning after the additions, at every depth, and settles exactly when it did.
   */
  lemma ValuesKept(ws: Worksheet, changes: seq<Change>, maths: Maths, c: Cell, n: nat)
    requires forall i :: 0 <= i < |changes| ==> changes[i].NewColumn?
    requires forall d :: Reaches(AsSheet(ws, maths), c, d) ==> !IsNew(ws, |changes|, d)
    ensures CellValue(AsSheet(AfterAll(ws, changes, LastRow(ws)), maths), c, n) == CellValue(AsSheet(ws, maths), c, n)
  {
    var s, t := AsSheet(ws, maths), AsSheet(AfterAll(ws, changes, LastRow(ws)), maths);
    forall d | Reaches(s, c, d) ensures Agree(s, t, d) {
      ColumnsLand(ws, changes, LastRow(ws), d);
    }
    CellFrame(s, t, c, n);
  }
}
