/** Where the tab key goes in an editable grid. */
module GridScan {
  import opened Text

  /** inForm tells, where the edit form shows the field, whether it is read only there. */
  datatype Column = Column(id: string, fieldType: string, name: string, readonly: bool, inForm: Option<bool>)

  datatype Cell = Cell(row: nat, cell: nat)

  /** Rows below count hold a record; the row after them is for a new one. */
  datatype Grid = Grid(columns: seq<Column>, count: nat)

  predicate HasData(grid: Grid, row: nat) {
    row < grid.count
  }

  /** isCellEditable; there is no column outside the grid. */
  predicate IsCellEditable(grid: Grid, cell: int) {
    && 0 <= cell < |grid.columns|
    && var col := grid.columns[cell];
       && col.id != "_edit_column" && col.fieldType != "button" && '.' !in col.name
       && !(if col.inForm.Some? then col.inForm.value else col.readonly)
  }

  // ---------- the scans ----------

  /** The first editable column from lo on, before hi. */
  function FirstIn(grid: Grid, lo: int, hi: int): (r: Option<nat>)
    ensures r.Some? ==> lo <= r.value < hi && IsCellEditable(grid, r.value)
    ensures r.Some? ==> forall c: int :: lo <= c < r.value ==> !IsCellEditable(grid, c)
    ensures r.None? ==> forall c: int :: lo <= c < hi ==> !IsCellEditable(grid, c)
    decreases hi - lo
  {
    if lo >= hi then None
    else if IsCellEditable(grid, lo) then Some(lo)
    else FirstIn(grid, lo + 1, hi)
  }

  /** The last editable column from lo on, before hi. */
  function LastIn(grid: Grid, lo: int, hi: int): (r: Option<nat>)
    ensures r.Some? ==> lo <= r.value < hi && IsCellEditable(grid, r.value)
    ensures r.Some? ==> forall c: int :: r.value < c < hi ==> !IsCellEditable(grid, c)
    ensures r.None? ==> forall c: int :: lo <= c < hi ==> !IsCellEditable(grid, c)
    decreases hi - lo
  {
    if lo >= hi then None
    else if IsCellEditable(grid, hi - 1) then Some(hi - 1)
    else LastIn(grid, lo, hi - 1)
  }

  function Next(grid: Grid, posY: nat, posX: int): Option<Cell> {
    var right := FirstIn(grid, posX + 1, |grid.columns|);
    if right.Some? then Some(Cell(posY, right.value))
    else
      var left := FirstIn(grid, 0, posX + 1);
      if left.None? then None
      else Some(Cell(if HasData(grid, posY) then posY + 1 else posY, left.value))
  }

  function Prev(grid: Grid, posY: nat, posX: int): Option<Cell> {
    var left := LastIn(grid, 0, posX);
    if left.Some? then Some(Cell(posY, left.value))
    else
      var right := LastIn(grid, posX, |grid.columns|);
      if right.None? then None
      else Some(Cell(if posY > 0 then posY - 1 else posY, right.value))
  }

  method FindNextEditable(grid: Grid, posY: nat, posX: int) returns (r: Option<Cell>)
    ensures r == Next(grid, posY, posX)
  {
    var row, cell := posY, posX + 1;
    while cell < |grid.columns|
      invariant posX < cell
      invariant FirstIn(grid, posX + 1, |grid.columns|) == FirstIn(grid, cell, |grid.columns|)
    {
      if IsCellEditable(grid, cell) {
        return Some(Cell(row, cell));
      }
      cell := cell + 1;
    }
    if HasData(grid, row) {
      row := row + 1;
    }
    cell := 0;
    while cell <= posX
      invariant 0 <= cell
      invariant FirstIn(grid, 0, posX + 1) == FirstIn(grid, cell, posX + 1)
    {
      if IsCellEditable(grid, cell) {
        return Some(Cell(row, cell));
      }
      cell := cell + 1;
    }
    return None;
  }

  method FindPrevEditable(grid: Grid, posY: nat, posX: int) returns (r: Option<Cell>)
    ensures r == Prev(grid, posY, posX)
  {
    var row, cell := posY, posX - 1;
    while cell > -1
      invariant cell < posX
      invariant LastIn(grid, 0, posX) == LastIn(grid, 0, cell + 1)
    {
      if IsCellEditable(grid, cell) {
        return Some(Cell(row, cell));
      }
      cell := cell - 1;
    }
    if row > 0 {
      row := row - 1;
    }
    cell := |grid.columns| - 1;
    while cell >= posX
      invariant cell < |grid.columns|
      invariant LastIn(grid, posX, |grid.columns|) == LastIn(grid, posX, cell + 1)
    {
      if IsCellEditable(grid, cell) {
        return Some(Cell(row, cell));
      }
      cell := cell - 1;
    }
    return None;
  }

  /** Why a column cannot be edited: it holds the edit link, a button or a field of another record, or what it shows
      is read only, in the form if it is there, else by itself. */
  datatype Reason = EditLink | Button | OtherRecord | ReadOnlyInForm | ReadOnly

  ghost predicate Speaks(col: Column, reason: Reason) {
    match reason
    case EditLink => col.id == "_edit_column"
    case Button => col.fieldType == "button"
    case OtherRecord => exists i :: 0 <= i < |col.name| && col.name[i] == '.'
    case ReadOnlyInForm => col.inForm == Some(true)
    case ReadOnly => col.readonly && col.inForm == None
  }

  /** A column of the grid is editable unless some reason speaks against it; beyond the grid there is none. */
  lemma {:induction false} EditableUnlessReason(grid: Grid, cell: int)
    ensures 0 <= cell < |grid.columns| ==>
              (IsCellEditable(grid, cell) <==> forall reason :: !Speaks(grid.columns[cell], reason))
    ensures !(0 <= cell < |grid.columns|) ==> !IsCellEditable(grid, cell)
  {
    if 0 <= cell < |grid.columns| {
      var col := grid.columns[cell];
      assert Speaks(col, EditLink) <==> col.id == "_edit_column";
      assert Speaks(col, Button) <==> col.fieldType == "button";
      assert Speaks(col, OtherRecord) <==> '.' in col.name;
      assert Speaks(col, ReadOnlyInForm) || Speaks(col, ReadOnly)
        <==> if col.inForm.Some? then col.inForm.value else col.readonly;
    }
  }

  // ---------- what they find ----------

  ghost predicate SomeEditable(grid: Grid) {
    exists c: int :: IsCellEditable(grid, c)
  }

  /** There is no next or previous cell exactly when no column is editable. */
  lemma NullIffNoneEditable(grid: Grid, posY: nat, posX: int)
    ensures Next(grid, posY, posX).None? <==> !SomeEditable(grid)
    ensures Prev(grid, posY, posX).None? <==> !SomeEditable(grid)
  {
  }

  /** How many steps to the right, starting over after the last column, lead from one column to another. */
  function StepsRight(grid: Grid, source: int, target: int): int {
    if target > source then target - source else target - source + |grid.columns|
  }

  /** The next cell is the editable one that takes the fewest steps to the right, the column itself being
      the farthest; the previous cell is the one that takes the fewest steps back. */
  lemma NearestCell(grid: Grid, posY: nat, posX: int, c: int)
    requires 0 <= posX < |grid.columns| && IsCellEditable(grid, c)
    ensures Next(grid, posY, posX).Some? && Prev(grid, posY, posX).Some?
    ensures var next := Next(grid, posY, posX).value;
            IsCellEditable(grid, next.cell) && StepsRight(grid, posX, next.cell) <= StepsRight(grid, posX, c)
    ensures var prev := Prev(grid, posY, posX).value;
            IsCellEditable(grid, prev.cell) && StepsRight(grid, prev.cell, posX) <= StepsRight(grid, c, posX)
  {
  }

  /** From an editable cell, back after forth returns, unless the next cell wraps round in a later row without data. */
  lemma PrevUndoesNext(grid: Grid, p: Cell)
    requires IsCellEditable(grid, p.cell)
    ensures Next(grid, p.row, p.cell).Some?
    ensures var next := Next(grid, p.row, p.cell).value;
            Prev(grid, next.row, next.cell) == Some(p) <==>
              p.row < grid.count || p.row == 0 || FirstIn(grid, p.cell + 1, |grid.columns|).Some?
  {
  }

  /** Forth after back returns, unless the previous cell wraps round: in the first row when it has data,
      and in a row whose previous row has none. */
  lemma NextUndoesPrev(grid: Grid, p: Cell)
    requires IsCellEditable(grid, p.cell)
    ensures Prev(grid, p.row, p.cell).Some?
    ensures var prev := Prev(grid, p.row, p.cell).value;
            Next(grid, prev.row, prev.cell) == Some(p) <==>
              || LastIn(grid, 0, p.cell).Some?
              || (if p.row > 0 then p.row - 1 < grid.count else grid.count == 0)
  {
  }

  // ---------- the order of the cells ----------

  /** How many of the first n columns are editable. */
  function CountEditable(grid: Grid, n: nat): nat {
    if n == 0 then 0 else CountEditable(grid, n - 1) + if IsCellEditable(grid, n - 1) then 1 else 0
  }

  /** The place of a cell among all editable cells, row by row. */
  function Rank(grid: Grid, p: Cell): nat {
    p.row * CountEditable(grid, |grid.columns|) + CountEditable(grid, p.cell)
  }

  lemma {:induction false} NoneBetween(grid: Grid, lo: nat, hi: nat)
    requires lo <= hi && forall c: int :: lo <= c < hi ==> !IsCellEditable(grid, c)
    ensures CountEditable(grid, lo) == CountEditable(grid, hi)
    decreases hi - lo
  {
    if lo < hi {
      NoneBetween(grid, lo, hi - 1);
    }
  }

  lemma {:induction false} GoesOn(grid: Grid, p: Cell)
    requires IsCellEditable(grid, p.cell)
    requires p.row < grid.count || FirstIn(grid, p.cell + 1, |grid.columns|).Some?
    ensures Next(grid, p.row, p.cell).Some?
    ensures Rank(grid, Next(grid, p.row, p.cell).value) == Rank(grid, p) + 1
  {
    var next := Next(grid, p.row, p.cell).value;
    var n, all := |grid.columns|, CountEditable(grid, |grid.columns|);
    assert CountEditable(grid, p.cell + 1) == CountEditable(grid, p.cell) + 1;
    if next.cell > p.cell {
      NoneBetween(grid, p.cell + 1, next.cell);
    } else {
      NoneBetween(grid, p.cell + 1, n);
      NoneBetween(grid, 0, next.cell);
      assert (p.row + 1) * all == p.row * all + all;
    }
  }

  lemma {:induction false} CountGrows(grid: Grid, c: nat, n: nat)
    requires c < n && IsCellEditable(grid, c)
    ensures CountEditable(grid, c) < CountEditable(grid, n)
    decreases n
  {
    if c < n - 1 {
      CountGrows(grid, c, n - 1);
    }
  }

  lemma {:induction false} LaterRow(r: nat, later: nat, width: nat)
    requires r < later
    ensures r * width + width <= later * width
    decreases later
  {
    assert later * width == (later - 1) * width + width;
    if r < later - 1 {
      LaterRow(r, later - 1, width);
    }
  }

  /** Cells further on in the table have a greater rank. */
  lemma RankOrders(grid: Grid, p: Cell, q: Cell)
    requires IsCellEditable(grid, p.cell) && IsCellEditable(grid, q.cell)
    requires p.row < q.row || (p.row == q.row && p.cell < q.cell)
    ensures Rank(grid, p) < Rank(grid, q)
  {
    var all := CountEditable(grid, |grid.columns|);
    if p.row < q.row {
      CountGrows(grid, p.cell, |grid.columns|);
      LaterRow(p.row, q.row, all);
    } else {
      CountGrows(grid, p.cell, q.cell);
    }
  }

  /** The next cell is the next one in the order exactly when the row has data or an editable column further on. */
  lemma NextHasTheNextRank(grid: Grid, p: Cell)
    requires IsCellEditable(grid, p.cell)
    ensures Next(grid, p.row, p.cell).Some?
    ensures Rank(grid, Next(grid, p.row, p.cell).value) == Rank(grid, p) + 1
       <==> p.row < grid.count || FirstIn(grid, p.cell + 1, |grid.columns|).Some?
  {
    var next := Next(grid, p.row, p.cell).value;
    if p.row < grid.count || FirstIn(grid, p.cell + 1, |grid.columns|).Some? {
      GoesOn(grid, p);
    } else if next != p {
      RankOrders(grid, next, p);
    }
  }

  /** The cell after so many presses of the tab key. */
  function Tab(grid: Grid, p: Cell, presses: nat): Option<Cell>
    decreases presses
  {
    if presses == 0 then Some(p)
    else
      var next := Next(grid, p.row, p.cell);
      if next.None? then None else Tab(grid, next.value, presses - 1)
  }

  /** Tabbing from one editable cell to a later one visits every editable cell between them once: it takes
      exactly as many presses as their ranks are apart. */
  lemma {:induction false} TabVisitsAll(grid: Grid, p: Cell, q: Cell)
    requires IsCellEditable(grid, p.cell) && IsCellEditable(grid, q.cell)
    requires Rank(grid, p) <= Rank(grid, q) && q.row <= grid.count
    ensures Tab(grid, p, Rank(grid, q) - Rank(grid, p)) == Some(q)
    decreases Rank(grid, q) - Rank(grid, p)
  {
    if q.row < p.row || (q.row == p.row && q.cell < p.cell) {
      RankOrders(grid, q, p);
    } else if p != q {
      RankOrders(grid, p, q);
      assert p.row == q.row ==> FirstIn(grid, p.cell + 1, |grid.columns|).Some?;
      NextHasTheNextRank(grid, p);
      TabVisitsAll(grid, Next(grid, p.row, p.cell).value, q);
    }
  }
}
