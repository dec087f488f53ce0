/** How a dashboard packs its items into rows of twelve columns. */
module Dashboard {

  /** colSpan is 0 where the view gives none. */
  datatype Item = Item(name: string, colSpan: int)

  const COLUMNS := 12

  function Span(item: Item): int {
    if item.colSpan == 0 then 6 else item.colSpan
  }

  /** The columns that a row takes. */
  function Width(row: seq<Item>): int {
    if row == [] then 0 else Width(row[..|row| - 1]) + Span(row[|row| - 1])
  }

  function Last(rows: seq<seq<Item>>): seq<Item>
    requires rows != []
  {
    rows[|rows| - 1]
  }

  /** One more item goes to the last row, or to a new one. */
  function Place(rows: seq<seq<Item>>, item: Item): seq<seq<Item>>
    requires rows != []
  {
    if Width(Last(rows)) + Span(item) > COLUMNS then rows + [[item]]
    else rows[..|rows| - 1] + [Last(rows) + [item]]
  }

  function Pack(items: seq<Item>): (rows: seq<seq<Item>>)
    ensures rows != []
  {
    if items == [] then [[]] else Place(Pack(items[..|items| - 1]), items[|items| - 1])
  }

  lemma PackSnoc(items: seq<Item>, item: Item)
    ensures Pack(items + [item]) == Place(Pack(items), item)
  {
    assert (items + [item])[..|items|] == items;
  }

  lemma WidthSnoc(row: seq<Item>, item: Item)
    ensures Width(row + [item]) == Width(row) + Span(item)
  {
    assert (row + [item])[..|row|] == row;
  }

  lemma WidthOfPlaced(rows: seq<seq<Item>>, item: Item)
    requires rows != []
    ensures Width(Last(Place(rows, item)))
         == (if Width(Last(rows)) + Span(item) > COLUMNS then 0 else Width(Last(rows))) + Span(item)
  {
    WidthSnoc(Last(rows), item);
    WidthSnoc([], item);
    assert [] + [item] == [item];
  }

  /** One round of the loop in parse: the columns of the last row are counted along. */
  method PlaceItem(rows: seq<seq<Item>>, lastCol: int, item: Item) returns (rows1: seq<seq<Item>>, lastCol1: int)
    requires rows != [] && lastCol == Width(Last(rows))
    ensures rows1 == Place(rows, item) && lastCol1 == Width(Last(rows1))
  {
    WidthOfPlaced(rows, item);
    rows1, lastCol1 := rows, lastCol;
    var span := if item.colSpan == 0 then 6 else item.colSpan;
    var last := rows1[|rows1| - 1];
    if lastCol1 + span > COLUMNS {
      lastCol1 := 0;
      last := [];
      rows1 := rows1 + [last];
      assert rows1[..|rows1| - 1] == rows && last + [item] == [item];
    }
    rows1 := rows1[..|rows1| - 1] + [last + [item]];
    lastCol1 := lastCol1 + span;
  }

  /** parse. */
  method Parse(items: seq<Item>) returns (rows: seq<seq<Item>>)
    ensures rows == Pack(items)
  {
    rows := [[]];
    var lastCol, i := 0, 0;
    while i < |items|
      invariant 0 <= i <= |items|
      invariant rows == Pack(items[..i]) && lastCol == Width(Last(rows))
    {
      assert items[..i + 1] == items[..i] + [items[i]];
      PackSnoc(items[..i], items[i]);
      rows, lastCol := PlaceItem(rows, lastCol, items[i]);
      i := i + 1;
    }
    assert items[..i] == items;
  }

  // ---------- what a split into rows is ----------

  function Joined(rows: seq<seq<Item>>): seq<Item> {
    if rows == [] then [] else Joined(rows[..|rows| - 1]) + Last(rows)
  }

  lemma JoinedSnoc(rows: seq<seq<Item>>, row: seq<Item>)
    ensures Joined(rows + [row]) == Joined(rows) + row
  {
    assert (rows + [row])[..|rows|] == rows;
  }

  ghost predicate Fits(rows: seq<seq<Item>>) {
    forall i :: 0 <= i < |rows| ==> Width(rows[i]) <= COLUMNS
  }

  ghost predicate Positive(items: seq<Item>) {
    forall x :: x in items ==> Span(x) > 0
  }

  ghost predicate Narrow(items: seq<Item>) {
    forall x :: x in items ==> Span(x) <= COLUMNS
  }

  /** The rows hold the items, each once and in order. */
  lemma {:induction false} RowsHoldTheItems(items: seq<Item>)
    ensures Joined(Pack(items)) == items
  {
    if items == [] {
      JoinedSnoc([], []);
    } else {
      var init, item := items[..|items| - 1], items[|items| - 1];
      var rows := Pack(init);
      RowsHoldTheItems(init);
      JoinedSnoc(rows, [item]);
      JoinedSnoc(rows[..|rows| - 1], Last(rows) + [item]);
      assert items == init + [item];
      assert Joined(rows) + [item] == Joined(rows[..|rows| - 1]) + (Last(rows) + [item]);
    }
  }

  lemma {:induction false} WidthCoversEach(row: seq<Item>, x: Item)
    requires Positive(row) && x in row
    ensures Span(x) <= Width(row)
  {
    var init := row[..|row| - 1];
    assert row == init + [row[|row| - 1]];
    if x in init {
      WidthCoversEach(init, x);
    } else {
      WidthNonNegative(init);
    }
  }

  lemma {:induction false} WidthNonNegative(row: seq<Item>)
    requires Positive(row)
    ensures Width(row) >= 0
  {
    if row != [] {
      WidthNonNegative(row[..|row| - 1]);
    }
  }

  lemma {:induction false} PackFits(items: seq<Item>)
    requires Narrow(items)
    ensures Fits(Pack(items))
  {
    if items != [] {
      var init, item := items[..|items| - 1], items[|items| - 1];
      PackFits(init);
      WidthOfPlaced(Pack(init), item);
    }
  }

  /** No row is wider than twelve columns exactly when no item is. */
  lemma RowsFitIff(items: seq<Item>)
    requires Positive(items)
    ensures Fits(Pack(items)) <==> Narrow(items)
  {
    RowsHoldTheItems(items);
    if Narrow(items) {
      PackFits(items);
    } else if Fits(Pack(items)) {
      forall x | x in items
        ensures Span(x) <= COLUMNS
      {
        EachFits(Pack(items), x);
      }
    }
  }

  /** In a split that fits, every item fits. */
  lemma {:induction false} EachFits(rows: seq<seq<Item>>, x: Item)
    requires x in Joined(rows) && Fits(rows) && Positive(Joined(rows))
    ensures Span(x) <= COLUMNS
  {
    var n := |rows| - 1;
    if x in Joined(rows[..n]) {
      EachFits(rows[..n], x);
    } else {
      WidthCoversEach(Last(rows), x);
    }
  }

  // ---------- the packing is the best one ----------

  /** Against any split that fits, with row as its last row: the packing has fewer rows, or as many with a last
      row that is not wider. */
  lemma {:induction false} PackIsAhead(before: seq<seq<Item>>, row: seq<Item>)
    requires Positive(Joined(before) + row) && Fits(before) && Width(row) <= COLUMNS
    ensures var rows := Pack(Joined(before) + row);
            |rows| <= |before| || (|rows| == |before| + 1 && Width(Last(rows)) <= Width(row))
    decreases |before|, |row|
  {
    if row == [] {
      assert Joined(before) + row == Joined(before);
      if before != [] {
        PackIsAhead(before[..|before| - 1], Last(before));
      }
    } else {
      var rest, item := row[..|row| - 1], row[|row| - 1];
      assert row == rest + [item];
      SplitLast(before, rest, item);
      PackIsAhead(before, rest);
      WidthOfPlaced(Pack(Joined(before) + rest), item);
    }
  }

  lemma {:induction false} SplitLast(before: seq<seq<Item>>, rest: seq<Item>, item: Item)
    requires Positive(Joined(before) + (rest + [item]))
    ensures Pack(Joined(before) + (rest + [item])) == Place(Pack(Joined(before) + rest), item)
    ensures Positive(Joined(before) + rest) && Span(item) > 0
    ensures Width(rest + [item]) == Width(rest) + Span(item) && Width(rest) >= 0
  {
    var init := Joined(before) + rest;
    assert Joined(before) + (rest + [item]) == init + [item];
    PackSnoc(init, item);
    WidthSnoc(rest, item);
    WidthNonNegative(rest);
  }

  /** No split of some items into rows of at most twelve columns that keeps their order has fewer rows. */
  lemma PackIsOptimal(items: seq<Item>, others: seq<seq<Item>>)
    requires Positive(items) && Joined(others) == items != [] && Fits(others)
    ensures |Pack(items)| <= |others|
  {
    PackIsAhead(others[..|others| - 1], Last(others));
  }

  // ---------- and the only greedy one ----------

  /** Rows with row as the last one: each is in use, fits, and its first item had no room in the row above. */
  ghost predicate Greedy(before: seq<seq<Item>>, row: seq<Item>) {
    && row != [] && Width(row) <= COLUMNS
    && (before != [] ==>
          && Width(Last(before)) + Span(row[0]) > COLUMNS
          && Greedy(before[..|before| - 1], Last(before)))
  }

  ghost predicate GreedyRows(rows: seq<seq<Item>>) {
    rows != [] && Greedy(rows[..|rows| - 1], Last(rows))
  }

  lemma {:induction false} PackIsGreedy(items: seq<Item>)
    requires Narrow(items) && items != []
    ensures GreedyRows(Pack(items))
  {
    var init, item := items[..|items| - 1], items[|items| - 1];
    WidthOfPlaced(Pack(init), item);
    if init != [] {
      PackIsGreedy(init);
      PlaceKeepsGreedy(Pack(init), item);
    }
  }

  lemma PlaceKeepsGreedy(rows: seq<seq<Item>>, item: Item)
    requires GreedyRows(rows) && Span(item) <= COLUMNS
    ensures GreedyRows(Place(rows, item))
  {
    WidthOfPlaced(rows, item);
    var placed := Place(rows, item);
    if Width(Last(rows)) + Span(item) > COLUMNS {
      assert placed[..|placed| - 1] == rows;
    } else {
      assert placed[..|placed| - 1] == rows[..|rows| - 1];
    }
  }

  lemma {:induction false} GreedyIsPlaced(before: seq<seq<Item>>, row: seq<Item>)
    requires Positive(Joined(before) + row) && Greedy(before, row)
    ensures Pack(Joined(before) + row) == before + [row]
    decreases |before|, |row|
  {
    var rest, item := row[..|row| - 1], row[|row| - 1];
    assert row == rest + [item];
    SplitLast(before, rest, item);
    if rest != [] {
      GreedyIsPlaced(before, rest);
      PlaceInRow(before, rest, item);
    } else if before != [] {
      LastOfJoined(before);
      GreedyIsPlaced(before[..|before| - 1], Last(before));
      PlaceInNewRow(before, item);
    } else {
      PlaceFirst(before, item);
    }
  }

  lemma {:induction false} LastOfJoined(before: seq<seq<Item>>)
    requires before != []
    ensures Joined(before) + [] == Joined(before[..|before| - 1]) + Last(before)
    ensures before[..|before| - 1] + [Last(before)] == before
  {
    var joined := Joined(before[..|before| - 1]) + Last(before);
    assert Joined(before) == joined;
    assert joined + [] == joined;
  }

  lemma {:induction false} PlaceInNewRow(before: seq<seq<Item>>, item: Item)
    requires before != [] && Width(Last(before)) + Span(item) > COLUMNS
    requires Pack(Joined(before[..|before| - 1]) + Last(before)) == before[..|before| - 1] + [Last(before)]
    ensures Place(Pack(Joined(before) + []), item) == before + [[item]]
  {
    LastOfJoined(before);
  }

  lemma {:induction false} PlaceFirst(before: seq<seq<Item>>, item: Item)
    requires before == [] && Span(item) <= COLUMNS
    ensures Place(Pack(Joined(before) + []), item) == before + [[item]]
  {
    var none: seq<Item> := [];
    assert Joined(before) + none == none;
    assert Pack(none) == before + [none];
    PlaceInRow(before, none, item);
    assert none + [item] == [item];
  }

  lemma {:induction false} PlaceInRow(before: seq<seq<Item>>, rest: seq<Item>, item: Item)
    requires Width(rest) + Span(item) <= COLUMNS
    ensures Place(before + [rest], item) == before + [rest + [item]]
  {
    assert (before + [rest])[..|before|] == before;
  }

  /** A greedy split of the items is the packing, row by row. */
  lemma {:induction false} GreedyIsPack(items: seq<Item>, rows: seq<seq<Item>>)
    requires Positive(items) && Joined(rows) == items && GreedyRows(rows)
    ensures rows == Pack(items)
  {
    assert Joined(rows) == Joined(rows[..|rows| - 1]) + Last(rows);
    GreedyIsPlaced(rows[..|rows| - 1], Last(rows));
    assert rows == rows[..|rows| - 1] + [Last(rows)];
  }

  // ---------- items of one size ----------

  lemma {:induction false} WidthOfEqual(row: seq<Item>, colSpan: int)
    requires forall i :: 0 <= i < |row| ==> row[i].colSpan == colSpan
    ensures Width(row) == |row| * if colSpan == 0 then 6 else colSpan
  {
    if row != [] {
      WidthOfEqual(row[..|row| - 1], colSpan);
    }
  }

  /** So many items of this size fit into twelve columns; two that give no size do. */
  predicate FitInRow(n: nat, colSpan: int) {
    n > 0 && if colSpan == 0 then n == 2 else colSpan > 0 && n * colSpan <= 12 < (n + 1) * colSpan
  }

  /** Full rows of n, and a last one that is not longer. */
  ghost predicate FullRows(rows: seq<seq<Item>>, n: nat, colSpan: int) {
    && rows != [] && (forall i :: 0 <= i < |rows| - 1 ==> |rows[i]| == n) && |Last(rows)| <= n
    && forall i :: 0 <= i < |Last(rows)| ==> Last(rows)[i].colSpan == colSpan
  }

  lemma {:induction false} OneMoreOfSize(rows: seq<seq<Item>>, item: Item, n: nat)
    requires FitInRow(n, item.colSpan) && FullRows(rows, n, item.colSpan)
    ensures FullRows(Place(rows, item), n, item.colSpan)
    ensures Last(Place(rows, item)) != []
  {
    var last := Last(rows);
    WidthOfEqual(last, item.colSpan);
    var span := if item.colSpan == 0 then 6 else item.colSpan;
    assert (|last| + 1) * span == |last| * span + span;
    if |last| < n {
      assert (|last| + 1) * span <= n * span by {
        MoreItems(|last| + 1, n, span);
      }
    }
  }

  lemma {:induction false} MoreItems(few: nat, many: nat, span: nat)
    requires few <= many
    ensures few * span <= many * span
  {
    assert many * span == few * span + (many - few) * span;
  }

  /** Items of one size fill every row but the last with as many as fit into twelve columns. */
  lemma {:induction false} EqualItemsFillRows(items: seq<Item>, colSpan: int, n: nat)
    requires FitInRow(n, colSpan) && forall i :: 0 <= i < |items| ==> items[i].colSpan == colSpan
    ensures FullRows(Pack(items), n, colSpan)
    ensures items != [] ==> Last(Pack(items)) != []
  {
    if items != [] {
      EqualItemsFillRows(items[..|items| - 1], colSpan, n);
      OneMoreOfSize(Pack(items[..|items| - 1]), items[|items| - 1], n);
    }
  }
}
