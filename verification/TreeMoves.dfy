/** Dragging rows of a tree view onto new parents, and when the parent relation stays free of cycles. */
module TreeMoves {
  import opened Text

  /** A row of the tree, and the record that it shows. */
  type Id = nat

  /** The parent of every row; None for a root. */
  type Relation = map<Id, Option<Id>>

  ghost predicate Closed(rel: Relation) {
    forall x :: x in rel && rel[x].Some? ==> rel[x].value in rel
  }

  /** The n-th ancestor, if there is one. */
  function Up(rel: Relation, x: Option<Id>, n: nat): Option<Id>
    decreases n
  {
    if n == 0 then x
    else if x.None? || x.value !in rel then None
    else Up(rel, rel[x.value], n - 1)
  }

  /** No row is among its own ancestors. */
  ghost predicate Acyclic(rel: Relation) {
    forall x, n: nat :: x in rel && n > 0 ==> Up(rel, Some(x), n) != Some(x)
  }

  /** source is one of the ancestors of target. */
  ghost predicate Above(rel: Relation, source: Id, target: Id) {
    exists n: nat :: n > 0 && Up(rel, Some(target), n) == Some(source)
  }

  /** The way up from x ends. */
  ghost predicate Ends(rel: Relation, x: Option<Id>) {
    exists n: nat :: Up(rel, x, n) == None
  }

  ghost predicate Grounded(rel: Relation) {
    forall x :: x in rel ==> Ends(rel, Some(x))
  }

  lemma {:induction false} UpAdd(rel: Relation, x: Option<Id>, m: nat, n: nat)
    ensures Up(rel, x, m + n) == Up(rel, Up(rel, x, m), n)
    decreases m
  {
    if m > 0 && x.Some? && x.value in rel {
      UpAdd(rel, rel[x.value], m - 1, n);
    }
  }

  // ---------- without cycles every way up ends, and the other way round ----------

  /** seen holds rows below x. As x cannot be one of them, it can be added, and there are finitely many rows. */
  lemma {:induction false} EndsAbove(rel: Relation, x: Id, seen: set<Id>)
    requires Acyclic(rel) && Closed(rel) && x in rel && seen <= rel.Keys
    requires forall s :: s in seen ==> Above(rel, x, s)
    ensures Ends(rel, Some(x))
    decreases |rel.Keys - seen|
  {
    assert x !in seen;
    if rel[x].None? {
      assert Up(rel, Some(x), 1) == None;
    } else {
      var p := rel[x].value;
      forall s | s in seen + {x}
        ensures Above(rel, p, s)
      {
        assert Up(rel, Some(x), 1) == Some(p);
        if s != x {
          var k: nat :| k > 0 && Up(rel, Some(s), k) == Some(x);
          UpAdd(rel, Some(s), k, 1);
          assert Up(rel, Some(s), k + 1) == Some(p);
        }
      }
      assert rel.Keys - (seen + {x}) == (rel.Keys - seen) - {x};
      EndsAbove(rel, p, seen + {x});
      var n: nat :| Up(rel, Some(p), n) == None;
      assert Up(rel, Some(x), n + 1) == None;
    }
  }

  /** A row that is its own n-th ancestor has a way up that never ends. */
  lemma {:induction false} CycleNeverEnds(rel: Relation, x: Id, n: nat, m: nat)
    requires n > 0 && Up(rel, Some(x), n) == Some(x)
    ensures Up(rel, Some(x), m) != None
    decreases m
  {
    if m < n {
      UpAdd(rel, Some(x), m, n - m);
    } else {
      UpAdd(rel, Some(x), n, m - n);
      CycleNeverEnds(rel, x, n, m - n);
    }
  }

  lemma AcyclicIffGrounded(rel: Relation)
    requires Closed(rel)
    ensures Acyclic(rel) <==> Grounded(rel)
  {
    if Acyclic(rel) {
      forall x | x in rel
        ensures Ends(rel, Some(x))
      {
        EndsAbove(rel, x, {});
      }
    } else {
      var x, n: nat :| x in rel && n > 0 && Up(rel, Some(x), n) == Some(x);
      forall m: nat
        ensures Up(rel, Some(x), m) != None
      {
        CycleNeverEnds(rel, x, n, m);
      }
      assert !Ends(rel, Some(x));
    }
  }

  lemma {:induction false} LeastEnd(rel: Relation, x: Option<Id>, n: nat) returns (d: nat)
    requires Up(rel, x, n) == None
    ensures d <= n && Up(rel, x, d) == None && forall m: nat :: m < d ==> Up(rel, x, m) != None
  {
    if n > 0 && Up(rel, x, n - 1) == None {
      d := LeastEnd(rel, x, n - 1);
    } else {
      d := n;
      forall m: nat | m < n
        ensures Up(rel, x, m) != None
      {
        UpAdd(rel, x, m, n - 1 - m);
      }
    }
  }

  ghost predicate IsDepth(rel: Relation, x: Option<Id>, d: nat) {
    Up(rel, x, d) == None && forall m: nat :: m < d ==> Up(rel, x, m) != None
  }

  lemma DepthExists(rel: Relation, x: Option<Id>)
    requires Ends(rel, x)
    ensures exists d: nat :: IsDepth(rel, x, d)
  {
    var n: nat :| Up(rel, x, n) == None;
    var d := LeastEnd(rel, x, n);
    assert IsDepth(rel, x, d);
  }

  /** How far the way up from x goes. */
  ghost function Depth(rel: Relation, x: Option<Id>): (d: nat)
    requires Ends(rel, x)
    ensures IsDepth(rel, x, d)
  {
    DepthExists(rel, x);
    var d: nat :| IsDepth(rel, x, d);
    d
  }

  lemma ParentIsCloser(rel: Relation, x: Id)
    requires Closed(rel) && Acyclic(rel) && x in rel && rel[x].Some?
    ensures Ends(rel, Some(x)) && Ends(rel, rel[x]) && Depth(rel, rel[x]) < Depth(rel, Some(x))
  {
    AcyclicIffGrounded(rel);
    var d := Depth(rel, Some(x));
    assert Up(rel, rel[x], d - 1) == None;
  }

  // ---------- the guards ----------

  /** isParent: is source above target? The recursion ends because there are no cycles. */
  predicate IsParent(rel: Relation, source: Id, target: Id)
    requires Closed(rel) && Acyclic(rel) && target in rel
    decreases (AcyclicIffGrounded(rel); Depth(rel, Some(target)))
  {
    if rel[target].None? then false
    else if rel[target].value == source then true
    else
      ParentIsCloser(rel, target);
      IsParent(rel, source, rel[target].value)
  }

  lemma {:induction false} IsParentMeansAbove(rel: Relation, source: Id, target: Id)
    requires Closed(rel) && Acyclic(rel) && target in rel
    ensures IsParent(rel, source, target) <==> Above(rel, source, target)
    decreases (AcyclicIffGrounded(rel); Depth(rel, Some(target)))
  {
    if rel[target].None? {
      forall n: nat | n > 0
        ensures Up(rel, Some(target), n) != Some(source)
      {
      }
    } else {
      var p := rel[target].value;
      assert Up(rel, Some(target), 1) == Some(p);
      if p != source {
        ParentIsCloser(rel, target);
        IsParentMeansAbove(rel, source, p);
        AboveParent(rel, source, target);
      }
    }
  }

  lemma AboveParent(rel: Relation, source: Id, target: Id)
    requires target in rel && rel[target].Some? && rel[target].value != source
    ensures Above(rel, source, target) <==> Above(rel, source, rel[target].value)
  {
    var p := rel[target].value;
    if Above(rel, source, target) {
      var n: nat :| n > 0 && Up(rel, Some(target), n) == Some(source);
      assert Up(rel, Some(p), n - 1) == Some(source);
    }
    if Above(rel, source, p) {
      var n: nat :| n > 0 && Up(rel, Some(p), n) == Some(source);
      assert Up(rel, Some(target), n + 1) == Some(source);
    }
  }

  // ---------- one move ----------

  /** A way up that does not meet x before its last step is the same after x has moved. */
  lemma {:induction false} WalkUnchanged(rel: Relation, x: Id, to: Option<Id>, y: Option<Id>, n: nat)
    requires forall m: nat :: m < n ==> Up(rel, y, m) != Some(x)
    ensures Up(rel[x := to], y, n) == Up(rel, y, n)
    decreases n
  {
    if n > 0 {
      assert Up(rel, y, 0) == y;
      if y.Some? && y.value in rel {
        forall m: nat | m < n - 1
          ensures Up(rel, rel[y.value], m) != Some(x)
        {
          assert Up(rel, y, m + 1) == Up(rel, rel[y.value], m);
        }
        WalkUnchanged(rel, x, to, rel[y.value], n - 1);
      }
    }
  }

  /** Where the way up ends in rel, and also from the new parent y without meeting x, it ends after the move. */
  lemma {:induction false} EndsAfterMove(rel: Relation, x: Id, y: Id, z: Id, d: nat)
    requires Closed(rel) && z in rel && Up(rel, Some(z), d) == None
    requires Ends(rel, Some(y)) && x != y && !Above(rel, x, y)
    ensures Ends(rel[x := Some(y)], Some(z))
    decreases d
  {
    var moved := rel[x := Some(y)];
    if z == x {
      MovedRowEnds(rel, x, y);
    } else if rel[z].None? {
      assert Up(moved, Some(z), 1) == None;
    } else {
      EndsAfterMove(rel, x, y, rel[z].value, d - 1);
      var n: nat :| Up(moved, rel[z], n) == None;
      assert Up(moved, Some(z), n + 1) == None;
    }
  }

  lemma MovedRowEnds(rel: Relation, x: Id, y: Id)
    requires Ends(rel, Some(y)) && x != y && !Above(rel, x, y)
    ensures Ends(rel[x := Some(y)], Some(x))
  {
    var n: nat :| Up(rel, Some(y), n) == None;
    assert Up(rel, Some(y), 0) == Some(y);
    WalkUnchanged(rel, x, Some(y), Some(y), n);
    assert Up(rel[x := Some(y)], Some(x), n + 1) == None;
  }

  lemma MoveKeepsAcyclic(rel: Relation, x: Id, y: Id)
    requires Closed(rel) && Acyclic(rel) && y in rel && x != y && !Above(rel, x, y)
    ensures Closed(rel[x := Some(y)]) && Acyclic(rel[x := Some(y)])
  {
    var moved := rel[x := Some(y)];
    AcyclicIffGrounded(rel);
    forall z | z in moved
      ensures Ends(moved, Some(z))
    {
      if z == x {
        MovedRowEnds(rel, x, y);
      } else {
        EndsAfterMove(rel, x, y, z, Depth(rel, Some(z)));
      }
    }
    AcyclicIffGrounded(moved);
  }

  lemma {:induction false} FirstMeeting(rel: Relation, x: Id, y: Id, n: nat) returns (k: nat)
    requires Up(rel, Some(y), n) == Some(x)
    ensures k <= n && Up(rel, Some(y), k) == Some(x) && forall m: nat :: m < k ==> Up(rel, Some(y), m) != Some(x)
  {
    if exists m: nat :: m < n && Up(rel, Some(y), m) == Some(x) {
      var m: nat :| m < n && Up(rel, Some(y), m) == Some(x);
      k := FirstMeeting(rel, x, y, m);
    } else {
      k := n;
    }
  }

  lemma MoveMakesCycle(rel: Relation, x: Id, y: Id)
    requires x == y || Above(rel, x, y)
    ensures !Acyclic(rel[x := Some(y)])
  {
    var moved := rel[x := Some(y)];
    assert Up(rel, Some(y), 0) == Some(y);
    var n: nat :| Up(rel, Some(y), n) == Some(x);
    var k := FirstMeeting(rel, x, y, n);
    WalkUnchanged(rel, x, Some(y), Some(y), k);
    assert Up(moved, Some(x), k + 1) == Some(x);
  }

  /** Putting x under y keeps the relation free of cycles exactly when they differ and isParent refuses. */
  lemma MoveIsSafeIff(rel: Relation, x: Id, y: Id)
    requires Closed(rel) && Acyclic(rel) && y in rel
    ensures Acyclic(rel[x := Some(y)]) <==> x != y && !IsParent(rel, x, y)
  {
    IsParentMeansAbove(rel, x, y);
    if x != y && !IsParent(rel, x, y) {
      MoveKeepsAcyclic(rel, x, y);
    } else {
      MoveMakesCycle(rel, x, y);
    }
  }

  // ---------- the tree view ----------

  /** A node of the view: the model of its rows, and whether they may be dragged. */
  datatype Node = Node(model: string, draggable: bool)

  /** Each node's rows are loaded under the rows of the node before it. With countOn a second node of the same model
      is loaded under itself. */
  datatype View = View(nodes: seq<Node>, countOn: bool)

  /** level is the node that a row belongs to; a folder may have rows under it. */
  datatype Row = Row(level: nat, folder: bool)

  /** table is the relation that the table keeps, records the one that is saved. */
  datatype Tree = Tree(table: Relation, records: Relation, rows: map<Id, Row>)

  const EMPTY_TREE := Tree(map[], map[], map[])

  ghost predicate WellFormed(tree: Tree) {
    && Closed(tree.table) && Acyclic(tree.table)
    && tree.records.Keys == tree.table.Keys && tree.rows.Keys == tree.table.Keys
  }

  /** Node.ancestors: the rows above y, the nearest first. */
  function Ancestors(rel: Relation, y: Id): seq<Id>
    requires Closed(rel) && Acyclic(rel) && y in rel
    decreases (AcyclicIffGrounded(rel); Depth(rel, Some(y)))
  {
    if rel[y].None? then []
    else
      ParentIsCloser(rel, y);
      [rel[y].value] + Ancestors(rel, rel[y].value)
  }

  lemma {:induction false} AncestorsAreParents(rel: Relation, x: Id, y: Id)
    requires Closed(rel) && Acyclic(rel) && y in rel
    ensures x in Ancestors(rel, y) <==> IsParent(rel, x, y)
    decreases (AcyclicIffGrounded(rel); Depth(rel, Some(y)))
  {
    if rel[y].Some? {
      ParentIsCloser(rel, y);
      AncestorsAreParents(rel, x, rel[y].value);
    }
  }

  /** The table's own move, which refuses what would put a row above itself. */
  function Move(table: Relation, x: Id, y: Id): Relation
    requires Closed(table) && Acyclic(table) && x in table && y in table
  {
    if x != y && table[x] != Some(y) && x !in Ancestors(table, y) then table[x := Some(y)] else table
  }

  lemma MoveKeepsTable(table: Relation, x: Id, y: Id)
    requires Closed(table) && Acyclic(table) && x in table && y in table
    ensures Closed(Move(table, x, y)) && Acyclic(Move(table, x, y)) && Move(table, x, y).Keys == table.Keys
    ensures x != y && !IsParent(table, x, y) ==> Move(table, x, y) == table[x := Some(y)]
  {
    AncestorsAreParents(table, x, y);
    MoveIsSafeIff(table, x, y);
  }

  /** onDrop: the table may refuse the move, the record gets its new parent all the same. */
  function OnDrop(tree: Tree, x: Id, y: Id): (dropped: Tree)
    requires WellFormed(tree) && x in tree.table && y in tree.table
    ensures WellFormed(dropped)
  {
    MoveKeepsTable(tree.table, x, y);
    tree.(table := Move(tree.table, x, y), records := tree.records[x := Some(y)])
  }

  /** A drop leaves the saved relation free of cycles exactly when the row is not dropped on itself or below itself. */
  lemma DropIsSafeIff(tree: Tree, x: Id, y: Id)
    requires WellFormed(tree) && tree.records == tree.table && x in tree.table && y in tree.table
    ensures var dropped := OnDrop(tree, x, y);
            && (Acyclic(dropped.records) <==> x != y && !IsParent(tree.table, x, y))
            && (dropped.records == dropped.table <==> x != y && !IsParent(tree.table, x, y))
  {
    MoveKeepsTable(tree.table, x, y);
    MoveIsSafeIff(tree.table, x, y);
  }

  // ---------- what may be dragged, and where it is accepted ----------

  predicate IsDraggable(view: View, level: nat) {
    level < |view.nodes| && view.nodes[level].draggable
  }

  predicate SomeDraggable(view: View) {
    exists i :: 0 <= i < |view.nodes| && view.nodes[i].draggable
  }

  predicate CanDrag(view: View, row: Row) {
    IsDraggable(view, row.level) || (view.countOn && SomeDraggable(view))
  }

  predicate CanDropOn(view: View, row: Row) {
    SomeDraggable(view) && (row.folder || view.countOn || row.level == 0)
  }

  /** Rows are dragged and dropped on only in a view with a draggable node: then rows of such a node are dragged, and
      top rows and folders are dropped on; where children are counted, all rows are both. */
  lemma {:induction false} WhatIsDragged(view: View, row: Row)
    ensures (forall i :: 0 <= i < |view.nodes| ==> !view.nodes[i].draggable)
            ==> !CanDrag(view, row) && !CanDropOn(view, row)
    ensures forall i :: 0 <= i < |view.nodes| && view.nodes[i].draggable ==>
              && (row.level == i ==> CanDrag(view, row))
              && (row.level == 0 || row.folder ==> CanDropOn(view, row))
              && (view.countOn ==> CanDrag(view, row) && CanDropOn(view, row))
    ensures !view.countOn && !(row.level < |view.nodes| && view.nodes[row.level].draggable) ==> !CanDrag(view, row)
    ensures !view.countOn && row.level > 0 && !row.folder ==> !CanDropOn(view, row)
  {
  }

  predicate SameModel(view: View, level: nat, other: nat) {
    level < |view.nodes| && other < |view.nodes| && view.nodes[level].model == view.nodes[other].model
  }

  /** The accept guard of a row that may be dropped on: the row must not be above it, or the models must agree. */
  predicate Accepts(view: View, tree: Tree, x: Id, y: Id)
    requires WellFormed(tree) && x in tree.table && y in tree.table
  {
    if view.countOn then !IsParent(tree.table, x, y)
    else tree.rows[x].level > 0 && SameModel(view, tree.rows[y].level, tree.rows[x].level - 1)
  }

  // ---------- runs ----------

  datatype Step =
    | Drop(row: Id, onto: Id)
    | Load(row: Id, parent: Option<Id>, folder: bool)

  /** The node whose rows are loaded under those of a level. */
  function LevelBelow(view: View, level: nat): nat {
    if view.countOn then 1 else level + 1
  }

  predicate HasBelow(view: View, level: nat) {
    LevelBelow(view, level) < |view.nodes|
  }

  /** Rows are never dropped on themselves; loaded rows are new. */
  predicate Possible(view: View, tree: Tree, step: Step)
    requires WellFormed(tree)
  {
    match step
    case Drop(x, y) =>
      && x in tree.table && y in tree.table && x != y
      && CanDrag(view, tree.rows[x]) && CanDropOn(view, tree.rows[y])
    case Load(x, parent, folder) =>
      && x !in tree.table
      && (parent.Some? ==> parent.value in tree.table && HasBelow(view, tree.rows[parent.value].level))
      && (folder ==> HasBelow(view, LevelOf(view, tree, parent)))
  }

  function LevelOf(view: View, tree: Tree, parent: Option<Id>): nat
    requires WellFormed(tree) && (parent.Some? ==> parent.value in tree.table)
  {
    if parent.None? then 0 else LevelBelow(view, tree.rows[parent.value].level)
  }

  /** A drop that is not accepted changes nothing. */
  function Take(view: View, tree: Tree, step: Step): (after: Tree)
    requires WellFormed(tree) && Possible(view, tree, step)
    ensures WellFormed(after)
  {
    match step
    case Drop(x, y) => if Accepts(view, tree, x, y) then OnDrop(tree, x, y) else tree
    case Load(x, parent, folder) =>
      NewRowKeepsAcyclic(tree.table, x, parent);
      Tree(tree.table[x := parent], tree.records[x := parent], tree.rows[x := Row(LevelOf(view, tree, parent), folder)])
  }

  /** A loaded row is at the top, one level below its parent, or, where children are counted, on the second level;
      no step changes the level of a row. */
  lemma {:induction false} LevelsOfRows(view: View, tree: Tree, step: Step)
    requires WellFormed(tree) && Possible(view, tree, step)
    ensures var after := Take(view, tree, step);
            forall x :: x in tree.rows ==> x in after.rows && after.rows[x] == tree.rows[x]
    ensures step.Load? ==>
              var row := Take(view, tree, step).rows[step.row];
              && row.folder == step.folder
              && row.level == if step.parent == None then 0
                              else if view.countOn then 1
                              else tree.rows[step.parent.value].level + 1
  {
  }

  lemma NewRowKeepsAcyclic(rel: Relation, x: Id, parent: Option<Id>)
    requires Closed(rel) && Acyclic(rel) && x !in rel && (parent.Some? ==> parent.value in rel)
    ensures Closed(rel[x := parent]) && Acyclic(rel[x := parent])
  {
    AcyclicIffGrounded(rel);
    forall y, n: nat | y in rel
      ensures Up(rel, Some(y), n) != Some(x)
    {
      StaysInside(rel, Some(y), n);
    }
    if parent.Some? {
      MoveKeepsAcyclic(rel, x, parent.value);
    } else {
      NewRootKeepsAcyclic(rel, x);
    }
  }

  lemma NewRootKeepsAcyclic(rel: Relation, x: Id)
    requires Closed(rel) && Acyclic(rel) && x !in rel
    requires forall y, n: nat :: y in rel ==> Up(rel, Some(y), n) != Some(x)
    ensures Acyclic(rel[x := None])
  {
    AcyclicIffGrounded(rel);
    forall y | y in rel[x := None]
      ensures Ends(rel[x := None], Some(y))
    {
      if y == x {
        assert Up(rel[x := None], Some(x), 1) == None;
      } else {
        WalkUnchanged(rel, x, None, Some(y), Depth(rel, Some(y)));
      }
    }
    AcyclicIffGrounded(rel[x := None]);
  }

  lemma {:induction false} StaysInside(rel: Relation, y: Option<Id>, n: nat)
    requires Closed(rel) && (y.Some? ==> y.value in rel)
    ensures Up(rel, y, n).Some? ==> Up(rel, y, n).value in rel
    decreases n
  {
    if n > 0 && y.Some? {
      StaysInside(rel, rel[y.value], n - 1);
    }
  }

  predicate Legal(view: View, tree: Tree, steps: seq<Step>)
    requires WellFormed(tree)
    decreases |steps|
  {
    steps == [] || (Possible(view, tree, steps[0]) && Legal(view, Take(view, tree, steps[0]), steps[1..]))
  }

  function Run(view: View, tree: Tree, steps: seq<Step>): (after: Tree)
    requires WellFormed(tree) && Legal(view, tree, steps)
    ensures WellFormed(after)
    decreases |steps|
  {
    if steps == [] then tree else Run(view, Take(view, tree, steps[0]), steps[1..])
  }

  /** A drop that the isParent guard accepts puts the row, and no other, under its new parent, in both relations. */
  lemma AcceptedDropMoves(view: View, tree: Tree, x: Id, y: Id)
    requires WellFormed(tree) && tree.records == tree.table && x in tree.table && y in tree.table
    requires view.countOn && x != y && Accepts(view, tree, x, y)
    ensures var dropped := OnDrop(tree, x, y);
            && dropped.table == dropped.records && dropped.rows == tree.rows
            && dropped.table.Keys == tree.table.Keys
            && forall z :: z in tree.table ==> dropped.table[z] == if z == x then Some(y) else tree.table[z]
  {
    MoveKeepsTable(tree.table, x, y);
  }

  /** Trees that count their children: with the isParent guard every run keeps the saved relation equal to
      the table's, and so free of cycles. */
  lemma {:induction false} GuardedRunsStayAcyclic(view: View, tree: Tree, steps: seq<Step>)
    requires view.countOn && WellFormed(tree) && tree.records == tree.table && Legal(view, tree, steps)
    ensures var end := Run(view, tree, steps); end.records == end.table && Acyclic(end.records)
    decreases |steps|
  {
    if steps != [] {
      if steps[0].Drop? && Accepts(view, tree, steps[0].row, steps[0].onto) {
        DropIsSafeIff(tree, steps[0].row, steps[0].onto);
      }
      GuardedRunsStayAcyclic(view, Take(view, tree, steps[0]), steps[1..]);
    }
  }

  // ---------- trees whose rows are compared by model ----------

  /** Draggable rows of level l find rows with rows below them, on their own level or a deeper one t, that have the
      model of the level above them. */
  predicate IsRisky(view: View, l: nat, t: nat) {
    0 < l <= t && t + 1 < |view.nodes| && IsDraggable(view, l) && SameModel(view, t, l - 1)
  }

  ghost predicate SafeNodes(view: View) {
    forall l: nat, t: nat :: !IsRisky(view, l, t)
  }

  /** Every row lies under a row of a higher level, and rows with others below them belong to a node that is not
      the last. */
  ghost predicate Descends(view: View, tree: Tree) {
    && WellFormed(tree) && tree.records == tree.table
    && (forall x :: x in tree.table && tree.table[x].Some?
          ==> tree.rows[tree.table[x].value].level < tree.rows[x].level)
    && (forall x :: x in tree.table && tree.rows[x].folder ==> tree.rows[x].level + 1 < |view.nodes|)
  }

  lemma {:induction false} AboveIsHigher(view: View, tree: Tree, x: Id, y: Id, n: nat)
    requires Descends(view, tree) && y in tree.table && n > 0
    requires Up(tree.table, Some(y), n) == Some(x)
    ensures x in tree.rows && tree.rows[x].level < tree.rows[y].level
    decreases n
  {
    var p := tree.table[y].value;
    if n > 1 {
      AboveIsHigher(view, tree, x, p, n - 1);
    }
  }

  lemma HigherIsNotBelow(view: View, tree: Tree, x: Id, y: Id)
    requires Descends(view, tree) && x in tree.table && y in tree.table
    requires tree.rows[y].level < tree.rows[x].level
    ensures !IsParent(tree.table, x, y)
  {
    IsParentMeansAbove(tree.table, x, y);
    if Above(tree.table, x, y) {
      var n: nat :| n > 0 && Up(tree.table, Some(y), n) == Some(x);
      AboveIsHigher(view, tree, x, y, n);
    }
  }

  lemma SafeDrop(view: View, tree: Tree, x: Id, y: Id)
    requires !view.countOn && SafeNodes(view) && Descends(view, tree)
    requires Possible(view, tree, Drop(x, y)) && Accepts(view, tree, x, y)
    ensures Descends(view, OnDrop(tree, x, y))
  {
    assert !IsRisky(view, tree.rows[x].level, tree.rows[y].level);
    HigherIsNotBelow(view, tree, x, y);
    MoveKeepsTable(tree.table, x, y);
  }

  lemma {:induction false} SafeRunsDescend(view: View, tree: Tree, steps: seq<Step>)
    requires !view.countOn && SafeNodes(view) && Descends(view, tree) && Legal(view, tree, steps)
    ensures Descends(view, Run(view, tree, steps))
    decreases |steps|
  {
    if steps != [] {
      if steps[0].Drop? && Accepts(view, tree, steps[0].row, steps[0].onto) {
        SafeDrop(view, tree, steps[0].row, steps[0].onto);
      }
      SafeRunsDescend(view, Take(view, tree, steps[0]), steps[1..]);
    }
  }

  // ---------- a run to a cycle ----------

  ghost predicate Reaches(view: View, tree: Tree) {
    exists steps :: WellFormed(EMPTY_TREE) && Legal(view, EMPTY_TREE, steps) && Run(view, EMPTY_TREE, steps) == tree
  }

  lemma {:induction false} RunSnoc(view: View, tree: Tree, steps: seq<Step>, step: Step)
    requires WellFormed(tree) && Legal(view, tree, steps) && Possible(view, Run(view, tree, steps), step)
    ensures Legal(view, tree, steps + [step])
    ensures Run(view, tree, steps + [step]) == Take(view, Run(view, tree, steps), step)
    decreases |steps|
  {
    if steps == [] {
      assert [] + [step] == [step] && [step][1..] == [];
    } else {
      assert (steps + [step])[1..] == steps[1..] + [step];
      RunSnoc(view, Take(view, tree, steps[0]), steps[1..], step);
    }
  }

  lemma ReachesThen(view: View, tree: Tree, step: Step)
    requires Reaches(view, tree) && WellFormed(tree) && Possible(view, tree, step)
    ensures Reaches(view, Take(view, tree, step))
  {
    var steps :| WellFormed(EMPTY_TREE) && Legal(view, EMPTY_TREE, steps) && Run(view, EMPTY_TREE, steps) == tree;
    RunSnoc(view, EMPTY_TREE, steps, step);
    assert Run(view, EMPTY_TREE, steps + [step]) == Take(view, tree, step);
  }

  function ParentInChain(i: nat): Option<Id> {
    if i == 0 then None else Some(i - 1)
  }

  /** One row of each of the first n levels, each under the one before. */
  ghost predicate IsChain(tree: Tree, n: nat) {
    && tree.records == tree.table && tree.rows.Keys == tree.table.Keys
    && (forall i: nat :: i in tree.table <==> i < n)
    && (forall i: nat :: i < n ==> InChain(tree, i))
  }

  predicate InChain(tree: Tree, i: nat) {
    i in tree.table && i in tree.rows && tree.table[i] == ParentInChain(i) && tree.rows[i] == Row(i, true)
  }

  lemma ChainLoads(view: View, tree: Tree, n: nat)
    requires !view.countOn && n + 1 < |view.nodes| && IsChain(tree, n) && WellFormed(tree)
    ensures Possible(view, tree, Load(n, ParentInChain(n), true))
    ensures IsChain(Take(view, tree, Load(n, ParentInChain(n), true)), n + 1)
  {
    assert n > 0 ==> InChain(tree, n - 1);
    var longer := Take(view, tree, Load(n, ParentInChain(n), true));
    forall i: nat | i < n + 1
      ensures InChain(longer, i)
    {
      assert i < n ==> InChain(tree, i);
    }
  }

  lemma {:induction false} ChainIsReached(view: View, n: nat) returns (tree: Tree)
    requires !view.countOn && (n == 0 || n < |view.nodes|)
    ensures WellFormed(tree) && IsChain(tree, n) && Reaches(view, tree)
  {
    if n == 0 {
      tree := EMPTY_TREE;
      assert Legal(view, EMPTY_TREE, []) && Run(view, EMPTY_TREE, []) == EMPTY_TREE;
    } else {
      var shorter := ChainIsReached(view, n - 1);
      var load := Load(n - 1, ParentInChain(n - 1), true);
      ChainLoads(view, shorter, n - 1);
      ReachesThen(view, shorter, load);
      tree := Take(view, shorter, load);
    }
  }

  lemma {:induction false} ChainUp(tree: Tree, n: nat, i: nat, k: nat)
    requires IsChain(tree, n) && k <= i < n
    ensures Up(tree.table, Some(i), k) == Some(i - k)
    decreases k
  {
    if k > 0 {
      assert InChain(tree, i);
      ChainUp(tree, n, i - 1, k - 1);
    }
  }

  lemma ReachesDrop(view: View, tree: Tree, x: Id, y: Id)
    requires Reaches(view, tree) && WellFormed(tree) && Possible(view, tree, Drop(x, y)) && Accepts(view, tree, x, y)
    ensures Reaches(view, OnDrop(tree, x, y))
  {
    ReachesThen(view, tree, Drop(x, y));
  }

  /** A row is dropped on a deeper one of its own branch. */
  lemma DeeperDropMakesCycle(view: View, l: nat, t: nat) returns (tree: Tree)
    requires !view.countOn && IsRisky(view, l, t) && l < t
    ensures Reaches(view, tree) && !Acyclic(tree.records)
  {
    var chain := ChainIsReached(view, t + 1);
    assert InChain(chain, l) && InChain(chain, t);
    ReachesDrop(view, chain, l, t);
    tree := OnDrop(chain, l, t);
    ChainUp(chain, t + 1, t, t - l);
    MoveMakesCycle(chain.records, l, t);
  }

  /** Two rows under one parent are dropped on each other. */
  lemma SiblingsMakeCycle(view: View, l: nat) returns (tree: Tree)
    requires !view.countOn && IsRisky(view, l, l)
    ensures Reaches(view, tree) && !Acyclic(tree.records)
  {
    var chain := ChainIsReached(view, l + 1);
    assert InChain(chain, l) && InChain(chain, l - 1);
    var load := Load(l + 1, Some(l - 1), true);
    ReachesThen(view, chain, load);
    tree := DropOnEachOther(view, Take(view, chain, load), l, l + 1);
  }

  lemma DropOnEachOther(view: View, pair: Tree, x: Id, y: Id) returns (tree: Tree)
    requires Reaches(view, pair) && WellFormed(pair) && !view.countOn
    requires x != y && x in pair.table && y in pair.table && pair.rows[x] == pair.rows[y]
    requires Possible(view, pair, Drop(x, y)) && Accepts(view, pair, x, y)
    ensures Reaches(view, tree) && !Acyclic(tree.records)
  {
    ReachesDrop(view, pair, x, y);
    var first := OnDrop(pair, x, y);
    ReachesDrop(view, first, y, x);
    tree := OnDrop(first, y, x);
    assert Up(tree.records, Some(x), 1) == Some(y);
    assert Up(tree.records, Some(x), 2) == Some(x);
  }

  /** In trees compared by model: every run from the empty tree leaves the saved relation free of cycles, exactly
      when the nodes are safe. */
  lemma ModelRunsStayAcyclicIff(view: View)
    requires !view.countOn
    ensures (forall tree :: Reaches(view, tree) ==> Acyclic(tree.records)) <==> SafeNodes(view)
  {
    if SafeNodes(view) {
      forall tree | Reaches(view, tree)
        ensures Acyclic(tree.records)
      {
        var steps :| WellFormed(EMPTY_TREE) && Legal(view, EMPTY_TREE, steps) && Run(view, EMPTY_TREE, steps) == tree;
        SafeRunsDescend(view, EMPTY_TREE, steps);
      }
    } else {
      var l: nat, t: nat :| IsRisky(view, l, t);
      var tree;
      if l < t {
        tree := DeeperDropMakesCycle(view, l, t);
      } else {
        tree := SiblingsMakeCycle(view, l);
      }
    }
  }

  /** Then it is also the table's relation; models that differ on all levels but the last are safe. */
  lemma SafeRunsAgree(view: View, steps: seq<Step>)
    requires !view.countOn && WellFormed(EMPTY_TREE) && Legal(view, EMPTY_TREE, steps)
    requires forall i, j :: 0 <= i < j < |view.nodes| - 1 ==> view.nodes[i].model != view.nodes[j].model
    ensures var end := Run(view, EMPTY_TREE, steps); end.records == end.table && Acyclic(end.records)
  {
    SafeRunsDescend(view, EMPTY_TREE, steps);
  }
}
