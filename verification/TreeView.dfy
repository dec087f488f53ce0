/** The tree view as it runs: drops change the table's relation and the records in place. */
module TreeViews {
  import opened Text
  import opened TreeMoves

  class TreeView {
    const view: View
    var table: Relation
    var records: Relation
    var rows: map<Id, Row>

    ghost function State(): Tree
      reads this
    {
      Tree(table, records, rows)
    }

    constructor (view: View)
      ensures this.view == view && State() == EMPTY_TREE
    {
      this.view := view;
      table, records, rows := map[], map[], map[];
    }

    /** Node.ancestors: climbs from row y and collects the rows that it meets. */
    method CollectAncestors(y: Id) returns (ancestors: seq<Id>)
      requires WellFormed(State()) && y in table
      ensures ancestors == Ancestors(table, y)
    {
      ancestors := [];
      var node := y;
      AcyclicIffGrounded(table);
      while table[node].Some?
        invariant node in table
        invariant ancestors + Ancestors(table, node) == Ancestors(table, y)
        decreases Depth(table, Some(node))
      {
        ParentIsCloser(table, node);
        node := table[node].value;
        ancestors := ancestors + [node];
      }
    }

    /** What happens when row x is released over row y. */
    method Release(x: Id, y: Id)
      requires WellFormed(State()) && Possible(view, State(), Drop(x, y))
      modifies this
      ensures State() == Take(view, old(State()), Drop(x, y))
    {
      var accepted :=
        if view.countOn then !IsParent(table, x, y)
        else rows[x].level > 0 && SameModel(view, rows[y].level, rows[x].level - 1);
      if accepted {
        OnDrop(x, y);
      }
    }

    method OnDrop(x: Id, y: Id)
      requires WellFormed(State()) && x in table && y in table
      modifies this
      ensures State() == TreeMoves.OnDrop(old(State()), x, y)
    {
      var ancestors := CollectAncestors(y);
      if x != y && table[x] != Some(y) && x !in ancestors {
        table := table[x := Some(y)];
      }
      records := records[x := Some(y)];
    }
  }
}
