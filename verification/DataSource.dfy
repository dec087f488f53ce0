/** DataSource as an object: its page and its records are updated in place. */
module DataSources {
  import opened Text
  import opened Paging

  /** The data source of a form view, over a list that does not change meanwhile. */
  class DataSource {
    const list: seq<Record>  // what the server has
    var data: seq<Record>
    var page: Page

    ghost function State(): Source
      reads this
    {
      Source(data, page)
    }

    constructor (list: seq<Record>, limit: nat)
      ensures this.list == list && data == [] && page == Page(0, 0, 0, 0, 0, limit)
    {
      this.list := list;
      data := [];
      page := Page(0, 0, 0, 0, 0, limit);
    }

    method AcceptAll(records: seq<Record>, offset: nat, total: nat)
      modifies this
      ensures data == records
      ensures page == Page(old(page).index, offset, offset + |records|, |records|, total, old(page).limit)
    {
      data := [];
      for i := 0 to |records|
        invariant data == records[..i] && page == old(page)
      {
        data := data + [records[i]];
      }
      page := page.(from := offset, to := offset + |records|, total := total, size := |records|);
    }

    method Search(offset: nat)
      modifies this
      ensures State() == Paging.Search(list, old(State()), offset)
    {
      AcceptAll(Slice(list, offset, page.limit), offset, |list|);
      page := page.(index := -1);
    }

    method Next()
      modifies this
      ensures State() == Paging.Next(list, old(State()))
    {
      Search(page.from + page.limit);
    }

    method Prev()
      modifies this
      ensures State() == Paging.Prev(list, old(State()))
    {
      Search(if page.from < page.limit then 0 else page.from - page.limit);
    }

    method At(index: int) returns (record: Option<Record>)
      ensures record == State().At(index)
    {
      record := if 0 <= index < |data| then Some(data[index]) else None;
    }

    method NextItem() returns (record: Option<Record>)
      modifies this
      ensures (State(), record) == Paging.NextItem(list, old(State()))
    {
      var index := page.index + 1;
      record := At(index);
      if index < page.size {
        page := page.(index := index);
        return;
      }
      Next();
      page := page.(index := 0);
      record := At(0);
    }

    method PrevItem() returns (record: Option<Record>)
      modifies this
      ensures (State(), record) == Paging.PrevItem(list, old(State()))
    {
      var index := page.index - 1;
      record := At(index);
      if index > -1 {
        page := page.(index := index);
        return;
      }
      Prev();
      page := page.(index := page.size - 1);
      record := At(page.index);
    }

    method FixPage()
      requires page.limit > 0
      modifies this
      ensures State() == Paging.FixPage(list, old(State()))
    {
      if page.from >= page.total {
        LastPageIsLast(page.total, page.limit);
        var from := page.total - page.total % page.limit;
        from := if from == page.total then from - page.limit else from;
        from := if from < 0 then 0 else from;
        page := page.(from := from);
        page := page.(to := Min(page.from + page.limit, page.total));
        Search(page.from);
      }
    }

    method Accept(record: Record)
      modifies this
      ensures State() == AcceptOne(old(State()), record)
    {
      var index := IndexOfId(data, record.id);
      if index.Some? {
        data := data[index.value := Merged(data[index.value], record)];
      } else {
        data := data + [record];
        page := page.(total := page.total + 1, size := page.size + 1);
        page := page.(index := page.size - 1);
      }
    }

    /** Stepping through the records while there is a next one visits every record once, in order. */
    method VisitAll() returns (visited: seq<Record>)
      requires page.limit > 0
      modifies this
      ensures visited == list
    {
      visited := [];
      VisitStarts(list, State());
      Search(0);
      while page.index < page.size - 1 || page.from + page.index < page.total - 1
        invariant VisitedSoFar(list, State(), visited)
        decreases |list| - |visited|
      {
        VisitGoesOn(list, State(), visited);
        NextItemIsTheNext(list, State());
        var record := NextItem();
        visited := visited + [record.value];
      }
      VisitEnds(list, State(), visited);
    }
  }
}
