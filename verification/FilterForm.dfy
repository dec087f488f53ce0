/** The search form as it runs: the list of filter rows is emptied, pushed to and spliced in place. */
module FilterForms {
  import opened Text
  import opened SearchFilters

  class FilterForm {
    const fields: Fields
    var filters: seq<Filter>
    var operator: string
    var showArchived: bool

    constructor (fields: Fields)
      ensures this.fields == fields && operator == "and" && !showArchived
      ensures filters == [Filter("", "", "", Missing, Missing, "")]
    {
      this.fields := fields;
      filters, operator, showArchived := [BLANK], "and", false;
    }

    method AddFilter(filter: Option<Filter>)
      modifies this`filters
      ensures filters == SearchFilters.AddFilter(old(filters), if filter.Some? then filter.value else BLANK)
    {
      if filters != [] {
        var last := filters[|filters| - 1];
        if !(last.field != "" && last.operator != "") {
          return;
        }
      }
      filters := filters + [if filter.Some? then filter.value else BLANK];
    }

    /** select, after the form was emptied. */
    method Select(custom: Criteria)
      modifies this
      ensures filters == SearchFilters.Select(fields, custom.criteria)
      ensures operator == LoadedOperator(custom) && showArchived == old(showArchived)
    {
      filters := [];
      operator := if custom.operator == "" then "and" else custom.operator;
      var i := 0;
      while i < |custom.criteria|
        invariant 0 <= i <= |custom.criteria|
        invariant AddAll(filters, AllLoaded(fields, custom.criteria[i..]))
               == SearchFilters.Select(fields, custom.criteria)
        invariant operator == LoadedOperator(custom) && showArchived == old(showArchived)
      {
        ghost var rest := custom.criteria[i..];
        assert rest[1..] == custom.criteria[i + 1..] && rest[0] == custom.criteria[i];
        ghost var rows := AllLoaded(fields, rest);
        assert rows[0] == Loaded(fields, rest[0]) && rows[1..] == AllLoaded(fields, rest[1..]);
        AddFilter(Some(Loaded(fields, custom.criteria[i])));
        i := i + 1;
      }
      assert AllLoaded(fields, custom.criteria[i..]) == [];
    }

    /** prepareFilter. */
    method PrepareFilter() returns (criteria: Criteria)
      ensures criteria == SearchFilters.PrepareFilter(showArchived, operator, filters)
    {
      var prepared := [];
      var i := 0;
      while i < |filters|
        invariant 0 <= i <= |filters|
        invariant prepared == Prepare(filters[..i])
      {
        var filter := filters[i];
        PrepareSnoc(filters[..i], filter);
        assert filters[..i + 1] == filters[..i] + [filter];
        if filter.field != "" && filter.operator != "" {
          prepared := prepared + [Saved(filter)];
        }
        i := i + 1;
      }
      assert filters[..i] == filters;
      criteria := Criteria(showArchived, operator, prepared);
    }

    /** Saving a search, choosing it and saving it again. */
    method SaveChooseSave() returns (first: Criteria, second: Criteria)
      requires Proper(fields, filters) && operator != ""
      modifies this
      ensures first == old(SearchFilters.PrepareFilter(showArchived, operator, filters))
      ensures second == first <==> old(StaysAsked(fields, filters))
    {
      SaveLoadSaveIff(fields, showArchived, operator, filters);
      first := PrepareFilter();
      Select(first);
      second := PrepareFilter();
    }
  }
}
