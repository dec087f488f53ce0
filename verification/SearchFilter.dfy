/** Search filters: the rows that the user fills in, the criteria that are saved, and loading them again. */
module SearchFilters {
  import opened Text

  /** A value as it is stored; dates are among the other ones. */
  datatype Value = Missing | Bool(flag: bool) | Other(data: string)

  /** What is absent of a field's type or target name is "". */
  datatype Field = Field(fieldType: string, targetName: string, selection: bool)
  type Fields = map<string, Field>

  /** A filter row; an empty field or operator is one that was not chosen. */
  datatype Filter = Filter(field: string, filterType: string, operator: string, value: Value, value2: Value,
                           targetName: string)

  datatype Criterion =
    | Simple(fieldName: string, operator: string, value: Value, value2: Option<Value>)
    | Or(parts: seq<Criterion>)

  datatype Criteria = Criteria(archived: bool, operator: string, criteria: seq<Criterion>)

  const BLANK := Filter("", "", "", Missing, Missing, "")

  function Lookup(fields: Fields, name: string): Field {
    if name in fields then fields[name] else Field("", "", false)
  }

  function TypeOf(field: Field): string {
    if field.fieldType == "" then "string" else field.fieldType
  }

  predicate Contains(s: string, part: string) {
    StartsWith(s, part) || (s != [] && Contains(s[1..], part))
  }

  predicate IsMany(filterType: string) {
    Contains(filterType, "-many")
  }

  function TargetOf(field: Field): string {
    if field.fieldType == "many-to-one" || field.fieldType == "one-to-one" then field.targetName else ""
  }

  /** onFieldChange: the type and target of a row follow its field. */
  function OnFieldChange(fields: Fields, filter: Filter): Filter {
    var field := Lookup(fields, filter.field);
    filter.(filterType := if field.selection then "selection" else TypeOf(field), targetName := TargetOf(field))
  }

  lemma {:induction false} ContainsIff(s: string, part: string)
    ensures Contains(s, part) <==> exists i :: 0 <= i <= |s| && part <= s[i..]
  {
    assert s[0..] == s;
    if s != "" {
      ContainsIff(s[1..], part);
      assert forall i :: 0 < i <= |s| ==> s[i..] == s[1..][i - 1..];
      if i :| 0 <= i <= |s[1..]| && part <= s[1..][i..] {
        assert part <= s[i + 1..];
      }
      if i :| 0 < i <= |s| && part <= s[i..] {
        assert part <= s[1..][i - 1..];
      }
    }
  }

  /** The type that a field has for the form; one that is not known, or that tells none, is a string. */
  ghost predicate HasType(fields: Fields, name: string, fieldType: string) {
    if name in fields && fields[name].fieldType != "" then fieldType == fields[name].fieldType
    else fieldType == "string"
  }

  /** The named field of its target, of which only a field that leads to one record has one. */
  ghost predicate HasTarget(fields: Fields, name: string, target: string) {
    if name in fields && fields[name].fieldType in {"many-to-one", "one-to-one"} then target == fields[name].targetName
    else target == ""
  }

  /** What a row becomes when its field is chosen: a selection asks as such, any other field by its type. */
  lemma {:induction false} ChosenRow(fields: Fields, filter: Filter)
    ensures var row := OnFieldChange(fields, filter);
            && HasTarget(fields, filter.field, row.targetName)
            && (if filter.field in fields && fields[filter.field].selection then row.filterType == "selection"
                else HasType(fields, filter.field, row.filterType))
            && row.(filterType := filter.filterType, targetName := filter.targetName) == filter
  {
  }

  // ---------- saving ----------

  predicate Complete(filter: Filter) {
    filter.field != "" && filter.operator != ""
  }

  /** What is added to the name of the field. */
  function Suffix(targetName: string, many: bool): (r: string)
    ensures r == "" || r[0] == '.'
  {
    (if targetName != "" then "." + targetName else "") + if many then ".id" else ""
  }

  function IsFalse(name: string): Criterion {
    Or([Simple(name, "=", Bool(false), None), Simple(name, "isNull", Missing, None)])
  }

  predicate IsRange(operator: string) {
    operator == "between" || operator == "notBetween"
  }

  /** The criterion of one complete row. */
  function Saved(filter: Filter): Criterion {
    if filter.operator == "false" then IsFalse(filter.field)
    else
      var isTrue := filter.operator == "true";
      Simple(filter.field + Suffix(filter.targetName, IsMany(filter.filterType)),
             if isTrue then "=" else filter.operator,
             if isTrue then Bool(true) else filter.value,
             if IsRange(filter.operator) then Some(filter.value2) else None)
  }

  /** prepareFilter skips the rows that are not complete. */
  function Prepared(filter: Filter): seq<Criterion> {
    if Complete(filter) then [Saved(filter)] else []
  }

  function Prepare(filters: seq<Filter>): seq<Criterion> {
    if filters == [] then [] else Prepared(filters[0]) + Prepare(filters[1..])
  }

  lemma {:induction false} PrepareSnoc(filters: seq<Filter>, filter: Filter)
    ensures Prepare(filters + [filter]) == Prepare(filters) + Prepared(filter)
  {
    if filters == [] {
      assert Prepare(([] + [filter])[1..]) == [];
    } else {
      assert (filters + [filter])[1..] == filters[1..] + [filter];
      PrepareSnoc(filters[1..], filter);
      ConcatIsAssociative(Prepared(filters[0]), Prepare(filters[1..]), Prepared(filter));
    }
  }

  // ---------- loading ----------

  /** addFilter does nothing while the last row is not complete. */
  function AddFilter(filters: seq<Filter>, filter: Filter): seq<Filter> {
    if filters != [] && !Complete(filters[|filters| - 1]) then filters else filters + [filter]
  }

  function UpToDot(name: string): string {
    var at := IndexOf(name, '.');
    if at.Some? then name[..at.value] else name
  }

  /** The row that select makes of a saved criterion; one that holds others has no field name. */
  function Loaded(fields: Fields, c: Criterion): Filter {
    var name := if c.Simple? then UpToDot(c.fieldName) else "";
    var field := Lookup(fields, name);
    var operator := if c.Or? then "or" else if c.operator == "=" && c.value == Bool(true) then "true"
                    else if c.operator == "=" && c.value == Bool(false) then "false" else c.operator;
    Filter(name, TypeOf(field), operator, if c.Simple? then c.value else Missing,
           if c.Simple? && c.value2.Some? then c.value2.value else Missing, TargetOf(field))
  }

  /** The row of a saved criterion: the field up to the dot with its type and target, and the operator and values as
      they were saved, but for is true and is false; a criterion that holds others makes a row without a field. */
  lemma {:induction false} LoadedRow(fields: Fields, c: Criterion)
    ensures var row := Loaded(fields, c);
            && HasType(fields, row.field, row.filterType) && HasTarget(fields, row.field, row.targetName)
            && (c.Or? ==> row.field == "" && row.operator == "or")
            && (c.Simple? ==>
                  && row.field <= c.fieldName && '.' !in row.field
                  && (row.field == c.fieldName || c.fieldName[|row.field|] == '.')
                  && row.value == c.value && row.value2 == (if c.value2.Some? then c.value2.value else Missing)
                  && row.operator == if c.operator == "=" && c.value == Bool(true) then "true"
                                     else if c.operator == "=" && c.value == Bool(false) then "false" else c.operator)
  {
  }

  /** A blank row is never saved, and a search without an operator joins its criteria by and. */
  lemma {:induction false} Defaults(filters: seq<Filter>, criteria: Criteria)
    ensures Prepare(filters + [BLANK]) == Prepare(filters)
    ensures LoadedOperator(criteria) == if criteria.operator == "" then "and" else criteria.operator
  {
    PrepareSnoc(filters, BLANK);
  }

  function AllLoaded(fields: Fields, criteria: seq<Criterion>): seq<Filter> {
    if criteria == [] then [] else [Loaded(fields, criteria[0])] + AllLoaded(fields, criteria[1..])
  }

  function AddAll(filters: seq<Filter>, rows: seq<Filter>): seq<Filter>
    decreases |rows|
  {
    if rows == [] then filters else AddAll(AddFilter(filters, rows[0]), rows[1..])
  }

  /** select empties the form and adds the rows of the criteria one after the other. */
  function Select(fields: Fields, criteria: seq<Criterion>): seq<Filter> {
    AddAll([], AllLoaded(fields, criteria))
  }

  // ---------- what saved criteria look like ----------

  /** A row as the form makes it: its target is that of its field, and its type too, unless that is a selection. */
  predicate FromForm(fields: Fields, filter: Filter) {
    var field := Lookup(fields, filter.field);
    && filter.targetName == TargetOf(field)
    && (filter.filterType == TypeOf(field) || (field.selection && filter.filterType == "selection"))
  }

  /** The row of a selection over many records: loading it gives it the type of its field. */
  predicate GainsId(fields: Fields, filter: Filter) {
    IsMany(TypeOf(Lookup(fields, filter.field))) && !IsMany(filter.filterType)
  }

  lemma {:induction false} NoDashNoMany(s: string)
    requires '-' !in s
    ensures !IsMany(s)
  {
    if s != [] {
      assert "-many"[0] == '-';
      NoDashNoMany(s[1..]);
    }
  }

  /** Choosing a field makes such a row; the saved name can change later exactly for a selection over many records. */
  lemma OnFieldChangeFits(fields: Fields, filter: Filter)
    ensures var (field, row) := (Lookup(fields, filter.field), OnFieldChange(fields, filter));
            FromForm(fields, row) && (GainsId(fields, row) <==> field.selection && IsMany(TypeOf(field)))
  {
    NoDashNoMany("selection");
  }

  /** Loading makes such a row as well. */
  lemma LoadedFits(fields: Fields, c: Criterion)
    ensures FromForm(fields, Loaded(fields, c)) && !GainsId(fields, Loaded(fields, c))
  {
  }

  /** A criterion as complete rows of undotted fields are saved. */
  predicate WellSaved(c: Criterion) {
    c.Simple? ==>
      && UpToDot(c.fieldName) != ""
      && c.operator != "" && c.operator != "true" && c.operator != "false"
      && (c.value2.Some? <==> IsRange(c.operator))
  }

  lemma {:induction false} IndexOfFirst(s: string, c: char, k: nat)
    requires k < |s| && s[k] == c && c !in s[..k]
    ensures IndexOf(s, c) == Some(k)
  {
    if k > 0 {
      assert s[..k] == [s[0]] + s[1..][..k - 1];
      IndexOfFirst(s[1..], c, k - 1);
    }
  }

  lemma UpToDotOf(name: string, rest: string)
    requires '.' !in name && (rest == "" || rest[0] == '.')
    ensures UpToDot(name + rest) == name
  {
    assert (name + rest)[..|name|] == name;
    if rest != "" {
      IndexOfFirst(name + rest, '.', |name|);
    } else {
      assert name + rest == name;
    }
  }

  lemma SavedName(f: Filter)
    requires '.' !in f.field
    ensures UpToDot(f.field + Suffix(f.targetName, IsMany(f.filterType))) == f.field
  {
    UpToDotOf(f.field, Suffix(f.targetName, IsMany(f.filterType)));
  }

  lemma SavedIsWellSaved(filter: Filter)
    requires Complete(filter) && '.' !in filter.field
    ensures WellSaved(Saved(filter))
  {
    SavedName(filter);
  }

  ghost predicate AllWellSaved(criteria: seq<Criterion>) {
    forall c :: c in criteria ==> WellSaved(c)
  }

  /** The rows of a filter form, for fields whose names hold no dot. */
  ghost predicate Proper(fields: Fields, filters: seq<Filter>) {
    forall f :: f in filters && Complete(f) ==> FromForm(fields, f) && '.' !in f.field
  }

  lemma {:induction false} PrepareIsWellSaved(fields: Fields, filters: seq<Filter>)
    requires Proper(fields, filters)
    ensures AllWellSaved(Prepare(filters))
  {
    if filters != [] {
      PrepareIsWellSaved(fields, filters[1..]);
      if Complete(filters[0]) {
        SavedIsWellSaved(filters[0]);
      }
    }
  }

  /** Two complete rows ask the same: the same field, of the same kind, and the same operator and values, where
      = true and the operator true are one question, and the second value counts for ranges only. */
  predicate SameQuestion(f: Filter, g: Filter) {
    && f.field == g.field
    && (f.operator == "false" <==> g.operator == "false")
    && (f.operator != "false" ==>
          && (AsksTrue(f) <==> AsksTrue(g)) && (IsMany(f.filterType) <==> IsMany(g.filterType))
          && (!AsksTrue(f) ==> f.operator == g.operator && f.value == g.value)
          && (IsRange(f.operator) ==> f.value2 == g.value2))
  }

  predicate AsksTrue(f: Filter) {
    f.operator == "true" || (f.operator == "=" && f.value == Bool(true))
  }

  lemma FalseTellsField(name: string, other: string)
    requires IsFalse(name) == IsFalse(other)
    ensures name == other
  {
    assert IsFalse(name).parts[0].fieldName == IsFalse(other).parts[0].fieldName;
  }

  lemma SavedTellsField(f: Filter, g: Filter)
    requires '.' !in f.field && '.' !in g.field && Saved(f) == Saved(g)
    ensures f.field == g.field
  {
    if f.operator == "false" {
      FalseTellsField(f.field, g.field);
    } else {
      SavedName(f);
      SavedName(g);
    }
  }

  lemma SuffixTellsMany(name: string, targetName: string, many: bool, other: bool)
    ensures name + Suffix(targetName, many) == name + Suffix(targetName, other) <==> many == other
  {
    assert |Suffix(targetName, true)| == |Suffix(targetName, false)| + 3;
  }

  /** What is saved tells the questions apart. */
  lemma SavedTellsQuestions(fields: Fields, f: Filter, g: Filter)
    requires FromForm(fields, f) && FromForm(fields, g) && '.' !in f.field && '.' !in g.field
    ensures Saved(f) == Saved(g) <==> SameQuestion(f, g)
  {
    if Saved(f) == Saved(g) {
      SavedTellsField(f, g);
    }
    SuffixTellsMany(f.field, f.targetName, IsMany(f.filterType), IsMany(g.filterType));
  }

  // ---------- loading and saving again ----------

  /** What becomes of a criterion that is loaded and saved again: its name follows the field once more. */
  function Resaved(fields: Fields, c: Criterion): Criterion {
    if c.Or? then c
    else
      var name := UpToDot(c.fieldName);
      var field := Lookup(fields, name);
      if c.operator == "=" && c.value == Bool(false) then IsFalse(name)
      else c.(fieldName := name + Suffix(TargetOf(field), IsMany(TypeOf(field))))
  }

  /** Loading stops after the first criterion that holds others, which is itself not saved again. */
  function AllResaved(fields: Fields, criteria: seq<Criterion>): seq<Criterion> {
    if criteria == [] || criteria[0].Or? then [] else [Resaved(fields, criteria[0])] + AllResaved(fields, criteria[1..])
  }

  lemma LoadedIsResaved(fields: Fields, c: Criterion)
    requires WellSaved(c)
    ensures Complete(Loaded(fields, c)) <==> c.Simple?
    ensures c.Simple? ==> Saved(Loaded(fields, c)) == Resaved(fields, c)
  {
  }

  ghost predicate Accepting(filters: seq<Filter>) {
    filters == [] || Complete(filters[|filters| - 1])
  }

  /** After a row that is not complete nothing is added any more. */
  lemma {:induction false} NothingAdded(filters: seq<Filter>, rows: seq<Filter>)
    requires !Accepting(filters)
    ensures AddAll(filters, rows) == filters
    decreases |rows|
  {
    if rows != [] {
      NothingAdded(filters, rows[1..]);
    }
  }

  /** The rows up to the first that is not complete, with that one. */
  function Taken(rows: seq<Filter>): seq<Filter> {
    if rows == [] then [] else [rows[0]] + if Complete(rows[0]) then Taken(rows[1..]) else []
  }

  lemma {:induction false} AddedAreTaken(filters: seq<Filter>, rows: seq<Filter>)
    requires Accepting(filters)
    ensures AddAll(filters, rows) == filters + Taken(rows)
    decreases |rows|
  {
    if rows != [] {
      var added := filters + [rows[0]];
      if Complete(rows[0]) {
        AddedAreTaken(added, rows[1..]);
        ConcatIsAssociative(filters, [rows[0]], Taken(rows[1..]));
      } else {
        NothingAdded(added, rows[1..]);
      }
    }
  }

  lemma SelectIsTaken(fields: Fields, criteria: seq<Criterion>)
    ensures Select(fields, criteria) == Taken(AllLoaded(fields, criteria))
  {
    var none: seq<Filter>, rows := [], AllLoaded(fields, criteria);
    AddedAreTaken(none, rows);
    assert none + Taken(rows) == Taken(rows);
  }

  lemma {:induction false} SelectedIsResaved(fields: Fields, criteria: seq<Criterion>)
    requires AllWellSaved(criteria)
    ensures Prepare(Taken(AllLoaded(fields, criteria))) == AllResaved(fields, criteria)
  {
    if criteria != [] {
      var rows := AllLoaded(fields, criteria);
      LoadedIsResaved(fields, criteria[0]);
      assert rows[0] == Loaded(fields, criteria[0]) && rows[1..] == AllLoaded(fields, criteria[1..]);
      assert Taken(rows)[1..] == if criteria[0].Simple? then Taken(rows[1..]) else [];
      if criteria[0].Simple? {
        SelectedIsResaved(fields, criteria[1..]);
      }
    }
  }

  /** The whole form: what is saved holds the archived flag and the operator as well. */
  function PrepareFilter(archived: bool, operator: string, filters: seq<Filter>): Criteria {
    Criteria(archived, operator, Prepare(filters))
  }

  function LoadedOperator(criteria: Criteria): string {
    if criteria.operator == "" then "and" else criteria.operator
  }

  /** Saving, loading and saving again. */
  function SaveLoadSave(fields: Fields, archived: bool, operator: string, filters: seq<Filter>): Criteria {
    var criteria := PrepareFilter(archived, operator, filters);
    PrepareFilter(archived, LoadedOperator(criteria), Select(fields, criteria.criteria))
  }

  /** No row that is saved asks for false or is a selection over many records. */
  ghost predicate StaysAsked(fields: Fields, filters: seq<Filter>) {
    forall f :: f in filters && Complete(f) ==> !AsksFalse(f) && !GainsId(fields, f)
  }

  predicate AsksFalse(filter: Filter) {
    filter.operator == "false" || (filter.operator == "=" && filter.value == Bool(false))
  }

  predicate Stays(fields: Fields, c: Criterion) {
    c.Simple? && Resaved(fields, c) == c
  }

  lemma {:induction false} AllStayIff(fields: Fields, criteria: seq<Criterion>)
    ensures AllResaved(fields, criteria) == criteria <==> forall c :: c in criteria ==> Stays(fields, c)
  {
    if criteria != [] {
      var first, rest := criteria[0], criteria[1..];
      AllStayIff(fields, rest);
      assert criteria == [first] + rest;
      if first.Simple? {
        var saved := [Resaved(fields, first)] + AllResaved(fields, rest);
        assert saved[0] == Resaved(fields, first) && saved[1..] == AllResaved(fields, rest);
        assert saved == [saved[0]] + saved[1..];
        assert saved == criteria <==> saved[0] == first && saved[1..] == rest;
        assert (forall c :: c in criteria ==> Stays(fields, c))
            <==> Stays(fields, first) && forall c :: c in rest ==> Stays(fields, c);
      } else {
        assert first in criteria;
      }
    }
  }

  lemma NameStaysIff(fields: Fields, filter: Filter)
    requires FromForm(fields, filter) && '.' !in filter.field
    ensures var name := filter.field + Suffix(filter.targetName, IsMany(filter.filterType));
            var field := Lookup(fields, UpToDot(name));
            name == UpToDot(name) + Suffix(TargetOf(field), IsMany(TypeOf(field))) <==> !GainsId(fields, filter)
  {
    SavedName(filter);
    var fieldType := TypeOf(Lookup(fields, filter.field));
    SuffixTellsMany(filter.field, filter.targetName, IsMany(filter.filterType), IsMany(fieldType));
    NoDashNoMany("selection");
  }

  lemma StaysIff(fields: Fields, filter: Filter)
    requires FromForm(fields, filter) && '.' !in filter.field
    ensures Stays(fields, Saved(filter)) <==> !AsksFalse(filter) && !GainsId(fields, filter)
  {
    if filter.operator != "false" {
      NameStaysIff(fields, filter);
      ResavedIff(fields, Saved(filter));
      SavedFalseIff(filter);
    }
  }

  lemma SavedFalseIff(filter: Filter)
    requires filter.operator != "false"
    ensures var c := Saved(filter);
            c.Simple? && c.fieldName == filter.field + Suffix(filter.targetName, IsMany(filter.filterType))
            && (c.operator == "=" && c.value == Bool(false) <==> AsksFalse(filter))
  {
  }

  lemma ResavedIff(fields: Fields, c: Criterion)
    requires c.Simple?
    ensures var field := Lookup(fields, UpToDot(c.fieldName));
            Stays(fields, c)
            <==> !(c.operator == "=" && c.value == Bool(false))
                 && c.fieldName == UpToDot(c.fieldName) + Suffix(TargetOf(field), IsMany(TypeOf(field)))
  {
  }

  lemma PreparedMembers(filters: seq<Filter>, c: Criterion)
    requires filters != []
    ensures c in Prepare(filters) <==> c in Prepare(filters[1..]) || (Complete(filters[0]) && c == Saved(filters[0]))
  {
  }

  lemma StaysAskedCons(fields: Fields, filters: seq<Filter>)
    requires filters != []
    ensures var first := filters[0];
            StaysAsked(fields, filters) <==>
              StaysAsked(fields, filters[1..]) && (Complete(first) ==> !AsksFalse(first) && !GainsId(fields, first))
  {
    assert filters == [filters[0]] + filters[1..];
  }

  lemma {:induction false} PreparedStayIff(fields: Fields, filters: seq<Filter>)
    requires Proper(fields, filters)
    ensures (forall c :: c in Prepare(filters) ==> Stays(fields, c)) <==> StaysAsked(fields, filters)
  {
    if filters != [] {
      PreparedStayIff(fields, filters[1..]);
      if Complete(filters[0]) {
        StaysIff(fields, filters[0]);
      }
      StaysAskedCons(fields, filters);
      forall c
        ensures c in Prepare(filters)
           <==> c in Prepare(filters[1..]) || (Complete(filters[0]) && c == Saved(filters[0]))
      {
        PreparedMembers(filters, c);
      }
    }
  }

  /** What is saved again: every criterion up to the first one that holds others, each with the name of its field. */
  lemma SelectKeeps(fields: Fields, criteria: seq<Criterion>)
    requires AllWellSaved(criteria)
    ensures Prepare(Select(fields, criteria)) == AllResaved(fields, criteria)
  {
    SelectIsTaken(fields, criteria);
    SelectedIsResaved(fields, criteria);
  }

  /** Saving what was loaded gives the same criteria exactly when no saved row asks for false or is a selection
      over many records. */
  lemma SaveLoadSaveIff(fields: Fields, archived: bool, operator: string, filters: seq<Filter>)
    requires Proper(fields, filters) && operator != ""
    ensures SaveLoadSave(fields, archived, operator, filters) == PrepareFilter(archived, operator, filters)
            <==> StaysAsked(fields, filters)
  {
    var criteria := Prepare(filters);
    PrepareIsWellSaved(fields, filters);
    SelectKeeps(fields, criteria);
    AllStayIff(fields, criteria);
    PreparedStayIff(fields, filters);
  }

  lemma {:induction false} RowsLoaded(fields: Fields, criteria: seq<Criterion>)
    requires AllWellSaved(criteria)
    ensures |Taken(AllLoaded(fields, criteria))| == |criteria|
       <==> forall i :: 0 <= i < |criteria| - 1 ==> criteria[i].Simple?
    ensures |Taken(AllLoaded(fields, criteria))| <= |criteria|
  {
    if criteria != [] {
      LoadedIsResaved(fields, criteria[0]);
      RowsLoaded(fields, criteria[1..]);
      assert AllLoaded(fields, criteria)[1..] == AllLoaded(fields, criteria[1..]);
      assert forall i :: 0 < i < |criteria| ==> criteria[i] == criteria[1..][i - 1];
    }
  }

  /** No row is dropped exactly when no criterion but the last holds others. */
  lemma NoRowDroppedIff(fields: Fields, criteria: seq<Criterion>)
    requires AllWellSaved(criteria)
    ensures |Select(fields, criteria)| == |criteria| <==> forall i :: 0 <= i < |criteria| - 1 ==> criteria[i].Simple?
  {
    SelectIsTaken(fields, criteria);
    RowsLoaded(fields, criteria);
  }

  // ---------- what criteria ask of a record ----------

  function ValueIn(record: map<string, Value>, name: string): Value {
    if name in record then record[name] else Missing
  }

  /** A criterion on a record; operators other than = and isNull are up to the server. */
  predicate Asks(c: Criterion, record: map<string, Value>, others: (Criterion, Value) -> bool) {
    match c
    case Simple(name, operator, value, _) =>
      if operator == "=" then ValueIn(record, name) == value
      else if operator == "isNull" then ValueIn(record, name) == Missing
      else others(c, ValueIn(record, name))
    case Or(parts) => exists i :: 0 <= i < |parts| && Asks(parts[i], record, others)
  }

  /** A row that asks for false finds the records where the field is false or has no value. */
  lemma {:induction false} FalseRowFinds(f: Filter, record: map<string, Value>, others: (Criterion, Value) -> bool)
    requires f.operator == "false"
    ensures Asks(Saved(f), record, others) <==> ValueIn(record, f.field) in {Bool(false), Missing}
  {
    var parts := Saved(f).parts;
    assert Asks(parts[0], record, others) <==> ValueIn(record, f.field) == Bool(false);
    assert Asks(parts[1], record, others) <==> ValueIn(record, f.field) == Missing;
  }

  /** A row that asks for true finds those where it is true; any other asks what it says, of the field, of the named
      field of its target, or of the id of its many targets. */
  lemma {:induction false} OtherRowFinds(f: Filter, record: map<string, Value>, others: (Criterion, Value) -> bool)
    requires f.operator != "false"
    ensures var name := f.field + (if f.targetName == "" then "" else "." + f.targetName)
                                + (if Contains(f.filterType, "-many") then ".id" else "");
            && Saved(f).Simple? && Saved(f).fieldName == name
            && (f.operator == "true" ==> (Asks(Saved(f), record, others) <==> ValueIn(record, name) == Bool(true)))
            && (f.operator != "true" ==> Saved(f).operator == f.operator && Saved(f).value == f.value)
            && (f.operator in {"between", "notBetween"} ==> Saved(f).value2 == Some(f.value2))
            && (f.operator !in {"between", "notBetween"} ==> Saved(f).value2 == None)
  {
    var target := if f.targetName == "" then "" else "." + f.targetName;
    ConcatIsAssociative(f.field, target, if Contains(f.filterType, "-many") then ".id" else "");
  }
}
