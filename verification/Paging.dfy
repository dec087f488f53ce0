/** DataSource: a page of records as a window over a list that the server keeps. */
module Paging {
  import opened Text

  datatype Record = Record(id: int, fields: map<string, string>)

  datatype Page = Page(index: int, from: nat, to: nat, size: nat, total: nat, limit: nat)

  /** The records at hand and what is known of the page. */
  datatype Source = Source(data: seq<Record>, page: Page) {
    /** The place of the current record in the whole list. */
    function Position(): int {
      page.from + page.index
    }

    function At(i: int): Option<Record> {
      if 0 <= i < |data| then Some(data[i]) else None
    }

    /** FormView's canNext and canPrev. */
    predicate CanNext() {
      page.index < page.size - 1 || page.from + page.index < page.total - 1
    }

    predicate CanPrev() {
      page.index > 0 || page.from > 0
    }
  }

  function Min(a: nat, b: nat): nat { if a < b then a else b }

  /** What the server answers: at most limit records from the offset on. */
  function Slice(list: seq<Record>, offset: nat, limit: nat): (r: seq<Record>)
    ensures |r| == if offset < |list| then Min(limit, |list| - offset) else 0
    ensures forall i :: 0 <= i < |r| ==> r[i] == list[offset + i]
  {
    list[Min(offset, |list|)..Min(offset + limit, |list|)]
  }

  /** search, answered by the server: _accept, then _pageInfo, then the index is reset. */
  function Search(list: seq<Record>, s: Source, offset: nat): Source {
    var data := Slice(list, offset, s.page.limit);
    Source(data, Page(-1, offset, offset + |data|, |data|, |list|, s.page.limit))
  }

  function Next(list: seq<Record>, s: Source): Source {
    Search(list, s, s.page.from + s.page.limit)
  }

  function Prev(list: seq<Record>, s: Source): Source {
    Search(list, s, if s.page.from < s.page.limit then 0 else s.page.from - s.page.limit)
  }

  function WithIndex(s: Source, index: int): Source {
    s.(page := s.page.(index := index))
  }

  /** nextItem: the state after it, and the record passed to the callback. */
  function NextItem(list: seq<Record>, s: Source): (Source, Option<Record>) {
    if s.page.index + 1 < s.page.size then (WithIndex(s, s.page.index + 1), s.At(s.page.index + 1))
    else
      var s' := WithIndex(Next(list, s), 0);
      (s', s'.At(0))
  }

  function PrevItem(list: seq<Record>, s: Source): (Source, Option<Record>) {
    if s.page.index - 1 > -1 then (WithIndex(s, s.page.index - 1), s.At(s.page.index - 1))
    else
      var s1 := Prev(list, s);
      var s' := WithIndex(s1, s1.page.size - 1);
      (s', s'.At(s'.page.index))
  }

  /** The page shows the list: it holds the slice of the list at its offset. */
  ghost predicate Shows(list: seq<Record>, s: Source) {
    && s.page.limit > 0
    && s.data == Slice(list, s.page.from, s.page.limit)
    && s.page.size == |s.data| && s.page.to == s.page.from + |s.data| && s.page.total == |list|
    && -1 <= s.page.index
  }

  ghost predicate Aligned(list: seq<Record>, s: Source) {
    Shows(list, s) && IsMultiple(s.page.from, s.page.limit)
  }

  /** A record of the page is current. */
  ghost predicate OnRecord(list: seq<Record>, s: Source) {
    Shows(list, s) && 0 <= s.page.index < s.page.size
  }

  /** A multiple of the limit. */
  predicate IsMultiple(n: nat, limit: nat)
    requires limit > 0
  {
    n == 0 || (n >= limit && IsMultiple(n - limit, limit))
  }

  lemma PositiveProduct(k: int, d: nat)
    requires k >= 1
    ensures k * d >= d
  {
    assert k * d == (k - 1) * d + d;
  }

  lemma ModIsUnique(a: nat, q: int, d: nat, r: nat)
    requires d > 0 && r < d && a == q * d + r
    ensures a % d == r
  {
    var q', r' := a / d, a % d;
    assert a == q' * d + r';
    assert (q' - q) * d == r - r' && (q - q') * d == r' - r;
    if q' - q >= 1 {
      PositiveProduct(q' - q, d);
    } else if q - q' >= 1 {
      PositiveProduct(q - q', d);
    }
  }

  lemma ModOfLess(a: nat, d: nat)
    requires 0 < d <= a
    ensures a % d == (a - d) % d
  {
    var q := (a - d) / d;
    assert a - d == q * d + (a - d) % d;
    assert (q + 1) * d == q * d + d;
    ModIsUnique(a, q + 1, d, (a - d) % d);
  }

  lemma {:induction false} MultipleIsMod(n: nat, limit: nat)
    requires limit > 0
    ensures IsMultiple(n, limit) <==> n % limit == 0
  {
    if n >= limit {
      ModOfLess(n, limit);
      MultipleIsMod(n - limit, limit);
    } else {
      ModIsUnique(n, 0, limit, n);
    }
  }

  lemma {:induction false} WithoutRemainder(n: nat, limit: nat)
    requires limit > 0
    ensures n % limit <= n && IsMultiple(n - n % limit, limit)
  {
    if n >= limit {
      ModOfLess(n, limit);
      WithoutRemainder(n - limit, limit);
    } else {
      ModIsUnique(n, 0, limit, n);
    }
  }

  lemma NextAcrossPages(list: seq<Record>, s: Source)
    requires Shows(list, s) && s.page.index + 1 == s.page.size
    ensures var s' := NextItem(list, s).0;
            Shows(list, s') && s'.page.from == s.page.from + s.page.limit && s'.page.index == 0
    ensures s.Position() + 1 < |list| ==> s.page.size == s.page.limit
  {
  }

  /** nextItem delivers the record after the current one, and nothing at the end of the list; it moves by
      exactly one while there is a next record, and canNext tells so. */
  lemma NextItemIsTheNext(list: seq<Record>, s: Source)
    requires Shows(list, s) && s.page.index < s.page.size
    ensures var (s', r) := NextItem(list, s);
            && Shows(list, s') && (Aligned(list, s) ==> Aligned(list, s'))
            && (s.CanNext() <==> s.Position() + 1 < |list|)
            && (s.CanNext() ==> s'.Position() == s.Position() + 1 && OnRecord(list, s'))
            && r == if s.CanNext() then Some(list[s.Position() + 1]) else None
  {
    if s.page.index + 1 == s.page.size {
      NextAcrossPages(list, s);
    }
  }

  /** prevItem finds a record before on the page, or a whole page before it. */
  predicate StepsBack(s: Source) {
    s.page.index > 0 || s.page.from >= s.page.limit
  }

  lemma PrevWithinPage(list: seq<Record>, s: Source)
    requires OnRecord(list, s) && s.page.index > 0
    ensures PrevItem(list, s) == (WithIndex(s, s.page.index - 1), Some(list[s.Position() - 1]))
    ensures OnRecord(list, PrevItem(list, s).0)
  {
  }

  lemma PrevAcrossPages(list: seq<Record>, s: Source)
    requires OnRecord(list, s) && s.page.index == 0 && s.page.from >= s.page.limit
    ensures var (s', r) := PrevItem(list, s);
            && OnRecord(list, s') && s'.page.from == s.page.from - s.page.limit && s'.page.index == s.page.limit - 1
            && r == Some(list[s.page.from - 1])
  {
    assert |Slice(list, s.page.from - s.page.limit, s.page.limit)| == s.page.limit;
  }

  lemma PrevAtStart(list: seq<Record>, s: Source)
    requires OnRecord(list, s) && s.page.index == 0 && s.page.from < s.page.limit
    ensures var (s', r) := PrevItem(list, s);
            && OnRecord(list, s') && s'.page.from == 0 && s'.page.index == Min(s.page.limit, |list|) - 1
            && r == Some(list[Min(s.page.limit, |list|) - 1])
  {
  }

  /** prevItem moves back by exactly one when the record before is on the page or a whole page fits before it,
      and only then; otherwise it goes to the end of the first page. */
  lemma PrevItemIsThePrevious(list: seq<Record>, s: Source)
    requires OnRecord(list, s)
    ensures var (s', r) := PrevItem(list, s);
            && OnRecord(list, s')
            && (s.CanPrev() <==> s.Position() > 0)
            && (s'.Position() == s.Position() - 1 <==> StepsBack(s))
            && r == Some(list[if StepsBack(s) then s.Position() - 1 else Min(s.page.limit, |list|) - 1])
  {
    if s.page.index > 0 {
      PrevWithinPage(list, s);
    } else if StepsBack(s) {
      PrevAcrossPages(list, s);
    } else {
      PrevAtStart(list, s);
    }
  }

  /** On an aligned page that is whenever canPrev says so, and the page stays aligned. */
  lemma PrevOnAlignedPages(list: seq<Record>, s: Source)
    requires OnRecord(list, s) && Aligned(list, s)
    ensures var s' := PrevItem(list, s).0;
            Aligned(list, s') && (s'.Position() == s.Position() - 1 <==> s.CanPrev())
  {
    PrevItemIsThePrevious(list, s);
  }

  /** Going forward and back restores the page and the record. */
  lemma PrevUndoesNext(list: seq<Record>, s: Source)
    requires OnRecord(list, s) && s.CanNext()
    ensures PrevItem(list, NextItem(list, s).0).0 == s
  {
    NextItemIsTheNext(list, s);
  }

  /** Going back and forward does so exactly when going back moves by one. */
  lemma {:induction false} NextUndoesPrev(list: seq<Record>, s: Source)
    requires OnRecord(list, s)
    ensures NextItem(list, PrevItem(list, s).0).0 == s <==> StepsBack(s)
  {
    PrevItemIsThePrevious(list, s);
  }

  // ---------- page correction ----------

  /** fixPage: nothing happens while the page begins before the end of the list. */
  function FixPage(list: seq<Record>, s: Source): Source
    requires s.page.limit > 0
  {
    if s.page.from < s.page.total then s else Search(list, s, LastPage(s.page.total, s.page.limit))
  }

  function LastPage(total: nat, limit: nat): nat
    requires limit > 0
  {
    var from := total - total % limit;
    var from' := if from == total then from - limit else from;
    if from' < 0 then 0 else from'
  }

  /** m is where the last page of so many records begins. */
  ghost predicate IsLastPage(m: nat, total: nat, limit: nat)
    requires limit > 0
  {
    IsMultiple(m, limit) && if total == 0 then m == 0 else m < total <= m + limit
  }

  lemma LastPageIsLast(total: nat, limit: nat)
    requires limit > 0
    ensures IsLastPage(LastPage(total, limit), total, limit)
  {
    WithoutRemainder(total, limit);
    var m := total - total % limit;
    assert m == total && total > 0 ==> total >= limit && IsMultiple(total - limit, limit);
  }

  lemma {:induction false} LastPageIsUnique(m: nat, n: nat, total: nat, limit: nat)
    requires limit > 0 && IsLastPage(m, total, limit) && IsLastPage(n, total, limit)
    ensures m == n
    decreases m
  {
    if m >= limit && n >= limit {
      LastPageIsUnique(m - limit, n - limit, total - limit, limit);
    }
  }

  /** When the page has fallen off the end of the list, fixPage goes to the last page there is. It is
      empty only when the list is. */
  lemma FixPageGoesToLastPage(list: seq<Record>, s: Source)
    requires s.page.limit > 0 && s.page.total == |list| && s.page.from >= s.page.total
    ensures var s' := FixPage(list, s);
            && Aligned(list, s') && IsLastPage(s'.page.from, |list|, s.page.limit)
            && s'.page.to == |list|
            && s'.data == list[s'.page.from..]
            && (s'.data == [] <==> list == [])
  {
    LastPageIsLast(|list|, s.page.limit);
  }

  // ---------- one record ----------

  /** The dotted fields of the old record that the new one does not bring are kept. */
  function Merged(old_: Record, new_: Record): Record {
    new_.(fields := (map key | key in old_.fields && '.' in key :: old_.fields[key]) + new_.fields)
  }

  function IndexOfId(data: seq<Record>, id: int): (r: Option<nat>)
    ensures r.Some? ==> r.value < |data| && data[r.value].id == id
    ensures r.None? <==> forall i :: 0 <= i < |data| ==> data[i].id != id
  {
    if data == [] then None
    else if data[0].id == id then Some(0)
    else
      var rest := IndexOfId(data[1..], id);
      if rest.None? then
        assert forall i :: 0 < i < |data| ==> data[i] == data[1..][i - 1];
        None
      else Some(rest.value + 1)
  }

  /** _accept of one record: it replaces the one of its id, or is put at the end and becomes current. */
  function AcceptOne(s: Source, r: Record): Source {
    var i := IndexOfId(s.data, r.id);
    if i.Some? then s.(data := s.data[i.value := Merged(s.data[i.value], r)])
    else
      var p := s.page;
      Source(s.data + [r], p.(total := p.total + 1, size := p.size + 1, index := p.size))
  }

  ghost predicate DistinctIds(data: seq<Record>) {
    forall i, j :: 0 <= i < j < |data| ==> data[i].id != data[j].id
  }

  /** What a field of the accepted record is: as it was sent; else, if its name has a dot, as it was before. */
  ghost predicate HasFields(r: Record, sent: Record, before: Option<Record>) {
    && r.id == sent.id
    && (forall key :: key in sent.fields ==> key in r.fields && r.fields[key] == sent.fields[key])
    && (forall key :: key !in sent.fields ==>
          if before.Some? && key in before.value.fields && '.' in key
          then key in r.fields && r.fields[key] == before.value.fields[key]
          else key !in r.fields)
  }

  /** Accepting a record keeps the ids distinct, the other records as they are, and the counts right; it replaces the
      record of its id, or is put at the end and becomes the current one. */
  lemma AcceptOneKeepsOthers(s: Source, r: Record)
    requires DistinctIds(s.data) && s.page.size == |s.data|
    ensures var s' := AcceptOne(s, r);
            && DistinctIds(s'.data) && s'.page.size == |s'.data|
            && s'.page.total - s.page.total == |s'.data| - |s.data|
            && (forall i :: 0 <= i < |s.data| && s.data[i].id != r.id ==> s'.data[i] == s.data[i])
            && (forall i :: 0 <= i < |s.data| && s.data[i].id == r.id ==>
                  |s'.data| == |s.data| && s'.page == s.page && HasFields(s'.data[i], r, Some(s.data[i])))
            && ((forall i :: 0 <= i < |s.data| ==> s.data[i].id != r.id) ==>
                  && |s'.data| == |s.data| + 1 && HasFields(s'.data[|s.data|], r, None)
                  && s'.page.index == |s.data|)
  {
    var i := IndexOfId(s.data, r.id);
    if i.Some? {
      MergedFields(s.data[i.value], r);
    }
  }

  lemma {:induction false} MergedFields(before: Record, sent: Record)
    ensures HasFields(Merged(before, sent), sent, Some(before))
  {
  }

  // ---------- stepping through the list ----------

  /** The records visited are those up to the current one. */
  ghost predicate VisitedSoFar(list: seq<Record>, s: Source, visited: seq<Record>) {
    && Shows(list, s) && s.page.index < s.page.size
    && s.Position() + 1 == |visited| <= |list| && visited == list[..|visited|]
  }

  lemma VisitStarts(list: seq<Record>, s: Source)
    requires s.page.limit > 0
    ensures VisitedSoFar(list, Search(list, s, 0), [])
  {
  }

  lemma {:induction false} VisitGoesOn(list: seq<Record>, s: Source, visited: seq<Record>)
    requires VisitedSoFar(list, s, visited) && s.CanNext()
    ensures NextItem(list, s).1.Some?
    ensures VisitedSoFar(list, NextItem(list, s).0, visited + [NextItem(list, s).1.value])
  {
    NextItemIsTheNext(list, s);
    var k := |visited|;
    assert list[..k + 1] == list[..k] + [list[k]];
  }

  lemma VisitEnds(list: seq<Record>, s: Source, visited: seq<Record>)
    requires VisitedSoFar(list, s, visited) && !s.CanNext()
    ensures visited == list
  {
    NextItemIsTheNext(list, s);
    assert list[..|list|] == list;
  }
}
