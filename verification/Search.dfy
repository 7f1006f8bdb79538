/** The search service: validation, matching, filters, order and pages over the index rows. */
module Search {
  import opened Domain
  import opened Seqs
  import opened Order
  import opened Index

  const MAX_PAGE_SIZE := 200

  datatype SearchSort = UPDATED_AT_DESC | UPDATED_AT_ASC | TITLE_ASC | TITLE_DESC

  datatype SearchRequest = SearchRequest(
    title: Option<string>,
    prefix: Option<string>,
    nodeType: Option<string>,
    parentId: Option<NodeId>,
    storyId: Option<NodeId>,
    sort: SearchSort,
    page: int,
    pageSize: int)

  datatype SearchResult = SearchResult(hits: seq<IndexRecord>, total: nat, offset: nat, limit: nat)

  // ---------- validation ----------

  ghost predicate PageValid(q: SearchRequest) {
    q.page >= 0 && 1 <= q.pageSize <= MAX_PAGE_SIZE
  }

  ghost predicate ValidRequest(q: SearchRequest) {
    && PageValid(q)
    && (q.title.Some? ==> !Blank(q.title.value))
    && (q.prefix.Some? ==> !Blank(q.prefix.value))
    && (q.title.None? || q.prefix.None?)
  }

  /** The field blamed for an invalid request, if any: the first that fails. */
  function Validate(q: SearchRequest): (field: Option<string>)
    ensures field.None? <==> ValidRequest(q)
    ensures field == Some("page") <==> q.page < 0
    ensures field == Some("page_size") <==> q.page >= 0 && !(1 <= q.pageSize <= 200)
    ensures field == Some("prefix") <==>
              PageValid(q) && (q.title.None? || !Blank(q.title.value)) && q.prefix.Some? && Blank(q.prefix.value)
    ensures field == Some("title") <==>
              PageValid(q) && q.title.Some? && (Blank(q.title.value) || (q.prefix.Some? && !Blank(q.prefix.value)))
    ensures field.Some? ==> field.value in {"page", "page_size", "title", "prefix"}
  {
    if q.page < 0 then Some("page")
    else if q.pageSize <= 0 then Some("page_size")
    else if q.pageSize > MAX_PAGE_SIZE then Some("page_size")
    else if q.title.Some? && Blank(q.title.value) then Some("title")
    else if q.prefix.Some? && Blank(q.prefix.value) then Some("prefix")
    else if q.title.Some? && q.prefix.Some? then Some("title")
    else None
  }

  // ---------- scan and filters ----------

  /** `str.strip`. */
  function Strip(s: string): string {
    if s == "" then ""
    else if IsSpace(s[0]) then Strip(s[1..])
    else if IsSpace(s[|s| - 1]) then Strip(s[..|s| - 1])
    else s
  }

  /** Only white space goes, at both ends and all of it. */
  lemma {:induction false} StripPlain(s: string) returns (before: string, after: string)
    ensures s == before + Strip(s) + after && Blank(before) && Blank(after)
    ensures Strip(s) != "" ==> !IsSpace(Strip(s)[0]) && !IsSpace(Strip(s)[|Strip(s)| - 1])
  {
    before, after := "", "";
    if s == "" {
    } else if IsSpace(s[0]) {
      before, after := StripPlain(s[1..]);
      assert s == [s[0]] + s[1..];
      before := [s[0]] + before;
    } else if IsSpace(s[|s| - 1]) {
      before, after := StripPlain(s[..|s| - 1]);
      assert s == s[..|s| - 1] + [s[|s| - 1]];
      after := after + [s[|s| - 1]];
    }
  }

  /** Every record, in the order the index lists its ids. */
  function ScanAll(rows: Records, ids: seq<NodeId>): (records: seq<IndexRecord>)
    requires forall x :: x in ids ==> x in rows
    ensures |records| == |ids| && forall i :: 0 <= i < |ids| ==> records[i] == rows[ids[i]]
  {
    seq(|ids|, i requires 0 <= i < |ids| && ids[i] in rows => rows[ids[i]])
  }

  /** One condition of a comprehension over records. */
  datatype Test =
    | TitleIs(needle: string)
    | TitleStarts(needle: string)
    | TypeIs(kind: string)
    | ParentIs(id: NodeId)
    | StoryIs(id: NodeId)

  predicate Passes(casefold: string -> string, test: Test, r: IndexRecord) {
    match test
    case TitleIs(needle) => casefold(r.title) == needle
    case TitleStarts(needle) => needle <= casefold(r.title)
    case TypeIs(kind) => r.nodeType == kind
    case ParentIs(id) => r.parentId == Some(id)
    case StoryIs(id) => r.storyId == Some(id)
  }

  function Keep(casefold: string -> string, test: Test, records: seq<IndexRecord>): (out: seq<IndexRecord>)
    ensures forall r :: r in out <==> r in records && Passes(casefold, test, r)
    ensures DistinctIds(records) ==> DistinctIds(out)
  {
    if records == [] then [] else
    var rest := Keep(casefold, test, records[1..]);
    assert records == [records[0]] + records[1..];
    assert DistinctIds(records) ==> DistinctIds(records[1..]);
    if Passes(casefold, test, records[0]) then
      assert DistinctIds(records) ==> forall r :: r in records[1..] ==> r.nodeId != records[0].nodeId;
      [records[0]] + rest
    else rest
  }

  function Scan(rows: Records, ids: seq<NodeId>, casefold: string -> string, q: SearchRequest): seq<IndexRecord>
    requires forall x :: x in ids ==> x in rows
  {
    var records := ScanAll(rows, ids);
    if q.title.Some? then Keep(casefold, TitleIs(casefold(Strip(q.title.value))), records)
    else if q.prefix.Some? then Keep(casefold, TitleStarts(casefold(Strip(q.prefix.value))), records)
    else records
  }

  function ApplyFilters(casefold: string -> string, records: seq<IndexRecord>, q: SearchRequest): seq<IndexRecord> {
    var byType := if q.nodeType.Some? then Keep(casefold, TypeIs(q.nodeType.value), records) else records;
    var byParent := if q.parentId.Some? then Keep(casefold, ParentIs(q.parentId.value), byType) else byType;
    if q.storyId.Some? then Keep(casefold, StoryIs(q.storyId.value), byParent) else byParent
  }

  /** What a request asks of a record. */
  predicate Matches(casefold: string -> string, q: SearchRequest, r: IndexRecord) {
    && (q.title.Some? ==> casefold(r.title) == casefold(Strip(q.title.value)))
    && (q.title.None? && q.prefix.Some? ==> casefold(Strip(q.prefix.value)) <= casefold(r.title))
    && (q.nodeType.Some? ==> r.nodeType == q.nodeType.value)
    && (q.parentId.Some? ==> r.parentId == q.parentId)
    && (q.storyId.Some? ==> r.storyId == q.storyId)
  }

  // ---------- order ----------

  /** The sort key compared first. */
  predicate KeyLess(sort: SearchSort, casefold: string -> string, a: IndexRecord, b: IndexRecord) {
    if sort.UPDATED_AT_ASC? || sort.UPDATED_AT_DESC? then a.updatedAt < b.updatedAt
    else Less(casefold(a.title), casefold(b.title))
  }

  predicate KeySame(sort: SearchSort, casefold: string -> string, a: IndexRecord, b: IndexRecord) {
    if sort.UPDATED_AT_ASC? || sort.UPDATED_AT_DESC? then a.updatedAt == b.updatedAt
    else casefold(a.title) == casefold(b.title)
  }

  /** The pair (key, node id) is smaller. */
  predicate Before(sort: SearchSort, casefold: string -> string, a: IndexRecord, b: IndexRecord) {
    KeyLess(sort, casefold, a, b) || (KeySame(sort, casefold, a, b) && Less(a.nodeId, b.nodeId))
  }

  /** Stable insertion: after every record that is not greater. */
  function Insert(sort: SearchSort, casefold: string -> string, s: seq<IndexRecord>,
                  x: IndexRecord): (r: seq<IndexRecord>)
    ensures |r| == |s| + 1
    ensures forall y :: y in r <==> y in s || y == x
  {
    if s == [] then [x]
    else
      var k := |s| - 1;
      if Before(sort, casefold, x, s[k]) then
        var r := Insert(sort, casefold, s[..k], x) + [s[k]];
        assert s == s[..k] + [s[k]];
        r
      else s + [x]
  }

  /** `sorted(records, key=...)`. */
  function SortUp(sort: SearchSort, casefold: string -> string, s: seq<IndexRecord>): (r: seq<IndexRecord>)
    ensures |r| == |s|
    ensures forall y :: y in r <==> y in s
  {
    if s == [] then []
    else
      assert s == s[..|s| - 1] + [s[|s| - 1]];
      Insert(sort, casefold, SortUp(sort, casefold, s[..|s| - 1]), s[|s| - 1])
  }

  /** `sorted(..., reverse=True)` keeps equal records in their original order,
      which is sorting the reversed list and reversing the outcome. */
  function ApplySort(sort: SearchSort, casefold: string -> string, s: seq<IndexRecord>): seq<IndexRecord> {
    if sort.UPDATED_AT_ASC? || sort.TITLE_ASC? then SortUp(sort, casefold, s)
    else Reversed(SortUp(sort, casefold, Reversed(s)))
  }

  ghost predicate Ascending(sort: SearchSort, casefold: string -> string, s: seq<IndexRecord>) {
    forall i, j :: 0 <= i < j < |s| ==> Before(sort, casefold, s[i], s[j])
  }

  ghost predicate DistinctIds(s: seq<IndexRecord>) {
    forall i, j :: 0 <= i < j < |s| ==> s[i].nodeId != s[j].nodeId
  }

  /** (key, node id) is a strict total order on records with different ids. */
  lemma BeforeIrreflexive(sort: SearchSort, casefold: string -> string, a: IndexRecord)
    ensures !Before(sort, casefold, a, a)
  {
    LessIrreflexive(a.nodeId);
    LessIrreflexive(casefold(a.title));
  }

  lemma BeforeTransitive(sort: SearchSort, casefold: string -> string, a: IndexRecord, b: IndexRecord, c: IndexRecord)
    requires Before(sort, casefold, a, b) && Before(sort, casefold, b, c)
    ensures Before(sort, casefold, a, c)
  {
    if Less(a.nodeId, b.nodeId) && Less(b.nodeId, c.nodeId) { LessTransitive(a.nodeId, b.nodeId, c.nodeId); }
    var x, y, z := casefold(a.title), casefold(b.title), casefold(c.title);
    if Less(x, y) && Less(y, z) { LessTransitive(x, y, z); }
  }

  lemma BeforeTotal(sort: SearchSort, casefold: string -> string, a: IndexRecord, b: IndexRecord)
    requires a.nodeId != b.nodeId
    ensures Before(sort, casefold, a, b) || Before(sort, casefold, b, a)
  {
    LessTotal(a.nodeId, b.nodeId);
    LessTotal(casefold(a.title), casefold(b.title));
  }

  lemma {:induction false} InsertAscends(sort: SearchSort, casefold: string -> string, s: seq<IndexRecord>,
                                         x: IndexRecord)
    requires Ascending(sort, casefold, s) && forall y :: y in s ==> y.nodeId != x.nodeId
    ensures Ascending(sort, casefold, Insert(sort, casefold, s, x))
  {
    if s != [] {
      var k := |s| - 1;
      if Before(sort, casefold, x, s[k]) {
        InsertAscends(sort, casefold, s[..k], x);
        AppendAscends(sort, casefold, Insert(sort, casefold, s[..k], x), s[k]);
      } else {
        BeforeTotal(sort, casefold, x, s[k]);
        forall y | y in s ensures Before(sort, casefold, y, x) {
          var i :| 0 <= i < |s| && s[i] == y;
          if i < k { BeforeTransitive(sort, casefold, y, s[k], x); }
        }
        AppendAscends(sort, casefold, s, x);
      }
    }
  }

  lemma AppendAscends(sort: SearchSort, casefold: string -> string, s: seq<IndexRecord>, x: IndexRecord)
    requires Ascending(sort, casefold, s) && forall y :: y in s ==> Before(sort, casefold, y, x)
    ensures Ascending(sort, casefold, s + [x])
  {
    var r := s + [x];
    forall i, j | 0 <= i < j < |r| ensures Before(sort, casefold, r[i], r[j]) {
      assert r[i] == s[i] && s[i] in s;
    }
  }

  lemma {:induction false} SortAscends(sort: SearchSort, casefold: string -> string, s: seq<IndexRecord>)
    requires DistinctIds(s)
    ensures Ascending(sort, casefold, SortUp(sort, casefold, s))
  {
    if s != [] {
      SortAscends(sort, casefold, s[..|s| - 1]);
      InsertAscends(sort, casefold, SortUp(sort, casefold, s[..|s| - 1]), s[|s| - 1]);
    }
  }

  /** There is only one way to put given records in strict order. */
  lemma {:induction false} AscendingUnique(sort: SearchSort, casefold: string -> string, a: seq<IndexRecord>,
                                           b: seq<IndexRecord>)
    requires Ascending(sort, casefold, a) && Ascending(sort, casefold, b)
    requires forall r :: r in a <==> r in b
    ensures a == b
    decreases |a|
  {
    if a == [] {
      NoMembers(b);
    } else {
      assert a[0] in b;
      SameFirst(sort, casefold, a, b);
      forall r ensures r in a[1..] <==> r in b[1..] {
        RestMembers(sort, casefold, a, r);
        RestMembers(sort, casefold, b, r);
      }
      AscendingUnique(sort, casefold, a[1..], b[1..]);
    }
  }

  lemma NoMembers(b: seq<IndexRecord>)
    ensures b == [] <==> forall r :: r !in b
  {
    if b != [] { assert b[0] in b; }
  }

  lemma SameFirst(sort: SearchSort, casefold: string -> string, a: seq<IndexRecord>, b: seq<IndexRecord>)
    requires a != [] && b != [] && Ascending(sort, casefold, a) && Ascending(sort, casefold, b)
    requires forall r :: r in a <==> r in b
    ensures a[0] == b[0]
  {
    assert a[0] in b && b[0] in a;
    var i :| 0 <= i < |b| && b[i] == a[0];
    var j :| 0 <= j < |a| && a[j] == b[0];
    if i > 0 && j > 0 {
      BeforeTransitive(sort, casefold, a[0], b[0], a[0]);
      BeforeIrreflexive(sort, casefold, a[0]);
    }
  }

  lemma RestMembers(sort: SearchSort, casefold: string -> string, a: seq<IndexRecord>, r: IndexRecord)
    requires a != [] && Ascending(sort, casefold, a)
    ensures r in a[1..] <==> r in a && r != a[0]
  {
    assert a == [a[0]] + a[1..];
    BeforeIrreflexive(sort, casefold, a[0]);
    if r in a[1..] {
      var i :| 0 <= i < |a[1..]| && a[1..][i] == r;
      assert Before(sort, casefold, a[0], a[i + 1]);
    }
  }

  // ---------- the answer ----------

  function Answer(rows: Records, ids: seq<NodeId>, casefold: string -> string, q: SearchRequest): seq<IndexRecord>
    requires forall x :: x in ids ==> x in rows
  {
    ApplySort(q.sort, casefold, ApplyFilters(casefold, Scan(rows, ids, casefold, q), q))
  }

  /** One page of the records; the offset never passes the end. */
  function PageOf(records: seq<IndexRecord>, page: nat, size: nat): SearchResult {
    var total := |records|;
    var offset := if page * size > total then total else page * size;
    var end := if offset + size > total then total else offset + size;
    SearchResult(records[offset..end], total, offset, size)
  }

  function Search(rows: Records, ids: seq<NodeId>, casefold: string -> string, q: SearchRequest): Result<SearchResult>
    requires forall x :: x in ids ==> x in rows
  {
    var field := Validate(q);
    if field.Some? then Err(InvalidQuery(field.value))
    else Ok(PageOf(Answer(rows, ids, casefold, q), q.page, q.pageSize))
  }

  /** The ids an index lists: each row's once, in any order. */
  ghost predicate Lists(rows: Records, ids: seq<NodeId>) {
    NoDup(ids) && (forall x :: x in ids <==> x in rows) && forall x :: x in rows ==> rows[x].nodeId == x
  }

  ghost predicate Descending(sort: SearchSort) {
    sort.UPDATED_AT_DESC? || sort.TITLE_DESC?
  }

  /** In the requested order. */
  ghost predicate InOrder(sort: SearchSort, casefold: string -> string, s: seq<IndexRecord>) {
    forall i, j :: 0 <= i < j < |s| ==>
      if Descending(sort) then Before(sort, casefold, s[j], s[i]) else Before(sort, casefold, s[i], s[j])
  }

  lemma ScanDistinct(rows: Records, ids: seq<NodeId>, casefold: string -> string, q: SearchRequest)
    requires Lists(rows, ids)
    ensures DistinctIds(ScanAll(rows, ids)) && DistinctIds(Scan(rows, ids, casefold, q))
  {
    assert forall i :: 0 <= i < |ids| ==> ids[i] in ids;
  }

  lemma FiltersDistinct(casefold: string -> string, records: seq<IndexRecord>, q: SearchRequest)
    requires DistinctIds(records)
    ensures DistinctIds(ApplyFilters(casefold, records, q))
  {
  }

  lemma ScanMembers(rows: Records, ids: seq<NodeId>, r: IndexRecord)
    requires Lists(rows, ids)
    ensures r in ScanAll(rows, ids) <==> r in rows.Values
  {
    var records := ScanAll(rows, ids);
    if r in records {
      var i :| 0 <= i < |records| && records[i] == r;
      assert ids[i] in ids;
    }
    if r in rows.Values {
      var x :| x in rows && rows[x] == r;
      var i :| 0 <= i < |ids| && ids[i] == x;
      assert records[i] == r;
    }
  }

  lemma FilteredMembers(rows: Records, ids: seq<NodeId>, casefold: string -> string, q: SearchRequest, r: IndexRecord)
    requires Lists(rows, ids)
    ensures r in ApplyFilters(casefold, Scan(rows, ids, casefold, q), q) <==>
              r in rows.Values && Matches(casefold, q, r)
  {
    ScanMembers(rows, ids, r);
  }

  lemma ReversedDistinct(s: seq<IndexRecord>)
    requires DistinctIds(s)
    ensures DistinctIds(Reversed(s))
  {
  }

  lemma SortInOrder(sort: SearchSort, casefold: string -> string, s: seq<IndexRecord>)
    requires DistinctIds(s)
    ensures InOrder(sort, casefold, ApplySort(sort, casefold, s))
    ensures forall r :: r in ApplySort(sort, casefold, s) <==> r in s
  {
    if Descending(sort) {
      ReversedDistinct(s);
      ReversedSame(s);
      SortAscends(sort, casefold, Reversed(s));
      ReversedSame(SortUp(sort, casefold, Reversed(s)));
    } else {
      SortAscends(sort, casefold, s);
    }
  }

  /** The answer holds exactly the rows that match, in the requested order. */
  lemma AnswerExact(rows: Records, ids: seq<NodeId>, casefold: string -> string, q: SearchRequest)
    requires Lists(rows, ids)
    ensures forall r :: r in Answer(rows, ids, casefold, q) <==> r in rows.Values && Matches(casefold, q, r)
    ensures InOrder(q.sort, casefold, Answer(rows, ids, casefold, q))
  {
    var found := ApplyFilters(casefold, Scan(rows, ids, casefold, q), q);
    ScanDistinct(rows, ids, casefold, q);
    FiltersDistinct(casefold, Scan(rows, ids, casefold, q), q);
    SortInOrder(q.sort, casefold, found);
    forall r ensures r in found <==> r in rows.Values && Matches(casefold, q, r) {
      FilteredMembers(rows, ids, casefold, q, r);
    }
  }

  /** What the sorts mean, for an earlier and a later hit: newest or oldest first,
      or by title without regard to case; equal keys go by id, in the same
      direction. */
  lemma AnswerOrder(rows: Records, ids: seq<NodeId>, casefold: string -> string, q: SearchRequest, i: nat, j: nat)
    returns (x: IndexRecord, y: IndexRecord)
    requires Lists(rows, ids) && i < j < |Answer(rows, ids, casefold, q)|
    ensures x == Answer(rows, ids, casefold, q)[i] && y == Answer(rows, ids, casefold, q)[j]
    ensures q.sort == UPDATED_AT_DESC ==>
              x.updatedAt > y.updatedAt || (x.updatedAt == y.updatedAt && Less(y.nodeId, x.nodeId))
    ensures q.sort == UPDATED_AT_ASC ==>
              x.updatedAt < y.updatedAt || (x.updatedAt == y.updatedAt && Less(x.nodeId, y.nodeId))
    ensures q.sort == TITLE_ASC ==>
              var v, w := casefold(x.title), casefold(y.title);
              Less(v, w) || (v == w && Less(x.nodeId, y.nodeId))
    ensures q.sort == TITLE_DESC ==>
              var v, w := casefold(x.title), casefold(y.title);
              Less(w, v) || (v == w && Less(y.nodeId, x.nodeId))
  {
    AnswerExact(rows, ids, casefold, q);
    x, y := Answer(rows, ids, casefold, q)[i], Answer(rows, ids, casefold, q)[j];
  }

  /** Which rows are found, condition by condition. */
  lemma AnswerMembers(rows: Records, ids: seq<NodeId>, casefold: string -> string, q: SearchRequest, x: NodeId)
    requires Lists(rows, ids) && x in rows
    ensures rows[x] in Answer(rows, ids, casefold, q) <==>
              && (q.title.Some? ==> casefold(rows[x].title) == casefold(Strip(q.title.value)))
              && (q.title == None && q.prefix.Some? ==> casefold(Strip(q.prefix.value)) <= casefold(rows[x].title))
              && (q.nodeType == None || Some(rows[x].nodeType) == q.nodeType)
              && (q.parentId == None || rows[x].parentId == q.parentId)
              && (q.storyId == None || rows[x].storyId == q.storyId)
  {
    AnswerExact(rows, ids, casefold, q);
  }

  /** A page is a run of the answer: it starts at page times size, or at the end,
      and is as long as the size and the end allow. */
  lemma PagePlain(rows: Records, ids: seq<NodeId>, casefold: string -> string, q: SearchRequest)
    returns (a: seq<IndexRecord>, r: SearchResult)
    requires Lists(rows, ids) && ValidRequest(q)
    ensures a == Answer(rows, ids, casefold, q) && Search(rows, ids, casefold, q) == Ok(r)
    ensures r.total == |a| && r.limit == q.pageSize
    ensures r.offset == if q.page * q.pageSize <= |a| then q.page * q.pageSize else |a|
    ensures r.offset + |r.hits| <= |a| && |r.hits| <= q.pageSize
    ensures r.offset + |r.hits| == |a| || |r.hits| == q.pageSize
    ensures forall j :: 0 <= j < |r.hits| ==> r.hits[j] == a[r.offset + j]
  {
    a := Answer(rows, ids, casefold, q);
    r := Cut(a, q.page, q.pageSize);
  }

  lemma Cut(a: seq<IndexRecord>, page: nat, size: nat) returns (r: SearchResult)
    ensures r == PageOf(a, page, size) && r.total == |a| && r.limit == size
    ensures r.offset == if page * size <= |a| then page * size else |a|
    ensures r.offset + |r.hits| <= |a| && |r.hits| <= size
    ensures r.offset + |r.hits| == |a| || |r.hits| == size
    ensures forall j :: 0 <= j < |r.hits| ==> r.hits[j] == a[r.offset + j]
  {
    r := PageOf(a, page, size);
  }

  lemma InOrderUnique(sort: SearchSort, casefold: string -> string, a: seq<IndexRecord>, b: seq<IndexRecord>)
    requires InOrder(sort, casefold, a) && InOrder(sort, casefold, b) && forall r :: r in a <==> r in b
    ensures a == b
  {
    if Descending(sort) {
      ReversedSame(a);
      ReversedSame(b);
      ReversedAscends(sort, casefold, a);
      ReversedAscends(sort, casefold, b);
      AscendingUnique(sort, casefold, Reversed(a), Reversed(b));
      ReversedInjective(a, b);
    } else {
      AscendingUnique(sort, casefold, a, b);
    }
  }

  lemma ReversedAscends(sort: SearchSort, casefold: string -> string, a: seq<IndexRecord>)
    requires InOrder(sort, casefold, a) && Descending(sort)
    ensures Ascending(sort, casefold, Reversed(a))
  {
  }

  lemma ReversedInjective(a: seq<IndexRecord>, b: seq<IndexRecord>)
    requires Reversed(a) == Reversed(b)
    ensures a == b
  {
    forall i | 0 <= i < |a| ensures a[i] == b[i] {
      assert a[i] == Reversed(a)[|a| - 1 - i];
    }
  }

  /** The order in which the index lists its ids does not show in any result. */
  lemma SearchOrderIndependent(rows: Records, ids: seq<NodeId>, ids': seq<NodeId>, casefold: string -> string,
                               q: SearchRequest)
    requires Lists(rows, ids) && Lists(rows, ids')
    ensures Search(rows, ids, casefold, q) == Search(rows, ids', casefold, q)
  {
    AnswerExact(rows, ids, casefold, q);
    AnswerExact(rows, ids', casefold, q);
    InOrderUnique(q.sort, casefold, Answer(rows, ids, casefold, q), Answer(rows, ids', casefold, q));
  }

  function Opposite(sort: SearchSort): SearchSort {
    match sort
    case UPDATED_AT_DESC => UPDATED_AT_ASC
    case UPDATED_AT_ASC => UPDATED_AT_DESC
    case TITLE_ASC => TITLE_DESC
    case TITLE_DESC => TITLE_ASC
  }

  /** Each descending order is its ascending one reversed, and the other way round. */
  lemma OppositeIsReversed(rows: Records, ids: seq<NodeId>, casefold: string -> string, q: SearchRequest)
    requires Lists(rows, ids)
    ensures Answer(rows, ids, casefold, q.(sort := Opposite(q.sort))) == Reversed(Answer(rows, ids, casefold, q))
  {
    var other := q.(sort := Opposite(q.sort));
    AnswerExact(rows, ids, casefold, q);
    AnswerExact(rows, ids, casefold, other);
    assert forall r :: Matches(casefold, other, r) <==> Matches(casefold, q, r);
    Flip(q.sort, casefold, Answer(rows, ids, casefold, q), Answer(rows, ids, casefold, other));
  }

  lemma Flip(sort: SearchSort, casefold: string -> string, a: seq<IndexRecord>, b: seq<IndexRecord>)
    requires InOrder(sort, casefold, a) && InOrder(Opposite(sort), casefold, b) && forall r :: r in a <==> r in b
    ensures b == Reversed(a)
  {
    ReversedSame(a);
    ReversedInOrder(sort, casefold, a);
    InOrderUnique(Opposite(sort), casefold, b, Reversed(a));
  }

  lemma ReversedInOrder(sort: SearchSort, casefold: string -> string, a: seq<IndexRecord>)
    requires InOrder(sort, casefold, a)
    ensures InOrder(Opposite(sort), casefold, Reversed(a))
  {
    forall x, y ensures Before(Opposite(sort), casefold, x, y) == Before(sort, casefold, x, y) {
    }
  }

  // ---------- pages ----------

  ghost function Joined(parts: seq<seq<IndexRecord>>): seq<IndexRecord> {
    if parts == [] then [] else Joined(parts[..|parts| - 1]) + parts[|parts| - 1]
  }

  /** The hits of the same request for another page. */
  ghost function Hits(rows: Records, ids: seq<NodeId>, casefold: string -> string, q: SearchRequest,
                      k: nat): seq<IndexRecord>
    requires Lists(rows, ids) && ValidRequest(q)
  {
    Search(rows, ids, casefold, q.(page := k)).value.hits
  }

  /** The page asked for does not change what is found. */
  lemma SameAnswer(rows: Records, ids: seq<NodeId>, casefold: string -> string, q: SearchRequest, k: nat)
    requires Lists(rows, ids) && ValidRequest(q)
    ensures Answer(rows, ids, casefold, q.(page := k)) == Answer(rows, ids, casefold, q)
    ensures Search(rows, ids, casefold, q.(page := k)) == Ok(PageOf(Answer(rows, ids, casefold, q), k, q.pageSize))
    ensures Hits(rows, ids, casefold, q, k) == PageOf(Answer(rows, ids, casefold, q), k, q.pageSize).hits
  {
  }

  lemma AllHits(rows: Records, ids: seq<NodeId>, casefold: string -> string, q: SearchRequest)
    returns (all: seq<IndexRecord>)
    requires Lists(rows, ids) && ValidRequest(q)
    ensures all == Answer(rows, ids, casefold, q)
    ensures forall j: nat :: Hits(rows, ids, casefold, q, j) == PageOf(all, j, q.pageSize).hits
  {
    all := Answer(rows, ids, casefold, q);
    forall j: nat ensures Hits(rows, ids, casefold, q, j) == PageOf(all, j, q.pageSize).hits {
      SameAnswer(rows, ids, casefold, q, j);
    }
  }

  /** Pages 0, 1, 2, ... in turn give the answer from its start, and all of it
      once they reach its end. */
  lemma PagesPartition(rows: Records, ids: seq<NodeId>, casefold: string -> string, q: SearchRequest,
                       pages: seq<seq<IndexRecord>>)
    requires Lists(rows, ids) && ValidRequest(q)
    requires forall j :: 0 <= j < |pages| ==> pages[j] == Hits(rows, ids, casefold, q, j)
    ensures Joined(pages) == Front(Answer(rows, ids, casefold, q), |pages| * q.pageSize)
  {
    var all := AllHits(rows, ids, casefold, q);
    CutsAddUp(all, q.pageSize, pages);
  }

  lemma {:induction false} CutsAddUp(all: seq<IndexRecord>, size: nat, pages: seq<seq<IndexRecord>>)
    requires forall j :: 0 <= j < |pages| ==> pages[j] == PageOf(all, j, size).hits
    ensures Joined(pages) == Front(all, |pages| * size)
  {
    if pages != [] {
      CutsAddUp(all, size, pages[..|pages| - 1]);
      NextCut(all, |pages| - 1, size);
    }
  }

  /** The first n records, or all of them. */
  function Front(records: seq<IndexRecord>, n: nat): seq<IndexRecord> {
    if n >= |records| then records else records[..n]
  }

  lemma NextCut(all: seq<IndexRecord>, k: nat, size: nat)
    ensures Front(all, k * size) + PageOf(all, k, size).hits == Front(all, (k + 1) * size)
  {
    assert (k + 1) * size == k * size + size;
  }

  /** A page is empty exactly when it lies past the end, and its offset is then the total. */
  lemma PastTheEnd(rows: Records, ids: seq<NodeId>, casefold: string -> string, q: SearchRequest)
    requires Lists(rows, ids) && ValidRequest(q)
    ensures var r := Search(rows, ids, casefold, q);
            && r.Ok? && r.value.total == |Answer(rows, ids, casefold, q)|
            && (r.value.hits == [] <==> q.page * q.pageSize >= r.value.total)
            && (r.value.hits == [] ==> r.value.offset == r.value.total)
  {
    PageEmpty(Answer(rows, ids, casefold, q), q.page, q.pageSize);
  }

  lemma PageEmpty(all: seq<IndexRecord>, page: nat, size: nat)
    requires size > 0
    ensures var r := PageOf(all, page, size);
            && (r.hits == [] <==> page * size >= |all|)
            && (r.hits == [] ==> r.offset == |all|)
  {
  }

  /** Every matching record is on exactly one page. */
  lemma OnExactlyOnePage(rows: Records, ids: seq<NodeId>, casefold: string -> string, q: SearchRequest, r: IndexRecord)
    returns (k: nat)
    requires Lists(rows, ids) && ValidRequest(q)
    requires r in rows.Values && Matches(casefold, q, r)
    ensures forall j: nat :: r in Hits(rows, ids, casefold, q, j) <==> j == k
  {
    AnswerExact(rows, ids, casefold, q);
    var all := AllHits(rows, ids, casefold, q);
    k := HomePage(q.sort, casefold, all, r, q.pageSize);
  }

  lemma HomePage(sort: SearchSort, casefold: string -> string, all: seq<IndexRecord>, r: IndexRecord, size: nat)
    returns (k: nat)
    requires InOrder(sort, casefold, all) && r in all && size > 0
    ensures forall j: nat :: r in PageOf(all, j, size).hits <==> j == k
  {
    var i :| 0 <= i < |all| && all[i] == r;
    k := i / size;
    forall j: nat ensures r in PageOf(all, j, size).hits <==> j == k {
      OnPage(sort, casefold, all, i, size, j);
    }
  }

  lemma OnPage(sort: SearchSort, casefold: string -> string, all: seq<IndexRecord>, i: nat, size: nat, j: nat)
    requires InOrder(sort, casefold, all) && i < |all| && size > 0
    ensures all[i] in PageOf(all, j, size).hits <==> j == i / size
  {
    var start := if j * size > |all| then |all| else j * size;
    var end := if start + size > |all| then |all| else start + size;
    Quotient(i, size, j);
    Position(sort, casefold, all, i, start, end);
  }

  lemma Position(sort: SearchSort, casefold: string -> string, all: seq<IndexRecord>, i: nat, start: nat, end: nat)
    requires InOrder(sort, casefold, all) && i < |all| && start <= end <= |all|
    ensures all[i] in all[start..end] <==> start <= i < end
  {
    if all[i] in all[start..end] {
      var m :| start <= m < end && all[m] == all[i];
      BeforeIrreflexive(sort, casefold, all[i]);
    }
    if start <= i < end { assert all[start..end][i - start] == all[i]; }
  }

  lemma Quotient(i: nat, size: nat, j: nat)
    requires size > 0
    ensures j * size <= i < j * size + size <==> j == i / size
  {
    var k := i / size;
    assert i == k * size + i % size;
    if j < k { assert (j + 1) * size <= k * size; }
    if j > k { assert (k + 1) * size <= j * size; }
  }
}
