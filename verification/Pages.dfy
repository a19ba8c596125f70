/** One page of the change feed: the opening page of a run and a continued page. */
module Pages {
  import opened Results
  import opened Sequences
  import opened Positions
  import opened Candidates
  import opened Entries

  /** What examining each candidate leads to, during one page. */
  type Exam = ObjectInfo -> Outcome

  /** The candidates that become entries, in order. */
  function Yields(cands: seq<ObjectInfo>, exam: Exam): seq<ObjectInfo> {
    if cands == [] then []
    else
      var front, last := cands[..|cands| - 1], cands[|cands| - 1];
      Yields(front, exam) + (if exam(last).Yielded? then [last] else [])
  }

  lemma {:induction false} YieldsConcat(a: seq<ObjectInfo>, b: seq<ObjectInfo>, exam: Exam)
    ensures Yields(a + b, exam) == Yields(a, exam) + Yields(b, exam)
  {
    if b == [] {
      assert a + b == a;
    } else {
      assert (a + b)[..|a + b| - 1] == a + b[..|b| - 1];
      YieldsConcat(a, b[..|b| - 1], exam);
    }
  }

  lemma {:induction false} YieldsElements(cands: seq<ObjectInfo>, exam: Exam)
    ensures forall o :: o in Yields(cands, exam) <==> o in cands && exam(o).Yielded?
  {
    if cands != [] {
      var front, last := cands[..|cands| - 1], cands[|cands| - 1];
      assert cands == front + [last];
      YieldsElements(front, exam);
    }
  }

  lemma {:induction false} YieldsAscending(cands: seq<ObjectInfo>, exam: Exam)
    requires Ascending(cands)
    ensures Ascending(Yields(cands, exam))
  {
    if cands != [] {
      var front, last := cands[..|cands| - 1], cands[|cands| - 1];
      assert cands == front + [last];
      YieldsAscending(front, exam);
      YieldsElements(front, exam);
      if exam(last).Yielded? {
        AscendingConcat(Yields(front, exam), [last]);
      }
    }
  }

  function Last(s: seq<ObjectInfo>): ObjectInfo
    requires s != []
  {
    s[|s| - 1]
  }

  // ---------- where a page stops ----------

  /** The opening page's limit is soft (it completes a second), a continued page's is hard. */
  datatype LimitKind = Soft | Hard

  /** The page is full in front of candidate n. */
  predicate StopsBefore(kind: LimitKind, cands: seq<ObjectInfo>, exam: Exam, limit: nat, n: nat)
    requires n < |cands|
  {
    var yielded := Yields(cands[..n], exam);
    && yielded != []
    && |yielded| >= limit
    && (kind.Soft? ==> cands[n].Second() != Last(yielded).Second())
  }

  /** The number of candidates a page examines: up to the first one, from n on, it is full in front of. */
  function Stop(kind: LimitKind, cands: seq<ObjectInfo>, exam: Exam, limit: nat, n: nat): (stop: nat)
    requires n <= |cands|
    ensures n <= stop <= |cands|
    ensures forall k :: n <= k < stop ==> !StopsBefore(kind, cands, exam, limit, k)
    ensures stop < |cands| ==> StopsBefore(kind, cands, exam, limit, stop)
    decreases |cands| - n
  {
    if n == |cands| || StopsBefore(kind, cands, exam, limit, n) then n
    else Stop(kind, cands, exam, limit, n + 1)
  }

  /** A page as the objects it yields and the cursor it hands out. */
  datatype Page = Page(yielded: seq<ObjectInfo>, next: Option<Cursor>)

  predicate AnyFailed(cands: seq<ObjectInfo>, exam: Exam) {
    exists i :: 0 <= i < |cands| && exam(cands[i]).Failed?
  }

  function PageUpTo(cands: seq<ObjectInfo>, exam: Exam, stop: nat): Result<Page, SearchError>
    requires stop <= |cands|
    requires stop < |cands| ==> Yields(cands[..stop], exam) != []
  {
    if AnyFailed(cands[..stop], exam) then Failure(HeadFailed)
    else
      var yielded := Yields(cands[..stop], exam);
      Success(Page(yielded, if stop < |cands| then Some(Last(yielded).Position()) else None))
  }

  function PageOf(kind: LimitKind, cands: seq<ObjectInfo>, exam: Exam, limit: nat): Result<Page, SearchError> {
    PageUpTo(cands, exam, Stop(kind, cands, exam, limit, 0))
  }

  // ---------- the requests a page answers ----------

  /** A page is fetched either by watermark, opening a run, or by cursor, continuing it. */
  datatype Fetch = Open(after: int) | Continue(cursor: Cursor) {
    predicate Wants(obj: ObjectInfo) {
      match this
      case Open(after) => obj.Second() > after
      case Continue(cursor) => cursor.Precedes(obj)
    }

    function Kind(): LimitKind { if Open? then Soft else Hard }

    /** The `after` second the store is asked to list from. */
    function ListFrom(): int { if Open? then after else cursor.ListFrom() }
  }

  function Wanted(fetch: Fetch): ObjectInfo -> bool { (obj: ObjectInfo) => fetch.Wants(obj) }

  /** pagedCandidateEntry with the HEAD answers of one page. */
  function Examiner(heads: Heads, codec: StatsCodec): Exam {
    (obj: ObjectInfo) => PagedCandidateEntry(obj, heads(obj.key), codec)
  }

  // ---------- the loops ----------

  datatype SearchPage = SearchPage(entries: seq<SearchRes>, next: Option<Cursor>)

  /** `entries` are the rows of these objects, one for one and in order. */
  ghost predicate RowsOf(entries: seq<SearchRes>, yielded: seq<ObjectInfo>, exam: Exam) {
    && |entries| == |yielded|
    && forall i :: 0 <= i < |yielded| ==> exam(yielded[i]) == Yielded(entries[i])
  }

  /** The response of a page: its rows and its Link cursor, or its failure. */
  ghost predicate Renders(r: Result<SearchPage, SearchError>, page: Result<Page, SearchError>, exam: Exam) {
    match page
    case Failure(error) => r == Failure(error)
    case Success(p) => r.Success? && RowsOf(r.value.entries, p.yielded, exam) && r.value.next == p.next
  }

  /** The rows are those of the objects at these indices: all that become entries, in their order. */
  ghost predicate RowsAt(entries: seq<SearchRes>, objects: seq<ObjectInfo>, exam: Exam, at: seq<int>) {
    && |at| == |entries|
    && (forall i, j :: 0 <= i < j < |at| ==> at[i] < at[j])
    && (forall i :: 0 <= i < |at| ==> 0 <= at[i] < |objects| && exam(objects[at[i]]) == Yielded(entries[i]))
    && (forall k :: 0 <= k < |objects| && exam(objects[k]).Yielded? ==> k in at)
  }

  lemma {:induction false} YieldsIsFilter(objects: seq<ObjectInfo>, exam: Exam)
    ensures Yields(objects, exam) == Filter(objects, (o: ObjectInfo) => exam(o).Yielded?)
  {
    if objects != [] {
      YieldsIsFilter(objects[..|objects| - 1], exam);
    }
  }

  lemma RowsInOrder(entries: seq<SearchRes>, objects: seq<ObjectInfo>, exam: Exam) returns (at: seq<int>)
    requires RowsOf(entries, Yields(objects, exam), exam)
    ensures RowsAt(entries, objects, exam, at)
  {
    YieldsIsFilter(objects, exam);
    at := FilterKeepsInOrder(objects, (o: ObjectInfo) => exam(o).Yielded?);
    forall i | 0 <= i < |at|
      ensures 0 <= at[i] < |objects| && exam(objects[at[i]]) == Yielded(entries[i])
    {
      assert Yields(objects, exam)[i] == objects[at[i]];
    }
  }

  /** One more candidate examined. */
  lemma NextCandidate(cands: seq<ObjectInfo>, i: nat, stop: nat, exam: Exam, entries: seq<SearchRes>)
    requires i < stop <= |cands|
    requires RowsOf(entries, Yields(cands[..i], exam), exam) && !AnyFailed(cands[..i], exam)
    ensures exam(cands[i]).Failed? ==> AnyFailed(cands[..stop], exam)
    ensures !exam(cands[i]).Failed? ==> !AnyFailed(cands[..i + 1], exam)
    ensures exam(cands[i]).Yielded? ==>
              && Yields(cands[..i + 1], exam) == Yields(cands[..i], exam) + [cands[i]]
              && RowsOf(entries + [exam(cands[i]).entry], Yields(cands[..i + 1], exam), exam)
    ensures !exam(cands[i]).Yielded? ==> Yields(cands[..i + 1], exam) == Yields(cands[..i], exam)
  {
    assert cands[..i + 1][..i] == cands[..i];
    if exam(cands[i]).Failed? {
      assert cands[..stop][i] == cands[i];
    }
  }

  method SearchPaged(objects: seq<ObjectInfo>, ts: int, limit: nat, exam: Exam)
    returns (r: Result<SearchPage, SearchError>)
    requires DistinctKeys(objects) && limit >= 1
    ensures Renders(r, PageOf(Soft, Select(objects, Wanted(Open(ts))), exam, limit), exam)
  {
    var candidates := SelectCandidates(objects, Wanted(Open(ts)));
    ghost var stop := Stop(Soft, candidates, exam, limit, 0);
    var entries: seq<SearchRes> := [];
    var next: Option<Cursor> := None;
    var pageFull, boundary, last := false, 0, ObjectInfo("", 0);
    var i := 0;
    while i < |candidates|
      invariant 0 <= i <= stop
      invariant !AnyFailed(candidates[..i], exam)
      invariant RowsOf(entries, Yields(candidates[..i], exam), exam)
      invariant pageFull <==> |entries| >= limit
      invariant entries != [] ==> last == Last(Yields(candidates[..i], exam))
      invariant pageFull ==> boundary == last.Second()
      invariant next == None
    {
      var obj := candidates[i];
      var second := obj.Second();
      if pageFull && second != boundary {
        assert StopsBefore(Soft, candidates, exam, limit, i);
        next := Some(last.Position());
        break;
      }
      assert !StopsBefore(Soft, candidates, exam, limit, i);
      NextCandidate(candidates, i, stop, exam, entries);
      match exam(obj) {
        case Failed(_) => return Failure(HeadFailed);
        case Skipped =>
        case Yielded(entry) =>
          entries := entries + [entry];
          last := obj;
          if |entries| >= limit {
            pageFull := true;
            boundary := second;
          }
      }
      i := i + 1;
    }
    r := Success(SearchPage(entries, next));
  }

  method SearchCursor(objects: seq<ObjectInfo>, cursor: Cursor, limit: nat, exam: Exam)
    returns (r: Result<SearchPage, SearchError>)
    requires DistinctKeys(objects) && limit >= 1
    ensures Renders(r, PageOf(Hard, Select(objects, Wanted(Continue(cursor))), exam, limit), exam)
  {
    var candidates := SelectCandidates(objects, Wanted(Continue(cursor)));
    ghost var stop := Stop(Hard, candidates, exam, limit, 0);
    var entries: seq<SearchRes> := [];
    var next: Option<Cursor> := None;
    var i := 0;
    while i < |candidates|
      invariant 0 <= i <= stop
      invariant !AnyFailed(candidates[..i], exam)
      invariant RowsOf(entries, Yields(candidates[..i], exam), exam)
      invariant |entries| < limit
      invariant next == None
    {
      var obj := candidates[i];
      assert !StopsBefore(Hard, candidates, exam, limit, i);
      NextCandidate(candidates, i, stop, exam, entries);
      match exam(obj) {
        case Failed(_) => return Failure(HeadFailed);
        case Skipped =>
        case Yielded(entry) =>
          entries := entries + [entry];
          if |entries| == limit {
            if i + 1 < |candidates| {
              assert StopsBefore(Hard, candidates, exam, limit, i + 1);
              next := Some(obj.Position());
            }
            i := i + 1;
            break;
          }
      }
      i := i + 1;
    }
    assert i == stop;
    r := Success(SearchPage(entries, next));
  }
}
