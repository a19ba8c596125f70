/** store.Search over listing pages, and the dispatch of GET /v1/bom to its three modes. */
module Feed {
  import opened Results
  import opened ByteStrings
  import opened Decimals
  import opened Sequences
  import opened Positions
  import opened Candidates
  import opened Entries
  import opened Pages

  /** A listed entry may lack a key or a LastModified. */
  datatype Listed = Listed(key: Option<GoString>, lastModified: Option<int>)

  datatype ListPage = Contents(objects: seq<Listed>) | Broken

  /** The listed entries that have both a key and a stamp. */
  function Complete(listed: seq<Listed>): seq<ObjectInfo> {
    if listed == [] then [] else Complete(listed[..|listed| - 1]) + AsObject(listed[|listed| - 1])
  }

  function AsObject(l: Listed): seq<ObjectInfo> {
    if l.key.Some? && l.lastModified.Some? then [ObjectInfo(l.key.value, l.lastModified.value)] else []
  }

  /** Everything the listing pages hold, up to a broken one. */
  function Bucket(pages: seq<ListPage>): seq<ObjectInfo> {
    if pages == [] then []
    else
      Bucket(pages[..|pages| - 1])
      + (match pages[|pages| - 1] case Contents(objects) => Complete(objects) case Broken => [])
  }

  /** The second time.Unix makes of ts: it counts from the year 1 in 64 bits, and so wraps around near the upper end. */
  function Instant(ts: int): int { WrapInt64(ts + UNIX_TO_INTERNAL) - UNIX_TO_INTERNAL }

  lemma InstantExactly(ts: int)
    ensures ts <= 9_223_371_974_719_179_007 ==> Instant(ts) == ts
    ensures 9_223_371_974_719_179_007 < ts <= 9_223_372_036_854_775_807 ==>
              Instant(ts) == ts - 18_446_744_073_709_551_616
  {
  }

  /** Modified strictly after the instant of ts, at nanosecond precision. */
  function ModifiedAfter(objects: seq<ObjectInfo>, ts: int): seq<ObjectInfo> {
    if objects == [] then []
    else
      var last := objects[|objects| - 1];
      ModifiedAfter(objects[..|objects| - 1], ts) + (if Instant(ts) * NANOS_PER_SECOND < last.stamp then [last] else [])
  }

  lemma {:induction false} ModifiedAfterConcat(a: seq<ObjectInfo>, b: seq<ObjectInfo>, ts: int)
    ensures ModifiedAfter(a + b, ts) == ModifiedAfter(a, ts) + ModifiedAfter(b, ts)
  {
    if b == [] {
      assert a + b == a;
    } else {
      assert (a + b)[..|a + b| - 1] == a + b[..|b| - 1];
      ModifiedAfterConcat(a, b[..|b| - 1], ts);
    }
  }

  lemma {:induction false} ModifiedAfterElements(objects: seq<ObjectInfo>, ts: int)
    ensures forall o :: o in ModifiedAfter(objects, ts) <==> o in objects && Instant(ts) * NANOS_PER_SECOND < o.stamp
    ensures DistinctKeys(objects) ==> DistinctKeys(ModifiedAfter(objects, ts))
  {
    if objects != [] {
      var front, last := objects[..|objects| - 1], objects[|objects| - 1];
      assert objects == front + [last];
      ModifiedAfterElements(front, ts);
      if DistinctKeys(objects) {
        assert forall o :: o in front ==> o.key != last.key;
      }
    }
  }

  lemma ListOneMore(listed: seq<Listed>, i: nat, ts: int)
    requires i < |listed|
    ensures ModifiedAfter(Complete(listed[..i + 1]), ts)
         == ModifiedAfter(Complete(listed[..i]), ts) + ModifiedAfter(AsObject(listed[i]), ts)
  {
    assert listed[..i + 1][..i] == listed[..i];
    ModifiedAfterConcat(Complete(listed[..i]), AsObject(listed[i]), ts);
  }

  lemma ModifiedAfterOne(obj: ObjectInfo, ts: int)
    ensures ModifiedAfter([obj], ts) == if Instant(ts) * NANOS_PER_SECOND < obj.stamp then [obj] else []
  {
    assert [obj][..0] == [];
  }

  /** The inner loop of StoreSearch: one page of the listing. */
  method FilterPage(contents: seq<Listed>, ts: int) returns (res: seq<ObjectInfo>)
    ensures res == ModifiedAfter(Complete(contents), ts)
  {
    res := [];
    for i := 0 to |contents|
      invariant res == ModifiedAfter(Complete(contents[..i]), ts)
    {
      ListOneMore(contents, i, ts);
      var cpy := contents[i];
      if cpy.key.None? || cpy.lastModified.None? {
        continue;
      }
      var obj := ObjectInfo(cpy.key.value, cpy.lastModified.value);
      ModifiedAfterOne(obj, ts);
      if Instant(ts) * NANOS_PER_SECOND < obj.stamp {
        res := res + [obj];
      }
    }
    assert contents[..|contents|] == contents;
  }

  lemma BucketOneMore(pages: seq<ListPage>, p: nat, ts: int)
    requires p < |pages| && pages[p].Contents?
    ensures ModifiedAfter(Bucket(pages[..p + 1]), ts)
         == ModifiedAfter(Bucket(pages[..p]), ts) + ModifiedAfter(Complete(pages[p].objects), ts)
  {
    assert pages[..p + 1][..p] == pages[..p];
    ModifiedAfterConcat(Bucket(pages[..p]), Complete(pages[p].objects), ts);
  }

  /**
    * The nanosecond filter of the store never drops a candidate: whatever the watermark or the
    * cursor and whatever the stamps, filtering by it first and exactly afterwards is filtering
    * exactly.
    */
  lemma PrefilterKeepsCandidates(objects: seq<ObjectInfo>, fetch: Fetch)
    requires DistinctKeys(objects)
    ensures DistinctKeys(ModifiedAfter(objects, fetch.ListFrom()))
    ensures Select(ModifiedAfter(objects, fetch.ListFrom()), Wanted(fetch)) == Select(objects, Wanted(fetch))
  {
    var listed := ModifiedAfter(objects, fetch.ListFrom());
    ModifiedAfterElements(objects, fetch.ListFrom());
    SelectCorrect(listed, Wanted(fetch));
    forall o | fetch.Wants(o)
      ensures Instant(fetch.ListFrom()) * NANOS_PER_SECOND < o.stamp
    {
      WantedIsListed(fetch, o);
    }
    SelectDeterminedBySet(objects, Wanted(fetch), Select(listed, Wanted(fetch)));
  }

  lemma WantedIsListed(fetch: Fetch, obj: ObjectInfo)
    requires fetch.Wants(obj)
    ensures Instant(fetch.ListFrom()) * NANOS_PER_SECOND < obj.stamp
  {
    assert Instant(fetch.ListFrom()) <= fetch.ListFrom();
    if fetch.Continue? {
      ListFromExactly(fetch.cursor);
      assert fetch.cursor.millis <= obj.stamp / NANOS_PER_MILLI;
      assert fetch.ListFrom() * MILLIS_PER_SECOND < fetch.cursor.millis;
    }
  }

  // ---------- what a listing holds, in its order ----------

  /** Entry `entry` of page `page`. */
  datatype Place = Place(page: int, entry: int) {
    predicate Earlier(o: Place) { page < o.page || (page == o.page && entry < o.entry) }
  }

  /** The listing has an entry with both a key and a stamp at this place, and it is this object. */
  ghost predicate HoldsAt(pages: seq<ListPage>, at: Place, o: ObjectInfo) {
    && 0 <= at.page < |pages| && pages[at.page].Contents?
    && 0 <= at.entry < |pages[at.page].objects|
    && pages[at.page].objects[at.entry] == Listed(Some(o.key), Some(o.stamp))
  }

  /**
    * These objects are the ones the listing holds at these places, in listing order: all that `keep`
    * accepts, each once.
    */
  ghost predicate ListedAt(objects: seq<ObjectInfo>, pages: seq<ListPage>, keep: ObjectInfo -> bool, at: seq<Place>) {
    && Ascend(at) && HoldsAll(pages, at, objects)
    && (forall o :: o in objects ==> keep(o))
    && (forall p, e, o :: HoldsAt(pages, Place(p, e), o) && keep(o) ==> Place(p, e) in at)
  }

  function Any(): ObjectInfo -> bool { (o: ObjectInfo) => true }

  function Later(ts: int): ObjectInfo -> bool { (o: ObjectInfo) => o.stamp > Instant(ts) * NANOS_PER_SECOND }

  ghost predicate Ascend(at: seq<Place>) { forall i, j :: 0 <= i < j < |at| ==> at[i].Earlier(at[j]) }

  ghost predicate HoldsAll(pages: seq<ListPage>, at: seq<Place>, objects: seq<ObjectInfo>) {
    |at| == |objects| && forall i :: 0 <= i < |at| ==> HoldsAt(pages, at[i], objects[i])
  }

  /** `at` are all the complete entries of page p among its first n. */
  ghost predicate CoversEntries(pages: seq<ListPage>, p: int, n: nat, at: seq<Place>) {
    && (forall i :: 0 <= i < |at| ==> at[i].page == p && at[i].entry < n)
    && (forall e, o :: e < n && HoldsAt(pages, Place(p, e), o) ==> Place(p, e) in at)
  }

  lemma {:induction false} CompletePlaces(pages: seq<ListPage>, p: nat, n: nat) returns (at: seq<Place>)
    requires p < |pages| && pages[p].Contents? && n <= |pages[p].objects|
    ensures Ascend(at) && HoldsAll(pages, at, Complete(pages[p].objects[..n])) && CoversEntries(pages, p, n, at)
  {
    if n == 0 {
      at := [];
    } else {
      var listed := pages[p].objects;
      var before := CompletePlaces(pages, p, n - 1);
      assert listed[..n][..n - 1] == listed[..n - 1];
      if AsObject(listed[n - 1]) == [] {
        at := before;
      } else {
        at := before + [Place(p, n - 1)];
        HoldsJoined(pages, before, Complete(listed[..n - 1]), [Place(p, n - 1)], AsObject(listed[n - 1]));
      }
      EntryCovered(pages, p, n, before, at);
    }
  }

  lemma EntryCovered(pages: seq<ListPage>, p: nat, n: nat, before: seq<Place>, at: seq<Place>)
    requires p < |pages| && pages[p].Contents? && 1 <= n <= |pages[p].objects|
    requires CoversEntries(pages, p, n - 1, before)
    requires at == if AsObject(pages[p].objects[n - 1]) == [] then before else before + [Place(p, n - 1)]
    ensures CoversEntries(pages, p, n, at)
  {
    forall e, o | e < n && HoldsAt(pages, Place(p, e), o)
      ensures Place(p, e) in at
    {
      if e == n - 1 {
        assert at[|before|] == Place(p, e);
      }
    }
  }

  /** `at` are all the complete entries of the first n pages. */
  ghost predicate CoversPages(pages: seq<ListPage>, n: nat, at: seq<Place>) {
    && (forall i :: 0 <= i < |at| ==> at[i].page < n)
    && (forall p, e, o :: p < n && HoldsAt(pages, Place(p, e), o) ==> Place(p, e) in at)
  }

  lemma AscendJoined(before: seq<Place>, on: seq<Place>, n: int)
    requires Ascend(before) && Ascend(on)
    requires forall i :: 0 <= i < |before| ==> before[i].page < n
    requires forall i :: 0 <= i < |on| ==> on[i].page == n
    ensures Ascend(before + on)
  {
  }

  lemma HoldsJoined(
      pages: seq<ListPage>, before: seq<Place>, front: seq<ObjectInfo>, on: seq<Place>, objects: seq<ObjectInfo>)
    requires HoldsAll(pages, before, front) && HoldsAll(pages, on, objects)
    ensures HoldsAll(pages, before + on, front + objects)
  {
  }

  lemma CoversJoined(pages: seq<ListPage>, n: nat, before: seq<Place>, on: seq<Place>)
    requires CoversPages(pages, n, before)
    requires n < |pages| && pages[n].Contents? && CoversEntries(pages, n, |pages[n].objects|, on)
    ensures CoversPages(pages, n + 1, before + on)
  {
  }

  lemma {:induction false} BucketPlaces(pages: seq<ListPage>, n: nat) returns (at: seq<Place>)
    requires n <= |pages|
    ensures Ascend(at) && HoldsAll(pages, at, Bucket(pages[..n])) && CoversPages(pages, n, at)
  {
    if n == 0 {
      at := [];
    } else {
      assert pages[..n][..n - 1] == pages[..n - 1];
      at := BucketPlaces(pages, n - 1);
      if pages[n - 1].Contents? {
        var objects := pages[n - 1].objects;
        var on := CompletePlaces(pages, n - 1, |objects|);
        assert objects[..|objects|] == objects;
        AscendJoined(at, on, n - 1);
        HoldsJoined(pages, at, Bucket(pages[..n - 1]), on, Complete(objects));
        CoversJoined(pages, n - 1, at, on);
        at := at + on;
      }
    }
  }

  /** The bucket of a listing is every entry that has both a key and a stamp, in listing order. */
  lemma BucketIsListing(pages: seq<ListPage>) returns (at: seq<Place>)
    ensures ListedAt(Bucket(pages), pages, Any(), at)
    ensures forall k, t :: ObjectInfo(k, t) in Bucket(pages) <==>
              exists p :: 0 <= p < |pages| && pages[p].Contents? && Listed(Some(k), Some(t)) in pages[p].objects
  {
    at := BucketPlaces(pages, |pages|);
    assert pages[..|pages|] == pages;
    forall k, t
      ensures ObjectInfo(k, t) in Bucket(pages) <==>
              exists p :: 0 <= p < |pages| && pages[p].Contents? && Listed(Some(k), Some(t)) in pages[p].objects
    {
      ListedSomewhere(pages, at, Bucket(pages), ObjectInfo(k, t));
    }
  }

  lemma ListedSomewhere(pages: seq<ListPage>, at: seq<Place>, objects: seq<ObjectInfo>, o: ObjectInfo)
    requires ListedAt(objects, pages, Any(), at)
    ensures o in objects <==>
            exists p :: 0 <= p < |pages| && pages[p].Contents? && Listed(Some(o.key), Some(o.stamp)) in pages[p].objects
  {
    if o in objects {
      var i :| 0 <= i < |objects| && objects[i] == o;
      assert HoldsAt(pages, at[i], o);
    }
    if p :| 0 <= p < |pages| && pages[p].Contents? && Listed(Some(o.key), Some(o.stamp)) in pages[p].objects {
      var e :| 0 <= e < |pages[p].objects| && pages[p].objects[e] == Listed(Some(o.key), Some(o.stamp));
      assert HoldsAt(pages, Place(p, e), o);
      assert Any()(o);
      var i :| 0 <= i < |at| && at[i] == Place(p, e);
      assert HoldsAt(pages, at[i], objects[i]);
    }
  }

  lemma {:induction false} ModifiedIsFilter(objects: seq<ObjectInfo>, ts: int)
    ensures ModifiedAfter(objects, ts) == Filter(objects, Later(ts))
  {
    if objects != [] {
      ModifiedIsFilter(objects[..|objects| - 1], ts);
    }
  }

  /** A selection, in order, of what a listing holds is a selection of the listing. */
  lemma SelectPlaces(
      pages: seq<ListPage>, all: seq<ObjectInfo>, places: seq<Place>, kept: seq<ObjectInfo>, keep: ObjectInfo -> bool,
      at: seq<int>) returns (chosen: seq<Place>)
    requires ListedAt(all, pages, Any(), places) && KeepsInOrder(kept, all, keep, at)
    ensures ListedAt(kept, pages, keep, chosen)
  {
    chosen := seq(|at|, i requires 0 <= i < |at| => places[at[i]]);
    forall p, e, o | HoldsAt(pages, Place(p, e), o) && keep(o)
      ensures Place(p, e) in chosen
    {
      assert Any()(o);
      var k :| 0 <= k < |places| && places[k] == Place(p, e);
      assert HoldsAt(pages, places[k], all[k]) && all[k] == o;
      var i :| 0 <= i < |at| && at[i] == k;
      assert chosen[i] == Place(p, e);
    }
  }

  lemma ModifiedIsListing(pages: seq<ListPage>, ts: int) returns (at: seq<Place>)
    ensures ListedAt(ModifiedAfter(Bucket(pages), ts), pages, Later(ts), at)
  {
    var places := BucketIsListing(pages);
    ModifiedIsFilter(Bucket(pages), ts);
    var kept := FilterKeepsInOrder(Bucket(pages), Later(ts));
    at := SelectPlaces(pages, Bucket(pages), places, ModifiedAfter(Bucket(pages), ts), Later(ts), kept);
  }

  /** The outer loop of StoreSearch: page after page. */
  method FilterPages(pages: seq<ListPage>, ts: int) returns (r: Result<seq<ObjectInfo>, SearchError>)
    ensures r == if Broken in pages then Failure(ListFailed) else Success(ModifiedAfter(Bucket(pages), ts))
  {
    var res: seq<ObjectInfo> := [];
    for p := 0 to |pages|
      invariant forall q :: 0 <= q < p ==> pages[q] != Broken
      invariant res == ModifiedAfter(Bucket(pages[..p]), ts)
    {
      if pages[p].Broken? {
        return Failure(ListFailed);
      }
      var kept := FilterPage(pages[p].objects, ts);
      BucketOneMore(pages, p, ts);
      res := res + kept;
    }
    assert pages[..|pages|] == pages;
    r := Success(res);
  }

  /** Every complete entry stamped later, in listing order; a broken page fails the call. */
  method StoreSearch(pages: seq<ListPage>, ts: int)
    returns (r: Result<seq<ObjectInfo>, SearchError>, ghost at: seq<Place>)
    ensures r == if Broken in pages then Failure(ListFailed) else Success(ModifiedAfter(Bucket(pages), ts))
    ensures r.Success? ==> ListedAt(r.value, pages, Later(ts), at)
  {
    r := FilterPages(pages, ts);
    at := ModifiedIsListing(pages, ts);
  }

  // ---------- legacy search ----------

  function LegacyExaminer(heads: Heads, codec: StatsCodec): Exam {
    (obj: ObjectInfo) => LegacyEntry(obj, heads(obj.key), codec)
  }

  function FirstFailure(objects: seq<ObjectInfo>, exam: Exam): Option<SearchError> {
    if objects == [] then None
    else if exam(objects[0]).Failed? then Some(exam(objects[0]).error)
    else FirstFailure(objects[1..], exam)
  }

  /** Every listed object, in listing order, unless one of them fails the call. */
  ghost predicate LegacyResult(r: Result<SearchPage, SearchError>, objects: seq<ObjectInfo>, exam: Exam) {
    match FirstFailure(objects, exam)
    case Some(error) => r == Failure(error)
    case None => r.Success? && RowsOf(r.value.entries, Yields(objects, exam), exam) && r.value.next == None
  }

  /** The first object that fails decides how the call fails. */
  lemma {:induction false} FirstFailureExactly(objects: seq<ObjectInfo>, exam: Exam, error: SearchError)
    ensures FirstFailure(objects, exam) == None <==> forall i :: 0 <= i < |objects| ==> !exam(objects[i]).Failed?
    ensures FirstFailure(objects, exam) == Some(error) <==>
            exists i :: FailsFirst(objects, exam, i) && exam(objects[i]) == Failed(error)
  {
    if objects != [] {
      var rest := objects[1..];
      FirstFailureExactly(rest, exam, error);
      if exam(objects[0]).Failed? {
        assert FailsFirst(objects, exam, 0);
        assert forall i :: FailsFirst(objects, exam, i) ==> i == 0;
      } else {
        assert forall i :: FailsFirst(rest, exam, i) ==> FailsFirst(objects, exam, i + 1);
        assert forall i :: FailsFirst(objects, exam, i) ==> FailsFirst(rest, exam, i - 1);
      }
    }
  }

  ghost predicate FailsFirst(objects: seq<ObjectInfo>, exam: Exam, i: int) {
    0 <= i < |objects| && exam(objects[i]).Failed? && forall j :: 0 <= j < i ==> !exam(objects[j]).Failed?
  }

  method SearchLegacy(objects: seq<ObjectInfo>, exam: Exam) returns (r: Result<SearchPage, SearchError>)
    ensures LegacyResult(r, objects, exam)
    ensures r.Failure? ==> exists i :: FailsFirst(objects, exam, i) && exam(objects[i]) == Failed(r.error)
    ensures r.Success? ==>
              && (forall i :: 0 <= i < |objects| ==> !exam(objects[i]).Failed?)
              && (exists at :: RowsAt(r.value.entries, objects, exam, at)) && r.value.next == None
  {
    var res: seq<SearchRes> := [];
    for i := 0 to |objects|
      invariant RowsOf(res, Yields(objects[..i], exam), exam)
      invariant FirstFailure(objects, exam) == FirstFailure(objects[i..], exam)
    {
      assert objects[..i + 1][..i] == objects[..i];
      assert objects[i..][1..] == objects[i + 1..];
      match exam(objects[i]) {
        case Failed(error) =>
          FirstFailureExactly(objects, exam, error);
          return Failure(error);
        case Skipped =>
        case Yielded(entry) => res := res + [entry];
      }
    }
    assert objects[..|objects|] == objects;
    r := Success(SearchPage(res, None));
    FirstFailureExactly(objects, exam, HeadFailed);
    ghost var at := RowsInOrder(res, objects, exam);
  }

  // ---------- the dispatch ----------

  datatype SearchRequest = SearchRequest(after: int, cursor: Option<Cursor>, limit: int)

  method Search(pages: seq<ListPage>, heads: Heads, codec: StatsCodec, req: SearchRequest)
    returns (r: Result<SearchPage, SearchError>, ghost at: seq<Place>)
    requires DistinctKeys(Bucket(pages))
    ensures ListedAt(Bucket(pages), pages, Any(), at)
    ensures req.cursor.Some? && req.limit <= 0 ==> r == Failure(CursorWithoutLimit)
    ensures !(req.cursor.Some? && req.limit <= 0) && Broken in pages ==> r == Failure(ListFailed)
    ensures req.limit > 0 && Broken !in pages ==>
              var fetch := if req.cursor.Some? then Continue(req.cursor.value) else Open(req.after);
              Renders(r, PageOf(fetch.Kind(), Select(Bucket(pages), Wanted(fetch)), Examiner(heads, codec), req.limit),
                      Examiner(heads, codec))
    ensures req.cursor.None? && req.limit <= 0 && Broken !in pages ==>
              LegacyResult(r, ModifiedAfter(Bucket(pages), req.after), LegacyExaminer(heads, codec))
  {
    at := BucketIsListing(pages);
    if req.cursor.Some? && req.limit <= 0 {
      return Failure(CursorWithoutLimit), at;
    }
    var ts := req.after;
    if req.cursor.Some? {
      ts := req.cursor.value.ListFrom();
    }
    var listed;
    ghost var later;
    listed, later := StoreSearch(pages, ts);
    if listed.Failure? {
      return Failure(listed.error), at;
    }
    var fetch := if req.cursor.Some? then Continue(req.cursor.value) else Open(req.after);
    PrefilterKeepsCandidates(Bucket(pages), fetch);
    if req.cursor.Some? {
      r := SearchCursor(listed.value, req.cursor.value, req.limit, Examiner(heads, codec));
    } else if req.limit > 0 {
      r := SearchPaged(listed.value, req.after, req.limit, Examiner(heads, codec));
    } else {
      r := SearchLegacy(listed.value, LegacyExaminer(heads, codec));
    }
  }
}
