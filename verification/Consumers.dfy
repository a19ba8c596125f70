/**
  * The two documented consumer loops on a bucket that does not change: following cursors, and the
  * earlier loop that advances `after`. Both deliver the one sorted list of eligible objects.
  */
module Consumers {
  import opened Results
  import opened Positions
  import opened Candidates
  import opened Entries
  import opened Pages
  import opened Runs
  import opened Paging

  /** The same objects, examined alike, on every page; listings may order them differently. */
  ghost predicate Still(envs: seq<Env>, env: Env) {
    forall i :: 0 <= i < |envs| ==>
      forall o :: (o in envs[i].listing <==> o in env.listing) && envs[i].exam(o) == env.exam(o)
  }

  /** Paging is invisible: for every limit, a completed run yields the whole eligible list, in order. */
  lemma PagingIsInvisible(after: int, limit: nat, envs: seq<Env>, pages: seq<Page>, env: Env)
    requires Completed(after, limit, envs, pages)
    requires DistinctKeys(env.listing) && Still(envs, env)
    ensures Flat(pages) == Eligible(env, after)
  {
    RunIsChain(after, limit, envs, pages);
    ChainIsInvisible(after, limit, envs, pages, env);
  }

  lemma ChainIsInvisible(after: int, limit: nat, envs: seq<Env>, pages: seq<Page>, env: Env)
    requires Chain(after, limit, envs, pages) && pages != [] && pages[|pages| - 1].next.None?
    requires DistinctKeys(env.listing) && Still(envs, env)
    ensures Flat(pages) == Eligible(env, after)
  {
    YieldedLiesBehind(after, limit, envs, pages, |pages|);
    EligibleElements(env, after);
    forall o
      ensures o in Flat(pages) <==> o in Eligible(env, after)
    {
      DeliveredIffEligible(after, limit, envs, pages, env, o);
    }
    AscendingUnique(Flat(pages), Eligible(env, after));
  }

  lemma DeliveredIffEligible(after: int, limit: nat, envs: seq<Env>, pages: seq<Page>, env: Env, o: ObjectInfo)
    requires Chain(after, limit, envs, pages) && pages != [] && pages[|pages| - 1].next.None?
    requires Still(envs, env)
    ensures o in Flat(pages) <==> env.Offers(o) && o.Second() > after
  {
    if env.Offers(o) {
      FateInChain(after, limit, envs, pages, 0, o);
    }
    if o in Flat(pages) {
      var i := YieldedWasOffered(after, limit, envs, pages, o);
    }
  }

  lemma RowsOfConcat(a: seq<SearchRes>, b: seq<SearchRes>, x: seq<ObjectInfo>, y: seq<ObjectInfo>, exam: Exam)
    requires RowsOf(a, x, exam) && RowsOf(b, y, exam)
    ensures RowsOf(a + b, x + y, exam)
  {
  }

  /** The objects a fetch still has ahead of it. */
  function Ahead(env: Env, fetch: Fetch): set<ObjectInfo> {
    set o | o in env.listing && fetch.Wants(o)
  }

  /** Some object the run has to examine fails the call. */
  ghost predicate SomeFails(env: Env, after: int) {
    exists o :: o in env.listing && o.Second() > after && env.exam(o).Failed?
  }

  method FetchPage(env: Env, fetch: Fetch, limit: nat) returns (r: Result<SearchPage, SearchError>)
    requires DistinctKeys(env.listing) && limit >= 1
    ensures Renders(r, PageIn(env, fetch, limit), env.exam)
  {
    match fetch {
      case Open(after) => r := SearchPaged(env.listing, after, limit, env.exam);
      case Continue(cursor) => r := SearchCursor(env.listing, cursor, limit, env.exam);
    }
  }

  function Repeat(env: Env, n: nat): seq<Env> { seq(n, _ => env) }

  /** A run under way on a still bucket, about to make this fetch. */
  ghost predicate UnderWay(after: int, limit: nat, pages: seq<Page>, env: Env, fetch: Fetch) {
    && Chain(after, limit, Repeat(env, |pages|), pages)
    && fetch == FetchOf(after, pages, |pages|)
    && (pages != [] ==> pages[|pages| - 1].next.Some?)
  }

  lemma {:induction false} FlatExtends(pages: seq<Page>, page: Page, n: nat)
    requires n <= |pages|
    ensures FlatTo(pages + [page], n) == FlatTo(pages, n)
  {
    if n > 0 {
      FlatExtends(pages, page, n - 1);
    }
  }

  lemma OnePageMore(after: int, limit: nat, pages: seq<Page>, env: Env, fetch: Fetch, page: Page)
    requires UnderWay(after, limit, pages, env, fetch)
    requires Sound(env, fetch, limit, page) && NothingDropped(env, fetch, page)
    ensures Chain(after, limit, Repeat(env, |pages| + 1), pages + [page])
    ensures page.next.Some? ==> UnderWay(after, limit, pages + [page], env, Continue(page.next.value))
    ensures Flat(pages + [page]) == Flat(pages) + page.yielded
  {
    FlatExtends(pages, page, |pages|);
    ChainExtends(after, limit, pages, env, page);
  }

  lemma ChainExtends(after: int, limit: nat, pages: seq<Page>, env: Env, page: Page)
    requires Chain(after, limit, Repeat(env, |pages|), pages)
    requires pages != [] ==> pages[|pages| - 1].next.Some?
    requires Sound(env, FetchOf(after, pages, |pages|), limit, page)
    requires NothingDropped(env, FetchOf(after, pages, |pages|), page)
    ensures Chain(after, limit, Repeat(env, |pages| + 1), pages + [page])
  {
    var more := pages + [page];
    forall i | 0 <= i < |more|
      ensures LinkAt(after, limit, Repeat(env, |more|), more, i)
    {
      assert FetchOf(after, more, i) == FetchOf(after, pages, i);
      assert i < |pages| ==> LinkAt(after, limit, Repeat(env, |pages|), pages, i);
    }
  }

  /** Each page moves at least one object out of the way, and none back in. */
  lemma AheadShrinks(after: int, limit: nat, pages: seq<Page>, env: Env, fetch: Fetch, page: Page)
    requires UnderWay(after, limit, pages, env, fetch) && page.next.Some?
    requires Sound(env, fetch, limit, page) && NothingDropped(env, fetch, page)
    ensures Ahead(env, Continue(page.next.value)) < Ahead(env, fetch)
  {
    OnePageMore(after, limit, pages, env, fetch, page);
    var more := pages + [page];
    var next := Continue(page.next.value);
    forall o | o in Ahead(env, next)
      ensures o in Ahead(env, fetch)
    {
      if !fetch.Wants(o) {
        BehindStaysBehind(after, limit, Repeat(env, |more|), more, |pages|, o);
      }
    }
    var last := Last(page.yielded);
    CursorTrichotomy(last.Position(), last.Position());
    assert last in page.yielded && last in Ahead(env, fetch) && last !in Ahead(env, next);
  }

  /** What a run still wants lies in a second after its watermark. */
  lemma WantedIsAfter(after: int, limit: nat, pages: seq<Page>, env: Env, fetch: Fetch, o: ObjectInfo)
    requires UnderWay(after, limit, pages, env, fetch) && fetch.Wants(o)
    ensures o.Second() > after
  {
    if o.Second() <= after {
      BehindForever(after, limit, Repeat(env, |pages|), pages, 0, |pages|, o);
    }
  }

  lemma FailureHasCause(after: int, limit: nat, pages: seq<Page>, env: Env, fetch: Fetch)
    requires UnderWay(after, limit, pages, env, fetch) && DistinctKeys(env.listing)
    requires PageIn(env, fetch, limit).Failure?
    ensures SomeFails(env, after)
  {
    var cands := Select(env.listing, Wanted(fetch));
    SelectCorrect(env.listing, Wanted(fetch));
    var stop := Stop(fetch.Kind(), cands, env.exam, limit, 0);
    var i :| 0 <= i < stop && env.exam(cands[..stop][i]).Failed?;
    assert cands[..stop][i] == cands[i] && cands[i] in cands;
    WantedIsAfter(after, limit, pages, env, fetch, cands[i]);
  }

  lemma CompletionMeansNoFailure(after: int, limit: nat, pages: seq<Page>, env: Env)
    requires Chain(after, limit, Repeat(env, |pages|), pages)
    requires pages != [] && pages[|pages| - 1].next.None?
    ensures !SomeFails(env, after)
  {
    var envs := Repeat(env, |pages|);
    forall o | o in env.listing && o.Second() > after
      ensures !env.exam(o).Failed?
    {
      if !env.exam(o).Skipped? {
        var j := AheadIsYielded(after, limit, envs, pages, 0, o);
        assert LinkAt(after, limit, envs, pages, j);
      }
    }
  }

  /**
    * Following Link headers until a page carries none. It ends, fails exactly when some object it
    * has to examine fails, and otherwise delivers the eligible list.
    */
  method FollowLinks(env: Env, after: int, limit: nat) returns (r: Result<seq<SearchRes>, SearchError>)
    requires DistinctKeys(env.listing) && limit >= 1
    ensures r.Failure? <==> SomeFails(env, after)
    ensures r.Success? ==> RowsOf(r.value, Eligible(env, after), env.exam)
  {
    var all: seq<SearchRes> := [];
    var fetch := Open(after);
    ghost var pages: seq<Page> := [];
    while true
      invariant UnderWay(after, limit, pages, env, fetch)
      invariant RowsOf(all, Flat(pages), env.exam)
      decreases Ahead(env, fetch)
    {
      var page := FetchPage(env, fetch, limit);
      if page.Failure? {
        FailureHasCause(after, limit, pages, env, fetch);
        return Failure(page.error);
      }
      ghost var built := PageIn(env, fetch, limit).value;
      PageSound(env, fetch, limit, built);
      PageDropsNothing(env, fetch, limit, built);
      RowsOfConcat(all, page.value.entries, Flat(pages), built.yielded, env.exam);
      OnePageMore(after, limit, pages, env, fetch, built);
      all := all + page.value.entries;
      if page.value.next.None? {
        ghost var whole := pages + [built];
        CompletionMeansNoFailure(after, limit, whole, env);
        ChainIsInvisible(after, limit, Repeat(env, |whole|), whole, env);
        return Success(all);
      }
      AheadShrinks(after, limit, pages, env, fetch, built);
      pages := pages + [built];
      fetch := Continue(page.value.next.value);
    }
  }

  // ---------- the earlier loop ----------

  /** created_at comes from the listing's stamp, whatever LastModified HEAD reports. */
  ghost predicate StampsFromListing(env: Env) {
    forall o :: env.exam(o).Yielded? ==> env.exam(o).entry.createdAt == o.Second()
  }

  lemma ServedStampsComeFromListing(listing: seq<ObjectInfo>, heads: Heads, codec: StatsCodec)
    ensures StampsFromListing(Env(listing, Examiner(heads, codec)))
  {
    forall o | Examiner(heads, codec)(o).Yielded?
      ensures Examiner(heads, codec)(o).entry.createdAt == o.Second()
    {
      CandidateFate(o, heads(o.key), codec);
    }
  }

  /** A page with a cursor splits the eligible list at the end of its last second. */
  lemma PageSplitsEligible(env: Env, after: int, limit: nat, page: Page)
    requires limit >= 1 && Built(env, Open(after), limit, page) && page.yielded != []
    ensures var second := Last(page.yielded).Second();
            && second > after
            && Eligible(env, after) == page.yielded + Eligible(env, second)
            && (SomeFails(env, after) <==> SomeFails(env, second))
  {
    var second := Last(page.yielded).Second();
    PageSound(env, Open(after), limit, page);
    PageDropsNothing(env, Open(after), limit, page);
    assert Last(page.yielded) in page.yielded;
    EligibleElements(env, after);
    EligibleElements(env, second);
    forall o | o in page.yielded
      ensures o.Second() <= second
    {
      var i :| 0 <= i < |page.yielded| && page.yielded[i] == o;
      SecondsNondecreasing(page.yielded, i, |page.yielded| - 1);
    }
    SplitAtSecond(page.yielded, Eligible(env, second), Eligible(env, after), second);
  }

  lemma SplitAtSecond(early: seq<ObjectInfo>, late: seq<ObjectInfo>, all: seq<ObjectInfo>, second: int)
    requires Ascending(early) && Ascending(late) && Ascending(all)
    requires forall o :: o in early ==> o.Second() <= second
    requires forall o :: o in late ==> o.Second() > second
    requires forall o :: o in all <==> o in early || o in late
    ensures all == early + late
  {
    forall x, y | x in early && y in late
      ensures Less(x, y)
    {
      EarlierSecondIsLess(x, y);
    }
    AscendingConcat(early, late);
    AscendingUnique(all, early + late);
  }

  lemma EarlierSecondIsLess(x: ObjectInfo, y: ObjectInfo)
    requires x.Second() < y.Second()
    ensures Less(x, y)
  {
    SecondOfMillis(x.stamp);
    SecondOfMillis(y.stamp);
  }

  /** One turn of the loop: the rows of a full page, then everything after the second it ends in. */
  lemma NextTurn(
      env: Env, after: int, from: int, limit: nat, page: Page,
      all: seq<SearchRes>, done: seq<ObjectInfo>, rows: seq<SearchRes>)
    requires limit >= 1 && StampsFromListing(env) && Built(env, Open(from), limit, page)
    requires Eligible(env, after) == done + Eligible(env, from) && (SomeFails(env, after) <==> SomeFails(env, from))
    requires RowsOf(all, done, env.exam) && RowsOf(rows, page.yielded, env.exam) && rows != []
    ensures var second := rows[|rows| - 1].createdAt;
            && Eligible(env, after) == done + page.yielded + Eligible(env, second)
            && (SomeFails(env, after) <==> SomeFails(env, second))
            && Ahead(env, Open(second)) < Ahead(env, Open(from))
    ensures RowsOf(all + rows, done + page.yielded, env.exam)
  {
    var last := Last(page.yielded);
    assert env.exam(last).Yielded?;
    PageSplitsEligible(env, from, limit, page);
    FewerAhead(env, from, limit, page);
    RowsOfConcat(all, rows, done, page.yielded, env.exam);
    assert done + (page.yielded + Eligible(env, last.Second())) == done + page.yielded + Eligible(env, last.Second());
  }

  /**
    * Advancing `after` to the last entry's created_at and stopping on a page shorter than the
    * limit: whatever HEAD answers, the loop ends and delivers the same list as following Link headers.
    */
  method AdvanceAfter(listing: seq<ObjectInfo>, heads: Heads, codec: StatsCodec, after: int, limit: nat)
    returns (r: Result<seq<SearchRes>, SearchError>)
    requires DistinctKeys(listing) && limit >= 1
    ensures var env := Env(listing, Examiner(heads, codec));
            && (r.Failure? <==> SomeFails(env, after))
            && (r.Success? ==> RowsOf(r.value, Eligible(env, after), env.exam))
  {
    ServedStampsComeFromListing(listing, heads, codec);
    r := AdvanceAfterIn(Env(listing, Examiner(heads, codec)), after, limit);
  }

  method AdvanceAfterIn(env: Env, after: int, limit: nat) returns (r: Result<seq<SearchRes>, SearchError>)
    requires DistinctKeys(env.listing) && limit >= 1 && StampsFromListing(env)
    ensures r.Failure? <==> SomeFails(env, after)
    ensures r.Success? ==> RowsOf(r.value, Eligible(env, after), env.exam)
  {
    var all: seq<SearchRes> := [];
    var from := after;
    ghost var done: seq<ObjectInfo> := [];
    while true
      invariant Eligible(env, after) == done + Eligible(env, from)
      invariant SomeFails(env, after) <==> SomeFails(env, from)
      invariant RowsOf(all, done, env.exam)
      decreases Ahead(env, Open(from))
    {
      var page := FetchPage(env, Open(from), limit);
      if page.Failure? {
        FailureHasCause(from, limit, [], env, Open(from));
        return Failure(page.error);
      }
      ghost var built := PageIn(env, Open(from), limit).value;
      var rows := page.value.entries;
      if |rows| < limit {
        ShortPageIsLast(env, from, limit, built);
        RowsOfConcat(all, rows, done, built.yielded, env.exam);
        return Success(all + rows);
      }
      NextTurn(env, after, from, limit, built, all, done, rows);
      all := all + rows;
      done := done + built.yielded;
      from := rows[|rows| - 1].createdAt;
    }
  }

  lemma ShortPageIsLast(env: Env, after: int, limit: nat, page: Page)
    requires limit >= 1 && Built(env, Open(after), limit, page) && |page.yielded| < limit
    ensures page.yielded == Eligible(env, after) && !SomeFails(env, after)
  {
    PageSound(env, Open(after), limit, page);
    PageDropsNothing(env, Open(after), limit, page);
    OpeningPageIsPrefix(env, after, limit, page);
  }

  lemma FewerAhead(env: Env, after: int, limit: nat, page: Page)
    requires Built(env, Open(after), limit, page) && page.yielded != []
    ensures Ahead(env, Open(Last(page.yielded).Second())) < Ahead(env, Open(after))
  {
    PageSound(env, Open(after), limit, page);
    var last := Last(page.yielded);
    assert last in page.yielded;
    assert last in Ahead(env, Open(after)) && last !in Ahead(env, Open(last.Second()));
  }
}
