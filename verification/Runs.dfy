/**
  * Runs of the change feed. A run opens with a watermark and follows cursors until a page hands
  * out none. Each page meets its own environment: the bucket may have changed in any way since
  * the previous page, and HEAD may answer anything.
  */
module Runs {
  import opened Results
  import opened Positions
  import opened Candidates
  import opened Entries
  import opened Pages
  import Keys

  /** What one page finds: the listing of the bucket, and what examining each object leads to. */
  datatype Env = Env(listing: seq<ObjectInfo>, exam: Exam) {
    ghost predicate Offers(o: ObjectInfo) { o in listing && exam(o).Yielded? }
  }

  /** An environment offers exactly the objects it lists under a well-formed key and HEAD finds. */
  lemma OffersExactly(listing: seq<ObjectInfo>, heads: Heads, codec: StatsCodec, o: ObjectInfo)
    ensures Env(listing, Examiner(heads, codec)).Offers(o)
            <==> o in listing && Keys.WellKeyed(o.key) && heads(o.key).Found?
  {
    CandidateFate(o, heads(o.key), codec);
  }

  function PageIn(env: Env, fetch: Fetch, limit: nat): Result<Page, SearchError> {
    PageOf(fetch.Kind(), Select(env.listing, Wanted(fetch)), env.exam, limit)
  }

  ghost predicate Built(env: Env, fetch: Fetch, limit: nat, page: Page) {
    DistinctKeys(env.listing) && PageIn(env, fetch, limit) == Success(page)
  }

  // ---------- one page ----------

  /** A page yields wanted, offered objects only, in order, and hands out the position of the last. */
  ghost predicate Sound(env: Env, fetch: Fetch, limit: nat, page: Page) {
    && Ascending(page.yielded)
    && (forall o :: o in page.yielded ==> fetch.Wants(o) && env.Offers(o))
    && (page.next.Some? ==>
          page.yielded != [] && |page.yielded| >= limit && page.next.value == Last(page.yielded).Position())
  }

  /** An object a page wants is yielded, skipped, or still ahead of the cursor the page hands out. */
  ghost predicate NothingDropped(env: Env, fetch: Fetch, page: Page) {
    forall o :: o in env.listing && fetch.Wants(o) && !env.exam(o).Skipped? ==>
                  o in page.yielded || (page.next.Some? && page.next.value.Precedes(o))
  }

  /** An opening page with a cursor leaves nothing wanted in the second it ends in. */
  ghost predicate SecondCompleted(env: Env, fetch: Fetch, page: Page) {
    fetch.Open? && page.next.Some? && page.yielded != [] ==>
      forall o :: o in env.listing && fetch.Wants(o) && !env.exam(o).Skipped? && o !in page.yielded ==>
                    o.Second() > Last(page.yielded).Second()
  }

  lemma PageSound(env: Env, fetch: Fetch, limit: nat, page: Page)
    requires Built(env, fetch, limit, page)
    ensures Sound(env, fetch, limit, page)
  {
    var cands := Select(env.listing, Wanted(fetch));
    var stop := Stop(fetch.Kind(), cands, env.exam, limit, 0);
    SelectCorrect(env.listing, Wanted(fetch));
    assert forall o :: o in cands[..stop] ==> o in cands;
    YieldsAscending(cands[..stop], env.exam);
    YieldsElements(cands[..stop], env.exam);
  }

  lemma PageDropsNothing(env: Env, fetch: Fetch, limit: nat, page: Page)
    requires Built(env, fetch, limit, page)
    ensures NothingDropped(env, fetch, page)
    ensures SecondCompleted(env, fetch, page)
  {
    forall o | o in env.listing && fetch.Wants(o) && !env.exam(o).Skipped? && o !in page.yielded
      ensures page.next.Some? && page.next.value.Precedes(o)
      ensures fetch.Open? ==> o.Second() > Last(page.yielded).Second()
    {
      NotYieldedIsAhead(env, fetch, limit, page, o);
    }
  }

  lemma InPrefix(s: seq<ObjectInfo>, n: nat, k: nat)
    requires n <= |s| && k < |s|
    ensures k < n ==> s[k] in s[..n]
  {
    if k < n {
      assert s[..n][k] == s[k];
    }
  }

  lemma NotYieldedIsAhead(env: Env, fetch: Fetch, limit: nat, page: Page, o: ObjectInfo)
    requires Built(env, fetch, limit, page)
    requires o in env.listing && fetch.Wants(o) && !env.exam(o).Skipped? && o !in page.yielded
    ensures page.next.Some? && page.next.value.Precedes(o)
    ensures page.yielded != [] && (fetch.Open? ==> o.Second() > Last(page.yielded).Second())
  {
    var cands := Select(env.listing, Wanted(fetch));
    var stop := Stop(fetch.Kind(), cands, env.exam, limit, 0);
    SelectCorrect(env.listing, Wanted(fetch));
    var k :| 0 <= k < |cands| && cands[k] == o;
    YieldsElements(cands[..stop], env.exam);
    InPrefix(cands, stop, k);
    var last := Last(page.yielded);
    assert last in cands[..stop];
    assert Less(last, o);
    if k > stop { LessOrdersSeconds(cands[stop], o); }
    LessOrdersSeconds(last, cands[stop]);
  }

  /** A continued page that hands out a cursor holds exactly `limit` entries. */
  lemma ContinuedPageIsExact(env: Env, cursor: Cursor, limit: nat, page: Page)
    requires limit >= 1 && Built(env, Continue(cursor), limit, page)
    ensures page.next.Some? ==> |page.yielded| == limit
    ensures |page.yielded| <= limit
  {
    var exam := env.exam;
    var cands := Select(env.listing, Wanted(Continue(cursor)));
    var stop := Stop(Hard, cands, exam, limit, 0);
    if stop > 0 {
      assert !StopsBefore(Hard, cands, exam, limit, stop - 1);
      assert cands[..stop][..stop - 1] == cands[..stop - 1];
    }
  }

  // ---------- runs ----------

  /** How page i is fetched: by the watermark, then by the previous page's cursor. */
  function FetchOf(after: int, pages: seq<Page>, i: nat): Fetch
    requires i <= |pages|
  {
    if i == 0 || pages[i - 1].next.None? then Open(after) else Continue(pages[i - 1].next.value)
  }

  ghost predicate BuiltAt(after: int, limit: nat, envs: seq<Env>, pages: seq<Page>, i: nat)
    requires i < |envs| == |pages|
  {
    Built(envs[i], FetchOf(after, pages, i), limit, pages[i])
  }

  /** The pages of a run so far, each built in its own environment. */
  ghost predicate IsRun(after: int, limit: nat, envs: seq<Env>, pages: seq<Page>) {
    && limit >= 1
    && |envs| == |pages|
    && (forall i :: 0 <= i < |pages| - 1 ==> pages[i].next.Some?)
    && (forall i :: 0 <= i < |pages| ==> BuiltAt(after, limit, envs, pages, i))
  }

  /** What the proofs about runs use of a page. */
  ghost predicate LinkAt(after: int, limit: nat, envs: seq<Env>, pages: seq<Page>, i: nat)
    requires i < |envs| == |pages|
  {
    && Sound(envs[i], FetchOf(after, pages, i), limit, pages[i])
    && NothingDropped(envs[i], FetchOf(after, pages, i), pages[i])
  }

  ghost predicate Chain(after: int, limit: nat, envs: seq<Env>, pages: seq<Page>) {
    && limit >= 1
    && |envs| == |pages|
    && (forall i :: 0 <= i < |pages| - 1 ==> pages[i].next.Some?)
    && (forall i :: 0 <= i < |pages| ==> LinkAt(after, limit, envs, pages, i))
  }

  lemma RunIsChain(after: int, limit: nat, envs: seq<Env>, pages: seq<Page>)
    requires IsRun(after, limit, envs, pages)
    ensures Chain(after, limit, envs, pages)
  {
    forall i | 0 <= i < |pages|
      ensures LinkAt(after, limit, envs, pages, i)
    {
      assert BuiltAt(after, limit, envs, pages, i);
      PageSound(envs[i], FetchOf(after, pages, i), limit, pages[i]);
      PageDropsNothing(envs[i], FetchOf(after, pages, i), limit, pages[i]);
    }
  }

  ghost predicate Completed(after: int, limit: nat, envs: seq<Env>, pages: seq<Page>) {
    IsRun(after, limit, envs, pages) && pages != [] && pages[|pages| - 1].next.None?
  }

  /** Everything the first n pages yield, in the order it is yielded. */
  function FlatTo(pages: seq<Page>, n: nat): seq<ObjectInfo>
    requires n <= |pages|
  {
    if n == 0 then [] else FlatTo(pages, n - 1) + pages[n - 1].yielded
  }

  function Flat(pages: seq<Page>): seq<ObjectInfo> { FlatTo(pages, |pages|) }

  lemma {:induction false} FlatElements(pages: seq<Page>, n: nat, o: ObjectInfo)
    requires n <= |pages|
    ensures o in FlatTo(pages, n) <==> exists i :: 0 <= i < n && o in pages[i].yielded
  {
    if n > 0 {
      FlatElements(pages, n - 1, o);
    }
  }

  /** Everything in `yielded` lies before whatever a page fetched with this cursor can want. */
  ghost predicate LiesBehind(yielded: seq<ObjectInfo>, cursor: Cursor) {
    forall o, x :: o in yielded && cursor.Precedes(x) ==> Less(o, x)
  }

  lemma LastLiesBehind(yielded: seq<ObjectInfo>)
    requires Ascending(yielded) && yielded != []
    ensures LiesBehind(yielded, Last(yielded).Position())
  {
    var last := Last(yielded);
    forall o, x | o in yielded && last.Position().Precedes(x)
      ensures Less(o, x)
    {
      if o != last {
        LessTransitive(o, last, x);
      }
    }
  }

  lemma AppendPage(front: seq<ObjectInfo>, env: Env, fetch: Fetch, limit: nat, page: Page)
    requires Ascending(front) && Sound(env, fetch, limit, page)
    requires if fetch.Open? then front == [] else LiesBehind(front, fetch.cursor)
    ensures Ascending(front + page.yielded)
    ensures page.next.Some? ==> LiesBehind(front + page.yielded, page.next.value)
  {
    assert AllBefore(front, page.yielded);
    AscendingConcat(front, page.yielded);
    if page.next.Some? {
      assert Last(front + page.yielded) == Last(page.yielded);
      LastLiesBehind(front + page.yielded);
    }
  }

  lemma {:induction false} YieldedLiesBehind(after: int, limit: nat, envs: seq<Env>, pages: seq<Page>, n: nat)
    requires Chain(after, limit, envs, pages) && n <= |pages|
    ensures Ascending(FlatTo(pages, n))
    ensures n > 0 && pages[n - 1].next.Some? ==> LiesBehind(FlatTo(pages, n), pages[n - 1].next.value)
  {
    if n > 0 {
      YieldedLiesBehind(after, limit, envs, pages, n - 1);
      assert n > 1 ==> pages[n - 2].next.Some?;
      assert LinkAt(after, limit, envs, pages, n - 1);
      AppendPage(FlatTo(pages, n - 1), envs[n - 1], FetchOf(after, pages, n - 1), limit, pages[n - 1]);
    }
  }

  /**
    * Within any run, under any changes of the bucket between its pages, the yielded positions
    * increase strictly: no (stamp, key) comes twice.
    */
  lemma RunStrictlyIncreasing(after: int, limit: nat, envs: seq<Env>, pages: seq<Page>)
    requires IsRun(after, limit, envs, pages)
    ensures Ascending(Flat(pages))
    ensures forall i, j :: 0 <= i < j < |Flat(pages)| ==> Flat(pages)[i].Position() != Flat(pages)[j].Position()
  {
    RunIsChain(after, limit, envs, pages);
    YieldedLiesBehind(after, limit, envs, pages, |pages|);
    var all := Flat(pages);
    forall i, j | 0 <= i < j < |all|
      ensures all[i].Position() != all[j].Position()
    {
      CursorTrichotomy(all[i].Position(), all[j].Position());
    }
  }

  /** Once an object is behind a run it stays behind. */
  lemma BehindStaysBehind(after: int, limit: nat, envs: seq<Env>, pages: seq<Page>, i: nat, o: ObjectInfo)
    requires Chain(after, limit, envs, pages)
    requires i < |pages| && pages[i].next.Some?
    requires !FetchOf(after, pages, i).Wants(o)
    ensures !FetchOf(after, pages, i + 1).Wants(o)
  {
    assert LinkAt(after, limit, envs, pages, i);
    var last := Last(pages[i].yielded);
    assert last in pages[i].yielded;
    if Less(last, o) {
      if i == 0 {
        LessOrdersSeconds(last, o);
      } else {
        assert pages[i - 1].next.Some?;
        CursorTransitive(pages[i - 1].next.value, last.Position(), o.Position());
      }
    }
  }

  lemma {:induction false} BehindForever(
      after: int, limit: nat, envs: seq<Env>, pages: seq<Page>, i: nat, j: nat, o: ObjectInfo)
    requires Chain(after, limit, envs, pages)
    requires i <= j <= |pages| && !FetchOf(after, pages, i).Wants(o)
    requires j > 0 ==> pages[j - 1].next.Some?
    ensures !FetchOf(after, pages, j).Wants(o)
    decreases j - i
  {
    if i < j {
      assert pages[i].next.Some?;
      BehindStaysBehind(after, limit, envs, pages, i, o);
      BehindForever(after, limit, envs, pages, i + 1, j, o);
    }
  }

  lemma BehindIsNeverYielded(after: int, limit: nat, envs: seq<Env>, pages: seq<Page>, i: nat, j: nat, o: ObjectInfo)
    requires Chain(after, limit, envs, pages)
    requires i <= j < |pages| && !FetchOf(after, pages, i).Wants(o)
    ensures o !in pages[j].yielded
  {
    assert j > 0 ==> pages[j - 1].next.Some?;
    BehindForever(after, limit, envs, pages, i, j, o);
    assert LinkAt(after, limit, envs, pages, j);
  }

  lemma AheadStep(after: int, limit: nat, envs: seq<Env>, pages: seq<Page>, i: nat, o: ObjectInfo)
    requires Chain(after, limit, envs, pages) && i < |pages|
    requires FetchOf(after, pages, i).Wants(o) && o in envs[i].listing && !envs[i].exam(o).Skipped?
    ensures o in pages[i].yielded || (pages[i].next.Some? && FetchOf(after, pages, i + 1).Wants(o))
  {
    assert LinkAt(after, limit, envs, pages, i);
  }

  /** An object ahead of page i that no page from i on skips is yielded by one of them. */
  lemma AheadIsYielded(after: int, limit: nat, envs: seq<Env>, pages: seq<Page>, i: nat, o: ObjectInfo)
    returns (j: nat)
    requires Chain(after, limit, envs, pages) && i < |pages| && pages[|pages| - 1].next.None?
    requires FetchOf(after, pages, i).Wants(o)
    requires forall k :: i <= k < |pages| ==> o in envs[k].listing && !envs[k].exam(o).Skipped?
    ensures i <= j < |pages| && o in pages[j].yielded
  {
    j := i;
    while o !in pages[j].yielded
      invariant i <= j < |pages| && FetchOf(after, pages, j).Wants(o)
      decreases |pages| - j
    {
      AheadStep(after, limit, envs, pages, j, o);
      j := j + 1;
    }
  }

  lemma YieldedWasOffered(after: int, limit: nat, envs: seq<Env>, pages: seq<Page>, o: ObjectInfo) returns (i: nat)
    requires Chain(after, limit, envs, pages) && o in Flat(pages)
    ensures i < |pages| && o in pages[i].yielded && envs[i].Offers(o)
  {
    FlatElements(pages, |pages|, o);
    i :| 0 <= i < |pages| && o in pages[i].yielded;
    assert LinkAt(after, limit, envs, pages, i);
  }

  lemma {:induction false} AscendingOccurrences(s: seq<ObjectInfo>, o: ObjectInfo)
    requires Ascending(s)
    ensures multiset(s)[o] == if o in s then 1 else 0
  {
    if s != [] {
      assert s == [s[0]] + s[1..];
      AscendingNoDuplicates(s);
      AscendingOccurrences(s[1..], o);
      assert s[0] !in s[1..];
    }
  }

  lemma FateInChain(after: int, limit: nat, envs: seq<Env>, pages: seq<Page>, landed: nat, o: ObjectInfo)
    requires Chain(after, limit, envs, pages) && landed < |pages| && pages[|pages| - 1].next.None?
    requires forall i :: 0 <= i < landed ==> !envs[i].Offers(o)
    requires forall i :: landed <= i < |pages| ==> envs[i].Offers(o)
    ensures o in Flat(pages) <==> FetchOf(after, pages, landed).Wants(o)
  {
    FlatElements(pages, |pages|, o);
    if FetchOf(after, pages, landed).Wants(o) {
      var j := AheadIsYielded(after, limit, envs, pages, landed, o);
    } else if o in Flat(pages) {
      var j :| 0 <= j < |pages| && o in pages[j].yielded;
      assert LinkAt(after, limit, envs, pages, j);
      BehindIsNeverYielded(after, limit, envs, pages, landed, j, o);
    }
  }

  /**
    * The exact fate of an object that lands before page L is listed and stays put: the completed
    * run yields it, once, exactly when its position is one page L was fetched for: strictly after
    * its cursor, or, on the opening page, in a second after the watermark.
    */
  lemma MidRunUploadFate(after: int, limit: nat, envs: seq<Env>, pages: seq<Page>, landed: nat, o: ObjectInfo)
    requires Completed(after, limit, envs, pages) && landed < |pages|
    requires forall i :: 0 <= i < landed ==> !envs[i].Offers(o)
    requires forall i :: landed <= i < |pages| ==> envs[i].Offers(o)
    ensures multiset(Flat(pages))[o] == if FetchOf(after, pages, landed).Wants(o) then 1 else 0
  {
    RunIsChain(after, limit, envs, pages);
    FateInChain(after, limit, envs, pages, landed, o);
    YieldedLiesBehind(after, limit, envs, pages, |pages|);
    AscendingOccurrences(Flat(pages), o);
  }

  /** An object offered to all pages of a completed run is yielded exactly once if its second is after the watermark. */
  lemma StableObjectExactlyOnce(after: int, limit: nat, envs: seq<Env>, pages: seq<Page>, o: ObjectInfo)
    requires Completed(after, limit, envs, pages)
    requires forall i :: 0 <= i < |pages| ==> envs[i].Offers(o)
    ensures multiset(Flat(pages))[o] == if o.Second() > after then 1 else 0
  {
    MidRunUploadFate(after, limit, envs, pages, 0, o);
  }

  /** A run of P pages has yielded at least (P - 1) * limit entries. */
  lemma PagesAreFull(after: int, limit: nat, envs: seq<Env>, pages: seq<Page>)
    requires IsRun(after, limit, envs, pages) && pages != []
    ensures (|pages| - 1) * limit <= |Flat(pages)|
  {
    RunIsChain(after, limit, envs, pages);
    ChainIsFull(after, limit, envs, pages);
  }

  lemma ChainIsFull(after: int, limit: nat, envs: seq<Env>, pages: seq<Page>)
    requires Chain(after, limit, envs, pages) && pages != []
    ensures (|pages| - 1) * limit <= |Flat(pages)|
  {
    var n := |pages| - 1;
    FullUpTo(after, limit, envs, pages, n);
    assert FlatTo(pages, n + 1) == FlatTo(pages, n) + pages[n].yielded;
  }

  lemma {:induction false} FullUpTo(after: int, limit: nat, envs: seq<Env>, pages: seq<Page>, n: nat)
    requires Chain(after, limit, envs, pages) && n < |pages|
    ensures n * limit <= |FlatTo(pages, n)|
  {
    if n > 0 {
      FullUpTo(after, limit, envs, pages, n - 1);
      assert LinkAt(after, limit, envs, pages, n - 1) && pages[n - 1].next.Some?;
      assert n * limit == (n - 1) * limit + limit;
    }
  }
}
