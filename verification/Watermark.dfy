/**
  * The documented protocol between runs: each run opens at the floor of the last successful run's
  * start minus an overlap, and a failed run does not advance the watermark.
  */
module Watermark {
  import opened Results
  import opened Integers
  import opened Positions
  import opened Candidates
  import opened Entries
  import opened Pages
  import opened Runs

  /**
    * `overlap` and `initial` in seconds; `skew` bounds how far the consumer's clock runs ahead of
    * the store's and `delay` how long after its stamp an object becomes visible, in nanoseconds.
    */
  datatype Protocol = Protocol(initial: int, overlap: int, skew: nat, delay: nat, limit: nat)

  /** What the bucket holds at each instant of the store's clock. */
  type World = int -> set<ObjectInfo>

  /** `startedAt` is on the consumer's clock, `times` are the instants of the listings on the store's. */
  datatype RunRecord = RunRecord(
    startedAt: int, after: int, succeeded: bool, times: seq<int>, envs: seq<Env>, pages: seq<Page>)

  /** The watermark before run r. */
  function WatermarkBefore(p: Protocol, history: seq<RunRecord>, r: nat): int
    requires r <= |history|
  {
    if r == 0 then p.initial
    else if history[r - 1].succeeded then history[r - 1].startedAt / NANOS_PER_SECOND - p.overlap
    else WatermarkBefore(p, history, r - 1)
  }

  ghost predicate Lists(env: Env, objects: set<ObjectInfo>) {
    forall o :: o in env.listing <==> o in objects
  }

  /** A successful run: completed against snapshots of the world, none before it started. */
  ghost predicate Succeeded(p: Protocol, world: World, run: RunRecord) {
    && Completed(run.after, p.limit, run.envs, run.pages)
    && |run.times| == |run.envs|
    && run.startedAt - p.skew <= run.times[0]
    && (forall i, j :: 0 <= i <= j < |run.times| ==> run.times[i] <= run.times[j])
    && (forall i :: 0 <= i < |run.times| ==> Lists(run.envs[i], world(run.times[i])))
  }

  ghost predicate Follows(p: Protocol, world: World, history: seq<RunRecord>) {
    && (forall r :: 0 <= r < |history| ==> history[r].after == WatermarkBefore(p, history, r))
    && (forall r :: 0 <= r < |history| && history[r].succeeded ==> Succeeded(p, world, history[r]))
    && (forall q, r :: 0 <= q < r < |history| && history[q].succeeded && history[r].succeeded ==>
          End(history[q]) <= Begin(history[r]))
  }

  function Begin(run: RunRecord): int { if run.times == [] then 0 else run.times[0] }

  function End(run: RunRecord): int { if run.times == [] then 0 else run.times[|run.times| - 1] }

  /** The object is in the bucket, unmodified, from `since` to `until`; it appears within the delay of its stamp. */
  ghost predicate Stays(p: Protocol, world: World, o: ObjectInfo, since: int, until: int) {
    since <= o.stamp + p.delay && forall t :: since <= t <= until ==> o in world(t)
  }

  /** Whenever one of the runs up to r lists the object, it can be examined: well-formed key, HEAD finds it. */
  ghost predicate Examinable(history: seq<RunRecord>, r: nat, o: ObjectInfo, since: int) {
    forall q :: 0 <= q <= r && q < |history| && history[q].succeeded ==> ExaminableIn(history[q], o, since)
  }

  ghost predicate ExaminableIn(run: RunRecord, o: ObjectInfo, since: int) {
    forall i :: 0 <= i < |run.times| && i < |run.envs| && run.times[i] >= since ==> run.envs[i].exam(o).Yielded?
  }

  /** Exactly enough: one nanosecond less than skew + delay + 1 s. */
  predicate OverlapSuffices(p: Protocol) {
    p.overlap * NANOS_PER_SECOND >= p.skew + p.delay + NANOS_PER_SECOND - 1
  }

  lemma {:induction false} WatermarkSource(p: Protocol, history: seq<RunRecord>, r: nat) returns (q: nat)
    requires r <= |history|
    ensures q <= r
    ensures q == r ==> WatermarkBefore(p, history, r) == p.initial
    ensures q < r ==> history[q].succeeded
                      && WatermarkBefore(p, history, r) == history[q].startedAt / NANOS_PER_SECOND - p.overlap
  {
    if r == 0 {
      q := 0;
    } else if history[r - 1].succeeded {
      q := r - 1;
    } else {
      q := WatermarkSource(p, history, r - 1);
      if q == r - 1 {
        q := r;
      }
    }
  }

  lemma BeginBeforeEnd(p: Protocol, world: World, run: RunRecord)
    requires Succeeded(p, world, run)
    ensures Begin(run) <= End(run) && run.startedAt - p.skew <= Begin(run)
  {
    assert run.times[0] <= run.times[|run.times| - 1];
  }

  /** A run that has the object after its watermark, and the object throughout, yields it. */
  lemma RunDelivers(p: Protocol, world: World, run: RunRecord, o: ObjectInfo, since: int)
    requires Succeeded(p, world, run)
    requires since <= Begin(run) && forall t :: since <= t <= End(run) ==> o in world(t)
    requires ExaminableIn(run, o, since)
    requires o.Second() > run.after
    ensures o in Flat(run.pages)
  {
    forall i | 0 <= i < |run.pages|
      ensures run.envs[i].Offers(o)
    {
      OfferedAt(p, world, run, o, since, i);
    }
    StableObjectExactlyOnce(run.after, p.limit, run.envs, run.pages, o);
    assert o in multiset(Flat(run.pages));
  }

  lemma OfferedAt(p: Protocol, world: World, run: RunRecord, o: ObjectInfo, since: int, i: nat)
    requires Succeeded(p, world, run) && i < |run.times| == |run.envs|
    requires since <= Begin(run) && forall t :: since <= t <= End(run) ==> o in world(t)
    requires run.times[i] >= since ==> run.envs[i].exam(o).Yielded?
    ensures run.envs[i].Offers(o)
  {
    assert Lists(run.envs[i], world(run.times[i]));
    assert run.times[0] <= run.times[i] <= run.times[|run.times| - 1];
  }

  /** An object behind the watermark taken from a run was visible when that run first listed. */
  lemma BehindWatermarkWasVisible(p: Protocol, run: RunRecord, o: ObjectInfo, since: int)
    requires OverlapSuffices(p)
    requires run.startedAt - p.skew <= Begin(run)
    requires o.Second() <= run.startedAt / NANOS_PER_SECOND - p.overlap
    requires since <= o.stamp + p.delay
    ensures since <= Begin(run)
  {
    var second := run.startedAt / NANOS_PER_SECOND - p.overlap;
    assert o.stamp <= second * NANOS_PER_SECOND + NANOS_PER_SECOND - 1;
    assert second * NANOS_PER_SECOND <= run.startedAt - p.overlap * NANOS_PER_SECOND;
  }

  /**
    * Across runs nothing is lost: whatever is visible at a successful run's first listing and left
    * unmodified until its end has been yielded by that run or by an earlier successful one.
    */
  lemma {:induction false} NothingLostAcrossRuns(
      p: Protocol, world: World, history: seq<RunRecord>, r: nat, o: ObjectInfo, since: int)
    returns (q: nat)
    requires Follows(p, world, history) && OverlapSuffices(p)
    requires r < |history| && history[r].succeeded
    requires since <= Begin(history[r]) && Stays(p, world, o, since, End(history[r]))
    requires Examinable(history, r, o, since) && o.Second() > p.initial
    ensures q <= r && history[q].succeeded && o in Flat(history[q].pages)
  {
    assert history[r].after == WatermarkBefore(p, history, r);
    if o.Second() > history[r].after {
      RunDelivers(p, world, history[r], o, since);
      q := r;
    } else {
      q := WatermarkSource(p, history, r);
      SeenByEarlierRun(p, world, history, q, r, o, since);
      q := NothingLostAcrossRuns(p, world, history, q, o, since);
    }
  }

  lemma SeenByEarlierRun(
      p: Protocol, world: World, history: seq<RunRecord>, q: nat, r: nat, o: ObjectInfo, since: int)
    requires Follows(p, world, history) && OverlapSuffices(p)
    requires q < r < |history| && history[q].succeeded && history[r].succeeded
    requires Stays(p, world, o, since, End(history[r]))
    requires o.Second() <= history[q].startedAt / NANOS_PER_SECOND - p.overlap
    ensures since <= Begin(history[q]) && Stays(p, world, o, since, End(history[q]))
  {
    BeginBeforeEnd(p, world, history[q]);
    BeginBeforeEnd(p, world, history[r]);
    BehindWatermarkWasVisible(p, history[q], o, since);
    assert End(history[q]) <= Begin(history[r]);
  }

  // ---------- the bound is exact ----------

  lemma EmptyPage(env: Env, after: int, limit: nat)
    requires limit >= 1 && DistinctKeys(env.listing)
    requires forall o :: o in env.listing ==> o.Second() <= after
    ensures Completed(after, limit, [env], [Page([], None)])
  {
    SelectDeterminedBySet(env.listing, Wanted(Open(after)), []);
    assert Built(env, Open(after), limit, Page([], None));
    assert BuiltAt(after, limit, [env], [Page([], None)], 0);
  }

  /** An object in the last nanosecond of a second, invisible still when a run with this start first lists. */
  lemma LateObject(p: Protocol) returns (start: int, o: ObjectInfo)
    requires !OverlapSuffices(p)
    ensures start / NANOS_PER_SECOND - p.overlap == o.Second() == p.initial + 1
    ensures start - p.skew < o.stamp + p.delay
  {
    var second := p.initial + 1;
    start := (second + p.overlap) * NANOS_PER_SECOND;
    o := ObjectInfo("a-1", second * NANOS_PER_SECOND + NANOS_PER_SECOND - 1);
  }

  /** From one successful run to the next the consumer's clock does not fall back. */
  ghost predicate StartsForward(history: seq<RunRecord>) {
    forall q, r :: 0 <= q < r < |history| && history[q].succeeded && history[r].succeeded ==>
      history[q].startedAt <= history[r].startedAt
  }

  ghost predicate NeverDelivers(history: seq<RunRecord>, o: ObjectInfo) {
    forall r :: 0 <= r < |history| && history[r].succeeded ==> o !in Flat(history[r].pages)
  }

  /**
    * With any smaller overlap an object is lost for good, though it stays in the bucket for ever: it
    * was still invisible when the first run listed, the second run opens behind its second, and
    * so does every later one, however the consumer goes on.
    */
  lemma LostWithLess(p: Protocol, entry: SearchRes)
    returns (world: World, history: seq<RunRecord>, o: ObjectInfo, since: int)
    requires !OverlapSuffices(p) && p.limit >= 1
    ensures Follows(p, world, history) && StartsForward(history)
    ensures |history| == 2 && history[0].succeeded && history[1].succeeded
    ensures since <= Begin(history[1]) && forall until :: Stays(p, world, o, since, until)
    ensures Examinable(history, 1, o, since) && o.Second() > p.initial
    ensures forall longer :: history <= longer && Follows(p, world, longer) && StartsForward(longer) ==>
              NeverDelivers(longer, o)
  {
    world, history, o, since := TwoRunsMiss(p, entry);
    forall longer | history <= longer && Follows(p, world, longer) && StartsForward(longer)
      ensures NeverDelivers(longer, o)
    {
      assert longer[0] == history[0];
      BehindAllRuns(p, world, longer, o);
    }
  }

  lemma TwoRunsMiss(p: Protocol, entry: SearchRes)
    returns (world: World, history: seq<RunRecord>, o: ObjectInfo, since: int)
    requires !OverlapSuffices(p) && p.limit >= 1
    ensures Follows(p, world, history) && StartsForward(history)
    ensures |history| == 2 && history[0].succeeded && history[1].succeeded
    ensures since <= Begin(history[1]) && forall until :: Stays(p, world, o, since, until)
    ensures Examinable(history, 1, o, since) && o.Second() > p.initial
    ensures o.Second() <= history[0].startedAt / NANOS_PER_SECOND - p.overlap && o !in Flat(history[0].pages)
  {
    var start;
    start, o := LateObject(p);
    since := o.stamp + p.delay;
    world := AppearsAt(o, since);
    var exam: Exam := (x: ObjectInfo) => Yielded(entry);
    var one := SingleRun(p, world, start, start - p.skew, p.initial, Env([], exam));
    var later := Max(start, since);
    var two := SingleRun(p, world, later, later, o.Second(), Env([o], exam));
    history := [one, two];
    assert forall until :: Stays(p, world, o, since, until);
    TwoRuns(p, world, one, two);
  }

  /** No watermark falls behind the one the first run leaves. */
  lemma {:induction false} WatermarkStays(p: Protocol, history: seq<RunRecord>, r: nat)
    requires StartsForward(history) && 1 <= r <= |history| && history[0].succeeded
    ensures WatermarkBefore(p, history, r) >= history[0].startedAt / NANOS_PER_SECOND - p.overlap
  {
    if !history[r - 1].succeeded {
      WatermarkStays(p, history, r - 1);
    }
  }

  lemma BehindAllRuns(p: Protocol, world: World, history: seq<RunRecord>, o: ObjectInfo)
    requires Follows(p, world, history) && StartsForward(history)
    requires history != [] && history[0].succeeded && o !in Flat(history[0].pages)
    requires o.Second() <= history[0].startedAt / NANOS_PER_SECOND - p.overlap
    ensures NeverDelivers(history, o)
  {
    forall r | 1 <= r < |history| && history[r].succeeded
      ensures o !in Flat(history[r].pages)
    {
      WatermarkStays(p, history, r);
      BehindRun(p, world, history[r], o);
    }
  }

  lemma BehindRun(p: Protocol, world: World, run: RunRecord, o: ObjectInfo)
    requires Succeeded(p, world, run) && o.Second() <= run.after
    ensures o !in Flat(run.pages)
  {
    RunIsChain(run.after, p.limit, run.envs, run.pages);
    FlatElements(run.pages, |run.pages|, o);
    forall j | 0 <= j < |run.pages|
      ensures o !in run.pages[j].yielded
    {
      BehindIsNeverYielded(run.after, p.limit, run.envs, run.pages, 0, j, o);
    }
  }

  lemma TwoRuns(p: Protocol, world: World, first: RunRecord, second: RunRecord)
    requires Succeeded(p, world, first) && Succeeded(p, world, second) && first.succeeded && second.succeeded
    requires first.after == p.initial && second.after == first.startedAt / NANOS_PER_SECOND - p.overlap
    requires End(first) <= Begin(second)
    ensures Follows(p, world, [first, second])
  {
    var history := [first, second];
    assert WatermarkBefore(p, history, 0) == p.initial;
    assert WatermarkBefore(p, history, 1) == first.startedAt / NANOS_PER_SECOND - p.overlap;
  }

  function AppearsAt(o: ObjectInfo, since: int): World { (t: int) => if t >= since then {o} else {} }

  /** A successful run of one listing that has nothing after its watermark. */
  lemma SingleRun(p: Protocol, world: World, startedAt: int, at: int, after: int, env: Env) returns (run: RunRecord)
    requires p.limit >= 1 && startedAt - p.skew <= at && Lists(env, world(at))
    requires DistinctKeys(env.listing) && forall o :: o in env.listing ==> o.Second() <= after
    ensures run == RunRecord(startedAt, after, true, [at], [env], [Page([], None)])
    ensures Succeeded(p, world, run) && Flat(run.pages) == []
  {
    run := RunRecord(startedAt, after, true, [at], [env], [Page([], None)]);
    EmptyPage(env, after, p.limit);
    assert FlatTo(run.pages, 1) == FlatTo(run.pages, 0) + [];
  }
}
