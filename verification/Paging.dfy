/** The shape of an opening page, and what paging amounts to on a bucket that does not change. */
module Paging {
  import opened Integers
  import opened ByteStrings
  import opened Positions
  import opened Candidates
  import opened Entries
  import opened Pages
  import opened Runs

  /** The one sorted list of all objects in a second after the watermark that become entries. */
  function Eligible(env: Env, after: int): seq<ObjectInfo> {
    Yields(Select(env.listing, Wanted(Open(after))), env.exam)
  }

  lemma EligibleElements(env: Env, after: int)
    requires DistinctKeys(env.listing)
    ensures Ascending(Eligible(env, after))
    ensures forall o :: o in Eligible(env, after) <==> env.Offers(o) && o.Second() > after
  {
    var cands := Select(env.listing, Wanted(Open(after)));
    SelectCorrect(env.listing, Wanted(Open(after)));
    YieldsAscending(cands, env.exam);
    YieldsElements(cands, env.exam);
  }

  // ---------- the opening page ----------

  /** The candidate the k-th entry comes from. */
  lemma {:induction false} EntryCandidate(cands: seq<ObjectInfo>, exam: Exam, k: nat) returns (n: nat)
    requires k < |Yields(cands, exam)|
    ensures n < |cands| && cands[n] == Yields(cands, exam)[k] && exam(cands[n]).Yielded?
    ensures Yields(cands[..n], exam) == Yields(cands, exam)[..k]
    decreases |cands|
  {
    var front, last := cands[..|cands| - 1], cands[|cands| - 1];
    if k < |Yields(front, exam)| {
      n := EntryCandidate(front, exam, k);
      assert cands[..n] == front[..n];
    } else {
      n := |cands| - 1;
    }
  }

  lemma {:induction false} SecondsNondecreasing(s: seq<ObjectInfo>, i: nat, j: nat)
    requires Ascending(s) && i <= j < |s|
    ensures s[i].Second() <= s[j].Second()
  {
    if i < j {
      LessOrdersSeconds(s[i], s[j]);
    }
  }

  /** The page's entries are the first ones of the eligible list. */
  lemma OpeningPageIsPrefix(env: Env, after: int, limit: nat, page: Page)
    requires Built(env, Open(after), limit, page)
    ensures page.yielded <= Eligible(env, after)
    ensures page.next.None? ==> page.yielded == Eligible(env, after)
  {
    var cands := Select(env.listing, Wanted(Open(after)));
    var stop := Stop(Soft, cands, env.exam, limit, 0);
    assert cands == cands[..stop] + cands[stop..];
    YieldsConcat(cands[..stop], cands[stop..], env.exam);
    assert cands[..|cands|] == cands;
  }

  /** Entry `limit` already lies in the second the page ends in: the boundary never moves once the page is full. */
  lemma BoundaryIsFixed(env: Env, after: int, limit: nat, page: Page)
    requires limit >= 1 && Built(env, Open(after), limit, page) && |page.yielded| >= limit
    ensures page.yielded[limit - 1].Second() == Last(page.yielded).Second()
  {
    var exam, all := env.exam, page.yielded;
    var cands := Select(env.listing, Wanted(Open(after)));
    var stop := Stop(Soft, cands, exam, limit, 0);
    PageSound(env, Open(after), limit, page);
    BoundaryUpTo(cands, exam, limit, stop, |all| - 1);
  }

  lemma {:induction false} BoundaryUpTo(cands: seq<ObjectInfo>, exam: Exam, limit: nat, stop: nat, k: nat)
    requires limit >= 1 && stop <= |cands|
    requires forall n :: 0 <= n < stop ==> !StopsBefore(Soft, cands, exam, limit, n)
    requires limit - 1 <= k < |Yields(cands[..stop], exam)|
    ensures Yields(cands[..stop], exam)[limit - 1].Second() == Yields(cands[..stop], exam)[k].Second()
    decreases k
  {
    if k > limit - 1 {
      var n := EntryCandidate(cands[..stop], exam, k);
      assert cands[..stop][..n] == cands[..n];
      assert !StopsBefore(Soft, cands, exam, limit, n);
      BoundaryUpTo(cands, exam, limit, stop, k - 1);
    }
  }

  /**
    * A full opening page, the last one of its run or not, is k < limit entries from earlier seconds
    * followed by every eligible object of one second, the second of the limit-th eligible object.
    */
  lemma OpeningPageShape(env: Env, after: int, limit: nat, page: Page) returns (k: nat)
    requires limit >= 1 && Built(env, Open(after), limit, page) && |page.yielded| >= limit
    ensures var all, size := Eligible(env, after), |page.yielded|;
            && k < limit <= size <= |all|
            && page.yielded == all[..size]
            && forall i :: 0 <= i < |all| ==> (k <= i < size <==> all[i].Second() == all[limit - 1].Second())
  {
    var all, size := Eligible(env, after), |page.yielded|;
    EligibleElements(env, after);
    PageSound(env, Open(after), limit, page);
    OpeningPageIsPrefix(env, after, limit, page);
    BoundaryIsFixed(env, after, limit, page);
    if size < |all| {
      NextSecondStarts(env, after, limit, page);
    }
    k := SecondIsRange(all, limit, size);
  }

  lemma NextSecondStarts(env: Env, after: int, limit: nat, page: Page)
    requires Built(env, Open(after), limit, page) && page.next.Some?
    requires page.yielded != [] && page.yielded < Eligible(env, after)
    ensures Eligible(env, after)[|page.yielded|].Second() > Last(page.yielded).Second()
  {
    var all, size := Eligible(env, after), |page.yielded|;
    EligibleElements(env, after);
    AscendingNoDuplicates(all);
    assert all[size] in all;
    assert all[size] !in page.yielded by {
      assert forall i :: 0 <= i < size ==> page.yielded[i] == all[i];
    }
    PageDropsNothing(env, Open(after), limit, page);
  }

  /** In an ascending sequence the objects sharing entry limit - 1's second form one range around it. */
  lemma SecondIsRange(all: seq<ObjectInfo>, limit: nat, size: nat) returns (k: nat)
    requires Ascending(all) && 1 <= limit <= size <= |all|
    requires all[limit - 1].Second() == all[size - 1].Second()
    requires size < |all| ==> all[size].Second() > all[size - 1].Second()
    ensures k < limit
    ensures forall i :: 0 <= i < |all| ==> (k <= i < size <==> all[i].Second() == all[limit - 1].Second())
  {
    var second := all[limit - 1].Second();
    k := limit - 1;
    while k > 0 && all[k - 1].Second() == second
      invariant k < limit
      invariant all[k].Second() == second
    {
      k := k - 1;
    }
    forall i | 0 <= i < |all|
      ensures k <= i < size <==> all[i].Second() == second
    {
      if i < k {
        SecondsNondecreasing(all, i, k - 1);
        SecondsNondecreasing(all, k - 1, k);
      } else if i < size {
        SecondsNondecreasing(all, k, i);
        SecondsNondecreasing(all, i, size - 1);
      } else {
        SecondsNondecreasing(all, size, i);
      }
    }
  }

  /** The candidates a page examines. */
  function Examined(env: Env, fetch: Fetch, limit: nat): seq<ObjectInfo> {
    var cands := Select(env.listing, Wanted(fetch));
    cands[..Stop(fetch.Kind(), cands, env.exam, limit, 0)]
  }

  /**
    * A page hands out a cursor exactly when it leaves a candidate unexamined; the cursor is then the
    * position of its last entry, and a page shorter than the limit hands out none.
    */
  lemma NextExactlyWhen(env: Env, fetch: Fetch, limit: nat, page: Page)
    requires limit >= 1 && Built(env, fetch, limit, page)
    ensures page.next.Some? <==> exists o :: o in env.listing && fetch.Wants(o) && o !in Examined(env, fetch, limit)
    ensures page.next.Some? ==> page.yielded != [] && page.next.value == Last(page.yielded).Position()
    ensures |page.yielded| < limit ==> page.next.None?
  {
    var cands := Select(env.listing, Wanted(fetch));
    var stop := Stop(fetch.Kind(), cands, env.exam, limit, 0);
    PageSound(env, fetch, limit, page);
    SelectCorrect(env.listing, Wanted(fetch));
    if stop < |cands| {
      AscendingNoDuplicates(cands);
      assert cands[stop] in cands && cands[stop] !in cands[..stop];
    } else {
      assert cands[..stop] == cands;
    }
  }

  /**
    * What a page examined and a later page may examine again is only the skipped tail of an
    * opening page, inside the second it ends in. A continued page leaves nothing to examine twice.
    */
  lemma ExaminedTwice(env: Env, fetch: Fetch, limit: nat, page: Page, o: ObjectInfo)
    requires limit >= 1 && Built(env, fetch, limit, page) && page.next.Some?
    requires o in Examined(env, fetch, limit) && page.next.value.Precedes(o)
    ensures fetch.Open? && env.exam(o).Skipped? && o.Second() == Last(page.yielded).Second()
  {
    var cands := Select(env.listing, Wanted(fetch));
    var stop := Stop(fetch.Kind(), cands, env.exam, limit, 0);
    SelectCorrect(env.listing, Wanted(fetch));
    PageSound(env, fetch, limit, page);
    var n :| 0 <= n < stop && cands[..stop][n] == o;
    assert cands[n] == o && !env.exam(o).Failed?;
    LastEntryCandidate(cands, env.exam, stop, n);
    assert !StopsBefore(fetch.Kind(), cands, env.exam, limit, n);
  }

  /** A candidate after the one of the last entry is past all that is yielded. */
  lemma LastEntryCandidate(cands: seq<ObjectInfo>, exam: Exam, stop: nat, n: nat)
    requires Ascending(cands) && n < stop <= |cands| && Yields(cands[..stop], exam) != []
    requires Less(Last(Yields(cands[..stop], exam)), cands[n])
    ensures Yields(cands[..n], exam) == Yields(cands[..stop], exam) && !exam(cands[n]).Yielded?
  {
    var yielded := Yields(cands[..stop], exam);
    var k := EntryCandidate(cands[..stop], exam, |yielded| - 1);
    assert cands[k] == Last(yielded);
    if n < k {
      LessAsymmetric(cands[n], cands[k]);
    }
    LessIrreflexive(cands[k]);
    assert cands[..stop][..k] == cands[..k];
    YieldsUpTo(cands, stop, n, k, exam);
  }

  /** Nothing after the candidate of the last entry is yielded. */
  lemma YieldsUpTo(cands: seq<ObjectInfo>, stop: nat, n: nat, k: nat, exam: Exam)
    requires k < n < stop <= |cands|
    requires Yields(cands[..stop], exam) == Yields(cands[..k], exam) + [cands[k]] && exam(cands[k]).Yielded?
    ensures Yields(cands[..n], exam) == Yields(cands[..stop], exam) && !exam(cands[n]).Yielded?
  {
    assert cands[..k + 1][..k] == cands[..k];
    assert cands[..n] == cands[..k + 1] + cands[k + 1..n];
    assert cands[..stop] == cands[..n] + ([cands[n]] + cands[n + 1..stop]);
    YieldsConcat(cands[..k + 1], cands[k + 1..n], exam);
    YieldsConcat(cands[..n], [cands[n]] + cands[n + 1..stop], exam);
    YieldsConcat([cands[n]], cands[n + 1..stop], exam);
    assert [cands[n]][..0] == [];
  }

  function InSecond(s: seq<ObjectInfo>, second: int): nat {
    if s == [] then 0
    else InSecond(s[..|s| - 1], second) + (if s[|s| - 1].Second() == second then 1 else 0)
  }

  lemma {:induction false} InSecondIsRange(s: seq<ObjectInfo>, second: int, lo: nat, hi: nat)
    requires lo <= hi <= |s|
    requires forall i :: 0 <= i < |s| ==> (lo <= i < hi <==> s[i].Second() == second)
    ensures InSecond(s, second) == hi - lo
  {
    if s != [] {
      var front := s[..|s| - 1];
      if hi == |s| && lo < hi {
        InSecondIsRange(front, second, lo, hi - 1);
      } else if lo == |s| {
        InSecondIsRange(front, second, lo - 1, hi - 1);
      } else {
        InSecondIsRange(front, second, lo, hi);
      }
    }
  }

  /**
    * The documented size max(limit, entries in that second) holds exactly when the page starts in
    * the boundary second, or nothing more of that second follows the limit-th eligible object.
    */
  lemma DocumentedSizeExactlyWhen(env: Env, after: int, limit: nat, page: Page)
    requires limit >= 1 && Built(env, Open(after), limit, page) && |page.yielded| >= limit
    ensures |Eligible(env, after)| >= limit
    ensures var all := Eligible(env, after);
            var second := all[limit - 1].Second();
            |page.yielded| == Max(limit, InSecond(all, second)) <==>
            all[0].Second() == second || |all| == limit || all[limit].Second() != second
  {
    var k := OpeningPageShape(env, after, limit, page);
    var all, size := Eligible(env, after), |page.yielded|;
    InSecondIsRange(all, all[limit - 1].Second(), k, size);
    assert size == limit <==> |all| == limit || all[limit].Second() != all[limit - 1].Second();
  }

  /** The documented size does fail: limit 2, one object in second 1, two in second 2, one in second 3. */
  lemma DocumentedSizeFails(entry: SearchRes) returns (env: Env, page: Page)
    ensures Built(env, Open(0), 2, page) && page.next.Some?
    ensures |Eligible(env, 0)| >= 2
    ensures |page.yielded| != Max(2, InSecond(Eligible(env, 0), Eligible(env, 0)[1].Second()))
  {
    var cands := ExampleBucket();
    env := Env(cands, (o: ObjectInfo) => Yielded(entry));
    SelectDeterminedBySet(cands, Wanted(Open(0)), cands);
    AllYielded(cands, env.exam);
    AllYielded(cands[..3], env.exam);
    assert StopsBefore(Soft, cands, env.exam, 2, 3);
    var stop := Stop(Soft, cands, env.exam, 2, 0);
    assert stop <= 3;
    assert !AnyFailed(cands[..stop], env.exam);
    page := PageIn(env, Open(0), 2).value;
    DocumentedSizeExactlyWhen(env, 0, 2, page);
  }

  lemma ExampleBucket() returns (cands: seq<ObjectInfo>)
    ensures |cands| == 4 && DistinctKeys(cands) && Ascending(cands)
    ensures cands[0].Second() == 1 && cands[1].Second() == cands[2].Second() == 2 && cands[3].Second() == 3
  {
    cands := [ObjectInfo("a-1", 1 * NANOS_PER_SECOND), ObjectInfo("b-1", 2 * NANOS_PER_SECOND),
              ObjectInfo("c-1", 2 * NANOS_PER_SECOND), ObjectInfo("d-1", 3 * NANOS_PER_SECOND)];
    assert Compare("b-1", "c-1") < 0;
  }

  lemma {:induction false} AllYielded(s: seq<ObjectInfo>, exam: Exam)
    requires forall i :: 0 <= i < |s| ==> exam(s[i]).Yielded?
    ensures Yields(s, exam) == s
  {
    if s != [] {
      AllYielded(s[..|s| - 1], exam);
    }
  }
}
