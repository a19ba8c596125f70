/** selectCandidates: filter a listing, then order it by position. */
module Candidates {
  import opened Positions

  /** A bucket holds one object per key, so a listing never repeats a key. */
  ghost predicate DistinctKeys(objects: seq<ObjectInfo>) {
    forall i, j :: 0 <= i < j < |objects| ==> objects[i].key != objects[j].key
  }

  ghost predicate Ascending(s: seq<ObjectInfo>) {
    forall i, j :: 0 <= i < j < |s| ==> Less(s[i], s[j])
  }

  /** Every object of a sorts before every object of b. */
  ghost predicate AllBefore(a: seq<ObjectInfo>, b: seq<ObjectInfo>) {
    forall x, y :: x in a && y in b ==> Less(x, y)
  }

  lemma AscendingConcat(a: seq<ObjectInfo>, b: seq<ObjectInfo>)
    requires Ascending(a) && Ascending(b) && AllBefore(a, b)
    ensures Ascending(a + b)
  {
    forall i, j | 0 <= i < j < |a + b|
      ensures Less((a + b)[i], (a + b)[j])
    {
      if i < |a| <= j {
        assert a[i] in a && b[j - |a|] in b;
      }
    }
  }

  lemma NonemptyHasElement<T>(s: seq<T>)
    ensures s == [] || exists x :: x in s
  {
    if s != [] {
      assert s[0] in s;
    }
  }

  /** An ascending sequence is determined by the set of its elements. */
  lemma {:induction false} AscendingUnique(a: seq<ObjectInfo>, b: seq<ObjectInfo>)
    requires Ascending(a) && Ascending(b)
    requires forall o :: o in a <==> o in b
    ensures a == b
  {
    if a == [] {
      NonemptyHasElement(b);
    } else {
      assert a[0] in b && b != [];
      assert b[0] in a;
      if a[0] != b[0] {
        assert Less(a[0], b[0]) && Less(b[0], a[0]);
        LessAsymmetric(a[0], b[0]);
        assert false;
      }
      AscendingNoDuplicates(a);
      AscendingNoDuplicates(b);
      assert a == [a[0]] + a[1..] && b == [b[0]] + b[1..];
      forall o
        ensures o in a[1..] <==> o in b[1..]
      {
        assert o in a[1..] <==> o in a && o != a[0];
        assert o in b[1..] <==> o in b && o != b[0];
      }
      AscendingUnique(a[1..], b[1..]);
    }
  }

  lemma AscendingNoDuplicates(s: seq<ObjectInfo>)
    requires Ascending(s)
    ensures forall i, j :: 0 <= i < j < |s| ==> s[i] != s[j]
  {
    forall i, j | 0 <= i < j < |s|
      ensures s[i] != s[j]
    {
      LessIrreflexive(s[i]);
    }
  }

  function Insert(x: ObjectInfo, s: seq<ObjectInfo>): seq<ObjectInfo> {
    if s == [] || Less(x, s[0]) then [x] + s else [s[0]] + Insert(x, s[1..])
  }

  lemma {:induction false} InsertCorrect(x: ObjectInfo, s: seq<ObjectInfo>)
    requires Ascending(s)
    requires forall o :: o in s ==> o.key != x.key
    ensures Ascending(Insert(x, s))
    ensures forall o :: o in Insert(x, s) <==> o == x || o in s
  {
    if s == [] {
    } else if Less(x, s[0]) {
      forall y | y in s
        ensures Less(x, y)
      {
        if y != s[0] { LessTransitive(x, s[0], y); }
      }
      AscendingConcat([x], s);
    } else {
      assert s == [s[0]] + s[1..];
      assert s[0] in s;
      LessTotal(x, s[0]);
      InsertCorrect(x, s[1..]);
      AscendingConcat([s[0]], Insert(x, s[1..]));
    }
  }

  /** The objects `keep` accepts, in paged order. */
  function Select(objects: seq<ObjectInfo>, keep: ObjectInfo -> bool): seq<ObjectInfo> {
    if objects == [] then []
    else
      var rest := Select(objects[1..], keep);
      if keep(objects[0]) then Insert(objects[0], rest) else rest
  }

  lemma {:induction false} SelectCorrect(objects: seq<ObjectInfo>, keep: ObjectInfo -> bool)
    requires DistinctKeys(objects)
    ensures Ascending(Select(objects, keep))
    ensures forall o :: o in Select(objects, keep) <==> o in objects && keep(o)
  {
    if objects != [] {
      assert objects == [objects[0]] + objects[1..];
      SelectCorrect(objects[1..], keep);
      if keep(objects[0]) {
        InsertCorrect(objects[0], Select(objects[1..], keep));
      }
    }
  }

  /**
    * The candidates depend only on the set of objects listed and kept: neither on the order the
    * store lists them in nor on the sorting algorithm.
    */
  lemma SelectDeterminedBySet(objects: seq<ObjectInfo>, keep: ObjectInfo -> bool, result: seq<ObjectInfo>)
    requires DistinctKeys(objects) && Ascending(result)
    requires forall o :: o in result <==> o in objects && keep(o)
    ensures result == Select(objects, keep)
  {
    SelectCorrect(objects, keep);
    AscendingUnique(result, Select(objects, keep));
  }

  /** slices.SortFunc by position, on objects with distinct keys; an insertion sort stands in for the library's. */
  method SortFunc(objects: seq<ObjectInfo>) returns (sorted: seq<ObjectInfo>)
    requires DistinctKeys(objects)
    ensures Ascending(sorted)
    ensures forall o :: o in sorted <==> o in objects
  {
    sorted := [];
    for i := 0 to |objects|
      invariant Ascending(sorted)
      invariant forall o :: o in sorted <==> o in objects[..i]
    {
      assert objects[..i + 1] == objects[..i] + [objects[i]];
      InsertCorrect(objects[i], sorted);
      sorted := Insert(objects[i], sorted);
    }
    assert objects[..|objects|] == objects;
  }

  method SelectCandidates(objects: seq<ObjectInfo>, keep: ObjectInfo -> bool) returns (res: seq<ObjectInfo>)
    requires DistinctKeys(objects)
    ensures res == Select(objects, keep)
  {
    res := [];
    for i := 0 to |objects|
      invariant DistinctKeys(res)
      invariant forall o :: o in res <==> o in objects[..i] && keep(o)
    {
      assert objects[..i + 1] == objects[..i] + [objects[i]];
      assert forall o :: o in objects[..i] ==> o.key != objects[i].key;
      if keep(objects[i]) {
        res := res + [objects[i]];
      }
    }
    assert objects[..|objects|] == objects;
    res := SortFunc(res);
    SelectDeterminedBySet(objects, keep, res);
  }
}
