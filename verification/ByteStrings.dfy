/** Option and Result in place of Go's nil pointers and error returns. */
module Results {
  datatype Option<+T> = None | Some(value: T)

  datatype Result<+T, +E> = Success(value: T) | Failure(error: E)
}

module Integers {
  function Max(a: int, b: int): int { if a < b then b else a }
}

/** Filtering a sequence, stated by indices. */
module Sequences {
  /** `kept` are the elements at the indices `at`: all that `keep` accepts, in their order, each once. */
  ghost predicate KeepsInOrder<T(!new)>(kept: seq<T>, all: seq<T>, keep: T -> bool, at: seq<int>) {
    && |at| == |kept|
    && (forall i, j :: 0 <= i < j < |at| ==> at[i] < at[j])
    && (forall i :: 0 <= i < |at| ==> 0 <= at[i] < |all| && kept[i] == all[at[i]] && keep(kept[i]))
    && (forall k :: 0 <= k < |all| && keep(all[k]) ==> k in at)
  }

  function Filter<T>(all: seq<T>, keep: T -> bool): seq<T> {
    if all == [] then []
    else Filter(all[..|all| - 1], keep) + (if keep(all[|all| - 1]) then [all[|all| - 1]] else [])
  }

  lemma {:induction false} FilterKeepsInOrder<T(!new)>(all: seq<T>, keep: T -> bool) returns (at: seq<int>)
    ensures KeepsInOrder(Filter(all, keep), all, keep, at)
  {
    if all == [] {
      at := [];
    } else {
      var front := all[..|all| - 1];
      at := FilterKeepsInOrder(front, keep);
      at := KeepOneMore(Filter(front, keep), front, Filter(all, keep), all, keep, at);
    }
  }

  /** One more element at the end of the whole sequence. */
  lemma KeepOneMore<T(!new)>(
      kept: seq<T>, front: seq<T>, more: seq<T>, all: seq<T>, keep: T -> bool, at: seq<int>) returns (at': seq<int>)
    requires KeepsInOrder(kept, front, keep, at)
    requires all != [] && front == all[..|all| - 1]
    requires more == if keep(all[|front|]) then kept + [all[|front|]] else kept
    ensures KeepsInOrder(more, all, keep, at')
  {
    at' := if keep(all[|front|]) then at + [|front|] else at;
    forall k | 0 <= k < |all| && keep(all[k])
      ensures k in at'
    {
      if k < |front| {
        assert keep(front[k]);
      } else {
        assert at'[|at|] == k;
      }
    }
  }
}

/** Go strings: sequences of bytes, each written as the character below 256 with that code. */
module ByteStrings {
  type Byte = c: char | c as int < 256 witness '0'
  type GoString = seq<Byte>

  /** strings.Compare: byte-wise lexicographic order. */
  function Compare(a: GoString, b: GoString): (r: int)
    ensures -1 <= r <= 1
    decreases a
  {
    if a == [] then (if b == [] then 0 else -1)
    else if b == [] then 1
    else if a[0] < b[0] then -1
    else if b[0] < a[0] then 1
    else Compare(a[1..], b[1..])
  }

  lemma {:induction false} CompareEqual(a: GoString, b: GoString)
    ensures Compare(a, b) == 0 <==> a == b
  {
    if a != [] && b != [] && a[0] == b[0] {
      assert a == [a[0]] + a[1..] && b == [b[0]] + b[1..];
      CompareEqual(a[1..], b[1..]);
    }
  }

  lemma {:induction false} CompareFlips(a: GoString, b: GoString)
    ensures Compare(b, a) == -Compare(a, b)
    decreases a
  {
    if a != [] && b != [] && a[0] == b[0] {
      CompareFlips(a[1..], b[1..]);
    }
  }

  lemma {:induction false} CompareTransitive(a: GoString, b: GoString, c: GoString)
    requires Compare(a, b) < 0 && Compare(b, c) < 0
    ensures Compare(a, c) < 0
    decreases a
  {
    if a != [] && a[0] == b[0] && b[0] == c[0] {
      CompareTransitive(a[1..], b[1..], c[1..]);
    }
  }

  /** What Compare orders by: a proper prefix comes first, else the first byte that differs decides. */
  ghost predicate Precedes(a: GoString, b: GoString) {
    || a < b
    || exists i :: 0 <= i < |a| && i < |b| && a[..i] == b[..i] && a[i] < b[i]
  }

  lemma {:induction false} CompareIsByteOrder(a: GoString, b: GoString)
    ensures Compare(a, b) < 0 <==> Precedes(a, b)
    decreases a
  {
    if a != [] && b != [] && a[0] == b[0] {
      CompareIsByteOrder(a[1..], b[1..]);
      assert a == [a[0]] + a[1..] && b == [b[0]] + b[1..];
      if i :| 0 <= i < |a| && i < |b| && a[..i] == b[..i] && a[i] < b[i] {
        assert a[1..][..i - 1] == a[..i][1..] && b[1..][..i - 1] == b[..i][1..];
        assert a[1..][i - 1] < b[1..][i - 1];
      }
      if i :| 0 <= i < |a| - 1 && i < |b| - 1 && a[1..][..i] == b[1..][..i] && a[1..][i] < b[1..][i] {
        assert a[..i + 1] == [a[0]] + a[1..][..i] && b[..i + 1] == [b[0]] + b[1..][..i];
        assert a[i + 1] < b[i + 1];
      }
    } else if a != [] && b != [] && a[0] < b[0] {
      assert a[..0] == b[..0];
    }
  }

  // ASCII white space only
  predicate IsSpace(c: Byte) { c == ' ' || c as int in {9, 10, 11, 12, 13} }

  /** strings.TrimSpace. */
  function TrimSpace(s: GoString): GoString {
    if s == [] then []
    else if IsSpace(s[0]) then TrimSpace(s[1..])
    else if IsSpace(s[|s| - 1]) then TrimSpace(s[..|s| - 1])
    else s
  }

  /** What is cut off on either side is white space, and what stays neither begins nor ends with any. */
  lemma {:induction false} TrimSpaceExactly(s: GoString) returns (before: GoString, after: GoString)
    ensures s == before + TrimSpace(s) + after
    ensures forall c :: c in before + after ==> IsSpace(c)
    ensures TrimSpace(s) != [] ==> !IsSpace(TrimSpace(s)[0]) && !IsSpace(TrimSpace(s)[|TrimSpace(s)| - 1])
  {
    if s != [] && IsSpace(s[0]) {
      before, after := TrimSpaceExactly(s[1..]);
      assert s == [s[0]] + (before + TrimSpace(s) + after);
      before := [s[0]] + before;
    } else if s != [] && IsSpace(s[|s| - 1]) {
      before, after := TrimSpaceExactly(s[..|s| - 1]);
      assert s == (before + TrimSpace(s) + after) + [s[|s| - 1]];
      after := after + [s[|s| - 1]];
    } else {
      before, after := [], [];
    }
  }
}
