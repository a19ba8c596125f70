/**
  * Positions in the paged order and the three time granularities that meet in it: a listing
  * stamps objects in nanoseconds, positions are ordered in milliseconds, and `after` and the
  * boundary of an opening page are whole seconds.
  */
module Positions {
  import opened ByteStrings

  const NANOS_PER_MILLI := 1_000_000
  const NANOS_PER_SECOND := 1_000_000_000
  const MILLIS_PER_SECOND := 1_000

  /** Seconds from the year 1, Go's zero time, to the epoch. */
  const UNIX_TO_INTERNAL := 62_135_596_800

  /** Go's integer division, which truncates toward zero. */
  function TruncDiv(a: int, b: int): int
    requires b > 0
  {
    if a >= 0 then a / b else -((-a) / b)
  }

  /** One listed object: its key and its LIST LastModified in nanoseconds since the epoch. */
  datatype ObjectInfo = ObjectInfo(key: GoString, stamp: int) {
    /** time.Time.Unix rounds down, before the epoch too. */
    function Second(): int { stamp / NANOS_PER_SECOND }

    function Position(): Cursor { Cursor(stamp / NANOS_PER_MILLI, key) }
  }

  datatype Cursor = Cursor(millis: int, key: GoString) {
    function Compare(o: Cursor): int {
      if millis < o.millis then -1
      else if millis > o.millis then 1
      else ByteStrings.Compare(key, o.key)
    }

    predicate Precedes(obj: ObjectInfo) { Compare(obj.Position()) < 0 }

    function ListFrom(): int { TruncDiv(millis, MILLIS_PER_SECOND) - 1 }
  }

  /** a sorts strictly before b in the paged order. */
  predicate Less(a: ObjectInfo, b: ObjectInfo) { a.Position().Precedes(b) }

  /** A second and a millisecond are rounded down; positions order by millisecond, then by key, byte by byte. */
  lemma PositionExactly(a: ObjectInfo, b: ObjectInfo)
    ensures a.Second() * 1_000_000_000 <= a.stamp < (a.Second() + 1) * 1_000_000_000
    ensures var ms := a.Position().millis; ms * 1_000_000 <= a.stamp < (ms + 1) * 1_000_000
    ensures a.Position().key == a.key
    ensures Less(a, b) <==>
            || a.Position().millis < b.Position().millis
            || (a.Position().millis == b.Position().millis && ByteStrings.Precedes(a.key, b.key))
  {
    CompareIsByteOrder(a.key, b.key);
  }

  /** The second the store is asked to list from is the last one wholly before the cursor's, less one. */
  lemma ListFromExactly(c: Cursor)
    ensures c.millis >= 0 ==> (c.ListFrom() + 1) * 1_000 <= c.millis < (c.ListFrom() + 2) * 1_000
    ensures c.millis < 0 ==> c.ListFrom() * 1_000 < c.millis <= (c.ListFrom() + 1) * 1_000
  {
  }

  lemma CursorTransitive(a: Cursor, b: Cursor, c: Cursor)
    requires a.Compare(b) < 0 && b.Compare(c) < 0
    ensures a.Compare(c) < 0
  {
    if a.millis == b.millis == c.millis {
      CompareTransitive(a.key, b.key, c.key);
    }
  }

  lemma LessTransitive(a: ObjectInfo, b: ObjectInfo, c: ObjectInfo)
    requires Less(a, b) && Less(b, c)
    ensures Less(a, c)
  {
    CursorTransitive(a.Position(), b.Position(), c.Position());
  }

  /** Exactly one of "before", "same position" and "after" holds. */
  lemma CursorTrichotomy(a: Cursor, b: Cursor)
    ensures a.Compare(b) == 0 <==> a == b
    ensures b.Compare(a) == -a.Compare(b)
  {
    CompareEqual(a.key, b.key);
    CompareFlips(a.key, b.key);
  }

  lemma LessIrreflexive(a: ObjectInfo)
    ensures !Less(a, a)
  {
    CursorTrichotomy(a.Position(), a.Position());
  }

  lemma LessAsymmetric(a: ObjectInfo, b: ObjectInfo)
    requires Less(a, b)
    ensures !Less(b, a)
  {
    CursorTrichotomy(a.Position(), b.Position());
  }

  lemma LessTotal(a: ObjectInfo, b: ObjectInfo)
    requires a.key != b.key
    ensures Less(a, b) || Less(b, a)
  {
    CursorTrichotomy(a.Position(), b.Position());
  }

  /** The paged order never runs against the whole-second order `after` is compared in. */
  lemma LessOrdersSeconds(a: ObjectInfo, b: ObjectInfo)
    requires Less(a, b)
    ensures a.Second() <= b.Second()
  {
    assert a.stamp / NANOS_PER_MILLI <= b.stamp / NANOS_PER_MILLI;
    SecondOfMillis(a.stamp);
    SecondOfMillis(b.stamp);
  }

  lemma SecondOfMillis(stamp: int)
    ensures stamp / NANOS_PER_SECOND == (stamp / NANOS_PER_MILLI) / MILLIS_PER_SECOND
  {
  }
}
