/** The bucket uploads write to, and the version listing of a URN. */
module Storage {
  import opened Results
  import opened ByteStrings
  import opened Entries
  import opened Decimals
  import opened Keys

  datatype StoredObject = StoredObject(stamp: int, metadata: MetadataMap, contents: GoString)

  type Objects = map<GoString, StoredObject>

  /** A put can be stored and acknowledged, not stored, or stored with the acknowledgement lost. */
  datatype PutOutcome = Acked | NotStored | AckLost

  function Put(objects: Objects, key: GoString, obj: StoredObject, outcome: PutOutcome): Objects {
    if outcome.NotStored? then objects else objects[key := obj]
  }

  datatype StoreError = NoSuchObject | Unreachable | MalformedKey

  class Store {
    var objects: Objects

    constructor ()
      ensures objects == map[]
    {
      objects := map[];
    }

    method KeyExists(key: GoString, reachable: bool) returns (r: Result<bool, StoreError>)
      ensures r == if reachable then Success(key in objects) else Failure(Unreachable)
    {
      r := if reachable then Success(key in objects) else Failure(Unreachable);
    }

    method Upload(key: GoString, meta: Metadata, contents: GoString, now: int, outcome: PutOutcome) returns (ok: bool)
      modifies this
      ensures objects == Put(old(objects), key, StoredObject(now, MapOf(meta), contents), outcome)
      ensures ok == outcome.Acked?
    {
      var metadata := Map(meta);
      if outcome != NotStored {
        objects := objects[key := StoredObject(now, metadata, contents)];
      }
      ok := outcome.Acked?;
    }

    method GetObject(key: GoString, reachable: bool) returns (r: Result<GoString, StoreError>)
      ensures r == if !reachable then Failure(Unreachable)
                   else if key in objects then Success(objects[key].contents) else Failure(NoSuchObject)
    {
      if !reachable {
        return Failure(Unreachable);
      }
      r := if key in objects then Success(objects[key].contents) else Failure(NoSuchObject);
    }
  }

  // ---------- GetObjectVersions ----------

  datatype KeyPage = KeysOf(keys: seq<GoString>) | Broken

  function AllKeys(pages: seq<KeyPage>): seq<GoString> {
    if pages == [] then []
    else AllKeys(pages[..|pages| - 1]) + (match pages[|pages| - 1] case KeysOf(keys) => keys case Broken => [])
  }

  function HasPrefix(s: GoString, prefix: GoString): bool { |prefix| <= |s| && s[..|prefix|] == prefix }

  /** The pages list exactly the keys with this prefix, each once. */
  ghost predicate Enumerates(pages: seq<KeyPage>, objects: Objects, prefix: GoString) {
    && Broken !in pages
    && (forall key :: key in AllKeys(pages) <==> key in objects && HasPrefix(key, prefix))
    && (forall i, j :: 0 <= i < j < |AllKeys(pages)| ==> AllKeys(pages)[i] != AllKeys(pages)[j])
  }

  /** What a listed key says about a URN: a version, the original, or nothing it should. */
  datatype Suffix = Number(n: int) | Original | Bad

  function SuffixOf(key: GoString, urn: GoString): Suffix {
    if !HasPrefix(key, urn + "-") then Bad
    else
      var suffix := key[|urn| + 1..];
      if suffix == ORIGINAL then Original
      else match ParseInt(suffix)
        case Some(n) => Number(n)
        case None => Bad
  }

  type Reading = GoString -> Suffix

  function SuffixIn(urn: GoString): Reading { (key: GoString) => SuffixOf(key, urn) }

  function Numbers(keys: seq<GoString>, read: Reading): seq<int> {
    if keys == [] then []
    else
      Numbers(keys[..|keys| - 1], read)
      + (match read(keys[|keys| - 1]) case Number(n) => [n] case _ => [])
  }

  ghost predicate Reads(keys: seq<GoString>, read: Reading, suffix: Suffix) {
    exists i :: 0 <= i < |keys| && read(keys[i]) == suffix
  }

  ghost predicate Sorted(s: seq<int>) { forall i, j :: 0 <= i < j < |s| ==> s[i] <= s[j] }

  /** The same numbers, each as often, in order. */
  ghost predicate IsSorting(sorted: seq<int>, s: seq<int>) {
    Sorted(sorted) && multiset(sorted) == multiset(s)
  }

  datatype Versions = Versions(versions: seq<int>, hasOriginal: bool)

  /** No key at all is NoSuchObject, a key that does not fit fails the call, else the numbers in order. */
  ghost predicate VersionsResult(r: Result<Versions, StoreError>, keys: seq<GoString>, read: Reading) {
    if keys == [] then r == Failure(NoSuchObject)
    else if Reads(keys, read, Bad) then r == Failure(MalformedKey)
    else
      && r.Success?
      && IsSorting(r.value.versions, Numbers(keys, read))
      && (r.value.hasOriginal <==> Reads(keys, read, Original))
  }

  function InsertInt(x: int, s: seq<int>): seq<int> {
    if s == [] || x <= s[0] then [x] + s else [s[0]] + InsertInt(x, s[1..])
  }

  lemma {:induction false} InsertIntAdds(x: int, s: seq<int>)
    ensures multiset(InsertInt(x, s)) == multiset(s) + multiset{x}
  {
    if s != [] && x > s[0] {
      assert s == [s[0]] + s[1..];
      InsertIntAdds(x, s[1..]);
    }
  }

  lemma {:induction false} InsertIntSorts(x: int, s: seq<int>)
    requires Sorted(s)
    ensures Sorted(InsertInt(x, s))
  {
    if s != [] && x > s[0] {
      InsertIntSorts(x, s[1..]);
      InsertIntAdds(x, s[1..]);
      var tail := InsertInt(x, s[1..]);
      forall i | 0 <= i < |tail|
        ensures s[0] <= tail[i]
      {
        assert tail[i] in multiset(tail);
      }
    }
  }

  /** sort.Ints; an insertion sort stands in for the library's. */
  method SortInts(s: seq<int>) returns (sorted: seq<int>)
    ensures IsSorting(sorted, s)
  {
    sorted := [];
    for i := 0 to |s|
      invariant IsSorting(sorted, s[..i])
    {
      assert s[..i + 1] == s[..i] + [s[i]];
      InsertIntAdds(s[i], sorted);
      InsertIntSorts(s[i], sorted);
      sorted := InsertInt(s[i], sorted);
    }
    assert s[..|s|] == s;
  }

  /** The second half of GetObjectVersions: from the listed keys to the sorted versions. */
  method ParseVersions(objects: seq<GoString>, read: Reading) returns (r: Result<Versions, StoreError>)
    ensures VersionsResult(r, objects, read)
  {
    if |objects| == 0 {
      return Failure(NoSuchObject);
    }
    var res: seq<int> := [];
    var hasOriginal := false;
    for i := 0 to |objects|
      invariant forall k :: 0 <= k < i ==> read(objects[k]) != Bad
      invariant res == Numbers(objects[..i], read)
      invariant hasOriginal <==> exists k :: 0 <= k < i && read(objects[k]) == Original
    {
      assert objects[..i + 1][..i] == objects[..i];
      match read(objects[i]) {
        case Bad => return Failure(MalformedKey);
        case Original => hasOriginal := true;
        case Number(version) => res := res + [version];
      }
    }
    assert objects[..|objects|] == objects;
    res := SortInts(res);
    r := Success(Versions(res, hasOriginal));
  }

  // ---------- what a listing holds ----------

  /** Some page of the listing holds this key. */
  ghost predicate HoldsKey(pages: seq<KeyPage>, key: GoString) {
    exists p :: 0 <= p < |pages| && pages[p].KeysOf? && key in pages[p].keys
  }

  /** The keys of a listing are those of its pages, one for one and in order. */
  lemma {:induction false} AllKeysAt(pages: seq<KeyPage>, p: nat)
    requires p < |pages| && pages[p].KeysOf?
    ensures var from := |AllKeys(pages[..p])|;
            && from + |pages[p].keys| == |AllKeys(pages[..p + 1])| <= |AllKeys(pages)|
            && AllKeys(pages)[from..from + |pages[p].keys|] == pages[p].keys
    decreases |pages|
  {
    var n := |pages| - 1;
    var front := pages[..n];
    assert pages[..p + 1][..p] == pages[..p];
    if p < n {
      AllKeysAt(front, p);
      assert front[..p] == pages[..p] && front[..p + 1] == pages[..p + 1];
      assert AllKeys(pages)[..|AllKeys(front)|] == AllKeys(front);
    } else {
      assert pages[..p + 1] == pages;
    }
  }

  lemma {:induction false} AllKeysElements(pages: seq<KeyPage>, key: GoString)
    ensures key in AllKeys(pages) <==> HoldsKey(pages, key)
  {
    if pages != [] {
      var n := |pages| - 1;
      AllKeysElements(pages[..n], key);
      if p :| 0 <= p < |pages| && pages[p].KeysOf? && key in pages[p].keys {
        assert p < n ==> pages[..n][p] == pages[p];
      }
      if p :| 0 <= p < n && pages[..n][p].KeysOf? && key in pages[..n][p].keys {
        assert pages[p].KeysOf? && key in pages[p].keys;
      }
    }
  }

  /** What a key says: `original` after the URN and a dash, a 64-bit number there, or nothing it should. */
  lemma SuffixExactly(key: GoString, urn: GoString, n: int)
    ensures SuffixOf(key, urn) == Original <==> key == urn + "-" + "original"
    ensures SuffixOf(key, urn) == Number(n) <==>
            exists suffix: GoString :: key == urn + "-" + suffix && suffix != "original" && ParseInt(suffix) == Some(n)
  {
    OriginalSuffix(key, urn);
    var front := urn + "-";
    if HasPrefix(key, front) {
      assert key == front + key[|urn| + 1..];
    }
    if suffix: GoString :| key == urn + "-" + suffix && suffix != "original" && ParseInt(suffix) == Some(n) {
      assert key[..|front|] == front && key[|front|..] == suffix;
    }
  }

  /** The outcome in terms of the keys the pages hold. */
  ghost predicate Listed(r: Result<Versions, StoreError>, pages: seq<KeyPage>, urn: GoString) {
    && (r == Failure(NoSuchObject) <==> forall key :: !HoldsKey(pages, key))
    && (r == Failure(MalformedKey) <==> exists key :: HoldsKey(pages, key) && SuffixOf(key, urn) == Bad)
    && r != Failure(Unreachable)
    && (r.Success? ==>
          && (forall n ::
                n in r.value.versions <==> exists key :: HoldsKey(pages, key) && SuffixOf(key, urn) == Number(n))
          && (r.value.hasOriginal <==> exists key :: HoldsKey(pages, key) && SuffixOf(key, urn) == Original))
  }

  lemma ReadsMeansHeld(pages: seq<KeyPage>, urn: GoString, suffix: Suffix)
    ensures Reads(AllKeys(pages), SuffixIn(urn), suffix) <==>
            exists key :: HoldsKey(pages, key) && SuffixOf(key, urn) == suffix
  {
    var keys := AllKeys(pages);
    if i :| 0 <= i < |keys| && SuffixIn(urn)(keys[i]) == suffix {
      AllKeysElements(pages, keys[i]);
    }
    if key :| HoldsKey(pages, key) && SuffixOf(key, urn) == suffix {
      AllKeysElements(pages, key);
      var i :| 0 <= i < |keys| && keys[i] == key;
      assert SuffixIn(urn)(keys[i]) == suffix;
    }
  }

  /** What GetObjectVersions answers, by the keys the pages hold. */
  lemma ResultIsListed(r: Result<Versions, StoreError>, pages: seq<KeyPage>, urn: GoString)
    requires VersionsResult(r, AllKeys(pages), SuffixIn(urn))
    ensures Listed(r, pages, urn)
  {
    var keys, read := AllKeys(pages), SuffixIn(urn);
    ReadsMeansHeld(pages, urn, Bad);
    ReadsMeansHeld(pages, urn, Original);
    forall key
      ensures key in keys <==> HoldsKey(pages, key)
    {
      AllKeysElements(pages, key);
    }
    assert keys != [] ==> keys[0] in keys;
    if r.Success? {
      forall n
        ensures n in r.value.versions <==> exists key :: HoldsKey(pages, key) && SuffixOf(key, urn) == Number(n)
      {
        NumbersElements(keys, read, n);
        ReadsMeansHeld(pages, urn, Number(n));
        assert n in r.value.versions <==> n in multiset(r.value.versions);
        assert n in Numbers(keys, read) <==> n in multiset(Numbers(keys, read));
      }
    }
  }

  method GetObjectVersions(urn: GoString, pages: seq<KeyPage>) returns (r: Result<Versions, StoreError>)
    ensures Broken in pages ==> r == Failure(Unreachable)
    ensures Broken !in pages ==> VersionsResult(r, AllKeys(pages), SuffixIn(urn))
  {
    var objects: seq<GoString> := [];
    for p := 0 to |pages|
      invariant forall q :: 0 <= q < p ==> pages[q] != Broken
      invariant objects == AllKeys(pages[..p])
    {
      assert pages[..p + 1][..p] == pages[..p];
      if pages[p].Broken? {
        return Failure(Unreachable);
      }
      objects := objects + pages[p].keys;
    }
    assert pages[..|pages|] == pages;
    r := ParseVersions(objects, SuffixIn(urn));
  }

  // ---------- what the listing means for the bucket ----------

  /** The versions stored for a URN. */
  ghost function StoredVersions(objects: Objects, urn: GoString): set<int> {
    set key | key in objects && SuffixOf(key, urn).Number? :: SuffixOf(key, urn).n
  }

  /** The keys of a URN that read as version n. */
  ghost function KeysReading(objects: Objects, urn: GoString, n: int): set<GoString> {
    set key | key in objects && SuffixOf(key, urn) == Number(n)
  }

  ghost predicate SomeKey(objects: Objects, urn: GoString) {
    exists key :: key in objects && HasPrefix(key, urn)
  }

  ghost predicate SomeForeignKey(objects: Objects, urn: GoString) {
    exists key :: key in objects && HasPrefix(key, urn) && SuffixOf(key, urn) == Bad
  }

  /** The outcome of GetObjectVersions in terms of the bucket. */
  ghost predicate ListsVersions(r: Result<Versions, StoreError>, objects: Objects, urn: GoString) {
    if !SomeKey(objects, urn) then r == Failure(NoSuchObject)
    else if SomeForeignKey(objects, urn) then r == Failure(MalformedKey)
    else
      && r.Success?
      && Sorted(r.value.versions)
      && (forall n :: n in r.value.versions <==> n in StoredVersions(objects, urn))
      && (forall n :: multiset(r.value.versions)[n] == |KeysReading(objects, urn, n)|)
      && (r.value.hasOriginal <==> UploadKeyOriginal(urn) in objects)
  }

  lemma {:induction false} NumbersElements(keys: seq<GoString>, read: Reading, n: int)
    ensures n in Numbers(keys, read) <==> Reads(keys, read, Number(n))
  {
    if keys != [] {
      var front, last := keys[..|keys| - 1], keys[|keys| - 1];
      NumbersElements(front, read, n);
      if i :| 0 <= i < |keys| && read(keys[i]) == Number(n) {
        assert i < |front| ==> read(front[i]) == Number(n);
      }
      if i :| 0 <= i < |front| && read(front[i]) == Number(n) {
        assert read(keys[i]) == Number(n);
      }
      assert read(keys[|keys| - 1]) == Number(n) <==> n in (match read(last) case Number(m) => [m] case _ => []);
    }
  }

  function Matching(keys: seq<GoString>, read: Reading, n: int): set<GoString> {
    set key | key in keys && read(key) == Number(n)
  }

  /** A number is listed as often as keys read so. */
  lemma {:induction false} NumbersCount(keys: seq<GoString>, read: Reading, n: int)
    requires forall i, j :: 0 <= i < j < |keys| ==> keys[i] != keys[j]
    ensures multiset(Numbers(keys, read))[n] == |Matching(keys, read, n)|
  {
    if keys != [] {
      var front, last := keys[..|keys| - 1], keys[|keys| - 1];
      assert keys == front + [last];
      NumbersCount(front, read, n);
      assert last !in front;
      assert Matching(keys, read, n) == Matching(front, read, n) + (if read(last) == Number(n) then {last} else {});
    }
  }

  lemma VersionsCount(pages: seq<KeyPage>, objects: Objects, urn: GoString, n: int)
    requires Enumerates(pages, objects, urn)
    ensures multiset(Numbers(AllKeys(pages), SuffixIn(urn)))[n] == |KeysReading(objects, urn, n)|
  {
    NumbersCount(AllKeys(pages), SuffixIn(urn), n);
    forall key | SuffixOf(key, urn) == Number(n)
      ensures HasPrefix(key, urn)
    {
      PrefixOfPrefix(key, urn);
    }
    assert Matching(AllKeys(pages), SuffixIn(urn), n) == KeysReading(objects, urn, n);
  }

  lemma ReadsMeansStored(pages: seq<KeyPage>, objects: Objects, urn: GoString, suffix: Suffix)
    requires Enumerates(pages, objects, urn)
    ensures Reads(AllKeys(pages), SuffixIn(urn), suffix) <==>
            exists key :: key in objects && HasPrefix(key, urn) && SuffixOf(key, urn) == suffix
  {
    var keys := AllKeys(pages);
    if i :| 0 <= i < |keys| && SuffixIn(urn)(keys[i]) == suffix {
      assert keys[i] in objects && HasPrefix(keys[i], urn);
    }
    if key :| key in objects && HasPrefix(key, urn) && SuffixOf(key, urn) == suffix {
      assert key in keys;
      var i :| 0 <= i < |keys| && keys[i] == key;
      assert SuffixIn(urn)(keys[i]) == suffix;
    }
  }

  lemma PrefixOfPrefix(key: GoString, urn: GoString)
    ensures SuffixOf(key, urn) != Bad ==> HasPrefix(key, urn)
  {
    if HasPrefix(key, urn + "-") {
      assert key[..|urn|] == key[..|urn| + 1][..|urn|] == urn;
    }
  }

  lemma OriginalSuffix(key: GoString, urn: GoString)
    ensures SuffixOf(key, urn) == Original <==> key == UploadKeyOriginal(urn)
  {
    var front := urn + "-";
    if HasPrefix(key, front) {
      assert key == front + key[|urn| + 1..];
    }
    if key == front + ORIGINAL {
      assert key[..|front|] == front && key[|front|..] == ORIGINAL;
    }
  }

  /** On a faithful listing GetObjectVersions reports exactly what the bucket stores for the URN. */
  lemma VersionsOfBucket(r: Result<Versions, StoreError>, pages: seq<KeyPage>, objects: Objects, urn: GoString)
    requires Enumerates(pages, objects, urn)
    requires VersionsResult(r, AllKeys(pages), SuffixIn(urn))
    ensures ListsVersions(r, objects, urn)
  {
    var keys := AllKeys(pages);
    assert keys == [] <==> !SomeKey(objects, urn) by {
      if keys != [] { assert keys[0] in keys; }
    }
    ReadsMeansStored(pages, objects, urn, Bad);
    ReadsMeansStored(pages, objects, urn, Original);
    OriginalSuffix(UploadKeyOriginal(urn), urn);
    PrefixOfPrefix(UploadKeyOriginal(urn), urn);
    forall key
      ensures SuffixOf(key, urn) == Original ==> key == UploadKeyOriginal(urn)
    {
      OriginalSuffix(key, urn);
    }
    if r.Success? {
      forall n
        ensures n in r.value.versions <==> n in StoredVersions(objects, urn)
        ensures multiset(r.value.versions)[n] == |KeysReading(objects, urn, n)|
      {
        VersionsCount(pages, objects, urn, n);
        assert n in r.value.versions <==> n in multiset(r.value.versions);
        assert n in Numbers(keys, SuffixIn(urn)) <==> n in multiset(Numbers(keys, SuffixIn(urn)));
        NumbersElements(keys, SuffixIn(urn), n);
        ReadsMeansStored(pages, objects, urn, Number(n));
        NumberIsStored(objects, urn, n);
      }
    }
  }

  lemma NumberIsStored(objects: Objects, urn: GoString, n: int)
    ensures n in StoredVersions(objects, urn) <==>
            exists key :: key in objects && HasPrefix(key, urn) && SuffixOf(key, urn) == Number(n)
  {
    if n in StoredVersions(objects, urn) {
      var key :| key in objects && SuffixOf(key, urn).Number? && SuffixOf(key, urn).n == n;
      PrefixOfPrefix(key, urn);
    }
  }
}
