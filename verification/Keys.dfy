/** Object keys `<urn>-<version>`: how they are built, split and recognised. */
module Keys {
  import opened Results
  import opened ByteStrings
  import opened Decimals

  const ORIGINAL: GoString := "original"

  function UploadKey(urn: GoString, version: int): GoString { urn + "-" + FormatInt(version) }

  function UploadKeyOriginal(urn: GoString): GoString { urn + "-" + ORIGINAL }

  /** strings.LastIndex for a single byte; -1 when there is none. */
  function LastIndex(s: GoString, b: Byte): (i: int)
    ensures -1 <= i < |s|
    ensures i >= 0 ==> s[i] == b
    ensures forall j :: i < j < |s| ==> s[j] != b
  {
    if s == [] then -1
    else if s[|s| - 1] == b then |s| - 1
    else LastIndex(s[..|s| - 1], b)
  }

  datatype SplitKey = SplitKey(serialNumber: GoString, version: GoString)

  function SplitObjectKey(key: GoString): Option<SplitKey> {
    var i := LastIndex(key, '-');
    if i == -1 then None else Some(SplitKey(key[..i], key[i + 1..]))
  }

  /** A key splits exactly when it has a `-`, and the parts make up the key. */
  lemma SplitExactly(key: GoString)
    ensures SplitObjectKey(key).None? <==> '-' !in key
    ensures SplitObjectKey(key).Some? ==>
              key == SplitObjectKey(key).value.serialNumber + "-" + SplitObjectKey(key).value.version
  {
    var i := LastIndex(key, '-');
    if i >= 0 {
      assert key == key[..i] + "-" + key[i + 1..];
    }
  }

  /** A version this service writes: `original`, or a positive decimal without leading zeros. */
  ghost predicate IsVersion(s: GoString) {
    s == ORIGINAL || exists n: nat :: n > 0 && s == Decimal(n)
  }

  predicate ValidVersionSpec(s: GoString) {
    s == ORIGINAL || (s != [] && s[0] != '0' && AllDigits(s))
  }

  method ValidVersion(s: GoString) returns (ok: bool)
    ensures ok == ValidVersionSpec(s)
    ensures ok <==> IsVersion(s)
  {
    ValidVersionMeaning(s);
    if s == ORIGINAL {
      return true;
    }
    if s == [] || s[0] == '0' {
      return false;
    }
    for i := 0 to |s|
      invariant forall j :: 0 <= j < i ==> IsDigit(s[j])
    {
      if s[i] < '0' || s[i] > '9' {
        return false;
      }
    }
    return true;
  }

  /** The digit scan accepts exactly the printed versions. */
  lemma ValidVersionMeaning(s: GoString)
    ensures ValidVersionSpec(s) <==> IsVersion(s)
  {
    if s != [] && s[0] != '0' && AllDigits(s) {
      DecimalOfValue(s);
      assert s == Decimal(Value(s));
    }
    if n: nat :| n > 0 && s == Decimal(n) {
      DecimalCanonical(n);
    }
  }

  /** The (serialNumber, version) a paged search shows for a key; None when it must not surface. */
  function PagedKey(key: GoString): Option<SplitKey> {
    match SplitObjectKey(key)
    case None => None
    case Some(k) => if ValidVersionSpec(k.version) then Some(k) else None
  }

  predicate WellKeyed(key: GoString) { PagedKey(key).Some? }

  lemma SplitJoined(urn: GoString, version: GoString)
    requires '-' !in version
    ensures SplitObjectKey(urn + "-" + version) == Some(SplitKey(urn, version))
  {
    var key := urn + "-" + version;
    var i := LastIndex(key, '-');
    assert key[|urn|] == '-';
    assert forall j :: |urn| < j < |key| ==> key[j] in version;
    assert i == |urn|;
    assert key[..i] == urn && key[i + 1..] == version;
  }

  /** Well-keyed keys are exactly the ones an upload could have written, read back unchanged. */
  lemma PagedKeyExact(key: GoString)
    ensures WellKeyed(key) <==>
            exists urn: GoString, version: GoString :: IsVersion(version) && key == urn + "-" + version
    ensures forall urn: GoString, version: GoString :: IsVersion(version) && key == urn + "-" + version
                                   ==> PagedKey(key) == Some(SplitKey(urn, version))
  {
    if WellKeyed(key) {
      var i := LastIndex(key, '-');
      ValidVersionMeaning(key[i + 1..]);
      assert key == key[..i] + "-" + key[i + 1..];
    }
    forall urn: GoString, version: GoString | IsVersion(version) && key == urn + "-" + version
      ensures PagedKey(key) == Some(SplitKey(urn, version))
    {
      ValidVersionMeaning(version);
      if version != ORIGINAL {
        assert '-' !in version;
      }
      SplitJoined(urn, version);
    }
  }
}
