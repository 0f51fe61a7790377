/** The choice of version and error correction level. */
module Versions {
  import opened Segments
  import opened DataStream
  import opened Tables

  /** The segments fit the data codewords of a version and level. */
  predicate Fits(ps: seq<Payload>, v: Version, ecl: Ecc) {
    Encodable(ps, v) && |PayloadsBits(ps, v)| <= NumDataCodewords(v, ecl) * 8
  }

  /** Some version in the range holds the segments. */
  ghost predicate SomeFits(ps: seq<Payload>, minVersion: Version, maxVersion: Version, ecl: Ecc) {
    exists v: Version | minVersion <= v <= maxVersion :: Fits(ps, v, ecl)
  }

  /** The smallest version of the range that holds the segments. */
  predicate SmallestVersion(ps: seq<Payload>, minVersion: Version, maxVersion: Version, ecl: Ecc, v: Version) {
    && minVersion <= v <= maxVersion && Fits(ps, v, ecl)
    && forall u: Version | minVersion <= u < v :: !Fits(ps, u, ecl)
  }

  /** The level used: as requested, or the highest that holds the segments at that version. */
  predicate LevelChosen(ps: seq<Payload>, v: Version, ecl: Ecc, boostEcl: bool, e: Ecc) {
    && ecl <= e && Fits(ps, v, e)
    && if boostEcl then forall i: Ecc | e < i :: !Fits(ps, v, i) else e == ecl
  }

  /** Find the smallest suitable version of the range; there is a result exactly if some version is suitable. */
  method ChooseVersion(segs: seq<Segment>, ecl: Ecc, minVersion: Version, maxVersion: Version, ghost ps: seq<Payload>)
    returns (ok: bool, version: Version, dataUsedBits: int)
    requires AllReadable(segs) && minVersion <= maxVersion && ps == Payloads(segs)
    ensures ok == SomeFits(ps, minVersion, maxVersion, ecl)
    ensures ok ==> SmallestVersion(ps, minVersion, maxVersion, ecl, version)
    ensures ok ==> dataUsedBits == |PayloadsBits(ps, version)|
  {
    hide PayloadsBits, Encodable, NumDataCodewords;
    version := minVersion;
    while true
      invariant minVersion <= version <= maxVersion && ps == Payloads(segs)
      invariant forall u: Version | minVersion <= u < version :: !Fits(ps, u, ecl)
      decreases maxVersion - version
    {
      var dataCapacityBits := NumDataCodewords(version, ecl) * 8;
      dataUsedBits := GetTotalBits(segs, version);
      assert Payloads(segs) == ps;
      if dataUsedBits != -1 && dataUsedBits <= dataCapacityBits {
        assert Fits(ps, version, ecl);
        return true, version, dataUsedBits;
      }
      assert !Fits(ps, version, ecl);
      if version >= maxVersion { return false, version, dataUsedBits; }
      version := version + 1;
    }
  }

  /**
   Raise the level as far as the data still fits the chosen version. On the way the level may drop
   below the requested one, which fits too, so in the end it does not.
   */
  method BoostLevel(ecl: Ecc, version: Version, boostEcl: bool, dataUsedBits: nat, ghost ps: seq<Payload>)
    returns (level: Ecc)
    requires Fits(ps, version, ecl) && dataUsedBits == |PayloadsBits(ps, version)|
    ensures LevelChosen(ps, version, ecl, boostEcl, level)
  {
    hide PayloadsBits, Encodable, NumDataCodewords;
    level := ecl;
    for i := 1 to 4
      invariant Fits(ps, version, level) && (!boostEcl ==> level == ecl)
      invariant boostEcl ==>
                || (1 <= level < i && forall k: Ecc | level < k < i :: !Fits(ps, version, k))
                || (level == ecl && forall k: Ecc | 1 <= k < i :: !Fits(ps, version, k))
    {
      if boostEcl && dataUsedBits <= NumDataCodewords(version, i) * 8 { level := i; }
    }
  }
}
