/** Image versions, compared without their build number. */
module Versions {

  datatype Version = Version(major: nat, minor: nat, revision: nat, build: nat)

  /** `boot_version_cmp`: 1, 0 or -1 as `a` is newer than, as new as, or older than `b`. */
  function Compare(a: Version, b: Version): int {
    if a.major > b.major then 1
    else if a.major < b.major then -1
    else if a.minor > b.minor then 1
    else if a.minor < b.minor then -1
    else if a.revision > b.revision then 1
    else if a.revision < b.revision then -1
    else 0
  }

  /** `Compare` is a total preorder, and what it identifies is exactly what differs in the build number alone. */
  lemma CompareIsTotalPreorder(a: Version, b: Version, c: Version)
    ensures -1 <= Compare(a, b) <= 1 && Compare(a, b) == -Compare(b, a)
    ensures Compare(a, b) >= 0 && Compare(b, c) >= 0 ==> Compare(a, c) >= 0
    ensures Compare(a, b) > 0 && Compare(b, c) >= 0 ==> Compare(a, c) > 0
    ensures Compare(a, b) >= 0 && Compare(b, c) > 0 ==> Compare(a, c) > 0
    ensures Compare(a, b) == 0 <==> a == b.(build := a.build)
  {}

  /** The three fields in one 32-bit number, as wide as the header has them: 8, 8 and 16 bits. */
  function Key(a: Version): nat {
    a.major * 0x100_0000 + a.minor * 0x1_0000 + a.revision
  }

  predicate Fits(a: Version) {
    a.major < 0x100 && a.minor < 0x100 && a.revision < 0x1_0000
  }

  /** The field-by-field comparison is the order of these numbers. */
  lemma CompareOrdersKeys(a: Version, b: Version)
    requires Fits(a) && Fits(b)
    ensures Compare(a, b) == 1 <==> Key(a) > Key(b)
    ensures Compare(a, b) == -1 <==> Key(a) < Key(b)
    ensures Compare(a, b) == 0 <==> Key(a) == Key(b)
  {}
}
