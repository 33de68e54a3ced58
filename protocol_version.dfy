/**
 * The catalogue of supported protocol versions. Each release carries a protocol
 * version number; equality and ordering look at that number only, never at the
 * release's name or its place in the declaration. The default is the newest
 * release.
 */
module ProtocolVersions {
  import opened Wrappers

  datatype ProtocolVersion =
    | V1_21_4
    | V1_21_2
    | V1_21
    | V1_20_5
    | V1_20_3
    | V1_20_2
    | V1_20
    | V1_19_4
    | V1_19_3
    | V1_19_1
    | V1_19
    | V1_18_2
    | V1_18

  /** The result of `Ord::cmp`. */
  datatype Ordering = Less | Equal | Greater

  /** Every release, in declaration order (newest first). */
  const Catalogue: seq<ProtocolVersion> := [
    V1_21_4, V1_21_2, V1_21, V1_20_5, V1_20_3, V1_20_2, V1_20,
    V1_19_4, V1_19_3, V1_19_1, V1_19, V1_18_2, V1_18
  ]

  /** The protocol version number each release is tagged with. */
  function VersionNumber(v: ProtocolVersion): (n: int)
    ensures 757 <= n <= 769
  {
    match v
    case V1_21_4 => 769
    case V1_21_2 => 768
    case V1_21 => 767
    case V1_20_5 => 766
    case V1_20_3 => 765
    case V1_20_2 => 764
    case V1_20 => 763
    case V1_19_4 => 762
    case V1_19_3 => 761
    case V1_19_1 => 760
    case V1_19 => 759
    case V1_18_2 => 758
    case V1_18 => 757
  }

  /** Where a release sits in the catalogue. */
  function CatalogueIndex(v: ProtocolVersion): (i: nat)
    ensures i < |Catalogue| && Catalogue[i] == v
  {
    match v
    case V1_21_4 => 0
    case V1_21_2 => 1
    case V1_21 => 2
    case V1_20_5 => 3
    case V1_20_3 => 4
    case V1_20_2 => 5
    case V1_20 => 6
    case V1_19_4 => 7
    case V1_19_3 => 8
    case V1_19_1 => 9
    case V1_19 => 10
    case V1_18_2 => 11
    case V1_18 => 12
  }

  /** `Default::default`: the newest release, at most which every release is. */
  function Default(): (r: ProtocolVersion)
    ensures VersionNumber(r) == 769
    ensures forall v :: Le(v, r)
  {
    AllAtMostNewest();
    V1_21_4
  }

  /** `PartialEq::eq`: equal version numbers, which holds exactly for the same release. */
  predicate Eq(a: ProtocolVersion, b: ProtocolVersion): (r: bool)
    ensures r <==> a == b
  {
    NumbersUnique(a, b);
    VersionNumber(a) == VersionNumber(b)
  }

  /**
   * `Ord::cmp`: the integer comparison of the version numbers. Since the catalogue
   * is listed newest first, a release is Less than another exactly when it comes
   * later in the catalogue.
   */
  function Cmp(a: ProtocolVersion, b: ProtocolVersion): (r: Ordering)
    ensures r == Less <==> CatalogueIndex(b) < CatalogueIndex(a)
    ensures r == Equal <==> a == b
    ensures r == Greater <==> CatalogueIndex(a) < CatalogueIndex(b)
  {
    NumberByIndex(a);
    NumberByIndex(b);
    NumbersUnique(a, b);
    var m, n := VersionNumber(a), VersionNumber(b);
    if m < n then Less else if m == n then Equal else Greater
  }

  /** `PartialOrd::partial_cmp`: always defined, and comparing the version numbers. */
  function PartialCmp(a: ProtocolVersion, b: ProtocolVersion): (r: Option<Ordering>)
    ensures r.Some?
    ensures r.value == Less <==> VersionNumber(a) < VersionNumber(b)
    ensures r.value == Equal <==> VersionNumber(a) == VersionNumber(b)
    ensures r.value == Greater <==> VersionNumber(b) < VersionNumber(a)
  {
    Some(Cmp(a, b))
  }

  /** `a < b` as the derived comparison operators evaluate it. */
  predicate Lt(a: ProtocolVersion, b: ProtocolVersion) {
    PartialCmp(a, b) == Some(Less)
  }

  /** `a <= b`. */
  predicate Le(a: ProtocolVersion, b: ProtocolVersion) {
    PartialCmp(a, b) == Some(Less) || PartialCmp(a, b) == Some(Equal)
  }

  /** The catalogue lists every release once, newest first: its numbers run down from 769 to 757 without gaps. */
  lemma CatalogueNumbers()
    ensures |Catalogue| == 13
    ensures forall i :: 0 <= i < |Catalogue| ==> VersionNumber(Catalogue[i]) == 769 - i
    ensures forall v :: v in Catalogue
  {
    forall v: ProtocolVersion
      ensures v in Catalogue
    {
      assert Catalogue[769 - VersionNumber(v)] == v;
    }
  }

  /** A release's number counts down from 769 by its place in the catalogue. */
  lemma NumberByIndex(v: ProtocolVersion)
    ensures VersionNumber(v) == 769 - CatalogueIndex(v)
  {
  }

  /** No two releases share a version number. */
  lemma NumbersUnique(a: ProtocolVersion, b: ProtocolVersion)
    ensures VersionNumber(a) == VersionNumber(b) ==> a == b
  {
  }

  /** `cmp` says Equal exactly when `eq` holds, and swapping the arguments reverses it. */
  lemma CmpAgreesWithEq(a: ProtocolVersion, b: ProtocolVersion)
    ensures Cmp(a, b) == Equal <==> Eq(a, b)
    ensures Cmp(a, b) == Less <==> Cmp(b, a) == Greater
  {
  }

  /** `<=` is a total order on the catalogue: reflexive, antisymmetric, transitive and total. */
  lemma TotalOrder(a: ProtocolVersion, b: ProtocolVersion, c: ProtocolVersion)
    ensures Le(a, a)
    ensures Le(a, b) && Le(b, a) ==> a == b
    ensures Le(a, b) && Le(b, c) ==> Le(a, c)
    ensures Le(a, b) || Le(b, a)
    ensures Lt(a, b) <==> Le(a, b) && a != b
  {
    LeByNumber(a, a);
    LeByNumber(a, b);
    LeByNumber(b, a);
    LeByNumber(b, c);
    LeByNumber(a, c);
  }

  /** `<=` compares version numbers. */
  lemma LeByNumber(a: ProtocolVersion, b: ProtocolVersion)
    ensures Le(a, b) <==> VersionNumber(a) <= VersionNumber(b)
    ensures Lt(a, b) <==> VersionNumber(a) < VersionNumber(b)
  {
  }

  /** Every release is at most the newest one. */
  lemma AllAtMostNewest()
    ensures forall v :: Le(v, V1_21_4)
  {
    forall v: ProtocolVersion
      ensures Le(v, V1_21_4)
    {
      LeByNumber(v, V1_21_4);
    }
  }

  /** The ordering the unit test checks. */
  lemma TestOrdering()
    ensures Lt(V1_21, V1_21_2) && Lt(V1_21_2, V1_21_4)
    ensures Cmp(V1_21_4, V1_21_2) == Greater
    ensures Eq(V1_21_4, V1_21_4) && !Eq(V1_21_2, V1_21_4)
  {
  }
}
