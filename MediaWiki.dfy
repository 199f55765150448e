/** The server versions an action can be compatible with (MediaWiki.Version).
    Only the ordering of the enumeration is modelled: two sentinels sit outside
    the release numbering, UNKNOWN below every release and DEVELOPMENT above. */
module MediaWiki {

  datatype Version = Unknown | Real(rank: nat) | Development {

    /** `this.greaterEqThen(other)`: this version is at least as new as `other`. */
    predicate GreaterEqThen(other: Version) {
      match (this, other)
      case (_, Unknown) => true
      case (Unknown, _) => false
      case (Development, _) => true
      case (_, Development) => false
      case (Real(a), Real(b)) => a >= b
    }
  }

  /** Position of a version's group in the order: UNKNOWN, the releases, DEVELOPMENT. */
  function Tier(v: Version): nat {
    match v
    case Unknown => 0
    case Real(_) => 1
    case Development => 2
  }

  /** Independent statement of the order: compare the tier, then the release rank. */
  predicate AtLeastAsNew(a: Version, b: Version) {
    Tier(a) > Tier(b) || (Tier(a) == Tier(b) && (a.Real? ==> a.rank >= b.rank))
  }

  /** `a` is strictly newer than `b`. */
  predicate Newer(a: Version, b: Version) {
    a.GreaterEqThen(b) && a != b
  }

  lemma GreaterEqThenIsTieredOrder(a: Version, b: Version)
    ensures a.GreaterEqThen(b) <==> AtLeastAsNew(a, b)
  {}

  lemma GreaterEqThenReflexive(a: Version)
    ensures a.GreaterEqThen(a)
  {}

  lemma GreaterEqThenTransitive(a: Version, b: Version, c: Version)
    requires a.GreaterEqThen(b) && b.GreaterEqThen(c)
    ensures a.GreaterEqThen(c)
  {}

  /** UNKNOWN is older than anything, DEVELOPMENT newer than anything
      (MediaWikiTest.testGreaterEqThen_development, _unknown, _unknown_development). */
  lemma Sentinels(v: Version)
    ensures v.GreaterEqThen(Unknown)
    ensures Unknown.GreaterEqThen(v) <==> v == Unknown
    ensures Development.GreaterEqThen(v)
    ensures v.GreaterEqThen(Development) <==> v == Development
  {}

  /** For releases the order is the order of their ranks. */
  lemma ReleasesByRank(a: Version, b: Version)
    requires a.Real? && b.Real? && a.rank < b.rank
    ensures !a.GreaterEqThen(b) && b.GreaterEqThen(a) && Newer(b, a)
  {}
}
