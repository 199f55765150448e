/** An explicit, finite stand-in for the Java reflection that the version
    resolver uses: which classes exist, the superclass of each, which carry a
    @SupportedBy annotation and with what array, and which are taken to be the
    hierarchy root (java.lang.Object). */
module Reflection {
  import opened MediaWiki

  /** Classes are numbered so that a superclass always has a smaller number
      than its subclasses; any finite, acyclic hierarchy can be numbered so. */
  type ClassId = nat

  datatype ClassTable = ClassTable(
    classes: set<ClassId>,
    superclass: map<ClassId, ClassId>,          // getSuperclass(); absent = null
    supportedBy: map<ClassId, seq<Version>>,    // @SupportedBy(value)
    roots: set<ClassId>)                        // classes the resolver treats as Object

  /** The table describes a real class hierarchy: every class other than a root
      has a superclass in the table, numbered below it. */
  ghost predicate WellFormed(t: ClassTable) {
    && t.roots <= t.classes
    && (forall c :: c in t.superclass ==> c in t.classes && t.superclass[c] in t.classes && t.superclass[c] < c)
    && (forall c :: c in t.classes && c !in t.roots ==> c in t.superclass)
  }

  /** The classes visited when walking up from `c` with getSuperclass(),
      stopping at the first root. */
  function Lineage(t: ClassTable, c: ClassId): (p: seq<ClassId>)
    requires WellFormed(t) && c in t.classes
    ensures 0 < |p| && p[0] == c && p[|p| - 1] in t.roots
    ensures forall i :: 0 <= i < |p| ==> p[i] in t.classes
    ensures forall i :: 0 <= i < |p| - 1 ==> p[i] !in t.roots && p[i] in t.superclass && p[i + 1] == t.superclass[p[i]]
    decreases c
  {
    if c in t.roots then [c] else [c] + Lineage(t, t.superclass[c])
  }
}
