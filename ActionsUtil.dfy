/** MWAction, the base class of every MediaWiki API action: the one-shot
    "has more messages" latch, the identity text processing, resolution of the
    supported versions over the class hierarchy with a per-instance cache, the
    compatibility check the constructor runs, and the namespace-string helper. */
module ActionsUtil {
  import opened Wrappers
  import opened MediaWiki
  import opened Reflection
  import opened Decimal
  import opened NsFormat

  /** VersionException("unsupported version: " + v), carrying the rejected version. */
  datatype VersionException = VersionException(version: Version)

  /** checkVersionNewerEquals returns normally (Pass) or throws (Fail). */
  datatype Outcome = Pass | Fail(error: VersionException)

  /** `new MWAction(v)` yields an action or throws. */
  datatype Construction = Constructed(action: MWAction) | Rejected(error: VersionException)

  /** The rule of checkVersionNewerEquals: `v` is one of the supported versions
      or at least as new as one of them. */
  predicate IsSupported(supported: seq<Version>, v: Version): (b: bool)
    ensures supported == [] ==> !b
    ensures Unknown in supported ==> b
  {
    v in supported || exists vx :: vx in supported && v.GreaterEqThen(vx)
  }

  /** The oldest of a non-empty list of versions. */
  function Oldest(s: seq<Version>): (r: Version)
    requires s != []
    ensures r in s
    ensures forall x :: x in s ==> x.GreaterEqThen(r)
    decreases |s|
  {
    if |s| == 1 then s[0]
    else
      var m := Oldest(s[1..]);
      if m.GreaterEqThen(s[0]) then
        assert forall x :: x in s[1..] ==> x.GreaterEqThen(s[0]) by {
          forall x | x in s[1..] ensures x.GreaterEqThen(s[0]) {
            GreaterEqThenTransitive(x, m, s[0]);
          }
        }
        s[0]
      else
        m
  }

  class MWAction {
    /** The class hierarchy the program runs with, and getClass() of this action. */
    const table: ClassTable
    const cls: ClassId
    /** Cache of getVersionArray; null until first computed. */
    var v: array?<Version>
    var hasMore: bool

    ghost predicate Valid()
      reads this, v
    {
      && WellFormed(table) && cls in table.classes
      && (v != null ==> v[..] == FindSupportedVersions(table, cls))
    }

    /** The field initialisers: `hasMore = true`, `v` null. */
    constructor Init(t: ClassTable, c: ClassId)
      requires WellFormed(t) && c in t.classes
      ensures Valid() && table == t && cls == c
      ensures v == null && hasMore
    {
      table, cls := t, c;
      v, hasMore := null, true;
    }

    /** MWAction(Version v): initialise the fields, then run the compatibility
        check, which throws on an unsupported version. */
    static method Create(t: ClassTable, c: ClassId, version: Version) returns (r: Construction)
      requires WellFormed(t) && c in t.classes
      ensures r.Constructed? <==> IsSupported(FindSupportedVersions(t, c), version)
      ensures r.Rejected? ==> r.error == VersionException(version)
      ensures r.Constructed? ==> fresh(r.action) && r.action.Valid()
      ensures r.Constructed? ==> r.action.table == t && r.action.cls == c && r.action.hasMore
      ensures r.Constructed? ==> r.action.v != null
    {
      var a := new MWAction.Init(t, c);
      var o := a.CheckVersionNewerEquals(version);
      if o.Pass? {
        r := Constructed(a);
      } else {
        r := Rejected(o.error);
      }
    }

    /** Returns the flag and clears it. */
    method HasMoreMessages() returns (b: bool)
      requires Valid()
      modifies this`hasMore
      ensures Valid()
      ensures b == old(hasMore) && !hasMore
    {
      b := hasMore;
      hasMore := false;
    }

    method SetHasMoreMessages(b: bool)
      requires Valid()
      modifies this`hasMore
      ensures Valid()
      ensures hasMore == b
    {
      hasMore := b;
    }

    /** The base class hands the response text on unchanged; `hm`, the request
        that produced it, is not looked at. */
    function ProcessReturningText<HttpAction>(s: string, hm: HttpAction): (r: string)
      ensures r == s
    {
      ProcessAllReturningText(s)
    }

    function ProcessAllReturningText(s: string): (r: string)
      ensures r == s
    {
      s
    }

    /** The versions declared for class `c`: [UNKNOWN] at a root (a root wins
        over any annotation), the @SupportedBy array of an annotated class,
        otherwise whatever its superclass resolves to. */
    static function FindSupportedVersions(t: ClassTable, c: ClassId): (r: seq<Version>)
      requires WellFormed(t) && c in t.classes
      ensures r == [Unknown] || exists d :: d in t.supportedBy && r == t.supportedBy[d]
      decreases c
    {
      if c in t.roots then [Unknown]
      else if c in t.supportedBy then t.supportedBy[c]
      else FindSupportedVersions(t, t.superclass[c])
    }

    /** Resolves this action's versions on the first call and caches the array;
        later calls return the cached array and leave the cache alone. */
    method GetVersionArray() returns (va: array<Version>)
      requires Valid()
      modifies this`v
      ensures Valid()
      ensures v == va && va[..] == FindSupportedVersions(table, cls)
      ensures old(v) != null ==> va == old(v)
      ensures old(v) == null ==> fresh(va)
    {
      if v != null {
        return v;
      }
      var s := FindSupportedVersions(table, cls);
      v := new Version[|s|](i requires 0 <= i < |s| => s[i]);
      return v;
    }

    /** A new list holding the cached versions in order. */
    method GetSupportedVersions() returns (list: seq<Version>)
      requires Valid()
      modifies this`v
      ensures Valid() && v != null
      ensures old(v) != null ==> v == old(v)
      ensures list == v[..] && list == FindSupportedVersions(table, cls)
    {
      list := [];
      var va := GetVersionArray();
      var i := 0;
      while i < va.Length
        invariant 0 <= i <= va.Length
        invariant list == va[..i]
      {
        list := list + [va[i]];
        i := i + 1;
      }
    }

    /** Returns normally when `version` is supported, otherwise throws
        VersionException. Populates the cache. */
    method CheckVersionNewerEquals(version: Version) returns (o: Outcome)
      requires Valid()
      modifies this`v
      ensures Valid() && v != null
      ensures old(v) != null ==> v == old(v)
      ensures o.Pass? <==> IsSupported(FindSupportedVersions(table, cls), version)
      ensures o.Fail? ==> o.error == VersionException(version)
    {
      var supported := GetSupportedVersions();
      if version in supported {
        return Pass;
      }
      var all := GetSupportedVersions();
      var i := 0;
      while i < |all|
        invariant 0 <= i <= |all|
        invariant forall j :: 0 <= j < i ==> !version.GreaterEqThen(all[j])
      {
        if version.GreaterEqThen(all[i]) {
          return Pass;
        }
        i := i + 1;
      }
      return Fail(VersionException(version));
    }

    /** The namespace numbers in decimal, separated by '|', with the trailing
        separator removed; "" for a null or empty argument. */
    static method CreateNsString(namespaces: Option<seq<Int32>>) returns (result: string)
      ensures result == NsString(namespaces)
      ensures namespaces.Some? && namespaces.value != [] ==>
                Count(result, '|') == |namespaces.value| - 1 && result[|result| - 1] != '|'
      ensures ParseNsString(result) == Some(if namespaces.Some? then namespaces.value else [])
    {
      result := "";
      if namespaces.Some? && |namespaces.value| != 0 {
        result := AppendAndTrim(namespaces.value);
      }
      NsStringProperties(namespaces);
    }

    /** The body of createNsString for a non-empty argument: append each number
        and a '|' to the buffer, then drop the final '|'. */
    static method AppendAndTrim(ns: seq<Int32>) returns (result: string)
      requires ns != []
      ensures result == Joined(ns)
    {
      var namespaceString := "";
      for i := 0 to |ns|
        invariant namespaceString == Buffered(ns, i)
      {
        namespaceString := namespaceString + IntToString(ns[i]) + "|";
      }
      TrimmedBuffer(ns);
      result := namespaceString;
      if result[|result| - 1] == '|' {
        result := result[..|result| - 1];
      }
    }
  }

  /** On a fresh action the first read reports more messages and the next does
      not; setHasMoreMessages(b) arms the latch with b for exactly one read. */
  method LatchProtocol(t: ClassTable, c: ClassId, b: bool)
    returns (first: bool, second: bool, afterSet: bool, afterThat: bool)
    requires WellFormed(t) && c in t.classes
    ensures first && !second
    ensures afterSet == b && !afterThat
  {
    var a := new MWAction.Init(t, c);
    first := a.HasMoreMessages();
    second := a.HasMoreMessages();
    a.SetHasMoreMessages(b);
    afterSet := a.HasMoreMessages();
    afterThat := a.HasMoreMessages();
  }

  /** The three resolution cases, read off the definition of
      FindSupportedVersions; ResolvesToNearestDeclaration says what they add up to. */
  lemma Resolution(t: ClassTable, c: ClassId)
    requires WellFormed(t) && c in t.classes
    ensures c in t.roots ==> MWAction.FindSupportedVersions(t, c) == [Unknown]
    ensures c !in t.roots && c in t.supportedBy ==> MWAction.FindSupportedVersions(t, c) == t.supportedBy[c]
    ensures c !in t.roots && c !in t.supportedBy ==>
              MWAction.FindSupportedVersions(t, c) == MWAction.FindSupportedVersions(t, t.superclass[c])
  {}

  /** The position in a lineage of the nearest class that is a root or annotated. */
  function NearestDeclaration(t: ClassTable, p: seq<ClassId>): (k: nat)
    requires 0 < |p| && p[|p| - 1] in t.roots
    ensures k < |p| && (p[k] in t.roots || p[k] in t.supportedBy)
    ensures forall j :: 0 <= j < k ==> p[j] !in t.roots && p[j] !in t.supportedBy
    decreases |p|
  {
    if p[0] in t.roots || p[0] in t.supportedBy then 0 else 1 + NearestDeclaration(t, p[1..])
  }

  /** What the class at the nearest declaration declares. */
  function DeclarationOf(t: ClassTable, d: ClassId): seq<Version>
    requires d in t.roots || d in t.supportedBy
  {
    if d in t.roots then [Unknown] else t.supportedBy[d]
  }

  /** The resolver yields the declaration of the nearest class, walking upward
      from `c`, that is a root or carries @SupportedBy. */
  lemma {:induction false} ResolvesToNearestDeclaration(t: ClassTable, c: ClassId)
    requires WellFormed(t) && c in t.classes
    ensures var p := Lineage(t, c);
            MWAction.FindSupportedVersions(t, c) == DeclarationOf(t, p[NearestDeclaration(t, p)])
    decreases c
  {
    var p := Lineage(t, c);
    if c !in t.roots && c !in t.supportedBy {
      var q := Lineage(t, t.superclass[c]);
      assert p[1..] == q;
      ResolvesToNearestDeclaration(t, t.superclass[c]);
    }
  }

  /** A class with no annotation anywhere up to the root resolves to [UNKNOWN]. */
  lemma UnannotatedResolvesToUnknown(t: ClassTable, c: ClassId)
    requires WellFormed(t) && c in t.classes
    requires forall i :: 0 <= i < |Lineage(t, c)| ==> Lineage(t, c)[i] !in t.supportedBy
    ensures MWAction.FindSupportedVersions(t, c) == [Unknown]
  {
    ResolvesToNearestDeclaration(t, c);
  }

  /** Since every version is at least as new as itself, exact membership is
      subsumed by the newer-or-equal rule. */
  lemma SupportedIffNewerEqualsSome(supported: seq<Version>, v: Version)
    ensures IsSupported(supported, v) <==> exists vx :: vx in supported && v.GreaterEqThen(vx)
  {}

  /** A version is supported exactly when it is at least as new as the oldest
      supported version; nothing is supported by an empty list. */
  lemma SupportedIffAtLeastOldest(supported: seq<Version>, v: Version)
    ensures IsSupported(supported, v) <==> supported != [] && v.GreaterEqThen(Oldest(supported))
  {}

  /** A version is rejected exactly when every supported version is strictly newer. */
  lemma RejectedIffOlderThanAll(supported: seq<Version>, v: Version)
    ensures !IsSupported(supported, v) <==> forall vx :: vx in supported ==> Newer(vx, v)
  {}

  /** Whatever is newer than a supported version is supported too. */
  lemma SupportedIsUpwardClosed(supported: seq<Version>, v: Version, w: Version)
    requires IsSupported(supported, v) && w.GreaterEqThen(v)
    ensures IsSupported(supported, w)
  {}

  /** An action whose hierarchy declares nothing accepts every version: UNKNOWN
      by membership, everything else by being newer than UNKNOWN. */
  lemma UnannotatedAcceptsEverything(t: ClassTable, c: ClassId, v: Version)
    requires WellFormed(t) && c in t.classes
    requires forall i :: 0 <= i < |Lineage(t, c)| ==> Lineage(t, c)[i] !in t.supportedBy
    ensures IsSupported(MWAction.FindSupportedVersions(t, c), v)
  {
    UnannotatedResolvesToUnknown(t, c);
    assert Unknown in [Unknown] && v.GreaterEqThen(Unknown);
  }
}
