# MWAction, the base of jwbf's MediaWiki API actions, in Dafny

jwbf (Java Wiki Bot Framework) talks to MediaWiki servers through action
objects. Every action extends `MWAction`. That base class provides five
behaviours:

- **A one-shot latch.** `hasMoreMessages` reports whether more requests are
  pending, and reading it clears it.
- **Identity text processing.** `processReturningText` and
  `processAllReturningText` return the text they are given.
- **Version resolution.** `findSupportedVersions` walks up the class
  hierarchy until it reaches either `java.lang.Object` (which gives
  `[UNKNOWN]`) or a class carrying a `@SupportedBy` annotation (which gives
  that annotation's array). `getVersionArray` caches the result once per
  action, and `getSupportedVersions` copies the cached array into a new list.
- **A compatibility check.** `checkVersionNewerEquals` runs in the
  constructor. It accepts a server version that is supported, or that is at
  least as new as some supported version. Otherwise it throws
  `VersionException`.
- **The namespace parameter.** `createNsString` renders namespace numbers in
  decimal and joins them with `|`.

The model has six modules:

- `MediaWiki`: the server versions. `Version` has two sentinels, `Unknown`
  and `Development`, with the numbered releases between them. It also
  defines the `GreaterEqThen` order.
- `Reflection`: an explicit class table that stands in for Java reflection.
  It lists the classes, the superclass of each, the `@SupportedBy` arrays,
  and which classes count as the root. Superclasses are numbered below their
  subclasses, so walking upward terminates.
- `Decimal`: `Integer.toString` for a Java `int`, plus a parser that reads
  its output back.
- `NsFormat`: the namespace string as a specification. This includes what
  the loop's buffer holds and a reader that splits the string at `|`.
- `ActionsUtil`: the class `MWAction`, with mutable fields for the latch and
  for the version cache (an `array`), and its methods. It also holds the
  lemmas that tie version resolution and the compatibility check to the
  class hierarchy and to the version order.

Java's `null` appears in three places:

- The version cache field is an `array?`.
- `createNsString` takes an `Option<seq<Int32>>`.
- `getSuperclass()` returning `null` is a class missing from the class table's `superclass` map, as for a root with no superclass.

A thrown `VersionException` becomes a `Fail` or `Rejected` result value.

In the source, `createNsString` has its loop and its trimming inline. The
model moves the part that runs for a non-empty argument into
`MWAction.AppendAndTrim`. `CreateNsString` keeps the null-or-empty test and
calls it.

## Model

| member | source | states |
|---|---|---|
| ActionsUtil.MWAction.Init | src/main/java/net/sourceforge/jwbf/mediawiki/actions/util/MWAction.java:46-47 | a new action has no cached versions and its latch is armed (`hasMore` is true) |
| ActionsUtil.MWAction.HasMoreMessages | src/main/java/net/sourceforge/jwbf/mediawiki/actions/util/MWAction.java:53-57 | returns the flag's old value and leaves the flag false |
| ActionsUtil.MWAction.SetHasMoreMessages | src/main/java/net/sourceforge/jwbf/mediawiki/actions/util/MWAction.java:64-66 | the flag becomes exactly `b` |
| ActionsUtil.LatchProtocol | src/main/java/net/sourceforge/jwbf/mediawiki/actions/util/MWAction.java:47-66 | on a fresh action the first read is true and the second false; after `setHasMoreMessages(b)` the next read is `b` and the one after it false |
| ActionsUtil.MWAction.Create | src/main/java/net/sourceforge/jwbf/mediawiki/actions/util/MWAction.java:84-87 | construction succeeds exactly when the version is supported by the class's resolved versions; otherwise it fails with a VersionException carrying that version; a constructed action is fresh, has its versions cached and its latch armed |
| ActionsUtil.MWAction.ProcessReturningText | src/main/java/net/sourceforge/jwbf/mediawiki/actions/util/MWAction.java:101-103 | the response text comes back unchanged, whatever the request |
| ActionsUtil.MWAction.ProcessAllReturningText | src/main/java/net/sourceforge/jwbf/mediawiki/actions/util/MWAction.java:113-115 | the text comes back unchanged |
| ActionsUtil.MWAction.GetVersionArray | src/main/java/net/sourceforge/jwbf/mediawiki/actions/util/MWAction.java:121-128 | returns the cache, whose contents are the resolved versions of the action's class; a filled cache is returned as the same array and not replaced, an empty one is filled with a new array |
| ActionsUtil.MWAction.GetSupportedVersions | src/main/java/net/sourceforge/jwbf/mediawiki/actions/util/MWAction.java:170-179 | the list has the cached array's elements in the same order, which are the resolved versions; an already filled cache is kept |
| ActionsUtil.MWAction.CheckVersionNewerEquals | src/main/java/net/sourceforge/jwbf/mediawiki/actions/util/MWAction.java:155-165 | passes exactly when the version is a supported one or at least as new as some supported one; otherwise fails with VersionException(version); the cache is filled |
| ActionsUtil.MWAction.CreateNsString | src/main/java/net/sourceforge/jwbf/mediawiki/actions/util/MWAction.java:188-203 | the result is the joined decimal renderings, "" for a null or empty argument; for n numbers it has n - 1 separators and does not end in a bar; it reads back to the numbers |
| ActionsUtil.MWAction.AppendAndTrim | src/main/java/net/sourceforge/jwbf/mediawiki/actions/util/MWAction.java:192-200 | appending each rendering and a bar, then dropping the final bar, gives the renderings joined with bars |
| ActionsUtil.MWAction.FindSupportedVersions | src/main/java/net/sourceforge/jwbf/mediawiki/actions/util/MWAction.java:130-153 | the resolved versions are either [UNKNOWN] or the @SupportedBy array of some class in the table; ResolvesToNearestDeclaration says which |
| ActionsUtil.Resolution | src/main/java/net/sourceforge/jwbf/mediawiki/actions/util/MWAction.java:130-153 | the definition of findSupportedVersions, case by case: a root resolves to [UNKNOWN] even when annotated; an annotated non-root class resolves to its annotation; any other class resolves as its superclass does |
| ActionsUtil.NearestDeclaration | src/main/java/net/sourceforge/jwbf/mediawiki/actions/util/MWAction.java:130-153 | in a superclass chain ending at a root, picks the first class that is a root or annotated, with no such class before it |
| ActionsUtil.ResolvesToNearestDeclaration | src/main/java/net/sourceforge/jwbf/mediawiki/actions/util/MWAction.java:130-153 | a class resolves to the declaration of the nearest class, walking up from it, that is a root ([UNKNOWN]) or annotated (its array) |
| ActionsUtil.UnannotatedResolvesToUnknown | src/main/java/net/sourceforge/jwbf/mediawiki/actions/util/MWAction.java:130-153 | a class whose whole superclass chain carries no annotation resolves to [UNKNOWN] |
| ActionsUtil.IsSupported | src/main/java/net/sourceforge/jwbf/mediawiki/actions/util/MWAction.java:155-165 | the acceptance rule of checkVersionNewerEquals (member, or at least as new as some member); an empty list accepts nothing and a list holding UNKNOWN accepts everything |
| ActionsUtil.UnannotatedAcceptsEverything | src/main/java/net/sourceforge/jwbf/mediawiki/actions/util/MWAction.java:155-165 | such a class accepts every version: UNKNOWN by membership, every other version by being at least as new as UNKNOWN |
| ActionsUtil.SupportedIffNewerEqualsSome | src/main/java/net/sourceforge/jwbf/mediawiki/actions/util/MWAction.java:155-165 | the membership test is subsumed: a version is supported exactly when it is at least as new as some supported version |
| ActionsUtil.Oldest | src/main/java/net/sourceforge/jwbf/mediawiki/actions/util/MWAction.java:159-163 | the oldest of a non-empty list of versions is in the list and every element is at least as new as it |
| ActionsUtil.SupportedIffAtLeastOldest | src/main/java/net/sourceforge/jwbf/mediawiki/actions/util/MWAction.java:155-165 | a version is supported exactly when the list is non-empty and the version is at least as new as its oldest element |
| ActionsUtil.RejectedIffOlderThanAll | src/main/java/net/sourceforge/jwbf/mediawiki/actions/util/MWAction.java:155-165 | a version is rejected exactly when every supported version is strictly newer than it |
| ActionsUtil.SupportedIsUpwardClosed | src/main/java/net/sourceforge/jwbf/mediawiki/actions/util/MWAction.java:159-163 | any version at least as new as a supported one is supported |
| Reflection.Lineage | src/main/java/net/sourceforge/jwbf/mediawiki/actions/util/MWAction.java:130-153 | the chain of getSuperclass() steps from a class to the first root: it starts at the class, ends at a root, passes no root before, and each step is a superclass link |
| MediaWiki.GreaterEqThenIsTieredOrder | src/test/java/net/sourceforge/jwbf/mediawiki/MediaWikiTest.java:154-170 | greaterEqThen is the order that compares UNKNOWN < releases < DEVELOPMENT first and release ranks second |
| MediaWiki.Sentinels | src/test/java/net/sourceforge/jwbf/mediawiki/MediaWikiTest.java:154-170 | every version is at least as new as UNKNOWN and at most DEVELOPMENT; only UNKNOWN is at most UNKNOWN and only DEVELOPMENT is at least DEVELOPMENT |
| MediaWiki.ReleasesByRank | src/main/java/net/sourceforge/jwbf/mediawiki/actions/util/MWAction.java:160 | of two releases the one with the higher rank is strictly newer and the other is not at least as new |
| MediaWiki.GreaterEqThenReflexive | src/main/java/net/sourceforge/jwbf/mediawiki/actions/util/MWAction.java:156-160 | every version is at least as new as itself |
| MediaWiki.GreaterEqThenTransitive | src/main/java/net/sourceforge/jwbf/mediawiki/actions/util/MWAction.java:159-163 | at least as new is transitive |
| Decimal.IntToString | src/main/java/net/sourceforge/jwbf/mediawiki/actions/util/MWAction.java:194 | the decimal rendering of an int is never empty; IntToStringShape and IntToStringRoundTrip give its form and its read-back |
| Decimal.NatToStringDigits | src/main/java/net/sourceforge/jwbf/mediawiki/actions/util/MWAction.java:194 | the decimal digits of a natural number are all digits, without a leading zero |
| Decimal.IntToStringShape | src/main/java/net/sourceforge/jwbf/mediawiki/actions/util/MWAction.java:194 | an int renders with a leading '-' exactly when negative, the rest all digits without a leading zero, and never contains a bar |
| Decimal.IntToStringEndsWithDigit | src/main/java/net/sourceforge/jwbf/mediawiki/actions/util/MWAction.java:194 | an int's rendering ends with a digit |
| Decimal.NatToStringRoundTrip | src/main/java/net/sourceforge/jwbf/mediawiki/actions/util/MWAction.java:194 | reading the digits of n back gives n |
| Decimal.IntToStringRoundTrip | src/main/java/net/sourceforge/jwbf/mediawiki/actions/util/MWAction.java:194 | parsing the rendering of an int gives the int back |
| NsFormat.BufferedSplit | src/main/java/net/sourceforge/jwbf/mediawiki/actions/util/MWAction.java:193-195 | the buffer after i numbers, followed by the join of the remaining numbers and a bar, is the full buffer |
| NsFormat.BufferedIsJoinedWithBar | src/main/java/net/sourceforge/jwbf/mediawiki/actions/util/MWAction.java:193-196 | after the loop the buffer is the joined renderings plus one trailing bar |
| NsFormat.TrimmedBuffer | src/main/java/net/sourceforge/jwbf/mediawiki/actions/util/MWAction.java:196-200 | the buffer ends with a bar and without that last character it is the joined renderings |
| NsFormat.JoinFromEndsWithDigit | src/main/java/net/sourceforge/jwbf/mediawiki/actions/util/MWAction.java:196-200 | a join of one or more renderings ends with a digit |
| NsFormat.JoinedEnds | src/main/java/net/sourceforge/jwbf/mediawiki/actions/util/MWAction.java:188-203 | the joined string is empty exactly when there are no numbers and otherwise ends with a digit |
| NsFormat.JoinFromStep | src/main/java/net/sourceforge/jwbf/mediawiki/actions/util/MWAction.java:193-195 | a join of two or more numbers is the first rendering, a bar, and the join of the rest |
| NsFormat.JoinFromSeparators | src/main/java/net/sourceforge/jwbf/mediawiki/actions/util/MWAction.java:193-200 | a join of the numbers from position i onward has one bar fewer than it has numbers |
| NsFormat.JoinedSeparators | src/main/java/net/sourceforge/jwbf/mediawiki/actions/util/MWAction.java:193-200 | n numbers join with exactly n - 1 separators |
| NsFormat.JoinFromRoundTrip | src/main/java/net/sourceforge/jwbf/mediawiki/actions/util/MWAction.java:193-200 | splitting a join at a bar and parsing each field gives back the numbers from position i onward |
| NsFormat.JoinedRoundTrip | src/main/java/net/sourceforge/jwbf/mediawiki/actions/util/MWAction.java:188-203 | reading a namespace string back gives exactly the numbers it was made from |
| NsFormat.NsStringProperties | src/main/java/net/sourceforge/jwbf/mediawiki/actions/util/MWAction.java:188-203 | the namespace string is empty exactly for a null or empty argument; otherwise it has n - 1 separators and no trailing bar; it reads back to the numbers |
| NsFormat.StandardNamespaces | src/test/java/net/sourceforge/jwbf/mediawiki/MediaWikiTest.java:204-211 | any sequence holding 0..15 in order joins to the sixteen renderings "0" to "15" separated by bars |
| NsFormat.AllNamespaces | src/test/java/net/sourceforge/jwbf/mediawiki/MediaWikiTest.java:195-211 | the namespace string for the namespaces 0..15 is the sixteen renderings "0" to "15" separated by bars |

The namespace separator is the vertical bar character, called "bar" in the table.

## Left out

- `getRootElement` (MWAction.java:215-231) is not modelled. It parses XML with JDOM/SAX, a foreign library, and wraps that library's exceptions.
- The debug-logging block in `findSupportedVersions` (MWAction.java:137-147) is not modelled because it only writes a log line. With debug logging on, an empty `@SupportedBy({})` array makes `substring(0, -1)` throw `StringIndexOutOfBoundsException`. The model does not capture this.
- Java reflection is replaced by the class table; class names are not modelled. The source decides "is the root" by testing whether the class name contains `java.lang.Object`. That test can match more than one class, so the table gives the roots as a set.
- A class whose superclass chain reaches `null` without passing a root is excluded by `Reflection.WellFormed`. This covers an interface, or a primitive type's class object. In the source such a class yields its `@SupportedBy` array if it is annotated, and otherwise the recursion throws `NullPointerException`. The model represents neither case.
- `checkVersionNewerEquals(null)` is not modelled, because every `Version` in the model is a real value. In the source, `contains(null)` is false; with a non-empty supported list the call then throws `NullPointerException` at `v.greaterEqThen(vx)`, and with an empty list it throws `VersionException("unsupported version: null")`.
- The text of the exception message (`"unsupported version: " + v`) is not modelled. `VersionException` carries only the rejected version.
- The deprecated no-argument constructor (MWAction.java:72-75) is not modelled separately. Its only effect is to run the field initialisers, which `MWAction.Init` models. `isSelfExecuter` (MWAction.java:210-213), which always returns false, is not modelled.
- `Version` is modelled only by its order. Its concrete constants, `isStableVersion`, `getLatest`, `getNumber`, and `MediaWiki`'s URL and HTML codecs are not part of this model.
- An annotation's `value()` returns a fresh copy of its array on each call. The model treats the annotation's array as a value, so copying is not visible.
- `MWAction.ProcessReturningText` and `MWAction.ProcessAllReturningText` model the base class only. Concrete actions override `processAllReturningText`, and `processReturningText` dispatches to the override; virtual dispatch is not modelled.
- The `HttpAction` argument of `processReturningText` is a type parameter that is never inspected.
- The pagination collector exercised by `UnreviewedPagesTitlesIntegTest.java` lies outside `MWAction` and is not modelled; the test only runs it against a mock HTTP server.
- `GetRenderingTest.java` is not part of this model. It tests logging in and fetching from live wikis over HTTP.
- `MediaWiki.GreaterEqThenReflexive`, `MediaWiki.GreaterEqThenTransitive` and `MediaWiki.ReleasesByRank` state facts of the model's order, not of the `Version` enum's source code. That code is not part of this model.
