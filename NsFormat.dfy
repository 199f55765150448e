/** The namespace parameter of a MediaWiki API request: namespace numbers in
    decimal, separated by '|'. Joined is the intended format, Buffered what
    the string buffer holds before its last separator is trimmed, and Fields /
    ParseNsString read such a string back. */
module NsFormat {
  import opened Wrappers
  import opened Decimal

  /** The renderings of `ns[i..]`, joined with '|'. */
  function JoinFrom(ns: seq<Int32>, i: nat): string
    requires i < |ns|
    decreases |ns| - i
  {
    IntToString(ns[i]) + if i + 1 < |ns| then "|" + JoinFrom(ns, i + 1) else ""
  }

  /** The renderings of `ns`, joined with '|'; "" for no numbers. */
  function Joined(ns: seq<Int32>): string {
    if |ns| == 0 then "" else JoinFrom(ns, 0)
  }

  /** The buffer after the first `i` numbers were appended, each followed by '|'. */
  function Buffered(ns: seq<Int32>, i: nat): string
    requires i <= |ns|
  {
    if i == 0 then "" else Buffered(ns, i - 1) + IntToString(ns[i - 1]) + "|"
  }

  /** What createNsString promises: "" for a null or empty argument, else the
      joined renderings. */
  function NsString(namespaces: Option<seq<Int32>>): string {
    match namespaces
    case None => ""
    case Some(ns) => Joined(ns)
  }

  function Count(s: string, c: char): nat
    decreases |s|
  {
    if s == [] then 0 else (if s[0] == c then 1 else 0) + Count(s[1..], c)
  }

  /** `s` cut at every '|'; a string without '|' is a single field. */
  function Fields(s: string): (f: seq<string>)
    ensures 0 < |f|
    decreases |s|
  {
    if s == [] then [""]
    else
      var rest := Fields(s[1..]);
      if s[0] == '|' then [""] + rest else [[s[0]] + rest[0]] + rest[1..]
  }

  function ParseAll(fields: seq<string>): Option<seq<int>>
    decreases |fields|
  {
    if fields == [] then Some([])
    else
      match (ParseInt(fields[0]), ParseAll(fields[1..]))
      case (Some(n), Some(rest)) => Some([n] + rest)
      case _ => None
  }

  /** Reads a namespace string back into its numbers. */
  function ParseNsString(s: string): Option<seq<int>> {
    if s == "" then Some([]) else ParseAll(Fields(s))
  }

  lemma {:induction false} JoinFromEndsWithDigit(ns: seq<Int32>, i: nat)
    requires i < |ns|
    ensures var s := JoinFrom(ns, i); 0 < |s| && IsDigit(s[|s| - 1])
    decreases |ns| - i
  {
    if i + 1 < |ns| {
      JoinFromEndsWithDigit(ns, i + 1);
      var s, t := JoinFrom(ns, i), JoinFrom(ns, i + 1);
      assert s[|s| - 1] == t[|t| - 1];
    } else {
      IntToStringEndsWithDigit(ns[i]);
    }
  }

  /** A joined string is empty exactly when there are no numbers, and otherwise
      ends with a digit, never with the separator. */
  lemma JoinedEnds(ns: seq<Int32>)
    ensures Joined(ns) == "" <==> ns == []
    ensures ns != [] ==> IsDigit(Joined(ns)[|Joined(ns)| - 1])
  {
    if ns != [] {
      JoinFromEndsWithDigit(ns, 0);
    }
  }

  /** Buffering the numbers before `i` and then joining from `i` gives the full
      buffer without its final '|'. */
  lemma {:induction false} BufferedSplit(ns: seq<Int32>, i: nat)
    requires i < |ns|
    ensures Buffered(ns, i) + JoinFrom(ns, i) + "|" == Buffered(ns, |ns|)
    decreases |ns| - i
  {
    var b, r := Buffered(ns, i), IntToString(ns[i]);
    if i + 1 < |ns| {
      var j := JoinFrom(ns, i + 1);
      BufferedSplit(ns, i + 1);
      assert Buffered(ns, i + 1) == b + r + "|";
      assert JoinFrom(ns, i) == r + ("|" + j);
      SeqAssoc(b, r, j);
    } else {
      assert JoinFrom(ns, i) == r + "";
      assert r + "" == r;
    }
  }

  lemma SeqAssoc(b: string, r: string, j: string)
    ensures b + (r + ("|" + j)) + "|" == b + r + "|" + j + "|"
  {}

  /** One step of the join: a number, a separator, then the rest. */
  lemma JoinFromStep(ns: seq<Int32>, i: nat)
    requires i + 1 < |ns|
    ensures JoinFrom(ns, i) == IntToString(ns[i]) + "|" + JoinFrom(ns, i + 1)
  {
    assert JoinFrom(ns, i) == IntToString(ns[i]) + ("|" + JoinFrom(ns, i + 1));
  }

  /** The buffer holds the joined string followed by one '|'. */
  lemma BufferedIsJoinedWithBar(ns: seq<Int32>)
    requires ns != []
    ensures Buffered(ns, |ns|) == Joined(ns) + "|"
  {
    BufferedSplit(ns, 0);
    assert Buffered(ns, 0) + JoinFrom(ns, 0) == JoinFrom(ns, 0);
  }

  /** Removing the buffer's last character, which is '|', leaves the joined string. */
  lemma TrimmedBuffer(ns: seq<Int32>)
    requires ns != []
    ensures var b := Buffered(ns, |ns|);
            0 < |b| && b[|b| - 1] == '|' && b[..|b| - 1] == Joined(ns)
  {
    BufferedIsJoinedWithBar(ns);
    var b := Buffered(ns, |ns|);
    assert b[..|b| - 1] == Joined(ns);
  }

  lemma {:induction false} CountConcat(a: string, b: string, c: char)
    ensures Count(a + b, c) == Count(a, c) + Count(b, c)
    decreases |a|
  {
    if a == [] {
      assert a + b == b;
    } else {
      assert (a + b)[1..] == a[1..] + b;
      CountConcat(a[1..], b, c);
    }
  }

  lemma {:induction false} CountAbsent(s: string, c: char)
    requires forall i :: 0 <= i < |s| ==> s[i] != c
    ensures Count(s, c) == 0
    decreases |s|
  {
    if s != [] {
      CountAbsent(s[1..], c);
    }
  }

  lemma {:induction false} JoinFromSeparators(ns: seq<Int32>, i: nat)
    requires i < |ns|
    ensures Count(JoinFrom(ns, i), '|') == |ns| - i - 1
    decreases |ns| - i
  {
    var r := IntToString(ns[i]);
    IntToStringShape(ns[i]);
    CountAbsent(r, '|');
    if i + 1 < |ns| {
      CountConcat(r, "|" + JoinFrom(ns, i + 1), '|');
      CountConcat("|", JoinFrom(ns, i + 1), '|');
      JoinFromSeparators(ns, i + 1);
    } else {
      assert JoinFrom(ns, i) == r + "";
      CountConcat(r, "", '|');
    }
  }

  /** A joined string of n numbers has exactly n - 1 separators. */
  lemma JoinedSeparators(ns: seq<Int32>)
    requires ns != []
    ensures Count(Joined(ns), '|') == |ns| - 1
  {
    JoinFromSeparators(ns, 0);
  }

  lemma {:induction false} FieldsWithoutBar(a: string)
    requires forall i :: 0 <= i < |a| ==> a[i] != '|'
    ensures Fields(a) == [a]
    decreases |a|
  {
    if a != [] {
      FieldsWithoutBar(a[1..]);
      assert [a[0]] + a[1..] == a;
    }
  }

  lemma {:induction false} FieldsSplitAtBar(a: string, b: string)
    requires forall i :: 0 <= i < |a| ==> a[i] != '|'
    ensures Fields(a + "|" + b) == [a] + Fields(b)
    decreases |a|
  {
    var s := a + "|" + b;
    if a == [] {
      assert s[1..] == b;
    } else {
      assert s[0] == a[0] && s[1..] == a[1..] + "|" + b;
      FieldsSplitAtBar(a[1..], b);
      assert [a[0]] + a[1..] == a;
    }
  }

  lemma ParseAllCons(h: string, fs: seq<string>, n: int, rest: seq<int>)
    requires ParseInt(h) == Some(n) && ParseAll(fs) == Some(rest)
    ensures ParseAll([h] + fs) == Some([n] + rest)
  {
    assert ([h] + fs)[0] == h && ([h] + fs)[1..] == fs;
  }

  /** One rendered number, read back as a single field. */
  lemma SingleFieldRoundTrip(n: Int32)
    ensures ParseAll(Fields(IntToString(n))) == Some([n as int])
  {
    var head := IntToString(n);
    IntToStringShape(n);
    IntToStringRoundTrip(n);
    FieldsWithoutBar(head);
    ParseAllCons(head, [], n, []);
    assert [head] + [] == [head] && [n as int] + [] == [n as int];
  }

  /** A rendered number in front of a separator becomes the first field. */
  lemma FirstFieldRoundTrip(n: Int32, tail: string, rest: seq<int>)
    requires ParseAll(Fields(tail)) == Some(rest)
    ensures ParseAll(Fields(IntToString(n) + ("|" + tail))) == Some([n as int] + rest)
  {
    var head := IntToString(n);
    IntToStringShape(n);
    IntToStringRoundTrip(n);
    assert head + ("|" + tail) == head + "|" + tail;
    FieldsSplitAtBar(head, tail);
    ParseAllCons(head, Fields(tail), n, rest);
  }

  lemma {:induction false} JoinFromRoundTrip(ns: seq<Int32>, i: nat)
    requires i < |ns|
    ensures ParseAll(Fields(JoinFrom(ns, i))) == Some(ns[i..])
    decreases |ns| - i
  {
    if i + 1 < |ns| {
      JoinFromRoundTrip(ns, i + 1);
      FirstFieldRoundTrip(ns[i], JoinFrom(ns, i + 1), ns[i + 1..]);
      assert [ns[i] as int] + ns[i + 1..] == ns[i..];
    } else {
      assert JoinFrom(ns, i) == IntToString(ns[i]) + "" == IntToString(ns[i]);
      SingleFieldRoundTrip(ns[i]);
      assert [ns[i] as int] == ns[i..];
    }
  }

  /** Reading a joined string back gives the numbers it was made from. */
  lemma JoinedRoundTrip(ns: seq<Int32>)
    ensures ParseNsString(Joined(ns)) == Some(ns)
  {
    if ns != [] {
      JoinFromRoundTrip(ns, 0);
      JoinedEnds(ns);
      assert ns[0..] == ns;
    }
  }

  /** What the namespace string says: empty exactly for a null or empty
      argument; otherwise one separator fewer than numbers and no trailing
      separator; and it reads back to the numbers it was made from. */
  lemma NsStringProperties(namespaces: Option<seq<Int32>>)
    ensures NsString(namespaces) == "" <==> namespaces.None? || namespaces.value == []
    ensures namespaces.Some? && namespaces.value != [] ==>
              var r := NsString(namespaces);
              Count(r, '|') == |namespaces.value| - 1 && r[|r| - 1] != '|'
    ensures ParseNsString(NsString(namespaces)) == Some(if namespaces.Some? then namespaces.value else [])
  {
    if namespaces.Some? {
      var ns := namespaces.value;
      JoinedEnds(ns);
      JoinedRoundTrip(ns);
      if ns != [] {
        JoinedSeparators(ns);
      }
    }
  }

  // The sixteen standard namespaces 0..15 (MediaWiki.NS_EVERY).

  /** The last eight of sixteen numbers, joined, written out. */
  lemma JoinLastEight(ns: seq<Int32>)
    requires |ns| == 16
    ensures JoinFrom(ns, 8)
         == IntToString(ns[8]) + "|" + (IntToString(ns[9]) + "|" + (IntToString(ns[10]) + "|" + (IntToString(ns[11]) + "|" +
           (IntToString(ns[12]) + "|" + (IntToString(ns[13]) + "|" + (IntToString(ns[14]) + "|" + IntToString(ns[15])))))))
  {
    assert JoinFrom(ns, 15) == IntToString(ns[15]);
    JoinFromStep(ns, 14);
    JoinFromStep(ns, 13);
    JoinFromStep(ns, 12);
    JoinFromStep(ns, 11);
    JoinFromStep(ns, 10);
    JoinFromStep(ns, 9);
    JoinFromStep(ns, 8);
  }

  /** The first eight of sixteen numbers, joined in front of the rest. */
  lemma JoinFirstEight(ns: seq<Int32>)
    requires |ns| == 16
    ensures JoinFrom(ns, 0)
         == IntToString(ns[0]) + "|" + (IntToString(ns[1]) + "|" + (IntToString(ns[2]) + "|" + (IntToString(ns[3]) + "|" +
           (IntToString(ns[4]) + "|" + (IntToString(ns[5]) + "|" + (IntToString(ns[6]) + "|" + (IntToString(ns[7]) + "|" +
            JoinFrom(ns, 8))))))))
  {
    JoinFromStep(ns, 7);
    JoinFromStep(ns, 6);
    JoinFromStep(ns, 5);
    JoinFromStep(ns, 4);
    JoinFromStep(ns, 3);
    JoinFromStep(ns, 2);
    JoinFromStep(ns, 1);
    JoinFromStep(ns, 0);
  }

  lemma SmallRenderings()
    ensures IntToString(0) == "0" && IntToString(1) == "1" && IntToString(2) == "2" && IntToString(3) == "3"
    ensures IntToString(4) == "4" && IntToString(5) == "5" && IntToString(6) == "6" && IntToString(7) == "7"
    ensures IntToString(8) == "8" && IntToString(9) == "9" && IntToString(10) == "10" && IntToString(11) == "11"
    ensures IntToString(12) == "12" && IntToString(13) == "13" && IntToString(14) == "14" && IntToString(15) == "15"
  {}

  // Literal concatenations, four numbers at a time. Each stands alone with a
  // free tail: inside one lemma the solver gets lost in the literals.

  lemma Chunk0(x: string)
    ensures "0" + "|" + ("1" + "|" + ("2" + "|" + ("3" + "|" + x))) == "0|1|2|3|" + x
  {}

  lemma Chunk4(x: string)
    ensures "4" + "|" + ("5" + "|" + ("6" + "|" + ("7" + "|" + x))) == "4|5|6|7|" + x
  {}

  lemma Chunk8(x: string)
    ensures "8" + "|" + ("9" + "|" + ("10" + "|" + ("11" + "|" + x))) == "8|9|10|11|" + x
  {}

  lemma LastChunk()
    ensures "12" + "|" + ("13" + "|" + ("14" + "|" + "15")) == "12|13|14|15"
  {}

  lemma Chunks()
    ensures "0|1|2|3|" + ("4|5|6|7|" + ("8|9|10|11|" + "12|13|14|15")) == "0|1|2|3|4|5|6|7|8|9|10|11|12|13|14|15"
  {}

  /** The sixteen renderings joined literally. */
  lemma LiteralJoin()
    ensures "0" + "|" + ("1" + "|" + ("2" + "|" + ("3" + "|" + ("4" + "|" + ("5" + "|" + ("6" + "|" + ("7" + "|" +
           ("8" + "|" + ("9" + "|" + ("10" + "|" + ("11" + "|" + ("12" + "|" + ("13" + "|" + ("14" + "|" + "15"))))))))))))))
         == "0|1|2|3|4|5|6|7|8|9|10|11|12|13|14|15"
  {
    var t := "12" + "|" + ("13" + "|" + ("14" + "|" + "15"));
    LastChunk();
    Chunk8(t);
    Chunk4("8" + "|" + ("9" + "|" + ("10" + "|" + ("11" + "|" + t))));
    Chunk0("4" + "|" + ("5" + "|" + ("6" + "|" + ("7" + "|" + ("8" + "|" + ("9" + "|" + ("10" + "|" + ("11" + "|" + t))))))));
    Chunks();
  }

  /** Any sequence holding 0..15 in order joins to "0|1|...|15". */
  lemma StandardNamespaces(ns: seq<Int32>)
    requires |ns| == 16 && forall i :: 0 <= i < 16 ==> ns[i] == i
    ensures Joined(ns) == "0|1|2|3|4|5|6|7|8|9|10|11|12|13|14|15"
  {
    JoinFirstEight(ns);
    JoinLastEight(ns);
    SmallRenderings();
    LiteralJoin();
    assert ns[0] == 0 && ns[1] == 1 && ns[2] == 2 && ns[3] == 3;
    assert ns[4] == 4 && ns[5] == 5 && ns[6] == 6 && ns[7] == 7;
    assert ns[8] == 8 && ns[9] == 9 && ns[10] == 10 && ns[11] == 11;
    assert ns[12] == 12 && ns[13] == 13 && ns[14] == 14 && ns[15] == 15;
  }

  /** The namespace string for all sixteen standard namespaces. */
  lemma AllNamespaces()
    ensures NsString(Some([0, 1, 2, 3, 4, 5, 6, 7, 8, 9, 10, 11, 12, 13, 14, 15]))
         == "0|1|2|3|4|5|6|7|8|9|10|11|12|13|14|15"
  {
    StandardNamespaces([0, 1, 2, 3, 4, 5, 6, 7, 8, 9, 10, 11, 12, 13, 14, 15]);
  }
}
