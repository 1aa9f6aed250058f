/** Worked inputs for the line-wise automaton semantics, including the one the
    source's own test uses, and an input on which it and the greedy replacer
    disagree. */
module Examples {
  import opened Common
  import opened Replace
  import opened Lines

  lemma SuffixChars(u: string, x: string)
    requires IsSuffix(u, x)
    ensures forall k :: 0 <= k < |u| ==> u[k] == x[|x| - |u| + k]
  {
  }

  /** The keys of the dictionary of the source's test. */
  lemma TestKeys()
    ensures forall u :: u in TestDict <==> u == "aa" || u == ":)" || u == "\U{1F63A}"
  {
  }

  /** No key of that dictionary is longer than two characters. */
  lemma TestKeyLengths()
    ensures forall u :: u in TestDict ==> |u| <= 2
  {
    TestKeys();
  }

  /** A key of that dictionary that is a suffix of `x` ends with `x`'s last
      character, and the two-character keys with its last two. */
  lemma TestSuffixes(x: string)
    ensures forall u :: u in TestDict && IsSuffix(u, x) ==>
      |x| >= |u| >= 1 && x[|x| - 1] == u[|u| - 1] && (|u| == 2 ==> x[|x| - 2] == u[0])
  {
    TestKeys();
    forall u | u in TestDict && IsSuffix(u, x)
      ensures |x| >= |u| >= 1 && x[|x| - 1] == u[|u| - 1] && (|u| == 2 ==> x[|x| - 2] == u[0])
    {
      SuffixChars(u, x);
    }
  }

  /** Steps of `RewriteFrom` under the dictionary of the source's test. */
  lemma TestSkip(t: string, e: nat)
    requires 1 <= e <= |t|
    requires t[e - 1] != ')' && t[e - 1] != '\U{1F63A}' && (t[e - 1] == 'a' ==> e == 1 || t[e - 2] != 'a')
    ensures RewriteFrom(TestDict, t, e) == RewriteFrom(TestDict, t, e + 1)
  {
    TestSuffixes(t[..e]);
    TestKeys();
    RewriteFromSkip(TestDict, t, e);
  }

  /** A two-character key of that dictionary that ends at `e` is replaced. */
  lemma TestMatch(t: string, e: nat, m: string)
    requires m == ":)" || m == "aa"
    requires 2 <= e <= |t| && t[e - 2] == m[0] && t[e - 1] == m[1]
    ensures RewriteFrom(TestDict, t, e) == t[..e - 2] + TestDict[m] + RewriteFrom(TestDict, t[e..], 1)
  {
    TestKeyLengths();
    assert t[..e][e - 2..] == m;
    RewriteFromMatch(TestDict, t, e, m);
  }

  lemma TestCatLine(t: string)
    requires t == "\U{1F63A}"
    ensures RewriteLine(TestDict, t) == "a cat"
  {
    TestSuffixes(t);
    TestKeys();
    assert t[..1] == t && t[..0] == [] && t[1..] == [];
    RewriteFromMatch(TestDict, t, 1, "\U{1F63A}");
  }

  predicate TestFirstLine(l: string) {
    |l| == 11 && l[0] == 'W' && l[1] == 'h' && l[2] == 'a' && l[3] == 'a' && l[4] == 'a' && l[5] == 't'
    && l[6] == '?' && l[7] == ' ' && l[8] == ':' && l[9] == ')' && l[10] == '\n'
  }

  lemma TestNewline(t: string)
    requires t == "\n"
    ensures RewriteFrom(TestDict, t, 1) == "\n"
  {
    TestSkip(t, 1);
  }

  lemma TestFirstLineTail(t: string)
    requires |t| == 7 && t[0] == 'a' && t[1] == 't' && t[2] == '?' && t[3] == ' ' && t[4] == ':' && t[5] == ')' && t[6] == '\n'
    ensures RewriteFrom(TestDict, t, 1) == "at? \U{1F60A}\n"
  {
    TestSkip(t, 1);
    TestSkip(t, 2);
    TestSkip(t, 3);
    TestSkip(t, 4);
    TestSkip(t, 5);
    TestMatch(t, 6, ":)");
    assert t[6..] == "\n" && t[..4] == "at? ";
    TestNewline(t[6..]);
  }

  lemma TestFirstLineRewrite(l: string)
    requires TestFirstLine(l)
    ensures RewriteLine(TestDict, l) == "Whaaaat? \U{1F60A}\n"
  {
    TestSkip(l, 1);
    TestSkip(l, 2);
    TestSkip(l, 3);
    TestMatch(l, 4, "aa");
    assert l[..2] == "Wh";
    TestFirstLineTail(l[4..]);
  }

  /** The input of the source's test: the first line gets its "aa" and ":)"
      replaced (the "a" left after the first "aa" is not read again as part
      of a second one), the second line its cat. */
  lemma TestTransformer(s: string)
    requires s == "Whaaat? :)\n\U{1F63A}"
    ensures RewriteText(MapFromPairs(TestPairs), s) == "Whaaaat? \U{1F60A}\na cat"
  {
    TestPairsMap();
    var f := line => RewriteLine(TestDict, line);
    LineLengthIs(s, 11);
    assert TestFirstLine(s[..11]);
    TestFirstLineRewrite(s[..11]);
    var rest := s[11..];
    assert rest == "\U{1F63A}";
    LineLengthIs(rest, 1);
    assert rest[..1] == rest && rest[1..] == [];
    TestCatLine(rest);
    assert EachLine(f, rest) == "a cat";
  }
}

/** Small dictionaries that show the automaton's matching policy: a key is
    replaced as soon as it ends, the longest key ending there wins, matching
    never crosses a line break, and the greedy replacer can disagree. */
module PolicyExamples {
  import opened Common
  import opened Replace
  import opened Lines

  /** All keys are longer than what has been read: read one more. */
  lemma SkipShort(dict: map<string, string>, s: string, e: nat)
    requires 1 <= e <= |s| && forall u :: u in dict ==> |u| > e
    ensures RewriteFrom(dict, s, e) == RewriteFrom(dict, s, e + 1)
  {
    RewriteFromSkip(dict, s, e);
  }

  /** A one-character rest under keys of at least two characters is copied. */
  lemma OneLeft(dict: map<string, string>, s: string)
    requires |s| == 1 && forall u :: u in dict ==> |u| > 1
    ensures RewriteFrom(dict, s, 1) == s
  {
    SkipShort(dict, s, 1);
  }

  const EarlyDict: map<string, string> := map["abcd" := "X", "bc" := "Y"]

  lemma EarlyKeys()
    ensures forall u :: u in EarlyDict <==> u == "abcd" || u == "bc"
  {
  }

  lemma EarlyFirst(s: string)
    requires |s| == 4 && s[0] == 'a' && s[1] == 'b' && s[2] == 'c' && s[3] == 'd'
    ensures RewriteFrom(EarlyDict, s, 1) == RewriteFrom(EarlyDict, s, 3)
  {
    EarlyKeys();
    SkipShort(EarlyDict, s, 1);
    assert s[..2] != "bc" by { assert s[..2][0] == 'a'; }
    assert !IsSuffix("abcd", s[..2]) && !IsSuffix("bc", s[..2]);
    RewriteFromSkip(EarlyDict, s, 2);
  }

  lemma EarlyMatch(d: map<string, string>, s: string)
    requires forall u :: u in d <==> u == "abcd" || u == "bc"
    requires |s| == 4 && s[0] == 'a' && s[1] == 'b' && s[2] == 'c' && s[3] == 'd'
    ensures RewriteFrom(d, s, 3) == s[..1] + d["bc"] + RewriteFrom(d, s[3..], 1)
  {
    assert s[..3][1..] == "bc";
    RewriteFromMatch(d, s, 3, "bc");
  }

  /** A match is taken as soon as it ends: under {"abcd", "bc"} the input
      "abcd" has "bc" replaced, and the longer "abcd" is never reached. */
  lemma EarliestEnd(s: string)
    requires s == "abcd"
    ensures RewriteLine(EarlyDict, s) == "aYd"
  {
    EarlyFirst(s);
    EarlyKeys();
    EarlyMatch(EarlyDict, s);
    assert s[..1] == "a";
    EarlyKeys();
    OneLeft(EarlyDict, s[3..]);
    assert s[3..] == "d";
  }

  const LongDict: map<string, string> := map["abc" := "X", "bc" := "Y"]

  lemma LongKeys()
    ensures forall u :: u in LongDict <==> u == "abc" || u == "bc"
  {
  }

  lemma LongFirst(s: string)
    requires |s| == 3 && s[0] == 'a' && s[1] == 'b' && s[2] == 'c'
    ensures RewriteFrom(LongDict, s, 1) == RewriteFrom(LongDict, s, 3)
  {
    LongKeys();
    SkipShort(LongDict, s, 1);
    assert s[..2] != "bc" by { assert s[..2][0] == 'a'; }
    assert !IsSuffix("abc", s[..2]) && !IsSuffix("bc", s[..2]);
    RewriteFromSkip(LongDict, s, 2);
  }

  /** Among the keys ending at the same place the longest wins: under
      {"abc", "bc"} the input "abc" becomes the value of "abc". */
  lemma LongestAtEnd(s: string)
    requires s == "abc"
    ensures RewriteLine(LongDict, s) == "X"
  {
    LongFirst(s);
    LongKeys();
    assert s[..3] == s;
    RewriteFromMatch(LongDict, s, 3, "abc");
    assert s[3..] == [] && s[..0] == [];
  }

  const LineDict: map<string, string> := map["a\nb" := "Z"]

  lemma LineKeys()
    ensures forall u :: u in LineDict <==> u == "a\nb"
  {
  }

  /** Each line of "a\nb" is shorter than the key: both are copied. */
  lemma LinesCopied(s: string)
    requires |s| == 3 && s[0] == 'a' && s[1] == '\n' && s[2] == 'b'
    ensures RewriteText(LineDict, s) == s
  {
    LineKeys();
    var f := line => RewriteLine(LineDict, line);
    LineLengthIs(s, 2);
    var l1, l2 := s[..2], s[2..];
    assert NoKeyIn(LineDict.Keys, l1) && NoKeyIn(LineDict.Keys, l2);
    RewriteLineNoMatch(LineDict, l1);
    LineLengthIs(l2, 1);
    assert l2[..1] == l2 && l2[1..] == [];
    RewriteLineNoMatch(LineDict, l2);
    assert EachLine(f, l2) == l2;
    assert l1 + l2 == s;
  }

  /** Read as one line, "a\nb" would have its key replaced. */
  lemma OneLineReplaced(s: string)
    requires s == "a\nb"
    ensures RewriteLine(LineDict, s) == "Z"
  {
    LineKeys();
    SkipShort(LineDict, s, 1);
    SkipShort(LineDict, s, 2);
    assert s[..3] == s && s[3..] == [] && s[..0] == [];
    assert IsSuffix(s, s[..3]);
    RewriteFromMatch(LineDict, s, 3, s);
  }

  /** No match spans a line break: the key "a\nb" is not replaced in the text
      "a\nb", which as a single line would be. */
  lemma NoMatchAcrossLines(s: string)
    requires s == "a\nb"
    ensures RewriteText(LineDict, s) == s
    ensures RewriteLine(LineDict, s) == "Z"
  {
    LinesCopied(s);
    OneLineReplaced(s);
  }

  /** A key that ends with the line break is found: "a\n" is one whole line. */
  lemma NewlineAtKeyEnd(s: string)
    requires s == "a\n"
    ensures RewriteText(map["a\n" := "Z"], s) == "Z"
  {
    var dict := map["a\n" := "Z"];
    LineLengthIs(s, 2);
    assert s[..2] == s && s[2..] == [];
    assert OnlyOccurrence(dict.Keys, s, 0, 2) by {
      assert s[0..2] == s;
    }
    RewriteLineSingle(dict, s, 0, 2);
    assert s[..0] == [];
  }

  const PolicyDict: map<string, string> := map["abc" := "X", "b" := "Y"]

  lemma PolicyKeys()
    ensures forall u :: u in PolicyDict <==> u == "abc" || u == "b"
  {
  }

  lemma PolicyAutomaton(s: string)
    requires |s| == 3 && s[0] == 'a' && s[1] == 'b' && s[2] == 'c'
    ensures RewriteLine(PolicyDict, s) == "aYc"
  {
    PolicyKeys();
    assert !IsSuffix("b", s[..1]) by { assert s[..1][0] == 'a'; }
    RewriteFromSkip(PolicyDict, s, 1);
    assert s[..2][1..] == "b";
    RewriteFromMatch(PolicyDict, s, 2, "b");
    assert s[..1] == "a";
    PolicyTail(s[2..]);
  }

  lemma PolicyTail(t: string)
    requires |t| == 1 && t[0] == 'c'
    ensures RewriteFrom(PolicyDict, t, 1) == "c"
  {
    PolicyKeys();
    assert t[..1] == t && t == "c";
    RewriteFromSkip(PolicyDict, t, 1);
  }

  lemma PolicyGreedy(order: seq<string>, s: string)
    requires |s| == 3 && s[0] == 'a' && s[1] == 'b' && s[2] == 'c'
    requires forall k :: k in order <==> k in PolicyDict
    requires KeysOk(order, PolicyDict)
    ensures Replaced(order, PolicyDict, s) == "X"
  {
    PolicyKeys();
    ReplacedStep(order, PolicyDict, s, 0);
    assert s[0..] == s;
    assert !IsPrefix("b", s) by { assert s[..1][0] == 'a'; }
    assert s[..3] == s;
    assert "abc" in order && IsPrefix("abc", s);
    var f := FindPrefix(order, s);
    assert f == Some("abc");
    assert s[3..] == [];
  }

  /** The two replacers differ: under {"abc", "b"} the automaton replaces the
      "b" it reaches first, while the greedy scan, in whatever order it tries
      the keys, replaces "abc" at the start. */
  lemma PoliciesDiffer(order: seq<string>, s: string)
    requires s == "abc"
    requires forall k :: k in order <==> k in PolicyDict
    requires KeysOk(order, PolicyDict)
    ensures RewriteLine(PolicyDict, s) == "aYc"
    ensures Replaced(order, PolicyDict, s) == "X"
  {
    PolicyAutomaton(s);
    PolicyGreedy(order, s);
  }
}
