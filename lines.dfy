/** What the automaton-driven transformer (src/transform.rs) writes, stated
    without the automaton: text is cut into lines as `read_line` cuts it; in
    each line the characters are read one at a time since the last reset, and
    whenever some key is a suffix of them the longest such key is replaced, the
    verbatim gap before it is copied and reading resumes after it. */
module Lines {
  import opened Common

  /** The length of the first line of `s`: up to and including the first
      '\n', or all of `s` (`BufRead::read_line`). */
  function LineLength(s: string): (n: nat)
    requires s != []
    ensures 0 < n <= |s|
    decreases |s|
  {
    if s[0] == '\n' || |s| == 1 then 1 else 1 + LineLength(s[1..])
  }

  /** The first line ends at the first '\n', or at the end of `s`. */
  lemma {:induction false} LineLengthSpec(s: string)
    requires s != []
    ensures var n := LineLength(s);
      && (forall j :: 0 <= j < n - 1 ==> s[j] != '\n')
      && (n == |s| || s[n - 1] == '\n')
    decreases |s|
  {
    if s[0] != '\n' && |s| > 1 {
      LineLengthSpec(s[1..]);
      var n := LineLength(s);
      assert forall j :: 1 <= j < n - 1 ==> s[j] == s[1..][j - 1];
    }
  }

  /** Conversely, a length that ends at the first '\n' or at the end is the
      first line's length. */
  lemma {:induction false} LineLengthIs(s: string, n: nat)
    requires 0 < n <= |s|
    requires forall j :: 0 <= j < n - 1 ==> s[j] != '\n'
    requires n == |s| || s[n - 1] == '\n'
    ensures LineLength(s) == n
    decreases n
  {
    if n > 1 {
      assert s[0] != '\n';
      LineLengthIs(s[1..], n - 1);
    }
  }

  /** No key occurs anywhere in `s`. */
  predicate NoKeyIn(keys: set<string>, s: string) {
    forall i, j :: 0 <= i <= j <= |s| ==> s[i..j] !in keys
  }

  /** The longest key that is a suffix of `s` and no longer than `|s| - start`. */
  function LongestKeySuffixFrom(keys: set<string>, s: string, start: nat): (r: Option<string>)
    requires start <= |s|
    ensures r.Some? ==> r.value in keys && |r.value| <= |s|
    decreases |s| - start
  {
    if s[start..] in keys then Some(s[start..])
    else if start == |s| then None
    else LongestKeySuffixFrom(keys, s, start + 1)
  }

  lemma {:induction false} LongestKeySuffixFromSpec(keys: set<string>, s: string, start: nat)
    requires start <= |s|
    ensures var r := LongestKeySuffixFrom(keys, s, start);
      && (r.Some? ==> r.value in keys && IsSuffix(r.value, s) && |r.value| <= |s| - start)
      && (r.Some? ==> forall u {:trigger IsSuffix(u, s)} :: u in keys && IsSuffix(u, s) && |u| <= |s| - start ==> |u| <= |r.value|)
      && (r.None? ==> forall u {:trigger IsSuffix(u, s)} :: u in keys && IsSuffix(u, s) ==> |u| > |s| - start)
    decreases |s| - start
  {
    if s[start..] !in keys && start < |s| {
      LongestKeySuffixFromSpec(keys, s, start + 1);
    }
  }

  /** The longest key that is a suffix of `s`, if any key is. */
  function LongestKeySuffix(keys: set<string>, s: string): (r: Option<string>)
    ensures r.Some? ==> r.value in keys && |r.value| <= |s|
  {
    LongestKeySuffixFrom(keys, s, 0)
  }

  /** `LongestKeySuffix` finds a key that is a suffix, at least as long as any
      other key that is one, and finds none exactly when no key is a suffix. */
  lemma LongestKeySuffixSpec(keys: set<string>, s: string)
    ensures var r := LongestKeySuffix(keys, s);
      && (r.Some? ==> r.value in keys && IsSuffix(r.value, s))
      && (r.Some? ==> forall u {:trigger IsSuffix(u, s)} :: u in keys && IsSuffix(u, s) ==> |u| <= |r.value|)
      && (r.None? <==> forall u {:trigger IsSuffix(u, s)} :: u in keys ==> !IsSuffix(u, s))
  {
    LongestKeySuffixFromSpec(keys, s, 0);
  }

  /** A key that is a suffix of `s` and at least as long as every other key
      that is one is the longest key suffix. */
  lemma LongestKeySuffixIs(keys: set<string>, s: string, w: string)
    requires w in keys && IsSuffix(w, s)
    requires forall u {:trigger IsSuffix(u, s)} :: u in keys && IsSuffix(u, s) ==> |u| <= |w|
    ensures LongestKeySuffix(keys, s) == Some(w)
  {
    var r := LongestKeySuffix(keys, s);
    LongestKeySuffixSpec(keys, s);
    assert r.Some?;
    SuffixSameLength(r.value, w, s);
  }

  /** The rest of a line, `s`, of which the first `e - 1` characters have been
      read since the last reset without any key being a suffix of them. */
  function RewriteFrom(dict: map<string, string>, s: string, e: nat): string
    requires 1 <= e
    decreases |s|, |s| + 1 - e
  {
    if e > |s| then s
    else
      match LongestKeySuffix(dict.Keys, s[..e])
      case Some(m) => s[..e - |m|] + dict[m] + RewriteFrom(dict, s[e..], 1)
      case None => RewriteFrom(dict, s, e + 1)
  }

  /** What the transformer writes for one line. */
  function RewriteLine(dict: map<string, string>, line: string): string {
    RewriteFrom(dict, line, 1)
  }

  /** `f` applied to each line of `s`, the results joined. */
  function EachLine(f: string -> string, s: string): string
    decreases |s|
  {
    if s == [] then []
    else
      var n := LineLength(s);
      f(s[..n]) + EachLine(f, s[n..])
  }

  /** What the transformer writes for a whole text, line by line. */
  function RewriteText(dict: map<string, string>, s: string): string {
    EachLine(line => RewriteLine(dict, line), s)
  }

  /** The text's first line is rewritten first, then the rest. */
  lemma RewriteTextStep(dict: map<string, string>, s: string)
    requires s != []
    ensures var n := LineLength(s);
      RewriteText(dict, s) == RewriteLine(dict, s[..n]) + RewriteText(dict, s[n..])
  {
  }

  /** In a line whose characters from `outPos` up to `i` have been read, the
      longest key `m` ending at `i` is replaced: the gap before it is
      copied, `m` becomes its value and reading resumes after it. */
  lemma LineMatchStep(dict: map<string, string>, line: string, outPos: nat, i: nat, m: string)
    requires outPos <= i < |line| && m in dict && IsSuffix(m, line[outPos..i + 1])
    requires forall u {:trigger IsSuffix(u, line[outPos..i + 1])} :: u in dict && IsSuffix(u, line[outPos..i + 1]) ==> |u| <= |m|
    ensures |m| <= i + 1 - outPos && line[i + 1 - |m|..i + 1] == m
    ensures RewriteFrom(dict, line[outPos..], i - outPos + 1)
      == line[outPos..i + 1 - |m|] + dict[line[i + 1 - |m|..i + 1]] + RewriteFrom(dict, line[i + 1..], 1)
  {
    var s, e := line[outPos..], i + 1 - outPos;
    assert s[..e] == line[outPos..i + 1];
    RewriteFromMatch(dict, s, e, m);
    assert s[..e - |m|] == line[outPos..i + 1 - |m|];
    assert s[e..] == line[i + 1..];
  }

  /** No key ends at `i`: read on. */
  lemma LineSkipStep(dict: map<string, string>, line: string, outPos: nat, i: nat)
    requires outPos <= i < |line|
    requires forall u {:trigger IsSuffix(u, line[outPos..i + 1])} :: u in dict ==> !IsSuffix(u, line[outPos..i + 1])
    ensures RewriteFrom(dict, line[outPos..], i - outPos + 1) == RewriteFrom(dict, line[outPos..], i + 1 - outPos + 1)
  {
    var s, e := line[outPos..], i + 1 - outPos;
    assert s[..e] == line[outPos..i + 1];
    RewriteFromSkip(dict, s, e);
  }

  /** Past the end of the line the rest is copied. */
  lemma LineEnd(dict: map<string, string>, line: string, outPos: nat)
    requires outPos <= |line|
    ensures RewriteFrom(dict, line[outPos..], |line| - outPos + 1) == line[outPos..]
  {
  }

  /** No key is a suffix of the characters read so far: read one more. */
  lemma RewriteFromSkip(dict: map<string, string>, s: string, e: nat)
    requires 1 <= e <= |s|
    requires forall u {:trigger IsSuffix(u, s[..e])} :: u in dict ==> !IsSuffix(u, s[..e])
    ensures RewriteFrom(dict, s, e) == RewriteFrom(dict, s, e + 1)
  {
    LongestKeySuffixSpec(dict.Keys, s[..e]);
  }

  /** `m` is the longest key that is a suffix of the characters read so far:
      the gap before it is copied, `m` is replaced and reading restarts after
      it. */
  lemma RewriteFromMatch(dict: map<string, string>, s: string, e: nat, m: string)
    requires 1 <= e <= |s| && m in dict && IsSuffix(m, s[..e])
    requires forall u {:trigger IsSuffix(u, s[..e])} :: u in dict && IsSuffix(u, s[..e]) ==> |u| <= |m|
    ensures RewriteFrom(dict, s, e) == s[..e - |m|] + dict[m] + RewriteFrom(dict, s[e..], 1)
  {
    LongestKeySuffixIs(dict.Keys, s[..e], m);
  }

  lemma {:induction false} RewriteFromNoMatch(dict: map<string, string>, s: string, e: nat)
    requires 1 <= e && NoKeyIn(dict.Keys, s)
    ensures RewriteFrom(dict, s, e) == s
    decreases |s| + 1 - e
  {
    if e <= |s| {
      LongestKeySuffixSpec(dict.Keys, s[..e]);
      RewriteFromNoMatch(dict, s, e + 1);
    }
  }

  /** A line in which no key occurs is copied unchanged. */
  lemma RewriteLineNoMatch(dict: map<string, string>, line: string)
    requires NoKeyIn(dict.Keys, line)
    ensures RewriteLine(dict, line) == line
  {
    RewriteFromNoMatch(dict, line, 1);
  }

  lemma NoKeyInSlice(keys: set<string>, s: string, a: nat, b: nat)
    requires NoKeyIn(keys, s) && a <= b <= |s|
    ensures NoKeyIn(keys, s[a..b])
  {
    forall i, j | 0 <= i <= j <= b - a ensures s[a..b][i..j] !in keys {
      SliceOfSlice(s, a, b, i, j);
    }
  }

  lemma SliceOfSlice(s: string, a: nat, b: nat, i: nat, j: nat)
    requires a <= b <= |s| && i <= j <= b - a
    ensures s[a..b][i..j] == s[a + i..a + j]
  {
    var t := s[a..b];
    assert |t[i..j]| == j - i == |s[a + i..a + j]|;
    forall k | 0 <= k < j - i ensures t[i..j][k] == s[a + i..a + j][k] {
      assert t[i..j][k] == t[i + k] == s[a + i + k];
    }
  }

  /** A text in which no key occurs is copied unchanged. */
  lemma {:induction false} RewriteTextNoMatch(dict: map<string, string>, s: string)
    requires NoKeyIn(dict.Keys, s)
    ensures RewriteText(dict, s) == s
    decreases |s|
  {
    if s != [] {
      var n := LineLength(s);
      assert RewriteText(dict, s) == RewriteLine(dict, s[..n]) + RewriteText(dict, s[n..]);
      NoKeyInSlice(dict.Keys, s, 0, n);
      NoKeyInSlice(dict.Keys, s, n, |s|);
      assert s[n..|s|] == s[n..];
      RewriteLineNoMatch(dict, s[..n]);
      RewriteTextNoMatch(dict, s[n..]);
      assert s[..n] + s[n..] == s;
    }
  }

  /** A key with a line break before its last character is never a suffix
      of what has been read of a line, so it is never replaced: a line holds
      '\n' only as its last character. */
  lemma BreakInsideKey(s: string, u: string, j: nat, e: nat)
    requires s != [] && j + 1 < |u| && u[j] == '\n'
    requires e <= LineLength(s)
    ensures !IsSuffix(u, s[..e])
  {
    LineLengthSpec(s);
    if |u| <= e {
      var k := e - |u| + j;
      assert s[k] != '\n';
      assert s[..e][e - |u|..][j] == s[k];
    }
  }

  /** The only key occurrence in `s` is `s[a..b]`, which is not empty. */
  predicate OnlyOccurrence(keys: set<string>, s: string, a: nat, b: nat) {
    && a < b <= |s| && s[a..b] in keys
    && forall i, j :: 0 <= i <= j <= |s| && (i, j) != (a, b) ==> s[i..j] !in keys
  }

  /** Exactly one key occurrence: the line is copied with only that span
      replaced. */
  lemma RewriteLineSingle(dict: map<string, string>, s: string, a: nat, b: nat)
    requires OnlyOccurrence(dict.Keys, s, a, b)
    ensures RewriteLine(dict, s) == s[..a] + dict[s[a..b]] + s[b..]
  {
    SingleBefore(dict, s, a, b, 1);
  }

  lemma {:induction false} SingleBefore(dict: map<string, string>, s: string, a: nat, b: nat, e: nat)
    requires OnlyOccurrence(dict.Keys, s, a, b) && 1 <= e <= b
    ensures RewriteFrom(dict, s, e) == s[..a] + dict[s[a..b]] + s[b..]
    decreases b - e
  {
    if e < b {
      NoSuffixBefore(dict.Keys, s, a, b, e);
      SingleBefore(dict, s, a, b, e + 1);
    } else {
      SuffixAtEnd(dict.Keys, s, a, b);
      assert s[..b][..b - (b - a)] == s[..a];
      NoKeyInAfter(dict.Keys, s, a, b);
      RewriteFromNoMatch(dict, s[b..], 1);
    }
  }

  lemma NoSuffixBefore(keys: set<string>, s: string, a: nat, b: nat, e: nat)
    requires OnlyOccurrence(keys, s, a, b) && e < b
    ensures LongestKeySuffix(keys, s[..e]).None?
  {
    LongestKeySuffixSpec(keys, s[..e]);
    forall u | u in keys ensures !IsSuffix(u, s[..e]) {
      assert |u| <= e ==> s[..e][e - |u|..] == s[e - |u|..e];
    }
  }

  lemma SuffixAtEnd(keys: set<string>, s: string, a: nat, b: nat)
    requires OnlyOccurrence(keys, s, a, b)
    ensures LongestKeySuffix(keys, s[..b]) == Some(s[a..b])
  {
    assert s[..b][a..] == s[a..b];
    forall u | u in keys && IsSuffix(u, s[..b]) ensures |u| <= |s[a..b]| {
      assert s[..b][b - |u|..] == s[b - |u|..b];
    }
    LongestKeySuffixIs(keys, s[..b], s[a..b]);
  }

  lemma NoKeyInAfter(keys: set<string>, s: string, a: nat, b: nat)
    requires OnlyOccurrence(keys, s, a, b)
    ensures NoKeyIn(keys, s[b..])
  {
    forall i, j | 0 <= i <= j <= |s| - b ensures s[b..][i..j] !in keys {
      assert s[b..][i..j] == s[b + i..b + j];
    }
  }

  /** A line's first line is the line itself when it ends with its only '\n'. */
  lemma LineLengthAppend(a: string, b: string)
    requires a != [] && a[|a| - 1] == '\n'
    ensures LineLength(a + b) <= |a|
    ensures LineLength(a + b) == LineLength(a)
    decreases |a|
  {
    var s := a + b;
    if s[0] == '\n' || |s| == 1 {
    } else if |a| == 1 {
    } else {
      assert s[1..] == a[1..] + b;
      LineLengthAppend(a[1..], b);
    }
  }

  /** Lines are rewritten independently: no match spans a line break, and the
      state is reset at the start of each line. */
  lemma RewriteTextAppend(dict: map<string, string>, a: string, b: string)
    requires a == [] || a[|a| - 1] == '\n'
    ensures RewriteText(dict, a + b) == RewriteText(dict, a) + RewriteText(dict, b)
  {
    EachLineAppend(line => RewriteLine(dict, line), a, b);
  }

  lemma {:induction false} EachLineAppend(f: string -> string, a: string, b: string)
    requires a == [] || a[|a| - 1] == '\n'
    ensures EachLine(f, a + b) == EachLine(f, a) + EachLine(f, b)
    decreases |a|
  {
    if a == [] {
      assert a + b == b;
    } else {
      var n := LineLength(a);
      LineLengthAppend(a, b);
      SplitAppend(a, b, n);
      EachLineAppend(f, a[n..], b);
    }
  }

  lemma SplitAppend(a: string, b: string, n: nat)
    requires n <= |a|
    ensures (a + b)[..n] == a[..n] && (a + b)[n..] == a[n..] + b
  {
  }

  /** Replacement text is never read again, and each match consumes at least
      one character: the output is at most `1 + bound` times as long as the
      input when every value is at most `bound` long (the `1` is for the
      empty key, whose value is written after every character). */
  lemma {:induction false} RewriteFromGrowth(dict: map<string, string>, s: string, e: nat, bound: nat)
    requires 1 <= e && forall k :: k in dict ==> |dict[k]| <= bound
    ensures |RewriteFrom(dict, s, e)| <= (1 + bound) * |s|
    decreases |s|, |s| + 1 - e
  {
    if e <= |s| {
      match LongestKeySuffix(dict.Keys, s[..e])
      case Some(m) =>
        var rest := RewriteFrom(dict, s[e..], 1);
        assert RewriteFrom(dict, s, e) == s[..e - |m|] + dict[m] + rest;
        RewriteFromGrowth(dict, s[e..], 1, bound);
        assert |s[e..]| == |s| - e;
        GrowthStep(e - |m|, |dict[m]|, |s| - e, e, bound);
        assert e + (|s| - e) == |s|;
      case None =>
        RewriteFromGrowth(dict, s, e + 1, bound);
    } else {
      GrowthBase(|s|, bound);
    }
  }

  lemma GrowthStep(gap: nat, value: nat, rest: nat, e: nat, bound: nat)
    requires 1 <= e && gap <= e && value <= bound
    ensures gap + value + (1 + bound) * rest <= (1 + bound) * (e + rest)
  {
    assert (1 + bound) * (e + rest) == (1 + bound) * e + (1 + bound) * rest;
    assert (1 + bound) * e == e + bound * e;
    assert bound <= bound * e;
  }

  lemma GrowthSum(x: nat, y: nat, bound: nat)
    ensures (1 + bound) * x + (1 + bound) * y == (1 + bound) * (x + y)
  {
  }

  lemma GrowthBase(n: nat, bound: nat)
    ensures n <= (1 + bound) * n
  {
    assert (1 + bound) * n == n + bound * n;
  }

  lemma {:induction false} RewriteTextGrowth(dict: map<string, string>, s: string, bound: nat)
    requires forall k :: k in dict ==> |dict[k]| <= bound
    ensures |RewriteText(dict, s)| <= (1 + bound) * |s|
    decreases |s|
  {
    if s != [] {
      var n := LineLength(s);
      assert RewriteText(dict, s) == RewriteLine(dict, s[..n]) + RewriteText(dict, s[n..]);
      RewriteFromGrowth(dict, s[..n], 1, bound);
      RewriteTextGrowth(dict, s[n..], bound);
      assert |s[..n]| + |s[n..]| == |s|;
      GrowthSum(n, |s| - n, bound);
    }
  }
}
