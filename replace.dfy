/** The greedy replacer (src/replace.rs): scan left to right; where some key
    starts the rest of the text, write its value and skip the key, otherwise
    copy one character. */
module Replace {
  import opened Common

  /** `p` is a prefix of `s`. */
  predicate IsPrefix<T(==)>(p: seq<T>, s: seq<T>) {
    |p| <= |s| && s[..|p|] == p
  }

  /** The first key of `order` that is a prefix of `s` (`Iterator::find` over
      the map in its iteration order `order`). */
  function FindPrefix<T(==)>(order: seq<seq<T>>, s: seq<T>): (r: Option<seq<T>>)
    ensures r.None? <==> forall i :: 0 <= i < |order| ==> !IsPrefix(order[i], s)
    ensures r.Some? ==> r.value in order && IsPrefix(r.value, s)
  {
    if order == [] then None
    else if IsPrefix(order[0], s) then Some(order[0])
    else FindPrefix(order[1..], s)
  }

  /** The key found is the first one in `order` that starts `s`. */
  lemma {:induction false} FindPrefixFirst<T>(order: seq<seq<T>>, s: seq<T>)
    requires FindPrefix(order, s).Some?
    ensures exists i :: 0 <= i < |order| && order[i] == FindPrefix(order, s).value && FirstPrefixAt(order, s, i)
  {
    if IsPrefix(order[0], s) {
      assert FirstPrefixAt(order, s, 0);
    } else {
      FindPrefixFirst(order[1..], s);
      var i :| 0 <= i < |order[1..]| && order[1..][i] == FindPrefix(order, s).value && FirstPrefixAt(order[1..], s, i);
      assert FirstPrefixAt(order, s, i + 1);
    }
  }

  /** Key `i` is a prefix of `s` and no earlier key is. */
  predicate FirstPrefixAt<T(==)>(order: seq<seq<T>>, s: seq<T>, i: nat)
    requires i < |order|
  {
    IsPrefix(order[i], s) && forall j :: 0 <= j < i ==> !IsPrefix(order[j], s)
  }

  /** Every listed key has a value and is not empty. */
  predicate KeysOk<T(==)>(order: seq<seq<T>>, dict: map<seq<T>, seq<T>>) {
    forall i :: 0 <= i < |order| ==> order[i] in dict && |order[i]| > 0
  }

  /** What the greedy replacer writes for `s`. */
  function Replaced<T(==)>(order: seq<seq<T>>, dict: map<seq<T>, seq<T>>, s: seq<T>): seq<T>
    requires KeysOk(order, dict)
    decreases |s|
  {
    if s == [] then []
    else
      match FindPrefix(order, s)
      case Some(k) => dict[k] + Replaced(order, dict, s[|k|..])
      case None => [s[0]] + Replaced(order, dict, s[1..])
  }

  /** No key occurs anywhere in `s`. */
  predicate NoOccurrence<T(==)>(order: seq<seq<T>>, s: seq<T>) {
    forall i, j :: 0 <= i < |order| && 0 <= j <= |s| ==> !IsPrefix(order[i], s[j..])
  }

  /** Text in which no key occurs is copied unchanged. */
  lemma {:induction false} ReplacedIdentity<T>(order: seq<seq<T>>, dict: map<seq<T>, seq<T>>, s: seq<T>)
    requires KeysOk(order, dict)
    requires NoOccurrence(order, s)
    ensures Replaced(order, dict, s) == s
    decreases |s|
  {
    if s != [] {
      assert forall i :: 0 <= i < |order| ==> !IsPrefix(order[i], s[0..]) by { assert s[0..] == s; }
      assert NoOccurrence(order, s[1..]) by {
        forall i, j | 0 <= i < |order| && 0 <= j <= |s[1..]| ensures !IsPrefix(order[i], s[1..][j..]) {
          assert s[1..][j..] == s[j + 1..];
        }
      }
      ReplacedIdentity(order, dict, s[1..]);
    }
  }

  /** Single pass: each input character is scanned once and each step writes
      either one character or one value, so the output is at most `bound` times
      as long as the input when every value is at most `bound` long. */
  lemma {:induction false} ReplacedGrowth<T>(order: seq<seq<T>>, dict: map<seq<T>, seq<T>>, s: seq<T>, bound: nat)
    requires KeysOk(order, dict)
    requires bound >= 1 && forall k :: k in dict ==> |dict[k]| <= bound
    ensures |Replaced(order, dict, s)| <= bound * |s|
    decreases |s|
  {
    if s != [] {
      var f := FindPrefix(order, s);
      var rest := if f.Some? then s[|f.value|..] else s[1..];
      assert |Replaced(order, dict, s)| <= bound + |Replaced(order, dict, rest)|;
      ReplacedGrowth(order, dict, rest, bound);
      MulStep(bound, |rest|, |s|);
    }
  }

  lemma MulStep(b: nat, x: nat, y: nat)
    requires x < y
    ensures b + b * x <= b * y
  {
    MulMono(b, x + 1, y);
  }

  lemma MulMono(b: nat, x: nat, y: nat)
    requires x <= y
    ensures b * x <= b * y
  {
  }

  /** No key is a proper prefix of another. */
  predicate PrefixFree<T(==)>(keys: set<seq<T>>) {
    forall a, b :: a in keys && b in keys && IsPrefix(a, b) ==> a == b
  }

  /** When no key is a prefix of another, at most one key starts any text, so
      the map's iteration order does not change the output. */
  lemma {:induction false} ReplacedOrderFree<T>(o1: seq<seq<T>>, o2: seq<seq<T>>, dict: map<seq<T>, seq<T>>, s: seq<T>)
    requires KeysOk(o1, dict) && KeysOk(o2, dict)
    requires forall k :: k in o1 <==> k in o2
    requires PrefixFree(set k | k in o1)
    ensures Replaced(o1, dict, s) == Replaced(o2, dict, s)
    decreases |s|
  {
    if s != [] {
      var r1, r2 := FindPrefix(o1, s), FindPrefix(o2, s);
      if r1.Some? {
        assert r1.value in o2;
        assert r2.Some?;
        PrefixesComparable(r1.value, r2.value, s);
        ReplacedOrderFree(o1, o2, dict, s[|r1.value|..]);
      } else {
        assert r2.None?;
        ReplacedOrderFree(o1, o2, dict, s[1..]);
      }
    }
  }

  lemma PrefixesComparable<T>(a: seq<T>, b: seq<T>, s: seq<T>)
    requires IsPrefix(a, s) && IsPrefix(b, s)
    ensures IsPrefix(a, b) || IsPrefix(b, a)
  {
    if |a| <= |b| { assert b[..|a|] == s[..|a|]; } else { assert a[..|b|] == s[..|b|]; }
  }

  /** One step of the scan at index `i`. */
  lemma ReplacedStep<T>(order: seq<seq<T>>, dict: map<seq<T>, seq<T>>, s: seq<T>, i: nat)
    requires KeysOk(order, dict) && i < |s|
    ensures var f := FindPrefix(order, s[i..]);
      && (f.Some? ==> i + |f.value| <= |s| && Replaced(order, dict, s[i..]) == dict[f.value] + Replaced(order, dict, s[i + |f.value|..]))
      && (f.None? ==> Replaced(order, dict, s[i..]) == [s[i]] + Replaced(order, dict, s[i + 1..]))
  {
    var f := FindPrefix(order, s[i..]);
    if f.Some? {
      assert s[i..][|f.value|..] == s[i + |f.value|..];
    } else {
      assert s[i..][1..] == s[i + 1..];
    }
  }

  /** The pairs of the replacer's own test. */
  const TestPairs: seq<(string, string)> := [("aa", "aaa"), (":)", "\U{1F60A}"), ("\U{1F63A}", "a cat")]

  const TestOrder: seq<string> := ["aa", ":)", "\U{1F63A}"]

  lemma TestPairsMap()
    ensures MapFromPairs(TestPairs) == TestDict
  {
    var p := TestPairs;
    assert p[..2][..1] == [("aa", "aaa")];
    assert p[..2][..1][..0] == [];
    assert MapFromPairs(p[..2][..1]) == map["aa" := "aaa"];
    assert p[..2] == [("aa", "aaa"), (":)", "\U{1F60A}")];
    assert MapFromPairs(p[..2]) == map["aa" := "aaa", ":)" := "\U{1F60A}"];
  }

  /** "Whaaat? :) 😺" becomes "Whaaaat? 😊 a cat", whatever the map's order:
      no key of this map is a prefix of another. */
  lemma TestSimpleReplacer(order: seq<string>)
    requires forall k :: k in order <==> k in MapFromPairs(TestPairs)
    requires KeysOk(order, MapFromPairs(TestPairs))
    ensures Replaced(order, MapFromPairs(TestPairs), "Whaaat? :) \U{1F63A}") == "Whaaaat? \U{1F60A} a cat"
  {
    TestPairsMap();
    var d := MapFromPairs(TestPairs);
    assert forall k :: k in TestOrder <==> k in order;
    forall a, b | a in TestOrder && b in TestOrder && IsPrefix(a, b) ensures a == b {
      assert a[0] == b[0];
    }
    ReplacedOrderFree(order, TestOrder, d, "Whaaat? :) \U{1F63A}");
    TestOnOrder("Whaaat? :) \U{1F63A}");
  }

  const TestDict: map<string, string> := map["aa" := "aaa", ":)" := "\U{1F60A}", "\U{1F63A}" := "a cat"]

  lemma TestKeysOk()
    ensures KeysOk(TestOrder, TestDict)
  {
  }

  lemma TestFind(t: string)
    requires |t| > 0
    ensures FindPrefix(TestOrder, t) ==
      if |t| >= 2 && t[0] == 'a' && t[1] == 'a' then Some("aa")
      else if |t| >= 2 && t[0] == ':' && t[1] == ')' then Some(":)")
      else if t[0] == '\U{1F63A}' then Some("\U{1F63A}")
      else None
  {
    var o := TestOrder;
    assert o[1..] == [":)", "\U{1F63A}"] && o[1..][1..] == ["\U{1F63A}"] && o[1..][1..][1..] == [];
    PrefixOfTwo(t, 'a', 'a');
    PrefixOfTwo(t, ':', ')');
    PrefixOfOne(t, '\U{1F63A}');
    assert FindPrefix(o[1..][1..], t) == if IsPrefix("\U{1F63A}", t) then Some("\U{1F63A}") else None;
    assert FindPrefix(o[1..], t) == if IsPrefix(":)", t) then Some(":)") else FindPrefix(o[1..][1..], t);
  }

  lemma PrefixOfTwo(t: string, x: char, y: char)
    ensures IsPrefix([x, y], t) <==> |t| >= 2 && t[0] == x && t[1] == y
  {
    if |t| >= 2 {
      assert t[..2] == [t[0], t[1]];
    }
  }

  lemma PrefixOfOne(t: string, x: char)
    ensures IsPrefix([x], t) <==> |t| >= 1 && t[0] == x
  {
    if |t| >= 1 {
      assert t[..1] == [t[0]];
    }
  }

  lemma TestOnOrder(s: string)
    requires s == "Whaaat? :) \U{1F63A}"
    ensures KeysOk(TestOrder, TestDict) && Replaced(TestOrder, TestDict, s) == "Whaaaat? \U{1F60A} a cat"
  {
    TestFrom0(s);
    assert s[0..] == s;
    TestOutWhole();
  }

  /** The characters of "Whaaat? :) 😺". */
  predicate TestChars(s: string) {
    |s| == 12 && s[0] == 'W' && s[1] == 'h' && s[2] == 'a' && s[3] == 'a' && s[4] == 'a' && s[5] == 't' && s[6] == '?' && s[7] == ' ' && s[8] == ':' && s[9] == ')' && s[10] == ' ' && s[11] == '\U{1F63A}'
  }

  /** `TestOutK` is what the replacer writes for "Whaaat? :) 😺" from
      character `K` on. */
  const TestOut11: string := "a cat"
  const TestOut10: string := " " + TestOut11
  const TestOut8: string := "\U{1F60A}" + TestOut10
  const TestOut7: string := " " + TestOut8
  const TestOut6: string := "?" + TestOut7
  const TestOut5: string := "t" + TestOut6
  const TestOut4: string := "a" + TestOut5
  const TestOut2: string := "aaa" + TestOut4
  const TestOut1: string := "h" + TestOut2
  const TestOut0: string := "W" + TestOut1

  lemma TestOutWhole()
    ensures TestOut0 == "Whaaaat? \U{1F60A} a cat"
  {
  }

  lemma TestFrom0(s: string)
    requires TestChars(s)
    ensures KeysOk(TestOrder, TestDict) && Replaced(TestOrder, TestDict, s[0..]) == TestOut0
  {
    TestKeysOk();
    TestFrom1(s);
    TestFind(s[0..]);
    ReplacedStep(TestOrder, TestDict, s, 0);
  }

  lemma TestFrom1(s: string)
    requires TestChars(s)
    ensures KeysOk(TestOrder, TestDict) && Replaced(TestOrder, TestDict, s[1..]) == TestOut1
  {
    TestKeysOk();
    TestFrom2(s);
    TestFind(s[1..]);
    ReplacedStep(TestOrder, TestDict, s, 1);
  }

  lemma TestFrom2(s: string)
    requires TestChars(s)
    ensures KeysOk(TestOrder, TestDict) && Replaced(TestOrder, TestDict, s[2..]) == TestOut2
  {
    TestKeysOk();
    TestFrom4(s);
    TestFind(s[2..]);
    ReplacedStep(TestOrder, TestDict, s, 2);
  }

  lemma TestFrom4(s: string)
    requires TestChars(s)
    ensures KeysOk(TestOrder, TestDict) && Replaced(TestOrder, TestDict, s[4..]) == TestOut4
  {
    TestKeysOk();
    TestFrom5(s);
    TestFind(s[4..]);
    ReplacedStep(TestOrder, TestDict, s, 4);
  }

  lemma TestFrom5(s: string)
    requires TestChars(s)
    ensures KeysOk(TestOrder, TestDict) && Replaced(TestOrder, TestDict, s[5..]) == TestOut5
  {
    TestKeysOk();
    TestFrom6(s);
    TestFind(s[5..]);
    ReplacedStep(TestOrder, TestDict, s, 5);
  }

  lemma TestFrom6(s: string)
    requires TestChars(s)
    ensures KeysOk(TestOrder, TestDict) && Replaced(TestOrder, TestDict, s[6..]) == TestOut6
  {
    TestKeysOk();
    TestFrom7(s);
    TestFind(s[6..]);
    ReplacedStep(TestOrder, TestDict, s, 6);
  }

  lemma TestFrom7(s: string)
    requires TestChars(s)
    ensures KeysOk(TestOrder, TestDict) && Replaced(TestOrder, TestDict, s[7..]) == TestOut7
  {
    TestKeysOk();
    TestFrom8(s);
    TestFind(s[7..]);
    ReplacedStep(TestOrder, TestDict, s, 7);
  }

  lemma TestFrom8(s: string)
    requires TestChars(s)
    ensures KeysOk(TestOrder, TestDict) && Replaced(TestOrder, TestDict, s[8..]) == TestOut8
  {
    TestKeysOk();
    TestFrom10(s);
    TestFind(s[8..]);
    ReplacedStep(TestOrder, TestDict, s, 8);
  }

  lemma TestFrom10(s: string)
    requires TestChars(s)
    ensures KeysOk(TestOrder, TestDict) && Replaced(TestOrder, TestDict, s[10..]) == TestOut10
  {
    TestKeysOk();
    TestFrom11(s);
    TestFind(s[10..]);
    ReplacedStep(TestOrder, TestDict, s, 10);
  }

  lemma TestFrom11(s: string)
    requires TestChars(s)
    ensures KeysOk(TestOrder, TestDict) && Replaced(TestOrder, TestDict, s[11..]) == TestOut11
  {
    TestKeysOk();
    assert s[12..] == [];
    TestFind(s[11..]);
    ReplacedStep(TestOrder, TestDict, s, 11);
  }

  /** The greedy replacer. The map's iteration order `order` is fixed for the
      lifetime of the map and left open by the model. */
  class SimpleReplacer {
    const dict: map<string, string>
    const order: seq<string>

    ghost predicate Valid() {
      && (forall k :: k in order <==> k in dict)
      && (forall i, j :: 0 <= i < j < |order| ==> Apart(order, i, j))
      && KeysOk(order, dict)
    }

    /** `SimpleReplacer::from_map`; keys must be non-empty, or the scan would
        stop making progress. */
    constructor FromMap(pairs: seq<(string, string)>)
      requires forall i :: 0 <= i < |pairs| ==> |pairs[i].0| > 0
      ensures dict == MapFromPairs(pairs)
      ensures Valid()
    {
      var m := MapFromPairs(pairs);
      var keys := SetToSeq(m.Keys);
      dict := m;
      order := keys;
    }

    /** One pass of the scan at character `i`: the value of the first key
        that starts there, or the character itself, and where the scan goes
        on. */
    method Step(content: string, i: nat) returns (w: string, next: nat)
      requires KeysOk(order, dict) && i < |content|
      ensures i < next <= |content|
      ensures w + Replaced(order, dict, content[next..]) == Replaced(order, dict, content[i..])
    {
      var rest := content[i..];
      var found := FindPrefix(order, rest);
      if found.Some? {
        w := dict[found.value];
        next := i + |found.value|;
        assert rest[|found.value|..] == content[next..];
      } else {
        w := [rest[0]];
        next := i + 1;
        assert rest[1..] == content[next..];
      }
    }

    /** `SimpleReplacer::transform` on the text read from the input. */
    method Transform(content: string) returns (output: string)
      requires Valid()
      ensures output == Replaced(order, dict, content)
    {
      output := [];
      var i := 0;
      assert content[0..] == content;
      while i < |content|
        invariant 0 <= i <= |content|
        invariant output + Replaced(order, dict, content[i..]) == Replaced(order, dict, content)
        decreases |content| - i
      {
        var w, next := Step(content, i);
        AppendAssoc(output, w, Replaced(order, dict, content[next..]));
        output := output + w;
        i := next;
      }
      assert content[i..] == [];
    }
  }
}
