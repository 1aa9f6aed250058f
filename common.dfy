/** Values and string facts shared by the name tools and both replacers. */
module Common {

  datatype Option<T> = None | Some(value: T)

  datatype Result<T, E> = Ok(value: T) | Err(error: E)

  /** `p` is a suffix of `s`. (Prefixes use Dafny's built-in `p <= s`.) */
  predicate IsSuffix(p: string, s: string) {
    |p| <= |s| && p == s[|s| - |p|..]
  }

  /** Appending is associative. */
  lemma AppendAssoc<T>(a: seq<T>, b: seq<T>, c: seq<T>)
    ensures a + b + c == a + (b + c)
  {
  }

  /** The strings of `ss` written one after another. */
  function Concat(ss: seq<string>): string {
    if ss == [] then [] else ss[0] + Concat(ss[1..])
  }

  lemma ConcatAppend(ss: seq<string>, t: string)
    ensures Concat(ss + [t]) == Concat(ss) + t
  {
    if ss != [] {
      assert (ss + [t])[1..] == ss[1..] + [t];
      ConcatAppend(ss[1..], t);
    }
  }

  /** Two suffixes of one string: the shorter is a suffix of the longer. */
  lemma SuffixOfSuffix(a: string, b: string, s: string)
    requires IsSuffix(a, s) && IsSuffix(b, s) && |a| <= |b|
    ensures IsSuffix(a, b)
  {
    assert b[|b| - |a|..] == s[|s| - |a|..];
  }

  /** Two suffixes of one string with the same length are the same string. */
  lemma SuffixSameLength(a: string, b: string, s: string)
    requires IsSuffix(a, s) && IsSuffix(b, s) && |a| == |b|
    ensures a == b
  {
  }

  lemma SuffixTransitive(a: string, b: string, s: string)
    requires IsSuffix(a, b) && IsSuffix(b, s)
    ensures IsSuffix(a, s)
  {
    assert s[|s| - |a|..] == s[|s| - |b|..][|b| - |a|..];
  }

  /** A suffix of `s + [c]` that is not empty ends in `c` and is a suffix of `s` plus `c`. */
  lemma SuffixOfSnoc(w: string, s: string, c: char)
    requires IsSuffix(w, s + [c]) && |w| > 0
    ensures w[|w| - 1] == c && IsSuffix(w[..|w| - 1], s)
  {
    var t := s + [c];
    assert w[..|w| - 1] == t[|t| - |w|..|t| - 1];
    assert t[|t| - |w|..|t| - 1] == s[|s| - (|w| - 1)..];
  }

  /** A key-to-value map built from pairs; a later pair overwrites an earlier one
      with the same key. */
  function MapFromPairs(pairs: seq<(string, string)>): (m: map<string, string>)
    ensures forall k :: k in m <==> exists i :: 0 <= i < |pairs| && pairs[i].0 == k
    ensures forall i {:trigger LastWithKey(pairs, i)} :: 0 <= i < |pairs| && LastWithKey(pairs, i) ==> m[pairs[i].0] == pairs[i].1
    decreases |pairs|
  {
    if pairs == [] then map[]
    else
      var init := pairs[..|pairs| - 1];
      var m := MapFromPairs(init)[pairs[|pairs| - 1].0 := pairs[|pairs| - 1].1];
      MapFromPairsStep(pairs, MapFromPairs(init), m);
      m
  }

  lemma MapFromPairsStep(pairs: seq<(string, string)>, before: map<string, string>, m: map<string, string>)
    requires |pairs| > 0
    requires var init := pairs[..|pairs| - 1];
      && (forall k :: k in before <==> exists i :: 0 <= i < |init| && init[i].0 == k)
      && (forall i {:trigger LastWithKey(init, i)} :: 0 <= i < |init| && LastWithKey(init, i) ==> before[init[i].0] == init[i].1)
    requires m == before[pairs[|pairs| - 1].0 := pairs[|pairs| - 1].1]
    ensures forall k :: k in m <==> exists i :: 0 <= i < |pairs| && pairs[i].0 == k
    ensures forall i {:trigger LastWithKey(pairs, i)} :: 0 <= i < |pairs| && LastWithKey(pairs, i) ==> m[pairs[i].0] == pairs[i].1
  {
    var n := |pairs| - 1;
    var init := pairs[..n];
    forall k | k in m ensures exists i :: 0 <= i < |pairs| && pairs[i].0 == k {
      if k != pairs[n].0 {
        var i :| 0 <= i < |init| && init[i].0 == k;
        assert pairs[i] == init[i];
      }
    }
    forall i | 0 <= i < |pairs| && LastWithKey(pairs, i) ensures m[pairs[i].0] == pairs[i].1 {
      if i < n {
        assert pairs[n].0 != pairs[i].0;
        assert init[i] == pairs[i];
        assert LastWithKey(init, i);
      }
    }
    forall i | 0 <= i < |pairs| ensures pairs[i].0 in m {
      if i < n { assert init[i] == pairs[i]; }
    }
  }

  /** No pair after index `i` has the key of pair `i`. */
  predicate LastWithKey(pairs: seq<(string, string)>, i: nat)
    requires i < |pairs|
  {
    forall j :: i < j < |pairs| ==> pairs[j].0 != pairs[i].0
  }

  /** Entries `i` and `j` of `s` differ. Pairwise distinctness stated with
      this predicate stays out of the solver's way until a proof asks about
      a particular pair. */
  ghost predicate Apart<T>(s: seq<T>, i: nat, j: nat)
    requires i < |s| && j < |s|
  {
    s[i] != s[j]
  }

  /** The elements of `s`, listed once each in some order (the iteration order of
      a hash map or set, which the model does not fix). */
  method SetToSeq<T>(s: set<T>) returns (r: seq<T>)
    ensures forall x :: x in r <==> x in s
    ensures forall i, j :: 0 <= i < j < |r| ==> r[i] != r[j]
    ensures |r| == |s|
  {
    r := [];
    var rest := s;
    while rest != {}
      invariant forall x :: x in s <==> x in r || x in rest
      invariant forall x :: x in r ==> x !in rest
      invariant forall i, j :: 0 <= i < j < |r| ==> r[i] != r[j]
      invariant |r| + |rest| == |s|
      decreases rest
    {
      var x :| x in rest;
      r := r + [x];
      rest := rest - {x};
    }
  }

  /** The naturals below `n`. */
  function Below(n: nat): (r: set<nat>)
    ensures forall k: nat :: k in r <==> k < n
  {
    if n == 0 then {} else Below(n - 1) + {n - 1}
  }
}
