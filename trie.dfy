/** The trie arena of the Aho-Corasick automaton (src/transform.rs) as values:
    nodes in a sequence indexed by node id, the root at index 0, and beside
    them the ghost sequence `paths` of the string each node spells from the
    root. The predicates say what a well-formed trie and correct links are;
    the lemmas are the steps the imperative code in AhoCorasick relies on. */
module Trie {
  import opened Common

  /** `depth` is a `u8` in the source. */
  const MaxDepth: nat := 255

  /** The root node id (`ROOT_ID`). */
  const RootId: nat := 0

  datatype Node = Node(
    depth: nat,
    parent: Option<nat>,
    children: map<char, nat>,
    letter: Option<char>,
    inDict: bool,
    suffixLink: Option<nat>,
    dictLink: Option<nat>)

  /** The node `Tree::new` starts with. */
  const Root: Node := Node(0, None, map[], None, false, None, None)

  /** The node `spawn_chid` appends. */
  function Fresh(depth: nat, parent: nat, letter: char): Node {
    Node(depth, Some(parent), map[], Some(letter), false, None, None)
  }

  /** Node `k` (not the root) hangs under an earlier parent, by its letter,
      and spells its parent's string followed by its letter. */
  ghost predicate ParentEdge(nodes: seq<Node>, paths: seq<string>, k: nat)
    requires 0 < k < |nodes| == |paths|
  {
    && nodes[k].parent.Some? && nodes[k].parent.value < k && nodes[k].letter.Some?
    && paths[k] == paths[nodes[k].parent.value] + [nodes[k].letter.value]
    && nodes[k].letter.value in nodes[nodes[k].parent.value].children
    && nodes[nodes[k].parent.value].children[nodes[k].letter.value] == k
  }

  /** The child of `k` under `c` is a later node whose parent is `k` and whose
      letter is `c`. */
  predicate ChildEdge(nodes: seq<Node>, k: nat, c: char)
    requires k < |nodes| && c in nodes[k].children
  {
    var j := nodes[k].children[c];
    k < j < |nodes| && nodes[j].parent == Some(k) && nodes[j].letter == Some(c)
  }

  /** A well-formed trie: the root spells the empty string and has no parent
      or letter, every depth is the length of the node's string and fits a
      `u8`, parent and child entries agree, and no two nodes spell the same
      string. */
  ghost predicate Shape(nodes: seq<Node>, paths: seq<string>) {
    && |nodes| == |paths| > 0
    && nodes[0].parent.None? && nodes[0].letter.None? && paths[0] == []
    && (forall k :: 0 <= k < |nodes| ==> nodes[k].depth == |paths[k]| <= MaxDepth)
    && (forall k :: 0 < k < |nodes| ==> ParentEdge(nodes, paths, k))
    && (forall k, c :: 0 <= k < |nodes| && c in nodes[k].children ==> ChildEdge(nodes, k, c))
    && (forall i, j :: 0 <= i < j < |nodes| ==> Apart(paths, i, j))
  }

  /** In a well-formed trie, two nodes spelling the same string are one. */
  lemma SamePathSameNode(nodes: seq<Node>, paths: seq<string>, i: nat, j: nat)
    requires Shape(nodes, paths) && i < |nodes| && j < |nodes|
    ensures paths[i] == paths[j] ==> i == j
  {
    if i < j {
      assert Apart(paths, i, j);
    } else if j < i {
      assert Apart(paths, j, i);
    }
  }

  /** The strings the trie spells. */
  ghost function TriePaths(paths: seq<string>): set<string> {
    set k | 0 <= k < |paths| :: paths[k]
  }

  /** The strings of the nodes marked `in_dict`. */
  ghost function Dict(nodes: seq<Node>, paths: seq<string>): set<string>
    requires |nodes| == |paths|
  {
    set k | 0 <= k < |nodes| && nodes[k].inDict :: paths[k]
  }

  /** All prefixes of `w`, `w` and the empty string included. */
  function Prefixes(w: string): set<string> {
    set i | 0 <= i <= |w| :: w[..i]
  }

  /** Every prefix of every pattern of `ps`, and the empty string. */
  function Closure(ps: seq<string>): set<string> {
    {[]} + set j, i | 0 <= j < |ps| && 0 <= i <= |ps[j]| :: ps[j][..i]
  }

  lemma PrefixesSnoc(w: string, n: nat)
    requires n < |w|
    ensures Prefixes(w[..n + 1]) == Prefixes(w[..n]) + {w[..n + 1]}
  {
    var a, b := Prefixes(w[..n + 1]), Prefixes(w[..n]) + {w[..n + 1]};
    forall x | x in a ensures x in b {
      var i :| 0 <= i <= n + 1 && x == w[..n + 1][..i];
      if i <= n {
        assert x == w[..n][..i];
      } else {
        assert x == w[..n + 1];
      }
    }
    forall x | x in b ensures x in a {
      if x != w[..n + 1] {
        var i :| 0 <= i <= n && x == w[..n][..i];
        assert x == w[..n + 1][..i];
      } else {
        assert x == w[..n + 1][..n + 1];
      }
    }
  }

  lemma ClosureSnoc(ps: seq<string>, n: nat)
    requires n < |ps|
    ensures Closure(ps[..n + 1]) == Closure(ps[..n]) + Prefixes(ps[n])
  {
    var a, b := Closure(ps[..n + 1]), Closure(ps[..n]) + Prefixes(ps[n]);
    forall x | x in a ensures x in b {
      if x != [] {
        var j, i :| 0 <= j < n + 1 && 0 <= i <= |ps[..n + 1][j]| && x == ps[..n + 1][j][..i];
        if j < n {
          assert x == ps[..n][j][..i];
        } else {
          assert x == ps[n][..i];
        }
      }
    }
    forall x | x in b ensures x in a {
      if x in Closure(ps[..n]) {
        if x != [] {
          var j, i :| 0 <= j < n && 0 <= i <= |ps[..n][j]| && x == ps[..n][j][..i];
          assert x == ps[..n + 1][j][..i];
        }
      } else {
        var i :| 0 <= i <= |ps[n]| && x == ps[n][..i];
        assert x == ps[..n + 1][n][..i];
      }
    }
  }

  /** A child spells its parent's string followed by its letter. */
  lemma ChildPath(nodes: seq<Node>, paths: seq<string>, k: nat, c: char)
    requires Shape(nodes, paths) && k < |nodes| && c in nodes[k].children
    ensures nodes[k].children[c] < |nodes|
    ensures paths[nodes[k].children[c]] == paths[k] + [c]
  {
    assert ChildEdge(nodes, k, c);
    assert ParentEdge(nodes, paths, nodes[k].children[c]);
  }

  /** A string that extends a node's string by `c` is spelled by some node
      only if that node is the child under `c`. */
  lemma PathChild(nodes: seq<Node>, paths: seq<string>, k: nat, c: char, j: nat)
    requires Shape(nodes, paths) && k < |nodes| && j < |nodes| && paths[j] == paths[k] + [c]
    ensures c in nodes[k].children && nodes[k].children[c] == j
  {
    assert j != 0;
    assert ParentEdge(nodes, paths, j);
    var q := nodes[j].parent.value;
    assert paths[j][..|paths[j]| - 1] == paths[q];
    assert paths[j][..|paths[j]| - 1] == paths[k];
    SamePathSameNode(nodes, paths, q, k);
  }

  /** `spawn_chid`: the parent gains the child under `c`, which is appended. */
  function Spawned(nodes: seq<Node>, p: nat, c: char): seq<Node>
    requires p < |nodes|
  {
    nodes[p := nodes[p].(children := nodes[p].children[c := |nodes|])] + [Fresh(nodes[p].depth + 1, p, c)]
  }

  /** Spawning a child under a letter the parent lacks keeps the trie well
      formed, adds exactly the one new string, and marks nothing. */
  lemma SpawnShape(nodes: seq<Node>, paths: seq<string>, p: nat, c: char)
    requires Shape(nodes, paths) && p < |nodes|
    requires c !in nodes[p].children && |paths[p]| < MaxDepth
    ensures paths[p] + [c] !in TriePaths(paths)
    ensures Shape(Spawned(nodes, p, c), paths + [paths[p] + [c]])
    ensures TriePaths(paths + [paths[p] + [c]]) == TriePaths(paths) + {paths[p] + [c]}
    ensures Dict(Spawned(nodes, p, c), paths + [paths[p] + [c]]) == Dict(nodes, paths)
  {
    SpawnNew(nodes, paths, p, c);
    SpawnEdges(nodes, paths, p, c);
    SpawnSets(nodes, paths, p, c);
  }

  lemma SpawnNew(nodes: seq<Node>, paths: seq<string>, p: nat, c: char)
    requires Shape(nodes, paths) && p < |nodes| && c !in nodes[p].children
    ensures forall j :: 0 <= j < |nodes| ==> paths[j] != paths[p] + [c]
    ensures paths[p] + [c] !in TriePaths(paths)
  {
    forall j | 0 <= j < |nodes| ensures paths[j] != paths[p] + [c] {
      if paths[j] == paths[p] + [c] {
        PathChild(nodes, paths, p, c, j);
      }
    }
  }

  lemma SpawnEdges(nodes: seq<Node>, paths: seq<string>, p: nat, c: char)
    requires Shape(nodes, paths) && p < |nodes|
    requires c !in nodes[p].children && |paths[p]| < MaxDepth
    requires forall j :: 0 <= j < |nodes| ==> paths[j] != paths[p] + [c]
    ensures Shape(Spawned(nodes, p, c), paths + [paths[p] + [c]])
  {
    var w := paths[p] + [c];
    var n, ps := Spawned(nodes, p, c), paths + [w];
    var N := |nodes|;
    assert n[0].parent.None? && n[0].letter.None? && ps[0] == [];
    assert forall k :: 0 <= k < N ==>
      (n[k].depth == nodes[k].depth && n[k].parent == nodes[k].parent
       && n[k].letter == nodes[k].letter && ps[k] == paths[k]);
    forall k | 0 < k < N + 1 ensures ParentEdge(n, ps, k) {
      if k < N {
        assert ParentEdge(nodes, paths, k);
        var q, l := nodes[k].parent.value, nodes[k].letter.value;
        if q == p {
          assert l != c;
        }
      }
    }
    forall k, d | 0 <= k < N + 1 && d in n[k].children ensures ChildEdge(n, k, d) {
      if k != p || d != c {
        assert ChildEdge(nodes, k, d);
      }
    }
    forall i, j | 0 <= i < j < N + 1 ensures Apart(ps, i, j) {
      if j < N {
        assert Apart(paths, i, j);
      }
    }
  }

  lemma SpawnSets(nodes: seq<Node>, paths: seq<string>, p: nat, c: char)
    requires |nodes| == |paths| && p < |nodes|
    ensures TriePaths(paths + [paths[p] + [c]]) == TriePaths(paths) + {paths[p] + [c]}
    ensures Dict(Spawned(nodes, p, c), paths + [paths[p] + [c]]) == Dict(nodes, paths)
  {
    var w := paths[p] + [c];
    var n, ps := Spawned(nodes, p, c), paths + [w];
    var N := |nodes|;
    assert TriePaths(ps) == TriePaths(paths) + {w} by {
      forall x | x in TriePaths(ps) ensures x in TriePaths(paths) + {w} {
        var k :| 0 <= k < N + 1 && x == ps[k];
        if k < N {
          assert x == paths[k];
        }
      }
      forall x | x in TriePaths(paths) + {w} ensures x in TriePaths(ps) {
        if x == w {
          assert x == ps[N];
        } else {
          var k :| 0 <= k < N && x == paths[k];
          assert x == ps[k];
        }
      }
    }
    assert Dict(n, ps) == Dict(nodes, paths) by {
      forall x | x in Dict(n, ps) ensures x in Dict(nodes, paths) {
        var k :| 0 <= k < N + 1 && n[k].inDict && x == ps[k];
        assert k < N;
      }
      forall x | x in Dict(nodes, paths) ensures x in Dict(n, ps) {
        var k :| 0 <= k < N && nodes[k].inDict && x == paths[k];
        assert n[k].inDict && x == ps[k];
      }
    }
  }

  /** `extend`'s last step: node `k` marked `in_dict`. */
  function Marked(nodes: seq<Node>, k: nat): seq<Node>
    requires k < |nodes|
  {
    nodes[k := nodes[k].(inDict := true)]
  }

  /** Marking a node adds its string to the dictionary and nothing else. */
  lemma MarkShape(nodes: seq<Node>, paths: seq<string>, k: nat)
    requires Shape(nodes, paths) && k < |nodes|
    ensures Shape(Marked(nodes, k), paths)
    ensures Dict(Marked(nodes, k), paths) == Dict(nodes, paths) + {paths[k]}
  {
    var n := Marked(nodes, k);
    forall j | 0 < j < |n| ensures ParentEdge(n, paths, j) {
      assert ParentEdge(nodes, paths, j);
    }
    forall j, d | 0 <= j < |n| && d in n[j].children ensures ChildEdge(n, j, d) {
      assert ChildEdge(nodes, j, d);
    }
    assert Dict(n, paths) == Dict(nodes, paths) + {paths[k]} by {
      forall x | x in Dict(n, paths) ensures x in Dict(nodes, paths) + {paths[k]} {
        var j :| 0 <= j < |n| && n[j].inDict && x == paths[j];
        if j != k {
          assert nodes[j].inDict;
        }
      }
      forall x | x in Dict(nodes, paths) + {paths[k]} ensures x in Dict(n, paths) {
        if x != paths[k] {
          var j :| 0 <= j < |nodes| && nodes[j].inDict && x == paths[j];
          assert n[j].inDict;
        }
      }
    }
  }

  /** Where reading `w` from the root through the children maps ends, if
      every edge exists. */
  function Walk(nodes: seq<Node>, w: string): (r: Option<nat>)
    decreases |w|
  {
    if w == [] then Some(RootId)
    else
      match Walk(nodes, w[..|w| - 1])
      case None => None
      case Some(k) =>
        if k < |nodes| && w[|w| - 1] in nodes[k].children then Some(nodes[k].children[w[|w| - 1]])
        else None
  }

  /** Reading a node's string from the root leads to that node. */
  lemma {:induction false} WalkReachesPath(nodes: seq<Node>, paths: seq<string>, k: nat)
    requires Shape(nodes, paths) && k < |nodes|
    ensures Walk(nodes, paths[k]) == Some(k)
    decreases k
  {
    if k > 0 {
      assert ParentEdge(nodes, paths, k);
      var q, c := nodes[k].parent.value, nodes[k].letter.value;
      WalkReachesPath(nodes, paths, q);
      assert paths[k][..|paths[k]| - 1] == paths[q];
    }
  }

  /** `t` spells the longest string shorter than `bound` that is both a
      suffix of `w` and spelled by some node. */
  ghost predicate LongestTrieSuffix(paths: seq<string>, w: string, bound: nat, t: nat) {
    && t < |paths| && IsSuffix(paths[t], w) && |paths[t]| < bound
    && forall j {:trigger IsSuffix(paths[j], w)} :: 0 <= j < |paths| && IsSuffix(paths[j], w) && |paths[j]| < bound ==> |paths[j]| <= |paths[t]|
  }

  /** `r` is the `in_dict` node spelling the longest suffix of `w` shorter
      than `bound`, or `None` when there is no such node. */
  ghost predicate DictSuffixIs(nodes: seq<Node>, paths: seq<string>, w: string, bound: nat, r: Option<nat>)
    requires |nodes| == |paths|
  {
    match r
    case None =>
      forall j {:trigger IsSuffix(paths[j], w)} :: 0 <= j < |nodes| && nodes[j].inDict && IsSuffix(paths[j], w) ==> |paths[j]| >= bound
    case Some(t) =>
      && t < |nodes| && nodes[t].inDict && IsSuffix(paths[t], w) && |paths[t]| < bound
      && forall j {:trigger IsSuffix(paths[j], w)} :: 0 <= j < |nodes| && nodes[j].inDict && IsSuffix(paths[j], w) && |paths[j]| < bound ==> |paths[j]| <= |paths[t]|
  }

  /** The root has no suffix link; any other node's points at the node
      spelling the longest proper suffix of its string (the root if no other
      node does). */
  ghost predicate SuffixLinkOk(nodes: seq<Node>, paths: seq<string>, k: nat)
    requires k < |nodes| == |paths|
  {
    && (k == RootId ==> nodes[k].suffixLink.None?)
    && (k != RootId ==> nodes[k].suffixLink.Some? && LongestTrieSuffix(paths, paths[k], |paths[k]|, nodes[k].suffixLink.value))
  }

  /** The dictionary link of `k` is the `in_dict` node spelling the longest
      proper suffix of its string, and `None` exactly when there is none. */
  ghost predicate DictLinkOk(nodes: seq<Node>, paths: seq<string>, k: nat)
    requires k < |nodes| == |paths|
  {
    DictSuffixIs(nodes, paths, paths[k], |paths[k]|, nodes[k].dictLink)
  }

  /** Every node's links are set as `set_links` promises. */
  ghost predicate Linked(nodes: seq<Node>, paths: seq<string>)
    requires |nodes| == |paths|
  {
    forall k :: 0 <= k < |nodes| ==> SuffixLinkOk(nodes, paths, k) && DictLinkOk(nodes, paths, k)
  }

  /** No node spelling a suffix of `t` whose length is in `[lo, hi)` has a
      child under `c`. */
  ghost predicate NoChildIn(nodes: seq<Node>, paths: seq<string>, t: string, c: char, lo: nat, hi: nat)
    requires |nodes| == |paths|
  {
    forall j {:trigger IsSuffix(paths[j], t)} :: 0 <= j < |nodes| && IsSuffix(paths[j], t) && lo <= |paths[j]| < hi ==> c !in nodes[j].children
  }

  /** Following a suffix link skips no node spelling a suffix of `t`: every
      length between the link's and the node's is unspelled. */
  lemma FollowLink(nodes: seq<Node>, paths: seq<string>, t: string, c: char, trav: nat, hi: nat)
    requires Shape(nodes, paths) && 0 < trav < |nodes| && SuffixLinkOk(nodes, paths, trav)
    requires IsSuffix(paths[trav], t) && NoChildIn(nodes, paths, t, c, |paths[trav]|, hi)
    ensures var s := nodes[trav].suffixLink.value;
      && s < |nodes| && |paths[s]| < |paths[trav]| && IsSuffix(paths[s], t)
      && NoChildIn(nodes, paths, t, c, |paths[s]| + 1, hi)
  {
    var s := nodes[trav].suffixLink.value;
    SuffixTransitive(paths[s], paths[trav], t);
    forall j | 0 <= j < |nodes| && IsSuffix(paths[j], t) && |paths[s]| + 1 <= |paths[j]| < hi
      ensures c !in nodes[j].children
    {
      if |paths[j]| < |paths[trav]| {
        SuffixOfSuffix(paths[j], paths[trav], t);
      }
    }
  }

  /** A node spelling a suffix of `t` with no child under `c` closes the gap
      at its own length. */
  lemma NoChildAt(nodes: seq<Node>, paths: seq<string>, t: string, c: char, s: nat, hi: nat)
    requires Shape(nodes, paths) && s < |nodes| && IsSuffix(paths[s], t) && c !in nodes[s].children
    requires NoChildIn(nodes, paths, t, c, |paths[s]| + 1, hi)
    ensures NoChildIn(nodes, paths, t, c, |paths[s]|, hi)
  {
    forall j | 0 <= j < |nodes| && IsSuffix(paths[j], t) && |paths[s]| <= |paths[j]| < hi
      ensures c !in nodes[j].children
    {
      if |paths[j]| == |paths[s]| {
        SuffixSameLength(paths[j], paths[s], t);
        SamePathSameNode(nodes, paths, j, s);
      }
    }
  }

  /** The node spelling a suffix of `t` that has a child under `c`, when no
      longer one below `hi` has: that child spells the longest suffix of
      `t + [c]` shorter than `hi + 1`. */
  lemma ChildFound(nodes: seq<Node>, paths: seq<string>, t: string, c: char, s: nat, hi: nat)
    requires Shape(nodes, paths) && s < |nodes| && IsSuffix(paths[s], t) && |paths[s]| < hi
    requires c in nodes[s].children && NoChildIn(nodes, paths, t, c, |paths[s]| + 1, hi)
    ensures LongestTrieSuffix(paths, t + [c], hi + 1, nodes[s].children[c])
  {
    var x := nodes[s].children[c];
    ChildPath(nodes, paths, s, c);
    assert (t + [c])[|t + [c]| - |paths[x]|..] == t[|t| - |paths[s]|..] + [c];
    forall j | 0 <= j < |paths| && IsSuffix(paths[j], t + [c]) && |paths[j]| < hi + 1
      ensures |paths[j]| <= |paths[x]|
    {
      if |paths[j]| > |paths[x]| {
        SnocParent(nodes, paths, t, c, j);
      }
    }
  }

  /** A node spelling a non-empty suffix of `t + [c]` hangs under `c` from a
      node spelling a suffix of `t`. */
  lemma SnocParent(nodes: seq<Node>, paths: seq<string>, t: string, c: char, j: nat)
    requires Shape(nodes, paths) && j < |nodes| && IsSuffix(paths[j], t + [c]) && |paths[j]| > 0
    ensures j != RootId && ParentEdge(nodes, paths, j)
    ensures var q := nodes[j].parent.value;
      && IsSuffix(paths[q], t) && |paths[q]| == |paths[j]| - 1 && c in nodes[q].children
  {
    assert ParentEdge(nodes, paths, j);
    var q := nodes[j].parent.value;
    SuffixOfSnoc(paths[j], t, c);
    assert paths[j][..|paths[j]| - 1] == paths[q];
  }

  /** When no node spelling a suffix of `t` shorter than `hi` has a child
      under `c`, the root spells the longest suffix of `t + [c]` below
      `hi + 1`. */
  lemma ChildMissing(nodes: seq<Node>, paths: seq<string>, t: string, c: char, hi: nat)
    requires Shape(nodes, paths) && NoChildIn(nodes, paths, t, c, 0, hi)
    ensures LongestTrieSuffix(paths, t + [c], hi + 1, RootId)
  {
    forall j | 0 <= j < |paths| && IsSuffix(paths[j], t + [c]) && |paths[j]| < hi + 1
      ensures |paths[j]| <= 0
    {
      if |paths[j]| > 0 {
        SnocParent(nodes, paths, t, c, j);
      }
    }
  }

  /** `in_dict_suffix_link` from the suffix link: the link target itself when
      it is in the dictionary, otherwise its own dictionary link. */
  lemma DictLinkFromSuffix(nodes: seq<Node>, paths: seq<string>, k: nat, s: nat)
    requires Shape(nodes, paths) && k < |nodes|
    requires LongestTrieSuffix(paths, paths[k], |paths[k]|, s) && DictLinkOk(nodes, paths, s)
    ensures DictSuffixIs(nodes, paths, paths[k], |paths[k]|, if nodes[s].inDict then Some(s) else nodes[s].dictLink)
  {
    ReachDict(nodes, paths, paths[k], |paths[k]|, s);
  }

  /** The `in_dict` nodes spelling suffixes of `w` below `bound` are the
      longest such trie node `s` and those spelling its proper suffixes. */
  lemma ReachDict(nodes: seq<Node>, paths: seq<string>, w: string, bound: nat, s: nat)
    requires Shape(nodes, paths)
    requires LongestTrieSuffix(paths, w, bound, s) && DictLinkOk(nodes, paths, s)
    ensures DictSuffixIs(nodes, paths, w, bound, if nodes[s].inDict then Some(s) else nodes[s].dictLink)
  {
    var r := if nodes[s].inDict then Some(s) else nodes[s].dictLink;
    forall j | 0 <= j < |nodes| && nodes[j].inDict && IsSuffix(paths[j], w) && |paths[j]| < bound
      ensures |paths[j]| <= |paths[s]| && (|paths[j]| < |paths[s]| ==> IsSuffix(paths[j], paths[s]))
      ensures |paths[j]| == |paths[s]| ==> j == s
    {
      SuffixOfSuffix(paths[j], paths[s], w);
      if |paths[j]| == |paths[s]| {
        SuffixSameLength(paths[j], paths[s], w);
        SamePathSameNode(nodes, paths, j, s);
      }
    }
    if r.Some? && r.value != s {
      SuffixTransitive(paths[r.value], paths[s], w);
    }
  }

  /** The match rule of `transform`: a node's own mark first, then its
      dictionary link. Given the node spelling the longest trie suffix of
      `w`, this names the longest dictionary suffix of `w`. */
  lemma MatchNode(nodes: seq<Node>, paths: seq<string>, w: string, n: nat)
    requires Shape(nodes, paths) && LongestTrieSuffix(paths, w, |w| + 1, n) && DictLinkOk(nodes, paths, n)
    ensures DictSuffixIs(nodes, paths, w, |w| + 1, if nodes[n].inDict then Some(n) else nodes[n].dictLink)
  {
    ReachDict(nodes, paths, w, |w| + 1, n);
  }

  /** The match rule of `transform`, stated on the dictionary: the node it
      picks, if any, spells the longest key that is a suffix of `w`, and it
      picks none exactly when no key is. */
  lemma MatchKey(nodes: seq<Node>, paths: seq<string>, w: string, n: nat)
    requires Shape(nodes, paths) && LongestTrieSuffix(paths, w, |w| + 1, n) && DictLinkOk(nodes, paths, n)
    ensures var r: Option<nat> := if nodes[n].inDict then Some(n) else nodes[n].dictLink;
      && (r.None? ==> forall u {:trigger IsSuffix(u, w)} :: u in Dict(nodes, paths) ==> !IsSuffix(u, w))
      && (r.Some? ==> r.value < |nodes| && nodes[r.value].depth == |paths[r.value]|)
      && (r.Some? ==> paths[r.value] in Dict(nodes, paths) && IsSuffix(paths[r.value], w))
      && (r.Some? ==> forall u {:trigger IsSuffix(u, w)} :: u in Dict(nodes, paths) && IsSuffix(u, w) ==> |u| <= |paths[r.value]|)
  {
    var r: Option<nat> := if nodes[n].inDict then Some(n) else nodes[n].dictLink;
    MatchNode(nodes, paths, w, n);
    forall u | u in Dict(nodes, paths) && IsSuffix(u, w)
      ensures r.Some? && |u| <= |paths[r.value]|
    {
      var j :| 0 <= j < |nodes| && nodes[j].inDict && paths[j] == u;
    }
  }

  /** After a reset the root spells the longest trie suffix of the empty
      text. */
  lemma RootAfterReset(nodes: seq<Node>, paths: seq<string>, w: string)
    requires Shape(nodes, paths) && |w| == 0
    ensures LongestTrieSuffix(paths, w, 1, RootId)
  {
  }

  /** `set_links` writes node `k`'s two links. */
  function Relinked(nodes: seq<Node>, k: nat, suffixLink: Option<nat>, dictLink: Option<nat>): seq<Node>
    requires k < |nodes|
  {
    nodes[k := nodes[k].(suffixLink := suffixLink, dictLink := dictLink)]
  }

  /** `a` and `b` differ in links at most. */
  predicate Same(a: seq<Node>, b: seq<Node>) {
    && |a| == |b|
    && forall k :: 0 <= k < |a| ==>
      (a[k].depth == b[k].depth && a[k].parent == b[k].parent && a[k].children == b[k].children
       && a[k].letter == b[k].letter && a[k].inDict == b[k].inDict)
  }

  /** Links take no part in the shape or the dictionary. */
  lemma SameShape(a: seq<Node>, b: seq<Node>, paths: seq<string>)
    requires Same(a, b) && Shape(a, paths)
    ensures Shape(b, paths) && Dict(b, paths) == Dict(a, paths)
  {
    forall k | 0 < k < |b| ensures ParentEdge(b, paths, k) {
      assert ParentEdge(a, paths, k);
    }
    forall k, c | 0 <= k < |b| && c in b[k].children ensures ChildEdge(b, k, c) {
      assert ChildEdge(a, k, c);
    }
    assert Dict(b, paths) == Dict(a, paths) by {
      forall x | x in Dict(b, paths) ensures x in Dict(a, paths) {
        var k :| 0 <= k < |b| && b[k].inDict && x == paths[k];
        assert a[k].inDict;
      }
      forall x | x in Dict(a, paths) ensures x in Dict(b, paths) {
        var k :| 0 <= k < |a| && a[k].inDict && x == paths[k];
        assert b[k].inDict;
      }
    }
  }

  /** Which node is the longest `in_dict` suffix does not depend on links. */
  lemma SameDictSuffix(a: seq<Node>, b: seq<Node>, paths: seq<string>, w: string, bound: nat, r: Option<nat>)
    requires Same(a, b) && |a| == |paths| && DictSuffixIs(a, paths, w, bound, r)
    ensures DictSuffixIs(b, paths, w, bound, r)
  {
    match r
    case None =>
      forall j | 0 <= j < |b| && b[j].inDict && IsSuffix(paths[j], w) ensures |paths[j]| >= bound {
        assert a[j].inDict;
      }
    case Some(t) =>
      forall j | 0 <= j < |b| && b[j].inDict && IsSuffix(paths[j], w) && |paths[j]| < bound
        ensures |paths[j]| <= |paths[t]|
      {
        assert a[j].inDict;
      }
  }

  /** Writing node `k`'s links correctly keeps the finished nodes' links
      correct and finishes `k`. */
  lemma RelinkStep(nodes: seq<Node>, paths: seq<string>, done: set<nat>, k: nat, sl: Option<nat>, dl: Option<nat>)
    requires |nodes| == |paths| && k < |nodes| && k !in done
    requires forall j :: j in done ==> j < |nodes| && SuffixLinkOk(nodes, paths, j) && DictLinkOk(nodes, paths, j)
    requires k == RootId ==> sl.None?
    requires k != RootId ==> sl.Some? && LongestTrieSuffix(paths, paths[k], |paths[k]|, sl.value)
    requires DictSuffixIs(nodes, paths, paths[k], |paths[k]|, dl)
    ensures var n := Relinked(nodes, k, sl, dl);
      && Same(nodes, n)
      && forall j :: j in done + {k} ==> SuffixLinkOk(n, paths, j) && DictLinkOk(n, paths, j)
  {
    var n := Relinked(nodes, k, sl, dl);
    SameDictSuffix(nodes, n, paths, paths[k], |paths[k]|, dl);
    forall j | j in done ensures SuffixLinkOk(n, paths, j) && DictLinkOk(n, paths, j) {
      SameDictSuffix(nodes, n, paths, paths[j], |paths[j]|, nodes[j].dictLink);
    }
  }

  /** The state of the breadth-first pass of `set_links`: the queue holds
      distinct unfinished nodes in order of depth, at most one level apart;
      a node other than the root has been queued exactly when its parent is
      finished; and every node shallower than the queue's front is
      finished. */
  ghost predicate Frontier(nodes: seq<Node>, queue: seq<nat>, done: set<nat>) {
    && (forall i :: 0 <= i < |queue| ==> queue[i] < |nodes| && queue[i] !in done)
    && (forall i, j :: 0 <= i < j < |queue| ==> queue[i] != queue[j])
    && (forall x :: x in done ==> x < |nodes|)
    && (RootId in done || RootId in queue)
    && (forall k :: 0 < k < |nodes| ==>
         ((k in done || k in queue) <==> (nodes[k].parent.Some? && nodes[k].parent.value in done)))
    && (forall i, j :: 0 <= i < j < |queue| ==>
         nodes[queue[i]].depth <= nodes[queue[j]].depth <= nodes[queue[0]].depth + 1)
    && (|queue| > 0 ==> forall k :: 0 <= k < |nodes| && nodes[k].depth < nodes[queue[0]].depth ==> k in done)
  }

  /** The pass starts with the root queued. */
  lemma FrontierStart(nodes: seq<Node>, paths: seq<string>)
    requires Shape(nodes, paths)
    ensures Frontier(nodes, [RootId], {})
  {
    forall k | 0 < k < |nodes| ensures nodes[k].parent.Some? {
      assert ParentEdge(nodes, paths, k);
    }
  }

  /** A node's depth is one more than its parent's. */
  lemma ParentDepth(nodes: seq<Node>, paths: seq<string>, k: nat)
    requires Shape(nodes, paths) && 0 < k < |nodes|
    ensures nodes[k].parent.Some? && nodes[k].parent.value < |nodes|
    ensures nodes[nodes[k].parent.value].depth + 1 == nodes[k].depth
  {
    assert ParentEdge(nodes, paths, k);
  }

  /** `kids` lists, once each, the children of node `q`. */
  ghost predicate ChildList(nodes: seq<Node>, q: nat, kids: seq<nat>)
    requires q < |nodes|
  {
    && (forall x :: x in kids <==> x in nodes[q].children.Values)
    && (forall i, j :: 0 <= i < j < |kids| ==> kids[i] != kids[j])
  }

  /** The children of `q` are exactly the nodes whose parent is `q`, one
      level deeper. */
  lemma ChildListFacts(nodes: seq<Node>, paths: seq<string>, q: nat, kids: seq<nat>)
    requires Shape(nodes, paths) && q < |nodes| && ChildList(nodes, q, kids)
    ensures forall x :: x in kids ==>
      x < |nodes| && x != RootId && nodes[x].parent == Some(q) && nodes[x].depth == nodes[q].depth + 1
    ensures forall k :: 0 < k < |nodes| && nodes[k].parent == Some(q) ==> k in kids
  {
    forall x | x in kids
      ensures x < |nodes| && x != RootId && nodes[x].parent == Some(q) && nodes[x].depth == nodes[q].depth + 1
    {
      var c :| c in nodes[q].children && nodes[q].children[c] == x;
      assert ChildEdge(nodes, q, c);
      ParentDepth(nodes, paths, x);
    }
    forall k | 0 < k < |nodes| && nodes[k].parent == Some(q) ensures k in kids {
      assert ParentEdge(nodes, paths, k);
    }
  }

  /** One round of the pass: the front is finished and its children are
      queued behind the rest. */
  lemma FrontierAdvance(nodes: seq<Node>, paths: seq<string>, queue: seq<nat>, done: set<nat>, kids: seq<nat>)
    requires Shape(nodes, paths) && Frontier(nodes, queue, done) && |queue| > 0
    requires ChildList(nodes, queue[0], kids)
    ensures Frontier(nodes, queue[1..] + kids, done + {queue[0]})
  {
    ChildListFacts(nodes, paths, queue[0], kids);
    AdvanceMembers(nodes, paths, queue, done, kids);
    AdvanceOrder(nodes, paths, queue, done, kids);
  }

  lemma AdvanceMembers(nodes: seq<Node>, paths: seq<string>, queue: seq<nat>, done: set<nat>, kids: seq<nat>)
    requires Shape(nodes, paths) && Frontier(nodes, queue, done) && |queue| > 0
    requires ChildList(nodes, queue[0], kids)
    requires forall x :: x in kids ==>
      x < |nodes| && x != RootId && nodes[x].parent == Some(queue[0])
    requires forall k :: 0 < k < |nodes| && nodes[k].parent == Some(queue[0]) ==> k in kids
    ensures var nq, nd := queue[1..] + kids, done + {queue[0]};
      && (forall i :: 0 <= i < |nq| ==> nq[i] < |nodes| && nq[i] !in nd)
      && (forall i, j :: 0 <= i < j < |nq| ==> nq[i] != nq[j])
      && (RootId in nd || RootId in nq)
      && (forall k :: 0 < k < |nodes| ==>
           ((k in nd || k in nq) <==> (nodes[k].parent.Some? && nodes[k].parent.value in nd)))
  {
    AdvanceQueue(nodes, queue, done, kids);
    var q := queue[0];
    var nq, nd := queue[1..] + kids, done + {q};
    assert RootId in queue <==> RootId == q || RootId in queue[1..];
    forall k | 0 < k < |nodes|
      ensures (k in nd || k in nq) <==> (nodes[k].parent.Some? && nodes[k].parent.value in nd)
    {
      assert k in queue <==> k == q || k in queue[1..];
    }
  }

  lemma AdvanceQueue(nodes: seq<Node>, queue: seq<nat>, done: set<nat>, kids: seq<nat>)
    requires Frontier(nodes, queue, done) && |queue| > 0
    requires forall i, j :: 0 <= i < j < |kids| ==> kids[i] != kids[j]
    requires forall x :: x in kids ==> x < |nodes| && x !in done && x !in queue
    ensures var nq, nd := queue[1..] + kids, done + {queue[0]};
      && (forall i :: 0 <= i < |nq| ==> nq[i] < |nodes| && nq[i] !in nd)
      && (forall i, j :: 0 <= i < j < |nq| ==> nq[i] != nq[j])
  {
    var nq, nd := queue[1..] + kids, done + {queue[0]};
    forall i | 0 <= i < |nq| ensures nq[i] < |nodes| && nq[i] !in nd {
      if i >= |queue| - 1 {
        assert nq[i] in kids;
      } else {
        assert nq[i] == queue[i + 1];
      }
    }
    forall i, j | 0 <= i < j < |nq| ensures nq[i] != nq[j] {
      if j < |queue| - 1 {
        assert nq[i] == queue[i + 1] && nq[j] == queue[j + 1];
      } else if i < |queue| - 1 {
        assert nq[i] == queue[i + 1] && nq[j] in kids;
      } else {
        assert nq[i] == kids[i - (|queue| - 1)] && nq[j] == kids[j - (|queue| - 1)];
      }
    }
  }

  lemma AdvanceOrder(nodes: seq<Node>, paths: seq<string>, queue: seq<nat>, done: set<nat>, kids: seq<nat>)
    requires Shape(nodes, paths) && Frontier(nodes, queue, done) && |queue| > 0
    requires forall x :: x in kids ==> x < |nodes| && nodes[x].depth == nodes[queue[0]].depth + 1
    ensures var nq, nd := queue[1..] + kids, done + {queue[0]};
      && (forall i :: 0 <= i < |nq| ==> nq[i] < |nodes|)
      && (forall i, j :: 0 <= i < j < |nq| ==>
           nodes[nq[i]].depth <= nodes[nq[j]].depth <= nodes[nq[0]].depth + 1)
      && (|nq| > 0 ==> forall k :: 0 <= k < |nodes| && nodes[k].depth < nodes[nq[0]].depth ==> k in nd)
  {
    var q := queue[0];
    var d := nodes[q].depth;
    var nq, nd := queue[1..] + kids, done + {q};
    if |nq| > 0 {
      forall i | 0 <= i < |nq| ensures nq[i] < |nodes| && d <= nodes[nq[i]].depth <= d + 1 {
        if i < |queue| - 1 {
          assert nq[i] == queue[i + 1];
        } else {
          assert nq[i] in kids;
        }
      }
      forall i, j | 0 <= i < j < |nq| ensures nodes[nq[i]].depth <= nodes[nq[j]].depth <= nodes[nq[0]].depth + 1 {
        if j < |queue| - 1 {
          assert nq[i] == queue[i + 1] && nq[j] == queue[j + 1];
        } else if i < |queue| - 1 {
          assert nq[i] == queue[i + 1] && nq[j] in kids;
          if 1 < |queue| {
            assert nq[0] == queue[1];
          }
        } else {
          assert nq[i] in kids && nq[j] in kids;
          if 1 < |queue| {
            assert nq[0] == queue[1];
          } else {
            assert nq[0] in kids;
          }
        }
      }
      var d1 := nodes[nq[0]].depth;
      forall k | 0 <= k < |nodes| && nodes[k].depth < d1 ensures k in nd {
        if nodes[k].depth == d && d1 == d + 1 {
          FrontShallow(nodes, paths, queue, done, k);
        }
      }
    }
  }

  /** A node as deep as the front is finished or still queued. */
  lemma FrontShallow(nodes: seq<Node>, paths: seq<string>, queue: seq<nat>, done: set<nat>, k: nat)
    requires Shape(nodes, paths) && Frontier(nodes, queue, done) && |queue| > 0
    requires k < |nodes| && nodes[k].depth == nodes[queue[0]].depth
    ensures k in done || k in queue
  {
    if k != RootId {
      ParentDepth(nodes, paths, k);
    } else {
      assert RootId in done || RootId in queue;
    }
  }

  /** When the queue runs dry every node is finished. */
  lemma {:induction false} FrontierEnd(nodes: seq<Node>, paths: seq<string>, done: set<nat>, k: nat)
    requires Shape(nodes, paths) && Frontier(nodes, [], done) && k < |nodes|
    ensures k in done
    decreases k
  {
    if k != RootId {
      ParentDepth(nodes, paths, k);
      assert ParentEdge(nodes, paths, k);
      FrontierEnd(nodes, paths, done, nodes[k].parent.value);
    }
  }

  /** The loop state of `set_links` over the original arena `orig`: only
      links have changed, the queue is a breadth-first frontier, and every
      finished node is correctly linked. */
  ghost predicate LinkState(orig: seq<Node>, nodes: seq<Node>, paths: seq<string>, queue: seq<nat>, done: set<nat>) {
    && Shape(orig, paths) && Same(orig, nodes) && Frontier(orig, queue, done)
    && forall j :: j in done ==> j < |nodes| && SuffixLinkOk(nodes, paths, j) && DictLinkOk(nodes, paths, j)
  }

  lemma LinkStart(nodes: seq<Node>, paths: seq<string>)
    requires Shape(nodes, paths)
    ensures LinkState(nodes, nodes, paths, [RootId], {})
  {
    FrontierStart(nodes, paths);
  }

  /** The front of the queue is unfinished, and every node shallower than
      it is already linked. */
  lemma LinkReady(orig: seq<Node>, nodes: seq<Node>, paths: seq<string>, queue: seq<nat>, done: set<nat>)
    requires LinkState(orig, nodes, paths, queue, done) && |queue| > 0
    ensures Shape(nodes, paths) && queue[0] < |nodes| && queue[0] !in done
    ensures nodes[queue[0]].children == orig[queue[0]].children
    ensures forall k :: 0 <= k < |nodes| && nodes[k].depth < nodes[queue[0]].depth ==>
      SuffixLinkOk(nodes, paths, k) && DictLinkOk(nodes, paths, k)
  {
    SameShape(orig, nodes, paths);
  }

  /** One round of `set_links`: the front's children join the queue, and the
      front gets its suffix link and then its dictionary link. */
  lemma LinkRound(orig: seq<Node>, nodes: seq<Node>, paths: seq<string>, queue: seq<nat>, done: set<nat>,
                  kids: seq<nat>, sl: Option<nat>, dl: Option<nat>)
    requires LinkState(orig, nodes, paths, queue, done) && |queue| > 0 && queue[0] < |nodes|
    requires ChildList(nodes, queue[0], kids)
    requires queue[0] == RootId ==> sl.None?
    requires queue[0] != RootId ==> sl.Some? && LongestTrieSuffix(paths, paths[queue[0]], |paths[queue[0]]|, sl.value)
    requires sl.None? ==> dl.None?
    requires sl.Some? ==> sl.value < |nodes| && dl == if nodes[sl.value].inDict then Some(sl.value) else nodes[sl.value].dictLink
    ensures LinkState(orig, Relinked(nodes, queue[0], sl, dl), paths, queue[1..] + kids, done + {queue[0]})
  {
    var k := queue[0];
    LinkReady(orig, nodes, paths, queue, done);
    assert ChildList(orig, k, kids);
    FrontierAdvance(orig, paths, queue, done, kids);
    if sl.Some? {
      assert nodes[sl.value].depth < nodes[k].depth;
    }
    LinkNode(orig, nodes, paths, done, k, sl, dl);
  }

  /** Node `k` gets its suffix link and then, from that link's node, its
      dictionary link; the finished nodes stay correctly linked. */
  lemma LinkNode(orig: seq<Node>, nodes: seq<Node>, paths: seq<string>, done: set<nat>,
                 k: nat, sl: Option<nat>, dl: Option<nat>)
    requires Shape(nodes, paths) && Same(orig, nodes) && k < |nodes| && k !in done
    requires forall j :: j in done ==> j < |nodes| && SuffixLinkOk(nodes, paths, j) && DictLinkOk(nodes, paths, j)
    requires k == RootId ==> sl.None?
    requires k != RootId ==> sl.Some? && LongestTrieSuffix(paths, paths[k], |paths[k]|, sl.value)
    requires sl.None? ==> dl.None?
    requires sl.Some? ==> sl.value < |nodes| && DictLinkOk(nodes, paths, sl.value)
    requires sl.Some? ==> dl == if nodes[sl.value].inDict then Some(sl.value) else nodes[sl.value].dictLink
    ensures var n := Relinked(nodes, k, sl, dl);
      && Same(orig, n)
      && forall j :: j in done + {k} ==> j < |n| && SuffixLinkOk(n, paths, j) && DictLinkOk(n, paths, j)
  {
    if sl.Some? {
      DictLinkFromSuffix(nodes, paths, k, sl.value);
    }
    RelinkStep(nodes, paths, done, k, sl, dl);
  }

  /** When the queue is empty every node is linked. */
  lemma LinkEnd(orig: seq<Node>, nodes: seq<Node>, paths: seq<string>, done: set<nat>)
    requires LinkState(orig, nodes, paths, [], done)
    ensures Shape(nodes, paths) && Linked(nodes, paths)
  {
    SameShape(orig, nodes, paths);
    forall k | 0 <= k < |nodes| ensures SuffixLinkOk(nodes, paths, k) && DictLinkOk(nodes, paths, k) {
      FrontierEnd(orig, paths, done, k);
    }
  }
}
