/** The Aho-Corasick transformer of src/transform.rs: a `Tree` whose node
    arena is built by inserting the patterns one by one and then linked
    breadth-first, and a `Transformer` that runs the automaton over each
    line of its input. The methods are proved against the value-level
    description in Trie (what a well-formed, correctly linked trie is) and
    Lines (what text the transformer writes). */
module AhoCorasick {
  import opened Common
  import opened Trie
  import opened Lines

  /** The node arena. `paths` is ghost: the string each node spells. */
  class Tree {
    var nodes: seq<Node>
    ghost var paths: seq<string>

    ghost predicate Valid()
      reads this
    {
      Shape(nodes, paths)
    }

    /** `Tree::new`: insert every pattern, then set the links. The trie
        spells exactly the prefixes of the patterns (and the empty string),
        and its `in_dict` nodes spell exactly the patterns. */
    constructor (patterns: seq<string>)
      requires forall i :: 0 <= i < |patterns| ==> |patterns[i]| <= MaxDepth
      ensures Valid() && Linked(nodes, paths)
      ensures Dict(nodes, paths) == set i | 0 <= i < |patterns| :: patterns[i]
      ensures TriePaths(paths) == Closure(patterns)
    {
      nodes := [Root];
      paths := [[]];
      new;
      assert paths[0] == [];
      assert TriePaths(paths) == {[]} == Closure(patterns[..0]);
      assert Dict(nodes, paths) == {};
      for i := 0 to |patterns|
        invariant Valid()
        invariant Dict(nodes, paths) == set j | 0 <= j < i :: patterns[j]
        invariant TriePaths(paths) == Closure(patterns[..i])
      {
        ghost var before := Dict(nodes, paths);
        Extend(patterns[i]);
        ClosureSnoc(patterns, i);
        assert patterns[..i + 1][..i] == patterns[..i];
        assert (set j | 0 <= j < i + 1 :: patterns[j]) == before + {patterns[i]};
      }
      assert patterns[..|patterns|] == patterns;
      ghost var unlinked := nodes;
      SetLinks();
      SameShape(unlinked, nodes, paths);
    }

    /** `spawn_chid`: a new node one level below `parentId`, reached by
        `letter`. The new node spells a string the trie did not spell. */
    method SpawnChild(parentId: nat, letter: char) returns (childId: nat)
      requires Valid() && parentId < |nodes|
      requires letter !in nodes[parentId].children && nodes[parentId].depth < MaxDepth
      modifies this
      ensures childId == |old(nodes)|
      ensures nodes == Spawned(old(nodes), parentId, letter)
      ensures paths == old(paths) + [old(paths)[parentId] + [letter]]
      ensures Valid()
      ensures paths[childId] !in old(TriePaths(paths))
      ensures TriePaths(paths) == old(TriePaths(paths)) + {paths[childId]}
      ensures Dict(nodes, paths) == old(Dict(nodes, paths))
    {
      SpawnShape(nodes, paths, parentId, letter);
      var parentDepth := nodes[parentId].depth;
      nodes := nodes + [Fresh(parentDepth + 1, parentId, letter)];
      childId := |nodes| - 1;
      nodes := nodes[parentId := nodes[parentId].(children := nodes[parentId].children[letter := childId])];
      paths := paths + [paths[parentId] + [letter]];
      assert nodes == Spawned(old(nodes), parentId, letter);
    }

    /** `extend`: walk `p` from the root, creating the missing tail, and mark
        the last node. The trie now also spells every prefix of `p`, and `p`
        joins the dictionary. */
    method Extend(p: string)
      requires Valid() && |p| <= MaxDepth
      modifies this
      ensures Valid()
      ensures Dict(nodes, paths) == old(Dict(nodes, paths)) + {p}
      ensures TriePaths(paths) == old(TriePaths(paths)) + Prefixes(p)
    {
      var nodeId: nat := RootId;
      var create := false;
      assert p[..0][..0] == [];
      assert Prefixes(p[..0]) == {[]};
      for idx := 0 to |p|
        invariant Valid()
        invariant nodeId < |nodes| && paths[nodeId] == p[..idx]
        invariant create ==> nodes[nodeId].children == map[]
        invariant Dict(nodes, paths) == old(Dict(nodes, paths))
        invariant TriePaths(paths) == old(TriePaths(paths)) + Prefixes(p[..idx])
      {
        var c := p[idx];
        PrefixesSnoc(p, idx);
        assert p[..idx + 1] == p[..idx] + [c];
        if !create && c !in nodes[nodeId].children {
          create := true;
        }
        if create {
          nodeId := SpawnChild(nodeId, c);
        } else {
          ChildPath(nodes, paths, nodeId, c);
          nodeId := nodes[nodeId].children[c];
          assert paths[nodeId] in TriePaths(paths);
        }
      }
      assert p[..|p|] == p;
      MarkShape(nodes, paths, nodeId);
      ghost var unmarked := nodes;
      nodes := nodes[nodeId := nodes[nodeId].(inDict := true)];
      assert nodes == Marked(unmarked, nodeId);
    }

    /** The suffix-link search of `set_links` for one node: from the
        parent, follow suffix links until some node has a child under the
        node's letter. Every node shallower than `nodeId` must already be
        linked; the result is the node spelling the longest proper suffix
        of `nodeId`'s string (`None` for the root). */
    method SuffixLinkOf(nodeId: nat) returns (link: Option<nat>)
      requires Valid() && nodeId < |nodes|
      requires forall k :: 0 <= k < |nodes| && nodes[k].depth < nodes[nodeId].depth ==> SuffixLinkOk(nodes, paths, k)
      ensures nodeId == RootId ==> link.None?
      ensures nodeId != RootId ==> link.Some? && LongestTrieSuffix(paths, paths[nodeId], |paths[nodeId]|, link.value)
    {
      if nodeId != RootId {
        assert ParentEdge(nodes, paths, nodeId);
      }
      match nodes[nodeId].parent
      case None =>
        link := None;
      case Some(parentId) =>
        var letter := nodes[nodeId].letter.value;
        ghost var t := paths[parentId];
        var traversing := parentId;
        var suffixLink := RootId;
        var found := false;
        while nodes[traversing].suffixLink.Some?
          invariant traversing < |nodes| && IsSuffix(paths[traversing], t) && |paths[traversing]| <= |t|
          invariant NoChildIn(nodes, paths, t, letter, |paths[traversing]|, |t|)
          invariant !found
          decreases |paths[traversing]|
        {
          FollowLink(nodes, paths, t, letter, traversing, |t|);
          traversing := nodes[traversing].suffixLink.value;
          if letter in nodes[traversing].children {
            suffixLink := nodes[traversing].children[letter];
            ChildFound(nodes, paths, t, letter, traversing, |t|);
            found := true;
            break;
          }
          NoChildAt(nodes, paths, t, letter, traversing, |t|);
        }
        if !found {
          ChildMissing(nodes, paths, t, letter, |t|);
        }
        link := Some(suffixLink);
    }

    /** `set_links`: visit the nodes breadth-first from the root, setting
        each node's suffix link and then its dictionary link from its suffix
        link's node. Only links change, and afterwards every link is
        correct. */
    method SetLinks()
      requires Valid()
      modifies this
      ensures Same(old(nodes), nodes) && paths == old(paths)
      ensures Valid() && Linked(nodes, paths)
    {
      var queue: seq<nat> := [RootId];
      ghost var done: set<nat> := {};
      ghost var unfinished: set<nat> := Below(|nodes|);
      LinkStart(nodes, paths);
      while |queue| > 0
        invariant paths == old(paths) && LinkState(old(nodes), nodes, paths, queue, done)
        invariant forall k: nat :: k in unfinished <==> k < |nodes| && k !in done
        decreases unfinished
      {
        ghost var nodeId := queue[0];
        queue := Visit(queue, old(nodes), done);
        done := done + {nodeId};
        unfinished := unfinished - {nodeId};
      }
      LinkEnd(old(nodes), nodes, paths, done);
    }

    /** One turn of the `set_links` loop: pop the front node, queue its
        children, and link it. */
    method Visit(queue: seq<nat>, ghost orig: seq<Node>, ghost done: set<nat>) returns (next: seq<nat>)
      requires |queue| > 0 && LinkState(orig, nodes, paths, queue, done)
      modifies this
      ensures paths == old(paths) && queue[0] < |nodes| && queue[0] !in done
      ensures LinkState(orig, nodes, paths, next, done + {queue[0]})
    {
      var nodeId := queue[0];
      LinkReady(orig, nodes, paths, queue, done);
      next := queue[1..];
      var kids := SetToSeq(nodes[nodeId].children.Values);
      next := next + kids;
      var suffixLink := SuffixLinkOf(nodeId);
      var dictLink := None;
      match suffixLink {
        case None =>
        case Some(s) =>
          dictLink := if nodes[s].inDict then Some(s) else nodes[s].dictLink;
      }
      LinkRound(orig, nodes, paths, queue, done, kids, suffixLink, dictLink);
      nodes := Relinked(nodes, nodeId, suffixLink, dictLink);
    }
  }

  /** The match rule of `transform` on the dictionary it was built from:
      once the automaton has stepped on `line[i]` to node `n`, the node
      `hit` that the rule picks spells the longest key ending at `i` that
      starts at `outPos` or later. */
  lemma MatchDict(nodes: seq<Node>, paths: seq<string>, dict: map<string, string>, line: string,
                  outPos: nat, i: nat, n: nat, hit: nat)
    requires Shape(nodes, paths) && Dict(nodes, paths) == dict.Keys && outPos <= i < |line|
    requires LongestTrieSuffix(paths, line[outPos..i] + [line[i]], i - outPos + 2, n) && DictLinkOk(nodes, paths, n)
    requires Some(hit) == if nodes[n].inDict then Some(n) else nodes[n].dictLink
    ensures hit < |nodes| && nodes[hit].depth == |paths[hit]|
    ensures paths[hit] in dict && IsSuffix(paths[hit], line[outPos..i + 1])
    ensures forall u {:trigger IsSuffix(u, line[outPos..i + 1])} ::
      u in dict && IsSuffix(u, line[outPos..i + 1]) ==> |u| <= |paths[hit]|
    ensures LongestTrieSuffix(paths, line[i + 1..i + 1], 1, RootId)
  {
    RootAfterReset(nodes, paths, line[i + 1..i + 1]);
    var w := line[outPos..i + 1];
    assert line[outPos..i] + [line[i]] == w;
    MatchKey(nodes, paths, w, n);
  }

  /** When the match rule picks no node after `line[i]`, no key ends at `i`
      (starting at `outPos` or later), and `n` still spells the longest trie
      suffix of what was read. */
  lemma MissDict(nodes: seq<Node>, paths: seq<string>, dict: map<string, string>, line: string,
                 outPos: nat, i: nat, n: nat)
    requires Shape(nodes, paths) && Dict(nodes, paths) == dict.Keys && outPos <= i < |line|
    requires LongestTrieSuffix(paths, line[outPos..i] + [line[i]], i - outPos + 2, n) && DictLinkOk(nodes, paths, n)
    requires !nodes[n].inDict && nodes[n].dictLink.None?
    ensures forall u {:trigger IsSuffix(u, line[outPos..i + 1])} :: u in dict ==> !IsSuffix(u, line[outPos..i + 1])
    ensures LongestTrieSuffix(paths, line[outPos..i + 1], i + 1 - outPos + 1, n)
  {
    var w := line[outPos..i + 1];
    assert line[outPos..i] + [line[i]] == w;
    MatchKey(nodes, paths, w, n);
  }

  /** One matched step of the line loop: writing what precedes the longest
      key ending at `i` and that key's replacement, then restarting after
      `i`, leaves the same rewrite still to do. */
  lemma EmitHit(nodes: seq<Node>, paths: seq<string>, dict: map<string, string>, line: string,
                outPos: nat, i: nat, n: nat, hit: nat)
    requires Shape(nodes, paths) && Dict(nodes, paths) == dict.Keys && outPos <= i < |line|
    requires LongestTrieSuffix(paths, line[outPos..i] + [line[i]], i - outPos + 2, n) && DictLinkOk(nodes, paths, n)
    requires Some(hit) == if nodes[n].inDict then Some(n) else nodes[n].dictLink
    ensures hit < |nodes| && outPos + nodes[hit].depth <= i + 1
    ensures line[i + 1 - nodes[hit].depth..i + 1] in dict
    ensures line[outPos..i + 1 - nodes[hit].depth] + dict[line[i + 1 - nodes[hit].depth..i + 1]]
        + RewriteFrom(dict, line[i + 1..], 1)
      == RewriteFrom(dict, line[outPos..], i - outPos + 1)
    ensures LongestTrieSuffix(paths, line[i + 1..i + 1], 1, RootId)
  {
    MatchDict(nodes, paths, dict, line, outPos, i, n, hit);
    LineMatchStep(dict, line, outPos, i, paths[hit]);
  }

  /** One unmatched step of the line loop: nothing is written, and the
      rewrite still to do is the same with the window grown by one. */
  lemma EmitMiss(nodes: seq<Node>, paths: seq<string>, dict: map<string, string>, line: string,
                 outPos: nat, i: nat, n: nat)
    requires Shape(nodes, paths) && Dict(nodes, paths) == dict.Keys && outPos <= i < |line|
    requires LongestTrieSuffix(paths, line[outPos..i] + [line[i]], i - outPos + 2, n) && DictLinkOk(nodes, paths, n)
    requires !nodes[n].inDict && nodes[n].dictLink.None?
    ensures LongestTrieSuffix(paths, line[outPos..i + 1], i + 1 - outPos + 1, n)
    ensures RewriteFrom(dict, line[outPos..], i + 1 - outPos + 1) == RewriteFrom(dict, line[outPos..], i - outPos + 1)
  {
    MissDict(nodes, paths, dict, line, outPos, i, n);
    LineSkipStep(dict, line, outPos, i);
  }

  /** The replacer built from a key/value list by `from_map`. */
  class Transformer {
    const dict: map<string, string>
    const tree: Tree

    ghost predicate Valid()
      reads this, tree
    {
      tree.Valid() && Linked(tree.nodes, tree.paths) && Dict(tree.nodes, tree.paths) == dict.Keys
    }

    /** `from_map`: the map keeps the last value given for each key; the
        tree is built from its keys, in an order the map chooses. */
    constructor FromMap(pairs: seq<(string, string)>)
      requires forall i :: 0 <= i < |pairs| ==> |pairs[i].0| <= MaxDepth
      ensures Valid()
      ensures dict == MapFromPairs(pairs)
    {
      var m := MapFromPairs(pairs);
      var keys := SetToSeq(m.Keys);
      forall i | 0 <= i < |keys| ensures |keys[i]| <= MaxDepth {
        assert keys[i] in m;
      }
      tree := new Tree(keys);
      dict := m;
      assert (set i | 0 <= i < |keys| :: keys[i]) == m.Keys by {
        forall u | u in m.Keys ensures u in (set i | 0 <= i < |keys| :: keys[i]) {
          var i :| 0 <= i < |keys| && keys[i] == u;
        }
      }
    }

    /** The inner `loop` of `transform`: from the node spelling the longest
        trie suffix of the text `w` read since the last reset, move to the
        node spelling the longest trie suffix of `w + [c]`. */
    method Step(node: nat, c: char, ghost w: string) returns (next: nat)
      requires Valid() && node < |tree.nodes|
      requires LongestTrieSuffix(tree.paths, w, |w| + 1, node)
      ensures LongestTrieSuffix(tree.paths, w + [c], |w| + 2, next)
    {
      var nodes := tree.nodes;
      ghost var paths := tree.paths;
      next := node;
      while true
        invariant next < |nodes| && IsSuffix(paths[next], w) && |paths[next]| <= |w|
        invariant NoChildIn(nodes, paths, w, c, |paths[next]| + 1, |w| + 1)
        decreases |paths[next]|
      {
        if c in nodes[next].children {
          ChildFound(nodes, paths, w, c, next, |w| + 1);
          next := nodes[next].children[c];
          break;
        }
        NoChildAt(nodes, paths, w, c, next, |w| + 1);
        assert SuffixLinkOk(nodes, paths, next);
        match nodes[next].suffixLink
        case Some(suffixLink) =>
          FollowLink(nodes, paths, w, c, next, |w| + 1);
          next := suffixLink;
        case None =>
          assert next == RootId;
          ChildMissing(nodes, paths, w, c, |w| + 1);
          break;
      }
    }

    /** `transform` on one line: step the automaton on each character and
        emit any match, then copy what is left after the last match. */
    method TransformLine(line: string) returns (out: string)
      requires Valid()
      ensures out == RewriteLine(dict, line)
    {
      out := [];
      var outPos := 0;
      var node: nat := RootId;
      for i := 0 to |line|
        invariant outPos <= i && node < |tree.nodes|
        invariant LongestTrieSuffix(tree.paths, line[outPos..i], i - outPos + 1, node)
        invariant out + RewriteFrom(dict, line[outPos..], i - outPos + 1) == RewriteLine(dict, line)
      {
        node := Step(node, line[i], line[outPos..i]);
        var written;
        written, outPos, node := Emit(line, i, outPos, node);
        AppendAssoc(out, written, RewriteFrom(dict, line[outPos..], i + 1 - outPos + 1));
        out := out + written;
      }
      LineEnd(dict, line, outPos);
      out := out + line[outPos..];
    }

    /** The match part of the character loop of `transform`, once the
        automaton has stepped on `line[i]` to `node`: when `node` is in the
        dictionary or has a dictionary link, write the text since the last
        match up to the key and then the key's value, and restart from the
        root. What is written, followed by the rewriting of the rest, is the
        rewriting of the line from `outPos` on. */
    method Emit(line: string, i: nat, outPos: nat, node: nat) returns (written: string, nextPos: nat, nextNode: nat)
      requires tree.Valid() && Dict(tree.nodes, tree.paths) == dict.Keys
      requires outPos <= i < |line| && node < |tree.nodes| && DictLinkOk(tree.nodes, tree.paths, node)
      requires LongestTrieSuffix(tree.paths, line[outPos..i] + [line[i]], i - outPos + 2, node)
      ensures outPos <= nextPos <= i + 1 && nextNode < |tree.nodes|
      ensures LongestTrieSuffix(tree.paths, line[nextPos..i + 1], i + 1 - nextPos + 1, nextNode)
      ensures written + RewriteFrom(dict, line[nextPos..], i + 1 - nextPos + 1) == RewriteFrom(dict, line[outPos..], i - outPos + 1)
    {
      var inDictNode := if tree.nodes[node].inDict then Some(node) else tree.nodes[node].dictLink;
      match inDictNode {
        case Some(hit) =>
          EmitHit(tree.nodes, tree.paths, dict, line, outPos, i, node, hit);
          var start := i + 1 - tree.nodes[hit].depth;
          written := line[outPos..start] + dict[line[start..i + 1]];
          nextPos := i + 1;
          nextNode := RootId;
        case None =>
          EmitMiss(tree.nodes, tree.paths, dict, line, outPos, i, node);
          written := [];
          nextPos := outPos;
          nextNode := node;
      }
    }

    /** `transform`: the input is read line by line as `read_line` cuts it,
        each line transformed on its own. */
    method Transform(input: string) returns (output: string)
      requires Valid()
      ensures output == RewriteText(dict, input)
    {
      output := [];
      var pos := 0;
      while pos < |input|
        invariant pos <= |input|
        invariant output + RewriteText(dict, input[pos..]) == RewriteText(dict, input)
        decreases |input| - pos
      {
        var rest := input[pos..];
        var n := LineLength(rest);
        var lineOut := TransformLine(input[pos..pos + n]);
        RewriteTextStep(dict, rest);
        assert rest[..n] == input[pos..pos + n] && rest[n..] == input[pos + n..];
        output := output + lineOut;
        pos := pos + n;
      }
    }
  }
}
