/** A name given on the command line, split into case-tagged tokens
    (src/name.rs). */
module Name {
  import opened Common

  /** One word of a name; an acronym is a word with no lower-case letter. */
  datatype Token = Token(value: string, isAcronym: bool)

  datatype Name = Name(tokens: seq<Token>)

  datatype ParsingError = MixedCaseToken(rawToken: string)

  /** The Unicode White_Space characters, the set `char::is_whitespace` tests. */
  predicate IsWhitespace(c: char) {
    || '\U{0009}' <= c <= '\U{000D}'
    || c == '\U{0020}' || c == '\U{0085}' || c == '\U{00A0}' || c == '\U{1680}'
    || '\U{2000}' <= c <= '\U{200A}'
    || c == '\U{2028}' || c == '\U{2029}' || c == '\U{202F}' || c == '\U{205F}' || c == '\U{3000}'
  }

  predicate NoWhitespace(s: string) {
    forall i :: 0 <= i < |s| ==> !IsWhitespace(s[i])
  }

  predicate AllWhitespace(s: string) {
    forall i :: 0 <= i < |s| ==> IsWhitespace(s[i])
  }

  /** `s` with its whitespace characters removed. */
  function NonWhitespace(s: string): string {
    if s == [] then []
    else if IsWhitespace(s[0]) then NonWhitespace(s[1..])
    else [s[0]] + NonWhitespace(s[1..])
  }

  /** The length of the run of non-whitespace characters that starts `s`. */
  function RunLength(s: string): (n: nat)
    ensures n <= |s|
    ensures NoWhitespace(s[..n])
    ensures n == |s| || IsWhitespace(s[n])
  {
    if s == [] || IsWhitespace(s[0]) then 0
    else
      var n := 1 + RunLength(s[1..]);
      assert s[..n] == [s[0]] + s[1..][..n - 1];
      n
  }

  /** The maximal runs of non-whitespace characters of `s`, in order
      (`str::split_whitespace`). */
  function SplitWhitespace(s: string): (chunks: seq<string>)
    ensures forall i :: 0 <= i < |chunks| ==> |chunks[i]| > 0 && NoWhitespace(chunks[i])
    ensures Concat(chunks) == NonWhitespace(s)
    decreases |s|
  {
    if s == [] then []
    else if IsWhitespace(s[0]) then SplitWhitespace(s[1..])
    else
      var n := RunLength(s);
      NonWhitespaceSplit(s, n);
      [s[..n]] + SplitWhitespace(s[n..])
  }

  lemma {:induction false} NonWhitespaceSplit(s: string, n: nat)
    requires n <= |s| && NoWhitespace(s[..n])
    ensures NonWhitespace(s) == s[..n] + NonWhitespace(s[n..])
  {
    if n > 0 {
      assert s[1..][..n - 1] == s[1..n];
      NonWhitespaceSplit(s[1..], n - 1);
      assert s[1..][n - 1..] == s[n..];
      assert s[..n] == [s[0]] + s[1..][..n - 1];
    }
  }

  /** True when some byte of `s` is an ASCII lower-case letter. In UTF-8 only
      ASCII characters are encoded with bytes below 0x80, so this is a test on
      the characters `a` to `z`. */
  predicate AnyLower(s: string) {
    s != [] && ('a' <= s[0] <= 'z' || AnyLower(s[1..]))
  }

  /** True when some byte of `s` is an ASCII upper-case letter. */
  predicate AnyUpper(s: string) {
    s != [] && ('A' <= s[0] <= 'Z' || AnyUpper(s[1..]))
  }

  lemma {:induction false} AnyLowerIff(s: string)
    ensures AnyLower(s) <==> exists i :: 0 <= i < |s| && 'a' <= s[i] <= 'z'
  {
    if s != [] {
      AnyLowerIff(s[1..]);
      if AnyLower(s[1..]) {
        var i :| 0 <= i < |s[1..]| && 'a' <= s[1..][i] <= 'z';
        assert s[i + 1] == s[1..][i];
      }
      if exists i :: 0 <= i < |s| && 'a' <= s[i] <= 'z' {
        var i :| 0 <= i < |s| && 'a' <= s[i] <= 'z';
        if i > 0 { assert s[1..][i - 1] == s[i]; }
      }
    }
  }

  predicate Mixed(s: string) {
    AnyLower(s) && AnyUpper(s)
  }

  /** The token made of one chunk, or the error that rejects it. */
  function ParseToken(raw: string): Result<Token, ParsingError> {
    if AnyLower(raw) && AnyUpper(raw) then Err(MixedCaseToken(raw))
    else Ok(Token(raw, !AnyLower(raw)))
  }

  /** The tokens of the chunks in order; the first rejected chunk stops the
      parse, as collecting into a `Result` does. */
  function ParseTokens(chunks: seq<string>): Result<seq<Token>, ParsingError> {
    if chunks == [] then Ok([])
    else
      match ParseToken(chunks[0])
      case Err(e) => Err(e)
      case Ok(t) =>
        match ParseTokens(chunks[1..])
        case Err(e) => Err(e)
        case Ok(ts) => Ok([t] + ts)
  }

  function Parse(rawName: string): Result<Name, ParsingError> {
    match ParseTokens(SplitWhitespace(rawName))
    case Ok(tokens) => Ok(Name(tokens))
    case Err(e) => Err(e)
  }

  function IsEmpty(name: Name): bool {
    name.tokens == []
  }

  /** The tokens of the name in their stored order. */
  function Singular(name: Name): seq<Token> {
    name.tokens
  }

  /** Parsing succeeds exactly when no chunk mixes lower and upper case; then
      token `i` holds chunk `i` verbatim and is an acronym exactly when the chunk
      has no lower-case letter. */
  lemma {:induction false} ParseTokensOk(chunks: seq<string>)
    ensures ParseTokens(chunks).Ok? <==> forall i :: 0 <= i < |chunks| ==> !Mixed(chunks[i])
    ensures ParseTokens(chunks).Ok? ==>
      var ts := ParseTokens(chunks).value;
      && |ts| == |chunks|
      && forall i :: 0 <= i < |ts| ==> ts[i] == Token(chunks[i], !AnyLower(chunks[i]))
  {
    if chunks != [] {
      ParseTokensOk(chunks[1..]);
      assert forall i :: 1 <= i < |chunks| ==> chunks[i] == chunks[1..][i - 1];
    }
  }

  /** A failed parse names the first chunk that mixes cases. */
  lemma {:induction false} ParseTokensErr(chunks: seq<string>)
    requires ParseTokens(chunks).Err?
    ensures exists i :: (0 <= i < |chunks| && FirstMixed(chunks, i)
      && ParseTokens(chunks).error == MixedCaseToken(chunks[i]))
  {
    if Mixed(chunks[0]) {
      assert FirstMixed(chunks, 0);
    } else {
      ParseTokensErr(chunks[1..]);
      var i :| 0 <= i < |chunks[1..]| && FirstMixed(chunks[1..], i)
        && ParseTokens(chunks[1..]).error == MixedCaseToken(chunks[1..][i]);
      assert FirstMixed(chunks, i + 1);
    }
  }

  /** Chunk `i` mixes cases and no chunk before it does. */
  predicate FirstMixed(chunks: seq<string>, i: nat)
    requires i < |chunks|
  {
    Mixed(chunks[i]) && forall j :: 0 <= j < i ==> !Mixed(chunks[j])
  }

  /** On success there is one token per whitespace-separated chunk of the raw
      name, in order, holding the chunk verbatim: non-empty and free of
      whitespace. */
  lemma ParseOk(rawName: string)
    ensures Parse(rawName).Ok? <==>
      forall i :: 0 <= i < |SplitWhitespace(rawName)| ==> !Mixed(SplitWhitespace(rawName)[i])
    ensures Parse(rawName).Ok? ==>
      var chunks, ts := SplitWhitespace(rawName), Parse(rawName).value.tokens;
      && |ts| == |chunks|
      && forall i :: 0 <= i < |ts| ==>
           && ts[i].value == chunks[i]
           && |ts[i].value| > 0 && NoWhitespace(ts[i].value)
           && (ts[i].isAcronym <==> !AnyLower(ts[i].value))
  {
    ParseTokensOk(SplitWhitespace(rawName));
  }

  /** A failed parse carries the first chunk with both lower- and upper-case
      ASCII letters. */
  lemma ParseErr(rawName: string)
    requires Parse(rawName).Err?
    ensures var chunks := SplitWhitespace(rawName);
      exists i :: (0 <= i < |chunks| && FirstMixed(chunks, i)
        && Parse(rawName).error == MixedCaseToken(chunks[i]))
  {
    ParseTokensErr(SplitWhitespace(rawName));
    assert Parse(rawName).error == ParseTokens(SplitWhitespace(rawName)).error;
  }

  lemma {:induction false} SplitEmptyIff(s: string)
    ensures SplitWhitespace(s) == [] <==> AllWhitespace(s)
    decreases |s|
  {
    if s != [] {
      if IsWhitespace(s[0]) {
        SplitEmptyIff(s[1..]);
        if AllWhitespace(s[1..]) {
          forall i | 0 <= i < |s| ensures IsWhitespace(s[i]) {
            if i > 0 { assert s[i] == s[1..][i - 1]; }
          }
        }
        if AllWhitespace(s) {
          assert forall i :: 0 <= i < |s[1..]| ==> s[1..][i] == s[i + 1];
        }
      }
    }
  }

  /** `gaps[0] + chunks[0] + gaps[1] + … + chunks[n - 1] + gaps[n]`. */
  function Interleave(gaps: seq<string>, chunks: seq<string>): string
    requires |gaps| == |chunks| + 1
    decreases |chunks|
  {
    if chunks == [] then gaps[0]
    else gaps[0] + chunks[0] + Interleave(gaps[1..], chunks[1..])
  }

  /** Chunks as `split_whitespace` cuts them: non-empty and whitespace-free,
      between gaps of whitespace of which only the two outer ones may be
      empty. */
  predicate Layout(gaps: seq<string>, chunks: seq<string>) {
    && |gaps| == |chunks| + 1
    && (forall i :: 0 <= i < |gaps| ==> AllWhitespace(gaps[i]))
    && (forall i :: 0 < i < |chunks| ==> gaps[i] != [])
    && (forall i :: 0 <= i < |chunks| ==> |chunks[i]| > 0 && NoWhitespace(chunks[i]))
  }

  /** The chunks of `s` are laid out in `s` between whitespace gaps. */
  lemma {:induction false} SplitLayout(s: string)
    ensures exists gaps :: Layout(gaps, SplitWhitespace(s)) && Interleave(gaps, SplitWhitespace(s)) == s
    decreases |s|
  {
    if s == [] {
      var gaps: seq<string> := [[]];
      assert SplitWhitespace(s) == [];
      assert Layout(gaps, []) && Interleave(gaps, []) == s;
    } else if IsWhitespace(s[0]) {
      SplitLayout(s[1..]);
      var chunks := SplitWhitespace(s[1..]);
      var g :| Layout(g, chunks) && Interleave(g, chunks) == s[1..];
      LayoutWhitespace(s[0], g, chunks, s[1..]);
      assert [s[0]] + s[1..] == s;
      var gaps := [[s[0]] + g[0]] + g[1..];
      assert Layout(gaps, SplitWhitespace(s)) && Interleave(gaps, SplitWhitespace(s)) == s;
    } else {
      var n := RunLength(s);
      var rest := SplitWhitespace(s[n..]);
      SplitLayout(s[n..]);
      var g :| Layout(g, rest) && Interleave(g, rest) == s[n..];
      LayoutChunk(s[..n], g, rest, s[n..]);
      assert s[..n] + s[n..] == s;
      assert Layout([[]] + g, SplitWhitespace(s)) && Interleave([[]] + g, SplitWhitespace(s)) == s;
    }
  }

  /** One more whitespace character joins the first gap. */
  lemma LayoutWhitespace(ch: char, g: seq<string>, chunks: seq<string>, t: string)
    requires IsWhitespace(ch) && Layout(g, chunks) && Interleave(g, chunks) == t
    ensures var gaps := [[ch] + g[0]] + g[1..];
      Layout(gaps, chunks) && Interleave(gaps, chunks) == [ch] + t
  {
    var gaps := [[ch] + g[0]] + g[1..];
    assert gaps[1..] == g[1..];
    forall i | 0 <= i < |gaps| ensures AllWhitespace(gaps[i]) {
      if i == 0 {
        assert AllWhitespace(g[0]);
      } else {
        assert gaps[i] == g[i];
      }
    }
    forall i | 0 < i < |chunks| ensures gaps[i] != [] {
      assert gaps[i] == g[i];
    }
    if chunks == [] {
      assert Interleave(gaps, chunks) == [ch] + g[0];
    } else {
      assert Interleave(gaps, chunks) == [ch] + (g[0] + chunks[0] + Interleave(g[1..], chunks[1..]));
    }
  }

  /** A chunk in front of text that is empty or starts with whitespace comes
      after an empty first gap. */
  lemma LayoutChunk(c: string, g: seq<string>, rest: seq<string>, t: string)
    requires |c| > 0 && NoWhitespace(c) && Layout(g, rest) && Interleave(g, rest) == t
    requires t == [] || IsWhitespace(t[0])
    ensures Layout([[]] + g, [c] + rest) && Interleave([[]] + g, [c] + rest) == c + t
  {
    var gaps, chunks := [[]] + g, [c] + rest;
    assert gaps[1..] == g && chunks[1..] == rest;
    forall i | 0 < i < |chunks| ensures gaps[i] != [] {
      assert gaps[i] == g[i - 1];
    }
    forall i | 0 <= i < |gaps| ensures AllWhitespace(gaps[i]) {
      if i > 0 { assert gaps[i] == g[i - 1]; }
    }
    forall i | 0 <= i < |chunks| ensures |chunks[i]| > 0 && NoWhitespace(chunks[i]) {
      if i > 0 { assert chunks[i] == rest[i - 1]; }
    }
    assert Interleave(gaps, chunks) == [] + c + t;
  }

  /** The chunks of any layout are what `split_whitespace` gives back: with
      SplitLayout, the split is the one sequence of chunks that can be laid out
      in `s` this way. */
  lemma {:induction false} LayoutSplit(gaps: seq<string>, chunks: seq<string>)
    requires Layout(gaps, chunks)
    ensures SplitWhitespace(Interleave(gaps, chunks)) == chunks
    decreases |chunks|
  {
    if chunks == [] {
      SplitEmptyIff(gaps[0]);
    } else {
      LayoutTail(gaps, chunks);
      var tail := Interleave(gaps[1..], chunks[1..]);
      SplitHead(gaps[0], chunks[0], tail);
      LayoutSplit(gaps[1..], chunks[1..]);
      assert chunks == [chunks[0]] + chunks[1..];
    }
  }

  /** A layout minus its first gap and chunk is a layout of the rest, which is
      empty or starts with whitespace. */
  lemma LayoutTail(gaps: seq<string>, chunks: seq<string>)
    requires Layout(gaps, chunks) && chunks != []
    ensures Layout(gaps[1..], chunks[1..])
    ensures Interleave(gaps, chunks) == gaps[0] + (chunks[0] + Interleave(gaps[1..], chunks[1..]))
    ensures var tail := Interleave(gaps[1..], chunks[1..]); tail == [] || IsWhitespace(tail[0])
  {
    var g, cs := gaps[1..], chunks[1..];
    forall i | 0 <= i < |g| ensures AllWhitespace(g[i]) {
      assert g[i] == gaps[i + 1];
    }
    forall i | 0 < i < |cs| ensures g[i] != [] {
      assert g[i] == gaps[i + 1];
    }
    forall i | 0 <= i < |cs| ensures |cs[i]| > 0 && NoWhitespace(cs[i]) {
      assert cs[i] == chunks[i + 1];
    }
    if cs != [] {
      assert g[0] == gaps[1] != [];
      assert Interleave(g, cs) == g[0] + (cs[0] + Interleave(g[1..], cs[1..]));
      assert AllWhitespace(g[0]);
    } else {
      assert AllWhitespace(g[0]);
    }
  }

  /** Whitespace, then a chunk that ends at the end or at whitespace: the
      chunk is the first one of the split. */
  lemma SplitHead(w: string, c: string, tail: string)
    requires AllWhitespace(w) && |c| > 0 && NoWhitespace(c)
    requires tail == [] || IsWhitespace(tail[0])
    ensures SplitWhitespace(w + (c + tail)) == [c] + SplitWhitespace(tail)
  {
    SplitSkipWhitespace(w, c + tail);
    var t := c + tail;
    assert t[..|c|] == c;
    assert |t| == |c| || t[|c|] == tail[0];
    SplitLeadingChunk(t, c);
    assert t[|c|..] == tail;
  }

  /** Leading whitespace does not change the split. */
  lemma {:induction false} SplitSkipWhitespace(w: string, t: string)
    requires AllWhitespace(w)
    ensures SplitWhitespace(w + t) == SplitWhitespace(t)
    decreases |w|
  {
    if w == [] {
      assert w + t == t;
    } else {
      assert (w + t)[0] == w[0] && (w + t)[1..] == w[1..] + t;
      SplitLeadingSpace(w + t);
      SplitSkipWhitespace(w[1..], t);
    }
  }

  /** A successfully parsed name is empty exactly when the raw name is empty or
      all whitespace. */
  lemma IsEmptyIff(rawName: string)
    requires Parse(rawName).Ok?
    ensures IsEmpty(Parse(rawName).value) <==> AllWhitespace(rawName)
  {
    ParseTokensOk(SplitWhitespace(rawName));
    SplitEmptyIff(rawName);
  }

  /** `Singular` hands back the parsed tokens in chunk order, unchanged. */
  lemma SingularInOrder(rawName: string)
    requires Parse(rawName).Ok?
    ensures var ts := Singular(Parse(rawName).value);
      |ts| == |SplitWhitespace(rawName)|
      && forall i :: 0 <= i < |ts| ==> ts[i].value == SplitWhitespace(rawName)[i]
  {
    ParseTokensOk(SplitWhitespace(rawName));
  }

  /** Chunks joined by single spaces. */
  function JoinSpaced(chunks: seq<string>): string {
    if chunks == [] then []
    else if |chunks| == 1 then chunks[0]
    else chunks[0] + " " + JoinSpaced(chunks[1..])
  }

  /** Splitting undoes joining with spaces: the chunks come back unchanged. */
  lemma {:induction false} SplitJoinSpaced(chunks: seq<string>)
    requires forall i :: 0 <= i < |chunks| ==> |chunks[i]| > 0 && NoWhitespace(chunks[i])
    ensures SplitWhitespace(JoinSpaced(chunks)) == chunks
  {
    if chunks != [] {
      var c := chunks[0];
      var s := JoinSpaced(chunks);
      assert s[..|c|] == c;
      RunIsChunk(s, c);
      if |chunks| == 1 {
        assert s[|c|..] == [];
      } else {
        SplitJoinSpaced(chunks[1..]);
        assert s[|c|..] == " " + JoinSpaced(chunks[1..]);
        var rest := s[|c|..];
        assert rest[1..] == JoinSpaced(chunks[1..]);
      }
    }
  }

  lemma RunIsChunk(s: string, c: string)
    requires |c| > 0 && NoWhitespace(c) && c <= s
    requires |s| == |c| || IsWhitespace(s[|c|])
    ensures RunLength(s) == |c|
  {
  }

  lemma SplitLeadingSpace(s: string)
    requires |s| > 0 && IsWhitespace(s[0])
    ensures SplitWhitespace(s) == SplitWhitespace(s[1..])
  {
  }

  lemma SplitLeadingChunk(s: string, c: string)
    requires |c| > 0 && NoWhitespace(c) && c <= s
    requires |s| == |c| || IsWhitespace(s[|c|])
    ensures SplitWhitespace(s) == [c] + SplitWhitespace(s[|c|..])
  {
    assert s[0] == c[0] && !IsWhitespace(c[0]);
    assert s[..|c|] == c;
    RunIsChunk(s, c);
  }

  /** `s` holds the chunk `c` between runs of single-space padding `pre` and `post`. */
  lemma SplitPadded(pre: nat, c: string, post: nat, s: string)
    requires |c| > 0 && NoWhitespace(c)
    requires s == seq(pre, _ => ' ') + c + seq(post, _ => ' ')
    ensures SplitWhitespace(s) == [c] + SplitWhitespace(seq(post, _ => ' '))
    decreases pre
  {
    if pre > 0 {
      SplitLeadingSpace(s);
      assert s[1..] == seq(pre - 1, _ => ' ') + c + seq(post, _ => ' ');
      SplitPadded(pre - 1, c, post, s[1..]);
    } else {
      assert s == c + seq(post, _ => ' ');
      SplitLeadingChunk(s, c);
      assert s[|c|..] == seq(post, _ => ' ');
    }
  }

  lemma SplitSpaces(n: nat)
    ensures SplitWhitespace(seq(n, _ => ' ')) == []
  {
    SplitEmptyIff(seq(n, _ => ' '));
  }

  /** Two chunks, each padded with spaces on the left. */
  lemma SplitTwo(a: string, b: string, s: string, p: nat, q: nat, r: nat)
    requires |a| > 0 && NoWhitespace(a) && |b| > 0 && NoWhitespace(b) && q > 0
    requires s == seq(p, _ => ' ') + a + seq(q, _ => ' ') + b + seq(r, _ => ' ')
    ensures SplitWhitespace(s) == [a, b]
  {
    var tail := seq(q, _ => ' ') + b + seq(r, _ => ' ');
    var n := p + |a|;
    assert s[..n] == seq(p, _ => ' ') + a;
    assert s[n..] == tail;
    NonWhitespaceFree(s, p, a, tail);
    SplitPadded(q, b, r, tail);
    SplitSpaces(r);
  }

  lemma NonWhitespaceFree(s: string, p: nat, a: string, tail: string)
    requires |a| > 0 && NoWhitespace(a)
    requires s == seq(p, _ => ' ') + a + tail
    requires |tail| > 0 && IsWhitespace(tail[0])
    ensures SplitWhitespace(s) == [a] + SplitWhitespace(tail)
    decreases p
  {
    if p > 0 {
      SplitLeadingSpace(s);
      assert s[1..] == seq(p - 1, _ => ' ') + a + tail;
      NonWhitespaceFree(s[1..], p - 1, a, tail);
    } else {
      assert s == a + tail;
      SplitLeadingChunk(s, a);
      assert s[|a|..] == tail;
    }
  }

  lemma ParseTokensCons(c: string, rest: seq<string>)
    ensures ParseTokens([c] + rest) ==
      match ParseToken(c)
      case Err(e) => Err(e)
      case Ok(t) => (match ParseTokens(rest) case Err(e) => Err(e) case Ok(ts) => Ok([t] + ts))
  {
    assert ([c] + rest)[1..] == rest;
  }

  lemma TokensFooBar()
    ensures ParseTokens(["foo", "BAR"]) == Ok([Token("foo", false), Token("BAR", true)])
  {
    assert !AnyLower("BAR") by { assert "BAR"[1..] == "AR" && "AR"[1..] == "R" && "R"[1..] == ""; }
    assert !AnyUpper("foo") by { assert "foo"[1..] == "oo" && "oo"[1..] == "o" && "o"[1..] == ""; }
    assert ParseToken("BAR") == Ok(Token("BAR", true));
    assert ParseToken("foo") == Ok(Token("foo", false));
    ParseTokensCons("BAR", []);
    assert ["BAR"] == ["BAR"] + [];
    assert ParseTokens([]) == Ok([]);
    assert [Token("BAR", true)] + [] == [Token("BAR", true)];
    assert ParseTokens(["BAR"]) == Ok([Token("BAR", true)]);
    ParseTokensCons("foo", ["BAR"]);
    assert ["foo", "BAR"] == ["foo"] + ["BAR"];
    assert [Token("foo", false)] + [Token("BAR", true)] == [Token("foo", false), Token("BAR", true)];
  }

  lemma TestSimple()
    ensures Parse(" foo  BAR ") == Ok(Name([Token("foo", false), Token("BAR", true)]))
  {
    assert " foo  BAR " == seq(1, _ => ' ') + "foo" + seq(2, _ => ' ') + "BAR" + seq(1, _ => ' ');
    SplitTwo("foo", "BAR", " foo  BAR ", 1, 2, 1);
    TokensFooBar();
  }

  lemma TestMixedCaseError()
    ensures Parse(" foo  Bar ") == Err(MixedCaseToken("Bar"))
  {
    assert " foo  Bar " == seq(1, _ => ' ') + "foo" + seq(2, _ => ' ') + "Bar" + seq(1, _ => ' ');
    SplitTwo("foo", "Bar", " foo  Bar ", 1, 2, 1);
    assert AnyLower("Bar") && AnyUpper("Bar");
    assert !AnyUpper("foo") by { assert "foo"[1..] == "oo" && "oo"[1..] == "o" && "o"[1..] == ""; }
    ParseTokensCons("Bar", []);
    ParseTokensCons("foo", ["Bar"]);
    assert ["foo", "Bar"] == ["foo"] + ["Bar"];
    assert ["Bar"] == ["Bar"] + [];
  }
}
