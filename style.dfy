/** Naming styles: a token sequence rendered in one case convention
    (src/style.rs). Case mapping is ASCII only. */
module Style {
  import opened Common
  import Name

  datatype Case = Lower | Upper | Title

  function ToLower(c: char): char {
    if 'A' <= c <= 'Z' then (c as int + 32) as char else c
  }

  function ToUpper(c: char): char {
    if 'a' <= c <= 'z' then (c as int - 32) as char else c
  }

  function LowerString(s: string): string {
    seq(|s|, i requires 0 <= i < |s| => ToLower(s[i]))
  }

  function UpperString(s: string): string {
    seq(|s|, i requires 0 <= i < |s| => ToUpper(s[i]))
  }

  /** First character upper case, every later one lower case. */
  function TitleString(s: string): string {
    if s == [] then [] else [ToUpper(s[0])] + LowerString(s[1..])
  }

  /** What `Case::format` makes of a whole string. */
  function Apply(c: Case, s: string): string {
    match c
    case Lower => LowerString(s)
    case Upper => UpperString(s)
    case Title => TitleString(s)
  }

  /** What case `c` does to the character at index `i`. */
  function CharCase(c: Case, i: nat, ch: char): char {
    match c
    case Lower => ToLower(ch)
    case Upper => ToUpper(ch)
    case Title => if i == 0 then ToUpper(ch) else ToLower(ch)
  }

  /** `Case::format`: the title case is built character by character. */
  method Format(c: Case, s: string) returns (r: string)
    ensures |r| == |s|
    ensures forall i :: 0 <= i < |s| ==> r[i] == CharCase(c, i, s[i])
    ensures r == Apply(c, s)
  {
    match c {
      case Lower => r := LowerString(s);
      case Upper => r := UpperString(s);
      case Title =>
        r := [];
        var i := 0;
        if i < |s| {
          r := r + [ToUpper(s[i])];
          i := i + 1;
        }
        while i < |s|
          invariant |s| > 0 ==> 1 <= i
          invariant i <= |s| && |r| == i
          invariant forall j :: 0 <= j < i ==> r[j] == CharCase(Title, j, s[j])
        {
          r := r + [ToLower(s[i])];
          i := i + 1;
        }
        ApplyAt(c, s);
    }
  }

  lemma ApplyAt(c: Case, s: string)
    ensures |Apply(c, s)| == |s|
    ensures forall i :: 0 <= i < |s| ==> Apply(c, s)[i] == CharCase(c, i, s[i])
  {
  }

  lemma UpperLower(ch: char)
    ensures ToLower(ToLower(ch)) == ToLower(ch) && ToUpper(ToUpper(ch)) == ToUpper(ch)
    ensures ToUpper(ToLower(ch)) == ToUpper(ch) && ToLower(ToUpper(ch)) == ToLower(ch)
  {
  }

  /** Formatting twice with the same case changes nothing more. */
  lemma ApplyIdempotent(c: Case, s: string)
    ensures Apply(c, Apply(c, s)) == Apply(c, s)
  {
    var t := Apply(c, s);
    ApplyAt(c, s);
    ApplyAt(c, t);
    forall i | 0 <= i < |s| ensures Apply(c, t)[i] == t[i] {
      UpperLower(s[i]);
    }
  }

  /** A naming style: the case of the first token and of the others, whether
      acronyms are forced to upper case, and the separator between tokens. */
  datatype NamingStyle = NamingStyle(firstCase: Case, otherCase: Case, upperAcronyms: bool, separator: string)

  /** The case used for token `i`; the acronym rule comes first, even for the
      first token. */
  function CaseFor(style: NamingStyle, i: nat, t: Name.Token): Case {
    if style.upperAcronyms && t.isAcronym then Upper
    else if i == 0 then style.firstCase
    else style.otherCase
  }

  /** The parts with `sep` between each two neighbours (`[String]::join`). */
  function Join(parts: seq<string>, sep: string): string {
    if parts == [] then []
    else if |parts| == 1 then parts[0]
    else parts[0] + sep + Join(parts[1..], sep)
  }

  function FormatTokens(style: NamingStyle, tokens: seq<Name.Token>): seq<string> {
    seq(|tokens|, i requires 0 <= i < |tokens| => Apply(CaseFor(style, i, tokens[i]), tokens[i].value))
  }

  /** `SimpleNamingStyle::format`. */
  function FormatName(style: NamingStyle, tokens: seq<Name.Token>): string {
    Join(FormatTokens(style, tokens), style.separator)
  }

  /** The four styles in their fixed order: snake_case, UPPER_CASE, camelCase,
      TitleCase. */
  const STYLES: seq<NamingStyle> := [
    NamingStyle(Lower, Lower, false, "_"),
    NamingStyle(Upper, Upper, false, "_"),
    NamingStyle(Lower, Title, true, ""),
    NamingStyle(Title, Title, true, "")
  ]

  function TotalLength(parts: seq<string>): nat {
    if parts == [] then 0 else |parts[0]| + TotalLength(parts[1..])
  }

  /** `k` parts joined carry `k - 1` separators; no parts give the empty string. */
  lemma {:induction false} JoinLength(parts: seq<string>, sep: string)
    ensures parts == [] ==> Join(parts, sep) == []
    ensures parts != [] ==> |Join(parts, sep)| == TotalLength(parts) + (|parts| - 1) * |sep|
  {
    if |parts| > 1 {
      JoinLength(parts[1..], sep);
    }
  }

  /** The number of occurrences of `ch` in `s`. */
  function Count(ch: char, s: string): nat {
    if s == [] then 0 else (if s[0] == ch then 1 else 0) + Count(ch, s[1..])
  }

  lemma {:induction false} CountAppend(ch: char, a: string, b: string)
    ensures Count(ch, a + b) == Count(ch, a) + Count(ch, b)
  {
    if a == [] {
      assert a + b == b;
    } else {
      assert (a + b)[1..] == a[1..] + b && (a + b)[0] == a[0];
      CountAppend(ch, a[1..], b);
    }
  }

  predicate Lacks(ch: char, s: string) {
    forall i :: 0 <= i < |s| ==> s[i] != ch
  }

  lemma {:induction false} CountLacks(ch: char, s: string)
    requires Lacks(ch, s)
    ensures Count(ch, s) == 0
  {
    if s != [] {
      assert Lacks(ch, s[1..]);
      CountLacks(ch, s[1..]);
    }
  }

  /** With a one-character separator that no part contains, the joined string
      holds exactly `k - 1` separators. */
  lemma {:induction false} JoinCount(parts: seq<string>, sep: char)
    requires parts != []
    requires forall i :: 0 <= i < |parts| ==> Lacks(sep, parts[i])
    ensures Count(sep, Join(parts, [sep])) == |parts| - 1
  {
    CountLacks(sep, parts[0]);
    if |parts| > 1 {
      JoinCount(parts[1..], sep);
      CountAppend(sep, parts[0], [sep]);
      CountAppend(sep, parts[0] + [sep], Join(parts[1..], [sep]));
    }
  }

  lemma {:induction false} CaseKeepsNonLetter(c: Case, s: string, ch: char)
    requires !('a' <= ch <= 'z') && !('A' <= ch <= 'Z')
    requires Lacks(ch, s)
    ensures Lacks(ch, Apply(c, s))
  {
    ApplyAt(c, s);
  }

  /** A name formatted with a one-character separator (not a letter) that its
      tokens do not contain has one separator fewer than it has tokens, and is
      as long as its tokens plus those separators. */
  lemma FormatSeparators(style: NamingStyle, tokens: seq<Name.Token>, sep: char)
    requires style.separator == [sep] && !('a' <= sep <= 'z') && !('A' <= sep <= 'Z')
    requires tokens != []
    requires forall i :: 0 <= i < |tokens| ==> Lacks(sep, tokens[i].value)
    ensures Count(sep, FormatName(style, tokens)) == |tokens| - 1
  {
    var parts := FormatTokens(style, tokens);
    forall i | 0 <= i < |parts| ensures Lacks(sep, parts[i]) {
      CaseKeepsNonLetter(CaseFor(style, i, tokens[i]), tokens[i].value, sep);
    }
    JoinCount(parts, sep);
  }

  /** Every token keeps its length, so the name is as long as its tokens plus
      the separators between them. */
  lemma FormatLength(style: NamingStyle, tokens: seq<Name.Token>)
    ensures tokens == [] ==> FormatName(style, tokens) == []
    ensures tokens != [] ==> (|FormatName(style, tokens)| ==
      TotalLength(seq(|tokens|, i requires 0 <= i < |tokens| => tokens[i].value))
      + (|tokens| - 1) * |style.separator|)
  {
    var parts := FormatTokens(style, tokens);
    JoinLength(parts, style.separator);
    forall i | 0 <= i < |tokens| ensures |parts[i]| == |tokens[i].value| {
      ApplyAt(CaseFor(style, i, tokens[i]), tokens[i].value);
    }
    TotalLengthSame(parts, seq(|tokens|, i requires 0 <= i < |tokens| => tokens[i].value));
  }

  lemma {:induction false} TotalLengthSame(a: seq<string>, b: seq<string>)
    requires |a| == |b| && forall i :: 0 <= i < |a| ==> |a[i]| == |b[i]|
    ensures TotalLength(a) == TotalLength(b)
  {
    if a != [] {
      TotalLengthSame(a[1..], b[1..]);
    }
  }

  /** In a style that upper-cases acronyms an acronym token comes out all upper
      case, also when it is the first token; otherwise the first token takes the
      first case and the rest the other case. */
  lemma FormatTokenCase(style: NamingStyle, tokens: seq<Name.Token>, i: nat)
    requires i < |tokens|
    ensures |FormatTokens(style, tokens)| == |tokens|
    ensures style.upperAcronyms && tokens[i].isAcronym ==>
      FormatTokens(style, tokens)[i] == UpperString(tokens[i].value)
    ensures !(style.upperAcronyms && tokens[i].isAcronym) ==>
      FormatTokens(style, tokens)[i] ==
        Apply(if i == 0 then style.firstCase else style.otherCase, tokens[i].value)
  {
  }

  /** Upper-casing leaves no lower-case letter, and changes nothing in a
      string that has none. */
  lemma UpperNoLower(s: string)
    ensures !Name.AnyLower(UpperString(s))
    ensures !Name.AnyLower(s) ==> UpperString(s) == s
  {
    var u := UpperString(s);
    Name.AnyLowerIff(u);
    Name.AnyLowerIff(s);
    if !Name.AnyLower(s) {
      forall i | 0 <= i < |s| ensures u[i] == s[i] {
        assert !('a' <= s[i] <= 'z');
      }
    }
  }

  /** In a style that upper-cases acronyms, an acronym token, the first one
      included, comes out with no lower-case letter; one as parsed (with no
      lower-case letter to begin with) comes out exactly as written. */
  lemma AcronymsStayUpper(style: NamingStyle, tokens: seq<Name.Token>, i: nat)
    requires i < |tokens| && style.upperAcronyms && tokens[i].isAcronym
    ensures |FormatTokens(style, tokens)| == |tokens|
    ensures !Name.AnyLower(FormatTokens(style, tokens)[i])
    ensures !Name.AnyLower(tokens[i].value) ==> FormatTokens(style, tokens)[i] == tokens[i].value
  {
    FormatTokenCase(style, tokens, i);
    UpperNoLower(tokens[i].value);
  }

  /** A two-token name is the two formatted tokens around the separator. */
  lemma FormatTwo(style: NamingStyle, t0: Name.Token, t1: Name.Token)
    ensures FormatName(style, [t0, t1])
      == Apply(CaseFor(style, 0, t0), t0.value) + style.separator + Apply(CaseFor(style, 1, t1), t1.value)
  {
    var parts := FormatTokens(style, [t0, t1]);
    assert parts[1..] == [parts[1]];
    assert Join(parts[1..], style.separator) == parts[1];
    assert parts[0] == Apply(CaseFor(style, 0, t0), t0.value);
    assert parts[1] == Apply(CaseFor(style, 1, t1), t1.value);
  }

  /** A three-token name is the three formatted tokens with a separator
      between each two. */
  lemma FormatThree(style: NamingStyle, t0: Name.Token, t1: Name.Token, t2: Name.Token)
    ensures FormatName(style, [t0, t1, t2])
      == Apply(CaseFor(style, 0, t0), t0.value) + style.separator
        + (Apply(CaseFor(style, 1, t1), t1.value) + style.separator + Apply(CaseFor(style, 2, t2), t2.value))
  {
    var parts := FormatTokens(style, [t0, t1, t2]);
    assert parts[1..][1..] == [parts[2]];
    assert Join(parts[1..][1..], style.separator) == parts[2];
    assert Join(parts[1..], style.separator) == parts[1] + style.separator + parts[2];
    assert parts[0] == Apply(CaseFor(style, 0, t0), t0.value);
    assert parts[1] == Apply(CaseFor(style, 1, t1), t1.value);
    assert parts[2] == Apply(CaseFor(style, 2, t2), t2.value);
  }

  lemma TestSimpleStyle()
    ensures FormatName(NamingStyle(Lower, Title, true, "_"),
      [Name.Token("protocol", false), Name.Token("named", false), Name.Token("tcp", true)])
      == "protocol_Named_TCP"
  {
    var style := NamingStyle(Lower, Title, true, "_");
    FormatThree(style, Name.Token("protocol", false), Name.Token("named", false), Name.Token("tcp", true));
    assert Apply(Lower, "protocol") == "protocol";
    assert Apply(Title, "named") == "Named";
    assert Apply(Upper, "tcp") == "TCP";
  }

  /** The four styles on the name "protocol TCP": each entry's cases, acronym
      rule and separator show in its output. */
  lemma StylesOnExample()
    ensures |STYLES| == 4
    ensures FormatName(STYLES[0], [Name.Token("protocol", false), Name.Token("TCP", true)]) == "protocol_tcp"
    ensures FormatName(STYLES[1], [Name.Token("protocol", false), Name.Token("TCP", true)]) == "PROTOCOL_TCP"
    ensures FormatName(STYLES[2], [Name.Token("protocol", false), Name.Token("TCP", true)]) == "protocolTCP"
    ensures FormatName(STYLES[3], [Name.Token("protocol", false), Name.Token("TCP", true)]) == "ProtocolTCP"
  {
    var t0, t1 := Name.Token("protocol", false), Name.Token("TCP", true);
    ProtocolCases();
    FormatTwo(STYLES[0], t0, t1);
    FormatTwo(STYLES[1], t0, t1);
    FormatTwo(STYLES[2], t0, t1);
    FormatTwo(STYLES[3], t0, t1);
  }

  lemma ProtocolCases()
    ensures Apply(Lower, "protocol") == "protocol" && Apply(Upper, "protocol") == "PROTOCOL"
    ensures Apply(Title, "protocol") == "Protocol"
    ensures Apply(Lower, "TCP") == "tcp" && Apply(Upper, "TCP") == "TCP"
  {
    assert Apply(Lower, "protocol") == "protocol";
    assert Apply(Upper, "protocol") == "PROTOCOL";
    assert LowerString("rotocol") == "rotocol";
    assert Apply(Lower, "TCP") == "tcp";
    assert Apply(Upper, "TCP") == "TCP";
  }
}
