# refren: a Dafny model of the name-rewriting core

refren rewrites every spelling of a name in a text. The name (for instance
`protocol TCP`) is split into case-tagged tokens. Each token is formatted in a
set of naming styles (`snake_case`, `UPPER_CASE`, `camelCase`, `TitleCase`),
which gives a map from each spelling of the old name to the same spelling of
the new one. A text transformer then applies that map to an input stream.

There are two transformers:

- the Aho-Corasick transformer of `src/transform.rs`, which reads the input
  line by line and drives a trie automaton with suffix links and dictionary
  links;
- the greedy `SimpleReplacer` of `src/replace.rs`, which scans the whole
  content from left to right.

The modules follow the source files:

| module | file | models |
|---|---|---|
| `Name` | `name.dfy` | `src/name.rs`: tokens, `Name::parse`, `is_empty`, `singular`, the mixed-case error |
| `Style` | `style.dfy` | `src/style.rs`: `Case::format` (an imperative `Format` method against the function `Apply`), `SimpleNamingStyle::format`, `STYLES` |
| `Trie` | `trie.dfy` | the node arena of `src/transform.rs` as values: what a well-formed trie is, what correct suffix and dictionary links are, and the steps of the breadth-first linking |
| `Lines` | `lines.dfy` | the text the automaton transformer writes, stated without the automaton (`RewriteText`) |
| `AhoCorasick` | `ahocorasick.dfy` | `Tree` (`new`, `spawn_chid`, `extend`, `set_links`) and `Transformer` (`from_map`, `transform`) as classes with loops, proved against `Trie` and `Lines` |
| `Replace` | `replace.dfy` | the greedy semantics `Replaced` and the `SimpleReplacer` class |
| `ReplaceBytes` | `replace_bytes.dfy` | the replacer loop on UTF-8 bytes as it is written (see Findings) |
| `Examples`, `PolicyExamples` | `examples.dfy` | the transformer's own test, and small inputs that show its matching policy |
| `Common` | `common.dfy` | shared helpers |

Text is modelled as `seq<char>`, one element per Unicode scalar value. A
`HashMap` becomes a Dafny `map`. Where the source iterates over a map, the
model uses an explicit sequence of its keys. That sequence is chosen when
the object is built and stands for the map's unspecified iteration order.

## Model

| member | source | states |
|---|---|---|
| Name.SplitWhitespace | src/name.rs:17-18 | the chunks are non-empty, contain no whitespace, and together spell the input with its whitespace removed |
| Name.SplitLayout | src/name.rs:17-18 | the input is its chunks laid out between whitespace gaps, only the outer two of which may be empty |
| Name.LayoutSplit | src/name.rs:17-18 | any chunks laid out that way between whitespace gaps are exactly what splitting gives back, so the split is the only such layout |
| Name.SplitJoinSpaced | src/name.rs:17-18 | splitting chunks that were joined by single spaces gives back exactly those chunks |
| Name.SplitEmptyIff | src/name.rs:17-18 | splitting gives no chunk exactly when the input is all whitespace |
| Name.AnyLowerIff | src/name.rs:20 | `any_lower` holds exactly when some character is an ASCII lower-case letter |
| Name.ParseTokensOk | src/name.rs:19-32 | the collected tokens are `Ok` exactly when no chunk mixes cases; then there is one token per chunk, holding the chunk, and it is an acronym exactly when the chunk has no lower-case letter |
| Name.ParseTokensErr | src/name.rs:22-25 | on error, the error names the first chunk that mixes lower and upper case |
| Name.ParseOk | src/name.rs:16-37 | `parse` succeeds exactly when no whitespace-separated token mixes cases; then the tokens are the chunks in order, each non-empty, without whitespace, with `is_acronym` exactly when it has no lower-case letter |
| Name.ParseErr | src/name.rs:16-37 | a failed `parse` reports `MixedCaseToken` for the first offending chunk |
| Name.IsEmptyIff | src/name.rs:38-40 | a parsed name is empty exactly when the raw name is all whitespace |
| Name.SingularInOrder | src/name.rs:41-43 | `singular` yields one token per chunk of the raw name, in order |
| Name.TestSimple | src/name.rs:73-89 | `" foo  BAR "` parses to `foo` (not an acronym) and `BAR` (an acronym) |
| Name.TestMixedCaseError | src/name.rs:91-100 | `" foo  Bar "` fails with `MixedCaseToken("Bar")` |
| Style.Format | src/style.rs:12-28 | the result has the input's length, and each character is the input character in the case chosen for its position: lower, upper, or upper for the first and lower for the rest |
| Style.ApplyAt | src/style.rs:12-28 | the same per-character description of the functional `Apply`, which the rest of the model uses |
| Style.ApplyIdempotent | src/style.rs:12-28 | formatting a string twice in one case gives the same result as formatting it once |
| Style.AcronymsStayUpper | src/style.rs:49 | in a style that upper-cases acronyms, an acronym token, the first one included, comes out with no lower-case letter, and exactly as written when it had none |
| Style.UpperNoLower | src/style.rs:15 | upper-casing leaves no lower-case letter and changes nothing in a string that has none |
| Style.FormatLength | src/style.rs:43-54 | the formatted name is as long as all token values together plus one separator between each pair of neighbours, and empty for no tokens |
| Style.JoinLength | src/style.rs:54 | `join` adds one separator between each pair of neighbouring parts |
| Style.JoinCount | src/style.rs:54 | joining parts that do not contain the separator character gives exactly one fewer separator than parts |
| Style.CaseKeepsNonLetter | src/style.rs:12-28 | case formatting never introduces a non-letter character that the input lacks |
| Style.FormatSeparators | src/style.rs:43-54 | with a one-character, non-letter separator absent from the tokens, a formatted name of `n` tokens holds exactly `n - 1` separators |
| Style.FormatTwo | src/style.rs:43-54 | a two-token name is the first token in its chosen case, the separator, then the second token in its chosen case |
| Style.FormatThree | src/style.rs:43-54 | the same for three tokens |
| Style.TestSimpleStyle | src/style.rs:89-112 | lower first, title after, upper acronyms, `_` turns `protocol named tcp` into `protocol_Named_TCP` |
| Style.StylesOnExample | src/style.rs:58-87 | the four `STYLES` turn `protocol TCP` into `protocol_tcp`, `PROTOCOL_TCP`, `protocolTCP` and `ProtocolTCP` |
| Trie.SamePathSameNode | src/transform.rs:55-84 | in a well-formed trie no two nodes spell the same string |
| Trie.WalkReachesPath | src/transform.rs:74-81 | following child edges along the string a node spells leads from the root to that node |
| Trie.ChildPath | src/transform.rs:67 | the child under letter `c` spells its parent's string followed by `c` |
| Trie.PathChild | src/transform.rs:74-81 | a node whose string is another node's string plus `c` is that node's child under `c` |
| Trie.SpawnShape | src/transform.rs:55-69 | adding a child for a missing letter keeps the trie well formed, adds exactly one new string, and leaves the key set alone |
| Trie.MarkShape | src/transform.rs:83 | marking a node `in_dict` keeps the trie well formed and adds exactly that node's string to the key set |
| Trie.ClosureSnoc | src/transform.rs:49-51 | inserting one more pattern adds exactly its prefixes to the strings the trie spells |
| Trie.FollowLink | src/transform.rs:97-100 | following a correct suffix link gives a strictly shorter suffix node, and no node in between has a child under the label |
| Trie.ChildFound | src/transform.rs:101-106 | the first suffix node on the chain that has a child under `c` gives the longest trie suffix of the string extended by `c` |
| Trie.ChildMissing | src/transform.rs:96-108 | when no suffix node has a child under `c`, the root is the longest trie suffix |
| Trie.ReachDict | src/transform.rs:112-119 | the node itself when it is a key, else its dictionary link, is the longest key that is a suffix of what was read |
| Trie.MatchKey | src/transform.rs:162-166 | the node chosen as `in_dict_node_maybe` is missing exactly when no key is a suffix of what was read; otherwise it spells the longest such key and its depth is that key's length |
| Trie.RelinkStep | src/transform.rs:91-119 | writing correct links for one node keeps the trie's shape and the links already written |
| Trie.FrontierAdvance | src/transform.rs:86-89 | popping the queue front and pushing its children keeps the breadth-first frontier: no repeats, nothing visited twice, depths non-decreasing |
| Trie.FrontierEnd | src/transform.rs:88 | when the queue is empty every node has been visited |
| AhoCorasick.Tree.constructor | src/transform.rs:37-54 | the built trie is well formed and fully linked, its keys are exactly the patterns, and the strings it spells are exactly the patterns' prefixes |
| AhoCorasick.Tree.SpawnChild | src/transform.rs:55-69 | the new node is appended last with depth one more than its parent and the parent gains the edge; the trie stays well formed with one new string and the same key set |
| AhoCorasick.Tree.Extend | src/transform.rs:70-84 | inserting a pattern adds it to the key set and adds exactly its prefixes to the strings the trie spells |
| AhoCorasick.Tree.SuffixLinkOf | src/transform.rs:91-110 | the root has no suffix link; any other node's link is the node spelling the longest proper suffix of its string that the trie holds |
| AhoCorasick.Tree.SetLinks | src/transform.rs:85-121 | after the breadth-first pass every node has correct suffix and dictionary links, and nothing else about the nodes has changed |
| AhoCorasick.Tree.Visit | src/transform.rs:88-119 | one round of the queue links the front node correctly and keeps the frontier invariant |
| AhoCorasick.MatchDict | src/transform.rs:162-166 | the chosen dictionary node spells a key that is a suffix of the characters read since the last reset, and no longer key is |
| AhoCorasick.MissDict | src/transform.rs:162-167 | when no dictionary node is chosen, no key is a suffix of the characters read since the last reset |
| AhoCorasick.EmitHit | src/transform.rs:167-180 | on a match, the gap before the key, the key's value, and the rewrite of the rest of the line make up the rewrite from the last reset, and the automaton restarts at the root |
| AhoCorasick.EmitMiss | src/transform.rs:162-167 | with no match, nothing is written and the rewrite from the last reset is unchanged |
| AhoCorasick.Transformer.FromMap | src/transform.rs:130-134 | the transformer's map is the map built from the pairs, the last pair winning for a repeated key, and its trie holds exactly the map's keys, correctly linked |
| AhoCorasick.Transformer.Step | src/transform.rs:150-161 | after reading `c`, the automaton is at the node spelling the longest suffix of what was read that the trie holds |
| AhoCorasick.Transformer.Emit | src/transform.rs:162-180 | what is written now, followed by the rewrite of the rest from the new position, equals the rewrite from the old position |
| AhoCorasick.Transformer.TransformLine | src/transform.rs:142-182 | the output for one line is `RewriteLine` of that line |
| AhoCorasick.Transformer.Transform | src/transform.rs:138-186 | the output is `RewriteText` of the input, line by line as `read_line` cuts it |
| Lines.LineLengthSpec | src/transform.rs:141 | a line ends at and includes the first `\n`, or at the end of the input |
| Lines.BreakInsideKey | src/transform.rs:141-166 | a key with a `\n` before its last character is never a suffix of any prefix of a line, so no line can match it |
| Lines.LongestKeySuffixSpec | src/transform.rs:162-166 | the longest key that is a suffix, or none exactly when no key is a suffix |
| Lines.RewriteTextAppend | src/transform.rs:141-184 | rewriting distributes over concatenation after a line break: no match crosses a `\n` |
| Lines.LineMatchStep | src/transform.rs:167-180 | where the longest key that is a suffix ends, the gap is copied, the key is replaced by its value, and reading restarts after it |
| Lines.LineSkipStep | src/transform.rs:162-167 | where no key is a suffix, reading continues with nothing written |
| Lines.RewriteTextNoMatch | src/transform.rs:138-186 | a text containing no key is written unchanged |
| Lines.RewriteLineSingle | src/transform.rs:162-182 | a line with exactly one key occurrence has just that occurrence replaced |
| Lines.RewriteTextGrowth | src/transform.rs:138-186 | the output is at most `1 + bound` times as long as the input when every value is at most `bound` long |
| Examples.TestTransformer | src/transform.rs:189-200 | with `aa`, `:)` and the cat emoji, `"Whaaat? :)\n😺"` becomes `"Whaaaat? 😊\na cat"` |
| PolicyExamples.EarliestEnd | src/transform.rs:162-180 | a key is replaced as soon as it ends: with `abcd` and `bc`, `abcd` becomes `aYd` |
| PolicyExamples.LongestAtEnd | src/transform.rs:162-166 | of the keys ending at one position the longest wins: with `abc` and `bc`, `abc` becomes `X` |
| PolicyExamples.NoMatchAcrossLines | src/transform.rs:141 | a key with a `\n` before its last character never matches: with the key `a\nb`, the text `a\nb` is unchanged, though read as one line it would be replaced |
| PolicyExamples.NewlineAtKeyEnd | src/transform.rs:141-182 | a key whose only `\n` is its last character does match: with the key `a\n`, the text `a\n` becomes the value |
| PolicyExamples.PoliciesDiffer | src/transform.rs:162-180 | on `abc` with `abc` and `b` the automaton writes `aYc` and the greedy replacer writes `X` |
| Replace.FindPrefix | src/replace.rs:33 | the key found is in the order and starts the text; none is found exactly when no key starts the text |
| Replace.FindPrefixFirst | src/replace.rs:33 | the key found is the first one in the order that starts the text |
| Replace.ReplacedIdentity | src/replace.rs:22-45 | content in which no key occurs anywhere is written unchanged |
| Replace.ReplacedGrowth | src/replace.rs:22-45 | the output is at most `bound` times as long as the content when every value is at most `bound` long |
| Replace.ReplacedOrderFree | src/replace.rs:33 | when no key is a prefix of another, the map's iteration order does not change the output |
| Replace.TestSimpleReplacer | src/replace.rs:48-59 | `"Whaaat? :) 😺"` becomes `"Whaaaat? 😊 a cat"` in every iteration order |
| Replace.SimpleReplacer.FromMap | src/replace.rs:14-18 | the replacer's map is the map built from the pairs, and its key order lists each key exactly once |
| Replace.SimpleReplacer.Step | src/replace.rs:33-41 | the piece written and where the scan goes on: the piece followed by the rewrite of the rest equals the rewrite from the current position |
| Replace.SimpleReplacer.Transform | src/replace.rs:22-45 | the output is `Replaced` of the content under the replacer's key order |
| Common.MapFromPairs | src/transform.rs:131 | `HashMap::from_iter`: the keys are exactly the pairs' keys, and each maps to the value of its last pair |
| Common.SetToSeq | src/transform.rs:132 | the key order lists every key of the map exactly once |
| ReplaceBytes.CharStartsOffsets | src/replace.rs:26-30 | `char_ixs` is strictly increasing, ends with the byte length, and holds exactly the offsets where a character starts |
| ReplaceBytes.AsWrittenAscii | src/replace.rs:22-45 | on ASCII content the loop as written agrees with the character-level `Replaced` |
| ReplaceBytes.AccentPanics | src/replace.rs:31-41 | content `é` with no keys: both bytes are copied, then the cursor 1 is still below the byte length and `char_ixs[2]` is out of range, which panics |
| ReplaceBytes.AccentTailPanics | src/replace.rs:31-41 | content `éa` with no keys: all three bytes are copied before `char_ixs[3]` is out of range |
| ReplaceBytes.AccentSlicePanics | src/replace.rs:33 | content `é` with the one key `z`: after `é` is copied, the search at cursor 1 slices `content[1..]` inside the character, which panics |
| ReplaceBytes.CatWrongBytes | src/replace.rs:36-40 | `😺bcdef` with `😺 → a cat` and `def → ""` is written as `a catef` |
| ReplaceBytes.CatCorrect | src/replace.rs:22-45 | the character-level scan writes `a catbc` for the same input |
| ReplaceBytes.AccentCopied | src/replace.rs:22-45 | the character-level scan copies `é` unchanged |

## Left out

- Reading and writing: `read_line`, `read_to_string`, `BufReader` and the writer are left out, and so are their I/O errors. `Transform` methods take the whole input as a string and return the whole output.
- `char_ixs` in `Transformer::transform`: the model indexes lines by character, so byte offsets do not appear. For that transformer each offset is a character boundary, so the output is the same.
- AhoCorasick.Tree.SpawnChild: a node's `depth` is a `u8` in the source. The model keeps a `nat` and requires a parent depth below 255, so patterns are limited to 255 characters. Longer patterns would overflow the source's counter, and that overflow is not modelled.
- AhoCorasick.Transformer.FromMap: `HashMap` iteration order is not specified. The model fixes one order when the object is built, and every property is proved for any such order.
- AhoCorasick.Tree.SetLinks: the source writes `suffix_link` and `in_dict_suffix_link` in two separate assignments. The model writes both in one update of the node, because the second reads only the first and other nodes.
- Replace.SimpleReplacer.FromMap: requires non-empty keys. With an empty key the source loop may never terminate: it stops advancing at any position where the empty key is the first key in iteration order that starts the rest. A scan that does not terminate is not modelled.
- Style.Format: `to_lowercase` and `to_uppercase` are modelled on ASCII letters only and leave other characters unchanged. Full Unicode case mapping, including one character becoming several, is not modelled.
- The `Display` and `Error` impls of `ParsingError` (src/name.rs:51-71) are error message text only.
- `default_transformer` and `default_replacer` box the objects as `Transform`/`Replacer` trait objects. This is dynamic dispatch only and is left out.
- The `NamingStyle` trait is modelled through its single implementation.
- `src/main.rs` pairs the old and new names' spellings and chooses a transformer. It is not part of this model.

## Findings

| source | as written | input that shows it | evidently intended | confidence | as-written member | corrected member |
|---|---|---|---|---|---|---|
| src/replace.rs:36-40 | `i` is a byte offset in `content[i..]` and `i += k.len()`, but a character number in `char_ixs[i]` and `i += 1` | `é` with the key `z` panics on a slice inside a character, `é` with no keys panics on `char_ixs[2]`, and `😺bcdef` with `😺 → a cat`, `def → ""` is written as `a catef` | a greedy scan one character at a time: `é` copied, and `a catbc` | not executed | ReplaceBytes.AccentSlicePanics, ReplaceBytes.AccentPanics, ReplaceBytes.CatWrongBytes | ReplaceBytes.AccentCopied, ReplaceBytes.CatCorrect, Replace.SimpleReplacer.Transform |
