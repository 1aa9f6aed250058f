/** The loop of `SimpleReplacer::transform` (src/replace.rs) as it is written:
    on the UTF-8 bytes of the text, where the cursor `i` is a byte offset for
    the slice `content[i..]` and the step `i += k.len()`, but is used as a
    character number for `char_ixs[i]` and advanced by one character's worth
    (`i += 1`) when no key matches. */
module ReplaceBytes {
  import opened Common
  import opened Replace

  type byte = b: int | 0 <= b < 256

  /** `raw[j]` is not a UTF-8 continuation byte. */
  predicate IsCharStart(raw: seq<byte>, j: nat)
    requires j < |raw|
  {
    !(0x80 <= raw[j] < 0xC0)
  }

  /** Rust's `str::is_char_boundary`: slicing `content[i..]` panics unless this holds. */
  predicate IsCharBoundary(raw: seq<byte>, i: nat) {
    i == 0 || i == |raw| || (i < |raw| && IsCharStart(raw, i))
  }

  /** The byte offsets of the characters from byte `from` on, then the length:
      `char_ixs` when `from` is 0. */
  function CharStarts(raw: seq<byte>, from: nat): seq<nat>
    requires from <= |raw|
    decreases |raw| - from
  {
    if from == |raw| then [|raw|]
    else if IsCharStart(raw, from) then [from] + CharStarts(raw, from + 1)
    else CharStarts(raw, from + 1)
  }

  /** The offsets increase, stay within the text, end with its length and are
      exactly the character starts. */
  lemma {:induction false} CharStartsOffsets(raw: seq<byte>, from: nat)
    requires from <= |raw|
    ensures var ixs := CharStarts(raw, from);
      && |ixs| > 0 && ixs[|ixs| - 1] == |raw|
      && (forall a :: 0 <= a < |ixs| ==> from <= ixs[a] <= |raw|)
      && (forall a :: 0 <= a < |ixs| - 1 ==> ixs[a] < ixs[a + 1])
      && (forall j :: from <= j < |raw| ==> (IsCharStart(raw, j) <==> j in ixs))
    decreases |raw| - from
  {
    if from < |raw| {
      CharStartsOffsets(raw, from + 1);
    }
  }

  /** How a run ends: with every byte written, or with a panic after the bytes
      written so far. */
  datatype Outcome = Done(written: seq<byte>) | Panic(written: seq<byte>)

  /** Write `w`, then continue as `o`. */
  function Emit(w: seq<byte>, o: Outcome): (r: Outcome)
    ensures r.written == w + o.written && r.Done? == o.Done?
  {
    match o
    case Done(x) => Done(w + x)
    case Panic(x) => Panic(w + x)
  }

  lemma EmitDone(w: seq<byte>, o: Outcome, x: seq<byte>)
    requires o == Done(x)
    ensures Emit(w, o) == Done(w + x)
  {
  }

  /** Offsets that can index `raw`, in increasing order. */
  predicate Offsets(raw: seq<byte>, ixs: seq<nat>) {
    && (forall a :: 0 <= a < |ixs| ==> ixs[a] <= |raw|)
    && (forall a :: 0 <= a < |ixs| - 1 ==> ixs[a] < ixs[a + 1])
  }

  /** The loop from cursor `i`. The slice `content[i..]` is taken inside the
      search, once per key tried, so it can panic only when there is a key. */
  function Loop(order: seq<seq<byte>>, dict: map<seq<byte>, seq<byte>>, raw: seq<byte>, ixs: seq<nat>, i: nat): Outcome
    requires KeysOk(order, dict) && Offsets(raw, ixs)
    decreases |raw| - i
  {
    if i >= |raw| then Done([])
    else if order != [] && !IsCharBoundary(raw, i) then Panic([])
    else
      match FindPrefix(order, raw[i..])
      case Some(k) => Emit(dict[k], Loop(order, dict, raw, ixs, i + |k|))
      case None =>
        if i + 1 >= |ixs| then Panic([])
        else Emit(raw[ixs[i]..ixs[i + 1]], Loop(order, dict, raw, ixs, i + 1))
  }

  /** `SimpleReplacer::transform` as written, on the bytes of the input. */
  function AsWritten(order: seq<seq<byte>>, dict: map<seq<byte>, seq<byte>>, raw: seq<byte>): Outcome
    requires KeysOk(order, dict)
  {
    CharStartsOffsets(raw, 0);
    Loop(order, dict, raw, CharStarts(raw, 0), 0)
  }

  /** On text whose every character is one byte the offsets and the character
      numbers coincide, and the code as written does what the greedy replacer
      promises. */
  lemma AsWrittenAscii(order: seq<seq<byte>>, dict: map<seq<byte>, seq<byte>>, raw: seq<byte>)
    requires KeysOk(order, dict)
    requires forall j :: 0 <= j < |raw| ==> raw[j] < 0x80
    ensures AsWritten(order, dict, raw) == Done(Replaced(order, dict, raw))
  {
    CharStartsAscii(raw, 0);
    LoopAscii(order, dict, raw, CharStarts(raw, 0), 0);
    assert raw[0..] == raw;
  }

  lemma {:induction false} CharStartsAscii(raw: seq<byte>, from: nat)
    requires from <= |raw|
    requires forall j :: 0 <= j < |raw| ==> raw[j] < 0x80
    ensures |CharStarts(raw, from)| == |raw| - from + 1
    ensures forall a :: 0 <= a < |CharStarts(raw, from)| ==> CharStarts(raw, from)[a] == from + a
    decreases |raw| - from
  {
    if from < |raw| {
      CharStartsAscii(raw, from + 1);
    }
  }

  lemma {:induction false} LoopAscii(order: seq<seq<byte>>, dict: map<seq<byte>, seq<byte>>, raw: seq<byte>, ixs: seq<nat>, i: nat)
    requires KeysOk(order, dict) && Offsets(raw, ixs) && i <= |raw|
    requires forall j :: 0 <= j < |raw| ==> raw[j] < 0x80
    requires |ixs| == |raw| + 1 && forall a :: 0 <= a < |ixs| ==> ixs[a] == a
    ensures Loop(order, dict, raw, ixs, i) == Done(Replaced(order, dict, raw[i..]))
    decreases |raw| - i
  {
    if i < |raw| {
      var f := FindPrefix(order, raw[i..]);
      var n := if f.Some? then i + |f.value| else i + 1;
      var w := if f.Some? then dict[f.value] else [raw[i]];
      AsciiStep(order, dict, raw, ixs, i);
      LoopAscii(order, dict, raw, ixs, n);
      EmitDone(w, Loop(order, dict, raw, ixs, n), Replaced(order, dict, raw[n..]));
    }
  }

  /** On one-byte characters one step of the loop writes what one step of
      the greedy replacer writes, and both move on to the same place. */
  lemma AsciiStep(order: seq<seq<byte>>, dict: map<seq<byte>, seq<byte>>, raw: seq<byte>, ixs: seq<nat>, i: nat)
    requires KeysOk(order, dict) && Offsets(raw, ixs) && i < |raw|
    requires forall j :: 0 <= j < |raw| ==> raw[j] < 0x80
    requires |ixs| == |raw| + 1 && forall a :: 0 <= a < |ixs| ==> ixs[a] == a
    ensures var f := FindPrefix(order, raw[i..]);
      var n := if f.Some? then i + |f.value| else i + 1;
      var w := if f.Some? then dict[f.value] else [raw[i]];
      && i < n <= |raw|
      && Loop(order, dict, raw, ixs, i) == Emit(w, Loop(order, dict, raw, ixs, n))
      && Replaced(order, dict, raw[i..]) == w + Replaced(order, dict, raw[n..])
  {
    ReplacedStep(order, dict, raw, i);
    LoopStep(order, dict, raw, ixs, i);
    if FindPrefix(order, raw[i..]).None? {
      assert raw[ixs[i]..ixs[i + 1]] == [raw[i]];
    }
  }

  /** One step of the loop at a character start. */
  lemma LoopStep(order: seq<seq<byte>>, dict: map<seq<byte>, seq<byte>>, raw: seq<byte>, ixs: seq<nat>, i: nat)
    requires KeysOk(order, dict) && Offsets(raw, ixs) && i < |raw| && IsCharStart(raw, i)
    ensures var f := FindPrefix(order, raw[i..]);
      && (f.Some? ==> Loop(order, dict, raw, ixs, i) == Emit(dict[f.value], Loop(order, dict, raw, ixs, i + |f.value|)))
      && (f.None? && i + 1 < |ixs| ==> Loop(order, dict, raw, ixs, i) == Emit(raw[ixs[i]..ixs[i + 1]], Loop(order, dict, raw, ixs, i + 1)))
  {
  }

  /** With no keys at all, the text "é" (bytes C3 A9) is copied and then the
      run panics: the loop goes on while the cursor, one per character, is
      below the byte length 2, and at cursor 1 `char_ixs[2]` is out of range. */
  lemma AccentPanics()
    ensures AsWritten([], map[], [0xC3, 0xA9]) == Panic([0xC3, 0xA9])
  {
    var raw: seq<byte> := [0xC3, 0xA9];
    assert CharStarts(raw, 2) == [2];
    assert CharStarts(raw, 1) == [2];
    assert CharStarts(raw, 0) == [0, 2];
    assert Loop([], map[], raw, [0, 2], 1) == Panic([]);
    assert raw[0..2] == raw;
  }

  /** With no keys, "éa" (bytes C3 A9 61) is copied in full before the same
      out-of-range `char_ixs[3]` at cursor 2. */
  lemma AccentTailPanics()
    ensures AsWritten([], map[], [0xC3, 0xA9, 0x61]) == Panic([0xC3, 0xA9, 0x61])
  {
    var raw: seq<byte> := [0xC3, 0xA9, 0x61];
    assert CharStarts(raw, 3) == [3];
    assert CharStarts(raw, 2) == [2, 3];
    assert CharStarts(raw, 1) == [2, 3];
    assert CharStarts(raw, 0) == [0, 2, 3];
    var ixs := [0, 2, 3];
    assert Loop([], map[], raw, ixs, 2) == Panic([]);
    assert raw[ixs[1]..ixs[2]] == [0x61];
    assert Loop([], map[], raw, ixs, 1) == Panic([0x61]);
    assert raw[ixs[0]..ixs[1]] == [0xC3, 0xA9];
  }

  /** With the one key "z" (to "y"), "é" is copied and then the search at
      cursor 1 slices `content[1..]` inside the character, which panics. */
  lemma AccentSlicePanics()
    ensures AsWritten([[0x7A]], map[[0x7A] := [0x79]], [0xC3, 0xA9]) == Panic([0xC3, 0xA9])
  {
    var raw: seq<byte> := [0xC3, 0xA9];
    var order: seq<seq<byte>> := [[0x7A]];
    var dict: map<seq<byte>, seq<byte>> := map[[0x7A] := [0x79]];
    assert CharStarts(raw, 2) == [2];
    assert CharStarts(raw, 1) == [2];
    assert CharStarts(raw, 0) == [0, 2];
    assert KeysOk(order, dict);
    assert !IsCharBoundary(raw, 1);
    assert Loop(order, dict, raw, [0, 2], 1) == Panic([]);
    assert !IsPrefix(order[0], raw[0..]);
    assert FindPrefix(order, raw[0..]) == None;
    assert raw[0..2] == raw;
  }

  /** The greedy replacer copies "é" unchanged when no key occurs. */
  lemma AccentCopied()
    ensures Replaced([], map[], "\U{00E9}") == "\U{00E9}"
  {
    ReplacedIdentity([], map[], "\U{00E9}");
  }

  const CatBytes: seq<byte> := [0xF0, 0x9F, 0x98, 0xBA]
  const DefBytes: seq<byte> := [0x64, 0x65, 0x66]
  const ACatBytes: seq<byte> := [0x61, 0x20, 0x63, 0x61, 0x74]

  /** With the keys "😺" (to "a cat") and "def" (to nothing), the text "😺bcdef"
      comes out as "a catef": after the four-byte key the cursor is the byte
      offset 4, which `char_ixs[4]` reads as the fifth character, "e". */
  lemma CatWrongBytes()
    ensures AsWritten([CatBytes, DefBytes], map[CatBytes := ACatBytes, DefBytes := []], CatBytes + [0x62, 0x63] + DefBytes)
         == Done(ACatBytes + [0x65, 0x66])
  {
    var order := [CatBytes, DefBytes];
    var dict := map[CatBytes := ACatBytes, DefBytes := []];
    var raw := CatBytes + [0x62, 0x63] + DefBytes;
    assert raw == [0xF0, 0x9F, 0x98, 0xBA, 0x62, 0x63, 0x64, 0x65, 0x66];
    var ixs := [0, 4, 5, 6, 7, 8, 9];
    CatCharStarts(raw);
    CatFromFour(order, dict, raw, ixs);
    assert raw[0..][..4] == CatBytes;
    assert FindPrefix(order, raw[0..]) == Some(CatBytes);
  }

  /** From the cursor the key leaves behind, byte offset 4 read as a
      character index. */
  lemma CatFromFour(order: seq<seq<byte>>, dict: map<seq<byte>, seq<byte>>, raw: seq<byte>, ixs: seq<nat>)
    requires order == [CatBytes, DefBytes] && dict == map[CatBytes := ACatBytes, DefBytes := []]
    requires raw == [0xF0, 0x9F, 0x98, 0xBA, 0x62, 0x63, 0x64, 0x65, 0x66] && ixs == [0, 4, 5, 6, 7, 8, 9]
    ensures KeysOk(order, dict) && Offsets(raw, ixs)
    ensures Loop(order, dict, raw, ixs, 4) == Done([0x65, 0x66])
  {
    CatFromFive(order, dict, raw, ixs);
    assert raw[4..][..4] != CatBytes && raw[4..][..3] != DefBytes;
    assert FindPrefix(order, raw[4..]) == None;
    assert raw[ixs[4]..ixs[5]] == [0x65];
  }

  lemma CatFromFive(order: seq<seq<byte>>, dict: map<seq<byte>, seq<byte>>, raw: seq<byte>, ixs: seq<nat>)
    requires order == [CatBytes, DefBytes] && dict == map[CatBytes := ACatBytes, DefBytes := []]
    requires raw == [0xF0, 0x9F, 0x98, 0xBA, 0x62, 0x63, 0x64, 0x65, 0x66] && ixs == [0, 4, 5, 6, 7, 8, 9]
    ensures KeysOk(order, dict) && Offsets(raw, ixs)
    ensures Loop(order, dict, raw, ixs, 5) == Done([0x66])
  {
    CatFromSix(order, dict, raw, ixs);
    assert raw[5..][..4] != CatBytes && raw[5..][..3] != DefBytes;
    assert FindPrefix(order, raw[5..]) == None;
    assert raw[ixs[5]..ixs[6]] == [0x66];
  }

  lemma CatFromSix(order: seq<seq<byte>>, dict: map<seq<byte>, seq<byte>>, raw: seq<byte>, ixs: seq<nat>)
    requires order == [CatBytes, DefBytes] && dict == map[CatBytes := ACatBytes, DefBytes := []]
    requires raw == [0xF0, 0x9F, 0x98, 0xBA, 0x62, 0x63, 0x64, 0x65, 0x66] && ixs == [0, 4, 5, 6, 7, 8, 9]
    ensures KeysOk(order, dict) && Offsets(raw, ixs)
    ensures Loop(order, dict, raw, ixs, 6) == Done([])
  {
    assert Loop(order, dict, raw, ixs, 9) == Done([]);
    assert raw[6..] == DefBytes;
    assert FindPrefix(order, raw[6..]) == Some(DefBytes);
  }

  lemma CatCharStarts(raw: seq<byte>)
    requires raw == [0xF0, 0x9F, 0x98, 0xBA, 0x62, 0x63, 0x64, 0x65, 0x66]
    ensures CharStarts(raw, 0) == [0, 4, 5, 6, 7, 8, 9]
  {
    assert CharStarts(raw, 9) == [9];
    assert CharStarts(raw, 8) == [8, 9];
    assert CharStarts(raw, 7) == [7, 8, 9];
    assert CharStarts(raw, 6) == [6, 7, 8, 9];
    assert CharStarts(raw, 5) == [5, 6, 7, 8, 9];
    assert CharStarts(raw, 4) == [4, 5, 6, 7, 8, 9];
    assert CharStarts(raw, 3) == [4, 5, 6, 7, 8, 9];
    assert CharStarts(raw, 2) == [4, 5, 6, 7, 8, 9];
    assert CharStarts(raw, 1) == [4, 5, 6, 7, 8, 9];
  }

  /** The greedy replacer turns "😺bcdef" into "a catbc". */
  lemma CatCorrect()
    ensures Replaced(["\U{1F63A}", "def"], map["\U{1F63A}" := "a cat", "def" := ""], "\U{1F63A}bcdef") == "a catbc"
  {
    var order := ["\U{1F63A}", "def"];
    var dict := map["\U{1F63A}" := "a cat", "def" := ""];
    var s := "\U{1F63A}bcdef";
    assert s[3..] == "def";
    assert s[3] == 'd';
    assert FindPrefix(order, s[3..]) == Some("def");
    assert s[3..][3..] == [];
    assert Replaced(order, dict, s[3..]) == "";
    assert s[2..][..1] != "\U{1F63A}" && s[2..][..3] != "def";
    assert s[2..][1..] == s[3..];
    assert Replaced(order, dict, s[2..]) == "c";
    assert s[1..][..1] != "\U{1F63A}" && s[1..][..3] != "def";
    assert s[1..][1..] == s[2..];
    assert Replaced(order, dict, s[1..]) == "bc";
    assert s[..1] == "\U{1F63A}";
    assert FindPrefix(order, s) == Some("\U{1F63A}");
  }
}
