/** Completeness of the tokenizer: every JSON text, white space between its symbols included, is accepted with exactly the tokens of
    the value that it spells. */
module JsmnValues {
  import opened Common
  import opened Jsmn

  // ---------------------------------------------------------------- JSON texts

  /** One character of a string, plain or escaped. */
  datatype Piece = Plain(c: char) | Escape(c: char) | Unicode(hex: string)

  /** A string, a number or literal name, or a container; `gap` follows the opening bracket. */
  datatype Value =
    | Text(pieces: seq<Piece>)
    | Word(text: string)
    | Node(braces: bool, gap: string, entries: Entries)

  /** The entries of a container; `after` precedes the comma or the closing bracket, `next` follows the comma. In JSON exactly the
      entries of objects have keys; built without JSMN_STRICT the tokenizer does not insist on it. */
  datatype Entries = Nil | Entry(key: Option<Key>, value: Value, after: string, next: string, rest: Entries)

  /** A key with the white space around its colon. */
  datatype Key = Key(pieces: seq<Piece>, before: string, after: string)

  predicate IsGap(s: string) {
    forall c <- s :: c in " \t\r\n"
  }

  predicate IsPiece(p: Piece) {
    match p
    case Plain(c) => c != '\"' && c != '\\' && c != '\0'
    case Escape(c) => c in "\"\\/bfnrt"
    case Unicode(hex) => |hex| == 4 && forall c <- hex :: c in "0123456789abcdefABCDEF"
  }

  predicate ArePieces(ps: seq<Piece>) {
    forall p <- ps :: IsPiece(p)
  }

  /** What may stand without quotes: visible characters that neither separate nor, in front, open something. */
  predicate IsWord(s: string) {
    |s| > 0 && (forall c <- s :: ' ' < c <= '~' && c !in ":,]}") && s[0] !in "{[\""
  }

  predicate IsJson(v: Value) {
    match v
    case Text(pieces) => ArePieces(pieces)
    case Word(text) => IsWord(text)
    case Node(_, gap, entries) => IsGap(gap) && AreEntries(entries)
  }

  predicate AreEntries(es: Entries) {
    es.Entry? ==>
      (es.key.Some? ==> ArePieces(es.key.value.pieces) && IsGap(es.key.value.before) && IsGap(es.key.value.after))
      && IsJson(es.value) && IsGap(es.after) && IsGap(es.next) && AreEntries(es.rest)
  }

  function PieceText(p: Piece): string {
    match p
    case Plain(c) => [c]
    case Escape(c) => ['\\', c]
    case Unicode(hex) => "\\u" + hex
  }

  function Spelled(ps: seq<Piece>): string {
    if |ps| == 0 then "" else PieceText(ps[0]) + Spelled(ps[1..])
  }

  function Quoted(ps: seq<Piece>): string {
    "\"" + Spelled(ps) + "\""
  }

  function KeyText(key: Option<Key>): string {
    if key.None? then "" else Quoted(key.value.pieces) + key.value.before + ":" + key.value.after
  }

  function Render(v: Value): (s: string)
    decreases v
  {
    match v
    case Text(pieces) => Quoted(pieces)
    case Word(text) => text
    case Node(braces, gap, entries) => (if braces then "{" else "[") + gap + Tail(braces, entries)
  }

  /** The entries, separated by commas, and the closing bracket. */
  function Tail(braces: bool, es: Entries): (s: string)
    ensures |s| > 0
    decreases es
  {
    if es.Nil? then if braces then "}" else "]"
    else KeyText(es.key) + (Render(es.value) + (es.after + (Separator(es) + Tail(braces, es.rest))))
  }

  function Separator(es: Entries): string
    requires es.Entry?
  {
    if es.rest.Nil? then "" else "," + es.next
  }

  // ---------------------------------------------------------------- the tokens of a JSON text

  function Length(es: Entries): nat {
    if es.Nil? then 0 else 1 + Length(es.rest)
  }

  function KeyTokens(key: Option<Key>, at: nat): seq<Token> {
    if key.None? then [] else [Token(String, at + 1, at + 1 + |Spelled(key.value.pieces)|, 1)]
  }

  /** A container's token spans its brackets and counts its entries, a key's counts its value, scalars have size 0. */
  function Tokens(v: Value, at: nat): seq<Token> {
    match v
    case Text(pieces) => [Token(String, at + 1, at + 1 + |Spelled(pieces)|, 0)]
    case Word(text) => [Token(Primitive, at, at + |text|, 0)]
    case Node(braces, gap, entries) =>
      [Token(if braces then Object else Array, at, at + |Render(v)|, Length(entries))] + EntryTokens(entries, at + 1 + |gap|)
  }

  function EntryTokens(es: Entries, at: nat): seq<Token> {
    if es.Nil? then []
    else
      var valueAt := at + |KeyText(es.key)|;
      KeyTokens(es.key, at) + Tokens(es.value, valueAt)
      + EntryTokens(es.rest, valueAt + |Render(es.value)| + |es.after| + |Separator(es)|)
  }

  ghost predicate AllClosed(toks: seq<Token>) {
    forall t <- toks :: !IsOpen(t)
  }

  lemma ClosedJoin(a: seq<Token>, b: seq<Token>)
    requires AllClosed(a) && AllClosed(b)
    ensures AllClosed(a + b)
  {
  }

  lemma {:induction false} TokensClosed(v: Value, at: nat)
    ensures AllClosed(Tokens(v, at))
  {
    hide Render, EntryTokens, Spelled;
    if v.Node? { EntryTokensClosed(v.entries, at + 1 + |v.gap|); }
  }

  lemma {:induction false} EntryTokensClosed(es: Entries, at: nat)
    ensures AllClosed(EntryTokens(es, at))
  {
    hide KeyText, Render, Tokens, Spelled;
    if es.Entry? {
      hide EntryTokens;
      var valueAt := at + |KeyText(es.key)|;
      var restAt := valueAt + |Render(es.value)| + |es.after| + |Separator(es)|;
      EntryTokensAre(es, at);
      TokensClosed(es.value, valueAt);
      EntryTokensClosed(es.rest, restAt);
      var k, t := KeyTokens(es.key, at), Tokens(es.value, valueAt);
      hide KeyTokens;
      ClosedJoin(k, t);
      ClosedJoin(k + t, EntryTokens(es.rest, restAt));
    }
  }

  // ---------------------------------------------------------------- scanning

  /** The text s stands at position p of the input. */
  predicate At(js: string, len: nat, p: nat, s: string) {
    p + |s| <= len <= |js| && js[p..p + |s|] == s
  }

  lemma AtSplit(js: string, len: nat, p: nat, a: string, b: string)
    requires At(js, len, p, a + b)
    ensures At(js, len, p, a) && At(js, len, p + |a|, b)
  {
    var s := js[p..p + |a + b|];
    assert s[..|a|] == a && s[|a|..] == b;
  }

  lemma AtFirst(js: string, len: nat, p: nat, s: string)
    requires At(js, len, p, s) && |s| > 0
    ensures p < len && js[p] == s[0] && At(js, len, p + 1, s[1..])
  {
    assert js[p] == js[p..p + |s|][0];
    assert js[p + 1..p + |s|] == js[p..p + |s|][1..];
  }

  lemma {:induction false} ScanSpelled(js: string, len: nat, p: nat, ps: seq<Piece>)
    requires ArePieces(ps) && At(js, len, p, Spelled(ps) + "\"")
    ensures ScanString(js, len, p) == Found(p + |Spelled(ps)|)
    decreases |ps|
  {
    hide ScanString, ScanHex, IsEscape, PieceText, IsPiece, At, Spelled;
    SpelledIs(ps);
    if |ps| == 0 {
      AtFirst(js, len, p, "\"");
      ScanStringStep(js, len, p);
    } else {
      var rest := Spelled(ps[1..]) + "\"";
      AtSplit(js, len, p, PieceText(ps[0]), rest);
      AtFirst(js, len, p + |PieceText(ps[0])|, rest);
      ScanPiece(js, len, p, ps[0]);
      ScanSpelled(js, len, p + |PieceText(ps[0])|, ps[1..]);
    }
  }

  lemma SpelledIs(ps: seq<Piece>)
    ensures |ps| == 0 ==> Spelled(ps) == "" && Spelled(ps) + "\"" == "\""
    ensures |ps| > 0 ==> |Spelled(ps)| == |PieceText(ps[0])| + |Spelled(ps[1..])|
    ensures |ps| > 0 ==> Spelled(ps) + "\"" == PieceText(ps[0]) + (Spelled(ps[1..]) + "\"")
  {
    hide PieceText;
  }

  /** Scanning goes on behind a piece. */
  lemma ScanPiece(js: string, len: nat, p: nat, x: Piece)
    requires IsPiece(x) && At(js, len, p, PieceText(x)) && p + |PieceText(x)| < len
    ensures ScanString(js, len, p) == ScanString(js, len, p + |PieceText(x)|)
  {
    hide ScanString, ScanHex;
    AtFirst(js, len, p, PieceText(x));
    ScanStringStep(js, len, p);
    if !x.Plain? {
      AtFirst(js, len, p + 1, PieceText(x)[1..]);
      if x.Unicode? {
        assert PieceText(x)[1..][1..] == x.hex;
        ScanFour(js, len, p + 2, x.hex);
      }
    }
  }

  lemma ScanFour(js: string, len: nat, p: nat, hex: string)
    requires IsPiece(Unicode(hex)) && At(js, len, p, hex)
    ensures ScanHex(js, len, p, 4) == Found(p + 4)
  {
    forall i | 0 <= i < 4 ensures js[p + i] == hex[i] && IsHex(js[p + i]) && js[p + i] != '\0' {
      assert js[p + i] == js[p..p + 4][i];
      assert hex[i] in hex;
      HexDigit(hex[i]);
    }
    assert ScanHex(js, len, p + 4, 0) == Found(p + 4);
    assert ScanHex(js, len, p + 3, 1) == Found(p + 4);
    assert ScanHex(js, len, p + 2, 2) == Found(p + 4);
    assert ScanHex(js, len, p + 1, 3) == Found(p + 4);
  }

  lemma HexDigit(c: char)
    requires c in "0123456789abcdefABCDEF"
    ensures IsHex(c) && c != '\0'
  {
  }

  /** Nothing more of a primitive follows at p. */
  predicate Ends(js: string, len: nat, p: nat)
    requires len <= |js|
  {
    !More(js, len, p) || EndsPrimitive(js[p])
  }

  lemma {:induction false} ScanWord(js: string, len: nat, p: nat, s: string)
    requires (forall c <- s :: ' ' < c <= '~' && c !in ":,]}") && At(js, len, p, s) && Ends(js, len, p + |s|)
    ensures ScanPrimitive(js, len, p) == Found(p + |s|)
    decreases |s|
  {
    if |s| > 0 {
      AtFirst(js, len, p, s);
      assert s[0] in s;
      forall c | c in s[1..] ensures c in s { }
      ScanWord(js, len, p + 1, s[1..]);
    }
  }

  // ---------------------------------------------------------------- running over a text

  lemma RunStep(js: string, len: nat, st: State, cap: nat)
    requires len <= |js| && ValidState(st) && More(js, len, st.pos) && ParseStep(js, len, st, cap).Next?
    ensures Run(js, len, st, cap) == Run(js, len, ParseStep(js, len, st, cap).st, cap)
  {
  }

  lemma {:induction false} SkipGap(js: string, len: nat, st: State, cap: nat, gap: string)
    requires ValidState(st) && IsGap(gap) && At(js, len, st.pos, gap)
    ensures Run(js, len, st, cap) == Run(js, len, st.(pos := st.pos + |gap|), cap)
    decreases |gap|
  {
    hide Run;
    if |gap| > 0 {
      AtFirst(js, len, st.pos, gap);
      assert gap[0] in gap;
      forall c | c in gap[1..] ensures c in gap { }
      RunStep(js, len, st, cap);
      SkipGap(js, len, st.(pos := st.pos + 1), cap, gap[1..]);
    }
  }

  /** A string is one token, counted for the superior token. */
  lemma ParsesString(js: string, len: nat, st: State, cap: nat, ps: seq<Piece>)
    requires ValidState(st) && ArePieces(ps) && At(js, len, st.pos, Quoted(ps)) && |st.toks| < cap
    ensures var toks := Grown(st.toks, st.super) + [Token(String, st.pos + 1, st.pos + 1 + |Spelled(ps)|, 0)];
            Run(js, len, st, cap) == Run(js, len, State(st.pos + |Quoted(ps)|, st.super, toks), cap)
  {
    hide Run, ScanString, Spelled;
    AtFirst(js, len, st.pos, Quoted(ps));
    assert Quoted(ps)[1..] == Spelled(ps) + "\"";
    ScanSpelled(js, len, st.pos + 1, ps);
    RunStep(js, len, st, cap);
    var t := Token(String, st.pos + 1, st.pos + 1 + |Spelled(ps)|, 0);
    assert Grown(st.toks + [t], st.super) == Grown(st.toks, st.super) + [t];
  }

  lemma ParsesWord(js: string, len: nat, st: State, cap: nat, text: string)
    requires ValidState(st) && IsWord(text) && At(js, len, st.pos, text) && |st.toks| < cap && Ends(js, len, st.pos + |text|)
    ensures var toks := Grown(st.toks, st.super) + [Token(Primitive, st.pos, st.pos + |text|, 0)];
            Run(js, len, st, cap) == Run(js, len, State(st.pos + |text|, st.super, toks), cap)
  {
    hide Run, ScanPrimitive;
    AtFirst(js, len, st.pos, text);
    assert text[0] in text;
    ScanWord(js, len, st.pos, text);
    RunStep(js, len, st, cap);
    var t := Token(Primitive, st.pos, st.pos + |text|, 0);
    assert Grown(st.toks + [t], st.super) == Grown(st.toks, st.super) + [t];
  }

  /** The state after a key and its colon: the key counts for the container and is itself superior. */
  function AfterKey(st: State, key: Option<Key>): State
    requires ValidState(st)
  {
    if key.None? then st
    else State(st.pos + |KeyText(key)|, |st.toks|,
               Grown(st.toks, st.super) + [Token(String, st.pos + 1, st.pos + 1 + |Spelled(key.value.pieces)|, 0)])
  }

  lemma ParsesKey(js: string, len: nat, st: State, cap: nat, key: Key)
    requires ValidState(st) && ArePieces(key.pieces) && IsGap(key.before) && IsGap(key.after)
    requires At(js, len, st.pos, KeyText(Some(key))) && |st.toks| < cap
    ensures Run(js, len, st, cap) == Run(js, len, AfterKey(st, Some(key)), cap)
  {
    hide Run, Quoted, Spelled, ArePieces, IsGap, At, Grown;
    var q, colon := Quoted(key.pieces), key.before + (":" + key.after);
    assert KeyText(Some(key)) == q + colon;
    AtSplit(js, len, st.pos, q, colon);
    ParsesString(js, len, st, cap, key.pieces);
    ParsesColon(js, len, State(st.pos + |q|, st.super, AfterKey(st, Some(key)).toks), cap, key);
  }

  /** A colon makes the last token superior. */
  lemma ParsesColon(js: string, len: nat, st: State, cap: nat, key: Key)
    requires ValidState(st) && IsGap(key.before) && IsGap(key.after) && At(js, len, st.pos, key.before + (":" + key.after))
    ensures var st' := State(st.pos + |key.before| + 1 + |key.after|, |st.toks| - 1, st.toks);
            Run(js, len, st, cap) == Run(js, len, st', cap)
  {
    hide Run, IsGap, At;
    AtSplit(js, len, st.pos, key.before, ":" + key.after);
    SkipGap(js, len, st, cap, key.before);
    var st1 := st.(pos := st.pos + |key.before|);
    AtSplit(js, len, st1.pos, ":", key.after);
    AtFirst(js, len, st1.pos, ":");
    RunStep(js, len, st1, cap);
    SkipGap(js, len, st1.(pos := st1.pos + 1, super := |st.toks| - 1), cap, key.after);
  }

  /** A comma makes the open container superior again. */
  lemma ParsesComma(js: string, len: nat, st: State, cap: nat, i: int, next: string)
    requires ValidState(st) && IsGap(next) && At(js, len, st.pos, "," + next)
    requires i >= 0 && LastOpen(st.toks) == i && IsContainer(st.toks[i]) && (st.super == i || (st.super >= 0 && !IsContainer(st.toks[st.super])))
    ensures Run(js, len, st, cap) == Run(js, len, st.(pos := st.pos + 1 + |next|, super := i), cap)
  {
    hide Run, IsGap, LastOpen, LastOpenContainer;
    AtSplit(js, len, st.pos, ",", next);
    AtFirst(js, len, st.pos, ",");
    assert LastOpenContainer(st.toks) == i;
    RunStep(js, len, st, cap);
    SkipGap(js, len, st.(pos := st.pos + 1, super := i), cap, next);
  }

  // ---------------------------------------------------------------- values and containers

  /** The state after a value. */
  function AfterValue(st: State, v: Value): (r: State)
    requires ValidState(st)
    ensures ValidState(r)
  {
    State(st.pos + |Render(v)|, if v.Node? then LastOpen(st.toks) else st.super, Grown(st.toks, st.super) + Tokens(v, st.pos))
  }

  /** The container at i closed, with n more entries. */
  function Closing(toks: seq<Token>, i: nat, end: int, n: nat): (r: seq<Token>)
    requires i < |toks|
    ensures |r| == |toks|
  {
    toks[i := toks[i].(end := end, size := toks[i].size + n)]
  }

  /** The state after the rest of the container at i. */
  function AfterTail(st: State, i: nat, braces: bool, es: Entries): (r: State)
    requires i < |st.toks|
    ensures ValidState(r)
  {
    var end := st.pos + |Tail(braces, es)|;
    State(end, LastOpen(st.toks[..i]), Closing(st.toks, i, end, Length(es)) + EntryTokens(es, st.pos))
  }

  lemma {:induction false} ParsesValue(js: string, len: nat, st: State, cap: nat, v: Value)
    requires ValidState(st) && IsJson(v) && At(js, len, st.pos, Render(v)) && |st.toks| + |Tokens(v, st.pos)| <= cap
    requires v.Word? ==> Ends(js, len, st.pos + |v.text|)
    ensures Run(js, len, st, cap) == Run(js, len, AfterValue(st, v), cap)
    decreases v
  {
    hide Run, Spelled, Tail, ArePieces, IsGap, IsWord, AreEntries, LastOpen, EntryTokens;
    match v {
      case Text(pieces) => ParsesString(js, len, st, cap, pieces);
      case Word(text) => ParsesWord(js, len, st, cap, text);
      case Node(braces, gap, entries) =>
        ParsesOpening(js, len, st, cap, v);
        var st1 := Opened(st, v);
        InnermostIs(st1.toks, |st.toks|);
        ParsesTail(js, len, st1, cap, |st.toks|, braces, entries);
        OpenedEnds(st, v);
    }
  }

  /** The state behind an opening bracket. */
  function Opened(st: State, v: Value): (r: State)
    requires ValidState(st) && v.Node?
    ensures ValidState(r)
  {
    State(st.pos + 1 + |v.gap|, |st.toks|,
          Grown(st.toks, st.super) + [Token(if v.braces then Object else Array, st.pos, -1, 0)])
  }

  lemma ParsesOpening(js: string, len: nat, st: State, cap: nat, v: Value)
    requires ValidState(st) && v.Node? && IsJson(v) && At(js, len, st.pos, Render(v)) && |st.toks| < cap
    ensures At(js, len, Opened(st, v).pos, Tail(v.braces, v.entries))
    ensures Run(js, len, st, cap) == Run(js, len, Opened(st, v), cap)
  {
    hide Run, Tail, IsGap, AreEntries, LastOpen, At;
    var open := if v.braces then "{" else "[";
    assert Render(v) == open + (v.gap + Tail(v.braces, v.entries));
    AtSplit(js, len, st.pos, open, v.gap + Tail(v.braces, v.entries));
    AtSplit(js, len, st.pos + 1, v.gap, Tail(v.braces, v.entries));
    AtFirst(js, len, st.pos, open);
    RunStep(js, len, st, cap);
    var st1 := Opened(st, v);
    SkipGap(js, len, st1.(pos := st.pos + 1), cap, v.gap);
  }

  lemma OpenedEnds(st: State, v: Value)
    requires ValidState(st) && v.Node?
    ensures AfterTail(Opened(st, v), |st.toks|, v.braces, v.entries) == AfterValue(st, v)
  {
    hide Tail, LastOpen, EntryTokens;
    var st1 := Opened(st, v);
    var n := |st.toks|;
    assert st1.toks[..n] == Grown(st.toks, st.super);
    GrownOpen(st.toks, st.super);
    var end := st1.pos + |Tail(v.braces, v.entries)|;
    assert |Render(v)| == 1 + |v.gap| + |Tail(v.braces, v.entries)|;
    assert Closing(st1.toks, n, end, Length(v.entries))
        == Grown(st.toks, st.super) + [Token(if v.braces then Object else Array, st.pos, end, Length(v.entries))];
  }

  lemma GrownOpen(toks: seq<Token>, super: int)
    requires -1 <= super < |toks|
    ensures LastOpen(Grown(toks, super)) == LastOpen(toks)
  {
    hide LastOpen;
    var g := Grown(toks, super);
    forall k | 0 <= k < |toks| ensures IsOpen(g[k]) <==> IsOpen(toks[k]) {
    }
    InnermostIs(g, LastOpen(toks));
  }

  lemma InnermostIs(toks: seq<Token>, i: int)
    requires -1 <= i < |toks| && (i >= 0 ==> IsOpen(toks[i])) && forall k :: i < k < |toks| ==> !IsOpen(toks[k])
    ensures LastOpen(toks) == i
  {
    hide LastOpen;
  }

  /** Entries and closing bracket of the container at i, read while it is the innermost open one. */
  lemma {:induction false} ParsesTail(js: string, len: nat, st: State, cap: nat, i: nat, braces: bool, es: Entries)
    requires ValidState(st) && AreEntries(es) && At(js, len, st.pos, Tail(braces, es)) && |st.toks| + |EntryTokens(es, st.pos)| <= cap
    requires LastOpen(st.toks) == i && st.toks[i].kind == (if braces then Object else Array) && (es.Entry? ==> st.super == i)
    ensures Run(js, len, st, cap) == Run(js, len, AfterTail(st, i, braces, es), cap)
    decreases es, 1
  {
    hide Run, LastOpen, IsJson, Tail, Tokens, EntryTokens, KeyText, KeyTokens, Render, AfterTail, AfterEntry, At, Ends, Separator, IsGap,
         ArePieces;
    if es.Nil? {
      ParsesClosing(js, len, st, cap, i, braces);
    } else {
      TailParts(js, len, st.pos, braces, es);
      EntryTokensAre(es, st.pos);
      ParsesEntry(js, len, st, cap, i, es);
      AfterEntryIs(st, i, es);
      ParsesTail(js, len, AfterEntry(st, i, es), cap, i, braces, es.rest);
      EntryJoins(st, i, braces, es);
    }
  }

  /** Key, value and separator of one entry. */
  lemma {:induction false} ParsesEntry(js: string, len: nat, st: State, cap: nat, i: nat, es: Entries)
    requires ValidState(st) && es.Entry? && AreEntries(es) && st.super == i == LastOpen(st.toks) && IsContainer(st.toks[i])
    requires var valueAt := st.pos + |KeyText(es.key)|;
             var end := valueAt + |Render(es.value)|;
             At(js, len, st.pos, KeyText(es.key)) && At(js, len, valueAt, Render(es.value)) && Ends(js, len, end)
             && At(js, len, end, es.after) && At(js, len, end + |es.after|, Separator(es))
             && |st.toks| + |KeyTokens(es.key, st.pos)| + |Tokens(es.value, valueAt)| <= cap
    ensures Run(js, len, st, cap) == Run(js, len, AfterEntry(st, i, es), cap)
    decreases es, 0
  {
    hide Run, LastOpen, IsJson, Tokens, KeyText, Render, KeyTokens, AfterValue, AfterKey, At, Ends, IsGap, ArePieces, Grown, Separator;
    var st1 := AfterKey(st, es.key);
    KeyRoom(st, es.key);
    if es.key.Some? { ParsesKey(js, len, st, cap, es.key.value); }
    WordIs(es.value);
    ParsesValue(js, len, st1, cap, es.value);
    EntryDone(st, i, es);
    ParsesNext(js, len, AfterValue(st1, es.value), cap, i, es);
  }

  lemma AfterEntryIs(st: State, i: nat, es: Entries)
    requires ValidState(st) && es.Entry? && st.super == i == LastOpen(st.toks)
    ensures var st' := AfterEntry(st, i, es);
            ValidState(st') && LastOpen(st'.toks) == i && st'.toks[i].kind == st.toks[i].kind && (es.rest.Entry? ==> st'.super == i)
            && st'.pos == st.pos + |KeyText(es.key)| + |Render(es.value)| + |es.after| + |Separator(es)|
            && |st'.toks| == |st.toks| + |KeyTokens(es.key, st.pos)| + |Tokens(es.value, st.pos + |KeyText(es.key)|)|
  {
    hide KeyText, Render, Tokens, KeyTokens, LastOpen, AfterKey, AfterValue, Separator;
    EntryDone(st, i, es);
  }

  lemma KeyRoom(st: State, key: Option<Key>)
    requires ValidState(st)
    ensures var st' := AfterKey(st, key);
            ValidState(st') && st'.pos == st.pos + |KeyText(key)| && |st'.toks| == |st.toks| + |KeyTokens(key, st.pos)|
            && (key.None? ==> st' == st) && |KeyTokens(key, st.pos)| == if key.Some? then 1 else 0
  {
    hide Quoted, Spelled;
  }

  lemma ParsesClosing(js: string, len: nat, st: State, cap: nat, i: nat, braces: bool)
    requires ValidState(st) && At(js, len, st.pos, Tail(braces, Nil))
    requires LastOpen(st.toks) == i && st.toks[i].kind == (if braces then Object else Array)
    ensures Run(js, len, st, cap) == Run(js, len, AfterTail(st, i, braces, Nil), cap)
  {
    hide Run, LastOpen;
    AtFirst(js, len, st.pos, Tail(braces, Nil));
    RunStep(js, len, st, cap);
    var toks := st.toks[i := st.toks[i].(end := st.pos + 1)];
    OpenBelow(toks, i);
    assert toks[..i] == st.toks[..i];
    assert Closing(st.toks, i, st.pos + 1, 0) + [] == toks;
  }

  lemma OpenBelow(toks: seq<Token>, i: nat)
    requires i < |toks| && !IsOpen(toks[i])
    ensures LastOpen(toks[..i + 1]) == LastOpen(toks[..i])
  {
    assert toks[..i + 1][..i] == toks[..i];
  }

  /** The state in front of what follows an entry and its separator. */
  function AfterEntry(st: State, i: nat, es: Entries): (r: State)
    requires ValidState(st) && i < |st.toks| && es.Entry?
    ensures ValidState(r)
  {
    var valueAt := st.pos + |KeyText(es.key)|;
    State(valueAt + |Render(es.value)| + |es.after| + |Separator(es)|,
          if es.rest.Nil? then AfterValue(AfterKey(st, es.key), es.value).super else i,
          Grown(st.toks, i) + KeyTokens(es.key, st.pos) + Tokens(es.value, valueAt))
  }

  /** The parts of a container's rest, each where the parser will find it. */
  lemma TailParts(js: string, len: nat, at: nat, braces: bool, es: Entries)
    requires es.Entry? && AreEntries(es) && At(js, len, at, Tail(braces, es))
    ensures var valueAt := at + |KeyText(es.key)|;
            var end := valueAt + |Render(es.value)|;
            At(js, len, at, KeyText(es.key)) && At(js, len, valueAt, Render(es.value)) && Ends(js, len, end)
            && At(js, len, end, es.after) && At(js, len, end + |es.after|, Separator(es))
            && At(js, len, end + |es.after| + |Separator(es)|, Tail(braces, es.rest))
  {
    hide KeyText, Render, IsJson, At, Tail, IsGap, Ends, Separator;
    var d := Tail(braces, es.rest);
    var c := Separator(es) + d;
    var b := es.after + c;
    var valueAt := at + |KeyText(es.key)|;
    var end := valueAt + |Render(es.value)|;
    TailIs(braces, es);
    AtSplit(js, len, at, KeyText(es.key), Render(es.value) + b);
    AtSplit(js, len, valueAt, Render(es.value), b);
    AtSplit(js, len, end, es.after, c);
    AtSplit(js, len, end + |es.after|, Separator(es), d);
    EntryEnds(js, len, end, braces, es);
  }

  /** A value in a container is followed by white space, a comma or a bracket. */
  lemma EntryEnds(js: string, len: nat, p: nat, braces: bool, es: Entries)
    requires es.Entry? && IsGap(es.after) && At(js, len, p, es.after + (Separator(es) + Tail(braces, es.rest)))
    ensures Ends(js, len, p)
  {
    hide KeyText, Render, At, Tail;
    AtFirst(js, len, p, es.after + (Separator(es) + Tail(braces, es.rest)));
    TailIs(braces, es);
    if |es.after| > 0 { assert es.after[0] in es.after; }
  }

  lemma TailIs(braces: bool, es: Entries)
    requires es.Entry?
    ensures Tail(braces, es) == KeyText(es.key) + (Render(es.value) + (es.after + (Separator(es) + Tail(braces, es.rest))))
    ensures Tail(braces, Nil) == if braces then "}" else "]"
  {
    hide KeyText, Render;
  }

  lemma EntryTokensAre(es: Entries, at: nat)
    requires es.Entry?
    ensures var valueAt := at + |KeyText(es.key)|;
            EntryTokens(es, at) == KeyTokens(es.key, at) + Tokens(es.value, valueAt)
              + EntryTokens(es.rest, valueAt + |Render(es.value)| + |es.after| + |Separator(es)|)
  {
    hide KeyText, Render, KeyTokens, Tokens;
  }

  /** After key and value the container is still the innermost open one, one entry larger. */
  lemma EntryDone(st: State, i: nat, es: Entries)
    requires ValidState(st) && es.Entry? && st.super == i == LastOpen(st.toks)
    ensures var st', valueAt := AfterValue(AfterKey(st, es.key), es.value), st.pos + |KeyText(es.key)|;
            st'.toks == Grown(st.toks, i) + KeyTokens(es.key, st.pos) + Tokens(es.value, valueAt) && st'.pos == valueAt + |Render(es.value)|
            && LastOpen(st'.toks) == i && st'.toks[i].kind == st.toks[i].kind
            && (st'.super == i || (st'.super >= 0 && !IsContainer(st'.toks[st'.super])))
  {
    hide KeyText, Render, Tokens, LastOpen, Spelled;
    KeyRoom(st, es.key);
    var st1, valueAt := AfterKey(st, es.key), st.pos + |KeyText(es.key)|;
    var st' := AfterValue(st1, es.value);
    var g, k, t := Grown(st.toks, i), KeyTokens(es.key, st.pos), Tokens(es.value, valueAt);
    assert Grown(st1.toks, st1.super) == g + k by { KeyCounts(st, i, es.key); }
    TokensClosed(es.value, valueAt);
    StillLast(st.toks, g, k, i);
    StillLast(g + k, g + k, t, i);
    if es.key.Some? { StillLast(st.toks, g, [k[0].(size := 0)], i); }
  }

  /** The key's token once its value has been counted for it. */
  lemma KeyCounts(st: State, i: nat, key: Option<Key>)
    requires ValidState(st) && st.super == i
    ensures Grown(AfterKey(st, key).toks, AfterKey(st, key).super) == Grown(st.toks, i) + KeyTokens(key, st.pos)
  {
    hide KeyText, Spelled;
  }

  /** Closed tokens behind the innermost open one do not change which it is. */
  lemma StillLast(toks: seq<Token>, g: seq<Token>, closed: seq<Token>, i: nat)
    requires LastOpen(toks) == i && SameSpans(toks, g) && AllClosed(closed)
    ensures LastOpen(g + closed) == i
  {
    hide LastOpen;
    var all := g + closed;
    assert IsOpen(all[i]);
    forall k | i < k < |all| ensures !IsOpen(all[k]) {
      if k < |g| { assert !IsOpen(toks[k]); } else { assert all[k] in closed; }
    }
  }

  /** White space and the separator behind a value. */
  lemma ParsesNext(js: string, len: nat, st: State, cap: nat, i: nat, es: Entries)
    requires ValidState(st) && es.Entry? && IsGap(es.after) && IsGap(es.next) && At(js, len, st.pos, es.after)
    requires At(js, len, st.pos + |es.after|, Separator(es))
    requires LastOpen(st.toks) == i && IsContainer(st.toks[i]) && (st.super == i || (st.super >= 0 && !IsContainer(st.toks[st.super])))
    ensures var st' := State(st.pos + |es.after| + |Separator(es)|, if es.rest.Nil? then st.super else i, st.toks);
            Run(js, len, st, cap) == Run(js, len, st', cap)
  {
    hide Run, LastOpen, IsGap, At;
    SkipGap(js, len, st, cap, es.after);
    if es.rest.Entry? { ParsesComma(js, len, st.(pos := st.pos + |es.after|), cap, i, es.next); }
  }

  /** An entry and the rest make up the whole. */
  lemma EntryJoins(st: State, i: nat, braces: bool, es: Entries)
    requires ValidState(st) && i < |st.toks| && es.Entry?
    ensures AfterTail(AfterEntry(st, i, es), i, braces, es.rest) == AfterTail(st, i, braces, es)
  {
    hide KeyText, Render, Tokens, EntryTokens, KeyTokens, Tail, LastOpen, Closing, Grown, Separator;
    var st2 := AfterEntry(st, i, es);
    TailIs(braces, es);
    EntryTokensAre(es, st.pos);
    var end, n := st.pos + |Tail(braces, es)|, Length(es.rest);
    var k, t := KeyTokens(es.key, st.pos), Tokens(es.value, st.pos + |KeyText(es.key)|);
    assert st2.toks == Grown(st.toks, i) + k + t;
    ClosingJoins(st.toks, i, end, n, k, t, EntryTokens(es.rest, st2.pos));
  }

  lemma ClosingJoins(toks: seq<Token>, i: nat, end: int, n: nat, k: seq<Token>, t: seq<Token>, rest: seq<Token>)
    requires i < |toks|
    ensures (Grown(toks, i) + k + t)[..i] == toks[..i]
    ensures Closing(Grown(toks, i) + k + t, i, end, n) + rest == Closing(toks, i, end, n + 1) + (k + t + rest)
  {
    assert Closing(Grown(toks, i) + k + t, i, end, n) == Closing(toks, i, end, n + 1) + k + t;
  }

  // ---------------------------------------------------------------- whole texts

  /** Numbers and the three literal names may stand without quotes. */
  lemma WordsOfJson(s: string)
    requires |s| > 0 && ((forall c <- s :: c in "+-.0123456789Ee") || s in {"true", "false", "null"})
    ensures IsWord(s)
  {
    if s !in {"true", "false", "null"} {
      forall c | c in s ensures ' ' < c <= '~' && c !in ":,]}" && c !in "{[\"" { NumberChar(c); }
      assert s[0] in s;
    }
  }

  lemma NumberChar(c: char)
    requires c in "+-.0123456789Ee"
    ensures ' ' < c <= '~' && c !in ":,]}" && c !in "{[\""
  {
  }

  /** jsmn_parse on a JSON text between white space: the tokens of its value if there is room for them and JSMN_ERROR_NOMEM if not;
      counting gives their number. */
  lemma Completeness(js: string, len: nat, cap: nat, before: string, v: Value, after: string)
    requires IsJson(v) && IsGap(before) && IsGap(after) && len <= |js| && js[..len] == before + Render(v) + after
    ensures var toks := Tokens(v, |before|);
            if |toks| <= cap then Run(js, len, START, cap) == (|toks|, State(len, -1, toks)) else Run(js, len, START, cap).0 == NOMEM
    ensures Count(js, len, 0, 0) == |Tokens(v, |before|)|
  {
    hide Run, Count, Tokens, Render, IsJson, IsGap, At;
    var n := |Tokens(v, |before|)|;
    ParsesText(js, len, n, before, v, after);
    CountingPass(js, len, START, n);
    if n <= cap {
      LargerArray(js, len, START, n, cap);
    } else if Run(js, len, START, cap).0 != NOMEM {
      LargerArray(js, len, START, cap, n);
      RunEnds(js, len, START, cap);
    }
  }

  lemma ParsesText(js: string, len: nat, cap: nat, before: string, v: Value, after: string)
    requires IsJson(v) && IsGap(before) && IsGap(after) && len <= |js| && js[..len] == before + Render(v) + after
    requires |Tokens(v, |before|)| == cap
    ensures Run(js, len, START, cap) == (cap, State(len, -1, Tokens(v, |before|)))
  {
    hide Run, Tokens, Render, IsJson, IsGap, LastOpen;
    assert js[0..len] == js[..len] == before + (Render(v) + after);
    AtSplit(js, len, 0, before, Render(v) + after);
    AtSplit(js, len, |before|, Render(v), after);
    SkipGap(js, len, START, cap, before);
    var st := State(|before|, -1, []);
    WordEnds(js, len, st.pos + |Render(v)|, after);
    WordIs(v);
    ParsesValue(js, len, st, cap, v);
    var st' := AfterValue(st, v);
    assert [] + Tokens(v, |before|) == Tokens(v, |before|);
    SkipGap(js, len, st', cap, after);
    TokensClosed(v, |before|);
    RunStops(js, len, State(len, -1, Tokens(v, |before|)), cap);
  }

  lemma WordIs(v: Value)
    ensures v.Word? ==> Render(v) == v.text
  {
  }

  lemma WordEnds(js: string, len: nat, p: nat, after: string)
    requires IsGap(after) && At(js, len, p, after) && p + |after| == len
    ensures Ends(js, len, p)
  {
    if |after| > 0 {
      AtFirst(js, len, p, after);
      assert after[0] in after;
    }
  }

  lemma RunStops(js: string, len: nat, st: State, cap: nat)
    requires len <= |js| && ValidState(st) && st.pos == len && AllClosed(st.toks)
    ensures Run(js, len, st, cap) == (|st.toks|, st)
  {
    hide LastOpen;
    InnermostIs(st.toks, -1);
  }
}
