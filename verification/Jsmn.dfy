/** The jsmn tokenizer, built without JSMN_STRICT and JSMN_PARENT_LINKS. */
module Jsmn {

  datatype Kind = Undefined | Object | Array | String | Primitive

  datatype Token = Token(kind: Kind, start: int, end: int, size: int)

  const NOMEM := -1
  const INVAL := -2
  const PART := -3

  // ---------------------------------------------------------------- scanning one string or primitive

  /** Where scanning stops: at a position, or with an error code. */
  datatype Scan = Found(pos: nat) | Failed(code: int)

  predicate EndsPrimitive(c: char) {
    c == ':' || c == '\t' || c == '\r' || c == '\n' || c == ' ' || c == ',' || c == ']' || c == '}'
  }

  predicate More(js: string, len: nat, p: nat)
    requires len <= |js|
  {
    p < len && js[p] != '\0'
  }

  /** The position after the primitive whose unread part starts at p. */
  function ScanPrimitive(js: string, len: nat, p: nat): (r: Scan)
    requires len <= |js|
    ensures r.Failed? ==> r.code == INVAL
    ensures r.Found? ==> p <= r.pos && (p <= len ==> r.pos <= len) && (More(js, len, p) && !EndsPrimitive(js[p]) ==> p < r.pos)
    decreases len - p
  {
    if !More(js, len, p) || EndsPrimitive(js[p]) then Found(p)
    else if js[p] as int < 32 || js[p] as int >= 127 then Failed(INVAL)
    else ScanPrimitive(js, len, p + 1)
  }

  predicate IsHex(c: char) {
    '0' <= c <= '9' || 'A' <= c <= 'F' || 'a' <= c <= 'f'
  }

  predicate IsEscape(c: char) {
    c == '"' || c == '/' || c == '\\' || c == 'b' || c == 'f' || c == 'r' || c == 'n' || c == 't'
  }

  /** The position after at most n hexadecimal digits. */
  function ScanHex(js: string, len: nat, p: nat, n: nat): (r: Scan)
    requires len <= |js|
    ensures r.Failed? ==> r.code == INVAL
    ensures r.Found? ==> p <= r.pos && (p <= len ==> r.pos <= len)
    decreases n
  {
    if n == 0 || !More(js, len, p) then Found(p)
    else if !IsHex(js[p]) then Failed(INVAL)
    else ScanHex(js, len, p + 1, n - 1)
  }

  /** The position of the closing quote of the string whose unread part starts at p. */
  function ScanString(js: string, len: nat, p: nat): (r: Scan)
    requires len <= |js|
    ensures r.Failed? ==> r.code == INVAL || r.code == PART
    ensures r.Found? ==> p <= r.pos < len && js[r.pos] == '"'
    decreases len - p
  {
    if !More(js, len, p) then Failed(PART)
    else if js[p] == '"' then Found(p)
    else if js[p] == '\\' && p + 1 < len then
      if IsEscape(js[p + 1]) then ScanString(js, len, p + 2)
      else if js[p + 1] == 'u' then
        var h := ScanHex(js, len, p + 2, 4);
        if h.Failed? then h else ScanString(js, len, h.pos)
      else Failed(INVAL)
    else ScanString(js, len, p + 1)
  }

  lemma ScanStringStep(js: string, len: nat, p: nat)
    requires len <= |js| && More(js, len, p)
    ensures ScanString(js, len, p) == (
        if js[p] == '"' then Found(p)
        else if js[p] == '\\' && p + 1 < len then
          if IsEscape(js[p + 1]) then ScanString(js, len, p + 2)
          else if js[p + 1] == 'u' then
            var h := ScanHex(js, len, p + 2, 4);
            if h.Failed? then h else ScanString(js, len, h.pos)
          else Failed(INVAL)
        else ScanString(js, len, p + 1))
  {
  }

  lemma ScanStringEnds(js: string, len: nat, p: nat)
    requires len <= |js| && !More(js, len, p)
    ensures ScanString(js, len, p) == Failed(PART)
  {
  }

  // ---------------------------------------------------------------- one step and a whole run

  /** The parser's position and superior token, and the tokens allocated so far; toknext is their number. */
  datatype State = State(pos: nat, super: int, toks: seq<Token>)

  datatype Step = Next(st: State) | Stop(code: int)

  predicate IsOpen(t: Token) {
    t.start != -1 && t.end == -1
  }

  /** The last token that is still open, or -1. */
  function LastOpen(toks: seq<Token>): (i: int)
    ensures -1 <= i < |toks|
    ensures i >= 0 ==> IsOpen(toks[i])
    ensures forall k :: i < k < |toks| ==> !IsOpen(toks[k])
  {
    if |toks| == 0 then -1
    else if IsOpen(toks[|toks| - 1]) then |toks| - 1
    else LastOpen(toks[..|toks| - 1])
  }

  predicate IsContainer(t: Token) {
    t.kind == Array || t.kind == Object
  }

  function LastOpenContainer(toks: seq<Token>): (i: int)
    ensures -1 <= i < |toks|
    ensures i >= 0 ==> IsOpen(toks[i]) && IsContainer(toks[i])
    ensures forall k :: i < k < |toks| ==> !(IsOpen(toks[k]) && IsContainer(toks[k]))
  {
    if |toks| == 0 then -1
    else if IsOpen(toks[|toks| - 1]) && IsContainer(toks[|toks| - 1]) then |toks| - 1
    else LastOpenContainer(toks[..|toks| - 1])
  }

  /** tokens[super].size++ */
  function Grown(toks: seq<Token>, super: int): (r: seq<Token>)
    requires super < |toks|
    ensures |r| == |toks|
  {
    if super < 0 then toks else toks[super := toks[super].(size := toks[super].size + 1)]
  }

  predicate ValidState(st: State) {
    -1 <= st.super < |st.toks|
  }

  /** One iteration of the loop of jsmn_parse over an array of cap tokens. */
  function ParseStep(js: string, len: nat, st: State, cap: nat): (r: Step)
    requires len <= |js| && More(js, len, st.pos) && ValidState(st)
    ensures r.Next? ==> ValidState(r.st) && st.pos < r.st.pos <= len && |st.toks| <= |r.st.toks| <= |st.toks| + 1
  {
    var c, n := js[st.pos], |st.toks|;
    if c == '{' || c == '[' then
      if n >= cap then Stop(NOMEM)
      else
        var t := Token(if c == '{' then Object else Array, st.pos, -1, 0);
        Next(State(st.pos + 1, n, Grown(st.toks, st.super) + [t]))
    else if c == '}' || c == ']' then
      var i := LastOpen(st.toks);
      if i == -1 || st.toks[i].kind != (if c == '}' then Object else Array) then Stop(INVAL)
      else
        var toks := st.toks[i := st.toks[i].(end := st.pos + 1)];
        Next(State(st.pos + 1, LastOpen(toks[..i + 1]), toks))
    else if c == '"' then
      var q := ScanString(js, len, st.pos + 1);
      if q.Failed? then Stop(q.code)
      else if n >= cap then Stop(NOMEM)
      else Next(State(q.pos + 1, st.super, Grown(st.toks + [Token(String, st.pos + 1, q.pos, 0)], st.super)))
    else if c == '\t' || c == '\r' || c == '\n' || c == ' ' then Next(st.(pos := st.pos + 1))
    else if c == ':' then Next(st.(pos := st.pos + 1, super := n - 1))
    else if c == ',' then
      if st.super != -1 && !IsContainer(st.toks[st.super]) then
        var i := LastOpenContainer(st.toks);
        Next(st.(pos := st.pos + 1, super := if i == -1 then st.super else i))
      else Next(st.(pos := st.pos + 1))
    else
      var e := ScanPrimitive(js, len, st.pos);
      if e.Failed? then Stop(e.code)
      else if n >= cap then Stop(NOMEM)
      else Next(State(e.pos, st.super, Grown(st.toks + [Token(Primitive, st.pos, e.pos, 0)], st.super)))
  }

  /** jsmn_parse over an array of cap tokens: the result and the state it leaves. */
  function Run(js: string, len: nat, st: State, cap: nat): (r: (int, State))
    requires len <= |js| && ValidState(st)
    ensures ValidState(r.1)
    decreases len - st.pos
  {
    if !More(js, len, st.pos) then (if LastOpen(st.toks) == -1 then |st.toks| else PART, st)
    else
      var s := ParseStep(js, len, st, cap);
      if s.Next? then Run(js, len, s.st, cap) else (s.code, st)
  }

  /** jsmn_parse with a NULL array: only positions and the count move. */
  function Count(js: string, len: nat, pos: nat, count: int): (r: int)
    requires len <= |js|
    decreases len - pos
  {
    if !More(js, len, pos) then count
    else
      var c := js[pos];
      if c == '{' || c == '[' then Count(js, len, pos + 1, count + 1)
      else if c == '"' then
        var q := ScanString(js, len, pos + 1);
        if q.Failed? then q.code else Count(js, len, q.pos + 1, count + 1)
      else if c == '}' || c == ']' || c == '\t' || c == '\r' || c == '\n' || c == ' ' || c == ':' || c == ',' then
        Count(js, len, pos + 1, count)
      else
        var e := ScanPrimitive(js, len, pos);
        if e.Failed? then e.code else Count(js, len, e.pos, count + 1)
  }

  // ---------------------------------------------------------------- resumption and sizing

  /** A step that succeeds does the same over a larger array. */
  lemma StepLargerArray(js: string, len: nat, st: State, cap: nat, cap': nat)
    requires len <= |js| && More(js, len, st.pos) && ValidState(st) && cap <= cap'
    ensures ParseStep(js, len, st, cap) != Stop(NOMEM) ==> ParseStep(js, len, st, cap') == ParseStep(js, len, st, cap)
  {
  }

  /** After JSMN_ERROR_NOMEM, resuming with a larger array gives the result and the tokens of one parse with that array. */
  lemma {:induction false} Resumption(js: string, len: nat, st: State, cap: nat, cap': nat)
    requires len <= |js| && ValidState(st) && cap <= cap' && Run(js, len, st, cap).0 == NOMEM
    ensures Run(js, len, Run(js, len, st, cap).1, cap') == Run(js, len, st, cap')
    decreases len - st.pos
  {
    if More(js, len, st.pos) {
      var s := ParseStep(js, len, st, cap);
      StepLargerArray(js, len, st, cap, cap');
      if s.Next? { Resumption(js, len, s.st, cap, cap'); }
    }
  }

  /** A parse that does not run out of tokens gives the same result over a larger array. */
  lemma {:induction false} LargerArray(js: string, len: nat, st: State, cap: nat, cap': nat)
    requires len <= |js| && ValidState(st) && cap <= cap' && Run(js, len, st, cap).0 != NOMEM
    ensures Run(js, len, st, cap') == Run(js, len, st, cap)
    decreases len - st.pos
  {
    if More(js, len, st.pos) {
      var s := ParseStep(js, len, st, cap);
      StepLargerArray(js, len, st, cap, cap');
      if s.Next? { LargerArray(js, len, s.st, cap, cap'); }
    }
  }

  /** Whenever a parse succeeds, the counting pass returns the same number. */
  lemma {:induction false} CountingPass(js: string, len: nat, st: State, cap: nat)
    requires len <= |js| && ValidState(st) && Run(js, len, st, cap).0 >= 0
    ensures Count(js, len, st.pos, |st.toks|) == Run(js, len, st, cap).0 == |Run(js, len, st, cap).1.toks|
    decreases len - st.pos
  {
    if More(js, len, st.pos) {
      CountStep(js, len, st, cap);
      CountingPass(js, len, ParseStep(js, len, st, cap).st, cap);
    }
  }

  lemma CountStep(js: string, len: nat, st: State, cap: nat)
    requires len <= |js| && More(js, len, st.pos) && ValidState(st) && ParseStep(js, len, st, cap).Next?
    ensures var st' := ParseStep(js, len, st, cap).st;
            Count(js, len, st.pos, |st.toks|) == Count(js, len, st'.pos, |st'.toks|)
  {
    hide ScanString, ScanPrimitive, LastOpen, LastOpenContainer;
  }

  // ---------------------------------------------------------------- structural soundness

  /** The token was cut out of the text read so far: a container from its opening bracket (to its closer, once closed). */
  predicate WellPlaced(js: string, t: Token, pos: nat) {
    && 0 <= t.start < |js| && t.start < pos
    && (if IsOpen(t) then IsContainer(t) else t.start <= t.end <= pos)
    && (t.kind == Object ==> js[t.start] == '{' && (!IsOpen(t) ==> t.start < t.end <= |js| && js[t.end - 1] == '}'))
    && (t.kind == Array ==> js[t.start] == '[' && (!IsOpen(t) ==> t.start < t.end <= |js| && js[t.end - 1] == ']'))
  }

  /** Two tokens in order of allocation: the later starts later, and lies behind the earlier one or, that being a container,
      between its brackets. */
  predicate Ordered(a: Token, b: Token) {
    a.start < b.start && (IsOpen(a) || a.end <= b.start || (IsContainer(a) && !IsOpen(b) && b.end < a.end))
  }

  ghost predicate Structured(js: string, st: State) {
    && ValidState(st)
    && (forall i :: 0 <= i < |st.toks| ==> WellPlaced(js, st.toks[i], st.pos))
    && (forall i, j :: 0 <= i < j < |st.toks| ==> Ordered(st.toks[i], st.toks[j]))
  }

  /** Only sizes differ. */
  ghost predicate SameSpans(a: seq<Token>, b: seq<Token>) {
    |a| == |b| && forall i :: 0 <= i < |a| ==> b[i] == a[i].(size := b[i].size)
  }

  lemma SpansKeep(js: string, a: State, b: State)
    requires Structured(js, a) && SameSpans(a.toks, b.toks) && a.pos <= b.pos && ValidState(b)
    ensures Structured(js, b)
  {
    forall i | 0 <= i < |b.toks| ensures WellPlaced(js, b.toks[i], b.pos) {
      assert WellPlaced(js, a.toks[i], a.pos);
    }
    forall i, j | 0 <= i < j < |b.toks| ensures Ordered(b.toks[i], b.toks[j]) {
      assert Ordered(a.toks[i], a.toks[j]);
    }
  }

  /** Appending a token that starts at or after the current position. */
  lemma AppendKeeps(js: string, st: State, t: Token, st': State)
    requires Structured(js, st) && st.pos <= t.start && st.pos < st'.pos && WellPlaced(js, t, st'.pos)
    requires st'.toks == st.toks + [t] && ValidState(st')
    ensures Structured(js, st')
  {
    forall i | 0 <= i < |st'.toks| ensures WellPlaced(js, st'.toks[i], st'.pos) {
      if i < |st.toks| { assert WellPlaced(js, st.toks[i], st.pos); }
    }
    forall i, j | 0 <= i < j < |st'.toks| ensures Ordered(st'.toks[i], st'.toks[j]) {
      assert WellPlaced(js, st.toks[i], st.pos);
      if j < |st.toks| { assert Ordered(st.toks[i], st.toks[j]); }
    }
  }

  /** Closing the last open token. */
  lemma CloseKeeps(js: string, st: State, i: int, st': State)
    requires Structured(js, st) && st.pos < |js| && i == LastOpen(st.toks) && i >= 0 && ValidState(st')
    requires js[st.pos] == (if st.toks[i].kind == Object then '}' else ']')
    requires st'.pos == st.pos + 1 && st'.toks == st.toks[i := st.toks[i].(end := st.pos + 1)]
    ensures Structured(js, st')
  {
    assert WellPlaced(js, st.toks[i], st.pos);
    forall k | 0 <= k < |st'.toks| ensures WellPlaced(js, st'.toks[k], st'.pos) {
      assert WellPlaced(js, st.toks[k], st.pos);
    }
    forall k, l | 0 <= k < l < |st'.toks| ensures Ordered(st'.toks[k], st'.toks[l]) {
      assert Ordered(st.toks[k], st.toks[l]);
      assert WellPlaced(js, st.toks[l], st.pos);
      if k == i { assert !IsOpen(st.toks[l]); }
    }
  }

  lemma GrownSpans(toks: seq<Token>, super: int)
    requires super < |toks|
    ensures SameSpans(toks, Grown(toks, super))
  {
  }

  lemma StepKeepsStructure(js: string, len: nat, st: State, cap: nat)
    requires len <= |js| && More(js, len, st.pos) && Structured(js, st)
    requires ParseStep(js, len, st, cap).Next?
    ensures Structured(js, ParseStep(js, len, st, cap).st)
  {
    hide Structured, ScanString, ScanPrimitive, SameSpans;
    assert ValidState(st) by { StructuredValid(js, st); }
    var c, n := js[st.pos], |st.toks|;
    var st' := ParseStep(js, len, st, cap).st;
    if c == '{' || c == '[' {
      var grown := st.(toks := Grown(st.toks, st.super));
      GrownSpans(st.toks, st.super);
      SpansKeep(js, st, grown);
      AppendKeeps(js, grown, Token(if c == '{' then Object else Array, st.pos, -1, 0), st');
    } else if c == '}' || c == ']' {
      CloseKeeps(js, st, LastOpen(st.toks), st');
    } else if c == '"' {
      var t := Token(String, st.pos + 1, ScanString(js, len, st.pos + 1).pos, 0);
      AppendKeeps(js, st, t, st'.(toks := st.toks + [t]));
      GrownSpans(st.toks + [t], st.super);
      SpansKeep(js, st'.(toks := st.toks + [t]), st');
    } else if c == '\t' || c == '\r' || c == '\n' || c == ' ' || c == ':' || c == ',' {
      SameSpansRefl(st.toks);
      SpansKeep(js, st, st');
    } else {
      var t := Token(Primitive, st.pos, ScanPrimitive(js, len, st.pos).pos, 0);
      AppendKeeps(js, st, t, st'.(toks := st.toks + [t]));
      GrownSpans(st.toks + [t], st.super);
      SpansKeep(js, st'.(toks := st.toks + [t]), st');
    }
  }

  lemma StructuredValid(js: string, st: State)
    requires Structured(js, st)
    ensures ValidState(st)
  {
  }

  lemma SameSpansRefl(toks: seq<Token>)
    ensures SameSpans(toks, toks)
  {
  }

  lemma {:induction false} RunKeepsStructure(js: string, len: nat, st: State, cap: nat)
    requires len <= |js| && Structured(js, st)
    ensures Structured(js, Run(js, len, st, cap).1)
    decreases len - st.pos
  {
    hide Structured;
    StructuredValid(js, st);
    if More(js, len, st.pos) {
      var s := ParseStep(js, len, st, cap);
      if s.Next? {
        StepKeepsStructure(js, len, st, cap);
        RunKeepsStructure(js, len, s.st, cap);
      }
    }
  }

  const START := State(0, -1, [])

  /** jsmn soundness: after a successful parse from jsmn_init, every token is closed and placed, and two spans are disjoint or
      one lies between the brackets of the other, so that no two containers share a closing bracket. */
  lemma Soundness(js: string, len: nat, cap: nat)
    requires len <= |js| && Run(js, len, START, cap).0 >= 0
    ensures var (r, st) := Run(js, len, START, cap);
            && r == |st.toks| <= cap
            && (forall i :: 0 <= i < r ==>
                  var t := st.toks[i];
                  && 0 <= t.start <= t.end <= len
                  && (t.kind == Object ==> t.start < t.end && js[t.start] == '{' && js[t.end - 1] == '}')
                  && (t.kind == Array ==> t.start < t.end && js[t.start] == '[' && js[t.end - 1] == ']'))
            && (forall i, j :: 0 <= i < j < r ==>
                  var a, b := st.toks[i], st.toks[j];
                  a.start < b.start && (a.end <= b.start || (IsContainer(a) && b.end < a.end)))
  {
    hide ParseStep;
    var (r, st) := Run(js, len, START, cap);
    RunKeepsStructure(js, len, START, cap);
    RunEnds(js, len, START, cap);
    forall i | 0 <= i < r ensures WellPlaced(js, st.toks[i], st.pos) && !IsOpen(st.toks[i]) {
    }
    forall i, j | 0 <= i < j < r ensures Ordered(st.toks[i], st.toks[j]) && !IsOpen(st.toks[i]) {
    }
  }

  // ---------------------------------------------------------------- matching brackets

  predicate IsBracket(c: char) {
    c == '{' || c == '[' || c == '}' || c == ']'
  }

  /** The run from st takes the character at p for a bracket; one inside a string or a primitive is not. */
  predicate ReadsBracket(js: string, len: nat, st: State, cap: nat, p: nat)
    requires len <= |js| && ValidState(st)
    decreases len - st.pos
  {
    More(js, len, st.pos)
    && var s := ParseStep(js, len, st, cap);
       s.Next? && ((st.pos == p && IsBracket(js[p])) || ReadsBracket(js, len, s.st, cap, p))
  }

  /** The character at p opens or closes the container. */
  predicate Owns(t: Token, p: nat) {
    IsContainer(t) && (t.start == p || t.end == p + 1)
  }

  ghost predicate Owned(toks: seq<Token>, p: nat) {
    exists i :: 0 <= i < |toks| && Owns(toks[i], p)
  }

  lemma StepOwns(js: string, len: nat, st: State, cap: nat)
    requires len <= |js| && More(js, len, st.pos) && ValidState(st)
    requires ParseStep(js, len, st, cap).Next? && IsBracket(js[st.pos])
    ensures Owned(ParseStep(js, len, st, cap).st.toks, st.pos)
  {
    hide ScanString, ScanPrimitive;
    var toks := ParseStep(js, len, st, cap).st.toks;
    var c := js[st.pos];
    if c == '{' || c == '[' {
      assert Owns(toks[|toks| - 1], st.pos);
    } else {
      assert Owns(toks[LastOpen(st.toks)], st.pos);
    }
  }

  lemma GrownOwns(toks: seq<Token>, super: int, p: nat)
    requires super < |toks| && Owned(toks, p)
    ensures Owned(Grown(toks, super), p)
  {
    var i :| 0 <= i < |toks| && Owns(toks[i], p);
    assert Owns(Grown(toks, super)[i], p);
  }

  lemma AppendedOwns(toks: seq<Token>, t: Token, p: nat)
    requires Owned(toks, p)
    ensures Owned(toks + [t], p)
  {
    var i :| 0 <= i < |toks| && Owns(toks[i], p);
    assert Owns((toks + [t])[i], p);
  }

  lemma ClosedOwns(toks: seq<Token>, i: nat, end: nat, p: nat)
    requires i < |toks| && IsOpen(toks[i]) && Owned(toks, p)
    ensures Owned(toks[i := toks[i].(end := end)], p)
  {
    var k :| 0 <= k < |toks| && Owns(toks[k], p);
    assert Owns(toks[i := toks[i].(end := end)][k], p);
  }

  /** A bracket that belongs to a container goes on belonging to it. */
  lemma StepKeepsOwned(js: string, len: nat, st: State, cap: nat, p: nat)
    requires len <= |js| && More(js, len, st.pos) && ValidState(st) && Owned(st.toks, p)
    requires ParseStep(js, len, st, cap).Next?
    ensures Owned(ParseStep(js, len, st, cap).st.toks, p)
  {
    hide ScanString, ScanPrimitive, Owned;
    var c := js[st.pos];
    if c == '{' || c == '[' {
      GrownOwns(st.toks, st.super, p);
      AppendedOwns(Grown(st.toks, st.super), Token(if c == '{' then Object else Array, st.pos, -1, 0), p);
    } else if c == '}' || c == ']' {
      ClosedOwns(st.toks, LastOpen(st.toks), st.pos + 1, p);
    } else if c == '"' {
      var t := Token(String, st.pos + 1, ScanString(js, len, st.pos + 1).pos, 0);
      AppendedOwns(st.toks, t, p);
      GrownOwns(st.toks + [t], st.super, p);
    } else if c == '\t' || c == '\r' || c == '\n' || c == ' ' || c == ':' || c == ',' {
    } else {
      var t := Token(Primitive, st.pos, ScanPrimitive(js, len, st.pos).pos, 0);
      AppendedOwns(st.toks, t, p);
      GrownOwns(st.toks + [t], st.super, p);
    }
  }

  /** Every bracket that a run reads opens or closes one of its tokens. */
  lemma {:induction false} BracketsOwned(js: string, len: nat, st: State, cap: nat, p: nat)
    requires len <= |js| && ValidState(st) && (Owned(st.toks, p) || ReadsBracket(js, len, st, cap, p))
    ensures Owned(Run(js, len, st, cap).1.toks, p)
    decreases len - st.pos
  {
    hide ParseStep, Owned;
    if More(js, len, st.pos) {
      var s := ParseStep(js, len, st, cap);
      if s.Next? {
        if Owned(st.toks, p) {
          StepKeepsOwned(js, len, st, cap, p);
        } else if st.pos == p && IsBracket(js[p]) {
          StepOwns(js, len, st, cap);
        }
        BracketsOwned(js, len, s.st, cap, p);
      }
    }
  }

  /** Between the brackets of a container every bracket read belongs to a container that lies there with both of its brackets:
      the closer that ends a span is the one that matches its opener. */
  lemma BracketsMatch(js: string, len: nat, cap: nat, i: nat, p: nat)
    requires len <= |js| && Run(js, len, START, cap).0 >= 0 && i < |Run(js, len, START, cap).1.toks|
    requires var a := Run(js, len, START, cap).1.toks[i];
             IsContainer(a) && a.start < p < a.end - 1 && ReadsBracket(js, len, START, cap, p)
    ensures var toks := Run(js, len, START, cap).1.toks;
            exists j :: i < j < |toks| && Owns(toks[j], p) && toks[i].start < toks[j].start && toks[j].end < toks[i].end
  {
    hide Run, ReadsBracket;
    Soundness(js, len, cap);
    BracketsOwned(js, len, START, cap, p);
    var toks := Run(js, len, START, cap).1.toks;
    var a := toks[i];
    var j :| 0 <= j < |toks| && Owns(toks[j], p);
    assert j != i;
  }

  /** A successful run stops inside the input with every token closed. */
  lemma {:induction false} RunEnds(js: string, len: nat, st: State, cap: nat)
    requires len <= |js| && ValidState(st) && st.pos <= len && |st.toks| <= cap && Run(js, len, st, cap).0 >= 0
    ensures var (r, st') := Run(js, len, st, cap);
            r == |st'.toks| <= cap && LastOpen(st'.toks) == -1 && st'.pos <= len
    decreases len - st.pos
  {
    if More(js, len, st.pos) { RunEnds(js, len, ParseStep(js, len, st, cap).st, cap); }
  }

  // ---------------------------------------------------------------- sizes

  ghost function SizeSum(toks: seq<Token>): int {
    if |toks| == 0 then 0 else SizeSum(toks[..|toks| - 1]) + toks[|toks| - 1].size
  }

  lemma {:induction false} SizeUpdate(toks: seq<Token>, i: nat, t: Token)
    requires i < |toks|
    ensures SizeSum(toks[i := t]) == SizeSum(toks) - toks[i].size + t.size
  {
    var n := |toks| - 1;
    if i < n {
      SizeUpdate(toks[..n], i, t);
      assert toks[i := t][..n] == toks[..n][i := t];
    } else {
      assert toks[i := t][..n] == toks[..n];
    }
  }

  lemma SizeAppend(toks: seq<Token>, t: Token)
    ensures SizeSum(toks + [t]) == SizeSum(toks) + t.size
  {
    assert (toks + [t])[..|toks|] == toks;
  }

  /** The tokens allocated while a superior token was set, from st to the end of the run. */
  function Adopted(js: string, len: nat, st: State, cap: nat): (n: nat)
    requires len <= |js| && ValidState(st)
    decreases len - st.pos
  {
    if !More(js, len, st.pos) then 0
    else
      var s := ParseStep(js, len, st, cap);
      if s.Stop? then 0
      else (if |s.st.toks| > |st.toks| && st.super != -1 then 1 else 0) + Adopted(js, len, s.st, cap)
  }

  lemma StepSizes(js: string, len: nat, st: State, cap: nat)
    requires len <= |js| && More(js, len, st.pos) && ValidState(st) && ParseStep(js, len, st, cap).Next?
    ensures var st' := ParseStep(js, len, st, cap).st;
            SizeSum(st'.toks) == SizeSum(st.toks) + (if |st'.toks| > |st.toks| && st.super != -1 then 1 else 0)
  {
    hide SizeSum, ScanString, ScanPrimitive, LastOpenContainer;
    var c, n := js[st.pos], |st.toks|;
    if c == '{' || c == '[' {
      SizeGrown(st.toks, st.super);
      SizeAppend(Grown(st.toks, st.super), Token(if c == '{' then Object else Array, st.pos, -1, 0));
    } else if c == '}' || c == ']' {
      var i := LastOpen(st.toks);
      SizeUpdate(st.toks, i, st.toks[i].(end := st.pos + 1));
    } else if c == '"' {
      var t := Token(String, st.pos + 1, ScanString(js, len, st.pos + 1).pos, 0);
      SizeAppend(st.toks, t);
      SizeGrown(st.toks + [t], st.super);
    } else if c == '\t' || c == '\r' || c == '\n' || c == ' ' || c == ':' || c == ',' {
    } else {
      var t := Token(Primitive, st.pos, ScanPrimitive(js, len, st.pos).pos, 0);
      SizeAppend(st.toks, t);
      SizeGrown(st.toks + [t], st.super);
    }
  }

  lemma SizeGrown(toks: seq<Token>, super: int)
    requires -1 <= super < |toks|
    ensures SizeSum(Grown(toks, super)) == SizeSum(toks) + (if super == -1 then 0 else 1)
  {
    hide SizeSum;
    if super >= 0 { SizeUpdate(toks, super, toks[super].(size := toks[super].size + 1)); }
  }

  /** The sizes add up to the number of tokens allocated under a superior token. */
  lemma {:induction false} SizesCountAdopted(js: string, len: nat, st: State, cap: nat)
    requires len <= |js| && ValidState(st)
    ensures SizeSum(Run(js, len, st, cap).1.toks) == SizeSum(st.toks) + Adopted(js, len, st, cap)
    decreases len - st.pos
  {
    hide SizeSum;
    if More(js, len, st.pos) {
      var s := ParseStep(js, len, st, cap);
      if s.Next? {
        StepSizes(js, len, st, cap);
        SizesCountAdopted(js, len, s.st, cap);
      }
    }
  }

  // ---------------------------------------------------------------- the parser object

  /** The frame of an optional token array. */
  ghost function Frame(tokens: array?<Token>): set<object> {
    if tokens == null then {} else {tokens}
  }

  class Parser {
    var pos: nat
    var toknext: nat
    var toksuper: int

    /** jsmn_init */
    constructor ()
      ensures pos == 0 && toknext == 0 && toksuper == -1
    {
      pos, toknext, toksuper := 0, 0, -1;
    }

    /** The array keeps the tokens allocated so far. */
    ghost predicate Ready(tokens: array?<Token>, num: nat)
      reads this
    {
      if tokens == null then -1 <= toksuper else toknext <= num <= tokens.Length && -1 <= toksuper < toknext
    }

    ghost function Now(tokens: array<Token>): State
      requires toknext <= tokens.Length
      reads this, tokens
    {
      State(pos, toksuper, tokens[..toknext])
    }

    /** jsmn_alloc_token and jsmn_fill_token for a closed token. */
    method Emit(tokens: array<Token>, num: nat, t: Token) returns (ok: bool)
      requires Ready(tokens, num)
      modifies this`toknext, tokens
      ensures ok <==> old(toknext) < num
      ensures ok ==> toknext == old(toknext) + 1 && tokens[..toknext] == old(tokens[..toknext]) + [t]
      ensures !ok ==> toknext == old(toknext) && tokens[..toknext] == old(tokens[..toknext])
    {
      if toknext >= num { return false; }
      tokens[toknext] := t;
      toknext := toknext + 1;
      return true;
    }

    /** tokens[toksuper].size++ */
    method Adopt(tokens: array<Token>)
      requires -1 <= toksuper < toknext <= tokens.Length
      modifies tokens
      ensures tokens[..toknext] == Grown(old(tokens[..toknext]), toksuper)
    {
      if toksuper != -1 {
        tokens[toksuper] := tokens[toksuper].(size := tokens[toksuper].size + 1);
      }
    }

    /** jsmn_parse_primitive: on success pos is left on the last character of the primitive. */
    method ParsePrimitive(js: string, len: nat, tokens: array?<Token>, num: nat) returns (r: int)
      requires len <= |js| && Ready(tokens, num) && More(js, len, pos) && !EndsPrimitive(js[pos])
      modifies this, Frame(tokens)
      ensures toksuper == old(toksuper)
      ensures var e := ScanPrimitive(js, len, old(pos));
              if e.Failed? then r == e.code && pos == old(pos) && toknext == old(toknext)
                                && (tokens != null ==> tokens[..toknext] == old(tokens[..toknext]))
              else if tokens == null then r == 0 && pos == e.pos - 1 && toknext == old(toknext)
              else if old(toknext) >= num then r == NOMEM && pos == old(pos) && toknext == old(toknext)
                                               && tokens[..toknext] == old(tokens[..toknext])
              else r == 0 && pos == e.pos - 1 && toknext == old(toknext) + 1
                   && tokens[..toknext] == old(tokens[..toknext]) + [Token(Primitive, old(pos), e.pos, 0)]
    {
      var start := pos;
      while More(js, len, pos) && !EndsPrimitive(js[pos])
        invariant start <= pos <= len && toknext == old(toknext) && toksuper == old(toksuper)
        invariant pos == start ==> More(js, len, pos) && !EndsPrimitive(js[pos])
        invariant ScanPrimitive(js, len, pos) == ScanPrimitive(js, len, start)
        invariant tokens != null ==> tokens[..toknext] == old(tokens[..toknext])
        decreases len - pos
      {
        if js[pos] as int < 32 || js[pos] as int >= 127 {
          pos := start;
          return INVAL;
        }
        pos := pos + 1;
      }
      if tokens == null {
        pos := pos - 1;
        return 0;
      }
      var ok := Emit(tokens, num, Token(Primitive, start, pos, 0));
      if !ok {
        pos := start;
        return NOMEM;
      }
      pos := pos - 1;
      return 0;
    }

    /** jsmn_parse_string: on success pos is left on the closing quote. */
    method ParseString(js: string, len: nat, tokens: array?<Token>, num: nat) returns (r: int)
      requires len <= |js| && Ready(tokens, num) && More(js, len, pos)
      modifies this, Frame(tokens)
      ensures toksuper == old(toksuper)
      ensures var q := ScanString(js, len, old(pos) + 1);
              if q.Failed? then r == q.code && pos == old(pos) && toknext == old(toknext)
                                && (tokens != null ==> tokens[..toknext] == old(tokens[..toknext]))
              else if tokens == null then r == 0 && pos == q.pos && toknext == old(toknext)
              else if old(toknext) >= num then r == NOMEM && pos == old(pos) && toknext == old(toknext)
                                               && tokens[..toknext] == old(tokens[..toknext])
              else r == 0 && pos == q.pos && toknext == old(toknext) + 1
                   && tokens[..toknext] == old(tokens[..toknext]) + [Token(String, old(pos) + 1, q.pos, 0)]
    {
      hide ScanString, ScanHex;
      var start := pos;
      pos := pos + 1;
      while More(js, len, pos)
        invariant start < pos <= len && toknext == old(toknext) && toksuper == old(toksuper)
        invariant ScanString(js, len, pos) == ScanString(js, len, start + 1)
        invariant tokens != null ==> tokens[..toknext] == old(tokens[..toknext])
        decreases len - pos
      {
        ScanStringStep(js, len, pos);
        var c := js[pos];
        if c == '"' {
          if tokens == null { return 0; }
          var ok := Emit(tokens, num, Token(String, start + 1, pos, 0));
          if !ok {
            pos := start;
            return NOMEM;
          }
          return 0;
        }
        if c == '\\' && pos + 1 < len {
          pos := pos + 1;
          if IsEscape(js[pos]) {
          } else if js[pos] == 'u' {
            pos := pos + 1;
            var valid := SkipHex(js, len);
            if !valid {
              pos := start;
              return INVAL;
            }
            pos := pos - 1;
          } else {
            pos := start;
            return INVAL;
          }
        }
        pos := pos + 1;
      }
      ScanStringEnds(js, len, pos);
      pos := start;
      return PART;
    }

    /** Up to four hexadecimal digits of a unicode escape. */
    method SkipHex(js: string, len: nat) returns (valid: bool)
      requires pos <= len <= |js|
      modifies this`pos
      ensures var h := ScanHex(js, len, old(pos), 4);
              valid == h.Found? && (valid ==> pos == h.pos)
    {
      var i: nat := 0;
      while i < 4 && More(js, len, pos)
        invariant i <= 4 && pos <= len
        invariant ScanHex(js, len, pos, 4 - i) == ScanHex(js, len, old(pos), 4)
      {
        if !IsHex(js[pos]) { return false; }
        pos := pos + 1;
        i := i + 1;
      }
      return true;
    }

    /** '{' or '[': a new open token, which becomes the superior token. */
    method Open(tokens: array<Token>, num: nat, kind: Kind) returns (ok: bool)
      requires Ready(tokens, num)
      modifies this`toknext, this`toksuper, tokens
      ensures ok <==> old(toknext) < num
      ensures ok ==> toknext == old(toknext) + 1 && toksuper == old(toknext)
                     && tokens[..toknext] == Grown(old(tokens[..toknext]), old(toksuper)) + [Token(kind, pos, -1, 0)]
      ensures !ok ==> toknext == old(toknext) && toksuper == old(toksuper) && tokens[..toknext] == old(tokens[..toknext])
    {
      ok := Emit(tokens, num, Token(Undefined, -1, -1, 0));
      if !ok { return; }
      var n := toknext - 1;
      ghost var before := tokens[..n];
      Adopt(tokens);
      assert tokens[..n] == Grown(before, toksuper);
      tokens[n] := tokens[n].(kind := kind, start := pos);
      toksuper := n;
      assert tokens[..n] == Grown(before, old(toksuper));
    }

    /** '}' or ']': close the last open token when the kinds agree, and make the next open token below it superior. */
    method Close(tokens: array<Token>, num: nat, kind: Kind) returns (ok: bool)
      requires Ready(tokens, num)
      modifies this`toksuper, tokens
      ensures var toks := old(tokens[..toknext]);
              var i := LastOpen(toks);
              ok == (i != -1 && toks[i].kind == kind)
              && (if ok then
                    var closed := toks[i := toks[i].(end := pos + 1)];
                    tokens[..toknext] == closed && toksuper == LastOpen(closed[..i + 1])
                  else tokens[..toknext] == toks && toksuper == old(toksuper))
    {
      ghost var toks := tokens[..toknext];
      var i := FindOpen(tokens, toknext);
      if i == -1 || tokens[i].kind != kind { return false; }
      tokens[i] := tokens[i].(end := pos + 1);
      ghost var closed := toks[i := toks[i].(end := pos + 1)];
      assert tokens[..toknext] == closed;
      assert tokens[..i + 1] == closed[..i + 1];
      toksuper := FindOpen(tokens, i + 1);
      return true;
    }

    /** The last open token among the first n, or -1. */
    method FindOpen(tokens: array<Token>, n: nat) returns (i: int)
      requires n <= tokens.Length
      ensures i == LastOpen(tokens[..n])
    {
      i := n - 1;
      while i >= 0 && !IsOpen(tokens[i])
        invariant -1 <= i < n && LastOpen(tokens[..i + 1]) == LastOpen(tokens[..n])
      {
        assert tokens[..i + 1][..i] == tokens[..i];
        i := i - 1;
      }
    }

    method FindOpenContainer(tokens: array<Token>, n: nat) returns (i: int)
      requires n <= tokens.Length
      ensures i == LastOpenContainer(tokens[..n])
    {
      i := n - 1;
      while i >= 0 && !(IsContainer(tokens[i]) && IsOpen(tokens[i]))
        invariant -1 <= i < n && LastOpenContainer(tokens[..i + 1]) == LastOpenContainer(tokens[..n])
      {
        assert tokens[..i + 1][..i] == tokens[..i];
        i := i - 1;
      }
    }

    /** The switch of jsmn_parse over a token array; pos is left one before the next character to read. */
    method StepArray(js: string, len: nat, tokens: array<Token>, num: nat) returns (r: int)
      requires len <= |js| && Ready(tokens, num) && More(js, len, pos)
      modifies this, tokens
      ensures Ready(tokens, num)
      ensures var s := ParseStep(js, len, old(Now(tokens)), num);
              if s.Next? then Now(tokens).(pos := pos + 1) == s.st && r == toknext - old(toknext) >= 0
              else r == s.code < 0 && Now(tokens) == old(Now(tokens))
    {
      hide ScanString, ScanPrimitive, LastOpen, LastOpenContainer;
      var c := js[pos];
      if c == '{' || c == '[' {
        var ok := Open(tokens, num, if c == '{' then Object else Array);
        return if ok then 1 else NOMEM;
      } else if c == '}' || c == ']' {
        var ok := Close(tokens, num, if c == '}' then Object else Array);
        return if ok then 0 else INVAL;
      } else if c == '\t' || c == '\r' || c == '\n' || c == ' ' {
        return 0;
      } else if c == ':' {
        toksuper := toknext - 1;
        return 0;
      } else if c == ',' {
        if toksuper != -1 && tokens[toksuper].kind != Array && tokens[toksuper].kind != Object {
          var i := FindOpenContainer(tokens, toknext);
          if i != -1 { toksuper := i; }
        }
        return 0;
      } else {
        r := StepScalar(js, len, tokens, num);
      }
    }

    predicate Structural(c: char) {
      IsBracket(c) || c == '\t' || c == '\r' || c == '\n' || c == ' ' || c == ':' || c == ','
    }

    /** The cases of the switch that read a string or a primitive and count it for the superior token. */
    method StepScalar(js: string, len: nat, tokens: array<Token>, num: nat) returns (r: int)
      requires len <= |js| && Ready(tokens, num) && More(js, len, pos) && !Structural(js[pos])
      modifies this, tokens
      ensures Ready(tokens, num)
      ensures var s := ParseStep(js, len, old(Now(tokens)), num);
              if s.Next? then Now(tokens).(pos := pos + 1) == s.st && r == toknext - old(toknext) >= 0
              else r == s.code < 0 && Now(tokens) == old(Now(tokens))
    {
      hide ScanString, ScanPrimitive, LastOpen, LastOpenContainer;
      if js[pos] == '"' {
        r := ParseString(js, len, tokens, num);
      } else {
        r := ParsePrimitive(js, len, tokens, num);
      }
      if r < 0 { return; }
      Adopt(tokens);
      return 1;
    }

    /** The switch of jsmn_parse when tokens is NULL. */
    method StepCount(js: string, len: nat) returns (r: int)
      requires len <= |js| && Ready(null, 0) && More(js, len, pos)
      modifies this
      ensures Ready(null, 0) && toknext == old(toknext)
      ensures forall k :: Count(js, len, old(pos), k) == if r < 0 then r else Count(js, len, pos + 1, k + r)
      ensures r >= 0 ==> old(pos) <= pos < len
    {
      hide ScanString, ScanPrimitive;
      var c := js[pos];
      if c == '{' || c == '[' {
        return 1;
      } else if c == '"' {
        r := ParseString(js, len, null, 0);
        if r < 0 { return; }
        return 1;
      } else if c == ':' {
        toksuper := toknext - 1;
        return 0;
      } else if c == '}' || c == ']' || c == '\t' || c == '\r' || c == '\n' || c == ' ' || c == ',' {
        return 0;
      } else {
        r := ParsePrimitive(js, len, null, 0);
        if r < 0 { return; }
        return 1;
      }
    }

    /** jsmn_parse */
    method Parse(js: string, len: nat, tokens: array?<Token>, num: nat) returns (r: int)
      requires len <= |js| && Ready(tokens, num)
      modifies this, Frame(tokens)
      ensures tokens == null ==> r == Count(js, len, old(pos), old(toknext)) && toknext == old(toknext)
      ensures tokens != null ==> Ready(tokens, num) && Run(js, len, old(Now(tokens)), num) == (r, Now(tokens))
    {
      hide ParseStep;
      var count: int := toknext;
      while More(js, len, pos)
        invariant Ready(tokens, num)
        invariant tokens == null ==> toknext == old(toknext) && Count(js, len, pos, count) == Count(js, len, old(pos), old(toknext))
        invariant tokens != null ==> count == toknext && Run(js, len, Now(tokens), num) == Run(js, len, old(Now(tokens)), num)
        decreases len - pos
      {
        if tokens == null {
          r := StepCount(js, len);
        } else {
          r := StepArray(js, len, tokens, num);
        }
        if r < 0 { return; }
        count := count + r;
        pos := pos + 1;
      }
      if tokens != null {
        var i := FindOpen(tokens, toknext);
        if i >= 0 { return PART; }
      }
      return count;
    }
  }
}
