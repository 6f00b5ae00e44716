/** What the tokenizer does not accept: which strings and primitives it rejects, and what it says of a text that breaks off. */
module JsmnRejects {
  import opened Jsmn
  import opened JsmnValues

  // ---------------------------------------------------------------- strings

  const HEX := "0123456789abcdefABCDEF"

  lemma HexIs(c: char)
    ensures IsHex(c) <==> c in HEX
  {
  }

  /** Of the characters from p on, the one at e is the first that is no hexadecimal digit, and the text is not over before it. */
  predicate BadHex(js: string, len: nat, p: nat, e: nat)
    requires len <= |js|
  {
    p <= e < len && js[e] != '\0' && js[e] !in HEX && forall i :: p <= i < e ==> js[i] in HEX
  }

  ghost predicate AnyBadHex(js: string, len: nat, p: nat, n: nat)
    requires len <= |js|
  {
    exists e: nat :: e < p + n && BadHex(js, len, p, e)
  }

  lemma BadHexStep(js: string, len: nat, p: nat, n: nat)
    requires len <= |js| && More(js, len, p) && n > 0
    ensures AnyBadHex(js, len, p, n) <==> js[p] !in HEX || AnyBadHex(js, len, p + 1, n - 1)
  {
    hide HEX;
    var p1 := p + 1;
    if js[p] !in HEX {
      assert BadHex(js, len, p, p);
    } else {
      forall e: nat ensures BadHex(js, len, p, e) <==> BadHex(js, len, p1, e) { }
    }
  }

  lemma {:induction false} HexFails(js: string, len: nat, p: nat, n: nat)
    requires len <= |js|
    ensures ScanHex(js, len, p, n).Failed? <==> AnyBadHex(js, len, p, n)
    decreases n
  {
    hide IsHex, HEX;
    if n > 0 && More(js, len, p) {
      HexIs(js[p]);
      BadHexStep(js, len, p, n);
      hide AnyBadHex;
      HexFails(js, len, p + 1, n - 1);
    } else {
      HexOver(js, len, p, n);
    }
  }

  lemma HexOver(js: string, len: nat, p: nat, n: nat)
    requires len <= |js| && (n == 0 || !More(js, len, p))
    ensures !AnyBadHex(js, len, p, n)
  {
    assert '\0' !in HEX;
  }

  /** At k stands an escape that is none: an unknown letter, or u before something that is no hexadecimal digit. */
  ghost predicate BadEscape(js: string, len: nat, k: nat)
    requires len <= |js|
  {
    k + 1 < len && js[k] == '\\' && (js[k + 1] !in "\"\\/bfnrtu" || (js[k + 1] == 'u' && AnyBadHex(js, len, k + 2, 4)))
  }

  /** Pieces stand at p, and at their end the closing quote, or an escape that is none. */
  ghost predicate Closes(js: string, len: nat, p: nat, ps: seq<Piece>) {
    ArePieces(ps) && At(js, len, p, Spelled(ps) + "\"")
  }

  ghost predicate Breaks(js: string, len: nat, p: nat, ps: seq<Piece>) {
    len <= |js| && ArePieces(ps) && At(js, len, p, Spelled(ps)) && BadEscape(js, len, p + |Spelled(ps)|)
  }

  lemma Escapes(c: char)
    ensures IsEscape(c) <==> c in "\"\\/bfnrt"
    ensures c in "\"\\/bfnrtu" <==> IsEscape(c) || c == 'u'
  {
  }

  /** One more piece in front. */
  lemma InFront(js: string, len: nat, p: nat, x: Piece, ps: seq<Piece>)
    requires IsPiece(x) && ArePieces(ps) && At(js, len, p, PieceText(x)) && len <= |js|
    ensures ArePieces([x] + ps) && Spelled([x] + ps) == PieceText(x) + Spelled(ps)
    ensures At(js, len, p + |PieceText(x)|, Spelled(ps)) ==> At(js, len, p, Spelled([x] + ps))
    ensures Closes(js, len, p + |PieceText(x)|, ps) ==> Closes(js, len, p, [x] + ps)
    ensures Breaks(js, len, p + |PieceText(x)|, ps) ==> Breaks(js, len, p, [x] + ps)
  {
    hide PieceText, IsPiece, BadEscape, At;
    assert ([x] + ps)[1..] == ps;
    var a, q := PieceText(x), p + |PieceText(x)|;
    assert Spelled([x] + ps) == a + Spelled(ps);
    assert Spelled([x] + ps) + "\"" == a + (Spelled(ps) + "\"");
    if At(js, len, q, Spelled(ps)) { AtJoin(js, len, p, a, Spelled(ps)); }
    if At(js, len, q, Spelled(ps) + "\"") { AtJoin(js, len, p, a, Spelled(ps) + "\""); }
  }

  lemma AtJoin(js: string, len: nat, p: nat, a: string, b: string)
    requires At(js, len, p, a) && At(js, len, p + |a|, b)
    ensures At(js, len, p, a + b)
  {
    assert js[p..p + |a + b|] == js[p..p + |a|] + js[p + |a|..p + |a| + |b|];
  }

  lemma NoPiece(js: string, len: nat, p: nat)
    requires len <= |js|
    ensures Spelled([]) == "" && (p < len && js[p] == '"' ==> Closes(js, len, p, []))
    ensures BadEscape(js, len, p) ==> Breaks(js, len, p, [])
  {
    hide BadEscape;
    assert p <= len ==> js[p..p] == "";
    assert "" + "\"" == "\"";
    assert p < len ==> js[p..p + 1] == [js[p]];
    if BadEscape(js, len, p) { EscapeInside(js, len, p); }
  }

  lemma EscapeInside(js: string, len: nat, k: nat)
    requires len <= |js| && BadEscape(js, len, k)
    ensures k + 1 < len
  {
  }

  lemma {:induction false} HexFound(js: string, len: nat, p: nat, n: nat)
    requires len <= |js| && ScanHex(js, len, p, n).Found?
    ensures var q := ScanHex(js, len, p, n).pos;
            q <= p + n && (q < p + n ==> !More(js, len, q)) && q - p <= |js| && (p <= len ==> q <= len)
            && forall i :: p <= i < q && i < |js| ==> js[i] in HEX
    decreases n
  {
    hide IsHex, HEX;
    if n > 0 && More(js, len, p) {
      HexIs(js[p]);
      HexFound(js, len, p + 1, n - 1);
    }
  }

  /** What stands behind a backslash. */
  lemma EscapeShown(js: string, len: nat, p: nat)
    requires len <= |js| && p + 1 < len && js[p] == '\\'
    ensures IsEscape(js[p + 1]) ==> IsPiece(Escape(js[p + 1])) && At(js, len, p, PieceText(Escape(js[p + 1])))
    ensures BadEscape(js, len, p) <==> !IsEscape(js[p + 1]) && (js[p + 1] == 'u' ==> ScanHex(js, len, p + 2, 4).Failed?)
  {
    hide IsEscape, ScanHex, AnyBadHex;
    Escapes(js[p + 1]);
    HexFails(js, len, p + 2, 4);
    assert js[p..p + 2] == [js[p], js[p + 1]];
  }

  lemma UnicodeShown(js: string, len: nat, p: nat)
    requires len <= |js| && p + 1 < len && js[p] == '\\' && js[p + 1] == 'u' && ScanHex(js, len, p + 2, 4).Found?
    ensures var q := ScanHex(js, len, p + 2, 4).pos;
            if q == p + 6 then q <= len && IsPiece(Unicode(js[p + 2..q])) && At(js, len, p, PieceText(Unicode(js[p + 2..q])))
            else ScanString(js, len, q) == Failed(PART)
  {
    hide ScanHex, ScanString;
    HexFound(js, len, p + 2, 4);
    var q := ScanHex(js, len, p + 2, 4).pos;
    if q == p + 6 {
      var hex := js[p + 2..q];
      forall c | c in hex ensures c in HEX { }
      assert PieceText(Unicode(hex)) == ['\\', 'u'] + hex;
      assert js[p..p + 6] == [js[p], js[p + 1]] + hex;
    } else {
      ScanStringEnds(js, len, q);
    }
  }

  /** What a scan finds: the pieces of a string up to its quote, or up to an escape that is none. */
  lemma {:induction false} ScanShows(js: string, len: nat, p: nat) returns (ps: seq<Piece>)
    requires len <= |js|
    ensures match ScanString(js, len, p)
      case Found(q) => Closes(js, len, p, ps) && q == p + |Spelled(ps)|
      case Failed(code) => code == INVAL ==> Breaks(js, len, p, ps)
    decreases len - p
  {
    hide ScanString, ScanHex, IsEscape, BadEscape, Closes, Breaks, Spelled, At, IsPiece, ArePieces;
    ps := [];
    NoPiece(js, len, p);
    if !More(js, len, p) {
      ScanStringEnds(js, len, p);
    } else {
      ScanStringStep(js, len, p);
      if js[p] == '\\' && p + 1 < len {
        EscapeShown(js, len, p);
        if IsEscape(js[p + 1]) {
          ps := ScanOn(js, len, p, Escape(js[p + 1]));
        } else if js[p + 1] == 'u' && ScanHex(js, len, p + 2, 4).Found? {
          UnicodeShown(js, len, p);
          var q := ScanHex(js, len, p + 2, 4).pos;
          if q == p + 6 { ps := ScanOn(js, len, p, Unicode(js[p + 2..q])); }
        }
      } else if js[p] == '\\' {
        ScanStringEnds(js, len, p + 1);
      } else if js[p] != '"' {
        PlainShown(js, len, p);
        ps := ScanOn(js, len, p, Plain(js[p]));
      }
    }
  }

  lemma PlainShown(js: string, len: nat, p: nat)
    requires len <= |js| && More(js, len, p) && js[p] != '"' && js[p] != '\\'
    ensures IsPiece(Plain(js[p])) && At(js, len, p, PieceText(Plain(js[p])))
  {
    assert js[p..p + 1] == [js[p]];
  }

  /** What a scan finds behind a piece. */
  lemma {:induction false} ScanOn(js: string, len: nat, p: nat, x: Piece) returns (ps: seq<Piece>)
    requires len <= |js| && p < len && IsPiece(x) && At(js, len, p, PieceText(x)) && |PieceText(x)| > 0
    ensures match ScanString(js, len, p + |PieceText(x)|)
      case Found(q) => Closes(js, len, p, ps) && q == p + |Spelled(ps)|
      case Failed(code) => code == INVAL ==> Breaks(js, len, p, ps)
    decreases len - p, 0
  {
    hide ScanString, PieceText, IsPiece, At, BadEscape, Spelled;
    var rest := ScanShows(js, len, p + |PieceText(x)|);
    ps := [x] + rest;
    if ArePieces(rest) { InFront(js, len, p, x, rest); }
  }

  /** An escape that is none ends the scan. */
  lemma {:induction false} ScanBreaks(js: string, len: nat, p: nat, ps: seq<Piece>)
    requires len <= |js| && Breaks(js, len, p, ps)
    ensures ScanString(js, len, p) == Failed(INVAL)
    decreases |ps|
  {
    hide ScanString, ScanHex, IsEscape, BadEscape, PieceText, IsPiece, At, Spelled;
    EscapeInside(js, len, p + |Spelled(ps)|);
    SpelledIs(ps);
    if |ps| == 0 {
      BackslashThere(js, len, p);
      EscapeShown(js, len, p);
      ScanStringStep(js, len, p);
    } else {
      var a, rest := PieceText(ps[0]), Spelled(ps[1..]);
      assert Spelled(ps) == a + rest by { FrontPiece(ps); }
      AtSplit(js, len, p, a, rest);
      ScanPiece(js, len, p, ps[0]);
      ScanBreaks(js, len, p + |a|, ps[1..]);
    }
  }

  lemma FrontPiece(ps: seq<Piece>)
    requires |ps| > 0
    ensures Spelled(ps) == PieceText(ps[0]) + Spelled(ps[1..])
  {
    hide PieceText;
  }

  lemma BackslashThere(js: string, len: nat, p: nat)
    requires len <= |js| && BadEscape(js, len, p)
    ensures p + 1 < len && js[p] == '\\'
  {
  }

  /** A scan ends at a quote exactly behind the pieces of a string, and is invalid exactly at an escape that is none; in every other
      case the text breaks off. */
  lemma StringExactly(js: string, len: nat, p: nat, q: nat)
    requires len <= |js|
    ensures ScanString(js, len, p) == Found(q) <==> exists ps :: Closes(js, len, p, ps) && q == p + |Spelled(ps)|
    ensures ScanString(js, len, p) == Failed(INVAL) <==> exists ps :: Breaks(js, len, p, ps)
  {
    hide ScanString, Spelled, Breaks;
    var ps := ScanShows(js, len, p);
    forall ps | Closes(js, len, p, ps) ensures ScanString(js, len, p) == Found(p + |Spelled(ps)|) { ScanSpelled(js, len, p, ps); }
    forall ps | Breaks(js, len, p, ps) ensures ScanString(js, len, p) == Failed(INVAL) { ScanBreaks(js, len, p, ps); }
  }

  // ---------------------------------------------------------------- primitives

  predicate InWord(c: char) {
    ' ' < c <= '~' && c !in ":,]}"
  }

  lemma InWordIs(c: char)
    ensures InWord(c) <==> !EndsPrimitive(c) && 32 <= c as int < 127
  {
  }

  /** From p to q stand characters of a primitive. */
  predicate WordTo(js: string, len: nat, p: nat, q: nat)
    requires len <= |js|
  {
    p <= q <= len && forall i :: p <= i < q ==> InWord(js[i])
  }

  /** A primitive reaches to the first character that ends one or to the end of the text, and is invalid exactly when a control
      character or one from DEL on comes first. */
  lemma PrimitiveExactly(js: string, len: nat, p: nat, q: nat)
    requires len <= |js| && p <= q <= len && WordTo(js, len, p, q) && (q < len && js[q] != '\0' ==> !InWord(js[q]))
    ensures ScanPrimitive(js, len, p) == if Ends(js, len, q) then Found(q) else Failed(INVAL)
    decreases q - p
  {
    if p < q {
      InWordIs(js[p]);
      PrimitiveExactly(js, len, p + 1, q);
    } else if More(js, len, q) {
      InWordIs(js[q]);
    }
  }

  // ---------------------------------------------------------------- texts that break off

  lemma {:induction false} HexCut(js: string, len: nat, cut: nat, p: nat, n: nat)
    requires p <= cut <= len <= |js| && ScanHex(js, len, p, n).Found?
    ensures var h := ScanHex(js, len, p, n).pos;
            ScanHex(js, cut, p, n) == Found(if h <= cut then h else cut)
    decreases n
  {
    hide IsHex;
    if n > 0 && More(js, cut, p) { HexCut(js, len, cut, p + 1, n - 1); }
  }

  lemma {:induction false} StringCut(js: string, len: nat, cut: nat, p: nat)
    requires p <= cut <= len <= |js| && ScanString(js, len, p).Found?
    ensures var q := ScanString(js, len, p).pos;
            ScanString(js, cut, p) == if q < cut then Found(q) else Failed(PART)
    decreases len - p
  {
    hide ScanString, ScanHex, IsEscape;
    if !More(js, len, p) { ScanStringEnds(js, len, p); } else { ScanStringStep(js, len, p); }
    if !More(js, cut, p) {
      ScanStringEnds(js, cut, p);
    } else {
      ScanStringStep(js, cut, p);
      if js[p] == '\\' && p + 1 < len {
        if p + 1 == cut {
          ScanStringEnds(js, cut, cut);
        } else if IsEscape(js[p + 1]) {
          StringCut(js, len, cut, p + 2);
        } else if js[p + 1] == 'u' && ScanHex(js, len, p + 2, 4).Found? {
          UnicodeCut(js, len, cut, p);
        }
      } else if js[p] != '"' {
        StringCut(js, len, cut, p + 1);
      }
    }
  }

  lemma {:induction false} UnicodeCut(js: string, len: nat, cut: nat, p: nat)
    requires p + 2 <= cut <= len <= |js| && ScanHex(js, len, p + 2, 4).Found? && ScanString(js, len, ScanHex(js, len, p + 2, 4).pos).Found?
    ensures var h := ScanHex(js, cut, p + 2, 4);
            var q := ScanString(js, len, ScanHex(js, len, p + 2, 4).pos).pos;
            h.Found? && ScanString(js, cut, h.pos) == if q < cut then Found(q) else Failed(PART)
    decreases len - p, 0
  {
    hide ScanString, ScanHex;
    HexCut(js, len, cut, p + 2, 4);
    var h := ScanHex(js, len, p + 2, 4).pos;
    if h <= cut { StringCut(js, len, cut, h); } else { ScanStringEnds(js, cut, cut); }
  }

  lemma {:induction false} PrimitiveCut(js: string, len: nat, cut: nat, p: nat)
    requires p <= cut <= len <= |js| && ScanPrimitive(js, len, p).Found?
    ensures var e := ScanPrimitive(js, len, p).pos;
            ScanPrimitive(js, cut, p) == Found(if e <= cut then e else cut)
    decreases len - p
  {
    hide EndsPrimitive;
    if More(js, cut, p) && !EndsPrimitive(js[p]) { PrimitiveCut(js, len, cut, p + 1); }
  }

  /** A step on the text that breaks off: as on the whole text, or the last one. */
  lemma StepCut(js: string, len: nat, cut: nat, st: State, cap: nat)
    requires cut <= len <= |js| && ValidState(st) && More(js, cut, st.pos) && ParseStep(js, len, st, cap).Next?
    ensures var s, c := ParseStep(js, len, st, cap), ParseStep(js, cut, st, cap);
            (c == s && s.st.pos <= cut) || c == Stop(PART)
            || (c.Next? && c.st.pos == cut && |st.toks| < |c.st.toks| && forall i :: 0 <= i < |st.toks| ==> (IsOpen(st.toks[i]) ==> IsOpen(c.st.toks[i])))
  {
    hide ScanString, ScanPrimitive, LastOpen, LastOpenContainer;
    var c := js[st.pos];
    if c == '"' {
      StringCut(js, len, cut, st.pos + 1);
    } else if !(IsBracket(c) || c == '\t' || c == '\r' || c == '\n' || c == ' ' || c == ':' || c == ',') {
      PrimitiveCut(js, len, cut, st.pos);
    }
  }

  /** The first token stays open or is closed where the step reads, and a closed one keeps its end. */
  lemma StepFirst(js: string, len: nat, st: State, cap: nat)
    requires len <= |js| && ValidState(st) && More(js, len, st.pos) && ParseStep(js, len, st, cap).Next? && |st.toks| > 0
    ensures var st' := ParseStep(js, len, st, cap).st;
            |st'.toks| > 0 && st'.toks[0].start == st.toks[0].start
            && (st.toks[0].end != -1 ==> st'.toks[0].end == st.toks[0].end)
            && (st.toks[0].end == -1 ==> st'.toks[0].end == -1 || st'.toks[0].end == st.pos + 1)
  {
    hide ScanString, ScanPrimitive, LastOpen, LastOpenContainer;
  }

  lemma {:induction false} FirstKeepsEnd(js: string, len: nat, st: State, cap: nat)
    requires len <= |js| && ValidState(st) && |st.toks| > 0
    ensures var st' := Run(js, len, st, cap).1;
            |st'.toks| > 0 && (st.toks[0].end != -1 ==> st'.toks[0].end == st.toks[0].end)
    decreases len - st.pos
  {
    hide ParseStep;
    if More(js, len, st.pos) {
      var s := ParseStep(js, len, st, cap);
      if s.Next? {
        StepFirst(js, len, st, cap);
        FirstKeepsEnd(js, len, s.st, cap);
      }
    }
  }

  /** Cutting a text before the end of its first token leaves that token open. */
  lemma {:induction false} RunCut(js: string, len: nat, cut: nat, st: State, cap: nat)
    requires st.pos <= cut <= len <= |js| && ValidState(st) && |st.toks| > 0 && IsOpen(st.toks[0]) && Run(js, len, st, cap).0 >= 0
    requires |Run(js, len, st, cap).1.toks| > 0 && Run(js, len, st, cap).1.toks[0].end > cut
    ensures Run(js, cut, st, cap).0 == PART
    decreases len - st.pos
  {
    hide ParseStep, LastOpen;
    if !More(js, cut, st.pos) {
      assert LastOpen(st.toks) != -1;
    } else {
      var s, c := ParseStep(js, len, st, cap), ParseStep(js, cut, st, cap);
      StepCut(js, len, cut, st, cap);
      if c == s && s.st.pos <= cut {
        StepFirst(js, len, st, cap);
        FirstKeepsEnd(js, len, s.st, cap);
        RunCut(js, len, cut, s.st, cap);
      } else if c.Next? {
        assert IsOpen(c.st.toks[0]);
        assert LastOpen(c.st.toks) != -1;
      }
    }
  }

  /** A JSON container that breaks off anywhere before its closing bracket is reported as JSMN_ERROR_PART. */
  lemma Truncated(js: string, len: nat, cap: nat, before: string, v: Value, cut: nat)
    requires IsJson(v) && v.Node? && IsGap(before) && len <= |js| && js[..len] == before + Render(v) && |Tokens(v, |before|)| <= cap
    requires |before| < cut < len
    ensures Run(js, cut, START, cap).0 == PART
  {
    hide Run, ParseStep, Render, Tokens, IsJson, IsGap, ScanString, ScanPrimitive;
    assert js[..len] == before + Render(v) + "";
    NoGap();
    Completeness(js, len, cap, before, v, "");
    RootSpan(v, |before|);
    assert js[0..len] == js[..len];
    AtSplit(js, len, 0, before, Render(v));
    CutAt(js, len, cut, 0, before);
    SkipGap(js, len, START, cap, before);
    SkipGap(js, cut, START, cap, before);
    AtFirst(js, len, |before|, Render(v));
    var st := State(|before|, -1, []);
    FirstStep(js, len, st, cap);
    FirstStep(js, cut, st, cap);
    RunStep(js, len, st, cap);
    RunStep(js, cut, st, cap);
    RunCut(js, len, cut, ParseStep(js, len, st, cap).st, cap);
  }

  lemma NoGap()
    ensures IsGap("")
  {
  }

  lemma CutAt(js: string, len: nat, cut: nat, p: nat, s: string)
    requires At(js, len, p, s) && p + |s| <= cut <= len
    ensures At(js, cut, p, s)
  {
  }

  lemma RootSpan(v: Value, at: nat)
    requires v.Node?
    ensures |Render(v)| > 0 && (Render(v)[0] == '{' || Render(v)[0] == '[')
    ensures |Tokens(v, at)| > 0 && Tokens(v, at)[0].end == at + |Render(v)|
  {
  }

  lemma FirstStep(js: string, len: nat, st: State, cap: nat)
    requires len <= |js| && st.super == -1 && st.toks == [] && cap > 0 && st.pos < len && (js[st.pos] == '{' || js[st.pos] == '[')
    ensures var t := Token(if js[st.pos] == '{' then Object else Array, st.pos, -1, 0);
            More(js, len, st.pos) && ParseStep(js, len, st, cap) == Next(State(st.pos + 1, 0, [t]))
  {
    assert Grown([], -1) == [];
  }
}
