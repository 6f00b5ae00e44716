/** Base64 (RFC 1521, section 5.2): the encoder, the two-pass decoder, and why the second pass stays within the first pass's count. */
module Base64 {
  import opened Common

  type Bytes = seq<byte>

  const PAD: byte := 61
  const CR: byte := 13
  const LF: byte := 10
  const SPACE: byte := 32

  /** base64_enc_map */
  function EncMap(d: nat): (c: byte)
    requires d < 64
  {
    if d < 26 then 65 + d else if d < 52 then 97 + d - 26 else if d < 62 then 48 + d - 52 else if d == 62 then 43 else 47
  }

  /** base64_dec_map: 64 for the padding character, 127 for characters outside the alphabet. */
  function DecMap(c: byte): (d: nat)
    ensures d < 64 || d == 64 || d == 127
  {
    if 65 <= c <= 90 then c - 65 else if 97 <= c <= 122 then c - 97 + 26 else if 48 <= c <= 57 then c - 48 + 52
    else if c == 43 then 62 else if c == 47 then 63 else if c == PAD then 64 else 127
  }

  lemma MapsInverse(d: nat)
    requires d < 64
    ensures DecMap(EncMap(d)) == d && !Blank(EncMap(d)) && EncMap(d) != PAD
  {
  }

  predicate Blank(c: byte) {
    c == CR || c == LF || c == SPACE
  }

  // ---------------------------------------------------------------- encoding

  /** The pads among the last two digits of a group. */
  function GroupPads(c: nat, d: nat): nat {
    if c == 64 then 2 else if d == 64 then 1 else 0
  }

  /** The four digits that spell the first three bytes, or fewer with pads. */
  function FirstGroup(s: Bytes): (g: seq<nat>)
    requires |s| > 0
    ensures |g| == 4 && forall i :: 0 <= i < 4 ==> g[i] <= 64
    ensures g[0] < 64 && g[1] < 64 && (g[2] == 64 ==> g[3] == 64) && 3 - GroupPads(g[2], g[3]) == if |s| < 3 then |s| else 3
  {
    var c1, c2, c3 := s[0], if |s| > 1 then s[1] else 0, if |s| > 2 then s[2] else 0;
    [c1 / 4, c1 % 4 * 16 + c2 / 16, if |s| > 1 then c2 % 16 * 4 + c3 / 64 else 64, if |s| > 2 then c3 % 64 else 64]
  }

  function Rest(s: Bytes): (r: Bytes)
    ensures |s| > 0 ==> |r| < |s|
  {
    if |s| > 3 then s[3..] else []
  }

  function Symbol64(d: nat): (c: byte)
    requires d <= 64
    ensures DecMap(c) == d && !Blank(c)
  {
    if d == 64 then PAD else MapsInverse(d); EncMap(d)
  }

  function Symbols(g: seq<nat>): (r: Bytes)
    requires |g| == 4 && forall i :: 0 <= i < 4 ==> g[i] <= 64
    ensures |r| == 4
  {
    [Symbol64(g[0]), Symbol64(g[1]), Symbol64(g[2]), Symbol64(g[3])]
  }

  function Encode(s: Bytes): (r: Bytes)
    ensures |r| == 4 * ((|s| + 2) / 3)
    decreases |s|
  {
    if |s| == 0 then [] else
      GroupsMore(|s|);
      Symbols(FirstGroup(s)) + Encode(Rest(s))
  }

  lemma GroupsMore(n: nat)
    ensures n > 3 ==> (n + 2) / 3 == (n - 3 + 2) / 3 + 1
    ensures 0 < n <= 3 ==> (n + 2) / 3 == 1
  {
  }

  datatype Error = Success | BufferTooSmall | InvalidCharacter

  /** The output size the encoder computes: the rounded-up sextets, filled to a whole group. */
  function EncodedLength(slen: nat): (n: nat)
    ensures n == 4 * ((slen + 2) / 3)
  {
    var n := slen * 8 / 6;
    match slen * 8 - n * 6
    case 2 => n + 3
    case 4 => n + 2
    case _ => n
  }

  // ---------------------------------------------------------------- decoding: the first pass

  function SkipSpaces(s: Bytes, i: nat): (k: nat)
    requires i <= |s|
    ensures i <= k <= |s| && (k < |s| ==> s[k] != SPACE) && forall j :: i <= j < k ==> s[j] == SPACE
    decreases |s| - i
  {
    if i < |s| && s[i] == SPACE then SkipSpaces(s, i + 1) else i
  }

  datatype Scan = Valid(n: nat, pads: nat) | Invalid

  /** What becomes of one character at k, the spaces before it being skipped. */
  datatype Verdict = LineEnd | Reject | Symbol(pad: bool)

  function Judge(s: Bytes, i: nat, k: nat, pads: nat): (v: Verdict)
    requires i <= k < |s|
  {
    if |s| - k >= 2 && s[k] == CR && s[k + 1] == LF then LineEnd
    else if s[k] == LF then LineEnd
    else if k > i then Reject
    else if s[k] == PAD && pads + 1 > 2 then Reject
    else if s[k] > 127 || DecMap(s[k]) == 127 then Reject
    else if DecMap(s[k]) < 64 && pads != 0 then Reject
    else Symbol(s[k] == PAD)
  }

  function FirstPass(s: Bytes, i: nat, n: nat, pads: nat): (r: Scan)
    requires i <= |s|
    decreases |s| - i
  {
    var k := SkipSpaces(s, i);
    if k == |s| then Valid(n, pads)
    else
      match Judge(s, i, k, pads)
      case LineEnd => FirstPass(s, k + 1, n, pads)
      case Reject => Invalid
      case Symbol(pad) => FirstPass(s, k + 1, n + 1, if pad then pads + 1 else pads)
  }

  // ---------------------------------------------------------------- decoding: the second pass

  /** The map values of the characters that are not blank. */
  function Digits(s: Bytes): (r: seq<nat>) {
    if |s| == 0 then [] else if Blank(s[0]) then Digits(s[1..]) else [DecMap(s[0])] + Digits(s[1..])
  }

  function Pads(ds: seq<nat>): (p: nat) {
    if |ds| == 0 then 0 else Pads(ds[1..]) + (if ds[0] == 64 then 1 else 0)
  }

  const WORD := 0x1_0000_0000

  function Shift(x: nat, d: nat): (r: nat) {
    (x * 64 + d % 64) % WORD
  }

  /** The bytes written for a whole group: as many as j says, at most three. */
  function Emit(x: nat, j: int): (r: Bytes) {
    if j > 2 then [x / 65536 % 256, x / 256 % 256, x % 256]
    else if j > 1 then [x / 65536 % 256, x / 256 % 256]
    else if j > 0 then [x / 65536 % 256]
    else []
  }

  function SecondPass(ds: seq<nat>, x: nat, n: nat, j: int): (r: Bytes) {
    if |ds| == 0 then []
    else
      var j1, x1 := if ds[0] == 64 then j - 1 else j, Shift(x, ds[0]);
      if n + 1 == 4 then Emit(x1, j1) + SecondPass(ds[1..], x1, 0, j1) else SecondPass(ds[1..], x1, n + 1, j1)
  }

  // ---------------------------------------------------------------- the second pass writes no more than counted

  /** Padding comes last: once a pad has been seen, only pads follow. */
  ghost predicate PadsLast(ds: seq<nat>, seen: nat) {
    |ds| == 0 || (ds[0] < 64 && seen == 0 && PadsLast(ds[1..], 0)) || (ds[0] == 64 && PadsLast(ds[1..], seen + 1))
  }

  /** What acceptance by the first pass means for the digits that the second pass will see. */
  lemma {:induction false} FirstPassMeans(s: Bytes, i: nat, n: nat, pads: nat)
    requires i <= |s| && pads <= 2
    ensures match FirstPass(s, i, n, pads)
      case Valid(m, p) =>
        var ds := Digits(s[i..]);
        m == n + |ds| && p == pads + Pads(ds) && p <= 2 && PadsLast(ds, pads)
      case Invalid => true
    decreases |s| - i
  {
    hide FirstPass, SkipSpaces, Digits, Judge, DecMap, Blank, Pads, PadsLast;
    var k := SkipSpaces(s, i);
    BlanksDropped(s, i, k);
    FirstPassStep(s, i, n, pads);
    if k < |s| {
      JudgeMeans(s, i, k, pads);
      assert s[k..] == [s[k]] + s[k + 1..];
      match Judge(s, i, k, pads) {
        case LineEnd =>
          FirstPassMeans(s, k + 1, n, pads);
          BlankFirst(s[k], s[k + 1..]);
        case Reject =>
        case Symbol(pad) =>
          FirstPassMeans(s, k + 1, n + 1, if pad then pads + 1 else pads);
          FirstDigit(s[k], s[k + 1..]);
          OneShape(DecMap(s[k]), Digits(s[k + 1..]), pads);
      }
    } else {
      assert s[k..] == [];
      NoPads();
    }
  }

  lemma FirstPassStep(s: Bytes, i: nat, n: nat, pads: nat)
    requires i <= |s|
    ensures var k := SkipSpaces(s, i);
            FirstPass(s, i, n, pads) ==
              if k == |s| then Valid(n, pads)
              else match Judge(s, i, k, pads)
                   case LineEnd => FirstPass(s, k + 1, n, pads)
                   case Reject => Invalid
                   case Symbol(pad) => FirstPass(s, k + 1, n + 1, if pad then pads + 1 else pads)
  {
  }

  /** What the verdict on a character says about it. */
  lemma JudgeMeans(s: Bytes, i: nat, k: nat, pads: nat)
    requires i <= k < |s| && pads <= 2
    ensures match Judge(s, i, k, pads)
      case LineEnd => Blank(s[k])
      case Reject => true
      case Symbol(pad) => !Blank(s[k]) && (if pad then DecMap(s[k]) == 64 && pads < 2 else DecMap(s[k]) < 64 && pads == 0)
  {
  }

  lemma {:induction false} BlanksDropped(s: Bytes, i: nat, k: nat)
    requires i <= k <= |s| && forall j :: i <= j < k ==> s[j] == SPACE
    ensures Digits(s[i..]) == Digits(s[k..])
    decreases k - i
  {
    if i < k {
      assert s[i..][0] == s[i] && s[i..][1..] == s[i + 1..];
      BlanksDropped(s, i + 1, k);
    }
  }

  /** With n digits pending in the current group, q of them pads: the bytes still to be written are within the bits still counted. */
  lemma {:induction false} SecondPassBound(ds: seq<nat>, x: nat, n: nat, j: int, q: nat)
    requires q <= n < 4 && 1 <= j <= 3 && q <= 3 - j && PadsLast(ds, 3 - j) && 3 - j + Pads(ds) <= 2
    requires q < 3 - j ==> q == n
    ensures |SecondPass(ds, x, n, j)| + q + Pads(ds) <= (6 * (n + |ds|) + 7) / 8
    ensures (n + |ds|) % 4 == 0 ==> |SecondPass(ds, x, n, j)| + q + Pads(ds) == (6 * (n + |ds|) + 7) / 8
  {
    hide Shift;
    if |ds| > 0 {
      var j1, x1 := if ds[0] == 64 then j - 1 else j, Shift(x, ds[0]);
      var q1 := if ds[0] == 64 then q + 1 else q;
      if n + 1 == 4 {
        SecondPassBound(ds[1..], x1, 0, j1, 0);
      } else {
        SecondPassBound(ds[1..], x1, n + 1, j1, q1);
      }
    }
  }

  /** For every input the first pass accepts, the second pass writes at most the number of bytes that it computed, and exactly
      that many if the groups are complete. */
  lemma SecondPassFits(s: Bytes)
    requires FirstPass(s, 0, 0, 0).Valid?
    ensures var v := FirstPass(s, 0, 0, 0);
            var out := SecondPass(Digits(s), 0, 0, 3);
            v.pads <= (v.n * 6 + 7) / 8 && |out| <= (v.n * 6 + 7) / 8 - v.pads
            && (v.n % 4 == 0 ==> |out| == (v.n * 6 + 7) / 8 - v.pads)
  {
    FirstPassMeans(s, 0, 0, 0);
    assert s[0..] == s;
    SecondPassBound(Digits(s), 0, 0, 3, 0);
  }

  // ---------------------------------------------------------------- decoding what was encoded

  function Carry(x: nat, d: nat): int {
    (x * 64 + d) / WORD
  }

  lemma ShiftCarry(x: nat, d: nat)
    requires d < 64
    ensures Shift(x, d) == x * 64 + d - WORD * Carry(x, d)
  {
  }

  lemma LowBits(t: int, v: nat, x: nat)
    requires v < 0x100_0000 && x == 0x100_0000 * t + v
    ensures x % 0x100_0000 == v
  {
  }

  /** Four sextets shifted into the accumulator are its low 24 bits, whatever was there before. */
  lemma FourShifts(x: nat, a: nat, b: nat, c: nat, d: nat)
    requires a < 64 && b < 64 && c < 64 && d < 64
    ensures Shift(Shift(Shift(Shift(x, a), b), c), d) % 0x100_0000 == ((a * 64 + b) * 64 + c) * 64 + d
  {
    hide Shift, Carry;
    var x1 := Shift(x, a);
    var x2 := Shift(x1, b);
    var x3 := Shift(x2, c);
    ShiftCarry(x, a);
    ShiftCarry(x1, b);
    ShiftCarry(x2, c);
    ShiftCarry(x3, d);
    var t := x - 256 * (262144 * Carry(x, a) + 4096 * Carry(x1, b) + 64 * Carry(x2, c) + Carry(x3, d));
    LowBits(t, ((a * 64 + b) * 64 + c) * 64 + d, Shift(x3, d));
  }

  lemma HighByte(x: nat, h: nat, c: byte, low: nat)
    requires x == 65536 * (256 * h + c) + low && low < 65536
    ensures x / 65536 % 256 == c
  {
    assert x / 65536 == 256 * h + c;
  }

  lemma MiddleByte(x: nat, h: nat, c: byte, low: nat)
    requires x == 256 * (256 * h + c) + low && low < 256
    ensures x / 256 % 256 == c
  {
    assert x / 256 == 256 * h + c;
  }

  /** What is emitted depends on the low 24 bits only. */
  lemma EmitLow(x: nat, c1: byte, c2: byte, c3: byte)
    requires x % 0x100_0000 == (c1 * 256 + c2) * 256 + c3
    ensures Emit(x, 3) == [c1, c2, c3] && Emit(x, 2) == [c1, c2] && Emit(x, 1) == [c1]
  {
    var h := x / 0x100_0000;
    HighByte(x, h, c1, c2 * 256 + c3);
    MiddleByte(x, 256 * h + c1, c2, c3);
  }

  function Shift4(x: nat, a: nat, b: nat, c: nat, d: nat): nat {
    Shift(Shift(Shift(Shift(x, a), b), c), d)
  }

  lemma GroupBytes(a: nat, b: nat, c: nat, d: nat, x: nat, c1: byte, c2: byte, c3: byte)
    requires a < 64 && b < 64 && (c < 64 || (c == 64 && d == 64)) && (d < 64 || d == 64)
    requires ((a * 64 + b) * 64 + c % 64) * 64 + d % 64 == (c1 * 256 + c2) * 256 + c3
    ensures Emit(Shift4(x, a, b, c, d), 3 - GroupPads(c, d)) == [c1, c2, c3][..3 - GroupPads(c, d)]
  {
    hide Shift, Emit;
    var x2 := Shift(Shift(x, a), b);
    ShiftMod(x2, c);
    ShiftMod(Shift(x2, c), d);
    FourShifts(x, a, b, c % 64, d % 64);
    EmitLow(Shift4(x, a, b, c, d), c1, c2, c3);
  }

  /** Four digits at a group boundary, the last two possibly pads, are emitted together. */
  lemma DecodeGroup(a: nat, b: nat, c: nat, d: nat, rest: seq<nat>, x: nat)
    requires a != 64 && b != 64 && (c == 64 ==> d == 64)
    ensures var x4, j4 := Shift4(x, a, b, c, d), 3 - GroupPads(c, d);
            SecondPass([a, b, c, d] + rest, x, 0, 3) == Emit(x4, j4) + SecondPass(rest, x4, 0, j4)
  {
    hide Shift, Emit, SecondPass;
    var x1 := Shift(x, a);
    var x2 := Shift(x1, b);
    var x3 := Shift(x2, c);
    NextDigit(a, [b, c, d] + rest, x, 0, 3);
    NextDigit(b, [c, d] + rest, x1, 1, 3);
    NextDigit(c, [d] + rest, x2, 2, 3);
    NextDigit(d, rest, x3, 3, if c == 64 then 2 else 3);
    assert [a, b, c, d] + rest == [a] + ([b, c, d] + rest);
    assert [b, c, d] + rest == [b] + ([c, d] + rest);
    assert [c, d] + rest == [c] + ([d] + rest);
  }

  lemma NextDigit(d: nat, rest: seq<nat>, x: nat, n: nat, j: int)
    ensures var j1, x1 := if d == 64 then j - 1 else j, Shift(x, d);
            SecondPass([d] + rest, x, n, j) == if n + 1 == 4 then Emit(x1, j1) + SecondPass(rest, x1, 0, j1) else SecondPass(rest, x1, n + 1, j1)
  {
    hide Shift, Emit;
    assert ([d] + rest)[1..] == rest;
  }

  lemma ShiftMod(x: nat, d: nat)
    ensures Shift(x, d) == Shift(x, d % 64)
  {
  }

  lemma FourDigits(g0: byte, g1: byte, g2: byte, g3: byte, rest: Bytes)
    requires !Blank(g0) && !Blank(g1) && !Blank(g2) && !Blank(g3)
    ensures Digits([g0, g1, g2, g3] + rest) == [DecMap(g0), DecMap(g1), DecMap(g2), DecMap(g3)] + Digits(rest)
  {
    hide DecMap, Blank;
    FirstDigit(g0, [g1, g2, g3] + rest);
    FirstDigit(g1, [g2, g3] + rest);
    FirstDigit(g2, [g3] + rest);
    FirstDigit(g3, rest);
    assert [g0, g1, g2, g3] + rest == [g0] + ([g1, g2, g3] + rest);
    assert [g1, g2, g3] + rest == [g1] + ([g2, g3] + rest);
    assert [g2, g3] + rest == [g2] + ([g3] + rest);
  }

  lemma FirstDigit(g: byte, rest: Bytes)
    requires !Blank(g)
    ensures Digits([g] + rest) == [DecMap(g)] + Digits(rest)
  {
    assert ([g] + rest)[1..] == rest;
  }

  /** The digits of an encoding, group by group. */
  function Sextets(s: Bytes): (ds: seq<nat>)
    decreases |s|
  {
    if |s| == 0 then [] else FirstGroup(s) + Sextets(Rest(s))
  }

  /** Encoded text holds the digits, all of them in the alphabet and none of it blank. */
  lemma {:induction false} EncodedDigits(s: Bytes)
    ensures Digits(Encode(s)) == Sextets(s)
    ensures forall c <- Encode(s) :: !Blank(c) && DecMap(c) <= 64
    decreases |s|
  {
    hide DecMap, Blank, FirstGroup, Rest, Symbol64;
    if |s| > 0 {
      hide Digits;
      var g := FirstGroup(s);
      EncodedDigits(Rest(s));
      FourDigits(Symbol64(g[0]), Symbol64(g[1]), Symbol64(g[2]), Symbol64(g[3]), Encode(Rest(s)));
      assert g == [g[0], g[1], g[2], g[3]];
    }
  }

  lemma {:induction false} SextetsDecode(s: Bytes, x: nat)
    ensures SecondPass(Sextets(s), x, 0, 3) == s
    decreases |s|
  {
    hide SecondPass, Shift, Emit, FirstGroup;
    if |s| == 0 {
      NoDigits(x, 3);
    } else {
      var g, c1, c2, c3 := FirstGroup(s), s[0], if |s| > 1 then s[1] else 0, if |s| > 2 then s[2] else 0;
      FirstGroupSpells(s, c1, c2, c3);
      assert g == [g[0], g[1], g[2], g[3]];
      GroupBytes(g[0], g[1], g[2], g[3], x, c1, c2, c3);
      DecodeGroup(g[0], g[1], g[2], g[3], Sextets(Rest(s)), x);
      var x4 := Shift4(x, g[0], g[1], g[2], g[3]);
      if |s| > 3 { SextetsDecode(Rest(s), x4); } else { NoDigits(x4, 3 - GroupPads(g[2], g[3])); }
      assert s == [c1, c2, c3][..if |s| < 3 then |s| else 3] + Rest(s);
    }
  }

  lemma NoDigits(x: nat, j: int)
    ensures SecondPass([], x, 0, j) == []
  {
  }

  lemma FirstGroupSpells(s: Bytes, c1: byte, c2: byte, c3: byte)
    requires |s| > 0 && c1 == s[0] && c2 == (if |s| > 1 then s[1] else 0) && c3 == (if |s| > 2 then s[2] else 0)
    ensures var g := FirstGroup(s);
            ((g[0] * 64 + g[1]) * 64 + g[2] % 64) * 64 + g[3] % 64 == (c1 * 256 + c2) * 256 + c3
  {
    assert c1 == 4 * (c1 / 4) + c1 % 4 && c2 == 16 * (c2 / 16) + c2 % 16 && c3 == 64 * (c3 / 64) + c3 % 64;
  }

  // ---------------------------------------------------------------- the round trip

  /** Text in the alphabet, pads last and at most two, is accepted by the first pass. */
  lemma {:induction false} CleanAccepted(t: Bytes, i: nat, n: nat, pads: nat)
    requires i <= |t| && (forall c <- t :: !Blank(c) && DecMap(c) <= 64)
    requires PadsLast(Digits(t[i..]), pads) && pads + Pads(Digits(t[i..])) <= 2
    ensures FirstPass(t, i, n, pads) == Valid(n + |t| - i, pads + Pads(Digits(t[i..])))
    decreases |t| - i
  {
    hide DecMap;
    if i < |t| {
      var ds := Digits(t[i..]);
      assert t[i] in t;
      AlphabetOnly(t[i]);
      assert t[i..] == [t[i]] + t[i + 1..];
      FirstDigit(t[i], t[i + 1..]);
      assert ds[1..] == Digits(t[i + 1..]);
      CleanAccepted(t, i + 1, n + 1, if t[i] == PAD then pads + 1 else pads);
    }
  }

  lemma AlphabetOnly(c: byte)
    ensures DecMap(c) <= 64 ==> c <= 127 && (DecMap(c) == 64 <==> c == PAD)
  {
  }

  lemma {:induction false} SextetsShape(s: Bytes)
    ensures PadsLast(Sextets(s), 0) && Pads(Sextets(s)) == PadCount(|s|)
    decreases |s|
  {
    hide FirstGroup;
    if |s| > 0 {
      var g, rest := FirstGroup(s), Sextets(Rest(s));
      SextetsShape(Rest(s));
      assert g == [g[0], g[1], g[2], g[3]];
      GroupShape(g[0], g[1], g[2], g[3], rest);
    }
  }

  lemma GroupShape(a: nat, b: nat, c: nat, d: nat, rest: seq<nat>)
    requires a < 64 && b < 64 && c <= 64 && d <= 64 && (c == 64 ==> d == 64) && PadsLast(rest, 0) && (d == 64 ==> rest == [])
    ensures PadsLast([a, b, c, d] + rest, 0) && Pads([a, b, c, d] + rest) == GroupPads(c, d) + Pads(rest)
  {
    hide PadsLast, Pads;
    if d == 64 {
      NoPads();
      OneShape(64, rest, 1);
      OneShape(64, rest, 0);
    } else {
      OneShape(d, rest, 0);
    }
    OneShape(c, [d] + rest, 0);
    OneShape(b, [c, d] + rest, 0);
    OneShape(a, [b, c, d] + rest, 0);
    assert [a, b, c, d] + rest == [a] + ([b, c, d] + rest);
    assert [b, c, d] + rest == [b] + ([c, d] + rest);
    assert [c, d] + rest == [c] + ([d] + rest);
  }

  lemma OneShape(d: nat, rest: seq<nat>, seen: nat)
    ensures PadsLast([d] + rest, seen) <==> (d < 64 && seen == 0 && PadsLast(rest, 0)) || (d == 64 && PadsLast(rest, seen + 1))
    ensures Pads([d] + rest) == Pads(rest) + if d == 64 then 1 else 0
  {
    assert ([d] + rest)[1..] == rest;
  }

  lemma NoPads()
    ensures (forall seen :: PadsLast([], seen)) && Pads([]) == 0 && Digits([]) == []
  {
  }

  /** The byte count that the first pass computes. */
  function Predicted(v: Scan): (n: int)
    requires v.Valid?
  {
    (v.n * 6 + 7) / 8 - v.pads
  }

  function PadCount(len: nat): nat {
    (3 - len % 3) % 3
  }

  lemma CountMatches(len: nat)
    ensures Predicted(Valid(4 * ((len + 2) / 3), PadCount(len))) == len
  {
    var q, r := len / 3, len % 3;
    assert (24 * q + 7) / 8 == 3 * q && (24 * (q + 1) + 7) / 8 == 3 * q + 3;
    if r == 0 {
      assert (len + 2) / 3 == q && PadCount(len) == 0;
    } else {
      assert (len + 2) / 3 == q + 1 && PadCount(len) == 3 - r;
    }
  }

  /** Decoding an encoding gives the bytes back, and the first pass predicts exactly their number. */
  lemma RoundTrip(s: Bytes)
    ensures var t := Encode(s);
            var v := FirstPass(t, 0, 0, 0);
            v.Valid? && Predicted(v) == |s| && SecondPass(Digits(t), 0, 0, 3) == s
  {
    hide Encode, Digits, SecondPass, FirstPass, Sextets, DecMap, Blank, Predicted, PadCount;
    EncodedAccepted(s);
    EncodedDigits(s);
    SextetsDecode(s, 0);
    CountMatches(|s|);
  }

  lemma EncodedAccepted(s: Bytes)
    ensures FirstPass(Encode(s), 0, 0, 0) == Valid(|Encode(s)|, PadCount(|s|))
  {
    hide Encode, Digits, FirstPass, DecMap, Blank, PadsLast, Pads, Sextets;
    var t := Encode(s);
    EncodedDigits(s);
    SextetsShape(s);
    assert t[0..] == t;
    CleanAccepted(t, 0, 0, 0);
  }

  // ---------------------------------------------------------------- the code

  method WriteGroup(dst: array<byte>, p: nat, g: seq<nat>)
    requires p + 4 <= dst.Length && |g| == 4 && forall i :: 0 <= i < 4 ==> g[i] <= 64
    modifies dst
    ensures dst[..p + 4] == old(dst[..p]) + Symbols(g)
  {
    dst[p] := Symbol64(g[0]);
    dst[p + 1] := Symbol64(g[1]);
    dst[p + 2] := Symbol64(g[2]);
    dst[p + 3] := Symbol64(g[3]);
  }

  lemma EncodeFrom(s: Bytes, i: nat)
    requires i < |s|
    ensures Encode(s[i..]) == Symbols(FirstGroup(s[i..])) + Encode(if i + 3 <= |s| then s[i + 3..] else [])
    ensures |Encode(s[i..])| == 4 + |Encode(if i + 3 <= |s| then s[i + 3..] else [])|
  {
    hide FirstGroup, Symbols;
    assert i + 3 <= |s| ==> Rest(s[i..]) == s[i + 3..];
  }

  /** What the encoding loops keep: text written so far, then the encoding of what is left, is the whole encoding. */
  ghost predicate Written(dst: seq<byte>, p: nat, src: Bytes, i: nat) {
    i <= |src| && p <= |dst| && dst[..p] + Encode(src[i..]) == Encode(src)
  }

  /** One pass: the group at i is written at p. */
  method EncodeOne(dst: array<byte>, p: nat, src: Bytes, i: nat, g: seq<nat>)
    requires i < |src| && Written(dst[..], p, src, i) && |Encode(src)| < dst.Length && g == FirstGroup(src[i..])
    modifies dst
    ensures Written(dst[..], p + 4, src, if i + 3 <= |src| then i + 3 else |src|)
  {
    hide FirstGroup, Symbols, Encode;
    EncodeFrom(src, i);
    EncodeNone();
    assert src[|src|..] == [];
    assert dst[..][..p] == dst[..p];
    assert |dst[..p] + Encode(src[i..])| == |Encode(src)|;
    WriteGroup(dst, p, g);
    assert dst[..][..p + 4] == dst[..p + 4];
  }

  /** mbedtls_base64_encode: the text and a terminating zero, or the size needed. */
  method EncodeBuffer(dst: array<byte>, dlen: nat, src: Bytes) returns (rc: Error, olen: nat)
    requires dlen <= dst.Length
    modifies dst
    ensures |src| == 0 ==> rc == Success && olen == 0 && dst[..] == old(dst[..])
    ensures |src| > 0 && dlen <= |Encode(src)| ==> rc == BufferTooSmall && olen == |Encode(src)| + 1 && dst[..] == old(dst[..])
    ensures |src| > 0 && dlen > |Encode(src)| ==> rc == Success && olen < dst.Length && dst[..olen] == Encode(src) && dst[olen] == 0
  {
    hide FirstGroup, Symbols, Encode, Written, EncodedLength;
    if |src| == 0 { return Success, 0; }
    var n := EncodedLength(|src|);
    if dlen < n + 1 { return BufferTooSmall, n + 1; }
    var groups := |src| / 3;
    var full := groups * 3;
    assert full <= |src| < full + 3;
    var i: nat, p: nat := 0, 0;
    ghost var g: nat := 0;
    WrittenStart(dst[..], src);
    while i < full
      invariant i == 3 * g && g <= groups && Written(dst[..], p, src, i)
    {
      g := g + 1;
      ThreeBytes(src, i);
      var c1, c2, c3 := src[i], src[i + 1], src[i + 2];
      EncodeOne(dst, p, src, i, [c1 / 4, c1 % 4 * 16 + c2 / 16, c2 % 16 * 4 + c3 / 64, c3 % 64]);
      i, p := i + 3, p + 4;
    }
    if i < |src| {
      LastBytes(src, i);
      var c1: byte, c2: byte := src[i], if i + 1 < |src| then src[i + 1] else 0;
      EncodeOne(dst, p, src, i, [c1 / 4, c1 % 4 * 16 + c2 / 16, if i + 1 < |src| then c2 % 16 * 4 else 64, 64]);
      p := p + 4;
    }
    WrittenEnd(dst[..], p, src);
    assert dst[..][..p] == dst[..p];
    dst[p] := 0;
    olen, rc := p, Success;
  }

  lemma WrittenStart(dst: seq<byte>, src: Bytes)
    ensures Written(dst, 0, src, 0)
  {
    assert src[0..] == src;
  }

  lemma WrittenEnd(dst: seq<byte>, p: nat, src: Bytes)
    requires Written(dst, p, src, |src|)
    ensures p == |Encode(src)| <= |dst| && dst[..p] == Encode(src)
  {
    hide Encode;
    EncodeNone();
    assert src[|src|..] == [];
  }

  lemma EncodeNone()
    ensures Encode([]) == []
  {
  }

  lemma ThreeBytes(s: Bytes, i: nat)
    requires i + 3 <= |s|
    ensures var c1, c2, c3 := s[i], s[i + 1], s[i + 2];
            FirstGroup(s[i..]) == [c1 / 4, c1 % 4 * 16 + c2 / 16, c2 % 16 * 4 + c3 / 64, c3 % 64]
  {
  }

  lemma LastBytes(s: Bytes, i: nat)
    requires i < |s| < i + 3
    ensures var c1: byte, c2: byte := s[i], if i + 1 < |s| then s[i + 1] else 0;
            FirstGroup(s[i..]) == [c1 / 4, c1 % 4 * 16 + c2 / 16, if i + 1 < |s| then c2 % 16 * 4 else 64, 64]
  {
  }

  lemma PadIs()
    ensures DecMap(PAD) == 64
  {
  }

  /** The first loop of mbedtls_base64_decode. */
  method FirstPassLoop(src: Bytes) returns (r: Scan)
    ensures r == FirstPass(src, 0, 0, 0)
  {
    hide DecMap;
    PadIs();
    var i, n, j := 0, 0, 0;
    while i < |src|
      invariant i <= |src| && FirstPass(src, 0, 0, 0) == FirstPass(src, i, n, j)
    {
      ghost var i0 := i;
      var x := 0;
      while i < |src| && src[i] == SPACE
        invariant i0 <= i <= |src| && x == i - i0 && SkipSpaces(src, i0) == SkipSpaces(src, i)
      {
        i, x := i + 1, x + 1;
      }
      if i == |src| { break; }
      if |src| - i >= 2 && src[i] == CR && src[i + 1] == LF { i := i + 1; continue; }
      if src[i] == LF { i := i + 1; continue; }
      if x != 0 { return Invalid; }
      if src[i] == PAD {
        j := j + 1;
        if j > 2 { return Invalid; }
      }
      if src[i] > 127 || DecMap(src[i]) == 127 { return Invalid; }
      if DecMap(src[i]) < 64 && j != 0 { return Invalid; }
      n := n + 1;
      i := i + 1;
    }
    r := Valid(n, j);
  }

  /** The second loop: every write is inside what remains of the prediction. */
  method SecondPassLoop(dst: array<byte>, src: Bytes) returns (p: nat)
    requires |SecondPass(Digits(src), 0, 0, 3)| <= dst.Length
    modifies dst
    ensures p == |SecondPass(Digits(src), 0, 0, 3)| && dst[..p] == SecondPass(Digits(src), 0, 0, 3)
    ensures dst[p..] == old(dst[p..])
  {
    hide DecMap, Shift, Emit, SecondPass, Digits;
    ghost var total := SecondPass(Digits(src), 0, 0, 3);
    var i, x, n, j := 0, 0, 0, 3;
    p := 0;
    assert src[0..] == src;
    while i < |src|
      invariant 0 <= i <= |src| && x >= 0 && n >= 0 && p + |SecondPass(Digits(src[i..]), x, n, j)| == |total|
      invariant dst[..p] + SecondPass(Digits(src[i..]), x, n, j) == total
      invariant dst[p..] == old(dst[p..])
    {
      assert src[i..] == [src[i]] + src[i + 1..];
      if Blank(src[i]) {
        BlankFirst(src[i], src[i + 1..]);
      } else {
        FirstDigit(src[i], src[i + 1..]);
        var d := DecMap(src[i]);
        NextDigit(d, Digits(src[i + 1..]), x, n, j);
        if d == 64 { j := j - 1; }
        x := Shift(x, d);
        n := n + 1;
        if n == 4 {
          n := 0;
          p := EmitInto(dst, p, x, j);
        }
      }
      i := i + 1;
    }
    assert src[i..] == [];
    NothingLeft(x, n, j);
  }

  lemma NothingLeft(x: nat, n: nat, j: int)
    ensures SecondPass(Digits([]), x, n, j) == []
  {
  }

  lemma BlankFirst(c: byte, rest: Bytes)
    requires Blank(c)
    ensures Digits([c] + rest) == Digits(rest)
  {
    assert ([c] + rest)[1..] == rest;
  }

  method EmitInto(dst: array<byte>, p: nat, x: nat, j: int) returns (r: nat)
    requires p + |Emit(x, j)| <= dst.Length
    modifies dst
    ensures r == p + |Emit(x, j)| && dst[..r] == old(dst[..p]) + Emit(x, j) && dst[r..] == old(dst[r..])
  {
    r := p;
    if j > 0 { dst[r] := x / 65536 % 256; r := r + 1; }
    if j > 1 { dst[r] := x / 256 % 256; r := r + 1; }
    if j > 2 { dst[r] := x % 256; r := r + 1; }
  }

  /** mbedtls_base64_decode. The length is left unset for rejected and for blank input. */
  method DecodeBuffer(dst: array?<byte>, dlen: nat, src: Bytes) returns (rc: Error, olen: Option<nat>)
    requires dst != null ==> dlen <= dst.Length
    modifies dst
    ensures match FirstPass(src, 0, 0, 0)
            case Invalid => rc == InvalidCharacter && olen == None
            case Valid(n, pads) =>
              var bound := (n * 6 + 7) / 8 - pads;
              if n == 0 then rc == Success && olen == None
              else if dst == null || dlen < bound then rc == BufferTooSmall && olen == Some(bound)
              else var out := SecondPass(Digits(src), 0, 0, 3);
                   rc == Success && olen == Some(|out|) && |out| <= bound && dst[..|out|] == out && dst[|out|..] == old(dst[|out|..])
    ensures dst != null && (rc != Success || olen == None) ==> dst[..] == old(dst[..])
  {
    hide FirstPass, SecondPass, Digits;
    var v := FirstPassLoop(src);
    if v.Invalid? { return InvalidCharacter, None; }
    if v.n == 0 { return Success, None; }
    SecondPassFits(src);
    var bound := (v.n * 6 + 7) / 8 - v.pads;
    if dst == null || dlen < bound { return BufferTooSmall, Some(bound); }
    var p := SecondPassLoop(dst, src);
    rc, olen := Success, Some(p);
  }
}
