/** Which texts the base64 decoder accepts: exactly those without a misplaced character, so an encoding may be broken into lines. */
module Base64Text {
  import opened Common
  import opened Base64

  // ---------------------------------------------------------------- the alphabet

  const UPPER := "ABCDEFGHIJKLMNOPQRSTUVWXYZ"
  const LOWER := "abcdefghijklmnopqrstuvwxyz"
  const FIGURES := "0123456789"

  lemma UpperAt(d: nat)
    requires d < 26
    ensures |UPPER| == 26 && UPPER[d] as int == 65 + d
  {
  }

  lemma LowerAt(d: nat)
    requires d < 26
    ensures |LOWER| == 26 && LOWER[d] as int == 97 + d
  {
  }

  /** The digits are those of table 1 of RFC 1521, in its order. */
  lemma DigitsOfStandard(d: nat)
    requires d < 64
    ensures EncMap(d) == (UPPER + LOWER + FIGURES + "+/")[d] as int
  {
    if d < 26 { UpperAt(d); } else if d < 52 { LowerAt(d - 26); }
  }

  predicate IsDigit(c: byte) {
    'A' as int <= c <= 'Z' as int || 'a' as int <= c <= 'z' as int || '0' as int <= c <= '9' as int || c == '+' as int || c == '/' as int
  }

  lemma DigitMapped(c: byte)
    ensures DecMap(c) < 64 <==> IsDigit(c)
    ensures DecMap(c) == 64 <==> c == '=' as int
    ensures Blank(c) ==> DecMap(c) == 127
  {
  }

  // ---------------------------------------------------------------- misplaced characters

  predicate LineEndAt(s: Bytes, k: nat)
    requires k < |s|
  {
    s[k] == LF || (s[k] == CR && k + 1 < |s| && s[k + 1] == LF)
  }

  /** A space leads over further spaces to a line end or the end of the text, and a carriage return stands before a line feed. */
  predicate BlankPlaced(s: Bytes, k: nat)
    requires k < |s|
  {
    (s[k] == SPACE ==> k + 1 == |s| || s[k + 1] == SPACE || LineEndAt(s, k + 1)) && (s[k] == CR ==> LineEndAt(s, k))
  }

  function PadsBefore(s: Bytes, k: nat): (n: nat)
    requires k <= |s|
  {
    if k == 0 then 0 else PadsBefore(s, k - 1) + if s[k - 1] == PAD then 1 else 0
  }

  /** A misplaced blank, a character outside the alphabet, a third pad or a digit behind a pad. */
  predicate Misplaced(s: Bytes, k: nat)
    requires k < |s|
  {
    !BlankPlaced(s, k)
    || !(Blank(s[k]) || s[k] == PAD || IsDigit(s[k]))
    || (s[k] == PAD && PadsBefore(s, k) >= 2)
    || (IsDigit(s[k]) && PadsBefore(s, k) >= 1)
  }

  ghost predicate MisplacedFrom(s: Bytes, i: nat) {
    exists k :: i <= k < |s| && Misplaced(s, k)
  }

  lemma FirstOrLater(s: Bytes, i: nat)
    requires i < |s|
    ensures MisplacedFrom(s, i) <==> Misplaced(s, i) || MisplacedFrom(s, i + 1)
  {
    hide Misplaced;
  }

  /** A run of spaces is misplaced exactly when it leads to something other than a line end. */
  lemma {:induction false} SpaceRun(s: Bytes, i: nat, k: nat)
    requires i <= k <= |s| && (forall j :: i <= j < k ==> s[j] == SPACE) && (k < |s| ==> s[k] != SPACE)
    ensures PadsBefore(s, k) == PadsBefore(s, i)
    ensures MisplacedFrom(s, i) <==> (i < k < |s| && !LineEndAt(s, k)) || MisplacedFrom(s, k)
    decreases k - i
  {
    hide MisplacedFrom;
    if i < k {
      FirstOrLater(s, i);
      SpaceRun(s, i + 1, k);
    }
  }

  /** The verdict on a character, in terms of what is misplaced. */
  lemma JudgeExactly(s: Bytes, i: nat, k: nat)
    requires i <= k < |s| && s[k] != SPACE
    ensures var v := Judge(s, i, k, PadsBefore(s, k));
            (v == LineEnd <==> LineEndAt(s, k)) && (v == LineEnd ==> !Misplaced(s, k))
            && (v == Reject <==> (i < k && !LineEndAt(s, k)) || Misplaced(s, k))
            && (v.Symbol? ==> (v.pad <==> s[k] == PAD))
  {
    hide DecMap;
    DigitMapped(s[k]);
  }

  lemma {:induction false} InvalidFrom(s: Bytes, i: nat, n: nat)
    requires i <= |s|
    ensures FirstPass(s, i, n, PadsBefore(s, i)).Invalid? <==> MisplacedFrom(s, i)
    decreases |s| - i
  {
    hide FirstPass, SkipSpaces, Judge, Misplaced;
    var k := SkipSpaces(s, i);
    SpaceRun(s, i, k);
    FirstPassStep(s, i, n, PadsBefore(s, i));
    if k < |s| {
      JudgeExactly(s, i, k);
      FirstOrLater(s, k);
      hide MisplacedFrom;
      match Judge(s, i, k, PadsBefore(s, k)) {
        case LineEnd => InvalidFrom(s, k + 1, n);
        case Reject =>
        case Symbol(pad) => InvalidFrom(s, k + 1, n + 1);
      }
    }
  }

  /** The decoder rejects a text exactly when some character of it is misplaced. */
  lemma InvalidExactly(s: Bytes)
    ensures FirstPass(s, 0, 0, 0).Invalid? <==> exists k :: 0 <= k < |s| && Misplaced(s, k)
  {
    hide FirstPass, Misplaced;
    InvalidFrom(s, 0, 0);
  }

  // ---------------------------------------------------------------- broken lines

  /** The text without spaces and line ends. */
  function Joined(s: Bytes): (r: Bytes) {
    if |s| == 0 then [] else (if Blank(s[0]) then [] else [s[0]]) + Joined(s[1..])
  }

  ghost predicate BlanksPlaced(s: Bytes) {
    forall k :: 0 <= k < |s| ==> BlankPlaced(s, k)
  }

  lemma {:induction false} JoinedSplit(a: Bytes, b: Bytes)
    ensures Joined(a + b) == Joined(a) + Joined(b)
    decreases |a|
  {
    hide Blank;
    if |a| == 0 {
      assert a + b == b;
    } else {
      JoinedSplit(a[1..], b);
      assert (a + b)[1..] == a[1..] + b && (a + b)[0] == a[0];
      var first := if Blank(a[0]) then [] else [a[0]];
      assert first + (Joined(a[1..]) + Joined(b)) == first + Joined(a[1..]) + Joined(b);
    }
  }

  /** Both passes see the digits of the joined text. */
  lemma {:induction false} JoinedDigits(s: Bytes)
    ensures Digits(s) == Digits(Joined(s))
    decreases |s|
  {
    hide DecMap, Blank;
    if |s| > 0 {
      JoinedDigits(s[1..]);
      if Blank(s[0]) {
        assert Joined(s) == Joined(s[1..]);
      } else {
        FirstDigit(s[0], Joined(s[1..]));
      }
    }
  }

  lemma {:induction false} DigitsSplit(a: Bytes, b: Bytes)
    ensures Digits(a + b) == Digits(a) + Digits(b)
    decreases |a|
  {
    hide DecMap, Blank;
    if |a| == 0 {
      assert a + b == b;
    } else {
      DigitsSplit(a[1..], b);
      assert (a + b)[1..] == a[1..] + b;
    }
  }

  lemma {:induction false} PadsSplit(a: seq<nat>, b: seq<nat>)
    ensures Pads(a + b) == Pads(a) + Pads(b)
    decreases |a|
  {
    if |a| == 0 {
      assert a + b == b;
    } else {
      PadsSplit(a[1..], b);
      assert (a + b)[1..] == a[1..] + b;
    }
  }

  lemma {:induction false} PadsCounted(s: Bytes, k: nat)
    requires k <= |s|
    ensures PadsBefore(s, k) == Pads(Digits(s[..k]))
  {
    hide DecMap, Blank;
    if k > 0 {
      PadsCounted(s, k - 1);
      assert s[..k] == s[..k - 1] + [s[k - 1]];
      DigitsSplit(s[..k - 1], [s[k - 1]]);
      OneCharacter(s[k - 1]);
      PadsSplit(Digits(s[..k - 1]), Digits([s[k - 1]]));
    }
  }

  lemma OneCharacter(c: byte)
    ensures Digits([c]) == if Blank(c) then [] else [DecMap(c)]
    ensures Pads(Digits([c])) == if c == PAD then 1 else 0
  {
    assert [c][1..] == [];
  }

  /** No digit stands behind a pad. */
  lemma {:induction false} PadsLastSplit(a: seq<nat>, d: nat, b: seq<nat>, seen: nat)
    requires PadsLast(a + ([d] + b), seen)
    ensures d <= 64 && (d < 64 ==> seen == 0 && Pads(a) == 0)
    decreases |a|
  {
    var ds := a + ([d] + b);
    if |a| == 0 {
      assert ds[0] == d;
    } else {
      assert ds[1..] == a[1..] + ([d] + b);
      PadsLastSplit(a[1..], d, b, if a[0] == 64 then seen + 1 else 0);
    }
  }

  /** Around the character at k. */
  lemma DigitsAround(u: Bytes, k: nat)
    requires k < |u| && !Blank(u[k])
    ensures Digits(u) == Digits(u[..k]) + ([DecMap(u[k])] + Digits(u[k + 1..]))
    ensures Pads(Digits(u)) == PadsBefore(u, k) + (if DecMap(u[k]) == 64 then 1 else 0) + Pads(Digits(u[k + 1..]))
  {
    hide Digits, Blank, DecMap, Pads;
    var rest := u[k + 1..];
    assert u == u[..k] + ([u[k]] + rest);
    DigitsSplit(u[..k], [u[k]] + rest);
    FirstDigit(u[k], rest);
    PadsSplit(Digits(u[..k]), [DecMap(u[k])] + Digits(rest));
    OneShape(DecMap(u[k]), Digits(rest), 0);
    PadsCounted(u, k);
  }

  /** In a text whose digits have their pads last and at most two, only blanks can be misplaced. */
  lemma OnlyBlanksMisplaced(u: Bytes, k: nat)
    requires PadsLast(Digits(u), 0) && Pads(Digits(u)) <= 2 && k < |u|
    ensures Misplaced(u, k) <==> !BlankPlaced(u, k)
  {
    hide PadsLast, Pads, DecMap, Digits, IsDigit, BlankPlaced, PadsBefore;
    DigitMapped(u[k]);
    if !Blank(u[k]) {
      DigitsAround(u, k);
      PadsLastSplit(Digits(u[..k]), DecMap(u[k]), Digits(u[k + 1..]), 0);
      PadsCounted(u, k);
    }
  }

  /** A text that is an encoding broken into lines decodes to what was encoded, exactly when its blanks are placed well. */
  lemma BrokenRoundTrip(u: Bytes, s: Bytes)
    requires Joined(u) == Encode(s)
    ensures var v := FirstPass(u, 0, 0, 0);
            (v.Valid? <==> BlanksPlaced(u)) && (v.Valid? ==> v.n == |Encode(s)| && Predicted(v) == |s|)
            && SecondPass(Digits(u), 0, 0, 3) == s
  {
    hide FirstPass, SecondPass, Digits, Encode, Misplaced, BlankPlaced, Joined, PadsLast, Pads, Sextets, Predicted, PadCount, DecMap, Blank;
    JoinedDigits(u);
    EncodedDigits(s);
    SextetsShape(s);
    SextetsDecode(s, 0);
    InvalidExactly(u);
    EncodedCount(s);
    forall k | 0 <= k < |u| ensures Misplaced(u, k) <==> !BlankPlaced(u, k) { OnlyBlanksMisplaced(u, k); }
    FirstPassMeans(u, 0, 0, 0);
    assert u[0..] == u;
    CountMatches(|s|);
  }

  lemma EncodedCount(s: Bytes)
    ensures |Sextets(s)| == |Encode(s)| == 4 * ((|s| + 2) / 3) && PadCount(|s|) <= 2
  {
    EncodedAccepted(s);
    EncodedDigits(s);
    FirstPassMeans(Encode(s), 0, 0, 0);
    assert Encode(s)[0..] == Encode(s);
  }

  /** A line end, LF or CR LF, with spaces before it. */
  function Break(spaces: nat, cr: bool): (b: Bytes) {
    seq(spaces, _ => SPACE) + (if cr then [CR, LF] else [LF])
  }

  /** Breaking a line anywhere but inside CR LF leaves the blanks well placed and the text the same. */
  lemma BreakInserted(u: Bytes, p: nat, spaces: nat, cr: bool)
    requires BlanksPlaced(u) && p <= |u| && (0 < p < |u| ==> !(u[p - 1] == CR && u[p] == LF))
    ensures var w := u[..p] + Break(spaces, cr) + u[p..];
            BlanksPlaced(w) && Joined(w) == Joined(u)
  {
    hide Joined, BlankPlaced;
    var b := Break(spaces, cr);
    var w := u[..p] + b + u[p..];
    JoinedSplit(u[..p] + b, u[p..]);
    JoinedSplit(u[..p], b);
    JoinedSplit(u[..p], u[p..]);
    BreakVanishes(b);
    assert u[..p] + u[p..] == u;
    forall k | 0 <= k < |w| ensures BlankPlaced(w, k) {
      if k < p {
        PlacedBefore(u, p, b, k);
      } else if k < p + |b| {
        PlacedInside(u, p, spaces, cr, k);
      } else {
        PlacedBehind(u, p, b, k);
      }
    }
  }

  lemma PlacedBefore(u: Bytes, p: nat, b: Bytes, k: nat)
    requires k < p <= |u| && BlankPlaced(u, k) && (0 < p < |u| ==> !(u[p - 1] == CR && u[p] == LF))
    requires |b| > 0 && (b[0] == SPACE || LineEndAt(b, 0))
    ensures BlankPlaced(u[..p] + b + u[p..], k)
  {
    var w := u[..p] + b + u[p..];
    assert w[p] == b[0] && (|b| > 1 ==> w[p + 1] == b[1]);
  }

  lemma PlacedInside(u: Bytes, p: nat, spaces: nat, cr: bool, k: nat)
    requires p <= |u| && p <= k < p + |Break(spaces, cr)|
    ensures BlankPlaced(u[..p] + Break(spaces, cr) + u[p..], k)
  {
    var b := Break(spaces, cr);
    var w := u[..p] + b + u[p..];
    assert w[k] == b[k - p];
    assert k + 1 < p + |b| ==> w[k + 1] == b[k + 1 - p];
    assert k + 2 < p + |b| ==> w[k + 2] == b[k + 2 - p];
  }

  lemma PlacedBehind(u: Bytes, p: nat, b: Bytes, k: nat)
    requires p <= |u| && p + |b| <= k < |u| + |b| && BlankPlaced(u, k - |b|)
    ensures BlankPlaced(u[..p] + b + u[p..], k)
  {
    var w, n := u[..p] + b + u[p..], |b|;
    assert w[k] == u[k - n];
    assert k + 1 < |w| ==> w[k + 1] == u[k + 1 - n];
    assert k + 2 < |w| ==> w[k + 2] == u[k + 2 - n];
  }

  lemma {:induction false} BreakVanishes(b: Bytes)
    requires forall c <- b :: Blank(c)
    ensures Joined(b) == []
  {
    if |b| > 0 {
      assert b[0] in b;
      forall c | c in b[1..] ensures c in b { }
      BreakVanishes(b[1..]);
    }
  }
}
