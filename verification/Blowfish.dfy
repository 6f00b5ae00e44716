/** The Blowfish block cipher for arbitrary subkeys P and boxes S. */
module Blowfish {
  import opened Bytes

  type Boxes = s: seq<seq<bv32>> | |s| == 4 && forall i :: 0 <= i < 4 ==> |s[i]| == 256
    witness seq(4, _ => seq(256, _ => 0))

  type Subkeys = p: seq<bv32> | |p| == 18
    witness seq(18, _ => 0)

  /** The key schedule's result. */
  datatype Context = Context(P: Subkeys, S: Boxes)

  const ROUNDS := 16

  function Mask(x: bv32, k: bv32): (y: bv32) {
    x ^ k
  }

  lemma MaskTwice(x: bv32, k: bv32)
    ensures Mask(Mask(x, k), k) == x
  {
  }

  lemma MaskAssociative(x: bv32, y: bv32, z: bv32)
    ensures Mask(x, Mask(y, z)) == Mask(Mask(x, y), z)
  {
  }

  lemma MaskOff(f: bv32, x: bv32)
    ensures Mask(f, Mask(f, x)) == x
  {
  }

  function Sum(x: bv32, y: bv32): (z: bv32) {
    x + y
  }

  /** Byte i of a word, the most significant being byte 0. */
  function Extract(x: bv32, i: nat): (y: bv32)
    requires i < 4
  {
    if i == 0 then (x >> 24) & 0xFF else if i == 1 then (x >> 16) & 0xFF else if i == 2 then (x >> 8) & 0xFF else x & 0xFF
  }

  function Index(x: bv32, i: nat): (n: nat)
    requires i < 4
    ensures n < 256
  {
    Extract(x, i) as int
  }

  function F(S: Boxes, x: bv32): (y: bv32) {
    var a, b, k, d := Index(x, 0), Index(x, 1), Index(x, 2), Index(x, 3);
    Sum(Mask(Sum(S[0][a], S[1][b]), S[2][k]), S[3][d])
  }

  datatype Halves = Halves(l: bv32, r: bv32)

  function Round(c: Context, key: bv32, x: Halves): (y: Halves) {
    Halves(Mask(F(c.S, Mask(x.l, key)), x.r), Mask(x.l, key))
  }

  function EncAfter(c: Context, n: nat, x: Halves): (y: Halves)
    requires n <= ROUNDS
  {
    if n == 0 then x else Round(c, c.P[n - 1], EncAfter(c, n - 1, x))
  }

  function DecAfter(c: Context, n: nat, x: Halves): (y: Halves)
    requires n <= ROUNDS
  {
    if n == 0 then x else Round(c, c.P[ROUNDS + 2 - n], DecAfter(c, n - 1, x))
  }

  lemma NoRound(c: Context, x: Halves)
    ensures EncAfter(c, 0, x) == x && DecAfter(c, 0, x) == x
  {
  }

  lemma OneMoreRound(c: Context, n: nat, x: Halves)
    requires n < ROUNDS
    ensures EncAfter(c, n + 1, x) == Round(c, c.P[n], EncAfter(c, n, x))
    ensures DecAfter(c, n + 1, x) == Round(c, c.P[ROUNDS + 1 - n], DecAfter(c, n, x))
  {
    hide Round;
  }

  function Enc(c: Context, x: Halves): (y: Halves) {
    var e := EncAfter(c, ROUNDS, x);
    Halves(Mask(e.r, c.P[ROUNDS + 1]), Mask(e.l, c.P[ROUNDS]))
  }

  function Dec(c: Context, x: Halves): (y: Halves) {
    var d := DecAfter(c, ROUNDS, x);
    Halves(Mask(d.r, c.P[0]), Mask(d.l, c.P[1]))
  }

  /** blowfish_enc */
  method BlowfishEnc(c: Context, x: Halves) returns (y: Halves)
    ensures y == Enc(c, x)
  {
    hide F, Mask, EncAfter, DecAfter;
    NoRound(c, x);
    var l, r := x.l, x.r;
    for i := 0 to ROUNDS
      invariant Halves(l, r) == EncAfter(c, i, x)
    {
      OneMoreRound(c, i, x);
      l := Mask(l, c.P[i]);
      r := Mask(F(c.S, l), r);
      l, r := r, l;
    }
    l, r := r, l;
    r := Mask(r, c.P[ROUNDS]);
    l := Mask(l, c.P[ROUNDS + 1]);
    y := Halves(l, r);
  }

  /** blowfish_dec */
  method BlowfishDec(c: Context, x: Halves) returns (y: Halves)
    ensures y == Dec(c, x)
  {
    hide F, Mask, EncAfter, DecAfter;
    NoRound(c, x);
    var l, r := x.l, x.r;
    var i := ROUNDS + 1;
    while i > 1
      invariant 1 <= i <= ROUNDS + 1 && Halves(l, r) == DecAfter(c, ROUNDS + 1 - i, x)
    {
      OneMoreRound(c, ROUNDS + 1 - i, x);
      l := Mask(l, c.P[i]);
      r := Mask(F(c.S, l), r);
      l, r := r, l;
      i := i - 1;
    }
    l, r := r, l;
    r := Mask(r, c.P[1]);
    l := Mask(l, c.P[0]);
    y := Halves(l, r);
  }

  /** After j decryption rounds on a ciphertext the halves are those of encryption round 16-j, masked with its keys. */
  lemma {:induction false} RoundsUndone(c: Context, x: Halves, j: nat)
    requires j <= ROUNDS
    ensures var e := EncAfter(c, ROUNDS - j, x);
            DecAfter(c, j, Enc(c, x)) == Halves(Mask(e.r, c.P[ROUNDS + 1 - j]), Mask(e.l, c.P[ROUNDS - j]))
  {
    hide F, Mask, EncAfter, DecAfter;
    if j == 0 {
      NoRound(c, Enc(c, x));
    } else {
      RoundsUndone(c, x, j - 1);
      var n := ROUNDS - j;
      var e, e1 := EncAfter(c, n, x), EncAfter(c, n + 1, x);
      OneMoreRound(c, n, x);
      OneMoreRound(c, j - 1, Enc(c, x));
      MaskTwice(e1.r, c.P[n + 2]);
      var f := F(c.S, e1.r);
      MaskAssociative(f, Mask(f, e.r), c.P[n + 1]);
      MaskOff(f, e.r);
    }
  }

  /** blowfish_dec inverts blowfish_enc. */
  lemma DecInvertsEnc(c: Context, x: Halves)
    ensures Dec(c, Enc(c, x)) == x
  {
    hide F, Mask, Enc, EncAfter, DecAfter;
    RoundsUndone(c, x, ROUNDS);
    NoRound(c, x);
    MaskTwice(x.l, c.P[0]);
    MaskTwice(x.r, c.P[1]);
  }

  /** The same subkeys in the opposite order. */
  function Reversed(c: Context): (r: Context)
    ensures r.S == c.S && forall i :: 0 <= i < 18 ==> r.P[i] == c.P[17 - i]
  {
    Context(seq(18, i requires 0 <= i < 18 => c.P[17 - i]), c.S)
  }

  lemma {:induction false} ReversedRounds(c: Context, x: Halves, n: nat)
    requires n <= ROUNDS
    ensures DecAfter(c, n, x) == EncAfter(Reversed(c), n, x)
  {
    hide Reversed, EncAfter, DecAfter, Round;
    if n == 0 {
      NoRound(c, x);
      NoRound(Reversed(c), x);
    } else {
      ReversedRounds(c, x, n - 1);
      OneMoreRound(c, n - 1, x);
      OneMoreRound(Reversed(c), n - 1, x);
      SameRound(c, Reversed(c), c.P[ROUNDS + 2 - n], DecAfter(c, n - 1, x));
    }
  }

  lemma SameRound(c: Context, d: Context, key: bv32, x: Halves)
    requires c.S == d.S
    ensures Round(c, key, x) == Round(d, key, x)
  {
    hide F, Mask;
  }

  /** Decryption is encryption with the subkeys reversed, so encryption inverts decryption too. */
  lemma EncInvertsDec(c: Context, x: Halves)
    ensures Dec(c, x) == Enc(Reversed(c), x) && Enc(c, Dec(c, x)) == x
  {
    hide F, Mask, EncAfter, DecAfter, Reversed;
    var d := Reversed(c);
    ReversedRounds(c, x, ROUNDS);
    assert Reversed(d).P == c.P;
    assert Reversed(d) == c;
    ReversedRounds(d, Enc(d, x), ROUNDS);
    DecInvertsEnc(d, x);
  }
}
