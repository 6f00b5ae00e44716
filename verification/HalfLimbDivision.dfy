/** The division built without a double-width type: its first estimate comes from two steps on half limbs, with limb arithmetic
    that wraps. When that estimate, and with it the quotient digit, is right. */
module HalfLimbDivision {
  import opened Arithmetic
  import opened Limbs
  import opened Bignum
  import opened Division

  // ---------------------------------------------------------------- what the branch computes

  /** The product of the first guess and the low half of the divisor does not fit a limb. */
  predicate Wraps(r: nat, y: nat, H: nat)
    requires H > 0 && y / H > 0
  {
    r / (y / H) * (y % H) >= H * H
  }

  /** What one half step divides: r*H + h, plus a whole limb when the product wraps. */
  function Dividend(r: nat, h: nat, y: nat, H: nat): (n: nat)
    requires H > 0 && y / H > 0
  {
    MulMonotone(0, r, H);
    MulMonotone(0, H, H);
    if Wraps(r, y, H) then r * H + h + H * H else r * H + h
  }

  /** Bitwise or. */
  function Or(x: nat, y: nat): (r: nat)
    decreases x + y
  {
    if x == 0 && y == 0 then 0 else 2 * Or(x / 2, y / 2) + (if x % 2 == 1 || y % 2 == 1 then 1 else 0)
  }

  /** ( q1 << biH ) | q0 in a limb: what the shift moves out is lost. */
  function Joined(q1: nat, q0: nat, H: nat): (r: nat)
    requires H > 0
  {
    MulMonotone(0, q1 % H, H);
    Or(q1 % H * H, q0)
  }

  /** The digit that the branch computes. */
  function HalfEstimate(x1: nat, x0: nat, y: nat, H: nat): (q: nat)
    requires H > 0 && y / H > 0
  {
    Parts(y, H);
    MulMonotone(1, y / H, H);
    var n1 := Dividend(x1, Quo(x0, H), y, H);
    var n0 := Dividend(Rem(n1, y), Rem(x0, H), y, H);
    Joined(Quo(n1, y), Quo(n0, y), H)
  }

  function Quo(x: nat, m: nat): (q: nat)
    requires m > 0
    ensures q == x / m
  {
    Parts(x, m);
    x / m
  }

  function Rem(x: nat, m: nat): (r: nat)
    requires m > 0
    ensures r == x % m
  {
    x % m
  }

  // ---------------------------------------------------------------- arithmetic

  lemma Parts(x: nat, m: nat)
    requires m > 0
    ensures x == m * (x / m) + x % m && 0 <= x % m < m && x / m >= 0
  {
  }

  /** n = r*H + h and d = d1*H + d0: taking q = r / d1 of d off n leaves ((r - d1*q)*H + h) - q*d0. */
  lemma TakenOff(r: nat, h: nat, d1: nat, d0: nat, H: nat, q: nat)
    ensures r * H + h - q * (d1 * H + d0) == (r - d1 * q) * H + h - q * d0
  {
    assert q * (d1 * H) == d1 * q * H;
  }

  lemma FourMore(d1: nat, H: nat)
    ensures d1 * (H + 4) == d1 * H + 4 * d1
  {
  }

  lemma AroundSquare(H: nat)
    requires H >= 1
    ensures (H + 3) * (H - 1) == H * H + 2 * H - 3
  {
  }

  /** The first guess exceeds H by at most three. */
  lemma GuessAtMost(r: nat, d1: nat, d0: nat, H: nat, q: nat)
    requires r < d1 * H + d0 && d0 < H <= 4 * d1 && d1 * q <= r
    ensures q <= H + 3
  {
    FourMore(d1, H);
    if q >= H + 4 { MulMonotone(H + 4, q, d1); }
  }

  lemma GuessBound(q: nat, d0: nat, H: nat)
    requires q <= H + 3 && d0 < H && H >= 4
    ensures 0 <= q * d0 < 2 * (H * H)
  {
    MulMonotone(0, q, d0);
    MulMonotone(q, H + 3, d0);
    MulMonotone(d0, H - 1, H + 3);
    AroundSquare(H);
    MulMonotone(4, H, H);
  }

  lemma RemainderBound(rem: nat, h: nat, d1: nat, H: nat)
    requires rem < d1 && h < H
    ensures rem * H + h < d1 * H
  {
    MulMonotone(rem + 1, d1, H);
  }

  /** A divisor with one of its two highest bits set has a high half of at least a quarter of the range. */
  lemma HighHalf(y: nat, H: nat)
    requires H * H <= 4 * y && H % 4 == 0 && H > 0
    ensures H <= 4 * (y / H)
  {
    Parts(y, H);
    var a, k := y / H, H / 4;
    Quartered(k, H);
    if a < k { MulMonotone(a + 1, k, H); }
  }

  lemma Quartered(k: nat, H: nat)
    requires H == 4 * k
    ensures 4 * (k * H) == H * H
  {
  }

  lemma UpperHalf(x: nat, H: nat)
    requires x < H * H && H > 0
    ensures x / H < H
  {
    Parts(x, H);
    if x / H >= H { MulMonotone(H, x / H, H); }
  }

  // ---------------------------------------------------------------- the half step

  /** What the first guess leaves, as limbs. */
  lemma FirstGuess(r: nat, h: nat, d: nat, H: nat, d1: nat, d0: nat, q: nat, left: nat, m: nat, n: nat, limbs: nat)
    requires d == d1 * H + d0 && d0 < H <= 4 * d1 && H >= 4 && r < d && h < H && n == r * H + h && limbs == H * H
    requires d1 * q + left == r && left < d1 && m == q * d0
    ensures 0 <= left * H + h < d && 0 <= m < 2 * limbs && left * H + h - m == n - q * d
  {
    MulMonotone(0, left, H);
    GuessAtMost(r, d1, d0, H, q);
    GuessBound(q, d0, H);
    RemainderBound(left, h, d1, H);
    TakenOff(r, h, d1, d0, H, q);
  }

  /** The guess g and what it leaves of r, turned into the half digit of n = r*H + h by d, whose halves are d1 and d0. */
  method CorrectGuess(r: nat, h: nat, d: nat, d1: nat, d0: nat, H: nat, limbs: nat, g: nat, left: nat, m: nat, ghost n: nat)
    returns (q: nat, rem: nat)
    requires d == d1 * H + d0 && d0 < H <= 4 * d1 && H >= 4 && r < d < limbs && h < H && n == r * H + h && limbs == H * H
    requires d1 * g + left == r && left < d1 && m == g * d0
    ensures var dividend := if m >= limbs then n + limbs else n;
            q == dividend / d && rem == dividend % d
  {
    FirstGuess(r, h, d, H, d1, d0, g, left, m, n, limbs);
    var r0 := left * H + h;
    q, rem := LowerDigit(g, r0, Wrapped(m, limbs), d, limbs, if m >= limbs then n + limbs else n);
  }

  /** The half digit is right exactly when the product fits a limb. */
  method HalfDigit(r: nat, h: nat, y: nat, H: nat, limbs: nat) returns (q: nat, rem: nat)
    requires H >= 4 && limbs == H * H && H <= 4 * (y / H) && r < y < limbs && h < H
    ensures q == Dividend(r, h, y, H) / y && rem == Dividend(r, h, y, H) % y
    ensures q == (r * H + h) / y <==> !Wraps(r, y, H)
  {
    var d1, d0 := DivMod(y, H);
    ghost var n := Plain(r, h, y, H, d1, d0);
    var g, left := DivMod(r, d1);
    MulMonotone(0, g, d0);
    var m := g * d0;
    q, rem := CorrectGuess(r, h, y, d1, d0, H, limbs, g, left, m, n);
    RightExactly(n, y, limbs);
  }

  ghost function Plain(r: nat, h: nat, y: nat, H: nat, d1: nat, d0: nat): (n: nat)
    requires H >= 4 && d1 == y / H > 0 && d0 == y % H
    ensures n == r * H + h && Dividend(r, h, y, H) == (if r / d1 * d0 >= H * H then n + H * H else n)
    ensures y == d1 * H + d0
  {
    Parts(y, H);
    MulMonotone(0, r, H);
    r * H + h
  }

  /** Adding a limb to the dividend changes the quotient. */
  lemma RightExactly(n: nat, d: nat, limbs: nat)
    requires 0 < d < limbs
    ensures (n + limbs) / d > n / d
  {
    Parts(n, d);
    Parts(n + limbs, d);
    var a, b := n / d, (n + limbs) / d;
    if b <= a { MulMonotone(b, a, d); }
  }

  method DivMod(x: nat, m: nat) returns (q: nat, r: nat)
    requires m > 0
    ensures q == x / m && r == x % m && m * q + r == x && r < m
  {
    Parts(x, m);
    q, r := x / m, x % m;
  }

  /** The correction of a guess whose product m exceeds the remainder r0. Sums and differences wrap at `limbs`. */
  method LowerDigit(q0: nat, r0: nat, m: nat, d: nat, limbs: nat, ghost n: nat) returns (q: nat, rem: nat)
    requires r0 < d < limbs && m < limbs && r0 - m == n - q0 * d
    ensures q == n / d && rem == n % d
  {
    q := q0;
    var r1: nat := r0;
    ghost var total: nat := r0;
    if r1 < m {
      Correct(q, d, n, total - m);
      q, r1, total := q - 1, Wrapped(r1 + d, limbs), total + d;
      while r1 >= d && r1 < m
        invariant total - m == n - q * d && total < m + d
        invariant (total == r1 && r1 >= d) || (total == r1 + limbs && r1 < d)
        decreases m + d - total
      {
        Correct(q, d, n, total - m);
        q, r1, total := q - 1, Wrapped(r1 + d, limbs), total + d;
      }
    }
    rem := if r1 >= m then r1 - m else r1 + limbs - m;
    DivModUnique(n, d, q, rem);
  }

  function Wrapped(x: nat, limbs: nat): (r: nat)
    requires x < 2 * limbs
    ensures r < limbs && (x < limbs ==> r == x) && (x >= limbs ==> r == x - limbs)
  {
    if x < limbs then x else x - limbs
  }

  /** A digit that is too large is positive and can be lowered. */
  lemma Correct(q: nat, d: nat, n: nat, rest: int)
    requires d > 0 && rest == n - q * d && rest < 0
    ensures q >= 1 && rest + d == n - (q - 1) * d
  {
    if q < 1 { MulMonotone(q, 0, d); }
    assert (q - 1) * d == q * d - d;
  }

  /** The whole branch on limbs. */
  method TwoDigits(x1: nat, x0: nat, y: nat, H: nat, limbs: nat) returns (q: nat)
    requires H >= 4 && limbs == H * H && y < limbs && H <= 4 * (y / H) && x1 < y && x0 / H < H
    ensures q == HalfEstimate(x1, x0, y, H)
  {
    hide Or, Dividend, Wraps;
    var a, b := DivMod(x0, H);
    var q1, r := HalfDigit(x1, a, y, H, limbs);
    Parts(Dividend(x1, a, y, H), y);
    var q0, _ := HalfDigit(r, b, y, H, limbs);
    q := Or(q1 % H * H, q0);
  }

  // ---------------------------------------------------------------- when the estimate is right

  /** Or with a number shifted by k bits, the other reaching one bit further: that bit is added unless it is there already. */
  lemma {:induction false} OrShifted(a: nat, k: nat, H: nat, q: nat)
    requires H == Pow(2, k) && q < 2 * H
    ensures Or(a * H, q) == if q < H || a % 2 == 0 then a * H + q else a * H + q - H
    decreases k
  {
    hide Pow, Or;
    if k == 0 {
      PowZero(2);
      OrStep(a, q);
      OrSmall(a / 2);
    } else {
      var G := Pow(2, k - 1);
      PowStep(2, k - 1);
      DoubleProduct(a, G, H);
      OrShifted(a, k - 1, G, q / 2);
      MulMonotone(0, a, G);
      OrStep(a * H, q);
    }
  }

  lemma OrStep(x: nat, y: nat)
    ensures Or(x, y) == 2 * Or(x / 2, y / 2) + (if x % 2 == 1 || y % 2 == 1 then 1 else 0)
  {
  }

  lemma {:induction false} OrSmall(x: nat)
    ensures Or(x, 0) == x
  {
    if x > 0 { OrSmall(x / 2); }
  }

  lemma DoubleProduct(a: nat, G: nat, H: nat)
    requires H == 2 * G
    ensures a * H == 2 * (a * G)
  {
  }

  /** A half step against the true half digit t: right if the product fits, else too large and not a half digit at all. */
  lemma StepExactly(r: nat, h: nat, y: nat, H: nat, n: nat, t: nat, q: nat)
    requires H >= 4 && y < H * H <= 4 * y && H <= 4 * (y / H) && r < y && h < H && n == r * H + h
    requires t == n / y && q == Dividend(r, h, y, H) / y
    ensures t < H && (!Wraps(r, y, H) ==> q == t) && (Wraps(r, y, H) ==> H <= q <= t + 4)
  {
    hide Dividend, Wraps;
    DividendIs(r, h, y, H, n);
    DigitIsHalf(r, h, y, H, n, t);
    if Wraps(r, y, H) {
      WrapReaches(r, y, H);
      WrappedQuotient(r, h, y, H, H * H, n, t, q);
    }
  }

  lemma DividendIs(r: nat, h: nat, y: nat, H: nat, n: nat)
    requires H > 0 && y / H > 0 && n == r * H + h
    ensures Dividend(r, h, y, H) == if Wraps(r, y, H) then n + H * H else n
  {
  }

  lemma WrappedQuotient(r: nat, h: nat, y: nat, H: nat, limbs: nat, n: nat, t: nat, q: nat)
    requires r + H >= y > 0 && limbs == H * H <= 4 * y && n == r * H + h && t == n / y && q == (n + limbs) / y
    ensures H <= q <= t + 4
  {
    Reaches(r, y, H, limbs);
    var _, rem := Split(n, y);
    FiveMore(t, y);
    Between(n + limbs, y, H, t + 5);
  }

  lemma FiveMore(t: nat, y: nat)
    ensures (t + 5) * y == t * y + 5 * y
  {
  }

  lemma Reaches(r: nat, y: nat, H: nat, limbs: nat)
    requires r + H >= y && limbs == H * H
    ensures H * y <= r * H + limbs
  {
    MulMonotone(y, r + H, H);
    assert (r + H) * H == r * H + limbs;
  }

  lemma DigitIsHalf(r: nat, h: nat, y: nat, H: nat, n: nat, t: nat)
    requires r < y && h < H && n == r * H + h && t == n / y
    ensures t < H
  {
    MulMonotone(r + 1, y, H);
    assert (r + 1) * H == r * H + H;
    Between(n, y, 0, H);
  }

  lemma Between(n: nat, y: nat, lo: nat, hi: nat)
    requires y > 0 && lo * y <= n < hi * y
    ensures lo <= n / y < hi
  {
    Parts(n, y);
    var q := n / y;
    if q < lo { MulMonotone(q + 1, lo, y); }
    if q >= hi { MulMonotone(hi, q, y); }
  }

  /** A product that wraps comes from a guess of at least H, hence from a remainder within H of the divisor. */
  lemma WrapReaches(r: nat, y: nat, H: nat)
    requires H > 0 && y / H > 0 && Wraps(r, y, H)
    ensures r + H >= y
  {
    var d1, d0 := y / H, y % H;
    Parts(y, H);
    Parts(r, d1);
    var g := r / d1;
    BelowSquare(H, d0);
    if g < H { MulMonotone(g, H, d0); }
    MulMonotone(H, g, d1);
  }

  lemma BelowSquare(H: nat, d0: nat)
    requires d0 < H
    ensures H * d0 < H * H
  {
    MulMonotone(d0, H - 1, H);
    assert H * (H - 1) == H * H - H;
  }

  /** The true digit from the true half digits. */
  lemma TwoHalves(x1: nat, x0: nat, a: nat, b: nat, H: nat, limbs: nat, d: nat, q1: nat, r: nat, q0: nat, rem: nat)
    requires limbs == H * H && x0 == H * a + b && rem < d
    requires x1 * H + a == q1 * d + r && r * H + b == q0 * d + rem
    ensures (x1 * limbs + x0) / d == q1 * H + q0
  {
    Spread(x1, a, H, limbs);
    Gather(q1, d, r, H);
    assert (q1 * H + q0) * d == q1 * H * d + q0 * d;
    DivModUnique(x1 * limbs + x0, d, q1 * H + q0, rem);
  }

  lemma Spread(x1: nat, a: nat, H: nat, limbs: nat)
    requires limbs == H * H
    ensures (x1 * H + a) * H == x1 * limbs + H * a
  {
    MulAssoc(x1, H, H);
  }

  lemma Gather(q1: nat, d: nat, r: nat, H: nat)
    ensures (q1 * d + r) * H == q1 * H * d + r * H
  {
    assert q1 * d * H == q1 * H * d;
  }

  /** Joining two half digits, each below 2*H. */
  lemma JoinedIs(q1: nat, q0: nat, k: nat, H: nat)
    requires H == Pow(2, k) && q1 < 2 * H && q0 < 2 * H
    ensures var a := if q1 < H then q1 else q1 - H;
            Joined(q1, q0, H) == if q0 < H || a % 2 == 0 then a * H + q0 else a * H + q0 - H
  {
    hide Or;
    var a := if q1 < H then q1 else q1 - H;
    DivModUnique(q1, H, if q1 < H then 0 else 1, a);
    OrShifted(a, k, H, q0);
  }

  /** All cases of the joined digit against the true one, t1*H + t0. */
  lemma JoinedCases(t1: nat, t0: nat, q1: nat, q0: nat, w1: bool, w0: bool, k: nat, H: nat, digit: nat, true_: nat)
    requires H == Pow(2, k) && H >= 16 && t1 < H && t0 < H && true_ == t1 * H + t0 && digit == Joined(q1, q0, H)
    requires if w1 then H <= q1 <= t1 + 4 && q0 < 2 * H else q1 == t1 && if w0 then H <= q0 <= t0 + 4 else q0 == t0
    ensures digit == true_ <==> !w1 && !w0
    ensures w1 || (w0 && t1 % 2 == 1) ==> digit + 5 <= true_
    ensures !w1 && w0 && t1 % 2 == 0 ==> digit > true_
  {
    hide Pow, Joined;
    JoinedIs(q1, q0, k, H);
    if w1 {
      var a := q1 - H;
      MulMonotone(a, if a % 2 == 0 then 2 else 3, H);
      MulMonotone(12, t1, H);
      MulMonotone(H - 4, t1, H);
    }
  }

  /** The digit of this branch is the quotient of the two limbs by the divisor exactly when neither half product wraps. It is
      far too low when the first wraps, or when the second does and the high half digit is odd; otherwise it is too high. */
  lemma EstimateExactly(x1: nat, x0: nat, y: nat, k: nat, H: nat)
    requires H == Pow(2, k) && k >= 4 && y < H * H <= 4 * y && y / H > 0 && x1 < y && x0 < H * H
    ensures var quotient, digit := (x1 * (H * H) + x0) / y, HalfEstimate(x1, x0, y, H);
            var w1, w0 := Wraps(x1, y, H), Wraps(Dividend(x1, x0 / H, y, H) % y, y, H);
            (digit == quotient <==> !w1 && !w0)
            && (TooLow(x1, x0, y, H) ==> digit + 5 <= quotient) && (!TooLow(x1, x0, y, H) ==> digit >= quotient)
  {
    hide Pow, Joined, Wraps, Dividend, HalfEstimate, TooLow;
    HalfBase(k);
    var t1, t0, q1, q0, w1, w0 := HalfDigits(x1, x0, y, k, H, H * H);
    HighDigit(t1, t0, H);
    JoinedCases(t1, t0, q1, q0, w1, w0, k, H, HalfEstimate(x1, x0, y, H), t1 * H + t0);
  }

  /** The true half digits t1 and t0 and the computed ones q1 and q0. */
  lemma HalfDigits(x1: nat, x0: nat, y: nat, k: nat, H: nat, limbs: nat)
    returns (t1: nat, t0: nat, q1: nat, q0: nat, w1: bool, w0: bool)
    requires H == Pow(2, k) && k >= 4 && limbs == H * H && y < limbs <= 4 * y && y / H > 0 && x1 < y && x0 < limbs
    ensures t1 < H && t0 < H && (x1 * limbs + x0) / y == t1 * H + t0 && HalfEstimate(x1, x0, y, H) == Joined(q1, q0, H)
    ensures w1 == Wraps(x1, y, H) && w0 == Wraps(Dividend(x1, x0 / H, y, H) % y, y, H)
    ensures TooLow(x1, x0, y, H) <==> w1 || (w0 && (t1 * H + t0) / H % 2 == 1)
    ensures if w1 then H <= q1 <= t1 + 4 && q0 < 2 * H else q1 == t1 && if w0 then H <= q0 <= t0 + 4 else q0 == t0
  {
    hide Pow, Joined, Wraps, Dividend, HalfEstimate, TooLow;
    HalfBase(k);
    HighHalf(y, H);
    UpperHalf(x0, H);
    var a, b := Split(x0, H);
    var m1 := Dividend(x1, a, y, H);
    var r1, rest;
    q1, r1 := Split(m1, y);
    var m0 := Dividend(r1, b, y, H);
    q0, rest := Split(m0, y);
    w1, w0 := Wraps(x1, y, H), Wraps(r1, y, H);
    EstimateIs(x1, x0, y, H, a, b, m1, q1, r1, q0);
    var n1, r: nat := Scaled(x1, H, a), 0;
    t1, r := Split(n1, y);
    StepExactly(x1, a, y, H, n1, t1, q1);
    DividendIs(x1, a, y, H, n1);
    var n := Scaled(r1, H, b);
    var t, _ := Split(n, y);
    StepExactly(r1, b, y, H, n, t, q0);
    var n0, rem: nat := Scaled(r, H, b), 0;
    t0, rem := Split(n0, y);
    DigitIsHalf(r, b, y, H, n0, t0);
    TwoHalves(x1, x0, a, b, H, limbs, y, t1, r, t0, rem);
  }

  lemma Split(n: nat, y: nat) returns (q: nat, r: nat)
    requires y > 0
    ensures n == q * y + r && r < y && q == n / y && r == n % y
  {
    Parts(n, y);
    q, r := n / y, n % y;
  }

  ghost function Scaled(r: nat, H: nat, h: nat): (n: nat)
    ensures n == r * H + h
  {
    MulMonotone(0, r, H);
    r * H + h
  }

  lemma EstimateIs(x1: nat, x0: nat, y: nat, H: nat, a: nat, b: nat, m1: nat, q1: nat, r1: nat, q0: nat)
    requires H > 0 && y / H > 0 && y > 0 && a == x0 / H && b == x0 % H
    requires m1 == Dividend(x1, a, y, H) && q1 == m1 / y && r1 == m1 % y && q0 == Dividend(r1, b, y, H) / y
    ensures HalfEstimate(x1, x0, y, H) == Joined(q1, q0, H)
    ensures TooLow(x1, x0, y, H) <==> Wraps(x1, y, H) || (Wraps(r1, y, H) && (x1 * (H * H) + x0) / y / H % 2 == 1)
  {
    hide Joined, Wraps, Dividend;
  }

  /** The estimate is lost: the first product wraps, or the second does and the high half of the true digit is odd. */
  predicate TooLow(x1: nat, x0: nat, y: nat, H: nat)
    requires H > 0 && y / H > 0
  {
    Parts(y, H);
    MulMonotone(1, y / H, H);
    Wraps(x1, y, H)
    || (Wraps(Rem(Dividend(x1, Quo(x0, H), y, H), y), y, H) && (x1 * (H * H) + x0) / y / H % 2 == 1)
  }

  lemma HighDigit(t1: nat, t0: nat, H: nat)
    requires t0 < H
    ensures (t1 * H + t0) / H == t1
  {
    DivModUnique(t1 * H + t0, H, t1, t0);
  }

  lemma HalfBase(h: nat)
    requires h >= 4
    ensures Pow(2, 2 * h) == Pow(2, h) * Pow(2, h) && Pow(2, h) >= 16 && Pow(2, h) % 4 == 0
  {
    hide Pow;
    HalfSquare(h);
    Sixteen();
    PowMonotone(2, 4, h);
    Fourfold(h - 2);
  }

  lemma HalfSquare(h: nat)
    ensures Pow(2, 2 * h) == Pow(2, h) * Pow(2, h)
  {
    hide Pow;
    assert 2 * h == h + h;
    PowAdd(2, h, h);
  }

  lemma Fourfold(k: nat)
    ensures Pow(2, k + 2) % 4 == 0
  {
    hide Pow;
    PowStep(2, k + 1);
    PowStep(2, k);
  }

  lemma Sixteen()
    ensures Pow(2, 4) == 16
  {
  }

  // ---------------------------------------------------------------- the division step in this build

  /** The half radix, 1 << biH. */
  const HALF: nat := Pow(2, BITS / 2)

  lemma HalfRadix()
    ensures BASE == HALF * HALF && HALF >= 16 && HALF % 4 == 0
  {
    hide Pow;
    HalfBase(BITS / 2);
  }

  lemma DivisorHigh(y: nat)
    requires BASE <= 4 * y
    ensures y / HALF > 0 && HALF > 0
  {
    HalfRadix();
    HighHalf(y, HALF);
  }

  /** The digit fits a limb again, whatever was lost. */
  lemma JoinedFits(q1: nat, q0: nat, k: nat, H: nat)
    requires H == Pow(2, k) && H % 4 == 0 && H > 0 && q1 < 2 * H && q0 < 2 * H
    ensures Joined(q1, q0, H) < H * H
  {
    hide Pow, Joined;
    JoinedIs(q1, q0, k, H);
    var a := if q1 < H then q1 else q1 - H;
    var top := if a % 2 == 0 then H - 2 else H - 1;
    MulMonotone(a, top, H);
    LastTwo(H);
  }

  lemma LastTwo(H: nat)
    ensures (H - 2) * H == H * H - 2 * H && (H - 1) * H == H * H - H
  {
  }

  lemma EstimateFitsLimb(x1: nat, x0: nat, y: nat, k: nat, H: nat)
    requires H == Pow(2, k) && k >= 4 && y < H * H <= 4 * y && y / H > 0 && x1 < y && x0 < H * H
    ensures HalfEstimate(x1, x0, y, H) < H * H
  {
    hide Pow, Joined, Wraps, Dividend, HalfEstimate, TooLow;
    HalfBase(k);
    HighHalf(y, H);
    UpperHalf(x0, H);
    var a, b := Split(x0, H);
    var m1 := Dividend(x1, a, y, H);
    var q1, r1 := Split(m1, y);
    var q0, _ := Split(Dividend(r1, b, y, H), y);
    EstimateIs(x1, x0, y, H, a, b, m1, q1, r1, q0);
    var n1 := Scaled(x1, H, a);
    var t1, _ := Split(n1, y);
    StepExactly(x1, a, y, H, n1, t1, q1);
    var n := Scaled(r1, H, b);
    var t, _ := Split(n, y);
    StepExactly(r1, b, y, H, n, t, q0);
    JoinedFits(q1, q0, k, H);
  }

  /** The first digit as this build computes it; the divisor is normalised to have one of its two highest bits set. */
  method FirstDigit(x1: limb, x0: limb, y: limb) returns (q: limb)
    requires Normal(y)
    ensures y / HALF > 0 && HALF > 0
    ensures q == if x1 >= y then BASE - 1 else HalfEstimate(x1, x0, y, HALF)
  {
    hide Pow, HalfEstimate;
    HalfRadix();
    DivisorHigh(y);
    BaseBounds();
    if x1 >= y { return BASE - 1; }
    HighHalf(y, HALF);
    UpperHalf(x0, HALF);
    EstimateFitsLimb(x1, x0, y, BITS / 2, HALF);
    var r := TwoDigits(x1, x0, y, HALF, BASE);
    q := r;
  }

  /** The true digit t is at most four below the quotient q of the top two limbs by the top one. */
  lemma QuotientNear(u: nat, v: nat, w: nat, x2: nat, y: nat, base: nat, q: nat, t: nat)
    requires x2 * w <= u < (t + 1) * v && v <= y * w + w && base <= 4 * y && q * y <= x2 < y * base
    ensures q <= t + 4
  {
    DigitBelowBase(q, y, x2, base);
    if q > t + 4 {
      FewerFit(q - 4, q, y, x2);
      MultipleFits(q - 4, y, w, x2, u, v);
      MulMonotone(t + 1, q - 4, v);
    }
  }

  lemma QuotientNearCut(u: nat, v: nat, w: nat, x2: nat, y: nat, base: nat)
    requires v > 0 && y > 0 && Cut(u, x2, w) && Cut(v, y, w) && base <= 4 * y && x2 < y * base
    ensures x2 / y <= u / v + 4
  {
    var q, _ := Split(x2, y);
    var t, r := Split(u, v);
    assert (t + 1) * v == t * v + v;
    QuotientNear(u, v, w, x2, y, base, q, t);
  }

  lemma DigitBelowBase(q: nat, y: nat, x2: nat, base: nat)
    requires q * y <= x2 < y * base
    ensures q < base
  {
    if q >= base { MulMonotone(base, q, y); }
  }

  lemma FewerFit(p: nat, q: nat, y: nat, x2: nat)
    requires p == q - 4 && q <= 4 * y && q * y <= x2
    ensures p * (y + 1) <= x2
  {
    assert p * (y + 1) == q * y + q - 4 * y - 4;
  }

  lemma MultipleFits(p: nat, y: nat, w: nat, x2: nat, u: nat, v: nat)
    requires p * (y + 1) <= x2 && v <= y * w + w && x2 * w <= u
    ensures p * v <= u
  {
    assert y * w + w == (y + 1) * w;
    MulMonotone(v, (y + 1) * w, p);
    MulAssoc(p, y + 1, w);
    MulMonotone(p * (y + 1), x2, w);
  }

  /** The divisor's top limb has one of its two highest bits set, as normalisation leaves it. */
  predicate Normal(y: nat) {
    BASE <= 4 * y
  }

  /** Every divisor that Division.Normalise produces is normal, and has its highest bit clear. */
  lemma NormalisedTop(p: seq<limb>, t: nat, bits: nat)
    requires t < |p| && p[t] > 0 && (forall k :: t < k < |p| ==> p[k] == 0)
    requires bits % BITS == BITS - 1 && Pow(2, bits - 1) <= Val(p) < Pow(2, bits)
    ensures Normal(p[t]) && p[t] + p[t] < BASE
  {
    hide Val, Pow;
    var j := bits / BITS;
    var w, quarter := Pow(BASE, t), Pow(2, BITS - 2);
    QuarterBase(quarter);
    BitsSplit(bits, j, quarter);
    TopWeight(p, t);
    if t < j {
      PowMonotone(BASE, t + 1, j);
      MulMonotone(p[t] as int + 1, BASE, w);
      PowStep(BASE, t);
      MulMonotone(1, quarter, Pow(BASE, j));
    }
    if t > j {
      PowMonotone(BASE, j + 1, t);
      PowStep(BASE, j);
      MulMonotone(2 * quarter, BASE, Pow(BASE, j));
      MulMonotone(1, p[t], w);
    }
    TopBounds(p[t], w, Val(p), quarter);
  }

  lemma QuarterBase(quarter: nat)
    requires quarter == Pow(2, BITS - 2)
    ensures BASE == 4 * quarter && quarter >= 1
  {
    hide Pow;
    PowStep(2, BITS - 2);
    PowStep(2, BITS - 1);
  }

  lemma BitsSplit(bits: nat, j: nat, quarter: nat)
    requires j == bits / BITS && bits % BITS == BITS - 1 && quarter == Pow(2, BITS - 2)
    ensures Pow(2, bits - 1) == quarter * Pow(BASE, j) && Pow(2, bits) == 2 * quarter * Pow(BASE, j)
  {
    hide Pow;
    DivModParts(bits, BITS);
    PowMul(2, BITS, j);
    assert bits - 1 == BITS - 2 + BITS * j;
    PowAdd(2, BITS - 2, BITS * j);
    PowStep(2, bits - 1);
    assert 2 * (quarter * Pow(BASE, j)) == 2 * quarter * Pow(BASE, j);
  }

  lemma TopWeight(p: seq<limb>, t: nat)
    requires t < |p| && (forall k :: t < k < |p| ==> p[k] == 0)
    ensures p[t] * Pow(BASE, t) <= Val(p) < (p[t] as int + 1) * Pow(BASE, t)
  {
    hide Val, Pow;
    ValHighZero(p, t + 1);
    ValSnoc(p, t);
    ValBound(p[..t]);
    assert (p[t] as int + 1) * Pow(BASE, t) == p[t] * Pow(BASE, t) + Pow(BASE, t);
  }

  lemma TopBounds(top: nat, w: nat, v: nat, quarter: nat)
    requires w > 0 && top * w <= v < (top + 1) * w && quarter * w <= v < 2 * quarter * w
    ensures quarter <= top < 2 * quarter
  {
    if top < quarter { MulMonotone(top + 1, quarter, w); }
    if top >= 2 * quarter { MulMonotone(2 * quarter, top, w); }
  }

  /** The operands of the step make its first estimate too low. */
  predicate LowStep(x1: limb, x0: limb, y: limb)
    requires Normal(y)
  {
    DivisorHigh(y);
    x1 < y && TooLow(x1, x0, y, HALF)
  }

  /** Whether the first estimate reaches the true digit. */
  lemma LowExactly(x: seq<limb>, y: seq<limb>, i: nat, t: nat, d: nat, q0: nat)
    requires t < i < |x| && t < |y| && Normal(y[t]) && (forall k :: t < k < |y| ==> y[k] == 0)
    requires d == Val(y) * Pow(BASE, i - t - 1) && Val(x) < d * BASE
    requires y[t] / HALF > 0 && HALF > 0 && q0 == if x[i] >= y[t] then BASE - 1 else HalfEstimate(x[i], x[i - 1], y[t], HALF)
    ensures d > 0 && (Val(x) / d <= q0 <==> !LowStep(x[i], x[i - 1], y[t]))
  {
    hide Val, Pow, Cut, HalfEstimate, TooLow;
    HalfRadix();
    BaseBounds();
    var x2 := Scaled(x[i], BASE, x[i - 1]);
    DigitBelow(x, y, i, t, d, x2);
    if x[i] < y[t] {
      EstimateExactly(x[i], x[i - 1], y[t], BITS / 2, HALF);
      if TooLow(x[i], x[i - 1], y[t], HALF) { DigitNear(x, y, i, t, d, x2); }
    }
  }

  /** The true digit is at most four below the quotient of the top limbs. */
  lemma DigitNear(x: seq<limb>, y: seq<limb>, i: nat, t: nat, d: nat, x2: nat)
    requires t < i < |x| && t < |y| && Normal(y[t]) && (forall k :: t < k < |y| ==> y[k] == 0) && x[i] < y[t]
    requires d == Val(y) * Pow(BASE, i - t - 1) && Val(x) < d * BASE && x2 == x[i] * BASE + x[i - 1]
    ensures d > 0 && x2 / y[t] <= Val(x) / d + 4
  {
    hide Val, Pow, Cut;
    BaseBounds();
    TopCuts(x, y, i, t, d, x2);
    MulMonotone(x[i] as int + 1, y[t], BASE);
    MulMonotone(1, d, BASE);
    QuotientNearCut(BASE * Val(x), BASE * d, Pow(BASE, i), x2, y[t], BASE);
    ScaledQuotient(Val(x), d, BASE);
  }

  /** One iteration of the main loop in this build: digit and remainder are right exactly when the first estimate is not too low.
      An estimate that is too high is repaired, one that is too low stays. */
  method DivStepHalf(X: Mpi, Y: Mpi, T1: Mpi, T2: Mpi, i: nat, t: nat, ghost d: nat) returns (ret: Ret, q: limb)
    requires X != Y && X != T1 && X != T2 && Y != T1 && Y != T2 && T1 != T2
    requires X.Valid() && Y.Valid() && T1.Valid() && T2.Valid() && |T1.p| >= 2 && |T2.p| >= 3
    requires t < i < |X.p| && t < |Y.p| && Normal(Y.p[t]) && (forall k :: t < k < |Y.p| ==> Y.p[k] == 0) && Y.s == 1
    requires d == Val(Y.p) * Pow(BASE, i - t - 1) && X.Value() >= 0 && Val(X.p) < d * BASE
    modifies X, T1, T2
    ensures X.Valid() && T1.Valid() && T2.Valid()
    ensures ret == Ok || ret == AllocFailed
    ensures ret.Ok? ==> d > 0 && (q == old(Val(X.p)) / d <==> !LowStep(old(X.p[i]), old(X.p[i - 1]), Y.p[t]))
    ensures ret.Ok? ==> d > 0 && (X.Value() == old(Val(X.p)) % d <==> !LowStep(old(X.p[i]), old(X.p[i - 1]), Y.p[t]))
  {
    hide Val, Pow, HalfEstimate, LowStep;
    BaseBounds();
    var q0 := FirstDigit(X.p[i], X.p[i - 1], Y.p[t]);
    LowExactly(X.p, Y.p, i, t, d, q0);
    ret, q := DivWithEstimate(X, Y, T1, T2, i, t, d, q0);
  }

  /** The divisor H*H/4 + H - 1 and a remainder one below it make the first product wrap, whatever the limb width. */
  lemma WrapExample(H: nat, d1: nat, y: nat)
    requires H >= 16 && H == 4 * d1 && y == d1 * H + (H - 1)
    ensures y < H * H <= 4 * y && y / H == d1 && Wraps(y - 1, y, H)
  {
    DivModUnique(y, H, d1, H - 1);
    assert d1 * (H + 3) == d1 * H + 3 * d1;
    DivModUnique(y - 1, d1, H + 3, y - 1 - d1 * (H + 3));
    AroundSquare(H);
    MulMonotone(d1 + 1, H - 1, H);
    assert (d1 + 1) * H == d1 * H + H && (H - 1) * H == H * H - H;
    Quartered(d1, H);
  }

  /** A normalised division whose quotient comes out wrong in this build, for every limb width: (y - 1) * BASE by y. */
  lemma WrongQuotient(y: nat)
    requires y == HALF / 4 * HALF + (HALF - 1)
    ensures y < BASE && Normal(y) && 2 * y < BASE && LowStep(y - 1, 0, y)
    ensures HALF > 0 && y / HALF > 0 && HalfEstimate(y - 1, 0, y, HALF) + 5 <= (y - 1) * BASE / y
  {
    hide Pow, HalfEstimate;
    HalfRadix();
    WrapExample(HALF, HALF / 4, y);
    assert 2 * (HALF / 4 * HALF) + 2 * HALF <= HALF * HALF by { Quartered(HALF / 4, HALF); MulMonotone(8, HALF, HALF); }
    EstimateExactly(y - 1, 0, y, BITS / 2, HALF);
  }

  /** That division, step by step: whatever happens, a quotient digit that is reported is not the quotient. */
  method WrongDivision(X: Mpi, Y: Mpi, T1: Mpi, T2: Mpi, ghost y: nat) returns (ret: Ret, q: limb)
    requires X != Y && X != T1 && X != T2 && Y != T1 && Y != T2 && T1 != T2
    requires X.Valid() && Y.Valid() && T1.Valid() && T2.Valid() && |T1.p| >= 2 && |T2.p| >= 3
    requires y == HALF / 4 * HALF + (HALF - 1) && X.s == 1 && X.p == [0, y - 1] && Y.s == 1 && Y.p == [y]
    modifies X, T1, T2
    ensures ret.Ok? ==> Val(Y.p) > 0 && q != old(Val(X.p)) / Val(Y.p) && X.Value() != old(Val(X.p)) % Val(Y.p)
  {
    hide Val, Pow, LowStep, HalfEstimate;
    HalfRadix();
    WrongQuotient(y);
    PowZero(BASE);
    ValOne(y);
    TwoLimbs(0, y - 1);
    ghost var d := y;
    assert (y - 1) * BASE < d * BASE by { MulStrict(y - 1, y, BASE); }
    ret, q := DivStepHalf(X, Y, T1, T2, 1, 0, d);
  }
}
