/** The 64-bit linear congruential generator behind object ids (crates/galleonfs/src/platform.rs). */
module ObjectIdGenerator {
  import opened Numbers

  const MULTIPLIER: nat := 1103515245
  const INCREMENT: nat := 12345

  function Pow2(k: nat): (p: nat)
    ensures p > 0
  {
    if k == 0 then 1 else 2 * Pow2(k - 1)
  }

  /** wrapping_mul and wrapping_add. */
  function Next(state: u64): (r: u64) {
    (((state * MULTIPLIER) % WORD_LIMIT) + INCREMENT) % WORD_LIMIT
  }

  /** The two wrapping operations are one on unbounded numbers, taken modulo 2^64. */
  lemma NextExactly(state: u64)
    ensures Next(state) == (state * 1103515245 + 12345) % 0x1_0000_0000_0000_0000
  {
    Rewrapped(state * 1103515245, 12345);
  }

  lemma Rewrapped(a: nat, b: nat)
    ensures (a % WORD_LIMIT + b) % WORD_LIMIT == (a + b) % WORD_LIMIT
  {
  }

  class SimpleRng {
    var state: u64

    constructor (seed: u64)
      ensures state == seed
    {
      state := seed;
    }

    method NextU64() returns (r: u64)
      modifies this
      ensures r == state == Next(old(state))
      ensures r == (old(state) * 1103515245 + 12345) % 0x1_0000_0000_0000_0000
    {
      NextExactly(state);
      var current := state;
      var product := (current * MULTIPLIER) % WORD_LIMIT;
      var next := (product + INCREMENT) % WORD_LIMIT;
      state := next;
      r := next;
    }
  }

  /** The state after `n` draws. */
  function Draw(seed: u64, n: nat): (r: u64) {
    if n == 0 then seed else Next(Draw(seed, n - 1))
  }

  lemma {:induction false} DrawAdds(seed: u64, m: nat, n: nat)
    ensures Draw(seed, m + n) == Draw(Draw(seed, m), n)
    decreases n
  {
    if n > 0 {
      DrawAdds(seed, m, n - 1);
    }
  }

  // ---------------------------------------------------------------------
  // Divisibility by powers of two

  function Times(a: int, b: int): (r: int) {
    a * b
  }

  ghost predicate Divides(d: nat, n: int) {
    exists q :: Times(q, d) == n
  }

  lemma DoubleDivides(d: nat, n: int)
    ensures Divides(2 * d, 2 * n) <==> Divides(d, n)
  {
    if Divides(d, n) {
      var q :| Times(q, d) == n;
      TimesDouble(q, d);
      assert Times(q, 2 * d) == 2 * n;
    }
    if Divides(2 * d, 2 * n) {
      var q :| Times(q, 2 * d) == 2 * n;
      TimesDouble(q, d);
      assert Times(q, d) == n;
    }
  }

  lemma TimesDouble(q: int, d: int)
    ensures Times(q, 2 * d) == 2 * Times(q, d)
  {
  }

  lemma TimesAssoc(a: int, b: int, c: int)
    ensures Times(Times(a, b), c) == Times(a, Times(b, c))
  {
  }

  lemma TimesDistributes(a: int, b: int, c: int)
    ensures Times(a, b + c) == Times(a, b) + Times(a, c)
    ensures Times(b + c, a) == Times(b, a) + Times(c, a)
  {
  }

  /** Divisibility by the number of states, as a remainder. */
  lemma DividesModulus(n: int)
    ensures Divides(WORD_LIMIT, n) <==> n % WORD_LIMIT == 0
  {
    if n % WORD_LIMIT == 0 {
      assert Times(n / WORD_LIMIT, WORD_LIMIT) == n;
    }
  }

  /** A power of two that divides a product with an odd factor divides the other factor. */
  lemma {:induction false} OddFactor(k: nat, n: int, odd: int)
    requires odd % 2 == 1
    ensures Divides(Pow2(k), Times(n, odd)) <==> Divides(Pow2(k), n)
    decreases k
  {
    hide Divides, Times;
    if k == 0 {
      OneDivides(n);
      OneDivides(Times(n, odd));
    } else if n % 2 == 0 {
      var h := n / 2;
      HalfTimes(h, odd);
      OddFactor(k - 1, h, odd);
      DoubleDivides(Pow2(k - 1), Times(h, odd));
      DoubleDivides(Pow2(k - 1), h);
    } else {
      OddTimesOdd(n, odd);
      OddNotDivided(k, Times(n, odd));
      OddNotDivided(k, n);
    }
  }

  lemma OneDivides(n: int)
    ensures Divides(1, n)
  {
    assert Times(n, 1) == n;
  }

  lemma HalfTimes(h: int, b: int)
    ensures Times(2 * h, b) == 2 * Times(h, b)
  {
  }

  lemma OddTimesOdd(a: int, b: int)
    requires a % 2 == 1 && b % 2 == 1
    ensures Times(a, b) % 2 == 1
  {
    var i, j := a / 2, b / 2;
    assert a * b == 2 * (2 * i * j + i + j) + 1;
  }

  lemma OddNotDivided(k: nat, n: int)
    requires k > 0 && n % 2 == 1
    ensures !Divides(Pow2(k), n)
  {
    if Divides(Pow2(k), n) {
      var q :| Times(q, Pow2(k)) == n;
      TimesDouble(q, Pow2(k - 1));
    }
  }

  // ---------------------------------------------------------------------
  // The geometric sum 1 + a + ... + a^(n-1)

  function Power(a: int, n: nat): (p: int) {
    if n == 0 then 1 else Times(a, Power(a, n - 1))
  }

  function Sum(a: int, n: nat): (s: int) {
    if n == 0 then 0 else 1 + Times(a, Sum(a, n - 1))
  }

  lemma OneMod4(a: int, b: int)
    requires a % 4 == 1 && b % 4 == 1
    ensures Times(a, b) % 4 == 1
  {
    var i, j := a / 4, b / 4;
    assert a * b == 4 * (4 * i * j + i + j) + 1;
  }

  lemma {:induction false} PowerMod4(a: int, n: nat)
    requires a % 4 == 1
    ensures Power(a, n) % 4 == 1
    decreases n
  {
    hide Times;
    if n > 0 {
      PowerMod4(a, n - 1);
      OneMod4(a, Power(a, n - 1));
    }
  }

  lemma {:induction false} SumSplit(a: int, m: nat, n: nat)
    ensures Sum(a, m + n) == Sum(a, m) + Times(Power(a, m), Sum(a, n))
    decreases m
  {
    hide Times;
    if m == 0 {
      TimesOne(Sum(a, n));
    } else {
      SumSplit(a, m - 1, n);
      TimesDistributes(a, Sum(a, m - 1), Times(Power(a, m - 1), Sum(a, n)));
      TimesAssoc(a, Power(a, m - 1), Sum(a, n));
    }
  }

  lemma TimesOne(x: int)
    ensures Times(1, x) == x
  {
  }

  lemma HalfPlus(p: int, s: int)
    requires p % 4 == 1
    ensures (2 * (p / 4) + 1) % 2 == 1 && s + Times(p, s) == 2 * Times(s, 2 * (p / 4) + 1)
  {
    var j := p / 4;
    assert p == 4 * j + 1;
    assert (4 * j + 1) * s == 4 * (j * s) + s;
    assert s * (2 * j + 1) == 2 * (j * s) + s;
  }

  /** Halving: S(2m) is 2 * S(m) times an odd number. */
  lemma SumDouble(a: int, m: nat) returns (odd: int)
    requires a % 4 == 1
    ensures odd % 2 == 1 && Sum(a, 2 * m) == 2 * Times(Sum(a, m), odd)
  {
    hide Times;
    SumSplit(a, m, m);
    PowerMod4(a, m);
    HalfPlus(Power(a, m), Sum(a, m));
    odd := 2 * (Power(a, m) / 4) + 1;
  }

  lemma OddMultiple(a: int, s: int)
    requires a % 4 == 1
    ensures Times(a, s) % 2 == s % 2
  {
    var i := a / 4;
    assert a * s == 2 * (2 * i * s) + s;
  }

  lemma {:induction false} SumParity(a: int, n: nat)
    requires a % 4 == 1
    ensures Sum(a, n) % 2 == n % 2
    decreases n
  {
    hide Times;
    if n > 0 {
      SumParity(a, n - 1);
      OddMultiple(a, Sum(a, n - 1));
    }
  }

  /** For a multiplier that is 1 modulo 4, S(n) and n have the same power of two. */
  lemma {:induction false} SumDivisible(a: int, n: nat, k: nat)
    requires a % 4 == 1
    ensures Divides(Pow2(k), Sum(a, n)) <==> Divides(Pow2(k), n)
    decreases k
  {
    hide Times, Divides, Sum;
    if k == 0 {
      OneDivides(n);
      OneDivides(Sum(a, n));
    } else {
      SumParity(a, n);
      if n % 2 == 1 {
        OddNotDivided(k, n);
        OddNotDivided(k, Sum(a, n));
      } else {
        var m := n / 2;
        var odd := SumDouble(a, m);
        SumDivisible(a, m, k - 1);
        OddFactor(k - 1, Sum(a, m), odd);
        DoubleDivides(Pow2(k - 1), Times(Sum(a, m), odd));
        DoubleDivides(Pow2(k - 1), m);
      }
    }
  }

  // ---------------------------------------------------------------------
  // The period

  /** The sequence over the integers, without wrapping. */
  function Unwrapped(seed: int, n: nat): (y: int) {
    if n == 0 then seed else Unwrapped(seed, n - 1) * MULTIPLIER + INCREMENT
  }

  lemma WrapStep(y: int)
    ensures (((y % WORD_LIMIT) * MULTIPLIER) % WORD_LIMIT + INCREMENT) % WORD_LIMIT == (y * MULTIPLIER + INCREMENT) % WORD_LIMIT
  {
  }

  lemma {:induction false} DrawWraps(seed: u64, n: nat)
    ensures Draw(seed, n) == Unwrapped(seed, n) % WORD_LIMIT
    decreases n
  {
    if n > 0 {
      DrawWraps(seed, n - 1);
      WrapStep(Unwrapped(seed, n - 1));
    }
  }

  lemma UnwrapStep(seed: int, s: int, d: int)
    requires d == (MULTIPLIER - 1) * seed + INCREMENT
    ensures (seed + Times(s, d)) * MULTIPLIER + INCREMENT == seed + Times(1 + Times(MULTIPLIER, s), d)
  {
    TimesDistributes(d, 1, Times(MULTIPLIER, s));
    TimesAssoc(MULTIPLIER, s, d);
  }

  lemma {:induction false} UnwrappedForm(seed: int, n: nat)
    ensures Unwrapped(seed, n) == seed + Times(Sum(MULTIPLIER, n), (MULTIPLIER - 1) * seed + INCREMENT)
    decreases n
  {
    if n > 0 {
      UnwrappedForm(seed, n - 1);
      UnwrapStep(seed, Sum(MULTIPLIER, n - 1), (MULTIPLIER - 1) * seed + INCREMENT);
    }
  }

  lemma ModulusIsPow2()
    ensures Pow2(64) == WORD_LIMIT
  {
    assert Pow2(4) == 16;
    Pow2Adds(4, 4);
    Pow2Adds(8, 8);
    Pow2Adds(16, 16);
    Pow2Adds(32, 32);
  }

  lemma {:induction false} Pow2Adds(m: nat, n: nat)
    ensures Pow2(m + n) == Times(Pow2(m), Pow2(n))
    decreases m
  {
    hide Times;
    if m == 0 {
      TimesOne(Pow2(n));
    } else {
      Pow2Adds(m - 1, n);
      HalfTimes(Pow2(m - 1), Pow2(n));
    }
  }

  lemma ReturnsIff(seed: u64, y: int)
    ensures (seed + y) % WORD_LIMIT == seed <==> y % WORD_LIMIT == 0
  {
  }

  lemma StrideIsOdd(seed: int)
    ensures ((MULTIPLIER - 1) * seed + INCREMENT) % 2 == 1
  {
    var half := 551757622 * seed + 6172;
    assert (MULTIPLIER - 1) * seed + INCREMENT == 2 * half + 1;
    OddForm(half);
  }

  lemma OddForm(half: int)
    ensures (2 * half + 1) % 2 == 1
  {
  }

  /** Theorem: a state comes back exactly after multiples of 2^64 draws. */
  lemma FullPeriod(seed: u64, n: nat)
    ensures Draw(seed, n) == seed <==> n % WORD_LIMIT == 0
  {
    hide Times, Sum, Draw, Next, Unwrapped, Divides, Pow2;
    var d := (MULTIPLIER - 1) * seed + INCREMENT;
    var sum := Sum(MULTIPLIER, n);
    DrawWraps(seed, n);
    UnwrappedForm(seed, n);
    ReturnsIff(seed, Times(sum, d));
    DividesModulus(Times(sum, d));
    ModulusIsPow2();
    StrideIsOdd(seed);
    OddFactor(64, sum, d);
    SumDivisible(MULTIPLIER, n, 64);
    DividesModulus(n);
  }

  /** Theorem: any 2^64 consecutive draws are pairwise distinct. */
  lemma DrawsDistinct(seed: u64, i: nat, j: nat)
    requires i < j < i + WORD_LIMIT
    ensures Draw(seed, i) != Draw(seed, j)
  {
    hide Draw, Next;
    DrawAdds(seed, i, j - i);
    FullPeriod(Draw(seed, i), j - i);
  }

  ghost function Drawn(seed: u64, n: nat): (s: set<u64>) {
    if n == 0 then {} else Drawn(seed, n - 1) + {Draw(seed, n)}
  }

  lemma {:induction false} DrawnMember(seed: u64, n: nat, v: u64)
    ensures v in Drawn(seed, n) <==> exists i :: 0 < i <= n && Draw(seed, i) == v
    decreases n
  {
    hide Draw, Next;
    if n > 0 {
      DrawnMember(seed, n - 1, v);
      if v == Draw(seed, n) {
        assert 0 < n <= n && Draw(seed, n) == v;
      } else if i :| 0 < i <= n && Draw(seed, i) == v {
        assert i <= n - 1;
      }
    }
  }

  lemma {:induction false} DrawnSize(seed: u64, n: nat)
    requires n <= WORD_LIMIT
    ensures |Drawn(seed, n)| == n
    decreases n
  {
    hide Draw, Next;
    if n > 0 {
      DrawnSize(seed, n - 1);
      DrawnMember(seed, n - 1, Draw(seed, n));
      forall i | 0 < i <= n - 1
        ensures Draw(seed, i) != Draw(seed, n)
      {
        DrawsDistinct(seed, i, n);
      }
    }
  }

  ghost function Below(n: nat): (s: set<u64>)
    requires n <= WORD_LIMIT
    ensures |s| == n && forall v: u64 :: v in s <==> v < n
  {
    if n == 0 then {} else Below(n - 1) + {n - 1}
  }

  lemma SubsetOfSameSize<T>(a: set<T>, b: set<T>)
    requires a <= b && |a| == |b|
    ensures a == b
  {
    assert |b| == |a| + |b - a|;
  }

  /** Theorem: within one period every 64-bit value is drawn, the root's id zero included. */
  lemma EveryValueDrawn(seed: u64, v: u64)
    ensures exists i :: 0 < i <= WORD_LIMIT && Draw(seed, i) == v
  {
    hide Draw, Next, Drawn;
    DrawnSize(seed, WORD_LIMIT);
    SubsetOfSameSize(Drawn(seed, WORD_LIMIT), Below(WORD_LIMIT));
    DrawnMember(seed, WORD_LIMIT, v);
  }
}
