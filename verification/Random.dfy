/**
 The "minimal standard" Lehmer generator of xf86drmRandom.c.

 The generator steps seed to A * seed mod M without ever forming A * seed: it splits the seed
 by Q = M / A and corrects a wrapped subtraction.  The module proves that this is the modular
 product, that the step permutes 1 .. M-1, and names the step that undoes it.
 */
module Random {

  const A := 48271
  const M := 2147483647
  const Q := 44488      // M / A
  const R := 3399       // M % A

  // The multiplicative inverse of A modulo M.
  const A_INVERSE := 1899818559

  const TWO_31 := 0x8000_0000
  const TWO_64 := 0x1_0000_0000_0000_0000

  // A seed the generator may hold once it has been created.
  predicate Legal(seed: int) {
    1 <= seed < M
  }

  // What the generator is for: multiplication by A modulo the prime M.
  function Lehmer(seed: nat): nat {
    (A * seed) % M
  }

  // The i-th number after the seed.
  function Nth(seed: nat, i: nat): nat {
    if i == 0 then seed else Lehmer(Nth(seed, i - 1))
  }

  function Power(i: nat): nat {
    if i == 0 then 1 else A * Power(i - 1)
  }

  // In closed form: A to the i-th times the seed, modulo M.
  lemma {:induction false} NthIsPower(seed: nat, i: nat)
    requires Legal(seed)
    ensures Nth(seed, i) == (Power(i) * seed) % M && Legal(Nth(seed, i))
  {
    if i > 0 {
      NthIsPower(seed, i - 1);
      InverseUndoesLehmer(Nth(seed, i - 1));
      StepOfPower(seed, i);
    }
  }

  lemma StepOfPower(seed: nat, i: nat)
    requires i > 0
    ensures (A * ((Power(i - 1) * seed) % M)) % M == (Power(i) * seed) % M
  {
    var x := Power(i - 1) * seed;
    assert Power(i) * seed == A * x;
    var k, r := x / M, x % M;
    assert A * x == A * r + M * (A * k);
    ModOfSum(A * r, A * k);
  }

  lemma ModOfSum(x: int, t: int)
    ensures (x + M * t) % M == x % M
  {
    ModOfShifted(x + M * t, x % M, x / M + t);
  }

  function Distance(a: int, b: int): nat {
    if a <= b then b - a else a - b
  }

  // The seed drmRandomCreate settles on: the closest legal value.
  function Clamp(seed: nat): (s: nat)
    ensures Legal(s)
    ensures forall t :: Legal(t) ==> Distance(seed, s) <= Distance(seed, t)
  {
    var s := if seed <= 0 then 1 else seed;
    if s >= M then M - 1 else s
  }

  // `unsigned long` subtraction and addition.
  function Sub64(a: nat, b: nat): nat {
    (a - b) % TWO_64
  }

  function Add64(a: nat, b: nat): nat {
    (a + b) % TWO_64
  }

  // The q/r decomposition: a*lo - r*hi differs from a*seed by a multiple of m.
  lemma Decomposition(seed: nat)
    requires Legal(seed)
    ensures var hi, lo := seed / Q, seed % Q;
      && A * lo - R * hi == A * seed - M * hi
      && A * lo < TWO_31 && R * hi < TWO_31
      && -M < A * lo - R * hi < M
  {
  }

  // A legal seed never steps to zero: multiplying by the inverse would give the seed back.
  lemma InverseUndoesLehmer(seed: nat)
    requires Legal(seed)
    ensures (A_INVERSE * Lehmer(seed)) % M == seed
    ensures Legal(Lehmer(seed))
  {
    var k, s' := (A * seed) / M, Lehmer(seed);
    assert A * seed == M * k + s';
    // A_INVERSE * A == 1 + M * c for this constant c
    var c := 42704;
    assert A_INVERSE * A == 1 + M * c;
    var t := c * seed - A_INVERSE * k;
    assert A_INVERSE * s' == seed + M * t;
    ModOfShifted(A_INVERSE * s', seed, t);
  }

  lemma ModOfShifted(x: int, r: int, t: int)
    requires 0 <= r < M && x == r + M * t
    ensures x % M == r
  {
  }

  // Two legal seeds that step to the same seed are the same: the step is injective, hence a
  // permutation of the finite range 1 .. M-1.
  lemma StepIsInjective(s: nat, t: nat)
    requires Legal(s) && Legal(t) && Lehmer(s) == Lehmer(t)
    ensures s == t
  {
    InverseUndoesLehmer(s);
    InverseUndoesLehmer(t);
  }

  // ... and every legal seed is reached.
  lemma StepIsSurjective(t: nat)
    requires Legal(t)
    ensures Legal((A_INVERSE * t) % M) && Lehmer((A_INVERSE * t) % M) == t
  {
    var s := (A_INVERSE * t) % M;
    var k := (A_INVERSE * t) / M;
    assert A_INVERSE * t == M * k + s;
    var c := 42704;
    assert A_INVERSE * A == 1 + M * c;
    var u := c * t - A * k;
    assert A * s == t + M * u;
    ModOfShifted(A * s, t, u);
  }

  // The corrected difference is the modular product ...
  lemma DifferenceIsLehmer(seed: nat)
    requires Legal(seed)
    ensures var d := A * (seed % Q) - R * (seed / Q);
      Lehmer(seed) == (if d <= 0 then d + M else d)
  {
    var hi, d := seed / Q, A * (seed % Q) - R * (seed / Q);
    Decomposition(seed);
    InverseUndoesLehmer(seed);
    if d == 0 {
      ModOfShifted(A * seed, 0, hi);
      assert false;
    } else if d < 0 {
      ModOfShifted(A * seed, d + M, hi - 1);
    } else {
      ModOfShifted(A * seed, d, hi);
    }
  }

  // ... and unsigned wrap-around does not disturb the correction.
  lemma WrappedDifference(x: nat, y: nat)
    requires x < TWO_31 && y < TWO_31 && -M < x - y < M
    ensures if x <= y then Add64(Sub64(x, y), M) == x - y + M else Sub64(x, y) == x - y
  {
  }

  class State {
    var seed: nat

    ghost predicate Valid()
      reads this
    {
      Legal(seed)
    }

    constructor (seed: nat)
      ensures Valid() && this.seed == Clamp(seed)
    {
      var s := seed;
      if s <= 0 { s := 1; }
      if s >= M { s := M - 1; }
      this.seed := s;
    }

    // drmRandom, in `unsigned long` arithmetic that may wrap below zero and is then corrected.
    method Next() returns (v: nat)
      requires Valid()
      modifies this
      ensures Valid() && v == seed == Lehmer(old(seed))
    {
      Decomposition(seed);
      DifferenceIsLehmer(seed);
      InverseUndoesLehmer(seed);
      var hi := seed / Q;
      var lo := seed % Q;
      WrappedDifference(A * lo, R * hi);
      seed := Sub64(A * lo, R * hi);
      if A * lo <= R * hi {
        seed := Add64(seed, M);
      }
      v := seed;
    }
  }
}
