/** The digit-by-digit square root of util/util-numbers.go. */
module IntSqrt {

  import opened Basics

  function Pow4(k: nat): (p: nat)
    ensures p > 0
  {
    if k == 0 then 1 else 4 * Pow4(k - 1)
  }

  lemma {:induction false} Pow2Squared(k: nat)
    ensures Pow2(k) * Pow2(k) == Pow4(k)
  {
    if k > 0 {
      Pow2Squared(k - 1);
      var p := Pow2(k - 1);
      assert (2 * p) * (2 * p) == 4 * (p * p);
    }
  }

  // ---------- bitwise or ----------

  /** The bitwise or of two naturals, bit by bit. */
  function Or(a: nat, b: nat): nat {
    if a == 0 then b
    else if b == 0 then a
    else 2 * Or(a / 2, b / 2) + if a % 2 == 1 || b % 2 == 1 then 1 else 0
  }

  /** With no bit in common an or is a sum: `hi` counts multiples of twice 4^k. */
  lemma OrIsSum(hi: nat, k: nat)
    ensures Or(2 * Pow4(k) * hi, Pow4(k)) == 2 * Pow4(k) * hi + Pow4(k)
  {
    OrShift(hi, 2 * k);
    Pow2Even(k);
  }

  lemma {:induction false} Pow2Even(k: nat)
    ensures Pow2(2 * k) == Pow4(k)
  {
    if k > 0 {
      Pow2Even(k - 1);
      assert 2 * k - 1 - 1 == 2 * (k - 1);
      assert Pow2(2 * k) == 2 * Pow2(2 * k - 1) == 4 * Pow2(2 * (k - 1));
    }
  }

  lemma Halve(x: nat)
    ensures (2 * x) / 2 == x && (2 * x) % 2 == 0
  {}

  lemma OrDouble(a: nat, b: nat)
    ensures Or(2 * a, 2 * b) == 2 * Or(a, b)
  {
    Halve(a);
    Halve(b);
  }

  lemma OrOne(h: nat)
    ensures Or(2 * h, 1) == 2 * h + 1
  {
    Halve(h);
  }

  lemma {:induction false} OrShift(hi: nat, m: nat)
    ensures Or(2 * Pow2(m) * hi, Pow2(m)) == 2 * Pow2(m) * hi + Pow2(m)
  {
    if m == 0 {
      OrOne(hi);
    } else {
      var q := Pow2(m - 1);
      OrShift(hi, m - 1);
      OrDouble(2 * q * hi, q);
      Reassociate(q, hi);
    }
  }

  lemma Reassociate(q: nat, hi: nat)
    ensures 2 * (2 * q * hi) == 2 * (2 * q) * hi
  {}

  // ---------- the loop ----------

  /** p runs down the powers of four and ends at zero. */
  datatype Probe = Done | At(k: nat)

  function Value(p: Probe): nat { if p.Done? then 0 else Pow4(p.k) }

  function Next(p: Probe): Probe
    requires p.At?
  {
    if p.k == 0 then Done else At(p.k - 1)
  }

  /** Shifting p right by two bits steps to the next probe. */
  lemma ShiftProbe(p: Probe)
    requires p.At?
    ensures Value(p) / 4 == Value(Next(p))
  {}

  /** How far the root may still grow; one when all its digits are known. */
  function Open(p: Probe): nat { if p.Done? then 1 else 2 * Pow2(p.k) }

  function Scale(p: Probe): nat { if p.Done? then 1 else 4 * Pow4(p.k) }

  const ROOT_LIMIT: nat := 65536

  /** With `c` the digits found: the root so far is c * Open(p), t is what is left of n, and
      r holds the digits shifted to p's place. */
  predicate Digits(n: nat, p: Probe, c: nat, t: nat, r: nat) {
    var root := c * Open(p);
    && n == t + root * root
    && root + Open(p) <= ROOT_LIMIT
    && (n < (root + Open(p)) * (root + Open(p)) || root + Open(p) == ROOT_LIMIT)
    && r == c * Scale(p)
  }

  lemma NextOpen(k: nat)
    ensures Open(Next(At(k))) == Pow2(k) && Scale(Next(At(k))) == Pow4(k)
  {
    if k > 0 {
      assert Next(At(k)) == At(k - 1);
      assert Pow2(k) == 2 * Pow2(k - 1) && Pow4(k) == 4 * Pow4(k - 1);
    }
  }

  lemma Regroup(c: nat, q: nat)
    ensures 2 * q * (2 * c) == c * (4 * q)
    ensures 2 * q * c == 2 * c * q
    ensures c * (4 * q) == 2 * (2 * c * q)
    ensures (2 * c + 1) * q == 2 * c * q + q
  {}

  /** The or adds p to r, before and after r is halved. */
  lemma OrsAdd(k: nat, c: nat)
    ensures Or(c * (4 * Pow4(k)), Pow4(k)) == c * (4 * Pow4(k)) + Pow4(k)
    ensures c * (4 * Pow4(k)) / 2 == 2 * c * Pow4(k)
    ensures Or(2 * c * Pow4(k), Pow4(k)) == (2 * c + 1) * Pow4(k)
  {
    OrIsSum(2 * c, k);
    OrIsSum(c, k);
    Regroup(c, Pow4(k));
    Halve(2 * c * Pow4(k));
  }

  /** The square after one more digit. */
  lemma SquareGrows(c: nat, s: nat, x: nat)
    requires x == c * (2 * s)
    ensures 2 * c * s == x && (2 * c + 1) * s == x + s
    ensures (x + s) * (x + s) == x * x + c * (4 * (s * s)) + s * s
  {
    assert (x + s) * (x + s) == x * x + 2 * (x * s) + s * s;
    assert 2 * (x * s) == c * (4 * (s * s));
  }

  /** Digits with the root so far, and what it can grow to, given as numbers. */
  lemma DigitsFrom(n: nat, p: Probe, c: nat, t: nat, r: nat, root: nat, top: nat)
    requires root == c * Open(p) && r == c * Scale(p) && top == root + Open(p)
    ensures Digits(n, p, c, t, r) <==>
      n == t + root * root && top <= ROOT_LIMIT && (n < top * top || top == ROOT_LIMIT)
  {}

  /** One digit: it is set exactly when the square still fits. */
  lemma DigitStep(n: nat, k: nat, c: nat, t: nat, r: nat)
    requires Digits(n, At(k), c, t, r)
    ensures var b := r + Pow4(k);
      if t >= b then Digits(n, Next(At(k)), 2 * c + 1, t - b, (2 * c + 1) * Pow4(k))
      else Digits(n, Next(At(k)), 2 * c, t, 2 * c * Pow4(k))
  {
    var s, x, b := Pow2(k), c * (2 * Pow2(k)), r + Pow4(k);
    Product(c, 2 * s);
    Product(2 * c + 1, Pow4(k));
    Product(2 * c, Pow4(k));
    NextOpen(k);
    Pow2Squared(k);
    SquareGrows(c, s, x);
    DigitsFrom(n, At(k), c, t, r, x, x + 2 * s);
    FitsOrNot(n, t, b, x * x, (x + s) * (x + s));
    if t >= b {
      DigitsFrom(n, Next(At(k)), 2 * c + 1, t - b, (2 * c + 1) * Pow4(k), x + s, x + 2 * s);
    } else {
      DigitsFrom(n, Next(At(k)), 2 * c, t, 2 * c * Pow4(k), x, x + s);
    }
  }

  lemma Product(a: nat, b: nat)
    ensures a * b >= 0
  {}

  lemma FitsOrNot(n: int, t: int, b: int, square: int, larger: int)
    requires n == t + square && larger == square + b
    ensures if t >= b then n == t - b + larger else n < larger
  {}

  /** The first probe not above n leaves all digits open. */
  lemma ProbeStep(n: nat, k: nat)
    requires Digits(n, At(k), 0, n, 0) && Pow4(k) > n
    ensures Digits(n, Next(At(k)), 0, n, 0)
  {
    NextOpen(k);
    Pow2Squared(k);
  }

  lemma StartsOpen(n: nat)
    ensures Value(At(15)) == 1073741824 && Digits(n, At(15), 0, n, 0)
  {
    assert Pow4(3) == 64 && Pow2(3) == 8;
    assert Pow4(6) == 4096 && Pow2(6) == 64;
    assert Pow4(9) == 262144 && Pow2(9) == 512;
    assert Pow4(12) == 16777216 && Pow2(12) == 4096;
    assert Pow4(15) == 1073741824 && Pow2(15) == 32768;
  }

  /** The 64-bit word the int is converted to. */
  function Word(n: int): nat
    requires -0x8000_0000_0000_0000 <= n < 0x8000_0000_0000_0000
  {
    if n < 0 then n + 0x1_0000_0000_0000_0000 else n
  }

  /** One turn of the second loop, in its own operations. */
  lemma LoopStep(n: nat, k: nat, c: nat, t: nat, r: nat)
    requires Digits(n, At(k), c, t, r)
    ensures var p := Pow4(k);
      var b := Or(r, p);
      if t >= b then Digits(n, Next(At(k)), 2 * c + 1, t - b, Or(r / 2, p))
      else Digits(n, Next(At(k)), 2 * c, t, r / 2)
  {
    OrsAdd(k, c);
    DigitStep(n, k, c, t, r);
  }

  method Sqrt(n: int) returns (r: nat)
    requires -0x8000_0000_0000_0000 <= n < 0x8000_0000_0000_0000
    ensures (r * r <= n < (r + 1) * (r + 1)) <==> 0 <= n < 0x1_0000_0000
    ensures !(0 <= n < 0x1_0000_0000) ==> r == ROOT_LIMIT - 1
  {
    var t: nat := Word(n);
    var p: nat := 1073741824;
    ghost var probe := At(15);
    StartsOpen(t);
    while p > t
      invariant p == Value(probe) && Digits(t, probe, 0, t, 0)
      decreases p
    {
      ProbeStep(t, probe.k);
      ShiftProbe(probe);
      p := p / 4;
      probe := Next(probe);
    }
    r, t := ExtractDigits(t, p, probe);
    ExactRange(Word(n), t, r);
    NonNegative(r, n);
  }

  lemma NonNegative(r: nat, n: int)
    ensures r * r <= n ==> n >= 0
  {}

  /** The second loop. */
  method ExtractDigits(n: nat, p0: nat, ghost probe0: Probe) returns (r: nat, t: nat)
    requires p0 == Value(probe0) && Digits(n, probe0, 0, n, 0)
    ensures Digits(n, Done, r, t, r)
  {
    var p := p0;
    ghost var probe := probe0;
    ghost var c: nat := 0;
    r, t := 0, n;
    while p != 0
      invariant p == Value(probe) && Digits(n, probe, c, t, r)
      decreases p
    {
      LoopStep(n, probe.k, c, t, r);
      ShiftProbe(probe);
      var b := Or(r, p);
      r := r / 2;
      c := 2 * c;
      if t >= b {
        t := t - b;
        r := Or(r, p);
        c := c + 1;
      }
      p := p / 4;
      probe := Next(probe);
    }
    assert c * 1 == c;
  }

  /** At the end r is the root of every word below 2^32 and 65535 for all others. */
  lemma ExactRange(w: nat, t: nat, r: nat)
    requires Digits(w, Done, r, t, r)
    ensures r * r <= w && r <= ROOT_LIMIT - 1
    ensures w < (r + 1) * (r + 1) <==> w < 0x1_0000_0000
    ensures w >= 0x1_0000_0000 ==> r == ROOT_LIMIT - 1
  {
    assert r * 1 == r;
    Monotone(r + 1, ROOT_LIMIT);
  }

  lemma Monotone(a: nat, b: nat)
    requires a <= b
    ensures a * a <= b * b
  {}
}
