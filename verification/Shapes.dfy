/** How an amorph of n elements may be shaped: rectangles with one corner kerf, from
    transposablematrix/20-amorph.go and 22-edges-permutated.go. */
module Shapes {

  /** A stairy edge x1, y, x2: the kerf is x2 wide and y high. */
  datatype Plug = Plug(x1: int, y: int, x2: int)

  function OtherSide(n: nat, cols: nat): (r: (nat, int))
    requires cols > 0
    ensures r.1 == cols * r.0 - n
    ensures 0 <= r.1 < cols
  {
    var rows := if n % cols == 0 then n / cols else n / cols + 1;
    DivFacts(n, cols);
    (rows, cols * rows - n)
  }

  lemma DivFacts(n: nat, d: nat)
    requires d > 0
    ensures n == d * (n / d) + n % d && 0 <= n % d < d
    ensures d * (n / d + 1) == d * (n / d) + d
  {}

  /** The least r with r * r >= n. */
  function RootCeiling(n: nat): (r: nat)
    ensures r * r >= n
    ensures forall k: nat :: k * k >= n ==> k >= r
  {
    RootFrom(n, 0)
  }

  function RootFrom(n: nat, k: nat): (r: nat)
    requires forall j: nat :: j < k ==> j * j < n
    ensures r * r >= n && r >= k
    ensures forall j: nat :: j < r ==> j * j < n
    decreases n - k
  {
    if k * k >= n then k else RootFrom(n, k + 1)
  }

  /** The kerf x wide and y high taken out of w x h, both ways around (lines 263-270). */
  function TwoWays(cols: int, rows: int, x: int, y: int): set<Plug> {
    (if rows > x && cols > y then {Plug(rows - x, y, x), Plug(cols - y, x, y)} else {})
    + (if rows > y && cols > x then {Plug(rows - y, x, y), Plug(cols - x, y, x)} else {})
  }

  predicate Divides(d: int, n: int) {
    d > 0 && n % d == 0
  }

  function SmallFactors(n: int): set<int> {
    set i | 2 <= i < 100 && i * i <= n && Divides(i, n)
  }

  /** What the trial loop finds: divisors up to the root, and their counterparts. */
  function Factors(n: int): set<int> {
    SmallFactors(n) + set i | i in SmallFactors(n) :: n / i
  }

  function FactorPlugs(cols: int, rows: int, slack: int, xs: set<int>): set<Plug> {
    set x, p | x in xs && x != 0 && p in TwoWays(cols, rows, x, slack / x) :: p
  }

  /** Every plug that inscribes `slack` into cols x rows. */
  function EdgePlugs(prime: int -> bool, cols: int, rows: int, slack: int): set<Plug> {
    if slack <= 0 then {}
    else if prime(slack) then TwoWays(cols, rows, 1, slack)
    else TwoWays(cols, rows, 1, slack) + FactorPlugs(cols, rows, slack, Factors(slack))
  }

  /** `p` inscribes exactly the slack of a rectangle around n elements: one side of the
      rectangle is x1 + x2, the other is r and reaches beyond the kerf. */
  predicate Inscribes(n: int, p: Plug, r: int) {
    && p.x1 > 0 && p.y > 0 && p.x2 > 0 && r > p.y
    && (p.x1 + p.x2) * r - n == p.x2 * p.y
  }

  lemma DivideOut(x: int, n: nat)
    requires Divides(x, n)
    ensures x * (n / x) == n
  {
    DivFacts(n, x);
  }

  lemma MulMono(a: nat, b: nat, c: nat)
    requires a <= b
    ensures a * c <= b * c && c * a <= c * b
  {}

  lemma QuotientUnique(d: nat, q: nat, r: nat, y: nat)
    requires d * q + r == d * y && r < d
    ensures q == y && r == 0
  {
    if q < y { MulMono(q + 1, y, d); } else if q > y { MulMono(y + 1, q, d); }
  }

  lemma Division(n: nat, d: nat, q: nat, r: nat)
    requires d > 0 && q == n / d && r == n % d
    ensures n == d * q + r && r < d
  {}

  lemma DivUnique(n: nat, d: nat, y: nat)
    requires d > 0 && n == d * y
    ensures Divides(d, n) && n / d == y
  {
    var q, r := n / d, n % d;
    Division(n, d, q, r);
    QuotientUnique(d, q, r, y);
  }

  /** The two factors of a product are proper when the smaller one exceeds one. */
  lemma ProperFactors(i: nat, q: nat, n: nat)
    requires 2 <= i && i * i <= n && n == i * q
    ensures i <= q && 1 < q < n && i < n
  {
    if q < i { MulMono(q + 1, i, i); }
    MulMono(2, i, q);
    MulMono(2, i, i);
  }

  /** A factor found divides n properly. */
  lemma FactorFound(n: nat, d: int)
    requires d in Factors(n)
    ensures 1 < d < n && Divides(d, n) && n / d > 0
  {
    var i :| i in SmallFactors(n) && (d == i || d == n / i);
    SmallAndCounterpart(n, i);
  }

  lemma SmallAndCounterpart(n: nat, i: nat)
    requires 2 <= i && i * i <= n && Divides(i, n)
    ensures 1 < i < n && n / i > 1 && n / i < n && Divides(n / i, n) && n / (n / i) == i
  {
    DivideOut(i, n);
    ProperFactors(i, n / i, n);
    DivUnique(n, n / i, i);
  }

  /** Below 10000 the trial loop finds every proper divisor, and nothing else. */
  lemma FactorsComplete(n: nat, d: int)
    requires 0 < n < 10000
    ensures d in Factors(n) <==> 1 < d < n && Divides(d, n)
  {
    if d in Factors(n) {
      FactorFound(n, d);
    }
    if 1 < d < n && Divides(d, n) {
      FactorIsFound(n, d);
    }
  }

  lemma SquareBelow(d: nat)
    requires d * d < 10000
    ensures d < 100
  {
    if d >= 100 { MulMono(100, d, d); }
  }

  lemma FactorIsFound(n: nat, d: int)
    requires 0 < n < 10000 && 1 < d < n && Divides(d, n)
    ensures d in Factors(n)
  {
    DivideOut(d, n);
    var q := n / d;
    if q <= 1 { MulMono(q, 1, d); }
    DivUnique(n, q, d);
    if d <= q {
      MulMono(d, q, d);
      SquareBelow(d);
    } else {
      MulMono(q, d, q);
      SquareBelow(q);
      assert q in SmallFactors(n);
    }
  }

  // ---------- the kerfs of one rectangle ----------

  /** The edge has a kerf of exactly `slack` slots in one corner of cols x rows, or of rows x cols. */
  predicate KerfOf(p: Plug, cols: int, rows: int, slack: int) {
    && p.x1 > 0 && p.y > 0 && p.x2 > 0 && p.x2 * p.y == slack
    && ((p.x1 + p.x2 == cols && p.y < rows) || (p.x1 + p.x2 == rows && p.y < cols))
  }

  /** What a table of primes is good for, whatever it says of 0 and 1. */
  ghost predicate PrimesTold(prime: int -> bool) {
    forall n: nat, d :: prime(n) ==> !(1 < d < n && Divides(d, n))
  }

  lemma TwoWaysIff(cols: int, rows: int, x: int, y: int, p: Plug)
    requires x > 0 && y > 0
    ensures p in TwoWays(cols, rows, x, y) <==>
      KerfOf(p, cols, rows, x * y) && ((p.x2 == x && p.y == y) || (p.x2 == y && p.y == x))
  {
    if p.x2 == x && p.y == y { assert p.x2 * p.y == x * y; }
    if p.x2 == y && p.y == x { assert p.x2 * p.y == x * y; }
  }

  /** The kerf's two sides divide the slack. */
  lemma KerfSides(p: Plug, cols: int, rows: int, slack: nat)
    requires KerfOf(p, cols, rows, slack)
    ensures Divides(p.x2, slack) && slack / p.x2 == p.y && p.x2 <= slack && p.y <= slack
    ensures p.x2 == 1 ==> p.y == slack
    ensures p.x2 == slack ==> p.y == 1
  {
    DivUnique(slack, p.x2, p.y);
    MulMono(1, p.y, p.x2);
    MulMono(1, p.x2, p.y);
    if p.x2 == slack && p.y > 1 { MulMono(2, p.y, p.x2); }
  }

  lemma FactorKerf(cols: int, rows: int, slack: nat, p: Plug)
    requires 0 < slack < 10000 && KerfOf(p, cols, rows, slack) && 1 < p.x2 < slack
    ensures p in FactorPlugs(cols, rows, slack, Factors(slack))
  {
    KerfSides(p, cols, rows, slack);
    FactorsComplete(slack, p.x2);
    TwoWaysIff(cols, rows, p.x2, p.y, p);
    assert p.x2 in Factors(slack) && p in TwoWays(cols, rows, p.x2, slack / p.x2);
  }

  lemma FactorPlugsAreKerfs(cols: int, rows: int, slack: nat, p: Plug)
    requires p in FactorPlugs(cols, rows, slack, Factors(slack))
    ensures KerfOf(p, cols, rows, slack)
  {
    var x :| x in Factors(slack) && p in TwoWays(cols, rows, x, slack / x);
    FactorFound(slack, x);
    DivideOut(x, slack);
    TwoWaysIff(cols, rows, x, slack / x, p);
  }

  lemma EdgePlugsAreKerfs(prime: int -> bool, cols: int, rows: int, slack: int, p: Plug)
    requires p in EdgePlugs(prime, cols, rows, slack)
    ensures slack > 0 && KerfOf(p, cols, rows, slack)
  {
    TwoWaysIff(cols, rows, 1, slack, p);
    if p in FactorPlugs(cols, rows, slack, Factors(slack)) {
      FactorPlugsAreKerfs(cols, rows, slack, p);
    }
  }

  /** Whatever the prime table says, every plug inscribes exactly the slack. */
  lemma EdgePlugsInscribe(prime: int -> bool, cols: int, rows: int, n: int, p: Plug)
    requires p in EdgePlugs(prime, cols, rows, cols * rows - n)
    ensures Inscribes(n, p, cols) || Inscribes(n, p, rows)
  {
    EdgePlugsAreKerfs(prime, cols, rows, cols * rows - n, p);
    KerfInscribes(cols, rows, n, p, p.x1 + p.x2);
  }

  lemma KerfInscribes(cols: int, rows: int, n: int, p: Plug, wide: int)
    requires KerfOf(p, cols, rows, cols * rows - n) && wide == p.x1 + p.x2
    ensures wide == cols && p.y < rows ==> Inscribes(n, p, rows)
    ensures wide == rows && p.y < cols ==> Inscribes(n, p, cols)
  {
    if wide == cols { assert wide * rows == cols * rows; }
    if wide == rows { assert wide * cols == cols * rows; }
  }

  /** The plugs of a rectangle are exactly the edges with one corner kerf as large as its slack. */
  lemma EdgePlugsIff(prime: int -> bool, cols: int, rows: int, slack: int, p: Plug)
    requires slack < 10000 && PrimesTold(prime)
    ensures p in EdgePlugs(prime, cols, rows, slack) <==> slack > 0 && KerfOf(p, cols, rows, slack)
  {
    if p in EdgePlugs(prime, cols, rows, slack) {
      EdgePlugsAreKerfs(prime, cols, rows, slack, p);
    } else if slack > 0 && KerfOf(p, cols, rows, slack) {
      TwoWaysIff(cols, rows, 1, slack, p);
      KerfSides(p, cols, rows, slack);
      assert 1 < p.x2 < slack && !prime(slack);
      FactorKerf(cols, rows, slack, p);
    }
  }

  // ---------- all shapes of n elements ----------

  /** The widths from the root upwards, with the most efficient height (lines 60-67). */
  function WidthPlugs(prime: int -> bool, n: nat, cols: nat): set<Plug>
    requires cols > 0
  {
    var (rows, slack) := OtherSide(n, cols);
    EdgePlugs(prime, cols, rows, slack)
  }

  function Super1(n: nat): nat { n / 2 + 1 }
  function Super2(n: nat): nat { if n % 2 == 0 then n / 2 else n / 2 + 1 }

  function BoxSlack(n: nat, cols: int, rows: int): int { cols * rows - n }

  function BoxPlugs(prime: int -> bool, n: nat, cols: int, rows: int): set<Plug> {
    EdgePlugs(prime, cols, rows, BoxSlack(n, cols, rows))
  }

  /** The boxes of this width that are larger than need be (lines 76-86). */
  function SuperPlugs(prime: int -> bool, n: nat, cols: nat): set<Plug> {
    set rows, p | cols <= rows <= Super1(n) && p in BoxPlugs(prime, n, cols, rows) :: p
  }

  function AllPlugs(prime: int -> bool, n: nat): set<Plug> {
    (set cols, p | RootCeiling(n) <= cols <= n && 0 < cols && p in WidthPlugs(prime, n, cols) :: p)
    + (set cols, p | RootCeiling(n) <= cols <= Super2(n) && p in SuperPlugs(prime, n, cols) :: p)
  }

  /** A rectangle that is tried for n elements: of each width from the root on the lowest one, and larger
      ones as far as half of n, rounded up, is their width, and half of n and one more their height. */
  predicate Searched(n: nat, cols: nat, rows: nat) {
    || (RootCeiling(n) <= cols <= n && 0 < cols && rows == OtherSide(n, cols).0)
    || (RootCeiling(n) <= cols <= rows && 2 * cols <= n + 1 && 2 * rows <= n + 2)
  }

  /** A plug of n elements is a plug of one of these rectangles. */
  lemma AllPlugsAreBoxes(prime: int -> bool, n: nat, p: Plug)
    ensures p in AllPlugs(prime, n) <==>
      exists cols: nat, rows: nat :: Searched(n, cols, rows) && p in BoxPlugs(prime, n, cols, rows)
  {
    if p in AllPlugs(prime, n) {
      if cols :| RootCeiling(n) <= cols <= n && 0 < cols && p in WidthPlugs(prime, n, cols) {
        assert Searched(n, cols, OtherSide(n, cols).0) && p in BoxPlugs(prime, n, cols, OtherSide(n, cols).0);
      } else {
        var cols :| RootCeiling(n) <= cols <= Super2(n) && p in SuperPlugs(prime, n, cols);
        var rows :| cols <= rows <= Super1(n) && p in BoxPlugs(prime, n, cols, rows);
        assert Searched(n, cols, rows);
      }
    }
    if cols: nat, rows: nat :| Searched(n, cols, rows) && p in BoxPlugs(prime, n, cols, rows) {
      if RootCeiling(n) <= cols <= n && 0 < cols && rows == OtherSide(n, cols).0 {
        assert p in WidthPlugs(prime, n, cols);
      } else {
        assert p in SuperPlugs(prime, n, cols);
      }
    }
  }

  /** Every plug of n elements inscribes their rectangle's slack, in a rectangle whose other
      side is at most n. */
  lemma AllPlugsInscribe(prime: int -> bool, n: nat, p: Plug)
    requires p in AllPlugs(prime, n)
    ensures exists r :: r <= n && Inscribes(n, p, r)
  {
    AllPlugsAreBoxes(prime, n, p);
    var cols: nat, rows: nat :| Searched(n, cols, rows) && p in BoxPlugs(prime, n, cols, rows);
    BoxInscribes(prime, n, p, cols, rows);
  }

  lemma BoxInscribes(prime: int -> bool, n: nat, p: Plug, cols: nat, rows: nat)
    requires Searched(n, cols, rows) && p in BoxPlugs(prime, n, cols, rows)
    ensures exists r :: r <= n && Inscribes(n, p, r)
  {
    EdgePlugsInscribe(prime, cols, rows, n, p);
    SearchedAtMost(n, cols, rows);
    var r := if Inscribes(n, p, cols) then cols else rows;
    assert Inscribes(n, p, r);
  }

  lemma SearchedAtMost(n: nat, cols: nat, rows: nat)
    requires Searched(n, cols, rows)
    ensures n > 0 ==> cols <= n && rows <= n
    ensures n == 0 ==> rows <= 1 && cols == 0
  {
    if 0 < cols <= n { OtherSideAtMost(n, cols); }
  }

  lemma OtherSideAtMost(n: nat, cols: nat)
    requires 0 < cols <= n
    ensures OtherSide(n, cols).0 <= n
  {
    var (rows, slack) := OtherSide(n, cols);
    if rows > n {
      MulMono(n + 1, rows, cols);
      MulMono(1, cols, n);
    }
  }

  // ---------- encoding triples ----------

  const FACTOR := 100

  function Enc(i1: int, i2: int, i3: int): int {
    if i2 < 0 then i3 * (FACTOR * FACTOR) - i2 * FACTOR + i1
    else i1 * (FACTOR * FACTOR) + i2 * FACTOR + i3
  }

  predicate Digit(i: int) { 0 <= i < FACTOR }

  /** Triples of two-digit numbers are told apart by their codes. */
  lemma EncInjective(a1: int, a2: int, a3: int, b1: int, b2: int, b3: int)
    requires Digit(a1) && Digit(a2) && Digit(a3) && Digit(b1) && Digit(b2) && Digit(b3)
    requires Enc(a1, a2, a3) == Enc(b1, b2, b3)
    ensures a1 == b1 && a2 == b2 && a3 == b3
  {}

  function Dec(enc: nat): (int, int, int) {
    var i1 := enc / (FACTOR * FACTOR);
    var rest := enc - i1 * (FACTOR * FACTOR);
    var i2 := rest / FACTOR;
    (i1, i2, rest - i2 * FACTOR)
  }

  lemma DecEnc(i1: nat, i2: int, i3: int)
    requires Digit(i2) && Digit(i3)
    ensures Enc(i1, i2, i3) >= 0 && Dec(Enc(i1, i2, i3)) == (i1, i2, i3)
  {
    var e := Enc(i1, i2, i3);
    assert e / 10000 == i1;
  }
}
