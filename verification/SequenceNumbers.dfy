/** Circular order on 32-bit sequence numbers (section 3.3 of RFC 793). */
module SequenceNumbers {

  const MODULUS: int := 0x1_0000_0000
  const HALF: int := 0x8000_0000
  // INT_MAX is half of the unsigned space, minus one
  const INT_MAX: int := 0x7fff_ffff

  type u32 = x: int | 0 <= x < 0x1_0000_0000

  predicate LessThan(lhs: u32, rhs: u32) {
    || (lhs < rhs && rhs - lhs <= INT_MAX)
    || (lhs > rhs && lhs - rhs > INT_MAX)
  }

  predicate LessThanOrEqual(lhs: u32, rhs: u32) {
    LessThan(lhs, rhs) || lhs == rhs
  }

  predicate BetweenEqual(left: u32, number: u32, right: u32) {
    LessThanOrEqual(left, number) && LessThanOrEqual(number, right)
  }

  predicate BetweenEqualRight(left: u32, number: u32, right: u32) {
    LessThan(left, number) && LessThanOrEqual(number, right)
  }

  predicate BetweenEqualLeft(left: u32, number: u32, right: u32) {
    LessThanOrEqual(left, number) && LessThan(number, right)
  }

  predicate Between(left: u32, number: u32, right: u32) {
    LessThan(left, number) && LessThan(number, right)
  }

  /** The 32-bit number that stands for an unbounded stream position. */
  function Wrap(x: int): u32 {
    x % MODULUS
  }

  /** The position nearest to `near` that the 32-bit number `s` can stand for. */
  function Unwrap(near: int, s: u32): int {
    near - HALF + (s - near + HALF) % MODULUS
  }

  /** Unwrapping is the inverse of wrapping exactly on a half-open circle around `near`. */
  lemma WrapRoundTrip(near: int, x: int, s: u32)
    ensures Wrap(Unwrap(near, s)) == s
    ensures Unwrap(near, Wrap(x)) == x <==> near - HALF <= x < near + HALF
  {
    var ahead := s - near + HALF;
    WrapAbsorbs(ahead, near - HALF);
    assert Unwrap(near, s) == Wrap(ahead) + (near - HALF);
    WrapKeeps(s);
    WrapAbsorbs(x, HALF - near);
    assert Unwrap(near, Wrap(x)) == Wrap(Wrap(x) + (HALF - near)) + (near - HALF);
    WrapKeeps(x + (HALF - near));
    hide Wrap, Unwrap;
  }

  lemma WrapKeeps(x: int)
    ensures Wrap(x) == x <==> 0 <= x < MODULUS
  {
  }

  lemma WrapIsPeriodic(x: int, turns: int)
    ensures Wrap(x + turns * MODULUS) == Wrap(x)
  {
    var y := x + turns * MODULUS;
    assert MODULUS * (y / MODULUS - x / MODULUS - turns) == Wrap(x) - Wrap(y);
  }

  /** Intermediate wrapping is absorbed by a later one. */
  lemma WrapAbsorbs(x: int, y: int)
    ensures Wrap(Wrap(x) + y) == Wrap(x + y)
    ensures Wrap(x - Wrap(y)) == Wrap(x - y)
    ensures Wrap(Wrap(x)) == Wrap(x)
  {
    assert Wrap(x) + y == x + y + -(x / MODULUS) * MODULUS;
    WrapIsPeriodic(x + y, -(x / MODULUS));
    assert x - Wrap(y) == x - y + (y / MODULUS) * MODULUS;
    WrapIsPeriodic(x - y, y / MODULUS);
  }

  /** Moving by less than a turn wraps at most once. */
  lemma WrapMove(a: u32, d: int)
    requires -MODULUS < d < MODULUS
    ensures Wrap(a + d) == if a + d < 0 then a + d + MODULUS else if a + d < MODULUS then a + d else a + d - MODULUS
  {
  }

  /** The order reads one number only: how far ahead of `x` the position `y` is on the circle. */
  lemma LessThanMeasuresDistance(x: int, y: int)
    ensures var ahead := Wrap(y - x);
            LessThan(Wrap(x), Wrap(y)) <==>
              0 < ahead < HALF || (ahead == HALF && Wrap(x) > Wrap(y))
  {
    WrapAbsorbs(y, -x);
    WrapAbsorbs(Wrap(y), x);
    WrapMove(Wrap(y), 0 - Wrap(x));
  }

  /** Exactly one of the three relations holds, even for two numbers half a circle apart. */
  lemma Trichotomy(a: u32, b: u32)
    ensures LessThan(a, b) ==> a != b && !LessThan(b, a)
    ensures a != b ==> LessThan(a, b) || LessThan(b, a)
  {
  }

  /** The order is not transitive on the whole circle: three numbers a third of a circle apart. */
  lemma NotTransitive()
    ensures exists a: u32, b: u32, c: u32 ::
              LessThan(a, b) && LessThan(b, c) && !LessThan(a, c)
  {
    assert LessThan(0, 0x5555_5555) && LessThan(0x5555_5555, 0xaaaa_aaaa) && !LessThan(0, 0xaaaa_aaaa);
  }

  /** Of three numbers in ascending order, the first is less than the last exactly if the two steps
      together go less than half way round, or just half way round across zero. */
  lemma TransitiveExactly(a: u32, b: u32, c: u32)
    requires LessThan(a, b) && LessThan(b, c)
    ensures var steps := Wrap(b - a) + Wrap(c - b);
            LessThan(a, c) <==> steps < HALF || (steps == HALF && a > c)
  {
    WrapMove(a, b - a);
    WrapMove(0, b - a);
    WrapMove(0, c - b);
    WrapMove(0, c - a);
  }

  /** Closer than half a circle, wrapped comparison is comparison. */
  lemma WrapKeepsOrder(x: int, y: int)
    requires -HALF < x - y < HALF
    ensures LessThan(Wrap(x), Wrap(y)) <==> x < y
    ensures Wrap(x) == Wrap(y) <==> x == y
  {
    WrapAbsorbs(x, y - x);
    WrapMove(Wrap(x), y - x);
  }

  /** Half a circle is as far as comparison can be trusted: the order agrees with the order of
      positions in every stretch of `n` positions if and only if `n` is at most half the circle. */
  lemma WindowExactly(n: nat)
    ensures OrdersWindow(n) <==> n <= HALF
  {
    if n <= HALF {
      forall lo, x, y | InWindow(lo, x, n) && InWindow(lo, y, n)
        ensures LessThan(Wrap(x), Wrap(y)) <==> x < y
      {
        WrapKeepsOrder(x, y);
      }
    } else {
      assert InWindow(0, 0, n) && InWindow(0, HALF, n);
      assert !LessThan(Wrap(0), Wrap(HALF));
    }
  }

  predicate InWindow(lo: int, x: int, n: nat) {
    lo <= x < lo + n
  }

  ghost predicate OrdersWindow(n: nat) {
    forall lo, x, y :: InWindow(lo, x, n) && InWindow(lo, y, n) ==> (LessThan(Wrap(x), Wrap(y)) <==> x < y)
  }

  /** All six relations agree with the unbounded ones on positions in one half circle. */
  lemma WrapKeepsIntervals(left: int, number: int, right: int)
    requires -HALF < left - number < HALF
    requires -HALF < number - right < HALF
    ensures LessThanOrEqual(Wrap(left), Wrap(number)) <==> left <= number
    ensures Between(Wrap(left), Wrap(number), Wrap(right)) <==> left < number < right
    ensures BetweenEqual(Wrap(left), Wrap(number), Wrap(right)) <==> left <= number <= right
    ensures BetweenEqualLeft(Wrap(left), Wrap(number), Wrap(right)) <==> left <= number < right
    ensures BetweenEqualRight(Wrap(left), Wrap(number), Wrap(right)) <==> left < number <= right
  {
    WrapKeepsOrder(left, number);
    WrapKeepsOrder(number, right);
  }

  /** A distance shorter than one turn survives wrapping. */
  lemma WrapKeepsDistance(x: int, y: int)
    requires 0 <= x - y < MODULUS
    ensures Wrap(Wrap(x) - Wrap(y)) == x - y
  {
    WrapAbsorbs(x, -y);
    WrapAbsorbs(Wrap(x), y);
  }

  /** For a segment shorter than half the circle, `Between` decides "strictly inside the
      segment" for every number on the circle: no window is assumed. */
  lemma BetweenTestsSegment(start: int, number: int, length: int)
    requires 0 <= length < HALF
    ensures Between(Wrap(start), Wrap(number), Wrap(start + length)) <==> 0 < Wrap(number - start) < length
  {
    WrapAbsorbs(start, length);
    WrapMove(Wrap(start), length);
    WrapAbsorbs(number, -start);
    WrapAbsorbs(Wrap(number), start);
    WrapMove(Wrap(number), 0 - Wrap(start));
  }
}
