/**
  The limits of the arena and the per-record checks: format, identity,
  bounds, and the reduction of the heading modulo 2π.
 */
module Checks {

  const XLimPos: real := 1.0
  const XLimNeg: real := -1.2
  const YLimPos: real := 2.35
  const YLimNeg: real := -1.4
  const MinStartDist: real := 0.25
  const MaxRobots: nat := 50

  /** 2π, as the shortest decimal of the double `2*math.pi`.  The general
      lemmas about `ModTheta` only use that it is positive; the worked
      examples also use its value. */
  const TwoPi: real := 6.283185307179586

  /** The heading change of `n` whole turns. */
  function Turns(n: int): real
  {
    n as real * TwoPi
  }

  /** The whole number `n` as a real. */
  function Whole(n: int): real
  {
    n as real
  }

  /** `check_format_validity`: a record is `[id, x, y, theta]`.  The parser has
      already turned every token into a number, so only the count can fail. */
  predicate FormatValid(fields: seq<real>)
  {
    |fields| == 4
  }

  /** `check_ID_validity`: the id is a whole number from 0 to 99. */
  function IdValid(id: real): (ok: bool)
    ensures ok <==> exists n: int :: 0 <= n <= 99 && Whole(n) == id
  {
    var ok := !(id > 99.0 || id < 0.0) && id.Floor as real == id;
    assert ok ==> (Whole(id.Floor) == id && 0 <= id.Floor <= 99);
    ok
  }

  /** `check_xy_validity`: a failure on either axis fails the record. */
  function XyValid(x: real, y: real): (ok: bool)
    ensures ok <==> XLimNeg <= x <= XLimPos && YLimNeg <= y <= YLimPos
  {
    if x < XLimNeg || x > XLimPos then false
    else if y < YLimNeg || y > YLimPos then false
    else true
  }

  /** `modulus_theta`: Python's float `%`, whose result takes the divisor's sign:
      the heading lands in [0, 2π) and moves by a whole number of turns. */
  function ModTheta(theta: real): (r: real)
    ensures 0.0 <= r < TwoPi
    ensures exists turns: int :: theta == r + Turns(turns)
  {
    var turns := (theta / TwoPi).Floor;
    var r := theta - TwoPi * turns as real;
    assert theta == r + Turns(turns);
    r
  }

  /** A value in [0, 2π) a whole number of turns away from `theta` is the
      reduced heading: the reduction has exactly one possible answer. */
  lemma ModThetaUnique(theta: real, r: real, turns: int)
    requires 0.0 <= r < TwoPi
    requires theta == r + Turns(turns)
    ensures ModTheta(theta) == r
  {
    var r' := ModTheta(theta);
    var t' :| theta == r' + Turns(t');
    var d := turns - t';
    assert r' - r == d as real * TwoPi;
  }

  /** Reducing twice is reducing once. */
  lemma ModThetaIdempotent(theta: real)
    ensures ModTheta(ModTheta(theta)) == ModTheta(theta)
  {
    var r := ModTheta(theta);
    ModThetaUnique(r, r, 0);
  }

  /** Whole turns added to the heading do not change its reduction. */
  lemma ModThetaPeriodic(theta: real, turns: int)
    ensures ModTheta(theta + Turns(turns)) == ModTheta(theta)
  {
    var r := ModTheta(theta);
    var t :| theta == r + Turns(t);
    ModThetaUnique(theta + Turns(turns), r, t + turns);
  }

  /** Sample headings: -0.1 becomes 2π - 0.1,
      2π becomes 0 and 4π + 0.3 becomes 0.3. */
  lemma ModThetaExamples()
    ensures ModTheta(-0.1) == TwoPi - 0.1
    ensures ModTheta(TwoPi) == 0.0
    ensures ModTheta(2.0 * TwoPi + 0.3) == 0.3
  {
    ModThetaUnique(-0.1, TwoPi - 0.1, -1);
    ModThetaUnique(TwoPi, 0.0, 1);
    ModThetaUnique(2.0 * TwoPi + 0.3, 0.3, 2);
  }

  /** The boundary cases of the identity and bounds checks: 99 is accepted,
      100 and 2.5 are not; every limit of the arena is inclusive, and one
      step of 0.0001 past x's upper limit is outside. */
  lemma BoundaryExamples()
    ensures IdValid(99.0) && IdValid(0.0)
    ensures !IdValid(100.0) && !IdValid(2.5) && !IdValid(-1.0)
    ensures XyValid(XLimPos, YLimPos) && XyValid(XLimNeg, YLimNeg)
    ensures XyValid(XLimPos, YLimNeg) && XyValid(XLimNeg, YLimPos)
    ensures !XyValid(1.0001, 0.0)
  {
    assert (99 as real) == 99.0;
    assert (0 as real) == 0.0;
  }
}
