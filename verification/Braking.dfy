/** One-dimensional braking envelopes and their closed-form inverses, in exact
    arithmetic.  A square root is passed in as the non-negative value whose
    square is the radicand. */
module Braking {
  import opened Arithmetic

  /** `root` is the square root of `x`. */
  predicate IsRoot(root: real, x: real) { root >= 0.0 && root * root == x }

  /** Braking parameters every envelope accepts. */
  predicate ValidBraking(aPlus: real, b: real, tau: real) { aPlus >= 0.0 && b > 0.0 && tau >= 0.0 }

  function Effective(clearance: real, margin: real): real { Max(0.0, clearance - margin) }

  // ------------------------------------------------------------- envelopes

  function StoppingDistance(v: real, b: real, tau: real): real
    requires b > 0.0
  {
    v * tau + v * v / (2.0 * b)
  }

  function StoppingDistanceAccelerating(v: real, aPlus: real, b: real, tau: real): real
    requires b > 0.0
  {
    var delayed := v + aPlus * tau;
    v * tau + 0.5 * aPlus * tau * tau + delayed * delayed / (2.0 * b)
  }

  function Radicand(effective: real, b: real, tau: real): real {
    (b * tau) * (b * tau) + 2.0 * b * effective
  }

  function AdmissibleSpeed(clearance: real, margin: real, b: real, tau: real, speedMax: real, root: real): real
    requires ValidBraking(0.0, b, tau)
    requires IsRoot(root, Radicand(Effective(clearance, margin), b, tau))
  {
    var effective := Effective(clearance, margin);
    if effective == 0.0 then 0.0
    else
      RadicandPositive(effective, b, tau, root);
      Min(speedMax, 2.0 * b * effective / (root + b * tau))
  }

  function Coefficient(b: real): real
    requires b > 0.0
  {
    1.0 / (2.0 * b)
  }

  function Linear(aPlus: real, b: real, tau: real): real
    requires b > 0.0
  {
    tau + aPlus * tau / b
  }

  function Baseline(aPlus: real, b: real, tau: real): real
    requires b > 0.0
  {
    StoppingDistanceAccelerating(0.0, aPlus, b, tau)
  }

  function Discriminant(effective: real, aPlus: real, b: real, tau: real): real
    requires b > 0.0
  {
    Linear(aPlus, b, tau) * Linear(aPlus, b, tau) - 4.0 * Coefficient(b) * (Baseline(aPlus, b, tau) - effective)
  }

  datatype Inversion = Speed(value: real) | NegativeDiscriminant

  /** The inverse of the accelerating envelope; `root` is the root of the
      non-negative part of the discriminant. */
  function AdmissibleSpeedAccelerating(
    clearance: real, margin: real, aPlus: real, b: real, tau: real, speedMax: real, root: real): Inversion
    requires ValidBraking(aPlus, b, tau)
  {
    var effective := Effective(clearance, margin);
    if effective <= Baseline(aPlus, b, tau) then Speed(0.0)
    else if Discriminant(effective, aPlus, b, tau) < 0.0 then NegativeDiscriminant
    else
      var c := Coefficient(b);
      Speed(Min(speedMax, Max(0.0, (-Linear(aPlus, b, tau) + root) / (2.0 * c))))
  }

  /** The stopping distance is what the robot travels while it speeds up over the delay
      and then brakes to rest: in each phase the mean of the speeds at its ends times its
      duration. */
  lemma StoppingIsTravelled(v: real, aPlus: real, b: real, tau: real)
    requires b > 0.0
    ensures var delayed := v + aPlus * tau;
            StoppingDistanceAccelerating(v, aPlus, b, tau) ==
            (v + delayed) / 2.0 * tau + (delayed + 0.0) / 2.0 * (delayed / b)
    ensures StoppingDistance(v, b, tau) == v * tau + (v + 0.0) / 2.0 * (v / b)
  {
    var d := v + aPlus * tau;
    assert (v + d) / 2.0 * tau == v * tau + 0.5 * aPlus * tau * tau;
    HalfSquare(d, b);
    HalfSquare(v, b);
  }

  lemma HalfSquare(x: real, b: real)
    requires b > 0.0
    ensures x * x / (2.0 * b) == x / 2.0 * (x / b)
  {
    var q := x / b;
    assert q * b == x;
    assert x / 2.0 * q * (2.0 * b) == x * x;
  }

  // ------------------------------------------------------ arithmetic steps

  lemma RadicandPositive(effective: real, b: real, tau: real, root: real)
    requires b > 0.0 && tau >= 0.0 && effective > 0.0 && IsRoot(root, Radicand(effective, b, tau))
    ensures root > b * tau >= 0.0
  {
    var d := b * tau;
    assert d >= 0.0;
    assert 2.0 * b * effective > 0.0;
    assert root * root > d * d;
    SquareReflects(root, d);
  }

  /** 2b times the stopping distance, free of division. */
  lemma StoppingScaled(v: real, aPlus: real, b: real, tau: real)
    requires b > 0.0
    ensures 2.0 * b * StoppingDistanceAccelerating(v, aPlus, b, tau)
            == 2.0 * b * (v * tau) + b * aPlus * tau * tau + (v + aPlus * tau) * (v + aPlus * tau)
  {
    var d := v + aPlus * tau;
    var sq := d * d;
    assert 2.0 * b * (sq / (2.0 * b)) == sq;
    assert 2.0 * b * (0.5 * aPlus * tau * tau) == b * aPlus * tau * tau;
  }

  /** Completing the square: the stopping distance fits the clearance exactly
      when v plus the constant k = b*tau + a*tau is at most the shifted root. */
  lemma EnvelopeSquare(v: real, aPlus: real, b: real, tau: real, effective: real)
    requires ValidBraking(aPlus, b, tau)
    ensures var k := b * tau + aPlus * tau;
            2.0 * b * StoppingDistanceAccelerating(v, aPlus, b, tau)
            == (v + k) * (v + k) - k * k + 2.0 * b * Baseline(aPlus, b, tau)
  {
    StoppingScaled(v, aPlus, b, tau);
    StoppingScaled(0.0, aPlus, b, tau);
    var p, q := b * tau, aPlus * tau;
    assert 2.0 * b * (v * tau) == 2.0 * (v * p);
    assert (v + (p + q)) * (v + (p + q)) - (p + q) * (p + q) == v * v + 2.0 * (v * p) + 2.0 * (v * q);
    assert (v + q) * (v + q) == v * v + 2.0 * (v * q) + q * q;
  }

  /** The discriminant, scaled by b squared, is a sum of squares and slack. */
  lemma DiscriminantScaled(effective: real, aPlus: real, b: real, tau: real)
    requires ValidBraking(aPlus, b, tau)
    ensures var k := b * tau + aPlus * tau;
            b * b * Discriminant(effective, aPlus, b, tau)
            == k * k + 2.0 * b * (effective - Baseline(aPlus, b, tau))
  {
    var l := Linear(aPlus, b, tau);
    var k := b * tau + aPlus * tau;
    assert b * (aPlus * tau / b) == aPlus * tau;
    assert b * l == k;
    assert (b * l) * (b * l) == b * b * (l * l);
    var c := Coefficient(b);
    assert b * c == 0.5;
    var slack := Baseline(aPlus, b, tau) - effective;
    assert b * b * (4.0 * c * slack) == 4.0 * b * ((b * c) * slack);
  }

  // ----------------------------------------------------------- main results

  /** The raise in the accelerating inversion can never happen. */
  lemma DiscriminantNonnegative(clearance: real, margin: real, aPlus: real, b: real, tau: real, speedMax: real,
                                root: real)
    requires ValidBraking(aPlus, b, tau)
    ensures AdmissibleSpeedAccelerating(clearance, margin, aPlus, b, tau, speedMax, root).Speed?
  {
    var effective := Effective(clearance, margin);
    if effective > Baseline(aPlus, b, tau) {
      DiscriminantScaled(effective, aPlus, b, tau);
      var k := b * tau + aPlus * tau;
      var slack := effective - Baseline(aPlus, b, tau);
      assert k * k >= 0.0 && b * slack > 0.0;
      ScaleOrder(0.0, Discriminant(effective, aPlus, b, tau), b * b);
    }
  }

  /** v fits the clearance exactly when it is at most the closed-form limit. */
  lemma LimitIsExact(v: real, effective: real, aPlus: real, b: real, tau: real, root: real)
    requires ValidBraking(aPlus, b, tau) && v >= 0.0
    requires effective >= Baseline(aPlus, b, tau)
    requires IsRoot(root, Discriminant(effective, aPlus, b, tau))
    ensures var limit := (-Linear(aPlus, b, tau) + root) / (2.0 * Coefficient(b));
            v <= limit <==> StoppingDistanceAccelerating(v, aPlus, b, tau) <= effective
  {
    var k := b * tau + aPlus * tau;
    var r := b * root;
    var limit := (-Linear(aPlus, b, tau) + root) / (2.0 * Coefficient(b));
    LimitShifted(aPlus, b, tau, root);
    DiscriminantScaled(effective, aPlus, b, tau);
    assert r * r == b * b * (root * root);
    EnvelopeSquare(v, aPlus, b, tau, effective);
    assert r >= 0.0 && k >= 0.0;
    SquareReflects(v + k, r);
    ScaleOrder(StoppingDistanceAccelerating(v, aPlus, b, tau), effective, 2.0 * b);
  }

  lemma LimitShifted(aPlus: real, b: real, tau: real, root: real)
    requires ValidBraking(aPlus, b, tau)
    ensures (-Linear(aPlus, b, tau) + root) / (2.0 * Coefficient(b))
            == b * root - (b * tau + aPlus * tau)
  {
    var c := Coefficient(b);
    assert b * c == 0.5;
    var x := -Linear(aPlus, b, tau) + root;
    assert 2.0 * c * (b * x) == x;
    assert x / (2.0 * c) == b * x;
    assert b * (aPlus * tau / b) == aPlus * tau;
  }

  /** The accelerating inverse is exact: a non-negative speed is admissible
      exactly when it respects the cap and can stop within the clearance.  At an
      effective clearance below the zero-speed baseline no speed can stop in
      time, and the function answers 0 nevertheless. */
  lemma AcceleratingInverse(
    v: real, clearance: real, margin: real, aPlus: real, b: real, tau: real, speedMax: real, root: real)
    requires ValidBraking(aPlus, b, tau) && speedMax >= 0.0 && v >= 0.0
    requires IsRoot(root, Max(0.0, Discriminant(Effective(clearance, margin), aPlus, b, tau)))
    ensures var speed := AdmissibleSpeedAccelerating(clearance, margin, aPlus, b, tau, speedMax, root);
            speed.Speed? && 0.0 <= speed.value <= speedMax
            && (Effective(clearance, margin) >= Baseline(aPlus, b, tau) ==>
                 (v <= speed.value <==>
                  v <= speedMax && StoppingDistanceAccelerating(v, aPlus, b, tau) <= Effective(clearance, margin)))
            && (Effective(clearance, margin) < Baseline(aPlus, b, tau) ==>
                 speed.value == 0.0
                 && StoppingDistanceAccelerating(v, aPlus, b, tau) > Effective(clearance, margin))
  {
    var effective := Effective(clearance, margin);
    DiscriminantNonnegative(clearance, margin, aPlus, b, tau, speedMax, root);
    StoppingIncreases(0.0, v, aPlus, b, tau);
    if effective > Baseline(aPlus, b, tau) {
      LimitIsExact(v, effective, aPlus, b, tau, root);
      LimitIsExact(0.0, effective, aPlus, b, tau, root);
    }
  }

  /** Faster means longer, strictly. */
  lemma StoppingIncreases(u: real, v: real, aPlus: real, b: real, tau: real)
    requires ValidBraking(aPlus, b, tau) && 0.0 <= u <= v
    ensures StoppingDistanceAccelerating(u, aPlus, b, tau) <= StoppingDistanceAccelerating(v, aPlus, b, tau)
    ensures u < v ==> StoppingDistanceAccelerating(u, aPlus, b, tau) < StoppingDistanceAccelerating(v, aPlus, b, tau)
  {
    var k := b * tau + aPlus * tau;
    assert k >= 0.0;
    EnvelopeSquare(u, aPlus, b, tau, 0.0);
    EnvelopeSquare(v, aPlus, b, tau, 0.0);
    SquareMonotone(u + k, v + k);
    SquareReflects(v + k, u + k);
    hide StoppingDistanceAccelerating;
    ScaleOrder(StoppingDistanceAccelerating(u, aPlus, b, tau), StoppingDistanceAccelerating(v, aPlus, b, tau), 2.0 * b);
    ScaleOrder(StoppingDistanceAccelerating(v, aPlus, b, tau), StoppingDistanceAccelerating(u, aPlus, b, tau), 2.0 * b);
  }

  lemma ConstantScaled(v: real, effective: real, b: real, tau: real)
    requires b > 0.0
    ensures StoppingDistance(v, b, tau) <= effective <==>
            (v + b * tau) * (v + b * tau) <= Radicand(effective, b, tau)
  {
    var d, square := b * tau, v * v;
    assert 2.0 * b * (square / (2.0 * b)) == square;
    assert 2.0 * b * (v * tau) == 2.0 * (v * d);
    assert (v + d) * (v + d) == square + 2.0 * (v * d) + d * d;
    ScaleOrder(StoppingDistance(v, b, tau), effective, 2.0 * b);
  }

  lemma ConstantFits(v: real, effective: real, b: real, tau: real, root: real)
    requires ValidBraking(0.0, b, tau) && v >= 0.0 && IsRoot(root, Radicand(effective, b, tau))
    ensures StoppingDistance(v, b, tau) <= effective <==> v + b * tau <= root
  {
    ConstantScaled(v, effective, b, tau);
    assert b * tau >= 0.0;
    SquareReflects(v + b * tau, root);
  }

  /** The constant-speed inverse is exact too. */
  lemma ConstantInverse(v: real, clearance: real, margin: real, b: real, tau: real, speedMax: real, root: real)
    requires ValidBraking(0.0, b, tau) && speedMax >= 0.0 && v >= 0.0
    requires IsRoot(root, Radicand(Effective(clearance, margin), b, tau))
    ensures v <= AdmissibleSpeed(clearance, margin, b, tau, speedMax, root) <==>
            v <= speedMax && StoppingDistance(v, b, tau) <= Effective(clearance, margin)
  {
    var effective := Effective(clearance, margin);
    ConstantFits(v, effective, b, tau, root);
    AdmissibleIsShiftedRoot(clearance, margin, b, tau, speedMax, root);
  }

  /** The closed form is the shifted root, also when no clearance is left. */
  lemma AdmissibleIsShiftedRoot(clearance: real, margin: real, b: real, tau: real, speedMax: real, root: real)
    requires ValidBraking(0.0, b, tau) && speedMax >= 0.0
    requires IsRoot(root, Radicand(Effective(clearance, margin), b, tau))
    ensures AdmissibleSpeed(clearance, margin, b, tau, speedMax, root) == Min(speedMax, root - b * tau)
  {
    var effective := Effective(clearance, margin);
    if effective == 0.0 {
      assert b * tau >= 0.0;
      SquareReflects(root, b * tau);
      SquareReflects(b * tau, root);
    } else {
      ConstantLimit(effective, b, tau, root);
    }
  }

  lemma ConstantLimit(effective: real, b: real, tau: real, root: real)
    requires b > 0.0 && tau >= 0.0 && effective > 0.0 && IsRoot(root, Radicand(effective, b, tau))
    ensures root + b * tau > 0.0
    ensures 2.0 * b * effective / (root + b * tau) == root - b * tau
  {
    RadicandPositive(effective, b, tau, root);
    var d := b * tau;
    assert (root - d) * (root + d) == root * root - d * d;
    assert (root - d) * (root + d) / (root + d) == root - d;
  }

  /** Without acceleration during the delay the two inverses agree. */
  lemma ClosedFormsAgree(
    clearance: real, margin: real, b: real, tau: real, speedMax: real, constantRoot: real, root: real)
    requires ValidBraking(0.0, b, tau) && speedMax >= 0.0
    requires IsRoot(constantRoot, Radicand(Effective(clearance, margin), b, tau))
    requires IsRoot(root, Max(0.0, Discriminant(Effective(clearance, margin), 0.0, b, tau)))
    ensures AdmissibleSpeedAccelerating(clearance, margin, 0.0, b, tau, speedMax, root)
            == Speed(AdmissibleSpeed(clearance, margin, b, tau, speedMax, constantRoot))
  {
    var effective := Effective(clearance, margin);
    var slow := AdmissibleSpeed(clearance, margin, b, tau, speedMax, constantRoot);
    AcceleratingInverse(0.0, clearance, margin, 0.0, b, tau, speedMax, root);
    var fast := AdmissibleSpeedAccelerating(clearance, margin, 0.0, b, tau, speedMax, root).value;
    ConstantInverse(0.0, clearance, margin, b, tau, speedMax, constantRoot);
    assert Baseline(0.0, b, tau) == 0.0;
    StoppingFormsAgree(0.0, b, tau);
    ConstantInverse(fast, clearance, margin, b, tau, speedMax, constantRoot);
    AcceleratingInverse(fast, clearance, margin, 0.0, b, tau, speedMax, root);
    StoppingFormsAgree(fast, b, tau);
    ConstantInverse(slow, clearance, margin, b, tau, speedMax, constantRoot);
    AcceleratingInverse(slow, clearance, margin, 0.0, b, tau, speedMax, root);
    StoppingFormsAgree(slow, b, tau);
  }

  lemma StoppingFormsAgree(v: real, b: real, tau: real)
    requires b > 0.0
    ensures StoppingDistanceAccelerating(v, 0.0, b, tau) == StoppingDistance(v, b, tau)
  {
  }

  // ------------------------------------------------------------ wheel rates

  function WheelRates(v: real, omega: real, separation: real, radius: real): (real, real)
    requires radius > 0.0
  {
    ((v - omega * separation / 2.0) / radius, (v + omega * separation / 2.0) / radius)
  }

  predicate WheelRatesWithinLimits(v: real, omega: real, separation: real, radius: real, maxRate: real)
    requires radius > 0.0
  {
    var (left, right) := WheelRates(v, omega, separation, radius);
    Abs(left) <= maxRate && Abs(right) <= maxRate
  }

  /** The wheel check, free of division: |v| + |omega| * separation / 2 bounds both wheels. */
  lemma WheelLimit(v: real, omega: real, separation: real, radius: real, maxRate: real)
    requires radius > 0.0 && separation > 0.0 && v >= 0.0
    ensures WheelRatesWithinLimits(v, omega, separation, radius, maxRate) <==>
            v + Abs(omega) * separation / 2.0 <= maxRate * radius
  {
    var h := omega * separation / 2.0;
    assert Abs(omega) * separation / 2.0 == Abs(h);
    DivisionOrder(v - h, maxRate, radius);
    DivisionOrder(-(v - h), maxRate, radius);
    DivisionOrder(v + h, maxRate, radius);
    DivisionOrder(-(v + h), maxRate, radius);
    assert (-(v - h)) / radius == -((v - h) / radius);
    assert (-(v + h)) / radius == -((v + h) / radius);
  }
}
