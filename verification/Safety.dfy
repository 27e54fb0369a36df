/** The forward safety supervisor: one evaluation of an immutable snapshot. */
module Safety {
  import opened Arithmetic
  import opened Braking

  datatype Limits = Limits(
    separation: real, wheelRadius: real, maxWheelRate: real, speedMax: real, yawRateMax: real,
    brakeMin: real, responseBound: real, clearanceMargin: real, accelerationDelay: real,
    rotationRadius: real, rotationMargin: real, restTolerance: real, angularAccelerationMax: real,
    lateralAccelerationMax: real, alignYawRateMax: real)

  predicate ValidLimits(l: Limits) {
    && l.separation > 0.0 && l.wheelRadius > 0.0 && l.brakeMin > 0.0
    && l.maxWheelRate >= 0.0 && l.speedMax >= 0.0 && l.yawRateMax >= 0.0 && l.responseBound >= 0.0
    && l.clearanceMargin >= 0.0 && l.accelerationDelay >= 0.0 && l.rotationRadius >= 0.0
    && l.rotationMargin >= 0.0 && l.restTolerance >= 0.0 && l.angularAccelerationMax >= 0.0
    && l.lateralAccelerationMax >= 0.0 && l.alignYawRateMax >= 0.0
  }

  /** Leases and budgets in nanoseconds. */
  datatype Timing = Timing(candidateLease: nat, obstacleLease: nat, egoLease: nat, budget: nat, clockSkew: nat)

  datatype Mode = Hold | TrackPath | Align | ApproachCapture

  datatype Snapshot = Snapshot(
    candidateV: real, candidateOmega: real, candidateStamp: nat, candidateValidUntil: nat,
    obstacleStamp: nat, egoStamp: nat, nowRos: nat,
    frame: nat, expectedFrame: nat, clockEpoch: nat, expectedClockEpoch: nat,
    localizationEpoch: nat, expectedLocalizationEpoch: nat,
    coverageValid: bool, freeDistance: real, egoSpeed: real,
    mapVersion: nat, expectedMapVersion: nat, topologyVersion: nat, expectedTopologyVersion: nat,
    leaseGeneration: nat, expectedLeaseGeneration: nat,
    optionInstance: nat, expectedOptionInstance: nat,  // 0 stands for "no expectation"
    receivedSteady: nat, mode: Mode,
    freeDistance360: real, coverage360Valid: bool, positionErrorBound: real, controlPeriod: real,
    egoAngularVelocity: real, curvedClearance: real, curvedCoverageValid: bool)

  datatype Decision = Stop | Admit | Limit

  datatype Cause =
    | NoCause | CommandLimited | ComputeOverrun | LimitsInvalid | CurvedPathUncertified | BrakingInfeasible
    | WaitingLinearRest | OutsideCoverage | RotationProfileInvalid | RotationClearanceInsufficient
    | AngularAccelerationExceeded | StaleEgo | StaleCandidate | StaleObstacles | TfUnavailable
    | EpochMismatch | OptionRevoked

  datatype Evaluation = Evaluation(
    decision: Decision, causes: seq<Cause>, appliedV: real, appliedOmega: real,
    checkedClearance: real, required: real)

  /** Square roots the evaluation needs. */
  datatype Roots = Roots(brake: real, lateral: real)

  function Stopping(v: real, l: Limits): real
    requires ValidLimits(l)
  {
    StoppingDistanceAccelerating(v, l.accelerationDelay, l.brakeMin, l.responseBound)
  }

  predicate Curved(s: Snapshot) { s.candidateOmega != 0.0 }

  function Checked(s: Snapshot): real { if Curved(s) then s.curvedClearance else s.freeDistance }

  function Curvature(s: Snapshot): real
    requires s.candidateV != 0.0
  {
    Abs(s.candidateOmega / s.candidateV)
  }

  ghost predicate RootsFor(s: Snapshot, l: Limits, roots: Roots)
    requires ValidLimits(l)
  {
    && IsRoot(roots.brake, Max(0.0, Discriminant(Effective(Checked(s), l.clearanceMargin),
                                                 l.accelerationDelay, l.brakeMin, l.responseBound)))
    && (Curved(s) && s.candidateV > 0.0 ==>
          Curvature(s) > 0.0 && IsRoot(roots.lateral, l.lateralAccelerationMax / Curvature(s)))
  }

  lemma CurvaturePositive(s: Snapshot)
    requires Curved(s) && s.candidateV > 0.0
    ensures Curvature(s) > 0.0
    ensures Curvature(s) * s.candidateV == Abs(s.candidateOmega)
  {
    var q := s.candidateOmega / s.candidateV;
    assert q * s.candidateV == s.candidateOmega;
    if q > 0.0 { assert q * s.candidateV > 0.0; } else if q < 0.0 { assert q * s.candidateV < 0.0; }
  }

  // -------------------------------------------------------------- validation

  function AddIf(causes: seq<Cause>, c: bool, cause: Cause): seq<Cause> {
    if c && cause !in causes then causes + [cause] else causes
  }

  /** Stamps in the future or past their leases. */
  function TimeCauses(s: Snapshot, t: Timing, now: nat): seq<Cause> {
    var c1 := AddIf([], s.nowRos > now + t.clockSkew, StaleEgo);
    var c2 := AddIf(c1, s.candidateStamp > now || now - s.candidateStamp > t.candidateLease
                        || now >= s.candidateValidUntil, StaleCandidate);
    var c3 := AddIf(c2, s.obstacleStamp > now || now - s.obstacleStamp > t.obstacleLease, StaleObstacles);
    AddIf(c3, s.egoStamp > now || now - s.egoStamp > t.egoLease, StaleEgo)
  }

  /** Wrong frame or epoch, negative speeds, missing coverage. */
  function ContextCauses(c: seq<Cause>, s: Snapshot): seq<Cause> {
    var c1 := AddIf(c, s.frame != s.expectedFrame, TfUnavailable);
    var c2 := AddIf(c1, s.clockEpoch != s.expectedClockEpoch, EpochMismatch);
    var c3 := AddIf(c2, s.localizationEpoch != s.expectedLocalizationEpoch, EpochMismatch);
    var c4 := AddIf(c3, s.candidateV < 0.0 || s.egoSpeed < 0.0, LimitsInvalid);
    var c5 := AddIf(c4, !s.coverageValid, OutsideCoverage);
    AddIf(c5, s.mode.Align? && !s.coverage360Valid, OutsideCoverage)
  }

  /** Revoked options and leases, outdated maps. */
  function AuthorityCauses(c: seq<Cause>, s: Snapshot): seq<Cause> {
    var c1 := AddIf(c, s.expectedOptionInstance != 0 && s.optionInstance != s.expectedOptionInstance, OptionRevoked);
    var c2 := AddIf(c1, s.leaseGeneration != s.expectedLeaseGeneration, OptionRevoked);
    AddIf(c2, s.mapVersion != s.expectedMapVersion || s.topologyVersion != s.expectedTopologyVersion, StaleCandidate)
  }

  /** Every evidence defect, each reported once, in order of detection. */
  function ValidationCauses(s: Snapshot, t: Timing, now: nat): seq<Cause> {
    AuthorityCauses(ContextCauses(TimeCauses(s, t, now), s), s)
  }

  // -------------------------------------------------------------- evaluation

  function Halt(cause: Cause, clearance: real, required: real): Evaluation {
    Evaluation(Stop, [cause], 0.0, 0.0, clearance, required)
  }

  function EvaluateAlign(s: Snapshot, l: Limits): Evaluation
    requires ValidLimits(l)
  {
    var clearance := s.freeDistance360;
    var yawLimit := if l.alignYawRateMax > 0.0 then l.alignYawRateMax else l.yawRateMax;
    if s.candidateV != 0.0 then Halt(LimitsInvalid, clearance, 0.0)
    else if Abs(s.egoSpeed) > l.restTolerance then Halt(WaitingLinearRest, clearance, 0.0)
    else if !s.coverage360Valid then Halt(OutsideCoverage, clearance, 0.0)
    else if l.rotationRadius <= 0.0 || l.rotationMargin <= 0.0 || l.restTolerance <= 0.0
            || l.angularAccelerationMax <= 0.0 || s.controlPeriod <= 0.0 then
      Halt(RotationProfileInvalid, clearance, 0.0)
    else if clearance < l.rotationRadius + s.positionErrorBound + l.rotationMargin then
      Halt(RotationClearanceInsufficient, clearance, 0.0)
    else if Abs(s.candidateOmega) > Min(l.yawRateMax, yawLimit) then Halt(LimitsInvalid, clearance, 0.0)
    else if !WheelRatesWithinLimits(0.0, s.candidateOmega, l.separation, l.wheelRadius, l.maxWheelRate) then
      Halt(LimitsInvalid, clearance, 0.0)
    else if Abs(s.candidateOmega - s.egoAngularVelocity) > l.angularAccelerationMax * s.controlPeriod + TOLERANCE then
      Halt(AngularAccelerationExceeded, clearance, 0.0)
    else Evaluation(Admit, [NoCause], 0.0, s.candidateOmega, clearance, 0.0)
  }

  const TOLERANCE: real := 0.000000000001

  function YawSpeed(k: real, l: Limits): real
    requires k > 0.0
  {
    l.yawRateMax / k
  }

  function WheelSpeed(k: real, l: Limits): real
    requires ValidLimits(l) && k > 0.0
  {
    var perSpeed := Max(Abs(1.0 - k * l.separation / 2.0), Abs(1.0 + k * l.separation / 2.0)) / l.wheelRadius;
    PerSpeedPositive(k, l);
    l.maxWheelRate / perSpeed
  }

  /** Cap on the speed from curvature k: lateral acceleration, yaw and wheels. */
  function CurveSpeed(k: real, l: Limits, lateral: real): real
    requires ValidLimits(l) && k > 0.0
  {
    Min(lateral, Min(YawSpeed(k, l), WheelSpeed(k, l)))
  }

  lemma PerSpeedPositive(k: real, l: Limits)
    requires ValidLimits(l) && k > 0.0
    ensures Max(Abs(1.0 - k * l.separation / 2.0), Abs(1.0 + k * l.separation / 2.0)) == 1.0 + k * l.separation / 2.0
    ensures (1.0 + k * l.separation / 2.0) / l.wheelRadius > 0.0
  {
    assert k * l.separation > 0.0;
    DivisionOrder(1.0 + k * l.separation / 2.0, 0.0, l.wheelRadius);
  }

  function BrakeSpeed(s: Snapshot, l: Limits, roots: Roots): Inversion
    requires ValidLimits(l)
  {
    AdmissibleSpeedAccelerating(Checked(s), l.clearanceMargin, l.accelerationDelay, l.brakeMin,
                                l.responseBound, l.speedMax, roots.brake)
  }

  function SafeSpeed(s: Snapshot, l: Limits, roots: Roots): Inversion
    requires ValidLimits(l) && (Curved(s) ==> s.candidateV > 0.0)
  {
    match BrakeSpeed(s, l, roots)
    case NegativeDiscriminant => NegativeDiscriminant
    case Speed(v) =>
      if Curved(s) then
        CurvaturePositive(s);
        Speed(Min(v, CurveSpeed(Curvature(s), l, roots.lateral)))
      else Speed(v)
  }

  datatype Outcome = Evaluated(result: Evaluation) | ArithmeticRaised

  /** The yaw rate that keeps the curvature of (v, omega) at speed u. */
  function ScaledOmega(omega: real, v: real, u: real): real
    requires v > 0.0
  {
    omega * u / v
  }

  function EvaluateTrack(s: Snapshot, l: Limits, roots: Roots, required: real): Outcome
    requires ValidLimits(l)
  {
    if s.candidateV < 0.0 || s.egoSpeed < 0.0 then Evaluated(Halt(LimitsInvalid, s.freeDistance, required))
    else if Curved(s) && (s.candidateV <= 0.0 || l.lateralAccelerationMax <= 0.0) then
      Evaluated(Halt(LimitsInvalid, s.freeDistance, required))
    else if Curved(s) && !s.curvedCoverageValid then
      Evaluated(Halt(CurvedPathUncertified, s.curvedClearance, required))
    else if !Curved(s) && Abs(s.candidateOmega) > l.yawRateMax then
      Evaluated(Halt(LimitsInvalid, s.freeDistance, required))
    else if !Curved(s) && !WheelRatesWithinLimits(s.candidateV, s.candidateOmega, l.separation, l.wheelRadius,
                                                  l.maxWheelRate) then
      Evaluated(Halt(LimitsInvalid, s.freeDistance, required))
    else
      match SafeSpeed(s, l, roots)
      case NegativeDiscriminant => ArithmeticRaised
      case Speed(safe) =>
        if required > Effective(Checked(s), l.clearanceMargin) then
          Evaluated(Halt(BrakingInfeasible, Checked(s), required))
        else if s.candidateV <= safe then
          Evaluated(Evaluation(Admit, [NoCause], s.candidateV, s.candidateOmega, Checked(s), Stopping(s.candidateV, l)))
        else
          var limited := Min(safe, s.candidateV);
          var omega := if Curved(s) then ScaledOmega(s.candidateOmega, s.candidateV, limited) else 0.0;
          Evaluated(Evaluation(Limit, [CommandLimited], limited, omega, Checked(s), Stopping(limited, l)))
  }

  function Evaluate(s: Snapshot, l: Limits, t: Timing, roots: Roots, now: nat, steady: nat): Outcome
    requires ValidLimits(l)
  {
    var required := if s.egoSpeed >= 0.0 then Stopping(s.egoSpeed, l) else 0.0;
    var causes := ValidationCauses(s, t, now);
    if steady < s.receivedSteady || steady - s.receivedSteady > t.budget then
      Evaluated(Halt(ComputeOverrun, s.freeDistance, required))
    else if causes != [] then Evaluated(Evaluation(Stop, causes, 0.0, 0.0, s.freeDistance, required))
    else if s.mode.Align? then Evaluated(EvaluateAlign(s, l))
    else EvaluateTrack(s, l, roots, required)
  }

  // ------------------------------------------------------------- properties

  /** Lateral acceleration, yaw rate and outer wheel rate of speed u on curvature k. */
  ghost predicate CurveFeasible(u: real, k: real, l: Limits) {
    && u * u * k <= l.lateralAccelerationMax
    && u * k <= l.yawRateMax
    && u + u * k * l.separation / 2.0 <= l.maxWheelRate * l.wheelRadius
  }

  ghost predicate BrakeFeasible(u: real, s: Snapshot, l: Limits)
    requires ValidLimits(l)
  {
    u <= l.speedMax && Stopping(u, l) <= Effective(Checked(s), l.clearanceMargin)
  }

  /** All limits a track command of speed u on the candidate's path must meet. */
  ghost predicate Feasible(u: real, s: Snapshot, l: Limits)
    requires ValidLimits(l) && (Curved(s) ==> s.candidateV > 0.0)
  {
    BrakeFeasible(u, s, l) && (Curved(s) ==> CurveFeasible(u, Curvature(s), l))
  }

  /** The curve cap is exact: a speed respects it exactly when lateral
      acceleration, yaw rate and both wheel rates are within limits. */
  lemma CurveSpeedExact(u: real, k: real, l: Limits, lateral: real)
    requires ValidLimits(l) && k > 0.0 && u >= 0.0
    requires IsRoot(lateral, l.lateralAccelerationMax / k)
    ensures u <= CurveSpeed(k, l, lateral) <==> CurveFeasible(u, k, l)
  {
    hide YawSpeed, WheelSpeed;
    assert u <= lateral <==> u * u * k <= l.lateralAccelerationMax by {
      LateralExact(u, k, l.lateralAccelerationMax, lateral);
    }
    YawCapExact(u, k, l);
    WheelCapExact(u, k, l);
    MinIsBoth(u, lateral, Min(YawSpeed(k, l), WheelSpeed(k, l)));
    MinIsBoth(u, YawSpeed(k, l), WheelSpeed(k, l));
  }

  lemma YawCapExact(u: real, k: real, l: Limits)
    requires k > 0.0
    ensures u <= YawSpeed(k, l) <==> u * k <= l.yawRateMax
  {
    QuotientOrder(u, l.yawRateMax, k);
  }

  lemma MinIsBoth(u: real, a: real, b: real)
    ensures u <= Min(a, b) <==> u <= a && u <= b
  {
  }

  lemma CurveSpeedNonnegative(k: real, l: Limits, lateral: real)
    requires ValidLimits(l) && k > 0.0 && lateral >= 0.0
    ensures CurveSpeed(k, l, lateral) >= 0.0
  {
    QuotientOrder(0.0, l.yawRateMax, k);
    WheelCapExact(0.0, k, l);
    assert l.maxWheelRate * l.wheelRadius >= 0.0;
  }

  lemma WheelCapExact(u: real, k: real, l: Limits)
    requires ValidLimits(l) && k > 0.0
    ensures u <= WheelSpeed(k, l) <==> u + u * k * l.separation / 2.0 <= l.maxWheelRate * l.wheelRadius
  {
    PerSpeedPositive(k, l);
    var sum := 1.0 + k * l.separation / 2.0;
    WheelSpeedExact(u, sum, l.wheelRadius, l.maxWheelRate);
    assert u * sum == u + u * k * l.separation / 2.0;
  }

  lemma QuotientOrder(u: real, x: real, d: real)
    requires d > 0.0
    ensures u <= x / d <==> u * d <= x
  {
    assert (x / d) * d == x;
    ScaleOrder(u, x / d, d);
  }

  lemma LateralExact(u: real, k: real, limit: real, lateral: real)
    requires k > 0.0 && u >= 0.0 && IsRoot(lateral, limit / k)
    ensures u <= lateral <==> u * u * k <= limit
  {
    SquareReflects(u, lateral);
    QuotientOrder(u * u, limit, k);
  }

  lemma WheelSpeedExact(u: real, sum: real, radius: real, maxRate: real)
    requires radius > 0.0 && sum / radius > 0.0
    ensures u <= maxRate / (sum / radius) <==> u * sum <= maxRate * radius
  {
    var q := sum / radius;
    assert q * radius == sum;
    QuotientOrder(u, maxRate, q);
    ScaleOrder(u * q, maxRate, radius);
    assert radius * (u * q) == u * sum;
  }

  ghost predicate Track(s: Snapshot) { !s.mode.Align? }

  lemma BrakeSpeedExact(u: real, s: Snapshot, l: Limits, roots: Roots)
    requires ValidLimits(l) && RootsFor(s, l, roots) && u >= 0.0 && s.egoSpeed >= 0.0
    requires Stopping(s.egoSpeed, l) <= Effective(Checked(s), l.clearanceMargin)
    ensures BrakeSpeed(s, l, roots).Speed? && BrakeSpeed(s, l, roots).value >= 0.0
    ensures u <= BrakeSpeed(s, l, roots).value <==> BrakeFeasible(u, s, l)
  {
    StoppingIncreases(0.0, s.egoSpeed, l.accelerationDelay, l.brakeMin, l.responseBound);
    AcceleratingInverse(u, Checked(s), l.clearanceMargin, l.accelerationDelay, l.brakeMin, l.responseBound,
                        l.speedMax, roots.brake);
  }

  /** Safe speed is the exact feasibility threshold once the robot's own
      stopping distance fits the clearance. */
  lemma SafeSpeedExact(u: real, s: Snapshot, l: Limits, roots: Roots)
    requires ValidLimits(l) && RootsFor(s, l, roots) && u >= 0.0
    requires (Curved(s) ==> s.candidateV > 0.0) && s.egoSpeed >= 0.0
    requires Stopping(s.egoSpeed, l) <= Effective(Checked(s), l.clearanceMargin)
    ensures SafeSpeed(s, l, roots).Speed? && SafeSpeed(s, l, roots).value >= 0.0
    ensures u <= SafeSpeed(s, l, roots).value <==> Feasible(u, s, l)
  {
    BrakeSpeedExact(u, s, l, roots);
    if Curved(s) {
      CurveSpeedExact(u, Curvature(s), l, roots.lateral);
      CurveSpeedNonnegative(Curvature(s), l, roots.lateral);
    }
  }

  /** The evaluator never raises: the negative discriminant is unreachable. */
  lemma EvaluateTotal(s: Snapshot, l: Limits, t: Timing, roots: Roots, now: nat, steady: nat)
    requires ValidLimits(l)
    ensures Evaluate(s, l, t, roots, now, steady).Evaluated?
  {
    DiscriminantNonnegative(Checked(s), l.clearanceMargin, l.accelerationDelay, l.brakeMin, l.responseBound,
                            l.speedMax, roots.brake);
  }

  /** The result of a track evaluation that did not stop. */
  ghost predicate TrackResult(s: Snapshot, l: Limits, roots: Roots, e: Evaluation)
    requires ValidLimits(l)
  {
    && (Curved(s) ==> s.candidateV > 0.0) && s.egoSpeed >= 0.0 && s.candidateV >= 0.0
    && Stopping(s.egoSpeed, l) <= Effective(Checked(s), l.clearanceMargin)
    && SafeSpeed(s, l, roots).Speed?
    && e.appliedV == Min(SafeSpeed(s, l, roots).value, s.candidateV)
    && e.required == Stopping(e.appliedV, l) && e.checkedClearance == Checked(s)
    && (e.decision.Admit? <==> s.candidateV <= SafeSpeed(s, l, roots).value)
    && e.appliedOmega == (if e.decision.Admit? then s.candidateOmega
                          else if Curved(s) then ScaledOmega(s.candidateOmega, s.candidateV, e.appliedV) else 0.0)
    && (!Curved(s) ==>
          WheelRatesWithinLimits(s.candidateV, s.candidateOmega, l.separation, l.wheelRadius, l.maxWheelRate))
  }

  lemma TrackEvaluated(s: Snapshot, l: Limits, roots: Roots)
    requires ValidLimits(l) && s.egoSpeed >= 0.0
    requires EvaluateTrack(s, l, roots, Stopping(s.egoSpeed, l)).Evaluated?
    requires !EvaluateTrack(s, l, roots, Stopping(s.egoSpeed, l)).result.decision.Stop?
    ensures TrackResult(s, l, roots, EvaluateTrack(s, l, roots, Stopping(s.egoSpeed, l)).result)
  {
  }

  lemma TrackPassed(s: Snapshot, l: Limits, t: Timing, roots: Roots, now: nat, steady: nat)
    requires ValidLimits(l) && Track(s)
    requires Evaluate(s, l, t, roots, now, steady).Evaluated?
    requires !Evaluate(s, l, t, roots, now, steady).result.decision.Stop?
    ensures TrackResult(s, l, roots, Evaluate(s, l, t, roots, now, steady).result)
  {
    TrackEvaluated(s, l, roots);
  }

  /** Stopping guarantee: every command let through on a track can stop within
      the clearance it was checked against, and so could the robot as it was. */
  lemma StoppingGuarantee(s: Snapshot, l: Limits, t: Timing, roots: Roots, now: nat, steady: nat)
    requires ValidLimits(l) && RootsFor(s, l, roots) && Track(s)
    ensures Evaluate(s, l, t, roots, now, steady).Evaluated?
    ensures var e := Evaluate(s, l, t, roots, now, steady).result;
            !e.decision.Stop? ==>
              && e.required == Stopping(e.appliedV, l)
              && e.required <= Max(0.0, e.checkedClearance - l.clearanceMargin)
              && Stopping(s.egoSpeed, l) <= Max(0.0, e.checkedClearance - l.clearanceMargin)
              && 0.0 <= e.appliedV <= l.speedMax
  {
    EvaluateTotal(s, l, t, roots, now, steady);
    var e := Evaluate(s, l, t, roots, now, steady).result;
    if !e.decision.Stop? {
      TrackPassed(s, l, t, roots, now, steady);
      SafeSpeedExact(0.0, s, l, roots);
      SafeSpeedExact(e.appliedV, s, l, roots);
    }
  }

  /** LIMIT is a projection: the applied speed is the largest speed not above
      the candidate that is feasible on the candidate's own curvature. */
  lemma LimitIsProjection(u: real, s: Snapshot, l: Limits, t: Timing, roots: Roots, now: nat, steady: nat)
    requires ValidLimits(l) && RootsFor(s, l, roots) && Track(s) && 0.0 <= u <= s.candidateV
    requires Evaluate(s, l, t, roots, now, steady).Evaluated?
    requires !Evaluate(s, l, t, roots, now, steady).result.decision.Stop?
    ensures Curved(s) ==> s.candidateV > 0.0
    ensures u <= Evaluate(s, l, t, roots, now, steady).result.appliedV <==> Feasible(u, s, l)
    ensures Evaluate(s, l, t, roots, now, steady).result.decision.Admit? <==> Feasible(s.candidateV, s, l)
  {
    TrackPassed(s, l, t, roots, now, steady);
    SafeSpeedExact(u, s, l, roots);
    SafeSpeedExact(s.candidateV, s, l, roots);
  }

  lemma ScaledCommand(v: real, omega: real, u: real)
    requires v > 0.0
    ensures ScaledOmega(omega, v, u) * v == omega * u
    ensures u >= 0.0 ==> Abs(ScaledOmega(omega, v, u)) == u * Abs(omega / v)
    ensures u > 0.0 ==> ScaledOmega(omega, v, u) / u == omega / v
  {
    var q := omega / v;
    assert q * v == omega;
    var w := omega * u / v;
    assert w * v == omega * u;
    assert (q * u) * v == omega * u;
    assert (w - q * u) * v == 0.0;
    assert w == q * u;
    if u > 0.0 { assert w / u == q; }
    if u >= 0.0 {
      if q >= 0.0 { assert q * u >= 0.0; } else { assert (-q) * u >= 0.0; }
    }
  }

  /** A feasible speed on the candidate's curve respects all three curve limits. */
  lemma CurveCommandWithinLimits(s: Snapshot, l: Limits, v: real, omega: real)
    requires ValidLimits(l) && Curved(s) && s.candidateV > 0.0 && v >= 0.0
    requires CurveFeasible(v, Curvature(s), l) && Abs(omega) == v * Curvature(s)
    ensures Abs(omega) <= l.yawRateMax && v * Abs(omega) <= l.lateralAccelerationMax
    ensures WheelRatesWithinLimits(v, omega, l.separation, l.wheelRadius, l.maxWheelRate)
  {
    WheelLimit(v, omega, l.separation, l.wheelRadius, l.maxWheelRate);
    var k := Curvature(s);
    assert v * (v * k) == v * v * k;
  }

  /** The applied command, admitted or scaled, keeps the candidate's curvature. */
  lemma KeepsCurvature(v: real, omega: real, u: real, w: real)
    requires v > 0.0 && u >= 0.0
    requires (u == v && w == omega) || w == ScaledOmega(omega, v, u)
    ensures w * v == omega * u
    ensures Abs(w) == u * Abs(omega / v)
  {
    ScaledCommand(v, omega, u);
    if u == v {
      assert ScaledOmega(omega, v, v) * v == omega * v;
      assert (ScaledOmega(omega, v, v) - omega) * v == 0.0;
    }
  }

  lemma StraightWithinLimits(s: Snapshot, l: Limits, v: real)
    requires ValidLimits(l) && !Curved(s) && 0.0 <= v <= s.candidateV
    requires WheelRatesWithinLimits(s.candidateV, s.candidateOmega, l.separation, l.wheelRadius, l.maxWheelRate)
    ensures WheelRatesWithinLimits(v, 0.0, l.separation, l.wheelRadius, l.maxWheelRate)
  {
    WheelLimit(s.candidateV, 0.0, l.separation, l.wheelRadius, l.maxWheelRate);
    WheelLimit(v, 0.0, l.separation, l.wheelRadius, l.maxWheelRate);
  }

  /** Every command let through on a track keeps the candidate's curvature and
      meets the yaw-rate, lateral-acceleration and wheel-rate limits. */
  lemma AppliedWithinLimits(s: Snapshot, l: Limits, t: Timing, roots: Roots, now: nat, steady: nat)
    requires ValidLimits(l) && RootsFor(s, l, roots) && Track(s)
    requires Evaluate(s, l, t, roots, now, steady).Evaluated?
    requires !Evaluate(s, l, t, roots, now, steady).result.decision.Stop?
    ensures var e := Evaluate(s, l, t, roots, now, steady).result;
            && e.appliedOmega * s.candidateV == s.candidateOmega * e.appliedV
            && Abs(e.appliedOmega) <= l.yawRateMax
            && (Curved(s) ==> e.appliedV * Abs(e.appliedOmega) <= l.lateralAccelerationMax)
            && WheelRatesWithinLimits(e.appliedV, e.appliedOmega, l.separation, l.wheelRadius, l.maxWheelRate)
  {
    hide *;
    TrackPassed(s, l, t, roots, now, steady);
    ResultWithinLimits(s, l, roots, Evaluate(s, l, t, roots, now, steady).result);
  }

  lemma ResultWithinLimits(s: Snapshot, l: Limits, roots: Roots, e: Evaluation)
    requires ValidLimits(l) && RootsFor(s, l, roots) && TrackResult(s, l, roots, e)
    ensures e.appliedV >= 0.0
    ensures e.appliedOmega * s.candidateV == s.candidateOmega * e.appliedV
    ensures Abs(e.appliedOmega) <= l.yawRateMax
    ensures Curved(s) ==> e.appliedV * Abs(e.appliedOmega) <= l.lateralAccelerationMax
    ensures WheelRatesWithinLimits(e.appliedV, e.appliedOmega, l.separation, l.wheelRadius, l.maxWheelRate)
  {
    hide Stopping, SafeSpeed, WheelRatesWithinLimits, CurveFeasible, ScaledOmega, Effective;
    assert e.appliedV >= 0.0 by { SafeSpeedExact(0.0, s, l, roots); }
    if Curved(s) {
      assert CurveFeasible(e.appliedV, Curvature(s), l) by { SafeSpeedExact(e.appliedV, s, l, roots); }
      KeepsCurvature(s.candidateV, s.candidateOmega, e.appliedV, e.appliedOmega);
      CurveCommandWithinLimits(s, l, e.appliedV, e.appliedOmega);
    } else {
      StraightWithinLimits(s, l, e.appliedV);
    }
  }

  /** The snapshot with the applied command proposed again. */
  function Again(s: Snapshot, e: Evaluation): Snapshot {
    s.(candidateV := e.appliedV, candidateOmega := e.appliedOmega)
  }

  /** Limiting is idempotent: proposing the applied command again on the same
      evidence admits it unchanged (on curves, while it still moves). */
  lemma LimitIsIdempotent(s: Snapshot, l: Limits, t: Timing, roots: Roots, now: nat, steady: nat)
    requires ValidLimits(l) && RootsFor(s, l, roots) && Track(s)
    requires Evaluate(s, l, t, roots, now, steady).Evaluated?
    requires !Evaluate(s, l, t, roots, now, steady).result.decision.Stop?
    requires Curved(s) ==> Evaluate(s, l, t, roots, now, steady).result.appliedV > 0.0
    ensures var e := Evaluate(s, l, t, roots, now, steady).result;
            && RootsFor(Again(s, e), l, roots)
            && Evaluate(Again(s, e), l, t, roots, now, steady) ==
               Evaluated(e.(decision := Admit, causes := [NoCause]))
  {
    TrackPassed(s, l, t, roots, now, steady);
    var e := Evaluate(s, l, t, roots, now, steady).result;
    TrackAgain(s, l, roots, e);
    assert ValidationCauses(Again(s, e), t, now) == ValidationCauses(s, t, now);
  }

  lemma TrackAgain(s: Snapshot, l: Limits, roots: Roots, e: Evaluation)
    requires ValidLimits(l) && RootsFor(s, l, roots) && TrackResult(s, l, roots, e)
    requires Curved(s) ==> e.appliedV > 0.0 && s.curvedCoverageValid && l.lateralAccelerationMax > 0.0
    ensures RootsFor(Again(s, e), l, roots)
    ensures EvaluateTrack(Again(s, e), l, roots, Stopping(s.egoSpeed, l)) ==
            Evaluated(e.(decision := Admit, causes := [NoCause]))
  {
    ResultWithinLimits(s, l, roots, e);
    AgainSameCurve(s, e);
    var s' := Again(s, e);
    assert Checked(s') == Checked(s);
    SameSafeSpeed(s, s', l, roots);
  }

  lemma SameSafeSpeed(s: Snapshot, s': Snapshot, l: Limits, roots: Roots)
    requires ValidLimits(l) && Curved(s) == Curved(s') && Checked(s) == Checked(s')
    requires Curved(s) ==> s.candidateV > 0.0 && s'.candidateV > 0.0 && Curvature(s) == Curvature(s')
    ensures SafeSpeed(s, l, roots) == SafeSpeed(s', l, roots)
    ensures RootsFor(s, l, roots) ==> RootsFor(s', l, roots)
  {
  }

  lemma AgainSameCurve(s: Snapshot, e: Evaluation)
    requires s.candidateV >= 0.0 && (Curved(s) ==> s.candidateV > 0.0 && e.appliedV > 0.0)
    requires e.appliedOmega * s.candidateV == s.candidateOmega * e.appliedV
    requires !Curved(s) ==> e.appliedOmega == 0.0
    ensures Curved(Again(s, e)) <==> Curved(s)
    ensures Curved(s) ==> Curvature(Again(s, e)) == Curvature(s)
  {
    if Curved(s) {
      ScaledCommand(s.candidateV, s.candidateOmega, e.appliedV);
      var w := ScaledOmega(s.candidateOmega, s.candidateV, e.appliedV);
      assert (w - e.appliedOmega) * s.candidateV == 0.0;
      assert w == e.appliedOmega;
      if s.candidateOmega > 0.0 { assert s.candidateOmega * e.appliedV > 0.0; }
      else { assert s.candidateOmega * e.appliedV < 0.0; }
    }
  }

  /** Fail closed: STOP is a zero command, ALIGN never translates, and nothing
      is let through on stale, mismatched or uncovered evidence. */
  lemma FailClosed(s: Snapshot, l: Limits, t: Timing, roots: Roots, now: nat, steady: nat)
    requires ValidLimits(l)
    ensures Evaluate(s, l, t, roots, now, steady).Evaluated?
    ensures var e := Evaluate(s, l, t, roots, now, steady).result;
            && (e.decision.Stop? ==> e.appliedV == 0.0 && e.appliedOmega == 0.0)
            && (s.mode.Align? ==> e.appliedV == 0.0)
            && (!e.decision.Stop? ==>
                 && s.receivedSteady <= steady <= s.receivedSteady + t.budget
                 && s.candidateStamp <= now <= s.candidateStamp + t.candidateLease && now < s.candidateValidUntil
                 && s.obstacleStamp <= now <= s.obstacleStamp + t.obstacleLease
                 && s.egoStamp <= now <= s.egoStamp + t.egoLease
                 && s.frame == s.expectedFrame && s.clockEpoch == s.expectedClockEpoch
                 && s.localizationEpoch == s.expectedLocalizationEpoch
                 && s.mapVersion == s.expectedMapVersion && s.topologyVersion == s.expectedTopologyVersion
                 && s.leaseGeneration == s.expectedLeaseGeneration
                 && s.coverageValid && (Track(s) && Curved(s) ==> s.curvedCoverageValid)
                 && (s.mode.Align? ==> s.coverage360Valid))
  {
    MovesExactlyWhenAllowed(s, l, t, roots, now, steady);
    if !Evaluate(s, l, t, roots, now, steady).result.decision.Stop? {
      NoDefects(s, t, now);
    }
  }

  // --------------------------------------------------- when the robot may move

  /** The evidence defect a validation cause stands for. */
  predicate Defect(s: Snapshot, t: Timing, now: nat, x: Cause) {
    match x
    case StaleEgo => s.nowRos > now + t.clockSkew || !(s.egoStamp <= now <= s.egoStamp + t.egoLease)
    case StaleCandidate =>
      || !(s.candidateStamp <= now <= s.candidateStamp + t.candidateLease) || now >= s.candidateValidUntil
      || s.mapVersion != s.expectedMapVersion || s.topologyVersion != s.expectedTopologyVersion
    case StaleObstacles => !(s.obstacleStamp <= now <= s.obstacleStamp + t.obstacleLease)
    case TfUnavailable => s.frame != s.expectedFrame
    case EpochMismatch => s.clockEpoch != s.expectedClockEpoch || s.localizationEpoch != s.expectedLocalizationEpoch
    case LimitsInvalid => s.candidateV < 0.0 || s.egoSpeed < 0.0
    case OutsideCoverage => !s.coverageValid || (s.mode.Align? && !s.coverage360Valid)
    case OptionRevoked =>
      || (s.expectedOptionInstance != 0 && s.optionInstance != s.expectedOptionInstance)
      || s.leaseGeneration != s.expectedLeaseGeneration
    case _ => false
  }

  ghost predicate Distinct(causes: seq<Cause>) {
    forall i, j :: 0 <= i < j < |causes| ==> causes[i] != causes[j]
  }

  lemma AddIfIs(causes: seq<Cause>, c: bool, cause: Cause, x: Cause) returns (after: seq<Cause>)
    requires Distinct(causes)
    ensures after == AddIf(causes, c, cause) && Distinct(after)
    ensures x in after <==> x in causes || (c && x == cause)
  {
    after := AddIf(causes, c, cause);
    if c && cause !in causes { assert after == causes + [cause] && after[|causes|] == cause; }
  }

  lemma TimeCausesAre(s: Snapshot, t: Timing, now: nat, x: Cause)
    ensures x in TimeCauses(s, t, now) <==>
      || (x == StaleEgo && (s.nowRos > now + t.clockSkew || !(s.egoStamp <= now <= s.egoStamp + t.egoLease)))
      || (x == StaleCandidate && (!(s.candidateStamp <= now <= s.candidateStamp + t.candidateLease)
                                  || now >= s.candidateValidUntil))
      || (x == StaleObstacles && !(s.obstacleStamp <= now <= s.obstacleStamp + t.obstacleLease))
    ensures Distinct(TimeCauses(s, t, now))
  {
    assert Distinct([]);
    hide AddIf, Distinct;
    var c := AddIfIs([], s.nowRos > now + t.clockSkew, StaleEgo, x);
    c := AddIfIs(c, s.candidateStamp > now || now - s.candidateStamp > t.candidateLease
                    || now >= s.candidateValidUntil, StaleCandidate, x);
    c := AddIfIs(c, s.obstacleStamp > now || now - s.obstacleStamp > t.obstacleLease, StaleObstacles, x);
    c := AddIfIs(c, s.egoStamp > now || now - s.egoStamp > t.egoLease, StaleEgo, x);
  }

  lemma ContextCausesAre(before: seq<Cause>, s: Snapshot, x: Cause)
    requires Distinct(before)
    ensures x in ContextCauses(before, s) <==>
      || x in before
      || (x == TfUnavailable && s.frame != s.expectedFrame)
      || (x == EpochMismatch && (s.clockEpoch != s.expectedClockEpoch
                                 || s.localizationEpoch != s.expectedLocalizationEpoch))
      || (x == LimitsInvalid && (s.candidateV < 0.0 || s.egoSpeed < 0.0))
      || (x == OutsideCoverage && (!s.coverageValid || (s.mode.Align? && !s.coverage360Valid)))
    ensures Distinct(ContextCauses(before, s))
  {
    hide AddIf, Distinct;
    var c := AddIfIs(before, s.frame != s.expectedFrame, TfUnavailable, x);
    c := AddIfIs(c, s.clockEpoch != s.expectedClockEpoch, EpochMismatch, x);
    c := AddIfIs(c, s.localizationEpoch != s.expectedLocalizationEpoch, EpochMismatch, x);
    c := AddIfIs(c, s.candidateV < 0.0 || s.egoSpeed < 0.0, LimitsInvalid, x);
    c := AddIfIs(c, !s.coverageValid, OutsideCoverage, x);
    c := AddIfIs(c, s.mode.Align? && !s.coverage360Valid, OutsideCoverage, x);
  }

  lemma AuthorityCausesAre(before: seq<Cause>, s: Snapshot, x: Cause)
    requires Distinct(before)
    ensures x in AuthorityCauses(before, s) <==>
      || x in before
      || (x == OptionRevoked && ((s.expectedOptionInstance != 0 && s.optionInstance != s.expectedOptionInstance)
                                 || s.leaseGeneration != s.expectedLeaseGeneration))
      || (x == StaleCandidate && (s.mapVersion != s.expectedMapVersion
                                  || s.topologyVersion != s.expectedTopologyVersion))
    ensures Distinct(AuthorityCauses(before, s))
  {
    hide AddIf, Distinct;
    var c := AddIfIs(before, s.expectedOptionInstance != 0 && s.optionInstance != s.expectedOptionInstance,
                     OptionRevoked, x);
    c := AddIfIs(c, s.leaseGeneration != s.expectedLeaseGeneration, OptionRevoked, x);
    c := AddIfIs(c, s.mapVersion != s.expectedMapVersion || s.topologyVersion != s.expectedTopologyVersion,
                 StaleCandidate, x);
  }

  /** Validation reports every defect of the evidence exactly once and nothing else. */
  lemma CausesAreDefects(s: Snapshot, t: Timing, now: nat, x: Cause)
    ensures x in ValidationCauses(s, t, now) <==> Defect(s, t, now, x)
    ensures Distinct(ValidationCauses(s, t, now))
  {
    hide TimeCauses, ContextCauses, AuthorityCauses, Distinct;
    var early := TimeCauses(s, t, now);
    var middle := ContextCauses(early, s);
    TimeCausesAre(s, t, now, x);
    ContextCausesAre(early, s, x);
    AuthorityCausesAre(middle, s, x);
  }

  /** Processed within budget and free of every defect. */
  ghost predicate Current(s: Snapshot, t: Timing, now: nat, steady: nat) {
    s.receivedSteady <= steady <= s.receivedSteady + t.budget && forall x :: !Defect(s, t, now, x)
  }

  /** What a track command needs besides current evidence: the robot itself can
      stop, curves are certified, moving and limited, straight ones within limits. */
  ghost predicate Drivable(s: Snapshot, l: Limits)
    requires ValidLimits(l)
  {
    && Stopping(s.egoSpeed, l) <= Effective(Checked(s), l.clearanceMargin)
    && (if Curved(s) then s.candidateV > 0.0 && l.lateralAccelerationMax > 0.0 && s.curvedCoverageValid
        else WheelRatesWithinLimits(s.candidateV, s.candidateOmega, l.separation, l.wheelRadius, l.maxWheelRate))
  }

  /** What a turn in place needs: rest, a complete rotation profile, clearance all
      around, and a command within yaw, wheel and acceleration limits. */
  ghost predicate Turnable(s: Snapshot, l: Limits)
    requires ValidLimits(l)
  {
    && s.candidateV == 0.0 && Abs(s.egoSpeed) <= l.restTolerance
    && l.rotationRadius > 0.0 && l.rotationMargin > 0.0 && l.restTolerance > 0.0
    && l.angularAccelerationMax > 0.0 && s.controlPeriod > 0.0
    && s.freeDistance360 >= l.rotationRadius + s.positionErrorBound + l.rotationMargin
    && Abs(s.candidateOmega) <= l.yawRateMax
    && (l.alignYawRateMax > 0.0 ==> Abs(s.candidateOmega) <= l.alignYawRateMax)
    && WheelRatesWithinLimits(0.0, s.candidateOmega, l.separation, l.wheelRadius, l.maxWheelRate)
    && Abs(s.candidateOmega - s.egoAngularVelocity) <= l.angularAccelerationMax * s.controlPeriod + TOLERANCE
  }

  lemma NoCausesIffCurrent(s: Snapshot, t: Timing, now: nat)
    ensures ValidationCauses(s, t, now) == [] <==> forall x :: !Defect(s, t, now, x)
  {
    forall x ensures x in ValidationCauses(s, t, now) <==> Defect(s, t, now, x) { CausesAreDefects(s, t, now, x); }
    var causes := ValidationCauses(s, t, now);
    hide ValidationCauses, Defect;
    if causes != [] { assert causes[0] in causes; }
  }

  /** The supervisor stops exactly when it must: a command is let through if and
      only if the evidence is current and the motion is drivable or turnable. */
  lemma MovesExactlyWhenAllowed(s: Snapshot, l: Limits, t: Timing, roots: Roots, now: nat, steady: nat)
    requires ValidLimits(l)
    ensures Evaluate(s, l, t, roots, now, steady).Evaluated?
    ensures !Evaluate(s, l, t, roots, now, steady).result.decision.Stop? <==>
              Current(s, t, now, steady) && if Track(s) then Drivable(s, l) else Turnable(s, l)
    ensures s.mode.Align? && !Evaluate(s, l, t, roots, now, steady).result.decision.Stop? ==>
              Evaluate(s, l, t, roots, now, steady).result ==
              Evaluation(Admit, [NoCause], 0.0, s.candidateOmega, s.freeDistance360, 0.0)
  {
    EvaluateTotal(s, l, t, roots, now, steady);
    NoCausesIffCurrent(s, t, now);
    hide ValidationCauses, WheelRatesWithinLimits, Stopping, SafeSpeed, Defect;
    if Current(s, t, now, steady) { NoDefects(s, t, now); }
  }

  lemma NoDefects(s: Snapshot, t: Timing, now: nat)
    requires forall x :: !Defect(s, t, now, x)
    ensures s.candidateV >= 0.0 && s.egoSpeed >= 0.0 && (s.mode.Align? ==> s.coverage360Valid)
    ensures s.candidateStamp <= now <= s.candidateStamp + t.candidateLease && now < s.candidateValidUntil
    ensures s.obstacleStamp <= now <= s.obstacleStamp + t.obstacleLease
    ensures s.egoStamp <= now <= s.egoStamp + t.egoLease
    ensures s.frame == s.expectedFrame && s.clockEpoch == s.expectedClockEpoch
    ensures s.localizationEpoch == s.expectedLocalizationEpoch && s.coverageValid
    ensures s.mapVersion == s.expectedMapVersion && s.topologyVersion == s.expectedTopologyVersion
    ensures s.leaseGeneration == s.expectedLeaseGeneration
  {
    assert !Defect(s, t, now, LimitsInvalid) && !Defect(s, t, now, OutsideCoverage) && !Defect(s, t, now, StaleEgo);
    assert !Defect(s, t, now, StaleCandidate) && !Defect(s, t, now, StaleObstacles)
        && !Defect(s, t, now, TfUnavailable);
    assert !Defect(s, t, now, EpochMismatch) && !Defect(s, t, now, OptionRevoked);
  }

  // ------------------------------------------------------- why it stops

  /** What a straight or curved track command itself must be. */
  ghost predicate Commandable(s: Snapshot, l: Limits)
    requires ValidLimits(l)
  {
    if Curved(s) then s.candidateV > 0.0 && l.lateralAccelerationMax > 0.0
    else WheelRatesWithinLimits(s.candidateV, s.candidateOmega, l.separation, l.wheelRadius, l.maxWheelRate)
  }

  /** The first thing that forbids a track command on current evidence. */
  ghost predicate TrackStops(s: Snapshot, l: Limits, cause: Cause)
    requires ValidLimits(l)
  {
    match cause
    case LimitsInvalid => !Commandable(s, l)
    case CurvedPathUncertified => Commandable(s, l) && Curved(s) && !s.curvedCoverageValid
    case BrakingInfeasible =>
      && Commandable(s, l) && (Curved(s) ==> s.curvedCoverageValid)
      && Stopping(s.egoSpeed, l) > Effective(Checked(s), l.clearanceMargin)
    case _ => false
  }

  ghost predicate AtRest(s: Snapshot, l: Limits) { s.candidateV == 0.0 && Abs(s.egoSpeed) <= l.restTolerance }

  ghost predicate RotationProfile(s: Snapshot, l: Limits) {
    && l.rotationRadius > 0.0 && l.rotationMargin > 0.0 && l.restTolerance > 0.0
    && l.angularAccelerationMax > 0.0 && s.controlPeriod > 0.0
  }

  ghost predicate RotationClear(s: Snapshot, l: Limits) {
    s.freeDistance360 >= l.rotationRadius + s.positionErrorBound + l.rotationMargin
  }

  ghost predicate YawAllowed(s: Snapshot, l: Limits)
    requires ValidLimits(l)
  {
    && Abs(s.candidateOmega) <= l.yawRateMax
    && (l.alignYawRateMax > 0.0 ==> Abs(s.candidateOmega) <= l.alignYawRateMax)
    && WheelRatesWithinLimits(0.0, s.candidateOmega, l.separation, l.wheelRadius, l.maxWheelRate)
  }

  /** The first thing that forbids a turn in place on current evidence. */
  ghost predicate AlignStops(s: Snapshot, l: Limits, cause: Cause)
    requires ValidLimits(l)
  {
    match cause
    case WaitingLinearRest => s.candidateV == 0.0 && !AtRest(s, l)
    case RotationProfileInvalid => AtRest(s, l) && !RotationProfile(s, l)
    case RotationClearanceInsufficient => AtRest(s, l) && RotationProfile(s, l) && !RotationClear(s, l)
    case LimitsInvalid =>
      s.candidateV != 0.0 || (AtRest(s, l) && RotationProfile(s, l) && RotationClear(s, l) && !YawAllowed(s, l))
    case AngularAccelerationExceeded =>
      && AtRest(s, l) && RotationProfile(s, l) && RotationClear(s, l) && YawAllowed(s, l)
      && Abs(s.candidateOmega - s.egoAngularVelocity) > l.angularAccelerationMax * s.controlPeriod + TOLERANCE
    case _ => false
  }

  lemma TrackStopCause(s: Snapshot, l: Limits, roots: Roots, required: real, cause: Cause)
    requires ValidLimits(l) && s.candidateV >= 0.0 && s.egoSpeed >= 0.0 && required == Stopping(s.egoSpeed, l)
    requires EvaluateTrack(s, l, roots, required).Evaluated?
    requires EvaluateTrack(s, l, roots, required).result.decision.Stop?
    ensures EvaluateTrack(s, l, roots, required).result.causes == [cause] <==> TrackStops(s, l, cause)
  {
    hide SafeSpeed, Stopping, WheelRatesWithinLimits;
    var e := EvaluateTrack(s, l, roots, required).result;
    assert |e.causes| == 1;
  }

  lemma AlignStopCause(s: Snapshot, l: Limits, cause: Cause)
    requires ValidLimits(l) && s.coverage360Valid && EvaluateAlign(s, l).decision.Stop?
    ensures EvaluateAlign(s, l).causes == [cause] <==> AlignStops(s, l, cause)
  {
    hide WheelRatesWithinLimits;
    assert |EvaluateAlign(s, l).causes| == 1;
  }

  /** Why a command is stopped: processing out of its budget, else the defects of the
      evidence, else the one first requirement of the mode that the command misses. */
  lemma StopsExactlyFor(s: Snapshot, l: Limits, t: Timing, roots: Roots, now: nat, steady: nat, cause: Cause)
    requires ValidLimits(l) && Evaluate(s, l, t, roots, now, steady).Evaluated?
    requires Evaluate(s, l, t, roots, now, steady).result.decision.Stop?
    ensures var e := Evaluate(s, l, t, roots, now, steady).result;
            if !(s.receivedSteady <= steady <= s.receivedSteady + t.budget) then e.causes == [ComputeOverrun]
            else if exists x :: Defect(s, t, now, x) then
              Distinct(e.causes) && (cause in e.causes <==> Defect(s, t, now, cause))
            else e.causes == [cause] <==> if Track(s) then TrackStops(s, l, cause) else AlignStops(s, l, cause)
  {
    NoCausesIffCurrent(s, t, now);
    CausesAreDefects(s, t, now, cause);
    hide ValidationCauses, Defect, Stopping, EvaluateTrack, EvaluateAlign, TrackStops, AlignStops, Distinct;
    if s.receivedSteady <= steady <= s.receivedSteady + t.budget && forall x :: !Defect(s, t, now, x) {
      NoDefects(s, t, now);
      if Track(s) { TrackStopCause(s, l, roots, Stopping(s.egoSpeed, l), cause); } else { AlignStopCause(s, l, cause); }
    }
  }

  /** The stopping distance of the robot as it moves, zero where its speed is invalid. */
  ghost function OwnStopping(s: Snapshot, l: Limits): real
    requires ValidLimits(l)
  {
    if s.egoSpeed >= 0.0 then Stopping(s.egoSpeed, l) else 0.0
  }

  /** What a stop reports: the clearance that was looked at, and the distance the robot
      itself needs, none for a turn in place. */
  lemma StopReports(s: Snapshot, l: Limits, t: Timing, roots: Roots, now: nat, steady: nat)
    requires ValidLimits(l) && Evaluate(s, l, t, roots, now, steady).Evaluated?
    requires Evaluate(s, l, t, roots, now, steady).result.decision.Stop?
    ensures var e := Evaluate(s, l, t, roots, now, steady).result;
            if !(s.receivedSteady <= steady <= s.receivedSteady + t.budget) || exists x :: Defect(s, t, now, x) then
              e.checkedClearance == s.freeDistance && e.required == OwnStopping(s, l)
            else if s.mode.Align? then e.checkedClearance == s.freeDistance360 && e.required == 0.0
            else
              && e.required == OwnStopping(s, l)
              && e.checkedClearance == if TrackStops(s, l, LimitsInvalid) then s.freeDistance else Checked(s)
  {
    NoCausesIffCurrent(s, t, now);
    hide ValidationCauses, Defect, Stopping, WheelRatesWithinLimits, SafeSpeed;
    if s.receivedSteady <= steady <= s.receivedSteady + t.budget && forall x :: !Defect(s, t, now, x) {
      NoDefects(s, t, now);
    }
  }

  /** What a command let through reports: ADMIT means it is applied as proposed, LIMIT that
      a track command was slowed down, and the clearance reported is the one looked at. */
  lemma PassReports(s: Snapshot, l: Limits, t: Timing, roots: Roots, now: nat, steady: nat)
    requires ValidLimits(l) && Evaluate(s, l, t, roots, now, steady).Evaluated?
    requires !Evaluate(s, l, t, roots, now, steady).result.decision.Stop?
    ensures var e := Evaluate(s, l, t, roots, now, steady).result;
            && (e.decision.Admit? <==> e.appliedV == s.candidateV)
            && (e.decision.Admit? ==> e.causes == [NoCause] && e.appliedOmega == s.candidateOmega)
            && (e.decision.Limit? ==> e.causes == [CommandLimited] && Track(s) && e.appliedV < s.candidateV)
            && (s.mode.Align? ==> e.checkedClearance == s.freeDistance360 && e.required == 0.0)
            && (Track(s) ==> e.checkedClearance == Checked(s) && e.required == Stopping(e.appliedV, l))
  {
    hide ValidationCauses, Stopping, WheelRatesWithinLimits, SafeSpeed;
  }
}
