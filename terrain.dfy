/**
 * The graph engine's numeric formulas: aspect octants, the terrain ignition
 * threshold and the edge-weight formula. Transcendental functions are the
 * collaborators in `Numerics`; only the arithmetic around them, their
 * branches and their clamps are modelled.
 */
module Terrain {

  /** The floating-point library the formulas call, left uninterpreted. */
  datatype Numerics = Numerics(
    sqrt: real -> real,
    cos: real -> real,
    tan: real -> real,
    atan: real -> real,
    ln: real -> real,
    exp: real -> real)

  /** The collaborator promises the models rely on: a square root is never
      negative and the natural logarithm of a number of at least 1 is not
      negative. */
  ghost predicate WellBehaved(num: Numerics)
  {
    (forall x :: num.sqrt(x) >= 0.0) &&
    (forall x :: x >= 1.0 ==> num.ln(x) >= 0.0)
  }

  const Pi: real := 3.141592653589793
  const ThetaFactor: real := 0.2

  function Max(x: real, y: real): real { if x >= y then x else y }
  function Min(x: real, y: real): real { if x <= y then x else y }

  datatype Octant = N | NE | E | SE | S | SW | W | NW

  /** The compass bearing at the middle of an octant. */
  function OctantCentre(o: Octant): real
  {
    match o
    case N => 0.0
    case NE => 45.0
    case E => 90.0
    case SE => 135.0
    case S => 180.0
    case SW => 225.0
    case W => 270.0
    case NW => 315.0
  }

  /** get_direction: the octant of an aspect given in degrees. N covers the
      wrap-around and every value outside [22.5, 337.5); each other octant
      is the 45-degree window around its centre. */
  function GetDirection(a: real): (o: Octant)
    ensures o == N <==> (a < 22.5 || a >= 337.5)
    ensures o != N ==> OctantCentre(o) - 22.5 <= a < OctantCentre(o) + 22.5
  {
    if a < 22.5 || a >= 337.5 then N
    else if a < 67.5 then NE
    else if a < 112.5 then E
    else if a < 157.5 then SE
    else if a < 202.5 then S
    else if a < 247.5 then SW
    else if a < 292.5 then W
    else NW
  }

  /** The octant windows do not overlap: an angle inside the window of a
      non-N octant is classified as exactly that octant. */
  lemma GetDirectionUnique(a: real, o: Octant)
    requires o != N
    requires OctantCentre(o) - 22.5 <= a < OctantCentre(o) + 22.5
    ensures GetDirection(a) == o
  {
    var r := GetDirection(a);
    if r != N {
      assert OctantCentre(r) - 22.5 <= a < OctantCentre(r) + 22.5;
    }
  }

  /** The per-octant slope-effect coefficient table (aspect_dict). */
  function AspectCoefficient(o: Octant): real
  {
    match o
    case N => -0.063
    case NE => 0.349
    case E => 0.686
    case SE => 0.557
    case S => 0.039
    case SW => -0.155
    case W => -0.252
    case NW => -0.171
  }

  /** A value that is a whole number of hundredths. */
  predicate IsHundredths(x: real)
  {
    (x * 100.0).Floor as real == x * 100.0
  }

  /** round(x, 2), rounding halves upward. */
  function Round2(x: real): (r: real)
    ensures IsHundredths(r)
    ensures x - 0.005 < r <= x + 0.005
    ensures x >= 0.01 ==> r >= 0.01
  {
    var k := (x * 100.0 + 0.5).Floor;
    assert (k as real / 100.0) * 100.0 == k as real;
    k as real / 100.0
  }

  /** node_threshold: the ignition threshold of a cell from its slope,
      elevation and aspect, scaled by THETA_FACTOR and rounded. */
  function NodeThreshold(num: Numerics, slope: real, elevation: real,
                         eleMin: real, eleMax: real, aspect: real): (theta: real)
    requires WellBehaved(num)
    ensures IsHundredths(theta)
  {
    var phi := num.tan(slope * Pi / 180.0);
    var phiS := 5.275 * (phi * phi);
    var h := if eleMax > eleMin then (elevation - eleMin) / (eleMax - eleMin) * 2300.0 else 0.0;
    var hPrime := h * num.exp(-6.0);
    var xi := 1.0 / (1.0 + num.ln(Max(hPrime, 1.0)));
    var alpha := AspectCoefficient(GetDirection(aspect));
    var t := -num.atan(phiS * xi * alpha) / Pi + 0.5;
    Round2(t * ThetaFactor)
  }

  /** The coefficient applied to the wind speed: 1 for edge strengths 0 and 1,
      the baseline eps otherwise. */
  function StrengthCoefficient(edgeStrength: int, eps: real): real
  {
    if edgeStrength == 0 || edgeStrength == 1 then 1.0 else eps
  }

  /** edge_weight: the wind-driven propagation weight of an edge. `u` is the
      uniform(0.01, 1) draw scaling the maximum wind speed. A zero distance
      gives 0.01; otherwise the weight is clamped below at 0.01 before
      rounding, so it is never below 0.01. */
  function EdgeWeight(num: Numerics, maxSpeed: real, eps: real, edgeStrength: int,
                      windDirection: real, distance: real, u: real): (beta: real)
    ensures distance == 0.0 ==> beta == 0.01
    ensures beta >= 0.01
    ensures IsHundredths(beta)
  {
    var gamma := u * maxSpeed * StrengthCoefficient(edgeStrength, eps);
    var tau := windDirection * Pi / 180.0;
    if distance == 0.0 then
      assert 0.01 * 100.0 == 1.0;
      0.01
    else Round2(Max(2.0 / Pi * num.atan(gamma * num.cos(tau) / distance), 0.01))
  }

  /** get_angle: the bearing in degrees from one position to another. A
      vertical pair gives 90 upward and 270 downward. */
  function GetAngle(num: Numerics, p1: (real, real), p2: (real, real)): (angle: real)
    ensures p1.0 == p2.0 ==> (angle == 90.0 <==> p2.1 > p1.1)
    ensures p1.0 == p2.0 ==> (angle == 270.0 <==> p2.1 <= p1.1)
  {
    if p1.0 == p2.0 then (if p2.1 > p1.1 then 90.0 else 270.0)
    else
      var angle := num.atan((p2.1 - p1.1) / (p2.0 - p1.0)) * 180.0 / Pi;
      if p2.0 < p1.0 then angle + 180.0 else angle
  }

  /** The squared Euclidean distance between two positions. */
  function SquaredDistance(p1: (real, real), p2: (real, real)): real
  {
    (p2.0 - p1.0) * (p2.0 - p1.0) + (p2.1 - p1.1) * (p2.1 - p1.1)
  }

  /** dist: the scaled Euclidean distance. */
  function Dist(num: Numerics, p1: (real, real), p2: (real, real), distScale: real): real
  {
    num.sqrt(SquaredDistance(p1, p2)) * distScale
  }
}
