/** The velocity clamp applied before any division by a velocity component.
    The components arrive as reals (`v * cos(theta)`, `v * sin(theta)` in the
    application); trigonometry is not part of this model. */
module Velocity {
  import opened Fold

  /** A component whose magnitude is below `eps` is replaced by `+eps`,
      whatever its sign; any other component is kept. */
  function Clamp(c: real, eps: real): (r: real)
    requires eps > 0.0
    ensures r != 0.0
    ensures Abs(r) >= eps
    ensures Abs(c) >= eps ==> r == c
    ensures Abs(c) < eps ==> r == eps
    ensures r > 0.0 || r == c
  {
    if Abs(c) < eps then eps else c
  }

  /** Both components of the clamped velocity `(vx, vy)`. */
  function ClampVelocity(vx: real, vy: real, eps: real): (r: (real, real))
    requires eps > 0.0
    ensures r.0 != 0.0 && r.1 != 0.0
    ensures Abs(r.0) >= eps && Abs(r.1) >= eps
    ensures Abs(vx) >= eps && Abs(vy) >= eps ==> r == (vx, vy)
  {
    (Clamp(vx, eps), Clamp(vy, eps))
  }

  /** The clamp does not keep the sign: a small negative component becomes `+eps`,
      so the clamped velocity then points the other way along that axis. */
  lemma ClampFlipsSmallNegative(c: real, eps: real)
    requires eps > 0.0 && -eps < c < 0.0
    ensures Clamp(c, eps) == eps
    ensures Clamp(c, eps) > 0.0 > c
  {}
}
