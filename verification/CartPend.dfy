// The cart with a pendulum: the derivatives that the simulation block computes, the
// equations of motion they solve, and the energy they conserve up to friction. The sine and
// cosine of the angle are parameters on the unit circle.

module CartPendulum {
  const BOB := 1.0        // mass of the pendulum
  const CART := 5.0       // mass of the cart
  const ARM := 2.0        // length of the arm
  const GRAVITY := -10.0
  const FRICTION := 1.0   // of the cart

  /** Position and velocity of the cart, angle and angular velocity of the arm. */
  datatype State = State(x: real, v: real, angle: real, omega: real)

  /** The rates of change of a state. */
  datatype Rates = Rates(dx: real, dv: real, dangle: real, domega: real)

  predicate OnCircle(S: real, C: real) { S * S + C * C == 1.0 }

  function Denominator(C: real): real { BOB * ARM * ARM * (CART + BOB * (1.0 - C * C)) }

  lemma SquareIsPositive(x: real)
    ensures x * x >= 0.0
  {
  }

  /** The coded quotient never divides by zero. */
  lemma DenominatorIsPositive(S: real, C: real)
    requires OnCircle(S, C)
    ensures Denominator(C) > 0.0
  {
    SquareIsPositive(S);
    assert 1.0 - C * C == S * S;
  }

  function Derivatives(s: State, u: real, S: real, C: real): Rates
    requires OnCircle(S, C)
  {
    DenominatorIsPositive(S, C);
    var q := 1.0 / (BOB * ARM * ARM * (CART + BOB * (1.0 - C * C)));
    Rates(
      s.v,
      q * (-1.0 * BOB * BOB * ARM * ARM * GRAVITY * C * S
           + BOB * ARM * ARM * (BOB * ARM * s.omega * s.omega * S - FRICTION * s.v))
      + BOB * ARM * ARM * q * u,
      s.omega,
      q * ((BOB + CART) * BOB * GRAVITY * ARM * S
           - BOB * ARM * C * (BOB * ARM * s.omega * s.omega * S - FRICTION * s.v))
      - BOB * ARM * C * q * u)
  }

  /** The forces along the cart balance. */
  predicate CartEquation(s: State, u: real, S: real, C: real, dv: real, domega: real) {
    (CART + BOB) * dv + BOB * ARM * C * domega - BOB * ARM * s.omega * s.omega * S == u - FRICTION * s.v
  }

  /** The torques about the pivot balance. */
  predicate PendulumEquation(S: real, C: real, dv: real, domega: real) {
    ARM * domega + C * dv == GRAVITY * S
  }

  /** The coded accelerations satisfy both equations of motion. */
  lemma AccelerationsSolve(s: State, u: real, S: real, C: real)
    requires OnCircle(S, C)
    ensures var r := Derivatives(s, u, S, C);
      CartEquation(s, u, S, C, r.dv, r.domega) && PendulumEquation(S, C, r.dv, r.domega)
  {
  }

  /** And they are the only ones that do. */
  lemma AccelerationsAreUnique(s: State, u: real, S: real, C: real, dv: real, domega: real)
    requires OnCircle(S, C)
    requires CartEquation(s, u, S, C, dv, domega) && PendulumEquation(S, C, dv, domega)
    ensures dv == Derivatives(s, u, S, C).dv && domega == Derivatives(s, u, S, C).domega
  {
    AccelerationsSolve(s, u, S, C);
  }

  /** The equations in the numbers of the block. */
  lemma InNumbers(s: State, u: real, S: real, C: real)
    requires OnCircle(S, C)
    ensures var r := Derivatives(s, u, S, C);
      && r.dx == s.v && r.dangle == s.omega
      && 6.0 * r.dv + 2.0 * C * r.domega - 2.0 * s.omega * s.omega * S == u - s.v
      && 2.0 * r.domega + C * r.dv == -10.0 * S
  {
    AccelerationsSolve(s, u, S, C);
  }

  // ---------- Energy ----------

  /** The kinetic energy of cart and pendulum and the potential energy of the pendulum. */
  function Energy(v: real, omega: real, C: real): real {
    (CART + BOB) * v * v / 2.0 + BOB * ARM * C * v * omega + BOB * ARM * ARM * omega * omega / 2.0
    + BOB * GRAVITY * ARM * C
  }

  /** The rate at which the energy changes when velocity, angular velocity and cosine change
      at the given rates. */
  function EnergyRate(v: real, omega: real, C: real, dv: real, domega: real, dC: real): real {
    (CART + BOB) * v * dv + BOB * ARM * (dC * v * omega + C * dv * omega + C * v * domega)
    + BOB * ARM * ARM * omega * domega + BOB * GRAVITY * ARM * dC
  }

  /** What a step of length h leaves over, beyond the rate times h. */
  function Remainder(v: real, omega: real, C: real, dv: real, domega: real, dC: real, h: real): real {
    3.0 * (dv * dv) + 2.0 * (C * (dv * domega) + dC * (v * domega) + dC * (dv * omega)) + 2.0 * (domega * domega)
    + h * (2.0 * (dC * (dv * domega)))
  }

  /** EnergyRate is the derivative: over a step of length h the energy changes by h times the
      rate, up to a polynomial times h squared. */
  lemma RateIsDerivative(v: real, omega: real, C: real, dv: real, domega: real, dC: real, h: real)
    ensures Energy(v + h * dv, omega + h * domega, C + h * dC) ==
      Energy(v, omega, C) + h * EnergyRate(v, omega, C, dv, domega, dC)
      + h * h * Remainder(v, omega, C, dv, domega, dC, h)
  {
  }

  /** The rate of change of the energy along the coded motion: the cosine of the angle
      changes at the rate -S times the angular velocity. */
  function Power(s: State, u: real, S: real, C: real): real
    requires OnCircle(S, C)
  {
    var r := Derivatives(s, u, S, C);
    EnergyRate(r.dx, r.dangle, C, r.dv, r.domega, -S * r.dangle)
  }

  /** Power balance: energy is only supplied by the input and lost to friction. */
  lemma PowerBalance(s: State, u: real, S: real, C: real)
    requires OnCircle(S, C)
    ensures Power(s, u, S, C) == u * s.v - FRICTION * s.v * s.v
  {
    AccelerationsSolve(s, u, S, C);
  }

  /** Without input the energy never grows. */
  lemma EnergyNeverGrows(s: State, S: real, C: real)
    requires OnCircle(S, C)
    ensures Power(s, 0.0, S, C) <= 0.0
  {
    hide Power;
    PowerBalance(s, 0.0, S, C);
    SquareIsPositive(s.v);
  }
}
