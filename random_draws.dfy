/**
 * The game's uses of random.random(). Every draw is an explicit real in
 * [0, 1), and the functions below turn it into the integer the game uses.
 */
module RandomDraws {

  /** Python's int() on a real: truncation toward zero. */
  function Trunc(x: real): (n: int)
    ensures x >= 0.0 ==> n as real <= x < n as real + 1.0
    ensures x < 0.0 ==> n as real - 1.0 < x <= n as real
  {
    if x >= 0.0 then x.Floor else -((-x).Floor)
  }

  /**
   * rand_gosub_800: a die with faces 1..5. Face c comes up exactly when
   * the draw lies in [(c-1)/5, c/5), so every face has the same chance.
   */
  function RandGosub(r: real): (c: int)
    requires 0.0 <= r < 1.0
    ensures 1 <= c <= 5
    ensures (c - 1) as real <= 5.0 * r < c as real
  {
    Trunc(r * 5.0) + 1
  }

  /** The price of land for the year: one of 17..26 bushels per acre. */
  function LandValue(r: real): (v: int)
    requires 0.0 <= r < 1.0
    ensures 17 <= v <= 26
    ensures (v - 17) as real <= 10.0 * r < (v - 16) as real
  {
    Trunc(10.0 * r) + 17
  }

  /**
   * The plague signal drawn at the end of each year. The city is struck
   * the next year when the signal is at most 0, which happens exactly when
   * the draw is below 1/5.
   */
  function PlagueSignal(r: real): (q: int)
    requires 0.0 <= r < 1.0
    ensures -3 <= q <= 16
    ensures q <= 0 <==> r < 0.2
  {
    Trunc(10.0 * (2.0 * r - 0.3))
  }
}
