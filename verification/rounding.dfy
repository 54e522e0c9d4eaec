/**
 * The rounding policies of the loan engines, on exact reals.
 *
 * - `BankersRound` is `bankersRound(value, 2)` of the client-side schedule:
 *   scale to cents, round to the nearest cent, and send an exact half cent to
 *   the even cent.
 * - `Round2` is the server's `Math.round(x * 100) / 100`; `Math.round` is
 *   `floor(x + 0.5)`, so an exact half cent goes up (towards +infinity).
 */
module Rounding {

  /** A whole number of cents. */
  predicate IsCents(x: real) {
    (x * 100.0).Floor as real == x * 100.0
  }

  /** The cent count of a cent-valued amount. */
  function Cents(x: real): int {
    (x * 100.0).Floor
  }

  /** The amount worth `c` cents. */
  function FromCents(c: int): (r: real)
    ensures IsCents(r) && Cents(r) == c
  {
    c as real / 100.0
  }

  /** The cent count chosen by banker's rounding: `Math.ceil(n)` when the
      fraction of `n = value * 100` exceeds one half, `Math.floor(n)` when it is
      below one half, and on an exact half whichever of the two is even. */
  function BankersCents(value: real): int {
    var n := value * 100.0;
    var f := n.Floor;
    var r := n - f as real;
    if r > 0.5 then f + 1
    else if r < 0.5 then f
    else if f % 2 == 0 then f
    else f + 1
  }

  /** `bankersRound(value, 2)`: the nearest cent, ties to the even cent. */
  function BankersRound(value: real): (r: real)
    ensures IsCents(r)
    ensures -0.005 <= r - value <= 0.005
    // strictly nearer than half a cent, unless the value sits exactly on a half cent
    ensures (value * 100.0 - (value * 100.0).Floor as real != 0.5) ==> -0.005 < r - value < 0.005
    // on an exact half cent, the even neighbour
    ensures (value * 100.0 - (value * 100.0).Floor as real == 0.5) ==> Cents(r) % 2 == 0
  {
    FromCents(BankersCents(value))
  }

  /** `Math.round(x * 100) / 100`: the nearest cent, ties towards +infinity. */
  function Round2(x: real): (r: real)
    ensures IsCents(r)
    ensures -0.005 < r - x <= 0.005
  {
    FromCents((x * 100.0 + 0.5).Floor)
  }

  /** `Math.max(0, x)`. */
  function Max0(x: real): (r: real)
    ensures r >= 0.0 && r >= x
    ensures r == x || r == 0.0
  {
    if x > 0.0 then x else 0.0
  }

  /** Banker's rounding leaves a cent-valued amount alone. */
  lemma BankersRoundOfCents(x: real)
    requires IsCents(x)
    ensures BankersRound(x) == x
  {
  }

  /** `Math.round` to cents leaves a cent-valued amount alone. */
  lemma Round2OfCents(x: real)
    requires IsCents(x)
    ensures Round2(x) == x
  {
    var c := Cents(x);
    assert x * 100.0 + 0.5 == c as real + 0.5;
    assert (x * 100.0 + 0.5).Floor == c;
  }

  /** Cent-valued amounts are closed under sums and differences. */
  lemma CentsArithmetic(a: real, b: real)
    requires IsCents(a) && IsCents(b)
    ensures IsCents(a + b) && IsCents(a - b)
  {
    var ca, cb := Cents(a), Cents(b);
    assert a == FromCents(ca) && b == FromCents(cb);
    assert a + b == FromCents(ca + cb);
    assert a - b == FromCents(ca - cb);
  }

  /** What is left after rounding to cents rounds back to zero: this is why the
      client schedule's last balance is exactly 0.00 whatever the principal. */
  lemma BankersResidueIsZero(v: real)
    ensures BankersRound(v - BankersRound(v)) == 0.0
  {
    var d := v - BankersRound(v);
    var n := d * 100.0;
    assert -0.5 <= n <= 0.5;
    if n == 0.5 {
      assert n.Floor == 0;
    } else if n == -0.5 {
      assert n.Floor == -1;
    } else if n >= 0.0 {
      assert n.Floor == 0;
    } else {
      assert n.Floor == -1;
    }
  }

  /** Rounding half up is monotone. */
  lemma Round2Monotone(x: real, y: real)
    requires x <= y
    ensures Round2(x) <= Round2(y)
  {
    assert (x * 100.0 + 0.5).Floor <= (y * 100.0 + 0.5).Floor;
  }

  /** Banker's rounding is monotone as well. */
  lemma BankersMonotone(x: real, y: real)
    requires x <= y
    ensures BankersRound(x) <= BankersRound(y)
  {
    var fx, fy := (x * 100.0).Floor, (y * 100.0).Floor;
    assert fx <= fy;
    if fx == fy {
      assert x * 100.0 - fx as real <= y * 100.0 - fy as real;
    }
  }
}
