/**
 * Definitions shared by both builds of the Kerberos v4 lifetime codec:
 * the "never expires" lifetime code, the end time it stands for, the
 * length of one lifetime interval, and the conversion of an `int` to an
 * `unsigned char` that both decoders apply to the lifetime first.
 */
module Krb4 {

  /** The lifetime code for a ticket that never expires (TKTLIFENOEXPIRE). */
  const TktLifeNoExpire: int := 0xFF

  /** The end time of a ticket that never expires: `(time_t) -1`. */
  const NeverDate: int := -1

  /** A short lifetime code counts intervals of five minutes. */
  const IntervalSeconds: int := 5 * 60

  /** Conversion of an `int` to `unsigned char`: reduction modulo 256. */
  function ToUnsignedChar(x: int): (r: int)
    ensures 0 <= r < 256
    ensures 0 <= x < 256 ==> r == x
    ensures (x - r) % 256 == 0
  {
    x % 256
  }

  /** Values that differ by a multiple of 256 become the same `unsigned char`. */
  lemma {:induction false} ToUnsignedCharPeriodic(x: int, k: int)
    ensures ToUnsignedChar(x + 256 * k) == ToUnsignedChar(x)
    decreases if k < 0 then -k else k
  {
    if k > 0 {
      ToUnsignedCharPeriodic(x, k - 1);
      assert x + 256 * k == (x + 256 * (k - 1)) + 256;
    } else if k < 0 {
      ToUnsignedCharPeriodic(x, k + 1);
      assert x + 256 * k == (x + 256 * (k + 1)) - 256;
    }
  }
}
