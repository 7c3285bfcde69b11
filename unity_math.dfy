/**
 * The three `Mathf` helpers the interactive components use, on reals, as the
 * engine documents them:
 *   Clamp01(x)       x limited to [0, 1];
 *   Repeat(t, len)   t wrapped into [0, len], i.e. t - floor(t / len) * len;
 *   PingPong(t, len) t bounced between 0 and len.
 * Floating-point rounding is not modelled.
 */
module UnityMath {

  function Clamp01(x: real): (r: real)
    ensures 0.0 <= r <= 1.0
    ensures 0.0 <= x <= 1.0 ==> r == x
    ensures x < 0.0 ==> r == 0.0
    ensures x > 1.0 ==> r == 1.0
  {
    if x < 0.0 then 0.0 else if x > 1.0 then 1.0 else x
  }

  /** `Mathf.Repeat`: `t - floor(t / len) * len`, then clamped to `[0, len]`. */
  function Repeat(t: real, len: real): (r: real)
    requires len > 0.0
    ensures 0.0 <= r <= len
  {
    var k := (t / len).Floor;
    Clamp(t - k as real * len, 0.0, len)
  }

  function Clamp(x: real, lo: real, hi: real): real
    requires lo <= hi
  {
    if x < lo then lo else if x > hi then hi else x
  }

  /** `Mathf.PingPong`: `len - |Repeat(t, 2 * len) - len|`. */
  function PingPong(t: real, len: real): (r: real)
    requires len > 0.0
    ensures 0.0 <= r <= len
  {
    var d := Repeat(t, 2.0 * len) - len;
    len - (if d < 0.0 then -d else d)
  }

  /** With period 1, Repeat keeps only the fractional part: it lies in `[0, 1)`, is the identity there, and has period 1. */
  lemma RepeatUnit(t: real)
    ensures Repeat(t, 1.0) == t - t.Floor as real
    ensures 0.0 <= Repeat(t, 1.0) < 1.0
    ensures 0.0 <= t < 1.0 ==> Repeat(t, 1.0) == t
    ensures Repeat(t + 1.0, 1.0) == Repeat(t, 1.0)
  {
    assert t / 1.0 == t;
    assert (t + 1.0) / 1.0 == t + 1.0;
    assert (t + 1.0).Floor == t.Floor + 1;
  }

  /**
   * With length 1, PingPong climbs with `t` on `[0, 1]`, falls back on
   * `[1, 2)`, and has period 2.
   */
  lemma PingPongUnit(t: real)
    ensures 0.0 <= t <= 1.0 ==> PingPong(t, 1.0) == t
    ensures 1.0 <= t < 2.0 ==> PingPong(t, 1.0) == 2.0 - t
    ensures PingPong(t + 2.0, 1.0) == PingPong(t, 1.0)
  {
    assert (t + 2.0) / 2.0 == t / 2.0 + 1.0;
    assert ((t + 2.0) / 2.0).Floor == (t / 2.0).Floor + 1;
    if 0.0 <= t < 2.0 {
      assert (t / 2.0).Floor == 0;
    }
  }
}
