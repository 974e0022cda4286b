/**
 * The SHORT_LIFETIME build of the Kerberos v4 lifetime codec: every code
 * except 0xFF counts five-minute intervals, and 0xFF means that the
 * ticket never expires.
 */
module ShortLifetime {
  import opened Krb4

  /** The largest code that counts intervals (0xFE). */
  const MaxShortLife: int := 254

  /** krb_life_to_time: the end time of a ticket with lifetime `life` from `start`. */
  function LifeToTime(start: int, life: int): (end: int)
    ensures ToUnsignedChar(life) == TktLifeNoExpire ==> end == NeverDate
    ensures ToUnsignedChar(life) != TktLifeNoExpire ==>
      start <= end <= start + MaxShortLife * IntervalSeconds
  {
    var code := ToUnsignedChar(life);
    if code == TktLifeNoExpire then NeverDate else start + code * IntervalSeconds
  }

  /**
   * krb_time_to_life: 0xFF for the never-expiring end time, 0 for an
   * empty, negative or overlong lifetime, and otherwise the lifetime
   * rounded up to whole five-minute intervals.
   */
  function TimeToLife(start: int, end: int): (life: int)
    ensures 0 <= life <= TktLifeNoExpire
    ensures life == TktLifeNoExpire <==> end == NeverDate
    ensures life == 0 <==>
      end != NeverDate && (end - start <= 0 || end - start > MaxShortLife * IntervalSeconds)
    ensures end != NeverDate && 0 < end - start <= MaxShortLife * IntervalSeconds ==>
      && 1 <= life <= MaxShortLife
      && (life - 1) * IntervalSeconds < end - start <= life * IntervalSeconds
  {
    if end == NeverDate then TktLifeNoExpire
    else
      var lifetime := end - start;
      if lifetime > MaxShortLife * IntervalSeconds || lifetime <= 0 then 0
      else (lifetime + IntervalSeconds - 1) / IntervalSeconds
  }

  /** Decoding is `start + 300 * (life mod 256)`, except that 0xFF never expires. */
  lemma LifeToTimeCases(start: int, life: int)
    ensures life % 256 == TktLifeNoExpire ==> LifeToTime(start, life) == NeverDate
    ensures life % 256 != TktLifeNoExpire ==> LifeToTime(start, life) == start + 300 * (life % 256)
  {
  }

  /** Decoding reads its lifetime modulo 256. */
  lemma LifeToTimeWraps(start: int, life: int, k: int)
    ensures LifeToTime(start, life + 256 * k) == LifeToTime(start, life)
  {
    ToUnsignedCharPeriodic(life, k);
  }

  /**
   * Encoding rounds up: the code it picks decodes to an end time no
   * earlier than the requested one, and every smaller code decodes to an
   * earlier end time.
   */
  lemma TimeToLifeRoundsUp(start: int, end: int)
    requires end != NeverDate
    requires 0 < end - start <= MaxShortLife * IntervalSeconds
    ensures LifeToTime(start, TimeToLife(start, end)) >= end
    ensures forall k :: 0 <= k < TimeToLife(start, end) ==> LifeToTime(start, k) < end
  {
    var c := TimeToLife(start, end);
    forall k | 0 <= k < c
      ensures LifeToTime(start, k) < end
    {
      assert k * IntervalSeconds <= (c - 1) * IntervalSeconds;
    }
  }

  /**
   * Every code up to 0xFE survives decoding and encoding again, unless the
   * decoded end time happens to be the never-expiring one.
   */
  lemma RoundTrip(start: int, code: int)
    requires 0 <= code <= MaxShortLife
    requires LifeToTime(start, code) != NeverDate
    ensures TimeToLife(start, LifeToTime(start, code)) == code
  {
  }
}
