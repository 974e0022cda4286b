/**
 * The default (long lifetime) build of the Kerberos v4 lifetime codec.
 *
 * A lifetime code below 0x80 counts five-minute intervals, the codes
 * 0x80 to 0xBF index a table of 64 lifetimes in seconds, the codes 0xC0
 * to 0xFE all mean the maximum ticket lifetime of 30 days, and 0xFF
 * means that the ticket never expires.
 *
 * The reasoning about codes and durations is done for any table with the
 * four properties the codec relies on (`IsLifetimeTable`); the concrete
 * table is shown to have them once, in `TableIsLifetimeTable`.
 */
module LongLifetime {
  import opened Krb4

  /** Number of entries of the lifetime table. */
  const TktLifeNumFixed: int := 64
  /** The first lifetime code looked up in the table. */
  const TktLifeMinFixed: int := 0x80
  /** The last lifetime code looked up in the table. */
  const TktLifeMaxFixed: int := 0xBF

  /** The maximum ticket lifetime: 30 days, in seconds. */
  const MaxTktLifetime: int := 30 * 24 * 3600

  /** Lifetimes in seconds of the codes 0x80 to 0xBF (tkt_lifetimes). */
  const TktLifetimes: seq<int> :=
    [38400, 41055, 43894, 46929, 50174, 53643, 57352, 61318] +
    [65558, 70091, 74937, 80119, 85658, 91581, 97914, 104684] +
    [111922, 119661, 127935, 136781, 146239, 156350, 167161, 178720] +
    [191077, 204289, 218415, 233517, 249664, 266926, 285383, 305116] +
    [326213, 348769, 372885, 398668, 426234, 455705, 487215, 520904] +
    [556921, 595430, 636601, 680618, 727680, 777995, 831789, 889303] +
    [950794, 1016537, 1086825, 1161973, 1242318, 1328218, 1420057, 1518247] +
    [1623226, 1735464, 1855462, 1983758, 2120925, 2267576, 2424367, 2592000]

  ghost predicate StrictlyIncreasing(s: seq<int>) {
    forall i, j :: 0 <= i < j < |s| ==> s[i] < s[j]
  }

  /**
   * What the codec relies on of its table: one entry per fixed code, a
   * first entry equal to what code 0x80 means as a count of five-minute
   * intervals, a last entry equal to the maximum ticket lifetime, and
   * strictly increasing entries in between.
   */
  ghost predicate IsLifetimeTable(t: seq<int>) {
    && |t| == TktLifeNumFixed
    && t[0] == TktLifeMinFixed * IntervalSeconds
    && t[TktLifeNumFixed - 1] == MaxTktLifetime
    && StrictlyIncreasing(t)
  }

  // ---------------------------------------------------------------------
  // The lifetime table
  // ---------------------------------------------------------------------

  lemma TableAdjacentIncreasing()
    ensures forall k :: 0 <= k < |TktLifetimes| - 1 ==> TktLifetimes[k] < TktLifetimes[k + 1]
  {
    forall k | 0 <= k < |TktLifetimes| - 1
      ensures TktLifetimes[k] < TktLifetimes[k + 1]
    {
      // One case per row of eight entries.
      if k < 8 {
      } else if k < 16 {
      } else if k < 24 {
      } else if k < 32 {
      } else if k < 40 {
      } else if k < 48 {
      } else if k < 56 {
      } else {
      }
    }
  }

  lemma {:induction false} AdjacentChain(s: seq<int>, i: int, j: int)
    requires forall k :: 0 <= k < |s| - 1 ==> s[k] < s[k + 1]
    requires 0 <= i < j < |s|
    ensures s[i] < s[j]
    decreases j - i
  {
    if i + 1 < j {
      AdjacentChain(s, i + 1, j);
    }
  }

  /**
   * The table has 64 entries, 0x80 means the same as a table code and as
   * a count of intervals, 0xBF means 30 days, and the entries strictly
   * increase.
   */
  lemma TableIsLifetimeTable()
    ensures IsLifetimeTable(TktLifetimes)
    ensures TktLifeNumFixed == TktLifeMaxFixed - TktLifeMinFixed + 1
  {
    TableAdjacentIncreasing();
    forall i, j | 0 <= i < j < |TktLifetimes|
      ensures TktLifetimes[i] < TktLifetimes[j]
    {
      AdjacentChain(TktLifetimes, i, j);
    }
  }

  /** Every entry of a lifetime table lies between its first entry and 30 days. */
  lemma TableEntryBounds(t: seq<int>, j: int)
    requires IsLifetimeTable(t)
    requires 0 <= j < |t|
    ensures t[0] <= t[j] <= MaxTktLifetime
  {
    assert j == 0 || t[0] < t[j];
    assert j == |t| - 1 || t[j] < t[|t| - 1];
  }

  // ---------------------------------------------------------------------
  // Decoding: krb_life_to_time
  // ---------------------------------------------------------------------

  /**
   * The number of seconds that a lifetime code other than 0xFF adds to
   * the start time, with `t` as the lifetime table.
   */
  function Duration(t: seq<int>, code: int): (d: int)
    requires IsLifetimeTable(t)
    requires 0 <= code < TktLifeNoExpire
    ensures 0 <= d <= MaxTktLifetime
    ensures d == 0 <==> code == 0
  {
    if code < TktLifeMinFixed then code * IntervalSeconds
    else if code > TktLifeMaxFixed then MaxTktLifetime
    else
      TableEntryBounds(t, code - TktLifeMinFixed);
      t[code - TktLifeMinFixed]
  }

  /** krb_life_to_time: the end time of a ticket with lifetime `life` from `start`. */
  function LifeToTime(start: int, life: int): (end: int)
    ensures ToUnsignedChar(life) != TktLifeNoExpire ==> start <= end <= start + MaxTktLifetime
  {
    var code := ToUnsignedChar(life);
    if code == TktLifeNoExpire then NeverDate
    else
      TableIsLifetimeTable();
      start + Duration(TktLifetimes, code)
  }

  /** Decoding distinguishes exactly four cases of the code `life mod 256`. */
  lemma LifeToTimeCases(start: int, life: int)
    ensures life % 256 == TktLifeNoExpire ==> LifeToTime(start, life) == NeverDate
    ensures life % 256 < TktLifeMinFixed ==> LifeToTime(start, life) == start + 300 * (life % 256)
    ensures TktLifeMaxFixed < life % 256 < TktLifeNoExpire ==>
      LifeToTime(start, life) == start + MaxTktLifetime
    ensures TktLifeMinFixed <= life % 256 <= TktLifeMaxFixed ==>
      LifeToTime(start, life) == start + TktLifetimes[life % 256 - TktLifeMinFixed]
  {
  }

  /** Decoding reads its lifetime modulo 256. */
  lemma LifeToTimeWraps(start: int, life: int, k: int)
    ensures LifeToTime(start, life + 256 * k) == LifeToTime(start, life)
  {
    ToUnsignedCharPeriodic(life, k);
  }

  /** Up to 0xBF, a larger code always means a longer lifetime. */
  lemma DurationIncreasing(t: seq<int>, a: int, b: int)
    requires IsLifetimeTable(t)
    requires 0 <= a < b <= TktLifeMaxFixed
    ensures Duration(t, a) < Duration(t, b)
  {
    if a < TktLifeMinFixed <= b {
      TableEntryBounds(t, b - TktLifeMinFixed);
    }
  }

  /** Below 0xFF, a larger code never means a shorter lifetime. */
  lemma DurationMonotone(t: seq<int>, a: int, b: int)
    requires IsLifetimeTable(t)
    requires 0 <= a <= b < TktLifeNoExpire
    ensures Duration(t, a) <= Duration(t, b)
  {
    if a < b && b <= TktLifeMaxFixed {
      DurationIncreasing(t, a, b);
    }
  }

  // ---------------------------------------------------------------------
  // Encoding: the smallest covering code, and krb_time_to_life
  // ---------------------------------------------------------------------

  /**
   * The smallest code in `code..0xBF` whose duration is at least
   * `lifetime`.
   */
  function SmallestCover(t: seq<int>, lifetime: int, code: int): (c: int)
    requires IsLifetimeTable(t)
    requires 0 <= code <= TktLifeMaxFixed
    requires lifetime <= MaxTktLifetime
    ensures code <= c <= TktLifeMaxFixed
    ensures lifetime <= Duration(t, c)
    ensures forall k :: code <= k < c ==> Duration(t, k) < lifetime
    decreases TktLifeMaxFixed - code
  {
    if lifetime <= Duration(t, code) then code
    else SmallestCover(t, lifetime, code + 1)
  }

  /**
   * A code that covers `lifetime` while every smaller code falls short is
   * the smallest covering code.
   */
  lemma SmallestCoverUnique(t: seq<int>, lifetime: int, c: int)
    requires IsLifetimeTable(t)
    requires 0 <= c <= TktLifeMaxFixed
    requires lifetime <= MaxTktLifetime
    requires lifetime <= Duration(t, c)
    requires forall k :: 0 <= k < c ==> Duration(t, k) < lifetime
    ensures SmallestCover(t, lifetime, 0) == c
  {
  }

  /**
   * Reference definition of encoding: 0xFF for the end time that never
   * comes, 0 for an empty, negative or overlong lifetime, and otherwise
   * the smallest code whose decoded lifetime is at least the requested one.
   */
  function CoveringLife(start: int, end: int): (life: int)
    ensures 0 <= life <= TktLifeNoExpire
  {
    if end == NeverDate then TktLifeNoExpire
    else if end - start > MaxTktLifetime || end - start <= 0 then 0
    else
      TableIsLifetimeTable();
      SmallestCover(TktLifetimes, end - start, 0)
  }

  /**
   * Below the first table entry the smallest covering code is the
   * lifetime rounded up to whole five-minute intervals.
   */
  lemma RoundedUpIsSmallestCover(t: seq<int>, lifetime: int)
    requires IsLifetimeTable(t)
    requires 0 < lifetime < t[0]
    ensures SmallestCover(t, lifetime, 0) == (lifetime + IntervalSeconds - 1) / IntervalSeconds
  {
    var c := (lifetime + IntervalSeconds - 1) / IntervalSeconds;
    assert (c - 1) * IntervalSeconds < lifetime <= c * IntervalSeconds;
    assert 0 < c <= TktLifeMinFixed;
    forall k | 0 <= k < c
      ensures Duration(t, k) < lifetime
    {
      assert k * IntervalSeconds <= (c - 1) * IntervalSeconds;
    }
    SmallestCoverUnique(t, lifetime, c);
  }

  /**
   * From the first table entry on, the smallest covering code is the code
   * of the first table entry that is at least the lifetime.
   */
  lemma TableHitIsSmallestCover(t: seq<int>, lifetime: int, i: int)
    requires IsLifetimeTable(t)
    requires 0 <= i < TktLifeNumFixed
    requires t[0] <= lifetime <= t[i]
    requires forall k :: 0 <= k < i ==> t[k] < lifetime
    ensures SmallestCover(t, lifetime, 0) == i + TktLifeMinFixed
  {
    TableEntryBounds(t, i);
    forall k | 0 <= k < i + TktLifeMinFixed
      ensures Duration(t, k) < lifetime
    {
      if k >= TktLifeMinFixed {
        assert t[k - TktLifeMinFixed] < lifetime;
      }
    }
    SmallestCoverUnique(t, lifetime, i + TktLifeMinFixed);
  }

  /**
   * krb_time_to_life: the lifetime code for a ticket valid from `start`
   * to `end`, computed as the source does, by rounding short lifetimes up
   * to five-minute intervals and searching the table for longer ones.
   */
  method TimeToLife(start: int, end: int) returns (life: int)
    ensures life == CoveringLife(start, end)
  {
    if end == NeverDate {
      return TktLifeNoExpire;
    }
    var lifetime := end - start;
    if lifetime > MaxTktLifetime || lifetime <= 0 {
      return 0;
    }
    TableIsLifetimeTable();
    if lifetime < TktLifetimes[0] {
      RoundedUpIsSmallestCover(TktLifetimes, lifetime);
      return (lifetime + IntervalSeconds - 1) / IntervalSeconds;
    }
    var i := 0;
    while i < TktLifeNumFixed
      invariant 0 <= i <= TktLifeNumFixed
      invariant forall k :: 0 <= k < i ==> TktLifetimes[k] < lifetime
    {
      if lifetime <= TktLifetimes[i] {
        TableHitIsSmallestCover(TktLifetimes, lifetime, i);
        return i + TktLifeMinFixed;
      }
      assert forall k :: 0 <= k < i + 1 ==> TktLifetimes[k] < lifetime;
      i := i + 1;
    }
    // Unreachable: the last table entry is the maximum lifetime.
    assert false;
    return 0;
  }

  // ---------------------------------------------------------------------
  // Properties of encoding
  // ---------------------------------------------------------------------

  /**
   * Encoding yields 0xFF exactly for the never-expiring end time, 0 exactly
   * for lifetimes outside 1..MaxTktLifetime, and a code in 1..0xBF for
   * everything else.
   */
  lemma CoveringLifeCases(start: int, end: int)
    ensures CoveringLife(start, end) == TktLifeNoExpire <==> end == NeverDate
    ensures CoveringLife(start, end) == 0 <==>
      end != NeverDate && (end - start <= 0 || end - start > MaxTktLifetime)
    ensures end != NeverDate && 0 < end - start <= MaxTktLifetime ==>
      1 <= CoveringLife(start, end) <= TktLifeMaxFixed
  {
  }

  /**
   * Encoding rounds up: the code it picks decodes to an end time no
   * earlier than the requested one, and every smaller code decodes to an
   * earlier end time.
   */
  lemma CoveringLifeRoundsUp(start: int, end: int)
    requires end != NeverDate
    requires 0 < end - start <= MaxTktLifetime
    ensures LifeToTime(start, CoveringLife(start, end)) >= end
    ensures forall k :: 0 <= k < CoveringLife(start, end) ==> LifeToTime(start, k) < end
  {
    TableIsLifetimeTable();
    var c := CoveringLife(start, end);
    forall k | 0 <= k < c
      ensures LifeToTime(start, k) < end
    {
      assert Duration(TktLifetimes, k) < end - start;
    }
  }

  /**
   * Every code up to 0xBF survives decoding and encoding again, unless the
   * decoded end time happens to be the never-expiring one.
   */
  lemma RoundTrip(start: int, code: int)
    requires 0 <= code <= TktLifeMaxFixed
    requires LifeToTime(start, code) != NeverDate
    ensures CoveringLife(start, LifeToTime(start, code)) == code
  {
    TableIsLifetimeTable();
    if code > 0 {
      forall k | 0 <= k < code
        ensures Duration(TktLifetimes, k) < Duration(TktLifetimes, code)
      {
        DurationIncreasing(TktLifetimes, k, code);
      }
      SmallestCoverUnique(TktLifetimes, Duration(TktLifetimes, code), code);
    }
  }

  /** The codes 0xC0 to 0xFE all decode as 30 days and encode back as 0xBF. */
  lemma SaturatedCodes(start: int, code: int)
    requires TktLifeMaxFixed < code < TktLifeNoExpire
    requires start + MaxTktLifetime != NeverDate
    ensures LifeToTime(start, code) == LifeToTime(start, TktLifeMaxFixed)
    ensures CoveringLife(start, LifeToTime(start, code)) == TktLifeMaxFixed
  {
    RoundTrip(start, TktLifeMaxFixed);
  }
}
