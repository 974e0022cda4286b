# Kerberos v4 ticket lifetime codec

A Kerberos v4 ticket stores its lifetime in one byte. `krb_life_to_time`
turns a start time and such a lifetime code into the ticket's end time, and
`krb_time_to_life` turns a start and an end time back into the smallest code
whose lifetime covers the interval. `portable/lifetime.c` implements both for
two builds, and this project models both:

- **Long lifetimes (the default build)**, module `LongLifetime` in
  `long_lifetime.dfy`. Codes below 0x80 count five-minute intervals. Codes
  0x80 to 0xBF index a fixed table of 64 lifetimes in seconds. Codes 0xC0 to
  0xFE all mean the maximum lifetime of 30 days. Code 0xFF means the ticket
  never expires.
- **SHORT_LIFETIME**, module `ShortLifetime` in `short_lifetime.dfy`. Every
  code except 0xFF counts five-minute intervals.

Module `Krb4` in `krb4.dfy` holds what both builds share. That is the code
0xFF (`TKTLIFENOEXPIRE`), the end time `NEVERDATE` (`(time_t) -1`, so -1),
the five-minute interval, and the `(unsigned char)` conversion, which is
written as reduction modulo 256.

Both decoders are pure functions. So is the short-build encoder. The
long-build encoder is a method, `LongLifetime.TimeToLife`. It does what the
source does: it rounds lifetimes below the first table entry up to whole
intervals, and for longer ones it scans the table for the first entry that
is at least the lifetime. Its contract ties the result to `CoveringLife`, a
reference definition: "the smallest code up to 0xBF whose decoded duration
is at least the lifetime", with 0xFF and 0 for the special cases. The
lemmas about encoding are stated about `CoveringLife`.

The lemmas about durations are proved for any table with the four
properties the source's comment claims for `tkt_lifetimes` (`IsLifetimeTable`):

- it has 64 entries;
- its first entry equals 0x80 five-minute intervals;
- its last entry equals 30 days;
- its entries strictly increase.

`TableIsLifetimeTable` proves these four facts for the concrete table once.
`Duration(t, code)` is how many seconds a code other than 0xFF adds to the
start time, looked up in table `t`. The decoder and encoder always pass it
the concrete table.

`start` and `end` are mathematical integers. `end == NEVERDATE` is modelled
as equality with -1. So a computed end time that happens to equal -1 encodes
as 0xFF. That is why both round-trip lemmas exclude that end time.

## Model

| member | source | states |
|---|---|---|
| `Krb4.ToUnsignedChar` | portable/lifetime.c:56-60 | The lifetime reduced to an `unsigned char`: a value in 0..255 that differs from the input by a multiple of 256, and equals the input when the input is already in 0..255. |
| `Krb4.ToUnsignedCharPeriodic` | portable/lifetime.c:56-60 | Lifetimes that differ by any multiple of 256 become the same `unsigned char`. |
| `LongLifetime.TableAdjacentIncreasing` | portable/lifetime.c:109-174 | Each entry of `tkt_lifetimes` is smaller than the next one. |
| `LongLifetime.TableIsLifetimeTable` | portable/lifetime.c:89-174 | The table has exactly `TKTLIFENUMFIXED` = 64 entries, one per code 0x80..0xBF. Its first entry is 128 five-minute intervals, so 0x80 means the same under both readings. Its last entry is `MAXTKTLIFETIME` (30 days). It is strictly increasing. |
| `LongLifetime.TableEntryBounds` | portable/lifetime.c:98-102 | Every table entry lies between the first entry and 30 days. |
| `LongLifetime.Duration` | portable/lifetime.c:202-208 | What a code other than 0xFF adds to the start time lies in 0..`MAXTKTLIFETIME`, and it is 0 exactly for code 0. |
| `LongLifetime.LifeToTime` | portable/lifetime.c:194-209 | `krb_life_to_time`: for every code other than 0xFF (after the modulo-256 reduction), the end time lies between `start` and `start + MAXTKTLIFETIME`. |
| `LongLifetime.LifeToTimeCases` | portable/lifetime.c:182-208 | Decoding has four cases of `life mod 256`. 0xFF gives NEVERDATE whatever `start` is. Codes below 0x80 give `start + 300*code`. 0xC0..0xFE give `start + MAXTKTLIFETIME`. 0x80..0xBF give `start + tkt_lifetimes[code - 0x80]`. |
| `LongLifetime.LifeToTimeWraps` | portable/lifetime.c:197-201 | `life` and `life + 256*k` decode to the same end time, for every integer `k`. |
| `LongLifetime.DurationIncreasing` | portable/lifetime.c:98-102 | Over codes 0..0xBF, a larger code always means a strictly longer lifetime. This includes the step from 0x7F (interval count) to 0x80 (first table entry). |
| `LongLifetime.DurationMonotone` | portable/lifetime.c:202-208 | Over codes 0..0xFE, a larger code never means a shorter lifetime. |
| `LongLifetime.SmallestCover` | portable/lifetime.c:219-222 | The code it returns lies in `code..0xBF` and covers the lifetime, and every code from `code` up to but excluding it falls short. |
| `LongLifetime.SmallestCoverUnique` | portable/lifetime.c:219-222 | A code that covers the lifetime while every smaller code falls short is the smallest covering code. |
| `LongLifetime.CoveringLife` | portable/lifetime.c:212-222 | The reference definition of encoding always yields a code in 0..0xFF. |
| `LongLifetime.RoundedUpIsSmallestCover` | portable/lifetime.c:235-236 | For a lifetime below the first table entry, rounding up to whole five-minute intervals gives exactly the smallest covering code. |
| `LongLifetime.TableHitIsSmallestCover` | portable/lifetime.c:237-239 | When no earlier table entry covers the lifetime and entry `i` does, `i + 0x80` is the smallest covering code. |
| `LongLifetime.TimeToLife` | portable/lifetime.c:224-241 | `krb_time_to_life` with its search loop returns exactly `CoveringLife(start, end)`. The loop keeps the invariant that no earlier table entry covers the lifetime. The fall-through `return 0` is proved unreachable. |
| `LongLifetime.CoveringLifeCases` | portable/lifetime.c:230-240 | Encoding returns 0xFF exactly when `end == NEVERDATE`. It returns 0 exactly when the lifetime is `<= 0` or above `MAXTKTLIFETIME`. Otherwise it returns a code in 1..0xBF. |
| `LongLifetime.CoveringLifeRoundsUp` | portable/lifetime.c:212-222 | For a lifetime in 1..`MAXTKTLIFETIME`, the chosen code decodes to an end time no earlier than `end`, and every smaller code decodes to an earlier one. So the code is the smallest covering code. |
| `LongLifetime.RoundTrip` | portable/lifetime.c:194-241 | Every code in 0..0xBF decodes and re-encodes to itself, provided the decoded end time is not NEVERDATE. |
| `LongLifetime.SaturatedCodes` | portable/lifetime.c:206-207 | Codes 0xC0..0xFE decode like 0xBF, and re-encode as 0xBF. |
| `ShortLifetime.LifeToTime` | portable/lifetime.c:53-65 | `krb_life_to_time` in the SHORT_LIFETIME build: 0xFF gives NEVERDATE, and every other code gives an end time between `start` and `start + 254*300`. |
| `ShortLifetime.TimeToLife` | portable/lifetime.c:73-85 | `krb_time_to_life` in the SHORT_LIFETIME build. It returns 0xFF exactly for NEVERDATE. It returns 0 exactly for a lifetime `<= 0` or `> 254*300`. Otherwise it returns the code `c` in 1..254 with `300*(c-1) < lifetime <= 300*c`, that is `ceil(lifetime/300)`. |
| `ShortLifetime.LifeToTimeCases` | portable/lifetime.c:60-64 | Decoding is `start + 300*(life mod 256)`, except that 0xFF gives NEVERDATE. |
| `ShortLifetime.LifeToTimeWraps` | portable/lifetime.c:56-60 | `life` and `life + 256*k` decode to the same end time. |
| `ShortLifetime.TimeToLifeRoundsUp` | portable/lifetime.c:68-71 | For a lifetime in 1..254*300, the chosen code decodes to an end time no earlier than `end`, and every smaller code decodes to an earlier one. |
| `ShortLifetime.RoundTrip` | portable/lifetime.c:53-85 | Every code in 0..254 decodes and re-encodes to itself, provided the decoded end time is not NEVERDATE. |

## Left out

- Integer widths. `time_t` and `KRB4_32` are declared in `portable/krb4.h`, which is not part of this model. So `start`, `end` and their difference are unbounded integers. Overflow and wrap-around of `end - start` and of `start + lifetime` are not modelled.
- The signed/unsigned comparison of `end` with `(time_t) -1` at portable/lifetime.c:230 and portable/lifetime.c:79 is modelled as equality with the constant -1. The comment at portable/lifetime.c:183 calls that value 0xffffffff.
- `LongLifetime.RoundTrip` and `ShortLifetime.RoundTrip` exclude a decoded end time equal to NEVERDATE. The source encodes such an end time as 0xFF, so the round trip does not hold there.
- Choosing between the two builds with `#ifdef SHORT_LIFETIME` is not modelled. Each build is its own module.
- The table's comments on hours, days and the ratio of roughly 1.06914 between entries are floating-point commentary. Only the integer entries are modelled.
- The string-vector library exercised by tests/pam-util/vector-t.c is not part of this model. That test's process creation (`fork`, `waitpid`, `vector_exec`) is not either.
- The `inet_aton` replacement exercised by tests/portable/inet_aton-t.c is not part of this model.
