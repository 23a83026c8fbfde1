/** Conversion between system-clock time and 64-bit NTP timestamps (src/time/time_sync.cpp; section 6 of RFC 5905). */
module NtpTime {
  import opened Bytes

  /** Seconds from 1900 to 1970. */
  const UNIX_EPOCH: nat := 2_208_988_800

  /** The length of an NTP era, in nanoseconds. */
  const EPOCH_NANOS: nat := 2_208_988_800_000_000_000

  const ERA: nat := 4_294_967_296_000_000_000

  // ---------------------------------------------------------------------------
  // Machine arithmetic.

  function Wrap(n: int): u64
  {
    n % 0x1_0000_0000_0000_0000
  }

  function Signed(n: u64): i64
  {
    if n < 0x8000_0000_0000_0000 then n else n - 0x1_0000_0000_0000_0000
  }

  /** Division that drops the fraction, also below zero. */
  function Truncated(a: int, b: nat): int
    requires b > 0
  {
    if a >= 0 then a / b else -((-a) / b)
  }

  function BitOr(a: nat, b: nat): nat
  {
    if a == 0 then b
    else if b == 0 then a
    else 2 * BitOr(a / 2, b / 2) + (if a % 2 == 1 || b % 2 == 1 then 1 else 0)
  }

  function Shifted(a: nat, k: nat): nat
  {
    if k == 0 then a else 2 * Shifted(a, k - 1)
  }

  /** Fields that share no bit are joined by addition. */
  lemma {:induction false} BitOrOfFields(a: nat, b: nat, k: nat)
    requires b < Shifted(1, k)
    ensures BitOr(Shifted(a, k), b) == Shifted(a, k) + b
    decreases k
  {
    if k > 0 {
      BitOrOfFields(a, b / 2, k - 1);
      var half := Shifted(a, k - 1);
      assert 2 * half / 2 == half && 2 * half % 2 == 0;
    }
  }

  lemma {:induction false} ShiftedInTwo(a: nat, k: nat, m: nat)
    ensures Shifted(a, k + m) == Shifted(Shifted(a, k), m)
    decreases m
  {
    if m > 0 { ShiftedInTwo(a, k, m - 1); }
  }

  lemma ShiftedBy32(a: nat)
    ensures Shifted(a, 32) == a * 0x1_0000_0000
  {
    ShiftedInTwo(a, 8, 24);
    ShiftedInTwo(Shifted(a, 8), 8, 16);
    ShiftedInTwo(Shifted(Shifted(a, 8), 8), 8, 8);
    ShiftedBy8(a);
    ShiftedBy8(256 * a);
    ShiftedBy8(65536 * a);
    ShiftedBy8(16777216 * a);
  }

  lemma ShiftedBy8(a: nat)
    ensures Shifted(a, 8) == 256 * a
  {
    assert Shifted(a, 1) == 2 * Shifted(a, 0);
    assert Shifted(a, 2) == 2 * Shifted(a, 1);
    assert Shifted(a, 3) == 2 * Shifted(a, 2);
    assert Shifted(a, 4) == 2 * Shifted(a, 3);
    assert Shifted(a, 5) == 2 * Shifted(a, 4);
    assert Shifted(a, 6) == 2 * Shifted(a, 5);
    assert Shifted(a, 7) == 2 * Shifted(a, 6);
    assert Shifted(a, 8) == 2 * Shifted(a, 7);
  }

  lemma BitOrOfHalves(a: nat, b: nat)
    requires b < 0x1_0000_0000
    ensures BitOr(a * 0x1_0000_0000, b) == a * 0x1_0000_0000 + b
  {
    ShiftedBy32(a);
    ShiftedBy32(1);
    BitOrOfFields(a, b, 32);
  }

  // ---------------------------------------------------------------------------
  // The conversions.

  /** Nanoseconds since 1970, such that nanoseconds since 1900 fit a signed 64-bit count too. */
  type Instant = t: int | -0x8000_0000_0000_0000 <= t && t + EPOCH_NANOS < 0x8000_0000_0000_0000

  function PhysicalToNtp(t: Instant): u64
  {
    var sinceNtpEpoch := t + EPOCH_NANOS;
    var seconds := Truncated(sinceNtpEpoch, 1_000_000_000);
    var fraction := sinceNtpEpoch - seconds * 1_000_000_000;
    Joined(Wrap(seconds), Wrap(Wrap(fraction) * 0x1_0000_0000) / 1_000_000_000)
  }

  function Joined(ntpSeconds: u64, ntpFraction: u64): u64
  {
    Wrap(BitOr(Wrap(ntpSeconds * 0x1_0000_0000), ntpFraction))
  }

  function NtpToPhysical(ntp: u64): Instant
  {
    var seconds := ntp / 0x1_0000_0000;
    var fraction := ntp % 0x1_0000_0000;
    var unixSeconds := Signed(Wrap(seconds - UNIX_EPOCH));
    var nanoseconds := Wrap(fraction * 1_000_000_000) / 0x1_0000_0000;
    unixSeconds * 1_000_000_000 + nanoseconds
  }

  /** Nanoseconds since 1900. */
  function Since1900(t: Instant): int
  {
    t + EPOCH_NANOS
  }

  /** The two epochs are 70 years with 17 leap days apart. */
  lemma EpochsAre()
    ensures UNIX_EPOCH == (70 * 365 + 17) * 24 * 60 * 60
    ensures Since1900(0) == UNIX_EPOCH * 1_000_000_000
  {
  }

  predicate InEra0(t: Instant)
  {
    0 <= Since1900(t) < ERA
  }

  lemma JoinedFields(seconds: u64, fraction: nat)
    requires fraction < 0x1_0000_0000
    ensures Joined(seconds, fraction) == seconds % 0x1_0000_0000 * 0x1_0000_0000 + fraction
  {
    hide Wrap, BitOr;
    var low := seconds % 0x1_0000_0000;
    ShiftedSeconds(seconds);
    BitOrOfHalves(low, fraction);
    Unwrapped(low * 0x1_0000_0000 + fraction);
  }

  /** Shifting by 32 bits keeps the low half of the seconds. */
  lemma ShiftedSeconds(seconds: u64)
    ensures Wrap(seconds * 0x1_0000_0000) == seconds % 0x1_0000_0000 * 0x1_0000_0000
  {
    var low, high := seconds % 0x1_0000_0000, seconds / 0x1_0000_0000;
    assert seconds == high * 0x1_0000_0000 + low;
    assert seconds * 0x1_0000_0000 == high * 0x1_0000_0000_0000_0000 + low * 0x1_0000_0000;
    LowBits(high, low * 0x1_0000_0000);
  }

  lemma LowBits(high: nat, low: nat)
    requires low < 0x1_0000_0000_0000_0000
    ensures (high * 0x1_0000_0000_0000_0000 + low) % 0x1_0000_0000_0000_0000 == low
  {
  }

  /** From 1900 on nothing wraps but the era: the seconds of the era and the fraction sit side by side. */
  lemma {:induction false} NtpFields(t: Instant)
    requires 0 <= Since1900(t)
    ensures var d := Since1900(t);
      && d % 1_000_000_000 * 0x1_0000_0000 < 0x1_0000_0000_0000_0000
      && d % 1_000_000_000 * 0x1_0000_0000 / 1_000_000_000 < 0x1_0000_0000
      && PhysicalToNtp(t) ==
        d / 1_000_000_000 % 0x1_0000_0000 * 0x1_0000_0000 + d % 1_000_000_000 * 0x1_0000_0000 / 1_000_000_000
  {
    hide Joined, PhysicalToNtp;
    var d := Since1900(t);
    var hi, f := d / 1_000_000_000, d % 1_000_000_000;
    FractionFits(f);
    JoinedSeconds(t);
    assert hi < 0x1_0000_0000_0000_0000;
    JoinedFields(hi, f * 0x1_0000_0000 / 1_000_000_000);
  }

  lemma FractionFits(f: nat)
    requires f < 1_000_000_000
    ensures f * 0x1_0000_0000 < 0x1_0000_0000_0000_0000
    ensures f * 0x1_0000_0000 / 1_000_000_000 < 0x1_0000_0000
  {
  }

  /** At or after 1900 neither the seconds nor the fraction wrap. */
  lemma JoinedSeconds(t: Instant)
    requires 0 <= Since1900(t)
    ensures var d := Since1900(t);
      d / 1_000_000_000 < 0x1_0000_0000_0000_0000 &&
      d % 1_000_000_000 * 0x1_0000_0000 / 1_000_000_000 < 0x1_0000_0000 &&
      PhysicalToNtp(t) == Joined(d / 1_000_000_000, d % 1_000_000_000 * 0x1_0000_0000 / 1_000_000_000)
  {
    hide Joined, Wrap, Truncated;
    var d := Since1900(t);
    var f := d % 1_000_000_000;
    WholeAndRest(d);
    FractionFits(f);
    Unwrapped(d / 1_000_000_000);
    Unwrapped(f);
    Unwrapped(f * 0x1_0000_0000);
  }

  lemma WholeAndRest(d: nat)
    requires d < 0x8000_0000_0000_0000
    ensures Truncated(d, 1_000_000_000) == d / 1_000_000_000 < 0x1_0000_0000_0000_0000
    ensures d - d / 1_000_000_000 * 1_000_000_000 == d % 1_000_000_000
  {
  }

  lemma Unwrapped(n: nat)
    requires n < 0x1_0000_0000_0000_0000
    ensures Wrap(n) == n
  {
  }

  lemma PhysicalFields(ntp: u64)
    ensures ntp % 0x1_0000_0000 * 1_000_000_000 < 0x1_0000_0000_0000_0000
    ensures Since1900(NtpToPhysical(ntp)) ==
      ntp / 0x1_0000_0000 * 1_000_000_000 + ntp % 0x1_0000_0000 * 1_000_000_000 / 0x1_0000_0000
    ensures InEra0(NtpToPhysical(ntp))
  {
    var seconds := ntp / 0x1_0000_0000;
    assert Signed(Wrap(seconds - UNIX_EPOCH)) == seconds - UNIX_EPOCH;
  }

  // ---------------------------------------------------------------------------
  // Fractions of a second.

  /** The fraction field loses at most one nanosecond, and none exactly at the multiples of 5^9 nanoseconds. */
  lemma FractionRoundTrip(f: nat)
    requires f < 1_000_000_000
    ensures f * 0x1_0000_0000 / 1_000_000_000 * 1_000_000_000 / 0x1_0000_0000 == if f % 1_953_125 == 0 then f else f - 1
  {
    var q := f * 0x1_0000_0000 / 1_000_000_000;
    var r := f * 0x1_0000_0000 % 1_000_000_000;
    assert f * 0x1_0000_0000 == q * 1_000_000_000 + r;
    MultiplesOf5To9(f);
  }

  lemma MultiplesOf5To9(f: nat)
    ensures f * 0x1_0000_0000 % 1_000_000_000 == 0 <==> f % 1_953_125 == 0
  {
    if f * 0x1_0000_0000 % 1_000_000_000 == 0 {
      var k := f * 0x1_0000_0000 / 1_000_000_000;
      WholeNanos(f * 0x1_0000_0000);
      Inverted(f, k);
      MultipleOf5To9(k * 1_241_897 - f * 5_333_907);
    }
    if f % 1_953_125 == 0 {
      var k := f / 1_953_125;
      assert f == 1_953_125 * k;
      Scaled(k);
      MultipleOfNanos(k * 8_388_608);
    }
  }

  lemma WholeNanos(n: nat)
    requires n % 1_000_000_000 == 0
    ensures n == n / 1_000_000_000 * 1_000_000_000
  {
  }

  /** 1241897 is the inverse of 2^23 modulo 5^9. */
  lemma Inverted(f: int, k: int)
    requires f * 0x1_0000_0000 == k * 1_000_000_000
    ensures f == 1_953_125 * (k * 1_241_897 - f * 5_333_907)
  {
    assert f * 8_388_608 == k * 1_953_125;
    assert 8_388_608 * 1_241_897 == 1 + 1_953_125 * 5_333_907;
  }

  lemma Scaled(k: int)
    ensures 1_953_125 * k * 0x1_0000_0000 == k * 8_388_608 * 1_000_000_000
  {
  }

  lemma MultipleOf5To9(m: int)
    ensures 1_953_125 * m % 1_953_125 == 0
  {
  }

  lemma MultipleOfNanos(m: int)
    ensures m * 1_000_000_000 % 1_000_000_000 == 0
  {
  }

  // ---------------------------------------------------------------------------
  // Round trips.

  /** There and back: exact at the multiples of 5^9 ns within the second, one nanosecond early everywhere else. */
  lemma {:induction false} RoundTrip(t: Instant)
    requires InEra0(t)
    ensures NtpToPhysical(PhysicalToNtp(t)) == if Since1900(t) % 1_000_000_000 % 1_953_125 == 0 then t else t - 1
  {
    hide PhysicalToNtp, NtpToPhysical, Fixed;
    var d := Since1900(t);
    var ntp := PhysicalToNtp(t);
    Era0Fields(t);
    FixedHalves(d);
    PhysicalFields(ntp);
    FractionRoundTrip(d % 1_000_000_000);
    SecondsAndRest(d);
  }

  lemma FixedHalves(d: nat)
    ensures Fixed(d) / 0x1_0000_0000 == d / 1_000_000_000
    ensures Fixed(d) % 0x1_0000_0000 == d % 1_000_000_000 * 0x1_0000_0000 / 1_000_000_000
  {
    FractionFits(d % 1_000_000_000);
    HalvesOf(Fixed(d), d / 1_000_000_000, d % 1_000_000_000 * 0x1_0000_0000 / 1_000_000_000);
  }

  lemma SecondsAndRest(d: nat)
    ensures d == d / 1_000_000_000 * 1_000_000_000 + d % 1_000_000_000
  {
  }

  /** Era 0 is exactly where the round trip stays within a nanosecond. */
  lemma {:induction false} RoundTripIffEra0(t: Instant)
    ensures (var back := NtpToPhysical(PhysicalToNtp(t)); back == t || back == t - 1) <==> InEra0(t)
  {
    if InEra0(t) {
      RoundTrip(t);
    } else {
      PhysicalFields(PhysicalToNtp(t));
      if Since1900(t) >= 0 { LaterEras(t); }
    }
  }

  lemma HalvesOf(n: nat, high: nat, low: nat)
    requires n == high * 0x1_0000_0000 + low && low < 0x1_0000_0000
    ensures n / 0x1_0000_0000 == high && n % 0x1_0000_0000 == low
  {
  }

  lemma WholeSeconds(e: nat, k: nat)
    ensures (e + k * ERA) % 1_000_000_000 == e % 1_000_000_000
    ensures (e + k * ERA) / 1_000_000_000 % 0x1_0000_0000 == e / 1_000_000_000 % 0x1_0000_0000
  {
    MoreSeconds(e, k * 0x1_0000_0000);
    MoreEras(e / 1_000_000_000, k);
  }

  lemma MoreSeconds(a: nat, k: nat)
    ensures (a + k * 1_000_000_000) % 1_000_000_000 == a % 1_000_000_000
    ensures (a + k * 1_000_000_000) / 1_000_000_000 == a / 1_000_000_000 + k
  {
  }

  lemma MoreEras(a: nat, k: nat)
    ensures (a + k * 0x1_0000_0000) % 0x1_0000_0000 == a % 0x1_0000_0000
  {
  }

  /** After era 0 the instant comes back whole eras early. */
  lemma LaterEras(t: Instant)
    requires Since1900(t) >= 0
    ensures var eras := Since1900(t) / ERA * ERA; NtpToPhysical(PhysicalToNtp(t)) in {t - eras, t - eras - 1}
  {
    hide PhysicalToNtp, NtpToPhysical;
    var d := Since1900(t);
    var k := d / ERA;
    var back := t - k * ERA;
    assert d == ERA * k + d % ERA;
    WholeSeconds(Since1900(back), k);
    NtpFields(t);
    NtpFields(back);
    RoundTrip(back);
  }

  /** The other way round between 0 and 5 of the 2^32 fraction units are lost, for every NTP timestamp. */
  lemma {:induction false} ReverseTrip(ntp: u64)
    ensures 0 <= ntp - PhysicalToNtp(NtpToPhysical(ntp)) <= 5
  {
    hide PhysicalToNtp, NtpToPhysical;
    ReverseFields(ntp);
    FractionLoss(ntp % 0x1_0000_0000);
  }

  lemma ReverseFields(ntp: u64)
    ensures PhysicalToNtp(NtpToPhysical(ntp)) == ntp / 0x1_0000_0000 * 0x1_0000_0000 +
      ntp % 0x1_0000_0000 * 1_000_000_000 / 0x1_0000_0000 * 0x1_0000_0000 / 1_000_000_000
  {
    hide PhysicalToNtp, NtpToPhysical;
    PhysicalFields(ntp);
    var t := NtpToPhysical(ntp);
    NtpFields(t);
    var s, n := ntp / 0x1_0000_0000, ntp % 0x1_0000_0000 * 1_000_000_000 / 0x1_0000_0000;
    assert Since1900(t) == 1_000_000_000 * s + n && n < 1_000_000_000;
    assert Since1900(t) / 1_000_000_000 == s && Since1900(t) % 1_000_000_000 == n;
  }

  lemma FractionLoss(f: nat)
    ensures 0 <= f - f * 1_000_000_000 / 0x1_0000_0000 * 0x1_0000_0000 / 1_000_000_000 <= 5
  {
    var n := f * 1_000_000_000 / 0x1_0000_0000;
    assert n * 0x1_0000_0000 <= f * 1_000_000_000 < n * 0x1_0000_0000 + 0x1_0000_0000;
  }

  lemma ReverseTripLosesFive()
    ensures exists ntp: u64 :: ntp - PhysicalToNtp(NtpToPhysical(ntp)) == 5
  {
    hide PhysicalToNtp, NtpToPhysical;
    var ntp: u64 := 17;
    ReverseFields(ntp);
    assert ntp - PhysicalToNtp(NtpToPhysical(ntp)) == 5;
  }

  /** Later instants of an era have larger timestamps, nanosecond by nanosecond. */
  lemma {:induction false} StrictlyMonotone(t: Instant, u: Instant)
    requires InEra0(t) && InEra0(u)
    ensures t < u <==> PhysicalToNtp(t) < PhysicalToNtp(u)
  {
    hide PhysicalToNtp;
    Era0Fields(t);
    Era0Fields(u);
    if t < u { LaterIsLarger(Since1900(t), Since1900(u)); }
    if u < t { LaterIsLarger(Since1900(u), Since1900(t)); }
  }

  function Fixed(d: nat): nat
  {
    d / 1_000_000_000 * 0x1_0000_0000 + d % 1_000_000_000 * 0x1_0000_0000 / 1_000_000_000
  }

  lemma Era0Fields(t: Instant)
    requires InEra0(t)
    ensures PhysicalToNtp(t) == Fixed(Since1900(t))
  {
    hide PhysicalToNtp;
    NtpFields(t);
    assert Since1900(t) / 1_000_000_000 < 0x1_0000_0000;
  }

  lemma LaterIsLarger(d: nat, e: nat)
    requires d < e
    ensures Fixed(d) < Fixed(e)
  {
    var s, f, t, g := d / 1_000_000_000, d % 1_000_000_000, e / 1_000_000_000, e % 1_000_000_000;
    assert d == 1_000_000_000 * s + f && e == 1_000_000_000 * t + g;
    assert s < t || (s == t && f + 1 <= g);
  }
}
