// beast_output.cc, write_message: 12MHz counters and GPS time-of-day stamps
// are translated into each other by 64-bit integer arithmetic.
module Timestamps {
  import opened BitStrings
  import opened Message
  import opened Settings

  const DAY := 86400
  const SECOND_NS := 1_000_000_000
  const DAY_NS := DAY * SECOND_NS
  const DAY_TICKS := DAY * 12_000_000
  const TWO_30 := 0x4000_0000
  const TWO_48 := 0x1_0000_0000_0000
  const TWO_64 := 0x1_0000_0000_0000_0000

  /** Arithmetic on uint64_t wraps around. */
  function U64(n: nat): nat {
    n % TWO_64
  }

  /** high << 30 | low, for a low part that fits below the shifted one. */
  function Pack(high: nat, low: nat): nat
    requires low < TWO_30
  {
    U64(high * TWO_30) + low
  }

  function ToGps(t: nat): nat {
    var ns := U64(t * 1000) / 12;
    Pack(ns / SECOND_NS % DAY, ns % SECOND_NS)
  }

  function ToTwelveMeg(g: nat): nat {
    var ns := U64(U64(g / TWO_30 * SECOND_NS) + g % TWO_30);
    U64(ns * 12) / 1000
  }

  /** The timestamp that a client with the given settings is sent. */
  function Rescale(s: Settings, kind: TimestampType, t: nat): nat {
    if kind.TwelveMeg? && !s.radarcape.Off? && s.gpsTimestamps.On? then ToGps(t)
    else if kind.Gps? && (s.radarcape.Off? || s.gpsTimestamps.Off?) then ToTwelveMeg(t)
    else t
  }

  // ----- the same without machine arithmetic

  lemma QuotRem(n: nat, k: nat, q: nat, r: nat)
    requires r < k && n == k * q + r
    ensures n / k == q && n % k == r
  {
    DivUnique(n, k, q, r);
  }

  /** A GPS timestamp as nanoseconds since midnight. */
  function GpsNs(g: nat): nat {
    g / TWO_30 * SECOND_NS + g % TWO_30
  }

  predicate ValidGps(g: nat) {
    g / TWO_30 < DAY && g % TWO_30 < SECOND_NS
  }

  /** The valid GPS timestamp of a time of day. */
  lemma PackedNs(s: nat, n: nat)
    requires s < DAY && n < SECOND_NS
    ensures ValidGps(s * TWO_30 + n) && GpsNs(s * TWO_30 + n) == s * SECOND_NS + n
    ensures Pack(s, n) == s * TWO_30 + n < TWO_48
  {
    QuotRem(s * TWO_30 + n, TWO_30, s, n);
  }

  lemma SplitDay(ns: nat)
    ensures (ns / SECOND_NS % DAY) * SECOND_NS + ns % SECOND_NS == ns % DAY_NS
  {
    var s, n := ns / SECOND_NS, ns % SECOND_NS;
    var d, r := s / DAY, s % DAY;
    QuotRem(ns, DAY_NS, d, r * SECOND_NS + n);
  }

  lemma Nanoseconds(t: nat)
    ensures t * 1000 / 12 == t * 250 / 3
  {
    var q, r := t * 250 / 3, t * 250 % 3;
    QuotRem(t * 1000, 12, q, 4 * r);
  }

  /** Nothing overflows for 48-bit timestamps: the result is 250/3 ns a tick, rounded down, modulo a day. */
  lemma ToGpsExact(t: nat)
    requires t < TWO_48
    ensures ValidGps(ToGps(t)) && ToGps(t) < TWO_48
    ensures GpsNs(ToGps(t)) == t * 250 / 3 % DAY_NS
  {
    QuotRem(t * 1000, TWO_64, 0, t * 1000);
    Nanoseconds(t);
    var ns := t * 250 / 3;
    hide ValidGps, GpsNs, Pack;
    PackedNs(ns / SECOND_NS % DAY, ns % SECOND_NS);
    SplitDay(ns);
  }

  lemma ToTwelveMegExact(g: nat)
    requires g < TWO_48
    ensures ToTwelveMeg(g) == GpsNs(g) * 3 / 250 < TWO_48
  {
    var s, ns := g / TWO_30, GpsNs(g);
    assert s < 0x40000;
    QuotRem(s * SECOND_NS, TWO_64, 0, s * SECOND_NS);
    QuotRem(ns, TWO_64, 0, ns);
    QuotRem(ns * 12, TWO_64, 0, ns * 12);
    QuotRem(ns * 12, 1000, ns * 3 / 250, 4 * (ns * 3 % 250));
  }

  /** A whole number of days makes no difference to the time of day. */
  lemma ReduceDay(t: nat)
    ensures t * 250 / 3 % DAY_NS == t % DAY_TICKS * 250 / 3
    ensures t % DAY_TICKS % 3 == t % 3
  {
    var d, u := t / DAY_TICKS, t % DAY_TICKS;
    var q, r := u * 250 / 3, u * 250 % 3;
    QuotRem(t * 250, 3, d * DAY_NS + q, r);
    QuotRem(d * DAY_NS + q, DAY_NS, d, q);
    QuotRem(t, 3, d * (DAY_TICKS / 3) + u / 3, u % 3);
  }

  // ----- round trips

  function RoundTrip(t: nat): nat {
    ToTwelveMeg(ToGps(t))
  }

  lemma TicksBack(u: nat)
    ensures u * 250 / 3 * 3 / 250 == u - (if u % 3 == 0 then 0 else 1)
  {
    var a, r := u / 3, u % 3;
    QuotRem(u * 250, 3, 250 * a + 83 * r, r);
    if r != 0 {
      QuotRem(u * 250 - r, 250, u - 1, 250 - r);
    }
  }

  /** A 12MHz counter comes back as its time of day, one tick short unless 3 divides it. */
  lemma TwelveMegRoundTrip(t: nat)
    requires t < TWO_48
    ensures RoundTrip(t) == t % DAY_TICKS - (if t % 3 == 0 then 0 else 1)
    ensures RoundTrip(t) < DAY_TICKS
  {
    hide ToGps, ToTwelveMeg, GpsNs, ValidGps;
    ToGpsExact(t);
    ReduceDay(t);
    ToTwelveMegExact(ToGps(t));
    TicksBack(t % DAY_TICKS);
  }

  function RoundTrips(t: nat, n: nat): nat {
    if n == 0 then t else RoundTrip(RoundTrips(t, n - 1))
  }

  /** However many more round trips follow, at most two ticks of the time of day are lost, and the value settles. */
  lemma {:induction false} RoundTripsSettle(t: nat, n: nat)
    requires t < TWO_48 && n > 0
    ensures var u := t % DAY_TICKS;
      && u <= RoundTrips(t, n) + 2 && RoundTrips(t, n) <= u
      && (n >= 2 ==> RoundTrips(t, n) == u / 3 * 3)
  {
    hide RoundTrip;
    var u := t % DAY_TICKS;
    if n == 1 {
      assert RoundTrips(t, 0) == t;
      TwelveMegRoundTrip(t);
    } else {
      var before := RoundTrips(t, n - 1);
      RoundTripsSettle(t, n - 1);
      TwelveMegRoundTrip(before);
      QuotRem(before, DAY_TICKS, 0, before);
      if n == 2 {
        assert RoundTrips(t, 0) == t;
        TwelveMegRoundTrip(t);
        ReduceDay(t);
      }
    }
  }

  /** A GPS time of day loses between 0 and 83 ns on its way through 12MHz. */
  lemma GpsRoundTrip(g: nat)
    requires ValidGps(g)
    ensures var g' := ToGps(ToTwelveMeg(g));
      && ValidGps(g')
      && GpsNs(g') == GpsNs(g) - (GpsNs(g) * 3 % 250 + 2) / 3
      && GpsNs(g) - 83 <= GpsNs(g') <= GpsNs(g)
  {
    assert g < TWO_48;
    var ns := GpsNs(g);
    var t, r := ns * 3 / 250, ns * 3 % 250;
    assert t < DAY_TICKS;
    hide ToGps, ToTwelveMeg, GpsNs, ValidGps;
    ToTwelveMegExact(g);
    ToGpsExact(t);
    ReduceDay(t);
    QuotRem(t, DAY_TICKS, 0, t);
    var loss := (r + 2) / 3;
    QuotRem(t * 250, 3, ns - loss, 3 * loss - r);
  }

  /** The nanoseconds that a timestamp stands for, rounded down. */
  function Nanos(gps: bool, t: nat): nat {
    if gps then GpsNs(t) else t * 250 / 3
  }

  lemma GpsToTicks(g: nat)
    requires g < TWO_48
    ensures GpsNs(g) - 83 <= Nanos(false, ToTwelveMeg(g)) <= GpsNs(g)
  {
    var ns := GpsNs(g);
    var t, r := ns * 3 / 250, ns * 3 % 250;
    hide ToTwelveMeg, GpsNs;
    ToTwelveMegExact(g);
    var loss := (r + 2) / 3;
    QuotRem(t * 250, 3, ns - loss, 3 * loss - r);
  }

  // ----- order

  lemma ToGpsMonotone(t: nat, t': nat)
    requires t <= t' < DAY_TICKS
    ensures ToGps(t) <= ToGps(t')
  {
    hide ToGps, GpsNs, ValidGps;
    ToGpsExact(t);
    ToGpsExact(t');
    ReduceDay(t);
    ReduceDay(t');
    QuotRem(t, DAY_TICKS, 0, t);
    QuotRem(t', DAY_TICKS, 0, t');
    GpsOrder(ToGps(t), ToGps(t'));
  }

  /** Valid GPS timestamps are ordered as the times they stand for. */
  lemma GpsOrder(g: nat, g': nat)
    requires ValidGps(g) && ValidGps(g')
    ensures g <= g' <==> GpsNs(g) <= GpsNs(g')
  {}

  lemma ToTwelveMegMonotone(g: nat, g': nat)
    requires ValidGps(g) && ValidGps(g') && g <= g'
    ensures ToTwelveMeg(g) <= ToTwelveMeg(g')
  {
    ToTwelveMegExact(g);
    ToTwelveMegExact(g');
    GpsOrder(g, g');
  }
}
