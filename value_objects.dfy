/**
 * The value objects of EntityDb.Abstractions: identifiers, version numbers and time stamps.
 */
module ValueObjects {

  /** A C# `ulong`: the integers 0 .. 2^64 - 1. */
  const UlongModulus: int := 0x1_0000_0000_0000_0000
  type Ulong = x: int | 0 <= x < UlongModulus

  /** An opaque 128-bit identifier; the model only compares identifiers. */
  type Id = nat

  // ---------------------------------------------------------------------------
  // VersionNumber

  /** A version of an object; as a record struct, two are equal exactly when their values are. */
  datatype VersionNumber = VersionNumber(value: Ulong)

  /** The minimum version number, reserved for the initial state of an object. */
  const MinValue: VersionNumber := VersionNumber(0)

  /** The largest version number a `ulong` can hold. */
  const MaxValue: VersionNumber := VersionNumber(UlongModulus - 1)

  /** `Next()`: `Value + 1` in unchecked `ulong` arithmetic, so `MaxValue` wraps to `MinValue`. */
  function Next(v: VersionNumber): (r: VersionNumber)
    ensures v != MaxValue ==> r.value == v.value + 1
    ensures v == MaxValue ==> r == MinValue
  {
    VersionNumber((v.value + 1) % UlongModulus)
  }

  /** Below `MaxValue`, the next version is strictly greater and is never the reserved minimum. */
  lemma NextIsGreater(v: VersionNumber)
    requires v != MaxValue
    ensures Next(v).value > v.value
    ensures Next(v) != MinValue
  {
  }

  /** `Next` is injective: distinct versions have distinct successors. */
  lemma NextInjective(a: VersionNumber, b: VersionNumber)
    ensures Next(a) == Next(b) <==> a == b
  {
  }

  /** `n` successive `Next` steps from `v`, as `n` reducers or appends perform them. */
  function Advance(v: VersionNumber, n: nat): VersionNumber
  {
    if n == 0 then v else Next(Advance(v, n - 1))
  }

  /** Without overflow, `n` steps add exactly `n`. */
  lemma {:induction false} AdvanceAdds(v: VersionNumber, n: nat)
    requires v.value + n < UlongModulus
    ensures Advance(v, n).value == v.value + n
  {
    if n > 0 {
      AdvanceAdds(v, n - 1);
    }
  }

  // ---------------------------------------------------------------------------
  // VersionNumber.ToString

  function DigitChar(d: nat): char
    requires d < 10
  {
    "0123456789"[d]
  }

  predicate IsDigit(c: char) { '0' <= c <= '9' }

  function DigitValue(c: char): nat
    requires IsDigit(c)
  {
    (c - '0') as nat
  }

  /** The decimal digits of `n`, most significant first. */
  function Decimal(n: nat): (s: string)
    ensures |s| > 0
    ensures forall i :: 0 <= i < |s| ==> IsDigit(s[i])
    ensures n > 0 ==> s[0] != '0'
    ensures n == 0 ==> s == "0"
  {
    if n < 10 then [DigitChar(n)] else Decimal(n / 10) + [DigitChar(n % 10)]
  }

  /** Reads a non-empty digit string back as a number. */
  function ParseDecimal(s: string): nat
    requires forall i :: 0 <= i < |s| ==> IsDigit(s[i])
  {
    if s == [] then 0 else ParseDecimal(s[..|s| - 1]) * 10 + DigitValue(s[|s| - 1])
  }

  /**
   * `ToString()`: the digits 0-9 of the value, without sign or leading zeroes,
   * and they read back as exactly the value.
   */
  function ToString(v: VersionNumber): (s: string)
    ensures |s| > 0 && (forall i :: 0 <= i < |s| ==> IsDigit(s[i]))
    ensures |s| > 1 ==> s[0] != '0'
    ensures ParseDecimal(s) == v.value
  {
    DecimalRoundTrip(v.value);
    Decimal(v.value)
  }

  lemma {:induction false} DecimalRoundTrip(n: nat)
    ensures ParseDecimal(Decimal(n)) == n
  {
    if n >= 10 {
      var s := Decimal(n);
      assert s[..|s| - 1] == Decimal(n / 10);
      DecimalRoundTrip(n / 10);
    }
  }

  /** Distinct versions print differently. */
  lemma ToStringInjective(a: VersionNumber, b: VersionNumber)
    ensures ToString(a) == ToString(b) <==> a == b
  {
  }

  // ---------------------------------------------------------------------------
  // TimeStamp

  /** `TimeSpan.TicksPerMillisecond`: a tick is 100 ns. */
  const TicksPerMillisecond: nat := 10000

  /** `DateTime.MaxValue.Ticks`. */
  const MaxTicks: nat := 3155378975999999999

  /** `DateTime.UnixEpoch.Ticks`: 00:00:00 UTC, January 1, 1970. */
  const UnixEpochTicks: nat := 621355968000000000

  /** A UTC instant, as the tick count of its `DateTime`. */
  datatype TimeStamp = TimeStamp(ticks: nat)

  predicate ValidTimeStamp(t: TimeStamp) { t.ticks <= MaxTicks }

  /** `TimeStamp.UnixEpoch`. */
  const UnixEpoch: TimeStamp := TimeStamp(UnixEpochTicks)

  /**
   * `WithMillisecondPrecision()`: the time stamp rounded down to the nearest millisecond.
   * The result is on a millisecond boundary, never later, and less than a millisecond earlier.
   */
  function WithMillisecondPrecision(t: TimeStamp): (r: TimeStamp)
    ensures r.ticks % TicksPerMillisecond == 0
    ensures r.ticks <= t.ticks < r.ticks + TicksPerMillisecond
    ensures ValidTimeStamp(t) ==> ValidTimeStamp(r)
  {
    TimeStamp(t.ticks - t.ticks % TicksPerMillisecond)
  }

  /** The rounded value is the unique millisecond boundary in the millisecond before `t`. */
  lemma MillisecondPrecisionUnique(t: TimeStamp, m: nat)
    requires m % TicksPerMillisecond == 0 && m <= t.ticks < m + TicksPerMillisecond
    ensures WithMillisecondPrecision(t).ticks == m
  {
  }

  /** A time stamp already on a millisecond boundary is unchanged, so rounding is idempotent. */
  lemma MillisecondPrecisionIdempotent(t: TimeStamp)
    ensures t.ticks % TicksPerMillisecond == 0 ==> WithMillisecondPrecision(t) == t
    ensures WithMillisecondPrecision(WithMillisecondPrecision(t)) == WithMillisecondPrecision(t)
  {
  }
}
