/** Values shared by the three services: optional values, timestamps, the
    Redis key scheme and the `UrlEntry` row of the Urls table. */
module Common {

  datatype Option<+T> = None | Some(value: T)

  /** A `DateTime` as its tick count (100-nanosecond units since 0001-01-01). */
  type Timestamp = nat

  const TicksPerDay: nat := 864_000_000_000

  /** `DateTime.Date`, as the number of the day the instant falls in. */
  function DayOf(t: Timestamp): (d: nat)
    ensures d * TicksPerDay <= t < d * TicksPerDay + TicksPerDay
  {
    t / TicksPerDay
  }

  /** One row of the Urls table (`ShortCode` carries a unique index). */
  datatype UrlEntry = UrlEntry(shortCode: string, originalUrl: string, userId: string, createdAt: Timestamp)

  /** A read of a Redis string. A missing key and an empty value both read
      as a miss, because every caller tests `IsNullOrEmpty`. */
  function CacheGet(cache: map<string, string>, key: string): Option<string>
  {
    if key in cache && cache[key] != "" then Some(cache[key]) else None
  }

  /** The Redis keys `url:{code}`, `geo:{ip}` and `quota:{userId}`. */
  function UrlKey(code: string): string { "url:" + code }
  function GeoKey(ip: string): string { "geo:" + ip }
  function QuotaKey(userId: string): string { "quota:" + userId }

  /** Keys built from one prefix never collide: a cache write for one code,
      IP or user leaves every other one's entry alone. */
  lemma {:induction false} PrefixedKeyInjective(prefix: string, a: string, b: string)
    requires prefix + a == prefix + b
    ensures a == b
  {
    calc {
      a;
      (prefix + a)[|prefix|..];
      (prefix + b)[|prefix|..];
      b;
    }
  }
}
