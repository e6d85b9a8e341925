/** The analytics service: the click-ingestion consumer with its geo lookup
    cache, and the per-code analytics query. The Clicks table is a sequence
    of rows, the Redis `geo:{ip}` entries a map, and the message broker is
    reduced to the settlement of each delivered message. */
module AnalyticsService {
  import opened Common

  // ---------------------------------------------------------------------
  // Records
  // ---------------------------------------------------------------------

  /** The queued message: which code was followed, from which address. */
  datatype ClickEvent = ClickEvent(shortCode: string, clientIp: string)

  /** A latitude or longitude (a `double`), carried without interpretation. */
  datatype Coordinate = Coordinate(raw: int)

  /** What the geo database knows of an address: country ISO code, city
      name and location, each of which may be missing. */
  datatype GeoInfo = GeoInfo(
    countryIso: Option<string>,
    cityName: Option<string>,
    latitude: Option<Coordinate>,
    longitude: Option<Coordinate>)

  /** One row of the Clicks table (its identity column is not modelled). */
  datatype Click = Click(
    shortCode: string,
    clientIp: string,
    timestamp: Timestamp,
    country: Option<string>,
    city: Option<string>,
    latitude: Option<Coordinate>,
    longitude: Option<Coordinate>)

  /** The row built for an event: the event's code and address, the
      ingestion time, and the geo fields when a lookup produced them. */
  function Enrich(ev: ClickEvent, now: Timestamp, geo: Option<GeoInfo>): Click
  {
    match geo
    case None => Click(ev.shortCode, ev.clientIp, now, None, None, None, None)
    case Some(g) => Click(ev.shortCode, ev.clientIp, now, g.countryIso, g.cityName, g.latitude, g.longitude)
  }

  // ---------------------------------------------------------------------
  // The geo lookup cache (`GetGeoData`), as a specification
  // ---------------------------------------------------------------------

  /** The geo data `GetGeoData` returns: the cached entry, else the
      database's answer, else nothing. */
  function ResolveGeo(cache: map<string, GeoInfo>, geoDb: map<string, GeoInfo>, ip: string): Option<GeoInfo>
  {
    if GeoKey(ip) in cache then Some(cache[GeoKey(ip)])
    else if ip in geoDb then Some(geoDb[ip])
    else None
  }

  /** The geo cache after `GetGeoData`: written only on a miss the database
      answers. */
  function GeoCacheAfter(cache: map<string, GeoInfo>, geoDb: map<string, GeoInfo>, ip: string): map<string, GeoInfo>
  {
    if GeoKey(ip) !in cache && ip in geoDb then cache[GeoKey(ip) := geoDb[ip]] else cache
  }

  /** Every `geo:{ip}` entry holds what the database says of `ip`; no
      failure is ever cached. */
  ghost predicate GeoCoherent(cache: map<string, GeoInfo>, geoDb: map<string, GeoInfo>) {
    forall ip :: GeoKey(ip) in cache ==> ip in geoDb && cache[GeoKey(ip)] == geoDb[ip]
  }

  /** Over a coherent cache the lookup answers exactly what the database
      does, and leaves the cache coherent. */
  lemma {:induction false} GeoLookupIsTransparent(cache: map<string, GeoInfo>, geoDb: map<string, GeoInfo>, ip: string)
    requires GeoCoherent(cache, geoDb)
    ensures ResolveGeo(cache, geoDb, ip) == if ip in geoDb then Some(geoDb[ip]) else None
    ensures GeoCoherent(GeoCacheAfter(cache, geoDb, ip), geoDb)
  {
    var after := GeoCacheAfter(cache, geoDb, ip);
    forall other | GeoKey(other) in after
      ensures other in geoDb && after[GeoKey(other)] == geoDb[other]
    {
      if GeoKey(other) == GeoKey(ip) {
        PrefixedKeyInjective("geo:", other, ip);
      }
    }
  }

  /** The row stored for an event over a coherent geo cache carries the
      event's code and address, the receive time, and exactly the
      database's four geo fields for the address, or four nulls when the
      database cannot resolve it. */
  lemma EnrichedClickCarriesDatabaseGeo(
    cache: map<string, GeoInfo>, geoDb: map<string, GeoInfo>, ev: ClickEvent, now: Timestamp)
    requires GeoCoherent(cache, geoDb)
    ensures var c := Enrich(ev, now, ResolveGeo(cache, geoDb, ev.clientIp));
      && c.shortCode == ev.shortCode && c.clientIp == ev.clientIp && c.timestamp == now
      && (ev.clientIp in geoDb ==>
            && c.country == geoDb[ev.clientIp].countryIso && c.city == geoDb[ev.clientIp].cityName
            && c.latitude == geoDb[ev.clientIp].latitude && c.longitude == geoDb[ev.clientIp].longitude)
      && (ev.clientIp !in geoDb ==>
            c.country.None? && c.city.None? && c.latitude.None? && c.longitude.None?)
  {
    GeoLookupIsTransparent(cache, geoDb, ev.clientIp);
  }

  // ---------------------------------------------------------------------
  // The consumer
  // ---------------------------------------------------------------------

  /** How a delivered message ends: acknowledged, rejected (with or
      without requeue), or left unsettled for the broker to redeliver. */
  datatype Delivery = Acked | Nacked(requeue: bool) | Unsettled

  class ClickConsumer {
    /** Rows saved in the Clicks table. A click whose save fails is lost
        with the consumer, so only saved rows are kept. */
    var clicks: seq<Click>
    /** Redis `geo:{ip}` entries. */
    var geoCache: map<string, GeoInfo>
    /** The read-only geo database: defined exactly for the addresses it
        can resolve; any other lookup throws. */
    const geoDb: map<string, GeoInfo>

    constructor (geoDb: map<string, GeoInfo>, clicks: seq<Click>, geoCache: map<string, GeoInfo>)
      ensures this.geoDb == geoDb && this.clicks == clicks && this.geoCache == geoCache
    {
      this.geoDb := geoDb;
      this.clicks := clicks;
      this.geoCache := geoCache;
    }

    /** `GetGeoData`: cache-aside over the geo database. A hit touches
        neither the database nor the cache; a miss the database answers is
        cached; a failed lookup yields nothing and caches nothing. */
    method GetGeoData(ip: string) returns (geo: Option<GeoInfo>)
      modifies this`geoCache
      ensures GeoKey(ip) in old(geoCache) ==>
        geo == Some(old(geoCache)[GeoKey(ip)]) && geoCache == old(geoCache)
      ensures GeoKey(ip) !in old(geoCache) && ip in geoDb ==>
        geo == Some(geoDb[ip]) && geoCache == old(geoCache)[GeoKey(ip) := geoDb[ip]]
      ensures GeoKey(ip) !in old(geoCache) && ip !in geoDb ==>
        geo == None && geoCache == old(geoCache)
      ensures old(GeoCoherent(geoCache, geoDb)) ==>
        GeoCoherent(geoCache, geoDb) && geo == if ip in geoDb then Some(geoDb[ip]) else None
    {
      if old(GeoCoherent(geoCache, geoDb)) {
        GeoLookupIsTransparent(geoCache, geoDb, ip);
      }
      if GeoKey(ip) in geoCache {
        return Some(geoCache[GeoKey(ip)]);
      }
      if ip !in geoDb {
        return None;
      }
      var info := geoDb[ip];
      geoCache := geoCache[GeoKey(ip) := info];
      return Some(info);
    }

    /** The `Received` handler for one message. `body` is the deserialized
        event (`None` when deserialization throws), `ipParses` stands for
        `IPAddress.TryParse`, `now` for `DateTime.UtcNow` and `saved` for
        whether `SaveChangesAsync` succeeds. */
    method Receive(body: Option<ClickEvent>, now: Timestamp, ipParses: string -> bool, saved: bool)
      returns (d: Delivery)
      modifies this`clicks, this`geoCache
      ensures body.None? ==> d == Unsettled && unchanged(this)
      ensures body.Some? && !ipParses(body.value.clientIp) ==> d == Nacked(false) && unchanged(this)
      ensures body.Some? && ipParses(body.value.clientIp) ==>
        var click := Enrich(body.value, now, ResolveGeo(old(geoCache), geoDb, body.value.clientIp));
        && geoCache == GeoCacheAfter(old(geoCache), geoDb, body.value.clientIp)
        && (saved ==> d == Acked && clicks == old(clicks) + [click])
        && (!saved ==> d == Unsettled && clicks == old(clicks))
      ensures d == Acked <==> body.Some? && ipParses(body.value.clientIp) && saved
      ensures old(GeoCoherent(geoCache, geoDb)) ==> GeoCoherent(geoCache, geoDb)
    {
      if body.None? {
        return Unsettled;
      }
      var ev := body.value;
      if !ipParses(ev.clientIp) {
        return Nacked(false);
      }
      var geo := GetGeoData(ev.clientIp);
      var click := Enrich(ev, now, geo);
      if !saved {
        return Unsettled;
      }
      clicks := clicks + [click];
      return Acked;
    }
  }

  // ---------------------------------------------------------------------
  // Grouping and counting
  // ---------------------------------------------------------------------

  /** Keys of a grouping, each at most once. */
  ghost predicate DistinctKeys<K>(groups: seq<(K, nat)>) {
    forall i, j :: 0 <= i < j < |groups| ==> groups[i].0 != groups[j].0
  }

  /** Each group's key, taken as many times as its count says. */
  function Tally<K>(groups: seq<(K, nat)>): multiset<K> {
    if groups == [] then multiset{} else multiset{}[groups[0].0 := groups[0].1] + Tally(groups[1..])
  }

  function SumCounts<K>(groups: seq<(K, nat)>): nat {
    if groups == [] then 0 else groups[0].1 + SumCounts(groups[1..])
  }

  /** One more occurrence of `k`: its group grows by one, or a group of one
      is added at the end. */
  function AddOne<K(==)>(groups: seq<(K, nat)>, k: K): seq<(K, nat)> {
    if groups == [] then [(k, 1)]
    else if groups[0].0 == k then [(k, groups[0].1 + 1)] + groups[1..]
    else [groups[0]] + AddOne(groups[1..], k)
  }

  /** One more occurrence of `k` adds `k` to the tally and one to the sum. */
  lemma {:induction false} AddOneTally<K>(groups: seq<(K, nat)>, k: K)
    ensures Tally(AddOne(groups, k)) == Tally(groups) + multiset{k}
    ensures SumCounts(AddOne(groups, k)) == SumCounts(groups) + 1
  {
    var r := AddOne(groups, k);
    if groups == [] {
      assert r[1..] == [];
    } else if groups[0].0 == k {
      assert r[1..] == groups[1..];
    } else {
      assert r[1..] == AddOne(groups[1..], k);
      AddOneTally(groups[1..], k);
    }
  }

  /** Dropping the first group keeps the keys distinct. */
  lemma DistinctTail<K>(groups: seq<(K, nat)>)
    requires groups != [] && DistinctKeys(groups)
    ensures DistinctKeys(groups[1..])
  {
    var tail := groups[1..];
    forall i, j | 0 <= i < j < |tail| ensures tail[i].0 != tail[j].0 {
      assert tail[i] == groups[i + 1] && tail[j] == groups[j + 1];
    }
  }

  /** One more occurrence of `k` keeps the counts positive. */
  lemma {:induction false} AddOnePositive<K>(groups: seq<(K, nat)>, k: K)
    requires forall i :: 0 <= i < |groups| ==> groups[i].1 > 0
    ensures forall i :: 0 <= i < |AddOne(groups, k)| ==> AddOne(groups, k)[i].1 > 0
  {
    var r := AddOne(groups, k);
    if groups != [] && groups[0].0 == k {
      forall i | 0 <= i < |r| ensures r[i].1 > 0 {
        if i > 0 { assert r[i] == groups[i]; }
      }
    } else if groups != [] {
      var tail := groups[1..];
      var rest := AddOne(tail, k);
      assert r == [groups[0]] + rest;
      assert forall i :: 0 <= i < |tail| ==> tail[i].1 > 0 by {
        forall i | 0 <= i < |tail| ensures tail[i].1 > 0 {
          assert tail[i] == groups[i + 1];
        }
      }
      AddOnePositive(tail, k);
      forall i | 0 <= i < |r| ensures r[i].1 > 0 {
        if i > 0 { assert r[i] == rest[i - 1]; }
      }
    }
  }

  /** One more occurrence of `k` keeps the keys distinct. */
  lemma {:induction false} AddOneDistinct<K>(groups: seq<(K, nat)>, k: K)
    requires DistinctKeys(groups)
    ensures DistinctKeys(AddOne(groups, k))
  {
    var r := AddOne(groups, k);
    if groups != [] && groups[0].0 == k {
      forall i, j | 0 <= i < j < |r| ensures r[i].0 != r[j].0 {
        assert r[j] == groups[j];
        if i > 0 { assert r[i] == groups[i]; }
      }
    } else if groups != [] {
      var tail := groups[1..];
      var rest := AddOne(tail, k);
      assert r == [groups[0]] + rest;
      DistinctTail(groups);
      AddOneDistinct(tail, k);
      AddOneKeys(tail, k);
      forall i, j | 0 <= i < j < |r| ensures r[i].0 != r[j].0 {
        if i == 0 {
          assert r[j] == rest[j - 1];
          if rest[j - 1].0 != k {
            var m :| 0 <= m < |tail| && tail[m].0 == rest[j - 1].0;
            assert groups[m + 1].0 == rest[j - 1].0;
          }
        } else {
          assert r[i] == rest[i - 1] && r[j] == rest[j - 1];
        }
      }
    }
  }

  /** One more occurrence of `k`: keys stay distinct and counts positive,
      `k` joins the tally and the sum grows by one. */
  lemma AddOneCounts<K>(groups: seq<(K, nat)>, k: K)
    requires DistinctKeys(groups)
    requires forall i :: 0 <= i < |groups| ==> groups[i].1 > 0
    ensures DistinctKeys(AddOne(groups, k))
    ensures forall i :: 0 <= i < |AddOne(groups, k)| ==> AddOne(groups, k)[i].1 > 0
    ensures Tally(AddOne(groups, k)) == Tally(groups) + multiset{k}
    ensures SumCounts(AddOne(groups, k)) == SumCounts(groups) + 1
  {
    AddOneTally(groups, k);
    AddOnePositive(groups, k);
    AddOneDistinct(groups, k);
  }

  /** The keys after `AddOne`: the old ones and `k`. */
  lemma {:induction false} AddOneKeys<K>(groups: seq<(K, nat)>, k: K)
    ensures forall i :: 0 <= i < |AddOne(groups, k)| ==>
      AddOne(groups, k)[i].0 == k || exists m :: 0 <= m < |groups| && groups[m].0 == AddOne(groups, k)[i].0
  {
    if groups != [] && groups[0].0 != k {
      var rest := AddOne(groups[1..], k);
      AddOneKeys(groups[1..], k);
      forall i | 0 <= i < |AddOne(groups, k)|
        ensures AddOne(groups, k)[i].0 == k || exists m :: 0 <= m < |groups| && groups[m].0 == AddOne(groups, k)[i].0
      {
        if i == 0 {
          assert groups[0].0 == AddOne(groups, k)[0].0;
        } else {
          assert AddOne(groups, k)[i] == rest[i - 1];
          if rest[i - 1].0 != k {
            var m :| 0 <= m < |groups[1..]| && groups[1..][m].0 == rest[i - 1].0;
            assert groups[m + 1].0 == rest[i - 1].0;
          }
        }
      }
    } else if groups != [] {
      forall i | 0 <= i < |AddOne(groups, k)|
        ensures AddOne(groups, k)[i].0 == k || exists m :: 0 <= m < |groups| && groups[m].0 == AddOne(groups, k)[i].0
      {
        if i > 0 {
          assert AddOne(groups, k)[i] == groups[i];
        }
      }
    }
  }

  /** `GroupBy(key).Select(g => new { g.Key, Count = g.Count() })` over a
      sequence of keys: one group per distinct key, with positive counts
      that add up to the number of keys and tally exactly the keys. */
  function CountBy<K(==)>(keys: seq<K>): (groups: seq<(K, nat)>)
    ensures DistinctKeys(groups)
    ensures forall i :: 0 <= i < |groups| ==> groups[i].1 > 0
    ensures Tally(groups) == multiset(keys)
    ensures SumCounts(groups) == |keys|
  {
    if keys == [] then []
    else
      var init := keys[..|keys| - 1];
      var last := keys[|keys| - 1];
      assert keys == init + [last];
      var before := CountBy(init);
      AddOneCounts(before, last);
      AddOne(before, last)
  }

  /** In a grouping with distinct keys, a group's count is its key's
      multiplicity in the tally, and every tallied key has a group. */
  lemma {:induction false} TallyOfDistinct<K>(groups: seq<(K, nat)>)
    requires DistinctKeys(groups)
    ensures forall i :: 0 <= i < |groups| ==> Tally(groups)[groups[i].0] == groups[i].1
    ensures forall k :: k in Tally(groups) ==> exists i :: 0 <= i < |groups| && groups[i].0 == k
  {
    if groups != [] {
      var rest := groups[1..];
      DistinctTail(groups);
      TallyOfDistinct(rest);
      forall i | 0 <= i < |groups| ensures Tally(groups)[groups[i].0] == groups[i].1 {
        if i == 0 {
          forall m | 0 <= m < |rest| ensures rest[m].0 != groups[0].0 {
            assert rest[m] == groups[m + 1];
          }
          assert groups[0].0 !in Tally(rest);
        } else {
          assert groups[i] == rest[i - 1];
          assert groups[0].0 != groups[i].0;
        }
      }
      forall k | k in Tally(groups) ensures exists i :: 0 <= i < |groups| && groups[i].0 == k {
        if k != groups[0].0 {
          assert k in Tally(rest);
          var m :| 0 <= m < |rest| && rest[m].0 == k;
          assert groups[m + 1].0 == k;
        }
      }
    }
  }

  /** Some group of the grouping has key `k`. */
  ghost predicate HasGroup<K>(groups: seq<(K, nat)>, k: K) {
    exists i :: 0 <= i < |groups| && groups[i].0 == k
  }

  /** `CountBy` is exact: each group counts its key's occurrences, and
      every key occurring has a group. */
  lemma CountByIsExact<K>(keys: seq<K>)
    ensures forall i :: 0 <= i < |CountBy(keys)| ==> CountBy(keys)[i].1 == multiset(keys)[CountBy(keys)[i].0]
    ensures forall k :: k in keys ==> HasGroup(CountBy(keys), k)
  {
    var groups := CountBy(keys);
    TallyOfDistinct(groups);
    forall k | k in keys ensures HasGroup(groups, k) {
      assert k in multiset(keys);
      assert k in Tally(groups);
    }
  }

  // ---------------------------------------------------------------------
  // The analytics query (`GetAnalytics`)
  // ---------------------------------------------------------------------

  /** `Clicks.Where(c => c.ShortCode == code)`, in table order. */
  function ClicksFor(clicks: seq<Click>, code: string): (r: seq<Click>)
    ensures |r| <= |clicks|
    ensures forall c :: c in r <==> c in clicks && c.shortCode == code
    ensures forall c :: multiset(r)[c] == if c.shortCode == code then multiset(clicks)[c] else 0
  {
    if clicks == [] then []
    else
      var init := clicks[..|clicks| - 1];
      var last := clicks[|clicks| - 1];
      assert clicks == init + [last];
      assert multiset(clicks) == multiset(init) + multiset{last};
      var r := ClicksFor(init, code) + if last.shortCode == code then [last] else [];
      assert multiset(r) == multiset(ClicksFor(init, code)) + if last.shortCode == code then multiset{last} else multiset{};
      r
  }

  /** The day (`Timestamp.Date`) of each click. */
  function DaysOf(cs: seq<Click>): (days: seq<nat>)
    ensures |days| == |cs|
  {
    seq(|cs|, i requires 0 <= i < |cs| => DayOf(cs[i].timestamp))
  }

  /** The (country, city) pair of each click. */
  function PlacesOf(cs: seq<Click>): (places: seq<(Option<string>, Option<string>)>)
    ensures |places| == |cs|
  {
    seq(|cs|, i requires 0 <= i < |cs| => (cs[i].country, cs[i].city))
  }

  /** Some row of the Urls table has this code and this owner. */
  predicate Owns(urls: seq<UrlEntry>, code: string, userId: string) {
    exists i :: 0 <= i < |urls| && urls[i].shortCode == code && urls[i].userId == userId
  }

  datatype Report = Report(
    shortCode: string,
    totalClicks: nat,
    dailyClicks: seq<(nat, nat)>,
    geoData: seq<((Option<string>, Option<string>), nat)>)

  datatype AnalyticsResult = NotFound | Found(report: Report)

  /** `GetAnalytics`: only the owner of a code sees its report; the total
      is the sum of the daily counts, and both the daily and the
      geographic breakdowns account for every click on the code. */
  function GetAnalytics(urls: seq<UrlEntry>, clicks: seq<Click>, shortCode: string, userId: string): (r: AnalyticsResult)
    ensures r.NotFound? <==> !Owns(urls, shortCode, userId)
    ensures r.Found? ==>
      && r.report.shortCode == shortCode
      && r.report.totalClicks == |ClicksFor(clicks, shortCode)|
      && SumCounts(r.report.dailyClicks) == r.report.totalClicks
      && SumCounts(r.report.geoData) == r.report.totalClicks
      && DistinctKeys(r.report.dailyClicks) && DistinctKeys(r.report.geoData)
      && (forall i :: 0 <= i < |r.report.dailyClicks| ==> r.report.dailyClicks[i].1 > 0)
      && (forall i :: 0 <= i < |r.report.geoData| ==> r.report.geoData[i].1 > 0)
      && multiset(DaysOf(ClicksFor(clicks, shortCode))) == Tally(r.report.dailyClicks)
      && multiset(PlacesOf(ClicksFor(clicks, shortCode))) == Tally(r.report.geoData)
  {
    if !Owns(urls, shortCode, userId) then NotFound
    else
      var mine := ClicksFor(clicks, shortCode);
      var daily := CountBy(DaysOf(mine));
      var geo := CountBy(PlacesOf(mine));
      Found(Report(shortCode, SumCounts(daily), daily, geo))
  }

  /** Ingesting one click on a code raises its total by one and leaves
      every other code's report as it was. */
  lemma {:induction false} IngestRaisesTotalByOne(urls: seq<UrlEntry>, clicks: seq<Click>, c: Click, shortCode: string, userId: string)
    requires Owns(urls, shortCode, userId)
    ensures c.shortCode == shortCode ==>
      GetAnalytics(urls, clicks + [c], shortCode, userId).report.totalClicks ==
      GetAnalytics(urls, clicks, shortCode, userId).report.totalClicks + 1
    ensures c.shortCode != shortCode ==>
      GetAnalytics(urls, clicks + [c], shortCode, userId) == GetAnalytics(urls, clicks, shortCode, userId)
  {
    ClicksForAppend(clicks, c, shortCode);
    var before := GetAnalytics(urls, clicks, shortCode, userId);
    var after := GetAnalytics(urls, clicks + [c], shortCode, userId);
    assert before.Found? && after.Found?;
    if c.shortCode == shortCode {
      assert after.report.totalClicks == |ClicksFor(clicks, shortCode)| + 1;
    } else {
      assert ClicksFor(clicks + [c], shortCode) == ClicksFor(clicks, shortCode);
    }
  }

  /** Appending a click appends it to its own code's clicks only. */
  lemma ClicksForAppend(clicks: seq<Click>, c: Click, code: string)
    ensures ClicksFor(clicks + [c], code) == ClicksFor(clicks, code) + if c.shortCode == code then [c] else []
  {
    assert (clicks + [c])[..|clicks + [c]| - 1] == clicks;
  }
}
