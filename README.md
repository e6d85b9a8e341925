# URL shortener core, modelled in Dafny

This project models the decision logic of a small URL shortener made of three
ASP.NET services:

- the **URL service** allocates six-character short codes, shortens URLs and
  resolves codes on redirect;
- the **analytics service** consumes click events from a queue, enriches them
  with a geolocation, stores them and reports per-link statistics;
- the **user service** registers users, maps plans to link quotas and answers
  quota lookups.

Redis is a `map<string, string>` of string entries (`url:{code}`, `quota:{id}`)
plus the set `short_codes`. The geo cache `geo:{ip}` is a map to typed geo
records. The Urls, Users and Clicks tables are sequences of rows, in insertion
order. A queue delivery ends as `Acked`, `Nacked(requeue)` or `Unsettled`.

The source's own input to each decision is a parameter of the model:

- `Random` becomes a draw oracle: five or more draws of six indices in `[0, 62)`.
- `DateTime.UtcNow` becomes a tick count.
- `Uri.TryCreate` and `IPAddress.TryParse` become a function and a predicate.
- The MaxMind database becomes a partial map held by the consumer.
- The user-service HTTP reply becomes a `QuotaReply`.
- The outcome of `SaveChangesAsync` in `ShortenUrl` and `Receive` becomes a boolean.
- The user id that the JWT carries becomes a parameter.

Every service that caches has a coherence invariant:

- `CacheCoherent`: every `url:{code}` entry is the URL the Urls table resolves the code to.
- `GeoCoherent`: every `geo:{ip}` entry is the database's answer for that IP.
- `QuotaCoherent`: every `quota:{id}` entry is the decimal text of that user's stored quota.

Each state-changing method preserves its invariant. Under the invariant, each
cache-aside read gives the same answer as the table or database it fronts.

Modules:

- `Common` holds shared values and the Redis key scheme.
- `UrlService`, `AnalyticsService` and `UserService` follow the three source files.
- `EndToEnd` relates the services to each other: the user service's quota answer to the URL service's gate (`QuotaGateBoundsOwnedLinks`, `NewUserGateOpensBelowTen`), the analytics ownership check to the stored row (`OwnershipIsOwnerOfStoredRow`), and a shorten to the redirect that follows it (`ShortenThenRedirect`).

## Model

| member | source | states |
|---|---|---|
| Common.DayOf | src/UrlShortener.AnalyticsService/AnalyticsService.cs:44 | the day number `Timestamp.Date` groups by is the day whose tick interval contains the instant |
| Common.PrefixedKeyInjective | src/UrlShortener.UrlService/UrlService4.cs:50 | two Redis keys with the same prefix (`url:`, `geo:`, `quota:`) are equal only for equal suffixes, so a write for one code, IP or user never touches another's entry |
| UrlService.AlphabetIsAlphanumeric | src/UrlShortener.UrlService/UrlService4.cs:85 | the code alphabet has 62 characters, each an ASCII letter or digit |
| UrlService.AlphabetIsComplete | src/UrlShortener.UrlService/UrlService4.cs:85 | every ASCII letter and digit is in the code alphabet |
| UrlService.CodeOf | src/UrlShortener.UrlService/UrlService4.cs:92-93 | a drawn code has length 6 and every character is from `[a-zA-Z0-9]` |
| UrlService.FirstWithCode | src/UrlShortener.UrlService/UrlService4.cs:69 | `FirstOrDefaultAsync` by short code: no row exactly when no stored row has the code; otherwise the first row that has it |
| UrlService.FirstWithCodeAppend | src/UrlShortener.UrlService/UrlService4.cs:45-46 | appending a row changes the lookup only for a code no earlier row had, which then finds the new row |
| UrlService.ShortenKeepsStoreAndCacheInStep | src/UrlShortener.UrlService/UrlService4.cs:45-50 | storing a row with an unused code and caching `url:{code}` keeps codes unique and the cache coherent, and the code then resolves to the URL |
| UrlService.RepairKeepsCacheCoherent | src/UrlShortener.UrlService/UrlService4.cs:76 | writing back the URL the table resolves a code to keeps the URL cache coherent |
| UrlService.AllocateFromFindsFirstFree | src/UrlShortener.UrlService/UrlService4.cs:90-108 | from a given attempt on, allocation fails exactly when every remaining draw collides with the set or the table; otherwise it returns the first free draw |
| UrlService.AllocateFromExhaustedIffAllCollide | src/UrlShortener.UrlService/UrlService4.cs:90-108 | from a given attempt on, allocation fails exactly when every remaining draw collides |
| UrlService.AllocateFromReturnsFirstFree | src/UrlShortener.UrlService/UrlService4.cs:90-105 | from a given attempt on, an allocated code is the first free draw that remains |
| UrlService.AllocatedCodeIsFreshAndWellFormed | src/UrlShortener.UrlService/UrlService4.cs:92-103 | an allocated code has length 6 and alphanumeric characters, and was absent from `short_codes` and from the Urls table |
| UrlService.AllocateExhaustedIffAllCollide | src/UrlShortener.UrlService/UrlService4.cs:86-108 | allocation fails exactly when each of the five draws is in `short_codes` or in the table |
| UrlService.AllocateReadsAtMostFiveDraws | src/UrlShortener.UrlService/UrlService4.cs:86-90 | the outcome depends on the first five draws only: at most five attempts are made |
| UrlService.ShortUrl | src/UrlShortener.UrlService/UrlService4.cs:52 | the returned short URL ends with the short code |
| UrlService.UrlService.GenerateShortCode | src/UrlShortener.UrlService/UrlService4.cs:83-109 | the loop returns what the allocation specification returns; the code is added to `short_codes` on success, and the set is unchanged on failure |
| UrlService.UrlService.ShortenUrl | src/UrlShortener.UrlService/UrlService4.cs:23-53 | a URL that does not parse as absolute `http` or `https`, or a failed quota check, changes nothing; exhaustion changes nothing; on success there is exactly one new row `(code, url, userId, now)` and `url:{code}` holds the URL; the invariant is kept and the code resolves to the URL |
| UrlService.UrlService.SendClickEvent | src/UrlShortener.UrlService/UrlService4.cs:129-133 | publishing a click changes nothing: the body is empty |
| UrlService.UrlService.RedirectUrl | src/UrlShortener.UrlService/UrlService4.cs:55-81 | a hit returns the cached URL and writes nothing; a miss returns the table's answer and caches it only when found; under the invariant the answer is the table's |
| EndToEnd.QuotaGateBoundsOwnedLinks | src/UrlShortener.UrlService/UrlService4.cs:117-127 | the gate (`Quota > Used` on a success reply) is open exactly when the user exists and owns fewer links than the quota; a link stored while it is open keeps the owner within the quota |
| EndToEnd.NewUserGateOpensBelowTen | src/UrlShortener.UserService/UserService.cs:34-44 | a user just registered may shorten exactly while owning fewer than ten links |
| EndToEnd.OwnershipIsOwnerOfStoredRow | src/UrlShortener.AnalyticsService/AnalyticsService.cs:36 | with short codes unique, the analytics ownership check (`Owns`) holds exactly when the row the code resolves to belongs to the caller |
| EndToEnd.ShortenThenRedirect | src/UrlShortener.UrlService/UrlService4.cs:36-80 | after a successful shorten, a redirect on the returned code reaches the shortened URL, whatever the store and cache held before |
| AnalyticsService.GeoLookupIsTransparent | src/UrlShortener.AnalyticsService/AnalyticsService.cs:109-136 | over a coherent geo cache, the cache-aside lookup answers what the database answers, and the cache stays coherent |
| AnalyticsService.EnrichedClickCarriesDatabaseGeo | src/UrlShortener.AnalyticsService/AnalyticsService.cs:87-98 | over a coherent geo cache, a stored click carries the event's code and IP and the receive time, and its country, city, latitude and longitude are the database's answer for the IP, or all null when the database cannot resolve it |
| AnalyticsService.ClickConsumer.GetGeoData | src/UrlShortener.AnalyticsService/AnalyticsService.cs:109-136 | a hit returns the cached record and writes nothing; a miss on a known IP caches and returns its record; a failed lookup returns null and writes nothing; coherence is kept |
| AnalyticsService.ClickConsumer.Receive | src/UrlShortener.AnalyticsService/AnalyticsService.cs:73-104 | an undeserialisable body changes nothing and stays unsettled; an invalid IP is nacked without requeue and changes nothing; a valid one looks up the geo data and, when the save succeeds, adds exactly one enriched click and acks; a failed save stores nothing and leaves the message unsettled |
| AnalyticsService.AddOneTally | src/UrlShortener.AnalyticsService/AnalyticsService.cs:44-45 | counting one more key adds it to the tally and one to the sum |
| AnalyticsService.AddOnePositive | src/UrlShortener.AnalyticsService/AnalyticsService.cs:45 | counting one more key keeps every count positive |
| AnalyticsService.AddOneDistinct | src/UrlShortener.AnalyticsService/AnalyticsService.cs:44 | counting one more key keeps the keys distinct |
| AnalyticsService.AddOneCounts | src/UrlShortener.AnalyticsService/AnalyticsService.cs:44-45 | counting one more key keeps keys distinct and counts positive, and adds it to the tally and one to the sum |
| AnalyticsService.AddOneKeys | src/UrlShortener.AnalyticsService/AnalyticsService.cs:44-45 | counting one more key introduces no key other than it |
| AnalyticsService.CountBy | src/UrlShortener.AnalyticsService/AnalyticsService.cs:42-55 | `GroupBy` + `Count`: keys are distinct, counts are positive, the group tally is the multiset of keys and the counts sum to the number of keys |
| AnalyticsService.TallyOfDistinct | src/UrlShortener.AnalyticsService/AnalyticsService.cs:45 | with distinct keys, each group's count is its key's multiplicity, and every tallied key has a group |
| AnalyticsService.CountByIsExact | src/UrlShortener.AnalyticsService/AnalyticsService.cs:42-55 | every group's count is the number of occurrences of its key, and every key occurring has a group |
| AnalyticsService.ClicksFor | src/UrlShortener.AnalyticsService/AnalyticsService.cs:42-43 | the filtered clicks are exactly the clicks with that short code, each as many times as it occurs in the table |
| AnalyticsService.ClicksForAppend | src/UrlShortener.AnalyticsService/AnalyticsService.cs:100 | a new click joins the filtered clicks of its own code only |
| AnalyticsService.GetAnalytics | src/UrlShortener.AnalyticsService/AnalyticsService.cs:33-64 | NotFound exactly when no row has that code and the caller as owner; otherwise the total equals the number of clicks for the code and equals the sum of the daily counts and of the geo counts; each grouping is exact, with distinct keys and no empty group |
| AnalyticsService.IngestRaisesTotalByOne | src/UrlShortener.AnalyticsService/AnalyticsService.cs:42-103 | storing a click for a link raises that link's total by one; a click for another link leaves it unchanged |
| UserService.QuotaFor | src/UrlShortener.UserService/UserService.cs:104-109 | every plan's quota is at least the free quota, and equals it exactly for the free plan |
| UserService.PlanQuotas | src/UrlShortener.UserService/UserService.cs:104-109 | Basic buys 100 links, Premium 1000, Free 10 |
| UserService.NatToDecimal | src/UrlShortener.UserService/UserService.cs:48 | the decimal text of a number is non-empty and made of digits |
| UserService.Int32ToText | src/UrlShortener.UserService/UserService.cs:48 | the text Redis stores for an integer is non-empty, starts with `-` exactly for a negative value, and is digits after that |
| UserService.ParseInt32 | src/UrlShortener.UserService/UserService.cs:76 | `int.Parse` succeeds only on an optional sign followed by digits, and a negative result has a leading `-`; a digit string, with or without a leading `+` or `-`, whose signed value is within the 32-bit range parses to that signed value; every success is the signed value of its digits, so a value outside the 32-bit range fails |
| UserService.DecimalRoundTrip | src/UrlShortener.UserService/UserService.cs:48-76 | reading back the decimal text of a number gives that number |
| UserService.QuotaTextRoundTrip | src/UrlShortener.UserService/UserService.cs:73-87 | `int.Parse` of the text Redis stores for a quota gives that quota |
| UserService.UserIndex | src/UrlShortener.UserService/UserService.cs:80 | `FirstOrDefaultAsync` by id: none exactly when no user has the id; otherwise the first position that has it |
| UserService.CountOwned | src/UrlShortener.UserService/UserService.cs:121-126 | `Used` is the number of Urls rows whose owner is the user |
| UserService.OwnedRowsSnoc | src/UrlShortener.UserService/UserService.cs:125 | the rows a user owns are those among all but the last row, plus the last row when the user owns it |
| UserService.CountOwnedAppend | src/UrlShortener.UserService/UserService.cs:125 | one more stored link raises its owner's count by one and no one else's |
| UserService.EmailTakenAppend | src/UrlShortener.UserService/UserService.cs:29 | after a user is added, an email is taken exactly when it was taken before or is the new user's, so registering the same email again is refused |
| UserService.CachedQuotaIsStored | src/UrlShortener.UserService/UserService.cs:73-76 | over a coherent cache, a cached quota parses to the stored quota of an existing user |
| UserService.QuotaWriteKeepsCoherent | src/UrlShortener.UserService/UserService.cs:87 | writing a user's stored quota to `quota:{id}` keeps the cache coherent |
| UserService.RegisterKeepsInvariants | src/UrlShortener.UserService/UserService.cs:29-48 | registering with an unused email and a fresh id keeps emails and ids unique and the cache coherent, and the new user is found by id |
| UserService.UserIndexAppend | src/UrlShortener.UserService/UserService.cs:43 | appending a user changes lookups only for an id no earlier user had, which then finds the new user |
| UserService.UserIndexFollowsIds | src/UrlShortener.UserService/UserService.cs:80 | a lookup by id depends only on the ids at each position |
| UserService.UserIndexUpdate | src/UrlShortener.UserService/UserService.cs:103-112 | updating a user's plan and quota in place leaves every lookup by id at the same position |
| UserService.UpgradeKeepsInvariants | src/UrlShortener.UserService/UserService.cs:103-116 | the upgrade keeps emails and ids unique and the cache coherent, and the user is then found with the new plan and quota |
| UserService.UserService.Register | src/UrlShortener.UserService/UserService.cs:27-51 | a taken email is refused with nothing changed; otherwise exactly one Free user with quota 10 is added and `quota:{id}` holds "10"; the invariants are kept |
| UserService.UserService.GetQuota | src/UrlShortener.UserService/UserService.cs:67-90 | a hit parses the cached text without a user lookup; a miss on an unknown user writes nothing; a miss on a known user caches its quota; `Used` is the owned-row count; under the invariant the answer is the stored one |
| UserService.UserService.UpgradePlan | src/UrlShortener.UserService/UserService.cs:92-119 | an unknown user is refused with nothing changed; otherwise the user's plan and quota become the plan's, the same quota is written to `quota:{id}`, and the invariants are kept |

## Left out

- Password hashing, login and JWT creation are not modelled: `Login` and `GenerateJwtToken` are library crypto. The caller's id, which the source takes from the JWT, is a parameter.
- Redis TTLs (24 hours, 30 days) and expiry are left out. An entry stays until it is overwritten. Only explicit writes are modelled.
- JSON is not modelled. The geo cache holds typed records, and a queue message body is an `Option` in which `None` stands for a payload that fails to deserialise.
- Latitude and longitude are opaque values. No floating-point reasoning is done.
- Failures of Redis and of the HTTP client are not modelled, apart from the quota reply's status.
- EndToEnd.ReplyOf: the cross-service lemmas `QuotaGateBoundsOwnedLinks` and `NewUserGateOpensBelowTen` assume the reply's JSON names bind to `QuotaResponse`'s `Quota` and `Used`. Under framework defaults they do not: the user service writes camelCase names and the URL service reads them case-sensitively, so both read as 0 and every shorten is refused. The lemmas hold only if the user service's host, which is not part of this model, changes the naming policy.
- EndToEnd.QuotaGateBoundsOwnedLinks: the cross-service lemmas (`QuotaGateBoundsOwnedLinks`, `NewUserGateOpensBelowTen`, `OwnershipIsOwnerOfStoredRow`, `ShortenThenRedirect`) take the Urls table that `UserDbContext` counts, the one `AnalyticsDbContext` checks ownership against and the one `UrlDbContext` writes as one table. The source has three separate contexts and declares the unique `ShortCode` index only on `UrlDbContext`. That they share one database is host configuration, which is not part of this model; the user service's own comment calls its count a simulation of asking the URL service.
- AnalyticsService.ClickConsumer.Receive: the end of the consumer process is not modelled. An exception escaping the handler ends the process; the model's consumer instead keeps its saved clicks and geo cache and takes the next message, as a restarted consumer over the same database and Redis would.
- Only the outcome of `SaveChangesAsync` is modelled: a boolean in `ShortenUrl` and `Receive`. In `Register` and `UpgradePlan` the save is taken to succeed.
- Concurrency is left out. Each request is one sequential step, so races between two allocators or between two registrations with the same email are not covered.
- The RabbitMQ connection, queue declaration and consumer registration are left out. Each delivery is reduced to its ack/nack outcome.
- The analytics service's `Program.cs` is not part of this model.
- The `Click` row's generated `Id` is not modelled.
- Unlike C#, the model's `Plan` type has no out-of-range enum values. The source's `_ => 10` arm covers those values as well as Free.
- UserService.ParseInt32: surrounding whitespace is not modelled. `int.Parse` accepts it; the model rejects it.
- UserService.UserService.Register: requires the new id to be unused, standing for the freshly generated `Guid` the row receives.
- UrlService.ValidDraws: requires at least five draws of six indices in `[0, 62)`. `Random.Next(62)` always yields such an index.

## Behaviour that follows the code

The model follows the code in these places:

- A redirect should publish a click event for the analytics service, but
  `SendClickEventAsync` has an empty body, so a redirect publishes nothing. `UrlService.UrlService.SendClickEvent` is a no-op, and the
  redirect to click to analytics chain is modelled only from the point where
  a message reaches the consumer.
- The `Received` handler is an `async` lambda, so an exception in it is
  rethrown on the thread pool and, by .NET's default, ends the consumer
  process. A body that does not deserialise, or a failed
  `SaveChangesAsync`, therefore ends the consumer before any ack or nack.
  The message is not rejected; it stays unacked and the broker redelivers
  it to the next consumer. A click whose save failed is lost with the
  process.
- The allocator adds the chosen code to `short_codes` before the row is
  saved. When the save fails, the code stays reserved in the set although
  no row holds it; `ShortenUrl`'s contract states this.
- A cached quota that is not a decimal integer makes `int.Parse` throw, so
  the quota request fails (`MalformedCache`). Under the coherence invariant
  this cannot happen.
