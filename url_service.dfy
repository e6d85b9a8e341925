/** The URL service: short-code allocation, shortening, and the cache-aside
    redirect. Redis is the `cache` map of string keys plus the `short_codes`
    set; the relational Urls table is a sequence of rows. */
module UrlService {
  import opened Common

  // ---------------------------------------------------------------------
  // The code alphabet
  // ---------------------------------------------------------------------

  /** `chars`: lower-case letters, upper-case letters, then digits (62 in all). */
  const Chars: string := "abcdefghijklmnopqrstuvwxyz" + "ABCDEFGHIJKLMNOPQRSTUVWXYZ" + "0123456789"
  const CodeLength: nat := 6
  const MaxAttempts: nat := 5

  predicate IsAlphanumeric(c: char) {
    'a' <= c <= 'z' || 'A' <= c <= 'Z' || '0' <= c <= '9'
  }

  /** The alphabet is exactly `[a-zA-Z0-9]`: 62 characters, each of them
      alphanumeric, and every alphanumeric character among them. */
  lemma {:induction false} AlphabetIsAlphanumeric(i: int)
    requires 0 <= i < |Chars|
    ensures |Chars| == 62
    ensures IsAlphanumeric(Chars[i])
  {
  }

  lemma {:induction false} AlphabetIsComplete(c: char)
    requires IsAlphanumeric(c)
    ensures c in Chars
  {
    var i := if 'a' <= c <= 'z' then c as int - 'a' as int
      else if 'A' <= c <= 'Z' then 26 + (c as int - 'A' as int)
      else 52 + (c as int - '0' as int);
    assert Chars[i] == c;
  }

  // ---------------------------------------------------------------------
  // Draws: the random source as an oracle
  // ---------------------------------------------------------------------

  /** One draw: the six results of `random.Next(62)` that make up a code. */
  predicate ValidDraw(d: seq<int>) {
    |d| == CodeLength && forall k :: 0 <= k < |d| ==> 0 <= d[k] < |Chars|
  }

  /** The random source yields as many draws as the allocator asks for. */
  predicate ValidDraws(draws: seq<seq<int>>) {
    |draws| >= MaxAttempts && forall i :: 0 <= i < |draws| ==> ValidDraw(draws[i])
  }

  /** The code a draw spells: character `d[k]` of the alphabet at position `k`. */
  function CodeOf(d: seq<int>): (code: string)
    requires ValidDraw(d)
    ensures |code| == CodeLength
    ensures forall k :: 0 <= k < |code| ==> code[k] in Chars && IsAlphanumeric(code[k])
  {
    var code := seq(CodeLength, k requires 0 <= k < CodeLength => Chars[d[k]]);
    assert forall k :: 0 <= k < |code| ==> IsAlphanumeric(code[k]) by {
      forall k | 0 <= k < |code| ensures IsAlphanumeric(code[k]) {
        AlphabetIsAlphanumeric(d[k]);
      }
    }
    code
  }

  // ---------------------------------------------------------------------
  // The Urls table
  // ---------------------------------------------------------------------

  /** `Urls.AnyAsync(u => u.ShortCode == code)`. */
  predicate CodeInUse(urls: seq<UrlEntry>, code: string) {
    exists i :: 0 <= i < |urls| && urls[i].shortCode == code
  }

  /** `Urls.FirstOrDefaultAsync(u => u.ShortCode == code)`: the first row
      carrying the code, or nothing when no row does. */
  function FirstWithCode(urls: seq<UrlEntry>, code: string): (r: Option<UrlEntry>)
    ensures r.None? <==> !CodeInUse(urls, code)
    ensures r.Some? ==>
      exists i :: 0 <= i < |urls| && urls[i] == r.value && r.value.shortCode == code &&
        forall j :: 0 <= j < i ==> urls[j].shortCode != code
  {
    if urls == [] then None
    else if urls[0].shortCode == code then
      assert CodeInUse(urls, code) by { assert urls[0].shortCode == code; }
      Some(urls[0])
    else
      var r := FirstWithCode(urls[1..], code);
      assert CodeInUse(urls[1..], code) ==> CodeInUse(urls, code) by {
        if CodeInUse(urls[1..], code) {
          var i :| 0 <= i < |urls[1..]| && urls[1..][i].shortCode == code;
          assert urls[i + 1].shortCode == code;
        }
      }
      assert r.Some? ==>
        exists i :: 0 <= i < |urls| && urls[i] == r.value && r.value.shortCode == code &&
          forall j :: 0 <= j < i ==> urls[j].shortCode != code
      by {
        if r.Some? {
          var i :| 0 <= i < |urls[1..]| && urls[1..][i] == r.value && r.value.shortCode == code &&
            forall j :: 0 <= j < i ==> urls[1..][j].shortCode != code;
          assert urls[i + 1] == r.value;
          assert forall j :: 0 <= j < i + 1 ==> urls[j].shortCode != code by {
            forall j | 0 <= j < i + 1 ensures urls[j].shortCode != code {
              if j > 0 { assert urls[j] == urls[1..][j - 1]; }
            }
          }
        }
      }
      r
  }

  /** Appending a row changes the first match only for a code no earlier
      row carries. */
  lemma {:induction false} FirstWithCodeAppend(urls: seq<UrlEntry>, e: UrlEntry, code: string)
    ensures FirstWithCode(urls + [e], code) ==
      if CodeInUse(urls, code) then FirstWithCode(urls, code)
      else if e.shortCode == code then Some(e)
      else None
  {
    if urls == [] {
      assert urls + [e] == [e];
      assert [e][1..] == [];
    } else {
      assert (urls + [e])[0] == urls[0];
      assert (urls + [e])[1..] == urls[1..] + [e];
      FirstWithCodeAppend(urls[1..], e, code);
      if urls[0].shortCode != code {
        assert CodeInUse(urls, code) ==> CodeInUse(urls[1..], code) by {
          if CodeInUse(urls, code) {
            var i :| 0 <= i < |urls| && urls[i].shortCode == code;
            assert i > 0 && urls[1..][i - 1].shortCode == code;
          }
        }
      } else {
        assert CodeInUse(urls, code) by { assert urls[0].shortCode == code; }
      }
    }
  }

  /** The unique index on `ShortCode`. */
  ghost predicate UniqueCodes(urls: seq<UrlEntry>) {
    forall i, j :: 0 <= i < j < |urls| ==> urls[i].shortCode != urls[j].shortCode
  }

  /** The authoritative answer for a code: the URL its stored row holds. */
  function Resolve(urls: seq<UrlEntry>, code: string): RedirectResult {
    match FirstWithCode(urls, code)
    case None => NotFound
    case Some(e) => Redirected(e.originalUrl)
  }

  /** Every `url:{code}` entry in Redis holds the URL the store gives for
      `code`: the cache never holds a mapping without a durable counterpart,
      nor a different one. */
  ghost predicate CacheCoherent(urls: seq<UrlEntry>, cache: map<string, string>) {
    forall code :: UrlKey(code) in cache ==> Resolve(urls, code) == Redirected(cache[UrlKey(code)])
  }

  /** Writing the store first and then the cache, with a code no row
      carries, keeps the cache coherent and the codes unique, and makes the
      new URL the store's answer for the code. */
  lemma {:induction false} ShortenKeepsStoreAndCacheInStep(urls: seq<UrlEntry>, cache: map<string, string>, e: UrlEntry)
    requires UniqueCodes(urls) && CacheCoherent(urls, cache)
    requires !CodeInUse(urls, e.shortCode)
    ensures UniqueCodes(urls + [e])
    ensures CacheCoherent(urls + [e], cache[UrlKey(e.shortCode) := e.originalUrl])
    ensures Resolve(urls + [e], e.shortCode) == Redirected(e.originalUrl)
  {
    var urls', cache' := urls + [e], cache[UrlKey(e.shortCode) := e.originalUrl];
    forall i, j | 0 <= i < j < |urls'| ensures urls'[i].shortCode != urls'[j].shortCode {
      if j == |urls| {
        assert urls'[i] == urls[i];
      }
    }
    FirstWithCodeAppend(urls, e, e.shortCode);
    forall code | UrlKey(code) in cache' ensures Resolve(urls', code) == Redirected(cache'[UrlKey(code)]) {
      FirstWithCodeAppend(urls, e, code);
      if code != e.shortCode {
        if UrlKey(code) == UrlKey(e.shortCode) {
          PrefixedKeyInjective("url:", code, e.shortCode);
        }
        assert UrlKey(code) in cache;
        assert FirstWithCode(urls, code).Some?;
      }
    }
  }

  /** Repairing the cache with the store's answer keeps it coherent. */
  lemma {:induction false} RepairKeepsCacheCoherent(urls: seq<UrlEntry>, cache: map<string, string>, code: string, url: string)
    requires CacheCoherent(urls, cache)
    requires Resolve(urls, code) == Redirected(url)
    ensures CacheCoherent(urls, cache[UrlKey(code) := url])
  {
    forall other | UrlKey(other) in cache[UrlKey(code) := url]
      ensures Resolve(urls, other) == Redirected(cache[UrlKey(code) := url][UrlKey(other)])
    {
      if UrlKey(other) == UrlKey(code) {
        PrefixedKeyInjective("url:", other, code);
      }
    }
  }

  // ---------------------------------------------------------------------
  // Allocation (`GenerateShortCodeAsync`), as a specification
  // ---------------------------------------------------------------------

  datatype AllocResult = Allocated(code: string) | Exhausted

  /** A code is free when neither the `short_codes` set nor the table has it. */
  predicate IsFree(code: string, taken: set<string>, urls: seq<UrlEntry>) {
    code !in taken && !CodeInUse(urls, code)
  }

  /** The allocator from attempt `attempt` on. */
  function AllocateFrom(draws: seq<seq<int>>, attempt: nat, taken: set<string>, urls: seq<UrlEntry>): AllocResult
    requires ValidDraws(draws) && attempt <= MaxAttempts
    decreases MaxAttempts - attempt
  {
    if attempt == MaxAttempts then Exhausted
    else if IsFree(CodeOf(draws[attempt]), taken, urls) then Allocated(CodeOf(draws[attempt]))
    else AllocateFrom(draws, attempt + 1, taken, urls)
  }

  function Allocate(draws: seq<seq<int>>, taken: set<string>, urls: seq<UrlEntry>): AllocResult
    requires ValidDraws(draws)
  {
    AllocateFrom(draws, 0, taken, urls)
  }

  /** From any attempt on, the allocator is exhausted exactly when every
      draw left of the five collides. */
  lemma {:induction false} AllocateFromExhaustedIffAllCollide(draws: seq<seq<int>>, attempt: nat, taken: set<string>, urls: seq<UrlEntry>)
    requires ValidDraws(draws) && attempt <= MaxAttempts
    ensures AllocateFrom(draws, attempt, taken, urls).Exhausted? <==>
      forall i :: attempt <= i < MaxAttempts ==> !IsFree(CodeOf(draws[i]), taken, urls)
    decreases MaxAttempts - attempt
  {
    if attempt < MaxAttempts {
      if IsFree(CodeOf(draws[attempt]), taken, urls) {
        assert AllocateFrom(draws, attempt, taken, urls).Allocated?;
      } else {
        AllocateFromExhaustedIffAllCollide(draws, attempt + 1, taken, urls);
        assert AllocateFrom(draws, attempt, taken, urls) == AllocateFrom(draws, attempt + 1, taken, urls);
      }
    }
  }

  /** From any attempt on, an allocated code is the first free draw left
      of the five. */
  lemma {:induction false} AllocateFromReturnsFirstFree(draws: seq<seq<int>>, attempt: nat, taken: set<string>, urls: seq<UrlEntry>)
    requires ValidDraws(draws) && attempt <= MaxAttempts
    ensures AllocateFrom(draws, attempt, taken, urls).Allocated? ==>
      exists i :: attempt <= i < MaxAttempts &&
        AllocateFrom(draws, attempt, taken, urls).code == CodeOf(draws[i]) &&
        IsFree(CodeOf(draws[i]), taken, urls) &&
        forall j :: attempt <= j < i ==> !IsFree(CodeOf(draws[j]), taken, urls)
    decreases MaxAttempts - attempt
  {
    if attempt < MaxAttempts {
      var code := CodeOf(draws[attempt]);
      if IsFree(code, taken, urls) {
        assert AllocateFrom(draws, attempt, taken, urls) == Allocated(code);
      } else {
        var rest := AllocateFrom(draws, attempt + 1, taken, urls);
        AllocateFromReturnsFirstFree(draws, attempt + 1, taken, urls);
        assert AllocateFrom(draws, attempt, taken, urls) == rest;
        if rest.Allocated? {
          var i :| attempt + 1 <= i < MaxAttempts && rest.code == CodeOf(draws[i]) &&
            IsFree(CodeOf(draws[i]), taken, urls) &&
            forall j :: attempt + 1 <= j < i ==> !IsFree(CodeOf(draws[j]), taken, urls);
          assert forall j :: attempt <= j < i ==> !IsFree(CodeOf(draws[j]), taken, urls);
        }
      }
    }
  }

  /** From any attempt on, the allocator returns the first free draw that is
      left of the five, and is exhausted exactly when all of them collide. */
  lemma AllocateFromFindsFirstFree(draws: seq<seq<int>>, attempt: nat, taken: set<string>, urls: seq<UrlEntry>)
    requires ValidDraws(draws) && attempt <= MaxAttempts
    ensures AllocateFrom(draws, attempt, taken, urls).Exhausted? <==>
      forall i :: attempt <= i < MaxAttempts ==> !IsFree(CodeOf(draws[i]), taken, urls)
    ensures AllocateFrom(draws, attempt, taken, urls).Allocated? ==>
      exists i :: attempt <= i < MaxAttempts &&
        AllocateFrom(draws, attempt, taken, urls).code == CodeOf(draws[i]) &&
        IsFree(CodeOf(draws[i]), taken, urls) &&
        forall j :: attempt <= j < i ==> !IsFree(CodeOf(draws[j]), taken, urls)
  {
    AllocateFromExhaustedIffAllCollide(draws, attempt, taken, urls);
    AllocateFromReturnsFirstFree(draws, attempt, taken, urls);
  }

  /** An allocated code has six characters from `[a-zA-Z0-9]`, was in
      neither the `short_codes` set nor the table, and is the first free one
      among the first five draws. */
  lemma AllocatedCodeIsFreshAndWellFormed(draws: seq<seq<int>>, taken: set<string>, urls: seq<UrlEntry>)
    requires ValidDraws(draws)
    requires Allocate(draws, taken, urls).Allocated?
    ensures var code := Allocate(draws, taken, urls).code;
      && |code| == CodeLength
      && (forall k :: 0 <= k < |code| ==> IsAlphanumeric(code[k]))
      && code !in taken && !CodeInUse(urls, code)
      && exists i :: 0 <= i < MaxAttempts && code == CodeOf(draws[i]) &&
           forall j :: 0 <= j < i ==> !IsFree(CodeOf(draws[j]), taken, urls)
  {
    AllocateFromFindsFirstFree(draws, 0, taken, urls);
  }

  /** The allocator fails exactly when each of the five draws collides. */
  lemma AllocateExhaustedIffAllCollide(draws: seq<seq<int>>, taken: set<string>, urls: seq<UrlEntry>)
    requires ValidDraws(draws)
    ensures Allocate(draws, taken, urls) == Exhausted <==>
      forall i :: 0 <= i < MaxAttempts ==> !IsFree(CodeOf(draws[i]), taken, urls)
  {
    AllocateFromFindsFirstFree(draws, 0, taken, urls);
  }

  /** The allocator reads at most five draws: two random sources that agree
      on the first five give the same result. */
  lemma {:induction false} AllocateReadsAtMostFiveDraws(d1: seq<seq<int>>, d2: seq<seq<int>>, attempt: nat, taken: set<string>, urls: seq<UrlEntry>)
    requires ValidDraws(d1) && ValidDraws(d2) && attempt <= MaxAttempts
    requires forall i :: 0 <= i < MaxAttempts ==> d1[i] == d2[i]
    ensures AllocateFrom(d1, attempt, taken, urls) == AllocateFrom(d2, attempt, taken, urls)
    decreases MaxAttempts - attempt
  {
    if attempt < MaxAttempts {
      AllocateReadsAtMostFiveDraws(d1, d2, attempt + 1, taken, urls);
    }
  }

  // ---------------------------------------------------------------------
  // Request checks
  // ---------------------------------------------------------------------

  /** What `Uri.TryCreate` reports of a URL: its scheme (lower case). */
  datatype Uri = Uri(scheme: string)

  /** `Uri.UriSchemeHttp` and `Uri.UriSchemeHttps`. */
  const WebSchemes: set<string> := {"http", "https"}

  /** `IsValidUrl`: the library parser accepts the URL as absolute and its
      scheme is http or https. The parser itself is a parameter. */
  predicate IsValidUrl(url: string, tryCreateAbsolute: string -> Option<Uri>) {
    match tryCreateAbsolute(url)
    case None => false
    case Some(uri) => uri.scheme in WebSchemes
  }

  /** The user service's reply to `GET /users/{id}/quota`: whether the
      status was a success, and the `Quota` and `Used` of its body. */
  datatype QuotaReply = QuotaReply(success: bool, quota: int, used: int)

  /** `HasQuotaAsync`: a failed request refuses; otherwise the gate is
      open exactly when one more link fits within the quota. */
  predicate HasQuota(reply: QuotaReply) {
    reply.success && reply.quota > reply.used
  }

  /** The short URL handed back to the caller. */
  function ShortUrl(host: string, code: string): (s: string)
    ensures |s| >= |code| && s[|s| - |code|..] == code
  {
    "http://" + host + "/" + code
  }

  datatype ShortenResult =
    | Shortened(code: string, shortUrl: string)
    | InvalidUrl
    | QuotaExceeded
    | AllocationExhausted
    | StoreFailed

  datatype RedirectResult = Redirected(url: string) | NotFound

  // ---------------------------------------------------------------------
  // The service
  // ---------------------------------------------------------------------

  class UrlService {
    /** The Urls table. */
    var urls: seq<UrlEntry>
    /** Redis string entries (`url:{code}`). */
    var cache: map<string, string>
    /** The Redis set `short_codes`. */
    var shortCodes: set<string>

    /** The store and the cache agree, and the unique index holds. */
    ghost predicate Valid()
      reads this
    {
      UniqueCodes(urls) && CacheCoherent(urls, cache)
    }

    constructor (urls: seq<UrlEntry>, cache: map<string, string>, shortCodes: set<string>)
      ensures this.urls == urls && this.cache == cache && this.shortCodes == shortCodes
    {
      this.urls := urls;
      this.cache := cache;
      this.shortCodes := shortCodes;
    }

    /** `GenerateShortCodeAsync`: up to five draws; the first code found in
        neither the set nor the table is added to the set and returned. */
    method GenerateShortCode(draws: seq<seq<int>>) returns (r: AllocResult)
      requires ValidDraws(draws)
      modifies this`shortCodes
      ensures r == Allocate(draws, old(shortCodes), urls)
      ensures shortCodes == if r.Allocated? then old(shortCodes) + {r.code} else old(shortCodes)
    {
      var attempt := 0;
      while attempt < MaxAttempts
        invariant 0 <= attempt <= MaxAttempts
        invariant shortCodes == old(shortCodes)
        invariant Allocate(draws, shortCodes, urls) == AllocateFrom(draws, attempt, shortCodes, urls)
      {
        var code := CodeOf(draws[attempt]);
        if code !in shortCodes {
          var stored := FirstWithCode(urls, code);
          if stored.None? {
            shortCodes := shortCodes + {code};
            return Allocated(code);
          }
        }
        attempt := attempt + 1;
      }
      return Exhausted;
    }

    /** `ShortenUrl`: validate the URL, check the quota, allocate a code,
        save the row, then cache the URL. `saved` is whether
        `SaveChangesAsync` succeeds. */
    method ShortenUrl(url: string, userId: string, host: string, now: Timestamp,
                      tryCreateAbsolute: string -> Option<Uri>, reply: QuotaReply,
                      draws: seq<seq<int>>, saved: bool)
      returns (r: ShortenResult)
      requires ValidDraws(draws)
      modifies this
      ensures !IsValidUrl(url, tryCreateAbsolute) ==> r == InvalidUrl && unchanged(this)
      ensures IsValidUrl(url, tryCreateAbsolute) && !HasQuota(reply) ==> r == QuotaExceeded && unchanged(this)
      ensures IsValidUrl(url, tryCreateAbsolute) && HasQuota(reply) ==>
        match Allocate(draws, old(shortCodes), old(urls))
        case Exhausted =>
          r == AllocationExhausted && unchanged(this)
        case Allocated(code) =>
          && shortCodes == old(shortCodes) + {code}
          && (!saved ==> r == StoreFailed && urls == old(urls) && cache == old(cache))
          && (saved ==>
                && r == Shortened(code, ShortUrl(host, code))
                && urls == old(urls) + [UrlEntry(code, url, userId, now)]
                && cache == old(cache)[UrlKey(code) := url])
      ensures old(Valid()) ==> Valid()
      ensures r.Shortened? ==> Resolve(urls, r.code) == Redirected(url)
    {
      if !IsValidUrl(url, tryCreateAbsolute) {
        return InvalidUrl;
      }
      if !HasQuota(reply) {
        return QuotaExceeded;
      }
      var alloc := GenerateShortCode(draws);
      if alloc.Exhausted? {
        return AllocationExhausted;
      }
      var code := alloc.code;
      AllocatedCodeIsFreshAndWellFormed(draws, old(shortCodes), urls);
      if !saved {
        return StoreFailed;
      }
      var entry := UrlEntry(code, url, userId, now);
      if Valid() {
        ShortenKeepsStoreAndCacheInStep(urls, cache, entry);
      }
      FirstWithCodeAppend(urls, entry, code);
      urls := urls + [entry];
      cache := cache[UrlKey(code) := url];
      r := Shortened(code, ShortUrl(host, code));
    }

    /** `SendClickEventAsync` has an empty body: the redirect publishes nothing. */
    method SendClickEvent(code: string, clientIp: string)
      ensures unchanged(this)
    {
    }

    /** `RedirectUrl`: cache-aside resolution of a code. A hit answers from
        Redis; a miss asks the table and, when the code is stored, writes
        the URL back; an unknown code is not cached. */
    method RedirectUrl(code: string, clientIp: string) returns (r: RedirectResult)
      modifies this`cache
      ensures CacheGet(old(cache), UrlKey(code)).Some? ==>
        r == Redirected(old(cache)[UrlKey(code)]) && cache == old(cache)
      ensures CacheGet(old(cache), UrlKey(code)).None? ==>
        && r == Resolve(urls, code)
        && cache == if r.Redirected? then old(cache)[UrlKey(code) := r.url] else old(cache)
      ensures old(Valid()) ==> Valid() && r == Resolve(urls, code)
    {
      var cached := CacheGet(cache, UrlKey(code));
      if cached.Some? {
        SendClickEvent(code, clientIp);
        return Redirected(cached.value);
      }
      var entry := FirstWithCode(urls, code);
      if entry.None? {
        return NotFound;
      }
      if Valid() {
        RepairKeepsCacheCoherent(urls, cache, code, entry.value.originalUrl);
      }
      cache := cache[UrlKey(code) := entry.value.originalUrl];
      SendClickEvent(code, clientIp);
      return Redirected(entry.value.originalUrl);
    }
  }
}
