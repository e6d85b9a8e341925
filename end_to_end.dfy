/** Properties that span the services: the user service's quota answer
    as the URL service's quota gate sees it, and a shortened link read
    back through a redirect. */
module EndToEnd {
  import opened Common
  import Urls = UrlService
  import Users = UserService
  import Analytics = AnalyticsService

  /** What `HasQuotaAsync` receives from `GET /users/{id}/quota`: a
      success status with the body's `Quota` and `Used` when the user
      service answers; a failure status when the user is unknown or the
      cached text does not parse (`int.Parse` throws, so the request
      fails). */
  function ReplyOf(r: Users.QuotaResult): Urls.QuotaReply
  {
    match r
    case QuotaOk(quota, used) => Urls.QuotaReply(true, quota, used)
    case _ => Urls.QuotaReply(false, 0, 0)
  }

  /** Against the authoritative quota answer, the URL service's gate is
      open exactly when the user exists and owns fewer links than the
      stored quota; and a link stored while the gate is open never takes
      its owner past that quota. */
  lemma {:induction false} QuotaGateBoundsOwnedLinks(users: seq<Users.User>, urls: seq<UrlEntry>, userId: string, e: UrlEntry)
    requires e.userId == userId
    ensures Urls.HasQuota(ReplyOf(Users.StoredQuota(users, urls, userId))) <==>
      Users.FindUser(users, userId).Some? && Users.CountOwned(urls, userId) < Users.FindUser(users, userId).value.urlQuota
    ensures Urls.HasQuota(ReplyOf(Users.StoredQuota(users, urls, userId))) ==>
      Users.CountOwned(urls + [e], userId) <= Users.FindUser(users, userId).value.urlQuota
  {
    Users.CountOwnedAppend(urls, e, userId);
  }

  /** A user just registered on the free plan may shorten exactly while
      owning fewer than ten links. */
  lemma {:induction false} NewUserGateOpensBelowTen(users: seq<Users.User>, urls: seq<UrlEntry>, email: string, newId: string, now: Timestamp)
    requires forall i :: 0 <= i < |users| ==> users[i].id != newId
    ensures var users' := users + [Users.User(newId, email, Users.Free, Users.FreeQuota, now)];
      Urls.HasQuota(ReplyOf(Users.StoredQuota(users', urls, newId))) <==> Users.CountOwned(urls, newId) < 10
  {
    var u := Users.User(newId, email, Users.Free, Users.FreeQuota, now);
    Users.UserIndexAppend(users, u, newId);
    assert (users + [u])[|users|] == u;
  }

  /** With short codes unique, the analytics ownership check agrees with
      the URL service: a user owns a code exactly when the row the code
      resolves to belongs to that user. */
  lemma {:induction false} OwnershipIsOwnerOfStoredRow(urls: seq<UrlEntry>, code: string, userId: string)
    requires Urls.UniqueCodes(urls)
    ensures Analytics.Owns(urls, code, userId) <==>
      Urls.FirstWithCode(urls, code).Some? && Urls.FirstWithCode(urls, code).value.userId == userId
  {
    var first := Urls.FirstWithCode(urls, code);
    if first.Some? {
      var k :| 0 <= k < |urls| && urls[k] == first.value && first.value.shortCode == code &&
        forall j :: 0 <= j < k ==> urls[j].shortCode != code;
      assert forall i :: 0 <= i < |urls| && urls[i].shortCode == code ==> i == k;
    } else {
      assert !Urls.CodeInUse(urls, code);
    }
  }

  /** Shortening a valid URL with quota left and a free code, then
      following the returned code, reaches that URL, whatever the store
      and cache held before. */
  method ShortenThenRedirect(urls: seq<UrlEntry>, cache: map<string, string>, shortCodes: set<string>,
                             url: string, userId: string, host: string, now: Timestamp,
                             tryCreateAbsolute: string -> Option<Urls.Uri>, reply: Urls.QuotaReply,
                             draws: seq<seq<int>>, clientIp: string)
    returns (s: Urls.ShortenResult, r: Urls.RedirectResult)
    requires Urls.ValidDraws(draws)
    requires Urls.IsValidUrl(url, tryCreateAbsolute) && Urls.HasQuota(reply)
    requires Urls.Allocate(draws, shortCodes, urls).Allocated?
    ensures var code := Urls.Allocate(draws, shortCodes, urls).code;
      s == Urls.Shortened(code, Urls.ShortUrl(host, code))
    ensures r == Urls.Redirected(url)
  {
    var service := new Urls.UrlService(urls, cache, shortCodes);
    s := service.ShortenUrl(url, userId, host, now, tryCreateAbsolute, reply, draws, true);
    r := service.RedirectUrl(s.code, clientIp);
  }
}
