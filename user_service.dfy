/** The user service: registration, the plan-to-quota mapping, and the
    cache-aside quota lookup that the URL service calls before shortening.
    The Users and Urls tables are sequences of rows; Redis is a map of
    string keys to string values, so a quota lives there as decimal text. */
module UserService {
  import opened Common

  // ---------------------------------------------------------------------
  // Users and plans
  // ---------------------------------------------------------------------

  datatype Plan = Free | Basic | Premium

  /** A C# `int`. */
  type Int32 = x: int | -0x8000_0000 <= x < 0x8000_0000

  /** One row of the Users table (the password hash is not modelled). */
  datatype User = User(id: string, email: string, plan: Plan, urlQuota: Int32, createdAt: Timestamp)

  /** The quota a newly registered user starts with. */
  const FreeQuota: Int32 := 10

  /** The quota each plan buys (the `switch` in `UpgradePlan`). */
  function QuotaFor(plan: Plan): (quota: Int32)
    ensures quota >= FreeQuota
    ensures quota == FreeQuota <==> plan == Free
  {
    match plan
    case Basic => 100
    case Premium => 1000
    case Free => FreeQuota
  }

  /** The plan table: Basic buys 100 links, Premium 1000, and the free plan
      keeps the registration quota of 10. */
  lemma PlanQuotas()
    ensures QuotaFor(Basic) == 100 && QuotaFor(Premium) == 1000 && QuotaFor(Free) == 10
  {
  }

  // ---------------------------------------------------------------------
  // Integers as Redis text
  // ---------------------------------------------------------------------

  predicate IsDigit(c: char) { '0' <= c <= '9' }

  function DigitChar(d: nat): (c: char)
    requires d < 10
    ensures IsDigit(c) && c as int - '0' as int == d
  {
    ('0' as int + d) as char
  }

  /** The decimal digits of a natural number, most significant first. */
  function NatToDecimal(n: nat): (s: string)
    ensures |s| >= 1
    ensures forall i :: 0 <= i < |s| ==> IsDigit(s[i])
  {
    if n < 10 then [DigitChar(n)] else NatToDecimal(n / 10) + [DigitChar(n % 10)]
  }

  /** How Redis stores an integer value: its decimal text, with a leading
      minus sign when negative. */
  function Int32ToText(n: Int32): (s: string)
    ensures |s| >= 1
    ensures s[0] == '-' <==> n < 0
    ensures forall i :: (if n < 0 then 1 else 0) <= i < |s| ==> IsDigit(s[i])
  {
    if n < 0 then
      var digits := NatToDecimal(-(n as int));
      assert forall i :: 1 <= i < |digits| + 1 ==> ("-" + digits)[i] == digits[i - 1];
      "-" + digits
    else
      assert IsDigit(NatToDecimal(n)[0]);
      NatToDecimal(n)
  }

  function DigitValue(c: char): (d: nat)
    requires IsDigit(c)
    ensures d < 10
  {
    c as int - '0' as int
  }

  /** The number a string of decimal digits denotes. */
  function DigitsValue(s: string): nat
    requires forall i :: 0 <= i < |s| ==> IsDigit(s[i])
  {
    if s == [] then 0 else DigitsValue(s[..|s| - 1]) * 10 + DigitValue(s[|s| - 1])
  }

  /** `int.Parse`: an optional sign and at least one decimal digit, with a
      value in the 32-bit range; anything else throws (`None`). */
  function ParseInt32(s: string): (r: Option<Int32>)
    ensures r.Some? ==> |s| >= 1 && (r.value < 0 ==> s[0] == '-')
    ensures r.Some? ==>
      var start := if s[0] == '-' || s[0] == '+' then 1 else 0;
      start < |s| && forall i :: start <= i < |s| ==> IsDigit(s[i])
    ensures |s| >= 1 && (forall i :: 0 <= i < |s| ==> IsDigit(s[i])) && DigitsValue(s) < 0x8000_0000 ==>
      r == Some(DigitsValue(s))
    ensures |s| >= 2 && (s[0] == '-' || s[0] == '+') ==>
      var tail := s[1..];
      (forall i :: 0 <= i < |tail| ==> IsDigit(tail[i])) ==>
      var v: int := if s[0] == '-' then -(DigitsValue(tail) as int) else DigitsValue(tail);
      -0x8000_0000 <= v < 0x8000_0000 ==> r == Some(v)
    ensures r.Some? ==>
      var digits := if s[0] == '-' || s[0] == '+' then s[1..] else s;
      && (forall i :: 0 <= i < |digits| ==> IsDigit(digits[i]))
      && r.value as int == if s[0] == '-' then -(DigitsValue(digits) as int) else DigitsValue(digits) as int
  {
    var negative := |s| > 0 && s[0] == '-';
    var digits := if |s| > 0 && (s[0] == '-' || s[0] == '+') then s[1..] else s;
    if |digits| == 0 || exists i :: 0 <= i < |digits| && !IsDigit(digits[i]) then None
    else
      var magnitude: int := DigitsValue(digits);
      var v := if negative then -magnitude else magnitude;
      if -0x8000_0000 <= v < 0x8000_0000 then Some(v) else None
  }

  lemma {:induction false} DecimalRoundTrip(n: nat)
    ensures DigitsValue(NatToDecimal(n)) == n
  {
    if n >= 10 {
      DecimalRoundTrip(n / 10);
      var s := NatToDecimal(n);
      assert s[..|s| - 1] == NatToDecimal(n / 10);
    }
  }

  /** A quota written to Redis reads back as the same quota. */
  lemma QuotaTextRoundTrip(q: Int32)
    ensures ParseInt32(Int32ToText(q)) == Some(q)
  {
    if q < 0 {
      DecimalRoundTrip(-(q as int));
      assert ("-" + NatToDecimal(-(q as int)))[1..] == NatToDecimal(-(q as int));
    } else {
      DecimalRoundTrip(q);
      assert IsDigit(NatToDecimal(q)[0]);
    }
  }

  // ---------------------------------------------------------------------
  // Table queries
  // ---------------------------------------------------------------------

  /** The position of `Users.FirstOrDefaultAsync(u => u.Id == id)`. */
  function UserIndex(users: seq<User>, id: string): (r: Option<nat>)
    ensures r.None? <==> forall i :: 0 <= i < |users| ==> users[i].id != id
    ensures r.Some? ==>
      r.value < |users| && users[r.value].id == id && forall j :: 0 <= j < r.value ==> users[j].id != id
  {
    if users == [] then None
    else if users[0].id == id then Some(0)
    else
      match UserIndex(users[1..], id)
      case None =>
        assert forall i :: 0 <= i < |users| ==> users[i].id != id by {
          forall i | 0 <= i < |users| ensures users[i].id != id {
            if i > 0 { assert users[i] == users[1..][i - 1]; }
          }
        }
        None
      case Some(i) =>
        assert forall j :: 0 <= j < i + 1 ==> users[j].id != id by {
          forall j | 0 <= j < i + 1 ensures users[j].id != id {
            if j > 0 { assert users[j] == users[1..][j - 1]; }
          }
        }
        Some(i + 1)
  }

  /** `Users.FirstOrDefaultAsync(u => u.Id == id)`. */
  function FindUser(users: seq<User>, id: string): Option<User> {
    match UserIndex(users, id)
    case None => None
    case Some(i) => Some(users[i])
  }

  /** `Users.AnyAsync(u => u.Email == email)`. */
  predicate EmailTaken(users: seq<User>, email: string) {
    exists i :: 0 <= i < |users| && users[i].email == email
  }

  /** Adding a user takes exactly that user's email in addition to the
      ones already taken, so a second registration with it is refused. */
  lemma {:induction false} EmailTakenAppend(users: seq<User>, u: User, email: string)
    ensures EmailTaken(users + [u], email) <==> EmailTaken(users, email) || u.email == email
  {
    var users' := users + [u];
    if EmailTaken(users, email) {
      var i :| 0 <= i < |users| && users[i].email == email;
      assert users'[i] == users[i];
    }
    if u.email == email {
      assert users'[|users|] == u;
    }
    if EmailTaken(users', email) {
      var i :| 0 <= i < |users'| && users'[i].email == email;
      if i < |users| {
        assert users'[i] == users[i];
      }
    }
  }

  ghost predicate UniqueEmails(users: seq<User>) {
    forall i, j :: 0 <= i < j < |users| ==> users[i].email != users[j].email
  }

  ghost predicate UniqueIds(users: seq<User>) {
    forall i, j :: 0 <= i < j < |users| ==> users[i].id != users[j].id
  }

  /** The rows owned by a user, as positions in the Urls table. */
  ghost function OwnedRows(urls: seq<UrlEntry>, userId: string): set<nat> {
    set i: nat | i < |urls| && urls[i].userId == userId
  }

  /** `GetUsedUrls`: `Urls.CountAsync(u => u.UserId == userId)`. */
  function CountOwned(urls: seq<UrlEntry>, userId: string): (n: nat)
    ensures n == |OwnedRows(urls, userId)|
    ensures n <= |urls|
  {
    if urls == [] then
      assert OwnedRows(urls, userId) == {};
      0
    else
      var init := urls[..|urls| - 1];
      var last := urls[|urls| - 1];
      var k := CountOwned(init, userId);
      OwnedRowsSnoc(urls, userId);
      k + if last.userId == userId then 1 else 0
  }

  /** The owned rows of a table are those of all but its last row, plus
      the last row's position when the user owns it. */
  lemma OwnedRowsSnoc(urls: seq<UrlEntry>, userId: string)
    requires urls != []
    ensures var n := |urls| - 1;
      && n !in OwnedRows(urls[..n], userId)
      && OwnedRows(urls, userId) ==
           OwnedRows(urls[..n], userId) + if urls[n].userId == userId then {n} else {}
  {
    var n := |urls| - 1;
    var init := urls[..n];
    forall i | i in OwnedRows(urls, userId) && i < n ensures i in OwnedRows(init, userId) {
      assert init[i] == urls[i];
    }
    forall i | i in OwnedRows(init, userId) ensures i in OwnedRows(urls, userId) {
      assert init[i] == urls[i];
    }
  }

  /** Storing one more URL raises its owner's count by one and leaves
      every other user's count alone. */
  lemma {:induction false} CountOwnedAppend(urls: seq<UrlEntry>, e: UrlEntry, userId: string)
    ensures CountOwned(urls + [e], userId) == CountOwned(urls, userId) + if e.userId == userId then 1 else 0
  {
    assert (urls + [e])[..|urls|] == urls;
  }

  // ---------------------------------------------------------------------
  // The quota cache
  // ---------------------------------------------------------------------

  /** Every `quota:{id}` entry in Redis is the decimal text of that user's
      stored quota. */
  ghost predicate QuotaCoherent(users: seq<User>, cache: map<string, string>) {
    forall id :: QuotaKey(id) in cache ==>
      FindUser(users, id).Some? && cache[QuotaKey(id)] == Int32ToText(FindUser(users, id).value.urlQuota)
  }

  datatype QuotaResult = QuotaOk(quota: Int32, used: nat) | UserNotFound | MalformedCache

  /** The authoritative quota answer: the stored quota and the owned rows. */
  function StoredQuota(users: seq<User>, urls: seq<UrlEntry>, userId: string): QuotaResult {
    match FindUser(users, userId)
    case None => UserNotFound
    case Some(u) => QuotaOk(u.urlQuota, CountOwned(urls, userId))
  }

  /** Over a coherent cache, a cached quota is the stored one. */
  lemma CachedQuotaIsStored(users: seq<User>, urls: seq<UrlEntry>, cache: map<string, string>, userId: string)
    requires QuotaCoherent(users, cache)
    requires QuotaKey(userId) in cache
    ensures FindUser(users, userId).Some?
    ensures ParseInt32(cache[QuotaKey(userId)]) == Some(FindUser(users, userId).value.urlQuota)
  {
    QuotaTextRoundTrip(FindUser(users, userId).value.urlQuota);
  }

  /** Writing one user's stored quota into the cache keeps it coherent. */
  lemma {:induction false} QuotaWriteKeepsCoherent(users: seq<User>, cache: map<string, string>, u: User)
    requires QuotaCoherent(users, cache)
    requires FindUser(users, u.id) == Some(u)
    ensures QuotaCoherent(users, cache[QuotaKey(u.id) := Int32ToText(u.urlQuota)])
  {
    var cache' := cache[QuotaKey(u.id) := Int32ToText(u.urlQuota)];
    forall id | QuotaKey(id) in cache'
      ensures FindUser(users, id).Some? && cache'[QuotaKey(id)] == Int32ToText(FindUser(users, id).value.urlQuota)
    {
      if QuotaKey(id) == QuotaKey(u.id) {
        PrefixedKeyInjective("quota:", id, u.id);
      }
    }
  }

  /** Registering a user with a fresh id and an unused email keeps emails
      and ids unique and the quota cache coherent. */
  lemma {:induction false} RegisterKeepsInvariants(users: seq<User>, cache: map<string, string>, u: User)
    requires UniqueEmails(users) && UniqueIds(users) && QuotaCoherent(users, cache)
    requires forall i :: 0 <= i < |users| ==> users[i].id != u.id
    requires !EmailTaken(users, u.email)
    ensures UniqueEmails(users + [u]) && UniqueIds(users + [u])
    ensures QuotaCoherent(users + [u], cache[QuotaKey(u.id) := Int32ToText(u.urlQuota)])
    ensures FindUser(users + [u], u.id) == Some(u)
  {
    var users' := users + [u];
    forall i, j | 0 <= i < j < |users'| ensures users'[i].email != users'[j].email && users'[i].id != users'[j].id {
      assert users'[i] == users[i];
      if j < |users| { assert users'[j] == users[j]; }
    }
    forall id ensures FindUser(users', id) == if id == u.id then Some(u) else FindUser(users, id) {
      UserIndexAppend(users, u, id);
    }
    assert QuotaCoherent(users', cache) by {
      forall id | QuotaKey(id) in cache
        ensures FindUser(users', id).Some? && cache[QuotaKey(id)] == Int32ToText(FindUser(users', id).value.urlQuota)
      {
        if id == u.id {
          assert false;
        }
      }
    }
    QuotaWriteKeepsCoherent(users', cache, u);
  }

  lemma {:induction false} UserIndexAppend(users: seq<User>, u: User, id: string)
    ensures UserIndex(users + [u], id) ==
      if UserIndex(users, id).Some? then UserIndex(users, id)
      else if u.id == id then Some(|users|)
      else None
  {
    var users' := users + [u];
    if UserIndex(users, id).Some? {
      var i := UserIndex(users, id).value;
      assert users'[i] == users[i];
      forall j | 0 <= j < i ensures users'[j].id != id {
        assert users'[j] == users[j];
      }
    } else if u.id == id {
      assert users'[|users|] == u;
      forall j | 0 <= j < |users| ensures users'[j].id != id {
        assert users'[j] == users[j];
      }
    } else {
      forall i | 0 <= i < |users + [u]| ensures (users + [u])[i].id != id {
        if i < |users| { assert (users + [u])[i] == users[i]; }
      }
    }
  }

  /** Lookups by id see only the ids: two tables with the same ids at the
      same positions answer every lookup alike. */
  lemma {:induction false} UserIndexFollowsIds(a: seq<User>, b: seq<User>, id: string)
    requires |a| == |b| && forall j :: 0 <= j < |a| ==> a[j].id == b[j].id
    ensures UserIndex(a, id) == UserIndex(b, id)
  {
    if a != [] && a[0].id != id {
      forall j | 0 <= j < |a| - 1 ensures a[1..][j].id == b[1..][j].id {
        assert a[1..][j] == a[j + 1] && b[1..][j] == b[j + 1];
      }
      UserIndexFollowsIds(a[1..], b[1..], id);
    }
  }

  /** Changing the plan and quota of the first user with an id keeps every
      lookup pointing at the same position. */
  lemma {:induction false} UserIndexUpdate(users: seq<User>, i: nat, u: User, id: string)
    requires UserIndex(users, u.id) == Some(i)
    ensures UserIndex(users[i := u], id) == UserIndex(users, id)
  {
    var users' := users[i := u];
    assert users[i].id == u.id;
    UserIndexFollowsIds(users', users, id);
  }

  /** Upgrading a stored user keeps emails and ids unique and the quota
      cache coherent once the new quota is written through. */
  lemma {:induction false} UpgradeKeepsInvariants(users: seq<User>, cache: map<string, string>, i: nat, plan: Plan)
    requires UniqueEmails(users) && UniqueIds(users) && QuotaCoherent(users, cache)
    requires i < |users| && UserIndex(users, users[i].id) == Some(i)
    ensures var u := users[i].(plan := plan, urlQuota := QuotaFor(plan));
      && UniqueEmails(users[i := u]) && UniqueIds(users[i := u])
      && QuotaCoherent(users[i := u], cache[QuotaKey(u.id) := Int32ToText(u.urlQuota)])
      && FindUser(users[i := u], u.id) == Some(u)
  {
    var u := users[i].(plan := plan, urlQuota := QuotaFor(plan));
    var users' := users[i := u];
    forall id ensures UserIndex(users', id) == UserIndex(users, id) {
      UserIndexUpdate(users, i, u, id);
    }
    var cache' := cache[QuotaKey(u.id) := Int32ToText(u.urlQuota)];
    assert FindUser(users', u.id) == Some(u);
    forall id | QuotaKey(id) in cache'
      ensures FindUser(users', id).Some? && cache'[QuotaKey(id)] == Int32ToText(FindUser(users', id).value.urlQuota)
    {
      if QuotaKey(id) == QuotaKey(u.id) {
        PrefixedKeyInjective("quota:", id, u.id);
      } else {
        var k := UserIndex(users, id).value;
        assert k != i;
        assert users'[k] == users[k];
      }
    }
    forall p, q | 0 <= p < q < |users'| ensures users'[p].email != users'[q].email && users'[p].id != users'[q].id {
      assert users'[p].email == users[p].email && users'[p].id == users[p].id;
      assert users'[q].email == users[q].email && users'[q].id == users[q].id;
    }
  }

  // ---------------------------------------------------------------------
  // The service
  // ---------------------------------------------------------------------

  datatype RegisterResult = Registered | EmailExists

  datatype UpgradeResult = Upgraded(newQuota: Int32) | UpgradeUserNotFound

  class UserService {
    /** The Users table. */
    var users: seq<User>
    /** The Urls table, read to count a user's links. */
    var urls: seq<UrlEntry>
    /** Redis string entries (`quota:{id}`). */
    var cache: map<string, string>

    /** Emails and ids are unique and the quota cache agrees with the table. */
    ghost predicate Valid()
      reads this
    {
      UniqueEmails(users) && UniqueIds(users) && QuotaCoherent(users, cache)
    }

    constructor (users: seq<User>, urls: seq<UrlEntry>, cache: map<string, string>)
      ensures this.users == users && this.urls == urls && this.cache == cache
    {
      this.users := users;
      this.urls := urls;
      this.cache := cache;
    }

    /** `Register`: a taken email is refused; otherwise the user is stored
        on the free plan and the free quota is cached. `newId` is the fresh
        `Guid` the row receives, `now` the creation time. */
    method Register(email: string, newId: string, now: Timestamp) returns (r: RegisterResult)
      requires forall i :: 0 <= i < |users| ==> users[i].id != newId
      modifies this`users, this`cache
      ensures EmailTaken(old(users), email) ==> r == EmailExists && unchanged(this)
      ensures !EmailTaken(old(users), email) ==>
        && r == Registered
        && users == old(users) + [User(newId, email, Free, FreeQuota, now)]
        && cache == old(cache)[QuotaKey(newId) := Int32ToText(FreeQuota)]
      ensures old(Valid()) ==> Valid()
    {
      if EmailTaken(users, email) {
        return EmailExists;
      }
      var user := User(newId, email, Free, FreeQuota, now);
      if Valid() {
        RegisterKeepsInvariants(users, cache, user);
      }
      users := users + [user];
      cache := cache[QuotaKey(user.id) := Int32ToText(user.urlQuota)];
      return Registered;
    }

    /** `GetQuota`: cache-aside. A hit parses the cached text and does not
        look the user up; a miss on an unknown user writes nothing; a miss
        on a known user repairs the cache with the stored quota. `Used` is
        counted from the Urls table on every path. */
    method GetQuota(userId: string) returns (r: QuotaResult)
      modifies this`cache
      ensures CacheGet(old(cache), QuotaKey(userId)).Some? ==>
        && cache == old(cache)
        && r == match ParseInt32(old(cache)[QuotaKey(userId)])
                case None => MalformedCache
                case Some(q) => QuotaOk(q, CountOwned(urls, userId))
      ensures CacheGet(old(cache), QuotaKey(userId)).None? ==>
        && r == StoredQuota(users, urls, userId)
        && cache == if r.QuotaOk? then old(cache)[QuotaKey(userId) := Int32ToText(r.quota)] else old(cache)
      ensures old(Valid()) ==> Valid() && r == StoredQuota(users, urls, userId)
    {
      var cached := CacheGet(cache, QuotaKey(userId));
      if cached.Some? {
        if Valid() {
          CachedQuotaIsStored(users, urls, cache, userId);
        }
        var q := ParseInt32(cached.value);
        if q.None? {
          return MalformedCache;
        }
        return QuotaOk(q.value, CountOwned(urls, userId));
      }
      if Valid() {
        assert QuotaKey(userId) !in cache;
      }
      var user := FindUser(users, userId);
      if user.None? {
        return UserNotFound;
      }
      if Valid() {
        QuotaWriteKeepsCoherent(users, cache, user.value);
      }
      cache := cache[QuotaKey(userId) := Int32ToText(user.value.urlQuota)];
      return QuotaOk(user.value.urlQuota, CountOwned(urls, userId));
    }

    /** `UpgradePlan`: an unknown user is refused with nothing changed;
        otherwise the user's plan and quota are updated together and the
        new quota is written through to the cache. */
    method UpgradePlan(userId: string, plan: Plan) returns (r: UpgradeResult)
      modifies this`users, this`cache
      ensures UserIndex(old(users), userId).None? ==> r == UpgradeUserNotFound && unchanged(this)
      ensures UserIndex(old(users), userId).Some? ==>
        var i := UserIndex(old(users), userId).value;
        && r == Upgraded(QuotaFor(plan))
        && users == old(users)[i := old(users)[i].(plan := plan, urlQuota := QuotaFor(plan))]
        && cache == old(cache)[QuotaKey(userId) := Int32ToText(QuotaFor(plan))]
      ensures old(Valid()) ==> Valid()
      ensures r.Upgraded? ==>
        FindUser(users, userId).Some? && FindUser(users, userId).value.urlQuota == QuotaFor(plan) &&
        FindUser(users, userId).value.plan == plan
    {
      var index := UserIndex(users, userId);
      if index.None? {
        return UpgradeUserNotFound;
      }
      var i := index.value;
      var user := users[i].(plan := plan, urlQuota := QuotaFor(plan));
      if Valid() {
        UpgradeKeepsInvariants(users, cache, i, plan);
      }
      UserIndexUpdate(users, i, user, userId);
      users := users[i := user];
      cache := cache[QuotaKey(user.id) := Int32ToText(user.urlQuota)];
      return Upgraded(user.urlQuota);
    }
  }
}
