/**
 The memory-only cache of activity answers for one server and account, shared
 and personal, under signing in and out, panel refreshes and the passing of time.
 */
module ActivityCache {
  import opened Common

  const HOUR: int := 3_600_000_000_000  // in nanoseconds

  /** `nextRefreshAt` is absent when the server's text is no timestamp. */
  datatype Activity = Activity(userID: int, nextRefreshAt: Option<int>, body: string)

  datatype Session = Session(address: string, identity: string, hasToken: bool, expiresAt: int, accountID: int)

  datatype Entry = Entry(activity: Activity, expiresAt: int)

  datatype Cache = Cache(address: string, identity: string, ranges: map<string, Entry>,
                         personalRanges: map<string, Entry>, personalAccountID: int)

  datatype Scope = Shared | Personal

  /** An answer the server gave; `at` is when it had been taken in. */
  datatype Receipt = Receipt(scope: Scope, address: string, identity: string, range: string, activity: Activity, at: int)

  /** `received` is a log of every answer; `clock` the last time anyone looked at the clock. */
  datatype State = State(session: Session, cache: Cache, received: seq<Receipt>, clock: int)

  const SignedOut := Session("", "", false, 0, 0)
  const Start := State(SignedOut, Cache("", "", map[], map[], 0), [], 0)

  predicate IsRange(range: string) {
    range == "hour" || range == "day" || range == "week" || range == "month" || range == "year"
  }

  /** One call: its arguments (no address when it is no server's) and the times at which it reads the clock. */
  datatype Query = Query(scope: Scope, address: Option<string>, identity: string, range: string,
                         checkedAt: int, lookedAt: int, storedAt: int)

  datatype Reply = Failed(isSignedOut: bool) | Success(activity: Activity)

  datatype Outcome = Cached(activity: Activity) | Fetched(activity: Activity) | Refused

  function Select(c: Cache, address: string, identity: string): Cache {
    if c.address == address && c.identity == identity then c
    else Cache(address, identity, map[], map[], 0)
  }

  predicate MatchesSession(s: State, q: Query) {
    && IsRange(q.range) && q.address.Some? && s.session.hasToken
    && s.session.address == q.address.value && s.session.identity == q.identity
  }

  /** The checks before either cache is looked at, and the choice of its owner and account. */
  function Authorize(s: State, q: Query): (State, bool) {
    if !MatchesSession(s, q) then (s, false)
    else if q.checkedAt >= s.session.expiresAt then (s.(session := SignedOut), false)
    else
      var c := Select(s.cache, s.session.address, q.identity);
      if q.scope.Shared? then (s.(cache := c), true)
      else if s.session.accountID <= 0 then (s.(cache := c), false)
      else if c.personalAccountID == s.session.accountID then (s.(cache := c), true)
      else (s.(cache := c.(personalAccountID := s.session.accountID, personalRanges := map[])), true)
  }

  function Entries(c: Cache, scope: Scope): map<string, Entry> {
    if scope.Shared? then c.ranges else c.personalRanges
  }

  function WithEntries(c: Cache, scope: Scope, entries: map<string, Entry>): Cache {
    if scope.Shared? then c.(ranges := entries) else c.(personalRanges := entries)
  }

  predicate IsRetained(a: Activity, now: int) {
    a.nextRefreshAt.Some? && now < a.nextRefreshAt.value <= now + HOUR
  }

  function Record(s: State, q: Query, a: Activity): State {
    s.(received := s.received + [Receipt(q.scope, s.session.address, s.session.identity, q.range, a, q.storedAt)])
  }

  /** What an answer, once taken in, does to the cache and to the caller. */
  function Store(s: State, q: Query, a: Activity): (State, Outcome) {
    if q.scope.Personal? && a.userID != s.session.accountID then (s, Refused)
    else if !IsRetained(a, q.storedAt) then (s, Fetched(a))
    else
      var entries := Entries(s.cache, q.scope)[q.range := Entry(a, a.nextRefreshAt.value)];
      (s.(cache := WithEntries(s.cache, q.scope, entries)), Fetched(a))
  }

  /** One call under the panel lock, if `reply` is what the server says when asked. */
  function Get(s: State, q: Query, reply: Reply): (State, Outcome) {
    var (t, isAuthorized) := Authorize(s, q);
    var entries := Entries(t.cache, q.scope);
    if !isAuthorized then (t, Refused)
    else if q.range in entries && q.lookedAt < entries[q.range].expiresAt then (t, Cached(entries[q.range].activity))
    else
      var u := t.(cache := WithEntries(t.cache, q.scope, entries - {q.range}));
      match reply
      case Failed(isSignedOut) => (if isSignedOut then u.(session := SignedOut) else u, Refused)
      case Success(a) => Store(Record(u, q, a), q, a)
  }

  datatype Event =
    | Ask(query: Query, reply: Reply)
    | Choose(address: string, identity: string)              // opening a panel, before the sign-in succeeds
    | SignIn(address: string, identity: string, expiresAt: int, accountID: int)
    | Refresh(expiresAt: int, accountID: int)
    | SignOut

  function Step(s: State, e: Event): Option<State> {
    match e
    case Ask(q, reply) =>
      if s.clock <= q.checkedAt <= q.lookedAt <= q.storedAt then Some(Get(s, q, reply).0.(clock := q.storedAt)) else None
    case Choose(address, identity) => Some(s.(cache := Select(s.cache, address, identity)))
    case SignIn(address, identity, expiresAt, accountID) =>
      Some(s.(session := Session(address, identity, true, expiresAt, accountID)))
    case Refresh(expiresAt, accountID) =>
      if s.session.hasToken then Some(s.(session := s.session.(expiresAt := expiresAt, accountID := accountID))) else None
    case SignOut => Some(s.(session := SignedOut))
  }

  function Exec(s: State, es: seq<Event>): Option<State>
    decreases |es|
  {
    if es == [] then Some(s)
    else match Step(s, es[0])
      case None => None
      case Some(next) => Exec(next, es[1..])
  }

  ghost predicate Reachable(s: State) {
    exists es: seq<Event> :: Exec(Start, es) == Some(s)
  }

  // -------------------------------------------------------------- invariant

  predicate IsFor(r: Receipt, scope: Scope, address: string, identity: string, range: string) {
    r.scope == scope && r.address == address && r.identity == identity && r.range == range
  }

  /** The server's latest answer to a question, whenever it was asked. */
  function Latest(received: seq<Receipt>, scope: Scope, address: string, identity: string, range: string): Option<Receipt>
    decreases |received|
  {
    if received == [] then None
    else
      var last := received[|received| - 1];
      if IsFor(last, scope, address, identity, range) then Some(last)
      else Latest(received[..|received| - 1], scope, address, identity, range)
  }

  lemma LatestAppend(received: seq<Receipt>, r: Receipt, scope: Scope, address: string, identity: string, range: string)
    ensures Latest(received + [r], scope, address, identity, range)
         == if IsFor(r, scope, address, identity, range) then Some(r) else Latest(received, scope, address, identity, range)
  {
    assert (received + [r])[..|received|] == received;
  }

  /** The entry is the server's latest answer, kept until the refresh time it names. */
  predicate IsGenuine(received: seq<Receipt>, c: Cache, scope: Scope, range: string, entry: Entry, clock: int) {
    var latest := Latest(received, scope, c.address, c.identity, range);
    && latest.Some? && latest.value.activity == entry.activity && latest.value.at <= clock
    && entry.activity.nextRefreshAt == Some(entry.expiresAt)
    && latest.value.at < entry.expiresAt <= latest.value.at + HOUR
    && (scope.Personal? ==> entry.activity.userID == c.personalAccountID)
  }

  ghost predicate AllGenuine(received: seq<Receipt>, c: Cache, scope: Scope, clock: int) {
    forall range :: range in Entries(c, scope) ==> IsGenuine(received, c, scope, range, Entries(c, scope)[range], clock)
  }

  ghost predicate Inv(s: State) {
    AllGenuine(s.received, s.cache, Shared, s.clock) && AllGenuine(s.received, s.cache, Personal, s.clock)
  }

  /** Dropping entries, or choosing another owner or account once theirs are dropped, keeps the rest genuine. */
  lemma FewerKeeps(s: State, c: Cache)
    requires Inv(s)
    requires forall scope: Scope, range :: range in Entries(c, scope) ==>
               && range in Entries(s.cache, scope) && Entries(c, scope)[range] == Entries(s.cache, scope)[range]
               && c.address == s.cache.address && c.identity == s.cache.identity
               && (scope.Personal? ==> c.personalAccountID == s.cache.personalAccountID)
    ensures Inv(s.(cache := c))
  {
    forall scope: Scope, range | range in Entries(c, scope)
      ensures IsGenuine(s.received, c, scope, range, Entries(c, scope)[range], s.clock)
    {
      assert IsGenuine(s.received, s.cache, scope, range, Entries(s.cache, scope)[range], s.clock);
    }
  }

  lemma AuthorizeKeeps(s: State, q: Query)
    requires Inv(s)
    ensures Inv(Authorize(s, q).0)
    ensures Authorize(s, q).1 ==>
              var t := Authorize(s, q).0;
              && t.session == s.session && t.received == s.received && t.clock == s.clock
              && t.cache.address == s.session.address && t.cache.identity == s.session.identity
              && (q.scope.Personal? ==> t.cache.personalAccountID == s.session.accountID)
  {
    FewerKeeps(s, Authorize(s, q).0.cache);
  }

  /** A new answer is taken in only after the entry for its question has been dropped. */
  lemma RecordKeeps(s: State, q: Query, a: Activity)
    requires Inv(s) && s.clock <= q.storedAt && q.range !in Entries(s.cache, q.scope)
    requires s.cache.address == s.session.address && s.cache.identity == s.session.identity
    ensures Inv(Record(s, q, a))
  {
    var t := Record(s, q, a);
    var r := t.received[|s.received|];
    forall scope: Scope, range | range in Entries(s.cache, scope)
      ensures IsGenuine(t.received, t.cache, scope, range, Entries(t.cache, scope)[range], t.clock)
    {
      assert IsGenuine(s.received, s.cache, scope, range, Entries(s.cache, scope)[range], s.clock);
      LatestAppend(s.received, r, scope, s.cache.address, s.cache.identity, range);
    }
  }

  lemma StoreKeeps(s: State, q: Query, a: Activity)
    requires Inv(s) && s.clock <= q.storedAt
    requires s.cache.address == s.session.address && s.cache.identity == s.session.identity
    requires q.scope.Personal? ==> s.cache.personalAccountID == s.session.accountID
    requires Latest(s.received, q.scope, s.cache.address, s.cache.identity, q.range)
          == Some(Receipt(q.scope, s.session.address, s.session.identity, q.range, a, q.storedAt))
    ensures Inv(Store(s, q, a).0.(clock := q.storedAt))
  {
    TimePasses(s, q.storedAt);
    var t := Store(s, q, a).0;
    forall scope: Scope, range | range in Entries(t.cache, scope)
      ensures IsGenuine(t.received, t.cache, scope, range, Entries(t.cache, scope)[range], q.storedAt)
    {
      if range in Entries(s.cache, scope) {
        assert IsGenuine(s.received, s.cache, scope, range, Entries(s.cache, scope)[range], q.storedAt);
      }
    }
  }

  lemma TimePasses(s: State, now: int)
    requires Inv(s) && s.clock <= now
    ensures Inv(s.(clock := now))
  {
    forall scope: Scope, range | range in Entries(s.cache, scope)
      ensures IsGenuine(s.received, s.cache, scope, range, Entries(s.cache, scope)[range], now)
    {
      assert IsGenuine(s.received, s.cache, scope, range, Entries(s.cache, scope)[range], s.clock);
    }
  }

  lemma GetKeeps(s: State, q: Query, reply: Reply)
    requires Inv(s) && s.clock <= q.checkedAt <= q.lookedAt <= q.storedAt
    ensures Inv(Get(s, q, reply).0.(clock := q.storedAt))
  {
    AuthorizeKeeps(s, q);
    var (t, isAuthorized) := Authorize(s, q);
    TimePasses(t, q.storedAt);
    if isAuthorized {
      var entries := Entries(t.cache, q.scope);
      if !(q.range in entries && q.lookedAt < entries[q.range].expiresAt) {
        var u := t.(cache := WithEntries(t.cache, q.scope, entries - {q.range}));
        FewerKeeps(t, u.cache);
        TimePasses(u, q.storedAt);
        if reply.Success? {
          RecordKeeps(u, q, reply.activity);
          var v := Record(u, q, reply.activity);
          LatestAppend(u.received, v.received[|u.received|], q.scope, u.cache.address, u.cache.identity, q.range);
          StoreKeeps(v, q, reply.activity);
        }
      }
    }
  }

  lemma StepKeeps(s: State, e: Event)
    requires Inv(s) && Step(s, e).Some?
    ensures Inv(Step(s, e).value)
  {
    if e.Ask? {
      GetKeeps(s, e.query, e.reply);
    }
  }

  lemma {:induction false} ExecKeeps(s: State, es: seq<Event>)
    requires Inv(s) && Exec(s, es).Some?
    ensures Inv(Exec(s, es).value)
    decreases |es|
  {
    if es != [] {
      StepKeeps(s, es[0]);
      ExecKeeps(Step(s, es[0]).value, es[1..]);
    }
  }

  // --------------------------------------------------------------- theorems

  /**
   An answer that is not fetched is the server's latest answer to this question
   for this server and account, returned before the refresh time it names, at
   most an hour after it was taken in; a personal one is the session's own.
   */
  lemma CachedIsLatest(s: State, q: Query, reply: Reply)
    requires Reachable(s) && s.clock <= q.checkedAt <= q.lookedAt <= q.storedAt
    requires Get(s, q, reply).1.Cached?
    ensures q.checkedAt < s.session.expiresAt && q.identity == s.session.identity && q.address == Some(s.session.address)
    ensures var latest := Latest(s.received, q.scope, s.session.address, s.session.identity, q.range);
            var a := Get(s, q, reply).1.activity;
            && latest.Some? && latest.value.activity == a && a.nextRefreshAt.Some?
            && latest.value.at <= q.lookedAt < a.nextRefreshAt.value <= latest.value.at + HOUR
    ensures q.scope.Personal? ==> Get(s, q, reply).1.activity.userID == s.session.accountID > 0
  {
    var es: seq<Event> :| Exec(Start, es) == Some(s);
    ExecKeeps(Start, es);
    AuthorizeKeeps(s, q);
    var t := Authorize(s, q).0;
    assert IsGenuine(t.received, t.cache, q.scope, q.range, Entries(t.cache, q.scope)[q.range], t.clock);
  }

  /** No personal answer of another account is ever returned, cached or fetched. */
  lemma PersonalIsOwn(s: State, q: Query, reply: Reply)
    requires Reachable(s) && s.clock <= q.checkedAt <= q.lookedAt <= q.storedAt
    requires q.scope.Personal? && !Get(s, q, reply).1.Refused?
    ensures Get(s, q, reply).1.activity.userID == s.session.accountID > 0
  {
    if Get(s, q, reply).1.Cached? {
      CachedIsLatest(s, q, reply);
    } else {
      AuthorizeKeepsAccount(s, q);
    }
  }

  lemma AuthorizeKeepsAccount(s: State, q: Query)
    requires Authorize(s, q).1 && q.scope.Personal?
    ensures Authorize(s, q).0.session == s.session && s.session.accountID > 0
  {
  }

  /** A second call is answered from the cache exactly when the first answer was kept and its time has not come. */
  lemma HitAfterFetch(s: State, q: Query, a: Activity, again: Query, reply: Reply)
    requires Get(s, q, Success(a)).1.Fetched? && q.lookedAt <= q.storedAt
    requires again.(checkedAt := 0, lookedAt := 0, storedAt := 0) == q.(checkedAt := 0, lookedAt := 0, storedAt := 0)
    requires q.storedAt <= again.lookedAt && again.checkedAt < s.session.expiresAt
    ensures var t := Get(s, q, Success(a)).0;
            Get(t, again, reply).1 == Cached(a) <==>
              && a.nextRefreshAt.Some? && q.storedAt < a.nextRefreshAt.value <= q.storedAt + 3_600_000_000_000
              && again.lookedAt < a.nextRefreshAt.value
  {
    var t := Get(s, q, Success(a)).0;
    assert t.session == s.session;
    assert Authorize(t, again) == (t, true);
  }

  /** The call is for a known range, of the signed-in server and account, before the session expires. */
  predicate IsAllowed(s: State, q: Query) {
    && q.range in {"hour", "day", "week", "month", "year"}
    && s.session.hasToken && q.address == Some(s.session.address) && q.identity == s.session.identity
    && q.checkedAt < s.session.expiresAt
    && (q.scope.Personal? ==> s.session.accountID > 0)
  }

  /** There is an answer of the session's server and account to this question whose time has not come. */
  predicate IsKept(s: State, q: Query) {
    && s.cache.address == s.session.address && s.cache.identity == s.session.identity
    && (if q.scope.Shared? then q.range in s.cache.ranges && q.lookedAt < s.cache.ranges[q.range].expiresAt
        else s.cache.personalAccountID == s.session.accountID
             && q.range in s.cache.personalRanges && q.lookedAt < s.cache.personalRanges[q.range].expiresAt)
  }

  /**
   What a call comes to: it is refused, answered from the cache, or answered with
   exactly what the server says; a personal answer of another account is refused.
   */
  lemma GetMeaning(s: State, q: Query, reply: Reply)
    ensures match Get(s, q, reply).1
            case Cached(a) =>
              && IsAllowed(s, q) && IsKept(s, q)
              && a == if q.scope.Shared? then s.cache.ranges[q.range].activity else s.cache.personalRanges[q.range].activity
            case Fetched(a) =>
              && IsAllowed(s, q) && !IsKept(s, q) && reply == Success(a)
              && (q.scope.Personal? ==> a.userID == s.session.accountID)
            case Refused =>
              || !IsAllowed(s, q)
              || (!IsKept(s, q) && (reply.Failed? || (q.scope.Personal? && reply.activity.userID != s.session.accountID)))
  {
  }

  /** Who is signed in afterwards: nobody once the session has expired or the server says so, else as before. */
  lemma SessionMeaning(s: State, q: Query, reply: Reply)
    ensures var t := Get(s, q, reply).0;
            && (q.checkedAt < s.session.expiresAt && !(reply.Failed? && reply.isSignedOut) ==> t.session == s.session)
            && (!Get(s, q, reply).1.Refused? ==> t.session == s.session)
            && (IsAllowed(s, q) && !IsKept(s, q) ==>
                  t.session == if reply.Failed? && reply.isSignedOut then SignedOut else s.session)
            && (IsAllowed(s, q.(checkedAt := s.session.expiresAt - 1)) && q.checkedAt >= s.session.expiresAt ==>
                  t.session == SignedOut)
  {
  }

  /** The time an answer is kept: it must name a refresh after now and within the hour. */
  lemma KeptMeaning(s: State, q: Query, a: Activity)
    requires Get(s, q, Success(a)).1 == Fetched(a)
    ensures var t := Get(s, q, Success(a)).0;
            && t.cache.address == s.session.address && t.cache.identity == s.session.identity
            && var entries := if q.scope.Shared? then t.cache.ranges else t.cache.personalRanges;
               if a.nextRefreshAt.Some? && 0 < a.nextRefreshAt.value - q.storedAt <= 3_600_000_000_000
               then q.range in entries && entries[q.range] == Entry(a, a.nextRefreshAt.value)
               else q.range !in entries
  {
  }

  // -------------------------------------------------------------- the object

  class App {
    var controlPanel: Session
    var controlActivityCache: Cache
    ghost var received: seq<Receipt>
    ghost var clock: int

    constructor ()
      ensures View() == Start
    {
      controlPanel, controlActivityCache, received, clock := SignedOut, Start.cache, [], 0;
    }

    ghost function View(): State
      reads this
    {
      State(controlPanel, controlActivityCache, received, clock)
    }

    method SelectOwnerLocked(address: string, identity: string)
      modifies this`controlActivityCache
      ensures controlActivityCache == Select(old(controlActivityCache), address, identity)
      ensures controlActivityCache.address == address && controlActivityCache.identity == identity
      ensures if old(controlActivityCache).address == address && old(controlActivityCache).identity == identity
              then controlActivityCache == old(controlActivityCache)
              else controlActivityCache.ranges == map[] && controlActivityCache.personalRanges == map[]
                   && controlActivityCache.personalAccountID == 0
    {
      if controlActivityCache.address == address && controlActivityCache.identity == identity { return; }
      controlActivityCache := Cache(address, identity, map[], map[], 0);
    }

    /** The session checks that both calls begin with. */
    method Admit(q: Query) returns (ok: bool)
      modifies this`controlPanel, this`controlActivityCache
      ensures ok == (MatchesSession(old(View()), q) && q.checkedAt < old(controlPanel).expiresAt)
      ensures ok ==> controlActivityCache == Select(old(controlActivityCache), controlPanel.address, q.identity)
      ensures !ok ==> controlActivityCache == old(controlActivityCache)
      ensures controlPanel == if MatchesSession(old(View()), q) && !ok then SignedOut else old(controlPanel)
    {
      if !IsRange(q.range) || q.address.None? { return false; }
      if !controlPanel.hasToken || controlPanel.address != q.address.value || controlPanel.identity != q.identity {
        return false;
      }
      if q.checkedAt >= controlPanel.expiresAt {
        controlPanel := SignedOut;
        return false;
      }
      SelectOwnerLocked(q.address.value, q.identity);
      ok := true;
    }

    method GetRemoteControlActivity(q: Query, reply: Reply) returns (r: Outcome)
      requires q.scope.Shared?
      modifies this
      ensures (View(), r) == Get(old(View()), q, reply)
    {
      var ok := Admit(q);
      if !ok { return Refused; }
      if q.range in controlActivityCache.ranges {
        var cached := controlActivityCache.ranges[q.range];
        if q.lookedAt < cached.expiresAt { return Cached(cached.activity); }
      }
      controlActivityCache := controlActivityCache.(ranges := controlActivityCache.ranges - {q.range});
      if reply.Failed? {
        if reply.isSignedOut { controlPanel := SignedOut; }
        return Refused;
      }
      received := Record(View(), q, reply.activity).received;
      CacheActivityLocked(q.range, reply.activity, q.storedAt);
      r := Fetched(reply.activity);
    }

    method CacheActivityLocked(range: string, activity: Activity, now: int)
      modifies this`controlActivityCache
      ensures controlActivityCache
           == if IsRetained(activity, now) then
                old(controlActivityCache).(ranges := old(controlActivityCache).ranges[range := Entry(activity, activity.nextRefreshAt.value)])
              else old(controlActivityCache)
    {
      if activity.nextRefreshAt.None? { return; }
      var expiresAt := activity.nextRefreshAt.value;
      if !(expiresAt > now) || expiresAt > now + HOUR { return; }
      controlActivityCache := controlActivityCache.(ranges := controlActivityCache.ranges[range := Entry(activity, expiresAt)]);
    }

    method GetMyControlActivity(q: Query, reply: Reply) returns (r: Outcome)
      requires q.scope.Personal?
      modifies this
      ensures (View(), r) == Get(old(View()), q, reply)
    {
      var ok := Admit(q);
      if !ok || controlPanel.accountID <= 0 { return Refused; }
      if controlActivityCache.personalAccountID != controlPanel.accountID {
        controlActivityCache := controlActivityCache.(personalAccountID := controlPanel.accountID, personalRanges := map[]);
      }
      if q.range in controlActivityCache.personalRanges {
        var cached := controlActivityCache.personalRanges[q.range];
        if q.lookedAt < cached.expiresAt { return Cached(cached.activity); }
      }
      controlActivityCache := controlActivityCache.(personalRanges := controlActivityCache.personalRanges - {q.range});
      if reply.Failed? {
        if reply.isSignedOut { controlPanel := SignedOut; }
        return Refused;
      }
      received := Record(View(), q, reply.activity).received;
      r := Keep(q.range, reply.activity, q.storedAt);
    }

    /** The end of the personal call: whose answer it is, and whether it is kept. */
    method Keep(range: string, activity: Activity, now: int) returns (r: Outcome)
      modifies this`controlActivityCache
      ensures r == if activity.userID == controlPanel.accountID then Fetched(activity) else Refused
      ensures controlActivityCache
           == if r.Fetched? && IsRetained(activity, now) then
                old(controlActivityCache).(personalRanges :=
                  old(controlActivityCache).personalRanges[range := Entry(activity, activity.nextRefreshAt.value)])
              else old(controlActivityCache)
    {
      if activity.userID != controlPanel.accountID { return Refused; }
      r := Fetched(activity);
      if activity.nextRefreshAt.None? { return; }
      var expiresAt := activity.nextRefreshAt.value;
      if expiresAt > now && !(expiresAt > now + HOUR) {
        controlActivityCache :=
          controlActivityCache.(personalRanges := controlActivityCache.personalRanges[range := Entry(activity, expiresAt)]);
      }
    }
  }
}
