/**
  Login lockout in the user service (`user/user/user.go`): the stored users, the cache
  `userMapCache` with its expiry time, and the operations that read and write them.
 */
module Login {
  import opened Wrappers

  const LOGIN_FAIL_LIMIT := 5
  const LOCK_GAP := 1800
  const CACHE_SECONDS := 10

  /** A user; `rest` stands for the fields that the lockout does not look at. */
  datatype User = User(
    id: string, username: string, locked: bool, lockedTime: int, failCount: int, lastLogin: int, rest: string)

  type Users = map<string, User>

  /** The stored users and the cached ones, both by ID, and `expirytime`. */
  datatype State = State(store: Users, cache: Users, expiry: int)

  /** What checking name and password says; `Refused` stands for every error other than a mismatch. */
  datatype Verdict = Matches | Mismatch | Refused

  datatype Outcome = Unknown | TooManyFailures | Rejected | Failed | LoggedIn

  // ---------- the operations, on the state ----------

  /** `reloadUserData`. */
  function Reloaded(s: State, now: int): State {
    if s.expiry <= now then s.(cache := s.store, expiry := now + CACHE_SECONDS) else s
  }

  /** `Save`. */
  function Saved(s: State, u: User): State {
    s.(store := s.store[u.id := u], expiry := 0)
  }

  /** The user after one more failure. */
  function Counted(u: User, now: int): User {
    var c := u.(failCount := u.failCount + 1);
    if c.failCount >= LOGIN_FAIL_LIMIT then c.(locked := true, lockedTime := now) else c
  }

  function Freed(u: User): User {
    u.(locked := false, failCount := 0)
  }

  ghost predicate UniqueNames(users: Users) {
    forall a, b :: a in users && b in users && a != b ==> users[a].username != users[b].username
  }

  /** `verify` for a user that exists: a match records the time of the login in the cache and the store. */
  function Verified(s: State, id: string, verdict: Verdict, now: int): State {
    var t := Reloaded(s, now);
    if verdict.Matches? && id in t.cache then
      var u := t.cache[id].(lastLogin := now);
      Saved(t.(cache := t.cache[id := u]), u)
    else t
  }

  /** `Login` of the user `id`. */
  function LoggedInState(s: State, id: string, verdict: Verdict, now: int): State
    requires id in s.store
  {
    var u := s.store[id];
    if u.failCount >= LOGIN_FAIL_LIMIT then s
    else
      var t := Verified(s, id, verdict, now);
      match verdict
      case Mismatch => Saved(t, Counted(u, now))
      case Matches => if id in t.cache then Reloaded(Saved(t, u.(failCount := 0)), now) else t
      case Refused => t
  }

  function LoginOutcome(s: State, id: string, verdict: Verdict, now: int): Outcome
    requires id in s.store
  {
    if s.store[id].failCount >= LOGIN_FAIL_LIMIT then TooManyFailures
    else match verdict
      case Mismatch => Rejected
      case Matches => if id in Reloaded(s, now).cache then LoggedIn else Failed
      case Refused => Failed
  }

  /** `Unlock` by an administrator. */
  function Unlocked(s: State, id: string, now: int): State {
    var t := Reloaded(s, now);
    if id in t.cache then Saved(t, Freed(t.cache[id])) else t
  }

  /** Any update of the user's other fields. */
  function Edited(s: State, id: string, rest: string, now: int): State {
    var t := Reloaded(s, now);
    if id in t.cache then Saved(t, t.cache[id].(rest := rest)) else t
  }

  predicate Due(u: User, now: int) {
    u.locked && u.lockedTime + LOCK_GAP <= now
  }

  /** `doUnlock` after the cached users `done`. */
  function PartlyUnlocked(s: State, done: set<string>, now: int): State {
    var due := set id | id in done && id in s.cache && Due(s.cache[id], now);
    State(
      map id | id in s.store.Keys + due :: if id in due then Freed(s.cache[id]) else s.store[id],
      map id | id in s.cache :: if id in due then Freed(s.cache[id]) else s.cache[id],
      if due == {} then s.expiry else 0)
  }

  lemma NothingUnlocked(s: State, now: int)
    ensures PartlyUnlocked(s, {}, now) == s
  {
  }

  lemma OneMoreUnlocked(s: State, done: set<string>, id: string, now: int)
    requires id in s.cache && id !in done && s.cache[id].id == id
    ensures var p, q := PartlyUnlocked(s, done, now), PartlyUnlocked(s, done + {id}, now);
      && id in p.cache && p.cache[id] == s.cache[id]
      && q == if Due(s.cache[id], now)
              then Saved(p.(cache := p.cache[id := Freed(s.cache[id])]), Freed(s.cache[id])) else p
  {
    var due := set i | i in done && i in s.cache && Due(s.cache[i], now);
    var more := set i | i in done + {id} && i in s.cache && Due(s.cache[i], now);
    assert more == if Due(s.cache[id], now) then due + {id} else due;
    hide Due, Freed;
    assert Freed(s.cache[id]).id == id by { FreedId(s.cache[id]); }
  }

  lemma FreedId(u: User)
    ensures Freed(u).id == u.id
  {
  }

  /** `doUnlock`: it reads the cache as it is. */
  function AutoUnlocked(s: State, now: int): State {
    PartlyUnlocked(s, s.cache.Keys, now)
  }

  /** `AddNewUser`, when the name is new. */
  function AddedUser(s: State, id: string, username: string, rest: string, now: int): State {
    Saved(Reloaded(s, now), User(id, username, false, 0, 0, 0, rest))
  }

  // ---------- the service ----------

  class UserService {
    var store: Users
    var userMapCache: Users
    var expirytime: int

    constructor (store: Users)
      ensures Now() == State(store, map[], 0)
    {
      this.store := store;
      userMapCache, expirytime := map[], 0;
    }

    ghost function Now(): State
      reads this
    {
      State(store, userMapCache, expirytime)
    }

    method ReloadUserData(now: int)
      modifies this
      ensures Now() == Reloaded(old(Now()), now)
    {
      if expirytime <= now {
        userMapCache := store;
        expirytime := now + CACHE_SECONDS;
      }
    }

    method Save(u: User)
      modifies this
      ensures Now() == Saved(old(Now()), u)
    {
      store := store[u.id := u];
      expirytime := 0;
    }

    /** `checkLoginFailCount`: it reads the store itself, not the cache. */
    method CheckLoginFailCount(username: string) returns (user: Option<User>, outcome: Outcome)
      ensures outcome == Unknown ==> user == None && forall id :: id in store ==> store[id].username != username
      ensures outcome == TooManyFailures ==> user == None
      ensures outcome == TooManyFailures ==>
        exists id :: id in store && store[id].username == username && store[id].failCount >= LOGIN_FAIL_LIMIT
      ensures outcome != Unknown && outcome != TooManyFailures ==>
        && user.Some? && user.value.failCount < LOGIN_FAIL_LIMIT
        && exists id :: id in store && store[id].username == username && store[id] == user.value
    {
      var todo := store.Keys;
      while todo != {}
        invariant todo <= store.Keys
        invariant forall id :: id in store && id !in todo ==> store[id].username != username
      {
        var id :| id in todo;
        if store[id].username == username {
          if store[id].failCount >= LOGIN_FAIL_LIMIT { return None, TooManyFailures; }
          return Some(store[id]), Failed;
        }
        todo := todo - {id};
      }
      return None, Unknown;
    }

    /** `verify`: on a match `LoginLocalAuth` stamps and saves the cached user. */
    method Verify(id: string, verdict: Verdict, now: int)
      modifies this
      ensures Now() == Verified(old(Now()), id, verdict, now)
    {
      ReloadUserData(now);
      if verdict.Matches? && id in userMapCache {
        var u := userMapCache[id];
        u := u.(lastLogin := now);
        userMapCache := userMapCache[id := u];
        Save(u);
      }
    }

    method CountLoginFailTimes(user: User, now: int)
      modifies this
      ensures Now() == Saved(old(Now()), Counted(user, now))
    {
      var u := user.(failCount := user.failCount + 1);
      if u.failCount >= LOGIN_FAIL_LIMIT {
        u := u.(locked := true);
        u := u.(lockedTime := now);
      }
      Save(u);
    }

    method Login(username: string, verdict: Verdict, now: int) returns (outcome: Outcome)
      requires UniqueNames(store) && forall id :: id in store ==> store[id].id == id
      modifies this
      ensures (forall id :: id in old(store) ==> old(store)[id].username != username) ==>
        outcome == Unknown && Now() == old(Now())
      ensures forall id :: id in old(store) && old(store)[id].username == username ==>
        && Now() == LoggedInState(old(Now()), id, verdict, now)
        && outcome == LoginOutcome(old(Now()), id, verdict, now)
    {
      hide Counted;
      var user, checked := CheckLoginFailCount(username);
      if user.None? { return checked; }
      var u := user.value;
      assert u.id in store && store[u.id].username == username;
      Verify(u.id, verdict, now);
      if verdict.Mismatch? {
        CountLoginFailTimes(u, now);
        return Rejected;
      }
      if verdict.Refused? || u.id !in userMapCache { return Failed; }
      Save(u.(failCount := 0));
      ReloadUserData(now);
      return LoggedIn;
    }

    method Unlock(id: string, now: int)
      modifies this
      ensures Now() == Unlocked(old(Now()), id, now)
    {
      ReloadUserData(now);
      if id in userMapCache {
        var u := userMapCache[id];
        u := u.(locked := false);
        u := u.(failCount := 0);
        Save(u);
      }
    }

    method DoUnlock(now: int)
      requires forall id :: id in userMapCache ==> userMapCache[id].id == id
      modifies this
      ensures Now() == AutoUnlocked(old(Now()), now)
    {
      hide PartlyUnlocked;
      var todo := userMapCache.Keys;
      ghost var s, done := Now(), {};
      NothingUnlocked(s, now);
      while todo != {}
        invariant done + todo == s.cache.Keys && done !! todo
        invariant Now() == PartlyUnlocked(s, done, now)
        decreases |todo|
      {
        var id :| id in todo;
        OneMoreUnlocked(s, done, id, now);
        var u := userMapCache[id];
        if u.locked && u.lockedTime + LOCK_GAP <= now {
          u := u.(locked := false);
          u := u.(failCount := 0);
          userMapCache := userMapCache[id := u];
          Save(u);
        }
        todo := todo - {id};
        done := done + {id};
      }
      assert done == s.cache.Keys;
    }
  }

  // ---------- what every run keeps ----------

  /** At most five failures, and locked exactly at five. */
  predicate CountOk(u: User) {
    0 <= u.failCount <= LOGIN_FAIL_LIMIT && (u.locked <==> u.failCount == LOGIN_FAIL_LIMIT)
  }

  ghost predicate UsersOk(users: Users) {
    forall id :: id in users ==> users[id].id == id && CountOk(users[id])
  }

  /** The cached user is an earlier state of the stored one, and tells the same lock time if both are locked. */
  ghost predicate Earlier(cached: User, stored: User) {
    && cached.username == stored.username
    && (cached.locked && stored.locked ==> cached.lockedTime == stored.lockedTime)
  }

  /** A cache that has not expired is the store; a stale one is behind it. */
  ghost predicate Inv(s: State) {
    && UsersOk(s.store) && UsersOk(s.cache) && UniqueNames(s.store)
    && (s.expiry == 0 || s.cache == s.store)
    && (forall id :: id in s.cache ==> id in s.store && Earlier(s.cache[id], s.store[id]))
  }

  lemma ReloadKeeps(s: State, now: int)
    requires Inv(s) && now > 0
    ensures Inv(Reloaded(s, now)) && Reloaded(s, now).cache == s.store && Reloaded(s, now).store == s.store
  {
    hide UsersOk, UniqueNames;
  }

  lemma SaveKeeps(s: State, u: User)
    requires Inv(s) && CountOk(u) && u.id in s.store && u.username == s.store[u.id].username
    requires u.id in s.cache && s.cache[u.id].locked && u.locked ==> s.cache[u.id].lockedTime == u.lockedTime
    ensures Inv(Saved(s, u))
  {
    hide CountOk;
  }

  lemma NewUserKeeps(s: State, u: User)
    requires Inv(s) && CountOk(u) && u.id !in s.store
    requires forall a :: a in s.store ==> s.store[a].username != u.username
    ensures Inv(Saved(s, u))
  {
    hide CountOk;
  }

  lemma LoginKeeps(s: State, id: string, verdict: Verdict, now: int)
    requires Inv(s) && id in s.store && now > 0
    ensures Inv(LoggedInState(s, id, verdict, now))
  {
    var u := s.store[id];
    if u.failCount < LOGIN_FAIL_LIMIT {
      var t := Reloaded(s, now);
      ReloadKeeps(s, now);
      match verdict {
        case Mismatch =>
          hide UsersOk, UniqueNames;
          CountKeeps(s, u, now);
          SaveKeeps(t, Counted(u, now));
        case Matches => MatchKeeps(s, id, now);
        case Refused =>
      }
    }
  }

  lemma CountKeeps(s: State, u: User, now: int)
    requires Inv(s) && u.id in s.store && s.store[u.id] == u && u.failCount < LOGIN_FAIL_LIMIT
    ensures CountOk(Counted(u, now)) && !u.locked
    ensures Counted(u, now).id == u.id && Counted(u, now).username == u.username
  {
  }

  lemma MatchKeeps(s: State, id: string, now: int)
    requires Inv(s) && id in s.store && now > 0 && s.store[id].failCount < LOGIN_FAIL_LIMIT
    ensures Inv(LoggedInState(s, id, Matches, now))
    ensures LoggedInState(s, id, Matches, now).store == s.store[id := s.store[id].(failCount := 0)]
  {
    var u, t := s.store[id], Reloaded(s, now);
    ReloadKeeps(s, now);
    var stamped := u.(lastLogin := now);
    var stampedCache := t.(cache := t.cache[id := stamped], expiry := 0);
    assert Inv(stampedCache);
    SaveKeeps(stampedCache, stamped);
    var v := Saved(stampedCache, stamped);
    assert v == Verified(s, id, Matches, now);
    SaveKeeps(v, u.(failCount := 0));
    ReloadKeeps(Saved(v, u.(failCount := 0)), now);
  }

  lemma UnlockKeeps(s: State, id: string, now: int)
    requires Inv(s) && now > 0
    ensures Inv(Unlocked(s, id, now))
  {
    ReloadKeeps(s, now);
    if id in s.store { SaveKeeps(Reloaded(s, now), Freed(s.store[id])); }
  }

  lemma EditKeeps(s: State, id: string, rest: string, now: int)
    requires Inv(s) && now > 0
    ensures Inv(Edited(s, id, rest, now))
    ensures id in s.store ==> Edited(s, id, rest, now).store == s.store[id := s.store[id].(rest := rest)]
  {
    ReloadKeeps(s, now);
    if id in s.store { SaveKeeps(Reloaded(s, now), s.store[id].(rest := rest)); }
  }

  lemma FreedOk(u: User)
    requires CountOk(u)
    ensures CountOk(Freed(u)) && Freed(u).id == u.id && Freed(u).username == u.username && !Freed(u).locked
  {
  }

  lemma AutoUnlockedAt(s: State, now: int, id: string)
    requires s.cache.Keys <= s.store.Keys
    ensures var t := AutoUnlocked(s, now);
      && (id in t.store <==> id in s.store) && (id in t.cache <==> id in s.cache)
      && (id in s.store ==>
            t.store[id] == if id in s.cache && Due(s.cache[id], now) then Freed(s.cache[id]) else s.store[id])
      && (id in s.cache ==> t.cache[id] == if Due(s.cache[id], now) then Freed(s.cache[id]) else s.cache[id])
  {
    var due := set i | i in s.cache.Keys && i in s.cache && Due(s.cache[i], now);
    assert forall i :: i in due ==> i in s.store;
    hide Due, Freed;
  }

  lemma AutoUnlockExpires(s: State, now: int)
    ensures AutoUnlocked(s, now).expiry == 0 || AutoUnlocked(s, now) == s
  {
    var due := set i | i in s.cache.Keys && i in s.cache && Due(s.cache[i], now);
    if due == {} { assert AutoUnlocked(s, now) == s; }
  }

  lemma AutoUnlockKeeps(s: State, now: int)
    requires Inv(s)
    ensures Inv(AutoUnlocked(s, now))
    ensures AutoUnlocked(s, now).store.Keys == s.store.Keys
  {
    hide AutoUnlocked, CountOk, Due, Freed;
    AutoUnlockExpires(s, now);
    var t := AutoUnlocked(s, now);
    forall id
      ensures (id in t.store <==> id in s.store) && (id in t.cache <==> id in s.cache)
      ensures id in s.store ==> CountOk(t.store[id]) && t.store[id].id == id
      ensures id in s.store ==> t.store[id].username == s.store[id].username
      ensures id in s.cache ==> CountOk(t.cache[id]) && t.cache[id].id == id && Earlier(t.cache[id], t.store[id])
    {
      AutoUnlockedAt(s, now, id);
      if id in s.cache { FreedOk(s.cache[id]); }
    }
  }

  datatype Op =
    | LoginOp(id: string, verdict: Verdict, now: int)
    | UnlockOp(id: string, now: int)
    | EditOp(id: string, rest: string, now: int)
    | DoUnlockOp(now: int)
    | ReloadOp(now: int)
    | AddOp(id: string, username: string, rest: string, now: int)

  /** The clock is past the epoch; a new user has a new ID and a new name. */
  ghost predicate Possible(s: State, op: Op) {
    && op.now > 0
    && (op.LoginOp? ==> op.id in s.store)
    && (op.AddOp? ==> op.id !in s.store && forall a :: a in s.store ==> s.store[a].username != op.username)
  }

  function Step(s: State, op: Op): State
    requires op.LoginOp? ==> op.id in s.store
  {
    match op
    case LoginOp(id, verdict, now) => LoggedInState(s, id, verdict, now)
    case UnlockOp(id, now) => Unlocked(s, id, now)
    case EditOp(id, rest, now) => Edited(s, id, rest, now)
    case DoUnlockOp(now) => AutoUnlocked(s, now)
    case ReloadOp(now) => Reloaded(s, now)
    case AddOp(id, username, rest, now) => AddedUser(s, id, username, rest, now)
  }

  lemma StepKeeps(s: State, op: Op)
    requires Inv(s) && Possible(s, op)
    ensures Inv(Step(s, op)) && s.store.Keys <= Step(s, op).store.Keys
  {
    match op {
      case LoginOp(id, verdict, now) => LoginKeeps(s, id, verdict, now);
      case UnlockOp(id, now) => UnlockKeeps(s, id, now);
      case EditOp(id, rest, now) => EditKeeps(s, id, rest, now);
      case DoUnlockOp(now) => AutoUnlockKeeps(s, now);
      case ReloadOp(now) => ReloadKeeps(s, now);
      case AddOp(id, username, rest, now) =>
        ReloadKeeps(s, now);
        NewUserKeeps(Reloaded(s, now), User(id, username, false, 0, 0, 0, rest));
    }
  }

  /** The state after the operations, if each was possible when it came. */
  ghost function After(s: State, ops: seq<Op>): Option<State> {
    if ops == [] then Some(s)
    else
      var before := After(s, ops[..|ops| - 1]);
      var op := ops[|ops| - 1];
      if before.Some? && Possible(before.value, op) then Some(Step(before.value, op)) else None
  }

  /** In every run nobody has more than five failures, and exactly those with five are locked. */
  lemma {:induction false} CountersInEveryRun(s: State, ops: seq<Op>)
    requires Inv(s) && After(s, ops).Some?
    ensures Inv(After(s, ops).value)
    decreases |ops|
  {
    hide Inv, Possible, Step;
    if ops != [] {
      CountersInEveryRun(s, ops[..|ops| - 1]);
      StepKeeps(After(s, ops[..|ops| - 1]).value, ops[|ops| - 1]);
    }
  }

  /** A service just started, over any users with sound counters: locked ones stay locked across a restart. */
  lemma StartIsGood(store: Users)
    requires UsersOk(store) && UniqueNames(store)
    ensures Inv(State(store, map[], 0))
  {
    hide CountOk;
  }

  // ---------- locked until released ----------

  /** What may unlock a user that has been locked since `lockedTime`. */
  predicate Releases(op: Op, id: string, lockedTime: int) {
    || (op.UnlockOp? && op.id == id)
    || (op.DoUnlockOp? && lockedTime + LOCK_GAP <= op.now)
  }

  lemma StepKeepsLock(s: State, op: Op, id: string)
    requires Inv(s) && Possible(s, op) && id in s.store && s.store[id].locked
    requires !Releases(op, id, s.store[id].lockedTime)
    ensures var t := Step(s, op).store; id in t && t[id].locked && t[id].lockedTime == s.store[id].lockedTime
  {
    match op {
      case LoginOp(other, verdict, now) => OnlyOwnLogin(s, other, verdict, now);
      case UnlockOp(other, now) => ReloadKeeps(s, now);
      case EditOp(other, rest, now) => ReloadKeeps(s, now);
      case DoUnlockOp(now) =>
      case ReloadOp(now) =>
      case AddOp(other, username, rest, now) => ReloadKeeps(s, now);
    }
  }

  /** A login changes no other user. */
  lemma OnlyOwnLogin(s: State, id: string, verdict: Verdict, now: int)
    requires Inv(s) && id in s.store && now > 0
    ensures var t := LoggedInState(s, id, verdict, now).store;
      forall other :: other in s.store && (other != id || s.store[id].locked) ==>
        other in t && t[other] == s.store[other]
  {
    ReloadKeeps(s, now);
    if s.store[id].failCount < LOGIN_FAIL_LIMIT && verdict.Matches? { MatchKeeps(s, id, now); }
  }

  /**
    Once a user is locked, every login attempt ends before the password is looked at, until
    an administrator unlocks the user or the periodic unlock runs at least 1800 seconds after the lock,
    however stale the cache it reads is.
   */
  lemma {:induction false} LockedUntilReleased(s: State, ops: seq<Op>, id: string, verdict: Verdict, now: int)
    requires Inv(s) && After(s, ops).Some? && id in s.store && s.store[id].locked
    requires forall k :: 0 <= k < |ops| ==> !Releases(ops[k], id, s.store[id].lockedTime)
    ensures var t := After(s, ops).value;
      && id in t.store && t.store[id].locked && t.store[id].lockedTime == s.store[id].lockedTime
      && LoginOutcome(t, id, verdict, now) == TooManyFailures && LoggedInState(t, id, verdict, now) == t
    decreases |ops|
  {
    CountersInEveryRun(s, ops);
    if ops != [] {
      var init := ops[..|ops| - 1];
      LockedUntilReleased(s, init, id, verdict, now);
      CountersInEveryRun(s, init);
      hide Step, Possible;
      StepKeepsLock(After(s, init).value, ops[|ops| - 1], id);
    }
  }

  /** The periodic unlock frees a user whose lock is old enough exactly when the cache shows the lock. */
  lemma DueIsReleased(s: State, id: string, now: int)
    requires Inv(s) && id in s.store && Due(s.store[id], now)
    ensures id in AutoUnlocked(s, now).store
    ensures !AutoUnlocked(s, now).store[id].locked <==> id in s.cache && s.cache[id].locked
    ensures id in s.cache && s.cache[id].locked ==> AutoUnlocked(s, now).store[id] == Freed(s.cache[id])
  {
    AutoUnlockedAt(s, now, id);
  }

  /** A cache read after the lock shows it, so that the next periodic unlock after 1800 seconds lifts it. */
  lemma ReloadedLockIsReleased(s: State, id: string, now: int, later: int)
    requires Inv(s) && now > 0 && id in s.store && Due(s.store[id], later)
    ensures AutoUnlocked(Reloaded(s, now), later).store[id] == Freed(s.store[id])
  {
    ReloadKeeps(s, now);
    DueIsReleased(Reloaded(s, now), id, later);
  }

  /** The login that locks a user has read the cache before it saves the lock, so the cache does not show it. */
  lemma LockingLoginHidesLock(s: State, id: string, now: int)
    requires Inv(s) && now > 0 && id in s.store && s.store[id].failCount == LOGIN_FAIL_LIMIT - 1
    ensures var t := LoggedInState(s, id, Mismatch, now);
      && Inv(t) && id in t.store && t.store[id].locked && t.store[id].lockedTime == now
      && id in t.cache && !t.cache[id].locked
  {
    LoginKeeps(s, id, Mismatch, now);
    ReloadKeeps(s, now);
  }

  /** The periodic unlock, or another attempt of the locked user. */
  predicate ReadsNothing(op: Op, id: string) {
    op.DoUnlockOp? || (op.LoginOp? && op.id == id)
  }

  lemma StaleLockStep(s: State, op: Op, id: string)
    requires Inv(s) && Possible(s, op) && ReadsNothing(op, id)
    requires id in s.store && s.store[id].locked && id in s.cache && !s.cache[id].locked
    ensures var t := Step(s, op);
      id in t.store && t.store[id] == s.store[id] && id in t.cache && t.cache[id] == s.cache[id]
  {
    if op.DoUnlockOp? { AutoUnlockedAt(s, op.now, id); }
  }

  /**
    Until another operation reads the store into the cache, the user stays locked, however
    often the periodic unlock runs, at whatever time, and however often the user tries again.
   */
  lemma {:induction false} StaleLockStays(s: State, ops: seq<Op>, id: string)
    requires Inv(s) && id in s.store && s.store[id].locked && id in s.cache && !s.cache[id].locked
    requires After(s, ops).Some? && forall k :: 0 <= k < |ops| ==> ReadsNothing(ops[k], id)
    ensures var t := After(s, ops).value;
      id in t.store && t.store[id] == s.store[id] && id in t.cache && t.cache[id] == s.cache[id]
    decreases |ops|
  {
    if ops != [] {
      var init := ops[..|ops| - 1];
      StaleLockStays(s, init, id);
      CountersInEveryRun(s, init);
      hide Inv, Possible, Step;
      StaleLockStep(After(s, init).value, ops[|ops| - 1], id);
    }
  }

  // ---------- what each operation does, in plain terms ----------

  /** A cache is read again once ten seconds old, or after any save, and lasts ten seconds. */
  lemma ReloadMeans(s: State, now: int)
    ensures Step(s, ReloadOp(now)) == if now < s.expiry then s else State(s.store, s.store, now + 10)
  {
  }

  /** An edit and a new user change one stored user, and expire the cache they have read. */
  lemma EditMeans(s: State, id: string, rest: string, now: int)
    requires Inv(s) && now > 0 && id in s.store
    ensures var t := Step(s, EditOp(id, rest, now));
      t.store == s.store[id := s.store[id].(rest := rest)] && t.cache == s.store && t.expiry == 0
  {
    EditKeeps(s, id, rest, now);
    ReloadKeeps(s, now);
  }

  lemma AddMeans(s: State, id: string, username: string, rest: string, now: int)
    requires Inv(s) && now > 0
    ensures Step(s, AddOp(id, username, rest, now))
         == State(s.store[id := User(id, username, false, 0, 0, 0, rest)], s.store, 0)
  {
    ReloadKeeps(s, now);
  }

  /** An administrator's unlock clears both fields of this user and no others, and lets the user in again. */
  lemma UnlockFrees(s: State, id: string, now: int, verdict: Verdict, later: int)
    requires Inv(s) && now > 0 && id in s.store
    ensures var t := Step(s, UnlockOp(id, now));
      && t.store == s.store[id := s.store[id].(locked := false, failCount := 0)]
      && t.cache == s.store && t.expiry == 0
      && LoginOutcome(t, id, verdict, later) != TooManyFailures
  {
    ReloadKeeps(s, now);
  }

  /** The outcome of a login, and all it changes: the stored user, the cached copy, the expiry. */
  lemma LoginMeans(s: State, id: string, verdict: Verdict, now: int)
    requires Inv(s) && now > 0 && id in s.store
    ensures var t, u, outcome := Step(s, LoginOp(id, verdict, now)), s.store[id], LoginOutcome(s, id, verdict, now);
      if u.failCount == 5 then t == s && outcome == TooManyFailures
      else match verdict
        case Refused => t.store == t.cache == s.store && outcome == Failed
        case Matches =>
          && t.store == t.cache == s.store[id := u.(failCount := 0)] && t.expiry == now + 10 && outcome == LoggedIn
        case Mismatch =>
          && t.store == s.store[id := if u.failCount < 4 then u.(failCount := u.failCount + 1)
                                      else u.(failCount := 5, locked := true, lockedTime := now)]
          && t.cache == s.store && t.expiry == 0 && outcome == Rejected
  {
    ReloadKeeps(s, now);
    if s.store[id].failCount < LOGIN_FAIL_LIMIT {
      if verdict.Matches? {
        MatchKeeps(s, id, now);
        LoggedInExpiry(s, id, now);
      }
      if verdict.Mismatch? { CountedIs(s.store[id], now); }
    }
  }

  lemma CountedIs(u: User, now: int)
    requires u.failCount < LOGIN_FAIL_LIMIT
    ensures Counted(u, now) == if u.failCount < 4 then u.(failCount := u.failCount + 1)
                               else u.(failCount := 5, locked := true, lockedTime := now)
  {
  }

  lemma LoggedInExpiry(s: State, id: string, now: int)
    requires Inv(s) && now > 0 && id in s.store && s.store[id].failCount < LOGIN_FAIL_LIMIT
    ensures var t := LoggedInState(s, id, Matches, now); t.cache == t.store && t.expiry == now + 10
  {
    ReloadKeeps(s, now);
  }

  /** The periodic unlock frees those whose lock the cache shows to be 1800 seconds old, with their cached fields. */
  lemma DoUnlockMeans(s: State, now: int, id: string)
    requires Inv(s)
    ensures var t := Step(s, DoUnlockOp(now));
      && t.store.Keys == s.store.Keys && t.cache.Keys == s.cache.Keys
      && (id in s.cache && s.cache[id].locked && now - s.cache[id].lockedTime >= 1800 ==>
            t.store[id] == t.cache[id] == s.cache[id].(locked := false, failCount := 0) && t.expiry == 0)
      && (id in s.store && !(id in s.cache && s.cache[id].locked && now - s.cache[id].lockedTime >= 1800) ==>
            t.store[id] == s.store[id] && (id in s.cache ==> t.cache[id] == s.cache[id]))
  {
    AutoUnlockKeeps(s, now);
    AutoUnlockedAt(s, now, id);
    AutoUnlockExpires(s, now);
    forall i ensures i in AutoUnlocked(s, now).cache <==> i in s.cache { AutoUnlockedAt(s, now, i); }
    hide AutoUnlocked;
  }

  // ---------- free until five more mismatches ----------

  predicate IsMismatch(op: Op, id: string) {
    op.LoginOp? && op.verdict.Mismatch? && op.id == id
  }

  function CountMismatches(ops: seq<Op>, id: string): nat {
    if ops == [] then 0
    else CountMismatches(ops[..|ops| - 1], id) + if IsMismatch(ops[|ops| - 1], id) then 1 else 0
  }

  /** Only a mismatch of the user itself raises its count, and by one. */
  lemma StepCounts(s: State, op: Op, id: string)
    requires Inv(s) && Possible(s, op) && id in s.store
    ensures id in Step(s, op).store
    ensures Step(s, op).store[id].failCount <= s.store[id].failCount + if IsMismatch(op, id) then 1 else 0
  {
    StepKeeps(s, op);
    match op {
      case LoginOp(other, verdict, now) => LoginMeans(s, other, verdict, now);
      case UnlockOp(other, now) => ReloadKeeps(s, now);
      case EditOp(other, rest, now) => ReloadKeeps(s, now);
      case DoUnlockOp(now) => DoUnlockMeans(s, now, id);
      case ReloadOp(now) =>
      case AddOp(other, username, rest, now) => ReloadKeeps(s, now);
    }
  }

  lemma {:induction false} RunCounts(s: State, ops: seq<Op>, id: string)
    requires Inv(s) && id in s.store && After(s, ops).Some?
    ensures var t := After(s, ops).value;
      id in t.store && t.store[id].failCount <= s.store[id].failCount + CountMismatches(ops, id)
    decreases |ops|
  {
    if ops != [] {
      var init := ops[..|ops| - 1];
      RunCounts(s, init, id);
      CountersInEveryRun(s, init);
      hide Inv, Possible, Step;
      StepCounts(After(s, init).value, ops[|ops| - 1], id);
    }
  }

  /** After an unlock the user is let in, and not locked, in every run with fewer than five of its mismatches. */
  lemma FreeUntilFiveMismatches(s: State, id: string, now: int, ops: seq<Op>, verdict: Verdict, later: int)
    requires Inv(s) && now > 0 && id in s.store && After(Step(s, UnlockOp(id, now)), ops).Some?
    requires CountMismatches(ops, id) < 5
    ensures var t := After(Step(s, UnlockOp(id, now)), ops).value;
      id in t.store && !t.store[id].locked && LoginOutcome(t, id, verdict, later) != TooManyFailures
  {
    var u := Step(s, UnlockOp(id, now));
    UnlockFrees(s, id, now, verdict, later);
    StepKeeps(s, UnlockOp(id, now));
    hide Step;
    RunCounts(u, ops, id);
    CountersInEveryRun(u, ops);
  }

  /** Five mismatches in a row lock a user that has none, at the time of the fifth, and fewer do not. */
  lemma {:induction false} FiveMismatchesLock(s: State, ops: seq<Op>, id: string)
    requires Inv(s) && id in s.store && s.store[id].failCount == 0 && After(s, ops).Some?
    requires |ops| <= 5 && forall k :: 0 <= k < |ops| ==> IsMismatch(ops[k], id)
    ensures After(s, ops).value.store == s.store[id :=
      if |ops| < 5 then s.store[id].(failCount := |ops|)
      else s.store[id].(failCount := 5, locked := true, lockedTime := ops[4].now)]
    decreases |ops|
  {
    if ops != [] {
      var init, op := ops[..|ops| - 1], ops[|ops| - 1];
      FiveMismatchesLock(s, init, id);
      CountersInEveryRun(s, init);
      var t := After(s, init).value;
      assert t.store[id] == s.store[id].(failCount := |ops| - 1);
      LoginMeans(t, id, Mismatch, op.now);
      hide Step, Inv;
    }
  }

  // ---------- what the stale copies cost ----------

  /** An edit survives a periodic unlock that follows it exactly when the unlock did not concern that user. */
  lemma EditSurvivesExactlyWhen(s: State, id: string, rest: string, now: int, later: int)
    requires Inv(s) && now > 0 && id in s.store && rest != s.store[id].rest
    ensures id in AutoUnlocked(Edited(s, id, rest, now), later).store
    ensures AutoUnlocked(Edited(s, id, rest, now), later).store[id].rest == rest <==> !Due(s.store[id], later)
  {
    ReloadKeeps(s, now);
    EditKeeps(s, id, rest, now);
    assert Edited(s, id, rest, now).cache[id] == s.store[id];
  }

  /** A successful login saves the copy read before it, so the login time just stored is lost. */
  lemma LoginTimeIsLost(s: State, id: string, now: int)
    requires Inv(s) && id in s.store && now > 0 && s.store[id].failCount < LOGIN_FAIL_LIMIT
    ensures LoginOutcome(s, id, Matches, now) == LoggedIn
    ensures Verified(s, id, Matches, now).store[id].lastLogin == now
    ensures LoggedInState(s, id, Matches, now).store[id] == s.store[id].(failCount := 0)
  {
    ReloadKeeps(s, now);
    MatchKeeps(s, id, now);
  }

  // ---------- runs of one user in which updates are lost ----------

  /** The user "u" after `n` failures at time 1. */
  function Tried(n: nat): User
    requires n <= LOGIN_FAIL_LIMIT
  {
    User("u", "name", n == LOGIN_FAIL_LIMIT, if n == LOGIN_FAIL_LIMIT then 1 else 0, n, 0, "old")
  }

  function Started(): State { State(map["u" := Tried(0)], map[], 0) }

  /** The state after `n` failures: the cache is one failure behind. */
  function TriedState(n: nat): State
    requires n <= LOGIN_FAIL_LIMIT
  {
    if n == 0 then Started() else State(map["u" := Tried(n)], map["u" := Tried(n - 1)], 0)
  }

  lemma StartedIsGood()
    ensures Inv(Started())
  {
  }

  function Mismatches(n: nat): seq<Op> {
    seq(n, _ => LoginOp("u", Mismatch, 1))
  }

  lemma Then(s: State, ops: seq<Op>, op: Op)
    requires After(s, ops).Some? && Possible(After(s, ops).value, op)
    ensures After(s, ops + [op]) == Some(Step(After(s, ops).value, op))
  {
    hide Possible, Step;
    assert (ops + [op])[..|ops|] == ops;
  }

  lemma {:induction false} AfterMismatches(n: nat)
    requires n <= LOGIN_FAIL_LIMIT
    ensures After(Started(), Mismatches(n)) == Some(TriedState(n))
  {
    if n > 0 {
      AfterMismatches(n - 1);
      var s := TriedState(n - 1);
      Then(Started(), Mismatches(n - 1), LoginOp("u", Mismatch, 1));
      assert Mismatches(n) == Mismatches(n - 1) + [LoginOp("u", Mismatch, 1)];
      assert s.store["u" := Tried(n)] == map["u" := Tried(n)];
    }
  }

  /** Five mismatches, an edit, and the periodic unlock 1800 seconds after the lock: the edit is gone. */
  lemma EditIsLost()
    ensures Inv(Started())
    ensures var s := After(Started(), Mismatches(5) + [EditOp("u", "new", 2)] + [DoUnlockOp(1 + LOCK_GAP)]);
      s.Some? && "u" in s.value.store && s.value.store["u"].rest == "old"
  {
    StartedIsGood();
    AfterMismatches(5);
    var s := TriedState(5);
    var edited := Tried(5).(rest := "new");
    Then(Started(), Mismatches(5), EditOp("u", "new", 2));
    var t := Step(s, EditOp("u", "new", 2));
    assert t.cache["u"] == Tried(5) && "u" in t.store;
    Then(Started(), Mismatches(5) + [EditOp("u", "new", 2)], DoUnlockOp(1 + LOCK_GAP));
    hide After;
    assert "u" in AutoUnlocked(t, 1 + LOCK_GAP).store && AutoUnlocked(t, 1 + LOCK_GAP).store["u"] == Freed(Tried(5));
  }

  /** Five mismatches, and the periodic unlock at any later time: the user is still locked. */
  lemma LockIsNotLifted(later: int)
    requires later > 0
    ensures var s := After(Started(), Mismatches(5) + [DoUnlockOp(later)]);
      s.Some? && "u" in s.value.store && s.value.store["u"] == Tried(5)
  {
    StartedIsGood();
    AfterMismatches(5);
    Then(Started(), Mismatches(5), DoUnlockOp(later));
    AutoUnlockedAt(TriedState(5), later, "u");
  }

  /** One successful login at time 7 leaves the login time at zero. */
  lemma LoginTimeStaysZero()
    ensures var s := After(Started(), [LoginOp("u", Matches, 7)]);
      s.Some? && "u" in s.value.store && s.value.store["u"].lastLogin == 0
  {
    StartedIsGood();
    LoginTimeIsLost(Started(), "u", 7);
    assert After(Started(), []) == Some(Started());
    Then(Started(), [], LoginOp("u", Matches, 7));
    MatchKeeps(Started(), "u", 7);
    assert [] + [LoginOp("u", Matches, 7)] == [LoginOp("u", Matches, 7)];
  }
}
