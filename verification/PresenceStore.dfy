/** The Redis keys of one presence channel and the atomic scripts over them. */
module PresenceStore {
  import opened Collections
  import opened Options

  const GC_SECONDS := 86400
  const MUTEX_TIMEOUT_SECONDS := 10

  // ---------------------------------------------------------------- members of the client list

  predicate IsUserId(user: string) { user != "" && ' ' !in user }

  /** A member of the client list: user id, a space, client id. */
  function Elem(user: string, client: string): string { user + " " + client }

  function SkipSpaces(s: string): string {
    if s != "" && s[0] == ' ' then SkipSpaces(s[1..]) else s
  }

  function UpToSpace(s: string): string {
    if s == "" || s[0] == ' ' then "" else [s[0]] + UpToSpace(s[1..])
  }

  /** The first run of characters other than spaces. */
  function UserOf(elem: string): string { UpToSpace(SkipSpaces(elem)) }

  lemma {:induction false} UpToSpaceStops(user: string, rest: string)
    requires ' ' !in user
    ensures UpToSpace(user + " " + rest) == user
  {
    var s := user + " " + rest;
    if user != "" {
      assert s[0] == user[0] && user[0] in user;
      assert s[1..] == user[1..] + " " + rest;
      assert forall c :: c in user[1..] ==> c in user;
      UpToSpaceStops(user[1..], rest);
    }
  }

  /** The user id written into a member is the one read back. */
  lemma UserOfElem(user: string, client: string)
    requires IsUserId(user)
    ensures UserOf(Elem(user, client)) == user
  {
    assert user[0] in user;
    assert Elem(user, client)[0] == user[0];
    UpToSpaceStops(user, client);
  }

  // ---------------------------------------------------------------- state

  datatype Message = Entering(user: string) | Leaving(users: seq<string>)

  datatype Lock = Lock(value: string, until: int)

  /** `listed` is the channel's score in the global channel list. The two expiry
      times say when Redis drops the client list and the user hash. */
  datatype State = State(
    zlist: map<string, int>,
    hash: map<string, int>,
    listed: Option<int>,
    mutex: Option<Lock>,
    zlistUntil: int,
    hashUntil: int,
    now: int)

  datatype Reply<+T> = Locked | Done(value: T)

  const EMPTY := State(map[], map[], None, None, 0, 0, 0)

  function Clients(zlist: map<string, int>, user: string): set<string> {
    set e | e in zlist && UserOf(e) == user
  }

  /** The hash holds exactly the users with a client, each with the number of its clients. */
  ghost predicate CountsOk(zlist: map<string, int>, hash: map<string, int>) {
    forall u: string ::
      && (u in hash <==> Clients(zlist, u) != {})
      && (u in hash ==> hash[u] == |Clients(zlist, u)|)
  }

  function Count(hash: map<string, int>, user: string): int {
    if user in hash then hash[user] else 0
  }

  /** HINCRBY -1, and HDEL when nothing is left. */
  function Decremented(hash: map<string, int>, user: string): map<string, int> {
    var val := Count(hash, user) - 1;
    if val <= 0 then hash - {user} else hash[user := val]
  }

  lemma ClientsAdd(zlist: map<string, int>, e: string, expires: int, u: string)
    ensures Clients(zlist[e := expires], u) == if UserOf(e) == u then Clients(zlist, u) + {e} else Clients(zlist, u)
  {
    hide UserOf;
  }

  lemma CountsAdd(zlist: map<string, int>, hash: map<string, int>, e: string, expires: int)
    requires CountsOk(zlist, hash) && e !in zlist
    ensures CountsOk(zlist[e := expires], hash[UserOf(e) := Count(hash, UserOf(e)) + 1])
  {
    hide UserOf;
    var (user, z, h) := (UserOf(e), zlist[e := expires], hash[UserOf(e) := Count(hash, UserOf(e)) + 1]);
    forall u ensures (u in h <==> Clients(z, u) != {}) && (u in h ==> h[u] == |Clients(z, u)|) {
      ClientsAdd(zlist, e, expires, u);
      assert e !in Clients(zlist, u);
    }
  }

  lemma CountsRefresh(zlist: map<string, int>, hash: map<string, int>, e: string, expires: int)
    requires CountsOk(zlist, hash) && e in zlist
    ensures CountsOk(zlist[e := expires], hash)
  {
    forall u ensures Clients(zlist[e := expires], u) == Clients(zlist, u) {
    }
  }

  lemma CountsRemove(zlist: map<string, int>, hash: map<string, int>, e: string)
    requires CountsOk(zlist, hash) && e in zlist
    ensures UserOf(e) in hash && hash[UserOf(e)] >= 1
    ensures CountsOk(zlist - {e}, Decremented(hash, UserOf(e)))
    ensures hash[UserOf(e)] == 1 ==> Clients(zlist, UserOf(e)) == {e}
  {
    var (user, z, h) := (UserOf(e), zlist - {e}, Decremented(hash, UserOf(e)));
    assert e in Clients(zlist, user);
    assert Clients(z, user) == Clients(zlist, user) - {e};
    assert |Clients(z, user)| == hash[user] - 1;
    forall u ensures (u in h <==> Clients(z, u) != {}) && (u in h ==> h[u] == |Clients(z, u)|) {
      if u != user {
        assert Clients(z, u) == Clients(zlist, u);
      }
    }
    if hash[user] == 1 {
      assert Clients(zlist, user) == {e} + Clients(z, user);
    }
  }

  // ---------------------------------------------------------------- the lowest score

  ghost predicate Lowest(zlist: map<string, int>, e: string) {
    e in zlist && forall f :: f in zlist ==> zlist[e] <= zlist[f]
  }

  lemma LowestExists(zlist: map<string, int>)
    requires zlist != map[]
    ensures exists e :: Lowest(zlist, e)
  {
    var x :| x in zlist;
    var e := Least(zlist.Keys, e => if e in zlist then zlist[e] else 0, x);
    assert Lowest(zlist, e);
  }

  /** The score the global list gets: the earliest expiry, or none for an empty channel. */
  ghost function MinScore(zlist: map<string, int>): (r: Option<int>)
    ensures r.None? <==> zlist == map[]
    ensures r.Some? ==>
              (forall e :: e in zlist ==> r.value <= zlist[e]) && exists e :: e in zlist && zlist[e] == r.value
  {
    if zlist == map[] then None
    else
      LowestExists(zlist);
      var e :| Lowest(zlist, e);
      Some(zlist[e])
  }

  // ---------------------------------------------------------------- what the scripts do

  /** Redis drops keys whose expiry time has come before it runs a command. */
  function Tick(s: State, t: int): State {
    s.(now := t,
       zlist := if t >= s.zlistUntil then map[] else s.zlist,
       hash := if t >= s.hashUntil then map[] else s.hash,
       mutex := if s.mutex.Some? && t >= s.mutex.value.until then None else s.mutex)
  }

  function PresentScript(s: State, user: string, client: string, expires: int, value: string): (State, Reply<int>) {
    var elem := Elem(user, client);
    if s.mutex.Some? && user !in s.hash then (s, Locked)
    else
      var count := Count(s.hash, user) + 1;
      var entered := elem !in s.zlist && count == 1;
      (State(
         s.zlist[elem := expires],
         if elem in s.zlist then s.hash else s.hash[user := count],
         if elem in s.zlist || s.listed.Some? then s.listed else Some(expires),
         if entered then Some(Lock(value, s.now + MUTEX_TIMEOUT_SECONDS)) else s.mutex,
         expires + GC_SECONDS, expires + GC_SECONDS, s.now),
       Done(if entered then 1 else 0))
  }

  /** The guard of the leave script if the session count were read as a number. */
  predicate LastSession(s: State, user: string, client: string) {
    user in s.hash && s.hash[user] == 1 && Elem(user, client) in s.zlist
  }

  /** `numeric` chooses how the guard compares HGET's answer with 1. As written it compares
      a string with a number, which is never equal. */
  ghost function LeaveScript(s: State, user: string, client: string, value: string, numeric: bool)
    : (State, Reply<int>)
  {
    var elem := Elem(user, client);
    if s.mutex.Some? && numeric && LastSession(s, user, client) then (s, Locked)
    else if elem !in s.zlist then (s, Done(0))
    else
      var left := Count(s.hash, user) - 1 <= 0;
      (s.(zlist := s.zlist - {elem},
          listed := MinScore(s.zlist - {elem}),
          hash := Decremented(s.hash, user),
          mutex := if left then Some(Lock(value, s.now + MUTEX_TIMEOUT_SECONDS)) else s.mutex),
       Done(if left then 1 else 0))
  }

  /** Every other client keeps its expiry time. */
  ghost predicate OthersKeep(zlist: map<string, int>, zlist': map<string, int>, e: string) {
    zlist - {e} == zlist' - {e}
  }

  lemma OnlyClient(zlist: map<string, int>, hash: map<string, int>, user: string, e: string)
    requires CountsOk(zlist, hash) && UserOf(e) == user
    ensures user in hash && hash[user] == 1 && e in zlist <==> Clients(zlist, user) == {e}
  {
    hide UserOf;
    var c := Clients(zlist, user);
    if user in hash && hash[user] == 1 && e in zlist {
      assert e in c && |c - {e}| == 0;
      assert c == {e} + (c - {e});
    }
    if c == {e} {
      assert e in c && |c| == 1;
    }
  }

  /** What a present does, in terms of clients: refused exactly when the user would be new while the mutex is
      taken; otherwise the client's expiry time is set and no other one changes, and the answer is 1 with the
      mutex taken exactly when the user is new. */
  ghost predicate Presented(s: State, user: string, client: string, expires: int, value: string,
                            s': State, r: Reply<int>)
  {
    var (e, isNew) := (Elem(user, client), Clients(s.zlist, user) == {});
    && (r.Locked? <==> s.mutex.Some? && isNew)
    && (r.Locked? ==> s' == s)
    && (r.Done? ==>
          && e in s'.zlist && s'.zlist[e] == expires && OthersKeep(s.zlist, s'.zlist, e)
          && r.value == (if isNew then 1 else 0)
          && s'.mutex == (if isNew then Some(Lock(value, s.now + 10)) else s.mutex)
          && s'.zlistUntil == s'.hashUntil == expires + 86400
          && s'.listed == (if s.listed.None? && e !in s.zlist then Some(expires) else s.listed))
  }

  lemma PresentPresents(s: State, user: string, client: string, expires: int, value: string)
    requires IsUserId(user) && CountsOk(s.zlist, s.hash)
    ensures var (s', r) := PresentScript(s, user, client, expires, value);
            Presented(s, user, client, expires, value, s', r)
  {
    var e := Elem(user, client);
    UserOfElem(user, client);
    hide UserOf, Elem;
    assert user in s.hash <==> Clients(s.zlist, user) != {};
    if e in s.zlist { assert e in Clients(s.zlist, user); }
    if user in s.hash { assert |Clients(s.zlist, user)| >= 1; }
    assert s.zlist[e := expires] - {e} == s.zlist - {e};
  }

  /** What a leave does: refused exactly when the guard is read numerically, the mutex is taken and this is the
      user's only client; otherwise the client is gone, no other one changes, and the answer is 1 with the
      mutex taken exactly when the user has gone with it. */
  ghost predicate HasLeft(s: State, user: string, client: string, value: string, numeric: bool,
                          s': State, r: Reply<int>)
  {
    var (e, last) := (Elem(user, client), Clients(s.zlist, user) == {Elem(user, client)});
    && (r.Locked? <==> numeric && s.mutex.Some? && last)
    && (r.Locked? ==> s' == s)
    && (r.Done? ==>
          && e !in s'.zlist && OthersKeep(s.zlist, s'.zlist, e)
          && r.value == (if last then 1 else 0)
          && s'.mutex == (if last then Some(Lock(value, s.now + 10)) else s.mutex)
          && s'.zlistUntil == s.zlistUntil && s'.hashUntil == s.hashUntil
          && s'.listed == (if e in s.zlist then MinScore(s'.zlist) else s.listed))
  }

  lemma LeaveLeaves(s: State, user: string, client: string, value: string, numeric: bool)
    requires IsUserId(user) && CountsOk(s.zlist, s.hash)
    ensures var (s', r) := LeaveScript(s, user, client, value, numeric);
            HasLeft(s, user, client, value, numeric, s', r)
  {
    var e := Elem(user, client);
    UserOfElem(user, client);
    OnlyClient(s.zlist, s.hash, user, e);
    if e in s.zlist { CountsRemove(s.zlist, s.hash, e); }
    hide UserOf, Elem, CountsOk, MinScore;
    assert (s.zlist - {e}) - {e} == s.zlist - {e};
    if e !in s.zlist {
      assert s.zlist - {e} == s.zlist;
      assert e !in Clients(s.zlist, user);
    }
  }

  function ReleaseScript(s: State, value: string): State {
    if s.mutex.Some? && s.mutex.value.value == value then s.(mutex := None) else s
  }

  /** The id of the last message, or -1 before the first. */
  function LastId(log: seq<Message>): (id: int)
    ensures id == -1 <==> log == []
  {
    if log == [] then -1 else |log|
  }

  /** What a reader gets: the last message id and the users, or the mutex error. */
  function UserIdsScript(s: State, log: seq<Message>): Reply<(int, set<string>)> {
    if s.mutex.Some? then Locked else Done((LastId(log), s.hash.Keys))
  }

  /** The same with the number of users only. */
  function CountScript(s: State, log: seq<Message>): Reply<(int, int)> {
    if s.mutex.Some? then Locked else Done((LastId(log), |s.hash|))
  }

  function Expired(zlist: map<string, int>, time: int): set<string> {
    set e | e in zlist && zlist[e] <= time
  }

  /** A user all of whose clients have expired. */
  ghost predicate Gone(zlist: map<string, int>, time: int, user: string) {
    Clients(zlist, user) != {} && Clients(zlist, user) <= Expired(zlist, time)
  }

  /** A run of auto_leave to its end at `time`. */
  ghost predicate AutoLeaveDone(s: State, time: int, value: string, s': State, left: seq<string>) {
    && s'.zlist == s.zlist - Expired(s.zlist, time)
    && CountsOk(s'.zlist, s'.hash)
    && NoRepeats(left)
    && (forall u :: u in left <==> u in s.hash && u !in s'.hash)
    && (forall u :: u in left <==> Gone(s.zlist, time, u))
    && (left != [] ==> s.mutex.None?)
    && s' == s.(zlist := s'.zlist, hash := s'.hash, listed := MinScore(s'.zlist),
                mutex := if left == [] then s.mutex else Some(Lock(value, s.now + MUTEX_TIMEOUT_SECONDS)))
  }

  /** A run of auto_leave that stopped at a locked mutex: what it had removed stays removed. */
  ghost predicate AutoLeaveAborted(s: State, time: int, s': State) {
    && s.mutex.Some?
    && (exists u :: Gone(s.zlist, time, u))
    && s'.zlist.Keys <= s.zlist.Keys && (forall e :: e in s'.zlist ==> s'.zlist[e] == s.zlist[e])
    && s.zlist.Keys - s'.zlist.Keys <= Expired(s.zlist, time)
    && CountsOk(s'.zlist, s'.hash) && s'.hash.Keys == s.hash.Keys
    && s' == s.(zlist := s'.zlist, hash := s'.hash)
  }

  ghost predicate AutoLeaveScript(s: State, time: int, value: string, s': State, reply: Reply<seq<string>>) {
    match reply
    case Done(left) => AutoLeaveDone(s, time, value, s', left)
    case Locked => AutoLeaveAborted(s, time, s')
  }

  /** auto_leave aborts exactly when the mutex is taken and some user would leave. */
  lemma AutoLeaveOutcome(s: State, time: int, value: string, s': State, reply: Reply<seq<string>>)
    requires AutoLeaveScript(s, time, value, s', reply)
    ensures reply.Locked? <==> s.mutex.Some? && exists u :: Gone(s.zlist, time, u)
  {
    if reply.Done? && s.mutex.Some? {
      forall u ensures !Gone(s.zlist, time, u) {
        assert u !in reply.value;
      }
    }
  }

  /** One entry of the loop: its client goes, and with the last one the user. */
  lemma ExpireOne(zlist: map<string, int>, hash: map<string, int>, e: string)
    requires CountsOk(zlist, hash) && e in zlist
    ensures CountsOk(zlist - {e}, Decremented(hash, UserOf(e))) && UserOf(e) in hash
    ensures (Decremented(hash, UserOf(e)).Keys == if hash[UserOf(e)] == 1 then hash.Keys - {UserOf(e)} else hash.Keys)
    ensures hash[UserOf(e)] == 1 <==> Count(hash, UserOf(e)) - 1 <= 0
  {
    CountsRemove(zlist, hash, e);
  }

  /** The loop's invariant: `done` are the expired clients already removed, `left` the users that went with them. */
  ghost predicate Expiring(s: State, time: int, value: string, k: State, done: set<string>, hasMutex: bool,
                           left: seq<string>)
  {
    && done <= Expired(s.zlist, time)
    && k.zlist == s.zlist - done && CountsOk(k.zlist, k.hash) && k.hash.Keys <= s.hash.Keys
    && k == s.(zlist := k.zlist, hash := k.hash,
               mutex := if hasMutex then Some(Lock(value, s.now + MUTEX_TIMEOUT_SECONDS)) else s.mutex)
    && NoRepeats(left) && (forall u :: u in left <==> u in s.hash && u !in k.hash)
    && (hasMutex <==> left != []) && (hasMutex ==> s.mutex.None?)
  }

  lemma StartExpiring(s: State, time: int, value: string)
    requires CountsOk(s.zlist, s.hash)
    ensures Expiring(s, time, value, s, {}, false, [])
  {
    assert s.zlist - {} == s.zlist;
  }

  lemma LeftGrows(before: map<string, int>, hash: map<string, int>, left: seq<string>, user: string)
    requires NoRepeats(left) && hash.Keys <= before.Keys && user in hash
    requires forall u :: u in left <==> u in before && u !in hash
    ensures NoRepeats(left + [user])
    ensures forall u :: u in left + [user] <==> u in before && u !in hash - {user}
  {
  }

  lemma OneFewer(zlist: map<string, int>, time: int, done: set<string>, v: string)
    requires done <= Expired(zlist, time) && v in Expired(zlist, time)
    ensures done + {v} <= Expired(zlist, time) && (zlist - done) - {v} == zlist - (done + {v})
  {
  }

  /** One client further, the last of its user: the user joins `left`, and only under the mutex. */
  lemma ExpireLast(s: State, time: int, value: string, k: State, done: set<string>, hasMutex: bool,
                   left: seq<string>, v: string)
    requires Expiring(s, time, value, k, done, hasMutex, left) && v in Expired(s.zlist, time) && v !in done
    requires Count(k.hash, UserOf(v)) <= 1 && (hasMutex || s.mutex.None?)
    ensures Count(k.hash, UserOf(v)) == 1
    ensures Expiring(s, time, value,
                     k.(zlist := k.zlist - {v}, hash := k.hash - {UserOf(v)},
                     mutex := Some(Lock(value, s.now + MUTEX_TIMEOUT_SECONDS))),
                     done + {v}, true, left + [UserOf(v)])
  {
    hide CountsOk, UserOf, NoRepeats, Expired;
    InZlist(s.zlist, time, done, v);
    ExpireOne(k.zlist, k.hash, v);
    OneFewer(s.zlist, time, done, v);
    LeftGrows(s.hash, k.hash, left, UserOf(v));
  }

  /** One client further, not the last of its user. */
  lemma ExpireOther(s: State, time: int, value: string, k: State, done: set<string>, hasMutex: bool,
                    left: seq<string>, v: string)
    requires Expiring(s, time, value, k, done, hasMutex, left) && v in Expired(s.zlist, time) && v !in done
    requires Count(k.hash, UserOf(v)) > 1
    ensures Expiring(s, time, value,
                     k.(zlist := k.zlist - {v}, hash := k.hash[UserOf(v) := Count(k.hash, UserOf(v)) - 1]),
                     done + {v}, hasMutex, left)
  {
    hide CountsOk, UserOf, NoRepeats, Expired;
    InZlist(s.zlist, time, done, v);
    ExpireOne(k.zlist, k.hash, v);
    OneFewer(s.zlist, time, done, v);
    assert k.hash[UserOf(v) := Count(k.hash, UserOf(v)) - 1].Keys == k.hash.Keys;
  }

  lemma InZlist(zlist: map<string, int>, time: int, done: set<string>, v: string)
    requires v in Expired(zlist, time) && v !in done
    ensures v in zlist - done
  {
  }

  lemma ExpiringToTheEnd(s: State, time: int, value: string, k: State, hasMutex: bool, left: seq<string>)
    requires Expiring(s, time, value, k, Expired(s.zlist, time), hasMutex, left) && CountsOk(s.zlist, s.hash)
    ensures AutoLeaveDone(s, time, value, k.(listed := MinScore(k.zlist)), left)
  {
    LeftAreGone(s, time, k.hash, left);
    hide CountsOk, Gone, NoRepeats;
  }

  /** The keys after the loop has removed client v. */
  function WithoutClient(k: State, v: string, value: string, takeMutex: bool): State {
    k.(zlist := k.zlist - {v}, hash := Decremented(k.hash, UserOf(v)),
       mutex := if takeMutex then Some(Lock(value, k.now + MUTEX_TIMEOUT_SECONDS)) else k.mutex)
  }

  /** One entry of the loop: it either stops at the taken mutex or removes the client, and its user with the
      last one. */
  lemma ExpireStep(s: State, time: int, value: string, k: State, done: set<string>, hasMutex: bool,
                   left: seq<string>, v: string)
    requires Expiring(s, time, value, k, done, hasMutex, left) && v in Expired(s.zlist, time) && v !in done
    ensures var (user, n) := (UserOf(v), Count(k.hash, UserOf(v)));
            && n >= 1
            && (!hasMutex && n == 1 && k.mutex.Some? ==> AutoLeaveAborted(s, time, k))
            && (hasMutex || n > 1 || k.mutex.None? ==>
                  Expiring(s, time, value, WithoutClient(k, v, value, !hasMutex && n == 1), done + {v},
                           hasMutex || n == 1, if n == 1 then left + [user] else left))
  {
    hide CountsOk, UserOf, NoRepeats, Expired, AutoLeaveAborted;
    InZlist(s.zlist, time, done, v);
    CountsRemove(k.zlist, k.hash, v);
    if !hasMutex && Count(k.hash, UserOf(v)) == 1 && k.mutex.Some? {
      StuckMutex(s, time, value, k, done, left, v);
    } else if Count(k.hash, UserOf(v)) == 1 {
      ExpireLast(s, time, value, k, done, hasMutex, left, v);
    } else {
      ExpireOther(s, time, value, k, done, hasMutex, left, v);
    }
  }

  lemma StuckMutex(s: State, time: int, value: string, k: State, done: set<string>, left: seq<string>, v: string)
    requires Expiring(s, time, value, k, done, false, left) && v in Expired(s.zlist, time) && v !in done
    requires Count(k.hash, UserOf(v)) == 1 && k.mutex.Some?
    ensures AutoLeaveAborted(s, time, k)
  {
    CountsRemove(k.zlist, k.hash, v);
    StuckUserIsGone(s, time, done, v, k.zlist);
    assert k.hash.Keys == s.hash.Keys;
    assert s.zlist.Keys - k.zlist.Keys <= done;
  }

  class Channel {
    var zlist: map<string, int>
    var hash: map<string, int>
    var listed: Option<int>
    var mutex: Option<Lock>
    var zlistUntil: int
    var hashUntil: int
    var now: int
    var log: seq<Message>

    function Keys(): State
      reads this
    {
      State(zlist, hash, listed, mutex, zlistUntil, hashUntil, now)
    }

    constructor ()
      ensures Keys() == EMPTY && log == []
    {
      zlist, hash, listed, mutex, zlistUntil, hashUntil, now, log := map[], map[], None, None, 0, 0, 0, [];
    }

    /** Time passes. */
    method Advance(t: int)
      modifies this
      ensures Keys() == Tick(old(Keys()), t) && log == old(log)
    {
      if t >= zlistUntil { zlist := map[]; }
      if t >= hashUntil { hash := map[]; }
      if mutex.Some? && t >= mutex.value.until { mutex := None; }
      now := t;
    }

    method Present(user: string, client: string, expires: int, value: string) returns (r: Reply<int>)
      requires IsUserId(user) && CountsOk(zlist, hash)
      modifies this
      ensures (Keys(), r) == PresentScript(old(Keys()), user, client, expires, value)
      ensures Presented(old(Keys()), user, client, expires, value, Keys(), r)
      ensures CountsOk(zlist, hash) && log == old(log)
    {
      hide CountsOk, Clients, UserOf, Elem, Presented;
      PresentPresents(Keys(), user, client, expires, value);
      var elem := Elem(user, client);
      UserOfElem(user, client);
      if mutex.Some? {
        var mutexRequired := user !in hash;
        if mutexRequired {
          return Locked;
        }
      }
      var addedClients := if elem in zlist then 0 else 1;
      if addedClients == 0 {
        CountsRefresh(zlist, hash, elem, expires);
      } else {
        CountsAdd(zlist, hash, elem, expires);
      }
      zlist := zlist[elem := expires];
      var addedUsers := 0;
      if addedClients > 0 {
        var newCount := Count(hash, user) + 1;
        hash := hash[user := newCount];
        if newCount == 1 {
          addedUsers := 1;
          mutex := Some(Lock(value, now + MUTEX_TIMEOUT_SECONDS));
        }
        if listed.None? {
          listed := Some(expires);
        }
      }
      hashUntil := expires + GC_SECONDS;
      zlistUntil := expires + GC_SECONDS;
      return Done(addedUsers);
    }

    /** Sets or removes the channel's score in the global list. */
    method UpdateGlobalChannels()
      modifies this`listed
      ensures listed == MinScore(zlist)
    {
      if zlist == map[] {
        listed := None;
      } else {
        var keys := zlist.Keys;
        var oldest :| oldest in keys;
        var rest := keys - {oldest};
        while rest != {}
          invariant oldest in zlist && rest <= zlist.Keys
          invariant forall e :: e in zlist && e !in rest ==> zlist[oldest] <= zlist[e]
          decreases rest
        {
          var e :| e in rest;
          if zlist[e] < zlist[oldest] { oldest := e; }
          rest := rest - {e};
        }
        listed := Some(zlist[oldest]);
      }
    }

    method Leave(user: string, client: string, value: string, numeric: bool) returns (r: Reply<int>)
      requires IsUserId(user) && CountsOk(zlist, hash)
      modifies this
      ensures (Keys(), r) == LeaveScript(old(Keys()), user, client, value, numeric)
      ensures HasLeft(old(Keys()), user, client, value, numeric, Keys(), r)
      ensures CountsOk(zlist, hash) && log == old(log)
    {
      hide CountsOk, Clients, UserOf, Elem, MinScore, Decremented, HasLeft;
      LeaveLeaves(Keys(), user, client, value, numeric);
      var elem := Elem(user, client);
      UserOfElem(user, client);
      if mutex.Some? {
        var isOne := numeric && user in hash && hash[user] == 1;
        var mutexRequired := isOne && elem in zlist;
        if mutexRequired {
          return Locked;
        }
      }
      var removedUsers := 0;
      if elem in zlist {
        CountsRemove(zlist, hash, elem);
        zlist := zlist - {elem};
        UpdateGlobalChannels();
        var val := Count(hash, user) - 1;
        hash := Decremented(hash, user);
        if val <= 0 {
          removedUsers := 1;
          mutex := Some(Lock(value, now + MUTEX_TIMEOUT_SECONDS));
        }
      }
      return Done(removedUsers);
    }

    method ReleaseMutex(value: string)
      modifies this`mutex
      ensures Keys() == ReleaseScript(old(Keys()), value)
    {
      if mutex.Some? && mutex.value.value == value {
        mutex := None;
      }
    }

    method UserIds() returns (r: Reply<(int, set<string>)>)
      ensures r == UserIdsScript(Keys(), log)
    {
      if mutex.Some? {
        return Locked;
      }
      var id := -1;
      if |log| > 0 { id := |log|; }
      return Done((id, hash.Keys));
    }

    method CountUsers() returns (r: Reply<(int, int)>)
      ensures r == CountScript(Keys(), log)
    {
      if mutex.Some? {
        return Locked;
      }
      var id := -1;
      if |log| > 0 { id := |log|; }
      return Done((id, |hash|));
    }

    method Publish(m: Message)
      modifies this`log
      ensures log == old(log) + [m] && Keys() == old(Keys())
    {
      log := log + [m];
    }

    /** The loop body for one expired client: stops without a change when its user would leave and the mutex is
        taken. */
    method ExpireClient(v: string, value: string, hasMutex: bool, left: seq<string>)
      returns (ok: bool, hasMutex': bool, left': seq<string>)
      modifies this
      ensures log == old(log)
      ensures var n := Count(old(hash), UserOf(v));
              && (ok <==> hasMutex || n != 1 || old(mutex).None?)
              && (!ok ==> Keys() == old(Keys()))
              && (ok ==> Keys() == WithoutClient(old(Keys()), v, value, !hasMutex && n == 1)
                         && hasMutex' == (hasMutex || n == 1)
                         && left' == if n <= 1 then left + [UserOf(v)] else left)
    {
      hide UserOf, Decremented;
      var userId := UserOf(v);
      hasMutex', left' := hasMutex, left;
      if !hasMutex && Count(hash, userId) == 1 {
        if mutex.Some? {
          return false, hasMutex, left;
        }
        mutex := Some(Lock(value, now + MUTEX_TIMEOUT_SECONDS));
        hasMutex' := true;
      }
      var val := Count(hash, userId) - 1;
      hash := Decremented(hash, userId);
      if val <= 0 {
        left' := left' + [userId];
      }
      zlist := zlist - {v};
      ok := true;
    }

    /** Removes every client whose expiry time has come, in any order. */
    method AutoLeave(time: int, value: string) returns (r: Reply<seq<string>>)
      requires CountsOk(zlist, hash)
      modifies this
      ensures AutoLeaveScript(old(Keys()), time, value, Keys(), r) && log == old(log)
    {
      hide Expiring, WithoutClient, CountsOk, UserOf, AutoLeaveAborted, AutoLeaveDone, NoRepeats, Gone, Clients;
      ghost var s := Keys();
      StartExpiring(s, time, value);
      var expire := Expired(zlist, time);
      ghost var done: set<string> := {};
      var hasMutex := false;
      var expiredUserIds: seq<string> := [];
      while expire != {}
        invariant done <= Expired(s.zlist, time) && expire == Expired(s.zlist, time) - done && log == old(log)
        invariant Expiring(s, time, value, Keys(), done, hasMutex, expiredUserIds)
        decreases expire
      {
        var v :| v in expire;
        ExpireStep(s, time, value, Keys(), done, hasMutex, expiredUserIds, v);
        var ok;
        ok, hasMutex, expiredUserIds := ExpireClient(v, value, hasMutex, expiredUserIds);
        if !ok {
          return Locked;
        }
        expire := expire - {v};
        done := done + {v};
      }
      assert done == Expired(s.zlist, time);
      ExpiringToTheEnd(s, time, value, Keys(), hasMutex, expiredUserIds);
      UpdateGlobalChannels();
      return Done(expiredUserIds);
    }
  }

  lemma StuckUserIsGone(s: State, time: int, done: set<string>, v: string, zlist: map<string, int>)
    requires done <= Expired(s.zlist, time) && v in Expired(s.zlist, time) && zlist == s.zlist - done && v in zlist
    requires Clients(zlist, UserOf(v)) == {v}
    ensures Gone(s.zlist, time, UserOf(v))
  {
    var c := Clients(s.zlist, UserOf(v));
    assert v in c;
    forall e | e in c ensures e in Expired(s.zlist, time) {
      if e !in done { assert e in Clients(zlist, UserOf(v)); }
    }
  }

  lemma LeftAreGone(s: State, time: int, hash: map<string, int>, left: seq<string>)
    requires CountsOk(s.zlist, s.hash) && CountsOk(s.zlist - Expired(s.zlist, time), hash)
    requires forall u :: u in left <==> u in s.hash && u !in hash
    ensures forall u :: u in left <==> Gone(s.zlist, time, u)
  {
    var (z, x) := (s.zlist - Expired(s.zlist, time), Expired(s.zlist, time));
    forall u ensures u in left <==> Gone(s.zlist, time, u) {
      var c := Clients(s.zlist, u);
      assert Clients(z, u) == c - x;
      if c <= x { assert c - x == {}; } else { var e :| e in c && e !in x; assert e in c - x; }
    }
  }
}
