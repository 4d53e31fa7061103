/** The expiring Redis lock: scripts that compare whole seconds, a key with a
    time to live in milliseconds, and runs of clients that lock and unlock. */
module DistributedMutex {
  import opened Options

  /** The stored expire time in seconds, and the millisecond at which Redis drops the key. */
  datatype Entry = Entry(expire: int, until: int)

  function Seconds(t: nat): nat { t / 1000 }

  /** The key as a script at millisecond t finds it. */
  function Live(key: Option<Entry>, t: nat): Option<Entry> {
    if key.Some? && t >= key.value.until then None else key
  }

  function LockScript(key: Option<Entry>, t: nat, validity: nat): (Option<Entry>, Option<int>) {
    var (now, current) := (Seconds(t), Live(key, t));
    if current.Some? && now <= current.value.expire then (current, None)
    else (Some(Entry(now + validity, t + (validity + 1) * 1000)), Some(now + validity))
  }

  function UnlockScript(key: Option<Entry>, t: nat, token: int): (Option<Entry>, bool) {
    var current := Live(key, t);
    if current.Some? && current.value.expire == token then (None, true) else (current, false)
  }

  class RedisKey {
    var key: Option<Entry>

    constructor ()
      ensures key == None
    {
      key := None;
    }

    method Lock(t: nat, validity: nat) returns (expireTime: Option<int>)
      modifies this
      ensures (key, expireTime) == LockScript(old(key), t, validity)
    {
      if key.Some? && t >= key.value.until { key := None; }
      var now := Seconds(t);
      var expire := now + validity;
      if key.Some? && now <= key.value.expire {
        return None;
      }
      key := Some(Entry(expire, t + (validity + 1) * 1000));
      return Some(expire);
    }

    method Unlock(t: nat, token: int) returns (unlocked: bool)
      modifies this
      ensures (key, unlocked) == UnlockScript(old(key), t, token)
    {
      if key.Some? && t >= key.value.until { key := None; }
      if key.Some? && key.value.expire == token {
        key := None;
        return true;
      }
      return false;
    }
  }

  // ---------------------------------------------------------------- the time to live

  /** An entry outlives its expire time by at least the second the script still grants it. */
  ghost predicate LongEnough(key: Option<Entry>) {
    key.Some? ==> key.value.until >= (key.value.expire + 1) * 1000
  }

  /** The same lock on a key that Redis never drops: it compares whole seconds only. */
  function LockForever(key: Option<int>, t: nat, validity: nat): (Option<int>, Option<int>) {
    if key.Some? && Seconds(t) <= key.value then (key, None)
    else (Some(Seconds(t) + validity), Some(Seconds(t) + validity))
  }

  function UnlockForever(key: Option<int>, token: int): Option<int> {
    if key == Some(token) then None else key
  }

  /** The expiring key holds the same entry, or has lost one that is past its expire time. */
  ghost predicate Alike(key: Option<Entry>, forever: Option<int>, t: nat) {
    && LongEnough(key)
    && (key.Some? ==> forever == Some(key.value.expire))
    && (key.None? && forever.Some? ==> forever.value < Seconds(t))
  }

  /** Dropping the key never changes who gets the lock, in this step or any later one. */
  lemma TimeToLiveIsInvisible(key: Option<Entry>, forever: Option<int>, before: nat, t: nat, validity: nat, token: int)
    requires Alike(key, forever, before) && before <= t
    ensures LockScript(key, t, validity).1 == LockForever(forever, t, validity).1
    ensures Alike(LockScript(key, t, validity).0, LockForever(forever, t, validity).0, t)
    ensures Alike(UnlockScript(key, t, token).0, UnlockForever(forever, token), t)
  {
    SecondsOf(t);
    SecondsGrow(before, t);
  }

  /** One call of a script: its time, and the validity for a lock or the expire time given to an unlock. */
  datatype Call = LockCall(t: nat, validity: nat) | UnlockCall(t: nat, token: int)

  /** The answers of all locks of a run on the expiring key. */
  function Answers(key: Option<Entry>, calls: seq<Call>): seq<Option<int>>
    decreases |calls|
  {
    if calls == [] then []
    else
      match calls[0]
      case LockCall(t, validity) =>
        var (key', answer) := LockScript(key, t, validity);
        [answer] + Answers(key', calls[1..])
      case UnlockCall(t, token) => Answers(UnlockScript(key, t, token).0, calls[1..])
  }

  /** The same answers on a key that never expires. */
  function AnswersForever(key: Option<int>, calls: seq<Call>): seq<Option<int>>
    decreases |calls|
  {
    if calls == [] then []
    else
      match calls[0]
      case LockCall(t, validity) =>
        var (key', answer) := LockForever(key, t, validity);
        [answer] + AnswersForever(key', calls[1..])
      case UnlockCall(t, token) => AnswersForever(UnlockForever(key, token), calls[1..])
  }

  lemma {:induction false} AnswersAgreeFrom(key: Option<Entry>, forever: Option<int>, before: nat, calls: seq<Call>)
    requires Alike(key, forever, before)
    requires forall i :: 0 <= i < |calls| ==> before <= calls[i].t
    requires forall i, j :: 0 <= i < j < |calls| ==> calls[i].t <= calls[j].t
    ensures Answers(key, calls) == AnswersForever(forever, calls)
    decreases |calls|
  {
    hide Alike, LockScript, LockForever, UnlockScript, UnlockForever;
    if calls != [] {
      var t := calls[0].t;
      match calls[0] {
        case LockCall(_, validity) =>
          TimeToLiveIsInvisible(key, forever, before, t, validity, 0);
          AnswersAgreeFrom(LockScript(key, t, validity).0, LockForever(forever, t, validity).0, t, calls[1..]);
        case UnlockCall(_, token) =>
          TimeToLiveIsInvisible(key, forever, before, t, 0, token);
          AnswersAgreeFrom(UnlockScript(key, t, token).0, UnlockForever(forever, token), t, calls[1..]);
      }
    }
  }

  /** In no run of lock and unlock scripts does the time to live change what any lock answers. */
  lemma TimeToLiveNeverShows(calls: seq<Call>)
    requires forall i, j :: 0 <= i < j < |calls| ==> calls[i].t <= calls[j].t
    ensures Answers(None, calls) == AnswersForever(None, calls)
  {
    AnswersAgreeFrom(None, None, if calls == [] then 0 else calls[0].t, calls);
  }

  lemma SecondsOf(t: nat)
    ensures Seconds(t) * 1000 <= t < (Seconds(t) + 1) * 1000
  {
  }

  lemma SecondsGrow(t: nat, t': nat)
    requires t <= t'
    ensures Seconds(t) <= Seconds(t')
  {
  }

  // ---------------------------------------------------------------- runs

  /** A client inside `synchronize`: its expire time, and the clock once it has read it before unlocking. */
  datatype Holder = Holder(token: int, readAt: Option<nat>)

  /** `owner` names the client whose entry the key holds. */
  datatype Sys = Sys(key: Option<Entry>, holders: map<string, Holder>, owner: string, now: nat)

  datatype Step =
    | Lock(client: string, validity: nat)
    | ReadTime(client: string)
    | Unlock(client: string)

  const START := Sys(None, map[], "", 0)

  function Granted(sys: Sys, t: nat, validity: nat): Option<int> {
    LockScript(sys.key, t, validity).1
  }

  /** The state after a step at millisecond t; clients lock only outside and unlock only after reading the clock. */
  ghost predicate Next(sys: Sys, t: nat, step: Step, sys': Sys) {
    && t >= sys.now
    && match step
       case Lock(client, validity) =>
         && client !in sys.holders
         && var (key, expireTime) := LockScript(sys.key, t, validity);
         sys' == if expireTime.Some? then Sys(key, sys.holders[client := Holder(expireTime.value, None)], client, t)
                 else Sys(key, sys.holders, sys.owner, t)
       case ReadTime(client) =>
         client in sys.holders && sys.holders[client].readAt.None?
         && sys' == Sys(sys.key, sys.holders[client := Holder(sys.holders[client].token, Some(Seconds(t)))],
                        sys.owner, t)
       case Unlock(client) =>
         client in sys.holders && sys.holders[client].readAt.Some?
         && sys' == Sys(UnlockScript(sys.key, t, sys.holders[client].token).0, sys.holders - {client}, sys.owner, t)
  }

  /** The key holds this client's entry. */
  ghost predicate Owns(sys: Sys, client: string) {
    && sys.key.Some? && sys.owner == client && client in sys.holders
    && sys.holders[client].token == sys.key.value.expire
  }

  /** Every client inside either owns the key or has outlived its expire time, and then any key is younger. */
  ghost predicate Safe(sys: Sys) {
    && LongEnough(sys.key)
    && (sys.key.Some? ==> Owns(sys, sys.owner))
    && forall c :: c in sys.holders && !Owns(sys, c) ==>
         sys.holders[c].token < Seconds(sys.now) && (sys.key.Some? ==> sys.holders[c].token < sys.key.value.expire)
  }

  lemma DroppedIsExpired(sys: Sys, t: nat)
    requires Safe(sys) && t >= sys.now
    ensures Live(sys.key, t).None? ==> forall c :: c in sys.holders ==> sys.holders[c].token < Seconds(t)
    ensures forall c :: c in sys.holders && !Owns(sys, c) ==> sys.holders[c].token < Seconds(t)
  {
    SecondsOf(t);
    SecondsGrow(sys.now, t);
  }

  lemma StepIsSafe(sys: Sys, t: nat, step: Step, sys': Sys)
    requires Safe(sys) && Next(sys, t, step, sys')
    ensures Safe(sys')
  {
    SecondsGrow(sys.now, t);
    DroppedIsExpired(sys, t);
    match step {
      case Lock(client, validity) => SecondsOf(t);
      case ReadTime(_) =>
      case Unlock(_) =>
    }
  }

  /** The lock is granted only once every other client inside has passed its expire time. */
  lemma GrantOnlyAfterExpiry(sys: Sys, t: nat, validity: nat, other: string)
    requires Safe(sys) && t >= sys.now && other in sys.holders
    requires Granted(sys, t, validity).Some?
    ensures sys.holders[other].token < Seconds(t)
  {
    DroppedIsExpired(sys, t);
  }

  /** The lock is granted exactly when every client inside has passed its expire time, and it lasts for `validity`. */
  lemma GrantedIff(sys: Sys, t: nat, validity: nat)
    requires Safe(sys) && t >= sys.now
    ensures Granted(sys, t, validity).Some? <==> forall c :: c in sys.holders ==> sys.holders[c].token < Seconds(t)
    ensures Granted(sys, t, validity).Some? ==> Granted(sys, t, validity).value == Seconds(t) + validity
  {
    DroppedIsExpired(sys, t);
  }

  /** At most one client inside has not passed its expire time. */
  lemma MutualExclusion(sys: Sys, c: string, d: string)
    requires Safe(sys) && c in sys.holders && d in sys.holders && c != d
    ensures sys.holders[c].token < Seconds(sys.now) || sys.holders[d].token < Seconds(sys.now)
  {
  }

  /** Unlocking removes the client's own entry or nothing: the key of another client stays. */
  lemma UnlockTouchesOnlyOwnEntry(sys: Sys, t: nat, client: string)
    requires Safe(sys) && t >= sys.now && client in sys.holders
    ensures var (key', unlocked) := UnlockScript(sys.key, t, sys.holders[client].token);
            && (unlocked <==> Owns(sys, client) && Live(sys.key, t).Some?)
            && (!Owns(sys, client) ==> key' == Live(sys.key, t))
            && (!unlocked ==> sys.holders[client].token < Seconds(t))
  {
    DroppedIsExpired(sys, t);
  }

  ghost predicate Run(states: seq<Sys>, times: seq<nat>, steps: seq<Step>) {
    && |states| == |times| + 1 == |steps| + 1
    && states[0] == START
    && forall i :: 0 <= i < |steps| ==> Next(states[i], times[i], steps[i], states[i + 1])
  }

  lemma {:induction false} RunIsSafe(states: seq<Sys>, times: seq<nat>, steps: seq<Step>, i: nat)
    requires Run(states, times, steps) && i < |states|
    ensures Safe(states[i])
    decreases i
  {
    if i > 0 {
      RunIsSafe(states, times, steps, i - 1);
      assert Next(states[i - 1], times[i - 1], steps[i - 1], states[i - 1 + 1]);
      StepIsSafe(states[i - 1], times[i - 1], steps[i - 1], states[i]);
    }
  }

  /** In every run, whoever gets the lock finds everybody else gone or past its expire time. */
  lemma RunsExclude(states: seq<Sys>, times: seq<nat>, steps: seq<Step>, i: nat, other: string)
    requires Run(states, times, steps) && i < |steps| && steps[i].Lock? && other in states[i].holders
    requires steps[i].client in states[i + 1].holders
    ensures states[i].holders[other].token < Seconds(times[i])
  {
    RunIsSafe(states, times, steps, i);
    assert Next(states[i], times[i], steps[i], states[i + 1]);
    GrantOnlyAfterExpiry(states[i], times[i], steps[i].validity, other);
  }

  /** In every run an attempt succeeds exactly when everybody inside has passed its expire time: nobody waits
      for a lock that has been given back. */
  lemma RunsGrantIff(states: seq<Sys>, times: seq<nat>, steps: seq<Step>, i: nat)
    requires Run(states, times, steps) && i < |steps| && steps[i].Lock?
    ensures steps[i].client in states[i + 1].holders <==>
              forall c :: c in states[i].holders ==> states[i].holders[c].token < Seconds(times[i])
  {
    RunIsSafe(states, times, steps, i);
    assert Next(states[i], times[i], steps[i], states[i + 1]);
    GrantedIff(states[i], times[i], steps[i].validity);
  }

  // ---------------------------------------------------------------- the tampering warning

  /** `synchronize` reports tampering when the unlock found another value although the clock,
      read before unlocking, had not passed the expire time. */
  predicate Warns(sys: Sys, t: nat, client: string)
    requires client in sys.holders && sys.holders[client].readAt.Some?
  {
    !UnlockScript(sys.key, t, sys.holders[client].token).1
    && sys.holders[client].readAt.value <= sys.holders[client].token
  }

  /** Nobody tampers in these runs. The warning is given exactly when the clock was read in time but the
      client no longer held a live entry at the unlock, and then its expire time has passed in between. */
  lemma WarnsIff(sys: Sys, t: nat, client: string)
    requires Safe(sys) && t >= sys.now && client in sys.holders && sys.holders[client].readAt.Some?
    ensures Warns(sys, t, client)
            <==> sys.holders[client].readAt.value <= sys.holders[client].token
                 && !(Owns(sys, client) && t < sys.key.value.until)
    ensures Warns(sys, t, client) ==>
              sys.holders[client].readAt.value <= sys.holders[client].token < Seconds(t)
  {
    UnlockTouchesOnlyOwnEntry(sys, t, client);
  }

  /** A run without tampering that raises it: the clock is read in the last valid second, and
      another client takes the lock before the unlock arrives. */
  lemma WarningWithoutTampering() returns (states: seq<Sys>, times: seq<nat>, steps: seq<Step>)
    ensures Run(states, times, steps)
    ensures var sys := states[|states| - 1];
            "a" in sys.holders && sys.holders["a"].readAt.Some? && Warns(sys, 2000, "a")
  {
    var s1 := Sys(Some(Entry(1, 2000)), map["a" := Holder(1, None)], "a", 0);
    var s2 := Sys(Some(Entry(1, 2000)), map["a" := Holder(1, Some(1))], "a", 1999);
    var s3 := Sys(Some(Entry(3, 4000)), map["a" := Holder(1, Some(1)), "b" := Holder(3, None)], "b", 2000);
    assert Next(START, 0, Lock("a", 1), s1);
    assert Next(s1, 1999, ReadTime("a"), s2);
    assert Next(s2, 2000, Lock("b", 1), s3);
    states, times, steps := [START, s1, s2, s3], [0, 1999, 2000], [Lock("a", 1), ReadTime("a"), Lock("b", 1)];
  }
}
