/** Where the order of messages is lost, and exactly when: by the leave script as written, and by keys that lapse. */
module PresenceFaults {
  import opened Options
  import opened PresenceStore
  import opened PresenceRuns

  /** A reader that gets a snapshot at t gets users that its message id does not explain. */
  ghost predicate WrongSnapshot(sys: Sys, t: int) {
    Snapshot(sys, t).Done? && Replay(sys.log[..UpTo(Snapshot(sys, t).value.0)]) != Snapshot(sys, t).value.1
  }

  function AfterLiteralLeave(sys: Sys, t: int, user: string, client: string, value: string, keys: State,
                             r: Reply<int>): Sys
  {
    After(sys.(keys := Tick(sys.keys, t)), keys, value, if r == Done(1) then Some(Leaving([user])) else None)
  }

  /** The literal leave keeps the order exactly when the numeric guard was not needed. */
  lemma LiteralLeaveKeepsOrderIff(sys: Sys, t: int, user: string, client: string, value: string)
    requires Ordered(sys) && NothingLapses(sys, t) && IsUserId(user) && value !in sys.used
    ensures var (s', r) := LeaveScript(Tick(sys.keys, t), user, client, value, false);
            Ordered(AfterLiteralLeave(sys, t, user, client, value, s', r)) <==> !GuardNeeded(sys, t, user, client)
  {
    TickKeepsOrder(sys, t);
    var mid := sys.(keys := Tick(sys.keys, t));
    var (s', r) := LeaveScript(mid.keys, user, client, value, false);
    if !GuardNeeded(sys, t, user, client) {
      LeaveKeepsOrder(mid, user, client, value, false);
    } else {
      var bad := AfterLiteralLeave(sys, t, user, client, value, s', r);
      assert Unpublished(bad, mid.keys.mutex.value.value);
    }
  }

  function Published(sys: Sys, value: string): Sys
    requires Unpublished(sys, value)
  {
    Sys(sys.keys, sys.log + [sys.pending[value].m], sys.pending[value := ToRelease], sys.used)
  }

  function Released(sys: Sys, value: string): Sys {
    Sys(ReleaseScript(sys.keys, value), sys.log, sys.pending - {value}, sys.used)
  }

  lemma ReplaySnoc(log: seq<Message>, m: Message)
    ensures Replay(log + [m]) == Apply(Replay(log), m)
  {
    assert (log + [m])[..|log|] == log;
  }

  /** Whenever the numeric guard was needed, the processes involved can go on so that a reader gets a
      wrong snapshot: before the overtaken message is published, or, if that was the same user's
      arrival, right after it. */
  lemma GuardNeededMeansWrongSnapshot(sys: Sys, t: int, user: string, client: string, value: string)
    returns (s1: Sys, s2: Sys, s3: Sys, s4: Sys)
    requires Ordered(sys) && NothingLapses(sys, t) && t >= sys.keys.now && IsUserId(user) && value !in sys.used
    requires GuardNeeded(sys, t, user, client)
    ensures Next(sys, t, Leave(user, client, value, false), s1)
    ensures Next(s1, t, Publish(value), s2) && Next(s2, t, Release(value), s3)
    ensures Next(s3, t, Publish(sys.keys.mutex.value.value), s4)
    ensures WrongSnapshot(s3, t) || WrongSnapshot(s4, t)
  {
    TickKeepsOrder(sys, t);
    var mid := sys.(keys := Tick(sys.keys, t));
    var (s', r) := LeaveScript(mid.keys, user, client, value, false);
    var first := sys.keys.mutex.value.value;
    var m := sys.pending[first].m;
    assert value != first;
    s1 := After(mid, s', value, Some(Leaving([user])));
    s2 := Published(s1, value);
    s3 := Released(s2, value);
    s4 := Published(s3, first);
    assert Tick(s1.keys, t) == s1.keys && Tick(s2.keys, t) == s2.keys && Tick(s3.keys, t) == s3.keys;
    ReplaySnoc(sys.log, Leaving([user]));
    ReplaySnoc(s3.log, m);
    assert s3.log[..|s3.log|] == s3.log && s4.log[..|s4.log|] == s4.log;
    WrongUsers(Replay(sys.log), m, user);
    assert (set u | u in [user]) == {user};
    assert s4.keys.hash.Keys == s3.keys.hash.Keys == sys.keys.hash.Keys - {user};
  }

  /** Taking a user away before and after another change are told apart by what is seen in between. */
  lemma WrongUsers(before: set<string>, m: Message, user: string)
    requires Exact(before, m) && user in Apply(before, m)
    ensures before - {user} != Apply(before, m) - {user} || Apply(before - {user}, m) != Apply(before, m) - {user}
  {
    match m {
      case Entering(u) =>
        if u == user {
          assert user in Apply(before - {user}, m);
        } else {
          assert u in Apply(before, m) - {user} && u !in before;
        }
      case Leaving(us) =>
        assert us[0] in us;
        assert us[0] in before - {user} && us[0] !in Apply(before, m);
    }
  }

  // ---------------------------------------------------------------- keys that lapse

  /** Time keeps the order exactly when it takes away neither the mutex of an unpublished change nor users. */
  lemma LapseBreaksOrderIff(sys: Sys, t: int)
    requires Ordered(sys)
    ensures Ordered(sys.(keys := Tick(sys.keys, t))) <==> NothingLapses(sys, t)
  {
    if NothingLapses(sys, t) {
      TickKeepsOrder(sys, t);
    } else {
      var k := sys.keys;
      var sys' := sys.(keys := Tick(k, t));
      hide CountsOk, ExactLog, Replay, Exact, Apply;
      if k.mutex.Some? && Unpublished(sys, k.mutex.value.value) && t >= k.mutex.value.until {
        assert Unpublished(sys', k.mutex.value.value);
      } else {
        assert sys'.keys.hash == map[] && k.hash.Keys != {};
      }
    }
  }

  /** When something lapses, a reader gets a wrong snapshot: at once, or once the change under way is
      published and its mutex has run out too. */
  lemma LapseMeansWrongSnapshot(sys: Sys, t: int) returns (sys': Sys, later: int)
    requires Ordered(sys) && t >= sys.keys.now && !NothingLapses(sys, t)
    ensures later >= t && WrongSnapshot(sys', later)
    ensures sys' == sys || exists value :: Next(sys, t, Publish(value), sys')
  {
    var k := sys.keys;
    later := if k.mutex.Some? && t < k.mutex.value.until then k.mutex.value.until else t;
    if k.hash == map[] || t < k.hashUntil {
      sys' := sys;
      MutexLapseIsWrong(sys, t);
    } else if k.mutex.Some? && Unpublished(sys, k.mutex.value.value) {
      sys' := PublishAfterLapse(sys, t, later);
    } else {
      sys' := sys;
      UsersLapseIsWrong(sys, later);
    }
  }

  /** The mutex of an unpublished change has run out: the log does not know the change yet. */
  lemma MutexLapseIsWrong(sys: Sys, t: int)
    requires Ordered(sys) && sys.keys.mutex.Some? && Unpublished(sys, sys.keys.mutex.value.value)
    requires t >= sys.keys.mutex.value.until && (sys.keys.hash == map[] || t < sys.keys.hashUntil)
    ensures WrongSnapshot(sys, t)
  {
    AppliedDiffers(Replay(sys.log), sys.pending[sys.keys.mutex.value.value].m);
    assert sys.log[..|sys.log|] == sys.log && Tick(sys.keys, t).hash == sys.keys.hash;
    hide CountsOk, ExactLog, Replay, Exact, Apply;
  }

  /** The users are gone, but no message says so. */
  lemma UsersLapseIsWrong(sys: Sys, t: int)
    requires Replay(sys.log) != {} && t >= sys.keys.hashUntil
    requires sys.keys.mutex.Some? ==> t >= sys.keys.mutex.value.until
    ensures WrongSnapshot(sys, t)
  {
    assert sys.log[..|sys.log|] == sys.log;
    hide Replay;
  }

  lemma PublishAfterLapse(sys: Sys, t: int, later: int) returns (sys': Sys)
    requires Ordered(sys) && t >= sys.keys.now && sys.keys.mutex.Some? && Unpublished(sys, sys.keys.mutex.value.value)
    requires sys.keys.hash != map[] && t >= sys.keys.hashUntil && later >= t && later >= sys.keys.mutex.value.until
    ensures Next(sys, t, Publish(sys.keys.mutex.value.value), sys') && WrongSnapshot(sys', later)
  {
    var value := sys.keys.mutex.value.value;
    sys' := Published(sys.(keys := Tick(sys.keys, t)), value);
    ReplaySnoc(sys.log, sys.pending[value].m);
    assert sys.keys.hash.Keys != {};
    hide CountsOk, ExactLog, Replay, Exact, Apply;
    UsersLapseIsWrong(sys', later);
  }

  lemma AppliedDiffers(users: set<string>, m: Message)
    requires Exact(users, m)
    ensures Apply(users, m) != users
  {
    match m {
      case Entering(u) => assert u in Apply(users, m);
      case Leaving(us) => assert us[0] in us && us[0] in users && us[0] !in Apply(users, m);
    }
  }

  // ---------------------------------------------------------------- a concrete run

  /** The states of the run below, in which a user arrives and leaves before its arrival is published. */
  function Arrived(user: string, client: string): Sys {
    Sys(State(map[Elem(user, client) := 60], map[user := 1], Some(60), Some(Lock("a", 10)),
              60 + GC_SECONDS, 60 + GC_SECONDS, 0),
        [], map["a" := ToPublish(Entering(user))], {"a"})
  }

  function Left(user: string): Sys {
    Sys(State(map[], map[], None, Some(Lock("b", 10)), 60 + GC_SECONDS, 60 + GC_SECONDS, 0),
        [], map["a" := ToPublish(Entering(user)), "b" := ToPublish(Leaving([user]))], {"a", "b"})
  }

  lemma ArrivesFirst(user: string, client: string)
    requires IsUserId(user)
    ensures Next(START, 0, Present(user, client, 60, "a"), Arrived(user, client))
  {
    assert PresentScript(Tick(EMPTY, 0), user, client, 60, "a") == (Arrived(user, client).keys, Done(1));
  }

  lemma LeavesUnannounced(user: string, client: string)
    requires IsUserId(user)
    ensures Next(Arrived(user, client), 0, Leave(user, client, "b", false), Left(user))
  {
    var e := Elem(user, client);
    assert map[e := 60] - {e} == map[] && map[user := 1] - {user} == map[];
    assert LeaveScript(Arrived(user, client).keys, user, client, "b", false) == (Left(user).keys, Done(1));
    hide Elem;
  }

  /** The departure is published and released, then the arrival is published. */
  lemma EndsWrong(user: string) returns (s3: Sys, s4: Sys, s5: Sys)
    ensures Next(Left(user), 0, Publish("b"), s3) && Next(s3, 0, Release("b"), s4) && Next(s4, 0, Publish("a"), s5)
    ensures WrongSnapshot(s5, 0) && NothingLapses(Left(user), 0) && NothingLapses(s3, 0) && NothingLapses(s4, 0)
  {
    s3 := Published(Left(user), "b");
    s4 := Released(s3, "b");
    s5 := Published(s4, "a");
    ReplaySnoc(s4.log, Entering(user));
    assert s5.log[..|s5.log|] == s5.log;
    assert user in Replay(s5.log);
  }

  /** A run from the start that ends in a wrong snapshot: one user arrives and leaves before its arrival is
      published. */
  lemma LiteralLeaveMisorders(user: string, client: string)
    returns (states: seq<Sys>, times: seq<int>, steps: seq<Step>)
    requires IsUserId(user)
    ensures Run(states, times, steps) && WrongSnapshot(states[|states| - 1], 0)
    ensures forall i :: 0 <= i < |steps| ==> NothingLapses(states[i], times[i])
  {
    ArrivesFirst(user, client);
    LeavesUnannounced(user, client);
    var s3, s4, s5 := EndsWrong(user);
    assert NothingLapses(START, 0) && NothingLapses(Arrived(user, client), 0);
    hide Next, WrongSnapshot, NothingLapses, Arrived, Left;
    states, times := [START, Arrived(user, client), Left(user), s3, s4, s5], [0, 0, 0, 0, 0];
    steps := [Present(user, client, 60, "a"), Leave(user, client, "b", false),
              Publish("b"), Release("b"), Publish("a")];
  }

  // ---------------------------------------------------------------- concrete lapses

  /** The mutex of an arrival runs out after ten seconds, before the arrival is published. */
  lemma MutexLapses(user: string, client: string) returns (states: seq<Sys>, times: seq<int>, steps: seq<Step>)
    requires IsUserId(user)
    ensures Run(states, times, steps) && Ordered(states[|states| - 1])
    ensures WrongSnapshot(states[|states| - 1], MUTEX_TIMEOUT_SECONDS)
  {
    ArrivesFirst(user, client);
    var s := Arrived(user, client);
    StartIsOrdered();
    assert NothingLapses(START, 0);
    StepKeepsOrder(START, 0, Present(user, client, 60, "a"), s);
    assert Unpublished(s, "a");
    MutexLapseIsWrong(s, MUTEX_TIMEOUT_SECONDS);
    states, times, steps := [START, s], [0], [Present(user, client, 60, "a")];
  }

  /** An arrival is published and released; a day after its expiry nobody has come by and the keys expire. */
  lemma UsersLapse(user: string, client: string) returns (states: seq<Sys>, times: seq<int>, steps: seq<Step>)
    requires IsUserId(user)
    ensures Run(states, times, steps) && WrongSnapshot(states[|states| - 1], 60 + GC_SECONDS)
    ensures forall i :: 0 <= i < |steps| ==> NothingLapses(states[i], times[i])
  {
    ArrivesFirst(user, client);
    var s1 := Arrived(user, client);
    var s2 := Published(s1, "a");
    var s3 := Released(s2, "a");
    assert Next(s1, 0, Publish("a"), s2) && Next(s2, 0, Release("a"), s3);
    assert NothingLapses(START, 0) && NothingLapses(s1, 0) && NothingLapses(s2, 0);
    ReplaySnoc([], Entering(user));
    assert s3.log == [] + [Entering(user)];
    assert user in Replay(s3.log);
    UsersLapseIsWrong(s3, 60 + GC_SECONDS);
    hide Next, WrongSnapshot, NothingLapses, Arrived;
    states, times := [START, s1, s2, s3], [0, 0, 0];
    steps := [Present(user, client, 60, "a"), Publish("a"), Release("a")];
  }
}
