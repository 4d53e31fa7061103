/** Runs of the presence protocol: scripts of many processes, each followed by a
    separate publish and a separate release of the mutex, and the snapshots readers take. */
module PresenceRuns {
  import opened Collections
  import opened Options
  import opened PresenceStore

  datatype Phase = ToPublish(m: Message) | ToRelease

  /** The shared keys, the message log, and what every process still has to do after its script.
      A process is named by the mutex value it made up; no value is used twice. */
  datatype Sys = Sys(keys: State, log: seq<Message>, pending: map<string, Phase>, used: set<string>)

  const START := Sys(EMPTY, [], map[], {})

  datatype Step =
    | Present(user: string, client: string, expires: int, value: string)
    | Leave(user: string, client: string, value: string, numeric: bool)
    | AutoLeave(time: int, value: string)
    | Publish(value: string)
    | Release(value: string)

  /** A client's view: the users it knows after applying one message. */
  function Apply(users: set<string>, m: Message): set<string> {
    match m
    case Entering(u) => users + {u}
    case Leaving(us) => users - (set u | u in us)
  }

  function Replay(log: seq<Message>): set<string> {
    if log == [] then {} else Apply(Replay(log[..|log| - 1]), log[|log| - 1])
  }

  /** A message announces a change that has really happened. */
  ghost predicate Exact(users: set<string>, m: Message) {
    match m
    case Entering(u) => u !in users
    case Leaving(us) => us != [] && NoRepeats(us) && forall u :: u in us ==> u in users
  }

  ghost predicate ExactLog(log: seq<Message>) {
    log == [] || (ExactLog(log[..|log| - 1]) && Exact(Replay(log[..|log| - 1]), log[|log| - 1]))
  }

  function After(sys: Sys, keys: State, value: string, m: Option<Message>): Sys {
    Sys(keys, sys.log, if m.Some? then sys.pending[value := ToPublish(m.value)] else sys.pending, sys.used + {value})
  }

  /** One step of the system at server time t; expired keys go first. */
  ghost predicate Next(sys: Sys, t: int, step: Step, sys': Sys) {
    var s := Tick(sys.keys, t);
    && t >= sys.keys.now
    && match step
       case Present(user, client, expires, value) =>
         && IsUserId(user) && value !in sys.used
         && var (s', r) := PresentScript(s, user, client, expires, value);
         sys' == After(sys, s', value, if r == Done(1) then Some(Entering(user)) else None)
       case Leave(user, client, value, numeric) =>
         && IsUserId(user) && value !in sys.used
         && var (s', r) := LeaveScript(s, user, client, value, numeric);
         sys' == After(sys, s', value, if r == Done(1) then Some(Leaving([user])) else None)
       case AutoLeave(time, value) =>
         && value !in sys.used
         && ((exists left :: AutoLeaveDone(s, time, value, sys'.keys, left)
                && sys' == After(sys, sys'.keys, value, if left == [] then None else Some(Leaving(left))))
             || (AutoLeaveAborted(s, time, sys'.keys) && sys' == After(sys, sys'.keys, value, None)))
       case Publish(value) =>
         && value in sys.pending && sys.pending[value].ToPublish?
         && sys' == Sys(s, sys.log + [sys.pending[value].m], sys.pending[value := ToRelease], sys.used)
       case Release(value) =>
         && value in sys.pending && sys.pending[value].ToRelease?
         && sys' == Sys(ReleaseScript(s, value), sys.log, sys.pending - {value}, sys.used)
  }

  /** A process that has changed the users but not said so yet. */
  predicate Unpublished(sys: Sys, value: string) {
    value in sys.pending && sys.pending[value].ToPublish?
  }

  /** Users and log agree, except for the one change whose process holds the mutex. */
  ghost predicate Ordered(sys: Sys) {
    && CountsOk(sys.keys.zlist, sys.keys.hash)
    && sys.keys.zlistUntil == sys.keys.hashUntil
    && ExactLog(sys.log)
    && sys.pending.Keys <= sys.used
    && (forall v :: Unpublished(sys, v) ==> sys.keys.mutex.Some? && v == sys.keys.mutex.value.value)
    && (sys.keys.mutex.Some? ==> sys.keys.mutex.value.value in sys.used)
    && if sys.keys.mutex.Some? && Unpublished(sys, sys.keys.mutex.value.value)
       then var m := sys.pending[sys.keys.mutex.value.value].m;
         Exact(Replay(sys.log), m) && Apply(Replay(sys.log), m) == sys.keys.hash.Keys
       else Replay(sys.log) == sys.keys.hash.Keys
  }

  /** Time t takes away neither the mutex of an unpublished change nor the users themselves. */
  ghost predicate NothingLapses(sys: Sys, t: int) {
    && (sys.keys.mutex.Some? && Unpublished(sys, sys.keys.mutex.value.value) ==> t < sys.keys.mutex.value.until)
    && (sys.keys.hash != map[] ==> t < sys.keys.hashUntil)
  }

  /** A literal leave goes wrong where the numeric guard would have stopped it in time. */
  ghost predicate GuardNeeded(sys: Sys, t: int, user: string, client: string) {
    var s := Tick(sys.keys, t);
    s.mutex.Some? && LastSession(s, user, client) && Unpublished(sys, s.mutex.value.value)
  }

  ghost predicate LegalStep(sys: Sys, t: int, step: Step) {
    && NothingLapses(sys, t)
    && (step.Leave? && !step.numeric ==> !GuardNeeded(sys, t, step.user, step.client))
  }

  // ---------------------------------------------------------------- single steps

  lemma TickKeepsOrder(sys: Sys, t: int)
    requires Ordered(sys) && NothingLapses(sys, t)
    ensures Ordered(sys.(keys := Tick(sys.keys, t)))
    ensures Tick(sys.keys, t).hash == sys.keys.hash && Tick(sys.keys, t).zlist == sys.keys.zlist
  {
    var k := sys.keys;
    if k.hash == map[] {
      forall e | e in k.zlist ensures UserOf(e) in k.hash {
        assert e in Clients(k.zlist, UserOf(e));
      }
      assert k.zlist == map[];
    }
    hide CountsOk, ExactLog, Replay, Exact, Apply;
    var s := Tick(k, t);
    assert s.zlist == k.zlist && s.hash == k.hash;
    assert forall v :: Unpublished(sys.(keys := s), v) <==> Unpublished(sys, v);
  }

  /** No change of users: the order is kept. */
  lemma QuietKeepsOrder(sys: Sys, keys: State, value: string)
    requires Ordered(sys) && value !in sys.used
    requires CountsOk(keys.zlist, keys.hash) && keys.hash.Keys == sys.keys.hash.Keys && keys.mutex == sys.keys.mutex
    requires keys.zlistUntil == keys.hashUntil
    ensures Ordered(After(sys, keys, value, None))
  {
    var sys' := After(sys, keys, value, None);
    assert forall v :: Unpublished(sys', v) <==> Unpublished(sys, v);
    hide CountsOk, ExactLog, Replay, Exact, Apply;
  }

  /** A change of users taken together with a free mutex, or with one whose change is already published. */
  lemma ChangeKeepsOrder(sys: Sys, keys: State, value: string, m: Message)
    requires Ordered(sys) && value !in sys.used
    requires sys.keys.mutex.Some? ==> !Unpublished(sys, sys.keys.mutex.value.value)
    requires CountsOk(keys.zlist, keys.hash) && keys.zlistUntil == keys.hashUntil
    requires keys.mutex.Some? && keys.mutex.value.value == value
    requires Exact(sys.keys.hash.Keys, m) && Apply(sys.keys.hash.Keys, m) == keys.hash.Keys
    ensures Ordered(After(sys, keys, value, Some(m)))
  {
    var sys' := After(sys, keys, value, Some(m));
    forall v | Unpublished(sys', v) ensures v == value {
      assert v == value || Unpublished(sys, v);
    }
    hide CountsOk, ExactLog, Replay, Exact, Apply;
  }

  lemma PresentKeepsOrder(sys: Sys, user: string, client: string, expires: int, value: string)
    requires Ordered(sys) && IsUserId(user) && value !in sys.used
    ensures var (s', r) := PresentScript(sys.keys, user, client, expires, value);
            Ordered(After(sys, s', value, if r == Done(1) then Some(Entering(user)) else None))
  {
    var (s, e) := (sys.keys, Elem(user, client));
    var (s', r) := PresentScript(s, user, client, expires, value);
    UserOfElem(user, client);
    if r.Locked? {
      QuietKeepsOrder(sys, s', value);
    } else if e in s.zlist {
      CountsRefresh(s.zlist, s.hash, e, expires);
      QuietKeepsOrder(sys, s', value);
    } else {
      CountsAdd(s.zlist, s.hash, e, expires);
      if user in s.hash {
        assert Clients(s.zlist, user) != {} && |Clients(s.zlist, user)| >= 1;
        assert s'.hash.Keys == s.hash.Keys;
        QuietKeepsOrder(sys, s', value);
      } else {
        assert s'.hash.Keys == s.hash.Keys + {user};
        ChangeKeepsOrder(sys, s', value, Entering(user));
      }
    }
  }

  lemma LeaveKeepsOrder(sys: Sys, user: string, client: string, value: string, numeric: bool)
    requires Ordered(sys) && IsUserId(user) && value !in sys.used
    requires numeric
             || !(sys.keys.mutex.Some? && LastSession(sys.keys, user, client)
                  && Unpublished(sys, sys.keys.mutex.value.value))
    ensures var (s', r) := LeaveScript(sys.keys, user, client, value, numeric);
            Ordered(After(sys, s', value, if r == Done(1) then Some(Leaving([user])) else None))
  {
    var (s, e) := (sys.keys, Elem(user, client));
    var (s', r) := LeaveScript(s, user, client, value, numeric);
    UserOfElem(user, client);
    if e !in s.zlist || r.Locked? {
      QuietKeepsOrder(sys, s', value);
    } else {
      CountsRemove(s.zlist, s.hash, e);
      if s.hash[user] > 1 {
        assert s'.hash.Keys == s.hash.Keys;
        QuietKeepsOrder(sys, s', value);
      } else {
        assert (set u | u in [user]) == {user};
        ChangeKeepsOrder(sys, s', value, Leaving([user]));
      }
    }
  }

  lemma AutoLeaveKeepsOrder(sys: Sys, time: int, value: string, s': State, left: seq<string>)
    requires Ordered(sys) && value !in sys.used && AutoLeaveDone(sys.keys, time, value, s', left)
    ensures Ordered(After(sys, s', value, if left == [] then None else Some(Leaving(left))))
  {
    var s := sys.keys;
    forall u | u in s'.hash ensures u in s.hash {
      var e :| e in Clients(s'.zlist, u);
      assert e in Clients(s.zlist, u);
    }
    assert s'.hash.Keys == s.hash.Keys - (set u | u in left);
    if left == [] {
      QuietKeepsOrder(sys, s', value);
    } else {
      ChangeKeepsOrder(sys, s', value, Leaving(left));
    }
  }

  lemma PublishKeepsOrder(sys: Sys, value: string)
    requires Ordered(sys) && Unpublished(sys, value)
    ensures Ordered(Sys(sys.keys, sys.log + [sys.pending[value].m], sys.pending[value := ToRelease], sys.used))
  {
    var sys' := Sys(sys.keys, sys.log + [sys.pending[value].m], sys.pending[value := ToRelease], sys.used);
    assert sys'.log[..|sys'.log| - 1] == sys.log;
    forall v ensures !Unpublished(sys', v) {
      assert v != value ==> Unpublished(sys', v) == Unpublished(sys, v);
    }
    hide CountsOk;
  }

  lemma ReleaseKeepsOrder(sys: Sys, value: string)
    requires Ordered(sys) && value in sys.pending && sys.pending[value].ToRelease?
    ensures Ordered(Sys(ReleaseScript(sys.keys, value), sys.log, sys.pending - {value}, sys.used))
  {
    var sys' := Sys(ReleaseScript(sys.keys, value), sys.log, sys.pending - {value}, sys.used);
    assert forall v :: Unpublished(sys', v) <==> Unpublished(sys, v);
    hide CountsOk, ExactLog, Replay, Exact, Apply;
  }

  /** Every legal step keeps the order. */
  lemma StepKeepsOrder(sys: Sys, t: int, step: Step, sys': Sys)
    requires Ordered(sys) && LegalStep(sys, t, step) && Next(sys, t, step, sys')
    ensures Ordered(sys') && sys.log <= sys'.log
  {
    TickKeepsOrder(sys, t);
    var mid := sys.(keys := Tick(sys.keys, t));
    hide Ordered, PresentScript, LeaveScript;
    match step {
      case Present(user, client, expires, value) =>
        PresentKeepsOrder(mid, user, client, expires, value);
      case Leave(user, client, value, numeric) =>
        LeaveKeepsOrder(mid, user, client, value, numeric);
      case AutoLeave(time, value) =>
        if AutoLeaveAborted(mid.keys, time, sys'.keys) && sys' == After(sys, sys'.keys, value, None) {
          AbortKeepsOrder(mid, time, value, sys'.keys);
        } else {
          var left :| AutoLeaveDone(mid.keys, time, value, sys'.keys, left)
                      && sys' == After(sys, sys'.keys, value, if left == [] then None else Some(Leaving(left)));
          AutoLeaveKeepsOrder(mid, time, value, sys'.keys, left);
        }
      case Publish(value) =>
        PublishKeepsOrder(mid, value);
      case Release(value) =>
        ReleaseKeepsOrder(mid, value);
    }
  }

  /** An auto_leave cut short removes no user, so readers see no difference. */
  lemma AbortKeepsOrder(sys: Sys, time: int, value: string, s': State)
    requires Ordered(sys) && value !in sys.used && AutoLeaveAborted(sys.keys, time, s')
    ensures Ordered(After(sys, s', value, None))
  {
    QuietKeepsOrder(sys, s', value);
  }

  // ---------------------------------------------------------------- whole runs

  /** A run: states, the times and the steps between them. */
  ghost predicate Run(states: seq<Sys>, times: seq<int>, steps: seq<Step>) {
    && |states| == |times| + 1 == |steps| + 1
    && states[0] == START
    && forall i :: 0 <= i < |steps| ==> Next(states[i], times[i], steps[i], states[i + 1])
  }

  ghost predicate LegalRun(states: seq<Sys>, times: seq<int>, steps: seq<Step>) {
    && Run(states, times, steps)
    && forall i :: 0 <= i < |steps| ==> LegalStep(states[i], times[i], steps[i])
  }

  lemma StartIsOrdered()
    ensures Ordered(START)
  {
    forall u ensures Clients(map[], u) == {} {
    }
  }

  lemma {:induction false} RunIsOrdered(states: seq<Sys>, times: seq<int>, steps: seq<Step>, i: nat)
    requires LegalRun(states, times, steps) && i < |states|
    ensures Ordered(states[i])
    decreases i
  {
    if i == 0 {
      StartIsOrdered();
    } else {
      RunIsOrdered(states, times, steps, i - 1);
      assert Next(states[i - 1], times[i - 1], steps[i - 1], states[i - 1 + 1]);
      StepKeepsOrder(states[i - 1], times[i - 1], steps[i - 1], states[i]);
    }
  }

  lemma {:induction false} LogsGrow(states: seq<Sys>, times: seq<int>, steps: seq<Step>, i: nat, j: nat)
    requires LegalRun(states, times, steps) && i <= j < |states|
    ensures states[i].log <= states[j].log
    decreases j
  {
    hide Ordered, Next, LegalStep;
    if i < j {
      LogsGrow(states, times, steps, i, j - 1);
      RunIsOrdered(states, times, steps, j - 1);
      assert Next(states[j - 1], times[j - 1], steps[j - 1], states[j - 1 + 1]);
      StepKeepsOrder(states[j - 1], times[j - 1], steps[j - 1], states[j]);
    }
  }

  /** What a reader gets at time t. */
  function Snapshot(sys: Sys, t: int): Reply<(int, set<string>)> {
    UserIdsScript(Tick(sys.keys, t), sys.log)
  }

  /** The number of messages up to an id; -1 comes before the first. */
  function UpTo(id: int): nat { if id < 0 then 0 else id }

  /** Whenever a reader gets a snapshot, replaying the final log up to its last id gives exactly its users. */
  lemma SnapshotsAreReplays(states: seq<Sys>, times: seq<int>, steps: seq<Step>, i: nat, t: int,
                            id: int, users: set<string>)
    requires LegalRun(states, times, steps) && i < |states| && NothingLapses(states[i], t)
    requires Snapshot(states[i], t) == Done((id, users))
    ensures var log := states[|states| - 1].log;
            UpTo(id) <= |log| && Replay(log[..UpTo(id)]) == users
  {
    hide Next, LegalStep;
    RunIsOrdered(states, times, steps, i);
    TickKeepsOrder(states[i], t);
    LogsGrow(states, times, steps, i, |states| - 1);
    assert states[|states| - 1].log[..|states[i].log|] == states[i].log;
  }

  /** The change of the user count that a count-only message carries. */
  function CountDelta(m: Message): int {
    match m
    case Entering(u) => 1
    case Leaving(us) => -|us|
  }

  function SumDeltas(log: seq<Message>): int {
    if log == [] then 0 else SumDeltas(log[..|log| - 1]) + CountDelta(log[|log| - 1])
  }

  lemma {:induction false} NoRepeatsSize(us: seq<string>)
    requires NoRepeats(us)
    ensures |set u | u in us| == |us|
  {
    if us != [] {
      var (rest, last) := (us[..|us| - 1], us[|us| - 1]);
      NoRepeatsSize(rest);
      assert (set u | u in us) == (set u | u in rest) + {last};
      assert last !in rest;
    }
  }

  lemma {:induction false} DeltasCountUsers(log: seq<Message>)
    requires ExactLog(log)
    ensures SumDeltas(log) == |Replay(log)|
  {
    if log != [] {
      var (rest, m) := (log[..|log| - 1], log[|log| - 1]);
      DeltasCountUsers(rest);
      if m.Leaving? {
        NoRepeatsSize(m.users);
        assert (set u | u in m.users) <= Replay(rest);
      }
    }
  }

  /** Count-only readers are right too: the deltas of the final log up to the snapshot's id add up to its count. */
  lemma CountSnapshotsAddUp(states: seq<Sys>, times: seq<int>, steps: seq<Step>, i: nat, t: int, id: int, count: int)
    requires LegalRun(states, times, steps) && i < |states| && NothingLapses(states[i], t)
    requires CountScript(Tick(states[i].keys, t), states[i].log) == Done((id, count))
    ensures var log := states[|states| - 1].log;
            UpTo(id) <= |log| && SumDeltas(log[..UpTo(id)]) == count
  {
    hide Next, LegalStep, Ordered, Tick, SumDeltas, NothingLapses;
    RunIsOrdered(states, times, steps, i);
    DeltasCountHash(states[i], t);
    LogsGrow(states, times, steps, i, |states| - 1);
    assert states[|states| - 1].log[..|states[i].log|] == states[i].log;
  }

  lemma DeltasCountHash(sys: Sys, t: int)
    requires Ordered(sys) && NothingLapses(sys, t) && Tick(sys.keys, t).mutex.None?
    ensures SumDeltas(sys.log) == |Tick(sys.keys, t).hash|
  {
    TickKeepsOrder(sys, t);
    DeltasCountUsers(sys.log);
    var hash := Tick(sys.keys, t).hash;
    hide CountsOk, SumDeltas, ExactLog, Tick;
    assert |hash.Keys| == |hash|;
  }

  // ---------------------------------------------------------------- counts in every run

  /** The counting invariant needs no guard, no mutex and no lapse-free clock. */
  ghost predicate Counted(sys: Sys) {
    CountsOk(sys.keys.zlist, sys.keys.hash) && sys.keys.zlistUntil == sys.keys.hashUntil
  }

  lemma TickKeepsCounts(sys: Sys, t: int)
    requires Counted(sys)
    ensures CountsOk(Tick(sys.keys, t).zlist, Tick(sys.keys, t).hash)
  {
    assert CountsOk(map[], map[]) by {
      forall u ensures Clients(map[], u) == {} {
      }
    }
  }

  lemma StepKeepsCounts(sys: Sys, t: int, step: Step, sys': Sys)
    requires Counted(sys) && Next(sys, t, step, sys')
    ensures Counted(sys')
  {
    var s := Tick(sys.keys, t);
    TickKeepsCounts(sys, t);
    match step {
      case Present(user, client, expires, value) =>
        UserOfElem(user, client);
        if Elem(user, client) in s.zlist {
          CountsRefresh(s.zlist, s.hash, Elem(user, client), expires);
        } else {
          CountsAdd(s.zlist, s.hash, Elem(user, client), expires);
        }
      case Leave(user, client, value, numeric) =>
        UserOfElem(user, client);
        if Elem(user, client) in s.zlist {
          CountsRemove(s.zlist, s.hash, Elem(user, client));
        }
      case AutoLeave(_, _) =>
      case Publish(_) =>
      case Release(_) =>
    }
  }

  /** In every run, even with the literal leave guard, aborted auto_leaves and lapsing keys, the
      hash holds a user exactly when it has a client, with the number of its clients. */
  lemma {:induction false} RunIsCounted(states: seq<Sys>, times: seq<int>, steps: seq<Step>, i: nat)
    requires Run(states, times, steps) && i < |states|
    ensures Counted(states[i])
    decreases i
  {
    if i == 0 {
      forall u ensures Clients(map[], u) == {} {
      }
    } else {
      RunIsCounted(states, times, steps, i - 1);
      assert Next(states[i - 1], times[i - 1], steps[i - 1], states[i - 1 + 1]);
      StepKeepsCounts(states[i - 1], times[i - 1], steps[i - 1], states[i]);
    }
  }
}
