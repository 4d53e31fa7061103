/** The global channel list: auto_leave_all never misses a channel with an expired client. */
module PresenceExpiry {
  import opened Collections
  import opened Options
  import opened PresenceStore
  import opened PresenceRuns

  /** The latest expiry time handed to a present script so far. */
  function LastExpires(steps: seq<Step>, i: nat): Option<int>
    requires i <= |steps|
  {
    if i == 0 then None
    else if steps[i - 1].Present? then Some(steps[i - 1].expires)
    else LastExpires(steps, i - 1)
  }

  /** With a fixed timeout and a clock that never goes back, expiry times never decrease. */
  ghost predicate SteadyClock(steps: seq<Step>) {
    forall i, j :: 0 <= i < j < |steps| && steps[i].Present? && steps[j].Present? ==>
      steps[i].expires <= steps[j].expires
  }

  /** A channel with clients is listed, with a score no later than any client's expiry. */
  ghost predicate ListedOk(s: State, last: Option<int>) {
    && (forall e :: e in s.zlist ==>
          s.listed.Some? && s.listed.value <= s.zlist[e] && last.Some? && s.zlist[e] <= last.value)
    && (s.listed.Some? ==> last.Some? && s.listed.value <= last.value)
  }

  lemma StepKeepsListed(sys: Sys, t: int, step: Step, sys': Sys, last: Option<int>)
    requires ListedOk(sys.keys, last) && Next(sys, t, step, sys')
    requires step.Present? && last.Some? ==> last.value <= step.expires
    ensures ListedOk(sys'.keys, if step.Present? then Some(step.expires) else last)
  {
    hide CountsOk, UserOf, Clients, Gone, Elem, MinScore;
    var s := Tick(sys.keys, t);
    assert ListedOk(s, last);
    match step {
      case Present(_, _, _, _) =>
      case Leave(user, client, _, _) =>
        if sys'.keys != s { RelistedOk(s, sys'.keys, last); }
      case AutoLeave(time, value) =>
        if AutoLeaveAborted(s, time, sys'.keys) {
        } else {
          RelistedOk(s, sys'.keys, last);
        }
      case Publish(_) =>
      case Release(_) =>
    }
  }

  /** Removing clients and listing the channel by its earliest expiry keeps it listed in time. */
  lemma RelistedOk(s: State, s': State, last: Option<int>)
    requires ListedOk(s, last) && s'.listed == MinScore(s'.zlist)
    requires forall e :: e in s'.zlist ==> e in s.zlist && s'.zlist[e] == s.zlist[e]
    ensures ListedOk(s', last)
  {
  }

  lemma {:induction false} LastIsLatest(steps: seq<Step>, i: nat)
    requires SteadyClock(steps) && i < |steps| && steps[i].Present?
    ensures LastExpires(steps, i).Some? ==> LastExpires(steps, i).value <= steps[i].expires
  {
    LastIsEarlier(steps, i, i);
  }

  lemma {:induction false} LastIsEarlier(steps: seq<Step>, k: nat, i: nat)
    requires SteadyClock(steps) && k <= i < |steps| && steps[i].Present?
    ensures LastExpires(steps, k).Some? ==> LastExpires(steps, k).value <= steps[i].expires
  {
    if k > 0 && !steps[k - 1].Present? {
      LastIsEarlier(steps, k - 1, i);
    }
  }

  lemma {:induction false} RunIsListed(states: seq<Sys>, times: seq<int>, steps: seq<Step>, i: nat)
    requires Run(states, times, steps) && SteadyClock(steps) && i < |states|
    ensures ListedOk(states[i].keys, LastExpires(steps, i))
    decreases i
  {
    if i == 0 {
      assert states[0].keys == EMPTY;
    } else {
      hide Next, ListedOk;
      RunIsListed(states, times, steps, i - 1);
      assert Next(states[i - 1], times[i - 1], steps[i - 1], states[i - 1 + 1]);
      if steps[i - 1].Present? { LastIsLatest(steps, i - 1); }
      StepKeepsListed(states[i - 1], times[i - 1], steps[i - 1], states[i], LastExpires(steps, i - 1));
    }
  }

  /** In every run a channel with a client whose time has come has a score that auto_leave_all finds. */
  lemma ExpiredClientIsListed(states: seq<Sys>, times: seq<int>, steps: seq<Step>, i: nat, e: string, t: int)
    requires Run(states, times, steps) && SteadyClock(steps) && i < |states|
    requires e in states[i].keys.zlist && states[i].keys.zlist[e] <= t
    ensures states[i].keys.listed.Some? && states[i].keys.listed.value <= t
  {
    RunIsListed(states, times, steps, i);
  }

  // ---------------------------------------------------------------- one channel of a sweep

  /** An auto_leave that runs to its end. */
  ghost predicate Completes(sys: Sys, t: int, step: Step, sys': Sys) {
    step.AutoLeave? && exists left :: AutoLeaveDone(Tick(sys.keys, t), step.time, step.value, sys'.keys, left)
  }

  lemma CompletedRemoves(sys: Sys, t: int, step: Step, sys': Sys, e: string)
    requires Completes(sys, t, step, sys') && (e in sys.keys.zlist ==> sys.keys.zlist[e] <= step.time)
    ensures e !in sys'.keys.zlist
  {
    var left :| AutoLeaveDone(Tick(sys.keys, t), step.time, step.value, sys'.keys, left);
    hide CountsOk, Gone, NoRepeats, MinScore, UserOf;
  }

  /** A present script for this client. */
  predicate Refreshes(step: Step, e: string) {
    step.Present? && Elem(step.user, step.client) == e
  }

  lemma StepKeepsScore(sys: Sys, t: int, step: Step, sys': Sys, e: string)
    requires Next(sys, t, step, sys') && !Refreshes(step, e) && e in sys'.keys.zlist
    ensures e in sys.keys.zlist && sys'.keys.zlist[e] == sys.keys.zlist[e]
  {
    hide CountsOk, UserOf, Clients, Gone, Elem, MinScore, NoRepeats;
  }

  /** A client that is not refreshed keeps its expiry for as long as it stays. */
  lemma {:induction false} ScoreStays(states: seq<Sys>, times: seq<int>, steps: seq<Step>, i: nat, j: nat, e: string)
    requires Run(states, times, steps) && i <= j < |states| && e in states[j].keys.zlist
    requires forall k :: i <= k < j ==> !Refreshes(steps[k], e)
    ensures e in states[i].keys.zlist && states[j].keys.zlist[e] == states[i].keys.zlist[e]
    decreases j
  {
    hide Next, Refreshes;
    if i < j {
      assert Next(states[j - 1], times[j - 1], steps[j - 1], states[j - 1 + 1]);
      StepKeepsScore(states[j - 1], times[j - 1], steps[j - 1], states[j], e);
      ScoreStays(states, times, steps, i, j - 1, e);
    }
  }

  /** A client whose time has come at state i is gone after any later auto_leave that completes, unless it was
      refreshed. */
  lemma ExpiredClientGoes(states: seq<Sys>, times: seq<int>, steps: seq<Step>, i: nat, j: nat, e: string, t: int)
    requires Run(states, times, steps) && i <= j < |steps|
    requires Completes(states[j], times[j], steps[j], states[j + 1]) && t <= steps[j].time
    requires e in states[i].keys.zlist && states[i].keys.zlist[e] <= t
    requires forall k :: i <= k < j ==> !Refreshes(steps[k], e)
    ensures e !in states[j + 1].keys.zlist
  {
    hide Next, Refreshes, Completes;
    if e in states[j].keys.zlist { ScoreStays(states, times, steps, i, j, e); }
    CompletedRemoves(states[j], times[j], steps[j], states[j + 1], e);
  }

  /** What may take client e away in a step: its own leave, an auto_leave at or after its expiry, or the
      lapse of the whole list. */
  predicate TakesAway(sys: Sys, t: int, step: Step, e: string) {
    || (step.Leave? && Elem(step.user, step.client) == e)
    || (step.AutoLeave? && e in sys.keys.zlist && sys.keys.zlist[e] <= step.time)
    || t >= sys.keys.zlistUntil
  }

  lemma StepKeepsClient(sys: Sys, t: int, step: Step, sys': Sys, e: string)
    requires Next(sys, t, step, sys') && e in sys.keys.zlist && !TakesAway(sys, t, step, e)
    ensures e in sys'.keys.zlist
  {
    var s := Tick(sys.keys, t);
    assert e in s.zlist;
    if step.AutoLeave? {
      assert e !in Expired(s.zlist, step.time);
      assert AutoLeaveAborted(s, step.time, sys'.keys) ==> e !in s.zlist.Keys - sys'.keys.zlist.Keys;
    }
    hide CountsOk, UserOf, Clients, Gone, Elem, MinScore, NoRepeats;
  }

  /** No other client goes. */
  lemma {:induction false} OtherClientsStay(states: seq<Sys>, times: seq<int>, steps: seq<Step>, i: nat, j: nat,
                                            e: string)
    requires Run(states, times, steps) && i <= j < |states| && e in states[i].keys.zlist
    requires forall k :: i <= k < j ==> !TakesAway(states[k], times[k], steps[k], e)
    ensures e in states[j].keys.zlist
    decreases j
  {
    hide Next, TakesAway;
    if i < j {
      OtherClientsStay(states, times, steps, i, j - 1, e);
      assert Next(states[j - 1], times[j - 1], steps[j - 1], states[j - 1 + 1]);
      StepKeepsClient(states[j - 1], times[j - 1], steps[j - 1], states[j], e);
    }
  }

  /** A client stays, with the expiry time its last present set, through all later steps that do not take it away. */
  lemma PresentClientStays(states: seq<Sys>, times: seq<int>, steps: seq<Step>, i: nat, j: nat)
    requires Run(states, times, steps) && i < j < |states| && steps[i].Present?
    requires !RefusesPresent(states[i], times[i], steps[i].user)
    requires var e := Elem(steps[i].user, steps[i].client);
             forall k :: i < k < j ==>
               !Refreshes(steps[k], e) && !LeavesOrExpires(steps[k], e, steps[i].expires)
               && times[k] < states[k].keys.zlistUntil
    ensures var e := Elem(steps[i].user, steps[i].client);
            e in states[j].keys.zlist && states[j].keys.zlist[e] == steps[i].expires
    decreases j
  {
    hide Next, Refreshes, LeavesOrExpires, Elem, RefusesPresent;
    var e := Elem(steps[i].user, steps[i].client);
    RunIsCounted(states, times, steps, i);
    assert Next(states[j - 1], times[j - 1], steps[j - 1], states[j - 1 + 1]);
    if j == i + 1 {
      PresentSets(states[i], times[i], steps[i], states[j]);
    } else {
      PresentClientStays(states, times, steps, i, j - 1);
      NotTakenAway(states[j - 1], times[j - 1], steps[j - 1], e, steps[i].expires);
      StepKeepsClient(states[j - 1], times[j - 1], steps[j - 1], states[j], e);
      StepKeepsScore(states[j - 1], times[j - 1], steps[j - 1], states[j], e);
    }
  }

  /** A present at t would be refused: the mutex is taken and the user has no client. */
  ghost predicate RefusesPresent(sys: Sys, t: int, user: string) {
    var s := Tick(sys.keys, t);
    s.mutex.Some? && Clients(s.zlist, user) == {}
  }

  /** A leave of client e, or an auto_leave at or after time x. */
  predicate LeavesOrExpires(step: Step, e: string, x: int) {
    (step.Leave? && Elem(step.user, step.client) == e) || (step.AutoLeave? && x <= step.time)
  }

  lemma NotTakenAway(sys: Sys, t: int, step: Step, e: string, x: int)
    requires !LeavesOrExpires(step, e, x) && e in sys.keys.zlist && sys.keys.zlist[e] == x
    requires t < sys.keys.zlistUntil
    ensures !TakesAway(sys, t, step, e)
  {
  }

  lemma PresentSets(sys: Sys, t: int, step: Step, sys': Sys)
    requires Next(sys, t, step, sys') && step.Present? && Counted(sys) && !RefusesPresent(sys, t, step.user)
    ensures var e := Elem(step.user, step.client);
            e in sys'.keys.zlist && sys'.keys.zlist[e] == step.expires
  {
    var s := Tick(sys.keys, t);
    assert CountsOk(s.zlist, s.hash) by { TickKeepsCounts(sys, t); }
    PresentPresents(s, step.user, step.client, step.expires, step.value);
    hide CountsOk, Clients, Elem, PresentScript;
  }

  // ---------------------------------------------------------------- all channels

  /** The run of one channel. */
  datatype History = History(states: seq<Sys>, times: seq<int>, steps: seq<Step>)

  ghost predicate IsRun(h: History) {
    Run(h.states, h.times, h.steps) && SteadyClock(h.steps)
  }

  ghost predicate CompletesAt(h: History, j: nat)
    requires IsRun(h) && j < |h.steps|
  {
    Completes(h.states[j], h.times[j], h.steps[j], h.states[j + 1])
  }

  /** The channels auto_leave_all finds when it reads the list at time t, with channel c in its state readAt[c]. */
  function DueChannels(world: map<string, History>, readAt: map<string, nat>, t: int): set<string>
    requires world.Keys <= readAt.Keys && forall c :: c in world ==> readAt[c] < |world[c].states|
  {
    set c | c in world && var listed := world[c].states[readAt[c]].keys.listed; listed.Some? && listed.value <= t
  }

  /** auto_leave_all: the list is read once, then one auto_leave per channel found runs to its end,
      each at its own later time and between other steps of its channel. */
  ghost predicate Sweep(world: map<string, History>, readAt: map<string, nat>, t: int, doneAt: map<string, nat>) {
    && world.Keys <= readAt.Keys
    && (forall c :: c in world ==> IsRun(world[c]) && readAt[c] < |world[c].states|)
    && forall c :: c in DueChannels(world, readAt, t) ==>
         && c in doneAt && readAt[c] <= doneAt[c] < |world[c].steps|
         && CompletesAt(world[c], doneAt[c])
         && t <= world[c].steps[doneAt[c]].time
  }

  /** After the sweep every client of any channel whose time had come when the list was read is gone,
      unless it was refreshed in between. */
  lemma SweepMissesNothing(world: map<string, History>, readAt: map<string, nat>, t: int, doneAt: map<string, nat>,
                           c: string, e: string)
    requires Sweep(world, readAt, t, doneAt) && c in world
    requires var zlist := world[c].states[readAt[c]].keys.zlist; e in zlist && zlist[e] <= t
    ensures c in DueChannels(world, readAt, t) && c in doneAt && readAt[c] <= doneAt[c] < |world[c].steps|
    ensures (forall k :: readAt[c] <= k < doneAt[c] ==> !Refreshes(world[c].steps[k], e))
            ==> e !in world[c].states[doneAt[c] + 1].keys.zlist
  {
    assert IsRun(world[c]);
    var (h, i) := (world[c], readAt[c]);
    hide Next, Completes, Refreshes;
    ExpiredClientIsListed(h.states, h.times, h.steps, i, e, t);
    assert c in DueChannels(world, readAt, t);
    if forall k :: i <= k < doneAt[c] ==> !Refreshes(h.steps[k], e) {
      ExpiredClientGoes(h.states, h.times, h.steps, i, doneAt[c], e, t);
    }
  }
}
