/** The sliding-window rate limiter over one trimmed, expiring Redis list (newest entry first). */
module RateLimiting {
  import opened Options

  function CountIf(s: seq<int>, p: int -> bool): nat {
    if s == [] then 0 else (if p(s[0]) then 1 else 0) + CountIf(s[1..], p)
  }

  lemma {:induction false} CountAtLeast(s: seq<int>, p: int -> bool, k: nat)
    requires k <= |s| && forall i :: 0 <= i < k ==> p(s[i])
    ensures CountIf(s, p) >= k
  {
    if k > 0 { CountAtLeast(s[1..], p, k - 1); }
  }

  /** At most the entries from lo to hi count when no other satisfies p. */
  lemma {:induction false} CountAtMost(s: seq<int>, p: int -> bool, lo: nat, hi: nat)
    requires lo <= hi && forall i :: 0 <= i < |s| && p(s[i]) ==> lo <= i < hi
    ensures CountIf(s, p) <= hi - lo
  {
    if s != [] {
      var rest := s[1..];
      forall i | 0 <= i < |rest| && p(rest[i]) ensures lo <= i + 1 < hi {
        assert rest[i] == s[i + 1];
      }
      if lo > 0 {
        CountAtMost(rest, p, lo - 1, hi - 1);
      } else if p(s[0]) {
        CountAtMost(rest, p, 0, hi - 1);
      } else {
        CountAtMost(rest, p, 0, if hi > 0 then hi - 1 else 0);
      }
    }
  }

  lemma {:induction false} CountPrefix(s: seq<int>, p: int -> bool, k: nat)
    requires k <= |s| && forall i :: k <= i < |s| ==> !p(s[i])
    ensures CountIf(s[..k], p) == CountIf(s, p)
  {
    if s != [] {
      if k > 0 {
        assert s[..k][1..] == s[1..][..k - 1];
        CountPrefix(s[1..], p, k - 1);
      } else {
        CountPrefix(s[1..], p, 0);
        assert s[1..][..0] == [] == s[..0];
      }
    }
  }

  /** Newest first. */
  predicate Descending(s: seq<int>) {
    forall i, j :: 0 <= i < j < |s| ==> s[i] >= s[j]
  }

  /** Events of the last `secs` seconds. */
  function Young(hist: seq<int>, now: int, secs: int): nat {
    CountIf(hist, e => now - e < secs)
  }

  // ---------------------------------------------------------------- the key and its scripts

  /** The list, and when Redis drops it. */
  datatype Key = Key(list: seq<int>, until: int)

  /** The key as a command at `now` finds it. */
  function Live(k: Key, now: int): seq<int> {
    if now >= k.until then [] else k.list
  }

  function Trim(list: seq<int>, max: int): seq<int>
    requires max > 0
  {
    if |list| <= max then list else list[..max]
  }

  /** Fewer than max entries, or the oldest one has left the window. */
  predicate UnderLimit(list: seq<int>, now: int, max: int, secs: int)
    requires max > 0
  {
    |list| < max || now - list[|list| - 1] >= secs
  }

  function Push(list: seq<int>, now: int, max: int, secs: int): Key
    requires max > 0
  {
    Key(Trim([now] + list, max), now + secs * 2)
  }

  /** performed!: the new key and whether the attempt is allowed. */
  function Perform(k: Key, now: int, max: int, secs: int): (Key, bool) {
    if max <= 0 then (k, false)
    else if UnderLimit(Live(k, now), now, max, secs) then (Push(Live(k, now), now, max, secs), true)
    else (Key(Live(k, now), k.until), false)
  }

  function PerformAggressive(k: Key, now: int, max: int, secs: int): (Key, bool) {
    if max <= 0 then (k, false)
    else (Push(Live(k, now), now, max, secs), UnderLimit(Live(k, now), now, max, secs))
  }

  /** rollback!: drops the newest entry, if any. */
  function Rollback(k: Key, now: int): Key {
    var list := Live(k, now);
    Key(if list == [] then [] else list[1..], k.until)
  }

  // ---------------------------------------------------------------- the queries

  /** Age of the oldest kept event; an absent one counts as time 0. */
  function AgeOfOldest(list: seq<int>, now: int): int {
    now - (if list == [] then 0 else list[|list| - 1])
  }

  /** seconds_to_wait */
  function SecondsToWait(k: Key, now: int, secs: int): int {
    secs - AgeOfOldest(Live(k, now), now)
  }

  /** is_under_limit? */
  predicate QueryUnderLimit(k: Key, now: int, max: int, secs: int) {
    |Live(k, now)| < max || AgeOfOldest(Live(k, now), now) >= secs
  }

  /** LRANGE 0 stop: the entries up to index `stop`, which counts from the end when negative. */
  function FirstTo(list: seq<int>, stop: int): (r: seq<int>)
    ensures stop >= |list| - 1 ==> r == list
    ensures |r| <= |list| && r == list[..|r|]
    ensures |r| == if stop >= |list| then |list| else if stop >= 0 then (if list == [] then 0 else stop + 1)
                   else if |list| + stop + 1 > 0 then |list| + stop + 1 else 0
  {
    var last := if stop < 0 then |list| + stop else stop;
    if last < 0 then [] else if last + 1 >= |list| then list else list[..last + 1]
  }

  /** remaining, for users who are not staff */
  function RemainingOf(k: Key, now: int, max: int, secs: int): int {
    max - CountIf(FirstTo(Live(k, now), max), e => now - e <= secs)
  }

  // ---------------------------------------------------------------- the full history

  /** Accepted events that were not rolled back, newest first, against the key that keeps at most max of them. */
  ghost predicate Tracks(k: Key, hist: seq<int>, now: int, max: int, secs: int) {
    && Descending(hist) && (forall i :: 0 <= i < |hist| ==> hist[i] <= now)
    && |k.list| <= |hist| && k.list == hist[..|k.list|] && (max > 0 ==> |k.list| <= max)
    && (forall i :: |k.list| <= i < |hist| ==> now - hist[i] >= secs)
    && (k.list != [] ==> k.until >= k.list[0] + secs * 2)
  }

  /** Any max + 1 consecutive events span at least the window. */
  ghost predicate Spread(hist: seq<int>, max: int, secs: int) {
    max > 0 ==> forall i, j :: 0 <= i && j == i + max && j < |hist| ==> hist[i] - hist[j] >= secs
  }

  /** Time and key expiry lose only events that are out of the window. */
  lemma TracksLater(k: Key, hist: seq<int>, now: int, later: int, max: int, secs: int)
    requires Tracks(k, hist, now, max, secs) && now <= later
    ensures Tracks(Key(Live(k, later), k.until), hist, later, max, secs)
  {
    var k' := Key(Live(k, later), k.until);
    forall i | |k'.list| <= i < |hist| ensures later - hist[i] >= secs {
      if i < |k.list| {
        assert hist[i] == k.list[i] && hist[i] <= hist[0] == k.list[0];
      }
    }
  }

  /** On the full history the test of the trimmed list means: fewer than max events in the window. */
  lemma DecidesOnHistory(k: Key, hist: seq<int>, now: int, max: int, secs: int)
    requires max > 0 && Tracks(k, hist, now, max, secs)
    ensures UnderLimit(k.list, now, max, secs) <==> Young(hist, now, secs) < max
    ensures Young(hist, now, secs) == Young(k.list, now, secs)
  {
    var p := e => now - e < secs;
    CountPrefix(hist, p, |k.list|);
    if UnderLimit(k.list, now, max, secs) {
      if |k.list| < max {
        CountAtMost(hist, p, 0, |k.list|);
      } else {
        assert hist[max - 1] == k.list[max - 1];
        CountAtMost(hist, p, 0, max - 1);
      }
    } else {
      forall i | 0 <= i < max ensures p(hist[i]) {
        assert hist[max - 1] == k.list[max - 1] && hist[i] >= hist[max - 1];
      }
      CountAtLeast(hist, p, max);
    }
  }

  /** An attempt decides by the full history and keeps the key in step with it. */
  lemma PerformTracks(k: Key, hist: seq<int>, now: int, later: int, max: int, secs: int)
    requires Tracks(k, hist, now, max, secs) && Spread(hist, max, secs) && now <= later
    ensures var (k', allowed) := Perform(k, later, max, secs);
            var hist' := if allowed then [later] + hist else hist;
            && (allowed <==> Young(hist, later, secs) < max)
            && Tracks(k', hist', later, max, secs) && Spread(hist', max, secs)
  {
    TracksLater(k, hist, now, later, max, secs);
    if max > 0 {
      var live := Key(Live(k, later), k.until);
      DecidesOnHistory(live, hist, later, max, secs);
      if UnderLimit(live.list, later, max, secs) {
        PushTracks(live, hist, later, max, secs);
      }
    }
  }

  lemma PushTracks(k: Key, hist: seq<int>, now: int, max: int, secs: int)
    requires max > 0 && Tracks(k, hist, now, max, secs) && Spread(hist, max, secs) && UnderLimit(k.list, now, max, secs)
    ensures Tracks(Push(k.list, now, max, secs), [now] + hist, now, max, secs) && Spread([now] + hist, max, secs)
  {
    hide Spread;
    PushKeepsSpread(k, hist, now, max, secs);
    var (k', hist') := (Push(k.list, now, max, secs), [now] + hist);
    assert k'.list == hist'[..|k'.list|];
    forall i | |k'.list| <= i < |hist'| ensures now - hist'[i] >= secs {
      if i == |k.list| { assert hist'[i] == hist[i - 1] == k.list[|k.list| - 1]; }
    }
  }

  lemma PushKeepsSpread(k: Key, hist: seq<int>, now: int, max: int, secs: int)
    requires max > 0 && Tracks(k, hist, now, max, secs) && Spread(hist, max, secs) && UnderLimit(k.list, now, max, secs)
    ensures Spread([now] + hist, max, secs)
  {
    var hist' := [now] + hist;
    forall i, j | 0 <= i && j == i + max && j < |hist'| ensures hist'[i] - hist'[j] >= secs {
      if i > 0 {
        assert hist'[i] == hist[i - 1] && hist'[j] == hist[j - 1];
      } else if |k.list| == max {
        assert hist'[j] == hist[max - 1] == k.list[max - 1];
      }
    }
  }

  lemma RollbackTracks(k: Key, hist: seq<int>, now: int, later: int, max: int, secs: int)
    requires Tracks(k, hist, now, max, secs) && Spread(hist, max, secs) && now <= later
    ensures var hist' := if hist == [] then [] else hist[1..];
            Tracks(Rollback(k, later), hist', later, max, secs) && Spread(hist', max, secs)
  {
    TracksLater(k, hist, now, later, max, secs);
    if hist != [] {
      var (k', hist') := (Rollback(k, later), hist[1..]);
      assert forall i :: 0 <= i < |hist'| ==> hist'[i] == hist[i + 1];
      assert k'.list == hist'[..|k'.list|];
      forall i, j | 0 <= i && j == i + max && j < |hist'| && max > 0 ensures hist'[i] - hist'[j] >= secs {
        assert hist'[i] == hist[i + 1] && hist'[j] == hist[j + 1];
      }
    }
  }

  // ---------------------------------------------------------------- runs

  datatype Action = Attempt | Undo

  /** Decisions of a run on the Redis key. */
  function KeyRun(k: Key, actions: seq<(int, Action)>, max: int, secs: int): seq<bool>
    decreases |actions|
  {
    if actions == [] then []
    else
      var (now, action) := actions[0];
      match action
      case Attempt =>
        var (k', allowed) := Perform(k, now, max, secs);
        [allowed] + KeyRun(k', actions[1..], max, secs)
      case Undo => KeyRun(Rollback(k, now), actions[1..], max, secs)
  }

  /** Decisions of the plain limiter that remembers everything: allow while fewer than max events are in the window. */
  function HistoryRun(hist: seq<int>, actions: seq<(int, Action)>, max: int, secs: int): seq<bool>
    decreases |actions|
  {
    if actions == [] then []
    else
      var (now, action) := actions[0];
      match action
      case Attempt =>
        var allowed := Young(hist, now, secs) < max;
        [allowed] + HistoryRun(if allowed then [now] + hist else hist, actions[1..], max, secs)
      case Undo => HistoryRun(if hist == [] then [] else hist[1..], actions[1..], max, secs)
  }

  predicate Ascending(now: int, actions: seq<(int, Action)>) {
    && (forall i :: 0 <= i < |actions| ==> now <= actions[i].0)
    && (forall i, j :: 0 <= i < j < |actions| ==> actions[i].0 <= actions[j].0)
  }

  lemma {:induction false} RunsAgreeFrom(k: Key, hist: seq<int>, now: int, actions: seq<(int, Action)>, max: int,
                                         secs: int)
    requires Tracks(k, hist, now, max, secs) && Spread(hist, max, secs) && Ascending(now, actions)
    ensures KeyRun(k, actions, max, secs) == HistoryRun(hist, actions, max, secs)
    decreases |actions|
  {
    if actions != [] {
      var (later, action) := actions[0];
      assert forall i :: 0 <= i < |actions[1..]| ==> actions[1..][i] == actions[i + 1];
      match action {
        case Attempt =>
          PerformTracks(k, hist, now, later, max, secs);
          var (k', allowed) := Perform(k, later, max, secs);
          RunsAgreeFrom(k', if allowed then [later] + hist else hist, later, actions[1..], max, secs);
        case Undo =>
          RollbackTracks(k, hist, now, later, max, secs);
          RunsAgreeFrom(Rollback(k, later), if hist == [] then [] else hist[1..], later, actions[1..], max, secs);
      }
    }
  }

  /** The trimmed, expiring list decides every run exactly as the full history would. */
  lemma RunsAgree(actions: seq<(int, Action)>, max: int, secs: int)
    requires Ascending(if actions == [] then 0 else actions[0].0, actions)
    ensures KeyRun(Key([], 0), actions, max, secs) == HistoryRun([], actions, max, secs)
  {
    RunsAgreeFrom(Key([], 0), [], if actions == [] then 0 else actions[0].0, actions, max, secs);
  }

  /** The events that a run leaves accepted and not rolled back. */
  function HistoryAfter(hist: seq<int>, actions: seq<(int, Action)>, max: int, secs: int): seq<int>
    decreases |actions|
  {
    if actions == [] then hist
    else
      var (now, action) := actions[0];
      var next := match action
        case Attempt => if Young(hist, now, secs) < max then [now] + hist else hist
        case Undo => if hist == [] then [] else hist[1..];
      HistoryAfter(next, actions[1..], max, secs)
  }

  lemma {:induction false} RunKeepsSpread(k: Key, hist: seq<int>, now: int, actions: seq<(int, Action)>, max: int,
                                          secs: int)
    requires Tracks(k, hist, now, max, secs) && Spread(hist, max, secs) && Ascending(now, actions)
    ensures Descending(HistoryAfter(hist, actions, max, secs))
            && Spread(HistoryAfter(hist, actions, max, secs), max, secs)
    decreases |actions|
  {
    if actions != [] {
      var (later, action) := actions[0];
      assert forall i :: 0 <= i < |actions[1..]| ==> actions[1..][i] == actions[i + 1];
      match action {
        case Attempt =>
          PerformTracks(k, hist, now, later, max, secs);
          var (k', allowed) := Perform(k, later, max, secs);
          RunKeepsSpread(k', if allowed then [later] + hist else hist, later, actions[1..], max, secs);
        case Undo =>
          RollbackTracks(k, hist, now, later, max, secs);
          RunKeepsSpread(Rollback(k, later), if hist == [] then [] else hist[1..], later, actions[1..], max, secs);
      }
    }
  }

  /** After any run no window of secs seconds holds more than max events. */
  lemma RunsKeepWindow(actions: seq<(int, Action)>, t: int, max: int, secs: int)
    requires max > 0 && Ascending(if actions == [] then 0 else actions[0].0, actions)
    ensures CountIf(HistoryAfter([], actions, max, secs), e => t <= e < t + secs) <= max
  {
    RunKeepsSpread(Key([], 0), [], if actions == [] then 0 else actions[0].0, actions, max, secs);
    WindowHoldsAtMostMax(HistoryAfter([], actions, max, secs), t, max, secs);
  }

  /** No window of secs seconds holds more than max events. */
  lemma WindowHoldsAtMostMax(hist: seq<int>, t: int, max: int, secs: int)
    requires max > 0 && Descending(hist) && Spread(hist, max, secs)
    ensures CountIf(hist, e => t <= e < t + secs) <= max
  {
    var p := e => t <= e < t + secs;
    var lo := 0;
    while lo < |hist| && hist[lo] >= t + secs
      invariant 0 <= lo <= |hist| && forall i :: 0 <= i < lo ==> hist[i] >= t + secs
    {
      lo := lo + 1;
    }
    forall i | lo + max <= i < |hist| ensures !p(hist[i]) {
      assert hist[lo] - hist[lo + max] >= secs;
    }
    CountAtMost(hist, p, lo, lo + max);
  }

  // ---------------------------------------------------------------- the limiter object

  class RateLimiter {
    const max: int
    const secs: int
    const staff: bool
    var key: Key
    ghost var hist: seq<int>
    ghost var clock: int

    /** The key tracks the history of accepted events, and no window ever holds more than max of them. */
    ghost predicate Valid()
      reads this
    {
      Tracks(key, hist, clock, max, secs) && Spread(hist, max, secs)
    }

    constructor (max: int, secs: int, staff: bool, now: int)
      ensures Valid() && this.max == max && this.secs == secs && this.staff == staff && hist == [] && clock == now
    {
      this.max, this.secs, this.staff := max, secs, staff;
      key := Key([], 0);
      hist, clock := [], now;
    }

    /** Redis drops the key when its time has come. */
    method Expire(now: int)
      requires Valid() && clock <= now
      modifies this
      ensures Valid() && clock == now && hist == old(hist) && key == Key(Live(old(key), now), old(key).until)
    {
      TracksLater(key, hist, clock, now, max, secs);
      if now >= key.until {
        key := Key([], key.until);
      }
      clock := now;
    }

    /** Allowed exactly when fewer than max accepted events are younger than secs. */
    method Performed(now: int) returns (allowed: bool)
      requires Valid() && clock <= now
      modifies this
      ensures Valid() && clock == now
      ensures allowed <==> Young(old(hist), now, secs) < max
      ensures hist == if allowed then [now] + old(hist) else old(hist)
    {
      hide Tracks, Spread, Young;
      Expire(now);
      if max <= 0 {
        return false;
      }
      DecidesOnHistory(key, hist, now, max, secs);
      if |key.list| < max || now - key.list[|key.list| - 1] >= secs {
        PushTracks(key, hist, now, max, secs);
        var list := [now] + key.list;
        if |list| > max {
          list := list[..max];
        }
        key := Key(list, now + secs * 2);
        hist := [now] + hist;
        return true;
      }
      return false;
    }

    method RollBack(now: int)
      requires Valid() && clock <= now
      modifies this
      ensures Valid() && clock == now
      ensures hist == if old(hist) == [] then [] else old(hist)[1..]
    {
      Expire(now);
      RollbackTracks(key, hist, now, now, max, secs);
      if |key.list| > 0 {
        key := Key(key.list[1..], key.until);
      }
      hist := if hist == [] then [] else hist[1..];
    }

    /** With a positive limit the query decides like an attempt, without recording one. With none it can
        say yes where every attempt is refused: an empty list looks like one very old event. */
    method IsUnderLimit(now: int) returns (r: bool)
      requires Valid() && clock <= now
      modifies this
      ensures Valid() && clock == now && hist == old(hist)
      ensures r <==> QueryUnderLimit(old(key), now, max, secs)
      ensures max > 0 ==> (r <==> Young(hist, now, secs) < max)
    {
      Expire(now);
      if max > 0 { DecidesOnHistory(key, hist, now, max, secs); }
      r := |key.list| < max || AgeOfOldest(key.list, now) >= secs;
    }

    /** The seconds until the next attempt can succeed. */
    method TimeToWait(now: int) returns (r: int)
      requires Valid() && clock <= now
      modifies this
      ensures Valid() && clock == now && hist == old(hist)
      ensures r == SecondsToWait(old(key), now, secs)
    {
      Expire(now);
      r := secs - AgeOfOldest(key.list, now);
    }

    /** max minus the kept events no older than secs: an event aged exactly secs still counts. Without a
        positive limit nothing remains either. */
    method Remaining(now: int) returns (r: int)
      requires Valid() && clock <= now
      modifies this
      ensures Valid() && clock == now && hist == old(hist)
      ensures staff ==> r == max
      ensures !staff ==> r == RemainingOf(old(key), now, max, secs) <= max
      ensures !staff && max > 0 ==> (r == max - Young(hist, now, secs) <==> now - secs !in key.list)
    {
      Expire(now);
      if staff {
        return max;
      }
      var arr := FirstTo(key.list, max);
      var kept := 0;
      var i := |arr|;
      while i > 0
        invariant 0 <= i <= |arr|
        invariant kept == CountIf(arr[i..], e => now - e <= secs)
      {
        i := i - 1;
        assert arr[i..][1..] == arr[i + 1..];
        if now - arr[i] <= secs {
          kept := kept + 1;
        }
      }
      assert arr[0..] == arr;
      if max > 0 {
        DecidesOnHistory(key, hist, now, max, secs);
        CountBoundary(key.list, now, secs);
      }
      return max - kept;
    }
  }

  /** Events aged at most secs are those younger than secs and those aged exactly secs. */
  lemma {:induction false} CountBoundary(list: seq<int>, now: int, secs: int)
    ensures CountIf(list, e => now - e <= secs) >= Young(list, now, secs)
    ensures CountIf(list, e => now - e <= secs) == Young(list, now, secs) <==> now - secs !in list
  {
    if list != [] {
      CountBoundary(list[1..], now, secs);
      assert list == [list[0]] + list[1..];
    }
  }

  /** After a refusal the reported wait is exact: the next attempt succeeds then and not before. */
  lemma WaitIsExact(k: Key, hist: seq<int>, now: int, d: nat, max: int, secs: int)
    requires max > 0 && Tracks(k, hist, now, max, secs)
    requires !Perform(k, now, max, secs).1
    ensures var wait := SecondsToWait(k, now, secs);
            wait > 0 && (Perform(k, now + d, max, secs).1 <==> d >= wait)
  {
    assert Live(k, now) == k.list && |k.list| == max;
    OldestAndNewest(k, hist, now, max, secs);
    hide Tracks;
    if d < secs - (now - k.list[max - 1]) {
      assert now + d < k.until;
    }
  }

  lemma OldestAndNewest(k: Key, hist: seq<int>, now: int, max: int, secs: int)
    requires Tracks(k, hist, now, max, secs) && k.list != []
    ensures k.list[|k.list| - 1] <= k.list[0] <= now && k.until >= k.list[0] + secs * 2
  {
    assert k.list[0] == hist[0] && k.list[|k.list| - 1] == hist[|k.list| - 1];
  }

  /** The query decides like an attempt except without a positive limit, when the oldest event has left the window. */
  lemma QueryDecidesIff(k: Key, now: int, max: int, secs: int)
    ensures (QueryUnderLimit(k, now, max, secs) <==> Perform(k, now, max, secs).1)
            <==> max > 0 || AgeOfOldest(Live(k, now), now) < secs
  {
  }

  /** A limit of zero: the query says yes, every attempt is refused. */
  lemma QueryMisleads()
    ensures QueryUnderLimit(Key([], 0), 100, 0, 10) && !Perform(Key([], 0), 100, 0, 10).1
  {
  }

  /** One event, aged exactly the window: none remains, and yet the attempt is allowed. */
  lemma RemainingMisleads()
    ensures var (k, _) := Perform(Key([], 0), 100, 1, 10);
            RemainingOf(k, 110, 1, 10) == 0 && Perform(k, 110, 1, 10).1
  {
    assert [100] + [] == [100];
    assert CountIf([100], e => 110 - e <= 10) == 1;
  }

  // ---------------------------------------------------------------- the aggressive variant

  /** Every attempt is recorded, allowed or not. */
  ghost predicate TracksAttempts(k: Key, attempts: seq<int>, now: int, max: int, secs: int) {
    && Descending(attempts) && (forall i :: 0 <= i < |attempts| ==> attempts[i] <= now)
    && |k.list| <= |attempts| && k.list == attempts[..|k.list|] && (max > 0 ==> |k.list| <= max)
    && (|k.list| == max || forall i :: |k.list| <= i < |attempts| ==> now - attempts[i] >= secs)
    && (k.list != [] ==> k.until >= k.list[0] + secs * 2)
  }

  /** Without rollbacks the aggressive limiter allows exactly when fewer than max attempts of any kind are in
      the window. */
  lemma AggressiveDecides(k: Key, attempts: seq<int>, now: int, later: int, max: int, secs: int)
    requires max > 0 && TracksAttempts(k, attempts, now, max, secs) && now <= later
    ensures var (k', allowed) := PerformAggressive(k, later, max, secs);
            && (allowed <==> Young(attempts, later, secs) < max)
            && TracksAttempts(k', [later] + attempts, later, max, secs)
  {
    AttemptsDecide(k, attempts, now, later, max, secs);
    var k' := Push(Live(k, later), later, max, secs);
    assert k'.list == ([later] + attempts)[..|k'.list|];
  }

  /** The test of the trimmed list counts attempts in the window. */
  lemma AttemptsDecide(k: Key, attempts: seq<int>, now: int, later: int, max: int, secs: int)
    requires max > 0 && TracksAttempts(k, attempts, now, max, secs) && now <= later
    ensures UnderLimit(Live(k, later), later, max, secs) <==> Young(attempts, later, secs) < max
    ensures later >= k.until ==> forall i :: 0 <= i < |attempts| ==> later - attempts[i] >= secs
  {
    var p := e => later - e < secs;
    if later >= k.until {
      forall i | 0 <= i < |attempts| ensures !p(attempts[i]) {
        if k.list != [] {
          assert attempts[i] <= attempts[0] == k.list[0];
        }
      }
      CountAtMost(attempts, p, 0, 0);
    } else if |k.list| < max {
      CountAtMost(attempts, p, 0, |k.list|);
    } else {
      assert attempts[max - 1] == k.list[max - 1];
      if UnderLimit(k.list, later, max, secs) {
        CountAtMost(attempts, p, 0, max - 1);
      } else {
        CountAtLeast(attempts, p, max);
      }
    }
  }

  /** Decisions of a run of aggressive attempts on the Redis key. */
  function AggressiveRun(k: Key, times: seq<int>, max: int, secs: int): seq<bool>
    decreases |times|
  {
    if times == [] then []
    else
      var (k', allowed) := PerformAggressive(k, times[0], max, secs);
      [allowed] + AggressiveRun(k', times[1..], max, secs)
  }

  /** Decisions of the limiter that remembers every attempt, allowed or not. */
  function AttemptsRun(attempts: seq<int>, times: seq<int>, max: int, secs: int): seq<bool>
    decreases |times|
  {
    if times == [] then []
    else [Young(attempts, times[0], secs) < max] + AttemptsRun([times[0]] + attempts, times[1..], max, secs)
  }

  lemma {:induction false} AggressiveRunsAgreeFrom(k: Key, attempts: seq<int>, now: int, times: seq<int>, max: int,
                                                   secs: int)
    requires max > 0 && TracksAttempts(k, attempts, now, max, secs)
    requires forall i :: 0 <= i < |times| ==> now <= times[i]
    requires forall i, j :: 0 <= i < j < |times| ==> times[i] <= times[j]
    ensures AggressiveRun(k, times, max, secs) == AttemptsRun(attempts, times, max, secs)
    decreases |times|
  {
    if times != [] {
      AggressiveDecides(k, attempts, now, times[0], max, secs);
      var k' := PerformAggressive(k, times[0], max, secs).0;
      AggressiveRunsAgreeFrom(k', [times[0]] + attempts, times[0], times[1..], max, secs);
    }
  }

  /** Without rollbacks the aggressive limiter decides every run as if it remembered every attempt. */
  lemma AggressiveRunsAgree(times: seq<int>, max: int, secs: int)
    requires max > 0 && forall i, j :: 0 <= i < j < |times| ==> times[i] <= times[j]
    ensures AggressiveRun(Key([], 0), times, max, secs) == AttemptsRun([], times, max, secs)
  {
    AggressiveRunsAgreeFrom(Key([], 0), [], if times == [] then 0 else times[0], times, max, secs);
  }

  /** Several rollbacks in a row, at the given times. */
  function RollbackAll(k: Key, undos: seq<int>): Key
    decreases |undos|
  {
    if undos == [] then k else RollbackAll(Rollback(k, undos[0]), undos[1..])
  }

  lemma {:induction false} RollbacksShorten(k: Key, undos: seq<int>)
    ensures |RollbackAll(k, undos).list| <= |k.list|
    ensures undos != [] && k.list != [] ==> |RollbackAll(k, undos).list| < |k.list|
    decreases |undos|
  {
    if undos != [] { RollbacksShorten(Rollback(k, undos[0]), undos[1..]); }
  }

  /** The attempts that r rollbacks leave. */
  function Without(attempts: seq<int>, r: nat): seq<int> {
    if r <= |attempts| then attempts[r..] else []
  }

  lemma YoungAfterRollbacks(attempts: seq<int>, r: nat, later: int, max: int, secs: int)
    requires max > 0 && r > 0 && Descending(attempts)
    ensures Young(Without(attempts, r), later, secs) < max <==>
              |attempts| < max + r || later - attempts[max + r - 1] >= secs
  {
    var (rest, p) := (Without(attempts, r), e => later - e < secs);
    assert forall i :: 0 <= i < |rest| ==> rest[i] == attempts[i + r];
    if |attempts| < max + r {
      CountAtMost(rest, p, 0, |rest|);
    } else if later - attempts[max + r - 1] >= secs {
      assert rest[max - 1] == attempts[max + r - 1];
      CountAtMost(rest, p, 0, max - 1);
    } else {
      assert rest[max - 1] == attempts[max + r - 1];
      CountAtLeast(rest, p, max);
    }
  }

  /** After r rollbacks in a row the next attempt is decided by the attempts that remain if and only if fewer
      than max of these are still young; else those trimmed for the rolled back ones are missing. */
  lemma RollbackForgetsIff(k: Key, attempts: seq<int>, now: int, undos: seq<int>, later: int, max: int, secs: int)
    requires max > 0 && TracksAttempts(k, attempts, now, max, secs) && undos != []
    ensures var r := |undos|;
            (PerformAggressive(RollbackAll(k, undos), later, max, secs).1 <==>
               Young(Without(attempts, r), later, secs) < max)
            <==> |attempts| < max + r || later - attempts[max + r - 1] >= secs
  {
    YoungAfterRollbacks(attempts, |undos|, later, max, secs);
    RollbacksShorten(k, undos);
    hide RollbackAll, TracksAttempts, Young, Without;
    assert |RollbackAll(k, undos).list| < max;
  }

  /** With a rollback it does not: a refused attempt has pushed out the accepted one, and rolling the
      refused one back forgets both. */
  lemma AggressiveRollbackForgets(secs: int)
    requires secs > 2
    ensures var (k1, first) := PerformAggressive(Key([], 0), 0, 1, secs);
            var (k2, second) := PerformAggressive(k1, 1, 1, secs);
            var (k3, third) := PerformAggressive(Rollback(k2, 1), 2, 1, secs);
            first && !second && third && Young([0], 2, secs) == 1
  {
    assert [1] + [0] == [1, 0] && [1, 0][..1] == [1];
    assert [0][1..] == [];
  }
}
