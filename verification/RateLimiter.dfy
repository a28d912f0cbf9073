/** The failed-login limiter of the dashboard: a pruned window per address. */
module RateLimiter {
  const WINDOW: int := 15 * 60 * 1000
  const SOFT_LIMIT: nat := 5
  const HARD_LIMIT: nat := 20

  datatype Answer = Answer(blocked: bool, softLocked: bool, remainingSeconds: int)

  const OPEN := Answer(false, false, 0)

  /** `attempts.filter(t => now - t < 15 * 60 * 1000)` */
  function Recent(attempts: seq<int>, now: int): seq<int> {
    if attempts == [] then []
    else
      var front, last := Recent(attempts[..|attempts| - 1], now), attempts[|attempts| - 1];
      if now - last < WINDOW then front + [last] else front
  }

  /** `Math.ceil(ms / 1000)` */
  function CeilSeconds(ms: int): int {
    (ms + 999) / 1000
  }

  function Verdict(recent: seq<int>, now: int): Answer {
    if |recent| >= HARD_LIMIT then Answer(true, true, CeilSeconds(WINDOW - (now - recent[|recent| - 1])))
    else if |recent| >= SOFT_LIMIT then Answer(false, true, CeilSeconds(WINDOW - (now - recent[|recent| - 1])))
    else OPEN
  }

  type Store = map<string, seq<int>>

  function Attempts(store: Store, ip: string): seq<int> {
    if ip in store then store[ip] else []
  }

  datatype Event = Check(ip: string, now: int) | Fail(ip: string, now: int) | Clear(ip: string, now: int)

  function Step(store: Store, e: Event): Store {
    match e
    case Check(ip, now) => store[ip := Recent(Attempts(store, ip), now)]
    case Fail(ip, now) => store[ip := Attempts(store, ip) + [now]]
    case Clear(ip, _) => store - {ip}
  }

  function Run(events: seq<Event>): Store {
    if events == [] then map[] else Step(Run(events[..|events| - 1]), events[|events| - 1])
  }

  // ----- the full history -----

  /** Every failure of an address since it was last cleared, none forgotten. */
  function Failures(events: seq<Event>, ip: string): seq<int> {
    if events == [] then []
    else
      var front, last := Failures(events[..|events| - 1], ip), events[|events| - 1];
      if last.Fail? && last.ip == ip then front + [last.now]
      else if last.Clear? && last.ip == ip then []
      else front
  }

  ghost predicate Clocked(events: seq<Event>) {
    forall i, j :: 0 <= i <= j < |events| ==> events[i].now <= events[j].now
  }

  lemma {:induction false} RecentOfRecent(attempts: seq<int>, earlier: int, now: int)
    requires earlier <= now
    ensures Recent(Recent(attempts, earlier), now) == Recent(attempts, now)
  {
    if attempts != [] {
      var front, last := attempts[..|attempts| - 1], attempts[|attempts| - 1];
      RecentOfRecent(front, earlier, now);
      if earlier - last < WINDOW {
        RecentSnoc(Recent(front, earlier), last, now);
      }
    }
  }

  lemma RecentSnoc(attempts: seq<int>, last: int, now: int)
    ensures Recent(attempts + [last], now) == if now - last < WINDOW then Recent(attempts, now) + [last] else Recent(attempts, now)
  {
    assert (attempts + [last])[..|attempts|] == attempts;
  }

  /** At every later time the pruned window and the full history have the same recent part. */
  lemma {:induction false} PrunedAgrees(events: seq<Event>, ip: string, now: int)
    requires Clocked(events) && (events != [] ==> events[|events| - 1].now <= now)
    ensures Recent(Attempts(Run(events), ip), now) == Recent(Failures(events, ip), now)
  {
    if events != [] {
      var front, last := events[..|events| - 1], events[|events| - 1];
      PrunedAgrees(front, ip, now);
      if last.ip == ip {
        match last {
          case Check(_, at) => RecentOfRecent(Attempts(Run(front), ip), at, now);
          case Fail(_, at) =>
            RecentSnoc(Attempts(Run(front), ip), at, now);
            RecentSnoc(Failures(front, ip), at, now);
          case Clear(_, _) =>
        }
      }
    }
  }

  /** What the limiter answers to a check at `now`. */
  function Answered(store: Store, ip: string, now: int): Answer {
    Verdict(Recent(Attempts(store, ip), now), now)
  }

  /** The pruning limiter refines the full history: over any run with a clock that does not
      run backwards it answers as if it counted every failure of the last 15 minutes. */
  lemma AnswersFromFullHistory(events: seq<Event>, ip: string, now: int)
    requires Clocked(events + [Check(ip, now)])
    ensures Answered(Run(events), ip, now) == Verdict(Recent(Failures(events, ip), now), now)
    ensures Answered(Run(events), ip, now).blocked <==> |Recent(Failures(events, ip), now)| >= HARD_LIMIT
    ensures Answered(Run(events), ip, now).softLocked <==> |Recent(Failures(events, ip), now)| >= SOFT_LIMIT
  {
    ClockedFront(events, Check(ip, now));
    PrunedAgrees(events, ip, now);
  }

  lemma ClockedFront(events: seq<Event>, last: Event)
    requires Clocked(events + [last])
    ensures Clocked(events) && (events != [] ==> events[|events| - 1].now <= last.now)
  {
    var all := events + [last];
    assert all[|events|] == last;
    assert forall i :: 0 <= i < |events| ==> all[i] == events[i];
  }

  // ----- the history itself -----

  /** The `i`-th event is a failure of the address less than 15 minutes ago, not cleared since. */
  ghost predicate FailsRecently(events: seq<Event>, ip: string, now: int, i: int) {
    && 0 <= i < |events| && events[i].Fail? && events[i].ip == ip && now - events[i].now < 900_000
    && forall j :: i < j < |events| ==> !(events[j].Clear? && events[j].ip == ip)
  }

  ghost function RecentFailures(events: seq<Event>, ip: string, now: int): set<int> {
    set i | 0 <= i < |events| && FailsRecently(events, ip, now, i)
  }

  lemma RecentFailuresStep(front: seq<Event>, last: Event, ip: string, now: int)
    ensures RecentFailures(front + [last], ip, now) ==
            if last.Clear? && last.ip == ip then {}
            else RecentFailures(front, ip, now) + if last.Fail? && last.ip == ip && now - last.now < 900_000 then {|front|} else {}
  {
    var events := front + [last];
    forall i | 0 <= i < |front|
      ensures FailsRecently(events, ip, now, i) <==> FailsRecently(front, ip, now, i) && !(last.Clear? && last.ip == ip)
    {
      assert events[i] == front[i] && events[|front|] == last;
      if FailsRecently(events, ip, now, i) {
        forall j | i < j < |front| ensures !(front[j].Clear? && front[j].ip == ip) { assert events[j] == front[j]; }
      }
    }
  }

  /** The list holds one entry for each recent failure, the last one last. */
  ghost predicate Lists(recent: seq<int>, events: seq<Event>, ip: string, now: int) {
    && |recent| == |RecentFailures(events, ip, now)|
    && (recent != [] ==> LastRecentAt(events, ip, now, recent[|recent| - 1]))
  }

  ghost predicate LastRecentAt(events: seq<Event>, ip: string, now: int, at: int) {
    exists i :: LastRecentFailure(events, ip, now, i) && events[i].now == at
  }

  lemma RecentAdded(front: seq<Event>, last: Event, recent: seq<int>, ip: string, now: int)
    requires Lists(recent, front, ip, now) && last.Fail? && last.ip == ip && now - last.now < 900_000
    ensures Lists(recent + [last.now], front + [last], ip, now)
  {
    RecentFailuresStep(front, last, ip, now);
    assert LastRecentFailure(front + [last], ip, now, |front|);
  }

  lemma RecentStays(front: seq<Event>, last: Event, recent: seq<int>, ip: string, now: int)
    requires Lists(recent, front, ip, now) && !(last.Clear? && last.ip == ip)
    requires !(last.Fail? && last.ip == ip && now - last.now < 900_000)
    ensures Lists(recent, front + [last], ip, now)
  {
    RecentFailuresStep(front, last, ip, now);
    assert RecentFailures(front + [last], ip, now) == RecentFailures(front, ip, now);
    hide RecentFailures;
    if recent != [] {
      var i :| LastRecentFailure(front, ip, now, i) && front[i].now == recent[|recent| - 1];
      assert LastRecentFailure(front + [last], ip, now, i) && (front + [last])[i] == front[i];
    }
  }

  lemma {:induction false} RecentCounts(events: seq<Event>, ip: string, now: int)
    ensures Lists(Recent(Failures(events, ip), now), events, ip, now)
  {
    if events == [] {
      assert RecentFailures(events, ip, now) == {};
    } else {
      var front, last := events[..|events| - 1], events[|events| - 1];
      assert events == front + [last];
      RecentCounts(front, ip, now);
      RecentSnoc(Failures(front, ip), last.now, now);
      RecentFailuresStep(front, last, ip, now);
      var before := Recent(Failures(front, ip), now);
      if last.Clear? && last.ip == ip {
        assert Recent(Failures(events, ip), now) == [];
      } else if last.Fail? && last.ip == ip && now - last.now < 900_000 {
        RecentAdded(front, last, before, ip, now);
      } else {
        RecentStays(front, last, before, ip, now);
      }
    }
  }

  ghost predicate LastRecentFailure(events: seq<Event>, ip: string, now: int, i: int) {
    0 <= i < |events| && i in RecentFailures(events, ip, now) && forall j :: j in RecentFailures(events, ip, now) ==> j <= i
  }

  predicate RoundsUp(milliseconds: int, seconds: int) {
    1000 * (seconds - 1) < milliseconds <= 1000 * seconds
  }

  /** The answer in terms of the failures themselves: blocked from 20 on, locked from 5 on, and the
      wait runs to 15 minutes after the last one, rounded up to whole seconds. */
  ghost predicate AnswersFor(r: Answer, events: seq<Event>, ip: string, now: int) {
    && (r.blocked <==> |RecentFailures(events, ip, now)| >= 20)
    && (r.softLocked <==> |RecentFailures(events, ip, now)| >= 5)
    && (r.softLocked ==>
          exists i :: LastRecentFailure(events, ip, now, i) && RoundsUp(events[i].now + 900_000 - now, r.remainingSeconds))
    && (!r.softLocked ==> r == Answer(false, false, 0))
  }

  /** Over any run with a clock that does not run backwards, the pruning limiter gives that answer. */
  lemma AnswersCountFailures(events: seq<Event>, ip: string, now: int)
    requires Clocked(events + [Check(ip, now)])
    ensures AnswersFor(Answered(Run(events), ip, now), events, ip, now)
  {
    AnswersFromFullHistory(events, ip, now);
    RecentCounts(events, ip, now);
    hide Recent, Failures, Clocked, RecentFailures;
    var recent := Recent(Failures(events, ip), now);
    if |recent| >= SOFT_LIMIT {
      var i :| LastRecentFailure(events, ip, now, i) && events[i].now == recent[|recent| - 1];
      assert RoundsUp(events[i].now + 900_000 - now, Answered(Run(events), ip, now).remainingSeconds);
    }
  }

  /** The pruned list is the filter for the last 15 minutes, in order. */
  lemma RecentIsFilter(a: seq<int>, t: int, now: int)
    ensures Recent(a + [t], now) == Recent(a, now) + if now - t < 900_000 then [t] else []
    ensures Recent([], now) == []
  {
    RecentSnoc(a, t, now);
  }

  // ----- checks leave no trace -----

  function WithoutChecks(events: seq<Event>): seq<Event> {
    if events == [] then []
    else
      var front, last := WithoutChecks(events[..|events| - 1]), events[|events| - 1];
      if last.Check? then front else front + [last]
  }

  lemma {:induction false} FailuresWithoutChecks(events: seq<Event>, ip: string)
    ensures Failures(WithoutChecks(events), ip) == Failures(events, ip)
  {
    if events != [] {
      var front, last := WithoutChecks(events[..|events| - 1]), events[|events| - 1];
      FailuresWithoutChecks(events[..|events| - 1], ip);
      if !last.Check? {
        assert (front + [last])[..|front|] == front;
      }
    }
  }

  lemma {:induction false} ClockedWithoutChecks(events: seq<Event>)
    requires Clocked(events)
    ensures Clocked(WithoutChecks(events))
    ensures forall e :: e in WithoutChecks(events) ==> e in events
  {
    if events != [] {
      var front, last := WithoutChecks(events[..|events| - 1]), events[|events| - 1];
      ClockedWithoutChecks(events[..|events| - 1]);
      if !last.Check? {
        forall i | 0 <= i < |front| ensures front[i].now <= last.now {
          assert front[i] in front;
          assert front[i] in events[..|events| - 1];
        }
      }
    }
  }

  /** Extra checks never change a later answer. */
  lemma ChecksAreUnobservable(events: seq<Event>, ip: string, now: int)
    requires Clocked(events + [Check(ip, now)])
    ensures Answered(Run(events), ip, now) == Answered(Run(WithoutChecks(events)), ip, now)
  {
    ClockedFront(events, Check(ip, now));
    ClockedWithoutChecks(events);
    var w := WithoutChecks(events);
    if w != [] {
      assert w[|w| - 1] in w;
      var i :| 0 <= i < |events| && events[i] == w[|w| - 1];
      assert events[i].now <= events[|events| - 1].now;
    }
    PrunedAgrees(events, ip, now);
    PrunedAgrees(w, ip, now);
    FailuresWithoutChecks(events, ip);
  }

  // ----- locking and unlocking -----

  lemma {:induction false} RecentMembers(attempts: seq<int>, now: int)
    ensures forall t :: t in Recent(attempts, now) <==> t in attempts && now - t < WINDOW
  {
    if attempts != [] {
      RecentMembers(attempts[..|attempts| - 1], now);
      assert attempts == attempts[..|attempts| - 1] + [attempts[|attempts| - 1]];
    }
  }

  lemma {:induction false} FailuresInOrder(events: seq<Event>, ip: string)
    requires Clocked(events)
    ensures forall i, j :: 0 <= i <= j < |Failures(events, ip)| ==> Failures(events, ip)[i] <= Failures(events, ip)[j]
    ensures forall t :: t in Failures(events, ip) ==> t <= events[|events| - 1].now && events != []
  {
    if events != [] {
      var front, last := events[..|events| - 1], events[|events| - 1];
      FailuresInOrder(front, ip);
      assert front != [] ==> front[|front| - 1].now <= last.now;
      var f := Failures(front, ip);
      assert forall i :: 0 <= i < |f| ==> f[i] in f;
    }
  }

  lemma {:induction false} RecentKeepsOrder(attempts: seq<int>, now: int)
    requires forall i, j :: 0 <= i <= j < |attempts| ==> attempts[i] <= attempts[j]
    ensures forall t :: t in Recent(attempts, now) ==> t <= Recent(attempts, now)[|Recent(attempts, now)| - 1]
    ensures Recent(attempts, now) != [] ==>
              Recent(attempts, now)[|Recent(attempts, now)| - 1] == attempts[|attempts| - 1]
  {
    if attempts != [] {
      RecentKeepsOrder(attempts[..|attempts| - 1], now);
      RecentMembers(attempts[..|attempts| - 1], now);
      var front, last := Recent(attempts[..|attempts| - 1], now), attempts[|attempts| - 1];
      forall t | t in front ensures t <= last {
        var i :| 0 <= i < |attempts| - 1 && attempts[i] == t;
      }
      if front != [] { assert front[0] in front; }
    }
  }

  /** The last recent failure is the last one of all. */
  lemma LastFailure(events: seq<Event>, ip: string, now: int)
    requires Clocked(events + [Check(ip, now)]) && Recent(Failures(events, ip), now) != []
    ensures var f, recent := Failures(events, ip), Recent(Failures(events, ip), now);
            var last := recent[|recent| - 1];
            now - WINDOW < last <= now && forall i :: 0 <= i < |f| ==> f[i] <= last
  {
    ClockedFront(events, Check(ip, now));
    var f := Failures(events, ip);
    var recent := Recent(f, now);
    FailuresInOrder(events, ip);
    RecentKeepsOrder(f, now);
    RecentMembers(f, now);
    assert recent[|recent| - 1] in recent;
  }

  lemma {:induction false} NoneRecent(attempts: seq<int>, now: int)
    requires forall i :: 0 <= i < |attempts| ==> now - attempts[i] >= WINDOW
    ensures Recent(attempts, now) == []
  {
    if attempts != [] {
      NoneRecent(attempts[..|attempts| - 1], now);
    }
  }

  /** Without a new failure of the address its failures stay, or are cleared. */
  lemma {:induction false} NoNewFailures(before: seq<Event>, more: seq<Event>, ip: string)
    requires forall e :: e in more ==> !(e.Fail? && e.ip == ip)
    ensures Failures(before + more, ip) == Failures(before, ip) || Failures(before + more, ip) == []
    decreases |more|
  {
    if more == [] {
      assert before + more == before;
    } else {
      var front, last := more[..|more| - 1], more[|more| - 1];
      assert (before + more)[..|before + more| - 1] == before + front;
      assert last in more;
      NoNewFailures(before, front, ip);
    }
  }

  lemma ClockedBefore(events: seq<Event>, n: nat)
    requires Clocked(events) && n <= |events|
    ensures Clocked(events[..n])
  {
  }

  /** What a lock announces, and that no failure known then is recent when it ends. */
  lemma LockCoversFailures(events: seq<Event>, ip: string, now: int, later: int)
    requires Clocked(events + [Check(ip, now)]) && Answered(Run(events), ip, now).softLocked
    requires later >= now + 1000 * Answered(Run(events), ip, now).remainingSeconds
    ensures 1 <= Answered(Run(events), ip, now).remainingSeconds <= 900
    ensures Recent(Failures(events, ip), later) == []
  {
    AnswersFromFullHistory(events, ip, now);
    LastFailure(events, ip, now);
    NoneRecent(Failures(events, ip), later);
  }

  /** A lock names a wait of 1 to 900 seconds. Once that long has passed it is lifted, whatever
      was checked, cleared or recorded for other addresses in between. */
  lemma LockEndsAsAnnounced(events: seq<Event>, ip: string, now: int, more: seq<Event>, later: int)
    requires Clocked(events + [Check(ip, now)] + more + [Check(ip, later)])
    requires forall e :: e in more ==> !(e.Fail? && e.ip == ip)
    requires Answered(Run(events), ip, now).softLocked
    requires later >= now + 1000 * Answered(Run(events), ip, now).remainingSeconds
    ensures 1 <= Answered(Run(events), ip, now).remainingSeconds <= 900
    ensures Answered(Run(events + [Check(ip, now)] + more), ip, later) == OPEN
  {
    var checked := events + [Check(ip, now)];
    var all := checked + more;
    ClockedFront(all, Check(ip, later));
    ClockedBefore(all, |checked|);
    assert all[..|checked|] == checked && checked[..|events|] == events;
    LockCoversFailures(events, ip, now, later);
    assert Failures(checked, ip) == Failures(events, ip);
    NoNewFailures(checked, more, ip);
    hide Clocked, Failures, Run, Attempts;
    PrunedAgrees(all, ip, later);
  }

  // ----- the limiter as an object -----

  lemma AnswerCounts(events: seq<Event>, ip: string, now: int)
    ensures Clocked(events + [Check(ip, now)]) ==> AnswersFor(Answered(Run(events), ip, now), events, ip, now)
  {
    if Clocked(events + [Check(ip, now)]) { AnswersCountFailures(events, ip, now); }
  }

  lemma RunSnoc(events: seq<Event>, e: Event)
    ensures Run(events + [e]) == Step(Run(events), e)
  {
    assert (events + [e])[..|events|] == events;
  }

  /** `events` is everything that was asked of the limiter so far. */
  class RateLimitStore {
    var store: Store
    ghost var events: seq<Event>

    constructor ()
      ensures Valid() && events == []
    {
      store := map[];
      events := [];
    }

    ghost predicate Valid()
      reads this
    {
      store == Run(events)
    }

    ghost method Record(e: Event)
      modifies `events
      ensures events == old(events) + [e] && Run(events) == Step(Run(old(events)), e)
    {
      RunSnoc(events, e);
      events := events + [e];
    }

    /** The answer counts every failure of the last 15 minutes since the last clear. */
    method CheckRateLimit(ip: string, now: int) returns (r: Answer)
      requires Valid()
      modifies this
      ensures Valid() && events == old(events) + [Check(ip, now)]
      ensures r == Answered(old(store), ip, now) && store == Step(old(store), Check(ip, now))
      ensures Clocked(events) ==> AnswersFor(r, old(events), ip, now)
    {
      AnswerCounts(events, ip, now);
      hide Clocked, Failures, Run, AnswersFor;
      Record(Check(ip, now));
      var attempts := if ip in store then store[ip] else [];
      var recent := [];
      for i := 0 to |attempts|
        invariant recent == Recent(attempts[..i], now)
      {
        assert attempts[..i + 1][..i] == attempts[..i];
        if now - attempts[i] < 15 * 60 * 1000 {
          recent := recent + [attempts[i]];
        }
      }
      assert attempts[..|attempts|] == attempts;
      store := store[ip := recent];
      if |recent| >= 20 {
        var lastAttempt := recent[|recent| - 1];
        return Answer(true, true, CeilSeconds(15 * 60 * 1000 - (now - lastAttempt)));
      }
      if |recent| >= 5 {
        var lastAttempt := recent[|recent| - 1];
        return Answer(false, true, CeilSeconds(15 * 60 * 1000 - (now - lastAttempt)));
      }
      r := OPEN;
    }

    method RecordFailedAuth(ip: string, now: int)
      requires Valid()
      modifies this
      ensures Valid() && events == old(events) + [Fail(ip, now)]
      ensures store == Step(old(store), Fail(ip, now))
    {
      Record(Fail(ip, now));
      var attempts := if ip in store then store[ip] else [];
      attempts := attempts + [now];
      store := store[ip := attempts];
    }

    method ClearFailedAuth(ip: string, ghost now: int)
      requires Valid()
      modifies this
      ensures Valid() && events == old(events) + [Clear(ip, now)]
      ensures store == Step(old(store), Clear(ip, now))
    {
      Record(Clear(ip, now));
      store := store - {ip};
    }
  }
}
