/** The discovery cache of `discoverBedrockModels`: one outstanding discovery per key. */
module BedrockCache {
  import opened Common

  /** `JSON.stringify` of these parameters is the cache key. */
  datatype Key = Key(region: string, providerFilter: seq<string>, refreshIntervalSeconds: nat,
                     defaultContextWindow: int, defaultMaxTokens: int)

  datatype Result<M> = Found(models: M) | Failed

  /** A cache entry holds either the running discovery or its value. */
  datatype Entry<M> = InFlight(expiresAt: int, discovery: nat) | Valued(expiresAt: int, value: M)

  /** `result` is set once the promise has settled; the call that started the discovery
      resumes in a later step. */
  datatype Discovery<M> = Discovery(key: Key, startedAt: int, result: Option<Result<M>>, resumed: bool)

  datatype State<M> = State(cache: map<Key, Entry<M>>, discoveries: seq<Discovery<M>>)

  /** What the synchronous part of a call decides. */
  datatype Decision<M> = Served(value: M) | Joined(discovery: nat) | Started(discovery: nat)

  datatype Event<M> = Call(key: Key, now: int) | Settle(discovery: nat, result: Result<M>) | Resume(discovery: nat)

  function ExpiresAt(key: Key, startedAt: int): int {
    startedAt + key.refreshIntervalSeconds * 1000
  }

  function Decide<M>(s: State<M>, key: Key, now: int): Decision<M> {
    if key.refreshIntervalSeconds > 0 && key in s.cache && s.cache[key].Valued? && s.cache[key].expiresAt > now then
      Served(s.cache[key].value)
    else if key.refreshIntervalSeconds > 0 && key in s.cache && s.cache[key].InFlight? then
      Joined(s.cache[key].discovery)
    else Started(|s.discoveries|)
  }

  function Step<M>(s: State<M>, e: Event<M>): State<M> {
    match e
    case Call(key, now) =>
      if !Decide(s, key, now).Started? then s
      else
        var d := |s.discoveries|;
        State(if key.refreshIntervalSeconds > 0 then s.cache[key := InFlight(ExpiresAt(key, now), d)] else s.cache,
              s.discoveries + [Discovery(key, now, None, false)])
    case Settle(d, result) =>
      if d < |s.discoveries| && s.discoveries[d].result.None? then
        s.(discoveries := s.discoveries[d := s.discoveries[d].(result := Some(result))])
      else s
    case Resume(d) =>
      if d < |s.discoveries| && s.discoveries[d].result.Some? && !s.discoveries[d].resumed then
        var key := s.discoveries[d].key;
        State(if key.refreshIntervalSeconds == 0 then s.cache
              else match s.discoveries[d].result.value
                case Found(models) => s.cache[key := Valued(ExpiresAt(key, s.discoveries[d].startedAt), models)]
                case Failed => s.cache - {key},
              s.discoveries[d := s.discoveries[d].(resumed := true)])
      else s
  }

  function Run<M>(events: seq<Event<M>>): State<M> {
    if events == [] then State(map[], []) else Step(Run(events[..|events| - 1]), events[|events| - 1])
  }

  predicate Outstanding<M>(s: State<M>, d: nat) {
    d < |s.discoveries| && !s.discoveries[d].resumed && s.discoveries[d].key.refreshIntervalSeconds > 0
  }

  /** The discovery that a cached value came from. */
  ghost predicate Source<M>(s: State<M>, d: nat, key: Key, value: M, expiresAt: int) {
    && d < |s.discoveries| && s.discoveries[d].key == key && s.discoveries[d].resumed
    && s.discoveries[d].result == Some(Found(value))
    && expiresAt == ExpiresAt(key, s.discoveries[d].startedAt)
  }

  ghost predicate Inv<M>(s: State<M>) {
    && (forall d: nat :: Outstanding(s, d) ==>
          s.discoveries[d].key in s.cache
          && s.cache[s.discoveries[d].key] == InFlight(ExpiresAt(s.discoveries[d].key, s.discoveries[d].startedAt), d))
    && (forall key :: key in s.cache && s.cache[key].InFlight? ==>
          Outstanding(s, s.cache[key].discovery) && s.discoveries[s.cache[key].discovery].key == key)
    && (forall key :: key in s.cache && s.cache[key].Valued? ==>
          exists d: nat :: Source(s, d, key, s.cache[key].value, s.cache[key].expiresAt))
    && (forall key :: key in s.cache ==> key.refreshIntervalSeconds > 0)
  }

  lemma SourceStays<M>(s: State<M>, e: Event<M>, d: nat, key: Key, value: M, expiresAt: int)
    requires Source(s, d, key, value, expiresAt)
    ensures Source(Step(s, e), d, key, value, expiresAt)
  {
  }

  lemma StepKeepsSources<M>(s: State<M>, e: Event<M>, key: Key)
    requires Inv(s) && key in Step(s, e).cache && Step(s, e).cache[key].Valued?
    ensures exists d: nat :: Source(Step(s, e), d, key, Step(s, e).cache[key].value, Step(s, e).cache[key].expiresAt)
  {
    var t := Step(s, e);
    if key in s.cache && s.cache[key] == t.cache[key] {
      var d: nat :| Source(s, d, key, s.cache[key].value, s.cache[key].expiresAt);
      SourceStays(s, e, d, key, s.cache[key].value, s.cache[key].expiresAt);
    } else {
      assert Source(t, e.discovery, key, t.cache[key].value, t.cache[key].expiresAt);
    }
  }

  lemma StepKeepsOutstanding<M>(s: State<M>, e: Event<M>, d: nat)
    requires Inv(s) && Outstanding(Step(s, e), d)
    ensures var t := Step(s, e);
            t.discoveries[d].key in t.cache &&
            t.cache[t.discoveries[d].key] == InFlight(ExpiresAt(t.discoveries[d].key, t.discoveries[d].startedAt), d)
  {
    assert d < |s.discoveries| ==> Outstanding(s, d);
  }

  lemma StepKeepsInFlight<M>(s: State<M>, e: Event<M>, key: Key)
    requires Inv(s) && key in Step(s, e).cache && Step(s, e).cache[key].InFlight?
    ensures var d := Step(s, e).cache[key].discovery;
            Outstanding(Step(s, e), d) && Step(s, e).discoveries[d].key == key
  {
  }

  lemma StepKeepsInv<M>(s: State<M>, e: Event<M>)
    requires Inv(s)
    ensures Inv(Step(s, e))
  {
    var t := Step(s, e);
    forall key | key in t.cache && t.cache[key].Valued?
      ensures exists d: nat :: Source(t, d, key, t.cache[key].value, t.cache[key].expiresAt)
    {
      StepKeepsSources(s, e, key);
    }
    forall key | key in t.cache && t.cache[key].InFlight?
      ensures Outstanding(t, t.cache[key].discovery) && t.discoveries[t.cache[key].discovery].key == key
    {
      StepKeepsInFlight(s, e, key);
    }
    forall d: nat | Outstanding(t, d)
      ensures t.discoveries[d].key in t.cache
      ensures t.cache[t.discoveries[d].key] == InFlight(ExpiresAt(t.discoveries[d].key, t.discoveries[d].startedAt), d)
    {
      StepKeepsOutstanding(s, e, d);
    }
  }

  lemma {:induction false} RunKeepsInv<M>(events: seq<Event<M>>)
    ensures Inv(Run(events))
  {
    if events != [] {
      RunKeepsInv(events[..|events| - 1]);
      StepKeepsInv(Run(events[..|events| - 1]), events[|events| - 1]);
    }
  }

  // ----- what every run keeps -----

  /** For a positive interval at most one discovery of a key is outstanding. */
  lemma OneOutstanding<M>(events: seq<Event<M>>, d: nat, e: nat)
    requires Outstanding(Run(events), d) && Outstanding(Run(events), e)
    requires Run(events).discoveries[d].key == Run(events).discoveries[e].key
    ensures d == e
  {
    RunKeepsInv(events);
  }

  /** A served value is the result of a discovery of that key that succeeded, and that
      was started less than one interval ago. */
  lemma ServedIsRecent<M>(events: seq<Event<M>>, key: Key, now: int)
    requires Decide(Run(events), key, now).Served?
    ensures exists d :: 0 <= d < |Run(events).discoveries|
              && Run(events).discoveries[d].key == key
              && Run(events).discoveries[d].result == Some(Found(Decide(Run(events), key, now).value))
              && now - Run(events).discoveries[d].startedAt < key.refreshIntervalSeconds * 1000
  {
    RunKeepsInv(events);
    var s := Run(events);
    var d: nat :| Source(s, d, key, s.cache[key].value, s.cache[key].expiresAt);
    assert s.discoveries[d].key == key;
  }

  /** A joined discovery is the outstanding one for that key. */
  lemma JoinersShare<M>(events: seq<Event<M>>, key: Key, now: int)
    requires Decide(Run(events), key, now).Joined?
    ensures Outstanding(Run(events), Decide(Run(events), key, now).discovery)
    ensures Run(events).discoveries[Decide(Run(events), key, now).discovery].key == key
  {
    RunKeepsInv(events);
  }

  lemma ResultStep<M>(s: State<M>, e: Event<M>, d: nat)
    requires d < |s.discoveries| && s.discoveries[d].result.Some?
    ensures d < |Step(s, e).discoveries| && Step(s, e).discoveries[d].result == s.discoveries[d].result
  {
  }

  /** A discovery settles once, so its starter and every joiner see the same outcome. */
  lemma {:induction false} ResultIsFinal<M>(before: seq<Event<M>>, after: seq<Event<M>>, d: nat)
    requires d < |Run(before).discoveries| && Run(before).discoveries[d].result.Some?
    ensures d < |Run(before + after).discoveries|
    ensures Run(before + after).discoveries[d].result == Run(before).discoveries[d].result
    decreases |after|
  {
    if after == [] {
      assert before + after == before;
    } else {
      var front := after[..|after| - 1];
      assert (before + after)[..|before + after| - 1] == before + front;
      ResultIsFinal(before, front, d);
      ResultStep(Run(before + front), after[|after| - 1], d);
    }
  }

  /** Everyone who joins a discovery that succeeds gets its value, and nothing later changes that. */
  lemma JoinersGetTheValue<M>(events: seq<Event<M>>, key: Key, now: int, more: seq<Event<M>>, later: seq<Event<M>>, value: M)
    requires Decide(Run(events), key, now).Joined?
    requires var d := Decide(Run(events), key, now).discovery;
             d < |Run(events + more).discoveries| && Run(events + more).discoveries[d].result == Some(Found(value))
    ensures var d := Decide(Run(events), key, now).discovery;
            && d < |Run(events + more + later).discoveries|
            && Run(events + more + later).discoveries[d].result == Some(Found(value))
            && Outstanding(Run(events), d) && Run(events).discoveries[d].key == key
  {
    JoinersShare(events, key, now);
    ResultIsFinal(events + more, later, Decide(Run(events), key, now).discovery);
  }

  /** A failed discovery leaves its key absent, and the next call starts anew. */
  lemma FailureLeavesAbsent<M>(events: seq<Event<M>>, d: nat, now: int)
    requires Outstanding(Run(events), d) && Run(events).discoveries[d].result == Some(Failed)
    ensures var key := Run(events).discoveries[d].key;
            var s := Run(events + [Resume(d)]);
            key !in s.cache && Decide(s, key, now) == Started(|s.discoveries|)
  {
    assert (events + [Resume(d)])[..|events|] == events;
  }

  /** A success is served until its interval, counted from the start in seconds, has passed. */
  lemma SuccessIsServed<M>(events: seq<Event<M>>, d: nat, now: int)
    requires Outstanding(Run(events), d) && Run(events).discoveries[d].result.Some?
    requires Run(events).discoveries[d].result.value.Found?
    ensures var found := Run(events).discoveries[d];
            var s := Run(events + [Resume(d)]);
            Decide(s, found.key, now) ==
              if now - found.startedAt < found.key.refreshIntervalSeconds * 1000
              then Served(found.result.value.models) else Started(|s.discoveries|)
  {
    assert (events + [Resume(d)])[..|events|] == events;
  }

  lemma RunSnoc<M>(events: seq<Event<M>>, e: Event<M>)
    ensures Run(events + [e]) == Step(Run(events), e)
  {
    assert (events + [e])[..|events|] == events;
  }

  lemma ResumeStores<M>(s: State<M>, d: nat)
    requires Outstanding(s, d) && s.discoveries[d].result.Some? && s.discoveries[d].result.value.Found?
    ensures var found := s.discoveries[d];
            && found.key in Step(s, Resume(d)).cache
            && Step(s, Resume(d)).cache[found.key] == Valued(found.startedAt + found.key.refreshIntervalSeconds * 1000, found.result.value.models)
  {
  }

  /** And it stays so whatever happens, as long as nobody asks for the key after the interval. */
  lemma {:induction false} SuccessStaysServed<M>(events: seq<Event<M>>, d: nat, more: seq<Event<M>>, now: int)
    requires Outstanding(Run(events), d) && Run(events).discoveries[d].result.Some?
    requires Run(events).discoveries[d].result.value.Found?
    requires var found := Run(events).discoveries[d];
             forall e :: e in more && e.Call? && e.key == found.key ==> e.now - found.startedAt < found.key.refreshIntervalSeconds * 1000
    ensures var found := Run(events).discoveries[d];
            var s := Run(events + [Resume(d)] + more);
            && found.key in s.cache
            && s.cache[found.key] == Valued(found.startedAt + found.key.refreshIntervalSeconds * 1000, found.result.value.models)
            && (now - found.startedAt < found.key.refreshIntervalSeconds * 1000 ==> Decide(s, found.key, now) == Served(found.result.value.models))
    decreases |more|
  {
    var resumed := events + [Resume(d)];
    RunSnoc(events, Resume(d));
    hide Run;
    if more == [] {
      assert resumed + more == resumed;
      ResumeStores(Run(events), d);
    } else {
      var front, last := more[..|more| - 1], more[|more| - 1];
      assert resumed + more == (resumed + front) + [last] && last in more;
      RunSnoc(resumed + front, last);
      SuccessStaysServed(events, d, front, now);
      RunKeepsInv(resumed + front);
      hide Step, Inv, Outstanding;
      ValueStays(Run(resumed + front), last, Run(events).discoveries[d].key);
    }
  }

  /** A value in the cache is replaced only by a discovery that a call after its time starts. */
  lemma ValueStays<M>(s: State<M>, e: Event<M>, key: Key)
    requires Inv(s) && key in s.cache && s.cache[key].Valued?
    requires e.Call? && e.key == key ==> e.now < s.cache[key].expiresAt
    ensures key in Step(s, e).cache && Step(s, e).cache[key] == s.cache[key]
  {
    if e.Resume? && e.discovery < |s.discoveries| && s.discoveries[e.discovery].key == key {
      assert !Outstanding(s, e.discovery);
    }
  }

  /** While a discovery of a key is outstanding every call for that key joins it. */
  lemma CallsJoin<M>(events: seq<Event<M>>, d: nat, now: int)
    requires Outstanding(Run(events), d)
    ensures Decide(Run(events), Run(events).discoveries[d].key, now) == Joined(d)
  {
    RunKeepsInv(events);
  }

  /** Without an interval nothing is shared or kept: every call starts a discovery of its own. */
  lemma NoIntervalNoCache<M>(events: seq<Event<M>>, key: Key, now: int)
    requires key.refreshIntervalSeconds == 0
    ensures key !in Run(events).cache && Decide(Run(events), key, now).Started?
  {
    RunKeepsInv(events);
  }

  /** A started discovery is a new one, for that key and from that moment, and it is outstanding. */
  lemma StartedIsOutstanding<M>(events: seq<Event<M>>, key: Key, now: int)
    requires Decide(Run(events), key, now).Started?
    ensures var d := |Run(events).discoveries|;
            var s := Run(events + [Call(key, now)]);
            && Decide(Run(events), key, now) == Started(d) && |s.discoveries| == d + 1
            && s.discoveries[d] == Discovery(key, now, None, false)
            && (key.refreshIntervalSeconds > 0 ==> Outstanding(s, d))
  {
    assert (events + [Call(key, now)])[..|events|] == events;
  }

  // ----- the cache as it is mutated -----

  /** `events` is everything that has happened to the cache so far. */
  class DiscoveryCache<M> {
    var cache: map<Key, Entry<M>>
    var discoveries: seq<Discovery<M>>
    ghost var events: seq<Event<M>>

    constructor ()
      ensures Valid() && events == []
    {
      cache, discoveries, events := map[], [], [];
    }

    ghost predicate Valid()
      reads this
    {
      Now() == Run(events)
    }

    ghost method Record(e: Event<M>)
      modifies `events
      ensures events == old(events) + [e] && Run(events) == Step(Run(old(events)), e)
    {
      RunSnoc(events, e);
      events := events + [e];
    }

    ghost function Now(): State<M>
      reads this
    {
      State(cache, discoveries)
    }

    /** `discoverBedrockModels` up to its first await. */
    method BeginDiscovery(key: Key, now: int) returns (r: Decision<M>)
      requires Valid()
      modifies this
      ensures Valid() && events == old(events) + [Call(key, now)]
      ensures r == Decide(old(Now()), key, now)
      ensures Now() == Step(old(Now()), Call(key, now))
    {
      hide Run;
      Record(Call(key, now));
      if key.refreshIntervalSeconds > 0 {
        if key in cache {
          var cached := cache[key];
          if cached.Valued? && cached.expiresAt > now {
            return Served(cached.value);
          }
          if cached.InFlight? {
            return Joined(cached.discovery);
          }
        }
      }
      r := Started(|discoveries|);
      if key.refreshIntervalSeconds > 0 {
        cache := cache[key := InFlight(now + key.refreshIntervalSeconds * 1000, |discoveries|)];
      }
      discoveries := discoveries + [Discovery(key, now, None, false)];
    }

    /** The discovery promise settles. */
    method SettleDiscovery(d: nat, result: Result<M>)
      requires Valid() && d < |discoveries| && discoveries[d].result.None?
      modifies this
      ensures Valid() && events == old(events) + [Settle(d, result)]
      ensures Now() == Step(old(Now()), Settle(d, result))
    {
      hide Run;
      Record(Settle(d, result));
      discoveries := discoveries[d := discoveries[d].(result := Some(result))];
    }

    /** The rest of the call that started the discovery; a failure yields no models. */
    method FinishDiscovery(d: nat) returns (r: Option<M>)
      requires Valid() && d < |discoveries| && discoveries[d].result.Some? && !discoveries[d].resumed
      modifies this
      ensures Valid() && events == old(events) + [Resume(d)]
      ensures Now() == Step(old(Now()), Resume(d))
      ensures old(discoveries[d].result.value.Found?) ==> r == Some(old(discoveries[d].result.value.models))
      ensures old(discoveries[d].result.value.Failed?) ==> r.None?
    {
      hide Run;
      Record(Resume(d));
      var started := discoveries[d];
      discoveries := discoveries[d := started.(resumed := true)];
      match started.result.value {
        case Found(value) =>
          if started.key.refreshIntervalSeconds > 0 {
            cache := cache[started.key := Valued(started.startedAt + started.key.refreshIntervalSeconds * 1000, value)];
          }
          r := Some(value);
        case Failed =>
          if started.key.refreshIntervalSeconds > 0 {
            cache := cache - {started.key};
          }
          r := None;
      }
    }
  }
}
