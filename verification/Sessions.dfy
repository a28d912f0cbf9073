/** The dashboard's session table: lazy expiry, a periodic sweep, and revocations. */
module Sessions {
  import opened Common

  const SESSION_ACTIVITY_TIMEOUT: int := 30 * 60 * 1000
  const SESSION_REMEMBER_LIFETIME: int := 3 * 60 * 60 * 1000

  datatype Session = Session(createdAt: int, lastActivity: int, expiresAt: int, rememberMe: bool)

  type Table = map<string, Session>

  function Lifetime(rememberMe: bool): int {
    if rememberMe then SESSION_REMEMBER_LIFETIME else SESSION_ACTIVITY_TIMEOUT
  }

  /** Either deadline of a session has passed. */
  predicate Stale(s: Session, now: int) {
    now > s.expiresAt || (!s.rememberMe && now - s.lastActivity > SESSION_ACTIVITY_TIMEOUT)
  }

  /** A request's token is `None` when the request carries none. */
  datatype Event =
    | Create(token: string, rememberMe: bool, now: int)
    | Authenticate(request: Option<string>, now: int)
    | Sweep(now: int)
    | Logout(bearer: Option<string>, now: int)
    | ResetPassword(now: int)
    | ChangePassword(keep: Option<string>, now: int)

  predicate Accepts(t: Table, request: Option<string>, now: int) {
    request.Some? && request.value != "" && request.value in t && !Stale(t[request.value], now)
  }

  function Step(t: Table, e: Event): Table {
    match e
    case Create(token, rememberMe, now) => t[token := Session(now, now, now + Lifetime(rememberMe), rememberMe)]
    case Authenticate(request, now) =>
      if request.None? || request.value == "" || request.value !in t then t
      else if Stale(t[request.value], now) then t - {request.value}
      else if !t[request.value].rememberMe then t[request.value := t[request.value].(lastActivity := now)]
      else t
    case Sweep(now) => map token | token in t && !Stale(t[token], now) :: t[token]
    case Logout(bearer, _) => if bearer.Some? then t - {bearer.value} else t
    case ResetPassword(_) => map[]
    case ChangePassword(keep, _) => map token | token in t && keep == Some(token) :: t[token]
  }

  function Run(events: seq<Event>): Table {
    if events == [] then map[] else Step(Run(events[..|events| - 1]), events[|events| - 1])
  }

  // ----- the ideal table: nothing expires, only revocation removes -----

  datatype Grant = Grant(createdAt: int, rememberMe: bool)

  /** One step of the ideal table. */
  function GrantStep(g: map<string, Grant>, e: Event): map<string, Grant> {
    match e
    case Create(token, rememberMe, now) => g[token := Grant(now, rememberMe)]
    case Logout(bearer, _) => if bearer.Some? then g - {bearer.value} else g
    case ResetPassword(_) => map[]
    case ChangePassword(keep, _) => map token | token in g && keep == Some(token) :: g[token]
    case _ => g
  }

  /** The tokens issued and not revoked by logout, reset or password change. */
  function Granted(events: seq<Event>): map<string, Grant> {
    if events == [] then map[]
    else GrantStep(Granted(events[..|events| - 1]), events[|events| - 1])
  }

  predicate Alive(g: Grant, now: int) {
    now <= g.createdAt + Lifetime(g.rememberMe)
  }

  /** The clock never runs backwards. */
  ghost predicate Clocked(events: seq<Event>) {
    forall i, j :: 0 <= i <= j < |events| ==> events[i].now <= events[j].now
  }

  // ----- what every run keeps -----

  /** The table holds granted sessions only, with their deadline, last used after they were
      made; and every granted session that is still alive is in it. */
  ghost predicate Agrees(t: Table, g: map<string, Grant>, clock: int) {
    && (forall token :: token in t ==>
          && token in g
          && t[token].createdAt == g[token].createdAt && t[token].rememberMe == g[token].rememberMe
          && t[token].expiresAt == g[token].createdAt + Lifetime(g[token].rememberMe)
          && g[token].createdAt <= t[token].lastActivity)
    && (forall token :: token in g && Alive(g[token], clock) ==> token in t)
    && (forall token :: token in g ==> g[token].createdAt <= clock)
  }

  /** The idle test never fires before the deadline does. */
  lemma IdleTestIsSubsumed(t: Table, g: map<string, Grant>, clock: int, token: string, now: int)
    requires Agrees(t, g, clock) && token in t
    ensures Stale(t[token], now) <==> !Alive(g[token], now)
  {
  }

  /** Requests and sweeps drop or touch entries; nobody is granted or revoked anything. */
  lemma LookKeepsAgreement(t: Table, g: map<string, Grant>, e: Event, clock: int)
    requires Agrees(t, g, clock) && clock <= e.now && (e.Authenticate? || e.Sweep?)
    ensures Agrees(Step(t, e), g, e.now)
  {
  }

  lemma StepKeepsAgreement(t: Table, g: map<string, Grant>, e: Event, clock: int)
    requires Agrees(t, g, clock) && clock <= e.now
    ensures Agrees(Step(t, e), GrantStep(g, e), e.now)
  {
    if e.Authenticate? || e.Sweep? {
      LookKeepsAgreement(t, g, e, clock);
    }
  }

  lemma TimePasses(t: Table, g: map<string, Grant>, clock: int, later: int)
    requires Agrees(t, g, clock) && clock <= later
    ensures Agrees(t, g, later)
  {
  }

  lemma {:induction false} RunAgrees(events: seq<Event>, clock: int)
    requires Clocked(events) && (events != [] ==> events[|events| - 1].now <= clock)
    ensures Agrees(Run(events), Granted(events), clock)
  {
    if events != [] {
      var front, last := events[..|events| - 1], events[|events| - 1];
      RunAgrees(front, last.now);
      StepKeepsAgreement(Run(front), Granted(front), last, last.now);
      hide Agrees, Step, GrantStep;
      TimePasses(Run(events), Granted(events), last.now, clock);
    }
  }

  /** The event revokes `token`. */
  predicate Revokes(e: Event, token: string) {
    match e
    case Logout(bearer, _) => bearer == Some(token)
    case ResetPassword(_) => true
    case ChangePassword(keep, _) => keep != Some(token)
    case _ => false
  }

  /** The `i`-th event issued `token`, which has not been issued again or revoked since. */
  ghost predicate IssuedAt(events: seq<Event>, token: string, i: int) {
    && 0 <= i < |events| && events[i].Create? && events[i].token == token
    && forall j :: i < j < |events| ==> !Revokes(events[j], token) && !(events[j].Create? && events[j].token == token)
  }

  /** The token stands, and is at most 3 hours old if it is remembered and 30 minutes if not. */
  ghost predicate IsValidToken(events: seq<Event>, token: string, now: int) {
    exists i :: IssuedAt(events, token, i)
                && now <= events[i].now + if events[i].rememberMe then 3 * 60 * 60 * 1000 else 30 * 60 * 1000
  }

  lemma {:induction false} GrantedIs(events: seq<Event>, token: string)
    ensures token in Granted(events) <==> exists i :: IssuedAt(events, token, i)
    ensures forall i :: IssuedAt(events, token, i) ==>
              token in Granted(events) && Granted(events)[token] == Grant(events[i].now, events[i].rememberMe)
  {
    if events != [] {
      var front, last := events[..|events| - 1], events[|events| - 1];
      GrantedIs(front, token);
      GrantStepIs(Granted(front), last, token);
      forall i | 0 <= i < |front|
        ensures IssuedAt(events, token, i) <==> IssuedAt(front, token, i) && !Revokes(last, token) && !(last.Create? && last.token == token)
      {
        IssuedStep(front, last, token, i);
        assert events == front + [last];
      }
      hide GrantStep, Revokes;
      if last.Create? && last.token == token {
        assert IssuedAt(events, token, |front|);
      } else if token in Granted(events) {
        var i :| IssuedAt(front, token, i);
        assert IssuedAt(events, token, i);
      }
    }
  }

  lemma GrantStepIs(g: map<string, Grant>, e: Event, token: string)
    ensures e.Create? && e.token == token ==> token in GrantStep(g, e) && GrantStep(g, e)[token] == Grant(e.now, e.rememberMe)
    ensures !(e.Create? && e.token == token) ==>
              && (token in GrantStep(g, e) <==> token in g && !Revokes(e, token))
              && (token in GrantStep(g, e) ==> GrantStep(g, e)[token] == g[token])
  {
  }

  lemma IssuedStep(front: seq<Event>, last: Event, token: string, i: nat)
    requires i < |front|
    ensures IssuedAt(front + [last], token, i) <==>
              IssuedAt(front, token, i) && !Revokes(last, token) && !(last.Create? && last.token == token)
  {
    var events := front + [last];
    hide Revokes;
    assert events[i] == front[i] && events[|front|] == last;
    if IssuedAt(events, token, i) {
      forall j | i < j < |front| ensures !Revokes(front[j], token) && !(front[j].Create? && front[j].token == token) {
        assert events[j] == front[j];
      }
    }
  }

  /** A request authenticates exactly when its token was issued, has not been revoked, and
      is no older than its lifetime. */
  lemma AuthenticatesIffAlive(events: seq<Event>, request: Option<string>, now: int)
    requires Clocked(events) && (events != [] ==> events[|events| - 1].now <= now)
    ensures Accepts(Run(events), request, now) <==>
              request.Some? && request.value != "" && request.value in Granted(events)
              && Alive(Granted(events)[request.value], now)
    ensures Accepts(Run(events), request, now) <==>
              request.Some? && request.value != "" && IsValidToken(events, request.value, now)
  {
    RunAgrees(events, now);
    if request.Some? {
      if request.value in Run(events) {
        IdleTestIsSubsumed(Run(events), Granted(events), now, request.value, now);
      }
      ValidIffAlive(events, request.value, now);
    }
    hide Stale, IsValidToken;
  }

  lemma ValidIffAlive(events: seq<Event>, token: string, now: int)
    ensures IsValidToken(events, token, now) <==> token in Granted(events) && Alive(Granted(events)[token], now)
  {
    GrantedIs(events, token);
    hide IssuedAt;
  }

  // ----- sweeps and checks leave no trace -----

  /** The same run without its sweeps, or without any event that only looks. */
  function Without(events: seq<Event>, drop: Event -> bool): seq<Event> {
    if events == [] then []
    else
      var front, last := Without(events[..|events| - 1], drop), events[|events| - 1];
      if drop(last) then front else front + [last]
  }

  lemma {:induction false} GrantsWithout(events: seq<Event>, drop: Event -> bool)
    requires forall e :: drop(e) ==> e.Sweep? || e.Authenticate?
    ensures Granted(Without(events, drop)) == Granted(events)
  {
    if events != [] {
      var front, last := Without(events[..|events| - 1], drop), events[|events| - 1];
      GrantsWithout(events[..|events| - 1], drop);
      if !drop(last) {
        assert (front + [last])[..|front|] == front;
      }
    }
  }

  lemma {:induction false} ClockedWithout(events: seq<Event>, drop: Event -> bool)
    requires Clocked(events)
    ensures Clocked(Without(events, drop))
    ensures forall e :: e in Without(events, drop) ==> e in events
  {
    if events != [] {
      var front, last := Without(events[..|events| - 1], drop), events[|events| - 1];
      ClockedWithout(events[..|events| - 1], drop);
      if !drop(last) {
        forall i | 0 <= i < |front| ensures front[i].now <= last.now {
          assert front[i] in front;
          assert front[i] in events[..|events| - 1];
        }
      }
    }
  }

  /** Removing any sweeps, and any earlier authentications, changes no answer. */
  lemma SweepsAreUnobservable(events: seq<Event>, drop: Event -> bool, request: Option<string>, now: int)
    requires forall e :: drop(e) ==> e.Sweep? || e.Authenticate?
    requires Clocked(events) && (events != [] ==> events[|events| - 1].now <= now)
    ensures Accepts(Run(Without(events, drop)), request, now) == Accepts(Run(events), request, now)
  {
    var w := Without(events, drop);
    ClockedWithout(events, drop);
    GrantsWithout(events, drop);
    if w != [] {
      assert w[|w| - 1] in w;
      var i :| 0 <= i < |events| && events[i] == w[|w| - 1];
      assert events[i].now <= events[|events| - 1].now;
    }
    AuthenticatesIffAlive(events, request, now);
    AuthenticatesIffAlive(w, request, now);
  }

  /** Once a token is refused it stays refused, until it is issued anew. */
  lemma RefusalIsFinal(events: seq<Event>, more: seq<Event>, token: string, now: int, later: int)
    requires Clocked(events + more) && now <= later
    requires (events != [] ==> events[|events| - 1].now <= now) && forall e :: e in more ==> now <= e.now <= later
    requires forall e :: e in more ==> !(e.Create? && e.token == token)
    requires !Accepts(Run(events), Some(token), now)
    ensures !Accepts(Run(events + more), Some(token), later)
  {
    ClockedParts(events, more);
    AuthenticatesIffAlive(events, Some(token), now);
    assert (events + more) != [] ==> (events + more)[|events + more| - 1].now <= later by {
      if more != [] { assert more[|more| - 1] in more; }
    }
    AuthenticatesIffAlive(events + more, Some(token), later);
    GrantsOnlyShrink(events, more, token);
  }

  lemma ClockedParts(events: seq<Event>, more: seq<Event>)
    requires Clocked(events + more)
    ensures Clocked(events)
  {
    assert forall i :: 0 <= i < |events| ==> (events + more)[i] == events[i];
  }

  lemma {:induction false} GrantsOnlyShrink(events: seq<Event>, more: seq<Event>, token: string)
    requires forall e :: e in more ==> !(e.Create? && e.token == token)
    ensures token in Granted(events + more) ==>
              token in Granted(events) && Granted(events + more)[token] == Granted(events)[token]
    decreases |more|
  {
    if more == [] {
      assert events + more == events;
    } else {
      var front, last := more[..|more| - 1], more[|more| - 1];
      assert (events + more)[..|events + more| - 1] == events + front;
      assert last in more;
      GrantsOnlyShrink(events, front, token);
    }
  }

  // ----- the table as it is mutated -----

  lemma LastIsLatest(events: seq<Event>, last: Event)
    requires Clocked(events + [last])
    ensures events != [] ==> events[|events| - 1].now <= last.now
  {
    if events != [] {
      assert (events + [last])[|events| - 1] == events[|events| - 1] && (events + [last])[|events|] == last;
    }
  }

  lemma AnswerIsIdeal(events: seq<Event>, request: Option<string>, now: int)
    ensures Clocked(events + [Authenticate(request, now)]) ==>
              (Accepts(Run(events), request, now) <==>
                 request.Some? && request.value != "" && IsValidToken(events, request.value, now))
  {
    if Clocked(events + [Authenticate(request, now)]) {
      ClockedParts(events, [Authenticate(request, now)]);
      LastIsLatest(events, Authenticate(request, now));
      AuthenticatesIffAlive(events, request, now);
    }
  }

  lemma RunSnoc(events: seq<Event>, e: Event)
    ensures Run(events + [e]) == Step(Run(events), e)
  {
    assert (events + [e])[..|events|] == events;
  }

  /** `events` is everything that has happened to the table so far. */
  class SessionStore {
    var sessions: Table
    ghost var events: seq<Event>

    constructor ()
      ensures Valid() && events == []
    {
      sessions := map[];
      events := [];
    }

    ghost predicate Valid()
      reads this
    {
      sessions == Run(events)
    }

    ghost method Record(e: Event)
      modifies `events
      ensures events == old(events) + [e] && Run(events) == Step(Run(old(events)), e)
    {
      RunSnoc(events, e);
      events := events + [e];
    }

    method CreateSession(token: string, rememberMe: bool, now: int)
      requires Valid()
      modifies this
      ensures Valid() && events == old(events) + [Create(token, rememberMe, now)]
      ensures sessions == Step(old(sessions), Create(token, rememberMe, now))
      ensures sessions == old(sessions)[token := Session(now, now, now + (if rememberMe then 3 * 60 else 30) * 60 * 1000, rememberMe)]
    {
      Record(Create(token, rememberMe, now));
      var expiresAt := now + (if rememberMe then SESSION_REMEMBER_LIFETIME else SESSION_ACTIVITY_TIMEOUT);
      sessions := sessions[token := Session(now, now, expiresAt, rememberMe)];
    }

    method IsAuthenticated(request: Option<string>, now: int) returns (ok: bool)
      requires Valid()
      modifies this
      ensures Valid() && events == old(events) + [Authenticate(request, now)]
      ensures ok == Accepts(old(sessions), request, now)
      ensures sessions == Step(old(sessions), Authenticate(request, now))
      ensures Clocked(events) ==>
                (ok <==> request.Some? && request.value != "" && IsValidToken(old(events), request.value, now))
      ensures forall token :: token in sessions ==> token in old(sessions)
      ensures forall token :: token in old(sessions) && request != Some(token) ==>
                token in sessions && sessions[token] == old(sessions)[token]
      ensures ok ==>
                && request.value in sessions
                && sessions[request.value] == (if old(sessions)[request.value].rememberMe then old(sessions)[request.value]
                                               else old(sessions)[request.value].(lastActivity := now))
      ensures request.Some? && request.value != "" && request.value in old(sessions) ==>
                (ok <==> now <= old(sessions)[request.value].expiresAt
                         && (old(sessions)[request.value].rememberMe
                             || now - old(sessions)[request.value].lastActivity <= 30 * 60 * 1000))
      ensures !ok && request.Some? && request.value != "" ==> request.value !in sessions
    {
      AnswerIsIdeal(events, request, now);
      hide Run, IsValidToken, Clocked;
      Record(Authenticate(request, now));
      if request.None? || request.value == "" {
        return false;
      }
      var token := request.value;
      if token !in sessions {
        return false;
      }
      var session := sessions[token];
      if now > session.expiresAt {
        sessions := sessions - {token};
        return false;
      }
      if !session.rememberMe {
        if now - session.lastActivity > SESSION_ACTIVITY_TIMEOUT {
          sessions := sessions - {token};
          return false;
        }
        sessions := sessions[token := session.(lastActivity := now)];
      }
      ok := true;
    }

    /** The interval handler: entries are deleted while the table is walked. */
    method SweepExpired(now: int)
      requires Valid()
      modifies this
      ensures Valid() && events == old(events) + [Sweep(now)]
      ensures sessions == Step(old(sessions), Sweep(now))
      ensures forall token :: token in sessions <==>
                token in old(sessions) && now <= old(sessions)[token].expiresAt
                && (old(sessions)[token].rememberMe || now - old(sessions)[token].lastActivity <= 30 * 60 * 1000)
      ensures forall token :: token in sessions ==> sessions[token] == old(sessions)[token]
    {
      hide Run;
      Record(Sweep(now));
      var todo := sessions.Keys;
      while todo != {}
        invariant todo <= sessions.Keys <= old(sessions).Keys
        invariant forall token :: token in sessions ==> sessions[token] == old(sessions)[token]
        invariant forall token :: token in old(sessions) && token !in todo ==>
                    (token in sessions <==> !Stale(old(sessions)[token], now))
        modifies `sessions
        decreases todo
      {
        var token :| token in todo;
        var session := sessions[token];
        if now > session.expiresAt {
          sessions := sessions - {token};
        } else if !session.rememberMe && now - session.lastActivity > SESSION_ACTIVITY_TIMEOUT {
          sessions := sessions - {token};
        }
        todo := todo - {token};
      }
    }

    method LogOut(bearer: Option<string>, ghost now: int)
      requires Valid()
      modifies this
      ensures Valid() && events == old(events) + [Logout(bearer, now)]
      ensures sessions == Step(old(sessions), Logout(bearer, now))
    {
      Record(Logout(bearer, now));
      if bearer.Some? {
        sessions := sessions - {bearer.value};
      }
    }

    method OnPasswordReset(ghost now: int)
      requires Valid()
      modifies this
      ensures Valid() && events == old(events) + [ResetPassword(now)]
      ensures sessions == Step(old(sessions), ResetPassword(now))
    {
      Record(ResetPassword(now));
      sessions := map[];
    }

    method OnPasswordChange(currentToken: Option<string>, ghost now: int)
      requires Valid()
      modifies this
      ensures Valid() && events == old(events) + [ChangePassword(currentToken, now)]
      ensures sessions == Step(old(sessions), ChangePassword(currentToken, now))
    {
      hide Run;
      Record(ChangePassword(currentToken, now));
      var todo := sessions.Keys;
      while todo != {}
        invariant todo <= sessions.Keys <= old(sessions).Keys
        invariant forall token :: token in sessions ==> sessions[token] == old(sessions)[token]
        invariant forall token :: token in old(sessions) && token !in todo ==>
                    (token in sessions <==> currentToken == Some(token))
        modifies `sessions
        decreases todo
      {
        var token :| token in todo;
        if currentToken != Some(token) {
          sessions := sessions - {token};
        }
        todo := todo - {token};
      }
    }
  }
}
