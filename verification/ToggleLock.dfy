/** `createAsyncLock` and the toggle store it guards. A step is what runs between two
    awaits; the steps of different calls interleave in any order. */
module ToggleLock {
  import opened Common

  // ----- the store file -----

  /** One session record as parsed from the file. */
  datatype Record = Record(disabled: bool, updatedAt: Option<int>)

  /** The store file: missing, without a usable `sessions` object, or with one. */
  datatype StoreFile = Absent | NoSessions | Sessions(sessions: map<string, Record>)

  type Store = map<string, Record>

  /** `readToggleStore`: only disabled sessions with a non-blank key survive. */
  function ReadStore(file: StoreFile): Store {
    match file
    case Absent => map[]
    case NoSessions => map[]
    case Sessions(sessions) =>
      map key | key in sessions && !IsBlank(key) && sessions[key].disabled :: Record(true, sessions[key].updatedAt)
  }

  /** The file says that the session is disabled. */
  predicate DisabledIn(file: StoreFile, key: string) {
    file.Sessions? && key in file.sessions && file.sessions[key].disabled
  }

  /** What a reader gets: the disabled sessions whose key is not blank, with their dates. */
  lemma ReadStoreIs(file: StoreFile, key: string)
    ensures key in ReadStore(file) <==> DisabledIn(file, key) && !IsBlank(key)
    ensures key in ReadStore(file) ==> ReadStore(file)[key] == Record(true, file.sessions[key].updatedAt)
  {
  }

  datatype Toggle = Toggle(sessionKey: string, disabled: bool)

  /** The session map that `setSessionActiveMemoryDisabled` writes back. */
  function Applied(store: Store, t: Toggle, now: int): Store {
    if t.disabled then store[t.sessionKey := Record(true, Some(now))] else store - {t.sessionKey}
  }

  /** `writeToggleStore(…, Object.keys(sessions).length > 0 ? { sessions } : {})` */
  function WrittenFile(store: Store): StoreFile {
    if |store| > 0 then Sessions(store) else NoSessions
  }

  /** One toggle done alone. */
  function ToggleOnce(file: StoreFile, t: Toggle, now: int): StoreFile {
    WrittenFile(Applied(ReadStore(file), t, now))
  }

  // ----- the lock -----

  /** Where a call of `withLock` stands. The task reads the store, then renames the new
      file into place; it may throw before the rename. */
  datatype Phase = Waiting | Entered | HasRead(store: Store) | Renamed(at: int) | Released(done: Option<int>)

  /** A call is blind when its read failed: it then takes the store for empty. */
  datatype Call = Call(toggle: Toggle, phase: Phase, blind: bool)

  /** The calls for one state path in call order, and the file. A call waits for the one
      before it; `AsyncLock` shows that this is what the chain of promises amounts to. */
  datatype Desk = Desk(calls: seq<Call>, file: StoreFile)

  datatype Move =
    | Arrive(toggle: Toggle)
    | Enter(k: nat)
    | Read(k: nat)
    | ReadFails(k: nat)
    | Rename(k: nat, now: int)
    | Throw(k: nat)
    | Release(k: nat)

  predicate Enabled(d: Desk, m: Move) {
    match m
    case Arrive(_) => true
    case Enter(k) => k < |d.calls| && d.calls[k].phase.Waiting? && (k > 0 ==> d.calls[k - 1].phase.Released?)
    case Read(k) => k < |d.calls| && d.calls[k].phase.Entered?
    case ReadFails(k) => k < |d.calls| && d.calls[k].phase.Entered?
    case Rename(k, _) => k < |d.calls| && d.calls[k].phase.HasRead?
    case Throw(k) => k < |d.calls| && (d.calls[k].phase.Entered? || d.calls[k].phase.HasRead?)
    case Release(k) => k < |d.calls| && d.calls[k].phase.Renamed?
  }

  function At(d: Desk, k: nat, p: Phase): Desk
    requires k < |d.calls|
  {
    d.(calls := d.calls[k := d.calls[k].(phase := p)])
  }

  function Step(d: Desk, m: Move): Desk {
    if !Enabled(d, m) then d
    else match m
      case Arrive(t) => d.(calls := d.calls + [Call(t, Waiting, false)])
      case Enter(k) => At(d, k, Entered)
      case Read(k) => d.(calls := d.calls[k := d.calls[k].(phase := HasRead(ReadStore(d.file)), blind := false)])
      case ReadFails(k) => d.(calls := d.calls[k := d.calls[k].(phase := HasRead(map[]), blind := true)])
      case Rename(k, now) =>
        At(d, k, Renamed(now)).(file := WrittenFile(Applied(d.calls[k].phase.store, d.calls[k].toggle, now)))
      case Throw(k) => At(d, k, Released(None))
      case Release(k) => At(d, k, Released(Some(d.calls[k].phase.at)))
  }

  function Run(file: StoreFile, moves: seq<Move>): Desk {
    if moves == [] then Desk([], file) else Step(Run(file, moves[..|moves| - 1]), moves[|moves| - 1])
  }

  predicate InSection(p: Phase) {
    p.Entered? || p.HasRead? || p.Renamed?
  }

  /** Calls are served in order: whoever has started waits for nobody before it. */
  ghost predicate Ordered(d: Desk) {
    forall i, j :: 0 <= i < j < |d.calls| && !d.calls[j].phase.Waiting? ==> d.calls[i].phase.Released?
  }

  /** What a call inside the section has read is what the file holds, if its read succeeded. */
  ghost predicate ReadsCurrent(d: Desk) {
    forall k :: 0 <= k < |d.calls| && d.calls[k].phase.HasRead? ==>
      d.calls[k].phase.store == if d.calls[k].blind then map[] else ReadStore(d.file)
  }

  /** The toggles that took effect, done one after the other in call order. */
  function Sequential(file: StoreFile, calls: seq<Call>): StoreFile {
    if calls == [] then file
    else
      var before, last := Sequential(file, calls[..|calls| - 1]), calls[|calls| - 1];
      if Effective(last.phase) then ToggleOnce(before, last.toggle, EffectiveAt(last.phase)) else before
  }

  /** The same, except that a blind toggle starts from nothing. */
  function Replay(file: StoreFile, calls: seq<Call>): StoreFile {
    if calls == [] then file
    else
      var before, last := Replay(file, calls[..|calls| - 1]), calls[|calls| - 1];
      After(last, before)
  }

  /** What one call makes of the file. */
  function After(call: Call, file: StoreFile): StoreFile {
    if !Effective(call.phase) then file
    else ToggleOnce(if call.blind then Absent else file, call.toggle, EffectiveAt(call.phase))
  }

  /** The new file is in place, whether or not the call has released the lock yet. */
  predicate Effective(p: Phase) {
    p.Renamed? || (p.Released? && p.done.Some?)
  }

  function EffectiveAt(p: Phase): int
    requires Effective(p)
  {
    if p.Renamed? then p.at else p.done.value
  }

  lemma {:induction false} ReplaySkips(file: StoreFile, calls: seq<Call>, k: nat)
    requires k <= |calls| && forall i :: k <= i < |calls| ==> !Effective(calls[i].phase)
    ensures Replay(file, calls) == Replay(file, calls[..k])
    decreases |calls|
  {
    if k == |calls| {
      assert calls[..k] == calls;
    } else {
      assert calls[..|calls| - 1][..k] == calls[..k];
      ReplaySkips(file, calls[..|calls| - 1], k);
    }
  }

  /** What replaying gives when call `k` is the last that may have taken effect. */
  lemma ReplayAt(file: StoreFile, calls: seq<Call>, k: nat)
    requires k < |calls| && forall i :: k < i < |calls| ==> calls[i].phase.Waiting?
    ensures Replay(file, calls) == After(calls[k], Replay(file, calls[..k]))
  {
    hide ToggleOnce;
    ReplaySkips(file, calls, k + 1);
    assert calls[..k + 1][..k] == calls[..k];
  }

  ghost predicate Inv(file: StoreFile, d: Desk) {
    Ordered(d) && ReadsCurrent(d) && d.file == Replay(file, d.calls)
  }

  lemma StepKeepsOrder(d: Desk, m: Move)
    requires Ordered(d)
    ensures Ordered(Step(d, m))
  {
    hide ReadStore, Applied, WrittenFile;
  }

  lemma StepKeepsReads(d: Desk, m: Move)
    requires Ordered(d) && ReadsCurrent(d)
    ensures ReadsCurrent(Step(d, m))
  {
    hide ReadStore, Applied, WrittenFile;
  }

  /** One call takes its next step, and nothing after it has begun. */
  lemma CallKeepsReplay(file: StoreFile, d: Desk, k: nat, call: Call, file': StoreFile)
    requires d.file == Replay(file, d.calls)
    requires k < |d.calls| && forall i :: k < i < |d.calls| ==> d.calls[i].phase.Waiting?
    requires forall before :: d.file == After(d.calls[k], before) ==> file' == After(call, before)
    ensures file' == Replay(file, d.calls[k := call])
  {
    hide After;
    ReplayAt(file, d.calls, k);
    ReplayAt(file, d.calls[k := call], k);
    assert d.calls[k := call][..k] == d.calls[..k];
  }

  lemma LaterCallsWait(d: Desk, m: Move)
    requires Ordered(d) && !m.Arrive? && Enabled(d, m)
    ensures m.k < |d.calls| && forall i :: m.k < i < |d.calls| ==> d.calls[i].phase.Waiting?
  {
  }

  lemma MoveAfter(d: Desk, m: Move, before: StoreFile)
    requires !m.Arrive? && Enabled(d, m) && ReadsCurrent(d) && d.file == After(d.calls[m.k], before)
    ensures Step(d, m).file == After(Step(d, m).calls[m.k], before)
    ensures Step(d, m).calls == d.calls[m.k := Step(d, m).calls[m.k]]
  {
    hide ReadStore;
    assert ReadStore(Absent) == map[] by { EmptyStore(); }
  }

  lemma EmptyStore()
    ensures ReadStore(Absent) == map[]
  {
  }

  lemma MoveKeepsReplay(file: StoreFile, d: Desk, m: Move)
    requires Inv(file, d) && !m.Arrive? && Enabled(d, m)
    ensures Step(d, m).file == Replay(file, Step(d, m).calls)
  {
    LaterCallsWait(d, m);
    assert |Step(d, m).calls| == |d.calls|;
    hide Replay, Step, After, Enabled, Ordered, ReadsCurrent;
    forall before | d.file == After(d.calls[m.k], before)
      ensures Step(d, m).file == After(Step(d, m).calls[m.k], before)
    {
      MoveAfter(d, m, before);
    }
    ReplayAt(file, d.calls, m.k);
    MoveAfter(d, m, Replay(file, d.calls[..m.k]));
    CallKeepsReplay(file, d, m.k, Step(d, m).calls[m.k], Step(d, m).file);
  }

  lemma StepKeepsReplay(file: StoreFile, d: Desk, m: Move)
    requires Inv(file, d)
    ensures Step(d, m).file == Replay(file, Step(d, m).calls)
  {
    if m.Arrive? {
      assert Step(d, m).calls[..|d.calls|] == d.calls;
    } else if Enabled(d, m) {
      hide Step, Replay, Enabled;
      MoveKeepsReplay(file, d, m);
    }
  }

  lemma {:induction false} RunKeepsInv(file: StoreFile, moves: seq<Move>)
    ensures Inv(file, Run(file, moves))
  {
    if moves != [] {
      var front := moves[..|moves| - 1];
      RunKeepsInv(file, front);
      StepKeepsOrder(Run(file, front), moves[|moves| - 1]);
      StepKeepsReads(Run(file, front), moves[|moves| - 1]);
      StepKeepsReplay(file, Run(file, front), moves[|moves| - 1]);
    }
  }

  // ----- what every interleaving keeps -----

  /** At most one call is inside its section, and everyone before it is done. */
  lemma MutualExclusion(file: StoreFile, moves: seq<Move>, i: nat, j: nat)
    requires i < |Run(file, moves).calls| && j < |Run(file, moves).calls|
    requires InSection(Run(file, moves).calls[i].phase) && InSection(Run(file, moves).calls[j].phase)
    ensures i == j
  {
    RunKeepsInv(file, moves);
  }

  /** The section is granted in call order: nobody has started before an earlier caller is done. */
  lemma GrantedInOrder(file: StoreFile, moves: seq<Move>, i: nat, j: nat)
    requires i < j < |Run(file, moves).calls| && !Run(file, moves).calls[j].phase.Waiting?
    ensures Run(file, moves).calls[i].phase.Released?
  {
    RunKeepsInv(file, moves);
  }

  /** No lost update: the file is the effective toggles applied alone, in call order, where a
      toggle whose read failed starts from an empty store. */
  lemma NoLostUpdate(file: StoreFile, moves: seq<Move>)
    ensures Run(file, moves).file == Replay(file, Run(file, moves).calls)
    ensures (forall c :: c in Run(file, moves).calls && Effective(c.phase) ==> !c.blind) ==>
              Run(file, moves).file == Sequential(file, Run(file, moves).calls)
  {
    RunKeepsInv(file, moves);
    if forall c :: c in Run(file, moves).calls && Effective(c.phase) ==> !c.blind {
      SightedReplay(file, Run(file, moves).calls);
    }
  }

  lemma {:induction false} SightedReplay(file: StoreFile, calls: seq<Call>)
    requires forall c :: c in calls && Effective(c.phase) ==> !c.blind
    ensures Replay(file, calls) == Sequential(file, calls)
  {
    if calls != [] {
      assert calls[|calls| - 1] in calls;
      SightedReplay(file, calls[..|calls| - 1]);
    }
  }

  /** No deadlock, also after a task has thrown: while a call is not done, some call can move. */
  lemma SomeoneCanMove(file: StoreFile, moves: seq<Move>, k: nat)
    requires k < |Run(file, moves).calls| && !Run(file, moves).calls[k].phase.Released?
    ensures exists m: Move :: !m.Arrive? && Enabled(Run(file, moves), m) && Step(Run(file, moves), m) != Run(file, moves)
  {
    var d := Run(file, moves);
    var i := FirstUnreleased(d.calls, k);
    match d.calls[i].phase {
      case Waiting => assert Enabled(d, Enter(i)) && Step(d, Enter(i)).calls[i] != d.calls[i];
      case Entered => assert Enabled(d, Read(i)) && Step(d, Read(i)).calls[i] != d.calls[i];
      case HasRead(_) => assert Enabled(d, Rename(i, 0)) && Step(d, Rename(i, 0)).calls[i] != d.calls[i];
      case Renamed(_) => assert Enabled(d, Release(i)) && Step(d, Release(i)).calls[i] != d.calls[i];
    }
  }

  lemma {:induction false} FirstUnreleased(calls: seq<Call>, k: nat) returns (i: nat)
    requires k < |calls| && !calls[k].phase.Released?
    ensures i <= k && !calls[i].phase.Released? && forall j :: 0 <= j < i ==> calls[j].phase.Released?
    decreases k
  {
    if j :| 0 <= j < k && !calls[j].phase.Released? {
      i := FirstUnreleased(calls, j);
    } else {
      i := k;
    }
  }

  /** The last effective toggle of a session, if any. */
  function LastToggle(calls: seq<Call>, key: string): Option<bool> {
    if calls == [] then None
    else
      var last := calls[|calls| - 1];
      if Effective(last.phase) && last.toggle.sessionKey == key then Some(last.toggle.disabled)
      else LastToggle(calls[..|calls| - 1], key)
  }

  /** The `i`-th call is the last that wrote the session. */
  ghost predicate IsLastToggle(calls: seq<Call>, key: string, i: int) {
    && 0 <= i < |calls| && Effective(calls[i].phase) && calls[i].toggle.sessionKey == key
    && forall j :: i < j < |calls| ==> !(Effective(calls[j].phase) && calls[j].toggle.sessionKey == key)
  }

  lemma {:induction false} LastToggleIs(calls: seq<Call>, key: string)
    ensures match LastToggle(calls, key)
            case Some(disabled) => exists i :: IsLastToggle(calls, key, i) && calls[i].toggle.disabled == disabled
            case None => forall i :: 0 <= i < |calls| ==> !(Effective(calls[i].phase) && calls[i].toggle.sessionKey == key)
  {
    if calls != [] {
      var front, last := calls[..|calls| - 1], calls[|calls| - 1];
      LastToggleIs(front, key);
      if Effective(last.phase) && last.toggle.sessionKey == key {
        assert IsLastToggle(calls, key, |calls| - 1);
      } else if LastToggle(front, key).Some? {
        var i :| IsLastToggle(front, key, i) && front[i].toggle.disabled == LastToggle(front, key).value;
        assert IsLastToggle(calls, key, i) && calls[i] == front[i];
      }
    }
  }

  /** A blind toggle of another session took effect since the last toggle of this one. */
  function Forgotten(calls: seq<Call>, key: string): bool {
    if calls == [] then false
    else
      var last := calls[|calls| - 1];
      if Effective(last.phase) && last.toggle.sessionKey == key then false
      else (Effective(last.phase) && last.blind) || Forgotten(calls[..|calls| - 1], key)
  }

  lemma {:induction false} SequentialReads(file: StoreFile, calls: seq<Call>, key: string)
    requires !IsBlank(key)
    ensures key in ReadStore(Sequential(file, calls)) <==>
            match LastToggle(calls, key) case Some(disabled) => disabled case None => key in ReadStore(file)
  {
    if calls != [] {
      var before, last := Sequential(file, calls[..|calls| - 1]), calls[|calls| - 1];
      SequentialReads(file, calls[..|calls| - 1], key);
      if Effective(last.phase) {
        ToggleReads(before, last.toggle, EffectiveAt(last.phase), key);
      }
    }
  }

  lemma {:induction false} ReplayReads(file: StoreFile, calls: seq<Call>, key: string)
    requires !IsBlank(key)
    ensures key in ReadStore(Replay(file, calls)) <==>
            key in ReadStore(Sequential(file, calls)) && !Forgotten(calls, key)
  {
    if calls != [] {
      var front, last := calls[..|calls| - 1], calls[|calls| - 1];
      ReplayReads(file, front, key);
      if Effective(last.phase) {
        ToggleReads(Sequential(file, front), last.toggle, EffectiveAt(last.phase), key);
        ToggleReads(if last.blind then Absent else Replay(file, front), last.toggle, EffectiveAt(last.phase), key);
      }
    }
  }

  lemma ToggleReads(file: StoreFile, t: Toggle, now: int, key: string)
    requires !IsBlank(key)
    ensures key in ReadStore(ToggleOnce(file, t, now)) <==>
              if t.sessionKey == key then t.disabled else key in ReadStore(file)
  {
    var s := Applied(ReadStore(file), t, now);
    if key in s { assert |s| > 0; }
  }

  /** Reading at any moment of any interleaving: a session is disabled exactly when its last
      effective toggle says so, or when there was none and the file said so at the start, and
      no blind toggle of another session has come since. */
  lemma LastToggleWins(file: StoreFile, moves: seq<Move>, key: string)
    requires !IsBlank(key)
    ensures var calls := Run(file, moves).calls;
            DisabledIn(Run(file, moves).file, key) <==>
              (match LastToggle(calls, key) case Some(disabled) => disabled case None => DisabledIn(file, key))
              && !Forgotten(calls, key)
  {
    NoLostUpdate(file, moves);
    SequentialReads(file, Run(file, moves).calls, key);
    ReplayReads(file, Run(file, moves).calls, key);
    ReadStoreIs(file, key);
    ReadStoreIs(Run(file, moves).file, key);
  }

  /** With reads that succeed, in terms of the calls: the last call that wrote a session decides,
      and dates it. */
  lemma LastCallDecides(file: StoreFile, moves: seq<Move>, key: string, i: int)
    requires !IsBlank(key) && IsLastToggle(Run(file, moves).calls, key, i)
    requires forall c :: c in Run(file, moves).calls && Effective(c.phase) ==> !c.blind
    ensures var call := Run(file, moves).calls[i];
            && (DisabledIn(Run(file, moves).file, key) <==> call.toggle.disabled)
            && (call.toggle.disabled ==> Run(file, moves).file.sessions[key] == Record(true, Some(EffectiveAt(call.phase))))
  {
    NoLostUpdate(file, moves);
    SequentialRecord(file, Run(file, moves).calls, key, i);
    ReadStoreIs(Run(file, moves).file, key);
  }

  lemma {:induction false} SequentialRecord(file: StoreFile, calls: seq<Call>, key: string, i: int)
    requires !IsBlank(key) && IsLastToggle(calls, key, i)
    ensures key in ReadStore(Sequential(file, calls)) <==> calls[i].toggle.disabled
    ensures calls[i].toggle.disabled ==> ReadStore(Sequential(file, calls))[key] == Record(true, Some(EffectiveAt(calls[i].phase)))
    decreases |calls|
  {
    var front, last := calls[..|calls| - 1], calls[|calls| - 1];
    if i < |front| {
      assert IsLastToggle(front, key, i);
      SequentialRecord(file, front, key, i);
    }
    if Effective(last.phase) {
      ToggleKeepsRecord(Sequential(file, front), last.toggle, EffectiveAt(last.phase), key);
    }
  }

  lemma ToggleKeepsRecord(file: StoreFile, t: Toggle, now: int, key: string)
    requires !IsBlank(key)
    ensures var after := ReadStore(ToggleOnce(file, t, now));
            && (t.sessionKey == key ==> (key in after <==> t.disabled) && (t.disabled ==> after[key] == Record(true, Some(now))))
            && (t.sessionKey != key ==> (key in after <==> key in ReadStore(file)) && (key in after ==> after[key] == ReadStore(file)[key]))
  {
    WrittenReads(Applied(ReadStore(file), t, now), key);
    ReadStoreIs(file, key);
    hide ReadStore, WrittenFile, IsBlank;
  }

  lemma WrittenReads(s: Store, key: string)
    requires !IsBlank(key)
    ensures key in ReadStore(WrittenFile(s)) <==> key in s && s[key].disabled
    ensures key in ReadStore(WrittenFile(s)) ==> ReadStore(WrittenFile(s))[key] == Record(true, s[key].updatedAt)
  {
    if key in s { assert |s| > 0; }
  }

  /** A session that no call has written reads as it did at the start, with its date. */
  lemma {:induction false} UntouchedRecord(file: StoreFile, calls: seq<Call>, key: string)
    requires !IsBlank(key) && forall c :: c in calls && Effective(c.phase) ==> c.toggle.sessionKey != key
    ensures key in ReadStore(Sequential(file, calls)) <==> key in ReadStore(file)
    ensures key in ReadStore(file) ==> ReadStore(Sequential(file, calls))[key] == ReadStore(file)[key]
  {
    if calls != [] {
      var front, last := calls[..|calls| - 1], calls[|calls| - 1];
      assert last in calls;
      UntouchedRecord(file, front, key);
      if Effective(last.phase) {
        ToggleKeepsRecord(Sequential(file, front), last.toggle, EffectiveAt(last.phase), key);
      }
    }
  }

  // ----- what each call may do -----

  /** A call whose predecessor is done can enter; one that is inside can go on to its end, or throw
      at any point before its rename, which releases the lock and leaves the file alone. */
  lemma CallsCanGoOn(d: Desk, k: nat, now: int)
    requires k < |d.calls|
    ensures var phase := d.calls[k].phase;
            && (phase.Waiting? && (k == 0 || d.calls[k - 1].phase.Released?) ==> Step(d, Enter(k)).calls[k].phase == Entered)
            && (phase.Waiting? && k > 0 && !d.calls[k - 1].phase.Released? ==> Step(d, Enter(k)) == d)
            && (phase.Entered? ==> Step(d, Read(k)).calls[k].phase == HasRead(ReadStore(d.file)) && Step(d, Read(k)).file == d.file)
            && (phase.Entered? ==> Step(d, ReadFails(k)).calls[k].phase == HasRead(map[]) && Step(d, ReadFails(k)).file == d.file)
            && (phase.HasRead? ==> Step(d, Rename(k, now)).calls[k].phase == Renamed(now))
            && (phase.Renamed? ==> Step(d, Release(k)).calls[k].phase == Released(Some(phase.at)) && Step(d, Release(k)).file == d.file)
            && (phase.Entered? || phase.HasRead? ==> Step(d, Throw(k)).calls[k].phase == Released(None) && Step(d, Throw(k)).file == d.file)
  {
  }

  /** After a throw the next caller gets in. */
  lemma ThrowLetsNextIn(file: StoreFile, moves: seq<Move>, k: nat)
    requires k + 1 < |Run(file, moves).calls|
    requires Run(file, moves).calls[k].phase.Entered? || Run(file, moves).calls[k].phase.HasRead?
    ensures var d := Run(file, moves + [Throw(k)] + [Enter(k + 1)]);
            k + 1 < |d.calls| && d.calls[k + 1].phase == Entered && d.file == Run(file, moves).file
  {
    RunSnoc(file, moves, Throw(k));
    RunSnoc(file, moves + [Throw(k)], Enter(k + 1));
    RunKeepsInv(file, moves);
    assert Run(file, moves).calls[k + 1].phase.Waiting?;
    hide Replay, ReadStore, Run;
  }

  lemma RunSnoc(file: StoreFile, moves: seq<Move>, m: Move)
    ensures Run(file, moves + [m]) == Step(Run(file, moves), m)
  {
    assert (moves + [m])[..|moves|] == moves;
  }

  /** The only call takes its step. */
  lemma OnlyCall(before: Call, after: Call)
    ensures [before][0 := after] == [after]
  {
  }

  lemma BlindToggleSteps(file: StoreFile, t: Toggle, now: int)
    requires !t.disabled
    ensures Step(Desk([], file), Arrive(t)) == Desk([Call(t, Waiting, false)], file)
    ensures Step(Desk([Call(t, Waiting, false)], file), Enter(0)) == Desk([Call(t, Entered, false)], file)
    ensures Step(Desk([Call(t, Entered, false)], file), ReadFails(0)) == Desk([Call(t, HasRead(map[]), true)], file)
    ensures Step(Desk([Call(t, HasRead(map[]), true)], file), Rename(0, now)) == Desk([Call(t, Renamed(now), true)], NoSessions)
  {
    OnlyCall(Call(t, Waiting, false), Call(t, Entered, false));
    OnlyCall(Call(t, Entered, false), Call(t, HasRead(map[]), true));
    OnlyCall(Call(t, HasRead(map[]), true), Call(t, Renamed(now), true));
    var sessions: Store := map[];
    assert sessions - {t.sessionKey} == map[];
  }

  /** An instance: a toggle of one session whose read fails drops a disabled other session. */
  lemma FailedReadForgets(key: string, other: string, now: int) returns (file: StoreFile, moves: seq<Move>)
    requires !IsBlank(key) && key != other
    ensures DisabledIn(Sequential(file, Run(file, moves).calls), key)
    ensures !DisabledIn(Run(file, moves).file, key)
  {
    file := Sessions(map[key := Record(true, None)]);
    var t := Toggle(other, false);
    var start: seq<Move> := [];
    moves := start + [Arrive(t)] + [Enter(0)] + [ReadFails(0)] + [Rename(0, now)];
    BlindToggleSteps(file, t, now);
    assert Run(file, start) == Desk([], file);
    var calls := [Call(t, Renamed(now), true)];
    assert key in ReadStore(file);
    assert Sequential(file, calls[..0]) == file && LastToggle(calls[..0], key) == None;
    hide Step, Run, ReadStore, IsBlank;
    RunSnoc(file, start, Arrive(t));
    RunSnoc(file, start + [Arrive(t)], Enter(0));
    RunSnoc(file, start + [Arrive(t)] + [Enter(0)], ReadFails(0));
    RunSnoc(file, start + [Arrive(t)] + [Enter(0)] + [ReadFails(0)], Rename(0, now));
    assert Run(file, moves) == Desk(calls, NoSessions);
    SequentialReads(file, calls, key);
    ReadStoreIs(Sequential(file, calls), key);
  }

  // ----- one lock per state path -----

  datatype PathMove = PathMove(path: string, move: Move)

  /** `toggleStoreLocks` maps a path to its lock, by number; every lock has the queue of its
      calls. The files are those of the file system. */
  datatype World = World(locks: map<string, nat>, queues: seq<seq<Call>>, files: map<string, StoreFile>)

  function FileOf(files: map<string, StoreFile>, path: string): StoreFile {
    if path in files then files[path] else Absent
  }

  /** The queue a path's calls are in; a path without a lock has had none. */
  function QueueOf(w: World, path: string): seq<Call> {
    if path in w.locks && w.locks[path] < |w.queues| then w.queues[w.locks[path]] else []
  }

  function DeskOf(w: World, path: string): Desk {
    Desk(QueueOf(w, path), FileOf(w.files, path))
  }

  /** `withToggleStoreLock`: the lock is looked up, or created on first use. */
  function WithLockFor(w: World, path: string): World {
    if path in w.locks then w else w.(locks := w.locks[path := |w.queues|], queues := w.queues + [[]])
  }

  function PathStep(w: World, m: PathMove): World {
    var u := WithLockFor(w, m.path);
    var d := Step(DeskOf(u, m.path), m.move);
    var id := u.locks[m.path];
    if id < |u.queues| then u.(queues := u.queues[id := d.calls], files := u.files[m.path := d.file]) else u
  }

  function RunAll(files: map<string, StoreFile>, moves: seq<PathMove>): World {
    if moves == [] then World(map[], [], files)
    else PathStep(RunAll(files, moves[..|moves| - 1]), moves[|moves| - 1])
  }

  /** No two paths share a lock. */
  ghost predicate OwnLocks(w: World) {
    && (forall p :: p in w.locks ==> w.locks[p] < |w.queues|)
    && (forall p, q :: p in w.locks && q in w.locks && p != q ==> w.locks[p] != w.locks[q])
  }

  lemma LockFacts(w: World, path: string)
    requires OwnLocks(w)
    ensures OwnLocks(WithLockFor(w, path)) && path in WithLockFor(w, path).locks
    ensures forall p :: DeskOf(WithLockFor(w, path), p) == DeskOf(w, p)
  {
  }

  lemma PathStepFacts(w: World, m: PathMove, path: string)
    requires OwnLocks(w)
    ensures OwnLocks(PathStep(w, m))
    ensures DeskOf(PathStep(w, m), path) == if path == m.path then Step(DeskOf(w, path), m.move) else DeskOf(w, path)
  {
    LockFacts(w, m.path);
    hide Step, WithLockFor;
  }

  function MovesOf(moves: seq<PathMove>, path: string): seq<Move> {
    if moves == [] then []
    else
      var front, last := MovesOf(moves[..|moves| - 1], path), moves[|moves| - 1];
      if last.path == path then front + [last.move] else front
  }

  /** Paths do not interfere: with one map of locks for all of them, each path's calls and file
      are what its own moves make of them. */
  lemma {:induction false} PathsAreIndependent(files: map<string, StoreFile>, moves: seq<PathMove>, path: string)
    ensures OwnLocks(RunAll(files, moves))
    ensures DeskOf(RunAll(files, moves), path) == Run(FileOf(files, path), MovesOf(moves, path))
  {
    if moves != [] {
      var front, last := moves[..|moves| - 1], moves[|moves| - 1];
      PathsAreIndependent(files, front, path);
      PathStepFacts(RunAll(files, front), last, path);
      var own := MovesOf(front, path);
      assert (own + [last.move])[..|own|] == own;
    }
  }
}
