/** `createAsyncLock` as it is written: a variable `lock` that holds the last promise of a
    chain. It refines the queue of `ToggleLock`. */
module AsyncLock {
  import opened Common
  import opened ToggleLock

  /** One state path: its lock, the calls it has received, and its file. Promises are
      numbered; promise 0 is the resolved one that the lock starts from. */
  class ToggleStoreLock {
    var lock: nat
    var promises: nat
    var resolved: set<nat>
    var previous: seq<nat>
    var own: seq<nat>
    var calls: seq<Call>
    var file: StoreFile
    ghost const first: StoreFile
    ghost var moves: seq<Move>

    constructor (file: StoreFile)
      ensures Valid() && first == file && moves == []
    {
      lock, promises, resolved := 0, 1, {0};
      previous, own, calls := [], [], [];
      this.file, first, moves := file, file, [];
    }

    ghost function Now(): Desk
      reads this
    {
      Desk(calls, file)
    }

    /** Each call waits for the promise that the call before it resolves when it is done; and
        the queue and the file are what the moves so far make of them. */
    ghost predicate Valid()
      reads this
    {
      && Now() == Run(first, moves)
      && Chained()
    }

    ghost predicate Chained()
      reads this
    {
      && |previous| == |calls| && |own| == |calls|
      && promises == |calls| + 1 && lock == |calls|
      && (forall k :: 0 <= k < |calls| ==> previous[k] == k && own[k] == k + 1)
      && (forall p :: p in resolved <==> p == 0 || (1 <= p <= |calls| && calls[p - 1].phase.Released?))
    }

    ghost method Remember(m: Move)
      modifies `moves
      ensures moves == old(moves) + [m] && Run(first, moves) == Step(Run(first, old(moves)), m)
    {
      assert (moves + [m])[..|moves|] == moves;
      moves := moves + [m];
    }

    /** `withLock(task)` up to its `await previous`. */
    method WithLock(toggle: Toggle)
      requires Valid()
      modifies this
      ensures Valid() && moves == old(moves) + [Arrive(toggle)]
      ensures Now() == Step(old(Now()), Arrive(toggle))
    {
      hide Run;
      Remember(Arrive(toggle));
      previous := previous + [lock];
      lock := promises;
      promises := promises + 1;
      own := own + [lock];
      calls := calls + [Call(toggle, Waiting, false)];
    }

    /** The call resumes only once the promise it waits for is resolved. */
    method Resume(k: nat)
      requires Valid()
      modifies this
      ensures Valid() && moves == old(moves) + [Enter(k)]
      ensures Now() == Step(old(Now()), Enter(k))
    {
      hide Run;
      Remember(Enter(k));
      if k < |calls| && calls[k].phase.Waiting? && previous[k] in resolved {
        calls := calls[k := calls[k].(phase := Entered)];
      }
    }

    /** Any error while reading gives an empty store. */
    method ReadToggleStore(k: nat, readable: bool)
      requires Valid()
      modifies this
      ensures var m := if readable then Read(k) else ReadFails(k);
              Valid() && moves == old(moves) + [m] && Now() == Step(old(Now()), m)
    {
      hide Run;
      Remember(if readable then Read(k) else ReadFails(k));
      if k < |calls| && calls[k].phase.Entered? {
        var store := if readable then ReadStore(file) else map[];
        calls := calls[k := calls[k].(phase := HasRead(store), blind := !readable)];
      }
    }

    /** The edit of the copied sessions, and the rename that ends `writeToggleStore`. */
    method WriteToggleStore(k: nat, now: int)
      requires Valid()
      modifies this
      ensures Valid() && moves == old(moves) + [Rename(k, now)]
      ensures Now() == Step(old(Now()), Rename(k, now))
    {
      hide Run;
      Remember(Rename(k, now));
      if k < |calls| && calls[k].phase.HasRead? {
        var sessions := calls[k].phase.store;
        var toggle := calls[k].toggle;
        if toggle.disabled {
          sessions := sessions[toggle.sessionKey := Record(true, Some(now))];
        } else {
          sessions := sessions - {toggle.sessionKey};
        }
        file := if |sessions| > 0 then Sessions(sessions) else NoSessions;
        calls := calls[k := calls[k].(phase := Renamed(now))];
      }
    }

    /** `finally { release() }` after the task has returned. */
    method ReturnAndRelease(k: nat)
      requires Valid()
      modifies this
      ensures Valid() && moves == old(moves) + [Release(k)]
      ensures Now() == Step(old(Now()), Release(k))
    {
      hide Run;
      Remember(Release(k));
      if k < |calls| && calls[k].phase.Renamed? {
        calls := calls[k := calls[k].(phase := Released(Some(calls[k].phase.at)))];
        resolved := resolved + {own[k]};
      }
    }

    /** `finally { release() }` after the task has thrown. */
    method ThrowAndRelease(k: nat)
      requires Valid()
      modifies this
      ensures Valid() && moves == old(moves) + [Throw(k)]
      ensures Now() == Step(old(Now()), Throw(k))
    {
      hide Run;
      Remember(Throw(k));
      if k < |calls| && (calls[k].phase.Entered? || calls[k].phase.HasRead?) {
        calls := calls[k := calls[k].(phase := Released(None))];
        resolved := resolved + {own[k]};
      }
    }
  }
}
