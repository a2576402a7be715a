/**
 The deferred object as it changes in place: three callback lists and a status, settled by the first callbacks
 of the list that fires.
 */
module DeferredObject {
  import opened Wrappers
  import opened Callbacks
  import opened CallbackList
  import opened Deferred

  class Promise {
    const done: List
    const fail: List
    const progress: List
    var status: Status

    ghost predicate Valid() {
      && done != fail && done != progress && fail != progress
      && done.options == fail.options == ONCE_MEMORY && progress.options == MEMORY
    }

    ghost function Value(): Object
      reads this, done, fail, progress
    {
      Object(done.St(), fail.St(), progress.St(), status)
    }

    function ListOf(resolved: bool): List {
      if resolved then done else fail
    }

    constructor ()
      ensures Valid() && fresh(done) && fresh(fail) && fresh(progress)
      ensures Value() == New()
    {
      var done := new List(ONCE_MEMORY);
      var fail := new List(ONCE_MEMORY);
      var progress := new List(MEMORY);
      done.AddAll(Own());
      fail.AddAll(Own());
      this.done, this.fail, this.progress, status := done, fail, progress, Status.Pending;
    }

    method AddHandlers(resolved: bool, cbs: seq<Callback>)
      requires Valid()
      modifies done, fail
      ensures Value() == Deferred.Step(old(Value()), Deferred.Event.Handle(resolved, cbs))
    {
      ListOf(resolved).AddAll(cbs);
    }

    method Notify(data: Data)
      requires Valid()
      modifies progress
      ensures Value() == Deferred.Step(old(Value()), ProgressEvent(Callbacks.Event.Fired(data)))
    {
      progress.FireWith(data);
    }

    // What the callback that is running does to the object.
    method Run(resolved: bool, c: Callback)
      requires Valid()
      modifies this, done, fail, progress
      ensures Value() == Effect(old(Value()), resolved, c)
    {
      if c == SET_STATE {
        status := if resolved then Resolved else Rejected;
      } else if c == DISABLE_OTHER {
        ListOf(!resolved).Disable();
      } else if c == LOCK_PROGRESS {
        progress.Lock();
      }
    }

    // The running callback `c` does its work and returns; the loop goes on.
    method Continue(resolved: bool, c: Callback)
      requires Valid() && Running(ListOf(resolved).St(), c)
      modifies this, done, fail, progress
      ensures Value() == Deferred.Step(old(Value()), Deferred.Event.Continued(resolved))
    {
      hide Return, Disable, Lock;
      Run(resolved, c);
      ListOf(resolved).ReturnFrom(true);
    }

    // The object's own three callbacks, of which the first has just been called.
    method RunOwn(resolved: bool, ghost users: seq<Callback>)
      requires Valid() && OwnStarted(ListOf(resolved).St(), users)
      modifies this, done, fail, progress
      ensures Value() == GoOn(GoOn(GoOn(old(Value()), resolved), resolved), resolved)
    {
      hide OwnStarted, GoOn, Effect, Return, Disable, Lock;
      OwnChain(Value(), resolved, users);
      Continue(resolved, SET_STATE);
      Continue(resolved, DISABLE_OTHER);
      Continue(resolved, LOCK_PROGRESS);
    }

    // Fires one list. A list that has not fired starts with the object's own three callbacks.
    method Settle(resolved: bool, data: Data, ghost dones: seq<Callback>, ghost fails: seq<Callback>)
      requires Valid() && Inv(Value(), dones, fails)
      modifies this, done, fail, progress
      ensures Value() == Deferred.Step(old(Value()), Deferred.Event.Settled(resolved, data))
    {
      hide FireWith, GoOn, Inv, Fresh, Callbacks.Pending, OnceMemory;
      var l := ListOf(resolved);
      ghost var users := if resolved then dones else fails;
      ghost var st := l.St();
      CanFire(Value(), resolved, dones, fails);
      var fires := l.list.Some? && !l.fired;
      l.FireWith(data);
      if fires {
        FreshFires(st, users, data);
        RunOwn(resolved, users);
      }
    }
  }

  // A round has called the first of the object's own callbacks and has the others before it.
  ghost predicate OwnStarted(st: State, users: seq<Callback>) {
    && OnceMemory(st) && st.firing && st.log != [] && st.log[|st.log| - 1].0 == SET_STATE
    && Callbacks.Pending(st) == [DISABLE_OTHER, LOCK_PROGRESS] + users
  }

  ghost predicate Running(st: State, c: Callback) {
    st.firing && -1 <= st.index && st.log != [] && st.log[|st.log| - 1].0 == c
  }

  // They run in turn.
  lemma OwnChain(d: Object, resolved: bool, users: seq<Callback>)
    requires OwnStarted(d.List(resolved), users)
    ensures var d1 := GoOn(d, resolved); var d2 := GoOn(d1, resolved);
      && Running(d.List(resolved), SET_STATE) && Running(d1.List(resolved), DISABLE_OTHER)
      && Running(d2.List(resolved), LOCK_PROGRESS)
  {
    hide Return, Disable, Lock, OnceMemory, Callbacks.Pending, GoOn, Effect;
    var s0 := d.List(resolved);
    assert [DISABLE_OTHER, LOCK_PROGRESS] + users == [DISABLE_OTHER] + ([LOCK_PROGRESS] + users);
    FiringIndex(s0);
    OwnReturns(s0, DISABLE_OTHER, [LOCK_PROGRESS] + users);
    EffectKeepsList(d, resolved, SET_STATE);
    var s1 := Return(ONCE_MEMORY, s0, true);
    FiringIndex(s1);
    OwnReturns(s1, LOCK_PROGRESS, users);
    EffectKeepsList(GoOn(d, resolved), resolved, DISABLE_OTHER);
    FiringIndex(Return(ONCE_MEMORY, s1, true));
  }

  // The effects of the object's own callbacks leave the list they run on as it is.
  lemma EffectKeepsList(d: Object, resolved: bool, c: Callback)
    requires d.List(resolved).firing && -1 <= d.List(resolved).index && d.List(resolved).log != []
    requires c == d.List(resolved).log[|d.List(resolved).log| - 1].0
    ensures GoOn(d, resolved).List(resolved) == Return(ONCE_MEMORY, d.List(resolved), true)
  {
    hide Return, Disable, Lock;
  }

  lemma CanFire(d: Object, resolved: bool, dones: seq<Callback>, fails: seq<Callback>)
    requires Inv(d, dones, fails)
    ensures var st := d.List(resolved);
      if st.list.Some? && !st.fired then Fresh(st, if resolved then dones else fails)
      else forall data :: FireWith(ONCE_MEMORY, st, data) == st
  {
  }
}
