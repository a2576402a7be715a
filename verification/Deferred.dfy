/**
 The deferred object of jquery.js: two "once memory" lists and a "memory" list whose first callbacks set the
 state, disable the opposite list and lock the list of progress callbacks.
 */
module Deferred {
  import opened Wrappers
  import opened Callbacks

  const MEMORY := Options(false, true, false, false)

  // The callbacks the object adds itself. User callbacks have numbers from 0 on.
  const SET_STATE := -1
  const DISABLE_OTHER := -2
  const LOCK_PROGRESS := -3

  function Own(): seq<Callback> {
    [SET_STATE, DISABLE_OTHER, LOCK_PROGRESS]
  }

  datatype Status = Pending | Resolved | Rejected

  datatype Object = Object(done: State, fail: State, progress: State, status: Status) {
    function List(resolved: bool): State {
      if resolved then done else fail
    }

    function WithList(resolved: bool, st: State): Object {
      if resolved then this.(done := st) else this.(fail := st)
    }
  }

  function New(): Object {
    var list := Add(ONCE_MEMORY, Initial(ONCE_MEMORY), Own());
    Object(list, list, Initial(MEMORY), Pending)
  }

  // The effect of a callback of the object's own; user callbacks do nothing to the object by themselves.
  function Effect(d: Object, resolved: bool, c: Callback): Object {
    if c == SET_STATE then d.(status := if resolved then Resolved else Rejected)
    else if c == DISABLE_OTHER then d.WithList(!resolved, Disable(d.List(!resolved)))
    else if c == LOCK_PROGRESS then d.(progress := Lock(d.progress))
    else d
  }

  // Goes on with a round: the effect of the callback called last, then its return.
  function GoOn(d: Object, resolved: bool): Object {
    var st := d.List(resolved);
    if !st.firing || st.log == [] then d
    else
      var d1 := Effect(d, resolved, st.log[|st.log| - 1].0);
      var st1 := d1.List(resolved);
      if st1.firing && -1 <= st1.index then d1.WithList(resolved, Return(ONCE_MEMORY, st1, true)) else d1
  }

  // Resolving or rejecting fires the list; its own three callbacks run before anything else can happen.
  function Settle(d: Object, resolved: bool, data: Data): Object {
    var st := d.List(resolved);
    var fired := FireWith(ONCE_MEMORY, st, data);
    var d1 := d.WithList(resolved, fired);
    if fired == st then d1 else GoOn(GoOn(GoOn(d1, resolved), resolved), resolved)
  }

  datatype Event =
    | Handle(resolved: bool, cbs: seq<Callback>)
    | Settled(resolved: bool, data: Data)
    | Continued(resolved: bool)
    | ProgressEvent(ev: Callbacks.Event)

  // Own callbacks have negative numbers, and the object lets nobody empty its lists.
  ghost predicate UserEvent(ev: Event) {
    && (ev.Handle? ==> forall i :: 0 <= i < |ev.cbs| ==> ev.cbs[i] >= 0)
    && (ev.ProgressEvent? ==> !ev.ev.Emptied?)
  }

  function Step(d: Object, ev: Event): Object {
    match ev
    case Handle(resolved, cbs) => d.WithList(resolved, Add(ONCE_MEMORY, d.List(resolved), cbs))
    case Settled(resolved, data) => Settle(d, resolved, data)
    case Continued(resolved) => GoOn(d, resolved)
    case ProgressEvent(e) => d.(progress := Callbacks.Step(MEMORY, d.progress, e))
  }

  function Run(evs: seq<Event>): Object {
    if evs == [] then New() else Step(Run(evs[..|evs| - 1]), evs[|evs| - 1])
  }

  // The user callbacks added to one of the two lists.
  function Handlers(evs: seq<Event>, resolved: bool): seq<Callback> {
    if evs == [] then []
    else
      var last := evs[|evs| - 1];
      Handlers(evs[..|evs| - 1], resolved) + (if last.Handle? && last.resolved == resolved then last.cbs else [])
  }

  // A list that has not fired: its own callbacks, then the users'.
  ghost predicate Fresh(st: State, users: seq<Callback>) {
    OnceMemory(st) && !st.fired && !st.firing && st.list == Some(Own() + users)
  }

  // A list that has fired: its own callbacks were called first, and every user callback once, in order.
  ghost predicate Served(st: State, users: seq<Callback>) {
    && OnceMemory(st) && st.fired && 3 <= |st.log|
    && Called(st.log) + Waiting(st) == Own() + users
    && (forall i :: 3 <= i < |st.log| ==> st.log[i].0 >= 0)
    && (st.firing ==> 3 < |st.log|)
  }

  // A list that can never fire.
  ghost predicate Dead(st: State) {
    st.list.None? && !st.firing && st.log == []
  }

  // Notifying has no effect any more.
  ghost predicate Locked(st: State) {
    st.list.None? || (st.fired && st.stack.None?)
  }

  ghost predicate Inv(d: Object, dones: seq<Callback>, fails: seq<Callback>) {
    && (d.progress.memory.Some? ==> d.progress.fired)
    && (forall i :: 0 <= i < |dones| ==> dones[i] >= 0)
    && (forall i :: 0 <= i < |fails| ==> fails[i] >= 0)
    && match d.status
    case Pending => Fresh(d.done, dones) && Fresh(d.fail, fails)
    case Resolved => Served(d.done, dones) && Dead(d.fail) && Locked(d.progress)
    case Rejected => Served(d.fail, fails) && Dead(d.done) && Locked(d.progress)
  }

  // ---- the three own callbacks ----

  lemma FreshFires(st: State, users: seq<Callback>, data: Data)
    requires Fresh(st, users)
    ensures var r := FireWith(ONCE_MEMORY, st, data);
      && OnceMemory(r) && r.firing && r.log == [(SET_STATE, data)] && r.current == data && r != st
      && Callbacks.Pending(r) == [DISABLE_OTHER, LOCK_PROGRESS] + users
  {
    var l := Own() + users;
    FireStep(st, data);
    RoundStarts(st, data);
    assert l[0..] == l && l[1..] == [DISABLE_OTHER, LOCK_PROGRESS] + users;
  }

  lemma OwnReturns(st: State, next: Callback, rest: seq<Callback>)
    requires OnceMemory(st) && st.firing && Callbacks.Pending(st) == [next] + rest
    ensures var r := Return(ONCE_MEMORY, st, true);
      && OnceMemory(r) && r.firing && r.log == st.log + [(next, st.current)] && Callbacks.Pending(r) == rest
      && r.current == st.current
  {
    ReturnCallsNext(ONCE_MEMORY, st, true);
    ReturnStep(st, true);
  }

  // Disabling the list opposite and locking progress from the second and third callback.
  lemma SettleFresh(d: Object, resolved: bool, data: Data, users: seq<Callback>)
    requires Fresh(d.List(resolved), users) && forall i :: 0 <= i < |users| ==> users[i] >= 0
    ensures var r := Settle(d, resolved, data);
      && r.status == (if resolved then Resolved else Rejected)
      && r.List(!resolved) == Disable(d.List(!resolved))
      && r.progress == Lock(d.progress)
      && Served(r.List(resolved), users) && r.List(resolved).current == data
  {
    hide Return, FireWith, OnceMemory, Callbacks.Pending, Disable, Lock;
    var st := d.List(resolved);
    FreshFires(st, users, data);
    var s0 := FireWith(ONCE_MEMORY, st, data);
    assert [DISABLE_OTHER, LOCK_PROGRESS] + users == [DISABLE_OTHER] + ([LOCK_PROGRESS] + users);
    FiringIndex(s0);
    OwnReturns(s0, DISABLE_OTHER, [LOCK_PROGRESS] + users);
    var s1 := Return(ONCE_MEMORY, s0, true);
    FiringIndex(s1);
    OwnReturns(s1, LOCK_PROGRESS, users);
    var s2 := Return(ONCE_MEMORY, s1, true);
    FiringIndex(s2);
    var d0 := d.WithList(resolved, s0);
    var d1 := GoOn(d0, resolved);
    assert d1.List(resolved) == s1;
    var d2 := GoOn(d1, resolved);
    assert d2.List(resolved) == s2;
    var d3 := GoOn(d2, resolved);
    assert d3.List(resolved) == Return(ONCE_MEMORY, s2, true);
    assert Settle(d, resolved, data) == d3;
    LastReturn(s2, users, data);
  }

  lemma FiringIndex(st: State)
    requires OnceMemory(st) && st.firing
    ensures -1 <= st.index
  {
  }

  lemma LastReturn(st: State, users: seq<Callback>, data: Data)
    requires OnceMemory(st) && st.firing && Callbacks.Pending(st) == users
    requires st.log == [(SET_STATE, data)] + [(DISABLE_OTHER, data)] + [(LOCK_PROGRESS, data)]
    requires st.current == data
    requires forall i :: 0 <= i < |users| ==> users[i] >= 0
    ensures Served(Return(ONCE_MEMORY, st, true), users) && Return(ONCE_MEMORY, st, true).current == data
  {
    ReturnStep(st, true);
    if users != [] {
      ReturnCallsNext(ONCE_MEMORY, st, true);
    } else {
      EndRoundOnce(st.(index := st.index + 1));
    }
    assert Called(st.log) == Own();
    var r := Return(ONCE_MEMORY, st, true);
    UsersCalled(r, users);
  }

  // Calls behind the object's own three go to users.
  lemma UsersCalled(st: State, users: seq<Callback>)
    requires Called(st.log) + Waiting(st) == Own() + users
    requires forall i :: 0 <= i < |users| ==> users[i] >= 0
    ensures forall i :: 3 <= i < |st.log| ==> st.log[i].0 >= 0
  {
    forall i | 3 <= i < |st.log| ensures st.log[i].0 >= 0 {
      assert (Called(st.log) + Waiting(st))[i] == Called(st.log)[i] == (Own() + users)[i] == users[i - 3];
    }
  }

  // ---- the list of progress callbacks ----

  // A round ends with the list fired, and a locked list stays locked.
  lemma {:induction false} RoundKeepsFired(o: Options, st: State)
    requires st.firing && st.fired
    ensures EndRound(o, st).fired && (st.stack.None? ==> EndRound(o, st).list.None? || EndRound(o, st).stack.None?)
    decreases if st.stack.Some? then |st.stack.value| else 0, 0
  {
    if st.list.Some? && st.stack.Some? && st.stack.value != [] {
      BeginKeepsFired(o, st.(firing := false, stack := Some(st.stack.value[1..])), st.stack.value[0]);
    }
  }

  lemma {:induction false} BeginKeepsFired(o: Options, st: State, data: Data)
    requires st.list.Some?
    ensures var r := BeginRound(o, st, data); r.fired && (st.stack.None? ==> r.list.None? || r.stack.None?)
    decreases if st.stack.Some? then |st.stack.value| else 0, 1
  {
    var s := st.(memory := if o.memory then Some(data) else None, fired := true, firing := true, current := data,
                 index := st.start, start := 0, length := |st.list.value|);
    assert BeginRound(o, st, data) == LoopHead(o, s);
    RoundKeepsFired(o, s);
  }

  lemma {:induction false} RemoveKeeps(st: State, cbs: seq<Callback>)
    ensures var r := Remove(st, cbs);
      r.fired == st.fired && r.stack == st.stack && r.memory == st.memory && r.list.None? == st.list.None?
    decreases |cbs|
  {
    if cbs == [] {
    } else {
      RemoveKeeps(RemoveOne(st, cbs[0]), cbs[1..]);
    }
  }

  lemma ProgressStep(st: State, ev: Callbacks.Event)
    requires st.memory.Some? ==> st.fired
    ensures var r := Callbacks.Step(MEMORY, st, ev);
      && (r.memory.Some? ==> r.fired)
      && (Locked(st) && !ev.Emptied? ==> Locked(r) && (ev.Fired? ==> r == st))
  {
    hide BeginRound, EndRound, Pushed, Remove;
    match ev
    case Added(cbs) =>
      if st.list.Some? && !st.firing && st.memory.Some? {
        BeginKeepsFired(MEMORY, st.(list := Some(Pushed(MEMORY, st.list.value, cbs)), start := |st.list.value|), st.memory.value);
      }
    case Removed(cbs) => RemoveKeeps(st, cbs);
    case Fired(data) =>
      if st.list.Some? {
        BeginKeepsFired(MEMORY, st, data);
      }
    case Returned(result) => ProgressReturn(st, result);
    case Emptied =>
  }

  lemma ProgressReturn(st: State, result: bool)
    requires st.memory.Some? ==> st.fired
    ensures var r := Callbacks.Step(MEMORY, st, Returned(result));
      (r.memory.Some? ==> r.fired) && (Locked(st) ==> Locked(r))
  {
    if st.firing && -1 <= st.index {
      var s := st.(index := st.index + 1);
      assert Return(MEMORY, st, result) == LoopHead(MEMORY, s);
      if st.fired {
        RoundKeepsFired(MEMORY, s);
      } else {
        EndRoundUnfired(s);
      }
    }
  }

  lemma EndRoundUnfired(st: State)
    requires st.firing && st.memory.None? && !st.fired
    ensures var r := EndRound(MEMORY, st); (r.memory.Some? ==> r.fired) && (st.list.None? ==> r.list.None?)
  {
    if st.list.Some? && st.stack.Some? && st.stack.value != [] {
      BeginKeepsFired(MEMORY, st.(firing := false, stack := Some(st.stack.value[1..])), st.stack.value[0]);
    }
  }

  // ---- one event ----

  lemma HandleStep(d: Object, resolved: bool, cbs: seq<Callback>, dones: seq<Callback>, fails: seq<Callback>)
    requires Inv(d, dones, fails) && forall i :: 0 <= i < |cbs| ==> cbs[i] >= 0
    ensures forall i :: 0 <= i < |dones + cbs| ==> (dones + cbs)[i] >= 0
    ensures forall i :: 0 <= i < |fails + cbs| ==> (fails + cbs)[i] >= 0
    ensures Inv(Step(d, Handle(resolved, cbs)), if resolved then dones + cbs else dones, if resolved then fails else fails + cbs)
  {
    hide Called, Waiting, OnceMemory, Add, Own;
    var st := d.List(resolved);
    var users := if resolved then dones else fails;
    var all := users + cbs;
    assert forall i :: 0 <= i < |all| ==> all[i] >= 0;
    AddToKind(st, users, cbs);
    if st.list.Some? {
      AddToList(st, users, cbs);
    }
  }

  lemma AddToKind(st: State, users: seq<Callback>, cbs: seq<Callback>)
    ensures Fresh(st, users) || Served(st, users) ==> st.list.Some?
    ensures st.list.None? ==> Add(ONCE_MEMORY, st, cbs) == st
  {
  }

  lemma AddToList(st: State, users: seq<Callback>, cbs: seq<Callback>)
    requires Fresh(st, users) || Served(st, users)
    requires forall i :: 0 <= i < |users + cbs| ==> (users + cbs)[i] >= 0
    ensures var r := Add(ONCE_MEMORY, st, cbs);
      (Fresh(st, users) ==> Fresh(r, users + cbs)) && (Served(st, users) ==> Served(r, users + cbs))
  {
    hide Called, Waiting, BeginRound;
    AddStep(st, cbs);
    PushedAll(st.list.value, cbs);
    assert Own() + users + cbs == Own() + (users + cbs);
    var r := Add(ONCE_MEMORY, st, cbs);
    if Served(st, users) {
      UsersCalled(r, users + cbs);
      AddFiring(st, cbs);
    }
  }

  lemma AddFiring(st: State, cbs: seq<Callback>)
    requires OnceMemory(st) && st.fired && (st.firing ==> 3 < |st.log|) && 3 <= |st.log|
    ensures var r := Add(ONCE_MEMORY, st, cbs); r.firing ==> 3 < |r.log|
  {
    PushedAll(st.list.value, cbs);
    if !st.firing {
      assert st.list.value + cbs == cbs && cbs[0..] == cbs;
      RoundStarts(st.(list := Some(cbs)), st.memory.value);
    }
  }

  lemma ContinueStep(d: Object, resolved: bool, dones: seq<Callback>, fails: seq<Callback>)
    requires Inv(d, dones, fails)
    ensures Inv(GoOn(d, resolved), dones, fails)
  {
    hide Called, Waiting, Return;
    var st := d.List(resolved);
    var users := if resolved then dones else fails;
    if st.firing {
      assert Served(st, users);
      ReturnStep(st, true);
      ReturnFiring(st);
      UsersCalled(Return(ONCE_MEMORY, st, true), users);
    }
  }

  lemma ReturnFiring(st: State)
    requires OnceMemory(st) && st.firing
    ensures var r := Return(ONCE_MEMORY, st, true); |st.log| <= |r.log| && (r.firing ==> |st.log| < |r.log|)
  {
    if Callbacks.Pending(st) != [] {
      ReturnCallsNext(ONCE_MEMORY, st, true);
    } else {
      EndRoundOnce(st.(index := st.index + 1));
    }
  }

  lemma SettledStep(d: Object, resolved: bool, data: Data, dones: seq<Callback>, fails: seq<Callback>)
    requires Inv(d, dones, fails)
    ensures var r := Settle(d, resolved, data);
      && Inv(r, dones, fails)
      && r.status == if d.status.Pending? then (if resolved then Resolved else Rejected) else d.status
  {
    hide Called, Waiting, Served, OnceMemory, Own;
    if d.status.Pending? {
      SettleFresh(d, resolved, data, if resolved then dones else fails);
      FreshDies(d.List(!resolved), if resolved then fails else dones);
    } else {
      SettledAgain(d.List(resolved), if resolved then dones else fails, data);
    }
  }

  lemma FreshDies(st: State, users: seq<Callback>)
    requires Fresh(st, users)
    ensures Dead(Disable(st))
  {
  }

  lemma SettledAgain(st: State, users: seq<Callback>, data: Data)
    requires Served(st, users) || Dead(st)
    ensures FireWith(ONCE_MEMORY, st, data) == st
  {
  }

  // Over any run of handlers, resolutions, rejections and notifications, with every callback free to do any
  // of these: the object settles at most once; the handlers of its outcome run, each once and in order,
  // and those of the other outcome never do; and after that no notification starts.
  lemma {:induction false} SettlesOnce(evs: seq<Event>)
    requires forall i :: 0 <= i < |evs| ==> UserEvent(evs[i])
    ensures Inv(Run(evs), Handlers(evs, true), Handlers(evs, false))
  {
    hide Step, Inv, New;
    if evs == [] {
      NewInv();
    } else {
      var before, ev := evs[..|evs| - 1], evs[|evs| - 1];
      SettlesOnce(before);
      assert UserEvent(ev);
      EventStep(Run(before), ev, Handlers(before, true), Handlers(before, false));
      assert Handlers(before, true) + [] == Handlers(before, true);
      assert Handlers(before, false) + [] == Handlers(before, false);
    }
  }

  lemma NewInv()
    ensures Inv(New(), [], [])
  {
    PushedAll([], Own());
    assert [] + Own() == Own() && Own() + [] == Own();
  }

  lemma EventStep(d: Object, ev: Event, dones: seq<Callback>, fails: seq<Callback>)
    requires Inv(d, dones, fails) && UserEvent(ev)
    ensures Inv(Step(d, ev), if ev.Handle? && ev.resolved then dones + ev.cbs else dones,
                             if ev.Handle? && !ev.resolved then fails + ev.cbs else fails)
  {
    hide Add, Settle, GoOn, Callbacks.Step, Fresh, Served, Dead;
    match ev
    case Handle(resolved, cbs) => HandleStep(d, resolved, cbs, dones, fails);
    case Settled(resolved, data) => SettledStep(d, resolved, data, dones, fails);
    case Continued(resolved) => ContinueStep(d, resolved, dones, fails);
    case ProgressEvent(e) => ProgressStep(d.progress, e);
  }

  // Once settled, the status never changes again, whatever is called.
  lemma StatusFinal(d: Object, ev: Event, dones: seq<Callback>, fails: seq<Callback>)
    requires Inv(d, dones, fails) && UserEvent(ev) && !d.status.Pending?
    ensures Step(d, ev).status == d.status
  {
    hide Called, Waiting, OnceMemory, Own, Settle, Add, Return;
    match ev
    case Handle(_, _) =>
    case Settled(resolved, data) => SettledStep(d, resolved, data, dones, fails);
    case Continued(resolved) => ContinueStep(d, resolved, dones, fails);
    case ProgressEvent(_) =>
  }

  // ---- the outcome ----

  // The first resolve or reject, with its arguments.
  function FirstSettled(evs: seq<Event>): Option<(bool, Data)> {
    if evs == [] then None
    else
      var first := FirstSettled(evs[..|evs| - 1]);
      if first.Some? then first
      else if evs[|evs| - 1].Settled? then Some((evs[|evs| - 1].resolved, evs[|evs| - 1].data))
      else None
  }

  ghost predicate Outcome(d: Object, first: Option<(bool, Data)>) {
    match first
    case None => d.status.Pending?
    case Some((resolved, data)) => d.status == (if resolved then Resolved else Rejected) && d.List(resolved).current == data
  }

  lemma AnyAddKeepsData(st: State, users: seq<Callback>, cbs: seq<Callback>)
    requires Served(st, users)
    ensures Add(ONCE_MEMORY, st, cbs).current == st.current
  {
    hide Called, Waiting;
    AddStep(st, cbs);
  }

  lemma OutcomeStep(d: Object, ev: Event, dones: seq<Callback>, fails: seq<Callback>, first: Option<(bool, Data)>)
    requires Inv(d, dones, fails) && UserEvent(ev) && Outcome(d, first)
    ensures Outcome(Step(d, ev), if first.Some? || !ev.Settled? then first else Some((ev.resolved, ev.data)))
  {
    hide Called, Waiting, Return, Own, OnceMemory;
    match ev
    case Handle(resolved, cbs) =>
      if first.Some? && first.value.0 == resolved {
        AnyAddKeepsData(d.List(resolved), if resolved then dones else fails, cbs);
      }
    case Settled(resolved, data) =>
      if first.None? {
        SettleFresh(d, resolved, data, if resolved then dones else fails);
      } else {
        SettledAgain(d.List(resolved), if resolved then dones else fails, data);
      }
    case Continued(resolved) =>
      var st := d.List(resolved);
      if st.firing {
        ContinueKeepsData(st, if resolved then dones else fails);
      }
    case ProgressEvent(_) =>
  }

  lemma ContinueKeepsData(st: State, users: seq<Callback>)
    requires Served(st, users) && st.firing
    ensures Return(ONCE_MEMORY, st, true).current == st.current
  {
    ReturnStep(st, true);
  }

  // The outcome is that of the first resolve or reject, and every handler of it is called with its arguments.
  lemma {:induction false} OutcomeIsFirst(evs: seq<Event>)
    requires forall i :: 0 <= i < |evs| ==> UserEvent(evs[i])
    ensures Outcome(Run(evs), FirstSettled(evs))
    ensures match FirstSettled(evs)
      case None => true
      case Some((resolved, data)) =>
        forall i :: 0 <= i < |Run(evs).List(resolved).log| ==> Run(evs).List(resolved).log[i].1 == data
  {
    hide Step, Inv, New;
    SettlesOnce(evs);
    if evs == [] {
      NewIsPending();
    } else {
      var before, ev := evs[..|evs| - 1], evs[|evs| - 1];
      OutcomeIsFirst(before);
      SettlesOnce(before);
      OutcomeStep(Run(before), ev, Handlers(before, true), Handlers(before, false), FirstSettled(before));
    }
    if FirstSettled(evs).Some? {
      SettledLog(Run(evs), Handlers(evs, true), Handlers(evs, false), FirstSettled(evs).value.0);
    }
  }

  lemma NewIsPending()
    ensures New().status == Pending
  {
  }

  lemma SettledLog(d: Object, dones: seq<Callback>, fails: seq<Callback>, resolved: bool)
    requires Inv(d, dones, fails) && d.status == if resolved then Resolved else Rejected
    ensures forall i :: 0 <= i < |d.List(resolved).log| ==> d.List(resolved).log[i].1 == d.List(resolved).current
  {
  }
}
