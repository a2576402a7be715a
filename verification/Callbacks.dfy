/**
 Callback lists of jquery.js. A callback may add to, remove from or fire the list it runs on, so firing is cut
 into steps: the loop stands still while a callback runs and goes on when it returns.
 */
module Callbacks {
  import opened Wrappers

  type Callback = int
  type Data = int

  datatype Options = Options(once: bool, memory: bool, unique: bool, stopOnFalse: bool)

  // The closure variables. A list of None is a disabled one; a stack of None is a once-only or locked one.
  // `log` records the calls made, with their arguments.
  datatype State = State(
    list: Option<seq<Callback>>, stack: Option<seq<Data>>, memory: Option<Data>,
    fired: bool, firing: bool, index: int, length: int, start: nat, current: Data,
    log: seq<(Callback, Data)>)

  function Initial(o: Options): State {
    State(Some([]), if o.once then None else Some([]), None, false, false, 0, 0, 0, 0, [])
  }

  // ---- the firing loop ----

  // The head of the loop: the callback at the index is called, or the round ends.
  function LoopHead(o: Options, st: State): (r: State)
    requires st.firing && st.index >= 0
    decreases if st.stack.Some? then |st.stack.value| else 0, 1
  {
    if st.list.Some? && st.index < st.length && st.index < |st.list.value| then
      st.(log := st.log + [(st.list.value[st.index], st.current)])
    else EndRound(o, st)
  }

  // After a round: the next fire on the stack, an emptied list that remembers, or a disabled one.
  function EndRound(o: Options, st: State): (r: State)
    requires st.firing
    decreases if st.stack.Some? then |st.stack.value| else 0, 0
  {
    var s := st.(firing := false);
    if s.list.None? then s
    else if s.stack.Some? then
      if s.stack.value == [] then s
      else BeginRound(o, s.(stack := Some(s.stack.value[1..])), s.stack.value[0])
    else if s.memory.Some? then s.(list := Some([]))
    else Disable(s)
  }

  function BeginRound(o: Options, st: State, data: Data): (r: State)
    requires st.list.Some?
    decreases if st.stack.Some? then |st.stack.value| else 0, 2
  {
    LoopHead(o, st.(memory := if o.memory then Some(data) else None, fired := true, firing := true, current := data,
                    index := st.start, start := 0, length := |st.list.value|))
  }

  function Disable(st: State): State {
    st.(list := None, stack := None, memory := None)
  }

  // ---- the operations ----

  function Return(o: Options, st: State, result: bool): State
    requires st.firing && st.index >= -1
  {
    if !result && o.stopOnFalse then
      EndRound(o, st.(memory := None))
    else LoopHead(o, st.(index := st.index + 1))
  }

  function Pushed(o: Options, list: seq<Callback>, cbs: seq<Callback>): (r: seq<Callback>)
    ensures list <= r
    decreases |cbs|
  {
    if cbs == [] then list
    else Pushed(o, if o.unique && cbs[0] in list then list else list + [cbs[0]], cbs[1..])
  }

  function Add(o: Options, st: State, cbs: seq<Callback>): State {
    if st.list.None? then st
    else
      var list := Pushed(o, st.list.value, cbs);
      var s := st.(list := Some(list));
      if st.firing then s.(length := |list|)
      else if st.memory.Some? then BeginRound(o, s.(start := |st.list.value|), st.memory.value)
      else s
  }

  function Without(s: seq<Callback>, x: Callback): (r: seq<Callback>)
    ensures |r| <= |s| && x !in r
  {
    if s == [] then [] else (if s[0] == x then [] else [s[0]]) + Without(s[1..], x)
  }

  function Occurrences(s: seq<Callback>, x: Callback): nat {
    |s| - |Without(s, x)|
  }

  // How far into the list the running round has come.
  function Reached(st: State, n: nat): nat {
    if st.index + 1 < 0 then 0 else if st.index + 1 < n then st.index + 1 else n
  }

  function RemoveOne(st: State, x: Callback): State {
    if st.list.None? then st
    else
      var l := st.list.value;
      var s := st.(list := Some(Without(l, x)));
      if st.firing then
        s.(length := st.length - Occurrences(l, x), index := st.index - Occurrences(l[..Reached(st, |l|)], x))
      else s
  }

  function Remove(st: State, cbs: seq<Callback>): State
    decreases |cbs|
  {
    if cbs == [] then st else Remove(RemoveOne(st, cbs[0]), cbs[1..])
  }

  function FireWith(o: Options, st: State, data: Data): State {
    if st.list.None? || (st.fired && st.stack.None?) then st
    else if st.firing then (if st.stack.Some? then st.(stack := Some(st.stack.value + [data])) else st)
    else BeginRound(o, st, data)
  }

  function Lock(st: State): State {
    var s := st.(stack := None);
    if st.memory.None? then Disable(s) else s
  }

  function Empty(st: State): State {
    st.(list := Some([]), length := 0)
  }

  // While a round runs, its length is that of the list.
  ghost predicate Valid(st: State) {
    && (st.firing ==> st.fired && -1 <= st.index)
    && (st.firing && st.list.Some? ==> st.length == |st.list.value|)
    && st.start == 0
  }

  // The callbacks the running round has not come to yet.
  function Pending(st: State): seq<Callback> {
    if st.list.None? || !st.firing then []
    else st.list.value[Reached(st, |st.list.value|)..]
  }

  // How far the round's index stands beyond the end of the list; only emptying the list brings it there.
  function Overrun(st: State): (n: nat) {
    if st.list.Some? && st.firing && |st.list.value| < st.index + 1 then st.index + 1 - |st.list.value| else 0
  }

  // ---- removing during a round ----

  lemma WithoutUnfolds(s: seq<Callback>, x: Callback)
    ensures Without(s, x) == if s == [] then [] else (if s[0] == x then [] else [s[0]]) + Without(s[1..], x)
  {
  }

  lemma {:induction false} WithoutBoth(s: seq<Callback>, t: seq<Callback>, x: Callback)
    ensures Without(s + t, x) == Without(s, x) + Without(t, x)
  {
    hide Without;
    WithoutUnfolds(s, x);
    if s == [] {
      assert s + t == t;
    } else {
      WithoutUnfolds(s + t, x);
      assert (s + t)[1..] == s[1..] + t && (s + t)[0] == s[0];
      WithoutBoth(s[1..], t, x);
      Regrouped(if s[0] == x then [] else [s[0]], Without(s[1..], x), Without(t, x));
    }
  }

  lemma Regrouped<T>(a: seq<T>, b: seq<T>, c: seq<T>)
    ensures a + (b + c) == a + b + c
  {
  }

  lemma WithoutConcat(s: seq<Callback>, t: seq<Callback>, x: Callback)
    ensures Without(s + t, x) == Without(s, x) + Without(t, x)
    ensures Occurrences(s + t, x) == Occurrences(s, x) + Occurrences(t, x)
  {
    hide Without;
    WithoutBoth(s, t, x);
  }

  // Removing a callback, in whatever list, takes it out of what the round has still to call and leaves the
  // others there in order: none is skipped and none comes twice.
  lemma RemovePending(st: State, x: Callback)
    requires Valid(st)
    ensures var r := RemoveOne(st, x);
      && Valid(r) && r.firing == st.firing && r.log == st.log && r.list.Some? == st.list.Some?
      && Pending(r) == Without(Pending(st), x) && Overrun(r) == Overrun(st)
  {
    if st.list.Some? {
      var l := st.list.value;
      var k := Reached(st, |l|);
      assert l == l[..k] + l[k..];
      WithoutConcat(l[..k], l[k..], x);
      if st.firing {
        var r := RemoveOne(st, x);
        assert r.index - |Without(l[..k], x)| == st.index - k;
        assert r.list.value == Without(l[..k], x) + Without(l[k..], x);
        if k == |l| {
          assert l[k..] == [];
        }
      }
    }
  }

  // When the callback that runs returns, the first one pending is called.
  lemma ReturnCallsNext(o: Options, st: State, result: bool)
    requires Valid(st) && st.firing && st.list.Some? && Pending(st) != [] && (result || !o.stopOnFalse)
    ensures var r := Return(o, st, result);
      r.firing && r.log == st.log + [(Pending(st)[0], st.current)] && Pending(r) == Pending(st)[1..] && Valid(r)
  {
  }

  // ---- "once memory" lists ----

  datatype Event =
    | Added(cbs: seq<Callback>) | Removed(cbs: seq<Callback>) | Fired(data: Data) | Returned(result: bool) | Emptied

  const ONCE_MEMORY := Options(true, true, false, false)

  function Step(o: Options, st: State, ev: Event): State {
    match ev
    case Added(cbs) => Add(o, st, cbs)
    case Removed(cbs) => Remove(st, cbs)
    case Fired(data) => FireWith(o, st, data)
    case Returned(result) => if st.firing && -1 <= st.index then Return(o, st, result) else st
    case Emptied => Empty(st)
  }

  function Run(o: Options, evs: seq<Event>): State {
    if evs == [] then Initial(o) else Step(o, Run(o, evs[..|evs| - 1]), evs[|evs| - 1])
  }

  // ---- every run, whatever the options ----

  lemma {:induction false} RoundValid(o: Options, st: State)
    requires st.firing && st.fired && st.start == 0
    ensures Valid(EndRound(o, st))
    decreases if st.stack.Some? then |st.stack.value| else 0, 0
  {
    if st.list.Some? && st.stack.Some? && st.stack.value != [] {
      BeginValid(o, st.(firing := false, stack := Some(st.stack.value[1..])), st.stack.value[0]);
    }
  }

  lemma {:induction false} BeginValid(o: Options, st: State, data: Data)
    requires st.list.Some?
    ensures Valid(BeginRound(o, st, data))
    decreases if st.stack.Some? then |st.stack.value| else 0, 1
  {
    var s := st.(memory := if o.memory then Some(data) else None, fired := true, firing := true, current := data,
                 index := st.start, start := 0, length := |st.list.value|);
    assert BeginRound(o, st, data) == LoopHead(o, s);
    RoundValid(o, s);
  }

  lemma {:induction false} RemoveValid(st: State, cbs: seq<Callback>)
    requires Valid(st)
    ensures Valid(Remove(st, cbs))
    decreases |cbs|
  {
    if cbs == [] {
    } else {
      RemovePending(st, cbs[0]);
      RemoveValid(RemoveOne(st, cbs[0]), cbs[1..]);
    }
  }

  lemma StepValid(o: Options, st: State, ev: Event)
    requires Valid(st)
    ensures Valid(Step(o, st, ev))
  {
    hide BeginRound, EndRound, Pushed, Remove;
    match ev
    case Added(cbs) =>
      if st.list.Some? {
        BeginValid(o, st.(list := Some(Pushed(o, st.list.value, cbs)), start := |st.list.value|), Remembered(st));
      }
    case Removed(cbs) => RemoveValid(st, cbs);
    case Fired(data) =>
      if st.list.Some? {
        BeginValid(o, st, data);
      }
    case Returned(result) =>
      if st.firing {
        RoundValid(o, st.(memory := None));
        RoundValid(o, st.(index := st.index + 1));
      }
    case Emptied =>
  }

  function Remembered(st: State): Data {
    if st.memory.Some? then st.memory.value else 0
  }

  // Every run of every kind of list keeps the round's length that of the list, so that what is proved for such
  // states, as the removal during a round, holds throughout.
  lemma {:induction false} RunIsValid(o: Options, evs: seq<Event>)
    ensures Valid(Run(o, evs))
  {
    hide Step;
    if evs == [] {
    } else {
      RunIsValid(o, evs[..|evs| - 1]);
      StepValid(o, Run(o, evs[..|evs| - 1]), evs[|evs| - 1]);
    }
  }

  // ---- what is called and what is due ----

  function Called(log: seq<(Callback, Data)>): (r: seq<Callback>)
    ensures |r| == |log|
  {
    seq(|log|, i requires 0 <= i < |log| => log[i].0)
  }

  // The callbacks still due: before the first fire all of them, during a round the pending ones.
  function Waiting(st: State): seq<Callback> {
    if st.fired then Pending(st) else if st.list.Some? then st.list.value else []
  }

  ghost predicate OnceMemory(st: State) {
    Emptiable(st) && Overrun(st) == 0
  }

  // The same for a list that may have been emptied during a round.
  ghost predicate Emptiable(st: State) {
    && Valid(st)
    && st.list.Some? && st.stack.None?
    && (st.fired ==> st.memory == Some(st.current))
    && (st.fired && !st.firing ==> st.list.value == [])
    && (!st.fired ==> st.memory.None? && st.log == [])
    && (forall i :: 0 <= i < |st.log| ==> st.log[i].1 == st.current)
  }

  function WithoutAll(s: seq<Callback>, cbs: seq<Callback>): seq<Callback>
    decreases |cbs|
  {
    if cbs == [] then s else WithoutAll(Without(s, cbs[0]), cbs[1..])
  }

  lemma {:induction false} PushedAll(list: seq<Callback>, cbs: seq<Callback>)
    ensures Pushed(ONCE_MEMORY, list, cbs) == list + cbs
    decreases |cbs|
  {
    if cbs == [] {
      assert list + cbs == list;
    } else {
      PushedAll(list + [cbs[0]], cbs[1..]);
      assert list + [cbs[0]] + cbs[1..] == list + cbs;
    }
  }

  lemma {:induction false} RemoveWaiting(st: State, cbs: seq<Callback>)
    requires Emptiable(st)
    ensures var r := Remove(st, cbs);
      Emptiable(r) && Overrun(r) == Overrun(st) && r.log == st.log && r.firing == st.firing && r.fired == st.fired && r.current == st.current
      && Waiting(r) == WithoutAll(Waiting(st), cbs)
    decreases |cbs|
  {
    if cbs == [] {
    } else {
      RemovePending(st, cbs[0]);
      RemoveWaiting(RemoveOne(st, cbs[0]), cbs[1..]);
    }
  }

  lemma EndRoundOnce(st: State)
    requires st.firing && st.stack.None? && st.list.Some? && st.memory.Some?
    ensures EndRound(ONCE_MEMORY, st) == st.(firing := false, list := Some([]))
  {
  }

  // The first callback of a round is called at once.
  lemma RoundStarts(st: State, data: Data)
    requires st.list.Some? && st.stack.None? && st.start <= |st.list.value| && !st.firing
    ensures var r := BeginRound(ONCE_MEMORY, st, data);
      var due := st.list.value[st.start..];
      if due == [] then
        r == st.(memory := Some(data), fired := true, firing := false, current := data, index := st.start, start := 0,
                 length := |st.list.value|, list := Some([]))
      else
        && r == st.(memory := Some(data), fired := true, firing := true, current := data, index := st.start, start := 0,
                    length := |st.list.value|, log := st.log + [(due[0], data)])
        && Pending(r) == due[1..]
  {
    var s := st.(memory := Some(data), fired := true, firing := true, current := data, index := st.start, start := 0,
                 length := |st.list.value|);
    assert BeginRound(ONCE_MEMORY, st, data) == LoopHead(ONCE_MEMORY, s);
    EndRoundOnce(s);
  }

  lemma CalledPlus(log: seq<(Callback, Data)>, c: Callback, data: Data)
    ensures Called(log + [(c, data)]) == Called(log) + [c]
  {
  }

  // How many of the callbacks added next the round passes over: those that come to stand where its index
  // has already been.
  function PassedOver(st: State, cbs: seq<Callback>): (k: nat)
    ensures k <= |cbs|
  {
    if Overrun(st) < |cbs| then Overrun(st) else |cbs|
  }

  // What one event does to the calls made and the calls due.
  lemma OnceMemoryStep(st: State, ev: Event)
    requires Emptiable(st)
    ensures var r := Step(ONCE_MEMORY, st, ev);
      && Emptiable(r) && st.log <= r.log
      && (st.fired ==> r.fired && r.current == st.current)
      && (r.fired ==> st.fired || (ev.Fired? && r.current == ev.data))
      && Called(r.log) + Waiting(r) == (
           match ev
           case Added(cbs) => Called(st.log) + Waiting(st) + cbs[PassedOver(st, cbs)..]
           case Removed(cbs) => Called(st.log) + WithoutAll(Waiting(st), cbs)
           case Emptied => Called(st.log)
           case _ => Called(st.log) + Waiting(st))
      && Overrun(r) == (
           match ev
           case Added(cbs) => Overrun(st) - PassedOver(st, cbs)
           case Returned(_) => 0
           case Emptied => if st.firing then st.index + 1 else 0
           case _ => Overrun(st))
  {
    hide Called, Add, Return, LoopHead, FireWith, WithoutAll;
    match ev
    case Added(cbs) =>
      if Overrun(st) == 0 {
        AddStep(st, cbs);
        assert cbs[0..] == cbs;
      } else {
        AddOverrun(st, cbs);
        assert Called(st.log) + [] == Called(st.log);
      }
    case Removed(cbs) => RemoveWaiting(st, cbs);
    case Fired(data) =>
      if Overrun(st) == 0 {
        FireStep(st, data);
      } else {
        FireAgain(st, data);
      }
    case Returned(result) =>
      if Overrun(st) == 0 {
        ReturnStep(st, result);
      } else {
        ReturnOverrun(st, result);
      }
    case Emptied =>
      assert Called(st.log) + [] == Called(st.log);
  }

  // In a round whose list was emptied, the places the index has been at are filled first.
  lemma AddOverrun(st: State, cbs: seq<Callback>)
    requires Emptiable(st) && Overrun(st) > 0
    ensures var r := Add(ONCE_MEMORY, st, cbs);
      && r == st.(list := Some(st.list.value + cbs), length := |st.list.value + cbs|)
      && Emptiable(r) && Waiting(st) == [] && Waiting(r) == cbs[PassedOver(st, cbs)..]
      && Overrun(r) == Overrun(st) - PassedOver(st, cbs)
  {
    hide Pushed;
    PushedAll(st.list.value, cbs);
    assert (st.list.value + cbs)[|st.list.value|..] == cbs;
  }

  lemma FireAgain(st: State, data: Data)
    requires Emptiable(st) && st.fired
    ensures FireWith(ONCE_MEMORY, st, data) == st
  {
  }

  // Such a round ends when the running callback returns.
  lemma ReturnOverrun(st: State, result: bool)
    requires Emptiable(st) && Overrun(st) > 0
    ensures var r := Step(ONCE_MEMORY, st, Returned(result));
      && r == st.(index := st.index + 1, firing := false, list := Some([]))
      && Emptiable(r) && Waiting(st) == Waiting(r) == [] && Overrun(r) == 0
  {
    var s := st.(index := st.index + 1);
    assert Return(ONCE_MEMORY, st, result) == LoopHead(ONCE_MEMORY, s);
    EndRoundOnce(s);
  }

  lemma AddStep(st: State, cbs: seq<Callback>)
    requires OnceMemory(st)
    ensures var r := Add(ONCE_MEMORY, st, cbs);
      && OnceMemory(r) && st.log <= r.log && r.fired == st.fired && (st.fired ==> r.current == st.current)
      && Called(r.log) + Waiting(r) == Called(st.log) + Waiting(st) + cbs
  {
    hide Called, BeginRound, Pushed;
    var l := st.list.value;
    PushedAll(l, cbs);
    var r := Add(ONCE_MEMORY, st, cbs);
    if st.firing {
      AddPending(st, cbs);
      assert Called(st.log) + (Pending(st) + cbs) == Called(st.log) + Pending(st) + cbs;
    } else if st.fired {
      assert l + cbs == cbs;
      AddAfterFire(st, cbs);
    } else {
      assert Called(st.log) + (l + cbs) == Called(st.log) + l + cbs;
    }
  }

  // Added to a list that remembers its fire, the callbacks are called at once.
  lemma AddAfterFire(st: State, cbs: seq<Callback>)
    requires OnceMemory(st) && st.fired && !st.firing
    ensures var r := BeginRound(ONCE_MEMORY, st.(list := Some(cbs), start := 0), st.memory.value);
      && OnceMemory(r) && st.log <= r.log && r.fired && r.current == st.current
      && Called(r.log) + Waiting(r) == Called(st.log) + Waiting(st) + cbs
  {
    hide Called, BeginRound;
    assert cbs[0..] == cbs;
    RoundStarts(st.(list := Some(cbs)), st.memory.value);
    if cbs != [] {
      CalledPlus(st.log, cbs[0], st.current);
      assert Called(st.log) + [cbs[0]] + cbs[1..] == Called(st.log) + [] + cbs;
    }
  }

  lemma AddPending(st: State, cbs: seq<Callback>)
    requires OnceMemory(st) && st.firing
    ensures Pending(st.(list := Some(st.list.value + cbs), length := |st.list.value + cbs|)) == Pending(st) + cbs
  {
  }

  lemma FireStep(st: State, data: Data)
    requires OnceMemory(st)
    ensures var r := FireWith(ONCE_MEMORY, st, data);
      && OnceMemory(r) && st.log <= r.log && r.fired && (st.fired ==> r == st) && (!st.fired ==> r.current == data)
      && Called(r.log) + Waiting(r) == Called(st.log) + Waiting(st)
  {
    if !st.fired {
      var l := st.list.value;
      RoundStarts(st, data);
      assert l[0..] == l;
      if l != [] {
        CalledPlus(st.log, l[0], data);
        assert Called(st.log) + [l[0]] + l[1..] == Called(st.log) + l;
      }
    }
  }

  lemma ReturnStep(st: State, result: bool)
    requires OnceMemory(st)
    ensures var r := Step(ONCE_MEMORY, st, Returned(result));
      && OnceMemory(r) && st.log <= r.log && r.fired == st.fired && (st.fired ==> r.current == st.current)
      && Called(r.log) + Waiting(r) == Called(st.log) + Waiting(st)
  {
    if st.firing {
      if Pending(st) != [] {
        ReturnCallsNext(ONCE_MEMORY, st, result);
        CalledPlus(st.log, Pending(st)[0], st.current);
        assert Called(st.log) + [Pending(st)[0]] + Pending(st)[1..] == Called(st.log) + Pending(st);
      } else {
        var s := st.(index := st.index + 1);
        assert Return(ONCE_MEMORY, st, result) == LoopHead(ONCE_MEMORY, s);
        EndRoundOnce(s);
      }
    }
  }

  // All callbacks added in a run, in order.
  function AllAdded(evs: seq<Event>): seq<Callback> {
    if evs == [] then []
    else AllAdded(evs[..|evs| - 1]) + (match evs[|evs| - 1] case Added(cbs) => cbs case _ => [])
  }

  // The argument of the first fire.
  function FirstFire(evs: seq<Event>): Option<Data> {
    if evs == [] then None
    else if evs[0].Fired? then Some(evs[0].data)
    else FirstFire(evs[1..])
  }

  lemma {:induction false} FirstFirePrefix(evs: seq<Event>, ev: Event)
    ensures FirstFire(evs + [ev]) ==
      if FirstFire(evs).Some? then FirstFire(evs) else if ev.Fired? then Some(ev.data) else None
  {
    if evs == [] {
      assert evs + [ev] == [ev];
    } else {
      assert (evs + [ev])[1..] == evs[1..] + [ev];
      FirstFirePrefix(evs[1..], ev);
    }
  }

  // Over any interleaving of adds (from outside or from running callbacks), fires and returns, the calls made
  // and the calls due are all the callbacks added, each once and in order, with the first fire's argument; and
  // once fired, a list at rest has nothing due.
  lemma {:induction false} EachCallbackRunsOnce(evs: seq<Event>)
    requires forall i :: 0 <= i < |evs| ==> !evs[i].Removed? && !evs[i].Emptied?
    ensures var st := Run(ONCE_MEMORY, evs);
      && OnceMemory(st)
      && Called(st.log) + Waiting(st) == AllAdded(evs)
      && st.fired == FirstFire(evs).Some?
      && (forall i :: 0 <= i < |st.log| ==> Some(st.log[i].1) == FirstFire(evs))
      && (st.fired && !st.firing ==> Called(st.log) == AllAdded(evs))
      && (st.fired ==> FirstFire(evs) == Some(st.current))
  {
    hide Step, Called;
    if evs == [] {
      NothingCalled();
    } else {
      var before, ev := evs[..|evs| - 1], evs[|evs| - 1];
      assert before + [ev] == evs;
      EachCallbackRunsOnce(before);
      var st := Run(ONCE_MEMORY, before);
      OnceMemoryStep(st, ev);
      assert ev.Added? ==> ev.cbs[0..] == ev.cbs;
      FirstFirePrefix(before, ev);
      if ev.Fired? {
        FireMarks(st, ev);
      }
      var r := Run(ONCE_MEMORY, evs);
      assert AllAdded(before) + [] == AllAdded(before);
      assert Called(r.log) + [] == Called(r.log);
    }
  }

  lemma NothingCalled()
    ensures Called([]) + [] == [] && Called(Initial(ONCE_MEMORY).log) == []
  {
  }

  lemma FireMarks(st: State, ev: Event)
    requires OnceMemory(st) && ev.Fired?
    ensures Step(ONCE_MEMORY, st, ev).fired
  {
    FireStep(st, ev.data);
  }

  // ---- lists that fire again and again ----

  function Calls(cbs: seq<Callback>, data: Data): (r: seq<(Callback, Data)>)
    ensures |r| == |cbs|
  {
    seq(|cbs|, i requires 0 <= i < |cbs| => (cbs[i], data))
  }

  // All callbacks with the first argument, then all with the next one, and so on.
  function Rounds(cbs: seq<Callback>, queue: seq<Data>): seq<(Callback, Data)> {
    if queue == [] then [] else Calls(cbs, queue[0]) + Rounds(cbs, queue[1..])
  }

  // The calls a list that is neither once-only nor locked has still to make: the rest of the running round,
  // then one round for every fire that is waiting.
  function Due(st: State): seq<(Callback, Data)> {
    if st.firing && st.list.Some? && st.stack.Some? then
      Calls(Pending(st), st.current) + Rounds(st.list.value, st.stack.value)
    else []
  }

  ghost predicate Queueing(st: State) {
    Valid(st) && st.list.Some? && st.stack.Some? && (!st.firing ==> st.stack.value == []) && Overrun(st) == 0
  }

  lemma CallsSplit(cbs: seq<Callback>, data: Data)
    requires cbs != []
    ensures Calls(cbs, data) == [(cbs[0], data)] + Calls(cbs[1..], data)
  {
  }

  lemma {:induction false} RoundsMore(cbs: seq<Callback>, queue: seq<Data>, data: Data)
    ensures Rounds(cbs, queue + [data]) == Rounds(cbs, queue) + Calls(cbs, data)
  {
    if queue == [] {
      assert [data][1..] == [] && [] + [data] == [data];
    } else {
      assert (queue + [data])[1..] == queue[1..] + [data];
      RoundsMore(cbs, queue[1..], data);
    }
  }

  lemma RoundsFirst(cbs: seq<Callback>, queue: seq<Data>, log: seq<(Callback, Data)>)
    requires queue != []
    ensures log + Calls(cbs, queue[0]) + Rounds(cbs, queue[1..]) == log + Rounds(cbs, queue) && cbs[0..] == cbs
  {
    hide Calls;
    assert log + Calls(cbs, queue[0]) + Rounds(cbs, queue[1..]) == log + (Calls(cbs, queue[0]) + Rounds(cbs, queue[1..]));
  }

  lemma NothingDue(st: State, log: seq<(Callback, Data)>)
    requires !st.firing
    ensures Due(st) == [] && log + [] == log && forall cbs :: Rounds(cbs, []) == []
  {
  }

  // When a round ends, exactly the waiting rounds are still due.
  lemma {:induction false} RoundEnds(o: Options, st: State)
    requires st.firing && st.fired && st.list.Some? && st.stack.Some? && st.start == 0
    ensures var r := EndRound(o, st);
      && Queueing(r) && r.list == st.list && r.log + Due(r) == st.log + Rounds(st.list.value, st.stack.value)
      && (st.stack.value == [] ==> r == st.(firing := false))
    decreases |st.stack.value|, 0
  {
    hide Due, Calls, Rounds, BeginRound, Pending;
    if st.stack.value == [] {
      NothingDue(st.(firing := false), st.log);
    } else {
      RoundBegins(o, st.(firing := false, stack := Some(st.stack.value[1..])), st.stack.value[0]);
      RoundsFirst(st.list.value, st.stack.value, st.log);
    }
  }

  lemma {:induction false} RoundBegins(o: Options, st: State, data: Data)
    requires st.list.Some? && st.stack.Some? && st.start <= |st.list.value|
    ensures var r := BeginRound(o, st, data);
      && Queueing(r) && r.list == st.list
      && r.log + Due(r) == st.log + Calls(st.list.value[st.start..], data) + Rounds(st.list.value, st.stack.value)
    decreases |st.stack.value|, 1
  {
    var l := st.list.value;
    var s := st.(memory := if o.memory then Some(data) else None, fired := true, firing := true, current := data,
                 index := st.start, start := 0, length := |l|);
    assert BeginRound(o, st, data) == LoopHead(o, s);
    if st.start < |l| {
      CallsSplit(l[st.start..], data);
      assert l[st.start..][1..] == l[st.start + 1..];
      FirstCalled(st.log, (l[st.start], data), Calls(l[st.start + 1..], data), Rounds(l, st.stack.value));
    } else {
      assert l[st.start..] == [] && st.log + [] == st.log;
      RoundEnds(o, s);
    }
  }

  lemma FirstCalled<T>(log: seq<T>, c: T, rest: seq<T>, more: seq<T>)
    ensures log + [c] + (rest + more) == log + ([c] + rest) + more
  {
  }

  // A fire adds a whole round at the end of what is due, also from a running callback; a return that does not
  // stop the round only carries on.
  lemma QueueStep(o: Options, st: State, ev: Event)
    requires Queueing(st) && (ev.Fired? || (ev.Returned? && (ev.result || !o.stopOnFalse)))
    ensures var r := Step(o, st, ev);
      && Queueing(r) && r.list == st.list
      && r.log + Due(r) == st.log + Due(st) + if ev.Fired? then Calls(st.list.value, ev.data) else []
  {
    hide BeginRound, EndRound, Rounds, Calls;
    var l := st.list.value;
    if ev.Fired? {
      if st.firing {
        RoundsMore(l, st.stack.value, ev.data);
        var due := Calls(Pending(st), st.current);
        assert st.log + (due + (Rounds(l, st.stack.value) + Calls(l, ev.data))) ==
          st.log + (due + Rounds(l, st.stack.value)) + Calls(l, ev.data);
      } else {
        RoundBegins(o, st, ev.data);
        NoRounds(l);
        assert l[0..] == l && st.log + [] + Calls(l, ev.data) == st.log + Calls(l, ev.data) + [];
      }
    } else {
      QueueReturn(o, st, ev.result);
      assert st.log + Due(st) + [] == st.log + Due(st);
    }
  }

  lemma NoRounds(l: seq<Callback>)
    ensures Rounds(l, []) == []
  {
  }

  lemma QueueReturn(o: Options, st: State, result: bool)
    requires Queueing(st) && (result || !o.stopOnFalse)
    ensures var r := Step(o, st, Returned(result));
      Queueing(r) && r.list == st.list && r.log + Due(r) == st.log + Due(st)
  {
    hide EndRound, Rounds;
    if st.firing {
      var l, p := st.list.value, Pending(st);
      var s := st.(index := st.index + 1);
      assert Return(o, st, result) == LoopHead(o, s);
      if p != [] {
        CallsSplit(p, st.current);
        assert p[0] == l[s.index] && p[1..] == l[s.index + 1..];
        FirstCalled(st.log, (p[0], st.current), Calls(p[1..], st.current), Rounds(l, st.stack.value));
        assert st.log + ([(p[0], st.current)] + Calls(p[1..], st.current)) + Rounds(l, st.stack.value) ==
          st.log + (([(p[0], st.current)] + Calls(p[1..], st.current)) + Rounds(l, st.stack.value));
      } else {
        RoundEnds(o, s);
        assert Calls(p, st.current) + Rounds(l, st.stack.value) == Rounds(l, st.stack.value);
      }
    }
  }

  // A callback that returns false ends its round at once, where the list says so, and the memory of it with it;
  // the waiting rounds come all the same.
  lemma FalseEndsRound(o: Options, st: State)
    requires Queueing(st) && st.firing && o.stopOnFalse
    ensures var r := Return(o, st, false);
      && Queueing(r) && r.log + Due(r) == st.log + Rounds(st.list.value, st.stack.value)
      && (st.stack.value == [] ==> !r.firing && r.memory == None && r.log == st.log)
  {
    RoundEnds(o, st.(memory := None));
  }

  // Adding during a round puts the new callbacks behind the pending ones; adding to a list at rest calls them, and
  // only them, with the remembered argument, if there is one.
  lemma QueueAdd(o: Options, st: State, cbs: seq<Callback>)
    requires Queueing(st)
    ensures var r, l := Add(o, st, cbs), st.list.value;
      var news := Pushed(o, l, cbs)[|l|..];
      && Queueing(r) && r.list == Some(l + news)
      && (if st.firing then r.log == st.log && Pending(r) == Pending(st) + news
          else r.log + Due(r) == st.log + if st.memory.Some? then Calls(news, st.memory.value) else [])
  {
    hide BeginRound, EndRound, Rounds, Pushed, Due, Calls;
    var l := st.list.value;
    var list := Pushed(o, l, cbs);
    assert list == l + list[|l|..];
    if st.firing {
    } else if st.memory.Some? {
      RoundBegins(o, st.(list := Some(list), start := |l|), st.memory.value);
      NoRounds(list);
      var calls := Calls(list[|l|..], st.memory.value);
      assert st.log + calls + [] == st.log + calls;
    } else {
      NothingDue(st, st.log);
      NothingDue(st.(list := Some(list)), st.log);
    }
  }

  function Fires(evs: seq<Event>): seq<Data> {
    if evs == [] then []
    else Fires(evs[..|evs| - 1]) + if evs[|evs| - 1].Fired? then [evs[|evs| - 1].data] else []
  }

  // Over any run of fires, nested ones included, and returns, a list that is not once-only makes all calls of all
  // fires: round by round in the order of the fires, each with its own argument, in the order of the list.
  lemma {:induction false} EachFireCallsAll(o: Options, cbs: seq<Callback>, evs: seq<Event>)
    requires !o.once
    requires forall i :: 0 <= i < |evs| ==> evs[i].Fired? || (evs[i].Returned? && (evs[i].result || !o.stopOnFalse))
    ensures var r := Run(o, [Added(cbs)] + evs);
      && Queueing(r) && r.list == Some(Pushed(o, [], cbs))
      && r.log + Due(r) == Rounds(Pushed(o, [], cbs), Fires(evs))
      && (!r.firing ==> r.log == Rounds(Pushed(o, [], cbs), Fires(evs)))
  {
    hide Step, Rounds, Pushed, Due, Calls, Queueing;
    if evs == [] {
      OnlyAdded(o, cbs);
    } else {
      var before, ev := evs[..|evs| - 1], evs[|evs| - 1];
      EachFireCallsAll(o, cbs, before);
      assert ([Added(cbs)] + evs)[..|evs|] == [Added(cbs)] + before;
      var st := Run(o, [Added(cbs)] + before);
      QueueStep(o, st, ev);
      if ev.Fired? {
        RoundsMore(Pushed(o, [], cbs), Fires(before), ev.data);
      } else {
        assert Fires(before) + [] == Fires(before);
        assert st.log + Due(st) + [] == st.log + Due(st);
      }
      var r := Run(o, [Added(cbs)] + evs);
      if !r.firing {
        NothingDue(r, r.log);
      }
    }
  }

  lemma OnlyAdded(o: Options, cbs: seq<Callback>)
    requires !o.once
    ensures var r := Run(o, [Added(cbs)] + []);
      Queueing(r) && r.list == Some(Pushed(o, [], cbs)) && r.log + Due(r) == [] == Rounds(Pushed(o, [], cbs), Fires([]))
      && !r.firing && r.log == []
  {
    assert [Added(cbs)] + [] == [Added(cbs)] && [Added(cbs)][..0] == [];
  }

  // A once-only list without a memory makes the calls of its first fire, and is then disabled: whatever is fired
  // or added later is never called.
  ghost predicate Spent(st: State, cbs: seq<Callback>, first: Option<Data>) {
    && Valid(st) && st.stack.None? && st.memory.None?
    && match first
       case None => !st.fired && !st.firing && st.log == [] && st.list == Some(cbs)
       case Some(data) =>
         && st.fired && st.current == data
         && (if st.firing then st.list == Some(cbs) && st.index < |cbs| && st.log + Calls(Pending(st), data) == Calls(cbs, data)
             else st.list.None? && st.log == Calls(cbs, data))
  }

  lemma SpentStep(o: Options, st: State, cbs: seq<Callback>, first: Option<Data>, ev: Event)
    requires o.once && !o.memory && Spent(st, cbs, first)
    requires ev.Fired? || (ev.Returned? && (ev.result || !o.stopOnFalse)) || (ev.Added? && !st.firing && st.fired)
    ensures Spent(Step(o, st, ev), cbs, if first.Some? || !ev.Fired? then first else Some(ev.data))
  {
    hide BeginRound, LoopHead, Calls, Pending;
    if ev.Fired? && first.None? {
      SpentFire(o, st, cbs, ev.data);
    } else if ev.Returned? && st.firing {
      SpentReturn(o, st, cbs, st.current, ev.result);
    }
  }

  lemma SpentEnd(o: Options, st: State)
    requires st.firing && st.list.Some? && st.stack.None? && st.memory.None? && 0 <= st.index && st.length <= st.index
    ensures LoopHead(o, st) == Disable(st.(firing := false))
  {
  }

  lemma SpentFire(o: Options, st: State, cbs: seq<Callback>, data: Data)
    requires o.once && !o.memory && Spent(st, cbs, None)
    ensures Spent(BeginRound(o, st, data), cbs, Some(data))
  {
    hide Calls;
    var s := st.(memory := None, fired := true, firing := true, current := data, index := 0, length := |cbs|);
    assert BeginRound(o, st, data) == LoopHead(o, s);
    if cbs == [] {
      assert Calls([], data) == [];
      SpentEnd(o, s);
    } else {
      CallsSplit(cbs, data);
      assert LoopHead(o, s) == s.(log := [] + [(cbs[0], data)]);
      assert Pending(s) == cbs[1..];
    }
  }

  lemma SpentReturn(o: Options, st: State, cbs: seq<Callback>, data: Data, result: bool)
    requires o.once && !o.memory && Spent(st, cbs, Some(data)) && st.firing && (result || !o.stopOnFalse)
    ensures Spent(Return(o, st, result), cbs, Some(data))
  {
    hide Calls;
    var s := st.(index := st.index + 1);
    assert Return(o, st, result) == LoopHead(o, s);
    var p := Pending(st);
    if p == [] {
      assert Calls(p, data) == [] && st.log + [] == st.log;
      SpentEnd(o, s);
    } else {
      CallsSplit(p, data);
      assert p[0] == cbs[s.index] && p[1..] == cbs[s.index + 1..];
      assert LoopHead(o, s) == s.(log := st.log + [(p[0], data)]);
      Regrouped(st.log, [(p[0], data)], Calls(p[1..], data));
    }
  }

  lemma {:induction false} OnceFiresOnce(o: Options, cbs: seq<Callback>, evs: seq<Event>)
    requires o.once && !o.memory
    requires forall i :: 0 <= i < |evs| ==> evs[i].Fired? || (evs[i].Returned? && (evs[i].result || !o.stopOnFalse))
    ensures Spent(Run(o, [Added(cbs)] + evs), Pushed(o, [], cbs), FirstFire(evs))
  {
    hide Step, Spent, Pushed;
    if evs == [] {
      OnceAdded(o, cbs);
    } else {
      var before, ev := evs[..|evs| - 1], evs[|evs| - 1];
      OnceFiresOnce(o, cbs, before);
      assert ([Added(cbs)] + evs)[..|evs|] == [Added(cbs)] + before;
      assert before + [ev] == evs;
      FirstFirePrefix(before, ev);
      SpentStep(o, Run(o, [Added(cbs)] + before), Pushed(o, [], cbs), FirstFire(before), ev);
    }
  }

  lemma OnceAdded(o: Options, cbs: seq<Callback>)
    requires o.once
    ensures Spent(Run(o, [Added(cbs)] + []), Pushed(o, [], cbs), FirstFire([]))
  {
    assert [Added(cbs)] + [] == [Added(cbs)] && [Added(cbs)][..0] == [];
  }

  // A unique list takes every callback once.
  lemma {:induction false} PushedUnique(o: Options, list: seq<Callback>, cbs: seq<Callback>)
    requires o.unique && forall i, j :: 0 <= i < j < |list| ==> list[i] != list[j]
    ensures var r := Pushed(o, list, cbs);
      && (forall i, j :: 0 <= i < j < |r| ==> r[i] != r[j])
      && (forall c :: c in r <==> c in list || c in cbs)
    decreases |cbs|
  {
    if cbs == [] {
    } else {
      PushedUnique(o, if cbs[0] in list then list else list + [cbs[0]], cbs[1..]);
    }
  }

  // A locked list hears no more fires once it has fired; without a memory it is disabled.
  lemma LockedIsDeaf(o: Options, st: State, data: Data)
    ensures st.fired || st.memory.None? ==> FireWith(o, Lock(st), data) == Lock(st)
    ensures st.memory.None? <==> Lock(st).list.None? && Lock(st).memory.None?
  {
  }

  // ---- emptying the list ----

  lemma {:induction false} RunIsEmptiable(evs: seq<Event>)
    ensures Emptiable(Run(ONCE_MEMORY, evs))
  {
    hide Step;
    if evs == [] {
    } else {
      RunIsEmptiable(evs[..|evs| - 1]);
      OnceMemoryStep(Run(ONCE_MEMORY, evs[..|evs| - 1]), evs[|evs| - 1]);
    }
  }

  // Of n callbacks added after the list was emptied, the first index + 1 take places the round has been at.
  function Swallowed(st: State, n: nat): (k: nat)
    ensures k <= n
  {
    if st.index + 1 < 0 then 0 else if st.index + 1 < n then st.index + 1 else n
  }

  // A callback that empties the list and adds others: the round comes to all of them exactly when there are none
  // or the index stands before the first place, which needs the callback at that place removed while it runs.
  lemma EmptiedThenAdded(st: State, cbs: seq<Callback>)
    requires OnceMemory(st) && st.firing
    ensures var r := Add(ONCE_MEMORY, Empty(st), cbs);
      var k := Swallowed(st, |cbs|);
      Pending(r) == cbs[k..] && (Pending(r) == cbs <==> cbs == [] || st.index == -1)
  {
    PushedAll([], cbs);
    assert [] + cbs == cbs;
  }

  predicate Quiet(ev: Event) {
    ev.Added? || ev.Fired?
  }

  // Until the running callback returns, the places it has been at swallow what is added.
  lemma {:induction false} AddedAfterEmptying(evs: seq<Event>, quiet: seq<Event>)
    requires Run(ONCE_MEMORY, evs).firing && forall i :: 0 <= i < |quiet| ==> Quiet(quiet[i])
    ensures var st, r := Run(ONCE_MEMORY, evs), Run(ONCE_MEMORY, evs + [Emptied] + quiet);
      var a := AllAdded(quiet);
      var k := Swallowed(st, |a|);
      && r.firing && Called(r.log) + Waiting(r) == Called(st.log) + a[k..] && Overrun(r) == st.index + 1 - k
  {
    hide Step, Called, Overrun, Emptiable, Waiting, AllAdded, Run, PassedOver, Swallowed;
    if quiet == [] {
      assert evs + [Emptied] + [] == evs + [Emptied];
      RunThen(evs, Emptied);
      RunIsEmptiable(evs);
      NothingSwallowed(evs);
      NoneAdded(Called(Run(ONCE_MEMORY, evs).log), []);
    } else {
      var before, ev := quiet[..|quiet| - 1], quiet[|quiet| - 1];
      AddedAfterEmptying(evs, before);
      RunThen(evs + [Emptied] + before, ev);
      assert evs + [Emptied] + before + [ev] == evs + [Emptied] + quiet;
      RunIsEmptiable(evs + [Emptied] + before);
      RunIsValid(ONCE_MEMORY, evs);
      LastAdded(quiet);
      OneMore(Run(ONCE_MEMORY, evs), AllAdded(before), Run(ONCE_MEMORY, evs + [Emptied] + before), ev);
    }
  }

  lemma NothingSwallowed(evs: seq<Event>)
    requires Run(ONCE_MEMORY, evs).firing && Emptiable(Run(ONCE_MEMORY, evs))
    ensures var st, r := Run(ONCE_MEMORY, evs), Step(ONCE_MEMORY, Run(ONCE_MEMORY, evs), Emptied);
      r.firing && Called(r.log) + Waiting(r) == Called(st.log) && Overrun(r) == st.index + 1 && Swallowed(st, 0) == 0
  {
    hide Called, Run;
    OnceMemoryStep(Run(ONCE_MEMORY, evs), Emptied);
  }

  // One more event before the running callback returns, for a round that was at `st` when the list was emptied.
  lemma OneMore(st: State, a: seq<Callback>, s: State, ev: Event)
    requires Valid(st) && st.firing && Emptiable(s) && s.firing && Quiet(ev)
    requires Called(s.log) + Waiting(s) == Called(st.log) + a[Swallowed(st, |a|)..]
    requires Overrun(s) == st.index + 1 - Swallowed(st, |a|)
    ensures var r := Step(ONCE_MEMORY, s, ev);
      var b := a + if ev.Added? then ev.cbs else [];
      && r.firing && Called(r.log) + Waiting(r) == Called(st.log) + b[Swallowed(st, |b|)..]
      && Overrun(r) == st.index + 1 - Swallowed(st, |b|)
  {
    hide Step, Called, Overrun, Emptiable, Waiting;
    OnceMemoryStep(s, ev);
    StaysFiring(s, ev);
    PassedOverSum(Called(st.log), a, if ev.Added? then ev.cbs else [], st.index + 1);
  }

  lemma RunThen(evs: seq<Event>, ev: Event)
    ensures Run(ONCE_MEMORY, evs + [ev]) == Step(ONCE_MEMORY, Run(ONCE_MEMORY, evs), ev)
  {
    assert (evs + [ev])[..|evs|] == evs;
  }

  lemma StaysFiring(st: State, ev: Event)
    requires st.firing && (Quiet(ev) || ev.Emptied?)
    ensures Step(ONCE_MEMORY, st, ev).firing
  {
  }

  // Passing over d of two stretches is passing over what is left of d in the second.
  lemma PassedOverSum(head: seq<Callback>, a: seq<Callback>, b: seq<Callback>, d: nat)
    ensures var k := if d < |a| then d else |a|;
      var m := if d - k < |b| then d - k else |b|;
      var n := if d < |a + b| then d else |a + b|;
      n == k + m && head + a[k..] + b[m..] == head + (a + b)[n..]
  {
  }

  // Over any run of a once-memory list: when a running callback empties the list, exactly the first callbacks
  // added before it returns are never called, as many as the index has passed; all later ones are, once and in
  // order.
  lemma {:induction false} EmptyLosesFirstAdded(evs: seq<Event>, quiet: seq<Event>, result: bool, later: seq<Event>)
    requires Run(ONCE_MEMORY, evs).firing && forall i :: 0 <= i < |quiet| ==> Quiet(quiet[i])
    requires forall i :: 0 <= i < |later| ==> !later[i].Removed? && !later[i].Emptied?
    ensures var st, r := Run(ONCE_MEMORY, evs), Run(ONCE_MEMORY, evs + [Emptied] + quiet + [Returned(result)] + later);
      var a := AllAdded(quiet);
      var k := Swallowed(st, |a|);
      && OnceMemory(r) && Called(r.log) + Waiting(r) == Called(st.log) + a[k..] + AllAdded(later)
      && r.fired && (!r.firing ==> Called(r.log) == Called(st.log) + a[k..] + AllAdded(later))
  {
    hide Step, Called, AllAdded, Waiting;
    var head := evs + [Emptied] + quiet + [Returned(result)];
    if later == [] {
      AddedAfterEmptying(evs, quiet);
      RunThen(evs + [Emptied] + quiet, Returned(result));
      assert head + [] == head;
      RunIsEmptiable(evs + [Emptied] + quiet);
      OnceMemoryStep(Run(ONCE_MEMORY, evs + [Emptied] + quiet), Returned(result));
      NoneAdded(Called(Run(ONCE_MEMORY, evs).log), AllAdded(quiet));
    } else {
      var before, ev := later[..|later| - 1], later[|later| - 1];
      EmptyLosesFirstAdded(evs, quiet, result, before);
      RunThen(head + before, ev);
      assert head + before + [ev] == head + later;
      OnceMemoryStep(Run(ONCE_MEMORY, head + before), ev);
      LastAdded(later);
    }
    AtRest(Run(ONCE_MEMORY, head + later));
  }

  lemma NoneAdded(x: seq<Callback>, a: seq<Callback>)
    ensures AllAdded([]) == []
    ensures forall k :: 0 <= k <= |a| ==> x + a[k..] + [] == x + a[k..]
  {
  }

  lemma LastAdded(evs: seq<Event>)
    requires evs != []
    ensures AllAdded(evs) == AllAdded(evs[..|evs| - 1]) + if evs[|evs| - 1].Added? then evs[|evs| - 1].cbs else []
    ensures evs[|evs| - 1].Added? ==> evs[|evs| - 1].cbs[0..] == evs[|evs| - 1].cbs
  {
  }

  lemma AtRest(st: State)
    requires OnceMemory(st) && st.fired
    ensures !st.firing ==> Waiting(st) == [] && Called(st.log) + [] == Called(st.log)
  {
  }

  // The smallest such run: of a list that was emptied once, the callback added next is lost.
  lemma EmptyLosesCallback()
    ensures var st := FireWith(ONCE_MEMORY, Add(ONCE_MEMORY, Initial(ONCE_MEMORY), [1]), 7);
      var r := Return(ONCE_MEMORY, Add(ONCE_MEMORY, Empty(st), [2]), true);
      st.log == [(1, 7)] && r.fired && !r.firing && r.list == Some([]) && r.log == [(1, 7)]
  {
    PushedAll([], [1]);
    PushedAll([], [2]);
    assert [] + [1] == [1] && [] + [2] == [2];
    var added := Add(ONCE_MEMORY, Initial(ONCE_MEMORY), [1]);
    assert added == Initial(ONCE_MEMORY).(list := Some([1]));
    RoundStarts(added, 7);
    assert [1][0..] == [1];
    var st := FireWith(ONCE_MEMORY, added, 7);
    var again := Add(ONCE_MEMORY, Empty(st), [2]);
    assert again == st.(list := Some([2]), length := 1);
    var s := again.(index := 1);
    assert Return(ONCE_MEMORY, again, true) == LoopHead(ONCE_MEMORY, s);
    EndRoundOnce(s);
  }
}
