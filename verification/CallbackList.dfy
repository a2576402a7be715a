/**
 The callback list object: its variables are changed in place by adds, removes and fires, also in the middle of
 a round. ReturnFrom is the firing loop going on after a callback.
 */
module CallbackList {
  import opened Wrappers
  import opened Callbacks

  class List {
    const options: Options
    var list: Option<seq<Callback>>
    var stack: Option<seq<Data>>
    var memory: Option<Data>
    var fired: bool
    var firing: bool
    var index: int
    var length: int
    var start: nat
    var current: Data
    ghost var log: seq<(Callback, Data)>

    ghost function St(): State
      reads this
    {
      State(list, stack, memory, fired, firing, index, length, start, current, log)
    }

    constructor (options: Options)
      ensures this.options == options && St() == Initial(options)
    {
      this.options := options;
      list, stack, memory := Some([]), if options.once then None else Some([]), None;
      fired, firing, index, length, start, current := false, false, 0, 0, 0, 0;
      log := [];
    }

    method BeginRound(data: Data)
      requires list.Some?
      modifies this
      ensures St() == Callbacks.BeginRound(options, old(St()), data)
      decreases if stack.Some? then |stack.value| else 0, 2
    {
      memory := if options.memory then Some(data) else None;
      fired := true;
      index := start;
      start := 0;
      length := |list.value|;
      firing := true;
      current := data;
      LoopHead();
    }

    method LoopHead()
      requires firing && 0 <= index
      modifies this
      ensures St() == Callbacks.LoopHead(options, old(St()))
      decreases if stack.Some? then |stack.value| else 0, 1
    {
      if list.Some? && index < length && index < |list.value| {
        log := log + [(list.value[index], current)];
      } else {
        EndRound();
      }
    }

    method EndRound()
      requires firing
      modifies this
      ensures St() == Callbacks.EndRound(options, old(St()))
      decreases if stack.Some? then |stack.value| else 0, 0
    {
      firing := false;
      if list.Some? {
        if stack.Some? {
          if |stack.value| > 0 {
            var data := stack.value[0];
            stack := Some(stack.value[1..]);
            BeginRound(data);
          }
        } else if memory.Some? {
          list := Some([]);
        } else {
          Disable();
        }
      }
    }

    method ReturnFrom(result: bool)
      requires firing && -1 <= index
      modifies this
      ensures St() == Return(options, old(St()), result)
    {
      if !result && options.stopOnFalse {
        memory := None;
        EndRound();
      } else {
        index := index + 1;
        LoopHead();
      }
    }

    method AddAll(cbs: seq<Callback>)
      modifies this
      ensures St() == Add(options, old(St()), cbs)
    {
      if list.Some? {
        var t := |list.value|;
        for i := 0 to |cbs|
          invariant list.Some? && Pushed(options, list.value, cbs[i..]) == Pushed(options, old(list.value), cbs)
          invariant St() == old(St()).(list := list)
        {
          assert cbs[i..][1..] == cbs[i + 1..];
          if !(options.unique && cbs[i] in list.value) {
            list := Some(list.value + [cbs[i]]);
          }
        }
        assert cbs[|cbs|..] == [];
        if firing {
          length := |list.value|;
        } else if memory.Some? {
          start := t;
          BeginRound(memory.value);
        }
      }
    }

    // Takes every occurrence of x out of the list; during a round the length and the index follow.
    method RemoveAllOf(x: Callback)
      requires Callbacks.Valid(St())
      modifies this
      ensures St() == RemoveOne(old(St()), x)
    {
      if list.Some? {
        var l, o, a := SpliceAll(list.value, x, firing, length, index);
        list, length, index := Some(l), o, a;
      }
    }

    method RemoveAll(cbs: seq<Callback>)
      requires Callbacks.Valid(St())
      modifies this
      ensures St() == Remove(old(St()), cbs)
    {
      for i := 0 to |cbs|
        invariant Callbacks.Valid(St()) && Remove(St(), cbs[i..]) == Remove(old(St()), cbs)
      {
        assert cbs[i..][1..] == cbs[i + 1..];
        RemovePending(St(), cbs[i]);
        RemoveAllOf(cbs[i]);
      }
      assert cbs[|cbs|..] == [];
    }

    method FireWith(data: Data)
      modifies this
      ensures St() == Callbacks.FireWith(options, old(St()), data)
    {
      if list.Some? && (!fired || stack.Some?) {
        if firing {
          if stack.Some? {
            stack := Some(stack.value + [data]);
          }
        } else {
          BeginRound(data);
        }
      }
    }

    method Disable()
      modifies this
      ensures St() == Callbacks.Disable(old(St()))
    {
      list, stack, memory := None, None, None;
    }

    method Lock()
      modifies this
      ensures St() == Callbacks.Lock(old(St()))
    {
      stack := None;
      if memory.None? {
        Disable();
      }
    }

    method Empty()
      modifies this
      ensures St() == Callbacks.Empty(old(St()))
    {
      list := Some([]);
      length := 0;
    }
  }

  // The first position of x from `from` on, or -1.
  method InArray(l: seq<Callback>, x: Callback, from: nat) returns (r: int)
    requires from <= |l|
    ensures -1 <= r < |l|
    ensures if r == -1 then x !in l[from..] else from <= r && l[r] == x && x !in l[from..r]
  {
    r := from;
    while r < |l|
      invariant from <= r <= |l| && x !in l[from..r]
    {
      if l[r] == x {
        return;
      }
      r := r + 1;
    }
    r := -1;
  }

  // Splices the occurrences of x out one by one. During a round the length and the index step back for
  // every splice that is not behind them.
  method SpliceAll(l0: seq<Callback>, x: Callback, firing: bool, length: int, index: int) returns (l: seq<Callback>, o: int, a: int)
    requires firing ==> length == |l0| && -1 <= index
    ensures l == Without(l0, x)
    ensures !firing ==> o == length && a == index
    ensures firing ==> o == |l| && a == index - Occurrences(l0[..Least(index + 1, |l0|)], x)
  {
    hide Without, Occurrences, Least;
    l, o, a := l0, length, index;
    ghost var n := if firing then Least(index + 1, |l0|) else 0;
    ghost var k := 0;  // how much of the original list the search has passed
    ReachedBounds(index, |l0|, firing);
    RemovedNone(l0, n, x);
    var from := 0;
    var r := InArray(l, x, 0);
    while r > -1
      invariant from <= |l| && k <= |l0| && l == Without(l0[..k], x) + l0[k..] && from == |Without(l0[..k], x)|
      invariant -1 <= r < |l|
      invariant r == -1 ==> x !in l[from..]
      invariant r != -1 ==> from <= r && l[r] == x && x !in l[from..r]
      invariant firing ==> o == |l| && a == index - Occurrences(l0[..Least(k, n)], x)
      invariant !firing ==> o == length && a == index
      decreases |l0| - k
    {
      ghost var j := k + (r - from);
      SpliceStep(l0, l, x, k, r, n, firing, index, a);
      l := l[..r] + l[r + 1..];
      if firing {
        if r <= o {
          o := o - 1;
        }
        if r <= a {
          a := a - 1;
        }
      }
      k := j + 1;
      from := r;
      r := InArray(l, x, from);
    }
    TailIs(Without(l0[..k], x), l0[k..]);
    RemovedAll(l0, k, n, x);
  }

  // One splice: the part of the original list that is clean grows up to the occurrence found.
  lemma SpliceStep(l0: seq<Callback>, l: seq<Callback>, x: Callback, k: nat, r: nat, n: nat, firing: bool, index: int, a: int)
    requires k <= |l0| && n <= |l0| && l == Without(l0[..k], x) + l0[k..]
    requires |Without(l0[..k], x)| <= r < |l| && l[r] == x && x !in l[|Without(l0[..k], x)|..r]
    requires firing ==> -1 <= index && n == (if index + 1 < |l0| then index + 1 else |l0|)
    requires firing ==> a == index - Occurrences(l0[..Least(k, n)], x)
    ensures var j := k + r - |Without(l0[..k], x)|;
      && j < |l0| && l[..r] + l[r + 1..] == Without(l0[..j + 1], x) + l0[j + 1..] && |Without(l0[..j + 1], x)| == r
      && (firing ==>
            Occurrences(l0[..Least(j + 1, n)], x) == Occurrences(l0[..Least(k, n)], x) + (if r <= a then 1 else 0))
  {
    hide Without, Occurrences, Least;
    var j := k + r - |Without(l0[..k], x)|;
    SamePlace(Without(l0[..k], x), l0, k, r, x);
    RemovedNext(l0, k, j, n, x, l, r);
    if firing {
      BeforeReached(l0, k, j, n, x, index, a, r);
    }
  }

  lemma TailIs(s: seq<Callback>, t: seq<Callback>)
    ensures (s + t)[|s|..] == t
  {
  }

  lemma ReachedBounds(index: int, size: nat, firing: bool)
    requires firing ==> -1 <= index
    ensures firing ==> 0 <= Least(index + 1, size) <= size
    ensures firing ==> Least(index + 1, size) == (if index + 1 < size then index + 1 else size)
  {
  }

  lemma {:induction false} WithoutAbsent(s: seq<Callback>, x: Callback)
    requires x !in s
    ensures Without(s, x) == s && Occurrences(s, x) == 0
  {
    if s == [] {
    } else {
      WithoutAbsent(s[1..], x);
    }
  }

  function Least(a: int, b: int): (r: int)
    ensures r <= a && r <= b && (r == a || r == b)
  {
    if a < b then a else b
  }

  lemma RemovedNone(l: seq<Callback>, n: nat, x: Callback)
    ensures l == Without(l[..0], x) + l[0..] && |Without(l[..0], x)| == 0 && Occurrences(l[..Least(0, n)], x) == 0
  {
    assert l[..0] == [];
  }

  // Position r of the list as it is now is position j of the original one.
  lemma SamePlace(done: seq<Callback>, l: seq<Callback>, k: nat, r: nat, x: Callback)
    requires k <= |l| && |done| <= r < |done + l[k..]|
    ensures var j, now := k + r - |done|, done + l[k..];
      j < |l| && now[r] == l[j] && now[|done|..r] == l[k..j]
  {
  }

  // Splicing out the next occurrence, at position j of the original list, extends the cleaned part up to it.
  lemma RemovedNext(l: seq<Callback>, k: nat, j: nat, n: nat, x: Callback, now: seq<Callback>, r: nat)
    requires k <= j < |l| && n <= |l| && l[j] == x && x !in l[k..j]
    requires now == Without(l[..k], x) + l[k..] && r == |Without(l[..k], x)| + j - k
    ensures r < |now| && now[..r] + now[r + 1..] == Without(l[..j + 1], x) + l[j + 1..]
    ensures |Without(l[..j + 1], x)| == r
  {
    hide Without;
    assert l[..j + 1] == l[..k] + l[k..j] + [x];
    WithoutConcat(l[..k] + l[k..j], [x], x);
    WithoutConcat(l[..k], l[k..j], x);
    WithoutAbsent(l[k..j], x);
    WithoutItself(x);
    assert now[..r] == Without(l[..k], x) + l[k..j];
    assert now[r + 1..] == l[j + 1..];
  }

  lemma WithoutItself(x: Callback)
    ensures Without([x], x) == [] && Occurrences([x], x) == 1
  {
  }

  // Whether the occurrence lies in the part the round has reached, as the code tells it.
  lemma BeforeReached(l: seq<Callback>, k: nat, j: nat, n: nat, x: Callback, index0: int, index: int, r: nat)
    requires k <= j < |l| && n <= |l| && l[j] == x && x !in l[k..j]
    requires n == (if index0 + 1 < |l| then index0 + 1 else |l|) && -1 <= index0
    requires index == index0 - Occurrences(l[..Least(k, n)], x)
    requires r == |Without(l[..k], x)| + j - k
    ensures Occurrences(l[..Least(j + 1, n)], x) == Occurrences(l[..Least(k, n)], x) + (if r <= index then 1 else 0)
  {
    hide Without;
    if n < k {
      assert l[..k] == l[..n] + l[n..k];
      WithoutConcat(l[..n], l[n..k], x);
    } else if n <= j {
      assert l[..n] == l[..k] + l[k..n];
      assert x !in l[k..n];
      WithoutConcat(l[..k], l[k..n], x);
      WithoutAbsent(l[k..n], x);
    } else {
      assert l[..j + 1] == l[..k] + l[k..j] + [x];
      WithoutConcat(l[..k] + l[k..j], [x], x);
      WithoutConcat(l[..k], l[k..j], x);
      WithoutAbsent(l[k..j], x);
      WithoutItself(x);
    }
  }

  lemma RemovedAll(l: seq<Callback>, k: nat, n: nat, x: Callback)
    requires k <= |l| && n <= |l| && x !in l[k..]
    ensures Without(l, x) == Without(l[..k], x) + l[k..]
    ensures Occurrences(l[..n], x) == Occurrences(l[..Least(k, n)], x)
  {
    hide Without;
    assert l == l[..k] + l[k..];
    WithoutConcat(l[..k], l[k..], x);
    WithoutAbsent(l[k..], x);
    if k < n {
      assert l[..n] == l[..k] + l[k..n];
      assert x !in l[k..n];
      WithoutConcat(l[..k], l[k..n], x);
      WithoutAbsent(l[k..n], x);
    }
  }
}
