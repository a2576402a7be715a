/**
 Three operators of the parser library of date.js: `set`, which looks for the arrangement of rules that leaves
 the least text, `sequence`, which applies rules in turn with a delimiter between them, and `cache`, which
 remembers a rule's answers. A rule's exception is the outcome Reject.
 */
module ParsingOperators {
  import opened Wrappers

  datatype Outcome<+V> = Reject | Accept(value: V, rest: string)

  type Rule<V> = string -> Outcome<V>

  function Without<T>(s: seq<T>, i: nat): (r: seq<T>)
    requires i < |s|
    ensures |r| == |s| - 1
  {
    s[..i] + s[i + 1..]
  }

  // An arrangement picks rules one after the other, each at most once, with a delimiter between them.
  // A pick is a position among the rules that are still left.
  ghost predicate IsArrangement<V>(px: seq<Rule<V>>, d: Rule<()>, s: string, picks: seq<nat>) {
    && 0 < |picks|
    && picks[0] < |px|
    && px[picks[0]](s).Accept?
    && (1 < |picks| ==>
          var q := d(px[picks[0]](s).rest);
          q.Accept? && IsArrangement(Without(px, picks[0]), d, q.rest, picks[1..]))
  }

  // The values an arrangement yields and the text it leaves.
  ghost function Arranged<V>(px: seq<Rule<V>>, d: Rule<()>, s: string, picks: seq<nat>): (seq<V>, string)
    requires IsArrangement(px, d, s, picks)
  {
    var r := px[picks[0]](s);
    if |picks| == 1 then ([r.value], r.rest)
    else
      var (vs, rest) := Arranged(Without(px, picks[0]), d, d(r.rest).rest, picks[1..]);
      ([r.value] + vs, rest)
  }

  // Every rule that accepts takes at least one character, and the delimiter adds none.
  ghost predicate Consuming<V>(px: seq<Rule<V>>, d: Rule<()>) {
    && (forall i, s :: 0 <= i < |px| && px[i](s).Accept? ==> |px[i](s).rest| < |s|)
    && (forall s :: d(s).Accept? ==> |d(s).rest| <= |s|)
  }

  ghost predicate Leaves<V>(px: seq<Rule<V>>, d: Rule<()>, s: string, picks: seq<nat>, vs: seq<V>, rest: string) {
    IsArrangement(px, d, s, picks) && Arranged(px, d, s, picks) == (vs, rest)
  }

  // The order in which arrangements are tried: by their first pick, then by the next, a shorter one before its
  // continuations.
  ghost predicate Before(p: seq<nat>, q: seq<nat>) {
    p == [] || (q != [] && (p[0] < q[0] || (p[0] == q[0] && Before(p[1..], q[1..]))))
  }

  // `other` leaves at least `least` characters, and when it leaves just as many, it is not tried before `picks`.
  ghost predicate Yields<V>(px: seq<Rule<V>>, d: Rule<()>, s: string, other: seq<nat>, picks: seq<nat>, least: nat)
    requires IsArrangement(px, d, s, other)
  {
    var left := |Arranged(px, d, s, other).1|;
    least < left || (least == left && Before(picks, other))
  }

  // Every arrangement that starts before position n yields to the given one.
  ghost predicate Unbeaten<V>(px: seq<Rule<V>>, d: Rule<()>, s: string, n: nat, picks: seq<nat>, least: nat) {
    forall other :: IsArrangement(px, d, s, other) && other[0] < n ==> Yields(px, d, s, other, picks, least)
  }

  // Every arrangement that starts with rule i does.
  ghost predicate UnbeatenFrom<V>(px: seq<Rule<V>>, d: Rule<()>, s: string, i: nat, picks: seq<nat>, least: nat) {
    forall other :: IsArrangement(px, d, s, other) && other[0] == i ==> Yields(px, d, s, other, picks, least)
  }

  // The better of two arrangements, the first of them if they leave as much: the comparison of the search.
  lemma UnbeatenNext<V>(
    px: seq<Rule<V>>, d: Rule<()>, s: string, i: nat, picks: seq<nat>, least: nat, path: seq<nat>, left: nat)
    requires i < |px| && Unbeaten(px, d, s, i, picks, least) && (picks == [] || picks[0] < i)
    requires px[i](s).Reject? || UnbeatenFrom(px, d, s, i, path, left)
    ensures px[i](s).Reject? || least <= left ==> Unbeaten(px, d, s, i + 1, picks, least)
    ensures px[i](s).Accept? && left < least ==> Unbeaten(px, d, s, i + 1, path, left)
  {
  }

  lemma UnbeatenStart<V>(px: seq<Rule<V>>, d: Rule<()>, s: string)
    ensures Unbeaten(px, d, s, 0, [], |s|)
  {
  }

  // Nothing is left: the arrangements not tried yet come later.
  lemma UnbeatenEnd<V>(px: seq<Rule<V>>, d: Rule<()>, s: string, i: nat, picks: seq<nat>)
    requires Unbeaten(px, d, s, i, picks, 0) && (picks == [] || picks[0] < i)
    ensures Unbeaten(px, d, s, |px|, picks, 0)
  {
  }

  lemma NothingFound<V>(px: seq<Rule<V>>, d: Rule<()>, s: string)
    requires Consuming(px, d) && Unbeaten(px, d, s, |px|, [], |s|)
    ensures forall picks :: !IsArrangement(px, d, s, picks)
  {
    forall picks | IsArrangement(px, d, s, picks) ensures false {
      ArrangedShrinks(px, d, s, picks);
    }
  }

  lemma ConsumingWithout<V>(px: seq<Rule<V>>, d: Rule<()>, i: nat)
    requires Consuming(px, d) && i < |px|
    ensures Consuming(Without(px, i), d)
  {
    var qx := Without(px, i);
    forall k, s | 0 <= k < |qx| && qx[k](s).Accept? ensures |qx[k](s).rest| < |s| {
      assert qx[k] == px[if k < i then k else k + 1];
    }
  }

  // Consuming arrangements leave less than they started with.
  lemma {:induction false} ArrangedShrinks<V>(px: seq<Rule<V>>, d: Rule<()>, s: string, picks: seq<nat>)
    requires Consuming(px, d) && IsArrangement(px, d, s, picks)
    ensures |Arranged(px, d, s, picks).1| < |s|
    decreases |picks|
  {
    var r := px[picks[0]](s);
    if |picks| <= 1 {
    } else {
      ConsumingWithout(px, d, picks[0]);
      ArrangedShrinks(Without(px, picks[0]), d, d(r.rest).rest, picks[1..]);
    }
  }

  // A rule alone yields to itself and to anything that leaves less.
  lemma AloneYields<V>(px: seq<Rule<V>>, d: Rule<()>, s: string, i: nat, other: seq<nat>, picks: seq<nat>, least: nat)
    requires i < |px| && px[i](s).Accept? && IsArrangement(px, d, s, other) && other[0] == i && |other| == 1
    requires least < |px[i](s).rest| || (least == |px[i](s).rest| && picks == [i])
    ensures Yields(px, d, s, other, picks, least)
  {
  }

  // One starting rule with the best continuation beats all arrangements that start with it.
  lemma BestFromOneRule<V>(px: seq<Rule<V>>, d: Rule<()>, s: string, i: nat, picks: seq<nat>, left: nat)
    requires Consuming(px, d) && i < |px| && px[i](s).Accept? && d(px[i](s).rest).Accept?
    requires left < |px[i](s).rest|
    requires Unbeaten(Without(px, i), d, d(px[i](s).rest).rest, |px| - 1, picks, left)
    ensures UnbeatenFrom(px, d, s, i, [i] + picks, left)
  {
    var t := d(px[i](s).rest).rest;
    forall other | IsArrangement(px, d, s, other) && other[0] == i ensures Yields(px, d, s, other, [i] + picks, left) {
      if |other| > 1 {
        assert IsArrangement(Without(px, i), d, t, other[1..]);
        assert Yields(Without(px, i), d, t, other[1..], picks, left);
        assert ([i] + picks)[1..] == picks;
      } else {
        AloneYields(px, d, s, i, other, [i] + picks, left);
      }
    }
  }

  // A rule no arrangement can go on from.
  lemma OnlyOneRule<V>(px: seq<Rule<V>>, d: Rule<()>, s: string, i: nat)
    requires i < |px| && px[i](s).Accept?
    requires d(px[i](s).rest).Accept? ==>
      forall picks :: !IsArrangement(Without(px, i), d, d(px[i](s).rest).rest, picks)
    ensures UnbeatenFrom(px, d, s, i, [i], |px[i](s).rest|)
  {
    forall other | IsArrangement(px, d, s, other) && other[0] == i ensures Yields(px, d, s, other, [i], |px[i](s).rest|) {
      if |other| > 1 {
        Continuation(px, d, s, other);
      } else {
        AloneYields(px, d, s, i, other, [i], |px[i](s).rest|);
      }
    }
  }

  lemma Continuation<V>(px: seq<Rule<V>>, d: Rule<()>, s: string, picks: seq<nat>)
    requires IsArrangement(px, d, s, picks) && |picks| > 1
    ensures var q := d(px[picks[0]](s).rest);
      q.Accept? && IsArrangement(Without(px, picks[0]), d, q.rest, picks[1..])
  {
  }

  // The cases in which the search does not look further: one rule, no text, no delimiter, or nothing after it.
  lemma NoFurther<V>(px: seq<Rule<V>>, d: Rule<()>, s: string, i: nat)
    requires Consuming(px, d) && i < |px| && px[i](s).Accept?
    requires |px| == 1 || px[i](s).rest == "" || d(px[i](s).rest).Reject? || d(px[i](s).rest).rest == ""
    ensures UnbeatenFrom(px, d, s, i, [i], |px[i](s).rest|)
  {
    var q := d(px[i](s).rest);
    if q.Accept? {
      ConsumingWithout(px, d, i);
      forall picks | IsArrangement(Without(px, i), d, q.rest, picks) ensures false {
        ArrangedShrinks(Without(px, i), d, q.rest, picks);
      }
    }
    OnlyOneRule(px, d, s, i);
  }

  // The search. Its result is an arrangement of distinct rules, or nothing at all; when every rule consumes
  // text, no arrangement leaves less and none that leaves as much is tried before it, in spite of the early exits.
  method Set<V>(px: seq<Rule<V>>, d: Rule<()>, s: string) returns (best: seq<V>, rest: string)
    ensures if best == [] then rest == s else
      exists picks :: Leaves(px, d, s, picks, best, rest) && (Consuming(px, d) ==> Unbeaten(px, d, s, |px|, picks, |rest|))
    ensures Consuming(px, d) && best == [] ==> forall picks :: !IsArrangement(px, d, s, picks)
    decreases |px|
  {
    hide IsArrangement, Arranged, Consuming, Unbeaten, UnbeatenFrom, Yields;
    best, rest := [], s;
    UnbeatenStart(px, d, s);
    ghost var found: seq<nat> := [];
    var i := 0;
    while i < |px|
      invariant i <= |px| && |rest| <= |s|
      invariant found == [] || found[0] < i
      invariant if best == [] then rest == s && found == [] else Leaves(px, d, s, found, best, rest)
      invariant Consuming(px, d) ==> Unbeaten(px, d, s, i, found, |rest|)
      decreases |px| - i
    {
      var r := px[i](s);
      ghost var path: seq<nat> := [i];
      if r.Accept? {
        var last := |px| == 1;
        var q := Reject;
        if |r.rest| > 0 && !last {
          q := d(r.rest);
          if q.Reject? {
            last := true;
          }
        } else {
          last := true;
        }
        if !last && |q.rest| == 0 {
          last := true;
        }
        var vs, left := [r.value], r.rest;
        LeavesOne(px, d, s, i);
        if !last {
          if Consuming(px, d) {
            ConsumingWithout(px, d, i);
            ConsumingOnce(px, d, r.rest);
          }
          var vs', left' := Set(Without(px, i), d, q.rest);
          if |vs'| > 0 {
            ghost var picks :| Leaves(Without(px, i), d, q.rest, picks, vs', left')
              && (Consuming(Without(px, i), d) ==> Unbeaten(Without(px, i), d, q.rest, |px| - 1, picks, |left'|));
            path := [i] + picks;
            LeavesMore(px, d, s, i, picks, vs', left');
            vs, left := [r.value] + vs', left';
            if Consuming(px, d) {
              ArrangedShrinks(Without(px, i), d, q.rest, picks);
              BestFromOneRule(px, d, s, i, picks, |left|);
            }
          } else if Consuming(px, d) {
            OnlyOneRule(px, d, s, i);
          }
        } else if Consuming(px, d) {
          NoFurther(px, d, s, i);
        }
        if Consuming(px, d) {
          UnbeatenNext(px, d, s, i, found, |rest|, path, |left|);
        }
        if |left| < |rest| {
          best, rest, found := vs, left, path;
        }
        if |rest| == 0 {
          if Consuming(px, d) {
            UnbeatenEnd(px, d, s, i + 1, found);
          }
          break;
        }
      } else if Consuming(px, d) {
        UnbeatenNext(px, d, s, i, found, |rest|, path, 0);
      }
      i := i + 1;
    }
    if Consuming(px, d) && best == [] {
      NothingFound(px, d, s);
    }
  }

  lemma LeavesOne<V>(px: seq<Rule<V>>, d: Rule<()>, s: string, i: nat)
    requires i < |px| && px[i](s).Accept?
    ensures Leaves(px, d, s, [i], [px[i](s).value], px[i](s).rest)
  {
  }

  lemma LeavesMore<V>(px: seq<Rule<V>>, d: Rule<()>, s: string, i: nat, picks: seq<nat>, vs: seq<V>, rest: string)
    requires i < |px| && px[i](s).Accept? && d(px[i](s).rest).Accept?
    requires Leaves(Without(px, i), d, d(px[i](s).rest).rest, picks, vs, rest)
    ensures Leaves(px, d, s, [i] + picks, [px[i](s).value] + vs, rest)
  {
    assert ([i] + picks)[1..] == picks;
  }

  lemma ConsumingOnce<V>(px: seq<Rule<V>>, d: Rule<()>, s: string)
    requires Consuming(px, d) && d(s).Accept?
    ensures |d(s).rest| <= |s|
  {
  }

  // The outer form: a closing rule is applied to what the best arrangement leaves.
  method SetClosed<V>(px: seq<Rule<V>>, d: Rule<()>, c: Rule<()>, s: string) returns (r: Outcome<seq<V>>)
    ensures r.Accept? && r.value == [] ==> r.rest == s
    ensures r.Accept? && r.value != [] ==>
      exists picks, rest :: Leaves(px, d, s, picks, r.value, rest) && (Consuming(px, d) ==> Unbeaten(px, d, s, |px|, picks, |rest|))
        && c(rest).Accept? && c(rest).rest == r.rest
    ensures r.Reject? ==>
      exists picks, vs, rest :: Leaves(px, d, s, picks, vs, rest) && (Consuming(px, d) ==> Unbeaten(px, d, s, |px|, picks, |rest|))
        && c(rest).Reject?
    ensures Consuming(px, d) && r.Accept? && r.value == [] ==> forall picks :: !IsArrangement(px, d, s, picks)
  {
    var best, rest := Set(px, d, s);
    if best == [] {
      return Accept(best, rest);
    }
    ghost var picks :| Leaves(px, d, s, picks, best, rest) && (Consuming(px, d) ==> Unbeaten(px, d, s, |px|, picks, |rest|));
    var q := c(rest);
    if q.Reject? {
      return Reject;
    }
    r := Accept(best, q.rest);
  }

  // ---- sequences ----

  // What a sequence of rules yields: it ends where the delimiter fails, which may be early, and fails when a
  // delimiter is followed by no rule.
  function SequenceOf<V>(px: seq<Rule<V>>, d: Rule<()>, s: string): Outcome<seq<V>> {
    if px == [] then Reject
    else
      match px[0](s)
      case Reject => Reject
      case Accept(v, rest) =>
        match d(rest)
        case Reject => Accept([v], rest)
        case Accept(_, s1) => Prepend([v], SequenceOf(px[1..], d, s1))
  }

  lemma SequenceStep<V>(px: seq<Rule<V>>, d: Rule<()>, s: string)
    ensures px == [] || px[0](s).Reject? ==> SequenceOf(px, d, s) == Reject
    ensures px != [] && px[0](s).Accept? ==>
      var t := px[0](s).rest;
      SequenceOf(px, d, s) ==
        if d(t).Reject? then Accept([px[0](s).value], t) else Prepend([px[0](s).value], SequenceOf(px[1..], d, d(t).rest))
  {
  }

  function Prepend<V>(vs: seq<V>, o: Outcome<seq<V>>): Outcome<seq<V>> {
    if o.Reject? then Reject else Accept(vs + o.value, o.rest)
  }

  // The first k rules apply one after the other with a delimiter between them and none behind the last.
  ghost predicate Chained<V>(px: seq<Rule<V>>, d: Rule<()>, s: string, k: nat, vs: seq<V>, rest: string) {
    && 1 <= k <= |px| && |vs| == k
    && px[0](s).Accept? && vs[0] == px[0](s).value
    && var t := px[0](s).rest;
    if k == 1 then rest == t && d(t).Reject?
    else d(t).Accept? && Chained(px[1..], d, d(t).rest, k - 1, vs[1..], rest)
  }

  // A sequence yields exactly what some number of its first rules yields in this way.
  lemma {:induction false} SequenceIsChain<V>(px: seq<Rule<V>>, d: Rule<()>, s: string)
    ensures match SequenceOf(px, d, s)
      case Reject => forall k: nat, vs, rest :: !Chained(px, d, s, k, vs, rest)
      case Accept(vs, rest) =>
        Chained(px, d, s, |vs|, vs, rest) && forall k: nat, vs', rest' :: Chained(px, d, s, k, vs', rest') ==> vs' == vs && rest' == rest
  {
    if px != [] && px[0](s).Accept? && d(px[0](s).rest).Accept? {
      var v, s1 := px[0](s).value, d(px[0](s).rest).rest;
      SequenceIsChain(px[1..], d, s1);
      var o := SequenceOf(px[1..], d, s1);
      forall k: nat, vs, rest | Chained(px, d, s, k, vs, rest) ensures o == Accept(vs[1..], rest) {
        assert Chained(px[1..], d, s1, k - 1, vs[1..], rest);
      }
      if o.Accept? {
        assert ([v] + o.value)[1..] == o.value;
        assert o.value != [];
      }
      forall k: nat, vs, rest | Chained(px, d, s, k, vs, rest) ensures vs == [v] + vs[1..] {
      }
    } else {
      forall k: nat, vs, rest | Chained(px, d, s, k, vs, rest) ensures k == 1 && vs == [px[0](s).value] {
      }
    }
  }

  // With a delimiter that always applies, such as optional space, no sequence ever succeeds.
  lemma {:induction false} DelimiterMustFail<V>(px: seq<Rule<V>>, d: Rule<()>, s: string)
    requires forall t :: d(t).Accept?
    ensures SequenceOf(px, d, s).Reject?
  {
    if px == [] || px[0](s).Reject? {
    } else {
      DelimiterMustFail(px[1..], d, d(px[0](s).rest).rest);
    }
  }

  // A single rule is taken as it is; otherwise the closing rule, if any, is applied to what is left.
  method Sequence<V>(px: seq<Rule<V>>, d: Rule<()>, c: Option<Rule<()>>, s: string) returns (r: Outcome<seq<V>>)
    ensures |px| == 1 ==> r == (if px[0](s).Reject? then Reject else Accept([px[0](s).value], px[0](s).rest))
    ensures |px| != 1 ==>
      r == match SequenceOf(px, d, s)
           case Reject => Reject
           case Accept(vs, rest) =>
             if c.None? then Accept(vs, rest) else if c.value(rest).Reject? then Reject else Accept(vs, c.value(rest).rest)
  {
    hide SequenceOf;
    if |px| == 1 {
      var one := px[0](s);
      return if one.Reject? then Reject else Accept([one.value], one.rest);
    }
    var rx: seq<V> := [];
    var rest, left, pending := s, s, true;
    var i := 0;
    ghost var all := SequenceOf(px, d, s);
    assert px[0..] == px && (all.Accept? ==> [] + all.value == all.value);
    while i < |px| && pending
      invariant 0 <= i <= |px| && (i < |px| ==> pending || rx != [])
      invariant pending ==> Prepend(rx, SequenceOf(px[i..], d, left)) == SequenceOf(px, d, s)
      invariant !pending ==> SequenceOf(px, d, s) == Accept(rx, rest)
      decreases |px| - i, pending
    {
      assert px[i..][0] == px[i] && px[i..][1..] == px[i + 1..];
      SequenceStep(px[i..], d, left);
      var o := px[i](left);
      if o.Reject? {
        break;
      }
      ghost var head := rx;
      rx, rest := rx + [o.value], o.rest;
      var q := d(rest);
      if q.Reject? {
        pending := false;
      } else {
        left := q.rest;
        ghost var tail := SequenceOf(px[i + 1..], d, left);
        assert tail.Accept? ==> head + ([o.value] + tail.value) == rx + tail.value;
        i := i + 1;
      }
    }
    SequenceStep(px[i..], d, left);
    if pending {
      return Reject;
    }
    if c.Some? {
      var closed := c.value(rest);
      if closed.Reject? {
        return Reject;
      }
      rest := closed.rest;
    }
    r := Accept(rx, rest);
  }

  // ---- the cache ----

  // What a cached rule answers: the rule's outcome, or the inherited property of the table object that
  // happens to have the text as its name.
  datatype Answer<+V> = Own(outcome: Outcome<V>) | Inherited

  class Cache<V> {
    const rule: Rule<V>
    const inherited: set<string>
    var table: map<string, Answer<V>>

    ghost predicate Valid()
      reads this
    {
      forall k :: k in table ==> table[k] == Expected(k)
    }

    ghost function Expected(s: string): Answer<V> {
      if s in inherited then Inherited else Own(rule(s))
    }

    constructor (rule: Rule<V>, inherited: set<string>)
      ensures Valid() && this.rule == rule && this.inherited == inherited
    {
      this.rule, this.inherited, table := rule, inherited, map[];
    }

    // Over any sequence of calls the cache answers like the rule, exceptions included, exactly on the texts
    // that are not names of inherited properties.
    method Call(s: string) returns (a: Answer<V>)
      requires Valid()
      modifies this
      ensures Valid() && (a == Own(rule(s)) <==> s !in inherited)
      ensures s in inherited ==> a == Inherited
    {
      if s in table {
        a := table[s];
      } else if s in inherited {
        a := Inherited;
      } else {
        a := Own(rule(s));
      }
      table := table[s := a];
    }
  }
}
