/**
 The hit limiter of ga.js: a token bucket for events and a counter for the session, inside a chain of filters
 any of which may abort the hit.
 */
module HitLimiter {
  import opened Numbers

  // What a hit is about. A transaction sends one hit for itself and one for each of its items.
  datatype HitKind = Page | Event | Var | Transaction(hits: nat) | Social | Feedback

  // The tracker's session values, and what the session has sent so far. `created` and `start` are in
  // seconds; `last` is in seconds until the first refill and in milliseconds after it. `events` and `social`
  // are hits of those kinds, `plain` all hits that are no transactions.
  datatype Session = Session(
    mode: int, created: nat,
    count: nat, tokens: int, last: int, start: int,
    events: nat, plain: nat, social: nat)

  const TOKENS := 10
  const LIMIT := 500

  // A new visitor or a new session: all values start over.
  function Renew(s: Session): Session {
    s.(count := 0, tokens := TOKENS, last := s.created, start := s.created, events := 0, plain := 0, social := 0)
  }

  // The filters, in the terms that matter here: a gate may abort, the others do what their names say.
  datatype Filter = Gate(open: bool) | Renewal(due: bool) | Limit | Send | Charge

  // The milliseconds of the last refill.
  function LastMillis(s: Session): int {
    if s.last != s.start then s.last else 1000 * s.last
  }

  // Whether the hit may pass, and the session after the refill.
  function ApplyLimit(s: Session, kind: HitKind, now: int): (Session, bool) {
    if !kind.Transaction? && LIMIT <= s.count then (s, false)
    else if kind.Event? then
      var c := (now - LastMillis(s)) / 1000;
      var s1 := if 0 < c then s.(last := now, tokens := Min(TOKENS, s.tokens + c)) else s;
      (s1, 0 < s1.tokens)
    else (s, true)
  }

  // Whether hits of this kind have a local form.
  predicate Local(kind: HitKind) {
    !kind.Social? && !kind.Feedback?
  }

  // The hits of one call, whichever of the two ways they go, and those the counter sees. In mode 2 the
  // remote copies are not counted, as the local ones have been.
  function HitsSent(mode: int, kind: HitKind): nat {
    var n := if kind.Transaction? then kind.hits else 1;
    if mode == 0 then (if Local(kind) then n else 0)
    else if mode == 1 || mode == 2 then n
    else 0
  }

  function HitsCounted(mode: int, kind: HitKind): nat {
    if mode == 2 && !Local(kind) then 0 else HitsSent(mode, kind)
  }

  function ApplySend(s: Session, kind: HitKind): Session {
    var n := HitsSent(s.mode, kind);
    var s1 := s.(count := s.count + HitsCounted(s.mode, kind));
    if kind.Event? then s1.(events := s1.events + n, plain := s1.plain + n)
    else if kind.Transaction? then s1
    else if Local(kind) then s1.(plain := s1.plain + n)
    else s1.(plain := s1.plain + n, social := s1.social + n)
  }

  function ApplyCharge(s: Session, kind: HitKind): Session {
    if kind.Event? then s.(tokens := Max(0, s.tokens - 1)) else s
  }

  function ApplyFilter(s: Session, f: Filter, kind: HitKind, now: int): (Session, bool) {
    match f
    case Gate(open) => (s, open)
    case Renewal(due) => (if due then Renew(s) else s, true)
    case Limit => ApplyLimit(s, kind, now)
    case Send => (ApplySend(s, kind), true)
    case Charge => (ApplyCharge(s, kind), true)
  }

  // A chain runs until a filter aborts.
  function Execute(s: Session, fs: seq<Filter>, kind: HitKind, now: int): Session
    decreases |fs|
  {
    if fs == [] then s
    else
      var (s1, open) := ApplyFilter(s, fs[0], kind, now);
      if open then Execute(s1, fs[1..], kind, now) else s1
  }

  // One tracking call: what it sends, when, whether the session was due for renewal, and how the gates
  // before and behind the limiter decide.
  datatype Call = Call(kind: HitKind, now: int, renew: bool, enabled: bool, sampled: bool, allowed: bool, cookies: bool, heard: bool)

  function Chain(c: Call): seq<Filter> {
    [Gate(c.enabled), Renewal(c.renew), Gate(c.sampled), Gate(c.allowed), Limit, Gate(c.cookies), Gate(c.heard), Send, Charge]
  }

  function Track(s: Session, c: Call): Session {
    Execute(s, Chain(c), c.kind, c.now)
  }

  function TrackAll(s: Session, cs: seq<Call>): Session {
    if cs == [] then s else Track(TrackAll(s, cs[..|cs| - 1]), cs[|cs| - 1])
  }

  // The tracker rounds its creation time to seconds; its clock never goes back.
  ghost predicate Clock(created: nat, cs: seq<Call>) {
    && 1 <= created
    && (forall i :: 0 <= i < |cs| ==> 1000 * created - 500 <= cs[i].now)
    && (forall i, j :: 0 <= i <= j < |cs| ==> cs[i].now <= cs[j].now)
  }

  function Created(mode: int, created: nat): Session {
    Renew(Session(mode, created, 0, 0, 0, 0, 0, 0, 0))
  }

  // What every step keeps: the events sent and the tokens left are covered by the seconds since the start.
  ghost predicate Sound(s: Session, time: int) {
    && s.start == s.created >= 1
    && 0 <= s.tokens <= TOKENS
    && LastMillis(s) <= Max(1000 * s.created, time)
    && 1000 * s.created <= LastMillis(s)
    && s.events + s.tokens <= TOKENS + (LastMillis(s) - 1000 * s.created) / 1000
    && s.plain - (if s.mode == 2 then s.social else 0) <= Min(LIMIT, s.count)
  }

  // Whole seconds add up to no more than the seconds of the sum.
  lemma SecondsAdd(a: int, b: int)
    ensures a / 1000 + b / 1000 <= (a + b) / 1000
  {
  }

  lemma LimitKeepsSound(s: Session, kind: HitKind, now: int, time: int)
    requires Sound(s, time) && time <= now && 1000 * s.created - 500 <= now
    ensures var (s1, open) := ApplyLimit(s, kind, now);
      Sound(s1, now) && (open && kind.Event? ==> 0 < s1.tokens) && (open && !kind.Transaction? ==> s1.count < LIMIT)
      && s1.mode == s.mode
  {
    var m := LastMillis(s);
    SecondsAdd(m - 1000 * s.created, now - m);
  }

  lemma SendAndChargeKeepSound(s: Session, kind: HitKind, time: int)
    requires Sound(s, time)
    requires kind.Event? ==> 0 < s.tokens
    requires !kind.Transaction? ==> s.count < LIMIT
    ensures Sound(ApplyCharge(ApplySend(s, kind), kind), time)
  {
  }

  lemma ExecuteStep(s: Session, fs: seq<Filter>, kind: HitKind, now: int)
    requires fs != []
    ensures Execute(s, fs, kind, now) ==
      var (s1, open) := ApplyFilter(s, fs[0], kind, now);
      if open then Execute(s1, fs[1..], kind, now) else s1
  {
  }

  // One call, whatever aborts it: either nothing but a renewal and a refill happens, or the hit goes out.
  lemma TrackOutcome(s: Session, c: Call)
    ensures var r := if c.enabled && c.renew then Renew(s) else s;
            var (l, open) := ApplyLimit(r, c.kind, c.now);
            Track(s, c) ==
              if !(c.enabled && c.sampled && c.allowed) then r
              else if !(open && c.cookies && c.heard) then l
              else ApplyCharge(ApplySend(l, c.kind), c.kind)
  {
    hide ApplyLimit, ApplySend, ApplyCharge, Renew, Execute;
    var fs := Chain(c);
    var r := if c.enabled && c.renew then Renew(s) else s;
    var l := ApplyLimit(r, c.kind, c.now).0;
    ExecuteStep(s, fs, c.kind, c.now);
    ExecuteStep(s, fs[1..], c.kind, c.now);
    ExecuteStep(r, fs[2..], c.kind, c.now);
    ExecuteStep(r, fs[3..], c.kind, c.now);
    ExecuteStep(r, fs[4..], c.kind, c.now);
    assert fs[1..][1..] == fs[2..] && fs[2..][1..] == fs[3..] && fs[3..][1..] == fs[4..];
    assert fs[4..][1..] == [Gate(c.cookies), Gate(c.heard), Send, Charge];
    BehindTheLimiter(l, c);
  }

  lemma BehindTheLimiter(l: Session, c: Call)
    ensures Execute(l, [Gate(c.cookies), Gate(c.heard), Send, Charge], c.kind, c.now) ==
      if c.cookies && c.heard then ApplyCharge(ApplySend(l, c.kind), c.kind) else l
  {
    hide ApplyLimit, ApplySend, ApplyCharge, Renew, Execute;
    var fs := [Gate(c.cookies), Gate(c.heard), Send, Charge];
    ExecuteStep(l, fs, c.kind, c.now);
    ExecuteStep(l, fs[1..], c.kind, c.now);
    ExecuteStep(l, fs[2..], c.kind, c.now);
    ExecuteStep(ApplySend(l, c.kind), fs[3..], c.kind, c.now);
    ExecuteEnd(ApplyCharge(ApplySend(l, c.kind), c.kind), c.kind, c.now);
    assert fs[1..][1..] == fs[2..] && fs[2..][1..] == fs[3..] && fs[3..][1..] == [];
  }

  lemma ExecuteEnd(s: Session, kind: HitKind, now: int)
    ensures Execute(s, [], kind, now) == s
  {
  }

  // One call keeps it.
  lemma TrackKeepsSound(s: Session, c: Call, time: int)
    requires Sound(s, time) && time <= c.now && 1000 * s.created - 500 <= c.now
    ensures var r := Track(s, c); Sound(r, c.now) && r.mode == s.mode && r.created == s.created
  {
    hide ApplyLimit, ApplySend, ApplyCharge, Track;
    TrackOutcome(s, c);
    var r := if c.enabled && c.renew then Renew(s) else s;
    assert Sound(r, time);
    LimitKeepsSound(r, c.kind, c.now, time);
    var (l, open) := ApplyLimit(r, c.kind, c.now);
    if open {
      SendAndChargeKeepSound(l, c.kind, c.now);
    }
    Frame(l, c.kind);
    LimitFrame(r, c.kind, c.now);
  }

  lemma {:induction false} RunSound(mode: int, created: nat, cs: seq<Call>)
    requires Clock(created, cs)
    ensures var s := TrackAll(Created(mode, created), cs);
      s.mode == mode && s.created == created &&
      Sound(s, if cs == [] then 1000 * created - 500 else cs[|cs| - 1].now)
  {
    if cs == [] {
    } else {
      hide Track;
      var before := cs[..|cs| - 1];
      RunSound(mode, created, before);
      var time := if before == [] then 1000 * created - 500 else before[|before| - 1].now;
      TrackKeepsSound(TrackAll(Created(mode, created), before), cs[|cs| - 1], time);
    }
  }

  lemma Frame(s: Session, kind: HitKind)
    ensures var t := ApplyCharge(ApplySend(s, kind), kind); t.mode == s.mode && t.created == s.created
  {
  }

  lemma LimitFrame(s: Session, kind: HitKind, now: int)
    ensures var t := ApplyLimit(s, kind, now).0; t.mode == s.mode && t.created == s.created
  {
  }

  // For every sequence of calls: by the time of the last one, the session's event hits number at most ten
  // plus the whole seconds since the session start.
  lemma EventsBounded(mode: int, created: nat, cs: seq<Call>)
    requires Clock(created, cs) && cs != []
    ensures TrackAll(Created(mode, created), cs).events <= 10 + Max(0, (cs[|cs| - 1].now - 1000 * created) / 1000)
  {
    RunSound(mode, created, cs);
  }

  // ---- what gets through ----

  // A call that no gate stops and that starts no new session.
  function Open(kind: HitKind, now: int): Call {
    Call(kind, now, false, true, true, true, true, true)
  }

  function Burst(now: int, n: nat): seq<Call> {
    seq(n, _ => Open(Event, now))
  }

  // The whole seconds since the last refill.
  function Seconds(s: Session, now: int): nat {
    Max(0, (now - LastMillis(s)) / 1000)
  }

  // What a burst of n events at one time does: as many pass as there are tokens after one for each whole second
  // since the last refill, at most ten, and as the session has hits left of its 500.
  ghost predicate Passed(s: Session, now: int, n: nat, r: Session) {
    var free, room := Min(10, s.tokens + Seconds(s, now)), Max(0, 500 - s.count);
    var passed := Min(n, Min(free, room));
    && r.events == s.events + passed && r.plain == s.plain + passed && r.count == s.count + passed
    && r.tokens == (if n == 0 || room == 0 then s.tokens else free - passed)
    && LastMillis(r) == (if n == 0 || room == 0 || Seconds(s, now) == 0 then LastMillis(s) else now)
    && r.mode == s.mode && r.start == s.start && r.created == s.created && r.social == s.social
  }

  lemma OneEvent(s: Session, now: int)
    requires 0 <= s.mode <= 2 && 0 <= s.tokens <= 10 && now != s.start
    ensures Passed(s, now, 1, Track(s, Open(Event, now)))
  {
    hide Track;
    TrackOutcome(s, Open(Event, now));
  }

  lemma OneMore(s: Session, now: int, n: nat, r: Session, r': Session)
    requires 0 < n && 0 <= s.tokens <= 10 && Passed(s, now, n, r) && Passed(r, now, 1, r')
    ensures Passed(s, now, n + 1, r')
  {
  }

  lemma {:induction false} BurstPassed(s: Session, now: int, n: nat)
    requires 0 <= s.mode <= 2 && 0 <= s.tokens <= 10 && now != s.start
    ensures Passed(s, now, n, TrackAll(s, Burst(now, n)))
  {
    hide Track, LastMillis;
    if n == 0 {
    } else {
      var cs := Burst(now, n);
      assert cs[..n - 1] == Burst(now, n - 1);
      BurstPassed(s, now, n - 1);
      var r := TrackAll(s, cs[..n - 1]);
      OneEvent(r, now);
      if n == 1 {
      } else {
        OneMore(s, now, n - 1, r, Track(r, cs[n - 1]));
      }
    }
  }

  // After any run, k whole seconds since the last refill let exactly the smallest of n, 10, tokens + k and what
  // is left of the 500 hits pass.
  lemma BurstAfterRun(mode: int, created: nat, cs: seq<Call>, now: int, n: nat)
    requires 0 <= mode <= 2 && Clock(created, cs) && 1000 * created - 500 <= now
    ensures var s := TrackAll(Created(mode, created), cs);
      var k := Max(0, (now - LastMillis(s)) / 1000);
      var passed := Min(n, Min(Min(10, s.tokens + k), Max(0, 500 - s.count)));
      TrackAll(s, Burst(now, n)).events == s.events + passed && TrackAll(s, Burst(now, n)).count == s.count + passed
  {
    hide TrackAll, LastMillis;
    RunSound(mode, created, cs);
    BurstPassed(TrackAll(Created(mode, created), cs), now, n);
  }

  // The bucket is no tighter than the bound: of any number of events at the very start, exactly the first ten
  // get through.
  lemma BurstPasses(mode: int, created: nat, n: nat)
    requires 1 <= created && 0 <= mode <= 2
    ensures TrackAll(Created(mode, created), Burst(1000 * created, n)).events == Min(n, 10)
  {
    hide TrackAll;
    BurstPassed(Created(mode, created), 1000 * created, n);
  }

  // A burst of ten at the start empties the bucket; five whole seconds later five more events pass.
  lemma RefillPasses(mode: int, created: nat)
    requires 1 <= created && 0 <= mode <= 2
    ensures var s := TrackAll(Created(mode, created), Burst(1000 * created, 10));
      s.tokens == 0 && TrackAll(s, Burst(1000 * created + 5999, 7)).events == 15
  {
    hide TrackAll;
    BurstPassed(Created(mode, created), 1000 * created, 10);
    var s := TrackAll(Created(mode, created), Burst(1000 * created, 10));
    BurstPassed(s, 1000 * created + 5999, 7);
  }

  ghost predicate Spaced(cs: seq<Call>) {
    && (forall i :: 0 <= i < |cs| ==> cs[i] == Open(Event, cs[i].now))
    && (forall i :: 0 < i < |cs| ==> cs[i - 1].now + 1000 <= cs[i].now)
  }

  // Events at least a second apart all pass, up to the 500th.
  lemma {:induction false} SpacedEventsPass(mode: int, created: nat, cs: seq<Call>)
    requires 1 <= created && 0 <= mode <= 2 && Spaced(cs)
    requires forall i :: 0 <= i < |cs| ==> 1000 * created - 500 <= cs[i].now
    ensures var s := TrackAll(Created(mode, created), cs);
      && s.events == s.count == Min(|cs|, 500) && s.mode == mode && s.start == created
      && 1 <= s.tokens <= 10 && (cs == [] ==> s == Created(mode, created))
      && (cs != [] && |cs| < 500 ==> LastMillis(s) <= cs[|cs| - 1].now || (s.tokens >= 9 && LastMillis(s) == 1000 * created))
  {
    hide Track, LastMillis;
    if cs == [] {
    } else {
      var before, now := cs[..|cs| - 1], cs[|cs| - 1].now;
      SpacedEventsPass(mode, created, before);
      var s := TrackAll(Created(mode, created), before);
      OneEvent(s, now);
      StartMillis(mode, created);
    }
  }

  lemma StartMillis(mode: int, created: nat)
    ensures LastMillis(Created(mode, created)) == 1000 * created && Created(mode, created).tokens == 10
  {
  }

  // Hits that are no events, in the three modes: all but transactions stop at 500; a local copy counts, a hit
  // without a local form is sent only remotely, and uncounted when hits go both ways.
  lemma HitGoesOut(s: Session, kind: HitKind, now: int)
    requires 0 <= s.mode <= 2 && !kind.Event?
    ensures Track(s, Open(kind, now)) ==
      match kind
      case Transaction(hits) => s.(count := s.count + hits)
      case Social => if 500 <= s.count || s.mode == 0 then s
                     else s.(count := s.count + (2 - s.mode), plain := s.plain + 1, social := s.social + 1)
      case Feedback => if 500 <= s.count || s.mode == 0 then s
                       else s.(count := s.count + (2 - s.mode), plain := s.plain + 1, social := s.social + 1)
      case _ => if 500 <= s.count then s else s.(count := s.count + 1, plain := s.plain + 1)
  {
    hide Track;
    TrackOutcome(s, Open(kind, now));
  }

  // A renewed session goes on like a new tracker's.
  lemma RenewedIsNew(s: Session, c: Call)
    requires c.enabled && c.renew
    ensures Track(s, c) == Track(Created(s.mode, s.created), c.(renew := false))
  {
    hide Track;
    TrackOutcome(s, c);
    TrackOutcome(Created(s.mode, s.created), c.(renew := false));
  }

  // ---- the session's limit ----

  // Outside mode 2, a session sends at most 500 hits besides transactions; in mode 2 that bound holds for
  // the hits that are neither social nor feedback.
  lemma SessionBounded(mode: int, created: nat, cs: seq<Call>)
    requires Clock(created, cs)
    ensures var s := TrackAll(Created(mode, created), cs);
      s.plain - (if mode == 2 then s.social else 0) <= 500
  {
    RunSound(mode, created, cs);
  }

  function SocialCalls(created: nat, n: nat): seq<Call> {
    seq(n, _ => Call(Social, 1000 * created, false, true, true, true, true, true))
  }

  // In mode 2 the counter never sees a social hit, so any number of them goes out.
  lemma {:induction false} SocialUncounted(created: nat, n: nat)
    requires 1 <= created
    ensures var s := TrackAll(Created(2, created), SocialCalls(created, n));
      s.plain == n && s.count == 0 && s.mode == 2
  {
    if n == 0 {
    } else {
      var cs := SocialCalls(created, n);
      assert cs[..n - 1] == SocialCalls(created, n - 1);
      SocialUncounted(created, n - 1);
      TrackOutcome(TrackAll(Created(2, created), cs[..n - 1]), cs[n - 1]);
    }
  }

  // The session limit holds for all call sequences exactly when the mode is not 2.
  lemma LimitHoldsUnlessBoth(mode: int, created: nat)
    requires 1 <= created
    ensures (forall cs :: Clock(created, cs) ==> TrackAll(Created(mode, created), cs).plain <= 500) <==> mode != 2
  {
    if mode == 2 {
      SocialUncounted(created, LIMIT + 1);
      assert Clock(created, SocialCalls(created, LIMIT + 1));
    } else {
      forall cs | Clock(created, cs) ensures TrackAll(Created(mode, created), cs).plain <= LIMIT {
        SessionBounded(mode, created, cs);
      }
    }
  }

  // The tracker object: it runs the chain in a loop and stops at the first filter that aborts.
  class Tracker {
    var s: Session

    constructor (mode: int, created: nat)
      ensures s == Created(mode, created)
    {
      s := Created(mode, created);
    }

    method Run(c: Call)
      modifies this
      ensures s == Track(old(s), c)
    {
      var fs := Chain(c);
      var b := 0;
      while b < |fs|
        invariant b <= |fs|
        invariant Execute(s, fs[b..], c.kind, c.now) == Track(old(s), c)
        decreases |fs| - b
      {
        ExecuteStep(s, fs[b..], c.kind, c.now);
        assert fs[b..][1..] == fs[b + 1..];
        var (s1, open) := ApplyFilter(s, fs[b], c.kind, c.now);
        s := s1;
        if !open {
          return;
        }
        b := b + 1;
      }
      ExecuteEnd(s, c.kind, c.now);
      assert fs[|fs|..] == [];
    }
  }
}
