/**
 RateLimitMiddleware: an INCR on a shared Redis counter, an EXPIRE by whoever counted 1, and a decision.
 The class runs one request to completion; the state machine lets the Redis commands of any number of
 requests for one key interleave. Redis is healthy throughout.
 */
module RateLimit {
  import opened Prelude
  import opened Redis
  import opened Text

  const GLOBAL_LIMIT: nat := 100
  const AUTH_LIMIT: nat := 10
  /** WINDOW_SECONDS, in milliseconds. */
  const WINDOW: nat := 60000

  type Counter = Option<Entry<nat>>

  predicate Alive(c: Counter, now: nat) {
    c.Some? && (c.value.expiresAt.Some? ==> now < c.value.expiresAt.value)
  }

  /** INCR: a missing or expired counter restarts at 1 without expiry. */
  function Incremented(c: Counter, now: nat): Entry<nat> {
    if Alive(c, now) then c.value.(value := c.value.value + 1) else Entry(1, None)
  }

  /** EXPIRE: nothing happens to a missing key. */
  function Expiring(c: Counter, now: nat): Counter {
    if Alive(c, now) then Some(c.value.(expiresAt := Some(now + WINDOW))) else None
  }

  function Limit(endpoint: string): nat {
    if "/auth" <= endpoint then AUTH_LIMIT else GLOBAL_LIMIT
  }

  predicate Given(s: Option<string>) {
    s.Some? && s.value != ""
  }

  /**
   getIdentifier: the user id, else the first forwarded address, else the peer address. An authenticated
   user is the same whatever the headers say; a forwarded address is one trimmed list item.
   */
  function Identifier(userId: Option<string>, forwardedFor: Option<string>, ip: Option<string>): (id: string)
    ensures Given(userId) ==> id == userId.value
    ensures !Given(userId) && forwardedFor.Some? ==> ',' !in id && Trimmed(id)
    ensures !Given(userId) && forwardedFor.None? ==> id != ""
  {
    if Given(userId) then userId.value
    else if forwardedFor.Some? then
      var first := Split(forwardedFor.value, ',')[0];
      TrimFacts(first);
      Trim(first)
    else if Given(ip) then ip.value
    else "0.0.0.0"
  }

  /** TTL: whole seconds to the nearest; -1 without expiry, -2 without a key. */
  function Ttl(c: Counter, now: nat): int {
    if !Alive(c, now) then -2
    else match c.value.expiresAt case Some(t) => (t - now + 500) / 1000 case None => -1
  }

  // ---------------------------------------------------------------- one request at a time

  datatype Headers = Headers(limit: nat, remaining: nat, reset: nat)

  /** next() was called, or 429 was answered; without Redis no header is set. */
  datatype Decision = Decision(admitted: bool, headers: Option<Headers>)

  lemma SlicePrefix(s: string, prefix: string)
    ensures prefix <= s <==> |s| >= |prefix| && s[..|prefix|] == prefix
  {
  }

  class RateLimiter {
    var counters: Store<string, nat>
    var connected: bool
    var now: nat

    constructor (isConnected: bool, start: nat)
      ensures counters == map[] && connected == isConnected && now == start
    {
      counters, connected, now := map[], isConnected, start;
    }

    function At(key: string): Counter
      reads this
    {
      if Live(counters, key, now) then Some(counters[key]) else None
    }

    /**
     On a path that begins with /auth ten requests of each life pass, on any other a hundred; a life's first
     request sets it to end 60 seconds later.
     */
    method Use(userId: Option<string>, forwardedFor: Option<string>, ip: Option<string>, endpoint: string) returns (d: Decision)
      modifies this`counters
      ensures !connected ==> d == Decision(true, None) && counters == old(counters)
      ensures var key := "rate_limit:" + Identifier(userId, forwardedFor, ip) + ":" + endpoint;
              connected ==>
                && At(key) == Uninterrupted(old(At(key)), now)
                && At(key).Some? && d.headers.Some?
                && (d.admitted <==> At(key).value.value <= Limit(endpoint))
                && d.headers.value.limit == Limit(endpoint)
                && d.headers.value.remaining == (if d.admitted then Limit(endpoint) - At(key).value.value else 0)
                && d.headers.value.reset == (if Ttl(At(key), now) > 0 then Ttl(At(key), now) else WINDOW / 1000)
                && (At(key).value.value == 1 ==> d.headers.value.reset == WINDOW / 1000)
                && forall other :: other != key ==> At(other) == old(At(other))
      ensures var key := "rate_limit:" + Identifier(userId, forwardedFor, ip) + ":" + endpoint;
              var auth := |endpoint| >= 5 && endpoint[..5] == "/auth";
              connected ==>
                && At(key).Some? && d.headers.Some?
                && (auth ==> (d.admitted <==> At(key).value.value <= 10) && d.headers.value.limit == 10)
                && (!auth ==> (d.admitted <==> At(key).value.value <= 100) && d.headers.value.limit == 100)
                && At(key).value.value == (if old(At(key)).Some? then old(At(key)).value.value + 1 else 1)
                && At(key).value.expiresAt == (if At(key).value.value == 1 then Some(now + 60 * 1000) else old(At(key)).value.expiresAt)
    {
      SlicePrefix(endpoint, "/auth");
      if !connected {
        return Decision(true, None);
      }
      var identifier := Identifier(userId, forwardedFor, ip);
      var limit := Limit(endpoint);
      var key := "rate_limit:" + identifier + ":" + endpoint;
      counters := counters[key := Incremented(At(key), now)];
      var currentCount := counters[key].value;
      if currentCount == 1 {
        counters := counters[key := Expiring(At(key), now).value];
      }
      var remainingTtl := Ttl(At(key), now);
      var reset := if remainingTtl > 0 then remainingTtl else WINDOW / 1000;
      var headers := Headers(limit, if currentCount < limit then limit - currentCount else 0, reset);
      if currentCount > limit {
        return Decision(false, Some(headers));
      }
      return Decision(true, Some(headers));
    }
  }

  /** What one uninterrupted request does to its counter. */
  function Uninterrupted(c: Counter, now: nat): Counter {
    var e := Incremented(c, now);
    if e.value == 1 then Expiring(Some(e), now) else Some(e)
  }

  // ---------------------------------------------------------------- requests split at their awaits

  datatype Pc = Counted(count: nat) | Timed(count: nat)

  /** The instant of an INCR, the counter life it fell in, and the count it returned. */
  datatype Hit = Hit(time: nat, life: nat, count: nat)

  datatype State = State(
    now: nat, counter: Counter, calls: map<nat, Pc>,
    starts: seq<nat>,   // when each life of the counter began
    log: seq<Hit>)      // every INCR so far

  datatype Action = Wait(ms: nat) | Incr(call: nat) | Expire(call: nat) | Decide(call: nat)

  function Initial(now: nat): State {
    State(now, None, map[], [], [])
  }

  function IncrStep(s: State, c: nat, starts: seq<nat>): State {
    var e := Incremented(s.counter, s.now);
    if |starts| == 0 then s
    else
      s.(counter := Some(e), calls := s.calls[c := Counted(e.value)], starts := starts,
         log := s.log + [Hit(s.now, |starts| - 1, e.value)])
  }

  function Apply(s: State, a: Action): State {
    match a
    case Wait(d) => s.(now := s.now + d)
    case Incr(c) =>
      if c in s.calls then s
      else IncrStep(s, c, if Alive(s.counter, s.now) then s.starts else s.starts + [s.now])
    case Expire(c) =>
      if c in s.calls && s.calls[c] == Counted(1)
      then s.(counter := Expiring(s.counter, s.now), calls := s.calls[c := Timed(1)]) else s
    case Decide(c) =>
      if c in s.calls && (s.calls[c].Timed? || s.calls[c].count != 1) then s.(calls := s.calls - {c}) else s
  }

  function Execute(s: State, actions: seq<Action>): State
    decreases |actions|
  {
    if actions == [] then s else Apply(Execute(s, actions[..|actions| - 1]), actions[|actions| - 1])
  }

  /** The middleware calls next() exactly for a count within the limit. */
  predicate Admitted(h: Hit, limit: nat) {
    h.count <= limit
  }

  function HitsInLife(log: seq<Hit>, life: nat): nat {
    if log == [] then 0
    else HitsInLife(log[..|log| - 1], life) + (if log[|log| - 1].life == life then 1 else 0)
  }

  function AdmittedInLife(log: seq<Hit>, limit: nat, life: nat): nat {
    if log == [] then 0
    else AdmittedInLife(log[..|log| - 1], limit, life) + (if log[|log| - 1].life == life && Admitted(log[|log| - 1], limit) then 1 else 0)
  }

  function AdmittedBetween(log: seq<Hit>, limit: nat, from: nat, to: nat): nat {
    if log == [] then 0 else
      var last := log[|log| - 1];
      AdmittedBetween(log[..|log| - 1], limit, from, to) + (if from <= last.time < to && Admitted(last, limit) then 1 else 0)
  }

  // ---------------------------------------------------------------- the invariant

  predicate LivesApart(starts: seq<nat>) {
    forall i, j :: 0 <= i < j < |starts| ==> starts[i] + WINDOW <= starts[j]
  }

  /** A hit lies within its life, and begins it when it counts 1. */
  predicate HitInItsLife(starts: seq<nat>, h: Hit) {
    && h.life < |starts|
    && starts[h.life] <= h.time
    && (h.count == 1 ==> h.time == starts[h.life])
    && (h.life + 1 < |starts| ==> h.time < starts[h.life + 1])
  }

  predicate CountIsPosition(log: seq<Hit>, i: nat)
    requires i < |log|
  {
    log[i].count == HitsInLife(log[..i + 1], log[i].life)
  }

  /** The count of every hit is its position within its life. */
  ghost predicate Positions(log: seq<Hit>) {
    forall i :: 0 <= i < |log| ==> CountIsPosition(log, i)
  }

  /** The one call that counted 1 has not set the expiry yet; until it does the counter cannot die. */
  ghost predicate ExpiryPending(s: State) {
    exists c :: c in s.calls && s.calls[c] == Counted(1)
  }

  ghost predicate Inv(s: State) {
    && LivesApart(s.starts)
    && (forall i :: 0 <= i < |s.starts| ==> s.starts[i] <= s.now)
    && (forall i :: 0 <= i < |s.log| ==> HitInItsLife(s.starts, s.log[i]) && s.log[i].time <= s.now)
    && Positions(s.log)
    && (s.counter.None? ==> s.starts == [])
    && (s.counter.Some? ==>
          && |s.starts| > 0
          && s.counter.value.value == HitsInLife(s.log, |s.starts| - 1) > 0
          && (s.counter.value.expiresAt.Some? ==>
                && s.starts[|s.starts| - 1] + WINDOW <= s.counter.value.expiresAt.value
                && forall i :: 0 <= i < |s.log| ==> s.log[i].time < s.counter.value.expiresAt.value))
    && (ExpiryPending(s) ==> s.counter.Some? && s.counter.value.expiresAt.None?)
    && (forall c, d :: c in s.calls && d in s.calls && s.calls[c] == Counted(1) && s.calls[d] == Counted(1) ==> c == d)
  }

  lemma {:induction false} NoHitsInLaterLife(log: seq<Hit>, life: nat)
    requires forall i :: 0 <= i < |log| ==> log[i].life < life
    ensures HitsInLife(log, life) == 0
  {
    if log != [] { NoHitsInLaterLife(log[..|log| - 1], life); }
  }

  lemma OneMoreHit(log: seq<Hit>, hit: Hit, life: nat)
    ensures HitsInLife(log + [hit], life) == HitsInLife(log, life) + (if hit.life == life then 1 else 0)
  {
    assert (log + [hit])[..|log|] == log;
  }

  lemma HitAppended(log: seq<Hit>, hit: Hit)
    requires Positions(log) && hit.count == HitsInLife(log, hit.life) + 1
    ensures Positions(log + [hit]) && HitsInLife(log + [hit], hit.life) == hit.count
  {
    hide HitsInLife;
    var log' := log + [hit];
    OneMoreHit(log, hit, hit.life);
    forall i | 0 <= i < |log'| ensures CountIsPosition(log', i) {
      if i < |log| {
        assert log'[..i + 1] == log[..i + 1] && CountIsPosition(log, i);
      } else {
        assert log'[..i + 1] == log';
      }
    }
  }

  lemma CountPreserves(s: State, c: nat)
    requires Inv(s) && c !in s.calls && Alive(s.counter, s.now)
    ensures Inv(Apply(s, Incr(c)))
  {
    hide HitsInLife, CountIsPosition, Positions, HitInItsLife;
    var s' := Apply(s, Incr(c));
    var hit := Hit(s.now, |s.starts| - 1, s.counter.value.value + 1);
    assert s'.log == s.log + [hit];
    HitAppended(s.log, hit);
    assert HitInItsLife(s.starts, hit) by { LatestLife(s.starts, hit); }
    assert ExpiryPending(s') ==> ExpiryPending(s);
  }

  lemma LatestLife(starts: seq<nat>, hit: Hit)
    requires |starts| > 0 && hit.life == |starts| - 1 && starts[hit.life] <= hit.time && (hit.count == 1 ==> hit.time == starts[hit.life])
    ensures HitInItsLife(starts, hit)
  {
  }

  lemma EarlierLives(starts: seq<nat>, now: nat, hit: Hit)
    requires HitInItsLife(starts, hit) && (hit.life + 1 == |starts| ==> hit.time < now)
    ensures HitInItsLife(starts + [now], hit)
  {
  }

  lemma RestartPreserves(s: State, c: nat)
    requires Inv(s) && c !in s.calls && !Alive(s.counter, s.now)
    ensures Inv(Apply(s, Incr(c)))
  {
    hide HitsInLife, CountIsPosition, Positions, HitInItsLife;
    var s' := Apply(s, Incr(c));
    assert !ExpiryPending(s);
    forall i | 0 <= i < |s.log| ensures s.log[i].life < |s.starts| && HitInItsLife(s'.starts, s.log[i]) {
      HitHasLife(s.starts, s.log[i]);
      EarlierLives(s.starts, s.now, s.log[i]);
    }
    NoHitsInLaterLife(s.log, |s.starts|);
    var hit := Hit(s.now, |s.starts|, 1);
    assert s'.log == s.log + [hit];
    HitAppended(s.log, hit);
    LatestLife(s'.starts, hit);
  }

  lemma HitHasLife(starts: seq<nat>, hit: Hit)
    requires HitInItsLife(starts, hit)
    ensures hit.life < |starts|
  {
  }

  lemma IncrPreserves(s: State, c: nat)
    requires Inv(s) && c !in s.calls
    ensures Inv(Apply(s, Incr(c)))
  {
    hide Inv, Apply;
    if Alive(s.counter, s.now) { CountPreserves(s, c); } else { RestartPreserves(s, c); }
  }

  lemma StepPreserves(s: State, a: Action)
    requires Inv(s)
    ensures Inv(Apply(s, a))
  {
    hide HitsInLife, CountIsPosition, Positions, HitInItsLife;
    var s' := Apply(s, a);
    match a {
      case Incr(c) => if c !in s.calls { IncrPreserves(s, c); }
      case Expire(c) =>
        if c in s.calls && s.calls[c] == Counted(1) {
          assert ExpiryPending(s);
          assert forall d :: d in s'.calls && s'.calls[d] == Counted(1) ==> d in s.calls && s.calls[d] == Counted(1) && d != c;
        }
      case Wait(_) => assert ExpiryPending(s') <==> ExpiryPending(s);
      case Decide(c) => assert ExpiryPending(s') ==> ExpiryPending(s);
    }
  }

  lemma {:induction false} RunKeepsInvariant(start: nat, actions: seq<Action>)
    ensures Inv(Execute(Initial(start), actions))
    decreases |actions|
  {
    if actions != [] {
      RunKeepsInvariant(start, actions[..|actions| - 1]);
      StepPreserves(Execute(Initial(start), actions[..|actions| - 1]), actions[|actions| - 1]);
    }
  }

  // ---------------------------------------------------------------- counting admissions

  function Min(a: nat, b: nat): nat {
    if a < b then a else b
  }

  lemma PositionsPrefix(log: seq<Hit>)
    requires Positions(log) && log != []
    ensures Positions(log[..|log| - 1])
    ensures log[|log| - 1].count == HitsInLife(log, log[|log| - 1].life)
  {
    var front := log[..|log| - 1];
    forall i | 0 <= i < |front| ensures CountIsPosition(front, i) {
      assert front[..i + 1] == log[..i + 1];
      assert CountIsPosition(log, i);
    }
    assert log[..|log|] == log && CountIsPosition(log, |log| - 1);
  }

  /** Every life admits its first `limit` requests and no more. */
  lemma {:induction false} LifeAdmitsFirstRequests(log: seq<Hit>, limit: nat, life: nat)
    requires Positions(log)
    ensures AdmittedInLife(log, limit, life) == Min(limit, HitsInLife(log, life))
  {
    if log != [] {
      PositionsPrefix(log);
      LifeAdmitsFirstRequests(log[..|log| - 1], limit, life);
    }
  }

  /** Admissions in a window that only meets two lives; `skipsFirst` when the first hit of the earlier life falls outside. */
  lemma {:induction false} WindowWithinTwoLives(log: seq<Hit>, limit: nat, from: nat, to: nat, life: nat, skipsFirst: bool)
    requires limit > 0 && Positions(log)
    requires forall i :: 0 <= i < |log| && from <= log[i].time < to ==> log[i].life == life || log[i].life == life + 1
    requires skipsFirst ==> forall i :: 0 <= i < |log| && log[i].life == life && log[i].count == 1 ==> !(from <= log[i].time < to)
    ensures AdmittedBetween(log, limit, from, to)
            + (if skipsFirst && HitsInLife(log, life) > 0 then 1 else 0)
            <= AdmittedInLife(log, limit, life) + AdmittedInLife(log, limit, life + 1)
  {
    if log != [] {
      var front := log[..|log| - 1];
      PositionsPrefix(log);
      assert forall i :: 0 <= i < |front| ==> front[i] == log[i];
      WindowWithinTwoLives(front, limit, from, to, life, skipsFirst);
    }
  }

  lemma {:induction false} NothingAdmitted(log: seq<Hit>, limit: nat, from: nat, to: nat)
    requires forall i :: 0 <= i < |log| ==> !(from <= log[i].time < to)
    ensures AdmittedBetween(log, limit, from, to) == 0
  {
    if log != [] {
      var front := log[..|log| - 1];
      assert forall i :: 0 <= i < |front| ==> front[i] == log[i];
      NothingAdmitted(front, limit, from, to);
    }
  }

  lemma {:induction false} SomeHit(log: seq<Hit>, i: nat)
    requires i < |log|
    ensures HitsInLife(log, log[i].life) > 0
  {
    if i < |log| - 1 { SomeHit(log[..|log| - 1], i); }
  }

  /**
   Under every interleaving, any 60-second window admits at most 2 * limit - 1 requests of one key: it
   meets at most two lives, and if it meets two it misses the request that began the earlier one.
   */
  lemma WindowBound(start: nat, actions: seq<Action>, limit: nat, from: nat)
    requires limit > 0
    ensures AdmittedBetween(Execute(Initial(start), actions).log, limit, from, from + WINDOW) <= 2 * limit - 1
  {
    RunKeepsInvariant(start, actions);
    var s := Execute(Initial(start), actions);
    var log, to := s.log, from + WINDOW;
    if i :| 0 <= i < |log| && from <= log[i].time < to && forall j :: 0 <= j < |log| && from <= log[j].time < to ==> log[i].life <= log[j].life {
      WindowFrom(s, limit, from, i);
    } else {
      if j :| 0 <= j < |log| && from <= log[j].time < to {
        EarliestInWindow(log, from, to, j);
        assert false;
      }
      NothingAdmitted(log, limit, from, to);
    }
  }

  lemma {:induction false} EarliestInWindow(log: seq<Hit>, from: nat, to: nat, j: nat)
    requires j < |log| && from <= log[j].time < to
    ensures exists i :: 0 <= i < |log| && from <= log[i].time < to && forall k :: 0 <= k < |log| && from <= log[k].time < to ==> log[i].life <= log[k].life
    decreases log[j].life
  {
    if k :| 0 <= k < |log| && from <= log[k].time < to && log[k].life < log[j].life {
      EarliestInWindow(log, from, to, k);
    } else {
      assert forall k :: 0 <= k < |log| && from <= log[k].time < to ==> log[j].life <= log[k].life;
    }
  }

  lemma WindowFrom(s: State, limit: nat, from: nat, i: nat)
    requires Inv(s) && limit > 0 && i < |s.log| && from <= s.log[i].time < from + WINDOW
    requires forall j :: 0 <= j < |s.log| && from <= s.log[j].time < from + WINDOW ==> s.log[i].life <= s.log[j].life
    ensures AdmittedBetween(s.log, limit, from, from + WINDOW) <= 2 * limit - 1
  {
    var log, life, to := s.log, s.log[i].life, from + WINDOW;
    forall j | 0 <= j < |log| && from <= log[j].time < to ensures log[j].life == life || log[j].life == life + 1 {
      assert HitInItsLife(s.starts, log[i]) && HitInItsLife(s.starts, log[j]);
    }
    LifeAdmitsFirstRequests(log, limit, life);
    LifeAdmitsFirstRequests(log, limit, life + 1);
    if j :| 0 <= j < |log| && from <= log[j].time < to && log[j].life == life + 1 {
      assert HitInItsLife(s.starts, log[j]);
      SomeHit(log, i);
      WindowWithinTwoLives(log, limit, from, to, life, true);
    } else {
      WindowInOneLife(log, limit, from, to, life);
    }
  }

  lemma {:induction false} WindowInOneLife(log: seq<Hit>, limit: nat, from: nat, to: nat, life: nat)
    requires forall i :: 0 <= i < |log| && from <= log[i].time < to ==> log[i].life == life
    ensures AdmittedBetween(log, limit, from, to) <= AdmittedInLife(log, limit, life)
  {
    if log != [] {
      var front := log[..|log| - 1];
      assert forall i :: 0 <= i < |front| ==> front[i] == log[i];
      WindowInOneLife(front, limit, from, to, life);
    }
  }

  /** Each life of the counter lasts at least the window. */
  lemma LivesLastAWindow(start: nat, actions: seq<Action>, life: nat)
    requires life + 1 < |Execute(Initial(start), actions).starts|
    ensures var s := Execute(Initial(start), actions);
            s.starts[life] + WINDOW <= s.starts[life + 1]
  {
    RunKeepsInvariant(start, actions);
  }

  /** Under every interleaving a life admits exactly its first `limit` requests. */
  lemma EachLifeAdmitsUpToLimit(start: nat, actions: seq<Action>, limit: nat, life: nat)
    ensures var log := Execute(Initial(start), actions).log;
            AdmittedInLife(log, limit, life) == Min(limit, HitsInLife(log, life))
  {
    RunKeepsInvariant(start, actions);
    LifeAdmitsFirstRequests(Execute(Initial(start), actions).log, limit, life);
  }

  // ---------------------------------------------------------------- the two kinds of path

  lemma NoPositions(at: set<nat>)
    requires forall i: nat :: i !in at
    ensures |at| == 0
  {
    assert at == {};
  }

  lemma {:induction false} AdmittedIsCardinality(log: seq<Hit>, limit: nat, from: nat, to: nat, at: set<nat>)
    requires forall i: nat :: i in at <==> i < |log| && from <= log[i].time < to && log[i].count <= limit
    ensures AdmittedBetween(log, limit, from, to) == |at|
  {
    if log == [] {
      NoPositions(at);
    } else {
      var n := |log| - 1;
      AdmittedIsCardinality(log[..n], limit, from, to, at - {n});
      if n in at { assert at == (at - {n}) + {n}; } else { assert at - {n} == at; }
    }
  }

  lemma {:induction false} HitsAreCardinality(log: seq<Hit>, life: nat, at: set<nat>)
    requires forall i: nat :: i in at <==> i < |log| && log[i].life == life
    ensures HitsInLife(log, life) == |at|
  {
    if log == [] {
      NoPositions(at);
    } else {
      var n := |log| - 1;
      HitsAreCardinality(log[..n], life, at - {n});
      if n in at { assert at == (at - {n}) + {n}; } else { assert at - {n} == at; }
    }
  }

  lemma AdmittedInLifeSnoc(log: seq<Hit>, limit: nat, life: nat)
    requires log != []
    ensures var n := |log| - 1;
            AdmittedInLife(log, limit, life) == AdmittedInLife(log[..n], limit, life) + if log[n].life == life && log[n].count <= limit then 1 else 0
  {
  }

  lemma {:induction false} LifeIsCardinality(log: seq<Hit>, limit: nat, life: nat, at: set<nat>)
    requires forall i: nat :: i in at <==> i < |log| && log[i].life == life && log[i].count <= limit
    ensures AdmittedInLife(log, limit, life) == |at|
  {
    if log == [] {
      NoPositions(at);
    } else {
      hide AdmittedInLife;
      var n := |log| - 1;
      AdmittedInLifeSnoc(log, limit, life);
      LifeIsCardinality(log[..n], limit, life, at - {n});
      if n in at { assert at == (at - {n}) + {n}; } else { assert at - {n} == at; }
    }
  }

  /** The requests of a window, and of a life, that a limit lets pass. */
  function PassedInWindow(log: seq<Hit>, limit: nat, from: nat): set<nat> {
    set i: nat | i < |log| && from <= log[i].time < from + 60 * 1000 && log[i].count <= limit
  }

  function PassedInLife(log: seq<Hit>, limit: nat, life: nat): set<nat> {
    set i: nat | i < |log| && log[i].life == life && log[i].count <= limit
  }

  function OfLife(log: seq<Hit>, life: nat): set<nat> {
    set i: nat | i < |log| && log[i].life == life
  }

  lemma LimitOfPath(endpoint: string)
    ensures Limit(endpoint) == if |endpoint| >= 5 && endpoint[..5] == "/auth" then 10 else 100
  {
    SlicePrefix(endpoint, "/auth");
  }

  lemma PassedBounds(start: nat, actions: seq<Action>, limit: nat, from: nat, life: nat)
    requires limit > 0
    ensures var s := Execute(Initial(start), actions);
            && |PassedInWindow(s.log, limit, from)| <= 2 * limit - 1
            && |PassedInLife(s.log, limit, life)| == Min(limit, |OfLife(s.log, life)|)
  {
    var s := Execute(Initial(start), actions);
    WindowBound(start, actions, limit, from);
    EachLifeAdmitsUpToLimit(start, actions, limit, life);
    hide Execute, AdmittedBetween, HitsInLife, AdmittedInLife;
    AdmittedIsCardinality(s.log, limit, from, from + 60 * 1000, PassedInWindow(s.log, limit, from));
    HitsAreCardinality(s.log, life, OfLife(s.log, life));
    LifeIsCardinality(s.log, limit, life, PassedInLife(s.log, limit, life));
  }

  /**
   One identifier on one path, under every interleaving: any 60 seconds admit at most 19 requests below /auth
   and at most 199 elsewhere; each life lets its first 10, or 100, requests pass and no more; and lives begin
   at least 60 seconds apart.
   */
  lemma PathBounds(start: nat, actions: seq<Action>, endpoint: string, from: nat, life: nat)
    ensures var auth := |endpoint| >= 5 && endpoint[..5] == "/auth";
            var limit := if auth then 10 else 100;
            var s := Execute(Initial(start), actions);
            && Limit(endpoint) == limit
            && |PassedInWindow(s.log, limit, from)| <= (if auth then 19 else 199)
            && |PassedInLife(s.log, limit, life)| == (if |OfLife(s.log, life)| < limit then |OfLife(s.log, life)| else limit)
            && (life + 1 < |s.starts| ==> s.starts[life] + 60 * 1000 <= s.starts[life + 1])
  {
    LimitOfPath(endpoint);
    PassedBounds(start, actions, Limit(endpoint), from, life);
    var s := Execute(Initial(start), actions);
    if life + 1 < |s.starts| { LivesLastAWindow(start, actions, life); }
    hide Execute, Limit, PassedInLife, PassedInWindow, OfLife;
  }

  // ---------------------------------------------------------------- a lost EXPIRE

  /** The call that counted 1 has not set the expiry, and the counter has reached this count since. */
  predicate Stuck(s: State, c: nat, starts: seq<nat>, count: nat) {
    && c in s.calls && s.calls[c] == Counted(1) && s.starts == starts
    && s.counter.Some? && s.counter.value.expiresAt.None? && s.counter.value.value >= count
  }

  lemma StuckStep(s: State, a: Action, c: nat, starts: seq<nat>, count: nat)
    requires Inv(s) && Stuck(s, c, starts, count) && a != Expire(c)
    ensures var s' := Apply(s, a);
            Stuck(s', c, starts, count) && (s'.log == s.log || (|s'.log| == |s.log| + 1 && s'.log[..|s.log|] == s.log && s'.log[|s.log|].count > count))
  {
    hide HitsInLife, CountIsPosition, Positions, HitInItsLife, LivesApart;
  }

  /**
   If the call that counted 1 never gets to its EXPIRE, the counter never dies: no new life begins, and once
   the limit is used up every later request is refused, for ever.
   */
  lemma {:induction false} LostExpireBlocksForever(start: nat, before: seq<Action>, c: nat, later: seq<Action>, limit: nat)
    requires var s := Execute(Initial(start), before);
             c in s.calls && s.calls[c] == Counted(1) && s.counter.Some? && s.counter.value.value >= limit
    requires Expire(c) !in later
    ensures var s, s' := Execute(Initial(start), before), Execute(Initial(start), before + later);
            && Stuck(s', c, s.starts, limit) && |s'.log| >= |s.log| && s'.log[..|s.log|] == s.log
            && forall i :: |s.log| <= i < |s'.log| ==> !Admitted(s'.log[i], limit)
    decreases |later|
  {
    var s := Execute(Initial(start), before);
    RunKeepsInvariant(start, before);
    if later == [] {
      assert before + later == before;
      assert ExpiryPending(s);
    } else {
      var front, a := later[..|later| - 1], later[|later| - 1];
      LostExpireBlocksForever(start, before, c, front, limit);
      assert (before + later)[..|before + later| - 1] == before + front && (before + later)[|before + later| - 1] == a;
      RunKeepsInvariant(start, before + front);
      StuckStep(Execute(Initial(start), before + front), a, c, s.starts, limit);
      hide Inv, Apply, Stuck;
    }
  }

  // ---------------------------------------------------------------- the bound is reached

  lemma {:induction false} ExecuteConcat(s: State, a: seq<Action>, b: seq<Action>)
    ensures Execute(s, a + b) == Execute(Execute(s, a), b)
    decreases |b|
  {
    if b == [] {
      assert a + b == a;
    } else {
      var ab := a + b;
      assert ab[..|ab| - 1] == a + b[..|b| - 1] && ab[|ab| - 1] == b[|b| - 1];
      ExecuteConcat(s, a, b[..|b| - 1]);
    }
  }

  lemma ExecuteOne(s: State, prefix: seq<Action>, a: Action)
    ensures Execute(s, prefix + [a]) == Apply(Execute(s, prefix), a)
    ensures Execute(s, [a]) == Apply(s, a)
  {
    assert (prefix + [a])[..|prefix|] == prefix;
    assert [a][..0] == [] && Execute(s, []) == s;
  }

  /** The middleware run without interruption is this schedule of its three steps. */
  lemma UninterruptedIsASchedule(s: State, c: nat)
    requires Inv(s) && c !in s.calls
    ensures Execute(s, [Incr(c)] + [Expire(c)] + [Decide(c)]).counter == Uninterrupted(s.counter, s.now)
    ensures Execute(s, [Incr(c)] + [Expire(c)] + [Decide(c)]).calls == s.calls
  {
    ExecuteOne(s, [Incr(c)] + [Expire(c)], Decide(c));
    ExecuteOne(s, [Incr(c)], Expire(c));
    ExecuteOne(s, [], Incr(c));
    hide Execute, HitsInLife, Positions;
    var e := Incremented(s.counter, s.now);
    var s1 := Apply(s, Incr(c));
    assert s1.counter == Some(e) && s1.calls == s.calls[c := Counted(e.value)];
    var s2 := Apply(s1, Expire(c));
    assert Apply(s2, Decide(c)).calls == s.calls;
  }

  lemma OneMoreAdmission(log: seq<Hit>, hit: Hit, limit: nat, from: nat, to: nat)
    requires Admitted(hit, limit) && from <= hit.time < to
    ensures AdmittedBetween(log + [hit], limit, from, to) == AdmittedBetween(log, limit, from, to) + 1
  {
    assert (log + [hit])[..|log|] == log;
  }

  /** `n` requests that only count: they stop after INCR. */
  function Burst(first: nat, n: nat): seq<Action> {
    if n == 0 then [] else Burst(first, n - 1) + [Incr(first + n - 1)]
  }

  /** One more request of the burst is admitted in the same life. */
  lemma OneMoreInBurst(s: State, c: nat, limit: nat, from: nat, to: nat)
    requires Alive(s.counter, s.now) && |s.starts| > 0 && s.counter.value.value < limit && from <= s.now < to && c !in s.calls
    ensures var s' := Apply(s, Incr(c));
            && s'.now == s.now && s'.starts == s.starts && s'.calls.Keys == s.calls.Keys + {c}
            && s'.counter == Some(s.counter.value.(value := s.counter.value.value + 1))
            && AdmittedBetween(s'.log, limit, from, to) == AdmittedBetween(s.log, limit, from, to) + 1
  {
    hide AdmittedBetween;
    OneMoreAdmission(s.log, Hit(s.now, |s.starts| - 1, s.counter.value.value + 1), limit, from, to);
  }

  /** The state after `n` requests of a burst, as far as it matters. */
  predicate AfterBurst(s: State, s': State, first: nat, n: nat, limit: nat, from: nat, to: nat)
    requires s.counter.Some?
  {
    && s'.now == s.now && s'.starts == s.starts
    && s'.counter == Some(s.counter.value.(value := s.counter.value.value + n))
    && AdmittedBetween(s'.log, limit, from, to) == AdmittedBetween(s.log, limit, from, to) + n
    && forall c :: c in s'.calls ==> c < first + n
  }

  lemma BurstStep(s: State, s1: State, first: nat, n: nat, limit: nat, from: nat, to: nat)
    requires Alive(s.counter, s.now) && |s.starts| > 0 && s.counter.value.value + n < limit && from <= s.now < to
    requires AfterBurst(s, s1, first, n, limit, from, to)
    ensures AfterBurst(s, Apply(s1, Incr(first + n)), first, n + 1, limit, from, to)
  {
    hide AdmittedBetween, Apply;
    OneMoreInBurst(s1, first + n, limit, from, to);
  }

  lemma BurstOfNone(s: State, first: nat, limit: nat, from: nat, to: nat)
    requires s.counter.Some? && forall c :: c in s.calls ==> c < first
    ensures AfterBurst(s, Execute(s, Burst(first, 0)), first, 0, limit, from, to)
  {
    hide AdmittedBetween;
  }

  lemma BurstSnoc(s: State, first: nat, n: nat)
    requires n > 0
    ensures Execute(s, Burst(first, n)) == Apply(Execute(s, Burst(first, n - 1)), Incr(first + n - 1))
  {
    hide Execute, Apply;
    ExecuteOne(s, Burst(first, n - 1), Incr(first + n - 1));
  }

  lemma {:induction false} BurstEffect(s: State, first: nat, n: nat, limit: nat, from: nat, to: nat)
    requires s.counter.Some? && Alive(s.counter, s.now) && |s.starts| > 0 && s.counter.value.value + n <= limit && from <= s.now < to
    requires forall c :: c in s.calls ==> c < first
    ensures AfterBurst(s, Execute(s, Burst(first, n)), first, n, limit, from, to)
  {
    hide Execute, AfterBurst, Alive, Burst, Apply;
    if n == 0 {
      BurstOfNone(s, first, limit, from, to);
    } else {
      BurstEffect(s, first, n - 1, limit, from, to);
      BurstStep(s, Execute(s, Burst(first, n - 1)), first, n - 1, limit, from, to);
      BurstSnoc(s, first, n);
    }
  }

  /** One request opens a life and sets its expiry; the clock stops just before it. */
  const OPENING: seq<Action> := [Incr(0)] + [Expire(0)] + [Wait(WINDOW - 1)]

  /** One request opens a life, limit - 1 come just before it ends, and limit more right after. */
  function EdgeSchedule(limit: nat): seq<Action>
    requires limit > 0
  {
    OPENING + Burst(1, limit - 1) + [Wait(1)] + [Incr(limit)] + Burst(limit + 1, limit - 1)
  }

  lemma Opening(limit: nat)
    requires limit > 0
    ensures Execute(Initial(0), OPENING) ==
              State(WINDOW - 1, Some(Entry(1, Some(WINDOW))), map[0 := Timed(1)], [0], [Hit(0, 0, 1)])
    ensures AdmittedBetween([Hit(0, 0, 1)], limit, 1, 1 + WINDOW) == 0
  {
    var s0 := Initial(0);
    ExecuteOne(s0, [], Incr(0));
    ExecuteOne(s0, [Incr(0)], Expire(0));
    ExecuteOne(s0, [Incr(0)] + [Expire(0)], Wait(WINDOW - 1));
    assert [Hit(0, 0, 1)][..0] == [];
    hide Execute;
    assert Apply(s0, Incr(0)) == State(0, Some(Entry(1, None)), map[0 := Counted(1)], [0], [Hit(0, 0, 1)]);
  }

  /** So the limit is not a per-minute limit in the strict sense: for every limit some window admits 2 * limit - 1. */
  lemma WindowBoundIsTight(limit: nat)
    requires limit > 0
    ensures AdmittedBetween(Execute(Initial(0), EdgeSchedule(limit)).log, limit, 1, 1 + WINDOW) == 2 * limit - 1
  {
    hide Execute, AdmittedBetween, Burst;
    Opening(limit);
    BurstEffect(Execute(Initial(0), OPENING), 1, limit - 1, limit, 1, 1 + WINDOW);
    ExecuteConcat(Initial(0), OPENING, Burst(1, limit - 1));
    SecondHalf(limit, OPENING + Burst(1, limit - 1));
  }

  lemma SecondHalf(limit: nat, prefix: seq<Action>)
    requires limit > 0
    requires var s := Execute(Initial(0), prefix);
             && s.now == WINDOW - 1 && |s.starts| > 0 && s.counter.Some? && s.counter.value.expiresAt == Some(WINDOW)
             && (forall c :: c in s.calls ==> c < limit)
             && AdmittedBetween(s.log, limit, 1, 1 + WINDOW) == limit - 1
    ensures AdmittedBetween(Execute(Initial(0), prefix + [Wait(1)] + [Incr(limit)] + Burst(limit + 1, limit - 1)).log, limit, 1, 1 + WINDOW) == 2 * limit - 1
  {
    hide Execute, AdmittedBetween, Burst;
    var s := Execute(Initial(0), prefix);
    ExecuteOne(Initial(0), prefix, Wait(1));
    ExecuteOne(Initial(0), prefix + [Wait(1)], Incr(limit));
    var s2 := Apply(Apply(s, Wait(1)), Incr(limit));
    assert s2.log == s.log + [Hit(WINDOW, |s.starts|, 1)];
    OneMoreAdmission(s.log, Hit(WINDOW, |s.starts|, 1), limit, 1, 1 + WINDOW);
    BurstEffect(s2, limit + 1, limit - 1, limit, 1, 1 + WINDOW);
    ExecuteConcat(Initial(0), prefix + [Wait(1)] + [Incr(limit)], Burst(limit + 1, limit - 1));
  }
}
