/** The gateway's routing memory: a circuit breaker per route and the sticky route of each session.

    Points in time are integers in nanoseconds. */
module RoutingState {
  import opened Wrappers

  const SECOND := 1_000_000_000
  const FAILURE_THRESHOLD := 3
  const COOLDOWN := 30 * SECOND
  const BINDING_TTL := 30 * 60 * SECOND
  const U32_MAX := 0xFFFF_FFFF

  datatype ProviderHealth = ProviderHealth(consecutiveFailures: nat, blacklistedUntil: Option<int>)

  datatype SessionBinding = SessionBinding(routeId: string, lastUsed: int)

  datatype State = State(health: map<string, ProviderHealth>, bindings: map<string, SessionBinding>)

  const Empty := State(map[], map[])

  /** `duration_since` of two instants; it is zero when the second is later. */
  function Since(now: int, earlier: int): nat {
    if now >= earlier then now - earlier else 0
  }

  // ---------- events and what they do ----------

  datatype Event =
    | Success(routeId: string)
    | Failure(routeId: string, at: int)
    | Bind(sessionId: string, routeId: string, at: int)
    | EvictStale(at: int)

  function HealthOf(s: State, routeId: string): ProviderHealth {
    if routeId in s.health then s.health[routeId] else ProviderHealth(0, None)
  }

  function Apply(s: State, e: Event): State {
    match e
    case Success(r) => if r in s.health then s.(health := s.health[r := ProviderHealth(0, None)]) else s
    case Failure(r, now) =>
      var h := HealthOf(s, r);
      var failures := if h.consecutiveFailures < U32_MAX then h.consecutiveFailures + 1 else U32_MAX;
      s.(health := s.health[r := ProviderHealth(failures,
                                                if failures >= FAILURE_THRESHOLD then Some(now + COOLDOWN)
                                                else h.blacklistedUntil)])
    case Bind(session, r, now) => s.(bindings := s.bindings[session := SessionBinding(r, now)])
    case EvictStale(now) =>
      s.(bindings := map session | session in s.bindings && Since(now, s.bindings[session].lastUsed) <= BINDING_TTL
                       :: s.bindings[session])
  }

  function After(events: seq<Event>): State {
    if events == [] then Empty else Apply(After(events[..|events| - 1]), events[|events| - 1])
  }

  predicate Blacklisted(s: State, routeId: string, now: int) {
    var until := HealthOf(s, routeId).blacklistedUntil;
    until.Some? && now < until.value
  }

  function BindingFor(s: State, sessionId: string, now: int): Option<string> {
    if sessionId in s.bindings && Since(now, s.bindings[sessionId].lastUsed) <= BINDING_TTL
    then Some(s.bindings[sessionId].routeId) else None
  }

  // ---------- the history of one route and of one session ----------

  /** The failures of a route after its last success. */
  function FailuresSinceSuccess(events: seq<Event>, routeId: string): nat {
    if events == [] then 0
    else
      var earlier := FailuresSinceSuccess(events[..|events| - 1], routeId);
      match events[|events| - 1]
      case Success(r) => if r == routeId then 0 else earlier
      case Failure(r, _) => if r == routeId then earlier + 1 else earlier
      case _ => earlier
  }

  function LastFailure(events: seq<Event>, routeId: string): Option<int> {
    if events == [] then None
    else
      var e := events[|events| - 1];
      if e.Failure? && e.routeId == routeId then Some(e.at) else LastFailure(events[..|events| - 1], routeId)
  }

  function LastBind(events: seq<Event>, sessionId: string): Option<SessionBinding> {
    if events == [] then None
    else
      var e := events[|events| - 1];
      if e.Bind? && e.sessionId == sessionId then Some(SessionBinding(e.routeId, e.at))
      else LastBind(events[..|events| - 1], sessionId)
  }

  lemma {:induction false} HealthTracksHistory(events: seq<Event>, routeId: string)
    ensures var h := HealthOf(After(events), routeId); var n := FailuresSinceSuccess(events, routeId);
            && h.consecutiveFailures == (if n < U32_MAX then n else U32_MAX)
            && (n > 0 ==> LastFailure(events, routeId).Some?)
            && h.blacklistedUntil
               == (if n >= FAILURE_THRESHOLD then Some(LastFailure(events, routeId).value + COOLDOWN) else None)
  {
    if events != [] {
      HealthTracksHistory(events[..|events| - 1], routeId);
    }
  }

  /** Over any history of any routes: a route is blacklisted at `now` exactly when at least three
      failures followed its last success and `now` is within 30 seconds of its last failure. */
  lemma BlacklistedExactly(events: seq<Event>, routeId: string, now: int)
    ensures Blacklisted(After(events), routeId, now)
            <==> FailuresSinceSuccess(events, routeId) >= 3
                 && LastFailure(events, routeId).Some? && now < LastFailure(events, routeId).value + 30 * SECOND
  {
    HealthTracksHistory(events, routeId);
  }

  predicate Concerns(e: Event, routeId: string) {
    (e.Success? || e.Failure?) && e.routeId == routeId
  }

  /** Only the route's own successes and failures matter to its circuit breaker. */
  lemma {:induction false} OtherRoutesIrrelevant(events: seq<Event>, others: seq<Event>, routeId: string, now: int)
    requires forall i :: 0 <= i < |others| ==> !Concerns(others[i], routeId)
    ensures Blacklisted(After(events + others), routeId, now) == Blacklisted(After(events), routeId, now)
    decreases |others|
  {
    if others == [] {
      assert events + others == events;
    } else {
      var init := others[..|others| - 1];
      assert (events + others)[..|events + others| - 1] == events + init;
      assert !Concerns(others[|others| - 1], routeId);
      OtherRoutesIrrelevant(events, init, routeId, now);
    }
  }

  // ---------- bindings under a clock that does not run backwards ----------

  predicate Timed(e: Event) {
    e.Bind? || e.EvictStale?
  }

  /** `now` is no earlier than any binding or eviction of the history, and these are in order of time. */
  predicate ClockUpTo(events: seq<Event>, now: int) {
    if events == [] then true
    else
      var e := events[|events| - 1];
      if Timed(e) then e.at <= now && ClockUpTo(events[..|events| - 1], e.at)
      else ClockUpTo(events[..|events| - 1], now)
  }

  lemma {:induction false} ClockAdvances(events: seq<Event>, now: int, later: int)
    requires ClockUpTo(events, now) && now <= later
    ensures ClockUpTo(events, later)
  {
    if events != [] && !Timed(events[|events| - 1]) {
      ClockAdvances(events[..|events| - 1], now, later);
    }
  }

  /** The stored binding is the last one made, unless that one has expired by `now`. */
  lemma {:induction false} BindingTracksHistory(events: seq<Event>, sessionId: string, now: int)
    requires ClockUpTo(events, now)
    ensures var stored := After(events).bindings; var last := LastBind(events, sessionId);
            && (last.Some? ==> last.value.lastUsed <= now)
            && (sessionId in stored ==> last == Some(stored[sessionId]))
            && (sessionId !in stored && last.Some? ==> Since(now, last.value.lastUsed) > BINDING_TTL)
  {
    if events != [] {
      var init, e := events[..|events| - 1], events[|events| - 1];
      BindingTracksHistory(init, sessionId, if Timed(e) then e.at else now);
    }
  }

  /** A session's route is that of its last binding while that is at most 30 minutes old. Evictions do
      not occur in the statement: whenever and however often they run, no answer changes. */
  lemma BindingExactly(events: seq<Event>, sessionId: string, now: int)
    requires ClockUpTo(events, now)
    ensures var last := LastBind(events, sessionId);
            BindingFor(After(events), sessionId, now)
            == if last.Some? && now - last.value.lastUsed <= BINDING_TTL then Some(last.value.routeId) else None
  {
    BindingTracksHistory(events, sessionId, now);
  }

  function WithoutEvictions(events: seq<Event>): seq<Event> {
    if events == [] then []
    else
      var e := events[|events| - 1];
      WithoutEvictions(events[..|events| - 1]) + (if e.EvictStale? then [] else [e])
  }

  lemma {:induction false} WithoutEvictionsKeeps(events: seq<Event>, sessionId: string, now: int)
    requires ClockUpTo(events, now)
    ensures ClockUpTo(WithoutEvictions(events), now)
    ensures LastBind(WithoutEvictions(events), sessionId) == LastBind(events, sessionId)
  {
    if events != [] {
      var init, e := events[..|events| - 1], events[|events| - 1];
      WithoutEvictionsKeeps(init, sessionId, if Timed(e) then e.at else now);
      if e.EvictStale? {
        assert WithoutEvictions(events) == WithoutEvictions(init);
        ClockAdvances(WithoutEvictions(init), e.at, now);
      } else {
        assert WithoutEvictions(events)[..|WithoutEvictions(init)|] == WithoutEvictions(init);
      }
    }
  }

  /** Evicting stale bindings is invisible. */
  lemma EvictionInvisible(events: seq<Event>, sessionId: string, now: int)
    requires ClockUpTo(events, now)
    ensures BindingFor(After(events), sessionId, now) == BindingFor(After(WithoutEvictions(events)), sessionId, now)
  {
    WithoutEvictionsKeeps(events, sessionId, now);
    BindingExactly(events, sessionId, now);
    BindingExactly(WithoutEvictions(events), sessionId, now);
  }

  /** With a clock that runs backwards it would not be: the eviction at a later time removes a binding
      that an earlier `now` still finds fresh. */
  lemma EvictionVisibleToEarlierClock()
    ensures var events := [Bind("s", "r", 0), EvictStale(BINDING_TTL + 1)];
            && BindingFor(After(events), "s", 0) == None
            && BindingFor(After(WithoutEvictions(events)), "s", 0) == Some("r")
  {
    var bound := [Bind("s", "r", 0)];
    var events := [Bind("s", "r", 0), EvictStale(BINDING_TTL + 1)];
    assert bound[..0] == [] && events[..1] == bound;
    assert After(bound) == Apply(Empty, bound[0]);
    assert WithoutEvictions(bound) == bound && WithoutEvictions(events) == bound;
  }

  // ---------- the object ----------

  /** `history` records the calls made so far; the two maps are what they lead to. */
  class GatewayRoutingState {
    var health: map<string, ProviderHealth>
    var bindings: map<string, SessionBinding>
    ghost var history: seq<Event>

    ghost predicate Valid()
      reads this
    {
      State(health, bindings) == After(history)
    }

    constructor ()
      ensures Valid() && history == []
    {
      health, bindings, history := map[], map[], [];
    }

    method IsBlacklisted(routeId: string, now: int) returns (blacklisted: bool)
      requires Valid()
      ensures blacklisted <==> FailuresSinceSuccess(history, routeId) >= 3
                               && LastFailure(history, routeId).Some?
                               && now < LastFailure(history, routeId).value + COOLDOWN
    {
      BlacklistedExactly(history, routeId, now);
      blacklisted := false;
      if routeId in health {
        var until := health[routeId].blacklistedUntil;
        blacklisted := until.Some? && now < until.value;
      }
    }

    method RecordSuccess(routeId: string)
      requires Valid()
      modifies this
      ensures Valid() && history == old(history) + [Success(routeId)]
    {
      if routeId in health {
        health := health[routeId := ProviderHealth(0, None)];
      }
      history := history + [Success(routeId)];
      assert history[..|history| - 1] == old(history);
    }

    method RecordFailure(routeId: string, now: int)
      requires Valid()
      modifies this
      ensures Valid() && history == old(history) + [Failure(routeId, now)]
    {
      var entry := ProviderHealth(0, None);
      if routeId in health {
        entry := health[routeId];
      }
      var failures := if entry.consecutiveFailures < U32_MAX then entry.consecutiveFailures + 1 else U32_MAX;
      entry := entry.(consecutiveFailures := failures);
      if failures >= FAILURE_THRESHOLD {
        entry := entry.(blacklistedUntil := Some(now + COOLDOWN));
      }
      health := health[routeId := entry];
      history := history + [Failure(routeId, now)];
      assert history[..|history| - 1] == old(history);
    }

    method RouteOf(sessionId: string, now: int) returns (route: Option<string>)
      requires Valid()
      ensures route == BindingFor(After(history), sessionId, now)
      ensures ClockUpTo(history, now) ==>
                var last := LastBind(history, sessionId);
                route
                == if last.Some? && now - last.value.lastUsed <= BINDING_TTL then Some(last.value.routeId) else None
    {
      if ClockUpTo(history, now) {
        BindingExactly(history, sessionId, now);
      }
      route := None;
      if sessionId in bindings && Since(now, bindings[sessionId].lastUsed) <= BINDING_TTL {
        route := Some(bindings[sessionId].routeId);
      }
    }

    method BindSession(sessionId: string, routeId: string, now: int)
      requires Valid()
      modifies this
      ensures Valid() && history == old(history) + [Bind(sessionId, routeId, now)]
    {
      bindings := bindings[sessionId := SessionBinding(routeId, now)];
      history := history + [Bind(sessionId, routeId, now)];
      assert history[..|history| - 1] == old(history);
    }

    method Evict(now: int)
      requires Valid()
      modifies this
      ensures Valid() && history == old(history) + [EvictStale(now)]
    {
      bindings := map session | session in bindings && Since(now, bindings[session].lastUsed) <= BINDING_TTL
                    :: bindings[session];
      history := history + [EvictStale(now)];
      assert history[..|history| - 1] == old(history);
    }
  }
}
