/**
 Many requests forwarded at once: every interleaving of the steps they take on the shared ticket counter
 and the shared connection pools.
 */
module Interleaving {
  import opened Machine
  import opened Bits
  import opened Balancer

  /** n upstreams, each keeping at most maxIdle idle connections, and a number of requests. */
  datatype Config = Config(n: nat, maxIdle: nat, requests: nat)

  /** Where a request is: it holds the ticket taken as number `ticket`, and `tried` upstreams have failed it. */
  datatype Phase =
    | Waiting
    | Choosing(ticket: nat, tried: nat)
    | Connected(ticket: nat, tried: nat)
    | Served(ticket: nat, tried: nat)
    | Unavailable(ticket: nat)

  datatype Attempt = Attempt(request: nat, upstream: nat, ok: bool)

  /** The counter, the pools and the requests, with the history of tickets and attempts. */
  datatype System = System(next: nat, idle: seq<nat>, phases: seq<Phase>, takers: seq<nat>, log: seq<Attempt>)

  /** One atomic step of one request. */
  datatype Event =
    | Take(r: nat)
    | Acquire(r: nat)
    | Refuse(r: nat)
    | Answer(r: nat)
    | Break(r: nat)

  function Init(cfg: Config): System {
    System(0, seq(cfg.n, _ => 0), seq(cfg.requests, _ => Waiting), [], [])
  }

  /** The first choice that goes with the t-th ticket taken. */
  function First(cfg: Config, t: nat): nat
    requires cfg.n > 0
  {
    Pick(t % WORD, cfg.n)
  }

  /** The upstream a request turns to after some failures. */
  function Target(cfg: Config, t: nat, tried: nat): (u: nat)
    requires cfg.n > 0
    ensures u < cfg.n
  {
    Turn(First(cfg, t), tried, cfg.n)
  }

  predicate Enabled(cfg: Config, s: System, e: Event)
    requires cfg.n > 0
  {
    && |s.idle| == cfg.n && e.r < |s.phases|
    && match e
       case Take(r) => s.phases[r].Waiting?
       case Acquire(r) => s.phases[r].Choosing?
       case Refuse(r) => s.phases[r].Choosing? && s.idle[Target(cfg, s.phases[r].ticket, s.phases[r].tried)] == 0
       case Answer(r) => s.phases[r].Connected?
       case Break(r) => s.phases[r].Connected?
  }

  /** A failed attempt clears the pool and moves on to the next upstream, or gives up after the last. */
  function Failed(cfg: Config, s: System, r: nat, t: nat, tried: nat): System
    requires cfg.n > 0 && |s.idle| == cfg.n && r < |s.phases|
  {
    var u := Target(cfg, t, tried);
    s.(idle := s.idle[u := 0],
       phases := s.phases[r := if tried + 1 < cfg.n then Choosing(t, tried + 1) else Unavailable(t)],
       log := s.log + [Attempt(r, u, false)])
  }

  function Apply(cfg: Config, s: System, e: Event): System
    requires cfg.n > 0 && Enabled(cfg, s, e)
  {
    match e
    case Take(r) =>
      s.(next := (s.next + 1) % WORD, phases := s.phases[r := Choosing(|s.takers|, 0)], takers := s.takers + [r])
    case Acquire(r) =>
      var p := s.phases[r];
      var u := Target(cfg, p.ticket, p.tried);
      s.(idle := s.idle[u := if s.idle[u] > 0 then s.idle[u] - 1 else 0],
         phases := s.phases[r := Connected(p.ticket, p.tried)])
    case Refuse(r) =>
      Failed(cfg, s, r, s.phases[r].ticket, s.phases[r].tried)
    case Answer(r) =>
      var p := s.phases[r];
      var u := Target(cfg, p.ticket, p.tried);
      s.(idle := s.idle[u := if s.idle[u] < cfg.maxIdle then s.idle[u] + 1 else s.idle[u]],
         phases := s.phases[r := Served(p.ticket, p.tried)],
         log := s.log + [Attempt(r, u, true)])
    case Break(r) =>
      Failed(cfg, s, r, s.phases[r].ticket, s.phases[r].tried)
  }

  /** The state after a run, or None when some event could not happen. */
  function After(cfg: Config, events: seq<Event>): Option<System>
    requires cfg.n > 0
  {
    if events == [] then Some(Init(cfg))
    else
      var before := After(cfg, events[..|events| - 1]);
      var e := events[|events| - 1];
      if before.Some? && Enabled(cfg, before.value, e) then Some(Apply(cfg, before.value, e)) else None
  }

  // ---- what every run keeps ---------------------------------------------------------------------------

  /** The attempts of one request, in order. */
  function AttemptsOf(log: seq<Attempt>, r: nat): seq<Attempt> {
    if log == [] then []
    else
      var n := |log| - 1;
      AttemptsOf(log[..n], r) + if log[n].request == r then [log[n]] else []
  }

  /** The first k upstreams of the ticket's rotation, each failing the request. */
  function Failures(cfg: Config, r: nat, t: nat, k: nat): (a: seq<Attempt>)
    requires cfg.n > 0
    ensures |a| == k && forall j :: 0 <= j < k ==> a[j] == Attempt(r, Target(cfg, t, j), false)
  {
    seq<Attempt>(k, (j: nat) => Attempt(r, Target(cfg, t, j), false))
  }

  ghost predicate PhaseHolds(cfg: Config, s: System, r: nat)
    requires cfg.n > 0 && r < |s.phases|
  {
    var a := AttemptsOf(s.log, r);
    match s.phases[r]
    case Waiting => r !in s.takers && a == []
    case Choosing(t, k) => Holds(s, r, t) && k < cfg.n && a == Failures(cfg, r, t, k)
    case Connected(t, k) => Holds(s, r, t) && k < cfg.n && a == Failures(cfg, r, t, k)
    case Served(t, k) =>
      Holds(s, r, t) && k < cfg.n && a == Failures(cfg, r, t, k) + [Attempt(r, Target(cfg, t, k), true)]
    case Unavailable(t) => Holds(s, r, t) && a == Failures(cfg, r, t, cfg.n)
  }

  /** Ticket t was taken by request r. */
  ghost predicate Holds(s: System, r: nat, t: nat) {
    t < |s.takers| && s.takers[t] == r
  }

  ghost predicate Invariant(cfg: Config, s: System)
    requires cfg.n > 0
  {
    && |s.idle| == cfg.n && |s.phases| == cfg.requests && s.next == |s.takers| % WORD
    && (forall u :: 0 <= u < cfg.n ==> s.idle[u] <= cfg.maxIdle)
    && (forall i :: 0 <= i < |s.takers| ==> s.takers[i] < cfg.requests)
    && (forall i, j :: 0 <= i < j < |s.takers| ==> s.takers[i] != s.takers[j])
    && (forall r :: 0 <= r < cfg.requests ==> PhaseHolds(cfg, s, r))
  }

  lemma AttemptsOfSnoc(log: seq<Attempt>, a: Attempt, r: nat)
    ensures AttemptsOf(log + [a], r) == AttemptsOf(log, r) + if a.request == r then [a] else []
  {
    assert (log + [a])[..|log|] == log;
  }

  lemma NextTicket(k: nat)
    ensures (k % WORD + 1) % WORD == (k + 1) % WORD
  {
    NextRemainder(k, WORD);
  }

  /** A step that only appends an attempt of its own request, or none, leaves other requests as they were. */
  lemma OthersKept(cfg: Config, s: System, s': System, r: nat)
    requires cfg.n > 0 && Invariant(cfg, s) && r < cfg.requests && |s'.phases| == cfg.requests
    requires forall x :: 0 <= x < cfg.requests && x != r ==> s'.phases[x] == s.phases[x]
    requires s'.takers == s.takers || s'.takers == s.takers + [r]
    requires s'.log == s.log
             || (|s'.log| > 0 && s'.log == s.log + [s'.log[|s'.log| - 1]] && s'.log[|s'.log| - 1].request == r)
    ensures forall x :: 0 <= x < cfg.requests && x != r ==> PhaseHolds(cfg, s', x)
  {
    hide Failures, Target;
    forall x | 0 <= x < cfg.requests && x != r
      ensures PhaseHolds(cfg, s', x)
    {
      assert PhaseHolds(cfg, s, x);
      if s'.log != s.log {
        AttemptsOfSnoc(s.log, s'.log[|s'.log| - 1], x);
      }
    }
  }

  lemma OneMoreFailure(cfg: Config, r: nat, t: nat, k: nat)
    requires cfg.n > 0
    ensures Failures(cfg, r, t, k + 1) == Failures(cfg, r, t, k) + [Attempt(r, Target(cfg, t, k), false)]
  {
  }

  lemma FailedKeepsInvariant(cfg: Config, s: System, r: nat)
    requires cfg.n > 0 && Invariant(cfg, s) && r < cfg.requests && (s.phases[r].Choosing? || s.phases[r].Connected?)
    ensures Invariant(cfg, Failed(cfg, s, r, s.phases[r].ticket, s.phases[r].tried))
  {
    hide Failures, Target, AttemptsOf;
    var t, k := s.phases[r].ticket, s.phases[r].tried;
    var s', a := Failed(cfg, s, r, t, k), Attempt(r, Target(cfg, t, k), false);
    assert PhaseHolds(cfg, s, r);
    AttemptsOfSnoc(s.log, a, r);
    OneMoreFailure(cfg, r, t, k);
    OthersKept(cfg, s, s', r);
    assert PhaseHolds(cfg, s', r);
  }

  lemma TakeKeepsInvariant(cfg: Config, s: System, r: nat)
    requires cfg.n > 0 && Invariant(cfg, s) && Enabled(cfg, s, Take(r))
    ensures Invariant(cfg, Apply(cfg, s, Take(r)))
  {
    hide Target, AttemptsOf;
    var s' := Apply(cfg, s, Take(r));
    assert PhaseHolds(cfg, s, r);
    NextTicket(|s.takers|);
    OthersKept(cfg, s, s', r);
    assert Failures(cfg, r, |s.takers|, 0) == [];
    assert PhaseHolds(cfg, s', r);
  }

  lemma ConnectKeepsInvariant(cfg: Config, s: System, e: Event)
    requires cfg.n > 0 && Invariant(cfg, s) && Enabled(cfg, s, e) && (e.Acquire? || e.Answer?)
    ensures Invariant(cfg, Apply(cfg, s, e))
  {
    hide Failures, Target, AttemptsOf;
    var s', p := Apply(cfg, s, e), s.phases[e.r];
    assert PhaseHolds(cfg, s, e.r);
    if e.Answer? {
      AttemptsOfSnoc(s.log, Attempt(e.r, Target(cfg, p.ticket, p.tried), true), e.r);
    }
    OthersKept(cfg, s, s', e.r);
    assert PhaseHolds(cfg, s', e.r);
  }

  /** Every step of every interleaving keeps the invariant. */
  lemma StepKeepsInvariant(cfg: Config, s: System, e: Event)
    requires cfg.n > 0 && Invariant(cfg, s) && Enabled(cfg, s, e)
    ensures Invariant(cfg, Apply(cfg, s, e))
  {
    hide Invariant;
    match e
    case Take(r) => TakeKeepsInvariant(cfg, s, r);
    case Acquire(_) => ConnectKeepsInvariant(cfg, s, e);
    case Answer(_) => ConnectKeepsInvariant(cfg, s, e);
    case Refuse(r) => PhaseCount(cfg, s); FailedKeepsInvariant(cfg, s, r);
    case Break(r) => PhaseCount(cfg, s); FailedKeepsInvariant(cfg, s, r);
  }

  lemma PhaseCount(cfg: Config, s: System)
    requires cfg.n > 0 && Invariant(cfg, s)
    ensures |s.phases| == cfg.requests
  {
  }

  lemma {:induction false} RunsKeepInvariant(cfg: Config, events: seq<Event>)
    requires cfg.n > 0 && After(cfg, events).Some?
    ensures Invariant(cfg, After(cfg, events).value)
  {
    if events != [] {
      var n := |events| - 1;
      RunsKeepInvariant(cfg, events[..n]);
      StepKeepsInvariant(cfg, After(cfg, events[..n]).value, events[n]);
    }
  }

  // ---- what the invariant means --------------------------------------------------------------------------

  /** The first choices of m consecutive tickets, from ticket t on. */
  function FirstChoices(cfg: Config, t: nat, m: nat): (picks: seq<nat>)
    requires cfg.n > 0
    ensures |picks| == m && forall i :: 0 <= i < m ==> picks[i] == First(cfg, t + i)
  {
    seq<nat>(m, (i: nat) => First(cfg, t + i))
  }

  /**
   Fair rotation under any interleaving: any k rounds of consecutive tickets that do not straddle the
   counter's wrap-around make each upstream the first choice k times.
   */
  lemma FirstChoicesAreFair(cfg: Config, t: nat, k: nat, u: nat)
    requires u < cfg.n && t % WORD + k * cfg.n <= WORD
    ensures multiset(FirstChoices(cfg, t, k * cfg.n))[u] == k
  {
    var m := k * cfg.n;
    forall i | 0 <= i < m
      ensures FirstChoices(cfg, t, m)[i] == Pick(t % WORD + i, cfg.n)
    {
      OffsetRemainder(t, i, WORD);
    }
    assert FirstChoices(cfg, t, m) == Rotation(t % WORD, m, cfg.n);
    FairRotation(t % WORD, k, cfg.n, u);
  }

  lemma OffsetRemainder(t: nat, i: nat, n: nat)
    requires n > 0 && t % n + i < n
    ensures (t + i) % n == t % n + i
  {
    DivUnique(t + i, n, t / n, t % n + i);
  }

  /** In every reachable state each request has its own ticket, and its attempts follow that ticket's rotation. */
  lemma {:induction false} AttemptsFollowTickets(cfg: Config, events: seq<Event>, r: nat, s: System)
    requires cfg.n > 0 && After(cfg, events) == Some(s) && r < |s.phases| && !s.phases[r].Waiting?
    ensures var t, a := s.phases[r].ticket, AttemptsOf(s.log, r);
            && Holds(s, r, t) && |a| <= cfg.n
            && (forall j :: 0 <= j < |a| ==> a[j].upstream == Target(cfg, t, j))
            && (forall j :: 0 <= j < |a| ==> (a[j].ok <==> j == |a| - 1 && s.phases[r].Served?))
  {
    RunsKeepInvariant(cfg, events);
    assert PhaseHolds(cfg, s, r);
  }

  /** The holder of ticket t has finished an attempt. */
  ghost predicate HasAttempted(s: System, t: nat) {
    t < |s.takers| && AttemptsOf(s.log, s.takers[t]) != []
  }

  /** The upstream that the holder of ticket t tried first. */
  ghost function FirstAttempt(s: System, t: nat): nat
    requires HasAttempted(s, t)
  {
    AttemptsOf(s.log, s.takers[t])[0].upstream
  }

  ghost predicate AllAttempted(s: System, t: nat, m: nat) {
    forall j: nat :: t <= j < t + m ==> HasAttempted(s, j)
  }

  /** The upstreams that the holders of m consecutive tickets tried first. */
  ghost function FirstAttempts(s: System, t: nat, m: nat): (picks: seq<nat>)
    requires AllAttempted(s, t, m)
    ensures |picks| == m && forall i :: 0 <= i < m ==> HasAttempted(s, t + i) && picks[i] == FirstAttempt(s, t + i)
  {
    seq<nat>(m, i requires 0 <= i < m => FirstAttempt(s, t + i))
  }

  /** The first attempt of a ticket's holder, once it is logged, is at the ticket's first choice. */
  lemma FirstAttemptIs(cfg: Config, s: System, t: nat)
    requires cfg.n > 0 && Invariant(cfg, s) && HasAttempted(s, t)
    ensures FirstAttempt(s, t) == First(cfg, t)
  {
    hide AttemptsOf;
    var r := s.takers[t];
    assert PhaseHolds(cfg, s, r);
    TicketIs(cfg, s, t);
    TurnIs(First(cfg, t), 0, cfg.n);
  }

  /** The phase of a ticket's holder records that ticket. */
  lemma TicketIs(cfg: Config, s: System, t: nat)
    requires cfg.n > 0 && Invariant(cfg, s) && t < |s.takers|
    ensures var p := s.phases[s.takers[t]]; !p.Waiting? && p.ticket == t
  {
    hide AttemptsOf, Failures, Target;
    assert PhaseHolds(cfg, s, s.takers[t]);
  }

  /**
   Fair rotation in every reachable state: once the holders of k rounds of consecutive tickets, taken before the
   counter wraps around, have finished their first attempts, each upstream has had k of these.
   */
  lemma {:induction false} FirstAttemptsAreFair(
      cfg: Config, events: seq<Event>, s: System, t: nat, k: nat, u: nat)
    requires cfg.n > 0 && After(cfg, events) == Some(s) && u < cfg.n
    requires t % WORD + k * cfg.n <= WORD && AllAttempted(s, t, k * cfg.n)
    ensures multiset(FirstAttempts(s, t, k * cfg.n))[u] == k
  {
    hide AttemptsOf, After, Invariant, First, HasAttempted, FirstAttempt, AllAttempted;
    RunsKeepInvariant(cfg, events);
    FirstChoicesAreFair(cfg, t, k, u);
    AttemptsAreChoices(cfg, s, t, k * cfg.n);
  }

  lemma AttemptsAreChoices(cfg: Config, s: System, t: nat, m: nat)
    requires cfg.n > 0 && Invariant(cfg, s) && AllAttempted(s, t, m)
    ensures FirstAttempts(s, t, m) == FirstChoices(cfg, t, m)
  {
    hide Invariant, HasAttempted, FirstAttempt;
    forall i | 0 <= i < m
      ensures FirstAttempts(s, t, m)[i] == FirstChoices(cfg, t, m)[i]
    {
      FirstAttemptIs(cfg, s, t + i);
    }
  }

  // ---- what the pools hold --------------------------------------------------------------------------------

  /** Attempts at an upstream that succeeded since the last one that failed. */
  function SuccessesSince(log: seq<Attempt>, u: nat): nat {
    if log == [] then 0
    else
      var a := log[|log| - 1];
      if a.upstream != u then SuccessesSince(log[..|log| - 1], u)
      else if a.ok then SuccessesSince(log[..|log| - 1], u) + 1
      else 0
  }

  lemma SuccessesSnoc(log: seq<Attempt>, a: Attempt, u: nat)
    ensures SuccessesSince(log + [a], u)
            == if a.upstream != u then SuccessesSince(log, u) else if a.ok then SuccessesSince(log, u) + 1 else 0
  {
    assert (log + [a])[..|log|] == log;
  }

  ghost predicate PoolsBounded(cfg: Config, s: System) {
    |s.idle| == cfg.n && forall u: nat :: u < cfg.n ==> s.idle[u] <= SuccessesSince(s.log, u)
  }

  lemma StepBoundsPools(cfg: Config, s: System, e: Event)
    requires cfg.n > 0 && PoolsBounded(cfg, s) && Enabled(cfg, s, e)
    ensures PoolsBounded(cfg, Apply(cfg, s, e))
  {
    hide SuccessesSince, Target;
    var s' := Apply(cfg, s, e);
    forall u: nat | u < cfg.n
      ensures s'.idle[u] <= SuccessesSince(s'.log, u)
    {
      if s'.log != s.log {
        assert |s'.log| == |s.log| + 1 && s'.log == s.log + [s'.log[|s.log|]];
        SuccessesSnoc(s.log, s'.log[|s.log|], u);
      }
    }
  }

  /**
   In every reachable state a pool holds no more connections than attempts at its upstream succeeded since the
   last failure: so after a failed attempt it stays cleared until the next success.
   */
  lemma {:induction false} PoolsStayCleared(cfg: Config, events: seq<Event>, s: System, u: nat)
    requires cfg.n > 0 && After(cfg, events) == Some(s) && u < cfg.n
    ensures |s.idle| == cfg.n && s.idle[u] <= SuccessesSince(s.log, u)
  {
    RunsBoundPools(cfg, events);
  }

  lemma {:induction false} RunsBoundPools(cfg: Config, events: seq<Event>)
    requires cfg.n > 0 && After(cfg, events).Some?
    ensures PoolsBounded(cfg, After(cfg, events).value)
  {
    if events != [] {
      var n := |events| - 1;
      RunsBoundPools(cfg, events[..n]);
      StepBoundsPools(cfg, After(cfg, events[..n]).value, events[n]);
    }
  }

  /** No request ever tries an upstream twice. */
  lemma {:induction false} NoUpstreamTwice(cfg: Config, events: seq<Event>, r: nat, s: System)
    requires cfg.n > 0 && After(cfg, events) == Some(s) && r < |s.phases|
    ensures var a := AttemptsOf(s.log, r);
            forall i, j :: 0 <= i < j < |a| ==> a[i].upstream != a[j].upstream
  {
    RunsKeepInvariant(cfg, events);
    assert PhaseHolds(cfg, s, r);
    var a := AttemptsOf(s.log, r);
    if !s.phases[r].Waiting? {
      AttemptsFollowTickets(cfg, events, r, s);
      forall i, j | 0 <= i < j < |a|
        ensures a[i].upstream != a[j].upstream
      {
        TurnsDiffer(First(cfg, s.phases[r].ticket), i, j, cfg.n);
      }
    }
  }

  /** A request gives up exactly when every upstream has failed it; it is served by one after failures alone. */
  lemma {:induction false} GivesUpIffAllFailed(cfg: Config, events: seq<Event>, r: nat, s: System)
    requires cfg.n > 0 && After(cfg, events) == Some(s) && r < |s.phases|
    ensures s.phases[r].Unavailable? <==> forall u: nat :: u < cfg.n ==> Attempt(r, u, false) in AttemptsOf(s.log, r)
  {
    hide Invariant, Target, AttemptsOf, After, Failures;
    RunsKeepInvariant(cfg, events);
    PhaseCount(cfg, s);
    PhaseOf(cfg, s, r);
    var a, p := AttemptsOf(s.log, r), s.phases[r];
    if p.Unavailable? {
      AllTurnsFail(cfg, r, p.ticket, a);
    } else if p.Waiting? {
      assert Attempt(r, 0, false) !in a;
    } else {
      LastTurnUntried(cfg, r, p.ticket, p.tried, a);
      var u := Target(cfg, p.ticket, p.tried);
      assert u < cfg.n && Attempt(r, u, false) !in a;
    }
  }

  lemma PhaseOf(cfg: Config, s: System, r: nat)
    requires cfg.n > 0 && Invariant(cfg, s) && r < |s.phases|
    ensures PhaseHolds(cfg, s, r)
  {
  }

  lemma AllTurnsFail(cfg: Config, r: nat, t: nat, a: seq<Attempt>)
    requires cfg.n > 0 && a == Failures(cfg, r, t, cfg.n)
    ensures forall u: nat :: u < cfg.n ==> Attempt(r, u, false) in a
  {
    forall u: nat | u < cfg.n
      ensures Attempt(r, u, false) in a
    {
      RoundTriesAll(First(cfg, t), cfg.n, u);
      var j: nat :| j < cfg.n && Turn(First(cfg, t), j, cfg.n) == u;
      assert a[j] == Attempt(r, u, false);
    }
  }

  lemma LastTurnUntried(cfg: Config, r: nat, t: nat, k: nat, a: seq<Attempt>)
    requires k < cfg.n
    requires a == Failures(cfg, r, t, k) || a == Failures(cfg, r, t, k) + [Attempt(r, Target(cfg, t, k), true)]
    ensures Attempt(r, Target(cfg, t, k), false) !in a
  {
    forall j | 0 <= j < k
      ensures Target(cfg, t, j) != Target(cfg, t, k)
    {
      TurnsDiffer(First(cfg, t), j, k, cfg.n);
    }
  }
}
