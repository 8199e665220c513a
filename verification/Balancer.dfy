/**
 Choosing an upstream for each request and retrying on the others: the ticket counter, one request's
 attempts, and any interleaving of many requests.
 */
module Balancer {
  import opened Machine
  import opened Bits
  import opened HttpFraming

  // ---- tickets ------------------------------------------------------------------------------------

  /** The upstream that ticket t chooses among n. */
  function Pick(t: nat, n: nat): (u: nat)
    requires n > 0
    ensures u < n
  {
    t % n
  }

  lemma LowBitIsParity(t: nat)
    ensures And(t, 1) == t % 2
  {
  }

  class RoundRobin {
    const upstreamCount: nat
    var next: nat

    ghost predicate Valid()
      reads this
    {
      upstreamCount > 0 && next < WORD
    }

    constructor (upstreamCount: nat)
      requires upstreamCount > 0
      ensures Valid() && this.upstreamCount == upstreamCount && next == 0
    {
      this.upstreamCount, next := upstreamCount, 0;
    }

    /** Takes a ticket; the counter wraps around. */
    method Next() returns (u: nat)
      requires Valid()
      modifies this`next
      ensures Valid() && next == (old(next) + 1) % WORD
      ensures u == Pick(old(next), upstreamCount)
    {
      var value := next;
      next := (next + 1) % WORD;
      if upstreamCount == 2 {
        LowBitIsParity(value);
        u := And(value, 1);
      } else {
        u := value % upstreamCount;
      }
    }
  }

  /** The first tickets go to the upstreams in their order, and later ones start over. */
  lemma TicketsStartOver(t: nat, n: nat)
    requires n > 0
    ensures t < n ==> Pick(t, n) == t
    ensures Pick(t + n, n) == Pick(t, n)
  {
    SmallRemainder(t % n, n);
    PickRepeats(t, n);
    if t < n {
      RemainderUnique(t, n, 0, t);
    }
  }

  /** The choices of m consecutive tickets. */
  function Rotation(t: nat, m: nat, n: nat): (picks: seq<nat>)
    requires n > 0
    ensures |picks| == m && forall i :: 0 <= i < m ==> picks[i] == Pick(t + i, n)
  {
    seq<nat>(m, (i: nat) => Pick(t + i, n))
  }

  lemma {:induction false} CountBelow(n: nat, m: nat, u: nat)
    requires 0 < m <= n
    ensures multiset(Rotation(0, m, n))[u] == if u < m then 1 else 0
  {
    var r, head := Rotation(0, m, n), Rotation(0, m - 1, n);
    assert r == head + [m - 1];
    if m > 1 {
      CountBelow(n, m - 1, u);
    } else {
      assert head == [];
    }
  }

  /** Any n consecutive tickets choose each of n upstreams once. */
  lemma {:induction false} EachOnce(t: nat, n: nat, u: nat)
    requires u < n
    ensures multiset(Rotation(t, n, n))[u] == 1
  {
    if t == 0 {
      CountBelow(n, n, u);
    } else {
      EachOnce(t - 1, n, u);
      var was, now, rest := Rotation(t - 1, n, n), Rotation(t, n, n), Rotation(t, n - 1, n);
      PickRepeats(t - 1, n);
      assert was == [Pick(t - 1, n)] + rest;
      assert now == rest + [Pick(t - 1, n)];
    }
  }

  lemma PickRepeats(t: nat, n: nat)
    requires n > 0
    ensures Pick(t + n, n) == Pick(t, n)
  {
    var q := t / n;
    assert t == n * q + t % n && n * (q + 1) == n * q + n;
    DivUnique(t + n, n, q + 1, t % n);
  }

  /** Fair rotation: k rounds of consecutive tickets choose each upstream k times. */
  lemma {:induction false} FairRotation(t: nat, k: nat, n: nat, u: nat)
    requires u < n
    ensures multiset(Rotation(t, k * n, n))[u] == k
  {
    if k > 0 {
      var m := (k - 1) * n;
      assert k * n == m + n;
      FairRotation(t, k - 1, n, u);
      EachOnce(t + m, n, u);
      assert Rotation(t, k * n, n) == Rotation(t, m, n) + Rotation(t + m, n, n);
    }
  }

  /** The rotation goes on across the counter's wrap-around exactly when n divides the counter's range. */
  lemma WrapKeepsRotationIff(n: nat)
    requires n > 0
    ensures Pick(0, n) == Turn(Pick(WORD - 1, n), 1, n) <==> WORD % n == 0
  {
    WrapOf(WORD, n);
  }

  lemma WrapOf(range: nat, n: nat)
    requires range > 0 && n > 0
    ensures Pick(0, n) == Turn(Pick(range - 1, n), 1, n) <==> range % n == 0
  {
    NextRemainder(range - 1, n);
    SmallRemainder(0, n);
  }

  // ---- one request ----------------------------------------------------------------------------------

  /** What a connection does with a request: take the bytes or not, and send these chunks. */
  datatype Behaviour = Behaviour(writes: bool, stream: seq<Read>)

  /** What an attempt meets: the next pooled connection, whether a new one is accepted, and what that does. */
  datatype Exchange = Exchange(pooled: Behaviour, connects: bool, established: Behaviour)

  /** The connection an attempt uses: a pooled one before a new one. */
  function Used(x: Exchange, idle: nat): Behaviour {
    if idle > 0 then x.pooled else x.established
  }

  /** What the connection sends back, read as one message. */
  function Response(x: Exchange, idle: nat): Done {
    ReadMessage([], Used(x, idle).stream, false)
  }

  /** An attempt succeeds when there is a connection that takes the request and sends a whole message. */
  predicate Answers(x: Exchange, idle: nat) {
    (idle > 0 || x.connects) && Used(x, idle).writes && Response(x, idle).outcome == Complete
  }

  class UpstreamPool {
    const maxIdle: nat
    var idle: nat

    constructor (maxIdle: nat)
      ensures this.maxIdle == maxIdle && idle == 0
    {
      this.maxIdle, idle := maxIdle, 0;
    }

    /** Takes a pooled connection, or opens one. */
    method Acquire(x: Exchange) returns (ok: bool)
      modifies this`idle
      ensures ok <==> old(idle) > 0 || x.connects
      ensures idle == Left(old(idle))
    {
      if idle > 0 {
        idle := idle - 1;
        return true;
      }
      ok := x.connects;
    }

    method Release()
      modifies this`idle
      ensures idle == if old(idle) < maxIdle then old(idle) + 1 else old(idle)
    {
      if idle < maxIdle {
        idle := idle + 1;
      }
    }

    method ClearIdle()
      modifies this`idle
      ensures idle == 0
    {
      idle := 0;
    }
  }

  /** Idle connections while an attempt uses one, and after it failed. */
  function Left(idle: nat): nat {
    if idle > 0 then idle - 1 else 0
  }

  /** Idle connections after a successful attempt. */
  function Reused(idle: nat, maxIdle: nat): nat {
    if Left(idle) < maxIdle then Left(idle) + 1 else Left(idle)
  }

  /** A success hands its connection back to a pool with room for it: the count in numbers. */
  ghost predicate HandsBack(was: nat, maxIdle: nat, now: nat) {
    && (was == 0 && maxIdle > 0 ==> now == 1)
    && (was == 0 && maxIdle == 0 ==> now == 0)
    && (0 < was <= maxIdle ==> now == was)
    && (was > maxIdle ==> now == was - 1)
  }

  lemma ReusedHandsBack(idle: nat, maxIdle: nat)
    ensures HandsBack(idle, maxIdle, Reused(idle, maxIdle))
    ensures Left(idle) == if idle == 0 then 0 else idle - 1
  {
  }

  method ForwardOnce(pool: UpstreamPool, x: Exchange, response: Buffer) returns (ok: bool)
    requires response.bytes == []
    modifies pool`idle, response
    ensures ok <==> Answers(x, old(pool.idle))
    ensures ok ==> response.bytes == Response(x, old(pool.idle)).buf
    ensures pool.idle == if ok then Reused(old(pool.idle), pool.maxIdle) else Left(old(pool.idle))
    ensures ok ==> HandsBack(old(pool.idle), pool.maxIdle, pool.idle)
    ensures !ok ==> pool.idle == if old(pool.idle) == 0 then 0 else old(pool.idle) - 1
  {
    hide ReadMessage;
    ReusedHandsBack(pool.idle, pool.maxIdle);
    var connection := Used(x, pool.idle);
    var acquired := pool.Acquire(x);
    if !acquired || !connection.writes {
      return false;
    }
    var upstream := new Connection(connection.stream);
    var outcome := ReadHttpMessage(upstream, response);
    ok := outcome == Complete;
    if ok {
      pool.Release();
    }
  }

  ghost predicate Pools(pools: seq<UpstreamPool>, exchanges: seq<Exchange>) {
    && |pools| == |exchanges|
    && forall i, j :: 0 <= i < j < |pools| ==> pools[i] != pools[j]
  }

  /** The idle counts of the pools. */
  ghost function Idle(pools: seq<UpstreamPool>): (r: seq<nat>)
    reads pools
    ensures |r| == |pools| && forall u :: 0 <= u < |pools| ==> r[u] == pools[u].idle
  {
    seq(|pools|, u requires 0 <= u < |pools| reads pools => pools[u].idle)
  }

  /** The k-th upstream a request tries. */
  function Turn(first: nat, k: nat, n: nat): (u: nat)
    requires n > 0
    ensures u < n
  {
    (first + k) % n
  }

  /** The first k upstreams of the rotation, from first on, all fail. */
  ghost predicate FirstFail(exchanges: seq<Exchange>, idle: seq<nat>, first: nat, k: nat)
    requires |exchanges| == |idle| > 0
  {
    forall j: nat :: j < k ==> !Answers(exchanges[Turn(first, j, |idle|)], idle[Turn(first, j, |idle|)])
  }

  ghost predicate Tried(first: nat, k: nat, n: nat, u: nat)
    requires n > 0
  {
    exists j: nat :: j < k && Turn(first, j, n) == u
  }

  /** After k failed attempts exactly the pools of the first k upstreams are cleared. */
  ghost predicate ClearedFirst(was: seq<nat>, now: seq<nat>, first: nat, k: nat)
    requires |was| == |now| > 0
  {
    forall u: nat :: u < |was| ==> now[u] == if Tried(first, k, |was|, u) then 0 else was[u]
  }

  /** Different turns of one round are different upstreams. */
  lemma TurnsDiffer(first: nat, i: nat, j: nat, n: nat)
    requires i < j < n && first < n
    ensures Turn(first, i, n) != Turn(first, j, n)
  {
    TurnIs(first, i, n);
    TurnIs(first, j, n);
  }

  lemma TurnIs(first: nat, k: nat, n: nat)
    requires first < n && k < n
    ensures Turn(first, k, n) == if first + k < n then first + k else first + k - n
  {
  }

  /** A full round tries every upstream. */
  lemma RoundTriesAll(first: nat, n: nat, u: nat)
    requires first < n && u < n
    ensures Tried(first, n, n, u)
  {
    var k := if u >= first then u - first else u + n - first;
    TurnIs(first, k, n);
  }

  /** One attempt: the pool of an upstream that fails is cleared, no other pool is touched. */
  method TryUpstream(pools: seq<UpstreamPool>, exchanges: seq<Exchange>, u: nat, response: Buffer) returns (ok: bool)
    requires Pools(pools, exchanges) && u < |pools|
    modifies pools, response
    ensures ok <==> Answers(exchanges[u], old(Idle(pools))[u])
    ensures ok ==> response.bytes == Response(exchanges[u], old(Idle(pools))[u]).buf
    ensures Idle(pools) == old(Idle(pools))[u := if ok then Reused(old(Idle(pools))[u], pools[u].maxIdle) else 0]
    ensures ok ==> HandsBack(old(Idle(pools))[u], pools[u].maxIdle, pools[u].idle)
  {
    hide Response, Answers, Reused, Left, HandsBack, Pools;
    OnePoolOnly(pools, exchanges, u);
    response.bytes := [];
    ok := ForwardOnce(pools[u], exchanges[u], response);
    if !ok {
      pools[u].ClearIdle();
    }
    assert forall v :: 0 <= v < |pools| && v != u ==> pools[v].idle == old(pools[v].idle);
  }

  lemma OnePoolOnly(pools: seq<UpstreamPool>, exchanges: seq<Exchange>, u: nat)
    requires Pools(pools, exchanges) && u < |pools|
    ensures |pools| == |exchanges| && forall v :: 0 <= v < |pools| && v != u ==> pools[v] != pools[u]
  {
  }

  /**
   Tries each upstream once, from the one the ticket chooses on, until one answers. It is unavailable
   exactly when none answers; the pools of the upstreams that failed are cleared, and no others.
   */
  method ForwardWithRetry(balancer: RoundRobin, pools: seq<UpstreamPool>, exchanges: seq<Exchange>, response: Buffer)
    returns (served: Option<nat>)
    requires balancer.Valid() && balancer.upstreamCount == |pools| && Pools(pools, exchanges)
    modifies balancer`next, pools, response
    ensures balancer.Valid() && balancer.next == (old(balancer.next) + 1) % WORD
    ensures Forwarded(pools, exchanges, old(Idle(pools)), Pick(old(balancer.next), |pools|), served)
    ensures served.Some? ==> response.bytes == Response(exchanges[served.value], old(Idle(pools))[served.value]).buf
    ensures served.Some? ==> var u := served.value;
                             HandsBack(old(Idle(pools))[u], pools[u].maxIdle, pools[u].idle)
  {
    hide Turn, Response, Answers, FirstFail, ClearedFirst, Reused, Pools, Forwarded, HandsBack;
    ghost var was := Idle(pools);
    var n := |pools|;
    var first := balancer.Next();
    assert |exchanges| == n by { PoolCount(pools, exchanges); }
    NoneTried(exchanges, was, first);
    for offset := 0 to n
      invariant balancer.Valid() && balancer.next == (old(balancer.next) + 1) % WORD
      invariant FirstFail(exchanges, was, first, offset)
      invariant ClearedFirst(was, Idle(pools), first, offset)
    {
      var u := Turn(first, offset, n);
      ghost var before := Idle(pools);
      NextIsUntouched(was, before, first, offset);
      var ok := TryUpstream(pools, exchanges, u, response);
      if ok {
        ServedAt(pools, exchanges, was, before, Idle(pools), first, offset);
        return Some(u);
      }
      OneMoreTried(was, before, Idle(pools), first, offset);
      OneMoreFails(exchanges, was, first, offset);
    }
    served := None;
    AllTried(pools, exchanges, was, Idle(pools), first);
  }

  lemma PoolCount(pools: seq<UpstreamPool>, exchanges: seq<Exchange>)
    requires Pools(pools, exchanges)
    ensures |pools| == |exchanges|
  {
  }

  /**
   The outcome of one request, from the idle counts before it: nobody answers and every pool is cleared, or the
   first upstream in the rotation that answers serves it and the pools of those before it are cleared.
   */
  ghost predicate Forwarded(
      pools: seq<UpstreamPool>, exchanges: seq<Exchange>, was: seq<nat>, first: nat, served: Option<nat>)
    requires |pools| == |exchanges| == |was|
    reads pools
  {
    if served.None? then
      forall u :: 0 <= u < |pools| ==> !Answers(exchanges[u], was[u]) && Idle(pools)[u] == 0
    else
      && ServedBy(exchanges, was, first, served.value)
      && Idle(pools)[served.value] == Reused(was[served.value], pools[served.value].maxIdle)
      && forall u :: 0 <= u < |pools| && u != served.value ==>
           Idle(pools)[u] == if TriedBefore(first, |pools|, u, served.value) then 0 else was[u]
  }

  /** u answers, and every upstream whose turn comes before fails. */
  ghost predicate ServedBy(exchanges: seq<Exchange>, idle: seq<nat>, first: nat, u: nat)
    requires |exchanges| == |idle|
  {
    && first < |idle| && u < |idle| && Answers(exchanges[u], idle[u])
    && forall v :: 0 <= v < |idle| && TriedBefore(first, |idle|, v, u) ==> !Answers(exchanges[v], idle[v])
  }

  /** In the rotation from first on, v comes before u. */
  ghost predicate TriedBefore(first: nat, n: nat, v: nat, u: nat) {
    first < n && v < n && u < n && (v + n - first) % n < (u + n - first) % n
  }

  lemma RankOfTurn(first: nat, k: nat, n: nat)
    requires first < n && k < n
    ensures (Turn(first, k, n) + n - first) % n == k
  {
    TurnIs(first, k, n);
  }

  lemma NotYetTried(first: nat, k: nat, n: nat)
    requires first < n && k < n
    ensures !Tried(first, k, n, Turn(first, k, n))
  {
    forall j: nat | j < k
      ensures Turn(first, j, n) != Turn(first, k, n)
    {
      TurnsDiffer(first, j, k, n);
    }
  }

  /** Before the k-th turn exactly the upstreams of smaller rank have been tried. */
  lemma TriedIsBefore(first: nat, k: nat, n: nat, v: nat)
    requires first < n && k < n && v < n
    ensures Tried(first, k, n, v) <==> TriedBefore(first, n, v, Turn(first, k, n))
  {
    hide Turn;
    RankOfTurn(first, k, n);
    RoundTriesAll(first, n, v);
    var j: nat :| j < n && Turn(first, j, n) == v;
    RankOfTurn(first, j, n);
    forall i: nat | i < k && Turn(first, i, n) == v
      ensures i == j
    {
      RankOfTurn(first, i, n);
    }
  }

  lemma NoneTried(exchanges: seq<Exchange>, was: seq<nat>, first: nat)
    requires |exchanges| == |was| > 0
    ensures FirstFail(exchanges, was, first, 0) && ClearedFirst(was, was, first, 0)
  {
  }

  lemma ServedAt(
      pools: seq<UpstreamPool>, exchanges: seq<Exchange>, was: seq<nat>, before: seq<nat>, now: seq<nat>,
      first: nat, k: nat)
    requires |pools| == |exchanges| == |was| == |before| && first < |was| && k < |was|
    requires FirstFail(exchanges, was, first, k) && ClearedFirst(was, before, first, k)
    requires var u := Turn(first, k, |was|);
             Answers(exchanges[u], was[u]) && now == Idle(pools) == before[u := Reused(was[u], pools[u].maxIdle)]
    ensures Forwarded(pools, exchanges, was, first, Some(Turn(first, k, |was|)))
  {
    hide Turn, Answers, TriedBefore, Reused;
    var n, u := |was|, Turn(first, k, |was|);
    forall v | 0 <= v < n
      ensures Tried(first, k, n, v) <==> TriedBefore(first, n, v, u)
      ensures TriedBefore(first, n, v, u) ==> !Answers(exchanges[v], was[v])
    {
      TriedIsBefore(first, k, n, v);
    }
    assert first < n && u < n;
  }

  /** The next upstream in the rotation has not been tried, so its pool is as it was. */
  lemma NextIsUntouched(was: seq<nat>, before: seq<nat>, first: nat, k: nat)
    requires |was| == |before| && first < |was| && k < |was| && ClearedFirst(was, before, first, k)
    ensures before[Turn(first, k, |was|)] == was[Turn(first, k, |was|)]
  {
    hide Turn;
    NotYetTried(first, k, |was|);
  }

  lemma OneMoreFails(exchanges: seq<Exchange>, was: seq<nat>, first: nat, k: nat)
    requires |exchanges| == |was| > 0 && FirstFail(exchanges, was, first, k)
    requires var u := Turn(first, k, |was|); !Answers(exchanges[u], was[u])
    ensures FirstFail(exchanges, was, first, k + 1)
  {
    hide Turn, Answers;
  }

  lemma OneMoreTried(was: seq<nat>, before: seq<nat>, now: seq<nat>, first: nat, k: nat)
    requires |was| == |before| == |now| && first < |was| && k < |was| && ClearedFirst(was, before, first, k)
    requires now == before[Turn(first, k, |was|) := 0]
    ensures ClearedFirst(was, now, first, k + 1)
  {
    var n := |was|;
    forall u: nat | u < n
      ensures Tried(first, k + 1, n, u) <==> Tried(first, k, n, u) || u == Turn(first, k, n)
    {
    }
  }

  lemma AllTried(pools: seq<UpstreamPool>, exchanges: seq<Exchange>, was: seq<nat>, now: seq<nat>, first: nat)
    requires |pools| == |exchanges| == |was| && first < |was| && now == Idle(pools)
    requires FirstFail(exchanges, was, first, |was|) && ClearedFirst(was, now, first, |was|)
    ensures Forwarded(pools, exchanges, was, first, None)
  {
    hide Turn, Answers;
    forall u | 0 <= u < |was|
      ensures !Answers(exchanges[u], was[u]) && Tried(first, |was|, |was|, u)
    {
      RoundTriesAll(first, |was|, u);
    }
  }
}
