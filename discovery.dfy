/**
  `discover_s_chain_network`: ask the own S-Chain for its node list, ask every
  node not already known from the previous snapshot for its `imaInfo`, reject
  the pass when too many queries failed to reach the quorum, and otherwise poll
  once a second until enough answers have arrived or the attempts run out.

  The network is replaced by explicit outcomes: `SeedReply` for the call to the
  own S-Chain and `reply(i)` for node `i`. A reply's `arrival` says when its
  callback ran: 0 means before the query loop finished (so before the quorum
  check), `p >= 1` means before the `p`-th poll.
 */
module Discovery {
  import opened Wrappers
  import opened Roster

  datatype SeedReply =
    | SeedCreateFailed                                  // rpcCall.create failed or threw
    | SeedCallFailed                                    // skale_nodesRpcInfo returned an error
    | SeedAnswered(result: Option<seq<NodeDescriptor>>) // None: the result was null

  datatype NodeReply =
    | CreateFailed                          // rpcCall.create to the node failed or threw
    | CallFailed(arrival: nat)              // skale_imaInfo answered with an error
    | Answered(info: ImaInfo, arrival: nat) // skale_imaInfo answered with a result
    | NeverAnswers                          // the callback never ran during the pass

  datatype DiscoveryError =
    | SeedUnreachable
    | SeedCallError
    | NoNetworkDescription
    | NotEnoughNodes(total: nat, available: int, required: nat)
    | WaitTimeout

  /** What the pass hands to its callback, and how many polls it made. */
  datatype PassOutcome = PassOutcome(result: Result<NetworkInfo, DiscoveryError>, polls: nat)

  // ----- quorum -----

  /** `Math.ceil(n * 2 / 3)` on whole numbers. */
  function CeilTwoThirds(n: nat): nat
  {
    (2 * n + 2) / 3
  }

  /**
    `nCountToWait` as the pass settles it: a missing or negative value becomes 0;
    0 becomes `n` for at most two nodes and two thirds of `n`, rounded up,
    otherwise; a positive value above `n` is capped to `n`.
   */
  function Quorum(countToWait: Option<int>, n: nat): (required: nat)
    ensures required <= n
    ensures n >= 1 ==> required >= 1
  {
    var w := if countToWait.None? || countToWait.value < 0 then 0 else countToWait.value;
    if w <= 0 then (if n > 2 then CeilTwoThirds(n) else n)
    else if w > n then n
    else w
  }

  lemma QuorumProperties(countToWait: Option<int>, n: nat)
    ensures Quorum(countToWait, n) <= n
    ensures n >= 1 ==> Quorum(countToWait, n) >= 1
    ensures (countToWait.None? || countToWait.value <= 0) && n <= 2 ==> Quorum(countToWait, n) == n
    ensures (countToWait.None? || countToWait.value <= 0) && n > 2 ==>
              2 * n <= 3 * Quorum(countToWait, n) < 2 * n + 3
    ensures countToWait.Some? && countToWait.value > 0 ==>
              Quorum(countToWait, n) == if countToWait.value > n then n else countToWait.value
  {
  }

  // ----- reuse of the previous snapshot -----

  /** Node `i` was already discovered in the previous snapshot, so it is copied forward, not queried. */
  predicate Reusable(prev: Option<NetworkInfo>, i: nat)
  {
    i < |Nodes(prev)| && IsDiscovered(Nodes(prev)[i])
  }

  // ----- counters -----

  /** Number of indices below `n` that satisfy `f`. */
  function CountBelow(n: nat, f: nat -> bool): nat
  {
    if n == 0 then 0 else CountBelow(n - 1, f) + (if f(n - 1) then 1 else 0)
  }

  predicate FailsBy(r: NodeReply, p: nat)
  {
    r.CreateFailed? || (r.CallFailed? && r.arrival <= p)
  }

  predicate ReceivedBy(r: NodeReply, p: nat)
  {
    (r.CallFailed? || r.Answered?) && r.arrival <= p
  }

  function Queried(prev: Option<NetworkInfo>): nat -> bool
  {
    (i: nat) => !Reusable(prev, i)
  }

  function FailedAt(prev: Option<NetworkInfo>, reply: nat -> NodeReply, p: nat): nat -> bool
  {
    (i: nat) => !Reusable(prev, i) && FailsBy(reply(i), p)
  }

  function ReceivedAt(prev: Option<NetworkInfo>, reply: nat -> NodeReply, p: nat): nat -> bool
  {
    (i: nat) => !Reusable(prev, i) && ReceivedBy(reply(i), p)
  }

  /** `cntFailed` once the callbacks up to poll `p` have run (p = 0: at the quorum check). */
  function Failed(prev: Option<NetworkInfo>, reply: nat -> NodeReply, n: nat, p: nat): nat
  {
    CountBelow(n, FailedAt(prev, reply, p))
  }

  /** `nCountReceivedImaDescriptions` once the callbacks up to poll `p` have run. */
  function Received(prev: Option<NetworkInfo>, reply: nat -> NodeReply, n: nat, p: nat): nat
  {
    CountBelow(n, ReceivedAt(prev, reply, p))
  }

  // ----- the roster as the callbacks fill it in -----

  function NodeAt(prev: Option<NetworkInfo>, reply: nat -> NodeReply, node: NodeDescriptor, i: nat, p: nat): NodeDescriptor
  {
    if Reusable(prev, i) then node.(imaInfo := Nodes(prev)[i].imaInfo)
    else match reply(i)
      case Answered(info, a) => if a <= p then node.(imaInfo := Some(info)) else node
      case _ => node
  }

  /** The roster after the callbacks up to poll `p` have run. */
  function RosterAt(nodes: seq<NodeDescriptor>, prev: Option<NetworkInfo>, reply: nat -> NodeReply, p: nat): seq<NodeDescriptor>
  {
    seq(|nodes|, i requires 0 <= i < |nodes| => NodeAt(prev, reply, nodes[i], i, p))
  }

  // ----- wait phase -----

  /** `cntWaitAttempts`: one poll a second for the rediscovery interval less three seconds, at least one. */
  function WaitAttempts(repeatIntervalMilliseconds: int): (attempts: nat)
    ensures attempts >= 1
    ensures repeatIntervalMilliseconds >= 4000 ==> attempts == repeatIntervalMilliseconds / 1000 - 3
    ensures repeatIntervalMilliseconds < 4000 ==> attempts == 1
  {
    var c := repeatIntervalMilliseconds / 1000 - 3;
    if c < 1 then 1 else c
  }

  /** The polls from the `p`-th on. */
  function WaitFrom(nodes: seq<NodeDescriptor>, prev: Option<NetworkInfo>, reply: nat -> NodeReply,
                    required: nat, attempts: nat, p: nat): (o: PassOutcome)
    requires 1 <= p <= attempts
    decreases attempts - p
    ensures p <= o.polls <= attempts
    ensures o.result.Err? ==> o.result.error == WaitTimeout && o.polls == attempts
  {
    var roster := NetworkInfo(Some(RosterAt(nodes, prev, reply, p)));
    if Received(prev, reply, |nodes|, p) >= required then PassOutcome(Ok(roster), p)
    else if p == attempts then
      if DiscoveredCount(Some(roster)) > 0 then PassOutcome(Ok(roster), p)
      else PassOutcome(Err(WaitTimeout), p)
    else WaitFrom(nodes, prev, reply, required, attempts, p + 1)
  }

  /** The whole pass. */
  function Discover(seed: SeedReply, prev: Option<NetworkInfo>, countToWait: Option<int>,
                    repeatIntervalMilliseconds: int, reply: nat -> NodeReply): (o: PassOutcome)
    ensures o.polls <= WaitAttempts(repeatIntervalMilliseconds)
    ensures o.polls == 0 <==> o.result.Err? && !o.result.error.WaitTimeout?
    ensures o.result.Err? && o.result.error.NotEnoughNodes? ==>
              o.result.error.available < o.result.error.required <= o.result.error.total
  {
    match seed
    case SeedCreateFailed => PassOutcome(Err(SeedUnreachable), 0)
    case SeedCallFailed => PassOutcome(Err(SeedCallError), 0)
    case SeedAnswered(None) => PassOutcome(Err(NoNetworkDescription), 0)
    case SeedAnswered(Some(nodes)) =>
      var n := |nodes|;
      var required := Quorum(countToWait, n);
      var available := n - Failed(prev, reply, n, 0);
      if available < required then PassOutcome(Err(NotEnoughNodes(n, available, required)), 0)
      else WaitFrom(nodes, prev, reply, required, WaitAttempts(repeatIntervalMilliseconds), 1)
  }

  /**
    The query loop: a node known from the previous snapshot gets its old
    `imaInfo` copied in; every other node is queried, and the callbacks that run
    before the loop ends (arrival 0) already count and fill in their answers.
   */
  method QueryNodes(nodes: seq<NodeDescriptor>, prev: Option<NetworkInfo>, reply: nat -> NodeReply)
    returns (roster: seq<NodeDescriptor>, failed: nat, received: nat, queried: seq<nat>)
    ensures roster == RosterAt(nodes, prev, reply, 0)
    ensures failed == Failed(prev, reply, |nodes|, 0)     // cntFailed
    ensures received == Received(prev, reply, |nodes|, 0) // nCountReceivedImaDescriptions
    ensures forall i: nat :: i in queried <==> i < |nodes| && !Reusable(prev, i)
    ensures forall a, b :: 0 <= a < b < |queried| ==> queried[a] < queried[b]
  {
    roster := nodes;
    failed := 0;
    received := 0;
    queried := [];
    var i := 0;
    while i < |nodes|
      invariant 0 <= i <= |nodes| && |roster| == |nodes|
      invariant forall j :: 0 <= j < i ==> roster[j] == NodeAt(prev, reply, nodes[j], j, 0)
      invariant forall j :: i <= j < |nodes| ==> roster[j] == nodes[j]
      invariant failed == CountBelow(i, FailedAt(prev, reply, 0))
      invariant received == CountBelow(i, ReceivedAt(prev, reply, 0))
      invariant forall k: nat :: k in queried <==> k < i && !Reusable(prev, k)
      invariant forall a, b :: 0 <= a < b < |queried| ==> queried[a] < queried[b]
      invariant forall a :: 0 <= a < |queried| ==> queried[a] < i
    {
      if Reusable(prev, i) {
        roster := roster[i := roster[i].(imaInfo := Nodes(prev)[i].imaInfo)];
      } else {
        queried := queried + [i];
        match reply(i) {
          case CreateFailed =>
            failed := failed + 1;
          case CallFailed(a) =>
            if a == 0 {
              received := received + 1;
              failed := failed + 1;
            }
          case Answered(info, a) =>
            if a == 0 {
              received := received + 1;
              roster := roster[i := roster[i].(imaInfo := Some(info))];
            }
          case NeverAnswers =>
        }
      }
      i := i + 1;
    }
  }

  /**
    The pass as the agent runs it. `queried` lists, in order, the nodes for which
    an RPC call was created.
   */
  method DiscoverSChainNetwork(seed: SeedReply, prev: Option<NetworkInfo>, countToWait: Option<int>,
                               repeatIntervalMilliseconds: int, reply: nat -> NodeReply)
    returns (result: Result<NetworkInfo, DiscoveryError>, polls: nat, queried: seq<nat>)
    ensures PassOutcome(result, polls) == Discover(seed, prev, countToWait, repeatIntervalMilliseconds, reply)
    ensures forall i: nat :: i in queried <==> seed.SeedAnswered? && seed.result.Some? && i < |seed.result.value| && !Reusable(prev, i)
    ensures forall a, b :: 0 <= a < b < |queried| ==> queried[a] < queried[b]
  {
    queried := [];
    match seed {
      case SeedCreateFailed => return Err(SeedUnreachable), 0, queried;
      case SeedCallFailed => return Err(SeedCallError), 0, queried;
      case SeedAnswered(None) => return Err(NoNetworkDescription), 0, queried;
      case SeedAnswered(Some(nodes)) =>
    }
    var nodes := seed.result.value;
    var n := |nodes|;
    var required := Quorum(countToWait, n);
    var roster, failed, received;
    roster, failed, received, queried := QueryNodes(nodes, prev, reply);
    var available := n - failed;
    if available < required {
      return Err(NotEnoughNodes(n, available, required)), 0, queried;
    }
    var attempts := WaitAttempts(repeatIntervalMilliseconds);
    var nWaitAttempt := 0;
    while true
      invariant 0 <= nWaitAttempt < attempts
      invariant roster == RosterAt(nodes, prev, reply, nWaitAttempt)
      invariant received == Received(prev, reply, n, nWaitAttempt)
      invariant WaitFrom(nodes, prev, reply, required, attempts, nWaitAttempt + 1)
                == Discover(seed, prev, countToWait, repeatIntervalMilliseconds, reply)
      decreases attempts - nWaitAttempt
    {
      // the callbacks of the replies that arrived since the previous poll run
      roster, received := RunCallbacks(nodes, prev, reply, nWaitAttempt + 1, roster, received);
      if received >= required {
        return Ok(NetworkInfo(Some(roster))), nWaitAttempt + 1, queried;
      }
      nWaitAttempt := nWaitAttempt + 1;
      if nWaitAttempt >= attempts {
        var discovered := GetSChainDiscoveredNodesCount(Some(NetworkInfo(Some(roster))));
        if discovered > 0 {
          return Ok(NetworkInfo(Some(roster))), nWaitAttempt, queried;
        }
        return Err(WaitTimeout), nWaitAttempt, queried;
      }
    }
  }

  /**
    The callbacks that run between poll `p - 1` and poll `p`: each queried node
    whose reply arrives then bumps the received counter, and an answer stores
    its `imaInfo` in the node's roster entry.
   */
  method RunCallbacks(nodes: seq<NodeDescriptor>, prev: Option<NetworkInfo>, reply: nat -> NodeReply, p: nat,
                      roster: seq<NodeDescriptor>, received: nat)
    returns (roster': seq<NodeDescriptor>, received': nat)
    requires p >= 1
    requires roster == RosterAt(nodes, prev, reply, p - 1)
    requires received == Received(prev, reply, |nodes|, p - 1)
    ensures roster' == RosterAt(nodes, prev, reply, p)
    ensures received' == Received(prev, reply, |nodes|, p)
  {
    var n := |nodes|;
    roster', received' := roster, received;
    var k := 0;
    while k < n
      invariant 0 <= k <= n && |roster'| == n
      invariant forall j :: 0 <= j < k ==> roster'[j] == NodeAt(prev, reply, nodes[j], j, p)
      invariant forall j :: k <= j < n ==> roster'[j] == NodeAt(prev, reply, nodes[j], j, p - 1)
      invariant received' + CountBelow(k, ReceivedAt(prev, reply, p - 1))
                == received + CountBelow(k, ReceivedAt(prev, reply, p))
    {
      if !Reusable(prev, k) {
        match reply(k) {
          case CallFailed(a) =>
            if a == p {
              received' := received' + 1;
            }
          case Answered(info, a) =>
            if a == p {
              received' := received' + 1;
              roster' := roster'[k := roster'[k].(imaInfo := Some(info))];
            }
          case _ =>
        }
      }
      k := k + 1;
    }
  }

  // ----- counting lemmas -----

  function Reused(prev: Option<NetworkInfo>): nat -> bool
  {
    (i: nat) => Reusable(prev, i)
  }

  lemma {:induction false} CountBelowMono(n: nat, f: nat -> bool, g: nat -> bool)
    requires forall i: nat :: i < n && f(i) ==> g(i)
    ensures CountBelow(n, f) <= CountBelow(n, g)
  {
    if n > 0 {
      CountBelowMono(n - 1, f, g);
    }
  }

  lemma {:induction false} CountBelowExt(n: nat, f: nat -> bool, g: nat -> bool)
    requires forall i: nat :: i < n ==> f(i) == g(i)
    ensures CountBelow(n, f) == CountBelow(n, g)
  {
    if n > 0 {
      CountBelowExt(n - 1, f, g);
    }
  }

  lemma {:induction false} CountBelowSplit(n: nat, f: nat -> bool, g: nat -> bool)
    requires forall i: nat :: i < n ==> (f(i) <==> !g(i))
    ensures CountBelow(n, f) + CountBelow(n, g) == n
  {
    if n > 0 {
      CountBelowSplit(n - 1, f, g);
    }
  }

  /**
    The received-answers counter never decreases from poll to poll, and never
    exceeds the number of nodes actually queried (reused nodes never count).
   */
  lemma ReceivedMonotoneAndCapped(prev: Option<NetworkInfo>, reply: nat -> NodeReply, n: nat, p: nat, q: nat)
    requires p <= q
    ensures Received(prev, reply, n, p) <= Received(prev, reply, n, q)
    ensures Received(prev, reply, n, q) <= CountBelow(n, Queried(prev)) == n - CountBelow(n, Reused(prev))
  {
    forall i: nat | i < n && ReceivedAt(prev, reply, p)(i)
      ensures ReceivedAt(prev, reply, q)(i)
    {
      assert ReceivedBy(reply(i), p);
    }
    CountBelowMono(n, ReceivedAt(prev, reply, p), ReceivedAt(prev, reply, q));
    CountBelowMono(n, ReceivedAt(prev, reply, q), Queried(prev));
    CountBelowSplit(n, Queried(prev), Reused(prev));
  }

  /** Reused nodes count as available at the quorum check: they can never fail. */
  lemma AvailableIncludesReused(prev: Option<NetworkInfo>, reply: nat -> NodeReply, n: nat)
    ensures n - Failed(prev, reply, n, 0) >= CountBelow(n, Reused(prev))
  {
    CountBelowMono(n, FailedAt(prev, reply, 0), Queried(prev));
    CountBelowSplit(n, Queried(prev), Reused(prev));
  }

  // ----- the wait phase -----

  /**
    The polls stop at the first one that sees the quorum, or at the last
    allowed one; the pass then returns the roster as filled in by that poll,
    and times out only when that roster shows no discovered node.
   */
  lemma {:induction false} WaitFromFacts(nodes: seq<NodeDescriptor>, prev: Option<NetworkInfo>, reply: nat -> NodeReply,
                                         required: nat, attempts: nat, p: nat)
    requires 1 <= p <= attempts
    decreases attempts - p
    ensures var o := WaitFrom(nodes, prev, reply, required, attempts, p);
            && p <= o.polls <= attempts
            && (forall q :: p <= q < o.polls ==> Received(prev, reply, |nodes|, q) < required)
            && (o.polls < attempts ==> Received(prev, reply, |nodes|, o.polls) >= required)
            && (Received(prev, reply, |nodes|, o.polls) >= required ==> o.result.Ok?)
            && (o.result.Ok? ==> o.result.value == NetworkInfo(Some(RosterAt(nodes, prev, reply, o.polls))))
            && (o.result.Err? ==>
                  && o.result.error == WaitTimeout && o.polls == attempts
                  && DiscoveredCount(Some(NetworkInfo(Some(RosterAt(nodes, prev, reply, attempts))))) == 0)
            && (Received(prev, reply, |nodes|, o.polls) < required ==>
                  (o.result.Ok? <==> DiscoveredCount(Some(NetworkInfo(Some(RosterAt(nodes, prev, reply, attempts))))) > 0))
  {
    if Received(prev, reply, |nodes|, p) < required && p < attempts {
      WaitFromFacts(nodes, prev, reply, required, attempts, p + 1);
    }
  }

  /**
    A pass rejects for a quorum shortfall exactly when the nodes not known to
    have failed are fewer than the required count, and such a pass makes no poll.
   */
  lemma ShortfallNeverWaits(seed: SeedReply, prev: Option<NetworkInfo>, countToWait: Option<int>,
                            ms: int, reply: nat -> NodeReply)
    ensures var o := Discover(seed, prev, countToWait, ms, reply);
            (o.result.Err? && o.result.error.NotEnoughNodes?) <==>
              (seed.SeedAnswered? && seed.result.Some? &&
               |seed.result.value| - Failed(prev, reply, |seed.result.value|, 0) < Quorum(countToWait, |seed.result.value|))
    ensures var o := Discover(seed, prev, countToWait, ms, reply);
            o.result.Err? && o.result.error.NotEnoughNodes? ==> o.polls == 0
  {
    if seed.SeedAnswered? && seed.result.Some? {
      var nodes := seed.result.value;
      WaitFromFacts(nodes, prev, reply, Quorum(countToWait, |nodes|), WaitAttempts(ms), 1);
    }
  }

  /**
    The wait phase: entered only after the quorum check passed, at most
    `WaitAttempts(ms)` polls, success at the first poll that sees the quorum,
    and on exhaustion success exactly when some node is discovered.
   */
  lemma WaitPhase(seed: SeedReply, prev: Option<NetworkInfo>, countToWait: Option<int>,
                  ms: int, reply: nat -> NodeReply)
    ensures var o := Discover(seed, prev, countToWait, ms, reply);
            o.polls <= WaitAttempts(ms)
    ensures var o := Discover(seed, prev, countToWait, ms, reply);
            o.polls >= 1 ==>
              var nodes := seed.result.value;
              var n := |nodes|;
              var required := Quorum(countToWait, n);
              && seed.SeedAnswered? && seed.result.Some?
              && n - Failed(prev, reply, n, 0) >= required
              && (forall q :: 1 <= q < o.polls ==> Received(prev, reply, n, q) < required)
              && (o.result.Ok? ==> o.result.value == NetworkInfo(Some(RosterAt(nodes, prev, reply, o.polls))))
              && (Received(prev, reply, n, o.polls) >= required ==> o.result.Ok?)
              && (Received(prev, reply, n, o.polls) < required ==>
                    o.polls == WaitAttempts(ms) &&
                    (o.result.Ok? <==> DiscoveredCount(Some(NetworkInfo(Some(RosterAt(nodes, prev, reply, o.polls))))) > 0))
    ensures var o := Discover(seed, prev, countToWait, ms, reply);
            o.polls == 0 ==> o.result.Err? && !o.result.error.WaitTimeout?
  {
    if seed.SeedAnswered? && seed.result.Some? {
      var nodes := seed.result.value;
      WaitFromFacts(nodes, prev, reply, Quorum(countToWait, |nodes|), WaitAttempts(ms), 1);
    }
  }

  lemma {:induction false} CountBelowPositive(n: nat, f: nat -> bool, i: nat)
    requires i < n && f(i)
    ensures CountBelow(n, f) >= 1
  {
    if i < n - 1 {
      CountBelowPositive(n - 1, f, i);
    }
  }

  /**
    A pass whose quorum is every node, as a rediscovery pass's captured count
    is while the roster has not grown, and that reuses any node never sees the
    quorum: reused nodes are never queried, so fewer answers than nodes can
    arrive. Such a pass spends its whole poll budget and succeeds only through
    the fallback of some node being discovered.
   */
  lemma ReuseDefeatsFullQuorum(seed: SeedReply, prev: Option<NetworkInfo>, countToWait: Option<int>,
                               ms: int, reply: nat -> NodeReply)
    requires seed.SeedAnswered? && seed.result.Some?
    requires Quorum(countToWait, |seed.result.value|) == |seed.result.value|
    requires exists i: nat :: i < |seed.result.value| && Reusable(prev, i)
    ensures forall p: nat :: Received(prev, reply, |seed.result.value|, p) < |seed.result.value|
    ensures var o := Discover(seed, prev, countToWait, ms, reply);
            o.polls >= 1 ==>
              && o.polls == WaitAttempts(ms)
              && (o.result.Ok? <==>
                    DiscoveredCount(Some(NetworkInfo(Some(RosterAt(seed.result.value, prev, reply, o.polls))))) > 0)
  {
    var nodes := seed.result.value;
    var n := |nodes|;
    var i: nat :| i < n && Reusable(prev, i);
    CountBelowPositive(n, Reused(prev), i);
    forall p: nat
      ensures Received(prev, reply, n, p) < n
    {
      ReceivedMonotoneAndCapped(prev, reply, n, p, p);
    }
    WaitPhase(seed, prev, countToWait, ms, reply);
  }

  /** A successful pass returns the new node list with every reused node's previous `imaInfo` copied in. */
  lemma ReusedNodesCarriedForward(seed: SeedReply, prev: Option<NetworkInfo>, countToWait: Option<int>,
                                  ms: int, reply: nat -> NodeReply)
    requires Discover(seed, prev, countToWait, ms, reply).result.Ok?
    ensures seed.SeedAnswered? && seed.result.Some?
    ensures var info := Discover(seed, prev, countToWait, ms, reply).result.value;
            && info.network.Some? && |info.network.value| == |seed.result.value|
            && forall i :: 0 <= i < |seed.result.value| && Reusable(prev, i) ==>
                 info.network.value[i] == seed.result.value[i].(imaInfo := Nodes(prev)[i].imaInfo)
  {
    WaitPhase(seed, prev, countToWait, ms, reply);
  }

  /**
    Relative to the previous snapshot, a successful pass never loses a
    discovered node, provided the new node list is at least as long and no
    `imaInfo` in the new roster is null.
   */
  lemma DiscoveredNeverDecreases(seed: SeedReply, prev: Option<NetworkInfo>, countToWait: Option<int>,
                                 ms: int, reply: nat -> NodeReply)
    requires Discover(seed, prev, countToWait, ms, reply).result.Ok?
    requires seed.SeedAnswered? && seed.result.Some? && |Nodes(prev)| <= |seed.result.value|
    requires forall i :: 0 <= i < |seed.result.value| ==> !ThrowsOnInspection(seed.result.value[i])
    requires forall i: nat :: !(reply(i).Answered? && reply(i).info == NullInfo)
    ensures DiscoveredCount(prev) <= DiscoveredCount(Some(Discover(seed, prev, countToWait, ms, reply).result.value))
  {
    var nodes := seed.result.value;
    var o := Discover(seed, prev, countToWait, ms, reply);
    WaitPhase(seed, prev, countToWait, ms, reply);
    var roster := RosterAt(nodes, prev, reply, o.polls);
    assert o.result.value == NetworkInfo(Some(roster));
    assert Nodes(Some(o.result.value)) == roster;
    forall i | 0 <= i < |roster|
      ensures !ThrowsOnInspection(roster[i])
    {
      assert roster[i] == NodeAt(prev, reply, nodes[i], i, o.polls);
    }
    var old_ := Nodes(prev);
    forall i | 0 <= i < |old_| && IsDiscovered(old_[i])
      ensures IsDiscovered(roster[i])
    {
      assert Reusable(prev, i);
      assert roster[i] == NodeAt(prev, reply, nodes[i], i, o.polls);
    }
    CountDiscoveredPreserved(old_, roster);
  }

  /**
    Reused nodes are never queried: what the network would answer for them
    cannot change the outcome of the pass.
   */
  lemma ReplyIgnoredForReusedNodes(seed: SeedReply, prev: Option<NetworkInfo>, countToWait: Option<int>,
                                   ms: int, reply1: nat -> NodeReply, reply2: nat -> NodeReply)
    requires forall i: nat :: !Reusable(prev, i) ==> reply1(i) == reply2(i)
    ensures Discover(seed, prev, countToWait, ms, reply1) == Discover(seed, prev, countToWait, ms, reply2)
  {
    if seed.SeedAnswered? && seed.result.Some? {
      var nodes := seed.result.value;
      var n := |nodes|;
      CountBelowExt(n, FailedAt(prev, reply1, 0), FailedAt(prev, reply2, 0));
      WaitFromIgnoresReused(nodes, prev, reply1, reply2, Quorum(countToWait, n), WaitAttempts(ms), 1);
    }
  }

  lemma {:induction false} WaitFromIgnoresReused(nodes: seq<NodeDescriptor>, prev: Option<NetworkInfo>,
                                                 reply1: nat -> NodeReply, reply2: nat -> NodeReply,
                                                 required: nat, attempts: nat, p: nat)
    requires forall i: nat :: !Reusable(prev, i) ==> reply1(i) == reply2(i)
    requires 1 <= p <= attempts
    decreases attempts - p
    ensures WaitFrom(nodes, prev, reply1, required, attempts, p) == WaitFrom(nodes, prev, reply2, required, attempts, p)
  {
    CountBelowExt(|nodes|, ReceivedAt(prev, reply1, p), ReceivedAt(prev, reply2, p));
    assert RosterAt(nodes, prev, reply1, p) == RosterAt(nodes, prev, reply2, p);
    if p < attempts {
      WaitFromIgnoresReused(nodes, prev, reply1, reply2, required, attempts, p + 1);
    }
  }

  /** The wait phase is over at least three seconds before the next rediscovery tick is due. */
  lemma WaitPhaseFitsInterval(ms: int)
    requires ms >= 4000
    ensures WaitAttempts(ms) * 1000 <= ms - 3000
  {
    assert ms == (ms / 1000) * 1000 + ms % 1000;
  }

  /**
    Four nodes, none known before, node 3 unreachable and the others answering
    at once: with the default quorum of 3 the pass succeeds at its first poll
    with three of four nodes discovered.
   */
  lemma FourNodesOneUnreachable(nodes: seq<NodeDescriptor>, info: ImaInfo, ms: int)
    requires |nodes| == 4 && forall i :: 0 <= i < 4 ==> nodes[i].imaInfo.None?
    requires info.InfoObject? && info.t.Some?
    ensures var reply := (i: nat) => if i == 3 then CreateFailed else Answered(info, 0);
            var o := Discover(SeedAnswered(Some(nodes)), None, Some(-1), ms, reply);
            o.result.Ok? && o.polls == 1 && DiscoveredCount(Some(o.result.value)) == 3
  {
    var reply := (i: nat) => if i == 3 then CreateFailed else Answered(info, 0);
    assert Quorum(Some(-1), 4) == 3;
    var f := FailedAt(None, reply, 0);
    assert reply(0) == reply(1) == reply(2) == Answered(info, 0) && reply(3) == CreateFailed;
    assert !f(0) && !f(1) && !f(2) && f(3);
    assert CountBelow(3, f) == 0 by {
      assert CountBelow(0, f) == 0;
      assert CountBelow(1, f) == 0;
      assert CountBelow(2, f) == 0;
    }
    assert Failed(None, reply, 4, 0) == 1;
    var g := ReceivedAt(None, reply, 1);
    assert g(0) && g(1) && g(2) && !g(3);
    assert CountBelow(3, g) == 3 by {
      assert CountBelow(0, g) == 0;
      assert CountBelow(1, g) == 1;
      assert CountBelow(2, g) == 2;
    }
    assert Received(None, reply, 4, 1) == 3;
    var roster := RosterAt(nodes, None, reply, 1);
    assert forall i :: 0 <= i < 3 ==> IsDiscovered(roster[i]);
    assert !IsDiscovered(roster[3]);
    assert forall i :: 0 <= i < 4 ==> !ThrowsOnInspection(roster[i]);
    assert CountDiscovered(roster[..1]) == 1 by { assert roster[..1][..0] == []; }
    assert CountDiscovered(roster[..2]) == 2 by { assert roster[..2][..1] == roster[..1]; }
    assert CountDiscovered(roster[..3]) == 3 by { assert roster[..3][..2] == roster[..2]; }
    assert CountDiscovered(roster) == 3 by { assert roster[..3] == roster[..|roster| - 1]; }
  }
}
