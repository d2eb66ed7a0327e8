/**
  `continue_schain_discovery_in_background_if_needed` and the interval
  callback it installs. The module globals `g_timer_s_chain_discovery` and
  `g_b_in_s_chain_discovery` and the field `imaState.joSChainNetworkInfo`
  become the fields of one object.

  One pass is three events: the interval fires (`Tick`), the pass reports its
  result to the callback (`PassFinished`), and the awaited promise settles
  (`PassSettled`), which is where the source clears the in-flight flag. The last
  two may come in either order, because the wait phase reports from its own
  poll timer after the promise may already have settled.
 */
module Rediscovery {
  import opened Wrappers
  import opened Roster
  import Discovery

  class Scheduler {
    var timerActive: bool                // g_timer_s_chain_discovery != null
    var inDiscovery: bool                // g_b_in_s_chain_discovery
    var snapshot: Option<NetworkInfo>    // imaState.joSChainNetworkInfo
    var capturedNodes: nat               // cntNodes as captured when the timer was created
    const repeatIntervalMilliseconds: int

    ghost predicate Valid()
      reads this
    {
      timerActive ==> repeatIntervalMilliseconds > 0 && capturedNodes >= 1
    }

    constructor (repeatIntervalMilliseconds: int, initial: Option<NetworkInfo>)
      ensures Valid()
      ensures this.repeatIntervalMilliseconds == repeatIntervalMilliseconds
      ensures !timerActive && !inDiscovery && snapshot == initial && capturedNodes == 0
    {
      this.repeatIntervalMilliseconds := repeatIntervalMilliseconds;
      timerActive := false;
      inDiscovery := false;
      snapshot := initial;
      capturedNodes := 0;
    }

    /**
      Stop the timer once the snapshot is complete; otherwise create it, unless
      one exists already or rediscovery is switched off by a non-positive interval.
     */
    method Continue()
      requires Valid()
      modifies this`timerActive, this`capturedNodes
      ensures Valid()
      ensures Complete(snapshot) ==> !timerActive && capturedNodes == old(capturedNodes)
      ensures !Complete(snapshot) && old(timerActive) ==> timerActive && capturedNodes == old(capturedNodes)
      ensures !Complete(snapshot) && !old(timerActive) && repeatIntervalMilliseconds <= 0 ==>
                !timerActive && capturedNodes == old(capturedNodes)
      ensures !Complete(snapshot) && !old(timerActive) && repeatIntervalMilliseconds > 0 ==>
                timerActive && capturedNodes == NodesCount(snapshot)
    {
      var cntNodes := NodesCount(snapshot);
      var cntDiscovered := GetSChainDiscoveredNodesCount(snapshot);
      if cntDiscovered >= cntNodes {
        timerActive := false;
        return;
      }
      if timerActive {
        return;
      }
      if repeatIntervalMilliseconds <= 0 {
        return;
      }
      DiscoveredAtMostTotal(snapshot);
      timerActive := true;
      capturedNodes := cntNodes;
    }

    /**
      The interval fires. While a pass is in flight nothing happens; otherwise
      a pass starts, seeded with the current snapshot and with the node count
      captured at timer creation as its quorum.
     */
    method Tick() returns (started: bool, seed: Option<NetworkInfo>, countToWait: Option<int>)
      requires Valid() && timerActive
      modifies this`inDiscovery
      ensures Valid()
      ensures started == !old(inDiscovery)
      ensures inDiscovery
      ensures started ==> seed == snapshot && countToWait == Some(capturedNodes)
      ensures started ==> countToWait.Some? && countToWait.value >= 1
    {
      if inDiscovery {
        return false, None, None;
      }
      inDiscovery := true;
      started, seed, countToWait := true, snapshot, Some(capturedNodes);
    }

    /** The pass's callback: install the new snapshot only when it reports no error, then continue. */
    method PassFinished(result: Result<NetworkInfo, Discovery.DiscoveryError>)
      requires Valid()
      modifies this`snapshot, this`timerActive, this`capturedNodes
      ensures Valid()
      ensures result.Err? ==> snapshot == old(snapshot)
      ensures result.Ok? ==> snapshot == Some(result.value)
      ensures Complete(snapshot) ==> !timerActive && capturedNodes == old(capturedNodes)
      ensures !Complete(snapshot) && old(timerActive) ==> timerActive && capturedNodes == old(capturedNodes)
      ensures !Complete(snapshot) && !old(timerActive) && repeatIntervalMilliseconds <= 0 ==>
                !timerActive && capturedNodes == old(capturedNodes)
      ensures !Complete(snapshot) && !old(timerActive) && repeatIntervalMilliseconds > 0 ==>
                timerActive && capturedNodes == NodesCount(snapshot)
    {
      if result.Ok? {
        snapshot := Some(result.value);
      }
      Continue();
    }

    /** The awaited pass settled: the in-flight flag is cleared. */
    method PassSettled()
      requires Valid()
      modifies this`inDiscovery
      ensures Valid() && !inDiscovery
    {
      inDiscovery := false;
    }
  }

  /**
    The quorum a rediscovery pass waits for is the captured node count, capped
    by the current one: every node while the roster has not grown.
   */
  lemma RediscoveryQuorum(captured: nat, n: nat)
    requires captured >= 1
    ensures Discovery.Quorum(Some(captured), n) == if captured < n then captured else n
  {
  }

  /** A complete snapshot stops the timer, so no further tick can start a pass. */
  method CompleteSnapshotStopsRediscovery(s: Scheduler, info: NetworkInfo)
    requires s.Valid() && Complete(Some(info))
    modifies s
    ensures !s.timerActive && s.snapshot == Some(info)
  {
    s.PassFinished(Ok(info));
  }

  /**
    A slow pass overlapping the next tick: the second tick is skipped, not
    queued, and after the pass settles the following tick starts a pass again.
   */
  method OverlappingTickIsSkipped(s: Scheduler) returns (first: bool, second: bool, third: bool)
    requires s.Valid() && s.timerActive && !s.inDiscovery
    modifies s
    ensures first && !second && third
    ensures s.inDiscovery && s.snapshot == old(s.snapshot)
  {
    var seed, countToWait;
    first, seed, countToWait := s.Tick();
    second, seed, countToWait := s.Tick();
    s.PassSettled();
    third, seed, countToWait := s.Tick();
  }
}
