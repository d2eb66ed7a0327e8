/**
  The S-Chain roster as the agent keeps it in `imaState.joSChainNetworkInfo`,
  and the two counting helpers of agent/main.js (`get_s_chain_nodes_count`,
  `get_s_chain_discovered_nodes_count`).
 */
module Roster {
  import opened Wrappers

  /** A node's `imaInfo` capability record, as far as the agent inspects it. */
  datatype ImaInfo =
    | NullInfo          // JSON null: `typeof` calls it an object, but `"t" in null` throws
    | NonObjectInfo     // a string, number or boolean
    | InfoObject(t: Option<int>, fields: map<string, string>)  // `t` present only when numeric

  datatype NodeDescriptor = NodeDescriptor(nodeId: int, url: string, imaInfo: Option<ImaInfo>)

  /** The network description object; `network` is absent or null when `None`. */
  datatype NetworkInfo = NetworkInfo(network: Option<seq<NodeDescriptor>>)

  /** A node is fully discovered when its `imaInfo` is an object with a numeric `t`. */
  predicate IsDiscovered(node: NodeDescriptor)
  {
    node.imaInfo.Some? && node.imaInfo.value.InfoObject? && node.imaInfo.value.t.Some?
  }

  /** Inspecting this node's `imaInfo.t` raises a TypeError. */
  predicate ThrowsOnInspection(node: NodeDescriptor)
  {
    node.imaInfo == Some(NullInfo)
  }

  /** The node list of a snapshot; empty when the snapshot or its `network` is missing. */
  function Nodes(info: Option<NetworkInfo>): seq<NodeDescriptor>
  {
    if info.Some? && info.value.network.Some? then info.value.network.value else []
  }

  /** `get_s_chain_nodes_count`: a missing snapshot or a missing `network` counts as 0. */
  function NodesCount(info: Option<NetworkInfo>): (n: nat)
    ensures info.None? || info.value.network.None? ==> n == 0
    ensures info.Some? && info.value.network.Some? ==> n == |info.value.network.value|
  {
    |Nodes(info)|
  }

  /** Number of discovered nodes in a sequence (counted over prefixes, as the loop does). */
  function CountDiscovered(nodes: seq<NodeDescriptor>): nat
  {
    if nodes == [] then 0
    else CountDiscovered(nodes[..|nodes| - 1]) + (if IsDiscovered(nodes[|nodes| - 1]) then 1 else 0)
  }

  /**
    What `get_s_chain_discovered_nodes_count` returns: the number of discovered
    nodes, or 0 as soon as any node's inspection throws (the catch returns 0).
   */
  function DiscoveredCount(info: Option<NetworkInfo>): (cnt: nat)
    ensures cnt > 0 <==>
              (forall i :: 0 <= i < |Nodes(info)| ==> !ThrowsOnInspection(Nodes(info)[i]))
              && (exists i :: 0 <= i < |Nodes(info)| && IsDiscovered(Nodes(info)[i]))
  {
    var nodes := Nodes(info);
    if exists i :: 0 <= i < |nodes| && ThrowsOnInspection(nodes[i]) then 0
    else
      CountDiscoveredPositive(nodes);
      CountDiscovered(nodes)
  }

  /** The roster is complete: the scheduler's `cntDiscovered >= cntNodes` test. */
  predicate Complete(info: Option<NetworkInfo>)
  {
    DiscoveredCount(info) >= NodesCount(info)
  }

  /** The counting loop of `get_s_chain_discovered_nodes_count`. */
  method GetSChainDiscoveredNodesCount(info: Option<NetworkInfo>) returns (cnt: nat)
    ensures cnt == DiscoveredCount(info)
  {
    if info.None? || info.value.network.None? {
      return 0;
    }
    var nodes := info.value.network.value;
    if |nodes| <= 0 {
      return 0;
    }
    cnt := 0;
    var i := 0;
    while i < |nodes|
      invariant 0 <= i <= |nodes|
      invariant cnt == CountDiscovered(nodes[..i])
      invariant forall j :: 0 <= j < i ==> !ThrowsOnInspection(nodes[j])
    {
      if ThrowsOnInspection(nodes[i]) {
        return 0;
      }
      assert nodes[..i + 1][..i] == nodes[..i];
      if IsDiscovered(nodes[i]) {
        cnt := cnt + 1;
      }
      i := i + 1;
    }
    assert nodes[..i] == nodes;
  }

  /** At most every node is discovered, and all are exactly when each one is. */
  lemma {:induction false} CountDiscoveredBounds(nodes: seq<NodeDescriptor>)
    ensures CountDiscovered(nodes) <= |nodes|
    ensures CountDiscovered(nodes) == |nodes| <==> forall i :: 0 <= i < |nodes| ==> IsDiscovered(nodes[i])
  {
    if nodes != [] {
      var init := nodes[..|nodes| - 1];
      CountDiscoveredBounds(init);
      assert forall i :: 0 <= i < |init| ==> init[i] == nodes[i];
    }
  }

  /** Some node is counted exactly when some node is discovered. */
  lemma {:induction false} CountDiscoveredPositive(nodes: seq<NodeDescriptor>)
    ensures CountDiscovered(nodes) > 0 <==> exists i :: 0 <= i < |nodes| && IsDiscovered(nodes[i])
  {
    if nodes != [] {
      var init := nodes[..|nodes| - 1];
      CountDiscoveredPositive(init);
      assert forall i :: 0 <= i < |init| ==> init[i] == nodes[i];
    }
  }

  /** A longer roster that keeps every discovered node of a shorter one counts at least as many. */
  lemma {:induction false} CountDiscoveredPreserved(a: seq<NodeDescriptor>, b: seq<NodeDescriptor>)
    requires |a| <= |b|
    requires forall i :: 0 <= i < |a| && IsDiscovered(a[i]) ==> IsDiscovered(b[i])
    ensures CountDiscovered(a) <= CountDiscovered(b)
  {
    if |b| > |a| {
      var init := b[..|b| - 1];
      CountDiscoveredPreserved(a, init);
    } else if a != [] {
      CountDiscoveredPreserved(a[..|a| - 1], b[..|b| - 1]);
    }
  }

  /** The helper never reports more discovered nodes than `get_s_chain_nodes_count` reports nodes. */
  lemma DiscoveredAtMostTotal(info: Option<NetworkInfo>)
    ensures DiscoveredCount(info) <= NodesCount(info)
    ensures !Complete(info) ==> NodesCount(info) >= 1
  {
    CountDiscoveredBounds(Nodes(info));
  }

  /** Without a null `imaInfo`, the roster is complete exactly when every node is discovered. */
  lemma CompleteIffAllDiscovered(info: Option<NetworkInfo>)
    requires forall i :: 0 <= i < |Nodes(info)| ==> !ThrowsOnInspection(Nodes(info)[i])
    ensures Complete(info) <==> forall i :: 0 <= i < |Nodes(info)| ==> IsDiscovered(Nodes(info)[i])
  {
    CountDiscoveredBounds(Nodes(info));
  }

  /** One node with a null `imaInfo` makes the helper report 0, and the roster counts as complete only if empty. */
  lemma NullInfoHidesDiscoveries(info: Option<NetworkInfo>, k: nat)
    requires k < |Nodes(info)| && ThrowsOnInspection(Nodes(info)[k])
    ensures DiscoveredCount(info) == 0 && !Complete(info)
  {
  }
}
