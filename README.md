# IMA agent control plane, modelled in Dafny

This project models the control-plane core of the IMA relayer agent
(`agent/main.js`), the process that relays messages between Ethereum main net
and a SKALE S-Chain. It covers:

- the roster held in `imaState.joSChainNetworkInfo` and its two counting helpers (`roster.dfy`);
- the quorum-tolerant discovery pass `discover_s_chain_network` (`discovery.dfy`);
- the background rediscovery scheduler `continue_schain_discovery_in_background_if_needed` (`rediscovery.dfy`);
- the time-slot predicate `check_time_framing` (`time_framing.dfy`);
- `single_transfer_loop`, the action runner `do_the_job` and the start-up gate `wait_until_s_chain_started` (`orchestration.dfy`);
- the monitoring socket's message dispatch (`monitoring.dfy`).

The network, timers and transfers are replaced by explicit inputs:

- Discovery takes the seed call's outcome (`SeedReply`) and one `NodeReply` per node. A reply carries the poll before which its callback ran. Arrival 0 means it ran before the quorum check.
- The scheduler's interval, the pass's callback and the settling of the awaited promise are three separate method calls.
- Each start-up probe is a `Probe` value.
- Each transfer's outcome is an `ActionOutcome`: it returned a truthy or falsy value, or threw.
- Each action's outcome is an `ActionOutcome`.
- The timestamp is a whole number of Unix seconds.

The model keeps these behaviours of the code as written:

- The monitoring answer's `error` is never set. An unknown method or a missing `id` gives an answer with `error: null`.
- The rediscovery in-flight flag is cleared when the awaited pass settles. That can happen before the wait phase reports its result.
- A rediscovery pass is given the node count captured when the timer was created as its quorum, not two thirds of the nodes. So it waits for that many answers: every node while the list has not grown.
- Nodes known from the previous snapshot are never queried, so they never count as received. A pass that reuses any node, with a quorum equal to the node count, never reaches the quorum. It always spends its whole poll budget, and it succeeds only through the fallback of some node being discovered. This is what happens to every rediscovery pass whose list has not grown and whose previous snapshot has a discovered node at an index still in the list.
- A single node whose `imaInfo` is JSON `null` makes `get_s_chain_discovered_nodes_count` return 0 for the whole roster. This is because `typeof null` is `"object"` and `"t" in null` throws.
- With `nMaxWaitSChainAttempts <= 0`, the start-up gate reports "Incomplete" even after a successful probe.

## Model

| member | source | states |
|---|---|---|
| Roster.NodesCount | agent/main.js:1060-1070 | a missing snapshot or missing `network` counts 0 nodes, otherwise the list's length |
| Roster.GetSChainDiscoveredNodesCount | agent/main.js:1072-1098 | the counting loop returns the number of nodes whose `imaInfo` is an object with numeric `t`, or 0 when any node's `imaInfo` is null |
| Roster.DiscoveredCount | agent/main.js:1072-1098 | the helper reports a positive count exactly when no node's `imaInfo` is null and some node is discovered |
| Roster.CountDiscoveredBounds | agent/main.js:1082-1094 | the discovered count is at most the node count, and equals it exactly when every node is discovered |
| Roster.DiscoveredAtMostTotal | agent/main.js:1060-1098 | discovered never exceeds total, so an incomplete roster has at least one node |
| Roster.CompleteIffAllDiscovered | agent/main.js:1103-1106 | without null `imaInfo`, the scheduler's `cntDiscovered >= cntNodes` holds exactly when every node is discovered |
| Roster.NullInfoHidesDiscoveries | agent/main.js:1085-1091 | one null `imaInfo` makes the helper report 0 and the roster count as incomplete |
| TimeFraming.CheckTimeFraming | agent/main.js:1728-1776 | with framing off every moment is permitted; otherwise a permitted moment lies in this node's frame of the cycle and before that frame's gap |
| TimeFraming.DisabledAlwaysTrue | agent/main.js:1730-1731 | with frame length <= 0 or at most one node, every moment is permitted |
| TimeFraming.FramingWindow | agent/main.js:1737-1751 | with m the position in the current cycle: permitted iff m lies in this node's frame and before `frameStart + F - gap` |
| TimeFraming.FramingContiguousWindow | agent/main.js:1737-1751 | for a node index in range and 0 <= gap <= F: permitted iff k*F <= m < k*F + F - gap, one window per cycle |
| TimeFraming.FramingExclusive | agent/main.js:1737-1740 | two agents with distinct indices are never both permitted at the same second |
| TimeFraming.FramingPeriodic | agent/main.js:1737-1738 | the decision repeats with period frame length times node count |
| TimeFraming.FramingThreeNodeExample | agent/main.js:1728-1776 | F=60, N=3, index 1, gap 10: permitted exactly when ts mod 180 is in [60,110) |
| Discovery.Quorum | agent/main.js:1247-1252 | the settled `nCountToWait` never exceeds the node count, and is at least 1 when there is a node |
| Discovery.QuorumProperties | agent/main.js:1247-1252 | missing or negative `nCountToWait` acts as 0; 0 gives n for n <= 2 and ceil(2n/3) otherwise; a positive value is capped at n; never above n |
| Discovery.WaitAttempts | agent/main.js:1379-1382 | exactly one poll for an interval under 4 s (including a disabled, non-positive one); otherwise one poll per whole second of the interval less three |
| Discovery.WaitFrom | agent/main.js:1383-1427 | the remaining polls end at or before the last allowed one; the only error is the wait timeout, at the last poll |
| Discovery.Discover | agent/main.js:1188-1442 | a pass makes at most the allowed number of polls; it makes none exactly when it fails before the wait phase; a shortfall reports available < required <= total |
| Discovery.QueryNodes | agent/main.js:1259-1346 | the query loop copies each reused node's old `imaInfo`, queries exactly the other nodes in index order, and leaves `cntFailed`, the received counter and the roster as the callbacks that ran before the quorum check set them |
| Discovery.RunCallbacks | agent/main.js:1286-1322 | the callbacks that run between two polls bring the received counter and the roster from their state at one poll to their state at the next |
| Discovery.DiscoverSChainNetwork | agent/main.js:1188-1442 | the pass's result and poll count are those of the specification `Discover`; exactly the non-reused nodes of the seed's list are queried, in index order |
| Discovery.ShortfallNeverWaits | agent/main.js:1346-1371 | the pass fails for a shortfall exactly when total minus failed queries is below the quorum, and then makes no poll |
| Discovery.WaitFromFacts | agent/main.js:1378-1427 | polls stop at the first one seeing the quorum or at the last allowed; success returns that poll's roster; timeout only when it shows no discovered node |
| Discovery.WaitPhase | agent/main.js:1374-1427 | at most max(1, floor(interval/1000) - 3) polls; success at the first poll with received >= required; on exhaustion success iff some node is discovered |
| Discovery.ReceivedMonotoneAndCapped | agent/main.js:1296-1310 | the received-answers counter never decreases and never exceeds the number of nodes actually queried |
| Discovery.AvailableIncludesReused | agent/main.js:1267-1346 | reused nodes always count toward `available = total - failed` |
| Discovery.ReusedNodesCarriedForward | agent/main.js:1267-1281 | a successful pass returns the seed's node list with each reused node's previous `imaInfo` copied in |
| Discovery.DiscoveredNeverDecreases | agent/main.js:1267-1281 | with no null `imaInfo` and no shorter list, a successful pass discovers at least as many nodes as the previous snapshot |
| Discovery.ReplyIgnoredForReusedNodes | agent/main.js:1267-1281 | what a reused node would answer cannot change the pass's outcome: it is never queried |
| Discovery.ReuseDefeatsFullQuorum | agent/main.js:1267-1281 | with quorum equal to the node count and any node reused, the received counter stays below the quorum at every poll, so the pass uses its whole poll budget and succeeds exactly when some node is discovered |
| Discovery.WaitPhaseFitsInterval | agent/main.js:1379-1382 | for an interval of at least 4 s, the poll budget ends at least 3 s before the next rediscovery tick |
| Discovery.FourNodesOneUnreachable | agent/main.js:1247-1390 | four fresh nodes, one unreachable: the default quorum 3 is met at the first poll with three of four discovered |
| Rediscovery.Scheduler.constructor | agent/main.js:1100-1101 | no timer and no pass in flight at start |
| Rediscovery.Scheduler.Continue | agent/main.js:1103-1117 | a complete snapshot stops the timer; an existing timer or a non-positive interval changes nothing; otherwise the timer starts and captures the node count |
| Rediscovery.Scheduler.Tick | agent/main.js:1117-1123 | a tick while a pass is in flight starts nothing; otherwise a pass starts with the current snapshot and the captured count as quorum, which is at least 1 because a running timer always captured a non-empty roster |
| Rediscovery.Scheduler.PassFinished | agent/main.js:1133-1176 | the snapshot is replaced only by a pass without error; then, as in `Continue` on the new snapshot, a complete snapshot stops the timer, an existing timer or a non-positive interval is left as it is, and otherwise the timer restarts and captures the node count |
| Rediscovery.Scheduler.PassSettled | agent/main.js:1184 | the in-flight flag is cleared when the awaited pass settles |
| Rediscovery.RediscoveryQuorum | agent/main.js:1176 | a rediscovery pass waits for the captured count capped at the current node count |
| Rediscovery.CompleteSnapshotStopsRediscovery | agent/main.js:1103-1109 | installing a complete snapshot leaves no timer, so no further pass can start |
| Rediscovery.OverlappingTickIsSkipped | agent/main.js:1118-1123 | a tick during a slow pass starts nothing and is not queued; after the pass settles the next tick starts a pass again |
| Orchestration.SingleTransferLoop | agent/main.js:1778-1856 | when framing forbids, resolves true with no transfer; otherwise invokes M2S, then S2M only if M2S did not throw; rejects exactly when an invoked transfer threw; resolves truthy exactly when framing forbids or both transfers returned truthy |
| Orchestration.AtMostOneAgentTransfers | agent/main.js:1783-1788 | two agents of one S-Chain never both invoke transfers in the same second |
| Orchestration.DoTheJob | agent/main.js:1568-1609 | every action runs; thrown ones count as failed; successes plus failures equal the action count; the exit code is the failure count |
| Orchestration.ExitCodeZeroIffAllSucceeded | agent/main.js:1606 | the exit code is 0 exactly when every action returned a truthy value |
| Orchestration.WaitUntilSChainStarted | agent/main.js:1874-1908 | an empty URL returns at once; otherwise at most max(1, nMaxWaitSChainAttempts) probes, stopping at the first success; a success already seen when the awaited probe returns is not counted as a failure, one that lands during the 1 s sleep is; "Ready" iff a probe succeeded with fewer failures than the limit |
| Monitoring.CollectRuntimeParams | agent/main.js:1526-1529 | `runtime_params` holds exactly the allow-listed names present in the state, with their values |
| Monitoring.Dispatch | agent/main.js:1458-1551 | `error` is always null; `method` and `id` are echoed only once found, both null for a malformed message or one without `method`; with both fields present, `get_schain_network_info`, `get_runtime_params` and `get_last_transfer_errors` each get their own extra (the snapshot, the allow-listed settings, the error log); any other method, or a missing `id`, gets none; each kind of extra appears only under its own method name |
| Monitoring.UnknownMethodAnsweredLikePing | agent/main.js:1537-1547 | an unknown method name is answered like `ping`: the exception leaves no trace in the answer |

## Left out

- WebSocket and JSON-RPC I/O are not modelled: `ws.Server`, `ws_peer.send`, `rpcCall.create`, `joCall.call`, `JSON.parse` and `JSON.stringify`. Their outcomes are inputs. A failed `send` is only logged.
- A seed result without a `network` array is not modelled. It throws inside a foreign callback, and what happens next depends on the RPC library. The seed outcome carries the node list directly.
- Node URL composition (`compose_schain_node_url`) is not modelled, and neither is a null entry in the node list.
- Discovery hands the caller a roster object that later callbacks go on mutating. The model returns the roster as it was at the deciding poll. Aliasing and updates after the pass are not captured.
- Discovery does not model responses that arrive after the pass has decided, or the order of callbacks within one poll interval. Only each reply's arrival poll matters.
- Real timers and async interleaving are not modelled: `setInterval`, `setTimeout` and `IMA.sleep`. Ticks, polls and probes are method calls or loop iterations.
- `single_transfer_loop_with_repeat` and `run_transfer_loop` are not modelled. They only call `single_transfer_loop` again after `nLoopPeriodSeconds`.
- Logging and colouring are not modelled. This covers `log.write`, `cc.*`, `format_balance_info` and the unknown-nodes message.
- Foreign calls are not modelled: balances, payments, registration, reimbursement, `IMA.do_transfer`, CLI parsing, BLS initialisation and `browse-s-chain`.
- `process.exit` and the start-up exit codes (lines 1611-1640) are not modelled. `DoTheJob` returns its exit code and whether the process exits, and does not model the operating system truncating exit codes to 8 bits.
- Clock conversion is not modelled. `Date.getTime()/1000` is replaced by a timestamp in whole seconds, and times before 1970 are not modelled.
- The exception path of `check_time_framing` (lines 1771-1775) is not modelled.
- Configuration values are whole numbers. Fractional or non-numeric settings are not modelled.
- proxy/predeployed/test/contracts/token_manager_erc721.py is not part of this model. It only asserts on-chain contract state.
- Orchestration.WaitUntilSChainStarted: each probe's outcome is an input. It is not derived from `Discover`, because whether the callback lands before or after the awaited call returns depends on the RPC library.
