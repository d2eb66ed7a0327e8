/**
  The agent's drivers: one transfer iteration gated on time framing
  (`single_transfer_loop`), the action runner (`do_the_job`) and the start-up
  gate that probes the S-Chain before work begins (`wait_until_s_chain_started`).
 */
module Orchestration {
  import opened TimeFraming

  /**
    What a called async function did: resolved with a truthy or falsy value,
    or threw. Used for each `do_the_job` action and each `IMA.do_transfer`.
   */
  datatype ActionOutcome = Returned(truthy: bool) | Threw

  // ----- single_transfer_loop -----

  datatype Direction = M2S | S2M

  /** How one iteration settled and which transfers it invoked, in order. */
  datatype IterationRun = IterationRun(outcome: ActionOutcome, invoked: seq<Direction>)

  /**
    One iteration at Unix time `now`. What the two transfers would do is an
    input; a transfer not invoked has no effect. Nothing catches a throwing
    transfer, so it rejects the iteration.
   */
  function SingleTransferLoop(now: nat, cfg: FrameConfig, m2s: ActionOutcome, s2m: ActionOutcome): (run: IterationRun)
    ensures !CheckTimeFraming(now, cfg) ==> run == IterationRun(Returned(true), [])
    ensures CheckTimeFraming(now, cfg) ==> 1 <= |run.invoked| <= 2 && run.invoked == [M2S, S2M][..|run.invoked|]
    ensures S2M in run.invoked <==> CheckTimeFraming(now, cfg) && m2s.Returned?
    ensures run.outcome.Threw? <==> CheckTimeFraming(now, cfg) && (m2s.Threw? || s2m.Threw?)
    ensures run.outcome == Returned(true) <==>
              !CheckTimeFraming(now, cfg) || (m2s == Returned(true) && s2m == Returned(true))
  {
    if !CheckTimeFraming(now, cfg) then IterationRun(Returned(true), [])
    else match m2s
      case Threw => IterationRun(Threw, [M2S])
      case Returned(b1) =>
        match s2m
        case Threw => IterationRun(Threw, [M2S, S2M])
        case Returned(b2) => IterationRun(Returned(b1 && b2), [M2S, S2M])
  }

  /**
    Two agents of the same S-Chain with distinct indices never invoke transfers
    in the same second while framing is on.
   */
  lemma AtMostOneAgentTransfers(now: nat, cfg: FrameConfig, other: nat,
                                m1: ActionOutcome, s1: ActionOutcome, m2: ActionOutcome, s2: ActionOutcome)
    requires !FramingDisabled(cfg) && other != cfg.nodeNumber
    ensures SingleTransferLoop(now, cfg, m1, s1).invoked == [] ||
            SingleTransferLoop(now, cfg.(nodeNumber := other), m2, s2).invoked == []
  {
    FramingExclusive(now, cfg, other);
  }

  // ----- do_the_job -----

  function CountSucceeded(actions: seq<ActionOutcome>): nat
  {
    if actions == [] then 0
    else CountSucceeded(actions[..|actions| - 1]) + (if actions[|actions| - 1] == Returned(true) then 1 else 0)
  }

  /**
    Run every action in order; a thrown action counts as failed. The exit code
    is the number of failed actions, and the process exits unless that is prevented.
   */
  method DoTheJob(actions: seq<ActionOutcome>, preventExitAfterLastAction: bool)
    returns (cntTrue: nat, cntFalse: nat, exitCode: nat, exits: bool)
    ensures cntTrue == CountSucceeded(actions)
    ensures cntTrue + cntFalse == |actions|
    ensures exitCode == cntFalse
    ensures exits == !preventExitAfterLastAction
  {
    cntTrue, cntFalse := 0, 0;
    var idxAction := 0;
    while idxAction < |actions|
      invariant 0 <= idxAction <= |actions|
      invariant cntTrue == CountSucceeded(actions[..idxAction])
      invariant cntTrue + cntFalse == idxAction
    {
      assert actions[..idxAction + 1][..idxAction] == actions[..idxAction];
      match actions[idxAction] {
        case Returned(b) =>
          if b {
            cntTrue := cntTrue + 1;
          } else {
            cntFalse := cntFalse + 1;
          }
        case Threw =>
          cntFalse := cntFalse + 1;
      }
      idxAction := idxAction + 1;
    }
    assert actions[..idxAction] == actions;
    exitCode := if cntFalse > 0 then cntFalse else 0;
    exits := !preventExitAfterLastAction;
  }

  /** The exit code is 0 exactly when every action returned a truthy value. */
  lemma {:induction false} ExitCodeZeroIffAllSucceeded(actions: seq<ActionOutcome>)
    ensures CountSucceeded(actions) <= |actions|
    ensures CountSucceeded(actions) == |actions| <==> forall i :: 0 <= i < |actions| ==> actions[i] == Returned(true)
  {
    if actions != [] {
      var init := actions[..|actions| - 1];
      ExitCodeZeroIffAllSucceeded(init);
      assert forall i :: 0 <= i < |init| ==> init[i] == actions[i];
    }
  }

  // ----- wait_until_s_chain_started -----

  /**
    One silent discovery probe as the gate's loop sees it: its callback had
    reported success by the time the loop checked (`ProbeSucceeded`), it did so
    only during the following one-second sleep (`ProbeSucceededLate`), or it
    did not succeed.
   */
  datatype Probe = ProbeFailed | ProbeSucceeded | ProbeSucceededLate

  /** What the gate logged when it returned. */
  datatype GateStatus = SkippedNoUrl | Ready | Incomplete

  function MaxOne(x: int): nat
  {
    if x < 1 then 1 else x
  }

  /**
    Probe until a probe succeeds or `maxAttempts` probes have failed; a
    successful probe does not count as a failed attempt.
   */
  method WaitUntilSChainStarted(url: string, maxAttempts: int, probe: nat -> Probe)
    returns (status: GateStatus, attempts: nat, failures: nat)
    ensures url == [] ==> status == SkippedNoUrl && attempts == 0 && failures == 0
    ensures url != [] ==> 1 <= attempts <= MaxOne(maxAttempts)
    ensures url != [] ==> forall i :: 0 <= i < attempts - 1 ==> probe(i) == ProbeFailed
    ensures url != [] ==> failures == if probe(attempts - 1) == ProbeSucceeded then attempts - 1 else attempts
    ensures url != [] && attempts < MaxOne(maxAttempts) ==> probe(attempts - 1) != ProbeFailed
    ensures url != [] ==> (status == Ready <==> probe(attempts - 1) != ProbeFailed && failures < maxAttempts)
    ensures url != [] ==> status != SkippedNoUrl
  {
    if |url| == 0 {
      return SkippedNoUrl, 0, 0;
    }
    var bSuccess := false;
    var idxWaitAttempt := 0;
    attempts := 0;
    while !bSuccess
      invariant idxWaitAttempt == attempts
      invariant attempts < MaxOne(maxAttempts)
      invariant forall i :: 0 <= i < attempts ==> probe(i) == ProbeFailed
      invariant attempts >= 1 ==> idxWaitAttempt < maxAttempts
      decreases MaxOne(maxAttempts) - attempts
    {
      var p := probe(attempts);
      attempts := attempts + 1;
      bSuccess := p == ProbeSucceeded;
      if !bSuccess {
        idxWaitAttempt := idxWaitAttempt + 1;
      }
      if idxWaitAttempt >= maxAttempts {
        return Incomplete, attempts, idxWaitAttempt;
      }
      // the one-second sleep: a late callback may report success meanwhile
      if p == ProbeSucceededLate {
        return Ready, attempts, idxWaitAttempt;
      }
      if bSuccess {
        return Ready, attempts, idxWaitAttempt;
      }
    }
  }
}
