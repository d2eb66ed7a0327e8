/**
  `check_time_framing`: every agent of an S-Chain owns one frame of
  `nTimeFrameSeconds` seconds in each cycle of `nTimeFrameSeconds * nNodesCount`
  seconds, minus a trailing gap of `nNextFrameGap` seconds, and may start
  transfers only inside it.
 */
module TimeFraming {

  /** The four configuration values the predicate reads. */
  datatype FrameConfig = FrameConfig(
    timeFrameSeconds: int,   // nTimeFrameSeconds
    nodesCount: int,         // nNodesCount
    nodeNumber: int,         // nNodeNumber, this agent's 0-based index
    nextFrameGap: int)       // nNextFrameGap

  predicate FramingDisabled(cfg: FrameConfig)
  {
    cfg.timeFrameSeconds <= 0 || cfg.nodesCount <= 1
  }

  /** Length of one full cycle: every node's frame once. */
  function CycleLength(cfg: FrameConfig): int
  {
    cfg.timeFrameSeconds * cfg.nodesCount
  }

  /** May this agent act at Unix time `ts` (whole seconds)? */
  function CheckTimeFraming(ts: nat, cfg: FrameConfig): (permitted: bool)
    ensures FramingDisabled(cfg) ==> permitted
    ensures permitted && !FramingDisabled(cfg) ==>
              && (ts % CycleLength(cfg)) / cfg.timeFrameSeconds == cfg.nodeNumber
              && ts % CycleLength(cfg) < cfg.nodeNumber * cfg.timeFrameSeconds + cfg.timeFrameSeconds - cfg.nextFrameGap
  {
    if FramingDisabled(cfg) then true
    else
      var range := cfg.timeFrameSeconds * cfg.nodesCount;
      var nMod := ts % range;
      var activeFrameIndex := nMod / cfg.timeFrameSeconds;
      var rangeStart := ts - nMod;
      var frameStart := rangeStart + cfg.nodeNumber * cfg.timeFrameSeconds;
      var gapStart := frameStart + cfg.timeFrameSeconds - cfg.nextFrameGap;
      var skip := activeFrameIndex != cfg.nodeNumber || ts >= gapStart;
      !skip
  }

  /** With framing disabled every moment is permitted. */
  lemma DisabledAlwaysTrue(ts: nat, cfg: FrameConfig)
    requires FramingDisabled(cfg)
    ensures CheckTimeFraming(ts, cfg)
  {
  }

  /** Euclidean division pins `m` inside the frame that `m / f` names. */
  lemma DivisionWindow(m: int, f: int, k: int)
    requires m >= 0 && f > 0
    ensures m / f == k <==> k * f <= m < k * f + f
  {
    var q := m / f;
    assert m == q * f + m % f;
    if q < k {
      assert q + 1 <= k;
      assert (q + 1) * f <= k * f;
    } else if q > k {
      assert k + 1 <= q;
      assert (k + 1) * f <= q * f;
    }
  }

  /**
    The predicate in terms of the position `m` inside the current cycle: true
    exactly when `m` lies in this node's frame and before its trailing gap.
   */
  lemma {:induction false} FramingWindow(ts: nat, cfg: FrameConfig)
    requires !FramingDisabled(cfg)
    ensures CycleLength(cfg) > 0
    ensures var f, k := cfg.timeFrameSeconds, cfg.nodeNumber;
            var m := ts % CycleLength(cfg);
            CheckTimeFraming(ts, cfg) <==> k * f <= m < k * f + f && m < k * f + f - cfg.nextFrameGap
  {
    var f, n, k := cfg.timeFrameSeconds, cfg.nodesCount, cfg.nodeNumber;
    assert f * n >= f * 2 > 0;
    DivisionWindow(ts % (f * n), f, k);
  }

  /** For a node in range and a gap within the frame, one window `[k*F, k*F + F - gap)` per cycle. */
  lemma {:induction false} FramingContiguousWindow(ts: nat, cfg: FrameConfig)
    requires !FramingDisabled(cfg)
    requires 0 <= cfg.nodeNumber < cfg.nodesCount
    requires 0 <= cfg.nextFrameGap <= cfg.timeFrameSeconds
    ensures var f, k := cfg.timeFrameSeconds, cfg.nodeNumber;
            var m := ts % CycleLength(cfg);
            CheckTimeFraming(ts, cfg) <==> k * f <= m < k * f + f - cfg.nextFrameGap
  {
    FramingWindow(ts, cfg);
  }

  /** Two agents of one S-Chain (same frame, count and gap, distinct indices) never both may act. */
  lemma {:induction false} FramingExclusive(ts: nat, cfg: FrameConfig, other: nat)
    requires !FramingDisabled(cfg)
    requires other != cfg.nodeNumber
    ensures !(CheckTimeFraming(ts, cfg) && CheckTimeFraming(ts, cfg.(nodeNumber := other)))
  {
    var cfg2 := cfg.(nodeNumber := other);
    var f, m := cfg.timeFrameSeconds, ts % CycleLength(cfg);
    FramingWindow(ts, cfg);
    FramingWindow(ts, cfg2);
    DivisionWindow(m, f, cfg.nodeNumber);
    DivisionWindow(m, f, other);
  }

  /** The decision repeats every cycle. */
  lemma {:induction false} FramingPeriodic(ts: nat, cfg: FrameConfig)
    requires !FramingDisabled(cfg)
    ensures CheckTimeFraming(ts + CycleLength(cfg), cfg) == CheckTimeFraming(ts, cfg)
  {
    var r := CycleLength(cfg);
    FramingWindow(ts, cfg);
    FramingWindow(ts + r, cfg);
    assert r > 0;
    var q := ts / r;
    assert ts == q * r + ts % r;
    assert ts + r == (q + 1) * r + ts % r;
    ModOfShift(ts + r, r, q + 1, ts % r);
  }

  lemma ModOfShift(x: int, r: int, q: int, m: int)
    requires r > 0 && 0 <= m < r && x == q * r + m
    ensures x % r == m
  {
    var q' := x / r;
    assert x == q' * r + x % r;
    assert (q - q') * r == x % r - m;
    assert -r < (q - q') * r < r;
    MultipleBelowIsZero(q - q', r);
  }

  lemma MultipleBelowIsZero(d: int, r: int)
    requires r > 0 && -r < d * r < r
    ensures d == 0
  {
    MultipleSign(d, r);
  }

  lemma MultipleSign(d: int, r: int)
    requires r > 0
    ensures d >= 1 ==> d * r >= r
    ensures d <= -1 ==> d * r <= -r
  {
    if d >= 1 {
      assert d * r == r + (d - 1) * r;
    } else if d <= -1 {
      assert d * r == -r + (d + 1) * r;
    }
  }

  /**
    Three agents, 60-second frames and a 10-second gap: agent 1 may act when
    the cycle position is in [60, 110) and at no other time.
   */
  lemma FramingThreeNodeExample(ts: nat)
    ensures CheckTimeFraming(ts, FrameConfig(60, 3, 1, 10)) <==> 60 <= ts % 180 < 110
  {
    FramingContiguousWindow(ts, FrameConfig(60, 3, 1, 10));
  }
}
