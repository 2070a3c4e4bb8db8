/** What the vote of three oxygen cells guarantees. */
module ConsensusVote {
  import opened Common
  import opened Consensus

  // ---- The shape of a vote ----

  /** Three readings as a pair and the rest. */
  datatype Split = Split(x: real, y: real, third: real, rest: nat)

  function SplitAt(a: real, b: real, c: real, k: nat): Split {
    match k case 0 => Split(a, b, c, 2) case 1 => Split(a, c, b, 1) case _ => Split(b, c, a, 0)
  }

  predicate Least(p: Split) { Gap(p.x, p.y) <= Gap(p.x, p.third) && Gap(p.x, p.y) <= Gap(p.y, p.third) }

  function Flags(rest: nat): seq<bool> {
    match rest case 2 => [true, true, false] case 1 => [true, false, true] case _ => [false, true, true]
  }

  function SettleSplit(p: Split): Verdict { Settle(Flags(p.rest), p.x, p.y, p.third) }

  lemma TripleSettles(a: real, b: real, c: real)
    ensures var p := SplitAt(a, b, c, Closest(a, b, c)); Least(p) && Triple(a, b, c) == SettleSplit(p)
  {}

  lemma VoteOfThree(s: seq<Slot>) returns (p: Split)
    requires |s| == CELLS && s[0].In? && s[1].In? && s[2].In?
    ensures p == SplitAt(s[0].x, s[1].x, s[2].x, Closest(s[0].x, s[1].x, s[2].x))
    ensures Least(p) && Vote(s) == SettleSplit(p)
  {
    TripleSettles(s[0].x, s[1].x, s[2].x);
    p := SplitAt(s[0].x, s[1].x, s[2].x, Closest(s[0].x, s[1].x, s[2].x));
  }

  lemma VotedLength(s: seq<Slot>)
    requires |s| == CELLS
    ensures |Vote(s).voted| == CELLS
  {
    if s[0].In? && s[1].In? && s[2].In? { var p := VoteOfThree(s); }
  }

  // ---- Which cells take part ----

  /** On the cell's own fields: a reading that is up, valid and recent. */
  predicate Usable(cells: seq<Cell>, now: int, staleness: int, i: nat) {
    && i < |cells| && i < 3
    && cells[i].status == Ok && cells[i].ppo2 != 0 && cells[i].ppo2 != 255
    && now <= cells[i].timestamp + staleness
  }

  /** Cells that are failed, uncalibrated, degraded, invalid or stale have no say: whatever they
      report, and at whatever time, the votes, the consensus and the confidence are the same. */
  lemma UnusableCellsAreIgnored(
      cells: seq<Cell>, now: int, staleness: int, others: seq<Cell>, now': int, staleness': int)
    requires forall i :: 0 <= i < 3 ==> (Usable(cells, now, staleness, i) <==> Usable(others, now', staleness', i))
    requires forall i :: 0 <= i < 3 && Usable(cells, now, staleness, i) && Usable(others, now', staleness', i) ==>
      cells[i].ppo2 == others[i].ppo2 && cells[i].precision == others[i].precision
    ensures Vote(Slots(cells, now, staleness)) == Vote(Slots(others, now', staleness'))
  {
    forall i: nat | i < 3 ensures SlotOf(cells, now, staleness, i) == SlotOf(others, now', staleness', i) {
      assert Usable(cells, now, staleness, i) <==> Usable(others, now', staleness', i);
    }
  }

  /** Two usable readings within 0.15 bar of each other. */
  predicate UsablePair(cells: seq<Cell>, now: int, staleness: int, i: nat, j: nat) {
    && Usable(cells, now, staleness, i) && Usable(cells, now, staleness, j)
    && -0.15 <= cells[i].precision - cells[j].precision <= 0.15
  }

  /** The consensus is trusted exactly when two usable cells agree. */
  lemma TrustedIffTwoUsableAgree(cells: seq<Cell>, now: int, staleness: int)
    ensures |Vote(Slots(cells, now, staleness)).voted| == CELLS
    ensures Confidence(Vote(Slots(cells, now, staleness))) > 0 <==>
      exists i, j :: 0 <= i < j < 3 && UsablePair(cells, now, staleness, i, j)
  {
    var s := Slots(cells, now, staleness);
    VotedLength(s);
    VoteSucceedsIff(s);
    forall i: nat, j: nat | i < j < 3
      ensures s[i].In? && s[j].In? && Agree(s[i].x, s[j].x) <==> UsablePair(cells, now, staleness, i, j) {}
    if i, j :| 0 <= i < j < CELLS && s[i].In? && s[j].In? && Agree(s[i].x, s[j].x) {
      assert UsablePair(cells, now, staleness, i, j);
    }
  }

  /** A usable cell that is alone is reported as it is, with no confidence. */
  lemma LoneUsableIsReported(cells: seq<Cell>, now: int, staleness: int, i: nat)
    requires i < 3 && forall j :: 0 <= j < 3 ==> (Usable(cells, now, staleness, j) <==> j == i)
    ensures Usable(cells, now, staleness, i)
    ensures Vote(Slots(cells, now, staleness)) ==
            Verdict([false, false, false], Single(cells[i].ppo2, cells[i].precision))
  {
    var s := Slots(cells, now, staleness);
    forall j: nat | j < 3 ensures s[j].In? <==> j == i {
      assert Usable(cells, now, staleness, j) <==> j == i;
    }
  }

  // ---- Who is voted in ----

  lemma PairIsClose(a: real, b: real)
    requires Agree(a, b)
    ensures Abs(a - Mean(a, b)) <= 0.10 && Abs(b - Mean(a, b)) <= 0.10
  {}

  lemma AllAreClose(p: Split)
    requires Least(p) && Agree(p.x, p.y) && Agree(p.third, Mean(p.x, p.y))
    ensures var mean := (p.x + p.y + p.third) / 3.0;
      Abs(p.x - mean) <= 0.10 && Abs(p.y - mean) <= 0.10 && Abs(p.third - mean) <= 0.10
  {}

  /** Every cell voted in lies within 0.10 bar of the consensus, two thirds of the deviation the
      vote accepts. */
  lemma VotedInIsClose(s: seq<Slot>, i: nat)
    requires |s| == CELLS && i < CELLS
    ensures |Vote(s).voted| == CELLS
    ensures Vote(s).voted[i] ==> s[i].In? && Abs(s[i].x - Precision(Vote(s).outcome)) <= 0.10
  {
    VotedLength(s);
    if s[0].In? && s[1].In? && s[2].In? {
      VotedOfThreeIsClose(s, i);
    } else if Eligibles(s) == 2 {
      var j, k := if s[0].In? then 0 else 1, if s[2].In? then 2 else 1;
      if Agree(s[j].x, s[k].x) { PairIsClose(s[j].x, s[k].x); }
    }
  }

  lemma VotedOfThreeIsClose(s: seq<Slot>, i: nat)
    requires |s| == CELLS && i < CELLS && s[0].In? && s[1].In? && s[2].In?
    ensures |Vote(s).voted| == CELLS
    ensures Vote(s).voted[i] ==> Abs(s[i].x - Precision(Vote(s).outcome)) <= 0.10
  {
    var p := VoteOfThree(s);
    if Agree(p.x, p.y) {
      PairIsClose(p.x, p.y);
      if Agree(p.third, Mean(p.x, p.y)) { AllAreClose(p); }
    }
  }

  /** Readings 0.10 bar apart reach that bound. */
  lemma ClosenessIsTight()
    ensures var v := Vote([In(100, 1.00), In(110, 1.10), In(120, 1.20)]);
      && v.voted == [true, true, true]
      && Abs(1.00 - Precision(v.outcome)) == 0.10 && Abs(1.20 - Precision(v.outcome)) == 0.10
  {
    assert Closest(1.00, 1.10, 1.20) == 0;
    assert Mean(1.00, 1.10) == 1.05;
  }

  /** Once a vote succeeds, an eligible cell left out is further from the consensus than the
      deviation the vote accepts. */
  lemma VotedOutIsFar(s: seq<Slot>, i: nat)
    requires |s| == CELLS && i < CELLS
    ensures |Vote(s).voted| == CELLS
    ensures Confidence(Vote(s)) > 0 && s[i].In? && !Vote(s).voted[i] ==> !Agree(s[i].x, Precision(Vote(s).outcome))
  {
    VotedLength(s);
    if s[0].In? && s[1].In? && s[2].In? { var p := VoteOfThree(s); }
  }

  lemma MeanIsBetween(x: real, y: real, third: real, low: real, high: real)
    requires low <= x <= high && low <= y <= high
    ensures low <= Mean(x, y) <= high
    ensures low <= third <= high ==> low <= (x + y + third) / 3.0 <= high
  {}

  /** Bounds on all voted-in readings. */
  ghost predicate Bounded(s: seq<Slot>, voted: seq<bool>, low: real, high: real)
    requires |s| == CELLS == |voted|
  {
    forall i :: 0 <= i < CELLS && voted[i] ==> s[i].In? && low <= s[i].x <= high
  }

  /** The consensus lies between the least and the greatest voted-in reading: any bounds on
      those bound it too. */
  lemma ConsensusIsBetween(s: seq<Slot>, low: real, high: real)
    requires |s| == CELLS
    ensures |Vote(s).voted| == CELLS
    ensures Confidence(Vote(s)) > 0 && Bounded(s, Vote(s).voted, low, high) ==>
      low <= Precision(Vote(s).outcome) <= high
  {
    VotedLength(s);
    var v := Vote(s);
    if Confidence(v) > 0 && Bounded(s, v.voted, low, high) {
      var i, j, k := VotedCells(s, v);
      MeanIsBetween(s[i].x, s[j].x, if k < CELLS then s[k].x else s[i].x, low, high);
    }
  }

  /** The two or three voted-in cells of a vote, whose mean is the consensus. `k` is CELLS when
      there are two. */
  lemma VotedCells(s: seq<Slot>, v: Verdict) returns (i: nat, j: nat, k: nat)
    requires |s| == CELLS && v == Vote(s) && |v.voted| == CELLS && Confidence(v) > 0
    ensures i < j < CELLS && v.voted[i] && v.voted[j] && s[i].In? && s[j].In? && k <= CELLS
    ensures k == CELLS ==> Precision(v.outcome) == Mean(s[i].x, s[j].x) && Confidence(v) == 2
    ensures k < CELLS ==>
      && v.voted[k] && s[k].In? && Confidence(v) == 3
      && Precision(v.outcome) == (s[i].x + s[j].x + s[k].x) / 3.0
  {
    i, j, k := 0, 1, CELLS;
    if s[0].In? && s[1].In? && s[2].In? {
      var p := VoteOfThree(s);
      if v.voted == [true, true, true] { k := 2; }
    }
    if k == CELLS {
      i, j := if v.voted[0] then 0 else 1, if v.voted[2] then 2 else 1;
    }
  }

  lemma SomePairAgrees(p: Split, q: Split)
    requires Least(p) && Agree(q.x, q.y)
    requires Gap(q.x, q.y) == Gap(p.x, p.y) || Gap(q.x, q.y) == Gap(p.x, p.third) || Gap(q.x, q.y) == Gap(p.y, p.third)
    ensures Agree(p.x, p.y)
  {}

  /** A vote succeeds exactly when some two eligible cells agree. */
  lemma VoteSucceedsIff(s: seq<Slot>)
    requires |s| == CELLS
    ensures |Vote(s).voted| == CELLS
    ensures Confidence(Vote(s)) > 0 <==>
      exists i, j :: 0 <= i < j < CELLS && s[i].In? && s[j].In? && Agree(s[i].x, s[j].x)
  {
    VotedLength(s);
    match (s[0], s[1], s[2])
    case (In(_, a), In(_, b), In(_, c)) =>
      var p := VoteOfThree(s);
      if Agree(a, b) { SomePairAgrees(p, SplitAt(a, b, c, 0)); }
      if Agree(a, c) { SomePairAgrees(p, SplitAt(a, b, c, 1)); }
      if Agree(b, c) { SomePairAgrees(p, SplitAt(a, b, c, 2)); }
      assert Agree(p.x, p.y) ==> Agree(s[0].x, s[1].x) || Agree(s[0].x, s[2].x) || Agree(s[1].x, s[2].x);
    case (In(_, a), In(_, b), Out) => assert Agree(s[0].x, s[1].x) <==> Agree(a, b);
    case (In(_, a), Out, In(_, c)) => assert Agree(s[0].x, s[2].x) <==> Agree(a, c);
    case (Out, In(_, b), In(_, c)) => assert Agree(s[1].x, s[2].x) <==> Agree(b, c);
    case _ =>
  }

  lemma ConfidenceIsZeroTwoOrThree(s: seq<Slot>)
    requires |s| == CELLS
    ensures |Vote(s).voted| == CELLS && Confidence(Vote(s)) in {0, 2, 3}
  {
    VotedLength(s);
    if Confidence(Vote(s)) > 0 { var i, j, k := VotedCells(s, Vote(s)); }
  }

  function Eligibles(s: seq<Slot>): nat
    requires |s| == CELLS
  {
    Bit(s[0].In?) + Bit(s[1].In?) + Bit(s[2].In?)
  }

  lemma OutcomeShape(s: seq<Slot>)
    requires |s| == CELLS
    ensures |Vote(s).voted| == CELLS
    ensures Vote(s).outcome.Average? <==> Confidence(Vote(s)) > 0
    ensures Vote(s).outcome.Single? <==> Eligibles(s) == 1
    ensures Vote(s).outcome.Single? ==> exists i :: 0 <= i < CELLS && s[i].In? && s[i].ppo2 == Vote(s).outcome.ppo2
  {
    VotedLength(s);
    if s[0].In? && s[1].In? && s[2].In? { var p := VoteOfThree(s); }
  }

  /** The value that keeps the solenoid shut is reported exactly when no vote was possible, or
      when the average does not fit the wire. */
  lemma SolenoidInhibitedIff(s: seq<Slot>)
    requires |s| == CELLS && forall i :: 0 <= i < CELLS && s[i].In? ==> s[i].ppo2 != PPO2_FAIL
    ensures |Vote(s).voted| == CELLS
    ensures Wire(Vote(s).outcome) == PPO2_FAIL <==>
      || (Eligibles(s) != 1 && Confidence(Vote(s)) == 0)
      || (Confidence(Vote(s)) > 0 && Precision(Vote(s).outcome) * 100.0 > MAX_VALID_PPO2 as real)
  {
    OutcomeShape(s);
  }

  // ---- One faulty cell ----

  /** One cell may be out of the vote or report anything: as long as the two others are eligible
      and within `e` of the true PPO2, the vote succeeds and the consensus is off by at most 2e or
      e + 0.05. */
  lemma OneFaultyCellIsOutvoted(s: seq<Slot>, bad: nat, truth: real, e: real)
    requires |s| == CELLS && bad < CELLS && 0.0 <= e <= 0.075
    requires forall i :: 0 <= i < CELLS && i != bad ==> s[i].In? && Abs(s[i].x - truth) <= e
    ensures |Vote(s).voted| == CELLS && Confidence(Vote(s)) >= 2
    ensures var off := Abs(Precision(Vote(s).outcome) - truth); off <= 2.0 * e || off <= e + 0.05
  {
    if s[bad].In? {
      FaultyOfThree(s, bad, truth, e);
    } else {
      FaultyIsOut(s, bad, truth, e);
    }
  }

  lemma FaultyIsOut(s: seq<Slot>, bad: nat, truth: real, e: real)
    requires |s| == CELLS && bad < CELLS && 0.0 <= e <= 0.075 && s[bad].Out?
    requires forall i :: 0 <= i < CELLS && i != bad ==> s[i].In? && Abs(s[i].x - truth) <= e
    ensures |Vote(s).voted| == CELLS && Confidence(Vote(s)) >= 2
    ensures Abs(Precision(Vote(s).outcome) - truth) <= 2.0 * e
  {
    var i, j := if bad == 0 then 1 else 0, if bad == 2 then 1 else 2;
    GoodPair(s[i].x, s[j].x, s[i].x, truth, e);
  }

  lemma FaultyOfThree(s: seq<Slot>, bad: nat, truth: real, e: real)
    requires |s| == CELLS && bad < CELLS && 0.0 <= e <= 0.075 && s[bad].In?
    requires forall i :: 0 <= i < CELLS && i != bad ==> s[i].In? && Abs(s[i].x - truth) <= e
    ensures |Vote(s).voted| == CELLS && Confidence(Vote(s)) >= 2
    ensures var off := Abs(Precision(Vote(s).outcome) - truth); off <= 2.0 * e || off <= e + 0.05
  {
    var p := VoteOfThree(s);
    if p.rest == bad {
      FaultyThird(p, truth, e);
    } else if (p.rest == 0 && bad == 2) || (p.rest != 0 && bad != 0) {
      FaultySecond(p, truth, e);
    } else {
      FaultyFirst(p, truth, e);
    }
  }

  lemma FaultyThird(p: Split, truth: real, e: real)
    requires 0.0 <= e <= 0.075 && Abs(p.x - truth) <= e && Abs(p.y - truth) <= e
    ensures |SettleSplit(p).voted| == CELLS && Confidence(SettleSplit(p)) >= 2
    ensures var off := Abs(Precision(SettleSplit(p).outcome) - truth); off <= 2.0 * e || off <= e + 0.05
  {
    GoodPair(p.x, p.y, p.third, truth, e);
  }

  lemma FaultySecond(p: Split, truth: real, e: real)
    requires Least(p) && 0.0 <= e <= 0.075 && Abs(p.x - truth) <= e && Abs(p.third - truth) <= e
    ensures |SettleSplit(p).voted| == CELLS && Confidence(SettleSplit(p)) >= 2
    ensures Abs(Precision(SettleSplit(p).outcome) - truth) <= 2.0 * e
  {
    HalfGoodPair(p.x, p.y, p.third, truth, e);
  }

  lemma FaultyFirst(p: Split, truth: real, e: real)
    requires Least(p) && 0.0 <= e <= 0.075 && Abs(p.y - truth) <= e && Abs(p.third - truth) <= e
    ensures |SettleSplit(p).voted| == CELLS && Confidence(SettleSplit(p)) >= 2
    ensures Abs(Precision(SettleSplit(p).outcome) - truth) <= 2.0 * e
  {
    HalfGoodPair(p.y, p.x, p.third, truth, e);
  }

  lemma GoodPair(x: real, y: real, third: real, truth: real, e: real)
    requires 0.0 <= e <= 0.075 && Abs(x - truth) <= e && Abs(y - truth) <= e
    ensures Agree(x, y) && Abs(Mean(x, y) - truth) <= 2.0 * e
    ensures Agree(third, Mean(x, y)) ==> Abs((x + y + third) / 3.0 - truth) <= e + 0.05
  {
    var mean := Mean(x, y);
    assert Abs(mean - truth) <= e;
    assert (x + y + third) / 3.0 - mean == (third - mean) / 3.0;
  }

  /** The faulty reading `y` is as close to `x` as the other good one, or closer. */
  lemma HalfGoodPair(x: real, y: real, third: real, truth: real, e: real)
    requires 0.0 <= e <= 0.075 && Abs(x - truth) <= e && Abs(third - truth) <= e && Gap(x, y) <= Gap(x, third)
    ensures Agree(x, y) && Abs(Mean(x, y) - truth) <= 2.0 * e
    ensures Abs((x + y + third) / 3.0 - truth) <= 2.0 * e
  {
    assert Abs(x - y) <= 2.0 * e;
  }

  // ---- Order of the cells ----

  type Order = p: (nat, nat, nat) | p in {(0, 1, 2), (0, 2, 1), (1, 0, 2), (1, 2, 0), (2, 0, 1), (2, 1, 0)}
    witness (0, 1, 2)

  function Reorder<T>(s: seq<T>, p: Order): seq<T>
    requires |s| == CELLS
  {
    [s[p.0], s[p.1], s[p.2]]
  }

  function ReorderVerdict(v: Verdict, p: Order): Verdict
    requires |v.voted| == CELLS
  {
    v.(voted := Reorder(v.voted, p))
  }

  /** `mid` is halfway between two readings that are close enough to be paired with it and too
      far apart to be both accepted. */
  predicate Torn(mid: real, a: real, b: real) {
    a + b == 2.0 * mid && 0.20 < Abs(a - b) <= 0.30
  }

  predicate AnyTorn(a: real, b: real, c: real) { Torn(a, b, c) || Torn(b, a, c) || Torn(c, a, b) }

  predicate Ambiguous(s: seq<Slot>)
    requires |s| == CELLS
  {
    s[0].In? && s[1].In? && s[2].In? && AnyTorn(s[0].x, s[1].x, s[2].x)
  }

  ghost predicate OrderIrrelevant(s: seq<Slot>, p: Order)
    requires |s| == CELLS
  {
    VotedLength(s);
    Vote(Reorder(s, p)) == ReorderVerdict(Vote(s), p)
  }

  /** A reading equally close to both others either agrees with neither, or all three are
      accepted whichever pair is taken first. */
  lemma Tie(m: real, u: real, v: real)
    requires Gap(m, u) == Gap(m, v) <= Gap(u, v) && !Torn(m, u, v)
    ensures Agree(m, u) == Agree(m, v)
    ensures Agree(m, u) ==> Agree(v, Mean(m, u)) && Agree(u, Mean(m, v))
  {}

  /** A tied reading settles alike with either neighbour: nobody is voted in, or everybody. */
  lemma TiedSettle(m: real, u: real, v: real, flags: seq<bool>, others: seq<bool>)
    requires Gap(m, u) == Gap(m, v) <= Gap(u, v) && !Torn(m, u, v)
    ensures Settle(flags, m, u, v) == Settle(others, m, v, u)
  {
    Tie(m, u, v);
  }

  lemma SettleSwapped(flags: seq<bool>, x: real, y: real, third: real)
    ensures Settle(flags, x, y, third) == Settle(flags, y, x, third)
  {}

  lemma TiedGaps(m: real, u: real, v: real)
    requires Gap(m, u) <= Gap(m, v) && Gap(m, v) <= Gap(m, u) && Gap(m, u) <= Gap(u, v)
    ensures Gap(m, u) == Gap(m, v) <= Gap(u, v)
    ensures Gap(u, m) == Gap(m, u) && Gap(v, m) == Gap(m, v) && Gap(v, u) == Gap(u, v)
  {}

  /** Two least pairs of the same readings lead to the same verdict. */
  lemma TiedSplits(m: real, u: real, v: real, p: Split, q: Split)
    requires Least(p) && Least(q) && !Torn(m, u, v)
    requires p.third == v && q.third == u
    requires (p.x == m && p.y == u) || (p.x == u && p.y == m)
    requires (q.x == m && q.y == v) || (q.x == v && q.y == m)
    ensures SettleSplit(p) == SettleSplit(q)
  {
    TiedGaps(m, u, v);
    SettleSwapped(Flags(p.rest), p.x, p.y, v);
    SettleSwapped(Flags(q.rest), q.x, q.y, u);
    TiedSettle(m, u, v, Flags(p.rest), Flags(q.rest));
  }

  /** Any least pair, not only the first, leads to the same verdict. */
  lemma AnyLeastPair(a: real, b: real, c: real, k: nat)
    requires k < CELLS && Least(SplitAt(a, b, c, k)) && !AnyTorn(a, b, c)
    ensures Triple(a, b, c) == SettleSplit(SplitAt(a, b, c, k))
  {
    TripleSettles(a, b, c);
    var j := Closest(a, b, c);
    var p, q := SplitAt(a, b, c, j), SplitAt(a, b, c, k);
    if j != k {
      if j != 2 && k != 2 {
        if j == 0 { TiedSplits(a, b, c, p, q); } else { TiedSplits(a, c, b, p, q); }
      } else if j != 1 && k != 1 {
        if j == 0 { TiedSplits(b, a, c, p, q); } else { TiedSplits(b, c, a, p, q); }
      } else {
        if j == 1 { TiedSplits(c, a, b, p, q); } else { TiedSplits(c, b, a, p, q); }
      }
    }
  }

  lemma SettleSymmetric(p: Split, q: Split)
    requires q.third == p.third && ((q.x == p.x && q.y == p.y) || (q.x == p.y && q.y == p.x))
    ensures Least(p) == Least(q) && SettleSplit(p).outcome == SettleSplit(q).outcome
    ensures var v, w := SettleSplit(p).voted, SettleSplit(q).voted;
      || (v == w && (v == NOBODY || v == [true, true, true]))
      || (v == Flags(p.rest) && w == Flags(q.rest))
  {}

  lemma SwapFirst(a: real, b: real, c: real)
    requires !AnyTorn(a, b, c)
    ensures |Triple(a, b, c).voted| == CELLS && Triple(b, a, c) == ReorderVerdict(Triple(a, b, c), (1, 0, 2))
  {
    TripleSettles(a, b, c);
    var k := Closest(a, b, c);
    var j := if k == 0 then 0 else 3 - k;
    SettleSymmetric(SplitAt(a, b, c, k), SplitAt(b, a, c, j));
    AnyLeastPair(b, a, c, j);
  }

  lemma SwapLast(a: real, b: real, c: real)
    requires !AnyTorn(a, b, c)
    ensures |Triple(a, b, c).voted| == CELLS && Triple(a, c, b) == ReorderVerdict(Triple(a, b, c), (0, 2, 1))
  {
    TripleSettles(a, b, c);
    var k := Closest(a, b, c);
    var j := if k == 2 then 2 else 1 - k;
    SettleSymmetric(SplitAt(a, b, c, k), SplitAt(a, c, b, j));
    AnyLeastPair(a, c, b, j);
  }

  /** A verdict on three readings follows them through any reordering. */
  lemma AnyOrderOfThree(x: seq<real>, p: Order)
    requires |x| == CELLS && !AnyTorn(x[0], x[1], x[2])
    ensures |Triple(x[0], x[1], x[2]).voted| == CELLS
    ensures Triple(x[p.0], x[p.1], x[p.2]) == ReorderVerdict(Triple(x[0], x[1], x[2]), p)
  {
    var a, b, c := x[0], x[1], x[2];
    SwapFirst(a, b, c);
    SwapLast(a, b, c);
    SwapLast(b, a, c);
    SwapFirst(a, c, b);
    SwapFirst(b, c, a);
    Relabel(Triple(a, b, c), Triple(b, a, c), Triple(a, c, b), Triple(b, c, a), Triple(c, a, b), Triple(c, b, a));
  }

  /** The verdicts on the six orders, given the swaps that lead from one to the next. */
  lemma Relabel(abc: Verdict, bac: Verdict, acb: Verdict, bca: Verdict, cab: Verdict, cba: Verdict)
    requires |abc.voted| == CELLS && bac == ReorderVerdict(abc, (1, 0, 2)) && acb == ReorderVerdict(abc, (0, 2, 1))
    requires bca == ReorderVerdict(bac, (0, 2, 1)) && cab == ReorderVerdict(acb, (1, 0, 2))
    requires cba == ReorderVerdict(bca, (1, 0, 2))
    ensures abc == ReorderVerdict(abc, (0, 1, 2)) && bca == ReorderVerdict(abc, (1, 2, 0))
    ensures cab == ReorderVerdict(abc, (2, 0, 1)) && cba == ReorderVerdict(abc, (2, 1, 0))
  {}

  /** Reordering the cells reorders the votes and keeps the consensus exactly when the readings
      are not torn between two pairs. */
  lemma OrderIrrelevantIff(s: seq<Slot>)
    requires |s| == CELLS
    ensures (forall p: Order :: OrderIrrelevant(s, p)) <==> !Ambiguous(s)
  {
    if !Ambiguous(s) {
      forall p: Order ensures OrderIrrelevant(s, p) { AnyOrder(s, p); }
    } else if Torn(s[0].x, s[1].x, s[2].x) {
      TornVotesDiffer(s, (1, 0, 2), (2, 0, 1));
    } else if Torn(s[1].x, s[0].x, s[2].x) {
      TornVotesDiffer(s, (0, 1, 2), (2, 1, 0));
    } else {
      TornVotesDiffer(s, (0, 2, 1), (1, 2, 0));
    }
  }

  lemma TornFirst(a: real, m: real, b: real)
    requires Torn(m, a, b)
    ensures Triple(a, m, b).outcome == Average(Mean(a, m)) && Mean(a, m) != Mean(b, m)
  {
    TripleSettles(a, m, b);
    assert Closest(a, m, b) == 0;
    assert Agree(a, m) && !Agree(b, Mean(a, m));
  }

  /** The middle cell is paired with whichever neighbour comes first. */
  lemma TornVotesDiffer(s: seq<Slot>, p: Order, q: Order)
    requires |s| == CELLS && s[0].In? && s[1].In? && s[2].In?
    requires p.0 == q.2 && p.1 == q.1 && p.2 == q.0 && Torn(s[p.1].x, s[p.0].x, s[p.2].x)
    ensures !OrderIrrelevant(s, p) || !OrderIrrelevant(s, q)
  {
    var a, m, b := s[p.0].x, s[p.1].x, s[p.2].x;
    TornFirst(a, m, b);
    TornFirst(b, m, a);
    assert Vote(Reorder(s, p)) == Triple(a, m, b);
    assert Vote(Reorder(s, q)) == Triple(b, m, a);
  }

  lemma AnyOrder(s: seq<Slot>, p: Order)
    requires |s| == CELLS && !Ambiguous(s)
    ensures OrderIrrelevant(s, p)
  {
    VotedLength(s);
    if s[0].In? && s[1].In? && s[2].In? {
      AnyOrderOfThree([s[0].x, s[1].x, s[2].x], p);
      assert Vote(Reorder(s, p)) == Triple(s[p.0].x, s[p.1].x, s[p.2].x);
    } else {
      FewerInAnyOrder(s, p);
    }
  }

  /** With a cell missing there is at most one pair, and its mean is symmetric. */
  lemma FewerInAnyOrder(s: seq<Slot>, p: Order)
    requires |s| == CELLS && !(s[0].In? && s[1].In? && s[2].In?)
    ensures OrderIrrelevant(s, p)
  {
    if Eligibles(s) == 2 {
      var i, j := if s[0].In? then 0 else 1, if s[2].In? then 2 else 1;
      PairSymmetric(s[i].x, s[j].x);
    }
  }

  lemma PairSymmetric(a: real, b: real)
    ensures Agree(a, b) == Agree(b, a) && Mean(a, b) == Mean(b, a)
  {}
}
