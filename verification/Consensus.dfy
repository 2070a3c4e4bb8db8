/** Voting on the PPO2 of up to three oxygen cells. Floats are modelled as reals, in bar.
    Source: oxygen_cell_math.c. */
module Consensus {
  import opened Common

  const CELLS: nat := 3
  const PPO2_FAIL: nat := 255
  const MAX_VALID_PPO2: nat := 254
  const MAX_DEVIATION := 15.0

  datatype Status = Ok | Degraded | Fail | NeedCal

  datatype Cell = Cell(status: Status, ppo2: nat, precision: real, millivolts: nat, timestamp: int)

  datatype Message = Message(
    status: seq<Status>, ppo2: seq<nat>, precision: seq<real>, millivolts: seq<nat>,
    voted: seq<bool>, consensusPpo2: nat, precisionConsensus: real, confidence: nat)

  // ---- Wire format ----

  function ToWire(centibar: real): (w: nat)
    ensures w <= MAX_VALID_PPO2
  {
    var rounded := Round(centibar);
    var floored := if rounded < 0 then 0 else rounded;
    if floored > MAX_VALID_PPO2 then MAX_VALID_PPO2 else floored
  }

  /** No byte of the wire range is nearer to the reading. */
  lemma ToWireIsNearest(centibar: real, v: nat)
    requires v <= MAX_VALID_PPO2
    ensures Abs(centibar - ToWire(centibar) as real) <= Abs(centibar - v as real)
  {
    var w := ToWire(centibar);
    if 0.0 <= centibar < 254.5 {
      assert Abs(centibar - w as real) <= 0.5;
      if v < w { assert v as real <= w as real - 1.0; } else if v > w { assert v as real >= w as real + 1.0; }
    }
  }

  /** The guard on an average that the wire cannot carry. */
  function WireOrFail(centibar: real): nat {
    if centibar > MAX_VALID_PPO2 as real then PPO2_FAIL else ToWire(centibar)
  }

  // ---- The vote ----

  /** What a cell brings to the vote: nothing, or its wire and precise readings. */
  datatype Slot = Out | In(ppo2: nat, x: real)

  /** What a vote comes to: nothing, the readings of the only cell, or an average. */
  datatype Outcome = Nothing | Single(ppo2: nat, x: real) | Average(x: real)

  datatype Verdict = Verdict(voted: seq<bool>, outcome: Outcome)

  function Precision(o: Outcome): real {
    if o.Nothing? then PPO2_FAIL as real else o.x
  }

  function Wire(o: Outcome): nat {
    match o
    case Nothing => PPO2_FAIL
    case Single(ppo2, _) => ppo2
    case Average(x) => WireOrFail(x * 100.0)
  }

  predicate Eligible(c: Cell, now: int, staleness: int) {
    c.ppo2 != PPO2_FAIL && c.ppo2 != 0 && c.status == Ok && now - c.timestamp <= staleness
  }

  function SlotOf(cells: seq<Cell>, now: int, staleness: int, i: nat): Slot {
    if i < |cells| && Eligible(cells[i], now, staleness) then In(cells[i].ppo2, cells[i].precision) else Out
  }

  function Slots(cells: seq<Cell>, now: int, staleness: int): (s: seq<Slot>)
    ensures |s| == CELLS
  {
    [SlotOf(cells, now, staleness, 0), SlotOf(cells, now, staleness, 1), SlotOf(cells, now, staleness, 2)]
  }

  const NOBODY := [false, false, false]

  /** The readings agree to within the largest deviation the vote accepts. */
  predicate Agree(a: real, b: real) { Abs(a - b) * 100.0 <= MAX_DEVIATION }

  function Gap(a: real, b: real): real { Abs(a - b) }

  function Mean(a: real, b: real): real { (a + b) / 2.0 }

  function Accept(voted: seq<bool>, average: real): Verdict { Verdict(voted, Average(average)) }

  function NoVote(): Verdict { Verdict(NOBODY, Nothing) }

  /** Two cells: average them if they agree. */
  function Pair(voted: seq<bool>, a: real, b: real): Verdict {
    if Agree(a, b) then Accept(voted, Mean(a, b)) else NoVote()
  }

  /** The first of the three pairs 01, 02, 12 with the least gap. */
  function Closest(a: real, b: real, c: real): nat {
    if Gap(a, b) <= Gap(a, c) && Gap(a, b) <= Gap(b, c) then 0
    else if Gap(a, c) <= Gap(b, c) then 1
    else 2
  }

  /** Three cells, of which `a` and `b` are closest and `voted` leaves out the third. */
  function Settle(voted: seq<bool>, a: real, b: real, third: real): Verdict {
    if !Agree(a, b) then NoVote()
    else if !Agree(third, Mean(a, b)) then Accept(voted, Mean(a, b))
    else Accept([true, true, true], (a + b + third) / 3.0)
  }

  function Triple(a: real, b: real, c: real): Verdict {
    match Closest(a, b, c)
    case 0 => Settle([true, true, false], a, b, c)
    case 1 => Settle([true, false, true], a, c, b)
    case _ => Settle([false, true, true], b, c, a)
  }

  function Vote(s: seq<Slot>): Verdict
    requires |s| == CELLS
  {
    match (s[0], s[1], s[2])
    case (Out, Out, Out) => NoVote()
    case (In(w, a), Out, Out) => Verdict(NOBODY, Single(w, a))
    case (Out, In(w, b), Out) => Verdict(NOBODY, Single(w, b))
    case (Out, Out, In(w, c)) => Verdict(NOBODY, Single(w, c))
    case (In(_, a), In(_, b), Out) => Pair([true, true, false], a, b)
    case (In(_, a), Out, In(_, c)) => Pair([true, false, true], a, c)
    case (Out, In(_, b), In(_, c)) => Pair([false, true, true], b, c)
    case (In(_, a), In(_, b), In(_, c)) => Triple(a, b, c)
  }

  lemma VotedAreIn(s: seq<Slot>, i: nat)
    requires |s| == CELLS && i < CELLS
    ensures |Vote(s).voted| == CELLS && (Vote(s).voted[i] ==> s[i].In?)
  {}

  function Bit(b: bool): nat { if b then 1 else 0 }

  function Confidence(v: Verdict): nat
    requires |v.voted| == CELLS
  {
    Bit(v.voted[0]) + Bit(v.voted[1]) + Bit(v.voted[2])
  }

  // ---- The code ----

  /** The fields of the message that a vote fills in. */
  datatype Entry = Entry(voted: seq<bool>, wire: nat, precision: real)

  function EntryOf(v: Verdict): Entry { Entry(v.voted, Wire(v.outcome), Precision(v.outcome)) }

  /** The first two included readings, found by a scan. */
  method IncludedValues(voted: seq<bool>, precision: seq<real>) returns (v0: real, v1: real)
    requires |voted| == CELLS == |precision|
    ensures voted == [true, true, false] ==> v0 == precision[0] && v1 == precision[1]
    ensures voted == [true, false, true] ==> v0 == precision[0] && v1 == precision[2]
    ensures voted == [false, true, true] ==> v0 == precision[1] && v1 == precision[2]
  {
    var values := [0.0, 0.0];
    var idx, i := 0, 0;
    while i < CELLS
      invariant 0 <= i <= CELLS && |values| == 2
      invariant idx == (if i > 0 then Bit(voted[0]) else 0) + (if i > 1 then Bit(voted[1]) else 0)
        + (if i > 2 && idx < 3 && !(voted[0] && voted[1]) then Bit(voted[2]) else 0)
      invariant i > 0 && voted[0] ==> values[0] == precision[0]
      invariant i > 1 && voted[1] ==> values[Bit(voted[0])] == precision[1]
      invariant i > 2 && voted[2] && voted[0] != voted[1] ==> values[1] == precision[2]
    {
      if voted[i] && idx < 2 {
        values := values[idx := precision[i]];
        idx := idx + 1;
      }
      i := i + 1;
    }
    v0, v1 := values[0], values[1];
  }

  method TwoCellConsensus(voted: seq<bool>, precision: seq<real>) returns (v: Entry)
    requires |voted| == CELLS == |precision|
    ensures voted == [true, true, false] ==> v == EntryOf(Pair(voted, precision[0], precision[1]))
    ensures voted == [true, false, true] ==> v == EntryOf(Pair(voted, precision[0], precision[2]))
    ensures voted == [false, true, true] ==> v == EntryOf(Pair(voted, precision[1], precision[2]))
  {
    var v0, v1 := IncludedValues(voted, precision);
    if Abs(v0 - v1) * 100.0 > MAX_DEVIATION {
      v := Entry(NOBODY, PPO2_FAIL, PPO2_FAIL as real);
    } else {
      var average := (v0 + v1) / 2.0 * 100.0;
      v := Entry(voted, WireOrFail(average), average / 100.0);
    }
  }

  /** The index of the first least of three gaps. */
  method LeastGap(gaps: seq<real>) returns (index: nat)
    requires |gaps| == 3
    ensures index < 3 && forall j :: 0 <= j < 3 ==> gaps[index] <= gaps[j]
    ensures forall j :: 0 <= j < index ==> gaps[index] < gaps[j]
  {
    var least := gaps[0];
    index := 0;
    for i := 0 to 3
      invariant index < 3 && least == gaps[index] && (index < i || index == 0)
      invariant forall j :: 0 <= j < i ==> least <= gaps[j]
      invariant forall j :: 0 <= j < index ==> least < gaps[j]
    {
      if gaps[i] < least {
        least := gaps[i];
        index := i;
      }
    }
  }

  method ThreeCellConsensus(precision: seq<real>) returns (v: Entry)
    requires |precision| == CELLS
    ensures v == EntryOf(Triple(precision[0], precision[1], precision[2]))
  {
    var a, b, c := precision[0], precision[1], precision[2];
    var gaps := [Abs(a - b), Abs(a - c), Abs(b - c)];
    var averages := [(a + b) / 2.0, (a + c) / 2.0, (b + c) / 2.0];
    var remainder := [2, 1, 0];
    var k := LeastGap(gaps);
    FirstLeast(a, b, c, gaps, k);
    ghost var x, y := if k == 2 then b else a, if k == 0 then b else c;
    v := JudgeRemainder(gaps[k], averages[k], a + b + c, precision[remainder[k]], remainder[k], x, y);
  }

  /** The branches after the closest pair, with readings `x` and `y`, is known. */
  method JudgeRemainder(gap: real, average: real, sum: real, third: real, remainder: nat, ghost x: real, ghost y: real)
    returns (v: Entry)
    requires remainder < CELLS && gap == Gap(x, y) && average == Mean(x, y) && sum == x + y + third
    ensures v == EntryOf(Settle([true, true, true][remainder := false], x, y, third))
  {
    if gap * 100.0 > MAX_DEVIATION {
      v := Entry(NOBODY, PPO2_FAIL, PPO2_FAIL as real);
    } else if Abs(third - average) * 100.0 > MAX_DEVIATION {
      var total := average * 100.0;
      v := Entry([true, true, true][remainder := false], WireOrFail(total), average);
    } else {
      var total := sum / 3.0 * 100.0;
      v := Entry([true, true, true], WireOrFail(total), total / 100.0);
    }
  }

  lemma FirstLeast(a: real, b: real, c: real, gaps: seq<real>, k: nat)
    requires gaps == [Abs(a - b), Abs(a - c), Abs(b - c)]
    requires k < 3 && (forall j :: 0 <= j < 3 ==> gaps[k] <= gaps[j]) && forall j :: 0 <= j < k ==> gaps[k] < gaps[j]
    ensures k == Closest(a, b, c)
  {
    assert gaps[0] == Gap(a, b) && gaps[1] == Gap(a, c) && gaps[2] == Gap(b, c);
  }

  /** The message carries the readings of the first three cells, and zeros for missing ones. */
  ghost predicate Reports(m: Message, cells: seq<Cell>) {
    && |m.voted| == |m.ppo2| == |m.precision| == |m.status| == |m.millivolts| == CELLS
    && ReportsTo(m, cells, CELLS)
  }

  ghost predicate ReportsTo(m: Message, cells: seq<Cell>, n: nat)
    requires n <= CELLS == |m.ppo2| == |m.precision| == |m.status| == |m.millivolts|
  {
    forall i :: 0 <= i < n ==>
      if i < |cells| then
        && m.status[i] == cells[i].status && m.ppo2[i] == cells[i].ppo2
        && m.precision[i] == cells[i].precision && m.millivolts[i] == cells[i].millivolts
      else m.status[i] == Fail && m.ppo2[i] == 0 && m.precision[i] == 0.0 && m.millivolts[i] == 0
  }

  method Load(cells: seq<Cell>) returns (m: Message)
    ensures Reports(m, cells)
    ensures forall i :: 0 <= i < CELLS ==> m.voted[i] == (i < |cells|)
    ensures m.consensusPpo2 == PPO2_FAIL && m.precisionConsensus == PPO2_FAIL as real
  {
    m := Message([Ok, Ok, Ok], [0, 0, 0], [0.0, 0.0, 0.0], [0, 0, 0], NOBODY, PPO2_FAIL, PPO2_FAIL as real, 0);
    for i := 0 to CELLS
      invariant |m.voted| == |m.ppo2| == |m.precision| == |m.status| == |m.millivolts| == CELLS
      invariant m.consensusPpo2 == PPO2_FAIL && m.precisionConsensus == PPO2_FAIL as real
      invariant forall j :: i <= j < CELLS ==> m.ppo2[j] == 0 && m.precision[j] == 0.0 && m.millivolts[j] == 0
      invariant ReportsTo(m, cells, i)
      invariant forall j :: 0 <= j < i ==> m.voted[j] == (j < |cells|)
    {
      if i < |cells| {
        m := m.(status := m.status[i := cells[i].status],
                ppo2 := m.ppo2[i := cells[i].ppo2],
                precision := m.precision[i := cells[i].precision],
                millivolts := m.millivolts[i := cells[i].millivolts],
                voted := m.voted[i := true]);
      } else {
        m := m.(status := m.status[i := Fail], voted := m.voted[i := false]);
      }
    }
  }

  /** Which cells take part, and how many. */
  method Filter(m: Message, cells: seq<Cell>, now: int, staleness: int) returns (voted: seq<bool>, included: nat)
    requires Reports(m, cells) && forall i :: 0 <= i < CELLS ==> m.voted[i] == (i < |cells|)
    ensures |voted| == CELLS && included == Bit(voted[0]) + Bit(voted[1]) + Bit(voted[2])
    ensures forall i :: 0 <= i < CELLS ==> voted[i] == SlotOf(cells, now, staleness, i).In?
  {
    included := 0;
    voted := m.voted;
    var k := 0;
    while k < CELLS
      invariant 0 <= k <= CELLS && |voted| == CELLS
      invariant forall j :: 0 <= j < k ==> voted[j] == SlotOf(cells, now, staleness, j).In?
      invariant forall j :: k <= j < CELLS ==> voted[j] == (j < |cells|)
      invariant included == (if k > 0 then Bit(voted[0]) else 0) + (if k > 1 then Bit(voted[1]) else 0)
        + (if k > 2 then Bit(voted[2]) else 0)
    {
      if voted[k] {
        if m.ppo2[k] == PPO2_FAIL || m.ppo2[k] == 0 {
          voted := voted[k := false];
        } else if m.status[k] == NeedCal || m.status[k] == Fail || m.status[k] == Degraded
            || now - cells[k].timestamp > staleness {
          voted := voted[k := false];
        } else {
          included := included + 1;
        }
      }
      k := k + 1;
    }
  }

  /** The only included cell: its readings are used, but it is voted out. */
  method LoneCell(m: Message) returns (v: Entry)
    requires |m.voted| == |m.ppo2| == |m.precision| == CELLS
    requires Bit(m.voted[0]) + Bit(m.voted[1]) + Bit(m.voted[2]) == 1
    ensures exists i :: 0 <= i < CELLS && m.voted[i] && v == Entry(NOBODY, m.ppo2[i], m.precision[i])
  {
    v := Entry(m.voted, PPO2_FAIL, PPO2_FAIL as real);
    var i := 0;
    while i < CELLS
      invariant 0 <= i <= CELLS && |v.voted| == CELLS
      invariant forall j :: 0 <= j < i ==> !v.voted[j]
      invariant forall j :: i <= j < CELLS ==> v.voted[j] == m.voted[j]
      invariant forall j :: 0 <= j < i && m.voted[j] ==> v.wire == m.ppo2[j] && v.precision == m.precision[j]
    {
      if v.voted[i] {
        v := Entry(v.voted[i := false], m.ppo2[i], m.precision[i]);
      }
      i := i + 1;
    }
    assert v.voted == NOBODY;
  }

  /** consensus_calculate: every cell's readings are reported, and the vote is taken on the
      eligible ones alone. */
  method ConsensusCalculate(cells: seq<Cell>, now: int, staleness: int) returns (m: Message)
    ensures Reports(m, cells)
    ensures Entry(m.voted, m.consensusPpo2, m.precisionConsensus) == EntryOf(Vote(Slots(cells, now, staleness)))
    ensures m.confidence == Confidence(Vote(Slots(cells, now, staleness)))
    ensures forall i :: 0 <= i < CELLS && m.voted[i] ==>
      && i < |cells| && cells[i].status == Ok && cells[i].ppo2 != 0 && cells[i].ppo2 != 255
      && now <= cells[i].timestamp + staleness
  {
    m := Load(cells);
    var voted, included := Filter(m, cells, now, staleness);
    m := m.(voted := voted);
    var v := Decide(m, included, Slots(cells, now, staleness));
    var confidence := ConsensusConfidence(v.voted);
    forall i | 0 <= i < CELLS && v.voted[i] ensures SlotOf(cells, now, staleness, i).In? {
      VotedAreIn(Slots(cells, now, staleness), i);
    }
    m := m.(voted := v.voted, consensusPpo2 := v.wire, precisionConsensus := v.precision, confidence := confidence);
  }

  method Decide(m: Message, included: nat, ghost s: seq<Slot>) returns (v: Entry)
    requires |m.voted| == |m.ppo2| == |m.precision| == |s| == CELLS
    requires m.consensusPpo2 == PPO2_FAIL && m.precisionConsensus == PPO2_FAIL as real
    requires included == Bit(m.voted[0]) + Bit(m.voted[1]) + Bit(m.voted[2])
    requires forall i :: 0 <= i < CELLS ==> s[i] == if m.voted[i] then In(m.ppo2[i], m.precision[i]) else Out
    ensures v == EntryOf(Vote(s)) && |v.voted| == CELLS
  {
    assert m.voted == [m.voted[0], m.voted[1], m.voted[2]];
    if included == 0 {
      v := Entry(m.voted, m.consensusPpo2, m.precisionConsensus);
    } else if included == 1 {
      v := LoneCell(m);
    } else if included == 2 {
      v := TwoCellConsensus(m.voted, m.precision);
    } else {
      v := ThreeCellConsensus(m.precision);
    }
  }

  method ConsensusConfidence(voted: seq<bool>) returns (confidence: nat)
    requires |voted| == CELLS
    ensures confidence == Bit(voted[0]) + Bit(voted[1]) + Bit(voted[2])
  {
    confidence := 0;
    for i := 0 to CELLS
      invariant confidence == (if i > 0 then Bit(voted[0]) else 0) + (if i > 1 then Bit(voted[1]) else 0)
        + (if i > 2 then Bit(voted[2]) else 0)
    {
      if voted[i] { confidence := confidence + 1; }
    }
  }
}
