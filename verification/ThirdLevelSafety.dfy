/** What holds of every run: nobody receives a message in the wrong role, nobody waits forever, and in
    the end both systems hold the same reduced data. */
module ThirdLevelSafety {
  import opened ThirdLevel
  import opened ThirdLevelDrain
  import opened ThirdLevelRuns
  import opened ThirdLevelSteps

  /** The broker is in the middle of forwarding a block. */
  predicate IsForwarding(pt: Point) {
    pt.AtForthSize? || pt.AtForthData? || pt.AtReply? || pt.AtBackSize? || pt.AtBackData?
  }

  lemma ForwardingAdvances(p: Program, s: State, pt: Point, j: nat)
    requires IsAt(p, s, pt) && BrokerCanStep(s, j) && IsForwarding(pt)
    ensures IsAt(p, BrokerStep(s, j), After(p, pt, j))
  {
    hide IsAt, BrokerStep, BrokerCanStep;
    match pt
    case AtForthSize(r, a, k) => FromForthSize(p, s, r, a, k, j);
    case AtForthData(r, a, k) => FromForthData(p, s, r, a, k, j);
    case AtReply(r, a, k) => FromReply(p, s, r, a, k, j);
    case AtBackSize(r, a, k) => FromBackSize(p, s, r, a, k, j);
    case AtBackData(r, a, k) => FromBackData(p, s, r, a, k, j);
  }

  lemma BrokerStepAdvances(p: Program, s: State, pt: Point, j: nat)
    requires IsAt(p, s, pt) && BrokerCanStep(s, j)
    ensures pt != AtEnd && IsAt(p, BrokerStep(s, j), After(p, pt, j))
  {
    hide BrokerStep;
    match pt
    case AtPoll(r) =>
      if r < |p| {
        FromPoll(p, s, r, j);
      } else {
        FromLastPoll(p, s, j);
      }
    case AtOther(r, a) => FromOther(p, s, r, a, j);
    case AtInitiator(r, a, k) => FromInitiator(p, s, r, a, k, j);
    case AtInitiatorReady(r, a) => FromInitiatorReady(p, s, r, a, j);
    case AtOtherReady(r, a) => FromOtherReady(p, s, r, a, j);
    case AtOneLeft(i) => FromOneLeft(p, s, i, j);
    case AtEnd =>
    case _ => ForwardingAdvances(p, s, pt, j);
  }

  /** Messages that the broker still has to take from round r on, and after a point. */
  function MessagesFrom(p: Program, r: nat): nat
    requires r <= |p|
    decreases |p| - r
  {
    if r == |p| then 2 else 4 + 6 * |p[r].blocks| + MessagesFrom(p, r + 1)
  }

  function MessagesAfter(p: Program, pt: Point): int
    requires IsPoint(p, pt)
  {
    match pt
    case AtPoll(r) => MessagesFrom(p, r)
    case AtOther(r, a) => MessagesFrom(p, r) - 1
    case AtInitiator(r, a, k) => MessagesFrom(p, r) - 2 - 6 * k
    case AtForthSize(r, a, k) => MessagesFrom(p, r) - 3 - 6 * k
    case AtForthData(r, a, k) => MessagesFrom(p, r) - 4 - 6 * k
    case AtReply(r, a, k) => MessagesFrom(p, r) - 5 - 6 * k
    case AtBackSize(r, a, k) => MessagesFrom(p, r) - 6 - 6 * k
    case AtBackData(r, a, k) => MessagesFrom(p, r) - 7 - 6 * k
    case AtInitiatorReady(r, a) => MessagesFrom(p, r + 1) + 2
    case AtOtherReady(r, a) => MessagesFrom(p, r + 1) + 1
    case AtOneLeft(j) => 1
    case AtEnd => 0
  }

  lemma OneMessageLess(p: Program, pt: Point, j: nat)
    requires IsProgram(p) && IsPoint(p, pt) && pt != AtEnd && IsPoint(p, After(p, pt, j))
    ensures MessagesAfter(p, After(p, pt, j)) == MessagesAfter(p, pt) - 1 && MessagesAfter(p, pt) > 0
  {
  }

  /** Steps that can still be taken: a message of the broker costs at most one message to a system. */
  function Work(p: Program, s: State, pt: Point): int
    requires IsPoint(p, pt) && |s.systems| == 2
  {
    3 * MessagesAfter(p, pt) + Fuel(s.systems[0]) + Fuel(s.systems[1])
  }

  lemma BrokerAddsFuel(s: State, j: nat)
    requires BrokerCanStep(s, j)
    ensures var t := BrokerStep(s, j);
            |t.systems| == 2 && Fuel(t.systems[0]) + Fuel(t.systems[1]) <= Fuel(s.systems[0]) + Fuel(s.systems[1]) + 2
  {
    assert j == 0 || j == 1;
  }

  lemma SystemStepAdvances(p: Program, s: State, pt: Point, i: nat)
    requires IsAt(p, s, pt) && i < 2 && CanStep(s.systems[i])
    ensures var t := s.(systems := s.systems[i := SystemStep(p, i, s.systems[i])]);
            IsAt(p, t, pt) && Work(p, t, pt) < Work(p, s, pt)
  {
    SystemStepStays(p, s, pt, i);
    StepUsesFuel(p, i, s.systems[i]);
    assert i == 0 || i == 1;
  }

  lemma BrokerStepUsesWork(p: Program, s: State, pt: Point, j: nat)
    requires IsAt(p, s, pt) && BrokerCanStep(s, j)
    ensures IsAt(p, BrokerStep(s, j), After(p, pt, j)) && Work(p, BrokerStep(s, j), After(p, pt, j)) < Work(p, s, pt)
  {
    BrokerStepAdvances(p, s, pt, j);
    BrokerAddsFuel(s, j);
    OneMessageLess(p, pt, j);
  }

  /** Every step keeps the state at a point and uses up work. */
  lemma StepAdvances(p: Program, s: State, pt: Point, t: State) returns (next: Point)
    requires IsAt(p, s, pt) && Next(p, s, t)
    ensures IsAt(p, t, next) && Work(p, t, next) < Work(p, s, pt)
  {
    if i: nat :| i < 2 && ValidClients(p, s) && CanStep(s.systems[i])
                 && t == s.(systems := s.systems[i := SystemStep(p, i, s.systems[i])]) {
      next := pt;
      SystemStepAdvances(p, s, pt, i);
    } else {
      var j: nat :| BrokerCanStep(s, j) && t == BrokerStep(s, j);
      next := After(p, pt, j);
      BrokerStepUsesWork(p, s, pt, j);
    }
  }

  ghost predicate IsRun(p: Program, run: seq<State>) {
    && run != [] && run[0] == Initial()
    && forall n {:trigger run[n]} :: 1 <= n < |run| ==> Next(p, run[n - 1], run[n])
  }

  lemma InitialIsAt(p: Program)
    requires IsProgram(p)
    ensures IsAt(p, Initial(), AtPoll(0)) && Work(p, Initial(), AtPoll(0)) == 3 * MessagesFrom(p, 0) + 2
  {
    var s := Initial().systems[0];
    assert SystemStep(p, 0, s) == Waiting(p, 0) && SystemStep(p, 1, s) == Waiting(p, 0);
  }

  /** The state is at a point that leaves at most the given work. */
  ghost predicate IsWithin(p: Program, s: State, work: int) {
    exists pt :: IsAt(p, s, pt) && Work(p, s, pt) <= work
  }

  lemma StepStaysWithin(p: Program, s: State, t: State, work: int)
    requires IsWithin(p, s, work) && Next(p, s, t)
    ensures IsWithin(p, t, work - 1)
  {
    var pt :| IsAt(p, s, pt) && Work(p, s, pt) <= work;
    var next := StepAdvances(p, s, pt, t);
  }

  lemma InitialIsWithin(p: Program)
    requires IsProgram(p)
    ensures IsWithin(p, Initial(), 3 * MessagesFrom(p, 0) + 2)
  {
    InitialIsAt(p);
  }

  lemma {:induction false} StateIsWithin(p: Program, run: seq<State>, n: nat)
    requires IsProgram(p) && IsRun(p, run) && n < |run|
    ensures IsWithin(p, run[n], 3 * MessagesFrom(p, 0) + 2 - n)
  {
    hide Next, Initial, MessagesFrom, IsWithin;
    if n == 0 {
      InitialIsWithin(p);
    } else {
      StateIsWithin(p, run, n - 1);
      StepStaysWithin(p, run[n - 1], run[n], 3 * MessagesFrom(p, 0) + 3 - n);
    }
  }

  lemma RunIsNotEmpty(p: Program, run: seq<State>)
    requires IsRun(p, run)
    ensures |run| > 0
  {
  }

  lemma PointWithin(p: Program, s: State, work: int) returns (pt: Point)
    requires IsWithin(p, s, work)
    ensures IsAt(p, s, pt) && Work(p, s, pt) <= work
  {
    hide MessagesFrom, SystemAt, BrokerAt;
    pt :| IsAt(p, s, pt) && Work(p, s, pt) <= work;
  }

  lemma RunIsAt(p: Program, run: seq<State>) returns (pt: Point)
    requires IsProgram(p) && IsRun(p, run)
    ensures IsAt(p, run[|run| - 1], pt)
    ensures Work(p, run[|run| - 1], pt) + |run| <= 3 * MessagesFrom(p, 0) + 3
  {
    hide *;
    RunIsNotEmpty(p, run);
    StateIsWithin(p, run, |run| - 1);
    pt := PointWithin(p, run[|run| - 1], 3 * MessagesFrom(p, 0) + 3 - |run|);
  }

  lemma WorkIsNatural(p: Program, s: State, pt: Point)
    requires IsProgram(p) && IsPoint(p, pt) && |s.systems| == 2
    ensures Work(p, s, pt) >= 0
  {
    if pt != AtEnd {
      MessagesAreNatural(p, pt);
    }
  }

  lemma MessagesAreNatural(p: Program, pt: Point)
    requires IsProgram(p) && IsPoint(p, pt)
    ensures MessagesAfter(p, pt) >= 0
  {
  }

  /** Every run ends, after a number of steps that the program alone determines. */
  lemma RunsAreBounded(p: Program, run: seq<State>)
    requires IsProgram(p) && IsRun(p, run)
    ensures |run| <= 3 * MessagesFrom(p, 0) + 3
  {
    var pt := RunIsAt(p, run);
    WorkIsNatural(p, run[|run| - 1], pt);
  }

  /** A failed system stays failed. */
  lemma FailureRemains(p: Program, i: nat, s: System)
    requires s.client.ClientFailed?
    ensures Drain(p, i, s).client.ClientFailed?
  {
  }

  lemma PointsDoNotFail(p: Program, pt: Point, i: nat)
    requires IsProgram(p) && IsPoint(p, pt)
    ensures !SystemAt(p, pt, i).client.ClientFailed? && !BrokerAt(p, pt).BrokerFailed?
  {
  }

  /** No participant ever receives a message that its role does not expect, nor data of another size. */
  lemma NobodyFails(p: Program, run: seq<State>)
    requires IsProgram(p) && IsRun(p, run)
    ensures var s := run[|run| - 1];
            |s.systems| == 2 && !s.broker.BrokerFailed? && !s.systems[0].client.ClientFailed?
              && !s.systems[1].client.ClientFailed?
  {
    var pt := RunIsAt(p, run);
    var s := run[|run| - 1];
    PointsDoNotFail(p, pt, 0);
    PointsDoNotFail(p, pt, 1);
    if s.systems[0].client.ClientFailed? {
      FailureRemains(p, 0, s.systems[0]);
    }
    if s.systems[1].client.ClientFailed? {
      FailureRemains(p, 1, s.systems[1]);
    }
  }

  /** The end: both systems have logged off with all results, and no message is left. */
  ghost predicate IsFinal(p: Program, s: State)
    requires IsProgram(p)
  {
    && s.broker == Poll && s.connected == {} && s.stats == StatsBefore(p, |p|)
    && s.systems == [System(Closed, [], [], Results(p, |p|, 0)), System(Closed, [], [], Results(p, |p|, 0))]
  }

  ghost predicate CanContinue(p: Program, s: State) {
    exists t :: Next(p, s, t)
  }

  /** The system whose message the broker waits for, or one of the two that it polls. */
  function Speaker(pt: Point): nat {
    match pt
    case AtPoll(r) => 0
    case AtOther(r, a) => if a == 0 then 1 else 0
    case AtInitiator(r, a, k) => a
    case AtForthSize(r, a, k) => a
    case AtForthData(r, a, k) => a
    case AtReply(r, a, k) => if a == 0 then 1 else 0
    case AtBackSize(r, a, k) => if a == 0 then 1 else 0
    case AtBackData(r, a, k) => if a == 0 then 1 else 0
    case AtInitiatorReady(r, a) => a
    case AtOtherReady(r, a) => if a == 0 then 1 else 0
    case AtOneLeft(i) => i
    case AtEnd => 0
  }

  lemma SpeakerSends(p: Program, pt: Point)
    requires IsProgram(p) && IsPoint(p, pt) && pt != AtEnd
    ensures Speaker(pt) < 2 && SystemAt(p, pt, Speaker(pt)).outbox != []
  {
  }

  lemma SpeakerIsHeard(p: Program, s: State, pt: Point)
    requires IsPoint(p, pt) && pt != AtEnd && s.broker == BrokerAt(p, pt) && s.connected == ConnectedAt(pt)
    ensures ListensTo(s, Speaker(pt))
  {
  }

  lemma IdleIsDrained(p: Program, i: nat, c: System)
    requires InProgram(p, c.client) && !CanStep(c)
    ensures Drain(p, i, c) == c
  {
  }

  /** If no system can step, the system that the broker listens to has sent something. */
  lemma SomebodySent(p: Program, s: State, pt: Point) returns (j: nat)
    requires IsAt(p, s, pt) && !CanStep(s.systems[0]) && !CanStep(s.systems[1]) && pt != AtEnd
    ensures BrokerCanStep(s, j)
  {
    hide IsAt, Drain, SystemAt, BrokerAt, IsPoint, IsProgram, CanStep, InProgram;
    j := Speaker(pt);
    AtMeans(p, s, pt, 0);
    SpeakerSends(p, pt);
    AtMeans(p, s, pt, j);
    SpeakerIsHeard(p, s, pt);
    IdleIsDrained(p, j, s.systems[j]);
  }

  /** Number of blocks in the rounds before r. */
  function BlocksBefore(p: Program, r: nat): nat
    requires r <= |p|
  {
    if r == 0 then 0 else BlocksBefore(p, r - 1) + |p[r - 1].blocks|
  }

  /** The results are listed round by round and block by block. */
  lemma {:induction false} ResultOfBlock(p: Program, upto: nat, n: nat, r: nat, k: nat)
    requires IsProgram(p) && upto <= |p| && (n > 0 ==> upto < |p| && n <= |p[upto].blocks|)
    requires r < |p| && k < |p[r].blocks| && (r < upto || (r == upto && k < n))
    ensures |Results(p, upto, n)| == BlocksBefore(p, upto) + n
    ensures BlocksBefore(p, r) + k < |Results(p, upto, n)|
    ensures Results(p, upto, n)[BlocksBefore(p, r) + k] == Result(p[r].kind, p[r].blocks[k])
    decreases upto, n
  {
    hide Result;
    ResultCount(p, upto, n);
    if n > 0 {
      ResultCount(p, upto, n - 1);
      if r < upto || k < n - 1 {
        ResultOfBlock(p, upto, n - 1, r, k);
      }
    } else {
      ResultCount(p, upto - 1, |p[upto - 1].blocks|);
      ResultOfBlock(p, upto - 1, |p[upto - 1].blocks|, r, k);
    }
  }

  lemma {:induction false} ResultCount(p: Program, upto: nat, n: nat)
    requires IsProgram(p) && upto <= |p| && (n > 0 ==> upto < |p| && n <= |p[upto].blocks|)
    ensures |Results(p, upto, n)| == BlocksBefore(p, upto) + n
    decreases upto, n
  {
    if n > 0 {
      ResultCount(p, upto, n - 1);
    } else if upto > 0 {
      ResultCount(p, upto - 1, |p[upto - 1].blocks|);
    }
  }

  /** At the end both systems hold the same result for every block: the sums after a combination, the larger sizes
      after an exchange of sizes, and the smaller ones after that of the extra sparse grid. */
  lemma BothHoldResults(p: Program, s: State, i: nat, r: nat, k: nat)
    requires IsProgram(p) && IsFinal(p, s) && i < 2 && r < |p| && k < |p[r].blocks|
    ensures |s.systems| == 2 && |s.systems[i].log| == BlocksBefore(p, |p|)
    ensures BlocksBefore(p, r) + k < |s.systems[i].log|
    ensures var b, v := p[r].blocks[k], s.systems[i].log[BlocksBefore(p, r) + k];
            && |v| == |b.x| == |b.y|
            && forall j {:trigger v[j]} :: 0 <= j < |v| ==>
                 match p[r].kind
                 case Combine => v[j] == b.x[j] + b.y[j]
                 case Unify(extra) =>
                   (v[j] == b.x[j] || v[j] == b.y[j])
                   && if extra then v[j] <= b.x[j] && v[j] <= b.y[j] else v[j] >= b.x[j] && v[j] >= b.y[j]
  {
    hide Results, StatsBefore;
    ResultOfBlock(p, |p|, 0, r, k);
  }

  /** No run gets stuck before the end, and the end is the same for all runs. */
  lemma NobodyWaitsForever(p: Program, run: seq<State>)
    requires IsProgram(p) && IsRun(p, run)
    ensures CanContinue(p, run[|run| - 1]) || IsFinal(p, run[|run| - 1])
  {
    var pt := RunIsAt(p, run);
    var s := run[|run| - 1];
    if CanStep(s.systems[0]) {
      assert Next(p, s, s.(systems := s.systems[0 := SystemStep(p, 0, s.systems[0])]));
    } else if CanStep(s.systems[1]) {
      assert Next(p, s, s.(systems := s.systems[1 := SystemStep(p, 1, s.systems[1])]));
    } else if pt == AtEnd {
      assert s.systems == [s.systems[0], s.systems[1]];
    } else {
      var j := SomebodySent(p, s, pt);
      assert Next(p, s, BrokerStep(s, j));
    }
  }

  /** Bytes of all combinations, or of all size exchanges, in one direction: eight for a number, four for a size, and
      one for the byte order of every block. */
  function BytesOfBlocks(p: Program, r: nat, k: nat): nat
    requires r < |p| && k <= |p[r].blocks|
  {
    if k == 0 then 0
    else BytesOfBlocks(p, r, k - 1) + (if p[r].kind == Combine then 8 else 4) * |p[r].blocks[k - 1].x| + 1
  }

  function BytesBefore(p: Program, combine: bool, r: nat): nat
    requires r <= |p|
  {
    if r == 0 then 0
    else BytesBefore(p, combine, r - 1) + if IsCombine(p, r - 1) == combine
      then BytesOfBlocks(p, r - 1, |p[r - 1].blocks|) else 0
  }

  function CombinationsBefore(p: Program, r: nat): nat
    requires r <= |p|
  {
    if r == 0 then 0 else CombinationsBefore(p, r - 1) + if IsCombine(p, r - 1) then 1 else 0
  }

  lemma {:induction false} StatsOfBlocks(p: Program, r: nat, k: nat)
    requires r < |p| && k <= |p[r].blocks|
    ensures StatsIn(p, r, k).combinations == CombinationsBefore(p, r + 1)
    ensures StatsIn(p, r, k).bytesInCombination
            == 2 * (BytesBefore(p, true, r) + if IsCombine(p, r) then BytesOfBlocks(p, r, k) else 0)
    ensures StatsIn(p, r, k).bytesInSizeExchange
            == 2 * (BytesBefore(p, false, r) + if IsCombine(p, r) then 0 else BytesOfBlocks(p, r, k))
    decreases r, k + 1
  {
    if k == 0 {
      StatsOfRounds(p, r);
    } else {
      StatsOfBlocks(p, r, k - 1);
    }
  }

  /** Every combination is counted, and every byte of every block in both directions. */
  lemma {:induction false} StatsOfRounds(p: Program, r: nat)
    requires r <= |p|
    ensures StatsBefore(p, r).combinations == CombinationsBefore(p, r)
    ensures StatsBefore(p, r).bytesInCombination == 2 * BytesBefore(p, true, r)
    ensures StatsBefore(p, r).bytesInSizeExchange == 2 * BytesBefore(p, false, r)
    decreases r, 0
  {
    if r > 0 {
      StatsOfBlocks(p, r - 1, |p[r - 1].blocks|);
    }
  }

  lemma StepRecordsForwarded(s: State, j: nat)
    requires BrokerCanStep(s, j)
    ensures var t := BrokerStep(s, j);
            t.stats.bytesForwarded - s.stats.bytesForwarded
            == t.stats.bytesInCombination - s.stats.bytesInCombination
              + t.stats.bytesInSizeExchange - s.stats.bytesInSizeExchange
  {
  }

  lemma InitialIsZero()
    ensures Initial().stats == Stats(0, 0, 0, 0)
  {
  }

  lemma NextRecordsForwarded(p: Program, s: State, t: State)
    requires Next(p, s, t)
    ensures t.stats.bytesForwarded - s.stats.bytesForwarded
            == t.stats.bytesInCombination - s.stats.bytesInCombination
              + t.stats.bytesInSizeExchange - s.stats.bytesInSizeExchange
  {
    hide BrokerStep, BrokerCanStep, SystemStep, CanStep, ValidClients;
    if j: nat :| BrokerCanStep(s, j) && t == BrokerStep(s, j) {
      StepRecordsForwarded(s, j);
    }
  }

  /** At any time the broker has recorded exactly the bytes that it has forwarded. */
  lemma {:induction false} RecordedIsForwarded(p: Program, run: seq<State>, n: nat)
    requires IsRun(p, run) && n < |run|
    ensures run[n].stats.bytesForwarded == run[n].stats.bytesInCombination + run[n].stats.bytesInSizeExchange
  {
    hide Next, Initial;
    if n > 0 {
      RecordedIsForwarded(p, run, n - 1);
      NextRecordsForwarded(p, run[n - 1], run[n]);
    } else {
      InitialIsZero();
    }
  }
}
