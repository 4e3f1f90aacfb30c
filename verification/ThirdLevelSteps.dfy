/** A step of the broker leads from every point to the next one. */
module ThirdLevelSteps {
  import opened ThirdLevel
  import opened ThirdLevelDrain
  import opened ThirdLevelRuns

  /** The systems after the broker took a message of j and told system to, if any, a message. */
  ghost predicate Moved(s: State, t: State, j: nat, to: nat, told: seq<Message>)
    requires |s.systems| == 2 && j < 2
  {
    && |t.systems| == 2
    && t.systems[j] == (if to == j && told != [] then Told(Taken(s.systems[j]), told[0]) else Taken(s.systems[j]))
    && t.systems[1 - j] == if to == 1 - j && told != [] then Told(s.systems[1 - j], told[0]) else s.systems[1 - j]
  }

  /** It is enough to look at drained systems. */
  lemma DrainMoved(p: Program, s: State, t: State, j: nat, to: nat, told: seq<Message>)
    requires ValidClients(p, s) && BrokerCanStep(s, j) && Moved(s, t, j, to, told)
    ensures ValidClients(p, t)
    ensures var c := Drain(p, j, s.systems[j]);
            c.outbox != [] && c.outbox[0] == s.systems[j].outbox[0]
            && Drain(p, j, t.systems[j]) == if to == j && told != [] then Drain(p, j, Told(Taken(c), told[0]))
              else Taken(c)
    ensures var d := Drain(p, 1 - j, s.systems[1 - j]);
            Drain(p, 1 - j, t.systems[1 - j]) == if to == 1 - j && told != [] then Drain(p, 1 - j, Told(d, told[0]))
              else d
  {
    DrainThenTaken(p, j, s.systems[j]);
    if told != [] {
      if to == j {
        DrainThenTold(p, j, Taken(s.systems[j]), told[0]);
      } else if to == 1 - j {
        DrainThenTold(p, 1 - j, s.systems[1 - j], told[0]);
      }
    }
    assert j == 0 || j == 1;
  }

  /** What it means to be at a point, for the system that is heard and for the other one. */
  lemma AtMeans(p: Program, s: State, pt: Point, j: nat)
    requires IsAt(p, s, pt) && j < 2
    ensures IsProgram(p) && IsPoint(p, pt) && ValidClients(p, s)
    ensures s.broker == BrokerAt(p, pt) && s.connected == ConnectedAt(pt) && s.stats == StatsAt(p, pt)
    ensures Drain(p, j, s.systems[j]) == SystemAt(p, pt, j)
            && Drain(p, 1 - j, s.systems[1 - j]) == SystemAt(p, pt, 1 - j)
  {
    assert j == 0 || j == 1;
  }

  lemma BecomesAt(p: Program, t: State, pt: Point, j: nat)
    requires IsProgram(p) && IsPoint(p, pt) && ValidClients(p, t) && j < 2
    requires t.broker == BrokerAt(p, pt) && t.connected == ConnectedAt(pt) && t.stats == StatsAt(p, pt)
    requires Drain(p, j, t.systems[j]) == SystemAt(p, pt, j)
             && Drain(p, 1 - j, t.systems[1 - j]) == SystemAt(p, pt, 1 - j)
    ensures IsAt(p, t, pt)
  {
    assert j == 0 || j == 1;
  }

  /** The message that the broker takes is the one that the drained system would send first. */
  lemma HeadAt(p: Program, s: State, pt: Point, j: nat)
    requires IsAt(p, s, pt) && j < 2 && s.systems[j].outbox != []
    ensures SystemAt(p, pt, j).outbox != [] && SystemAt(p, pt, j).outbox[0] == s.systems[j].outbox[0]
    ensures Drain(p, j, s.systems[j]) == SystemAt(p, pt, j)
            && Drain(p, 1 - j, s.systems[1 - j]) == SystemAt(p, pt, 1 - j)
  {
    hide IsAt, SystemAt;
    AtMeans(p, s, pt, j);
    DrainThenTaken(p, j, s.systems[j]);
  }

  /** Forwarding data as announced. */
  lemma DataIsForwarded(s: State, j: nat, i: nat, combine: bool, n: nat, values: seq<real>)
    requires BrokerCanStep(s, j) && s.systems[j].outbox[0] == Data(values) && ByteLength(combine, values) == n
    requires s.broker == ForthData(i, combine, n) || s.broker == BackData(i, combine, n)
    ensures var t := BrokerStep(s, j);
            && Moved(s, t, j, 1 - j, [Data(values)]) && t.connected == s.connected
            && t.broker == (if s.broker.ForthData? then AwaitReply(i, combine) else AfterReply(i, combine))
            && t.stats == Transfer(s.stats, combine, n)
  {
  }

  /** Forwarding a size. */
  lemma SizeIsForwarded(s: State, j: nat, i: nat, combine: bool, n: nat)
    requires BrokerCanStep(s, j) && s.systems[j].outbox[0] == Size(n) && n > 0
    requires s.broker == ForthSize(i, combine) || s.broker == BackSize(i, combine)
    ensures var t := BrokerStep(s, j);
            && Moved(s, t, j, 1 - j, [Size(n)]) && t.connected == s.connected && t.stats == s.stats
            && t.broker == (if s.broker.ForthSize? then ForthData(i, combine, n) else BackData(i, combine, n))
  {
  }

  /** Taking a message that is not passed on. */
  lemma MessageIsTaken(s: State, j: nat)
    requires BrokerCanStep(s, j)
    requires !s.broker.Poll? && !s.broker.AwaitOther? && !s.broker.ForthSize? && !s.broker.ForthData?
             && !s.broker.BackSize? && !s.broker.BackData?
    ensures Moved(s, BrokerStep(s, j), j, j, [])
    ensures BrokerStep(s, j).connected == s.connected && BrokerStep(s, j).stats == s.stats
  {
  }

  lemma FromPoll(p: Program, s: State, r: nat, j: nat)
    requires IsAt(p, s, AtPoll(r)) && BrokerCanStep(s, j) && r < |p|
    ensures IsAt(p, BrokerStep(s, j), AtOther(r, j))
  {
    var t := BrokerStep(s, j);
    HeadAt(p, s, AtPoll(r), j);
    DrainMoved(p, s, t, j, j, [SendFirst]);
    Instructed(p, j, r, Sender);
    assert j == 0 || j == 1;
  }

  lemma FromLastPoll(p: Program, s: State, j: nat)
    requires IsAt(p, s, AtPoll(|p|)) && BrokerCanStep(s, j)
    ensures IsAt(p, BrokerStep(s, j), AtOneLeft(1 - j))
  {
    var t := BrokerStep(s, j);
    HeadAt(p, s, AtPoll(|p|), j);
    DrainMoved(p, s, t, j, j, []);
    assert j == 0 || j == 1;
  }

  lemma FromOneLeft(p: Program, s: State, i: nat, j: nat)
    requires IsAt(p, s, AtOneLeft(i)) && BrokerCanStep(s, j)
    ensures IsAt(p, BrokerStep(s, j), AtEnd)
  {
    var t := BrokerStep(s, j);
    HeadAt(p, s, AtOneLeft(i), j);
    DrainMoved(p, s, t, j, j, []);
    assert j == 0 || j == 1;
  }

  lemma FromOther(p: Program, s: State, r: nat, a: nat, j: nat)
    requires IsAt(p, s, AtOther(r, a)) && BrokerCanStep(s, j)
    ensures IsAt(p, BrokerStep(s, j), AtInitiator(r, a, 0))
  {
    var t := BrokerStep(s, j);
    HeadAt(p, s, AtOther(r, a), j);
    DrainMoved(p, s, t, j, j, [RecvFirst]);
    Instructed(p, j, r, Receiver);
    assert j == 0 || j == 1;
  }

  lemma FromInitiator(p: Program, s: State, r: nat, a: nat, k: nat, j: nat)
    requires IsAt(p, s, AtInitiator(r, a, k)) && BrokerCanStep(s, j)
    ensures IsAt(p, BrokerStep(s, j), if k < |p[r].blocks| then AtForthSize(r, a, k) else AtOtherReady(r, a))
  {
    var t := BrokerStep(s, j);
    HeadAt(p, s, AtInitiator(r, a, k), j);
    MessageIsTaken(s, j);
    DrainMoved(p, s, t, j, j, []);
    assert j == 0 || j == 1;
  }

  lemma SizeIsSent(p: Program, i: nat, r: nat, k: nat)
    requires IsProgram(p) && r < |p| && k < |p[r].blocks| && i < 2
    ensures var c, n := InBlock(p, i, r, k, Sender), RawSizeOf(p, r, k);
            n > 0 && Drop(c, 1).outbox != [] && Drop(c, 1).outbox[0] == Size(n) && Taken(Drop(c, 1)) == Drop(c, 2)
  {
  }

  lemma BlockIsAwaited(p: Program, i: nat, r: nat, k: nat, role: Role)
    requires IsProgram(p) && r < |p| && k < |p[r].blocks| && i < 2
    ensures InBlock(p, i, r, k, role).client == AwaitSize(r, k, role) && InBlock(p, i, r, k, role).inbox == []
  {
  }

  lemma FromForthSize(p: Program, s: State, r: nat, a: nat, k: nat, j: nat)
    requires IsAt(p, s, AtForthSize(r, a, k)) && BrokerCanStep(s, j)
    ensures IsAt(p, BrokerStep(s, j), AtForthData(r, a, k))
  {
    hide IsAt, BrokerStep, Drain, InBlock, IsProgram, StatsIn, RawSizeOf;
    var t := BrokerStep(s, j);
    AtMeans(p, s, AtForthSize(r, a, k), j);
    HeadAt(p, s, AtForthSize(r, a, k), j);
    SizeIsSent(p, j, r, k);
    SizeIsForwarded(s, j, a, IsCombine(p, r), RawSizeOf(p, r, k));
    DrainMoved(p, s, t, j, 1 - j, [Size(RawSizeOf(p, r, k))]);
    BlockIsAwaited(p, 1 - j, r, k, Receiver);
    SizeArrives(p, 1 - j, InBlock(p, 1 - j, r, k, Receiver), r, k, Receiver);
    BecomesAt(p, t, AtForthData(r, a, k), j);
  }

  lemma BlockIsSent(p: Program, i: nat, r: nat, k: nat)
    requires IsProgram(p) && r < |p| && k < |p[r].blocks| && i < 2
    ensures var c, n := InBlock(p, i, r, k, Sender), RawSizeOf(p, r, k);
            && Drop(c, 2).outbox == [Data(p[r].blocks[k].Of(i))] && Taken(Drop(c, 2)) == Drop(c, 3)
            && ByteLength(IsCombine(p, r), p[r].blocks[k].Of(i)) == n
  {
  }

  lemma FromForthData(p: Program, s: State, r: nat, a: nat, k: nat, j: nat)
    requires IsAt(p, s, AtForthData(r, a, k)) && BrokerCanStep(s, j)
    ensures IsAt(p, BrokerStep(s, j), AtReply(r, a, k))
  {
    hide IsAt, BrokerStep, Drain, InBlock, Replied, IsProgram, StatsIn, RawSizeOf;
    var t := BrokerStep(s, j);
    AtMeans(p, s, AtForthData(r, a, k), j);
    HeadAt(p, s, AtForthData(r, a, k), j);
    BlockIsSent(p, j, r, k);
    DataIsForwarded(s, j, a, IsCombine(p, r), RawSizeOf(p, r, k), p[r].blocks[k].Of(j));
    DrainMoved(p, s, t, j, 1 - j, [Data(p[r].blocks[k].Of(j))]);
    DataArrivesAtReceiver(p, 1 - j, r, k);
    BecomesAt(p, t, AtReply(r, a, k), j);
  }

  lemma FromReply(p: Program, s: State, r: nat, a: nat, k: nat, j: nat)
    requires IsAt(p, s, AtReply(r, a, k)) && BrokerCanStep(s, j)
    ensures IsAt(p, BrokerStep(s, j), AtBackSize(r, a, k))
  {
    hide IsAt, Drain, StatsIn;
    var t := BrokerStep(s, j);
    AtMeans(p, s, AtReply(r, a, k), j);
    HeadAt(p, s, AtReply(r, a, k), j);
    MessageIsTaken(s, j);
    DrainMoved(p, s, t, j, j, []);
    BecomesAt(p, t, AtBackSize(r, a, k), j);
  }

  lemma ReplySizeIsSent(p: Program, i: nat, r: nat, k: nat)
    requires IsProgram(p) && r < |p| && k < |p[r].blocks| && i < 2
    ensures var c, n := Replied(p, i, r, k), RawSizeOf(p, r, k);
            n > 0 && Drop(c, 1).outbox != [] && Drop(c, 1).outbox[0] == Size(n) && Taken(Drop(c, 1)) == Drop(c, 2)
  {
  }

  lemma ReplyIsAwaited(p: Program, i: nat, r: nat, k: nat)
    requires IsProgram(p) && r < |p| && k < |p[r].blocks| && i < 2
    ensures var c := Drop(InBlock(p, i, r, k, Sender), 3); c.client == AwaitSize(r, k, Sender) && c.inbox == []
  {
  }

  lemma FromBackSize(p: Program, s: State, r: nat, a: nat, k: nat, j: nat)
    requires IsAt(p, s, AtBackSize(r, a, k)) && BrokerCanStep(s, j)
    ensures IsAt(p, BrokerStep(s, j), AtBackData(r, a, k))
  {
    hide IsAt, BrokerStep, Drain, InBlock, Replied, IsProgram, StatsIn, RawSizeOf, Drop;
    var t := BrokerStep(s, j);
    AtMeans(p, s, AtBackSize(r, a, k), j);
    HeadAt(p, s, AtBackSize(r, a, k), j);
    ReplySizeIsSent(p, j, r, k);
    SizeIsForwarded(s, j, a, IsCombine(p, r), RawSizeOf(p, r, k));
    DrainMoved(p, s, t, j, 1 - j, [Size(RawSizeOf(p, r, k))]);
    ReplyIsAwaited(p, 1 - j, r, k);
    SizeArrives(p, 1 - j, Drop(InBlock(p, 1 - j, r, k, Sender), 3), r, k, Sender);
    BecomesAt(p, t, AtBackData(r, a, k), j);
  }

  lemma ReplyIsSent(p: Program, i: nat, r: nat, k: nat)
    requires IsProgram(p) && r < |p| && k < |p[r].blocks| && i < 2
    ensures var c, n := Drop(Replied(p, i, r, k), 2), RawSizeOf(p, r, k);
            && c.outbox != [] && c.outbox[0] == Data(Reply(p, i, r, k)) && Taken(c) == InBlock(p, i, r, k + 1, Receiver)
            && ByteLength(IsCombine(p, r), Reply(p, i, r, k)) == n
  {
  }

  lemma StatsAfterBlock(p: Program, r: nat, a: nat, k: nat)
    requires r < |p| && k < |p[r].blocks| && a < 2
    ensures Transfer(StatsAt(p, AtBackData(r, a, k)), IsCombine(p, r), RawSizeOf(p, r, k)) == StatsIn(p, r, k + 1)
  {
  }

  /** The systems once the reply has been returned. */
  ghost predicate BlockIsDone(p: Program, t: State, r: nat, a: nat, k: nat)
    requires IsProgram(p) && r < |p| && k < |p[r].blocks| && a < 2 && ValidClients(p, t)
  {
    && Drain(p, a, t.systems[a]) == InBlock(p, a, r, k + 1, Sender)
    && Drain(p, 1 - a, t.systems[1 - a]) == InBlock(p, 1 - a, r, k + 1, Receiver)
  }

  /** The systems when the reply is about to be returned. */
  ghost predicate ReplyIsDue(p: Program, s: State, r: nat, a: nat, k: nat)
    requires IsProgram(p) && r < |p| && k < |p[r].blocks| && a < 2 && ValidClients(p, s)
  {
    && s.broker == BackData(a, IsCombine(p, r), RawSizeOf(p, r, k))
    && Drain(p, a, s.systems[a]) == Drop(InBlock(p, a, r, k, Sender), 3).(client := AwaitData(r, k, Sender))
    && Drain(p, 1 - a, s.systems[1 - a]) == Drop(Replied(p, 1 - a, r, k), 2)
  }

  lemma BackDataReturned(p: Program, s: State, r: nat, a: nat, k: nat)
    requires IsProgram(p) && r < |p| && k < |p[r].blocks| && a < 2 && ValidClients(p, s) && ReplyIsDue(p, s, r, a, k)
    requires BrokerCanStep(s, 1 - a)
    ensures var t := BrokerStep(s, 1 - a);
            && ValidClients(p, t) && BlockIsDone(p, t, r, a, k) && t.connected == s.connected
            && t.broker == AfterReply(a, IsCombine(p, r))
              && t.stats == Transfer(s.stats, IsCombine(p, r), RawSizeOf(p, r, k))
  {
    hide Drain, InBlock, Replied, IsProgram, RawSizeOf, BrokerStep, Reply;
    DrainThenTaken(p, 1 - a, s.systems[1 - a]);
    ReplyIsSent(p, 1 - a, r, k);
    DataIsForwarded(s, 1 - a, a, IsCombine(p, r), RawSizeOf(p, r, k), Reply(p, 1 - a, r, k));
    DrainMoved(p, s, BrokerStep(s, 1 - a), 1 - a, a, [Data(Reply(p, 1 - a, r, k))]);
    DataArrivesAtSender(p, a, r, k);
  }

  lemma BackDataMeansDue(p: Program, s: State, r: nat, a: nat, k: nat)
    requires IsAt(p, s, AtBackData(r, a, k))
    ensures ReplyIsDue(p, s, r, a, k)
  {
    assert a == 0 || a == 1;
  }

  lemma DoneMeansNext(p: Program, t: State, r: nat, a: nat, k: nat)
    requires IsProgram(p) && r < |p| && k < |p[r].blocks| && a < 2 && ValidClients(p, t) && BlockIsDone(p, t, r, a, k)
    requires t.broker == AfterReply(a, IsCombine(p, r)) && t.connected == {0, 1} && t.stats == StatsIn(p, r, k + 1)
    ensures IsAt(p, t, if IsCombine(p, r) then AtInitiator(r, a, k + 1) else AtInitiatorReady(r, a))
  {
    assert a == 0 || a == 1;
  }

  lemma FromBackData(p: Program, s: State, r: nat, a: nat, k: nat, j: nat)
    requires IsAt(p, s, AtBackData(r, a, k)) && BrokerCanStep(s, j)
    ensures IsAt(p, BrokerStep(s, j), if IsCombine(p, r) then AtInitiator(r, a, k + 1) else AtInitiatorReady(r, a))
  {
    BackDataMeansDue(p, s, r, a, k);
    BackDataReturned(p, s, r, a, k);
    StatsAfterBlock(p, r, a, k);
    DoneMeansNext(p, BrokerStep(s, 1 - a), r, a, k);
  }

  lemma FromInitiatorReady(p: Program, s: State, r: nat, a: nat, j: nat)
    requires IsAt(p, s, AtInitiatorReady(r, a)) && BrokerCanStep(s, j)
    ensures IsAt(p, BrokerStep(s, j), AtOtherReady(r, a))
  {
    hide IsAt, Drain, StatsIn;
    var t := BrokerStep(s, j);
    AtMeans(p, s, AtInitiatorReady(r, a), j);
    HeadAt(p, s, AtInitiatorReady(r, a), j);
    MessageIsTaken(s, j);
    DrainMoved(p, s, t, j, j, []);
    BecomesAt(p, t, AtOtherReady(r, a), j);
  }

  lemma FromOtherReady(p: Program, s: State, r: nat, a: nat, j: nat)
    requires IsAt(p, s, AtOtherReady(r, a)) && BrokerCanStep(s, j)
    ensures IsAt(p, BrokerStep(s, j), AtPoll(r + 1))
  {
    hide IsAt, Drain;
    var t := BrokerStep(s, j);
    AtMeans(p, s, AtOtherReady(r, a), j);
    HeadAt(p, s, AtOtherReady(r, a), j);
    MessageIsTaken(s, j);
    DrainMoved(p, s, t, j, j, []);
    BecomesAt(p, t, AtPoll(r + 1), j);
  }
}
