/** Every run of the broker and two systems passes through a fixed sequence of points. */
module ThirdLevelRuns {
  import opened ThirdLevel
  import opened ThirdLevelDrain

  /** How far an exchange has got; a is its initiator. */
  datatype Point =
    | AtPoll(r: nat)
    | AtOther(r: nat, a: nat)
    | AtInitiator(r: nat, a: nat, k: nat)
    | AtForthSize(r: nat, a: nat, k: nat)
    | AtForthData(r: nat, a: nat, k: nat)
    | AtReply(r: nat, a: nat, k: nat)
    | AtBackSize(r: nat, a: nat, k: nat)
    | AtBackData(r: nat, a: nat, k: nat)
    | AtInitiatorReady(r: nat, a: nat)
    | AtOtherReady(r: nat, a: nat)
    | AtOneLeft(j: nat)
    | AtEnd

  /** What both systems should hold for a block after its round. */
  function Result(kind: Kind, b: Block): seq<real>
    requires |b.x| == |b.y|
  {
    Merge(kind, b.x, b.y)
  }

  lemma MergeCommutes(kind: Kind, a: seq<real>, b: seq<real>)
    requires |a| == |b|
    ensures Merge(kind, a, b) == Merge(kind, b, a)
  {
  }

  /** The results of all rounds before r and of the first k blocks of round r. */
  ghost function Results(p: Program, r: nat, k: nat): seq<seq<real>>
    requires IsProgram(p) && r <= |p| && (k > 0 ==> r < |p| && k <= |p[r].blocks|)
    decreases r, k
  {
    if k > 0 then Results(p, r, k - 1) + [Result(p[r].kind, p[r].blocks[k - 1])]
    else if r > 0 then Results(p, r - 1, |p[r - 1].blocks|)
    else []
  }

  function Signals(p: Program, r: nat): seq<Message> {
    if r < |p| then [SignalOf(p[r].kind)] else [FinishedComputation]
  }

  /** A system that has signalled that it is ready for round r. */
  ghost function Waiting(p: Program, r: nat): System
    requires IsProgram(p) && r <= |p|
  {
    System(if r < |p| then AwaitInstruction(r) else Closed, [], Signals(p, r), Results(p, r, 0))
  }

  /** A system that has entered block k. */
  ghost function InBlock(p: Program, i: nat, r: nat, k: nat, role: Role): System
    requires IsProgram(p) && r < |p| && k <= |p[r].blocks|
  {
    if k == |p[r].blocks| then Waiting(p, r + 1).(outbox := [Ready] + Signals(p, r + 1))
    else System(AwaitSize(r, k, role), [], if role == Sender then SendData(p[r].kind, p[r].blocks[k].Of(i))
                else [], Results(p, r, k))
  }

  function Reply(p: Program, i: nat, r: nat, k: nat): seq<real>
    requires IsProgram(p) && r < |p| && k < |p[r].blocks|
  {
    if p[r].kind == Combine then Result(p[r].kind, p[r].blocks[k]) else p[r].blocks[k].Of(i)
  }

  /** A receiver that has reduced block k and sent its reply. */
  ghost function Replied(p: Program, i: nat, r: nat, k: nat): System
    requires IsProgram(p) && r < |p| && k < |p[r].blocks|
  {
    var next := InBlock(p, i, r, k + 1, Receiver);
    next.(outbox := SendData(p[r].kind, Reply(p, i, r, k)) + next.outbox)
  }

  function Drop(s: System, n: nat): System {
    if n <= |s.outbox| then s.(outbox := s.outbox[n..]) else s
  }

  ghost predicate IsPoint(p: Program, pt: Point) {
    match pt
    case AtPoll(r) => r <= |p|
    case AtOther(r, a) => r < |p| && a < 2
    case AtInitiator(r, a, k) => r < |p| && a < 2 && k <= |p[r].blocks| && (p[r].kind != Combine ==> k < |p[r].blocks|)
    case AtForthSize(r, a, k) => r < |p| && a < 2 && k < |p[r].blocks|
    case AtForthData(r, a, k) => r < |p| && a < 2 && k < |p[r].blocks|
    case AtReply(r, a, k) => r < |p| && a < 2 && k < |p[r].blocks|
    case AtBackSize(r, a, k) => r < |p| && a < 2 && k < |p[r].blocks|
    case AtBackData(r, a, k) => r < |p| && a < 2 && k < |p[r].blocks|
    case AtInitiatorReady(r, a) => r < |p| && a < 2 && p[r].kind != Combine
    case AtOtherReady(r, a) => r < |p| && a < 2
    case AtOneLeft(j) => j < 2
    case AtEnd => true
  }

  /** System i at a point, when it has read all its messages. */
  ghost function SystemAt(p: Program, pt: Point, i: nat): System
    requires IsProgram(p) && IsPoint(p, pt)
  {
    match pt
    case AtPoll(r) => Waiting(p, r)
    case AtOther(r, a) => if i == a then InBlock(p, i, r, 0, Sender) else Waiting(p, r)
    case AtInitiator(r, a, k) => InBlock(p, i, r, k, if i == a then Sender else Receiver)
    case AtForthSize(r, a, k) => if i == a then Drop(InBlock(p, i, r, k, Sender), 1) else InBlock(p, i, r, k, Receiver)
    case AtForthData(r, a, k) =>
      if i == a then Drop(InBlock(p, i, r, k, Sender), 2)
        else InBlock(p, i, r, k, Receiver).(client := AwaitData(r, k, Receiver))
    case AtReply(r, a, k) => if i == a then Drop(InBlock(p, i, r, k, Sender), 3) else Replied(p, i, r, k)
    case AtBackSize(r, a, k) => if i == a then Drop(InBlock(p, i, r, k, Sender), 3) else Drop(Replied(p, i, r, k), 1)
    case AtBackData(r, a, k) =>
      if i == a then Drop(InBlock(p, i, r, k, Sender), 3).(client := AwaitData(r, k, Sender))
        else Drop(Replied(p, i, r, k), 2)
    case AtInitiatorReady(r, a) => InBlock(p, i, r, |p[r].blocks|, if i == a then Sender else Receiver)
    case AtOtherReady(r, a) => if i == a then Waiting(p, r + 1) else InBlock(p, i, r, |p[r].blocks|, Receiver)
    case AtOneLeft(j) => if i == j then Waiting(p, |p|) else Drop(Waiting(p, |p|), 1)
    case AtEnd => Drop(Waiting(p, |p|), 1)
  }

  function IsCombine(p: Program, r: nat): bool
    requires r < |p|
  {
    p[r].kind == Combine
  }

  function RawSizeOf(p: Program, r: nat, k: nat): nat
    requires r < |p| && k < |p[r].blocks|
  {
    RawSize(p[r].kind, |p[r].blocks[k].x|)
  }

  function BrokerAt(p: Program, pt: Point): Broker
    requires IsPoint(p, pt)
  {
    match pt
    case AtPoll(r) => Poll
    case AtOther(r, a) => AwaitOther(a, IsCombine(p, r))
    case AtInitiator(r, a, k) => AwaitInitiator(a, IsCombine(p, r))
    case AtForthSize(r, a, k) => ForthSize(a, IsCombine(p, r))
    case AtForthData(r, a, k) => ForthData(a, IsCombine(p, r), RawSizeOf(p, r, k))
    case AtReply(r, a, k) => AwaitReply(a, IsCombine(p, r))
    case AtBackSize(r, a, k) => BackSize(a, IsCombine(p, r))
    case AtBackData(r, a, k) => BackData(a, IsCombine(p, r), RawSizeOf(p, r, k))
    case AtInitiatorReady(r, a) => AwaitInitiatorReady(a)
    case AtOtherReady(r, a) => AwaitOtherReady(a)
    case AtOneLeft(j) => Poll
    case AtEnd => Poll
  }

  function ConnectedAt(pt: Point): set<nat> {
    match pt
    case AtOneLeft(j) => {j}
    case AtEnd => {}
    case _ => {0, 1}
  }

  function Transfer(stats: Stats, combine: bool, n: nat): Stats {
    Recorded(stats.(bytesForwarded := stats.bytesForwarded + n), combine, n)
  }

  /** Statistics when round r has been started and its first k blocks have gone both ways. */
  function StatsIn(p: Program, r: nat, k: nat): Stats
    requires r < |p| && k <= |p[r].blocks|
    decreases r, k + 1
  {
    if k == 0 then
      var before := StatsBefore(p, r);
      before.(combinations := before.combinations + if IsCombine(p, r) then 1 else 0)
    else
      var n := RawSizeOf(p, r, k - 1);
      Transfer(Transfer(StatsIn(p, r, k - 1), IsCombine(p, r), n), IsCombine(p, r), n)
  }

  function StatsBefore(p: Program, r: nat): Stats
    requires r <= |p|
    decreases r, 0
  {
    if r == 0 then Stats(0, 0, 0, 0) else StatsIn(p, r - 1, |p[r - 1].blocks|)
  }

  function StatsAt(p: Program, pt: Point): Stats
    requires IsPoint(p, pt)
  {
    match pt
    case AtPoll(r) => StatsBefore(p, r)
    case AtOther(r, a) => StatsIn(p, r, 0)
    case AtInitiator(r, a, k) => StatsIn(p, r, k)
    case AtForthSize(r, a, k) => StatsIn(p, r, k)
    case AtForthData(r, a, k) => StatsIn(p, r, k)
    case AtReply(r, a, k) => Transfer(StatsIn(p, r, k), IsCombine(p, r), RawSizeOf(p, r, k))
    case AtBackSize(r, a, k) => Transfer(StatsIn(p, r, k), IsCombine(p, r), RawSizeOf(p, r, k))
    case AtBackData(r, a, k) => Transfer(StatsIn(p, r, k), IsCombine(p, r), RawSizeOf(p, r, k))
    case AtInitiatorReady(r, a) => StatsIn(p, r, |p[r].blocks|)
    case AtOtherReady(r, a) => StatsIn(p, r, |p[r].blocks|)
    case AtOneLeft(j) => StatsBefore(p, |p|)
    case AtEnd => StatsBefore(p, |p|)
  }

  /** The point after the broker has taken a message of system j. */
  function After(p: Program, pt: Point, j: nat): Point
    requires IsPoint(p, pt)
  {
    match pt
    case AtPoll(r) => if r < |p| then AtOther(r, if j == 0 then 0 else 1) else AtOneLeft(if j == 0 then 1 else 0)
    case AtOther(r, a) => AtInitiator(r, a, 0)
    case AtInitiator(r, a, k) => if k < |p[r].blocks| then AtForthSize(r, a, k) else AtOtherReady(r, a)
    case AtForthSize(r, a, k) => AtForthData(r, a, k)
    case AtForthData(r, a, k) => AtReply(r, a, k)
    case AtReply(r, a, k) => AtBackSize(r, a, k)
    case AtBackSize(r, a, k) => AtBackData(r, a, k)
    case AtBackData(r, a, k) => if IsCombine(p, r) then AtInitiator(r, a, k + 1) else AtInitiatorReady(r, a)
    case AtInitiatorReady(r, a) => AtOtherReady(r, a)
    case AtOtherReady(r, a) => AtPoll(r + 1)
    case AtOneLeft(j') => AtEnd
    case AtEnd => AtEnd
  }

  /** The state is at a point if draining both systems gives the systems of that point. */
  ghost predicate IsAt(p: Program, s: State, pt: Point) {
    && IsProgram(p) && IsPoint(p, pt) && ValidClients(p, s)
    && s.broker == BrokerAt(p, pt) && s.connected == ConnectedAt(pt) && s.stats == StatsAt(p, pt)
    && Drain(p, 0, s.systems[0]) == SystemAt(p, pt, 0) && Drain(p, 1, s.systems[1]) == SystemAt(p, pt, 1)
  }

  /** A system's own steps do not move the point. */
  lemma SystemStepStays(p: Program, s: State, pt: Point, i: nat)
    requires IsAt(p, s, pt) && i < 2 && CanStep(s.systems[i])
    ensures IsAt(p, s.(systems := s.systems[i := SystemStep(p, i, s.systems[i])]), pt)
  {
  }

  /** What arrives at a drained system. */
  lemma Entered(p: Program, i: nat, s: System, r: nat, k: nat, role: Role)
    requires IsProgram(p) && r < |p| && k <= |p[r].blocks| && s.inbox == [] && s.log == Results(p, r, k)
    ensures Drain(p, i, EnterBlock(p, i, s, r, k, role))
            == InBlock(p, i, r, k, role).(outbox := s.outbox + InBlock(p, i, r, k, role).outbox)
  {
    var t := EnterBlock(p, i, s, r, k, role);
    if k == |p[r].blocks| {
      var u := SystemStep(p, i, t);
      assert s.outbox + [Ready] + Signals(p, r + 1) == s.outbox + ([Ready] + Signals(p, r + 1));
      assert Drain(p, i, t) == Drain(p, i, u) == u;
    } else {
      assert role == Receiver ==> s.outbox + [] == s.outbox;
    }
  }

  lemma Instructed(p: Program, i: nat, r: nat, role: Role)
    requires IsProgram(p) && r < |p|
    ensures Drain(p, i, Told(Taken(Waiting(p, r)), if role == Sender then SendFirst else RecvFirst))
            == InBlock(p, i, r, 0, role)
  {
    var m := if role == Sender then SendFirst else RecvFirst;
    var c := Taken(Waiting(p, r));
    assert (c.inbox + [m])[1..] == [];
    assert SystemStep(p, i, Told(c, m)) == EnterBlock(p, i, c, r, 0, role);
    Entered(p, i, c, r, 0, role);
    assert [] + InBlock(p, i, r, 0, role).outbox == InBlock(p, i, r, 0, role).outbox;
  }

  lemma SizeArrives(p: Program, i: nat, c: System, r: nat, k: nat, role: Role)
    requires IsProgram(p) && r < |p| && k < |p[r].blocks| && c.client == AwaitSize(r, k, role) && c.inbox == []
    ensures Drain(p, i, Told(c, Size(RawSizeOf(p, r, k)))) == c.(client := AwaitData(r, k, role))
  {
    var m := Size(RawSizeOf(p, r, k));
    assert (c.inbox + [m])[1..] == [];
    assert SystemStep(p, i, Told(c, m)) == c.(client := AwaitData(r, k, role));
  }

  lemma DataArrivesAtReceiver(p: Program, i: nat, r: nat, k: nat)
    requires IsProgram(p) && r < |p| && k < |p[r].blocks| && i < 2
    ensures Drain(p, i, Told(InBlock(p, i, r, k, Receiver).(client := AwaitData(r, k, Receiver)),
                             Data(p[r].blocks[k].Of(1 - i))))
            == Replied(p, i, r, k)
  {
    var c := InBlock(p, i, r, k, Receiver).(client := AwaitData(r, k, Receiver));
    var b, kind := p[r].blocks[k], p[r].kind;
    var m := Data(b.Of(1 - i));
    assert (c.inbox + [m])[1..] == [];
    MergeCommutes(kind, b.x, b.y);
    var result := Merge(kind, b.Of(i), b.Of(1 - i));
    var t := c.(log := c.log + [result], outbox := c.outbox + SendData(kind, Reply(p, i, r, k)));
    assert SystemStep(p, i, Told(c, m)) == EnterBlock(p, i, t, r, k + 1, Receiver);
    Entered(p, i, t, r, k + 1, Receiver);
    assert c.outbox == [] && [] + SendData(kind, Reply(p, i, r, k)) == SendData(kind, Reply(p, i, r, k));
  }

  lemma DataArrivesAtSender(p: Program, i: nat, r: nat, k: nat)
    requires IsProgram(p) && r < |p| && k < |p[r].blocks| && i < 2
    ensures Drain(p, i, Told(Drop(InBlock(p, i, r, k, Sender), 3).(client := AwaitData(r, k, Sender)),
                             Data(Reply(p, 1 - i, r, k))))
            == InBlock(p, i, r, k + 1, Sender)
  {
    var c := Drop(InBlock(p, i, r, k, Sender), 3).(client := AwaitData(r, k, Sender));
    var b, kind := p[r].blocks[k], p[r].kind;
    var m := Data(Reply(p, 1 - i, r, k));
    assert (c.inbox + [m])[1..] == [];
    MergeCommutes(kind, b.x, b.y);
    var t := c.(log := c.log + [Result(kind, b)]);
    assert SystemStep(p, i, Told(c, m)) == EnterBlock(p, i, t, r, k + 1, Sender);
    Entered(p, i, t, r, k + 1, Sender);
    assert c.outbox == [] && [] + InBlock(p, i, r, k + 1, Sender).outbox == InBlock(p, i, r, k + 1, Sender).outbox;
  }
}
