/** Two systems that combine their solutions through a broker.  All messages travel through FIFO
    channels; every participant runs from one blocking receive to the next. */
module ThirdLevel {
  /** A combination adds the two sparse grids block by block; an exchange of subspace sizes takes the
      maximum, or the minimum for the extra sparse grid. */
  datatype Kind = Combine | Unify(extra: bool)

  datatype Message =
    | ReadyToCombine
    | ReadyToUnify
    | SendFirst
    | RecvFirst
    | SendingData
    | Size(n: nat)
    | Data(values: seq<real>)
    | Ready
    | FinishedComputation

  /** The data of one worker on both systems. */
  datatype Block = Block(x: seq<real>, y: seq<real>) {
    function Of(i: nat): seq<real> {
      if i == 0 then x else y
    }
  }

  datatype Round = Round(kind: Kind, blocks: seq<Block>)

  /** What both systems want to do together, and the data they hold when they get there. */
  type Program = seq<Round>

  ghost predicate IsProgram(p: Program) {
    forall r :: 0 <= r < |p| ==>
      && (p[r].kind.Unify? ==> |p[r].blocks| == 1)
      && forall k :: 0 <= k < |p[r].blocks| ==> |p[r].blocks[k].x| == |p[r].blocks[k].y|
  }

  function ElementSize(kind: Kind): nat {
    if kind == Combine then 8 else 4
  }

  /** Bytes on the wire: the elements and one byte for the byte order. */
  function RawSize(kind: Kind, size: nat): nat {
    size * ElementSize(kind) + 1
  }

  function Reduce(kind: Kind, a: real, b: real): real {
    match kind
    case Combine => a + b
    case Unify(extra) => if extra then (if a < b then a else b) else if a < b then b else a
  }

  function Merge(kind: Kind, own: seq<real>, remote: seq<real>): seq<real>
    requires |own| == |remote|
  {
    seq(|own|, j requires 0 <= j < |own| => Reduce(kind, own[j], remote[j]))
  }

  datatype Role = Sender | Receiver

  datatype Client =
    | Computing(round: nat)
    | AwaitInstruction(round: nat)
    | AwaitSize(round: nat, k: nat, role: Role)
    | AwaitData(round: nat, k: nat, role: Role)
    | Closed
    | ClientFailed

  /** A system with its two channels and the blocks it has finished. */
  datatype System = System(client: Client, inbox: seq<Message>, outbox: seq<Message>, log: seq<seq<real>>)

  function SignalOf(kind: Kind): Message {
    if kind == Combine then ReadyToCombine else ReadyToUnify
  }

  function SendData(kind: Kind, values: seq<real>): seq<Message> {
    [SendingData, Size(RawSize(kind, |values|)), Data(values)]
  }

  /** Starts block k, or signals ready when there is none. */
  function EnterBlock(p: Program, i: nat, s: System, r: nat, k: nat, role: Role): (t: System)
    requires r < |p|
    ensures InProgram(p, t.client)
  {
    if k >= |p[r].blocks| then s.(client := Computing(r + 1), outbox := s.outbox + [Ready])
    else if role == Sender then
      s.(client := AwaitSize(r, k, Sender), outbox := s.outbox + SendData(p[r].kind, p[r].blocks[k].Of(i)))
    else s.(client := AwaitSize(r, k, Receiver))
  }

  predicate InProgram(p: Program, c: Client) {
    match c
    case AwaitInstruction(r) => r < |p|
    case AwaitSize(r, k, _) => r < |p| && k < |p[r].blocks|
    case AwaitData(r, k, _) => r < |p| && k < |p[r].blocks|
    case _ => true
  }

  /** The end of a block: a sender of a combination keeps what came back, every other role reduces what
      it received with its own data.  The receiver of a combination sends the reduced data, and that of
      a size exchange its own. */
  function FinishBlock(p: Program, i: nat, s: System, r: nat, k: nat, role: Role, received: seq<real>): (t: System)
    requires r < |p| && k < |p[r].blocks|
    ensures InProgram(p, t.client)
  {
    var kind, own := p[r].kind, p[r].blocks[k].Of(i);
    if |received| != |own| then s.(client := ClientFailed)
    else if role == Sender then
      var result := if kind == Combine then received else Merge(kind, own, received);
      EnterBlock(p, i, s.(log := s.log + [result]), r, k + 1, role)
    else
      var result := Merge(kind, own, received);
      var reply := if kind == Combine then result else own;
      EnterBlock(p, i, s.(log := s.log + [result], outbox := s.outbox + SendData(kind, reply)), r, k + 1, role)
  }

  function Receive(p: Program, i: nat, s: System, m: Message): (t: System)
    requires InProgram(p, s.client)
    ensures InProgram(p, t.client)
  {
    match s.client
    case AwaitInstruction(r) =>
      if m == SendFirst then EnterBlock(p, i, s, r, 0, Sender)
      else if m == RecvFirst then EnterBlock(p, i, s, r, 0, Receiver)
      else s.(client := Computing(r + 1), outbox := s.outbox + [Ready])
    case AwaitSize(r, k, role) =>
      if m.Size? && m.n > 0 && (m.n - 1) / ElementSize(p[r].kind) == |p[r].blocks[k].Of(i)|
      then s.(client := AwaitData(r, k, role))
      else s.(client := ClientFailed)
    case AwaitData(r, k, role) =>
      if m.Data? then FinishBlock(p, i, s, r, k, role, m.values) else s.(client := ClientFailed)
    case _ => s
  }

  predicate CanStep(s: System) {
    s.client.Computing? || (s.inbox != [] && (s.client.AwaitInstruction? || s.client.AwaitSize? || s.client.AwaitData?))
  }

  /** One step of system i. */
  function SystemStep(p: Program, i: nat, s: System): (t: System)
    requires CanStep(s) && InProgram(p, s.client)
    ensures InProgram(p, t.client)
  {
    if s.client.Computing? then
      if s.client.round < |p|
      then s.(client := AwaitInstruction(s.client.round), outbox := s.outbox + [SignalOf(p[s.client.round].kind)])
      else s.(client := Closed, outbox := s.outbox + [FinishedComputation])
    else Receive(p, i, s.(inbox := s.inbox[1..]), s.inbox[0])
  }

  /** Where the broker is; i is the initiator of the current exchange. */
  datatype Broker =
    | Poll
    | AwaitOther(i: nat, combine: bool)
    | AwaitInitiator(i: nat, combine: bool)
    | ForthSize(i: nat, combine: bool)
    | ForthData(i: nat, combine: bool, n: nat)
    | AwaitReply(i: nat, combine: bool)
    | BackSize(i: nat, combine: bool)
    | BackData(i: nat, combine: bool, n: nat)
    | AwaitInitiatorReady(i: nat)
    | AwaitOtherReady(i: nat)
    | BrokerFailed

  datatype Stats = Stats(combinations: nat, bytesInCombination: nat, bytesInSizeExchange: nat, bytesForwarded: nat)

  datatype State = State(broker: Broker, systems: seq<System>, connected: set<nat>, stats: Stats)

  function ByteLength(combine: bool, values: seq<real>): nat {
    RawSize(if combine then Combine else Unify(false), |values|)
  }

  function Recorded(stats: Stats, combine: bool, n: nat): Stats {
    if combine then stats.(bytesInCombination := stats.bytesInCombination + n)
    else stats.(bytesInSizeExchange := stats.bytesInSizeExchange + n)
  }

  /** Whether the broker waits for a message of system j. */
  predicate ListensTo(s: State, j: nat) {
    match s.broker
    case Poll => j in s.connected
    case AwaitOther(i, _) => j == 1 - i
    case AwaitInitiator(i, _) => j == i
    case ForthSize(i, _) => j == i
    case ForthData(i, _, _) => j == i
    case AwaitReply(i, _) => j == 1 - i
    case BackSize(i, _) => j == 1 - i
    case BackData(i, _, _) => j == 1 - i
    case AwaitInitiatorReady(i) => j == i
    case AwaitOtherReady(i) => j == 1 - i
    case BrokerFailed => false
  }

  predicate BrokerCanStep(s: State, j: nat) {
    |s.systems| == 2 && j < 2 && ListensTo(s, j) && s.systems[j].outbox != []
  }

  function Tell(s: State, j: nat, m: Message): State
    requires j < |s.systems|
  {
    s.(systems := s.systems[j := s.systems[j].(inbox := s.systems[j].inbox + [m])])
  }

  /** The broker forwards exactly as many bytes as were announced. */
  function Forward(s: State, combine: bool, n: nat, m: Message, to: nat, next: Broker): State
    requires to < |s.systems|
  {
    if m.Data? && ByteLength(combine, m.values) == n
    then Tell(s, to, m).(broker := next,
                         stats := Recorded(s.stats.(bytesForwarded := s.stats.bytesForwarded + n), combine, n))
    else s.(broker := BrokerFailed)
  }

  function AfterReply(i: nat, combine: bool): Broker {
    if combine then AwaitInitiator(i, combine) else AwaitInitiatorReady(i)
  }

  /** The broker has taken message m of system j from its channel. */
  function Handle(s: State, j: nat, m: Message): State
    requires |s.systems| == 2 && j < 2 && ListensTo(s, j)
  {
    match s.broker
    case Poll =>
      if m == ReadyToCombine || m == ReadyToUnify then
        if s.connected != {0, 1} then s.(broker := BrokerFailed)
        else
          var combine := m == ReadyToCombine;
          Tell(s, j, SendFirst).(broker := AwaitOther(j, combine),
                                 stats := s.stats.(combinations := s.stats.combinations + if combine then 1 else 0))
      else if m == FinishedComputation then s.(connected := s.connected - {j})
      else s
    case AwaitOther(i, combine) =>
      if m == (if combine then ReadyToCombine else ReadyToUnify)
      then Tell(s, j, RecvFirst).(broker := AwaitInitiator(i, combine))
      else s.(broker := BrokerFailed)
    case AwaitInitiator(i, combine) =>
      if m == SendingData then s.(broker := ForthSize(i, combine))
      else if !combine then s.(broker := AwaitReply(i, combine))
      else if m == Ready then s.(broker := AwaitOtherReady(i))
      else s.(broker := BrokerFailed)
    case ForthSize(i, combine) =>
      if !m.Size? then s.(broker := BrokerFailed)
      else Tell(s, 1 - j, m).(broker := if m.n == 0 then AwaitReply(i, combine) else ForthData(i, combine, m.n))
    case ForthData(i, combine, n) => Forward(s, combine, n, m, 1 - j, AwaitReply(i, combine))
    case AwaitReply(i, combine) =>
      if m == SendingData then s.(broker := BackSize(i, combine))
      else if !combine then s.(broker := AwaitInitiatorReady(i))
      else s.(broker := BrokerFailed)
    case BackSize(i, combine) =>
      if !m.Size? then s.(broker := BrokerFailed)
      else Tell(s, 1 - j, m).(broker := if m.n == 0 then AfterReply(i, combine) else BackData(i, combine, m.n))
    case BackData(i, combine, n) => Forward(s, combine, n, m, 1 - j, AfterReply(i, combine))
    case AwaitInitiatorReady(i) => s.(broker := if m == Ready then AwaitOtherReady(i) else BrokerFailed)
    case AwaitOtherReady(i) => s.(broker := if m == Ready then Poll else BrokerFailed)
  }

  function BrokerStep(s: State, j: nat): State
    requires BrokerCanStep(s, j)
  {
    Handle(s.(systems := s.systems[j := s.systems[j].(outbox := s.systems[j].outbox[1..])]), j, s.systems[j].outbox[0])
  }

  /** Both systems are about to compute towards their first round. */
  function Initial(): State {
    var s := System(Computing(0), [], [], []);
    State(Poll, [s, s], {0, 1}, Stats(0, 0, 0, 0))
  }

  predicate ValidClients(p: Program, s: State) {
    |s.systems| == 2 && InProgram(p, s.systems[0].client) && InProgram(p, s.systems[1].client)
  }

  /** Any participant may take the next step. */
  ghost predicate Next(p: Program, s: State, t: State) {
    || (exists i: nat :: i < 2 && ValidClients(p, s) && CanStep(s.systems[i])
                         && t == s.(systems := s.systems[i := SystemStep(p, i, s.systems[i])]))
    || (exists j: nat :: BrokerCanStep(s, j) && t == BrokerStep(s, j))
  }
}
