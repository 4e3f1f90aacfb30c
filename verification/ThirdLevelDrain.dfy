/** A system is a deterministic process: what it has done when it has read its whole inbox does not
    depend on when the broker reads from it or writes to it. */
module ThirdLevelDrain {
  import opened ThirdLevel

  /** Every step uses up one message or the one step without a message. */
  function Fuel(s: System): nat {
    2 * |s.inbox| + if s.client.Computing? then 1 else 0
  }

  lemma StepUsesFuel(p: Program, i: nat, s: System)
    requires CanStep(s) && InProgram(p, s.client)
    ensures Fuel(SystemStep(p, i, s)) < Fuel(s)
  {
  }

  /** Runs a system until it waits for a message that is not there. */
  ghost function Drain(p: Program, i: nat, s: System): (t: System)
    requires InProgram(p, s.client)
    ensures InProgram(p, t.client) && !CanStep(t)
    decreases Fuel(s)
  {
    if CanStep(s) then
      StepUsesFuel(p, i, s);
      Drain(p, i, SystemStep(p, i, s))
    else s
  }

  function Told(s: System, m: Message): System {
    s.(inbox := s.inbox + [m])
  }

  function Taken(s: System): System {
    if s.outbox == [] then s else s.(outbox := s.outbox[1..])
  }

  /** A message that arrives does not change the next step. */
  lemma StepThenTold(p: Program, i: nat, s: System, m: Message)
    requires CanStep(s) && InProgram(p, s.client)
    ensures CanStep(Told(s, m)) && SystemStep(p, i, Told(s, m)) == Told(SystemStep(p, i, s), m)
  {
    if s.inbox != [] {
      assert (s.inbox + [m])[1..] == s.inbox[1..] + [m];
    }
  }

  lemma {:induction false} DrainThenTold(p: Program, i: nat, s: System, m: Message)
    requires InProgram(p, s.client)
    ensures Drain(p, i, Told(s, m)) == Drain(p, i, Told(Drain(p, i, s), m))
    decreases Fuel(s)
  {
    if CanStep(s) {
      StepUsesFuel(p, i, s);
      StepThenTold(p, i, s, m);
      DrainThenTold(p, i, SystemStep(p, i, s), m);
    }
  }

  /** The broker may take the first message before or after the next step. */
  lemma StepThenTaken(p: Program, i: nat, s: System)
    requires CanStep(s) && InProgram(p, s.client) && s.outbox != []
    ensures CanStep(Taken(s)) && SystemStep(p, i, Taken(s)) == Taken(SystemStep(p, i, s))
    ensures SystemStep(p, i, s).outbox != [] && SystemStep(p, i, s).outbox[0] == s.outbox[0]
  {
    forall more: seq<Message>
      ensures (s.outbox + more)[1..] == s.outbox[1..] + more
    {
    }
  }

  lemma {:induction false} DrainThenTaken(p: Program, i: nat, s: System)
    requires InProgram(p, s.client) && s.outbox != []
    ensures Drain(p, i, Taken(s)) == Taken(Drain(p, i, s))
    ensures Drain(p, i, s).outbox != [] && Drain(p, i, s).outbox[0] == s.outbox[0]
    decreases Fuel(s)
  {
    if CanStep(s) {
      StepUsesFuel(p, i, s);
      StepThenTaken(p, i, s);
      DrainThenTaken(p, i, SystemStep(p, i, s));
    }
  }
}
