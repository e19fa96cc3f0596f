// The configuration client and its administrator agent, two processes that exchange typed
// messages over one byte stream in each direction per connection
// (launcher-config/internal/admin/admin.go, launcher-config-admin-agent/internal/ipc/ipc.go).
module AgentProtocol {
  import opened Wrappers

  // Exit codes of the agent (common/errors.go, launcher-config-admin-agent/internal/errors.go).
  const SUCCESS := 0
  const FILE_LOG := 5
  const DECODE := 10
  const CONNECTION_CLOSING := 12
  const CERT_ALREADY_ADDED := 13
  const IPS_ALREADY_MAPPED := 14
  const CERT_INVALID := 15

  datatype CertField = NoCert | ParsesTo | Unparseable

  datatype Kind = SetupKind | RevertKind

  datatype Command =
    | SetupCommand(ips: bool, certificate: CertField)
    | RevertCommand(revertIps: bool, revertCert: bool)
  {
    function Kind(): Kind {
      if SetupCommand? then SetupKind else RevertKind
    }
  }

  datatype Message = Start(kind: Kind) | Exit | Body(command: Command)

  // ---------- the agent's handling of one command ----------

  /** Whether the host mappings and the certificate are in place. */
  datatype Changes = Changes(ips: bool, cert: bool)

  /** How a config-admin run ends; a failed one changes nothing. The log of any run may fail to be written. */
  datatype RunOutcome = RunOutcome(success: bool, failureCode: int, logFails: bool) {
    function ExitCode(): int {
      if success then SUCCESS else failureCode
    }
  }

  /**
   * flags is what the agent remembers (mappedIps, addedCert) and actual what the runs did.
   * History: doubled says a set-up ran over an earlier one or a revert ran with nothing to
   * revert; lost says a run that changed something had its log fail.
   */
  datatype Agent = Agent(flags: Changes, actual: Changes, doubled: bool, lost: bool)

  datatype Handled = Handled(agent: Agent, code: int)

  function RunSetup(a: Agent, ips: bool, cert: bool, o: RunOutcome): Handled {
    var actual := if o.success then Changes(a.actual.ips || ips, a.actual.cert || cert) else a.actual;
    var doubled := a.doubled || (ips && a.actual.ips) || (cert && a.actual.cert);
    if o.logFails then
      Handled(a.(actual := actual, doubled := doubled, lost := a.lost || actual != a.actual), FILE_LOG)
    else
      var flags := if o.success then Changes(a.flags.ips || ips, a.flags.cert || cert) else a.flags;
      Handled(Agent(flags, actual, doubled, a.lost), o.ExitCode())
  }

  function RunRevert(a: Agent, ips: bool, cert: bool, o: RunOutcome): Handled {
    var actual := if o.success then Changes(a.actual.ips && !ips, a.actual.cert && !cert) else a.actual;
    var doubled := a.doubled || (ips && !a.actual.ips) || (cert && !a.actual.cert);
    if o.logFails then
      Handled(a.(actual := actual, doubled := doubled, lost := a.lost || actual != a.actual), FILE_LOG)
    else
      var flags := if o.success then Changes(a.flags.ips && !ips, a.flags.cert && !cert) else a.flags;
      Handled(Agent(flags, actual, doubled, a.lost), o.ExitCode())
  }

  /** handleSetUp and handleRevert. */
  function Handle(a: Agent, c: Command, o: RunOutcome): Handled {
    match c
    case SetupCommand(ips, certificate) =>
      if ips && a.flags.ips then Handled(a, IPS_ALREADY_MAPPED)
      else if certificate != NoCert && a.flags.cert then Handled(a, CERT_ALREADY_ADDED)
      else if certificate.Unparseable? then Handled(a, CERT_INVALID)
      else RunSetup(a, ips, certificate.ParsesTo?, o)
    case RevertCommand(ips, cert) =>
      if !(ips && a.flags.ips) && !(cert && a.flags.cert) then Handled(a, SUCCESS)
      else RunRevert(a, ips && a.flags.ips, cert && a.flags.cert, o)
  }

  /** What the agent remembers is what is in place, and no run was done twice over. */
  predicate Honest(a: Agent) {
    a.flags == a.actual && !a.doubled
  }

  /** The command is not refused, and there is something for it to do, so config-admin runs. */
  predicate Runs(flags: Changes, c: Command) {
    match c
    case SetupCommand(ips, certificate) =>
      !(ips && flags.ips) && !(certificate != NoCert && flags.cert) && !certificate.Unparseable?
    case RevertCommand(ips, cert) => (ips && flags.ips) || (cert && flags.cert)
  }

  /** It names an address to map, a certificate to add, or a change to revert. */
  predicate AsksForSomething(c: Command) {
    match c
    case SetupCommand(ips, certificate) => ips || certificate != NoCert
    case RevertCommand(ips, cert) => ips || cert
  }

  /**
   * From an honest agent, a command leaves it honest exactly when it is not the case that
   * it asks for something, runs, succeeds, and has its log fail; and nothing is done twice.
   */
  lemma HandleHonest(a: Agent, c: Command, o: RunOutcome)
    requires Honest(a)
    ensures Honest(Handle(a, c, o).agent) <==> !(AsksForSomething(c) && Runs(a.flags, c) && o.success && o.logFails)
    ensures Handle(a, c, o).agent.lost <==> a.lost || !Honest(Handle(a, c, o).agent)
    ensures !Handle(a, c, o).agent.doubled
  {
  }

  /** With its log lost, a set-up reported as failed is in place, and the next one runs over it. */
  lemma LostLogRunsTwice(a: Agent)
    requires Honest(a) && !a.lost && !a.actual.ips
    ensures var lostLog := Handle(a, SetupCommand(true, NoCert), RunOutcome(true, 0, true));
      var again := Handle(lostLog.agent, SetupCommand(true, NoCert), RunOutcome(true, 0, false));
      lostLog.code == FILE_LOG && lostLog.agent.actual.ips && again.agent.doubled
  {
  }

  // ---------- the code the agent answers ----------

  /** What a command asks for is so: the changes are in place, or gone after a revert. */
  predicate Made(c: Command, actual: Changes) {
    match c
    case SetupCommand(ips, certificate) => (ips ==> actual.ips) && (certificate != NoCert ==> actual.cert)
    case RevertCommand(ips, cert) => (ips ==> !actual.ips) && (cert ==> !actual.cert)
  }

  /**
   * The code for a command: each refusal of a set-up has its own, a revert of what is not set
   * succeeds without a run, and a run answers that its log is lost, or its own exit code.
   */
  lemma CodeExactly(a: Agent, c: Command, o: RunOutcome)
    ensures var code := Handle(a, c, o).code;
      match c
      case SetupCommand(ips, certificate) =>
        if ips && a.flags.ips then code == 14
        else if certificate != NoCert && a.flags.cert then code == 13
        else if certificate.Unparseable? then code == 15
        else Runs(a.flags, c) && code == (if o.logFails then 5 else if o.success then 0 else o.failureCode)
      case RevertCommand(ips, cert) =>
        if (ips ==> !a.flags.ips) && (cert ==> !a.flags.cert) then code == 0
        else Runs(a.flags, c) && code == (if o.logFails then 5 else if o.success then 0 else o.failureCode)
  {
  }

  /** Of a run whose log is kept, the answer is 0 exactly when it succeeded, unless its failure has that code. */
  lemma RunAnswersZero(a: Agent, c: Command, o: RunOutcome)
    requires Runs(a.flags, c) && !o.logFails
    ensures Handle(a, c, o).code == 0 <==> o.success || o.failureCode == 0
    ensures !o.success ==> Handle(a, c, o).code == o.failureCode
  {
  }

  /**
   * An honest agent's answer 0 means that what was asked for is so, exactly when it is not a
   * failed run's own code 0 for a command that asks for something. For a set-up it is the same
   * with any agent.
   */
  lemma AnswerZeroIsMade(a: Agent, c: Command, o: RunOutcome)
    requires Honest(a) && Handle(a, c, o).code == 0
    ensures Made(c, Handle(a, c, o).agent.actual) <==> !(AsksForSomething(c) && Runs(a.flags, c) && !o.success)
  {
  }

  lemma SetUpZeroIsMade(a: Agent, c: Command, o: RunOutcome)
    requires c.SetupCommand? && Handle(a, c, o).code == 0 && (o.success || o.failureCode != 0)
    ensures Made(c, Handle(a, c, o).agent.actual)
  {
  }

  /** A run that fails with code 0 is answered 0 though nothing is mapped. */
  lemma FailedRunAnsweredZero(a: Agent)
    requires Honest(a) && !a.actual.ips
    ensures var h := Handle(a, SetupCommand(true, NoCert), RunOutcome(false, 0, false));
      h.code == 0 && !h.agent.actual.ips
  {
  }

  /** After a lost log, a revert is answered 0 without a run, and the change stays. */
  lemma LostLogNotReverted(a: Agent, o: RunOutcome)
    requires Honest(a) && !a.actual.ips
    ensures var lostLog := Handle(a, SetupCommand(true, NoCert), RunOutcome(true, 0, true)).agent;
      var h := Handle(lostLog, RevertCommand(true, false), o);
      h.code == 0 && h.agent.actual.ips
  {
  }

  /** The agent process's two global flags; the outcome of a run is what the program would report. */
  class ConfigAdminAgent {
    var mappedIps: bool
    var addedCert: bool
    ghost var agent: Agent

    ghost predicate Valid()
      reads this
    {
      agent.flags == Changes(mappedIps, addedCert)
    }

    constructor ()
      ensures Valid() && Honest(agent) && !agent.lost && !mappedIps && !addedCert
    {
      mappedIps, addedCert := false, false;
      agent := Agent(Changes(false, false), Changes(false, false), false, false);
    }

    method HandleSetUp(ips: bool, certificate: CertField, o: RunOutcome) returns (code: int)
      requires Valid()
      modifies this
      ensures Valid() && Handled(agent, code) == Handle(old(agent), SetupCommand(ips, certificate), o)
    {
      agent := Handle(agent, SetupCommand(ips, certificate), o).agent;
      if ips && mappedIps {
        return IPS_ALREADY_MAPPED;
      }
      if certificate != NoCert {
        if addedCert {
          return CERT_ALREADY_ADDED;
        }
        if certificate == Unparseable {
          return CERT_INVALID;
        }
      }
      if o.logFails {
        return FILE_LOG;
      }
      if o.success {
        mappedIps := mappedIps || ips;
        addedCert := addedCert || certificate == ParsesTo;
      }
      code := o.ExitCode();
    }

    method HandleRevert(ips: bool, cert: bool, o: RunOutcome) returns (code: int)
      requires Valid()
      modifies this
      ensures Valid() && Handled(agent, code) == Handle(old(agent), RevertCommand(ips, cert), o)
    {
      agent := Handle(agent, RevertCommand(ips, cert), o).agent;
      var revertIps, revertCert := ips && mappedIps, cert && addedCert;
      if !revertIps && !revertCert {
        return SUCCESS;
      }
      if o.logFails {
        return FILE_LOG;
      }
      if o.success {
        mappedIps := mappedIps && !revertIps;
        addedCert := addedCert && !revertCert;
      }
      code := o.ExitCode();
    }
  }

  // ---------- the two processes ----------

  /**
   * A connection: the messages not read yet in each direction, the commands the agent
   * carried out with the codes it gave, and the ones the client got a code for.
   */
  datatype Connection = Connection(
    up: seq<Message>,
    down: seq<int>,
    executed: seq<(Command, int)>,
    answered: seq<(Command, int)>)

  datatype ClientStage = Gone | Idle | AwaitAck(command: Command) | AwaitResult(command: Command)

  datatype AgentStage = Accepting | AwaitAction | AwaitCommand(kind: Kind) | Exited

  /** accepted counts the connections the agent has taken; the client uses the last one dialled. */
  datatype State = State(
    conns: seq<Connection>,
    client: ClientStage,
    accepted: nat,
    stage: AgentStage,
    agent: Agent)

  datatype Event =
    | Dial
    | Issue(command: Command)
    | Receive
    | SendExit
    | Disconnect
    | Accept
    | AgentRead(outcome: RunOutcome, closes: bool)

  function Initial(): State {
    State([], Gone, 0, Accepting, Agent(Changes(false, false), Changes(false, false), false, false))
  }

  function UpdateLast(s: State, c: Connection, client: ClientStage): State
    requires s.conns != []
  {
    s.(conns := s.conns[|s.conns| - 1 := c], client := client)
  }

  /** The agent writes a code; it is lost when the client has closed its end. */
  function Reply(s: State, c: Connection, code: int): Connection {
    if s.accepted == |s.conns| && s.client != Gone then c.(down := c.down + [code]) else c
  }

  /** handleClient reading from the connection it serves. */
  function ReadUp(s: State, outcome: RunOutcome, closes: bool): Option<State>
    requires 0 < s.accepted <= |s.conns|
    requires s.stage.AwaitAction? || s.stage.AwaitCommand?
  {
    var i := s.accepted - 1;
    var c := s.conns[i];
    var open := i == |s.conns| - 1 && s.client != Gone;
    if c.up == [] then
      if open then None
      else if s.stage.AwaitAction? then Some(s.(stage := Accepting))
      else Some(s.(stage := AwaitAction))
    else
      var rest := c.(up := c.up[1..]);
      if s.stage.AwaitAction? then
        match c.up[0]
        case Start(kind) => Some(s.(conns := s.conns[i := Reply(s, rest, SUCCESS)], stage := AwaitCommand(kind)))
        case Exit =>
          if closes then Some(s.(conns := s.conns[i := rest], stage := Exited))
          else Some(s.(conns := s.conns[i := Reply(s, rest, CONNECTION_CLOSING)]))
        case Body(_) => Some(s.(conns := s.conns[i := Reply(s, rest, DECODE)], stage := Accepting))
      else
        match c.up[0]
        case Body(command) =>
          if command.Kind() != s.stage.kind then
            Some(s.(conns := s.conns[i := Reply(s, rest, DECODE)], stage := AwaitAction))
          else
            var h := Handle(s.agent, command, outcome);
            var done := rest.(executed := rest.executed + [(command, h.code)]);
            Some(s.(conns := s.conns[i := Reply(s, done, h.code)], stage := AwaitAction, agent := h.agent))
        case _ => Some(s.(conns := s.conns[i := Reply(s, rest, DECODE)], stage := AwaitAction))
  }

  function Next(s: State, e: Event): Option<State> {
    match e
    case Dial =>
      if s.client != Gone || s.stage == Exited then None
      else Some(s.(conns := s.conns + [Connection([], [], [], [])], client := Idle))
    case Issue(command) =>
      if s.client != Idle || s.conns == [] then None
      else
        var c := s.conns[|s.conns| - 1];
        Some(UpdateLast(s, c.(up := c.up + [Start(command.Kind())]), AwaitAck(command)))
    case Receive =>
      if s.conns == [] || !(s.client.AwaitAck? || s.client.AwaitResult?) then None
      else
        var c := s.conns[|s.conns| - 1];
        if c.down == [] then None
        else
          var code, rest := c.down[0], c.(down := c.down[1..]);
          if s.client.AwaitResult? then
            Some(UpdateLast(s, rest.(answered := rest.answered + [(s.client.command, code)]), Idle))
          else if code != SUCCESS then
            Some(UpdateLast(s, rest.(answered := rest.answered + [(s.client.command, code)]), Idle))
          else
            Some(UpdateLast(s, rest.(up := rest.up + [Body(s.client.command)]), AwaitResult(s.client.command)))
    case SendExit =>
      if s.client != Idle || s.conns == [] then None
      else
        var c := s.conns[|s.conns| - 1];
        Some(UpdateLast(s, c.(up := c.up + [Exit]), Gone))
    case Disconnect =>
      if s.client == Gone then None else Some(s.(client := Gone))
    case Accept =>
      if s.stage != Accepting || s.accepted >= |s.conns| then None
      else Some(s.(accepted := s.accepted + 1, stage := AwaitAction))
    case AgentRead(outcome, closes) =>
      if (s.stage.AwaitAction? || s.stage.AwaitCommand?) && 0 < s.accepted <= |s.conns|
      then ReadUp(s, outcome, closes) else None
  }

  // ---------- the invariant ----------

  function ClientAt(s: State, i: nat): ClientStage {
    if i == |s.conns| - 1 then s.client else Gone
  }

  datatype AgentView = NotYet | Serving(stage: AgentStage) | Left

  function AgentAt(s: State, i: nat): AgentView {
    if i >= s.accepted then NotYet
    else if i == s.accepted - 1 && (s.stage.AwaitAction? || s.stage.AwaitCommand?) then Serving(s.stage)
    else Left
  }

  predicate IsActions(up: seq<Message>) {
    up == [] || (|up| == 1 && !up[0].Body?)
  }

  predicate IsBodyOf(up: seq<Message>, kind: Kind) {
    up == [] || (|up| == 1 && up[0].Body? && up[0].command.Kind() == kind)
  }

  /** Client and agent in lock step on one connection. */
  predicate LockStep(c: Connection, client: ClientStage, agent: AgentView) {
    match agent
    case NotYet =>
      && c.down == [] && c.executed == [] && c.answered == []
      && (match client
          case Gone => IsActions(c.up)
          case Idle => c.up == []
          case AwaitAck(command) => c.up == [Start(command.Kind())]
          case AwaitResult(_) => false)
    case Left => client == Gone && c.answered <= c.executed
    case Serving(stage) =>
      match client
      case Gone =>
        && c.answered <= c.executed
        && (if stage.AwaitCommand? then IsBodyOf(c.up, stage.kind) else IsActions(c.up))
      case Idle =>
        stage == AwaitAction && c.up == [] && c.down == [] && c.answered == c.executed
      case AwaitAck(command) =>
        && c.answered == c.executed
        && (if stage == AwaitAction then c.up == [Start(command.Kind())] && c.down == []
            else stage == AwaitCommand(command.Kind()) && c.up == [] && c.down == [SUCCESS])
      case AwaitResult(command) =>
        if stage == AwaitAction
        then c.up == [] && |c.down| == 1 && c.executed == c.answered + [(command, c.down[0])]
        else stage == AwaitCommand(command.Kind()) && c.up == [Body(command)] && c.down == [] && c.answered == c.executed
  }

  ghost predicate Inv(s: State) {
    && s.accepted <= |s.conns|
    && (s.client != Gone ==> s.conns != [])
    && ((s.stage.AwaitAction? || s.stage.AwaitCommand?) ==> s.accepted > 0)
    && (forall i :: 0 <= i < |s.conns| ==> LockStep(s.conns[i], ClientAt(s, i), AgentAt(s, i)))
    && (Honest(s.agent) <==> !s.agent.lost)
  }

  lemma StepKeepsInv(s: State, e: Event)
    requires Inv(s) && Next(s, e).Some?
    ensures Inv(Next(s, e).value)
  {
    hide *;
    match e
    case AgentRead(outcome, closes) => ReadKeepsInv(s, outcome, closes);
    case Dial => DialKeepsInv(s);
    case Disconnect => DisconnectKeepsInv(s);
    case Accept => AcceptKeepsInv(s);
    case _ => ClientKeepsInv(s, e);
  }

  lemma DialKeepsInv(s: State)
    requires Inv(s) && Next(s, Dial).Some?
    ensures Inv(Next(s, Dial).value)
  {
    hide Honest;
    var t := Next(s, Dial).value;
    forall i | 0 <= i < |t.conns| ensures LockStep(t.conns[i], ClientAt(t, i), AgentAt(t, i)) {
      if i < |s.conns| {
        assert LockStep(s.conns[i], ClientAt(s, i), AgentAt(s, i));
      }
    }
  }

  lemma DisconnectKeepsInv(s: State)
    requires Inv(s) && Next(s, Disconnect).Some?
    ensures Inv(Next(s, Disconnect).value)
  {
    hide Honest;
    var t := Next(s, Disconnect).value;
    forall i | 0 <= i < |t.conns| ensures LockStep(t.conns[i], ClientAt(t, i), AgentAt(t, i)) {
      assert LockStep(s.conns[i], ClientAt(s, i), AgentAt(s, i));
    }
  }

  lemma AcceptKeepsInv(s: State)
    requires Inv(s) && Next(s, Accept).Some?
    ensures Inv(Next(s, Accept).value)
  {
    hide Honest;
    var t := Next(s, Accept).value;
    forall i | 0 <= i < |t.conns| ensures LockStep(t.conns[i], ClientAt(t, i), AgentAt(t, i)) {
      assert LockStep(s.conns[i], ClientAt(s, i), AgentAt(s, i));
    }
  }

  /** What the client sends or receives is on its own connection, the last one. */
  lemma ClientKeepsInv(s: State, e: Event)
    requires Inv(s) && Next(s, e).Some? && (e.Issue? || e.Receive? || e.SendExit?)
    ensures Inv(Next(s, e).value)
  {
    hide Honest;
    var t := Next(s, e).value;
    var last := |s.conns| - 1;
    assert LockStep(s.conns[last], ClientAt(s, last), AgentAt(s, last));
    assert LockStep(t.conns[last], ClientAt(t, last), AgentAt(t, last));
    hide LockStep;
    forall i | 0 <= i < last ensures LockStep(t.conns[i], ClientAt(t, i), AgentAt(t, i)) {
      assert LockStep(s.conns[i], ClientAt(s, i), AgentAt(s, i));
    }
  }

  /** Once a changing run has lost its log, flags and changes only come to agree by doing something twice. */
  lemma HandleStaysLost(a: Agent, c: Command, o: RunOutcome)
    requires Honest(a) <==> !a.lost
    ensures Honest(Handle(a, c, o).agent) <==> !Handle(a, c, o).agent.lost
  {
  }

  lemma ReadKeepsHonest(s: State, outcome: RunOutcome, closes: bool)
    requires Honest(s.agent) <==> !s.agent.lost
    requires Next(s, AgentRead(outcome, closes)).Some?
    ensures var a := Next(s, AgentRead(outcome, closes)).value.agent; Honest(a) <==> !a.lost
  {
    hide Honest, Handle, Reply;
    if s.stage.AwaitCommand? {
      var up := s.conns[s.accepted - 1].up;
      if up != [] && up[0].Body? {
        HandleStaysLost(s.agent, up[0].command, outcome);
      }
    }
  }

  /** The connection the agent reads from stays in lock step. */
  lemma ServedConnection(s: State, outcome: RunOutcome, closes: bool)
    requires Inv(s) && Next(s, AgentRead(outcome, closes)).Some?
    ensures var t := Next(s, AgentRead(outcome, closes)).value; var i := s.accepted - 1;
      && |t.conns| == |s.conns| && t.accepted == s.accepted && t.client == s.client
      && (forall k :: 0 <= k < |s.conns| && k != i ==> t.conns[k] == s.conns[k])
      && LockStep(t.conns[i], ClientAt(t, i), AgentAt(t, i))
  {
    hide Handle, Honest;
    var i := s.accepted - 1;
    assert LockStep(s.conns[i], ClientAt(s, i), AgentAt(s, i));
  }

  lemma ReadKeepsInv(s: State, outcome: RunOutcome, closes: bool)
    requires Inv(s) && Next(s, AgentRead(outcome, closes)).Some?
    ensures Inv(Next(s, AgentRead(outcome, closes)).value)
  {
    ReadKeepsHonest(s, outcome, closes);
    ServedConnection(s, outcome, closes);
    hide Handle, Honest, LockStep, ReadUp;
    var t := Next(s, AgentRead(outcome, closes)).value;
    forall i | 0 <= i < |t.conns| ensures LockStep(t.conns[i], ClientAt(t, i), AgentAt(t, i)) {
      if i != s.accepted - 1 {
        assert LockStep(s.conns[i], ClientAt(s, i), AgentAt(s, i));
      }
    }
  }

  function Run(s: State, events: seq<Event>): Option<State>
    decreases |events|
  {
    if events == [] then Some(s)
    else
      match Next(s, events[0])
      case None => None
      case Some(t) => Run(t, events[1..])
  }

  lemma {:induction false} RunKeepsInv(s: State, events: seq<Event>)
    requires Inv(s) && Run(s, events).Some?
    ensures Inv(Run(s, events).value)
    decreases |events|
  {
    if events != [] {
      StepKeepsInv(s, events[0]);
      RunKeepsInv(Next(s, events[0]).value, events[1..]);
    }
  }

  /** The agent never finds a message of another type than the one it is about to decode. */
  lemma NextMessageHasItsType(events: seq<Event>)
    requires Run(Initial(), events).Some?
    ensures var s := Run(Initial(), events).value;
      (s.stage.AwaitAction? || s.stage.AwaitCommand?) ==>
        && 0 < s.accepted <= |s.conns|
        && var up := s.conns[s.accepted - 1].up;
          up != [] ==> if s.stage.AwaitAction? then !up[0].Body? else up[0].Body? && up[0].command.Kind() == s.stage.kind
  {
    RunKeepsInv(Initial(), events);
    var s := Run(Initial(), events).value;
    if s.stage.AwaitAction? || s.stage.AwaitCommand? {
      var i := s.accepted - 1;
      assert LockStep(s.conns[i], ClientAt(s, i), AgentAt(s, i));
    }
  }

  /**
   * On every connection the codes the client got, command by command, are those the agent
   * gave for the very same commands in the same order; only the last may be unanswered.
   */
  lemma AnswersMatchCommands(events: seq<Event>, i: nat)
    requires Run(Initial(), events).Some? && i < |Run(Initial(), events).value.conns|
    ensures var s := Run(Initial(), events).value;
      && s.conns[i].answered <= s.conns[i].executed
      && (i == |s.conns| - 1 && (s.client.Idle? || s.client.AwaitAck?) ==> s.conns[i].answered == s.conns[i].executed)
      && (i == |s.conns| - 1 && s.client.AwaitResult? && s.conns[i].down != [] ==>
          s.conns[i].executed == s.conns[i].answered + [(s.client.command, s.conns[i].down[0])])
      && (i == |s.conns| - 1 && s.client.AwaitAck? && s.conns[i].down != [] ==> s.conns[i].down == [SUCCESS])
  {
    RunKeepsInv(Initial(), events);
    var s := Run(Initial(), events).value;
    assert LockStep(s.conns[i], ClientAt(s, i), AgentAt(s, i));
  }

  /**
   * Across any connections and commands, the agent's flags are what is in place and
   * nothing was done twice, exactly as long as no changing run lost its log.
   */
  lemma AgentStaysHonest(events: seq<Event>)
    requires Run(Initial(), events).Some?
    ensures var a := Run(Initial(), events).value.agent; a.flags == a.actual && !a.doubled <==> !a.lost
  {
    RunKeepsInv(Initial(), events);
  }

  // ---------- a command runs to its answer ----------

  lemma RunStep(s: State, e: Event, events: seq<Event>)
    requires Next(s, e).Some?
    ensures Run(s, [e] + events) == Run(Next(s, e).value, events)
  {
    assert ([e] + events)[1..] == events;
  }

  /** A client dials and the agent, serving nobody, takes the connection. */
  lemma DialledIsServed(s: State)
    requires Inv(s) && s.client == Gone && s.stage == Accepting && s.accepted == |s.conns|
    ensures var r := Run(s, [Dial, Accept]);
      r.Some? && r.value.client == Idle && r.value.stage == AwaitAction && r.value.accepted == |r.value.conns|
  {
    assert [Dial, Accept] == [Dial] + ([Accept] + []);
    RunStep(s, Dial, [Accept] + []);
    RunStep(Next(s, Dial).value, Accept, []);
  }

  /** A client that is served and waits for nothing, and its connection. */
  predicate Ready(s: State, conn: Connection) {
    && s.client == Idle && s.stage == AwaitAction && 0 < s.accepted == |s.conns|
    && s.conns[|s.conns| - 1] == conn && conn.up == [] && conn.down == []
  }

  /** The state with the command on its way, acknowledged by the agent. */
  function Sent(s: State, c: Command): State
    requires s.conns != []
  {
    var last := |s.conns| - 1;
    s.(conns := s.conns[last := s.conns[last].(up := [Body(c)])], client := AwaitResult(c), stage := AwaitCommand(c.Kind()))
  }

  lemma CommandSent(s: State, conn: Connection, c: Command, o: RunOutcome)
    requires Ready(s, conn)
    ensures Run(s, [Issue(c)] + ([AgentRead(o, false)] + ([Receive] + []))) == Some(Sent(s, c))
  {
    hide Handle;
    var s1 := Next(s, Issue(c)).value;
    var s2 := Next(s1, AgentRead(o, false)).value;
    RunStep(s, Issue(c), [AgentRead(o, false)] + ([Receive] + []));
    RunStep(s1, AgentRead(o, false), [Receive] + []);
    RunStep(s2, Receive, []);
    var last := |s.conns| - 1;
    assert s1.conns[last] == conn.(up := [Start(c.Kind())]);
    assert s2.conns[last] == conn.(down := [SUCCESS]);
    assert Next(s2, Receive).value.conns[last] == conn.(up := [Body(c)]);
    assert Next(s2, Receive).value.conns == Sent(s, c).conns;
  }

  lemma CommandDone(s: State, conn: Connection, c: Command, o: RunOutcome)
    requires Ready(s, conn)
    ensures var r := Run(Sent(s, c), [AgentRead(o, false)] + ([Receive] + [])); var h := Handle(s.agent, c, o);
      && r.Some? && r.value.agent == h.agent
      && Ready(r.value, conn.(executed := conn.executed + [(c, h.code)], answered := conn.answered + [(c, h.code)]))
  {
    hide Handle;
    var s3 := Sent(s, c);
    var s4 := Next(s3, AgentRead(o, false)).value;
    RunStep(s3, AgentRead(o, false), [Receive] + []);
    RunStep(s4, Receive, []);
  }

  lemma {:induction false} RunTwice(s: State, a: seq<Event>, b: seq<Event>)
    requires Run(s, a).Some?
    ensures Run(s, a + b) == Run(Run(s, a).value, b)
    decreases |a|
  {
    hide Next;
    if a == [] {
      assert a + b == b;
    } else {
      RunTwice(Next(s, a[0]).value, a[1..], b);
      assert (a + b)[1..] == a[1..] + b;
    }
  }

  /**
   * A command of a client that is served goes through both messages, is carried out by the
   * agent and answered with the code for it, and the client can go on.
   */
  lemma CommandIsAnswered(s: State, conn: Connection, c: Command, o: RunOutcome)
    requires Ready(s, conn)
    ensures var r := Run(s, [Issue(c), AgentRead(o, false), Receive, AgentRead(o, false), Receive]);
      var h := Handle(s.agent, c, o);
      && r.Some? && r.value.agent == h.agent
      && Ready(r.value, conn.(executed := conn.executed + [(c, h.code)], answered := conn.answered + [(c, h.code)]))
  {
    hide Run, Handle, Ready, Sent;
    var read := AgentRead(o, false);
    CommandSent(s, conn, c, o);
    CommandDone(s, conn, c, o);
    RunTwice(s, [Issue(c)] + ([read] + ([Receive] + [])), [read] + ([Receive] + []));
    assert [Issue(c), read, Receive, read, Receive]
      == [Issue(c)] + ([read] + ([Receive] + [])) + ([read] + ([Receive] + []));
  }

  /** In every reachable state a client that waits for nothing and is served is ready. */
  lemma ServedIsReady(events: seq<Event>)
    requires Run(Initial(), events).Some?
    ensures var s := Run(Initial(), events).value;
      s.client == Idle && s.stage == AwaitAction && s.accepted == |s.conns| ==>
        s.conns != [] && Ready(s, s.conns[|s.conns| - 1])
  {
    RunKeepsInv(Initial(), events);
    var s := Run(Initial(), events).value;
    if s.client == Idle && s.stage == AwaitAction && s.accepted == |s.conns| {
      var last := |s.conns| - 1;
      assert LockStep(s.conns[last], ClientAt(s, last), AgentAt(s, last));
    }
  }

  // ---------- what a client knows that is answered 0 ----------

  /** No run fails with the code of success. */
  predicate SoundOutcome(e: Event) {
    e.AgentRead? ==> e.outcome.success || e.outcome.failureCode != SUCCESS
  }

  /** A code 0 on its way to the client is true of what is in place, but for a revert after a lost log. */
  predicate Kept(a: Agent, c: Command, code: int) {
    code == SUCCESS && (c.SetupCommand? || !a.lost) ==> Made(c, a.actual)
  }

  predicate Promise(s: State) {
    s.client.AwaitResult? && s.conns != [] && s.conns[|s.conns| - 1].down != [] ==>
      Kept(s.agent, s.client.command, s.conns[|s.conns| - 1].down[0])
  }

  lemma HandleKept(a: Agent, c: Command, o: RunOutcome)
    requires (Honest(a) <==> !a.lost) && (o.success || o.failureCode != SUCCESS)
    ensures Kept(Handle(a, c, o).agent, c, Handle(a, c, o).code)
  {
  }

  /** While its answer is on the way to the client, the agent has nothing to read. */
  lemma NothingToRead(s: State, outcome: RunOutcome, closes: bool)
    requires Inv(s) && s.client.AwaitResult? && s.conns[|s.conns| - 1].down != []
    ensures Next(s, AgentRead(outcome, closes)).None?
  {
    var last := |s.conns| - 1;
    assert LockStep(s.conns[last], ClientAt(s, last), AgentAt(s, last));
    hide Handle, Honest;
  }

  lemma ReadKeepsPromise(s: State, outcome: RunOutcome, closes: bool)
    requires Inv(s) && Next(s, AgentRead(outcome, closes)).Some? && (outcome.success || outcome.failureCode != SUCCESS)
    ensures Promise(Next(s, AgentRead(outcome, closes)).value)
  {
    ServedConnection(s, outcome, closes);
    if s.client.AwaitResult? {
      var last := |s.conns| - 1;
      assert LockStep(s.conns[last], ClientAt(s, last), AgentAt(s, last));
      if s.conns[last].down != [] {
        NothingToRead(s, outcome, closes);
      } else {
        HandleKept(s.agent, s.client.command, outcome);
      }
    }
    hide Handle, Honest, Kept, LockStep;
  }

  lemma StepKeepsPromise(s: State, e: Event)
    requires Inv(s) && Promise(s) && Next(s, e).Some? && SoundOutcome(e)
    ensures Promise(Next(s, e).value)
  {
    hide Kept, Honest, Handle;
    if e.AgentRead? {
      ReadKeepsPromise(s, e.outcome, e.closes);
    } else if s.conns != [] {
      var last := |s.conns| - 1;
      assert LockStep(s.conns[last], ClientAt(s, last), AgentAt(s, last));
    }
  }

  lemma {:induction false} RunKeepsPromise(s: State, events: seq<Event>)
    requires Inv(s) && Promise(s) && Run(s, events).Some?
    requires forall i :: 0 <= i < |events| ==> SoundOutcome(events[i])
    ensures Promise(Run(s, events).value)
    decreases |events|
  {
    if events != [] {
      hide Inv, Promise, Next;
      StepKeepsInv(s, events[0]);
      StepKeepsPromise(s, events[0]);
      RunKeepsPromise(Next(s, events[0]).value, events[1..]);
    }
  }

  /**
   * Across any connections and commands, with no run failing with code 0: at the moment a
   * client gets the answer 0 for a command it had sent, what the command asks for is so,
   * unless it is a revert and some run had lost its log before.
   */
  lemma AnsweredZeroIsMade(events: seq<Event>)
    requires Run(Initial(), events).Some? && forall i :: 0 <= i < |events| ==> SoundOutcome(events[i])
    ensures var s := Run(Initial(), events).value;
      s.client.AwaitResult? && Next(s, Receive).Some? ==>
        && s.conns != []
        && var t := Next(s, Receive).value;
           var answered := t.conns[|t.conns| - 1].answered;
           && answered != [] && answered[|answered| - 1].0 == s.client.command
           && (answered[|answered| - 1].1 == 0 && (s.client.command.SetupCommand? || !t.agent.lost) ==>
               Made(s.client.command, t.agent.actual))
  {
    RunKeepsInv(Initial(), events);
    RunKeepsPromise(Initial(), events);
    hide Inv, Run, Made;
  }
}
