/**
 The state machine of a node in MyTransport.cpp, with its re-entrant transitions: while a node waits for the answer to
 a ping it goes on handling messages.  The radio, the clock and the order of arrival are not determined: the
 results of the radio are arbitrary, and a tape gives the messages and the time that passes between them.
 */
module TransportNode {
  import opened Clocks
  import opened MeshMessages
  import opened MessageTypes
  import opened Recurrence

  const STATE_TIMEOUT := 2000
  const STATE_RETRIES := 3
  const TIMEOUT_FAILURE_STATE := 10000
  const MAX_SUBSEQ_MSGS := 5
  const CHKUPL_INTERVAL := 10000

  datatype State = StInit | StParent | StID | StUplink | StOK | StFailure

  /** The struct transportSM; retries and failedUplinkTransmissions are bit fields of four bits. */
  datatype TransportSM = TransportSM(
    state: State, stateEnter: nat, findingParentNode: bool, preferredParentFound: bool, uplinkOk: bool,
    pingActive: bool, transportActive: bool, retries: nat, failedUplinkTransmissions: nat, pingResponse: Id)

  datatype NodeConfig = NodeConfig(nodeId: Id, parentNodeId: Id, distance: Id)

  /**
   What is to come: a message, whose version and signature are accepted or not and which the signing backend consumes or
   not, or a pause.
   */
  datatype Event = Arrives(m: Message, verified: bool, consumed: bool) | Passes(ms: nat)

  /** No node without an address answers the search for a parent. */
  predicate NamedMessage(m: Message) {
    m.command == C_INTERNAL && m.mtype == I_FIND_PARENT_RESPONSE ==> m.sender != AUTO
  }

  predicate AllNamed(tape: seq<Event>) {
    forall i :: 0 <= i < |tape| ==> tape[i].Arrives? ==> NamedMessage(tape[i].m)
  }

  /** Nothing arrives, and each pause is longer than a timeout. */
  predicate AllSilent(tape: seq<Event>) {
    forall i :: 0 <= i < |tape| ==> tape[i].Passes? && STATE_TIMEOUT < tape[i].ms < CLOCK_RANGE / 2
  }

  /** A message handed to the radio, for the node that it is to go to. */
  datatype Transmission = Transmission(to: Id, m: Message)

  /** What has been handed to the radio, and how often the signing backend has been asked to sign. */
  datatype Outbox = Outbox(sent: seq<Transmission>, requests: nat)

  /** One more message to send; it goes out if the signing backend, whose answers are signs, agrees. */
  function Offer(o: Outbox, signs: nat -> bool, to: Id, m: Message): Outbox {
    Outbox(if signs(o.requests) then o.sent + [Transmission(to, m)] else o.sent, o.requests + 1)
  }

  predicate AllSentNamed(sent: seq<Transmission>) {
    forall i :: 0 <= i < |sent| ==> NamedMessage(sent[i].m)
  }

  predicate IsAddress(id: Id) {
    id != GATEWAY_ADDRESS && id != AUTO
  }

  /** The states from which the node does not move on within the same call. */
  predicate IsRest(s: State) {
    s == StParent || s == StID || s == StOK || s == StFailure
  }

  /**
   What holds of the struct and the configuration whenever a message can be handled.  named says that only nodes
   with an address answer the search for a parent.
   */
  predicate Consistent(sm: TransportSM, nc: NodeConfig, named: bool) {
    && (sm.uplinkOk <==> sm.state == StOK)
    && (sm.transportActive ==> nc.nodeId != GATEWAY_ADDRESS && sm.state != StFailure)
    && (sm.state == StParent ==> sm.findingParentNode && (!sm.transportActive ==> nc.parentNodeId == AUTO))
    && (sm.state == StID || sm.state == StUplink || sm.state == StOK ==>
      !sm.findingParentNode && nc.nodeId != GATEWAY_ADDRESS && (named ==> nc.parentNodeId != AUTO))
    && (sm.state == StUplink || sm.state == StOK ==> IsAddress(nc.nodeId))
    && (sm.state == StParent || sm.state == StID ==> sm.retries <= STATE_RETRIES)
    && sm.state != StInit
  }

  /** What handling messages can do: at most it gives up the transport. */
  predicate Handled(sm: TransportSM, nc: NodeConfig, sm': TransportSM, nc': NodeConfig, named: bool) {
    && (sm'.state == sm.state || sm'.state == StFailure)
    && (sm'.state == sm.state != StFailure ==> sm'.retries == sm.retries && sm'.transportActive == sm.transportActive)
    && (sm.state == StFailure ==> !sm'.transportActive)
    && sm'.findingParentNode == sm.findingParentNode && sm'.stateEnter >= sm.stateEnter
    && (!sm.pingActive ==> !sm'.pingActive)
    && (IsAddress(nc.nodeId) ==> IsAddress(nc'.nodeId))
    && (named && nc.parentNodeId != AUTO ==> nc'.parentNodeId != AUTO)
  }

  predicate Failed(sm: TransportSM, sm': TransportSM, now: nat) {
    && sm'.state == StFailure && !sm'.uplinkOk && !sm'.transportActive && sm'.stateEnter == now
    && sm'.findingParentNode == sm.findingParentNode && sm'.pingActive == sm.pingActive
    && sm'.pingResponse == sm.pingResponse
  }

  // What a wait for the answer to a ping comes to

  /** What has been handled: a message, or a sanity check that the radio failed. */
  datatype Happening = Heard(m: Message, verified: bool, consumed: bool) | Broke

  /** The part of a node that decides about the answer to a ping. */
  datatype Ping = Ping(nodeId: Id, active: bool, response: Id, powered: bool)

  /** An internal message that is for the node and not left to the signing backend or dropped before. */
  predicate Reaches(p: Ping, h: Happening) {
    h.Heard? && h.verified && !h.consumed && h.m.destination == p.nodeId && !h.m.ack && h.m.command == C_INTERNAL
  }

  /** my is the fixed address, if there is one. */
  predicate PowersDown(my: Id, p: Ping, h: Happening) {
    h.Broke? || (Reaches(p, h) && h.m.mtype == I_ID_RESPONSE && my == AUTO && !IsAddress(h.m.value))
  }

  predicate AnswersPing(p: Ping, h: Happening) {
    Reaches(p, h) && h.m.mtype == I_PONG && p.active
  }

  function Absorb(my: Id, p: Ping, h: Happening): Ping {
    if PowersDown(my, p, h) then p.(powered := false)
    else if AnswersPing(p, h) then p.(active := false, response := h.m.value)
    else if Reaches(p, h) && h.m.mtype == I_ID_RESPONSE && my == AUTO then p.(nodeId := h.m.value)
    else p
  }

  function AbsorbAll(my: Id, p: Ping, hs: seq<Happening>): Ping {
    Fold((q: Ping, h: Happening) => Absorb(my, q, h), p, hs)
  }

  lemma AbsorbStep(my: Id, p: Ping, hs: seq<Happening>, h: Happening)
    ensures AbsorbAll(my, p, hs + [h]) == Absorb(my, AbsorbAll(my, p, hs), h)
    ensures AbsorbAll(my, p, []) == p
  {
    assert (hs + [h])[..|hs|] == hs;
  }

  lemma AbsorbAppend(my: Id, p: Ping, a: seq<Happening>, b: seq<Happening>)
    ensures AbsorbAll(my, AbsorbAll(my, p, a), b) == AbsorbAll(my, p, a + b)
  {
    FoldAppend((q: Ping, h: Happening) => Absorb(my, q, h), p, a, b);
  }

  /** What is logged after logged makes of before the present view. */
  predicate AbsorbedTo(my: Id, before: Ping, logged: seq<Happening>, log: seq<Happening>, view: Ping) {
    logged <= log && view == AbsorbAll(my, before, log[|logged|..])
  }

  lemma AbsorbNone(my: Id, before: Ping, log: seq<Happening>)
    ensures AbsorbedTo(my, before, log, log, before)
  {
    AbsorbStep(my, before, [], Broke);
    assert log[|log|..] == [];
  }

  lemma AbsorbOne(my: Id, before: Ping, logged: seq<Happening>, log: seq<Happening>, view: Ping, h: Happening)
    requires AbsorbedTo(my, before, logged, log, view)
    ensures AbsorbedTo(my, before, logged, log + [h], Absorb(my, view, h))
  {
    AbsorbStep(my, before, log[|logged|..], h);
    assert (log + [h])[|logged|..] == log[|logged|..] + [h];
  }

  lemma AbsorbMore(my: Id, before: Ping, logged: seq<Happening>, log: seq<Happening>, view: Ping, log': seq<Happening>,
                   view': Ping)
    requires AbsorbedTo(my, before, logged, log, view) && AbsorbedTo(my, view, log, log', view')
    ensures AbsorbedTo(my, before, logged, log', view')
  {
    AbsorbAppend(my, before, log[|logged|..], log'[|log|..]);
    assert log'[|logged|..] == log[|logged|..] + log'[|log|..];
  }

  /** The radio is still powered exactly if nothing has powered it down. */
  lemma {:induction false} PoweredExactly(my: Id, p: Ping, hs: seq<Happening>)
    ensures AbsorbAll(my, p, hs).powered <==>
      p.powered && forall i :: 0 <= i < |hs| ==> !PowersDown(my, AbsorbAll(my, p, hs[..i]), hs[i])
  {
    if hs == [] {
      AbsorbStep(my, p, [], Broke);
    } else {
      var n := |hs| - 1;
      PoweredExactly(my, p, hs[..n]);
      assert hs[..n] + [hs[n]] == hs;
      AbsorbStep(my, p, hs[..n], hs[n]);
      forall i | 0 <= i < n
        ensures hs[..n][..i] == hs[..i]
      {
      }
      if AbsorbAll(my, p, hs[..n]).powered {
        forall i | 0 <= i < n
          ensures !PowersDown(my, AbsorbAll(my, p, hs[..i]), hs[i])
        {
          assert !PowersDown(my, AbsorbAll(my, p, hs[..n][..i]), hs[..n][i]);
        }
      } else if p.powered {
        var i :| 0 <= i < n && PowersDown(my, AbsorbAll(my, p, hs[..n][..i]), hs[..n][i]);
        assert PowersDown(my, AbsorbAll(my, p, hs[..i]), hs[i]);
      }
    }
  }

  /** The messages that one run through the queue handles. */
  function Drained(tape: seq<Event>, n: nat): (hs: seq<Happening>)
    ensures |hs| <= n && |hs| <= |tape|
    decreases n
  {
    if n == 0 || tape == [] || tape[0].Passes? then []
    else [Hearing(tape[0])] + Drained(tape[1..], n - 1)
  }

  /** processed messages of the queue are logged, and the rest of it is still to be handled. */
  predicate DrainedTo(before: seq<Event>, logged: seq<Happening>, tape: seq<Event>, log: seq<Happening>,
                      processed: nat) {
    && processed <= MAX_SUBSEQ_MSGS
    && var all, rest := Drained(before, MAX_SUBSEQ_MSGS), Drained(tape, MAX_SUBSEQ_MSGS - processed);
      processed <= |before| && |all| == processed + |rest| && tape == before[processed..] && log + rest == logged + all
  }

  function Hearing(e: Event): Happening
    requires e.Arrives?
  {
    Heard(e.m, e.verified, e.consumed)
  }

  lemma DrainOne(before: seq<Event>, logged: seq<Happening>, tape: seq<Event>, log: seq<Happening>, processed: nat)
    requires DrainedTo(before, logged, tape, log, processed)
    requires processed < MAX_SUBSEQ_MSGS && tape != [] && tape[0].Arrives?
    ensures DrainedTo(before, logged, tape[1..], log + [Hearing(tape[0])], processed + 1)
  {
    var rest := Drained(tape[1..], MAX_SUBSEQ_MSGS - processed - 1);
    assert Drained(tape, MAX_SUBSEQ_MSGS - processed) == [Hearing(tape[0])] + rest;
    assert log + ([Hearing(tape[0])] + rest) == log + [Hearing(tape[0])] + rest;
  }

  lemma DrainEnd(before: seq<Event>, logged: seq<Happening>, tape: seq<Event>, log: seq<Happening>, processed: nat)
    requires DrainedTo(before, logged, tape, log, processed)
    requires processed == MAX_SUBSEQ_MSGS || tape == [] || tape[0].Passes?
    ensures var hs := Drained(before, MAX_SUBSEQ_MSGS); log == logged + hs && tape == before[|hs|..]
  {
    assert Drained(tape, MAX_SUBSEQ_MSGS - processed) == [];
    assert log + [] == log;
  }

  /** The next message of the queue is the next of those that one run handles. */
  lemma NextOfQueue(before: seq<Event>, logged: seq<Happening>, tape: seq<Event>, log: seq<Happening>, processed: nat)
    requires DrainedTo(before, logged, tape, log, processed)
    requires processed < MAX_SUBSEQ_MSGS && tape != [] && tape[0].Arrives?
    ensures Hearing(tape[0]) in Drained(before, MAX_SUBSEQ_MSGS)
  {
    var all, rest := Drained(before, MAX_SUBSEQ_MSGS), Drained(tape, MAX_SUBSEQ_MSGS - processed);
    assert rest[0] == Hearing(tape[0]) && (log + rest)[|log|] == rest[0];
    assert (logged + all)[|logged| + processed] == all[processed];
  }

  /** A neighbour searches for a parent. */
  predicate SearchesParent(m: Message) {
    m.destination == BROADCAST_ADDRESS && m.command == C_INTERNAL && m.mtype == I_FIND_PARENT
  }

  predicate NoSearch(hs: seq<Happening>) {
    forall h :: h in hs ==> h.Heard? && !SearchesParent(h.m)
  }

  predicate Searchless(tape: seq<Event>) {
    forall i :: 0 <= i < |tape| && tape[i].Arrives? ==> !SearchesParent(tape[i].m)
  }

  lemma {:induction false} SearchlessQueue(tape: seq<Event>, n: nat)
    requires Searchless(tape)
    ensures NoSearch(Drained(tape, n))
    decreases n
  {
    if n == 0 || tape == [] || tape[0].Passes? {
    } else {
      SearchlessBehind(tape, 1);
      SearchlessQueue(tape[1..], n - 1);
    }
  }

  lemma SearchlessBehind(tape: seq<Event>, k: nat)
    requires Searchless(tape) && k <= |tape|
    ensures Searchless(tape[k..])
  {
    assert forall i :: 0 <= i < |tape[k..]| ==> tape[k..][i] == tape[k + i];
  }

  // Messages that only pass through

  predicate AllForOthers(id: Id, hs: seq<Happening>) {
    forall h :: h in hs ==> h.Heard? && h.verified && h.m.destination != id && h.m.destination != BROADCAST_ADDRESS
  }

  datatype Transit = Transit(routes: Routes, out: Outbox)

  /** A message passes a ready repeater: the way back is learned, the hops are counted, and it goes to the next hop. */
  function Pass(nc: NodeConfig, signs: nat -> bool, t: Transit, m: Message): Transit {
    var routes := if m.last != nc.parentNodeId then t.routes[m.sender := m.last] else t.routes;
    var hop := NextHop(nc.parentNodeId, routes, m.last, m.destination);
    Transit(routes, Offer(t.out, signs, hop, Counted(m).(last := nc.nodeId)))
  }

  function PassAll(nc: NodeConfig, signs: nat -> bool, t: Transit, hs: seq<Happening>): Transit {
    Fold((u: Transit, h: Happening) => if h.Heard? then Pass(nc, signs, u, h.m) else u, t, hs)
  }

  lemma PassOneMore(nc: NodeConfig, signs: nat -> bool, t: Transit, logged: seq<Happening>, log: seq<Happening>,
                    h: Happening)
    requires logged <= log && h.Heard?
    ensures PassAll(nc, signs, t, (log + [h])[|logged|..])
         == Pass(nc, signs, PassAll(nc, signs, t, log[|logged|..]), h.m)
    ensures PassAll(nc, signs, t, []) == t
  {
    var hs := (log + [h])[|logged|..];
    assert hs == log[|logged|..] + [h];
    assert hs[..|hs| - 1] == log[|logged|..];
  }

  /** A short queue that a wait begins with is all that it handles. */
  predicate HandlesAll(sm: TransportSM, checks: seq<bool>, tape: seq<Event>) {
    && (sm.state != StOK || Searchless(tape)) && sm.transportActive && checks == [] && tape != []
    && |Drained(tape, MAX_SUBSEQ_MSGS)| == |tape|
  }

  /** A neighbour that answers the search for a parent is taken for one without an address. */
  predicate LosesParent(sm: TransportSM, nc: NodeConfig, m: Message) {
    && m.mtype == I_FIND_PARENT_RESPONSE && m.sender == AUTO && m.value < MAX_HOPS && m.value + 1 < nc.distance
    && !sm.preferredParentFound
  }

  /** What decides about a message and is changed by it. */
  datatype Snapshot = Snapshot(sm: TransportSM, nc: NodeConfig, eeprom: NodeConfig, routes: Routes, out: Outbox,
                               tmpLast: Id)

  /** A node when a run through its queue begins. */
  datatype Beginning = Beginning(view: Ping, tape: seq<Event>, log: seq<Happening>, checks: seq<bool>, now: nat,
                                 at: Snapshot)

  class Node {
    const myNodeId: Id
    const myParentNodeId: Id
    const isRepeater: bool
    const staticParent: bool
    /** The answers of the signing backend, in the order in which it is asked. */
    const signs: nat -> bool
    /** Whether the radio comes up when it is initialised at a given time. */
    const comesUp: nat -> bool
    var sm: TransportSM
    var nc: NodeConfig
    var eeprom: NodeConfig
    var routes: Routes
    var lastUplinkCheck: nat
    /** The command and type of _msg, the message handled last. */
    var msgCommand: nat
    var msgType: nat
    var now: nat
    var tape: seq<Event>
    var out: Outbox
    /** The results of the sanity checks to come; those behind its end are good. */
    var checks: seq<bool>
    /** The field last of _msgTmp. */
    var tmpLast: Id
    /** All that has been handled. */
    ghost var log: seq<Happening>

    constructor (myNodeId: Id, myParentNodeId: Id, isRepeater: bool, staticParent: bool, eeprom: NodeConfig,
                 signs: nat -> bool, comesUp: nat -> bool, tape: seq<Event>, checks: seq<bool>)
      ensures this.tape == tape && this.checks == checks && this.eeprom == eeprom
      ensures this.signs == signs && this.comesUp == comesUp
      ensures !sm.uplinkOk && out.sent == []
    {
      this.myNodeId, this.myParentNodeId, this.isRepeater, this.staticParent :=
        myNodeId, myParentNodeId, isRepeater, staticParent;
      this.signs, this.comesUp := signs, comesUp;
      sm := TransportSM(StFailure, 0, false, false, false, false, false, 0, 0, 0);
      nc, this.eeprom, routes, lastUplinkCheck := eeprom, eeprom, NoRoutes(), 0;
      msgCommand, msgType, now, this.tape, this.checks := 0, 0, 0, tape, checks;
      tmpLast, log, out := 0, [], Outbox([], 0);
    }

    /** transportTimeInState; the difference of two 32-bit times. */
    function TimeInState(): nat
      requires sm.stateEnter <= now
      reads this
    {
      (now - sm.stateEnter) % CLOCK_RANGE
    }

    ghost function View(): Ping
      reads this`sm, this`nc
    {
      Ping(nc.nodeId, sm.pingActive, sm.pingResponse, sm.transportActive)
    }

    /** The part of transportSwitchSM before the transition. */
    method BeginSwitch(s: State)
      modifies this`sm
      ensures sm == old(sm).(state := s, retries := if old(sm.state) == s then (old(sm.retries) + 1) % 16 else 0)
    {
      if sm.state != s {
        sm := sm.(retries := 0, state := s);
      } else {
        sm := sm.(retries := (sm.retries + 1) % 16);
      }
    }

    method EnterFailure()
      modifies this`sm
      ensures Failed(old(sm), sm, now)
    {
      BeginSwitch(StFailure);
      sm := sm.(uplinkOk := false, transportActive := false);
      sm := sm.(stateEnter := now);
    }

    /** transportAssignNodeID. */
    method AssignNodeID(newNodeId: Id)
      modifies this`sm, this`nc, this`eeprom
      ensures IsAddress(newNodeId) ==>
        nc == old(nc).(nodeId := newNodeId) && eeprom == old(eeprom).(nodeId := newNodeId) && sm == old(sm)
      ensures !IsAddress(newNodeId) ==> nc == old(nc) && eeprom == old(eeprom) && Failed(old(sm), sm, now)
    {
      if newNodeId != GATEWAY_ADDRESS && newNodeId != AUTO {
        nc := nc.(nodeId := newNodeId);
        eeprom := eeprom.(nodeId := newNodeId);
      } else {
        EnterFailure();
      }
    }

    /** The neighbour to which transportRouteMessage sends. */
    function RouteOf(m: Message): Id
      reads this`nc, this`routes
    {
      Hop(isRepeater, nc.parentNodeId, routes, m.last, m.destination)
    }

    /** Only broadcasts go out while a parent is searched. */
    predicate MaySend(m: Message)
      reads this`sm
    {
      sm.findingParentNode ==> m.destination == BROADCAST_ADDRESS
    }

    /** transportRouteMessage and transportSendWrite; whether the radio has an acknowledgement is arbitrary. */
    method RouteMessage(m: Message) returns (ok: bool)
      modifies this`sm, this`out
      ensures !old(MaySend(m)) ==> !ok && sm == old(sm) && out == old(out)
      ensures old(MaySend(m)) ==> out == Offer(old(out), signs, RouteOf(m), m.(last := nc.nodeId))
      ensures ok ==> out.sent != old(out.sent)
      ensures old(MaySend(m)) ==> sm == old(sm).(failedUplinkTransmissions :=
        if RouteOf(m) != nc.parentNodeId then old(sm.failedUplinkTransmissions)
        else if ok then 0
        else (old(sm.failedUplinkTransmissions) + 1) % 16)
    {
      if sm.findingParentNode && m.destination != BROADCAST_ADDRESS {
        return false;
      }
      var route := RouteOf(m);
      var signed, sent := signs(out.requests), out.sent;
      ok := false;
      if signed {
        var received: bool := *;
        sent := sent + [Transmission(route, m.(last := nc.nodeId))];
        ok := received || route == BROADCAST_ADDRESS;
      }
      out := Outbox(sent, out.requests + 1);
      if route == nc.parentNodeId {
        sm := sm.(failedUplinkTransmissions := if ok then 0 else (sm.failedUplinkTransmissions + 1) % 16);
      }
    }

    /** What build makes of _msgTmp. */
    function Built(destination: Id, mtype: nat, value: Id): Message
      reads this`nc, this`tmpLast
    {
      Internal(nc.nodeId, tmpLast, destination, mtype, value)
    }

    /** A new message is built and routed. */
    method SendBuilt(destination: Id, mtype: nat, value: Id) returns (ok: bool)
      modifies this`sm, this`out, this`tmpLast
      ensures var m := old(Built(destination, mtype, value));
        out == if old(MaySend(m)) then
            Offer(old(out), signs, RouteOf(m), Internal(nc.nodeId, nc.nodeId, destination, mtype, value))
          else old(out)
      ensures sm == old(sm).(failedUplinkTransmissions := sm.failedUplinkTransmissions)
    {
      var m := Built(destination, mtype, value);
      if !sm.findingParentNode || destination == BROADCAST_ADDRESS {
        tmpLast := nc.nodeId;
      }
      ok := RouteMessage(m);
    }

    /** The search for a parent, by a node with address id or AUTO. */
    ghost function Searching(o: Outbox, id: Id): Outbox {
      Offer(o, signs, BROADCAST_ADDRESS, Internal(id, id, BROADCAST_ADDRESS, I_FIND_PARENT, 0))
    }

    /** The request for an address, to the gateway over the parent. */
    ghost function Asking(o: Outbox, parent: Id): Outbox {
      Offer(o, signs, parent, Internal(AUTO, AUTO, GATEWAY_ADDRESS, I_ID_REQUEST, 0))
    }

    /** The search for a parent begins again. */
    method EnterParent()
      modifies this`sm, this`nc, this`out, this`tmpLast
      ensures out == Searching(old(out), nc.nodeId)
      ensures sm.pingActive == old(sm.pingActive) && sm.pingResponse == old(sm.pingResponse)
      ensures sm.state == StParent && sm.findingParentNode && !sm.uplinkOk && sm.stateEnter == now
      ensures sm.transportActive == old(sm.transportActive)
      ensures nc == old(nc).(distance := DISTANCE_INVALID, parentNodeId := AUTO)
      ensures sm.retries == if old(sm.state) == StParent then (old(sm.retries) + 1) % 16 else 0
    {
      BeginSwitch(StParent);
      sm := sm.(preferredParentFound := false, findingParentNode := true, failedUplinkTransmissions := 0,
                uplinkOk := false);
      nc := nc.(distance := DISTANCE_INVALID, parentNodeId := AUTO);
      var _ := SendBuilt(BROADCAST_ADDRESS, I_FIND_PARENT, 0);
      sm := sm.(stateEnter := now);
    }

    /** What every routine that handles messages keeps; named is an assumption about the tape. */
    ghost predicate Valid(named: bool)
      reads this
    {
      && Consistent(sm, nc, named) && sm.stateEnter <= now && lastUplinkCheck <= now
      && (named ==> AllNamed(tape) && AllSentNamed(out.sent))
    }

    /** transportProcessFIFO: at most five messages, unless the radio fails its sanity check. */
    method ProcessFIFO(ghost named: bool)
      requires Valid(named)
      modifies this
      ensures Valid(named) && Handled(old(sm), old(nc), sm, nc, named) && |tape| <= |old(tape)| && now >= old(now)
      ensures old(tape) == [] || old(tape)[0].Passes? ==> tape == old(tape) && now == old(now) && nc == old(nc)
      ensures old(tape) == [] || old(tape)[0].Passes? ==> sm == old(sm) || Failed(old(sm), sm, now)
      ensures old(log) <= log && old(out.sent) <= out.sent
      ensures old(Calm()) ==> Calm() && AbsorbedTo(myNodeId, old(View()), old(log), log, View())
      ensures old(sm.transportActive) && old(checks == []) ==>
        var hs := Drained(old(tape), MAX_SUBSEQ_MSGS);
        && (old(sm.state) != StOK || NoSearch(hs) ==>
          log == old(log) + hs && tape == old(tape)[|hs|..] && checks == [])
        && (isRepeater && old(sm.uplinkOk) && AllForOthers(old(nc.nodeId), hs) ==>
          nc == old(nc) && Transit(routes, out) == PassAll(nc, signs, Transit(old(routes), old(out)), hs))
      decreases |tape|, 4, 1
    {
      AbsorbNone(myNodeId, View(), log);
      if !sm.transportActive {
        return;
      }
      var sane := checks == [] || checks[0];
      checks := if checks == [] then [] else checks[1..];
      if !sane {
        BreakDown(named);
        return;
      }
      Drain(named);
    }

    /** The radio has failed its sanity check. */
    method BreakDown(ghost named: bool)
      requires Valid(named)
      modifies this`sm, this`log
      ensures Valid(named) && Handled(old(sm), old(nc), sm, nc, named) && Failed(old(sm), sm, now)
      ensures old(log) <= log && AbsorbedTo(myNodeId, old(View()), old(log), log, View())
    {
      AbsorbNone(myNodeId, View(), log);
      AbsorbOne(myNodeId, View(), log, log, View(), Broke);
      log := log + [Broke];
      EnterFailure();
    }

    /** The loop of transportProcessFIFO. */
    method Drain(ghost named: bool)
      requires Valid(named) && sm.transportActive
      modifies this
      ensures Valid(named) && Handled(old(sm), old(nc), sm, nc, named) && |tape| <= |old(tape)| && now >= old(now)
      ensures old(tape) == [] || old(tape)[0].Passes? ==>
        tape == old(tape) && now == old(now) && nc == old(nc) && sm == old(sm)
      ensures old(log) <= log && old(out.sent) <= out.sent
      ensures old(Calm()) ==> Calm() && AbsorbedTo(myNodeId, old(View()), old(log), log, View())
      ensures var hs := Drained(old(tape), MAX_SUBSEQ_MSGS);
        && (old(sm.state) != StOK || NoSearch(hs) ==>
          log == old(log) + hs && tape == old(tape)[|hs|..] && checks == old(checks))
        && (isRepeater && old(sm.uplinkOk) && AllForOthers(old(nc.nodeId), hs) ==>
          nc == old(nc) && Transit(routes, out) == PassAll(nc, signs, Transit(old(routes), old(out)), hs))
      decreases |tape|, 4, 0
    {
      ghost var b := Begin();
      BeginsDrained(b, named);
      var processed := 0;
      while processed < MAX_SUBSEQ_MSGS && tape != [] && tape[0].Arrives?
        invariant DrainedSince(b, processed, named) && |tape| <= |b.tape|
        decreases |tape|
      {
        HandleNext(b, processed, named);
        processed := processed + 1;
      }
      EndsDrained(b, processed, named);
      if Searchless(b.tape) {
        SearchlessQueue(b.tape, MAX_SUBSEQ_MSGS);
        SearchlessBehind(b.tape, |Drained(b.tape, MAX_SUBSEQ_MSGS)|);
      }
    }

    lemma CalmQueue()
      requires Calm()
      ensures sm.state != StOK || NoSearch(Drained(tape, MAX_SUBSEQ_MSGS))
    {
      if Searchless(tape) {
        SearchlessQueue(tape, MAX_SUBSEQ_MSGS);
      }
    }

    /** While the node handles what is to come, no message nests in another. */
    ghost predicate Calm()
      reads this`sm, this`tape
    {
      sm.state != StOK || Searchless(tape)
    }

    ghost function Begin(): Beginning
      reads this
    {
      Beginning(View(), tape, log, checks, now, Snap())
    }

    /** The queue that a run begins with is handled message by message: nothing nests. */
    ghost predicate Plain(b: Beginning) {
      b.at.sm.state != StOK || NoSearch(Drained(b.tape, MAX_SUBSEQ_MSGS))
    }

    /** All of it passes through. */
    ghost predicate Passing(b: Beginning) {
      isRepeater && b.at.sm.uplinkOk && AllForOthers(b.at.nc.nodeId, Drained(b.tape, MAX_SUBSEQ_MSGS))
    }

    /** So many messages have been handled since the run began. */
    ghost predicate DrainedSince(b: Beginning, processed: nat, named: bool)
      reads this
    {
      && Valid(named) && Handled(b.at.sm, b.at.nc, sm, nc, named) && (sm.transportActive || sm.state == StFailure)
      && b.log <= log && b.at.out.sent <= out.sent && processed <= MAX_SUBSEQ_MSGS && now >= b.now
      && (if processed == 0 then tape == b.tape && sm == b.at.sm && nc == b.at.nc && now == b.now
          else b.tape != [] && b.tape[0].Arrives? && |tape| < |b.tape|)
      && (Plain(b) ==>
        && checks == b.checks && AbsorbedTo(myNodeId, b.view, b.log, log, View())
        && DrainedTo(b.tape, b.log, tape, log, processed))
      && (Passing(b) ==>
        && nc == b.at.nc && sm.uplinkOk
        && Transit(routes, out) == PassAll(nc, signs, Transit(b.at.routes, b.at.out), log[|b.log|..]))
    }

    lemma BeginsDrained(b: Beginning, named: bool)
      requires b == Begin() && Valid(named) && sm.transportActive
      ensures DrainedSince(b, 0, named)
    {
      AbsorbNone(myNodeId, View(), log);
      PassOneMore(nc, signs, Transit(routes, out), log, log, Heard(Ack(0, Internal(0, 0, 0, 0, 0)), true, true));
      assert [] + Drained(tape, MAX_SUBSEQ_MSGS) == Drained(tape, MAX_SUBSEQ_MSGS);
      assert log[|log|..] == [];
    }

    lemma PassingIsPlain(b: Beginning)
      requires Passing(b)
      ensures Plain(b)
    {
    }

    lemma EndsDrained(b: Beginning, processed: nat, named: bool)
      requires DrainedSince(b, processed, named)
      requires processed == MAX_SUBSEQ_MSGS || tape == [] || tape[0].Passes?
      ensures var hs := Drained(b.tape, MAX_SUBSEQ_MSGS);
        && (Plain(b) ==> log == b.log + hs && tape == b.tape[|hs|..])
        && (Passing(b) ==> Transit(routes, out) == PassAll(nc, signs, Transit(b.at.routes, b.at.out), hs))
    {
      if Plain(b) {
        DrainEnd(b.tape, b.log, tape, log, processed);
        assert log[|b.log|..] == Drained(b.tape, MAX_SUBSEQ_MSGS);
      }
      if Passing(b) {
        PassingIsPlain(b);
      }
    }

    /** The next message of the queue. */
    method HandleNext(ghost b: Beginning, ghost processed: nat, ghost named: bool)
      requires DrainedSince(b, processed, named) && processed < MAX_SUBSEQ_MSGS && tape != [] && tape[0].Arrives?
      modifies this
      ensures DrainedSince(b, processed + 1, named) && |tape| < |old(tape)|
      decreases |tape|, 3, 1
    {
      ghost var h, log1 := Hearing(tape[0]), log;
      if Plain(b) {
        AbsorbOne(myNodeId, b.view, b.log, log, View(), h);
        NextOfQueue(b.tape, b.log, tape, log, processed);
        DrainOne(b.tape, b.log, tape, log, processed);
      }
      if Passing(b) {
        PassOneMore(nc, signs, Transit(b.at.routes, b.at.out), b.log, log, h);
      }
      ProcessMessage(named);
    }

    /** transportWait for an internal message of type mtype, at most ms milliseconds. */
    method Wait(ms: nat, mtype: nat, ghost named: bool) returns (expected: bool)
      requires Valid(named)
      modifies this
      ensures expected ==> msgCommand == C_INTERNAL && msgType == mtype
      ensures Valid(named) && Handled(old(sm), old(nc), sm, nc, named) && |tape| <= |old(tape)| && now >= old(now)
      ensures old(log) <= log && old(out.sent) <= out.sent
      ensures old(Calm()) ==> Calm() && AbsorbedTo(myNodeId, old(View()), old(log), log, View())
      ensures ms > 0 && HandlesAll(old(sm), old(checks), old(tape)) ==>
        log == old(log) + Drained(old(tape), MAX_SUBSEQ_MSGS)
      decreases |tape|, 5, 0
    {
      ghost var before, tape0, log0, sent0 := View(), tape, log, out.sent;
      ghost var first := HandlesAll(sm, checks, tape);
      AbsorbNone(myNodeId, before, log);
      var enter := now;
      msgType := if mtype == 0 then 1 else 0;
      expected := false;
      while (now - enter) % CLOCK_RANGE < ms && !expected && tape != []
        invariant Valid(named) && Handled(old(sm), old(nc), sm, nc, named)
        invariant |tape| <= |tape0| && now >= enter == old(now) && log0 <= log && sent0 <= out.sent
        invariant expected ==> msgCommand == C_INTERNAL && msgType == mtype
        invariant old(Calm()) ==> Calm() && AbsorbedTo(myNodeId, before, log0, log, View())
        invariant first && tape == tape0 ==> now == enter && !expected && log == log0 && checks == [] && sm == old(sm)
        invariant first && tape != tape0 ==> tape == [] && log == log0 + Drained(tape0, MAX_SUBSEQ_MSGS)
        decreases |tape|
      {
        ghost var log1, view1 := log, View();
        expected := WaitOnce(mtype, named);
        if old(Calm()) {
          AbsorbMore(myNodeId, before, log0, log1, view1, log, View());
        }
      }
    }

    /** One turn of the loop of transportWait; the tape moves on by at least one event. */
    method WaitOnce(mtype: nat, ghost named: bool) returns (expected: bool)
      requires Valid(named) && tape != []
      modifies this
      ensures expected <==> msgCommand == C_INTERNAL && msgType == mtype
      ensures Valid(named) && Handled(old(sm), old(nc), sm, nc, named) && |tape| < |old(tape)| && now >= old(now)
      ensures old(log) <= log && old(out.sent) <= out.sent
      ensures old(Calm()) ==> Calm() && AbsorbedTo(myNodeId, old(View()), old(log), log, View())
      ensures HandlesAll(old(sm), old(checks), old(tape)) ==>
        tape == [] && log == old(log) + Drained(old(tape), MAX_SUBSEQ_MSGS)
      decreases |tape|, 4, 2
    {
      var left := |tape|;
      if Calm() {
        CalmQueue();
      }
      ProcessFIFO(named);
      if |tape| == left || (tape != [] && tape[0].Passes?) {
        Elapse();
      }
      expected := msgCommand == C_INTERNAL && msgType == mtype;
    }

    /** Time passes, or a message arrives at a radio that is switched off. */
    method Elapse()
      modifies this`now, this`tape
      ensures old(tape) == [] ==> tape == [] && now == old(now)
      ensures old(tape) != [] ==> tape == old(tape)[1..]
      ensures now == old(now) + if old(tape) != [] && old(tape)[0].Passes? then old(tape)[0].ms else 0
    {
      if tape != [] {
        if tape[0].Passes? {
          now := now + tape[0].ms;
        }
        tape := tape[1..];
      }
    }

    /** What a ping comes to, by what is handled while the node waits. */
    ghost predicate Pinged(before: Ping, logged: seq<Happening>)
      reads this`sm, this`nc, this`log
    {
      && logged <= log
      && var p := AbsorbAll(myNodeId, before.(active := true, response := INVALID_HOPS), log[|logged|..]);
      View() == p.(active := false)
    }

    /** transportPingNode: the hops that the answer has counted, or INVALID_HOPS. */
    method PingNode(targetId: Id, ghost named: bool) returns (hops: Id)
      requires Valid(named)
      modifies this
      ensures old(sm.pingActive) ==>
        hops == INVALID_HOPS && sm == old(sm) && nc == old(nc) && tape == old(tape) && log == old(log)
      ensures !old(sm.pingActive) ==> !sm.pingActive
      ensures !old(sm.pingActive) && targetId == old(nc.nodeId) ==>
        hops == 0 && sm == old(sm) && out == old(out) && log == old(log)
      ensures Valid(named) && Handled(old(sm), old(nc), sm, nc, named) && |tape| <= |old(tape)| && now >= old(now)
      ensures old(log) <= log && old(out.sent) <= out.sent
      ensures !old(sm.pingActive) && targetId != old(nc.nodeId) && old(Calm()) ==>
        Pinged(old(View()), old(log))
      ensures !old(sm.pingActive) && targetId != old(nc.nodeId) ==> hops == sm.pingResponse
      ensures !old(sm.pingActive) && targetId != old(nc.nodeId) && !old(sm.findingParentNode) ==>
        old(PingOut(targetId)).sent <= out.sent
      ensures !old(sm.pingActive) && targetId != old(nc.nodeId) && HandlesAll(old(sm), old(checks), old(tape)) ==>
        log == old(log) + Drained(old(tape), MAX_SUBSEQ_MSGS)
      decreases |tape|, 6
    {
      if sm.pingActive {
        return INVALID_HOPS;
      }
      if targetId == nc.nodeId {
        return 0;
      }
      sm := sm.(pingActive := true, pingResponse := INVALID_HOPS);
      hops := AwaitPong(targetId, named);
    }

    /** What a ping makes of the messages sent. */
    ghost function PingOut(targetId: Id): Outbox
      reads this
    {
      Offer(out, signs, RouteOf(Built(targetId, I_PING, 1)), Internal(nc.nodeId, nc.nodeId, targetId, I_PING, 1))
    }

    /** The ping goes out, and the node waits for the answer. */
    method AwaitPong(targetId: Id, ghost named: bool) returns (hops: Id)
      requires Valid(named) && sm.pingActive && sm.pingResponse == INVALID_HOPS
      modifies this
      ensures !sm.pingActive && hops == sm.pingResponse
      ensures Valid(named) && Handled(old(sm), old(nc), sm, nc, named) && |tape| <= |old(tape)| && now >= old(now)
      ensures old(log) <= log && old(out.sent) <= out.sent
      ensures old(Calm()) ==> Pinged(old(View()), old(log))
      ensures !old(sm.findingParentNode) ==> old(PingOut(targetId)).sent <= out.sent
      ensures HandlesAll(old(sm), old(checks), old(tape)) ==> log == old(log) + Drained(old(tape), MAX_SUBSEQ_MSGS)
      decreases |tape|, 5, 1
    {
      var _ := SendBuilt(targetId, I_PING, 1);
      var _ := Wait(2000, I_PONG, named);
      sm := sm.(pingActive := false);
      hops := sm.pingResponse;
    }

    /** transportCheckUplink. */
    method CheckUplink(force: bool, ghost named: bool) returns (ok: bool)
      requires Valid(named)
      modifies this
      ensures !force && old(CheckedLately()) ==> ok && Snap() == old(Snap()) && tape == old(tape) && log == old(log)
      ensures (force || !old(CheckedLately())) && old(nc.nodeId) != GATEWAY_ADDRESS ==>
        && (ok <==> !old(sm.pingActive) && sm.pingResponse != INVALID_HOPS)
        && (ok ==> nc.distance == sm.pingResponse && lastUplinkCheck == now)
        && (!old(sm.pingActive) && !old(sm.findingParentNode) ==> old(PingOut(GATEWAY_ADDRESS)).sent <= out.sent)
      ensures Valid(named) && Handled(old(sm), old(nc), sm, nc, named) && |tape| <= |old(tape)| && now >= old(now)
      ensures old(log) <= log && old(out.sent) <= out.sent
      ensures force && !old(sm.pingActive) && old(nc.nodeId) != GATEWAY_ADDRESS && old(Calm()) ==>
        Pinged(old(View()), old(log))
      ensures force && !old(sm.pingActive) && old(nc.nodeId) != GATEWAY_ADDRESS ==>
        HandlesAll(old(sm), old(checks), old(tape)) ==>
          log == old(log) + Drained(old(tape), MAX_SUBSEQ_MSGS)
      decreases |tape|, 7, 0
    {
      if !force && (now - lastUplinkCheck) % CLOCK_RANGE < CHKUPL_INTERVAL {
        return true;
      }
      var hops := PingNode(GATEWAY_ADDRESS, named);
      if hops == INVALID_HOPS {
        return false;
      }
      lastUplinkCheck := now;
      nc := nc.(distance := hops);
      ok := true;
    }

    // What becomes of one message

    /** What decides about a message and is changed by it. */
    ghost function Snap(): Snapshot
      reads this
    {
      Snapshot(sm, nc, eeprom, routes, out, tmpLast)
    }

    /** One more message to send, from what was before. */
    ghost function Put(o: Outbox, d: Snapshot, last: Id, m: Message): Outbox {
      Offer(o, signs, Hop(isRepeater, d.nc.parentNodeId, d.routes, last, m.destination), m.(last := d.nc.nodeId))
    }

    /** A message not from the parent shows a repeater the way to its sender. */
    ghost function Way(d: Snapshot, m: Message): Routes {
      if isRepeater && m.last != d.nc.parentNodeId then d.routes[m.sender := m.last] else d.routes
    }

    /** m has been for another node: it has gone on to the next hop, with the way back learned and its hops counted. */
    ghost predicate PassedOn(d: Snapshot, m: Message)
      reads this
    {
      && nc == d.nc && eeprom == d.eeprom && routes == Way(d, m)
      && sm == d.sm.(failedUplinkTransmissions := sm.failedUplinkTransmissions)
      && out == Put(d.out, d.(routes := routes), m.last, Counted(m))
    }

    /** What the answer to a ping holds in its field last before it is sent. */
    ghost function LeftOver(d: Snapshot, m: Message): Id {
      if m.requestAck then (if d.sm.uplinkOk then d.nc.nodeId else m.last) else d.tmpLast
    }

    /** The acknowledgement has been sent, if it is wanted. */
    ghost function Acked(d: Snapshot, m: Message): Outbox {
      if m.requestAck && d.sm.uplinkOk then Put(d.out, d.(routes := Way(d, m)), m.last, Ack(d.nc.nodeId, m)) else d.out
    }

    /** m has been for this node: an acknowledgement has been sent if it is wanted, and a pong if m is a ping. */
    ghost predicate Replied(d: Snapshot, m: Message, consumed: bool)
      reads this
    {
      && routes == Way(d, m)
      && var pong := Internal(d.nc.nodeId, LeftOver(d, m), m.sender, I_PONG, 1);
        var pinged := !m.ack && m.command == C_INTERNAL && !consumed && m.mtype == I_PING;
        out ==
          if pinged && (d.sm.findingParentNode ==> m.sender == BROADCAST_ADDRESS) then
            Put(Acked(d, m), d.(routes := routes), pong.last, pong)
          else Acked(d, m)
    }

    /** The configuration after a message for this node: a closer neighbour, or the preferred one, becomes parent. */
    ghost predicate Configured(d: Snapshot, m: Message, consumed: bool)
      reads this`nc, this`eeprom, this`sm
    {
      if m.ack || m.command != C_INTERNAL || consumed then
        nc == d.nc && eeprom == d.eeprom && sm.preferredParentFound == d.sm.preferredParentFound
      else if m.mtype == I_FIND_PARENT_RESPONSE then
        var preferred := myParentNodeId != AUTO && m.sender == myParentNodeId;
        var closer := m.value < MAX_HOPS && m.value + 1 < d.nc.distance;
        && eeprom == d.eeprom
        && if m.value != DISTANCE_INVALID && (closer || preferred) && !d.sm.preferredParentFound then
            nc == d.nc.(parentNodeId := m.sender, distance := m.value + 1) && sm.preferredParentFound == preferred
          else
            nc == d.nc && sm.preferredParentFound == d.sm.preferredParentFound
      else if m.mtype == I_ID_RESPONSE && myNodeId == AUTO && IsAddress(m.value) then
        nc == d.nc.(nodeId := m.value) && eeprom == d.eeprom.(nodeId := m.value)
      else
        nc == d.nc && eeprom == d.eeprom
    }

    /** A parent is lost only to an answer from a neighbour without an address. */
    lemma LosesExactly(d: Snapshot, m: Message, consumed: bool)
      requires Configured(d, m, consumed) && d.nc.parentNodeId != AUTO
      ensures nc.parentNodeId == AUTO <==>
        !m.ack && m.command == C_INTERNAL && !consumed && LosesParent(d.sm, d.nc, m)
    {
    }

    /** A repeater that is ready hears a neighbour search for a parent. */
    ghost predicate IsSearch(d: Snapshot, m: Message) {
      m.command == C_INTERNAL && d.sm.uplinkOk && m.mtype == I_FIND_PARENT
    }

    /** m has been a broadcast and no search: a discovery by the parent is answered, and what comes from the parent and
     is not the own broadcast goes on to all. */
    ghost predicate Flooded(d: Snapshot, m: Message)
      reads this
    {
      && nc == d.nc && eeprom == d.eeprom && routes == d.routes
      && var asked := m.command == C_INTERNAL && m.mtype == I_DISCOVER && m.last == d.nc.parentNodeId;
        var found := Internal(d.nc.nodeId, d.tmpLast, m.sender, I_DISCOVER_RESPONSE, d.nc.parentNodeId);
        var answered :=
          if asked && (d.sm.findingParentNode ==> m.sender == BROADCAST_ADDRESS) then Put(d.out, d, d.tmpLast, found)
          else d.out;
        out ==
          if isRepeater && m.last == d.nc.parentNodeId && m.sender != d.nc.nodeId && d.sm.uplinkOk then
            Offer(answered, signs, BROADCAST_ADDRESS, m.(last := d.nc.nodeId))
          else answered
    }

    /**
     A search for a parent has been answered: at once if the uplink has been checked lately, and otherwise if the ping
     to the gateway is answered.  The last thing sent is then the answer, with the distance of this node.
     */
    ghost predicate Answered(d: Snapshot, sender: Id, lately: bool)
      reads this
    {
      var offer := Internal(d.nc.nodeId, d.tmpLast, sender, I_FIND_PARENT_RESPONSE, d.nc.distance);
      if lately then
        && nc == d.nc && eeprom == d.eeprom && routes == d.routes[sender := sender]
        && out == Put(d.out, d.(routes := routes), d.tmpLast, offer)
      else if !d.sm.pingActive && sm.pingResponse != INVALID_HOPS && AllSigned() then
        && nc.distance == sm.pingResponse && out.sent != []
        && out.sent[|out.sent| - 1].m == Internal(nc.nodeId, nc.nodeId, sender, I_FIND_PARENT_RESPONSE, nc.distance)
      else true
    }

    ghost predicate AllSigned() {
      forall k: nat :: signs(k)
    }

    /** The uplink has been checked within the last ten seconds. */
    ghost predicate CheckedLately()
      reads this`now, this`lastUplinkCheck
      requires lastUplinkCheck <= now
    {
      (now - lastUplinkCheck) % CLOCK_RANGE < CHKUPL_INTERVAL
    }

    /** What has become of a message that has passed the checks. */
    ghost predicate Done(d: Snapshot, m: Message, consumed: bool, lately: bool)
      reads this
    {
      if m.destination == d.nc.nodeId then Replied(d, m, consumed) && Configured(d, m, consumed)
      else if m.destination != BROADCAST_ADDRESS then
        if isRepeater && d.sm.uplinkOk then PassedOn(d, m) else Snap() == d
      else if !IsSearch(d, m) then Flooded(d, m)
      else if isRepeater && m.sender != d.nc.parentNodeId then Answered(d, m.sender, lately)
      else Snap() == d
    }

    /** A message for another node, at a repeater: the way back is learned, the hops are counted, and it goes on. */
    method Relay(m: Message)
      requires isRepeater && !sm.findingParentNode
      modifies this`sm, this`routes, this`out
      ensures sm == old(sm).(failedUplinkTransmissions := sm.failedUplinkTransmissions)
      ensures PassedOn(old(Snap()), m)
    {
      routes := Learned(nc.parentNodeId, routes, m);
      var _ := RouteMessage(Counted(m));
    }

    /** transportProcessMessage. */
    method ProcessMessage(ghost named: bool)
      requires Valid(named) && tape != [] && tape[0].Arrives? && (sm.transportActive || sm.state == StFailure)
      modifies this
      ensures Valid(named) && Handled(old(sm), old(nc), sm, nc, named) && |tape| < |old(tape)| && now >= old(now)
      ensures old(log) + [Hearing(old(tape)[0])] <= log && old(out.sent) <= out.sent
      ensures var e := old(tape)[0];
        if e.verified then Done(old(Snap()), e.m, e.consumed, old(CheckedLately())) else Snap() == old(Snap())
      ensures var e := old(tape)[0];
        old(nc.parentNodeId) != AUTO && e.m.destination == old(nc.nodeId) ==>
          (nc.parentNodeId == AUTO <==>
            e.verified && !e.consumed && !e.m.ack && e.m.command == C_INTERNAL && LosesParent(old(sm), old(nc), e.m))
      ensures !MayPing(old(Snap()), old(tape)[0].m) ==>
        var h := Hearing(old(tape)[0]);
        && log == old(log) + [h] && View() == Absorb(myNodeId, old(View()), h)
        && tape == old(tape)[1..] && checks == old(checks)
      decreases |tape|, 3, 0
    {
      var e := tape[0];
      assert named ==> NamedMessage(e.m);
      tape := tape[1..];
      log := log + [Hearing(e)];
      msgCommand, msgType := e.m.command, e.m.mtype;
      ghost var d := Snap();
      if e.verified {
        Dispatch(e.m, e.consumed, named);
        if d.nc.parentNodeId != AUTO && e.m.destination == d.nc.nodeId {
          LosesExactly(d, e.m, e.consumed);
        }
      }
    }

    /** What transportProcessMessage does with a message that has passed the checks. */
    method Dispatch(m: Message, consumed: bool, ghost named: bool)
      requires Valid(named) && (sm.transportActive || sm.state == StFailure) && (named ==> NamedMessage(m))
      modifies this
      ensures Valid(named) && Handled(old(sm), old(nc), sm, nc, named) && |tape| <= |old(tape)| && now >= old(now)
      ensures old(log) <= log && old(out.sent) <= out.sent
      ensures Done(old(Snap()), m, consumed, old(CheckedLately()))
      ensures !MayPing(old(Snap()), m) ==>
        && log == old(log) && View() == Absorb(myNodeId, old(View()), Heard(m, true, consumed))
        && tape == old(tape) && checks == old(checks)
      decreases |tape|, 9
    {
      if m.destination == nc.nodeId {
        HandleOwn(m, consumed, named);
      } else if m.destination == BROADCAST_ADDRESS {
        HandleBroadcast(m, named);
      } else if isRepeater && sm.uplinkOk {
        Relay(m);
      }
    }

    /** A search for a parent can lead to a ping, and to other messages being handled meanwhile. */
    ghost predicate MayPing(d: Snapshot, m: Message) {
      d.sm.uplinkOk && SearchesParent(m)
    }

    /** A message for this node. */
    method HandleOwn(m: Message, consumed: bool, ghost named: bool)
      requires Valid(named) && (sm.transportActive || sm.state == StFailure) && (named ==> NamedMessage(m))
      requires m.destination == nc.nodeId
      modifies this`sm, this`nc, this`eeprom, this`routes, this`out, this`tmpLast
      ensures Valid(named) && Handled(old(sm), old(nc), sm, nc, named)
      ensures Replied(old(Snap()), m, consumed) && Configured(old(Snap()), m, consumed)
      ensures View() == Absorb(myNodeId, old(View()), Heard(m, true, consumed))
    {
      Acknowledge(m, named);
      if !m.ack && m.command == C_INTERNAL && !consumed {
        HandleInternal(m, named);
      }
    }

    /** The way back is learned; the acknowledgement goes into _msgTmp, and out when the uplink is all right. */
    method Acknowledge(m: Message, ghost named: bool)
      requires Valid(named)
      modifies this`sm, this`routes, this`out, this`tmpLast
      ensures Valid(named) && sm == old(sm).(failedUplinkTransmissions := sm.failedUplinkTransmissions)
      ensures routes == Way(old(Snap()), m) && tmpLast == LeftOver(old(Snap()), m)
      ensures out == Acked(old(Snap()), m)
    {
      if isRepeater {
        routes := Learned(nc.parentNodeId, routes, m);
      }
      if m.requestAck {
        tmpLast := m.last;
        if sm.uplinkOk {
          tmpLast := nc.nodeId;
          var _ := RouteMessage(Ack(nc.nodeId, m));
        }
      }
    }

    /** A response to the request for an address. */
    method TakeResponse(m: Message, ghost named: bool)
      requires Valid(named) && m.command == C_INTERNAL && !m.ack && m.mtype == I_ID_RESPONSE
      requires m.destination == nc.nodeId
      modifies this`sm, this`nc, this`eeprom
      ensures Valid(named) && Handled(old(sm), old(nc), sm, nc, named)
      ensures View() == Absorb(myNodeId, old(View()), Heard(m, true, false))
      ensures Configured(old(Snap()), m, false)
    {
      if myNodeId == AUTO {
        AssignNodeID(m.value);
      }
    }

    method HandleInternal(m: Message, ghost named: bool)
      requires Valid(named) && (sm.transportActive || sm.state == StFailure) && m.command == C_INTERNAL && !m.ack
      requires (named ==> NamedMessage(m)) && m.destination == nc.nodeId
      modifies this`sm, this`nc, this`eeprom, this`out, this`tmpLast
      ensures Valid(named) && Handled(old(sm), old(nc), sm, nc, named)
      ensures var pong := Internal(old(nc.nodeId), old(tmpLast), m.sender, I_PONG, 1);
        out ==
          if m.mtype == I_PING && (old(sm.findingParentNode) ==> m.sender == BROADCAST_ADDRESS) then
            Put(old(out), old(Snap()), pong.last, pong)
          else old(out)
      ensures View() == Absorb(myNodeId, old(View()), Heard(m, true, false))
      ensures Configured(old(Snap()), m, false)
    {
      if m.mtype == I_ID_RESPONSE {
        TakeResponse(m, named);
      } else if m.mtype == I_FIND_PARENT_RESPONSE {
        ConsiderParent(m.sender, m.value);
      } else if m.mtype == I_PING {
        var _ := SendBuilt(m.sender, I_PONG, 1);
      } else if m.mtype == I_PONG {
        if sm.pingActive {
          sm := sm.(pingActive := false, pingResponse := m.value);
        }
      }
    }

    /** An answer to the search for a parent: a neighbour at a distance from the gateway. */
    method ConsiderParent(sender: Id, hops: Id)
      modifies this`sm, this`nc
      ensures sm == old(sm).(preferredParentFound := sm.preferredParentFound)
      ensures var preferred := myParentNodeId != AUTO && sender == myParentNodeId;
        var closer := hops < MAX_HOPS && hops + 1 < old(nc.distance);
        if hops != DISTANCE_INVALID && (closer || preferred) && !old(sm.preferredParentFound)
        then nc == old(nc).(parentNodeId := sender, distance := hops + 1) && (sm.preferredParentFound <==> preferred)
        else nc == old(nc) && sm == old(sm)
    {
      if hops != DISTANCE_INVALID {
        var distance: Id := (hops + 1) % 0x100;
        var preferred := myParentNodeId != AUTO && sender == myParentNodeId;
        if ((distance != DISTANCE_INVALID && distance < nc.distance) || preferred) && !sm.preferredParentFound {
          if preferred {
            sm := sm.(preferredParentFound := true);
          }
          nc := nc.(distance := distance, parentNodeId := sender);
        }
      }
    }

    /** A broadcast. */
    method HandleBroadcast(m: Message, ghost named: bool)
      requires Valid(named) && (sm.transportActive || sm.state == StFailure) && m.destination == BROADCAST_ADDRESS
      requires named ==> NamedMessage(m)
      modifies this
      ensures old(log) <= log && old(out.sent) <= out.sent
      ensures !IsSearch(old(Snap()), m) ==>
        log == old(log) && tape == old(tape) && checks == old(checks) && View() == old(View())
      ensures Valid(named) && Handled(old(sm), old(nc), sm, nc, named) && |tape| <= |old(tape)| && now >= old(now)
      ensures if !IsSearch(old(Snap()), m) then Flooded(old(Snap()), m)
        else if isRepeater && m.sender != old(nc.parentNodeId) then
          Answered(old(Snap()), m.sender, old(CheckedLately()))
        else Snap() == old(Snap())
      decreases |tape|, 8
    {
      if m.command == C_INTERNAL && sm.uplinkOk && m.mtype == I_FIND_PARENT {
        if isRepeater && m.sender != nc.parentNodeId {
          AnswerSearch(m.sender, named);
        }
        return;
      }
      Flood(m);
    }

    /** The part of the handling of broadcasts behind the search for a parent. */
    method Flood(m: Message)
      requires m.destination == BROADCAST_ADDRESS && (sm.uplinkOk ==> !sm.findingParentNode)
      modifies this`sm, this`out, this`tmpLast, this`now
      ensures sm == old(sm).(failedUplinkTransmissions := sm.failedUplinkTransmissions)
      ensures now >= old(now) && old(out.sent) <= out.sent
      ensures Flooded(old(Snap()), m)
    {
      if m.command == C_INTERNAL && m.mtype == I_DISCOVER && m.last == nc.parentNodeId {
        now := now + now % 0x400;
        var _ := SendBuilt(m.sender, I_DISCOVER_RESPONSE, nc.parentNodeId);
      }
      Forward(m);
    }

    /** The answer to a neighbour that searches for a parent. */
    method AnswerSearch(sender: Id, ghost named: bool)
      requires Valid(named) && sm.state == StOK
      modifies this
      ensures old(log) <= log && old(out.sent) <= out.sent
      ensures Valid(named) && Handled(old(sm), old(nc), sm, nc, named) && |tape| <= |old(tape)| && now >= old(now)
      ensures Answered(old(Snap()), sender, old(CheckedLately()))
      decreases |tape|, 7, 1
    {
      routes := routes[sender := sender];
      var ok := CheckUplink(false, named);
      if ok {
        lastUplinkCheck := now;
        Offered(sender);
      }
    }

    /** After a random delay the node offers itself as a parent. */
    method Offered(sender: Id)
      requires !sm.findingParentNode
      modifies this`sm, this`out, this`tmpLast, this`now
      ensures sm == old(sm).(failedUplinkTransmissions := sm.failedUplinkTransmissions)
      ensures var offer := Internal(nc.nodeId, old(tmpLast), sender, I_FIND_PARENT_RESPONSE, nc.distance);
        out == Put(old(out), old(Snap()), old(tmpLast), offer)
      ensures now >= old(now)
    {
      now := now + now % 0x400;
      var _ := SendBuilt(sender, I_FIND_PARENT_RESPONSE, nc.distance);
    }

    /** Controlled flooding. */
    method Forward(m: Message)
      requires m.destination == BROADCAST_ADDRESS
      modifies this`sm, this`out
      ensures sm == old(sm).(failedUplinkTransmissions := sm.failedUplinkTransmissions)
      ensures out ==
        if isRepeater && m.last == nc.parentNodeId && m.sender != nc.nodeId && old(sm.uplinkOk) then
          Offer(old(out), signs, BROADCAST_ADDRESS, m.(last := nc.nodeId))
        else old(out)
    {
      if isRepeater && ForwardsBroadcast(nc.nodeId, nc.parentNodeId, m) && sm.uplinkOk {
        var _ := RouteMessage(m);
      }
    }

    // The states

    /** Between two calls: the node is in a state that it can rest in. */
    ghost predicate AtRest(named: bool)
      reads this
    {
      Valid(named) && IsRest(sm.state) && !sm.pingActive
    }

    method EnterInit(ghost named: bool)
      requires Valid(named) && sm.state == StFailure
      modifies this`sm, this`nc, this`eeprom, this`lastUplinkCheck, this`out, this`tmpLast
      ensures AtRest(named) && sm.state == if comesUp(now) then StParent else StFailure
      ensures nc.nodeId == old(eeprom.nodeId) || (myNodeId != AUTO && nc.nodeId == myNodeId)
      ensures sm.state == StParent ==> (sm.transportActive <==> nc.nodeId != GATEWAY_ADDRESS) && sm.retries == 0
      ensures out == if sm.state == StParent then Searching(old(out), nc.nodeId) else old(out)
    {
      BeginSwitch(StInit);
      sm := sm.(failedUplinkTransmissions := 0, pingActive := false, transportActive := false);
      lastUplinkCheck := 0;
      nc := eeprom;
      if !comesUp(now) {
        EnterFailure();
      } else {
        sm := sm.(transportActive := true);
        TakeAddress();
        EnterParent();
      }
      sm := sm.(stateEnter := now);
    }

    /** The address is the fixed one or that of the EEPROM; the gateway's address is refused. */
    method TakeAddress()
      requires sm.state == StInit && sm.transportActive && !sm.uplinkOk
      modifies this`sm, this`nc, this`eeprom
      ensures nc == old(nc).(nodeId := if myNodeId != AUTO then myNodeId else old(nc.nodeId))
      ensures if nc.nodeId == GATEWAY_ADDRESS then Failed(old(sm), sm, now) else sm == old(sm)
    {
      if myNodeId != AUTO {
        nc := nc.(nodeId := myNodeId);
        eeprom := eeprom.(nodeId := myNodeId);
      }
      if nc.nodeId != AUTO {
        AssignNodeID(nc.nodeId);
      }
    }

    method UpdateParent(ghost named: bool)
      requires AtRest(named) && sm.state == StParent
      modifies this`sm, this`nc, this`out, this`tmpLast
      ensures AtRest(named)
      ensures var late, found := old(TimeInState()) > STATE_TIMEOUT, old(nc.parentNodeId) != AUTO;
        if found && (late || old(sm.preferredParentFound)) then sm.state == StID && nc == old(nc)
        else if !found && late then sm.state == (if old(sm.retries) < STATE_RETRIES then StParent else StFailure)
        else sm == old(sm) && nc == old(nc)
      ensures out ==
        if sm.state == StID && nc.nodeId == AUTO then Asking(old(out), nc.parentNodeId)
        else if sm.state == StParent && sm.retries != old(sm.retries) then Searching(old(out), nc.nodeId)
        else old(out)
      ensures sm.state == StParent && old(TimeInState()) > STATE_TIMEOUT ==>
        sm.retries == old(sm.retries) + 1 && sm.stateEnter == now && nc.parentNodeId == AUTO
    {
      if TimeInState() > STATE_TIMEOUT || sm.preferredParentFound {
        if nc.parentNodeId != AUTO {
          sm := sm.(findingParentNode := false);
          EnterID();
        } else if TimeInState() > STATE_TIMEOUT {
          if sm.retries < STATE_RETRIES {
            EnterParent();
          } else {
            EnterFailure();
          }
        }
      }
    }

    method EnterID()
      modifies this`sm, this`out, this`tmpLast
      ensures out == if nc.nodeId != AUTO || old(sm.findingParentNode) then old(out)
        else Asking(old(out), nc.parentNodeId)
      ensures sm == old(sm).(state := StID, stateEnter := now,
                             failedUplinkTransmissions := sm.failedUplinkTransmissions,
                             retries := if old(sm.state) == StID then (old(sm.retries) + 1) % 16 else 0)
    {
      BeginSwitch(StID);
      if nc.nodeId == AUTO {
        var _ := SendBuilt(GATEWAY_ADDRESS, I_ID_REQUEST, 0);
      }
      sm := sm.(stateEnter := now);
    }

    method UpdateID(ghost named: bool)
      requires AtRest(named) && sm.state == StID
      modifies this
      ensures AtRest(named)
      ensures if old(nc.nodeId) != AUTO then sm.state == StOK || sm.state == StParent
        else if old(TimeInState()) <= STATE_TIMEOUT then sm == old(sm)
        else sm.state == if old(sm.retries) < STATE_RETRIES then StID else StFailure
      ensures old(nc.nodeId) == AUTO ==> nc == old(nc) && tape == old(tape) && now == old(now)
      ensures old(nc.nodeId) == AUTO ==>
        out ==
          if sm.state == StID && old(TimeInState()) > STATE_TIMEOUT then Asking(old(out), nc.parentNodeId)
          else old(out)
      ensures sm.state == StID && old(TimeInState()) > STATE_TIMEOUT ==>
        sm.retries == old(sm.retries) + 1 && sm.stateEnter == now
      ensures old(nc.nodeId) != AUTO ==> Decided(old(View()), old(log))
      ensures old(nc.nodeId) != AUTO && HandlesAll(old(sm), old(checks), old(tape)) ==>
        log == old(log) + Drained(old(tape), MAX_SUBSEQ_MSGS)
    {
      if nc.nodeId != AUTO {
        EnterUplink(named);
      } else if TimeInState() > STATE_TIMEOUT {
        if sm.retries < STATE_RETRIES {
          EnterID();
        } else {
          EnterFailure();
        }
      }
    }

    /**
     The outcome of the uplink check: stOK exactly if a pong has answered the ping with a number of hops, and the
     radio is still powered exactly if nothing has powered it down meanwhile.
     */
    ghost predicate Decided(before: Ping, logged: seq<Happening>)
      reads this`sm, this`nc, this`log
    {
      && logged <= log
      && var p := AbsorbAll(myNodeId, before.(active := true, response := INVALID_HOPS), log[|logged|..]);
      (sm.state == StOK <==> p.response != INVALID_HOPS) && sm.transportActive == p.powered
    }

    /** The ping that decides between stOK and a new search; messages are handled while it waits. */
    method EnterUplink(ghost named: bool)
      requires Valid(named) && sm.state == StID && nc.nodeId != AUTO && !sm.pingActive
      modifies this
      ensures AtRest(named) && (sm.state == StOK || sm.state == StParent)
      ensures Decided(old(View()), old(log))
      ensures HandlesAll(old(sm), old(checks), old(tape)) ==> log == old(log) + Drained(old(tape), MAX_SUBSEQ_MSGS)
    {
      BeginSwitch(StUplink);
      var ok := CheckUplink(true, named);
      if ok {
        EnterOK();
      } else {
        EnterParent();
      }
      sm := sm.(stateEnter := now);
    }

    /**
     A node that is ready without a radio: the pong comes first, and in the same run through the queue an address that
     is none.
     */
    method ReadyWithoutRadio()
      requires AtRest(false) && sm.state == StID && IsAddress(nc.nodeId) && myNodeId == AUTO && sm.transportActive
      requires checks == []
      requires var pong := Internal(GATEWAY_ADDRESS, nc.parentNodeId, nc.nodeId, I_PONG, 1);
        var refusal := Internal(GATEWAY_ADDRESS, nc.parentNodeId, nc.nodeId, I_ID_RESPONSE, AUTO);
        tape == [Arrives(pong, true, false), Arrives(refusal, true, false)]
      modifies this
      ensures sm.state == StOK && sm.uplinkOk && !sm.transportActive
    {
      ghost var p := View().(active := true, response := INVALID_HOPS);
      ghost var logged, hs := log, [Hearing(tape[0]), Hearing(tape[1])];
      QueueOfTwo(tape);
      AbsorbTwo(myNodeId, p, hs);
      UpdateID(false);
      assert log[|logged|..] == hs;
    }

    method EnterOK()
      modifies this`sm
      ensures sm == old(sm).(state := StOK, uplinkOk := true, stateEnter := now, retries := sm.retries)
    {
      BeginSwitch(StOK);
      sm := sm.(uplinkOk := true);
      sm := sm.(stateEnter := now);
    }

    method UpdateOK(ghost named: bool)
      requires AtRest(named) && sm.state == StOK
      modifies this`sm, this`nc, this`out, this`tmpLast
      ensures AtRest(named)
      ensures if old(sm.failedUplinkTransmissions) > (if isRepeater then 10 else 5) && !staticParent
        then sm.state == StParent && sm.retries == 0 && out == Searching(old(out), nc.nodeId)
        else sm.state == StOK && nc == old(nc) && out == old(out)
    {
      if sm.failedUplinkTransmissions > (if isRepeater then 10 else 5) {
        if !staticParent {
          EnterParent();
        } else {
          sm := sm.(failedUplinkTransmissions := 0);
        }
      }
    }

    method UpdateFailure(ghost named: bool)
      requires AtRest(named) && sm.state == StFailure
      modifies this`sm, this`nc, this`eeprom, this`lastUplinkCheck, this`out, this`tmpLast
      ensures AtRest(named)
      ensures old(TimeInState()) <= TIMEOUT_FAILURE_STATE ==> sm == old(sm)
      ensures old(TimeInState()) > TIMEOUT_FAILURE_STATE ==> sm.state == if comesUp(now) then StParent else StFailure
    {
      if TimeInState() > TIMEOUT_FAILURE_STATE {
        EnterInit(named);
      }
    }

    /** The node searches for a parent or asks for an address, and has had no answer. */
    predicate Unanswered()
      reads this
    {
      (sm.state == StParent && nc.parentNodeId == AUTO) || (sm.state == StID && nc.nodeId == AUTO)
    }

    /** transportProcess: one update of the state machine, then the messages. */
    method Process(ghost named: bool)
      requires AtRest(named)
      modifies this
      ensures AtRest(named)
      ensures old(Unanswered()) && old(TimeInState()) > STATE_TIMEOUT && (old(tape) == [] || old(tape)[0].Passes?) ==>
        && tape == old(tape) && now == old(now)
        && (sm.state == StFailure
          || (old(sm.retries) < STATE_RETRIES && Unanswered()
              && sm.retries == old(sm.retries) + 1 && sm.stateEnter == now))
    {
      match sm.state {
        case StParent => UpdateParent(named);
        case StID => UpdateID(named);
        case StOK => UpdateOK(named);
        case StFailure => UpdateFailure(named);
      }
      ProcessFIFO(named);
    }

    /** transportInitialize and any number of calls of transportProcess, with time passing in between. */
    method Run(rounds: nat, ghost named: bool)
      requires named ==> AllNamed(tape) && AllSentNamed(out.sent)
      modifies this
      ensures AtRest(named)
    {
      sm := sm.(state := StFailure, stateEnter := now, uplinkOk := false, transportActive := false,
                pingActive := false);
      lastUplinkCheck := 0;
      EnterInit(named);
      for i := 0 to rounds
        invariant AtRest(named)
      {
        Process(named);
        Elapse();
      }
    }

    /** Without answers the node gives up after at most four timeouts. */
    method Starve(ghost named: bool) returns (timeouts: nat)
      requires AtRest(named) && Unanswered() && now - sm.stateEnter < CLOCK_RANGE / 2 && |tape| > STATE_RETRIES
      requires AllSilent(tape)
      modifies this
      ensures AtRest(named) && sm.state == StFailure && timeouts <= STATE_RETRIES + 1 - old(sm.retries)
    {
      timeouts := 0;
      while Unanswered()
        invariant AtRest(named) && (Unanswered() || sm.state == StFailure) && |tape| + timeouts == |old(tape)|
        invariant AllSilent(tape) && timeouts <= STATE_RETRIES + 1 - old(sm.retries)
        invariant Unanswered() ==> sm.retries == old(sm.retries) + timeouts && now - sm.stateEnter < CLOCK_RANGE / 2
        decreases |tape|
      {
        Elapse();
        Process(named);
        timeouts := timeouts + 1;
      }
    }

    /** Why named is needed: an answer from no address makes a node that is ready forget its parent. */
    method AnswerFromNowhere()
      requires Consistent(sm, nc, true) && sm.state == StOK && !sm.preferredParentFound && nc.distance > 1
      modifies this`sm, this`nc
      ensures sm.state == StOK && nc.parentNodeId == AUTO && !Consistent(sm, nc, true)
    {
      ConsiderParent(AUTO, 0);
    }
  }

  lemma QueueOfTwo(tape: seq<Event>)
    requires |tape| == 2 && tape[0].Arrives? && tape[1].Arrives?
    ensures Drained(tape, MAX_SUBSEQ_MSGS) == [Hearing(tape[0]), Hearing(tape[1])]
  {
    var last := tape[1..];
    assert last[1..] == [] && Drained([], 3) == [];
    assert Drained(last, 4) == [Hearing(last[0])] + Drained(last[1..], 3);
    assert Drained(tape, 5) == [Hearing(tape[0])] + Drained(last, 4);
  }

  lemma AbsorbTwo(my: Id, p: Ping, hs: seq<Happening>)
    requires |hs| == 2
    ensures AbsorbAll(my, p, hs) == Absorb(my, Absorb(my, p, hs[0]), hs[1])
  {
    AbsorbStep(my, p, [], hs[0]);
    AbsorbStep(my, p, [hs[0]], hs[1]);
    assert [] + [hs[0]] == [hs[0]] && [hs[0]] + [hs[1]] == hs;
  }
}
