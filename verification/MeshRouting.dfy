/**
 A whole network of MyTransport.cpp nodes with fixed parents: messages in the air, to be delivered in any order or lost,
 and the routing tables that the nodes learn from them.
 */
module MeshRouting {
  import opened MeshMessages
  import opened MessageTypes
  import opened Sequences

  /**
   The parent and depth of every node, and whether it is a repeater; the gateway is the root and its own parent.  Only
   repeaters have children.
   */
  datatype Tree = Tree(parent: seq<Id>, depth: seq<nat>, repeater: seq<bool>)

  ghost predicate IsTree(t: Tree) {
    && |t.parent| == |t.depth| == |t.repeater| == 256
    && t.parent[GATEWAY_ADDRESS] == GATEWAY_ADDRESS && t.depth[GATEWAY_ADDRESS] == 0
    && (forall n: Id :: t.repeater[t.parent[n]])
    && forall n: Id :: t.parent[n] != AUTO && (n != GATEWAY_ADDRESS ==> t.depth[n] == t.depth[t.parent[n]] + 1)
  }

  /** The ancestor of n at depth d. */
  function Climb(t: Tree, n: Id, d: nat): (k: Id)
    requires IsTree(t) && d <= t.depth[n]
    ensures t.depth[k] == d
    decreases t.depth[n]
  {
    if t.depth[n] == d then n else Climb(t, t.parent[n], d)
  }

  predicate Below(t: Tree, k: Id, n: Id)
    requires IsTree(t)
  {
    t.depth[k] < t.depth[n] && Climb(t, n, t.depth[k]) == k
  }

  predicate OnPath(t: Tree, k: Id, n: Id)
    requires IsTree(t)
  {
    k == n || Below(t, k, n)
  }

  /** The child of k on the way down to n. */
  function Child(t: Tree, k: Id, n: Id): Id
    requires IsTree(t) && Below(t, k, n)
  {
    Climb(t, n, t.depth[k] + 1)
  }

  lemma {:induction false} ClimbStep(t: Tree, n: Id, d: nat)
    requires IsTree(t) && d < t.depth[n]
    ensures t.parent[Climb(t, n, d + 1)] == Climb(t, n, d)
    decreases t.depth[n]
  {
    if t.depth[n] <= d + 1 {
    } else {
      ClimbStep(t, t.parent[n], d);
    }
  }

  /** 255 is not on the way of any other node. */
  lemma {:induction false} PathHasAddresses(t: Tree, n: Id, d: nat)
    requires IsTree(t) && d <= t.depth[n] && n != AUTO
    ensures Climb(t, n, d) != AUTO
    decreases t.depth[n]
  {
    if t.depth[n] == d {
    } else {
      PathHasAddresses(t, t.parent[n], d);
    }
  }

  /** A child on the way down is a node on the path whose parent is k. */
  lemma ChildIsBelow(t: Tree, k: Id, n: Id)
    requires IsTree(t) && Below(t, k, n)
    ensures t.parent[Child(t, k, n)] == k && OnPath(t, Child(t, k, n), n) && Child(t, k, n) != GATEWAY_ADDRESS
  {
    ClimbStep(t, n, t.depth[k]);
    ClimbSame(t, n);
  }

  lemma ClimbSame(t: Tree, n: Id)
    requires IsTree(t)
    ensures Climb(t, n, t.depth[n]) == n
  {
  }

  /** The parent of a node on the path of n is on it, and the node is the child towards n. */
  lemma ParentOnPath(t: Tree, k: Id, n: Id)
    requires IsTree(t) && OnPath(t, k, n) && k != GATEWAY_ADDRESS
    ensures Below(t, t.parent[k], n) && Child(t, t.parent[k], n) == k
  {
    assert t.depth[k] == t.depth[t.parent[k]] + 1;
    ClimbSame(t, n);
    ClimbStep(t, n, t.depth[t.parent[k]]);
  }

  // The network

  datatype Packet = Packet(to: Id, m: Message)

  /** The tables of all nodes, the packets in the air, and the pongs that have come back, each with its receiver. */
  datatype Net = Net(routes: seq<Routes>, air: seq<Packet>, pongs: seq<(Id, Id)>)

  /** A repeater routes, any other node sends all to its parent. */
  function Send(t: Tree, k: Id, routes: Routes, m: Message): seq<Packet>
    requires IsTree(t)
  {
    var hop := Hop(t.repeater[k], t.parent[k], routes, m.last, m.destination);
    if hop == k then [] else [Packet(hop, m.(last := k))]
  }

  predicate IsPing(m: Message) {
    m.command == C_INTERNAL && m.mtype == I_PING && !m.ack
  }

  predicate IsPong(m: Message) {
    m.command == C_INTERNAL && m.mtype == I_PONG && !m.ack
  }

  /** What node k sends when m arrives; last is left over in the buffer that a pong is built in. */
  function Answer(t: Tree, k: Id, routes: Routes, m: Message, last: Id): seq<Packet>
    requires IsTree(t)
  {
    if m.destination != k then Passes(t, k, routes, m) else Acks(t, k, routes, m) + Pongs(t, k, routes, m, last)
  }

  function Passes(t: Tree, k: Id, routes: Routes, m: Message): seq<Packet>
    requires IsTree(t)
  {
    if t.repeater[k] then Send(t, k, routes, Counted(m)) else []
  }

  function Acks(t: Tree, k: Id, routes: Routes, m: Message): seq<Packet>
    requires IsTree(t)
  {
    if m.requestAck then Send(t, k, routes, Ack(k, m)) else []
  }

  function Pongs(t: Tree, k: Id, routes: Routes, m: Message, last: Id): seq<Packet>
    requires IsTree(t)
  {
    if IsPing(m) then Send(t, k, routes, Internal(k, last, m.sender, I_PONG, 1)) else []
  }

  datatype Event = Originate(m: Message) | Deliver(i: nat, last: Id) | Lose(i: nat)

  ghost predicate Step(t: Tree, s: Net, e: Event, s': Net)
    requires IsTree(t) && |s.routes| == 256
  {
    match e
    case Originate(m) =>
      && Original(t, s, m)
      && s' == s.(air := s.air + Send(t, m.sender, s.routes[m.sender], m))
    case Deliver(i, last) =>
      && i < |s.air|
      && var k, m := s.air[i].to, s.air[i].m;
      && var table := if t.repeater[k] then Learned(t.parent[k], s.routes[k], m) else s.routes[k];
      && s' == Net(s.routes[k := table], DropAt(s.air, i) + Answer(t, k, table, m, last),
                   if m.destination == k && IsPong(m) && m.sender == GATEWAY_ADDRESS then s.pongs + [(k, m.value)]
                   else s.pongs)
    case Lose(i) =>
      i < |s.air| && s' == s.(air := DropAt(s.air, i))
  }

  /**
   A message that a program sends: under the own address, unicast, to another node.  Its field last is left over from
   the message before.  A message to a node without a route goes up, if that field does not name the parent; the
   gateway sends only where it has a route, and a node that is no repeater always sends up.  Pings go to the gateway
   and start their counter at 1; pongs are answers. Acknowledgements are asked for only of nodes that have a way back.
   */
  predicate Original(t: Tree, s: Net, m: Message)
    requires IsTree(t) && |s.routes| == 256
  {
    && m.sender != AUTO && m.destination != BROADCAST_ADDRESS && m.destination != m.sender
    && (m.destination == GATEWAY_ADDRESS || s.routes[m.sender][m.destination] != AUTO
        || (m.sender != GATEWAY_ADDRESS && (m.last != t.parent[m.sender] || !t.repeater[m.sender])))
    && !(m.command == C_INTERNAL && m.mtype == I_PONG)
    && (m.command == C_INTERNAL && m.mtype == I_PING ==> m.destination == GATEWAY_ADDRESS && m.value == 1)
    && (m.requestAck ==> HasWayBack(t, m))
  }

  /** The receiver of m can send to its sender: it only sends up, or that is the gateway, its parent or a descendant. */
  predicate HasWayBack(t: Tree, m: Message)
    requires IsTree(t)
  {
    || !t.repeater[m.destination] || m.sender == GATEWAY_ADDRESS || t.parent[m.destination] == m.sender
    || Below(t, m.destination, m.sender)
  }

  // What every run keeps

  /** A route is the child on the way, and the way on from there is known as well. */
  ghost predicate RouteOk(t: Tree, routes: seq<Routes>, k: Id, n: Id)
    requires IsTree(t) && |routes| == 256
  {
    routes[k][n] != AUTO ==>
      Below(t, k, n) && routes[k][n] == Child(t, k, n) && Known(routes, routes[k][n], n)
  }

  /** Node k is n or has a route to n. */
  predicate Known(routes: seq<Routes>, k: Id, n: Id)
    requires |routes| == 256
  {
    k == n || routes[k][n] != AUTO
  }

  function Cap(d: nat): Id {
    if d < MAX_HOPS then d else MAX_HOPS
  }

  /** On the way up from its sender, which every node passed has learned to reach. */
  ghost predicate Rising(t: Tree, routes: seq<Routes>, p: Packet)
    requires IsTree(t) && |routes| == 256
  {
    && Upward(t, p)
    && Known(routes, p.m.last, p.m.sender)
    && (IsPing(p.m) ==> p.m.value == Cap(t.depth[p.m.sender] - t.depth[p.m.last] + 1))
  }

  /** On the way down to its destination. */
  ghost predicate Falling(t: Tree, routes: seq<Routes>, p: Packet)
    requires IsTree(t) && |routes| == 256
  {
    && OnPath(t, p.to, p.m.destination) && p.to != GATEWAY_ADDRESS && p.m.last == t.parent[p.to]
    && Known(routes, p.to, p.m.destination)
    && (IsPong(p.m) && p.m.sender == GATEWAY_ADDRESS ==> p.m.value == Cap(t.depth[p.to]) && !p.m.requestAck)
  }

  ghost predicate PacketOk(t: Tree, routes: seq<Routes>, p: Packet)
    requires IsTree(t) && |routes| == 256
  {
    && p.m.sender != AUTO && p.m.destination != BROADCAST_ADDRESS
    && (Rising(t, routes, p) || Falling(t, routes, p))
    && (p.m.sender == GATEWAY_ADDRESS ==> Falling(t, routes, p))
    && (IsPing(p.m) ==> p.m.destination == GATEWAY_ADDRESS)
  }

  /** A packet that asks for an acknowledgement: a descendant's is on its way up and has not passed its destination. */
  predicate AckOk(t: Tree, p: Packet)
    requires IsTree(t)
  {
    p.m.requestAck ==>
      || !t.repeater[p.m.destination] || p.m.sender == GATEWAY_ADDRESS || t.parent[p.m.destination] == p.m.sender
      || (Below(t, p.m.destination, p.m.sender) && Upward(t, p) && t.depth[p.m.destination] <= t.depth[p.to])
  }

  /** From a node on the path of the sender to its parent. */
  predicate Upward(t: Tree, p: Packet)
    requires IsTree(t)
  {
    OnPath(t, p.m.last, p.m.sender) && p.m.last != GATEWAY_ADDRESS && p.to == t.parent[p.m.last]
  }

  predicate AcksOk(t: Tree, air: seq<Packet>)
    requires IsTree(t)
  {
    forall i :: 0 <= i < |air| ==> AckOk(t, air[i])
  }

  /** A pong comes back with the depth of the node that sent the ping. */
  predicate PongOk(t: Tree, pong: (Id, Id))
    requires IsTree(t)
  {
    pong.1 == Cap(t.depth[pong.0])
  }

  ghost predicate Inv(t: Tree, s: Net)
    requires IsTree(t)
  {
    && |s.routes| == 256
    && RoutesOk(t, s.routes) && AllOk(t, s.routes, s.air) && AcksOk(t, s.air)
    && (forall i :: 0 <= i < |s.pongs| ==> PongOk(t, s.pongs[i]))
  }

  // Proofs

  /** Tables only gain routes. */
  ghost predicate Extends(routes: seq<Routes>, routes': seq<Routes>)
    requires |routes| == |routes'| == 256
  {
    forall k: Id, n: Id :: routes[k][n] != AUTO ==> routes'[k][n] == routes[k][n]
  }

  ghost predicate RoutesOk(t: Tree, routes: seq<Routes>)
    requires IsTree(t) && |routes| == 256
  {
    forall k: Id, n: Id :: RouteOk(t, routes, k, n)
  }

  /** A node learns the way to the sender of a rising packet. */
  lemma LearnKeeps(t: Tree, routes: seq<Routes>, p: Packet)
    requires IsTree(t) && |routes| == 256 && RoutesOk(t, routes) && Rising(t, routes, p) && p.m.sender != AUTO
    ensures
      var k, n := p.to, p.m.sender;
      var routes' := routes[k := Learned(t.parent[k], routes[k], p.m)];
      && RoutesOk(t, routes') && Extends(routes, routes')
      && Below(t, k, n) && routes'[k][n] != AUTO
  {
    var k, n, last := p.to, p.m.sender, p.m.last;
    var routes' := routes[k := Learned(t.parent[k], routes[k], p.m)];
    ParentOnPath(t, last, n);
    PathHasAddresses(t, n, t.depth[last]);
    ClimbSame(t, n);
    assert t.depth[last] == t.depth[k] + 1 && last != t.parent[k] && routes'[k][n] == last != AUTO;
    assert RouteOk(t, routes, k, n);
    forall a: Id, b: Id
      ensures RouteOk(t, routes', a, b)
    {
      assert RouteOk(t, routes, a, b);
    }
  }

  lemma PacketStays(t: Tree, routes: seq<Routes>, routes': seq<Routes>, p: Packet)
    requires IsTree(t) && |routes| == |routes'| == 256 && Extends(routes, routes') && PacketOk(t, routes, p)
    ensures PacketOk(t, routes', p)
  {
  }

  /** A packet sent to the parent. */
  lemma SentUp(t: Tree, routes: seq<Routes>, k: Id, m: Message)
    requires IsTree(t) && |routes| == 256 && k != GATEWAY_ADDRESS && m.sender != AUTO
    requires m.destination != BROADCAST_ADDRESS && OnPath(t, k, m.sender) && Known(routes, k, m.sender)
    requires m.sender != GATEWAY_ADDRESS
    requires IsPing(m) ==> m.value == Cap(t.depth[m.sender] - t.depth[k] + 1) && m.destination == GATEWAY_ADDRESS
    ensures PacketOk(t, routes, Packet(t.parent[k], m.(last := k)))
  {
  }

  /** A packet sent along a known route. */
  lemma SentDown(t: Tree, routes: seq<Routes>, k: Id, m: Message)
    requires IsTree(t) && |routes| == 256 && RoutesOk(t, routes) && m.sender != AUTO
    requires m.destination != BROADCAST_ADDRESS && routes[k][m.destination] != AUTO
    requires IsPong(m) && m.sender == GATEWAY_ADDRESS ==> m.value == Cap(t.depth[k] + 1) && !m.requestAck
    requires IsPing(m) ==> m.destination == GATEWAY_ADDRESS
    ensures PacketOk(t, routes, Packet(routes[k][m.destination], m.(last := k))) && routes[k][m.destination] != k
    ensures m.destination != GATEWAY_ADDRESS
  {
    assert RouteOk(t, routes, k, m.destination);
    ChildIsBelow(t, k, m.destination);
    var c := Child(t, k, m.destination);
    assert t.depth[c] == t.depth[k] + 1;
  }

  ghost predicate AllOk(t: Tree, routes: seq<Routes>, air: seq<Packet>)
    requires IsTree(t) && |routes| == 256
  {
    forall i :: 0 <= i < |air| ==> PacketOk(t, routes, air[i])
  }

  /** A packet on the way up is passed on, turns down, or is answered. */
  lemma RisingAnswered(t: Tree, routes: seq<Routes>, p: Packet, last: Id)
    requires IsTree(t) && |routes| == 256 && RoutesOk(t, routes) && Rising(t, routes, p) && PacketOk(t, routes, p)
    requires Below(t, p.to, p.m.sender) && routes[p.to][p.m.sender] != AUTO
    ensures AllOk(t, routes, Answer(t, p.to, routes[p.to], p.m, last))
  {
    var k, m, n := p.to, p.m, p.m.sender;
    ParentOnPath(t, m.last, n);
    assert t.depth[m.last] == t.depth[k] + 1;
    if m.destination == k {
      SentDown(t, routes, k, Ack(k, m));
      if IsPing(m) {
        SentDown(t, routes, k, Internal(k, last, n, I_PONG, 1));
      }
    } else {
      var m' := Counted(m);
      if m.destination != GATEWAY_ADDRESS && routes[k][m.destination] != AUTO {
        SentDown(t, routes, k, m');
      } else if k != GATEWAY_ADDRESS {
        SentUp(t, routes, k, m');
      }
    }
  }

  /** A packet on the way down is passed on along known routes, or is answered. */
  lemma FallingAnswered(t: Tree, routes: seq<Routes>, p: Packet, last: Id)
    requires IsTree(t) && |routes| == 256 && RoutesOk(t, routes) && Falling(t, routes, p) && PacketOk(t, routes, p)
    requires p.to != AUTO && (p.m.destination == p.to && p.m.requestAck ==> WayBack(t, routes, p.to, p.m.sender))
    ensures AllOk(t, routes, Answer(t, p.to, routes[p.to], p.m, last))
  {
    var k, m := p.to, p.m;
    if m.destination != k {
      SentDown(t, routes, k, Counted(m));
    } else if m.requestAck {
      assert RouteOk(t, routes, k, k);
      AckSent(t, routes, p);
    }
  }

  /** A node that only sends up has one to all; else to the gateway, a neighbour, or a node with a known route. */
  predicate WayBack(t: Tree, routes: seq<Routes>, k: Id, n: Id)
    requires IsTree(t) && |routes| == 256
  {
    !t.repeater[k] || n == GATEWAY_ADDRESS || routes[k][n] != AUTO || t.parent[k] == n || t.parent[n] == k
  }

  /**
   The acknowledgement of a packet that has come down: it is in order exactly if its sender is no repeater, or its
   receiver is the gateway, a neighbour in the tree, or a node with a known route.  To any other it is sent past the
   tree.
   */
  lemma AckSent(t: Tree, routes: seq<Routes>, p: Packet)
    requires IsTree(t) && |routes| == 256 && RoutesOk(t, routes) && Falling(t, routes, p) && PacketOk(t, routes, p)
    requires p.to == p.m.destination && p.m.requestAck && (t.repeater[p.to] ==> p.m.sender != p.to)
    ensures AllOk(t, routes, Acks(t, p.to, routes[p.to], p.m)) <==> WayBack(t, routes, p.to, p.m.sender)
  {
    var k, m := p.to, p.m;
    var ack := Ack(k, m);
    if m.sender == GATEWAY_ADDRESS || !t.repeater[k] {
      SentUp(t, routes, k, ack);
    } else if routes[k][m.sender] != AUTO {
      SentDown(t, routes, k, ack);
    } else {
      var sent := Packet(m.sender, ack.(last := k));
      assert Acks(t, k, routes[k], m) == [sent] && [sent][0] == sent;
      assert Rising(t, routes, sent) <==> t.parent[k] == m.sender;
      assert Falling(t, routes, sent) <==> t.parent[m.sender] == k;
    }
  }

  lemma PathToAddress(t: Tree, k: Id, n: Id)
    requires IsTree(t) && OnPath(t, k, n) && n != AUTO
    ensures k != AUTO
  {
    PathHasAddresses(t, n, t.depth[k]);
  }

  /** What asks for an acknowledgement still has a way back when it is passed on. */
  lemma PassedOn(t: Tree, routes: Routes, p: Packet)
    requires IsTree(t) && AckOk(t, p) && p.m.destination != p.to && p.m.destination != BROADCAST_ADDRESS
    requires routes[p.m.destination] != AUTO ==> Below(t, p.to, p.m.destination)
    ensures AcksOk(t, Send(t, p.to, routes, Counted(p.m)))
  {
    var k, m := p.to, p.m;
    if m.requestAck && t.repeater[m.destination] && m.sender != GATEWAY_ADDRESS && t.parent[m.destination] != m.sender {
      ParentOnPath(t, m.last, m.sender);
      assert t.depth[m.destination] < t.depth[k];
    }
  }

  /** Past the tree: the receiver of such an acknowledgement learns a route that leads along no edge of the tree. */
  lemma AckAstray(t: Tree, routes: seq<Routes>, p: Packet)
    requires IsTree(t) && |routes| == 256 && RoutesOk(t, routes) && Falling(t, routes, p) && PacketOk(t, routes, p)
    requires p.to == p.m.destination && p.m.requestAck && p.m.sender != p.to
    requires !WayBack(t, routes, p.to, p.m.sender)
    ensures
      var k, n := p.to, p.m.sender;
      var ack := Ack(k, p.m).(last := k);
      && Acks(t, k, routes[k], p.m) == [Packet(n, ack)]
      && !RouteOk(t, routes[n := Learned(t.parent[n], routes[n], ack)], n, k)
  {
    var k, n := p.to, p.m.sender;
    PathToAddress(t, k, p.m.destination);
    if Below(t, n, k) && Child(t, n, k) == k {
      ChildIsBelow(t, n, k);
    }
  }

  /** Delivery: the receiving node learns, and what it sends is in order. */
  lemma DeliveryKeeps(t: Tree, routes: seq<Routes>, p: Packet, last: Id)
    requires IsTree(t) && |routes| == 256 && RoutesOk(t, routes) && PacketOk(t, routes, p) && AckOk(t, p)
    ensures
      var routes' := routes[p.to := Learned(t.parent[p.to], routes[p.to], p.m)];
      && RoutesOk(t, routes') && Extends(routes, routes')
      && AllOk(t, routes', Answer(t, p.to, routes'[p.to], p.m, last))
      && AcksOk(t, Answer(t, p.to, routes'[p.to], p.m, last))
  {
    var routes' := routes[p.to := Learned(t.parent[p.to], routes[p.to], p.m)];
    if Rising(t, routes, p) {
      LearnKeeps(t, routes, p);
      PacketStays(t, routes, routes', p);
      RisingAnswered(t, routes', p, last);
    } else {
      assert routes' == routes;
      PathToAddress(t, p.to, p.m.destination);
      FallingAnswered(t, routes, p, last);
    }
    if p.to != p.m.destination {
      assert RouteOk(t, routes', p.to, p.m.destination);
      PassedOn(t, routes'[p.to], p);
    }
  }

  lemma OriginalOk(t: Tree, s: Net, m: Message)
    requires IsTree(t) && Inv(t, s) && Original(t, s, m)
    ensures AllOk(t, s.routes, Send(t, m.sender, s.routes[m.sender], m))
    ensures AcksOk(t, Send(t, m.sender, s.routes[m.sender], m))
  {
    var n := m.sender;
    if m.destination != GATEWAY_ADDRESS && s.routes[n][m.destination] != AUTO {
      SentDown(t, s.routes, n, m);
    } else if n != GATEWAY_ADDRESS {
      SentUp(t, s.routes, n, m);
    }
  }

  lemma PacketsStay(t: Tree, routes: seq<Routes>, routes': seq<Routes>, air: seq<Packet>)
    requires IsTree(t) && |routes| == |routes'| == 256 && Extends(routes, routes') && AllOk(t, routes, air)
    ensures AllOk(t, routes', air)
  {
    forall i | 0 <= i < |air|
      ensures PacketOk(t, routes', air[i])
    {
      PacketStays(t, routes, routes', air[i]);
    }
  }

  /** Every step of the network keeps the invariant. */
  lemma StepKeeps(t: Tree, s: Net, e: Event, s': Net)
    requires IsTree(t) && Inv(t, s) && Step(t, s, e, s')
    ensures Inv(t, s') && Extends(s.routes, s'.routes)
  {
    match e
    case Originate(m) =>
      OriginalOk(t, s, m);
    case Deliver(i, last) =>
      DeliveryKeeps(t, s.routes, s.air[i], last);
      PacketsStay(t, s.routes, s'.routes, DropAt(s.air, i));
    case Lose(i) =>
  }

  ghost predicate IsRun(t: Tree, ss: seq<Net>, es: seq<Event>)
    requires IsTree(t)
  {
    && |ss| == |es| + 1 && ss[0] == Net(seq(256, k => NoRoutes()), [], [])
    && forall i :: 0 <= i < |es| ==> |ss[i].routes| == 256 && Step(t, ss[i], es[i], ss[i + 1])
  }

  /**
   Over any interleaving of messages, deliveries and losses: every route leads one hop down the tree towards its node
   and goes on to be known, and every pong that has come back carries the depth of its receiver.
   */
  lemma {:induction false} RunKeeps(t: Tree, ss: seq<Net>, es: seq<Event>, i: nat)
    requires IsTree(t) && IsRun(t, ss, es) && i <= |es|
    ensures Inv(t, ss[i])
  {
    if i == 0 {
    } else {
      RunKeeps(t, ss, es, i - 1);
      StepKeeps(t, ss[i - 1], es[i - 1], ss[i]);
    }
  }

  /** Every pong that has come back carries the depth of its receiver, up to 254, and never the mark for no answer. */
  lemma PongsCountHops(t: Tree, ss: seq<Net>, es: seq<Event>, i: nat, j: nat)
    requires IsTree(t) && IsRun(t, ss, es) && i <= |es| && j < |ss[i].pongs|
    ensures var (n, hops) := ss[i].pongs[j];
      hops == (if t.depth[n] < MAX_HOPS then t.depth[n] else MAX_HOPS) && hops != INVALID_HOPS
  {
    RunKeeps(t, ss, es, i);
    assert PongOk(t, ss[i].pongs[j]);
  }

  /** Each entry of a routing table is unset, or the child on the way to its node. */
  lemma RoutesAreTreeEdges(t: Tree, ss: seq<Net>, es: seq<Event>, i: nat, k: Id, n: Id)
    requires IsTree(t) && IsRun(t, ss, es) && i <= |es| && |ss[i].routes| == 256
    ensures ss[i].routes[k][n] == AUTO || (Below(t, k, n) && ss[i].routes[k][n] == Child(t, k, n))
  {
    RunKeeps(t, ss, es, i);
    assert RouteOk(t, ss[i].routes, k, n);
  }

  /** A ping that reaches the gateway is answered towards the child that it came through, whatever its buffer holds. */
  lemma PingIsAnswered(t: Tree, s: Net, i: nat, last: Id, s': Net)
    requires IsTree(t) && Inv(t, s) && Step(t, s, Deliver(i, last), s')
    requires s.air[i].to == GATEWAY_ADDRESS && IsPing(s.air[i].m)
    ensures
      var m := s.air[i].m;
      && Below(t, GATEWAY_ADDRESS, m.sender)
      && var child := Child(t, GATEWAY_ADDRESS, m.sender);
      var pong := Internal(GATEWAY_ADDRESS, GATEWAY_ADDRESS, m.sender, I_PONG, 1);
      var ack := Ack(GATEWAY_ADDRESS, m).(last := GATEWAY_ADDRESS);
      s'.air == DropAt(s.air, i) + (if m.requestAck then [Packet(child, ack)] else []) + [Packet(child, pong)]
  {
    DeliveryKeeps(t, s.routes, s.air[i], last);
    LearnKeeps(t, s.routes, s.air[i]);
    assert RouteOk(t, s'.routes, GATEWAY_ADDRESS, s.air[i].m.sender);
    ChildIsBelow(t, GATEWAY_ADDRESS, s.air[i].m.sender);
  }

  /** A pong goes on to the child on the way to its destination, and counts that hop; at its destination it ends. */
  lemma PongGoesDown(t: Tree, s: Net, i: nat, last: Id, s': Net)
    requires IsTree(t) && Inv(t, s) && Step(t, s, Deliver(i, last), s')
    requires IsPong(s.air[i].m) && s.air[i].m.sender == GATEWAY_ADDRESS
    ensures
      var k, m := s.air[i].to, s.air[i].m;
      if k == m.destination then
        s'.air == DropAt(s.air, i) && s'.pongs == s.pongs + [(k, Cap(t.depth[k]))]
      else
        && Below(t, k, m.destination) && s'.pongs == s.pongs
        && s'.air == DropAt(s.air, i) +
             [Packet(Child(t, k, m.destination), m.(last := k, value := Cap(t.depth[k] + 1)))]
  {
    var k, m := s.air[i].to, s.air[i].m;
    assert Falling(t, s.routes, s.air[i]);
    if k != m.destination {
      assert RouteOk(t, s.routes, k, m.destination);
      ChildIsBelow(t, k, m.destination);
    }
  }
}
