/** Messages between nodes, and how MyTransport.cpp routes them. */
module MeshMessages {
  import opened MessageTypes

  type Id = n: nat | n < 0x100

  const GATEWAY_ADDRESS: Id := 0
  /** 255 stands for no node: an unknown address, an unset route, and the address of a broadcast. */
  const AUTO: Id := 255
  const BROADCAST_ADDRESS: Id := 255
  const DISTANCE_INVALID: Id := 255
  const MAX_HOPS: Id := 254
  const INVALID_HOPS: Id := 255

  /** The header fields that routing looks at, and the first byte of the payload. */
  datatype Message = Message(sender: Id, last: Id, destination: Id, command: nat, mtype: nat, requestAck: bool,
                             ack: bool, value: Id)

  /** build: a new internal message, in a buffer whose field last is left over from its last use. */
  function Internal(sender: Id, last: Id, destination: Id, mtype: nat, value: Id): Message {
    Message(sender, last, destination, C_INTERNAL, mtype, false, false, value)
  }

  /** The acknowledgement that node id sends for m: a copy that goes back, its field last left as it came. */
  function Ack(id: Id, m: Message): Message {
    m.(requestAck := false, ack := true, sender := id, destination := m.sender)
  }

  /** The routing table in the EEPROM; AUTO where no route has been learned. */
  type Routes = r: seq<Id> | |r| == 256 witness seq(256, i => AUTO)

  function NoRoutes(): Routes {
    seq(256, i => AUTO)
  }

  /** The neighbour to which a repeater sends a message. */
  function NextHop(parent: Id, routes: Routes, last: Id, destination: Id): Id {
    if destination == GATEWAY_ADDRESS then parent
    else if destination == BROADCAST_ADDRESS then BROADCAST_ADDRESS
    else if routes[destination] != AUTO then routes[destination]
    else if last != parent then parent
    else destination
  }

  /** The neighbour to which any node sends: one that is no repeater has only its parent. */
  function Hop(isRepeater: bool, parent: Id, routes: Routes, last: Id, destination: Id): Id {
    if isRepeater then NextHop(parent, routes, last, destination)
    else if destination == BROADCAST_ADDRESS then BROADCAST_ADDRESS
    else parent
  }

  /** A message not from the parent shows the way to its sender. */
  function Learned(parent: Id, routes: Routes, m: Message): Routes {
    if m.last != parent then routes[m.sender := m.last] else routes
  }

  /** The hop counter of a ping or pong that is passed on. */
  function Counted(m: Message): Message {
    if m.command == C_INTERNAL && (m.mtype == I_PING || m.mtype == I_PONG) && m.value != MAX_HOPS then
      m.(value := (m.value + 1) % 0x100)
    else
      m
  }

  /** Controlled flooding: only what comes from the parent, and never the own broadcast. */
  predicate ForwardsBroadcast(id: Id, parent: Id, m: Message) {
    m.last == parent && m.sender != id
  }
}
