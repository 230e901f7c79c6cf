/** The commands of MyMessage.h, and the types of internal messages. */
module MessageTypes {

  const C_INTERNAL := 3
  const C_STREAM := 4

  const I_ID_REQUEST := 3
  const I_ID_RESPONSE := 4
  const I_FIND_PARENT := 7
  const I_FIND_PARENT_RESPONSE := 8
  const I_SIGNING_PRESENTATION := 15
  const I_NONCE_REQUEST := 16
  const I_NONCE_RESPONSE := 17
  const I_HEARTBEAT := 18
  const I_DISCOVER := 20
  const I_DISCOVER_RESPONSE := 21
  const I_HEARTBEAT_RESPONSE := 22
  const I_PING := 24
  const I_PONG := 25
  const I_REGISTRATION_REQUEST := 26
}
