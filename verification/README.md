# Verified model of the MySensors stack and the SoftTimer scheduler

The repository vendors the MySensors 2.0 Arduino library (radio mesh, serial links, cryptography, firmware update, gateway
protocols) and the SoftTimer scheduler. This project models the parts of them that are hardest to get right, in Dafny, and
proves what they are for. `dafny verify dfyconfig.toml` checks everything.

Code that changes things step by step is modelled by classes and methods with the same fields, loops and branches. Each
method is proved against a specification function; the specification functions carry the theorems. `unsigned long` has 32
bits and the byte order is little-endian, as on AVR. `Options`, `Sequences`, `Remainders`, `Clocks` and `MessageTypes` have
what several modules share.

## The groups

**AES** (`Gf256`, `SBoxes`, `StateLayout`, `InPlace`, `Fips197`, `KeyExamples`, `Cbc`, `Aes`). The fused steps of
`AES.cpp` are proved equal to the separate transformations of FIPS 197, for all three key sizes; the byte-sized counters
of the key schedule are followed through their wrap-around; `decrypt` undoes `encrypt`, and `cbc_decrypt` undoes
`cbc_encrypt`, with separate buffers and in place. The S-box tables are written as decision trees over the bits of the
index, with the same 256 entries; `SBoxIsInverse` proves that they are the table that the standard defines.
`KeyExamples` has the beginnings of two key expansions from Appendix A of the standard.

**SHA-256 and HMAC** (`Octets`, `Lanes`, `Recurrence`, `RootConstants`, `Fips180`, `Sha256`). The tables of constants
are proved to be what the standard defines: fractions of the cube and square roots of the first primes. The streaming
class refines FIPS 180-4 and FIPS 198-1: the ring of sixteen words refines the schedule of 64, the `^ 3` index turns
little-endian words round, and the digest does not depend on how the message is split into calls. `byteCount` has 32
bits, so the padding is the standard one exactly for messages shorter than 2^32 bytes; `PaddingIsStandard` is that
equivalence.

**Software serial** (`LineCode`, `StopBit`, `Rings`, `SerialBits`, `TimerRegisters`, `AltSoftSerial`, `SerialSender`,
`SerialSpacing`, `SerialReceiver`, `SerialReading`). Times are numbers that never wrap; registers are 16-bit remainders of
them, and `FirstMatch` shows that a register identifies the time meant. `Transmitter` and `ReceiveUnit` are the two halves of
`AltSoftSerial.cpp`; their ghost field holds what has happened on the wire. Bytes keep their order in every run
(`RunKeepsOrder`). `WrittenIsReceived` joins the halves, for runs of any length and a program that reads in between: what
has been read and what waits is what was written, if and only if no byte is completed while 79 are waiting. Every bit rate
from 2 to 4368 ticks per bit works, and no other one that `init` accepts (`DecodableExactly`, with the bytes that fail in
`TooFast` and `TooSlow`). A write on an idle line can come too early for the receiver, since `writeByte` looks only
at `tx_state`; `GapExactly` says when: after a byte whose top bit is set, before its stop bit has been recognised. Over whole
runs that is exactly what the receiver cannot follow (`RunIsReceivedExactly`); it never happens below 64 ticks per bit
(`AlwaysSpaced`), and from there on `WriteTooEarly` makes it happen.

**RS485 framing** (`Bytes`, `Automata`, `Rs485Frames`, `Rs485`). `Parser` is the ideal state machine; the class
`Transport` has the fields of `MyTransportRS485.cpp` and refines it byte by byte. Frames back to back are delivered one
by one although the header window is never cleared, and on any stream a packet is announced only by a complete, correct
frame. A header for another station starts no frame; but the source can begin to read one in the middle of such a
header, in one case (`Straddled`): at station 88, which is the command byte, behind a frame from station 1 and in a
header for station 2. It gives up again two bytes later (`HeaderRejected`).

**Node state machine** (`MeshMessages`, `TransportNode`). One node of `MyTransport.cpp` with its re-entrant transitions.
A tape holds the messages that arrive and the time that passes; whether the signing backend signs is given by the
sequence `signs` of its answers, and whether the radio gets an acknowledgement is arbitrary. `Done` says for every
message what has been learned, sent and configured when it has been handled; only the answer to a search for a parent
can nest other messages in between. `Consistent` is what every routine keeps: `uplinkOk` holds exactly in stOK, stOK and
stUplink have an address, stParent and stID stay within their retries, and nothing rests in stInit or stUplink.

Two things that one expects of stOK do not hold of the code. A ready node can be without a parent: it forgets its parent
exactly if a neighbour without an address answers a search for a parent with fewer hops (`LosesParent`, in
`LosesExactly` and `ProcessMessage`; `AnswerFromNowhere` is an input). Nodes of this class never send such an answer unless
they pass one on, so that with tapes from such nodes, which `named` says, stOK has a parent. And a ready node can be
without a powered radio: `ReadyWithoutRadio` is a run in which a pong comes first and an unusable address in the same run
through the queue. `EnterUplink` and `PoweredExactly` say when: stOK is entered exactly if a pong has answered with a number
of hops, and the radio is then powered exactly if neither a failed sanity check nor an unusable address has come meanwhile.

**Mesh** (`MeshRouting`, `MeshBroadcast`). Networks of such nodes over a fixed tree of parents, with any interleaving of
sending, delivery and loss; some nodes are repeaters, the others only send up. Routes that are learned are tree edges; a ping
is answered along the reverse path and its counter comes back as the depth of the node. Acknowledgements keep to the tree
exactly if their sender is no repeater, or their receiver is the gateway, a neighbour in the tree or a node with a known
route (`AckSent`); any other is sent past the tree and teaches a route that is no tree edge (`AckAstray`), so that in these
networks only messages with a way back ask for one. A broadcast is forwarded at most once by each node, handed on at most
once, and dies out.

**CRC, flash and firmware update** (`CrcBits`, `Crc16`, `CrcRoutines`, `FlashMemory`, `OtaUpdate`). The left-shifting and
the right-shifting CRC-16 of the repository agree up to reversal, chain over concatenation and detect every burst
of up to sixteen bits. `SPIFlash` models the chip as far as its commands can be seen: a page program stays in its page, wraps
at its end and only clears bits. A reply to a block request is taken without looking at its number; the image arrives
intact exactly if every reply is the block asked for (`JoinedIsImage`), and `Download` is a whole update with losses, which
ends with the image stored exactly if enough of the requests that are due are answered before six of them in a row are not.

**Signing** (`MyMessage`, `SigningSession`, `SoftSigner`, `Signing`, `SigningDigest`, `SigningBackend`). Messages with
their bit fields; the bytes that a signature covers; the session of nonces as a state machine on values, which the class
`SoftSigner` refines; and the decisions of `MySigning.cpp` about who has to sign. The keyed hash is any function;
`SigningDigest` computes the actual one with the SHA-256 class, and `SigningBackend` makes it a case of the any. A
signed message is accepted after any number of relays; each nonce serves one verification. What is accepted carries,
byte by byte, the digest of its own bytes under the waiting nonce (`AcceptedCarriesDigest`). Whitelisting is off or on
at both sides.

**SoftTimer** (`SoftTimer`, `TaskChains`, `TaskTimes`). The intrusive list is walked while callbacks add and remove any
tasks, their own and others, registered or not. `TaskChains` has the walk on values, with the links that tasks keep when
they leave, and says which tasks are tested: all and in order, if callbacks remove only their own task and add new ones
(`OrderlyEnd`); and exactly which rest is left after a callback that adds or removes any one task, or leaves and adds
one (`OneOperation`, `LeavesAndAdds`). A task that adds itself again ends the walk. The due test is right whatever
overflows, and `TaskTimes` follows the last call times through a walk: each callback is called exactly if the period of
its task has passed.

**Codecs** (`MqttPackets`, `PubSubClient`, `TextFields`, `Protocol`). MQTT 3.1.1 PUBLISH packets (sections 2.2.3 and 3.3)
survive from `publish` to the callback. Gateway lines survive from `protocolFormat` to `protocolParse`; a text
payload does so exactly if it has no semicolon, no NUL and no line end as its last character (`StringRoundTrip`).

## Model

| member | source | states |
|---|---|---|
| Gf256.ForwardTimesIsMul | libraries/MySensors-2.0/drivers/AES/AES.cpp:108-109 | doubling, and doubling plus the value, are the products with {02} and {03} in the field of FIPS 197, defined bit by bit |
| Gf256.InverseTimesIsMul | libraries/MySensors-2.0/drivers/AES/AES.cpp:216-220 | the sums of repeated doublings are the products with {09}, {0b}, {0d} and {0e} |
| Gf256.InvMixByteInverts | libraries/MySensors-2.0/drivers/AES/AES.cpp:201-204 | the 14/11/13/9 matrix undoes the 2/3/1/1 matrix on every column |
| Aes.F2IsXTime | libraries/MySensors-2.0/drivers/AES/AES.cpp:109 | the macro f2, cut to a byte, is multiplication by x modulo the AES polynomial |
| SBoxes.IsBoxInvertsSBox | libraries/MySensors-2.0/drivers/AES/AES.cpp:68-123 | the table s_inv inverts the table s_fwd on all 256 bytes |
| SBoxes.SBoxInvertsIsBox | libraries/MySensors-2.0/drivers/AES/AES.cpp:68-123 | and s_fwd inverts s_inv |
| SBoxLaw.SBoxIsInverse | libraries/MySensors-2.0/drivers/AES/AES.cpp:68-86 | the forward table is the one that FIPS 197 section 5.1.1 defines: the inverse in the field, then the affine transformation |
| StateLayout.FusedColumn | libraries/MySensors-2.0/drivers/AES/AES.cpp:190-204 | reading a column along the diagonal i, i+5, i+10, i+15 is substitution, row shift and column mixing, for any table and mixing function |
| StateLayout.ScatteredColumn | libraries/MySensors-2.0/drivers/AES/AES.cpp:222-225 | writing a mixed column to i, i+5, i+10, i+15 is inverse column mixing, inverse row shift and substitution |
| InPlace.ShiftMapRows | libraries/MySensors-2.0/drivers/AES/AES.cpp:152-167 | the assignments in place, with one temporary, leave the shifted and substituted old state |
| InPlace.InvShiftMapRows | libraries/MySensors-2.0/drivers/AES/AES.cpp:169-184 | the same for the inverse row shift |
| InPlace.CopyBytes | libraries/MySensors-2.0/drivers/AES/AES.cpp:319-331 | the partly unrolled copy of any length changes exactly the target range |
| InPlace.ZipInto | libraries/MySensors-2.0/drivers/AES/AES.cpp:126-146 | the unrolled loops of xor_block and copy_and_key combine sixteen entries and leave the rest, also when source and target are the same |
| Aes.MixSubColumns | libraries/MySensors-2.0/drivers/AES/AES.cpp:188-206 | the fused pass equals SubBytes, ShiftRows and MixColumns of FIPS 197 |
| Aes.InvMixSubColumns | libraries/MySensors-2.0/drivers/AES/AES.cpp:208-227 | the scattering pass equals InvMixColumns, InvShiftRows and InvSubBytes |
| Aes.NextTest | libraries/MySensors-2.0/drivers/AES/AES.cpp:281-286 | the byte-sized test cc == next holds exactly at the multiples of the key length, although next wraps to 0 for 32-byte keys |
| Aes.CountersStep | libraries/MySensors-2.0/drivers/AES/AES.cpp:282-300 | the loop counters and the round constant keep in step with the key expansion |
| Fips197.ExpandedKeyIsExpansion | libraries/MySensors-2.0/drivers/AES/AES.cpp:282-304 | the recursively built key expansion satisfies the word-by-word definition of FIPS 197 section 5.2 |
| KeyExamples.ShortExample | libraries/MySensors-2.0/drivers/AES/AES.cpp:282-304 | for the 16-byte key of FIPS 197 Appendix A.1 the first four words behind the key are those printed there, w4 = a0fafe17 and on |
| KeyExamples.LongExample | libraries/MySensors-2.0/drivers/AES/AES.cpp:282-304 | for the 32-byte key of Appendix A.3 the words up to w12, which is only substituted, are those printed there |
| Aes.AES.SetKey | libraries/MySensors-2.0/drivers/AES/AES.cpp:254-306 | for 16, 24 and 32 bytes, or the same in bits, the schedule is the FIPS 197 key expansion and the number of rounds fits; any other length leaves no key |
| Aes.AES.Encrypt | libraries/MySensors-2.0/drivers/AES/AES.cpp:335-354 | the result is the FIPS 197 cipher under the round keys; nothing else is changed; without a key it fails |
| Aes.AES.Decrypt | libraries/MySensors-2.0/drivers/AES/AES.cpp:390-409 | the result is the FIPS 197 inverse cipher, with the round keys taken from the last to the first |
| Fips197.InvCipherInverts | libraries/MySensors-2.0/drivers/AES/AES.cpp:335-409 | the inverse cipher undoes the cipher for every number of rounds and any round keys |
| Aes.DecipheringInverts | libraries/MySensors-2.0/drivers/AES/AES.cpp:335-409 | decrypt undoes encrypt on every block, for every schedule |
| Aes.AES.CbcEncrypt | libraries/MySensors-2.0/drivers/AES/AES.cpp:358-386 | the blocks become the CBC encryption of the old blocks, in place or not; what follows them stays; iv becomes the last ciphertext block |
| Aes.AES.CbcDecrypt | libraries/MySensors-2.0/drivers/AES/AES.cpp:413-445 | the same for CBC decryption, whose in-place form reads each ciphertext block before it is overwritten |
| Aes.CbcRoundTrip | libraries/MySensors-2.0/drivers/AES/AES.cpp:358-445 | CBC decryption undoes CBC encryption for any number of blocks, any iv and any round keys |
| Cbc.EncryptInTwoCalls | libraries/MySensors-2.0/drivers/AES/AES.cpp:374-386 | two calls that hand on iv equal one call on the concatenation |
| Cbc.DecryptInTwoCalls | libraries/MySensors-2.0/drivers/AES/AES.cpp:431-445 | the same for decryption |
| Recurrence.RollingReads | libraries/MySensors-2.0/drivers/ATSHA204/sha256.cpp:59-66 | the four ring entries that hashBlock reads are the schedule entries 16, 15, 7 and 2 places back |
| Recurrence.RollingWrite | libraries/MySensors-2.0/drivers/ATSHA204/sha256.cpp:65 | overwriting entry i & 15 turns the ring on by one |
| RootConstants.RoundConstant | libraries/MySensors-2.0/drivers/ATSHA204/sha256.cpp:11-20 | with p the t-th prime and some integer part c, (c 2^32 + K(t))^3 <= p 2^96 < (c 2^32 + K(t) + 1)^3, for each of the 64 words: section 4.2.2 |
| Fips180.InitialIsRoots | libraries/MySensors-2.0/drivers/ATSHA204/sha256.cpp:24-33 | the same with squares and 2^64 for the eight words of the initial hash value: section 5.3.3 |
| Sha256.SigmaForms | libraries/MySensors-2.0/drivers/ATSHA204/sha256.cpp:41-72 | the shifts of ror32 to both sides make the rotations by 2, 13, 22 and 6, 11, 25 and 7, 18 and 17, 19 of the four sigma functions |
| Sha256.ChoiceForms | libraries/MySensors-2.0/drivers/ATSHA204/sha256.cpp:69 | the code's form of Ch equals that of FIPS 180-4 |
| Sha256.MajorityForms | libraries/MySensors-2.0/drivers/ATSHA204/sha256.cpp:73 | the code's form of Maj equals that of FIPS 180-4 |
| Sha256.Sha256Class.HashBlock | libraries/MySensors-2.0/drivers/ATSHA204/sha256.cpp:45-84 | 64 rounds over the ring compute the compression function of FIPS 180-4 section 6.2.2 with its full schedule and the constants of RoundConstant |
| Lanes.FullBuffer | libraries/MySensors-2.0/drivers/ATSHA204/sha256.cpp:87 | bytes stored at offset ^ 3 are, read as little-endian words, the big-endian words of the block |
| Sha256.Sha256Class.AddUncounted | libraries/MySensors-2.0/drivers/ATSHA204/sha256.cpp:86-93 | a byte is added to what has been fed, whether or not it completes a block |
| Sha256.Sha256Class.Write | libraries/MySensors-2.0/drivers/ATSHA204/sha256.cpp:95-98 | a byte is added and counted modulo 2^32 |
| Sha256.Sha256Class.Init | libraries/MySensors-2.0/drivers/ATSHA204/sha256.cpp:35-39 | nothing has been fed, and the state is the initial value of section 5.3.3 |
| Sha256.Sha256Class.Pad | libraries/MySensors-2.0/drivers/ATSHA204/sha256.cpp:100-116 | the padding written is 0x80, zeros up to 56 modulo 64, and the counted length in bits |
| Sha256.PaddingIsStandard | libraries/MySensors-2.0/drivers/ATSHA204/sha256.cpp:100-116 | that padding is the one of section 5.1.1 if and only if the message has fewer than 2^32 bytes |
| Sha256.WrappedCount | libraries/MySensors-2.0/drivers/ATSHA204/sha256.cpp:96 | from 2^32 bytes on the padding is wrong, because the count has wrapped |
| Sha256.SwapBytesReverses | libraries/MySensors-2.0/drivers/ATSHA204/sha256.cpp:124-132 | the swapped word, in memory, has the bytes of the word most significant first |
| Sha256.Sha256Class.Digest | libraries/MySensors-2.0/drivers/ATSHA204/sha256.cpp:119-136 | result is the SHA-256 digest of everything written since init, for messages shorter than 2^32 bytes; its constants are those of RoundConstant and InitialIsRoots |
| Sha256.Sha256Class.InitHmac | libraries/MySensors-2.0/drivers/ATSHA204/sha256.cpp:144-161 | the key, hashed first if longer than a block, is in keyBuffer, and the inner hash has consumed it masked with 0x36 |
| Sha256.Sha256Class.ResultHmac | libraries/MySensors-2.0/drivers/ATSHA204/sha256.cpp:163-172 | after initHmac and the writing of a text, the result is HMAC of FIPS 198-1 section 4 |
| LineCode.DueSamples | libraries/MySensors-2.0/drivers/AltSoftSerial/AltSoftSerial.cpp:217-222 | at the edge that begins bit time k, the samples of exactly the bits before it are due, in 16-bit signed arithmetic |
| LineCode.FrameFromStart | libraries/MySensors-2.0/drivers/AltSoftSerial/AltSoftSerial.cpp:192-241 | what the receiver knows after any number of bit times of any byte |
| LineCode.RoundTrip | libraries/MySensors-2.0/drivers/AltSoftSerial/AltSoftSerial.cpp:192-264 | any sequence of well-spaced frames is decoded to the same bytes, by edges and timeouts together |
| LineCode.DecodableExactly | libraries/MySensors-2.0/drivers/AltSoftSerial/AltSoftSerial.cpp:65-78 | among the bit rates that init accepts, every byte survives exactly for 2 to 4368 ticks per bit |
| LineCode.TooSlow | libraries/MySensors-2.0/drivers/AltSoftSerial/AltSoftSerial.cpp:218-219 | from 4369 ticks on the difference overflows and 0x00 is received as 0xff |
| LineCode.TooFast | libraries/MySensors-2.0/drivers/AltSoftSerial/AltSoftSerial.cpp:212 | with one tick per bit 0xff is received as 0xfe |
| LineCode.StopBitNeeded | libraries/MySensors-2.0/drivers/AltSoftSerial/AltSoftSerial.cpp:114-125 | an input that fails: 0xff after 0x80, begun before the stop bit of 0x80 is recognised, is lost |
| StopBit.GapExactly | libraries/MySensors-2.0/drivers/AltSoftSerial/AltSoftSerial.cpp:106-264 | one more frame, begun on an idle line after any well-spaced frames, comes through if and only if the byte before it has a clear top bit or its stop bit has been recognised |
| Rings.Push | libraries/MySensors-2.0/drivers/AltSoftSerial/AltSoftSerial.cpp:110-117 | storing behind the head appends to the queue, across the wrap of the indices |
| Rings.Pop | libraries/MySensors-2.0/drivers/AltSoftSerial/AltSoftSerial.cpp:274-277 | reading behind the tail takes the oldest element |
| Rings.IsFull | libraries/MySensors-2.0/drivers/AltSoftSerial/AltSoftSerial.cpp:225-227 | the test of the next head against the tail recognises exactly the full ring |
| SerialBits.BitsOfAddBits | libraries/MySensors-2.0/drivers/AltSoftSerial/AltSoftSerial.cpp:220 | eight bits shifted in from the top make the byte that has them, whatever was there before |
| TimerRegisters.FirstMatch | libraries/MySensors-2.0/drivers/AltSoftSerial/AltSoftSerial.cpp:137-149 | a 16-bit compare value identifies the one time within the next timer period at which it matches |
| AltSoftSerial.FindEdge | libraries/MySensors-2.0/drivers/AltSoftSerial/AltSoftSerial.cpp:138-156 | the loop of the compare interrupt skips exactly the bit times without an edge |
| AltSoftSerial.Transmitter.WriteByte | libraries/MySensors-2.0/drivers/AltSoftSerial/AltSoftSerial.cpp:113-126 | a write is queued while a frame is in progress and begins a frame 16 ticks later on an idle line; the invariant holds again |
| AltSoftSerial.Transmitter.CompareA | libraries/MySensors-2.0/drivers/AltSoftSerial/AltSoftSerial.cpp:130-179 | a match drives the pin to the next bit of the frame, ends the frame, or goes on with the oldest waiting byte |
| AltSoftSerial.Transmitter.ValidIsSound | libraries/MySensors-2.0/drivers/AltSoftSerial/AltSoftSerial.cpp:163-168 | every state of the class is one of the run theorems; a waiting byte implies tx_state != 0 and an enabled interrupt |
| SerialSender.WriteByte | libraries/MySensors-2.0/drivers/AltSoftSerial/AltSoftSerial.cpp:106-127 | with the wait for space: only compare interrupts happen until there is room, some exactly if the ring is full, and then the byte is taken |
| AltSoftSerial.StepKeeps | libraries/MySensors-2.0/drivers/AltSoftSerial/AltSoftSerial.cpp:106-179 | a write or a match keeps all bytes accepted so far in order, with the byte written behind them |
| AltSoftSerial.StepKeepsSpacing | libraries/MySensors-2.0/drivers/AltSoftSerial/AltSoftSerial.cpp:106-179 | frames stay well spaced, unless a write on an idle line comes too early for the receiver |
| AltSoftSerial.RunKeepsOrder | libraries/MySensors-2.0/drivers/AltSoftSerial/AltSoftSerial.cpp:106-179 | over any interleaving of writes and compare interrupts no byte is lost, repeated or overtaken |
| AltSoftSerial.RunKeepsSpacing | libraries/MySensors-2.0/drivers/AltSoftSerial/AltSoftSerial.cpp:106-179 | over any such interleaving without a write that is too early the frames on the line are well spaced |
| AltSoftSerial.RunIsReceived | libraries/MySensors-2.0/drivers/AltSoftSerial/AltSoftSerial.cpp:106-264 | once the transmitter is idle and no write on an idle line was too early, a receiver of its edges has decoded exactly the bytes written |
| SerialSpacing.SpacedExactly | libraries/MySensors-2.0/drivers/AltSoftSerial/AltSoftSerial.cpp:106-264 | frames that begin after the stop bits of those before are received one after the other if and only if they are well spaced |
| SerialSpacing.RunIsReceivedExactly | libraries/MySensors-2.0/drivers/AltSoftSerial/AltSoftSerial.cpp:106-264 | in a run that ends idle, no write on an idle line was too early if and only if the receiver had, after each frame, exactly the bytes written up to there |
| SerialSpacing.AlwaysSpaced | libraries/MySensors-2.0/drivers/AltSoftSerial/AltSoftSerial.cpp:114-125 | below 64 ticks per bit no write is too early |
| SerialSpacing.WriteTooEarly | libraries/MySensors-2.0/drivers/AltSoftSerial/AltSoftSerial.cpp:106-179 | from 64 ticks per bit on, for any two bytes of which the first has its top bit set, the class makes a run in which the second is written too early |
| SerialSender.Drive | libraries/MySensors-2.0/drivers/AltSoftSerial/AltSoftSerial.cpp:106-179 | the class, driven through any events as far as they can happen, runs as the theorems say: it holds and has sent the bytes written, and they are received once it is idle |
| SerialReceiver.Samples | libraries/MySensors-2.0/drivers/AltSoftSerial/AltSoftSerial.cpp:217-236 | the capture loop takes the samples of the line code, on wrapped registers |
| SerialReceiver.ReceiveUnit.OnWire | libraries/MySensors-2.0/drivers/AltSoftSerial/AltSoftSerial.cpp:192-264 | an edge on the wire, with a timeout that is due before it, does to the class what it does to the line code |
| SerialReceiver.ReceiveUnit.CompareB | libraries/MySensors-2.0/drivers/AltSoftSerial/AltSoftSerial.cpp:243-264 | the timeout comes at its deadline and completes the byte with the level of the line |
| SerialReceiver.ReceiveUnit.Store | libraries/MySensors-2.0/drivers/AltSoftSerial/AltSoftSerial.cpp:225-230 | a byte is appended, and dropped only when 79 bytes are waiting |
| SerialReceiver.PushedAllKeeps | libraries/MySensors-2.0/drivers/AltSoftSerial/AltSoftSerial.cpp:225-230 | bytes already waiting are never disturbed, and a run of bytes that fits is kept whole |
| SerialReceiver.ReceiveUnit.Read | libraries/MySensors-2.0/drivers/AltSoftSerial/AltSoftSerial.cpp:268-279 | the oldest byte is returned and removed, whatever interrupts complete meanwhile |
| SerialReceiver.ReceiveUnit.Available | libraries/MySensors-2.0/drivers/AltSoftSerial/AltSoftSerial.cpp:291-299 | the exact number of bytes that waited at the call |
| SerialReceiver.StopTicksFit | libraries/MySensors-2.0/drivers/AltSoftSerial/AltSoftSerial.cpp:78 | rx_stop_ticks fits 16 bits for every bit rate that init accepts |
| SerialReading.Unread | libraries/MySensors-2.0/drivers/AltSoftSerial/AltSoftSerial.cpp:192-264 | the receiver alone: without reads what waits after a whole wave is what the line code receives, as far as the ring holds it |
| SerialReading.KeptExactly | libraries/MySensors-2.0/drivers/AltSoftSerial/AltSoftSerial.cpp:225-279 | for any sequence of bytes completed and reads: what has been read and what waits is what was completed if and only if no byte was completed while 79 were waiting |
| SerialReading.Converse | libraries/MySensors-2.0/drivers/AltSoftSerial/AltSoftSerial.cpp:192-279 | the receiver class, driven by a whole wave with reads before, between and after the interrupts, returns and holds what that sequence says |
| SerialReading.WrittenIsReceived | libraries/MySensors-2.0/drivers/AltSoftSerial/AltSoftSerial.cpp:106-279 | what the receiving program has read, followed by what waits, is what the sending program wrote, byte for byte, for every interleaving of any length, if and only if the ring was never full when a byte was completed |
| Rs485Frames.NoFalseStart | libraries/MySensors-2.0/core/MyTransportRS485.cpp:145-172 | no header window that straddles an old and a new header starts a frame for this station |
| Rs485Frames.FalseStart | libraries/MySensors-2.0/core/MyTransportRS485.cpp:145-172 | for a header to any station: a straddling window starts a frame if and only if it is the second byte, the frame before was from station 1, the header is for station 2 and this is station 88 |
| Rs485Frames.HeaderRejected | libraries/MySensors-2.0/core/MyTransportRS485.cpp:160-172 | a header that is not for this station, or names it as the sender, or a station that addresses itself, ends in the hunting phase without a packet; the parser hunts at every byte of it if and only if that one case is not given |
| Rs485Frames.FrameDelivered | libraries/MySensors-2.0/core/MyTransportRS485.cpp:135-235 | a frame whose sender is another station and whose receiver is this one or the broadcast address, and not the sender, yields its packet and leaves the parser ready for the next |
| Rs485Frames.FramesDelivered | libraries/MySensors-2.0/core/MyTransportRS485.cpp:135-235 | frames back to back yield exactly their packets, in order |
| Rs485Frames.TakesOneFrame | libraries/MySensors-2.0/core/MyTransportRS485.cpp:135-232 | reading until a frame ends consumes exactly the next frame |
| Rs485Frames.PacketIsSound | libraries/MySensors-2.0/core/MyTransportRS485.cpp:212-227 | on any stream, a packet comes out only at an EOT that ends STX, data, ETX and the sum of header and data modulo 256, under a header for this station |
| Rs485.FramesBounded | libraries/MySensors-2.0/core/MyTransportRS485.cpp:183-189 | frames of at most 40 bytes never make the parser expect more than its buffer holds |
| Rs485.Transport.ProcessByte | libraries/MySensors-2.0/core/MyTransportRS485.cpp:138-234 | one byte through the switch is one step of the parser; header copies, counters and running checksum stay consistent; the flag is set exactly for a good frame |
| Rs485.Transport.SerialProcess | libraries/MySensors-2.0/core/MyTransportRS485.cpp:129-237 | the bytes read are a frame's end or all there are, the state is that of the parser, and at most one packet is announced |
| Rs485.Transport.ReceiveAll | libraries/MySensors-2.0/core/MyTransportRS485.cpp:129-237 | a program that polls and fetches gets the payload of every frame, in order, and nothing else |
| Rs485.Transport.WriteFrame | libraries/MySensors-2.0/core/MyTransportRS485.cpp:270-287 | the bytes written are the frame of the packet, with its checksum |
| TransportNode.Node.EnterFailure | libraries/MySensors-2.0/core/MyTransport.cpp:190-220 | the uplink and the radio are off and the time of the change is kept |
| TransportNode.Node.AssignNodeID | libraries/MySensors-2.0/core/MyTransport.cpp:275-290 | a valid address is taken, also into the EEPROM, and nothing else changes; any other leads to stFailure |
| TransportNode.Node.RouteMessage | libraries/MySensors-2.0/core/MyTransport.cpp:292-345 | exactly one transmission if the signing backend agrees, to the neighbour that the routing rules name and with last set, and none if not; only the failure counter changes, and only for the parent; while a parent is searched only broadcasts go out |
| TransportNode.Node.Relay | libraries/MySensors-2.0/core/MyTransport.cpp:598-615 | the way back to the sender is learned if it is not the parent, no other route changes, and the message goes on with its hops counted to the next hop |
| TransportNode.Node.Forward | libraries/MySensors-2.0/core/MyTransport.cpp:578-585 | a ready repeater passes a broadcast on exactly if it comes from the parent and is not its own |
| TransportNode.Node.HandleInternal | libraries/MySensors-2.0/core/MyTransport.cpp:468-519 | a ping is answered to its sender with a count of 1, a pong only ends a ping that is active, an address is taken or fails the transport; an answer to the search makes its sender the parent exactly if it is closer or preferred and no preferred one is known; the invariant is kept |
| TransportNode.Node.HandleOwn | libraries/MySensors-2.0/core/MyTransport.cpp:439-541 | a repeater learns the way to the sender; the acknowledgement and the pong are sent as stated, by the routing rules, and nothing else; the configuration changes as for HandleInternal; the answer to a ping is taken as Absorb says; the invariant is kept |
| TransportNode.Node.ProcessMessage | libraries/MySensors-2.0/core/MyTransport.cpp:407-616 | what has become of each verified message (Done): for another node, a ready repeater has learned route[sender] = last unless last is the parent, no other route changes, and exactly the counted message has gone to the next hop that table and parent name, if the signing backend agrees, and any other node has done nothing; a broadcast has gone on exactly if it came from the parent and is not the own; a search has been answered with the distance; a message for this node as for HandleOwn; an unverified one has changed nothing. The invariant and the limits of Handled; a message for a node with a parent leaves it without one if and only if it is verified and an answer from nowhere with fewer hops |
| TransportNode.Node.AnswerSearch | libraries/MySensors-2.0/core/MyTransport.cpp:549-566 | with an uplink checked lately exactly the answer with the own distance goes to the searching neighbour, whose route is set; otherwise, if a ping to the gateway is answered, the last thing sent is the answer with the hops that the pong has counted |
| TransportNode.Node.ProcessFIFO | libraries/MySensors-2.0/core/MyTransport.cpp:621-648 | handling messages keeps the invariant and changes the state at most to stFailure; unless a ready node hears a search, exactly the first five messages in the queue are handled, in order; a queue of messages for other nodes passes a ready repeater as the sequence of PassAll: all routes learned, all messages sent on |
| TransportNode.Node.PingNode | libraries/MySensors-2.0/core/MyTransport.cpp:375-394 | the ping goes out first, and everything that happens while the node waits for the answer keeps the invariant; the answer is what the handled messages make of the ping |
| TransportNode.Node.CheckUplink | libraries/MySensors-2.0/core/MyTransport.cpp:250-273 | an uplink checked lately is all right; otherwise the check sends a ping and succeeds exactly if it has an answer, which becomes the distance |
| TransportNode.Node.ConsiderParent | libraries/MySensors-2.0/core/MyTransport.cpp:481-502 | a neighbour becomes parent exactly if it is closer or preferred and no preferred one is known |
| TransportNode.Node.UpdateParent | libraries/MySensors-2.0/core/MyTransport.cpp:101-122 | the next state for each combination of timeout, parent found and retries left, and the search or request that goes out |
| TransportNode.Node.UpdateID | libraries/MySensors-2.0/core/MyTransport.cpp:134-154 | with an address the node comes to rest in stOK or stParent; without one it repeats its request and at last fails |
| TransportNode.Node.EnterUplink | libraries/MySensors-2.0/core/MyTransport.cpp:156-166 | the check ends in stOK exactly if the handled messages have answered the ping with a number of hops, else in stParent; the radio is powered exactly if they have not powered it down |
| TransportNode.PoweredExactly | libraries/MySensors-2.0/core/MyTransport.cpp:190-290 | over any messages handled, the radio stays powered if and only if it was and none of them is a failed sanity check or an unusable address |
| TransportNode.Node.ReadyWithoutRadio | libraries/MySensors-2.0/core/MyTransport.cpp:134-188 | an input that fails: a pong and an address that is none lead to stOK with the radio off |
| TransportNode.Node.EnterInit | libraries/MySensors-2.0/core/MyTransport.cpp:41-83 | initialisation comes to rest in stParent if the radio comes up, with a search sent and the radio on exactly if the address is not that of the gateway, and else in stFailure |
| TransportNode.Node.Run | libraries/MySensors-2.0/core/MyTransport.cpp:235-247 | after initialisation and any number of calls, with any messages and delays, the node rests in stParent, stID, stOK or stFailure and the invariant holds; no answer from nowhere goes out unless one has come in |
| TransportNode.Node.Starve | libraries/MySensors-2.0/core/MyTransport.cpp:101-154 | without answers the node reaches stFailure after at most four timeouts, fewer by the retries already used |
| TransportNode.Node.AnswerFromNowhere | libraries/MySensors-2.0/core/MyTransport.cpp:481-502 | an input that fails: an answer from a sender without an address makes a ready node forget its parent |
| MeshRouting.LearnKeeps | libraries/MySensors-2.0/core/MyTransport.cpp:446-452 | a route learned from a message on its way up is the child towards its sender, and no other route changes |
| MeshRouting.RisingAnswered | libraries/MySensors-2.0/core/MyTransport.cpp:595-615 | a message on its way up is passed to the parent, turned down a known route, or answered |
| MeshRouting.FallingAnswered | libraries/MySensors-2.0/core/MyTransport.cpp:595-615 | a message on its way down goes on along known routes, or is acknowledged to a node that has a way back |
| MeshRouting.AckSent | libraries/MySensors-2.0/core/MyTransport.cpp:454-465 | an acknowledgement of a message that has come down is in order if and only if its sender is no repeater, or its receiver is the gateway, a neighbour in the tree or a node with a known route |
| MeshRouting.AckAstray | libraries/MySensors-2.0/core/MyTransport.cpp:319-333 | any other acknowledgement is sent past the tree, and its receiver learns a route that is no tree edge |
| MeshRouting.StepKeeps | libraries/MySensors-2.0/core/MyTransport.cpp:292-345 | sending, acknowledging, delivering or losing any message, among repeaters and leaf nodes, keeps the invariant of the network, and routes are never forgotten |
| MeshRouting.RunKeeps | libraries/MySensors-2.0/core/MyTransport.cpp:292-345 | the invariant holds after any run from empty tables |
| MeshRouting.RoutesAreTreeEdges | libraries/MySensors-2.0/core/MyTransport.cpp:446-452 | after any run each routing entry is unset or the child on the path to its node |
| MeshRouting.PongsCountHops | libraries/MySensors-2.0/core/MyTransport.cpp:506-518 | after any run each pong that has come back carries the depth of its receiver, at most 254, never 255 |
| MeshRouting.PingIsAnswered | libraries/MySensors-2.0/core/MyTransport.cpp:506-510 | a ping that reaches the gateway is answered with a pong to the child that it came through, behind the acknowledgement if one is asked for |
| MeshRouting.PongGoesDown | libraries/MySensors-2.0/core/MyTransport.cpp:595-615 | each node passes a pong to the child on the path to its destination, with the counter one more, and the destination gets its depth |
| MeshBroadcast.HearKeeps | libraries/MySensors-2.0/core/MyTransport.cpp:578-593 | one reception keeps that nobody has forwarded or heard its parent twice |
| MeshBroadcast.HearConsumes | libraries/MySensors-2.0/core/MyTransport.cpp:578-585 | one reception brings the broadcast closer to its end |
| MeshBroadcast.RunIsSafe | libraries/MySensors-2.0/core/MyTransport.cpp:542-594 | on any radio topology, with losses, no node transmits a broadcast twice or hands it on twice |
| MeshBroadcast.RunIsShort | libraries/MySensors-2.0/core/MyTransport.cpp:578-585 | a broadcast ends within fewer than 2^16 receptions |
| Crc16.CrcsMirror | libraries/MySensors-2.0/core/MyOTAFirmwareUpdate.cpp:138-147 | each of the right-shifting and the left-shifting CRC is the bit-reversed other, with reversed seeds, on every byte string |
| Crc16.CrcChains | libraries/MySensors-2.0/examples/SecurityPersonalizer/sha204_library.cpp:61-84 | a CRC continued from the result of another is the CRC of the concatenation, in both forms |
| Crc16.FeedIsTurn | libraries/MySensors-2.0/core/MyOTAFirmwareUpdate.cpp:140-146 | up to sixteen bits fed one by one equal the same bits mixed in at once and then shifted through |
| Crc16.BurstDetected | libraries/MySensors-2.0/core/MyOTAFirmwareUpdate.cpp:136-149 | messages of equal length that differ only within sixteen consecutive bits have different CRCs, in both forms |
| CrcRoutines.FeedByte | libraries/MySensors-2.0/examples/SecurityPersonalizer/sha204_library.cpp:71-81 | the loop over the moving mask feeds the bits of a byte from the lowest up |
| CrcRoutines.CalculateAndUpdateCrc | libraries/MySensors-2.0/examples/SecurityPersonalizer/sha204_library.cpp:61-84 | the result is the left-shifting CRC continued from the given value |
| CrcRoutines.CalculateCrc | libraries/MySensors-2.0/drivers/ATSHA204/ATSHA204.cpp:403-427 | the two result bytes are the left-shifting CRC with seed 0, low byte first |
| CrcRoutines.CheckCrc | libraries/MySensors-2.0/drivers/ATSHA204/ATSHA204.cpp:429-439 | a response is accepted exactly if its last two bytes are the CRC of the bytes before them |
| FlashMemory.InOnePage | libraries/MySensors-2.0/drivers/SPIFlash/SPIFlash.cpp:283-290 | a page program command that does not reach the end of its page changes exactly its bytes |
| FlashMemory.OneMorePage | libraries/MySensors-2.0/drivers/SPIFlash/SPIFlash.cpp:280-296 | one turn of the loop extends the programmed run by its piece |
| FlashMemory.SPIFlash.WriteBytes | libraries/MySensors-2.0/drivers/SPIFlash/SPIFlash.cpp:236-298 | exactly the bytes of the run are combined with what was there, across any page boundaries |
| OtaImage.BlockWritten | libraries/MySensors-2.0/core/MyOTAFirmwareUpdate.cpp:90-94 | a block written in front of the earlier ones into erased flash extends the stored image |
| OtaImage.JoinedIsImage | libraries/MySensors-2.0/core/MyOTAFirmwareUpdate.cpp:83-94 | the stored bytes are the image if and only if every reply is the block that was asked for |
| OtaUpdate.FirmwareUpdate.ProcessConfig | libraries/MySensors-2.0/core/MyOTAFirmwareUpdate.cpp:56-82 | a new configuration erases the flash and starts with the last block and all tries; a known one changes nothing |
| OtaUpdate.FirmwareUpdate.Request | libraries/MySensors-2.0/core/MyOTAFirmwareUpdate.cpp:33-53 | a request goes out when it is due and tries are left, and uses one up; without tries the update is given up |
| OtaUpdate.FirmwareUpdate.ProcessResponse | libraries/MySensors-2.0/core/MyOTAFirmwareUpdate.cpp:83-119 | a reply stores one block; after the last one the signature and the configuration are written exactly if the CRC is right |
| OtaUpdate.FirmwareUpdate.SizeIsFound | libraries/MySensors-2.0/core/MyOTAFirmwareUpdate.cpp:101-103 | after an installed update the two size bytes in the flash, the high one first, are 16 times the number of blocks |
| OtaUpdate.FirmwareUpdate.IsValidFirmware | libraries/MySensors-2.0/core/MyOTAFirmwareUpdate.cpp:136-149 | the check compares the right-shifting CRC of the image in the flash, from all ones |
| OtaUpdate.FirmwareUpdate.Download | libraries/MySensors-2.0/core/MyOTAFirmwareUpdate.cpp:33-121 | over any run with lost requests and replies: either the whole image is intact in the flash and is installed exactly if its CRC is right, or blocks are missing and nothing is installed; at whatever times the node runs, the image is stored if and only if as many of the requests that are due are answered as there are blocks, before six of them in a row are not |
| OtaUpdate.MissingNothing | libraries/MySensors-2.0/core/MyOTAFirmwareUpdate.cpp:33-53 | counting tries and blocks request by request leaves no block missing if and only if the answers suffice |
| OtaUpdate.FirmwareUpdate.Unanswered | libraries/MySensors-2.0/core/MyOTAFirmwareUpdate.cpp:35-52 | at most six requests for one block go unanswered |
| SoftTimer.DueExactly | libraries/SoftTimer/src/SoftTimer.cpp:109-117 | the test holds if and only if the period has passed since the last call, modulo 2^32 |
| SoftTimer.SoftTimerClass.Remove | libraries/SoftTimer/src/SoftTimer.cpp:72-90 | the chain is the old one without the task, which keeps its link; nothing happens if it is not registered |
| SoftTimer.SoftTimerClass.Add | libraries/SoftTimer/src/SoftTimer.cpp:42-66 | the chain is the old one without the task, followed by it; it is free of cycles and duplicates; the task is due at once |
| SoftTimer.SoftTimerClass.TestAndCall | libraries/SoftTimer/src/SoftTimer.cpp:109-123 | the callback is called exactly when the period has passed since the last call, modulo 2^32; it adds and removes any tasks at any times; the last call time is then that of the test |
| SoftTimer.SoftTimerClass.Walk | libraries/SoftTimer/src/SoftTimer.cpp:95-104 | one walk, with the time of each test and what each callback does given: it tests the tasks that the walk on values does and leaves the chain and all links as that does; callback i is called if and only if the time minus the last call time of the task at that turn is at least its period modulo 2^32; and all last call times are then those of TaskTimes |
| TaskTimes.CalledAtItsTime | libraries/SoftTimer/src/SoftTimer.cpp:109-123 | after a turn a task that was called has the time of the test as last call time, and without a call no last call time has changed |
| TaskChains.OrderlyEnd | libraries/SoftTimer/src/SoftTimer.cpp:95-104 | if callbacks remove only their own task and add new ones, every task of the chain is tested once and in order, and then every task added, but for those that the last task adds when it has left; those that stay keep their order |
| TaskChains.OneOperation | libraries/SoftTimer/src/SoftTimer.cpp:42-104 | after a callback that adds or removes any one task: what is then before the walk; a task added comes last, and one that adds itself ends the walk |
| TaskChains.LeavesAndAdds | libraries/SoftTimer/src/SoftTimer.cpp:42-104 | after a callback that takes its own task out and adds any: the walk goes on at the task that followed; adding that one passes over all behind it, and a task added behind the last is not reached |
| TaskChains.OnwardIsTested | libraries/SoftTimer/src/SoftTimer.cpp:95-104 | if nothing more is done, the walk tests exactly what is before it |
| MqttPackets.DecodeEncode | libraries/MySensors-2.0/drivers/PubSubClient/PubSubClient.cpp:433-441 | the decoder reads back every encoded length, whatever follows it |
| MqttPackets.EncodeIsMinimal | libraries/MySensors-2.0/drivers/PubSubClient/PubSubClient.cpp:433-441 | no shorter run of bytes decodes to the same length |
| MqttPackets.EncodeDecode | libraries/MySensors-2.0/drivers/PubSubClient/PubSubClient.cpp:242-247 | encoding what the reader decoded gives the same bytes, if and only if they do not end in a needless zero |
| MqttPackets.EncodeLength | libraries/MySensors-2.0/drivers/PubSubClient/PubSubClient.cpp:427-443 | a 16-bit length takes at most three bytes, so that the header fits in front of the body |
| MqttPackets.PublishIsRead | libraries/MySensors-2.0/drivers/PubSubClient/PubSubClient.cpp:232-280 | a published packet is delimited correctly, whatever follows it |
| MqttPackets.PublishParts | libraries/MySensors-2.0/drivers/PubSubClient/PubSubClient.cpp:306-331 | the first byte is 0x30, or 0x31 if retained; the topic has its length in front, high byte first; topic and payload are found in a published packet where loop looks for them |
| PubSubClient.Client.LengthDigits | libraries/MySensors-2.0/drivers/PubSubClient/PubSubClient.cpp:433-441 | the loop produces the base-128 encoding |
| PubSubClient.Client.Publish | libraries/MySensors-2.0/drivers/PubSubClient/PubSubClient.cpp:359-379 | the bytes sent are the PUBLISH packet of topic and payload, or none if it is too long |
| PubSubClient.Client.ReadPacket | libraries/MySensors-2.0/drivers/PubSubClient/PubSubClient.cpp:232-280 | exactly one packet is consumed; it is in the buffer if it fits, and ignored if it is incomplete or does not fit |
| PubSubClient.Client.Loop | libraries/MySensors-2.0/drivers/PubSubClient/PubSubClient.cpp:299-341 | a complete PUBLISH calls the callback once, with its topic and payload, and is acknowledged with its message id if it has one; a PINGREQ is answered; every packet is consumed whole; nothing else happens |
| PubSubClient.Carry | libraries/MySensors-2.0/drivers/PubSubClient/PubSubClient.cpp:232-379 | what publish accepts at one client reaches the callback of another with exactly that topic and payload |
| MyMessages.VersionLengthFields | libraries/MySensors-2.0/core/MyMessage.h:232-239 | each field written into version_length is read back, cut to its width |
| MyMessages.CommandAckPayloadFields | libraries/MySensors-2.0/core/MyMessage.h:241-251 | the same for the four fields of command_ack_payload |
| MyMessages.VersionLengthIsAll | libraries/MySensors-2.0/core/MyMessage.h:334-337 | the three fields determine the byte |
| MyMessages.CommandAckPayloadIsAll | libraries/MySensors-2.0/core/MyMessage.h:338-341 | the four fields determine the byte |
| MyMessages.MyMessage.SetString | libraries/MySensors-2.0/core/MyMessage.cpp:202-212 | the message has the text as payload, cut to 25 bytes and terminated; no other field changes |
| MyMessages.MyMessage.SetCustom | libraries/MySensors-2.0/core/MyMessage.cpp:195-200 | the message has the bytes as payload; no other field changes |
| MyMessages.CustomSetFields | libraries/MySensors-2.0/core/MyMessage.cpp:195-200 | payload, length and payload type can be read back, and all other fields are as before |
| MyMessages.StringSetFields | libraries/MySensors-2.0/core/MyMessage.cpp:202-212 | the same for text |
| SigningSession.PaddedIsExact | libraries/MySensors-2.0/core/MySigningAtsha204Soft.cpp:242-243 | two messages have the same signed block if and only if they agree in everything but last and the bytes behind the payload |
| SigningSession.CarriedKeepsSigned | libraries/MySensors-2.0/core/MyTransport.cpp:655-674 | relays change a signed message only in last and behind the transmitted bytes |
| SigningSession.SignedIsGenuine | libraries/MySensors-2.0/core/MySigningAtsha204Soft.cpp:149-237 | what SignMsg puts into a message is what VerifyMsg computes for the same nonce, with or without a serial |
| SigningSession.RelayedIsGenuine | libraries/MySensors-2.0/core/MySigningAtsha204Soft.cpp:149-237 | and still after any number of relays, into buffers with any old contents |
| SigningSession.TimelyExactly | libraries/MySensors-2.0/core/MySigningAtsha204Soft.cpp:101-137 | a nonce is good for 5000 ms; if the clock turns over within that time, it is good from the turnover for 5000 ms instead |
| SigningSession.OpenExactly | libraries/MySensors-2.0/core/MySigningAtsha204Soft.cpp:101-196 | after any run a session is open if and only if some nonce was given out with nothing but timely looks at the timer since, and then for that nonce |
| SigningSession.AcceptedExactly | libraries/MySensors-2.0/core/MySigningAtsha204Soft.cpp:181-237 | after any run a message is accepted if and only if such a nonce is waiting, in time, and the message is genuine for it |
| SigningSession.AcceptedCarriesDigest | libraries/MySensors-2.0/core/MySigningAtsha204Soft.cpp:181-237 | a message is accepted if and only if the session is open and in time and the message has, behind its payload, the identifier 1 and the bytes of a digest from the second on: the mac of sender, destination, the four header bytes, payload and zeros under the waiting nonce; with a whitelist, that digest salted with the serial of the first entry for the sender, which has to exist |
| SigningSession.NonceServesOnce | libraries/MySensors-2.0/core/MySigningAtsha204Soft.cpp:181-237 | of two messages accepted in a run, the second has had a nonce of its own, given out after the first was accepted |
| SigningSession.AcceptedWithinIssued | libraries/MySensors-2.0/core/MySigningAtsha204Soft.cpp:101-237 | over any run no more messages are accepted than nonces are given out |
| SigningSession.SignedIsAccepted | libraries/MySensors-2.0/core/MySigningAtsha204Soft.cpp:115-237 | a message of at most 23 bytes, signed with the waiting nonce and relayed any number of times, is accepted in time |
| SigningSession.ExchangeIsAccepted | libraries/MySensors-2.0/core/MySigning.cpp:308-402 | the same when the nonce itself has been relayed to the signer |
| SoftSigner.Compare | libraries/MySensors-2.0/core/MySigning.cpp:423-450 | signerMemcmp returns 0 if and only if the bytes are equal, although it always looks at all of them |
| SoftSigner.SoftSigner.CheckTimer | libraries/MySensors-2.0/core/MySigningAtsha204Soft.cpp:101-113 | a late session is closed and both nonces are purged; otherwise nothing changes |
| SoftSigner.SoftSigner.GetNonce | libraries/MySensors-2.0/core/MySigningAtsha204Soft.cpp:115-139 | a session is open for the nonce that the message carries, filled up with 0xAA |
| SoftSigner.SoftSigner.CalculateSignature | libraries/MySensors-2.0/core/MySigningAtsha204Soft.cpp:241-303 | the digest is that of the covered bytes, padded, under the nonce, and the nonce is used up |
| SoftSigner.SoftSigner.SignMsg | libraries/MySensors-2.0/core/MySigningAtsha204Soft.cpp:149-179 | a message of at most 23 bytes becomes the signed message; a longer one is refused and stays as it is |
| SoftSigner.SoftSigner.VerifyMsg | libraries/MySensors-2.0/core/MySigningAtsha204Soft.cpp:181-238 | the session changes as the state machine says, and the answer is yes exactly when the state machine accepts, that is, as AcceptedCarriesDigest says |
| SigningDigest.Calculate | libraries/MySensors-2.0/core/MySigningAtsha204Soft.cpp:269-300 | the digest is HMAC-SHA256 over the fields of an ATSHA204 command around the SHA-256 of message and nonce |
| SigningDigest.TextsByPlace | libraries/MySensors-2.0/core/MySigningAtsha204Soft.cpp:249-300 | the texts that are hashed, byte by byte: opcode, parameters and serial number bytes at their places, message, digest and nonce at theirs, and zeros elsewhere |
| SigningBackend.Sign | libraries/MySensors-2.0/core/MySigningAtsha204Soft.cpp:241-303 | the SHA-256 class, run over the fields of the message, the nonce and the serial, computes the signature that the session model uses for a node with that key |
| Signing.SetEntry | libraries/MySensors-2.0/core/MySigning.cpp:50-53 | marking or clearing a node changes its entry and that of no other node |
| Signing.Signing.TakePresentation | libraries/MySensors-2.0/core/MySigning.cpp:201-262 | the two tables note the requirements of the sender; a gateway answers with its own only towards senders that have them |
| Signing.Signing.SignMsg | libraries/MySensors-2.0/core/MySigning.cpp:308-349 | a message to a node that requires it leaves signed with the first nonce from that node that comes in time, whatever else comes in, or does not leave; others are marked unsigned; a presentation, value or request that is no acknowledgement never leaves unsigned to such a node |
| Signing.Signing.VerifyMsg | libraries/MySensors-2.0/core/MySigning.cpp:351-402 | a message that has to be signed is passed exactly if it is and the signer accepts it; all others are passed untouched; no presentation, value or request that is no acknowledgement is passed unsigned at a node that requires signatures |
| TextFields.AtoiDecimal | libraries/MySensors-2.0/core/MyMessage.cpp:92-107 | a number written by itoa is read by atoi as the same number |
| TextFields.DecimalDigits | libraries/MySensors-2.0/core/MyMessage.cpp:92-107 | the last digit written is the character of the remainder by ten, and the others are those of the quotient |
| TextFields.FromHexOfHex | libraries/MySensors-2.0/core/MyProtocolMySensors.cpp:63-69 | hexadecimal text written by i2h is read back by protocolH2i |
| TextFields.HexDigits | libraries/MySensors-2.0/core/MyMessage.cpp:59-66 | the sixteen digits written are 0 to 9 and A to F, and a to f are read as well |
| TextFields.NextToken | libraries/MySensors-2.0/core/MyProtocolMySensors.cpp:37-40 | each call takes the next token, past any number of semicolons |
| Protocol.FieldsAreTokens | libraries/MySensors-2.0/core/MyProtocolMySensors.cpp:99-102 | a line of numbers and a payload is split into just those |
| Protocol.Parse | libraries/MySensors-2.0/core/MyProtocolMySensors.cpp:29-97 | the message is filled from the tokens, and accepted exactly if there are at least five |
| Protocol.Format | libraries/MySensors-2.0/core/MyProtocolMySensors.cpp:99-102 | the text is the line of the message and a newline |
| Protocol.LineFits | libraries/MySensors-2.0/core/MyProtocolMySensors.cpp:26-100 | every line fits the send buffer, so that nothing is cut off |
| Protocol.StringRoundTrip | libraries/MySensors-2.0/core/MyProtocolMySensors.cpp:29-102 | parsing a formatted text message keeps sensor, command and type, and turns sender into destination; the payload comes back unchanged if and only if it has no semicolon, no NUL and no line end as its last character |
| Protocol.StreamRoundTrip | libraries/MySensors-2.0/core/MyProtocolMySensors.cpp:60-96 | a binary stream payload always comes back unchanged |
| Protocol.NumberRoundTrip | libraries/MySensors-2.0/core/MyMessage.cpp:87-111 | an integer payload comes back as text that is read as the same number, which is that of NumberByBytes |
| Protocol.NumberByBytes | libraries/MySensors-2.0/core/MyMessage.cpp:92-101 | the number by the bytes of the payload, the lowest first; for the signed types the one number in range with these bytes in two's complement |

## Left out

- TransportNode.Node.RouteMessage: whether the message can be signed is given by the sequence of answers. In the source `signerSignMsg` may wait for a nonce and run `_process()` meanwhile (MySigning.cpp:308-333); a message handled there can start another transition of the state machine from within the handling of a message, which Handled does not allow for.
- TransportNode.Node.ProcessFIFO: "at most to stFailure" leaves out the same re-entry, which needs a signed network and an answer to a discovery in the middle of the queue.
- TransportNode.Node.ProcessMessage: registration, presentation, sleeping and other application messages that call back into the library are no-ops, and whether a signature is accepted is given by the tape.
- TransportNode.Node.PingNode: that the answer is the depth is a property of the network and is proved in MeshRouting; here the answer is any number.
- TransportNode.Node.EnterInit: the gateway, which goes from stInit straight to stOK, and static configurations other than a fixed address; the results of MY_TRANSPORT_SANITY_CHECK are a list.
- MeshRouting.StepKeeps: parents are fixed, only repeaters have children, all nodes are ready and acknowledgements are asked for only where there is a way back. Messages to destinations without a route that the parent has handed down, and routes learned from FIND_PARENT broadcasts, are shortcuts of the radio and no tree edges; they are not in this network.
- MeshRouting.RunKeeps: the same; flood control lets a node answer a search for a parent without a fresh ping, so that changing parents need not form a tree.
- MeshBroadcast.RunIsSafe: one broadcast at a time, and no duplicate receptions by the radio.
- AltSoftSerial.Transmitter.WriteByte: requires room in the ring, as after the wait; SerialSender.WriteByte has the wait. Interrupts take no time; peek, flushInput, flushOutput and timing_error are not modelled.
- Rs485.Transport.ProcessByte: requires that the frame in progress fits the buffer; for a length above 40 the source writes behind its buffer.
- Rs485.Transport.SerialProcess: requires the same of the bytes to come; the "wrongid" prints are not modelled.
- Rs485.Transport.WriteFrame: the wait for a clear line before sending, which can overwrite a packet that has not been fetched, is not modelled.
- OtaUpdate.FirmwareUpdate.ProcessConfig: only images of at least one block that fit the lower 32K behind the signature; with others the source writes outside the erased part.
- OtaUpdate.FirmwareUpdate.ProcessResponse: the block number in a reply is not looked at, as in the code; Download assumes that replies answer the last request.
- FlashMemory: the SST25 branch of writeBytes, the busy status and the SPI transfers themselves.
- PubSubClient.Client.ReadPacket: requires a length field of at most four bytes, which the source does not check, and says nothing of packets of 2^16 bytes and more, whose length wraps there.
- PubSubClient.Client.Loop: requires the same and a packet below 2^16 bytes, and that a PUBLISH has its topic and id inside the packet; the connection is up and no stream is attached; keep-alive and the connection handshake are left out.
- PubSubClient.Client.WritePacket: whether the connection took all bytes is arbitrary.
- Protocol.Parse: requires a hexadecimal payload of an even number of digits, at most fifty, since the source would read or write past its buffers; the NULs that strtok_r writes into the line are not modelled.
- Protocol.Format: messages with float payloads, which dtostrf prints, and with length fields above 25.
- Protocol.LineFits: the same.
- MyMessages: the setters for single numbers and the typed getters.
- SigningSession.AcceptedExactly: messages whose five-bit length field says more than the 25 bytes there are. For these `MAX_PAYLOAD-mGetLength` is negative and the source compares bytes outside the message, so that the outcome is not determined by it.
- SigningSession.AcceptedCarriesDigest: the same messages; at most 25 bytes of payload are assumed.
- SoftSigner.SoftSigner.CalculateSignature: the same bound on the length field; the source would hash bytes outside the message.
- SoftSigner.SoftSigner.VerifyMsg: the same bound; each call reads the clock once; the random numbers are a parameter; nothing is said about secrecy.
- Signing.Signing.VerifyMsg: the same bound.
- Signing.Signing.SignMsg: the wait for a nonce does not run the rest of the node, so that messages which it sends meanwhile are left out; so is the node lock.
- SoftTimer.SoftTimerClass.TestAndCall: callbacks change the chain only through add and remove, and no period or last call time but through add.
- SoftTimer.SoftTimerClass.Walk: a script says what each callback does, and the walk is followed as far as that goes, since callbacks that go on adding tasks make it endless; the endless loop of run is one walk after the other.
- Sha256.Sha256Class.ResultHmac: the key and text are shorter than 2^31 and 2^32 - 64 bytes.
- AES padding helpers, set_IV and iv_inc, and the do_aes wrappers only add easy members.
- The ATSHA204 chip backend, the radio, Ethernet and sensor drivers, and the author's sketches (LED fading, relay, button) have no visible hard semantics here.
