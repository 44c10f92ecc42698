# strongSwan: user-space IPsec data path and four protocol codecs

A Dafny model of the parts of strongSwan that carry state from packet to packet and from call to
call, with proofs about every run or every input:

- **ESP** (`EspContext.dfy`, `EspPacket.dfy`, `EspChannel.dfy`): the anti-replay ring, encapsulation,
  and two gateways with one SA between them over a network that drops, duplicates, reorders and makes
  up packets (RFC 4303).
- **SA manager** (`SaManager.dfy`, `SpiPool.dfy`): checkout, checkin and deferred deletion as
  interleaved critical sections, and the reservation of SPIs.
- **TLS record layer** (`TlsRecords.dfy`): reassembly of a byte stream cut anywhere, and building
  records into buffers of any size (section 6.2.1 of RFC 5246).
- **EAP-SIM/AKA** (`SimAka.dfy`, `SimAkaFormat.dfy`, `SimAkaObject.dfy`): printer, parser and MAC
  (RFC 4186, RFC 4187).
- **RADIUS** (`RadiusCipher.dfy`, `RadiusMessage.dfy`, `RadiusFormat.dfy`): the hash-chained cipher,
  attributes, signing and verifying (RFC 2865, RFC 2548, RFC 3579).
- **TLS 1.0 records** (`TlsCbc.dfy`): MAC, padding and CBC with an implicit IV (RFC 2246).
- **Stores** (`Policies.dfy`, `SessionCache.dfy`, `Suites.dfy`): the policy list, the TLS session
  cache and the cipher suite filters.

`Bytes.dfy` and `ExclusiveOr.dfy` hold what these share. `dafny verify dfyconfig.toml` checks
everything.

Ciphers, MACs, hashes and random sources are values that hold functions; what is needed of them
(opening undoes sealing, sizes are as announced) is a predicate `Lawful` in `requires`. In the ESP
channel the cipher is ideal: the receiver opens exactly what was sealed. Where C updates an object in
place the model is a class whose methods are proved equal to functions on values, and the properties
are proved about these functions. What these functions compute is also said without them: lemmas named
`...Exactly`, `...Format` and `...ByName` state it for all inputs in the numbers of the protocols. Threads are steps of a transition system; the mutex makes the code
between two condvar waits one step.

Seven results are conditions rather than plain promises, because the code does not meet the plain one:

- An AT_RES whose length modulo 256 is 32 or more comes back cut short, because the factor 8 is
  applied after `htons` (`SimAka.CutExactly`, `SimAkaMessages.UnchangedExactly`).
- The printer writes no MAC into notifications, so one that carries an encrypted notification code is
  refused by the peer (`SimAkaMessages.VerifyGenerated`,
  `SimAkaMessages.SecretNotificationIsRefused`).
- An IPv4 packet whose length field is below 20 does not survive encapsulation
  (`IpPackets.CreateIsIdempotent`, `IpPackets.NoLengthIsLost`, `EspPackets.EncapsulationRoundTrip`).
- Installing an outbound SA with `update` set frees an equal SPI that is still promised
  (`SpiPool.ReservationEndsExactly`, `SpiPool.OutboundUpdateFrees`).
- Caching a session under an identifier in use parts the table from the list
  (`SessionCache.AgreementExactly`, `SessionCache.RunAgreesExactly`).
- Verification of a RADIUS message does not return when an attribute with a length field of 0 comes
  before the first Message-Authenticator (`RadiusMessages.RadiusMessage.Verify`,
  `RadiusMessages.EndlessIsNeverVerified`).
- A RADIUS password padded to more than 253 bytes is cut when signed and cannot be decrypted
  (`RadiusMessages.PasswordRecovered`, `RadiusMessages.LongPasswordIsLost`).

## Model

| member | source | states |
|---|---|---|
| EspContexts.WindowRefinesSet | strongswan/src/libipsec/esp_context.c:106-174 | after any run of arrivals the ring accepts a number exactly when it exceeds every number accepted so far, or is positive, lies within 128 of the highest and was never accepted |
| EspContexts.VerifyIsFresh | strongswan/src/libipsec/esp_context.c:115-145 | in a ring that represents a set, the check answers membership in that set and nothing else |
| EspContexts.SlotIsBack | strongswan/src/libipsec/esp_context.c:106-113 | the wrapping 32-bit index arithmetic lands on the true ring position, because 128 divides 2^32 |
| EspContexts.AdvanceShifts | strongswan/src/libipsec/esp_context.c:157-168 | n turns of the shift loop clear exactly the n newest places and move every other bit back by n, up to a whole window |
| EspContexts.MarkAdds | strongswan/src/libipsec/esp_context.c:147-174 | marking an accepted number adds this number, which was new and positive, to the represented set and changes no other answer |
| EspContexts.RunRepresents | strongswan/src/libipsec/esp_context.c:115-174 | over any run the ring represents the set a receiver with unbounded memory would have, and the same highest number |
| EspContexts.BitsOfUpdate | strongswan/src/libipsec/esp_context.c:78-91 | setting or clearing one bit in the byte buffer changes this bit of the ring only |
| EspContexts.EspContext.SetWindowBit | strongswan/src/libipsec/esp_context.c:78-91 | in-place update of one ring bit |
| EspContexts.EspContext.GetWindowBit | strongswan/src/libipsec/esp_context.c:96-101 | reads the ring bit |
| EspContexts.EspContext.CheckWindow | strongswan/src/libipsec/esp_context.c:106-113 | true exactly for a number whose bit is clear |
| EspContexts.EspContext.VerifySeqno | strongswan/src/libipsec/esp_context.c:115-145 | agrees with the check on the ring value; an outbound context accepts nothing |
| EspContexts.EspContext.SetAuthenticatedSeqno | strongswan/src/libipsec/esp_context.c:147-174 | the buffer afterwards is the marked ring; in an outbound context number, index and buffer are unchanged |
| EspContexts.EspContext.NextSeqno | strongswan/src/libipsec/esp_context.c:182-191 | numbers count up by one and stop before they would cycle; a failure changes nothing |
| IpPackets.CreateIsIdempotent | strongswan/src/libipsec/ip_packet.c:283-379 | parsing the encoding of a parsed packet gives the same packet when the encoding still holds a whole header, and fails otherwise |
| IpPackets.NoLengthIsLost | strongswan/src/libipsec/ip_packet.c:283-379 | a concrete packet of the second kind: an IPv4 header with a length field of 0 |
| IpPackets.ReadV4 | strongswan/src/libipsec/ip_packet.c:283-330 | for any bytes: when an IPv4 packet is read, and which bytes are its addresses, protocol, payload and ports; later fragments have no ports |
| IpPackets.ExtensionIsSkipped | strongswan/src/libipsec/ip_packet.c:234-278 | an IPv6 extension header is skipped by the length it announces, and a fragment header takes the ports away |
| IpPackets.UpperLayerIsRead | strongswan/src/libipsec/ip_packet.c:191-278 | behind the extension headers: ports of whole TCP and UDP headers, failure exactly on cut ones, none in fragments |
| IpPackets.BuiltIsReadV4 | strongswan/src/libipsec/ip_packet.c:432-525 | a packet built from addresses, ports, protocol and data is read back with these, the data unchanged outside ports and checksum; it fails exactly when the data cuts the transport header short |
| IpPackets.BuiltIsReadV6 | strongswan/src/libipsec/ip_packet.c:432-547 | the same for IPv6 and every protocol that is not an extension header |
| EspPackets.GeneratePadding | strongswan/src/libipsec/esp_packet.c:271-279 | fills the buffer with the monotonic padding of its length |
| EspPackets.CheckPadding | strongswan/src/libipsec/esp_packet.c:155-167 | accepts exactly the padding that is generated |
| EspPackets.EspPacket.ParseHeader | strongswan/src/libipsec/esp_packet.c:131-150 | yields the SPI whose encoding the packet begins with, and none exactly if the header is cut short |
| EspPackets.EspPacket.RemovePadding | strongswan/src/libipsec/esp_packet.c:172-210 | succeeds exactly on a correct trailer around an IP packet, and then yields that packet and the next header |
| EspPackets.EspPacket.Decrypt | strongswan/src/libipsec/esp_packet.c:212-266 | status, recovered packet and window are those of decapsulation on values, which `DecapsulateExactly` describes; a failure leaves no payload |
| EspPackets.DecapsulateExactly | strongswan/src/libipsec/esp_packet.c:212-266 | for all bytes which status comes when, by length, freshness and the cipher's answer; a number is used up exactly if it is fresh and the cipher accepts the text, otherwise the window is as before |
| EspPackets.UnpadExactly | strongswan/src/libipsec/esp_packet.c:155-210 | a trailer comes off exactly if its length byte counts bytes 1, 2, 3 and so on before it and an IP packet is left |
| EspPackets.EspPacket.Encrypt | strongswan/src/libipsec/esp_packet.c:281-371 | the data on success is the wire format under the next number; which failures occur exactly when; a number is used up even by a failure |
| EspPackets.IcvBoundary | strongswan/src/libipsec/esp_packet.c:307-318 | the ICV starts on a 4-byte boundary for every payload, IV and block size |
| EspPackets.UsualSizesAlign | strongswan/src/libipsec/esp_packet.c:307-318 | with an IV of a multiple of 4 bytes and a block size of 1 or a multiple of 4 the padded text fills whole blocks |
| EspPackets.UnpadPlaintext | strongswan/src/libipsec/esp_packet.c:172-210 | removing the trailer of a built text gives the payload and next header back |
| EspPackets.WireLayout | strongswan/src/libipsec/esp_packet.c:281-371 | the receiver reads SPI, number, IV and sealed text where the sender put them, and accepts the length exactly when the text fills whole blocks |
| EspPackets.WireFormat | strongswan/src/libipsec/esp_packet.c:320-368 | SPI and number in network order, IV, and the sealed text with these eight bytes authenticated; the text ends in bytes 1, 2, 3 and so on, their number, and 4, 41 or 59 |
| EspPackets.EncapsulationRoundTrip | strongswan/src/libipsec/esp_packet.c:212-371 | whenever the pad length fits its byte, a packet built for an acceptable number is decapsulated to the IP packet and next header it carries, if and only if the text fills whole blocks and the encoding reparses; the number is then used up |
| EspChannel.ApplyKeepsInv | strongswan/src/libipsec/ipsec_processor.c:91-236 | every step keeps log, deliveries and window consistent and forgets nothing that was sealed or sent |
| EspChannel.RunKeepsInv | strongswan/src/libipsec/ipsec_processor.c:91-236 | every run from the start keeps log, deliveries and window consistent |
| EspChannel.RunExtends | strongswan/src/libipsec/ipsec_processor.c:189-236 | what was sealed or sent in a run is still there after any continuation of it |
| EspChannel.OpenedWasSent | strongswan/src/libipsec/esp_packet.c:212-266 | any bytes that pass the receiver's checks carry a number that was sent, and yield what was sent under it |
| EspChannel.DeliveredWasSentOnce | strongswan/src/libipsec/ipsec_processor.c:91-236 | in every run every delivered packet was sent on this SA under its own number, no number is delivered twice, and the deliveries are a sub-multiset of the sent packets |
| EspChannel.ForgedChangesNothing | strongswan/src/libipsec/ipsec_processor.c:91-168 | in every run, bytes that are no packet handed to the network change nothing when they arrive, the window included |
| EspChannel.ArrivalExactly | strongswan/src/libipsec/ipsec_processor.c:91-168 | in every run, a packet that was sent uses up its number exactly when that is fresh and its text fills whole blocks |
| EspChannel.SentThenDelivered | strongswan/src/libipsec/ipsec_processor.c:91-236 | after any run, a packet that is sent goes out under the next number, and arriving next it is delivered exactly when its text fills whole blocks, it can be read again and a policy allows it |
| EspChannel.GenuineIsDelivered | strongswan/src/libipsec/ipsec_processor.c:91-165 | whatever happened so far, a packet that was sent and arrives now is delivered exactly when its number is fresh, its text is aligned, it reparses and a policy allows it |
| EspChannel.OutputIsWire | strongswan/src/libipsec/ipsec_processor.c:189-236 | in every run the bytes handed to the network under a number are the wire format, under the sender's cipher, of what was sent under it |
| SaEntries.StepKeepsInv | strongswan/src/libipsec/ipsec_sa_mgr.c:165-207 | every critical section of every thread, spurious wakeups included, keeps the counter right, one holder, one remover, no lost wakeup |
| SaEntries.LifeKeepsInv | strongswan/src/libipsec/ipsec_sa_mgr.c:165-312 | every interleaving from the creation of the entry on keeps counter, holder, remover and wakeups right |
| SaEntries.CheckoutIsExclusive | strongswan/src/libipsec/ipsec_sa_mgr.c:190-207 | under every interleaving at most one thread holds an entry, a held entry is locked and listed, and when it is unlocked with a thread blocked some thread was woken and has not run |
| SaEntries.CheckoutExactly | strongswan/src/libipsec/ipsec_sa_mgr.c:190-207 | a thread that asks, at once or after waiting, has the SA afterwards exactly when the entry was free and not to be deleted, and waits exactly when it was locked and not to be deleted |
| SaEntries.CheckinExactly | strongswan/src/libipsec/ipsec_sa_mgr.c:656-672 | checking in frees the entry and wakes a blocked thread if there is one |
| SaEntries.RemoveExactly | strongswan/src/libipsec/ipsec_sa_mgr.c:164-184 | removing marks the entry, and unlists it at once exactly when it is free and nobody waits |
| SaEntries.NobodyIsShutOut | strongswan/src/libipsec/ipsec_sa_mgr.c:164-207 | whoever comes to a listed entry can ask for the SA or its removal, and every thread inside has a step |
| SaEntries.WaiterIsServed | strongswan/src/libipsec/ipsec_sa_mgr.c:190-207 | in every interleaving a thread that waits for an entry not to be deleted gets the SA: until then some thread can move, and the moves are bounded by the waiters and the other steps |
| SaEntries.UnlistingIsSafe | strongswan/src/libipsec/ipsec_sa_mgr.c:165-184 | the step that takes an entry off the list leaves it unlocked, without waiters, known to the removing thread only |
| SaEntries.DestructionIsSafe | strongswan/src/libipsec/ipsec_sa_mgr.c:588-620 | destruction happens once, after unlisting, with no other thread inside the manager for the entry, and nothing happens to it afterwards |
| SaEntries.DyingCanStep | strongswan/src/libipsec/ipsec_sa_mgr.c:165-207 | while an unlocked entry awaits deletion some thread can run |
| SaEntries.DyingStep | strongswan/src/libipsec/ipsec_sa_mgr.c:165-207 | every turn of a woken thread at such an entry lowers a rank or removes the entry |
| SaEntries.DyingOther | strongswan/src/libipsec/ipsec_sa_mgr.c:190-207 | arrivals, second removers and spurious wakeups leave such an entry dying and raise the rank by at most one |
| SaEntries.DeletionCompletes | strongswan/src/libipsec/ipsec_sa_mgr.c:165-230 | under every interleaving an entry that awaits deletion and was checked in leaves the list after at most 2 * waiters + 1 turns of woken threads plus one per other step, and until then some thread can run |
| SaManagers.StepKeepsInv | strongswan/src/libipsec/ipsec_sa_mgr.c:213-312 | steps on any entry keep the list equal to the listed entries, each once |
| SaManagers.StepIsLocal | strongswan/src/libipsec/ipsec_sa_mgr.c:139-150 | a new entry is free and first in the list; a step changes its own entry only and takes it off the list exactly when it unlists it |
| SaManagers.ManagerIsSafe | strongswan/src/libipsec/ipsec_sa_mgr.c:213-312 | over any number of SAs: an entry some thread holds, waits for or removes stays on the list; a destroyed one is off the list and known to nobody |
| SpiPool.SpanIsExact | strongswan/src/libipsec/ipsec_sa_mgr.c:427-462 | for every configured range the divisor is positive, nothing wraps and the lower bound is at least 256 |
| SpiPool.EverySpiCanBeDrawn | strongswan/src/libipsec/ipsec_sa_mgr.c:453-465 | every SPI of the range is the outcome of some draw |
| SpiPool.DrawableExactly | strongswan/src/libipsec/ipsec_sa_mgr.c:427-465 | the SPIs that can be drawn are exactly those between the two bounds, whichever is larger, from 256 on; 256 alone if there are none |
| SpiPool.SaTable.FindInbound | strongswan/src/libipsec/ipsec_sa_mgr.c:241-250 | finds exactly the SPIs an inbound SA carries |
| SpiPool.SaTable.AllocateSpi | strongswan/src/libipsec/ipsec_sa_mgr.c:405-419 | reserves the SPI exactly if it is neither pending nor installed inbound |
| SpiPool.SaTable.GetSpi | strongswan/src/libipsec/ipsec_sa_mgr.c:421-472 | returns and reserves the first drawn SPI that is free; changes nothing when the random source fails |
| SpiPool.SaTable.AddSa | strongswan/src/libipsec/ipsec_sa_mgr.c:474-526 | installs unless SPI and addresses match an SA; with update the pending SPI goes either way |
| SpiPool.InstallExactly | strongswan/src/libipsec/ipsec_sa_mgr.c:474-526 | an SA is installed exactly if it could be created and no other has its SPI and addresses, so these stay unique |
| SpiPool.DrawnIsFree | strongswan/src/libipsec/ipsec_sa_mgr.c:421-472 | a returned SPI was free, in range and at least 256, and that of the first draw that was free; none is returned only if every draw was taken |
| SpiPool.ReservationEndsExactly | strongswan/src/libipsec/ipsec_sa_mgr.c:474-620 | a reservation survives every operation except those of a stated kind, and ends with each of these |
| SpiPool.StaysReserved | strongswan/src/libipsec/ipsec_sa_mgr.c:405-526 | a returned SPI stays reserved in every run as long as no operation releases it |
| SpiPool.SpiIsExclusive | strongswan/src/libipsec/ipsec_sa_mgr.c:405-526 | in every run an SPI is not returned twice unless an operation released it in between |
| SpiPool.OutboundUpdateFrees | strongswan/src/libipsec/ipsec_sa_mgr.c:503-509 | the release that needs no inbound SA: an outbound installation with update frees a promised SPI, and the next request gets it |
| TlsFrames.ParseConserves | strongswan/src/libtls/tls.c:193-281 | cutting a stream into records loses no byte and leaves no whole record behind |
| TlsFrames.ParseEncodeAll | strongswan/src/libtls/tls.c:193-344 | cutting undoes encoding, whatever follows |
| TlsFrames.RecordFormat | strongswan/src/libtls/tls.c:302-312 | type, version and length in network order, and the data, at their offsets |
| TlsStack.Reader.FillHead | strongswan/src/libtls/tls.c:200-215 | a split header is completed without losing bytes |
| TlsStack.Reader.Deliver | strongswan/src/libtls/tls.c:233-240 | a record handed up is added to those delivered, and the answer is the upper layer's |
| TlsStack.Reader.ProcessInline | strongswan/src/libtls/tls.c:219-247 | whole records are delivered straight from the caller's buffer; what is left is an incomplete header or record |
| TlsStack.Reader.FillInput | strongswan/src/libtls/tls.c:256-260 | the record buffer takes what it lacks and no more, and no byte is lost |
| TlsStack.Reader.FinishInput | strongswan/src/libtls/tls.c:263-278 | a complete buffered record is delivered and the buffer freed |
| TlsStack.Reader.Turn | strongswan/src/libtls/tls.c:217-279 | one turn conserves the stream and lowers the pair of remaining bytes and buffer size |
| TlsStack.Reader.Process | strongswan/src/libtls/tls.c:193-281 | while the upper layer asks for more, delivered plus buffered bytes are all bytes fed; otherwise the delivered ones are a prefix of them |
| TlsStack.StreamDeterminesRecords | strongswan/src/libtls/tls.c:193-281 | conservation alone fixes the delivered records: they are the parse of the stream, except that a last record without body may be held |
| TlsStack.PrefixDeterminesRecords | strongswan/src/libtls/tls.c:193-281 | records delivered from a prefix are the first records of the stream |
| TlsStack.StopIsUnique | strongswan/src/libtls/tls.c:235-277 | the record that stops the reader, and the status, do not depend on how the stream was cut |
| TlsStack.StopsUnlessHeld | strongswan/src/libtls/tls.c:193-281 | when one cutting of a stream stops the reader and another does not, the other holds exactly the stopping record, which is the last and has no body |
| TlsStack.Feed | strongswan/src/libtls/tls.c:193-281 | for every way to cut a stream the delivered records are its parse, up to the first status other than NEED_MORE |
| TlsStack.Writer.Collect | strongswan/src/libtls/tls.c:295-320 | takes records from the upper layer until it answers otherwise, and encodes exactly these |
| TlsStack.Writer.Drain | strongswan/src/libtls/tls.c:333-343 | hands out what fits, keeps the rest in order, and reports completion exactly when all is out |
| TlsStack.Writer.Build | strongswan/src/libtls/tls.c:283-344 | bytes handed out plus bytes kept are the encoding of the records taken; each status exactly when; records taken plus those still to come are what the upper layer offers, also on a failure; a call with room brings the end closer |
| TlsStack.DrawTakes | strongswan/src/libtls/tls.c:295-320 | one round takes the first of the offered records and leaves the others; it makes progress unless nothing is left |
| TlsStack.OfferedConcat | strongswan/src/libtls/tls.c:295-320 | what is offered is, answer by answer, the record if it is one and nothing otherwise |
| TlsStack.Transmit | strongswan/src/libtls/tls.c:283-344 | over any buffer sizes the records taken are the first that the upper layer offers and the bytes emitted are a prefix of their encoding, all of it once the output is drained; enough calls with room take and emit everything offered |
| TlsStack.PrefixReassembled | strongswan/src/libtls/tls.c:193-344 | reassembling a prefix of an encoding gives the first records encoded, and reassembling all of it gives all of them save a last empty one that may be held |
| TlsStack.BuildThenProcess | strongswan/src/libtls/tls.c:193-344 | for any buffer sizes of successive build calls, any cutting of the bytes and any upper layers, the peer delivers the records the sending upper layer offers, in their order, up to the one that stops it; while it asks for more, all that were taken once the output is drained and all that were offered after enough calls, save a last empty one that may be held |
| SimAka.CutExactly | strongswan/src/libsimaka/simaka_message.c:694-699 | an attribute comes back unchanged exactly when it is no AT_RES or its length is below 32 modulo 256 |
| SimAka.ResponseOf32IsLost | strongswan/src/libsimaka/simaka_message.c:694-699 | a concrete loss: every AT_RES of 32 bytes comes back empty |
| SimAka.CountedRoundTrips | strongswan/src/libsimaka/simaka_message.c:363-392 | an attribute with an own length field is taken back whatever follows it, an AT_RES cut to what its length field still says |
| SimAka.AttrRoundTrips | strongswan/src/libsimaka/simaka_message.c:307-447 | every attribute of every layout whose length fits it is taken back whatever follows, with an AT_RES cut, and occupies exactly its encoding |
| SimAka.ParseEncoded | strongswan/src/libsimaka/simaka_message.c:307-485 | the encoding of any list of attributes adds exactly these attributes in order, each AT_RES cut, and the P bit drops exactly with an encrypted notification |
| SimAkaMessages.PadUnits | strongswan/src/libsimaka/simaka_message.c:761-770 | the padding attribute is a positive multiple of 4, at most a block, and fills the last block |
| SimAkaMessages.ParsePadding | strongswan/src/libsimaka/simaka_message.c:437-447 | the padding attribute is consumed without a trace |
| SimAkaMessages.SelectEncodable | strongswan/src/libsimaka/simaka_message.c:634-655 | the selection by treatment holds exactly attributes of that treatment |
| SimAkaMessages.DecryptSealed | strongswan/src/libsimaka/simaka_message.c:490-517 | decrypting what was sealed adds the secret attributes in order |
| SimAkaMessages.AssembledMac | strongswan/src/libsimaka/simaka_message.c:804-842 | the MAC is the last 16 bytes, and zeroing it gives the message that was signed |
| SimAkaMessages.GeneratedIs | strongswan/src/libsimaka/simaka_message.c:749-847 | every generated message is a sealing and, where its kind needs one, a MAC over the message with zeroes in its place, within the buffer |
| SimAkaMessages.ParseAssembled | strongswan/src/libsimaka/simaka_message.c:519-536 | a message assembled from attributes, IV, ciphertext and MAC parses to exactly these, each AT_RES cut |
| SimAkaMessages.ParseGenerated | strongswan/src/libsimaka/simaka_message.c:519-848 | for any attributes of type-correct length, parsing a generated message yields the clear attributes in order followed by the encrypted ones in order, without those the printer has no rule for and with each AT_RES cut; the MAC is found at the end, the length field is right and the buffer is not exceeded |
| SimAkaMessages.UnchangedExactly | strongswan/src/libsimaka/simaka_message.c:519-848 | these are the attributes that were put in if and only if every AT_RES has a length below 32 modulo 256 |
| SimAkaMessages.VerifyGenerated | strongswan/src/libsimaka/simaka_message.c:538-848 | for any attributes of type-correct length, a peer with the same keys accepts a generated message if and only if it is a challenge, a reauthentication, of an unprotected kind, or a notification without an encrypted code |
| SimAkaMessages.SecretNotificationIsRefused | strongswan/src/libsimaka/simaka_message.c:569-584 | a concrete message that is printed and then refused: a notification with an encrypted code |
| SimAkaFormat.RulesByNumber | strongswan/src/libsimaka/simaka_message.c:634-744 | which attributes, by number, are printed at all and which are encrypted |
| SimAkaFormat.AttributeFormat | strongswan/src/libsimaka/simaka_message.c:656-744 | the bytes printed for every kind of attribute, by number: length in units of four bytes, reserved or length field, value, padding |
| SimAkaFormat.TakenExactly | strongswan/src/libsimaka/simaka_message.c:307-488 | for any bytes: an attribute is taken exactly when its length fits its kind and the bytes there are, and it is not secret outside of encrypted data; and with which value |
| SimAkaFormat.GeneratedFormat | strongswan/src/libsimaka/simaka_message.c:609-848 | a generated message byte by byte: header with its length, clear attributes, AT_IV, AT_ENCR_DATA over the secret attributes and their padding, and AT_MAC over the message with zeroes in its place |
| SimAkaFormat.SecretsAreSealed | strongswan/src/libsimaka/simaka_message.c:631-656 | every secret attribute is in the encrypted part and none is in the clear |
| SimAkaFormat.ClearReadExactly | strongswan/src/libsimaka/simaka_message.c:307-488 | a list of clear attributes is read exactly when none is secret and no notification follows one whose P bit is clear, and then all of it is kept |
| SimAkaFormat.DecryptedExactly | strongswan/src/libsimaka/simaka_message.c:490-517 | encrypted data is read only if it is whole blocks and the cipher opens it |
| SimAkaFormat.AcceptedExactly | strongswan/src/libsimaka/simaka_message.c:538-607 | for every message and state, by subtype number: which are accepted always, which never, and which exactly if a MAC lies in them that is the signer's value over the zeroed message |
| SimAkaFormat.AlteredMacIsRefused | strongswan/src/libsimaka/simaka_message.c:538-607 | a generated challenge or reauthentication whose MAC is replaced by any other 16 bytes still parses and is refused |
| SimAkaObject.ParseInTwoCalls | strongswan/src/libsimaka/simaka_message.c:519-536 | parsing before the keys are known and again afterwards gives what one call with the keys gives, for every input |
| SimAkaObject.PassRepeats | strongswan/src/libsimaka/simaka_message.c:451-479 | a pass that kept no attribute ends in the same state when repeated |
| SimAkaObject.SecondVerify | strongswan/src/libsimaka/simaka_message.c:591-606 | verifying consumes the MAC: a second check accepts exactly when the MAC computed is all zeroes |
| SimAkaObject.Message.AddAttribute | strongswan/src/libsimaka/simaka_message.c:251-262 | appends to the list |
| SimAkaObject.Message.Record | strongswan/src/libsimaka/simaka_message.c:451-479 | special attributes set their field, others are kept; a phase 0 notification in the clear is refused without effect |
| SimAkaObject.Message.ParseAttributes | strongswan/src/libsimaka/simaka_message.c:307-485 | ends as the parser on values does, with the same fields, and a MAC found lies inside the message |
| SimAkaObject.Message.Decrypt | strongswan/src/libsimaka/simaka_message.c:490-517 | decrypts once keys, IV and data are there; the mode flag is reset |
| SimAkaObject.Message.Parse | strongswan/src/libsimaka/simaka_message.c:519-536 | first call parses and decrypts, later calls only decrypt |
| SimAkaObject.Message.Verify | strongswan/src/libsimaka/simaka_message.c:538-607 | for any message: by subtype number, accepted exactly if the MAC in it is the signer's value; a MAC that dangles in freed memory is named as such; the MAC bytes are zero afterwards exactly if they were looked at, all others unchanged |
| SimAkaObject.Message.EncodeAttributes | strongswan/src/libsimaka/simaka_message.c:630-747 | the two buffers hold the encodings of the clear and of the secret attributes, in order |
| SimAkaObject.PutSealed | strongswan/src/libsimaka/simaka_message.c:749-802 | pads and encrypts the second buffer and appends IV and ciphertext to the first, or fails as the cipher does |
| SimAkaObject.Finish | strongswan/src/libsimaka/simaka_message.c:804-847 | reserves the MAC, fills in the length, then signs in place |
| SimAkaObject.Message.Generate | strongswan/src/libsimaka/simaka_message.c:609-848 | the message produced in the fixed buffers is the generated message on values; a failing random source fails exactly messages with secret attributes |
| ExclusiveOr.XorBitsCancel | strongswan/src/libradius/radius_message.c:437-440 | masking twice restores the bits |
| ExclusiveOr.XorByteBits | strongswan/src/libstrongswan/utils/utils/memory.c:23-62 | a bit of the result is set exactly when the bits of the operands differ |
| RadiusCipher.EncryptionFormula | strongswan/src/libradius/radius_message.c:404-414 | for every block a bit of c(i) is set exactly when the bits of p(i) and H(S, c(i-1)) differ, with authenticator and salt for c(0); a block stays as it is exactly when its mask is zero |
| RadiusCipher.ChainUndone | strongswan/src/libradius/radius_message.c:398-457 | each direction undoes the other, for any number of blocks |
| RadiusCipher.Round | strongswan/src/libradius/radius_message.c:437-455 | one block is masked in place; the next seed is the block written when the buffers are one, the block read when they are two |
| RadiusCipher.Rounds | strongswan/src/libradius/radius_message.c:437-455 | all blocks in turn compute the chain of the chosen direction |
| RadiusCipher.Crypt | strongswan/src/libradius/radius_message.c:398-457 | with one buffer it encrypts, with two it decrypts and leaves the input alone; wrong lengths are refused without effect |
| RadiusCipher.DecryptMppeKey | strongswan/src/libradius/radius_socket.c:302-316 | yields the key named by the first decrypted byte, or nothing |
| RadiusCipher.MppeKeyRecovered | strongswan/src/libradius/radius_socket.c:302-316 | a key of up to 255 bytes encrypted in one buffer is found again by decryption into another |
| RadiusMessages.AppendedItem | strongswan/src/libradius/radius_message.c:246-269 | an added attribute is enumerated last, with its value at its place, and the others stay |
| RadiusMessages.ItemsLie | strongswan/src/libradius/radius_message.c:246-269 | every enumerated value lies inside the message where its position says |
| RadiusMessages.WholeNeverLoops | strongswan/src/libradius/radius_message.c:374-396 | in a message built by additions the search for a Message-Authenticator always ends |
| RadiusMessages.EnumeratesAdded | strongswan/src/libradius/radius_message.c:246-396 | the enumerator yields what any run of additions added, in order, each value cut to 253 bytes |
| RadiusMessages.FirstAuth | strongswan/src/libradius/radius_message.c:561-594 | finds a Message-Authenticator if there is one |
| RadiusMessages.PasswordKeepsPlain | strongswan/src/libradius/radius_message.c:484-494 | adding the encrypted password changes neither authenticator nor the presence of EAP and Message-Authenticator attributes |
| RadiusMessages.MacAttests | strongswan/src/libradius/radius_message.c:496-509 | the attribute check accepts a message exactly when an EAP-Message in it came with the computed Message-Authenticator |
| RadiusMessages.SignedVerifies | strongswan/src/libradius/radius_message.c:459-609 | on a request signed with a random authenticator, or any other code signed over a request authenticator, verification under the same secret returns, and accepts if and only if an EAP-Message in it came with a Message-Authenticator, given that none was added by hand |
| RadiusMessages.EndlessIsNeverVerified | strongswan/src/libradius/radius_message.c:526-609 | a concrete message that passes parsing and on which verification does not return, whatever the secret |
| RadiusMessages.PasswordRecovered | strongswan/src/libradius/radius_message.c:459-496 | the User-Password of a signed request decrypts, with the authenticator in the request, to the padded password if and only if that fits one attribute; a longer one is cut to 253 bytes, which are not whole blocks |
| RadiusMessages.LongPasswordIsLost | strongswan/src/libradius/radius_message.c:459-496 | a request signed with any 256 bytes of padded password carries 253 of them, which do not decrypt |
| RadiusFormat.SignedFormat | strongswan/src/libradius/radius_message.c:459-524 | a signed message byte by byte: the message, the encrypted password, the HMAC over everything with zeroes in its place, and the random authenticator or the hash over message, request authenticator and secret |
| RadiusFormat.VerdictExactly | strongswan/src/libradius/radius_message.c:526-609 | for any message: a response whose authenticator is not that hash is refused; otherwise accepted exactly if its first Message-Authenticator is the HMAC, and there is one if there is an EAP-Message |
| RadiusFormat.LoopsExactly | strongswan/src/libradius/radius_message.c:246-269 | the search does not end exactly when there is no Message-Authenticator and the last attribute found has a length field of 0 |
| RadiusMessages.RadiusMessage.Add | strongswan/src/libradius/radius_message.c:374-396 | a first password is kept aside padded; everything else is appended, and the message stays well-formed as long as its length fits 16 bits |
| RadiusMessages.RadiusMessage.FlushPassword | strongswan/src/libradius/radius_message.c:484-494 | encrypts the pending password in its own buffer, adds it and clears it; the exact growth, and a well-formed message as long as its length fits 16 bits |
| RadiusMessages.RadiusMessage.AddMac | strongswan/src/libradius/radius_message.c:496-509 | signs over zeroes and puts the result in their place |
| RadiusMessages.RadiusMessage.Sign | strongswan/src/libradius/radius_message.c:459-524 | succeeds exactly when every primitive does, with the signed message on values and no password left |
| RadiusMessages.RadiusMessage.CheckMac | strongswan/src/libradius/radius_message.c:571-589 | compares against the HMAC over the zeroed message and restores the bytes on success |
| RadiusMessages.RadiusMessage.CheckAttributes | strongswan/src/libradius/radius_message.c:561-595 | the first Message-Authenticator decides, otherwise whether there is an EAP-Message is known; a length field of 0 in front of it makes the search endless |
| RadiusMessages.RadiusMessage.Verify | strongswan/src/libradius/radius_message.c:526-609 | for any received bytes: accepts exactly the messages that verify, and then every byte is as before; does not return exactly when the search is endless |
| TlsCbc.CbcUndone | strongswan/src/libtls/tls_aead_impl.c:110-116 | CBC decryption undoes encryption |
| TlsCbc.CbcConcat | strongswan/src/libtls/tls_aead_impl.c:91-92 | encrypting on from the last ciphertext block is one encryption of the concatenation |
| TlsCbc.CbcFormula | strongswan/src/libtls/tls_aead_impl.c:86-92 | every block is enciphered with the ciphertext block before it, or the IV, mixed in |
| TlsCbc.StripPadded | strongswan/src/libtls/tls_aead_impl.c:117-128 | the padding check accepts and removes exactly what encryption added |
| TlsCbc.MacCoversRecord | strongswan/src/libtls/tls_aead_impl.c:46-70 | the bytes the MAC is computed over determine sequence number, type, version and contents of the record |
| TlsCbc.OpenSealed | strongswan/src/libtls/tls_aead_impl.c:56-150 | a protected record opens to its data unless the crypter fails on it, and both sides derive the same next IV in either case |
| TlsCbc.SealedFormat | strongswan/src/libtls/tls_aead_impl.c:56-94 | a protected record decrypts to the data, the MAC over header and data, and padding bytes that all hold their number less one |
| TlsCbc.OpenedExactly | strongswan/src/libtls/tls_aead_impl.c:96-150 | for any text: data comes out exactly if it is whole blocks, the crypter works, the padding is uniform and the end of the rest is the MAC over header and that data |
| TlsCbc.TransferKeepsStep | strongswan/src/libtls/tls_aead_impl.c:56-150 | one record keeps sender and receiver in step |
| TlsCbc.ConnectionStaysInStep | strongswan/src/libtls/tls_aead_impl.c:56-150 | over any run of records in order, failures of MAC and crypter included, the IVs stay equal, every protected record is received as it was sent unless the receiver's crypter failed on it, and the ciphertexts together are one CBC encryption of the padded plaintexts together |
| TlsCbc.StripPadding | strongswan/src/libtls/tls_aead_impl.c:117-128 | the loop over the padding bytes decides as the quantified check |
| TlsCbc.TlsAead.SetKeys | strongswan/src/libtls/tls_aead_impl.c:170-180 | takes an IV of the cipher's size only, then the MAC key, then the cipher key; a failing key keeps what was set before it |
| TlsCbc.TlsAead.Encrypt | strongswan/src/libtls/tls_aead_impl.c:56-94 | produces the sealed record and keeps its last block; a failing MAC or crypter leaves the IV alone |
| TlsCbc.TlsAead.Decrypt | strongswan/src/libtls/tls_aead_impl.c:96-150 | opens the record; the IV moves on whenever the size is right, also when crypter, padding or MAC fail |
| Policies.PriorityIsExact | strongswan/src/libipsec/ipsec_policy_mgr.c:73-113 | for prefixes up to 128 the 32-bit computation neither wraps nor underflows |
| Policies.PriorityIsLexicographic | strongswan/src/libipsec/ipsec_policy_mgr.c:73-113 | priorities compare exactly as passthrough before default before routed before fallback does, then the total prefix length, then a given port, then a given protocol; equal exactly if all agree |
| Policies.FirstIsNewest | strongswan/src/libipsec/ipsec_policy_mgr.c:197-210 | the entry a deletion removes is the most recently added equal policy |
| Policies.ApplyRefines | strongswan/src/libipsec/ipsec_policy_mgr.c:140-234 | every operation keeps the list sorted, newest first among equals, with the live policies of the history |
| Policies.RunRefines | strongswan/src/libipsec/ipsec_policy_mgr.c:140-234 | after every run the list is sorted, newest first among equals, and holds the live policies of the history |
| Policies.FindIsBest | strongswan/src/libipsec/ipsec_policy_mgr.c:236-263 | in such a list the first match is the best match |
| Policies.LookupIsBestMatch | strongswan/src/libipsec/ipsec_policy_mgr.c:140-263 | after any run of additions, deletions and flushes lookup returns the policy of lowest priority, most recently added among these, of all that match packet, direction and reqid; nothing only if none matches |
| Policies.FoundCovers | strongswan/src/libipsec/ipsec_policy.c:107-134 | after any run the policy found was added, is for IPsec, of the direction and reqid asked for, and covers addresses, ports and protocol of the packet; none is found only if no live policy does |
| Policies.NothingOutranksFound | strongswan/src/libipsec/ipsec_policy_mgr.c:73-263 | after any run no live policy that applies is of an earlier class or outranks the one found otherwise, and of those level with it none is newer |
| Policies.LiveCopies | strongswan/src/libipsec/ipsec_policy_mgr.c:140-234 | adding makes one more copy of a policy live, deleting one less, flushing none, and no other policy is concerned |
| Policies.PolicyManager.AddPolicy | strongswan/src/libipsec/ipsec_policy_mgr.c:140-175 | inserts before the first entry that is not more urgent; ignores forward and non-IPsec policies |
| Policies.PolicyManager.DelPolicy | strongswan/src/libipsec/ipsec_policy_mgr.c:177-217 | removes the first equal entry, and reports failure exactly if there is none |
| Policies.PolicyManager.FlushPolicies | strongswan/src/libipsec/ipsec_policy_mgr.c:219-234 | empties the list |
| Policies.PolicyManager.FindByPacket | strongswan/src/libipsec/ipsec_policy_mgr.c:236-263 | returns the first policy that applies |
| SessionCache.CreateKeepsInv | strongswan/src/libtls/tls_cache.c:104-133 | creating a session under an unused identifier keeps table and list equal and within the limit |
| SessionCache.AgreementExactly | strongswan/src/libtls/tls_cache.c:104-133 | table and list agree after a creation if and only if the identifier was not in use |
| SessionCache.RunAgrees | strongswan/src/libtls/tls_cache.c:104-133 | over any run with unused identifiers table and list hold the same entries, at most max_sessions |
| SessionCache.RunAgreesExactly | strongswan/src/libtls/tls_cache.c:104-133 | table and list agree at every point of a run of new entries if and only if no session is created under an identifier in use |
| SessionCache.KeepsNewest | strongswan/src/libtls/tls_cache.c:104-133 | whatever is created, the list is the newest max_sessions entries, newest first |
| SessionCache.CheckIsFirst | strongswan/src/libtls/tls_cache.c:173-197 | check returns the newest usable session, and one whenever there is one |
| SessionCache.CheckedIsFound | strongswan/src/libtls/tls_cache.c:135-197 | a session check offers is found by lookup with that identity at the same instant |
| SessionCache.FoundIsChecked | strongswan/src/libtls/tls_cache.c:135-197 | a session lookup finds for its own identity makes check offer one for it |
| SessionCache.LookupExactly | strongswan/src/libtls/tls_cache.c:104-171 | after any run with unused identifiers a session is found exactly if it is among the last max_sessions created, not too old, and of no other identity |
| SessionCache.OfferExactly | strongswan/src/libtls/tls_cache.c:104-197 | after any run the session offered is the newest of the last max_sessions created that is not too old and has the identity; none only if there is none |
| SessionCache.TlsCache.Add | strongswan/src/libtls/tls_cache.c:104-133 | changes list and table as the creation on values does |
| SessionCache.TlsCache.Find | strongswan/src/libtls/tls_cache.c:135-171 | yields suite and master secret of the entry found, or suite 0 |
| SessionCache.TlsCache.Offer | strongswan/src/libtls/tls_cache.c:173-197 | yields the identifier check decides on |
| Suites.FilterIsSublist | strongswan/src/libtls/tls_crypto.c:651-973 | a filter keeps exactly the elements that satisfy the predicate, at increasing positions |
| Suites.FilterTwice | strongswan/src/libtls/tls_crypto.c:978-993 | two passes are one pass with both predicates |
| Suites.Compact | strongswan/src/libtls/tls_crypto.c:723-756 | the in-place loop leaves the filtered list at the front of the array |
| Suites.FindsOne | strongswan/src/libtls/tls_crypto.c:664-714 | some listed algorithm serves the suite, or the pass does not concern it |
| Suites.FilterSuite | strongswan/src/libtls/tls_crypto.c:651-718 | the pass over an algorithm enumerator leaves the suites it supports, in order |
| Suites.FilterUnsupported | strongswan/src/libtls/tls_crypto.c:978-993 | the six algorithm passes together |
| Suites.FindsToken | strongswan/src/libtls/tls_crypto.c:774-806 | some token of the setting fits the suite |
| Suites.FilterTokens | strongswan/src/libtls/tls_crypto.c:770-810 | the pass over a setting leaves the suites that one of its tokens fits, in order |
| Suites.FilterConfigured | strongswan/src/libtls/tls_crypto.c:761-973 | the four passes over settings together leave what every setting admits; a missing setting filters nothing |
| Suites.BuildCipherSuiteList | strongswan/src/libtls/tls_crypto.c:998-1041 | the list is the order-preserving sublist of the table that satisfies every pass |
| Suites.ListedExactly | strongswan/src/libtls/tls_crypto.c:651-1041 | a suite is listed exactly if it encrypts where required, its key is wanted, its cipher, MAC, group, PRF and hash are available, and every setting admits it |
| Suites.KeyExchangesByName | strongswan/src/libtls/tls_crypto.c:777-805 | which key exchanges the tokens admit |
| Suites.CiphersByName | strongswan/src/libtls/tls_crypto.c:832-885 | which ciphers and key sizes the tokens admit |
| Suites.MacsByName | strongswan/src/libtls/tls_crypto.c:912-935 | which MACs the tokens admit |
| Suites.FindSuite | strongswan/src/libtls/tls_crypto.c:634-646 | a row of that suite, or none exists |
| Suites.SelectableExactly | strongswan/src/libtls/tls_crypto.c:1166-1195 | a suite can be selected exactly if it was offered and its first row in the table fits the key and gives PRF and transforms |
| Suites.TlsCrypto.CreateCiphers | strongswan/src/libtls/tls_crypto.c:1124-1164 | the old PRF and transforms are gone in any case; the new ones are in place exactly as far as they can be created, transforms only as a whole |
| Suites.TlsCrypto.TryOffered | strongswan/src/libtls/tls_crypto.c:1173-1191 | one suite against all that were offered: accepted exactly if selectable, and nothing is touched if it is no candidate |
| Suites.TlsCrypto.SelectCipherSuite | strongswan/src/libtls/tls_crypto.c:1166-1195 | the first suite in local order that was offered, fits the key and can be created, with its PRF and transforms in place; 0 if there is none, and then the suite is unchanged, the transforms are gone if any candidate was tried, and the PRF is what the last one left |

## Left out

- Real cryptography, random sources and plugins: parameters with the laws needed.
- `find_first` in the SA manager: a step may concern any listed entry, which covers every match; that a waiter's match still holds when it is granted the SA is not claimed.
- SA expiry: scheduling and wall clock; a hard expiry is a removal like any other, and the `expire` callback under the mutex needs no checkout.
- Memory: freeing, and the reuse of the address of a freed entry.
- `update_sa`: that SPI and addresses stay unique, which it does not ensure.
- ESP channel: the policy lookup of `process_inbound` is an arbitrary answer per packet (the lookup itself is in `Policies.dfy`), the SA is found by its SPI, and one SA pair is modelled.
- EspPackets.EncapsulationRoundTrip: for pads that fit the pad length byte; the channel for block sizes up to 253, and 256 with an IV of a multiple of 4 bytes, where every pad does.
- Internet checksums, which are given by a function, and UDP encapsulation.
- SIM/AKA parsing of a zero length or of a value that runs past the message: undefined in C, here the outcomes `Stuck` and `Beyond`; a MAC inside decrypted data, which dangles in C, is `Gone`.
- SimAkaMessages.ParseGenerated: for IVs and MACs of 16 bytes, which the parser insists on, and a little-endian host.
- RadiusMessages.RadiusMessage.Add: what further additions do to a message whose length has wrapped past 65535.
- RadiusMessages.RadiusMessage.Sign: messages that signing makes longer than 65535 bytes, where the 16-bit length field wraps.
- RadiusMessages.SignedVerifies: the same messages.
- RadiusMessages.PasswordRecovered: the same messages.
- Partially overlapping buffers of `crypt`: buffers are one or disjoint.
- TlsCbc.TlsAead.Encrypt: the IV has the size of a block.
- Policies: `to_subnet` and address inclusion of traffic selectors are given as prefix, port and ranges.
- Suites: the table of suites, the algorithm enumerators, the names of suites and the creation of transforms are parameters; parsing of the settings into tokens.
- SessionCache.CheckedIsFound: entries are not younger than now, as the clock is monotonic.
- TLS alerts, handshake, key derivation, explicit-IV and AEAD records; RADIUS sockets and vendor attributes; libpttls, libfast, daemons, option parsing and logging.
