# SDN routing for ns-3: wire codec and protocol state, in Dafny

This project models two parts of the SDN routing protocol for vehicular
networks built on ns-3.

The first part is the wire codec of `sdn-header.cc`. It has three nested
big-endian structures:

- the 4-byte packet header (packet length, packet sequence number);
- the 8-byte message envelope (type, vTime, size, TTL, message sequence
  number), tagged HELLO (1) or RM (2);
- the two message bodies. A HELLO body is seven 32-bit words (ID, position
  X/Y/Z, velocity X/Y/Z). An RM body is a 32-bit count word followed by
  12-byte (destination, mask, next hop) tuples.

Bytes are `seq<byte>` with `byte`, `u16` and `u32` as bounded integer
subset types (`byte_order.dfy`). `WriteHtonU16`/`WriteHtonU32` and their
`ReadNtoh` partners are big-endian byte sequences. Each `Serialize` is a
function producing bytes. Each `Deserialize` is a function from the bytes
at the iterator's position (plus the body length, where the C++ takes one)
to `Option<(value, bytes consumed)>`. Every `NS_ASSERT` of a decoder, and a
read past the end of the buffer, is `None`. The two loops of the RM body
(`Rm::Serialize` over the tuple vector, `Rm::Deserialize`'s counted
`push_back` loop) are also methods with loops, proved equal to those
functions.

What is proved about the codec:

- every encoder writes exactly `GetSerializedSize()` bytes, for a message
  whenever that size fits its `uint32_t`;
- decoding the bytes of a packet header, a HELLO body or an RM body gives
  the value back, whatever bytes follow;
- decoding the bytes of a message gives back its type, vTime, TTL,
  sequence number and body whenever its encoding fits the 16-bit size
  field; the stored `messageSize` comes back replaced by the computed
  `GetSerializedSize()`, which is what `Serialize` writes;
- every decodable byte string is the exact encoding of what it decodes to;
- a message decode consumes exactly the size field it read;
- type bytes outside 1..2 are rejected.

Integer widths are explicit. `GetSerializedSize` is a `uint32_t` sum.
`MessageHeader::Serialize` writes it through `WriteHtonU16`, which keeps
only the low 16 bits (sdn-header.cc:177). So the message round trip holds
for messages whose bytes fit that field. An RM with 5461 or more tuples does
not fit, and `OversizeMessageIsCutShort` shows that its decode stops short
of the bytes written. No IPv4 datagram can carry such a message, so this is
recorded as a limit of the format rather than a defect. The body length
that `MessageHeader::Deserialize` passes on is `messageSize - 8` in
`uint32_t`, which wraps for a size field below 8. The model computes it the
same way and proves every such message is rejected.

The second part is the routing-protocol state declared in
`sdn-routing-protocol.h`: a `RoutingProtocol` class holding the routing
table (`map` from destination address to `RoutingTableEntry`), the two
`uint16_t` sequence counters and the interface-exclusion set. Only the
declarations and their comments exist for this class. Each method states
what the declaration and its comment promise:

- the table is keyed by destination, so it never holds two entries for one
  destination;
- `RemoveEntry` and `AddEntry` change only the entry for the destination
  they are given, and `Clear` empties the table;
- all three leave the counters and the exclusion set unchanged;
- the counters increment, return the new value and wrap modulo 2^16;
- the exclusion getter returns what the setter stored.

Two things a reader might expect are not in the code, and the model
follows the code:

- `PacketHeader::Deserialize` does not compare `packetLength` with the
  bytes that follow, so a packet header with any length field decodes,
  in the model as in the code;
- the declared table is keyed by destination alone, not by (destination,
  mask), and no lookup body is available, so the model has no
  longest-prefix lookup.

Two source lines would not compile as written, and the model follows their
evident intent. The default constructor of `RoutingTableEntry`
(sdn-routing-protocol.h:55-57) initialises a `nextAddr` field that the
struct does not declare; the model's entry has the four declared fields. The
tuple reads of `Rm::Deserialize` (sdn-header.cc:326-331) lack parentheses
around their `static_cast`; the model reads each field as a 32-bit address.

## Model

| member | source | states |
|---|---|---|
| ByteOrder.ToU16 | ns-3/src/sdn/model/sdn-header.cc:177 | the conversion to `uint16_t` keeps the value when it fits in 16 bits |
| ByteOrder.ToU32 | ns-3/src/sdn/model/sdn-header.cc:276-281 | the `uint32_t` arithmetic of the size computations keeps the value when it fits in 32 bits |
| ByteOrder.HtonU16 | ns-3/src/sdn/model/sdn-header.cc:104-105 | `WriteHtonU16` writes two bytes |
| ByteOrder.HtonU16Value | ns-3/src/sdn/model/sdn-header.cc:104-105 | the two bytes are the number in base 256, most significant first |
| ByteOrder.HtonU32 | ns-3/src/sdn/model/sdn-header.cc:243-249 | `WriteHtonU32` writes four bytes |
| ByteOrder.HtonU32Value | ns-3/src/sdn/model/sdn-header.cc:243-249 | the four bytes are the number in base 256, most significant first |
| ByteOrder.NtohHtonU16 | ns-3/src/sdn/model/sdn-header.cc:112-113 | `ReadNtohU16` returns what `WriteHtonU16` wrote, whatever follows |
| ByteOrder.HtonNtohU16 | ns-3/src/sdn/model/sdn-header.cc:112-113 | any two bytes are the encoding of the u16 read from them |
| ByteOrder.NtohHtonU32 | ns-3/src/sdn/model/sdn-header.cc:261-267 | `ReadNtohU32` returns what `WriteHtonU32` wrote, whatever follows |
| ByteOrder.NtohU16 | ns-3/src/sdn/model/sdn-header.cc:112-113 | `ReadNtohU16` reads two bytes most significant first; its meaning is stated by `NtohHtonU16` and `HtonNtohU16` |
| ByteOrder.NtohU32 | ns-3/src/sdn/model/sdn-header.cc:261-267 | `ReadNtohU32` reads four bytes most significant first; its meaning is stated by `NtohHtonU32` and `HtonNtohU32` |
| ByteOrder.HtonNtohU32 | ns-3/src/sdn/model/sdn-header.cc:261-267 | any four bytes are the encoding of the u32 read from them |
| SdnHeader.SerializePacketHeader | ns-3/src/sdn/model/sdn-header.cc:88-106 | a packet header is 4 bytes: packetLength then packetSequenceNumber, each big-endian u16, as stored |
| SdnHeader.DeserializePacketHeader | ns-3/src/sdn/model/sdn-header.cc:108-115 | decoding succeeds exactly when 4 bytes are available and reports 4 consumed; packetLength is not checked |
| SdnHeader.PacketHeaderRoundTrip | ns-3/src/sdn/model/sdn-header.cc:100-115 | `Deserialize` recovers both fields written by `Serialize` and returns 4 |
| SdnHeader.PacketHeaderCanonical | ns-3/src/sdn/model/sdn-header.cc:100-115 | any 4 bytes are the encoding of the header they decode to |
| SdnHeader.SerializeHello | ns-3/src/sdn/model/sdn-header.cc:226-251 | a HELLO body is exactly `GetSerializedSize()` = 28 bytes |
| SdnHeader.DeserializeHello | ns-3/src/sdn/model/sdn-header.cc:253-270 | decoding succeeds exactly when the body length is 28 and 28 bytes are available, and returns that length |
| SdnHeader.HelloRoundTrip | ns-3/src/sdn/model/sdn-header.cc:238-270 | the seven words come back in the order ID, Position X/Y/Z, Velocity X/Y/Z |
| SdnHeader.HelloCanonical | ns-3/src/sdn/model/sdn-header.cc:238-270 | any 28 bytes are the encoding of the HELLO body they decode to |
| SdnHeader.RmSerializedSize | ns-3/src/sdn/model/sdn-header.cc:276-281 | `Rm::GetSerializedSize` is the number of bytes `Rm::Serialize` writes, 4 + 12 per tuple |
| SdnHeader.SerializeTuple | ns-3/src/sdn/model/sdn-header.cc:301-303 | one tuple is 12 bytes |
| SdnHeader.SerializeTuples | ns-3/src/sdn/model/sdn-header.cc:296-304 | the tuples take 12 bytes each, written in vector order |
| SdnHeader.SerializeRm | ns-3/src/sdn/model/sdn-header.cc:289-305 | an RM body is the 4-byte count word plus 12 bytes per tuple |
| SdnHeader.DeserializeTuple | ns-3/src/sdn/model/sdn-header.cc:326-331 | reads dest, mask and nextHop as three big-endian words; its meaning is stated by `TupleRoundTrip` and `TupleCanonical` |
| SdnHeader.DeserializeTuples | ns-3/src/sdn/model/sdn-header.cc:321-333 | reading k tuples yields exactly k tuples |
| SdnHeader.DeserializeRm | ns-3/src/sdn/model/sdn-header.cc:307-336 | succeeds exactly when the length is at least 4, (length - 4) % 12 == 0 and the bytes are available; then the count word is read verbatim, (length - 4) / 12 tuples are read and the length is returned; earlier tuples play no part |
| SdnHeader.SerializeTuplesAppend | ns-3/src/sdn/model/sdn-header.cc:296-304 | serializing one more tuple appends its 12 bytes |
| SdnHeader.DeserializeTuplesSnoc | ns-3/src/sdn/model/sdn-header.cc:323-333 | each loop round appends the tuple found at the next 12-byte offset |
| SdnHeader.TupleRoundTrip | ns-3/src/sdn/model/sdn-header.cc:301-303 | a tuple is read back as dest, mask, nextHop in wire order |
| SdnHeader.TuplesRoundTrip | ns-3/src/sdn/model/sdn-header.cc:296-333 | the tuples come back in vector order, whatever follows |
| SdnHeader.TupleCanonical | ns-3/src/sdn/model/sdn-header.cc:326-331 | any 12 bytes are the encoding of the tuple they decode to |
| SdnHeader.TuplesCanonical | ns-3/src/sdn/model/sdn-header.cc:321-333 | any 12 k bytes are the encoding of the k tuples they decode to |
| SdnHeader.RmRoundTrip | ns-3/src/sdn/model/sdn-header.cc:276-336 | decoding an RM body with its `GetSerializedSize` gives back the count word verbatim and the tuples in order, and consumes `GetSerializedSize` bytes |
| SdnHeader.RmCanonical | ns-3/src/sdn/model/sdn-header.cc:289-336 | every decodable RM body is the exact encoding of the value it decodes to |
| SdnHeader.RmSerialize | ns-3/src/sdn/model/sdn-header.cc:289-305 | the loop over the tuple vector writes exactly the RM body encoding |
| SdnHeader.RmDeserialize | ns-3/src/sdn/model/sdn-header.cc:307-336 | clearing the tuples and pushing back one per round of the counted loop gives exactly the RM body decoding, failures included |
| SdnHeader.BodySerializedSize | ns-3/src/sdn/model/sdn-header.cc:149-161 | the body's `GetSerializedSize`, chosen by type, is the number of bytes the body's `Serialize` writes whenever that fits a `uint32_t`; `BodyRoundTrip` decodes the body with it |
| SdnHeader.MessageSerializedSize | ns-3/src/sdn/model/sdn-header.cc:145-163 | `MessageHeader::GetSerializedSize` is 8 plus the body's bytes whenever that fits a `uint32_t`; `MessageSizeFormula` gives its value per type |
| SdnHeader.SerializeBody | ns-3/src/sdn/model/sdn-header.cc:181-191 | the body written after the envelope is 28 bytes for a HELLO and 4 + 12 k for an RM with k tuples; `BodyRoundTrip` and `BodyCanonical` state that it is the body's encoding |
| SdnHeader.MessageType | ns-3/src/sdn/model/sdn-header.cc:175 | the type byte is HELLO exactly for a HELLO body and RM exactly for an RM body |
| SdnHeader.SerializeMessage | ns-3/src/sdn/model/sdn-header.cc:171-193 | writes type, vTime, the computed `GetSerializedSize()` cut to 16 bits (not the stored size), TTL, sequence number, then the body |
| SdnHeader.DeserializeBody | ns-3/src/sdn/model/sdn-header.cc:207-219 | the body decoded matches the type byte and its length is the one passed in |
| SdnHeader.DeserializeMessage | ns-3/src/sdn/model/sdn-header.cc:195-221 | a type byte outside HELLO..RM fails; a success read at least 8 bytes and its type byte is the decoded body's |
| SdnHeader.MessageSizeFormula | ns-3/src/sdn/model/sdn-header.cc:145-163 | whenever the message's bytes fit a `uint32_t`, `GetSerializedSize` is 36 for HELLO, 8 + 4 + 12 k for an RM with k tuples, and the number of bytes `Serialize` writes |
| SdnHeader.DeserializeMessageConsumesSize | ns-3/src/sdn/model/sdn-header.cc:195-221 | a decoded message consumed exactly its size field, at least 8 and at most the buffer; a size field below 8 never decodes |
| SdnHeader.MessageRoundTrip | ns-3/src/sdn/model/sdn-header.cc:171-221 | decoding `Serialize(m)` gives back type, vTime, TTL, sequence number and body, sets messageSize to `GetSerializedSize(m)` and consumes that many bytes |
| SdnHeader.BodyRoundTrip | ns-3/src/sdn/model/sdn-header.cc:207-219 | a HELLO or RM body decodes back to itself under its own type byte and its serialized size, whatever follows |
| SdnHeader.BodyCanonical | ns-3/src/sdn/model/sdn-header.cc:207-219 | every decodable body is the exact encoding of the body it decodes to |
| SdnHeader.MessageCanonical | ns-3/src/sdn/model/sdn-header.cc:171-221 | every decodable message fits its size field and is the exact encoding of the message it decodes to |
| SdnHeader.OversizeMessageIsCutShort | ns-3/src/sdn/model/sdn-header.cc:177 | a message too large for the 16-bit size field is an RM of at least 5461 tuples, and decoding its bytes stops short of them |
| SdnRoutingProtocol.DefaultRoutingTableEntry | ns-3/src/sdn/model/sdn-routing-protocol.h:55-57 | a default entry has interface index 0 and default-constructed addresses |
| SdnRoutingProtocol.NoDuplicateDestinations | ns-3/src/sdn/model/sdn-routing-protocol.h:114 | a table keyed by destination never holds two entries for one destination |
| SdnRoutingProtocol.NextSequenceNumber | ns-3/src/sdn/model/sdn-routing-protocol.h:118-121 | incrementing a `uint16_t` counter always changes it, adds one below 65535 and wraps 65535 to 0 |
| SdnRoutingProtocol.RoutingProtocol.constructor | ns-3/src/sdn/model/sdn-routing-protocol.h:69 | a new protocol has an empty table and an empty exclusion set |
| SdnRoutingProtocol.RoutingProtocol.GetInterfaceExclusions | ns-3/src/sdn/model/sdn-routing-protocol.h:105-108 | returns the stored exclusion set |
| SdnRoutingProtocol.RoutingProtocol.SetInterfaceExclusions | ns-3/src/sdn/model/sdn-routing-protocol.h:109 | afterwards `GetInterfaceExclusions` returns exactly the set passed |
| SdnRoutingProtocol.RoutingProtocol.GetSize | ns-3/src/sdn/model/sdn-routing-protocol.h:131 | the number of entries in the table, as a `uint32_t` |
| SdnRoutingProtocol.RoutingProtocol.Clear | ns-3/src/sdn/model/sdn-routing-protocol.h:130 | leaves the table empty, with `GetSize` 0 |
| SdnRoutingProtocol.RoutingProtocol.RemoveEntry | ns-3/src/sdn/model/sdn-routing-protocol.h:132 | afterwards no entry for dest remains, the entries of other destinations are untouched and the size drops by one exactly when dest was present |
| SdnRoutingProtocol.RoutingProtocol.AddEntry | ns-3/src/sdn/model/sdn-routing-protocol.h:133-136 | afterwards dest maps to (dest, mask, next, interface), other destinations are untouched and the table stays keyed by destination |
| SdnRoutingProtocol.RoutingProtocol.GetPacketSequenceNumber | ns-3/src/sdn/model/sdn-routing-protocol.h:170-171 | increments the packet counter modulo 2^16 and returns the new value; the message counter is not touched |
| SdnRoutingProtocol.RoutingProtocol.GetMessageSequenceNumber | ns-3/src/sdn/model/sdn-routing-protocol.h:172-173 | increments the message counter modulo 2^16 and returns the new value; the packet counter is not touched |

## Left out

- The `IEEE754` float/bit helpers (sdn-header.cc:40-60): floating point and type punning. Position and velocity are opaque 32-bit words, which is how the codec writes them.
- `Print`, `GetTypeId`, `GetInstanceTypeId`, `NS_OBJECT_ENSURE_REGISTERED` and `NS_LOG`: registration and logging only.
- `Buffer::Iterator` itself: a write is a byte sequence and a read is a function of the bytes that follow. The iterator's own end-of-buffer assertion is a decode failure.
- In-place update of the header objects: `Deserialize` returns a new value instead of assigning member fields.
- The C++ message keeps a HELLO and an RM member side by side and decoding refreshes only the one its type selects. The model's body is a union, so the stale other member does not exist.
- The `MessageHeader` default constructor sets type 0, for which `GetSerializedSize` and `Serialize` reach `NS_ASSERT (false)`. A model message always carries a HELLO or RM body, so type 0 cannot be built. Only the decoding side of that rule is modelled: any type byte outside 1..2 is rejected.
- The header file that declares the message types, `SDN-header.h`, is not part of this model. HELLO = 1 and RM = 2 are assumed, since the enumeration that defines them is in that file.
- The `RoutingProtocol` constructor body is not part of this model. The initial counter values are constructor parameters.
- The value a default-constructed `Ipv4Address` takes belongs to ns-3 and is not part of this model. It is a parameter of `DefaultRoutingTableEntry`.
- The bodies in `sdn-routing-protocol.cc` are not part of this model. `AddEntry` is modelled as storing the entry under its destination, as the map's key type and the parameters imply.
- The `AddEntry` overload taking an interface address: it needs the IPv4 stack (`m_ipv4`) to resolve the address to an interface index.
- `Lookup`, `FindSendEntry`, `GetRoutingTableEntries`, `Dump` and `PrintRoutingTable`: their bodies are not shown, so no lookup, ordering or output policy is modelled.
- `RouteOutput`, `RouteInput`, `Notify*`, `SetIpv4`, `RecvSDN`, `SendPacket`, `SendHello`, `ProcessRm`, `IsMyOwnAddress`, `GetMainAddress`, `SetMainInterface`, `AssignStreams`, `DoInitialize` and `DoDispose`: they depend on ns-3 sockets, the IPv4 stack, the event scheduler or randomness, and their bodies are not shown.
- The HELLO and queued-message timers, `m_queuedMessages` with `QueueMessage`/`SendQueuedMessages`, `m_events`, the traced callbacks, `m_socketAddresses`, `m_mainAddress` and `m_uniformRandomVariable`: scheduler, socket and randomness state whose behaviour is not shown.
- The scenario driver `SDN.cc`: simulation harness (command line, mobility, Wi-Fi, applications, scheduler).
