/** The SDN wire codec of sdn-header.cc: the packet header, the message
    envelope and its two bodies (HELLO and RM), each with its serialized
    size, its Serialize (a function producing the bytes) and its
    Deserialize (a function from the bytes that follow the iterator's
    position, plus a body length where the C++ takes one, to the decoded
    value and the number of bytes consumed).

    Each NS_ASSERT of the C++ decoders, and a read past the end of the
    buffer, is a decode failure (None). */
module SdnHeader {

  import opened Wrappers
  import opened ByteOrder

  const IPV4_ADDRESS_SIZE: nat := 4
  const SDN_MSG_HEADER_SIZE: nat := 8
  const SDN_PKT_HEADER_SIZE: nat := 4
  const SDN_HELLO_HEADER_SIZE: nat := 28
  const SDN_RM_HEADER_SIZE: nat := 4
  const SDN_RM_TUBLE_SIZE: nat := 3
  /** Bytes of one (dest, mask, nextHop) tuple of an RM body. */
  const RM_TUPLE_BYTES: nat := 12

  /** The two message type tags of the envelope. */
  const HELLO_MESSAGE: byte := 1
  const RM_MESSAGE: byte := 2

  // ---------------- SDN Packet -------------------------------

  datatype PacketHeader = PacketHeader(packetLength: u16, packetSequenceNumber: u16)

  /** PacketHeader::Serialize: packetLength then packetSequenceNumber, each a
      big-endian u16; packetLength is written as stored, never recomputed. */
  function SerializePacketHeader(h: PacketHeader): (r: seq<byte>)
    ensures |r| == SDN_PKT_HEADER_SIZE
    ensures NtohU16(r) == h.packetLength && NtohU16(r[2..]) == h.packetSequenceNumber
  {
    NtohHtonU16(h.packetLength, HtonU16(h.packetSequenceNumber));
    NtohHtonU16(h.packetSequenceNumber, []);
    HtonU16(h.packetLength) + HtonU16(h.packetSequenceNumber)
  }

  /** PacketHeader::Deserialize: reads the two fields and reports
      GetSerializedSize() == 4 bytes consumed; it fails only on a buffer
      shorter than 4 bytes (packetLength is not checked against anything). */
  function DeserializePacketHeader(s: seq<byte>): (r: Option<(PacketHeader, nat)>)
    ensures r.Some? <==> |s| >= SDN_PKT_HEADER_SIZE
    ensures r.Some? ==> r.value.1 == SDN_PKT_HEADER_SIZE
  {
    if |s| < SDN_PKT_HEADER_SIZE then None
    else Some((PacketHeader(NtohU16(s), NtohU16(s[2..])), SDN_PKT_HEADER_SIZE))
  }

  /** Decoding the bytes of a packet header gives it back, whatever follows. */
  lemma PacketHeaderRoundTrip(h: PacketHeader, rest: seq<byte>)
    ensures DeserializePacketHeader(SerializePacketHeader(h) + rest) == Some((h, SDN_PKT_HEADER_SIZE))
  {
    var s := SerializePacketHeader(h) + rest;
    assert s[2..] == HtonU16(h.packetSequenceNumber) + rest;
    NtohHtonU16(h.packetSequenceNumber, rest);
  }

  /** Every decodable 4 bytes are the encoding of the header they decode to. */
  lemma PacketHeaderCanonical(s: seq<byte>)
    requires |s| >= SDN_PKT_HEADER_SIZE
    ensures SerializePacketHeader(DeserializePacketHeader(s).value.0) == s[..SDN_PKT_HEADER_SIZE]
  {
    HtonNtohU16(s);
    HtonNtohU16(s[2..]);
  }

  // ---------------- SDN HELLO Message -------------------------------

  /** A position or velocity: three IEEE-754 single-precision values carried
      as their raw 32-bit patterns. */
  datatype Vector3 = Vector3(x: u32, y: u32, z: u32)

  datatype Hello = Hello(id: u32, position: Vector3, velocity: Vector3)

  /** Hello::Serialize: seven big-endian u32 words, ID, Position X/Y/Z,
      Velocity X/Y/Z. */
  function SerializeHello(h: Hello): (r: seq<byte>)
    ensures |r| == SDN_HELLO_HEADER_SIZE
  {
    HtonU32(h.id)
      + HtonU32(h.position.x) + HtonU32(h.position.y) + HtonU32(h.position.z)
      + HtonU32(h.velocity.x) + HtonU32(h.velocity.y) + HtonU32(h.velocity.z)
  }

  /** Hello::Deserialize: demands a body length of exactly 28, reads the
      seven words in order and returns the body length. */
  function DeserializeHello(s: seq<byte>, messageSize: u32): (r: Option<(Hello, nat)>)
    ensures r.Some? <==> messageSize == SDN_HELLO_HEADER_SIZE && |s| >= SDN_HELLO_HEADER_SIZE
    ensures r.Some? ==> r.value.1 == messageSize
  {
    if messageSize != SDN_HELLO_HEADER_SIZE || |s| < SDN_HELLO_HEADER_SIZE then None
    else
      var position := Vector3(NtohU32(s[4..]), NtohU32(s[8..]), NtohU32(s[12..]));
      var velocity := Vector3(NtohU32(s[16..]), NtohU32(s[20..]), NtohU32(s[24..]));
      Some((Hello(NtohU32(s), position, velocity), messageSize))
  }

  /** The word at offset i of s is x when the four bytes there encode x. */
  lemma WordAt(s: seq<byte>, i: nat, x: u32)
    requires i + 4 <= |s| && s[i..i + 4] == HtonU32(x)
    ensures NtohU32(s[i..]) == x
  {
    assert s[i..] == HtonU32(x) + s[i + 4..];
    NtohHtonU32(x, s[i + 4..]);
  }

  lemma HelloRoundTrip(h: Hello, rest: seq<byte>)
    ensures DeserializeHello(SerializeHello(h) + rest, SDN_HELLO_HEADER_SIZE as u32)
         == Some((h, SDN_HELLO_HEADER_SIZE))
  {
    var s := SerializeHello(h) + rest;
    WordAt(s, 0, h.id);
    WordAt(s, 4, h.position.x);
    WordAt(s, 8, h.position.y);
    WordAt(s, 12, h.position.z);
    WordAt(s, 16, h.velocity.x);
    WordAt(s, 20, h.velocity.y);
    WordAt(s, 24, h.velocity.z);
  }

  /** The four bytes at offset i of s encode the word read there. */
  lemma BytesAt(s: seq<byte>, i: nat)
    requires i + 4 <= |s|
    ensures HtonU32(NtohU32(s[i..])) == s[i..i + 4]
  {
    HtonNtohU32(s[i..]);
  }

  lemma HelloCanonical(s: seq<byte>)
    requires |s| >= SDN_HELLO_HEADER_SIZE
    ensures SerializeHello(DeserializeHello(s, SDN_HELLO_HEADER_SIZE as u32).value.0)
         == s[..SDN_HELLO_HEADER_SIZE]
  {
    BytesAt(s, 0); BytesAt(s, 4); BytesAt(s, 8); BytesAt(s, 12);
    BytesAt(s, 16); BytesAt(s, 20); BytesAt(s, 24);
    assert s[..SDN_HELLO_HEADER_SIZE]
        == s[0..4] + s[4..8] + s[8..12] + s[12..16] + s[16..20] + s[20..24] + s[24..28];
  }

  // ---------------- SDN Routing Message -------------------------------

  datatype RoutingTuple = RoutingTuple(destAddress: u32, mask: u32, nextHop: u32)

  /** routingMessageSize is a word carried verbatim: nothing ties it to the
      number of tuples. */
  datatype Rm = Rm(routingMessageSize: u32, routingTables: seq<RoutingTuple>)

  /** Rm::GetSerializedSize: 4 + 12 per tuple, as a uint32_t. */
  function RmSerializedSize(rm: Rm): (n: u32)
    ensures |SerializeRm(rm)| < 0x1_0000_0000 ==> n == |SerializeRm(rm)|
  {
    ToU32(SDN_RM_HEADER_SIZE + |rm.routingTables| * IPV4_ADDRESS_SIZE * SDN_RM_TUBLE_SIZE)
  }

  function SerializeTuple(t: RoutingTuple): (r: seq<byte>)
    ensures |r| == 12
  {
    HtonU32(t.destAddress) + HtonU32(t.mask) + HtonU32(t.nextHop)
  }

  /** The tuples in vector order, 12 bytes each. */
  function SerializeTuples(ts: seq<RoutingTuple>): (r: seq<byte>)
    ensures |r| == 12 * |ts|
  {
    if ts == [] then [] else SerializeTuple(ts[0]) + SerializeTuples(ts[1..])
  }

  /** Rm::Serialize: the routingMessageSize word, then every tuple. */
  function SerializeRm(rm: Rm): (r: seq<byte>)
    ensures |r| == SDN_RM_HEADER_SIZE + 12 * |rm.routingTables|
  {
    HtonU32(rm.routingMessageSize) + SerializeTuples(rm.routingTables)
  }

  /** One tuple read as three 32-bit addresses: dest, mask, nextHop. */
  function DeserializeTuple(s: seq<byte>): RoutingTuple
    requires |s| >= 12
  {
    RoutingTuple(NtohU32(s), NtohU32(s[4..]), NtohU32(s[8..]))
  }

  /** The first k tuples of s, in wire order. */
  function DeserializeTuples(s: seq<byte>, k: nat): (ts: seq<RoutingTuple>)
    requires |s| >= 12 * k
    ensures |ts| == k
  {
    if k == 0 then [] else [DeserializeTuple(s)] + DeserializeTuples(s[12..], k - 1)
  }

  /** Rm::Deserialize: demands a body length of at least 4 whose remainder
      after the count word is a multiple of 12, reads the count word
      verbatim, then (length - 4) / 12 tuples, and returns the length. The
      result does not depend on any tuples held before. */
  function DeserializeRm(s: seq<byte>, messageSize: u32): (r: Option<(Rm, nat)>)
    ensures r.Some? <==>
      SDN_RM_HEADER_SIZE <= messageSize <= |s| && (messageSize - SDN_RM_HEADER_SIZE) % 12 == 0
    ensures r.Some? ==>
      r.value.1 == messageSize &&
      r.value.0.routingMessageSize == NtohU32(s) &&
      SDN_RM_HEADER_SIZE + 12 * |r.value.0.routingTables| == messageSize
  {
    if messageSize < SDN_RM_HEADER_SIZE then None
    else if (messageSize as int - SDN_RM_HEADER_SIZE) % 12 != 0 then None
    else if |s| < messageSize then None
    else
      var numTubles := (messageSize as int - SDN_RM_HEADER_SIZE) / 12;
      Some((Rm(NtohU32(s), DeserializeTuples(s[SDN_RM_HEADER_SIZE..], numTubles)), messageSize as nat))
  }

  /** Serializing a list of tuples is serializing its parts in order. */
  lemma {:induction false} SerializeTuplesAppend(ts: seq<RoutingTuple>, t: RoutingTuple)
    ensures SerializeTuples(ts + [t]) == SerializeTuples(ts) + SerializeTuple(t)
  {
    if ts == [] {
      assert [t][1..] == [];
    } else {
      assert (ts + [t])[1..] == ts[1..] + [t];
      SerializeTuplesAppend(ts[1..], t);
    }
  }

  /** Concatenation is associative. */
  lemma AppendAssoc<T>(a: seq<T>, b: seq<T>, c: seq<T>)
    ensures (a + b) + c == a + (b + c)
  {
  }

  /** Putting x in front and y behind can be done in either order. */
  lemma ConsSnoc<T>(x: T, middle: seq<T>, y: T)
    ensures [x] + (middle + [y]) == ([x] + middle) + [y]
  {
  }

  /** Reading one more tuple appends the tuple found at offset 12 k. */
  lemma {:induction false} DeserializeTuplesSnoc(s: seq<byte>, k: nat)
    requires |s| >= 12 * (k + 1)
    ensures DeserializeTuples(s, k + 1) == DeserializeTuples(s, k) + [DeserializeTuple(s[12 * k..])]
  {
    var last := DeserializeTuple(s[12 * k..]);
    if k == 0 {
      assert s[12 * k..] == s;
      assert DeserializeTuples(s, 1) == [DeserializeTuple(s)] + [];
    } else {
      var tail := s[12..];
      assert tail[12 * (k - 1)..] == s[12 * k..];
      DeserializeTuplesSnoc(tail, k - 1);
      ConsSnoc(DeserializeTuple(s), DeserializeTuples(tail, k - 1), last);
    }
  }

  lemma TupleRoundTrip(t: RoutingTuple, rest: seq<byte>)
    ensures DeserializeTuple(SerializeTuple(t) + rest) == t
  {
    var s := SerializeTuple(t) + rest;
    WordAt(s, 0, t.destAddress);
    WordAt(s, 4, t.mask);
    WordAt(s, 8, t.nextHop);
  }

  /** Reading |ts| tuples back from their bytes gives ts, in order. */
  lemma {:induction false} TuplesRoundTrip(ts: seq<RoutingTuple>, rest: seq<byte>)
    ensures DeserializeTuples(SerializeTuples(ts) + rest, |ts|) == ts
  {
    if ts != [] {
      var tail := SerializeTuples(ts[1..]) + rest;
      var s := SerializeTuples(ts) + rest;
      AppendAssoc(SerializeTuple(ts[0]), SerializeTuples(ts[1..]), rest);
      assert s[12..] == tail;
      TupleRoundTrip(ts[0], tail);
      TuplesRoundTrip(ts[1..], rest);
      assert ts == [ts[0]] + ts[1..];
    }
  }

  lemma TupleCanonical(s: seq<byte>)
    requires |s| >= 12
    ensures SerializeTuple(DeserializeTuple(s)) == s[..12]
  {
    BytesAt(s, 0); BytesAt(s, 4); BytesAt(s, 8);
    assert s[..12] == s[0..4] + s[4..8] + s[8..12];
  }

  /** Every 12 k bytes are the encoding of the k tuples they decode to. */
  lemma {:induction false} TuplesCanonical(s: seq<byte>, k: nat)
    requires |s| >= 12 * k
    ensures SerializeTuples(DeserializeTuples(s, k)) == s[..12 * k]
  {
    if k > 0 {
      var tail := s[12..];
      var ts := DeserializeTuples(s, k);
      assert ts == [DeserializeTuple(s)] + DeserializeTuples(tail, k - 1);
      assert ts[1..] == DeserializeTuples(tail, k - 1);
      TupleCanonical(s);
      TuplesCanonical(tail, k - 1);
      assert SerializeTuples(ts) == s[..12] + tail[..12 * (k - 1)];
    }
  }

  /** An RM body decodes back to itself, count word and tuples in order,
      when decoded with the length Rm::GetSerializedSize gives it. */
  lemma RmRoundTrip(rm: Rm, rest: seq<byte>)
    requires SDN_RM_HEADER_SIZE + 12 * |rm.routingTables| < 0x1_0000_0000
    ensures RmSerializedSize(rm) == |SerializeRm(rm)|
    ensures DeserializeRm(SerializeRm(rm) + rest, RmSerializedSize(rm)) == Some((rm, |SerializeRm(rm)|))
  {
    var s := SerializeRm(rm) + rest;
    NtohHtonU32(rm.routingMessageSize, SerializeTuples(rm.routingTables) + rest);
    AppendAssoc(HtonU32(rm.routingMessageSize), SerializeTuples(rm.routingTables), rest);
    assert s[SDN_RM_HEADER_SIZE..] == SerializeTuples(rm.routingTables) + rest;
    TuplesRoundTrip(rm.routingTables, rest);
  }

  /** Every decodable RM body is the encoding of the value it decodes to. */
  lemma RmCanonical(s: seq<byte>, messageSize: u32)
    requires DeserializeRm(s, messageSize).Some?
    ensures SerializeRm(DeserializeRm(s, messageSize).value.0) == s[..messageSize]
  {
    var k := (messageSize as int - SDN_RM_HEADER_SIZE) / 12;
    HtonNtohU32(s);
    TuplesCanonical(s[SDN_RM_HEADER_SIZE..], k);
    assert s[..messageSize] == s[..SDN_RM_HEADER_SIZE] + s[SDN_RM_HEADER_SIZE..][..12 * k];
  }

  /** Rm::Serialize as the C++ runs it: the count word, then a loop over the
      tuple vector. */
  method RmSerialize(rm: Rm) returns (bytes: seq<byte>)
    ensures bytes == SerializeRm(rm)
  {
    var ts := rm.routingTables;
    bytes := HtonU32(rm.routingMessageSize);
    var i := 0;
    while i < |ts|
      invariant 0 <= i <= |ts|
      invariant bytes == HtonU32(rm.routingMessageSize) + SerializeTuples(ts[..i])
    {
      SerializeTuplesAppend(ts[..i], ts[i]);
      assert ts[..i + 1] == ts[..i] + [ts[i]];
      bytes := bytes + SerializeTuple(ts[i]);
      i := i + 1;
    }
    assert ts[..i] == ts;
  }

  /** Rm::Deserialize as the C++ runs it: clear the tuples, check the
      length, read the count word, then push back one tuple per round of a
      counted loop; a read past the end of s fails. */
  method RmDeserialize(s: seq<byte>, messageSize: u32) returns (r: Option<(Rm, nat)>)
    ensures r == DeserializeRm(s, messageSize)
  {
    var routingTables: seq<RoutingTuple> := [];
    if messageSize < SDN_RM_HEADER_SIZE || |s| < SDN_RM_HEADER_SIZE {
      return None;
    }
    var routingMessageSize := NtohU32(s);
    if (messageSize as int - SDN_RM_HEADER_SIZE) % 12 != 0 {
      return None;
    }
    var numTubles := (messageSize as int - SDN_RM_HEADER_SIZE) / 12;
    var n := 0;
    while n < numTubles
      invariant 0 <= n <= numTubles
      invariant SDN_RM_HEADER_SIZE + 12 * n <= |s|
      invariant routingTables == DeserializeTuples(s[SDN_RM_HEADER_SIZE..], n)
    {
      var offset := SDN_RM_HEADER_SIZE + 12 * n;
      if |s| < offset + 12 {
        return None;
      }
      DeserializeTuplesSnoc(s[SDN_RM_HEADER_SIZE..], n);
      assert s[SDN_RM_HEADER_SIZE..][12 * n..] == s[offset..];
      routingTables := routingTables + [DeserializeTuple(s[offset..])];
      n := n + 1;
    }
    return Some((Rm(routingMessageSize, routingTables), messageSize as nat));
  }

  // ---------------- SDN Message -------------------------------

  /** The body union: which one a message carries is its type. */
  datatype Message = HelloMessage(hello: Hello) | RmMessage(rm: Rm)

  /** The envelope. messageSize is the value last read from the wire;
      Serialize ignores it and writes the computed size instead. */
  datatype MessageHeader = MessageHeader(
    vTime: byte,
    messageSize: u16,
    timeToLive: u16,
    messageSequenceNumber: u16,
    message: Message)

  function MessageType(m: MessageHeader): (t: byte)
    ensures t == HELLO_MESSAGE <==> m.message.HelloMessage?
    ensures t == RM_MESSAGE <==> m.message.RmMessage?
  {
    match m.message
    case HelloMessage(_) => HELLO_MESSAGE
    case RmMessage(_) => RM_MESSAGE
  }

  /** The body's GetSerializedSize (the switch on the message type): the
      number of bytes the body's Serialize writes, when that fits a uint32_t. */
  function BodySerializedSize(b: Message): (n: u32)
    ensures |SerializeBody(b)| < 0x1_0000_0000 ==> n == |SerializeBody(b)|
  {
    match b
    case HelloMessage(_) => SDN_HELLO_HEADER_SIZE as u32
    case RmMessage(rm) => RmSerializedSize(rm)
  }

  /** MessageHeader::GetSerializedSize: 8 plus the body's size, as a uint32_t. */
  function MessageSerializedSize(m: MessageHeader): (n: u32)
    ensures SDN_MSG_HEADER_SIZE + |SerializeBody(m.message)| < 0x1_0000_0000 ==>
      n == SDN_MSG_HEADER_SIZE + |SerializeBody(m.message)|
  {
    ToU32(SDN_MSG_HEADER_SIZE + BodySerializedSize(m.message))
  }

  /** The body's Serialize, chosen by the message type: 28 bytes for a
      HELLO, 4 plus 12 per tuple for an RM. */
  function SerializeBody(b: Message): (r: seq<byte>)
    ensures b.HelloMessage? ==> |r| == SDN_HELLO_HEADER_SIZE
    ensures b.RmMessage? ==> |r| == SDN_RM_HEADER_SIZE + 12 * |b.rm.routingTables|
  {
    match b
    case HelloMessage(h) => SerializeHello(h)
    case RmMessage(rm) => SerializeRm(rm)
  }

  /** MessageHeader::Serialize: type, vTime, the computed size (cut to the
      16 bits WriteHtonU16 takes), TTL, sequence number, then the body. */
  function SerializeMessage(m: MessageHeader): (r: seq<byte>)
    ensures |r| == SDN_MSG_HEADER_SIZE + |SerializeBody(m.message)|
    ensures r[0] == MessageType(m) && r[1] == m.vTime
    ensures NtohU16(r[2..]) == ToU16(MessageSerializedSize(m))
    ensures NtohU16(r[4..]) == m.timeToLive && NtohU16(r[6..]) == m.messageSequenceNumber
    ensures r[SDN_MSG_HEADER_SIZE..] == SerializeBody(m.message)
  {
    var r := [MessageType(m), m.vTime]
      + HtonU16(ToU16(MessageSerializedSize(m)))
      + HtonU16(m.timeToLive)
      + HtonU16(m.messageSequenceNumber)
      + SerializeBody(m.message);
    assert r[2..4] == HtonU16(ToU16(MessageSerializedSize(m)));
    assert r[4..6] == HtonU16(m.timeToLive);
    assert r[6..8] == HtonU16(m.messageSequenceNumber);
    NtohHtonU16(ToU16(MessageSerializedSize(m)), r[4..]);
    NtohHtonU16(m.timeToLive, r[6..]);
    NtohHtonU16(m.messageSequenceNumber, r[8..]);
    r
  }

  /** The switch on the type byte of MessageHeader::Deserialize. */
  function DeserializeBody(t: byte, body: seq<byte>, bodySize: u32): (r: Option<(Message, nat)>)
    requires t == HELLO_MESSAGE || t == RM_MESSAGE
    ensures r.Some? ==> (r.value.0.HelloMessage? <==> t == HELLO_MESSAGE) && r.value.1 == bodySize
  {
    if t == HELLO_MESSAGE then
      match DeserializeHello(body, bodySize)
      case None => None
      case Some((h, n)) => Some((HelloMessage(h), n))
    else
      match DeserializeRm(body, bodySize)
      case None => None
      case Some((rm, n)) => Some((RmMessage(rm), n))
  }

  /** MessageHeader::Deserialize: the type byte must be HELLO or RM; the
      body is decoded with length messageSize - 8 computed in uint32_t (so a
      messageSize below 8 wraps to a huge length); the bytes consumed are 8
      plus what the body decoder returns. */
  function DeserializeMessage(s: seq<byte>): (r: Option<(MessageHeader, nat)>)
    ensures |s| > 0 && (s[0] < HELLO_MESSAGE || s[0] > RM_MESSAGE) ==> r.None?
    ensures r.Some? ==> |s| >= SDN_MSG_HEADER_SIZE && s[0] == MessageType(r.value.0)
  {
    if |s| < 1 then None
    else if s[0] < HELLO_MESSAGE || s[0] > RM_MESSAGE then None
    else if |s| < SDN_MSG_HEADER_SIZE then None
    else
      var vTime := s[1];
      var messageSize := NtohU16(s[2..]);
      var timeToLive := NtohU16(s[4..]);
      var messageSequenceNumber := NtohU16(s[6..]);
      var bodySize := ToU32(messageSize - SDN_MSG_HEADER_SIZE);
      var body := s[SDN_MSG_HEADER_SIZE..];
      match DeserializeBody(s[0], body, bodySize)
      case None => None
      case Some((b, n)) =>
        Some((MessageHeader(vTime, messageSize, timeToLive, messageSequenceNumber, b),
              ToU32(SDN_MSG_HEADER_SIZE + n) as nat))
  }

  /** The message's bytes fit the 16-bit size field of its envelope. */
  predicate FitsSizeField(m: MessageHeader)
  {
    SDN_MSG_HEADER_SIZE + |SerializeBody(m.message)| < 0x1_0000
  }

  /** GetSerializedSize is 36 for a HELLO and 8 + 4 + 12 k for an RM with k
      tuples, and it is the number of bytes Serialize writes. */
  lemma MessageSizeFormula(m: MessageHeader)
    requires SDN_MSG_HEADER_SIZE + |SerializeBody(m.message)| < 0x1_0000_0000
    ensures m.message.HelloMessage? ==>
      MessageSerializedSize(m) == SDN_MSG_HEADER_SIZE + SDN_HELLO_HEADER_SIZE
    ensures m.message.RmMessage? ==>
      MessageSerializedSize(m) == SDN_MSG_HEADER_SIZE + SDN_RM_HEADER_SIZE + 12 * |m.message.rm.routingTables|
    ensures MessageSerializedSize(m) == |SerializeMessage(m)|
  {
  }

  /** A successful decode consumes exactly the size field it read, at least
      the 8 envelope bytes and no more than the buffer holds. A size field
      below 8, which the uint32_t subtraction wraps to a huge body length,
      never decodes. */
  lemma DeserializeMessageConsumesSize(s: seq<byte>)
    requires DeserializeMessage(s).Some?
    ensures DeserializeMessage(s).value.1 == DeserializeMessage(s).value.0.messageSize
    ensures SDN_MSG_HEADER_SIZE <= DeserializeMessage(s).value.1 <= |s|
  {
  }

  /** Decoding the bytes of Serialize(m) gives back m's type, vTime, TTL,
      sequence number and body (all seven HELLO words; the RM count word and
      its tuples in order), sets messageSize to GetSerializedSize(m), and
      consumes exactly GetSerializedSize(m) bytes, whatever follows. */
  lemma MessageRoundTrip(m: MessageHeader, rest: seq<byte>)
    requires FitsSizeField(m)
    ensures MessageSerializedSize(m) == |SerializeMessage(m)|
    ensures DeserializeMessage(SerializeMessage(m) + rest)
         == Some((m.(messageSize := ToU16(MessageSerializedSize(m))), MessageSerializedSize(m) as nat))
  {
    var r := SerializeMessage(m);
    var size := MessageSerializedSize(m);
    EnvelopeReads(r, rest);
    BodyRoundTrip(m.message, rest);
    assert ToU32(ToU16(size) - SDN_MSG_HEADER_SIZE) == |SerializeBody(m.message)|;
  }

  /** The envelope fields read from r + rest are those of r. */
  lemma EnvelopeReads(r: seq<byte>, rest: seq<byte>)
    requires |r| >= SDN_MSG_HEADER_SIZE
    ensures (r + rest)[0] == r[0] && (r + rest)[1] == r[1]
    ensures NtohU16((r + rest)[2..]) == NtohU16(r[2..])
    ensures NtohU16((r + rest)[4..]) == NtohU16(r[4..])
    ensures NtohU16((r + rest)[6..]) == NtohU16(r[6..])
    ensures (r + rest)[SDN_MSG_HEADER_SIZE..] == r[SDN_MSG_HEADER_SIZE..] + rest
  {
  }

  /** A body decodes back to itself from its own bytes, whatever follows. */
  lemma BodyRoundTrip(b: Message, rest: seq<byte>)
    requires SDN_MSG_HEADER_SIZE + |SerializeBody(b)| < 0x1_0000
    ensures BodySerializedSize(b) == |SerializeBody(b)|
    ensures DeserializeBody(if b.HelloMessage? then HELLO_MESSAGE else RM_MESSAGE,
                            SerializeBody(b) + rest, BodySerializedSize(b))
         == Some((b, |SerializeBody(b)|))
  {
    match b
    case HelloMessage(h) =>
      HelloRoundTrip(h, rest);
    case RmMessage(rm) =>
      RmRoundTrip(rm, rest);
  }

  /** Every decodable body is the encoding of the body it decodes to. */
  lemma BodyCanonical(t: byte, body: seq<byte>, bodySize: u32)
    requires t == HELLO_MESSAGE || t == RM_MESSAGE
    requires DeserializeBody(t, body, bodySize).Some?
    ensures bodySize <= |body|
    ensures SerializeBody(DeserializeBody(t, body, bodySize).value.0) == body[..bodySize]
  {
    if t == HELLO_MESSAGE {
      HelloCanonical(body);
    } else {
      RmCanonical(body, bodySize);
    }
  }

  /** Every decodable message is the exact encoding of what it decodes to:
      the envelope and body bytes are the only ones that read that way. */
  lemma MessageCanonical(s: seq<byte>)
    requires DeserializeMessage(s).Some?
    ensures FitsSizeField(DeserializeMessage(s).value.0)
    ensures SerializeMessage(DeserializeMessage(s).value.0) == s[..DeserializeMessage(s).value.1]
  {
    var m := DeserializeMessage(s).value.0;
    var n := DeserializeMessage(s).value.1;
    DeserializeMessageConsumesSize(s);
    var body := s[SDN_MSG_HEADER_SIZE..];
    var bodySize := ToU32(m.messageSize - SDN_MSG_HEADER_SIZE);
    assert DeserializeBody(s[0], body, bodySize) == Some((m.message, bodySize as nat));
    BodyCanonical(s[0], body, bodySize);
    var b := SerializeBody(m.message);
    assert b == body[..bodySize];
    assert MessageSerializedSize(m) == n;
    HtonNtohU16(s[2..]);
    HtonNtohU16(s[4..]);
    HtonNtohU16(s[6..]);
    var header := [s[0], s[1]] + s[2..4] + s[4..6] + s[6..8];
    assert header == s[..SDN_MSG_HEADER_SIZE];
    assert SerializeMessage(m) == header + b;
    assert s[..n] == s[..SDN_MSG_HEADER_SIZE] + body[..bodySize];
  }

  /** As written, an RM whose encoding does not fit the 16-bit size field
      (5461 tuples or more) does not survive a round trip: Serialize writes
      the size cut to 16 bits, so a decoder stops short of the bytes written. */
  lemma OversizeMessageIsCutShort(m: MessageHeader, rest: seq<byte>)
    requires !FitsSizeField(m)
    ensures m.message.RmMessage? && |m.message.rm.routingTables| >= 5461
    ensures DeserializeMessage(SerializeMessage(m) + rest).Some? ==>
      DeserializeMessage(SerializeMessage(m) + rest).value.1 < |SerializeMessage(m)|
  {
    var s := SerializeMessage(m) + rest;
    if DeserializeMessage(s).Some? {
      DeserializeMessageConsumesSize(s);
    }
  }
}
