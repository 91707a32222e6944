/** The state of the SDN routing protocol that sdn-routing-protocol.h
    declares: the routing table (a map keyed by destination address), the
    packet and message sequence counters (uint16_t) and the set of excluded
    interfaces. Only the declarations and their comments are available, so
    each method states what the declaration and its comment promise. */
module SdnRoutingProtocol {

  import opened ByteOrder

  /** An IPv4 address as its 32-bit value. */
  type Ipv4Address = u32

  /** RoutingTableEntry: destination subnet, its mask, the next hop and the
      interface index. */
  datatype RoutingTableEntry = RoutingTableEntry(
    destAddr: Ipv4Address,
    mask: Ipv4Address,
    nextHop: Ipv4Address,
    interface: u32)

  /** The default constructor: every address default-constructed (the value
      Ipv4Address () takes is a parameter here) and interface index 0. */
  function DefaultRoutingTableEntry(unset: Ipv4Address): (e: RoutingTableEntry)
    ensures e.interface == 0
    ensures e.destAddr == unset && e.mask == unset && e.nextHop == unset
  {
    RoutingTableEntry(unset, unset, unset, 0)
  }

  /** Every entry is stored under its own destination address. */
  ghost predicate KeyedByDestination(table: map<Ipv4Address, RoutingTableEntry>)
  {
    forall dest :: dest in table ==> table[dest].destAddr == dest
  }

  /** A table keyed by destination never holds two entries for the same
      destination. */
  lemma NoDuplicateDestinations(table: map<Ipv4Address, RoutingTableEntry>, a: Ipv4Address, b: Ipv4Address)
    requires KeyedByDestination(table)
    requires a in table && b in table && table[a].destAddr == table[b].destAddr
    ensures a == b
  {
  }

  /** The value a uint16_t counter takes when incremented: wraps modulo 2^16. */
  function NextSequenceNumber(n: u16): (r: u16)
    ensures r != n
    ensures n < 0xFFFF ==> r == n + 1
    ensures n == 0xFFFF ==> r == 0
  {
    ToU16(n + 1)
  }

  class RoutingProtocol {
    /** m_table: destination address to routing entry. */
    var table: map<Ipv4Address, RoutingTableEntry>
    /** m_packetSequenceNumber */
    var packetSequenceNumber: u16
    /** m_messageSequenceNumber */
    var messageSequenceNumber: u16
    /** m_interfaceExclusions */
    var interfaceExclusions: set<u32>

    ghost predicate Valid()
      reads this
    {
      KeyedByDestination(table)
    }

    /** The containers start empty; the counters' initial values are given. */
    constructor (packetSeq: u16, messageSeq: u16)
      ensures Valid()
      ensures table == map[] && interfaceExclusions == {}
      ensures packetSequenceNumber == packetSeq && messageSequenceNumber == messageSeq
    {
      table := map[];
      interfaceExclusions := {};
      packetSequenceNumber := packetSeq;
      messageSequenceNumber := messageSeq;
    }

    function GetInterfaceExclusions(): (exclusions: set<u32>)
      reads this
      ensures exclusions == interfaceExclusions
    {
      interfaceExclusions
    }

    method SetInterfaceExclusions(exceptions: set<u32>)
      modifies this`interfaceExclusions
      ensures interfaceExclusions == exceptions
      ensures GetInterfaceExclusions() == exceptions
    {
      interfaceExclusions := exceptions;
    }

    /** The number of entries, as the uint32_t GetSize returns it. */
    function GetSize(): (n: u32)
      reads this
      ensures |table| < 0x1_0000_0000 ==> n == |table|
    {
      ToU32(|table|)
    }

    method Clear()
      modifies this`table
      ensures Valid()
      ensures table == map[] && GetSize() == 0
    {
      table := map[];
    }

    /** Removes the entry for dest, if any; the other destinations keep
        their entries. */
    method RemoveEntry(dest: Ipv4Address)
      requires Valid()
      modifies this`table
      ensures Valid()
      ensures dest !in table
      ensures forall d :: d in old(table) && d != dest ==> d in table && table[d] == old(table)[d]
      ensures table.Keys == old(table).Keys - {dest}
      ensures |table| == if dest in old(table) then |old(table)| - 1 else |old(table)|
    {
      table := table - {dest};
    }

    /** Stores (dest, mask, next, interface) under dest, replacing any entry
        for dest; the other destinations keep their entries. */
    method AddEntry(dest: Ipv4Address, mask: Ipv4Address, next: Ipv4Address, interface: u32)
      requires Valid()
      modifies this`table
      ensures Valid()
      ensures dest in table && table[dest] == RoutingTableEntry(dest, mask, next, interface)
      ensures forall d :: d in old(table) && d != dest ==> d in table && table[d] == old(table)[d]
      ensures table.Keys == old(table).Keys + {dest}
      ensures |table| == if dest in old(table) then |old(table)| else |old(table)| + 1
    {
      table := table[dest := RoutingTableEntry(dest, mask, next, interface)];
    }

    /** Increments the packet sequence number and returns the new value. */
    method GetPacketSequenceNumber() returns (seqNum: u16)
      modifies this`packetSequenceNumber
      ensures packetSequenceNumber == NextSequenceNumber(old(packetSequenceNumber))
      ensures seqNum == packetSequenceNumber
    {
      packetSequenceNumber := NextSequenceNumber(packetSequenceNumber);
      seqNum := packetSequenceNumber;
    }

    /** Increments the message sequence number and returns the new value. */
    method GetMessageSequenceNumber() returns (seqNum: u16)
      modifies this`messageSequenceNumber
      ensures messageSequenceNumber == NextSequenceNumber(old(messageSequenceNumber))
      ensures seqNum == messageSequenceNumber
    {
      messageSequenceNumber := NextSequenceNumber(messageSequenceNumber);
      seqNum := messageSequenceNumber;
    }
  }
}
