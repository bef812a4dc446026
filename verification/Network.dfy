/** The network a socket is connected to, as far as its users can tell: which packet allocations and
    which sends will succeed, what has been offered and sent, and what will be received. */
module Network {
  import opened Common

  /** A packet with the space it was allocated. */
  datatype Packet = Packet(payload: Bytes, capacity: nat)

  /** A packet handed to the network, and whether it was sent. */
  datatype Offer = Offer(packet: Packet, sent: bool)

  /** The outcomes still to come, the space of each allocation (when the list is used up, allocation fails)
      and the fate of each send (when used up, sending fails); and every packet offered so far. */
  datatype Net = Net(allocs: seq<nat>, sends: seq<bool>, offers: seq<Offer>) {
    ghost predicate Valid() {
      forall i :: 0 <= i < |allocs| ==> allocs[i] <= 0xFFFF
    }

    /** Every packet to be allocated has some space. */
    ghost predicate Roomy() {
      forall i :: 0 <= i < |allocs| ==> 1 <= allocs[i]
    }

    function Allocated(): Net {
      if allocs == [] then this else this.(allocs := allocs[1..])
    }

    predicate Sends() {
      sends != [] && sends[0]
    }

    function Offered(p: Packet): Net {
      Net(allocs, if sends == [] then [] else sends[1..], offers + [Offer(p, Sends())])
    }
  }

  /** The bytes of all packets offered. */
  function Payloads(offers: seq<Offer>): Bytes
    decreases |offers|
  {
    if offers == [] then [] else Payloads(offers[..|offers| - 1]) + offers[|offers| - 1].packet.payload
  }

  /** The bytes of the packets sent: of those offered, the failed ones left out. */
  function Delivered(offers: seq<Offer>): Bytes
    decreases |offers|
  {
    if offers == [] then []
    else
      var last := offers[|offers| - 1];
      Delivered(offers[..|offers| - 1]) + (if last.sent then last.packet.payload else [])
  }

  ghost predicate AllSent(offers: seq<Offer>) {
    forall i :: 0 <= i < |offers| ==> offers[i].sent
  }

  lemma {:induction false} AllDelivered(offers: seq<Offer>)
    requires AllSent(offers)
    ensures Delivered(offers) == Payloads(offers)
    decreases |offers|
  {
    if offers != [] { AllDelivered(offers[..|offers| - 1]); }
  }

  function Total(spaces: seq<nat>): nat
    decreases |spaces|
  {
    if spaces == [] then 0 else spaces[0] + Total(spaces[1..])
  }

  /** The first k packets, and no fewer, have the space for `size` bytes. */
  ghost predicate Needed(spaces: seq<nat>, size: nat, k: nat): (enough: bool)
    ensures enough ==> k <= |spaces|
  {
    k <= |spaces| && Total(spaces[..k]) >= size && (k > 0 ==> Total(spaces[..k - 1]) < size)
  }

  ghost predicate SendsHold(sends: seq<bool>, k: nat): (hold: bool)
    ensures hold ==> k <= |sends|
  {
    k <= |sends| && forall i :: 0 <= i < k ==> sends[i]
  }

  lemma TotalFirst(spaces: seq<nat>, k: nat)
    requires 0 < k <= |spaces|
    ensures Total(spaces[..k]) == spaces[0] + Total(spaces[1..][..k - 1])
  {
    assert spaces[..k][1..] == spaces[1..][..k - 1];
  }

  lemma NeededNothing(spaces: seq<nat>, k: nat)
    ensures Needed(spaces, 0, k) <==> k == 0
  {
  }

  /** What is needed after the first packet has been filled as far as it goes. */
  lemma NeededNext(spaces: seq<nat>, size: nat, k: nat)
    requires spaces != [] && size > 0
    ensures Needed(spaces, size, k) <==> k > 0 && Needed(spaces[1..], size - Min(size, spaces[0]), k - 1)
  {
    if 0 < k <= |spaces| {
      TotalFirst(spaces, k);
      if k > 1 { TotalFirst(spaces, k - 1); }
    }
  }

  lemma SendsHoldNext(sends: seq<bool>, k: nat)
    requires k > 0
    ensures SendsHold(sends, k) <==> sends != [] && sends[0] && SendsHold(sends[1..], k - 1)
  {
    if sends != [] && sends[0] && SendsHold(sends[1..], k - 1) {
      forall i | 0 <= i < k ensures sends[i] { if i > 0 { assert sends[1..][i - 1]; } }
    }
  }

  lemma {:induction false} TotalMonotone(spaces: seq<nat>, i: nat, j: nat)
    requires i <= j <= |spaces|
    ensures Total(spaces[..i]) <= Total(spaces[..j])
    decreases i
  {
    if i > 0 {
      TotalFirst(spaces, i);
      TotalFirst(spaces, j);
      TotalMonotone(spaces[1..], i - 1, j - 1);
    }
  }

  /** There is at most one such number. */
  lemma NeededUnique(spaces: seq<nat>, size: nat, i: nat, j: nat)
    requires Needed(spaces, size, i) && Needed(spaces, size, j)
    ensures i == j
  {
    if i < j { TotalMonotone(spaces, i, j - 1); }
    if j < i { TotalMonotone(spaces, j, i - 1); }
  }

  /** The part of a buffer between two positions. */
  function Slice(data: Bytes, from: nat, to: nat): Bytes
    requires from <= to <= |data|
  {
    data[from..to]
  }

  class Socket {
    var allocs: seq<nat>
    var sends: seq<bool>
    var offers: seq<Offer>
    var received: seq<Bytes>

    ghost function State(): Net
      reads this
    {
      Net(allocs, sends, offers)
    }

    constructor (allocs: seq<nat>, sends: seq<bool>, received: seq<Bytes>)
      ensures State() == Net(allocs, sends, []) && this.received == received
    {
      this.allocs, this.sends, this.offers, this.received := allocs, sends, [], received;
    }

    method CreatePacket() returns (ok: bool, space: nat)
      modifies this`allocs
      ensures State() == old(State()).Allocated()
      ensures ok == (old(allocs) != []) && (ok ==> space == old(allocs)[0]) && (!ok ==> space == 0)
    {
      if allocs == [] {
        return false, 0;
      }
      ok, space := true, allocs[0];
      allocs := allocs[1..];
    }

    method Send(p: Packet) returns (ok: bool)
      modifies this`sends, this`offers
      ensures ok == old(State()).Sends() && State() == old(State()).Offered(p)
    {
      ok := sends != [] && sends[0];
      if sends != [] {
        sends := sends[1..];
      }
      offers := offers + [Offer(p, ok)];
    }

    /** The next packet that arrives within the timeout, if one does. */
    method Receive() returns (ok: bool, packet: Bytes)
      modifies this`received
      ensures ok == (old(received) != [])
      ensures ok ==> packet == old(received)[0] && received == old(received)[1..]
      ensures !ok ==> received == []
    {
      if received == [] {
        return false, [];
      }
      ok, packet := true, received[0];
      received := received[1..];
    }
  }
}
