/** Sending a buffer in wiced_tcpip_common.c: plain packets, or TLS records within the negotiated
    fragment length, a record that exceeds the segment size being encrypted once and then only sliced. */
module SendBuffer {
  import opened Common
  import opened Network

  // ---------- The record layer, abstractly ----------

  /** The n-th record of a connection carries the n-th cipher state; decoding takes one record off the
      front of the wire. */
  datatype Codec = Codec(encode: (nat, Bytes) -> Bytes, decode: (nat, Bytes) -> Option<(Bytes, Bytes)>)

  /** Decoding undoes encoding for plaintexts of `least` to `limit` bytes; nothing is asked of others. */
  ghost predicate Lawful(c: Codec, least: nat, limit: nat) {
    forall n: nat, plain: Bytes, rest: Bytes {:trigger c.decode(n, c.encode(n, plain) + rest)} ::
      least <= |plain| <= limit ==>
        c.encode(n, plain) != [] && c.decode(n, c.encode(n, plain) + rest) == Some((plain, rest))
  }

  function EncodeAll(c: Codec, n: nat, records: seq<Bytes>): Bytes
    decreases |records|
  {
    if records == [] then [] else c.encode(n, records[0]) + EncodeAll(c, n + 1, records[1..])
  }

  /** The receiver: decode records until the wire is empty. */
  function DecodeAll(c: Codec, n: nat, wire: Bytes): Option<Bytes>
    decreases |wire|
  {
    if wire == [] then Some([])
    else
      match c.decode(n, wire)
      case None => None
      case Some((plain, rest)) =>
        if |rest| >= |wire| then None
        else
          match DecodeAll(c, n + 1, rest)
          case None => None
          case Some(more) => Some(plain + more)
  }

  ghost predicate AllNonEmpty(parts: seq<Bytes>) {
    forall i :: 0 <= i < |parts| ==> parts[i] != []
  }

  lemma {:induction false} DecodeUndoesEncode(c: Codec, least: nat, limit: nat, n: nat, records: seq<Bytes>)
    requires Lawful(c, least, limit) && forall i :: 0 <= i < |records| ==> least <= |records[i]| <= limit
    ensures DecodeAll(c, n, EncodeAll(c, n, records)) == Some(Flatten(records))
    decreases |records|
  {
    if records != [] {
      var rest := EncodeAll(c, n + 1, records[1..]);
      var first := c.encode(n, records[0]);
      assert c.decode(n, first + rest) == Some((records[0], rest));
      DecodeUndoesEncode(c, least, limit, n + 1, records[1..]);
    }
  }

  lemma {:induction false} EncodeAllConcat(c: Codec, n: nat, a: seq<Bytes>, b: seq<Bytes>)
    ensures EncodeAll(c, n, a + b) == EncodeAll(c, n, a) + EncodeAll(c, n + |a|, b)
    decreases |a|
  {
    if a == [] {
      assert a + b == b;
    } else {
      assert (a + b)[0] == a[0] && (a + b)[1..] == a[1..] + b;
      EncodeAllConcat(c, n + 1, a[1..], b);
    }
  }

  // ---------- Sending ----------

  datatype Tls = Tls(codec: Codec, limit: nat, segmentSize: nat) {
    ghost predicate Valid() {
      1 <= limit <= 0xFFFF && forall n: nat, plain: Bytes :: |plain| <= limit ==> |codec.encode(n, plain)| <= 0xFFFF
    }
  }

  /** Where a sender stands: the network, the number of the next record, the pieces packeted so far, and
      whether nothing has failed. */
  datatype Progress = Progress(net: Net, next: nat, pieces: seq<Bytes>, ok: bool)

  /** One packet with the next piece of the data, encrypted on its own if there is a codec to use. */
  function Piece(net: Net, next: nat, data: Bytes, codec: Option<Codec>): (r: (Progress, nat))
    requires data != [] && net.allocs != []
    ensures r.1 <= |data| && r.0.net.allocs == net.allocs[1..] && r.0.pieces == [data[..r.1]]
    ensures net.Roomy() ==> r.1 > 0 && r.0.net.Roomy()
  {
    var n := Min(|data|, net.allocs[0]);
    var payload := if codec.Some? then codec.value.encode(next, data[..n]) else data[..n];
    var after := net.Allocated();
    (Progress(after.Offered(Packet(payload, net.allocs[0])), if codec.Some? then next + 1 else next,
              [data[..n]], after.Sends()), n)
  }

  function Prepended(pieces: seq<Bytes>, p: Progress): Progress {
    p.(pieces := pieces + p.pieces)
  }

  /** The inner loop: the data in packets of whatever sizes are allocated. */
  function SendPieces(net: Net, next: nat, data: Bytes, codec: Option<Codec>): (p: Progress)
    decreases |data|, |net.allocs|
  {
    if data == [] then Progress(net, next, [], true)
    else if net.allocs == [] then Progress(net, next, [], false)
    else
      var (p, n) := Piece(net, next, data, codec);
      if p.ok then Prepended(p.pieces, SendPieces(p.net, p.next, data[n..], codec)) else p
  }

  /** One fragment of a TLS buffer. The pieces are the records' plaintexts. */
  function SendFragment(net: Net, next: nat, fragment: Bytes, tls: Tls): (p: Progress)
  {
    if |fragment| > tls.segmentSize
    then SendPieces(net, next + 1, tls.codec.encode(next, fragment), None).(pieces := [fragment])
    else SendPieces(net, next, fragment, Some(tls.codec))
  }

  /** The outer loop over a TLS socket. */
  function SendRecords(net: Net, next: nat, buffer: Bytes, tls: Tls): (p: Progress)
    requires tls.limit > 0
    decreases |buffer|
  {
    if buffer == [] then Progress(net, next, [], true)
    else
      var n := Min(|buffer|, tls.limit);
      var p := SendFragment(net, next, buffer[..n], tls);
      if p.ok then Prepended(p.pieces, SendRecords(p.net, p.next, buffer[n..], tls)) else p
  }

  /** What one piece looks like on the wire. */
  function OnWire(next: nat, piece: Bytes, codec: Option<Codec>): Bytes {
    if codec.Some? then codec.value.encode(next, piece) else piece
  }

  function AllOnWire(next: nat, pieces: seq<Bytes>, codec: Option<Codec>): Bytes {
    if codec.Some? then EncodeAll(codec.value, next, pieces) else Flatten(pieces)
  }

  lemma PieceSends(net: Net, next: nat, data: Bytes, codec: Option<Codec>)
    requires data != [] && net.allocs != [] && Piece(net, next, data, codec).0.ok
    ensures var (p, n) := Piece(net, next, data, codec);
            && Delivered(p.net.offers) == Delivered(net.offers) + OnWire(next, data[..n], codec)
            && p.next == (if codec.Some? then next + 1 else next)
  {
  }

  lemma AllOnWireFirst(next: nat, piece: Bytes, rest: seq<Bytes>, codec: Option<Codec>)
    ensures AllOnWire(next, [piece] + rest, codec)
         == OnWire(next, piece, codec) + AllOnWire(if codec.Some? then next + 1 else next, rest, codec)
    ensures Flatten([piece] + rest) == piece + Flatten(rest)
  {
  }

  lemma NothingOnWire(next: nat, codec: Option<Codec>)
    ensures AllOnWire(next, [], codec) == [] && Flatten([]) == []
  {
  }

  /** Without failure the data goes out piece by piece: in the clear, or as one record for each piece. */
  lemma {:induction false} PiecesCarryData(net: Net, next: nat, data: Bytes, codec: Option<Codec>)
    requires SendPieces(net, next, data, codec).ok
    ensures var p := SendPieces(net, next, data, codec);
            && Flatten(p.pieces) == data && (net.Roomy() ==> p.net.Roomy() && AllNonEmpty(p.pieces))
            && (forall i :: 0 <= i < |p.pieces| ==> |p.pieces[i]| <= |data|)
            && Delivered(p.net.offers) == Delivered(net.offers) + AllOnWire(next, p.pieces, codec)
            && p.next == (if codec.Some? then next + |p.pieces| else next)
    decreases |data|, |net.allocs|
  {
    hide Piece, AllOnWire, OnWire, Delivered, Flatten;
    if data == [] {
      NothingOnWire(next, codec);
      assert Delivered(net.offers) + [] == Delivered(net.offers);
    } else {
      var (q, n) := Piece(net, next, data, codec);
      PieceSends(net, next, data, codec);
      PiecesCarryData(q.net, q.next, data[n..], codec);
      var rest := SendPieces(q.net, q.next, data[n..], codec).pieces;
      AllOnWireFirst(next, data[..n], rest, codec);
      assert data == data[..n] + data[n..];
    }
  }

  /** A fragment beyond the segment size is encrypted exactly once, however many packets carry it. */
  lemma OversizeEncryptedOnce(net: Net, next: nat, fragment: Bytes, tls: Tls)
    requires |fragment| > tls.segmentSize && SendFragment(net, next, fragment, tls).ok
    ensures var p := SendFragment(net, next, fragment, tls);
            && p.next == next + 1 && p.pieces == [fragment] && (net.Roomy() ==> p.net.Roomy())
            && Delivered(p.net.offers) == Delivered(net.offers) + tls.codec.encode(next, fragment)
  {
    PiecesCarryData(net, next + 1, tls.codec.encode(next, fragment), None);
  }

  lemma FragmentCarriesData(net: Net, next: nat, fragment: Bytes, tls: Tls)
    requires fragment != [] && SendFragment(net, next, fragment, tls).ok
    ensures var p := SendFragment(net, next, fragment, tls);
            && Flatten(p.pieces) == fragment && (net.Roomy() ==> p.net.Roomy() && AllNonEmpty(p.pieces))
            && (forall i :: 0 <= i < |p.pieces| ==> |p.pieces[i]| <= |fragment|)
            && Delivered(p.net.offers) == Delivered(net.offers) + EncodeAll(tls.codec, next, p.pieces)
            && p.next == next + |p.pieces|
  {
    hide SendPieces;
    if |fragment| > tls.segmentSize {
      OversizeEncryptedOnce(net, next, fragment, tls);
      OnePart(fragment);
      OneRecord(tls.codec, next, fragment);
    } else {
      PiecesCarryData(net, next, fragment, Some(tls.codec));
    }
  }

  lemma OnePart(part: Bytes)
    ensures Flatten([part]) == part
  {
  }

  lemma OneRecord(c: Codec, n: nat, plain: Bytes)
    ensures EncodeAll(c, n, [plain]) == c.encode(n, plain)
  {
  }

  /** Without failure the wire carries one record after another, whose plaintexts are the buffer cut into
      non-empty pieces within the negotiated length. */
  lemma {:induction false} RecordsCarryBuffer(net: Net, next: nat, buffer: Bytes, tls: Tls)
    requires tls.limit > 0 && SendRecords(net, next, buffer, tls).ok
    ensures var p := SendRecords(net, next, buffer, tls);
            && Flatten(p.pieces) == buffer && (net.Roomy() ==> p.net.Roomy() && AllNonEmpty(p.pieces))
            && (forall i :: 0 <= i < |p.pieces| ==> |p.pieces[i]| <= tls.limit)
            && Delivered(p.net.offers) == Delivered(net.offers) + EncodeAll(tls.codec, next, p.pieces)
            && p.next == next + |p.pieces|
    decreases |buffer|
  {
    hide SendFragment, EncodeAll, Flatten, Delivered;
    if buffer == [] {
      NoRecords(tls.codec, next);
      assert Delivered(net.offers) + [] == Delivered(net.offers);
    } else {
      var n := Min(|buffer|, tls.limit);
      var q := SendFragment(net, next, buffer[..n], tls);
      FragmentCarriesData(net, next, buffer[..n], tls);
      RecordsCarryBuffer(q.net, q.next, buffer[n..], tls);
      var rest := SendRecords(q.net, q.next, buffer[n..], tls).pieces;
      EncodeAllConcat(tls.codec, next, q.pieces, rest);
      FlattenConcat(q.pieces, rest);
      assert buffer == buffer[..n] + buffer[n..];
    }
  }

  lemma NoRecords(c: Codec, n: nat)
    ensures EncodeAll(c, n, []) == [] && Flatten([]) == []
  {
  }

  /** What a successful send over TLS put on the wire, and nothing less or more, decodes to the buffer. A
      packet without space makes an empty record, which the codec must then allow. */
  lemma SentBufferDecodes(net: Net, next: nat, buffer: Bytes, tls: Tls, least: nat)
    requires tls.limit > 0 && Lawful(tls.codec, least, tls.limit) && SendRecords(net, next, buffer, tls).ok
    requires least == 0 || (least == 1 && net.Roomy())
    ensures var p := SendRecords(net, next, buffer, tls);
            var before := Delivered(net.offers);
            && before <= Delivered(p.net.offers)
            && DecodeAll(tls.codec, next, Delivered(p.net.offers)[|before|..]) == Some(buffer)
  {
    hide SendRecords, Delivered, DecodeAll, EncodeAll, Lawful;
    var p := SendRecords(net, next, buffer, tls);
    RecordsCarryBuffer(net, next, buffer, tls);
    DecodeUndoesEncode(tls.codec, least, tls.limit, next, p.pieces);
    var wire := EncodeAll(tls.codec, next, p.pieces);
    assert (Delivered(net.offers) + wire)[|Delivered(net.offers)|..] == wire;
  }

  lemma PieceFails(net: Net, next: nat, data: Bytes, codec: Option<Codec>)
    requires data != [] && net.allocs != [] && !Piece(net, next, data, codec).0.ok
    ensures Delivered(Piece(net, next, data, codec).0.net.offers) == Delivered(net.offers)
  {
    var n := Min(|data|, net.allocs[0]);
    var o := Offer(Packet(OnWire(next, data[..n], codec), net.allocs[0]), false);
    assert (net.offers + [o])[..|net.offers|] == net.offers;
    hide OnWire;
    assert Delivered(net.offers + [o]) == Delivered(net.offers) + [];
  }

  /** What a send over a plain socket puts on the wire is a prefix of the buffer, and success is reported
      exactly when it is all of it. */
  lemma {:induction false} SentBufferPlain(net: Net, next: nat, buffer: Bytes)
    ensures var before, after := Delivered(net.offers), Delivered(SendPieces(net, next, buffer, None).net.offers);
            && before <= after <= before + buffer
            && (SendPieces(net, next, buffer, None).ok <==> after == before + buffer)
    decreases |buffer|, |net.allocs|
  {
    hide Piece, Delivered;
    if buffer != [] && net.allocs != [] {
      var (p, n) := Piece(net, next, buffer, None);
      if p.ok {
        PieceSends(net, next, buffer, None);
        SentBufferPlain(p.net, p.next, buffer[n..]);
        assert Delivered(net.offers) + buffer[..n] + buffer[n..] == Delivered(net.offers) + buffer;
      } else {
        PieceFails(net, next, buffer, None);
      }
    }
  }

  // ---------- When a send succeeds ----------

  /** The network has the packets for `size` bytes, and sends each of them. */
  ghost predicate Suffices(allocs: seq<nat>, sends: seq<bool>, size: nat) {
    exists k: nat :: Needed(allocs, size, k) && SendsHold(sends, k)
  }

  /** What a fragment needs room for: its encoding if it exceeds the segment size, itself otherwise. */
  function FragmentSize(next: nat, fragment: Bytes, tls: Tls): nat {
    if |fragment| > tls.segmentSize then |tls.codec.encode(next, fragment)| else |fragment|
  }

  /** The network has the packets for one fragment after another. A fragment within the segment size takes a
      record number for each packet, an oversize one takes a single number. */
  ghost predicate RecordsSuffice(allocs: seq<nat>, sends: seq<bool>, next: nat, buffer: Bytes, tls: Tls)
    requires tls.limit > 0
    decreases |buffer|
  {
    if buffer == [] then true
    else
      var n := Min(|buffer|, tls.limit);
      exists k: nat ::
        && Needed(allocs, FragmentSize(next, buffer[..n], tls), k) && SendsHold(sends, k)
        && RecordsSuffice(allocs[k..], sends[k..], next + (if n > tls.segmentSize then 1 else k), buffer[n..], tls)
  }

  lemma PieceTakes(net: Net, next: nat, data: Bytes, codec: Option<Codec>)
    requires data != [] && net.allocs != []
    ensures var (p, n) := Piece(net, next, data, codec);
            && n == Min(|data|, net.allocs[0])
            && p.net.allocs == net.allocs[1..] && p.ok == (net.sends != [] && net.sends[0])
            && (p.ok ==> p.net.sends == net.sends[1..])
            && p.next == (if codec.Some? then next + 1 else next)
  {
  }

  /** If the next k packets are what is needed and all are sent, the send succeeds and uses up just those. */
  lemma {:induction false} SendSucceeds(net: Net, next: nat, data: Bytes, codec: Option<Codec>, k: nat)
    requires Needed(net.allocs, |data|, k) && SendsHold(net.sends, k)
    ensures var p := SendPieces(net, next, data, codec);
            && p.ok && p.net.allocs == net.allocs[k..] && p.net.sends == net.sends[k..]
            && p.next == (if codec.Some? then next + k else next)
    decreases |data|, |net.allocs|
  {
    hide Piece, Needed, SendsHold;
    if data == [] {
      NeededNothing(net.allocs, k);
    } else {
      if net.allocs == [] { NoneNeeded(|data|, k); }
      NeededNext(net.allocs, |data|, k);
      SendsHoldNext(net.sends, k);
      PieceTakes(net, next, data, codec);
      var (p, n) := Piece(net, next, data, codec);
      SendSucceeds(p.net, p.next, data[n..], codec, k - 1);
    }
  }

  lemma NoneNeeded(size: nat, k: nat)
    ensures Needed([], size, k) ==> k == 0 && size == 0
  {
  }

  lemma {:induction false} SendNeeds(net: Net, next: nat, data: Bytes, codec: Option<Codec>)
    requires SendPieces(net, next, data, codec).ok
    ensures Suffices(net.allocs, net.sends, |data|)
    decreases |data|, |net.allocs|
  {
    hide Piece, Needed, SendsHold;
    if data == [] {
      NeededNothing(net.allocs, 0);
      assert SendsHold(net.sends, 0) by { NoSends(net.sends); }
    } else {
      PieceTakes(net, next, data, codec);
      var (p, n) := Piece(net, next, data, codec);
      SendNeeds(p.net, p.next, data[n..], codec);
      var k: nat :| Needed(p.net.allocs, |data[n..]|, k) && SendsHold(p.net.sends, k);
      NeededNext(net.allocs, |data|, k + 1);
      SendsHoldNext(net.sends, k + 1);
      assert Needed(net.allocs, |data|, k + 1) && SendsHold(net.sends, k + 1);
    }
  }

  lemma NoSends(sends: seq<bool>)
    ensures SendsHold(sends, 0)
  {
  }

  /** Exactly when a plain send, or the packets of one fragment, succeed. */
  lemma SendPiecesIff(net: Net, next: nat, data: Bytes, codec: Option<Codec>)
    ensures SendPieces(net, next, data, codec).ok <==> Suffices(net.allocs, net.sends, |data|)
  {
    hide SendPieces, Needed, SendsHold;
    if SendPieces(net, next, data, codec).ok { SendNeeds(net, next, data, codec); }
    if Suffices(net.allocs, net.sends, |data|) {
      var k: nat :| Needed(net.allocs, |data|, k) && SendsHold(net.sends, k);
      SendSucceeds(net, next, data, codec, k);
    }
  }

  /** The same for one fragment over TLS. */
  lemma FragmentIff(net: Net, next: nat, fragment: Bytes, tls: Tls)
    ensures SendFragment(net, next, fragment, tls).ok <==>
            Suffices(net.allocs, net.sends, FragmentSize(next, fragment, tls))
    ensures forall k: nat ::
              Needed(net.allocs, FragmentSize(next, fragment, tls), k) && SendsHold(net.sends, k) ==>
                var p := SendFragment(net, next, fragment, tls);
                && p.net.allocs == net.allocs[k..] && p.net.sends == net.sends[k..]
                && p.next == next + (if |fragment| > tls.segmentSize then 1 else k)
  {
    hide SendPieces, Needed, SendsHold;
    if |fragment| > tls.segmentSize {
      SendPiecesIff(net, next + 1, tls.codec.encode(next, fragment), None);
    } else {
      SendPiecesIff(net, next, fragment, Some(tls.codec));
    }
    forall k: nat | Needed(net.allocs, FragmentSize(next, fragment, tls), k) && SendsHold(net.sends, k)
      ensures var p := SendFragment(net, next, fragment, tls);
              && p.net.allocs == net.allocs[k..] && p.net.sends == net.sends[k..]
              && p.next == next + (if |fragment| > tls.segmentSize then 1 else k)
    {
      if |fragment| > tls.segmentSize {
        SendSucceeds(net, next + 1, tls.codec.encode(next, fragment), None, k);
      } else {
        SendSucceeds(net, next, fragment, Some(tls.codec), k);
      }
    }
  }

  /** Exactly when a send over TLS succeeds. */
  lemma {:induction false} SendRecordsIff(net: Net, next: nat, buffer: Bytes, tls: Tls)
    requires tls.limit > 0
    ensures SendRecords(net, next, buffer, tls).ok <==> RecordsSuffice(net.allocs, net.sends, next, buffer, tls)
    decreases |buffer|
  {
    hide SendFragment, Needed, SendsHold, FragmentSize;
    if buffer != [] {
      var n := Min(|buffer|, tls.limit);
      var fragment := buffer[..n];
      var p := SendFragment(net, next, fragment, tls);
      FragmentIff(net, next, fragment, tls);
      if p.ok {
        var k: nat :| Needed(net.allocs, FragmentSize(next, fragment, tls), k) && SendsHold(net.sends, k);
        SendRecordsIff(p.net, p.next, buffer[n..], tls);
        forall j: nat | Needed(net.allocs, FragmentSize(next, fragment, tls), j) ensures j == k {
          NeededUnique(net.allocs, FragmentSize(next, fragment, tls), j, k);
        }
      }
    }
  }

  // ---------- The sender ----------

  datatype Result = Success | NotUp | Failed

  class Sender {
    const socket: Socket
    const tls: Option<Tls>
    var nextRecord: nat

    ghost predicate Valid()
      reads this, socket
    {
      tls.Some? ==> tls.value.Valid()
    }

    constructor (socket: Socket, tls: Option<Tls>)
      requires tls.Some? ==> tls.value.Valid()
      ensures Valid() && this.socket == socket && this.tls == tls && nextRecord == 0
    {
      this.socket, this.tls, nextRecord := socket, tls, 0;
    }

    ghost function Target(buffer: Bytes): Progress
      requires Valid()
      reads this, socket
    {
      if tls.Some? then SendRecords(socket.State(), nextRecord, buffer, tls.value)
      else SendPieces(socket.State(), nextRecord, buffer, None)
    }

    /** Encrypt on the way out if a codec is given, send, and say how many bytes of the data went. */
    method SendPacket(data: Bytes, codec: Option<Codec>) returns (ok: bool, n: nat)
      requires data != [] && socket.allocs != []
      modifies this`nextRecord, socket`allocs, socket`sends, socket`offers
      ensures var (p, m) := Piece(old(socket.State()), old(nextRecord), data, codec);
              socket.State() == p.net && nextRecord == p.next && ok == p.ok && n == m
    {
      var _, space := socket.CreatePacket();
      n := Min(|data|, space);
      var payload := data[..n];
      if codec.Some? {
        payload := codec.value.encode(nextRecord, payload);
        nextRecord := nextRecord + 1;
      }
      ok := socket.Send(Packet(payload, space));
    }

    method SendData(data: Bytes, codec: Option<Codec>) returns (ok: bool)
      modifies this`nextRecord, socket`allocs, socket`sends, socket`offers
      ensures var p := SendPieces(old(socket.State()), old(nextRecord), data, codec);
              socket.State() == p.net && nextRecord == p.next && ok == p.ok
      ensures ok <==> old(Suffices(socket.allocs, socket.sends, |data|))
    {
      SendPiecesIff(socket.State(), nextRecord, data, codec);
      hide Piece, Suffices;
      ghost var target := SendPieces(socket.State(), nextRecord, data, codec);
      var rest := data;
      while rest != []
        invariant SameOutcome(SendPieces(socket.State(), nextRecord, rest, codec), target)
        decreases |rest|, |socket.allocs|
      {
        if socket.allocs == [] {
          return false;
        }
        var sent, n := SendPacket(rest, codec);
        if !sent {
          return false;
        }
        rest := rest[n..];
      }
      return true;
    }

    method SendBuffer(buffer: Bytes, linkUp: bool) returns (result: Result)
      requires Valid() && |buffer| <= 0xFFFF
      modifies this`nextRecord, socket`allocs, socket`sends, socket`offers
      ensures !linkUp ==> result == NotUp && socket.State() == old(socket.State()) && nextRecord == old(nextRecord)
      ensures linkUp ==>
              var p := old(Target(buffer));
              socket.State() == p.net && nextRecord == p.next && result == if p.ok then Success else Failed
      ensures linkUp && tls.None? ==>
              (result == Success <==> old(Suffices(socket.allocs, socket.sends, |buffer|)))
      ensures linkUp && tls.Some? ==>
              (result == Success <==>
               old(RecordsSuffice(socket.allocs, socket.sends, nextRecord, buffer, tls.value)))
    {
      hide SendPieces, SendFragment, Suffices, RecordsSuffice;
      if !linkUp {
        return NotUp;
      }
      if tls.Some? { SendRecordsIff(socket.State(), nextRecord, buffer, tls.value); }
      if tls.None? {
        var sent := SendData(buffer, None);
        return if sent then Success else Failed;
      }
      ghost var target := Target(buffer);
      var rest := buffer;
      while rest != []
        invariant Valid()
        invariant SameOutcome(SendRecords(socket.State(), nextRecord, rest, tls.value), target)
        decreases |rest|
      {
        var n := Min(|rest|, tls.value.limit);
        var fragment := rest[..n];
        FragmentIs(socket.State(), nextRecord, fragment, tls.value);
        var sent;
        if |fragment| > tls.value.segmentSize {
          var wire := tls.value.codec.encode(nextRecord, fragment);
          nextRecord := nextRecord + 1;
          sent := SendData(wire, None);
        } else {
          sent := SendData(fragment, Some(tls.value.codec));
        }
        if !sent {
          return Failed;
        }
        rest := rest[n..];
      }
      return Success;
    }
  }

  /** The same network, record number and success. */
  ghost predicate SameOutcome(p: Progress, q: Progress) {
    p.net == q.net && p.next == q.next && p.ok == q.ok
  }

  lemma FragmentIs(net: Net, next: nat, fragment: Bytes, tls: Tls)
    ensures SameOutcome(SendFragment(net, next, fragment, tls),
                        if |fragment| > tls.segmentSize
                        then SendPieces(net, next + 1, tls.codec.encode(next, fragment), None)
                        else SendPieces(net, next, fragment, Some(tls.codec)))
  {
  }
}
