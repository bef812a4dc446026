/** The TCP stream of wiced_tcpip_common.c: writes gathered into packets, flushes, and reads of any size. */
module TcpStream {
  import opened Common
  import opened Network

  datatype Result = Success | NotUp | NoPacket | SendFailed | Timeout

  // ---------- Writing ----------

  /** The sending side: the packet being filled, if there is one, and the network. `length` is kept
      apart from the packet, as in the source, and a failed send leaves it behind. */
  datatype Tx = Tx(open: bool, pending: Bytes, space: nat, length: nat, net: Net) {
    /** Between calls, with `limit` the maximum fragment length if the socket uses TLS. */
    ghost predicate Valid(limit: Option<nat>) {
      && net.Valid() && length < 0x1_0000
      && (open ==> pending != [] && space >= 1 && |pending| + space <= 0xFFFF)
      && (!open ==> pending == [] && space == 0)
      && (limit.Some? ==> |pending| <= length <= limit.value && (open ==> length < limit.value))
    }

    /** No failed send has left its length behind. */
    predicate Clean(limit: Option<nat>) {
      limit.Some? ==> length == |pending|
    }

    /** Every byte taken so far, offered to the network or pending. */
    function Taken(): Bytes {
      Payloads(net.offers) + pending
    }
  }

  predicate ValidLimit(limit: Option<nat>) {
    limit.Some? ==> 1 <= limit.value <= 0xFFFF
  }

  /** How many of `remaining` bytes go into the open packet. */
  function Amount(t: Tx, remaining: nat, limit: Option<nat>): nat
    requires limit.Some? ==> t.length <= limit.value
  {
    var amount := Min(remaining, t.space);
    if limit.Some? then Min(amount, limit.value - t.length) else amount
  }

  function Opened(t: Tx): Tx
    requires t.net.allocs != []
  {
    t.(open := true, pending := [], space := t.net.allocs[0], net := t.net.Allocated())
  }

  function Added(t: Tx, bytes: Bytes): Tx
    requires |bytes| <= t.space
  {
    t.(pending := t.pending + bytes, space := t.space - |bytes|, length := (|bytes| + t.length) % 0x1_0000)
  }

  predicate IsFull(t: Tx, limit: Option<nat>) {
    t.space == 0 || (limit.Some? && t.length == limit.value)
  }

  function PendingPacket(t: Tx): Packet {
    Packet(t.pending, |t.pending| + t.space)
  }

  /** The packet handed to the network. */
  function Dispatched(t: Tx): Tx {
    var ok := t.net.Sends();
    Tx(false, [], 0, if ok then 0 else t.length, t.net.Offered(PendingPacket(t)))
  }

  /** The open packet, possibly just allocated, during a write. */
  ghost predicate Filling(t: Tx, limit: Option<nat>) {
    && t.net.Valid() && t.open && t.length < 0x1_0000 && |t.pending| + t.space <= 0xFFFF
    && (limit.Some? ==> |t.pending| <= t.length <= limit.value)
  }

  /** The packet a turn of the write loop fills. */
  function Base(t: Tx): Tx
    requires t.open || t.net.allocs != []
  {
    if t.open then t else Opened(t)
  }

  lemma BaseFilling(t: Tx, limit: Option<nat>)
    requires t.Valid(limit) && ValidLimit(limit) && (t.open || t.net.allocs != [])
    ensures Filling(Base(t), limit)
    ensures t.open ==> !IsFull(Base(t), limit)
    ensures t.Clean(limit) ==> Base(t).Clean(limit)
    ensures t.net.Roomy() ==> Base(t).space >= 1
    ensures |Base(t).net.allocs| <= |t.net.allocs| && (!t.open ==> |Base(t).net.allocs| < |t.net.allocs|)
  {
  }

  /** The end of a turn: a full packet is handed over. */
  function Finished(added: Tx, limit: Option<nat>): (Tx, bool) {
    if IsFull(added, limit) then (Dispatched(added), added.net.Sends()) else (added, true)
  }

  /** What adding and finishing do to a packet being filled. */
  lemma FinishedFacts(base: Tx, data: Bytes, p: nat, n: nat, limit: Option<nat>, remaining: nat)
    requires Filling(base, limit) && ValidLimit(limit) && remaining > 0 && p + remaining <= |data|
    requires n == Amount(base, remaining, limit)
    ensures n <= base.space && n <= remaining && (n == 0 ==> IsFull(base, limit))
    ensures var next := Finished(Added(base, Slice(data, p, p + n)), limit).0;
            next.Valid(limit) && next.net.allocs == base.net.allocs
  {
  }

  /** One turn of the write loop: the next state, whether no send failed, and how many bytes went. A turn
      takes no bytes only when the packet just allocated counts as full already. */
  function Turn(t: Tx, data: Bytes, p: nat, remaining: nat, limit: Option<nat>): (r: (Tx, bool, nat))
    requires t.Valid(limit) && ValidLimit(limit) && 0 < remaining && p + remaining <= |data|
    requires t.open || t.net.allocs != []
    ensures r.2 <= remaining && r.0.Valid(limit)
    ensures r.2 == 0 ==> |r.0.net.allocs| < |t.net.allocs|
  {
    BaseFilling(t, limit);
    var base := Base(t);
    var n := Amount(base, remaining, limit);
    FinishedFacts(base, data, p, n, limit, remaining);
    var (next, ok) := Finished(Added(base, Slice(data, p, p + n)), limit);
    (next, ok, n)
  }

  /** A write from position p of the data with `remaining` bytes to go, reduced to 16 bits after every
      turn: the state, the result and the position reached. */
  function Written(t: Tx, data: Bytes, p: nat, remaining: nat, limit: Option<nat>): (r: (Tx, Result, nat))
    requires t.Valid(limit) && ValidLimit(limit) && p + remaining <= |data|
    ensures p <= r.2 <= |data| && r.0.Valid(limit)
    decreases remaining, |t.net.allocs|
  {
    if remaining == 0 then (t, Success, p)
    else if !t.open && t.net.allocs == [] then (t, NoPacket, p)
    else
      var (next, ok, n) := Turn(t, data, p, remaining, limit);
      if ok then Written(next, data, p + n, Left(remaining, n), limit) else (next, SendFailed, p + n)
  }

  function Left(remaining: nat, n: nat): (left: nat)
    requires n <= remaining
    ensures left <= remaining - n
    ensures remaining - n < 0x1_0000 ==> left == remaining - n
  {
    (remaining - n) % 0x1_0000
  }

  // ---------- What writing keeps ----------

  /** A packet within its space and within the negotiated fragment length. */
  ghost predicate GoodPacket(p: Packet, limit: Option<nat>) {
    |p.payload| <= p.capacity && (limit.Some? ==> |p.payload| <= limit.value)
  }

  ghost predicate FullPacket(p: Packet, limit: Option<nat>) {
    |p.payload| == p.capacity || (limit.Some? && |p.payload| == limit.value)
  }

  /** The packets offered beyond `before`: all good; if `clean`, all full; and if also `roomy`, none empty. */
  ghost predicate OffersMade(before: seq<Offer>, after: seq<Offer>, limit: Option<nat>, clean: bool, roomy: bool) {
    && before <= after
    && forall i :: |before| <= i < |after| ==>
         && GoodPacket(after[i].packet, limit)
         && (clean ==> FullPacket(after[i].packet, limit))
         && (clean && roomy ==> after[i].packet.payload != [])
  }

  ghost predicate AllSentSince(before: seq<Offer>, after: seq<Offer>) {
    before <= after && AllSent(after[|before|..])
  }

  lemma SentInTwoSteps(a: seq<Offer>, b: seq<Offer>, c: seq<Offer>)
    requires a <= b <= c
    ensures AllSentSince(a, c) <==> AllSentSince(a, b) && AllSentSince(b, c)
  {
    var x, y := b[|a|..], c[|b|..];
    assert c[|a|..] == x + y;
    if AllSent(x + y) {
      forall i | 0 <= i < |x| ensures x[i].sent { assert (x + y)[i] == x[i]; }
      forall i | 0 <= i < |y| ensures y[i].sent { assert (x + y)[|x| + i] == y[i]; }
    }
  }

  lemma NothingOffered(offers: seq<Offer>, limit: Option<nat>, clean: bool, roomy: bool)
    ensures OffersMade(offers, offers, limit, clean, roomy) && AllSentSince(offers, offers)
  {
  }

  /** Handing a full packet over, or keeping it, loses nothing. */
  lemma FinishedConserves(t: Tx, limit: Option<nat>, clean: bool, roomy: bool)
    requires limit.Some? ==> |t.pending| <= t.length <= limit.value
    requires clean ==> t.Clean(limit)
    requires clean && roomy ==> t.pending != []
    ensures var (next, ok) := Finished(t, limit);
            && next.Taken() == t.Taken()
            && OffersMade(t.net.offers, next.net.offers, limit, clean, roomy)
            && (ok <==> AllSentSince(t.net.offers, next.net.offers))
            && (ok && clean ==> next.Clean(limit))
  {
    var next := Finished(t, limit).0;
    if IsFull(t, limit) {
      var o := Offer(PendingPacket(t), t.net.Sends());
      assert next.net.offers == t.net.offers + [o];
      assert (t.net.offers + [o])[..|t.net.offers|] == t.net.offers;
      assert (t.net.offers + [o])[|t.net.offers|..] == [o];
    } else {
      NothingOffered(t.net.offers, limit, clean, roomy);
    }
  }

  /** Bytes added to a packet being filled. */
  lemma AddedFacts(t: Tx, base: Tx, data: Bytes, p: nat, n: nat, limit: Option<nat>)
    requires t.Valid(limit) && ValidLimit(limit) && (t.open || t.net.allocs != []) && base == Base(t)
    requires p + n <= |data| && n <= base.space && (limit.Some? ==> n <= limit.value - base.length)
    ensures var added := Added(base, Slice(data, p, p + n));
            && added.Taken() == t.Taken() + data[p..p + n] && added.net.offers == t.net.offers
            && (limit.Some? ==> |added.pending| <= added.length <= limit.value)
            && (t.Clean(limit) ==> added.Clean(limit))
            && (t.open || n > 0 ==> added.pending != [])
  {
    var b := data[p..p + n];
    assert Payloads(t.net.offers) + (base.pending + b) == Payloads(t.net.offers) + base.pending + b;
  }

  /** In a network that gives every packet some space, a turn takes bytes unless a failed send has left the
      fragment length used up. */
  lemma TurnTakes(t: Tx, remaining: nat, limit: Option<nat>)
    requires t.Valid(limit) && ValidLimit(limit) && remaining > 0 && (t.open || t.net.allocs != [])
    ensures Filling(Base(t), limit)
    ensures Amount(Base(t), remaining, limit) == 0 <==>
            !t.open && (t.net.allocs[0] == 0 || (limit.Some? && t.length == limit.value))
    ensures t.Clean(limit) && t.net.Roomy() ==> Amount(Base(t), remaining, limit) > 0
  {
  }

  /** One turn takes its bytes, in order, whatever becomes of the packets. */
  lemma TurnConserves(t: Tx, data: Bytes, p: nat, remaining: nat, limit: Option<nat>)
    requires t.Valid(limit) && ValidLimit(limit) && 0 < remaining && p + remaining <= |data|
    requires t.open || t.net.allocs != []
    ensures var (next, ok, n) := Turn(t, data, p, remaining, limit);
            && next.Taken() == t.Taken() + data[p..p + n]
            && OffersMade(t.net.offers, next.net.offers, limit, t.Clean(limit), t.net.Roomy())
            && (ok <==> AllSentSince(t.net.offers, next.net.offers))
            && (ok && t.Clean(limit) ==> next.Clean(limit))
            && (t.net.Roomy() ==> next.net.Roomy())
  {
    hide Tx.Taken, Finished, Added, Amount, OffersMade, AllSentSince, Tx.Clean;
    var base := Base(t);
    var n := Amount(base, remaining, limit);
    BaseFilling(t, limit);
    TurnTakes(t, remaining, limit);
    AmountFits(base, remaining, limit);
    AddedFacts(t, base, data, p, n, limit);
    FinishedFacts(base, data, p, n, limit, remaining);
    FinishedConserves(Added(base, Slice(data, p, p + n)), limit, t.Clean(limit), t.net.Roomy());
  }

  lemma AmountFits(t: Tx, remaining: nat, limit: Option<nat>)
    requires limit.Some? ==> t.length <= limit.value
    ensures var n := Amount(t, remaining, limit);
            n <= t.space && n <= remaining && (limit.Some? ==> n <= limit.value - t.length)
  {
  }

  /** A turn offers an empty packet in two cases only: it was allocated no space, or a failed send has left
      the fragment length used up. */
  lemma EmptyOfferIff(t: Tx, data: Bytes, p: nat, remaining: nat, limit: Option<nat>)
    requires t.Valid(limit) && ValidLimit(limit) && 0 < remaining && p + remaining <= |data|
    requires t.open || t.net.allocs != []
    ensures var offers := Turn(t, data, p, remaining, limit).0.net.offers;
            |offers| > |t.net.offers| && offers[|offers| - 1].packet.payload == [] <==>
            !t.open && (t.net.allocs[0] == 0 || (limit.Some? && t.length == limit.value))
  {
    var base := Base(t);
    var n := Amount(base, remaining, limit);
    BaseFilling(t, limit);
    TurnTakes(t, remaining, limit);
    FinishedFacts(base, data, p, n, limit, remaining);
    hide Amount;
  }

  /** A write takes its bytes in order, whatever fails: what has been offered and what is pending grow
      together by exactly the bytes taken. It reports a failed send exactly when there was one. From a state
      that no failed send has touched it offers full packets only, and none empty if each has some space. */
  lemma {:induction false} WriteConserves(t: Tx, data: Bytes, p: nat, remaining: nat, limit: Option<nat>)
    requires t.Valid(limit) && ValidLimit(limit) && p + remaining <= |data|
    ensures var (after, result, q) := Written(t, data, p, remaining, limit);
            && after.Taken() == t.Taken() + data[p..q]
            && OffersMade(t.net.offers, after.net.offers, limit, t.Clean(limit), t.net.Roomy())
            && (result != SendFailed <==> AllSentSince(t.net.offers, after.net.offers))
            && (result != SendFailed && t.Clean(limit) ==> after.Clean(limit))
            && (t.net.Roomy() ==> after.net.Roomy())
            && (result == NoPacket ==> !after.open)
    decreases remaining, |t.net.allocs|
  {
    hide Tx.Taken, Turn, OffersMade, AllSentSince, Left, Tx.Clean, Net.Roomy;
    var (after, result, q) := Written(t, data, p, remaining, limit);
    if remaining == 0 || (!t.open && t.net.allocs == []) {
      assert t.Taken() + data[p..p] == t.Taken();
      NothingOffered(t.net.offers, limit, t.Clean(limit), t.net.Roomy());
    } else {
      var (next, ok, n) := Turn(t, data, p, remaining, limit);
      TurnConserves(t, data, p, remaining, limit);
      if ok {
        WriteConserves(next, data, p + n, Left(remaining, n), limit);
        WriteJoins(t, next, after, limit);
        SlicesJoin(t.Taken(), data, p, p + n, q);
      }
    }
  }

  lemma SlicesJoin(before: Bytes, data: Bytes, p: nat, m: nat, q: nat)
    requires p <= m <= q <= |data|
    ensures before + data[p..m] + data[m..q] == before + data[p..q]
  {
    assert data[p..m] + data[m..q] == data[p..q];
  }

  lemma WriteJoins(t: Tx, next: Tx, after: Tx, limit: Option<nat>)
    requires OffersMade(t.net.offers, next.net.offers, limit, t.Clean(limit), t.net.Roomy())
    requires OffersMade(next.net.offers, after.net.offers, limit, next.Clean(limit), next.net.Roomy())
    requires (t.Clean(limit) ==> next.Clean(limit)) && (t.net.Roomy() ==> next.net.Roomy())
    ensures OffersMade(t.net.offers, after.net.offers, limit, t.Clean(limit), t.net.Roomy())
    ensures AllSentSince(t.net.offers, after.net.offers) <==>
            AllSentSince(t.net.offers, next.net.offers) && AllSentSince(next.net.offers, after.net.offers)
  {
    SentInTwoSteps(t.net.offers, next.net.offers, after.net.offers);
    hide AllSentSince, Tx.Clean, Net.Roomy;
  }

  /** A write of at most 65535 bytes that reports success has taken all of them; so has one of 65536 where a
      turn cannot come up empty. */
  lemma {:induction false} WriteTakesAll(t: Tx, data: Bytes, p: nat, remaining: nat, limit: Option<nat>)
    requires t.Valid(limit) && ValidLimit(limit) && p + remaining == |data|
    requires remaining <= 0xFFFF || (remaining == 0x1_0000 && t.Clean(limit) && t.net.Roomy())
    requires Written(t, data, p, remaining, limit).1 == Success
    ensures Written(t, data, p, remaining, limit).2 == |data|
    decreases remaining, |t.net.allocs|
  {
    hide Tx.Clean, Net.Roomy, Amount, Finished, Added;
    if remaining > 0 {
      var (next, ok, n) := Turn(t, data, p, remaining, limit);
      TurnTakes(t, remaining, limit);
      hide Turn;
      WriteTakesAll(next, data, p + n, Left(remaining, n), limit);
    }
  }

  /** Success means that all was taken, whatever the network does; `orderly` leaves out packets without
      space and what failed sends leave behind. */
  ghost predicate SuccessIsComplete(size: nat, orderly: bool) {
    forall t: Tx, data: Bytes, limit: Option<nat> ::
      && |data| == size && t.Valid(limit) && ValidLimit(limit)
      && (orderly ==> t.Clean(limit) && t.net.Roomy())
      && Written(t, data, 0, size, limit).1 == Success ==>
        Written(t, data, 0, size, limit).2 == size
  }

  /** The largest sizes for which a successful write can be relied on: the byte count is cut to 16 bits
      after every turn. */
  lemma SuccessIsCompleteIff(size: nat, orderly: bool)
    ensures SuccessIsComplete(size, orderly) <==> size <= if orderly then 0x1_0000 else 0xFFFF
  {
    if size <= if orderly then 0x1_0000 else 0xFFFF {
      forall t: Tx, data: Bytes, limit: Option<nat> |
        && |data| == size && t.Valid(limit) && ValidLimit(limit)
        && (orderly ==> t.Clean(limit) && t.net.Roomy())
        && Written(t, data, 0, size, limit).1 == Success
        ensures Written(t, data, 0, size, limit).2 == size
      {
        WriteTakesAll(t, data, 0, size, limit);
      }
    } else {
      var data := seq(size, _ => 0 as bv8);
      if size > 0x1_0000 {
        LongWriteLoses(data);
        var t := EmptyTx([1, 0xFFFF], [true, true]);
        assert t.Valid(None) && t.Clean(None) && t.net.Roomy();
      } else {
        RoundWriteLoses(data);
        assert EmptyTx([0], [true]).Valid(None);
      }
    }
  }

  function EmptyTx(allocs: seq<nat>, sends: seq<bool>): Tx {
    Tx(false, [], 0, 0, Net(allocs, sends, []))
  }

  /** A longer write that meets a one-byte packet first reports success and drops the difference. */
  lemma LongWriteLoses(data: Bytes)
    requires |data| > 0x1_0000
    ensures EmptyTx([1, 0xFFFF], [true, true]).Valid(None)
    ensures var (_, result, q) := Written(EmptyTx([1, 0xFFFF], [true, true]), data, 0, |data|, None);
            result == Success && q == 1 + (|data| - 1) % 0x1_0000 < |data|
  {
    var t := EmptyTx([1, 0xFFFF], [true, true]);
    FirstTurn(t, data);
    var (u, _, _) := Turn(t, data, 0, |data|, None);
    var left := Left(|data|, 1);
    assert Written(t, data, 0, |data|, None) == Written(u, data, 1, left, None);
    if left > 0 {
      SecondTurn(u, data, left);
      var (v, _, m) := Turn(u, data, 1, left, None);
      hide Turn;
      assert Left(left, m) == 0;
      assert Written(u, data, 1, left, None) == Written(v, data, 1 + m, 0, None);
    }
  }

  /** A write of 65536 bytes that meets a packet without space reports success and takes nothing. */
  lemma RoundWriteLoses(data: Bytes)
    requires |data| == 0x1_0000
    ensures EmptyTx([0], [true]).Valid(None)
    ensures var (_, result, q) := Written(EmptyTx([0], [true]), data, 0, |data|, None); result == Success && q == 0
  {
    var t := EmptyTx([0], [true]);
    var (u, ok, n) := Turn(t, data, 0, |data|, None);
    assert ok && n == 0;
    assert Written(t, data, 0, |data|, None) == Written(u, data, 0, Left(|data|, 0), None);
  }

  lemma FirstTurn(t: Tx, data: Bytes)
    requires t == EmptyTx([1, 0xFFFF], [true, true]) && |data| > 0x1_0000 && t.Valid(None)
    ensures var (u, ok, n) := Turn(t, data, 0, |data|, None);
            n == 1 && ok && !u.open && u.length == 0 && u.net.allocs == [0xFFFF] && u.net.sends == [true]
  {
  }

  lemma SecondTurn(u: Tx, data: Bytes, left: nat)
    requires u.Valid(None) && 0 < left < 0x1_0000 && 1 + left <= |data|
    requires !u.open && u.length == 0 && u.net.allocs == [0xFFFF] && u.net.sends == [true]
    ensures var (_, ok, m) := Turn(u, data, 1, left, None); ok && m == left
  {
  }

  // ---------- Flushing, and runs of calls ----------

  function Flushed(t: Tx): (Tx, Result) {
    if t.open
    then (Tx(false, [], 0, 0, t.net.Offered(PendingPacket(t))), if t.net.Sends() then Success else SendFailed)
    else (t, Success)
  }

  /** The packets offered beyond `before` are good, and if `filled`, none is empty. */
  ghost predicate GoodOffers(before: seq<Offer>, after: seq<Offer>, limit: Option<nat>, filled: bool) {
    && before <= after
    && forall i :: |before| <= i < |after| ==>
         GoodPacket(after[i].packet, limit) && (filled ==> after[i].packet.payload != [])
  }

  /** A flush leaves nothing pending: it offers the open packet, which is never empty, and reports failure
      exactly when that was not sent. */
  lemma FlushConserves(t: Tx, limit: Option<nat>)
    requires t.Valid(limit) && ValidLimit(limit)
    ensures var (after, result) := Flushed(t);
            && after.Valid(limit) && after.pending == [] && after.Taken() == t.Taken()
            && (result == Success <==> AllSentSince(t.net.offers, after.net.offers))
            && (result == Success || result == SendFailed)
            && GoodOffers(t.net.offers, after.net.offers, limit, true)
            && (t.Clean(limit) ==> after.Clean(limit)) && (t.net.Roomy() ==> after.net.Roomy())
  {
    var o := Offer(PendingPacket(t), t.net.Sends());
    assert (t.net.offers + [o])[..|t.net.offers|] == t.net.offers;
    assert (t.net.offers + [o])[|t.net.offers|..] == [o];
  }

  /** A call on the stream, and whether the link is up when it is made. */
  datatype Call = WriteCall(data: Bytes, up: bool) | FlushCall(up: bool)

  /** The state after a call, its result and the bytes it took. */
  function Apply(t: Tx, call: Call, limit: Option<nat>): (r: (Tx, Result, Bytes))
    requires t.Valid(limit) && ValidLimit(limit)
  {
    if !call.up then (t, NotUp, [])
    else
      match call
      case WriteCall(data, _) =>
        var (after, result, q) := Written(t, data, 0, |data|, limit);
        (after, result, data[..q])
      case FlushCall(_) =>
        var (after, result) := Flushed(t);
        (after, result, [])
  }

  lemma ApplyConserves(t: Tx, call: Call, limit: Option<nat>)
    requires t.Valid(limit) && ValidLimit(limit)
    ensures var (after, result, taken) := Apply(t, call, limit);
            && after.Valid(limit) && after.Taken() == t.Taken() + taken
            && GoodOffers(t.net.offers, after.net.offers, limit, t.Clean(limit) && t.net.Roomy())
            && (result != SendFailed <==> AllSentSince(t.net.offers, after.net.offers))
            && (result != SendFailed && t.Clean(limit) ==> after.Clean(limit))
            && (t.net.Roomy() ==> after.net.Roomy())
  {
    hide Written, Flushed, Tx.Clean, Net.Roomy, AllSentSince, Tx.Taken;
    assert t.Taken() + [] == t.Taken();
    if !call.up {
      NothingOffered(t.net.offers, limit, true, true);
    } else if call.WriteCall? {
      WriteConserves(t, call.data, 0, |call.data|, limit);
      var q := Written(t, call.data, 0, |call.data|, limit).2;
      assert call.data[0..q] == call.data[..q];
    } else {
      FlushConserves(t, limit);
    }
  }

  /** A run of calls, whatever their results: the state and the bytes taken. */
  function Session(t: Tx, calls: seq<Call>, limit: Option<nat>): (r: (Tx, Bytes))
    requires t.Valid(limit) && ValidLimit(limit)
    ensures r.0.Valid(limit)
    decreases |calls|
  {
    if calls == [] then (t, [])
    else
      ApplyConserves(t, calls[0], limit);
      var (after, _, taken) := Apply(t, calls[0], limit);
      var (last, more) := Session(after, calls[1..], limit);
      (last, taken + more)
  }

  /** Over any run of writes and flushes, whatever fails, the packets offered and the pending packet are
      together exactly the bytes taken, in order, and no packet is beyond its space or the fragment limit.
      While no send fails and every packet has some space, none is empty. */
  lemma {:induction false} SessionConserves(t: Tx, calls: seq<Call>, limit: Option<nat>)
    requires t.Valid(limit) && ValidLimit(limit)
    ensures var (after, taken) := Session(t, calls, limit);
            && after.Taken() == t.Taken() + taken
            && GoodOffers(t.net.offers, after.net.offers, limit,
                          t.Clean(limit) && t.net.Roomy() && AllSentSince(t.net.offers, after.net.offers))
    decreases |calls|
  {
    hide Apply, Tx.Taken, Tx.Clean, Net.Roomy, AllSentSince;
    if calls == [] {
      assert t.Taken() + [] == t.Taken();
    } else {
      var (next, result, taken) := Apply(t, calls[0], limit);
      ApplyConserves(t, calls[0], limit);
      SessionConserves(next, calls[1..], limit);
      var (after, more) := Session(next, calls[1..], limit);
      SentInTwoSteps(t.net.offers, next.net.offers, after.net.offers);
      assert t.Taken() + (taken + more) == (t.Taken() + taken) + more;
    }
  }

  // ---------- When a write succeeds ----------

  /** How much of a packet's space can be filled, with `used` bytes counted against the fragment limit. */
  function Room(space: nat, used: nat, limit: Option<nat>): nat
    requires limit.Some? ==> used <= limit.value
  {
    if limit.Some? then Min(space, limit.value - used) else space
  }

  function Rooms(allocs: seq<nat>, limit: Option<nat>): (rooms: seq<nat>)
    ensures |rooms| == |allocs| && forall i :: 0 <= i < |allocs| ==> rooms[i] == Room(allocs[i], 0, limit)
  {
    seq(|allocs|, i requires 0 <= i < |allocs| => Room(allocs[i], 0, limit))
  }

  /** What can still be filled: the open packet, if there is one, and the packets to come. */
  function AllRooms(t: Tx, limit: Option<nat>): seq<nat>
    requires limit.Some? ==> t.length <= limit.value
  {
    if t.open then [Room(t.space, t.length, limit)] + Rooms(t.net.allocs, limit)
    else if t.net.allocs == [] then []
    else [Room(t.net.allocs[0], t.length, limit)] + Rooms(t.net.allocs[1..], limit)
  }

  /** The network has room for `size` bytes, and sends each packet that they fill up. */
  ghost predicate WriteSuffices(t: Tx, size: nat, limit: Option<nat>)
    requires limit.Some? ==> t.length <= limit.value
  {
    exists k: nat :: Needed(AllRooms(t, limit), size, k) && FilledSent(t, size, limit, k)
  }

  ghost predicate FilledSent(t: Tx, size: nat, limit: Option<nat>, k: nat)
    requires limit.Some? ==> t.length <= limit.value
    requires Needed(AllRooms(t, limit), size, k)
  {
    k == 0 || SendsHold(t.net.sends, if Total(AllRooms(t, limit)[..k]) == size then k else k - 1)
  }

  /** A turn, seen from the rooms: it fills the first one as far as the data go. */
  lemma TurnFills(t: Tx, data: Bytes, p: nat, remaining: nat, limit: Option<nat>)
    requires t.Valid(limit) && ValidLimit(limit) && 0 < remaining && p + remaining <= |data|
    requires t.open || t.net.allocs != []
    ensures AllRooms(t, limit) != []
    ensures var (next, ok, n) := Turn(t, data, p, remaining, limit);
            var rooms := AllRooms(t, limit);
            && n == Min(remaining, rooms[0])
            && (n < rooms[0] ==> ok)
            && (n == rooms[0] ==>
                  && ok == (t.net.sends != [] && t.net.sends[0])
                  && (ok ==> AllRooms(next, limit) == rooms[1..] && next.net.sends == t.net.sends[1..]))
  {
    hide Amount, Added, AllRooms, Finished;
    BaseFilling(t, limit);
    BaseRooms(t, limit);
    var base := Base(t);
    var n := Amount(base, remaining, limit);
    FinishedFacts(base, data, p, n, limit, remaining);
    FillsRoom(base, Slice(data, p, p + n), remaining, limit);
    FinishedRooms(Added(base, Slice(data, p, p + n)), limit);
  }

  lemma BaseRooms(t: Tx, limit: Option<nat>)
    requires t.Valid(limit) && ValidLimit(limit) && (t.open || t.net.allocs != [])
    ensures Filling(Base(t), limit) && Base(t).net.sends == t.net.sends
    ensures AllRooms(t, limit) == [Room(Base(t).space, Base(t).length, limit)] + Rooms(Base(t).net.allocs, limit)
  {
    hide Rooms, Room;
  }

  lemma FinishedRooms(added: Tx, limit: Option<nat>)
    requires ValidLimit(limit) && (limit.Some? ==> added.length <= limit.value)
    ensures var (next, ok) := Finished(added, limit);
            && (!IsFull(added, limit) ==> ok)
            && (IsFull(added, limit) ==> ok == (added.net.sends != [] && added.net.sends[0]))
            && (IsFull(added, limit) && ok ==>
                  && next.net.sends == added.net.sends[1..] && next.length == 0
                  && AllRooms(next, limit) == Rooms(added.net.allocs, limit))
  {
    if IsFull(added, limit) && added.net.Sends() && added.net.allocs != [] {
      var allocs := added.net.allocs;
      assert Rooms(allocs, limit) == [Room(allocs[0], 0, limit)] + Rooms(allocs[1..], limit);
    }
  }

  lemma FillsRoom(base: Tx, bytes: Bytes, remaining: nat, limit: Option<nat>)
    requires Filling(base, limit) && ValidLimit(limit) && |bytes| == Amount(base, remaining, limit) <= base.space
    ensures |bytes| == Min(remaining, Room(base.space, base.length, limit))
    ensures IsFull(Added(base, bytes), limit) <==> |bytes| == Room(base.space, base.length, limit)
    ensures Added(base, bytes).net == base.net
    ensures limit.Some? ==> Added(base, bytes).length <= limit.value
  {
  }

  lemma FilledSentNext(t: Tx, next: Tx, size: nat, limit: Option<nat>, k: nat)
    requires limit.Some? ==> t.length <= limit.value && next.length <= limit.value
    requires AllRooms(t, limit) != [] && AllRooms(t, limit)[0] <= size && size > 0 && t.net.sends != []
    requires AllRooms(next, limit) == AllRooms(t, limit)[1..] && next.net.sends == t.net.sends[1..]
    requires k > 0 && t.net.sends[0]
    ensures Needed(AllRooms(t, limit), size, k) && FilledSent(t, size, limit, k) <==>
            && Needed(AllRooms(next, limit), size - AllRooms(t, limit)[0], k - 1)
            && FilledSent(next, size - AllRooms(t, limit)[0], limit, k - 1)
  {
    var rooms := AllRooms(t, limit);
    hide AllRooms, SendsHold;
    NeededNext(rooms, size, k);
    if Needed(rooms, size, k) {
      TotalFirst(rooms, k);
      SendsHoldNext(t.net.sends, k);
      if k > 1 { SendsHoldNext(t.net.sends, k - 1); }
      NoneHeld(t.net.sends);
    }
  }

  lemma NoneHeld(sends: seq<bool>)
    ensures SendsHold(sends, 0)
  {
  }

  lemma WriteNothing(t: Tx, limit: Option<nat>)
    requires limit.Some? ==> t.length <= limit.value
    ensures WriteSuffices(t, 0, limit)
  {
    NeededNothing(AllRooms(t, limit), 0);
  }

  lemma NoRooms(t: Tx, size: nat, limit: Option<nat>)
    requires limit.Some? ==> t.length <= limit.value
    requires !t.open && t.net.allocs == [] && size > 0
    ensures !WriteSuffices(t, size, limit)
  {
  }

  lemma LastRoom(t: Tx, size: nat, limit: Option<nat>)
    requires limit.Some? ==> t.length <= limit.value
    requires AllRooms(t, limit) != [] && 0 < size < AllRooms(t, limit)[0]
    ensures WriteSuffices(t, size, limit)
  {
    var rooms := AllRooms(t, limit);
    hide AllRooms;
    assert rooms[..1] == [rooms[0]] && rooms[..0] == [];
    assert Total([rooms[0]]) == rooms[0];
    NoneHeld(t.net.sends);
    assert Needed(rooms, size, 1) && FilledSent(t, size, limit, 1);
  }

  lemma UnsentFails(t: Tx, size: nat, limit: Option<nat>)
    requires limit.Some? ==> t.length <= limit.value
    requires AllRooms(t, limit) != [] && 0 < size && AllRooms(t, limit)[0] <= size
    requires t.net.sends == [] || !t.net.sends[0]
    ensures !WriteSuffices(t, size, limit)
  {
    var rooms := AllRooms(t, limit);
    hide AllRooms;
    forall k: nat | Needed(rooms, size, k) ensures !FilledSent(t, size, limit, k) {
      NeededNext(rooms, size, k);
      TotalFirst(rooms, k);
      if k == 1 { assert rooms[1..][..0] == []; }
    }
  }

  /** Exactly when a write of at most 65535 bytes succeeds, whatever came before it. */
  lemma {:induction false} WriteSucceedsIff(t: Tx, data: Bytes, p: nat, remaining: nat, limit: Option<nat>)
    requires t.Valid(limit) && ValidLimit(limit) && p + remaining <= |data| && remaining <= 0xFFFF
    ensures Written(t, data, p, remaining, limit).1 == Success <==> WriteSuffices(t, remaining, limit)
    decreases remaining, |t.net.allocs|
  {
    hide Turn, AllRooms, WriteSuffices;
    if remaining == 0 {
      WriteNothing(t, limit);
    } else if !t.open && t.net.allocs == [] {
      NoRooms(t, remaining, limit);
    } else {
      var (next, ok, n) := Turn(t, data, p, remaining, limit);
      TurnFills(t, data, p, remaining, limit);
      var first := AllRooms(t, limit)[0];
      if n < first {
        LastRoom(t, remaining, limit);
      } else if ok {
        WriteSucceedsIff(next, data, p + n, remaining - n, limit);
        SufficesNext(t, next, remaining, limit);
      } else {
        UnsentFails(t, remaining, limit);
      }
    }
  }

  lemma SufficesNext(t: Tx, next: Tx, size: nat, limit: Option<nat>)
    requires limit.Some? ==> t.length <= limit.value && next.length <= limit.value
    requires AllRooms(t, limit) != [] && AllRooms(t, limit)[0] <= size && size > 0
    requires t.net.sends != [] && t.net.sends[0]
    requires AllRooms(next, limit) == AllRooms(t, limit)[1..] && next.net.sends == t.net.sends[1..]
    ensures WriteSuffices(t, size, limit) <==> WriteSuffices(next, size - AllRooms(t, limit)[0], limit)
  {
    var rooms := AllRooms(t, limit);
    hide AllRooms, FilledSent;
    if WriteSuffices(t, size, limit) {
      var k: nat :| Needed(rooms, size, k) && FilledSent(t, size, limit, k);
      NeededNext(rooms, size, k);
      FilledSentNext(t, next, size, limit, k);
    }
    if WriteSuffices(next, size - rooms[0], limit) {
      var k: nat :| Needed(rooms[1..], size - rooms[0], k) && FilledSent(next, size - rooms[0], limit, k);
      FilledSentNext(t, next, size, limit, k + 1);
    }
  }

  // ---------- What success means for a caller ----------

  /** A call is refused, with nothing done, exactly on a down link. A successful write of at most 65535 bytes
      took exactly its data; a successful flush leaves nothing pending; and both only if every packet offered
      was sent. */
  lemma CallResult(t: Tx, call: Call, limit: Option<nat>)
    requires t.Valid(limit) && ValidLimit(limit)
    ensures var (after, result, taken) := Apply(t, call, limit);
            && (result == NotUp <==> !call.up)
            && (!call.up ==> after == t && taken == [])
            && (result == Success && call.WriteCall? && |call.data| <= 0xFFFF ==> taken == call.data)
            && (result == Success && call.FlushCall? ==> after.pending == [])
            && (result == Success ==> call.up && AllSentSince(t.net.offers, after.net.offers))
  {
    hide Written, Flushed, AllSentSince, Tx.Taken;
    ApplyConserves(t, call, limit);
    if call.up {
      if call.WriteCall? {
        WrittenResult(t, call.data, 0, |call.data|, limit);
        if |call.data| <= 0xFFFF && Written(t, call.data, 0, |call.data|, limit).1 == Success {
          WriteTakesAll(t, call.data, 0, |call.data|, limit);
          assert call.data[..|call.data|] == call.data;
        }
      } else {
        FlushConserves(t, limit);
      }
    }
  }

  lemma {:induction false} WrittenResult(t: Tx, data: Bytes, p: nat, remaining: nat, limit: Option<nat>)
    requires t.Valid(limit) && ValidLimit(limit) && p + remaining <= |data|
    ensures Written(t, data, p, remaining, limit).1 in {Success, NoPacket, SendFailed}
    decreases remaining, |t.net.allocs|
  {
    hide Turn;
    if remaining > 0 && (t.open || t.net.allocs != []) {
      var (next, ok, n) := Turn(t, data, p, remaining, limit);
      if ok { WrittenResult(next, data, p + n, Left(remaining, n), limit); }
    }
  }

  /** The results of a run of calls. */
  function Results(t: Tx, calls: seq<Call>, limit: Option<nat>): (results: seq<Result>)
    requires t.Valid(limit) && ValidLimit(limit)
    ensures |results| == |calls|
    decreases |calls|
  {
    if calls == [] then []
    else
      ApplyConserves(t, calls[0], limit);
      [Apply(t, calls[0], limit).1] + Results(Apply(t, calls[0], limit).0, calls[1..], limit)
  }

  /** The data of all writes of a run. */
  function Wanted(calls: seq<Call>): Bytes
    decreases |calls|
  {
    if calls == [] then [] else (if calls[0].WriteCall? then calls[0].data else []) + Wanted(calls[1..])
  }

  ghost predicate AllSucceed(results: seq<Result>) {
    forall i :: 0 <= i < |results| ==> results[i] == Success
  }

  ghost predicate ShortWrites(calls: seq<Call>) {
    forall i :: 0 <= i < |calls| && calls[i].WriteCall? ==> |calls[i].data| <= 0xFFFF
  }

  lemma FirstSucceeds(t: Tx, calls: seq<Call>, limit: Option<nat>)
    requires t.Valid(limit) && ValidLimit(limit) && calls != []
    requires ShortWrites(calls) && AllSucceed(Results(t, calls, limit))
    ensures Apply(t, calls[0], limit).1 == Success
    ensures Apply(t, calls[0], limit).0.Valid(limit)
    ensures ShortWrites(calls[1..]) && AllSucceed(Results(Apply(t, calls[0], limit).0, calls[1..], limit))
  {
    hide Apply, Tx.Valid;
    ApplyConserves(t, calls[0], limit);
    var results := Results(t, calls, limit);
    assert results[0] == Apply(t, calls[0], limit).1;
    assert results[1..] == Results(Apply(t, calls[0], limit).0, calls[1..], limit);
    forall i | 0 <= i < |calls| - 1 && calls[1..][i].WriteCall? ensures |calls[1..][i].data| <= 0xFFFF {
      assert calls[1..][i] == calls[i + 1];
    }
  }

  /** If every call of a run succeeds, the data of all its writes have been taken, in order, and every packet
      offered was sent. */
  lemma {:induction false} SuccessfulSession(t: Tx, calls: seq<Call>, limit: Option<nat>)
    requires t.Valid(limit) && ValidLimit(limit) && ShortWrites(calls) && AllSucceed(Results(t, calls, limit))
    ensures var (after, taken) := Session(t, calls, limit);
            && taken == Wanted(calls)
            && after.Taken() == t.Taken() + Wanted(calls)
            && AllSentSince(t.net.offers, after.net.offers)
    decreases |calls|
  {
    hide Apply, AllSentSince, Tx.Taken, Results, ShortWrites, AllSucceed, Tx.Valid;
    SessionConserves(t, calls, limit);
    if calls == [] {
      NothingOffered(t.net.offers, limit, true, true);
    } else {
      var (next, _, taken) := Apply(t, calls[0], limit);
      FirstSucceeds(t, calls, limit);
      CallResult(t, calls[0], limit);
      ShortFirst(calls);
      if calls[0].FlushCall? { FlushTakesNothing(t, calls[0], limit); }
      SuccessfulSession(next, calls[1..], limit);
      SessionGrows(t, next, calls, limit);
    }
  }

  lemma ShortFirst(calls: seq<Call>)
    requires calls != [] && ShortWrites(calls)
    ensures calls[0].WriteCall? ==> |calls[0].data| <= 0xFFFF
  {
  }

  lemma SessionGrows(t: Tx, next: Tx, calls: seq<Call>, limit: Option<nat>)
    requires t.Valid(limit) && ValidLimit(limit) && calls != [] && next == Apply(t, calls[0], limit).0
    requires next.Valid(limit)
    ensures var after := Session(t, calls, limit).0;
            AllSentSince(t.net.offers, next.net.offers) && AllSentSince(next.net.offers, after.net.offers) ==>
              AllSentSince(t.net.offers, after.net.offers)
  {
    hide Apply, Tx.Taken;
    ApplyConserves(t, calls[0], limit);
    SessionConserves(next, calls[1..], limit);
    SentInTwoSteps(t.net.offers, next.net.offers, Session(t, calls, limit).0.net.offers);
  }

  /** And if the last call is a flush, all of the data have been sent. */
  lemma FlushedSession(t: Tx, calls: seq<Call>, up: bool, limit: Option<nat>)
    requires t.Valid(limit) && ValidLimit(limit)
    requires ShortWrites(calls + [FlushCall(up)]) && AllSucceed(Results(t, calls + [FlushCall(up)], limit))
    ensures var after := Session(t, calls + [FlushCall(up)], limit).0;
            && after.pending == []
            && Payloads(after.net.offers) == t.Taken() + Wanted(calls + [FlushCall(up)])
            && AllSentSince(t.net.offers, after.net.offers)
  {
    hide Session, Results, Tx.Taken, AllSentSince, Tx.Valid;
    SuccessfulSession(t, calls + [FlushCall(up)], limit);
    EndsFlushed(t, calls, up, limit);
    TakenOffered(Session(t, calls + [FlushCall(up)], limit).0);
  }

  lemma {:induction false} EndsFlushed(t: Tx, calls: seq<Call>, up: bool, limit: Option<nat>)
    requires t.Valid(limit) && ValidLimit(limit)
    requires ShortWrites(calls + [FlushCall(up)]) && AllSucceed(Results(t, calls + [FlushCall(up)], limit))
    ensures Session(t, calls + [FlushCall(up)], limit).0.pending == []
    decreases |calls|
  {
    hide Apply, Results, ShortWrites, AllSucceed, Tx.Valid;
    var all := calls + [FlushCall(up)];
    FirstSucceeds(t, all, limit);
    var next := Apply(t, all[0], limit).0;
    if calls == [] {
      CallResult(t, all[0], limit);
      assert all[1..] == [];
    } else {
      assert all[1..] == calls[1..] + [FlushCall(up)];
      EndsFlushed(next, calls[1..], up, limit);
    }
  }

  lemma FlushTakesNothing(t: Tx, call: Call, limit: Option<nat>)
    requires t.Valid(limit) && ValidLimit(limit) && call.FlushCall?
    ensures Apply(t, call, limit).2 == []
  {
  }

  lemma TakenOffered(t: Tx)
    requires t.pending == []
    ensures t.Taken() == Payloads(t.net.offers)
  {
    assert Payloads(t.net.offers) + [] == Payloads(t.net.offers);
  }

  /** What a write call means, on values. */
  lemma WriteOutcome(t: Tx, data: Bytes, up: bool, limit: Option<nat>)
    requires t.Valid(limit) && ValidLimit(limit)
    ensures var (after, result, _) := Apply(t, WriteCall(data, up), limit);
            && after.Valid(limit)
            && (result == NotUp <==> !up) && (!up ==> after == t)
            && (up && |data| <= 0xFFFF ==> (result == Success <==> WriteSuffices(t, |data|, limit)))
            && (result == Success && |data| <= 0xFFFF ==> after.Taken() == t.Taken() + data)
  {
    CallResult(t, WriteCall(data, up), limit);
    ApplyConserves(t, WriteCall(data, up), limit);
    if |data| <= 0xFFFF { WriteSucceedsIff(t, data, 0, |data|, limit); }
    hide Written, WriteSuffices, Tx.Taken;
  }

  lemma FlushOutcome(t: Tx, up: bool, limit: Option<nat>)
    requires t.Valid(limit) && ValidLimit(limit)
    ensures var (after, result, _) := Apply(t, FlushCall(up), limit);
            && (result == NotUp <==> !up) && (!up ==> after == t)
            && (up ==> !after.open && Payloads(after.net.offers) == t.Taken())
  {
    FlushConserves(t, limit);
    TakenOffered(Flushed(t).0);
    hide Payloads, Tx.Taken;
  }

  // ---------- The fragment length ----------

  /** The bytes of the packets offered since the last one that was sent. */
  function Unsent(offers: seq<Offer>): nat
    decreases |offers|
  {
    if offers == [] || offers[|offers| - 1].sent then 0
    else Unsent(offers[..|offers| - 1]) + |offers[|offers| - 1].packet.payload|
  }

  /** The fragment length counts the pending bytes and, in 16 bits, those of every packet since the last one
      sent, from offer number `from` on. */
  ghost predicate CountsUnsent(t: Tx, from: nat) {
    from <= |t.net.offers| && t.length == (Unsent(t.net.offers[from..]) + |t.pending|) % 0x1_0000
  }

  lemma DispatchCounts(t: Tx, from: nat)
    requires CountsUnsent(t, from)
    ensures CountsUnsent(Dispatched(t), from)
  {
    hide Unsent;
    var o := Offer(PendingPacket(t), t.net.Sends());
    assert Dispatched(t).net.offers[from..] == t.net.offers[from..] + [o];
    UnsentMore(t.net.offers[from..], o);
  }

  lemma UnsentMore(offers: seq<Offer>, o: Offer)
    ensures Unsent(offers + [o]) == if o.sent then 0 else Unsent(offers) + |o.packet.payload|
  {
  }

  lemma AddedCounts(t: Tx, bytes: Bytes, from: nat)
    requires |bytes| <= t.space && CountsUnsent(t, from)
    ensures CountsUnsent(Added(t, bytes), from)
  {
    hide Unsent;
  }

  lemma TurnCounts(t: Tx, data: Bytes, p: nat, remaining: nat, limit: Option<nat>, from: nat)
    requires t.Valid(limit) && ValidLimit(limit) && 0 < remaining && p + remaining <= |data|
    requires (t.open || t.net.allocs != []) && CountsUnsent(t, from)
    ensures CountsUnsent(Turn(t, data, p, remaining, limit).0, from)
  {
    hide Amount, Added, Dispatched, Unsent;
    BaseFilling(t, limit);
    var base := Base(t);
    var n := Amount(base, remaining, limit);
    FinishedFacts(base, data, p, n, limit, remaining);
    assert CountsUnsent(base, from);
    AddedCounts(base, Slice(data, p, p + n), from);
    hide CountsUnsent;
    DispatchCounts(Added(base, Slice(data, p, p + n)), from);
  }

  lemma {:induction false} WriteCounts(t: Tx, data: Bytes, p: nat, remaining: nat, limit: Option<nat>, from: nat)
    requires t.Valid(limit) && ValidLimit(limit) && p + remaining <= |data| && CountsUnsent(t, from)
    ensures CountsUnsent(Written(t, data, p, remaining, limit).0, from)
    decreases remaining, |t.net.allocs|
  {
    hide Turn, CountsUnsent;
    if remaining > 0 && (t.open || t.net.allocs != []) {
      var (next, ok, n) := Turn(t, data, p, remaining, limit);
      TurnCounts(t, data, p, remaining, limit, from);
      if ok { WriteCounts(next, data, p + n, Left(remaining, n), limit, from); }
    }
  }

  /** Where the count starts after a call: a flush that offered a packet starts it anew. */
  function CountFrom(t: Tx, call: Call, limit: Option<nat>, from: nat): nat
    requires t.Valid(limit) && ValidLimit(limit)
  {
    var offers := Apply(t, call, limit).0.net.offers;
    if call.FlushCall? && |offers| > |t.net.offers| then |offers| else from
  }

  lemma ApplyCounts(t: Tx, call: Call, limit: Option<nat>, from: nat)
    requires t.Valid(limit) && ValidLimit(limit) && CountsUnsent(t, from)
    ensures CountsUnsent(Apply(t, call, limit).0, CountFrom(t, call, limit, from))
  {
    hide Written;
    if call.up && call.WriteCall? {
      hide CountsUnsent;
      WriteCounts(t, call.data, 0, |call.data|, limit, from);
    }
  }

  function CountFromAll(t: Tx, calls: seq<Call>, limit: Option<nat>, from: nat): nat
    requires t.Valid(limit) && ValidLimit(limit)
    decreases |calls|
  {
    if calls == [] then from
    else
      ApplyConserves(t, calls[0], limit);
      CountFromAll(Apply(t, calls[0], limit).0, calls[1..], limit, CountFrom(t, calls[0], limit, from))
  }

  /** So in every run: a sent packet and any packet flushed clear the fragment length, and a send that fails
      during a write leaves it behind. */
  lemma {:induction false} SessionCounts(t: Tx, calls: seq<Call>, limit: Option<nat>, from: nat)
    requires t.Valid(limit) && ValidLimit(limit) && CountsUnsent(t, from)
    ensures var after := Session(t, calls, limit).0;
            var k := CountFromAll(t, calls, limit, from);
            && k <= |after.net.offers|
            && after.length == (Unsent(after.net.offers[k..]) + |after.pending|) % 0x1_0000
    decreases |calls|
  {
    hide Apply, CountFrom, Unsent;
    if calls != [] {
      ApplyConserves(t, calls[0], limit);
      ApplyCounts(t, calls[0], limit, from);
      SessionCounts(Apply(t, calls[0], limit).0, calls[1..], limit, CountFrom(t, calls[0], limit, from));
    }
  }

  // ---------- Reading ----------

  /** The receiving side: the packet partly read, if there is one, and the packets not yet received. */
  datatype Rx = Rx(held: Option<Bytes>, queue: seq<Bytes>) {
    function Rest(): Bytes {
      (if held.Some? then held.value else []) + Flatten(queue)
    }
  }

  /** Packets still to be gone through. */
  function Ahead(rx: Rx): nat {
    |rx.queue| + (if rx.held.Some? then 1 else 0)
  }

  predicate Dry(rx: Rx) {
    rx.held.None? && rx.queue == []
  }

  /** One turn of the read loop: bytes from the packet held, or from the next one received. */
  function ReadTurn(rx: Rx, n: nat): (r: (Rx, Bytes))
    requires n > 0 && !Dry(rx)
    ensures |r.1| <= n && (Ahead(r.0) < Ahead(rx) || (Ahead(r.0) == Ahead(rx) && |r.1| == n))
  {
    var packet := if rx.held.Some? then rx.held.value else rx.queue[0];
    var queue := if rx.held.Some? then rx.queue else rx.queue[1..];
    var k := Min(n, |packet|);
    (Rx(if k == |packet| then None else Some(packet[k..]), queue), packet[..k])
  }

  /** A read of n bytes: the state and the bytes copied out. It ends early when nothing is received. */
  function ReadOut(rx: Rx, n: nat): (Rx, Bytes)
    decreases Ahead(rx), n
  {
    if n == 0 || Dry(rx) then (rx, [])
    else
      var (next, bytes) := ReadTurn(rx, n);
      var (after, more) := ReadOut(next, n - |bytes|);
      (after, bytes + more)
  }

  lemma ReadTurnConserves(rx: Rx, n: nat)
    requires n > 0 && !Dry(rx)
    ensures var (next, bytes) := ReadTurn(rx, n); rx.Rest() == bytes + next.Rest()
  {
  }

  /** A read takes the next bytes of the stream, as many as are wanted and there, and leaves the rest. */
  lemma {:induction false} ReadConserves(rx: Rx, n: nat)
    ensures var (after, bytes) := ReadOut(rx, n);
            && rx.Rest() == bytes + after.Rest()
            && |bytes| == Min(n, |rx.Rest()|)
    decreases Ahead(rx), n
  {
    hide Rx.Rest, ReadTurn;
    if n == 0 || Dry(rx) {
      assert [] + rx.Rest() == rx.Rest();
      if Dry(rx) { DryRest(rx); }
    } else {
      var (next, bytes) := ReadTurn(rx, n);
      ReadTurnConserves(rx, n);
      ReadConserves(next, n - |bytes|);
      var (after, more) := ReadOut(next, n - |bytes|);
      assert bytes + (more + after.Rest()) == (bytes + more) + after.Rest();
    }
  }

  lemma DryRest(rx: Rx)
    requires Dry(rx)
    ensures rx.Rest() == []
  {
  }

  lemma NothingFlattened()
    ensures Flatten([]) == []
  {
  }

  /** What the receiving side meets: packets arriving, and reads. */
  datatype RxEvent = Arrival(packet: Bytes) | ReadCall(size: nat)

  function Receive(rx: Rx, events: seq<RxEvent>): (Rx, Bytes)
    decreases |events|
  {
    if events == [] then (rx, [])
    else
      match events[0]
      case Arrival(packet) => Receive(rx.(queue := rx.queue + [packet]), events[1..])
      case ReadCall(size) =>
        var (next, bytes) := ReadOut(rx, size);
        var (after, more) := Receive(next, events[1..]);
        (after, bytes + more)
  }

  function Arrived(events: seq<RxEvent>): Bytes
    decreases |events|
  {
    if events == [] then []
    else (if events[0].Arrival? then events[0].packet else []) + Arrived(events[1..])
  }

  /** Over any run of arrivals and reads, the bytes copied out and those still to be read are together
      exactly the bytes received, in order. */
  lemma {:induction false} ReceiveConserves(rx: Rx, events: seq<RxEvent>)
    ensures var (after, bytes) := Receive(rx, events); rx.Rest() + Arrived(events) == bytes + after.Rest()
    decreases |events|
  {
    hide Flatten, ReadOut;
    if events == [] {
      assert rx.Rest() + [] == [] + rx.Rest();
    } else if events[0].Arrival? {
      var packet := events[0].packet;
      var next := rx.(queue := rx.queue + [packet]);
      FlattenLast(rx.queue, packet);
      assert next.Rest() == rx.Rest() + packet;
      ReceiveConserves(next, events[1..]);
      assert rx.Rest() + (packet + Arrived(events[1..])) == (rx.Rest() + packet) + Arrived(events[1..]);
    } else {
      ReadConserves(rx, events[0].size);
      hide Rx.Rest;
      var (next, bytes) := ReadOut(rx, events[0].size);
      ReceiveConserves(next, events[1..]);
      var (after, more) := Receive(next, events[1..]);
      var later := Arrived(events[1..]);
      assert [] + later == later;
      assert (bytes + next.Rest()) + later == bytes + (next.Rest() + later);
      assert bytes + (more + after.Rest()) == (bytes + more) + after.Rest();
    }
  }

  lemma FlattenLast(queue: seq<Bytes>, packet: Bytes)
    ensures Flatten(queue + [packet]) == Flatten(queue) + packet
  {
    FlattenConcat(queue, [packet]);
    assert Flatten([packet]) == packet;
  }

  // ---------- End to end ----------

  /** Whatever packets the writes made and however the network divides the bytes again, reads of any
      sizes give back a prefix of what was written; and all of it, once they ask for enough. */
  lemma WrittenIsRead(allocs: seq<nat>, sends: seq<bool>, calls: seq<Call>, limit: Option<nat>,
                      sender: Tx, written: Bytes, events: seq<RxEvent>)
    requires EmptyTx(allocs, sends).Valid(limit) && ValidLimit(limit)
    requires Session(EmptyTx(allocs, sends), calls, limit) == (sender, written)
    requires AllSent(Flushed(sender).0.net.offers)
    requires Arrived(events) == Delivered(Flushed(sender).0.net.offers)
    ensures var (after, bytes) := Receive(Rx(None, []), events);
            bytes <= written && (after.Rest() == [] ==> bytes == written)
  {
    hide Session, Flushed, Receive, Flatten, Arrived, Payloads, Delivered;
    SessionConserves(EmptyTx(allocs, sends), calls, limit);
    NothingPaid();
    assert [] + [] + written == written;
    FlushConserves(sender, limit);
    AllDelivered(Flushed(sender).0.net.offers);
    assert Payloads(Flushed(sender).0.net.offers) + [] == Payloads(Flushed(sender).0.net.offers);
    ReceiveConserves(Rx(None, []), events);
    NothingFlattened();
    assert [] + [] + Arrived(events) == Arrived(events);
  }

  lemma NothingPaid()
    ensures Payloads([]) == []
  {
  }

  // ---------- The stream object ----------

  class Stream {
    const socket: Socket
    const limit: Option<nat>  // the maximum fragment length, with TLS
    var txPacket: bool
    var txPayload: Bytes
    var txSpaceAvailable: nat
    var txDataLength: nat
    var rxPacket: Option<Bytes>

    ghost function Sender(): Tx
      reads this, socket
    {
      Tx(txPacket, txPayload, txSpaceAvailable, txDataLength, socket.State())
    }

    ghost function Receiver(): Rx
      reads this, socket
    {
      Rx(rxPacket, socket.received)
    }

    ghost predicate Valid()
      reads this, socket
    {
      ValidLimit(limit) && Sender().Valid(limit)
    }

    constructor (socket: Socket, limit: Option<nat>)
      requires ValidLimit(limit) && socket.State().Valid()
      ensures Valid() && this.socket == socket && this.limit == limit
      ensures Sender() == Tx(false, [], 0, 0, socket.State()) && rxPacket == None
    {
      this.socket, this.limit := socket, limit;
      txPacket, txPayload, txSpaceAvailable, txDataLength := false, [], 0, 0;
      rxPacket := None;
    }

    /** Hand the open packet over. */
    method SendPacket() returns (ok: bool)
      modifies this`txPacket, this`txPayload, this`txSpaceAvailable, this`txDataLength, socket`sends, socket`offers
      ensures Sender() == Dispatched(old(Sender())) && ok == old(socket.State()).Sends()
    {
      ok := socket.Send(Packet(txPayload, |txPayload| + txSpaceAvailable));
      txSpaceAvailable := 0;
      txPayload := [];
      txPacket := false;
      if !ok {
        return;
      }
      txDataLength := 0;
    }

    /** See that there is a packet to write to. */
    method EnsurePacket() returns (ok: bool)
      requires Valid()
      modifies this`txPacket, this`txPayload, this`txSpaceAvailable, socket`allocs
      ensures ok == (old(txPacket) || old(socket.allocs) != [])
      ensures Sender() == if old(txPacket) || !ok then old(Sender()) else Opened(old(Sender()))
    {
      ok := true;
      if !txPacket {
        var space;
        ok, space := socket.CreatePacket();
        if ok {
          txPacket, txPayload, txSpaceAvailable := true, [], space;
        }
      }
    }

    /** Copy what fits into the open packet. */
    method AddData(data: Bytes, p: nat, dataLength: nat) returns (amount: nat)
      requires p + dataLength <= |data| && (limit.Some? ==> txDataLength <= limit.value)
      modifies this`txPayload, this`txSpaceAvailable, this`txDataLength
      ensures amount == Amount(old(Sender()), dataLength, limit) <= dataLength && amount <= old(txSpaceAvailable)
      ensures Sender() == Added(old(Sender()), Slice(data, p, p + amount))
    {
      amount := Min(dataLength, txSpaceAvailable);
      if limit.Some? {
        amount := Min(amount, limit.value - txDataLength);
      }
      txPayload := txPayload + Slice(data, p, p + amount);
      txSpaceAvailable := txSpaceAvailable - amount;
      txDataLength := (amount + txDataLength) % 0x1_0000;
    }

    method Write(data: Bytes, linkUp: bool) returns (result: Result)
      requires Valid()
      modifies this`txPacket, this`txPayload, this`txSpaceAvailable, this`txDataLength,
               socket`allocs, socket`sends, socket`offers
      ensures Sender() == Apply(old(Sender()), WriteCall(data, linkUp), limit).0
      ensures result == Apply(old(Sender()), WriteCall(data, linkUp), limit).1
      ensures Valid()
      ensures (result == NotUp <==> !linkUp) && (!linkUp ==> Sender() == old(Sender()))
      ensures linkUp && |data| <= 0xFFFF ==> (result == Success <==> old(WriteSuffices(Sender(), |data|, limit)))
      ensures result == Success && |data| <= 0xFFFF ==> Sender().Taken() == old(Sender().Taken()) + data
    {
      hide Amount, Dispatched, Added, Opened, Left, Turn, Written, WriteSuffices, Apply;
      hide Tx.Taken, Tx.Clean, Net.Roomy;
      WriteOutcome(Sender(), data, linkUp, limit);
      if !linkUp {
        DownLink(Sender(), WriteCall(data, false), limit);
        return NotUp;
      }
      ghost var target := Written(Sender(), data, 0, |data|, limit);
      WrittenApplies(Sender(), data, limit);
      var p, dataLength := 0, |data|;
      while dataLength != 0
        invariant Valid() && 0 <= p && 0 <= dataLength && p + dataLength <= |data|
        invariant Written(Sender(), data, p, dataLength, limit) == target
        decreases dataLength, |socket.allocs|
      {
        ghost var t := Sender();
        var ok := EnsurePacket();
        if !ok {
          WrittenEnds(t, data, p, dataLength, limit);
          return NoPacket;
        }
        ghost var base := Sender();
        BaseFilling(t, limit);
        var amount := AddData(data, p, dataLength);
        ghost var added := Sender();
        var sendPacket := txSpaceAvailable == 0 || (limit.Some? && txDataLength == limit.value);
        ok := true;
        if sendPacket {
          ok := SendPacket();
        }
        TurnIs(t, base, added, data, p, dataLength, limit);
        WrittenNext(t, data, p, dataLength, limit);
        if !ok {
          return SendFailed;
        }
        dataLength := Left(dataLength, amount);
        p := p + amount;
      }
      WrittenEnds(Sender(), data, p, 0, limit);
      return Success;
    }

    method Flush(linkUp: bool) returns (result: Result)
      requires Valid()
      modifies this`txPacket, this`txPayload, this`txSpaceAvailable, this`txDataLength, socket`sends, socket`offers
      ensures Sender() == Apply(old(Sender()), FlushCall(linkUp), limit).0
      ensures result == Apply(old(Sender()), FlushCall(linkUp), limit).1
      ensures Valid()
      ensures (result == NotUp <==> !linkUp) && (!linkUp ==> Sender() == old(Sender()))
      ensures linkUp ==> !txPacket && Payloads(socket.offers) == old(Sender().Taken())
    {
      FlushOutcome(Sender(), linkUp, limit);
      hide Tx.Taken;
      if !linkUp {
        return NotUp;
      }
      result := Success;
      FlushConserves(Sender(), limit);
      if txPacket {
        var ok := SendPacket();
        txDataLength := 0;
        result := if ok then Success else SendFailed;
      }
    }

    /** One turn of the read loop: receive if no packet is held, copy, and drop or shorten the packet. */
    method ReadPart(buffer: array<bv8>, at: nat, left: nat) returns (ok: bool, amount: nat)
      requires left > 0 && at + left <= buffer.Length
      modifies this`rxPacket, socket`received, buffer
      ensures ok == !Dry(old(Receiver()))
      ensures !ok ==> Receiver() == old(Receiver()) && buffer[..] == old(buffer[..])
      ensures ok ==>
              var (next, bytes) := ReadTurn(old(Receiver()), left);
              && Receiver() == next && amount == |bytes| <= left
              && buffer[..] == Overlaid(old(buffer[..]), at, bytes)
    {
      if rxPacket == None {
        var received, packet := socket.Receive();
        if !received {
          return false, 0;
        }
        rxPacket := Some(packet);
      }
      var packet := rxPacket.value;
      amount := Min(left, |packet|);
      MemCat(buffer, at, packet[..amount]);
      if amount == |packet| {
        rxPacket := None;
      } else {
        rxPacket := Some(packet[amount..]);
      }
      ok := true;
    }

    /** Read into a buffer; `counted` says whether the caller asked for the count. */
    method ReadWithCount(buffer: array<bv8>, bufferLength: nat, counted: bool, linkUp: bool)
      returns (result: Result, readCount: nat)
      requires bufferLength <= buffer.Length
      modifies this`rxPacket, socket`received, buffer
      ensures !linkUp ==>
              result == NotUp && readCount == 0 && Receiver() == old(Receiver()) && buffer[..] == old(buffer[..])
      ensures linkUp ==>
              var (after, bytes) := ReadOut(old(Receiver()), bufferLength);
              && Receiver() == after && readCount == |bytes| <= bufferLength
              && buffer[..] == bytes + old(buffer[..])[|bytes|..]
              && (result == Success <==> |bytes| == bufferLength || (counted && bytes != []))
    {
      readCount := 0;
      if !linkUp {
        return NotUp, 0;
      }
      hide ReadOut, ReadTurn, Overlaid;
      ghost var target, was := ReadOut(Receiver(), bufferLength), buffer[..];
      ghost var done: Bytes := [];
      var left := bufferLength;
      NothingDone(target.1);
      NothingDone(was);
      while left != 0
        invariant 0 <= left && readCount == |done| && readCount + left == bufferLength
        invariant buffer[..] == done + was[|done|..]
        invariant target == Prepended(done, ReadOut(Receiver(), left))
        decreases Ahead(Receiver()), left
      {
        ghost var rx := Receiver();
        var ok, amount := ReadPart(buffer, readCount, left);
        if !ok {
          ReadEnds(rx, left, done);
          return (if counted && readCount != 0 then Success else Timeout), readCount;
        }
        ReadNext(rx, left, done);
        OverlaidNext(was, done, ReadTurn(rx, left).1);
        done := done + ReadTurn(rx, left).1;
        readCount := readCount + amount;
        left := left - amount;
      }
      ReadEnds(Receiver(), 0, done);
      return Success, readCount;
    }
  }

  /** A buffer with some bytes copied over it. */
  ghost function Overlaid(buffer: Bytes, at: nat, bytes: Bytes): Bytes
    requires at + |bytes| <= |buffer|
  {
    buffer[..at] + bytes + buffer[at + |bytes|..]
  }

  lemma OverlaidNext(was: Bytes, done: Bytes, bytes: Bytes)
    requires |done| + |bytes| <= |was|
    ensures Overlaid(done + was[|done|..], |done|, bytes) == (done + bytes) + was[|done + bytes|..]
  {
  }

  function Prepended(done: Bytes, r: (Rx, Bytes)): (Rx, Bytes) {
    (r.0, done + r.1)
  }

  lemma NothingDone(bytes: Bytes)
    ensures [] + bytes == bytes
  {
  }

  lemma ReadEnds(rx: Rx, n: nat, done: Bytes)
    requires n == 0 || Dry(rx)
    ensures Prepended(done, ReadOut(rx, n)) == (rx, done)
  {
    assert done + [] == done;
  }

  lemma ReadNext(rx: Rx, n: nat, done: Bytes)
    requires n > 0 && !Dry(rx)
    ensures var (next, bytes) := ReadTurn(rx, n);
            Prepended(done, ReadOut(rx, n)) == Prepended(done + bytes, ReadOut(next, n - |bytes|))
  {
    hide ReadTurn;
    var (next, bytes) := ReadTurn(rx, n);
    var more := ReadOut(next, n - |bytes|).1;
    assert done + (bytes + more) == (done + bytes) + more;
  }

  lemma DownLink(t: Tx, call: Call, limit: Option<nat>)
    requires t.Valid(limit) && ValidLimit(limit) && !call.up
    ensures Apply(t, call, limit) == (t, NotUp, [])
  {
  }

  lemma WrittenApplies(t: Tx, data: Bytes, limit: Option<nat>)
    requires t.Valid(limit) && ValidLimit(limit)
    ensures var r := Written(t, data, 0, |data|, limit);
            Apply(t, WriteCall(data, true), limit) == (r.0, r.1, data[..r.2])
  {
  }

  lemma WrittenEnds(t: Tx, data: Bytes, p: nat, remaining: nat, limit: Option<nat>)
    requires t.Valid(limit) && ValidLimit(limit) && p + remaining <= |data|
    requires remaining == 0 || (!t.open && t.net.allocs == [])
    ensures Written(t, data, p, remaining, limit) == (t, if remaining == 0 then Success else NoPacket, p)
  {
  }

  lemma WrittenNext(t: Tx, data: Bytes, p: nat, remaining: nat, limit: Option<nat>)
    requires t.Valid(limit) && ValidLimit(limit) && 0 < remaining && p + remaining <= |data|
    requires t.open || t.net.allocs != []
    ensures var (next, ok, n) := Turn(t, data, p, remaining, limit);
            && (ok ==> Written(t, data, p, remaining, limit) == Written(next, data, p + n, Left(remaining, n), limit))
            && (!ok ==> Written(t, data, p, remaining, limit) == (next, SendFailed, p + n))
  {
    hide Turn, Left, Tx.Valid;
  }

  lemma TurnIs(t: Tx, base: Tx, added: Tx, data: Bytes, p: nat, remaining: nat, limit: Option<nat>)
    requires t.Valid(limit) && ValidLimit(limit) && 0 < remaining && p + remaining <= |data|
    requires t.open || t.net.allocs != []
    requires base == Base(t)
    requires var n := Amount(base, remaining, limit);
             n <= remaining && n <= base.space && added == Added(base, Slice(data, p, p + n))
    ensures var full := added.space == 0 || (limit.Some? && added.length == limit.value);
            var next := if full then Dispatched(added) else added;
            Turn(t, data, p, remaining, limit) == (next, !full || added.net.Sends(), Amount(base, remaining, limit))
  {
  }

  /** The memory copy. */
  method MemCat(buffer: array<bv8>, at: nat, bytes: Bytes)
    requires at + |bytes| <= buffer.Length
    modifies buffer
    ensures buffer[..] == Overlaid(old(buffer[..]), at, bytes)
  {
    forall k | 0 <= k < |bytes| {
      buffer[at + k] := bytes[k];
    }
  }
}
