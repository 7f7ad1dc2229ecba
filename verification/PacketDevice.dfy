// The buffered and the packet serial device as objects: the receive buffer, the
// packetizer's nested loops over the packet array, and the sender.

/** `SerialBufferDevice::Impl` and `SerialPacketDevice::Impl`. */
module PacketDevices {
  import opened Delimiters
  import opened PacketParser
  import opened PacketStreams
  import opened PacketEndings

  /** The receive buffer.  The device itself is a parameter: what a synchronous
      read returns when it is asked. */
  class RxBuffer {
    const buffer: array<byte>       // m_rx_buffer
    var index: nat                  // m_rx_index
    var dataLen: nat                // m_rx_data_len
    ghost var received: Bytes       // everything the device has returned
    ghost var removed: Bytes        // everything acknowledged

    /** Nothing is lost, repeated or reordered between the device and `Remove`. */
    ghost predicate Valid()
      reads this, buffer
    {
      index + dataLen <= buffer.Length && received == removed + Pending()
    }

    ghost function Pending(): Bytes
      requires index + dataLen <= buffer.Length
      reads this, buffer
    {
      buffer[index..index + dataLen]
    }

    constructor (size: nat)
      ensures Valid() && fresh(buffer) && buffer.Length == size
      ensures Pending() == [] && received == []
    {
      buffer := new byte[size](_ => 0);
      index, dataLen := 0, 0;
      received, removed := [], [];
    }

    /** Returns the pending chunk; only if there is none the device is read. */
    method ReadSome(arrived: Bytes) returns (data: nat, size: nat)
      requires Valid() && |arrived| <= buffer.Length
      modifies this, buffer
      ensures Valid() && removed == old(removed)
      ensures Pending() == if old(Pending()) == [] then arrived else old(Pending())
      ensures received == if old(Pending()) == [] then old(received) + arrived else old(received)
      ensures data == index && size == |Pending()|
    {
      if 0 == dataLen {
        index := 0;
        forall i | 0 <= i < |arrived| {
          buffer[i] := arrived[i];
        }
        dataLen := |arrived|;
        received := received + arrived;
        assert buffer[..dataLen] == arrived;
      }
      data, size := index, dataLen;
    }

    /** Acknowledges the first bytes of the pending chunk, at most all of it. */
    method Remove(size: nat)
      requires Valid()
      modifies this
      ensures Valid() && received == old(received)
      ensures
        var n := if size < |old(Pending())| then size else |old(Pending())|;
        Pending() == old(Pending())[n..] && removed == old(removed) + old(Pending())[..n]
      ensures size == |old(Pending())| ==> Pending() == [] && removed == old(removed) + old(Pending())
    {
      ghost var before := Pending();
      if dataLen > size {
        removed := removed + before[..size];
        dataLen := dataLen - size;
        index := index + size;
        assert before == before[..size] + Pending();
      } else {
        removed := removed + before;
        dataLen := 0;
        index := 0;
      }
    }
  }

  /** Every byte of the run is written inside a packet array of the given size. */
  predicate Fits(c: Config, p: Parser, es: seq<Event>, size: nat)
    decreases |es|
  {
    es == [] ||
    ((es[0].Byte? ==> |p.payload| + |p.window| < size) && Fits(c, Step(c, p, es[0]), es[1..], size))
  }

  /** Runs without over-long packets stay inside `m_maxPacketSize + MAX_DELIMITER_SIZE`. */
  lemma {:induction false} CleanFits(c: Config, p: Parser, es: seq<Event>, size: nat)
    requires Good(c, p) && Clean(c, p, es)
    requires size == c.maxSize + LongestOf(c.dels) && LongestOf(c.dels) > 0
    ensures Fits(c, p, es, size)
    decreases |es|
  {
    if es != [] {
      if p.window != [] { WaitingIsShort(c.dels, p.window); }
      if es[0].Byte? { FeedKeepsGood(c, p, es[0].b); }
      CleanFits(c, Step(c, p, es[0]), es[1..], size);
    }
  }

  /** A dead parser grows into the end of the array: it stays inside exactly as
      long as all it has received since its reset fits. */
  lemma {:induction false} DeadFitsExactly(c: Config, p: Parser, es: seq<Event>, size: nat)
    requires p.discard && p.window != [] && Match(c.dels, p.window) == 0
    requires |p.payload| + |p.window| <= size
    ensures Fits(c, p, es, size) <==> |p.payload| + |p.window| + |BytesOf(es)| <= size
    decreases |es|
  {
    if es != [] {
      match es[0]
      case Byte(b) =>
        ZeroStays(c.dels, p.window, b);
        if |p.payload| + |p.window| < size {
          DeadFitsExactly(c, p.(window := p.window + [b]), es[1..], size);
        }
      case Gap =>
        ZeroIsIdle(c.dels, p.window);
        DeadFitsExactly(c, p, es[1..], size);
        assert BytesOf(es) == BytesOf(es[1..]);
    }
  }

  lemma {:induction false} FitsAppend(c: Config, p: Parser, a: seq<Event>, b: seq<Event>, size: nat)
    requires Fits(c, p, a + b, size)
    ensures Fits(c, p, a, size) && Fits(c, Parse(c, p, a), b, size)
    decreases |a|
  {
    if a == [] {
      assert a + b == b;
    } else {
      assert (a + b)[1..] == a[1..] + b;
      FitsAppend(c, Step(c, p, a[0]), a[1..], b, size);
    }
  }

  /** One read at a time. */
  lemma StreamStep(c: Config, p: Parser, chunks: seq<Bytes>, size: nat)
    requires chunks != [] && Fits(c, p, StreamOf(chunks), size)
    ensures
      var q := Parse(c, p, ReadEvents(chunks[0]));
      && Fits(c, p, ReadEvents(chunks[0]), size)
      && Fits(c, q, StreamOf(chunks[1..]), size)
      && Parse(c, q, StreamOf(chunks[1..])) == Parse(c, p, StreamOf(chunks))
  {
    ParseAppend(c, p, ReadEvents(chunks[0]), StreamOf(chunks[1..]));
    FitsAppend(c, p, ReadEvents(chunks[0]), StreamOf(chunks[1..]), size);
  }

  lemma ConcatStep(before: Bytes, chunks: seq<Bytes>)
    requires chunks != []
    ensures before + chunks[0] + Concat(chunks[1..]) == before + Concat(chunks)
  {
  }

  class PacketDevice {
    const config: Config            // m_rxDelimiters, m_maxPacketSize
    const tx: Bytes                 // m_txDelimiter
    const rx: RxBuffer
    const packet: array<byte>       // m_packet
    var delivered: seq<Bytes>       // calls of m_rxHandler
    var wire: Bytes                 // bytes the device accepted for sending

    ghost predicate Valid()
      reads this, rx, rx.buffer
    {
      && rx.Valid() && rx.buffer != packet
      && packet.Length == config.maxSize + LongestOf(config.dels)
    }

    /** `IsValid`: without a receive buffer, a delimiter or room for a packet the
        packetizer does nothing.  (That the handler is set is not modelled.) */
    predicate IsValid()
    {
      rx.buffer.Length > 0 && LongestOf(config.dels) > 0 && config.maxSize > 0
    }

    constructor (size: nat, c: Config, txDelimiter: Bytes)
      ensures Valid() && config == c && tx == txDelimiter
      ensures delivered == [] && wire == [] && rx.Pending() == [] && rx.buffer.Length == size
      ensures fresh(rx) && fresh(rx.buffer) && fresh(packet)
      ensures IsValid() <==> size > 0 && c.maxSize > 0 && exists d :: d in c.dels && d != []
    {
      config, tx := c, txDelimiter;
      delivered, wire := [], [];
      rx := new RxBuffer(size);
      var longest := MaxDelimiterSize(c.dels);
      packet := new byte[c.maxSize + longest](_ => 0);
    }

    /** The sender.  `accepted` and `more` are what the two writes to the device
        take; the delimiter follows only a payload that was taken completely. */
    method WriteSome(data: Bytes, accepted: nat, more: nat) returns (sz: nat)
      requires accepted <= |data| && more <= |tx|
      modifies this`wire
      ensures wire == old(wire) + data[..accepted] + (if accepted == |data| then tx[..more] else [])
      ensures sz == accepted + (if accepted == |data| then more else 0)
    {
      wire := wire + data[..accepted];
      sz := accepted;
      if sz >= |data| && |tx| != 0 {
        wire := wire + tx[..more];
        sz := sz + more;
      }
    }

    /** The parser state the locals and the packet array stand for. */
    ghost predicate Holds(p: Parser, packetLen: int, packetEnd: int, discard: bool)
      reads packet
    {
      && 0 <= packetLen <= packetEnd <= packet.Length
      && p.payload == packet[..packetLen]
      && p.window == packet[packetLen..packetEnd]
      && p.discard == discard
    }

    /** The packetizer thread, for the reads of the device that happen until the
        device is closed.  It hands over the payloads the parser delivers. */
    method Packetizer(arrivals: seq<Bytes>)
      requires Valid() && rx.Pending() == []
      requires forall a :: a in arrivals ==> |a| <= rx.buffer.Length
      requires IsValid() ==> Fits(config, START, StreamOf(arrivals), packet.Length)
      modifies this`delivered, rx, rx.buffer, packet
      ensures Valid() && rx.Pending() == []
      ensures IsValid() ==>
                && delivered == old(delivered) + Payloads(Parse(config, START, StreamOf(arrivals)).out)
                && rx.removed == old(rx.removed) + Concat(arrivals)
      ensures !IsValid() ==> delivered == old(delivered) && rx.removed == old(rx.removed)
    {
      if IsValid() {
        PacketizerLoop(arrivals);
      }
    }

    method PacketizerLoop(arrivals: seq<Bytes>)
      requires Valid() && rx.Pending() == []
      requires forall a :: a in arrivals ==> |a| <= rx.buffer.Length
      requires Fits(config, START, StreamOf(arrivals), packet.Length)
      modifies this`delivered, rx, rx.buffer, packet
      ensures Valid() && rx.Pending() == []
      ensures delivered == old(delivered) + Payloads(Parse(config, START, StreamOf(arrivals)).out)
      ensures rx.removed == old(rx.removed) + Concat(arrivals)
    {
      var discard := false;
      var packetLen, packetEnd := 0, 0;
      ghost var p := START;
      ghost var rest := arrivals;
      for n := 0 to |arrivals|
        invariant Valid() && rx.Pending() == [] && rest == arrivals[n..]
        invariant Holds(p, packetLen, packetEnd, discard)
        invariant delivered == old(delivered) + Payloads(p.out)
        invariant Parse(config, p, StreamOf(rest)) == Parse(config, START, StreamOf(arrivals))
        invariant Fits(config, p, StreamOf(rest), packet.Length)
        invariant rx.removed + Concat(rest) == old(rx.removed) + Concat(arrivals)
      {
        StreamStep(config, p, rest, packet.Length);
        ConcatStep(rx.removed, rest);
        packetLen, packetEnd, discard, p :=
          AfterRead(arrivals[n], packetLen, packetEnd, discard, p, old(delivered));
        rest := rest[1..];
      }
    }

    /** One round of the outer loop: a read of the device, then the gap or the
        chunk is handled and the chunk acknowledged. */
    method AfterRead(arrived: Bytes, len: int, end: int, discarding: bool,
                     ghost p: Parser, ghost base: seq<Bytes>)
      returns (packetLen: int, packetEnd: int, discard: bool, ghost q: Parser)
      requires Valid() && rx.Pending() == [] && |arrived| <= rx.buffer.Length
      requires Holds(p, len, end, discarding) && delivered == base + Payloads(p.out)
      requires Fits(config, p, ReadEvents(arrived), packet.Length)
      modifies this`delivered, rx, rx.buffer, packet
      ensures Valid() && rx.Pending() == [] && rx.removed == old(rx.removed) + arrived
      ensures q == Parse(config, p, ReadEvents(arrived))
      ensures Holds(q, packetLen, packetEnd, discard) && delivered == base + Payloads(q.out)
    {
      var data, size := rx.ReadSome(arrived);
      if 0 == size {
        packetLen, packetEnd, discard, q := AfterGap(len, end, discarding, p, base);
        ParseOne(config, p, Gap);
      } else {
        packetLen, packetEnd, discard, q := AfterPending(data, size, len, end, discarding, p, base);
      }
    }

    /** The pending chunk is taken byte by byte and then acknowledged whole. */
    method AfterPending(data: nat, size: nat, len: int, end: int, discarding: bool,
                        ghost p: Parser, ghost base: seq<Bytes>)
      returns (packetLen: int, packetEnd: int, discard: bool, ghost q: Parser)
      requires Valid() && data == rx.index && size == |rx.Pending()|
      requires Holds(p, len, end, discarding) && delivered == base + Payloads(p.out)
      requires Fits(config, p, Events(rx.Pending()), packet.Length)
      modifies this`delivered, rx, packet
      ensures Valid() && rx.Pending() == [] && rx.removed == old(rx.removed) + old(rx.Pending())
      ensures q == Parse(config, p, Events(old(rx.Pending())))
      ensures Holds(q, packetLen, packetEnd, discard) && delivered == base + Payloads(q.out)
    {
      ghost var chunk := rx.Pending();
      packetLen, packetEnd, discard, q :=
        AfterChunk(rx.buffer[data..data + size], len, end, discarding, p, base);
      assert rx.Pending() == chunk;
      rx.Remove(size);
    }

    /** A read that returned nothing may complete a waiting delimiter. */
    method AfterGap(len: int, end: int, discarding: bool, ghost p: Parser, ghost base: seq<Bytes>)
      returns (packetLen: int, packetEnd: int, discard: bool, ghost q: Parser)
      requires Holds(p, len, end, discarding) && delivered == base + Payloads(p.out)
      modifies this`delivered
      ensures q == Idle(config, p)
      ensures Holds(q, packetLen, packetEnd, discard) && delivered == base + Payloads(q.out)
    {
      packetLen, packetEnd, discard, q := len, end, discarding, p;
      var found := FindDelimiter(config.dels, packet[packetLen..packetEnd], true);
      if found > 0 {
        q := Idle(config, p);
        if !discard {
          delivered := delivered + [packet[..packetLen]];
        }
        discard := false;
        packetLen := 0;
        packetEnd := 0;
      }
    }

    /** The loop over the bytes of a chunk.  A byte that ended the wait for a
        longer delimiter is pushed back and read once more. */
    method AfterChunk(chunk: Bytes, len: int, end: int, discarding: bool,
                      ghost p: Parser, ghost base: seq<Bytes>)
      returns (packetLen: int, packetEnd: int, discard: bool, ghost q: Parser)
      requires Holds(p, len, end, discarding) && delivered == base + Payloads(p.out)
      requires Fits(config, p, Events(chunk), packet.Length)
      modifies this`delivered, packet
      ensures q == Parse(config, p, Events(chunk))
      ensures Holds(q, packetLen, packetEnd, discard) && delivered == base + Payloads(q.out)
    {
      packetLen, packetEnd, discard, q := len, end, discarding, p;
      ghost var rest := chunk;
      var data := 0;
      var i := 0;
      while i < |chunk|
        invariant 0 <= i <= |chunk| && data == i && rest == chunk[i..]
        invariant Holds(q, packetLen, packetEnd, discard) && delivered == base + Payloads(q.out)
        invariant Fits(config, q, Events(rest), packet.Length)
        invariant Parse(config, q, Events(rest)) == Parse(config, p, Events(chunk))
        decreases |chunk| - i, |q.window|
      {
        AfterMatchContinues(config, q, rest, packet.Length);
        var pushBack;
        packetLen, packetEnd, discard, pushBack, q :=
          AfterByte(chunk[data], packetLen, packetEnd, discard, q, base);
        data := data + 1;
        if pushBack {
          data := data - 1;
          i := i - 1;
        } else {
          rest := rest[1..];
        }
        i := i + 1;
      }
    }

    /** The body of that loop: the byte is stored, the window matched, and the
        payload extended, discarded or handed over. */
    method AfterByte(b: byte, len: int, end: int, discarding: bool,
                     ghost p: Parser, ghost base: seq<Bytes>)
      returns (packetLen: int, packetEnd: int, discard: bool, pushBack: bool, ghost q: Parser)
      requires Holds(p, len, end, discarding) && delivered == base + Payloads(p.out)
      requires end < packet.Length
      modifies this`delivered, packet
      ensures q == AfterMatch(config, p, b) && pushBack == PushesBack(config, p, b)
      ensures Holds(q, packetLen, packetEnd, discard) && delivered == base + Payloads(q.out)
    {
      packetLen, packetEnd, discard, pushBack := len, end, discarding, false;
      q := AfterMatch(config, p, b);
      packet[packetEnd] := b;
      packetEnd := packetEnd + 1;
      assert packet[packetLen..packetEnd] == p.window + [b] && packet[..packetLen] == p.payload;
      var found := FindDelimiter(config.dels, packet[packetLen..packetEnd], false);
      if found == 0 {
        if !discard {
          packetLen := packetEnd;
          assert packet[..packetLen] == p.payload + (p.window + [b]);
          if packetLen > config.maxSize {
            discard := true;
            packetLen := 0;
            packetEnd := 0;
          }
        }
      } else if found > 0 {
        if !discard {
          delivered := delivered + [packet[..packetLen]];
        }
        pushBack := packetEnd - packetLen > found;
        discard := false;
        packetLen := 0;
        packetEnd := 0;
      }
    }
  }

  /** The byte read last is not part of the delimiter found. */
  predicate PushesBack(c: Config, p: Parser, b: byte) {
    0 < Match(c.dels, p.window + [b]) < |p.window| + 1
  }

  /** One round of the inner loop, without the second round for a byte pushed back. */
  function AfterMatch(c: Config, p: Parser, b: byte): Parser {
    var w := p.window + [b];
    if PushesBack(c, p, b) then Deliver(p, w[..Match(c.dels, w)]) else Feed(c, p, b)
  }

  /** After a push-back the same bytes are still to come, and lead to the same end. */
  lemma AfterMatchContinues(c: Config, p: Parser, bs: Bytes, size: nat)
    requires bs != [] && Fits(c, p, Events(bs), size)
    ensures |p.payload| + |p.window| < size
    ensures
      var q := AfterMatch(c, p, bs[0]);
      var rest := if PushesBack(c, p, bs[0]) then bs else bs[1..];
      && Parse(c, q, Events(rest)) == Parse(c, p, Events(bs))
      && Fits(c, q, Events(rest), size)
      && (PushesBack(c, p, bs[0]) ==> |q.window| < |p.window|)
  {
    assert Events(bs)[1..] == Events(bs[1..]);
  }

  /** Sends the payloads one after the other to a device that takes everything. */
  method SendAll(sender: PacketDevice, payloads: seq<Bytes>)
    modifies sender`wire
    ensures sender.wire == old(sender.wire) + Framed(payloads, sender.tx)
  {
    ghost var rest := payloads;
    for i := 0 to |payloads|
      invariant rest == payloads[i..]
      invariant sender.wire + Framed(rest, sender.tx) == old(sender.wire) + Framed(payloads, sender.tx)
    {
      ghost var before := sender.wire;
      var _ := sender.WriteSome(payloads[i], |payloads[i]|, |sender.tx|);
      assert payloads[i][..|payloads[i]|] == payloads[i] && sender.tx[..|sender.tx|] == sender.tx;
      FramedStep(before, rest, sender.tx);
      rest := rest[1..];
    }
  }

  lemma FramedStep(before: Bytes, payloads: seq<Bytes>, tx: Bytes)
    requires payloads != []
    ensures before + payloads[0] + tx + Framed(payloads[1..], tx) == before + Framed(payloads, tx)
  {
  }

  /** Sent payloads arrive: what `Packetizer` requires holds, and what it delivers
      is what was sent. */
  lemma SentIsDelivered(c: Config, payloads: seq<Bytes>, tx: Bytes, chunks: seq<Bytes>, size: nat)
    requires size == c.maxSize + LongestOf(c.dels)
    requires Recognised(c.dels, tx)
    requires forall x :: x in payloads ==> |x| <= c.maxSize && Plain(c.dels, x)
    requires Concat(chunks) == Framed(payloads, tx)
    ensures Fits(c, START, StreamOf(chunks), size)
    ensures Payloads(Parse(c, START, StreamOf(chunks)).out) == payloads
  {
    RoundTripInChunks(c, payloads, tx, chunks);
    CleanFits(c, START, StreamOf(chunks), size);
  }

  /** The round trip on the two devices: whatever is sent arrives in reads of any
      size, with reads that time out anywhere between them, and exactly the
      payloads sent are handed over. */
  method Exchange(sender: PacketDevice, receiver: PacketDevice, payloads: seq<Bytes>, arrivals: seq<Bytes>)
    requires receiver.Valid() && receiver.IsValid() && receiver.rx.Pending() == []
    requires Recognised(receiver.config.dels, sender.tx)
    requires forall x :: x in payloads ==> |x| <= receiver.config.maxSize && Plain(receiver.config.dels, x)
    requires Concat(arrivals) == Framed(payloads, sender.tx)
    requires forall a :: a in arrivals ==> |a| <= receiver.rx.buffer.Length
    modifies sender`wire, receiver`delivered, receiver.rx, receiver.rx.buffer, receiver.packet
    ensures sender.wire == old(sender.wire) + Concat(arrivals)
    ensures receiver.Valid() && receiver.rx.Pending() == []
    ensures receiver.delivered == old(receiver.delivered) + payloads
    ensures receiver.rx.removed == old(receiver.rx.removed) + Concat(arrivals)
  {
    SentIsDelivered(receiver.config, payloads, sender.tx, arrivals, receiver.packet.Length);
    SendAll(sender, payloads);
    assert receiver.Valid();
    receiver.Packetizer(arrivals);
  }

  lemma SettledIsDelivered(c: Config, frames: seq<Frame>, tx: Bytes, arrivals: seq<Bytes>, size: nat)
    requires size == c.maxSize + LongestOf(c.dels)
    requires Ambiguous(c.dels, tx) && Separated(c.dels, frames, tx)
    requires forall f :: f in frames ==> |f.payload| <= c.maxSize && Plain(c.dels, f.payload)
    requires StreamOf(arrivals) == Line(frames, tx)
    ensures Fits(c, START, StreamOf(arrivals), size)
    ensures Payloads(Parse(c, START, StreamOf(arrivals)).out) == FramePayloads(frames)
    ensures Concat(arrivals) == Framed(FramePayloads(frames), tx)
  {
    var packets := Packets(FramePayloads(frames), tx);
    AmbiguousRoundTrip(c, START, frames, tx);
    assert START.out + packets == packets && Payloads(packets) == FramePayloads(frames);
    WaitingIsShort(c.dels, tx);
    CleanFits(c, START, StreamOf(arrivals), size);
    StreamBytes(arrivals);
    LineBytes(frames, tx);
  }

  /** The same with a delimiter that begins a longer one the receiver listens for, if
      there is silence or a byte that settles it before the next packet. */
  method ExchangeSettled(sender: PacketDevice, receiver: PacketDevice, frames: seq<Frame>, arrivals: seq<Bytes>)
    requires receiver.Valid() && receiver.IsValid() && receiver.rx.Pending() == []
    requires Ambiguous(receiver.config.dels, sender.tx) && Separated(receiver.config.dels, frames, sender.tx)
    requires forall f :: f in frames ==>
               |f.payload| <= receiver.config.maxSize && Plain(receiver.config.dels, f.payload)
    requires StreamOf(arrivals) == Line(frames, sender.tx)
    requires forall a :: a in arrivals ==> |a| <= receiver.rx.buffer.Length
    modifies sender`wire, receiver`delivered, receiver.rx, receiver.rx.buffer, receiver.packet
    ensures sender.wire == old(sender.wire) + Concat(arrivals)
    ensures receiver.delivered == old(receiver.delivered) + FramePayloads(frames)
  {
    SettledIsDelivered(receiver.config, frames, sender.tx, arrivals, receiver.packet.Length);
    SendAll(sender, FramePayloads(frames));
    assert receiver.Valid();
    receiver.Packetizer(arrivals);
  }
}
