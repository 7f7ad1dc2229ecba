// Laws of the packet device over whole streams: chunking, round trip with the
// sender, splitting at one-byte delimiters, and recovery after an over-long packet.

/** Whole-stream theorems about the packetizer. */
module PacketStreams {
  import opened Basics
  import opened Delimiters
  import opened PacketParser

  // ----- reads of the device -----

  /** A read that returns nothing is a gap, any other one a chunk of bytes. */
  function ReadEvents(read: Bytes): seq<Event> {
    if read == [] then [Gap] else Events(read)
  }

  function StreamOf(chunks: seq<Bytes>): seq<Event> {
    if chunks == [] then [] else ReadEvents(chunks[0]) + StreamOf(chunks[1..])
  }

  function Concat(chunks: seq<Bytes>): Bytes {
    if chunks == [] then [] else chunks[0] + Concat(chunks[1..])
  }

  lemma {:induction false} ChunksAreBytes(chunks: seq<Bytes>)
    requires [] !in chunks
    ensures StreamOf(chunks) == Events(Concat(chunks))
  {
    if chunks != [] {
      assert chunks[0] in chunks;
      assert [] !in chunks[1..];
      ChunksAreBytes(chunks[1..]);
      assert Events(chunks[0]) + Events(Concat(chunks[1..])) == Events(chunks[0] + Concat(chunks[1..]));
    }
  }

  /** Without gaps, what is delivered and what is pending depend on the bytes
      only, not on how the device splits them. */
  lemma ChunkingIrrelevant(c: Config, p: Parser, one: seq<Bytes>, other: seq<Bytes>)
    requires [] !in one && [] !in other && Concat(one) == Concat(other)
    ensures Parse(c, p, StreamOf(one)) == Parse(c, p, StreamOf(other))
  {
    ChunksAreBytes(one);
    ChunksAreBytes(other);
  }

  lemma {:induction false} StreamBytes(chunks: seq<Bytes>)
    ensures BytesOf(StreamOf(chunks)) == Concat(chunks)
  {
    if chunks != [] {
      var front := ReadEvents(chunks[0]);
      if chunks[0] != [] { BytesOfEvents(chunks[0]); }
      assert BytesOf(front) == chunks[0];
      BytesOfAppend(front, StreamOf(chunks[1..]));
      StreamBytes(chunks[1..]);
    }
  }

  // ----- gaps -----

  /** A condition on the delimiter list alone: no complete delimiter can be
      waiting to become a longer one. */
  predicate NothingCompleteWaits(dels: seq<Bytes>) {
    forall i, k :: 0 <= i < |dels| && 1 <= k < |dels[i]| && Waiting(dels, dels[i][..k]) ==>
      BestMatch(dels, dels[i][..k]) <= 0
  }

  ghost predicate GapsDoNothing(c: Config) {
    forall es :: Clean(c, START, es) ==> Parse(c, START, es) == Parse(c, START, Events(BytesOf(es)))
  }

  lemma GoodIsIdle(c: Config, p: Parser)
    requires NothingCompleteWaits(c.dels) && Good(c, p)
    ensures Idle(c, p) == p
  {
    if p.window != [] {
      WaitingIsShort(c.dels, p.window);
      var i :| 0 <= i < |c.dels| && p.window < c.dels[i];
      assert c.dels[i][..|p.window|] == p.window;
    }
  }

  lemma {:induction false} GapsIgnored(c: Config, p: Parser, es: seq<Event>)
    requires NothingCompleteWaits(c.dels) && Good(c, p) && Clean(c, p, es)
    ensures Parse(c, p, es) == Parse(c, p, Events(BytesOf(es)))
    ensures Clean(c, p, Events(BytesOf(es)))
    decreases |es|
  {
    if es != [] {
      var q := Step(c, p, es[0]);
      match es[0]
      case Byte(b) =>
        FeedKeepsGood(c, p, b);
        GapsIgnored(c, q, es[1..]);
        assert BytesOf(es)[1..] == BytesOf(es[1..]);
        ParseFirst(c, p, BytesOf(es));
      case Gap =>
        GoodIsIdle(c, p);
        GapsIgnored(c, q, es[1..]);
        assert BytesOf(es) == BytesOf(es[1..]);
    }
  }

  /** A read that times out changes nothing, on all streams without over-long
      packets, exactly if no complete delimiter can be waiting. */
  lemma GapsExactly(c: Config)
    ensures GapsDoNothing(c) <==> NothingCompleteWaits(c.dels)
  {
    if NothingCompleteWaits(c.dels) {
      forall es | Clean(c, START, es)
        ensures Parse(c, START, es) == Parse(c, START, Events(BytesOf(es)))
      {
        GapsIgnored(c, START, es);
      }
    } else {
      var i, k :| 0 <= i < |c.dels| && 1 <= k < |c.dels[i]| && Waiting(c.dels, c.dels[i][..k]) &&
        BestMatch(c.dels, c.dels[i][..k]) > 0;
      GapMatters(c, c.dels[i][..k]);
    }
  }

  /** The waiting delimiter, then a gap: delivered with the gap, pending without. */
  lemma GapMatters(c: Config, w: Bytes)
    requires w != [] && Waiting(c.dels, w) && BestMatch(c.dels, w) > 0
    ensures !GapsDoNothing(c)
  {
    var es := Events(w) + [Gap];
    var p := START.(window := w);
    assert START.window + w == w;
    FeedWaiting(c, START, w);
    ParseAppend(c, START, Events(w), [Gap]);
    ParseOne(c, p, Gap);
    BytesOfAppend(Events(w), [Gap]);
    BytesOfEvents(w);
    assert BytesOf([Gap]) == [] && w + [] == w;
    assert Clean(c, START, es) && Parse(c, START, es) != Parse(c, START, Events(BytesOf(es)));
  }

  lemma NotBegun(d: Bytes, e: Bytes, k: int)
    requires 0 <= k < |e| && !(d < e)
    ensures !(d <= e[..k])
  {
    assert d <= e[..k] ==> d < e;
  }

  /** That is so if no listed delimiter is the beginning of another one. */
  lemma NoneBeginsAnother(dels: seq<Bytes>)
    requires forall i, j :: 0 <= i < |dels| && 0 <= j < |dels| ==> !(dels[j] < dels[i])
    ensures NothingCompleteWaits(dels)
  {
    forall i, k | 0 <= i < |dels| && 1 <= k < |dels[i]| && Waiting(dels, dels[i][..k])
      ensures BestMatch(dels, dels[i][..k]) <= 0
    {
      forall j | 0 <= j < |dels| ensures !(dels[j] <= dels[i][..k]) {
        NotBegun(dels[j], dels[i], k);
      }
    }
  }

  /** Along these bytes a gap would do nothing, wherever it came. */
  predicate Calm(c: Config, p: Parser, bs: Bytes)
    decreases |bs|
  {
    Idle(c, p) == p && (bs == [] || Calm(c, Feed(c, p, bs[0]), bs[1..]))
  }

  lemma {:induction false} CalmAppend(c: Config, p: Parser, a: Bytes, b: Bytes)
    ensures Calm(c, p, a + b) <==> Calm(c, p, a) && Calm(c, Parse(c, p, Events(a)), b)
    decreases |a|
  {
    if a == [] {
      assert a + b == b && Events(a) == [];
    } else {
      assert (a + b)[1..] == a[1..] + b;
      ParseFirst(c, p, a);
      CalmAppend(c, Feed(c, p, a[0]), a[1..], b);
    }
  }

  lemma {:induction false} CalmIgnoresGaps(c: Config, p: Parser, es: seq<Event>)
    requires Calm(c, p, BytesOf(es))
    ensures Parse(c, p, es) == Parse(c, p, Events(BytesOf(es)))
    ensures Clean(c, p, es) <==> Clean(c, p, Events(BytesOf(es)))
    decreases |es|
  {
    if es != [] {
      if es[0].Byte? {
        assert BytesOf(es)[1..] == BytesOf(es[1..]);
        ParseFirst(c, p, BytesOf(es));
        CalmIgnoresGaps(c, Feed(c, p, es[0].b), es[1..]);
      } else {
        assert BytesOf(es) == BytesOf(es[1..]);
        CalmIgnoresGaps(c, p, es[1..]);
      }
    }
  }

  // ----- round trip -----

  /** The tx delimiter is listed for receiving, and no other listed delimiter is
      the beginning of it or begins with it. */
  predicate Recognised(dels: seq<Bytes>, tx: Bytes) {
    && tx != [] && tx in dels
    && forall d :: d in dels && d != tx ==> !Hits(d, tx)
  }

  /** No byte of the payload is the first byte of a listed delimiter. */
  predicate Plain(dels: seq<Bytes>, payload: Bytes) {
    forall b, d :: b in payload && d in dels && d != [] ==> d[0] != b
  }

  /** What writing the payloads one after the other puts on the line. */
  function Framed(payloads: seq<Bytes>, tx: Bytes): Bytes {
    if payloads == [] then [] else payloads[0] + tx + Framed(payloads[1..], tx)
  }

  function Packets(payloads: seq<Bytes>, tx: Bytes): (r: seq<Packet>)
    ensures |r| == |payloads|
    ensures forall i :: 0 <= i < |r| ==> r[i] == Packet(payloads[i], tx)
  {
    seq(|payloads|, i requires 0 <= i < |payloads| => Packet(payloads[i], tx))
  }

  function Payloads(out: seq<Packet>): (r: seq<Bytes>)
    ensures |r| == |out|
    ensures forall i :: 0 <= i < |r| ==> r[i] == out[i].payload
  {
    seq(|out|, i requires 0 <= i < |out| => out[i].payload)
  }

  predicate Between(p: Parser) {
    p.payload == [] && p.window == [] && !p.discard
  }

  lemma PlainMatch(dels: seq<Bytes>, payload: Bytes, b: byte)
    requires Plain(dels, payload) && b in payload
    ensures Match(dels, [b]) == 0
  {
    var i := FirstHit(dels, [b]);
    if i < |dels| { assert dels[i] in dels; }
  }

  lemma {:induction false} PlainIsAbsorbed(c: Config, p: Parser, payload: Bytes)
    requires Plain(c.dels, payload)
    requires p.window == [] && !p.discard && |p.payload| + |payload| <= c.maxSize
    ensures Parse(c, p, Events(payload)) == p.(payload := p.payload + payload)
    ensures Clean(c, p, Events(payload))
    decreases |payload|
  {
    if payload == [] {
      assert p.payload + payload == p.payload;
    } else {
      var b := payload[0];
      assert b in payload;
      assert forall x :: x in payload[1..] ==> x in payload;
      PlainMatch(c.dels, payload, b);
      var q := p.(payload := p.payload + [b]);
      assert [] + [b] == [b];
      assert Feed(c, p, b) == q;
      ParseFirst(c, p, payload);
      PlainIsAbsorbed(c, q, payload[1..]);
      assert q.payload + payload[1..] == p.payload + payload;
    }
  }

  lemma RecognisedMatch(dels: seq<Bytes>, tx: Bytes, k: int)
    requires Recognised(dels, tx) && 1 <= k <= |tx|
    ensures Match(dels, tx[..k]) == if k == |tx| then k else -k
  {
    var w := tx[..k];
    var t :| 0 <= t < |dels| && dels[t] == tx;
    assert Hits(dels[t], w);
    var i := FirstHit(dels, w);
    var d := dels[i];
    assert d in dels;
    assert d == tx || !Hits(d, tx);
    assert d <= w ==> d <= tx;
    assert k == |tx| ==> w == tx;
  }

  /** A stream taken one byte further. */
  lemma FeedMore(c: Config, p: Parser, bs: Bytes, b: byte) returns (more: Bytes)
    ensures more == bs + [b]
    ensures Parse(c, p, Events(more)) == Feed(c, Parse(c, p, Events(bs)), b)
  {
    more := bs + [b];
    ParseBytesAppend(c, p, bs, [b]);
    ParseFirst(c, Parse(c, p, Events(bs)), [b]);
  }

  lemma EventsAppend(a: Bytes, b: Bytes)
    ensures Events(a + b) == Events(a) + Events(b)
  {
  }

  lemma ParseBytesAppend(c: Config, p: Parser, a: Bytes, b: Bytes)
    ensures Parse(c, p, Events(a + b)) == Parse(c, Parse(c, p, Events(a)), Events(b))
    ensures Clean(c, p, Events(a + b)) <==>
            Clean(c, p, Events(a)) && Clean(c, Parse(c, p, Events(a)), Events(b))
  {
    EventsAppend(a, b);
    ParseAppend(c, p, Events(a), Events(b));
  }

  lemma FrontWaits(dels: seq<Bytes>, tx: Bytes)
    requires Recognised(dels, tx)
    ensures Waiting(dels, tx[..|tx| - 1]) && Match(dels, tx) == |tx|
  {
    var front := tx[..|tx| - 1];
    forall k | 1 <= k <= |front| ensures Match(dels, front[..k]) < 0 {
      RecognisedMatch(dels, tx, k);
      assert front[..k] == tx[..k];
    }
    RecognisedMatch(dels, tx, |tx|);
    assert tx[..|tx|] == tx;
  }

  lemma DelimiterDelivers(c: Config, p: Parser, tx: Bytes)
    requires Recognised(c.dels, tx) && p.window == [] && !p.discard
    ensures Parse(c, p, Events(tx)) == Deliver(p, tx)
    ensures Clean(c, p, Events(tx))
  {
    var n := |tx| - 1;
    var front := tx[..n];
    var q := p.(window := front);
    FrontWaits(c.dels, tx);
    assert [] + front == front;
    FeedWaiting(c, p, front);
    assert tx == front + [tx[n]];
    ParseBytesAppend(c, p, front, [tx[n]]);
    assert Feed(c, q, tx[n]) == Deliver(q, tx) == Deliver(p, tx);
    ParseFirst(c, q, [tx[n]]);
  }

  lemma PacketsCons(payloads: seq<Bytes>, tx: Bytes)
    requires payloads != []
    ensures Packets(payloads, tx) == [Packet(payloads[0], tx)] + Packets(payloads[1..], tx)
  {
  }

  /** One written packet is delivered as it was written. */
  lemma OneRoundTrip(c: Config, p: Parser, x: Bytes, tx: Bytes)
    requires Recognised(c.dels, tx) && Between(p)
    requires |x| <= c.maxSize && Plain(c.dels, x)
    ensures Parse(c, p, Events(x + tx)) == p.(out := p.out + [Packet(x, tx)])
    ensures Clean(c, p, Events(x + tx))
  {
    assert [] !in c.dels by { assert Hits([], tx); }
    PlainIsAbsorbed(c, p, x);
    assert [] + x == x;
    DelimiterDelivers(c, p.(payload := x), tx);
    ParseBytesAppend(c, p, x, tx);
  }

  lemma OneRoundTripMore(c: Config, p: Parser, x: Bytes, tx: Bytes, bs: Bytes)
    requires Recognised(c.dels, tx) && Between(p)
    requires |x| <= c.maxSize && Plain(c.dels, x)
    ensures
      var q := p.(out := p.out + [Packet(x, tx)]);
      && Parse(c, p, Events(x + tx + bs)) == Parse(c, q, Events(bs))
      && (Clean(c, p, Events(x + tx + bs)) <==> Clean(c, q, Events(bs)))
  {
    OneRoundTrip(c, p, x, tx);
    ParseBytesAppend(c, p, x + tx, bs);
  }

  /** Payloads within the size limit that contain no first byte of a listed
      delimiter come out as they were written, and nothing is left over. */
  lemma {:induction false} RoundTrip(c: Config, p: Parser, payloads: seq<Bytes>, tx: Bytes)
    requires Recognised(c.dels, tx) && Between(p)
    requires forall x :: x in payloads ==> |x| <= c.maxSize && Plain(c.dels, x)
    ensures Parse(c, p, Events(Framed(payloads, tx))) == p.(out := p.out + Packets(payloads, tx))
    ensures Clean(c, p, Events(Framed(payloads, tx)))
    decreases |payloads|
  {
    if payloads == [] {
      assert p.out + Packets(payloads, tx) == p.out;
    } else {
      var x, rest := payloads[0], payloads[1..];
      assert x in payloads;
      var q := p.(out := p.out + [Packet(x, tx)]);
      RoundTrip(c, q, rest, tx);
      OneRoundTripMore(c, p, x, tx, Framed(rest, tx));
      PacketsCons(payloads, tx);
      AppendAssoc(p.out, [Packet(x, tx)], Packets(rest, tx));
    }
  }

  lemma {:induction false} PlainIsCalm(c: Config, p: Parser, payload: Bytes)
    requires Plain(c.dels, payload)
    requires p.window == [] && !p.discard && |p.payload| + |payload| <= c.maxSize
    ensures Calm(c, p, payload)
    decreases |payload|
  {
    if payload != [] {
      var b := payload[0];
      assert forall x :: x in payload[1..] ==> x in payload;
      assert b in payload;
      PlainMatch(c.dels, payload, b);
      assert [] + [b] == [b];
      PlainIsCalm(c, p.(payload := p.payload + [b]), payload[1..]);
    }
  }

  lemma BeginningIsIdle(c: Config, p: Parser, tx: Bytes, k: int)
    requires Recognised(c.dels, tx) && 0 <= k < |tx| && p.window == tx[..k]
    ensures Idle(c, p) == p
  {
    forall i | 0 <= i < |c.dels| ensures !(c.dels[i] <= tx[..k]) {
      assert c.dels[i] in c.dels;
      NotBegun(c.dels[i], tx, k);
    }
  }

  lemma {:induction false} DelimiterIsCalm(c: Config, p: Parser, tx: Bytes, k: int)
    requires Recognised(c.dels, tx) && 0 <= k < |tx| && p.window == tx[..k] && !p.discard
    ensures Calm(c, p, tx[k..])
    decreases |tx| - k
  {
    BeginningIsIdle(c, p, tx, k);
    RecognisedMatch(c.dels, tx, k + 1);
    assert tx[..k] + [tx[k]] == tx[..k + 1];
    assert tx[k..][1..] == tx[k + 1..];
    if k + 1 < |tx| {
      DelimiterIsCalm(c, p.(window := tx[..k + 1]), tx, k + 1);
    } else {
      assert tx[..k + 1] == tx;
      assert Feed(c, p, tx[k]) == Deliver(p, tx) && tx[k + 1..] == [];
    }
  }

  lemma OneIsCalm(c: Config, p: Parser, x: Bytes, tx: Bytes)
    requires Recognised(c.dels, tx) && Between(p)
    requires |x| <= c.maxSize && Plain(c.dels, x)
    ensures Calm(c, p, x + tx)
  {
    assert [] !in c.dels by { assert Hits([], tx); }
    PlainIsCalm(c, p, x);
    PlainIsAbsorbed(c, p, x);
    assert tx[..0] == [] && tx[0..] == tx;
    DelimiterIsCalm(c, Parse(c, p, Events(x)), tx, 0);
    CalmAppend(c, p, x, tx);
  }

  lemma {:induction false} FramedIsCalm(c: Config, p: Parser, payloads: seq<Bytes>, tx: Bytes)
    requires Recognised(c.dels, tx) && Between(p)
    requires forall x :: x in payloads ==> |x| <= c.maxSize && Plain(c.dels, x)
    ensures Calm(c, p, Framed(payloads, tx))
    decreases |payloads|
  {
    if payloads != [] {
      var x, rest := payloads[0], payloads[1..];
      assert x in payloads;
      OneIsCalm(c, p, x, tx);
      OneRoundTrip(c, p, x, tx);
      FramedIsCalm(c, p.(out := p.out + [Packet(x, tx)]), rest, tx);
      CalmAppend(c, p, x + tx, Framed(rest, tx));
    }
  }

  /** The same with time-outs anywhere in the stream. */
  lemma RoundTripWithGaps(c: Config, p: Parser, payloads: seq<Bytes>, tx: Bytes, es: seq<Event>)
    requires Recognised(c.dels, tx) && Between(p)
    requires forall x :: x in payloads ==> |x| <= c.maxSize && Plain(c.dels, x)
    requires BytesOf(es) == Framed(payloads, tx)
    ensures Parse(c, p, es) == p.(out := p.out + Packets(payloads, tx))
    ensures Clean(c, p, es)
  {
    FramedIsCalm(c, p, payloads, tx);
    CalmIgnoresGaps(c, p, es);
    RoundTrip(c, p, payloads, tx);
  }

  /** The same however the line splits the bytes into reads, with reads that time
      out anywhere between them; and nothing is discarded on the way. */
  lemma RoundTripInChunks(c: Config, payloads: seq<Bytes>, tx: Bytes, chunks: seq<Bytes>)
    requires Recognised(c.dels, tx)
    requires forall x :: x in payloads ==> |x| <= c.maxSize && Plain(c.dels, x)
    requires Concat(chunks) == Framed(payloads, tx)
    ensures Parse(c, START, StreamOf(chunks)) == Parser(Packets(payloads, tx), [], [], false)
    ensures Payloads(Packets(payloads, tx)) == payloads
    ensures Clean(c, START, StreamOf(chunks))
  {
    StreamBytes(chunks);
    RoundTripWithGaps(c, START, payloads, tx, StreamOf(chunks));
    EmptyAppend(Packets(payloads, tx));
  }

  // ----- one-byte delimiters -----

  predicate OneByte(dels: seq<Bytes>) {
    forall d :: d in dels ==> |d| == 1
  }

  predicate NoDelimiterIn(dels: seq<Bytes>, field: Bytes) {
    forall i :: 0 <= i < |field| ==> [field[i]] !in dels
  }

  /** The naive split: cut at every delimiter byte. */
  function Split(dels: seq<Bytes>, bs: Bytes): (r: seq<Bytes>)
    ensures |r| >= 1
    ensures forall i :: 0 <= i < |r| ==> NoDelimiterIn(dels, r[i])
  {
    if bs == [] then [[]]
    else
      var r := Split(dels, bs[1..]);
      if [bs[0]] in dels then [[]] + r else [[bs[0]] + r[0]] + r[1..]
  }

  lemma OneByteMatch(dels: seq<Bytes>, b: byte)
    requires OneByte(dels)
    ensures Match(dels, [b]) == if [b] in dels then 1 else 0
  {
    var i := FirstHit(dels, [b]);
    if i < |dels| {
      assert dels[i] in dels && dels[i] == [b];
    }
  }

  /** The fields of a stream that continues a payload. */
  function Continued(payload: Bytes, fields: seq<Bytes>): seq<Bytes>
    requires fields != []
  {
    [payload + fields[0]] + fields[1..]
  }

  predicate AllFit(fields: seq<Bytes>, maxSize: nat) {
    forall i :: 0 <= i < |fields| ==> |fields[i]| <= maxSize
  }

  lemma AllFitCons(f: Bytes, fields: seq<Bytes>, maxSize: nat)
    ensures AllFit([f] + fields, maxSize) <==> |f| <= maxSize && AllFit(fields, maxSize)
  {
    var all := [f] + fields;
    assert all[0] == f;
    assert forall i :: 0 <= i < |fields| ==> fields[i] == all[i + 1];
  }

  /** What the split says the parser holds after the bytes. */
  predicate Cuts(p: Parser, fields: seq<Bytes>, q: Parser)
    requires fields != []
  {
    && Payloads(q.out) == Payloads(p.out) + fields[..|fields| - 1]
    && q.payload == fields[|fields| - 1] && q.window == [] && !q.discard
  }

  /** With one-byte delimiters the packets are the fields of the naive split and
      the last field is pending; no packet is over-long exactly if no field is. */
  lemma {:induction false} SplitExactly(c: Config, p: Parser, bs: Bytes)
    requires OneByte(c.dels) && p.window == [] && !p.discard && |p.payload| <= c.maxSize
    ensures Clean(c, p, Events(bs)) <==> AllFit(Continued(p.payload, Split(c.dels, bs)), c.maxSize)
    ensures Clean(c, p, Events(bs)) ==>
              Cuts(p, Continued(p.payload, Split(c.dels, bs)), Parse(c, p, Events(bs)))
    decreases |bs|
  {
    var fields := Continued(p.payload, Split(c.dels, bs));
    if bs == [] {
      assert p.payload + [] == p.payload;
    } else {
      var b := bs[0];
      assert [] + [b] == [b];
      OneByteMatch(c.dels, b);
      ParseFirst(c, p, bs);
      var rest := Split(c.dels, bs[1..]);
      if [b] in c.dels {
        SplitAtDelimiter(c, p, bs[1..], b);
        AllFitCons(p.payload, rest, c.maxSize);
        assert p.payload + [] == p.payload;
        assert fields == [p.payload] + rest;
        SplitExactly(c, Deliver(p, [b]), bs[1..]);
      } else {
        assert fields == Continued(p.payload + [b], rest) by {
          assert p.payload + ([b] + rest[0]) == p.payload + [b] + rest[0];
        }
        if |p.payload| + 1 <= c.maxSize {
          SplitExactly(c, p.(payload := p.payload + [b]), bs[1..]);
        } else {
          assert !Clean(c, Feed(c, p, b), Events(bs[1..]));
          assert |fields[0]| > c.maxSize;
        }
      }
    }
  }

  /** A delivered packet in front of the fields that follow it. */
  lemma SplitAtDelimiter(c: Config, p: Parser, bs: Bytes, b: byte)
    requires !p.discard
    ensures
      var rest := Split(c.dels, bs);
      var q := Deliver(p, [b]);
      && Continued([], rest) == rest
      && forall z :: Cuts(q, rest, z) ==> Cuts(p, [p.payload] + rest, z)
  {
    var rest := Split(c.dels, bs);
    assert [] + rest[0] == rest[0];
    var q := Deliver(p, [b]);
    assert Payloads(q.out) == Payloads(p.out) + [p.payload];
    assert ([p.payload] + rest)[..|rest|] == [p.payload] + rest[..|rest| - 1];
  }

  // ----- after an over-long packet -----

  /** A window that matches nothing matches nothing whatever follows. */
  lemma ZeroStays(dels: seq<Bytes>, w: Bytes, b: byte)
    requires w != [] && Match(dels, w) == 0
    ensures Match(dels, w + [b]) == 0
  {
    var i := FirstHit(dels, w);
    forall j | 0 <= j < i ensures !Hits(dels[j], w + [b]) {
      FewerHits(dels[j], w, b);
    }
    if i < |dels| {
      assert dels[i] == [];
      FirstHitIs(dels, w + [b], i);
    } else {
      assert FirstHit(dels, w + [b]) == |dels|;
    }
  }

  lemma FewerHits(d: Bytes, w: Bytes, b: byte)
    requires !Hits(d, w)
    ensures !Hits(d, w + [b])
  {
    assert w <= w + [b];
  }

  /** Nor does a gap find a complete delimiter in it. */
  lemma ZeroIsIdle(dels: seq<Bytes>, w: Bytes)
    requires w != [] && Match(dels, w) == 0
    ensures BestMatch(dels, w) <= 0
  {
    var i := FirstHit(dels, w);
    if i < |dels| {
      assert dels[i] == [];
      FirstFullIs(dels, w, i);
    } else {
      assert FirstFull(dels, w) == |dels|;
    }
  }

  /** Once discarding with a window that matches nothing, the packetizer never
      delivers or resets again; the write index grows with every byte. */
  lemma {:induction false} DeadStays(c: Config, p: Parser, es: seq<Event>)
    requires p.discard && p.window != [] && Match(c.dels, p.window) == 0
    ensures Parse(c, p, es) == p.(window := p.window + BytesOf(es))
    decreases |es|
  {
    if es == [] {
      assert p.window + BytesOf(es) == p.window;
    } else {
      match es[0]
      case Byte(b) =>
        ZeroStays(c.dels, p.window, b);
        DeadStays(c, p.(window := p.window + [b]), es[1..]);
        AppendAssoc(p.window, [b], BytesOf(es[1..]));
      case Gap =>
        ZeroIsIdle(c.dels, p.window);
        DeadStays(c, p, es[1..]);
        assert BytesOf(es) == BytesOf(es[1..]);
    }
  }

  /** Somewhere along the stream the packetizer stops discarding. */
  predicate Recovers(c: Config, p: Parser, es: seq<Event>)
    decreases |es|
  {
    !p.discard || (es != [] && Recovers(c, Step(c, p, es[0]), es[1..]))
  }

  /** The k-th event completes a delimiter that begins at the start of the window:
      a byte by what `FindDelimiter` finds, a gap by its best match. */
  predicate CompletesAt(dels: seq<Bytes>, w: Bytes, es: seq<Event>, k: nat)
    requires 1 <= k <= |es|
  {
    var v := w + BytesOf(es[..k - 1]);
    && Waiting(dels, v)
    && match es[k - 1]
       case Byte(b) => Match(dels, v + [b]) > 0
       case Gap => BestMatch(dels, v) > 0
  }

  lemma CompletesLater(dels: seq<Bytes>, w: Bytes, es: seq<Event>, k: nat)
    requires es != [] && 1 <= k < |es|
    ensures CompletesAt(dels, w, es, k + 1) <==> CompletesAt(dels, w + EventBytes(es[0]), es[1..], k)
  {
    assert es[..k][1..] == es[1..][..k - 1];
    AppendAssoc(w, EventBytes(es[0]), BytesOf(es[1..][..k - 1]));
  }

  /** Resynchronisation at the next delimiter fails in general: the packetizer
      recovers from an over-long packet exactly if the very next bytes spell a
      delimiter. */
  lemma RecoveryExactly(c: Config, out: seq<Packet>, es: seq<Event>)
    requires c.maxSize > 0
    ensures Recovers(c, Parser(out, [], [], true), es) <==>
            exists k :: 1 <= k <= |es| && CompletesAt(c.dels, [], es, k)
  {
    RecoversFrom(c, out, [], es);
  }

  lemma {:induction false} RecoversFrom(c: Config, out: seq<Packet>, w: Bytes, es: seq<Event>)
    requires c.maxSize > 0 && Waiting(c.dels, w)
    ensures Recovers(c, Parser(out, [], w, true), es) <==>
            exists k :: 1 <= k <= |es| && CompletesAt(c.dels, w, es, k)
    decreases |es|
  {
    if es != [] {
      var p, x := Parser(out, [], w, true), w + EventBytes(es[0]);
      assert w + BytesOf(es[..0]) == w;
      if CompletesAt(c.dels, w, es, 1) {
        if es[0].Byte? { FeedClears(c, p, es[0].b); }
      } else if es[0].Byte? && Match(c.dels, x) == 0 {
        NeverRecovers(c, p.(window := x), es[1..]);
        forall k | 2 <= k <= |es| ensures !CompletesAt(c.dels, w, es, k) {
          CompletesLater(c.dels, w, es, k - 1);
          assert (x + BytesOf(es[1..][..k - 2]))[..|x|] == x;
        }
      } else {
        if es[0].Byte? { WaitingExtends(c.dels, w, es[0].b); } else { assert x == w; }
        RecoversFrom(c, out, x, es[1..]);
        forall k | 1 <= k < |es| { CompletesLater(c.dels, w, es, k); }
        if k :| 1 <= k <= |es[1..]| && CompletesAt(c.dels, x, es[1..], k) {
          assert CompletesAt(c.dels, w, es, k + 1);
        }
        if k :| 1 <= k <= |es| && CompletesAt(c.dels, w, es, k) {
          assert CompletesAt(c.dels, x, es[1..], k - 1);
        }
      }
    }
  }

  /** With line feed as delimiter and packets of one byte: `ab` is too long, and
      after its third byte nothing that follows is delivered, not even the empty
      and the one-byte packet that a fresh parser finds in it. */
  lemma RecoveryFails(es: seq<Event>)
    ensures
      var c := Config([[10]], 1);
      && Parse(c, START, Events([97, 98])) == Parser([], [], [], true)
      && Parse(c, START, Events([97, 98, 99]) + es).out == []
  {
    var c := Config([[10]], 1);
    var p1, over := Parser([], [97], [], false), Parser([], [], [], true);
    FeedPlainByte(c, START, 97);
    FeedPlainByte(c, p1, 98);
    FeedPlainByte(c, over, 99);
    var bs := FeedMore(c, START, [], 97);
    bs := FeedMore(c, START, bs, 98);
    assert bs == [97, 98];
    bs := FeedMore(c, START, bs, 99);
    assert bs == [97, 98, 99];
    ParseAppend(c, START, Events(bs), es);
    OneByteMatch(c.dels, 99);
    DeadStays(c, over.(window := [99]), es);
  }

  /** What a byte that is no delimiter does, if all delimiters have one byte. */
  lemma FeedPlainByte(c: Config, p: Parser, b: byte)
    requires OneByte(c.dels) && [b] !in c.dels && p.window == []
    ensures Feed(c, p, b) ==
            if p.discard then p.(window := [b])
            else if |p.payload| + 1 > c.maxSize then p.(payload := [], discard := true)
            else p.(payload := p.payload + [b])
  {
    assert [] + [b] == [b];
    OneByteMatch(c.dels, b);
  }

  lemma FeedClears(c: Config, p: Parser, b: byte)
    requires Match(c.dels, p.window + [b]) > 0 && c.maxSize > 0
    ensures !Feed(c, p, b).discard
  {
    PushedBackOnce(c.dels, b);
    assert [] + [b] == [b];
  }

  lemma {:induction false} NeverRecovers(c: Config, p: Parser, es: seq<Event>)
    requires p.discard && p.window != [] && Match(c.dels, p.window) == 0
    ensures !Recovers(c, p, es)
    decreases |es|
  {
    if es != [] {
      if es[0].Byte? {
        ZeroStays(c.dels, p.window, es[0].b);
        NeverRecovers(c, p.(window := p.window + [es[0].b]), es[1..]);
      } else {
        ZeroIsIdle(c.dels, p.window);
        NeverRecovers(c, p, es[1..]);
      }
    }
  }
}
