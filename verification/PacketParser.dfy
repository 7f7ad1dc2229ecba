// The packetizer of the serial packet device as a function of the received
// stream: one step per byte or gap, and the laws that tie what is delivered to
// what was received.

/** The packetizer's state and steps. */
module PacketParser {
  import opened Basics
  import opened Delimiters

  /** What the constructor fixes: rx delimiters and `m_maxPacketSize`. */
  datatype Config = Config(dels: seq<Bytes>, maxSize: nat)

  /** A delivered payload, with the delimiter that ended it (the handler only
      gets the payload). */
  datatype Packet = Packet(payload: Bytes, delimiter: Bytes)

  /** `payload` is m_packet[..packet_len], `window` is m_packet[packet_len..packet_end]. */
  datatype Parser = Parser(out: seq<Packet>, payload: Bytes, window: Bytes, discard: bool)

  /** One received byte, or a read that timed out with nothing received. */
  datatype Event = Byte(b: byte) | Gap

  const START: Parser := Parser([], [], [], false)

  /** The handler call, unless the packet is being discarded, and the reset. */
  function Deliver(p: Parser, delimiter: Bytes): Parser {
    Parser(if p.discard then p.out else p.out + [Packet(p.payload, delimiter)], [], [], false)
  }

  /** One round of the inner loop, and the second one for a byte pushed back. */
  function Feed(c: Config, p: Parser, b: byte): Parser
    decreases |p.window|
  {
    var w := p.window + [b];
    var m := Match(c.dels, w);
    if m < 0 then p.(window := w)
    else if m == 0 then
      if p.discard then p.(window := w)
      else if |p.payload| + |w| > c.maxSize then p.(payload := [], window := [], discard := true)
      else p.(payload := p.payload + w, window := [])
    else if |w| > m then
      Feed(c, Deliver(p, w[..m]), b)
    else Deliver(p, w)
  }

  function Idle(c: Config, p: Parser): Parser {
    var m := BestMatch(c.dels, p.window);
    if m > 0 then Deliver(p, p.window[..m]) else p
  }

  function Step(c: Config, p: Parser, e: Event): Parser {
    match e
    case Byte(b) => Feed(c, p, b)
    case Gap => Idle(c, p)
  }

  function Parse(c: Config, p: Parser, es: seq<Event>): Parser
    decreases |es|
  {
    if es == [] then p else Parse(c, Step(c, p, es[0]), es[1..])
  }

  /** No packet of the run is longer than `m_maxPacketSize`: nothing is ever discarded. */
  predicate Clean(c: Config, p: Parser, es: seq<Event>)
    decreases |es|
  {
    !p.discard && (es == [] || Clean(c, Step(c, p, es[0]), es[1..]))
  }

  lemma {:induction false} ParseAppend(c: Config, p: Parser, front: seq<Event>, back: seq<Event>)
    ensures Parse(c, p, front + back) == Parse(c, Parse(c, p, front), back)
    ensures Clean(c, p, front + back) <==> Clean(c, p, front) && Clean(c, Parse(c, p, front), back)
    decreases |front|
  {
    if front == [] {
      assert front + back == back;
    } else {
      assert (front + back)[1..] == front[1..] + back;
      ParseAppend(c, Step(c, p, front[0]), front[1..], back);
    }
  }

  lemma ParseOne(c: Config, p: Parser, e: Event)
    ensures Parse(c, p, [e]) == Step(c, p, e)
    ensures Clean(c, p, [e]) <==> !p.discard && !Step(c, p, e).discard
  {
  }

  // ----- bytes -----

  function Events(bs: Bytes): (es: seq<Event>)
    ensures |es| == |bs|
    ensures forall i :: 0 <= i < |bs| ==> es[i] == Byte(bs[i])
  {
    seq(|bs|, i requires 0 <= i < |bs| => Byte(bs[i]))
  }

  /** A stream of bytes is parsed from the front. */
  lemma ParseFirst(c: Config, p: Parser, bs: Bytes)
    requires bs != []
    ensures Parse(c, p, Events(bs)) == Parse(c, Feed(c, p, bs[0]), Events(bs[1..]))
    ensures Clean(c, p, Events(bs)) <==> !p.discard && Clean(c, Feed(c, p, bs[0]), Events(bs[1..]))
  {
    assert Events(bs)[1..] == Events(bs[1..]);
  }

  function BytesOf(es: seq<Event>): Bytes {
    if es == [] then []
    else EventBytes(es[0]) + BytesOf(es[1..])
  }

  function EventBytes(e: Event): Bytes {
    if e.Byte? then [e.b] else []
  }

  lemma {:induction false} BytesOfEvents(bs: Bytes)
    ensures BytesOf(Events(bs)) == bs
  {
    if bs != [] {
      assert Events(bs)[1..] == Events(bs[1..]);
      BytesOfEvents(bs[1..]);
    }
  }

  lemma {:induction false} BytesOfAppend(a: seq<Event>, b: seq<Event>)
    ensures BytesOf(a + b) == BytesOf(a) + BytesOf(b)
  {
    if a == [] {
      assert a + b == b;
    } else {
      assert (a + b)[1..] == a[1..] + b;
      BytesOfAppend(a[1..], b);
    }
  }

  // ----- the parser's invariant -----

  predicate Good(c: Config, p: Parser) {
    && !p.discard
    && Waiting(c.dels, p.window)
    && |p.payload| <= c.maxSize
    && forall k :: k in p.out ==> |k.payload| <= c.maxSize
  }

  lemma FeedKeepsGood(c: Config, p: Parser, b: byte)
    requires Good(c, p) && !Feed(c, p, b).discard
    ensures Good(c, Feed(c, p, b))
    decreases |p.window|
  {
    var w := p.window + [b];
    var m := Match(c.dels, w);
    if m < 0 {
      WaitingExtends(c.dels, p.window, b);
    } else if m > 0 && |w| > m {
      FeedKeepsGood(c, Deliver(p, w[..m]), b);
    }
  }

  /** On runs without over-long packets the waiting window stays shorter than
      the longest delimiter and no delivered packet is over-long. */
  lemma {:induction false} ParseKeepsGood(c: Config, p: Parser, es: seq<Event>)
    requires Good(c, p) && Clean(c, p, es)
    ensures Good(c, Parse(c, p, es))
    ensures Parse(c, p, es).window != [] ==> |Parse(c, p, es).window| < LongestOf(c.dels)
    decreases |es|
  {
    if es == [] {
      if p.window != [] { WaitingIsShort(c.dels, p.window); }
    } else {
      if es[0].Byte? { FeedKeepsGood(c, p, es[0].b); }
      ParseKeepsGood(c, Step(c, p, es[0]), es[1..]);
    }
  }

  /** A byte that was pushed back is not pushed back again: as a window of its
      own it is at most as long as what it matches. */
  lemma PushedBackOnce(dels: seq<Bytes>, b: byte)
    ensures Match(dels, [b]) <= 1
  {
    var i := FirstHit(dels, [b]);
    if i < |dels| && dels[i] <= [b] { assert |dels[i]| <= |[b]|; }
  }

  // ----- conservation -----

  function Spelled(out: seq<Packet>): Bytes {
    if out == [] then []
    else out[0].payload + out[0].delimiter + Spelled(out[1..])
  }

  /** Every byte accounted for: delivered packets with their delimiters, the
      payload so far, and the window. */
  function Account(p: Parser): Bytes {
    Spelled(p.out) + p.payload + p.window
  }

  /** A condition on the delimiter list alone: wherever the beginning of a
      delimiter can be waiting, a complete delimiter found in it is all of it. */
  predicate NoLoss(dels: seq<Bytes>) {
    forall i, k :: 0 <= i < |dels| && 1 <= k < |dels[i]| && Waiting(dels, dels[i][..k]) ==>
      var m := BestMatch(dels, dels[i][..k]);
      m <= 0 || m == k
  }

  lemma {:induction false} SpelledAppend(out: seq<Packet>, k: Packet)
    ensures Spelled(out + [k]) == Spelled(out) + k.payload + k.delimiter
  {
    if out == [] {
      assert out + [k] == [k];
    } else {
      assert (out + [k])[1..] == out[1..] + [k];
      SpelledAppend(out[1..], k);
    }
  }

  lemma NoLossHere(dels: seq<Bytes>, w: Bytes)
    requires NoLoss(dels) && Waiting(dels, w) && BestMatch(dels, w) > 0
    ensures BestMatch(dels, w) == |w|
  {
    WaitingIsShort(dels, w);
    var i :| 0 <= i < |dels| && w < dels[i];
    assert dels[i][..|w|] == w;
  }

  lemma NotInLonger(d: Bytes, w: Bytes, b: byte)
    requires !(d <= w + [b])
    ensures !(d <= w)
  {
  }

  /** A delimiter shorter than the window, found when a byte ends the waiting,
      was already complete in the window before that byte. */
  lemma MatchWasComplete(dels: seq<Bytes>, w: Bytes, b: byte)
    requires Match(dels, w + [b]) > 0 && Match(dels, w + [b]) <= |w|
    ensures BestMatch(dels, w) == Match(dels, w + [b])
  {
    var i := FirstHit(dels, w + [b]);
    assert dels[i] == (w + [b])[..|dels[i]|] == w[..|dels[i]|];
    forall j | 0 <= j < i ensures !(dels[j] <= w) {
      NotInLonger(dels[j], w, b);
    }
    FirstFullIs(dels, w, i);
  }

  lemma FeedConserves(c: Config, p: Parser, b: byte)
    requires NoLoss(c.dels) && Good(c, p) && !Feed(c, p, b).discard
    ensures Account(Feed(c, p, b)) == Account(p) + [b]
    decreases |p.window|
  {
    var w := p.window + [b];
    var m := Match(c.dels, w);
    if m > 0 {
      SpelledAppend(p.out, Packet(p.payload, w[..m]));
      if |w| > m {
        MatchWasComplete(c.dels, p.window, b);
        NoLossHere(c.dels, p.window);
        assert w[..m] == p.window;
        var d := Deliver(p, w[..m]);
        assert Account(d) == Account(p);
        FeedConserves(c, d, b);
      } else {
        assert w[..m] == w;
        assert Account(Deliver(p, w)) == Account(p) + [b];
      }
    }
  }

  lemma IdleConserves(c: Config, p: Parser)
    requires NoLoss(c.dels) && Good(c, p)
    ensures Account(Idle(c, p)) == Account(p)
  {
    var m := BestMatch(c.dels, p.window);
    if m > 0 {
      NoLossHere(c.dels, p.window);
      SpelledAppend(p.out, Packet(p.payload, p.window[..m]));
      assert p.window[..m] == p.window;
    }
  }

  lemma StepConserves(c: Config, p: Parser, e: Event)
    requires NoLoss(c.dels) && Good(c, p) && !Step(c, p, e).discard
    ensures Good(c, Step(c, p, e))
    ensures Account(Step(c, p, e)) == Account(p) + EventBytes(e)
  {
    match e
    case Byte(b) =>
      FeedKeepsGood(c, p, b);
      FeedConserves(c, p, b);
    case Gap =>
      IdleConserves(c, p);
  }

  lemma {:induction false} ParseConserves(c: Config, p: Parser, es: seq<Event>)
    requires NoLoss(c.dels) && Good(c, p) && Clean(c, p, es)
    ensures Account(Parse(c, p, es)) == Account(p) + BytesOf(es)
    decreases |es|
  {
    if es != [] {
      StepConserves(c, p, es[0]);
      ParseConserves(c, Step(c, p, es[0]), es[1..]);
      AppendAssoc(Account(p), EventBytes(es[0]), BytesOf(es[1..]));
    }
  }

  predicate Conserves(c: Config, es: seq<Event>) {
    Clean(c, START, es) ==> Account(Parse(c, START, es)) == BytesOf(es)
  }

  /** Where the condition fails, a stream that loses bytes: the beginning of the
      longer delimiter, then a gap. */
  lemma LossHappens(c: Config, w: Bytes)
    requires Waiting(c.dels, w) && 0 < BestMatch(c.dels, w) < |w|
    ensures !Conserves(c, Events(w) + [Gap])
  {
    var p := START.(window := w);
    assert START.window + w == w;
    FeedWaiting(c, START, w);
    ParseAppend(c, START, Events(w), [Gap]);
    ParseOne(c, p, Gap);
    GapLoses(c, p);
    BytesOfEvents(w);
    BytesOfAppend(Events(w), [Gap]);
    assert BytesOf([Gap]) == [];
  }

  lemma GapLoses(c: Config, p: Parser)
    requires p.out == [] && p.payload == [] && !p.discard && 0 < BestMatch(c.dels, p.window) < |p.window|
    ensures |Account(Idle(c, p))| < |p.window|
  {
    var d := p.window[..BestMatch(c.dels, p.window)];
    assert Idle(c, p).out == [Packet([], d)];
    SpelledAppend([], Packet([], d));
    assert [] + [Packet([], d)] == [Packet([], d)];
  }

  /** A waiting window is reached by its own bytes. */
  lemma {:induction false} FeedWaiting(c: Config, p: Parser, w: Bytes)
    requires Waiting(c.dels, p.window + w) && !p.discard
    ensures Parse(c, p, Events(w)) == p.(window := p.window + w)
    ensures Clean(c, p, Events(w))
    decreases |w|
  {
    if w == [] {
      assert p.window + w == p.window;
    } else {
      var x := p.window + [w[0]];
      assert (p.window + w)[..|x|] == x;
      assert x + w[1..] == p.window + w;
      ParseFirst(c, p, w);
      FeedWaiting(c, p.(window := x), w[1..]);
    }
  }

  /** Bytes are conserved on all streams without over-long packets, with gaps
      anywhere, exactly when the delimiter list meets the condition. */
  lemma ConservationExactly(c: Config)
    ensures (forall es :: Conserves(c, es)) <==> NoLoss(c.dels)
  {
    if NoLoss(c.dels) {
      forall es ensures Conserves(c, es) {
        if Clean(c, START, es) {
          ParseConserves(c, START, es);
        }
      }
    } else {
      var i, k :| 0 <= i < |c.dels| && 1 <= k < |c.dels[i]| && Waiting(c.dels, c.dels[i][..k]) &&
        var m := BestMatch(c.dels, c.dels[i][..k]);
        !(m <= 0 || m == k);
      var w := c.dels[i][..k];
      assert BestMatch(c.dels, w) < |w| by {
        var f := FirstFull(c.dels, w);
        assert f < |c.dels| ==> |c.dels[f]| <= |w|;
      }
      LossHappens(c, w);
    }
  }

  /** The delimiters `abc` and `a`: of the bytes `ab` and a gap the `b` is lost. */
  lemma LossWitness(maxSize: nat)
    ensures
      var dels: seq<Bytes> := [[97, 98, 99], [97]];
      !NoLoss(dels) && !Conserves(Config(dels, maxSize), Events([97, 98]) + [Gap])
  {
    var dels: seq<Bytes> := [[97, 98, 99], [97]];
    var w: Bytes := [97, 98];
    assert w[..1] == [97] && w[..2] == w && dels[0][..2] == w;
    assert FirstHit(dels, [97]) == 0 && FirstHit(dels, w) == 0;
    assert Waiting(dels, w);
    assert FirstFull(dels, w) == 1;
    LossHappens(Config(dels, maxSize), w);
  }

  /** A simple sufficient condition: a delimiter that is the beginning of
      another one is at most one byte shorter. */
  lemma CloseDelimitersLoseNothing(dels: seq<Bytes>)
    requires forall i, j :: 0 <= i < |dels| && 0 <= j < |dels| && dels[j] < dels[i] ==>
               dels[j] == [] || |dels[i]| == |dels[j]| + 1
    ensures NoLoss(dels)
  {
    forall i, k | 0 <= i < |dels| && 1 <= k < |dels[i]| && Waiting(dels, dels[i][..k])
      ensures BestMatch(dels, dels[i][..k]) <= 0 || BestMatch(dels, dels[i][..k]) == k
    {
      var w := dels[i][..k];
      var j := FirstFull(dels, w);
      if j < |dels| {
        assert dels[j] <= w < dels[i];
      }
    }
  }
}
