// When a packet ends: a delimiter that could still become a longer one is settled
// by a read that times out or by the next byte, and an over-long packet is dropped.

/** Delimiters that begin longer ones, and the end of discarding. */
module PacketEndings {
  import opened Basics
  import opened Delimiters
  import opened PacketParser
  import opened PacketStreams

  /** The delimiter is complete but listed behind a longer one that it begins. */
  predicate Ambiguous(dels: seq<Bytes>, d: Bytes) {
    d != [] && Waiting(dels, d) && BestMatch(dels, d) == |d|
  }

  /** No listed delimiter begins with `w`. */
  predicate Unlisted(dels: seq<Bytes>, w: Bytes) {
    forall i :: 0 <= i < |dels| ==> !(w <= dels[i])
  }

  /** Such a delimiter is settled by a gap, and by a byte that continues it into no
      longer one: it ends the packet, and the byte is the next packet's first. */
  predicate Settles(dels: seq<Bytes>, d: Bytes, e: Event) {
    e.Byte? ==> Unlisted(dels, d + [e.b])
  }

  lemma BeginsSnoc(e: Bytes, d: Bytes, b: byte)
    ensures e <= d + [b] ==> e == d + [b] || e <= d
  {
  }

  lemma PushBackFinds(dels: seq<Bytes>, d: Bytes, b: byte)
    requires Ambiguous(dels, d) && Unlisted(dels, d + [b])
    ensures Match(dels, d + [b]) == |d| && (d + [b])[..|d|] == d
  {
    var i := FirstFull(dels, d);
    forall j | 0 <= j < i ensures !Hits(dels[j], d + [b]) {
      BeginsSnoc(dels[j], d, b);
    }
    assert dels[i] <= d + [b];
    FirstHitIs(dels, d + [b], i);
  }

  lemma SettledDelivers(c: Config, p: Parser, d: Bytes, e: Event)
    requires Ambiguous(c.dels, d) && Settles(c.dels, d, e) && p.window == d && !p.discard
    ensures Step(c, p, e) ==
            Step(c, Parser(p.out + [Packet(p.payload, d)], [], [], false), e)
  {
    match e
    case Byte(b) => PushBackFinds(c.dels, d, b);
    case Gap =>
      assert d[..|d|] == d;
  }

  /** So the parser may as well have delivered before. */
  lemma SettledStream(c: Config, p: Parser, d: Bytes, es: seq<Event>)
    requires Ambiguous(c.dels, d) && p.window == d && !p.discard
    requires es != [] && Settles(c.dels, d, es[0])
    ensures
      var q := Parser(p.out + [Packet(p.payload, d)], [], [], false);
      && Parse(c, p, es) == Parse(c, q, es)
      && (Clean(c, p, es) <==> Clean(c, q, es))
  {
    SettledDelivers(c, p, d, es[0]);
  }

  // ----- any stream, one token at a time -----

  /** The k-th event ends what the first k - 1 have left waiting: a byte by no longer
      being the beginning of a delimiter, a gap by finding a complete one. */
  predicate EndsAt(dels: seq<Bytes>, es: seq<Event>, k: nat)
    requires 1 <= k <= |es|
  {
    var v := BytesOf(es[..k - 1]);
    match es[k - 1]
    case Byte(b) => Match(dels, v + [b]) >= 0
    case Gap => BestMatch(dels, v) > 0
  }

  lemma {:induction false} StillWaits(c: Config, p: Parser, es: seq<Event>)
    requires p.window == []
    requires forall k :: 1 <= k <= |es| ==> !EndsAt(c.dels, es, k)
    ensures Parse(c, p, es) == p.(window := BytesOf(es))
    decreases |es|
  {
    if es != [] {
      var front, e := es[..|es| - 1], es[|es| - 1];
      forall k | 1 <= k <= |front| ensures !EndsAt(c.dels, front, k) {
        assert front[..k - 1] == es[..k - 1];
        assert !EndsAt(c.dels, es, k);
      }
      StillWaits(c, p, front);
      assert es == front + [e] && !EndsAt(c.dels, es, |es|);
      ParseAppend(c, p, front, [e]);
      ParseOne(c, p.(window := BytesOf(front)), e);
      BytesOfAppend(front, [e]);
      assert BytesOf([e]) == EventBytes(e);
    }
  }

  /** What a stream means, without a window: up to the first event that ends the
      waiting, the bytes are one piece of payload, or a delimiter that ends the
      packet; a byte beyond that delimiter is read again. */
  lemma TokenAtATime(c: Config, p: Parser, es: seq<Event>, k: nat)
    requires p.window == [] && !p.discard && 1 <= k <= |es| && EndsAt(c.dels, es, k)
    requires forall i :: 1 <= i < k ==> !EndsAt(c.dels, es, i)
    ensures
      var v, w := BytesOf(es[..k - 1]), BytesOf(es[..k]);
      var m := if es[k - 1].Gap? then BestMatch(c.dels, v) else Match(c.dels, w);
      && 0 <= m <= |w|
      && Parse(c, p, es) ==
         if m > 0 then
           Parse(c, Parser(p.out + [Packet(p.payload, w[..m])], [], [], false),
             if es[k - 1].Byte? && m < |w| then es[k - 1..] else es[k..])
         else if |p.payload + w| <= c.maxSize then Parse(c, p.(payload := p.payload + w), es[k..])
         else Parse(c, p.(payload := [], discard := true), es[k..])
  {
    var front, e, back := es[..k - 1], es[k - 1], es[k..];
    var q := p.(window := BytesOf(front));
    forall i | 1 <= i <= |front| ensures !EndsAt(c.dels, front, i) {
      assert front[..i - 1] == es[..i - 1];
      assert !EndsAt(c.dels, es, i);
    }
    StillWaits(c, p, front);
    assert es == front + es[k - 1..] && es[k - 1..] == [e] + back && es[..k] == front + [e];
    ParseAppend(c, p, front, [e] + back);
    ParseAppend(c, q, [e], back);
    ParseOne(c, q, e);
    BytesOfAppend(front, [e]);
    assert BytesOf([e]) == EventBytes(e);
    FoundFits(c.dels, BytesOf(front), e);
    OneToken(c, q, e, back);
  }

  lemma FoundFits(dels: seq<Bytes>, v: Bytes, e: Event)
    ensures
      var m := if e.Gap? then BestMatch(dels, v) else Match(dels, v + EventBytes(e));
      m <= |v + EventBytes(e)|
  {
  }

  lemma ByteToken(c: Config, q: Parser, b: byte)
    requires !q.discard && Match(c.dels, q.window + [b]) >= 0
    ensures
      var w := q.window + [b];
      var m := Match(c.dels, w);
      && m <= |w|
      && Feed(c, q, b) ==
         if m == 0 then
           if |q.payload + w| <= c.maxSize then q.(payload := q.payload + w, window := [])
           else q.(payload := [], window := [], discard := true)
         else
           var r := Parser(q.out + [Packet(q.payload, w[..m])], [], [], false);
           if m < |w| then Feed(c, r, b) else r
  {
    FoundFits(c.dels, q.window, Byte(b));
    assert (q.window + [b])[..|q.window| + 1] == q.window + [b];
  }

  lemma OneToken(c: Config, q: Parser, e: Event, back: seq<Event>)
    requires !q.discard
    requires if e.Gap? then BestMatch(c.dels, q.window) > 0 else Match(c.dels, q.window + [e.b]) >= 0
    ensures
      var w := q.window + EventBytes(e);
      var m := if e.Gap? then BestMatch(c.dels, q.window) else Match(c.dels, w);
      && 0 <= m <= |w|
      && Parse(c, q, [e] + back) ==
         if m > 0 then
           Parse(c, Parser(q.out + [Packet(q.payload, w[..m])], [], [], false),
             if e.Byte? && m < |w| then [e] + back else back)
         else if |q.payload + w| <= c.maxSize then Parse(c, q.(payload := q.payload + w, window := []), back)
         else Parse(c, q.(payload := [], window := [], discard := true), back)
  {
    FoundFits(c.dels, q.window, e);
    ParseFront(c, q, e, back);
    if e.Byte? {
      ByteToken(c, q, e.b);
      var w := q.window + [e.b];
      var m := Match(c.dels, w);
      ParseFront(c, Parser(q.out + [Packet(q.payload, w[..m])], [], [], false), e, back);
    } else {
      EmptyAppend(q.window);
    }
  }

  lemma ParseFront(c: Config, q: Parser, e: Event, back: seq<Event>)
    ensures Parse(c, q, [e] + back) == Parse(c, Step(c, q, e), back)
  {
    assert ([e] + back)[1..] == back;
  }

  // ----- round trip with such a delimiter -----

  /** A written packet, and whether the line falls silent after it. */
  datatype Frame = Frame(payload: Bytes, silence: bool)

  function FrameEvents(f: Frame, tx: Bytes): seq<Event> {
    Events(f.payload + tx) + if f.silence then [Gap] else []
  }

  function Line(frames: seq<Frame>, tx: Bytes): seq<Event> {
    if frames == [] then [] else FrameEvents(frames[0], tx) + Line(frames[1..], tx)
  }

  function FramePayloads(frames: seq<Frame>): seq<Bytes> {
    if frames == [] then [] else [frames[0].payload] + FramePayloads(frames[1..])
  }

  /** After every packet there is silence, or the next payload begins with a byte
      that does not continue the delimiter into a longer one. */
  predicate Separated(dels: seq<Bytes>, frames: seq<Frame>, tx: Bytes) {
    frames == [] ||
    (Separated(dels, frames[1..], tx) &&
     (frames[0].silence ||
      (|frames| > 1 && frames[1].payload != [] && Unlisted(dels, tx + [frames[1].payload[0]]))))
  }

  lemma AbsorbAndWait(c: Config, p: Parser, x: Bytes, tx: Bytes)
    requires Between(p) && Plain(c.dels, x) && |x| <= c.maxSize && Waiting(c.dels, tx)
    ensures Parse(c, p, Events(x + tx)) == Parser(p.out, x, tx, false)
    ensures Clean(c, p, Events(x + tx))
  {
    PlainIsAbsorbed(c, p, x);
    EmptyAppend(x);
    EmptyAppend(tx);
    FeedWaiting(c, p.(payload := x), tx);
    ParseBytesAppend(c, p, x, tx);
  }

  /** What comes after the delimiter of the first packet. */
  lemma NextSettles(dels: seq<Bytes>, frames: seq<Frame>, tx: Bytes)
    requires frames != [] && Separated(dels, frames, tx)
    ensures
      var es := (if frames[0].silence then [Gap] else []) + Line(frames[1..], tx);
      es != [] && Settles(dels, tx, es[0])
  {
    if !frames[0].silence {
      var y := frames[1].payload;
      assert FrameEvents(frames[1], tx)[0] == Byte(y[0]);
    }
  }

  lemma OneFrame(c: Config, p: Parser, f: Frame, tx: Bytes, rest: seq<Event>)
    requires Ambiguous(c.dels, tx) && Between(p)
    requires |f.payload| <= c.maxSize && Plain(c.dels, f.payload)
    requires
      var es := (if f.silence then [Gap] else []) + rest;
      es != [] && Settles(c.dels, tx, es[0])
    ensures
      var q := p.(out := p.out + [Packet(f.payload, tx)]);
      && Parse(c, p, FrameEvents(f, tx) + rest) == Parse(c, q, rest)
      && (Clean(c, p, FrameEvents(f, tx) + rest) <==> Clean(c, q, rest))
  {
    var x, gap := f.payload, if f.silence then [Gap] else [];
    var q := p.(out := p.out + [Packet(x, tx)]);
    AbsorbAndWait(c, p, x, tx);
    AppendAssoc(Events(x + tx), gap, rest);
    ParseAppend(c, p, Events(x + tx), gap + rest);
    SettledStream(c, Parser(p.out, x, tx, false), tx, gap + rest);
    ParseAppend(c, q, gap, rest);
    if f.silence { ParseOne(c, q, Gap); }
  }

  /** A delimiter that begins a longer listed one still ends every packet, if it is
      settled before the next one: what was written is delivered, nothing is left. */
  lemma {:induction false} AmbiguousRoundTrip(c: Config, p: Parser, frames: seq<Frame>, tx: Bytes)
    requires Ambiguous(c.dels, tx) && Between(p) && Separated(c.dels, frames, tx)
    requires forall f :: f in frames ==> |f.payload| <= c.maxSize && Plain(c.dels, f.payload)
    ensures Parse(c, p, Line(frames, tx)) == p.(out := p.out + Packets(FramePayloads(frames), tx))
    ensures Clean(c, p, Line(frames, tx))
    decreases |frames|
  {
    if frames == [] {
      assert p.out + Packets([], tx) == p.out;
    } else {
      var f, rest := frames[0], frames[1..];
      assert f in frames;
      NextSettles(c.dels, frames, tx);
      OneFrame(c, p, f, tx, Line(rest, tx));
      AmbiguousRoundTrip(c, p.(out := p.out + [Packet(f.payload, tx)]), rest, tx);
      var payloads := FramePayloads(frames);
      assert payloads[1..] == FramePayloads(rest);
      PacketsCons(payloads, tx);
      AppendAssoc(p.out, [Packet(f.payload, tx)], Packets(FramePayloads(rest), tx));
    }
  }

  /** The bytes on the line are the framed payloads. */
  lemma {:induction false} LineBytes(frames: seq<Frame>, tx: Bytes)
    ensures BytesOf(Line(frames, tx)) == Framed(FramePayloads(frames), tx)
  {
    if frames != [] {
      var x, gap := frames[0].payload, if frames[0].silence then [Gap] else [];
      var payloads := FramePayloads(frames);
      BytesOfAppend(FrameEvents(frames[0], tx), Line(frames[1..], tx));
      BytesOfAppend(Events(x + tx), gap);
      BytesOfEvents(x + tx);
      assert BytesOf(gap) == [] && x + tx + [] == x + tx;
      LineBytes(frames[1..], tx);
      assert payloads[1..] == FramePayloads(frames[1..]);
    }
  }

  /** In particular a read that times out hands over a payload of any length with
      the delimiter that is waiting behind it. */
  lemma GapDelivers(c: Config, x: Bytes, d: Bytes)
    requires Ambiguous(c.dels, d) && Plain(c.dels, x) && |x| <= c.maxSize
    ensures Parse(c, START, Events(x + d) + [Gap]) == Parser([Packet(x, d)], [], [], false)
  {
    AbsorbAndWait(c, START, x, d);
    ParseAppend(c, START, Events(x + d), [Gap]);
    SettledStream(c, Parser([], x, d, false), d, [Gap]);
    var q := Parser([] + [Packet(x, d)], [], [], false);
    ParseOne(c, q, Gap);
  }

  // ----- the end of discarding -----

  /** The packet that was too long is dropped whole: while the parser discards, and
      when it stops, it hands over nothing, except that a byte pushed back may be
      a delimiter of its own, which ends an empty packet. */
  lemma {:induction false} OverlongIsDropped(c: Config, p: Parser, es: seq<Event>)
    requires p.discard && c.maxSize > 0
    requires forall k :: 0 <= k < |es| ==> Parse(c, p, es[..k]).discard
    ensures
      var q := Parse(c, p, es);
      && (q.discard ==> q.out == p.out)
      && (q.out == p.out || exists b: byte :: [b] in c.dels && q.out == p.out + [Packet([], [b])])
    decreases |es|
  {
    if es != [] {
      var q := Step(c, p, es[0]);
      OneIsDropped(c, p, es[0]);
      if |es| > 1 {
        assert es[..1] == [es[0]] && Parse(c, p, es[..1]) == q;
        forall k | 0 <= k < |es[1..]| ensures Parse(c, q, es[1..][..k]).discard {
          assert es[..k + 1] == [es[0]] + es[1..][..k];
          ParseAppend(c, p, [es[0]], es[1..][..k]);
        }
        OverlongIsDropped(c, q, es[1..]);
      }
    }
  }

  lemma OneIsDropped(c: Config, p: Parser, e: Event)
    requires p.discard && c.maxSize > 0
    ensures
      var q := Step(c, p, e);
      && (q.discard ==> q.out == p.out)
      && (q.out == p.out || exists b: byte :: [b] in c.dels && q.out == p.out + [Packet([], [b])])
  {
    if e.Byte? && Match(c.dels, p.window + [e.b]) > 0 { FreshByte(c, p.out, e.b); }
  }

  /** A byte right after a reset. */
  lemma FreshByte(c: Config, out: seq<Packet>, b: byte)
    requires c.maxSize > 0
    ensures
      var q := Feed(c, Parser(out, [], [], false), b);
      !q.discard && (q.out == out || ([b] in c.dels && q.out == out + [Packet([], [b])]))
  {
    var w: Bytes := [b];
    PushedBackOnce(c.dels, b);
    assert [] + w == w;
    if Match(c.dels, w) > 0 {
      var i := FirstHit(c.dels, w);
      assert c.dels[i] == w && w in c.dels;
    }
  }
}
