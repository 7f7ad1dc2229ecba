// Whether a packet is delivered as soon as its delimiter has arrived.

/** Exactly which delimiter lists overlook a delimiter that has arrived. */
module PacketPromptness {
  import opened Basics
  import opened Delimiters
  import opened PacketParser
  import opened PacketStreams

  predicate EndsWith(s: Bytes, d: Bytes) {
    |d| <= |s| && s[|s| - |d|..] == d
  }

  /** A complete listed delimiter stands at the end. */
  predicate Standing(dels: seq<Bytes>, s: Bytes) {
    exists j :: 0 <= j < |dels| && dels[j] != [] && EndsWith(s, dels[j])
  }

  /** The bytes received since the last delivery. */
  function Pending(p: Parser): Bytes {
    p.payload + p.window
  }

  /** After every stream of bytes and gaps without over-long packets, no complete
      delimiter is left standing at the end of what is pending. */
  ghost predicate Prompt(c: Config) {
    forall es :: Clean(c, START, es) ==> !Standing(c.dels, Pending(Parse(c, START, es)))
  }

  // ----- the windows of a parser that delivers nothing -----

  function QuietStep(dels: seq<Bytes>, w: Bytes, b: byte): Option<Bytes> {
    var m := Match(dels, w + [b]);
    if m > 0 then None else if m < 0 then Some(w + [b]) else Some([])
  }

  /** The window after these bytes, None if something is delivered on the way. */
  function Quiet(dels: seq<Bytes>, w: Bytes, bs: Bytes): Option<Bytes>
    decreases |bs|
  {
    if bs == [] then Some(w)
    else
      var v := QuietStep(dels, w, bs[0]);
      if v.None? then None else Quiet(dels, v.value, bs[1..])
  }

  lemma {:induction false} QuietSnoc(dels: seq<Bytes>, w: Bytes, bs: Bytes, b: byte)
    ensures
      var v := Quiet(dels, w, bs);
      Quiet(dels, w, bs + [b]) == if v.None? then None else QuietStep(dels, v.value, b)
    decreases |bs|
  {
    if bs == [] {
      assert [b][1..] == [] && bs + [b] == [b];
    } else {
      assert (bs + [b])[1..] == bs[1..] + [b];
      var v := QuietStep(dels, w, bs[0]);
      if v.Some? { QuietSnoc(dels, v.value, bs[1..], b); }
    }
  }

  lemma {:induction false} QuietIsShort(dels: seq<Bytes>, w: Bytes, bs: Bytes)
    ensures Quiet(dels, w, bs).Some? ==> |Quiet(dels, w, bs).value| <= |w| + |bs|
    decreases |bs|
  {
    if bs != [] {
      var v := QuietStep(dels, w, bs[0]);
      if v.Some? { QuietIsShort(dels, v.value, bs[1..]); }
    }
  }

  lemma FeedQuiet(c: Config, p: Parser, b: byte)
    requires !p.discard && QuietStep(c.dels, p.window, b).Some?
    requires QuietStep(c.dels, p.window, b) == Some([]) ==> |Pending(p)| + 1 <= c.maxSize
    ensures
      var q := Feed(c, p, b);
      && q.window == QuietStep(c.dels, p.window, b).value && !q.discard
      && Pending(q) == Pending(p) + [b]
  {
    AppendAssoc(p.payload, p.window, [b]);
  }

  /** If no delimiter is found, and there is room for what goes into the payload,
      everything stays pending. */
  lemma {:induction false} ParseQuiet(c: Config, p: Parser, bs: Bytes)
    requires !p.discard && Quiet(c.dels, p.window, bs).Some?
    requires |Pending(p)| + |bs| - |Quiet(c.dels, p.window, bs).value| <= c.maxSize
    ensures Clean(c, p, Events(bs))
    ensures Pending(Parse(c, p, Events(bs))) == Pending(p) + bs
    decreases |bs|
  {
    if bs == [] {
      EmptyAppend(Pending(p));
    } else {
      var q := Feed(c, p, bs[0]);
      QuietIsShort(c.dels, QuietStep(c.dels, p.window, bs[0]).value, bs[1..]);
      FeedQuiet(c, p, bs[0]);
      ParseQuiet(c, q, bs[1..]);
      ParseFirst(c, p, bs);
      HeadTail(Pending(p), bs);
    }
  }

  lemma HeadTail(a: Bytes, bs: Bytes)
    requires bs != []
    ensures a + [bs[0]] + bs[1..] == a + bs
  {
  }

  // ----- the condition -----

  /** From some position on, the failed window begins a listed delimiter, and the
      rest of that delimiter goes by without a delivery. */
  predicate Swallows(dels: seq<Bytes>, room: nat, failed: Bytes) {
    exists j, n :: 0 <= j < |dels| && 0 <= n < |failed| && SwallowsAt(dels, room, failed, j, n)
  }

  /** `n + |dels[j]|` bytes are pending then, all but the window in the payload. */
  predicate SwallowsAt(dels: seq<Bytes>, room: nat, failed: Bytes, j: nat, n: nat)
    requires j < |dels| && n < |failed|
  {
    && failed[n..] <= dels[j]
    && var v := Quiet(dels, [], dels[j][|failed| - n..]);
       v.Some? && n + |dels[j]| - |v.value| <= room
  }

  predicate FailsWell(dels: seq<Bytes>, room: nat, w: Bytes) {
    forall b: byte :: Match(dels, w + [b]) == 0 ==> !Swallows(dels, room, w + [b])
  }

  predicate WaitsWell(dels: seq<Bytes>, room: nat, w: Bytes) {
    !Standing(dels, w) && FailsWell(dels, room, w)
  }

  /** A condition on the delimiter list and the packet size, about the finitely
      many beginnings of listed delimiters. */
  predicate Seamless(dels: seq<Bytes>, room: nat) {
    forall i, k :: 0 <= i < |dels| && 0 <= k < |dels[i]| && Waiting(dels, dels[i][..k]) ==>
      WaitsWell(dels, room, dels[i][..k])
  }

  /** These are all the windows that can wait. */
  lemma SeamlessIsAll(dels: seq<Bytes>, room: nat)
    ensures Seamless(dels, room) <==> forall w :: Waiting(dels, w) ==> WaitsWell(dels, room, w)
  {
    if Seamless(dels, room) {
      forall w | Waiting(dels, w) ensures WaitsWell(dels, room, w) {
        if w != [] {
          WaitingIsShort(dels, w);
          var i :| 0 <= i < |dels| && w < dels[i];
          assert dels[i][..|w|] == w;
        } else {
          forall i | 0 <= i < |dels| && dels[i] != [] ensures WaitsWell(dels, room, w) {
            assert dels[i][..0] == w;
          }
        }
      }
    }
  }

  lemma SeamlessHere(dels: seq<Bytes>, room: nat, w: Bytes)
    requires Seamless(dels, room) && Waiting(dels, w)
    ensures !Standing(dels, w) && FailsWell(dels, room, w)
  {
    SeamlessIsAll(dels, room);
    assert WaitsWell(dels, room, w);
  }

  // ----- lists that meet it -----

  /** A listed delimiter that begins inside the payload will have been followed by
      a delivery, or by an over-long packet, before its end: `e` is where its
      first window ended. */
  predicate CoveredAt(dels: seq<Bytes>, room: nat, p: Parser, j: nat, i: nat, e: nat)
    requires j < |dels| && i < e <= |p.payload|
  {
    && e - i <= |dels[j]|
    && (var v := Quiet(dels, [], dels[j][e - i..]);
        v.Some? ==> i + |dels[j]| - |v.value| > room)
    && Quiet(dels, [], Pending(p)[e..]) == Some(p.window)
  }

  predicate Begins(dels: seq<Bytes>, p: Parser, j: nat, i: nat)
    requires j < |dels| && i <= |p.payload|
  {
    Pending(p)[i..] <= dels[j]
  }

  predicate Covered(c: Config, p: Parser) {
    && Good(c, p)
    && forall j, i :: 0 <= j < |c.dels| && 0 <= i < |p.payload| && Begins(c.dels, p, j, i) ==>
         exists e :: i < e <= |p.payload| && CoveredAt(c.dels, c.maxSize, p, j, i, e)
  }

  /** Under the condition no byte is pushed back. */
  lemma WholeWindowMatches(dels: seq<Bytes>, room: nat, w: Bytes, b: byte)
    requires Seamless(dels, room) && Waiting(dels, w)
    ensures Match(dels, w + [b]) <= 0 || Match(dels, w + [b]) == |w| + 1
  {
    var m := Match(dels, w + [b]);
    if 0 < m {
      var f := FirstHit(dels, w + [b]);
      assert dels[f] <= w + [b] && |dels[f]| == m;
      if m <= |w| {
        CompletePrefixStands(dels, w, f, b);
        SeamlessHere(dels, room, dels[f]);
      }
    }
  }

  /** Nor is a complete delimiter waiting to become a longer one. */
  lemma SeamlessIgnoresGaps(dels: seq<Bytes>, room: nat)
    requires Seamless(dels, room)
    ensures NothingCompleteWaits(dels)
  {
    forall i, k | 0 <= i < |dels| && 1 <= k < |dels[i]| && Waiting(dels, dels[i][..k])
      ensures BestMatch(dels, dels[i][..k]) <= 0
    {
      var w := dels[i][..k];
      var f := FirstFull(dels, w);
      if BestMatch(dels, w) > 0 {
        assert dels[f] <= w + [0];
        CompletePrefixStands(dels, w, f, 0);
        SeamlessHere(dels, room, dels[f]);
      }
    }
  }

  lemma CompletePrefixStands(dels: seq<Bytes>, w: Bytes, f: nat, b: byte)
    requires Waiting(dels, w) && f < |dels| && dels[f] <= w + [b] && 0 < |dels[f]| <= |w|
    ensures Waiting(dels, dels[f]) && Standing(dels, dels[f])
  {
    var v := w[..|dels[f]|];
    assert v == dels[f] && v[0..] == v;
    forall k | 1 <= k <= |v| ensures Match(dels, v[..k]) < 0 {
      assert v[..k] == w[..k];
    }
    assert EndsWith(dels[f], dels[f]);
  }

  lemma FeedCovers(c: Config, p: Parser, b: byte)
    requires Seamless(c.dels, c.maxSize) && Covered(c, p) && !Feed(c, p, b).discard
    ensures Covered(c, Feed(c, p, b))
  {
    var q := Feed(c, p, b);
    var x := p.window + [b];
    FeedKeepsGood(c, p, b);
    WholeWindowMatches(c.dels, c.maxSize, p.window, b);
    if Match(c.dels, x) <= 0 {
      AppendAssoc(p.payload, p.window, [b]);
      assert Pending(q) == Pending(p) + [b];
      forall j, i | 0 <= j < |c.dels| && 0 <= i < |q.payload| && Begins(c.dels, q, j, i)
        ensures exists e :: i < e <= |q.payload| && CoveredAt(c.dels, c.maxSize, q, j, i, e)
      {
        if i < |p.payload| {
          CoverLonger(c, p, q, b, j, i);
        } else {
          CoverFailed(c, p, q, b, j, i);
        }
      }
    }
  }

  lemma CoverLonger(c: Config, p: Parser, q: Parser, b: byte, j: nat, i: nat)
    requires Covered(c, p) && j < |c.dels| && i < |p.payload| <= |q.payload|
    requires Pending(q) == Pending(p) + [b] && QuietStep(c.dels, p.window, b) == Some(q.window)
    requires Begins(c.dels, q, j, i)
    ensures exists e :: i < e <= |q.payload| && CoveredAt(c.dels, c.maxSize, q, j, i, e)
  {
    assert Pending(q)[i..] == Pending(p)[i..] + [b];
    assert Begins(c.dels, p, j, i);
    var e :| i < e <= |p.payload| && CoveredAt(c.dels, c.maxSize, p, j, i, e);
    assert Pending(q)[e..] == Pending(p)[e..] + [b];
    QuietSnoc(c.dels, [], Pending(p)[e..], b);
    assert CoveredAt(c.dels, c.maxSize, q, j, i, e);
  }

  lemma NotSwallowed(dels: seq<Bytes>, room: nat, w: Bytes, b: byte, j: nat, n: nat)
    requires Seamless(dels, room) && Waiting(dels, w) && Match(dels, w + [b]) == 0
    requires j < |dels| && n < |w + [b]|
    ensures !SwallowsAt(dels, room, w + [b], j, n)
  {
    SeamlessHere(dels, room, w);
    assert !Swallows(dels, room, w + [b]);
  }

  lemma CoverFailed(c: Config, p: Parser, q: Parser, b: byte, j: nat, i: nat)
    requires Seamless(c.dels, c.maxSize) && Waiting(c.dels, p.window) && Match(c.dels, p.window + [b]) == 0
    requires q.window == [] && q.payload == p.payload + (p.window + [b])
    requires j < |c.dels| && |p.payload| <= i < |q.payload| && Begins(c.dels, q, j, i)
    ensures exists e :: i < e <= |q.payload| && CoveredAt(c.dels, c.maxSize, q, j, i, e)
  {
    EmptyAppend(q.payload);
    AppendSuffix(p.payload, p.window + [b], i);
    NotSwallowed(c.dels, c.maxSize, p.window, b, j, i - |p.payload|);
    assert CoveredAt(c.dels, c.maxSize, q, j, i, |q.payload|);
  }

  lemma AppendSuffix(a: Bytes, x: Bytes, i: nat)
    requires |a| <= i <= |a + x|
    ensures (a + x)[i..] == x[i - |a|..]
  {
  }

  lemma {:induction false} ParseCovers(c: Config, p: Parser, bs: Bytes)
    requires Seamless(c.dels, c.maxSize) && Covered(c, p) && Clean(c, p, Events(bs))
    ensures Covered(c, Parse(c, p, Events(bs)))
    decreases |bs|
  {
    if bs != [] {
      ParseFirst(c, p, bs);
      FeedCovers(c, p, bs[0]);
      ParseCovers(c, Feed(c, p, bs[0]), bs[1..]);
    }
  }

  lemma OnlyBegins(c: Config, p: Parser, j: nat, i: nat)
    requires Covered(c, p) && j < |c.dels| && i < |p.payload| && Begins(c.dels, p, j, i)
    ensures Pending(p)[i..] != c.dels[j]
  {
    var e :| i < e <= |p.payload| && CoveredAt(c.dels, c.maxSize, p, j, i, e);
    assert Pending(p)[e..] == Pending(p)[i..][e - i..];
  }

  lemma EndsInWindow(p: Parser, d: Bytes)
    requires |d| <= |p.window|
    ensures EndsWith(Pending(p), d) <==> EndsWith(p.window, d)
  {
    assert Pending(p)[|Pending(p)| - |d|..] == p.window[|p.window| - |d|..];
  }

  lemma CoveredIsPrompt(c: Config, p: Parser)
    requires Seamless(c.dels, c.maxSize) && Covered(c, p)
    ensures !Standing(c.dels, Pending(p))
  {
    var s := Pending(p);
    SeamlessHere(c.dels, c.maxSize, p.window);
    forall j | 0 <= j < |c.dels| && c.dels[j] != [] ensures !EndsWith(s, c.dels[j]) {
      var d := c.dels[j];
      if |d| <= |p.window| {
        EndsInWindow(p, d);
      } else if |d| <= |s| {
        var i := |s| - |d|;
        if Begins(c.dels, p, j, i) { OnlyBegins(c, p, j, i); }
      }
    }
  }

  // ----- lists that do not -----

  lemma StandingWaits(c: Config, w: Bytes)
    requires Waiting(c.dels, w) && Standing(c.dels, w)
    ensures !Prompt(c)
  {
    assert START.window + w == w;
    FeedWaiting(c, START, w);
    assert Pending(START.(window := w)) == w;
  }

  lemma FailedIsPayload(c: Config, w: Bytes, b: byte)
    requires Waiting(c.dels, w) && Match(c.dels, w + [b]) == 0 && |w| + 1 <= c.maxSize
    ensures Parse(c, START, Events(w + [b])) == Parser([], w + [b], [], false)
    ensures Clean(c, START, Events(w + [b]))
  {
    assert START.window + w == w && [] + (w + [b]) == w + [b];
    FeedWaiting(c, START, w);
    ParseBytesAppend(c, START, w, [b]);
    ParseFirst(c, START.(window := w), [b]);
  }

  lemma EndsAfter(x: Bytes, n: nat, d: Bytes)
    requires n < |x| && x[n..] <= d
    ensures EndsWith(x + d[|x| - n..], d)
  {
    var s := x + d[|x| - n..];
    assert s[|s| - |d|..] == x[n..] + d[|x| - n..] == d;
  }

  /** The window that fails, then the rest of the delimiter it swallows. */
  lemma SwallowedIsOverlooked(c: Config, w: Bytes, b: byte, j: nat, n: nat)
    requires Waiting(c.dels, w) && Match(c.dels, w + [b]) == 0
    requires j < |c.dels| && n < |w + [b]| && SwallowsAt(c.dels, c.maxSize, w + [b], j, n)
    ensures !Prompt(c)
  {
    var x, d := w + [b], c.dels[j];
    var rest := d[|x| - n..];
    QuietIsShort(c.dels, [], rest);
    FailedIsPayload(c, w, b);
    var p := Parser([], x, [], false);
    assert Pending(p) == x;
    ParseQuiet(c, p, rest);
    ParseBytesAppend(c, START, x, rest);
    EndsAfter(x, n, d);
    assert Standing(c.dels, x + rest);
    assert Clean(c, START, Events(x + rest));
  }

  /** A delimiter is delivered as soon as it has arrived, in every stream without
      over-long packets, exactly if the list meets the condition. */
  lemma PromptExactly(c: Config)
    ensures Prompt(c) <==> Seamless(c.dels, c.maxSize)
  {
    if Seamless(c.dels, c.maxSize) {
      SeamlessIgnoresGaps(c.dels, c.maxSize);
      forall es | Clean(c, START, es) ensures !Standing(c.dels, Pending(Parse(c, START, es))) {
        GapsIgnored(c, START, es);
        ParseCovers(c, START, BytesOf(es));
        CoveredIsPrompt(c, Parse(c, START, es));
      }
    } else {
      var i, k :| 0 <= i < |c.dels| && 0 <= k < |c.dels[i]| && Waiting(c.dels, c.dels[i][..k]) &&
        !WaitsWell(c.dels, c.maxSize, c.dels[i][..k]);
      var w := c.dels[i][..k];
      if Standing(c.dels, w) {
        StandingWaits(c, w);
      } else {
        var b: byte :| Match(c.dels, w + [b]) == 0 && Swallows(c.dels, c.maxSize, w + [b]);
        var j, n :| 0 <= j < |c.dels| && 0 <= n < |w + [b]| && SwallowsAt(c.dels, c.maxSize, w + [b], j, n);
        SwallowedIsOverlooked(c, w, b, j, n);
      }
    }
  }

  // ----- the packet size -----

  lemma RoomMatters(dels: seq<Bytes>, room: nat, more: nat)
    requires Seamless(dels, room) && (more <= room || 2 * LongestOf(dels) <= room + 1)
    ensures Seamless(dels, more)
  {
    forall i, k | 0 <= i < |dels| && 0 <= k < |dels[i]| && Waiting(dels, dels[i][..k])
      ensures WaitsWell(dels, more, dels[i][..k])
    {
      var w := dels[i][..k];
      assert dels[i] in dels;
      forall b: byte, j, n | Match(dels, w + [b]) == 0 && 0 <= j < |dels| && 0 <= n < |w + [b]|
        ensures !SwallowsAt(dels, more, w + [b], j, n)
      {
        assert dels[j] in dels && !Swallows(dels, room, w + [b]);
        assert !SwallowsAt(dels, room, w + [b], j, n);
      }
    }
  }

  /** With room for two delimiters, less one byte, in a packet the delimiter list
      alone decides: what is never overlooked here is overlooked at no packet size. */
  lemma ListDecides(c: Config)
    requires 2 * LongestOf(c.dels) <= c.maxSize + 1
    ensures Prompt(c) <==> forall size :: Prompt(Config(c.dels, size))
  {
    if Prompt(c) {
      forall size ensures Prompt(Config(c.dels, size)) {
        PromptExactly(c);
        RoomMatters(c.dels, c.maxSize, size);
        PromptExactly(Config(c.dels, size));
      }
    }
    assert c == Config(c.dels, c.maxSize);
  }

  // ----- a single delimiter -----

  predicate OneValue(d: Bytes) {
    forall i :: 0 <= i < |d| ==> d[i] == d[0]
  }

  lemma SingleMatch(d: Bytes, w: Bytes)
    requires d != [] && w != []
    ensures Match([d], w) == if d <= w then |d| else if w <= d then -|w| else 0
  {
    assert FirstHit([d], w) == if Hits(d, w) then 0 else 1;
  }

  /** Fewer bytes than the delimiter has cannot complete it. */
  lemma {:induction false} TooShort(d: Bytes, w: Bytes, bs: Bytes)
    requires d != [] && |w| + |bs| < |d|
    ensures Quiet([d], w, bs).Some?
    decreases |bs|
  {
    if bs != [] {
      SingleMatch(d, w + [bs[0]]);
      TooShort(d, QuietStep([d], w, bs[0]).value, bs[1..]);
    }
  }

  lemma SingleWaiting(d: Bytes, w: Bytes)
    requires d != []
    ensures Waiting([d], w) <==> w < d
  {
    forall k | 1 <= k <= |w| ensures w < d ==> Match([d], w[..k]) < 0 {
      SingleMatch(d, w[..k]);
    }
    if w != [] && Waiting([d], w) {
      assert w[..|w|] == w;
      SingleMatch(d, w);
    }
  }

  lemma RunGrows(d: Bytes, w: Bytes)
    requires OneValue(d) && w < d
    ensures w + [d[0]] <= d
  {
    assert w + [d[0]] == d[..|w| + 1];
  }

  lemma OneValueFailsWell(d: Bytes, room: nat, w: Bytes)
    requires d != [] && OneValue(d) && w < d
    ensures WaitsWell([d], room, w)
  {
    forall b: byte | Match([d], w + [b]) == 0 ensures !Swallows([d], room, w + [b]) {
      var x := w + [b];
      SingleMatch(d, x);
      RunGrows(d, w);
      forall n: nat | n < |x| ensures !(x[n..] <= d) {
        assert x[n..][|x| - n - 1] == b;
      }
    }
  }

  lemma OneValueIsSeamless(d: Bytes, room: nat)
    requires d != [] && OneValue(d)
    ensures Seamless([d], room)
  {
    forall w | Waiting([d], w) ensures WaitsWell([d], room, w) {
      SingleWaiting(d, w);
      OneValueFailsWell(d, room, w);
    }
    SeamlessIsAll([d], room);
  }

  /** One more of the repeated byte in front: all but the first begin `d`. */
  lemma OtherSwallows(d: Bytes, k: nat)
    requires 1 <= k < |d| && d[k] != d[0] && OneValue(d[..k])
    ensures !Seamless([d], |d| + 1)
  {
    var dels, w := [d], d[..k];
    var x := w + [d[0]];
    SingleWaiting(d, w);
    SingleMatch(d, x);
    assert x[k] != d[k];
    assert x[1..] == w by {
      assert forall i :: 0 <= i < k ==> w[i] == w[0];
    }
    TooShort(d, [], d[k..]);
    assert SwallowsAt(dels, |d| + 1, x, 0, 1);
    assert dels[0][..k] == w && !FailsWell(dels, |d| + 1, w);
  }

  lemma {:induction false} FirstOther(d: Bytes, n: nat) returns (k: nat)
    requires n <= |d| && !OneValue(d[..n])
    ensures 1 <= k < n && d[k] != d[0] && OneValue(d[..k])
    decreases n
  {
    if OneValue(d[..n - 1]) {
      k := n - 1;
      assert forall i :: 0 <= i < n - 1 ==> d[..n - 1][i] == d[..n][i];
    } else {
      k := FirstOther(d, n - 1);
    }
  }

  /** Of a single delimiter, then, only a repeated byte is never overlooked; any
      other one is, if a packet has room for one byte more than it. */
  lemma SinglePromptExactly(c: Config, d: Bytes)
    requires d != [] && c.dels == [d]
    ensures OneValue(d) ==> Prompt(c)
    ensures |d| < c.maxSize ==> (Prompt(c) <==> OneValue(d))
  {
    PromptExactly(c);
    if OneValue(d) {
      OneValueIsSeamless(d, c.maxSize);
    } else if |d| < c.maxSize {
      assert d[..|d|] == d;
      var k := FirstOther(d, |d|);
      OtherSwallows(d, k);
      if Prompt(c) { RoomMatters([d], c.maxSize, |d| + 1); }
    }
  }

  // ----- runs -----

  /** CR LF as delimiter, the stream CR CR LF: nothing is delivered. */
  lemma CrLfOverlooked(c: Config)
    requires c.dels == [[13, 10]] && c.maxSize >= 3
    ensures Parse(c, START, Events([13, 13, 10])) == Parser([], [13, 13, 10], [], false)
  {
    SingleMatch([13, 10], [] + [13]);
    SingleMatch([13, 10], [13] + [13]);
    SingleMatch([13, 10], [] + [10]);
    var bs := FeedMore(c, START, [], 13);
    bs := FeedMore(c, START, bs, 13);
    assert Parse(c, START, Events(bs)) == Parser([], [13, 13], [], false);
    bs := FeedMore(c, START, bs, 10);
    assert bs == [13, 13, 10];
  }

  lemma PairsMatch(dels: seq<Bytes>)
    requires dels == [[97, 97], [98, 98]]
    ensures Match(dels, [97]) == -1 && Match(dels, [97, 98]) == 0 && Match(dels, [98]) == -1
  {
    var w: Bytes := [97, 98];
    assert dels[0][1] != w[1] && dels[1][0] != w[0];
    assert !Hits(dels[0], w) && !Hits(dels[1], w);
    assert dels[0][0] != 98;
    assert !Hits(dels[0], [98]) && Hits(dels[1], [98]);
  }

  lemma PairsFeed(c: Config)
    requires c.dels == [[97, 97], [98, 98]] && c.maxSize >= 2
    ensures Feed(c, START, 97) == Parser([], [], [97], false)
    ensures Feed(c, Parser([], [], [97], false), 98) == Parser([], [97, 98], [], false)
    ensures Feed(c, Parser([], [97, 98], [], false), 98) == Parser([], [97, 98], [98], false)
  {
    PairsMatch(c.dels);
    var a, b, ab: Bytes := [97], [98], [97, 98];
    assert [] + a == a && [] + b == b && a + b == ab && [] + ab == ab;
  }

  /** Two delimiters that each repeat one byte, `aa` and `bb`, and the stream
      `abb`: the `b` that fails the first is missing in the second. */
  lemma RepeatedBytesOverlooked(c: Config)
    requires c.dels == [[97, 97], [98, 98]] && c.maxSize >= 2
    ensures Parse(c, START, Events([97, 98, 98])) == Parser([], [97, 98], [98], false)
    ensures EndsWith([97, 98] + [98], c.dels[1])
  {
    PairsFeed(c);
    var bs := FeedMore(c, START, [], 97);
    assert Parse(c, START, Events(bs)) == Parser([], [], [97], false);
    bs := FeedMore(c, START, bs, 98);
    assert Parse(c, START, Events(bs)) == Parser([], [97, 98], [], false);
    bs := FeedMore(c, START, bs, 98);
    assert bs == [97, 98, 98];
    EndsAfter([97, 98], 1, c.dels[1]);
  }

  /** That takes packets of three bytes: with smaller ones the stream is no longer
      free of over-long packets. */
  lemma CrLfExactly(size: nat)
    ensures Prompt(Config([[13, 10]], size)) <==> size < 3
  {
    var c := Config([[13, 10]], size);
    var d: Bytes := [13, 10];
    if size < 3 {
      forall w | Waiting([d], w) ensures WaitsWell([d], size, w) {
        SingleWaiting(d, w);
        forall b: byte, n | Match([d], w + [b]) == 0 && 0 <= n < |w + [b]|
          ensures !SwallowsAt([d], size, w + [b], 0, n)
        {
          CrLfRoom(size, w, b, n);
        }
      }
      SeamlessIsAll([d], size);
    } else {
      SinglePromptExactly(c, d);
      assert d[1] != d[0];
    }
    PromptExactly(c);
  }

  lemma CrLfRoom(size: nat, w: Bytes, b: byte, n: nat)
    requires size < 3 && w < [13, 10] && Match([[13, 10]], w + [b]) == 0 && n < |w + [b]|
    ensures !SwallowsAt([[13, 10]], size, w + [b], 0, n)
  {
    var d: Bytes := [13, 10];
    var x := w + [b];
    SingleMatch(d, x);
    if x[n..] <= d {
      assert x[n] == 13 && |w| <= 1;
      assert n == 1 && x == [13, 13];
      SingleMatch(d, [] + [10]);
      assert d[|x| - n..] == [10] && [10][1..] == [];
      assert Quiet([d], [], [10]) == Some([]);
    }
  }
}
