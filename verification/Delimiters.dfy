// Delimiter search of the serial packet device.

/** Delimiter matching, as `FindDelimiter` does it. */
module Delimiters {

  type byte = b: int | 0 <= b < 256

  type Bytes = seq<byte>

  /** The delimiter occurs at the beginning of the window, or may still come to. */
  predicate Hits(d: Bytes, w: Bytes) {
    d <= w || w <= d
  }

  /** Index of the first listed delimiter that hits, or |dels|. */
  function FirstHit(dels: seq<Bytes>, w: Bytes): (r: nat)
    ensures r <= |dels|
    ensures r < |dels| ==> Hits(dels[r], w)
    ensures forall i :: 0 <= i < r ==> !Hits(dels[i], w)
  {
    if dels == [] then 0 else if Hits(dels[0], w) then 0 else 1 + FirstHit(dels[1..], w)
  }

  /** Index of the first listed delimiter that is there completely, or |dels|. */
  function FirstFull(dels: seq<Bytes>, w: Bytes): (r: nat)
    ensures r <= |dels|
    ensures r < |dels| ==> dels[r] <= w
    ensures forall i :: 0 <= i < r ==> !(dels[i] <= w)
  {
    if dels == [] then 0 else if dels[0] <= w then 0 else 1 + FirstFull(dels[1..], w)
  }

  /** The result of `FindDelimiter` in its normal mode: positive for a complete
      delimiter, negative for a beginning of one, 0 for neither. */
  function Match(dels: seq<Bytes>, w: Bytes): int {
    var i := FirstHit(dels, w);
    if w == [] || i == |dels| then 0 else if dels[i] <= w then |dels[i]| else -|w|
  }

  /** The result in best-match mode: complete delimiters win over beginnings. */
  function BestMatch(dels: seq<Bytes>, w: Bytes): int {
    var i := FirstFull(dels, w);
    if w == [] then 0
    else if i < |dels| then |dels[i]|
    else if FirstHit(dels, w) < |dels| then -|w|
    else 0
  }

  lemma FirstHitIs(dels: seq<Bytes>, w: Bytes, i: nat)
    requires i < |dels| && Hits(dels[i], w)
    requires forall j :: 0 <= j < i ==> !Hits(dels[j], w)
    ensures FirstHit(dels, w) == i
  {
    assert FirstHit(dels, w) >= i;
  }

  lemma FirstFullIs(dels: seq<Bytes>, w: Bytes, i: nat)
    requires i < |dels| && dels[i] <= w
    requires forall j :: 0 <= j < i ==> !(dels[j] <= w)
    ensures FirstFull(dels, w) == i
  {
    assert FirstFull(dels, w) >= i;
  }

  /** `FindDelimiter` itself: one pass over the list with a mutable `match`. */
  method FindDelimiter(dels: seq<Bytes>, w: Bytes, bestMatch: bool) returns (found: int)
    ensures found == if bestMatch then BestMatch(dels, w) else Match(dels, w)
  {
    found := 0;
    if |w| != 0 {
      for i := 0 to |dels|
        invariant forall j :: 0 <= j < i ==> !(dels[j] <= w)
        invariant !bestMatch ==> found == 0 && forall j :: 0 <= j < i ==> !Hits(dels[j], w)
        invariant found == 0 || found == -|w|
        invariant found == 0 <==> forall j :: 0 <= j < i ==> !Hits(dels[j], w)
      {
        if |w| < |dels[i]| {
          if dels[i][..|w|] == w {
            assert w <= dels[i];
            found := -|w|;
            if !bestMatch {
              FirstHitIs(dels, w, i);
              return;
            }
          }
        } else {
          if w[..|dels[i]|] == dels[i] {
            assert dels[i] <= w;
            found := |dels[i]|;
            FirstFullIs(dels, w, i);
            if !bestMatch { FirstHitIs(dels, w, i); }
            return;
          }
        }
      }
    }
  }

  /** Size of the longest delimiter. */
  function LongestOf(dels: seq<Bytes>): (r: nat)
    ensures forall d :: d in dels ==> |d| <= r
    ensures r > 0 ==> exists d :: d in dels && |d| == r
  {
    if dels == [] then 0
    else
      var rest := LongestOf(dels[1..]);
      if rest < |dels[0]| then |dels[0]| else rest
  }

  /** `MaxDelimiterSize`. */
  method MaxDelimiterSize(dels: seq<Bytes>) returns (sz: nat)
    ensures sz == LongestOf(dels)
  {
    sz := 0;
    for i := 0 to |dels|
      invariant forall j :: 0 <= j < i ==> |dels[j]| <= sz
      invariant sz > 0 ==> exists j :: 0 <= j < i && |dels[j]| == sz
    {
      if sz < |dels[i]| {
        sz := |dels[i]|;
      }
    }
  }

  /** A window the parser can be left with: every non-empty beginning of it,
      and it itself, is the beginning of a delimiter and matched as such. */
  predicate Waiting(dels: seq<Bytes>, w: Bytes) {
    forall k :: 1 <= k <= |w| ==> Match(dels, w[..k]) < 0
  }

  lemma WaitingExtends(dels: seq<Bytes>, w: Bytes, b: byte)
    requires Waiting(dels, w) && Match(dels, w + [b]) < 0
    ensures Waiting(dels, w + [b])
  {
    forall k | 1 <= k <= |w| + 1 ensures Match(dels, (w + [b])[..k]) < 0 {
      if k <= |w| { assert (w + [b])[..k] == w[..k]; } else { assert (w + [b])[..k] == w + [b]; }
    }
  }

  /** A waiting window is a proper beginning of some delimiter, hence short. */
  lemma WaitingIsShort(dels: seq<Bytes>, w: Bytes)
    requires Waiting(dels, w) && w != []
    ensures exists i :: 0 <= i < |dels| && w < dels[i]
    ensures |w| < LongestOf(dels)
  {
    assert w[..|w|] == w;
    var i := FirstHit(dels, w);
    assert w < dels[i] && dels[i] in dels;
  }
}
