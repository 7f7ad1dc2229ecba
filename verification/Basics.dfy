// Small definitions shared by the other modules.

/** Option values, C++ integer division, and a law of queues. */
module Basics {

  datatype Option<+T> = None | Some(value: T)

  /** Integer division of C++: truncation towards zero. */
  function TruncDiv(a: int, b: int): int
    requires b > 0
  {
    if a >= 0 then a / b else -((-a) / b)
  }

  /** The remainder that goes with it; it has the sign of the dividend. */
  function TruncMod(a: int, b: int): int
    requires b > 0
  {
    if a >= 0 then a % b else -((-a) % b)
  }

  /** Two steps of a queue make one: contents plus what goes in equals what
      comes out plus the contents afterwards. */
  lemma ChainQueues<T>(q: seq<T>, in1: seq<T>, out1: seq<T>, q1: seq<T>, in2: seq<T>, out2: seq<T>, q2: seq<T>)
    requires q + in1 == out1 + q1 && q1 + in2 == out2 + q2
    ensures q + (in1 + in2) == out1 + out2 + q2
  {
    assert q + (in1 + in2) == q + in1 + in2;
    assert out1 + q1 + in2 == out1 + (q1 + in2);
    assert out1 + (out2 + q2) == out1 + out2 + q2;
  }

  /** The sum of the weights of a sequence. */
  function Sum<T>(xs: seq<T>, weight: T -> nat): nat {
    if xs == [] then 0 else weight(xs[0]) + Sum(xs[1..], weight)
  }

  lemma {:induction false} SumUpdate<T>(xs: seq<T>, weight: T -> nat, i: nat, x: T)
    requires i < |xs|
    ensures Sum(xs[i := x], weight) == Sum(xs, weight) - weight(xs[i]) + weight(x)
  {
    if i == 0 {
      assert xs[i := x][1..] == xs[1..];
    } else {
      assert xs[i := x][1..] == xs[1..][i - 1 := x];
      SumUpdate(xs[1..], weight, i - 1, x);
    }
  }

  lemma {:induction false} SumBound<T>(xs: seq<T>, weight: T -> nat, k: nat)
    requires forall i :: 0 <= i < |xs| ==> weight(xs[i]) <= k
    ensures Sum(xs, weight) <= k * |xs|
  {
    if xs != [] {
      assert forall i :: 0 <= i < |xs[1..]| ==> xs[1..][i] == xs[i + 1];
      SumBound(xs[1..], weight, k);
      assert k * |xs| == k + k * |xs[1..]|;
    }
  }

  /** A positive sum has a positive weight in it. */
  lemma {:induction false} SumPositive<T>(xs: seq<T>, weight: T -> nat)
    ensures Sum(xs, weight) > 0 <==> exists i :: 0 <= i < |xs| && weight(xs[i]) > 0
  {
    if xs != [] {
      SumPositive(xs[1..], weight);
      assert forall i :: 0 <= i < |xs[1..]| ==> xs[1..][i] == xs[i + 1];
      assert forall i :: 1 <= i < |xs| ==> xs[i] == xs[1..][i - 1];
    }
  }

  lemma AppendAssoc<T>(a: seq<T>, b: seq<T>, c: seq<T>)
    ensures a + b + c == a + (b + c)
  {
  }

  lemma EmptyAppend<T>(a: seq<T>)
    ensures [] + a == a && a + [] == a
  {
  }
}
