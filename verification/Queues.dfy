/** Queues that lose an element, and windows onto them. */
module Queues {
  function Without<T>(q: seq<T>, i: nat): seq<T> {
    if i < |q| then q[..i] + q[i + 1..] else q
  }

  lemma WithoutAt<T>(q: seq<T>, i: nat)
    requires i < |q|
    ensures |Without(q, i)| == |q| - 1
    ensures forall k :: 0 <= k < |q| - 1 ==> Without(q, i)[k] == q[if k < i then k else k + 1]
  {
  }

  /** A part of the queue, seen through the moving window: at the front, and at a loss. */
  lemma WindowPopped<T>(q: seq<T>, b: nat, l: nat)
    requires b + l <= |q|
    ensures b > 0 ==> q[1..][b - 1..b - 1 + l] == q[b..b + l]
    ensures b == 0 < l ==> q[1..][..l - 1] == q[..l][1..]
  {
  }

  lemma WindowSpared<T>(q: seq<T>, i: nat, b: nat, l: nat)
    requires b + l <= |q|
    ensures i < b ==> b - 1 + l <= |Without(q, i)| && Without(q, i)[b - 1..b - 1 + l] == q[b..b + l]
    ensures b + l <= i ==> b + l <= |Without(q, i)| && Without(q, i)[b..b + l] == q[b..b + l]
  {
    if i < |q| {
      WithoutAt(q, i);
    }
    hide Without;
  }

  lemma QueueGrows<T>(q: seq<T>, r: seq<T>, b: nat, l: nat)
    requires b + l <= |q| <= |r| && r[..|q|] == q
    ensures r[b..b + l] == q[b..b + l]
  {
    assert r[..|q|][b..b + l] == r[b..b + l];
  }

  lemma TailOfTail<T>(s: seq<T>, l: nat)
    requires 0 < l <= |s|
    ensures s[|s| - l..][1..] == s[|s| - (l - 1)..]
  {
  }
}
