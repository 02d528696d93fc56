// Positions on a ring of `n` bytes. Offsets are counted from the start of the
// ring (the program's `off - offStart`), so they run from 0 to n exclusive.
module Geometry {
  import opened Bytes

  predicate RingSize(n: nat) {
    n % 8 == 0
  }

  /** A place where a frame header can be. */
  predicate Pos(n: nat, p: int) {
    0 <= p < n && p % 8 == 0
  }

  /** A header fits at any position. */
  lemma PosRoom(n: nat, p: nat)
    requires RingSize(n) && Pos(n, p)
    ensures p + 8 <= n
  {
  }

  /** Bytes to walk forward from `a` to reach `b`; zero when they coincide. */
  function Dist(n: nat, a: nat, b: nat): (r: nat)
    requires a < n && b < n
    ensures r < n
  {
    if a <= b then b - a else n - a + b
  }

  /** The byte at `x` lies on the way from `a` up to but not including `b`. */
  predicate InArc(n: nat, a: nat, b: nat, x: nat)
    requires a < n && b < n && x < n
  {
    Dist(n, a, x) < Dist(n, a, b)
  }

  /** `b` is met on the way from `a` to `c`. */
  predicate Between(n: nat, a: nat, b: nat, c: nat)
    requires a < n && b < n && c < n
  {
    Dist(n, a, b) + Dist(n, b, c) == Dist(n, a, c)
  }

  /** Offsets that reach the end of the ring restart at its beginning. */
  function Wrap(n: nat, x: nat): nat {
    if x >= n then 0 else x
  }

  /** With b between a and c, the arc from a to c is the disjoint union of its two parts. */
  lemma ArcSplit(n: nat, a: nat, b: nat, c: nat, x: nat)
    requires a < n && b < n && c < n && x < n && Between(n, a, b, c)
    ensures InArc(n, a, c, x) <==> InArc(n, a, b, x) || InArc(n, b, c, x)
    ensures !(InArc(n, a, b, x) && InArc(n, b, c, x))
  {
  }

  /** Between is circular. */
  lemma Rotate(n: nat, a: nat, b: nat, c: nat)
    requires a < n && b < n && c < n && Between(n, a, b, c) && a != b && a != c
    ensures Between(n, b, c, a)
  {
  }

  lemma BetweenTrans(n: nat, a: nat, b: nat, c: nat, e: nat)
    requires a < n && b < n && c < n && e < n
    requires Between(n, a, b, c) && Between(n, a, c, e)
    ensures Between(n, a, b, e) && Between(n, b, c, e)
  {
  }

  /** The converse grouping: the short step first. */
  lemma BetweenExtend(n: nat, a: nat, b: nat, c: nat, e: nat)
    requires a < n && b < n && c < n && e < n
    requires Between(n, a, b, e) && Between(n, b, c, e)
    ensures Between(n, a, b, c) && Between(n, a, c, e)
  {
  }

  /** Eight bytes on the way are eight bytes less to go. */
  lemma Closer(n: nat, a: nat, b: nat, c: nat)
    requires a < n && b < n && c < n && Between(n, a, b, c) && Dist(n, a, b) >= 8
    ensures Dist(n, b, c) + 8 <= Dist(n, a, c)
  {
  }

  lemma BetweenEnds(n: nat, a: nat, b: nat)
    requires a < n && b < n
    ensures Between(n, a, a, b) && Between(n, a, b, b)
  {
  }

  /** Going round, one of the two arcs comes wholly after the other. */
  predicate ArcsApart(n: nat, a: nat, b: nat, e: nat, f: nat)
    requires a < n && b < n && e < n && f < n
  {
    (Between(n, e, f, a) && Between(n, e, a, b)) || (Between(n, a, b, e) && Between(n, a, e, f))
  }

  /** Then no byte lies on both, and one on the second lies on the way back along the first. */
  lemma NotOnBoth(n: nat, a: nat, b: nat, e: nat, f: nat, x: nat)
    requires a < n && b < n && e < n && f < n && x < n && a != b && ArcsApart(n, a, b, e, f)
    ensures !(InArc(n, a, b, x) && InArc(n, e, f, x))
    ensures InArc(n, e, f, x) ==> InArc(n, b, a, x)
  {
  }

  /** With c between b and e, and b between a and e, the arcs between neighbours are apart. */
  lemma Neighbours(n: nat, a: nat, b: nat, c: nat, e: nat)
    requires a < n && b < n && c < n && e < n && Between(n, a, b, e) && Between(n, b, c, e)
    ensures ArcsApart(n, b, c, a, b) && ArcsApart(n, b, c, c, e)
    ensures ArcsApart(n, c, e, a, b) && ArcsApart(n, c, e, b, c)
    ensures ArcsApart(n, b, e, a, b)
  {
  }
}
