// Order of 32-bit RTP timestamps that wrap around.
module Timestamp {

  const WRAP: int := 0x1_0000_0000
  const HALF: int := 0x8000_0000

  type uint32 = t: int | 0 <= t < WRAP witness 0

  function IsNewerTimestamp(timestamp: uint32, prev: uint32): bool {
    var diff := (timestamp - prev) % WRAP;
    if diff == HALF then timestamp > prev else timestamp != prev && diff < HALF
  }

  function LatestTimestamp(t1: uint32, t2: uint32): uint32 {
    if IsNewerTimestamp(t1, t2) then t1 else t2
  }

  // The stamp of an unbounded counter.
  function Stamp(counter: nat): uint32 {
    counter % WRAP
  }

  // Two stamps are equal, or exactly one is newer: also when they are half the range apart.
  lemma ExactlyOneNewer(t: uint32, p: uint32)
    ensures !(IsNewerTimestamp(t, p) && IsNewerTimestamp(p, t))
    ensures !IsNewerTimestamp(t, p) && !IsNewerTimestamp(p, t) <==> t == p
    ensures t - p == HALF ==> IsNewerTimestamp(t, p)
  {
  }

  // Counters less than half the range apart are ordered by their stamps as they are themselves.
  lemma NewerIffLater(a: nat, b: nat)
    requires -HALF < a - b < HALF
    ensures IsNewerTimestamp(Stamp(a), Stamp(b)) <==> a > b
  {
  }

  function Latest(first: uint32, more: seq<uint32>): uint32
    decreases |more|
  {
    if more == [] then first else LatestTimestamp(Latest(first, more[..|more| - 1]), more[|more| - 1])
  }

  function Max(first: nat, more: seq<nat>): nat
    decreases |more|
  {
    if more == [] then first
    else
      var m := Max(first, more[..|more| - 1]);
      if more[|more| - 1] > m then more[|more| - 1] else m
  }

  function Stamps(counters: seq<nat>): seq<uint32> {
    seq(|counters|, i requires 0 <= i < |counters| => Stamp(counters[i]))
  }

  // Folding LatestTimestamp over the stamps of one window gives the stamp of the largest counter,
  // whatever the order of arrival.
  lemma {:induction false} LatestIsMax(first: nat, more: seq<nat>, low: nat)
    requires low <= first < low + HALF && forall i :: 0 <= i < |more| ==> low <= more[i] < low + HALF
    ensures Latest(Stamp(first), Stamps(more)) == Stamp(Max(first, more))
    ensures low <= Max(first, more) < low + HALF
    ensures first <= Max(first, more) && forall i :: 0 <= i < |more| ==> more[i] <= Max(first, more)
    ensures Max(first, more) == first || Max(first, more) in more
    decreases |more|
  {
    if more != [] {
      var front, c := more[..|more| - 1], more[|more| - 1];
      LatestIsMax(first, front, low);
      assert Stamps(more)[..|more| - 1] == Stamps(front);
      var m := Max(first, front);
      NewerIffLater(m, c);
      NewerIffLater(c, m);
      ExactlyOneNewer(Stamp(m), Stamp(c));
      assert m == first || m in more;
    }
  }

  // Outside such a window the order is no order: three stamps can each be newer than the next.
  lemma NewerIsCyclic()
    ensures IsNewerTimestamp(0x6000_0000, 0) && IsNewerTimestamp(0xC000_0000, 0x6000_0000)
    ensures IsNewerTimestamp(0, 0xC000_0000)
  {
  }
}
