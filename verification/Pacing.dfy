// A rate limit: bursts of bounded size, started no closer together than a period.
module Pacing {
  import opened Arithmetic

  datatype Burst = Burst(now: int, count: nat)

  predicate Spaced(period: nat, limit: nat, log: seq<Burst>) {
    && (forall i :: 0 <= i < |log| ==> log[i].count <= limit)
    && (forall i, j :: 0 <= i < j < |log| ==> log[i].now + period <= log[j].now)
  }

  // How many went out in the closed window [from, upto].
  function InWindow(log: seq<Burst>, from: int, upto: int): nat {
    if log == [] then 0
    else
      var b := log[|log| - 1];
      (if from <= b.now <= upto then b.count else 0) + InWindow(log[..|log| - 1], from, upto)
  }

  function Total(log: seq<Burst>): nat {
    if log == [] then 0 else Total(log[..|log| - 1]) + log[|log| - 1].count
  }

  // What the count means: the whole log when nothing is outside, and windows side by side add up.
  lemma {:induction false} AllInside(log: seq<Burst>, from: int, upto: int)
    requires forall i :: 0 <= i < |log| ==> from <= log[i].now <= upto
    ensures InWindow(log, from, upto) == Total(log)
  {
    if log != [] {
      AllInside(log[..|log| - 1], from, upto);
    }
  }

  lemma {:induction false} WindowsAdd(log: seq<Burst>, from: int, cut: int, upto: int)
    requires from <= cut < upto
    ensures InWindow(log, from, upto) == InWindow(log, from, cut) + InWindow(log, cut + 1, upto)
  {
    if log != [] {
      WindowsAdd(log[..|log| - 1], from, cut, upto);
    }
  }

  lemma {:induction false} NothingOutside(log: seq<Burst>, from: int, upto: int)
    requires forall i :: 0 <= i < |log| ==> log[i].now < from || log[i].now > upto
    ensures InWindow(log, from, upto) == 0
  {
    if log != [] {
      NothingOutside(log[..|log| - 1], from, upto);
    }
  }

  lemma {:induction false} NarrowWindow(log: seq<Burst>, from: int, cut: int, upto: int)
    requires cut <= upto && forall i :: 0 <= i < |log| ==> log[i].now <= cut
    ensures InWindow(log, from, upto) == InWindow(log, from, cut)
  {
    if log != [] {
      NarrowWindow(log[..|log| - 1], from, cut, upto);
    }
  }

  // However the bursts fall, a window shorter than n periods sees at most n of them.
  lemma {:induction false} RateBound(period: nat, limit: nat, log: seq<Burst>, from: int, upto: int, n: nat)
    requires Spaced(period, limit, log) && upto < from + period * n
    ensures InWindow(log, from, upto) <= limit * n
    decreases |log|, 1
  {
    NonNegative(limit, n);
    if log != [] {
      var b, front := log[|log| - 1], log[..|log| - 1];
      if b.now < from {
        NothingOutside(log, from, upto);
      } else if b.now > upto {
        RateBound(period, limit, front, from, upto, n);
      } else {
        LastInside(period, limit, log, from, upto, n);
      }
    }
  }

  // The last burst takes a period off the window.
  lemma {:induction false} LastInside(period: nat, limit: nat, log: seq<Burst>, from: int, upto: int, n: nat)
    requires Spaced(period, limit, log) && upto < from + period * n
    requires log != [] && from <= log[|log| - 1].now <= upto
    ensures InWindow(log, from, upto) <= limit * n
    decreases |log|, 0
  {
    hide Spaced;
    var now := log[|log| - 1].now;
    var front := Front(period, limit, log, from, upto);
    OnePeriodLess(period, from, now, upto, n);
    RateBound(period, limit, front, from, now - period, n - 1);
    Distribute(n - 1, limit);
  }

  lemma Front(period: nat, limit: nat, log: seq<Burst>, from: int, upto: int) returns (front: seq<Burst>)
    requires Spaced(period, limit, log) && log != [] && from <= log[|log| - 1].now <= upto
    ensures Spaced(period, limit, front) && |front| == |log| - 1
    ensures InWindow(log, from, upto) <= limit + InWindow(front, from, log[|log| - 1].now - period)
  {
    front := log[..|log| - 1];
    NarrowWindow(front, from, log[|log| - 1].now - period, upto);
  }

  lemma OnePeriodLess(period: nat, from: int, now: int, upto: int, n: nat)
    requires from <= now <= upto < from + period * n
    ensures n > 0 && now - period < from + period * (n - 1)
  {
    NonNegative(period, n);
    Distribute(n - 1, period);
  }
}
