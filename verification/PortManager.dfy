// X2PortManager: a port vector per transport and IP, and a circular probe from a random start.
module PortManager {
  import opened Sequences

  datatype Transport = Udp | Tcp

  // What the operating system answers when a port is tried.
  datatype Answer = Bound | Taken | InitFailed | TooManyOpenFiles | AddressNotAvailable

  datatype Result = Handle(port: nat) | NoMorePorts | Error(answer: Answer)

  // The bits of the seed that choose.
  function Spread(seed: bv32): nat {
    ((seed >> 4) & 0x7FFF_7FFF) as nat
  }

  // Every offset below 2^15 is chosen by some seed.
  lemma EveryOffset(k: bv32)
    requires k < 0x8000
    ensures Spread(k << 4) == k as nat
  {
  }

  // Crypto::GetRandomUInt. The seed is stepped in 32-bit arithmetic.
  class Random {
    var seed: bv32

    method GetRandomUInt(min: nat, max: nat) returns (r: nat)
      requires max < 0x1_0000_0000
      modifies this
      ensures seed == 214013 * old(seed) + 2531011
      ensures var hi := if max == 0xFFFF_FFFF then max - 1 else max;
              var lo := if min < hi then min else hi;
              r == lo + Spread(seed) % (hi - lo + 1)
      ensures max < 0xFFFF_FFFF ==> if min <= max then min <= r <= max else r == max
      ensures max == 0xFFFF_FFFF ==> if min < max then min <= r < max else r == max - 1
    {
      seed := 214013 * seed + 2531011;
      var hi := if max == 4294967295 then max - 1 else max;
      var lo := if min > hi then hi else min;
      r := Spread(seed) % (hi - lo + 1) + lo;
    }
  }

  // The operating system, with a record of what it was asked and answered.
  class System {
    ghost var asked: seq<(nat, Answer)>

    method TryBind(i: nat) returns (answer: Answer)
      modifies this
      ensures asked == old(asked) + [(i, answer)]
    {
      answer := *;
      asked := asked + [(i, answer)];
    }
  }

  // The answers of one Bind: one per free index the probe stood on, all refusals but the last.
  ghost predicate Answers(asked: seq<(nat, Answer)>, tried: seq<nat>, ports: seq<bool>) {
    && (forall i :: i in tried ==> i < |ports|)
    && (forall i: nat, a :: (i, a) in asked ==> i in tried && !ports[i])
    && (forall k :: 0 <= k < |asked| - 1 ==> asked[k].1.Taken?)
  }

  predicate Refused(asked: seq<(nat, Answer)>, i: nat) {
    (i, Taken) in asked
  }

  type Ip = string

  // The size of a new port vector: the count is stored in 16 bits.
  function NumPorts(minPort: nat, maxPort: nat): nat {
    (maxPort - minPort + 1) % 0x1_0000
  }

  // How often, from `start`, the probe has passed index i after k attempts: once or not yet.
  predicate Passed(start: nat, k: nat, n: nat, i: nat) {
    start < i <= start + k || i + n <= start + k
  }

  // Where the probe stands after k attempts.
  function Index(start: nat, k: nat, n: nat): nat
    requires start < n && k <= n
  {
    if start + k < n then start + k else start + k - n
  }

  // The indices from the one behind `start` on, one after the other.
  ghost predicate InTurn(tried: seq<nat>, start: nat, n: nat)
    requires start < n && |tried| <= n
  {
    forall k :: 0 <= k < |tried| ==> tried[k] == Index(start, k + 1, n)
  }

  ghost predicate TriedAre(tried: seq<nat>, start: nat, k: nat, n: nat) {
    Distinct(tried) && forall i: nat :: i in tried <==> i < n && Passed(start, k, n, i)
  }

  ghost predicate Turning(tried: seq<nat>, start: nat, k: nat, n: nat) {
    start < n && k <= n && |tried| == k && TriedAre(tried, start, k, n) && InTurn(tried, start, n)
  }

  lemma NextTurn(tried: seq<nat>, start: nat, k: nat, n: nat)
    requires k < n && Turning(tried, start, k, n)
    ensures var next := Index(start, k + 1, n);
            (Index(start, k, n) + 1) % n == next && next < n && Turning(tried + [next], start, k + 1, n)
  {
    var next := Index(start, k + 1, n);
    assert next !in tried;
    Wrap(Index(start, k, n) + 1, n);
  }

  // Every index tried so far was marked or refused.
  ghost predicate Probing(asked: seq<(nat, Answer)>, tried: seq<nat>, ports: seq<bool>) {
    && Answers(asked, tried, ports)
    && (forall i: nat :: i in tried ==> i < |ports| && (ports[i] || Refused(asked, i)))
    && (forall k :: 0 <= k < |asked| ==> asked[k].1.Taken?)
  }

  lemma ProbeStarts(ports: seq<bool>, start: nat)
    requires |ports| > 0 ==> start < |ports|
    ensures Probing([], [], ports)
    ensures |ports| > 0 ==> Turning([], start, 0, |ports|) && Index(start, 0, |ports|) == start
  {
  }

  lemma ProbeEnds(asked: seq<(nat, Answer)>, tried: seq<nat>, ports: seq<bool>, start: nat)
    requires Probing(asked, tried, ports) && |tried| == |ports|
    requires |ports| > 0 ==> Turning(tried, start, |ports|, |ports|)
    ensures Distinct(tried) && Answers(asked, tried, ports) && (|ports| > 0 ==> InTurn(tried, start, |ports|))
    ensures forall i: nat :: i < |ports| ==> i in tried && (ports[i] || Refused(asked, i))
  {
  }

  lemma Regroup(before: seq<(nat, Answer)>, asked: seq<(nat, Answer)>, next: (nat, Answer))
    ensures before + asked + [next] == before + (asked + [next])
  {
  }

  lemma Behind(before: seq<(nat, Answer)>, asked: seq<(nat, Answer)>)
    ensures (before + asked)[|before|..] == asked
  {
  }

  lemma TurnsKept(tried: seq<nat>, start: nat, k: nat, n: nat)
    requires Turning(tried, start, k, n)
    ensures Distinct(tried) && InTurn(tried, start, n)
  {
  }

  lemma ProbeMarked(asked: seq<(nat, Answer)>, tried: seq<nat>, ports: seq<bool>, i: nat)
    requires Probing(asked, tried, ports) && i < |ports| && ports[i]
    ensures Probing(asked, tried + [i], ports)
  {
  }

  lemma ProbeAsked(asked: seq<(nat, Answer)>, tried: seq<nat>, ports: seq<bool>, i: nat, answer: Answer)
    requires Probing(asked, tried, ports) && i < |ports| && !ports[i]
    ensures Answers(asked + [(i, answer)], tried + [i], ports)
    ensures answer.Taken? ==> Probing(asked + [(i, answer)], tried + [i], ports)
  {
    var all := asked + [(i, answer)];
    assert all[|asked|] == (i, answer) && forall x :: x in asked ==> x in all;
  }

  lemma Wrap(i: nat, n: nat)
    requires 0 < i <= n
    ensures i % n == if i == n then 0 else i
  {
  }

  class Manager {
    const minPort: nat
    const maxPort: nat
    const random: Random
    const system: System
    var tables: map<(Transport, Ip), seq<bool>>         // mapUdpIpPorts and mapTcpIpPorts
    ghost var held: set<(Transport, Ip, nat)>           // handed out and not given back

    ghost predicate Valid()
      reads this
    {
      && minPort <= maxPort < 0x1_0000
      && (forall k :: k in tables ==> |tables[k]| == NumPorts(minPort, maxPort))
      && (forall t, ip, p :: (t, ip, p) in held <==> minPort <= p && Marked(t, ip, p - minPort))
    }

    ghost predicate Marked(t: Transport, ip: Ip, i: nat)
      reads this
    {
      (t, ip) in tables && i < |tables[(t, ip)]| && tables[(t, ip)][i]
    }

    constructor (minPort: nat, maxPort: nat, random: Random, system: System)
      requires minPort <= maxPort < 0x1_0000
      ensures Valid() && held == {} && this.minPort == minPort && this.maxPort == maxPort
      ensures this.random == random && this.system == system
    {
      this.minPort, this.maxPort, this.random, this.system := minPort, maxPort, random, system;
      tables, held := map[], {};
    }

    // The vector of an IP, added with every port free when the IP is new.
    method GetPorts(t: Transport, ip: Ip)
      requires Valid()
      modifies `tables
      ensures Valid() && (t, ip) in tables
      ensures (t, ip) in old(tables) ==> tables == old(tables)
      ensures (t, ip) !in old(tables) ==>
                && tables == old(tables)[(t, ip) := tables[(t, ip)]]
                && forall i :: 0 <= i < |tables[(t, ip)]| ==> !tables[(t, ip)][i]
    {
      if (t, ip) !in tables {
        var free := seq(NumPorts(minPort, maxPort), i => false);
        tables := tables[(t, ip) := free];
      }
    }

    // Bind(transport, ip) on a normalized IP. `tried` lists the indices the probe stood on.
    method Bind(t: Transport, ip: Ip) returns (r: Result, ghost tried: seq<nat>)
      requires Valid()
      modifies `tables, `held, random, system
      ensures Valid() && old(system.asked) <= system.asked
      // every index is tried once at most; giving up means that each one was marked, or refused by
      // the system in this very call
      ensures Distinct(tried) && forall i :: i in tried ==> i < NumPorts(minPort, maxPort)
      // the probe starts behind a random index and takes the next one each time
      ensures var n := NumPorts(minPort, maxPort);
              |tried| <= n && (n > 0 ==> InTurn(tried, Spread(random.seed) % n, n))
      ensures var asked := system.asked[|old(system.asked)|..];
              && (r.NoMorePorts? ==>
                    forall i: nat :: i < NumPorts(minPort, maxPort) ==>
                      i in tried && (old(Marked(t, ip, i)) || Refused(asked, i)))
              && (!r.NoMorePorts? ==> asked != [] && r == match asked[|asked| - 1] {
                    case (i, Bound) => Handle(minPort + i)
                    case (_, answer) => Error(answer)
                  })
      // a success is a port nobody holds, and it alone becomes held
      ensures r.Handle? ==>
                && minPort <= r.port < minPort + NumPorts(minPort, maxPort)
                && (t, ip, r.port) !in old(held)
                && held == old(held) + {(t, ip, r.port)}
      ensures !r.Handle? ==> held == old(held)
      ensures NumPorts(minPort, maxPort) == 0 ==> r == NoMorePorts
      ensures (t, ip) in tables
    {
      hide InTurn, Index, Distinct;
      GetPorts(t, ip);
      var found, idx, answer;
      answer, found, idx, tried := Probe(tables[(t, ip)]);
      if !found {
        r := NoMorePorts;
      } else if answer.Bound? {
        tables := tables[(t, ip) := tables[(t, ip)][idx := true]];
        held := held + {(t, ip, minPort + idx)};
        r := Handle(minPort + idx);
      } else {
        r := Error(answer);
      }
    }

    // The loop of Bind: from a random start, the next index each time, around the end.
    method Probe(ports: seq<bool>) returns (answer: Answer, found: bool, idx: nat, ghost tried: seq<nat>)
      requires |ports| < 0x1_0000
      modifies random, system
      ensures old(system.asked) <= system.asked && Distinct(tried) && |tried| <= |ports|
      ensures |ports| > 0 ==> InTurn(tried, Spread(random.seed) % |ports|, |ports|)
      ensures var asked := system.asked[|old(system.asked)|..];
              && Answers(asked, tried, ports)
              && (found ==> asked != [] && asked[|asked| - 1] == (idx, answer) && !answer.Taken?
                            && idx < |ports| && !ports[idx])
              && (!found ==> forall i: nat :: i < |ports| ==> i in tried && (ports[i] || Refused(asked, i)))
    {
      hide Answers, Probing, Turning, TriedAre, InTurn, Index, Distinct, Refused;
      var n := |ports|;
      answer, found, tried := Taken, false, [];
      idx := random.GetRandomUInt(0, if n == 0 then 0xFFFF_FFFF else n - 1);
      ghost var start, asked: seq<(nat, Answer)> := idx, [];
      ProbeStarts(ports, start);
      var attempt := 0;
      while true
        invariant |tried| == attempt <= n && (n > 0 ==> start == Spread(random.seed) % n)
        invariant n > 0 ==> Turning(tried, start, attempt, n) && idx == Index(start, attempt, n)
        invariant system.asked == old(system.asked) + asked && Probing(asked, tried, ports)
        decreases n - attempt
      {
        attempt := attempt + 1;
        if attempt > n {
          ProbeEnds(asked, tried, ports, start);
          Behind(old(system.asked), asked);
          return;
        }
        NextTurn(tried, start, attempt - 1, n);
        idx := (idx + 1) % n;
        if ports[idx] {
          ProbeMarked(asked, tried, ports, idx);
          tried := tried + [idx];
          continue;
        }
        answer := system.TryBind(idx);
        ProbeAsked(asked, tried, ports, idx, answer);
        Regroup(old(system.asked), asked, (idx, answer));
        tried := tried + [idx];
        asked := asked + [(idx, answer)];
        if !answer.Taken? {
          found := true;
          TurnsKept(tried, start, attempt, n);
          Behind(old(system.asked), asked);
          return;
        }
      }
    }

    // Unbind: out of range or unknown is ignored; a known port is free again. `inside` is false when
    // the source writes outside its vector, which it does exactly for a port of an IP that Bind was
    // asked for before when the range is all 65536 ports.
    method Unbind(t: Transport, ip: Ip, port: nat) returns (inside: bool)
      requires Valid()
      modifies `tables, `held
      ensures Valid() && held == old(held) - {(t, ip, port)}
      ensures forall k :: k in tables <==> k in old(tables)
      ensures !inside <==> minPort == 0 && maxPort == 0xFFFF && port <= maxPort && (t, ip) in tables
    {
      if port < minPort || port > maxPort {
        return true;
      }
      var i := port - minPort;
      inside := true;
      if (t, ip) in tables {
        inside := i < |tables[(t, ip)]|;
        if inside {
          tables := tables[(t, ip) := tables[(t, ip)][i := false]];
          held := held - {(t, ip, port)};
        }
      }
    }

    // With all 65536 ports, asking for a port and giving any back goes out of bounds.
    method BindThenUnbind(t: Transport, ip: Ip, port: nat) returns (inside: bool)
      requires Valid() && port <= maxPort
      modifies `tables, `held, random, system
      ensures Valid() && (inside <==> !(minPort == 0 && maxPort == 0xFFFF))
    {
      var r, tried := Bind(t, ip);
      inside := Unbind(t, ip, port);
    }
  }

  // The vector has one entry per port of the range, except for the full range of 65536 ports: there
  // the 16-bit count wraps to 0 and nothing can be bound at all.
  lemma NumPortsExact(minPort: nat, maxPort: nat)
    requires minPort <= maxPort < 0x1_0000
    ensures NumPorts(minPort, maxPort) == maxPort - minPort + 1 <==> !(minPort == 0 && maxPort == 0xFFFF)
    ensures NumPorts(0, 0xFFFF) == 0
  {
  }
}
