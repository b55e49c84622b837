// X2AudDecoder on an opened AAC stream: decoded PCM of any length is delivered in 10 ms frames, and
// what is left over waits for the next packet.
module AudDecoder {
  import opened Arithmetic
  import opened Bytes
  import opened Sequences

  const AUD_120MS_LEN: nat := 23040

  datatype Frame = Frame(pcm: bytes, pts: int)

  // All the PCM of the frames, in order.
  function Pcm(frames: seq<Frame>): bytes {
    if frames == [] then [] else Pcm(frames[..|frames| - 1]) + frames[|frames| - 1].pcm
  }

  // The part of `total` bytes that is whole sample frames.
  function Whole(total: nat, frameSize: nat): (w: nat)
    requires frameSize > 0
    ensures w <= total && total - w == total % frameSize
  {
    total - total % frameSize
  }

  // What is left of `len` bytes once no more full blocks of `size` can be taken.
  function Rest(len: nat, size: nat): (r: nat)
    requires size > 0
    ensures r < size && r <= len
  {
    if len < size then len else Rest(len - size, size)
  }

  // The length of the carry after a packet of `len` bytes.
  function NextUsed(used: nat, len: nat, frameSize: nat, tenMs: nat): nat
    requires frameSize > 0 && tenMs > 0
  {
    if len == 0 || used + len < frameSize then used else Rest(Whole(used + len, frameSize), tenMs)
  }

  class Decoder {
    const hz: nat
    const channels: nat
    const tenMs: nat               // n_aud_10ms_len_
    const samples: array<byte>     // audio_dec_samples_
    var used: nat                  // audio_dec_used_
    var frames: seq<Frame>         // what the listener got
    ghost var consumed: bytes      // everything the codec decoded so far
    ghost var lossless: bool       // no packet so far left an incomplete sample frame behind: no byte is gone

    function FrameSize(): nat { channels * 2 }    // one 16-bit sample per channel

    ghost predicate Sized()
      reads `used, `frames
    {
      && channels > 0 && tenMs == hz * channels * 2 / 100 && 0 < tenMs
      && samples.Length == AUD_120MS_LEN && used < tenMs && used <= AUD_120MS_LEN
      && forall i :: 0 <= i < |frames| ==> |frames[i].pcm| == tenMs
    }

    ghost predicate Valid()
      reads this, samples
    {
      && Sized() && (lossless ==> Delivered() == consumed)
      && |Delivered()| <= |consumed| && (lossless <==> |Delivered()| == |consumed|)
    }

    // What went to the listener, and what waits.
    ghost function Delivered(): bytes
      requires used <= samples.Length
      reads `used, `frames, samples
    {
      Pcm(frames) + samples[..used]
    }

    constructor (hz: nat, channels: nat)
      requires channels > 0 && hz * channels * 2 / 100 > 0
      ensures Valid() && fresh(samples) && this.hz == hz && this.channels == channels
      ensures used == 0 && frames == [] && lossless && consumed == [] && samples.Length == 23040
    {
      this.hz, this.channels, tenMs := hz, channels, hz * channels * 2 / 100;
      samples := new byte[AUD_120MS_LEN];
      used, frames, consumed, lossless := 0, [], [], true;
    }

    // `pcm` is what the codec stored behind the carry for this packet, empty when it failed.
    // Bytes are lost exactly when carry and packet together are no whole number of sample frames.
    method DoDecode2(pcm: bytes, nPts: int)
      requires Valid() && used + |pcm| <= AUD_120MS_LEN
      modifies this, samples
      ensures Valid() && old(frames) <= frames && consumed == old(consumed) + pcm
      ensures lossless == (old(lossless) && (pcm == [] || Whole(old(used) + |pcm|, FrameSize()) == old(used) + |pcm|))
      ensures forall i :: |old(frames)| <= i < |frames| ==>
                frames[i].pts == nPts - old(used) * 10 / tenMs + 10 * (i - |old(frames)|)
      ensures used == NextUsed(old(used), |pcm|, FrameSize(), tenMs)
      ensures var total := old(used) + |pcm|;
              if pcm == [] || total < FrameSize() then frames == old(frames) && used == old(used)
              else Delivered() == (old(Delivered()) + pcm)[..|old(Delivered())| - old(used) + Whole(total, FrameSize())]
    {
      hide Whole, NextUsed, Pcm, Rest;
      ghost var had, total := Delivered(), used + |pcm|;
      Process(pcm, nPts);
      WholeFrames(total, channels, FrameSize());
      Account(had, pcm, Delivered(), consumed, lossless, if pcm == [] then total else Whole(total, FrameSize()), total);
      consumed := consumed + pcm;
      lossless := lossless && (pcm == [] || Whole(total, FrameSize()) == total);
    }

    // Store and deliver the packet; what is accounted for stays the same.
    method Process(pcm: bytes, nPts: int)
      requires Sized() && used + |pcm| <= AUD_120MS_LEN
      modifies `used, `frames, samples
      ensures Sized() && old(frames) <= frames
      ensures forall i :: |old(frames)| <= i < |frames| ==>
                frames[i].pts == nPts - old(used) * 10 / tenMs + 10 * (i - |old(frames)|)
      ensures used == NextUsed(old(used), |pcm|, FrameSize(), tenMs)
      ensures var total := old(used) + |pcm|;
              if pcm == [] || total < FrameSize() then
                frames == old(frames) && used == old(used) && Delivered() == old(Delivered())
              else Delivered() == (old(Delivered()) + pcm)[..|old(Delivered())| - old(used) + Whole(total, FrameSize())]
    {
      hide Whole, NextUsed, Pcm, Rest;
      ghost var had, total := Delivered(), used + |pcm|;
      Append(pcm);
      NextUsedIs(used, |pcm|, FrameSize(), tenMs);
      if |pcm| > 0 {
        assert Pcm(frames) + samples[..total] == had + pcm;
        assert |had| == |Pcm(frames)| + used;
        CutFront(Pcm(frames), samples[..total], Whole(total, FrameSize()));
        Deliver(|pcm|, nPts);
      }
    }

    // A run of packets that decode to ks[0], ks[1], ... samples of 16 bits for each channel: PCM is gone
    // at its end exactly when the sizes are not lossless.
    method DecodeRun(packets: seq<bytes>, ghost ks: seq<nat>, pts: seq<int>)
      requires Valid() && |packets| == |ks| == |pts|
      requires forall i :: 0 <= i < |ks| ==> |packets[i]| == channels * 2 * ks[i]
      requires Fits(channels * 2, tenMs, used, ks)
      modifies this, samples
      ensures Valid() && lossless == (old(lossless) && Lossless(channels * 2, tenMs, old(used), ks))
      ensures consumed == old(consumed) + Flat(packets)
      decreases |packets|
    {
      hide NextUsed, Whole, Pcm, Rest, Flat;
      if |packets| > 0 {
        ghost var f, len := channels * 2, |packets[0]|;
        WholeIff(used + len, f);
        DoDecode2(packets[0], pts[0]);
        NoPacket(f, ks[0]);
        DecodeRun(packets[1..], ks[1..], pts[1..]);
        FlatCons(packets[0], packets[1..]);
        assert [packets[0]] + packets[1..] == packets;
        assert old(consumed) + packets[0] + Flat(packets[1..]) == old(consumed) + (packets[0] + Flat(packets[1..]));
      } else {
        FlatNone<byte>(packets);
      }
    }

    // The part of the packet's processing that follows a successful decode of `len` bytes.
    method Deliver(len: nat, nPts: int)
      requires Sized() && 0 < len && used + len <= AUD_120MS_LEN
      modifies `used, `frames, samples
      ensures Sized() && old(frames) <= frames
      ensures forall i :: |old(frames)| <= i < |frames| ==>
                frames[i].pts == nPts - old(used) * 10 / tenMs + 10 * (i - |old(frames)|)
      ensures used == NextUsed(old(used), len, FrameSize(), tenMs)
      ensures if old(used) + len < FrameSize() then
                frames == old(frames) && used == old(used) && samples[..used] == old(samples[..used])
              else Delivered() == old(Pcm(frames) + samples[..Whole(used + len, FrameSize())])
    {
      hide Whole, NextUsed, Pcm, Rest;
      var total := used + len;
      WholeFrames(total, channels, FrameSize());
      NextUsedIs(used, len, FrameSize(), tenMs);
      var ret := total / FrameSize();
      if ret > 0 {
        Slice(ret * 2 * channels, nPts);
      }
    }

    // The codec stores its output behind the carry.
    method Append(pcm: bytes)
      requires used + |pcm| <= samples.Length
      modifies samples
      ensures samples[..used] == old(samples[..used])
      ensures samples[..used + |pcm|] == old(samples[..used]) + pcm
    {
      forall k | 0 <= k < |pcm| {
        samples[used + k] := pcm[k];
      }
    }

    // Deliver what is complete, move the rest to the front.
    method Slice(audLen: nat, nPts: int)
      requires Sized() && audLen <= samples.Length
      modifies `used, `frames, samples
      ensures Sized() && old(frames) <= frames
      ensures forall i :: |old(frames)| <= i < |frames| ==>
                frames[i].pts == nPts - old(used) * 10 / tenMs + 10 * (i - |old(frames)|)
      ensures Delivered() == old(Pcm(frames) + samples[..audLen])
      ensures used == Rest(audLen, tenMs)
    {
      hide Pcm, Rest;
      var pts := nPts;
      if used > 0 {
        pts := pts - used * 10 / tenMs;
      }
      assert pts == nPts - used * 10 / tenMs;
      var nUsed := Cut(audLen, pts);
      KeepRest(nUsed, audLen);
    }

    // Deliver every full 10 ms, the first of them stamped `first`.
    method Cut(audLen: nat, first: int) returns (nUsed: nat)
      requires Sized() && audLen <= samples.Length
      modifies `frames
      ensures Sized() && old(frames) <= frames && nUsed <= audLen && audLen - nUsed == Rest(audLen, tenMs)
      ensures forall i :: |old(frames)| <= i < |frames| ==> frames[i].pts == first + 10 * (i - |old(frames)|)
      ensures Pcm(frames) + samples[nUsed..audLen] == old(Pcm(frames)) + samples[..audLen]
    {
      hide Pcm, Rest;
      nUsed := 0;
      var pts := first;
      ghost var all := samples[..audLen];
      while nUsed + tenMs <= audLen
        invariant nUsed <= audLen && old(frames) <= frames && Sized()
        invariant pts == first + 10 * (|frames| - |old(frames)|)
        invariant forall i :: |old(frames)| <= i < |frames| ==> frames[i].pts == first + 10 * (i - |old(frames)|)
        invariant Pcm(frames) == Pcm(old(frames)) + all[..nUsed]
        invariant Rest(audLen - nUsed, tenMs) == Rest(audLen, tenMs)
      {
        var frame := Frame(samples[nUsed..nUsed + tenMs], pts);
        SliceOf(samples[..], audLen, nUsed, nUsed + tenMs);
        Delivers(frames, frame, Pcm(old(frames)), all, nUsed, nUsed + tenMs);
        RestStep(audLen - nUsed, tenMs);
        frames := frames + [frame];
        pts := pts + 10;
        nUsed := nUsed + tenMs;
      }
      Adjacent(Pcm(old(frames)), all, nUsed, audLen);
      SliceOf(samples[..], audLen, nUsed, audLen);
      assert all[..audLen] == all;
      RestStep(audLen - nUsed, tenMs);
    }

    // The rest becomes the carry.
    method KeepRest(nUsed: nat, audLen: nat)
      requires nUsed <= audLen <= samples.Length
      modifies `used, samples
      ensures used == audLen - nUsed && samples[..used] == old(samples[nUsed..audLen])
    {
      if nUsed < audLen {
        used := audLen - nUsed;
        forall k | 0 <= k < used {
          samples[k] := samples[nUsed + k];
        }
      } else {
        used := 0;
      }
    }
  }

  // One packet in the account of what was decoded and what was delivered or waits: `kept` of the
  // `total` bytes there were.
  lemma Account(had: bytes, pcm: bytes, now: bytes, consumed: bytes, lossless: bool, kept: nat, total: nat)
    requires (lossless ==> had == consumed) && |had| <= |consumed| && (lossless <==> |had| == |consumed|)
    requires |pcm| <= total <= |had| + |pcm| && kept <= total
    requires (now == had && (kept == total <==> pcm == [])) || now == (had + pcm)[..|had| + |pcm| - total + kept]
    ensures lossless && kept == total ==> now == consumed + pcm
    ensures |now| <= |consumed + pcm| && (lossless && kept == total <==> |now| == |consumed + pcm|)
  {
    assert (had + pcm)[..|had + pcm|] == had + pcm;
    assert pcm == [] ==> had + pcm == had && consumed + pcm == consumed;
  }

  lemma WholeIff(total: nat, f: nat)
    requires f > 0
    ensures Whole(total, f) == total <==> total % f == 0
  {
  }

  lemma NoPacket(f: nat, k: nat)
    requires f > 0
    ensures f * k == 0 <==> k == 0
  {
    AtLeast(k, f);
  }

  lemma PcmSnoc(frames: seq<Frame>, f: Frame)
    ensures Pcm(frames + [f]) == Pcm(frames) + f.pcm
  {
  }

  lemma RestStep(len: nat, size: nat)
    requires size > 0
    ensures Rest(len, size) == if len < size then len else Rest(len - size, size)
  {
  }

  lemma Delivers(frames: seq<Frame>, f: Frame, before: bytes, s: bytes, i: nat, j: nat)
    requires i <= j <= |s| && Pcm(frames) == before + s[..i] && f.pcm == s[i..j]
    ensures Pcm(frames + [f]) == before + s[..j]
  {
    PcmSnoc(frames, f);
    Adjacent(before, s, i, j);
  }

  lemma SliceOf(s: bytes, hi: nat, i: nat, j: nat)
    requires i <= j <= hi <= |s|
    ensures s[..hi][i..j] == s[i..j]
  {
  }

  lemma Adjacent(p: bytes, s: bytes, i: nat, j: nat)
    requires i <= j <= |s|
    ensures p + s[..i] + s[i..j] == p + s[..j]
  {
  }

  lemma CutFront(p: bytes, s: bytes, n: nat)
    requires n <= |s|
    ensures (p + s)[..|p| + n] == p + s[..n]
  {
  }

  lemma NextUsedIs(used: nat, len: nat, f: nat, tenMs: nat)
    requires f > 0 && tenMs > 0
    ensures NextUsed(used, len, f, tenMs)
            == if len == 0 || used + len < f then used else Rest(Whole(used + len, f), tenMs)
  {
  }

  lemma WholeFrames(total: nat, channels: nat, f: nat)
    requires channels > 0 && f == channels * 2
    ensures total / f * 2 * channels == Whole(total, f)
    ensures total / f > 0 <==> total >= f
    ensures Whole(total, f) == total && total > 0 ==> total >= f
  {
  }

  // ---- Whole runs: packets of `ks[0]`, `ks[1]`, ... whole sample frames each.

  predicate Lossless(f: nat, tenMs: nat, used: nat, ks: seq<nat>)
    requires f > 0 && tenMs > 0
    decreases |ks|
  {
    ks == [] || (
      && (ks[0] == 0 || (used + f * ks[0]) % f == 0)
      && Lossless(f, tenMs, NextUsed(used, f * ks[0], f, tenMs), ks[1..]))
  }

  predicate Fits(f: nat, tenMs: nat, used: nat, ks: seq<nat>)
    requires f > 0 && tenMs > 0
    decreases |ks|
  {
    ks == [] || (
      && used + f * ks[0] <= AUD_120MS_LEN
      && Fits(f, tenMs, NextUsed(used, f * ks[0], f, tenMs), ks[1..]))
  }

  lemma SumMultiple(f: nat, a: nat, b: nat)
    requires f > 0 && a % f == 0
    ensures (a + f * b) % f == 0
  {
    var q, r := DivMod(a, f);
    assert a + f * b == f * (q + b);
    MultipleMod(f, q + b);
  }

  lemma DiffMultiple(f: nat, a: nat, b: nat)
    requires f > 0 && b <= a && a % f == 0 && b % f == 0
    ensures (a - b) % f == 0
  {
    var p, r := DivMod(a, f);
    var s, r' := DivMod(b, f);
    assert f * p - f * s == f * (p - s);
    AtLeast(s - p, f);
    assert (s - p) * f == b - a;
    MultipleMod(f, p - s);
  }

  lemma {:induction false} RestMultiple(f: nat, a: nat, t: nat)
    requires f > 0 && t > 0 && a % f == 0 && t % f == 0
    ensures Rest(a, t) % f == 0
  {
    if a >= t {
      DiffMultiple(f, a, t);
      RestMultiple(f, a - t, t);
    }
  }

  lemma {:induction false} WholeTenMsIsLossless(f: nat, tenMs: nat, used: nat, ks: seq<nat>)
    requires f > 0 && tenMs > 0 && tenMs % f == 0 && used % f == 0
    ensures Lossless(f, tenMs, used, ks)
    decreases |ks|
  {
    if ks != [] {
      SumMultiple(f, used, ks[0]);
      RestMultiple(f, used + f * ks[0], tenMs);
      WholeTenMsIsLossless(f, tenMs, NextUsed(used, f * ks[0], f, tenMs), ks[1..]);
    }
  }

  // ---- Streams of one packet size, as an AAC stream decodes.

  function Packets(n: nat, k: nat): (ks: seq<nat>)
    ensures |ks| == n && forall i :: 0 <= i < n ==> ks[i] == k
  {
    seq(n, i => k)
  }

  lemma PacketsStep(n: nat, k: nat)
    requires n > 0
    ensures Packets(n, k)[0] == k && Packets(n, k)[1..] == Packets(n - 1, k)
  {
  }

  // What a packet of `len` bytes leaves behind a carry, in terms of what it leaves behind none.
  lemma {:induction false} RestSum(used: nat, len: nat, tenMs: nat)
    requires used < tenMs
    ensures var x := Rest(len, tenMs);
            Rest(used + len, tenMs) == if used + x < tenMs then used + x else used + x - tenMs
    decreases len
  {
    if len >= tenMs {
      RestSum(used, len - tenMs, tenMs);
    }
  }

  lemma WholeMultiple(f: nat, used: nat, k: nat)
    requires f > 0 && used % f == 0
    ensures (used + f * k) % f == 0 && Whole(used + f * k, f) == used + f * k
  {
    SumMultiple(f, used, k);
  }

  lemma FrameAtLeast(f: nat, k: nat)
    requires k > 0
    ensures f * k >= f
  {
    AtLeast(k, f);
  }

  // One packet more, as long as the carry is whole sample frames.
  lemma OnePacket(f: nat, tenMs: nat, used: nat, k: nat)
    requires 0 < f && used < tenMs && used % f == 0 && k > 0
    ensures var x := Rest(f * k, tenMs);
            NextUsed(used, f * k, f, tenMs) == if used + x < tenMs then used + x else used + x - tenMs
  {
    hide Rest, Whole;
    WholeMultiple(f, used, k);
    FrameAtLeast(f, k);
    RestSum(used, f * k, tenMs);
  }

  lemma {:induction false} PacketsFit(f: nat, tenMs: nat, used: nat, n: nat, k: nat)
    requires 0 < f && used < tenMs && tenMs + f * k <= AUD_120MS_LEN
    ensures Fits(f, tenMs, used, Packets(n, k))
    decreases n
  {
    if n > 0 {
      PacketsStep(n, k);
      PacketsFit(f, tenMs, NextUsed(used, f * k, f, tenMs), n - 1, k);
    }
  }

  // Packets that are a whole number of 10 ms leave no carry at all.
  lemma {:induction false} WholePacketsLossless(f: nat, tenMs: nat, n: nat, k: nat)
    requires 0 < f <= tenMs && k > 0 && (f * k) % tenMs == 0
    ensures Lossless(f, tenMs, 0, Packets(n, k))
    decreases n
  {
    if n > 0 {
      PacketsStep(n, k);
      RestMultiple(tenMs, f * k, tenMs);
      ZeroMod(tenMs, Rest(f * k, tenMs));
      OnePacket(f, tenMs, 0, k);
      WholeMultiple(f, 0, k);
      WholePacketsLossless(f, tenMs, n - 1, k);
    }
  }

  lemma ZeroMod(t: nat, r: nat)
    requires t > 0
    ensures t % t == 0 && 0 % t == 0 && (r < t && r % t == 0 ==> r == 0)
  {
    DivModUnique(t, 1, t, 0);
    DivModUnique(0, 0, t, 0);
    if r < t {
      DivModUnique(r, 0, t, r);
    }
  }

  // The carry grows by the same amount with each packet until it wraps, and then it is no whole number
  // of sample frames: the packet after that loses PCM.
  lemma {:induction false} CarryBreaks(f: nat, tenMs: nat, used: nat, k: nat) returns (n: nat)
    requires 0 < f <= tenMs && k > 0 && used < tenMs && used % f == 0 && tenMs % f != 0
    requires Rest(f * k, tenMs) > 0 && Rest(f * k, tenMs) % f == 0
    ensures !Lossless(f, tenMs, used, Packets(n, k))
    decreases tenMs - used
  {
    hide Rest, NextUsed;
    OnePacket(f, tenMs, used, k);
    SumOfMultiples(f, used, Rest(f * k, tenMs));
    var next := NextUsed(used, f * k, f, tenMs);
    if next > used {
      n := CarryBreaks(f, tenMs, next, k);
      n := n + 1;
    } else {
      OddAfterWrap(f, tenMs, used + Rest(f * k, tenMs));
      n := OddBreaks(f, tenMs, next, k);
      n := n + 1;
    }
    PacketsStep(n, k);
  }

  lemma OddBreaks(f: nat, tenMs: nat, used: nat, k: nat) returns (n: nat)
    requires 0 < f <= tenMs && k > 0 && used % f != 0
    ensures !Lossless(f, tenMs, used, Packets(n, k))
  {
    n := 1;
    OddCarry(f, used, k);
    PacketsStep(n, k);
  }

  lemma OddCarry(f: nat, used: nat, k: nat)
    requires f > 0 && used % f != 0
    ensures (used + f * k) % f != 0
  {
    var q, r := DivMod(used, f);
    assert used + f * k == (q + k) * f + r;
    DivModUnique(used + f * k, q + k, f, r);
  }

  lemma SumOfMultiples(f: nat, a: nat, b: nat)
    requires f > 0 && a % f == 0 && b % f == 0
    ensures (a + b) % f == 0
  {
    var q, r := DivMod(b, f);
    SumMultiple(f, a, q);
  }

  lemma OddAfterWrap(f: nat, tenMs: nat, sum: nat)
    requires 0 < f && tenMs <= sum && sum % f == 0 && tenMs % f != 0
    ensures (sum - tenMs) % f != 0
  {
    if (sum - tenMs) % f == 0 {
      DiffMultiple(f, sum, sum - tenMs);
    }
  }

  // A packet size loses PCM exactly when neither 10 ms is a whole number of sample frames nor the
  // packet a whole number of 10 ms.
  lemma {:induction false} OneSizeLossless(f: nat, tenMs: nat, k: nat)
    requires 0 < f <= tenMs && k > 0 && tenMs + f * k <= AUD_120MS_LEN
    ensures forall n :: Fits(f, tenMs, 0, Packets(n, k))
    ensures (forall n :: Lossless(f, tenMs, 0, Packets(n, k))) <==> tenMs % f == 0 || (f * k) % tenMs == 0
  {
    hide Rest, Lossless, Fits, Packets;
    forall n ensures Fits(f, tenMs, 0, Packets(n, k)) {
      PacketsFit(f, tenMs, 0, n, k);
    }
    ZeroMod(f, 0);
    if tenMs % f == 0 {
      forall n ensures Lossless(f, tenMs, 0, Packets(n, k)) {
        WholeTenMsIsLossless(f, tenMs, 0, Packets(n, k));
      }
    } else if (f * k) % tenMs == 0 {
      forall n ensures Lossless(f, tenMs, 0, Packets(n, k)) {
        WholePacketsLossless(f, tenMs, n, k);
      }
    } else {
      var n := SizeBreaks(f, tenMs, k);
    }
  }

  lemma SizeBreaks(f: nat, tenMs: nat, k: nat) returns (n: nat)
    requires 0 < f <= tenMs && k > 0 && tenMs % f != 0 && (f * k) % tenMs != 0
    ensures !Lossless(f, tenMs, 0, Packets(n, k))
  {
    hide Rest, NextUsed;
    ZeroMod(f, 0);
    RestIsMod(f * k, tenMs);
    if Rest(f * k, tenMs) % f == 0 {
      n := CarryBreaks(f, tenMs, 0, k);
    } else {
      OnePacket(f, tenMs, 0, k);
      n := OddBreaks(f, tenMs, Rest(f * k, tenMs), k);
      n := n + 1;
      PacketsStep(n, k);
    }
  }

  lemma {:induction false} RestIsMod(len: nat, size: nat)
    requires size > 0
    ensures Rest(len, size) == len % size
  {
    if len < size {
      DivModUnique(len, 0, size, len);
    } else {
      RestIsMod(len - size, size);
      var q, r := DivMod(len - size, size);
      Distribute(q, size);
      DivModUnique(len, q + 1, size, r);
    }
  }

  // At 22050 Hz in stereo 10 ms are 882 bytes of frames of 4, and the third packet of 1024 sample
  // frames loses two bytes.
  lemma ThirdPacketLoses()
    ensures 22050 * 2 * 2 / 100 == 882 && Packets(3, 1024) == [1024, 1024, 1024]
    ensures Fits(4, 882, 0, Packets(2, 1024)) && Lossless(4, 882, 0, Packets(2, 1024))
    ensures Fits(4, 882, 0, Packets(3, 1024)) && !Lossless(4, 882, 0, Packets(3, 1024))
  {
    hide Rest, Lossless, Fits, Packets;
    SmallPackets();
    PacketsFit(4, 882, 0, 2, 1024);
    PacketsFit(4, 882, 0, 3, 1024);
    RestIsMod(4096, 882);
    RestIsMod(4664, 882);
    assert NextUsed(0, 4 * 1024, 4, 882) == 568 && NextUsed(568, 4 * 1024, 4, 882) == 254;
    LosslessStep(4, 882, 254, 1, 1024);
    LosslessStep(4, 882, 568, 2, 1024);
    LosslessStep(4, 882, 568, 1, 1024);
    LosslessStep(4, 882, 254, 0, 1024);
    LosslessStep(4, 882, 0, 3, 1024);
    LosslessStep(4, 882, 0, 2, 1024);
  }

  lemma SmallPackets()
    ensures Packets(3, 1024) == [1024, 1024, 1024]
  {
  }

  lemma LosslessStep(f: nat, tenMs: nat, used: nat, n: nat, k: nat)
    requires f > 0 && tenMs > 0 && k > 0
    ensures Lossless(f, tenMs, used, Packets(n, k))
            <==> n == 0 || (
                   && (used + f * k) % f == 0
                   && Lossless(f, tenMs, NextUsed(used, f * k, f, tenMs), Packets(n - 1, k)))
  {
    if n > 0 {
      PacketsStep(n, k);
    }
  }

  // The packets that lose PCM when 10 ms is no whole number of sample frames: one just longer than
  // 10 ms, then any other.
  lemma {:induction false} OddTenMsLoses(f: nat, tenMs: nat) returns (ks: seq<nat>)
    requires 0 < f <= tenMs && tenMs % f != 0 && tenMs + 2 * f <= AUD_120MS_LEN
    ensures Fits(f, tenMs, 0, ks) && !Lossless(f, tenMs, 0, ks)
  {
    var q, r := DivMod(tenMs, f);
    var k := q + 1;
    var x := f - r;
    Distribute(q, f);
    assert f * k == tenMs + x;
    MultipleMod(f, k);
    assert Rest(f * k, tenMs) == Rest(x, tenMs) == x;
    assert NextUsed(0, f * k, f, tenMs) == x;
    DivModUnique(x + f, 1, f, x);
    ks := [k, 1];
    assert ks[1..] == [1] && [1][1..] == [];
    assert f * [1][0] == f;
    assert !Lossless(f, tenMs, x, [1]) && Fits(f, tenMs, x, [1]);
  }

  // Whole-frame packets never lose PCM exactly when 10 ms is a whole number of sample frames.
  lemma {:induction false} LosslessIffWholeTenMs(f: nat, tenMs: nat)
    requires 0 < f <= tenMs && tenMs + 2 * f <= AUD_120MS_LEN
    ensures (forall ks :: Fits(f, tenMs, 0, ks) ==> Lossless(f, tenMs, 0, ks)) <==> tenMs % f == 0
  {
    if tenMs % f == 0 {
      forall ks | Fits(f, tenMs, 0, ks) ensures Lossless(f, tenMs, 0, ks) {
        WholeTenMsIsLossless(f, tenMs, 0, ks);
      }
    } else {
      var ks := OddTenMsLoses(f, tenMs);
    }
  }

  // 10 ms is a whole number of sample frames exactly when the hundredths of a frame it leaves over do
  // not make a byte.
  lemma RateExact(hz: nat, channels: nat)
    requires channels > 0
    ensures (hz * channels * 2 / 100) % (channels * 2) == 0 <==> hz % 100 * (channels * 2) < 100
  {
    var f := channels * 2;
    var m, z := DivMod(hz, 100);
    var e, r := DivMod(z * f, 100);
    AtLeast(100 - z, f);
    assert z * f + (100 - z) * f == 100 * f;
    Bytes10Ms(hz, channels, m, z);
    DivModUnique(hz * channels * 2, m * f + e, 100, r);
    DivModUnique(m * f + e, m, f, e);
  }

  lemma Bytes10Ms(hz: nat, channels: nat, m: nat, z: nat)
    requires hz == 100 * m + z
    ensures hz * channels * 2 == 100 * (m * (channels * 2)) + z * (channels * 2)
  {
  }

  // MAIN: a sample rate is safe for whole-frame packets of any sizes exactly when 10 ms leaves less
  // than a byte over.
  lemma RateIsLossless(hz: nat, channels: nat)
    requires 0 < channels * 2 <= hz * channels * 2 / 100
    requires hz * channels * 2 / 100 + channels * 4 <= AUD_120MS_LEN
    ensures (forall ks :: Fits(channels * 2, hz * channels * 2 / 100, 0, ks) ==>
                            Lossless(channels * 2, hz * channels * 2 / 100, 0, ks))
            <==> hz % 100 * (channels * 2) < 100
  {
    LosslessIffWholeTenMs(channels * 2, hz * channels * 2 / 100);
    RateExact(hz, channels);
  }

  // A fresh decoder at such a rate delivers or keeps every byte of every run of packets that fit.
  method DecodeAtRate(hz: nat, channels: nat, packets: seq<bytes>, ghost ks: seq<nat>, pts: seq<int>)
    returns (d: Decoder)
    requires channels > 0 && hz * channels * 2 / 100 > 0 && |packets| == |ks| == |pts|
    requires forall i :: 0 <= i < |ks| ==> |packets[i]| == channels * 2 * ks[i]
    requires Fits(channels * 2, hz * channels * 2 / 100, 0, ks)
    ensures d.Valid() && d.consumed == Flat(packets) && d.hz == hz && d.channels == channels
    ensures d.lossless <==> Lossless(channels * 2, hz * channels * 2 / 100, 0, ks)
    ensures hz % 100 * (channels * 2) < 100 ==> d.Delivered() == Flat(packets)
    ensures d.Delivered() == Flat(packets) <==> d.lossless
  {
    hide Flat, Lossless, Fits;
    d := new Decoder(hz, channels);
    d.DecodeRun(packets, ks, pts);
    assert [] + Flat(packets) == Flat(packets);
    RateExact(hz, channels);
    ZeroMod(channels * 2, 0);
    if hz % 100 * (channels * 2) < 100 {
      WholeTenMsIsLossless(channels * 2, hz * channels * 2 / 100, 0, ks);
    }
  }

  // A sample rate divisible by 100 is enough.
  lemma RateGivesWholeTenMs(hz: nat, channels: nat)
    requires channels > 0 && hz % 100 == 0
    ensures (hz * channels * 2 / 100) % (channels * 2) == 0
  {
    RateExact(hz, channels);
    NonNegative(channels * 2, 0);
  }
}
