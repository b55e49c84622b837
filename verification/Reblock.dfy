// Audio re-blocking: packets of any size in, blocks of one size out, the remainder carried over.
module Reblock {
  import opened Arithmetic
  import opened Bytes
  import opened Sequences

  lemma Regroup(f: bytes, c: bytes, a: bytes, b: bytes)
    ensures f + (c + a) + b == f + c + (a + b)
    ensures b == [] ==> f + (c + a) == f + c + a
  {
  }

  lemma {:induction false} FlatLength(blocks: seq<bytes>, n: nat)
    requires forall i :: 0 <= i < |blocks| ==> |blocks[i]| == n
    ensures |Flat(blocks)| == |blocks| * n
  {
    if blocks != [] {
      FlatLength(blocks[..|blocks| - 1], n);
      Distribute(|blocks| - 1, n);
    }
  }

  // Blocks of one size and a remainder below it are determined by their concatenation.
  lemma {:induction false} UniqueCut(a: seq<bytes>, ra: bytes, b: seq<bytes>, rb: bytes, n: nat)
    requires n > 0 && |ra| < n && |rb| < n && Flat(a) + ra == Flat(b) + rb
    requires forall i :: 0 <= i < |a| ==> |a[i]| == n
    requires forall i :: 0 <= i < |b| ==> |b[i]| == n
    ensures a == b && ra == rb
  {
    FlatLength(a, n);
    FlatLength(b, n);
    if |a| < |b| {
      Apart(|a|, |b|, n);
    } else if |a| > |b| {
      Apart(|b|, |a|, n);
    }
    assert Flat(a) == (Flat(a) + ra)[..|a| * n] == Flat(b);
    assert ra == (Flat(a) + ra)[|a| * n..] == rb;
    SameBlocks(a, b, n);
  }

  lemma Apart(x: nat, y: nat, n: nat)
    requires x < y
    ensures x * n + n <= y * n
  {
    NonNegative(y - x - 1, n);
    assert y * n == x * n + n + (y - x - 1) * n;
  }

  lemma {:induction false} SameBlocks(a: seq<bytes>, b: seq<bytes>, n: nat)
    requires |a| == |b| && Flat(a) == Flat(b)
    requires forall i :: 0 <= i < |a| ==> |a[i]| == n
    requires forall i :: 0 <= i < |b| ==> |b[i]| == n
    ensures a == b
  {
    if a != [] {
      var x, y := a[..|a| - 1], b[..|b| - 1];
      FlatLength(x, n);
      FlatLength(y, n);
      assert Flat(x) == Flat(a)[..|x| * n] && Flat(y) == Flat(b)[..|x| * n];
      assert a[|a| - 1] == Flat(a)[|x| * n..] && b[|b| - 1] == Flat(b)[|x| * n..];
      SameBlocks(x, y, n);
    }
  }

  // FAAC, fed one block at a time: what it returns may depend on all the blocks so far.
  type Codec = seq<bytes> -> bytes

  // aac_encoder_encode_frame.
  class AacEncoder {
    const faac: Codec
    const pcm: array<byte>      // pPCM; its length is nPcmSize
    var pcmLen: nat             // nPcmALen
    var blocks: seq<bytes>      // what faacEncEncode was given
    ghost var consumed: bytes   // every input so far

    ghost predicate Valid()
      reads this, pcm
    {
      && 0 < pcm.Length && pcmLen <= pcm.Length
      && (forall i :: 0 <= i < |blocks| ==> |blocks[i]| == pcm.Length)
      && Flat(blocks) + pcm[..pcmLen] == consumed
    }

    constructor (size: nat, faac: Codec)
      requires size > 0
      ensures Valid() && fresh(pcm) && pcm.Length == size && this.faac == faac
      ensures blocks == [] && pcmLen == 0 && consumed == []
    {
      this.faac := faac;
      pcm := new byte[size];
      pcmLen, blocks, consumed := 0, [], [];
    }

    // An input may at most complete one block and fill the buffer again.
    method EncodeFrame(inbuf: bytes) returns (ret: nat, out: bytes)
      requires Valid() && pcmLen + |inbuf| <= 2 * pcm.Length
      modifies this, pcm
      ensures Valid() && consumed == old(consumed) + inbuf
      ensures old(pcmLen) + |inbuf| < pcm.Length ==> blocks == old(blocks) && ret == 0 && out == []
      ensures old(pcmLen) + |inbuf| >= pcm.Length ==>
                |blocks| == |old(blocks)| + 1 && old(blocks) <= blocks && ret == old(pcmLen) && out == faac(blocks)
      ensures pcmLen < pcm.Length <==> old(pcmLen) + |inbuf| < 2 * pcm.Length
    {
      ret, out := 0, [];
      var size := pcm.Length;
      if pcmLen + |inbuf| < size {
        Keep(inbuf);
      } else {
        ret := pcmLen;
        var fill := size - pcmLen;
        Complete(inbuf[..fill]);
        out := faac(blocks);
        Keep(inbuf[fill..]);
        assert inbuf == inbuf[..fill] + inbuf[fill..];
      }
    }

    // What does not complete a block waits behind what is there.
    method Keep(part: bytes)
      requires Valid() && pcmLen + |part| <= pcm.Length
      modifies `pcmLen, `consumed, pcm
      ensures Valid() && consumed == old(consumed) + part && pcmLen == old(pcmLen) + |part|
    {
      forall k | 0 <= k < |part| {
        pcm[pcmLen + k] := part[k];
      }
      assert pcm[..pcmLen + |part|] == old(pcm[..pcmLen]) + part;
      Regroup(Flat(blocks), old(pcm[..pcmLen]), part, []);
      pcmLen := pcmLen + |part|;
      consumed := consumed + part;
    }

    // A block is completed and handed over.
    method Complete(part: bytes)
      requires Valid() && pcmLen + |part| == pcm.Length
      modifies `pcmLen, `consumed, `blocks, pcm
      ensures Valid() && consumed == old(consumed) + part && pcmLen == 0
      ensures |blocks| == |old(blocks)| + 1 && old(blocks) <= blocks
    {
      Keep(part);
      FlatSnoc(blocks, pcm[..]);
      assert pcm[..] == pcm[..pcmLen];
      blocks := blocks + [pcm[..]];
      pcmLen := 0;
    }

    // Inputs no longer than a block keep the buffer from ever being full between calls, and then the
    // blocks are the only way to cut the input.
    lemma BlocksAreForced(other: seq<bytes>, rest: bytes)
      requires Valid() && pcmLen < pcm.Length
      requires |rest| < pcm.Length && Flat(other) + rest == consumed
      requires forall i :: 0 <= i < |other| ==> |other[i]| == pcm.Length
      ensures other == blocks && rest == pcm[..pcmLen]
    {
      UniqueCut(other, rest, blocks, pcm[..pcmLen], pcm.Length);
    }
  }

  // What an encoder answers: a coded block, or a negative error code, which Opus may give.
  datatype Reply = Coded(out: bytes) | Failed(error: int)

  // X2AudEncoder::DoEncode for the codecs without a buffer of their own: 10 ms pieces, 20 ms blocks.
  class PcmEncoder {
    const codec: seq<bytes> -> Reply
    const pieceLen: nat          // req_aud_len_
    const samples: array<byte>   // audio_samples_; its length is audio_samples_size_
    var samplesLen: nat
    var blocks: seq<bytes>       // what the codec was given
    ghost var accepted: bytes

    ghost predicate Valid()
      reads this, samples
    {
      && 0 < pieceLen && samples.Length == 2 * pieceLen && samplesLen in {0, pieceLen}
      && (forall i :: 0 <= i < |blocks| ==> |blocks[i]| == 2 * pieceLen)
      && Flat(blocks) + samples[..samplesLen] == accepted
    }

    constructor (pieceLen: nat, codec: seq<bytes> -> Reply)
      requires pieceLen > 0
      ensures Valid() && fresh(samples) && this.pieceLen == pieceLen && this.codec == codec
      ensures accepted == [] && blocks == []
    {
      this.codec, this.pieceLen := codec, pieceLen;
      samples := new byte[2 * pieceLen];
      samplesLen, blocks, accepted := 0, [], [];
    }

    // Which of the three refusals an input meets, in the order they are tested.
    function Refusal(had: nat, len: nat): (code: int)
      requires pieceLen > 0
      ensures code == 0 <==> len in {pieceLen, 2 * pieceLen} && had + len <= 2 * pieceLen
    {
      if len == 0 then -1
      else if len + had > 2 * pieceLen then -2
      else
        WholePieces(len, pieceLen);
        if len % pieceLen != 0 then -3 else 0
    }

    // A refusal leaves the encoder as it was. What is taken is one piece, or two when the buffer is
    // empty; it stays taken when the codec fails on the block it completes.
    method DoEncode(data: bytes) returns (code: int, out: bytes)
      requires Valid()
      modifies this, samples
      ensures Valid()
      ensures data == [] ==> code == -1
      ensures data != [] && |data| + old(samplesLen) > 2 * pieceLen ==> code == -2
      ensures data != [] && |data| + old(samplesLen) <= 2 * pieceLen && |data| !in {pieceLen, 2 * pieceLen} ==>
                code == -3
      ensures Refusal(old(samplesLen), |data|) != 0 ==>
                && code == Refusal(old(samplesLen), |data|) && out == []
                && accepted == old(accepted) && blocks == old(blocks) && samplesLen == old(samplesLen)
      ensures Refusal(old(samplesLen), |data|) == 0 ==>
                accepted == old(accepted) + data && Encoded(old(samplesLen) + |data|, old(blocks), code, out)
    {
      out := [];
      if |data| == 0 {
        return -1, [];
      }
      if |data| + samplesLen > samples.Length {
        return -2, [];
      }
      if |data| % pieceLen != 0 {
        return -3, [];
      }
      code, out := Take(data);
    }

    // After an accepted input brought the buffer to `total` bytes: a full buffer went to the codec,
    // whose answer is returned, and less than that waits.
    ghost predicate Encoded(total: nat, had: seq<bytes>, code: int, out: bytes)
      reads `blocks, `samplesLen
    {
      if total < 2 * pieceLen then blocks == had && samplesLen == total && code == 0 && out == []
      else
        && |blocks| == |had| + 1 && had <= blocks && samplesLen == 0
        && match codec(blocks)
           case Coded(coded) => code == |coded| && out == coded
           case Failed(error) => code == error && out == []
    }

    method Take(data: bytes) returns (code: int, out: bytes)
      requires Valid() && |data| in {pieceLen, 2 * pieceLen} && samplesLen + |data| <= samples.Length
      modifies this, samples
      ensures Valid() && accepted == old(accepted) + data
      ensures Encoded(old(samplesLen) + |data|, old(blocks), code, out)
    {
      code, out := 0, [];
      Keep(data);
      if samplesLen >= samples.Length {
        Complete();
        match codec(blocks) {
          case Coded(coded) => code, out := |coded|, coded;
          case Failed(error) => code, out := error, [];
        }
      }
    }

    // The input goes behind what waits.
    method Keep(data: bytes)
      requires samplesLen + |data| <= samples.Length
      requires Flat(blocks) + samples[..samplesLen] == accepted
      modifies `samplesLen, `accepted, samples
      ensures samplesLen == old(samplesLen) + |data| <= samples.Length && accepted == old(accepted) + data
      ensures Flat(blocks) + samples[..samplesLen] == accepted
    {
      forall k | 0 <= k < |data| {
        samples[samplesLen + k] := data[k];
      }
      assert samples[..samplesLen + |data|] == old(samples[..samplesLen]) + data;
      Regroup(Flat(blocks), old(samples[..samplesLen]), data, []);
      samplesLen := samplesLen + |data|;
      accepted := accepted + data;
    }

    // A full buffer is a block.
    method Complete()
      requires samplesLen == samples.Length && Flat(blocks) + samples[..samplesLen] == accepted
      modifies `blocks, `samplesLen
      ensures blocks == old(blocks) + [samples[..]] && samplesLen == 0 && Flat(blocks) + samples[..0] == accepted
    {
      FlatSnoc(blocks, samples[..]);
      assert samples[..] == samples[..samplesLen];
      blocks := blocks + [samples[..]];
      samplesLen := 0;
      assert samples[..0] == [];
    }
  }

  lemma WholePieces(len: nat, piece: nat)
    requires piece > 0 && 0 < len <= 2 * piece
    ensures len % piece == 0 <==> len == piece || len == 2 * piece
  {
    if len < piece {
      DivModUnique(len, 0, piece, len);
    } else if len < 2 * piece {
      DivModUnique(len, 1, piece, len - piece);
    } else {
      DivModUnique(len, 2, piece, 0);
    }
  }
}
