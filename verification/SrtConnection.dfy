// The partial-write sender: the write cache of X2NetConnection and the send loop of
// X2NetSrtConnection over a transport that may take any part of what it is offered.
module SrtConnection {
  import opened Bytes
  import opened Framing
  import opened Sequences

  // A queued item. An absent part is empty: SetHdr and SetData ignore empty input.
  datatype NetData = NetData(hdr: bytes, data: bytes)
  {
    // What the send loop writes for the item: it has no branch for an item without a header.
    function Sent(): bytes { if hdr == [] then [] else hdr + data }
  }

  function SentAll(q: seq<NetData>): bytes {
    if q == [] then [] else q[0].Sent() + SentAll(q[1..])
  }

  // Every part of every item, in order.
  function Parts(q: seq<NetData>): seq<bytes> {
    if q == [] then [] else Parts(q[..|q| - 1]) + [q[|q| - 1].hdr, q[|q| - 1].data]
  }

  lemma SentNone()
    ensures SentAll([]) == []
  {
  }

  predicate IsSuffix(s: bytes, t: bytes) {
    |s| <= |t| && s == t[|t| - |s|..]
  }

  ghost predicate Owed(rest: bytes, wire: bytes, enqueued: seq<NetData>, taken: nat, sendList: seq<NetData>) {
    && taken <= |enqueued| && sendList == enqueued[taken..]
    && wire + rest == SentAll(enqueued[..taken])
    && IsSuffix(rest, if taken == 0 then [] else enqueued[taken - 1].Sent())
  }

  // With nothing owed, the front of the list is all that is owed once it is taken.
  lemma TakeFront(wire: bytes, enqueued: seq<NetData>, taken: nat, sendList: seq<NetData>)
    requires Owed([], wire, enqueued, taken, sendList) && sendList != []
    ensures Owed(sendList[0].Sent(), wire, enqueued, taken + 1, sendList[1..])
  {
    hide SentAll;
    TakenNext(enqueued, taken, sendList[0]);
    assert wire + [] == wire;
  }

  lemma SentPart(wire: bytes, msg: bytes, behind: bytes, n: nat)
    requires n <= |msg|
    ensures wire + msg[..n] + (msg[n..] + behind) == wire + (msg + behind)
    ensures forall t :: IsSuffix(msg + behind, t) ==> IsSuffix(msg[n..] + behind, t)
  {
  }

  class Connection {
    var cacheData: array<byte>     // write_cache_data_; its length is n_write_cache_size_
    var cacheLen: nat              // n_write_cache_len_
    var sendList: seq<NetData>     // list_send_data_
    var sockClosed: bool
    var writable: bool
    ghost var wire: bytes          // every byte the transport accepted
    ghost var enqueued: seq<NetData>   // every item ever given to Send
    ghost var taken: nat           // how many of them GetX2NetData returned
    ghost var refusals: nat        // how often the transport took less than it was offered

    ghost predicate Valid()
      reads this, cacheData
    {
      cacheLen <= cacheData.Length && Owes(Cache())
    }

    // `rest` is what the transport still has to get of the items taken so far, and all of it
    // belongs to the last of them.
    ghost predicate Owes(rest: bytes)
      reads `wire, `enqueued, `taken, `sendList
    {
      Owed(rest, wire, enqueued, taken, sendList)
    }

    ghost function Cache(): bytes
      requires cacheLen <= cacheData.Length
      reads this, cacheData
    {
      cacheData[..cacheLen]
    }

    constructor ()
      ensures Valid() && fresh(cacheData)
      ensures wire == [] && enqueued == [] && !sockClosed && writable
    {
      hide SentAll;
      cacheData := new byte[0];
      cacheLen, sendList, sockClosed, writable := 0, [], false, true;
      wire, enqueued, taken, refusals := [], [], 0, 0;
      new;
      SentNone();
    }

    // Append to the cache, growing it to the exact size when there is no room.
    method CacheData(pData: bytes)
      requires cacheLen <= cacheData.Length
      modifies `cacheData, `cacheLen, cacheData
      ensures cacheLen <= cacheData.Length && (cacheData == old(cacheData) || fresh(cacheData))
      ensures Cache() == old(Cache()) + pData
      ensures cacheData.Length == if old(cacheData.Length - cacheLen) < |pData| then cacheLen else old(cacheData.Length)
    {
      if cacheData.Length - cacheLen < |pData| {
        var temp := new byte[cacheLen + |pData|];
        forall k | 0 <= k < cacheLen {
          temp[k] := cacheData[k];
        }
        assert temp[..cacheLen] == cacheData[..cacheLen];
        cacheData := temp;
      }
      ghost var kept := cacheData[..cacheLen];
      forall k | 0 <= k < |pData| {
        cacheData[cacheLen + k] := pData[k];
      }
      assert cacheData[..cacheLen] == kept;
      cacheLen := cacheLen + |pData|;
      assert cacheData[..cacheLen] == kept + pData;
    }

    // Drop what was sent from the front; a count beyond the cache is ignored.
    method ResetCacheData(sent: nat)
      requires cacheLen <= cacheData.Length
      modifies `cacheLen, cacheData
      ensures cacheLen <= cacheData.Length
      ensures Cache() == if sent <= old(cacheLen) then old(Cache())[sent..] else old(Cache())
    {
      if cacheLen >= sent {
        var rest := cacheLen - sent;
        if rest > 0 {
          forall k | 0 <= k < rest {
            cacheData[k] := cacheData[sent + k];
          }
        }
        cacheLen := rest;
      }
    }

    method Send(item: NetData)
      requires Valid()
      modifies `sendList, `enqueued
      ensures Valid() && enqueued == old(enqueued) + [item]
    {
      assert (enqueued + [item])[..taken] == enqueued[..taken];
      sendList := sendList + [item];
      enqueued := enqueued + [item];
    }

    // Send calls by other threads, each under the list lock: any number up to `budget`.
    method OtherThreads(budget: nat) returns (left: nat)
      requires Valid()
      modifies `sendList, `enqueued
      ensures Valid() && old(enqueued) <= enqueued
      ensures left + |sendList| == budget + |old(sendList)|
    {
      var none: seq<NetData> := [];
      assert |none| <= budget;
      var items: seq<NetData> :| |items| <= budget;
      for i := 0 to |items|
        invariant Valid() && old(enqueued) <= enqueued
        invariant |sendList| == |old(sendList)| + i
      {
        Send(items[i]);
      }
      left := budget - |items|;
    }

    // The front of the list. The send loop takes an item only when its cache is empty.
    method GetX2NetData(budget: nat) returns (item: NetData, ok: bool, left: nat)
      requires Valid() && cacheLen == 0
      modifies `sendList, `enqueued, `taken
      ensures old(enqueued) <= enqueued
      ensures !ok ==> Valid() && sendList == []
      ensures ok ==> Owes(item.Sent())
      ensures ok ==> left + |sendList| < budget + |old(sendList)|
    {
      hide Owed;
      left := OtherThreads(budget);
      if |sendList| > 0 {
        item, ok := sendList[0], true;
        assert Cache() == [];
        TakeFront(wire, enqueued, taken, sendList);
        sendList := sendList[1..];
        taken := taken + 1;
      } else {
        item, ok := NetData([], []), false;
      }
    }

    // srt_sendmsg: an error, or a count up to the length offered. `behind` follows `msg`.
    method SendMsg(msg: bytes, ghost behind: bytes) returns (result: int)
      requires Owes(msg + behind)
      modifies `wire, `refusals
      ensures result <= |msg| && old(wire) <= wire
      ensures refusals == old(refusals) + if result == |msg| then 0 else 1
      ensures wire == old(wire) + if result > 0 then msg[..result] else []
      ensures Owes(if result > 0 then msg[result..] + behind else msg + behind)
    {
      result :| result <= |msg|;
      refusals := refusals + if result == |msg| then 0 else 1;
      if result > 0 {
        SentPart(wire, msg, behind, result);
        wire := wire + msg[..result];
      }
    }

    // Keep back what the transport did not take.
    method CacheRest(part1: bytes, part2: bytes)
      requires cacheLen == 0 && Owes(part1 + part2)
      modifies `cacheData, `cacheLen, cacheData
      ensures Valid() && Cache() == part1 + part2
      ensures cacheData == old(cacheData) || fresh(cacheData)
    {
      CacheData(part1);
      if |part2| > 0 {
        CacheData(part2);
      }
      assert Cache() == part1 + part2;
    }

    // The body of the send loop for one item; `more` when the loop goes on.
    method SendItem(item: NetData) returns (more: bool)
      requires cacheLen == 0 && Owes(item.Sent())
      modifies `wire, `refusals, `cacheData, `cacheLen, cacheData
      ensures Valid() && old(wire) <= wire && (more ==> cacheLen == 0)
      ensures refusals == old(refusals) + if more then 0 else 1
      ensures cacheData == old(cacheData) || fresh(cacheData)
    {
      var hdr, data := item.hdr, item.data;
      if |hdr| > 0 {
        var result := SendMsg(hdr, data);
        if result <= 0 {
          CacheRest(hdr, data);
          return false;
        }
        if result != |hdr| {
          CacheRest(hdr[result..], data);
          return false;
        }
        assert hdr[result..] + data == data + [];
        more := SendPart(data);
        return more;
      }
      assert Cache() == item.Sent();
      more := true;
    }

    // The data part, once the header is gone.
    method SendPart(data: bytes) returns (more: bool)
      requires cacheLen == 0 && Owes(data + [])
      modifies `wire, `refusals, `cacheData, `cacheLen, cacheData
      ensures Valid() && old(wire) <= wire && (more ==> cacheLen == 0)
      ensures refusals == old(refusals) + if more then 0 else 1
      ensures cacheData == old(cacheData) || fresh(cacheData)
    {
      if |data| > 0 {
        var result := SendMsg(data, []);
        if result <= 0 {
          CacheRest(data, []);
          return false;
        }
        if result != |data| {
          CacheRest(data[result..], []);
          return false;
        }
        assert data[result..] + [] == Cache();
        return true;
      }
      assert data + [] == Cache();
      more := true;
    }

    // Offer the cache first; `more` when it is empty afterwards.
    method SendCache() returns (more: bool)
      requires Valid()
      modifies `wire, `refusals, `cacheLen, cacheData
      ensures Valid() && old(wire) <= wire && (more <==> cacheLen == 0)
      ensures refusals == old(refusals) + if more then 0 else 1
    {
      hide SentAll, IsSuffix;
      if cacheLen == 0 {
        return true;
      }
      var cache := cacheData[..cacheLen];
      assert cache + [] == Cache();
      var result := SendMsg(cache, []);
      if result <= 0 {
        return false;
      }
      assert cache[result..] + [] == cache[result..];
      ResetCacheData(result);
      assert Cache() == cache[result..];
      more := result == |cache|;
    }

    // One turn of the send loop; `more` when it goes round again.
    method SendTurn(budget: nat) returns (more: bool, left: nat)
      requires Valid()
      modifies `wire, `refusals, `enqueued, `taken, `sendList, `cacheData, `cacheLen, cacheData
      ensures Valid() && old(enqueued) <= enqueued && old(wire) <= wire
      ensures cacheData == old(cacheData) || fresh(cacheData)
      ensures more ==> left + |sendList| < budget + |old(sendList)|
      ensures refusals >= old(refusals)
      ensures !more && refusals == old(refusals) ==> sendList == [] && cacheLen == 0
    {
      left := budget;
      more := SendCache();
      if !more {
        return;
      }
      var item;
      item, more, left := GetX2NetData(budget);
      if more {
        more := SendItem(item);
      }
    }

    // One pass of the sender, while other threads add up to `budget` items. Whatever the transport
    // accepts, Valid keeps the wire followed by the cache equal to what the taken items stand for,
    // and the cache a suffix of the last of them; and it stops early only on a transport that took
    // less than it was offered.
    method RunOnce(budget: nat)
      requires Valid()
      modifies `wire, `refusals, `enqueued, `taken, `sendList, `cacheData, `cacheLen, cacheData
      ensures Valid() && old(enqueued) <= enqueued && old(wire) <= wire
      ensures sockClosed || !writable ==> wire == old(wire) && Cache() == old(Cache())
      ensures !sockClosed && writable && refusals == old(refusals) ==> sendList == [] && cacheLen == 0
    {
      if !sockClosed && writable {
        var more, left: nat := true, budget;
        while more
          invariant Valid() && old(enqueued) <= enqueued && old(wire) <= wire
          invariant cacheData == old(cacheData) || fresh(cacheData)
          invariant refusals >= old(refusals)
          invariant !more && refusals == old(refusals) ==> sendList == [] && cacheLen == 0
          decreases more, left + |sendList|
        {
          more, left := SendTurn(left);
        }
      }
    }

    // At any moment the peer has seen a prefix of what Send was given, item by item, and no more
    // than the last item taken is waiting in the cache.
    lemma PeerSeesPrefix()
      requires Valid()
      ensures wire <= SentAll(enqueued)
      ensures cacheLen <= if taken == 0 then 0 else |enqueued[taken - 1].hdr| + |enqueued[taken - 1].data|
      ensures SentAll(enqueued) == wire + Cache() + SentAll(sendList)
    {
      assert enqueued == enqueued[..taken] + sendList;
      SentAllAppend(enqueued[..taken], sendList);
    }

    // Once everything is drained, every byte given to Send is on the wire exactly when no item had
    // data without a header: such an item is taken off the list and dropped.
    lemma DrainedLossless()
      requires Valid() && sendList == [] && cacheLen == 0
      ensures wire == Flat(Parts(enqueued)) <==> Writable(enqueued)
    {
      hide SentAll, Flat, Parts, Writable, Owed;
      AllOnWire();
      SentAllLoss(enqueued);
    }

    lemma AllOnWire()
      requires Valid() && sendList == [] && cacheLen == 0
      ensures wire == SentAll(enqueued)
    {
      hide SentAll, IsSuffix;
      assert enqueued[..taken] == enqueued;
      assert Cache() == [] && wire + [] == wire;
    }

    // Frames sent this way are read back as they were sent, any unfinished one aside.
    lemma FramesArrive(f: Framing)
      requires Valid() && sendList == [] && cacheLen == 0 && Sendable(f, Messages(enqueued))
      requires forall i :: 0 <= i < |enqueued| ==> enqueued[i].hdr == f.Header(|enqueued[i].data|)
      ensures Parse(f, wire) == Parsed(Messages(enqueued), [])
    {
      hide SentAll, Owed;
      AllOnWire();
      FramedItems(f, enqueued);
      assert wire == EncodeAll(f, Messages(enqueued)) + [];
      ParseAfterEncode(f, Messages(enqueued), []);
    }
  }

  predicate Writable(q: seq<NetData>) {
    forall i :: 0 <= i < |q| ==> q[i].hdr == [] ==> q[i].data == []
  }

  lemma {:induction false} SentAllLoss(q: seq<NetData>)
    ensures |SentAll(q)| <= |Flat(Parts(q))|
    ensures SentAll(q) == Flat(Parts(q)) <==> Writable(q)
    ensures |SentAll(q)| == |Flat(Parts(q))| ==> Writable(q)
  {
    hide Flat, SentAll;
    if q == [] {
      SentNone();
      FlatNone(Parts(q));
    } else {
      var rest, item := q[..|q| - 1], q[|q| - 1];
      assert q == rest + [item];
      SentAllLoss(rest);
      SentAllSnoc(rest, item);
      TwoParts(Parts(rest), item.hdr, item.data);
      assert Writable(q) <==> Writable(rest) && (item.hdr == [] ==> item.data == []);
      SameEnds(SentAll(rest), Flat(Parts(rest)), item);
    }
  }

  lemma TwoParts(parts: seq<bytes>, a: bytes, b: bytes)
    ensures Flat(parts + [a, b]) == Flat(parts) + (a + b)
  {
    FlatSnoc(parts, a);
    FlatSnoc(parts + [a], b);
    assert parts + [a] + [b] == parts + [a, b];
    assert Flat(parts) + a + b == Flat(parts) + (a + b);
  }

  lemma SameEnds(x: bytes, y: bytes, item: NetData)
    requires |x| <= |y| && (|x| == |y| ==> x == y)
    ensures |x + item.Sent()| <= |y + (item.hdr + item.data)|
    ensures x + item.Sent() == y + (item.hdr + item.data) <==> x == y && (item.hdr == [] ==> item.data == [])
    ensures |x + item.Sent()| == |y + (item.hdr + item.data)| ==> x == y && (item.hdr == [] ==> item.data == [])
  {
  }

  // What the parts mean to a reader: with the length of each message as its header, a drained sender's
  // wire parses to the messages.
  lemma {:induction false} FramedItems(f: Framing, q: seq<NetData>)
    requires forall i :: 0 <= i < |q| ==> q[i].hdr == f.Header(|q[i].data|)
    ensures SentAll(q) == EncodeAll(f, Messages(q))
  {
    if q != [] {
      FramedItems(f, q[1..]);
      assert q[0].hdr != [] && q[0].Sent() == f.Encode(q[0].data);
      EncodeAllCons(f, q[0].data, Messages(q[1..]), []);
      assert EncodeAll(f, Messages(q)) + [] == EncodeAll(f, Messages(q));
      assert EncodeAll(f, Messages(q[1..])) + [] == EncodeAll(f, Messages(q[1..]));
    }
  }

  function Messages(q: seq<NetData>): seq<bytes> {
    if q == [] then [] else [q[0].data] + Messages(q[1..])
  }

  lemma {:induction false} SentAllAppend(q: seq<NetData>, r: seq<NetData>)
    ensures SentAll(q + r) == SentAll(q) + SentAll(r)
  {
    if q == [] {
      assert q + r == r;
    } else {
      assert (q + r)[1..] == q[1..] + r;
      SentAllAppend(q[1..], r);
    }
  }

  lemma TakenNext(q: seq<NetData>, n: nat, item: NetData)
    requires n < |q| && item == q[n]
    ensures SentAll(q[..n + 1]) == SentAll(q[..n]) + item.Sent()
    ensures q[n..][1..] == q[n + 1..]
  {
    assert q[..n] + [item] == q[..n + 1];
    SentAllSnoc(q[..n], item);
  }

  lemma SentAllSnoc(q: seq<NetData>, item: NetData)
    ensures SentAll(q + [item]) == SentAll(q) + item.Sent()
  {
    SentAllAppend(q, [item]);
    assert SentAll([item]) == item.Sent() + [];
  }
}
