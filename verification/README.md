# X2Rtc stream server: a verified model

This project models the parts of the X2Rtc media server whose correctness rests on state kept
between calls, and proves what they promise over whole runs.

| file | what it models |
|---|---|
| `Arithmetic.dfy`, `Sequences.dfy`, `Bytes.dfy` | division facts, sequence facts; the fixed-width byte accessors |
| `Framing.dfy` | length-prefixed framing as a function of the whole byte stream (section 2 of RFC 4571, and the 4-byte little-endian variant of the RPC connection) |
| `Session.dfy` | a framed connection seen from outside: reads of any size, a listener that may close at any packet, a reader that needs no buffer |
| `TcpConnection.dfy` | the buffered reader of `X2TcpConnection` and `X2RpcConnection`, `Send`, and the write path below it |
| `SrtConnection.dfy` | the write cache and the partial-write send loop |
| `VideoSwitch.dfy` | the choice of video frames while a subscriber changes simulcast scale |
| `Pacing.dfy`, `Peer.dfy` | the peer: retry, close once, handler input, paced sending |
| `Publishing.dfy` | publishing across several peers and the dispatcher (`TryPublish` and `UnPublish`, X2Rtc-Stream/X2MediaDispatch.cpp lines 386 to 460) |
| `Lifetime.dfy` | deferred deletion of connections under every interleaving |
| `RefPtr.dfy` | `scoped_refptr` and the counts of the objects it points to |
| `Reblock.dfy`, `AudDecoder.dfy` | AAC and PCM re-blocking, the decoder's 10 ms slicing |
| `UrlParser.dfy` | the URL character machine |
| `PortManager.dfy` | the port allocator's circular probe |
| `Timestamp.dfy` | the order of wrapping timestamps |

Classes carry the source's fields; ghost fields record history (bytes received, items enqueued,
objects destroyed), and `Valid()` ties the two together. Every method keeps `Valid()`, so what it
says holds after any sequence of calls.

Foreign calls are free choices. A read is any chunk that fits the space offered; `srt_sendmsg` and
`uv_try_write` take any part; a bind gives any answer; the clock moves forward by any amount; the
codecs are functions of the blocks they were given. The application behind a framed connection is a
function that decides, after each packet, whether it closes the connection.

## What the model shows about the code

Where the code does not do what its role promises, the code is kept and the exact condition is proved.

- A message is received as sent exactly when it is not empty and its length fits the header; `Send`
  narrows a longer length without a check (`Framing.SendRoundTrip`).
- A TCP write that fails after a part of a frame was taken leaves the connection open. The stream then
  parses to exactly the messages that were sent iff no frame was torn so and every length fits the
  header; what follows a torn frame is taken for the rest of its message
  (`TcpConnection.ReadIffNoneTorn`, `TcpConnection.TornFrameSwallows`).
- The SRT send loop takes an item without a header off the list and drops its data
  (`SrtConnection.Connection.DrainedLossless`).
- After two completed scale changes a third request can put delta frames of the wrong scale into the
  stream, because `n_last_scale_rd_ok_` is stored by the first change only. A play request spoils the
  stream even when it repeats the scale that is being shown, since it makes a switch pending again.
  Which requests are harmless is exact for each request and for whole runs
  (`VideoSwitch.RequestSafety`, `VideoSwitch.SmoothIffPolite`, `VideoSwitch.ThirdSwitchGlitch`), and
  carries over to the video a peer hands to MuxData (`Peer.NetPeer.VideoIsSmooth`).
- `SetRecvStatus` never stores the flag that `VideoCanSend` tests, so no sequence of calls turns video
  off (`VideoSwitch.TurningVideoOff`, `Peer.NetPeer.VideoStaysOn`).
- A connection can be deleted by some run exactly when it is not stuck. It gets stuck when its own pass
  comes after its peer has let go and before its socket has reported anything: the handler it closes
  then reports nothing, and the connection never gets on the delete list
  (`Lifetime.DeletableIffNotStuck`, `Lifetime.DeletableIffReportFirst`, `Lifetime.StuckIsReachable`).
- `UnPublish` works by name: a peer that gives up waiting removes whoever holds the name by then, and
  a peer whose name changed leaves its old entry behind. Registrations are right at every moment of a
  run exactly when registered peers keep their names and no close hits a third peer that neither waits
  nor was told to make room (`Publishing.GoodRunsStayGood`, `Publishing.WaitingPeerEvicts`). A run keeps
  the dispatcher from calling deleted pubers, whatever comes next, exactly when every peer that closes is
  filed under its present name only; publishing, renaming and closing is enough to break that
  (`Publishing.TidyRunsStayClean`, `Publishing.TidyIffUntouchable`, `Publishing.TouchStep`,
  `Publishing.RenamedPeerDangles`).
- Decoded PCM is lost for some packets exactly when 10 ms is no whole number of sample frames, and for a
  stream of one packet size exactly when moreover the packet is no whole number of 10 ms; 22050 Hz stereo
  loses bytes with its third packet (`AudDecoder.LosslessIffWholeTenMs`, `AudDecoder.OneSizeLossless`,
  `AudDecoder.ThirdPacketLoses`). In terms of rates, a decoder keeps every byte of any whole-frame packets
  exactly when `hz % 100` sample frames are less than 100 bytes, as at every rate divisible by 100
  (`AudDecoder.RateIsLossless`, `AudDecoder.DecodeAtRate`).
- A password reads back exactly when it has letters, digits and '%' only and is not all digits, and a
  query exactly when it has no '?', which is dropped. A password with '-', '.', '_' or '~' is refused
  although a user name may have them (`UrlParser.ParseAfterPrint`, `UrlParser.RefusedPassword`,
  `UrlParser.DigitPassword`). Over all strings, parsing aborts exactly on a port that is not followed by
  what ends it, and on a login whose host starts with '[' (`UrlParser.AbortsIff`).
- A URL without a path is refused when a query or fragment follows its authority, and trips the final
  assertion when it names a port (`UrlParser.AuthorityOnly`).
- A port range of all 65536 ports wraps the 16-bit count to 0: nothing can be bound, and giving back a
  port writes outside the vector (`PortManager.NumPortsExact`, `PortManager.Manager.BindThenUnbind`).
- A negative result of the Opus encoder is returned after the samples were consumed, and looks like a
  refusal (`Reblock.PcmEncoder.DoEncode`).

## Model

| member | source | states |
|---|---|---|
| Bytes.GetAfterSet | X2Rtc-Stream/X2UV-Base/X2Utils.hpp:109-112 | a 16- or 32-bit setter followed by its getter gives the value modulo the width |
| Bytes.SetAfterGet | X2Rtc-Stream/X2UV-Base/X2Utils.hpp:194-207 | a getter followed by its setter restores the very bytes read |
| Bytes.FirstByteDecides | X2Rtc-Stream/X2UV-Base/X2Utils.hpp:109-112 | two-byte values compare from the first byte on: network byte order |
| Bytes.LastByteDecides | X2Rtc-Stream/X2UV-Base/X2Utils.hpp:203-207 | four-byte values compare from the last byte on: little-endian |
| Bytes.OrIsSum | X2Rtc-Stream/X2UV-Base/X2Utils.hpp:203-207 | joining shifted bytes with `\|` is adding them |
| Bytes.Set2Bytes | X2Rtc-Stream/X2UV-Base/X2Utils.hpp:135-139 | two big-endian bytes are written in place, the rest of the array is untouched |
| Bytes.Set4LEBytes | X2Rtc-Stream/X2UV-Base/X2Utils.hpp:195-201 | four little-endian bytes are written in place, the rest of the array is untouched |
| Framing.ParseAppend | X2Rtc-Stream/X2UV-Base/X2RpcConnection.cpp:56-112 | parsing is incremental: later bytes only meet the unfinished suffix |
| Framing.EncodeAfterParse | X2Rtc-Stream/X2UV-Base/X2TcpConnection.cpp:65-100 | frames encoded again, followed by the suffix, are the stream byte for byte |
| Framing.ParseAfterEncode | X2Rtc-Stream/X2UV-Base/X2TcpConnection.cpp:157-167 | any list of messages, null ones included, parses back out of its encoding, up to an unfinished tail |
| Framing.SendRoundTrip | X2Rtc-Stream/X2UV-Base/X2RpcConnection.cpp:157-166 | one sent message is received as it was iff it is not empty and its length fits the header |
| Framing.ShortHeaders | X2Rtc-Stream/X2UV-Base/X2RpcConnection.cpp:157-166 | the very header bytes of a message below 256 bytes, for both framings |
| Session.DeliverIsPrefix | X2Rtc-Stream/X2UV-Base/X2RpcConnection.cpp:59-84 | the listener sees a prefix of the packets in order, and the first packet on which it closes is the last |
| Session.OneRead | X2Rtc-Stream/X2UV-Base/X2RpcConnection.cpp:57-154 | one read keeps the connection sound, or closes it with an outcome no later byte can change |
| Session.IdealSplits | X2Rtc-Stream/X2UV-Base/X2RpcConnection.cpp:57-154 | the reader the buffered one is measured against: its frames fit and come first, and behind them is an oversized frame that has filled a buffer, or one whose end has not arrived |
| Session.RunIsIdeal | X2Rtc-Stream/X2UV-Base/X2RpcConnection.cpp:29-155 | for every stream and every cut into reads that fit, packets handed over and the overflow close are those of a reader that sees the whole stream; the close happens iff an oversized frame at the head has filled a buffer and the listener has not closed before |
| Session.SendThenRun | X2Rtc-Stream/X2UV-Base/X2TcpConnection.cpp:29-167 | what Send wrote, fed in any chunks, is received as sent without overflow; null messages are swallowed |
| TcpConnection.Connection.Read | X2Rtc-Stream/X2UV-Base/handles/X2TcpConnectionHandler.cpp:341-382 | a read of the buffered connection does what the session says for all bytes so far, and leaves room for the next |
| TcpConnection.Connection.OnTcpConnectionRead | X2Rtc-Stream/X2UV-Base/X2TcpConnection.cpp:29-155 | the loop hands over exactly the packets of the stream, buffer[frameStart..bufferDataLen] is the unparsed suffix, and ErrorReceiving runs iff that suffix fills the buffer |
| TcpConnection.Connection.TakeFrame | X2Rtc-Stream/X2UV-Base/X2RpcConnection.cpp:71-112 | one frame is handed over and stepped over, or the buffer emptied at its end, and less data remains |
| TcpConnection.Connection.Compact | X2Rtc-Stream/X2UV-Base/X2RpcConnection.cpp:121-131 | the unfinished frame moves to the front of a full buffer unchanged, and there is room behind it |
| TcpConnection.Connection.Send | X2Rtc-Stream/X2UV-Base/X2RpcConnection.cpp:157-166 | a message goes to the socket as its encoding, wholly unless the write is refused or fails |
| TcpConnection.Connection.Write | X2Rtc-Stream/X2UV-Base/handles/X2TcpConnectionHandler.cpp:187-306 | both buffers are tried at once, exactly what is left is queued, and the write fails iff the queueing does; what the socket took makes up the wire in order |
| TcpConnection.Connection.SentIsReceived | X2Rtc-Stream/X2UV-Base/X2RpcConnection.cpp:157-166 | what a run of Send put on the wire, read in any chunks, is received as sent if no frame was torn |
| TcpConnection.ReadIffNoneTorn | X2Rtc-Stream/X2UV-Base/handles/X2TcpConnectionHandler.cpp:286-305 | the wire of a run of Send parses to exactly the messages that succeeded iff no write failed behind a part of its frame and every length fits the header |
| TcpConnection.TornFrameSwallows | X2Rtc-Stream/X2UV-Base/handles/X2TcpConnectionHandler.cpp:286-305 | behind a frame torn after its header the reader gets the torn message completed with the bytes that follow |
| SrtConnection.Connection.CacheData | X2Rtc-Stream/X2NetConnection.h:173-192 | the cache is appended to, growing to the exact size only when there is no room |
| SrtConnection.Connection.ResetCacheData | X2Rtc-Stream/X2NetConnection.h:193-203 | the sent prefix is dropped; a count beyond the cache changes nothing |
| SrtConnection.Connection.Send | X2Rtc-Stream/X2NetConnection.h:205-208 | the item goes to the end of the list and what was owed stays owed |
| SrtConnection.Connection.GetX2NetData | X2Rtc-Stream/X2NetConnection.h:221-231 | the front item is taken while other threads append, and all of it is then owed |
| SrtConnection.Connection.SendCache | X2Rtc-Stream/X2Mod-Srt/X2NetSrtConnection.cpp:105-119 | the cache is offered first; the loop goes on iff it is empty afterwards |
| SrtConnection.Connection.SendPart | X2Rtc-Stream/X2Mod-Srt/X2NetSrtConnection.cpp:134-147 | once the header is gone, what is not taken of the data is in the cache |
| SrtConnection.Connection.SendItem | X2Rtc-Stream/X2Mod-Srt/X2NetSrtConnection.cpp:122-158 | after any full, partial or failed send of header and data, what was not taken is in the cache, in order |
| SrtConnection.Connection.RunOnce | X2Rtc-Stream/X2Mod-Srt/X2NetSrtConnection.cpp:93-166 | accepted bytes followed by the cache stay what the taken items stand for; the cache stays a suffix of the last one; the loop ends early only on a short send |
| SrtConnection.Connection.PeerSeesPrefix | X2Rtc-Stream/X2Mod-Srt/X2NetSrtConnection.cpp:103-164 | wire, cache and queue together are what was enqueued, so the peer sees a prefix; the cache never exceeds one item |
| SrtConnection.Connection.DrainedLossless | X2Rtc-Stream/X2Mod-Srt/X2NetSrtConnection.cpp:122-158 | once drained, every enqueued byte is on the wire iff no item had data without a header |
| SrtConnection.FramedItems | X2Rtc-Stream/X2Mod-Srt/X2NetSrtConnection.cpp:122-158 | items that carry the length of their data as header stand for the framed messages |
| SrtConnection.Connection.FramesArrive | X2Rtc-Stream/X2Mod-Srt/X2NetSrtConnection.cpp:93-166 | once drained, the wire of such items parses to exactly their messages |
| VideoSwitch.VideoRecvStatus.VideoCanSend | X2Rtc-Stream/X2NetPeer.cpp:503-569 | a frame passes iff it is of the requested scale and a key frame or none is awaited, or of the old scale during a pending switch; the branch at lines 561-566 is dead |
| VideoSwitch.VideoRecvStatus.SetRecvVideoScaleRD | X2Rtc-Stream/X2NetPeer.cpp:99-105 | a new scale is requested and a switch is pending; the same scale changes nothing |
| VideoSwitch.VideoRecvStatus.SetRecvStatus | X2Rtc-Stream/X2NetPeer.cpp:107-119 | stores the audio flag, and re-arms the key frame flags when video is turned on |
| VideoSwitch.SwitchIsSeamless | X2Rtc-Stream/X2NetPeer.cpp:503-569 | from any status, for any frames: exactly the old scale up to the first requested key frame, exactly the requested scale from it on |
| VideoSwitch.StatusIsHistory | X2Rtc-Stream/X2NetPeer.cpp:503-569 | after any run from the start every field is told by the run: requested is the scale last asked for, recorded is 1 until the first key frame of another requested scale and that scale ever after, pending from a request to the next requested key frame |
| VideoSwitch.SentIsSeen | X2Rtc-Stream/X2NetPeer.cpp:503-569 | over any run from the start the frames let through are those such a telling of the run lets through |
| VideoSwitch.SmoothIffSafe | X2Rtc-Stream/X2NetPeer.cpp:527-567 | no frame sequence makes the scale change on a delta frame iff the status is safe for what is on screen |
| VideoSwitch.RequestSafety | X2Rtc-Stream/X2NetPeer.cpp:227-233 | a play request keeps every continuation decodable iff its scale is out of range or the recorded one, or the recorded scale is on screen; SetRecvVideoScaleRD also when the scale is requested already; SetRecvStatus always |
| VideoSwitch.PoliteRunIsSmooth | X2Rtc-Stream/X2NetPeer.cpp:503-569 | over runs of frames, play requests, scale requests and status changes that are each harmless when they come, the scale only changes on key frames |
| VideoSwitch.SmoothIffPolite | X2Rtc-Stream/X2NetPeer.cpp:503-569 | a run stays decodable, at every moment and whatever frames follow, iff each of its requests was harmless when it came |
| VideoSwitch.ThirdSwitchGlitch | X2Rtc-Stream/X2NetPeer.cpp:550-557 | from the initial status, after playing scale 2 and then 1, exactly which third request breaks this: playing 1, 3 or 4, or asking for a scale that is neither 1 nor 2 |
| VideoSwitch.TurningVideoOff | X2Rtc-Stream/X2NetPeer.cpp:107-119 | after any run of frames and requests no frame passes iff video was off before it, and a peer starts with video on |
| Pacing.RateBound | X2Rtc-Stream/X2NetPeer.cpp:427-429 | bursts a period apart send at most n bursts' worth in any window shorter than n periods |
| Pacing.WindowsAdd | X2Rtc-Stream/X2NetPeer.cpp:427-429 | the count in a window is the sum of the counts in its two parts |
| Pacing.AllInside | X2Rtc-Stream/X2NetPeer.cpp:427-429 | a window around all bursts counts everything sent |
| Peer.NetPeer.OnX2RtcTick | X2Rtc-Stream/X2NetPeer.cpp:350-501 | a tick closes the peer if it was told to, and else only when the handler asks for it while it takes its parameters; it retries when due, drains network input, and sends at the allowed rate; after the close it does nothing |
| Peer.NetPeer.CloseSelf | X2Rtc-Stream/X2NetPeer.cpp:369-404 | all four owned pointers are null, the connection is forced closed without listener, and the close is reported once |
| Peer.NetPeer.RetryPublish | X2Rtc-Stream/X2NetPeer.cpp:360-368 | a due retry tries once, an undue one not at all; a retry is set iff the last try was refused, and the puber then exists |
| Peer.NetPeer.OnX2ProtoHandlerPublish | X2Rtc-Stream/X2NetPeer.cpp:155-195 | the first call creates and tries the puber, later ones leave it and its retry alone |
| Peer.NetPeer.OnX2ProtoHandlerPlay | X2Rtc-Stream/X2NetPeer.cpp:196-253 | a scale from 1 to 4 becomes the requested one with a switch pending, and the suber exists |
| Peer.NetPeer.TryPublish | X2Rtc-Stream/X2NetPeer.cpp:188-193 | a refused try, and no accepted one, sets the next one 100 ms ahead |
| Peer.NetPeer.DrainNetwork | X2Rtc-Stream/X2NetPeer.cpp:405-425 | the handler gets every waiting packet in order, whatever it calls back meanwhile |
| Peer.NetPeer.OnX2MediaSuberGotData | X2Rtc-Stream/X2NetPeer.cpp:342-347 | arriving media wait at the end of the list |
| Peer.NetPeer.SendOne | X2Rtc-Stream/X2NetPeer.cpp:431-473 | the front is taken and given to MuxData iff it is audio or video that may be sent |
| Peer.NetPeer.SendBurst | X2Rtc-Stream/X2NetPeer.cpp:429-483 | the first five waiting media are taken, or all if fewer, in order |
| Peer.NetPeer.SendPaced | X2Rtc-Stream/X2NetPeer.cpp:427-484 | nothing before the gap is over; a burst of five, or all, after it, and a new gap of 10 ms |
| Peer.NetPeer.RateIsBounded | X2Rtc-Stream/X2NetPeer.cpp:427-484 | over any run, a window of d ms sees at most 5 * (d / 10 + 1) media taken and d / 100 + 1 publish tries |
| Peer.NetPeer.OrderIsKept | X2Rtc-Stream/X2NetPeer.cpp:440-473 | over any run, MuxData gets a subsequence of the arrivals with all audio kept and video dropped by VideoCanSend only |
| Peer.MuxedIsSent | X2Rtc-Stream/X2NetPeer.cpp:440-473 | the video MuxData gets is what the switch lets through of the peer's history |
| Peer.NetPeer.VideoIsSmooth | X2Rtc-Stream/X2NetPeer.cpp:440-473 | over any run of a peer, the video MuxData gets changes its scale on key frames only, whatever frames follow, iff every request was harmless when it came |
| Peer.NetPeer.VideoIsSeen | X2Rtc-Stream/X2NetPeer.cpp:440-473 | over any run of a peer, the video MuxData gets is told by the frames and requests alone |
| Peer.NetPeer.VideoStaysOn | X2Rtc-Stream/X2NetPeer.cpp:107-119 | over any run of a peer, a key frame of the requested scale is sent, whatever SetRecvStatus was told |
| Publishing.TryOutcome | X2Rtc-Stream/X2NetPeer.cpp:155-195 | a first publish and a due retry take a free name and wait no more, or tell its live holder and wait; other actions of a peer only rename it, close it, or do nothing; nobody else is touched |
| Publishing.NameIsHandedOver | X2Rtc-Stream/X2NetPeer.cpp:360-383 | a retry tells the holder of the name; once that has closed, the next retry gets the name |
| Publishing.NamedStep | X2Rtc-Stream/X2NetPeer.cpp:155-160 | registrations stay filed under the names their peers will unpublish iff registered peers keep their names |
| Publishing.CloseLeavesNothing | X2Rtc-Stream/X2NetPeer.cpp:379-383 | no registration of a deleted puber is left after an action iff it is no close, or the closing peer is filed under its present name only |
| Publishing.TouchStep | X2Rtc-Stream/X2NetPeer.cpp:360-383 | the dispatcher calls a deleted puber exactly on a first publish, a due retry or a close under a name that is filed under one |
| Publishing.TidyRunsStayClean | X2Rtc-Stream/X2NetPeer.cpp:155-383 | nothing dangles and no deleted puber is called at any moment of a run iff every closing peer is filed under its present name only |
| Publishing.TidyIffUntouchable | X2Rtc-Stream/X2NetPeer.cpp:155-383 | as long as some peer may still publish, no action after any moment of a run calls a deleted puber iff the run is such a one |
| Publishing.RenamedPeerDangles | X2Rtc-Stream/X2NetPeer.cpp:155-160 | publishing under one name, then another, then closing leaves the first entry behind, and the next publish under it calls the deleted puber |
| Publishing.PublishedStep | X2Rtc-Stream/X2NetPeer.cpp:360-383 | live publications stay registered iff no close removes a third peer's entry and no live publisher changes its name |
| Publishing.GoodRunsStayGood | X2Rtc-Stream/X2NetPeer.cpp:155-383 | at every moment of a run nothing dangles, names are right and every publication can be found, iff each action keeps registered names and closes its own |
| Publishing.WaitingPeerEvicts | X2Rtc-Stream/X2NetPeer.cpp:379-383 | five actions of three peers after which a live publisher is registered nowhere and was not told |
| Lifetime.NetProcess.Accept | X2Rtc-Stream/X2ProxyImpl.cpp:401-407 | a new connection object is held by a new peer |
| Lifetime.NetProcess.PeerCloses | X2Rtc-Stream/X2NetPeer.cpp:373-377 | the peer forces the close and lets go in one step, so what is held is never forced closed |
| Lifetime.NetProcess.ConnectionRunOnce | X2Rtc-Stream/X2Net-Uv/X2NetTcpConnection.cpp:156-167 | a forced TCP connection closes its handler itself, unless the socket has reported before |
| Lifetime.NetProcess.SocketCloseStep | X2Rtc-Stream/X2Net-Uv/X2TcpServer.cpp:80-89 | the network thread's stages from the close report to the delete list, entered once |
| Lifetime.NetProcess.RunOnce | X2Rtc-Stream/X2NetProcess.h:95-109 | the sweep deletes exactly the listed connections both sides are done with, keeps the others in order, deletes nothing twice, nothing a peer holds, nothing with a live handler |
| Lifetime.DeletableIffNotStuck | X2Rtc-Stream/X2NetProcess.h:95-109 | from any state, some run of the process deletes a connection iff its handler was not closed from this side |
| Lifetime.DeletableIffReportFirst | X2Rtc-Stream/X2UV-Base/handles/X2TcpConnectionHandler.cpp:85-129 | after any run since its acceptance, a connection can still be deleted, or is, iff its own pass did not get in between its peer's letting go and its socket's report |
| Lifetime.StuckIsReachable | X2Rtc-Stream/X2Net-Uv/X2NetTcpConnection.cpp:156-167 | from any state, accepting a TCP connection, letting go and one pass leave an object that no run deletes |
| Lifetime.SrtIsDeletable | X2Rtc-Stream/X2NetProcess.h:95-109 | after any run since its acceptance an SRT connection can still be deleted, or is |
| Lifetime.NetProcess.StuckIsNeverListed | X2Rtc-Stream/X2UV-Base/handles/X2TcpConnectionHandler.cpp:85-129 | a connection whose handler was closed from this side is on no list, and these are exactly the connections no run of the process deletes |
| RefPtr.Heap.New | XUtils/RefCountedObject.h:37-69 | a new object exists with count 0 and no reference to it |
| RefPtr.Heap.AddRef | XUtils/RefCountedObject.h:48-48 | the count goes up by one and the caller owns the reference |
| RefPtr.Heap.Release | XUtils/RefCountedObject.h:50-56 | the count goes down by one, and the object is deleted iff it was 1 |
| RefPtr.Heap.Construct | XUtils/ScopedRefptr.h:35-51 | a handle made from a pointer or a handle owns one reference more |
| RefPtr.Heap.MoveConstruct | XUtils/ScopedRefptr.h:53-57 | the reference moves and the source handle is null |
| RefPtr.Heap.Destruct | XUtils/ScopedRefptr.h:59-62 | the handle's reference goes, and at most its object is deleted |
| RefPtr.Heap.ReleasePtr | XUtils/ScopedRefptr.h:74-78 | the handle is null and its reference is the caller's |
| RefPtr.Heap.Assign | XUtils/ScopedRefptr.h:80-97 | the handle points to the new object, self-assignment included, and at most its old object is deleted |
| RefPtr.Heap.MoveAssign | XUtils/ScopedRefptr.h:99-108 | as assignment with the source handle left null, self-move included |
| RefPtr.Heap.Swap | XUtils/ScopedRefptr.h:110-116 | two handles, equal or not, change pointers and no count changes |
| RefPtr.Heap.CountIsTotal | XUtils/ScopedRefptr.h:31-120 | in every reachable heap a count is the number of handles plus references taken out, and a deleted object is referred to by nothing |
| Reblock.AacEncoder.EncodeFrame | X2Rtc-AudCodec/aacencode.cc:88-111 | blocks of exactly nPcmSize bytes followed by the buffer are the inputs in order; the buffer is not full afterwards iff less than two blocks were there |
| Reblock.AacEncoder.BlocksAreForced | X2Rtc-AudCodec/aacencode.cc:93-108 | the blocks and the carry are the only way to cut the input |
| Reblock.PcmEncoder.DoEncode | X2Rtc-AudCodec/X2RtcAudCodec.cpp:103-143 | the three refusals in their order change nothing, and one or two pieces that fit are what is accepted; what is accepted leaves in 20 ms blocks, in order, also when the codec fails on the block, whose answer is returned |
| AudDecoder.Decoder.DoDecode2 | X2Rtc-AudCodec/X2RtcAudCodec.cpp:279-334 | frames of 10 ms followed by the carry are the decoded PCM, cut to whole sample frames; time stamps step by 10 from nPts less the carry's duration |
| AudDecoder.Decoder.Slice | X2Rtc-AudCodec/X2RtcAudCodec.cpp:295-334 | the slicing loop delivers every full 10 ms in order and keeps the rest, below 10 ms |
| AudDecoder.Decoder.DecodeRun | X2Rtc-AudCodec/X2RtcAudCodec.cpp:279-334 | after a run of packets fewer bytes were delivered or wait than were decoded iff the packet sizes are not lossless |
| AudDecoder.LosslessIffWholeTenMs | X2Rtc-AudCodec/X2RtcAudCodec.cpp:283-297 | no run of whole-frame packets of any sizes loses PCM iff 10 ms is a whole number of sample frames |
| AudDecoder.OneSizeLossless | X2Rtc-AudCodec/X2RtcAudCodec.cpp:283-297 | no run of packets of one size loses PCM iff 10 ms is a whole number of sample frames or the packet a whole number of 10 ms |
| AudDecoder.ThirdPacketLoses | X2Rtc-AudCodec/X2RtcAudCodec.cpp:206-207 | at 22050 Hz stereo the third packet of 1024 sample frames loses PCM, and none before |
| AudDecoder.RateGivesWholeTenMs | X2Rtc-AudCodec/X2RtcAudCodec.cpp:206-207 | a sample rate divisible by 100 gives such a 10 ms length |
| AudDecoder.RateIsLossless | X2Rtc-AudCodec/X2RtcAudCodec.cpp:206-207 | no whole-frame packets of any sizes lose PCM iff `hz % 100` sample frames are less than 100 bytes |
| AudDecoder.DecodeAtRate | X2Rtc-AudCodec/X2RtcAudCodec.cpp:279-334 | a fresh decoder at such a rate has delivered or keeps, in order, every byte of any run of packets that fit; at any rate it has iff the packet sizes are lossless |
| UrlParser.X2UrlParser.Parse | XUtils/X2UrlParser.h:125-342 | the loop and the code behind it compute the outcome of the character machine |
| UrlParser.ParseAfterPrint | XUtils/X2UrlParser.h:125-342 | a printed URL is accepted iff its password, if any, has only letters, digits and '%' and is not all digits; it then gives back every component but the '?' of its query |
| UrlParser.NumberOfDecimal | XUtils/X2UrlParser.h:271-271 | the value of a decimal numeral is the number it was made from |
| UrlParser.PortReadsBack | XUtils/X2UrlParser.h:287-303 | a URL printed with a port number parses to that number, modulo 65536 |
| UrlParser.Alphabets | XUtils/X2UrlParser.h:108-123 | the characters each part may have, one by one |
| UrlParser.SlashesOptional | XUtils/X2UrlParser.h:169-195 | without the slashes behind the scheme a URL parses as with them iff a letter or digit follows |
| UrlParser.AbortsIff | XUtils/X2UrlParser.h:125-341 | for every string, parsing aborts iff it is a readable front with a port that stops short, or with a login and a host starting with '[' |
| UrlParser.AcceptedIsLegal | XUtils/X2UrlParser.h:149-341 | whatever the input, an accepted URL has only the characters each part may have, a path from the root, and the port's number |
| UrlParser.AuthorityOnly | XUtils/X2UrlParser.h:214-303 | a URL without a path parses iff neither port, query nor fragment follows its host; the assertion fails iff it names a port |
| UrlParser.DigitPassword | XUtils/X2UrlParser.h:262-286 | what becomes of a URL with a password of digits |
| UrlParser.RefusedPassword | XUtils/X2UrlParser.h:220-286 | a URL whose password has a '-', '.', '_' or '~' does not parse |
| PortManager.Random.GetRandomUInt | X2Rtc-Stream/X2UV-Base/X2Utils.hpp:225-246 | the bits of the new seed, modulo the size of the range, from its lower end; the result lies in the range asked for, short of 4294967295, and is the upper end of an empty range |
| PortManager.EveryOffset | X2Rtc-Stream/X2UV-Base/X2Utils.hpp:245-245 | some seed chooses each offset below 2^15 |
| PortManager.Manager.GetPorts | X2Rtc-Stream/X2UV-Base/X2PortManager.cpp:542-611 | a known IP keeps its vector, a new one gets a vector of free ports, no other changes |
| PortManager.Manager.Probe | X2Rtc-Stream/X2UV-Base/X2PortManager.cpp:96-300 | from behind a random index the next one each time, around the end; every index is tried once at most, all are before giving up, and only free ones are asked for |
| PortManager.Manager.Bind | X2Rtc-Stream/X2UV-Base/X2PortManager.cpp:34-314 | a success is a free port of the range that nobody held and alone becomes held; giving up means every port was marked or refused in this call |
| PortManager.Manager.Unbind | X2Rtc-Stream/X2UV-Base/X2PortManager.cpp:496-540 | the port is held no longer, and nothing else changes hands; it writes outside its vector iff the range is all 65536 ports and the IP was asked for before |
| PortManager.Manager.BindThenUnbind | X2Rtc-Stream/X2UV-Base/X2PortManager.cpp:34-540 | giving back any port after asking for one stays inside the vector iff the range is not all 65536 ports |
| PortManager.NumPortsExact | X2Rtc-Stream/X2UV-Base/X2PortManager.cpp:567-575 | the vector has one entry per port iff the range is not all 65536 ports |
| Timestamp.ExactlyOneNewer | X2Rtc-Stream/X2UV-Base/X2Utils.hpp:345-358 | of two different stamps exactly one is newer, half the range apart included |
| Timestamp.NewerIffLater | X2Rtc-Stream/X2UV-Base/X2Utils.hpp:345-358 | stamps of counters less than 2^31 apart are ordered as the counters |
| Timestamp.LatestIsMax | X2Rtc-Stream/X2UV-Base/X2Utils.hpp:360-363 | folding LatestTimestamp over a window of stamps gives the largest counter's stamp in any order |
| Timestamp.NewerIsCyclic | X2Rtc-Stream/X2UV-Base/X2Utils.hpp:356-358 | outside such a window three stamps can each be newer than the next |

## Left out

- Connections, handles and reference-counted objects are entries of maps keyed by identity, so that deleting one is removing its key; addresses are never used again.
- The static `ReadBuffer` the framed reader copies a packet into; a packet is handed over as a value. The buffer is allocated at once instead of at the first read.
- Data races inside one step: a `JMutex` section, an atomic count, and a peer tick or a process sweep on the main thread are single steps.
- SrtConnection.Connection.RunOnce: other threads may add any number of items during a pass, but a finite number fixed in advance (`budget`), so that the pass ends.
- Items in the send list are values: a caller that changes a shared `X2NetData` after `Send` is not modelled.
- Peer.NetPeer.OnX2RtcTick: statistics, stream names and the calls to the dispatcher and the handler are left out; a callback of the handler is any sequence of publish, play and close.
- Peer.NetPeer.OnX2ProtoHandlerPublish: `TryPublish` accepts or refuses freely; `Publishing.dfy` models why.
- The runs of `VideoSwitch.dfy` and `Peer.dfy` include `SetRecvVideoScaleRD` and `SetRecvStatus`, which are public although nothing in the repository calls them.
- Publishing.TouchStep: what a call through a pointer to a deleted puber does is not modelled; the model records it and goes on.
- TcpConnection.TornFrameSwallows: says nothing of a frame torn inside its header, where the length the reader takes is made of two headers; `ReadIffNoneTorn` covers it.
- Teardown in `DeInit` and destructors of `X2NetProcess`, which delete unconditionally.
- RefPtr.Heap.Assign: like the other operations on handles, what it says at its end is for an operation that no other thread interrupts; between any two of its primitive actions `Valid` holds.
- RefPtr.Heap.Release: destructors of pointees that release further references are separate calls.
- AudDecoder.Decoder.DoDecode2: only the opened AAC path with a listener; opening the stream, the other codecs and the queue for mixing are not modelled.
- UrlParser.X2UrlParser.Parse: `integerPort` is the decimal value modulo 65536; `atoi` is undefined for values beyond a C `int`. The locale is "C".
- The fixed-port `Bind`, IP normalization and the address family do not touch the port vectors.
- Opus, G.711, FAAC, FAAD, SRT, libuv, WebRTC, HTTP, SDP and JSON code.
