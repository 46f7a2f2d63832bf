# The embedded TCP/IP stack of the loader, modelled and verified

The loader runs on a bundled copy of lwIP. This project models the parts of that stack whose
correctness depends on many functions together, and proves what their documentation promises.
`dafny verify dfyconfig.toml` checks everything.

| files | what they model |
|---|---|
| `Common`, `SeqNum` | what several modules need; 32-bit sequence numbers against unbounded positions |
| `Reassembly`, `ReceiveRuns`, `ReceiveProgress`, `ReceiveAccounts`, `TcpIn`, `TcpInExact`, `TcpInLimit` | the receive path of TCP: trimming, out-of-order queue, window |
| `SendQueue`, `SendLine`, `SendInvariant`, `SendRuns`, `SendFailures`, `SendMss`, `SendProgress`, `TcpOut` | the send path: write, output, retransmission, acknowledgement |
| `HeapBlocks`, `Heap`, `HeapSpace`, `MemHeap` | the heap allocator, with calls of other contexts inside `mem_malloc()` |
| `MempGraph`, `Memp` | the pools and their cycle check |
| `PbufGraph`, `PbufData`, `Pbuf`, `PbufRuns`, `PbufTotals` | packet buffers: reference counts and contents |
| `Slip` | SLIP framing (RFC 1055) |
| `Timers` | the list of timeouts |
| `Chksum` | the incremental checksum of a segment (RFC 1071, section 2) |
| `Netconn`, `NetconnProgress` | messages and callbacks of a TCP netconn |

Each part has a description of its state by values (lists of segments, of blocks, of bytes), lemmas
about what every operation does to it and about whole runs, and the operations themselves as the
program has them: methods on 32-bit and 16-bit fields, arrays and lists, with its loops and branches,
each proved to do what the description says. Allocation, what the calls into other layers return,
the window the peer offers and the calls of other contexts are parameters, so a statement holds for
all of them.

TCP is described on unbounded positions. `TcpIn` has the receive code on 32-bit fields for whatever
they hold, and `TcpInExact` shows when that is the description; `TcpOut` shows it for the send code.

## Where the code falls short

Some properties hold only under a condition that the code does not establish. Each is stated with
its exact condition.

- The window test when appending to `ooseq` compares plain u32 values (lwip/core/tcp_in.c:1467). It is
  right if and only if the segment's end and the window's edge lie in one run of 2^32 numbers
  (`SeqNum.PlainOrderExact`, `TcpInExact.FitEdgeStraddle`). Otherwise a segment that fits gets a length
  its payload does not have, and when it is drained `rcv_nxt` passes bytes that never came: the
  application loses data (`TcpInLimit.StraddleLosesData`).
- Of the paths that store a segment in `ooseq` only that one tests the window
  (lwip/core/tcp_in.c:1372-1482; an in-sequence segment is cut to it at lwip/core/tcp_in.c:1222). A
  segment that runs over the edge and is stored on another path makes `rcv_wnd` wrap when it is drained
  (lwip/core/tcp_in.c:1333-1338). No announced window is taken back by that
  (`ReceiveRuns.WindowNeverShrinks`), but what is announced then can lie outside `rcv_wnd`
  (`ReceiveRuns.ReceiveWindow`, `ReceiveRuns.OverrunWrapsWindow`).
- A segment that is put into `ooseq` cuts the one it starts in, also where that reaches further
  (lwip/core/tcp_in.c:1438-1448), and a FIN whose data are queued without it is ditched
  (lwip/core/tcp_in.c:1394-1413). Such positions have to be sent again (`ReceiveProgress.StepHeld`,
  `ReceiveProgress.ArrivedHeld`).
- `tcp_write()` and `tcp_send_fin()` extend the last unsent segment even when it is a retransmitted
  one with other segments behind it (lwip/core/tcp_out.c:399-508, lwip/core/tcp_out.c:125-150). That
  corrupts what is delivered: the new bytes are sent at positions that belong to others, and the FIN
  before data that was accepted. The receiving application is given wrong data, or told of the end too
  early (`SendRuns.WriteExact`, `SendRuns.CloseExact`, `SendFailures.CorruptedData`,
  `SendFailures.CorruptedEnd`); the queues no longer tile the sequence space
  (`SendInvariant.WriteKeepsInv`, `SendInvariant.CloseKeepsInv`). `SendRuns.EndToEnd` holds on all
  runs without such a write or close.
- `tcp_rexmit_rto()` concatenates the queues; with a fast retransmission outstanding they are then
  out of order (lwip/core/tcp_out.c:1247-1255; `SendInvariant.RequeueKeepsInv`), though what is
  delivered stays right. `SendFailures.FailuresReached` gives a run of five ordinary steps after which
  all three can happen.
- The size given to `mem_malloc()` wraps when it is rounded up near 64k (lwip/core/mem.c:509;
  `HeapBlocks.RoundExact`).
- `pbuf_take()` without a chain answers 0, which is ERR_OK, and stores nothing (lwip/core/pbuf.c:973;
  `Pbuf.Pbufs.PbufTake`, `Pbuf.Pbufs.TakeIntoNothing`).
- `pbuf_copy()` takes a chain that ends in an empty pbuf for a queue of packets and refuses it, though
  it fits (lwip/core/pbuf.c:889-902; `Pbuf.Pbufs.PbufCopy`).
- `pbuf_cat()`, `pbuf_dechain()` and `pbuf_realloc()` leave wrong totals in pbufs outside the chain that
  point into it (lwip/core/pbuf.c:745-831; `PbufTotals.StepTidy`, `PbufTotals.SharedTotals`).
- `pbuf_cat()` wraps `tot_len` (lwip/core/pbuf.c:745-767; `PbufData.CatData`), `pbuf_chain()` without a
  head counts a reference too many (lwip/core/pbuf.c:786-792; `PbufData.ChainNullLeaks`), and
  `pbuf_dechain()` takes a tail of 256 freed pbufs for one that is still there
  (lwip/core/pbuf.c:825-831; `PbufData.DechainExact`).
- When `pbuf_alloc()` fails the SLIP decoder drops a single byte and delivers the rest as if it were
  the packet (lwip/netif/slipif.c:219-230; `Slip.FrameLosses`, `Slip.LosesByte`).
- The SLIP decoder takes one byte more than `SLIP_MAX_SIZE` (lwip/netif/slipif.c:241; `Slip.RoundTrip`).
- `sys_check_timeouts()` restarts the clock at the time of the check, so all later timeouts are late
  by as much as the last one fired was (lwip/core/timers.c:381; `Timers.NeverEarly`).
- `do_close_internal()` takes every error for a lack of memory and tries again. When only the sending
  side of a pcb that cannot send is to be shut down, `tcp_shutdown()` answers ERR_CONN each time and
  the thread waits until the pcb fails, if ever (lwip/api/api_msg.c:811-820, lwip/core/tcp.c:330-342;
  `Netconn.HalfCloseExact`, `Netconn.HalfCloseForever`).
- `do_writemore()` asks anew on each call whether the netconn is non-blocking
  (lwip/api/api_msg.c:1215). If it is made so while a blocking write waits that is accepted in part,
  the write can end with `write_offset` left behind, against what `do_write()`, `do_close()` and
  `do_delconn()` assert; that is the only way (`Netconn.IdleRun`, `Netconn.BlockingIdle`,
  `Netconn.InterruptedWrite`).

## Model

| member | source | states |
|---|---|---|
| SeqNum.DiffExact | lwip/include/lwip/tcp_impl.h:93-102 | the signed 32-bit difference of two positions is the true one if and only if they are less than 2^31 apart |
| SeqNum.OrderExact | lwip/include/lwip/tcp_impl.h:93-102 | below that distance every comparison macro decides the true order |
| SeqNum.PlainOrderExact | lwip/core/tcp_in.c:1467 | a plain u32 comparison decides the true order if and only if both positions lie in the same run of 2^32 numbers |
| Reassembly.SpliceQueue | lwip/core/tcp_in.c:800-831 | inserting into ooseq keeps it sorted, disjoint, faithful to the stream, FIN last; afterwards exactly the positions of the new segment and of the old queue are covered |
| Reassembly.InsertQueue | lwip/core/tcp_in.c:1372-1489 | every insertion, also one for which tcp_seg_copy() finds no memory, keeps the queue sorted, disjoint, above rcv_nxt and faithful |
| Reassembly.InsertCovers | lwip/core/tcp_in.c:1372-1489 | exactly what is held after an insertion: a ditched segment changes nothing; otherwise all of the new one, as far as the window goes if it is appended, all below it, and above it all but the rest of the one segment it cut into |
| Reassembly.DrainCovers | lwip/core/tcp_in.c:1318-1365 | draining moves rcv_nxt only over positions the queue held and leaves exactly what is beyond |
| Reassembly.DrainData | lwip/core/tcp_in.c:1318-1365 | draining hands over, in order, exactly the bytes rcv_nxt moves over, and the FIN exactly when rcv_nxt passes the end of the stream |
| Reassembly.InOrderCovers | lwip/core/tcp_in.c:1218-1365 | an in-sequence segment moves rcv_nxt to the first position neither it (inside the window) nor the queue holds |
| Reassembly.InOrderData | lwip/core/tcp_in.c:1218-1365 | ... and hands up exactly the bytes passed, with the FIN if and only if the end of the stream is passed |
| ReceiveRuns.ReceiveSafe | lwip/core/tcp_in.c:1120-1489 | one arriving segment, in any of the branches: the bytes delivered are the stream between the old and the new rcv_nxt, and the queue stays well formed |
| ReceiveRuns.StepSafe | lwip/core/tcp_in.c:1120-1489 | the same for every event: arrival, tcp_recved(), sending, giving back the FIN, dropping a tail of the queue |
| ReceiveRuns.PrefixSafety | lwip/core/tcp_in.c:1120-1365 | over every run, whatever the order, overlap, repetition or loss: recv_data is a prefix of the peer's stream, rcv_nxt is its start plus what was delivered, and the FIN is reported at most once and only after all data |
| ReceiveRuns.AnnWndKept | lwip/core/tcp.c:579-600 | tcp_update_rcv_ann_wnd() takes back no announced window, keeps what it allows inside the receive window if the announced edge is there, and its assertion <= 0xffff holds |
| ReceiveRuns.InsertWindow | lwip/core/tcp_in.c:1372-1489 | an insertion leaves the queue inside the receive window if and only if it does not store an overrunning segment on a path without the window check |
| ReceiveRuns.ReceiveWindow | lwip/core/tcp_in.c:1120-1489 | one segment keeps the window fields consistent, the right edge in place, if and only if it does not overrun the window unchecked |
| ReceiveRuns.StepEdge | lwip/core/tcp.c:579-600 | no event, not even a segment that overruns the window, moves the announced right edge to the left or beyond rcv_nxt + rcv_ann_wnd |
| ReceiveRuns.WindowNeverShrinks | lwip/core/tcp.c:579-626 | over every run the announced right edge never moves left, and its distance from rcv_nxt fits the 16 bits that tcp_update_rcv_ann_wnd() asserts |
| ReceiveRuns.StepWindow | lwip/core/tcp_in.c:1295-1301 | no event but an unchecked overrun, or tcp_recved() against its own assertion, makes the window fields inconsistent or moves the right edge of rcv_wnd to the left |
| ReceiveRuns.AnnouncedInsideWindow | lwip/core/tcp.c:579-626 | over every run without such an overrun the announced right edge never passes rcv_nxt + rcv_wnd, which never moves left either |
| ReceiveRuns.OverrunWrapsWindow | lwip/core/tcp_in.c:1333-1338 | the limit of that theorem: after two segments rcv_wnd has wrapped; once that is announced and tcp_recved() is called the announced edge is far outside the window |
| ReceiveProgress.ReceiveTakes | lwip/core/tcp_in.c:1120-1489 | one arriving segment: if the pcb can receive, the window is open and the segment reaches over rcv_nxt, then rcv_nxt moves to the first position that neither the segment inside the window nor the queue holds; exactly which positions are held afterwards in all cases; what is old, starts beyond the window or comes when the pcb cannot receive changes nothing |
| ReceiveProgress.ArrivedHeld | lwip/core/tcp_in.c:1120-1489 | so what arrives inside the window is held afterwards if there is memory for it, but for a FIN whose data are queued without it |
| ReceiveProgress.StepHeld | lwip/core/tcp_in.c:1120-1489 | every event: held afterwards is exactly what was held and is not cut off or purged, and what the segment brings |
| ReceiveProgress.RunHeld | lwip/core/tcp_in.c:1120-1489 | over every run exactly the positions are held that have come in the window and were not lost since |
| ReceiveProgress.FirstMissing | lwip/core/tcp_in.c:1318-1365 | over every run a position is delivered, with its byte, if and only if it and everything below it has come and was not lost |
| ReceiveAccounts.GrownWndExact | lwip/core/tcp.c:617-623 | rcv_wnd grows by what was read, up to TCP_WND, under the assertion |
| ReceiveAccounts.StepGives | lwip/core/tcp.c:611-623 | one event moves the edge of the window by exactly what it gives back |
| ReceiveAccounts.WindowConserved | lwip/core/tcp.c:611-623 | over every run without overruns, in which no more is read than was received, rcv_wnd is TCP_WND less what is received and not read, and less a FIN not given back |
| ReceiveAccounts.AnnouncedExact | lwip/core/tcp.c:579-600 | the whole window is announced if that moves the announced edge by the smaller of TCP_WND / 2 and mss; otherwise the edge stays, and less than that is held back |
| ReceiveAccounts.Reopens | lwip/core/tcp.c:611-626 | when the application has read all it was given the next segment sent lets the peer send TCP_WND bytes, less at most that: the window cannot stay closed |
| ReceiveAccounts.StateExact | lwip/core/tcp_in.c:730-781 | over every run the state of the pcb says exactly whether and when the local side was closed, whether its FIN was acknowledged and whether the peer's FIN has come; TIME_WAIT needs both, or a RST |
| TcpInExact.FitEdgeExact | lwip/core/tcp_in.c:1460-1482 | the window check on 32 bits, with its 16-bit length, is the one on true positions when edge and segment lie in one run of 2^32 |
| TcpInExact.FitEdgeStraddle | lwip/core/tcp_in.c:1467 | ... and is always wrong otherwise: an overrun passes, or a fitting segment gets a length that its payload does not have |
| TcpIn.OosInsertSegment | lwip/core/tcp_in.c:800-831 | the loop of tcp_oos_insert_segment() on any list computes Splice32 |
| TcpInExact.SpliceExact | lwip/core/tcp_in.c:800-831 | Splice32 is the splice of Reassembly while everything lies within 2^18 |
| TcpIn.InsertOoseq | lwip/core/tcp_in.c:1372-1489 | the walk over any ooseq with all its cases computes Insert32 |
| TcpInExact.InsertExact | lwip/core/tcp_in.c:1372-1489 | Insert32 is the insertion of Reassembly, unless the segment is appended across a multiple of 2^32 |
| TcpIn.TcpPcb.UpdateRcvAnnWnd | lwip/core/tcp.c:579-600 | tcp_update_rcv_ann_wnd() on any fields, and what it returns |
| TcpInExact.AnnWndExact | lwip/core/tcp.c:579-600 | the 32-bit window arithmetic is exact while the announced edge is within 2^30 of rcv_nxt |
| TcpIn.TcpPcb.Recved | lwip/core/tcp.c:611-640 | tcp_recved() on any fields, and that an update is sent exactly when the window would reach at least TCP_WND_UPDATE_THRESHOLD further |
| TcpIn.TcpPcb.SendAnnounce | lwip/core/tcp_out.c:1062-1066 | sending moves rcv_ann_right_edge to rcv_nxt + rcv_ann_wnd |
| TcpIn.TcpPcb.GiveBackFin | lwip/core/tcp_in.c:362-375 | the FIN's number is given back to rcv_wnd |
| TcpIn.TcpPcb.AbsorbCovered | lwip/core/tcp_in.c:1258-1292 | covered segments are dropped from ooseq, a FIN is taken over, the new segment is trimmed |
| TcpInExact.TrimmedExact | lwip/core/tcp_in.c:1258-1292 | ... as on true positions |
| TcpIn.TcpPcb.DrainOoseq | lwip/core/tcp_in.c:1318-1365 | the drain loop on any fields |
| TcpInExact.DrainExact | lwip/core/tcp_in.c:1318-1365 | ... as on true positions |
| TcpIn.TcpPcb.ReceiveInOrder | lwip/core/tcp_in.c:1218-1365 | the in-sequence branch on any fields |
| TcpInExact.InOrderExact | lwip/core/tcp_in.c:1218-1365 | ... as on true positions |
| TcpIn.TcpPcb.TcpReceive | lwip/core/tcp_in.c:1120-1489 | the data part of tcp_receive() on any fields, which by ReceiveExact is the function that ReceiveTakes speaks of |
| TcpInExact.ArrivalExact | lwip/core/tcp_in.c:1160-1215 | deciding and trimming the left edge on 32 bits is what it is on true positions |
| TcpInExact.ReceiveExact | lwip/core/tcp_in.c:1120-1489 | ... and so are the state, the data and the FIN flag that tcp_receive() gives |
| TcpIn.TcpPcb.Handle | lwip/core/tcp_in.c:700-790 | one event: tcp_receive() and the state change of tcp_process(), or a local close |
| TcpInExact.StepExact | lwip/core/tcp_in.c:700-790 | ... as on true positions |
| TcpInExact.StepNear | lwip/core/tcp_in.c:1372-1489 | no event queues a segment that starts 2^16 or more above rcv_nxt, so that the 32-bit comparisons in ooseq stay meaningful in every run |
| TcpIn.TcpPcb.Process | lwip/core/tcp_in.c:1120-1489 | any run of any events on any fields computes Run32 |
| TcpInExact.RunExact | lwip/core/tcp_in.c:1120-1489 | Run32 is the run on true positions, with overruns or without |
| TcpInExact.PrefixSafety32 | lwip/core/tcp_in.c:1120-1365 | so all data handed up on 32-bit fields is a prefix of the stream, and the whole of it once the FIN is reported |
| TcpInLimit.StraddleLosesData | lwip/core/tcp_in.c:1467 | the limit of that: a run of ordinary segments in a window across a multiple of 2^32, after which 85 bytes are missing from what was handed up |
| SendInvariant.WriteAppends | lwip/core/tcp_out.c:354-693 | tcp_write() appends exactly its argument to the flattened unsent data, across spare room, concatenation and new segments |
| SendInvariant.WriteNewSegments | lwip/core/tcp_out.c:522-614 | new segments hold at least one byte and at most the local MSS less the options, and are made exactly when the tail does not take all |
| SendInvariant.WriteKeepsMss | lwip/core/tcp_out.c:399-508 | the last unsent segment does not outgrow the local MSS if it and its spare room did not before; SendMss shows that they never do |
| SendInvariant.WriteKeepsInv | lwip/core/tcp_out.c:399-678 | a successful tcp_write() keeps the tiling and the counters if and only if it does not put data into a last unsent segment that ends below snd_lbb |
| SendInvariant.CloseKeepsInv | lwip/core/tcp_out.c:125-150 | sending a FIN keeps them if and only if it is not put into such a segment |
| SendInvariant.OutputInv | lwip/core/tcp_out.c:898-1035 | tcp_output() keeps them, leaves the merged line of segments as it is and sends only segments of it |
| SendInvariant.RexmitInv | lwip/core/tcp_out.c:1275-1312 | tcp_rexmit() keeps them and the line |
| SendInvariant.ResentInPlace | lwip/core/tcp_out.c:1284-1295 | tcp_rexmit() followed by sending that segment gives both queues back as they were |
| SendInvariant.RequeueKeepsInv | lwip/core/tcp_out.c:1239-1264 | the retransmission timeout keeps them if and only if no fast retransmission is outstanding |
| SendInvariant.AckInv | lwip/core/tcp_in.c:924-1082 | every acknowledgement, old, new or too far, keeps them |
| SendInvariant.AckSubset | lwip/core/tcp_in.c:957-1082 | an acknowledgement queues nothing new |
| SendLine.MergeDrop | lwip/core/tcp_in.c:1008-1076 | dropping what is acknowledged from either queue drops it from the merged line |
| SendLine.RequeueIsMerge | lwip/core/tcp_out.c:1247-1255 | concatenating unacked and unsent is merging them by sequence number if and only if no retransmission is outstanding |
| SendRuns.WriteFaithful | lwip/core/tcp_out.c:399-678 | a tcp_write() leaves every segment with the accepted bytes at its positions if and only if the bytes it adds to the last unsent segment are those that belong there |
| SendRuns.WriteExact | lwip/core/tcp_out.c:399-678 | that is so for any data if the segment ends at snd_lbb; otherwise not for data that differ from the byte accepted for that place |
| SendRuns.CloseExact | lwip/core/tcp_out.c:125-150 | a FIN keeps the contents right if and only if it does not go into a segment that ends below snd_lbb |
| SendRuns.StepFaithful | lwip/core/tcp_out.c:354-1312 | one step that adds nothing to a retransmitted segment keeps the contents right |
| SendRuns.RunFaithful | lwip/core/tcp_out.c:354-1312 | the same over every run, timeouts during a fast retransmission included |
| SendRuns.StepKeeps | lwip/core/tcp_out.c:354-1312 | one step without any of the three failures keeps tiling and counters |
| SendRuns.RunKeeps | lwip/core/tcp_out.c:354-1312 | the same over every such run: unacked and unsent tile the sequence space up to snd_lbb, snd_buf + (snd_lbb - lastack) and snd_queuelen agree with them, contents are those written |
| SendRuns.EndToEnd | lwip/core/tcp_in.c:1120-1365 | in every run in which no data and no FIN is added to a retransmitted segment: whatever subset of the sent segments arrives, in whatever order and however often, the receiving application sees a prefix of what the sending one wrote, and all of it once it is told of the FIN |
| SendFailures.FailuresReached | lwip/core/tcp_out.c:1275-1312 | a run of ordinary steps (write, send, write, send, third duplicate acknowledgement) after which writing one byte, closing and a timeout each break the tiling |
| SendFailures.CorruptedData | lwip/core/tcp_out.c:399-508 | what follows from the first: a receiver is given a byte written later in the place of an earlier one |
| SendFailures.CorruptedEnd | lwip/core/tcp_out.c:125-150 | what follows from the second: a receiver is told of the end before data that was accepted |
| SendMss.GrownFits | lwip/core/tcp_out.c:421-508 | the last unsent segment with what tcp_write() adds, and with the spare room left or made, fits the local MSS |
| SendMss.WriteFits | lwip/core/tcp_out.c:354-708 | tcp_write() keeps every queued segment, and the last one with its spare room filled, within the local MSS |
| SendMss.RunFits | lwip/core/tcp_out.c:354-1312 | so does every run in which the local MSS does not shrink, those with the three failures included, for all segments queued or ever sent |
| SendProgress.ExtraExact | lwip/core/tcp_out.c:219-262 | tcp_pbuf_prealloc() makes the pbuf as long as the data and TCP_OVERSIZE, rounded up, but no longer than allowed, exactly when the heuristic asks for it |
| SendProgress.TailFilled | lwip/core/tcp_out.c:399-508 | the last unsent segment takes as much as it has room for, up to the local MSS |
| SendProgress.FullSegments | lwip/core/tcp_out.c:522-614 | new segments are full, all but the last, at consecutive numbers, and no more than needed |
| SendProgress.SpareRoom | lwip/core/tcp_out.c:421-545 | the spare room after tcp_write(): what is left of it, or that of the pbuf allocated last |
| SendProgress.OutputSends | lwip/core/tcp_out.c:937-1035 | tcp_output() sends the front of unsent in order, each segment inside the window; it stops only where the window or Nagle's algorithm makes it wait |
| SendProgress.OutputExact | lwip/include/lwip/tcp_impl.h:76-89 | in every run it sends nothing if and only if nothing is unsent, the first segment is outside the window, or data are unacknowledged and the only unsent segment is short and not forced with room in buffer and queue; on an idle connection what fits the window is sent |
| SendProgress.FastRetransmit | lwip/core/tcp_out.c:1275-1330 | the third duplicate acknowledgement queues the oldest unacknowledged segment again, and unless another retransmission is waiting it is the next one sent |
| SendProgress.TimeoutResends | lwip/core/tcp_out.c:1239-1264 | the timeout sends the oldest unacknowledged segment again, if the window has room for it |
| SendProgress.CloseQueuesFin | lwip/core/tcp_out.c:125-150 | closing queues a FIN behind all accepted data |
| SendProgress.NothingLost | lwip/core/tcp_out.c:354-1312 | until it is acknowledged every accepted byte, and the FIN, is in a queued segment at its position |
| SendProgress.ToldExact | lwip/core/tcp_in.c:974-1082 | the sent callback is told of exactly the data bytes that the acknowledgement is the first to cover, without the FIN |
| TcpOut.FillTail | lwip/core/tcp_out.c:399-508 | phases 1 and 2 of tcp_write() on local variables: how much goes into the tail, and that only a pbuf for it can be lacking |
| TcpOut.MakeSegments | lwip/core/tcp_out.c:522-614 | phase 3: the loop makes exactly the chunks of the remaining data at consecutive numbers; it fails if and only if memory or the queue does not suffice for all of them |
| TcpOut.Prepare | lwip/core/tcp_out.c:399-693 | the three phases together; they fail if and only if there is not enough memory or the queue gets too long |
| TcpOut.TcpPcb.TcpWrite | lwip/core/tcp_out.c:354-708 | tcp_write() on 32-bit fields: it succeeds if and only if the sending side is open, the data fit snd_buf and the queue limit, and there is memory for each pbuf and segment; then the state is that after appending, and on any error the queues, snd_lbb, snd_buf and snd_queuelen are as before |
| TcpOut.TcpPcb.Commit | lwip/core/tcp_out.c:667-690 | the changes tcp_write() makes at its end are those of the appended state |
| TcpOut.TcpPcb.TcpClose | lwip/core/tcp_out.c:125-150 | FIN into a queued segment, or a new one if there is room and memory for it, and only then; no change on error |
| TcpOut.TcpPcb.EnqueueFin | lwip/core/tcp_out.c:722-815 | tcp_enqueue_flags() with TCP_FIN: exactly when it succeeds; no change on error |
| TcpOut.PutSent | lwip/core/tcp_out.c:999-1024 | a sent segment goes to its place in unacked |
| TcpOut.InsertInOrder | lwip/core/tcp_out.c:1284-1295 | a segment goes before the first that does not start below it |
| TcpOut.TcpPcb.SendableExact | lwip/core/tcp_out.c:937-945 | window and Nagle test on 32-bit fields decide as on true positions |
| TcpOut.TcpPcb.SendHead | lwip/core/tcp_out.c:962-1030 | the body of the output loop |
| TcpOut.TcpPcb.TcpOutput | lwip/core/tcp_out.c:898-1035 | tcp_output() on the fields, and the segments it sends, of which SendProgress.OutputExact speaks |
| TcpOut.TcpPcb.TcpRexmit | lwip/core/tcp_out.c:1275-1312 | tcp_rexmit() on the fields |
| TcpOut.TcpPcb.TcpRexmitRto | lwip/core/tcp_out.c:1239-1264 | tcp_rexmit_rto() on the fields |
| TcpOut.TcpPcb.AckFront | lwip/core/tcp_in.c:924-1034 | classifying an acknowledgement on 32-bit fields |
| TcpOut.TcpPcb.AckNew | lwip/core/tcp_in.c:957-1034 | an acknowledgement of new data: the cast of ackno - lastack to 16 bits and the sum with snd_buf lose nothing |
| TcpOut.TcpPcb.PopUnacked | lwip/core/tcp_in.c:1008-1034 | the loop over unacked |
| TcpOut.TcpPcb.PopUnsent | lwip/core/tcp_in.c:1049-1082 | the loop over unsent |
| TcpOut.TcpPcb.ReceiveAck | lwip/core/tcp_in.c:924-1082 | the ACK processing on the fields, and the count for the sent callback, without FINs |
| TcpOut.InvSpread | lwip/core/tcp_out.c:354-1312 | the invariant and the MSS keep everything queued within 2^16 of the oldest unacknowledged byte, so that the 32-bit comparisons are meaningful |
| TcpOut.TcpPcb.Process | lwip/core/tcp_out.c:354-1312 | any run from a fresh connection on the 32-bit fields, with any memory for each call: a write or close works exactly when it should, and the run gives the state and the segments of the run, on positions, of those that did, with its invariant |
| HeapBlocks.FreedWellFormed | lwip/core/mem.c:236-268 | mem_free() keeps the heap tiled and joined |
| HeapBlocks.TrimmedWellFormed | lwip/core/mem.c:421-470 | mem_trim() keeps the heap tiled and joined |
| HeapBlocks.TakenWellFormed | lwip/core/mem.c:549-586 | mem_malloc() keeps the heap tiled and joined |
| HeapBlocks.RoundExact | lwip/core/mem.c:503-518 | rounding a request up loses nothing if and only if it does not wrap the 16-bit size; requests above that are served as if for nothing |
| HeapBlocks.FreeUndoesMalloc | lwip/core/mem.c:343-351 | freeing the block just taken restores the block list |
| HeapBlocks.LiveDisjoint | lwip/core/mem.c:494-624 | two allocations never overlap |
| HeapBlocks.FreedLive | lwip/core/mem.c:311-356 | mem_free() ends exactly one allocation |
| HeapBlocks.TakenLive | lwip/core/mem.c:549-586 | mem_malloc() starts exactly one allocation, of the size asked for and less than a header and the minimum more, inside a free block, whose rest is one free block up to the old end |
| HeapBlocks.TrimmedLive | lwip/core/mem.c:369-476 | mem_trim() shortens one allocation, not below the new size and to less than a header and the minimum more, and changes no other; what it cuts off is free, in one block with a free block behind it |
| HeapBlocks.HeapStaysWellFormed | lwip/core/mem.c:236-624 | over every run of malloc, free and trim the blocks tile the heap and no two adjacent ones are free |
| Heap.MarksLowest | lwip/core/mem.c:589-611 | the local conditions on lfree say that it is the lowest free block, or the end |
| Heap.HoldsWithout | lwip/core/mem.c:249-268 | the two writes that unlink a header keep next and prev mutually inverse |
| Heap.HoldsInsert | lwip/core/mem.c:559-574 | so do the writes that put a header in |
| Heap.HoldsMove | lwip/core/mem.c:421-447 | so do the writes that move a header |
| Heap.AnswerExact | lwip/core/mem.c:494-624 | mem_malloc() fails if and only if nothing was asked for or no free block has room, and then changes nothing; otherwise it gives the lowest block with room, aligned, inside the heap |
| Heap.AnswerDisjoint | lwip/core/mem.c:549-620 | the new allocation overlaps no other, and all others stay |
| Heap.MallocThenFree | lwip/core/mem.c:343-351 | malloc and free of the result give the same block list |
| Heap.LfreeIsLowest | lwip/core/mem.c:523-611 | ... and lfree at rest is determined by it |
| HeapSpace.LiveDetermines | lwip/core/mem.c:236-268 | in a well-formed heap the allocations determine the block list: all the rest is free, in blocks as large as can be |
| HeapSpace.Grants | lwip/core/mem.c:549-586 | what mem_malloc() gives: both bounds, the other allocations as they were, and the rest of the free block free |
| HeapSpace.LiveStays | lwip/core/mem.c:311-476 | over every run of frees and trims of other blocks an allocation keeps its start and its end |
| MemHeap.HeapMem.constructor | lwip/core/mem.c:274-303 | mem_init(): one free block |
| MemHeap.HeapMem.PlugHoles | lwip/core/mem.c:236-268 | plug_holes() on the headers in memory |
| MemHeap.HeapMem.MemFree | lwip/core/mem.c:311-356 | mem_free() at any moment, also inside a mem_malloc(), keeps the invariant and ends the allocation |
| MemHeap.HeapMem.MemTrim | lwip/core/mem.c:369-482 | mem_trim(): result and effect in each case |
| MemHeap.HeapMem.Scan | lwip/core/mem.c:532-548 | the search from lfree finds the lowest fit, or gives up after being disturbed |
| MemHeap.HeapMem.Adjust | lwip/core/mem.c:589-611 | lfree moves on from the block just taken, with frees and trims in between; the block is handed over |
| MemHeap.HeapMem.MemMalloc | lwip/core/mem.c:494-624 | with complete mem_free()/mem_trim() calls of other contexts at every unprotect point the invariant holds at each of them, and the call takes effect as one undisturbed mem_malloc() at one point of the run; the block returned has at least the size asked for and less than a header and the minimum more, what it left of the free block was one free block, and it keeps its end, because nobody else touches it |
| MempGraph.LoopsExact | lwip/core/memp.c:181-199 | a list runs into a circle if and only if it never ends |
| MempGraph.Meets | lwip/core/memp.c:187-195 | within as many rounds as there are elements the fast pointer is at the end or has met the slow one |
| MempGraph.PushExact | lwip/core/memp.c:460-464 | putting an element in front of a list gives a circle if and only if it was in the list already |
| Memp.Pools.RunsInCircle | lwip/core/memp.c:187-195 | the two-pointer loop terminates on every finite pool graph and finds a circle if and only if there is one |
| Memp.Pools.MempSanity | lwip/core/memp.c:181-199 | memp_sanity() is 0 if and only if some free list runs into a circle |
| Memp.Pools.constructor | lwip/core/memp.c:338-369 | memp_init(): every pool is one list of all its elements |
| Memp.Pools.Carve | lwip/core/memp.c:354-369 | linking the elements of one pool disturbs no other |
| Memp.Pools.MempMalloc | lwip/core/memp.c:390-428 | NULL if and only if the type is unknown or the pool empty; otherwise an element that nobody owns |
| Memp.Pools.MempFree | lwip/core/memp.c:435-471 | the assertion in memp_free() passes if and only if the element was not free already, and then all pools are sound |
| PbufGraph.ChainDistinct | lwip/core/pbuf.c:602-615 | a chain meets no pbuf twice |
| PbufGraph.NoDangling | lwip/core/pbuf.c:602-615 | no next pointer dangles |
| PbufGraph.NoLeak | lwip/core/pbuf.c:602-615 | every live pbuf is in the chain of one that a caller holds |
| PbufGraph.DropLast | lwip/core/pbuf.c:642-680 | freeing a pbuf with its last reference passes the handle on to the next one |
| PbufGraph.FreeSound | lwip/core/pbuf.c:642-693 | pbuf_free() keeps every count equal to next pointers plus handles |
| PbufGraph.LinkExact | lwip/core/pbuf.c:745-767 | linking a chain behind a last pbuf keeps chains finite if and only if that pbuf is not in it |
| PbufGraph.LinkSound | lwip/core/pbuf.c:745-767 | a link takes over the handle on the tail |
| PbufGraph.UnlinkSound | lwip/core/pbuf.c:810-831 | cutting a link leaves a handle |
| PbufData.CatSound | lwip/core/pbuf.c:745-767 | pbuf_cat() keeps the counts and gives the joined chain |
| PbufData.CatData | lwip/core/pbuf.c:745-767 | pbuf_cat() concatenates the bytes; tot_len stays the suffix sum if and only if the total fits 16 bits |
| PbufData.JoinedExact | lwip/core/pbuf.c:745-767 | pbuf_cat() of any two pbufs leaves all chains finite if and only if the chain at the tail does not run through the last pbuf of the head chain |
| PbufData.RefExact | lwip/core/pbuf.c:723-732 | pbuf_ref() keeps the counts if and only if ref does not wrap |
| PbufData.ChainSound | lwip/core/pbuf.c:786-792 | pbuf_chain() keeps the counts while the caller keeps its handle |
| PbufData.ChainNullLeaks | lwip/core/pbuf.c:786-792 | ... but with no head it counts a reference that nobody has |
| PbufData.DechainSound | lwip/core/pbuf.c:803-831 | pbuf_dechain() keeps the counts |
| PbufData.DechainData | lwip/core/pbuf.c:803-831 | ... and both parts have right totals and their own bytes |
| PbufData.DechainExact | lwip/core/pbuf.c:825-831 | NULL means that the tail is gone, if and only if the number of freed pbufs is no positive multiple of 256 |
| PbufData.ReallocSound | lwip/core/pbuf.c:430-490 | pbuf_realloc() keeps the counts |
| PbufData.ReallocData | lwip/core/pbuf.c:443-486 | pbuf_realloc() truncates the bytes, and tot_len stays the suffix sum |
| PbufRuns.RunSound | lwip/core/pbuf.c:602-615 | over every run of alloc, ref, free, cat, chain, dechain and realloc ref is the number of next pointers and handles, and no chain is circular |
| PbufRuns.AllFreed | lwip/core/pbuf.c:602-615 | when all handles are given up no pbuf is left |
| PbufTotals.StepTidy | lwip/core/pbuf.c:745-831 | one call keeps every tot_len right if and only if nobody outside points into the part of a chain whose totals change, and what is joined fits 16 bits |
| PbufTotals.RunTidy | lwip/core/pbuf.c:745-831 | over every run the totals stay right all along if and only if all calls are of that kind |
| PbufTotals.RunTotals | lwip/core/pbuf.c:745-831 | then tot_len is the number of bytes from each pbuf on, in every chain |
| PbufTotals.SharedTotals | lwip/core/pbuf.c:745-767 | a run of permitted calls after which a tot_len is wrong: a tail that two chains share is extended |
| Pbuf.Pbufs.PbufClen | lwip/core/pbuf.c:704-715 | the length of the chain, in 8 bits |
| Pbuf.Pbufs.PbufCopyPartial | lwip/core/pbuf.c:918-957 | the slice of the chain's bytes, clipped at their end |
| Pbuf.Pbufs.PbufTake | lwip/core/pbuf.c:966-997 | the data overwrite the front of the chain, or ERR_ARG and no change; ERR_OK means that they are stored if and only if there is a chain, or nothing to store |
| Pbuf.Pbufs.TakeThenCopy | lwip/core/pbuf.c:918-997 | pbuf_take() and then pbuf_copy_partial() on the same chain: after ERR_OK the data comes back if and only if there is a chain, or no data |
| Pbuf.Pbufs.TakeIntoNothing | lwip/core/pbuf.c:973 | the plainest case in which it does not |
| Pbuf.Pbufs.PbufCopy | lwip/core/pbuf.c:852-906 | ERR_ARG if and only if the target is too short or, being one pbuf, is just filled by the first pbuf of the source with empty ones to follow; any other source is copied into a target that does not end in an empty pbuf if and only if it does not end in one either, but for a second one reached at once; ERR_OK means that the whole source overwrote the front of the target, and any other end that a first part did; terminates |
| Pbuf.Pbufs.PbufFree | lwip/core/pbuf.c:618-693 | frees exactly the head run of pbufs with one reference and returns its length, in 8 bits |
| Pbuf.Pbufs.PbufRef | lwip/core/pbuf.c:723-732 | one more reference, in 16 bits |
| Pbuf.Pbufs.PbufCat | lwip/core/pbuf.c:745-767 | the loop over the totals, and the link, also for a tail that is in the head chain |
| Pbuf.Pbufs.PbufChain | lwip/core/pbuf.c:786-792 | pbuf_cat() and pbuf_ref() |
| Pbuf.Pbufs.PbufDechain | lwip/core/pbuf.c:803-831 | the two parts, and what is returned |
| Pbuf.Pbufs.PbufRealloc | lwip/core/pbuf.c:430-490 | the loop that steps over pbufs, the cut, and freeing the tail |
| Pbuf.Pbufs.PbufAllocPool | lwip/core/pbuf.c:235-294 | a chain of the fewest pbufs that hold the length, the first with what fits it, all others within their buffer and full but for the last, with right totals and one handle; or NULL and nothing changed, exactly when the pool has too few |
| Slip.SlipifOutput | lwip/netif/slipif.c:131-158 | the loops over the chain send the encoding of its bytes |
| Slip.GoesFrame | lwip/netif/slipif.c:180-258 | one frame decodes to its packet, cut at SLIP_MAX_SIZE + 1 bytes, after whatever was left from before |
| Slip.RoundTrip | lwip/netif/slipif.c:131-258 | decoding the frames of any packets gives exactly them, in order, if and only if none is empty or longer than SLIP_MAX_SIZE + 1 |
| Slip.Resync | lwip/netif/slipif.c:180-258 | after any garbage: all frames are received, except that garbage ending in an escape spoils the first one |
| Slip.Transparent | lwip/netif/slipif.c:139-152 | an END on the line always ends a frame; escaping at most doubles the bytes |
| Slip.FrameLosses | lwip/netif/slipif.c:219-258 | with pbuf_alloc() failing at some bytes: exactly the others are delivered, so a packet comes through if and only if there was a pbuf for each of its bytes |
| Slip.LosesByte | lwip/netif/slipif.c:219-230 | the plainest case: a packet arrives without its first byte |
| Slip.SlipifPriv.RxByte | lwip/netif/slipif.c:170-258 | the decoder on its chain of buffers, with allocation failure |
| Slip.SlipifPriv.RxBytes | lwip/netif/slipif.c:267-276 | a run of bytes on it, with any allocation failures |
| Timers.InsertExact | lwip/core/timers.c:286-307 | insertion leaves all other deadlines as they are, and puts the new one behind those that are not later |
| Timers.InsertHere | lwip/core/timers.c:292-305 | adjusting one difference inserts the new deadline |
| Timers.RemoveHere | lwip/core/timers.c:329-345 | adding a difference to the next one removes a deadline, without overflow |
| Timers.SysTimeouts.SysTimeout | lwip/core/timers.c:266-308 | sys_timeout() inserts the deadline; no difference underflows |
| Timers.SysTimeouts.SysUntimeout | lwip/core/timers.c:321-347 | sys_untimeout() removes the first match and changes no other deadline |
| Timers.SysTimeouts.SysCheckTimeouts | lwip/core/timers.c:358-399 | the loop, with handlers that set and remove timeouts while it runs, fires what Check says, in order |
| Timers.CheckExact | lwip/core/timers.c:358-399 | whatever the handlers do, what fires is due, in the order of the deadlines, and nothing is left that is due |
| Timers.CheckQuiet | lwip/core/timers.c:358-399 | with handlers that leave the list alone exactly the deadlines that are at most diff fire |
| Timers.CheckKeeps | lwip/core/timers.c:358-399 | no timeout is lost or invented: one that no handler touches fires or is left, as often as it was there |
| Timers.CheckActs | lwip/core/timers.c:358-399 | one that a handler sets is there once more, with a deadline counted from the one that has just fired; one that it removes once less |
| Timers.NeverEarly | lwip/core/timers.c:378-392 | what remains comes later than it was due, by exactly the lateness of the last timeout fired, because timeouts_last_time becomes now |
| Chksum.SumUnique | lwip/core/tcp_out.c:271-284 | the one's-complement sum of a string in 16 bits, zero only for zeros, is unique |
| Chksum.FoldExact | lwip/core/tcp_out.c:276-278 | folding the sum of two 16-bit numbers once loses no carry |
| Chksum.SwapExact | lwip/core/tcp_out.c:279-282 | swapping bytes multiplies by 256 modulo 65535 and is its own inverse |
| Chksum.WordsOn | lwip/core/tcp_out.c:271-284 | the one's-complement sum of a concatenation, with the second part swapped behind an odd length |
| Chksum.AddExact | lwip/core/tcp_out.c:271-284 | one call adds the sum of a piece of any length |
| Chksum.SegSum.TcpSegAddChksum | lwip/core/tcp_out.c:271-284 | tcp_seg_add_chksum() on the fields |
| Chksum.SegSum.AddAll | lwip/core/tcp_out.c:271-284 | any pieces from a fresh segment: with the flag undone the sum of all the data |
| Netconn.AcceptSound | lwip/api/api_msg.c:1265-1290 | more bytes of the current write: what TCP has stays the data up to write_offset, and the accounts stay right |
| Netconn.WriteMoreOutcome | lwip/api/api_msg.c:1208-1327 | do_writemore(): what is handed over, when the thread is released, with which error and length, and what stays pending |
| Netconn.StepValid | lwip/api/api_msg.c:276-1485 | after any message or callback the assertions on state, pcb and current_msg hold, there is one signal for each message that is not being worked on, and the bytes are accounted for |
| Netconn.StepKeeps | lwip/api/api_msg.c:276-1485 | each event adds its own message and no other, changes no answer that a thread has got, and makes the stream grow by what tcp_write() accepted |
| Netconn.RunKeeps | lwip/api/api_msg.c:276-1485 | the same over every run, in any interleaving: the messages handled are those asked, in order, each answered and signalled once but for the current one |
| Netconn.WriteOutcome | lwip/api/api_msg.c:1208-1327 | a write: TCP has a first part of it in one piece; while the thread waits that ends at write_offset; ERR_OK reports just what TCP has, which is all of it for a blocking write on a netconn never made non-blocking |
| Netconn.FailedReleases | lwip/api/api_msg.c:347-407 | after err_tcp() nobody waits: every message is answered and signalled, the current one with the error |
| Netconn.DeleteExact | lwip/api/api_msg.c:832-886 | do_delconn() waits if and only if a FIN finds no memory; it is refused only while a write or close is going on; while a non-blocking connect is going on it always succeeds, because tcp_close() does in SYN_SENT |
| Netconn.HalfCloseExact | lwip/api/api_msg.c:747-821 | with memory do_close() on an idle netconn leaves the thread waiting if and only if it is to shut down only the sending side of a pcb that cannot send |
| Netconn.HalfCloseForever | lwip/api/api_msg.c:811-820 | ... and then over every run in which the pcb does not fail |
| Netconn.IdleExact | lwip/api/api_msg.c:1214-1216 | an event leaves write_offset behind if and only if it ends a partly accepted blocking write on a netconn made non-blocking meanwhile |
| Netconn.IdleRun | lwip/api/api_msg.c:1354-1358 | over every run the assertions that nothing of an earlier write is left hold if and only if no write was ended in that way |
| Netconn.BlockingIdle | lwip/api/api_msg.c:1354-1358 | ... and so in every run in which nobody makes the netconn non-blocking |
| Netconn.InterruptedWrite | lwip/api/api_msg.c:1214-1216 | the shortest run in which they fail |
| NetconnProgress.SentCloses | lwip/api/api_msg.c:747-821 | a callback finishes a pending close and releases the thread with ERR_OK, if and only if it is not a half close of a pcb that cannot send, and no FIN is needed or there is memory for it |
| NetconnProgress.SentWrites | lwip/api/api_msg.c:1208-1327 | a callback hands over as much of a pending write as fits, and releases the thread when that was all or when the netconn does not block any more |
| NetconnProgress.ConnectedReleases | lwip/api/api_msg.c:937-974 | do_connected() releases a thread that waits for the connection, and clears a pending error that is not fatal after a non-blocking connect |
| NetconnProgress.WriteCompletes | lwip/api/api_msg.c:1208-1327 | over every run in which the pcb does not fail and nobody makes the netconn non-blocking, a blocking write is through, with ERR_OK and all its data, after no more callbacks that find room than it has bytes left |
| NetconnProgress.CloseCompletes | lwip/api/api_msg.c:747-821 | over every run in which the pcb does not fail a close, other than that half close, is through with the first callback that finds memory |
| NetconnProgress.WriteAnswered | lwip/api/api_msg.c:1343-1390 | what do_write() answers at once, in every state, and when the thread waits |
| NetconnProgress.CloseAnswered | lwip/api/api_msg.c:1451-1485 | the same for do_close() |
| NetconnProgress.ConnectAnswered | lwip/api/api_msg.c:984-1032 | the same for do_connect() |
| NetconnProgress.ListenAnswered | lwip/api/api_msg.c:1064-1108 | the same for do_listen() |
| NetconnProgress.SelectFlag | lwip/api/api_msg.c:1268-1280 | NETCONN_FLAG_CHECK_WRITESPACE is set by a write that does not block and is not tried as a whole, and cleared by a callback that finds the pcb writable |
| Netconn.NetConn.TryWrite | lwip/api/api_msg.c:1242-1267 | how much do_writemore() tries to write, in 16 bits, and with what result |
| Netconn.NetConn.Accept | lwip/api/api_msg.c:1281-1290 | the success branch of do_writemore() on the fields |
| Netconn.NetConn.DoWritemore | lwip/api/api_msg.c:1208-1327 | do_writemore() on the fields gives the state WriteMoreOutcome speaks of |
| Netconn.NetConn.DoWrite | lwip/api/api_msg.c:1343-1390 | do_write(): refused with the right error, or started |
| Netconn.NetConn.DoCloseInternal | lwip/api/api_msg.c:747-821 | closing, or waiting for another try |
| Netconn.NetConn.DoClose | lwip/api/api_msg.c:1451-1485 | do_close() in each state |
| Netconn.NetConn.DoDelconn | lwip/api/api_msg.c:832-886 | do_delconn() in each state |
| Netconn.NetConn.DoConnect | lwip/api/api_msg.c:984-1032 | do_connect(), blocking or not |
| Netconn.NetConn.DoListen | lwip/api/api_msg.c:1064-1108 | do_listen(), with both allocations |
| Netconn.NetConn.DoConnected | lwip/api/api_msg.c:937-974 | do_connected(): answer and signal exactly for a blocking connect |
| Netconn.NetConn.SentTcp | lwip/api/api_msg.c:276-337 | sent_tcp() and poll_tcp() go on with the pending write or close, with the outcome that SentWrites and SentCloses state |
| Netconn.NetConn.ErrTcp | lwip/api/api_msg.c:347-407 | err_tcp() on the fields |
| Netconn.NetConn.Serve | lwip/api/api_msg.c:276-1485 | a whole run on the fields ends in the state of the run on values, with the messages asked, the signals and the bytes of RunKeeps |

## Left out

- Connection set-up and SYN segments, RST processing, TIME_WAIT, listening pcbs and options: the TCP model starts with an established connection.
- Congestion window, slow start, RTT estimation, timers of TCP and the persist timer: they decide when something is sent, and the send model lets it be sent at any time. Which acknowledgement is the third duplicate is a parameter.
- Header fields, checksums of headers, PSH and URG flags, delayed acknowledgements, statistics.
- The limits on `ooseq` (`TCP_OOSEQ_MAX_BYTES`, `TCP_OOSEQ_MAX_PBUFS`) and freeing it under pool pressure: modelled as dropping any tail of the queue at any time.
- Refused data (`refused_data`) and the order of the callbacks after `tcp_receive()`.
- Payloads of TCP segments are byte sequences; trimming the front of a pbuf chain with `pbuf_header()` is not modelled.
- `tcp_write()` with a local MSS that does not exceed the length of the options: the code divides the data into segments without data then.
- Linked lists of segments, timeouts and messages are sequences; pbufs are a map from numbers to records. Aliasing of nodes is modelled for pbufs and pool elements, where it is what matters.
- TcpInExact.PrefixSafety32: assumes that segments start within 0x70000000 of `rcv_nxt` and hold less than 65535 bytes, that `rcv_nxt` gets no further than 2^29 ahead of the announced edge, and, because of the first defect named above, that segment and window edge lie in one run of 2^32 numbers when a segment is appended to `ooseq`; `TcpInLimit.StraddleLosesData` shows what happens otherwise. `ReceiveRuns.PrefixSafety`, on unbounded positions, assumes none of that.
- TcpOut.TcpPcb.Process: runs without the events that break the tiling (see `SendInvariant`), with acknowledgements near the oldest unacknowledged byte.
- TcpOut.TcpPcb.ReceiveAck: acknowledgement numbers are taken within 2^30 of the oldest queued byte.
- The heap: alignment is 4 and sizes have 16 bits, as configured for the board; `mem_calloc()`, `mem_malloc()` on pools and the statistics are not modelled.
- MemHeap.HeapMem.MemMalloc: other contexts run a given list of frees and trims at each unprotect point; that they eventually leave the allocator alone is part of that.
- The pools: sizes, alignment and the overflow check regions around elements.
- Pbufs: `pbuf_header()`, `pbuf_alloc()` for the other three types, custom pbufs, `pbuf_coalesce()`, `pbuf_memcmp()` and `pbuf_memfind()`, which would add easier members only.
- Pbuf.Pbufs.PbufCopy: packet queues; and with a target that ends in empty pbufs, which sources that fit are refused with ERR_VAL.
- PbufRuns.RunSound: joining chains that share a pbuf and wrapping `ref` are excluded; `PbufData.JoinedExact` and `PbufData.RefExact` say what happens then.
- Slip.SlipifPriv.RxByte: no buffer in a chain that `pbuf_alloc()` returns is empty, as that function asserts.
- SLIP: the serial driver, the receive thread, and packets queued from an interrupt.
- Timers.SysTimeouts.SysCheckTimeouts: what the handlers do is a finite list of calls of `sys_timeout()` and `sys_untimeout()`; with handlers that go on for ever the loop need not end.
- Chksum: the sum of a piece is given; how `inet_chksum()` computes it is not modelled.
- Netconn: core locking, send timeouts, receiving, accepting, UDP and RAW netconns, and the events for `select()`.
- Netconn: the model takes every end of a pcb to be reported to `err_tcp()`. TCP does not report the end of one whose receiving side was shut down before (lwip/core/tcp_in.c:322-324).
- Netconn.NetConn.Serve: a blocking connect is not deleted while it is going on, which `do_delconn()` asserts; no empty write is asked for, which `netconn_write_partly()` ensures.
