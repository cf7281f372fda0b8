# Verified models of the libev and libevent cores

The project models six parts of the two C event libraries that live under `src/main/jni`, libev 4.11 and
libevent 2.0.21, and proves what each part is for. `dafny verify dfyconfig.toml` checks everything.

| files | part |
|---|---|
| `AsyncWakeup`, `AsyncFairness`, `AsyncSleep` | the cross-thread wakeup handshake of the loop, as a step machine over every shared read and write |
| `TimerHeap`, `PendingQueue`, `Expiry`, `Timers`, `Periodics`, `PeriodicExpiry` | the 4-ary heap with back-indices, the queue of pending watchers, timers and periodics on top of both |
| `FdEvents`, `FdWatch`, `PollBackend`, `SelectBackend`, `EpollBackend`, `EpollWatch` | watcher lists per descriptor and the three backends that carry them to the kernel |
| `Evbuffer`, `EvbufferRuns`, `EvbufferSearch`, `ChunkSize` | the chunked byte buffer, runs of operations on it, the searches over it and the size of a new chunk |
| `DnsName`, `DnsPacket`, `DnsResponse`, `DnsFormat`, `NameserverRing` | compressed domain names (sections 3.1 and 4.1.4 of RFC 1035) and the ring of nameservers |
| `TagCodec`, `Tagging` | the tagged record format |
| `TokenBucket`, `RateGroup` | token buckets and groups that share one |
| `Common` | optional values, bytes and integer widths |

How the models are built:

- What the source changes in place is a class or an array here: heap slots and the watchers' own indices, the
  pending stacks, the chunk list with its `last_with_datap` shortcut, the nameserver ring with its two pointers,
  packet buffers, buckets and suspension flags. Ghost sequences (`spine`, `ring`) and specification functions
  (`Contents`, `Waiting`, `Watched`, `Write`, `Parse`, `Refilled`) say what the memory means.
- In the wakeup model every access to a shared variable is one step and all threads interleave freely. The memory
  fences in the source are what makes this view right.
- Times are reals. Tick numbers, generation counters, limits and 32-bit results wrap or truncate where the source
  does: `EpollBackend` counts generations modulo 2^32, `TokenBucket` computes in unsigned 64-bit arithmetic,
  `Tagging` returns lengths as C ints. The lengths inside `Evbuffer` are unbounded; `ChunkSize` has the one place
  where their 64-bit sums and doublings decide what happens.
- Clocks, system calls, busy locks and random numbers are parameters.

Where the code and its comments differ, the model follows the code. The comment in `event_tagging.c` (lines 71-92)
calls nibbles big-endian and gives `[82 66]` as the encoding of tag 0x166; the code writes the least significant
nibble and the least significant seven bits first.

Results that are not what a reader might expect, each with its exact condition:

- A periodic keeps to its own grid `offset + k * interval` whatever the clock reads if and only if its interval is
  at least `MIN_INTERVAL` or goes into it a whole number of times (`GridForEveryNow`, and `RecalcOnGrid` for one
  reading); an interval of 0.0001 s misses it (`ShortIntervalMissesGrid`).
- `periodics_reify`, with its assertion compiled out, does not come to an end while an expired periodic has a
  callback that answers with a time in the past (`NeverDone`); without one it does (`PeriodicExpiry.Loop.ReifyAll`).
- A descriptor that is closed and opened again while it is watched is not watched afterwards (`ReuseUnnoticed`).
  `fd_reify` registers a wanted descriptor with exactly the wanted mask if and only if it was not closed since its
  last registration, or its mask changed or one of its watchers was re-set (`EpollBackend.Loop.FdReify`, and
  `EpollWatch.Watchers.FdReify` with the watcher lists). Runs that re-set what they reuse therefore always agree
  (`RunAgrees`).
- `dnsname_to_labels` writes the closing zero of a name without looking at the room left. The zero falls behind the
  `buf_len` bytes if and only if the name is written out to its end, does not end in a dot and its labels fill the
  buffer to the last byte (`OverrunExactly`, and `BuildOverruns` for whole packets); 1498 bytes followed by a name
  of one byte in a server's buffer of 1500 are such a packet (`ClosingZeroBehindTheBuffer`).
- `evbuffer_chain_new` comes to an end if and only if the requested size and the header, as a wrapped 64-bit sum, are
  at most 2^63 (`EndsExactly`), and its chunk is large enough if and only if the sum does not wrap (`ChunkLength`).
  `evtag_unmarshal` asks it for more than that when a payload length is negative as an int (`NoAnswer`).
- `decode_tag_internal` stays inside the bytes it has pulled up if and only if there are at most five or one of the
  first five ends the tag (`TagReadInside`); for every tag that was encoded it does (`EncodedTagInside`).
- `evtag_consume` drains what `evtag_peek_length` announced exactly if the sum fits 32 bits and the payload length
  fits an int or is all there is (`PeekConsume`); below 2 GiB always (`PeekConsumeBelow2GiB`), above it records
  behind the payload are lost (`LongPayloadDrainsAll`).
- A group's bucket may be overdrawn, by less than the largest minimum share (`GroupBound`).

## Model

| member | source | states |
|---|---|---|
| `AsyncWakeup.InitInv` | src/main/jni/libev/ev.c:1845-1937 | the protocol invariant holds before anything was sent |
| `AsyncWakeup.SenderInv` | src/main/jni/libev/ev.c:1845-1886 | every step of any sender keeps it: raised flags and marks are remembered by somebody, and a skipped write under a blocking poll is about to be made up for |
| `AsyncWakeup.LoopInv` | src/main/jni/libev/ev.c:1889-1937 | every step of the loop thread keeps it, the drain, the lowering of the flags and the scan included |
| `AsyncWakeup.StepInv` | src/main/jni/libev/ev.c:3001-3062 | every enabled step keeps it, sends, poll returns, starting and stopping included |
| `AsyncWakeup.SendInv` | src/main/jni/libev/ev.c:4286-4290 | a thread entering `ev_async_send` or `ev_feed_signal` keeps it |
| `AsyncWakeup.QuietInv` | src/main/jni/libev/ev.c:4244-4281 | poll returning, and starting or stopping an async watcher from a callback, keep it |
| `AsyncWakeup.RunInv` | src/main/jni/libev/ev.c:1845-1937 | it holds after every run, for any number of threads |
| `AsyncWakeup.NoLostWakeup` | src/main/jni/libev/ev.c:3001-3062 | in every run, a loop blocked in poll with an empty pipe and no sender in mid-call has no marked live source |
| `AsyncWakeup.MarkedUntilFed` | src/main/jni/libev/ev.c:1908-1935 | a mark goes away only together with a feed of its source |
| `AsyncWakeup.EverySendIsFed` | src/main/jni/libev/ev.c:4286-4290 | in every run, a send is followed by a feed of its source before the loop sleeps again |
| `AsyncWakeup.LoopDelivers` | src/main/jni/libev/ev.c:1889-1937 | once senders are done, the loop alone feeds every marked source within a number of steps linear in the sources, and never sleeps before |
| `AsyncFairness.SenderStage` | src/main/jni/libev/ev.c:1845-1886 | no step of any thread sets a marked source back on its way to being fed, and the step it waits for moves it on |
| `AsyncFairness.StepDown` | src/main/jni/libev/ev.c:3001-3062 | the same for every action of the machine, with a rank that falls whenever the thread or the loop that matters acts |
| `AsyncFairness.FedWithinRounds` | src/main/jni/libev/ev.c:1845-1937 | with senders coming and going all the time: in rounds in which every thread inside a call steps, and the loop unless it is blocked, a marked source is fed within a number of rounds linear in signals and watchers |
| `AsyncSleep.LoopSleeps` | src/main/jni/libev/ev.c:3001-3062 | once senders are done the loop blocks in poll on a pipe it has emptied, within as many passes as there are reads to make and one more: it does not spin |
| `AsyncSleep.AllFedAtRest` | src/main/jni/libev/ev.c:1889-1937 | by then every marked source that can be found was fed exactly once, and nothing else was |
| `AsyncSleep.NoFeedUnsent` | src/main/jni/libev/ev.c:1845-1937 | in every run a source is fed no more often than it was sent |
| `AsyncSleep.SecondSendIsQuiet` | src/main/jni/libev/ev.c:1847-1848 | a send that finds its flag raised leaves its mark and nothing else |
| `AsyncSleep.UnwantedSendsDoNotWrite` | src/main/jni/libev/ev.c:1854-1860 | while the loop does not ask to be woken, no run of any senders writes to the pipe |
| `AsyncSleep.WritesBounded` | src/main/jni/libev/ev.c:1845-1885 | in every run each send writes to the pipe at most once |
| `AsyncSleep.StartStopExactly` | src/main/jni/libev/ev.c:4244-4281 | starting adds exactly this watcher, unmarked; stopping takes out exactly the one at its index |
| `AsyncSleep.RunWatchers` | src/main/jni/libev/ev.c:4244-4281 | after every run the watchers scanned are those started and not stopped since, each once |
| `TimerHeap.HParent` | src/main/jni/libev/ev.c:1664-1668 | the parent index with C division: only the root is its own parent |
| `TimerHeap.Upheap` | src/main/jni/libev/ev.c:1751-1770 | an entry too small for its place moves up: order, cached indices and the set of watchers are whole again |
| `TimerHeap.MinChild` | src/main/jni/libev/ev.c:1684-1697 | the unrolled fast path and the slow path both find a least child, or that there is none |
| `TimerHeap.Downheap` | src/main/jni/libev/ev.c:1671-1712 | the same for an entry too large for its place |
| `TimerHeap.Adjustheap` | src/main/jni/libev/ev.c:1774-1780 | any new key at one place is repaired by one of the two |
| `TimerHeap.Reheap` | src/main/jni/libev/ev.c:1784-1792 | repeated upheap makes a heap of arbitrary keys |
| `TimerHeap.RootIsLeast` | src/main/jni/libev/ev.c:2515-2527 | the parent-child order makes the root least of all |
| `TimerHeap.Heap.Insert` | src/main/jni/libev/ev.c:3278-3283 | the heap stays valid and gains one watcher |
| `TimerHeap.Heap.Remove` | src/main/jni/libev/ev.c:3300-3311 | the heap stays valid and loses exactly this watcher, wherever it stood |
| `TimerHeap.Heap.Retime` | src/main/jni/libev/ev.c:3331-3333 | a new time for any watcher, heap valid |
| `TimerHeap.Heap.RetimeFirst` | src/main/jni/libev/ev.c:2733-2740 | a new time for the root, heap valid |
| `PendingQueue.Pending.FeedEvent` | src/main/jni/libev/ev.c:1419-1433 | slots and back-indices stay inverse; the watcher waits with the union of old and new events, all others as before |
| `PendingQueue.Pending.ClearPending` | src/main/jni/libev/ev.c:3172-3196 | returns the events waiting and removes just that watcher by a dummy in its slot |
| `PendingQueue.Pending.Pop` | src/main/jni/libev/ev.c:2676-2689 | the top entry of a stack and the state without it |
| `PendingQueue.Pending.InvokePending` | src/main/jni/libev/ev.c:2676-2689 | with quiet callbacks it empties all stacks and makes the calls of `Calls` |
| `PendingQueue.FeedOk` | src/main/jni/libev/ev.c:1419-1433 | feeding in both branches keeps the inverse and adds the events for one watcher |
| `PendingQueue.ClearOk` | src/main/jni/libev/ev.c:3172-3196 | clearing keeps the inverse and removes one watcher |
| `PendingQueue.PopOk` | src/main/jni/libev/ev.c:2676-2689 | popping keeps the inverse; a live entry was waiting with exactly its events, a dummy changes nothing |
| `PendingQueue.QuietInvocation` | src/main/jni/libev/ev.c:2676-2689 | each waiting watcher is called once with all its events, nobody else, in descending priority |
| `PendingQueue.EarlierIsCalledFirst` | src/main/jni/libev/ev.c:2676-2689 | higher priority, and within one the later slot, is called first |
| `PendingQueue.FeedReverseWaiting` | src/main/jni/libev/ev.c:1436-1448 | feeding a list in reverse adds the event to exactly its members |
| `PendingQueue.FeedReverseOrder` | src/main/jni/libev/ev.c:1436-1448 | members of one priority that were not waiting will be called in list order |
| `PendingQueue.Pending.FeedReverseDone` | src/main/jni/libev/ev.c:1443-1448 | feeds the collected list from its end |
| `PendingQueue.PendingRuns` | src/main/jni/libev/ev.c:2676-2689 | over any interleaving of feeding, clearing and popping, each call is made with the union of the events fed since the last call or clear, cleared watchers are not called, and what waits at the end is what is still due |
| `Expiry.FedWatchers` | src/main/jni/libev/ev.c:1436-1448 | feeding the expired watchers after the one-shot ones were cleared: each is pending with the new event and, unless it was cleared, what it had; those of one priority that were not pending run in order of expiry |
| `Timers.Loop.Start` | src/main/jni/libev/ev.c:3267-3288 | the timer joins the heap once with its absolute time; starting twice changes nothing |
| `Timers.Loop.Stop` | src/main/jni/libev/ev.c:3291-3318 | the timer leaves the heap and the queue, and `at` becomes the time that was left |
| `Timers.Loop.Again` | src/main/jni/libev/ev.c:3321-3345 | all branches: a repeating timer runs with its full repeat from now, any other stops |
| `Timers.Loop.RescheduleFirst` | src/main/jni/libev/ev.c:2726-2743 | the first timer moves on from its own time by its repeat, or to now if that has passed, or is stopped and keeps what was left |
| `Timers.Loop.ReifyAll` | src/main/jni/libev/ev.c:2718-2748 | comes to an end; no active timer is left before now; those taken are exactly rescheduled or stopped, in order of expiry |
| `Timers.Loop.Reify` | src/main/jni/libev/ev.c:2718-2752 | the timers fed are exactly the active ones with `at` before now, each once; these have moved on from their own times as above, all others are untouched; those of one priority that were not pending will run in order of expiry |
| `Timers.Loop.KeepBeat` | src/main/jni/libev/ev.c:2731-2737 | over any number of turns, no further apart than its period, a repeating timer expires at `at`, `at` + repeat, `at` + 2 * repeat and so on, as often as there are such times before now |
| `Periodics.Recalc` | src/main/jni/libev/ev.c:2757-2778 | comes to an end with the least slot strictly after now, at most one interval away |
| `Periodics.RecalcOnGrid` | src/main/jni/libev/ev.c:2759-2777 | the result is the least `offset + k * interval` after now if and only if the slot it starts from is on that grid; from `MIN_INTERVAL` on it always is |
| `Periodics.GridForEveryNow` | src/main/jni/libev/ev.c:2759-2777 | it is so for every reading of the clock if and only if the interval is at least `MIN_INTERVAL` or goes into it a whole number of times |
| `Periodics.ShortIntervalMissesGrid` | src/main/jni/libev/ev.c:2759 | an interval of 0.0001 s with which it is not |
| `Periodics.Reschedule` | src/main/jni/libev/ev.c:2827-2845 | after a clock jump every periodic has its new time and the heap, with all keys changed, is valid again |
| `PeriodicExpiry.Loop.Start` | src/main/jni/libev/ev.c:3355-3382 | the periodic joins the heap once, with the time its callback, its interval or its offset gives |
| `PeriodicExpiry.Loop.Stop` | src/main/jni/libev/ev.c:3385-3412 | it leaves the heap and the queue |
| `PeriodicExpiry.Loop.RescheduleFirst` | src/main/jni/libev/ev.c:2792-2815 | the first periodic gets its next time or is stopped, all others as before |
| `PeriodicExpiry.Loop.NeverDone` | src/main/jni/libev/ev.c:2786-2818 | while an expired periodic's callback answers with a time in the past, no number of turns ends the loop |
| `PeriodicExpiry.Loop.ReifyAll` | src/main/jni/libev/ev.c:2786-2818 | without such a callback it ends; no active periodic is left before now, and those taken are exactly rescheduled or stopped, in order of expiry |
| `PeriodicExpiry.Loop.Reify` | src/main/jni/libev/ev.c:2782-2822 | the periodics fed are exactly the active ones with `at` before now, each once; those of one priority that were not pending will run in order of expiry |
| `FdWatch.Loop.IoSet` | src/main/jni/libev/ev.h:679 | an inactive watcher gets a descriptor and a mask with the re-set bit |
| `FdWatch.Loop.FdChange` | src/main/jni/libev/ev.c:1557-1568 | a descriptor with something to reify is in `fdchanges` exactly once |
| `FdWatch.Loop.IoStart` | src/main/jni/libev/ev.c:3225-3245 | the watcher is active and listed; lists, changes and the backend's view stay consistent |
| `FdWatch.Loop.IoStop` | src/main/jni/libev/ev.c:3248-3264 | the watcher is inactive and unlisted, likewise |
| `FdWatch.Unlink` | src/main/jni/libev/ev.c:3155-3169 | the list without the first occurrence of the watcher |
| `FdWatch.UnionEvents` | src/main/jni/libev/ev.c:1541-1542 | the list walk yields the union of the active watchers' events |
| `FdWatch.Loop.FdReify` | src/main/jni/libev/ev.c:1497-1553 | afterwards the backend, poll or select, watches for every descriptor exactly the union of its active watchers' events |
| `PollBackend.Poll.Modify` | src/main/jni/libev/ev_poll.c:52-86 | the descriptor-to-mask map changes at one descriptor; `polls` and `pollidxs` stay inverse |
| `PollBackend.Poll.Remove` | src/main/jni/libev/ev_poll.c:76-85 | swap-with-last removal takes out one descriptor and keeps the inverse |
| `SelectBackend.Select.Modify` | src/main/jni/libev/ev_select.c:75-141 | the bit vectors grow and represent the map changed at one descriptor |
| `SelectBackend.AssignSpec` | src/main/jni/libev/ev_select.c:132-138 | setting or clearing the bit of one descriptor in its word changes that descriptor only |
| `SelectBackend.Decode` | src/main/jni/libev/ev_select.c:250-273 | the word and bit loops report every ready descriptor once with exactly its events |
| `SelectBackend.SelectPoll` | src/main/jni/libev/ev_select.c:144-273 | from what is watched to what is reported: each descriptor once, with exactly those of the events it is watched for that have come |
| `EpollBackend.Kernel.Ctl` | src/main/jni/libev/ev_epoll.c:96-116 | the kernel: EBADF exactly for a descriptor that is not open, EEXIST for ADD of a registered one, ENOENT for MOD or DEL of an unregistered one, and a change only without an error |
| `EpollBackend.Loop.Modify` | src/main/jni/libev/ev_epoll.c:71-139 | from any registration that carries `emask` and `egen`: an open descriptor ends up registered with the new mask and the current generation, a closed one is killed, and deletion is skipped; the generation moves on by one exactly when the registration changes |
| `EpollBackend.Loop.Change` | src/main/jni/libev/ev.c:3225-3264 | the wanted mask changes and the descriptor is queued, with the re-set bit if its watcher was re-set |
| `EpollBackend.Loop.FdReify` | src/main/jni/libev/ev.c:1497-1553 | all changes are settled, those added by killed descriptors included; a wanted descriptor is registered with exactly its mask if and only if it was not closed since it was registered, or its mask changed or a watcher was re-set; one found not open is given up; generations move on by one exactly where registrations changed |
| `EpollBackend.Loop.Close` | src/main/jni/libev/ev_epoll.c:40-46 | the environment closes a descriptor: the registration vanishes silently, the invariant stays |
| `EpollBackend.Loop.ReuseUnnoticed` | src/main/jni/libev/ev_epoll.c:40-46 | a watched descriptor closed and opened again, with nothing re-set, ends up unregistered |
| `EpollBackend.Loop.ReuseSet` | src/main/jni/libev/ev.c:1541-1549 | with its watcher re-set it ends up registered with exactly the wanted mask, in the next generation |
| `EpollBackend.Loop.OldEventDropped` | src/main/jni/libev/ev_epoll.c:164-186 | an event with the tag of a file that is gone is dropped, and a new set asked for, however often the descriptor was reused since, unless that is a multiple of 2^32 times |
| `EpollBackend.Loop.RunAgrees` | src/main/jni/libev/ev_epoll.c:71-139 | after any run of changes, closes, opens, events, rearming and `fd_reify` in which a closed descriptor is re-set by the next `fd_reify`, or goes through it unwatched, the kernel watches for exactly what is wanted, and for a descriptor that stayed open that is the mask last asked for |
| `EpollWatch.Watchers.IoSet` | src/main/jni/libev/ev.h:679 | an inactive watcher gets a descriptor and a mask with the re-set bit; lists and wanted masks stay in step |
| `EpollWatch.Watchers.IoStart` | src/main/jni/libev/ev.c:3225-3245 | the watcher joins the list of its descriptor, whose wanted mask is the union over the list; the re-set bit reaches the descriptor |
| `EpollWatch.Watchers.IoStop` | src/main/jni/libev/ev.c:3248-3264 | it leaves the list, likewise |
| `EpollWatch.Watchers.Kill` | src/main/jni/libev/ev.c:1571-1581 | stopping the head of the list until it is empty stops exactly the watchers of that descriptor |
| `EpollWatch.Watchers.FdReify` | src/main/jni/libev/ev.c:1497-1581 | exactly the watchers of descriptors found not open are stopped; every descriptor still watched is registered for the union of its watchers' events if and only if it was not closed since it was registered, or the union changed or a watcher was re-set |
| `EpollWatch.Watchers.WatchAnew` | src/main/jni/libev/ev.c:3225-3245 | a watcher set and started on an open descriptor is registered by the next `fd_reify`, whatever was closed and opened under that number before |
| `EpollBackend.Loop.Event` | src/main/jni/libev/ev_epoll.c:164-212 | an old generation asks for a new epoll set; an unwanted event ends or corrects the registration; what is delivered has the current generation |
| `EpollBackend.Loop.Poll` | src/main/jni/libev/ev_epoll.c:164-212 | a batch from the kernel's own registrations never asks for a new set and delivers, once and in order, exactly what concerns descriptors without changes under way |
| `EpollBackend.Loop.Rearm` | src/main/jni/libev/ev_epoll.c:268-278 | a new, empty set with every descriptor that had events queued again |
| `EpollBackend.RearmRecovers` | src/main/jni/libev/ev.c:1622-1633 | rearming and reifying registers every open wanted descriptor and leaves none of them stale |
| `Evbuffer.Buffer.ChainInsert` | src/main/jni/libevent/buffer.c:284-312 | a chunk goes behind the last data and replaces an empty one; contents grow by its data; an empty chunk behind data leaves the shortcut where it is |
| `Evbuffer.Buffer.FreeTrailingEmpty` | src/main/jni/libevent/buffer.c:266-278 | an empty list of chunks is dropped, contents the same |
| `Evbuffer.Buffer.AdvanceLastWithData` | src/main/jni/libevent/buffer.c:647-660 | the shortcut ends at the pointer to the last chunk with data |
| `Evbuffer.Buffer.Add` | src/main/jni/libevent/buffer.c:1535-1618 | contents grow at the end by the bytes, in all space cases; list, shortcut and length stay right |
| `Evbuffer.Buffer.Prepend` | src/main/jni/libevent/buffer.c:1621-1692 | contents grow at the front by the bytes, in all space cases |
| `Evbuffer.Buffer.Drain` | src/main/jni/libevent/buffer.c:952-1018 | the first min(len, total) bytes go |
| `Evbuffer.Buffer.Copyout` | src/main/jni/libevent/buffer.c:1036-1079 | yields the first min(n, total) bytes and changes nothing |
| `Evbuffer.Buffer.Remove` | src/main/jni/libevent/buffer.c:1022-1033 | what is returned and what is left make up the old contents |
| `Evbuffer.Buffer.AddBuffer` | src/main/jni/libevent/buffer.c:860-903 | moves all chunks behind; the other buffer is empty, chunks are shared by nobody; adding a buffer to itself does nothing |
| `Evbuffer.Buffer.PrependBuffer` | src/main/jni/libevent/buffer.c:906-949 | the same in front |
| `Evbuffer.Buffer.RemoveBuffer` | src/main/jni/libevent/buffer.c:1085-1172 | dst gains exactly the first min(n, total) bytes, src keeps the rest, through whole chunks and one copied part; both lists stay valid and apart |
| `Evbuffer.Buffer.Pullup` | src/main/jni/libevent/buffer.c:1175-1284 | contents unchanged; succeeds exactly for 0 < n <= total (all for a negative n), and then the first n bytes lie in the first chunk; the shortcut is repaired in all cases |
| `EvbufferRuns.Perform` | src/main/jni/libevent/buffer.c:860-1692 | each operation on two buffers does to their contents what it means for two strings; the buffers stay valid and apart |
| `EvbufferRuns.Run` | src/main/jni/libevent/buffer.c:860-1692 | any sequence of operations on two buffers, in either direction, refines the same sequence on two strings |
| `ChunkSize.EndsExactly` | src/main/jni/libevent/buffer.c:161-167 | the doubling comes to an end if and only if size plus header, modulo 2^64, is at most 2^63 |
| `ChunkSize.ChunkLength` | src/main/jni/libevent/buffer.c:155-183 | the length is the first doubling that reaches the wrapped sum, less the header; it holds the requested size if and only if the sum does not wrap |
| `EvbufferSearch.PtrAdd` | src/main/jni/libevent/buffer.c:2412-2451 | moves a pointer by an offset within the contents or fails exactly at and beyond the end |
| `EvbufferSearch.PtrMemcmp` | src/main/jni/libevent/buffer.c:2458-2489 | compares across chunks: equal exactly if the pattern occurs in the flat contents there |
| `EvbufferSearch.Search` | src/main/jni/libevent/buffer.c:2492-2560 | the least offset from the start pointer on at which the pattern occurs in the flat contents, or none, however the contents are split; the start itself for an empty pattern |
| `EvbufferSearch.SearchRange` | src/main/jni/libevent/buffer.c:2497-2560 | with an end pointer: that offset if the occurrence ends before it, or else that no occurrence lies wholly before it |
| `EvbufferSearch.FindEolChar` | src/main/jni/libevent/buffer.c:1319-1343 | the 128-byte strides find the first CR or LF |
| `EvbufferSearch.FindChar` | src/main/jni/libevent/buffer.c:1297-1316 | the first LF, or first CR or LF, across chunks |
| `EvbufferSearch.Strspn` | src/main/jni/libevent/buffer.c:1368-1404 | the length of the run of CR and LF, across chunks |
| `EvbufferSearch.SearchEol` | src/main/jni/libevent/buffer.c:1417-1489 | in each style the first end of line of the flat contents and its length, or none |
| `EvbufferSearch.Readln` | src/main/jni/libevent/buffer.c:1492-1528 | splits the contents into the line, its end and the rest as the style says, or changes nothing |
| `EvbufferSearch.EolMeans` | src/main/jni/libevent/buffer.c:1417-1489 | the length found is that of a line ending of the style at that place, LF, CRLF, either, or a longest run of CR and LF, and 0 exactly if none begins there |
| `EvbufferSearch.ReadLines` | src/main/jni/libevent/buffer.c:1492-1528 | reading lines until there are none: lines, endings and the rest make up the old contents; each line ends where it first can, and in the rest no ending begins |
| `DnsName.JoinLabels` | src/main/jni/libevent/evdns.c:1577-1641 | the labels of a well-formed name joined by dots are the name without a trailing dot |
| `DnsName.PointerReads` | src/main/jni/libevent/evdns.c:1604-1606 | the two bytes of a compression pointer are 0xc000 and its target, the high one first, and read back as its 14-bit target |
| `DnsName.WriteSpells` | src/main/jni/libevent/evdns.c:1602-1638 | what is written spells the name, any pointer leads strictly backwards, and every entry added to the table is right |
| `DnsName.SpellsLater` | src/main/jni/libevent/evdns.c:1548-1564 | bytes appended later change no name and no table entry |
| `DnsName.Remembers` | src/main/jni/libevent/evdns.c:1548-1564 | with room in the table, a name written out is found there afterwards, and so is every tail of it behind a dot |
| `DnsName.SecondTime` | src/main/jni/libevent/evdns.c:1602-1610 | written again, such a name or tail takes two bytes, a pointer |
| `DnsName.TableBounded` | src/main/jni/libevent/evdns.c:1554-1555 | the table never holds more than its capacity |
| `DnsName.OverrunExactly` | src/main/jni/libevent/evdns.c:1602-1638 | what is written never exceeds the buffer by more than the closing zero, and does so if and only if the labels written out fill it to the last byte |
| `DnsPacket.Lookup` | src/main/jni/libevent/evdns.c:1537-1546 | the first entry with this name |
| `DnsPacket.DnsnameToLabels` | src/main/jni/libevent/evdns.c:1577-1641 | in a buffer of just `buf_len` bytes unless the closing zero overruns it: the in-place encoder produces exactly the bytes and the table of `Write`, or its error code, with or without a table, from any offset; earlier bytes stay |
| `DnsPacket.NameParse` | src/main/jni/libevent/evdns.c:936-989 | comes to an end on every packet and yields exactly what the packet decodes to within as many jumps as it has bytes, if that fits the output, and the offset behind the name |
| `DnsPacket.SpellsDecodes` | src/main/jni/libevent/evdns.c:958-969 | with backward pointers the jump limit is never reached |
| `DnsResponse.WritePatch` | src/main/jni/libevent/evdns.c:1924-1934 | the bytes of a name do not depend on the bytes before it, so the length filled in afterwards disturbs nothing |
| `DnsResponse.RoundTrip` | src/main/jni/libevent/evdns.c:1866-1948 | every item of a packet built from bytes, names and sized names with one shared table is read back where it was put: the same bytes, the same name without a trailing dot, the same end |
| `DnsResponse.BuildRoom` | src/main/jni/libevent/evdns.c:1896-1944 | a packet exceeds its buffer by at most the closing zero of its last name, and no item begins beyond it |
| `DnsResponse.BuildOverruns` | src/main/jni/libevent/evdns.c:1577-1641 | it does so if and only if its last item is a name whose labels, written out, fill the buffer to the last byte |
| `DnsResponse.RawExactly` | src/main/jni/libevent/evdns.c:1585-1598 | fixed bytes are written, one item after the other, exactly if all of them fit |
| `DnsResponse.ClosingZeroBehindTheBuffer` | src/main/jni/libevent/evdns.c:1871-1872 | a packet of 1501 bytes in the 1500 of a server's response |
| `DnsResponse.BuildPatch` | src/main/jni/libevent/evdns.c:1946-1949 | setting a bit of the header changes nothing behind it |
| `DnsResponse.Respond` | src/main/jni/libevent/evdns.c:1892-1957 | an error if and only if a question is the first item without room; otherwise the whole packet if it was finished and has at most 512 bytes, or else 512 bytes with the truncated bit set |
| `DnsResponse.ResponseReads` | src/main/jni/libevent/evdns.c:1892-1960 | every item that lies wholly in the response is read back from it, whether it is complete, was cut to 512 bytes or ran out of room |
| `DnsFormat.WriteItem` | src/main/jni/libevent/evdns.c:1916-1943 | one item in place, the length of a sized name filled in afterwards, is one step of `Build`, or its failure; the bytes before it stay |
| `DnsFormat.WriteItems` | src/main/jni/libevent/evdns.c:1884-1945 | any list of items, in one array with one table: the bytes and the table of `Build`, up to the first item without room |
| `DnsFormat.FormatResponse` | src/main/jni/libevent/evdns.c:1869-1965 | the response is that of `Respond`, for whatever the buffer holds behind the last item |
| `NameserverRing.PickRotates` | src/main/jni/libevent/evdns.c:1312-1345 | a pick takes the first server that is up and puts it behind all others that are |
| `NameserverRing.Fair` | src/main/jni/libevent/evdns.c:1309-1345 | over any number of picks without a state change, two servers that are up are picked equally often, give or take one |
| `NameserverRing.PicksUp` | src/main/jni/libevent/evdns.c:1325-1332 | only servers of the ring that are up are picked |
| `NameserverRing.Base.Pick` | src/main/jni/libevent/evdns.c:1312-1345 | with a server up, terminates with the next one that is up and never reaches the fallback; with none up, moves on by one; the ring and its count stay right |
| `NameserverRing.Base.Up` | src/main/jni/libevent/evdns.c:616-635 | the count stays the number of servers up |
| `NameserverRing.Base.Failed` | src/main/jni/libevent/evdns.c:556-614 | likewise, and the ring keeps its servers; unsent requests of the server move to the picks of the servers left, in turn, and no other request moves |
| `NameserverRing.UnsentInOrder` | src/main/jni/libevent/evdns.c:600-612 | the requests moved are taken in the order in which they stand, none twice |
| `NameserverRing.Base.Add` | src/main/jni/libevent/evdns.c:2447-2528 | a known address or a failed setup changes nothing; else a new server that is up stands right behind the head |
| `NameserverRing.Splice` | src/main/jni/libevent/evdns.c:2505-2513 | both pointers of every server form one ring again, a ring of one included |
| `TagCodec.EncodeIntInternal` | src/main/jni/libevent/event_tagging.c:115-136 | the nibble loop fills the array with exactly the encoding |
| `TagCodec.DecodeIntInternal` | src/main/jni/libevent/event_tagging.c:304-335 | the number the nibbles stand for and the length, or the error cases |
| `TagCodec.DecodeEncode` | src/main/jni/libevent/event_tagging.c:304-335 | every 32-bit or 64-bit number is found again at its offset, with its length, whatever stands around it |
| `TagCodec.EncodedIntAt` | src/main/jni/libevent/event_tagging.c:115-136 | the format: the number of digits less one in the first nibble, no superfluous digit, and digit t is number / 16^t modulo 16 |
| `TagCodec.ValueSnoc` | src/main/jni/libevent/event_tagging.c:318-330 | a further digit counts 16 to the number of digits before it, for any digits |
| `TagCodec.EncodeTag` | src/main/jni/libevent/event_tagging.c:171-192 | the seven-bit groups of a tag |
| `TagCodec.TagByteAt` | src/main/jni/libevent/event_tagging.c:171-192 | the format: byte i has tag / 128^i modulo 128 and the high bit except in the last, with no superfluous byte |
| `TagCodec.DecodeTagInternal` | src/main/jni/libevent/event_tagging.c:194-231 | the number the groups spell, modulo 2^32, and how many bytes were read |
| `TagCodec.TagReadInside` | src/main/jni/libevent/event_tagging.c:207-220 | no more bytes are read than were pulled up if and only if there are at most five or one of the first five ends the tag |
| `TagCodec.EncodedTagInside` | src/main/jni/libevent/event_tagging.c:172-220 | for an encoded tag it is so, whatever follows |
| `TagCodec.GroupsTag` | src/main/jni/libevent/event_tagging.c:172-231 | an encoded tag is decoded again, whatever follows |
| `Tagging.TakeMarshalled` | src/main/jni/libevent/event_tagging.c:451-590 | reading one marshalled record of any kind yields it and leaves the rest |
| `Tagging.StreamRoundTrip` | src/main/jni/libevent/event_tagging.c:245-590 | reading the concatenation of any list of records yields the list and leaves the rest untouched |
| `Tagging.NumberExactly` | src/main/jni/libevent/event_tagging.c:469-519 | under another tag than asked for a number is refused and only the tag taken; else the answer depends on the payload alone and the whole record is taken |
| `Tagging.TimevalExactly` | src/main/jni/libevent/event_tagging.c:564-590 | the same for a time, where the whole record is taken in any case |
| `Tagging.PeekConsume` | src/main/jni/libevent/event_tagging.c:386-447 | when peeked and consumed lengths agree, as an if-and-only-if |
| `Tagging.PeekConsumeBelow2GiB` | src/main/jni/libevent/event_tagging.c:386-447 | they always do in a buffer below 2 GiB |
| `Tagging.LongPayloadDrainsAll` | src/main/jni/libevent/event_tagging.c:422-447 | a payload of 2 GiB or more takes all records behind it along |
| `Tagging.Buffer.Marshal` | src/main/jni/libevent/event_tagging.c:245-252 | appends tag, length and payload |
| `Tagging.Buffer.MarshalNumber` | src/main/jni/libevent/event_tagging.c:264-286 | appends a number as a record |
| `Tagging.Buffer.MarshalTimeval` | src/main/jni/libevent/event_tagging.c:295-302 | appends both fields modulo 2^32 as one record |
| `Tagging.Buffer.UnmarshalHeader` | src/main/jni/libevent/event_tagging.c:422-436 | tag and length as an int, and what is drained, in the error cases too |
| `Tagging.Buffer.ConsumeRecord` | src/main/jni/libevent/event_tagging.c:438-447 | drains one record |
| `Tagging.NoAnswer` | src/main/jni/libevent/event_tagging.c:451-466 | a length that is negative as an int, other than -1, is a size for which `evbuffer_chain_new` does not end or allocates too little |
| `Tagging.Buffer.Unmarshal` | src/main/jni/libevent/event_tagging.c:451-466 | takes one record with its payload; there is an answer exactly if the length is not such a one |
| `Tagging.Buffer.UnmarshalNumber` | src/main/jni/libevent/event_tagging.c:469-519 | takes a number with the needed tag; what is drained in each error case |
| `Tagging.Buffer.UnmarshalTimeval` | src/main/jni/libevent/event_tagging.c:564-590 | takes a time with the needed tag; what is drained in each error case |
| `Tagging.Buffer.Peek` | src/main/jni/libevent/event_tagging.c:386-402 | the announced length, without draining |
| `TokenBucket.CfgNew` | src/main/jni/libevent/bufferevent_ratelim.c:141-172 | a configuration is accepted exactly if 1 <= rate <= burst <= the largest ssize_t, for both directions |
| `TokenBucket.RaiseIsRefilled` | src/main/jni/libevent/bufferevent_ratelim.c:86-105 | the overflow-avoiding 64-bit computation equals min(limit + n * rate, maximum), for negative limits too |
| `TokenBucket.RefillInSteps` | src/main/jni/libevent/bufferevent_ratelim.c:86-105 | refilling in two steps equals refilling in one |
| `TokenBucket.ElapsedAcrossWrap` | src/main/jni/libevent/bufferevent_ratelim.c:77-84 | ticks are counted across the wrap of the 32-bit tick number |
| `TokenBucket.Bucket.constructor` | src/main/jni/libevent/bufferevent_ratelim.c:49-71 | a new bucket holds one tick's worth |
| `TokenBucket.Bucket.Reinit` | src/main/jni/libevent/bufferevent_ratelim.c:55-65 | a new configuration only clips |
| `TokenBucket.Bucket.Update` | src/main/jni/libevent/bufferevent_ratelim.c:73-110 | both limits become min(limit + n * rate, maximum); nothing changes if no tick passed or time went back; limits never exceed the maximum |
| `TokenBucket.Bucket.DecrementRead` | src/main/jni/libevent/ratelim-internal.h:91-94 | the limit goes down, below zero if need be, and stays under the maximum |
| `RateGroup.Group.constructor` | src/main/jni/libevent/bufferevent_ratelim.c:637-664 | a new group with one tick's worth and the default minimum share |
| `RateGroup.Group.GetReadMax` | src/main/jni/libevent/bufferevent_ratelim.c:200-260 | the smaller of the member's own refilled limit and its share, never negative; 0 in a suspended group, which also suspends the member |
| `RateGroup.Group.ShareDivides` | src/main/jni/libevent/bufferevent_ratelim.c:242-252 | the shares of all members together are what the bucket holds, but for a remainder smaller than their number; if that is less than the minimum share for each, the share is the minimum |
| `RateGroup.Group.DecrementReadBuckets` | src/main/jni/libevent/bufferevent_ratelim.c:275-310 | after a granted read the books balance, and the group is suspended exactly if its limit is used up, whatever locks were busy |
| `RateGroup.Group.ShareLeaves` | src/main/jni/libevent/bufferevent_ratelim.c:242-249 | a granted read overdraws the bucket by less than the minimum share |
| `RateGroup.Group.SuspendReading` | src/main/jni/libevent/bufferevent_ratelim.c:351-373 | suspends every member whose lock is free |
| `RateGroup.Group.UnsuspendReading` | src/main/jni/libevent/bufferevent_ratelim.c:486-503 | resumes every member whose lock is free, and retries later exactly if one was busy |
| `RateGroup.Group.Refill` | src/main/jni/libevent/bufferevent_ratelim.c:528-556 | refills by the ticks passed and resumes exactly if a retry is due or the limit has reached the minimum share; no member is forgotten |
| `RateGroup.Group.SetMinShare` | src/main/jni/libevent/bufferevent_ratelim.c:699-718 | the share clipped to both rates, or an error |
| `RateGroup.Group.SetCfg` | src/main/jni/libevent/bufferevent_ratelim.c:668-697 | new rates, the limit clipped, the share recomputed, the largest share and rate kept up to date; the books balance |
| `RateGroup.Group.AddMember` | src/main/jni/libevent/bufferevent_ratelim.c:731-776 | nothing happens to a member of this group; any other leaves its group, resumed, and joins suspended exactly if this group is; both groups stay valid |
| `RateGroup.Group.RemoveMember` | src/main/jni/libevent/bufferevent_ratelim.c:784-808 | a member leaves and is resumed |
| `RateGroup.Group.GroupBound` | src/main/jni/libevent/bufferevent_ratelim.c:275-310 | over every run: bytes read stay below rate + rate * ticks + minimum share, for the largest rate and share used, and the limit stays above minus that share |

## Left out

- Floating-point rounding, including the escape in `periodic_recalc` for times that no longer change: times are reals.
- The 2-heap variant of the timer heap and a heap without cached times.
- Signals are sources of the wakeup protocol; installing handlers, signalfd, child, stat, idle, prepare, check, embed and fork watchers are not modelled.
- AsyncWakeup.LoopDelivers: speaks of the loop alone; `AsyncFairness.FedWithinRounds` has the senders.
- AsyncFairness.FedWithinRounds: every thread inside a call and the loop step in each round; an unfair scheduler can keep a thread from raising its flag.
- `evpipe_init` and pipes that fill up: the pipe is a counter.
- The epoll EPERM list (`epoll_eperms`) and what fork does beyond rearming.
- EpollBackend.Loop.Change: the watcher list of a descriptor is the wanted mask there; `EpollWatch` has the lists themselves.
- Events that `fd_kill` feeds to the watchers it stops, and handing an event of a descriptor to its watchers.
- kqueue, event ports and devpoll.
- Evbuffer chunks that are pinned, referenced, mapped or for sendfile; freezing, locking and reference counts; reserve, commit and expand, which leave empty chunks behind the data; byte counters for callbacks.
- Evbuffer chunk memory is a sequence per chunk: moves inside one chunk are assignments of the whole sequence.
- Allocation failure everywhere.
- DnsPacket.NameParse: bytes behind the packet that a too long last label makes it copy are taken as zeros; the next turn fails whatever they are.
- DnsResponse.RoundTrip: for buffers up to the 16384 bytes that pointers reach.
- DnsFormat.FormatResponse: in an array of just `buf_len` bytes it asks that no closing zero falls behind them, since an array here cannot be overrun; with one byte to spare in the array nothing is asked. `DnsFormat.WriteItem` and `DnsFormat.WriteItems` likewise.
- DnsFormat: the header and the fixed fields of questions and records are byte strings made beforehand; the allocation of the copy is left out.
- evdns requests, retransmission, search domains, resolv.conf and hosts files, getaddrinfo, clearing the ring, probing timers.
- NameserverRing.Base.Failed: the inflight request lists are one sequence.
- Tagging: a buffer is its byte string, which `Evbuffer` shows to be right.
- TagCodec.DecodeTagInternal: a tag that is not read inside the bytes pulled up (`TagReadInside`) is decoded from the buffer's own bytes, and what is shifted by 32 bits or more is dropped.
- Tagging.Buffer.Unmarshal: says nothing about the state when there is no answer.
- Tagging.PeekConsume: tags of more than INT_MAX bytes are outside its condition.
- `evtag_unmarshal_fixed`, `evtag_unmarshal_string`, `evtag_payload_length`: the header and one copy.
- RateGroup: the writing direction, which mirrors reading; the refill timers of single members; `bufferevent_set_rate_limit`.
- RateGroup.Group.DecrementReadBuckets: reads are at most what was granted in the same state, as in a single thread.
- The rest of both libraries, the other native code and the scripts of the repository.
