# JABC in Dafny

JABC binds JavaScriptCore to a systems library. Most of it passes arguments along; six places hold
algorithms and protocols, and this project models those and proves what they promise.
`dafny verify dfyconfig.toml` checks the whole project.

| modules | what they model |
|---|---|
| Rows, KWay, Memtable, Queries, Cursors, IndexHandle | the index handle of `pup.hpp`: sorted runs under a two-part memtable, merged by every query |
| MapOwnership, MapOutgrown, MapHeap | file mappings owned by garbage-collected wrappers (`io.cpp`, `abc.close`) |
| ByteBuf, WriteFifo, SocketSpec, SocketInputs, SocketRuns, SocketObject | the Buf cursor, the socket's write queue and the socket state machine (`buf.cpp`, `net.cpp`) |
| TimerWheel, TimerLives, TimerWake, TimerObject | many timers over pol's single one (`net.cpp`, `pol.cpp`) |
| UstarFormat, UstarArchive, UstarFields, UstarTools | the script pack's archive, its writer and its reader (`jsrcpack.js`, `require.cpp`); the format is the "ustar Interchange Format" of the pax utility in IEEE Std 1003.1 |
| Paths, Resolver, Specs, Loader, RequireObject | path normalization, memoized resolution and the CommonJS loader (`require.cpp`) |
| Utf | UTF-16 to UTF-8 and back (`utf8.cpp`); section 3 of RFC 3629, sections 2.1 and 2.2 of RFC 2781 |
| UlogScan, UlogCodec | row search over one log buffer (`ulog.hpp`) and the stamp rule of `feed` (`cont.cpp`); one codec it applies to |

Code that changes things step by step is a method over arrays, or over the fields of a class, proved
equal to a function of the old state; the theorems about whole runs are lemmas about those functions.
A class keeps a ghost field with the specification's state (`st`, `book`, `puts`, `rows`, `log`), and its
`Valid()` ties the real fields to it.

Helpers the repository calls but does not contain are given bodies by their stated contracts: the heap
over run entries is "least head, highest entry first"; insertion sort is stable and the dedup keeps the
last; compaction merges any suffix of the youngest runs at any time; `utf8sFeed32` and `utf8sDrain32`
are the RFC forms, a failed drain consuming nothing; the log's row codec is a parameter that reads what
it wrote. System calls and the listeners of events are inputs: readiness, results of `_send` and
`_recv`, what a callback does, which wrappers a collection reaches, which paths are files.

Five promises do not hold of the code without a condition. Each has the exact condition proved, and a
run that breaks it:

- The FIN can overtake queued bytes. Over whole runs it does exactly when a flush empties the queue of
  an open socket whose 'drain' listener then writes and ends; a listener that only ends it is
  harmless. Those bytes are lost: behind the FIN every send fails with EPIPE, which `_send` throws out
  of the poll handler, so they stay queued for good (`SocketRuns.RunTidy`, `SocketRuns.FinOvertakes`,
  `SocketRuns.OvertakenBytesStay`).
- When a tick leaves the soonest timer an hour or more away, pol drops its timer while the wheel
  believes itself on, and no timer set later ever fires. (Delays are cut to 32 bits on the way, so the
  exact condition is modulo 2^32 ms.) Over whole runs the wheel is armed in time exactly when no tick
  ended so: `TimerWake.RunArmed`, `TimerWake.LostForGood`, `TimerWake.HourIsLost`.
- The 2^54-th generation of a slot outgrows its finalizer's tag, and a mapping of that age that is not
  closed is never unmapped (`MapOwnership.FinalizedMeansUnmappedOnce`, `MapOutgrown.TagOutgrown`,
  `MapOutgrown.OutgrownForGood`).
- The comment at `require.cpp:153-154` says only a relative spec off a relative base can change under
  a chdir; a bareword found through a floor under a relative `XDG_CACHE_HOME` can as well
  (`Resolver.TransparentIff`, `Resolver.RelativeFloorShows`).
- The third candidate of a spec is index.js in the place it leads to, except for a spec that leads
  nowhere ("./" off the relative base "."): its normal form is empty, and the candidate is /index.js
  (`Resolver.IndexLiesUnder`, `Resolver.NowhereIsRoot`).

## Model

| member | source | states |
|---|---|---|
| Rows.LastIsReplay | pup.hpp:13 | Reading a log of puts by its last row for a key is looking the key up in the plain map the puts build. |
| Rows.AnswersDetermineRows | pup.hpp:126-127 | A strictly ascending run is determined by the answers it gives, so "ascending, with these answers" specifies a result completely. |
| KWay.PickIsNewest | pup.hpp:185-186 | What the merge emits for a key is the answer of the youngest source that has it. |
| KWay.Top | pup.hpp:308-312 | The next row is the least head, and among equal heads the youngest entry's; there is none exactly when every entry is exhausted. |
| KWay.Pull | pup.hpp:308-316 | One turn of the drain moves the entries on in place. Of ascending entries it emits the least key still to come with its newest value and removes exactly that key from what is still to come; of any entries it emits the least head; it ends exactly when nothing is left. |
| KWay.Merge | pup.hpp:162-178 | A compaction merge is strictly ascending, gives for every key the answer of the youngest source, and fits any room the sources fit. |
| KWay.FindGE | pup.hpp:282 | The binary search splits a sorted run into what is below the key and what is not. |
| Cursors.Load | pup.hpp:356-360 | Loading the cursor drops the exhausted places and nothing else; the order of age stays. |
| Cursors.Position | pup.hpp:339-347 | Positioning keeps the places that are not exhausted, each from its first row at or past k: they answer from k on as the sources do. |
| Cursors.Next | pup.hpp:351-370 | One next over places in the runs and the page: the row is the turn of what they read now, and the places move on to exactly what that turn leaves. |
| Memtable.InSort | pup.hpp:139 | The in-place insertion sort orders DATA and moves no answer (it is stable), and touches nothing outside DATA. |
| Memtable.Dedup | pup.hpp:140-142 | The in-place dedup keeps of each group of equal keys the last row: strictly ascending, same answers. |
| IndexHandle.Handle.constructor | pup.hpp:208-241 | A handle opened over at most 64 runs answers as the log of its runs, oldest first. |
| IndexHandle.Handle.Open | pup.hpp:230-236 | Opening more than 64 runs is refused; fewer open as a handle over them. |
| IndexHandle.Handle.IsClean | pup.hpp:132-137 | The scan says clean exactly when DATA is strictly ascending. |
| IndexHandle.Handle.Sync | pup.hpp:128-161 | After a sync DATA is strictly ascending with the same answers; one that was clean is left byte for byte; a collapse leaves only PAST, which is the old PAST overridden by the old DATA, in no more room. |
| IndexHandle.Handle.SortData | pup.hpp:138-143 | Sort, dedup and shed change no answer and do not touch PAST. |
| IndexHandle.Handle.Collapse | pup.hpp:145-160 | Merging PAST and DATA back into the page never overflows it and gives PAST overridden by DATA. |
| IndexHandle.Handle.Sources | pup.hpp:185-206 | The query sources answer together as the whole log of puts; it fails exactly when there are more than 64 of them; afterwards the memtable is clean, and one that was clean is not touched. |
| IndexHandle.Handle.Get | pup.hpp:271-286 | get returns the value of the last put of the key, nothing exactly when there was none, and the too-many-runs error exactly past 64 sources. |
| IndexHandle.Handle.Range | pup.hpp:288-326 | range emits the newest rows of [lo, hi), strictly ascending, each once; a callback that stops it is the first to say so and its row is the last. |
| IndexHandle.Handle.Seek | pup.hpp:328-349 | After seek(k) the cursor's places read exactly the newest rows from k on, and the memtable is clean, so that queries leave its page alone until the next put; a seek that fails leaves the cursor alone. |
| IndexHandle.Handle.Next | pup.hpp:351-370 | next reads the page as it is now. While the cursor's places read ascending it pulls the least row still ahead, with its newest value, and leaves exactly the others; whatever they read it pulls the least head; it is undefined exactly when nothing is ahead. |
| IndexHandle.Handle.Ask | pup.hpp:271-326 | Any lookups and scans of a clean page leave the page alone, and with it everything the cursor has ahead. |
| IndexHandle.Handle.PullAll | pup.hpp:328-370 | seek(k) and then next until it runs dry, with any lookups and scans before each next, gives exactly the newest rows from k on, strictly ascending, though each next reloads its heap and the page is read in place. |
| IndexHandle.Handle.Seal | pup.hpp:259-269 | Sealing moves the memtable into a youngest run and changes no answer; by the model's own page policy it is refused exactly when there is something to seal and there are 64 runs already. |
| IndexHandle.Handle.MergeYoungest | pup.hpp:162-178 | Merging any number of the youngest runs into one changes no answer and leaves the older runs alone; it fails exactly past 64. |
| IndexHandle.Handle.Put | pup.hpp:243-257 | A put is appended to the log, or is refused and changes no answer; a read-only handle refuses it. By the model's own page policy a full page makes room first, and the only other refusal is a page full of different keys over 64 runs. |
| IndexHandle.Handle.Commit | pup.hpp:259-269 | A commit empties the memtable into runs, whatever suffix of them is merged, and changes no answer; a read-only handle refuses it, and by the model's own page policy so does one with a memtable that is not empty over 64 runs, and no other. |
| IndexHandle.CollapsedSize | pup.hpp:126-127 | PAST overridden by DATA has exactly one row for each key of the two. |
| IndexHandle.Handle.Perform | pup.hpp:243-286 | Any one operation is refused exactly under its stated condition (the model's own, where the page policy decides), logs its row exactly when it is an accepted put, and adds at most one run. |
| IndexHandle.Handle.RunThenGet | pup.hpp:243-286 | After any sequence of puts, commits, syncs, collapses, seals, merges of any youngest suffix and queries, some of them refused, get returns the last accepted put of the key, else what the handle knew before, and fails exactly past 64 sources; on a writable handle a run too short to fill the stack has nothing refused. |
| IndexHandle.Handle.Reopen | pup.hpp:208-241 | Opening the sealed runs again gives a handle with the same answers. |
| Queries.Lookup | pup.hpp:281-284 | Walking the sources from the youngest and accepting the first match gives the newest-wins answer. |
| Queries.SeekRange | pup.hpp:303-304 | Trimming every source to [lo, hi) restricts the newest-wins answers to that range. |
| Queries.Drain | pup.hpp:308-324 | Draining the trimmed sources through the callback gives the range, or its prefix up to the row the callback stopped at. |
| Queries.SeekAgreesWithRange | pup.hpp:291-370 | A cursor pulled dry from k and a whole range scan from k give the same rows. |
| Queries.StoppedScanIsPrefix | pup.hpp:317-323 | A scan the callback stopped is a prefix of the scan it did not stop. |
| MapOwnership.TagMatchesIff | io.cpp:571-585 | The 64-bit word that packs (generation, fd) always names its slot, and matches the slot's current generation exactly when it carries that generation and it is below 2^54. |
| MapOwnership.FinalizerTest | io.cpp:577-585 | The finalizer's test of slot, base and generation passes exactly when the wrapper's own mapping is still in place and its generation fits the tag. |
| MapOwnership.BaseTest | cont.cpp:456 | The slot found at an attached view's base is that view's own. |
| MapOwnership.CloseSound | cont.cpp:437-458 | A close unmaps the closer's mapping and nobody else's; a second close does nothing. |
| MapOwnership.FinalizeSound | io.cpp:577-585 | A finalizer unmaps its own mapping if it is still there, and nobody else's; it misses exactly an unclosed mapping whose generation outgrew the tag. |
| MapOwnership.MapSlotSound | io.cpp:573-576 | A free slot and a free base may be handed out again under the next generation. |
| MapOwnership.StepTouchesOwnMapping | io.cpp:573-585 | No step of any kind unmaps a mapping other than that of the wrapper being closed or finalized. |
| MapOwnership.RunSound | io.cpp:573-585 | In every interleaving of maps, aborted maps, closes and finalizers, with slots and bases reused freely, every booked slot holds the live mapping of its newest wrapper and every wrapper's mapping is unmapped at most once. |
| MapOwnership.FinalizedMeansUnmappedOnce | io.cpp:569-585 | A finalized wrapper's mapping has been unmapped exactly once if and only if it booked no slot, was closed, or its generation is below 2^54. |
| MapOwnership.CloseDetaches | cont.cpp:446-453 | Of every kind of mapping: a close leaves its own view detached and every other wrapper as it was. |
| MapOwnership.FinalizeMarks | io.cpp:577-598 | A finalizer marks its own wrapper, leaves its view as it was, and every other wrapper too. |
| MapOwnership.MapsHandOut | io.cpp:668-684 | A mapping hands out one wrapper more, attached, unfinalized and mapped at its base. |
| MapOwnership.RunFlags | cont.cpp:437-458 | In every run, of every kind of mapping: a view is attached if and only if nobody closed it in its life, and its wrapper is finalized if and only if its finalizer ran. |
| MapOutgrown.TagOutgrown | io.cpp:573-585 | Such a run: after 2^54 - 1 mappings of a slot that came to nothing, the next is handed out, its wrapper is finalized without a close, and the mapping is still there; |
| MapOutgrown.OutgrownForGood | io.cpp:573-585 | and nothing that happens later unmaps it. |
| MapHeap.CountChange | io.cpp:542-551 | Changing one wrapper moves the counts of unfinalized wrappers by exactly that wrapper. |
| MapHeap.ReapedCount | io.cpp:560-564 | Once every unreachable wrapper is finalized, the booked fds are those of the reachable ones. |
| MapHeap.BookedArePinned | io.cpp:526-529 | While no generation has outgrown its tag, there are at most as many booked fds as unfinalized wrappers that book one. |
| MapHeap.Mappings.PinBounds | io.cpp:530-541 | The pin counts are the numbers of unfinalized wrappers; while no generation has outgrown its tag the fds booked in the slots are at most the fd pins, and these stay within max(255, those reachable at the last sweep) + 256; mappings stay within those the last sweep left + 4096; 256 times the sweeps never exceeds the mappings taken. |
| MapHeap.Mappings.PinTake | io.cpp:544-547 | One more pin, and one more booked fd if the wrapper books one. |
| MapHeap.Mappings.PinDrop | io.cpp:548-551 | One pin less, never below zero. |
| MapHeap.Mappings.CloseView | cont.cpp:437-458 | A close of any kind of mapping detaches its view and leaves every other wrapper as it was; with the slot found at its base released it does what the ledger says of a close, once. |
| MapHeap.Mappings.FinalizeView | io.cpp:577-598 | The finalizers do what the ledger says, and drop the wrapper's pins. |
| MapHeap.Mappings.Collect | io.cpp:559-564 | A collection spares what is reachable; a forced one leaves only reachable booked fds. |
| MapHeap.Mappings.Sweep | io.cpp:553-567 | Below both marks a sweep does nothing; past one it collects, counts itself, notes what is left and sets the marks one floor above it. |
| MapHeap.Mappings.MapCtx | io.cpp:573-576 | The slot's generation goes up by one, and the word packs the new generation over the slot number. |
| MapHeap.Mappings.MmapSlotted | io.cpp:609-685 | Mapping "rw" or "c": after the sweep a new tagged wrapper in a free slot, or nothing; a file past 2^31 - 1 bytes is refused before it is tagged, and a wrapper the engine will not make leaves the generation bumped and the slot free. |
| MapHeap.Mappings.MmapPlain | io.cpp:609-735 | Mapping "r" or anonymous memory: after the sweep a new wrapper that books nothing; an empty file gives the empty array and one past 2^31 - 1 bytes is refused; anonymous memory of no bytes is refused before the sweep. |
| ByteBuf.SpliceBytes | buf.cpp:88-98 | Moving the tail and then pasting, over any overlap, replaces exactly the cut bytes of DATA. |
| ByteBuf.TakesInOrder | buf.cpp:36-87 | What is fed comes out at the front, in order, by take or by skip, and stays behind in PAST until shift or reset drops it. |
| ByteBuf.ShedUndoesFeed | buf.cpp:71-75 | Shedding what was fed undoes the feed. |
| ByteBuf.SpliceUndoesSplice | buf.cpp:88-98 | A splice puts the new bytes in the place of the cut ones, and the splice back undoes it. |
| ByteBuf.GrowsRoom | buf.cpp:100-108 | Growing changes only the capacity, and never lowers it. |
| ByteBuf.RefusedIff | buf.cpp:36-98 | An operation throws exactly when it asks for bytes or for room there is not, and then changes nothing. |
| ByteBuf.Buf.Feed | buf.cpp:36-42 | feed appends the bytes to the queue, or throws NOROOM and changes nothing. |
| ByteBuf.Buf.Take | buf.cpp:59-64 | take returns the head of the queue and moves it to PAST, or throws BADARG and changes nothing. |
| ByteBuf.Buf.Skip | buf.cpp:65-69 | skip moves the head of the queue to PAST, or throws BADARG. |
| ByteBuf.Buf.Shed | buf.cpp:71-75 | shed drops the end of the queue, or throws BADARG. |
| ByteBuf.Buf.Shift | buf.cpp:81-87 | shift drops PAST and keeps the queue, moving it in place. |
| ByteBuf.Buf.Splice | buf.cpp:88-98 | splice replaces exactly [off, off + cut) of the queue; BADARG and NOROOM change nothing. |
| ByteBuf.Buf.Grow | buf.cpp:100-108 | grow keeps PAST and the queue under the larger capacity. |
| ByteBuf.Buf.Run | buf.cpp:18-108 | Any sequence of feed, take, skip, shed, shift, reset, splice and grow keeps 0 <= data <= idle <= cap and does to the array what it does to (past, queue, capacity). |
| WriteFifo.RoomyFits | net.cpp:281-286 | After shifting, or else growing, the feed is never refused (write never throws NOROOM), and the queue is untouched. |
| WriteFifo.PushKeeps | net.cpp:277-286 | A push appends exactly the bytes and keeps the growth bounds. |
| WriteFifo.AnyUseSized | net.cpp:281-286 | Over any use, the k-th growth leaves capacity at least 65536 * 2^k, capacity stays at most max(65536, twice the longest queue), and all growth together has copied less than the capacity. |
| SocketSpec.FallbackNeverTaken | net.cpp:267-274 | Once the peer's end of stream has been answered, the interest is never empty, so _mask's fallback to IN is never taken. |
| SocketSpec.FlushKeeps | net.cpp:255-266 | A flush loses, repeats and reorders no byte. |
| SocketSpec.ReadEndKeeps | net.cpp:254 | After the peer's end of stream the socket is ending. |
| SocketSpec.PollKeeps | net.cpp:240-251 | A poll round, whatever its readiness, results and listeners, keeps conservation, the answer to the peer's end, and the wakeups. |
| SocketSpec.RunKeeps | net.cpp:240-296 | In every run: bytes sent followed by bytes queued are the accepted writes in order; after peer EOF the socket is ending; and an open socket is registered, reads unless the peer ended, and waits for OUT whenever bytes or a FIN are pending. |
| SocketInputs.SendLoopSends | net.cpp:255-260 | A flush sends, from the front of the queue, exactly as many bytes as the kernel is ready to take before it would block, or all there are. |
| SocketInputs.StepFollows | net.cpp:240-296 | One event, in terms of what it brings: when the peer's side ends, our FIN goes out and the socket closes; which of the program's and the listeners' writes are accepted; what is sent; and what the listeners hear, in order. |
| SocketInputs.RunFollows | net.cpp:227-297 | In every run: the peer's side has ended if and only if some poll brought recv 0 or a hang-up with nothing to read; our FIN went out if and only if some poll emptied the queue of a socket that had ended by then; the socket closed if and only if it was destroyed, a poll reported an error, or a poll found both sides done; everything written while it was open and not ended was accepted, everything the kernel would take was sent, and the listeners heard exactly one 'data', 'end', 'drain' or 'error' for each poll that brought it, in order. |
| SocketInputs.ServedWaits | net.cpp:267-274 | A poll that leaves the socket open leaves it waiting to read until the peer's end, and to write exactly while bytes or a FIN are pending. |
| SocketInputs.DrainMakesRoom | net.cpp:262 | A queue that ran empty gives all its room back. |
| SocketRuns.RunTidy | net.cpp:254-296 | In every run 'end' comes at most once with no 'data' after it, close at most once, and the write side is shut only after end. The FIN goes out at most once, with the queue empty, and nothing is sent or accepted after it, if and only if no flush of the run empties the queue of an open socket whose 'drain' listener then queues something and ends or destroys it. |
| SocketRuns.FinOvertakesIff | net.cpp:261-265 | One flush: it sends the FIN over queued bytes if and only if the socket was open for writing and the 'drain' listener queued something and then ended or destroyed it. |
| SocketRuns.FinOvertakes | net.cpp:261-265 | Such a run: the FIN goes out with one byte still queued. |
| SocketRuns.OvertakenBytesStay | net.cpp:99-123 | In every run in which no _send takes a byte once the write side is shut (it fails with EPIPE), the bytes that our FIN overtook stay queued to the end of the run: nothing is sent any more. (The source throws at the next flush.) |
| SocketInputs.CalmRunCloses | net.cpp:240-275 | Without errors and destroys the socket has closed, and left pol, exactly from the moment some poll has brought the end of the peer's stream (recv 0, or a hang-up with nothing to read) and some poll has let our own FIN go. |
| SocketObject.Socket.Write | net.cpp:277-289 | write takes the bytes unless closed or ending, asks for OUT, and answers true exactly when it took them with less than 256 KiB queued. |
| SocketObject.Socket.EndWriting | net.cpp:290-295 | end marks the socket ending and asks for OUT. |
| SocketObject.Socket.Close | net.cpp:275 | _doClose closes once. |
| SocketObject.Socket.FlushQueue | net.cpp:255-266 | _flush on the write Buf does what the specification's flush does. |
| SocketObject.Socket.EndReading | net.cpp:254 | _readEnd acts once, then ends our side. |
| SocketObject.Socket.SettleInterest | net.cpp:267-274 | _mask gives the interest the state calls for, and closes when both sides are done. |
| SocketObject.Socket.Poll | net.cpp:240-251 | _poll does what the specification's poll step does, branch by branch. |
| SocketObject.Socket.RunAll | net.cpp:227-297 | Any run of the object ends in the state the specification's run ends in, so everything proved of that run holds of the object. |
| TimerWheel.StrikeSane | net.cpp:377-378 | A due entry is rescheduled or deleted, and a one-shot's id is spent. |
| TimerWheel.FireAllSane | net.cpp:373-380 | Firing a snapshot logs exactly its entries, in order, each once, whatever the callbacks do to the wheel. |
| TimerWheel.TickSane | net.cpp:373-386 | Each tick fires exactly the entries due at its start. |
| TimerWheel.RunSane | net.cpp:370-394 | In every run no timer fires before it is due and no one-shot fires twice. |
| TimerLives.SetsTimeout | net.cpp:388-389 | In any state setTimeout adds one entry behind the others, due once after its delay. |
| TimerLives.SetsInterval | net.cpp:390-391 | In any state setInterval adds one entry behind the others, due after its delay, and whose period is that delay. |
| TimerLives.TickDid | net.cpp:377-380 | A tick calls back once for each timer due at its start, and what those callbacks do is done: timers they set get ids, time they take passes. |
| TimerLives.TickFires | net.cpp:375-380 | Every timer due when a tick starts fires in it, once; an interval that no callback clears is then due one period after that firing. |
| TimerLives.TickWaits | net.cpp:376 | A timer that is not due and that nobody clears stays as it is, and does not fire. |
| TimerLives.IntervalLives | net.cpp:373-391 | In every run in which nobody clears it an interval stays in the wheel, due one period after its last firing. |
| TimerLives.IntervalRepeats | net.cpp:373-391 | And every tick at or past that time fires it again, once. |
| TimerLives.TimeoutLives | net.cpp:373-389 | In every run in which nobody clears it a timeout is in the wheel until it fires; it fires at most once, not before it is due, and is gone then. |
| TimerWake.RearmKeepsTimerIff | net.cpp:381-385 | After a tick pol still holds the wheel's timer if and only if some entry is left and the delay to the soonest, in whole milliseconds modulo 2^32, is under an hour; for a delay below 2^31 ms, if and only if it is at most 3,599,999 ms. |
| TimerWake.DelayIs | net.cpp:387 | The delay pol is asked for is a whole number of milliseconds, at least one, and otherwise less than one below what was asked. |
| TimerWake.LostForGood | net.cpp:387 | A wheel that believes itself on without pol's timer stays so, and nothing ever fires again, whatever timers are set. |
| TimerWake.HourIsLost | pol.cpp:219-224 | How a program gets there: timeouts of 1 ms and of an hour and a millisecond, and pol's tick at the very moment it was armed for, leave the second entry in a wheel that believes itself on, and no timer in pol. |
| TimerWake.RearmArmed | net.cpp:381-386 | Unless the soonest entry is an hour off, the tick's answer wakes within a millisecond of it (or of now, if it is overdue), and not before it. |
| TimerWake.QuietTick | net.cpp:373-380 | A tick whose callbacks leave the wheel alone drops the one-shots that were due, puts the intervals that were due one period off from now, in their places, and leaves the rest. |
| TimerWake.RunArmed | net.cpp:370-394 | In every run, between ticks: a non-empty wheel is on, a wheel that is on holds pol's timer, and the timer wakes within 1 ms of the earliest due time (or of the last arming, if that was overdue), if and only if no tick of the run has ended with the soonest entry an hour or more away, in whole milliseconds modulo 2^32. |
| TimerWake.ShortRunArmed | net.cpp:370-394 | So it does in every run with all delays at most 3,599,999 ms. |
| TimerWake.ClearedNeverFires | net.cpp:392-393 | After clearTimeout(id) between ticks, id never fires again, whatever follows. |
| TimerObject.Timers.TwArm | net.cpp:387 | twArm registers the tick once and never postpones the wake; the delay is cut to 32 bits. |
| TimerObject.Timers.SetTimeout | net.cpp:388-389 | setTimeout adds one entry due after the delay, with a fresh id. |
| TimerObject.Timers.SetInterval | net.cpp:390-391 | setInterval adds one entry, due after the delay (at least 1 ms), whose period is that delay. |
| TimerObject.Timers.ClearTimeout | net.cpp:392 | clearTimeout removes the entry. |
| TimerObject.Timers.RearmTimer | net.cpp:381-386 | The end of twTick, with the router's 32-bit answer, dropped when negative or an hour or more. |
| TimerObject.Timers.Tick | net.cpp:373-386 | twTick does what the specification's tick does. |
| TimerObject.Timers.RunAll | net.cpp:370-394 | Any run of the object ends in the state the specification's run ends in. |
| UstarFormat.AlignIsExact | jsrcpack.js:85 | Below 2^31 the 32-bit (s + 511) & ~511 is the rounding up to a block. |
| UstarFormat.OctalField | jsrcpack.js:17-23 | A numeric field is octal digits that read as the number, exactly width - 1 of them when the number fits. |
| UstarFormat.SplitJoins | jsrcpack.js:31-42 | The splitter refuses exactly the paths with no slash that fits both fields; otherwise the prefix has at most 155 bytes, the name 1 to 100, and they rejoin to the path. |
| UstarFormat.ChecksumFits | jsrcpack.js:55-59 | The stored checksum is six octal digits, a NUL and a space, and reads as the byte sum of the header with that field read as spaces. |
| UstarFields.HeaderStarts | jsrcpack.js:43-48 | The name, then octal numbers ended by a NUL: mode 644, uid 0, gid 0, the size, time 0. |
| UstarFields.HeaderEnds | jsrcpack.js:50-54 | Type '0' and no link, "ustar" with a NUL and version "00", no owner names and no device, the prefix, and zeros for the rest. |
| UstarFields.SplitIsFirst | jsrcpack.js:31-42 | A path is cut only if it is over 100 bytes, and then at the first slash that leaves both parts short enough. |
| UstarFields.ArchiveEnds | jsrcpack.js:77-79 | The archive is whole blocks and ends with two of zeros. |
| UstarArchive.OctalRoundTrip | require.cpp:72 | Parsing a numeric field back gives the number that was written. |
| UstarArchive.PathReads | require.cpp:69-71 | The reader's two name fields are the packed prefix and name, and rejoin to the path. |
| UstarArchive.SizeReads | require.cpp:72 | The reader's size field gives the packed size, and the type reads as a regular file. |
| UstarArchive.FileReads | require.cpp:66-84 | Wherever a packed file lies, the reader gets it, and the next header is right behind it. |
| UstarArchive.UntarUndoesArchive | require.cpp:64-84 | Unpacking the archive gives exactly the packed files, in order. |
| UstarFields.ReadsNumber | require.cpp:72 | A size field from any packer reads as its leading octal digits, white space around it and whatever follows them ignored; as 0 without digits. |
| UstarFields.ReadsSigned | require.cpp:72 | A sign in front of the digits counts. |
| UstarFields.EntryIs | require.cpp:67-83 | Any header of type '0' or NUL gives its file, cut short if the archive is, any other nothing; the next header is at the next block boundary behind the bytes. |
| UstarFields.UntarWalks | require.cpp:64-84 | The reader goes from header to header up to a block that starts with a NUL or the end, and collects what each gives. |
| UstarTools.OctalText | jsrcpack.js:19-23 | The padding loop gives the numeric field. |
| UstarTools.SplitPath | jsrcpack.js:31-42 | The search loop finds the cut of the specification, or none. |
| UstarTools.WriteHeader | jsrcpack.js:30-60 | Writing at running offsets gives the specified 512-byte header and touches nothing else; it fails exactly on a path the splitter refuses, and then writes nothing. |
| UstarTools.WriteChecksum | jsrcpack.js:55-59 | Summing the block and writing the digits turns the spaced header into the finished one. |
| UstarTools.TotalIsArchive | jsrcpack.js:77-79 | The buffer allocated up front is exactly as long as the archive. |
| UstarTools.Measure | jsrcpack.js:77-78 | Adding up the sizes in 32-bit arithmetic gives that length. |
| UstarTools.PackAll | jsrcpack.js:80-86 | Header by header and body by body the buffer becomes the archive, exactly when every file can be packed. |
| UstarTools.PackTree | jsrcpack.js:64-86 | pack fails exactly when the splitter refuses some path; otherwise its bytes are the archive and the reader gets every file back. |
| UstarTools.PackStr | require.cpp:59-63 | The field reader stops at a NUL or the field's end. |
| UstarTools.Unpack | require.cpp:66-84 | packUntar over any bytes gives the files the specified reader gives. |
| Paths.SegmentsUndoJoin | require.cpp:18 | Splitting at slashes undoes joining with them. |
| Paths.WalkLeads | require.cpp:15-26 | Segment by segment, the walk of a path ends where the path leads, from every directory. |
| Paths.NormalizeIsIdempotent | require.cpp:15-26 | Normalizing twice is normalizing once, and keeps a path absolute or relative. |
| Paths.NormalizeKeepsPlace | require.cpp:15-26 | The normal form leads to the same place as the path, from every directory. |
| Paths.NormalizeIsClean | require.cpp:19-23 | No empty and no "." segment is left, and ".." only in a run at the head of a relative path. |
| Paths.NormalizeDecidesPlace | require.cpp:15-26 | Two paths normalize alike if and only if they lead to the same place from every directory. |
| Paths.NormalizeInside | require.cpp:144 | For a non-empty base and a relative path, normalizing base/path is normalizing base/normalize(path). |
| Paths.NormalizePath | require.cpp:15-26 | The loop over one list gives the normal form. |
| Resolver.DirnameIsParent | require.cpp:27-30 | The dirname of a place's normal path is the normal path of the place above. |
| Resolver.ClimbFinds | require.cpp:121-126 | The climb finds every jsrc directory above a place, up to the ceiling, |
| Resolver.ClimbOnly | require.cpp:121-126 | and nothing else, |
| Resolver.ClimbIsOrdered | require.cpp:121-126 | the nearest first. |
| Resolver.FirstFileIsFirst | require.cpp:145-147 | The first candidate that is a file wins, and there is no other answer. |
| Resolver.BarewordOrder | require.cpp:135-137 | A bareword is looked for in each directory of the stack in turn, as it is and then with .js. |
| Resolver.IndexLiesUnder | require.cpp:144-146 | From every directory the first candidate of an explicit spec is the place the spec leads to, and the third is index.js in that place exactly when the spec leads somewhere; if it leads back to every directory it starts from, the third is index.js at the root. |
| Resolver.EmptyLeadsNowhere | require.cpp:15-26 | A path has the empty normal form if and only if it leads from every directory back to that directory. |
| Resolver.ScriptLiesBeside | require.cpp:144-146 | From every directory the second candidate is the script beside the place, with .js behind its name, if and only if the spec goes down to some name. |
| Resolver.NowhereIsRoot | require.cpp:144-146 | "./" off the relative base "." leads nowhere: its third candidate is /index.js. |
| Specs.ExplicitIff | require.cpp:47-50 | A spec is a path if and only if it is absolute or its first segment is one dot or two with a slash behind. |
| Specs.PathResolves | require.cpp:142-148 | Such a spec resolves to the first file among the place it asks for, the script beside it and its index.js, whatever the jsrc stack holds, which it leaves alone. |
| Specs.BarewordResolves | require.cpp:132-143 | Any other spec resolves to the first file among the directories of the stack in turn, as it is and then with .js; the first such search pins the stack and later ones find it pinned. |
| Specs.StackIs | require.cpp:111-131 | The pinned stack is the jsrc directories of the place the search starts from and of those above it, up to the ceiling, nearest first, with the floor last. |
| Specs.CeilingIs | require.cpp:113-125 | The climb stops at the place HOME names, or at the root. |
| Specs.MemoRemembers | require.cpp:152-164 | A pair that resolved is remembered and answered from then on without looking at any file; a failure, or a relative spec off a relative base, is not. |
| Specs.DirnameIs | require.cpp:27-30 | The directory of a path is what stands before its last slash, "/" if that is nothing, "." if there is no slash. |
| Specs.FollowOne | require.cpp:18-24 | A segment leads nowhere (nothing, a dot), up but not above the root (two dots), or down (a name). |
| Specs.FollowOn | require.cpp:15-26 | An absolute path leads to one place from everywhere; what stands after a slash is followed from where the first part leads. |
| Specs.SeenLeads | require.cpp:31-36 | What a system call sees of a path is the place it leads to from the working directory. |
| Resolver.KeyIsInjective | require.cpp:157 | The length-prefixed key tells every two (spec, baseDir) pairs apart. |
| Resolver.CandidatesAbs | require.cpp:142-146 | Unless both spec and base are relative, only absolute paths are tried, given an absolute jsrc stack. |
| Resolver.MemoIsTransparent | require.cpp:152-164 | One call: the memo answers what resolve would, stays right about every pair it remembers, and a failure is not remembered. |
| Resolver.RunIsTransparent | require.cpp:142-164 | Over any calls between any changes of the working directory, the memoized answers are the uncached ones. |
| Resolver.RelativeFloorShows | require.cpp:93-98 | With the script floor under a relative XDG_CACHE_HOME a remembered bareword outlives a chdir that unresolves it. |
| Resolver.TransparentIff | require.cpp:128-164 | The memo is transparent on every file system and every run if and only if the floor, if there is one, is absolute. |
| RequireObject.Requirer.ClimbUp | require.cpp:116-126 | The loop from the start directory upward gives the specified climb. |
| RequireObject.Requirer.PinJsrcStack | require.cpp:115-132 | Pinning gives the climb with the floor last, once. |
| RequireObject.Requirer.ResolveJsrc | require.cpp:133-141 | A bareword pins the stack if need be and takes the first candidate that is a file, directory by directory. |
| RequireObject.Requirer.Resolve | require.cpp:142-148 | An explicit spec tries the path, .js and /index.js. |
| RequireObject.Requirer.ResolveMemo | require.cpp:152-164 | The memo in front of it, as specified. |
| Loader.Load | require.cpp:171-186 | load ends on every finite module graph, cyclic or not, and keeps every cache entry it finds. |
| Loader.Run | require.cpp:180-184 | So does a body, whatever it requires and wherever it throws. |
| Loader.RunInTurn | require.cpp:180-184 | A body runs statement after statement, each on the state the last one left, and stops at the first throw. |
| Loader.RunOne | require.cpp:180-184 | One statement by itself: a throw throws and changes nothing, a chdir moves, a require hands out the record it loaded or throws, a caught one goes on. |
| Loader.RunFailsIff | require.cpp:180-184 | A body throws if and only if some statement of it does (a throw, or an uncaught require that cannot be loaded), all before it having run. |
| Loader.ThrowThrows | require.cpp:184 | A body with a throw in it throws: there, or before. |
| Loader.ThrowStops | require.cpp:184 | Nothing behind a throw runs. |
| Loader.ThrowingLoad | require.cpp:180-184 | An uncached module with a throw in it cannot be loaded: the require throws, its record ends failed, and its path is left uncached. |
| Loader.LoadFailsIff | require.cpp:171-186 | A load throws if and only if the spec does not resolve, or the module is not cached and cannot be read or throws; a cached module is handed out without running anything. |
| Loader.LoadTracks | require.cpp:171-186 | Every load writes a log in which a body begins only for an uncached path, only the cached record of a path ends, once, and every require sees the cached record; it ends only records it made, and all of those. |
| Loader.DoneStays | require.cpp:176-184 | A module that completed stays in the cache, though a module that required it throws. |
| Loader.FailedGoes | require.cpp:177-184 | A record whose body threw is never in the cache again. |
| Loader.IdleCache | require.cpp:171-186 | Between loads the cache holds exactly the modules that completed. |
| Loader.RunsBalance | require.cpp:171-186 | A body has run once for every time it threw, and once more if it is cached. |
| Loader.CalmRunsOnce | require.cpp:173-176 | With no throws each body runs at most once. |
| Loader.SameRecord | require.cpp:175-176 | From the moment a body begins until it throws, every require of that path, from inside its own cycle or later, returns the one record. |
| Loader.ThrowEvicts | require.cpp:184 | A load that throws leaves its own module uncached. |
| Loader.ThrowTravels | require.cpp:180-184 | A module that lets a required module's throw through throws too and is evicted; one that catches it goes on from there. |
| Loader.ProgramKeepsCache | require.cpp:171-186 | A whole program, started idle, ends idle, keeps every record it found, and leaves exactly the completed modules cached. |
| RequireObject.Requirer.Load | require.cpp:171-186 | The method, filling and emptying the cache in place, does what the specified load does. |
| RequireObject.Requirer.RunProgram | require.cpp:171-186 | Any program run by the object leaves the cache with exactly the completed modules, and each body has run as often as it threw, and once more if cached. |
| Utf.DrainFed | utf8.cpp:80 | Draining the bytes of a code point gives it back with its length, whatever follows. |
| Utf.DrainedIsFed | utf8.cpp:80 | Nothing but the shortest form of a scalar drains. |
| Utf.HeadUnits | utf8.cpp:28-36 | The code point read off a string, written back, is the string's own units, an unpaired half becoming U+FFFD. |
| Utf.UnitsOfPoints | utf8.cpp:27-38 | The code points of any string, written back, are the string with each unpaired surrogate replaced by U+FFFD. |
| Utf.DecodeUndoesEncode | utf8.cpp:13-60 | Decoding what was encoded gives the string back with each unpaired surrogate replaced by U+FFFD. |
| Utf.LosslessIff | utf8.cpp:29-36 | A string survives the round trip if and only if it has no unpaired surrogate. |
| Utf.EncodeUndoesDecode | utf8.cpp:52-97 | Encoding what was decoded gives the bytes back if and only if they are valid UTF-8. |
| Utf.Utf8Is | utf8.cpp:37 | The byte forms are those of RFC 3629: length, lead byte, tails, and the bits spread over them, highest first. |
| Utf.Utf16Is | utf8.cpp:84-90 | A code point is one unit up to U+FFFF, above it the surrogate pair of RFC 2781. |
| Utf.StrOfIs | utf8.cpp:77-91 | Any bytes decode to the code point whose form they begin with, or, if to none, to U+FFFD for one byte; and then the rest. |
| Utf.ThreePerUnit | buf.cpp:130 | Three bytes a unit are always enough. |
| Utf.FittingFits | utf8.cpp:37 | What is written fits the buffer, and the next code point would not. |
| Utf.EncodeInto | utf8.cpp:25-41 | encodeInto writes exactly the bytes of the longest run of whole code points the buffer holds, and nothing behind them. |
| Utf.Encode | buf.cpp:129-132 | utf8.Encode never truncates. |
| Utf.StrOf | utf8.cpp:66-91 | Any bytes, valid or not, make at most one unit a byte. |
| Utf.StrOfSlice | utf8.cpp:66-97 | The loop ends on any bytes, stays inside its scratch array, and gives that string. |
| Utf.Decode | utf8.cpp:52-61 | utf8.Decode refuses exactly invalid UTF-8, and what it returns encodes to the bytes it was given. |
| UlogScan.PrevRow | ulog.hpp:58-64 | PrevRow finds the last line start before the offset, none exactly at offset 0. |
| UlogScan.Scan | ulog.hpp:162-206 | The two scan loops, over any bytes, compute the specified searches. |
| UlogScan.ForwardFinds | ulog.hpp:165-184 | Forward from a row's start finds the first matching row from there on. |
| UlogScan.BackwardFinds | ulog.hpp:185-204 | Backward from any offset inside a row, or at its end, finds the last matching row up to that one. |
| UlogScan.VerbFinds | ulog.hpp:162-206 | The verb search finds the next, or the last, row of just that verb. |
| UlogScan.UriFinds | ulog.hpp:162-206 | The URI search finds the next, or the last, row whose URI starts with the prefix, a URI over 2048 bytes reading as empty. |
| UlogScan.BadRowPassed | ulog.hpp:165-204 | Bytes that are no row are passed over; where the reader gets nowhere with them the forward search gives up and the backward one goes on. |
| UlogScan.ForwardsFind | ulog.hpp:165-184 | Seeking forward again from each row's end lists every match. |
| UlogScan.BackwardsReverseForwards | ulog.hpp:162-206 | Reverse seeks from the end, each stepping on from the row found or from one byte before it, list exactly the reverse of the forward seeks. |
| UlogScan.SeekTimeIsLowerBound | ulog.hpp:174 | Over ascending stamps the forward time search finds the lower bound: everything before it is earlier, everything from it on is not. |
| UlogScan.SeekTimeRevMeets | ulog.hpp:194 | The backward time search finds the row just before that bound, or the row of that very time. |
| UlogScan.Log.Feed | cont.cpp:280-287 | feed bumps the stamp past the last one and appends the row, or leaves the rows alone when the URI is malformed or there is no room; stamps stay strictly ascending. |
| UlogScan.Log.SeekTime | cont.cpp:306-313 | On a log that was only fed, seekTime is a true lower bound. |
| UlogCodec.SomeCodecIsFaithful | ulog.hpp:4-6 | There is a codec that reads what it wrote and accepts URIs, so the statements about logs hold of logs with rows. |

## Left out

Within what is modelled:

- IndexHandle.Handle.Get: the wh128 lane with several values under one key is left out, because the answer then depends on how the runs are laid out; a wh128 row is otherwise an instance with the (key, value) pair as its rank.
- IndexHandle.Handle.Next: the rows of a run never change or go away, so a cursor that outlives a dropped or merged run is not modelled. After a put a query may sort the page under the cursor; from then on only the least head is promised.
- IndexHandle.Handle.MergeYoungest: which suffix the 1/8 ladder picks is not modelled, because the ladder is not in the repository; every suffix is allowed.
- IndexHandle.Handle.Put: a full page collapses and, if still full, is sealed; the page policy itself is not in the repository, so when a put is refused for too many runs is the model's own condition: it lets 64 runs stand under a memtable, where the repository's dictionary has 64 cells and the memtable's entry is one of them. Keys and values are unbounded numbers.
- IndexHandle.Handle.Commit: the condition of its refusal is the model's own for the same reason.
- IndexHandle.Handle.Seal: the condition of its refusal is the model's own for the same reason.
- MapHeap.Mappings.CloseView: the flush and the trim of the file before the release are left out; so are `_munmap` called directly on an attached view and an engine that runs the deallocator of a wrapper it failed to make.
- MapHeap.Mappings.MmapSlotted: a slot's generation counter is taken to stay below 2^64.
- ByteBuf.Buf.Grow: the growth hook of a mapped buffer is left out.
- ByteBuf.Buf.Run: `feed1`, `pop`, `fed`, `feedStr` and `msync` are left out; sources are values, so none aliases the buffer, and cursors are unbounded rather than cut to 32 bits.
- SocketSpec.RunKeeps: exceptions out of `_send`, `_recv` or a listener are left out, a listener is a finite list of writes, ends and destroys, and what 'data' carries is not modelled; nor is a closed fd number reused by another socket before pol drops it.
- TimerWake.RunArmed: callbacks that throw in the middle of a tick are left out; times are reals, the clock moves only by explicit waits, a delay that `sooner` gets as zero or less is read as due at once, and the wheel is the only owner of pol's timer.
- UstarTools.PackTree: totals are below 2^31 and paths ASCII, relative and without a NUL; walking the tree, the preamble, the hash and deflate are left out.
- UstarTools.Unpack: a size below zero, or too large for the 32-bit rounding, ends the model's reader with no result, where the source would step backwards; white space beyond ASCII is not trimmed; the files are a list rather than writes to a disk.
- Resolver.RunIsTransparent: a file system is a predicate on path strings, the working directory is always absolute, and the unpacked floor is an input.
- Loader.Load: a body is a finite list of requires (caught or not), throws and changes of directory; reassigning `module.exports` and editing `require.cache` are left out, and a module record is its number. The cache is a plain object in the source, so a relative path that is a name of its prototype (`valueOf`, say) would find that instead; the model's cache holds only modules.
- Utf.StrOfSlice: running out of memory is left out.
- UlogScan.Scan: an offset past the watermark is left out; the 2 KiB limit on a searched prefix is left out, the 2 KiB limit on a row's URI is modelled.
- UlogScan.Log.Feed: the clock is an argument, stamps are unbounded, and the log is fed by one object from empty; one reopened over old rows starts with no last stamp.

Not modelled:

- `drop`, run files and directories, and the table of open handles of `pup.hpp`: bookkeeping, or in code the repository does not contain.
- `cfold.hpp`, `weave.hpp`, `hunk.hpp`, `pack.hpp`, `zip.cpp`, `hash.hpp`, `heap.hpp`, `hit.hpp`, `uri.cpp`, `codec.cpp`, `tok.hpp`: they pass arguments to algorithms the repository does not contain.
- `arg.cpp`, `igno.hpp`, `console.cpp`, `ansi.cpp`, `tty.cpp`, `fsw.cpp`, `main.cpp`: glue.
- `Server`, `Dgram` and `connect` of `net.cpp`, and the fd table of `pol.cpp` beyond one socket's interest: only easy members.
- Unpacking the embedded scripts into the cache directory and renaming it into place: system calls.
