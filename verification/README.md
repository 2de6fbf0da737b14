# A verified model of the lock-free audio hot path

The repository carries 20 ms audio frames of many concurrent calls through a
lock-free ring to one hot thread, which finds each call's session, gates its
speech, cuts it into chunks, and hands the closed chunks to a publisher. These
modules model that path and prove what it promises.

Objects that change in place (gate, pre-roll, assembler, session table,
histogram, ring, socket buffer) are classes and array methods, each proved equal
to a function on values; the results about whole runs are lemmas about those
functions.

| modules | what they model |
|---|---|
| `Words`, `Windows`, `Products`, `Audio` | machine words, circular arrays, products, frames and events |
| `Gate`, `Loudness`, `HangoverKnob` | the speech gate, the rules its counters implement, which samples are loud, two gates compared |
| `Chunker`, `Slices`, `Coverage`, `HangoverChunks` | the chunk assembler, what its chunks are slices of, which frames are in one, chunks and the hangover |
| `SessionIndex`, `SessionView`, `Sessions`, `SessionRuns` | the probe array, the bounded map, the table object, runs of calls |
| `HotLoop`, `HotPath`, `LoopRuns`, `Demux`, `CallChunks`, `Reuse`, `Isolation`, `Stamps`, `Loss`, `Lifetimes`, `RingLoss` | the hot loop as a function, as a loop and as a caller of the table; non-interference, a call's chunks, used storage, when calls expire, gap accounting by call, by lifetime and through the ring |
| `SpscRings`, `RingProtocol`, `RingCalls`, `RingWords`, `Shutdown` | the ring call by call, the two-thread protocol, what its calls answer, the same on wrapping words, the exit handshake |
| `HistogramLayout`, `Samples`, `Histograms`, `MergeLayouts` | bucket arithmetic, exact order statistics, the histogram, when merging is sound |
| `Wire`, `Pump` | the stream format and the incremental parser |
| `Codec`, `Energy` | mu-law both ways, and the integer energy accumulators |

Findings about the code as it stands, each a lemma below:

- A reused session keeps the assembler of the call before it, and what that call
  left can show in three ways. A gate left speaking gives the next call no chunk for
  its first spell of speech (`Reuse.NewCallIsHeardExactlyWhen`,
  `Reuse.ReuseSilencesACall`); a window partly filled, or a cooldown, moves its
  onset; and frames left in the pre-roll become the head of its first chunk
  (`Isolation.FirstChunkIs`, `Isolation.ReuseMixesCalls`), while chunk numbers go on
  from where they were. `Isolation.AsGoodAsNewExactlyWhen` is the exact condition
  under which nothing shows, whatever frames a call brings at whatever times. Isolation is otherwise
  proved for a live call from whatever state it started in
  (`Demux.LiveCallIsAlone`), and from a fresh assembler while no session has expired
  (`Demux.Demultiplexed`).
- `flush` closes the chunk and leaves the gate speaking. Frames of the rest of that
  spell go to the pre-roll, and are in no chunk unless an onset follows soon enough
  to reach back to them (`Coverage.SpeechIsLostExactlyWhen`). The next onset is at
  least a hangover and a window after the spell's last loud frame. So with a hangover
  no shorter than the pre-roll, as in the defaults, every further loud frame of the
  spell is lost for good (`Coverage.LoudFramesAfterFlushAreLost`). The quiet frames
  that close the spell are lost too as long as the hangover and the window outreach
  the pre-roll from where they stand (`Coverage.FlushLosesSpeech`); later ones can
  still become the head of the next chunk (`Coverage.ClosingQuietIsKept`).
- The comment at `include/vhp/vad.hpp:147` says the next chunk starts on the same
  frame after a full-length cut. It starts on the following frame, and a flush
  before that frame yields an event of no frames (`Coverage.FlushAfterCutIsEmpty`).
- `merge` takes equal sizes for equal layouts. They are not
  (`MergeLayouts.SameSizeDifferentLayout`); equal magnitudes are exactly what it
  takes (`MergeLayouts.MergeIsRightIffSameLayout`).
- Mu-law code 0x7F, negative zero, is the only one that does not survive decoding
  and encoding (`Codec.CodeRoundTrip`).

Clock readings, read sizes, queue-full outcomes and the loudness of a frame are
inputs, and every result holds for all of them.

## Model

| member | source | states |
|---|---|---|
| Gate.SpeechThresholdGate.Accept | include/vhp/vad.hpp:48-74 | the mutating call computes the gate step for the frame's loudness: new counters and onset flag; what is loud is in `Loudness`, what the steps add up to in the rules below |
| Gate.SpeechThresholdGate.Reset | include/vhp/vad.hpp:80-86 | reset returns to the idle state |
| Gate.SpokenAfterLoud | include/vhp/vad.hpp:61-65 | a loud frame keeps every spell of speech alive and starts one exactly by filling a window |
| Gate.SpokenAfterQuiet | include/vhp/vad.hpp:53-58 | a quiet frame ends a spell exactly when it completes the hangover |
| Gate.SpeakingRule | include/vhp/vad.hpp:48-74 | after every frame of every run: speaking iff some window of speech_frames loud frames is followed by no silence_frames consecutive quiet ones |
| Gate.EndpointRule | include/vhp/vad.hpp:53-58 | speech ends on the silence_frames-th quiet frame after a loud one, and only there |
| Gate.TriggerIsLastOnset | include/vhp/vad.hpp:66-70 | the gate remembers the time of its last onset, and whether there was one |
| Gate.OnsetsAreSpaced | include/vhp/vad.hpp:37-38 | with a clock that does not go back, any two onsets are at least cooldown_ms apart |
| Gate.GateRule | include/vhp/vad.hpp:48-74 | any gate with a hangover, cooldown included: onset iff the window fills while not speaking and the last onset's cooldown is over; speaking goes on iff the hangover has not filled |
| Gate.NoHangoverRule | include/vhp/vad.hpp:61-73 | a gate without a hangover never speaks, and declares onset each time a window of loud frames has come since the last one and the cooldown is over |
| Coverage.OnsetsAreSpacedInTime | include/vhp/vad.hpp:120 | the cooldown in nanoseconds of the frames' own times |
| Loudness.LoudExactlyWhen | include/vhp/vad.hpp:49-51 | a frame is loud iff some sample reaches the peak threshold of full scale 32768, or the mean square of its samples the square of the RMS threshold, each arm only if set |
| Loudness.SilenceEmitsNothing | include/vhp/vad.hpp:118-153 | with positive thresholds, a run of frames of zero samples opens no chunk and emits nothing |
| Loudness.SpeechIsHeard | include/vhp/vad.hpp:118-153 | without cooldown and flushes, the last of speech_frames consecutive frames whose samples reach a threshold is in a chunk, whatever came before |
| HangoverKnob.OnsetRule | include/vhp/vad.hpp:61-73 | onset is declared iff the window fills while not speaking, iff speaking starts |
| HangoverKnob.LongerHoldSpeaksMore | include/vhp/vad.hpp:34-36 | two runs over one input: wherever the shorter hangover speaks so does the longer, and every onset of the longer is one of the shorter |
| HangoverKnob.OnsetsMatchEndpoints | include/vhp/vad.hpp:48-74 | at any point, onsets = endpoints, plus one while speaking |
| HangoverKnob.LongerHoldCutsLess | include/vhp/vad.hpp:34-36 | the number of endpoints never rises as the hangover grows |
| HangoverChunks.OneChunkPerEndpoint | include/vhp/vad.hpp:134-144 | with only hangovers closing chunks, a chunk is open iff the gate speaks, and exactly one comes out per endpoint |
| HangoverChunks.LongerHoldFewerChunks | include/vhp/vad.hpp:118-153 | under the same conditions a longer hangover never yields more chunks |
| Chunker.OverwriteOldest | include/vhp/vad.hpp:173-177 | overwriting slot head mod cap leaves exactly the latest cap frames |
| Chunker.PreRoll.Push | include/vhp/vad.hpp:173-177 | the circular buffer holds the last cap frames pushed |
| Chunker.PreRoll.At | include/vhp/vad.hpp:181-184 | indexing reads the retained frames oldest first |
| Chunker.ChunkAssembler.OnFrame | include/vhp/vad.hpp:118-153 | the mutating call computes the chunk step: new state, event, and the audio left in the buffer |
| Chunker.ChunkAssembler.Flush | include/vhp/vad.hpp:156-159 | flush closes what is open and leaves the gate alone |
| Chunker.ChunkAssembler.DoOpenChunk | include/vhp/vad.hpp:193-203 | a blank open chunk: counters, gap count and buffer cleared |
| Chunker.ChunkAssembler.FlushPreRoll | include/vhp/vad.hpp:205-210 | the loop appends the retained frames in order, then forgets them |
| Chunker.ChunkAssembler.DoAppend | include/vhp/vad.hpp:212-225 | one frame appended; audio kept only while it fits the cap |
| Chunker.ChunkAssembler.DoCloseChunk | include/vhp/vad.hpp:231-246 | the event carries the chunk's fields; the chunk id advances, the audio stays readable |
| Slices.AppendAllHolds | include/vhp/vad.hpp:205-225 | appending a run of frames gives their count, first and last seq, first stamp and format, and the bytes of each frame that still fits after those kept before it |
| Slices.AllIsKeptExactlyWhen | include/vhp/vad.hpp:214-216 | a slice's audio is kept whole iff it fits max_chunk_bytes |
| Slices.SmallerFrameFollowsSkipped | include/vhp/vad.hpp:214-216 | past the cap audio is not simply cut: a smaller frame is kept after a larger one was skipped |
| Slices.EveryRunTracked | include/vhp/vad.hpp:118-246 | after every tick of every run, each chunk that came out describes its slice of the input, and the open chunk and pre-roll are what the run so far says |
| Slices.ChunksAreDisjointSlices | include/vhp/vad.hpp:118-246 | chunks never overlap, come out in order, with increasing ids |
| Slices.ChunkIsItsSlice | include/vhp/vad.hpp:193-246 | first and last seq, first stamp, format, closing time and bytes of every event are those of its slice of the input, the bytes being those of the frames that fit; an event of no frames has zero seqs and its start for a stamp |
| Slices.ChunkBeginsAtItsOnset | include/vhp/vad.hpp:129-151 | an onset chunk starts min(pre_roll_frames, frames since the previous slice) before the onset frame, one after a full-length cut exactly where that ended; start time and dropped count follow; empty iff flushed right after such a cut |
| Coverage.SpeechIsKept | include/vhp/vad.hpp:127-152 | without flushes, every frame from onset to endpoint is in a chunk that came out or in the open one, at every later point of the run |
| Coverage.KeptExactlyWhen | include/vhp/vad.hpp:118-159 | at every point of every run, flushes included: a frame is in a chunk iff one was open when it came, it was itself the onset, or a later onset follows within pre_roll_frames |
| Coverage.SpeechIsLostExactlyWhen | include/vhp/vad.hpp:118-159 | a frame of speech is in no chunk iff it came with the gate speaking and no chunk open, and no onset follows within pre_roll_frames |
| Coverage.NextOnsetIsFar | include/vhp/vad.hpp:53-73 | after a loud frame that leaves the gate speaking, the next onset is at least silence_frames + speech_frames later |
| Coverage.FlushLosesSpeech | include/vhp/vad.hpp:127-159 | in a spell cut by a flush, a frame at distance d after a loud one is in no chunk of the run, however it goes on, if pre_roll_frames + d < silence_frames + speech_frames |
| Coverage.LoudFramesAfterFlushAreLost | include/vhp/vad.hpp:127-159 | with a hangover no shorter than the pre-roll, every loud frame from the flush to the end of the spell is in no chunk of the run |
| Coverage.ClosingQuietIsKept | include/vhp/vad.hpp:127-159 | a run of four frames in which a closing quiet frame of such a spell enters the next chunk |
| Coverage.TwoLoudFramesAndAFlush | include/vhp/vad.hpp:156-159 | the smallest such run: two loud frames with a flush between them |
| Coverage.FlushAfterCutIsEmpty | include/vhp/vad.hpp:145-159 | two loud frames reaching max_chunk_ms and then a flush: a full-length chunk of two frames, and an event of none |
| Coverage.OpenChunkIsYoung | include/vhp/vad.hpp:145-151 | after every frame the open chunk is less than max_chunk_ms * 10^6 ns old, unless it opened just then |
| Coverage.CutChunkIsOld | include/vhp/vad.hpp:145-151 | every chunk cut for length had reached max_chunk_ms * 10^6 ns |
| SessionIndex.MetBeforeEmpty | include/vhp/session.hpp:84-100 | a live id's entry comes before any empty slot of its probe chain |
| SessionIndex.SearchMeetsEmpty | include/vhp/session.hpp:84-103 | every probe chain meets an empty slot, so the all-slots-probed fallback is never needed |
| SessionIndex.Insert | include/vhp/session.hpp:109-112 | writing over the first tombstone or the empty slot keeps every live id findable, every entry live and entered once |
| SessionIndex.Delete | include/vhp/session.hpp:185-196 | overwriting an entry with a tombstone keeps every other id findable |
| SessionIndex.TakeFree | include/vhp/session.hpp:109-111 | free list and live sessions still partition the storage after an open |
| SessionIndex.GiveFree | include/vhp/session.hpp:197-199 | and after a release |
| SessionView.AcquireCoherent | include/vhp/session.hpp:79-126 | acquire keeps directory, free list and sessions consistent |
| SessionView.SweepCoherent | include/vhp/session.hpp:133-158 | so does every prefix of a sweep |
| Sessions.SessionTable.constructor | include/vhp/session.hpp:50-62 | an empty table: power-of-two slots, at least two per session, low sessions first; any hash |
| Sessions.SessionTable.NextPow2 | include/vhp/session.hpp:171-175 | the least power of two not below its argument |
| Sessions.SessionTable.BuildFreeList | include/vhp/session.hpp:59-61 | the free list counts down, so low sessions are popped first |
| Sessions.SessionTable.Search | include/vhp/session.hpp:80-103 | the probing loop finds a live id's session, or the slot to insert it at |
| Sessions.SessionTable.Acquire | include/vhp/session.hpp:79-126 | the mutating call is the bounded map's acquire and keeps the invariant, tombstones at most a quarter included |
| Sessions.SessionTable.FindEntry | include/vhp/session.hpp:186-196 | the release loop always finds the entry: its defensive break is never taken |
| Sessions.SessionTable.Release | include/vhp/session.hpp:185-200 | removes one call from the directory, returns its session, adds one tombstone |
| Sessions.SessionTable.QuarterEmpty | include/vhp/session.hpp:205-206 | at least a quarter of the slots is empty whenever tombstones are at most a quarter |
| Sessions.SessionTable.ExpireIdle | include/vhp/session.hpp:133-144 | the loop is the view's sweep of the idle sessions, with its events, and keeps the invariant |
| Sessions.SessionTable.FlushAll | include/vhp/session.hpp:147-158 | the loop is the sweep of every live session |
| Sessions.SessionTable.MaybeRebuild | include/vhp/session.hpp:205-215 | restores tombstones to at most a quarter without changing what the table shows |
| Sessions.SessionTable.Reinsert | include/vhp/session.hpp:211-213 | the unbounded probe loop ends, and adds one live session to the rebuilt array |
| SessionRuns.EveryRunCoherent | include/vhp/session.hpp:79-215 | every sequence of acquire, expire_idle, flush_all and arbitrary use of the sessions by the caller leaves the table consistent |
| SessionRuns.EveryRunEnds | include/vhp/session.hpp:79-215 | and every such sequence can be run |
| LoopRuns.LoopTableIsReached | src/vhp_consumer.cpp:297-374 | every table the hot loop brings about is one of those runs |
| LoopRuns.FlushEmitsTheOpenChunk | include/vhp/session.hpp:147-158 | in the run that feeds one loud frame to one call, the sweep emits exactly that call's one-frame chunk |
| SessionRuns.AcquireIsBoundedMap | include/vhp/session.hpp:64-126 | after any such run: a live id resolves to its one session and opens nothing; refused iff not live and max_sessions ids are; otherwise the id becomes live |
| SessionRuns.AcquireSparesOthers | include/vhp/session.hpp:68-126 | after any such run: no two live ids share a session, and no other call's session changes |
| Stamps.StampIsLastOwnFrame | include/vhp/session.hpp:95-118 | over any run of the loop, a live session's last_frame_ns is when the last of its call's own frames was dequeued |
| Stamps.ClosedExactlyWhenIdle | include/vhp/session.hpp:133-144 | after any run, the next turn closes a live call iff a sweep is due and the call's last own frame is at least the idle limit old, on the wrapping difference |
| Stamps.NextSweepIsDue | src/vhp_consumer.cpp:285-310 | a sweep is due at the first sweep time until a turn reaches it, and then 250 ms after the last turn that swept |
| Stamps.FinishClosesAll | src/vhp_consumer.cpp:377 | after the closing flush no call is live |
| Stamps.PeakIsMostLive | include/vhp/session.hpp:124 | after any run of calls, peak_live is the most sessions that were ever live at once |
| Stamps.HandleLoudStamp | src/vhp_consumer.cpp:359-362 | last_loud_produce_ns is the produce stamp of the call's last loud frame that left the gate speaking |
| Demux.FirstFrame | include/vhp/session.hpp:109-125 | a new call's first frame goes to the assembler found on the storage it is given |
| Reuse.LoopSettles | src/vhp_consumer.cpp:297-375 | in every state the loop reaches, under any gate: an open chunk means a speaking gate, a resting gate with no cooldown has an unfilled window, the pre-roll is within its length, and storage that is not in use has no chunk open |
| Reuse.SweepLeavesGateSpeaking | include/vhp/session.hpp:133-158 | closing a session with a chunk open leaves its gate speaking |
| Reuse.FirstSpellIsHeardExactlyWhen | include/vhp/vad.hpp:127-144 | an assembler left by another call with no cooldown holding its gate back gives the first spell of speech a chunk iff the gate was not left speaking |
| Reuse.NewCallIsHeardExactlyWhen | src/vhp_consumer.cpp:327-374 | in any run: a call opening on used storage with no cooldown holding the gate back gets a chunk for its first spell iff that storage's gate was not left speaking |
| Reuse.ReuseSilencesACall | src/vhp_consumer.cpp:297-377 | a run of two turns, one session and two calls in which the second call's loud frame yields no event at all, though a fresh assembler would open a chunk |
| Isolation.AsGoodAsNewExactlyWhen | include/vhp/session.hpp:114-121 | used storage emits, for every sequence of frames at any times and a closing flush, what fresh storage would iff its gate rests with no loud frame counted and no cooldown, no chunk has come out, and the pre-roll is empty or shorter than the window |
| Isolation.FirstChunkIs | include/vhp/vad.hpp:129-138 | the first chunk on used storage begins with the old call's last min(pre-roll left, pre_roll_frames - own frames before onset) frames, then holds the new call's own |
| Isolation.OpenedAsNewIsAlone | src/vhp_consumer.cpp:327-374 | in any run, expiries and refusals included: a call opening on storage that meets the condition emits what a fresh assembler fed its frames alone would |
| Isolation.ReuseMixesCalls | src/vhp_consumer.cpp:297-377 | a run of two turns in which the one event of the second call covers two frames, the first of them the other call's |
| SessionRuns.SweepIsExact | include/vhp/session.hpp:133-158 | after any such run, a sweep closes exactly the sessions due, emits exactly their open chunks in session order, and leaves the rest as they were |
| HotPath.Feed | src/vhp_consumer.cpp:335-374 | one frame into its session: gap, event and every field of the session |
| HotPath.TakeTurn | src/vhp_consumer.cpp:307-374 | one turn of the loop on the real table is one step of the model, counters and events included |
| HotPath.Loop | src/vhp_consumer.cpp:297-377 | the whole loop with its closing flush computes the modelled run |
| HotLoop.OneTurnCoherent | src/vhp_consumer.cpp:297-374 | every turn keeps the table consistent and its size |
| Demux.OthersFrame | src/vhp_consumer.cpp:327-374 | another call's frame changes nothing of this call and adds no event of it |
| Demux.SweepSpares | src/vhp_consumer.cpp:307-310 | a sweep that does not close a call neither touches it nor emits for it |
| Demux.TurnOfLiveCall | src/vhp_consumer.cpp:307-374 | one turn as a live call sees it: its assembler hears its own frame or nothing |
| Demux.LiveCallIsAlone | src/vhp_consumer.cpp:297-375 | over any interleaving, refusals and expiries of others included, a live call not itself expired emits what its assembler alone would |
| Demux.RefusedForGood | src/vhp_consumer.cpp:327-333 | with no expiry, a call refused once is never admitted and emits nothing |
| Demux.Demultiplexed | src/vhp_consumer.cpp:285-377 | from a fresh table, with no expiry, to the closing flush: a call's events are those of its own fresh assembler fed only its frames, or none if it was never admitted |
| CallChunks.CallsChunksAreOneRun | src/vhp_consumer.cpp:285-377 | those events are the chunks of one assembler run over the call's own frames, so all that is proved of such runs holds of them |
| CallChunks.EventDescribesOwnFrames | src/vhp_consumer.cpp:367-374 | each event of a call describes a contiguous slice of that call's frames, beginning no earlier than the event before it ended |
| Loss.LiveCallCounts | src/vhp_consumer.cpp:348-353 | while a call lives, whatever befalls the others: its session counts its frames, and the gaps counted on its turns are those of its own seqs |
| Loss.LifetimeTelescopes | src/vhp_consumer.cpp:348-353 | a lifetime, from the frame that opens the session, among any refusals and expiries of others: for increasing seqs, session frames + gaps counted on the call's turns = last - first + 1 |
| Loss.LifetimeGapsAreShed | src/vhp_producer.cpp:311-312 | and those gaps are the call's frames shed by the producer strictly between the first and last that came through, from whatever number the producer had come to when the lifetime began |
| Loss.GapsAreShed | src/vhp_producer.cpp:311-312 | one call's gaps are its frames shed between the first and last delivered |
| Loss.RunCountsGaps | src/vhp_consumer.cpp:348-353 | with no expiry, whatever is interleaved or refused: seq_gaps is the sum of each admitted call's own gaps, and every frame popped was fed or counted as refused |
| Loss.GapsCountShedFrames | src/vhp_consumer.cpp:348-353 | producer to metric, with no expiry: seq_gaps is the number of frames of admitted calls shed strictly inside a call, and frames + frames_refused the number accepted |
| RingLoss.RingToMetric | src/vhp_consumer.cpp:311-365 | the same through the ring, under every interleaving and stale load and with frames still waiting in it: seq_gaps counts the pushes refused inside what was popped of each admitted call, and every attempt was fed, refused by the table, waits, or was dropped |
| Lifetimes.GapsOfLives | src/vhp_consumer.cpp:348-353 | the gaps counted on a call's turns are those of its lifetimes, each begun by the frame that opens a session and ended by the sweep that closes it |
| Lifetimes.GapsAreSumOverLifetimes | src/vhp_consumer.cpp:348-353 | a whole run from a fresh table, whatever is refused and whatever expires: seq_gaps is the sum over all calls and all their lifetimes |
| Lifetimes.PoppedAreFedOrRefused | src/vhp_consumer.cpp:327-365 | in any run, frames + frames_refused = frames popped |
| Lifetimes.LoopStopsAtDeadline | src/vhp_consumer.cpp:306 | with a clock that does not go back, the loop handles exactly the frames popped on turns read at or before the deadline |
| Loss.GapIsNumbersBetween | src/vhp_consumer.cpp:348-350 | a gap is how many numbers were passed over: none for a number that repeats or comes late |
| SpscRings.Low64Difference | include/vhp/spsc_ring.hpp:54-57 | the wrapping 64-bit difference and equality of indices are those of unbounded counters |
| SpscRings.MaskFindsSlot | include/vhp/spsc_ring.hpp:61 | masking the wrapped index finds the unbounded counter's slot |
| SpscRings.SpscRing.TryPush | include/vhp/spsc_ring.hpp:53-64 | full iff Capacity items are held, otherwise the item goes to the back, whatever the cached tail |
| SpscRings.SpscRing.TryPop | include/vhp/spsc_ring.hpp:67-78 | false iff empty, otherwise the front item |
| SpscRings.SpscRing.Size | include/vhp/spsc_ring.hpp:81-84 | size is the number of items held |
| RingProtocol.ReplayConserves | include/vhp/spsc_ring.hpp:53-78 | a history a FIFO allows: pushed = popped then held, in order |
| RingProtocol.ReadFindsItsWrite | include/vhp/spsc_ring.hpp:75 | any value the slot read is free to return is the write it is meant to see |
| RingProtocol.InvStep | include/vhp/spsc_ring.hpp:53-78 | every load, slot access and store of either thread keeps the protocol's invariant |
| RingProtocol.NoRunRaces | include/vhp/spsc_ring.hpp:15-18 | with stale acquire loads, no run has either side about to touch a slot the other has not released |
| RingProtocol.NoRunReorders | include/vhp/spsc_ring.hpp:53-78 | with stale loads, the successful calls are those of a FIFO of Capacity items |
| RingProtocol.AtomicRunsLinearize | include/vhp/spsc_ring.hpp:53-78 | with atomic loads the refusals are too: full means Capacity items at the load, empty means none |
| RingCalls.EveryCallAnswers | include/vhp/spsc_ring.hpp:53-78 | in every run: pushes started = pushes taken + refusals + one while a push is under way, each taken with the value it was started with; and likewise for pops |
| RingCalls.CallsFailOnlyAsTheyMust | include/vhp/spsc_ring.hpp:53-78 | with atomic loads, a push that ended was refused iff the ring held Capacity items, a pop iff it held none, and a pop yields the oldest |
| RingCalls.PushIsWaitFree | include/vhp/spsc_ring.hpp:53-64 | a push under way can always take its next step, and ends within four of its own, whatever the consumer does |
| RingCalls.PopIsWaitFree | include/vhp/spsc_ring.hpp:67-78 | and so a pop, whatever the producer does |
| RingWords.StepAgrees | include/vhp/spsc_ring.hpp:53-78 | one step of either thread on wrapping 64-bit indices and an array of slots does what it does on unbounded counters, stale loads included |
| RingWords.WrappingNeverShows | include/vhp/spsc_ring.hpp:38-107 | so through every run the wrapping machine refuses, pushes and pops as the counters say, however often its indices wrap |
| Shutdown.InvMove | src/vhp_consumer.cpp:229-233 | every step of hot thread and publisher keeps the handshake's invariant |
| Shutdown.ShutdownLosesNothing | src/vhp_consumer.cpp:229-257 | in every interleaving the publisher exits only after done, having printed in order exactly the events emitted but for those whose push found the ring full; chunks = events emitted, event_drops = those refused |
| Shutdown.PublisherCanPrint | src/vhp_consumer.cpp:232-255 | at the top of its loop with an event in the ring, the publisher prints the oldest by moves of its own, done or not |
| Shutdown.PublisherCanExit | src/vhp_consumer.cpp:232 | and with done stored and the ring empty, it exits |
| HistogramLayout.BucketOf | include/vhp/histogram.hpp:185-187 | the count-leading-zeros expression is the number of bits beyond the first bucket |
| HistogramLayout.IndexIsTile | include/vhp/histogram.hpp:185-192 | a value is counted at i iff it lies between i's lower bound and the next: no gap, no overlap |
| HistogramLayout.IndexMonotone | include/vhp/histogram.hpp:185-192 | counts_index is monotone |
| HistogramLayout.ValueIsLowerBound | include/vhp/histogram.hpp:194-204 | value_from_index is the counter's least member and counts_index's right inverse |
| HistogramLayout.HighestIsLast | include/vhp/histogram.hpp:206-214 | highest_equivalent is the counter's last member |
| HistogramLayout.RelativeError | include/vhp/histogram.hpp:33-37 | a counter's last value is less than a unit above any of its values, or at most one part in 10^digits |
| HistogramLayout.LimitOf | include/vhp/histogram.hpp:41-48 | how many counters cover how many values |
| Samples.BackfilledAre | include/vhp/histogram.hpp:65-73 | the backfill is v - k*interval for 0 <= k < max(1, v / interval), every backfilled one at least the interval, no underflow |
| Samples.CountBelowPermutes | include/vhp/histogram.hpp:51-61 | counts do not depend on arrival order |
| Histograms.StateIsFunctionOfMultiset | include/vhp/histogram.hpp:51-61 | counters, totals, min and max depend only on the multiset recorded |
| Histograms.RepresentsAfterRecord | include/vhp/histogram.hpp:51-61 | record adds one sample to the multiset, counted or overflowed, min and max exact |
| Histograms.CountersSumToTotal | include/vhp/histogram.hpp:51-61 | the counters add up to the total, and with the overflow to the number of records |
| Histograms.RepresentsAfterMerge | include/vhp/histogram.hpp:121-130 | adding the fields of two histograms gives the fields of both streams |
| Histograms.CounterOfRank | include/vhp/histogram.hpp:107-116 | where the running count passes the rank is the counter of the exact order statistic |
| Histograms.RankIsPercentile | include/vhp/histogram.hpp:103-106 | the rank computed is that of the percentile asked for: fewer than p percent of the samples below it and at least p percent not above it; the least sample at 0 and under, the greatest at 100 and over |
| Histograms.PercentileIsOne | include/vhp/histogram.hpp:103-106 | that determines the exact percentile |
| Histograms.PercentileAccuracy | include/vhp/histogram.hpp:102-119 | exact percentile <= reported <= max, overshooting by less than a unit or by (reported - exact) * 10^digits <= exact; the latter at unit resolution |
| Histograms.PercentileMonotone | include/vhp/histogram.hpp:102-119 | a higher percentile never reports less |
| Histograms.Histogram.SizeBuckets | include/vhp/histogram.hpp:41-47 | the doubling loop takes the fewest buckets that cover highest_trackable |
| Histograms.Histogram.constructor | include/vhp/histogram.hpp:29-49 | an empty histogram whose magnitudes are the least that do, and in which no value up to highest_trackable overflows |
| Histograms.Histogram.Record | include/vhp/histogram.hpp:51-61 | the counters stand for one more sample; overflow exactly when it is out of range |
| Histograms.Histogram.RecordWithExpectedInterval | include/vhp/histogram.hpp:65-73 | the loop records exactly the backfilled samples |
| Histograms.Histogram.ValueAtPercentile | include/vhp/histogram.hpp:102-119 | the scanning loop's report lies between the exact percentile of the samples recorded and their maximum; 0 of no samples |
| Histograms.Histogram.Merge | include/vhp/histogram.hpp:121-130 | unequal sizes change nothing; equal sizes add counters, and with one layout the result stands for both streams |
| Histograms.Histogram.Reset | include/vhp/histogram.hpp:132-135 | back to no samples |
| MergeLayouts.MergeIsRightIffSameLayout | include/vhp/histogram.hpp:121-130 | for two layouts of equally many counters, the summed counters are those of both streams, for all pairs of streams, iff the layouts are the same |
| MergeLayouts.SameSizeDifferentLayout | include/vhp/histogram.hpp:122 | and such a pair with different layouts exists |
| Wire.HeaderLayout | include/vhp/pipeline.hpp:33-48 | every header field is at its offset, least significant byte first |
| Wire.FrameLayout | src/vhp_producer.cpp:314-318 | length, header, payload, in that order |
| Wire.HeaderRoundTrip | include/vhp/pipeline.hpp:33-47 | the 40-byte header decodes to what was encoded, field by field |
| Wire.OversizedStops | src/vhp_consumer.cpp:194-197 | a length above the largest payload ends the parse, keeping the frames before it |
| Wire.FrameRoundTrip | src/vhp_producer.cpp:314-318 | a written frame in front of any bytes parses back to that frame, then the rest |
| Wire.ParseResumes | src/vhp_consumer.cpp:181-182 | parsing in two pieces with the remainder carried is parsing the whole |
| Wire.CarriedIsShort | src/vhp_consumer.cpp:216 | the carried remainder is shorter than one maximal frame |
| Wire.PrefixRoundTrip | src/vhp_consumer.cpp:191-211 | any prefix of what was written parses to exactly the frames written whole, and waits |
| Pump.Drain | src/vhp_consumer.cpp:190-211 | the inner loop parses the buffer's whole frames and leaves the remainder |
| Pump.TakeRead | src/vhp_consumer.cpp:189-216 | one read with compaction keeps the buffer equal to the stream's unparsed remainder; the desync guard never fires |
| Pump.ReadAll | src/vhp_consumer.cpp:183-218 | for any read sizes, what is queued and shed is what parsing the bytes read so far gives |
| Pump.DeliverConserves | src/vhp_consumer.cpp:204-209 | every parsed frame is queued or counted as dropped |
| Pump.FragmentationIsInvisible | src/vhp_consumer.cpp:183-218 | however many bytes of the written stream have come: exactly the frames written whole are parsed, in order, each queued or counted |
| Pump.ReadWritten | src/vhp_consumer.cpp:183-218 | writer to queue over reads of any sizes: what is queued is, in order, exactly those of the frames written whole that found room, audio and fields as written but that zero stamps are filled in from the clock; the rest are counted; reads that go on long enough reach the end |
| Codec.MulawToLinear | include/vhp/codec.hpp:13-27 | within the decoder's range, so its clamp never acts |
| Codec.BuildTable | include/vhp/codec.hpp:29-35 | every table entry is the decoded code |
| Codec.EncodeMulaw | src/vhp_producer.cpp:159-171 | the exponent loop finds the segment of the biased, clipped magnitude, and the code packs sign, segment and mantissa |
| Codec.OneSegment | src/vhp_producer.cpp:159-171 | a magnitude lies in one segment, so the code is determined |
| Codec.RoundTripError | include/vhp/codec.hpp:13-27 | a sample comes back within (its magnitude + 132) / 32, sign kept |
| Codec.CodeRoundTrip | include/vhp/codec.hpp:13-27 | decoding then encoding gives the code back iff it is not 0x7F, which becomes 0xFF |
| Codec.EverySampleSurvives | src/vhp_producer.cpp:159-171 | every sample up to 32635 in magnitude comes back within (its magnitude + 132) / 32, and every larger one as full scale 32124 with its sign |
| Codec.TableEnds | include/vhp/codec.hpp:37-38 | the table's ends: 0 at 0xFF and 0x7F, 32124 at 0x80, -32124 at 0x00 |
| Codec.TableIsMonotone | include/vhp/codec.hpp:13-27 | decoding ascends from 0xFF down to 0x80, and the sign bit negates |
| Energy.EnergyBounds | include/vhp/energy.hpp:35-74 | peak^2 <= sum of squares <= n * peak^2 <= n * 2^30 |
| Energy.SquaresAddUp | include/vhp/energy.hpp:41-43 | sums of squares add up over any grouping of the samples, one sample giving its own square |
| Energy.PcmRoundTrip | include/vhp/energy.hpp:35-41 | samples sent as 16-bit little-endian are the samples measured, and a stray byte after them changes nothing |
| Energy.EnergyPcm16 | include/vhp/energy.hpp:35-54 | the loop computes peak and sum of squares of the little-endian samples, an odd byte ignored, and the sum fits 63 bits |
| Energy.EnergyMulaw | include/vhp/energy.hpp:56-74 | the loop over the table computes peak and sum of squares of the decoded samples |
| Energy.PeakSurvivesMulaw | include/vhp/energy.hpp:56-74 | through mu-law, a frame's peak moves by at most (peak + 132) / 32 |

## Left out

- Shared memory, sockets, accept, signals, thread pinning, clocks: read sizes, clock readings and queue-full outcomes are inputs.
- Floating point: energies, times and thresholds are exact reals, and a percentile's rank is the exact ceiling of p/100 * total. The energy of a frame is an arbitrary function of it, except in `Loudness`, where it is the exact normalised peak and root mean square of its samples.
- Gate.GateRule: runs of at most 2^32 - 1 frames, so that the loud-frame counter, which a cooldown lets grow, does not wrap.
- Stamps.HandleLoudStamp: a quiet-frame counter at its last value is excluded, where one more quiet frame would wrap it to 0.
- The byte cap the consumer works out from the time cap is an input here.
- The histogram's mean, standard deviation, median, summary and CSV output: approximate or presentation.
- Latency, jitter and depth recording in the hot loop, and the depth integral: bookkeeping beside the state modelled here.
- Isolation from an earlier call on reused session storage: the code does not provide it; `Isolation.AsGoodAsNewExactlyWhen` says when nothing shows.
- Reuse.NewCallIsHeardExactlyWhen: storage whose gate was left resting with a cooldown that may still run is not covered here; by `Isolation.AsGoodAsNewExactlyWhen` there are times at which it shows.
- Loss.RunCountsGaps: for runs without expiry, where each call has one lifetime; `Lifetimes.GapsAreSumOverLifetimes` is for all runs.
- The Node producer, the random signal generator, pacing, benchmarks, golden vectors and the TypeScript originals.
- Histograms.Histogram.constructor: requires the magnitudes to fit a word, because wider shifts are undefined in the source.
- Histograms.Histogram.Merge: says nothing of min, max and percentiles after adding counters of different layouts, which mean nothing there.
- Histograms.Histogram.Record: counters and totals are unbounded, so 64-bit wrap of a count is not modelled.
- Slices.EveryRunTracked: runs of at most 2^32 - 1 frames, so the 32-bit frame counter does not wrap; the gap counter's wrap is modelled.
- Slices.ChunkIsItsSlice: the same bound on the run, and so for the other results on chunks of a run.
- Chunker.PreRoll.Push: the 64-bit push counter is unbounded.
- Sessions.SessionTable.constructor: requires max_sessions <= 0xFFFFFFFE, because a larger session number would equal a slot sentinel; buffer reservation is not modelled.
- Sessions.SessionTable.Acquire: the probe start is an arbitrary function of the id, more general than the multiplicative hash; opened and rejected counts are unbounded.
- Sessions.SessionTable.ExpireIdle: the emit callback is the returned sequence of events; what the event ring does with them is in `Shutdown`.
- RingWords.WrappingNeverShows: capacities up to 2^63, so that a wrapped difference is the true one.
- Bit operations are written arithmetically (masks as remainders, disjoint fields as sums); `HistogramLayout.BitOr` is bit by bit.
- Nothing was executed: these are proofs about a model of the source.
