# A verified model of go-librespot's stateful cores

go-librespot is a Spotify Connect client.  This project models, in Dafny, the parts of it
that keep state across calls or threads or depend on exact arithmetic, and proves what they
promise over all inputs, all runs and all interleavings.

| module | models |
|---|---|
| `Resolver`, `Paging`, `PagedLists` | contexts loaded page by page and the list with a cursor over them (spclient/context_resolver.go, tracks/paged_list.go) |
| `Shuffling` | the seeded shuffle and its replayed inverse |
| `TrackLists`, `PlaybackLists` | the playback list with shuffle and queue, as a value and as an object (tracks/tracks.go) |
| `TrackRuns`, `TrackViews`, `TrackStale` | whole runs of it, its views as future and past, and exactly when it is in page order |
| `ChunkedReaders`, `ChunkFetching` | the chunk cache over range requests, one reader and any number of goroutines (audio/chunked_reader.go) |
| `CounterMode` | AES-CTR restarted at any offset on top of it (audio/decryptor.go) |
| `ShannonConns` | framed packets with nonces, MACs and a peek buffer (ap/shannon.go) |
| `MercuryFrames`, `MercuryLoop` | request bytes and request/response correlation (mercury/client.go) |
| `Zeroconf` | concurrent logins through one slot (zeroconf/zeroconf.go) |
| `KeyExchange`, `Ids`, `Volumes`, `SeekTables`, `Hashcash` | arithmetic with real bounds (dh/dh.go, ids.go, cmd/daemon, vorbis/metadata.go, login5/hashcash.go) |
| `Positional`, `Common` | numerals in a base and small shared definitions |

Code that changes state is modelled by classes and by methods with loops; each method is
proved against a function on values, and the laws are lemmas about those functions.

What stands outside is a parameter:

- the network of a resolver is any function of request number and url, so that the same url
  may fail once and answer differently later; chains of next-page links are finite (`Resolver.Finite`);
- the random source is any deterministic state machine with results below their bound;
- AES, the Shannon cipher and protobuf headers are function values; of Shannon it is asked
  that decrypting a byte undoes encrypting it and leads to the same state;
- downloads may fail as an oracle says, and other goroutines may fill, fail or clear a chunk
  between any two steps of a reader; a download that answers delivers its whole range;
- time, logging, deadlines and retries do not appear.

Integers are unbounded except where width matters: 16-bit lengths, 32-bit nonces and volumes,
64-bit sequence numbers, seeds and counters wrap as written.  The 16-bit lengths of a Mercury
request are written truncated, but no truncated one is ever sent: the connection refuses
packets of more than 65535 bytes (`MercuryLoop.EchoReturns`, `MercuryLoop.RequestCarried`).

## Where the code falls short of what one would expect

- A switch-off of the shuffle by re-reading the context fails when a queued track plays that
  is not found in the context as far as it can be read, or when the current track has no
  identifier, and for no other reason; for a track of the context no failing load can break it
  (`TrackRuns.RefetchSucceeds`, `TrackRuns.RefetchExactly`).  After a failure the list is in page
  order but still marked as shuffled, and a later switch-off can scramble it:
  `TrackStale.PageOrderCanFail` is a run that does so.  `TrackStale.StaleUndo` says from seed,
  length and kept place exactly when that switch does harm, and `TrackStale.PageOrderExactly`
  carries both conditions through every run.
- A load that fails with cause io.EOF is taken for the end of the context
  (`Paging.EndCanBeMistaken`); `Paging.EndExactly` says exactly when.
- A view that came out short because a load failed can be followed by a GoNext that succeeds
  (`TrackViews.ShortViewCanGrow`); `TrackViews.NextTracksIsFuture` and `TrackViews.PeekIsNext`
  give the exact condition.
- While shuffled, a fetch can append a page the list already holds; `Paging.FetchDistinct`
  says exactly when.
- A goroutine that waits for a chunk while an error of an earlier attempt is still recorded
  keeps the lock for good (`ChunkFetching.StuckForGood`); `ChunkFetching.StuckExactly` says
  from which states it can come to that without a further failure, and
  `ChunkFetching.StuckReachable` for which chunks it can at all.
- After a failed download of a chunk the next download is thrown away although it succeeds
  (`ChunkedReaders.FailureCostsADownload`).
- A shuffle seeded by the largest of the random numbers cannot be undone by replay, since its
  seed wraps to zero, which means no seed (`TrackLists.SeedsDiffer`).
- A volume above 65537 steps, and a relative change whose sum leaves the int32 range, overflow:
  the volume comes out low or zero (`Volumes.AboveIsFull`, `Volumes.RelativeMoves`).
- Comments and code differ in three places, and the model follows the code: the packet
  header is three bytes and not eight (ap/shannon.go:122), the API volume ranges over the
  configured steps and not over 65535 (cmd/daemon/controls.go:649), and the seek segment is
  clamped to 1..99 and not to [0, 100) (vorbis/metadata.go:208).

## Model

| member | source | states |
|---|---|---|
| Resolver.PageGrows | spclient/context_resolver.go:133-169 | a page request never replaces a page that has tracks, serves what is then recorded for that page, and never raises the bound on the number of pages |
| Resolver.ServedForGood | spclient/context_resolver.go:149-168 | a page once served with tracks is served again, the same, without another load, in every later state |
| Resolver.ExtendBound | spclient/context_resolver.go:134-147 | following next-page links of finite rank keeps the page bound |
| Resolver.EofExactly | spclient/context_resolver.go:134-139 | the end is reported exactly when the page is unknown and the last known page has no next link |
| Resolver.ServedExactly | spclient/context_resolver.go:134-168 | tracks are served exactly when the page has them, or its url brings them, or the next link leads to a page of which one of the two is true |
| Resolver.CutOffExactly | spclient/context_resolver.go:141-160 | a request fails with cause io.EOF exactly when the load it needs at the present clock, or the one after, does |
| Resolver.OnlyHmUrls | spclient/context_resolver.go:100-106 | only hm urls are requested, without their scheme; any other fails |
| Resolver.LinkRecorded | spclient/context_resolver.go:141-168 | the answer to the next link is recorded as it came behind the last page and its tracks are served; a failed load changes nothing but the clock |
| Resolver.ReloadRecorded | spclient/context_resolver.go:150-168 | the answer to an empty page's own url takes its place as it came and is served |
| Resolver.RequestsByLoads | spclient/context_resolver.go:133-169 | over every run of requests the record changes load by load, and each load that does not fail stores its answer verbatim where it belongs |
| Resolver.PagesAreAnswers | spclient/context_resolver.go:133-169 | after every run each page that is new or changed is word for word an answer the network gave during the run |
| Resolver.ContextResolver.GetPage | spclient/context_resolver.go:133-169 | the loop computes exactly the page function, through end of context, failed loads, reloads of empty pages |
| Paging.FetchExtends | tracks/paged_list.go:176-198 | a fetch keeps the old entries, the cursor, every entry's location and page order; it succeeds exactly when the list grows, and then by one page |
| Paging.IterNextExtends | tracks/paged_list.go:40-54 | moving on succeeds exactly when there is a next entry afterwards, and an iterator never errs and succeeds at once |
| Paging.IterNextExactly | tracks/paged_list.go:40-54 | moving on succeeds exactly when a next entry is there or its page arrives, and errs exactly when neither is so and the end is not reached or taken for reached |
| Paging.IterNextProgress | tracks/paged_list.go:40-54 | every successful move lowers the pair (pages left after the last entry's page, entries left after the iterator), even over a permuted list: iterating to exhaustion ends |
| Paging.ScanFindsFirst | tracks/tracks.go:60-75 | a scan stops at the first match; without a match it has looked at every entry of the list it leaves |
| Paging.ScanExhausts | tracks/tracks.go:267-274 | a scan that ends without match and without error stands at the end, the last known page without a next link and a list that was in page order holding every page, or its last load failed with cause io.EOF |
| Paging.ScanStops | tracks/tracks.go:60-75 | a scan without a match goes on until a fetch brings nothing, and errs exactly if that fetch failed |
| Paging.FetchDistinct | tracks/paged_list.go:181-194 | a fetch takes the page after the last entry's, so entries stay distinct exactly when they were and none is of that page: a shuffled list can take a page twice |
| Paging.EndExactly | tracks/paged_list.go:42-44 | no more pages is reported exactly at the end of the context, and from then on for good, or when the load at the present clock fails with cause io.EOF |
| Paging.EndCanBeMistaken | tracks/paged_list.go:42-44 | a list that is told there are no more pages before the end of the context, and gets the next page when it asks again |
| Paging.ScanFindsKnown | tracks/tracks.go:60-75 | a scan in page order finds a match without a load if an entry without an empty page before it matches |
| Paging.ScanFindsExactly | tracks/tracks.go:60-75 | a scan finds a match exactly when reading on to the end would come across one |
| Paging.FetchedExactly | tracks/paged_list.go:185-197 | a fetch brings tracks exactly when the known page has them or the loads at the present clock bring them |
| Paging.CollectExtends | tracks/tracks.go:128-132 | collecting ahead changes nothing but by fetching, and respects its limit |
| Paging.OrderedDistinct | tracks/paged_list.go:192-194 | in page order no entry occurs twice |
| Paging.FlattenContains | tracks/paged_list.go:192-194 | every entry that can be located in the fetched pages is in their concatenation |
| PagedLists.PagedList.FetchNextPage | tracks/paged_list.go:176-198 | the new list, cursor, resolver and outcome are those of the fetch function; the page asked for is one after the last entry's |
| PagedLists.PagedList.MoveStart | tracks/paged_list.go:92-103 | the cursor goes to the first entry, fetching it if the list is empty, or stays when there is none |
| PagedLists.PagedList.Swap | tracks/paged_list.go:122-133 | two places exchanged and the cursor moved with its entry |
| PagedLists.PagedList.Exchange | tracks/paged_list.go:143-148 | the swap inside the shuffling loops |
| PagedLists.PagedList.Shuffle | tracks/paged_list.go:135-151 | list and cursor are the seeded downward pass over the old ones |
| PagedLists.PagedList.Unshuffle | tracks/paged_list.go:153-174 | list and cursor are the upward pass with the same numbers |
| PagedLists.DrawExchanges | tracks/paged_list.go:158-161 | the numbers drawn ahead are the numbers the shuffle drew |
| PagedLists.Iterator.Next | tracks/paged_list.go:40-54 | the loop is one step of the iteration function: moved, no more pages (any error whose cause is io.EOF), or failed |
| PagedLists.Iterator.Prev | tracks/paged_list.go:25-38 | one back, or refused at the start |
| Shuffling.SwapTwice | tracks/paged_list.go:122-133 | a swap undoes itself on the list, wherever the cursor is |
| Shuffling.UnmixMix | tracks/paged_list.go:141-172 | the upward pass undoes the downward pass for every list, every number sequence and any cursor set in between |
| Shuffling.MixUnmix | tracks/paged_list.go:141-172 | and the downward pass undoes the upward one |
| Shuffling.MixStill | tracks/paged_list.go:141-149 | which numbers move nothing but exchange the first place with a given one |
| Shuffling.ShuffleSameCards | tracks/paged_list.go:135-174 | both passes permute the list and keep the cursor on its element |
| Shuffling.UnshuffleShuffle | tracks/paged_list.go:135-174 | same seed and same length: the list before the shuffle comes back, draws and all |
| Shuffling.DrawnInOrder | tracks/paged_list.go:141-142 | the k-th number is the source's k-th draw, below n - k |
| Shuffling.SameOrderExactly | tracks/paged_list.go:135-151 | two shuffles give one order exactly when the source draws the same numbers |
| Shuffling.EveryOrderOnce | tracks/paged_list.go:135-151 | every order of a list of distinct entries comes from exactly one sequence of drawn numbers |
| Shuffling.MixInjective | tracks/paged_list.go:141-149 | different draws give different orders |
| TrackLists.SeekLands | tracks/tracks.go:60-75 | a seek lands on the first match, or leaves the cursor and the list holds no match |
| TrackLists.SeekFindsExactly | tracks/tracks.go:60-75 | a seek succeeds exactly when the list, pages still to be fetched included, holds a match |
| TrackLists.TrySeekLands | tracks/tracks.go:47-58 | with a match anywhere the cursor is on the first one; without, on the first entry, and only if there is none it fails and stays |
| TrackLists.GoStartLands | tracks/paged_list.go:92-103 | the cursor is on the first entry exactly when there is one or its page arrives, else unchanged |
| TrackLists.NewStarts | tracks/tracks.go:29-40 | a new list starts with the first track of the first page, unshuffled and with nothing queued |
| TrackLists.GoNextLands | tracks/tracks.go:188-211 | what waits is played in order; then the cursor moves by one exactly when there is a next entry or its page arrives, else stays |
| TrackLists.GoPrevLands | tracks/tracks.go:213-229 | the queue is left waiting and the cursor goes one back, or stays at the first entry |
| TrackLists.NextThenPrev | tracks/tracks.go:188-229 | forward and back again within the context is where it was |
| TrackLists.IndexLocates | tracks/tracks.go:141-148 | the reported page and item index find the current track in the resolver's pages; zeros while the queue plays |
| TrackLists.AddedLast | tracks/tracks.go:231-238 | an added track waits behind all that wait, marked as queued and otherwise unchanged |
| TrackLists.OnlyQueued | tracks/tracks.go:248-254 | exactly the marked tracks are kept |
| TrackLists.OnlyQueuedConcat | tracks/tracks.go:248-254 | and they are kept in order |
| TrackLists.SetQueueLands | tracks/tracks.go:240-255 | the playing track stays current and what waits is exactly what is marked is_queued true, in order |
| TrackLists.SetPlayingQueueLands | tracks/tracks.go:257-259 | the queue plays exactly if asked to and not empty; its head is then current, else the context's track |
| TrackLists.SameTrackExactly | tracks/utils.go:8-25 | two tracks are the same exactly by uid, by uri, by gid of a target without uri, or by a uri that prints the other's gid |
| TrackLists.DoSameCards | tracks/tracks.go:276-289 | shuffling on keeps all entries and puts the current one first |
| TrackLists.UndoDo | tracks/tracks.go:276-302 | restoring the front entry and replaying backwards gives the original list, for every seed and any later cursor |
| TrackLists.SeedsDiffer | tracks/tracks.go:277-278 | every drawn number gives a seed of its own, and exactly the largest one a shuffle that cannot be undone |
| TrackRuns.StepKeeps | tracks/tracks.go:47-259 | no operation but a switch of the shuffle reorders entries, drops one, or touches the shuffle's bookkeeping |
| TrackRuns.StepSafe | tracks/tracks.go:47-322 | every operation, failing or not, keeps cursor range, non-empty playing queue and locatable entries |
| TrackRuns.StepConsistent | tracks/tracks.go:261-322 | every operation whose switch succeeds keeps: unshuffled means page order, shuffled by a seed means undoing gives page order |
| TrackRuns.ToggleSettles | tracks/tracks.go:261-322 | a switch leaves the queue alone; after success the mode is as asked and asking again changes nothing; switching on never fails |
| TrackRuns.RefetchFindsTrack | tracks/tracks.go:307-319 | leaving a shuffle by re-reading gives page order with the cursor on the first entry that is the current track; failure leaves the mode and a cleared cursor |
| TrackRuns.HeldInContext | tracks/utils.go:8-25 | the list holds the current track of the context exactly when that track has a uid, a uri or a gid |
| TrackRuns.RefetchSucceeds | tracks/tracks.go:307-319 | leaving a shuffle by re-reading succeeds, without a single load, whenever the list holds the current track: no network failure can break it |
| TrackRuns.RefetchExactly | tracks/tracks.go:307-319 | it succeeds for a context track exactly when that has an identifier, for a queued one exactly when the context as it can be read holds it |
| TrackRuns.StepFilled | tracks/tracks.go:47-322 | every operation, failing or not, keeps every page up to the page of any entry known and with tracks |
| TrackRuns.SameTrackReflexive | tracks/utils.go:8-25 | a track with any identifier compares equal to itself, one without to no track |
| TrackRuns.ReachableInvariant | tracks/tracks.go:29-322 | over every run from a new list: cursor in range, playing queue non-empty, every entry located by its indices, no empty page before any entry; page order when unshuffled if each re-read was asked for while the list held the current track, whatever the network did |
| TrackRuns.ShuffleRoundTrip | tracks/tracks.go:261-306 | shuffle on, any run of other operations, shuffle off: if seeded and of the same length, exactly the pre-shuffle list, the cursor on the very same entry and on no other place, queue untouched |
| TrackRuns.CanUndoExactly | tracks/tracks.go:294-295 | after a shuffle and any run of other operations it can be undone exactly if the number drawn was not the largest and no page has arrived |
| TrackViews.UpcomingUnfolds | tracks/tracks.go:114-139 | the first upcoming track is where GoNext goes and the rest is upcoming from there |
| TrackViews.UpcomingForeseen | tracks/tracks.go:114-139 | what a view of any length shows is where that many GoNext calls lead |
| TrackViews.NextTracksIsFuture | tracks/tracks.go:114-139 | from the state NextTracks leaves, entry i is current after i + 1 GoNext calls across queue, context and page fetches; after a short view one call more succeeds exactly when the next page arrives at the clock it left, and never at the end of the context |
| TrackViews.PeekIsNext | tracks/tracks.go:173-186 | from the state PeekNext leaves, GoNext goes where it showed; when it showed nothing, exactly if the next page now arrives |
| TrackViews.ShortViewCanGrow | tracks/tracks.go:128-136 | a list on which both views show nothing and GoNext then succeeds, because a failed load answers the second time |
| TrackViews.PrevTracksIsPast | tracks/tracks.go:95-112 | PrevTracks backwards is the run of GoPrev, and a short view ends at the start of the list |
| TrackStale.UndoMovesNothing | tracks/tracks.go:295-302 | an undo moves nothing exactly when the seed draws the still numbers for that length and keep |
| TrackStale.StaleUndo | tracks/tracks.go:295-306 | replaying the inverse over a list already in page order keeps page order exactly when the seed draws the still numbers for that length and keep |
| TrackStale.AfterFailedSwitch | tracks/tracks.go:294-320 | a failed switch-off, any run that does not switch off, a successful one: out of page order exactly when the last replayed and its draws move something |
| TrackStale.StepStanding | tracks/tracks.go:47-322 | every operation moves the standing of the order (intact, stale, scrambled) as told before the call from seed, length, keep and whether the current track can be recovered |
| TrackStale.PageOrderExactly | tracks/tracks.go:29-322 | over every run from a new list, failures included, an unshuffled list is in page order exactly when its standing is intact, which it is whenever each re-read was for a track the list held |
| TrackStale.PageOrderCanFail | tracks/tracks.go:295-316 | a concrete run with a failed switch-off that ends unshuffled and out of page order |
| PlaybackLists.List.Seek | tracks/tracks.go:60-75 | the loop is the seek function on the value |
| PlaybackLists.List.TrySeek | tracks/tracks.go:47-58 | seek, or go to the start |
| PlaybackLists.List.GoStart | tracks/tracks.go:164-171 | the start function on the value |
| PlaybackLists.List.GoNext | tracks/tracks.go:188-211 | queue head dropped, queue or context advanced, as the function on the value says |
| PlaybackLists.List.GoPrev | tracks/tracks.go:213-229 | queue left, cursor one back, as the function on the value says |
| PlaybackLists.List.PeekNext | tracks/tracks.go:173-186 | what GoNext would play, with the fetch it may need |
| PlaybackLists.List.NextTracks | tracks/tracks.go:114-139 | both loops together give the upcoming tracks of the value |
| PlaybackLists.List.CollectNext | tracks/tracks.go:128-132 | the context loop is the collecting function |
| PlaybackLists.List.PrevTracks | tracks/tracks.go:95-112 | loop and reversal give the tracks before the cursor in list order |
| PlaybackLists.List.Current | tracks/tracks.go:150-157 | queue head while the queue plays, else the entry under the cursor |
| PlaybackLists.List.Index | tracks/tracks.go:141-148 | page and item index of the current entry |
| PlaybackLists.List.Drain | tracks/tracks.go:267-274 | the bare loop fetches everything and moves nothing |
| PlaybackLists.List.AddToQueue | tracks/tracks.go:231-238 | appended and marked as queued |
| PlaybackLists.List.SetQueue | tracks/tracks.go:240-255 | the playing head, if any, then exactly the marked tracks in order |
| PlaybackLists.List.SetPlayingQueue | tracks/tracks.go:257-259 | only a non-empty queue can play |
| PlaybackLists.List.ToggleShuffle | tracks/tracks.go:261-322 | the toggle function on the value, all four cases |
| PlaybackLists.List.SwitchOn | tracks/tracks.go:266-293 | fetch all, seed, shuffle, bring current to front, remember |
| PlaybackLists.List.SwitchOff | tracks/tracks.go:294-320 | undo by replay, or clear and seek |
| Ids.GidFitsText | ids.go:13 | 62^21 < 2^128 < 62^22 |
| Ids.DigitsInOrder | ids.go:91 | the digits are 0-9, a-z, A-Z in this order |
| Ids.PrintsFixed | ids.go:90-93 | printing a gid is printing its number at exactly 22 digits |
| Ids.GidRoundTrip | ids.go:90-111 | every gid prints to 22 digits that parse back to it |
| Ids.TextRoundTrip | ids.go:103-111 | a text of 21 or 22 digits parses exactly when below 2^128 and then reprints padded to 22; otherwise it panics |
| Ids.TextExactly | ids.go:103-111 | any text: an optional sign is passed over, the rest must be digits, and the number below 2^128 or it panics |
| Ids.MatchUriCorrect | ids.go:13 | one pass from the left accepts exactly the uri pattern, with the only possible groups |
| Ids.UriRoundTrip | ids.go:82-120 | the uri of an id parses back to it exactly when its type is a lower-case word |
| Ids.UriReprints | ids.go:82-120 | a parsed 22-digit uri prints as it was |
| Ids.UriOfGid | ids.go:82-93 | two gids print to one uri only if they are the same |
| ChunkedReaders.ChunkCountExact | audio/chunked_reader.go:91-97 | a chunk index is in range exactly when it begins inside the file |
| ChunkedReaders.ChunkData | audio/chunked_reader.go:113-122 | a chunk is never empty and is byte for byte that part of the file |
| ChunkedReaders.ChunksTileFile | audio/chunked_reader.go:91-102 | all chunks end to end are the file |
| ChunkedReaders.HttpChunkedReader.constructor | audio/chunked_reader.go:69-111 | chunk zero is cached, the others are not |
| ChunkedReaders.HttpChunkedReader.FetchChunk | audio/chunked_reader.go:136-194 | chunk, clock and result are those of one attempt after what others did; what is returned is the chunk, what was cached stays, a cached chunk never fails, and a healthy network never fails |
| ChunkedReaders.FailureCostsADownload | audio/chunked_reader.go:161-184 | after a failed download the next one is thrown away although it succeeds, and the one after that is kept |
| ChunkedReaders.HttpChunkedReader.ReadAt | audio/chunked_reader.go:212-251 | the first n bytes are the file from the offset, the rest of the buffer is untouched, n is as large as buffer and file allow, end of file exactly behind the last chunk; it fails only at a chunk that is not cached, and a read of cached chunks downloads nothing |
| ChunkedReaders.HttpChunkedReader.Read | audio/chunked_reader.go:206-210 | reads at the reader's position and advances by what was read |
| ChunkedReaders.HttpChunkedReader.Seek | audio/chunked_reader.go:253-279 | lands inside the file or changes nothing |
| ChunkFetching.NextOneFetcher | audio/chunked_reader.go:136-194 | every step of every goroutine keeps: fetching holds exactly while one goroutine, never two, is downloading |
| ChunkFetching.OneDownloadAtATime | audio/chunked_reader.go:136-194 | in every interleaving one download at a time, flagged exactly while it lasts; only the chunk is returned; stored at most once |
| ChunkFetching.WriteOnce | audio/chunked_reader.go:136-194 | data once set is never changed, stored or downloaded again |
| ChunkFetching.OthersMeddle | audio/chunked_reader.go:136-194 | what any run of other goroutines does to a chunk is one step of what a reader reckons with, and sets no error unless a download fails |
| ChunkFetching.SoloFetch | audio/chunked_reader.go:136-194 | from every state in which nobody fetches, a caller on its own comes to exactly what the reader's attempt says, with at most one download |
| ChunkFetching.WaiterServed | audio/chunked_reader.go:141-151 | once the data is stored, whoever waits for it is given it in at most three steps |
| ChunkFetching.TurnsInPlace | audio/chunked_reader.go:141-145 | the waiting loop turns without effect exactly while the chunk is being fetched and an old error stands |
| ChunkFetching.StuckForGood | audio/chunked_reader.go:141-145 | a waiter in that state keeps the lock over every run and nothing is ever stored again |
| ChunkFetching.StuckExactly | audio/chunked_reader.go:141-190 | without a further failed download it can come to that exactly when the chunk is empty and an error is recorded or about to be |
| ChunkFetching.StuckReachable | audio/chunked_reader.go:141-167 | with failing downloads it can come to that from the start exactly for a chunk that is empty |
| CounterMode.RestartIsAdvance | audio/decryptor.go:28-39 | the 64-bit add on the low half equals `block` increments of the 128-bit counter exactly while the low half does not wrap |
| CounterMode.NoWrapForInt64 | audio/decryptor.go:29-39 | no int64 position makes it wrap |
| CounterMode.RestartedKeyByte | audio/decryptor.go:41-46 | the restarted stream past the discarded bytes is the base stream from the offset on |
| CounterMode.DecryptTwice | audio/decryptor.go:48-52 | decryption undoes encryption under the same key stream |
| CounterMode.XorBit | audio/decryptor.go:44-52 | a bit of the result is set exactly where text and key differ |
| CounterMode.KeyStreamBlock | audio/decryptor.go:41-52 | decrypting zeros gives the key stream, whose k-th block is the encryption of the starting counter plus k modulo 2^128 |
| CounterMode.CtrStream.XorKeyStream | audio/decryptor.go:44-52 | the next n key bytes are applied in place, across block boundaries, and used up |
| CounterMode.Decryptor.StreamAt | audio/decryptor.go:29-46 | a stream standing exactly at the offset |
| CounterMode.Decryptor.ReadAt | audio/decryptor.go:28-54 | at any offset and buffer length the first n bytes are that slice of one sequential decryption of the whole file, whatever was cached |
| ShannonConns.DecryptEncrypt | ap/shannon.go:59-60 | decrypting undoes encrypting and reaches the same cipher state |
| ShannonConns.EncryptFront | ap/shannon.go:59-60 | bytes go through the cipher in order, each from the state the one before led to |
| ShannonConns.DecryptFront | ap/shannon.go:128-139 | the same for decryption |
| ShannonConns.OneEncryptTwoDecrypts | ap/shannon.go:59-139 | one Encrypt call matches two Decrypt calls split anywhere |
| ShannonConns.UnframeFrame | ap/shannon.go:41-153 | with matching key and nonce a frame is received as sent, MAC included, and not a byte more is consumed |
| ShannonConns.FrameLayout | ap/shannon.go:46-77 | type, two bytes of length and payload encrypted in one piece, then the four bytes of the MAC |
| ShannonConns.UnframeChecksMac | ap/shannon.go:131-150 | whatever four bytes stand behind the text of a packet, it is received exactly if they are its MAC, else refused, the same bytes consumed |
| ShannonConns.UnframeShort | ap/shannon.go:122-145 | a frame cut short anywhere is not received |
| ShannonConns.ReceiveTakes | ap/shannon.go:98-153 | every receive counts the nonce up and consumes unread bytes before those of the connection |
| ShannonConns.ReceiveChecksMac | ap/shannon.go:98-153 | a packet with another MAC is refused, and what is behind it stays in place |
| ShannonConns.SendInv | ap/shannon.go:41-79 | a send, accepted or refused, keeps what is in flight equal to the frames not yet received |
| ShannonConns.ReceiveInv | ap/shannon.go:98-153 | a receive takes exactly the first frame off, through unread bytes and connection |
| ShannonConns.PeekInv | ap/shannon.go:81-96 | a peek of any size moves bytes but loses and reorders none |
| ShannonConns.PeekShows | ap/shannon.go:81-96 | a peek succeeds exactly if the bytes are there and keeps that many aside |
| ShannonConns.PeekThenReceive | ap/shannon.go:81-153 | what is received does not depend on having peeked |
| ShannonConns.FifoDelivery | ap/shannon.go:41-153 | over every run: the k-th receive is the k-th packet sent, no MAC fails, nonces in step modulo 2^32, bytes accounted for |
| ShannonConns.ShannonConn.SendPacket | ap/shannon.go:41-79 | wire and nonce are those of the send function; too big is refused unchanged |
| ShannonConns.ShannonConn.PeekUnencrypted | ap/shannon.go:81-96 | the peek function on the incoming bytes |
| ShannonConns.ShannonConn.ReadFull | ap/shannon.go:102-111 | unread bytes first, then the connection, or short |
| ShannonConns.ShannonConn.ReceivePacket | ap/shannon.go:98-153 | the receive function, short reads and bad MAC included, with the nonce advanced in every case |
| ShannonConns.ShannonConn.ReceiveBody | ap/shannon.go:131-152 | payload, MAC and what is left unread |
| MercuryFrames.JoinSplit | mercury/client.go:182-208 | splitting into 0xffff-byte parts and joining is the identity |
| MercuryFrames.ParsePreamble | mercury/client.go:68-101 | sequence number and part count read back, the count modulo 2^16, whatever follows |
| MercuryFrames.ParseExactly | mercury/client.go:70-101 | sequence numbers of 2, 4 or 8 bytes are read; any other length, or flags other than 1, and the packet is skipped |
| MercuryFrames.ShortPacketSkipped | mercury/client.go:70-97 | a packet that ends before its flags is skipped |
| MercuryFrames.CutPartPadded | mercury/client.go:109-117 | a part that ends early is filled up with zeros and those behind it are empty |
| MercuryFrames.ParseSerialize | mercury/client.go:68-153 | what was written reads back exactly when part count and header length fit sixteen bits |
| MercuryFrames.PayloadRoundTrip | mercury/client.go:131-210 | of the bytes alone, before any bound on packets: split, write, read, join returns sequence, header and payload exactly when the payload has at most 65534 parts and the header fewer than 2^16 bytes |
| MercuryFrames.SmallFits | mercury/client.go:135-153 | bytes below 2^16 leave no length to truncate: header, part count and every part fit sixteen bits |
| MercuryFrames.RequestSize | mercury/client.go:135-185 | the bytes of a request are below 2^16 exactly when header and payload, with two more for a payload that is not empty, are at most 65520 |
| MercuryFrames.SplitPayload | mercury/client.go:182-185 | the loop is the splitting function |
| MercuryFrames.JoinParts | mercury/client.go:205-208 | the loop is the joining function |
| MercuryFrames.SerializeRequest | mercury/client.go:135-153 | the buffer is the serialised request, truncated lengths included |
| MercuryFrames.ReadParts | mercury/client.go:109-117 | the loop is the parts function, zero filled when the packet ends early |
| MercuryLoop.ReplyReachesItsRequest | mercury/client.go:62-130 | a response is given to the request whose number it carries, if still waiting, and to no other; packets of other types change nothing |
| MercuryLoop.RequestOutcome | mercury/client.go:131-161 | a request is pending, its packet sent, exactly if its header could be marshalled and the connection took the packet; else it is answered with an error and nothing is sent |
| MercuryLoop.EchoReturns | mercury/client.go:68-161 | a request of at most 65535 bytes is sent, and its packet, sent back, is delivered to that request complete; a larger one is not sent and answered with an error |
| MercuryLoop.RequestCarried | ap/shannon.go:41-79 | for every lawful cipher the connection takes a request exactly when header and payload are at most 65520 bytes (two fewer with a payload), and the receiver unframes it and reads sequence, header and payload whole |
| MercuryLoop.NeverBlocks | mercury/client.go:187 | a reply channel is empty whenever something is put into it |
| MercuryLoop.RunInv | mercury/client.go:51-164 | every run keeps counter, pending map and channels in agreement, and an answer is final |
| MercuryLoop.AnsweredExactlyOnce | mercury/client.go:51-164 | over every interleaving pending numbers are below the request count and each accepted request is pending or answered exactly once |
| MercuryLoop.RecvLoop.Respond | mercury/client.go:120-130 | a one-slot channel is filled only when empty |
| MercuryLoop.RecvLoop.HandlePacket | mercury/client.go:62-130 | the packet case of the loop is the packet function and keeps the invariant |
| MercuryLoop.RecvLoop.HandleRequest | mercury/client.go:131-161 | the request case of the loop is the request function and keeps the invariant |
| Zeroconf.NextInv | zeroconf/zeroconf.go:182-233 | every step keeps one login at a time, the slot named after it, and verdicts on record |
| Zeroconf.ClaimExactly | zeroconf/zeroconf.go:182-205 | a handler gets the slot exactly if its user does not hold the session and nobody is in the slot; else the reply says known or busy, each exactly when |
| Zeroconf.ReleaseExactly | zeroconf/zeroconf.go:219-233 | an accepted user holds the session from then on, a refused one changes nothing, and the slot is free |
| Zeroconf.LoginRuns | zeroconf/zeroconf.go:182-233 | a server with a free slot takes any other user through to the verdict and does as it says |
| Zeroconf.OneLoginAtATime | zeroconf/zeroconf.go:182-233 | over all interleavings at most one handler is between claim and result, and authenticatingUser is non-empty exactly then and names its user |
| Zeroconf.CurrentUserWasAccepted | zeroconf/zeroconf.go:216-233 | outside SetCurrentUser the current user changes only to one the serving loop accepted |
| Zeroconf.SlotHolderUndisturbed | zeroconf/zeroconf.go:184-202 | until a login is released every other handler waits or is turned away |
| Zeroconf.Server.BeginAddUser | zeroconf/zeroconf.go:182-205 | the first locked section |
| Zeroconf.Server.EndAddUser | zeroconf/zeroconf.go:219-233 | the second locked section, which always empties the slot |
| KeyExchange.Prime | dh/dh.go:12-22 | the prime of the group, larger than one |
| KeyExchange.ExpTwice | dh/dh.go:39-45 | (x^a mod m)^b mod m is x^(a b) mod m |
| KeyExchange.ExpSteps | dh/dh.go:39-45 | modular exponentiation multiplies once per step and reduces |
| KeyExchange.Agreement | dh/dh.go:31-51 | both sides compute the same bytes for all private keys, that of the common exponent |
| KeyExchange.PaddingIgnored | dh/dh.go:43-46 | leading zeros of a received key do not change the secret |
| KeyExchange.DiffieHellman.Exchange | dh/dh.go:43-47 | the stored and returned secret is that of the received key |
| KeyExchange.DiffieHellman.PublicBytes | dh/dh.go:49-51 | the public key without leading zeros |
| KeyExchange.Handshake | dh/dh.go:31-51 | two objects that exchange public bytes hold one secret |
| Volumes.HopExact | cmd/daemon/player.go:616 | the float in between, with any two rounding errors of 32-bit arithmetic, rounds back to the value sent |
| Volumes.SentIsShare | cmd/daemon/controls.go:672 | what travels is the share of the full volume, 0 to 1, larger for more |
| Volumes.ReadBack | cmd/daemon/player.go:533 | setting v of s steps reads back as v exactly when the remainder of v * 65535 by s is below half of 65535 |
| Volumes.ReadsNearest | cmd/daemon/controls.go:651-653 | the steps read are those nearest to the device volume's share |
| Volumes.RequestedIsShare | cmd/daemon/player.go:533 | a setting asks for its share of 65535, rounded down |
| Volumes.AboveIsFull | cmd/daemon/player.go:533 | a setting above the steps is full volume up to 65537; at 65538 the 32-bit product has wrapped and it is not |
| Volumes.SetThenGet | cmd/daemon/controls.go:651-653 | for 1 to 32768 steps every setting reads back as itself, float hop included, without 32-bit overflow |
| Volumes.RelativeMoves | cmd/daemon/player.go:524-528 | a relative request moves by its delta and clamps exactly while the sum fits an int32; beyond that the volume goes to zero |
| Volumes.RelativeThenGet | cmd/daemon/player.go:521-534 | and what it moved to is what is read back |
| Volumes.Player.UpdateVolume | cmd/daemon/controls.go:656-673 | the channel holds the clamped new value, an older one replaced |
| Volumes.Player.SetVolume | cmd/daemon/player.go:521-534 | absolute or relative and clamped target, sent on |
| Volumes.Player.OnVolumeUpdate | cmd/daemon/player.go:610-617 | the device volume is the rounded value from the channel, and exactly the value sent when updateVolume sent it |
| SeekTables.BuildTable | vorbis/metadata.go:129-146 | the cumulative table, ascending and within int32 |
| SeekTables.CumulativeIsSum | vorbis/metadata.go:133-145 | an entry is the sum of the increments up to it less the looked-up offset |
| SeekTables.InterpolateExactly | vorbis/metadata.go:208-219 | from k to k + 1 percent a straight line from entry k - 1 to entry k, joints included; the first and last line go on outside |
| SeekTables.SeekAtPercent | vorbis/metadata.go:207-228 | at exactly k percent of the samples the byte position is that of entry k - 1, rounded down, and not below zero |
| SeekTables.WholeFile | vorbis/metadata.go:222 | an entry of 65536 is the whole file below sixteen million bytes |
| SeekTables.InterpolateMonotone | vorbis/metadata.go:208-219 | interpolation does not decrease within segments, across joints and at the clamped ends |
| SeekTables.SeekMonotone | vorbis/metadata.go:207-228 | a later sample never maps to an earlier byte |
| Hashcash.CheckHashcash | login5/hashcash.go:12-27 | true exactly for a non-empty hash whose number is divisible by 2^length with length at most its bits, or for length at most zero |
| Hashcash.IncrementHashcash | login5/hashcash.go:29-34 | big-endian plus one with wrap-around on the bytes up to the index, the others untouched |
| Positional.IncrementValue | login5/hashcash.go:29-34 | counting up in place adds one to the number, modulo its width |
| Positional.ValueFixed | ids.go:110 | a number that fits reads back from its fixed-width bytes |
| Positional.ValueMinimal | dh/dh.go:50 | a number reads back from its minimal bytes |

## Left out

- HTTP, websockets, TCP, retries, backoff, deadlines, token renewal and OAuth: plumbing around the modelled logic.
- audio/provider.go: the correlation protocol of Mercury again, with a 32-bit counter.
- The search loop of login5/hashcash.go:36-62: its hasher is not reset between attempts, so a returned suffix need not solve the challenge.
- Vorbis and Ogg decoding, ALSA, PulseAudio, AudioToolbox and pipe outputs, gain factors: foreign calls and sample arithmetic.
- Building a context resolver (spclient/context_resolver.go:51-82), guessing whether its tracks are complete, and the autoplay marks it sets.
- ContextTrackToProvidedTrack (ids.go:23-51): views are sequences of context tracks, before conversion.
- Key derivation, checksum and decryption of the login blob (zeroconf/zeroconf.go:131-180), and the HTTP status codes: handlers enter the model once those checks have passed.
- Aliasing of tracks: they are values here, so marking a queued track cannot change a track shared with a page.
- Liveness: of chunk waiters, of Mercury requests that time out, and of login handlers whose serving loop has ended.
- Paging.ScanFindsFirst: speaks of networks whose chains of next-page links are finite, because otherwise iterating to the end does not end.
- TrackRuns.ReachableInvariant: claims page order for runs whose re-reads are for tracks the list holds; the exact condition over all runs is `TrackStale.PageOrderExactly`.
- MercuryFrames.PayloadRoundTrip: speaks of bytes that no packet can hold; what a connection carries is `MercuryLoop.RequestCarried`.
- TrackLists.AddedLast: the source marks the shared track object in place, the model a copy of the value.
- PlaybackLists.List.AddToQueue: the same.
- ChunkedReaders.HttpChunkedReader.ReadAt: states bytes and counts, not the io.ReaderAt convention that a short read carries an error, which the code does not follow.
- ChunkedReaders.HttpChunkedReader.FetchChunk: takes what other goroutines do, and waiting for them, as one oracle step before its own; `ChunkFetching.OthersMeddle` shows that any run of theirs is such a step.  A waiter that never returns is not represented here but by `ChunkFetching.StuckForGood`.
- ChunkedReaders.HttpChunkedReader.constructor: begins after the first range request has been answered and its Content-Range parsed; without an answer there is no reader.
- KeyExchange.DiffieHellman.constructor: begins after the 95 random bytes have been read.
- ShannonConns.FifoDelivery: speaks of runs in which a receive waits for its packet to be in flight; after a short read the nonces are out of step, as `ShannonConns.ShannonConn.ReceivePacket` shows.
- MercuryLoop.AnsweredExactlyOnce: speaks of up to 2^64 requests, after which the counter reuses numbers.
- SeekTables.SeekMonotone: over the reals; float rounding and the conversion of relative positions beyond int32 are not modelled.
- SeekTables.BuildTable: the 256 increments are a parameter, since nothing depends on their values.
- Volumes.Player.UpdateVolume: without the call that sets the player's own volume.
- Volumes.Player.OnVolumeUpdate: a negative float, whose conversion to uint32 Go leaves open, is taken modulo 2^32; which floats the outputs' mixers send (output/mixer-alsa.go:64) is not modelled.
- Volumes.HopExact: each float operation has any relative error up to 2^-24; the 64-bit division in apiVolume is taken as exact.
