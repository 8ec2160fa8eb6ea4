# Pocketeno synchronisation core, in Dafny

This project models the client-side synchronisation core of the Pocketeno
chat client. The client mirrors the messages of a chat backend and emits
`ready`, `discovered`, `created` and `reacted` events. The model covers:

- **The reconciliation engine** of `PocketClient` (`Reconcile`). The reaction
  diff `#exclude` is `Exclude`/`ExcludeReactions`. `sync` is `Sync`, which
  returns the events it emits and the client it leaves behind. `heart` and
  `poop` return the PATCH request they send.
- **The realtime transport** (`Frames`, `Transports.Dispatch`,
  `Transports.Realtime`). This is the per-chunk decoder of the event stream
  and the frame loop that subscribes on `PB_CONNECT` and synchronises every
  other frame.
- **The polling transport** (`Transports.Poll`). Its first page is synced
  with cause update, then `ready` is emitted, then every tick's page is
  synced with cause create.
- **The small rules** around these. `Retrieval` holds the page-size check of
  `retrieveMessages`/`retrieveUsers`. `Actions.UpdateReactions` picks the
  request body, and poops win over hearts. `Normalize` holds the raw-to-domain
  mapping (`nicifyEntity`, `nicifyUser`, `nicifyMessage`).

Everything is immutable data and pure functions.

- Each emitted event is an element of a returned list.
- Each network response is an input. The subscription status is the function
  `confirm`. The pages are given lists.
- `JSON.parse` is the parameter `parse`, which returns `None` where the
  source throws.
- `Date.parse` is the parameter `parseDate`.

A transport run (`Run`) records three things: the client it ends with, what it
did in order (subscription requests and emitted events), and the error that
ended it, if any.

The mirror (`messages`) is only read by `sync`. The source never writes it,
and the model keeps it that way:

- `Sync` returns its client unchanged.
- Both transports thread the client through every step and prove it
  unchanged at the end.
- Therefore a message whose id was never seeded is "discovered" on every
  observation (`DiscoveredPerUnseenObservation`).
- Polling re-creates every unseen message on every tick and never reports a
  reaction after `ready` (`StablePageRecreated`, `Poll`).

Details of the frame decoder that the model keeps:

- A chunk needs at least three lines; any lines after the third are
  ignored (`ExtraLinesIgnored`).
- The decoder drops the first 3, 6 and 5 characters of the first three
  lines, whatever those characters are. `EncodeFrame` uses the server's
  `id:`, `event:` and `data:` prefixes only to state the round trip.
- The connection frame's payload is `{clientId}`, not `{action, record}`. It
  is therefore decoded as `OtherJson` and ignored. A data frame without a
  record ends the connection with `MalformedRecord`, because `nicifyMessage`
  throws on it inside the frame loop.

## Model

| member | source | states |
|---|---|---|
| Reconcile.Exclude | pocket-api.ts:85-90 | an entry is in the diff exactly when it is in `from` and its id matches no id of `values`; the diff is never longer than `from` |
| Reconcile.ExcludeReactions | pocket-api.ts:85-90 | hearts are diffed only against hearts and poops only against poops: an entry is kept iff it is in that category of `from` and its id matches no id in the same category of `values` |
| Reconcile.ExcludeCounts | pocket-api.ts:87-88 | an entry whose id is absent from `values` occurs in the diff as often as in `from`; any other entry does not occur at all |
| Reconcile.ExcludeAppend | pocket-api.ts:87-88 | the diff is a filter: it distributes over concatenation of its left list, so the order of `from` is kept |
| Reconcile.ExcludeNothing | pocket-api.ts:87-88 | diffing against an empty list returns the list unchanged |
| Reconcile.ExcludeCovered | pocket-api.ts:87-88 | a list whose ids all occur in `values` diffs to nothing |
| Reconcile.ExcludeSelf | pocket-api.ts:87-88 | a list diffed against itself is empty |
| Reconcile.ExcludeReactionsIdentities | pocket-api.ts:85-90 | `#exclude(x, x)` has no hearts and no poops; `#exclude(x, {[], []})` is `x` |
| Reconcile.Sync | pocket-api.ts:92-107 | mirror unchanged; every event is about the message; order reacted, discovered, created; a `reacted` first iff cause is update; `discovered` iff the id is not mirrored; `created` iff not mirrored and cause is create |
| Reconcile.SyncUpdateUnseen | pocket-api.ts:93-102 | an update of an unmirrored message reports all its reactions as added and none removed, then discovers it |
| Reconcile.SyncUpdateKnown | pocket-api.ts:93-100 | an update of a mirrored message emits only `reacted`, with added = new minus mirrored and removed = mirrored minus new |
| Reconcile.SyncUpdateUnchanged | pocket-api.ts:94-100 | `reacted` fires with empty deltas when the reactions did not change |
| Reconcile.SyncCreate | pocket-api.ts:101-106 | a create of an unmirrored message gives `discovered` then `created`; of a mirrored one, nothing |
| Reconcile.SyncDeltaExample | pocket-api.ts:95-99 | mirrored hearts [A, B] and observed [B, C] give added hearts [C] and removed hearts [A] |
| Reconcile.SyncMany | pocket-api.ts:92-107 | a sequence of syncs leaves the mirror unchanged, never emits `ready`, and emits `reacted` only for update observations |
| Reconcile.SyncManyIsSyncEach | pocket-api.ts:92-107 | because the mirror is never written, a sequence of syncs emits the same as syncing each observation against the initial mirror |
| Reconcile.SyncDiscoversOnce | pocket-api.ts:101-102 | one sync emits one `discovered` for an unmirrored id and none for a mirrored one |
| Reconcile.DiscoveredPerUnseenObservation | pocket-api.ts:101-102 | over any sequence of syncs, the number of `discovered` events equals the number of observations of unmirrored ids |
| Reconcile.RepeatedSyncRediscovers | pocket-api.ts:101-102 | observing the same unmirrored message twice discovers it twice |
| Reconcile.Heart | pocket-api.ts:79-83 | sends only hearts, for that message with the caller's token: the message's heart ids followed by the caller's id |
| Reconcile.Poop | pocket-api.ts:73-77 | sends only poops, for that message with the caller's token: the message's poop ids followed by the caller's id |
| Reconcile.HeartAppendsCaller | pocket-api.ts:79-83 | the sent heart list is one longer, has the old ids as prefix, ends with the caller, and is not deduplicated |
| Reconcile.PoopAppendsCaller | pocket-api.ts:73-77 | the sent poop list is one longer, has the old ids as prefix, ends with the caller, and is not deduplicated |
| Reconcile.HeartEchoReacts | pocket-api.ts:79-99 | for a caller who has not hearted the message yet: if the backend echoes the sent heart list as an update and the mirror holds the old message, the delta is exactly the caller's heart added and nothing removed |
| Reconcile.RepeatedHeartIsSilent | pocket-api.ts:79-99 | `heart` does not deduplicate, so for a caller who has already hearted the message the echoed update is a `reacted` with nothing added and nothing removed |
| Actions.UpdateReactions | pocket-internal.ts:246-256 | never sends both categories; a given poops list wins and is sent as its ids in order; otherwise given hearts are sent; otherwise the body is empty |
| Normalize.NicifyEntity | pocket-internal.ts:33-45 | keeps the id, builds the collection from id and name, parses both timestamps |
| Normalize.NicifyUser | pocket-internal.ts:54-64 | the entity part is `nicifyEntity` of the raw record (id, collection, parsed timestamps); `username` becomes the name; the three status flags are grouped |
| Normalize.NicifyMessage | pocket-internal.ts:76-86 | the entity part is `nicifyEntity` of the raw record; keeps the text; author is the expanded user if present, else a bare reference to `user`; the reaction lists are bare references whose ids are exactly the raw id lists |
| Normalize.NicifyAll | pocket-internal.ts:90-101 | normalises every item of a page, in order |
| Retrieval.RetrieveMessages | pocket-internal.ts:140-152 | fails with the page-size error iff perPage is outside 1..500; otherwise a failed response is an error, and a fetched page always succeeds with its items normalised in order |
| Retrieval.RetrieveUsers | pocket-internal.ts:165-177 | the same page-size rule and outcomes for the user listing |
| Retrieval.PageSizeCheckedBeforeFetch | pocket-internal.ts:141-143 | with an out-of-range page size the outcome does not depend on the response, because no request is made |
| Text.Split | pocket-internal.ts:203 | `split("\n")` yields at least one piece, and no piece contains a line break |
| Text.SplitCount | pocket-internal.ts:203 | a chunk has one more piece than line breaks |
| Text.SplitAppend | pocket-internal.ts:203 | splitting at a line break splits both sides independently |
| Text.SplitWithoutSeparator | pocket-internal.ts:203 | a string without line breaks is one piece |
| Text.SplitJoin | pocket-internal.ts:203 | joining the pieces with line breaks gives back the chunk |
| Text.JoinSplit | pocket-internal.ts:203 | splitting a join of line-free pieces gives back the pieces |
| Text.SliceFrom | pocket-internal.ts:205-207 | `slice(n)` drops the first n characters, or gives the empty string when the line is shorter |
| Frames.DecodeChunk | pocket-internal.ts:201-212 | an empty chunk yields nothing; a frame is yielded iff the chunk has at least three lines and the third without its first 5 characters parses; its id, type and data are then the first line without 3 characters, the second without 6, and that parse |
| Frames.TooFewLinesDropped | pocket-internal.ts:202-211 | a chunk with fewer than two line breaks never yields a frame |
| Frames.EncodedLines | pocket-internal.ts:203 | an encoded frame whose fields hold no line break splits into exactly its three prefixed lines |
| Frames.DecodeEncodedFrame | pocket-internal.ts:203-208 | decoding `id:…`, `event:…`, `data:…` gives back the id and type and the parse of the data, or nothing when the data does not parse |
| Frames.ExtraLinesIgnored | pocket-internal.ts:203-208 | lines after the third do not change the decoded frame |
| Frames.DecodeStream | pocket-internal.ts:200-213 | yields at most one frame per chunk, and each frame is the decoding of some chunk |
| Frames.DecodeStreamOne | pocket-internal.ts:201-211 | a single chunk contributes exactly its decoded frame, or nothing when it does not decode |
| Frames.DecodeStreamAppend | pocket-internal.ts:200-213 | what one part of the stream yields never depends on another part |
| Frames.MalformedChunkSkipped | pocket-internal.ts:209-211 | a chunk that fails to decode is skipped and the chunks around it decode as if it were absent |
| Frames.TwoFramesDecoded | pocket-internal.ts:200-213 | a connection frame and a data frame yield exactly those two frames |
| Transports.Dispatch | pocket-internal.ts:214-230 | the mirror is unchanged; a run ends early only on a rejected subscription or a data frame without a record; a rejected subscription ends the trace with its request, whose status is not 204 |
| Transports.RecordlessDataFrameAborts | pocket-internal.ts:227-228 | a non-connection frame without an `{action, record}` payload ends the run with the malformed-record error, emitting nothing and reading no later frame |
| Transports.DispatchReadyOnlyAfterAccepted | pocket-internal.ts:215-226 | `ready` is emitted only right after a subscription request confirmed with 204, and every request subscribes to "messages" |
| Transports.DispatchAppend | pocket-internal.ts:214-230 | frames are handled strictly in order, and nothing after an aborting frame is handled |
| Transports.DataFramesSynced | pocket-internal.ts:227-228 | each data frame leads to exactly one sync of its normalised record with its action, in arrival order |
| Transports.HandshakeRejected | pocket-internal.ts:215-225 | a connection frame whose subscription is not confirmed with 204 ends the run after the request with that status, and `ready` never fires |
| Transports.HandshakeAccepted | pocket-internal.ts:215-228 | a confirmed connection frame subscribes with its id to "messages", emits `ready`, then syncs the following data frames |
| Transports.Realtime | pocket-internal.ts:196-231 | a realtime run never changes the mirror |
| Transports.RealtimeConnectThenData | pocket-internal.ts:196-230 | on the wire, a connection frame and a data frame give the subscription, `ready`, and the events of one sync |
| Transports.Ticks | pocket-internal.ts:185-187 | polling ticks never change the mirror and never emit `ready` or `reacted` |
| Transports.Poll | pocket-internal.ts:181-188 | fails with no events iff the page length is outside 1..500 or the first page fails, and a failed first page of valid size gives the retrieval error; otherwise `ready` is emitted once and no `reacted` follows it; the mirror is unchanged |
| Transports.PollDefaultLength | pocket-internal.ts:182 | without a length, polling reads pages of 10 |
| Transports.PollRejectsPageSize | pocket-internal.ts:182-183 | a page length outside 1..500 fails with the page-size error before any event |
| Transports.PollOrder | pocket-internal.ts:181-187 | seed items are synced with update in page order, then `ready`, then every item of every tick is synced with create |
| Transports.CreatedForEachUnseen | pocket-api.ts:101-106 | syncing a page with cause create reports every unmirrored message as created |
| Transports.StablePageRecreated | pocket-internal.ts:185-187 | two ticks of the same page emit the same block twice; it holds no `reacted` and re-creates every unmirrored message |

## Left out

- A retrieval whose fetch rejects, whose body is not JSON, or whose page holds an item without `hearts` or `poops` (pocket-internal.ts:144-151, 169-176, 98) is left out. The source then rejects with that error, and `connectPolling` rejects at pocket-internal.ts:183 before anything is emitted. The model's response is either a page of well-formed records or a non-success status.
- HTTP calls are network I/O and are not modelled: `authenticate`, `register`, `retrieveMessage`, `retrieveUser`, `sendMessage` (and `send`, which only delegates to it), the endpoint and header constants, the 60-second request timeouts, and the fetch that opens the realtime stream. The model keeps only their outcomes as inputs: the subscription status, page responses and frames.
- `TextDecoderStream` and `TextDelimiterStream` are library code. The realtime input is the stream already cut at blank lines, a finite prefix of an unbounded stream.
- The failure of the reaction PATCH (pocket-internal.ts:266-268) is left out: `Heart` and `Poop` state the request, not its response.
- A network failure of the subscription POST (pocket-internal.ts:216-222) is left out; only the status of a completed request is an input.
- `nicifyCollection` (pocket-internal.ts:90-100) also copies `perPage`, `page`, `totalPages` and `totalItems` from the response. The retrievals return only the items, because only the items reach the mirror and the events.
- The run-level theorems assume that no listener writes the public `messages` field (pocket-api.ts:67) while events are emitted. A listener can do so in JavaScript. In the model the mirror is an input that no operation writes.
- `JSON.parse` and `Date.parse` are parameters. A `NaN` or fractional timestamp cannot be represented.
- Logging of dropped chunks with `console.error` is a side effect and is left out. Dropping the chunk is modelled.
- The `setInterval` timer is left out, including its default 10000 ms interval. Ticks are a finite list of successfully fetched pages. A tick whose fetch fails is left out, because its rejection escapes the timer callback into the runtime.
- The event emitter is left out. Its listeners are replaced by the returned list of effects.
- Realtime actions other than `create` and `update` are left out. The declared payload type admits only these two causes, so `Json` has no constructor for another action.
- `messages` is a plain `Record`, and a lookup by a key inherited from the object prototype would find a value. The model's map has no such keys.
- JavaScript strings are UTF-16 code units, and Dafny's `char` is a Unicode scalar value. This matters only for non-ASCII text at the very start of a line, and the line prefixes are ASCII.
- `perPage` is an `int`. A JavaScript `NaN` or fractional page size is left out.
- `UserRef` has two shapes: a bare `{ id }` or a complete user. These are the only shapes the client builds. An arbitrary partial user is not modelled.
