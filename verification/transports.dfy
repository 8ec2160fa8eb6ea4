/** The two transports of pocket-internal.ts that feed the reconciliation
    engine: the realtime stream (`connectRealtime`) and polling
    (`connectPolling`). Network responses are inputs: the subscription
    status is `confirm`, the pages are given lists. A run returns the client
    it ends with, what it did in order, and the error that ended it, if any. */
module Transports {
  import opened Results
  import opened Model
  import opened Reconcile
  import Normalize
  import Frames
  import Retrieval

  /** The body of the subscription request. */
  datatype Subscription = Subscription(clientId: string, subscriptions: seq<string>)

  /** What a transport does, in order: a subscription request or an emitted
      event. */
  datatype Effect = Subscribe(request: Subscription) | Emit(event: Event)

  datatype Run = Run(client: Client, trace: seq<Effect>, error: Option<Error>)

  const ConnectType := "PB_CONNECT"
  const Channel := "messages"
  const NoContent := 204
  const DefaultLength := 10

  function Emits(events: seq<Event>): (effects: seq<Effect>)
    ensures |effects| == |events|
    ensures forall i :: 0 <= i < |events| ==> effects[i] == Emit(events[i])
  {
    seq(|events|, i requires 0 <= i < |events| => Emit(events[i]))
  }

  lemma EmitsAppend(a: seq<Event>, b: seq<Event>)
    ensures Emits(a + b) == Emits(a) + Emits(b)
  {
  }

  /** A run preceded by some effects. */
  function Then(prefix: seq<Effect>, run: Run): (prefixed: Run) {
    Run(run.client, prefix + run.trace, run.error)
  }

  // ---------- Realtime ----------

  /** The frame loop: a connection frame issues a subscription for its id
      and either aborts on a status other than 204 or emits `ready`; any
      other frame is synchronised with its action. A non-connection frame
      without a message record aborts, as normalising it throws. */
  function Dispatch(
    client: Client, frames: seq<Frames.Frame>, confirm: Subscription -> int, parseDate: string -> int)
    : (run: Run)
    ensures run.client == client
    ensures run.error.Some? ==> run.error.value.InvalidSubscription? || run.error.value == MalformedRecord
    ensures run.error.Some? && run.error.value.InvalidSubscription? ==>
              && run.error.value.status != NoContent
              && |run.trace| > 0
              && run.trace[|run.trace| - 1].Subscribe?
              && confirm(run.trace[|run.trace| - 1].request) == run.error.value.status
    decreases |frames|
  {
    if |frames| == 0 then Run(client, [], None)
    else
      var f := frames[0];
      if f.kind == ConnectType then
        var request := Subscription(f.id, [Channel]);
        var status := confirm(request);
        if status != NoContent then Run(client, [Subscribe(request)], Some(InvalidSubscription(status)))
        else Then([Subscribe(request), Emit(Ready)], Dispatch(client, frames[1..], confirm, parseDate))
      else
        match f.data
        case OtherJson => Run(client, [], Some(MalformedRecord))
        case DataPayload(action, record) =>
          var step := Sync(client, Normalize.NicifyMessage(record, parseDate), action);
          Then(Emits(step.events), Dispatch(step.client, frames[1..], confirm, parseDate))
  }

  /** A non-connection frame whose payload is not `{ action, record }`
      ends the run at once: normalising the missing record throws out of
      the frame loop, so nothing is emitted and later frames are not read. */
  lemma RecordlessDataFrameAborts(
    client: Client, f: Frames.Frame, rest: seq<Frames.Frame>, confirm: Subscription -> int, parseDate: string -> int)
    requires f.kind != ConnectType && f.data.OtherJson?
    ensures Dispatch(client, [f] + rest, confirm, parseDate) == Run(client, [], Some(MalformedRecord))
  {
  }

  /** `ready` is only ever emitted right after a subscription request whose
      confirmation was 204. */
  predicate ReadyOnlyAfterAccepted(trace: seq<Effect>, confirm: Subscription -> int) {
    forall i :: 0 <= i < |trace| && trace[i] == Emit(Ready) ==>
      0 < i && trace[i - 1].Subscribe? && confirm(trace[i - 1].request) == NoContent
  }

  /** Every subscription request asks for the "messages" channel. */
  predicate SubscribesToMessages(trace: seq<Effect>) {
    forall e :: e in trace && e.Subscribe? ==> e.request.subscriptions == [Channel]
  }

  lemma ReadyOnlyAfterAcceptedAppend(a: seq<Effect>, b: seq<Effect>, confirm: Subscription -> int)
    requires ReadyOnlyAfterAccepted(a, confirm) && ReadyOnlyAfterAccepted(b, confirm)
    ensures ReadyOnlyAfterAccepted(a + b, confirm)
  {
    forall i | 0 <= i < |a + b| && (a + b)[i] == Emit(Ready)
      ensures 0 < i && (a + b)[i - 1].Subscribe? && confirm((a + b)[i - 1].request) == NoContent
    {
      if i >= |a| {
        assert b[i - |a|] == Emit(Ready);
      }
    }
  }

  lemma {:induction false} DispatchReadyOnlyAfterAccepted(
    client: Client, frames: seq<Frames.Frame>, confirm: Subscription -> int, parseDate: string -> int)
    ensures ReadyOnlyAfterAccepted(Dispatch(client, frames, confirm, parseDate).trace, confirm)
    ensures SubscribesToMessages(Dispatch(client, frames, confirm, parseDate).trace)
    decreases |frames|
  {
    if |frames| > 0 {
      var f := frames[0];
      if f.kind == ConnectType {
        if confirm(Subscription(f.id, [Channel])) == NoContent {
          DispatchReadyOnlyAfterAccepted(client, frames[1..], confirm, parseDate);
          var prefix := [Subscribe(Subscription(f.id, [Channel])), Emit(Ready)];
          assert ReadyOnlyAfterAccepted(prefix, confirm);
          PrefixKeepsTraceProperties(prefix, Dispatch(client, frames[1..], confirm, parseDate).trace, confirm);
        }
      } else if f.data.DataPayload? {
        var step := Sync(client, Normalize.NicifyMessage(f.data.record, parseDate), f.data.action);
        DispatchReadyOnlyAfterAccepted(step.client, frames[1..], confirm, parseDate);
        EmitsKeepTraceProperties(step.events, confirm);
        PrefixKeepsTraceProperties(
          Emits(step.events), Dispatch(step.client, frames[1..], confirm, parseDate).trace, confirm);
      }
    }
  }

  lemma EmitsKeepTraceProperties(events: seq<Event>, confirm: Subscription -> int)
    requires forall e :: e in events ==> !e.Ready?
    ensures ReadyOnlyAfterAccepted(Emits(events), confirm)
    ensures SubscribesToMessages(Emits(events))
  {
    assert forall i :: 0 <= i < |events| ==> events[i] in events;
  }

  lemma PrefixKeepsTraceProperties(prefix: seq<Effect>, rest: seq<Effect>, confirm: Subscription -> int)
    requires ReadyOnlyAfterAccepted(prefix, confirm) && SubscribesToMessages(prefix)
    requires ReadyOnlyAfterAccepted(rest, confirm) && SubscribesToMessages(rest)
    ensures ReadyOnlyAfterAccepted(prefix + rest, confirm) && SubscribesToMessages(prefix + rest)
  {
    ReadyOnlyAfterAcceptedAppend(prefix, rest, confirm);
  }

  /** `connectRealtime` over the stream's chunks. */
  function Realtime(
    client: Client, chunks: seq<string>, parse: string -> Option<Frames.Json>,
    confirm: Subscription -> int, parseDate: string -> int)
    : (run: Run)
    ensures run.client == client
  {
    Dispatch(client, Frames.DecodeStream(chunks, parse), confirm, parseDate)
  }

  /** Frames are handled strictly in order, and nothing after the frame that
      aborts is handled at all. */
  lemma {:induction false} DispatchAppend(
    client: Client, a: seq<Frames.Frame>, b: seq<Frames.Frame>,
    confirm: Subscription -> int, parseDate: string -> int)
    ensures Dispatch(client, a + b, confirm, parseDate) ==
              Sequenced(Dispatch(client, a, confirm, parseDate), Dispatch(client, b, confirm, parseDate))
    decreases |a|
  {
    if |a| == 0 {
      assert a + b == b;
    } else {
      assert (a + b)[0] == a[0];
      assert (a + b)[1..] == a[1..] + b;
      DispatchAppend(client, a[1..], b, confirm, parseDate);
      DispatchAppendStep(client, a, b, confirm, parseDate);
    }
  }

  /** A run followed by another one, unless the first one aborted. */
  function Sequenced(first: Run, next: Run): (both: Run) {
    if first.error.Some? then first else Then(first.trace, next)
  }

  lemma SequencedThen(prefix: seq<Effect>, first: Run, next: Run)
    ensures Sequenced(Then(prefix, first), next) == Then(prefix, Sequenced(first, next))
  {
    if first.error.None? {
      assert prefix + (first.trace + next.trace) == (prefix + first.trace) + next.trace;
    }
  }

  /** The inductive step of `DispatchAppend`: the first frame of `a`. */
  lemma DispatchAppendStep(
    client: Client, a: seq<Frames.Frame>, b: seq<Frames.Frame>,
    confirm: Subscription -> int, parseDate: string -> int)
    requires |a| > 0 && (a + b)[0] == a[0] && (a + b)[1..] == a[1..] + b
    requires Dispatch(client, a[1..] + b, confirm, parseDate) ==
               Sequenced(Dispatch(client, a[1..], confirm, parseDate), Dispatch(client, b, confirm, parseDate))
    ensures Dispatch(client, a + b, confirm, parseDate) ==
              Sequenced(Dispatch(client, a, confirm, parseDate), Dispatch(client, b, confirm, parseDate))
  {
    var f := a[0];
    var rest := Dispatch(client, a[1..], confirm, parseDate);
    var later := Dispatch(client, b, confirm, parseDate);
    if f.kind == ConnectType {
      if confirm(Subscription(f.id, [Channel])) == NoContent {
        SequencedThen([Subscribe(Subscription(f.id, [Channel])), Emit(Ready)], rest, later);
      }
    } else if f.data.DataPayload? {
      var step := Sync(client, Normalize.NicifyMessage(f.data.record, parseDate), f.data.action);
      SequencedThen(Emits(step.events), rest, later);
    }
  }

  predicate IsDataFrame(f: Frames.Frame) {
    f.kind != ConnectType && f.data.DataPayload?
  }

  /** The observations a list of data frames stands for, in order. */
  function FrameObservations(frames: seq<Frames.Frame>, parseDate: string -> int): (obs: seq<Observation>)
    requires forall k :: 0 <= k < |frames| ==> IsDataFrame(frames[k])
    ensures |obs| == |frames|
  {
    seq(|frames|, i requires 0 <= i < |frames| && IsDataFrame(frames[i]) =>
      Observation(Normalize.NicifyMessage(frames[i].data.record, parseDate), frames[i].data.action))
  }

  /** Each data frame leads to exactly one `sync` of its normalised record
      with its action, in arrival order. */
  lemma {:induction false} DataFramesSynced(
    client: Client, frames: seq<Frames.Frame>, confirm: Subscription -> int, parseDate: string -> int)
    requires forall k :: 0 <= k < |frames| ==> IsDataFrame(frames[k])
    ensures Dispatch(client, frames, confirm, parseDate) ==
              Run(client, Emits(SyncMany(client, FrameObservations(frames, parseDate)).events), None)
    decreases |frames|
  {
    if |frames| > 0 {
      var obs := FrameObservations(frames, parseDate);
      DataFramesSynced(client, frames[1..], confirm, parseDate);
      assert FrameObservations(frames[1..], parseDate) == obs[1..];
      var step := Sync(client, obs[0].message, obs[0].cause);
      EmitsAppend(step.events, SyncMany(client, obs[1..]).events);
    }
  }

  /** A rejected subscription ends the run with its status, right after the
      request, and `ready` never fires. */
  lemma HandshakeRejected(
    client: Client, frames: seq<Frames.Frame>, confirm: Subscription -> int, parseDate: string -> int)
    requires |frames| > 0 && frames[0].kind == ConnectType
    requires confirm(Subscription(frames[0].id, ["messages"])) != 204
    ensures var run := Dispatch(client, frames, confirm, parseDate);
            && run.trace == [Subscribe(Subscription(frames[0].id, ["messages"]))]
            && run.error == Some(InvalidSubscription(confirm(Subscription(frames[0].id, ["messages"]))))
            && Emit(Ready) !in run.trace
  {
  }

  /** An accepted subscription for the connection frame's id emits `ready`,
      then every following data frame is synchronised in order. */
  lemma HandshakeAccepted(
    client: Client, connect: Frames.Frame, data: seq<Frames.Frame>,
    confirm: Subscription -> int, parseDate: string -> int)
    requires connect.kind == ConnectType
    requires confirm(Subscription(connect.id, ["messages"])) == 204
    requires forall k :: 0 <= k < |data| ==> IsDataFrame(data[k])
    ensures Dispatch(client, [connect] + data, confirm, parseDate) ==
              Run(client,
                  [Subscribe(Subscription(connect.id, ["messages"])), Emit(Ready)]
                    + Emits(SyncMany(client, FrameObservations(data, parseDate)).events),
                  None)
  {
    assert ([connect] + data)[1..] == data;
    DataFramesSynced(client, data, confirm, parseDate);
  }

  /** End to end: a connection frame and a data frame on the wire give the
      subscription, `ready`, and the events of one `sync`. */
  lemma RealtimeConnectThenData(
    client: Client, sessionId: string, connectData: string,
    id: string, kind: string, data: string, action: SyncCause, record: Normalize.RawMessage,
    parse: string -> Option<Frames.Json>, confirm: Subscription -> int, parseDate: string -> int)
    requires '\n' !in sessionId && '\n' !in connectData
    requires '\n' !in id && '\n' !in kind && '\n' !in data
    requires kind != "PB_CONNECT"
    requires parse(connectData).Some? && parse(data) == Some(Frames.DataPayload(action, record))
    requires confirm(Subscription(sessionId, ["messages"])) == 204
    ensures Realtime(client,
                     [Frames.EncodeFrame(sessionId, "PB_CONNECT", connectData), Frames.EncodeFrame(id, kind, data)],
                     parse, confirm, parseDate)
            == Run(client,
                   [Subscribe(Subscription(sessionId, ["messages"])), Emit(Ready)]
                     + Emits(Sync(client, Normalize.NicifyMessage(record, parseDate), action).events),
                   None)
  {
    Frames.TwoFramesDecoded(sessionId, connectData, id, kind, data, parse);
    var connect := Frames.Frame(sessionId, "PB_CONNECT", parse(connectData).value);
    var frame := Frames.Frame(id, kind, Frames.DataPayload(action, record));
    HandshakeAccepted(client, connect, [frame], confirm, parseDate);
    var obs := FrameObservations([frame], parseDate);
    assert obs == [Observation(Normalize.NicifyMessage(record, parseDate), action)];
    assert obs[1..] == [];
  }

  // ---------- Polling ----------

  /** The ticks after the seed: every item of every page synchronised with
      cause create, threading the client. Each tick re-reads a page of the
      same, already validated, length. */
  function Ticks(client: Client, pages: seq<seq<Normalize.RawMessage>>, parseDate: string -> int): (r: SyncResult)
    ensures r.client == client
    ensures forall e :: e in r.events ==> !e.Ready? && !e.Reacted?
    decreases |pages|
  {
    if |pages| == 0 then SyncResult(client, [])
    else
      var tick := SyncMany(client, Observe(Normalize.NicifyAll(pages[0], parseDate), Create));
      var rest := Ticks(tick.client, pages[1..], parseDate);
      SyncResult(rest.client, tick.events + rest.events)
  }

  /** Every message of a list observed with one cause. */
  function Observe(ms: seq<Message>, cause: SyncCause): (obs: seq<Observation>)
    ensures |obs| == |ms|
    ensures forall i :: 0 <= i < |ms| ==> obs[i] == Observation(ms[i], cause)
  {
    seq(|ms|, i requires 0 <= i < |ms| => Observation(ms[i], cause))
  }

  /** `ready` occurs at most once, and no `reacted` event follows it. */
  predicate NoReactionAfterReady(trace: seq<Effect>) {
    forall i, j :: 0 <= i < j < |trace| && trace[i] == Emit(Ready) ==>
      trace[j] != Emit(Ready) && !(trace[j].Emit? && trace[j].event.Reacted?)
  }

  lemma SeedReadyTicks(seeded: seq<Event>, polled: seq<Event>)
    requires forall e :: e in seeded ==> !e.Ready?
    requires forall e :: e in polled ==> !e.Ready? && !e.Reacted?
    ensures NoReactionAfterReady(Emits(seeded) + [Emit(Ready)] + Emits(polled))
  {
    var before := Emits(seeded);
    var after := Emits(polled);
    var trace := before + [Emit(Ready)] + after;
    assert forall i :: 0 <= i < |before| ==> seeded[i] in seeded;
    assert forall i :: 0 <= i < |before| ==> trace[i] == before[i];
    assert forall j :: |before| < j < |trace| ==> trace[j] == after[j - |before| - 1];
    assert forall j :: 0 <= j < |after| ==> polled[j] in polled;
  }

  /** `connectPolling`: fetch the first page (10 items unless a length is
      given), synchronise each item with cause update, emit `ready`, then on
      every tick synchronise every item of the page with cause create. */
  function Poll(
    client: Client, length: Option<int>, seed: Retrieval.FetchResult<Normalize.RawMessage>,
    ticks: seq<seq<Normalize.RawMessage>>, parseDate: string -> int)
    : (run: Run)
    ensures run.client == client
    ensures run.error.Some? <==> !Retrieval.ValidPerPage(length.GetOr(10)) || seed.NotOk?
    ensures Retrieval.ValidPerPage(length.GetOr(10)) && seed.NotOk? ==> run.error == Some(RetrievalFailed(Messages))
    ensures run.error.Some? ==> run.trace == []
    ensures run.error.None? ==> Emit(Ready) in run.trace
    ensures NoReactionAfterReady(run.trace)
  {
    var perPage := length.GetOr(DefaultLength);
    match Retrieval.RetrieveMessages(1, perPage, seed, parseDate)
    case Failure(e) => Run(client, [], Some(e))
    case Success(items) =>
      var seeded := SyncMany(client, Observe(items, Update));
      var polled := Ticks(seeded.client, ticks, parseDate);
      SeedReadyTicks(seeded.events, polled.events);
      Run(polled.client, Emits(seeded.events) + [Emit(Ready)] + Emits(polled.events), None)
  }

  /** Without a length, polling reads pages of 10. */
  lemma PollDefaultLength(
    client: Client, seed: Retrieval.FetchResult<Normalize.RawMessage>,
    ticks: seq<seq<Normalize.RawMessage>>, parseDate: string -> int)
    ensures Poll(client, None, seed, ticks, parseDate) == Poll(client, Some(10), seed, ticks, parseDate)
  {
  }

  /** A page length outside 1..500 fails before the first request: no
      event, no `ready`. */
  lemma PollRejectsPageSize(
    client: Client, length: int, seed: Retrieval.FetchResult<Normalize.RawMessage>,
    ticks: seq<seq<Normalize.RawMessage>>, parseDate: string -> int)
    requires length < 1 || length > 500
    ensures Poll(client, Some(length), seed, ticks, parseDate) ==
              Run(client, [], Some(PageSizeOutOfRange(Messages, 1, length)))
  {
  }

  /** The ticks, each item synchronised against the initial client. */
  function TicksEach(client: Client, pages: seq<seq<Normalize.RawMessage>>, parseDate: string -> int): (events: seq<Event>)
    decreases |pages|
  {
    if |pages| == 0 then []
    else SyncEach(client, Observe(Normalize.NicifyAll(pages[0], parseDate), Create))
         + TicksEach(client, pages[1..], parseDate)
  }

  lemma {:induction false} TicksIsTicksEach(client: Client, pages: seq<seq<Normalize.RawMessage>>, parseDate: string -> int)
    ensures Ticks(client, pages, parseDate).events == TicksEach(client, pages, parseDate)
    decreases |pages|
  {
    if |pages| > 0 {
      SyncManyIsSyncEach(client, Observe(Normalize.NicifyAll(pages[0], parseDate), Create));
      TicksIsTicksEach(client, pages[1..], parseDate);
    }
  }

  /** A successful poll: every seed item synchronised with cause update in
      page order, then `ready`, then every item of every tick synchronised
      with cause create, all against the unchanged mirror. */
  lemma PollOrder(
    client: Client, length: Option<int>, items: seq<Normalize.RawMessage>,
    ticks: seq<seq<Normalize.RawMessage>>, parseDate: string -> int)
    requires Retrieval.ValidPerPage(length.GetOr(10))
    ensures Poll(client, length, Retrieval.Fetched(items), ticks, parseDate) ==
              Run(client,
                  Emits(SyncEach(client, Observe(Normalize.NicifyAll(items, parseDate), Update)))
                    + [Emit(Ready)]
                    + Emits(TicksEach(client, ticks, parseDate)),
                  None)
  {
    var seedItems := Normalize.NicifyAll(items, parseDate);
    assert Retrieval.RetrieveMessages(1, length.GetOr(10), Retrieval.Fetched(items), parseDate)
           == Success(seedItems);
    SyncManyIsSyncEach(client, Observe(seedItems, Update));
    TicksIsTicksEach(client, ticks, parseDate);
  }

  /** With cause create, every item whose id the mirror does not hold is
      reported as created. */
  lemma {:induction false} CreatedForEachUnseen(client: Client, ms: seq<Message>)
    ensures forall k :: 0 <= k < |ms| && ms[k].Id() !in client.messages ==>
              Created(ms[k]) in SyncEach(client, Observe(ms, Create))
    decreases |ms|
  {
    if |ms| > 0 {
      var obs := Observe(ms, Create);
      assert Observe(ms[1..], Create) == obs[1..];
      CreatedForEachUnseen(client, ms[1..]);
      forall k | 0 <= k < |ms| && ms[k].Id() !in client.messages
        ensures Created(ms[k]) in SyncEach(client, obs)
      {
        if k > 0 {
          assert ms[1..][k - 1] == ms[k];
        }
      }
    }
  }

  /** Polling the same page twice yields the same block of events twice: no
      `reacted`, and every message the mirror does not hold is created again
      on every tick. */
  lemma StablePageRecreated(client: Client, page: seq<Normalize.RawMessage>, parseDate: string -> int)
    ensures var block := SyncEach(client, Observe(Normalize.NicifyAll(page, parseDate), Create));
            && TicksEach(client, [page, page], parseDate) == block + block
            && (forall e :: e in block ==> !e.Reacted?)
            && (forall k :: 0 <= k < |page| && page[k].entity.id !in client.messages ==>
                  Created(Normalize.NicifyMessage(page[k], parseDate)) in block)
  {
    var ms := Normalize.NicifyAll(page, parseDate);
    var block := SyncEach(client, Observe(ms, Create));
    assert [page, page][1..] == [page];
    assert TicksEach(client, [page], parseDate) == block by {
      assert [page][1..] == [];
    }
    CreatedForEachUnseen(client, ms);
    SyncManyIsSyncEach(client, Observe(ms, Create));
  }
}
