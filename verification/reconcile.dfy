/** The reconciliation engine of `PocketClient` (pocket-api.ts): the mirror
    of known messages, the reaction diff, `sync`, and the two reaction
    intents. Emitted events are returned as a list instead of being pushed
    through an emitter. */
module Reconcile {
  import opened Results
  import opened Model
  import Actions

  /** The client: who is signed in, and the mirror of known messages by id. */
  datatype Client = Client(authorization: Authorization, messages: map<string, Message>)

  /** What one synchronisation step leaves behind: the client and the
      events it emitted, in order. */
  datatype SyncResult = SyncResult(client: Client, events: seq<Event>)

  /** An observed message state and why it was observed. */
  datatype Observation = Observation(message: Message, cause: SyncCause)

  function Lookup(client: Client, id: string): (found: Option<Message>) {
    if id in client.messages then Some(client.messages[id]) else None
  }

  // ---------- Reaction diff ----------

  /** The entries of `from` whose id matches no entry of `values`, in their
      order in `from`, duplicates kept. */
  function Exclude(from: seq<UserRef>, values: seq<UserRef>): (r: seq<UserRef>)
    ensures |r| <= |from|
    ensures forall u :: u in r <==> u in from && u.Id() !in Ids(values)
    decreases |from|
  {
    if |from| == 0 then []
    else
      var rest := Exclude(from[1..], values);
      assert forall u :: u in from <==> u == from[0] || u in from[1..];
      if from[0].Id() in Ids(values) then rest else [from[0]] + rest
  }

  /** Duplicates are kept: an entry whose id is absent from `values` occurs
      as often in the diff as in `from`, any other entry not at all. */
  lemma {:induction false} ExcludeCounts(from: seq<UserRef>, values: seq<UserRef>, u: UserRef)
    ensures multiset(Exclude(from, values))[u] == if u.Id() in Ids(values) then 0 else multiset(from)[u]
    decreases |from|
  {
    if |from| > 0 {
      ExcludeCounts(from[1..], values, u);
      assert from == [from[0]] + from[1..];
      assert multiset(from) == multiset{from[0]} + multiset(from[1..]);
      var rest := Exclude(from[1..], values);
      if from[0].Id() !in Ids(values) {
        assert multiset([from[0]] + rest) == multiset{from[0]} + multiset(rest);
      }
    }
  }

  /** The reaction diff, category by category: hearts are diffed only
      against hearts and poops only against poops. */
  function ExcludeReactions(from: Reactions, values: Reactions): (r: Reactions)
    ensures |r.hearts| <= |from.hearts| && |r.poops| <= |from.poops|
    ensures forall u :: u in r.hearts <==> u in from.hearts && u.Id() !in Ids(values.hearts)
    ensures forall u :: u in r.poops <==> u in from.poops && u.Id() !in Ids(values.poops)
  {
    Reactions(Exclude(from.hearts, values.hearts), Exclude(from.poops, values.poops))
  }

  /** One step of the filter: the head of `from` is kept or dropped. */
  lemma ExcludeHead(from: seq<UserRef>, values: seq<UserRef>)
    requires |from| > 0
    ensures Exclude(from, values) ==
              (if from[0].Id() in Ids(values) then [] else [from[0]]) + Exclude(from[1..], values)
  {
  }

  /** The diff distributes over concatenation of its left operand: it is a
      filter that keeps the order of `from`. */
  lemma {:induction false} ExcludeAppend(a: seq<UserRef>, b: seq<UserRef>, values: seq<UserRef>)
    ensures Exclude(a + b, values) == Exclude(a, values) + Exclude(b, values)
    decreases |a|
  {
    if |a| > 0 {
      assert (a + b)[0] == a[0];
      assert (a + b)[1..] == a[1..] + b;
      ExcludeAppend(a[1..], b, values);
      ExcludeHead(a, values);
      ExcludeHead(a + b, values);
      var head := if a[0].Id() in Ids(values) then [] else [a[0]];
      ConcatAssociates(head, Exclude(a[1..], values), Exclude(b, values));
    } else {
      assert a + b == b;
    }
  }

  lemma ConcatAssociates(x: seq<UserRef>, y: seq<UserRef>, z: seq<UserRef>)
    ensures x + (y + z) == (x + y) + z
  {
  }

  /** Diffing against nothing keeps every entry. */
  lemma {:induction false} ExcludeNothing(from: seq<UserRef>)
    ensures Exclude(from, []) == from
    decreases |from|
  {
    if |from| > 0 {
      ExcludeNothing(from[1..]);
      assert from == [from[0]] + from[1..];
    }
  }

  /** Entries whose ids all occur in `values` are all removed. */
  lemma {:induction false} ExcludeCovered(from: seq<UserRef>, values: seq<UserRef>)
    requires forall k :: 0 <= k < |from| ==> from[k].Id() in Ids(values)
    ensures Exclude(from, values) == []
    decreases |from|
  {
    if |from| > 0 {
      ExcludeCovered(from[1..], values);
    }
  }

  /** A list diffed against itself is empty. */
  lemma ExcludeSelf(x: seq<UserRef>)
    ensures Exclude(x, x) == []
  {
    ExcludeCovered(x, x);
  }

  /** `#exclude(x, x)` is empty in both categories and `#exclude(x, empty)`
      is `x`. */
  lemma ExcludeReactionsIdentities(x: Reactions)
    ensures ExcludeReactions(x, x) == NoReactions
    ensures ExcludeReactions(x, NoReactions) == x
  {
    ExcludeSelf(x.hearts);
    ExcludeSelf(x.poops);
    ExcludeNothing(x.hearts);
    ExcludeNothing(x.poops);
  }

  // ---------- Synchronisation ----------

  /** The order in which `sync` emits its events. */
  function Rank(e: Event): (rank: nat) {
    match e
    case Reacted(_, _, _) => 0
    case Discovered(_) => 1
    case Created(_) => 2
    case Ready => 3
  }

  /** `sync(message, cause)`: with cause update, one `reacted` event carrying
      the reaction delta against the mirror's entry (everything added when
      there is none); then, for an id the mirror does not hold, `discovered`
      and, with cause create, `created`. The mirror is only read. */
  function Sync(client: Client, m: Message, cause: SyncCause): (r: SyncResult)
    ensures r.client == client
    ensures forall e :: e in r.events ==> !e.Ready? && e.message == m
    ensures forall i, j :: 0 <= i < j < |r.events| ==> Rank(r.events[i]) < Rank(r.events[j])
    ensures (|r.events| > 0 && r.events[0].Reacted?) <==> cause == Update
    ensures forall e :: e in r.events && e.Reacted? ==> cause == Update
    ensures Discovered(m) in r.events <==> m.Id() !in client.messages
    ensures Created(m) in r.events <==> m.Id() !in client.messages && cause == Create
  {
    var original := Lookup(client, m.Id());
    var reacted :=
      if cause != Update then []
      else if original.None? then [Reacted(m, m.reactions, NoReactions)]
      else [Reacted(m, ExcludeReactions(m.reactions, original.value.reactions),
                       ExcludeReactions(original.value.reactions, m.reactions))];
    var firstSeen :=
      if original.Some? then []
      else if cause == Create then [Discovered(m), Created(m)]
      else [Discovered(m)];
    SyncResult(client, reacted + firstSeen)
  }

  /** An update of an unseen message reports all its reactions as added and
      none as removed, then discovers it. */
  lemma SyncUpdateUnseen(client: Client, m: Message)
    requires m.Id() !in client.messages
    ensures Sync(client, m, Update).events == [Reacted(m, m.reactions, NoReactions), Discovered(m)]
  {
  }

  /** An update of a known message emits exactly one `reacted`, whose delta
      is the diff of the new reactions against the mirror's, both ways. */
  lemma SyncUpdateKnown(client: Client, m: Message)
    requires m.Id() in client.messages
    ensures var o := client.messages[m.Id()].reactions;
            Sync(client, m, Update).events ==
              [Reacted(m, ExcludeReactions(m.reactions, o), ExcludeReactions(o, m.reactions))]
  {
  }

  /** The `reacted` event fires even when nothing changed. */
  lemma SyncUpdateUnchanged(client: Client, m: Message)
    requires m.Id() in client.messages && client.messages[m.Id()].reactions == m.reactions
    ensures Sync(client, m, Update).events == [Reacted(m, NoReactions, NoReactions)]
  {
    ExcludeReactionsIdentities(m.reactions);
  }

  /** A create of an unseen message discovers and creates it; a create of a
      known message emits nothing. */
  lemma SyncCreate(client: Client, m: Message)
    ensures m.Id() !in client.messages ==> Sync(client, m, Create).events == [Discovered(m), Created(m)]
    ensures m.Id() in client.messages ==> Sync(client, m, Create).events == []
  {
  }

  lemma ExcludeExample(a: string, b: string, c: string)
    requires a != b && b != c && a != c
    ensures Exclude([IdOnly(b), IdOnly(c)], [IdOnly(a), IdOnly(b)]) == [IdOnly(c)]
    ensures Exclude([IdOnly(a), IdOnly(b)], [IdOnly(b), IdOnly(c)]) == [IdOnly(a)]
  {
    var before := [IdOnly(a), IdOnly(b)];
    var after := [IdOnly(b), IdOnly(c)];
    assert Ids(before) == [a, b];
    assert Ids(after) == [b, c];
    assert after[1..] == [IdOnly(c)];
    assert before[1..] == [IdOnly(b)];
    assert Exclude([IdOnly(c)], before) == [IdOnly(c)] by {
      assert [IdOnly(c)][1..] == [];
    }
    assert Exclude([IdOnly(b)], after) == [] by {
      assert [IdOnly(b)][1..] == [];
    }
  }

  /** Hearts [A, B] in the mirror and [B, C] observed: C was added and A
      removed; unchanged poops give empty poop deltas. */
  lemma SyncDeltaExample(client: Client, m: Message, a: string, b: string, c: string)
    requires a != b && b != c && a != c
    requires m.Id() in client.messages
    requires client.messages[m.Id()].reactions == Reactions([IdOnly(a), IdOnly(b)], m.reactions.poops)
    requires m.reactions.hearts == [IdOnly(b), IdOnly(c)]
    ensures Sync(client, m, Update).events ==
              [Reacted(m, Reactions([IdOnly(c)], []), Reactions([IdOnly(a)], []))]
  {
    SyncUpdateKnown(client, m);
    ExcludeSelf(m.reactions.poops);
    ExcludeExample(a, b, c);
  }

  /** Observations synchronised one after the other, threading the client. */
  function SyncMany(client: Client, obs: seq<Observation>): (r: SyncResult)
    ensures r.client == client
    ensures forall e :: e in r.events ==> !e.Ready?
    ensures forall e :: e in r.events && e.Reacted? ==> Observation(e.message, Update) in obs
    decreases |obs|
  {
    if |obs| == 0 then SyncResult(client, [])
    else
      var first := Sync(client, obs[0].message, obs[0].cause);
      var rest := SyncMany(first.client, obs[1..]);
      SyncResult(rest.client, first.events + rest.events)
  }

  /** The same observations each synchronised against the initial client. */
  function SyncEach(client: Client, obs: seq<Observation>): (events: seq<Event>)
    decreases |obs|
  {
    if |obs| == 0 then []
    else Sync(client, obs[0].message, obs[0].cause).events + SyncEach(client, obs[1..])
  }

  /** Because `sync` never writes the mirror, synchronising a sequence is the
      same as synchronising each observation against the initial mirror. */
  lemma {:induction false} SyncManyIsSyncEach(client: Client, obs: seq<Observation>)
    ensures SyncMany(client, obs).events == SyncEach(client, obs)
    decreases |obs|
  {
    if |obs| > 0 {
      SyncManyIsSyncEach(client, obs[1..]);
    }
  }

  function CountDiscovered(events: seq<Event>): (count: nat)
    decreases |events|
  {
    if |events| == 0 then 0
    else (if events[0].Discovered? then 1 else 0) + CountDiscovered(events[1..])
  }

  function CountUnseen(client: Client, obs: seq<Observation>): (count: nat)
    decreases |obs|
  {
    if |obs| == 0 then 0
    else (if obs[0].message.Id() !in client.messages then 1 else 0) + CountUnseen(client, obs[1..])
  }

  lemma {:induction false} CountDiscoveredAppend(a: seq<Event>, b: seq<Event>)
    ensures CountDiscovered(a + b) == CountDiscovered(a) + CountDiscovered(b)
    decreases |a|
  {
    if |a| > 0 {
      assert (a + b)[1..] == a[1..] + b;
      CountDiscoveredAppend(a[1..], b);
    } else {
      assert a + b == b;
    }
  }

  lemma SyncDiscoversOnce(client: Client, m: Message, cause: SyncCause)
    ensures CountDiscovered(Sync(client, m, cause).events) == if m.Id() in client.messages then 0 else 1
  {
    if m.Id() in client.messages {
      if cause == Update {
        SyncUpdateKnown(client, m);
        var o := client.messages[m.Id()].reactions;
        CountDiscoveredOne(Reacted(m, ExcludeReactions(m.reactions, o), ExcludeReactions(o, m.reactions)));
      } else {
        SyncCreate(client, m);
      }
    } else if cause == Update {
      SyncUpdateUnseen(client, m);
      CountDiscoveredPair(Reacted(m, m.reactions, NoReactions), Discovered(m));
    } else {
      SyncCreate(client, m);
      CountDiscoveredPair(Discovered(m), Created(m));
    }
  }

  lemma CountDiscoveredOne(e: Event)
    ensures CountDiscovered([e]) == if e.Discovered? then 1 else 0
  {
    assert [e][1..] == [];
  }

  lemma CountDiscoveredPair(e: Event, f: Event)
    ensures CountDiscovered([e, f]) == (if e.Discovered? then 1 else 0) + (if f.Discovered? then 1 else 0)
  {
    assert [e, f][1..] == [f];
    CountDiscoveredOne(f);
  }

  /** Every observation of an id the mirror does not hold emits
      `discovered` again, however often that id was observed before. */
  lemma {:induction false} DiscoveredPerUnseenObservation(client: Client, obs: seq<Observation>)
    ensures CountDiscovered(SyncMany(client, obs).events) == CountUnseen(client, obs)
    decreases |obs|
  {
    if |obs| > 0 {
      var first := Sync(client, obs[0].message, obs[0].cause);
      SyncDiscoversOnce(client, obs[0].message, obs[0].cause);
      DiscoveredPerUnseenObservation(client, obs[1..]);
      CountDiscoveredAppend(first.events, SyncMany(client, obs[1..]).events);
    }
  }

  /** Observing an unseen message twice discovers it twice. */
  lemma RepeatedSyncRediscovers(client: Client, m: Message, cause: SyncCause)
    requires m.Id() !in client.messages
    ensures CountDiscovered(SyncMany(client, [Observation(m, cause), Observation(m, cause)]).events) == 2
  {
    var obs := [Observation(m, cause), Observation(m, cause)];
    DiscoveredPerUnseenObservation(client, obs);
    assert CountUnseen(client, obs[1..]) == 1 by {
      assert obs[1..] == [Observation(m, cause)];
      assert obs[1..][1..] == [];
    }
  }

  // ---------- Reaction intents ----------

  /** `heart(message)`: sends the message's full heart list with the
      caller's id appended, and nothing for poops. */
  function Heart(client: Client, m: Message): (req: Actions.PatchRequest)
    ensures req.messageId == m.Id() && req.token == client.authorization.token
    ensures req.body.poops.None?
    ensures req.body.hearts == Some(Ids(m.reactions.hearts) + [client.authorization.id])
  {
    IdsAppend(m.reactions.hearts, [IdOnly(client.authorization.id)]);
    assert Ids([IdOnly(client.authorization.id)]) == [client.authorization.id];
    Actions.UpdateReactions(
      m.Id(),
      Actions.ReactionUpdate(Some(m.reactions.hearts + [IdOnly(client.authorization.id)]), None),
      client.authorization)
  }

  /** `poop(message)`: sends the message's full poop list with the caller's
      id appended, and nothing for hearts. */
  function Poop(client: Client, m: Message): (req: Actions.PatchRequest)
    ensures req.messageId == m.Id() && req.token == client.authorization.token
    ensures req.body.hearts.None?
    ensures req.body.poops == Some(Ids(m.reactions.poops) + [client.authorization.id])
  {
    IdsAppend(m.reactions.poops, [IdOnly(client.authorization.id)]);
    assert Ids([IdOnly(client.authorization.id)]) == [client.authorization.id];
    Actions.UpdateReactions(
      m.Id(),
      Actions.ReactionUpdate(None, Some(m.reactions.poops + [IdOnly(client.authorization.id)])),
      client.authorization)
  }

  /** The sent list is one longer, keeps the existing ids as its prefix, ends
      with the caller, and is not deduplicated: a caller who already hearted
      appears once more. */
  lemma HeartAppendsCaller(client: Client, m: Message)
    ensures var sent := Heart(client, m).body.hearts.value;
            var before := Ids(m.reactions.hearts);
            && |sent| == |before| + 1
            && sent[..|before|] == before
            && sent[|before|] == client.authorization.id
            && multiset(sent)[client.authorization.id] == multiset(before)[client.authorization.id] + 1
  {
  }

  lemma PoopAppendsCaller(client: Client, m: Message)
    ensures var sent := Poop(client, m).body.poops.value;
            var before := Ids(m.reactions.poops);
            && |sent| == |before| + 1
            && sent[..|before|] == before
            && sent[|before|] == client.authorization.id
            && multiset(sent)[client.authorization.id] == multiset(before)[client.authorization.id] + 1
  {
  }

  /** When the backend stores the sent heart list and echoes the message as
      an update, and the mirror holds the message as it was, `sync` reports
      exactly the caller's heart as added and nothing removed, for a caller
      who had not hearted the message yet. */
  lemma HeartEchoReacts(client: Client, m: Message, echoed: Message)
    requires m.Id() in client.messages && client.messages[m.Id()] == m
    requires client.authorization.id !in Ids(m.reactions.hearts)
    requires echoed.Id() == m.Id()
    requires echoed.reactions == Reactions(Refs(Heart(client, m).body.hearts.value), m.reactions.poops)
    ensures Sync(client, echoed, Update).events ==
              [Reacted(echoed, Reactions([IdOnly(client.authorization.id)], []), NoReactions)]
  {
    var me := client.authorization.id;
    var h := m.reactions.hearts;
    SyncUpdateKnown(client, echoed);
    EchoedHearts(h, me);
    ExcludeSelf(m.reactions.poops);
  }

  /** `heart` does not deduplicate: a caller who has already hearted the
      message sends its id a second time, and the echoed update reports a
      `reacted` with nothing added and nothing removed. */
  lemma RepeatedHeartIsSilent(client: Client, m: Message, echoed: Message)
    requires m.Id() in client.messages && client.messages[m.Id()] == m
    requires client.authorization.id in Ids(m.reactions.hearts)
    requires echoed.Id() == m.Id()
    requires echoed.reactions == Reactions(Refs(Heart(client, m).body.hearts.value), m.reactions.poops)
    ensures Sync(client, echoed, Update).events == [Reacted(echoed, NoReactions, NoReactions)]
  {
    var me := client.authorization.id;
    var h := m.reactions.hearts;
    SyncUpdateKnown(client, echoed);
    IdsOfRefs(Ids(h) + [me]);
    ExcludeCovered(Refs(Ids(h) + [me]), h);
    ExcludeCovered(h, Refs(Ids(h) + [me]));
    ExcludeSelf(m.reactions.poops);
  }

  /** The diff between a heart list and the echo of that list with one new
      id appended is exactly the new id, in one direction only. */
  lemma EchoedHearts(h: seq<UserRef>, me: string)
    requires me !in Ids(h)
    ensures Exclude(Refs(Ids(h) + [me]), h) == [IdOnly(me)]
    ensures Exclude(h, Refs(Ids(h) + [me])) == []
  {
    var before := Ids(h);
    RefsAppend(before, [me]);
    assert Refs([me]) == [IdOnly(me)];
    ExcludeAppend(Refs(before), [IdOnly(me)], h);
    IdsOfRefs(before);
    ExcludeCovered(Refs(before), h);
    assert Exclude([IdOnly(me)], h) == [IdOnly(me)] by {
      assert [IdOnly(me)][1..] == [];
    }
    IdsOfRefs(before + [me]);
    ExcludeCovered(h, Refs(before + [me]));
  }
}
