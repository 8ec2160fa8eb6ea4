/** The mapping from raw backend records to the client's domain shapes
    (`nicifyEntity`, `nicifyUser`, `nicifyMessage` in pocket-internal.ts).
    `Date.parse` is a parameter: the model keeps timestamps abstract. */
module Normalize {
  import opened Results
  import opened Model

  /** Fields every raw record carries; timestamps are ISO strings. */
  datatype RawEntity = RawEntity(
    id: string, created: string, updated: string,
    collectionId: string, collectionName: string)

  datatype RawUser = RawUser(
    entity: RawEntity, username: string,
    emailVisibility: bool, verified: bool, banned: bool)

  /** A raw message: reactions are flat lists of user ids, and `expand`
      holds the author's record when the query asked for it. */
  datatype RawMessage = RawMessage(
    entity: RawEntity, text: string, user: string,
    hearts: seq<string>, poops: seq<string>, expand: Option<RawUser>)

  function NicifyEntity(e: RawEntity, parseDate: string -> int): (r: Entity)
    ensures r.id == e.id
    ensures r.collection == CollectionRef(e.collectionId, e.collectionName)
    ensures r.timestamps == Timestamps(parseDate(e.created), parseDate(e.updated))
  {
    Entity(e.id, CollectionRef(e.collectionId, e.collectionName),
           Timestamps(parseDate(e.created), parseDate(e.updated)))
  }

  function NicifyUser(u: RawUser, parseDate: string -> int): (r: User)
    ensures r.entity == NicifyEntity(u.entity, parseDate)
    ensures r.name == u.username
    ensures r.status == Status(u.emailVisibility, u.verified, u.banned)
  {
    User(NicifyEntity(u.entity, parseDate), u.username,
         Status(u.emailVisibility, u.verified, u.banned))
  }

  /** The author is the expanded user when present, otherwise a bare
      reference to the `user` id; each reaction id becomes a bare reference,
      so the ids of the reaction lists are exactly the raw lists. */
  function NicifyMessage(m: RawMessage, parseDate: string -> int): (r: Message)
    ensures r.entity == NicifyEntity(m.entity, parseDate)
    ensures r.Id() == m.entity.id
    ensures r.text == m.text
    ensures m.expand.None? ==> r.author == IdOnly(m.user)
    ensures m.expand.Some? ==> r.author == Full(NicifyUser(m.expand.value, parseDate))
    ensures Ids(r.reactions.hearts) == m.hearts && Ids(r.reactions.poops) == m.poops
    ensures forall u :: u in r.reactions.hearts ==> u == IdOnly(u.Id())
    ensures forall u :: u in r.reactions.poops ==> u == IdOnly(u.Id())
  {
    var author := match m.expand
      case Some(u) => Full(NicifyUser(u, parseDate))
      case None => IdOnly(m.user);
    IdsOfRefs(m.hearts);
    IdsOfRefs(m.poops);
    Message(NicifyEntity(m.entity, parseDate), m.text, author,
            Reactions(Refs(m.hearts), Refs(m.poops)))
  }

  /** `items.map(nicifyMessage)`. */
  function NicifyAll(items: seq<RawMessage>, parseDate: string -> int): (r: seq<Message>)
    ensures |r| == |items|
    ensures forall i :: 0 <= i < |items| ==> r[i] == NicifyMessage(items[i], parseDate)
  {
    seq(|items|, i requires 0 <= i < |items| => NicifyMessage(items[i], parseDate))
  }
}
