/** The data types of the chat client (pocket-api.ts): identified entities,
    users, reaction sets, messages, the sync cause and the events the client
    emits, plus the errors the transports and retrieval calls raise. */
module Model {

  /** The backend collection an entity belongs to. */
  datatype CollectionRef = CollectionRef(id: string, name: string)

  /** Creation and last-update instants as the numbers `Date.parse` yields. */
  datatype Timestamps = Timestamps(created: int, updated: int)

  /** Fields every record shares (PocketEntity). */
  datatype Entity = Entity(id: string, collection: CollectionRef, timestamps: Timestamps)

  datatype Status = Status(emailVisibility: bool, verified: bool, banned: bool)

  datatype User = User(entity: Entity, name: string, status: Status)

  /** A partial user (PocketPartial<PocketUser>). The client only ever builds
      a bare `{ id }` reference or a complete normalised user. */
  datatype UserRef = IdOnly(id: string) | Full(user: User) {
    function Id(): (id: string) {
      match this
      case IdOnly(id) => id
      case Full(user) => user.entity.id
    }
  }

  /** PocketReactions: two ordered lists of reacting users. */
  datatype Reactions = Reactions(hearts: seq<UserRef>, poops: seq<UserRef>)

  const NoReactions := Reactions([], [])

  datatype Message = Message(entity: Entity, text: string, author: UserRef, reactions: Reactions) {
    function Id(): (id: string) { entity.id }
  }

  /** PocketSyncCause: why a message state is being observed. */
  datatype SyncCause = Create | Update

  /** The signed-in user: their id and bearer token. */
  datatype Authorization = Authorization(id: string, token: string)

  /** The events of the client's emitter, with their payloads. */
  datatype Event =
    | Ready
    | Discovered(message: Message)
    | Created(message: Message)
    | Reacted(message: Message, added: Reactions, removed: Reactions)

  /** Which listing a paginated retrieval reads. */
  datatype Listing = Messages | Users

  /** The errors the model's operations throw. */
  datatype Error =
    | PageSizeOutOfRange(listing: Listing, page: int, perPage: int)
    | RetrievalFailed(listing: Listing)
    | InvalidSubscription(status: int)
    | MalformedRecord

  /** The ids of a list of user references, in order. */
  function Ids(refs: seq<UserRef>): (ids: seq<string>)
    ensures |ids| == |refs|
    ensures forall i :: 0 <= i < |refs| ==> ids[i] == refs[i].Id()
  {
    seq(|refs|, i requires 0 <= i < |refs| => refs[i].Id())
  }

  /** Bare `{ id }` references for a list of user ids, in order. */
  function Refs(ids: seq<string>): (refs: seq<UserRef>)
    ensures |refs| == |ids|
    ensures forall i :: 0 <= i < |ids| ==> refs[i] == IdOnly(ids[i])
  {
    seq(|ids|, i requires 0 <= i < |ids| => IdOnly(ids[i]))
  }

  lemma IdsOfRefs(ids: seq<string>)
    ensures Ids(Refs(ids)) == ids
  {
  }

  lemma IdsAppend(a: seq<UserRef>, b: seq<UserRef>)
    ensures Ids(a + b) == Ids(a) + Ids(b)
  {
  }

  lemma RefsAppend(a: seq<string>, b: seq<string>)
    ensures Refs(a + b) == Refs(a) + Refs(b)
  {
  }
}
