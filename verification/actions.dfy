/** The request body `updateReactions` builds (pocket-internal.ts). The
    PATCH itself is network I/O; the model returns the request it sends. */
module Actions {
  import opened Results
  import opened Model

  /** Partial<PocketReactions>: each category may be given or absent. An
      empty list is still "given": JavaScript treats `[]` as true. */
  datatype ReactionUpdate = ReactionUpdate(hearts: Option<seq<UserRef>>, poops: Option<seq<UserRef>>)

  /** The JSON body: lists of user ids per category, absent keys as None. */
  datatype ReactionBody = ReactionBody(hearts: Option<seq<string>>, poops: Option<seq<string>>)

  /** A PATCH of one message's record, authorised by a bearer token. */
  datatype PatchRequest = PatchRequest(messageId: string, token: string, body: ReactionBody)

  /** Poops take precedence over hearts; at most one category is sent, as
      the ids of the given list in order. */
  function UpdateReactions(messageId: string, update: ReactionUpdate, auth: Authorization): (req: PatchRequest)
    ensures req.messageId == messageId && req.token == auth.token
    ensures !(req.body.hearts.Some? && req.body.poops.Some?)
    ensures update.poops.Some? ==> req.body.poops == Some(Ids(update.poops.value))
    ensures update.poops.None? && update.hearts.Some? ==>
              req.body.hearts == Some(Ids(update.hearts.value))
    ensures update.poops.None? && update.hearts.None? ==> req.body == ReactionBody(None, None)
  {
    var body :=
      if update.poops.Some? then ReactionBody(None, Some(Ids(update.poops.value)))
      else if update.hearts.Some? then ReactionBody(Some(Ids(update.hearts.value)), None)
      else ReactionBody(None, None);
    PatchRequest(messageId, auth.token, body)
  }
}
