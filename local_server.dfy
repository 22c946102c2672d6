/** The local variant of the service (`local.js`): `/api/chat` forwards the
    prompt as it came, and stores and returns the provider's answer without
    filtering; `/api/conversation` answers `NewestFirst`; a daily job
    trims the log to 10000 documents. */
module LocalServer {
  import opened ConversationLog
  import opened Exchange

  /** The number of documents the daily cleanup keeps. */
  const CleanupThreshold: nat := 10000

  /** `POST /api/chat`. There is no validation: the provider is always
      called with the prompt as given (`sent`); on success the raw prompt
      and raw answer are saved as one document stamped `now`, and the answer
      is returned. */
  method Chat(store: ConversationStore, prompt: string, provider: ProviderOutcome,
              storeAvailable: bool, now: int)
    returns (response: Response, sent: string)
    requires store.Valid()
    modifies store
    ensures store.Valid()
    ensures sent == prompt
    ensures !response.BadRequest?
    ensures response.Ok? <==> provider.Completed? && storeAvailable
    ensures response.Ok? ==>
      store.docs == old(store.docs) + [Conversation(old(store.nextId), prompt, provider.answer, now)]
    ensures response.Ok? ==> response.message == store.docs[|store.docs| - 1].answer
    ensures !response.Ok? ==> store.docs == old(store.docs)
  {
    sent := prompt;
    match provider
    case ProviderFailed =>
      response := ServerError;
    case Completed(message) =>
      var saved := store.Save(prompt, message, now, storeAvailable);
      response := if saved then Ok(message) else ServerError;
  }

  /** The daily `cleanupOldConversations`: with more than 10000 documents,
      the `excess` oldest are found and removed, and the computed `excess`
      is what gets reported in `logged`. */
  method CleanupOldConversations(store: ConversationStore) returns (logged: Option<nat>)
    requires store.Valid()
    modifies store
    ensures store.Valid()
    ensures store.docs == Cleaned(old(store.docs), CleanupThreshold)
    ensures old(|store.docs|) <= CleanupThreshold ==> store.docs == old(store.docs) && logged == None
    ensures old(|store.docs|) > CleanupThreshold ==>
      |store.docs| == CleanupThreshold && logged == Some(old(|store.docs|) - CleanupThreshold)
    ensures forall x, y :: x in Evicted(old(store.docs), CleanupThreshold) && y in store.docs ==> x.createdAt <= y.createdAt
  {
    ghost var before := store.docs;
    CleanedKeepsNewest(before, CleanupThreshold);
    var count := |store.docs|;
    if count > CleanupThreshold {
      var excess := count - CleanupThreshold;
      var found := store.Find(Ascending)[..excess];
      assert found == Oldest(before, excess);
      var _ := store.DeleteMany(IdsOf(found));
      logged := Some(excess);
    } else {
      logged := None;
    }
  }
}
