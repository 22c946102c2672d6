/** The moderated service (`index.js`): `/api/chat` validates the prompt,
    calls the completion provider, censors both sides of the exchange and
    stores and returns the censored text; `/api/conversation` answers
    `NewestFirst`; an hourly job trims the log to 100 documents. */
module IndexServer {
  import opened Censor
  import opened ConversationLog
  import opened Exchange

  /** The number of documents the hourly cleanup keeps. */
  const CleanupThreshold: nat := 100

  /** A character of the pattern class `\s`: the ECMAScript white space and
      line terminator characters. */
  predicate IsSpace(c: char) {
    c == '\t' || c == '\n' || c == '\U{B}' || c == '\U{C}' || c == '\r' || c == ' '
    || c == '\U{A0}' || c == '\U{1680}' || ('\U{2000}' <= c <= '\U{200A}')
    || c == '\U{2028}' || c == '\U{2029}' || c == '\U{202F}' || c == '\U{205F}'
    || c == '\U{3000}' || c == '\U{FEFF}'
  }

  /** The length of the run of white space at the start of `s`. */
  function LeadingSpaces(s: string): (n: nat)
    ensures n <= |s|
    ensures forall k :: 0 <= k < n ==> IsSpace(s[k])
    ensures n < |s| ==> !IsSpace(s[n])
  {
    if s == [] || !IsSpace(s[0]) then 0 else 1 + LeadingSpaces(s[1..])
  }

  /** The length of the run of white space at the end of `s`. */
  function TrailingSpaces(s: string): (n: nat)
    ensures n <= |s|
    ensures forall k :: |s| - n <= k < |s| ==> IsSpace(s[k])
    ensures n < |s| ==> !IsSpace(s[|s| - 1 - n])
  {
    if s == [] || !IsSpace(s[|s| - 1]) then 0 else 1 + TrailingSpaces(s[..|s| - 1])
  }

  /** A variation selector, U+FE0E or U+FE0F. */
  predicate IsVariationSelector(c: char) {
    c == '\U{FE0E}' || c == '\U{FE0F}'
  }

  /** The length the `isLength` validator measures: variation selectors are
      not counted. A `char` is one Unicode scalar value, so a surrogate pair,
      which the validator also counts once, is one `char` already. */
  function VisibleLength(s: string): (n: nat)
    ensures n <= |s|
    ensures n == 0 <==> forall k :: 0 <= k < |s| ==> IsVariationSelector(s[k])
  {
    if s == [] then 0
    else
      assert forall k :: 1 <= k < |s| ==> s[k] == s[1..][k - 1];
      (if IsVariationSelector(s[0]) then 0 else 1) + VisibleLength(s[1..])
  }

  /** The `trim()` sanitizer of the prompt field. */
  function Trim(s: string): (r: string)
    ensures |r| <= |s|
  {
    var a := LeadingSpaces(s);
    var t := s[a..];
    t[..|t| - TrailingSpaces(t)]
  }

  /** `trim()` removes white space only, and only at the ends: what it keeps
      is the slice of the prompt that starts after the leading white space
      and is followed by nothing but white space. */
  lemma TrimKeepsMiddle(s: string)
    ensures var a := LeadingSpaces(s);
      a + |Trim(s)| <= |s| && Trim(s) == s[a..a + |Trim(s)|]
      && forall k :: a + |Trim(s)| <= k < |s| ==> IsSpace(s[k])
  {
    var a := LeadingSpaces(s);
    var t := s[a..];
    forall k | a + |Trim(s)| <= k < |s|
      ensures IsSpace(s[k])
    {
      assert s[k] == t[k - a];
    }
  }

  /** `trim()` removes all the white space at both ends. */
  lemma TrimRemovesEnds(s: string)
    ensures Trim(s) != [] ==> !IsSpace(Trim(s)[0]) && !IsSpace(Trim(s)[|Trim(s)| - 1])
  {
    var a := LeadingSpaces(s);
    var t := s[a..];
    var b := TrailingSpaces(t);
    if Trim(s) != [] {
      assert Trim(s)[0] == s[a];
      assert Trim(s)[|Trim(s)| - 1] == t[|t| - 1 - b];
    }
  }

  /** The trimmed prompt is empty exactly when the prompt is all white
      space (including the empty prompt). */
  lemma TrimEmptyIffBlank(s: string)
    ensures Trim(s) == [] <==> forall k :: 0 <= k < |s| ==> IsSpace(s[k])
  {
    var a := LeadingSpaces(s);
    if Trim(s) == [] && a < |s| {
      assert false;
    }
  }

  /** A prompt that is not blank can still fail validation: a variation
      selector between spaces survives `trim()` but has visible length 0. */
  lemma SelectorOnlyPromptRejected(s: string)
    requires s == " \U{FE0F} "
    ensures Trim(s) == "\U{FE0F}" && VisibleLength(Trim(s)) == 0
  {
    assert LeadingSpaces(s) == 1 by {
      assert LeadingSpaces(s[1..]) == 0;
    }
    assert s[1..] == "\U{FE0F} ";
    assert TrailingSpaces(s[1..]) == 1 by {
      assert TrailingSpaces(s[1..][..1]) == 0;
    }
  }

  /** `POST /api/chat`. The prompt is trimmed and must then have a visible
      length of at least 1 (`isLength({ min: 1 })`);
      the provider's answer and the trimmed prompt are censored, saved as
      one document stamped `now`, and the censored answer is returned.
      `sent` is the user message handed to the provider, if it was called. */
  method Chat(store: ConversationStore, badWords: seq<string>, prompt: string,
              provider: ProviderOutcome, storeAvailable: bool, now: int)
    returns (response: Response, sent: Option<string>)
    requires store.Valid() && AllTerms(badWords)
    modifies store
    ensures store.Valid()
    ensures sent == if VisibleLength(Trim(prompt)) == 0 then None else Some(Trim(prompt))
    ensures response.BadRequest? <==> VisibleLength(Trim(prompt)) == 0
    ensures response.Ok? <==> VisibleLength(Trim(prompt)) != 0 && provider.Completed? && storeAvailable
    ensures response.Ok? ==>
      store.docs == old(store.docs) + [Conversation(old(store.nextId),
                                                    CensorBadWords(Trim(prompt), badWords),
                                                    CensorBadWords(provider.answer, badWords),
                                                    now)]
    ensures response.Ok? ==> response.message == store.docs[|store.docs| - 1].answer
    ensures !response.Ok? ==> store.docs == old(store.docs)
  {
    var trimmed := Trim(prompt);
    if VisibleLength(trimmed) == 0 {
      return BadRequest, None;
    }
    sent := Some(trimmed);
    match provider
    case ProviderFailed =>
      response := ServerError;
    case Completed(message) =>
      var censoredAnswer := CensorBadWords(message, badWords);
      var censoredPrompt := CensorBadWords(trimmed, badWords);
      var saved := store.Save(censoredPrompt, censoredAnswer, now, storeAvailable);
      response := if saved then Ok(censoredAnswer) else ServerError;
  }

  /** The hourly `cleanupOldConversations`: with more than 100 documents,
      the ids of the oldest `count - 100` are fetched and those documents
      deleted; `logged` is the `deletedCount` it reports, or nothing when
      the log was within the threshold. */
  method CleanupOldConversations(store: ConversationStore) returns (logged: Option<nat>)
    requires store.Valid()
    modifies store
    ensures store.Valid()
    ensures store.docs == Cleaned(old(store.docs), CleanupThreshold)
    ensures old(|store.docs|) <= CleanupThreshold ==> store.docs == old(store.docs) && logged == None
    ensures old(|store.docs|) > CleanupThreshold ==>
      |store.docs| == CleanupThreshold && logged == Some(old(|store.docs|) - CleanupThreshold)
    ensures forall x, y :: x in Evicted(old(store.docs), CleanupThreshold) && y in store.docs ==> x.createdAt <= y.createdAt
  {
    ghost var before := store.docs;
    CleanedKeepsNewest(before, CleanupThreshold);
    var count := |store.docs|;
    if count > CleanupThreshold {
      var conversationsToDelete := store.Find(Ascending)[..count - CleanupThreshold];
      assert conversationsToDelete == Oldest(before, count - CleanupThreshold);
      var idsToDelete := IdsOf(conversationsToDelete);
      var deletedCount := store.DeleteMany(idsToDelete);
      logged := Some(deletedCount);
    } else {
      logged := None;
    }
  }
}
