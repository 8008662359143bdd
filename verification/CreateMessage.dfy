/**
 * components/pages/create/CreateMessage.tsx: the form that builds a new message and
 * produces the link to share. The generated id, the clock reading, the number parsed
 * from the recipient field and the site's base URL are inputs.
 */
module CreateMessage {
  import opened Wrappers
  import opened Types
  import opened Text
  import opened Storage
  import opened ViewMessage

  /** The guard of `handleCreate`: both fields non-empty as typed, and someone signed in. */
  predicate CanCreate(recipientText: string, messageText: string, viewer: Option<UserData>) {
    recipientText != "" && messageText != "" && viewer.Some?
  }

  /** The record `handleCreate` builds: unanswered, from the signed-in user, text trimmed. */
  function NewMessage(id: string, recipientFid: int, messageText: string, user: UserData,
                      createdAt: int): (m: Message)
    ensures m.id == id && m.recipientFid == recipientFid && m.createdAt == createdAt
    ensures m.senderFid == user.fid && m.senderUsername == user.username
    ensures m.response.None? && m.respondedAt.None?
    ensures m.message == Trim(messageText)
    ensures m.message == [] <==> AllWhitespace(messageText)
  {
    TrimEmptyIffWhitespace(messageText);
    Message(id, recipientFid, Trim(messageText), user.fid, user.username, None, createdAt, None)
  }

  /** The shareable link `${NEXT_PUBLIC_URL}/message/${id}`. */
  function MessageLink(baseUrl: string, id: string): (link: string)
    ensures |link| == |baseUrl| + |"/message/"| + |id|
    ensures link[|link| - |id|..] == id
    ensures link[..|baseUrl|] == baseUrl
    ensures link[|baseUrl|..|link| - |id|] == "/message/"
  {
    baseUrl + "/message/" + id
  }

  class CreateForm {
    var recipientFid: string
    var message: string
    var generatedLink: string
    var isCreating: bool

    /** The empty form. */
    constructor ()
      ensures recipientFid == "" && message == "" && generatedLink == "" && !isCreating
    {
      recipientFid, message, generatedLink, isCreating := "", "", "", false;
    }

    /** `handleCreate` (lines 18-42): guard, build, save, then publish the link. */
    method HandleCreate(store: MessageStore, viewer: Option<UserData>, baseUrl: string,
                        newId: string, parsedRecipient: int, now: int)
      modifies this, store
      ensures !CanCreate(old(recipientFid), old(message), viewer) ==>
                unchanged(this) && store.stored == old(store.stored)
      ensures CanCreate(old(recipientFid), old(message), viewer) ==>
                && store.stored == Some(old(store.GetAll())
                                        + [NewMessage(newId, parsedRecipient, old(message), viewer.value, now)])
                && generatedLink == MessageLink(baseUrl, newId)
                && !isCreating
                && recipientFid == old(recipientFid) && message == old(message)
    {
      if !CanCreate(recipientFid, message, viewer) {
        return;
      }
      isCreating := true;
      var valentine := NewMessage(newId, parsedRecipient, message, viewer.value, now);
      store.Save(valentine);
      generatedLink := MessageLink(baseUrl, newId);
      isCreating := false;
    }

    /** `reset` (lines 49-53): clear both inputs and the link. */
    method Reset()
      modifies this
      ensures recipientFid == "" && message == "" && generatedLink == ""
      ensures isCreating == old(isCreating)
    {
      recipientFid := "";
      message := "";
      generatedLink := "";
    }
  }

  // ----- Properties of creation -----

  /** Whitespace-only text passes the guard (it tests the untrimmed text) and is stored empty. */
  lemma WhitespaceOnlyIsSavedEmpty(recipientText: string, messageText: string, user: UserData,
                                   id: string, recipientFid: int, now: int)
    requires recipientText != "" && messageText != "" && AllWhitespace(messageText)
    ensures CanCreate(recipientText, messageText, Some(user))
    ensures NewMessage(id, recipientFid, messageText, user, now).message == ""
  {
  }

  /**
   * A created message is what the recipient then finds by its id (provided no earlier
   * record shares the id), and it opens on the awaiting screen for its recipient.
   */
  lemma CreatedIsAwaiting(ms: seq<Message>, id: string, recipientFid: int, messageText: string,
                          user: UserData, now: int, viewer: UserData, hasResponded: bool)
    requires FindIndex(ms, id).None?
    requires viewer.fid == recipientFid
    ensures var m := NewMessage(id, recipientFid, messageText, user, now);
            && FindIndex(ms + [m], id) == Some(|ms|)
            && SelectScreen(false, Some(m), hasResponded, Some(viewer)) == AwaitingResponse
  {
    SaveThenFind(ms, NewMessage(id, recipientFid, messageText, user, now));
  }

  /** With a colliding id the new message is shadowed: `getById` keeps returning the older record. */
  lemma CollidingIdIsShadowed(ms: seq<Message>, m: Message)
    requires FindIndex(ms, m.id).Some?
    ensures FindIndex(ms + [m], m.id) == FindIndex(ms, m.id)
    ensures FindIndex(ms + [m], m.id).value < |ms|
  {
    SaveThenFind(ms, m);
  }
}
