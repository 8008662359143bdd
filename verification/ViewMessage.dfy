/**
 * components/pages/message/ViewMessage.tsx: the screen that shows one message to
 * its recipient and records a yes/no answer. The component's three state cells are
 * the fields of `MessageView`; the signed-in user (`user?.data`) is an input.
 */
module ViewMessage {
  import opened Wrappers
  import opened Types
  import opened Storage

  /** The screens the component can render; `Responded` carries the answer it shows. */
  datatype Screen =
    | Loading
    | NotFound
    | SignInRequired
    | AccessDenied
    | Responded(answer: Response)
    | AwaitingResponse

  /** The screens that show the message text to the viewer. */
  predicate ShowsMessage(s: Screen) {
    s.Responded? || s == AwaitingResponse
  }

  /** The guard chain of the render: each screen is characterised on its own, not by position. */
  function SelectScreen(loading: bool, message: Option<Message>, hasResponded: bool,
                        viewer: Option<UserData>): (s: Screen)
    ensures s == Loading <==> loading
    ensures s == NotFound <==> !loading && message.None?
    ensures s == SignInRequired <==> !loading && message.Some? && viewer.None?
    ensures s == AccessDenied <==>
              !loading && message.Some? && viewer.Some? && viewer.value.fid != message.value.recipientFid
    ensures s.Responded? <==>
              !loading && message.Some? && viewer.Some? && viewer.value.fid == message.value.recipientFid
              && hasResponded && message.value.response.Some?
    ensures s.Responded? ==> s.answer == message.value.response.value
    ensures s == AwaitingResponse <==>
              !loading && message.Some? && viewer.Some? && viewer.value.fid == message.value.recipientFid
              && !(hasResponded && message.value.response.Some?)
  {
    if loading then Loading
    else if message.None? then NotFound
    else
      var isRecipient := viewer.Some? && viewer.value.fid == message.value.recipientFid;
      if viewer.None? then SignInRequired
      else if !isRecipient then AccessDenied
      else if hasResponded && message.value.response.Some? then Responded(message.value.response.value)
      else AwaitingResponse
  }

  /** The patch `handleResponse` hands to `update`: the answer and the time it was given. */
  function ResponsePatch(response: Response, respondedAt: int): (u: Patch)
    ensures forall m :: Merge(m, u) == m.(response := Some(response), respondedAt := Some(respondedAt))
  {
    NoChange.(response := Some(Some(response)), respondedAt := Some(Some(respondedAt)))
  }

  /** The `hasResponded` flag the load effect leaves: it is set when the loaded record is answered, never cleared. */
  function LoadedFlag(hasResponded: bool, loaded: Option<Message>): bool {
    hasResponded || (loaded.Some? && loaded.value.response.Some?)
  }

  class MessageView {
    var message: Option<Message>
    var loading: bool
    var hasResponded: bool

    /** The state before the load effect has run. */
    constructor ()
      ensures message == None && loading && !hasResponded
    {
      message, loading, hasResponded := None, true, false;
    }

    /** The screen rendered for `viewer` in the current state. */
    function Screen(viewer: Option<UserData>): (s: Screen)
      reads this
      ensures ShowsMessage(s) ==> message.Some? && viewer.Some? && viewer.value.fid == message.value.recipientFid
    {
      SelectScreen(loading, message, hasResponded, viewer)
    }

    /** The load effect (lines 20-29): look the message up and mark it answered if it is. */
    method Load(store: MessageStore, messageId: string)
      modifies this
      ensures message == store.GetById(messageId)
      ensures !loading
      ensures hasResponded == LoadedFlag(old(hasResponded), message)
    {
      var loadedMessage := store.GetById(messageId);
      message := loadedMessage;
      loading := false;
      if loadedMessage.Some? && loadedMessage.value.response.Some? {
        hasResponded := true;
      }
    }

    /**
     * `handleResponse` (lines 31-41). The store is written with the first clock reading,
     * the local copy with the second one. Note that only presence is checked here, not
     * that the viewer is the recipient.
     */
    method HandleResponse(store: MessageStore, viewer: Option<UserData>, response: Response,
                          storeClock: int, localClock: int)
      modifies this, store
      ensures old(message).None? || viewer.None? ==>
                unchanged(this) && store.stored == old(store.stored)
      ensures old(message).Some? && viewer.Some? ==>
                var id := old(message).value.id;
                var u := ResponsePatch(response, storeClock);
                && (FindIndex(old(store.GetAll()), id).None? ==> store.stored == old(store.stored))
                && (FindIndex(old(store.GetAll()), id).Some? ==>
                      store.stored == Some(Updated(old(store.GetAll()), id, u)))
                && hasResponded
                && message == Some(old(message).value.(response := Some(response),
                                                      respondedAt := Some(localClock)))
                && loading == old(loading)
    {
      if message.None? || viewer.None? {
        return;
      }
      store.Update(message.value.id, ResponsePatch(response, storeClock));
      hasResponded := true;
      message := Some(message.value.(response := Some(response), respondedAt := Some(localClock)));
    }
  }

  // ----- Properties of the lifecycle -----

  /** The yes/no actions (shown only on `AwaitingResponse`) always pass `handleResponse`'s guard. */
  lemma ActionsPassGuard(loading: bool, message: Option<Message>, hasResponded: bool,
                         viewer: Option<UserData>)
    requires SelectScreen(loading, message, hasResponded, viewer) == AwaitingResponse
    ensures message.Some? && viewer.Some?
  {
  }

  /** Answering from the awaiting screen moves the recipient to the answered screen with that answer. */
  lemma AnswerShowsResponded(m: Message, hasResponded: bool, viewer: UserData,
                             response: Response, localClock: int)
    requires SelectScreen(false, Some(m), hasResponded, Some(viewer)) == AwaitingResponse
    ensures SelectScreen(false, Some(m.(response := Some(response), respondedAt := Some(localClock))),
                         true, Some(viewer)) == Responded(response)
  {
  }

  /** After the load, a stored answer puts the recipient on the answered screen, whatever `hasResponded` was before. */
  lemma StoredAnswerShowsResponded(ms: seq<Message>, id: string, hasResponded: bool, viewer: Option<UserData>)
    requires FindIndex(ms, id).Some?
    requires ms[FindIndex(ms, id).value].response.Some?
    requires viewer.Some? && viewer.value.fid == ms[FindIndex(ms, id).value].recipientFid
    ensures var found := Some(ms[FindIndex(ms, id).value]);
            SelectScreen(false, found, LoadedFlag(hasResponded, found), viewer)
            == Responded(found.value.response.value)
  {
  }

  /** Running the load effect a second time on an unchanged store leaves the same state and screen. */
  method ReloadIsIdempotent(view: MessageView, store: MessageStore, messageId: string,
                            viewer: Option<UserData>)
    returns (first: Screen, second: Screen)
    modifies view
    ensures first == second && second == view.Screen(viewer)
    ensures view.message == store.GetById(messageId) && !view.loading
    ensures view.hasResponded == LoadedFlag(old(view.hasResponded), view.message)
  {
    view.Load(store, messageId);
    first := view.Screen(viewer);
    ghost var flag := view.hasResponded;
    view.Load(store, messageId);
    assert view.hasResponded == flag;
    second := view.Screen(viewer);
  }

  /** A first visit: from the initial state, after the load the flag holds exactly when the stored record is answered. */
  method FirstLoad(store: MessageStore, messageId: string) returns (view: MessageView)
    ensures fresh(view)
    ensures view.message == store.GetById(messageId) && !view.loading
    ensures view.hasResponded <==> view.message.Some? && view.message.value.response.Some?
    ensures forall viewer :: view.Screen(viewer) == AwaitingResponse ==> view.message.value.response.None?
  {
    view := new MessageView();
    view.Load(store, messageId);
  }

  /** A full visit by the recipient: load, answer, then a fresh load of the same message shows that answer. */
  method RecipientVisit(store: MessageStore, messageId: string, viewer: UserData, response: Response,
                        storeClock: int, localClock: int) returns (before: Screen, after: Screen)
    modifies store
    ensures var found := old(store.GetById(messageId));
            before == SelectScreen(false, found, LoadedFlag(false, found), Some(viewer))
    ensures before == AwaitingResponse ==> after == Responded(response)
  {
    var view := new MessageView();
    view.Load(store, messageId);
    before := view.Screen(Some(viewer));
    if before == AwaitingResponse {
      ghost var ms := store.GetAll();
      view.HandleResponse(store, Some(viewer), response, storeClock, localClock);
      UpdateThenFind(ms, messageId, ResponsePatch(response, storeClock));
      var reopened := new MessageView();
      reopened.Load(store, messageId);
      after := reopened.Screen(Some(viewer));
    } else {
      after := before;
    }
  }
}
