# Valentine messages: a Dafny model of the message store and its two screens

The application lets a signed-in user write a "Valentine" message to another user,
identified by a numeric FID, and share a link to it; the recipient opens the link
and answers yes or no once. All messages live in the browser's key-value store as
one list under the key `valentine_messages`.

This project models:

- `Storage` (lib/storage.ts): the `messageStorage` object as the class
  `MessageStore`, whose state is what the key holds, `Option<seq<Message>>`
  (`None` when the key was never written). JSON encoding is the identity.
  `getById`, `getBySender` and `getByRecipient` are functions over the stored list
  (first match, and order-preserving filters); `save` and `update` are methods that
  rewrite the whole list.
- `ViewMessage` (components/pages/message/ViewMessage.tsx): the component state
  (`message`, `loading`, `hasResponded`) as the class `MessageView`, the load
  effect and `handleResponse` as methods, and the render's guard chain as the pure
  function `SelectScreen` from that state and the viewer to one of six screens.
- `CreateMessage` (components/pages/create/CreateMessage.tsx): the form state as
  the class `CreateForm`, with `handleCreate` and `reset`.
- `Types` (lib/types.ts) holds the record, `Partial<ValentineMessage>` as `Patch`
  (a missing key is `None`), and the viewer's data. `Text` models JavaScript's
  `String.prototype.trim`.

Behaviour worth knowing, all as the code has it:

- `getById` and `update` both pick the FIRST record with the id. Ids are not
  checked for uniqueness, so a later record with a colliding id is never found
  (`CollidingIdIsShadowed`).
- `update(id, u)` with no match writes nothing; if the key was absent it stays absent.
- After `update(id, u)`, `getById(id)` returns the merged record only when `u`
  keeps the id; a patch that renames the record can make it unreachable by `id`.
  `UpdateThenFind` requires this.
- The load effect sets `hasResponded` when the loaded record is answered and never
  clears it. From the initial state the flag is therefore exactly "the stored
  record is answered" (`FirstLoad`). The render's extra test of
  `message.response` keeps a stale flag from showing the answered screen.
- `handleResponse` only checks that a message and a user are present, not that the
  user is the recipient. Only the recipient's screen shows the buttons, so the
  check exists in the UI alone (`ActionsPassGuard`); anyone who calls the store
  directly can answer.
- The emptiness guard of `handleCreate` tests the untrimmed text, so text made of
  whitespace alone is accepted and saved as the empty string
  (`WhitespaceOnlyIsSavedEmpty`).

## Model

| member | source | states |
|---|---|---|
| Text.IsWhitespace | components/pages/create/CreateMessage.tsx:28 | the ECMAScript WhiteSpace and LineTerminator code points that `trim` strips |
| Text.TrimStart | components/pages/create/CreateMessage.tsx:28 | the result is a suffix of the input, everything cut is whitespace, and it does not start with whitespace |
| Text.TrimEnd | components/pages/create/CreateMessage.tsx:28 | the result is a prefix of the input, everything cut is whitespace, and it does not end with whitespace |
| Text.Trim | components/pages/create/CreateMessage.tsx:28 | the trimmed text is a contiguous slice with only whitespace removed on both sides, and has no whitespace at either end |
| Text.TrimEmptyIffWhitespace | components/pages/create/CreateMessage.tsx:28 | trimming gives the empty string exactly when the text is all whitespace |
| Storage.FindIndex | lib/storage.ts:45 | the index returned holds the id and no earlier index does; none is returned exactly when no record holds the id |
| Storage.Filter | lib/storage.ts:24 | the result has exactly the elements satisfying the predicate, each as many times as in the input |
| Storage.FilterAppend | lib/storage.ts:30-32 | filtering a concatenation is the concatenation of the filtered parts, so stored order is kept |
| Storage.SentBy | lib/storage.ts:24 | the `getBySender` test: the record's `senderFid` equals the argument |
| Storage.SentTo | lib/storage.ts:31 | the `getByRecipient` test: the record's `recipientFid` equals the argument |
| Storage.Merge | lib/storage.ts:47 | every field takes the patch's value when the patch has that key and keeps the record's value otherwise; the empty patch changes nothing |
| Storage.Updated | lib/storage.ts:44-49 | the written list has the same length, equals the old one when no record matches, and differs only at the first match, which is merged with the patch |
| Storage.MessageStore.constructor | lib/storage.ts:5 | the store starts with whatever the key holds |
| Storage.MessageStore.GetAll | lib/storage.ts:9-13 | the result is empty exactly when the key is absent or holds an empty list, and is the stored list otherwise |
| Storage.MessageStore.GetById | lib/storage.ts:16-19 | a returned record is stored, carries the id and no earlier record does; null exactly when no stored record carries the id |
| Storage.MessageStore.GetBySender | lib/storage.ts:22-25 | exactly the stored records with that `senderFid`, with their multiplicities |
| Storage.MessageStore.GetByRecipient | lib/storage.ts:28-33 | exactly the stored records with that `recipientFid`, with their multiplicities |
| Storage.MessageStore.Save | lib/storage.ts:36-40 | the key afterwards holds the old list with the record appended, with no check on its id |
| Storage.MessageStore.Update | lib/storage.ts:43-50 | with no match the key is untouched (even when absent); otherwise it holds the list with the first match merged |
| Storage.SaveThenFind | lib/storage.ts:16-19 | after a save, the id is found at the new last position unless an earlier record already carries it |
| Storage.SaveThenFilter | lib/storage.ts:36-40 | after a save, a sender or recipient query returns its old result plus the new record at the end exactly when it matches |
| Storage.UpdateThenFind | lib/storage.ts:45-47 | after an update that keeps the id, the first match is at the same index and holds the merged record |
| Storage.MergeIdempotent | lib/storage.ts:47 | merging the same patch twice equals merging it once |
| Storage.UpdateIdempotent | lib/storage.ts:43-50 | repeating an update that keeps the id leaves the list unchanged |
| ViewMessage.SelectScreen | components/pages/message/ViewMessage.tsx:43-154 | Loading iff loading; NotFound iff loaded and no message whoever the viewer is; SignInRequired iff a message and no user; AccessDenied iff a user who is not the recipient; Responded with the stored answer iff the recipient, the flag set and an answer present; AwaitingResponse otherwise for the recipient |
| ViewMessage.ResponsePatch | components/pages/message/ViewMessage.tsx:34-37 | merging the patch sets the answer and the answer time and keeps every other field |
| ViewMessage.MessageView.constructor | components/pages/message/ViewMessage.tsx:16-18 | no message, loading, not answered |
| ViewMessage.MessageView.Screen | components/pages/message/ViewMessage.tsx:76-95 | a screen that shows the message is only ever shown to the signed-in recipient |
| ViewMessage.MessageView.Load | components/pages/message/ViewMessage.tsx:20-29 | afterwards the message is `getById(messageId)`, loading is off, and the flag is set if the record is answered and otherwise kept |
| ViewMessage.MessageView.HandleResponse | components/pages/message/ViewMessage.tsx:31-41 | without a message or a user nothing changes; otherwise the store is updated with the answer and the first clock reading, the flag is set and the local copy gets the answer and the second reading |
| ViewMessage.ActionsPassGuard | components/pages/message/ViewMessage.tsx:32 | whenever the yes/no buttons are on screen, a message and a user are present, so `handleResponse` writes |
| ViewMessage.AnswerShowsResponded | components/pages/message/ViewMessage.tsx:39-40 | answering from the awaiting screen lands on the answered screen with that answer |
| ViewMessage.StoredAnswerShowsResponded | components/pages/message/ViewMessage.tsx:26-27 | a stored answer shows the recipient the answered screen after the load, whatever the flag was before |
| ViewMessage.ReloadIsIdempotent | components/pages/message/ViewMessage.tsx:20-29 | two loads of the same id on an unchanged store give the same screen, the view's current one, and the state (message, loading, flag) is that of one load |
| ViewMessage.FirstLoad | components/pages/message/ViewMessage.tsx:16-29 | a fresh view followed by the load holds `getById(messageId)`, is no longer loading, and its flag is set exactly when that record is answered, so the awaiting screen only ever shows an unanswered record |
| ViewMessage.LoadedFlag | components/pages/message/ViewMessage.tsx:26-27 | the flag after a load: set when the loaded record is answered, otherwise kept, never cleared |
| ViewMessage.RecipientVisit | components/pages/message/ViewMessage.tsx:20-41 | the first screen is the one the guard chain picks for the freshly loaded record, and a recipient who answers from the awaiting screen finds that answer when the message is opened again |
| CreateMessage.CanCreate | components/pages/create/CreateMessage.tsx:19 | creation proceeds only with a non-empty recipient field, a non-empty untrimmed text and a signed-in user |
| CreateMessage.NewMessage | components/pages/create/CreateMessage.tsx:25-33 | the record carries the generated id, the parsed recipient, the clock reading and the sender's FID and name, is unanswered, and its text is the trimmed input, which is empty exactly when the input is all whitespace |
| CreateMessage.MessageLink | components/pages/create/CreateMessage.tsx:39 | the link is the base URL, then `/message/`, then the id |
| CreateMessage.CreateForm.constructor | components/pages/create/CreateMessage.tsx:13-16 | empty inputs, no link, not creating |
| CreateMessage.CreateForm.HandleCreate | components/pages/create/CreateMessage.tsx:18-42 | with an empty field or no user nothing changes; otherwise the store grows by exactly the new record at the end, the link names the new id, and creation is over |
| CreateMessage.CreateForm.Reset | components/pages/create/CreateMessage.tsx:49-53 | recipient, text and link are empty afterwards |
| CreateMessage.WhitespaceOnlyIsSavedEmpty | components/pages/create/CreateMessage.tsx:19-28 | whitespace-only text passes the guard and is stored as the empty string |
| CreateMessage.CreatedIsAwaiting | components/pages/create/CreateMessage.tsx:36 | a saved message with a new id is what `getById` returns and opens on the awaiting screen for its recipient |
| CreateMessage.CollidingIdIsShadowed | components/pages/create/CreateMessage.tsx:24 | a saved message whose id is already stored is never returned by `getById` |

## Left out

- The browser store itself, the `typeof window` test and JSON: the key holds the list or nothing. Malformed data makes `JSON.parse` throw, which is not modelled.
- `generateId`, `Date.now`, `Math.random`, `Number(...)` and the site URL: they are inputs. Numbers are integers, so `NaN` and fractional FIDs from `Number(...)` are not represented. Id uniqueness is not assumed.
- Timestamps: nothing relates `respondedAt` to `createdAt`, since the clock is an input.
- JSX, styling, router navigation, the clipboard and `alert`, `copyLink` included.
- The user context and wallet hooks: the viewer is `Option<UserData>`.
- components/pages/home/index.tsx: it only calls two queries. Its line 27 passes a wallet address to `getByRecipient`, which compares it with the numeric `recipientFid`; that can never match. This is noted, not resolved.
- app/api/users/me/route.ts: an HTTP handler that fabricates a user object.
- `Patch` cannot hold `undefined` for a required key such as `id`, which `Partial<ValentineMessage>` allows and the spread would copy; the only patch the app passes to `update` sets `response` and `respondedAt`.
- Concurrent writers (two tabs): every operation runs to completion on its own.
