/** The record types of lib/types.ts and the identity the user provider hands out. */
module Types {
  import opened Wrappers

  /** The two answers a recipient can give (`'yes' | 'no'`). */
  datatype Response = Yes | No

  /**
   * One stored Valentine message. `response == None` is the JSON `null` of a message
   * nobody has answered yet; the optional fields `senderUsername` and `respondedAt`
   * are `None` when the key is absent or undefined. Numbers are modelled as integers.
   */
  datatype Message = Message(
    id: string,
    recipientFid: int,
    message: string,
    senderFid: int,
    senderUsername: Option<string>,
    response: Option<Response>,
    createdAt: int,
    respondedAt: Option<int>)

  /**
   * `Partial<ValentineMessage>`: every key may be missing (`None`). Where the record's
   * own field is an Option, a present key carries that Option's value: `null` for
   * `response`, `undefined` for `senderUsername` and `respondedAt`.
   */
  datatype Patch = Patch(
    id: Option<string>,
    recipientFid: Option<int>,
    message: Option<string>,
    senderFid: Option<int>,
    senderUsername: Option<Option<string>>,
    response: Option<Option<Response>>,
    createdAt: Option<int>,
    respondedAt: Option<Option<int>>)

  /** The patch with no keys at all (`{}`). */
  const NoChange := Patch(None, None, None, None, None, None, None, None)

  /** `user.data` as the identity provider supplies it: the viewer's FID and name. */
  datatype UserData = UserData(fid: int, username: Option<string>)
}
