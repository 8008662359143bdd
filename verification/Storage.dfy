/**
 * lib/storage.ts: `messageStorage`, a CRUD layer over one list of messages kept
 * under the single key `valentine_messages` of the browser's key-value store.
 * JSON encoding and decoding are taken to be the identity, so the key holds the
 * list itself, or nothing.
 */
module Storage {
  import opened Wrappers
  import opened Types

  const StorageKey := "valentine_messages"

  /** `findIndex(m => m.id === id)`: the index of the FIRST record carrying `id`. */
  function FindIndex(ms: seq<Message>, id: string): (r: Option<nat>)
    ensures r.Some? ==> r.value < |ms| && ms[r.value].id == id
    ensures r.Some? ==> forall j :: 0 <= j < r.value ==> ms[j].id != id
    ensures r.None? <==> forall j :: 0 <= j < |ms| ==> ms[j].id != id
  {
    if ms == [] then None
    else if ms[0].id == id then Some(0)
    else match FindIndex(ms[1..], id)
      case None => None
      case Some(i) => Some(i + 1)
  }

  /** `filter(p)`: the elements satisfying `p`, in their original order and multiplicity. */
  function Filter(s: seq<Message>, p: Message -> bool): (r: seq<Message>)
    ensures |r| <= |s|
    ensures forall x :: x in r <==> x in s && p(x)
    ensures forall x :: multiset(r)[x] == if p(x) then multiset(s)[x] else 0
  {
    if s == [] then []
    else
      var rest := Filter(s[1..], p);
      assert s == [s[0]] + s[1..];
      if p(s[0]) then [s[0]] + rest else rest
  }

  /** Filtering distributes over concatenation: this is what "order-preserving" means. */
  lemma {:induction false} FilterAppend(a: seq<Message>, b: seq<Message>, p: Message -> bool)
    ensures Filter(a + b, p) == Filter(a, p) + Filter(b, p)
  {
    if a == [] {
      assert a + b == b;
    } else {
      assert (a + b)[1..] == a[1..] + b;
      FilterAppend(a[1..], b, p);
    }
  }

  /** The predicate of `getBySender(senderFid)`. */
  function SentBy(senderFid: int): Message -> bool {
    (m: Message) => m.senderFid == senderFid
  }

  /** The predicate of `getByRecipient(recipientFid)`. */
  function SentTo(recipientFid: int): Message -> bool {
    (m: Message) => m.recipientFid == recipientFid
  }

  /** `{ ...m, ...u }`: every key present in `u` overrides, every other field is kept. */
  function Merge(m: Message, u: Patch): (r: Message)
    ensures u == NoChange ==> r == m
    ensures r.id == if u.id.Some? then u.id.value else m.id
    ensures r.recipientFid == if u.recipientFid.Some? then u.recipientFid.value else m.recipientFid
    ensures r.message == if u.message.Some? then u.message.value else m.message
    ensures r.senderFid == if u.senderFid.Some? then u.senderFid.value else m.senderFid
    ensures r.senderUsername == if u.senderUsername.Some? then u.senderUsername.value else m.senderUsername
    ensures r.response == if u.response.Some? then u.response.value else m.response
    ensures r.createdAt == if u.createdAt.Some? then u.createdAt.value else m.createdAt
    ensures r.respondedAt == if u.respondedAt.Some? then u.respondedAt.value else m.respondedAt
  {
    Message(
      u.id.GetOr(m.id),
      u.recipientFid.GetOr(m.recipientFid),
      u.message.GetOr(m.message),
      u.senderFid.GetOr(m.senderFid),
      u.senderUsername.GetOr(m.senderUsername),
      u.response.GetOr(m.response),
      u.createdAt.GetOr(m.createdAt),
      u.respondedAt.GetOr(m.respondedAt))
  }

  /** The list `update(id, u)` writes back: only the first record carrying `id` is merged. */
  function Updated(ms: seq<Message>, id: string, u: Patch): (r: seq<Message>)
    ensures |r| == |ms|
    ensures FindIndex(ms, id).None? ==> r == ms
    ensures forall j :: 0 <= j < |ms| && FindIndex(ms, id) != Some(j) ==> r[j] == ms[j]
    ensures FindIndex(ms, id).Some? ==>
              var i := FindIndex(ms, id).value; r[i] == Merge(ms[i], u)
  {
    match FindIndex(ms, id)
    case None => ms
    case Some(i) => ms[i := Merge(ms[i], u)]
  }

  /** The stored value (what `StorageKey` holds) and the operations of `messageStorage`. */
  class MessageStore {
    /** What the key `valentine_messages` holds: `None` when it has never been written. */
    var stored: Option<seq<Message>>

    constructor (initial: Option<seq<Message>>)
      ensures stored == initial
    {
      stored := initial;
    }

    /** `getAll`: the stored list, and the empty list when the key holds nothing. */
    function GetAll(): (r: seq<Message>)
      reads this
      ensures r == [] <==> stored.None? || stored.value == []
      ensures stored.Some? ==> r == stored.value
    {
      stored.GetOr([])
    }

    /** `getById`: the first stored record carrying `id`, or null when none does. */
    function GetById(id: string): (r: Option<Message>)
      reads this
      ensures r.Some? ==> r.value in GetAll() && r.value.id == id
      ensures r.Some? ==> exists i :: 0 <= i < |GetAll()| && GetAll()[i] == r.value
                                      && forall j :: 0 <= j < i ==> GetAll()[j].id != id
      ensures r.None? <==> forall m :: m in GetAll() ==> m.id != id
    {
      match FindIndex(GetAll(), id)
      case None => None
      case Some(i) => Some(GetAll()[i])
    }

    /** `getBySender`: exactly the stored records sent by `senderFid`, in stored order. */
    function GetBySender(senderFid: int): (r: seq<Message>)
      reads this
      ensures forall m :: m in r <==> m in GetAll() && m.senderFid == senderFid
      ensures forall m :: multiset(r)[m] == if m.senderFid == senderFid then multiset(GetAll())[m] else 0
    {
      Filter(GetAll(), SentBy(senderFid))
    }

    /** `getByRecipient`: exactly the stored records addressed to `recipientFid`, in stored order. */
    function GetByRecipient(recipientFid: int): (r: seq<Message>)
      reads this
      ensures forall m :: m in r <==> m in GetAll() && m.recipientFid == recipientFid
      ensures forall m :: multiset(r)[m] == if m.recipientFid == recipientFid then multiset(GetAll())[m] else 0
    {
      Filter(GetAll(), SentTo(recipientFid))
    }

    /** `save`: append `m` at the end and write the whole list back; ids are not checked. */
    method Save(m: Message)
      modifies this
      ensures stored == Some(old(GetAll()) + [m])
    {
      var messages := GetAll();
      messages := messages + [m];
      stored := Some(messages);
    }

    /** `update`: merge `u` into the first record carrying `id`; with no such record, write nothing. */
    method Update(id: string, u: Patch)
      modifies this
      ensures FindIndex(old(GetAll()), id).None? ==> stored == old(stored)
      ensures FindIndex(old(GetAll()), id).Some? ==> stored == Some(Updated(old(GetAll()), id, u))
    {
      var messages := GetAll();
      var index := FindIndex(messages, id);
      if index.Some? {
        messages := messages[index.value := Merge(messages[index.value], u)];
        stored := Some(messages);
      }
    }
  }

  // ----- Properties relating the operations -----

  /** After a save, the record is found by its id unless an earlier record already carries that id. */
  lemma {:induction false} SaveThenFind(ms: seq<Message>, m: Message)
    ensures FindIndex(ms + [m], m.id) ==
              if FindIndex(ms, m.id).Some? then FindIndex(ms, m.id) else Some(|ms|)
  {
    if ms != [] {
      assert (ms + [m])[1..] == ms[1..] + [m];
      SaveThenFind(ms[1..], m);
    }
  }

  /** A save adds the new record to the end of a sender's (or recipient's) query result, or to none. */
  lemma SaveThenFilter(ms: seq<Message>, m: Message, p: Message -> bool)
    ensures Filter(ms + [m], p) == Filter(ms, p) + (if p(m) then [m] else [])
  {
    FilterAppend(ms, [m], p);
    assert Filter([m], p) == (if p(m) then [m] else []) by {
      assert [m][1..] == [];
    }
  }

  /** Immediately after `update(id, u)`, `getById(id)` returns the merged record, even among duplicates. */
  lemma UpdateThenFind(ms: seq<Message>, id: string, u: Patch)
    requires FindIndex(ms, id).Some?
    requires u.id.None? || u.id.value == id
    ensures FindIndex(Updated(ms, id, u), id) == FindIndex(ms, id)
    ensures Updated(ms, id, u)[FindIndex(ms, id).value] == Merge(ms[FindIndex(ms, id).value], u)
  {
  }

  /** Applying the same patch twice changes nothing more than applying it once. */
  lemma MergeIdempotent(m: Message, u: Patch)
    ensures Merge(Merge(m, u), u) == Merge(m, u)
  {
  }

  /** Repeating an update that keeps the id leaves the list as the first update left it. */
  lemma UpdateIdempotent(ms: seq<Message>, id: string, u: Patch)
    requires u.id.None? || u.id.value == id
    ensures Updated(Updated(ms, id, u), id, u) == Updated(ms, id, u)
  {
  }
}
