/**
 * The chat service over the shared tables: finding or creating the private
 * chat of two users, storing a message and pointing its chat at it,
 * recording delivery and read status, deleting a message, and putting a
 * page of messages fetched newest first into oldest-first order in place.
 */
module ChatService {
  import opened Wrappers
  import opened Tables

  datatype ChatError =
    | MessageNotFound   // the message row lookup failed
    | Unauthorized      // "unauthorized to delete this message"

  const PrivateKind: string := "private"
  const SentStatus: string := "sent"

  /**
   * Chat `c` is the private chat of users `a` and `b`, stored in either
   * order: its two participants are, as a set, exactly `a` and `b`.
   */
  predicate IsPrivateBetween(c: Chat, a: Id, b: Id)
    ensures IsPrivateBetween(c, a, b) <==>
      c.kind == PrivateKind && c.user1.Some? && c.user2.Some? && {c.user1.value, c.user2.value} == {a, b}
  {
    && c.kind == PrivateKind
    && ((c.user1 == Some(a) && c.user2 == Some(b)) || (c.user1 == Some(b) && c.user2 == Some(a)))
  }

  /**
   * The lookup of GetOrCreatePrivateChat: the lowest key below `bound` of a
   * private chat between `a` and `b`, which is the row a first-match query
   * ordered by primary key returns.
   */
  function FirstPrivateChat(chats: map<Id, Chat>, a: Id, b: Id, bound: nat): (r: Option<Id>)
    ensures r.Some? ==> r.value < bound && r.value in chats && IsPrivateBetween(chats[r.value], a, b)
    ensures r.Some? ==> forall k :: k in chats && k < r.value ==> !IsPrivateBetween(chats[k], a, b)
    ensures r.None? ==> forall k :: k in chats && k < bound ==> !IsPrivateBetween(chats[k], a, b)
  {
    if bound == 0 then None
    else
      match FirstPrivateChat(chats, a, b, bound - 1)
      case Some(k) => Some(k)
      case None => if bound - 1 in chats && IsPrivateBetween(chats[bound - 1], a, b) then Some(bound - 1) else None
  }

  /** The lookup does not depend on the order in which the two users are given. */
  lemma {:induction false} FirstPrivateChatSymmetric(chats: map<Id, Chat>, a: Id, b: Id, bound: nat)
    ensures FirstPrivateChat(chats, a, b, bound) == FirstPrivateChat(chats, b, a, bound)
  {
    if bound > 0 {
      FirstPrivateChatSymmetric(chats, a, b, bound - 1);
    }
  }

  /**
   * GetOrCreatePrivateChat: the private chat of the two users if one exists
   * (the lowest key), otherwise a new one with user1 = a and user2 = b.
   */
  method GetOrCreatePrivateChat(db: Database, a: Id, b: Id) returns (id: Id)
    requires db.Valid()
    modifies db`chats, db`nextChat
    ensures db.Valid()
    ensures id in db.chats && IsPrivateBetween(db.chats[id], a, b)
    ensures forall k :: k in db.chats && k < id ==> !IsPrivateBetween(db.chats[k], a, b)
    ensures FirstPrivateChat(old(db.chats), a, b, old(db.nextChat)).Some? ==>
      id == FirstPrivateChat(old(db.chats), a, b, old(db.nextChat)).value && db.chats == old(db.chats)
    ensures FirstPrivateChat(old(db.chats), a, b, old(db.nextChat)).None? ==>
      id == old(db.nextChat) && db.chats == old(db.chats)[id := Chat(PrivateKind, Some(a), Some(b), None, None)]
  {
    var found := FirstPrivateChat(db.chats, a, b, db.nextChat);
    if found.Some? {
      return found.value;
    }
    id := db.CreateChatRow(Chat(PrivateKind, Some(a), Some(b), None, None));
  }

  /**
   * Asking again, with the users in either order, returns the same chat
   * and creates nothing.
   */
  method GetOrCreateIsStable(db: Database, a: Id, b: Id) returns (id1: Id, id2: Id)
    requires db.Valid()
    modifies db`chats, db`nextChat
    ensures id1 == id2
    ensures db.chats == old(db.chats) || db.chats == old(db.chats)[id1 := Chat(PrivateKind, Some(a), Some(b), None, None)]
  {
    id1 := GetOrCreatePrivateChat(db, a, b);
    FirstPrivateChatSymmetric(db.chats, a, b, db.nextChat);
    id2 := GetOrCreatePrivateChat(db, b, a);
  }

  /**
   * CreateMessage: store the message with status "sent" under the next key,
   * then make it its chat's last message; the chat update matches no row
   * when the chat does not exist, and that is not an error.
   */
  method CreateMessage(db: Database, chatId: Id, senderId: Id, kind: string, content: string, mediaUrl: string,
                       replyTo: Option<Id>, now: int) returns (id: Id)
    requires db.Valid()
    modifies db`messages, db`nextMessage, db`chats
    ensures db.Valid()
    ensures id == old(db.nextMessage) && id !in old(db.messages)
    ensures db.messages == old(db.messages)[id := Message(chatId, senderId, kind, content, mediaUrl, SentStatus, replyTo, now)]
    ensures chatId in old(db.chats) ==> db.chats == old(db.chats)[chatId := old(db.chats)[chatId].(lastMessage := Some(id))]
    ensures chatId !in old(db.chats) ==> db.chats == old(db.chats)
  {
    id := db.CreateMessageRow(Message(chatId, senderId, kind, content, mediaUrl, SentStatus, replyTo, now));
    if chatId in db.chats {
      db.chats := db.chats[chatId := db.chats[chatId].(lastMessage := Some(id))];
    }
  }

  /**
   * UpdateMessageStatus: the message's status changes only when the caller
   * is not its sender (and the message exists); a status record is
   * appended in every case.
   */
  method UpdateMessageStatus(db: Database, messageId: Id, userId: Id, status: string, now: int)
    requires db.Valid()
    modifies db`messages, db`statuses
    ensures db.Valid()
    ensures db.statuses == old(db.statuses) + [MessageStatus(messageId, userId, status, now)]
    ensures messageId in old(db.messages) && old(db.messages)[messageId].senderId != userId ==>
      db.messages == old(db.messages)[messageId := old(db.messages)[messageId].(status := status)]
    ensures messageId !in old(db.messages) || old(db.messages)[messageId].senderId == userId ==>
      db.messages == old(db.messages)
  {
    if messageId in db.messages && db.messages[messageId].senderId != userId {
      db.messages := db.messages[messageId := db.messages[messageId].(status := status)];
    }
    db.statuses := db.statuses + [MessageStatus(messageId, userId, status, now)];
  }

  /** DeleteMessage: only an existing message, and only by its sender. */
  method DeleteMessage(db: Database, messageId: Id, userId: Id) returns (err: Option<ChatError>)
    requires db.Valid()
    modifies db`messages
    ensures db.Valid()
    ensures messageId !in old(db.messages) ==> err == Some(MessageNotFound)
    ensures messageId in old(db.messages) && old(db.messages)[messageId].senderId != userId ==> err == Some(Unauthorized)
    ensures err.None? <==> messageId in old(db.messages) && old(db.messages)[messageId].senderId == userId
    ensures err.Some? ==> db.messages == old(db.messages)
    ensures err.None? ==> db.messages == old(db.messages) - {messageId}
  {
    if messageId !in db.messages {
      return Some(MessageNotFound);
    }
    if db.messages[messageId].senderId != userId {
      return Some(Unauthorized);
    }
    db.messages := db.messages - {messageId};
    return None;
  }

  /**
   * Deleting the newest message of a chat leaves the chat's last-message
   * reference pointing at a key no longer in the messages table.
   */
  method DeleteLeavesStaleLastMessage(db: Database, chatId: Id, sender: Id, content: string, now: int) returns (id: Id, err: Option<ChatError>)
    requires db.Valid() && chatId in db.chats
    modifies db`messages, db`nextMessage, db`chats
    ensures err.None? && chatId in db.chats && db.chats[chatId].lastMessage == Some(id) && id !in db.messages
  {
    id := CreateMessage(db, chatId, sender, "text", content, "", None, now);
    err := DeleteMessage(db, id, sender);
  }

  // ----- GetMessages: the page comes newest first and is reversed in place -----

  function Reversed<T>(s: seq<T>): (r: seq<T>)
    ensures |r| == |s|
  {
    if s == [] then [] else [s[|s| - 1]] + Reversed(s[..|s| - 1])
  }

  /** Element k of the reverse is element |s| - 1 - k of the original. */
  lemma {:induction false} ReversedAt<T>(s: seq<T>, k: nat)
    requires k < |s|
    ensures |Reversed(s)| == |s| && Reversed(s)[k] == s[|s| - 1 - k]
  {
    if k > 0 {
      ReversedAt(s[..|s| - 1], k - 1);
    } else if |s| > 1 {
      ReversedAt(s[..|s| - 1], 0);
    }
  }

  /** Reversing keeps exactly the same elements, each as often. */
  lemma {:induction false} ReversedSameElements<T>(s: seq<T>)
    ensures multiset(Reversed(s)) == multiset(s)
  {
    if s != [] {
      ReversedSameElements(s[..|s| - 1]);
      assert s == s[..|s| - 1] + [s[|s| - 1]];
    }
  }

  /** Reversing twice gives the page back. */
  lemma ReversedTwice<T>(s: seq<T>)
    ensures Reversed(Reversed(s)) == s
  {
    forall k | 0 <= k < |s|
      ensures Reversed(Reversed(s))[k] == s[k]
    {
      ReversedAt(Reversed(s), k);
      ReversedAt(s, |s| - 1 - k);
    }
  }

  /** A page ordered newest first, once reversed, is ordered oldest first. */
  lemma NewestFirstBecomesOldestFirst(page: seq<Message>)
    requires forall i, j :: 0 <= i < j < |page| ==> page[i].createdAt >= page[j].createdAt
    ensures forall i, j :: 0 <= i < j < |Reversed(page)| ==> Reversed(page)[i].createdAt <= Reversed(page)[j].createdAt
  {
    forall i, j | 0 <= i < j < |Reversed(page)|
      ensures Reversed(page)[i].createdAt <= Reversed(page)[j].createdAt
    {
      ReversedAt(page, i);
      ReversedAt(page, j);
    }
  }

  /** The two-index swap loop of GetMessages. */
  method ReverseMessages(messages: array<Message>)
    modifies messages
    ensures messages[..] == Reversed(old(messages[..]))
  {
    var n := messages.Length;
    var i, j := 0, n - 1;
    while i < j
      invariant 0 <= i <= n && j == n - 1 - i && i <= j + 1
      invariant forall k :: 0 <= k < i ==> messages[k] == old(messages[n - 1 - k]) && messages[n - 1 - k] == old(messages[k])
      invariant forall k :: i <= k <= j ==> messages[k] == old(messages[k])
    {
      messages[i], messages[j] := messages[j], messages[i];
      i, j := i + 1, j - 1;
    }
    ghost var before := old(messages[..]);
    forall k | 0 <= k < n
      ensures messages[..][k] == Reversed(before)[k]
    {
      ReversedAt(before, k);
    }
    if n > 0 {
      ReversedAt(before, 0);
    } else {
      assert before == [];
    }
  }
}
