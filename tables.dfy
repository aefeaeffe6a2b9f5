/**
 * The relational tables that the group and chat services read and write,
 * held in memory. Every table maps a primary key to a row; keys are handed
 * out by a per-table sequence that starts at 1, as an auto-increment column
 * does, and a deleted row (gorm's soft delete) is simply a key that is no
 * longer present.
 */
module Tables {
  import opened Wrappers

  /** A primary key. Zero is never assigned. */
  type Id = nat

  datatype Group = Group(name: string, description: string, icon: string, createdBy: Id)

  /** One membership row; the role column holds "admin" or "member". */
  datatype GroupMember = GroupMember(groupId: Id, userId: Id, role: string)

  /**
   * A chat: "private" ones name their two users, "group" ones their group;
   * `lastMessage` is the last_message_id column.
   */
  datatype Chat = Chat(kind: string, user1: Option<Id>, user2: Option<Id>, groupId: Option<Id>, lastMessage: Option<Id>)

  /** `createdAt` is a timestamp in nanoseconds. */
  datatype Message = Message(chatId: Id, senderId: Id, kind: string, content: string, mediaUrl: string,
                             status: string, replyTo: Option<Id>, createdAt: int)

  datatype MessageStatus = MessageStatus(messageId: Id, userId: Id, status: string, timestamp: int)

  const AdminRole: string := "admin"
  const MemberRole: string := "member"

  class Database {
    var groups: map<Id, Group>
    var members: map<Id, GroupMember>
    var chats: map<Id, Chat>
    var messages: map<Id, Message>
    /** The message_statuses table, which is only ever appended to. */
    var statuses: seq<MessageStatus>
    /** The next value of each table's id sequence. */
    var nextGroup: Id
    var nextMember: Id
    var nextChat: Id
    var nextMessage: Id

    /**
     * Every key was handed out by its sequence, and every membership row
     * names a group id that has been handed out.
     */
    ghost predicate Valid()
      reads this
    {
      && 0 < nextGroup && 0 < nextMember && 0 < nextChat && 0 < nextMessage
      && (forall k :: k in groups ==> 0 < k < nextGroup)
      && (forall k :: k in members ==> 0 < k < nextMember)
      && (forall k :: k in chats ==> 0 < k < nextChat)
      && (forall k :: k in messages ==> 0 < k < nextMessage)
      && (forall k :: k in members ==> members[k].groupId < nextGroup)
    }

    constructor ()
      ensures Valid()
      ensures groups == map[] && members == map[] && chats == map[] && messages == map[] && statuses == []
      ensures nextGroup == 1 && nextMember == 1 && nextChat == 1 && nextMessage == 1
    {
      groups, members, chats, messages, statuses := map[], map[], map[], map[], [];
      nextGroup, nextMember, nextChat, nextMessage := 1, 1, 1, 1;
    }

    /** INSERT of a group row: it gets the next key of its sequence. */
    method CreateGroupRow(row: Group) returns (id: Id)
      requires Valid()
      modifies this`groups, this`nextGroup
      ensures Valid()
      ensures id == old(nextGroup) && id !in old(groups) && nextGroup == id + 1
      ensures groups == old(groups)[id := row]
    {
      id := nextGroup;
      groups := groups[id := row];
      nextGroup := id + 1;
    }

    /** INSERT of a membership row of a group whose key has been handed out. */
    method CreateMemberRow(row: GroupMember) returns (id: Id)
      requires Valid() && row.groupId < nextGroup
      modifies this`members, this`nextMember
      ensures Valid()
      ensures id == old(nextMember) && id !in old(members) && nextMember == id + 1
      ensures members == old(members)[id := row]
    {
      id := nextMember;
      members := members[id := row];
      nextMember := id + 1;
    }

    /** INSERT of a chat row. */
    method CreateChatRow(row: Chat) returns (id: Id)
      requires Valid()
      modifies this`chats, this`nextChat
      ensures Valid()
      ensures id == old(nextChat) && id !in old(chats) && nextChat == id + 1
      ensures chats == old(chats)[id := row]
    {
      id := nextChat;
      chats := chats[id := row];
      nextChat := id + 1;
    }

    /** INSERT of a message row. */
    method CreateMessageRow(row: Message) returns (id: Id)
      requires Valid()
      modifies this`messages, this`nextMessage
      ensures Valid()
      ensures id == old(nextMessage) && id !in old(messages) && nextMessage == id + 1
      ensures messages == old(messages)[id := row]
    {
      id := nextMessage;
      messages := messages[id := row];
      nextMessage := id + 1;
    }
  }
}
