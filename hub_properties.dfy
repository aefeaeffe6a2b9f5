/**
 * Consequences of the hub's step contracts that span several steps:
 * per-client FIFO delivery, the fate of an evicted member, the effects of
 * a second connection for the same user, and four small end-to-end
 * scenarios (two clients in one room, a room dying with its last member,
 * leaving one of two rooms, re-registration).
 */
module HubProperties {
  import opened Protocol
  import opened Hub

  /**
   * Per-client FIFO: two broadcasts that both reach member `c`, to the same
   * room or to two rooms it is in, are queued in submission order behind
   * what it already had; its writer then takes them from the head.
   */
  method FifoPerMember(h: Hub, e1: Envelope, e2: Envelope, c: Client) returns (o1: Outcome, o2: Outcome)
    requires h.Valid()
    requires c in h.Room(e1.chatID) && c in h.Room(e2.chatID)
    requires c.id != e1.exclude && c.id != e2.exclude
    requires |c.send| + 2 <= SendCapacity
    modifies h, h.Room(e1.chatID), h.Room(e2.chatID)
    ensures h.Valid()
    ensures o1 == Done && o2 == Done ==> c.send == old(c.send) + [e1.message, e2.message]
  {
    o1 := h.Broadcast(e1);
    if o1 == Panicked {
      return o1, Panicked;
    }
    o2 := h.Broadcast(e2);
  }

  /**
   * A member whose queue is full is evicted by a broadcast: its queue is
   * closed and its id leaves the table, but it stays in the room. Its own
   * unregister is then a no-op, because its id is absent, so the next
   * broadcast to the room sends on its closed queue and panics.
   */
  method EvictedMemberStaysInRoom(h: Hub, e1: Envelope, e2: Envelope, c: Client) returns (o1: Outcome, u: Outcome, o2: Outcome)
    requires h.Valid()
    requires c in h.Room(e1.chatID) && e2.chatID == e1.chatID
    requires c.id != e1.exclude && c.id != e2.exclude
    requires |c.send| == SendCapacity
    modifies h, h.Room(e1.chatID)
    ensures h.Valid()
    ensures o1 == Done ==> u == Done && o2 == Panicked && c in h.Room(e1.chatID) && c.closed && c.id !in h.clients
  {
    o1 := h.Broadcast(e1);
    if o1 == Panicked {
      return o1, Done, Panicked;
    }
    assert c.closed && c.id !in h.clients;
    u := h.Unregister(c);
    o2 := h.Broadcast(e2);
  }

  /**
   * A client evicted by overflow whose user reconnects: the new handle takes
   * the table entry for the same id, and when the old reader's deferred
   * unregister runs the id is present, so its already closed queue is closed
   * a second time, and that panics.
   */
  method ReconnectAfterEvictionPanics(h: Hub, old1: Client, new2: Client) returns (o: Outcome)
    requires h.Valid()
    requires old1.closed && new2.IsNew() && new2.id == old1.id
    modifies h, old1
    ensures o == Panicked
  {
    h.Register(new2);
    o := h.Unregister(old1);
  }

  /**
   * Register overwrites the table entry of a user who is already connected
   * without cleaning up the old handle: the superseded handle is no longer
   * live but is still a member of its rooms.
   */
  method ReRegisterKeepsStaleMember(h: Hub, a1: Client, a2: Client, r: nat)
    requires h.Valid() && h.IsLive(a1) && a1 in h.Room(r)
    requires a2.IsNew() && a2.id == a1.id && a2 != a1
    modifies h
    ensures h.Valid()
    ensures h.IsLive(a2) && !h.IsLive(a1) && a1 in h.Room(r)
  {
    h.Register(a2);
  }

  /**
   * Unregister is keyed by id: when a superseded handle unregisters, it
   * deletes the table entry of the newer handle, which keeps its open queue
   * and its room memberships but is no longer live.
   */
  method SupersededUnregisterDropsNewer(h: Hub, a1: Client, a2: Client) returns (o: Outcome)
    requires h.Valid() && h.IsLive(a2) && a1.id == a2.id && a1 != a2 && !a1.closed
    modifies h, a1
    ensures h.Valid() && o == Done
    ensures a2.id !in h.clients && !a2.closed
    ensures forall r :: a2 in old(h.Room(r)) ==> a2 in h.Room(r)
  {
    o := h.Unregister(a1);
  }

  /** Joining a room a second time changes nothing more than the first join did. */
  method JoinIsIdempotent(h: Hub, c: Client, r: nat)
    requires h.Valid() && c.Valid()
    modifies h, c
    ensures h.Valid()
    ensures h.JoinEffect(c, r)
  {
    h.JoinChatRoom(c, r);
    h.JoinChatRoom(c, r);
  }

  /**
   * A broadcast with exclude id 0, the handlers' "exclude no one", offers
   * the payload to every member of the room, since no user has id 0.
   */
  method ExcludeZeroReachesEveryone(h: Hub, chatID: nat, msg: Bytes) returns (o: Outcome)
    requires h.Valid()
    requires forall c :: c in h.Room(chatID) ==> c.id != 0
    modifies h, h.Room(chatID)
    ensures h.Valid()
    ensures o == Panicked <==> exists c :: c in old(h.Room(chatID)) && old(c.closed)
    ensures o == Done ==> forall c :: c in old(h.Room(chatID)) ==> h.Offered(c, msg)
  {
    o := h.Broadcast(Envelope(chatID, msg, 0));
  }

  /**
   * A second unregister of the same handle is a no-op: the hub's tables and
   * the handle's queue, closed flag and rooms stay as the first call left them.
   */
  method UnregisterTwice(h: Hub, c: Client)
    returns (o1: Outcome, o2: Outcome, ghost clients1: map<nat, Client>, ghost rooms1: map<nat, set<Client>>,
             ghost closed1: bool, ghost send1: seq<Bytes>, ghost joined1: set<nat>)
    requires h.Valid()
    modifies h, c
    ensures h.Valid()
    ensures o1 == Done ==> o2 == Done && h.clients == clients1 && h.chatRooms == rooms1 && c.id !in h.clients
    ensures o1 == Done ==> c.closed == closed1 && c.send == send1 && c.chatRooms == joined1
  {
    o1 := h.Unregister(c);
    clients1, rooms1 := h.clients, h.chatRooms;
    closed1, send1, joined1 := c.closed, c.send, c.chatRooms;
    if o1 == Panicked {
      return o1, Panicked, clients1, rooms1, closed1, send1, joined1;
    }
    o2 := h.Unregister(c);
  }

  /** The bytes of "hello". */
  function Hello(): Bytes {
    [104, 101, 108, 108, 111]
  }

  /**
   * Two users in room 5; user 1 broadcasts "hello" excluding itself: only
   * user 2's queue receives it.
   */
  method ScenarioExcludeSender() returns (a: Client, b: Client, o: Outcome)
    ensures o == Done && a.send == [] && b.send == [Hello()]
  {
    var h := new Hub();
    a := new Client(1);
    b := new Client(2);
    h.Register(a);
    h.JoinChatRoom(a, 5);
    h.Register(b);
    h.JoinChatRoom(b, 5);
    assert h.Room(5) == {a, b};
    label before:
    o := h.Broadcast(Envelope(5, Hello(), 1));
    assert a in old@before(h.Room(5)) && b in old@before(h.Room(5));
  }

  /** A room is deleted when its only member unregisters. */
  method ScenarioLastMemberLeaves() returns (h: Hub, o: Outcome)
    ensures 5 !in h.chatRooms && h.clients == map[] && o == Done
  {
    h := new Hub();
    var a := new Client(1);
    h.Register(a);
    h.JoinChatRoom(a, 5);
    o := h.Unregister(a);
  }

  /** Join rooms 5 and 6, leave 5: the joined-set is {6}, room 5 is gone and room 6 holds the client. */
  method ScenarioLeaveOne() returns (h: Hub, a: Client)
    ensures a.chatRooms == {6} && 5 !in h.chatRooms && h.Room(6) == {a}
  {
    h := new Hub();
    a := new Client(1);
    h.Register(a);
    h.JoinChatRoom(a, 5);
    h.JoinChatRoom(a, 6);
    h.LeaveChatRoom(a, 5);
  }

  /**
   * Two registrations for the same user: the table holds exactly the
   * second handle, and room 5 still refers to the first one, which had
   * joined it.
   */
  method ScenarioDuplicateRegistration() returns (h: Hub, a1: Client, a2: Client)
    ensures h.clients == map[1 := a2] && a1 in h.Room(5) && a1 != a2
  {
    h := new Hub();
    a1 := new Client(1);
    h.Register(a1);
    h.JoinChatRoom(a1, 5);
    a2 := new Client(1);
    h.Register(a2);
  }
}
