/**
 * The real-time fan-out hub (websocket/hub.go).
 *
 * The hub owns a table of live clients keyed by user id and an index of
 * rooms (conversation id -> set of client handles). Every case of the
 * `Run` select loop, and `JoinChatRoom` / `LeaveChatRoom`, is one atomic
 * method here. Go's runtime panics (sending on, or closing, a closed
 * channel) are the explicit outcome `Panicked`.
 */
module Hub {
  import opened Protocol

  /** Capacity of a client's outbound queue: `make(chan []byte, 256)`. */
  const SendCapacity: nat := 256

  /** Result of one hub step: it completed, or the Go runtime would panic. */
  datatype Outcome = Done | Panicked

  /** What the writer of a connection gets from its queue. */
  datatype Receipt = Item(message: Bytes) | QueueClosed | WouldBlock

  /**
   * `rooms` after removing `c` from every room named in `ids`, deleting
   * the rooms this leaves empty.
   */
  function Detach(rooms: map<nat, set<Client>>, c: Client, ids: set<nat>): map<nat, set<Client>>
  {
    map r | r in rooms && (r !in ids || rooms[r] - {c} != {}) :: if r in ids then rooms[r] - {c} else rooms[r]
  }

  /** One connection's server-side state. */
  class Client {
    const id: nat
    /** The buffered contents of the `Send` channel, oldest first. */
    var send: seq<Bytes>
    /** Whether `Send` has been closed. */
    var closed: bool
    /** The keys of the `ChatRooms` map. */
    var chatRooms: set<nat>

    ghost predicate Valid()
      reads this
    {
      |send| <= SendCapacity
    }

    /** The state the upgrade handler builds before registering a connection. */
    predicate IsNew()
      reads this
    {
      send == [] && !closed && chatRooms == {}
    }

    constructor (id: nat)
      ensures this.id == id && IsNew() && Valid()
    {
      this.id := id;
      send := [];
      closed := false;
      chatRooms := {};
    }
  }

  class Hub {
    var clients: map<nat, Client>
    var chatRooms: map<nat, set<Client>>

    /** Every client some room refers to. */
    ghost function Members(): set<Client>
      reads this
    {
      set r, c | r in chatRooms && c in chatRooms[r] :: c
    }

    /** The members of room `chatID`, empty when there is no such room. */
    function Room(chatID: nat): set<Client>
      reads this
    {
      if chatID in chatRooms then chatRooms[chatID] else {}
    }

    /** `c` is the handle the client table holds for its id. */
    predicate IsLive(c: Client)
      reads this
    {
      c.id in clients && clients[c.id] == c
    }

    /** Every room present is non-empty. */
    ghost predicate RoomsNonEmpty()
      reads this
    {
      forall r :: r in chatRooms ==> chatRooms[r] != {}
    }

    /** A member of room r has r in its joined-set, and a bounded queue. */
    ghost predicate MembersJoined()
      reads this, Members()
    {
      forall r, c :: r in chatRooms && c in chatRooms[r] ==> r in c.chatRooms && |c.send| <= SendCapacity
    }

    /** The table maps each id to a handle with that id, whose queue is open and bounded. */
    ghost predicate TableSound()
      reads this, clients.Values
    {
      forall id :: id in clients ==> clients[id].id == id && !clients[id].closed && |clients[id].send| <= SendCapacity
    }

    /** A live handle is a member of every room in its joined-set. */
    ghost predicate LiveJoined()
      reads this, clients.Values
    {
      forall id, r :: id in clients && r in clients[id].chatRooms ==> r in chatRooms && clients[id] in chatRooms[r]
    }

    /** The hub's invariant. */
    ghost predicate Valid()
      reads this, Members(), clients.Values
    {
      RoomsNonEmpty() && MembersJoined() && TableSound() && LiveJoined()
    }

    /** NewHub: no clients, no rooms. */
    constructor ()
      ensures Valid() && clients == map[] && chatRooms == map[]
    {
      clients := map[];
      chatRooms := map[];
    }

    /** The effect of JoinChatRoom(c, chatID). */
    twostate predicate JoinEffect(c: Client, chatID: nat)
      reads this, c
    {
      && chatRooms == old(chatRooms)[chatID := old(Room(chatID)) + {c}]
      && c.chatRooms == old(c.chatRooms) + {chatID}
      && clients == old(clients)
      && c.send == old(c.send) && c.closed == old(c.closed)
    }

    /** The effect of LeaveChatRoom(c, chatID). */
    twostate predicate LeaveEffect(c: Client, chatID: nat)
      reads this, c
    {
      && chatRooms == Detach(old(chatRooms), c, {chatID})
      && c.chatRooms == old(c.chatRooms) - {chatID}
      && clients == old(clients)
      && c.send == old(c.send) && c.closed == old(c.closed)
    }

    /**
     * The effect of one broadcast step. The room index and every joined-set
     * are unchanged; a member whose id is `env.exclude` is untouched; every
     * other member is either untouched or offered the payload. The step
     * panics exactly when some other member's queue is already closed.
     * Otherwise each other member either gets the payload appended to its
     * queue (when the queue has room) or has its queue closed and its id
     * deleted from the client table, while staying in the room.
     */
    twostate predicate BroadcastEffect(env: Envelope, outcome: Outcome)
      reads this, Room(env.chatID)
    {
      && chatRooms == old(chatRooms)
      && (forall c :: c in old(Room(env.chatID)) ==> c.chatRooms == old(c.chatRooms))
      && (forall c :: c in old(Room(env.chatID)) && c.id == env.exclude ==> QueueUnchanged(c))
      && (forall c :: c in old(Room(env.chatID)) && c.id != env.exclude ==> QueueUnchanged(c) || (!old(c.closed) && Offered(c, env.message)))
      && (outcome == Panicked <==> exists c :: c in old(Room(env.chatID)) && c.id != env.exclude && old(c.closed))
      && clients.Keys <= old(clients.Keys)
      && (outcome == Done ==>
            && clients == old(clients) - old(Overflowing(env))
            && forall c :: c in old(Room(env.chatID)) && c.id != env.exclude ==> Offered(c, env.message))
    }

    /**
     * Where the broadcast loop stands with member `c`: its joined-set is
     * untouched, and its queue too unless it has been visited and is not
     * excluded, in which case it was open and has been offered the payload.
     */
    twostate predicate Handled(c: Client, env: Envelope, visited: bool)
      reads c
    {
      && c.chatRooms == old(c.chatRooms)
      && if visited && c.id != env.exclude then !old(c.closed) && Offered(c, env.message) else QueueUnchanged(c)
    }

    /** The queue of `c` is as it was. */
    twostate predicate QueueUnchanged(c: Client)
      reads c
    {
      c.send == old(c.send) && c.closed == old(c.closed)
    }

    /**
     * The non-blocking send `select { case c.Send <- msg: default: close(c.Send) }`
     * on an open queue: the payload is appended when the queue has room,
     * otherwise the queue is closed and keeps its contents.
     */
    twostate predicate Offered(c: Client, msg: Bytes)
      reads c
    {
      if old(|c.send|) < SendCapacity
      then c.send == old(c.send) + [msg] && !c.closed
      else c.send == old(c.send) && c.closed
    }

    /** The ids of the members a broadcast finds with a full queue. */
    ghost function Overflowing(env: Envelope): set<nat>
      reads this, Room(env.chatID)
    {
      set c | c in Room(env.chatID) && c.id != env.exclude && |c.send| >= SendCapacity :: c.id
    }

    /** The `register` case: the table entry for `c.id` becomes `c`, replacing any previous handle. */
    method Register(c: Client)
      requires Valid() && c.IsNew()
      modifies this
      ensures Valid()
      ensures clients == old(clients)[c.id := c]
      ensures chatRooms == old(chatRooms)
    {
      clients := clients[c.id := c];
    }

    /**
     * The `unregister` case. When `c.id` is not in the table nothing
     * changes. Otherwise the entry for `c.id` is deleted (whichever handle
     * it holds), and then closing an already closed queue panics; else the
     * queue is closed and `c` leaves every room of its joined-set.
     */
    method Unregister(c: Client) returns (outcome: Outcome)
      requires Valid()
      modifies this, c
      ensures Valid()
      ensures c.send == old(c.send) && c.chatRooms == old(c.chatRooms)
      ensures c.id !in old(clients) ==> outcome == Done && clients == old(clients) && chatRooms == old(chatRooms) && c.closed == old(c.closed)
      ensures c.id in old(clients) && old(c.closed) ==> outcome == Panicked && clients == old(clients) - {c.id} && chatRooms == old(chatRooms) && c.closed
      ensures c.id in old(clients) && !old(c.closed) ==>
                outcome == Done && clients == old(clients) - {c.id} && c.closed && chatRooms == Detach(old(chatRooms), c, c.chatRooms)
      ensures outcome == Done && c.id in old(clients) ==> forall r :: r in chatRooms ==> c !in chatRooms[r]
    {
      outcome := Done;
      if c.id in clients {
        clients := clients - {c.id};
        if c.closed {
          return Panicked;
        }
        c.closed := true;
        LeaveAll(c);
        ghost var m0 := old(chatRooms);
        assert RoomsNonEmpty() by {
          forall r | r in chatRooms ensures chatRooms[r] != {} {
            assert r in m0 && m0[r] != {};
          }
        }
        assert MembersJoined() by {
          forall r, d | r in chatRooms && d in chatRooms[r] ensures r in d.chatRooms && |d.send| <= SendCapacity {
            assert r in m0 && d in m0[r];
          }
        }
        assert LiveJoined() by {
          forall id, r | id in clients && r in clients[id].chatRooms ensures r in chatRooms && clients[id] in chatRooms[r] {
            var d := clients[id];
            assert id != c.id && d != c;
            assert r in m0 && d in m0[r] - {c};
          }
        }
        forall r | r in chatRooms ensures c !in chatRooms[r] {
          assert r in m0;
          if r !in c.chatRooms {
            assert c !in m0[r];
          }
        }
      }
    }

    /** The loop of the `unregister` case: `c` leaves every room of its joined-set. */
    method LeaveAll(c: Client)
      modifies this
      ensures chatRooms == Detach(old(chatRooms), c, c.chatRooms)
      ensures clients == old(clients)
    {
      var todo := c.chatRooms;
      while todo != {}
        invariant todo <= c.chatRooms
        invariant chatRooms == Detach(old(chatRooms), c, c.chatRooms - todo)
        invariant clients == old(clients)
        decreases todo
      {
        var r :| r in todo;
        ghost var done := c.chatRooms - todo;
        assert c.chatRooms - (todo - {r}) == done + {r};
        DetachOneMore(old(chatRooms), c, done, r);
        if r in chatRooms {
          var room := chatRooms[r] - {c};
          if room == {} {
            chatRooms := chatRooms - {r};
          } else {
            chatRooms := chatRooms[r := room];
          }
        }
        todo := todo - {r};
      }
      assert c.chatRooms - todo == c.chatRooms;
    }

    /** JoinChatRoom: `c` enters room `chatID` (created if absent) and records it in its joined-set. */
    method JoinChatRoom(c: Client, chatID: nat)
      requires Valid() && c.Valid()
      modifies this, c
      ensures Valid()
      ensures JoinEffect(c, chatID)
    {
      if chatID !in chatRooms {
        chatRooms := chatRooms[chatID := {}];
      }
      chatRooms := chatRooms[chatID := chatRooms[chatID] + {c}];
      c.chatRooms := c.chatRooms + {chatID};
    }

    /** LeaveChatRoom: `c` leaves room `chatID` (deleted when left empty) and forgets it in its joined-set. */
    method LeaveChatRoom(c: Client, chatID: nat)
      requires Valid()
      modifies this, c
      ensures Valid()
      ensures LeaveEffect(c, chatID)
    {
      if chatID in chatRooms {
        var room := chatRooms[chatID] - {c};
        if room == {} {
          chatRooms := chatRooms - {chatID};
        } else {
          chatRooms := chatRooms[chatID := room];
        }
      }
      c.chatRooms := c.chatRooms - {chatID};
      ghost var m0 := old(chatRooms);
      DetachOneMore(m0, c, {}, chatID);
      assert Detach(m0, c, {}) == m0;
      assert {} + {chatID} == {chatID};
      assert MembersJoined() by {
        forall r, d | r in chatRooms && d in chatRooms[r] ensures r in d.chatRooms && |d.send| <= SendCapacity {
          assert r in m0 && d in m0[r];
        }
      }
      assert LiveJoined() by {
        forall id, r | id in clients && r in clients[id].chatRooms ensures r in chatRooms && clients[id] in chatRooms[r] {
          var d := clients[id];
          assert r in m0 && d in m0[r];
          if r == chatID {
            assert d != c && d in m0[r] - {c};
          }
        }
      }
    }

    /** The `broadcast` case: the non-blocking fan-out of one envelope to its room. */
    method Broadcast(env: Envelope) returns (outcome: Outcome)
      requires Valid()
      modifies this, Room(env.chatID)
      ensures Valid()
      ensures BroadcastEffect(env, outcome)
      ensures env.chatID !in old(chatRooms) ==> outcome == Done && unchanged(this)
    {
      outcome := Done;
      if env.chatID in chatRooms {
        var room := chatRooms[env.chatID];
        var todo := room;
        ghost var full := Overflowing(env);
        ghost var evicted: set<nat> := {};
        while todo != {}
          invariant todo <= room
          invariant chatRooms == old(chatRooms)
          invariant forall c :: c in todo ==> Handled(c, env, false)
          invariant forall c :: c in room - todo ==> Handled(c, env, true)
          invariant clients == old(clients) - evicted
          invariant evicted <= full
          invariant forall c :: c in room - todo && c.id != env.exclude && old(|c.send|) >= SendCapacity ==> c.id in evicted
          invariant Valid()
          decreases todo
        {
          var c :| c in todo;
          if c.id != env.exclude {
            ghost var wasFull := |c.send| >= SendCapacity;
            var panicked := Offer(c, env.chatID, env.message);
            if panicked {
              assert forall d :: d in room ==> d in todo || d in room - todo;
              return Panicked;
            }
            if wasFull {
              evicted := evicted + {c.id};
            }
          }
          todo := todo - {c};
        }
        assert room - todo == room;
        assert evicted == full;
      }
    }

    /**
     * The inner `select` of the broadcast loop for one member `c` of room
     * `chatID`: sending on a closed queue panics; a queue with room gets the
     * payload; a full one is closed and its id deleted from the table.
     */
    method Offer(c: Client, chatID: nat, msg: Bytes) returns (panicked: bool)
      requires Valid() && c in Room(chatID)
      modifies this, c
      ensures Valid()
      ensures chatRooms == old(chatRooms) && c.chatRooms == old(c.chatRooms)
      ensures panicked == old(c.closed)
      ensures panicked ==> QueueUnchanged(c) && clients == old(clients)
      ensures !panicked ==> Offered(c, msg) && clients == if old(|c.send|) < SendCapacity then old(clients) else old(clients) - {c.id}
    {
      if c.closed {
        return true;
      }
      panicked := false;
      if |c.send| < SendCapacity {
        c.send := c.send + [msg];
      } else {
        c.closed := true;
        clients := clients - {c.id};
      }
    }

    /** WritePump's receive: the writer takes the head of the queue; a closed, drained queue ends it. */
    method Dequeue(c: Client) returns (r: Receipt)
      requires Valid() && c.Valid()
      modifies c
      ensures Valid() && c.Valid()
      ensures c.closed == old(c.closed) && c.chatRooms == old(c.chatRooms)
      ensures old(c.send) != [] ==> r == Item(old(c.send)[0]) && c.send == old(c.send)[1..]
      ensures old(c.send) == [] ==> c.send == [] && r == (if c.closed then QueueClosed else WouldBlock)
    {
      if c.send != [] {
        r := Item(c.send[0]);
        c.send := c.send[1..];
      } else if c.closed {
        r := QueueClosed;
      } else {
        r := WouldBlock;
      }
    }

    /** ReadPump's handling of one frame read from connection `c`. */
    method Dispatch(c: Client, f: Frame) returns (outcome: Outcome)
      requires Valid() && c.Valid()
      modifies this, c, Room(FrameChat(f))
      ensures Valid()
      ensures Classify(f, c.id).JoinRoom? ==> outcome == Done && JoinEffect(c, FrameChat(f))
      ensures Classify(f, c.id).LeaveRoom? ==> outcome == Done && LeaveEffect(c, FrameChat(f))
      ensures Classify(f, c.id).Relay? ==> BroadcastEffect(Envelope(FrameChat(f), f.raw, c.id), outcome)
      ensures Classify(f, c.id).Drop? ==> outcome == Done && unchanged(this, c) && forall d :: d in old(Room(FrameChat(f))) ==> unchanged(d)
    {
      match Classify(f, c.id)
      case JoinRoom(chatID) =>
        JoinChatRoom(c, chatID);
        outcome := Done;
      case LeaveRoom(chatID) =>
        LeaveChatRoom(c, chatID);
        outcome := Done;
      case Relay(env) =>
        outcome := Broadcast(env);
      case Drop =>
        outcome := Done;
    }
  }

  /**
   * What Detach does to the room table: rooms not named are kept as they
   * are; a named room loses exactly `c` and is deleted exactly when that
   * empties it; so no room is created and no room is left empty.
   */
  lemma DetachMeaning(rooms: map<nat, set<Client>>, c: Client, ids: set<nat>)
    ensures Detach(rooms, c, ids).Keys <= rooms.Keys
    ensures forall r :: r in rooms && r !in ids ==> r in Detach(rooms, c, ids) && Detach(rooms, c, ids)[r] == rooms[r]
    ensures forall r :: r in rooms && r in ids ==> (r in Detach(rooms, c, ids) <==> rooms[r] - {c} != {})
    ensures forall r :: r in Detach(rooms, c, ids) && r in ids ==> Detach(rooms, c, ids)[r] == rooms[r] - {c}
    ensures (forall r :: r in rooms ==> rooms[r] != {}) ==> forall r :: r in Detach(rooms, c, ids) ==> Detach(rooms, c, ids)[r] != {}
  {
  }

  /** Removing `c` from one more room `r` extends a Detach over `done` to one over `done + {r}`. */
  lemma DetachOneMore(rooms: map<nat, set<Client>>, c: Client, done: set<nat>, r: nat)
    requires r !in done
    ensures var m := Detach(rooms, c, done);
            Detach(rooms, c, done + {r}) ==
              if r in m then (if m[r] - {c} == {} then m - {r} else m[r := m[r] - {c}]) else m
  {
  }

}
