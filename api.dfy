/** The request handlers of functions/api.js with the Firestore collection
    replaced by a map from room id to stored room. Each handler fetches the room
    into a RoomDoc (the `roomData` object), mutates it in place exactly as the
    handler does, and then either writes it back (`roomRef.set`) or leaves the
    stored room as it was. */
module Api {
  import opened Rooms
  import opened EmptyConversations
  import opened Membership

  /** The fetched `roomData`: its conversation list is changed in place. */
  class RoomDoc {
    var conversations: seq<Conversation>

    constructor (data: seq<Conversation>)
      ensures conversations == data
    {
      conversations := data;
    }

    /** cleanupEmptyConversations: the positions of the conversations that
        `hasNoUsers` are collected front to back, then spliced out back to front,
        so that every splice index still names the conversation it was taken for. */
    method CleanupEmptyConversations()
      modifies this
      ensures conversations == Cleanup(old(conversations))
    {
      ghost var orig := conversations;
      var empties := EmptyIndices(conversations);
      var j := |empties|;
      ghost var p := |orig|;
      while j > 0
        invariant 0 <= j <= |empties|
        invariant p == if j == |empties| then |orig| else empties[j]
        invariant p <= |orig|
        invariant conversations == orig[..p] + Cleanup(orig[p..])
      {
        j := j - 1;
        var index := empties[j];
        EmptyIndicesGap(orig, j + 1);
        CleanupSpliceStep(orig, conversations, index, p);
        conversations := conversations[..index] + conversations[index + 1..];
        p := index;
      }
      EmptyIndicesGap(orig, 0);
      CleanupCleanPrefix(orig, p);
    }

    /** Remove-from-current: `find` the user's conversation, `findIndex` the
        user in it, and `splice` that entry out. */
    method RemoveFromCurrent(email: string)
      requires InRoom(conversations, email)
      modifies this
      ensures conversations == RemoveUser(old(conversations), email)
    {
      var i := ConversationWith(conversations, email).value;
      var existing := conversations[i];
      var userIndex := UserIndex(existing.users, email).value;
      existing := existing.(users := existing.users[..userIndex] + existing.users[userIndex + 1..]);
      conversations := conversations[i := existing];
    }

    /** joinRoom's in-memory part: nothing happens if the email is already
        present; otherwise the user is pushed onto the lobby. */
    method JoinRoom(user: User) returns (o: Outcome)
      requires JoinRoomDefined(conversations, user.email)
      modifies this
      ensures o == JoinRoomOn(old(conversations), user)
      ensures conversations == if o.Ok? then o.room else old(conversations)
    {
      var allEmails := AllEmails(conversations);
      if user.email in allEmails {
        return Unchanged;
      }
      var l := LinkIndex(conversations, LobbyLink).value;
      var noLink := conversations[l];
      noLink := noLink.(users := noLink.users + [user]);
      conversations := conversations[l := noLink];
      o := Ok(conversations);
    }

    /** createConversation's in-memory part: remove, clean up, append the new conversation. */
    method CreateConversation(user: User, link: string) returns (o: Outcome)
      requires InRoom(conversations, user.email)
      modifies this
      ensures o == Ok(CreateConversationOn(old(conversations), user, link))
      ensures conversations == o.room
    {
      RemoveFromCurrent(user.email);
      CleanupEmptyConversations();
      conversations := conversations + [Conversation(link, [user])];
      o := Ok(conversations);
    }

    /** joinConversation's in-memory part: remove, clean up, then push the user
        onto the conversation with the link. When there is none, the computed
        room is left behind unwritten. */
    method JoinConversation(user: User, link: string) returns (o: Outcome)
      requires InRoom(conversations, user.email)
      modifies this
      ensures o == JoinConversationOn(old(conversations), user, link)
      ensures conversations == if o.Ok? then o.room else WithoutUser(old(conversations), user.email)
    {
      RemoveFromCurrent(user.email);
      CleanupEmptyConversations();
      var selected := LinkIndex(conversations, link);
      if selected.None? {
        return ConversationNotFound;
      }
      var t := selected.value;
      conversations := conversations[t := conversations[t].(users := conversations[t].users + [user])];
      o := Ok(conversations);
    }

    /** leaveConversation's in-memory part: remove, clean up, push the user onto the lobby. */
    method LeaveConversation(user: User) returns (o: Outcome)
      requires InRoom(conversations, user.email) && HasLobby(conversations)
      modifies this
      ensures o == Ok(LeaveConversationOn(old(conversations), user))
      ensures conversations == o.room
    {
      ghost var before := conversations;
      WithoutUserKeepsLobby(conversations, user.email);
      RemoveFromCurrent(user.email);
      CleanupEmptyConversations();
      assert conversations == WithoutUser(before, user.email);
      var l := LinkIndex(conversations, LobbyLink).value;
      conversations := conversations[l := conversations[l].(users := conversations[l].users + [user])];
      o := Ok(conversations);
    }
  }

  /** The body of a response: the room, or an error key and message. */
  datatype Body = RoomBody(room: seq<Conversation>) | ErrorBody(errorKey: string, errorMessage: string)

  datatype Response = Response(status: nat, body: Body)

  const RoomNotFound: Response :=
    Response(404, ErrorBody("error.roomNotFound", "Room Not Found, is the ID Correct?"))

  const ConversationMissing: Response :=
    Response(404, ErrorBody("error.conversationNotFound", "Conversation Not Found, is it still open?"))

  /** What a handler leaves behind for an outcome computed on room `id` of
      `before`: a written room and that room sent back, the fetched room sent back
      with nothing written, or a 404 with nothing written. */
  ghost predicate Committed(before: map<string, seq<Conversation>>, id: string, o: Outcome,
                            after: map<string, seq<Conversation>>, resp: Response)
    requires id in before
  {
    match o
    case Ok(r) => after == before[id := r] && resp == Response(200, RoomBody(r))
    case Unchanged => after == before && resp == Response(200, RoomBody(before[id]))
    case ConversationNotFound => after == before && resp == ConversationMissing
  }

  /** The `rooms` collection. */
  class Database {
    var rooms: map<string, seq<Conversation>>

    constructor (rooms: map<string, seq<Conversation>>)
      ensures this.rooms == rooms
    {
      this.rooms := rooms;
    }

    /** Every stored room keeps the room invariants. */
    ghost predicate AllValid()
      reads this
    {
      forall id :: id in rooms ==> Valid(rooms[id])
    }

    /** `roomRef.set(roomData)` when the outcome says so, and the response. */
    method Commit(id: string, o: Outcome) returns (resp: Response)
      requires id in rooms
      modifies this
      ensures Committed(old(rooms), id, o, rooms, resp)
    {
      match o {
        case Ok(r) =>
          rooms := rooms[id := r];
          resp := Response(200, RoomBody(r));
        case Unchanged =>
          resp := Response(200, RoomBody(rooms[id]));
        case ConversationNotFound =>
          resp := ConversationMissing;
      }
    }

    method HandleJoinRoom(id: string, user: User) returns (resp: Response)
      requires id in rooms ==> JoinRoomDefined(rooms[id], user.email)
      modifies this
      ensures id !in old(rooms) ==> rooms == old(rooms) && resp == RoomNotFound
      ensures id in old(rooms) ==> Committed(old(rooms), id, JoinRoomOn(old(rooms)[id], user), rooms, resp)
      ensures old(AllValid()) ==> AllValid()
    {
      if id !in rooms {
        return RoomNotFound;
      }
      var doc := new RoomDoc(rooms[id]);
      var o := doc.JoinRoom(user);
      if AllValid() {
        JoinRoomPreservesValid(rooms[id], user);
      }
      resp := Commit(id, o);
    }

    method HandleCreateConversation(id: string, user: User, link: string) returns (resp: Response)
      requires id in rooms ==> InRoom(rooms[id], user.email)
      modifies this
      ensures id !in old(rooms) ==> rooms == old(rooms) && resp == RoomNotFound
      ensures id in old(rooms) ==>
        Committed(old(rooms), id, Ok(CreateConversationOn(old(rooms)[id], user, link)), rooms, resp)
      ensures old(AllValid()) ==> AllValid()
    {
      if id !in rooms {
        return RoomNotFound;
      }
      var doc := new RoomDoc(rooms[id]);
      var o := doc.CreateConversation(user, link);
      if AllValid() {
        CreateConversationPreservesValid(rooms[id], user, link);
      }
      resp := Commit(id, o);
    }

    /** A missing destination answers 404 and the stored room stays exactly as fetched. */
    method HandleJoinConversation(id: string, user: User, link: string) returns (resp: Response)
      requires id in rooms ==> InRoom(rooms[id], user.email)
      modifies this
      ensures id !in old(rooms) ==> rooms == old(rooms) && resp == RoomNotFound
      ensures id in old(rooms) ==>
        Committed(old(rooms), id, JoinConversationOn(old(rooms)[id], user, link), rooms, resp)
      ensures old(AllValid()) ==> AllValid()
    {
      if id !in rooms {
        return RoomNotFound;
      }
      var doc := new RoomDoc(rooms[id]);
      var o := doc.JoinConversation(user, link);
      if AllValid() {
        JoinConversationPreservesValid(rooms[id], user, link);
      }
      resp := Commit(id, o);
    }

    method HandleLeaveConversation(id: string, user: User) returns (resp: Response)
      requires id in rooms ==> InRoom(rooms[id], user.email) && HasLobby(rooms[id])
      modifies this
      ensures id !in old(rooms) ==> rooms == old(rooms) && resp == RoomNotFound
      ensures id in old(rooms) ==>
        Committed(old(rooms), id, Ok(LeaveConversationOn(old(rooms)[id], user)), rooms, resp)
      ensures old(AllValid()) ==> AllValid()
    {
      if id !in rooms {
        return RoomNotFound;
      }
      var doc := new RoomDoc(rooms[id]);
      var o := doc.LeaveConversation(user);
      if AllValid() {
        LeaveConversationPreservesValid(rooms[id], user);
      }
      resp := Commit(id, o);
    }
  }
}
