/** The room transitions of functions/api.js as functions on the fetched room
    value: the remove-from-current step shared by createConversation,
    joinConversation and leaveConversation, and what each of the four handlers
    computes before deciding whether to write. Api.RoomDoc carries out the same
    steps in place and is proved against these functions; the lemmas below
    state what the handlers promise about them. */
module Membership {
  import opened Rooms
  import opened EmptyConversations

  /** What a handler's in-memory computation decides: write this room, write
      nothing and answer with the fetched room, or answer 404 without writing. */
  datatype Outcome = Ok(room: seq<Conversation>) | Unchanged | ConversationNotFound

  /** `after` is `before` with its first user carrying the email spliced out:
      the users in front of it and behind it are kept, in order. */
  predicate SplicedFirst(before: seq<User>, after: seq<User>, email: string) {
    exists k :: 0 <= k < |before| && before[k].email == email &&
      (forall m :: 0 <= m < k ==> before[m].email != email) &&
      after == before[..k] + before[k + 1..]
  }

  /** Remove-from-current: the first user with this email is spliced out of the
      first conversation holding that email. The handlers dereference the `find`
      result without a check, so the email must be in the room. */
  function RemoveUser(convs: seq<Conversation>, email: string): (r: seq<Conversation>)
    requires InRoom(convs, email)
    ensures |r| == |convs|
    ensures forall j :: 0 <= j < |r| ==> r[j].link == convs[j].link
    ensures forall j :: 0 <= j < |r| && j != ConversationWith(convs, email).value ==> r[j] == convs[j]
    ensures |r[ConversationWith(convs, email).value].users|
         == |convs[ConversationWith(convs, email).value].users| - 1
    ensures SplicedFirst(convs[ConversationWith(convs, email).value].users,
                         r[ConversationWith(convs, email).value].users, email)
  {
    var i := ConversationWith(convs, email).value;
    var users := convs[i].users;
    var k := UserIndex(users, email).value;
    convs[i := convs[i].(users := users[..k] + users[k + 1..])]
  }

  /** Remove-from-current followed by cleanupEmptyConversations: the room in
      which the three moving handlers look up the destination. */
  function WithoutUser(convs: seq<Conversation>, email: string): seq<Conversation>
    requires InRoom(convs, email)
  {
    Cleanup(RemoveUser(convs, email))
  }

  /** `conversation.users.push(user)` on the conversation at position i. */
  function Push(convs: seq<Conversation>, i: nat, user: User): seq<Conversation>
    requires i < |convs|
  {
    convs[i := convs[i].(users := convs[i].users + [user])]
  }

  /** What joinRoom needs to run to its end: `reduce` without an initial value
      throws on an empty conversation list, and the lobby `find` result is
      dereferenced when the email is new. */
  predicate JoinRoomDefined(convs: seq<Conversation>, email: string) {
    convs != [] && (email !in AllEmails(convs) ==> HasLobby(convs))
  }

  /** joinRoom: an email already in the room leaves it unchanged (no write);
      otherwise the user is pushed onto the lobby's users and the room is written. */
  function JoinRoomOn(convs: seq<Conversation>, user: User): Outcome
    requires JoinRoomDefined(convs, user.email)
  {
    if user.email in AllEmails(convs) then Unchanged
    else Ok(Push(convs, LinkIndex(convs, LobbyLink).value, user))
  }

  /** createConversation: remove, clean up, then append a new conversation
      holding only the user; always written. */
  function CreateConversationOn(convs: seq<Conversation>, user: User, link: string): seq<Conversation>
    requires InRoom(convs, user.email)
  {
    WithoutUser(convs, user.email) + [Conversation(link, [user])]
  }

  /** joinConversation: remove, clean up, then look the link up in the cleaned
      room; a missing link is a 404 and nothing is written. */
  function JoinConversationOn(convs: seq<Conversation>, user: User, link: string): Outcome
    requires InRoom(convs, user.email)
  {
    var w := WithoutUser(convs, user.email);
    match LinkIndex(w, link)
    case None => ConversationNotFound
    case Some(t) => Ok(Push(w, t, user))
  }

  /** leaveConversation: remove, clean up, then push the user onto the lobby;
      always written. The lobby `find` result is dereferenced, so the room must
      have a lobby. */
  function LeaveConversationOn(convs: seq<Conversation>, user: User): seq<Conversation>
    requires InRoom(convs, user.email) && HasLobby(convs)
  {
    var w := WithoutUser(convs, user.email);
    WithoutUserKeepsLobby(convs, user.email);
    Push(w, LinkIndex(w, LobbyLink).value, user)
  }

  // ---------------------------------------------------------------------------
  // Remove-from-current

  /** Removal takes exactly one occurrence of the email away and touches no other email. */
  lemma RemoveUserOccurrences(convs: seq<Conversation>, email: string, x: string)
    requires InRoom(convs, email)
    ensures Occurrences(RemoveUser(convs, email), x)
         == Occurrences(convs, x) - (if x == email then 1 else 0)
  {
    var i := ConversationWith(convs, email).value;
    var users := convs[i].users;
    var k := UserIndex(users, email).value;
    OccurrencesUpdate(convs, i, convs[i].(users := users[..k] + users[k + 1..]), x);
    CountInRemove(users, k, x);
  }

  /** With each email at most once, the removed user is gone from the room. */
  lemma RemoveUserLeavesRoom(convs: seq<Conversation>, email: string)
    requires InRoom(convs, email) && UniqueEmails(convs)
    ensures !InRoom(RemoveUser(convs, email), email)
  {
    OccurrencesPositive(convs, email);
    RemoveUserOccurrences(convs, email, email);
    OccurrencesPositive(RemoveUser(convs, email), email);
  }

  /** Removal and cleanup keep every other email's count and take one
      occurrence of the removed email. */
  lemma WithoutUserOccurrences(convs: seq<Conversation>, email: string, x: string)
    requires InRoom(convs, email)
    ensures Occurrences(WithoutUser(convs, email), x)
         == Occurrences(convs, x) - (if x == email then 1 else 0)
  {
    CleanupOccurrences(RemoveUser(convs, email), x);
    RemoveUserOccurrences(convs, email, x);
  }

  /** After removal and cleanup the lobby is still there exactly when it was there before. */
  lemma WithoutUserKeepsLobby(convs: seq<Conversation>, email: string)
    requires InRoom(convs, email)
    ensures HasLobby(WithoutUser(convs, email)) <==> HasLobby(convs)
  {
    var r := RemoveUser(convs, email);
    CleanupKeepsLobby(r);
    if HasLobby(convs) {
      var i :| 0 <= i < |convs| && convs[i].link == LobbyLink;
      assert r[i].link == LobbyLink;
    }
    if HasLobby(r) {
      var i :| 0 <= i < |r| && r[i].link == LobbyLink;
      assert convs[i].link == LobbyLink;
    }
  }

  /** On a room without empty non-lobby conversations, removal plus cleanup drops
      the user's conversation exactly when the user was its last member and it
      is not the lobby; otherwise the room is the room with the user spliced out. */
  lemma WithoutUserExact(convs: seq<Conversation>, email: string)
    requires InRoom(convs, email) && NoEmptyConversations(convs)
    ensures var i := ConversationWith(convs, email).value;
      WithoutUser(convs, email)
        == if |convs[i].users| == 1 && convs[i].link != LobbyLink
           then convs[..i] + convs[i + 1..]
           else RemoveUser(convs, email)
  {
    var i := ConversationWith(convs, email).value;
    var r := RemoveUser(convs, email);
    var a, c, b := convs[..i], r[i], convs[i + 1..];
    UpdateSplit(convs, i, c);
    NoEmptyAround(convs, i);
    CleanupAround(a, c, b);
  }

  /** Replacing position i is putting the new element between the parts before and after it. */
  lemma UpdateSplit<T>(s: seq<T>, i: nat, x: T)
    requires i < |s|
    ensures s[i := x] == s[..i] + [x] + s[i + 1..]
  {
  }

  /** The parts of a room before and after one position keep "no empty non-lobby conversation". */
  lemma NoEmptyAround(convs: seq<Conversation>, i: nat)
    requires i < |convs| && NoEmptyConversations(convs)
    ensures NoEmptyConversations(convs[..i]) && NoEmptyConversations(convs[i + 1..])
  {
    var a, b := convs[..i], convs[i + 1..];
    forall j | 0 <= j < |a| ensures !HasNoUsers(a[j]) { assert a[j] == convs[j]; }
    forall j | 0 <= j < |b| ensures !HasNoUsers(b[j]) { assert b[j] == convs[i + 1 + j]; }
  }

  /** Pushing a user adds one occurrence of that user's email and no other. */
  lemma PushOccurrences(convs: seq<Conversation>, i: nat, user: User, x: string)
    requires i < |convs|
    ensures Occurrences(Push(convs, i, user), x)
         == Occurrences(convs, x) + (if user.email == x then 1 else 0)
  {
    OccurrencesUpdate(convs, i, convs[i].(users := convs[i].users + [user]), x);
    CountInAppend(convs[i].users, [user], x);
    assert [user][1..] == [];
  }

  /** Pushing a user changes no link, and can only make a conversation non-empty. */
  lemma PushShape(convs: seq<Conversation>, i: nat, user: User)
    requires i < |convs|
    ensures HasLobby(Push(convs, i, user)) <==> HasLobby(convs)
    ensures NoEmptyConversations(convs) ==> NoEmptyConversations(Push(convs, i, user))
    ensures UniqueLinks(convs) ==> UniqueLinks(Push(convs, i, user))
  {
    var r := Push(convs, i, user);
    assert forall j :: 0 <= j < |r| ==> r[j].link == convs[j].link;
    if HasLobby(convs) {
      var j :| 0 <= j < |convs| && convs[j].link == LobbyLink;
      assert r[j].link == LobbyLink;
    }
  }

  // ---------------------------------------------------------------------------
  // joinRoom

  /** joinRoom leaves the room unchanged exactly when the email is already in
      some conversation, and writes otherwise. */
  lemma JoinRoomUnchangedIff(convs: seq<Conversation>, user: User)
    requires JoinRoomDefined(convs, user.email)
    ensures JoinRoomOn(convs, user) == Unchanged <==> InRoom(convs, user.email)
    ensures JoinRoomOn(convs, user).Ok? <==> !InRoom(convs, user.email)
  {
    AllEmailsInRoom(convs, user.email);
  }

  /** A new user is appended at the end of the lobby's users; every other
      conversation is unchanged and the user now occurs exactly once. */
  lemma JoinRoomAddsToLobby(convs: seq<Conversation>, user: User)
    requires JoinRoomDefined(convs, user.email) && !InRoom(convs, user.email)
    ensures JoinRoomOn(convs, user).Ok?
    ensures var r := JoinRoomOn(convs, user).room;
      var l := LinkIndex(convs, LobbyLink).value;
      |r| == |convs| &&
      r[l] == Conversation(LobbyLink, convs[l].users + [user]) &&
      (forall j :: 0 <= j < |r| && j != l ==> r[j] == convs[j]) &&
      Occurrences(r, user.email) == 1
  {
    AllEmailsInRoom(convs, user.email);
    OccurrencesPositive(convs, user.email);
    PushOccurrences(convs, LinkIndex(convs, LobbyLink).value, user, user.email);
  }

  /** Joining twice is joining once: the second call finds the email and changes nothing. */
  lemma JoinRoomIdempotent(convs: seq<Conversation>, user: User)
    requires JoinRoomDefined(convs, user.email)
    ensures match JoinRoomOn(convs, user)
            case Ok(r) => JoinRoomDefined(r, user.email) && JoinRoomOn(r, user) == Unchanged
            case _ => true
  {
    if JoinRoomOn(convs, user).Ok? {
      var r := JoinRoomOn(convs, user).room;
      var l := LinkIndex(convs, LobbyLink).value;
      var u := r[l].users;
      assert u[|u| - 1] == user;
      assert Contains(r[l].users, user.email);
      assert InRoom(r, user.email);
      AllEmailsInRoom(r, user.email);
    }
  }

  /** joinRoom keeps the room invariants, and the only count that changes is the
      new user's, from zero to one. */
  lemma JoinRoomPreservesValid(convs: seq<Conversation>, user: User)
    requires Valid(convs)
    ensures JoinRoomDefined(convs, user.email)
    ensures match JoinRoomOn(convs, user)
            case Ok(r) => Valid(r) && (UniqueLinks(convs) ==> UniqueLinks(r)) &&
                          forall x :: Occurrences(r, x) == Occurrences(convs, x) + (if x == user.email then 1 else 0)
            case Unchanged => true
            case ConversationNotFound => false
  {
    JoinRoomUnchangedIff(convs, user);
    if JoinRoomOn(convs, user).Ok? {
      var l := LinkIndex(convs, LobbyLink).value;
      var r := Push(convs, l, user);
      PushShape(convs, l, user);
      OccurrencesPositive(convs, user.email);
      forall x ensures Occurrences(r, x) == Occurrences(convs, x) + (if x == user.email then 1 else 0) {
        PushOccurrences(convs, l, user, x);
      }
    }
  }

  // ---------------------------------------------------------------------------
  // createConversation

  /** The new conversation is the last one and holds only the user; in front of
      it stands the room after removal and cleanup, in which the user's old
      conversation is gone exactly when the user was its last member and it is
      not the lobby. */
  lemma CreateConversationShape(convs: seq<Conversation>, user: User, link: string)
    requires InRoom(convs, user.email) && NoEmptyConversations(convs)
    ensures var r := CreateConversationOn(convs, user, link);
      var i := ConversationWith(convs, user.email).value;
      |r| > 0 && r[|r| - 1] == Conversation(link, [user]) &&
      r[..|r| - 1] == (if |convs[i].users| == 1 && convs[i].link != LobbyLink
                       then convs[..i] + convs[i + 1..]
                       else RemoveUser(convs, user.email))
  {
    WithoutUserExact(convs, user.email);
    var w := WithoutUser(convs, user.email);
    assert (w + [Conversation(link, [user])])[..|w|] == w;
  }

  /** createConversation moves the user: every email keeps its count. */
  lemma CreateConversationKeepsCounts(convs: seq<Conversation>, user: User, link: string, x: string)
    requires InRoom(convs, user.email)
    ensures Occurrences(CreateConversationOn(convs, user, link), x) == Occurrences(convs, x)
  {
    var w := WithoutUser(convs, user.email);
    WithoutUserOccurrences(convs, user.email, x);
    OccurrencesAppend(w, [Conversation(link, [user])], x);
    OccurrencesPositive(convs, user.email);
    assert Occurrences([Conversation(link, [user])], x) == CountIn([user], x);
    assert [user][1..] == [];
  }

  /** createConversation keeps the room invariants; links stay distinct when
      the new link is not among the links left after cleanup. */
  lemma CreateConversationPreservesValid(convs: seq<Conversation>, user: User, link: string)
    requires InRoom(convs, user.email) && Valid(convs)
    ensures Valid(CreateConversationOn(convs, user, link))
    ensures UniqueLinks(convs) && LinkIndex(WithoutUser(convs, user.email), link).None? ==>
            UniqueLinks(CreateConversationOn(convs, user, link))
  {
    var r := RemoveUser(convs, user.email);
    var w := WithoutUser(convs, user.email);
    var c := Conversation(link, [user]);
    WithoutUserKeepsLobby(convs, user.email);
    CleanupLeavesNoEmpty(r);
    forall x ensures Occurrences(w + [c], x) <= 1 {
      CreateConversationKeepsCounts(convs, user, link, x);
    }
    AppendKeepsShape(w, c);
    if UniqueLinks(convs) {
      assert UniqueLinks(r);
      CleanupUniqueLinks(r);
    }
  }

  /** Appending a non-empty conversation keeps the lobby and the absence of
      empty conversations, and keeps links distinct when its link is new. */
  lemma AppendKeepsShape(w: seq<Conversation>, c: Conversation)
    requires |c.users| > 0
    ensures HasLobby(w) ==> HasLobby(w + [c])
    ensures NoEmptyConversations(w) ==> NoEmptyConversations(w + [c])
    ensures UniqueLinks(w) && LinkIndex(w, c.link).None? ==> UniqueLinks(w + [c])
  {
    assert forall j :: 0 <= j < |w| ==> (w + [c])[j] == w[j];
    if HasLobby(w) {
      var l :| 0 <= l < |w| && w[l].link == LobbyLink;
      assert (w + [c])[l] == w[l];
    }
  }

  // ---------------------------------------------------------------------------
  // joinConversation

  /** The destination is looked up after cleanup: on a room without empty
      non-lobby conversations, joinConversation answers 404 exactly when every
      conversation with the link is the one the user just emptied (the user was
      its last member and it is not the lobby), or there is none. */
  lemma JoinConversationNotFoundIff(convs: seq<Conversation>, user: User, link: string)
    requires InRoom(convs, user.email) && NoEmptyConversations(convs)
    ensures var i := ConversationWith(convs, user.email).value;
      JoinConversationOn(convs, user, link) == ConversationNotFound <==>
      forall j :: 0 <= j < |convs| && convs[j].link == link ==>
        j == i && |convs[i].users| == 1 && link != LobbyLink
  {
    assert JoinConversationOn(convs, user, link) == ConversationNotFound <==>
           LinkAbsent(WithoutUser(convs, user.email), link);
    WithoutUserLinkAbsent(convs, user.email, link);
  }

  /** Every conversation with the link is position i, which held one user and is
      not the lobby, so cleanup drops it once that user leaves. */
  predicate OnlyInEmptied(convs: seq<Conversation>, i: nat, link: string)
    requires i < |convs|
  {
    forall j :: 0 <= j < |convs| && convs[j].link == link ==>
      j == i && |convs[i].users| == 1 && link != LobbyLink
  }

  /** After removal and cleanup no conversation has the link exactly when every
      conversation with it is the one the user just emptied. */
  lemma WithoutUserLinkAbsent(convs: seq<Conversation>, email: string, link: string)
    requires InRoom(convs, email) && NoEmptyConversations(convs)
    ensures var i := ConversationWith(convs, email).value;
      LinkAbsent(WithoutUser(convs, email), link) <==>
      OnlyInEmptied(convs, i, link)
  {
    var i := ConversationWith(convs, email).value;
    var r, w := RemoveUser(convs, email), WithoutUser(convs, email);
    WithoutUserExact(convs, email);
    LinkAbsentCases(convs, r, w, i, link);
  }

  /** The case split of WithoutUserLinkAbsent over a room `w` that is either `convs`
      without position i or a link-preserving update `r` of it. */
  lemma LinkAbsentCases(convs: seq<Conversation>, r: seq<Conversation>, w: seq<Conversation>,
                        i: nat, link: string)
    requires i < |convs| && |r| == |convs|
    requires forall j :: 0 <= j < |r| ==> r[j].link == convs[j].link
    requires w == if |convs[i].users| == 1 && convs[i].link != LobbyLink
                  then convs[..i] + convs[i + 1..] else r
    ensures LinkAbsent(w, link) <==> OnlyInEmptied(convs, i, link)
  {
    if |convs[i].users| == 1 && convs[i].link != LobbyLink {
      LinkAbsentAround(convs, i, link);
    } else {
      assert LinkAbsent(r, link) <==> LinkAbsent(convs, link);
    }
  }

  /** No conversation outside position i has the link exactly when the room
      with position i spliced out has no conversation with it. */
  lemma LinkAbsentAround(convs: seq<Conversation>, i: nat, link: string)
    requires i < |convs|
    ensures LinkAbsent(convs[..i] + convs[i + 1..], link)
        <==> (forall j :: 0 <= j < |convs| && j != i ==> convs[j].link != link)
  {
    var w := convs[..i] + convs[i + 1..];
    assert forall t :: 0 <= t < i ==> w[t] == convs[t];
    assert forall t :: i <= t < |w| ==> w[t] == convs[t + 1];
    if forall t :: 0 <= t < |w| ==> w[t].link != link {
      forall j | 0 <= j < |convs| && j != i ensures convs[j].link != link {
        if j < i { assert w[j] == convs[j]; } else { assert w[j - 1] == convs[j]; }
      }
    }
  }

  /** On success the user is appended to the destination's users; every other
      count is kept, and the user still occurs exactly once. */
  lemma JoinConversationAppends(convs: seq<Conversation>, user: User, link: string)
    requires InRoom(convs, user.email)
    ensures match JoinConversationOn(convs, user, link)
            case Ok(r) =>
              var w := WithoutUser(convs, user.email);
              var t := LinkIndex(w, link).value;
              |r| == |w| && r[t] == Conversation(link, w[t].users + [user]) &&
              (forall j :: 0 <= j < |r| && j != t ==> r[j] == w[j]) &&
              forall x :: Occurrences(r, x) == Occurrences(convs, x)
            case ConversationNotFound => LinkIndex(WithoutUser(convs, user.email), link).None?
            case Unchanged => false
  {
    var w := WithoutUser(convs, user.email);
    if LinkIndex(w, link).Some? {
      var t := LinkIndex(w, link).value;
      OccurrencesPositive(convs, user.email);
      forall x ensures Occurrences(Push(w, t, user), x) == Occurrences(convs, x) {
        PushOccurrences(w, t, user, x);
        WithoutUserOccurrences(convs, user.email, x);
      }
    }
  }

  /** joinConversation keeps the room invariants and distinct links. */
  lemma JoinConversationPreservesValid(convs: seq<Conversation>, user: User, link: string)
    requires InRoom(convs, user.email) && Valid(convs)
    ensures match JoinConversationOn(convs, user, link)
            case Ok(r) => Valid(r) && (UniqueLinks(convs) ==> UniqueLinks(r))
            case _ => true
  {
    var w := WithoutUser(convs, user.email);
    if LinkIndex(w, link).Some? {
      var t := LinkIndex(w, link).value;
      JoinConversationAppends(convs, user, link);
      WithoutUserKeepsLobby(convs, user.email);
      CleanupLeavesNoEmpty(RemoveUser(convs, user.email));
      PushShape(w, t, user);
      if UniqueLinks(convs) {
        assert UniqueLinks(RemoveUser(convs, user.email));
        CleanupUniqueLinks(RemoveUser(convs, user.email));
      }
    }
  }

  // ---------------------------------------------------------------------------
  // leaveConversation

  /** The user ends last among the lobby's users, the cleaned room is otherwise
      kept, and every count is kept. */
  lemma LeaveConversationToLobby(convs: seq<Conversation>, user: User)
    requires InRoom(convs, user.email) && HasLobby(convs)
    ensures HasLobby(WithoutUser(convs, user.email))
    ensures var r := LeaveConversationOn(convs, user);
      var w := WithoutUser(convs, user.email);
      var l := LinkIndex(w, LobbyLink).value;
      |r| == |w| && r[l] == Conversation(LobbyLink, w[l].users + [user]) &&
      (forall j :: 0 <= j < |r| && j != l ==> r[j] == w[j]) &&
      forall x :: Occurrences(r, x) == Occurrences(convs, x)
  {
    var w := WithoutUser(convs, user.email);
    WithoutUserKeepsLobby(convs, user.email);
    var l := LinkIndex(w, LobbyLink).value;
    OccurrencesPositive(convs, user.email);
    forall x ensures Occurrences(Push(w, l, user), x) == Occurrences(convs, x) {
      PushOccurrences(w, l, user, x);
      WithoutUserOccurrences(convs, user.email, x);
    }
  }

  /** leaveConversation keeps the room invariants and distinct links. */
  lemma LeaveConversationPreservesValid(convs: seq<Conversation>, user: User)
    requires InRoom(convs, user.email) && Valid(convs)
    ensures Valid(LeaveConversationOn(convs, user))
    ensures UniqueLinks(convs) ==> UniqueLinks(LeaveConversationOn(convs, user))
  {
    var w := WithoutUser(convs, user.email);
    WithoutUserKeepsLobby(convs, user.email);
    var l := LinkIndex(w, LobbyLink).value;
    LeaveConversationToLobby(convs, user);
    CleanupLeavesNoEmpty(RemoveUser(convs, user.email));
    PushShape(w, l, user);
    if UniqueLinks(convs) {
      assert UniqueLinks(RemoveUser(convs, user.email));
      CleanupUniqueLinks(RemoveUser(convs, user.email));
    }
  }
}
