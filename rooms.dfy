/** The room document of functions/api.js: an ordered list of conversations, each
    holding an ordered list of users. The conversation whose link is the empty
    string is the lobby. This module holds the data model, the lookups the
    handlers perform (`find`, `findIndex`, the `allEmails` map/reduce) and the
    occurrence count used to state "each email appears at most once". */
module Rooms {

  datatype Option<T> = None | Some(value: T)

  datatype User = User(email: string, name: string, avatar: string)

  datatype Conversation = Conversation(link: string, users: seq<User>)

  /** The link of the lobby ("no-conversation" group). */
  const LobbyLink: string := ""

  /** `hasNoUsers` of cleanupEmptyConversations: empty, and not the lobby. */
  predicate HasNoUsers(c: Conversation) {
    |c.users| == 0 && c.link != LobbyLink
  }

  /** Some user in `users` has this email. */
  predicate Contains(users: seq<User>, email: string) {
    exists k :: 0 <= k < |users| && users[k].email == email
  }

  /** Some conversation of the room has a user with this email. */
  predicate InRoom(convs: seq<Conversation>, email: string) {
    exists i :: 0 <= i < |convs| && Contains(convs[i].users, email)
  }

  /** Some conversation of the room is the lobby. */
  predicate HasLobby(convs: seq<Conversation>) {
    exists i :: 0 <= i < |convs| && convs[i].link == LobbyLink
  }

  /** No conversation of the room has this link. */
  predicate LinkAbsent(convs: seq<Conversation>, link: string) {
    forall i :: 0 <= i < |convs| ==> convs[i].link != link
  }

  /** `users.findIndex(u => u.email === email)`: the first position holding the email. */
  function UserIndex(users: seq<User>, email: string): (r: Option<nat>)
    ensures r.Some? ==> r.value < |users| && users[r.value].email == email
    ensures r.Some? ==> forall k :: 0 <= k < r.value ==> users[k].email != email
    ensures r.None? <==> !Contains(users, email)
  {
    if |users| == 0 then None
    else if users[0].email == email then Some(0)
    else
      match UserIndex(users[1..], email)
      case None =>
        assert forall k :: 1 <= k < |users| ==> users[k] == users[1..][k - 1];
        None
      case Some(k) => Some(k + 1)
  }

  /** `conversations.find(isUserInConversation)`, as a position: the first
      conversation that holds a user with the email. */
  function ConversationWith(convs: seq<Conversation>, email: string): (r: Option<nat>)
    ensures r.Some? ==> r.value < |convs| && Contains(convs[r.value].users, email)
    ensures r.Some? ==> forall i :: 0 <= i < r.value ==> !Contains(convs[i].users, email)
    ensures r.None? <==> !InRoom(convs, email)
  {
    if |convs| == 0 then None
    else if Contains(convs[0].users, email) then Some(0)
    else
      match ConversationWith(convs[1..], email)
      case None =>
        assert forall i :: 1 <= i < |convs| ==> convs[i] == convs[1..][i - 1];
        None
      case Some(i) => Some(i + 1)
  }

  /** `conversations.find(conv => conv.link === link)`, as a position: the first
      conversation with that link. */
  function LinkIndex(convs: seq<Conversation>, link: string): (r: Option<nat>)
    ensures r.Some? ==> r.value < |convs| && convs[r.value].link == link
    ensures r.Some? ==> forall i :: 0 <= i < r.value ==> convs[i].link != link
    ensures r.None? <==> forall i :: 0 <= i < |convs| ==> convs[i].link != link
  {
    if |convs| == 0 then None
    else if convs[0].link == link then Some(0)
    else
      match LinkIndex(convs[1..], link)
      case None =>
        assert forall i :: 1 <= i < |convs| ==> convs[i] == convs[1..][i - 1];
        None
      case Some(i) => Some(i + 1)
  }

  /** The emails of a list of users, in order (`users.map(user => user.email)`). */
  function Emails(users: seq<User>): seq<string> {
    if users == [] then [] else [users[0].email] + Emails(users[1..])
  }

  /** joinRoom's `allEmails`: the concatenation of every conversation's emails, in
      conversation order. */
  function AllEmails(convs: seq<Conversation>): seq<string> {
    if convs == [] then [] else Emails(convs[0].users) + AllEmails(convs[1..])
  }

  /** `allEmails.indexOf(email) !== -1` holds exactly when the email is in some conversation. */
  lemma {:induction false} AllEmailsInRoom(convs: seq<Conversation>, email: string)
    ensures email in AllEmails(convs) <==> InRoom(convs, email)
  {
    if convs != [] {
      AllEmailsInRoom(convs[1..], email);
      EmailsContains(convs[0].users, email);
      if InRoom(convs, email) && !Contains(convs[0].users, email) {
        var i :| 0 <= i < |convs| && Contains(convs[i].users, email);
        assert convs[1..][i - 1] == convs[i];
      }
    }
  }

  lemma {:induction false} EmailsContains(users: seq<User>, email: string)
    ensures email in Emails(users) <==> Contains(users, email)
  {
    if users != [] {
      EmailsContains(users[1..], email);
      if Contains(users, email) && users[0].email != email {
        var k :| 0 <= k < |users| && users[k].email == email;
        assert users[1..][k - 1] == users[k];
      }
    }
  }

  /** How many users in the list carry this email. */
  function CountIn(users: seq<User>, email: string): nat {
    if users == [] then 0
    else (if users[0].email == email then 1 else 0) + CountIn(users[1..], email)
  }

  /** How many times this email occurs in the whole room. */
  function Occurrences(convs: seq<Conversation>, email: string): nat {
    if convs == [] then 0 else CountIn(convs[0].users, email) + Occurrences(convs[1..], email)
  }

  /** Invariant: each email appears at most once in the room. */
  ghost predicate UniqueEmails(convs: seq<Conversation>) {
    forall email :: Occurrences(convs, email) <= 1
  }

  /** Invariant: no empty non-lobby conversation is kept. */
  predicate NoEmptyConversations(convs: seq<Conversation>) {
    forall i :: 0 <= i < |convs| ==> !HasNoUsers(convs[i])
  }

  /** The invariants a room keeps between requests: the lobby exists, each email
      occurs at most once, and no empty non-lobby conversation survives. */
  ghost predicate Valid(convs: seq<Conversation>) {
    HasLobby(convs) && UniqueEmails(convs) && NoEmptyConversations(convs)
  }

  /** Conversation links are pairwise distinct. */
  predicate UniqueLinks(convs: seq<Conversation>) {
    forall i, j :: 0 <= i < j < |convs| ==> convs[i].link != convs[j].link
  }

  lemma {:induction false} CountInAppend(a: seq<User>, b: seq<User>, email: string)
    ensures CountIn(a + b, email) == CountIn(a, email) + CountIn(b, email)
  {
    if a == [] {
      assert a + b == b;
    } else {
      assert (a + b)[0] == a[0] && (a + b)[1..] == a[1..] + b;
      CountInAppend(a[1..], b, email);
    }
  }

  /** The count is positive exactly when some user carries the email. */
  lemma {:induction false} CountInPositive(users: seq<User>, email: string)
    ensures CountIn(users, email) > 0 <==> Contains(users, email)
  {
    if users != [] {
      CountInPositive(users[1..], email);
      if Contains(users, email) && users[0].email != email {
        var k :| 0 <= k < |users| && users[k].email == email;
        assert users[1..][k - 1] == users[k];
      }
    }
  }

  /** Splicing out position k lowers the count of that user's email by one and
      leaves every other email's count alone. */
  lemma CountInRemove(users: seq<User>, k: nat, email: string)
    requires k < |users|
    ensures CountIn(users[..k] + users[k + 1..], email)
         == CountIn(users, email) - (if users[k].email == email then 1 else 0)
  {
    assert users == users[..k] + ([users[k]] + users[k + 1..]);
    CountInAppend(users[..k], [users[k]] + users[k + 1..], email);
    CountInAppend([users[k]], users[k + 1..], email);
    CountInAppend(users[..k], users[k + 1..], email);
  }

  lemma {:induction false} OccurrencesAppend(a: seq<Conversation>, b: seq<Conversation>, email: string)
    ensures Occurrences(a + b, email) == Occurrences(a, email) + Occurrences(b, email)
  {
    if a == [] {
      assert a + b == b;
    } else {
      assert (a + b)[0] == a[0] && (a + b)[1..] == a[1..] + b;
      OccurrencesAppend(a[1..], b, email);
    }
  }

  /** Replacing one conversation changes the room's count by the difference of the
      two conversations' counts. */
  lemma {:induction false} OccurrencesUpdate(convs: seq<Conversation>, i: nat, c: Conversation, email: string)
    requires i < |convs|
    ensures Occurrences(convs[i := c], email)
         == Occurrences(convs, email) - CountIn(convs[i].users, email) + CountIn(c.users, email)
  {
    if i > 0 {
      assert convs[i := c][1..] == convs[1..][i - 1 := c];
      OccurrencesUpdate(convs[1..], i - 1, c, email);
    }
  }

  /** The email occurs somewhere exactly when its count is positive. */
  lemma {:induction false} OccurrencesPositive(convs: seq<Conversation>, email: string)
    ensures Occurrences(convs, email) > 0 <==> InRoom(convs, email)
  {
    if convs != [] {
      OccurrencesPositive(convs[1..], email);
      CountInPositive(convs[0].users, email);
      if InRoom(convs, email) && !Contains(convs[0].users, email) {
        var i :| 0 <= i < |convs| && Contains(convs[i].users, email);
        assert convs[1..][i - 1] == convs[i];
      }
    }
  }
}
