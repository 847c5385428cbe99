/** Concrete runs of the handlers' room computations. */
module Scenarios {
  import opened Rooms
  import opened EmptyConversations
  import opened Membership

  const Alice := User("alice@example.com", "Alice", "alice.png")
  const Bob := User("bob@example.com", "Bob", "bob.png")

  /** A room starts with an empty lobby; Alice joins, opens "room42", Bob joins
      and follows her. The lobby stays although it ends up empty. */
  lemma LobbyToConversationWalkthrough()
    ensures JoinRoomOn([Conversation("", [])], Alice) == Ok([Conversation("", [Alice])])
    ensures InRoom([Conversation("", [Alice])], Alice.email)
    ensures InRoom([Conversation("", [Bob]), Conversation("room42", [Alice])], Bob.email)
    ensures CreateConversationOn([Conversation("", [Alice])], Alice, "room42")
         == [Conversation("", []), Conversation("room42", [Alice])]
    ensures JoinRoomOn([Conversation("", []), Conversation("room42", [Alice])], Bob)
         == Ok([Conversation("", [Bob]), Conversation("room42", [Alice])])
    ensures JoinConversationOn([Conversation("", [Bob]), Conversation("room42", [Alice])], Bob, "room42")
         == Ok([Conversation("", []), Conversation("room42", [Alice, Bob])])
  {
    AliceOpensConversation();
    BobFollowsAlice();
  }

  /** First half of the walkthrough: Alice enters the empty lobby and opens "room42". */
  lemma AliceOpensConversation()
    ensures JoinRoomOn([Conversation("", [])], Alice) == Ok([Conversation("", [Alice])])
    ensures InRoom([Conversation("", [Alice])], Alice.email)
    ensures CreateConversationOn([Conversation("", [Alice])], Alice, "room42")
         == [Conversation("", []), Conversation("room42", [Alice])]
  {
    var r0 := [Conversation("", [])];
    assert AllEmails(r0) == [] by { assert r0[1..] == []; }
    assert LinkIndex(r0, "") == Some(0);
    assert r0[0].users + [Alice] == [Alice];
    assert Push(r0, 0, Alice) == [Conversation("", [Alice])];
    var r1 := [Conversation("", [Alice])];
    assert Contains(r1[0].users, Alice.email) by { assert r1[0].users[0] == Alice; }
    assert ConversationWith(r1, Alice.email) == Some(0);
    assert UserIndex(r1[0].users, Alice.email) == Some(0);
    assert r1[0].users[..0] + r1[0].users[1..] == [];
    assert RemoveUser(r1, Alice.email) == r0;
    assert Cleanup(r0) == r0;
  }

  /** Second half: Bob enters the lobby and joins Alice in "room42"; the lobby is
      left empty and stays. */
  lemma BobFollowsAlice()
    ensures InRoom([Conversation("", [Bob]), Conversation("room42", [Alice])], Bob.email)
    ensures JoinRoomOn([Conversation("", []), Conversation("room42", [Alice])], Bob)
         == Ok([Conversation("", [Bob]), Conversation("room42", [Alice])])
    ensures JoinConversationOn([Conversation("", [Bob]), Conversation("room42", [Alice])], Bob, "room42")
         == Ok([Conversation("", []), Conversation("room42", [Alice, Bob])])
  {
    var r2 := [Conversation("", []), Conversation("room42", [Alice])];
    assert Bob.email !in AllEmails(r2) by {
      assert !Contains(r2[1].users, Bob.email) by { assert r2[1].users == [Alice]; }
      assert !InRoom(r2, Bob.email);
      AllEmailsInRoom(r2, Bob.email);
    }
    assert LinkIndex(r2, "") == Some(0);
    assert r2[0].users + [Bob] == [Bob];
    assert Push(r2, 0, Bob) == [Conversation("", [Bob]), Conversation("room42", [Alice])];
    var r3 := [Conversation("", [Bob]), Conversation("room42", [Alice])];
    assert Contains(r3[0].users, Bob.email) by { assert r3[0].users[0] == Bob; }
    assert ConversationWith(r3, Bob.email) == Some(0);
    assert UserIndex(r3[0].users, Bob.email) == Some(0);
    assert r3[0].users[..0] + r3[0].users[1..] == [];
    assert RemoveUser(r3, Bob.email) == r2;
    assert Cleanup(r2) == r2 by {
      assert r2[1..] == [Conversation("room42", [Alice])];
      CleanupSingle(Conversation("room42", [Alice]));
    }
    assert WithoutUser(r3, Bob.email) == r2;
    assert LinkIndex(r2, "room42") == Some(1);
    assert r2[1].users + [Bob] == [Alice, Bob];
    assert Push(r2, 1, Bob) == [Conversation("", []), Conversation("room42", [Alice, Bob])];
  }

  /** A user alone in a conversation who asks to join that same conversation
      empties it first; cleanup drops it, so the lookup fails with a 404. */
  lemma RejoiningOwnConversationFails()
    ensures InRoom([Conversation("", []), Conversation("room42", [Alice])], Alice.email)
    ensures JoinConversationOn([Conversation("", []), Conversation("room42", [Alice])], Alice, "room42")
         == ConversationNotFound
  {
    var r := [Conversation("", []), Conversation("room42", [Alice])];
    assert Contains(r[1].users, Alice.email) by { assert r[1].users[0] == Alice; }
    assert !Contains(r[0].users, Alice.email);
    assert r[1..][1..] == [];
    assert ConversationWith(r, Alice.email) == Some(1);
    assert RemoveUser(r, Alice.email) == [Conversation("", []), Conversation("room42", [])];
    assert Cleanup([Conversation("", []), Conversation("room42", [])]) == [Conversation("", [])];
  }

  /** createConversation does not look at the links already in use: creating a
      conversation under a link that survives cleanup gives two conversations
      with that link. */
  lemma CreateConversationCanRepeatLink()
    ensures InRoom([Conversation("", [Alice]), Conversation("room42", [Bob])], Alice.email)
    ensures var r := [Conversation("", [Alice]), Conversation("room42", [Bob])];
      UniqueLinks(r) && !UniqueLinks(CreateConversationOn(r, Alice, "room42"))
  {
    var r := [Conversation("", [Alice]), Conversation("room42", [Bob])];
    assert Contains(r[0].users, Alice.email) by { assert r[0].users[0] == Alice; }
    assert ConversationWith(r, Alice.email) == Some(0);
    var w := [Conversation("", []), Conversation("room42", [Bob])];
    assert RemoveUser(r, Alice.email) == w;
    assert Cleanup(w) == w by {
      assert w[1..] == [Conversation("room42", [Bob])];
      CleanupSingle(Conversation("room42", [Bob]));
    }
    var c := CreateConversationOn(r, Alice, "room42");
    assert c[1].link == c[2].link;
  }
}
