/** cleanupEmptyConversations of functions/api.js, as values: which
    conversations it drops, and the list of their positions it splices out
    back to front. The in-place splicing itself is Api.RoomDoc.CleanupEmptyConversations. */
module EmptyConversations {
  import opened Rooms

  /** The room after garbage collection: every conversation that `hasNoUsers`
      is dropped, the others are kept in their order. */
  function Cleanup(convs: seq<Conversation>): seq<Conversation> {
    if convs == [] then []
    else (if HasNoUsers(convs[0]) then [] else [convs[0]]) + Cleanup(convs[1..])
  }

  /** A conversation survives exactly when it was in the room and does not
      `hasNoUsers`; nothing is added, and the room never grows. */
  lemma {:induction false} CleanupMembers(convs: seq<Conversation>)
    ensures |Cleanup(convs)| <= |convs|
    ensures forall c :: c in Cleanup(convs) <==> c in convs && !HasNoUsers(c)
  {
    if convs != [] {
      CleanupMembers(convs[1..]);
      assert convs == [convs[0]] + convs[1..];
    }
  }

  /** The `emptyConversations` list: the positions of all conversations that
      `hasNoUsers`, in increasing order. */
  function EmptyIndices(convs: seq<Conversation>): seq<nat> {
    if convs == [] then []
    else
      var n := |convs| - 1;
      EmptyIndices(convs[..n]) + (if HasNoUsers(convs[n]) then [n] else [])
  }

  /** `r` lists, in increasing order, exactly the positions of the conversations that `hasNoUsers`. */
  predicate ExactEmptyPositions(convs: seq<Conversation>, r: seq<nat>) {
    (forall j :: 0 <= j < |r| ==> r[j] < |convs| && HasNoUsers(convs[r[j]])) &&
    (forall j, j' :: 0 <= j < j' < |r| ==> r[j] < r[j']) &&
    (forall k :: 0 <= k < |convs| && HasNoUsers(convs[k]) ==> k in r)
  }

  /** The position list names exactly the conversations that `hasNoUsers`,
      each once, in increasing order. */
  lemma EmptyIndicesExact(convs: seq<Conversation>)
    ensures ExactEmptyPositions(convs, EmptyIndices(convs))
  {
    EmptyIndicesMarked(convs);
    EmptyIndicesIncreasing(convs);
    EmptyIndicesComplete(convs);
  }

  lemma {:induction false} EmptyIndicesMarked(convs: seq<Conversation>)
    ensures forall j :: 0 <= j < |EmptyIndices(convs)| ==>
      EmptyIndices(convs)[j] < |convs| && HasNoUsers(convs[EmptyIndices(convs)[j]])
  {
    if convs != [] {
      var n := |convs| - 1;
      var pre := convs[..n];
      EmptyIndicesMarked(pre);
      var r0 := EmptyIndices(pre);
      var r := EmptyIndices(convs);
      assert r == r0 + (if HasNoUsers(convs[n]) then [n] else []);
      forall j | 0 <= j < |r| ensures r[j] < |convs| && HasNoUsers(convs[r[j]]) {
        if j < |r0| {
          assert r[j] == r0[j] && pre[r0[j]] == convs[r0[j]];
        }
      }
    }
  }

  lemma {:induction false} EmptyIndicesIncreasing(convs: seq<Conversation>)
    ensures forall j, j' :: 0 <= j < j' < |EmptyIndices(convs)| ==>
      EmptyIndices(convs)[j] < EmptyIndices(convs)[j']
  {
    if convs != [] {
      var n := |convs| - 1;
      var pre := convs[..n];
      EmptyIndicesIncreasing(pre);
      EmptyIndicesMarked(pre);
      var r0 := EmptyIndices(pre);
      var r := EmptyIndices(convs);
      assert r == r0 + (if HasNoUsers(convs[n]) then [n] else []);
      forall j, j' | 0 <= j < j' < |r| ensures r[j] < r[j'] {
        assert r[j] == r0[j];
        if j' < |r0| {
          assert r[j'] == r0[j'];
        }
      }
    }
  }

  lemma {:induction false} EmptyIndicesComplete(convs: seq<Conversation>)
    ensures forall k :: 0 <= k < |convs| && HasNoUsers(convs[k]) ==> k in EmptyIndices(convs)
  {
    if convs != [] {
      var n := |convs| - 1;
      var pre := convs[..n];
      EmptyIndicesComplete(pre);
      var r0 := EmptyIndices(pre);
      var r := EmptyIndices(convs);
      assert r == r0 + (if HasNoUsers(convs[n]) then [n] else []);
      forall k | 0 <= k < |convs| && HasNoUsers(convs[k]) ensures k in r {
        if k < n {
          assert pre[k] == convs[k];
        }
      }
    }
  }

  /** Between two neighbouring entries of the position list (or before the
      first, or after the last) no conversation is to be dropped. */
  lemma EmptyIndicesGap(convs: seq<Conversation>, j: nat)
    requires j <= |EmptyIndices(convs)|
    ensures var e := EmptyIndices(convs);
      (j > 0 ==> e[j - 1] < |convs| && HasNoUsers(convs[e[j - 1]])) &&
      (0 < j < |e| ==> e[j - 1] < e[j]) &&
      (j < |e| ==> e[j] < |convs|)
    ensures var e := EmptyIndices(convs);
      var lo := if j == 0 then -1 else e[j - 1];
      var hi := if j == |e| then |convs| else e[j];
      forall k :: lo < k < hi && 0 <= k < |convs| ==> !HasNoUsers(convs[k])
  {
    var e := EmptyIndices(convs);
    EmptyIndicesExact(convs);
    var lo := if j == 0 then -1 else e[j - 1];
    var hi := if j == |e| then |convs| else e[j];
    forall k | lo < k < hi && 0 <= k < |convs| ensures !HasNoUsers(convs[k]) {
      forall m | 0 <= m < |e| ensures e[m] != k {
        if m < j {
          assert e[m] <= e[j - 1];
        } else {
          assert e[j] <= e[m];
        }
      }
    }
  }

  /** Dropping distributes over concatenation: each part keeps its survivors, in order. */
  lemma {:induction false} CleanupAppend(a: seq<Conversation>, b: seq<Conversation>)
    ensures Cleanup(a + b) == Cleanup(a) + Cleanup(b)
  {
    if a == [] {
      assert a + b == b;
    } else {
      assert (a + b)[0] == a[0] && (a + b)[1..] == a[1..] + b;
      CleanupAppend(a[1..], b);
    }
  }

  /** A room that has no empty non-lobby conversation is left exactly as it is. */
  lemma {:induction false} CleanupNothingToDrop(convs: seq<Conversation>)
    requires NoEmptyConversations(convs)
    ensures Cleanup(convs) == convs
  {
    if convs != [] {
      CleanupNothingToDrop(convs[1..]);
    }
  }

  /** When nothing before position p is to be dropped, cleanup keeps that prefix
      as it is and only works on the rest. */
  lemma CleanupCleanPrefix(convs: seq<Conversation>, p: nat)
    requires p <= |convs|
    requires forall k :: 0 <= k < p ==> !HasNoUsers(convs[k])
    ensures Cleanup(convs) == convs[..p] + Cleanup(convs[p..])
  {
    assert convs == convs[..p] + convs[p..];
    CleanupAppend(convs[..p], convs[p..]);
    CleanupNothingToDrop(convs[..p]);
  }

  /** If position q is to be dropped and nothing strictly between q and p is,
      cleaning from q is cleaning from p with the conversations q+1 .. p-1 kept
      in front. */
  lemma CleanupFromDropped(convs: seq<Conversation>, q: nat, p: nat)
    requires q < p <= |convs|
    requires HasNoUsers(convs[q])
    requires forall k :: q < k < p ==> !HasNoUsers(convs[k])
    ensures Cleanup(convs[q..]) == convs[q + 1..p] + Cleanup(convs[p..])
  {
    var s := convs[q..];
    assert s[0] == convs[q] && s[1..] == convs[q + 1..];
    var t := convs[q + 1..];
    CleanupCleanPrefix(t, p - (q + 1));
    assert t[..p - (q + 1)] == convs[q + 1..p];
    assert t[p - (q + 1)..] == convs[p..];
  }

  /** `splice(index, 1)` inside the front part of a two-part list. */
  lemma SpliceOut<T>(s: seq<T>, front: seq<T>, back: seq<T>, index: nat)
    requires s == front + back && index < |front|
    ensures s[..index] + s[index + 1..] == front[..index] + (front[index + 1..] + back)
  {
    assert s[..index] == front[..index];
    assert s[index + 1..] == front[index + 1..] + back;
  }

  /** One splice of the back-to-front loop. The list is the untouched prefix
      orig[..p] followed by the cleaned rest; position q < p is to be dropped and
      nothing strictly between q and p is. Splicing q out leaves the untouched
      prefix orig[..q] followed by the cleaned rest from q. */
  lemma CleanupSpliceStep(orig: seq<Conversation>, cs: seq<Conversation>, q: nat, p: nat)
    requires q < p <= |orig|
    requires cs == orig[..p] + Cleanup(orig[p..])
    requires HasNoUsers(orig[q])
    requires forall k :: q < k < p ==> !HasNoUsers(orig[k])
    ensures cs[..q] + cs[q + 1..] == orig[..q] + Cleanup(orig[q..])
  {
    CleanupFromDropped(orig, q, p);
    SpliceOut(cs, orig[..p], Cleanup(orig[p..]), q);
    assert orig[..p][..q] == orig[..q];
    assert orig[..p][q + 1..] == orig[q + 1..p];
  }

  /** A single conversation survives exactly when it does not `hasNoUsers`. */
  lemma CleanupSingle(c: Conversation)
    ensures Cleanup([c]) == if HasNoUsers(c) then [] else [c]
  {
    assert [c][1..] == [];
  }

  /** The result never holds an empty non-lobby conversation. */
  lemma {:induction false} CleanupLeavesNoEmpty(convs: seq<Conversation>)
    ensures NoEmptyConversations(Cleanup(convs))
  {
    var r := Cleanup(convs);
    CleanupMembers(convs);
    forall i | 0 <= i < |r| ensures !HasNoUsers(r[i]) {
      assert r[i] in r;
    }
  }

  /** In a room where only one conversation may be empty, cleanup keeps
      everything around it and decides only about that one. */
  lemma CleanupAround(a: seq<Conversation>, c: Conversation, b: seq<Conversation>)
    requires NoEmptyConversations(a) && NoEmptyConversations(b)
    ensures Cleanup(a + [c] + b) == if HasNoUsers(c) then a + b else a + [c] + b
  {
    CleanupAppend(a + [c], b);
    CleanupAppend(a, [c]);
    CleanupNothingToDrop(a);
    CleanupNothingToDrop(b);
    CleanupSingle(c);
    if HasNoUsers(c) {
      assert a + [] == a;
    }
  }

  /** Cleaning twice is cleaning once. */
  lemma CleanupIdempotent(convs: seq<Conversation>)
    ensures Cleanup(Cleanup(convs)) == Cleanup(convs)
  {
    CleanupLeavesNoEmpty(convs);
    CleanupNothingToDrop(Cleanup(convs));
  }

  /** The lobby is never dropped, even without users: a lobby exists afterwards
      exactly when it existed before. */
  lemma CleanupKeepsLobby(convs: seq<Conversation>)
    ensures HasLobby(Cleanup(convs)) <==> HasLobby(convs)
  {
    var r := Cleanup(convs);
    CleanupMembers(convs);
    if HasLobby(convs) {
      var i :| 0 <= i < |convs| && convs[i].link == LobbyLink;
      assert convs[i] in r;
      var j :| 0 <= j < |r| && r[j] == convs[i];
    }
    if HasLobby(r) {
      var j :| 0 <= j < |r| && r[j].link == LobbyLink;
      assert r[j] in convs;
      var i :| 0 <= i < |convs| && convs[i] == r[j];
    }
  }

  /** The first lobby of the cleaned room is the first lobby of the input, unchanged. */
  lemma {:induction false} CleanupKeepsFirstLobby(convs: seq<Conversation>)
    requires LinkIndex(convs, LobbyLink).Some?
    ensures LinkIndex(Cleanup(convs), LobbyLink).Some?
    ensures Cleanup(convs)[LinkIndex(Cleanup(convs), LobbyLink).value] == convs[LinkIndex(convs, LobbyLink).value]
  {
    var c, tail := convs[0], convs[1..];
    var rest := Cleanup(tail);
    if c.link == LobbyLink {
      assert Cleanup(convs) == [c] + rest;
      LinkIndexCons(c, rest, LobbyLink);
    } else {
      var k := LinkIndex(tail, LobbyLink).value;
      assert LinkIndex(convs, LobbyLink) == Some(k + 1);
      assert convs[k + 1] == tail[k];
      CleanupKeepsFirstLobby(tail);
      if HasNoUsers(c) {
        assert Cleanup(convs) == rest;
      } else {
        assert Cleanup(convs) == [c] + rest;
        LinkIndexCons(c, rest, LobbyLink);
        var m := LinkIndex(rest, LobbyLink).value;
        assert ([c] + rest)[m + 1] == rest[m];
      }
    }
  }

  /** `find` by link on a list with one more conversation in front. */
  lemma LinkIndexCons(c: Conversation, convs: seq<Conversation>, link: string)
    ensures LinkIndex([c] + convs, link)
         == if c.link == link then Some(0)
            else match LinkIndex(convs, link)
                 case None => None
                 case Some(i) => Some(i + 1)
  {
    assert ([c] + convs)[0] == c && ([c] + convs)[1..] == convs;
  }

  /** Dropping conversations never adds or removes a user: every email keeps its count. */
  lemma {:induction false} CleanupOccurrences(convs: seq<Conversation>, email: string)
    ensures Occurrences(Cleanup(convs), email) == Occurrences(convs, email)
  {
    if convs != [] {
      CleanupOccurrences(convs[1..], email);
      var head := if HasNoUsers(convs[0]) then [] else [convs[0]];
      OccurrencesAppend(head, Cleanup(convs[1..]), email);
      assert [convs[0]][1..] == [];
    }
  }

  /** Dropping conversations keeps links pairwise distinct. */
  lemma {:induction false} CleanupUniqueLinks(convs: seq<Conversation>)
    requires UniqueLinks(convs)
    ensures UniqueLinks(Cleanup(convs))
  {
    if convs != [] {
      var c, tail := convs[0], convs[1..];
      UniqueLinksSplit(c, tail);
      CleanupUniqueLinks(tail);
      var rest := Cleanup(tail);
      if !HasNoUsers(c) {
        CleanupMembers(tail);
        UniqueLinksJoin(c, rest);
      }
    }
  }

  /** Distinct links in a list with `c` in front: distinct in the rest, and no
      conversation of the rest shares c's link. */
  lemma UniqueLinksSplit(c: Conversation, rest: seq<Conversation>)
    requires UniqueLinks([c] + rest)
    ensures UniqueLinks(rest)
    ensures forall d :: d in rest ==> d.link != c.link
  {
    var s := [c] + rest;
    forall i, j | 0 <= i < j < |rest| ensures rest[i].link != rest[j].link {
      assert rest[i] == s[i + 1] && rest[j] == s[j + 1];
    }
    forall d | d in rest ensures d.link != c.link {
      var m :| 0 <= m < |rest| && rest[m] == d;
      assert s[m + 1] == d && s[0] == c;
    }
  }

  /** The converse of UniqueLinksSplit. */
  lemma UniqueLinksJoin(c: Conversation, rest: seq<Conversation>)
    requires UniqueLinks(rest)
    requires forall d :: d in rest ==> d.link != c.link
    ensures UniqueLinks([c] + rest)
  {
    var s := [c] + rest;
    forall i, j | 0 <= i < j < |s| ensures s[i].link != s[j].link {
      assert s[j] == rest[j - 1];
      if i > 0 {
        assert s[i] == rest[i - 1];
      } else {
        assert rest[j - 1] in rest;
      }
    }
  }
}
