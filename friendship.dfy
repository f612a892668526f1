/** The friendship graph held in the friends lists: what a consistent graph is,
    how each handler's write changes the lists, and that those writes keep the
    graph consistent. */
module Friendship {
  import opened UserModel
  import opened Scores

  /** The directed pairs the lists hold: (a, b) when the record with id `a` lists `b`. */
  function Links(users: seq<UserRecord>): set<(string, string)>
  {
    set k, f | 0 <= k < |users| && f in users[k].friends :: (users[k].id, f)
  }

  predicate NoDuplicates(list: seq<string>)
  {
    forall p, q :: 0 <= p < q < |list| ==> list[p] != list[q]
  }

  /** What link, unlink and delete keep: no self-friendship, no id listed twice,
      every listed id names a stored record, and friendship is mutual. */
  predicate GraphConsistent(users: seq<UserRecord>)
  {
    && (forall k :: 0 <= k < |users| ==> users[k].id !in users[k].friends)
    && (forall k :: 0 <= k < |users| ==> NoDuplicates(users[k].friends))
    && (forall k, f :: 0 <= k < |users| && f in users[k].friends ==> HasId(users, f))
    && (forall i, j :: 0 <= i < |users| && 0 <= j < |users| && users[j].id in users[i].friends
                       ==> users[i].id in users[j].friends)
  }

  /** In a consistent graph the pairs form a symmetric, irreflexive relation on stored ids. */
  lemma ConsistentLinks(users: seq<UserRecord>, a: string, b: string)
    requires GraphConsistent(users)
    ensures (a, b) in Links(users) ==> (b, a) in Links(users) && a != b && HasId(users, a) && HasId(users, b)
  {
    if (a, b) in Links(users) {
      var i :| 0 <= i < |users| && users[i].id == a && b in users[i].friends;
      assert HasId(users, b);
      var j := IndexOf(users, b);
      assert users[j].id in users[i].friends;
      assert users[i].id in users[j].friends;
      assert (users[j].id, users[i].id) in Links(users);
    }
  }

  // ---------------------------------------------------------------------------
  // The writes of the handlers, as functions of the snapshot they start from

  /** `linkUsers`: both records read first, each gets the other's id appended, both saved. */
  function Linked(users: seq<UserRecord>, i: nat, j: nat): (r: seq<UserRecord>)
    requires i < |users| && j < |users|
    ensures |r| == |users|
  {
    var user := users[i].(friends := users[i].friends + [users[j].id]);
    var friend := users[j].(friends := users[j].friends + [users[i].id]);
    users[i := user][j := friend]
  }

  /** `unlinkUsers`: both records read first, each filtered of the other's id, both saved. */
  function Unlinked(users: seq<UserRecord>, i: nat, j: nat): (r: seq<UserRecord>)
    requires i < |users| && j < |users|
    ensures |r| == |users|
  {
    var user := users[i].(friends := Without(users[i].friends, users[j].id));
    var friend := users[j].(friends := Without(users[j].friends, users[i].id));
    users[i := user][j := friend]
  }

  /** `deleteUser` past its guards: the id is pulled from every list, then its record goes. */
  function Deleted(users: seq<UserRecord>, i: nat): (r: seq<UserRecord>)
    requires i < |users|
    ensures |r| == |users| - 1
  {
    var pulled := PullAll(users, users[i].id);
    pulled[..i] + pulled[i + 1..]
  }

  /** A link touches only the two friends lists: no lookup changes, every
      other record stays, and a valid store stays valid. */
  lemma LinkedKeeps(users: seq<UserRecord>, i: nat, j: nat)
    requires i < |users| && j < |users|
    ensures forall id :: IndexOf(Linked(users, i, j), id) == IndexOf(users, id)
    ensures forall k :: 0 <= k < |users| && k != i && k != j ==> Linked(users, i, j)[k] == users[k]
    ensures ValidStore(users) ==> ValidStore(Linked(users, i, j))
  {
    var user := users[i].(friends := users[i].friends + [users[j].id]);
    var friend := users[j].(friends := users[j].friends + [users[i].id]);
    WriteKeepsLookup(users, i, user);
    WriteKeepsLookup(users[i := user], j, friend);
  }

  /** The same for an unlink. */
  lemma UnlinkedKeeps(users: seq<UserRecord>, i: nat, j: nat)
    requires i < |users| && j < |users|
    ensures forall id :: IndexOf(Unlinked(users, i, j), id) == IndexOf(users, id)
    ensures forall k :: 0 <= k < |users| && k != i && k != j ==> Unlinked(users, i, j)[k] == users[k]
    ensures ValidStore(users) ==> ValidStore(Unlinked(users, i, j))
  {
    var user := users[i].(friends := Without(users[i].friends, users[j].id));
    var friend := users[j].(friends := Without(users[j].friends, users[i].id));
    WriteKeepsLookup(users, i, user);
    WriteKeepsLookup(users[i := user], j, friend);
  }

  // ---------------------------------------------------------------------------
  // How each write changes the pairs

  /** A link adds exactly the two pairs between the users and no other. */
  lemma LinkedLinks(users: seq<UserRecord>, i: nat, j: nat)
    requires i < |users| && j < |users| && i != j
    ensures Links(Linked(users, i, j)) == Links(users) + {(users[i].id, users[j].id), (users[j].id, users[i].id)}
  {
    var r := Linked(users, i, j);
    var a, b := users[i].id, users[j].id;
    forall p | p in Links(r) ensures p in Links(users) + {(a, b), (b, a)} {
      var k, f :| 0 <= k < |r| && f in r[k].friends && p == (r[k].id, f);
      if k != i && k != j {
        assert r[k] == users[k];
      } else if f in users[k].friends {
        assert (users[k].id, f) in Links(users);
      }
    }
    forall p | p in Links(users) + {(a, b), (b, a)} ensures p in Links(r) {
      if p == (a, b) {
        assert b in r[i].friends;
      } else if p == (b, a) {
        assert a in r[j].friends;
      } else {
        var k, f :| 0 <= k < |users| && f in users[k].friends && p == (users[k].id, f);
        assert f in r[k].friends && r[k].id == users[k].id;
      }
    }
  }

  /** An unlink removes exactly the two pairs between the users, whether or not
      they were there. */
  lemma UnlinkedLinks(users: seq<UserRecord>, i: nat, j: nat)
    requires i < |users| && j < |users| && UniqueIds(users)
    ensures Links(Unlinked(users, i, j)) == Links(users) - {(users[i].id, users[j].id), (users[j].id, users[i].id)}
  {
    var r := Unlinked(users, i, j);
    var a, b := users[i].id, users[j].id;
    forall p | p in Links(r) ensures p in Links(users) - {(a, b), (b, a)} {
      var k, f :| 0 <= k < |r| && f in r[k].friends && p == (r[k].id, f);
      assert f in users[k].friends;
      assert (users[k].id, f) in Links(users);
    }
    forall p | p in Links(users) - {(a, b), (b, a)} ensures p in Links(r) {
      var k, f :| 0 <= k < |users| && f in users[k].friends && p == (users[k].id, f);
      assert f in r[k].friends && r[k].id == users[k].id;
    }
  }

  /** After a delete the remaining records are the others, in their order,
      each with the id pulled from its list, and a valid store stays valid. */
  lemma DeletedShape(users: seq<UserRecord>, i: nat)
    requires i < |users| && UniqueIds(users)
    ensures forall k :: 0 <= k < |Deleted(users, i)| ==>
              var k' := if k < i then k else k + 1;
              Deleted(users, i)[k] == users[k'].(friends := Without(users[k'].friends, users[i].id))
    ensures ValidStore(users) ==> ValidStore(Deleted(users, i))
  {
    var r := Deleted(users, i);
    var pulled := PullAll(users, users[i].id);
    forall k | 0 <= k < |r| ensures r[k] == pulled[if k < i then k else k + 1] {}
  }

  /** After a delete the id is stored nowhere and listed nowhere. */
  lemma DeletedForgets(users: seq<UserRecord>, i: nat)
    requires i < |users| && UniqueIds(users)
    ensures !HasId(Deleted(users, i), users[i].id)
    ensures forall k, f :: 0 <= k < |Deleted(users, i)| && f in Deleted(users, i)[k].friends ==> f != users[i].id
  {
    var r := Deleted(users, i);
    var pulled := PullAll(users, users[i].id);
    forall k | 0 <= k < |r| ensures r[k] == pulled[if k < i then k else k + 1] {}
    forall k | 0 <= k < |r| ensures r[k].id != users[i].id {
      var k' := if k < i then k else k + 1;
      assert r[k].id == users[k'].id;
    }
  }

  /** A delete drops every pair that points at the deleted id, and the pairs of
      the deleted record itself, which the guard has made empty. */
  lemma DeletedLinks(users: seq<UserRecord>, i: nat)
    requires i < |users| && UniqueIds(users) && users[i].friends == []
    ensures Links(Deleted(users, i)) == set p | p in Links(users) && p.1 != users[i].id
  {
    var r := Deleted(users, i);
    var x := users[i].id;
    var pulled := PullAll(users, x);
    forall p | p in Links(r) ensures p in Links(users) && p.1 != x {
      var k, f :| 0 <= k < |r| && f in r[k].friends && p == (r[k].id, f);
      var k' := if k < i then k else k + 1;
      assert r[k] == pulled[k'];
      assert (users[k'].id, f) in Links(users);
    }
    forall p | p in Links(users) && p.1 != x ensures p in Links(r) {
      var k, f :| 0 <= k < |users| && f in users[k].friends && p == (users[k].id, f);
      assert k != i;
      var k' := if k < i then k else k - 1;
      assert r[k'] == pulled[k];
      assert f in r[k'].friends;
    }
  }

  // ---------------------------------------------------------------------------
  // Consistency is kept

  lemma LinkedConsistent(users: seq<UserRecord>, i: nat, j: nat)
    requires i < |users| && j < |users| && i != j && UniqueIds(users)
    requires users[j].id !in users[i].friends && users[i].id !in users[j].friends
    requires GraphConsistent(users)
    ensures GraphConsistent(Linked(users, i, j))
  {
    var r := Linked(users, i, j);
    forall k | 0 <= k < |r| ensures r[k].id == users[k].id {}
    LinkedListsStored(users, i, j);
    LinkedListsDistinct(users, i, j);
  }

  /** After a link every listed id still names a stored record. */
  lemma LinkedListsStored(users: seq<UserRecord>, i: nat, j: nat)
    requires i < |users| && j < |users| && GraphConsistent(users)
    ensures forall k, f :: 0 <= k < |users| && f in Linked(users, i, j)[k].friends ==> HasId(Linked(users, i, j), f)
  {
    var r := Linked(users, i, j);
    forall k | 0 <= k < |r| ensures r[k].id == users[k].id {}
    forall k, f | 0 <= k < |r| && f in r[k].friends ensures HasId(r, f) {
      IndexOfSameIds(users, r, f);
      if f in users[k].friends {
        assert HasId(users, f);
      } else {
        assert users[i].id == f || users[j].id == f;
      }
    }
  }

  /** A link appends an id that was not listed, so no list repeats an id. */
  lemma LinkedListsDistinct(users: seq<UserRecord>, i: nat, j: nat)
    requires i < |users| && j < |users| && i != j
    requires users[j].id !in users[i].friends && users[i].id !in users[j].friends
    requires GraphConsistent(users)
    ensures forall k :: 0 <= k < |users| ==> NoDuplicates(Linked(users, i, j)[k].friends)
  {
    var r := Linked(users, i, j);
    forall k | 0 <= k < |r| && (k == i || k == j) ensures NoDuplicates(r[k].friends) {
      var fs := r[k].friends;
      assert NoDuplicates(users[k].friends);
      forall p, q | 0 <= p < q < |fs| ensures fs[p] != fs[q] {
        if q == |fs| - 1 {
          assert fs[p] in users[k].friends;
        }
      }
    }
  }

  lemma UnlinkedConsistent(users: seq<UserRecord>, i: nat, j: nat)
    requires i < |users| && j < |users| && UniqueIds(users)
    requires GraphConsistent(users)
    ensures GraphConsistent(Unlinked(users, i, j))
  {
    var r := Unlinked(users, i, j);
    forall k | 0 <= k < |r| ensures r[k].id == users[k].id {}
    forall k, f | 0 <= k < |r| && f in r[k].friends ensures HasId(r, f) {
      IndexOfSameIds(users, r, f);
      assert f in users[k].friends;
      assert HasId(users, f);
    }
    forall k | 0 <= k < |r| ensures NoDuplicates(r[k].friends) {
      WithoutKeepsNoDuplicates(users[k].friends, if k == j then users[i].id else users[j].id);
    }
  }

  lemma {:induction false} WithoutKeepsNoDuplicates(list: seq<string>, x: string)
    requires NoDuplicates(list)
    ensures NoDuplicates(Without(list, x))
  {
    if list != [] {
      assert NoDuplicates(list[1..]) by {
        forall p, q | 0 <= p < q < |list[1..]| ensures list[1..][p] != list[1..][q] {
          assert list[1..][p] == list[p + 1] && list[1..][q] == list[q + 1];
        }
      }
      WithoutKeepsNoDuplicates(list[1..], x);
      var rest := Without(list[1..], x);
      if list[0] != x {
        assert list[0] !in list[1..];
        var r := [list[0]] + rest;
        forall p, q | 0 <= p < q < |r| ensures r[p] != r[q] {
          if p == 0 {
            assert r[q] == rest[q - 1];
            assert r[q] in list[1..];
          } else {
            assert r[p] == rest[p - 1] && r[q] == rest[q - 1];
          }
        }
      }
    }
  }

  /** With a consistent graph, the `$pull` of a friendless user's id changes
      nothing: nobody lists that id. */
  lemma PullOfFriendlessIsNoOp(users: seq<UserRecord>, i: nat)
    requires i < |users| && UniqueIds(users) && GraphConsistent(users) && users[i].friends == []
    ensures PullAll(users, users[i].id) == users
  {
    var x := users[i].id;
    forall k | 0 <= k < |users| ensures x !in users[k].friends {
      assert users[k].id !in users[i].friends;
    }
  }

  lemma DeletedConsistent(users: seq<UserRecord>, i: nat)
    requires i < |users| && UniqueIds(users) && users[i].friends == []
    requires GraphConsistent(users)
    ensures GraphConsistent(Deleted(users, i))
    ensures UniqueIds(Deleted(users, i))
  {
    PullOfFriendlessIsNoOp(users, i);
    var r := Deleted(users, i);
    assert r == users[..i] + users[i + 1..];
    forall k | 0 <= k < |r| ensures r[k] == users[if k < i then k else k + 1] {}
    RemovedListsStored(users, i);
    forall a, b | 0 <= a < |r| && 0 <= b < |r| && r[a].id == r[b].id ensures a == b {
      assert users[if a < i then a else a + 1].id == users[if b < i then b else b + 1].id;
    }
  }

  /** Dropping a friendless record from a consistent graph leaves every listed id stored. */
  lemma RemovedListsStored(users: seq<UserRecord>, i: nat)
    requires i < |users| && UniqueIds(users) && users[i].friends == []
    requires GraphConsistent(users)
    ensures var r := users[..i] + users[i + 1..];
      forall k, f :: 0 <= k < |r| && f in r[k].friends ==> HasId(r, f)
  {
    var r := users[..i] + users[i + 1..];
    forall k, f | 0 <= k < |r| && f in r[k].friends ensures HasId(r, f) {
      var k' := if k < i then k else k + 1;
      assert r[k] == users[k'];
      assert HasId(users, f);
      var m := IndexOf(users, f);
      assert users[k'].id in users[m].friends;
      assert m != i;
      var m' := if m < i then m else m - 1;
      assert r[m'].id == f;
    }
  }

  /** A new record with no friends and an id no record has keeps the graph consistent. */
  lemma AppendedConsistent(users: seq<UserRecord>, rec: UserRecord)
    requires GraphConsistent(users) && rec.friends == [] && !HasId(users, rec.id)
    ensures GraphConsistent(users + [rec])
  {
    var r := users + [rec];
    forall k, f | 0 <= k < |r| && f in r[k].friends ensures HasId(r, f) {
      assert k < |users| && f in users[k].friends;
      assert HasId(users, f);
      var m := IndexOf(users, f);
      assert r[m].id == f;
    }
    forall i, j | 0 <= i < |r| && 0 <= j < |r| && r[j].id in r[i].friends ensures r[i].id in r[j].friends {
      assert j < |users|;
    }
  }

  /** Only the lists matter: snapshots that differ in scores alone are equally consistent and hold the same pairs. */
  lemma ScoresDoNotMatter(a: seq<UserRecord>, b: seq<UserRecord>)
    requires SameExceptScores(a, b)
    ensures GraphConsistent(a) <==> GraphConsistent(b)
    ensures Links(a) == Links(b)
    ensures UniqueIds(a) <==> UniqueIds(b)
  {
    forall k | 0 <= k < |a| ensures a[k].id == b[k].id && a[k].friends == b[k].friends {
      assert a[k].(popularityScore := 0.0) == b[k].(popularityScore := 0.0);
    }
    forall f ensures HasId(a, f) == HasId(b, f) {
      IndexOfSameIds(a, b, f);
    }
    forall p | p in Links(a) ensures p in Links(b) {
      var k, f :| 0 <= k < |a| && f in a[k].friends && p == (a[k].id, f);
      assert f in b[k].friends && b[k].id == a[k].id;
    }
    forall p | p in Links(b) ensures p in Links(a) {
      var k, f :| 0 <= k < |b| && f in b[k].friends && p == (b[k].id, f);
      assert f in a[k].friends && b[k].id == a[k].id;
    }
  }
}
