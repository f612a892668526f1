/** The popularity score: the friend count plus half a point for every one of
    the user's hobbies (counted with repetition) that some friend also has.
    `PopularityScore` is the specification over a snapshot of the store; the
    methods compute it the way the handlers do and write it back. */
module Scores {
  import opened UserModel

  /** The union of the hobbies of the stored records whose id is listed in
      `friends` (`User.find({ id: { $in: friends } })`): ids that name no record
      contribute nothing, and a record listed twice contributes once. */
  function FriendHobbies(users: seq<UserRecord>, friends: seq<string>): set<string>
  {
    if users == [] then {}
    else
      var last := users[|users| - 1];
      FriendHobbies(users[..|users| - 1], friends)
        + (if last.id in friends then set h | h in last.hobbies else {})
  }

  /** A hobby lies in the union iff some stored friend has it. */
  lemma {:induction false} FriendHobbiesMembers(users: seq<UserRecord>, friends: seq<string>, h: string)
    ensures h in FriendHobbies(users, friends)
        <==> exists k :: 0 <= k < |users| && users[k].id in friends && h in users[k].hobbies
  {
    if users != [] {
      var init := users[..|users| - 1];
      FriendHobbiesMembers(init, friends, h);
      if h in FriendHobbies(init, friends) {
        var k :| 0 <= k < |init| && init[k].id in friends && h in init[k].hobbies;
        assert users[k] == init[k];
      }
      if exists k :: 0 <= k < |users| && users[k].id in friends && h in users[k].hobbies {
        var k :| 0 <= k < |users| && users[k].id in friends && h in users[k].hobbies;
        if k < |init| {
          assert init[k] == users[k];
        }
      }
    }
  }

  /** How many entries of `hobbies`, repetitions included, lie in `pool`
      (`hobbies.filter(h => pool.has(h)).length`). */
  function SharedCount(hobbies: seq<string>, pool: set<string>): (n: nat)
    ensures n <= |hobbies|
  {
    if hobbies == [] then 0
    else SharedCount(hobbies[..|hobbies| - 1], pool) + (if hobbies[|hobbies| - 1] in pool then 1 else 0)
  }

  /** The count is everything exactly when every entry is in the pool. */
  lemma {:induction false} SharedCountAll(hobbies: seq<string>, pool: set<string>)
    ensures SharedCount(hobbies, pool) == |hobbies| <==> forall k :: 0 <= k < |hobbies| ==> hobbies[k] in pool
  {
    if hobbies != [] {
      var init := hobbies[..|hobbies| - 1];
      SharedCountAll(init, pool);
      assert forall k :: 0 <= k < |init| ==> init[k] == hobbies[k];
    }
  }

  /** The count is zero exactly when no entry is in the pool. */
  lemma {:induction false} SharedCountNone(hobbies: seq<string>, pool: set<string>)
    ensures SharedCount(hobbies, pool) == 0 <==> forall k :: 0 <= k < |hobbies| ==> hobbies[k] !in pool
  {
    if hobbies != [] {
      var init := hobbies[..|hobbies| - 1];
      SharedCountNone(init, pool);
      assert forall k :: 0 <= k < |init| ==> init[k] == hobbies[k];
    }
  }

  /** The score `calculatePopularityScore` returns for `id` on this snapshot. */
  function PopularityScore(users: seq<UserRecord>, id: string): (score: real)
    ensures !HasId(users, id) ==> score == 0.0
    ensures HasId(users, id) && users[IndexOf(users, id)].friends == [] ==> score == 0.0
    ensures HasId(users, id) ==>
              var u := users[IndexOf(users, id)];
              |u.friends| as real <= score <= |u.friends| as real + 0.5 * |u.hobbies| as real
  {
    var i := IndexOf(users, id);
    if i < 0 then 0.0
    else
      var u := users[i];
      if u.friends == [] then |u.friends| as real
      else |u.friends| as real + 0.5 * SharedCount(u.hobbies, FriendHobbies(users, u.friends)) as real
  }

  /** Two users who are each other's only friend, as the score examples set them up. */
  function TwoFriends(hobbies1: seq<string>, hobbies2: seq<string>): (users: seq<UserRecord>)
    ensures |users| == 2
  {
    [UserRecord("u1", "User1", 25, hobbies1, ["u2"], 0.0),
     UserRecord("u2", "User2", 30, hobbies2, ["u1"], 0.0)]
  }

  /** With one friend the score is 1 plus half a point per hobby the friend shares. */
  lemma TwoFriendsScore(hobbies1: seq<string>, hobbies2: seq<string>)
    ensures PopularityScore(TwoFriends(hobbies1, hobbies2), "u1")
            == 1.0 + 0.5 * SharedCount(hobbies1, set h | h in hobbies2) as real
  {
    var users := TwoFriends(hobbies1, hobbies2);
    assert IndexOf(users, "u1") == 0;
    assert users[..1][..0] == [] && users[..|users| - 1] == users[..1];
    assert "u1" !in ["u2"] by { assert "u1"[1] != "u2"[1]; }
    assert FriendHobbies(users[..1], ["u2"]) == {};
    assert FriendHobbies(users, ["u2"]) == set h | h in hobbies2;
  }

  /** A user without friends scores 0, whatever their hobbies. */
  lemma ScoreWithoutFriendsExample()
    ensures PopularityScore([UserRecord("u1", "TestUser", 25, ["reading", "coding"], [], 0.0)], "u1") == 0.0
  {
    var alone := [UserRecord("u1", "TestUser", 25, ["reading", "coding"], [], 0.0)];
    assert IndexOf(alone, "u1") == 0;
  }

  /** One friend and no hobby in common score 1. */
  lemma ScoreNoSharedHobbyExample()
    ensures PopularityScore(TwoFriends(["reading", "coding"], ["gaming", "sports"]), "u1") == 1.0
  {
    TwoFriendsScore(["reading", "coding"], ["gaming", "sports"]);
    assert (set h | h in ["gaming", "sports"]) == {"gaming", "sports"};
    SharedCountNone(["reading", "coding"], {"gaming", "sports"});
  }

  /** One friend sharing two of three hobbies scores 1 + 2 * 0.5 = 2. */
  lemma ScoreTwoSharedExample()
    ensures PopularityScore(TwoFriends(["reading", "coding", "gaming"], ["gaming", "sports", "reading"]), "u1") == 2.0
  {
    TwoFriendsScore(["reading", "coding", "gaming"], ["gaming", "sports", "reading"]);
    var pool := {"gaming", "sports", "reading"};
    assert (set h | h in ["gaming", "sports", "reading"]) == pool;
    var three := ["reading", "coding", "gaming"];
    assert three[..2] == ["reading", "coding"] && three[..2][..1] == ["reading"] && three[..2][..1][..0] == [];
    assert "coding" !in pool;
    assert SharedCount(three[..2][..1], pool) == 1;
    assert SharedCount(three[..2], pool) == 1;
    assert SharedCount(three, pool) == 2;
  }

  /** One friend sharing one of two hobbies scores 1 + 0.5 = 1.5. */
  lemma ScoreOneSharedExample()
    ensures PopularityScore(TwoFriends(["reading", "coding"], ["coding", "gaming"]), "u1") == 1.5
  {
    TwoFriendsScore(["reading", "coding"], ["coding", "gaming"]);
    var pool := {"coding", "gaming"};
    assert (set h | h in ["coding", "gaming"]) == pool;
    var two := ["reading", "coding"];
    assert two[..1] == ["reading"] && two[..1][..0] == [];
    assert "reading" !in pool;
    assert SharedCount(two[..1], pool) == 0;
    assert SharedCount(two, pool) == 1;
  }

  /** Two snapshots that differ at most in their scores. */
  predicate SameExceptScores(a: seq<UserRecord>, b: seq<UserRecord>)
  {
    |a| == |b| && forall k :: 0 <= k < |a| ==> a[k].(popularityScore := 0.0) == b[k].(popularityScore := 0.0)
  }

  lemma {:induction false} FriendHobbiesIgnoresScores(a: seq<UserRecord>, b: seq<UserRecord>, friends: seq<string>)
    requires SameExceptScores(a, b)
    ensures FriendHobbies(a, friends) == FriendHobbies(b, friends)
  {
    if a != [] {
      var n := |a| - 1;
      assert a[n].(popularityScore := 0.0) == b[n].(popularityScore := 0.0);
      assert a[n].id == b[n].id && a[n].hobbies == b[n].hobbies;
      assert SameExceptScores(a[..n], b[..n]) by {
        forall k | 0 <= k < n
          ensures a[..n][k].(popularityScore := 0.0) == b[..n][k].(popularityScore := 0.0)
        {
          assert a[..n][k] == a[k] && b[..n][k] == b[k];
        }
      }
      FriendHobbiesIgnoresScores(a[..n], b[..n], friends);
    }
  }

  /** The score never reads scores: snapshots that differ only in scores give
      every id the same score. This is why recomputing several ids gives the
      same store whatever order the ids are taken in. */
  lemma ScoreIgnoresScores(a: seq<UserRecord>, b: seq<UserRecord>, id: string)
    requires SameExceptScores(a, b)
    ensures PopularityScore(a, id) == PopularityScore(b, id)
  {
    forall k | 0 <= k < |a| ensures a[k].id == b[k].id {
      assert a[k].(popularityScore := 0.0) == b[k].(popularityScore := 0.0);
    }
    IndexOfSameIds(a, b, id);
    var i := IndexOf(a, id);
    if i >= 0 {
      assert a[i].(popularityScore := 0.0) == b[i].(popularityScore := 0.0);
      FriendHobbiesIgnoresScores(a, b, a[i].friends);
    }
  }

  /** The store after the scores of the records whose id is in `ids` have been
      recomputed and written back; every other field and record is as it was. */
  function Rescored(users: seq<UserRecord>, ids: seq<string>): (r: seq<UserRecord>)
    ensures SameExceptScores(users, r)
  {
    seq(|users|, k requires 0 <= k < |users| =>
      if users[k].id in ids then users[k].(popularityScore := PopularityScore(users, users[k].id)) else users[k])
  }

  /** Recomputing scores changes no lookup and keeps the store valid. */
  lemma RescoredKeeps(users: seq<UserRecord>, ids: seq<string>)
    ensures forall id :: IndexOf(Rescored(users, ids), id) == IndexOf(users, id)
    ensures ValidStore(users) ==> ValidStore(Rescored(users, ids))
  {
    var r := Rescored(users, ids);
    forall k | 0 <= k < |r| ensures r[k].id == users[k].id {}
    forall id ensures IndexOf(r, id) == IndexOf(users, id) {
      IndexOfSameIds(users, r, id);
    }
  }

  /** Rescoring keeps every record's id and friends. */
  lemma RescoredKeepsLists(users: seq<UserRecord>, ids: seq<string>)
    ensures forall k :: 0 <= k < |users| ==>
              Rescored(users, ids)[k].id == users[k].id && Rescored(users, ids)[k].friends == users[k].friends
  {
    var r := Rescored(users, ids);
    forall k | 0 <= k < |users| ensures r[k].id == users[k].id && r[k].friends == users[k].friends {
      assert users[k].(popularityScore := 0.0) == r[k].(popularityScore := 0.0);
    }
  }

  /** Recomputing `a` and then `b` is recomputing `a + b` at once. */
  lemma RescoredTwice(users: seq<UserRecord>, a: seq<string>, b: seq<string>)
    ensures Rescored(Rescored(users, a), b) == Rescored(users, a + b)
  {
    var mid := Rescored(users, a);
    forall k | 0 <= k < |users|
      ensures Rescored(mid, b)[k] == Rescored(users, a + b)[k]
    {
      ScoreIgnoresScores(users, mid, users[k].id);
    }
  }

  /** `calculatePopularityScore`: look the user up, gather the friends' hobbies
      into a set record by record, then count the user's hobbies found in it. */
  method CalculatePopularityScore(store: UserStore, id: string) returns (score: real)
    ensures score == PopularityScore(store.users, id)
  {
    var users := store.users;
    var i := IndexOf(users, id);
    if i < 0 {
      return 0.0;
    }
    var user := users[i];
    if |user.friends| == 0 {
      return |user.friends| as real;
    }
    var pool: set<string> := {};
    var k := 0;
    while k < |users|
      invariant 0 <= k <= |users|
      invariant pool == FriendHobbies(users[..k], user.friends)
    {
      var friend := users[k];
      if friend.id in user.friends {
        var j := 0;
        while j < |friend.hobbies|
          invariant 0 <= j <= |friend.hobbies|
          invariant pool == FriendHobbies(users[..k], user.friends) + set h | h in friend.hobbies[..j]
        {
          pool := pool + {friend.hobbies[j]};
          assert friend.hobbies[..j + 1] == friend.hobbies[..j] + [friend.hobbies[j]];
          j := j + 1;
        }
        assert friend.hobbies[..j] == friend.hobbies;
      }
      assert users[..k + 1][..k] == users[..k];
      k := k + 1;
    }
    assert users[..k] == users;
    var shared := 0;
    var j := 0;
    while j < |user.hobbies|
      invariant 0 <= j <= |user.hobbies|
      invariant shared == SharedCount(user.hobbies[..j], pool)
    {
      if user.hobbies[j] in pool {
        shared := shared + 1;
      }
      assert user.hobbies[..j + 1][..j] == user.hobbies[..j];
      j := j + 1;
    }
    assert user.hobbies[..j] == user.hobbies;
    score := |user.friends| as real + 0.5 * shared as real;
  }

  /** `updatePopularityScore`: compute the score, write it into that user's
      `popularityScore` and nothing else, and return it. */
  method UpdatePopularityScore(store: UserStore, id: string) returns (score: real)
    requires store.Valid()
    modifies store
    ensures store.Valid()
    ensures score == PopularityScore(old(store.users), id)
    ensures store.users == Rescored(old(store.users), [id])
  {
    score := CalculatePopularityScore(store, id);
    ghost var before := store.users;
    store.SetScore(id, score);
    forall k | 0 <= k < |before| ensures store.users[k] == Rescored(before, [id])[k] {
      if before[k].id == id {
        IndexOfUnique(before, k);
      }
    }
  }

  /** `updatePopularityScores`: recompute each listed id in turn. The ids are
      independent (ScoreIgnoresScores), so the result depends only on which ids
      are listed, not on their order. */
  method UpdatePopularityScores(store: UserStore, ids: seq<string>)
    requires store.Valid()
    modifies store
    ensures store.Valid()
    ensures store.users == Rescored(old(store.users), ids)
  {
    var n := 0;
    while n < |ids|
      invariant 0 <= n <= |ids|
      invariant store.Valid()
      invariant store.users == Rescored(old(store.users), ids[..n])
    {
      ghost var mid := store.users;
      var _ := UpdatePopularityScore(store, ids[n]);
      RescoredTwice(old(store.users), ids[..n], [ids[n]]);
      assert ids[..n + 1] == ids[..n] + [ids[n]];
      n := n + 1;
    }
    assert ids[..n] == ids;
  }
}
