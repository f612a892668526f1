/** The request handlers of the user controller, past their HTTP plumbing: each
    takes the parsed request fields, decides, changes the store and returns
    either the response data or the kind of error it reports.

    Each handler is a method on the store, specified by a step function from
    the snapshot before to the result and the snapshot after; the lemmas below
    each step function state what the handler promises. */
module Controller {
  import opened UserModel
  import opened Scores
  import opened Friendship

  /** The error kinds the handlers tell apart. */
  datatype ErrorKind = ValidationError | NotFound | Conflict

  function StatusCode(e: ErrorKind): (code: int)
    ensures 400 <= code < 500
    ensures e == ValidationError <==> code == 400
    ensures e == NotFound <==> code == 404
    ensures e == Conflict <==> code == 409
  {
    match e
    case ValidationError => 400
    case NotFound => 404
    case Conflict => 409
  }

  datatype Result<T> = Ok(value: T) | Err(error: ErrorKind)

  /** What a handler returns, with the store it leaves. */
  datatype Outcome<T> = Outcome(result: Result<T>, users: seq<UserRecord>)

  datatype Option<T> = None | Some(value: T)

  /** The `age` field of a request body: left out, present but not a number, or a number. */
  datatype AgeInput = AgeAbsent | AgeNotANumber | Age(n: int)

  /** The `hobbies` field of a request body: left out, present but not an array, or an array. */
  datatype HobbiesInput = HobbiesAbsent | HobbiesNotAList | Hobbies(items: seq<string>)

  /** JavaScript truthiness of an optional string field (`!friendId`, `!username`). */
  predicate Given(s: Option<string>)
  {
    s.Some? && s.value != []
  }

  predicate AgeAccepted(age: AgeInput)
  {
    age.Age? && ValidAge(age.n)
  }

  predicate UsernameAccepted(username: string)
  {
    1 <= |Trim(username)| <= MaxUsernameLength
  }

  // ---------------------------------------------------------------------------
  // createUser

  /** The hobbies a new record gets: the non-blank entries of an array, else none. */
  function CreateHobbies(hobbies: HobbiesInput): (r: seq<string>)
    ensures ValidHobbies(r)
    ensures hobbies.Hobbies? && ValidHobbies(hobbies.items) ==> r == hobbies.items
    ensures !hobbies.Hobbies? ==> r == []
  {
    if hobbies.Hobbies? then NonBlankKeepsValid(hobbies.items); NonBlank(hobbies.items) else []
  }

  /** `createUser` on a snapshot; `newId` stands for the generated uuid. */
  function CreateStep(users: seq<UserRecord>, newId: string, username: Option<string>, age: AgeInput,
                      hobbies: HobbiesInput): Outcome<UserRecord>
  {
    if !Given(username) || age.AgeAbsent? || age == Age(0) then Outcome(Err(ValidationError), users)
    else if !age.Age? || age.n < MinAge || age.n > MaxAge then Outcome(Err(ValidationError), users)
    else
      var rec := NewRecord(newId, Trim(username.value), age.n, CreateHobbies(hobbies));
      if ValidRecord(rec) then Outcome(Ok(rec), users + [rec]) else Outcome(Err(ValidationError), users)
  }

  /** The record create builds passes the schema iff the id is not empty, the
      username trims to 1 to 50 characters and the age is in range; the
      hobbies never make it fail, blank ones having been dropped. */
  lemma NewRecordValid(newId: string, username: string, age: int, hobbies: HobbiesInput)
    ensures ValidRecord(NewRecord(newId, Trim(username), age, CreateHobbies(hobbies)))
        <==> newId != [] && UsernameAccepted(username) && ValidAge(age)
  {
    UsernameAcceptedIff(username);
  }

  /** Create succeeds iff a username whose trimmed form has 1 to 50 characters
      and an age in [1, 150] are given; a failure is a validation error that
      writes nothing, and a success appends the record with the trimmed name,
      the non-blank hobbies, no friends and score 0. */
  lemma CreateStepSpec(users: seq<UserRecord>, newId: string, username: Option<string>, age: AgeInput,
                       hobbies: HobbiesInput)
    ensures var o := CreateStep(users, newId, username, age, hobbies);
      && (o.result.Ok? <==> newId != [] && username.Some? && UsernameAccepted(username.value) && AgeAccepted(age))
      && (o.result.Err? ==> o.result.error == ValidationError && o.users == users)
      && (o.result.Ok? ==>
            && o.result.value == NewRecord(newId, Trim(username.value), age.n, CreateHobbies(hobbies))
            && o.users == users + [o.result.value])
  {
    if !Given(username) || age.AgeAbsent? || age == Age(0) {
      if username.Some? && username.value == [] {
        assert Trim(username.value) == [];
      }
    } else if age.Age? && MinAge <= age.n <= MaxAge {
      NewRecordValid(newId, username.value, age.n, hobbies);
    }
  }

  /** A create keeps the store valid, the graph consistent and the pairs as they were. */
  lemma CreateStepKeeps(users: seq<UserRecord>, newId: string, username: Option<string>, age: AgeInput,
                        hobbies: HobbiesInput)
    requires ValidStore(users) && !HasId(users, newId)
    ensures var o := CreateStep(users, newId, username, age, hobbies);
      && ValidStore(o.users)
      && (GraphConsistent(users) ==> GraphConsistent(o.users))
      && Links(o.users) == Links(users)
  {
    var o := CreateStep(users, newId, username, age, hobbies);
    if o.result.Ok? {
      var rec := o.result.value;
      AppendKeepsValid(users, rec);
      if GraphConsistent(users) {
        AppendedConsistent(users, rec);
      }
      AppendedLinks(users, rec);
    }
  }

  lemma AppendedLinks(users: seq<UserRecord>, rec: UserRecord)
    requires rec.friends == []
    ensures Links(users + [rec]) == Links(users)
  {
    var r := users + [rec];
    forall p | p in Links(r) ensures p in Links(users) {
      var k, f :| 0 <= k < |r| && f in r[k].friends && p == (r[k].id, f);
      assert r[k] == users[k];
    }
    forall p | p in Links(users) ensures p in Links(r) {
      var k, f :| 0 <= k < |users| && f in users[k].friends && p == (users[k].id, f);
      assert r[k] == users[k];
    }
  }

  /** `createUser`. */
  method CreateUser(store: UserStore, newId: string, username: Option<string>, age: AgeInput, hobbies: HobbiesInput)
    returns (r: Result<UserRecord>)
    requires store.Valid() && !HasId(store.users, newId)
    modifies store
    ensures store.Valid()
    ensures Outcome(r, store.users) == CreateStep(old(store.users), newId, username, age, hobbies)
  {
    if !Given(username) || age.AgeAbsent? || age == Age(0) {
      return Err(ValidationError);
    }
    if !age.Age? || age.n < MinAge || age.n > MaxAge {
      return Err(ValidationError);
    }
    var rec := NewRecord(newId, Trim(username.value), age.n, CreateHobbies(hobbies));
    TrimIdempotent(username.value);
    var ok := store.Insert(rec);
    if !ok {
      return Err(ValidationError);
    }
    r := Ok(rec);
  }

  // ---------------------------------------------------------------------------
  // updateUser

  /** The record after a partial update: supplied fields replace the stored
      ones (the username trimmed, the hobbies filtered), omitted ones stay. */
  function Patched(rec: UserRecord, username: Option<string>, age: AgeInput, hobbies: HobbiesInput): UserRecord
  {
    rec.(username := if username.Some? then Trim(username.value) else rec.username,
         age := if age.Age? then age.n else rec.age,
         hobbies := if hobbies.Hobbies? then NonBlank(hobbies.items) else rec.hobbies)
  }

  /** The ids whose scores an update recomputes: the user's own, then the
      friends' when hobbies were supplied and there are friends. */
  function UpdateRescores(id: string, friends: seq<string>, hobbies: HobbiesInput): seq<string>
  {
    [id] + if hobbies.Hobbies? && |friends| > 0 then friends else []
  }

  /** The checks and field assignments `updateUser` makes on the record it read:
      a supplied age must be a number in range and supplied hobbies an array. */
  function PatchStep(rec: UserRecord, username: Option<string>, age: AgeInput, hobbies: HobbiesInput): Result<UserRecord>
  {
    if !age.AgeAbsent? && !AgeAccepted(age) then Err(ValidationError)
    else if hobbies.HobbiesNotAList? then Err(ValidationError)
    else Ok(Patched(rec, username, age, hobbies))
  }

  /** `updateUser` on a snapshot. */
  function UpdateStep(users: seq<UserRecord>, id: string, username: Option<string>, age: AgeInput,
                      hobbies: HobbiesInput): Outcome<UserRecord>
  {
    var i := IndexOf(users, id);
    if i < 0 then Outcome(Err(NotFound), users)
    else
      var p := PatchStep(users[i], username, age, hobbies);
      if p.Err? then Outcome(Err(p.error), users)
      else if !ValidRecord(p.value) then Outcome(Err(ValidationError), users)
      else
        var after := Rescored(users[i := p.value], UpdateRescores(id, p.value.friends, hobbies));
        Outcome(Ok(after[i]), after)
  }

  /** Update answers 404 for an unknown id and 400 for a bad age, a non-array
      hobbies value or a username whose trimmed form is empty or over 50
      characters, and writes nothing when it fails. */
  lemma UpdateStepErrors(users: seq<UserRecord>, id: string, username: Option<string>, age: AgeInput,
                         hobbies: HobbiesInput)
    requires ValidStore(users)
    ensures var o := UpdateStep(users, id, username, age, hobbies);
      && (!HasId(users, id) ==> o.result == Err(NotFound))
      && (HasId(users, id) ==>
            (o.result.Err? <==> (username.Some? && !UsernameAccepted(username.value))
                                || (!age.AgeAbsent? && !AgeAccepted(age))
                                || hobbies.HobbiesNotAList?))
      && (HasId(users, id) && o.result.Err? ==> o.result.error == ValidationError)
      && (o.result.Err? ==> o.users == users)
  {
    var i := IndexOf(users, id);
    if i >= 0 {
      var p := PatchStep(users[i], username, age, hobbies);
      if p.Ok? {
        PatchedValid(users[i], username, age, hobbies);
        UpdateStepAt(users, id, username, age, hobbies, p.value);
      }
    }
  }

  /** A patch of a valid record is valid iff a supplied username trims to 1 to 50 characters. */
  lemma PatchedValid(rec: UserRecord, username: Option<string>, age: AgeInput, hobbies: HobbiesInput)
    requires ValidRecord(rec)
    requires PatchStep(rec, username, age, hobbies).Ok?
    ensures ValidRecord(PatchStep(rec, username, age, hobbies).value)
        <==> (username.Some? ==> UsernameAccepted(username.value))
  {
    if username.Some? {
      UsernameAcceptedIff(username.value);
    }
    if hobbies.Hobbies? {
      NonBlankKeepsValid(hobbies.items);
    }
  }

  /** A successful update writes the user's record: supplied fields take the
      new values (the username trimmed, the hobbies filtered and replacing the
      whole list), omitted ones and the friends stay, and the score is
      recomputed on the updated snapshot. */
  lemma UpdateStepEffect(users: seq<UserRecord>, id: string, username: Option<string>, age: AgeInput,
                         hobbies: HobbiesInput)
    requires ValidStore(users)
    ensures var o := UpdateStep(users, id, username, age, hobbies);
      o.result.Ok? ==>
        var i := IndexOf(users, id);
        var u := o.result.value;
        && |o.users| == |users| && u == o.users[i]
        && u.id == id && u.friends == users[i].friends
        && u.username == (if username.Some? then Trim(username.value) else users[i].username)
        && u.age == (if age.Age? then age.n else users[i].age)
        && u.hobbies == (if hobbies.Hobbies? then NonBlank(hobbies.items) else users[i].hobbies)
        && u.popularityScore == PopularityScore(users[i := u.(popularityScore := users[i].popularityScore)], id)
  {
    var i := IndexOf(users, id);
    if i >= 0 && PatchStep(users[i], username, age, hobbies).Ok? {
      var patched := Patched(users[i], username, age, hobbies);
      UpdateStepAt(users, id, username, age, hobbies, patched);
      var saved := users[i := patched];
      var after := Rescored(saved, UpdateRescores(id, patched.friends, hobbies));
      assert after[i] == patched.(popularityScore := PopularityScore(saved, id));
      assert after[i].(popularityScore := users[i].popularityScore) == patched;
    }
  }

  /** A successful update changes no other record but for its score, and only
      the user's own score and, when hobbies were supplied, the friends' scores
      are recomputed. */
  lemma UpdateStepScores(users: seq<UserRecord>, id: string, username: Option<string>, age: AgeInput,
                         hobbies: HobbiesInput)
    requires ValidStore(users)
    ensures var o := UpdateStep(users, id, username, age, hobbies);
      o.result.Ok? ==>
        var i := IndexOf(users, id);
        && (forall k :: 0 <= k < |users| && k != i ==>
              o.users[k].(popularityScore := 0.0) == users[k].(popularityScore := 0.0))
        && (forall k :: 0 <= k < |users| && o.users[k].popularityScore != users[k].popularityScore ==>
              k == i || (hobbies.Hobbies? && users[k].id in users[i].friends))
  {
    var i := IndexOf(users, id);
    if i >= 0 && PatchStep(users[i], username, age, hobbies).Ok? {
      var patched := Patched(users[i], username, age, hobbies);
      UpdateStepAt(users, id, username, age, hobbies, patched);
      PatchedScores(users, i, patched, hobbies);
    }
  }

  /** A successful update gives the user, and when hobbies were supplied each
      of the user's friends, the score recomputed on the snapshot holding the
      patched record. */
  lemma UpdateStepFriendScores(users: seq<UserRecord>, id: string, username: Option<string>, age: AgeInput,
                               hobbies: HobbiesInput)
    ensures var o := UpdateStep(users, id, username, age, hobbies);
      o.result.Ok? ==>
        var i := IndexOf(users, id);
        var written := users[i := Patched(users[i], username, age, hobbies)];
        forall k :: 0 <= k < |users| && (k == i || (hobbies.Hobbies? && users[k].id in users[i].friends)) ==>
          o.users[k].popularityScore == PopularityScore(written, users[k].id)
  {
    var i := IndexOf(users, id);
    if i >= 0 && PatchStep(users[i], username, age, hobbies).Ok? {
      var patched := Patched(users[i], username, age, hobbies);
      UpdateStepAt(users, id, username, age, hobbies, patched);
    }
  }

  /** The score side of an update, on the record `patched` written at `i`. */
  lemma PatchedScores(users: seq<UserRecord>, i: nat, patched: UserRecord, hobbies: HobbiesInput)
    requires UniqueIds(users) && i < |users|
    requires patched.id == users[i].id && patched.friends == users[i].friends
    ensures var r := Rescored(users[i := patched], UpdateRescores(users[i].id, patched.friends, hobbies));
      && (forall k :: 0 <= k < |users| && k != i ==>
            r[k].(popularityScore := 0.0) == users[k].(popularityScore := 0.0))
      && (forall k :: 0 <= k < |users| && r[k].popularityScore != users[k].popularityScore ==>
            k == i || (hobbies.Hobbies? && users[k].id in users[i].friends))
  {
    var ids := UpdateRescores(users[i].id, patched.friends, hobbies);
    RescoredElsewhere(users, users[i := patched], i, ids);
    forall k | 0 <= k < |users| && k != i && users[k].id in ids
      ensures hobbies.Hobbies? && users[k].id in users[i].friends
    {
      assert users[k].id != users[i].id;
    }
  }

  /** Rescoring a snapshot that differs from `users` only at `i` leaves every
      other record as in `users` but for its score, which changes only for a
      listed id. */
  lemma RescoredElsewhere(users: seq<UserRecord>, written: seq<UserRecord>, i: nat, ids: seq<string>)
    requires i < |users| && |written| == |users|
    requires forall k :: 0 <= k < |users| && k != i ==> written[k] == users[k]
    ensures forall k :: 0 <= k < |users| && k != i ==>
              && Rescored(written, ids)[k].(popularityScore := 0.0) == users[k].(popularityScore := 0.0)
              && (Rescored(written, ids)[k].popularityScore != users[k].popularityScore ==> users[k].id in ids)
  {
    var r := Rescored(written, ids);
    forall k | 0 <= k < |users| && k != i
      ensures r[k].(popularityScore := 0.0) == users[k].(popularityScore := 0.0)
      ensures r[k].popularityScore != users[k].popularityScore ==> users[k].id in ids
    {
      assert written[k] == users[k];
    }
  }

  /** An update keeps the store valid, the graph consistent and the pairs as they were. */
  lemma UpdateStepKeeps(users: seq<UserRecord>, id: string, username: Option<string>, age: AgeInput,
                        hobbies: HobbiesInput)
    requires ValidStore(users)
    ensures var o := UpdateStep(users, id, username, age, hobbies);
      && ValidStore(o.users)
      && (GraphConsistent(users) ==> GraphConsistent(o.users))
      && Links(o.users) == Links(users)
  {
    var i := IndexOf(users, id);
    if i >= 0 && PatchStep(users[i], username, age, hobbies).Ok? {
      var patched := Patched(users[i], username, age, hobbies);
      UpdateStepAt(users, id, username, age, hobbies, patched);
      if ValidRecord(patched) {
        var saved := users[i := patched];
        var after := Rescored(saved, UpdateRescores(id, patched.friends, hobbies));
        WriteKeepsLookup(users, i, patched);
        RescoredKeeps(saved, UpdateRescores(id, patched.friends, hobbies));
        SameLinksWhenListsKept(users, i, patched);
        ScoresDoNotMatter(saved, after);
      }
    }
  }

  /** Rewriting one record without touching its id or friends keeps the pairs and consistency. */
  lemma SameLinksWhenListsKept(users: seq<UserRecord>, i: nat, rec: UserRecord)
    requires i < |users| && rec.id == users[i].id && rec.friends == users[i].friends
    ensures Links(users[i := rec]) == Links(users)
    ensures GraphConsistent(users) ==> GraphConsistent(users[i := rec])
  {
    var r := users[i := rec];
    forall p | p in Links(r) ensures p in Links(users) {
      var k, f :| 0 <= k < |r| && f in r[k].friends && p == (r[k].id, f);
      assert f in users[k].friends && users[k].id == r[k].id;
    }
    forall p | p in Links(users) ensures p in Links(r) {
      var k, f :| 0 <= k < |users| && f in users[k].friends && p == (users[k].id, f);
      assert f in r[k].friends && users[k].id == r[k].id;
    }
    forall k | 0 <= k < |r| ensures r[k].id == users[k].id && r[k].friends == users[k].friends {}
    forall f ensures HasId(r, f) == HasId(users, f) {
      IndexOfSameIds(users, r, f);
    }
  }

  /** `updateUser`. */
  method UpdateUser(store: UserStore, id: string, username: Option<string>, age: AgeInput, hobbies: HobbiesInput)
    returns (r: Result<UserRecord>)
    requires store.Valid()
    modifies store
    ensures store.Valid()
    ensures Outcome(r, store.users) == UpdateStep(old(store.users), id, username, age, hobbies)
  {
    ghost var before := store.users;
    var i := IndexOf(store.users, id);
    if i < 0 {
      return Err(NotFound);
    }
    var p := PatchUser(store.users[i], username, age, hobbies);
    if p.Err? {
      return Err(p.error);
    }
    var user := p.value;
    if username.Some? {
      TrimIdempotent(username.value);
    } else {
      TrimmedAlready(user.username);
    }
    var ok := SaveUpdated(store, i, user, hobbies);
    UpdateStepAt(before, id, username, age, hobbies, user);
    if !ok {
      return Err(ValidationError);
    }
    r := Ok(store.users[i]);
  }

  /** `UpdateStep` once the record is found and patched into `user`. */
  lemma UpdateStepAt(users: seq<UserRecord>, id: string, username: Option<string>, age: AgeInput,
                     hobbies: HobbiesInput, user: UserRecord)
    requires 0 <= IndexOf(users, id)
    requires PatchStep(users[IndexOf(users, id)], username, age, hobbies) == Ok(user)
    ensures var after := Rescored(users[IndexOf(users, id) := user], UpdateRescores(id, user.friends, hobbies));
      UpdateStep(users, id, username, age, hobbies)
        == if ValidRecord(user) then Outcome(Ok(after[IndexOf(users, id)]), after)
           else Outcome(Err(ValidationError), users)
  {
  }

  /** The middle of `updateUser`: assign the supplied fields one by one,
      rejecting an age that is not a number in range and hobbies that are not
      an array. */
  method PatchUser(rec: UserRecord, username: Option<string>, age: AgeInput, hobbies: HobbiesInput)
    returns (r: Result<UserRecord>)
    ensures r == PatchStep(rec, username, age, hobbies)
  {
    var user := rec;
    if username.Some? {
      user := user.(username := Trim(username.value));
    }
    assert user == rec.(username := Patched(rec, username, age, hobbies).username);
    if !age.AgeAbsent? {
      if !age.Age? || age.n < MinAge || age.n > MaxAge {
        return Err(ValidationError);
      }
      user := user.(age := age.n);
    }
    if !hobbies.HobbiesAbsent? {
      if hobbies.HobbiesNotAList? {
        return Err(ValidationError);
      }
      user := user.(hobbies := NonBlank(hobbies.items));
    }
    r := Ok(user);
  }

  /** The tail of `updateUser`: save the patched record, recompute the user's
      score, then the friends' scores when hobbies were supplied. */
  method SaveUpdated(store: UserStore, i: nat, user: UserRecord, hobbies: HobbiesInput) returns (ok: bool)
    requires store.Valid() && i < |store.users| && user.id == store.users[i].id
    requires Trim(user.username) == user.username
    modifies store
    ensures store.Valid()
    ensures ok == ValidRecord(user)
    ensures store.users == if ok then Rescored(old(store.users)[i := user], UpdateRescores(user.id, user.friends, hobbies))
                           else old(store.users)
  {
    ghost var before := store.users;
    IndexOfUnique(before, i);
    ok := store.Replace(user);
    if !ok {
      return;
    }
    ghost var saved := store.users;
    WriteKeepsLookup(before, i, user);
    var _ := UpdatePopularityScore(store, user.id);
    if hobbies.Hobbies? && |user.friends| > 0 {
      UpdatePopularityScores(store, user.friends);
      RescoredTwice(saved, [user.id], user.friends);
    } else {
      assert UpdateRescores(user.id, user.friends, hobbies) == [user.id];
    }
  }

  // ---------------------------------------------------------------------------
  // deleteUser

  /** `deleteUser` on a snapshot. */
  function DeleteStep(users: seq<UserRecord>, id: string): Outcome<()>
  {
    var i := IndexOf(users, id);
    if i < 0 then Outcome(Err(NotFound), users)
    else if |users[i].friends| > 0 then Outcome(Err(Conflict), users)
    else Outcome(Ok(()), Deleted(users, i))
  }

  /** Delete answers 404 for an unknown id and 409 while the user has friends,
      writing nothing, and succeeds otherwise. */
  lemma DeleteStepErrors(users: seq<UserRecord>, id: string)
    ensures var o := DeleteStep(users, id);
      && (!HasId(users, id) ==> o.result == Err(NotFound))
      && (HasId(users, id) && users[IndexOf(users, id)].friends != [] ==> o.result == Err(Conflict))
      && (o.result.Ok? <==> HasId(users, id) && users[IndexOf(users, id)].friends == [])
      && (o.result.Err? ==> o.users == users)
  {
    var i := IndexOf(users, id);
    if i >= 0 && users[i].friends != [] {
      assert |users[i].friends| > 0;
    }
  }

  /** After a successful delete the record is gone, no list names the id any
      more and every pair pointing at it is dropped. */
  lemma DeleteStepSpec(users: seq<UserRecord>, id: string)
    requires ValidStore(users)
    ensures var o := DeleteStep(users, id);
      o.result.Ok? ==>
        && !HasId(o.users, id)
        && (forall k, f :: 0 <= k < |o.users| && f in o.users[k].friends ==> f != id)
        && Links(o.users) == set p | p in Links(users) && p.1 != id
  {
    var i := IndexOf(users, id);
    if i >= 0 && users[i].friends == [] {
      assert DeleteStep(users, id) == Outcome(Ok(()), Deleted(users, i));
      DeletedLinks(users, i);
      DeletedForgets(users, i);
    }
  }

  /** In a consistent graph a successful delete changes no other record at all. */
  lemma DeleteStepOthers(users: seq<UserRecord>, id: string)
    requires ValidStore(users) && GraphConsistent(users)
    ensures var o := DeleteStep(users, id);
      o.result.Ok? ==> o.users == users[..IndexOf(users, id)] + users[IndexOf(users, id) + 1..]
  {
    var i := IndexOf(users, id);
    if i >= 0 && users[i].friends == [] {
      assert DeleteStep(users, id) == Outcome(Ok(()), Deleted(users, i));
      PullOfFriendlessIsNoOp(users, i);
    }
  }

  /** A delete keeps the store valid and the graph consistent. */
  lemma DeleteStepKeeps(users: seq<UserRecord>, id: string)
    requires ValidStore(users)
    ensures var o := DeleteStep(users, id);
      && ValidStore(o.users)
      && (GraphConsistent(users) ==> GraphConsistent(o.users))
  {
    var i := IndexOf(users, id);
    if i >= 0 && users[i].friends == [] {
      assert DeleteStep(users, id) == Outcome(Ok(()), Deleted(users, i));
      DeletedShape(users, i);
      if GraphConsistent(users) {
        DeletedConsistent(users, i);
      }
    }
  }

  /** `deleteUser`. */
  method DeleteUser(store: UserStore, id: string) returns (r: Result<()>)
    requires store.Valid()
    modifies store
    ensures store.Valid()
    ensures Outcome(r, store.users) == DeleteStep(old(store.users), id)
  {
    var i := IndexOf(store.users, id);
    if i < 0 {
      return Err(NotFound);
    }
    if |store.users[i].friends| > 0 {
      return Err(Conflict);
    }
    ghost var before := store.users;
    store.PullFriend(id);
    IndexOfSameIds(before, store.users, id);
    store.DeleteOne(id);
    r := Ok(());
  }

  // ---------------------------------------------------------------------------
  // Saving two records whose friends lists changed

  /** `await user.save()` and then `await friend.save()` on two records read
      from the store whose friends lists alone were changed: validation passes,
      and both are written back, the second winning when they are the same record. */
  method SaveFriendsLists(store: UserStore, i: nat, j: nat, user: UserRecord, friend: UserRecord)
    requires store.Valid() && i < |store.users| && j < |store.users|
    requires user == store.users[i].(friends := user.friends)
    requires friend == store.users[j].(friends := friend.friends)
    modifies store
    ensures store.Valid()
    ensures store.users == old(store.users)[i := user][j := friend]
  {
    ghost var before := store.users;
    assert ValidRecord(before[i]) && ValidRecord(before[j]);
    TrimmedAlready(user.username);
    TrimmedAlready(friend.username);
    IndexOfUnique(before, i);
    IndexOfUnique(before, j);
    var ok := store.Replace(user);
    assert ok;
    WriteKeepsLookup(before, i, user);
    ok := store.Replace(friend);
    assert ok;
  }

  /** With unique ids, rescoring the two users at `i` and `j` of a snapshot
      that agrees with `users` away from them changes nothing else. */
  lemma RescoredPairElsewhere(users: seq<UserRecord>, written: seq<UserRecord>, i: nat, j: nat)
    requires UniqueIds(users) && i < |users| && j < |users| && |written| == |users|
    requires forall k :: 0 <= k < |users| && k != i && k != j ==> written[k] == users[k]
    ensures forall k :: 0 <= k < |users| && k != i && k != j ==>
              Rescored(written, [users[i].id, users[j].id])[k] == users[k]
  {
    forall k | 0 <= k < |users| && k != i && k != j
      ensures Rescored(written, [users[i].id, users[j].id])[k] == users[k]
    {
      assert users[k].id != users[i].id && users[k].id != users[j].id;
    }
  }

  // ---------------------------------------------------------------------------
  // linkUsers

  /** `linkUsers` on a snapshot. */
  function LinkStep(users: seq<UserRecord>, id: string, friendId: Option<string>): Outcome<(UserRecord, UserRecord)>
  {
    if !Given(friendId) then Outcome(Err(ValidationError), users)
    else if friendId.value == id then Outcome(Err(ValidationError), users)
    else
      var i := IndexOf(users, id);
      var j := IndexOf(users, friendId.value);
      if i < 0 || j < 0 then Outcome(Err(NotFound), users)
      else if friendId.value in users[i].friends || id in users[j].friends then Outcome(Err(Conflict), users)
      else
        var after := Rescored(Linked(users, i, j), [id, friendId.value]);
        Outcome(Ok((after[i], after[j])), after)
  }

  /** Link answers 400 without a friend id or for a self-link, 404 unless both
      users exist, and 409 when either already lists the other, even if the
      other side does not list it back; no failure writes anything. */
  lemma LinkStepErrors(users: seq<UserRecord>, id: string, friendId: Option<string>)
    ensures var o := LinkStep(users, id, friendId);
      && (!Given(friendId) || friendId.value == id ==> o.result == Err(ValidationError))
      && ((Given(friendId) && friendId.value != id && (!HasId(users, id) || !HasId(users, friendId.value)))
            ==> o.result == Err(NotFound))
      && ((Given(friendId) && friendId.value != id && HasId(users, id) && HasId(users, friendId.value))
            ==> (o.result == Err(Conflict) <==>
                   friendId.value in users[IndexOf(users, id)].friends
                   || id in users[IndexOf(users, friendId.value)].friends))
      && (o.result.Err? ==> o.users == users)
  {
  }

  /** A link keeps the store valid and the graph consistent. */
  lemma LinkStepKeeps(users: seq<UserRecord>, id: string, friendId: Option<string>)
    requires ValidStore(users)
    ensures var o := LinkStep(users, id, friendId);
      && ValidStore(o.users)
      && (GraphConsistent(users) ==> GraphConsistent(o.users))
  {
    var o := LinkStep(users, id, friendId);
    if o.result.Ok? {
      var i := IndexOf(users, id);
      var j := IndexOf(users, friendId.value);
      var linked := Linked(users, i, j);
      LinkedKeeps(users, i, j);
      RescoredKeeps(linked, [id, friendId.value]);
      ScoresDoNotMatter(linked, o.users);
      if GraphConsistent(users) {
        LinkedConsistent(users, i, j);
      }
    }
  }

  /** A successful link adds exactly the two pairs between the users: each
      list gains the other's id at its end; it returns both records as saved
      and rescored. */
  lemma LinkStepLinks(users: seq<UserRecord>, id: string, friendId: Option<string>)
    ensures var o := LinkStep(users, id, friendId);
      o.result.Ok? ==>
        var i := IndexOf(users, id);
        var j := IndexOf(users, friendId.value);
        && Links(o.users) == Links(users) + {(id, friendId.value), (friendId.value, id)}
        && o.users[i].friends == users[i].friends + [friendId.value]
        && o.users[j].friends == users[j].friends + [id]
        && o.result.value == (o.users[i], o.users[j])
  {
    var o := LinkStep(users, id, friendId);
    if o.result.Ok? {
      var i := IndexOf(users, id);
      var j := IndexOf(users, friendId.value);
      LinkedLinks(users, i, j);
      ScoresDoNotMatter(Linked(users, i, j), o.users);
    }
  }

  /** After a successful link each of the two records keeps its id,
      username, age and hobbies, has the other's id appended to its friends,
      and carries the score recomputed on the linked snapshot. */
  lemma LinkStepRecords(users: seq<UserRecord>, id: string, friendId: Option<string>)
    ensures var o := LinkStep(users, id, friendId);
      o.result.Ok? ==>
        var i := IndexOf(users, id);
        var j := IndexOf(users, friendId.value);
        var linked := Linked(users, i, j);
        && o.users[i] == users[i].(friends := users[i].friends + [friendId.value],
                                   popularityScore := PopularityScore(linked, id))
        && o.users[j] == users[j].(friends := users[j].friends + [id],
                                   popularityScore := PopularityScore(linked, friendId.value))
  {
  }

  /** A successful link changes no other record. */
  lemma LinkStepOthers(users: seq<UserRecord>, id: string, friendId: Option<string>)
    requires UniqueIds(users)
    ensures var o := LinkStep(users, id, friendId);
      o.result.Ok? ==>
        var i := IndexOf(users, id);
        var j := IndexOf(users, friendId.value);
        forall k :: 0 <= k < |users| && k != i && k != j ==> o.users[k] == users[k]
  {
    var o := LinkStep(users, id, friendId);
    if o.result.Ok? {
      var i := IndexOf(users, id);
      var j := IndexOf(users, friendId.value);
      LinkedKeeps(users, i, j);
      RescoredPairElsewhere(users, Linked(users, i, j), i, j);
    }
  }

  /** `linkUsers`. */
  method LinkUsers(store: UserStore, id: string, friendId: Option<string>)
    returns (r: Result<(UserRecord, UserRecord)>)
    requires store.Valid()
    modifies store
    ensures store.Valid()
    ensures Outcome(r, store.users) == LinkStep(old(store.users), id, friendId)
  {
    if !Given(friendId) {
      return Err(ValidationError);
    }
    var fid := friendId.value;
    if id == fid {
      return Err(ValidationError);
    }
    var i := IndexOf(store.users, id);
    var j := IndexOf(store.users, fid);
    if i < 0 || j < 0 {
      return Err(NotFound);
    }
    var user := store.users[i];
    var friend := store.users[j];
    if fid in user.friends || id in friend.friends {
      return Err(Conflict);
    }
    user := user.(friends := user.friends + [fid]);
    friend := friend.(friends := friend.friends + [id]);
    ghost var before := store.users;
    SaveFriendsLists(store, i, j, user, friend);
    assert store.users == Linked(before, i, j);
    UpdatePopularityScores(store, [id, fid]);
    r := Ok((store.users[i], store.users[j]));
  }

  // ---------------------------------------------------------------------------
  // unlinkUsers

  /** `unlinkUsers` on a snapshot. */
  function UnlinkStep(users: seq<UserRecord>, id: string, friendId: Option<string>): Outcome<(UserRecord, UserRecord)>
  {
    if !Given(friendId) then Outcome(Err(ValidationError), users)
    else
      var i := IndexOf(users, id);
      var j := IndexOf(users, friendId.value);
      if i < 0 || j < 0 then Outcome(Err(NotFound), users)
      else
        var after := Rescored(Unlinked(users, i, j), [id, friendId.value]);
        Outcome(Ok((after[i], after[j])), after)
  }

  /** Unlink answers 400 without a friend id and 404 unless both users exist,
      writing nothing; it needs no existing friendship. */
  lemma UnlinkStepErrors(users: seq<UserRecord>, id: string, friendId: Option<string>)
    ensures var o := UnlinkStep(users, id, friendId);
      && (!Given(friendId) ==> o.result == Err(ValidationError))
      && (Given(friendId) && (!HasId(users, id) || !HasId(users, friendId.value)) ==> o.result == Err(NotFound))
      && (o.result.Ok? <==> Given(friendId) && HasId(users, id) && HasId(users, friendId.value))
      && (o.result.Err? ==> o.users == users)
  {
  }

  /** An unlink keeps the store valid and the graph consistent. */
  lemma UnlinkStepKeeps(users: seq<UserRecord>, id: string, friendId: Option<string>)
    requires ValidStore(users)
    ensures var o := UnlinkStep(users, id, friendId);
      && ValidStore(o.users)
      && (GraphConsistent(users) ==> GraphConsistent(o.users))
  {
    var o := UnlinkStep(users, id, friendId);
    if o.result.Ok? {
      var i := IndexOf(users, id);
      var j := IndexOf(users, friendId.value);
      var unlinked := Unlinked(users, i, j);
      UnlinkedKeeps(users, i, j);
      RescoredKeeps(unlinked, [id, friendId.value]);
      ScoresDoNotMatter(unlinked, o.users);
      if GraphConsistent(users) {
        UnlinkedConsistent(users, i, j);
      }
    }
  }

  /** A successful unlink removes exactly the two pairs between the users:
      each list loses every occurrence of the other's id; it returns both
      records as saved and rescored. */
  lemma UnlinkStepLinks(users: seq<UserRecord>, id: string, friendId: Option<string>)
    requires UniqueIds(users)
    ensures var o := UnlinkStep(users, id, friendId);
      o.result.Ok? ==>
        var i := IndexOf(users, id);
        var j := IndexOf(users, friendId.value);
        && Links(o.users) == Links(users) - {(id, friendId.value), (friendId.value, id)}
        && o.users[i].friends == Without(users[i].friends, friendId.value)
        && o.users[j].friends == Without(users[j].friends, id)
        && o.result.value == (o.users[i], o.users[j])
  {
    var o := UnlinkStep(users, id, friendId);
    if o.result.Ok? {
      var i := IndexOf(users, id);
      var j := IndexOf(users, friendId.value);
      UnlinkedLinks(users, i, j);
      ScoresDoNotMatter(Unlinked(users, i, j), o.users);
    }
  }

  /** After a successful unlink each of the two records keeps its id,
      username, age and hobbies, has the other's id filtered out of its
      friends, and carries the score recomputed on the unlinked snapshot;
      this holds also when a user is unlinked from themselves. */
  lemma UnlinkStepRecords(users: seq<UserRecord>, id: string, friendId: Option<string>)
    ensures var o := UnlinkStep(users, id, friendId);
      o.result.Ok? ==>
        var i := IndexOf(users, id);
        var j := IndexOf(users, friendId.value);
        var unlinked := Unlinked(users, i, j);
        && o.users[i] == users[i].(friends := Without(users[i].friends, friendId.value),
                                   popularityScore := PopularityScore(unlinked, id))
        && o.users[j] == users[j].(friends := Without(users[j].friends, id),
                                   popularityScore := PopularityScore(unlinked, friendId.value))
  {
  }

  /** A successful unlink changes no other record. */
  lemma UnlinkStepOthers(users: seq<UserRecord>, id: string, friendId: Option<string>)
    requires UniqueIds(users)
    ensures var o := UnlinkStep(users, id, friendId);
      o.result.Ok? ==>
        var i := IndexOf(users, id);
        var j := IndexOf(users, friendId.value);
        forall k :: 0 <= k < |users| && k != i && k != j ==> o.users[k] == users[k]
  {
    var o := UnlinkStep(users, id, friendId);
    if o.result.Ok? {
      var i := IndexOf(users, id);
      var j := IndexOf(users, friendId.value);
      UnlinkedKeeps(users, i, j);
      RescoredPairElsewhere(users, Unlinked(users, i, j), i, j);
    }
  }

  /** Unlinking two existing users who are not friends succeeds and leaves
      every friends list as it was. */
  lemma UnlinkOfStrangersKeepsLists(users: seq<UserRecord>, id: string, fid: string)
    requires HasId(users, id) && HasId(users, fid)
    requires fid !in users[IndexOf(users, id)].friends && id !in users[IndexOf(users, fid)].friends
    ensures var o := UnlinkStep(users, id, Some(fid));
      && (fid != [] ==> o.result.Ok?)
      && forall k :: 0 <= k < |users| ==> o.users[k].friends == users[k].friends
  {
    var i := IndexOf(users, id);
    var j := IndexOf(users, fid);
    var u := Unlinked(users, i, j);
    assert Without(users[i].friends, users[j].id) == users[i].friends;
    assert Without(users[j].friends, users[i].id) == users[j].friends;
    assert u == users;
    RescoredKeepsLists(users, [id, fid]);
  }

  /** `unlinkUsers`. */
  method UnlinkUsers(store: UserStore, id: string, friendId: Option<string>)
    returns (r: Result<(UserRecord, UserRecord)>)
    requires store.Valid()
    modifies store
    ensures store.Valid()
    ensures Outcome(r, store.users) == UnlinkStep(old(store.users), id, friendId)
  {
    if !Given(friendId) {
      return Err(ValidationError);
    }
    var fid := friendId.value;
    var i := IndexOf(store.users, id);
    var j := IndexOf(store.users, fid);
    if i < 0 || j < 0 {
      return Err(NotFound);
    }
    var user := store.users[i];
    var friend := store.users[j];
    user := user.(friends := Without(user.friends, fid));
    friend := friend.(friends := Without(friend.friends, id));
    ghost var before := store.users;
    SaveFriendsLists(store, i, j, user, friend);
    assert store.users == Unlinked(before, i, j);
    UpdatePopularityScores(store, [id, fid]);
    r := Ok((store.users[i], store.users[j]));
  }
}
