/** The user record, the schema rules every stored record satisfies, and the
    store (the Mongoose `User` collection) as an object whose list of records
    the handlers read and write. */
module UserModel {

  /** One stored user. `popularityScore` is a number of half-steps, kept exact as a real. */
  datatype UserRecord = UserRecord(
    id: string,
    username: string,
    age: int,
    hobbies: seq<string>,
    friends: seq<string>,
    popularityScore: real)

  // ---------------------------------------------------------------------------
  // String.prototype.trim

  /** The characters JavaScript's `trim` removes: WhiteSpace and LineTerminator. */
  predicate IsJsWhitespace(c: char)
  {
    c == ' ' || c == '\t' || c == '\n' || c == '\r' || c == '\U{B}' || c == '\U{C}'
    || c == '\U{A0}' || c == '\U{1680}' || ('\U{2000}' <= c <= '\U{200A}')
    || c == '\U{2028}' || c == '\U{2029}' || c == '\U{202F}' || c == '\U{205F}'
    || c == '\U{3000}' || c == '\U{FEFF}'
  }

  function TrimStart(s: string): (r: string)
    ensures |r| <= |s| && r == s[|s| - |r|..]
    ensures r == [] || !IsJsWhitespace(r[0])
    ensures forall k :: 0 <= k < |s| - |r| ==> IsJsWhitespace(s[k])
  {
    if s != [] && IsJsWhitespace(s[0]) then TrimStart(s[1..]) else s
  }

  function TrimEnd(s: string): (r: string)
    ensures |r| <= |s| && r == s[..|r|]
    ensures r == [] || !IsJsWhitespace(r[|r| - 1])
    ensures forall k :: |r| <= k < |s| ==> IsJsWhitespace(s[k])
  {
    if s != [] && IsJsWhitespace(s[|s| - 1]) then TrimEnd(s[..|s| - 1]) else s
  }

  /** `s.trim()`: `s` without its leading and trailing whitespace. */
  function Trim(s: string): string
  {
    TrimEnd(TrimStart(s))
  }

  /** A trimmed string has no whitespace at either end. */
  predicate IsTrimmed(s: string)
  {
    s == [] || (!IsJsWhitespace(s[0]) && !IsJsWhitespace(s[|s| - 1]))
  }

  lemma TrimmedAlready(s: string)
    requires IsTrimmed(s)
    ensures TrimStart(s) == s && TrimEnd(s) == s
  {
  }

  /** A string made of whitespace only: exactly the strings that `trim` empties. */
  predicate IsBlank(h: string)
  {
    forall k :: 0 <= k < |h| ==> IsJsWhitespace(h[k])
  }

  /** `trim` leaves nothing to trim at either end, and empties exactly the blank strings. */
  lemma TrimShape(s: string)
    ensures IsTrimmed(Trim(s))
    ensures Trim(s) == [] <==> IsBlank(s)
  {
    var t := TrimStart(s);
    var u := TrimEnd(t);
    if u != [] {
      assert u[0] == t[0];
    }
  }

  /** Trimming twice is trimming once (the schema's `trim` setter after the handler's own `trim()`). */
  lemma TrimIdempotent(s: string)
    ensures Trim(Trim(s)) == Trim(s)
  {
    TrimShape(s);
    TrimmedAlready(Trim(s));
  }

  // ---------------------------------------------------------------------------
  // Schema rules

  const MaxUsernameLength := 50
  const MinAge := 1
  const MaxAge := 150

  /** A stored username: already trimmed (the schema's `trim` option), 1 to 50 characters. */
  predicate ValidUsername(s: string)
  {
    IsTrimmed(s) && 1 <= |s| <= MaxUsernameLength
  }

  predicate ValidAge(age: int)
  {
    MinAge <= age <= MaxAge
  }

  /** No hobby is empty once trimmed. */
  predicate ValidHobbies(hobbies: seq<string>)
  {
    forall k :: 0 <= k < |hobbies| ==> !IsBlank(hobbies[k])
  }

  /** Everything the schema checks when a record is saved; `id` is required, so not empty. */
  predicate ValidRecord(r: UserRecord)
  {
    r.id != [] && ValidUsername(r.username) && ValidAge(r.age) && ValidHobbies(r.hobbies)
  }

  /** A username as supplied is accepted iff its trimmed form has 1 to 50 characters;
      what is stored is that trimmed form. */
  lemma UsernameAcceptedIff(input: string)
    ensures ValidUsername(Trim(input)) <==> 1 <= |Trim(input)| <= MaxUsernameLength
  {
    TrimShape(input);
  }

  /** The hobbies filter of the handlers, `hobbies.filter(h => h.trim())`:
      keeps, in order and untrimmed, the entries that are not blank. */
  function NonBlank(hobbies: seq<string>): (r: seq<string>)
    ensures ValidHobbies(r)
    ensures |r| <= |hobbies|
    ensures forall h :: !IsBlank(h) ==> multiset(r)[h] == multiset(hobbies)[h]
    ensures forall h :: IsBlank(h) ==> multiset(r)[h] == 0
  {
    if hobbies == [] then []
    else
      assert hobbies == [hobbies[0]] + hobbies[1..];
      var rest := NonBlank(hobbies[1..]);
      if IsBlank(hobbies[0]) then rest else [hobbies[0]] + rest
  }

  /** The filter drops exactly the blank entries: it keeps every entry that
      passes the schema's validator, and is the identity on a valid list. */
  lemma {:induction false} NonBlankKeepsValid(hobbies: seq<string>)
    ensures forall h :: h in hobbies && !IsBlank(h) ==> h in NonBlank(hobbies)
    ensures ValidHobbies(hobbies) ==> NonBlank(hobbies) == hobbies
  {
    if hobbies != [] {
      NonBlankKeepsValid(hobbies[1..]);
      assert hobbies == [hobbies[0]] + hobbies[1..];
      if ValidHobbies(hobbies) {
        assert ValidHobbies(hobbies[1..]) by {
          forall k | 0 <= k < |hobbies[1..]| ensures !IsBlank(hobbies[1..][k]) {
            assert hobbies[1..][k] == hobbies[k + 1];
          }
        }
      }
    }
  }

  /** A record as the schema's defaults complete it: no friends and a score of 0. */
  function NewRecord(id: string, username: string, age: int, hobbies: seq<string>): (r: UserRecord)
    ensures r.friends == [] && r.popularityScore == 0.0
    ensures r.id == id && r.username == username && r.age == age && r.hobbies == hobbies
  {
    UserRecord(id, username, age, hobbies, [], 0.0)
  }

  /** `list.filter(fid => fid !== x)`, which is also what `$pull` does to an array:
      every occurrence of `x` goes, everything else stays in order. */
  function Without(list: seq<string>, x: string): (r: seq<string>)
    ensures x !in r && |r| <= |list|
    ensures forall y :: y != x ==> (y in r <==> y in list)
    ensures forall y :: y != x ==> multiset(r)[y] == multiset(list)[y]
    ensures x !in list ==> r == list
  {
    if list == [] then []
    else
      assert list == [list[0]] + list[1..];
      var rest := Without(list[1..], x);
      if list[0] == x then rest else [list[0]] + rest
  }

  /** Every record with `x` pulled out of its friends, as `updateMany({ friends: x },
      { $pull: { friends: x } })` leaves the collection. */
  function PullAll(users: seq<UserRecord>, x: string): (r: seq<UserRecord>)
    ensures |r| == |users|
    ensures forall k :: 0 <= k < |r| ==> r[k] == users[k].(friends := Without(users[k].friends, x))
  {
    seq(|users|, k requires 0 <= k < |users| => users[k].(friends := Without(users[k].friends, x)))
  }

  // ---------------------------------------------------------------------------
  // Lookup

  /** `findOne({ id })`: the position of the first record with this id, or -1. */
  function IndexOf(users: seq<UserRecord>, id: string): (i: int)
    ensures -1 <= i < |users|
    ensures i == -1 <==> forall k :: 0 <= k < |users| ==> users[k].id != id
    ensures 0 <= i ==> users[i].id == id && forall k :: 0 <= k < i ==> users[k].id != id
  {
    if users == [] then -1
    else if users[|users| - 1].id == id && IndexOf(users[..|users| - 1], id) == -1 then |users| - 1
    else IndexOf(users[..|users| - 1], id)
  }

  predicate HasId(users: seq<UserRecord>, id: string)
  {
    IndexOf(users, id) >= 0
  }

  predicate UniqueIds(users: seq<UserRecord>)
  {
    forall i, j :: 0 <= i < |users| && 0 <= j < |users| && users[i].id == users[j].id ==> i == j
  }

  /** With unique ids, the lookup finds the one record that carries the id. */
  lemma IndexOfUnique(users: seq<UserRecord>, k: nat)
    requires UniqueIds(users) && k < |users|
    ensures IndexOf(users, users[k].id) == k
  {
  }

  /** Lookup sees only the ids, so two lists with the same ids in the same order agree on it. */
  lemma {:induction false} IndexOfSameIds(a: seq<UserRecord>, b: seq<UserRecord>, id: string)
    requires |a| == |b| && forall k :: 0 <= k < |a| ==> a[k].id == b[k].id
    ensures IndexOf(a, id) == IndexOf(b, id)
  {
    if a != [] {
      IndexOfSameIds(a[..|a| - 1], b[..|b| - 1], id);
    }
  }

  /** What the schema and the unique index on `id` guarantee of the collection. */
  predicate ValidStore(users: seq<UserRecord>)
  {
    UniqueIds(users) && forall k :: 0 <= k < |users| ==> ValidRecord(users[k])
  }

  /** Writing a record back under its own id changes no lookup, and a valid
      record written into a valid store leaves it valid. */
  lemma WriteKeepsLookup(users: seq<UserRecord>, i: nat, rec: UserRecord)
    requires i < |users| && rec.id == users[i].id
    ensures forall id :: IndexOf(users[i := rec], id) == IndexOf(users, id)
    ensures ValidStore(users) && ValidRecord(rec) ==> ValidStore(users[i := rec])
  {
    forall id ensures IndexOf(users[i := rec], id) == IndexOf(users, id) {
      IndexOfSameIds(users, users[i := rec], id);
    }
  }

  /** Appending a valid record under a new id keeps the store valid. */
  lemma AppendKeepsValid(users: seq<UserRecord>, rec: UserRecord)
    requires ValidStore(users) && ValidRecord(rec) && !HasId(users, rec.id)
    ensures ValidStore(users + [rec])
  {
    var r := users + [rec];
    forall k | 0 <= k < |users| ensures r[k] == users[k] && users[k].id != rec.id {}
  }

  // ---------------------------------------------------------------------------
  // The store

  /** The `User` collection: its records in enumeration order. */
  class UserStore {
    var users: seq<UserRecord>

    ghost predicate Valid()
      reads this
    {
      ValidStore(users)
    }

    constructor ()
      ensures Valid() && users == []
    {
      users := [];
    }

    /** `new User(data).save()` for a fresh id: the `trim` setter applies, then the
        schema validates; a record that fails validation is not stored. */
    method Insert(r: UserRecord) returns (ok: bool)
      requires Valid() && !HasId(users, r.id)
      modifies this
      ensures Valid()
      ensures ok == ValidRecord(r.(username := Trim(r.username)))
      ensures users == if ok then old(users) + [r.(username := Trim(r.username))] else old(users)
    {
      var stored := r.(username := Trim(r.username));
      ok := ValidRecord(stored);
      if ok {
        AppendKeepsValid(users, stored);
        users := users + [stored];
      }
    }

    /** `doc.save()` on a record that was read from the store: it replaces the
        record with that id, after the `trim` setter and validation. */
    method Replace(r: UserRecord) returns (ok: bool)
      requires Valid() && HasId(users, r.id)
      modifies this
      ensures Valid()
      ensures ok == ValidRecord(r.(username := Trim(r.username)))
      ensures users == if ok then old(users)[IndexOf(old(users), r.id) := r.(username := Trim(r.username))]
                       else old(users)
    {
      var stored := r.(username := Trim(r.username));
      ok := ValidRecord(stored);
      if ok {
        var i := IndexOf(users, r.id);
        WriteKeepsLookup(users, i, stored);
        users := users[i := stored];
      }
    }

    /** `updateOne({ id }, { popularityScore })`: writes the score field of the
        record with this id, if there is one; no validation runs. */
    method SetScore(id: string, score: real)
      requires Valid()
      modifies this
      ensures Valid()
      ensures users == if HasId(old(users), id)
                       then old(users)[IndexOf(old(users), id) := old(users)[IndexOf(old(users), id)].(popularityScore := score)]
                       else old(users)
    {
      var i := IndexOf(users, id);
      if i >= 0 {
        users := users[i := users[i].(popularityScore := score)];
      }
    }

    /** `updateMany({ friends: x }, { $pull: { friends: x } })`: record by record,
        every occurrence of `x` leaves the friends list. */
    method PullFriend(x: string)
      requires Valid()
      modifies this
      ensures Valid()
      ensures users == PullAll(old(users), x)
    {
      var k := 0;
      while k < |users|
        invariant 0 <= k <= |users| == |old(users)|
        invariant forall p :: 0 <= p < k ==> users[p] == old(users)[p].(friends := Without(old(users)[p].friends, x))
        invariant forall p :: k <= p < |users| ==> users[p] == old(users)[p]
      {
        if x in users[k].friends {
          users := users[k := users[k].(friends := Without(users[k].friends, x))];
        }
        k := k + 1;
      }
    }

    /** `deleteOne({ id })`: removes the record with this id, if there is one. */
    method DeleteOne(id: string)
      requires Valid()
      modifies this
      ensures Valid()
      ensures users == if HasId(old(users), id)
                       then old(users)[..IndexOf(old(users), id)] + old(users)[IndexOf(old(users), id) + 1..]
                       else old(users)
    {
      var i := IndexOf(users, id);
      if i >= 0 {
        ghost var before := users;
        users := users[..i] + users[i + 1..];
        forall p, q | 0 <= p < |users| && 0 <= q < |users| && users[p].id == users[q].id ensures p == q {
          var p' := if p < i then p else p + 1;
          var q' := if q < i then q else q + 1;
          assert users[p] == before[p'] && users[q] == before[q'];
        }
      }
    }
  }
}
