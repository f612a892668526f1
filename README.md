# Friendship graph and popularity scores, in Dafny

This project models the back end of a small social-graph service. Each user has a
username, an age, a list of hobbies, a list of friend ids and a derived popularity
score. The model covers three parts of that back end:

- the `User` schema rules;
- the six request handlers of the user controller: create, update, delete, link,
  unlink, and the graph projection;
- the score utilities that compute a score and write it back.

The store (the Mongoose `User` collection) is the class `UserModel.UserStore`. Its one
field, `users: seq<UserRecord>`, is the collection in insertion order. Its methods
are the collection operations the handlers use: `save` of a new or changed document,
`updateOne` of the score, `updateMany` with `$pull`, and `deleteOne`. Only the two
saves run the schema's validators; the other three write without validating, as
Mongoose's update and delete queries do by default.

Every handler appears twice:

- as a method that takes the store and follows the handler's statements (`Controller.LinkUsers`);
- as a function on a snapshot of the store that returns the result and the new
  snapshot (`Controller.LinkStep`).

The method's postcondition ties the two together. The lemmas about the step function
state what the handler promises:

- its error cases, with status 400, 404 or 409;
- the records it writes and the records it leaves alone;
- the friendship pairs it adds or removes;
- that it preserves the store's validity and the graph's consistency.

The graph is consistent when no user lists themselves, no list repeats an id, every
listed id is stored, and friendship is mutual.

The score is `|friends| + 0.5 * (the user's hobbies, with repetition, that some stored
friend also has)`. It is kept exact as a `real`. `Scores.PopularityScore` is its
specification. `Scores.CalculatePopularityScore` computes it with the handler's
loops. `Scores.Rescored` describes the write-back of scores for a list of ids.

The projection builds one node per user. Each node has a grid position, a high or
low kind split at a score of 5, and a label of the form `username (age)`. The
projection also builds one edge per friendship, deduplicated through the string
keys `a-b` and `b-a`.

Three behaviours of the code worth knowing:

- Blank hobby entries are silently dropped by create and update. They never cause a
  validation error.
- An update rescores the friends whenever a `hobbies` array is supplied and the user
  has friends, whether or not the hobbies changed.
- The friend count in the score is the length of the friends list.

## Model

| member | source | states |
|---|---|---|
| UserModel.TrimShape | backend/src/models/User.ts:21-27 | `trim` leaves no leading or trailing JavaScript whitespace, and gives the empty string exactly when the input is all whitespace |
| UserModel.Trim | backend/src/controllers/userController.ts:76 | `trim()`: the string without its leading and trailing JavaScript whitespace (its properties are `UserModel.TrimShape` and `UserModel.TrimIdempotent`) |
| UserModel.TrimIdempotent | backend/src/models/User.ts:24 | trimming a name the handler already trimmed changes nothing, so the schema's `trim` setter stores what the handler computed |
| UserModel.UsernameAcceptedIff | backend/src/models/User.ts:21-27 | a trimmed username passes the schema iff it has 1 to 50 characters |
| UserModel.ValidUsername | backend/src/models/User.ts:21-27 | the username rules: required, trimmed, 1 to 50 characters |
| UserModel.ValidRecord | backend/src/models/User.ts:14-58 | the schema's validation: an id, a valid username, an age in [1, 150] and no blank hobby |
| UserModel.NewRecord | backend/src/controllers/userController.ts:74-81 | the document create builds, completed by the schema defaults: no friends and a score of 0 |
| UserModel.NonBlank | backend/src/controllers/userController.ts:137 | the filtered hobbies contain no blank entry, are no longer than the input, and hold every non-blank entry exactly as many times as the input does |
| UserModel.NonBlankKeepsValid | backend/src/controllers/userController.ts:78 | every non-blank hobby survives the filter, and a list with no blank entry passes through unchanged |
| UserModel.Without | backend/src/controllers/userController.ts:297-298 | filtering an id out of a list removes every occurrence of that id and keeps every other id as many times as the list holds it; a list without it is returned as is |
| UserModel.PullAll | backend/src/controllers/userController.ts:192-195 | `$pull` over the whole collection: every record has the id filtered out of its friends and is otherwise unchanged |
| UserModel.IndexOf | backend/src/controllers/userController.ts:110 | `findOne({ id })` finds the first record with that id, and finds nothing iff no record has it |
| UserModel.WriteKeepsLookup | backend/src/models/User.ts:15-20 | saving a record under its own id changes no lookup, and a valid record keeps the unique-id store valid |
| UserModel.AppendKeepsValid | backend/src/models/User.ts:14-58 | inserting a valid record with a new id keeps every record valid and the ids unique |
| UserModel.UserStore.Insert | backend/src/controllers/userController.ts:83-84 | `save` of a new document trims the username, succeeds iff the schema accepts it, and then appends the record |
| UserModel.UserStore.Replace | backend/src/controllers/userController.ts:140 | `save` of a changed document trims the username, succeeds iff the schema accepts it, and then overwrites the record with that id |
| UserModel.UserStore.SetScore | backend/src/utils/scoreUtils.ts:47 | `updateOne` writes only the score field of the record with that id, and does nothing if there is none |
| UserModel.UserStore.PullFriend | backend/src/controllers/userController.ts:192-195 | `updateMany` with `$pull` removes the id from every friends list and changes nothing else |
| UserModel.UserStore.DeleteOne | backend/src/controllers/userController.ts:197 | `deleteOne` removes the record with that id and keeps the others in order |
| Scores.FriendHobbiesMembers | backend/src/utils/scoreUtils.ts:24-29 | a hobby is in the friends' pool iff some stored record whose id is listed as a friend has it |
| Scores.FriendHobbies | backend/src/utils/scoreUtils.ts:24-29 | the set of hobbies of the stored records whose id is listed as a friend (its members are `Scores.FriendHobbiesMembers`) |
| Scores.SharedCountAll | backend/src/utils/scoreUtils.ts:31-33 | the shared count equals the number of hobbies iff every hobby is in the pool |
| Scores.SharedCountNone | backend/src/utils/scoreUtils.ts:31-33 | the shared count is zero iff no hobby is in the pool |
| Scores.SharedCount | backend/src/utils/scoreUtils.ts:31-33 | the number of the user's hobby entries, repeats included, found in the pool; never more than the number of hobbies |
| Scores.PopularityScore | backend/src/utils/scoreUtils.ts:10-40 | an unknown id scores 0; a user without friends scores 0; otherwise the score lies between the friend count and the friend count plus half the hobby count |
| Scores.TwoFriendsScore | backend/src/utils/scoreUtils.ts:17-35 | a user whose only friend is one other record scores 1 plus half a point per own hobby the friend also has |
| Scores.ScoreWithoutFriendsExample | backend/tests/userLogic.test.ts:10-22 | a user with hobbies but no friends scores 0 |
| Scores.ScoreNoSharedHobbyExample | backend/tests/userLogic.test.ts:24-50 | one friend and no hobby in common score 1 |
| Scores.ScoreTwoSharedExample | backend/tests/userLogic.test.ts:52-79 | one friend sharing two of three hobbies scores 2 |
| Scores.ScoreOneSharedExample | backend/tests/userLogic.test.ts:81-109 | one friend sharing one of two hobbies scores 1.5 |
| Scores.FriendHobbiesIgnoresScores | backend/src/utils/scoreUtils.ts:24-29 | the friends' hobby pool does not depend on any stored score |
| Scores.ScoreIgnoresScores | backend/src/utils/scoreUtils.ts:10-40 | a score does not depend on any stored score, so writing one score never changes another user's score |
| Scores.Rescored | backend/src/utils/scoreUtils.ts:54-56 | rescoring a list of ids changes nothing but score fields |
| Scores.RescoredKeeps | backend/src/utils/scoreUtils.ts:54-56 | rescoring changes no lookup and keeps the store valid |
| Scores.RescoredKeepsLists | backend/src/utils/scoreUtils.ts:54-56 | rescoring keeps every record's id and friends list |
| Scores.RescoredTwice | backend/src/controllers/userController.ts:143-147 | rescoring `a` and then `b` equals rescoring `a + b` at once, so the order and grouping of the write-backs do not matter |
| Scores.CalculatePopularityScore | backend/src/utils/scoreUtils.ts:10-40 | the loops over the friends and over the user's hobbies return exactly the specified score |
| Scores.UpdatePopularityScore | backend/src/utils/scoreUtils.ts:45-49 | returns the specified score and writes it into that user's record only |
| Scores.UpdatePopularityScores | backend/src/utils/scoreUtils.ts:54-56 | rewrites the score of every listed user to its specified value and changes nothing else |
| Friendship.ConsistentLinks | backend/src/controllers/userController.ts:246-248 | in a consistent graph the friendship pairs are symmetric and irreflexive, and both ends are stored ids |
| Friendship.Links | backend/src/models/User.ts:45-49 | the directed friendship pairs the friends lists hold |
| Friendship.GraphConsistent | backend/src/controllers/userController.ts:239-248 | the invariant link, unlink and delete keep: no self-friendship, no repeated id, every listed id stored, friendship mutual |
| Friendship.Linked | backend/src/controllers/userController.ts:246-251 | the two records with each other's id appended, written back; the length is kept |
| Friendship.Unlinked | backend/src/controllers/userController.ts:296-301 | the two records with each other's id filtered out, written back; the length is kept |
| Friendship.Deleted | backend/src/controllers/userController.ts:192-197 | the collection after the `$pull` and the `deleteOne`: one record fewer |
| Friendship.LinkedKeeps | backend/src/controllers/userController.ts:246-251 | linking changes no lookup, leaves every other record as it was, and keeps the store valid |
| Friendship.UnlinkedKeeps | backend/src/controllers/userController.ts:296-301 | unlinking changes no lookup, leaves every other record as it was, and keeps the store valid |
| Friendship.LinkedLinks | backend/src/controllers/userController.ts:246-248 | linking adds exactly the two directed pairs between the users |
| Friendship.UnlinkedLinks | backend/src/controllers/userController.ts:297-298 | unlinking removes exactly the two directed pairs between the users |
| Friendship.LinkedConsistent | backend/src/controllers/userController.ts:239-251 | linking two distinct users who list neither other keeps the graph consistent |
| Friendship.LinkedListsStored | backend/src/controllers/userController.ts:246-248 | after a link every listed id still names a stored record |
| Friendship.LinkedListsDistinct | backend/src/controllers/userController.ts:239-248 | after a link that the conflict check let through, no friends list repeats an id |
| Friendship.UnlinkedConsistent | backend/src/controllers/userController.ts:296-301 | unlinking any two stored users keeps the graph consistent |
| Friendship.WithoutKeepsNoDuplicates | backend/src/controllers/userController.ts:297-298 | filtering an id out of a list without repeats leaves a list without repeats |
| Friendship.DeletedShape | backend/src/controllers/userController.ts:191-197 | after the `$pull` and the delete, every remaining record is its old self with the id filtered out of its friends, in the old order, and the store stays valid |
| Friendship.DeletedForgets | backend/src/controllers/userController.ts:191-197 | after a delete the id is neither stored nor listed anywhere |
| Friendship.DeletedLinks | backend/src/controllers/userController.ts:182-197 | deleting a friendless user drops exactly the pairs that point at it |
| Friendship.PullOfFriendlessIsNoOp | backend/src/controllers/userController.ts:182-195 | in a consistent graph nobody lists a friendless user, so the `$pull` changes nothing |
| Friendship.DeletedConsistent | backend/src/controllers/userController.ts:182-197 | deleting a friendless user keeps the graph consistent and the ids unique |
| Friendship.RemovedListsStored | backend/src/controllers/userController.ts:182-197 | dropping a friendless record from a consistent graph leaves every listed id stored |
| Friendship.AppendedConsistent | backend/src/controllers/userController.ts:74-84 | a new record with no friends and a fresh id keeps the graph consistent |
| Friendship.ScoresDoNotMatter | backend/src/utils/scoreUtils.ts:45-49 | two snapshots that differ only in scores have the same pairs, consistency and id uniqueness |
| Controller.StatusCode | backend/src/controllers/userController.ts:218-244 | a validation error is 400, a missing user 404 and a conflict 409, and nothing else maps to those codes |
| Controller.CreateHobbies | backend/src/controllers/userController.ts:78 | a new record's hobbies are never blank; an array with no blank entry is kept whole, and anything but an array gives none |
| Controller.CreateStep | backend/src/controllers/userController.ts:54-98 | create on a snapshot: the 400 checks, the new record, and the insert (its properties are `Controller.CreateStepSpec` and `Controller.CreateStepKeeps`) |
| Controller.NewRecordValid | backend/src/controllers/userController.ts:74-84 | the record create builds passes the schema iff the id is set, the trimmed username has 1 to 50 characters and the age is in [1, 150] |
| Controller.CreateStepSpec | backend/src/controllers/userController.ts:54-98 | create succeeds iff a username that trims to 1 to 50 characters and an age in [1, 150] are given; a failure is a 400 that writes nothing; a success appends the trimmed record with no friends and score 0 |
| Controller.CreateStepKeeps | backend/src/controllers/userController.ts:74-84 | a create keeps the store valid, the graph consistent and the friendship pairs unchanged |
| Controller.AppendedLinks | backend/src/controllers/userController.ts:79 | a record with no friends adds no friendship pair |
| Controller.CreateUser | backend/src/controllers/userController.ts:54-98 | the handler's statements produce exactly the specified outcome |
| Controller.Patched | backend/src/controllers/userController.ts:118-138 | the record with the supplied fields replaced: the username trimmed, the hobbies filtered |
| Controller.PatchStep | backend/src/controllers/userController.ts:122-138 | the 400 for an age that is not a number in range or hobbies that are not an array, else the patched record |
| Controller.UpdateStep | backend/src/controllers/userController.ts:101-163 | update on a snapshot: 404, the patch, the validated save and the rescoring (its properties are the `Controller.UpdateStep*` lemmas) |
| Controller.UpdateStepErrors | backend/src/controllers/userController.ts:110-140 | update gives 404 for an unknown id, and a 400 iff the age, the hobbies or the trimmed username is rejected; a failure writes nothing |
| Controller.PatchedValid | backend/src/controllers/userController.ts:118-140 | a patched valid record passes the schema iff a supplied username trims to 1 to 50 characters |
| Controller.UpdateStepEffect | backend/src/controllers/userController.ts:118-149 | supplied fields take their new values and omitted ones and the friends stay; the returned record is the stored one, scored on the updated snapshot |
| Controller.UpdateStepScores | backend/src/controllers/userController.ts:142-147 | an update changes no other record but its score, and only the user's own score and, when hobbies were supplied, the friends' scores are recomputed |
| Controller.UpdateStepFriendScores | backend/src/controllers/userController.ts:142-147 | after an update the user and, when hobbies were supplied, every friend carries the score recomputed on the snapshot with the patched record |
| Controller.PatchedScores | backend/src/controllers/userController.ts:142-147 | after writing the patched record and rescoring, other records differ only in score, and only friends when hobbies were supplied |
| Controller.RescoredElsewhere | backend/src/utils/scoreUtils.ts:54-56 | rescoring after a single write leaves the other records alone except for the scores of listed ids |
| Controller.UpdateStepKeeps | backend/src/controllers/userController.ts:140-147 | an update keeps the store valid, the graph consistent and the friendship pairs unchanged |
| Controller.SameLinksWhenListsKept | backend/src/controllers/userController.ts:118-140 | rewriting a record without touching its id or friends keeps the pairs and the consistency |
| Controller.UpdateUser | backend/src/controllers/userController.ts:101-163 | the handler's statements produce exactly the specified outcome |
| Controller.PatchUser | backend/src/controllers/userController.ts:118-138 | assigning the supplied fields one by one gives the specified patch or the specified 400 |
| Controller.SaveUpdated | backend/src/controllers/userController.ts:140-147 | saving and then rescoring the user and, when hobbies were supplied, the friends gives the specified snapshot |
| Controller.DeleteStep | backend/src/controllers/userController.ts:166-206 | delete on a snapshot: 404, 409 while the user has friends, else the pull and the delete (its properties are the `Controller.DeleteStep*` lemmas) |
| Controller.DeleteStepErrors | backend/src/controllers/userController.ts:174-189 | delete gives 404 for an unknown id and 409 while the user has friends, writes nothing then, and succeeds otherwise |
| Controller.DeleteStepSpec | backend/src/controllers/userController.ts:191-197 | after a delete the id is not stored, no list names it, and exactly the pairs pointing at it are gone |
| Controller.DeleteStepOthers | backend/src/controllers/userController.ts:191-197 | in a consistent graph a delete only removes the user's record |
| Controller.DeleteStepKeeps | backend/src/controllers/userController.ts:191-197 | a delete keeps the store valid and the graph consistent |
| Controller.DeleteUser | backend/src/controllers/userController.ts:166-206 | the handler's statements produce exactly the specified outcome |
| Controller.SaveFriendsLists | backend/src/controllers/userController.ts:250-251 | the two saves write the two changed friends lists and nothing else, also when both are the same user |
| Controller.RescoredPairElsewhere | backend/src/controllers/userController.ts:254 | rescoring the two users of a link or unlink leaves every other record exactly as it was |
| Controller.LinkStep | backend/src/controllers/userController.ts:209-269 | link on a snapshot: the 400, 404 and 409 checks, the two appends and the rescoring of both users |
| Controller.LinkStepErrors | backend/src/controllers/userController.ts:218-244 | link gives 400 without a friend id or for the user themselves, 404 unless both exist, 409 iff either side already lists the other, and writes nothing then |
| Controller.LinkStepKeeps | backend/src/controllers/userController.ts:246-254 | a link keeps the store valid and the graph consistent |
| Controller.LinkStepLinks | backend/src/controllers/userController.ts:246-257 | a link appends each id to the other's list, adds exactly the two pairs, and returns both stored records |
| Controller.LinkStepRecords | backend/src/controllers/userController.ts:246-257 | after a link each of the two records keeps its id, username, age and hobbies, gains the other's id, and carries the score recomputed on the linked snapshot |
| Controller.LinkStepOthers | backend/src/controllers/userController.ts:246-254 | a link leaves every other record, its score included, as it was |
| Controller.LinkUsers | backend/src/controllers/userController.ts:209-269 | the handler's statements produce exactly the specified outcome |
| Controller.UnlinkStep | backend/src/controllers/userController.ts:272-319 | unlink on a snapshot: the 400 and 404 checks, the two filters and the rescoring of both users |
| Controller.UnlinkStepErrors | backend/src/controllers/userController.ts:281-294 | unlink gives 400 without a friend id and 404 unless both exist, and otherwise succeeds without needing an existing friendship |
| Controller.UnlinkStepKeeps | backend/src/controllers/userController.ts:296-304 | an unlink keeps the store valid and the graph consistent |
| Controller.UnlinkStepLinks | backend/src/controllers/userController.ts:296-307 | an unlink filters each id out of the other's list, removes exactly the two pairs, and returns both stored records |
| Controller.UnlinkStepRecords | backend/src/controllers/userController.ts:296-307 | after an unlink each of the two records keeps its id, username, age and hobbies, loses the other's id, and carries the score recomputed on the unlinked snapshot, also for a self-unlink |
| Controller.UnlinkStepOthers | backend/src/controllers/userController.ts:296-304 | an unlink leaves every other record, its score included, as it was |
| Controller.UnlinkOfStrangersKeepsLists | backend/src/controllers/userController.ts:287-301 | unlinking two existing users who are not friends succeeds (given a non-empty friend id) and changes no friends list |
| Controller.UnlinkUsers | backend/src/controllers/userController.ts:272-319 | the handler's statements produce exactly the specified outcome |
| Projection.Digits | backend/src/controllers/userController.ts:338 | an age prints as decimal digits with no leading zero |
| Projection.DigitsRoundTrip | backend/src/controllers/userController.ts:338 | reading the printed digits back gives the number |
| Projection.DecimalStringRoundTrip | backend/src/controllers/userController.ts:338 | a printed integer starts with `-` iff it is negative, and reads back to itself |
| Projection.Nodes | backend/src/controllers/userController.ts:330-344 | there is one node per user |
| Projection.NodeAt | backend/src/controllers/userController.ts:330-344 | the node of one record at its index: kind, grid position, label and data |
| Projection.NodesSpec | backend/src/controllers/userController.ts:330-344 | node k carries user k's id and data, is high-score iff the score exceeds 5, has label `username (age)`, sits at x = 200 * (k mod 5) + 100 and y = 200 * (k div 5) + 100 |
| Projection.NodePositionsDistinct | backend/src/controllers/userController.ts:333-336 | no two nodes share a position |
| Projection.EdgeKeyInjective | backend/src/controllers/userController.ts:352-353 | keys of ids of equal length are equal only for equal pairs |
| Projection.EdgeKey | backend/src/controllers/userController.ts:352-353 | the template key `${a}-${b}` |
| Projection.FriendPairsAreLinks | backend/src/controllers/userController.ts:349-350 | the pairs the nested loops visit are exactly the friendship pairs |
| Projection.KeysMembers | backend/src/controllers/userController.ts:355-362 | the key set holds exactly both keys of every edge pushed |
| Projection.ScanStep | backend/src/controllers/userController.ts:349-365 | visiting one more pair extends the scan by that pair |
| Projection.Visit | backend/src/controllers/userController.ts:355-363 | one step of the inner loop: push the edge and both keys unless either key is already in the set |
| Projection.ScanEdges | backend/src/controllers/userController.ts:349-365 | the loop over a sequence of pairs |
| Projection.ScanSeen | backend/src/controllers/userController.ts:355-362 | the seen set is always exactly both keys of every edge pushed |
| Projection.ScanSound | backend/src/controllers/userController.ts:355-361 | every edge pushed comes from a visited pair and is named by its key |
| Projection.ScanFresh | backend/src/controllers/userController.ts:355 | no edge is pushed whose key in either direction is already seen |
| Projection.ScanCovers | backend/src/controllers/userController.ts:355-363 | for every visited pair one of its two keys ends up seen |
| Projection.ScanLater | backend/src/controllers/userController.ts:349-365 | scanning more pairs only appends edges and keys, and every later edge has neither key among those seen before |
| Projection.EdgesSound | backend/src/controllers/userController.ts:346-365 | every edge is named by its key and joins two friends |
| Projection.EdgeIdsUnique | backend/src/controllers/userController.ts:346-365 | edge ids are unique, and no edge's key is the reverse key of an earlier edge |
| Projection.KeysHoldEach | backend/src/controllers/userController.ts:361-362 | both keys of every edge pushed are in the key set |
| Projection.EdgesCoverKeys | backend/src/controllers/userController.ts:346-365 | every friendship pair's key, in one direction or the other, belongs to some edge |
| Projection.EdgesComplete | backend/src/controllers/userController.ts:346-365 | with ids of one length, as uuids are, every friendship of a consistent graph is drawn as an edge in one direction |
| Projection.EdgesNotDoubled | backend/src/controllers/userController.ts:355 | no two edges join the same two users |
| Projection.EdgesForward | backend/src/controllers/userController.ts:349-362 | in a consistent store every edge's source comes before its target in store order, whatever the ids are |
| Projection.EdgesForwardPrefix | backend/src/controllers/userController.ts:349-362 | after the records before `n` are scanned every edge runs from one of them to a later record |
| Projection.NewEdgeForward | backend/src/controllers/userController.ts:355-360 | an edge pushed while a record is scanned runs from that record to a later one, since the earlier friend already blocked both keys |
| Projection.PrefixLinks | backend/src/controllers/userController.ts:349-350 | a pair held by one of the first `n` records is a pair of those records |
| Projection.NoFriendsNoPairs | backend/src/controllers/userController.ts:349-350 | without friendships the loops visit no pair |
| Projection.NoFriendsNoEdges | backend/src/controllers/userController.ts:346-365 | without friendships there are no edges |
| Projection.CollidingStoreConsistent | backend/src/controllers/userController.ts:352-355 | the four-user example is a consistent graph with the friendships a-b with c and a with b-c |
| Projection.CollidingPairs | backend/src/controllers/userController.ts:349-350 | the loops visit the example's four directed pairs in store order |
| Projection.KeyCollisionDropsEdge | backend/src/controllers/userController.ts:352-355 | in the example both friendships have the key `a-b-c`, so only the first is drawn |
| Projection.BuildEdges | backend/src/controllers/userController.ts:346-365 | the nested loops with the key set build exactly the specified edge list |
| Projection.GraphEdges | backend/src/controllers/userController.ts:346-365 | the edges the handler returns: the loop run over the pairs in store and list order |
| Projection.GetGraphData | backend/src/controllers/userController.ts:322-377 | the handler returns the specified nodes and edges of the stored users |

## Left out

- HTTP plumbing is not modelled: Express requests and responses, `next(error)`, response bodies and the 200/201 success codes. A failure is the error kind (`Controller.StatusCode` gives its code), and a success is the returned record or pair.
- Generic storage failures and the handlers' generic 500 path are not modelled. Nor is the `catch` in `calculatePopularityScore` that turns such a failure into a score of 0. The store operations here never fail.
- Concurrency is not modelled. The handlers' awaits and `Promise.all` in `updatePopularityScores` run in sequence in the model. `Scores.RescoredTwice` and `Scores.ScoreIgnoresScores` show that the order of the score write-backs does not matter.
- Id generation: `uuidv4()` is the parameter `newId` of create. `Controller.CreateUser` requires that no stored record has that id. The duplicate-key error of the unique index is not modelled.
- `createdAt` is not modelled, and with it the `getAllUsers` handler, whose only logic is sorting by it.
- `getUserById` is a plain lookup, modelled only as `UserModel.IndexOf`.
- JavaScript dynamic typing is reduced to three kinds of input: absent, wrongly typed, or well typed.
  - Non-string usernames and hobby entries are not modelled. They raise a `TypeError`, which leads to a 500.
  - Non-string friend ids are not modelled. Link and unlink compare the friend id and pass it to `findOne`, which casts it: a number is looked up as a string and gives 404, and an object gives a cast error and so a 500. The model takes the friend id as an optional string.
  - Fractional, `NaN` and infinite ages are not modelled. Ages are integers.
  - The hobbies filter `h && h.trim()` in update is modelled like create's `h.trim()`. The two differ only on non-string entries.
- Strings are sequences of characters. Lengths count characters, not UTF-16 code units, so a username with characters outside the Basic Multilingual Plane is measured differently from the source.
- Projection.EdgesComplete: proved only for stores whose ids all have one length. With ids of different lengths two friendships can share a key and one goes undrawn (`Projection.KeyCollisionDropsEdge`). Generated uuids all have 36 characters.
- The routes, the application setup, the database configuration and the whole front end are not part of this model.
