/** `getGraphData`: the read-only projection of the store into the nodes and
    edges the graph view draws. Nodes are a pure map over the records; the
    edges come out of a loop that walks every friends list and keeps a set of
    edge keys already used, so that a friendship listed on both sides is drawn
    once. */
module Projection {
  import opened UserModel
  import opened Friendship

  // ---------------------------------------------------------------------------
  // Decimal rendering of the age in a node label

  function DigitChar(d: nat): (c: char)
    requires d < 10
    ensures '0' <= c <= '9'
  {
    ('0' as int + d) as char
  }

  function DigitValue(c: char): int
  {
    c as int - '0' as int
  }

  /** The decimal digits of `n`, most significant first, without leading zeros. */
  function Digits(n: nat): (s: string)
    ensures |s| >= 1 && forall k :: 0 <= k < |s| ==> '0' <= s[k] <= '9'
    ensures |s| > 1 ==> s[0] != '0'
  {
    if n < 10 then [DigitChar(n)] else Digits(n / 10) + [DigitChar(n % 10)]
  }

  /** The number a string of decimal digits denotes. */
  function ParseDigits(s: string): int
  {
    if s == [] then 0 else ParseDigits(s[..|s| - 1]) * 10 + DigitValue(s[|s| - 1])
  }

  /** The digits read back give the number they were made from. */
  lemma {:induction false} DigitsRoundTrip(n: nat)
    ensures ParseDigits(Digits(n)) == n
  {
    if n >= 10 {
      DigitsRoundTrip(n / 10);
      var s := Digits(n);
      assert s[..|s| - 1] == Digits(n / 10);
    }
  }

  /** `${n}` for an integer `n`. */
  function DecimalString(n: int): string
  {
    if n < 0 then "-" + Digits(-n) else Digits(n)
  }

  /** The rendering is faithful: the sign and the digits give back `n`. */
  lemma DecimalStringRoundTrip(n: int)
    ensures var s := DecimalString(n);
      && (n < 0 <==> s[0] == '-')
      && (if n < 0 then -ParseDigits(s[1..]) else ParseDigits(s)) == n
  {
    if n < 0 {
      DigitsRoundTrip(-n);
      assert DecimalString(n)[1..] == Digits(-n);
    } else {
      DigitsRoundTrip(n);
    }
  }

  // ---------------------------------------------------------------------------
  // Nodes

  datatype NodeKind = HighScoreNode | LowScoreNode

  datatype Position = Position(x: int, y: int)

  /** One node of the graph view, with its `data` fields inlined. */
  datatype Node = Node(
    id: string,
    kind: NodeKind,
    position: Position,
    labelText: string,
    username: string,
    age: int,
    hobbies: seq<string>,
    popularityScore: real)

  const Columns := 5
  const Spacing := 200
  const Margin := 100
  const HighScoreThreshold := 5.0

  /** The node of the record at `index` in enumeration order. */
  function NodeAt(user: UserRecord, index: nat): Node
  {
    Node(user.id,
         if user.popularityScore > HighScoreThreshold then HighScoreNode else LowScoreNode,
         Position((index % Columns) * Spacing + Margin, (index / Columns) * Spacing + Margin),
         user.username + " (" + DecimalString(user.age) + ")",
         user.username, user.age, user.hobbies, user.popularityScore)
  }

  /** `users.map((user, index) => ...)`. */
  function Nodes(users: seq<UserRecord>): (nodes: seq<Node>)
    ensures |nodes| == |users|
  {
    seq(|users|, k requires 0 <= k < |users| => NodeAt(users[k], k))
  }

  /** One node per record, in order: it carries the record's id and data, is a
      high-score node exactly when the score exceeds 5, and sits in a grid of
      five columns 200 apart starting at (100, 100). */
  lemma NodesSpec(users: seq<UserRecord>)
    ensures var nodes := Nodes(users);
      forall k :: 0 <= k < |users| ==>
        && nodes[k].id == users[k].id
        && (nodes[k].kind == HighScoreNode <==> users[k].popularityScore > 5.0)
        && nodes[k].username == users[k].username && nodes[k].age == users[k].age
        && nodes[k].hobbies == users[k].hobbies && nodes[k].popularityScore == users[k].popularityScore
        && nodes[k].labelText == users[k].username + " (" + DecimalString(users[k].age) + ")"
        && nodes[k].position.x == (k % 5) * 200 + 100
        && nodes[k].position.y == (k / 5) * 200 + 100
  {
  }

  /** No two nodes are drawn on the same spot. */
  lemma NodePositionsDistinct(users: seq<UserRecord>, p: nat, q: nat)
    requires p < q < |users|
    ensures Nodes(users)[p].position != Nodes(users)[q].position
  {
    assert p == (p / 5) * 5 + p % 5 && q == (q / 5) * 5 + q % 5;
  }

  // ---------------------------------------------------------------------------
  // Edges

  datatype Edge = Edge(id: string, source: string, target: string)

  /** The template string `${a}-${b}` used as an edge key. */
  function EdgeKey(a: string, b: string): string
  {
    a + "-" + b
  }

  /** Keys of ids of one length determine the ids. Ids made by uuid v4 all
      have 36 characters, so their keys never collide. */
  lemma EdgeKeyInjective(a: string, b: string, c: string, d: string)
    requires |a| == |c| && EdgeKey(a, b) == EdgeKey(c, d)
    ensures a == c && b == d
  {
    assert a == EdgeKey(a, b)[..|a|] && c == EdgeKey(c, d)[..|c|];
    assert b == EdgeKey(a, b)[|a| + 1..] && d == EdgeKey(c, d)[|c| + 1..];
  }

  /** The (user, friend) pairs of one record, in list order. */
  function PairsOf(user: UserRecord): (ps: seq<(string, string)>)
    ensures |ps| == |user.friends|
  {
    seq(|user.friends|, k requires 0 <= k < |user.friends| => (user.id, user.friends[k]))
  }

  /** The pairs in the order the two nested `forEach` visit them. */
  function FriendPairs(users: seq<UserRecord>): seq<(string, string)>
  {
    if users == [] then [] else FriendPairs(users[..|users| - 1]) + PairsOf(users[|users| - 1])
  }

  /** The visited pairs are exactly the pairs the friends lists hold. */
  lemma {:induction false} FriendPairsAreLinks(users: seq<UserRecord>)
    ensures forall p :: p in FriendPairs(users) <==> p in Links(users)
  {
    if users != [] {
      var init := users[..|users| - 1];
      var last := users[|users| - 1];
      FriendPairsAreLinks(init);
      forall p | p in Links(users) ensures p in FriendPairs(users) {
        var k, f :| 0 <= k < |users| && f in users[k].friends && p == (users[k].id, f);
        if k < |init| {
          assert init[k] == users[k];
          assert p in Links(init);
        } else {
          var m :| 0 <= m < |last.friends| && last.friends[m] == f;
          assert PairsOf(last)[m] == p;
        }
      }
      forall p | p in FriendPairs(users) ensures p in Links(users) {
        if p in FriendPairs(init) {
          var k, f :| 0 <= k < |init| && f in init[k].friends && p == (init[k].id, f);
          assert users[k] == init[k];
        } else {
          var m :| 0 <= m < |last.friends| && PairsOf(last)[m] == p;
          assert last.friends[m] in last.friends;
        }
      }
    }
  }

  /** The loop state: the edges pushed so far and the `edgeSet` of keys used. */
  datatype Scan = Scan(edges: seq<Edge>, seen: set<string>)

  /** The keys an edge blocks: its own and the reversed one. */
  function Keys(edges: seq<Edge>): set<string>
  {
    if edges == [] then {}
    else
      var e := edges[|edges| - 1];
      Keys(edges[..|edges| - 1]) + {EdgeKey(e.source, e.target), EdgeKey(e.target, e.source)}
  }

  /** One step of the loop on the pair (a, b). */
  function Visit(s: Scan, a: string, b: string): Scan
  {
    if EdgeKey(a, b) !in s.seen && EdgeKey(b, a) !in s.seen
    then Scan(s.edges + [Edge(EdgeKey(a, b), a, b)], s.seen + {EdgeKey(a, b)} + {EdgeKey(b, a)})
    else s
  }

  /** The loop run over a sequence of pairs. */
  function ScanEdges(ps: seq<(string, string)>): Scan
  {
    if ps == [] then Scan([], {})
    else Visit(ScanEdges(ps[..|ps| - 1]), ps[|ps| - 1].0, ps[|ps| - 1].1)
  }

  /** The edges `getGraphData` returns for this snapshot. */
  function GraphEdges(users: seq<UserRecord>): seq<Edge>
  {
    ScanEdges(FriendPairs(users)).edges
  }

  /** No edge repeats a key an earlier edge blocked, in either orientation. */
  predicate FreshKeys(edges: seq<Edge>)
  {
    forall q :: 0 <= q < |edges| ==>
      EdgeKey(edges[q].source, edges[q].target) !in Keys(edges[..q])
      && EdgeKey(edges[q].target, edges[q].source) !in Keys(edges[..q])
  }

  lemma KeysMembers(edges: seq<Edge>, key: string)
    ensures key in Keys(edges) <==>
      exists e :: e in edges && (key == EdgeKey(e.source, e.target) || key == EdgeKey(e.target, e.source))
  {
    if edges != [] {
      var init := edges[..|edges| - 1];
      KeysMembers(init, key);
      assert edges == init + [edges[|edges| - 1]];
    }
  }

  /** Running the loop over one more pair is one more visit. */
  lemma ScanStep(ps: seq<(string, string)>, p: (string, string))
    ensures ScanEdges(ps + [p]) == Visit(ScanEdges(ps), p.0, p.1)
  {
    assert (ps + [p])[..|ps|] == ps;
  }

  /** The key set is exactly the keys the pushed edges block. */
  lemma {:induction false} ScanSeen(ps: seq<(string, string)>)
    ensures ScanEdges(ps).seen == Keys(ScanEdges(ps).edges)
  {
    if ps != [] {
      var init := ps[..|ps| - 1];
      ScanSeen(init);
      var s0 := ScanEdges(init);
      var s := ScanEdges(ps);
      if s != s0 {
        assert s.edges[..|s.edges| - 1] == s0.edges;
      }
    }
  }

  /** Each edge comes from a visited pair and is named by its key. */
  lemma {:induction false} ScanSound(ps: seq<(string, string)>)
    ensures forall e :: e in ScanEdges(ps).edges ==> e.id == EdgeKey(e.source, e.target) && (e.source, e.target) in ps
  {
    if ps != [] {
      var init := ps[..|ps| - 1];
      ScanSound(init);
      assert ps == init + [ps[|ps| - 1]];
    }
  }

  /** No edge repeats a key an earlier edge blocked. */
  lemma {:induction false} ScanFresh(ps: seq<(string, string)>)
    ensures FreshKeys(ScanEdges(ps).edges)
  {
    if ps != [] {
      var init := ps[..|ps| - 1];
      ScanFresh(init);
      ScanSeen(init);
      var s0 := ScanEdges(init);
      var s := ScanEdges(ps);
      if s != s0 {
        forall q | 0 <= q < |s.edges|
          ensures EdgeKey(s.edges[q].source, s.edges[q].target) !in Keys(s.edges[..q])
          ensures EdgeKey(s.edges[q].target, s.edges[q].source) !in Keys(s.edges[..q])
        {
          if q < |s0.edges| {
            assert s.edges[..q] == s0.edges[..q];
          } else {
            assert s.edges[..q] == s0.edges;
          }
        }
      }
    }
  }

  /** Every visited pair has its key or its reversed key in the key set. */
  lemma {:induction false} ScanCovers(ps: seq<(string, string)>)
    ensures forall p :: p in ps ==> EdgeKey(p.0, p.1) in ScanEdges(ps).seen || EdgeKey(p.1, p.0) in ScanEdges(ps).seen
  {
    if ps != [] {
      var init := ps[..|ps| - 1];
      ScanCovers(init);
      assert ps == init + [ps[|ps| - 1]];
      assert ScanEdges(init).seen <= ScanEdges(ps).seen;
    }
  }

  /** Scanning more pairs only appends edges and keys, and every edge
      appended later has neither of its keys among those seen before. */
  lemma {:induction false} ScanLater(xs: seq<(string, string)>, ys: seq<(string, string)>)
    ensures var s0 := ScanEdges(xs);
      var s := ScanEdges(xs + ys);
      && s0.edges <= s.edges
      && s0.seen <= s.seen
      && forall q :: |s0.edges| <= q < |s.edges| ==>
           EdgeKey(s.edges[q].source, s.edges[q].target) !in s0.seen
           && EdgeKey(s.edges[q].target, s.edges[q].source) !in s0.seen
  {
    if ys == [] {
      assert xs + ys == xs;
    } else {
      var init := ys[..|ys| - 1];
      var last := ys[|ys| - 1];
      ScanLater(xs, init);
      assert xs + ys == (xs + init) + [last];
      ScanStep(xs + init, last);
    }
  }

  /** Every edge stands for a pair some friends list holds, and is named by its key. */
  lemma EdgesSound(users: seq<UserRecord>)
    ensures forall e :: e in GraphEdges(users) ==>
              e.id == EdgeKey(e.source, e.target) && (e.source, e.target) in Links(users)
  {
    ScanSound(FriendPairs(users));
    FriendPairsAreLinks(users);
  }

  /** Edge ids never repeat, and no later edge's key, either way round, is one
      an earlier edge already blocked. */
  lemma EdgeIdsUnique(users: seq<UserRecord>)
    ensures var edges := GraphEdges(users);
      forall p, q :: 0 <= p < q < |edges| ==>
        && edges[p].id != edges[q].id
        && EdgeKey(edges[q].source, edges[q].target) != EdgeKey(edges[p].target, edges[p].source)
  {
    var edges := GraphEdges(users);
    ScanFresh(FriendPairs(users));
    ScanSound(FriendPairs(users));
    forall p, q | 0 <= p < q < |edges|
      ensures edges[p].id != edges[q].id
      ensures EdgeKey(edges[q].source, edges[q].target) != EdgeKey(edges[p].target, edges[p].source)
    {
      assert edges[p] in edges && edges[q] in edges;
      KeysHoldEach(edges[..q], p);
    }
  }

  /** Each edge's keys, both ways round, are among the keys of any run of edges holding it. */
  lemma {:induction false} KeysHoldEach(edges: seq<Edge>, p: nat)
    requires p < |edges|
    ensures EdgeKey(edges[p].source, edges[p].target) in Keys(edges)
    ensures EdgeKey(edges[p].target, edges[p].source) in Keys(edges)
  {
    if p < |edges| - 1 {
      KeysHoldEach(edges[..|edges| - 1], p);
    }
  }

  /** Whatever the ids, every pair the lists hold has its key or its reversed
      key blocked by some edge. */
  lemma EdgesCoverKeys(users: seq<UserRecord>, a: string, b: string)
    requires (a, b) in Links(users)
    ensures exists e :: (e in GraphEdges(users) &&
      (EdgeKey(a, b) in {EdgeKey(e.source, e.target), EdgeKey(e.target, e.source)}
       || EdgeKey(b, a) in {EdgeKey(e.source, e.target), EdgeKey(e.target, e.source)}))
  {
    FriendPairsAreLinks(users);
    ScanCovers(FriendPairs(users));
    ScanSeen(FriendPairs(users));
    var s := ScanEdges(FriendPairs(users));
    assert (a, b) in FriendPairs(users);
    KeysMembers(s.edges, EdgeKey(a, b));
    KeysMembers(s.edges, EdgeKey(b, a));
  }

  /** All record ids have one length, as uuid v4 ids do. */
  predicate UniformIds(users: seq<UserRecord>)
  {
    forall k, m :: 0 <= k < |users| && 0 <= m < |users| ==> |users[k].id| == |users[m].id|
  }

  /** With ids of one length in a consistent graph, every friendship is drawn:
      some edge joins the two users, in one orientation or the other. */
  lemma EdgesComplete(users: seq<UserRecord>, a: string, b: string)
    requires GraphConsistent(users) && UniformIds(users)
    requires (a, b) in Links(users)
    ensures exists e :: (e in GraphEdges(users) &&
      ((e.source, e.target) == (a, b) || (e.source, e.target) == (b, a)))
  {
    EdgesCoverKeys(users, a, b);
    EdgesSound(users);
    var e :| e in GraphEdges(users) &&
      (EdgeKey(a, b) in {EdgeKey(e.source, e.target), EdgeKey(e.target, e.source)}
       || EdgeKey(b, a) in {EdgeKey(e.source, e.target), EdgeKey(e.target, e.source)});
    ConsistentLinks(users, a, b);
    ConsistentLinks(users, e.source, e.target);
    var ia, ib := IndexOf(users, a), IndexOf(users, b);
    var iSource, iTarget := IndexOf(users, e.source), IndexOf(users, e.target);
    assert |a| == |b| == |e.source| == |e.target| by {
      assert |users[ia].id| == |users[ib].id| == |users[iSource].id| == |users[iTarget].id|;
    }
    if EdgeKey(a, b) == EdgeKey(e.source, e.target) {
      EdgeKeyInjective(a, b, e.source, e.target);
    } else if EdgeKey(a, b) == EdgeKey(e.target, e.source) {
      EdgeKeyInjective(a, b, e.target, e.source);
    } else if EdgeKey(b, a) == EdgeKey(e.source, e.target) {
      EdgeKeyInjective(b, a, e.source, e.target);
    } else {
      EdgeKeyInjective(b, a, e.target, e.source);
    }
  }

  /** Two pairs that differ both as given and reversed join different users. */
  lemma DistinctPairsDistinctEnds(a: string, b: string, c: string, d: string)
    requires (a, b) != (c, d) && (b, a) != (c, d)
    ensures {a, b} != {c, d}
  {
    if a != c && a != d {
      assert a !in {c, d};
    } else if a == c {
      if b != c {
        assert b !in {c, d};
      } else {
        assert d !in {a, b};
      }
    } else {
      if b != d {
        assert b !in {c, d};
      } else {
        assert c !in {a, b};
      }
    }
  }

  /** No friendship is drawn twice: two edges never join the same two users.
      This holds whatever the ids, since a later edge's key never equals an
      earlier edge's key either way round. */
  lemma EdgesNotDoubled(users: seq<UserRecord>)
    ensures var edges := GraphEdges(users);
      forall p, q :: 0 <= p < q < |edges| ==>
        {edges[p].source, edges[p].target} != {edges[q].source, edges[q].target}
  {
    var edges := GraphEdges(users);
    EdgeIdsUnique(users);
    EdgesSound(users);
    forall p, q | 0 <= p < q < |edges|
      ensures {edges[p].source, edges[p].target} != {edges[q].source, edges[q].target}
    {
      var ep, eq := edges[p], edges[q];
      assert ep in edges && eq in edges;
      DistinctPairsDistinctEnds(ep.source, ep.target, eq.source, eq.target);
    }
  }

  /** After the records before `n` have been scanned, every edge runs from
      one of those records to a record further on: the pair between two
      friends is drawn when the earlier of them is scanned. */
  lemma {:induction false} EdgesForwardPrefix(users: seq<UserRecord>, n: nat)
    requires n <= |users| && GraphConsistent(users)
    ensures forall e :: e in ScanEdges(FriendPairs(users[..n])).edges ==>
              exists k, m :: 0 <= k < n && k < m < |users| && users[k].id == e.source && users[m].id == e.target
  {
    if n > 0 {
      EdgesForwardPrefix(users, n - 1);
      var before := users[..n - 1];
      var xs := FriendPairs(before);
      var ys := PairsOf(users[n - 1]);
      assert users[..n][..n - 1] == before;
      assert FriendPairs(users[..n]) == xs + ys;
      ScanLater(xs, ys);
      ScanCovers(xs);
      ScanSound(xs + ys);
      FriendPairsAreLinks(before);
      var s0 := ScanEdges(xs);
      var s := ScanEdges(xs + ys);
      forall e | e in s.edges
        ensures exists k, m :: 0 <= k < n && k < m < |users| && users[k].id == e.source && users[m].id == e.target
      {
        var q :| 0 <= q < |s.edges| && s.edges[q] == e;
        if q < |s0.edges| {
          assert e in s0.edges;
        } else {
          NewEdgeForward(users, n - 1, xs, e);
        }
      }
    }
  }

  /** An edge drawn while record `n` is scanned, from a pair the scan of the
      earlier records did not block, runs from record `n` to a later one. */
  lemma NewEdgeForward(users: seq<UserRecord>, n: nat, xs: seq<(string, string)>, e: Edge)
    requires n < |users| && GraphConsistent(users)
    requires forall p :: p in FriendPairs(users[..n]) <==> p in Links(users[..n])
    requires xs == FriendPairs(users[..n])
    requires forall p :: p in xs ==> EdgeKey(p.0, p.1) in ScanEdges(xs).seen || EdgeKey(p.1, p.0) in ScanEdges(xs).seen
    requires EdgeKey(e.source, e.target) !in ScanEdges(xs).seen && EdgeKey(e.target, e.source) !in ScanEdges(xs).seen
    requires (e.source, e.target) in xs + PairsOf(users[n])
    ensures exists m :: n < m < |users| && users[n].id == e.source && users[m].id == e.target
  {
    assert (e.source, e.target) !in xs && (e.target, e.source) !in xs;
    var t :| 0 <= t < |users[n].friends| && PairsOf(users[n])[t] == (e.source, e.target);
    assert e.source == users[n].id && e.target in users[n].friends;
    assert HasId(users, e.target);
    var m := IndexOf(users, e.target);
    assert users[n].id in users[m].friends;
    PrefixLinks(users, n, m, users[n].id);
    assert n < m;
  }

  /** A pair held by a record before `n` is a pair of the first `n` records. */
  lemma PrefixLinks(users: seq<UserRecord>, n: nat, m: nat, f: string)
    requires n <= |users| && m < |users| && f in users[m].friends
    ensures m < n ==> (users[m].id, f) in Links(users[..n])
  {
    if m < n {
      assert users[..n][m] == users[m];
    }
  }

  /** In a consistent store every edge points forward in store order: its
      source is the earlier of the two friends, whatever the ids are. */
  lemma EdgesForward(users: seq<UserRecord>)
    requires GraphConsistent(users) && UniqueIds(users)
    ensures forall e :: e in GraphEdges(users) ==> IndexOf(users, e.source) < IndexOf(users, e.target)
  {
    EdgesForwardPrefix(users, |users|);
    assert users[..|users|] == users;
    forall e | e in GraphEdges(users) ensures IndexOf(users, e.source) < IndexOf(users, e.target) {
      var k, m :| 0 <= k < |users| && k < m < |users| && users[k].id == e.source && users[m].id == e.target;
      IndexOfUnique(users, k);
      IndexOfUnique(users, m);
    }
  }

  lemma {:induction false} NoFriendsNoPairs(users: seq<UserRecord>)
    requires forall k :: 0 <= k < |users| ==> users[k].friends == []
    ensures FriendPairs(users) == []
  {
    if users != [] {
      NoFriendsNoPairs(users[..|users| - 1]);
    }
  }

  /** A store in which nobody lists a friend has no edges. */
  lemma NoFriendsNoEdges(users: seq<UserRecord>)
    requires forall k :: 0 <= k < |users| ==> users[k].friends == []
    ensures GraphEdges(users) == []
  {
    NoFriendsNoPairs(users);
  }

  /** A consistent store whose ids differ in length: "a-b" and "c" are
      friends, and so are "a" and "b-c". */
  function CollidingStore(): (users: seq<UserRecord>)
    ensures |users| == 4
  {
    [UserRecord("a-b", "p", 20, [], ["c"], 1.0),
     UserRecord("c", "q", 20, [], ["a-b"], 1.0),
     UserRecord("a", "r", 20, [], ["b-c"], 1.0),
     UserRecord("b-c", "s", 20, [], ["a"], 1.0)]
  }

  lemma CollidingStoreConsistent()
    ensures GraphConsistent(CollidingStore())
    ensures ("a", "b-c") in Links(CollidingStore()) && ("a-b", "c") in Links(CollidingStore())
  {
    var users := CollidingStore();
    CollidingStoreStored();
    CollidingStoreMutual();
    assert ("a", "b-c") == (users[2].id, users[2].friends[0]);
    assert ("a-b", "c") == (users[0].id, users[0].friends[0]);
  }

  /** Each record of the example lists exactly its partner. */
  lemma CollidingStoreLists()
    ensures forall k :: 0 <= k < 4 ==> CollidingStore()[k].friends == [CollidingStore()[Partner(k)].id]
  {
  }

  /** Every id the example lists is stored. */
  lemma CollidingStoreStored()
    ensures var users := CollidingStore();
      forall k, f :: 0 <= k < |users| && f in users[k].friends ==> HasId(users, f)
  {
    var users := CollidingStore();
    CollidingStoreLists();
    forall k | 0 <= k < |users| ensures HasId(users, users[Partner(k)].id) {
      assert users[Partner(k)].id == users[Partner(k)].id;
    }
  }

  /** Friendship in the example is mutual. */
  lemma CollidingStoreMutual()
    ensures var users := CollidingStore();
      forall i, j :: 0 <= i < |users| && 0 <= j < |users| && users[j].id in users[i].friends
                     ==> users[i].id in users[j].friends
  {
    var users := CollidingStore();
    CollidingStoreLists();
    CollidingIdsDistinct();
    forall i, j | 0 <= i < |users| && 0 <= j < |users| && users[j].id in users[i].friends
      ensures users[i].id in users[j].friends
    {
      assert users[j].id == users[Partner(i)].id;
      assert j == Partner(i);
    }
  }

  /** The four ids of the example are distinct. */
  lemma CollidingIdsDistinct()
    ensures forall a, b :: 0 <= a < 4 && 0 <= b < 4 && CollidingStore()[a].id == CollidingStore()[b].id ==> a == b
  {
    var users := CollidingStore();
    assert users[0].id == "a-b" && users[1].id == "c" && users[2].id == "a" && users[3].id == "b-c";
    forall a, b | 0 <= a < 4 && 0 <= b < 4 && users[a].id == users[b].id ensures a == b {
      assert |users[a].id| == |users[b].id| && users[a].id[0] == users[b].id[0];
    }
  }

  /** The record the example pairs with the record at `k`. */
  function Partner(k: nat): (p: nat)
    ensures p < 4 || k >= 4
  {
    if k == 0 then 1 else if k == 1 then 0 else if k == 2 then 3 else if k == 3 then 2 else k
  }

  /** Ids of different lengths can collide: the keys of a-b with c and of a
      with b-c are both "a-b-c", so the second friendship is not drawn. */
  lemma KeyCollisionDropsEdge()
    ensures GraphEdges(CollidingStore()) == [Edge("a-b-c", "a-b", "c")]
  {
    var p0, p1, p2, p3 := ("a-b", "c"), ("c", "a-b"), ("a", "b-c"), ("b-c", "a");
    var one := Scan([Edge("a-b-c", "a-b", "c")], {"a-b-c", "c-a-b"});
    CollidingPairs();
    assert EdgeKey("a-b", "c") == "a-b-c" && EdgeKey("c", "a-b") == "c-a-b";
    assert EdgeKey("a", "b-c") == "a-b-c" && EdgeKey("b-c", "a") == "b-c-a";
    ScanStep([], p0);
    assert [] + [p0] == [p0];
    assert ScanEdges([p0]) == one;
    ScanStep([p0], p1);
    assert [p0] + [p1] == [p0, p1];
    assert ScanEdges([p0, p1]) == one;
    ScanStep([p0, p1], p2);
    assert [p0, p1] + [p2] == [p0, p1, p2];
    assert ScanEdges([p0, p1, p2]) == one;
    ScanStep([p0, p1, p2], p3);
    assert [p0, p1, p2] + [p3] == [p0, p1, p2, p3];
  }

  /** The pairs of the colliding store, in visiting order. */
  lemma CollidingPairs()
    ensures FriendPairs(CollidingStore()) == [("a-b", "c"), ("c", "a-b"), ("a", "b-c"), ("b-c", "a")]
  {
    var users := CollidingStore();
    var p0, p1, p2, p3 := ("a-b", "c"), ("c", "a-b"), ("a", "b-c"), ("b-c", "a");
    assert PairsOf(users[0]) == [p0] && PairsOf(users[1]) == [p1];
    assert PairsOf(users[2]) == [p2] && PairsOf(users[3]) == [p3];
    assert users[..1][..0] == [] && users[..2][..1] == users[..1];
    assert users[..3][..2] == users[..2] && users[..3] == users[..|users| - 1];
    assert FriendPairs(users[..1]) == [p0];
    assert FriendPairs(users[..2]) == [p0, p1];
    assert FriendPairs(users[..3]) == [p0, p1, p2];
  }

  /** The edge loop of `getGraphData`: for each record, for each listed friend,
      push an edge under the key `${id}-${friendId}` unless that key or the
      reversed one is already in the set, and then add both keys to it. */
  method BuildEdges(users: seq<UserRecord>) returns (edges: seq<Edge>)
    ensures edges == GraphEdges(users)
  {
    edges := [];
    var seen: set<string> := {};
    var i := 0;
    while i < |users|
      invariant 0 <= i <= |users|
      invariant Scan(edges, seen) == ScanEdges(FriendPairs(users[..i]))
    {
      var user := users[i];
      var j := 0;
      assert FriendPairs(users[..i]) + PairsOf(user)[..0] == FriendPairs(users[..i]);
      while j < |user.friends|
        invariant 0 <= j <= |user.friends|
        invariant Scan(edges, seen) == ScanEdges(FriendPairs(users[..i]) + PairsOf(user)[..j])
      {
        var friendId := user.friends[j];
        ghost var before := Scan(edges, seen);
        var edgeId1 := EdgeKey(user.id, friendId);
        var edgeId2 := EdgeKey(friendId, user.id);
        if edgeId1 !in seen && edgeId2 !in seen {
          edges := edges + [Edge(edgeId1, user.id, friendId)];
          seen := seen + {edgeId1};
          seen := seen + {edgeId2};
        }
        assert Scan(edges, seen) == Visit(before, user.id, friendId);
        assert PairsOf(user)[..j + 1] == PairsOf(user)[..j] + [(user.id, friendId)];
        ScanStep(FriendPairs(users[..i]) + PairsOf(user)[..j], (user.id, friendId));
        assert FriendPairs(users[..i]) + PairsOf(user)[..j + 1]
            == (FriendPairs(users[..i]) + PairsOf(user)[..j]) + [(user.id, friendId)];
        j := j + 1;
      }
      assert PairsOf(user)[..j] == PairsOf(user);
      assert users[..i + 1][..i] == users[..i];
      assert FriendPairs(users[..i + 1]) == FriendPairs(users[..i]) + PairsOf(user);
      i := i + 1;
    }
    assert users[..i] == users;
  }

  /** `getGraphData`: the nodes and edges of the current store. */
  method GetGraphData(store: UserStore) returns (nodes: seq<Node>, edges: seq<Edge>)
    ensures nodes == Nodes(store.users) && edges == GraphEdges(store.users)
  {
    var users := store.users;
    nodes := Nodes(users);
    edges := BuildEdges(users);
  }
}
