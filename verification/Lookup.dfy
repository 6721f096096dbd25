/** The iterative lookups find_node and get_peers. Peers are an arbitrary function
    from nodes to replies, map iteration and the arrival order of replies are
    arbitrary, and the lookups still terminate because every round asks at least
    one identifier for the first time and there are finitely many. */
module Lookup {
  import opened NodeIds
  import Powers
  import opened Routing
  import opened LookupRounds
  import Bytes

  // ---- Finitely many identifiers ----

  lemma {:induction false} IdsBelow(ids: set<NodeID>, n: nat)
    requires forall id :: id in ids ==> Value(id) < n
    ensures |ids| <= n
  {
    if n == 0 {
      assert ids == {};
    } else if id :| id in ids && Value(id) == n - 1 {
      forall x | x in ids - {id}
        ensures Value(x) < n - 1
      {
        CompareIsNumeric(x, id);
      }
      IdsBelow(ids - {id}, n - 1);
    } else {
      IdsBelow(ids, n - 1);
    }
  }

  /** How many identifiers of this length there are. */
  ghost function SpaceOf(id: NodeID): nat {
    Powers.Pow2(8 * |id|)
  }

  lemma IdSpace(ids: set<NodeID>, own: NodeID)
    ensures |ids| <= SpaceOf(own)
  {
    forall id | id in ids
      ensures Value(id) < SpaceOf(own)
    {
      ValueBound(id);
    }
    IdsBelow(ids, SpaceOf(own));
  }

  // ---- Listing a map ----

  ghost predicate Lists(nodes: seq<Node>, m: Shortlist, skip: set<NodeID>) {
    && DistinctIds(nodes)
    && forall n :: n in nodes <==> n.id in m && n.id !in skip && m[n.id] == n
  }

  /** The nodes of the map whose identifiers are not in `skip`, in any order. */
  method ListNodes(m: Shortlist, skip: set<NodeID>) returns (nodes: seq<Node>)
    requires Keyed(m)
    ensures Lists(nodes, m, skip)
  {
    nodes := [];
    var left := m.Keys;
    while left != {}
      invariant left <= m.Keys
      invariant DistinctIds(nodes)
      invariant forall n :: n in nodes <==> n.id in m && n.id !in left && n.id !in skip && m[n.id] == n
      decreases |left|
    {
      var id :| id in left;
      left := left - {id};
      if id !in skip {
        nodes := Listed(nodes, m, skip, left, id);
      }
    }
  }

  method Listed(nodes: seq<Node>, m: Shortlist, skip: set<NodeID>, left: set<NodeID>, id: NodeID) returns (r: seq<Node>)
    requires Keyed(m) && id in m && id !in skip && id !in left && left <= m.Keys
    requires DistinctIds(nodes)
    requires forall n :: n in nodes <==> n.id in m && n.id !in left + {id} && n.id !in skip && m[n.id] == n
    ensures DistinctIds(r)
    ensures forall n :: n in r <==> n.id in m && n.id !in left && n.id !in skip && m[n.id] == n
  {
    r := nodes + [m[id]];
    forall i | 0 <= i < |nodes|
      ensures nodes[i].id != id
    {
      assert nodes[i] in nodes;
    }
    forall n
      ensures n in r <==> n.id in m && n.id !in left && n.id !in skip && m[n.id] == n
    {
      assert n in r <==> n in nodes || n == m[id];
    }
  }

  lemma {:induction false} DistinctLength(nodes: seq<Node>)
    requires DistinctIds(nodes)
    ensures |Ids(nodes)| == |nodes|
  {
    if nodes == [] {
      assert Ids(nodes) == {};
    } else {
      var init, last := nodes[..|nodes| - 1], nodes[|nodes| - 1];
      assert nodes == init + [last];
      DistinctLength(init);
      assert last.id !in Ids(init);
      assert Ids(nodes) == Ids(init) + {last.id};
    }
  }

  ghost function Unskipped(m: Shortlist, skip: set<NodeID>): Shortlist {
    map id | id in m && id !in skip :: m[id]
  }

  lemma ListsAll(nodes: seq<Node>, m: Shortlist, skip: set<NodeID>)
    requires Keyed(m) && Lists(nodes, m, skip)
    ensures |nodes| == |Unskipped(m, skip)|
    ensures forall n :: n in nodes <==> n in Unskipped(m, skip).Values
  {
    var u := Unskipped(m, skip);
    DistinctLength(nodes);
    forall id | id in u
      ensures id in Ids(nodes)
    {
      assert m[id] in nodes;
    }
    assert Ids(nodes) == u.Keys;
    forall n | n in nodes
      ensures n in u.Values
    {
      assert u[n.id] == n;
    }
  }

  /** Sort and cut: the nearest `n` of the listed nodes. */
  method SortAndCut(nodes: seq<Node>, m: Shortlist, skip: set<NodeID>, target: NodeID, n: nat) returns (r: seq<Node>)
    requires Keyed(m) && Lists(nodes, m, skip)
    ensures NearestOf(Unskipped(m, skip), target, n, r) && DistinctIds(r)
    ensures forall x :: x in r ==> x.id !in skip
    ensures n > 0 && nodes != [] ==> r != []
  {
    var a := new Node[|nodes|](i requires 0 <= i < |nodes| => nodes[i]);
    assert a[..] == nodes;
    SortByDistance(a, target);
    var sorted := a[..];
    var k := if |sorted| > n then n else |sorted|;
    r := sorted[..k];
    CutIsNearest(nodes, sorted, target, k);
    ListsAll(nodes, m, skip);
  }

  lemma CutIsNearest(nodes: seq<Node>, sorted: seq<Node>, target: NodeID, k: nat)
    requires DistinctIds(nodes) && multiset(sorted) == multiset(nodes)
    requires SortedByDistance(sorted, target) && k <= |sorted|
    ensures |sorted| == |nodes| && StrictlySorted(sorted[..k], target) && DistinctIds(sorted[..k])
    ensures forall x :: x in sorted[..k] ==> x in nodes
    ensures forall x, y :: x in sorted[..k] && y in nodes && y !in sorted[..k] ==>
              Distance(x, target) < Distance(y, target)
  {
    PermutationDistinct(nodes, sorted);
    SortedIsStrict(sorted, target);
    assert |sorted| == |multiset(sorted)| == |nodes|;
    forall x
      ensures x in sorted <==> x in nodes
    {
      assert x in sorted <==> x in multiset(sorted);
      assert x in nodes <==> x in multiset(nodes);
    }
    forall x, y | x in sorted[..k] && y in nodes && y !in sorted[..k]
      ensures Distance(x, target) < Distance(y, target)
    {
      FartherThanPrefix(sorted, target, k, x, y);
    }
  }

  // ---- Taking replies ----

  /** Offering one more node to the table. */
  method Offer(table: RoutingTable, book: Book, n: Node, ghost base: Buckets) returns (book': Book)
    requires table.Valid() && |base| == BUCKETS && table.buckets[..] == AllInserted(table.own, base, book.offers)
    modifies table.buckets
    ensures table.Valid() && table.buckets[..] == AllInserted(table.own, base, book'.offers)
    ensures book' == book.(offers := book.offers + [n])
  {
    var ok := table.Insert(n);
    book' := book.(offers := book.offers + [n]);
    assert book'.offers[..|book.offers|] == book.offers;
  }

  ghost predicate TookNodes(book: Book, book': Book, nodes: seq<Node>) {
    && Keyed(book'.known)
    && book'.known.Keys == book.known.Keys + Ids(nodes)
    && (forall id :: id in book.known ==> book'.known[id] == book.known[id])
    && (forall id :: id in book'.known && id !in book.known ==> book'.known[id] in nodes)
    && book.offers <= book'.offers
    && (forall n :: n in book'.offers <==> n in book.offers || Gained(book, book', n))
    && book'.peers == book.peers && book'.tokens == book.tokens
  }

  lemma KnownNode(book: Book, book': Book, nodes: seq<Node>, n: Node)
    requires TookNodes(book, book', nodes) && n.id in book'.known
    ensures TookNodes(book, book', nodes + [n])
  {
    assert Ids(nodes + [n]) == Ids(nodes) + {n.id};
  }

  lemma NewNode(book: Book, book': Book, nodes: seq<Node>, n: Node)
    requires TookNodes(book, book', nodes) && n.id !in book'.known
    ensures TookNodes(book, book'.(known := book'.known[n.id := n], offers := book'.offers + [n]), nodes + [n])
  {
    var book2 := book'.(known := book'.known[n.id := n], offers := book'.offers + [n]);
    assert Ids(nodes + [n]) == Ids(nodes) + {n.id};
    forall m
      ensures m in book2.offers <==> m in book.offers || Gained(book, book2, m)
    {
      assert m in book2.offers <==> m in book'.offers || m == n;
      assert Gained(book, book2, m) <==> Gained(book, book', m) || m == n;
    }
  }

  /** The nodes of one reply: new ones join the shortlist and are offered to the
      table. */
  method TakeNodes(table: RoutingTable, book: Book, nodes: seq<Node>, ghost base: Buckets)
    returns (book': Book, added: bool)
    requires table.Valid() && Keyed(book.known)
    requires |base| == BUCKETS && table.buckets[..] == AllInserted(table.own, base, book.offers)
    modifies table.buckets
    ensures table.Valid() && table.buckets[..] == AllInserted(table.own, base, book'.offers)
    ensures TookNodes(book, book', nodes)
    ensures added <==> book'.known.Keys != book.known.Keys
  {
    book', added := book, false;
    for i := 0 to |nodes|
      invariant table.Valid() && table.buckets[..] == AllInserted(table.own, base, book'.offers)
      invariant TookNodes(book, book', nodes[..i])
      invariant added <==> book'.known.Keys != book.known.Keys
    {
      var n := nodes[i];
      assert nodes[..i + 1] == nodes[..i] + [n];
      if n.id !in book'.known {
        NewNode(book, book', nodes[..i], n);
        book' := book'.(known := book'.known[n.id := n]);
        book' := Offer(table, book', n, base);
        added := true;
        assert n.id in book'.known.Keys && n.id !in book.known.Keys;
      } else {
        KnownNode(book, book', nodes[..i], n);
      }
    }
    assert nodes[..|nodes|] == nodes;
  }

  /** The peers of one reply that were not seen before, in order. */
  method TakePeers(peers: seq<Peer>, more: seq<Peer>) returns (peers': seq<Peer>)
    ensures peers <= peers' && (Distinct(peers) ==> Distinct(peers'))
    ensures forall p :: p in peers' <==> p in peers || p in more
  {
    peers' := peers;
    for i := 0 to |more|
      invariant peers <= peers' && (Distinct(peers) ==> Distinct(peers'))
      invariant forall p :: p in peers' <==> p in peers || p in more[..i]
    {
      assert more[..i + 1] == more[..i] + [more[i]];
      if more[i] !in peers' {
        peers' := peers' + [more[i]];
      }
    }
    assert more[..|more|] == more;
  }

  lemma ReplyNodesHeard(from: Node, reply: Reply, network: Network, book: Book, before: Book, book': Book)
    requires network(from) == Bytes.Some(reply)
    requires before.known == book.known && before.offers == book.offers + [from]
    requires TookNodes(before, book', reply.nodes)
    ensures LearnsNodes(book, book', {from}, network) && OffersNodes(book, book', {from}, network)
  {
    assert NamedBy({from}, network) == Ids(reply.nodes);
    assert forall n :: n in reply.nodes ==> Says(from, n, network);
    forall n
      ensures n in book'.offers <==> n in book.offers || n == from || Gained(book, book', n)
    {
      assert n in before.offers <==> n in book.offers || n == from;
    }
  }

  lemma ReplyIsHeard(from: Node, reply: Reply, network: Network, book: Book, before: Book, book': Book)
    requires network(from) == Bytes.Some(reply)
    requires before.known == book.known && before.offers == book.offers + [from]
    requires book.peers <= before.peers && (Distinct(book.peers) ==> Distinct(before.peers))
    requires forall p :: p in before.peers <==> p in book.peers || p in reply.peers
    requires before.tokens == if reply.token != "" then book.tokens[from.id := reply.token] else book.tokens
    requires TookNodes(before, book', reply.nodes)
    ensures Heard(book, book', {from}, network)
  {
    ReplyNodesHeard(from, reply, network, book, before, book');
    assert forall p :: ToldBy(p, {from}, network) <==> Tells(from, p, network);
    assert Granters({from}, network) == if reply.token != "" then {from.id} else {};
    HeardParts(book, book', {from}, network);
  }

  /** One reply: the node that sent it is offered to the table, then its token,
      peers and nodes are taken. */
  method TakeReply(table: RoutingTable, book: Book, from: Node, reply: Reply, ghost network: Network,
                   ghost base: Buckets)
    returns (book': Book, added: bool)
    requires table.Valid() && Keyed(book.known) && network(from) == Bytes.Some(reply)
    requires |base| == BUCKETS && table.buckets[..] == AllInserted(table.own, base, book.offers)
    modifies table.buckets
    ensures table.Valid() && table.buckets[..] == AllInserted(table.own, base, book'.offers)
    ensures Heard(book, book', {from}, network)
    ensures added <==> book'.known.Keys != book.known.Keys
  {
    var before := Offer(table, book, from, base);
    if reply.token != "" {
      before := before.(tokens := before.tokens[from.id := reply.token]);
    }
    var peers := TakePeers(before.peers, reply.peers);
    before := before.(peers := peers);
    book', added := TakeNodes(table, before, reply.nodes, base);
    ReplyIsHeard(from, reply, network, book, before, book');
  }

  lemma SilentIsHeard(from: Node, network: Network, book: Book)
    requires Keyed(book.known) && network(from).None?
    ensures Heard(book, book, {from}, network)
  {
  }

  lemma HeardOneMore(book: Book, before: Book, book': Book, heard: set<Node>, from: Node, network: Network)
    requires Heard(book, before, heard, network) && Heard(before, book', {from}, network)
    requires forall f :: f in heard ==> f.id != from.id
    ensures Heard(book, book', heard + {from}, network)
    ensures book.known.Keys <= before.known.Keys <= book'.known.Keys
  {
    HeardKeeps(book, before, heard, network);
    HeardKeeps(before, book', {from}, network);
    HeardTrans(book, before, book', heard, {from}, network);
  }

  /** One of the asked nodes answers, or does not. `added` says whether the round
      has added an identifier. */
  method HearFrom(table: RoutingTable, book: Book, added: bool, from: Node, network: Network, ghost base: Buckets,
                  ghost first: Book, ghost heard: set<Node>)
    returns (book': Book, added': bool)
    requires table.Valid() && Heard(first, book, heard, network)
    requires added <==> book.known.Keys != first.known.Keys
    requires forall f :: f in heard ==> f.id != from.id
    requires |base| == BUCKETS && table.buckets[..] == AllInserted(table.own, base, book.offers)
    modifies table.buckets
    ensures table.Valid() && table.buckets[..] == AllInserted(table.own, base, book'.offers)
    ensures Heard(first, book', heard + {from}, network)
    ensures added' <==> book'.known.Keys != first.known.Keys
  {
    HeardKeeps(first, book, heard, network);
    book', added' := book, added;
    var reply := network(from);
    if reply.Some? {
      var more;
      book', more := TakeReply(table, book, from, reply.value, network, base);
      added' := added || more;
    } else {
      SilentIsHeard(from, network, book);
    }
    HeardOneMore(first, book, book', heard, from, network);
  }

  /** The asked nodes of one round answer in some order. */
  method TakeReplies(table: RoutingTable, book: Book, candidates: seq<Node>, network: Network, ghost base: Buckets)
    returns (book': Book, added: bool)
    requires table.Valid() && Keyed(book.known) && DistinctIds(candidates)
    requires |base| == BUCKETS && table.buckets[..] == AllInserted(table.own, base, book.offers)
    modifies table.buckets
    ensures table.Valid() && table.buckets[..] == AllInserted(table.own, base, book'.offers)
    ensures Heard(book, book', Members(candidates), network)
    ensures added <==> book'.known.Keys != book.known.Keys
  {
    book', added := book, false;
    HeardNobody(book, network);
    var waiting := set n | n in candidates;
    ghost var heard: set<Node> := {};
    while waiting != {}
      invariant Split(candidates, heard, waiting)
      invariant table.Valid() && table.buckets[..] == AllInserted(table.own, base, book'.offers)
      invariant Heard(book, book', heard, network)
      invariant added <==> book'.known.Keys != book.known.Keys
      decreases |waiting|
    {
      var from :| from in waiting;
      OneHeard(candidates, heard, waiting, from);
      waiting := waiting - {from};
      book', added := HearFrom(table, book', added, from, network, base, book, heard);
      heard := heard + {from};
    }
    AllHeard(candidates, heard);
  }

  ghost predicate Split(nodes: seq<Node>, heard: set<Node>, waiting: set<Node>) {
    heard + waiting == Members(nodes) && heard !! waiting
  }

  lemma OneHeard(nodes: seq<Node>, heard: set<Node>, waiting: set<Node>, from: Node)
    requires DistinctIds(nodes) && Split(nodes, heard, waiting) && from in waiting
    ensures Split(nodes, heard + {from}, waiting - {from})
    ensures forall f :: f in heard ==> f.id != from.id
  {
    assert from in nodes;
    forall f | f in heard
      ensures f.id != from.id
    {
      assert f in Members(nodes);
    }
  }

  lemma AllHeard(nodes: seq<Node>, heard: set<Node>)
    requires Split(nodes, heard, {})
    ensures heard == Members(nodes)
  {
  }

  // ---- The rounds ----

  method Seeds(seeds: seq<Node>) returns (shortlist: Shortlist)
    ensures Keyed(shortlist) && shortlist.Keys == Ids(seeds)
    ensures forall id :: id in shortlist ==> shortlist[id] in seeds
  {
    shortlist := map[];
    for i := 0 to |seeds|
      invariant Keyed(shortlist) && shortlist.Keys == Ids(seeds[..i])
      invariant forall id :: id in shortlist ==> shortlist[id] in seeds
    {
      assert seeds[..i + 1] == seeds[..i] + [seeds[i]];
      shortlist := shortlist[seeds[i].id := seeds[i]];
    }
    assert seeds[..|seeds|] == seeds;
  }

  /** Every candidate is marked before any is asked. */
  method MarkAsked(queried: set<NodeID>, candidates: seq<Node>) returns (queried': set<NodeID>)
    requires forall n :: n in candidates ==> n.id !in queried
    ensures queried' == queried + Ids(candidates)
    ensures candidates != [] ==> |queried'| > |queried|
  {
    queried' := queried;
    for i := 0 to |candidates|
      invariant queried' == queried + Ids(candidates[..i])
    {
      assert candidates[..i + 1] == candidates[..i] + [candidates[i]];
      queried' := queried' + {candidates[i].id};
    }
    assert candidates[..|candidates|] == candidates;
    if candidates != [] {
      assert candidates[0] in candidates;
      var novel := queried' - queried;
      assert candidates[0].id in novel;
      assert queried' == queried + novel && |queried'| == |queried| + |novel|;
    }
  }

  lemma RoundMade(s: Search, t: Turn, queried: set<NodeID>, candidates: seq<Node>, t': Turn)
    requires candidates != [] && t'.asked == t.asked + candidates
    requires queried == {s.own} + Ids(t.asked)
    requires NearestOf(s.Unasked(t), s.target, ALPHA, candidates)
    requires Heard(t.book, t'.book, Members(candidates), s.network)
    ensures s.Round(t, t') && Keyed(t'.book.known)
    ensures queried + Ids(candidates) == {s.own} + Ids(t'.asked)
  {
    assert Candidates(t, t') == candidates;
    HeardKeeps(t.book, t'.book, Members(candidates), s.network);
    assert Ids(t'.asked) == Ids(t.asked) + Ids(candidates);
  }

  /** The nearest shortlisted nodes not queried yet, at most three. */
  method Choose(s: Search, t: Turn, queried: set<NodeID>) returns (candidates: seq<Node>)
    requires Keyed(t.book.known) && queried == {s.own} + Ids(t.asked)
    ensures NearestOf(s.Unasked(t), s.target, ALPHA, candidates) && DistinctIds(candidates)
    ensures forall n :: n in candidates ==> n.id !in queried
    ensures candidates == [] <==> s.Unasked(t) == map[]
  {
    var listed := ListNodes(t.book.known, queried);
    assert Unskipped(t.book.known, queried) == s.Unasked(t);
    ListsAll(listed, t.book.known, queried);
    if |listed| == 0 {
      return [];
    }
    candidates := SortAndCut(listed, t.book.known, queried, s.target, ALPHA);
  }

  /** One turn of the loop. With nobody left to ask it stops and changes nothing;
      otherwise it is a round, and it stops exactly when nothing was added. */
  method AskNearest(table: RoutingTable, s: Search, t: Turn, queried: set<NodeID>, ghost base: Buckets)
    returns (t': Turn, queried': set<NodeID>, stop: bool)
    requires table.Valid() && table.own == s.own && Keyed(t.book.known)
    requires queried == {s.own} + Ids(t.asked)
    requires |base| == BUCKETS && table.buckets[..] == AllInserted(table.own, base, t.book.offers)
    modifies table.buckets
    ensures table.Valid() && table.buckets[..] == AllInserted(table.own, base, t'.book.offers)
    ensures s.Unasked(t) == map[] ==> t' == t && stop
    ensures s.Unasked(t) != map[] ==>
              && s.Round(t, t')
              && (stop <==> t'.book.known.Keys == t.book.known.Keys)
              && |queried'| > |queried|
    ensures Keyed(t'.book.known) && queried' == {s.own} + Ids(t'.asked)
  {
    var candidates := Choose(s, t, queried);
    if |candidates| == 0 {
      return t, queried, true;
    }
    queried' := MarkAsked(queried, candidates);
    var book, added := TakeReplies(table, t.book, candidates, s.network, base);
    t' := Turn(t.asked + candidates, book);
    RoundMade(s, t, queried, candidates, t');
    stop := !added;
  }

  /** The record of states after one more turn. */
  ghost function Recorded(s: Search, turns: seq<Turn>, t: Turn): seq<Turn>
    requires turns != []
  {
    if s.Unasked(turns[|turns| - 1]) == map[] then turns else turns + [t]
  }

  /** The last round added an identifier, or there was none yet. */
  ghost predicate GoesOn(turns: seq<Turn>) {
    |turns| > 1 ==> turns[|turns| - 2].book.known.Keys != turns[|turns| - 1].book.known.Keys
  }

  /** `turns` records a lookup from `start` to `t`, at its end if it is to stop. */
  ghost predicate Records(s: Search, turns: seq<Turn>, start: Turn, t: Turn, stop: bool) {
    && s.Rounds(turns) && turns[0] == start && turns[|turns| - 1] == t
    && if stop then s.Ended(turns) else GoesOn(turns)
  }

  lemma TurnRecorded(s: Search, turns: seq<Turn>, start: Turn, last: Turn, t: Turn, stop: bool)
    requires Records(s, turns, start, last, false)
    requires if s.Unasked(last) == map[] then t == last && stop
             else s.Round(last, t) && (stop <==> t.book.known.Keys == last.book.known.Keys)
    ensures Records(s, Recorded(s, turns, t), start, t, stop)
  {
    assert (turns + [t])[..|turns|] == turns;
  }

  method Start(s: Search, seeds: seq<Node>, tokens: map<NodeID, Token>) returns (t: Turn, queried: set<NodeID>)
    ensures s.Starts(t, seeds, tokens) && s.Rounds([t]) && t.book.offers == []
    ensures queried == {s.own} + Ids(t.asked)
  {
    var known := Seeds(seeds);
    t := Turn([], Book(known, [], [], tokens));
    queried := {s.own};
    assert Ids(t.asked) == {};
  }

  /** The rounds, from the seeds on. `turns` records the state between them. */
  method AskRounds(table: RoutingTable, s: Search, seeds: seq<Node>, tokens: map<NodeID, Token>)
    returns (book: Book, ghost turns: seq<Turn>)
    requires table.Valid() && table.own == s.own
    modifies table.buckets
    ensures table.Valid() && table.buckets[..] == AllInserted(table.own, old(table.buckets[..]), book.offers)
    ensures s.Rounds(turns) && s.Starts(turns[0], seeds, tokens) && s.Ended(turns)
    ensures turns[|turns| - 1].book == book
  {
    var t, queried := Start(s, seeds, tokens);
    ghost var start := t;
    turns := [t];
    ghost var base := table.buckets[..];
    var stop := false;
    while !stop
      invariant table.Valid() && table.buckets[..] == AllInserted(table.own, base, t.book.offers)
      invariant Records(s, turns, start, t, stop)
      invariant Keyed(t.book.known) && queried == {s.own} + Ids(t.asked)
      decreases SpaceOf(table.own) - |queried|, !stop
    {
      IdSpace(queried, table.own);
      ghost var last := t;
      t, queried, stop := AskNearest(table, s, t, queried, base);
      TurnRecorded(s, turns, start, last, t, stop);
      turns := Recorded(s, turns, t);
    }
    book := t.book;
  }

  // ---- The lookups ----

  /** The nearest eight of everything learned. */
  method BestOf(known: Shortlist, target: NodeID) returns (result: seq<Node>)
    requires Keyed(known)
    ensures NearestOf(known, target, BUCKET_SIZE, result)
  {
    var all := ListNodes(known, {});
    result := SortAndCut(all, known, {}, target, BUCKET_SIZE);
    assert Unskipped(known, {}) == known;
  }

  /** What a finished lookup has asked, and what it did to the table. */
  ghost predicate Outcome(s: Search, bs: Buckets, bs': Buckets, turns: seq<Turn>)
    requires turns != [] && |bs| == |bs'| == BUCKETS
  {
    var last := turns[|turns| - 1];
    && s.AskedOnce(last)
    && bs' == AllInserted(s.own, bs, last.book.offers)
    && (forall id :: id in last.book.known ==> Placed(s.own, bs', id))
    && (forall id: NodeID :: HasId(bs, id) ==> HasId(bs', id))
    && (forall id: NodeID :: HasId(bs', id) ==> HasId(bs, id) || id in last.book.known)
  }

  lemma RoundsOutcome(s: Search, bs: Buckets, turns: seq<Turn>, seeds: seq<Node>, tokens: map<NodeID, Token>)
    requires TableOk(s.own, bs) && Nearest(bs, s.target, ALPHA, seeds)
    requires s.Rounds(turns) && s.Starts(turns[0], seeds, tokens)
    ensures Outcome(s, bs, AllInserted(s.own, bs, turns[|turns| - 1].book.offers), turns)
    ensures Keyed(turns[|turns| - 1].book.known)
  {
    RoundsHear(s, turns);
    HeardKeeps(turns[0].book, turns[|turns| - 1].book, Members(turns[|turns| - 1].asked), s.network);
    ShortlistIsPlaced(s, bs, turns, seeds, tokens);
  }

  ghost predicate NamedAmong(network: Network, asked: seq<Node>, n: Node) {
    exists f :: f in asked && network(f).Some? && n in network(f).value.nodes
  }

  /** The shortlist has every seed and everyone that an asked node named, and
      nobody else. */
  ghost predicate FoundNodes(network: Network, seeds: seq<Node>, asked: seq<Node>, known: Shortlist) {
    && (forall n :: n in seeds ==> n.id in known)
    && (forall f, n :: f in asked && network(f).Some? && n in network(f).value.nodes ==> n.id in known)
    && (forall id :: id in known ==> known[id] in seeds || NamedAmong(network, asked, known[id]))
  }

  /** The table was offered exactly the nodes whose answer counted and those that
      joined the shortlist. `bare` says whether an answer without nodes counts. */
  ghost predicate OfferedNodes(network: Network, bare: bool, seeds: seq<Node>, asked: seq<Node>, book: Book) {
    forall n :: n in book.offers <==>
      || (n in asked && network(n).Some? && (bare || network(n).value.nodes != []))
      || (n.id in book.known && n.id !in Ids(seeds) && book.known[n.id] == n)
  }

  /** Every node asked after `before` named only identifiers known by then. */
  ghost predicate NamesNobodyNew(network: Network, before: Turn, asked: seq<Node>) {
    && before.asked < asked
    && forall i, n :: |before.asked| <= i < |asked| && network(asked[i]).Some? && n in network(asked[i]).value.nodes ==>
         n.id in before.book.known
  }

  ghost predicate StopsFor(network: Network, own: NodeID, turns: seq<Turn>)
    requires turns != []
  {
    var last := turns[|turns| - 1];
    || (forall id :: id in last.book.known && id != own ==> last.book.known[id] in last.asked)
    || (|turns| >= 2 && NamesNobodyNew(network, turns[|turns| - 2], last.asked))
  }

  /** The network as a lookup reads it names the same nodes, and answers when the
      answer counts. */
  ghost predicate Reads(read: Network, network: Network, bare: bool) {
    && (forall f, n :: Says(f, n, read) <==> network(f).Some? && n in network(f).value.nodes)
    && (forall f :: read(f).Some? <==> network(f).Some? && (bare || network(f).value.nodes != []))
  }

  lemma NodesOnlyReads(network: Network)
    ensures Reads(NodesOnly(network), network, false)
  {
  }

  lemma NamedIsSaid(s: Search, network: Network, bare: bool, asked: seq<Node>, f: Node, n: Node)
    requires Reads(s.network, network, bare) && f in asked && network(f).Some? && n in network(f).value.nodes
    ensures n.id in NamedBy(Members(asked), s.network)
  {
    assert Says(f, n, s.network);
  }

  lemma SaidIsNamed(s: Search, network: Network, bare: bool, asked: seq<Node>, n: Node)
    requires Reads(s.network, network, bare) && NamedAs(n, Members(asked), s.network)
    ensures NamedAmong(network, asked, n)
  {
    var f :| f in Members(asked) && Says(f, n, s.network);
    assert f in asked;
  }

  lemma RoundsFind(s: Search, network: Network, bare: bool, turns: seq<Turn>, seeds: seq<Node>,
                   tokens: map<NodeID, Token>)
    requires Reads(s.network, network, bare)
    requires s.Rounds(turns) && s.Starts(turns[0], seeds, tokens)
    ensures FoundNodes(network, seeds, turns[|turns| - 1].asked, turns[|turns| - 1].book.known)
  {
    var asked, known := turns[|turns| - 1].asked, turns[|turns| - 1].book.known;
    LookupLearns(s, turns, seeds, tokens);
    LearnedIsFound(s, network, bare, seeds, asked, known);
  }

  lemma LearnedIsFound(s: Search, network: Network, bare: bool, seeds: seq<Node>, asked: seq<Node>, known: Shortlist)
    requires Reads(s.network, network, bare)
    requires known.Keys == Ids(seeds) + NamedBy(Members(asked), s.network)
    requires forall id :: id in known ==> known[id] in seeds || NamedAs(known[id], Members(asked), s.network)
    ensures FoundNodes(network, seeds, asked, known)
  {
    forall n | n in seeds
      ensures n.id in known
    {
      assert n.id in Ids(seeds);
    }
    forall f, n | f in asked && network(f).Some? && n in network(f).value.nodes
      ensures n.id in known
    {
      NamedIsSaid(s, network, bare, asked, f, n);
    }
    forall id | id in known && known[id] !in seeds
      ensures NamedAmong(network, asked, known[id])
    {
      SaidIsNamed(s, network, bare, asked, known[id]);
    }
  }

  lemma RoundsOffer(s: Search, network: Network, bare: bool, turns: seq<Turn>, seeds: seq<Node>,
                    tokens: map<NodeID, Token>)
    requires Reads(s.network, network, bare)
    requires s.Rounds(turns) && s.Starts(turns[0], seeds, tokens)
    ensures OfferedNodes(network, bare, seeds, turns[|turns| - 1].asked, turns[|turns| - 1].book)
  {
    LookupOffers(s, turns, seeds, tokens);
  }

  lemma QuietNamesNobody(s: Search, network: Network, bare: bool, before: Turn, last: Turn)
    requires Reads(s.network, network, bare) && before.asked < last.asked
    requires NamedBy(Members(Candidates(before, last)), s.network) <= before.book.known.Keys
    ensures NamesNobodyNew(network, before, last.asked)
  {
    var c := Candidates(before, last);
    forall i, n | |before.asked| <= i < |last.asked| && network(last.asked[i]).Some?
                  && n in network(last.asked[i]).value.nodes
      ensures n.id in before.book.known
    {
      assert last.asked[i] == c[i - |before.asked|];
      NamedIsSaid(s, network, bare, c, last.asked[i], n);
    }
  }

  lemma RoundsStop(s: Search, network: Network, bare: bool, turns: seq<Turn>)
    requires Reads(s.network, network, bare)
    requires s.Rounds(turns) && turns[0].asked == [] && Keyed(turns[0].book.known) && s.Ended(turns)
    ensures StopsFor(network, s.own, turns)
  {
    LookupStops(s, turns);
    if LastNamesNobodyNew(s, turns) {
      QuietNamesNobody(s, network, bare, turns[|turns| - 2], turns[|turns| - 1]);
    }
  }

  /** `find_node` fails on a reply without nodes, and reads nothing else. */
  function NodesOnly(network: Network): Network {
    n => match network(n)
      case None => Bytes.None
      case Some(r) => if r.nodes == [] then Bytes.None else Bytes.Some(Reply(r.nodes, [], ""))
  }

  /** `iterativeLookup`. */
  method IterativeLookup(table: RoutingTable, target: NodeID, network: Network)
    returns (result: seq<Node>, ghost seeds: seq<Node>, ghost turns: seq<Turn>)
    requires table.Valid()
    modifies table.buckets
    ensures table.Valid()
    ensures Nearest(old(table.buckets[..]), target, ALPHA, seeds)
    ensures seeds == [] ==> result == [] && table.buckets[..] == old(table.buckets[..])
    ensures var s := Search(table.own, target, NodesOnly(network));
            seeds != [] ==>
              && s.Rounds(turns) && s.Starts(turns[0], seeds, map[]) && s.Ended(turns)
              && Outcome(s, old(table.buckets[..]), table.buckets[..], turns)
              && FoundNodes(network, seeds, turns[|turns| - 1].asked, turns[|turns| - 1].book.known)
              && OfferedNodes(network, false, seeds, turns[|turns| - 1].asked, turns[|turns| - 1].book)
              && StopsFor(network, table.own, turns)
              && NearestOf(turns[|turns| - 1].book.known, target, BUCKET_SIZE, result)
  {
    var first := table.Closest(target, ALPHA);
    seeds := first;
    if |first| == 0 {
      return [], seeds, [];
    }
    var s := Search(table.own, target, NodesOnly(network));
    var book;
    book, turns := AskRounds(table, s, first, map[]);
    RoundsOutcome(s, old(table.buckets[..]), turns, first, map[]);
    NodesOnlyReads(network);
    RoundsFind(s, network, false, turns, first, map[]);
    RoundsOffer(s, network, false, turns, first, map[]);
    RoundsStop(s, network, false, turns);
    result := BestOf(book.known, target);
  }

  /** What `GetPeers` returns and remembers: each peer named by an asked node
      once, and the newest token of every asked node that gave one. */
  ghost predicate PeersOutcome(s: Search, asked: seq<Node>, peers: seq<Peer>, tokens: map<NodeID, Token>,
                               tokens': map<NodeID, Token>) {
    && Distinct(peers)
    && (forall p :: p in peers <==> ToldBy(p, Members(asked), s.network))
    && tokens'.Keys == tokens.Keys + Granters(Members(asked), s.network)
    && (forall f :: f in asked && Grants(f, s.network) ==> tokens'[f.id] == s.network(f).value.token)
    && (forall id :: id in tokens && id !in Granters(Members(asked), s.network) ==> tokens'[id] == tokens[id])
  }

  lemma RoundsPeers(s: Search, turns: seq<Turn>, seeds: seq<Node>, tokens: map<NodeID, Token>)
    requires s.Rounds(turns) && s.Starts(turns[0], seeds, tokens)
    ensures var last := turns[|turns| - 1];
            PeersOutcome(s, last.asked, last.book.peers, tokens, last.book.tokens)
  {
    var last := turns[|turns| - 1];
    RoundsHear(s, turns);
    HeardParts(turns[0].book, last.book, Members(last.asked), s.network);
  }

  /** `GetPeers`, with the tokens remembered from earlier lookups. */
  method GetPeers(table: RoutingTable, infoHash: NodeID, network: Network, tokens: map<NodeID, Token>)
    returns (peers: seq<Peer>, tokens': map<NodeID, Token>, ghost seeds: seq<Node>, ghost turns: seq<Turn>)
    requires table.Valid()
    modifies table.buckets
    ensures table.Valid()
    ensures Nearest(old(table.buckets[..]), infoHash, ALPHA, seeds)
    ensures seeds == [] ==> peers == [] && tokens' == tokens && table.buckets[..] == old(table.buckets[..])
    ensures var s := Search(table.own, infoHash, network);
            seeds != [] ==>
              && s.Rounds(turns) && s.Starts(turns[0], seeds, tokens) && s.Ended(turns)
              && Outcome(s, old(table.buckets[..]), table.buckets[..], turns)
              && FoundNodes(network, seeds, turns[|turns| - 1].asked, turns[|turns| - 1].book.known)
              && OfferedNodes(network, true, seeds, turns[|turns| - 1].asked, turns[|turns| - 1].book)
              && StopsFor(network, table.own, turns)
              && PeersOutcome(s, turns[|turns| - 1].asked, peers, tokens, tokens')
  {
    var first := table.Closest(infoHash, ALPHA);
    seeds := first;
    if |first| == 0 {
      return [], tokens, seeds, [];
    }
    var s := Search(table.own, infoHash, network);
    var book;
    book, turns := AskRounds(table, s, first, tokens);
    RoundsOutcome(s, old(table.buckets[..]), turns, first, tokens);
    RoundsFind(s, network, true, turns, first, tokens);
    RoundsOffer(s, network, true, turns, first, tokens);
    RoundsStop(s, network, true, turns);
    RoundsPeers(s, turns, first, tokens);
    peers, tokens' := book.peers, book.tokens;
  }
}
