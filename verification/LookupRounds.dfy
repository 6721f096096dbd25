/** The rounds of an iterative lookup as relations between its states, and what
    they add up to. Peers are an arbitrary function from nodes to replies; the
    order of map iteration and of replies is left open. */
module LookupRounds {
  import opened NodeIds
  import opened Routing
  import Bytes

  const ALPHA: nat := 3

  type Shortlist = map<NodeID, Node>

  type Peer = string

  type Token = string

  /** The parts of a reply that the lookups read; find_node has no peers and no token. */
  datatype Reply = Reply(nodes: seq<Node>, peers: seq<Peer>, token: Token)

  /** What a node answers; none when it errs or does not answer. */
  type Network = Node -> Bytes.Option<Reply>

  /** What a lookup has gathered: the shortlist, the nodes offered to the routing
      table in order, the peers in order of arrival, and the tokens. */
  datatype Book = Book(known: Shortlist, offers: seq<Node>, peers: seq<Peer>, tokens: map<NodeID, Token>)

  ghost predicate Keyed(m: Shortlist) {
    forall id :: id in m ==> m[id].id == id
  }

  ghost function Members(nodes: seq<Node>): set<Node> {
    set n | n in nodes
  }

  /** The `n` nearest nodes of the shortlist. */
  ghost predicate NearestOf(m: Shortlist, target: NodeID, n: nat, r: seq<Node>) {
    && StrictlySorted(r, target)
    && |r| == (if |m| > n then n else |m|)
    && (forall x :: x in r ==> x in m.Values)
    && (forall x, y :: x in r && y in m.Values && y !in r ==> Distance(x, target) < Distance(y, target))
  }

  // ---- What hearing from some nodes does ----

  ghost predicate Says(f: Node, n: Node, network: Network) {
    network(f).Some? && n in network(f).value.nodes
  }

  ghost predicate Tells(f: Node, p: Peer, network: Network) {
    network(f).Some? && p in network(f).value.peers
  }

  ghost predicate Grants(f: Node, network: Network) {
    network(f).Some? && network(f).value.token != ""
  }

  ghost function NamedBy(from: set<Node>, network: Network): set<NodeID> {
    set f, n | f in from && network(f).Some? && n in network(f).value.nodes :: n.id
  }

  ghost predicate NamedAs(n: Node, from: set<Node>, network: Network) {
    exists f :: f in from && Says(f, n, network)
  }

  ghost predicate ToldBy(p: Peer, from: set<Node>, network: Network) {
    exists f :: f in from && Tells(f, p, network)
  }

  ghost function Granters(from: set<Node>, network: Network): set<NodeID> {
    set f | f in from && Grants(f, network) :: f.id
  }

  /** The shortlist gains exactly the named identifiers and keeps its entries. */
  ghost predicate LearnsNodes(b: Book, b': Book, from: set<Node>, network: Network) {
    && Keyed(b'.known)
    && b'.known.Keys == b.known.Keys + NamedBy(from, network)
    && (forall id :: id in b.known ==> b'.known[id] == b.known[id])
    && (forall id :: id in b'.known && id !in b.known ==> NamedAs(b'.known[id], from, network))
  }

  ghost predicate Gained(b: Book, b': Book, n: Node) {
    n.id in b'.known && n.id !in b.known && b'.known[n.id] == n
  }

  /** The table is offered exactly the nodes that answered and those gained. */
  ghost predicate OffersNodes(b: Book, b': Book, from: set<Node>, network: Network) {
    && b.offers <= b'.offers
    && forall n :: n in b'.offers <==> n in b.offers || (n in from && network(n).Some?) || Gained(b, b', n)
  }

  ghost predicate Distinct(ps: seq<Peer>) {
    forall i, j :: 0 <= i < j < |ps| ==> ps[i] != ps[j]
  }

  ghost predicate HearsPeers(b: Book, b': Book, from: set<Node>, network: Network) {
    && b.peers <= b'.peers
    && (Distinct(b.peers) ==> Distinct(b'.peers))
    && forall p :: p in b'.peers <==> p in b.peers || ToldBy(p, from, network)
  }

  ghost predicate KeepsTokens(b: Book, b': Book, from: set<Node>, network: Network) {
    && b'.tokens.Keys == b.tokens.Keys + Granters(from, network)
    && (forall f :: f in from && Grants(f, network) ==> b'.tokens[f.id] == network(f).value.token)
    && (forall id :: id in b.tokens && id !in Granters(from, network) ==> b'.tokens[id] == b.tokens[id])
  }

  /** The four things a lookup takes from replies. */
  datatype Aspect = Nodes | Offers | Peers | Tokens

  ghost predicate HeardOf(a: Aspect, b: Book, b': Book, from: set<Node>, network: Network) {
    match a
    case Nodes => LearnsNodes(b, b', from, network)
    case Offers => OffersNodes(b, b', from, network)
    case Peers => HearsPeers(b, b', from, network)
    case Tokens => KeepsTokens(b, b', from, network)
  }

  ghost predicate Heard(b: Book, b': Book, from: set<Node>, network: Network) {
    forall a: Aspect :: HeardOf(a, b, b', from, network)
  }

  lemma HeardParts(b: Book, b': Book, from: set<Node>, network: Network)
    ensures Heard(b, b', from, network) <==>
            && LearnsNodes(b, b', from, network)
            && OffersNodes(b, b', from, network)
            && HearsPeers(b, b', from, network)
            && KeepsTokens(b, b', from, network)
  {
    if Heard(b, b', from, network) {
      assert HeardOf(Nodes, b, b', from, network) && HeardOf(Offers, b, b', from, network);
      assert HeardOf(Peers, b, b', from, network) && HeardOf(Tokens, b, b', from, network);
    }
  }

  lemma HeardNobody(b: Book, network: Network)
    requires Keyed(b.known)
    ensures Heard(b, b, {}, network)
  {
  }

  lemma NamedByBoth(s: set<Node>, t: set<Node>, network: Network)
    ensures NamedBy(s + t, network) == NamedBy(s, network) + NamedBy(t, network)
    ensures Granters(s + t, network) == Granters(s, network) + Granters(t, network)
  {
  }

  lemma NamedByMore(n: Node, s: set<Node>, u: set<Node>, network: Network)
    requires NamedAs(n, s, network) && s <= u
    ensures NamedAs(n, u, network)
  {
    var f :| f in s && Says(f, n, network);
    assert f in u;
  }

  lemma LearnsTrans(b: Book, b1: Book, b2: Book, s: set<Node>, t: set<Node>, network: Network)
    requires LearnsNodes(b, b1, s, network) && LearnsNodes(b1, b2, t, network)
    ensures LearnsNodes(b, b2, s + t, network)
  {
    NamedByBoth(s, t, network);
    assert b2.known.Keys == b.known.Keys + NamedBy(s + t, network);
    forall id | id in b2.known && id !in b.known
      ensures NamedAs(b2.known[id], s + t, network)
    {
      NamedByMore(b2.known[id], if id in b1.known then s else t, s + t, network);
    }
    assert forall id :: id in b.known ==> id in b1.known && b1.known[id] == b.known[id];
  }

  lemma OffersTrans(b: Book, b1: Book, b2: Book, s: set<Node>, t: set<Node>, network: Network)
    requires LearnsNodes(b, b1, s, network) && LearnsNodes(b1, b2, t, network)
    requires OffersNodes(b, b1, s, network) && OffersNodes(b1, b2, t, network)
    ensures OffersNodes(b, b2, s + t, network)
  {
    assert forall n :: Gained(b, b2, n) <==> Gained(b, b1, n) || Gained(b1, b2, n);
  }

  lemma PeersTrans(b: Book, b1: Book, b2: Book, s: set<Node>, t: set<Node>, network: Network)
    requires HearsPeers(b, b1, s, network) && HearsPeers(b1, b2, t, network)
    ensures HearsPeers(b, b2, s + t, network)
  {
    forall p
      ensures ToldBy(p, s + t, network) <==> ToldBy(p, s, network) || ToldBy(p, t, network)
    {
      if ToldBy(p, s, network) {
        var f :| f in s && Tells(f, p, network);
        assert f in s + t;
      }
      if ToldBy(p, t, network) {
        var f :| f in t && Tells(f, p, network);
        assert f in s + t;
      }
    }
  }

  lemma TokensTrans(b: Book, b1: Book, b2: Book, s: set<Node>, t: set<Node>, network: Network)
    requires forall f, g :: f in s && g in t ==> f.id != g.id
    requires KeepsTokens(b, b1, s, network) && KeepsTokens(b1, b2, t, network)
    ensures KeepsTokens(b, b2, s + t, network)
  {
    NamedByBoth(s, t, network);
    forall f | f in s && Grants(f, network)
      ensures b2.tokens[f.id] == network(f).value.token
    {
      assert f.id in Granters(s, network);
      assert f.id !in Granters(t, network);
    }
  }

  /** Hearing from some nodes and then from others is hearing from all of them. */
  lemma HeardTrans(b: Book, b1: Book, b2: Book, s: set<Node>, t: set<Node>, network: Network)
    requires forall f, g :: f in s && g in t ==> f.id != g.id
    requires Heard(b, b1, s, network) && Heard(b1, b2, t, network)
    ensures Heard(b, b2, s + t, network)
  {
    HeardParts(b, b1, s, network);
    HeardParts(b1, b2, t, network);
    HeardParts(b, b2, s + t, network);
    LearnsTrans(b, b1, b2, s, t, network);
    OffersTrans(b, b1, b2, s, t, network);
    PeersTrans(b, b1, b2, s, t, network);
    TokensTrans(b, b1, b2, s, t, network);
  }

  // ---- Rounds and whole lookups ----

  /** Where a lookup stands between rounds: the nodes asked so far, in order, and
      what it has gathered. */
  datatype Turn = Turn(asked: seq<Node>, book: Book)

  datatype Search = Search(own: NodeID, target: NodeID, network: Network) {
    /** The shortlisted nodes that may still be asked. */
    ghost function Unasked(t: Turn): Shortlist {
      map id | id in t.book.known && id != own && id !in Ids(t.asked) :: t.book.known[id]
    }

    /** One round: at most three nodes are asked, the nearest of those not asked
        before, and all their replies are taken. */
    ghost predicate Round(t: Turn, t': Turn) {
      && t.asked < t'.asked
      && var c := Candidates(t, t');
         && NearestOf(Unasked(t), target, ALPHA, c)
         && Heard(t.book, t'.book, Members(c), network)
    }

    ghost predicate Starts(t: Turn, seeds: seq<Node>, tokens: map<NodeID, Token>) {
      && t.asked == []
      && t.book == Book(t.book.known, [], [], tokens)
      && Keyed(t.book.known) && t.book.known.Keys == Ids(seeds)
      && forall id :: id in t.book.known ==> t.book.known[id] in seeds
    }

    /** Rounds follow each other as long as the last one added an identifier. */
    ghost predicate Rounds(turns: seq<Turn>)
      decreases |turns|
    {
      && turns != []
      && var n := |turns| - 1;
         && (n > 0 ==> Rounds(turns[..n]) && Round(turns[n - 1], turns[n]))
         && (n > 1 ==> turns[n - 2].book.known.Keys != turns[n - 1].book.known.Keys)
    }

    /** Why it stops: nobody is left to ask, or the last round named only known
        identifiers. */
    ghost predicate Ended(turns: seq<Turn>)
      requires turns != []
    {
      var n := |turns| - 1;
      || Unasked(turns[n]) == map[]
      || (n > 0 && turns[n].book.known.Keys == turns[n - 1].book.known.Keys)
    }

    /** No identifier twice, never the own one, and only shortlisted nodes. */
    ghost predicate AskedOnce(t: Turn) {
      && DistinctIds(t.asked)
      && forall n :: n in t.asked ==> n.id != own && n.id in t.book.known && t.book.known[n.id] == n
    }
  }

  lemma StrictIsDistinct(nodes: seq<Node>, target: NodeID)
    requires StrictlySorted(nodes, target)
    ensures DistinctIds(nodes)
  {
    forall i, j | 0 <= i < j < |nodes|
      ensures nodes[i].id != nodes[j].id
    {
      assert Distance(nodes[i], target) < Distance(nodes[j], target);
    }
  }

  /** The candidates of a round are new, shortlisted, and not the node itself. */
  lemma CandidateIsNew(s: Search, t: Turn, c: seq<Node>, g: Node)
    requires Keyed(t.book.known) && NearestOf(s.Unasked(t), s.target, ALPHA, c) && g in c
    ensures g.id != s.own && g.id !in Ids(t.asked) && g.id in t.book.known && t.book.known[g.id] == g
  {
    assert g in s.Unasked(t).Values;
  }

  lemma DistinctAppend(a: seq<Node>, c: seq<Node>)
    requires DistinctIds(a) && DistinctIds(c)
    requires forall g :: g in c ==> g.id !in Ids(a)
    ensures DistinctIds(a + c)
  {
    forall i, j | 0 <= i < j < |a + c|
      ensures (a + c)[i].id != (a + c)[j].id
    {
      if i < |a| <= j {
        assert a[i] in a && a[i].id in Ids(a) && c[j - |a|] in c;
      }
    }
  }

  /** The nodes asked in a round. */
  ghost function Candidates(t: Turn, t': Turn): seq<Node>
    requires t.asked <= t'.asked
  {
    t'.asked[|t.asked|..]
  }

  lemma RoundParts(s: Search, t: Turn, t': Turn)
    requires s.Round(t, t')
    ensures t'.asked == t.asked + Candidates(t, t')
    ensures Members(t'.asked) == Members(t.asked) + Members(Candidates(t, t'))
    ensures NearestOf(s.Unasked(t), s.target, ALPHA, Candidates(t, t'))
    ensures DistinctIds(Candidates(t, t'))
    ensures Heard(t.book, t'.book, Members(Candidates(t, t')), s.network)
  {
    StrictIsDistinct(Candidates(t, t'), s.target);
  }

  lemma HeardKeeps(b: Book, b': Book, from: set<Node>, network: Network)
    requires Heard(b, b', from, network)
    ensures Keyed(b'.known)
    ensures forall id :: id in b.known ==> id in b'.known && b'.known[id] == b.known[id]
    ensures NamedBy(from, network) <= b'.known.Keys
  {
    HeardParts(b, b', from, network);
  }

  lemma AskedMore(s: Search, t: Turn, t': Turn, c: seq<Node>)
    requires s.AskedOnce(t) && t'.asked == t.asked + c && DistinctIds(c)
    requires forall g :: g in c ==>
               g.id != s.own && g.id !in Ids(t.asked) && g.id in t.book.known && t.book.known[g.id] == g
    requires forall id :: id in t.book.known ==> id in t'.book.known && t'.book.known[id] == t.book.known[id]
    ensures s.AskedOnce(t')
  {
    DistinctAppend(t.asked, c);
  }

  lemma RoundHears(s: Search, b: Book, t: Turn, t': Turn)
    requires s.AskedOnce(t) && Heard(b, t.book, Members(t.asked), s.network) && s.Round(t, t')
    ensures s.AskedOnce(t') && Heard(b, t'.book, Members(t'.asked), s.network)
  {
    var c := Candidates(t, t');
    RoundParts(s, t, t');
    HeardKeeps(b, t.book, Members(t.asked), s.network);
    HeardKeeps(t.book, t'.book, Members(c), s.network);
    forall g | g in c
      ensures g.id != s.own && g.id !in Ids(t.asked) && g.id in t.book.known && t.book.known[g.id] == g
    {
      CandidateIsNew(s, t, c, g);
    }
    AskedMore(s, t, t', c);
    forall f, g | f in Members(t.asked) && g in Members(c)
      ensures f.id != g.id
    {
      assert f.id in Ids(t.asked);
    }
    HeardTrans(b, t.book, t'.book, Members(t.asked), Members(c), s.network);
  }

  lemma RoundsInit(s: Search, turns: seq<Turn>)
    requires s.Rounds(turns) && |turns| > 1
    ensures s.Rounds(turns[..|turns| - 1])
    ensures s.Round(turns[|turns| - 2], turns[|turns| - 1])
  {
  }

  /** A lookup hears, over all its rounds, from exactly the nodes it asked. */
  lemma {:induction false} RoundsHear(s: Search, turns: seq<Turn>)
    requires s.Rounds(turns) && turns[0].asked == [] && Keyed(turns[0].book.known)
    ensures var last := turns[|turns| - 1];
            s.AskedOnce(last) && Heard(turns[0].book, last.book, Members(last.asked), s.network)
  {
    var n := |turns| - 1;
    if n == 0 {
      assert Members(turns[0].asked) == {};
      HeardNobody(turns[0].book, s.network);
    } else {
      RoundsInit(s, turns);
      RoundsHear(s, turns[..n]);
      RoundHears(s, turns[0].book, turns[n - 1], turns[n]);
    }
  }

  /** The shortlist of a lookup is exactly the seeds and what the nodes it asked
      have named. */
  lemma LookupLearns(s: Search, turns: seq<Turn>, seeds: seq<Node>, tokens: map<NodeID, Token>)
    requires s.Rounds(turns) && s.Starts(turns[0], seeds, tokens)
    ensures var last := turns[|turns| - 1];
            && last.book.known.Keys == Ids(seeds) + NamedBy(Members(last.asked), s.network)
            && (forall id :: id in last.book.known ==>
                  last.book.known[id] in seeds || NamedAs(last.book.known[id], Members(last.asked), s.network))
  {
    var first, last := turns[0].book, turns[|turns| - 1];
    RoundsHear(s, turns);
    HeardParts(first, last.book, Members(last.asked), s.network);
    assert forall id :: id in first.known ==> last.book.known[id] == first.known[id] && first.known[id] in seeds;
  }

  /** The table is offered exactly the asked nodes that answered and those that
      joined the shortlist after the seeds. */
  lemma LookupOffers(s: Search, turns: seq<Turn>, seeds: seq<Node>, tokens: map<NodeID, Token>)
    requires s.Rounds(turns) && s.Starts(turns[0], seeds, tokens)
    ensures var last := turns[|turns| - 1];
            forall n :: n in last.book.offers <==>
              || (n in last.asked && s.network(n).Some?)
              || (n.id in last.book.known && n.id !in Ids(seeds) && last.book.known[n.id] == n)
  {
    var first, last := turns[0].book, turns[|turns| - 1];
    RoundsHear(s, turns);
    HeardParts(first, last.book, Members(last.asked), s.network);
    assert OffersNodes(first, last.book, Members(last.asked), s.network);
  }

  lemma NobodyLeft(s: Search, t: Turn)
    requires s.AskedOnce(t) && s.Unasked(t) == map[] && Keyed(t.book.known)
    ensures forall id :: id in t.book.known && id != s.own ==> t.book.known[id] in t.asked
  {
    forall id | id in t.book.known && id != s.own
      ensures t.book.known[id] in t.asked
    {
      assert id !in s.Unasked(t);
      var n :| n in t.asked && n.id == id;
    }
  }

  lemma QuietRound(s: Search, turns: seq<Turn>)
    requires s.Rounds(turns) && |turns| > 1
    requires turns[|turns| - 1].book.known.Keys == turns[|turns| - 2].book.known.Keys
    ensures LastNamesNobodyNew(s, turns)
  {
    var t, t' := turns[|turns| - 2], turns[|turns| - 1];
    RoundsInit(s, turns);
    RoundParts(s, t, t');
    HeardKeeps(t.book, t'.book, Members(Candidates(t, t')), s.network);
  }

  /** Why a lookup stops: it has asked everyone on the shortlist but itself, or
      its last round named nobody new. */
  lemma LookupStops(s: Search, turns: seq<Turn>)
    requires s.Rounds(turns) && turns[0].asked == [] && Keyed(turns[0].book.known) && s.Ended(turns)
    ensures var last := turns[|turns| - 1];
            || (forall id :: id in last.book.known && id != s.own ==> last.book.known[id] in last.asked)
            || LastNamesNobodyNew(s, turns)
  {
    var last := turns[|turns| - 1];
    RoundsHear(s, turns);
    if s.Unasked(last) == map[] {
      HeardKeeps(turns[0].book, last.book, Members(last.asked), s.network);
      NobodyLeft(s, last);
    } else {
      QuietRound(s, turns);
    }
  }

  /** The last round asked somebody, and all its replies named only identifiers
      that were shortlisted before it. */
  ghost predicate LastNamesNobodyNew(s: Search, turns: seq<Turn>) {
    && |turns| >= 2
    && var before, last := turns[|turns| - 2], turns[|turns| - 1];
       && before.asked < last.asked
       && NamedBy(Members(Candidates(before, last)), s.network) <= before.book.known.Keys
  }

  // ---- The table ----

  /** The table after the nodes were offered in order. */
  function AllInserted(own: NodeID, bs: Buckets, offers: seq<Node>): (r: Buckets)
    requires |bs| == BUCKETS
    ensures |r| == BUCKETS
  {
    if offers == [] then bs
    else Inserted(own, AllInserted(own, bs, offers[..|offers| - 1]), offers[|offers| - 1]).0
  }

  /** The identifier is in the table, or cannot be: it is the own one or its
      bucket is full. */
  ghost predicate Placed(own: NodeID, bs: Buckets, id: NodeID)
    requires |bs| == BUCKETS
  {
    var b := BucketIndex(Xor(own, id));
    b < 0 || HasId(bs, id) || |bs[b]| == BUCKET_SIZE
  }

  lemma InsertPlaces(own: NodeID, bs: Buckets, n: Node)
    requires TableOk(own, bs)
    ensures TableOk(own, Inserted(own, bs, n).0) && Placed(own, Inserted(own, bs, n).0, n.id)
    ensures forall b :: 0 <= b < BUCKETS ==> |bs[b]| <= |Inserted(own, bs, n).0[b]|
    ensures forall id: NodeID :: HasId(bs, id) ==> HasId(Inserted(own, bs, n).0, id)
    ensures forall id: NodeID :: HasId(Inserted(own, bs, n).0, id) ==> HasId(bs, id) || id == n.id
  {
    InsertKeepsTable(own, bs, n);
    var b := BucketIndex(Xor(own, n.id));
    if b >= 0 {
      var bs' := Inserted(own, bs, n).0;
      if Inserted(own, bs, n).1 {
        assert n.id in Ids(bs'[b]);
      } else {
        assert BucketOk(own, bs[b], b);
      }
    }
  }

  /** Offering nodes drops nobody, adds only the offered, and places them all. */
  lemma {:induction false} OffersArePlaced(own: NodeID, bs: Buckets, offers: seq<Node>)
    requires TableOk(own, bs)
    ensures TableOk(own, AllInserted(own, bs, offers))
    ensures forall b :: 0 <= b < BUCKETS ==> |bs[b]| <= |AllInserted(own, bs, offers)[b]|
    ensures forall id: NodeID :: HasId(bs, id) ==> HasId(AllInserted(own, bs, offers), id)
    ensures forall id: NodeID :: HasId(AllInserted(own, bs, offers), id) ==> HasId(bs, id) || id in Ids(offers)
    ensures forall n :: n in offers ==> Placed(own, AllInserted(own, bs, offers), n.id)
  {
    if offers != [] {
      var k := |offers| - 1;
      var init, last := offers[..k], offers[k];
      OffersArePlaced(own, bs, init);
      var bs1, bs2 := AllInserted(own, bs, init), AllInserted(own, bs, offers);
      InsertPlaces(own, bs1, last);
      forall n | n in offers
        ensures Placed(own, bs2, n.id)
      {
        if n in init {
          assert Placed(own, bs1, n.id);
          StillPlaced(own, bs1, bs2, n.id);
        }
      }
      assert forall id :: id in Ids(init) ==> id in Ids(offers);
    }
  }

  lemma StillPlaced(own: NodeID, bs: Buckets, bs': Buckets, id: NodeID)
    requires TableOk(own, bs) && TableOk(own, bs') && Placed(own, bs, id)
    requires forall b :: 0 <= b < BUCKETS ==> |bs[b]| <= |bs'[b]|
    requires HasId(bs, id) ==> HasId(bs', id)
    ensures Placed(own, bs', id)
  {
    var b := BucketIndex(Xor(own, id));
    if b >= 0 {
      assert BucketOk(own, bs'[b], b);
    }
  }

  /** After a lookup every shortlisted node is in the table or its bucket is full,
      nobody was dropped, and every newcomer was shortlisted. */
  lemma ShortlistIsPlaced(s: Search, bs: Buckets, turns: seq<Turn>, seeds: seq<Node>, tokens: map<NodeID, Token>)
    requires TableOk(s.own, bs) && Nearest(bs, s.target, ALPHA, seeds)
    requires s.Rounds(turns) && s.Starts(turns[0], seeds, tokens)
    ensures var last := turns[|turns| - 1];
            var bs' := AllInserted(s.own, bs, last.book.offers);
            && TableOk(s.own, bs')
            && (forall id :: id in last.book.known ==> Placed(s.own, bs', id))
            && (forall id: NodeID :: HasId(bs, id) ==> HasId(bs', id))
            && (forall id: NodeID :: HasId(bs', id) ==> HasId(bs, id) || id in last.book.known)
  {
    var first, last := turns[0], turns[|turns| - 1];
    var bs' := AllInserted(s.own, bs, last.book.offers);
    RoundsHear(s, turns);
    HeardParts(first.book, last.book, Members(last.asked), s.network);
    OffersArePlaced(s.own, bs, last.book.offers);
    forall id | id in last.book.known
      ensures Placed(s.own, bs', id)
    {
      if id in first.book.known {
        var n := first.book.known[id];
        assert Contains(bs, n);
        var b :| 0 <= b < |bs| && n in bs[b];
        assert id in Ids(bs[b]);
        assert HasId(bs, id);
      } else {
        assert Gained(first.book, last.book, last.book.known[id]);
      }
    }
  }
}
