/** Downloading one piece block by block: the messages of a peer are copied into
    the piece buffer until as many blocks as were requested have arrived. */
module BlockAssembly {
  import opened Bytes
  import FiniteSets
  import opened TorrentLayout

  datatype Message =
    | KeepAlive
    | Other
    | Choke
    | Malformed
    | Block(index: nat, begin: nat, data: ByteString)

  datatype Outcome =
    | Assembled(data: ByteString)
    | ConnectionLost
    | BadMessage
    | WrongPiece
    | BlockOverflows
    | Choked
    | RequestsFailed

  /** What the loop makes of the messages still to come. */
  function Collect(index: nat, buf: ByteString, received: nat, numBlocks: nat, messages: seq<Message>): Outcome
    decreases |messages|
  {
    if received >= numBlocks then Assembled(buf)
    else if messages == [] then ConnectionLost
    else
      match messages[0]
      case KeepAlive => Collect(index, buf, received, numBlocks, messages[1..])
      case Other => Collect(index, buf, received, numBlocks, messages[1..])
      case Choke => Choked
      case Malformed => BadMessage
      case Block(i, begin, data) =>
        if i != index then WrongPiece
        else if begin + |data| > |buf| then BlockOverflows
        else Collect(index, Overwrite(buf, begin, data), received + 1, numBlocks, messages[1..])
  }

  function Zeros(n: nat): ByteString {
    seq(n, _ => 0)
  }

  /** `downloadBlocks`, with the peer's messages as a sequence that ends when the
      connection does. The requests go out meanwhile; `requestsSent` says whether
      all of them did, which is looked at only when every block is in. */
  method DownloadBlocks(index: nat, pieceLength: nat, messages: seq<Message>, requestsSent: bool) returns (r: Outcome)
    ensures var collected := Collect(index, Zeros(pieceLength), 0, BlockCount(pieceLength), messages);
            r == if collected.Assembled? && !requestsSent then RequestsFailed else collected
  {
    var buf := Zeros(pieceLength);
    var numBlocks := pieceLength / BLOCK_SIZE;
    if pieceLength % BLOCK_SIZE != 0 {
      numBlocks := numBlocks + 1;
    }
    var received, m := 0, 0;
    assert messages[0..] == messages;
    while received < numBlocks
      invariant m <= |messages|
      invariant Collect(index, buf, received, numBlocks, messages[m..]) ==
                Collect(index, Zeros(pieceLength), 0, numBlocks, messages)
      decreases |messages| - m
    {
      if m == |messages| {
        return ConnectionLost;
      }
      var message := messages[m];
      assert messages[m..][1..] == messages[m + 1..];
      m := m + 1;
      match message {
        case KeepAlive =>
        case Other =>
        case Choke => return Choked;
        case Malformed => return BadMessage;
        case Block(i, begin, data) =>
          if i != index {
            return WrongPiece;
          }
          if begin + |data| > |buf| {
            return BlockOverflows;
          }
          buf := Overwrite(buf, begin, data);
          received := received + 1;
      }
    }
    if !requestsSent {
      return RequestsFailed;
    }
    return Assembled(buf);
  }

  /** Every request in `left` is answered exactly once, in any order, with other
      messages in between. */
  ghost predicate Answers(index: nat, piece: ByteString, messages: seq<Message>, left: set<nat>)
    decreases |messages|
  {
    if messages == [] then left == {}
    else
      match messages[0]
      case KeepAlive => Answers(index, piece, messages[1..], left)
      case Other => Answers(index, piece, messages[1..], left)
      case Block(i, begin, data) =>
        var k := begin / BLOCK_SIZE;
        && i == index && k in left && k * BLOCK_SIZE == begin && begin <= |piece| && data == Chunk(piece, BLOCK_SIZE, k)
        && Answers(index, piece, messages[1..], left - {k})
      case _ => false
  }

  /** Outside the blocks still missing the buffer is the piece. */
  ghost predicate FilledBut(buf: ByteString, piece: ByteString, left: set<nat>) {
    && |buf| == |piece|
    && forall j :: 0 <= j < |piece| && j / BLOCK_SIZE !in left ==> buf[j] == piece[j]
  }

  lemma FillBlock(buf: ByteString, piece: ByteString, left: set<nat>, k: nat)
    requires FilledBut(buf, piece, left) && k * BLOCK_SIZE <= |piece|
    ensures k * BLOCK_SIZE + |Chunk(piece, BLOCK_SIZE, k)| <= |piece|
    ensures FilledBut(Overwrite(buf, k * BLOCK_SIZE, Chunk(piece, BLOCK_SIZE, k)), piece, left - {k})
  {
  }

  /** Whatever the order of the answers, the assembled buffer is the piece. */
  lemma {:induction false} AnyOrderAssembles(index: nat, piece: ByteString, buf: ByteString, messages: seq<Message>,
                                             left: set<nat>)
    requires Answers(index, piece, messages, left) && FilledBut(buf, piece, left)
    requires |left| <= BlockCount(|piece|)
    ensures Collect(index, buf, BlockCount(|piece|) - |left|, BlockCount(|piece|), messages) == Assembled(piece)
    decreases |messages|
  {
    if left == {} {
      assert buf == piece;
    } else {
      match messages[0]
      case KeepAlive => AnyOrderAssembles(index, piece, buf, messages[1..], left);
      case Other => AnyOrderAssembles(index, piece, buf, messages[1..], left);
      case Block(i, begin, data) =>
        var k := begin / BLOCK_SIZE;
        FillBlock(buf, piece, left, k);
        AnyOrderAssembles(index, piece, Overwrite(buf, begin, data), messages[1..], left - {k});
    }
  }

  /** If the peer answers each of the piece's requests once, in any order and
      between any other messages, the download yields the piece. */
  lemma AnsweredIsAssembled(index: nat, piece: ByteString, messages: seq<Message>, requested: set<nat>)
    requires forall k: nat :: k in requested <==> k < BlockCount(|piece|)
    requires Answers(index, piece, messages, requested)
    ensures Collect(index, Zeros(|piece|), 0, BlockCount(|piece|), messages) == Assembled(piece)
  {
    FiniteSets.Pigeonhole(requested, BlockCount(|piece|));
    AnyOrderAssembles(index, piece, Zeros(|piece|), messages, requested);
  }

  // ---- Counting is not covering ----

  /** Some block among the first `n` covers byte `j`. */
  ghost predicate Covers(messages: seq<Message>, n: nat, j: nat)
    decreases |messages|
  {
    && n > 0 && messages != []
    && match messages[0]
       case Block(_, begin, data) => begin <= j < begin + |data| || Covers(messages[1..], n - 1, j)
       case _ => Covers(messages[1..], n, j)
  }

  /** Every block fits the piece and carries its own bytes of it. */
  ghost predicate Honest(piece: ByteString, messages: seq<Message>) {
    forall m :: 0 <= m < |messages| && messages[m].Block? ==>
      var begin, data := messages[m].begin, messages[m].data;
      begin + |data| <= |piece| && data == piece[begin..begin + |data|]
  }

  /** Covered bytes are those of the piece, the others are what they were. */
  lemma {:induction false} CollectedByte(index: nat, piece: ByteString, buf: ByteString, received: nat, numBlocks: nat,
                                         messages: seq<Message>, j: nat)
    requires Honest(piece, messages) && |buf| == |piece| && received <= numBlocks && j < |piece|
    requires Collect(index, buf, received, numBlocks, messages).Assembled?
    ensures var data := Collect(index, buf, received, numBlocks, messages).data;
            && |data| == |piece|
            && data[j] == if Covers(messages, numBlocks - received, j) then piece[j] else buf[j]
    decreases |messages|
  {
    if received < numBlocks {
      var rest := messages[1..];
      assert forall m :: 0 <= m < |rest| ==> rest[m] == messages[m + 1];
      match messages[0]
      case KeepAlive => CollectedByte(index, piece, buf, received, numBlocks, rest, j);
      case Other => CollectedByte(index, piece, buf, received, numBlocks, rest, j);
      case Block(_, begin, data) =>
        assert data == piece[begin..begin + |data|];
        var buf' := Overwrite(buf, begin, data);
        assert buf'[j] == if begin <= j < begin + |data| then piece[j] else buf[j];
        CollectedByte(index, piece, buf', received + 1, numBlocks, rest, j);
    }
  }

  /** The loop counts blocks and never asks what they cover. From a peer whose
      blocks are all right it yields the piece exactly when the blocks it counted
      cover every nonzero byte. */
  lemma AssembledIffCovered(index: nat, piece: ByteString, messages: seq<Message>)
    requires Honest(piece, messages)
    requires Collect(index, Zeros(|piece|), 0, BlockCount(|piece|), messages).Assembled?
    ensures Collect(index, Zeros(|piece|), 0, BlockCount(|piece|), messages) == Assembled(piece)
            <==> forall j :: 0 <= j < |piece| && piece[j] != 0 ==> Covers(messages, BlockCount(|piece|), j)
  {
    var data := Collect(index, Zeros(|piece|), 0, BlockCount(|piece|), messages).data;
    forall j | 0 <= j < |piece|
      ensures |data| == |piece|
      ensures data[j] == if Covers(messages, BlockCount(|piece|), j) then piece[j] else 0
    {
      CollectedByte(index, piece, Zeros(|piece|), 0, BlockCount(|piece|), messages, j);
    }
    CollectedLength(index, Zeros(|piece|), 0, BlockCount(|piece|), messages);
    if forall j :: 0 <= j < |piece| && piece[j] != 0 ==> Covers(messages, BlockCount(|piece|), j) {
      assert data == piece;
    }
  }

  lemma {:induction false} CollectedLength(index: nat, buf: ByteString, received: nat, numBlocks: nat,
                                           messages: seq<Message>)
    requires Collect(index, buf, received, numBlocks, messages).Assembled?
    ensures |Collect(index, buf, received, numBlocks, messages).data| == |buf|
    decreases |messages|
  {
    if received < numBlocks {
      match messages[0]
      case KeepAlive => CollectedLength(index, buf, received, numBlocks, messages[1..]);
      case Other => CollectedLength(index, buf, received, numBlocks, messages[1..]);
      case Block(_, begin, data) =>
        CollectedLength(index, Overwrite(buf, begin, data), received + 1, numBlocks, messages[1..]);
    }
  }

  /** One block sent twice completes a piece of two blocks, with the other block
      still zero. Only the hash check that follows can tell. */
  lemma RepeatedBlockCompletes(index: nat, piece: ByteString)
    requires BlockCount(|piece|) == 2 && |piece| > BLOCK_SIZE
    ensures var first := Block(index, 0, Chunk(piece, BLOCK_SIZE, 0));
            Collect(index, Zeros(|piece|), 0, 2, [first, first]) ==
            Assembled(Chunk(piece, BLOCK_SIZE, 0) + Zeros(|piece| - BLOCK_SIZE))
  {
    var data := Chunk(piece, BLOCK_SIZE, 0);
    var first := Block(index, 0, data);
    var once := Overwrite(Zeros(|piece|), 0, data);
    var twice := Overwrite(once, 0, data);
    var two := [first, first];
    assert two[1..] == [first] && [first][1..] == [];
    assert Collect(index, twice, 2, 2, []) == Assembled(twice);
    assert Collect(index, once, 1, 2, [first]) == Assembled(twice);
    assert twice == data + Zeros(|piece| - BLOCK_SIZE);
  }

  // ---- Which message ends the download ----

  /** The loop goes on after this message. */
  predicate Passes(index: nat, n: nat, m: Message) {
    match m
    case Choke => false
    case Malformed => false
    case Block(i, begin, data) => i == index && begin + |data| <= n
    case _ => true
  }

  /** How many blocks are among the first `m` messages. */
  function BlocksIn(messages: seq<Message>, m: nat): nat
    requires m <= |messages|
  {
    if m == 0 then 0 else BlocksIn(messages[1..], m - 1) + if messages[0].Block? then 1 else 0
  }

  /** All of the first `m` messages pass. */
  ghost predicate AllPass(index: nat, n: nat, messages: seq<Message>, m: nat)
    requires m <= |messages|
  {
    forall k :: 0 <= k < m ==> Passes(index, n, messages[k])
  }

  lemma BlocksAgain(messages: seq<Message>, m: nat)
    requires 0 < m <= |messages|
    ensures BlocksIn(messages, m) == BlocksIn(messages[1..], m - 1) + if messages[0].Block? then 1 else 0
  {
  }

  /** After `m` messages that pass, with blocks still missing, the outcome is that
      of the next one if it does not pass, and a lost connection if there is none. */
  lemma {:induction false} EndsAt(index: nat, buf: ByteString, received: nat, numBlocks: nat,
                                  messages: seq<Message>, m: nat)
    requires m <= |messages| && AllPass(index, |buf|, messages, m)
    requires received + BlocksIn(messages, m) < numBlocks
    ensures var r := Collect(index, buf, received, numBlocks, messages);
            && (m == |messages| ==> r == ConnectionLost)
            && (m < |messages| && !Passes(index, |buf|, messages[m]) ==>
                  r == (match messages[m]
                        case Choke => Choked
                        case Malformed => BadMessage
                        case Block(i, _, _) => if i != index then WrongPiece else BlockOverflows
                        case _ => r))
    decreases |messages|
  {
    if m > 0 {
      var rest := messages[1..];
      assert forall k :: 0 <= k < m - 1 ==> rest[k] == messages[k + 1];
      assert Passes(index, |buf|, messages[0]);
      BlocksAgain(messages, m);
      match messages[0]
      case KeepAlive => EndsAt(index, buf, received, numBlocks, rest, m - 1);
      case Other => EndsAt(index, buf, received, numBlocks, rest, m - 1);
      case Block(_, begin, data) =>
        EndsAt(index, Overwrite(buf, begin, data), received + 1, numBlocks, rest, m - 1);
    }
  }

  /** With the last block after `m` messages that pass, the piece is assembled. */
  lemma {:induction false} CompletesAt(index: nat, buf: ByteString, received: nat, numBlocks: nat,
                                       messages: seq<Message>, m: nat)
    requires m <= |messages| && AllPass(index, |buf|, messages, m)
    requires received + BlocksIn(messages, m) >= numBlocks
    ensures Collect(index, buf, received, numBlocks, messages).Assembled?
    decreases |messages|
  {
    if m > 0 && received < numBlocks {
      var rest := messages[1..];
      assert forall k :: 0 <= k < m - 1 ==> rest[k] == messages[k + 1];
      assert Passes(index, |buf|, messages[0]);
      BlocksAgain(messages, m);
      match messages[0]
      case KeepAlive => CompletesAt(index, buf, received, numBlocks, rest, m - 1);
      case Other => CompletesAt(index, buf, received, numBlocks, rest, m - 1);
      case Block(_, begin, data) =>
        CompletesAt(index, Overwrite(buf, begin, data), received + 1, numBlocks, rest, m - 1);
    }
  }
}
