/** The piece reservation protocol as a step system.

    Any number of workers share one picker. A peer worker is two concurrent
    loops joined by a bounded queue: the sender reserves a piece, requests its
    blocks and queues the job; the reader registers queued jobs, fills them from
    incoming blocks and settles each complete one. A seed worker reserves,
    fetches and settles one piece at a time. One action of the model is one
    critical section of the picker's lock, one channel operation, or one message
    handled by a reader, so every interleaving of the goroutines is a run. */
module Reservation {
  import opened Bytes
  import TorrentLayout
  import opened PiecePicker

  datatype Config = Config(torrent: TorrentLayout.Torrent, hash: HashFunction, depth: nat) {
    ghost predicate WellFormed() {
      torrent.WellFormed()
    }

    function Pieces(): nat {
      |torrent.pieces|
    }

    ghost predicate Genuine(index: nat, data: ByteString) {
      && index < Pieces()
      && |data| == torrent.PieceLen(index)
      && hash(data) == torrent.pieces[index]
    }
  }

  datatype PieceResult = Verified(index: nat, data: ByteString) | Failed(index: nat)

  datatype Job = Job(received: nat, buf: ByteString)

  /** Where the reader of a peer worker, or the loop of a seed worker, stands. */
  datatype Phase =
    | Reading
    | Complete(piece: nat)    // all blocks in; about to ask whether it is done
    | Checked(piece: nat)     // was not done when asked; about to verify and settle
    | Sending(result: PieceResult)
    | Aborting
    | Returned
    | Left                    // bitfield unregistered

  /** `hand` is the piece between the reservation and the queue (for a seed: the
      piece being fetched); `closed` says that the sender has stopped. */
  datatype Worker = Worker(seed: bool, bitfield: Bitfield, hand: Option<nat>, queue: seq<nat>, closed: bool,
                           active: map<nat, Job>, phase: Phase) {
    predicate Over() {
      phase.Returned? || phase.Left?
    }
  }

  /** `results` is everything ever put on the results channel. */
  datatype State = State(picker: PickerState, workers: seq<Worker>, results: seq<PieceResult>)

  datatype Action =
    | Join(seed: bool, bitfield: Bitfield)
    | Reserve(w: nat, choice: Option<nat>)
    | WriteFails(w: nat)
    | Enqueue(w: nat)
    | Register(w: nat)
    | Block(w: nat, index: nat, begin: nat, data: ByteString)
    | AskDone(w: nat)
    | Settle(w: nat)
    | Send(w: nat)
    | ReaderFails(w: nat)     // read error, malformed message or choke
    | AbortActive(w: nat, piece: nat)
    | AbortQueued(w: nat)
    | Fetch(w: nat, body: Option<ByteString>)
    | Return(w: nat)
    | Leave(w: nat)

  ghost function Init(c: Config): State {
    State(Fresh(c.Pieces()), [], [])
  }

  function NewWorker(seed: bool, bitfield: Bitfield): Worker {
    Worker(seed, bitfield, None, [], false, map[], Reading)
  }

  function NewJob(c: Config, piece: nat): Job
    requires 0 <= c.torrent.PieceLen(piece)
  {
    Job(0, seq(c.torrent.PieceLen(piece), _ => 0))
  }

  // ---- Steps ----

  ghost predicate Enabled(c: Config, s: State, a: Action)
    requires c.WellFormed()
  {
    && s.picker.Valid() && |s.picker.done| == c.Pieces()
    && (a.Join? || (a.w < |s.workers| && WorkerEnabled(c, s, a, s.workers[a.w])))
  }

  ghost predicate WorkerEnabled(c: Config, s: State, a: Action, k: Worker)
    requires s.picker.Valid()
  {
    match a
    case Join(_, _) => true
    case Reserve(_, choice) =>
      && k.hand.None? && !k.closed && (k.seed ==> k.phase.Reading?)
      && s.picker.PickAllowed(k.bitfield, choice)
    case WriteFails(_) => !k.seed && k.hand.Some? && k.hand.value < |s.picker.done|
    case Enqueue(_) => !k.seed && k.hand.Some? && |k.queue| < c.depth
    case Register(_) =>
      !k.seed && k.phase.Reading? && k.queue != [] && 0 <= c.torrent.PieceLen(k.queue[0])
    case Block(_, _, _, _) => !k.seed && k.phase.Reading? && k.active != map[]
    case AskDone(_) => !k.seed && k.phase.Complete? && k.phase.piece < |s.picker.done| && k.phase.piece in k.active
    case Settle(_) => !k.seed && k.phase.Checked? && k.phase.piece < |s.picker.done| && k.phase.piece in k.active
    case Send(_) => k.phase.Sending?
    case ReaderFails(_) => !k.seed && k.phase.Reading? && k.active != map[]
    case AbortActive(_, p) => !k.seed && k.phase.Aborting? && p in k.active && p < |s.picker.done|
    case AbortQueued(_) =>
      !k.seed && k.phase.Aborting? && k.active == map[] && k.queue != [] && k.queue[0] < |s.picker.done|
    case Fetch(_, _) => k.seed && k.phase.Reading? && k.hand.Some? && k.hand.value < |s.picker.done|
    case Return(_) =>
      if k.seed then k.phase.Reading? && k.hand.None?
      else (k.phase.Reading? || k.phase.Aborting?) && k.active == map[] && k.queue == [] && k.closed
    case Leave(_) => k.phase.Returned?
  }

  ghost function Apply(c: Config, s: State, a: Action): State
    requires c.WellFormed() && Enabled(c, s, a)
  {
    if a.Join? then
      s.(picker := s.picker.AfterAddPeer(a.bitfield), workers := s.workers + [NewWorker(a.seed, a.bitfield)])
    else
      var k := s.workers[a.w];
      State(PickerAfter(c, s, a, k),
            s.workers[a.w := WorkerAfter(c, s, a, k)],
            if a.Send? then s.results + [k.phase.result] else s.results)
  }

  /** Whether the worker's finished piece passes hash verification. */
  ghost predicate Passes(c: Config, k: Worker)
    requires k.phase.Checked? && k.phase.piece in k.active
  {
    k.phase.piece < c.Pieces() && c.hash(k.active[k.phase.piece].buf) == c.torrent.pieces[k.phase.piece]
  }

  /** Whether a fetched body is accepted: right length and right hash. */
  ghost predicate FetchPasses(c: Config, piece: nat, body: Option<ByteString>) {
    body.Some? && c.Genuine(piece, body.value)
  }

  ghost function PickerAfter(c: Config, s: State, a: Action, k: Worker): PickerState
    requires s.picker.Valid() && WorkerEnabled(c, s, a, k)
  {
    match a
    case Reserve(_, choice) => s.picker.AfterPick(k.bitfield, choice)
    case WriteFails(_) => s.picker.AfterAbort(k.hand.value)
    case Settle(_) =>
      if Passes(c, k) then s.picker.AfterFinish(k.phase.piece) else s.picker.AfterAbort(k.phase.piece)
    case AbortActive(_, p) => s.picker.AfterAbort(p)
    case AbortQueued(_) => s.picker.AfterAbort(k.queue[0])
    case Fetch(_, body) =>
      if FetchPasses(c, k.hand.value, body) then s.picker.AfterFinish(k.hand.value)
      else s.picker.AfterAbort(k.hand.value)
    case Leave(_) => s.picker.AfterRemovePeer(k.bitfield)
    case _ => s.picker
  }

  /** The worker's own state after its step. The reader removes a settled job
      from its private `active` map; nothing else reads that map, so the removal
      is placed at the lock operation that gives the piece up. */
  ghost function WorkerAfter(c: Config, s: State, a: Action, k: Worker): Worker
    requires s.picker.Valid() && WorkerEnabled(c, s, a, k)
  {
    match a
    case Join(_, _) => k
    case Reserve(_, choice) =>
      if choice.Some? then k.(hand := choice)
      else if k.seed then k.(phase := Returned, closed := true)
      else k.(closed := true)
    case WriteFails(_) => k.(hand := None, closed := true)
    case Enqueue(_) => k.(hand := None, queue := k.queue + [k.hand.value])
    case Register(_) => k.(queue := k.queue[1..], active := k.active[k.queue[0] := NewJob(c, k.queue[0])])
    case Block(_, index, begin, data) => AfterBlock(c, k, index, begin, data)
    case AskDone(_) =>
      var p := k.phase.piece;
      if s.picker.done[p] then k.(phase := Reading, active := k.active - {p}) else k.(phase := Checked(p))
    case Settle(_) =>
      var p := k.phase.piece;
      k.(phase := Sending(if Passes(c, k) then Verified(p, k.active[p].buf) else Failed(p)), active := k.active - {p})
    case Send(_) => k.(phase := Reading)
    case ReaderFails(_) => k.(phase := Aborting)
    case AbortActive(_, p) => k.(active := k.active - {p})
    case AbortQueued(_) => k.(queue := k.queue[1..])
    case Fetch(_, body) =>
      var p := k.hand.value;
      k.(hand := None, phase := Sending(if FetchPasses(c, p, body) then Verified(p, body.value) else Failed(p)))
    case Return(_) => k.(phase := Returned, closed := true)
    case Leave(_) => k.(phase := Left)
  }

  /** One piece message: ignored when the piece is unknown or the block does not
      fit; otherwise copied in and counted. */
  ghost function AfterBlock(c: Config, k: Worker, index: nat, begin: nat, data: ByteString): Worker {
    if index !in k.active || begin + |data| > |k.active[index].buf| then k
    else
      var j := k.active[index];
      var j' := Job(j.received + 1, Overwrite(j.buf, begin, data));
      k.(active := k.active[index := j'],
         phase := if j'.received == TorrentLayout.BlockCount(|j.buf|) then Complete(index) else k.phase)
  }

  // ---- Counting holders and results ----

  /** What is counted per worker: reservations it holds for a piece, verified
      results for a piece it has yet to send, or a registered bitfield that has
      the piece. */
  datatype Measure = Holding | Unsent | Offering

  ghost function Weight(k: Worker, m: Measure, p: nat): nat {
    match m
    case Holding =>
      (if k.hand == Some(p) then 1 else 0) + multiset(k.queue)[p] + (if p in k.active then 1 else 0)
    case Unsent =>
      if k.phase.Sending? && k.phase.result.Verified? && k.phase.result.index == p then 1 else 0
    case Offering =>
      if !k.phase.Left? && HasPiece(k.bitfield, p) then 1 else 0
  }

  ghost function Tally(ws: seq<Worker>, m: Measure, p: nat): nat {
    if ws == [] then 0 else Weight(ws[0], m, p) + Tally(ws[1..], m, p)
  }

  ghost function Holders(s: State, p: nat): nat {
    Tally(s.workers, Holding, p)
  }

  ghost function SentFor(results: seq<PieceResult>, p: nat): nat {
    if results == [] then 0
    else (if results[0].Verified? && results[0].index == p then 1 else 0) + SentFor(results[1..], p)
  }

  /** Verified results for `p`, on the channel or about to be sent. */
  ghost function Produced(s: State, p: nat): nat {
    SentFor(s.results, p) + Tally(s.workers, Unsent, p)
  }

  lemma {:induction false} TallyAppend(ws: seq<Worker>, k: Worker, m: Measure, p: nat)
    ensures Tally(ws + [k], m, p) == Tally(ws, m, p) + Weight(k, m, p)
  {
    if ws == [] {
      assert ws + [k] == [k];
    } else {
      assert (ws + [k])[1..] == ws[1..] + [k];
      TallyAppend(ws[1..], k, m, p);
    }
  }

  lemma {:induction false} TallyUpdate(ws: seq<Worker>, w: nat, k: Worker, m: Measure, p: nat)
    requires w < |ws|
    ensures Tally(ws[w := k], m, p) == Tally(ws, m, p) - Weight(ws[w], m, p) + Weight(k, m, p)
  {
    if w == 0 {
      assert ws[w := k][1..] == ws[1..];
    } else {
      assert ws[w := k][1..] == ws[1..][w - 1 := k];
      TallyUpdate(ws[1..], w - 1, k, m, p);
    }
  }

  lemma {:induction false} TallyAtLeast(ws: seq<Worker>, w: nat, m: Measure, p: nat)
    requires w < |ws|
    ensures Weight(ws[w], m, p) <= Tally(ws, m, p)
  {
    if w > 0 {
      TallyAtLeast(ws[1..], w - 1, m, p);
    }
  }

  lemma {:induction false} TallyWitness(ws: seq<Worker>, m: Measure, p: nat) returns (w: nat)
    requires 0 < Tally(ws, m, p)
    ensures w < |ws| && 0 < Weight(ws[w], m, p)
  {
    if 0 < Weight(ws[0], m, p) {
      w := 0;
    } else {
      var v := TallyWitness(ws[1..], m, p);
      w := v + 1;
    }
  }

  lemma {:induction false} SentForAppend(results: seq<PieceResult>, r: PieceResult, p: nat)
    ensures SentFor(results + [r], p) == SentFor(results, p) + if r.Verified? && r.index == p then 1 else 0
  {
    if results == [] {
      assert results + [r] == [r];
    } else {
      assert (results + [r])[1..] == results[1..] + [r];
      SentForAppend(results[1..], r, p);
    }
  }

  // ---- What every worker keeps ----

  ghost predicate JobOk(c: Config, k: Worker, p: nat)
    requires p in k.active
  {
    && p < c.Pieces()
    && |k.active[p].buf| == c.torrent.PieceLen(p)
    && k.active[p].received <= TorrentLayout.BlockCount(|k.active[p].buf|)
    && (k.active[p].received == TorrentLayout.BlockCount(|k.active[p].buf|)
        <==> k.phase == Complete(p) || k.phase == Checked(p))
  }

  ghost predicate WorkerOk(c: Config, k: Worker) {
    && (k.hand.Some? ==> k.hand.value < c.Pieces() && !k.closed)
    && (forall p :: p in k.queue ==> p < c.Pieces())
    && |k.queue| <= c.depth
    && (forall p :: p in k.active ==> JobOk(c, k, p))
    && (k.phase.Complete? || k.phase.Checked? ==> k.phase.piece in k.active)
    && (k.phase.Sending? && k.phase.result.Verified? ==> c.Genuine(k.phase.result.index, k.phase.result.data))
    && (k.Over() ==> k.hand.None? && k.queue == [] && k.active == map[] && k.closed)
    && (k.seed ==> k.queue == [] && k.active == map[] && !k.phase.Aborting? && (k.hand.Some? ==> k.phase.Reading?))
  }

  lemma NewJobOk(c: Config, k: Worker, p: nat)
    requires c.WellFormed() && p < c.Pieces() && k.phase.Reading?
    requires p in k.active && 0 < c.torrent.PieceLen(p) && k.active[p] == NewJob(c, p)
    ensures JobOk(c, k, p)
  {
  }

  lemma SenderKeepsWorkerOk(c: Config, s: State, a: Action, k: Worker)
    requires a.Reserve? || a.WriteFails? || a.Enqueue?
    requires c.WellFormed() && s.picker.Valid() && |s.picker.done| == c.Pieces()
    requires WorkerEnabled(c, s, a, k) && WorkerOk(c, k)
    ensures WorkerOk(c, WorkerAfter(c, s, a, k))
  {
    var k' := WorkerAfter(c, s, a, k);
    assert k'.active == k.active && (k'.phase == k.phase || k'.active == map[]);
    assert forall q :: q in k'.active ==> JobOk(c, k, q);
  }

  lemma RegisterKeepsWorkerOk(c: Config, s: State, a: Action, k: Worker)
    requires a.Register?
    requires c.WellFormed() && s.picker.Valid() && |s.picker.done| == c.Pieces()
    requires WorkerEnabled(c, s, a, k) && WorkerOk(c, k)
    ensures WorkerOk(c, WorkerAfter(c, s, a, k))
  {
    var k', p := WorkerAfter(c, s, a, k), k.queue[0];
    assert p in k.queue;
    TorrentLayout.PiecesPartition(c.torrent, p, 0);
    NewJobOk(c, k', p);
    assert forall q :: q in k'.queue ==> q in k.queue;
    assert forall q :: q in k'.active && q != p ==> JobOk(c, k, q);
  }

  lemma BlockKeepsWorkerOk(c: Config, s: State, a: Action, k: Worker)
    requires a.Block?
    requires c.WellFormed() && s.picker.Valid() && |s.picker.done| == c.Pieces()
    requires WorkerEnabled(c, s, a, k) && WorkerOk(c, k)
    ensures WorkerOk(c, WorkerAfter(c, s, a, k))
  {
    var k' := WorkerAfter(c, s, a, k);
    assert forall q :: q in k'.active ==> JobOk(c, k, q);
  }

  lemma SettlingKeepsWorkerOk(c: Config, s: State, a: Action, k: Worker)
    requires a.AskDone? || a.Send? || a.Fetch?
    requires c.WellFormed() && s.picker.Valid() && |s.picker.done| == c.Pieces()
    requires WorkerEnabled(c, s, a, k) && WorkerOk(c, k)
    ensures WorkerOk(c, WorkerAfter(c, s, a, k))
  {
    var k' := WorkerAfter(c, s, a, k);
    assert forall q :: q in k'.active ==> JobOk(c, k, q);
  }

  /** What passes verification is genuine: its buffer has the piece's length. */
  lemma SettleKeepsWorkerOk(c: Config, s: State, a: Action, k: Worker)
    requires a.Settle?
    requires c.WellFormed() && s.picker.Valid() && |s.picker.done| == c.Pieces()
    requires WorkerEnabled(c, s, a, k) && WorkerOk(c, k)
    ensures WorkerOk(c, WorkerAfter(c, s, a, k))
  {
    var k' := WorkerAfter(c, s, a, k);
    assert JobOk(c, k, k.phase.piece);
    assert forall q :: q in k'.active ==> JobOk(c, k, q);
  }

  lemma LeavingKeepsWorkerOk(c: Config, s: State, a: Action, k: Worker)
    requires a.ReaderFails? || a.AbortActive? || a.AbortQueued? || a.Return? || a.Leave?
    requires c.WellFormed() && s.picker.Valid() && |s.picker.done| == c.Pieces()
    requires WorkerEnabled(c, s, a, k) && WorkerOk(c, k)
    ensures WorkerOk(c, WorkerAfter(c, s, a, k))
  {
    var k' := WorkerAfter(c, s, a, k);
    assert forall q :: q in k'.queue ==> q in k.queue;
    assert forall q :: q in k'.active ==> JobOk(c, k, q);
  }

  lemma StepKeepsWorkerOk(c: Config, s: State, a: Action, k: Worker)
    requires c.WellFormed() && s.picker.Valid() && |s.picker.done| == c.Pieces()
    requires WorkerEnabled(c, s, a, k) && WorkerOk(c, k)
    requires !a.Join?
    ensures WorkerOk(c, WorkerAfter(c, s, a, k))
  {
    if a.Reserve? || a.WriteFails? || a.Enqueue? {
      SenderKeepsWorkerOk(c, s, a, k);
    } else if a.Register? {
      RegisterKeepsWorkerOk(c, s, a, k);
    } else if a.Block? {
      BlockKeepsWorkerOk(c, s, a, k);
    } else if a.Settle? {
      SettleKeepsWorkerOk(c, s, a, k);
    } else if a.AskDone? || a.Send? || a.Fetch? {
      SettlingKeepsWorkerOk(c, s, a, k);
    } else {
      LeavingKeepsWorkerOk(c, s, a, k);
    }
  }

  // ---- The invariant of the system ----

  /** Reservations and results of one piece. */
  ghost predicate PieceOk(s: State, p: nat)
    requires s.picker.Valid() && p < |s.picker.done|
  {
    && (s.picker.inflight[p] ==> 1 <= Holders(s, p))
    && (!s.picker.endgame ==> Holders(s, p) == if s.picker.inflight[p] then 1 else 0)
    && (s.picker.done[p] ==> !s.picker.inflight[p])
    && (s.picker.done[p] <==> 1 <= Produced(s, p))
    && (!s.picker.endgame ==> Produced(s, p) <= 1)
  }

  ghost predicate Inv(c: Config, s: State) {
    && s.picker.Valid() && |s.picker.done| == c.Pieces()
    && (forall w :: 0 <= w < |s.workers| ==> WorkerOk(c, s.workers[w]))
    && (forall p: nat :: p < c.Pieces() ==> PieceOk(s, p))
    && (forall i :: 0 <= i < |s.results| && s.results[i].Verified? ==>
          c.Genuine(s.results[i].index, s.results[i].data))
  }

  /** How a step may change one piece: `h` and `h'` count the stepping worker's
      reservations of the piece before and after. A reservation is added only
      with the in-flight mark set, and on a marked piece only in endgame. One is
      dropped only with the mark cleared, or when the worker has another, or
      when the piece is already done. */
  ghost predicate Moves(t: PickerState, t': PickerState, h: nat, h': nat, p: nat)
    requires t.Valid() && t'.Valid() && |t.done| == |t'.done| && p < |t.done|
  {
    && (t.endgame ==> t'.endgame)
    && (t.done[p] ==> t'.done[p])
    && (h < h' ==> && h' == h + 1 && t'.inflight[p] && !t.done[p] && !t'.done[p]
                   && (t.inflight[p] ==> t'.endgame))
    && (h == h' ==> t'.inflight[p] == t.inflight[p] && t'.done[p] == t.done[p])
    && (h' < h ==> && h == h' + 1
                   && (t'.inflight[p] ==> t.inflight[p] && (1 <= h' || t.done[p])))
  }

  lemma ReserveMoves(c: Config, s: State, a: Action, k: Worker, p: nat)
    requires a.Reserve?
    requires c.WellFormed() && s.picker.Valid() && |s.picker.done| == c.Pieces() && p < c.Pieces()
    requires WorkerEnabled(c, s, a, k) && WorkerOk(c, k)
    ensures PickerAfter(c, s, a, k).Valid() && |PickerAfter(c, s, a, k).done| == |s.picker.done|
    ensures Moves(s.picker, PickerAfter(c, s, a, k),
                  Weight(k, Holding, p), Weight(WorkerAfter(c, s, a, k), Holding, p), p)
  {
    var k' := WorkerAfter(c, s, a, k);
    assert k'.queue == k.queue && k'.active == k.active;
  }

  lemma SenderMoves(c: Config, s: State, a: Action, k: Worker, p: nat)
    requires a.WriteFails? || a.Enqueue?
    requires c.WellFormed() && s.picker.Valid() && |s.picker.done| == c.Pieces() && p < c.Pieces()
    requires WorkerEnabled(c, s, a, k) && WorkerOk(c, k)
    ensures PickerAfter(c, s, a, k).Valid() && |PickerAfter(c, s, a, k).done| == |s.picker.done|
    ensures Moves(s.picker, PickerAfter(c, s, a, k),
                  Weight(k, Holding, p), Weight(WorkerAfter(c, s, a, k), Holding, p), p)
  {
  }

  lemma RegisterMoves(c: Config, s: State, a: Action, k: Worker, p: nat)
    requires a.Register?
    requires c.WellFormed() && s.picker.Valid() && |s.picker.done| == c.Pieces() && p < c.Pieces()
    requires WorkerEnabled(c, s, a, k) && WorkerOk(c, k)
    ensures PickerAfter(c, s, a, k).Valid() && |PickerAfter(c, s, a, k).done| == |s.picker.done|
    ensures Moves(s.picker, PickerAfter(c, s, a, k),
                  Weight(k, Holding, p), Weight(WorkerAfter(c, s, a, k), Holding, p), p)
  {
    assert k.queue == [k.queue[0]] + k.queue[1..];
    assert multiset(k.queue)[p] == (if k.queue[0] == p then 1 else 0) + multiset(k.queue[1..])[p];
  }

  lemma BlockMoves(c: Config, s: State, a: Action, k: Worker, p: nat)
    requires a.Block? || a.Send?
    requires c.WellFormed() && s.picker.Valid() && |s.picker.done| == c.Pieces() && p < c.Pieces()
    requires WorkerEnabled(c, s, a, k) && WorkerOk(c, k)
    ensures PickerAfter(c, s, a, k).Valid() && |PickerAfter(c, s, a, k).done| == |s.picker.done|
    ensures Moves(s.picker, PickerAfter(c, s, a, k),
                  Weight(k, Holding, p), Weight(WorkerAfter(c, s, a, k), Holding, p), p)
  {
    var k' := WorkerAfter(c, s, a, k);
    assert k'.hand == k.hand && k'.queue == k.queue && k'.active.Keys == k.active.Keys;
    assert p in k.active <==> p in k'.active;
  }

  lemma AskDoneMoves(c: Config, s: State, a: Action, k: Worker, p: nat)
    requires a.AskDone?
    requires c.WellFormed() && s.picker.Valid() && |s.picker.done| == c.Pieces() && p < c.Pieces()
    requires WorkerEnabled(c, s, a, k) && WorkerOk(c, k)
    ensures PickerAfter(c, s, a, k).Valid() && |PickerAfter(c, s, a, k).done| == |s.picker.done|
    ensures Moves(s.picker, PickerAfter(c, s, a, k),
                  Weight(k, Holding, p), Weight(WorkerAfter(c, s, a, k), Holding, p), p)
  {
    var k', q := WorkerAfter(c, s, a, k), k.phase.piece;
    assert k'.queue == k.queue && k'.hand == k.hand && k'.active.Keys <= k.active.Keys <= k'.active.Keys + {q};
  }

  lemma SettleMoves(c: Config, s: State, a: Action, k: Worker, p: nat)
    requires a.Settle?
    requires c.WellFormed() && s.picker.Valid() && |s.picker.done| == c.Pieces() && p < c.Pieces()
    requires WorkerEnabled(c, s, a, k) && WorkerOk(c, k)
    ensures PickerAfter(c, s, a, k).Valid() && |PickerAfter(c, s, a, k).done| == |s.picker.done|
    ensures Moves(s.picker, PickerAfter(c, s, a, k),
                  Weight(k, Holding, p), Weight(WorkerAfter(c, s, a, k), Holding, p), p)
  {
    var k', q := WorkerAfter(c, s, a, k), k.phase.piece;
    assert k'.queue == k.queue && k'.hand == k.hand && k'.active.Keys == k.active.Keys - {q};
  }

  lemma FetchMoves(c: Config, s: State, a: Action, k: Worker, p: nat)
    requires a.Fetch?
    requires c.WellFormed() && s.picker.Valid() && |s.picker.done| == c.Pieces() && p < c.Pieces()
    requires WorkerEnabled(c, s, a, k) && WorkerOk(c, k)
    ensures PickerAfter(c, s, a, k).Valid() && |PickerAfter(c, s, a, k).done| == |s.picker.done|
    ensures Moves(s.picker, PickerAfter(c, s, a, k),
                  Weight(k, Holding, p), Weight(WorkerAfter(c, s, a, k), Holding, p), p)
  {
    var k' := WorkerAfter(c, s, a, k);
    assert k'.queue == k.queue && k'.active == k.active && k'.hand == None;
  }

  lemma LeavingMoves(c: Config, s: State, a: Action, k: Worker, p: nat)
    requires a.ReaderFails? || a.AbortActive? || a.AbortQueued? || a.Return? || a.Leave?
    requires c.WellFormed() && s.picker.Valid() && |s.picker.done| == c.Pieces() && p < c.Pieces()
    requires WorkerEnabled(c, s, a, k) && WorkerOk(c, k)
    ensures PickerAfter(c, s, a, k).Valid() && |PickerAfter(c, s, a, k).done| == |s.picker.done|
    ensures Moves(s.picker, PickerAfter(c, s, a, k),
                  Weight(k, Holding, p), Weight(WorkerAfter(c, s, a, k), Holding, p), p)
  {
    if a.AbortQueued? {
      assert k.queue == [k.queue[0]] + k.queue[1..];
    }
  }

  lemma StepMoves(c: Config, s: State, a: Action, k: Worker, p: nat)
    requires c.WellFormed() && s.picker.Valid() && |s.picker.done| == c.Pieces() && p < c.Pieces()
    requires WorkerEnabled(c, s, a, k) && WorkerOk(c, k)
    requires !a.Join?
    ensures PickerAfter(c, s, a, k).Valid() && |PickerAfter(c, s, a, k).done| == |s.picker.done|
    ensures Moves(s.picker, PickerAfter(c, s, a, k),
                  Weight(k, Holding, p), Weight(WorkerAfter(c, s, a, k), Holding, p), p)
  {
    if a.Reserve? {
      ReserveMoves(c, s, a, k, p);
    } else if a.WriteFails? || a.Enqueue? {
      SenderMoves(c, s, a, k, p);
    } else if a.Register? {
      RegisterMoves(c, s, a, k, p);
    } else if a.Block? || a.Send? {
      BlockMoves(c, s, a, k, p);
    } else if a.AskDone? {
      AskDoneMoves(c, s, a, k, p);
    } else if a.Settle? {
      SettleMoves(c, s, a, k, p);
    } else if a.Fetch? {
      FetchMoves(c, s, a, k, p);
    } else {
      LeavingMoves(c, s, a, k, p);
    }
  }

  /** The piece a step marks done, if any. */
  ghost function Finishes(c: Config, a: Action, k: Worker): Option<nat> {
    match a
    case Settle(_) =>
      if k.phase.Checked? && k.phase.piece in k.active && Passes(c, k) then Some(k.phase.piece) else None
    case Fetch(_, body) =>
      if k.hand.Some? && FetchPasses(c, k.hand.value, body) then k.hand else None
    case _ => None
  }

  lemma StepUnsent(c: Config, s: State, a: Action, k: Worker, p: nat)
    requires c.WellFormed() && s.picker.Valid() && WorkerEnabled(c, s, a, k) && !a.Join? && WorkerOk(c, k)
    ensures Weight(WorkerAfter(c, s, a, k), Unsent, p) + (if a.Send? then Weight(k, Unsent, p) else 0) ==
            Weight(k, Unsent, p) + if Finishes(c, a, k) == Some(p) then 1 else 0
  {
  }

  /** A step marks done exactly the piece it finishes. */
  lemma StepFinishes(c: Config, s: State, a: Action, k: Worker)
    requires c.WellFormed() && s.picker.Valid() && WorkerEnabled(c, s, a, k) && !a.Join?
    ensures Finishes(c, a, k).Some? ==> Finishes(c, a, k).value < |s.picker.done|
    ensures PickerAfter(c, s, a, k).done ==
            match Finishes(c, a, k)
            case Some(q) => s.picker.done[q := true]
            case None => s.picker.done
  {
  }

  /** A step produces a verified result exactly for the piece it finishes. */
  lemma StepProduces(c: Config, s: State, a: Action, p: nat)
    requires c.WellFormed() && Enabled(c, s, a) && !a.Join? && WorkerOk(c, s.workers[a.w])
    ensures Produced(Apply(c, s, a), p) ==
            Produced(s, p) + if Finishes(c, a, s.workers[a.w]) == Some(p) then 1 else 0
  {
    var k := s.workers[a.w];
    StepUnsent(c, s, a, k, p);
    TallyUpdate(s.workers, a.w, WorkerAfter(c, s, a, k), Unsent, p);
    if a.Send? {
      SentForAppend(s.results, k.phase.result, p);
    }
  }

  lemma StepKeepsPieceOk(c: Config, s: State, a: Action, p: nat)
    requires c.WellFormed() && Inv(c, s) && Enabled(c, s, a) && !a.Join? && p < c.Pieces()
    requires Apply(c, s, a).picker.Valid() && |Apply(c, s, a).picker.done| == c.Pieces()
    ensures PieceOk(Apply(c, s, a), p)
  {
    var k := s.workers[a.w];
    var k' := WorkerAfter(c, s, a, k);
    assert PieceOk(s, p);
    StepMoves(c, s, a, k, p);
    StepProduces(c, s, a, p);
    StepFinishes(c, s, a, k);
    TallyUpdate(s.workers, a.w, k', Holding, p);
    TallyAtLeast(s.workers, a.w, Holding, p);
    assert Finishes(c, a, k) == Some(p) ==> 1 <= Weight(k, Holding, p);
  }

  lemma JoinKeepsPieceOk(c: Config, s: State, a: Action, p: nat)
    requires c.WellFormed() && Inv(c, s) && Enabled(c, s, a) && a.Join? && p < c.Pieces()
    ensures Apply(c, s, a).picker.Valid() && |Apply(c, s, a).picker.done| == c.Pieces()
    ensures PieceOk(Apply(c, s, a), p)
  {
    assert PieceOk(s, p);
    TallyAppend(s.workers, NewWorker(a.seed, a.bitfield), Holding, p);
    TallyAppend(s.workers, NewWorker(a.seed, a.bitfield), Unsent, p);
  }

  lemma InitKeepsInv(c: Config)
    ensures Inv(c, Init(c))
  {
    assert forall p: nat :: p < c.Pieces() ==> PieceOk(Init(c), p);
  }

  /** Every step of every worker keeps the invariant. */
  lemma StepKeepsInv(c: Config, s: State, a: Action)
    requires c.WellFormed() && Inv(c, s) && Enabled(c, s, a)
    ensures Inv(c, Apply(c, s, a))
  {
    var s' := Apply(c, s, a);
    if a.Join? {
      forall p: nat | p < c.Pieces()
        ensures PieceOk(s', p)
      {
        JoinKeepsPieceOk(c, s, a, p);
      }
    } else {
      StepKeepsWorkerOk(c, s, a, s.workers[a.w]);
      assert s'.picker.Valid() && |s'.picker.done| == c.Pieces();
      forall p: nat | p < c.Pieces()
        ensures PieceOk(s', p)
      {
        StepKeepsPieceOk(c, s, a, p);
      }
    }
  }

  // ---- Whole runs ----

  ghost predicate Runs(c: Config, s: State, actions: seq<Action>)
    requires c.WellFormed()
    decreases |actions|
  {
    actions != [] ==> Enabled(c, s, actions[0]) && Runs(c, Apply(c, s, actions[0]), actions[1..])
  }

  ghost function After(c: Config, s: State, actions: seq<Action>): State
    requires c.WellFormed() && Runs(c, s, actions)
    decreases |actions|
  {
    if actions == [] then s else After(c, Apply(c, s, actions[0]), actions[1..])
  }

  lemma {:induction false} RunKeepsInv(c: Config, s: State, actions: seq<Action>)
    requires c.WellFormed() && Inv(c, s) && Runs(c, s, actions)
    ensures Inv(c, After(c, s, actions))
    decreases |actions|
  {
    if actions != [] {
      StepKeepsInv(c, s, actions[0]);
      RunKeepsInv(c, Apply(c, s, actions[0]), actions[1..]);
    }
  }

  ghost predicate Reachable(c: Config, s: State)
    requires c.WellFormed()
  {
    exists actions :: Runs(c, Init(c), actions) && After(c, Init(c), actions) == s
  }

  lemma ReachableInv(c: Config, s: State)
    requires c.WellFormed() && Reachable(c, s)
    ensures Inv(c, s)
  {
    var actions :| Runs(c, Init(c), actions) && After(c, Init(c), actions) == s;
    InitKeepsInv(c);
    RunKeepsInv(c, Init(c), actions);
  }

  /** In every reachable state of any interleaving, an in-flight piece is held by
      some worker that has not returned, so no unfinished piece is lost. While
      endgame is off it is held exactly once and every held piece is in flight.
      A piece marked done is not in flight. */
  lemma NoPieceIsLost(c: Config, s: State, p: nat)
    requires c.WellFormed() && Reachable(c, s) && p < c.Pieces()
    ensures s.picker.Valid() && p < |s.picker.done|
    ensures s.picker.inflight[p] ==>
              !s.picker.done[p] &&
              exists w :: 0 <= w < |s.workers| && 1 <= Weight(s.workers[w], Holding, p) && !s.workers[w].Over()
    ensures !s.picker.endgame ==>
              (s.picker.inflight[p] <==> Holders(s, p) == 1) && Holders(s, p) <= 1
  {
    ReachableInv(c, s);
    assert PieceOk(s, p);
    if s.picker.inflight[p] {
      var w := TallyWitness(s.workers, Holding, p);
      assert WorkerOk(c, s.workers[w]);
    }
  }

  lemma {:induction false} NothingHeld(ws: seq<Worker>, p: nat)
    requires forall w :: 0 <= w < |ws| ==> Weight(ws[w], Holding, p) == 0
    ensures Tally(ws, Holding, p) == 0
  {
    if ws != [] {
      NothingHeld(ws[1..], p);
    }
  }

  /** A worker whose download has returned holds nothing; once all have, nothing
      is in flight, so any unfinished piece can be reserved again by a worker
      that has it. */
  lemma ReturnedHoldsNothing(c: Config, s: State)
    requires c.WellFormed() && Reachable(c, s)
    ensures s.picker.Valid()
    ensures forall w, p :: 0 <= w < |s.workers| && s.workers[w].Over() ==> Weight(s.workers[w], Holding, p) == 0
    ensures (forall w :: 0 <= w < |s.workers| ==> s.workers[w].Over()) ==>
              forall p :: 0 <= p < |s.picker.inflight| ==> !s.picker.inflight[p]
  {
    ReachableInv(c, s);
    if forall w :: 0 <= w < |s.workers| ==> s.workers[w].Over() {
      forall p | 0 <= p < |s.picker.inflight|
        ensures !s.picker.inflight[p]
      {
        assert PieceOk(s, p);
        NothingHeld(s.workers, p);
      }
    }
  }

  /** `done` and `endgame` never revert, and what was sent stays sent. */
  ghost predicate Grows(s: State, s': State) {
    && |s'.picker.done| == |s.picker.done|
    && (forall p :: 0 <= p < |s.picker.done| && s.picker.done[p] ==> s'.picker.done[p])
    && (s.picker.endgame ==> s'.picker.endgame)
    && s.results <= s'.results
  }

  lemma StepGrows(c: Config, s: State, a: Action)
    requires c.WellFormed() && Inv(c, s) && Enabled(c, s, a)
    ensures Grows(s, Apply(c, s, a))
  {
    if !a.Join? {
      assert WorkerOk(c, s.workers[a.w]);
      forall p | 0 <= p < c.Pieces() && s.picker.done[p]
        ensures Apply(c, s, a).picker.done[p]
      {
        StepMoves(c, s, a, s.workers[a.w], p);
      }
    }
  }

  lemma {:induction false} RunGrows(c: Config, s: State, actions: seq<Action>)
    requires c.WellFormed() && Inv(c, s) && Runs(c, s, actions)
    ensures Grows(s, After(c, s, actions))
    decreases |actions|
  {
    if actions != [] {
      StepGrows(c, s, actions[0]);
      StepKeepsInv(c, s, actions[0]);
      RunGrows(c, Apply(c, s, actions[0]), actions[1..]);
    }
  }
}
