/** Consequences of the reservation protocol for whole runs: rarest-first over
    the connected workers, when results are for distinct pieces and when they
    are not, and how much one worker can have in flight. */
module ReservationRuns {
  import opened Bytes
  import FiniteSets
  import TorrentLayout
  import opened PiecePicker
  import opened Reservation

  // ---- Rarest first ----

  /** Frequencies count the workers whose bitfield is registered. */
  ghost predicate CountsWorkers(s: State) {
    forall p :: 0 <= p < |s.picker.frequency| ==> s.picker.frequency[p] == Tally(s.workers, Offering, p)
  }

  lemma StepKeepsBitfield(c: Config, s: State, a: Action, k: Worker)
    requires s.picker.Valid() && WorkerEnabled(c, s, a, k)
    ensures WorkerAfter(c, s, a, k).bitfield == k.bitfield
    ensures WorkerAfter(c, s, a, k).phase.Left? <==> a.Leave? || k.phase.Left?
    ensures PickerAfter(c, s, a, k).frequency ==
            if a.Leave? then s.picker.AfterRemovePeer(k.bitfield).frequency else s.picker.frequency
  {
  }

  lemma StepCountsWorkers(c: Config, s: State, a: Action)
    requires c.WellFormed() && Reservation.Enabled(c, s, a) && CountsWorkers(s)
    ensures CountsWorkers(Reservation.Apply(c, s, a))
  {
    forall p | 0 <= p < |s.picker.frequency|
      ensures Reservation.Apply(c, s, a).picker.frequency[p] ==
              Tally(Reservation.Apply(c, s, a).workers, Offering, p)
    {
      if a.Join? {
        TallyAppend(s.workers, NewWorker(a.seed, a.bitfield), Offering, p);
      } else {
        var k := s.workers[a.w];
        TallyUpdate(s.workers, a.w, WorkerAfter(c, s, a, k), Offering, p);
        StepKeepsBitfield(c, s, a, k);
      }
    }
  }

  lemma {:induction false} RunCountsWorkers(c: Config, s: State, actions: seq<Action>)
    requires c.WellFormed() && CountsWorkers(s) && Reservation.Runs(c, s, actions)
    ensures CountsWorkers(Reservation.After(c, s, actions))
    decreases |actions|
  {
    if actions != [] {
      StepCountsWorkers(c, s, actions[0]);
      RunCountsWorkers(c, Reservation.Apply(c, s, actions[0]), actions[1..]);
    }
  }

  /** In every reachable state, a reservation that leaves endgame off takes a
      piece that fewest connected workers offer, among those the worker has that
      are neither done nor held by anyone. */
  lemma ReservationsAreRarestFirst(c: Config, s: State, w: nat, p: nat)
    requires c.WellFormed() && Reachable(c, s)
    requires Reservation.Enabled(c, s, Reserve(w, Some(p)))
    requires !Reservation.Apply(c, s, Reserve(w, Some(p))).picker.endgame
    ensures p < c.Pieces() && !s.picker.done[p] && Holders(s, p) == 0 && HasPiece(s.workers[w].bitfield, p)
    ensures forall q: nat ::
              q < c.Pieces() && !s.picker.done[q] && Holders(s, q) == 0 && HasPiece(s.workers[w].bitfield, q) ==>
                Tally(s.workers, Offering, p) <= Tally(s.workers, Offering, q)
  {
    ReachableInv(c, s);
    var actions :| Reservation.Runs(c, Reservation.Init(c), actions) &&
                   Reservation.After(c, Reservation.Init(c), actions) == s;
    RunCountsWorkers(c, Reservation.Init(c), actions);
    assert PieceOk(s, p);
    forall q: nat | q < c.Pieces() && !s.picker.done[q] && Holders(s, q) == 0 && HasPiece(s.workers[w].bitfield, q)
      ensures Tally(s.workers, Offering, p) <= Tally(s.workers, Offering, q)
    {
      assert PieceOk(s, q);
      assert s.picker.Eligible(s.workers[w].bitfield, q);
    }
  }

  // ---- Distinct results ----

  ghost predicate DistinctResults(results: seq<PieceResult>) {
    forall i, j :: 0 <= i < j < |results| && results[i].Verified? && results[j].Verified? ==>
      results[i].index != results[j].index
  }

  lemma {:induction false} SentForPositive(results: seq<PieceResult>, i: nat)
    requires i < |results| && results[i].Verified?
    ensures 1 <= SentFor(results, results[i].index)
  {
    if i > 0 {
      SentForPositive(results[1..], i - 1);
    }
  }

  lemma {:induction false} AtMostOnceIsDistinct(results: seq<PieceResult>)
    requires forall p :: SentFor(results, p) <= 1
    ensures DistinctResults(results)
  {
    if results != [] {
      var rest := results[1..];
      forall p
        ensures SentFor(rest, p) <= 1
      {
        assert SentFor(results, p) <= 1;
      }
      AtMostOnceIsDistinct(rest);
      forall j | 0 < j < |results| && results[0].Verified? && results[j].Verified?
        ensures results[0].index != results[j].index
      {
        SentForPositive(rest, j - 1);
        assert SentFor(results, results[0].index) <= 1;
      }
      assert forall i :: 0 < i < |results| ==> results[i] == rest[i - 1];
    }
  }

  lemma {:induction false} OutOfRangeUnsent(c: Config, results: seq<PieceResult>, p: nat)
    requires c.Pieces() <= p
    requires forall i :: 0 <= i < |results| && results[i].Verified? ==> results[i].index < c.Pieces()
    ensures SentFor(results, p) == 0
  {
    if results != [] {
      OutOfRangeUnsent(c, results[1..], p);
    }
  }

  ghost predicate ProducedOnce(c: Config, s: State) {
    forall p: nat :: p < c.Pieces() ==> Produced(s, p) <= 1
  }

  /** A state in which no piece has produced two verified results has sent
      distinct ones. */
  lemma ProducedOnceIsDistinct(c: Config, s: State)
    requires Reservation.Inv(c, s)
    requires ProducedOnce(c, s)
    ensures DistinctResults(s.results)
  {
    forall p: nat
      ensures SentFor(s.results, p) <= 1
    {
      if p < c.Pieces() {
        assert Produced(s, p) <= 1;
      } else {
        OutOfRangeUnsent(c, s.results, p);
      }
    }
    AtMostOnceIsDistinct(s.results);
  }

  // ---- When no piece is produced twice ----

  /** The step finishes a piece that is done already. Seeds never ask before they
      finish a piece, and peers ask before they take the lock to finish it. */
  ghost predicate Repeats(c: Config, s: State, a: Action)
    requires c.WellFormed() && Reservation.Enabled(c, s, a)
  {
    && !a.Join?
    && var finished := Finishes(c, a, s.workers[a.w]);
       finished.Some? && finished.value < c.Pieces() && s.picker.done[finished.value]
  }

  ghost predicate NeverRepeats(c: Config, s: State, actions: seq<Action>)
    requires c.WellFormed() && Reservation.Runs(c, s, actions)
    decreases |actions|
  {
    actions != [] ==>
      !Repeats(c, s, actions[0]) && NeverRepeats(c, Reservation.Apply(c, s, actions[0]), actions[1..])
  }

  lemma StepProducedMore(c: Config, s: State, a: Action, p: nat)
    requires c.WellFormed() && Reservation.Inv(c, s) && Reservation.Enabled(c, s, a) && p < c.Pieces()
    ensures Produced(Reservation.Apply(c, s, a), p) ==
            Produced(s, p) + if !a.Join? && Finishes(c, a, s.workers[a.w]) == Some(p) then 1 else 0
  {
    if a.Join? {
      TallyAppend(s.workers, NewWorker(a.seed, a.bitfield), Unsent, p);
    } else {
      StepProduces(c, s, a, p);
    }
  }

  lemma StepProducedOnce(c: Config, s: State, a: Action)
    requires c.WellFormed() && Reservation.Inv(c, s) && Reservation.Enabled(c, s, a)
    ensures ProducedOnce(c, s) && !Repeats(c, s, a) ==> ProducedOnce(c, Reservation.Apply(c, s, a))
    ensures ProducedOnce(c, Reservation.Apply(c, s, a)) ==> ProducedOnce(c, s) && !Repeats(c, s, a)
  {
    var s' := Reservation.Apply(c, s, a);
    forall p: nat | p < c.Pieces()
      ensures Produced(s', p) == Produced(s, p) + if !a.Join? && Finishes(c, a, s.workers[a.w]) == Some(p) then 1 else 0
      ensures s.picker.done[p] <==> 1 <= Produced(s, p)
    {
      assert PieceOk(s, p);
      StepProducedMore(c, s, a, p);
    }
  }

  /** From a state in which no piece has been produced twice, none is at the end
      of a run exactly when no step of it finishes a piece that is done already. */
  lemma {:induction false} ProducedOnceIffNeverRepeats(c: Config, s: State, actions: seq<Action>)
    requires c.WellFormed() && Reservation.Inv(c, s) && Reservation.Runs(c, s, actions)
    ensures ProducedOnce(c, Reservation.After(c, s, actions)) <==> ProducedOnce(c, s) && NeverRepeats(c, s, actions)
    decreases |actions|
  {
    if actions != [] {
      var a := actions[0];
      StepKeepsInv(c, s, a);
      StepProducedOnce(c, s, a);
      ProducedOnceIffNeverRepeats(c, Reservation.Apply(c, s, a), actions[1..]);
    }
  }

  lemma InitProducedOnce(c: Config)
    ensures ProducedOnce(c, Reservation.Init(c))
  {
  }

  /** So the verified results of a run that never repeats are for distinct pieces. */
  lemma DistinctWhenNeverRepeats(c: Config, actions: seq<Action>)
    requires c.WellFormed() && Reservation.Runs(c, Reservation.Init(c), actions)
    requires NeverRepeats(c, Reservation.Init(c), actions)
    ensures DistinctResults(Reservation.After(c, Reservation.Init(c), actions).results)
  {
    InitKeepsInv(c);
    InitProducedOnce(c);
    RunKeepsInv(c, Reservation.Init(c), actions);
    ProducedOnceIffNeverRepeats(c, Reservation.Init(c), actions);
    ProducedOnceIsDistinct(c, Reservation.After(c, Reservation.Init(c), actions));
  }

  lemma FinishedWasHeld(c: Config, a: Action, k: Worker, p: nat)
    requires WorkerOk(c, k) && Finishes(c, a, k) == Some(p)
    ensures p < c.Pieces() && 1 <= Weight(k, Holding, p)
  {
  }

  /** With endgame off, a worker finishes only what it alone holds. */
  lemma EarlyStepNeverRepeats(c: Config, s: State, a: Action)
    requires c.WellFormed() && Reservation.Inv(c, s) && Reservation.Enabled(c, s, a) && !s.picker.endgame
    ensures !Repeats(c, s, a)
  {
    if !a.Join? {
      forall p: nat | p < c.Pieces() && Finishes(c, a, s.workers[a.w]) == Some(p)
        ensures !s.picker.done[p]
      {
        FinishedWasHeld(c, a, s.workers[a.w], p);
        TallyAtLeast(s.workers, a.w, Holding, p);
        assert PieceOk(s, p);
      }
    }
  }

  lemma {:induction false} EarlyRunNeverRepeats(c: Config, s: State, actions: seq<Action>)
    requires c.WellFormed() && Reservation.Inv(c, s) && Reservation.Runs(c, s, actions)
    requires !Reservation.After(c, s, actions).picker.endgame
    ensures NeverRepeats(c, s, actions)
    decreases |actions|
  {
    if actions != [] {
      RunGrows(c, s, actions);
      EarlyStepNeverRepeats(c, s, actions[0]);
      StepKeepsInv(c, s, actions[0]);
      EarlyRunNeverRepeats(c, Reservation.Apply(c, s, actions[0]), actions[1..]);
    }
  }

  /** Until endgame starts, the verified results are for distinct pieces, whatever
      the workers are. */
  lemma DistinctBeforeEndgame(c: Config, s: State)
    requires c.WellFormed() && Reachable(c, s) && !s.picker.endgame
    ensures DistinctResults(s.results)
  {
    var actions :| Reservation.Runs(c, Reservation.Init(c), actions) &&
                   Reservation.After(c, Reservation.Init(c), actions) == s;
    InitKeepsInv(c);
    EarlyRunNeverRepeats(c, Reservation.Init(c), actions);
    DistinctWhenNeverRepeats(c, actions);
  }

  /** In every reachable state, done means that a verified result was produced. */
  lemma DoneMeansProduced(c: Config, s: State, p: nat)
    requires c.WellFormed() && Reachable(c, s) && p < c.Pieces()
    ensures |s.picker.done| == c.Pieces()
    ensures s.picker.done[p] <==> 1 <= Produced(s, p)
  {
    ReachableInv(c, s);
    assert PieceOk(s, p);
  }

  /** Peer workers only, at most one of them still at work. */
  ghost predicate Solo(s: State) {
    && (forall w :: 0 <= w < |s.workers| ==> !s.workers[w].seed)
    && (forall v, w :: 0 <= v < w < |s.workers| ==> s.workers[v].Over() || s.workers[w].Over())
  }

  ghost predicate SoloRuns(c: Config, s: State, actions: seq<Action>)
    requires c.WellFormed()
    decreases |actions|
  {
    && Solo(s)
    && (actions != [] ==>
          Reservation.Enabled(c, s, actions[0]) && SoloRuns(c, Reservation.Apply(c, s, actions[0]), actions[1..]))
  }

  lemma {:induction false} SoloRunsAreRuns(c: Config, s: State, actions: seq<Action>)
    requires c.WellFormed() && SoloRuns(c, s, actions)
    ensures Reservation.Runs(c, s, actions)
    decreases |actions|
  {
    if actions != [] {
      SoloRunsAreRuns(c, Reservation.Apply(c, s, actions[0]), actions[1..]);
    }
  }

  /** What working alone adds: a piece that passed the done check is still not
      done. */
  ghost predicate SoloInv(c: Config, s: State) {
    && Reservation.Inv(c, s)
    && forall w :: 0 <= w < |s.workers| && s.workers[w].phase.Checked? && s.workers[w].phase.piece < c.Pieces() ==>
         !s.picker.done[s.workers[w].phase.piece]
  }

  lemma SoloStepChecked(c: Config, s: State, a: Action, w: nat)
    requires c.WellFormed() && SoloInv(c, s) && Solo(s) && Reservation.Enabled(c, s, a) && !a.Join?
    requires w < |s.workers|
    requires var k := Reservation.Apply(c, s, a).workers[w]; k.phase.Checked? && k.phase.piece < c.Pieces()
    ensures var s' := Reservation.Apply(c, s, a);
            |s'.picker.done| == c.Pieces() && !s'.picker.done[s'.workers[w].phase.piece]
  {
    StepFinishes(c, s, a, s.workers[a.w]);
    if w != a.w {
      assert s.workers[a.w].Over();
      assert WorkerOk(c, s.workers[a.w]);
    }
  }

  lemma SoloStep(c: Config, s: State, a: Action)
    requires c.WellFormed() && SoloInv(c, s) && Solo(s) && Reservation.Enabled(c, s, a)
    ensures SoloInv(c, Reservation.Apply(c, s, a)) && !Repeats(c, s, a)
  {
    var s' := Reservation.Apply(c, s, a);
    StepKeepsInv(c, s, a);
    if !a.Join? {
      assert WorkerOk(c, s.workers[a.w]);
      forall w | 0 <= w < |s'.workers| && s'.workers[w].phase.Checked? && s'.workers[w].phase.piece < c.Pieces()
        ensures !s'.picker.done[s'.workers[w].phase.piece]
      {
        SoloStepChecked(c, s, a, w);
      }
    }
  }

  lemma {:induction false} SoloRunNeverRepeats(c: Config, s: State, actions: seq<Action>)
    requires c.WellFormed() && SoloInv(c, s) && SoloRuns(c, s, actions)
    ensures Reservation.Runs(c, s, actions) && NeverRepeats(c, s, actions)
    decreases |actions|
  {
    SoloRunsAreRuns(c, s, actions);
    if actions != [] {
      SoloStep(c, s, actions[0]);
      SoloRunNeverRepeats(c, Reservation.Apply(c, s, actions[0]), actions[1..]);
    }
  }

  /** With one peer worker at a time and no seeds, the verified results are for
      distinct pieces over the whole run, endgame included. */
  lemma DistinctWhenSolo(c: Config, actions: seq<Action>)
    requires c.WellFormed() && SoloRuns(c, Reservation.Init(c), actions)
    ensures Reservation.Runs(c, Reservation.Init(c), actions)
    ensures NeverRepeats(c, Reservation.Init(c), actions)
    ensures DistinctResults(Reservation.After(c, Reservation.Init(c), actions).results)
  {
    InitKeepsInv(c);
    SoloRunNeverRepeats(c, Reservation.Init(c), actions);
    DistinctWhenNeverRepeats(c, actions);
  }

  // ---- Building runs ----

  lemma {:induction false} RunThenStep(c: Config, s: State, actions: seq<Action>, a: Action)
    requires c.WellFormed() && Reservation.Runs(c, s, actions)
    requires Reservation.Enabled(c, Reservation.After(c, s, actions), a)
    ensures Reservation.Runs(c, s, actions + [a])
    ensures Reservation.After(c, s, actions + [a]) == Reservation.Apply(c, Reservation.After(c, s, actions), a)
    decreases |actions|
  {
    if actions == [] {
      assert actions + [a] == [a];
      assert [a][1..] == [];
    } else {
      assert (actions + [a])[1..] == actions[1..] + [a];
      RunThenStep(c, Reservation.Apply(c, s, actions[0]), actions[1..], a);
    }
  }

  lemma ReachableStep(c: Config, s: State, a: Action)
    requires c.WellFormed() && Reachable(c, s) && Reservation.Enabled(c, s, a)
    ensures Reachable(c, Reservation.Apply(c, s, a))
  {
    var actions :| Reservation.Runs(c, Reservation.Init(c), actions) &&
                   Reservation.After(c, Reservation.Init(c), actions) == s;
    RunThenStep(c, Reservation.Init(c), actions, a);
  }

  lemma InitReachable(c: Config)
    requires c.WellFormed()
    ensures Reachable(c, Reservation.Init(c))
  {
    assert Reservation.Runs(c, Reservation.Init(c), []);
  }

  // ---- One worker may have every piece active ----

  /** One peer worker that has registered pieces `0 .. k-1` and nothing else. */
  ghost function Loaded(c: Config, bitfield: Bitfield, k: nat): State
    requires c.WellFormed() && k <= c.Pieces()
    requires forall p: nat :: p < c.Pieces() ==> 0 <= c.torrent.PieceLen(p)
  {
    State(PickerState(seq(c.Pieces(), _ => 1), seq(c.Pieces(), _ => false), seq(c.Pieces(), i => i < k), false),
          [Worker(false, bitfield, None, [], false, map p: nat | p < k :: NewJob(c, p), Reading)],
          [])
  }

  lemma LengthsNonnegative(c: Config)
    requires c.WellFormed()
    ensures forall p: nat :: p < c.Pieces() ==> 0 <= c.torrent.PieceLen(p)
  {
    forall p: nat | p < c.Pieces()
      ensures 0 <= c.torrent.PieceLen(p)
    {
      TorrentLayout.PiecesPartition(c.torrent, p, 0);
    }
  }

  lemma NextIsRarest(c: Config, bitfield: Bitfield, k: nat)
    requires c.WellFormed() && k < c.Pieces()
    requires forall p: nat :: p < c.Pieces() ==> HasPiece(bitfield, p) && 0 <= c.torrent.PieceLen(p)
    ensures var s, t := Loaded(c, bitfield, k).picker, Loaded(c, bitfield, k + 1).picker;
            s.PickAllowed(bitfield, Some(k)) && s.AfterPick(bitfield, Some(k)) == t
  {
    var s, t := Loaded(c, bitfield, k).picker, Loaded(c, bitfield, k + 1).picker;
    assert s.Eligible(bitfield, k);
    assert s.inflight[k := true] == t.inflight;
  }

  /** The same worker with piece `k` in its hand, or in its queue. */
  ghost function Carrying(c: Config, bitfield: Bitfield, k: nat, hand: Option<nat>, queue: seq<nat>): State
    requires c.WellFormed() && k < c.Pieces()
    requires forall p: nat :: p < c.Pieces() ==> 0 <= c.torrent.PieceLen(p)
  {
    var s := Loaded(c, bitfield, k);
    State(Loaded(c, bitfield, k + 1).picker, [s.workers[0].(hand := hand, queue := queue)], [])
  }

  lemma LoadReserve(c: Config, bitfield: Bitfield, k: nat)
    requires c.WellFormed() && k < c.Pieces()
    requires forall p: nat :: p < c.Pieces() ==> HasPiece(bitfield, p) && 0 <= c.torrent.PieceLen(p)
    requires Reachable(c, Loaded(c, bitfield, k))
    ensures Reachable(c, Carrying(c, bitfield, k, Some(k), []))
  {
    var s := Loaded(c, bitfield, k);
    NextIsRarest(c, bitfield, k);
    ReachableStep(c, s, Reserve(0, Some(k)));
    assert Reservation.Apply(c, s, Reserve(0, Some(k))) == Carrying(c, bitfield, k, Some(k), []);
  }

  lemma LoadEnqueue(c: Config, bitfield: Bitfield, k: nat)
    requires c.WellFormed() && k < c.Pieces() && 1 <= c.depth
    requires forall p: nat :: p < c.Pieces() ==> 0 <= c.torrent.PieceLen(p)
    requires Reachable(c, Carrying(c, bitfield, k, Some(k), []))
    ensures Reachable(c, Carrying(c, bitfield, k, None, [k]))
  {
    var s := Carrying(c, bitfield, k, Some(k), []);
    var empty: seq<nat> := [];
    assert empty + [k] == [k];
    ReachableStep(c, s, Enqueue(0));
    assert Reservation.Apply(c, s, Enqueue(0)) == Carrying(c, bitfield, k, None, [k]);
  }

  lemma LoadRegister(c: Config, bitfield: Bitfield, k: nat)
    requires c.WellFormed() && k < c.Pieces()
    requires forall p: nat :: p < c.Pieces() ==> 0 <= c.torrent.PieceLen(p)
    requires Reachable(c, Carrying(c, bitfield, k, None, [k]))
    ensures Reachable(c, Loaded(c, bitfield, k + 1))
  {
    var s, t := Carrying(c, bitfield, k, None, [k]), Loaded(c, bitfield, k + 1);
    assert [k][1..] == [];
    ReachableStep(c, s, Register(0));
    assert s.workers[0].active[k := NewJob(c, k)] == t.workers[0].active;
    assert Reservation.Apply(c, s, Register(0)) == t;
  }

  lemma LoadOneMore(c: Config, bitfield: Bitfield, k: nat)
    requires c.WellFormed() && k < c.Pieces() && 1 <= c.depth
    requires forall p: nat :: p < c.Pieces() ==> HasPiece(bitfield, p) && 0 <= c.torrent.PieceLen(p)
    requires Reachable(c, Loaded(c, bitfield, k))
    ensures Reachable(c, Loaded(c, bitfield, k + 1))
  {
    LoadReserve(c, bitfield, k);
    LoadEnqueue(c, bitfield, k);
    LoadRegister(c, bitfield, k);
  }

  lemma {:induction false} LoadedReachable(c: Config, bitfield: Bitfield, k: nat)
    requires c.WellFormed() && k <= c.Pieces() && 1 <= c.depth
    requires forall p: nat :: p < c.Pieces() ==> HasPiece(bitfield, p) && 0 <= c.torrent.PieceLen(p)
    ensures Reachable(c, Loaded(c, bitfield, k))
  {
    if k == 0 {
      InitReachable(c);
      ReachableStep(c, Reservation.Init(c), Join(false, bitfield));
      var s := Reservation.Apply(c, Reservation.Init(c), Join(false, bitfield));
      assert s.picker == Loaded(c, bitfield, 0).picker;
      assert s.workers[0].active == Loaded(c, bitfield, 0).workers[0].active;
      assert s == Loaded(c, bitfield, 0);
    } else {
      LoadedReachable(c, bitfield, k - 1);
      LoadOneMore(c, bitfield, k - 1);
    }
  }

  /** The pieces a worker has in flight: in its hand, its queue or its active set. */
  ghost function InFlight(k: Worker): set<nat> {
    (if k.hand.Some? then {k.hand.value} else {}) + (set p | p in k.queue) + k.active.Keys
  }

  lemma InFlightBounded(c: Config, s: State, w: nat)
    requires c.WellFormed() && Reachable(c, s) && w < |s.workers|
    ensures |s.workers[w].queue| <= c.depth
    ensures |s.workers[w].active| <= |InFlight(s.workers[w])| <= c.Pieces()
  {
    var k := s.workers[w];
    ReachableInv(c, s);
    assert WorkerOk(c, k);
    forall p | p in InFlight(k)
      ensures p < c.Pieces()
    {
      assert p in k.active ==> JobOk(c, k, p);
    }
    FiniteSets.Pigeonhole(InFlight(k), c.Pieces());
    FiniteSets.SubsetSize(k.active.Keys, InFlight(k));
  }

  lemma AllPiecesActive(c: Config, bitfield: Bitfield) returns (s: State)
    requires c.WellFormed() && 1 <= c.depth
    requires forall p: nat :: p < c.Pieces() ==> HasPiece(bitfield, p)
    ensures Reachable(c, s) && |s.workers| == 1 && |s.workers[0].active| == c.Pieces()
  {
    LengthsNonnegative(c);
    s := Loaded(c, bitfield, c.Pieces());
    LoadedReachable(c, bitfield, c.Pieces());
    FiniteSets.Pigeonhole(s.workers[0].active.Keys, c.Pieces());
  }

  /** The queue never exceeds the pipeline depth, but that does not bound what a
      worker has active or in flight, as the reader empties the queue into its
      active set: the depth is a bound exactly for torrents with no more pieces
      than that. */
  lemma DepthBoundsOnlyTheQueue(c: Config, bitfield: Bitfield)
    requires c.WellFormed() && 1 <= c.depth
    requires forall p: nat :: p < c.Pieces() ==> HasPiece(bitfield, p)
    ensures forall s, w :: Reachable(c, s) && 0 <= w < |s.workers| ==> |s.workers[w].queue| <= c.depth
    ensures (forall s, w :: Reachable(c, s) && 0 <= w < |s.workers| ==> |s.workers[w].active| <= c.depth)
            <==> c.Pieces() <= c.depth
    ensures (forall s, w :: Reachable(c, s) && 0 <= w < |s.workers| ==> |InFlight(s.workers[w])| <= c.depth)
            <==> c.Pieces() <= c.depth
  {
    forall s, w | Reachable(c, s) && 0 <= w < |s.workers|
      ensures |s.workers[w].queue| <= c.depth
      ensures |s.workers[w].active| <= |InFlight(s.workers[w])| <= c.Pieces()
    {
      InFlightBounded(c, s, w);
    }
    var full := AllPiecesActive(c, bitfield);
    assert |full.workers[0].active| <= |InFlight(full.workers[0])|;
  }

  // ---- A piece reserved again loses its blocks ----

  lemma StepBlocks(c: Config, s: State, a: Action, k: Worker, p: nat)
    requires c.WellFormed() && s.picker.Valid() && WorkerEnabled(c, s, a, k)
    requires p in k.active && p in WorkerAfter(c, s, a, k).active
    ensures WorkerAfter(c, s, a, k).active[p].received < k.active[p].received
            <==> a.Register? && k.queue[0] == p && 0 < k.active[p].received
  {
  }

  lemma HeldTwiceIsEndgame(c: Config, s: State, w: nat, p: nat)
    requires Reservation.Inv(c, s) && w < |s.workers| && p < c.Pieces()
    requires p in s.workers[w].active && p in s.workers[w].queue
    ensures s.picker.endgame
  {
    assert PieceOk(s, p);
    TallyAtLeast(s.workers, w, Holding, p);
  }

  /** A job that stays active loses blocks it has received exactly when its worker
      registers the same piece again, which takes endgame. */
  lemma BlocksLostIffRegisteredAgain(c: Config, s: State, a: Action, w: nat, p: nat)
    requires c.WellFormed() && Reservation.Inv(c, s) && Reservation.Enabled(c, s, a) && w < |s.workers|
    requires p in s.workers[w].active && p in Reservation.Apply(c, s, a).workers[w].active
    ensures var before, after := s.workers[w].active[p], Reservation.Apply(c, s, a).workers[w].active[p];
            after.received < before.received
            <==> a == Register(w) && s.workers[w].queue[0] == p && 0 < before.received
    ensures a == Register(w) && s.workers[w].queue[0] == p ==> s.picker.endgame
  {
    if !a.Join? && a.w == w {
      StepBlocks(c, s, a, s.workers[w], p);
      if a == Register(w) && s.workers[w].queue[0] == p {
        assert JobOk(c, s.workers[w], p);
        HeldTwiceIsEndgame(c, s, w, p);
      }
    }
  }

  /** The worker of `Loaded` with all pieces active and one byte of piece `p` in. */
  ghost function Begun(c: Config, bitfield: Bitfield, p: nat, b: Byte): Worker
    requires c.WellFormed() && p < c.Pieces() && 0 < c.torrent.PieceLen(p)
    requires forall q: nat :: q < c.Pieces() ==> 0 <= c.torrent.PieceLen(q)
  {
    var k := Loaded(c, bitfield, c.Pieces()).workers[0];
    k.(active := k.active[p := Job(1, Overwrite(NewJob(c, p).buf, 0, [b]))])
  }

  lemma BeginPiece(c: Config, bitfield: Bitfield, p: nat, b: Byte)
    requires c.WellFormed() && p < c.Pieces() && 2 <= c.torrent.PieceLen(p)
    requires 2 <= TorrentLayout.BlockCount(c.torrent.PieceLen(p))
    requires forall q: nat :: q < c.Pieces() ==> 0 <= c.torrent.PieceLen(q)
    requires Reachable(c, Loaded(c, bitfield, c.Pieces()))
    ensures Reachable(c, State(Loaded(c, bitfield, c.Pieces()).picker, [Begun(c, bitfield, p, b)], []))
  {
    var s := Loaded(c, bitfield, c.Pieces());
    assert p in s.workers[0].active;
    ReachableStep(c, s, Reservation.Block(0, p, 0, [b]));
    assert Reservation.Apply(c, s, Reservation.Block(0, p, 0, [b])) == State(s.picker, [Begun(c, bitfield, p, b)], []);
  }

  lemma ReserveAgain(c: Config, s: State, k: Worker, p: nat)
    requires c.WellFormed() && Reachable(c, s) && s.workers == [k] && s.picker.Valid()
    requires |s.picker.done| == c.Pieces() && p < c.Pieces() && 1 <= c.depth && HasPiece(k.bitfield, p)
    requires !k.seed && k.hand.None? && !k.closed && k.queue == []
    requires !s.picker.endgame && forall q :: 0 <= q < c.Pieces() ==> s.picker.inflight[q] && !s.picker.done[q]
    ensures Reachable(c, State(s.picker.(endgame := true), [k.(queue := [p])], s.results))
  {
    assert !s.picker.done[p];
    var s1 := State(s.picker.(endgame := true), [k.(hand := Some(p))], s.results);
    ReachableStep(c, s, Reserve(0, Some(p)));
    assert Reservation.Apply(c, s, Reserve(0, Some(p))) == s1;
    assert k.queue + [p] == [p];
    ReachableStep(c, s1, Enqueue(0));
    assert Reservation.Apply(c, s1, Enqueue(0)) == State(s.picker.(endgame := true), [k.(queue := [p])], s.results);
  }

  /** It happens: for every torrent and every piece of at least two blocks, a
      single worker that has every piece active can begin the piece, be given it
      again by endgame, and start over. */
  lemma BlocksCanBeLost(c: Config, bitfield: Bitfield, p: nat, b: Byte) returns (s: State)
    requires c.WellFormed() && 1 <= c.depth && p < c.Pieces()
    requires forall q: nat :: q < c.Pieces() ==> HasPiece(bitfield, q)
    requires 2 <= c.torrent.PieceLen(p) && 2 <= TorrentLayout.BlockCount(c.torrent.PieceLen(p))
    ensures Reachable(c, s) && Reservation.Enabled(c, s, Register(0))
    ensures p in s.workers[0].active && s.workers[0].active[p].received == 1
    ensures var after := Reservation.Apply(c, s, Register(0)).workers[0].active;
            p in after && after[p].received == 0
  {
    LengthsNonnegative(c);
    LoadedReachable(c, bitfield, c.Pieces());
    BeginPiece(c, bitfield, p, b);
    var k, picker := Begun(c, bitfield, p, b), Loaded(c, bitfield, c.Pieces()).picker;
    ReserveAgain(c, State(picker, [k], []), k, p);
    s := State(picker.(endgame := true), [k.(queue := [p])], []);
  }
}
