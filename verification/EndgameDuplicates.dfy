/** Two short runs in which endgame makes two workers produce the same piece.
    The orchestrator counts both results, so on a torrent of two pieces it
    reports success with one piece never written. The first run needs no bad
    luck: seed workers never ask whether a piece is done. The second shows that
    the question peer workers ask does not help when it is asked before the
    other worker settles. */
module EndgameDuplicates {
  import opened Bytes
  import TorrentLayout
  import PiecePicker
  import opened Reservation
  import ReservationRuns
  import DownloadSession

  const BOTH: PiecePicker.Bitfield := [0xC0]

  lemma BothHas()
    ensures PiecePicker.HasPiece(BOTH, 0) && PiecePicker.HasPiece(BOTH, 1)
  {
  }

  /** Any torrent of two pieces, with data for the first one that passes. */
  ghost predicate TwoPieces(c: Config, d: ByteString) {
    c.WellFormed() && c.Pieces() == 2 && c.Genuine(0, d)
  }

  /** The orchestrator would stop and report success here, yet piece 1 was never
      written. */
  ghost predicate FalseSuccess(c: Config, s: State) {
    && DownloadSession.VerifiedCount(s.results) == c.Pieces()
    && !DownloadSession.Wrote(s.results, 1)
    && !ReservationRuns.DistinctResults(s.results)
  }

  // ---- Single steps ----

  ghost predicate At(c: Config, s: State) {
    c.WellFormed() && Reachable(c, s) && s.picker.Valid() && |s.picker.done| == c.Pieces()
  }

  lemma Joins(c: Config, s: State, seed: bool, s': State)
    requires At(c, s)
    requires s' == State(s.picker.AfterAddPeer(BOTH), s.workers + [NewWorker(seed, BOTH)], s.results)
    ensures At(c, s')
  {
    ReservationRuns.ReachableStep(c, s, Join(seed, BOTH));
  }

  lemma Steps(c: Config, s: State, a: Action, k: Worker, s': State)
    requires At(c, s) && !a.Join? && a.w < |s.workers| && s.workers[a.w] == k
    requires WorkerEnabled(c, s, a, k)
    requires s'.picker == PickerAfter(c, s, a, k)
    requires s'.workers == s.workers[a.w := WorkerAfter(c, s, a, k)]
    requires s'.results == if a.Send? then s.results + [k.phase.result] else s.results
    requires s'.picker.Valid() && |s'.picker.done| == |s.picker.done|
    ensures At(c, s')
  {
    ReservationRuns.ReachableStep(c, s, a);
  }

  lemma Reserves(c: Config, s: State, w: nat, p: nat, s': State)
    requires At(c, s) && w < |s.workers| && s.workers[w].hand.None? && !s.workers[w].closed
             && s.workers[w].phase.Reading?
    requires s.picker.PickAllowed(s.workers[w].bitfield, Some(p))
    requires s' == State(s.picker.AfterPick(s.workers[w].bitfield, Some(p)),
                         s.workers[w := s.workers[w].(hand := Some(p))], s.results)
    ensures At(c, s')
  {
    Steps(c, s, Reserve(w, Some(p)), s.workers[w], s');
  }

  lemma Fetches(c: Config, s: State, w: nat, d: ByteString, s': State)
    requires At(c, s) && w < |s.workers| && s.workers[w].seed && s.workers[w].phase.Reading?
    requires s.workers[w].hand.Some? && c.Genuine(s.workers[w].hand.value, d)
    requires var p := s.workers[w].hand.value;
             s' == State(s.picker.AfterFinish(p),
                         s.workers[w := s.workers[w].(hand := None, phase := Sending(Verified(p, d)))], s.results)
    ensures At(c, s')
  {
    Steps(c, s, Fetch(w, Some(d)), s.workers[w], s');
  }

  lemma Sends(c: Config, s: State, w: nat, s': State)
    requires At(c, s) && w < |s.workers| && s.workers[w].phase.Sending?
    requires s' == State(s.picker, s.workers[w := s.workers[w].(phase := Reading)],
                         s.results + [s.workers[w].phase.result])
    ensures At(c, s')
  {
    Steps(c, s, Send(w), s.workers[w], s');
  }

  // ---- Three seeds ----

  function Seed(hand: Option<nat>, phase: Phase): Worker {
    Worker(true, BOTH, hand, [], false, map[], phase)
  }

  function Pick2(frequency: int, done: bool, inflight: seq<bool>, endgame: bool): PiecePicker.PickerState {
    PiecePicker.PickerState([frequency, frequency], [done, false], inflight, endgame)
  }

  lemma Registered(c: Config, seed: bool)
    requires c.WellFormed() && c.Pieces() == 2
    ensures var k := NewWorker(seed, BOTH);
            && At(c, State(Pick2(2, false, [false, false], false), [k, k], []))
            && At(c, State(Pick2(3, false, [false, false], false), [k, k, k], []))
  {
    BothHas();
    ReservationRuns.InitReachable(c);
    var k := NewWorker(seed, BOTH);
    var s0 := State(Pick2(0, false, [false, false], false), [], []);
    assert Reservation.Init(c) == s0;
    var s1 := State(Pick2(1, false, [false, false], false), [k], []);
    Joins(c, s0, seed, s1);
    var s2 := State(Pick2(2, false, [false, false], false), [k, k], []);
    Joins(c, s1, seed, s2);
    Joins(c, s2, seed, State(Pick2(3, false, [false, false], false), [k, k, k], []));
  }

  lemma FirstChoice(frequency: int)
    ensures var t := Pick2(frequency, false, [false, false], false);
            t.PickAllowed(BOTH, Some(0)) && t.AfterPick(BOTH, Some(0)) == Pick2(frequency, false, [true, false], false)
  {
    BothHas();
    assert Pick2(frequency, false, [false, false], false).Eligible(BOTH, 0);
  }

  lemma SecondChoice(frequency: int)
    ensures var t := Pick2(frequency, false, [true, false], false);
            t.PickAllowed(BOTH, Some(1)) && t.AfterPick(BOTH, Some(1)) == Pick2(frequency, false, [true, true], false)
  {
    BothHas();
    assert Pick2(frequency, false, [true, false], false).Eligible(BOTH, 1);
  }

  /** With both pieces reserved, the third reservation starts endgame. */
  lemma EndgameChoice(frequency: int)
    ensures var t := Pick2(frequency, false, [true, true], false);
            t.PickAllowed(BOTH, Some(0)) && t.AfterPick(BOTH, Some(0)) == Pick2(frequency, false, [true, true], true)
  {
    BothHas();
    assert !Pick2(frequency, false, [true, true], false).done[0];
  }

  lemma SeedsReserveBoth(c: Config)
    requires c.WellFormed() && c.Pieces() == 2
    ensures At(c, State(Pick2(3, false, [true, true], false),
                        [Seed(Some(0), Reading), Seed(Some(1), Reading), Seed(None, Reading)], []))
  {
    var idle, zero, one := Seed(None, Reading), Seed(Some(0), Reading), Seed(Some(1), Reading);
    Registered(c, true);
    var s3 := State(Pick2(3, false, [false, false], false), [idle, idle, idle], []);
    var s4 := State(Pick2(3, false, [true, false], false), [zero, idle, idle], []);
    FirstChoice(3);
    Reserves(c, s3, 0, 0, s4);
    SecondChoice(3);
    Reserves(c, s4, 1, 1, State(Pick2(3, false, [true, true], false), [zero, one, idle], []));
  }

  lemma SeedsHoldBoth(c: Config)
    requires c.WellFormed() && c.Pieces() == 2
    ensures At(c, State(Pick2(3, false, [true, true], true),
                        [Seed(Some(0), Reading), Seed(Some(1), Reading), Seed(Some(0), Reading)], []))
  {
    var idle, zero, one := Seed(None, Reading), Seed(Some(0), Reading), Seed(Some(1), Reading);
    SeedsReserveBoth(c);
    EndgameChoice(3);
    Reserves(c, State(Pick2(3, false, [true, true], false), [zero, one, idle], []), 2, 0,
             State(Pick2(3, false, [true, true], true), [zero, one, zero], []));
  }

  lemma TwiceIsFalseSuccess(c: Config, s: State, d: ByteString)
    requires c.Pieces() == 2 && s.results == [Verified(0, d), Verified(0, d)]
    ensures FalseSuccess(c, s)
  {
    var v := Verified(0, d);
    assert [v][..0] == [];
    assert DownloadSession.VerifiedCount([v]) == 1;
    assert [v, v][..1] == [v];
  }

  /** The same success is right when the piece never written was genuine in the
      initial file, as a piece of zeros is in a new one. */
  lemma DuplicateSuccessVerifiesIff(c: Config, s: State, d: ByteString, file: ByteString)
    requires TwoPieces(c, d) && s.results == [Verified(0, d), Verified(0, d)]
    requires |file| == c.torrent.TotalLength()
    ensures FalseSuccess(c, s) && DownloadSession.GenuineResults(c, s.results)
    ensures DownloadSession.Verifies(c, DownloadSession.Written(c, file, s.results))
            <==> c.Genuine(1, DownloadSession.Region(c, file, 1))
  {
    TwiceIsFalseSuccess(c, s, d);
    GenuineTwice(c, s.results, d);
    DownloadSession.VerifiedIffWrittenOrGenuine(c, file, s.results);
  }

  lemma GenuineTwice(c: Config, results: seq<PieceResult>, d: ByteString)
    requires TwoPieces(c, d) && results == [Verified(0, d), Verified(0, d)]
    ensures DownloadSession.GenuineResults(c, results) && DownloadSession.Wrote(results, 0)
  {
    assert results[0] == Verified(0, d);
    assert DownloadSession.Wrote(results, 0);
  }

  lemma SeedsDuplicate(c: Config, d: ByteString) returns (s: State)
    requires TwoPieces(c, d)
    ensures Reachable(c, s) && FalseSuccess(c, s) && s.results == [Verified(0, d), Verified(0, d)]
  {
    var idle, zero, one := Seed(None, Reading), Seed(Some(0), Reading), Seed(Some(1), Reading);
    var r := Verified(0, d);
    var sending := Seed(None, Sending(r));
    SeedsHoldBoth(c);
    var picker := Pick2(3, true, [false, true], true);
    var s6 := State(Pick2(3, false, [true, true], true), [zero, one, zero], []);
    var s7 := State(picker, [sending, one, zero], []);
    Fetches(c, s6, 0, d, s7);
    var s8 := State(picker, [sending, one, sending], []);
    Fetches(c, s7, 2, d, s8);
    var s9 := State(picker, [idle, one, sending], [r]);
    Sends(c, s8, 0, s9);
    s := State(picker, [idle, one, idle], [r, r]);
    Sends(c, s9, 2, s);
    TwiceIsFalseSuccess(c, s, d);
  }

  // ---- Two peers ----

  function Peer(active: map<nat, Job>, phase: Phase): Worker {
    Worker(false, BOTH, None, [], false, active, phase)
  }

  lemma Enqueues(c: Config, s: State, w: nat, p: nat, s': State)
    requires At(c, s) && w < |s.workers| && !s.workers[w].seed && s.workers[w].hand == Some(p)
    requires s.workers[w].queue == [] && 1 <= c.depth
    requires s' == State(s.picker, s.workers[w := s.workers[w].(hand := None, queue := [p])], s.results)
    ensures At(c, s')
  {
    assert s.workers[w].queue + [p] == [p];
    Steps(c, s, Enqueue(w), s.workers[w], s');
  }

  lemma Registers(c: Config, s: State, w: nat, p: nat, s': State)
    requires At(c, s) && w < |s.workers| && !s.workers[w].seed && s.workers[w].phase.Reading?
    requires s.workers[w].queue == [p] && 0 <= c.torrent.PieceLen(p)
    requires var k := s.workers[w];
             s' == State(s.picker, s.workers[w := k.(queue := [], active := k.active[p := NewJob(c, p)])], s.results)
    ensures At(c, s')
  {
    assert [p][1..] == [];
    Steps(c, s, Register(w), s.workers[w], s');
  }

  /** Reserve, queue and register in a row. */
  lemma Loads(c: Config, s: State, w: nat, p: nat, s': State)
    requires At(c, s) && w < |s.workers| && !s.workers[w].seed && s.workers[w].hand.None? && !s.workers[w].closed
    requires s.workers[w].queue == [] && s.workers[w].phase.Reading? && 1 <= c.depth && 0 <= c.torrent.PieceLen(p)
    requires s.picker.PickAllowed(s.workers[w].bitfield, Some(p))
    requires var k := s.workers[w];
             s' == State(s.picker.AfterPick(k.bitfield, Some(p)),
                         s.workers[w := k.(active := k.active[p := NewJob(c, p)])], s.results)
    ensures At(c, s')
  {
    var k := s.workers[w];
    var s1 := State(s'.picker, s.workers[w := k.(hand := Some(p))], s.results);
    Reserves(c, s, w, p, s1);
    var s2 := State(s'.picker, s.workers[w := k.(queue := [p])], s.results);
    Enqueues(c, s1, w, p, s2);
    Registers(c, s2, w, p, s');
  }

  /** The only block of a piece arrives and the piece is found not to be done. */
  lemma Fills(c: Config, s: State, w: nat, p: nat, d: ByteString, s': State)
    requires At(c, s) && w < |s.workers| && !s.workers[w].seed && s.workers[w].phase.Reading?
    requires p in s.workers[w].active && s.workers[w].active[p].received == 0
    requires |s.workers[w].active[p].buf| == |d| && TorrentLayout.BlockCount(|d|) == 1
    requires p < c.Pieces() && !s.picker.done[p]
    requires var k := s.workers[w];
             s' == State(s.picker, s.workers[w := k.(active := k.active[p := Job(1, d)], phase := Checked(p))],
                         s.results)
    ensures At(c, s')
  {
    var k := s.workers[w];
    assert Overwrite(k.active[p].buf, 0, d) == d;
    var s1 := State(s.picker, s.workers[w := k.(active := k.active[p := Job(1, d)], phase := Complete(p))], s.results);
    Steps(c, s, Block(w, p, 0, d), k, s1);
    Steps(c, s1, AskDone(w), s1.workers[w], s');
  }

  lemma Settles(c: Config, s: State, w: nat, p: nat, d: ByteString, s': State)
    requires At(c, s) && w < |s.workers| && !s.workers[w].seed && s.workers[w].phase == Checked(p)
    requires p in s.workers[w].active && s.workers[w].active[p].buf == d && c.Genuine(p, d)
    requires var k := s.workers[w];
             s' == State(s.picker.AfterFinish(p),
                         s.workers[w := k.(active := k.active - {p}, phase := Sending(Verified(p, d)))], s.results)
    ensures At(c, s')
  {
    Steps(c, s, Settle(w), s.workers[w], s');
  }

  lemma PeersLoadBoth(c: Config)
    requires c.WellFormed() && c.Pieces() == 2 && 1 <= c.depth
    requires 0 <= c.torrent.PieceLen(0) && 0 <= c.torrent.PieceLen(1)
    ensures At(c, State(Pick2(2, false, [true, true], false),
                        [Peer(map[0 := NewJob(c, 0)], Reading), Peer(map[1 := NewJob(c, 1)], Reading)], []))
  {
    var idle, zero := Peer(map[], Reading), Peer(map[0 := NewJob(c, 0)], Reading);
    Registered(c, false);
    var s2 := State(Pick2(2, false, [false, false], false), [idle, idle], []);
    var s3 := State(Pick2(2, false, [true, false], false), [zero, idle], []);
    FirstChoice(2);
    Loads(c, s2, 0, 0, s3);
    SecondChoice(2);
    Loads(c, s3, 1, 1, State(Pick2(2, false, [true, true], false), [zero, Peer(map[1 := NewJob(c, 1)], Reading)], []));
  }

  lemma PeersHoldBoth(c: Config)
    requires c.WellFormed() && c.Pieces() == 2 && 1 <= c.depth
    requires 0 <= c.torrent.PieceLen(0) && 0 <= c.torrent.PieceLen(1)
    ensures At(c, State(Pick2(2, false, [true, true], true),
                        [Peer(map[0 := NewJob(c, 0)], Reading),
                         Peer(map[1 := NewJob(c, 1), 0 := NewJob(c, 0)], Reading)], []))
  {
    var zero, both := Peer(map[0 := NewJob(c, 0)], Reading), Peer(map[1 := NewJob(c, 1), 0 := NewJob(c, 0)], Reading);
    PeersLoadBoth(c);
    EndgameChoice(2);
    Loads(c, State(Pick2(2, false, [true, true], false), [zero, Peer(map[1 := NewJob(c, 1)], Reading)], []), 1, 0,
          State(Pick2(2, false, [true, true], true), [zero, both], []));
  }

  /** Both peers pass the check before either settles. */
  lemma PeersBothChecked(c: Config, d: ByteString)
    requires TwoPieces(c, d) && 1 <= c.depth && TorrentLayout.BlockCount(|d|) == 1 && 0 <= c.torrent.PieceLen(1)
    ensures At(c, State(Pick2(2, false, [true, true], true),
                        [Peer(map[0 := Job(1, d)], Checked(0)),
                         Peer(map[1 := NewJob(c, 1), 0 := Job(1, d)], Checked(0))], []))
  {
    PeersHoldBoth(c);
    var picker := Pick2(2, false, [true, true], true);
    var both := Peer(map[1 := NewJob(c, 1), 0 := NewJob(c, 0)], Reading);
    var s5 := State(picker, [Peer(map[0 := NewJob(c, 0)], Reading), both], []);
    assert map[0 := NewJob(c, 0)][0 := Job(1, d)] == map[0 := Job(1, d)];
    assert both.active[0 := Job(1, d)] == map[1 := NewJob(c, 1), 0 := Job(1, d)];
    var s6 := State(picker, [Peer(map[0 := Job(1, d)], Checked(0)), both], []);
    Fills(c, s5, 0, 0, d, s6);
    Fills(c, s6, 1, 0, d,
          State(picker, [Peer(map[0 := Job(1, d)], Checked(0)),
                         Peer(map[1 := NewJob(c, 1), 0 := Job(1, d)], Checked(0))], []));
  }

  lemma PeersDuplicate(c: Config, d: ByteString) returns (s: State)
    requires TwoPieces(c, d) && 1 <= c.depth && TorrentLayout.BlockCount(|d|) == 1
    ensures Reachable(c, s) && FalseSuccess(c, s) && s.results == [Verified(0, d), Verified(0, d)]
  {
    ReservationRuns.LengthsNonnegative(c);
    PeersBothChecked(c, d);
    var picker, r := Pick2(2, true, [false, true], true), Verified(0, d);
    var one := map[1 := NewJob(c, 1)];
    assert map[0 := Job(1, d)] - {0} == map[];
    assert map[1 := NewJob(c, 1), 0 := Job(1, d)] - {0} == one;
    var second := Peer(map[1 := NewJob(c, 1), 0 := Job(1, d)], Checked(0));
    var s7 := State(Pick2(2, false, [true, true], true), [Peer(map[0 := Job(1, d)], Checked(0)), second], []);
    var s8 := State(picker, [Peer(map[], Sending(r)), second], []);
    Settles(c, s7, 0, 0, d, s8);
    var s9 := State(picker, [Peer(map[], Sending(r)), Peer(one, Sending(r))], []);
    Settles(c, s8, 1, 0, d, s9);
    var s10 := State(picker, [Peer(map[], Reading), Peer(one, Sending(r))], [r]);
    Sends(c, s9, 0, s10);
    s := State(picker, [Peer(map[], Reading), Peer(one, Reading)], [r, r]);
    Sends(c, s10, 1, s);
    TwiceIsFalseSuccess(c, s, d);
  }
}
