/** What reaches a job of the reservation protocol: where each block of a piece
    lands in the job's buffer, and that a piece whose blocks all arrive is
    delivered, whatever other steps come in between. */
module PieceDelivery {
  import opened Bytes
  import opened Reservation
  import FiniteSets
  import PiecePicker
  import TorrentLayout
  import BlockAssembly

  const BLOCK_SIZE: nat := TorrentLayout.BLOCK_SIZE

  /** The message is a block of a piece that the worker has active, and it fits. */
  ghost predicate Accepted(k: Worker, a: Action, p: nat) {
    a.Block? && a.index == p && p in k.active && a.begin + |a.data| <= |k.active[p].buf|
  }

  /** Every byte of an accepted block goes to its own place, and nothing else
      changes but the count; with the last block counted the piece is complete. A
      block of another piece, or one that does not fit, changes nothing. */
  lemma BlockLands(c: Config, s: State, a: Action)
    requires c.WellFormed() && Inv(c, s) && Enabled(c, s, a) && a.Block?
    ensures var s', k, p := Apply(c, s, a), s.workers[a.w], a.index;
            && |s'.workers| == |s.workers| && s'.picker == s.picker && s'.results == s.results
            && (forall v :: 0 <= v < |s.workers| && v != a.w ==> s'.workers[v] == s.workers[v])
            && (!Accepted(k, a, p) ==> s'.workers[a.w] == k)
            && (Accepted(k, a, p) ==>
                  var k' := s'.workers[a.w];
                  && k'.active.Keys == k.active.Keys
                  && (forall q :: q in k.active && q != p ==> k'.active[q] == k.active[q])
                  && k'.active[p].received == k.active[p].received + 1
                  && |k'.active[p].buf| == |k.active[p].buf|
                  && (forall i :: 0 <= i < |k.active[p].buf| ==>
                        k'.active[p].buf[i] ==
                        if a.begin <= i < a.begin + |a.data| then a.data[i - a.begin] else k.active[p].buf[i])
                  && k'.phase == (if k.active[p].received + 1 == TorrentLayout.BlockCount(|k.active[p].buf|)
                                  then Complete(p) else Reading))
  {
  }

  lemma OtherStepOnJob(c: Config, s: State, a: Action, w: nat, p: nat)
    requires c.WellFormed() && Inv(c, s) && Enabled(c, s, a) && !a.Join? && !a.Block? && a.w == w
    requires p in s.workers[w].active && p in Apply(c, s, a).workers[w].active
    ensures var k, k' := s.workers[w], Apply(c, s, a).workers[w];
            k'.active[p] == if a.Register? && k.queue[0] == p then NewJob(c, p) else k.active[p]
  {
  }

  /** What a step does to a job that stays active. */
  lemma StepOnJob(c: Config, s: State, a: Action, w: nat, p: nat)
    requires c.WellFormed() && Inv(c, s) && Enabled(c, s, a) && w < |s.workers|
    requires p in s.workers[w].active
    requires w < |Apply(c, s, a).workers| && p in Apply(c, s, a).workers[w].active
    ensures var k, k' := s.workers[w], Apply(c, s, a).workers[w];
            if !a.Join? && a.w == w && Accepted(k, a, p) then
              k'.active[p] == Job(k.active[p].received + 1, Overwrite(k.active[p].buf, a.begin, a.data))
            else if a == Register(w) && k.queue[0] == p then
              k'.active[p] == NewJob(c, p)
            else
              k'.active[p] == k.active[p]
  {
    if a.Join? || a.w != w {
    } else if a.Block? {
      BlockLands(c, s, a);
      if Accepted(s.workers[w], a, p) {
        LandedIsOverwritten(s.workers[w].active[p].buf, Apply(c, s, a).workers[w].active[p].buf, a.begin, a.data);
      }
    } else {
      OtherStepOnJob(c, s, a, w, p);
    }
  }

  lemma LandedIsOverwritten(buf: ByteString, buf': ByteString, begin: nat, data: ByteString)
    requires begin + |data| <= |buf| == |buf'|
    requires forall i :: 0 <= i < |buf| ==> buf'[i] == if begin <= i < begin + |data| then data[i - begin] else buf[i]
    ensures buf' == Overwrite(buf, begin, data)
  {
    var r := Overwrite(buf, begin, data);
    forall i | 0 <= i < |buf|
      ensures r[i] == buf'[i]
    {
      if i < begin {
        assert r[..begin][i] == buf[..begin][i];
      } else if i < begin + |data| {
        assert r[begin..begin + |data|][i - begin] == data[i - begin];
      } else {
        assert r[begin + |data|..][i - begin - |data|] == buf[begin + |data|..][i - begin - |data|];
      }
    }
  }

  /** A registered piece starts with no blocks and an empty buffer of its length. */
  lemma RegisterStarts(c: Config, s: State, w: nat)
    requires c.WellFormed() && Inv(c, s) && Enabled(c, s, Register(w))
    ensures var p, k' := s.workers[w].queue[0], Apply(c, s, Register(w)).workers[w];
            && p in k'.active && k'.active[p].received == 0
            && |k'.active[p].buf| == c.torrent.PieceLen(p)
            && forall i :: 0 <= i < |k'.active[p].buf| ==> k'.active[p].buf[i] == 0
  {
  }

  // ---- Runs that deliver a piece ----

  /** The step, if it is a block accepted for the job, is a block of `d` still in
      `left`; and it does not register the piece again. */
  ghost predicate StepDelivers(c: Config, s: State, a: Action, w: nat, p: nat, d: ByteString, left: set<nat>)
    requires c.WellFormed() && Enabled(c, s, a) && w < |s.workers|
  {
    if !a.Join? && a.w == w && Accepted(s.workers[w], a, p) then
      var k := a.begin / BLOCK_SIZE;
      k in left && k * BLOCK_SIZE == a.begin && a.begin <= |d| && a.data == Chunk(d, BLOCK_SIZE, k)
    else !(a == Register(w) && s.workers[w].queue[0] == p)
  }

  ghost function Remaining(s: State, a: Action, w: nat, p: nat, left: set<nat>): set<nat>
    requires w < |s.workers|
  {
    if !a.Join? && a.w == w && Accepted(s.workers[w], a, p) then left - {a.begin / BLOCK_SIZE} else left
  }

  /** Over the run the job of `p` at worker `w` receives each block of `d` in `left`
      exactly once, in any order and with any other steps in between, and stays
      active. */
  ghost predicate Delivers(c: Config, s: State, actions: seq<Action>, w: nat, p: nat, d: ByteString, left: set<nat>)
    requires c.WellFormed() && Runs(c, s, actions)
    decreases |actions|
  {
    && w < |s.workers| && p in s.workers[w].active
    && if actions == [] then left == {}
       else
         && StepDelivers(c, s, actions[0], w, p, d, left)
         && Delivers(c, Apply(c, s, actions[0]), actions[1..], w, p, d, Remaining(s, actions[0], w, p, left))
  }

  /** The job has the blocks of `d` that are not in `left`. */
  ghost predicate Holds(s: State, w: nat, p: nat, d: ByteString, left: set<nat>) {
    && w < |s.workers| && p in s.workers[w].active
    && BlockAssembly.FilledBut(s.workers[w].active[p].buf, d, left)
    && s.workers[w].active[p].received + |left| == TorrentLayout.BlockCount(|d|)
  }

  lemma StepHolds(c: Config, s: State, a: Action, w: nat, p: nat, d: ByteString, left: set<nat>)
    requires c.WellFormed() && Inv(c, s) && Enabled(c, s, a) && Holds(s, w, p, d, left)
    requires StepDelivers(c, s, a, w, p, d, left)
    requires w < |Apply(c, s, a).workers| && p in Apply(c, s, a).workers[w].active
    ensures Holds(Apply(c, s, a), w, p, d, Remaining(s, a, w, p, left))
  {
    StepOnJob(c, s, a, w, p);
    if !a.Join? && a.w == w && Accepted(s.workers[w], a, p) {
      var k := a.begin / BLOCK_SIZE;
      BlockAssembly.FillBlock(s.workers[w].active[p].buf, d, left, k);
    }
  }

  lemma {:induction false} RunHolds(c: Config, s: State, actions: seq<Action>, w: nat, p: nat, d: ByteString,
                                    left: set<nat>)
    requires c.WellFormed() && Inv(c, s) && Runs(c, s, actions) && Holds(s, w, p, d, left)
    requires Delivers(c, s, actions, w, p, d, left)
    ensures Inv(c, After(c, s, actions)) && Holds(After(c, s, actions), w, p, d, {})
    decreases |actions|
  {
    if actions != [] {
      var s' := Apply(c, s, actions[0]);
      StepKeepsInv(c, s, actions[0]);
      StepHolds(c, s, actions[0], w, p, d, left);
      RunHolds(c, s', actions[1..], w, p, d, Remaining(s, actions[0], w, p, left));
    }
  }

  /** The blocks of a piece of `n` bytes, by number. */
  ghost function Blocks(n: nat): set<nat> {
    FiniteSets.Below(TorrentLayout.BlockCount(n))
  }

  lemma FreshHolds(c: Config, s: State, w: nat, p: nat, d: ByteString)
    requires c.WellFormed() && Inv(c, s) && w < |s.workers| && p in s.workers[w].active && |d| == c.torrent.PieceLen(p)
    requires s.workers[w].active[p].received == 0
    ensures Holds(s, w, p, d, Blocks(|d|))
  {
    assert JobOk(c, s.workers[w], p);
    FiniteSets.Pigeonhole(Blocks(|d|), TorrentLayout.BlockCount(|d|));
  }

  /** From a job without blocks, whatever the order of the blocks and whatever else
      happens meanwhile: once each block of a genuine piece has arrived the buffer
      is the piece and the job is being settled. */
  lemma DeliveredIsComplete(c: Config, s: State, actions: seq<Action>, w: nat, p: nat, d: ByteString)
    requires c.WellFormed() && Inv(c, s) && Runs(c, s, actions) && c.Genuine(p, d)
    requires w < |s.workers| && p in s.workers[w].active && s.workers[w].active[p].received == 0
    requires Delivers(c, s, actions, w, p, d, Blocks(|d|))
    ensures var s' := After(c, s, actions);
            && Inv(c, s') && w < |s'.workers| && p in s'.workers[w].active
            && s'.workers[w].active[p].buf == d
            && (s'.workers[w].phase == Complete(p) || s'.workers[w].phase == Checked(p))
  {
    FreshHolds(c, s, w, p, d);
    RunHolds(c, s, actions, w, p, d, Blocks(|d|));
    var s' := After(c, s, actions);
    assert JobOk(c, s'.workers[w], p);
    assert forall j :: 0 <= j < |d| ==> s'.workers[w].active[p].buf[j] == d[j];
    assert s'.workers[w].active[p].buf == d;
  }

  // ---- Settling ----

  /** Asked about a complete piece, the picker's answer decides: done, the job is
      dropped without a result; not done, it goes on to verification. */
  lemma AskDoneDecides(c: Config, s: State, w: nat)
    requires c.WellFormed() && Inv(c, s) && w < |s.workers| && !s.workers[w].seed && s.workers[w].phase.Complete?
    ensures var k, p := s.workers[w], s.workers[w].phase.piece;
            && p < c.Pieces() && p in k.active && Enabled(c, s, AskDone(w))
            && var s' := Apply(c, s, AskDone(w));
               && s'.picker == s.picker && s'.results == s.results
               && (s.picker.done[p] ==> s'.workers[w] == k.(phase := Reading, active := k.active - {p}))
               && (!s.picker.done[p] ==> s'.workers[w] == k.(phase := Checked(p)))
  {
    assert JobOk(c, s.workers[w], s.workers[w].phase.piece);
  }

  /** Verification by hash decides what becomes of the piece: with the torrent's
      hash it is done and a verified result of exactly these bytes is to be sent;
      otherwise it is free again and a failure is to be sent. */
  lemma SettleDecides(c: Config, s: State, w: nat)
    requires c.WellFormed() && Inv(c, s) && w < |s.workers| && !s.workers[w].seed && s.workers[w].phase.Checked?
    ensures var k, p := s.workers[w], s.workers[w].phase.piece;
            && p < c.Pieces() && p in k.active && Enabled(c, s, Settle(w))
            && var s', good := Apply(c, s, Settle(w)), c.hash(k.active[p].buf) == c.torrent.pieces[p];
               && s'.workers[w] == k.(active := k.active - {p},
                                      phase := Sending(if good then Verified(p, k.active[p].buf) else Failed(p)))
               && s'.picker == s.picker.(done := if good then s.picker.done[p := true] else s.picker.done,
                                         inflight := s.picker.inflight[p := false])
               && s'.results == s.results
  {
    assert JobOk(c, s.workers[w], s.workers[w].phase.piece);
  }

  /** A result about to be sent stays so until it is sent, and is sent unchanged. */
  lemma SendingIsSent(c: Config, s: State, a: Action, w: nat)
    requires c.WellFormed() && Inv(c, s) && Enabled(c, s, a) && w < |s.workers| && s.workers[w].phase.Sending?
    ensures var s' := Apply(c, s, a);
            && w < |s'.workers|
            && (a == Send(w) ==>
                  s'.results == s.results + [s.workers[w].phase.result] && s'.workers[w].phase == Reading)
            && (a != Send(w) ==> s'.workers[w].phase == s.workers[w].phase)
  {
    assert WorkerOk(c, s.workers[w]);
  }

  /** So a genuine piece that has arrived, and is not done when asked for, becomes a
      verified result with exactly its bytes. */
  lemma DeliveredIsVerified(c: Config, s: State, w: nat, p: nat, d: ByteString)
    requires c.WellFormed() && Inv(c, s) && c.Genuine(p, d) && w < |s.workers|
    requires p in s.workers[w].active && s.workers[w].active[p].buf == d
    ensures s.workers[w].phase == Complete(p) && p < |s.picker.done| && !s.picker.done[p] ==>
              Enabled(c, s, AskDone(w))
              && Apply(c, s, AskDone(w)).workers[w] == s.workers[w].(phase := Checked(p))
    ensures s.workers[w].phase == Checked(p) ==>
              Enabled(c, s, Settle(w)) && Apply(c, s, Settle(w)).workers[w].phase == Sending(Verified(p, d))
  {
    assert WorkerOk(c, s.workers[w]);
    if s.workers[w].phase == Complete(p) {
      AskDoneDecides(c, s, w);
    } else if s.workers[w].phase == Checked(p) {
      SettleDecides(c, s, w);
    }
  }

  /** A seed's fetched body is verified exactly when it has the piece's length and
      hash; otherwise the piece is free again. */
  lemma FetchDecides(c: Config, s: State, w: nat, body: Option<ByteString>)
    requires c.WellFormed() && Inv(c, s) && w < |s.workers|
    requires s.workers[w].seed && s.workers[w].phase.Reading? && s.workers[w].hand.Some?
    ensures var k, p := s.workers[w], s.workers[w].hand.value;
            && p < c.Pieces() && Enabled(c, s, Fetch(w, body))
            && var s' := Apply(c, s, Fetch(w, body));
               var good := body.Some? && |body.value| == c.torrent.PieceLen(p)
                           && c.hash(body.value) == c.torrent.pieces[p];
               && s'.workers[w] == k.(hand := None,
                                      phase := Sending(if good then Verified(p, body.value) else Failed(p)))
               && s'.picker == s.picker.(done := if good then s.picker.done[p := true] else s.picker.done,
                                         inflight := s.picker.inflight[p := false])
  {
    assert WorkerOk(c, s.workers[w]);
  }
}
