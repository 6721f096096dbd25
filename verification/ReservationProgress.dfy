/** The reservation protocol never gets stuck, and a worker's pieces go from its
    sender to its reader in the order they were reserved. */
module ReservationProgress {
  import opened Bytes
  import opened Reservation
  import PiecePicker
  import TorrentLayout

  // ---- Nobody is stuck ----

  /** A step of the worker that is neither an error nor a clean end. */
  ghost predicate Proceeds(a: Action, w: nat) {
    !a.Join? && a.w == w && !a.WriteFails? && !a.ReaderFails?
  }

  lemma SenderCanStep(c: Config, s: State, w: nat) returns (a: Action)
    requires c.WellFormed() && Inv(c, s) && w < |s.workers| && !s.workers[w].seed && 1 <= c.depth
    requires !s.workers[w].closed && s.workers[w].queue == []
    ensures Proceeds(a, w) && Enabled(c, s, a) && (a.Reserve? || a.Enqueue?)
  {
    var k := s.workers[w];
    if k.hand.None? {
      var choice := PiecePicker.SomeChoice(s.picker, k.bitfield);
      a := Reserve(w, choice);
    } else {
      a := Enqueue(w);
    }
  }

  lemma SeedCanStep(c: Config, s: State, w: nat) returns (a: Action)
    requires c.WellFormed() && Inv(c, s) && w < |s.workers| && s.workers[w].seed && s.workers[w].phase.Reading?
    ensures Proceeds(a, w) && Enabled(c, s, a)
  {
    var k := s.workers[w];
    assert WorkerOk(c, k);
    a := if k.hand.Some? then Fetch(w, None) else Return(w);
  }

  lemma ReaderCanStep(c: Config, s: State, w: nat) returns (a: Action)
    requires c.WellFormed() && Inv(c, s) && w < |s.workers| && !s.workers[w].seed && 1 <= c.depth
    requires s.workers[w].phase.Reading? || s.workers[w].phase.Aborting?
    ensures Proceeds(a, w) && Enabled(c, s, a)
  {
    var k := s.workers[w];
    assert WorkerOk(c, k);
    if k.active != map[] {
      var p :| p in k.active;
      assert JobOk(c, k, p);
      a := if k.phase.Reading? then Block(w, p, 0, []) else AbortActive(w, p);
    } else if k.queue != [] {
      assert k.queue[0] in k.queue;
      if k.phase.Reading? {
        TakeFromQueue(c, s, w);
        a := Register(w);
      } else {
        a := AbortQueued(w);
      }
    } else if k.closed {
      a := Return(w);
    } else {
      a := SenderCanStep(c, s, w);
    }
  }

  /** Every piece has a length, so a queued one can be registered. */
  lemma TakeFromQueue(c: Config, s: State, w: nat)
    requires c.WellFormed() && Inv(c, s) && w < |s.workers| && !s.workers[w].seed
    requires s.workers[w].phase.Reading? && s.workers[w].queue != []
    ensures Enabled(c, s, Register(w))
  {
    var p := s.workers[w].queue[0];
    assert p in s.workers[w].queue;
    TorrentLayout.PiecesPartition(c.torrent, p, 0);
  }

  /** In every reachable state every worker that is still there can take a step that
      is no error: it never waits for another worker, only for its peer. */
  lemma NobodyIsStuck(c: Config, s: State, w: nat) returns (a: Action)
    requires c.WellFormed() && Reachable(c, s) && 1 <= c.depth && w < |s.workers| && !s.workers[w].phase.Left?
    ensures Proceeds(a, w) && Enabled(c, s, a)
  {
    ReachableInv(c, s);
    var k := s.workers[w];
    assert WorkerOk(c, k);
    match k.phase
    case Complete(p) =>
      assert JobOk(c, k, p);
      a := AskDone(w);
    case Checked(p) =>
      assert JobOk(c, k, p);
      a := Settle(w);
    case Sending(_) =>
      a := Send(w);
    case Returned =>
      a := Leave(w);
    case _ =>
      if k.seed {
        a := SeedCanStep(c, s, w);
      } else {
        a := ReaderCanStep(c, s, w);
      }
  }

  // ---- How a worker ends ----

  /** Being offered nothing ends a seed's download and a peer worker's sender, which
      then reserves nothing more; a failed write ends the sender too, and frees the
      piece in its hand. */
  lemma SenderEnds(c: Config, s: State, a: Action)
    requires c.WellFormed() && Inv(c, s) && Enabled(c, s, a) && (a.Reserve? || a.WriteFails?)
    ensures var s', k := Apply(c, s, a), s.workers[a.w];
            && (a.Reserve? && a.choice.Some? ==> s'.workers[a.w] == k.(hand := a.choice))
            && (a.Reserve? && a.choice.None? && k.seed ==> s'.workers[a.w] == k.(phase := Returned, closed := true))
            && (a.Reserve? && a.choice.None? && !k.seed ==> s'.workers[a.w] == k.(closed := true))
            && (a.WriteFails? ==>
                  && k.hand.Some? && k.hand.value < c.Pieces()
                  && s'.workers[a.w] == k.(hand := None, closed := true)
                  && s'.picker == s.picker.(inflight := s.picker.inflight[k.hand.value := false]))
    ensures s.workers[a.w].closed ==> !a.Reserve?
  {
    assert WorkerOk(c, s.workers[a.w]);
  }

  /** A failure of the reader makes it give everything back, and nothing else. */
  lemma FailureAborts(c: Config, s: State, w: nat)
    requires c.WellFormed() && Inv(c, s) && Enabled(c, s, ReaderFails(w))
    ensures Apply(c, s, ReaderFails(w)) == s.(workers := s.workers[w := s.workers[w].(phase := Aborting)])
  {
  }

  /** From then on its own steps only free pieces, one by one, until it has none and
      returns; it sends no more results. */
  lemma AbortingGivesBack(c: Config, s: State, a: Action)
    requires c.WellFormed() && Inv(c, s) && Enabled(c, s, a) && !a.Join? && s.workers[a.w].phase.Aborting?
    ensures a.Reserve? || a.WriteFails? || a.Enqueue? || a.AbortActive? || a.AbortQueued? || a.Return?
    ensures var s', k := Apply(c, s, a), s.workers[a.w];
            && s'.results == s.results && s'.picker.done == s.picker.done
            && (if a.Return? then s'.workers[a.w].phase.Returned? else s'.workers[a.w].phase.Aborting?)
            && (a.Return? ==> k.active == map[] && k.queue == [] && k.hand.None?)
            && (a.AbortActive? ==>
                  && a.piece in k.active && a.piece < c.Pieces() && s'.workers[a.w].active == k.active - {a.piece}
                  && s'.picker.inflight == s.picker.inflight[a.piece := false])
            && (a.AbortQueued? ==>
                  && k.queue != [] && k.queue[0] < c.Pieces() && s'.workers[a.w].queue == k.queue[1..]
                  && s'.picker.inflight == s.picker.inflight[k.queue[0] := false])
  {
    assert WorkerOk(c, s.workers[a.w]);
    if a.AbortActive? {
      assert JobOk(c, s.workers[a.w], a.piece);
    }
  }

  // ---- First in, first out ----

  /** What a worker has between reservation and its reader, oldest first. */
  ghost function Pending(k: Worker): seq<nat> {
    k.queue + if k.hand.Some? then [k.hand.value] else []
  }

  /** The piece a step takes from the front, if any. */
  ghost function TakenBy(s: State, a: Action, w: nat): seq<nat>
    requires w < |s.workers|
  {
    if (a == Register(w) || a == AbortQueued(w)) && s.workers[w].queue != [] then [s.workers[w].queue[0]] else []
  }

  ghost function ReservedBy(a: Action, w: nat): seq<nat> {
    if a.Reserve? && a.w == w && a.choice.Some? then [a.choice.value] else []
  }

  /** What a step of a peer worker does to its pending pieces. */
  ghost predicate InOrder(s: State, a: Action, w: nat, k: Worker, k': Worker)
    requires w < |s.workers|
  {
    && !k'.seed && (k.closed ==> k'.closed && ReservedBy(a, w) == [])
    && (a != WriteFails(w) ==> Pending(k) + ReservedBy(a, w) == TakenBy(s, a, w) + Pending(k'))
    && (a == WriteFails(w) ==> k'.closed && k.hand.Some? && Pending(k) == Pending(k') + [k.hand.value])
    && (a == Register(w) ==> k.queue != [] && k.queue[0] in k'.active)
  }

  lemma SenderInOrder(c: Config, s: State, a: Action, w: nat)
    requires c.WellFormed() && Inv(c, s) && Enabled(c, s, a) && w < |s.workers| && !s.workers[w].seed
    requires !a.Join? && a.w == w && (a.Reserve? || a.WriteFails? || a.Enqueue?)
    ensures InOrder(s, a, w, s.workers[w], Apply(c, s, a).workers[w])
  {
    assert WorkerOk(c, s.workers[w]);
  }

  lemma TakerInOrder(c: Config, s: State, a: Action, w: nat)
    requires c.WellFormed() && Inv(c, s) && Enabled(c, s, a) && w < |s.workers| && !s.workers[w].seed
    requires !a.Join? && a.w == w && (a.Register? || a.AbortQueued?)
    ensures InOrder(s, a, w, s.workers[w], Apply(c, s, a).workers[w])
  {
    var k := s.workers[w];
    assert k.queue == [k.queue[0]] + k.queue[1..];
  }

  lemma ReaderInOrder(c: Config, s: State, a: Action, w: nat)
    requires c.WellFormed() && Inv(c, s) && Enabled(c, s, a) && w < |s.workers| && !s.workers[w].seed
    requires !a.Join? && a.w == w
    requires !a.Reserve? && !a.WriteFails? && !a.Enqueue? && !a.Register? && !a.AbortQueued?
    ensures InOrder(s, a, w, s.workers[w], Apply(c, s, a).workers[w])
  {
    assert Apply(c, s, a).workers[w].queue == s.workers[w].queue;
    assert Apply(c, s, a).workers[w].hand == s.workers[w].hand;
  }

  /** A peer worker's step takes from the front and reserves at the back; only a
      failed write drops the newest piece, and then nothing is reserved any more. */
  lemma StepInOrder(c: Config, s: State, a: Action, w: nat)
    requires c.WellFormed() && Inv(c, s) && Enabled(c, s, a) && w < |s.workers| && !s.workers[w].seed
    ensures w < |Apply(c, s, a).workers| && InOrder(s, a, w, s.workers[w], Apply(c, s, a).workers[w])
  {
    if a.Join? || a.w != w {
    } else if a.Reserve? || a.WriteFails? || a.Enqueue? {
      SenderInOrder(c, s, a, w);
    } else if a.Register? || a.AbortQueued? {
      TakerInOrder(c, s, a, w);
    } else {
      ReaderInOrder(c, s, a, w);
    }
  }

  ghost function Reserved(actions: seq<Action>, w: nat): seq<nat> {
    if actions == [] then [] else ReservedBy(actions[0], w) + Reserved(actions[1..], w)
  }

  ghost function Taken(c: Config, s: State, actions: seq<Action>, w: nat): seq<nat>
    requires c.WellFormed() && Runs(c, s, actions) && w < |s.workers|
    decreases |actions|
  {
    if actions == [] then []
    else
      assert |s.workers| <= |Apply(c, s, actions[0]).workers|;
      TakenBy(s, actions[0], w) + Taken(c, Apply(c, s, actions[0]), actions[1..], w)
  }

  lemma {:induction false} ClosedReservesNothing(c: Config, s: State, actions: seq<Action>, w: nat)
    requires c.WellFormed() && Inv(c, s) && Runs(c, s, actions) && w < |s.workers| && !s.workers[w].seed
    requires s.workers[w].closed
    ensures Reserved(actions, w) == []
    decreases |actions|
  {
    if actions != [] {
      StepInOrder(c, s, actions[0], w);
      StepKeepsInv(c, s, actions[0]);
      ClosedReservesNothing(c, Apply(c, s, actions[0]), actions[1..], w);
    }
  }

  lemma Chain(pending: seq<nat>, r: seq<nat>, t: seq<nat>, pending': seq<nat>, rs: seq<nat>, ts: seq<nat>)
    requires pending + r == t + pending' && ts <= pending' + rs
    ensures t + ts <= pending + (r + rs)
  {
    assert pending + (r + rs) == (pending + r) + rs;
    assert (t + pending') + rs == t + (pending' + rs);
  }

  /** Over any run the pieces that reach the reader are a first part of those that
      were pending and those reserved since, in that order: none is skipped,
      repeated or overtaken. */
  lemma {:induction false} RunInOrder(c: Config, s: State, actions: seq<Action>, w: nat)
    requires c.WellFormed() && Inv(c, s) && Runs(c, s, actions) && w < |s.workers| && !s.workers[w].seed
    ensures Taken(c, s, actions, w) <= Pending(s.workers[w]) + Reserved(actions, w)
    decreases |actions|
  {
    if actions != [] {
      var a, s' := actions[0], Apply(c, s, actions[0]);
      StepInOrder(c, s, a, w);
      StepKeepsInv(c, s, a);
      RunInOrder(c, s', actions[1..], w);
      if a == WriteFails(w) {
        ClosedReservesNothing(c, s', actions[1..], w);
        DropNewest(Pending(s.workers[w]), Pending(s'.workers[w]), Taken(c, s', actions[1..], w));
      } else {
        Chain(Pending(s.workers[w]), ReservedBy(a, w), TakenBy(s, a, w), Pending(s'.workers[w]),
              Reserved(actions[1..], w), Taken(c, s', actions[1..], w));
      }
    }
  }

  lemma DropNewest(pending: seq<nat>, pending': seq<nat>, ts: seq<nat>)
    requires pending' <= pending && ts <= pending' + []
    ensures [] + ts <= pending + ([] + [])
  {
    assert pending' + [] == pending';
  }
}
