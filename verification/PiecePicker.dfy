/** Rarest-first piece selection with an endgame mode. The picker is a mutable
    object guarded by one lock, so each method is one atomic step; its effect is
    stated on the value `PickerState`, which the reservation protocol reuses. */
module PiecePicker {
  import opened Bytes

  type Bitfield = seq<bv8>

  /** MSB-first: bit 7 of byte 0 is piece 0. */
  predicate HasPiece(bitfield: Bitfield, index: nat) {
    && index / 8 < |bitfield|
    && bitfield[index / 8] & ((1 as bv8) << (7 - index % 8)) != 0
  }

  datatype PickerState = PickerState(frequency: seq<int>, done: seq<bool>, inflight: seq<bool>, endgame: bool) {
    ghost predicate Valid() {
      |frequency| == |done| == |inflight|
    }

    /** What the scan of `Pick` keeps: unfinished, owned by the peer, and not
        already reserved unless endgame is on. */
    predicate Eligible(bitfield: Bitfield, i: nat) {
      && i < |done| && i < |inflight|
      && !done[i]
      && (!inflight[i] || endgame)
      && HasPiece(bitfield, i)
    }

    /** What the scan of `pickEndgame` keeps. */
    predicate Duplicable(bitfield: Bitfield, i: nat) {
      i < |done| && i < |inflight| && !done[i] && inflight[i] && HasPiece(bitfield, i)
    }

    ghost predicate Rarest(bitfield: Bitfield, i: nat)
      requires Valid()
    {
      && Eligible(bitfield, i)
      && forall j: nat :: Eligible(bitfield, j) ==> frequency[i] <= frequency[j]
    }

    /** Everything left is reserved, and something is left. */
    ghost predicate EndgameReady()
      requires Valid()
    {
      && (forall i :: 0 <= i < |done| ==> done[i] || inflight[i])
      && (exists i :: 0 <= i < |done| && !done[i])
    }

    ghost predicate EntersEndgame(bitfield: Bitfield)
      requires Valid()
    {
      && (forall i: nat :: !Eligible(bitfield, i))
      && !endgame
      && EndgameReady()
    }

    /** The choices `Pick` may make; ties are broken at random. */
    ghost predicate PickAllowed(bitfield: Bitfield, choice: Option<nat>)
      requires Valid()
    {
      if EntersEndgame(bitfield) then
        match choice
        case Some(i) => Duplicable(bitfield, i)
        case None => forall i: nat :: !Duplicable(bitfield, i)
      else
        match choice
        case Some(i) => Rarest(bitfield, i)
        case None => forall i: nat :: !Eligible(bitfield, i)
    }

    ghost function AfterPick(bitfield: Bitfield, choice: Option<nat>): PickerState
      requires Valid() && PickAllowed(bitfield, choice)
    {
      if EntersEndgame(bitfield) then this.(endgame := true)
      else if choice.Some? then this.(inflight := inflight[choice.value := true])
      else this
    }

    ghost function AfterFinish(i: nat): PickerState
      requires Valid() && i < |done|
    {
      this.(done := done[i := true], inflight := inflight[i := false])
    }

    ghost function AfterAbort(i: nat): PickerState
      requires Valid() && i < |done|
    {
      this.(inflight := inflight[i := false])
    }

    ghost function AfterAddPeer(bitfield: Bitfield): PickerState
      requires Valid()
    {
      this.(frequency := Shifted(frequency, bitfield, 1))
    }

    ghost function AfterRemovePeer(bitfield: Bitfield): PickerState
      requires Valid()
    {
      this.(frequency := Shifted(frequency, bitfield, -1))
    }
  }

  /** Counts moved by `delta` at every piece of the bitfield. */
  ghost function Shifted(frequency: seq<int>, bitfield: Bitfield, delta: int): (r: seq<int>)
    ensures |r| == |frequency|
    ensures forall i :: 0 <= i < |r| ==> r[i] == frequency[i] + if HasPiece(bitfield, i) then delta else 0
  {
    seq(|frequency|, i requires 0 <= i < |frequency| => frequency[i] + if HasPiece(bitfield, i) then delta else 0)
  }

  ghost function Fresh(numPieces: nat): (s: PickerState)
    ensures s.Valid()
  {
    PickerState(seq(numPieces, _ => 0), seq(numPieces, _ => false), seq(numPieces, _ => false), false)
  }

  class Picker {
    var frequency: seq<int>
    var done: seq<bool>
    var inflight: seq<bool>
    var endgame: bool

    ghost predicate Valid()
      reads this
    {
      State().Valid()
    }

    ghost function State(): PickerState
      reads this
    {
      PickerState(frequency, done, inflight, endgame)
    }

    constructor (numPieces: nat)
      ensures Valid()
      ensures State() == Fresh(numPieces)
    {
      frequency := seq(numPieces, _ => 0);
      done := seq(numPieces, _ => false);
      inflight := seq(numPieces, _ => false);
      endgame := false;
    }

    method AddPeer(bitfield: Bitfield)
      requires Valid()
      modifies this`frequency
      ensures Valid()
      ensures State() == old(State()).AfterAddPeer(bitfield)
    {
      for i := 0 to |frequency|
        invariant |frequency| == |old(frequency)|
        invariant forall k :: 0 <= k < |frequency| ==>
          frequency[k] == old(frequency)[k] + if k < i && HasPiece(bitfield, k) then 1 else 0
      {
        if HasPiece(bitfield, i) {
          frequency := frequency[i := frequency[i] + 1];
        }
      }
      assert frequency == Shifted(old(frequency), bitfield, 1);
    }

    method RemovePeer(bitfield: Bitfield)
      requires Valid()
      modifies this`frequency
      ensures Valid()
      ensures State() == old(State()).AfterRemovePeer(bitfield)
    {
      for i := 0 to |frequency|
        invariant |frequency| == |old(frequency)|
        invariant forall k :: 0 <= k < |frequency| ==>
          frequency[k] == old(frequency)[k] + if k < i && HasPiece(bitfield, k) then -1 else 0
      {
        if HasPiece(bitfield, i) {
          frequency := frequency[i := frequency[i] - 1];
        }
      }
      assert frequency == Shifted(old(frequency), bitfield, -1);
    }

    /** The scan keeps the indices tied for the lowest frequency so far. The
        source starts from the largest machine integer; no count exceeds it, so
        "no candidate yet" plays the same part here. */
    method Pick(bitfield: Bitfield) returns (choice: Option<nat>)
      requires Valid()
      modifies this`inflight, this`endgame
      ensures Valid()
      ensures old(State()).PickAllowed(bitfield, choice)
      ensures State() == old(State()).AfterPick(bitfield, choice)
    {
      ghost var s := State();
      var candidates: seq<nat>, bestFreq := [], 0;
      for i := 0 to |done|
        invariant forall c :: c in candidates <==>
          0 <= c < i && s.Eligible(bitfield, c) && frequency[c] == bestFreq
        invariant forall k: nat :: k < i && s.Eligible(bitfield, k) ==> candidates != [] && bestFreq <= frequency[k]
      {
        if done[i] || (inflight[i] && !endgame) || !HasPiece(bitfield, i) {
          continue;
        }
        var f := frequency[i];
        if candidates == [] || f < bestFreq {
          bestFreq := f;
          candidates := [i];
        } else if f == bestFreq {
          candidates := candidates + [i];
        }
      }
      if |candidates| == 0 {
        assert forall k: nat :: !s.Eligible(bitfield, k);
        var ready := ShouldEnterEndgame();
        if !endgame && ready {
          endgame := true;
          choice := PickEndgame(bitfield);
          assert forall i: nat :: s.Duplicable(bitfield, i) <==> State().Duplicable(bitfield, i);
          return;
        }
        return None;
      }
      var r :| 0 <= r < |candidates|;
      assert candidates[r] in candidates;
      choice := Some(candidates[r]);
      assert s.Rarest(bitfield, candidates[r]);
      inflight := inflight[candidates[r] := true];
    }

    method PickEndgame(bitfield: Bitfield) returns (choice: Option<nat>)
      requires Valid()
      ensures match choice
              case Some(i) => State().Duplicable(bitfield, i)
              case None => forall i: nat :: !State().Duplicable(bitfield, i)
    {
      var candidates: seq<nat> := [];
      for i := 0 to |done|
        invariant forall c :: c in candidates <==> 0 <= c < i && State().Duplicable(bitfield, c)
      {
        if done[i] || !inflight[i] || !HasPiece(bitfield, i) {
          continue;
        }
        candidates := candidates + [i];
      }
      if |candidates| == 0 {
        return None;
      }
      var r :| 0 <= r < |candidates|;
      assert candidates[r] in candidates;
      choice := Some(candidates[r]);
    }

    method ShouldEnterEndgame() returns (ready: bool)
      requires Valid()
      ensures ready <==> State().EndgameReady()
    {
      for i := 0 to |done|
        invariant forall k :: 0 <= k < i ==> done[k] || inflight[k]
      {
        if !done[i] && !inflight[i] {
          return false;
        }
      }
      for i := 0 to |done|
        invariant forall k :: 0 <= k < i ==> done[k]
      {
        if !done[i] {
          return true;
        }
      }
      return false;
    }

    method Finish(index: nat)
      requires Valid() && index < |done|
      modifies this`done, this`inflight
      ensures Valid()
      ensures State() == old(State()).AfterFinish(index)
    {
      done := done[index := true];
      inflight := inflight[index := false];
    }

    method Abort(index: nat)
      requires Valid() && index < |done|
      modifies this`inflight
      ensures Valid()
      ensures State() == old(State()).AfterAbort(index)
    {
      inflight := inflight[index := false];
    }
  }

  // ---- Availability over whole runs ----

  /** How many of the registered bitfields have piece `i`. */
  ghost function Availability(registered: seq<Bitfield>, i: nat): nat {
    if registered == [] then 0
    else (if HasPiece(registered[0], i) then 1 else 0) + Availability(registered[1..], i)
  }

  ghost function Without<T>(xs: seq<T>, k: nat): seq<T>
    requires k < |xs|
  {
    xs[..k] + xs[k + 1..]
  }

  lemma {:induction false} AvailabilityAppend(registered: seq<Bitfield>, bitfield: Bitfield, i: nat)
    ensures Availability(registered + [bitfield], i) ==
            Availability(registered, i) + if HasPiece(bitfield, i) then 1 else 0
  {
    if registered == [] {
      assert registered + [bitfield] == [bitfield];
    } else {
      assert (registered + [bitfield])[1..] == registered[1..] + [bitfield];
      AvailabilityAppend(registered[1..], bitfield, i);
    }
  }

  lemma {:induction false} AvailabilityWithout(registered: seq<Bitfield>, k: nat, i: nat)
    requires k < |registered|
    ensures Availability(Without(registered, k), i) ==
            Availability(registered, i) - if HasPiece(registered[k], i) then 1 else 0
  {
    if k == 0 {
      assert Without(registered, k) == registered[1..];
    } else {
      assert Without(registered, k)[1..] == Without(registered[1..], k - 1);
      AvailabilityWithout(registered[1..], k - 1, i);
    }
  }

  datatype Operation =
    | AddPeer(bitfield: Bitfield)
    | RemovePeer(position: nat)  // which of the registered bitfields leaves
    | Pick(picker: Bitfield, choice: Option<nat>)
    | Finish(index: nat)
    | Abort(index: nat)

  /** The picker with the bitfields registered so far. */
  datatype Session = Session(state: PickerState, registered: seq<Bitfield>)

  ghost predicate Enabled(s: Session, op: Operation) {
    && s.state.Valid()
    && match op
       case AddPeer(_) => true
       case RemovePeer(k) => k < |s.registered|
       case Pick(bf, choice) => s.state.PickAllowed(bf, choice)
       case Finish(i) => i < |s.state.done|
       case Abort(i) => i < |s.state.done|
  }

  ghost function Apply(s: Session, op: Operation): Session
    requires Enabled(s, op)
  {
    match op
    case AddPeer(bf) => Session(s.state.AfterAddPeer(bf), s.registered + [bf])
    case RemovePeer(k) => Session(s.state.AfterRemovePeer(s.registered[k]), Without(s.registered, k))
    case Pick(bf, choice) => s.(state := s.state.AfterPick(bf, choice))
    case Finish(i) => s.(state := s.state.AfterFinish(i))
    case Abort(i) => s.(state := s.state.AfterAbort(i))
  }

  ghost predicate CountsPeers(s: Session) {
    && s.state.Valid()
    && forall i :: 0 <= i < |s.state.frequency| ==> s.state.frequency[i] == Availability(s.registered, i)
  }

  lemma StepCountsPeers(s: Session, op: Operation)
    requires CountsPeers(s) && Enabled(s, op)
    ensures CountsPeers(Apply(s, op))
  {
    forall i | 0 <= i < |s.state.frequency|
      ensures Apply(s, op).state.frequency[i] == Availability(Apply(s, op).registered, i)
    {
      match op
      case AddPeer(bf) => AvailabilityAppend(s.registered, bf, i);
      case RemovePeer(k) => AvailabilityWithout(s.registered, k, i);
      case _ =>
    }
  }

  ghost predicate Runs(s: Session, ops: seq<Operation>)
    decreases |ops|
  {
    ops != [] ==> Enabled(s, ops[0]) && Runs(Apply(s, ops[0]), ops[1..])
  }

  ghost function After(s: Session, ops: seq<Operation>): (r: Session)
    requires Runs(s, ops)
    ensures s.state.Valid() ==> r.state.Valid() && |r.state.done| == |s.state.done|
    decreases |ops|
  {
    if ops == [] then s else After(Apply(s, ops[0]), ops[1..])
  }

  lemma {:induction false} RunCountsPeers(s: Session, ops: seq<Operation>)
    requires CountsPeers(s) && Runs(s, ops)
    ensures CountsPeers(After(s, ops))
    decreases |ops|
  {
    if ops != [] {
      StepCountsPeers(s, ops[0]);
      RunCountsPeers(Apply(s, ops[0]), ops[1..]);
    }
  }

  /** After any run from a new picker, a choice made outside endgame is a piece
      of least availability among the connected peers, taken from those the
      asking peer has and nobody has finished or reserved. */
  lemma PickIsRarestFirst(numPieces: nat, ops: seq<Operation>, bitfield: Bitfield, i: nat)
    requires Runs(Session(Fresh(numPieces), []), ops)
    requires var s := After(Session(Fresh(numPieces), []), ops);
             s.state.PickAllowed(bitfield, Some(i)) && !s.state.AfterPick(bitfield, Some(i)).endgame
    ensures var s := After(Session(Fresh(numPieces), []), ops);
            && i < numPieces && !s.state.done[i] && !s.state.inflight[i] && HasPiece(bitfield, i)
            && forall j: nat :: j < numPieces && !s.state.done[j] && !s.state.inflight[j] && HasPiece(bitfield, j) ==>
                 Availability(s.registered, i) <= Availability(s.registered, j)
  {
    RunCountsPeers(Session(Fresh(numPieces), []), ops);
    var s := After(Session(Fresh(numPieces), []), ops).state;
    assert forall j: nat :: j < numPieces && !s.done[j] && !s.inflight[j] && HasPiece(bitfield, j) ==>
      s.Eligible(bitfield, j);
  }

  // ---- Full bitfields ----

  /** `makeFullBitfield`: every byte 0xFF, then the spare low bits of the last
      byte cleared. It claims exactly the pieces of the torrent. */
  method MakeFullBitfield(numPieces: nat) returns (bitfield: Bitfield)
    ensures |bitfield| == (numPieces + 7) / 8
    ensures forall i: nat :: HasPiece(bitfield, i) <==> i < numPieces
  {
    if numPieces == 0 {
      return [];
    }
    var numBytes := (numPieces + 7) / 8;
    bitfield := [];
    for i := 0 to numBytes
      invariant |bitfield| == i
      invariant forall k :: 0 <= k < i ==> bitfield[k] == 0xFF
    {
      bitfield := bitfield + [0xFF];
    }
    var spare := numBytes * 8 - numPieces;
    if spare > 0 {
      bitfield := bitfield[numBytes - 1 := (0xFF as bv8) << spare];
    }
    forall i: nat ensures HasPiece(bitfield, i) <==> i < numPieces {
      if i < numBytes * 8 {
        BitOfMask(spare, 7 - i % 8);
      }
    }
  }

  lemma BitOfMask(spare: nat, bit: nat)
    requires spare < 8 && bit < 8
    ensures (0xFF as bv8) & ((1 as bv8) << bit) != 0
    ensures ((0xFF as bv8) << spare) & ((1 as bv8) << bit) != 0 <==> spare <= bit
  {
  }

  // ---- What the choices are, in the marks themselves ----

  /** Bit 7 of byte 0 is piece 0, bit 0 of byte 0 is piece 7, and so on. */
  lemma BitOfPiece(bitfield: Bitfield, i: nat)
    ensures HasPiece(bitfield, i) <==>
            i / 8 < |bitfield|
            && bitfield[i / 8] & (match i % 8
                                  case 0 => 0x80 case 1 => 0x40 case 2 => 0x20 case 3 => 0x10
                                  case 4 => 0x08 case 5 => 0x04 case 6 => 0x02 case _ => 0x01) != 0
  {
  }

  /** An unfinished piece that the peer has. */
  ghost predicate Wanted(s: PickerState, bitfield: Bitfield, i: nat) {
    i < |s.done| && !s.done[i] && HasPiece(bitfield, i)
  }

  /** Endgame starts when the peer's wanted pieces are all reserved, and so is
      everything else that is unfinished. */
  ghost predicate StartsEndgame(s: PickerState, bitfield: Bitfield)
    requires s.Valid()
  {
    && !s.endgame
    && (forall i :: 0 <= i < |s.done| && !s.done[i] ==> s.inflight[i])
    && (exists i :: 0 <= i < |s.done| && !s.done[i])
  }

  /** A pick is always of a wanted piece, and of none only if it has to be. Unless
      it starts endgame it is one of least count among those not reserved, or of
      all in endgame, and is then marked reserved. */
  lemma PickDecides(s: PickerState, bitfield: Bitfield, choice: Option<nat>)
    requires s.Valid() && s.PickAllowed(bitfield, choice)
    ensures choice.Some? ==> Wanted(s, bitfield, choice.value)
    ensures var s' := s.AfterPick(bitfield, choice);
            if StartsEndgame(s, bitfield) then
              && s' == s.(endgame := true)
              && (choice.None? <==> forall i: nat :: !Wanted(s, bitfield, i))
            else
              && (choice.None? ==> s' == s)
              && (choice.None? <==> forall i: nat :: Wanted(s, bitfield, i) ==> s.inflight[i] && !s.endgame)
              && (choice.Some? ==>
                    && (s.inflight[choice.value] ==> s.endgame)
                    && s' == s.(inflight := s.inflight[choice.value := true])
                    && forall i: nat :: Wanted(s, bitfield, i) && (s.inflight[i] ==> s.endgame) ==>
                         s.frequency[choice.value] <= s.frequency[i])
  {
    forall i: nat
      ensures s.Eligible(bitfield, i) <==> Wanted(s, bitfield, i) && (s.inflight[i] ==> s.endgame)
      ensures s.Duplicable(bitfield, i) <==> Wanted(s, bitfield, i) && s.inflight[i]
    {
    }
  }

  /** Some choice is always allowed. */
  lemma SomeChoice(s: PickerState, bitfield: Bitfield) returns (choice: Option<nat>)
    requires s.Valid()
    ensures s.PickAllowed(bitfield, choice)
  {
    if s.EntersEndgame(bitfield) {
      if i: nat :| s.Duplicable(bitfield, i) {
        choice := Some(i);
      } else {
        choice := None;
      }
    } else {
      choice := RarestBelow(s, bitfield, |s.done|);
    }
  }

  lemma {:induction false} RarestBelow(s: PickerState, bitfield: Bitfield, n: nat) returns (choice: Option<nat>)
    requires s.Valid() && n <= |s.done|
    ensures choice.None? ==> forall i: nat :: i < n ==> !s.Eligible(bitfield, i)
    ensures choice.Some? ==>
              && choice.value < n && s.Eligible(bitfield, choice.value)
              && forall i: nat :: i < n && s.Eligible(bitfield, i) ==> s.frequency[choice.value] <= s.frequency[i]
  {
    if n == 0 {
      choice := None;
    } else {
      choice := RarestBelow(s, bitfield, n - 1);
      if s.Eligible(bitfield, n - 1) && (choice.None? || s.frequency[n - 1] < s.frequency[choice.value]) {
        choice := Some(n - 1);
      }
    }
  }
}
