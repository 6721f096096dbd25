/** The orchestrator: it drains the results channel, writes each verified piece
    at its offset, and reports success after as many verified results as there
    are pieces. */
module DownloadSession {
  import opened Bytes
  import FiniteSets
  import TorrentLayout
  import opened Reservation
  import opened ReservationRuns

  datatype Outcome = Downloaded | Incomplete(completed: nat) | WriteFailed(index: nat)

  ghost predicate GenuineResults(c: Config, results: seq<PieceResult>) {
    forall i :: 0 <= i < |results| && results[i].Verified? ==> c.Genuine(results[i].index, results[i].data)
  }

  ghost function VerifiedCount(results: seq<PieceResult>): nat {
    if results == [] then 0
    else VerifiedCount(results[..|results| - 1]) + if results[|results| - 1].Verified? then 1 else 0
  }

  ghost predicate Wrote(results: seq<PieceResult>, p: nat) {
    exists i :: 0 <= i < |results| && results[i].Verified? && results[i].index == p
  }

  function Offset(c: Config, p: nat): nat {
    p * c.torrent.pieceLength
  }

  /** Piece `p` as it stands in the file. */
  ghost function Region(c: Config, file: ByteString, p: nat): ByteString
    requires c.WellFormed() && p < c.Pieces() && |file| == c.torrent.TotalLength()
  {
    TorrentLayout.PiecesPartition(c.torrent, p, 0);
    file[Offset(c, p)..Offset(c, p) + c.torrent.PieceLen(p)]
  }

  /** The file once the verified results have been written in order. */
  ghost function Written(c: Config, file: ByteString, results: seq<PieceResult>): (r: ByteString)
    requires c.WellFormed() && |file| == c.torrent.TotalLength() && GenuineResults(c, results)
    ensures |r| == |file|
  {
    if results == [] then file
    else
      var before := Written(c, file, results[..|results| - 1]);
      match results[|results| - 1]
      case Failed(_) => before
      case Verified(p, data) =>
        assert c.Genuine(p, data);
        TorrentLayout.PiecesPartition(c.torrent, p, 0);
        Overwrite(before, Offset(c, p), data)
  }

  lemma OverwriteRegions(c: Config, file: ByteString, p: nat, data: ByteString, q: nat)
    requires c.WellFormed() && |file| == c.torrent.TotalLength() && c.Genuine(p, data) && q < c.Pieces()
    requires Offset(c, p) + |data| <= |file|
    ensures Region(c, Overwrite(file, Offset(c, p), data), q) == if p == q then data else Region(c, file, q)
  {
    RangesApart(c, p, q);
    OverwriteSlice(file, Offset(c, p), data, Offset(c, q), c.torrent.PieceLen(q));
  }

  lemma RangesApart(c: Config, p: nat, q: nat)
    requires c.WellFormed() && p < c.Pieces() && q < c.Pieces()
    ensures 0 <= c.torrent.PieceLen(q) && Offset(c, q) + c.torrent.PieceLen(q) <= c.torrent.TotalLength()
    ensures p < q ==> Offset(c, p) + c.torrent.PieceLen(p) <= Offset(c, q)
    ensures q < p ==> Offset(c, q) + c.torrent.PieceLen(q) <= Offset(c, p)
  {
    TorrentLayout.PiecesPartition(c.torrent, q, 0);
    if p < q {
      TorrentLayout.PieceRangesDisjoint(c.torrent, p, q);
    } else if q < p {
      TorrentLayout.PieceRangesDisjoint(c.torrent, q, p);
    }
  }

  /** Overwriting leaves every slice that it does not touch. */
  lemma OverwriteSlice(file: ByteString, at: nat, data: ByteString, from: nat, n: nat)
    requires at + |data| <= |file| && from + n <= |file|
    ensures from + n <= at || at + |data| <= from ==> Overwrite(file, at, data)[from..from + n] == file[from..from + n]
  {
    var after, m := Overwrite(file, at, data), at + |data|;
    if from + n <= at {
      assert after[..at][from..from + n] == after[from..from + n];
      assert file[..at][from..from + n] == file[from..from + n];
    } else if m <= from {
      assert after[m..][from - m..from - m + n] == after[from..from + n];
      assert file[m..][from - m..from - m + n] == file[from..from + n];
    }
  }

  lemma WroteSnoc(results: seq<PieceResult>, p: nat)
    requires results != []
    ensures var init, last := results[..|results| - 1], results[|results| - 1];
            Wrote(results, p) <==> Wrote(init, p) || (last.Verified? && last.index == p)
  {
  }

  lemma {:induction false} RegionsWritten(c: Config, file: ByteString, results: seq<PieceResult>, p: nat)
    requires c.WellFormed() && |file| == c.torrent.TotalLength() && GenuineResults(c, results) && p < c.Pieces()
    ensures Wrote(results, p) ==> c.Genuine(p, Region(c, Written(c, file, results), p))
    ensures !Wrote(results, p) ==> Region(c, Written(c, file, results), p) == Region(c, file, p)
  {
    if results != [] {
      var n := |results| - 1;
      var init, last := results[..n], results[n];
      RegionsWritten(c, file, init, p);
      WroteSnoc(results, p);
      if last.Verified? {
        assert c.Genuine(last.index, last.data);
        TorrentLayout.PiecesPartition(c.torrent, last.index, 0);
        OverwriteRegions(c, Written(c, file, init), last.index, last.data, p);
      }
    }
  }

  lemma RegionIsSlice(c: Config, file: ByteString, p: nat)
    requires c.WellFormed() && p < c.Pieces() && |file| == c.torrent.TotalLength()
    ensures var start, len := p * c.torrent.pieceLength, c.torrent.PieceLen(p);
            0 < len && start + len <= |file| && Region(c, file, p) == file[start..start + len]
  {
    TorrentLayout.PiecesPartition(c.torrent, p, 0);
  }

  /** Whatever the order and duplication of results: of a piece that was written,
      the bytes from its index times the piece length on have the piece's hash; of
      any other piece they are what they were. */
  lemma WritesAreVerified(c: Config, file: ByteString, results: seq<PieceResult>, p: nat)
    requires c.WellFormed() && |file| == c.torrent.TotalLength() && GenuineResults(c, results) && p < c.Pieces()
    ensures var start, len := p * c.torrent.pieceLength, c.torrent.PieceLen(p);
            && 0 < len && start + len <= |file|
            && (Wrote(results, p) ==> c.hash(Written(c, file, results)[start..start + len]) == c.torrent.pieces[p])
            && (!Wrote(results, p) ==> Written(c, file, results)[start..start + len] == file[start..start + len])
    ensures Wrote(results, p) ==> c.Genuine(p, Region(c, Written(c, file, results), p))
    ensures !Wrote(results, p) ==> Region(c, Written(c, file, results), p) == Region(c, file, p)
  {
    RegionIsSlice(c, file, p);
    RegionIsSlice(c, Written(c, file, results), p);
    RegionsWritten(c, file, results, p);
  }

  // ---- The loop ----

  /** How the disk answers the writes in turn: `None` is a full write, `Some(n)`
      an error after at most `n` bytes. */
  type Disk = nat -> Option<nat>

  /** What is left of a failed write. */
  function Torn(data: ByteString, n: nat): (part: ByteString)
    ensures part <= data && |part| == if n > |data| then |data| else n
  {
    if n > |data| then data else data[..n]
  }

  /** One more result is written in full. */
  lemma WrittenSnoc(c: Config, file: ByteString, results: seq<PieceResult>, used: nat)
    requires c.WellFormed() && |file| == c.torrent.TotalLength() && used < |results| && GenuineResults(c, results)
    ensures GenuineResults(c, results[..used]) && GenuineResults(c, results[..used + 1])
    ensures VerifiedCount(results[..used + 1]) ==
            VerifiedCount(results[..used]) + if results[used].Verified? then 1 else 0
    ensures results[used].Failed? ==> Written(c, file, results[..used + 1]) == Written(c, file, results[..used])
    ensures results[used].Verified? ==>
              && Offset(c, results[used].index) + |results[used].data| <= |file|
              && Written(c, file, results[..used + 1]) ==
                 Overwrite(Written(c, file, results[..used]), Offset(c, results[used].index), results[used].data)
  {
    assert results[..used + 1][..used] == results[..used];
    if results[used].Verified? {
      assert c.Genuine(results[used].index, results[used].data);
      TorrentLayout.PiecesPartition(c.torrent, results[used].index, 0);
    }
  }

  /** The file when the loop is over: the counted results, and after a failed
      write whatever part of that piece the disk took. */
  ghost predicate FileIs(c: Config, before: ByteString, after: ByteString, results: seq<PieceResult>, outcome: Outcome,
                         used: nat, disk: Disk)
    requires c.WellFormed() && |before| == c.torrent.TotalLength() && used <= |results| && GenuineResults(c, results)
  {
    var written := Written(c, before, results[..used]);
    if outcome.WriteFailed? then
      && used < |results| && results[used].Verified? && results[used].index == outcome.index && disk(used).Some?
      && var part := Torn(results[used].data, disk(used).value);
         && Offset(c, outcome.index) + |part| <= |written|
         && after == Overwrite(written, Offset(c, outcome.index), part)
    else after == written
  }

  /** `results` is what the channel delivers before it is closed. `used` counts
      the results consumed; every one of them was written in full. */
  method CollectResults(c: Config, results: seq<PieceResult>, file: array<Byte>, disk: Disk)
    returns (outcome: Outcome, used: nat)
    requires c.WellFormed() && GenuineResults(c, results)
    requires file.Length == c.torrent.TotalLength()
    modifies file
    ensures used <= |results| && GenuineResults(c, results[..used])
    ensures FileIs(c, old(file[..]), file[..], results, outcome, used, disk)
    ensures forall i :: 0 <= i < used && results[i].Verified? ==> disk(i).None?
    ensures outcome.Downloaded? ==> VerifiedCount(results[..used]) == c.Pieces()
    ensures outcome.Incomplete? ==> used == |results| && VerifiedCount(results) == outcome.completed < c.Pieces()
  {
    var completed := 0;
    used := 0;
    while used < |results|
      invariant used <= |results|
      invariant completed == VerifiedCount(results[..used])
      invariant completed < c.Pieces() || c.Pieces() == completed == 0
      invariant file[..] == Written(c, old(file[..]), results[..used])
      invariant forall i :: 0 <= i < used && results[i].Verified? ==> disk(i).None?
    {
      var result := results[used];
      WrittenSnoc(c, old(file[..]), results, used);
      if result.Verified? {
        var failed := WriteResult(c, results, used, file, disk, old(file[..]));
        if failed {
          return WriteFailed(result.index), used;
        }
        completed := completed + 1;
      }
      used := used + 1;
      if completed == c.Pieces() && result.Verified? {
        break;
      }
    }
    if completed < c.Pieces() {
      assert results[..|results|] == results;
      outcome := Incomplete(completed);
    } else {
      outcome := Downloaded;
    }
  }

  /** One verified result goes to its place in the file, as far as the disk lets it. */
  method WriteResult(c: Config, results: seq<PieceResult>, used: nat, file: array<Byte>, disk: Disk,
                     ghost before: ByteString) returns (failed: bool)
    requires c.WellFormed() && GenuineResults(c, results) && used < |results| && results[used].Verified?
    requires file.Length == |before| == c.torrent.TotalLength()
    requires file[..] == Written(c, before, results[..used])
    modifies file
    ensures failed <==> disk(used).Some?
    ensures failed ==> FileIs(c, before, file[..], results, WriteFailed(results[used].index), used, disk)
    ensures !failed ==> file[..] == Written(c, before, results[..used + 1])
  {
    WrittenSnoc(c, before, results, used);
    var result, answer := results[used], disk(used);
    if answer.Some? {
      WriteAt(file, Offset(c, result.index), Torn(result.data, answer.value));
      return true;
    }
    WriteAt(file, Offset(c, result.index), result.data);
    return false;
  }

  /** `f.WriteAt` of bytes that all reach the file. */
  method WriteAt(file: array<Byte>, offset: nat, data: ByteString)
    requires offset + |data| <= file.Length
    modifies file
    ensures file[..] == Overwrite(old(file[..]), offset, data)
  {
    ghost var before := file[..];
    for j := 0 to |data|
      invariant file[..offset] == before[..offset]
      invariant file[offset..offset + j] == data[..j]
      invariant file[offset + j..] == before[offset + j..]
    {
      file[offset + j] := data[j];
      assert file[offset..offset + j + 1] == file[offset..offset + j] + [data[j]];
      assert file[offset + j..][1..] == file[offset + j + 1..];
    }
    assert file[..] == file[..offset] + file[offset..offset + |data|] + file[offset + |data|..];
  }

  // ---- When success means a whole file ----

  ghost function Indices(results: seq<PieceResult>): set<nat> {
    set i | 0 <= i < |results| && results[i].Verified? :: results[i].index
  }

  lemma IndicesSnoc(init: seq<PieceResult>, last: PieceResult)
    ensures Indices(init + [last]) == Indices(init) + if last.Verified? then {last.index} else {}
    ensures DistinctResults(init + [last]) <==>
            DistinctResults(init) && (last.Verified? ==> last.index !in Indices(init))
  {
    var all := init + [last];
    assert forall i :: 0 <= i < |init| ==> all[i] == init[i];
    assert all[|init|] == last;
    if last.Verified? && last.index in Indices(init) {
      var i :| 0 <= i < |init| && init[i].Verified? && init[i].index == last.index;
      assert all[i].index == all[|init|].index;
    }
  }

  lemma {:induction false} IndicesCount(results: seq<PieceResult>)
    ensures |Indices(results)| <= VerifiedCount(results)
    ensures |Indices(results)| == VerifiedCount(results) <==> DistinctResults(results)
  {
    if results == [] {
      assert Indices(results) == {};
    } else {
      var n := |results| - 1;
      assert results == results[..n] + [results[n]];
      IndicesSnoc(results[..n], results[n]);
      IndicesCount(results[..n]);
    }
  }

  /** When the orchestrator reports success, every piece has been written exactly
      when the results it counted are for distinct pieces. */
  lemma SuccessCoversIffDistinct(c: Config, results: seq<PieceResult>)
    requires GenuineResults(c, results) && VerifiedCount(results) == c.Pieces()
    ensures (forall p: nat :: p < c.Pieces() ==> Wrote(results, p)) <==> DistinctResults(results)
  {
    IndicesCount(results);
    assert forall x :: x in Indices(results) <==> Wrote(results, x);
    FiniteSets.Pigeonhole(Indices(results), c.Pieces());
  }

  /** Every piece of the file is genuine. */
  ghost predicate Verifies(c: Config, file: ByteString)
    requires c.WellFormed() && |file| == c.torrent.TotalLength()
  {
    forall p: nat :: p < c.Pieces() ==> c.Genuine(p, Region(c, file, p))
  }

  /** Whatever the results are, the file ends up verified exactly when each piece
      was written or was genuine to begin with. */
  lemma VerifiedIffWrittenOrGenuine(c: Config, file: ByteString, results: seq<PieceResult>)
    requires c.WellFormed() && |file| == c.torrent.TotalLength() && GenuineResults(c, results)
    ensures Verifies(c, Written(c, file, results))
            <==> forall p: nat :: p < c.Pieces() ==> Wrote(results, p) || c.Genuine(p, Region(c, file, p))
  {
    forall p: nat | p < c.Pieces()
      ensures c.Genuine(p, Region(c, Written(c, file, results), p)) <==>
              Wrote(results, p) || c.Genuine(p, Region(c, file, p))
    {
      WritesAreVerified(c, file, results, p);
    }
  }

  /** A success with distinct results leaves a verified file. With a duplicate some
      piece is still what it was before the download, and the file is verified
      exactly when every piece never written was genuine to begin with. */
  lemma SuccessVerifies(c: Config, file: ByteString, results: seq<PieceResult>)
    requires c.WellFormed() && |file| == c.torrent.TotalLength()
    requires GenuineResults(c, results) && VerifiedCount(results) == c.Pieces()
    ensures DistinctResults(results) ==> Verifies(c, Written(c, file, results))
    ensures !DistinctResults(results) ==>
              exists p: nat :: p < c.Pieces() && !Wrote(results, p)
                               && Region(c, Written(c, file, results), p) == Region(c, file, p)
    ensures Verifies(c, Written(c, file, results))
            <==> forall p: nat :: p < c.Pieces() && !Wrote(results, p) ==> c.Genuine(p, Region(c, file, p))
  {
    SuccessCoversIffDistinct(c, results);
    VerifiedIffWrittenOrGenuine(c, file, results);
    forall p: nat | p < c.Pieces()
      ensures !Wrote(results, p) ==> Region(c, Written(c, file, results), p) == Region(c, file, p)
    {
      WritesAreVerified(c, file, results, p);
    }
  }

  /** A download that reports success leaves a file in which every piece is
      verified, unless some worker finished a piece that was done already. */
  lemma UnrepeatedSuccessIsVerified(c: Config, actions: seq<Action>, file: ByteString, used: nat)
    requires c.WellFormed() && |file| == c.torrent.TotalLength()
    requires Runs(c, Init(c), actions) && NeverRepeats(c, Init(c), actions)
    requires var results := After(c, Init(c), actions).results;
             used <= |results| && VerifiedCount(results[..used]) == c.Pieces()
    ensures var results := After(c, Init(c), actions).results;
            && GenuineResults(c, results[..used])
            && Verifies(c, Written(c, file, results[..used]))
  {
    var results := After(c, Init(c), actions).results;
    InitKeepsInv(c);
    RunKeepsInv(c, Init(c), actions);
    DistinctWhenNeverRepeats(c, actions);
    SuccessVerifies(c, file, results[..used]);
  }

  /** One peer worker at a time never repeats, so its success is always right. */
  lemma SoloSuccessIsVerified(c: Config, actions: seq<Action>, file: ByteString, used: nat)
    requires c.WellFormed() && |file| == c.torrent.TotalLength()
    requires SoloRuns(c, Init(c), actions) && Runs(c, Init(c), actions)
    requires var results := After(c, Init(c), actions).results;
             used <= |results| && VerifiedCount(results[..used]) == c.Pieces()
    ensures var results := After(c, Init(c), actions).results;
            && GenuineResults(c, results[..used])
            && Verifies(c, Written(c, file, results[..used]))
  {
    DistinctWhenSolo(c, actions);
    UnrepeatedSuccessIsVerified(c, actions, file, used);
  }

  /** Nor does any number of workers of any kind before endgame. */
  lemma EarlySuccessIsVerified(c: Config, s: State, file: ByteString, used: nat)
    requires c.WellFormed() && |file| == c.torrent.TotalLength()
    requires Reachable(c, s) && !s.picker.endgame
    requires used <= |s.results| && VerifiedCount(s.results[..used]) == c.Pieces()
    ensures GenuineResults(c, s.results[..used])
    ensures Verifies(c, Written(c, file, s.results[..used]))
  {
    ReachableInv(c, s);
    DistinctBeforeEndgame(c, s);
    SuccessVerifies(c, file, s.results[..used]);
  }
}
