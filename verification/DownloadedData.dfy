/** The download and the later check of the data agree: what a right success
    leaves on disk, cut into the torrent's files, verifies piece by piece. */
module DownloadedData {
  import opened Bytes
  import opened Reservation
  import TorrentLayout
  import ReservationRuns
  import DownloadSession
  import DataVerification
  import PieceHashing

  /** The file cut into consecutive parts of the given sizes. */
  function CutAlong(file: ByteString, sizes: seq<nat>): (parts: seq<ByteString>)
    requires |file| == TorrentLayout.Sum(sizes)
    ensures |parts| == |sizes| && forall i :: 0 <= i < |parts| ==> |parts[i]| == sizes[i]
  {
    if sizes == [] then [] else [file[..sizes[0]]] + CutAlong(file[sizes[0]..], sizes[1..])
  }

  lemma {:induction false} CutJoins(file: ByteString, sizes: seq<nat>)
    requires |file| == TorrentLayout.Sum(sizes)
    ensures PieceHashing.Concat(CutAlong(file, sizes)) == file
  {
    if sizes != [] {
      CutJoins(file[sizes[0]..], sizes[1..]);
      assert CutAlong(file, sizes)[1..] == CutAlong(file[sizes[0]..], sizes[1..]);
    }
  }

  lemma TotalIsSum(t: TorrentLayout.Torrent)
    ensures TorrentLayout.Sum(DataVerification.RecordedSizes(t)) == t.TotalLength()
  {
    if t.files == [] {
      assert [t.length][1..] == [];
    }
  }

  /** The downloaded file as the files of the torrent. */
  function FilesOf(t: TorrentLayout.Torrent, file: ByteString): (parts: seq<ByteString>)
    requires |file| == t.TotalLength()
    ensures DataVerification.HasRecordedSizes(t, parts)
  {
    TotalIsSum(t);
    CutAlong(file, DataVerification.RecordedSizes(t))
  }

  /** A piece of the downloaded file is genuine exactly when the data check reads
      it as valid. */
  lemma GenuineIffReadValid(c: Config, file: ByteString, p: nat)
    requires c.WellFormed() && |file| == c.torrent.TotalLength() && p < c.Pieces()
    ensures c.Genuine(p, DownloadSession.Region(c, file, p)) <==>
            DataVerification.ReadValid(c.hash, c.torrent, DataVerification.Healthy(FilesOf(c.torrent, file)), p)
  {
    TotalIsSum(c.torrent);
    CutJoins(file, DataVerification.RecordedSizes(c.torrent));
    DataVerification.HealthyValid(c.hash, c.torrent, FilesOf(c.torrent, file), p);
    var lo, len := DataVerification.PieceIsChunk(c.torrent, file, p);
  }

  /** Download, then verify: with results for distinct pieces a success leaves data
      in which the check finds every piece valid. */
  method DownloadThenVerify(c: Config, results: seq<PieceResult>, file: array<Byte>, disk: DownloadSession.Disk)
    returns (outcome: DownloadSession.Outcome, used: nat, r: DataVerification.VerifyResult)
    requires c.WellFormed() && DownloadSession.GenuineResults(c, results)
    requires file.Length == c.torrent.TotalLength()
    modifies file
    ensures used <= |results|
    ensures r.total == c.Pieces() == r.valid + |r.invalid|
    ensures forall p: nat :: p in r.invalid <==>
              p < c.Pieces() && !c.Genuine(p, DownloadSession.Region(c, file[..], p))
    ensures outcome.Downloaded? && ReservationRuns.DistinctResults(results[..used]) ==> r.invalid == []
  {
    ghost var before := file[..];
    outcome, used := DownloadSession.CollectResults(c, results, file, disk);
    var files := FilesOf(c.torrent, file[..]);
    r := DataVerification.VerifyData(c.hash, c.torrent, _ => DataVerification.Healthy(files));
    forall p: nat
      ensures p in r.invalid <==> p < c.Pieces() && !c.Genuine(p, DownloadSession.Region(c, file[..], p))
    {
      if p < c.Pieces() {
        GenuineIffReadValid(c, file[..], p);
      }
    }
    if outcome.Downloaded? && ReservationRuns.DistinctResults(results[..used]) {
      DownloadSession.SuccessVerifies(c, before, results[..used]);
      forall p: nat | p < c.Pieces()
        ensures DataVerification.ReadValid(c.hash, c.torrent, DataVerification.Healthy(files), p)
      {
        GenuineIffReadValid(c, file[..], p);
      }
    }
  }

  /** The same for any run of the protocol that never finishes a done piece. */
  lemma UnrepeatedDownloadReadsValid(c: Config, actions: seq<Action>, file: ByteString, used: nat, p: nat)
    requires c.WellFormed() && |file| == c.torrent.TotalLength() && p < c.Pieces()
    requires Runs(c, Init(c), actions) && ReservationRuns.NeverRepeats(c, Init(c), actions)
    requires var results := After(c, Init(c), actions).results;
             used <= |results| && DownloadSession.VerifiedCount(results[..used]) == c.Pieces()
    ensures var results := After(c, Init(c), actions).results;
            && DownloadSession.GenuineResults(c, results[..used])
            && var data := DownloadSession.Written(c, file, results[..used]);
               DataVerification.ReadValid(c.hash, c.torrent, DataVerification.Healthy(FilesOf(c.torrent, data)), p)
  {
    DownloadSession.UnrepeatedSuccessIsVerified(c, actions, file, used);
    var results := After(c, Init(c), actions).results;
    GenuineIffReadValid(c, DownloadSession.Written(c, file, results[..used]), p);
  }
}
