/** The piece grid of a torrent: piece lengths, offsets and the block split
    used when a piece is requested. */
module TorrentLayout {
  import Bytes

  const BLOCK_SIZE: nat := 16384

  /** The part of a parsed metainfo file the download code uses. `files` holds
      the recorded file sizes and is empty for a single-file torrent. */
  datatype Torrent = Torrent(length: nat, files: seq<nat>, pieceLength: nat, pieces: seq<Bytes.Digest>) {
    function TotalLength(): nat {
      if files == [] then length else Sum(files)
    }

    /** What the rest of the client takes for granted and the parser does not
        check: a positive piece length and one hash for every started piece. */
    ghost predicate WellFormed() {
      && 0 < pieceLength
      && |pieces| == CeilDiv(TotalLength(), pieceLength)
    }

    function PieceLen(index: nat): int {
      var start := index * pieceLength;
      var end := start + pieceLength;
      (if end > TotalLength() then TotalLength() else end) - start
    }
  }

  function Sum(xs: seq<nat>): nat {
    if xs == [] then 0 else xs[0] + Sum(xs[1..])
  }

  function CeilDiv(a: nat, b: nat): nat
    requires 0 < b
  {
    if a % b == 0 then a / b else a / b + 1
  }

  lemma {:induction false} SumAppend(xs: seq<nat>, x: nat)
    ensures Sum(xs + [x]) == Sum(xs) + x
  {
    if xs == [] {
    } else {
      assert (xs + [x])[1..] == xs[1..] + [x];
      SumAppend(xs[1..], x);
    }
  }

  /** The accumulation loop behind `TotalLength`. */
  method ComputeTotalLength(t: Torrent) returns (total: nat)
    ensures total == t.TotalLength()
  {
    if |t.files| == 0 {
      return t.length;
    }
    total := 0;
    for i := 0 to |t.files|
      invariant total == Sum(t.files[..i])
    {
      assert t.files[..i + 1] == t.files[..i] + [t.files[i]];
      SumAppend(t.files[..i], t.files[i]);
      total := total + t.files[i];
    }
    assert t.files[..|t.files|] == t.files;
  }

  /** Multiples of `d` locate the quotient. */
  lemma QuotientOf(d: nat, k: nat, i: nat)
    requires 0 < d
    ensures i * d <= k < i * d + d <==> i == k / d
  {
    var q := k / d;
    assert q * d <= k < q * d + d;
    if i < q {
      assert (i + 1) * d <= q * d by { MulMonotone(i + 1, q, d); }
      assert i * d + d == (i + 1) * d;
    } else if q < i {
      assert (q + 1) * d <= i * d by { MulMonotone(q + 1, i, d); }
      assert q * d + d == (q + 1) * d;
    }
  }

  lemma MulMonotone(a: int, b: int, d: nat)
    requires a <= b
    ensures a * d <= b * d
  {
  }

  /** Piece `i` of a well-formed torrent starts inside the data. */
  lemma PieceStartsInside(t: Torrent, i: nat)
    requires t.WellFormed()
    ensures i < |t.pieces| <==> i * t.pieceLength < t.TotalLength()
  {
    var d, total := t.pieceLength, t.TotalLength();
    var q := total / d;
    assert total == q * d + total % d;
    if i < q {
      MulMonotone(i + 1, q, d);
      assert i * d + d == (i + 1) * d;
    } else if i > q {
      MulMonotone(q + 1, i, d);
      assert q * d + d == (q + 1) * d;
    }
  }

  /** The ranges `[i * pieceLength, i * pieceLength + PieceLen(i))` partition
      the data: every piece is nonempty, fits, and byte `k` lies in piece `i`
      exactly when `i` is `k / pieceLength`. */
  lemma PiecesPartition(t: Torrent, i: nat, k: nat)
    requires t.WellFormed()
    requires i < |t.pieces|
    ensures 0 < t.PieceLen(i) <= t.pieceLength
    ensures i * t.pieceLength + t.PieceLen(i) <= t.TotalLength()
    ensures k < t.TotalLength() ==> k / t.pieceLength < |t.pieces|
    ensures i * t.pieceLength <= k < i * t.pieceLength + t.PieceLen(i)
            <==> k < t.TotalLength() && i == k / t.pieceLength
  {
    PieceStartsInside(t, i);
    QuotientOf(t.pieceLength, k, i);
    if k < t.TotalLength() {
      var q := k / t.pieceLength;
      QuotientOf(t.pieceLength, k, q);
      PieceStartsInside(t, q);
    }
  }

  /** Two pieces never share a byte, and piece ranges are ordered like their
      indices. */
  lemma PieceRangesDisjoint(t: Torrent, i: nat, j: nat)
    requires t.WellFormed()
    requires i < j < |t.pieces|
    ensures i * t.pieceLength + t.PieceLen(i) <= j * t.pieceLength
  {
    PiecesPartition(t, i, 0);
    MulMonotone(i + 1, j, t.pieceLength);
    assert i * t.pieceLength + t.pieceLength == (i + 1) * t.pieceLength;
  }

  function BlockCount(pieceLength: nat): nat {
    if pieceLength % BLOCK_SIZE != 0 then pieceLength / BLOCK_SIZE + 1 else pieceLength / BLOCK_SIZE
  }

  datatype Request = Request(begin: nat, length: nat)

  /** The requests sent for one piece: nonempty blocks of at most 16 KiB that
      tile `[0, pieceLength)` in order. */
  ghost predicate Tiles(requests: seq<Request>, pieceLength: nat) {
    && (forall i :: 0 <= i < |requests| ==> 0 < requests[i].length <= BLOCK_SIZE)
    && (forall i :: 0 <= i < |requests| ==> requests[i].begin == i * BLOCK_SIZE)
    && (forall i :: 0 <= i < |requests| ==>
          requests[i].begin + requests[i].length ==
          if i + 1 < |requests| then (i + 1) * BLOCK_SIZE else pieceLength)
    && (requests == [] ==> pieceLength == 0)
  }

  /** The sender's request burst. */
  method BlockRequests(pieceLength: nat) returns (requests: seq<Request>)
    ensures |requests| == BlockCount(pieceLength)
    ensures Tiles(requests, pieceLength)
  {
    var nb := BlockCount(pieceLength);
    requests := [];
    for i := 0 to nb
      invariant |requests| == i
      invariant forall k :: 0 <= k < i ==>
        requests[k] == Request(k * BLOCK_SIZE,
                               if (k + 1) * BLOCK_SIZE > pieceLength then pieceLength - k * BLOCK_SIZE else BLOCK_SIZE)
    {
      var begin := i * BLOCK_SIZE;
      var length := BLOCK_SIZE;
      if begin + length > pieceLength {
        length := pieceLength - begin;
      }
      requests := requests + [Request(begin, length)];
    }
  }
}
