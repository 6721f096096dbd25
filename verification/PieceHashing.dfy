/** Creating piece hashes and verifying data against them. The creator streams
    files in whatever chunks the reads return; the verifier reads each piece
    through a layout of file spans. Both see the same fixed-size pieces of the
    concatenated files. */
module PieceHashing {
  import opened Bytes
  import Powers
  import TorrentLayout

  // ---- The specification ----

  /** Hashes of the fixed-size pieces of `data`; the last may be short. */
  function PieceHashes(hash: HashFunction, data: ByteString, pieceLen: nat): seq<Digest>
    requires 0 < pieceLen
    decreases |data|
  {
    if data == [] then []
    else if |data| <= pieceLen then [hash(data)]
    else [hash(data[..pieceLen])] + PieceHashes(hash, data[pieceLen..], pieceLen)
  }

  function Concat(files: seq<ByteString>): ByteString {
    if files == [] then [] else files[0] + Concat(files[1..])
  }

  /** Digests as the "pieces" string of a torrent. */
  function Joined(digests: seq<Digest>): ByteString {
    if digests == [] then [] else digests[0] + Joined(digests[1..])
  }

  lemma {:induction false} JoinedSnoc(digests: seq<Digest>, d: Digest)
    ensures Joined(digests + [d]) == Joined(digests) + d
  {
    if digests == [] {
      assert digests + [d] == [d];
    } else {
      assert (digests + [d])[1..] == digests[1..] + [d];
      JoinedSnoc(digests[1..], d);
    }
  }

  /** A filled piece is hashed and the rest starts afresh. */
  lemma FullPieceFirst(hash: HashFunction, piece: ByteString, rest: ByteString, pieceLen: nat)
    requires 0 < pieceLen == |piece|
    ensures PieceHashes(hash, piece + rest, pieceLen) == [hash(piece)] + PieceHashes(hash, rest, pieceLen)
  {
    assert (piece + rest)[..pieceLen] == piece && (piece + rest)[pieceLen..] == rest;
    if rest == [] {
      assert piece + rest == piece;
    }
  }

  // ---- Creation ----

  /** A file as the creator meets it: it may fail to open, or fail after some
      reads. Empty reads are allowed. */
  datatype Source = Missing | Opened(chunks: seq<ByteString>, fails: bool)

  function Content(s: Source): ByteString {
    if s.Missing? then [] else Concat(s.chunks)
  }

  function Contents(sources: seq<Source>): ByteString {
    if sources == [] then [] else Content(sources[0]) + Contents(sources[1..])
  }

  predicate Readable(s: Source) {
    s.Opened? && !s.fails
  }

  /** The streaming state: `digests` are finished, `cur` has been fed to the
      hash since its last reset, `rest` is still to come. */
  ghost predicate Streaming(hash: HashFunction, whole: ByteString, pieceLen: nat, pieces: ByteString,
                            digests: seq<Digest>, cur: ByteString, rest: ByteString)
    requires 0 < pieceLen
  {
    && pieces == Joined(digests)
    && |cur| < pieceLen
    && PieceHashes(hash, whole, pieceLen) == digests + PieceHashes(hash, cur + rest, pieceLen)
  }

  /** `hashMultiFiles`. The hash state is the bytes written since its reset. */
  method HashMultiFiles(hash: HashFunction, sources: seq<Source>, pieceLen: nat) returns (r: Option<ByteString>)
    requires 0 < pieceLen
    ensures r.Some? <==> forall i :: 0 <= i < |sources| ==> Readable(sources[i])
    ensures r.Some? ==> r.value == Joined(PieceHashes(hash, Contents(sources), pieceLen))
  {
    var pieces: ByteString, cur: ByteString := [], [];
    var remaining := pieceLen;
    ghost var whole := Contents(sources);
    ghost var digests: seq<Digest> := [];
    assert [] + whole == whole;
    for f := 0 to |sources|
      invariant forall i :: 0 <= i < f ==> Readable(sources[i])
      invariant remaining == pieceLen - |cur|
      invariant Streaming(hash, whole, pieceLen, pieces, digests, cur, Contents(sources[f..]))
    {
      if sources[f].Missing? {
        return None;
      }
      ghost var later := Contents(sources[f + 1..]);
      assert sources[f..][1..] == sources[f + 1..];
      pieces, digests, cur := FeedFile(hash, pieceLen, pieces, digests, cur, sources[f].chunks, whole, later);
      remaining := pieceLen - |cur|;
      if sources[f].fails {
        return None;
      }
    }
    assert sources[|sources|..] == [];
    assert cur + [] == cur;
    if remaining < pieceLen {
      JoinedSnoc(digests, hash(cur));
      pieces := pieces + hash(cur);
    } else {
      assert digests + [] == digests;
    }
    return Some(pieces);
  }

  /** All reads of one file. */
  method FeedFile(hash: HashFunction, pieceLen: nat, pieces: ByteString, ghost digests: seq<Digest>, cur: ByteString,
                  chunks: seq<ByteString>, ghost whole: ByteString, ghost later: ByteString)
    returns (pieces': ByteString, ghost digests': seq<Digest>, cur': ByteString)
    requires 0 < pieceLen
    requires Streaming(hash, whole, pieceLen, pieces, digests, cur, Concat(chunks) + later)
    ensures Streaming(hash, whole, pieceLen, pieces', digests', cur', later)
  {
    pieces', digests', cur' := pieces, digests, cur;
    assert chunks[0..] == chunks;
    for n := 0 to |chunks|
      invariant Streaming(hash, whole, pieceLen, pieces', digests', cur', Concat(chunks[n..]) + later)
    {
      ghost var tail := Concat(chunks[n + 1..]) + later;
      assert chunks[n..][1..] == chunks[n + 1..];
      assert Concat(chunks[n..]) + later == chunks[n] + tail;
      pieces', digests', cur' := Feed(hash, pieceLen, pieces', digests', cur', chunks[n], whole, tail);
    }
    assert chunks[|chunks|..] == [];
    assert [] + later == later;
  }

  /** One read's worth of data, split at piece boundaries. */
  method Feed(hash: HashFunction, pieceLen: nat, pieces: ByteString, ghost digests: seq<Digest>, cur: ByteString,
              chunk: ByteString, ghost whole: ByteString, ghost later: ByteString)
    returns (pieces': ByteString, ghost digests': seq<Digest>, cur': ByteString)
    requires 0 < pieceLen
    requires Streaming(hash, whole, pieceLen, pieces, digests, cur, chunk + later)
    ensures Streaming(hash, whole, pieceLen, pieces', digests', cur', later)
  {
    pieces', digests', cur' := pieces, digests, cur;
    var data, remaining := chunk, pieceLen - |cur|;
    while |data| > 0
      invariant remaining == pieceLen - |cur'| > 0
      invariant Streaming(hash, whole, pieceLen, pieces', digests', cur', data + later)
      decreases |data|
    {
      var take := if remaining > |data| then |data| else remaining;
      assert cur' + (data + later) == (cur' + data[..take]) + (data[take..] + later);
      cur' := cur' + data[..take];
      data := data[take..];
      remaining := remaining - take;
      if remaining == 0 {
        FullPieceFirst(hash, cur', data + later, pieceLen);
        JoinedSnoc(digests', hash(cur'));
        pieces' := pieces' + hash(cur');
        digests' := digests' + [hash(cur')];
        assert [] + (data + later) == data + later;
        cur' := [];
        remaining := pieceLen;
      }
    }
    assert data + later == later;
  }

  lemma NextRead(hash: HashFunction, data: ByteString, pos: nat, n: nat, pieceLen: nat)
    requires 0 < pieceLen && pos <= |data|
    requires n == if |data| - pos < pieceLen then |data| - pos else pieceLen
    ensures n == 0 ==> PieceHashes(hash, data[pos..], pieceLen) == []
    ensures n > 0 ==> PieceHashes(hash, data[pos..], pieceLen) ==
                      [hash(data[pos..pos + n])] + PieceHashes(hash, data[pos + n..], pieceLen)
    ensures n < pieceLen ==> PieceHashes(hash, data[pos + n..], pieceLen) == []
  {
    var buf := data[pos..pos + n];
    assert data[pos..] == buf + data[pos + n..];
    if n == pieceLen {
      FullPieceFirst(hash, buf, data[pos + n..], pieceLen);
    } else {
      assert data[pos..] == buf;
    }
  }

  /** `digests` and `pieces` after the first `pos` bytes of a file. */
  ghost predicate ReadSoFar(hash: HashFunction, data: ByteString, pieceLen: nat, pos: nat, digests: seq<Digest>,
                            pieces: ByteString)
    requires 0 < pieceLen && pos <= |data|
  {
    && pieces == Joined(digests)
    && PieceHashes(hash, data, pieceLen) == digests + PieceHashes(hash, data[pos..], pieceLen)
  }

  lemma ReadNone(hash: HashFunction, data: ByteString, pieceLen: nat)
    requires 0 < pieceLen
    ensures ReadSoFar(hash, data, pieceLen, 0, [], [])
  {
    assert data[0..] == data;
    assert [] + PieceHashes(hash, data, pieceLen) == PieceHashes(hash, data, pieceLen);
  }

  lemma ReadMore(hash: HashFunction, data: ByteString, pieceLen: nat, pos: nat, n: nat, digests: seq<Digest>,
                 pieces: ByteString)
    requires 0 < pieceLen && pos <= |data| && n > 0
    requires n == if |data| - pos < pieceLen then |data| - pos else pieceLen
    requires ReadSoFar(hash, data, pieceLen, pos, digests, pieces)
    ensures ReadSoFar(hash, data, pieceLen, pos + n, digests + [hash(data[pos..pos + n])],
                      pieces + hash(data[pos..pos + n]))
  {
    var h := hash(data[pos..pos + n]);
    var left := PieceHashes(hash, data[pos + n..], pieceLen);
    NextRead(hash, data, pos, n, pieceLen);
    JoinedSnoc(digests, h);
    assert digests + ([h] + left) == digests + [h] + left;
  }

  lemma ReadAll(hash: HashFunction, data: ByteString, pieceLen: nat, digests: seq<Digest>, pieces: ByteString)
    requires 0 < pieceLen && ReadSoFar(hash, data, pieceLen, |data|, digests, pieces)
    ensures pieces == Joined(PieceHashes(hash, data, pieceLen))
  {
    assert data[|data|..] == [];
    assert digests + [] == digests;
  }

  /** `hashFile`: full-buffer reads of one file until a short one. */
  method HashFile(hash: HashFunction, source: Source, pieceLen: nat) returns (r: Option<ByteString>)
    requires 0 < pieceLen
    ensures r.Some? <==> Readable(source)
    ensures r.Some? ==> r.value == Joined(PieceHashes(hash, Content(source), pieceLen))
  {
    if source.Missing? {
      return None;
    }
    var data := Content(source);
    var pos := 0;
    var pieces: ByteString := [];
    ghost var digests: seq<Digest> := [];
    ReadNone(hash, data, pieceLen);
    while true
      invariant pos <= |data| && ReadSoFar(hash, data, pieceLen, pos, digests, pieces)
      decreases |data| - pos
    {
      var n := if |data| - pos < pieceLen then |data| - pos else pieceLen;
      var buf := data[pos..pos + n];
      if n > 0 {
        ReadMore(hash, data, pieceLen, pos, n, digests, pieces);
        pieces := pieces + hash(buf);
        digests := digests + [hash(buf)];
      }
      if n < pieceLen {
        if source.fails {
          return None;
        }
        ReadAll(hash, data, pieceLen, digests, pieces);
        return Some(pieces);
      }
      pos := pos + n;
    }
  }

  const MIN_PIECE: nat := 16384
  const MAX_PIECE: nat := 16777216

  /** `pieceLength`: the requested size, or the least doubling of 16 KiB, up to
      16 MiB, that gives about 1500 pieces. */
  method ChoosePieceLength(totalSize: nat, requested: int) returns (pieceLen: nat)
    ensures requested > 0 ==> pieceLen == requested
    ensures requested <= 0 ==> MIN_PIECE <= pieceLen <= MAX_PIECE
    ensures requested <= 0 ==> exists k: nat :: pieceLen == MIN_PIECE * Powers.Pow2(k)
    ensures requested <= 0 ==> totalSize / 1500 <= pieceLen || pieceLen == MAX_PIECE
    ensures requested <= 0 && pieceLen > MIN_PIECE ==> pieceLen < 2 * (totalSize / 1500)
  {
    if requested > 0 {
      return requested;
    }
    var target := totalSize / 1500;
    pieceLen := 16 * 1024;
    ghost var k := 0;
    while pieceLen < target && pieceLen < 16 * 1024 * 1024
      invariant pieceLen == MIN_PIECE * Powers.Pow2(k)
      invariant MIN_PIECE <= pieceLen <= MAX_PIECE
      invariant pieceLen > MIN_PIECE ==> pieceLen < 2 * target
      decreases MAX_PIECE - pieceLen
    {
      DoublingFits(k);
      pieceLen := pieceLen * 2;
      k := k + 1;
    }
  }

  /** Doublings of 16 KiB meet 16 MiB exactly. */
  lemma DoublingFits(k: nat)
    requires MIN_PIECE * Powers.Pow2(k) < MAX_PIECE
    ensures 2 * (MIN_PIECE * Powers.Pow2(k)) == MIN_PIECE * Powers.Pow2(k + 1) <= MAX_PIECE
  {
    assert Powers.Pow2(10) == 1024;
    if k >= 10 {
      Powers.Pow2Monotone(10, k);
    } else {
      Powers.Pow2Monotone(k + 1, 10);
    }
  }

  // ---- From the "pieces" string back to digests ----

  /** The copy loop of `parseInfo`. */
  method SplitPieces(bytes: ByteString) returns (r: Option<seq<Digest>>)
    ensures r.Some? <==> |bytes| % 20 == 0
    ensures r.Some? ==> Joined(r.value) == bytes
  {
    if |bytes| % 20 != 0 {
      return None;
    }
    var digests: seq<Digest> := [];
    for i := 0 to |bytes| / 20
      invariant Joined(digests) == bytes[..i * 20]
    {
      JoinedSnoc(digests, bytes[i * 20..(i + 1) * 20]);
      assert bytes[..(i + 1) * 20] == bytes[..i * 20] + bytes[i * 20..(i + 1) * 20];
      digests := digests + [bytes[i * 20..(i + 1) * 20]];
    }
    assert bytes[..|bytes| / 20 * 20] == bytes;
    return Some(digests);
  }

  /** The string determines the digests. */
  lemma {:induction false} JoinedInjective(a: seq<Digest>, b: seq<Digest>)
    requires Joined(a) == Joined(b)
    ensures a == b
    decreases |a|
  {
    if a == [] || b == [] {
    } else {
      assert Joined(a)[..20] == a[0] && Joined(b)[..20] == b[0];
      assert Joined(a)[20..] == Joined(a[1..]) && Joined(b)[20..] == Joined(b[1..]);
      JoinedInjective(a[1..], b[1..]);
      assert a == [a[0]] + a[1..] && b == [b[0]] + b[1..];
    }
  }

  // ---- Pieces by index ----

  lemma CeilDivStep(n: nat, d: nat)
    requires 0 < d < n
    ensures TorrentLayout.CeilDiv(n, d) == TorrentLayout.CeilDiv(n - d, d) + 1
  {
    var q := (n - d) / d;
    TorrentLayout.QuotientOf(d, n - d, q);
    assert (q + 1) * d == q * d + d;
    TorrentLayout.QuotientOf(d, n, q + 1);
    assert n % d == n - n / d * d && (n - d) % d == (n - d) - q * d;
  }

  lemma CeilDivSmall(n: nat, d: nat)
    requires 0 < n <= d
    ensures TorrentLayout.CeilDiv(n, d) == 1
  {
    if n < d {
      assert n / d == 0;
    }
  }

  lemma {:induction false} PieceHashesCount(hash: HashFunction, data: ByteString, pieceLen: nat)
    requires 0 < pieceLen
    ensures |PieceHashes(hash, data, pieceLen)| == TorrentLayout.CeilDiv(|data|, pieceLen)
    decreases |data|
  {
    if data == [] {
    } else if |data| <= pieceLen {
      CeilDivSmall(|data|, pieceLen);
    } else {
      CeilDivStep(|data|, pieceLen);
      PieceHashesCount(hash, data[pieceLen..], pieceLen);
    }
  }

  /** Digest `i` is the hash of piece `i`. */
  lemma {:induction false} PieceHashesAt(hash: HashFunction, data: ByteString, pieceLen: nat, i: nat)
    requires 0 < pieceLen && i < |PieceHashes(hash, data, pieceLen)|
    ensures i * pieceLen < |data|
    ensures PieceHashes(hash, data, pieceLen)[i] == hash(Chunk(data, pieceLen, i))
    decreases |data|
  {
    if |data| <= pieceLen {
      assert i == 0;
      assert Chunk(data, pieceLen, 0) == data;
    } else if i == 0 {
      assert Chunk(data, pieceLen, 0) == data[..pieceLen];
    } else {
      var rest := data[pieceLen..];
      PieceHashesAt(hash, rest, pieceLen, i - 1);
      assert i * pieceLen == (i - 1) * pieceLen + pieceLen;
      assert Chunk(rest, pieceLen, i - 1) == Chunk(data, pieceLen, i);
    }
  }

  /** Digest `i` takes bytes `20 i` to `20 i + 20` of the string. */
  lemma {:induction false} JoinedAt(digests: seq<Digest>, i: nat)
    requires i < |digests|
    ensures 20 * i + 20 <= |Joined(digests)| && Joined(digests)[20 * i..20 * i + 20] == digests[i]
  {
    var first: ByteString, rest := digests[0], Joined(digests[1..]);
    var all: ByteString := first + rest;
    if i == 0 {
      assert all[..20] == first;
    } else {
      JoinedAt(digests[1..], i - 1);
      assert all[20..] == rest;
      assert all[20 * i..20 * i + 20] == rest[20 * (i - 1)..20 * (i - 1) + 20];
    }
  }
}
