/** Verifying local data against a torrent: the span layout of its files, piece
    reads across file boundaries, and the whole check. Files may be shorter or
    longer than recorded, and reads may fail. */
module DataVerification {
  import opened Bytes
  import opened TorrentLayout
  import opened PieceHashing

  datatype Span = Span(offset: nat, length: nat)

  /** The recorded sizes: one for a single-file torrent. */
  function RecordedSizes(t: Torrent): seq<nat> {
    if t.files == [] then [t.length] else t.files
  }

  ghost predicate HasRecordedSizes(t: Torrent, files: seq<ByteString>) {
    && |files| == |RecordedSizes(t)|
    && forall i :: 0 <= i < |files| ==> |files[i]| == RecordedSizes(t)[i]
  }

  ghost predicate LayoutOf(sizes: seq<nat>, layout: seq<Span>) {
    && |layout| == |sizes|
    && forall i :: 0 <= i < |layout| ==> layout[i] == Span(Sum(sizes[..i]), sizes[i])
  }

  function Layout(sizes: seq<nat>): (layout: seq<Span>)
    ensures LayoutOf(sizes, layout)
  {
    seq(|sizes|, i requires 0 <= i < |sizes| => Span(Sum(sizes[..i]), sizes[i]))
  }

  /** The layout part of `newDiskReader`. */
  method NewLayout(t: Torrent) returns (layout: seq<Span>)
    ensures LayoutOf(RecordedSizes(t), layout) && layout == Layout(RecordedSizes(t))
  {
    if |t.files| == 0 {
      return [Span(0, t.length)];
    }
    layout := [];
    var offset := 0;
    for i := 0 to |t.files|
      invariant |layout| == i && offset == Sum(t.files[..i])
      invariant forall k :: 0 <= k < i ==> layout[k] == Span(Sum(t.files[..k]), t.files[k])
    {
      layout := layout + [Span(offset, t.files[i])];
      assert t.files[..i + 1] == t.files[..i] + [t.files[i]];
      SumAppend(t.files[..i], t.files[i]);
      offset := offset + t.files[i];
    }
  }

  lemma {:induction false} ConcatSize(files: seq<ByteString>, sizes: seq<nat>)
    requires |files| == |sizes| && forall i :: 0 <= i < |files| ==> |files[i]| == sizes[i]
    ensures |Concat(files)| == Sum(sizes)
  {
    if files != [] {
      ConcatSize(files[1..], sizes[1..]);
    }
  }

  lemma {:induction false} ConcatSplit(files: seq<ByteString>, i: nat)
    requires i <= |files|
    ensures Concat(files) == Concat(files[..i]) + Concat(files[i..])
  {
    if i == 0 {
      assert files[0..] == files;
    } else {
      ConcatSplit(files[1..], i - 1);
      assert files[..i][1..] == files[1..][..i - 1] && files[i..] == files[1..][i - 1..];
    }
  }

  /** File `i` occupies its span of the concatenation. */
  lemma FileAtSpan(files: seq<ByteString>, sizes: seq<nat>, i: nat)
    requires |files| == |sizes| && i < |files| && forall k :: 0 <= k < |files| ==> |files[k]| == sizes[k]
    ensures var at := Sum(sizes[..i]);
            && at + sizes[i] == Sum(sizes[..i + 1]) <= |Concat(files)|
            && Concat(files)[at..at + sizes[i]] == files[i]
  {
    ConcatSplit(files, i);
    ConcatSize(files[..i], sizes[..i]);
    assert files[i..] == [files[i]] + files[i + 1..];
    assert sizes[..i + 1] == sizes[..i] + [sizes[i]];
    SumAppend(sizes[..i], sizes[i]);
  }

  lemma SpanEnds(sizes: seq<nat>, layout: seq<Span>, i: nat)
    requires LayoutOf(sizes, layout) && i < |layout|
    ensures layout[i].offset + layout[i].length == Sum(sizes[..i + 1])
  {
    assert sizes[..i + 1] == sizes[..i] + [sizes[i]];
    SumAppend(sizes[..i], sizes[i]);
  }

  lemma {:induction false} SpansAscend(sizes: seq<nat>, layout: seq<Span>, i: nat, p: nat)
    requires LayoutOf(sizes, layout) && i < p < |layout|
    ensures layout[i].offset + layout[i].length <= layout[p].offset
    decreases p
  {
    SpanEnds(sizes, layout, i);
    if i + 1 < p {
      SpansAscend(sizes, layout, i, p - 1);
      SpanEnds(sizes, layout, p - 1);
    }
  }

  // ---- Reading a piece ----

  /** A file as one read meets it: what it holds, and whether a read of it breaks
      and after how many bytes. It need not have its recorded size. */
  datatype DiskFile = DiskFile(body: ByteString, fault: Option<nat>)

  type Disk = seq<DiskFile>

  function Least(a: int, b: int): int {
    if a < b then a else b
  }

  function Most(a: int, b: int): int {
    if a < b then b else a
  }

  /** The bytes one read delivers: short at the end of the file, and on a fault. */
  function Delivered(file: DiskFile, offset: nat, count: nat): (part: ByteString)
    ensures |part| <= count
  {
    var all := if offset >= |file.body| then [] else file.body[offset..Least(offset + count, |file.body|)];
    if file.fault.Some? then all[..Least(file.fault.value, |all|)] else all
  }

  /** What one span delivers of the `count` bytes from `at` on. */
  function Part(span: Span, file: DiskFile, at: nat, count: nat): (part: ByteString)
    requires at < span.offset + span.length
    ensures |part| <= count
  {
    var offset := Most(at - span.offset, 0);
    Delivered(file, offset, Least(span.length - offset, count))
  }

  /** The bytes read from span `i` on for the `count` bytes from `at` on, and
      whether a read broke. What a short file lacks is looked for at the start of
      the next one. */
  function ReadFrom(layout: seq<Span>, disk: Disk, i: nat, at: nat, count: nat): (r: (ByteString, bool))
    requires |layout| == |disk| && i <= |layout|
    ensures |r.0| <= count
    decreases |layout| - i
  {
    if i == |layout| then ([], false)
    else if at >= layout[i].offset + layout[i].length then ReadFrom(layout, disk, i + 1, at, count)
    else if count == 0 then ([], false)
    else
      var part := Part(layout[i], disk[i], at, count);
      if disk[i].fault.Some? then (part, true)
      else
        var (rest, broke) := ReadFrom(layout, disk, i + 1, at + |part|, count - |part|);
        (part + rest, broke)
  }

  /** `whole` is what was read so far followed by the read from span `i` on. */
  ghost predicate Continues(whole: (ByteString, bool), got: ByteString, layout: seq<Span>, disk: Disk, i: nat, at: nat,
                            count: nat)
    requires |layout| == |disk| && i <= |layout|
  {
    var (rest, broke) := ReadFrom(layout, disk, i, at, count);
    whole == (got + rest, broke)
  }

  lemma ContinuesAtFirst(layout: seq<Span>, disk: Disk, at: nat, count: nat)
    requires |layout| == |disk|
    ensures Continues(ReadFrom(layout, disk, 0, at, count), [], layout, disk, 0, at, count)
  {
    assert [] + ReadFrom(layout, disk, 0, at, count).0 == ReadFrom(layout, disk, 0, at, count).0;
  }

  /** One span delivers its part and the read goes on. */
  lemma ContinuesAfter(whole: (ByteString, bool), got: ByteString, layout: seq<Span>, disk: Disk, i: nat, at: nat,
                       count: nat)
    requires |layout| == |disk| && i < |layout| && at < layout[i].offset + layout[i].length && count > 0
    requires Continues(whole, got, layout, disk, i, at, count)
    ensures var part := Part(layout[i], disk[i], at, count);
            if disk[i].fault.Some? then whole == (got + part, true)
            else Continues(whole, got + part, layout, disk, i + 1, at + |part|, count - |part|)
  {
    var part := Part(layout[i], disk[i], at, count);
    if disk[i].fault.None? {
      var rest := ReadFrom(layout, disk, i + 1, at + |part|, count - |part|);
      assert got + (part + rest.0) == got + part + rest.0;
    }
  }

  lemma ContinuesNoMore(whole: (ByteString, bool), got: ByteString, layout: seq<Span>, disk: Disk, i: nat, at: nat,
                        count: nat)
    requires |layout| == |disk| && i <= |layout|
    requires i == |layout| || (count == 0 && at < layout[i].offset + layout[i].length)
    requires Continues(whole, got, layout, disk, i, at, count)
    ensures whole == (got, false)
  {
    assert got + [] == got;
  }

  /** `ReadPiece`: fills `buf` from the files that hold its bytes. It returns how
      many bytes it read, and succeeds when the buffer is full. */
  method ReadPiece(disk: Disk, layout: seq<Span>, pieceLength: nat, index: nat, buf: array<Byte>)
    returns (n: nat, ok: bool)
    requires |layout| == |disk|
    modifies buf
    ensures var (data, broke) := ReadFrom(layout, disk, 0, index * pieceLength, buf.Length);
            && n == |data| && buf[..n] == data
            && (ok <==> !broke && n == buf.Length)
  {
    ghost var whole := ReadFrom(layout, disk, 0, index * pieceLength, buf.Length);
    var pieceOffset := index * pieceLength;
    var remaining, pos := buf.Length, 0;
    ContinuesAtFirst(layout, disk, pieceOffset, remaining);
    assert buf[..pos] == [];
    for i := 0 to |layout|
      invariant pos + remaining == buf.Length && 0 <= pos && 0 <= remaining && 0 <= pieceOffset
      invariant Continues(whole, buf[..pos], layout, disk, i, pieceOffset, remaining)
    {
      var span := layout[i];
      if pieceOffset >= span.offset + span.length {
        continue;
      }
      if remaining == 0 {
        ContinuesNoMore(whole, buf[..pos], layout, disk, i, pieceOffset, remaining);
        return pos, true;
      }
      ContinuesAfter(whole, buf[..pos], layout, disk, i, pieceOffset, remaining);
      var read := ReadSpan(span, disk[i], pieceOffset, remaining, buf, pos);
      pos := pos + read;
      remaining := remaining - read;
      pieceOffset := pieceOffset + read;
      if disk[i].fault.Some? {
        return pos, false;
      }
    }
    ContinuesNoMore(whole, buf[..pos], layout, disk, |layout|, pieceOffset, remaining);
    n := pos;
    ok := remaining <= 0;
  }

  /** The read of one span. */
  method ReadSpan(span: Span, file: DiskFile, pieceOffset: nat, remaining: nat, buf: array<Byte>, pos: nat)
    returns (n: nat)
    requires pieceOffset < span.offset + span.length && pos + remaining <= buf.Length
    modifies buf
    ensures var part := Part(span, file, pieceOffset, remaining);
            n == |part| && buf[..pos + n] == old(buf[..pos]) + part
  {
    var fileOffset := pieceOffset - span.offset;
    if fileOffset < 0 {
      fileOffset := 0;
    }
    var canRead := span.length - fileOffset;
    if canRead > remaining {
      canRead := remaining;
    }
    n := ReadAt(file, fileOffset, canRead, buf, pos);
  }

  /** `file.ReadAt` into `buf[pos:pos+count]`. */
  method ReadAt(file: DiskFile, offset: nat, count: nat, buf: array<Byte>, pos: nat) returns (n: nat)
    requires pos + count <= buf.Length
    modifies buf
    ensures n == |Delivered(file, offset, count)|
    ensures buf[..pos + n] == old(buf[..pos]) + Delivered(file, offset, count)
  {
    var part := Delivered(file, offset, count);
    for j := 0 to |part|
      invariant buf[..pos] == old(buf[..pos])
      invariant buf[pos..pos + j] == part[..j]
    {
      buf[pos + j] := part[j];
      assert buf[pos..pos + j + 1] == buf[pos..pos + j] + [part[j]];
    }
    n := |part|;
    assert buf[..pos + n] == buf[..pos] + buf[pos..pos + n];
  }

  // ---- When a read is right ----

  /** Span `p` holds part of `[lo, hi)`. */
  ghost predicate Holds(layout: seq<Span>, p: nat, lo: nat, hi: nat) {
    p < |layout| && Most(lo, layout[p].offset) < Least(hi, layout[p].offset + layout[p].length)
  }

  /** The file of span `p` reaches to the end of its part of a range up to `hi`. */
  ghost predicate Reaches(layout: seq<Span>, disk: Disk, p: nat, hi: nat)
    requires |layout| == |disk| && p < |layout|
  {
    Least(hi, layout[p].offset + layout[p].length) - layout[p].offset <= |disk[p].body|
  }

  /** Every file that holds part of `[lo, hi)` reaches to the end of that part, and
      reads of it do not break. */
  ghost predicate Intact(layout: seq<Span>, disk: Disk, lo: nat, hi: nat)
    requires |layout| == |disk|
  {
    forall p :: 0 <= p < |layout| && Holds(layout, p, lo, hi) ==> disk[p].fault.None? && Reaches(layout, disk, p, hi)
  }

  /** Byte `k` of the recorded data lies in span `p`, whose file has it, and is at
      its place in `data`, which starts at `lo`. */
  ghost predicate InPlace(layout: seq<Span>, disk: Disk, data: ByteString, lo: nat, p: nat, k: nat)
    requires |layout| == |disk| && p < |layout|
  {
    && 0 <= k - layout[p].offset < |disk[p].body|
    && 0 <= k - lo < |data|
    && data[k - lo] == disk[p].body[k - layout[p].offset]
  }

  ghost predicate AllInPlace(layout: seq<Span>, disk: Disk, data: ByteString, i: nat, lo: nat, hi: nat)
    requires |layout| == |disk|
  {
    forall p, k: nat ::
      i <= p < |layout| && lo <= k < hi && layout[p].offset <= k < layout[p].offset + layout[p].length ==>
      InPlace(layout, disk, data, lo, p, k)
  }

  /** The read succeeds with every byte of `[lo, hi)` from its own place. */
  ghost predicate ReadsRight(layout: seq<Span>, disk: Disk, lo: nat, hi: nat)
    requires |layout| == |disk| && lo <= hi
  {
    var (data, broke) := ReadFrom(layout, disk, 0, lo, hi - lo);
    !broke && |data| == hi - lo && AllInPlace(layout, disk, data, 0, lo, hi)
  }

  lemma {:induction false} ReadNothing(layout: seq<Span>, disk: Disk, i: nat, at: nat)
    requires |layout| == |disk| && i <= |layout|
    ensures ReadFrom(layout, disk, i, at, 0) == ([], false)
    decreases |layout| - i
  {
    if i < |layout| && at >= layout[i].offset + layout[i].length {
      ReadNothing(layout, disk, i + 1, at);
    }
  }

  /** A part from a file that reaches far enough is all there and in place. */
  lemma PartInPlace(layout: seq<Span>, disk: Disk, i: nat, at: nat, hi: nat)
    requires |layout| == |disk| && i < |layout| && layout[i].offset <= at < layout[i].offset + layout[i].length
    requires at < hi && Reaches(layout, disk, i, hi) && disk[i].fault.None?
    ensures var part, end := Part(layout[i], disk[i], at, hi - at), Least(hi, layout[i].offset + layout[i].length);
            && |part| == end - at
            && forall k: nat :: at <= k < end ==> InPlace(layout, disk, part, at, i, k)
  {
  }

  lemma JoinInPlace(sizes: seq<nat>, layout: seq<Span>, disk: Disk, i: nat, at: nat, mid: nat, hi: nat,
                    part: ByteString, rest: ByteString)
    requires LayoutOf(sizes, layout) && |layout| == |disk| && i < |layout|
    requires layout[i].offset <= at <= mid <= hi && |part| == mid - at
    requires mid == Least(hi, layout[i].offset + layout[i].length)
    requires forall k: nat :: at <= k < mid ==> InPlace(layout, disk, part, at, i, k)
    requires AllInPlace(layout, disk, rest, i + 1, mid, hi)
    ensures AllInPlace(layout, disk, part + rest, i, at, hi)
  {
    forall p, k: nat | i <= p < |layout| && at <= k < hi && layout[p].offset <= k < layout[p].offset + layout[p].length
      ensures InPlace(layout, disk, part + rest, at, p, k)
    {
      if p == i {
        assert InPlace(layout, disk, part, at, i, k);
      } else {
        SpansAscend(sizes, layout, i, p);
        assert InPlace(layout, disk, rest, mid, p, k);
      }
    }
  }

  /** Some file from span `i` on that the range needs has a fault. */
  ghost predicate Faulty(layout: seq<Span>, disk: Disk, i: nat, at: nat, hi: nat)
    requires |layout| == |disk|
  {
    exists p :: i <= p < |layout| && Holds(layout, p, at, hi) && disk[p].fault.Some?
  }

  ghost predicate AllReach(layout: seq<Span>, disk: Disk, i: nat, at: nat, hi: nat)
    requires |layout| == |disk|
  {
    forall p :: i <= p < |layout| && Holds(layout, p, at, hi) ==> Reaches(layout, disk, p, hi)
  }

  ghost predicate TailRight(layout: seq<Span>, disk: Disk, i: nat, at: nat, hi: nat)
    requires |layout| == |disk| && i <= |layout| && at <= hi
  {
    var (data, broke) := ReadFrom(layout, disk, i, at, hi - at);
    && (broke <==> Faulty(layout, disk, i, at, hi))
    && (!broke ==> |data| == hi - at && AllInPlace(layout, disk, data, i, at, hi))
  }

  /** A span that ends before the range. */
  lemma TailSkips(layout: seq<Span>, disk: Disk, i: nat, at: nat, hi: nat)
    requires |layout| == |disk| && i < |layout| && layout[i].offset + layout[i].length <= at < hi
    requires TailRight(layout, disk, i + 1, at, hi)
    ensures TailRight(layout, disk, i, at, hi)
  {
    assert !Holds(layout, i, at, hi);
    assert Faulty(layout, disk, i, at, hi) <==> Faulty(layout, disk, i + 1, at, hi);
  }

  /** Which later spans hold part of a range does not change when the part in
      span `i` is cut off. */
  lemma AfterSpan(sizes: seq<nat>, layout: seq<Span>, disk: Disk, i: nat, at: nat, mid: nat, hi: nat)
    requires LayoutOf(sizes, layout) && |layout| == |disk| && i < |layout|
    requires at <= mid == Least(hi, layout[i].offset + layout[i].length)
    ensures AllReach(layout, disk, i, at, hi) ==> AllReach(layout, disk, i + 1, mid, hi)
    ensures disk[i].fault.None? ==> (Faulty(layout, disk, i, at, hi) <==> Faulty(layout, disk, i + 1, mid, hi))
  {
    forall p | i < p < |layout|
      ensures Holds(layout, p, at, hi) <==> Holds(layout, p, mid, hi)
    {
      SpansAscend(sizes, layout, i, p);
    }
  }

  lemma TailAdds(sizes: seq<nat>, layout: seq<Span>, disk: Disk, i: nat, at: nat, mid: nat, hi: nat)
    requires LayoutOf(sizes, layout) && |layout| == |disk| && i < |layout|
    requires layout[i].offset <= at < hi && at < mid == Least(hi, layout[i].offset + layout[i].length)
    requires disk[i].fault.None? && Reaches(layout, disk, i, hi)
    requires TailRight(layout, disk, i + 1, mid, hi)
    ensures TailRight(layout, disk, i, at, hi)
  {
    var part := Part(layout[i], disk[i], at, hi - at);
    PartInPlace(layout, disk, i, at, hi);
    AfterSpan(sizes, layout, disk, i, at, mid, hi);
    var rest := ReadFrom(layout, disk, i + 1, mid, hi - mid);
    assert ReadFrom(layout, disk, i, at, hi - at) == (part + rest.0, rest.1);
    if !rest.1 {
      JoinInPlace(sizes, layout, disk, i, at, mid, hi, part, rest.0);
    }
  }

  lemma TailEmpty(layout: seq<Span>, disk: Disk, i: nat, hi: nat)
    requires |layout| == |disk| && i <= |layout|
    ensures TailRight(layout, disk, i, hi, hi)
  {
    ReadNothing(layout, disk, i, hi);
  }

  /** From span `i` on, where the read stands at or behind the start of the span:
      if all files reach far enough, the read breaks exactly when one it needs
      has a fault, and otherwise delivers every byte from its place. */
  lemma {:induction false} ReadTail(sizes: seq<nat>, layout: seq<Span>, disk: Disk, i: nat, at: nat, hi: nat)
    requires LayoutOf(sizes, layout) && |layout| == |disk| && i <= |layout|
    requires Sum(sizes[..i]) <= at <= hi <= Sum(sizes)
    requires AllReach(layout, disk, i, at, hi)
    ensures TailRight(layout, disk, i, at, hi)
    decreases |layout| - i
  {
    if i == |layout| {
      assert sizes[..i] == sizes;
      TailEmpty(layout, disk, i, hi);
    } else if at == hi {
      TailEmpty(layout, disk, i, hi);
    } else {
      SpanEnds(sizes, layout, i);
      var end := layout[i].offset + layout[i].length;
      if at >= end {
        ReadTail(sizes, layout, disk, i + 1, at, hi);
        TailSkips(layout, disk, i, at, hi);
      } else {
        assert Holds(layout, i, at, hi);
        if disk[i].fault.None? {
          var mid := Least(hi, end);
          AfterSpan(sizes, layout, disk, i, at, mid, hi);
          if mid == hi {
            TailEmpty(layout, disk, i + 1, hi);
          } else {
            ReadTail(sizes, layout, disk, i + 1, mid, hi);
          }
          TailAdds(sizes, layout, disk, i, at, mid, hi);
        }
      }
    }
  }

  /** A read gives every byte from its place exactly when the files that hold the
      range reach far enough and do not break, whatever the other files do. */
  lemma ReadRightIffIntact(sizes: seq<nat>, layout: seq<Span>, disk: Disk, lo: nat, hi: nat)
    requires LayoutOf(sizes, layout) && |layout| == |disk| && lo <= hi <= Sum(sizes)
    ensures ReadsRight(layout, disk, lo, hi) <==> Intact(layout, disk, lo, hi)
  {
    if ReadsRight(layout, disk, lo, hi) || Intact(layout, disk, lo, hi) {
      forall p | 0 <= p < |layout| && Holds(layout, p, lo, hi)
        ensures Reaches(layout, disk, p, hi)
      {
        var last := Least(hi, layout[p].offset + layout[p].length) - 1;
        if ReadsRight(layout, disk, lo, hi) {
          assert InPlace(layout, disk, ReadFrom(layout, disk, 0, lo, hi - lo).0, lo, p, last);
        }
      }
      ReadTail(sizes, layout, disk, 0, lo, hi);
    }
  }

  // ---- Files of their recorded sizes ----

  function Healthy(files: seq<ByteString>): Disk {
    seq(|files|, i requires 0 <= i < |files| => DiskFile(files[i], None))
  }

  lemma {:induction false} SpanOfByte(sizes: seq<nat>, n: nat, k: nat) returns (p: nat)
    requires n <= |sizes| && k < Sum(sizes[..n])
    ensures p < n && Sum(sizes[..p]) <= k < Sum(sizes[..p]) + sizes[p]
  {
    assert sizes[..n] == sizes[..n - 1] + [sizes[n - 1]];
    SumAppend(sizes[..n - 1], sizes[n - 1]);
    if k >= Sum(sizes[..n - 1]) {
      p := n - 1;
    } else {
      p := SpanOfByte(sizes, n - 1, k);
    }
  }

  /** On files of their recorded sizes every read is of the concatenation. */
  lemma HealthyRead(files: seq<ByteString>, sizes: seq<nat>, layout: seq<Span>, lo: nat, hi: nat)
    requires LayoutOf(sizes, layout)
    requires |files| == |sizes| && forall i :: 0 <= i < |files| ==> |files[i]| == sizes[i]
    requires lo <= hi <= |Concat(files)|
    ensures ReadFrom(layout, Healthy(files), 0, lo, hi - lo) == (Concat(files)[lo..hi], false)
  {
    var disk := Healthy(files);
    ConcatSize(files, sizes);
    ReadRightIffIntact(sizes, layout, disk, lo, hi);
    var data := ReadFrom(layout, disk, 0, lo, hi - lo).0;
    forall k | lo <= k < hi
      ensures data[k - lo] == Concat(files)[k]
    {
      assert sizes[..|sizes|] == sizes;
      var p := SpanOfByte(sizes, |sizes|, k);
      FileAtSpan(files, sizes, p);
      assert InPlace(layout, disk, data, lo, p, k);
      assert Concat(files)[k] == files[p][k - Sum(sizes[..p])];
    }
    assert data == Concat(files)[lo..hi];
  }

  // ---- Verification ----

  datatype VerifyResult = VerifyResult(total: nat, valid: nat, invalid: seq<nat>)

  /** Piece `i` of the data, were it all there, has the torrent's hash. */
  ghost predicate PieceValid(hash: HashFunction, t: Torrent, data: ByteString, i: nat) {
    && i < |t.pieces|
    && i * t.pieceLength <= |data|
    && hash(Chunk(data, t.pieceLength, i)) == t.pieces[i]
  }

  /** What is read for piece `i` is complete and has the torrent's hash. */
  ghost predicate ReadValid(hash: HashFunction, t: Torrent, disk: Disk, i: nat)
    requires t.WellFormed() && |disk| == |RecordedSizes(t)| && i < |t.pieces|
  {
    PiecesPartition(t, i, 0);
    var (data, broke) := ReadFrom(Layout(RecordedSizes(t)), disk, 0, i * t.pieceLength, t.PieceLen(i));
    !broke && |data| == t.PieceLen(i) && hash(data) == t.pieces[i]
  }

  lemma RecordedTotal(t: Torrent, files: seq<ByteString>)
    requires HasRecordedSizes(t, files)
    ensures |Concat(files)| == t.TotalLength()
  {
    ConcatSize(files, RecordedSizes(t));
    if t.files == [] {
      assert Sum([t.length]) == t.length + Sum([t.length][1..]);
    }
  }

  lemma PieceIsChunk(t: Torrent, data: ByteString, i: nat) returns (lo: nat, len: nat)
    requires t.WellFormed() && |data| == t.TotalLength() && i < |t.pieces|
    ensures lo == i * t.pieceLength && len == t.PieceLen(i) && lo + len <= |data|
    ensures data[lo..lo + len] == Chunk(data, t.pieceLength, i)
  {
    PiecesPartition(t, i, 0);
    lo, len := i * t.pieceLength, t.PieceLen(i);
  }

  lemma ReadValidIs(hash: HashFunction, t: Torrent, disk: Disk, i: nat, lo: nat, len: nat, data: ByteString)
    requires t.WellFormed() && |disk| == |RecordedSizes(t)| && i < |t.pieces|
    requires lo == i * t.pieceLength && len == t.PieceLen(i) == |data|
    requires ReadFrom(Layout(RecordedSizes(t)), disk, 0, lo, len) == (data, false)
    ensures ReadValid(hash, t, disk, i) <==> hash(data) == t.pieces[i]
  {
  }

  /** On files of their recorded sizes the pieces read are those of the data. */
  lemma HealthyValid(hash: HashFunction, t: Torrent, files: seq<ByteString>, i: nat)
    requires t.WellFormed() && HasRecordedSizes(t, files) && i < |t.pieces|
    ensures ReadValid(hash, t, Healthy(files), i) <==> PieceValid(hash, t, Concat(files), i)
  {
    RecordedTotal(t, files);
    var lo, len := PieceIsChunk(t, Concat(files), i);
    var data := Chunk(Concat(files), t.pieceLength, i);
    HealthyRead(files, RecordedSizes(t), Layout(RecordedSizes(t)), lo, lo + len);
    ReadValidIs(hash, t, Healthy(files), i, lo, len, data);
  }

  /** `VerifyData`: exactly the pieces that do not read right are listed, in order.
      `disk(i)` is what the files are like when piece `i` is read. */
  method VerifyData(hash: HashFunction, t: Torrent, disk: nat -> Disk) returns (r: VerifyResult)
    requires t.WellFormed() && forall i :: |disk(i)| == |RecordedSizes(t)|
    ensures r.total == |t.pieces| == r.valid + |r.invalid|
    ensures forall i: nat :: i in r.invalid <==> i < |t.pieces| && !ReadValid(hash, t, disk(i), i)
    ensures forall j, k :: 0 <= j < k < |r.invalid| ==> r.invalid[j] < r.invalid[k]
    ensures r.invalid == [] <==> forall i: nat :: i < |t.pieces| ==> ReadValid(hash, t, disk(i), i)
  {
    var layout := NewLayout(t);
    var valid, invalid: seq<nat> := 0, [];
    for i := 0 to |t.pieces|
      invariant valid + |invalid| == i
      invariant forall k: nat :: k in invalid <==> k < i && !ReadValid(hash, t, disk(k), k)
      invariant forall j :: 0 <= j < |invalid| ==> invalid[j] < i
      invariant forall j, k :: 0 <= j < k < |invalid| ==> invalid[j] < invalid[k]
    {
      var good := CheckPiece(hash, t, disk(i), layout, i);
      if good {
        valid := valid + 1;
      } else {
        invalid := invalid + [i];
      }
    }
    r := VerifyResult(|t.pieces|, valid, invalid);
    assert invalid != [] ==> invalid[0] in invalid;
  }

  /** The body of the verification loop: read, compare lengths, compare hashes. */
  method CheckPiece(hash: HashFunction, t: Torrent, disk: Disk, layout: seq<Span>, i: nat) returns (good: bool)
    requires t.WellFormed() && |disk| == |RecordedSizes(t)| && layout == Layout(RecordedSizes(t)) && i < |t.pieces|
    ensures good <==> ReadValid(hash, t, disk, i)
  {
    PiecesPartition(t, i, 0);
    var pieceLen := t.PieceLen(i);
    var buf := new Byte[pieceLen];
    var n, ok := ReadPiece(disk, layout, t.pieceLength, i, buf);
    if !ok {
      return false;
    }
    if n != pieceLen {
      return false;
    }
    assert buf[..n] == buf[..];
    good := hash(buf[..]) == t.pieces[i];
  }

  /** A torrent made from some files, with their sizes and the piece hashes the
      creator computes, is well formed and finds every piece of them valid. */
  lemma CreatedDataIsValid(hash: HashFunction, t: Torrent, files: seq<ByteString>)
    requires HasRecordedSizes(t, files) && 0 < t.pieceLength
    requires t.pieces == PieceHashes(hash, Concat(files), t.pieceLength)
    ensures t.WellFormed()
    ensures forall i: nat :: i < |t.pieces| ==> PieceValid(hash, t, Concat(files), i)
  {
    RecordedTotal(t, files);
    PieceHashesCount(hash, Concat(files), t.pieceLength);
    forall i: nat | i < |t.pieces|
      ensures PieceValid(hash, t, Concat(files), i)
    {
      PieceHashesAt(hash, Concat(files), t.pieceLength, i);
    }
  }

  ghost function Bodies(sources: seq<Source>): seq<ByteString> {
    seq(|sources|, i requires 0 <= i < |sources| => Content(sources[i]))
  }

  lemma {:induction false} ContentsAreBodies(sources: seq<Source>)
    ensures Contents(sources) == Concat(Bodies(sources))
  {
    if sources != [] {
      assert Bodies(sources)[1..] == Bodies(sources[1..]);
      ContentsAreBodies(sources[1..]);
    }
  }

  lemma CreatedPieces(hash: HashFunction, bytes: ByteString, data: ByteString, pieceLen: nat)
    requires 0 < pieceLen && bytes == Joined(PieceHashes(hash, data, pieceLen))
    ensures |bytes| % 20 == 0
    ensures forall pieces: seq<Digest> :: Joined(pieces) == bytes ==> pieces == PieceHashes(hash, data, pieceLen)
  {
    JoinedLength(PieceHashes(hash, data, pieceLen));
    forall pieces: seq<Digest> | Joined(pieces) == bytes
      ensures pieces == PieceHashes(hash, data, pieceLen)
    {
      JoinedInjective(pieces, PieceHashes(hash, data, pieceLen));
    }
  }

  /** Hash some files however their reads are chunked, store the string, parse it
      back, and verify the same files: every created piece is valid. */
  method CreateThenVerify(hash: HashFunction, sources: seq<Source>, t: Torrent, files: seq<ByteString>)
    returns (r: VerifyResult)
    requires 0 < t.pieceLength
    requires forall i :: 0 <= i < |sources| ==> Readable(sources[i])
    requires files == Bodies(sources) && HasRecordedSizes(t, files)
    ensures r.total == CeilDiv(|Concat(files)|, t.pieceLength)
    ensures r.invalid == [] && r.valid == r.total
  {
    var bytes := HashMultiFiles(hash, sources, t.pieceLength);
    ContentsAreBodies(sources);
    CreatedPieces(hash, bytes.value, Concat(files), t.pieceLength);
    var pieces := SplitPieces(bytes.value);
    var created := t.(pieces := pieces.value);
    CreatedDataIsValid(hash, created, files);
    PieceHashesCount(hash, Concat(files), t.pieceLength);
    var disk := Healthy(files);
    forall i: nat | i < |created.pieces|
      ensures ReadValid(hash, created, disk, i)
    {
      HealthyValid(hash, created, files, i);
    }
    r := VerifyData(hash, created, _ => disk);
  }

  lemma {:induction false} JoinedLength(digests: seq<Digest>)
    ensures |Joined(digests)| == 20 * |digests|
  {
    if digests != [] {
      JoinedLength(digests[1..]);
    }
  }

  /** What a short file lacks is taken from the start of the next one: a read of
      the whole first span of two goes on in the second file. */
  lemma ShortFileSpills(first: ByteString, second: ByteString, a: nat, b: nat)
    requires 0 < |first| < a && b <= |second|
    ensures var layout, disk := [Span(0, a), Span(a, b)], [DiskFile(first, None), DiskFile(second, None)];
            ReadFrom(layout, disk, 0, 0, a) == (first + second[..Least(b, a - |first|)], false)
  {
    var layout, disk := [Span(0, a), Span(a, b)], [DiskFile(first, None), DiskFile(second, None)];
    var lack := a - |first|;
    assert Part(layout[0], disk[0], 0, a) == first;
    if b == 0 {
      assert ReadFrom(layout, disk, 1, |first|, lack) == (second[..0], false);
    } else {
      var part := Part(layout[1], disk[1], |first|, lack);
      assert part == second[..Least(b, lack)];
      assert part + [] == part;
    }
    assert ReadFrom(layout, disk, 1, |first|, lack) == (second[..Least(b, lack)], false);
  }
}
