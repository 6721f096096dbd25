/** The uTP packet codec (BEP 29): a 20-byte header, a chain of extensions in
    which each entry names the type of the next, and a payload. */
module Utp {
  import opened Bytes

  type U16 = x: int | 0 <= x < 0x1_0000

  type U32 = x: int | 0 <= x < 0x1_0000_0000

  const HEADER_SIZE: nat := 20

  datatype Header = Header(kind: Byte, version: Byte, extension: Byte, connId: U16, timestamp: U32, timeDiff: U32,
                           wndSize: U32, seqNr: U16, ackNr: U16)

  datatype Extension = Extension(kind: Byte, payload: ByteString)

  datatype Packet = Packet(header: Header, extensions: seq<Extension>, payload: ByteString)

  datatype Error = HeaderTooShort | UnsupportedVersion | ExtensionTruncated | ExtensionPayloadTruncated

  // ---- The wire format ----

  function PutU16(x: U16): (b: ByteString)
    ensures |b| == 2
  {
    [x / 0x100, x % 0x100]
  }

  function PutU32(x: U32): (b: ByteString)
    ensures |b| == 4
  {
    [x / 0x100_0000, x / 0x1_0000 % 0x100, x / 0x100 % 0x100, x % 0x100]
  }

  function GetU16(b: ByteString): U16
    requires |b| == 2
  {
    var hi: int, lo: int := b[0], b[1];
    hi * 0x100 + lo
  }

  function GetU32(b: ByteString): U32
    requires |b| == 4
  {
    var b0: int, b1: int, b2: int, b3: int := b[0], b[1], b[2], b[3];
    b0 * 0x100_0000 + b1 * 0x1_0000 + b2 * 0x100 + b3
  }

  /** The type in the upper nibble, the version in the lower; both are cut. */
  function TypeAndVersion(h: Header): Byte {
    var kind: int, version: int := h.kind, h.version;
    kind * 16 % 0x100 + version % 16
  }

  function HeaderBytes(h: Header): (b: ByteString)
    ensures |b| == HEADER_SIZE
  {
    [TypeAndVersion(h), h.extension] + PutU16(h.connId) + PutU32(h.timestamp) + PutU32(h.timeDiff)
    + PutU32(h.wndSize) + PutU16(h.seqNr) + PutU16(h.ackNr)
  }

  function HeaderOf(data: ByteString): Header
    requires |data| >= HEADER_SIZE
  {
    Header(data[0] / 16, data[0] % 16, data[1], GetU16(data[2..4]), GetU32(data[4..8]), GetU32(data[8..12]),
           GetU32(data[12..16]), GetU16(data[16..18]), GetU16(data[18..20]))
  }

  function DecodeHeader(data: ByteString): Result<Header, Error> {
    if |data| < HEADER_SIZE then Err(HeaderTooShort)
    else if HeaderOf(data).version != 1 then Err(UnsupportedVersion)
    else Ok(HeaderOf(data))
  }

  function FirstKind(extensions: seq<Extension>): Byte {
    if extensions == [] then 0 else extensions[0].kind
  }

  function ExtensionBytes(extensions: seq<Extension>): ByteString {
    if extensions == [] then []
    else
      [FirstKind(extensions[1..]), |extensions[0].payload| % 0x100] + extensions[0].payload
      + ExtensionBytes(extensions[1..])
  }

  function Encode(p: Packet): ByteString {
    HeaderBytes(p.header) + ExtensionBytes(p.extensions) + p.payload
  }

  /** Extensions read so far, in front of what the rest gives. */
  function After(es: seq<Extension>, r: Result<(seq<Extension>, ByteString), Error>)
    : Result<(seq<Extension>, ByteString), Error>
  {
    match r
    case Err(x) => Err(x)
    case Ok((more, rest)) => Ok((es + more, rest))
  }

  /** The chain starting with type `next`, and the bytes after it. */
  function DecodeChain(data: ByteString, next: Byte): Result<(seq<Extension>, ByteString), Error>
    decreases |data|
  {
    if next == 0 then Ok(([], data))
    else if |data| < 2 then Err(ExtensionTruncated)
    else
      var end: int := 2 + (data[1] as int);
      if |data| < end then Err(ExtensionPayloadTruncated)
      else After([Extension(next, data[2..end])], DecodeChain(data[end..], data[0]))
  }

  function DecodePacket(data: ByteString): Result<Packet, Error> {
    match DecodeHeader(data)
    case Err(e) => Err(e)
    case Ok(h) =>
      match DecodeChain(data[HEADER_SIZE..], h.extension)
      case Err(e) => Err(e)
      case Ok((extensions, payload)) => Ok(Packet(h, extensions, payload))
  }

  // ---- Inverses ----

  lemma U16Bytes(x: U16, b: ByteString)
    requires |b| == 2
    ensures GetU16(PutU16(x)) == x && PutU16(GetU16(b)) == b
  {
  }

  lemma U32PutGet(x: U32)
    ensures GetU32(PutU32(x)) == x
  {
    assert x == x / 0x1_0000 * 0x1_0000 + x % 0x1_0000;
    assert x / 0x1_0000 == x / 0x100_0000 * 0x100 + x / 0x1_0000 % 0x100;
  }

  lemma U32GetPut(b: ByteString)
    requires |b| == 4
    ensures PutU32(GetU32(b)) == b
  {
    var n := GetU32(b);
    var b0: int, b1: int, b2: int := b[0], b[1], b[2];
    assert n / 0x100 == b0 * 0x1_0000 + b1 * 0x100 + b2;
    assert n / 0x1_0000 == b0 * 0x100 + b1;
    assert n / 0x100_0000 == b0;
  }

  lemma TypeAndVersionSplit(h: Header)
    ensures TypeAndVersion(h) / 16 == h.kind % 16 && TypeAndVersion(h) % 16 == h.version % 16
  {
    var kind: int := h.kind;
    assert kind * 16 % 0x100 == kind % 16 * 16;
  }

  /** Decoding an encoded header cuts the type and version to four bits each and
      keeps every other field. */
  lemma HeaderRoundTrip(h: Header, rest: ByteString)
    ensures HeaderOf(HeaderBytes(h) + rest) == h.(kind := h.kind % 16, version := h.version % 16)
  {
    var data := HeaderBytes(h) + rest;
    assert data[2..4] == PutU16(h.connId) && data[16..18] == PutU16(h.seqNr) && data[18..20] == PutU16(h.ackNr);
    assert data[4..8] == PutU32(h.timestamp) && data[8..12] == PutU32(h.timeDiff) && data[12..16] == PutU32(h.wndSize);
    U16Bytes(h.connId, [0, 0]);
    U16Bytes(h.seqNr, [0, 0]);
    U16Bytes(h.ackNr, [0, 0]);
    U32PutGet(h.timestamp);
    U32PutGet(h.timeDiff);
    U32PutGet(h.wndSize);
    TypeAndVersionSplit(h);
  }

  /** A decoded header re-encodes to the bytes it was read from. */
  lemma HeaderReencodes(data: ByteString)
    requires |data| >= HEADER_SIZE
    ensures HeaderBytes(HeaderOf(data)) == data[..HEADER_SIZE]
  {
    U16Bytes(0, data[2..4]);
    U32GetPut(data[4..8]);
    U32GetPut(data[8..12]);
    U32GetPut(data[12..16]);
    U16Bytes(0, data[16..18]);
    U16Bytes(0, data[18..20]);
    assert data[..HEADER_SIZE] == [data[0], data[1]] + data[2..4] + data[4..8] + data[8..12] + data[12..16]
                                  + data[16..18] + data[18..20];
  }

  ghost predicate ChainOk(extensions: seq<Extension>) {
    forall i :: 0 <= i < |extensions| ==> extensions[i].kind != 0 && |extensions[i].payload| < 0x100
  }

  lemma {:induction false} ChainRoundTrip(extensions: seq<Extension>, payload: ByteString)
    requires ChainOk(extensions)
    ensures DecodeChain(ExtensionBytes(extensions) + payload, FirstKind(extensions)) == Ok((extensions, payload))
  {
    var data := ExtensionBytes(extensions) + payload;
    if extensions == [] {
      assert data == payload;
    } else {
      var e, rest := extensions[0], extensions[1..];
      ChainRoundTrip(rest, payload);
      assert data == [FirstKind(rest), |e.payload|] + e.payload + (ExtensionBytes(rest) + payload);
      assert data[2..2 + |e.payload|] == e.payload;
      assert data[2 + |e.payload|..] == ExtensionBytes(rest) + payload;
      assert [e] + rest == extensions;
    }
  }

  lemma {:induction false} ChainReencodes(data: ByteString, next: Byte)
    requires DecodeChain(data, next).Ok?
    ensures var (extensions, payload) := DecodeChain(data, next).value;
            ChainOk(extensions) && FirstKind(extensions) == next && ExtensionBytes(extensions) + payload == data
    decreases |data|
  {
    if next != 0 {
      var end: int := 2 + (data[1] as int);
      ChainReencodes(data[end..], data[0]);
      var (es, payload) := DecodeChain(data[end..], data[0]).value;
      LinkReencodes(Extension(next, data[2..end]), es, payload, data, end);
    }
  }

  lemma LinkReencodes(e: Extension, es: seq<Extension>, payload: ByteString, data: ByteString, end: nat)
    requires 2 <= end <= |data| && end == 2 + data[1] as int && e.payload == data[2..end]
    requires e.kind != 0 && ChainOk(es) && FirstKind(es) == data[0] && ExtensionBytes(es) + payload == data[end..]
    ensures ChainOk([e] + es) && ExtensionBytes([e] + es) + payload == data
  {
    assert ([e] + es)[1..] == es;
    assert ExtensionBytes([e] + es) == [data[0], data[1]] + e.payload + ExtensionBytes(es);
    assert data == [data[0], data[1]] + e.payload + data[end..];
  }

  /** Packets the format can carry. */
  ghost predicate WellFormed(p: Packet) {
    && p.header.kind < 16 && p.header.version == 1
    && ChainOk(p.extensions)
    && p.header.extension == FirstKind(p.extensions)
  }

  /** Every accepted datagram decodes to a well-formed packet that re-encodes to
      the same bytes. */
  lemma DecodeThenEncode(data: ByteString)
    requires DecodePacket(data).Ok?
    ensures WellFormed(DecodePacket(data).value) && Encode(DecodePacket(data).value) == data
  {
    HeaderReencodes(data);
    ChainReencodes(data[HEADER_SIZE..], HeaderOf(data).extension);
    assert data == data[..HEADER_SIZE] + data[HEADER_SIZE..];
  }

  /** A header and a chain that decode make up a packet that does. */
  lemma PartsDecode(first: ByteString, chain: ByteString, p: Packet)
    requires |first| == HEADER_SIZE && p.header.version == 1
    requires HeaderOf(first + (chain + p.payload)) == p.header
    requires DecodeChain(chain + p.payload, p.header.extension) == Ok((p.extensions, p.payload))
    ensures DecodePacket(first + chain + p.payload) == Ok(p)
  {
    var data := first + chain + p.payload;
    assert data == first + (chain + p.payload);
    assert data[HEADER_SIZE..] == chain + p.payload;
  }

  lemma WellFormedSurvives(p: Packet)
    requires WellFormed(p)
    ensures DecodePacket(Encode(p)) == Ok(p)
  {
    var chain := ExtensionBytes(p.extensions);
    HeaderRoundTrip(p.header, chain + p.payload);
    ChainRoundTrip(p.extensions, p.payload);
    PartsDecode(HeaderBytes(p.header), chain, p);
  }

  /** A packet survives the wire exactly when it is well formed: four-bit type,
      version 1, nonzero extension types, extension payloads of at most 255
      bytes, and a first-extension field that matches the chain. */
  lemma EncodeThenDecode(p: Packet)
    ensures DecodePacket(Encode(p)) == Ok(p) <==> WellFormed(p)
  {
    if WellFormed(p) {
      WellFormedSurvives(p);
    } else if DecodePacket(Encode(p)).Ok? {
      DecodeThenEncode(Encode(p));
    }
  }

  // ---- The codec as it runs ----

  /** Writes into a caller's buffer of at least 20 bytes. */
  method EncodeHeader(h: Header, buf: array<Byte>)
    requires buf.Length >= HEADER_SIZE
    modifies buf
    ensures buf[..HEADER_SIZE] == HeaderBytes(h)
    ensures buf[HEADER_SIZE..] == old(buf[HEADER_SIZE..])
  {
    buf[0], buf[1] := TypeAndVersion(h), h.extension;
    Put(buf, 2, PutU16(h.connId));
    Put(buf, 4, PutU32(h.timestamp));
    Put(buf, 8, PutU32(h.timeDiff));
    Put(buf, 12, PutU32(h.wndSize));
    Put(buf, 16, PutU16(h.seqNr));
    Put(buf, 18, PutU16(h.ackNr));
    assert buf[..HEADER_SIZE] == buf[..18] + buf[18..20];
  }

  /** `copy(buf[at:], bytes)`. */
  method Put(buf: array<Byte>, at: nat, bytes: ByteString)
    requires at + |bytes| <= buf.Length
    modifies buf
    ensures buf[..at] == old(buf[..at])
    ensures buf[..at + |bytes|] == old(buf[..at]) + bytes
    ensures buf[at + |bytes|..] == old(buf[at + |bytes|..])
    ensures forall k :: at + |bytes| <= k < buf.Length ==> buf[k] == old(buf[k])
  {
    for j := 0 to |bytes|
      invariant buf[..at + j] == old(buf[..at]) + bytes[..j]
      invariant buf[at + |bytes|..] == old(buf[at + |bytes|..])
    {
      buf[at + j] := bytes[j];
    }
    assert buf[..at] == buf[..at + |bytes|][..at];
    forall k | at + |bytes| <= k < buf.Length
      ensures buf[k] == old(buf[k])
    {
      assert buf[k] == buf[at + |bytes|..][k - at - |bytes|];
    }
  }

  function ExtensionSize(extensions: seq<Extension>): nat {
    if extensions == [] then 0 else 2 + |extensions[0].payload| + ExtensionSize(extensions[1..])
  }

  method EncodePacket(p: Packet) returns (buf: array<Byte>)
    ensures fresh(buf) && buf[..] == Encode(p)
  {
    var extSize := 0;
    for i := 0 to |p.extensions|
      invariant extSize + ExtensionSize(p.extensions[i..]) == ExtensionSize(p.extensions)
    {
      assert p.extensions[i..][1..] == p.extensions[i + 1..];
      extSize := extSize + 2 + |p.extensions[i].payload|;
    }
    buf := new Byte[HEADER_SIZE + extSize + |p.payload|];
    EncodeHeader(p.header, buf);
    var off := PutExtensions(buf, p.extensions, extSize);
    Put(buf, off, p.payload);
    assert buf[..off + |p.payload|] == buf[..];
  }

  /** The extension linked list, behind the header. */
  method PutExtensions(buf: array<Byte>, extensions: seq<Extension>, ghost extSize: nat) returns (off: nat)
    requires extSize == ExtensionSize(extensions) && HEADER_SIZE + extSize <= buf.Length
    modifies buf
    ensures off == HEADER_SIZE + extSize
    ensures buf[..off] == old(buf[..HEADER_SIZE]) + ExtensionBytes(extensions)
  {
    off := HEADER_SIZE;
    ghost var whole := buf[..HEADER_SIZE] + ExtensionBytes(extensions);
    for i := 0 to |extensions|
      invariant HEADER_SIZE <= off && off + ExtensionSize(extensions[i..]) == HEADER_SIZE + extSize
      invariant buf[..off] + ExtensionBytes(extensions[i..]) == whole
    {
      var e := extensions[i];
      assert extensions[i..][1..] == extensions[i + 1..];
      var next := if i + 1 < |extensions| then extensions[i + 1].kind else 0;
      ghost var tail := ExtensionBytes(extensions[i + 1..]);
      Regroup(buf[..off], [next, |e.payload| % 0x100], e.payload, tail);
      Put(buf, off, [next, |e.payload| % 0x100]);
      Put(buf, off + 2, e.payload);
      off := off + 2 + |e.payload|;
    }
    assert extensions[|extensions|..] == [];
    assert buf[..off] + [] == buf[..off];
  }

  lemma Regroup(a: ByteString, b: ByteString, c: ByteString, d: ByteString)
    ensures a + (b + c + d) == a + b + c + d
  {
  }

  method RunDecodePacket(data: ByteString) returns (r: Result<Packet, Error>)
    ensures r == DecodePacket(data)
  {
    var header := DecodeHeader(data);
    if header.Err? {
      return Err(header.error);
    }
    var h := header.value;
    var off := HEADER_SIZE;
    var extensions: seq<Extension> := [];
    var next := h.extension;
    AfterNothing(DecodeChain(data[off..], next));
    while next != 0
      invariant HEADER_SIZE <= off <= |data|
      invariant After(extensions, DecodeChain(data[off..], next)) == DecodeChain(data[HEADER_SIZE..], h.extension)
      decreases |data| - off
    {
      if off + 2 > |data| {
        return Err(ExtensionTruncated);
      }
      var kind := next;
      ghost var start := off;
      next := data[off];
      var extLen: int := data[off + 1];
      off := off + 2;
      if off + extLen > |data| {
        return Err(ExtensionPayloadTruncated);
      }
      var e := Extension(kind, data[off..off + extLen]);
      off := off + extLen;
      assert data[start..][2..2 + extLen] == e.payload && data[start..][2 + extLen..] == data[off..];
      AfterTwice(extensions, e, DecodeChain(data[off..], next));
      extensions := extensions + [e];
    }
    assert extensions + [] == extensions;
    return Ok(Packet(h, extensions, data[off..]));
  }

  lemma AfterNothing(r: Result<(seq<Extension>, ByteString), Error>)
    ensures After([], r) == r
  {
    if r.Ok? {
      assert [] + r.value.0 == r.value.0;
    }
  }

  lemma AfterTwice(es: seq<Extension>, e: Extension, r: Result<(seq<Extension>, ByteString), Error>)
    ensures After(es, After([e], r)) == After(es + [e], r)
  {
    if r.Ok? {
      assert es + ([e] + r.value.0) == es + [e] + r.value.0;
    }
  }

  // ---- The layout in bytes ----

  ghost function BigEndian2(a: Byte, b: Byte): int {
    a * 0x100 + b
  }

  ghost function BigEndian4(a: Byte, b: Byte, c: Byte, d: Byte): int {
    a * 0x100_0000 + b * 0x1_0000 + c * 0x100 + d
  }

  /** The fields in the order of the wire, all numbers most significant byte first. */
  lemma HeaderLayout(h: Header)
    ensures var b := HeaderBytes(h);
            && b[0] == h.kind % 16 * 16 + h.version % 16 && b[1] == h.extension
            && BigEndian2(b[2], b[3]) == h.connId
            && BigEndian4(b[4], b[5], b[6], b[7]) == h.timestamp
            && BigEndian4(b[8], b[9], b[10], b[11]) == h.timeDiff
            && BigEndian4(b[12], b[13], b[14], b[15]) == h.wndSize
            && BigEndian2(b[16], b[17]) == h.seqNr && BigEndian2(b[18], b[19]) == h.ackNr
  {
    TypeAndVersionSplit(h);
    Bytes4(h.timestamp);
    Bytes4(h.timeDiff);
    Bytes4(h.wndSize);
  }

  lemma Bytes4(x: U32)
    ensures var b := PutU32(x); BigEndian4(b[0], b[1], b[2], b[3]) == x
  {
    U32PutGet(x);
  }

  /** An entry is the type of the next one, or 0, its length and its payload. */
  lemma ExtensionLayout(e: Extension, rest: seq<Extension>)
    ensures var b, next := ExtensionBytes([e] + rest), ExtensionBytes(rest);
            && |b| == 2 + |e.payload| + |next|
            && b[0] == (if rest == [] then 0 else rest[0].kind)
            && (|e.payload| < 256 ==> b[1] == |e.payload|)
            && b[2..2 + |e.payload|] == e.payload && b[2 + |e.payload|..] == next
  {
    assert ([e] + rest)[1..] == rest;
  }

  // ---- What is accepted, and what is wrong otherwise ----

  /** A datagram decodes to a packet exactly when the packet is well formed and the
      datagram is its encoding. */
  lemma DecodedIffEncoded(data: ByteString, p: Packet)
    ensures DecodePacket(data) == Ok(p) <==> WellFormed(p) && Encode(p) == data
  {
    if WellFormed(p) && Encode(p) == data {
      EncodeThenDecode(p);
    } else if DecodePacket(data) == Ok(p) {
      DecodeThenEncode(data);
    }
  }

  /** Too short for a header, or not version 1; everything else is about the chain. */
  lemma HeaderFails(data: ByteString)
    ensures DecodePacket(data) == Err(HeaderTooShort) <==> |data| < 20
    ensures DecodePacket(data) == Err(UnsupportedVersion) <==> |data| >= 20 && data[0] % 16 != 1
  {
    if |data| >= 20 {
      ChainErrors(data[HEADER_SIZE..], HeaderOf(data).extension);
    }
  }

  lemma {:induction false} ChainErrors(data: ByteString, next: Byte)
    ensures var r := DecodeChain(data, next);
            r.Err? ==> r.error.ExtensionTruncated? || r.error.ExtensionPayloadTruncated?
    decreases |data|
  {
    if next != 0 && |data| >= 2 && |data| >= 2 + (data[1] as int) {
      ChainErrors(data[2 + (data[1] as int)..], data[0]);
    }
  }

  /** The first entry of a chain that is cut off, in its first two bytes or in its
      payload, decides the error. */
  lemma ChainFails(data: ByteString, next: Byte)
    requires next != 0
    ensures |data| < 2 ==> DecodeChain(data, next) == Err(ExtensionTruncated)
    ensures 2 <= |data| < 2 + (data[1] as int) ==> DecodeChain(data, next) == Err(ExtensionPayloadTruncated)
    ensures 2 <= |data| && 2 + (data[1] as int) <= |data| ==>
              var later := DecodeChain(data[2 + (data[1] as int)..], data[0]);
              later.Err? ==> DecodeChain(data, next) == later
  {
  }
}
