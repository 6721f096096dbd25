/** Dictionaries decoded together with the raw bytes of each value, as needed
    for the info-hash of a torrent; and what that rests on: a parse depends only
    on the bytes it consumes. */
module BencodeRaw {
  import opened Bytes
  import Decimal
  import ByteOrder
  import opened Bencode
  import opened BencodeLaws

  // ---- A parse depends only on the bytes it consumes ----

  lemma StringLocal(data: ByteString, r: ByteString)
    requires DecodeString(data).Ok?
    ensures var (s, rest) := DecodeString(data).value;
            DecodeString(Taken(data, rest) + r) == Ok((s, r))
  {
    var (s, rest) := DecodeString(data).value;
    var colon := Decimal.DigitRun(data, 0);
    var data' := Taken(data, rest) + r;
    UnsignedParse(data[..colon]);
    assert data[0..colon] == data[..colon] == data'[..colon];
    Decimal.DigitRunIs(data', colon);
    assert data'[colon + 1..colon + 1 + |s|] == s;
    assert data'[colon + 1 + |s|..] == r;
  }

  lemma IntLocal(data: ByteString, r: ByteString)
    requires DecodeInt(data).Ok?
    ensures var (n, rest) := DecodeInt(data).value;
            DecodeInt(Taken(data, rest) + r) == Ok((n, r))
  {
    var (n, rest) := DecodeInt(data).value;
    var end := FindEnd(data, 1);
    var data' := Taken(data, rest) + r;
    assert forall k :: 0 <= k <= end ==> data'[k] == data[k];
    FindEndIs(data', 1, end);
    assert data'[1..end] == data[1..end];
    assert data'[end + 1..] == r;
  }

  lemma BodyLocal(data: ByteString, rest: ByteString, r: ByteString)
    requires data != [] && SuffixOf(rest, data[1..])
    ensures SuffixOf(rest, data)
    ensures var data' := Taken(data, rest) + r;
            data' != [] && data'[0] == data[0] && data'[1..] == Taken(data[1..], rest) + r
  {
  }

  lemma ListLocal(data: ByteString, r: ByteString)
    requires data != [] && data[0] == LETTER_L && DecodeItems(data[1..]).Ok?
    requires var (xs, rest) := DecodeItems(data[1..]).value; DecodeItems(Taken(data[1..], rest) + r) == Ok((xs, r))
    ensures var (v, rest) := DecodeValue(data).value;
            DecodeValue(Taken(data, rest) + r) == Ok((v, r))
  {
    BodyLocal(data, DecodeItems(data[1..]).value.1, r);
  }

  lemma DictLocal(data: ByteString, r: ByteString)
    requires data != [] && data[0] == LETTER_D && DecodeEntries(data[1..], None).Ok?
    requires var (m, rest) := DecodeEntries(data[1..], None).value;
             DecodeEntries(Taken(data[1..], rest) + r, None) == Ok((m, r))
    ensures var (v, rest) := DecodeValue(data).value;
            DecodeValue(Taken(data, rest) + r) == Ok((v, r))
  {
    BodyLocal(data, DecodeEntries(data[1..], None).value.1, r);
  }

  lemma ScalarLocal(data: ByteString, r: ByteString)
    requires DecodeValue(data).Ok? && data[0] != LETTER_L && data[0] != LETTER_D
    ensures var (v, rest) := DecodeValue(data).value;
            DecodeValue(Taken(data, rest) + r) == Ok((v, r))
  {
    var (v, rest) := DecodeValue(data).value;
    assert (Taken(data, rest) + r)[0] == data[0];
    if data[0] == LETTER_I {
      IntLocal(data, r);
    } else {
      StringLocal(data, r);
    }
  }

  /** Replacing what follows a parsed value changes only what is left over. */
  lemma {:induction false} ValueLocal(data: ByteString, r: ByteString)
    requires DecodeValue(data).Ok?
    ensures var (v, rest) := DecodeValue(data).value;
            DecodeValue(Taken(data, rest) + r) == Ok((v, r))
    decreases |data|, 0
  {
    if data[0] == LETTER_L {
      ItemsLocal(data[1..], r);
      ListLocal(data, r);
    } else if data[0] == LETTER_D {
      EntriesLocal(data[1..], None, r);
      DictLocal(data, r);
    } else {
      ScalarLocal(data, r);
    }
  }

  lemma {:induction false} ItemsLocal(data: ByteString, r: ByteString)
    requires DecodeItems(data).Ok?
    ensures var (xs, rest) := DecodeItems(data).value;
            DecodeItems(Taken(data, rest) + r) == Ok((xs, r))
    decreases |data|, 1
  {
    var (xs, rest) := DecodeItems(data).value;
    if data[0] == LETTER_E {
      assert Taken(data, rest) + r == [LETTER_E] + r;
    } else {
      var (v, rest') := DecodeValue(data).value;
      var tail := Taken(rest', rest) + r;
      TakenTwice(data, rest', rest);
      assert Taken(data, rest) + r == Taken(data, rest') + tail;
      ValueLocal(data, tail);
      ItemsLocal(rest', r);
      ItemStep(Taken(data, rest) + r, v, tail);
    }
  }

  lemma TakenThree(data: ByteString, rest1: ByteString, rest2: ByteString, rest: ByteString, r: ByteString)
    requires SuffixOf(rest1, data) && SuffixOf(rest2, rest1) && SuffixOf(rest, rest2) && |rest1| < |data|
    ensures SuffixOf(rest, data)
    ensures var data' := Taken(data, rest) + r;
            && data' == Taken(data, rest1) + (Taken(rest1, rest2) + (Taken(rest2, rest) + r))
            && data' != [] && data'[0] == data[0]
  {
    TakenTwice(data, rest1, rest2);
    TakenTwice(data, rest2, rest);
  }

  lemma {:induction false} EntriesLocal(data: ByteString, prev: Option<ByteString>, r: ByteString)
    requires DecodeEntries(data, prev).Ok?
    ensures var (m, rest) := DecodeEntries(data, prev).value;
            DecodeEntries(Taken(data, rest) + r, prev) == Ok((m, r))
    decreases |data|, 1
  {
    var (m, rest) := DecodeEntries(data, prev).value;
    if data[0] == LETTER_E {
      assert Taken(data, rest) + r == [LETTER_E] + r;
    } else {
      var (key, rest1) := DecodeString(data).value;
      var (v, rest2) := DecodeValue(rest1).value;
      var tail2 := Taken(rest2, rest) + r;
      var tail1 := Taken(rest1, rest2) + tail2;
      TakenThree(data, rest1, rest2, rest, r);
      StringLocal(data, tail1);
      ValueLocal(rest1, tail2);
      EntriesLocal(rest2, Some(key), r);
      EntryStep(Taken(data, rest) + r, prev, key, tail1, v, tail2);
    }
  }

  // ---- Raw dictionaries ----

  datatype RawValue = RawValue(val: Value, raw: ByteString)

  type RawEntries = map<ByteString, RawValue>

  function ExtendRaw(entries: RawEntries, r: Result<RawEntries, Error>): Result<RawEntries, Error> {
    match r
    case Err(e) => Err(e)
    case Ok(m) => Ok(entries + m)
  }

  function DecodeRawEntries(data: ByteString, prev: Option<ByteString>): Result<RawEntries, Error>
    decreases |data|
  {
    if data == [] then Err(UnexpectedEnd)
    else if data[0] == LETTER_E then Ok(map[])
    else
      match DecodeString(data)
      case Err(e) => Err(e)
      case Ok((key, rest)) =>
        if OutOfOrder(prev, key) then Err(InvalidFormat)
        else
          match DecodeValue(rest)
          case Err(e) => Err(e)
          case Ok((v, rest')) =>
            ExtendRaw(map[key := RawValue(v, Taken(rest, rest'))], DecodeRawEntries(rest', Some(key)))
  }

  function DecodeDictRaw(data: ByteString): Result<RawEntries, Error> {
    if data == [] || data[0] != LETTER_D then Err(InvalidFormat) else DecodeRawEntries(data[1..], None)
  }

  method RunDecodeDictRaw(data: ByteString) returns (r: Result<RawEntries, Error>)
    ensures r == DecodeDictRaw(data)
  {
    if |data| == 0 || data[0] != LETTER_D {
      return Err(InvalidFormat);
    }
    var left := data[1..];
    var result: RawEntries := map[];
    var prev: Option<ByteString> := None;
    ExtendRawNothing(DecodeRawEntries(left, None));
    while true
      invariant ExtendRaw(result, DecodeRawEntries(left, prev)) == DecodeDictRaw(data)
      decreases |left|
    {
      if |left| == 0 {
        return Err(UnexpectedEnd);
      }
      if left[0] == LETTER_E {
        assert result + map[] == result;
        return Ok(result);
      }
      var k := RunDecodeString(left);
      if k.Err? {
        return Err(k.error);
      }
      var (key, rest) := k.value;
      if prev.Some? && !ByteOrder.Less(prev.value, key) {
        return Err(InvalidFormat);
      }
      var v := RunDecodeValue(rest);
      if v.Err? {
        return Err(v.error);
      }
      var (value, rest') := v.value;
      var raw := RawValue(value, rest[..|rest| - |rest'|]);
      ExtendRawTwice(result, key, raw, DecodeRawEntries(rest', Some(key)));
      prev := Some(key);
      result := result[key := raw];
      left := rest';
    }
  }

  lemma ExtendRawNothing(r: Result<RawEntries, Error>)
    ensures ExtendRaw(map[], r) == r
  {
    if r.Ok? {
      assert map[] + r.value == r.value;
    }
  }

  lemma ExtendRawTwice(entries: RawEntries, key: ByteString, v: RawValue, r: Result<RawEntries, Error>)
    ensures ExtendRaw(entries, ExtendRaw(map[key := v], r)) == ExtendRaw(entries[key := v], r)
  {
    if r.Ok? {
      assert entries + (map[key := v] + r.value) == entries[key := v] + r.value;
    }
  }

  /** The slice on its own decodes to the value with nothing left. */
  ghost predicate Slices(r: RawValue, v: Value) {
    r.val == v && DecodeValue(r.raw) == Ok((v, []))
  }

  ghost predicate SameEntries(raw: RawEntries, plain: map<ByteString, Value>) {
    raw.Keys == plain.Keys && forall k :: k in plain ==> Slices(raw[k], plain[k])
  }

  /** The raw form mirrors the plain one. */
  ghost predicate Mirrors(raw: Result<RawEntries, Error>, plain: Parse<map<ByteString, Value>>) {
    match plain
    case Err(e) => raw == Err(e)
    case Ok((m, _)) => raw.Ok? && SameEntries(raw.value, m)
  }

  lemma SameEntriesExtend(raw: RawEntries, plain: map<ByteString, Value>, key: ByteString, r: RawValue, v: Value)
    requires SameEntries(raw, plain) && Slices(r, v)
    ensures SameEntries(map[key := r] + raw, map[key := v] + plain)
  {
    var raw', plain' := map[key := r] + raw, map[key := v] + plain;
    forall k | k in plain'
      ensures Slices(raw'[k], plain'[k])
    {
      assert k in plain <==> k in raw;
    }
  }

  lemma MirrorsExtend(raw: Result<RawEntries, Error>, plain: Parse<map<ByteString, Value>>, key: ByteString,
                      r: RawValue, v: Value)
    requires Mirrors(raw, plain) && Slices(r, v)
    ensures Mirrors(ExtendRaw(map[key := r], raw), Extend(map[key := v], plain))
  {
    if plain.Ok? {
      SameEntriesExtend(raw.value, plain.value.0, key, r, v);
    }
  }

  lemma {:induction false} RawMirrors(data: ByteString, prev: Option<ByteString>)
    ensures Mirrors(DecodeRawEntries(data, prev), DecodeEntries(data, prev))
    decreases |data|
  {
    if data != [] && data[0] != LETTER_E && DecodeString(data).Ok? {
      var (key, rest) := DecodeString(data).value;
      if !OutOfOrder(prev, key) && DecodeValue(rest).Ok? {
        var (v, rest') := DecodeValue(rest).value;
        RawMirrors(rest', Some(key));
        ValueLocal(rest, []);
        assert Taken(rest, rest') + [] == Taken(rest, rest');
        MirrorsExtend(DecodeRawEntries(rest', Some(key)), DecodeEntries(rest', Some(key)), key,
                      RawValue(v, Taken(rest, rest')), v);
        RawEntryStep(data, prev, key, rest, v, rest');
        EntryStep(data, prev, key, rest, v, rest');
      }
    }
  }

  /** On input that starts with 'd', the raw decoder succeeds exactly when the
      dictionary decoder does, with the same keys and values, and each raw slice
      on its own decodes to its value with nothing left. */
  lemma RawAgreesWithDict(data: ByteString)
    requires data != [] && data[0] == LETTER_D
    ensures DecodeDictRaw(data).Ok? <==> DecodeValue(data).Ok?
    ensures DecodeDictRaw(data).Ok? ==>
              var raw, v := DecodeDictRaw(data).value, DecodeValue(data).value.0;
              && v.Dict? && raw.Keys == v.entries.Keys
              && forall k :: k in raw ==> raw[k].val == v.entries[k] && Decode(raw[k].raw) == Ok(raw[k].val)
  {
    RawMirrors(data[1..], None);
  }

  ghost function RawSubmap(v: Value, keys: seq<ByteString>): RawEntries
    requires v.Dict? && forall k :: k in keys ==> k in v.entries
  {
    map k | k in keys :: RawValue(v.entries[k], Encode(v.entries[k]))
  }

  lemma RawSubmapFirst(v: Value, keys: seq<ByteString>)
    requires v.Dict? && keys != [] && forall k :: k in keys ==> k in v.entries
    ensures RawSubmap(v, keys) ==
            map[keys[0] := RawValue(v.entries[keys[0]], Encode(v.entries[keys[0]]))] + RawSubmap(v, keys[1..])
  {
    assert keys == [keys[0]] + keys[1..];
  }

  lemma RawEntryStep(data: ByteString, prev: Option<ByteString>, key: ByteString, rest: ByteString, v: Value,
                     rest': ByteString)
    requires data != [] && data[0] != LETTER_E && DecodeString(data) == Ok((key, rest))
    requires !OutOfOrder(prev, key) && DecodeValue(rest) == Ok((v, rest'))
    ensures DecodeRawEntries(data, prev) ==
            ExtendRaw(map[key := RawValue(v, Taken(rest, rest'))], DecodeRawEntries(rest', Some(key)))
  {
  }

  lemma {:induction false} RawOfEncoded(v: Value, keys: seq<ByteString>, prev: Option<ByteString>, r: ByteString)
    requires v.Dict? && Representable(v) && forall k :: k in keys ==> k in v.entries
    requires ByteOrder.Ascending(keys) && (prev.Some? ==> forall k :: k in keys ==> ByteOrder.Less(prev.value, k))
    ensures DecodeRawEntries(EncodeEntries(v, keys) + ([LETTER_E] + r), prev) == Ok(RawSubmap(v, keys))
    decreases |keys|
  {
    if keys == [] {
      assert EncodeEntries(v, keys) + ([LETTER_E] + r) == [LETTER_E] + r;
    } else {
      var k := keys[0];
      var tail := EncodeEntries(v, keys[1..]) + ([LETTER_E] + r);
      var rest := Encode(v.entries[k]) + tail;
      EntriesSplit(v, keys, [LETTER_E] + r);
      StringRoundTrip(k, rest);
      RoundTrip(v.entries[k], tail);
      RawOfEncoded(v, keys[1..], Some(k), r);
      RawEntryStep(EncodeEntries(v, keys) + ([LETTER_E] + r), prev, k, rest, v.entries[k], tail);
      assert Taken(rest, tail) == Encode(v.entries[k]);
      RawSubmapFirst(v, keys);
    }
  }

  // ---- The info-hash ----

  const INFO: ByteString := [105, 110, 102, 111]

  /** SHA-1 of the raw bytes of the "info" entry; none when the file is not a
      dictionary or has no such entry. */
  function InfoHash(hash: HashFunction, data: ByteString): Option<Digest> {
    match DecodeDictRaw(data)
    case Err(_) => None
    case Ok(raw) => if INFO in raw then Some(hash(raw[INFO].raw)) else None
  }

  /** On an encoded dictionary, whatever follows it, the raw slice of every key
      is the encoding of its value. */
  lemma RawDictOfEncoded(m: map<ByteString, Value>, r: ByteString)
    requires Representable(Dict(m))
    ensures DecodeDictRaw(Encode(Dict(m)) + r) == Ok(RawSubmap(Dict(m), ByteOrder.Sorted(m.Keys)))
  {
    var v, keys := Dict(m), ByteOrder.Sorted(m.Keys);
    EncodedBody(LETTER_D, EncodeEntries(v, keys), r);
    ByteOrder.SortedAscends(m.Keys);
    RawOfEncoded(v, keys, None, r);
    DictRawIs(Encode(v) + r);
  }

  lemma DictRawIs(data: ByteString)
    requires data != [] && data[0] == LETTER_D
    ensures DecodeDictRaw(data) == DecodeRawEntries(data[1..], None)
  {
  }

  /** So the info-hash is the hash of the re-encoded info dictionary. */
  lemma InfoHashOfEncoded(hash: HashFunction, m: map<ByteString, Value>, r: ByteString)
    requires Representable(Dict(m))
    ensures InfoHash(hash, Encode(Dict(m)) + r) == if INFO in m then Some(hash(Encode(m[INFO]))) else None
  {
    RawDictOfEncoded(m, r);
  }

  /** When a torrent file is plain in its info entry, hashing the raw bytes and
      hashing the re-encoded entry agree; a non-plain entry is strictly longer
      than its re-encoding, so the two hash different inputs. */
  lemma InfoHashNeedsRaw(data: ByteString)
    requires DecodeDictRaw(data).Ok? && INFO in DecodeDictRaw(data).value
    ensures var info := DecodeDictRaw(data).value[INFO];
            Decode(info.raw).Ok? && (Encode(info.val) == info.raw <==> Plain(info.raw))
  {
    RawAgreesWithDict(data);
    Reencoding(DecodeDictRaw(data).value[INFO].raw);
  }
}
