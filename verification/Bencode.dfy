/** The bencode format (BEP 3): values, the encoder, and the decoder's
    acceptance rules as functions; then the encoder and decoder as the source
    runs them, appending to a buffer and looping over the input, proved to
    compute those functions. */
module Bencode {
  import opened Bytes
  import opened Decimal
  import ByteOrder

  datatype Value =
    | String(bytes: ByteString)
    | Int(n: int)
    | List(items: seq<Value>)
    | Dict(entries: map<ByteString, Value>)

  const COLON: Byte := 58
  const LETTER_D: Byte := 100
  const LETTER_E: Byte := 101
  const LETTER_I: Byte := 105
  const LETTER_L: Byte := 108

  /** Values the program's own types can hold: integers of 64 bits, and strings
      whose length is a machine integer. */
  ghost predicate Representable(v: Value)
    decreases v
  {
    match v
    case String(s) => |s| <= INT64_MAX
    case Int(n) => IsInt64(n)
    case List(xs) => forall i :: 0 <= i < |xs| ==> Representable(xs[i])
    case Dict(m) => forall k :: k in m ==> |k| <= INT64_MAX && Representable(m[k])
  }

  // ---- Encoding ----

  function EncodeString(s: ByteString): ByteString {
    Digits(|s|) + [COLON] + s
  }

  function EncodeInt(n: int): ByteString {
    [LETTER_I] + FormatInt(n) + [LETTER_E]
  }

  ghost function Encode(v: Value): ByteString
    decreases v, 1
  {
    match v
    case String(s) => EncodeString(s)
    case Int(n) => EncodeInt(n)
    case List(xs) => [LETTER_L] + EncodeItems(xs) + [LETTER_E]
    case Dict(m) => [LETTER_D] + EncodeEntries(v, ByteOrder.Sorted(m.Keys)) + [LETTER_E]
  }

  ghost function EncodeItems(xs: seq<Value>): ByteString
    decreases xs
  {
    if xs == [] then [] else Encode(xs[0]) + EncodeItems(xs[1..])
  }

  /** The entries of a dictionary in the order of `keys`. */
  ghost function EncodeEntries(v: Value, keys: seq<ByteString>): ByteString
    requires v.Dict? && forall k :: k in keys ==> k in v.entries
    decreases v, 0, |keys|
  {
    if keys == [] then []
    else EncodeString(keys[0]) + Encode(v.entries[keys[0]]) + EncodeEntries(v, keys[1..])
  }

  // ---- Decoding ----

  datatype Error = UnexpectedEnd | InvalidFormat

  /** A parsed thing and the bytes after it. */
  type Parse<T> = Result<(T, ByteString), Error>

  predicate SuffixOf(rest: ByteString, data: ByteString) {
    |rest| <= |data| && rest == data[|data| - |rest|..]
  }

  function DecodeString(data: ByteString): (r: Parse<ByteString>)
    ensures r.Ok? ==> |r.value.1| < |data| && SuffixOf(r.value.1, data)
  {
    var colon := DigitRun(data, 0);
    if colon == |data| || data[colon] != COLON then Err(InvalidFormat)
    else
      match ParseInt(data[..colon])
      case None => Err(InvalidFormat)
      case Some(length) =>
        var end := colon + 1 + length;
        assert length >= 0 by { UnsignedParse(data[..colon]); }
        if end > |data| then Err(UnexpectedEnd)
        else Ok((data[colon + 1..end], data[end..]))
  }

  /** What the length and the colon say about where the string ends. */
  function StringEnd(data: ByteString): Option<nat> {
    var colon := DigitRun(data, 0);
    if colon == |data| || data[colon] != COLON || ParseInt(data[..colon]).None? then None
    else
      assert ParseInt(data[..colon]).value >= 0 by { UnsignedParse(data[..colon]); }
      Some(colon + 1 + ParseInt(data[..colon]).value)
  }

  /** Signed addition of 64 bits keeps the low bits. */
  function Wrap64(n: int): int {
    (n - INT64_MIN) % 0x1_0000_0000_0000_0000 + INT64_MIN
  }

  /** The end as the program computes it, in 64 bits, is the true one exactly when
      that is no larger than the largest such integer. Otherwise it is negative:
      the test against the data's length lets it through, and slicing up to it
      fails. Here that input gives the error that the test is there for. */
  lemma EndOverflowsIff(data: ByteString)
    requires StringEnd(data).Some? && |data| <= INT64_MAX
    ensures var end := StringEnd(data).value;
            && (Wrap64(end) == end <==> end <= INT64_MAX)
            && (end > INT64_MAX ==> Wrap64(end) < 0 && DecodeString(data) == Err(UnexpectedEnd))
  {
  }

  lemma UnsignedParse(s: ByteString)
    requires AllDigits(s)
    ensures ParseInt(s).Some? ==> ParseInt(s).value == FromDigits(s)
  {
  }

  /** Index of the first 'e' at or after `i`. */
  function FindEnd(data: ByteString, i: nat): (r: nat)
    requires i <= |data|
    ensures i <= r <= |data|
    ensures forall k :: i <= k < r ==> data[k] != LETTER_E
    ensures r < |data| ==> data[r] == LETTER_E
    decreases |data| - i
  {
    if i < |data| && data[i] != LETTER_E then FindEnd(data, i + 1) else i
  }

  /** The spellings the integer parser rejects before parsing. */
  predicate BadIntegerText(text: ByteString) {
    || (|text| > 1 && text[0] == ZERO)
    || text == [MINUS, ZERO]
  }

  function DecodeInt(data: ByteString): (r: Parse<int>)
    ensures r.Ok? ==> |r.value.1| < |data| && SuffixOf(r.value.1, data) && IsInt64(r.value.0)
  {
    if |data| < 3 then Err(UnexpectedEnd)
    else
      var end := FindEnd(data, 1);
      if end == |data| || BadIntegerText(data[1..end]) then Err(InvalidFormat)
      else
        match ParseInt(data[1..end])
        case None => Err(InvalidFormat)
        case Some(n) => Ok((n, data[end + 1..]))
  }

  function DecodeValue(data: ByteString): (r: Parse<Value>)
    ensures r.Ok? ==> |r.value.1| < |data| && SuffixOf(r.value.1, data)
    decreases |data|, 0
  {
    if data == [] then Err(UnexpectedEnd)
    else if data[0] == LETTER_I then
      match DecodeInt(data)
      case Ok((n, rest)) => Ok((Int(n), rest))
      case Err(e) => Err(e)
    else if data[0] == LETTER_L then
      match DecodeItems(data[1..])
      case Ok((xs, rest)) => Ok((List(xs), rest))
      case Err(e) => Err(e)
    else if data[0] == LETTER_D then
      match DecodeEntries(data[1..], None)
      case Ok((m, rest)) => Ok((Dict(m), rest))
      case Err(e) => Err(e)
    else if IsDigit(data[0]) then
      match DecodeString(data)
      case Ok((s, rest)) => Ok((String(s), rest))
      case Err(e) => Err(e)
    else Err(InvalidFormat)
  }

  /** Items read so far, in front of whatever the remaining input gives. */
  function Prepend(items: seq<Value>, r: Parse<seq<Value>>): Parse<seq<Value>> {
    match r
    case Err(e) => Err(e)
    case Ok((xs, rest)) => Ok((items + xs, rest))
  }

  /** Entries read so far, with what the remaining input gives. */
  function Extend(entries: map<ByteString, Value>, r: Parse<map<ByteString, Value>>): Parse<map<ByteString, Value>> {
    match r
    case Err(e) => Err(e)
    case Ok((m, rest)) => Ok((entries + m, rest))
  }

  /** The items of a list up to and including its closing 'e'. */
  function DecodeItems(data: ByteString): (r: Parse<seq<Value>>)
    ensures r.Ok? ==> |r.value.1| < |data| && SuffixOf(r.value.1, data)
    decreases |data|, 1
  {
    if data == [] then Err(UnexpectedEnd)
    else if data[0] == LETTER_E then Ok(([], data[1..]))
    else
      match DecodeValue(data)
      case Err(e) => Err(e)
      case Ok((v, rest)) =>
        Prepend([v], DecodeItems(rest))
  }

  predicate OutOfOrder(prev: Option<ByteString>, key: ByteString) {
    prev.Some? && !ByteOrder.Less(prev.value, key)
  }

  /** The entries of a dictionary up to and including its closing 'e'; `prev` is
      the key before them. */
  function DecodeEntries(data: ByteString, prev: Option<ByteString>): (r: Parse<map<ByteString, Value>>)
    ensures r.Ok? ==> |r.value.1| < |data| && SuffixOf(r.value.1, data)
    decreases |data|, 1
  {
    if data == [] then Err(UnexpectedEnd)
    else if data[0] == LETTER_E then Ok((map[], data[1..]))
    else
      match DecodeString(data)
      case Err(e) => Err(e)
      case Ok((key, rest)) =>
        if OutOfOrder(prev, key) then Err(InvalidFormat)
        else
          match DecodeValue(rest)
          case Err(e) => Err(e)
          case Ok((v, rest')) =>
            Extend(map[key := v], DecodeEntries(rest', Some(key)))
  }

  /** `Decode`: one value and nothing after it. */
  function Decode(data: ByteString): Result<Value, Error> {
    match DecodeValue(data)
    case Err(e) => Err(e)
    case Ok((v, rest)) => if rest != [] then Err(InvalidFormat) else Ok(v)
  }

  lemma PrependNothing(r: Parse<seq<Value>>)
    ensures Prepend([], r) == r
  {
    if r.Ok? {
      assert [] + r.value.0 == r.value.0;
    }
  }

  lemma PrependTwice(items: seq<Value>, item: Value, r: Parse<seq<Value>>)
    ensures Prepend(items, Prepend([item], r)) == Prepend(items + [item], r)
  {
    if r.Ok? {
      assert items + ([item] + r.value.0) == items + [item] + r.value.0;
    }
  }

  lemma ExtendNothing(r: Parse<map<ByteString, Value>>)
    ensures Extend(map[], r) == r
  {
    if r.Ok? {
      assert map[] + r.value.0 == r.value.0;
    }
  }

  lemma ExtendTwice(entries: map<ByteString, Value>, key: ByteString, v: Value, r: Parse<map<ByteString, Value>>)
    ensures Extend(entries, Extend(map[key := v], r)) == Extend(entries[key := v], r)
  {
    if r.Ok? {
      assert entries + (map[key := v] + r.value.0) == entries[key := v] + r.value.0;
    }
  }

  // ---- The encoder as it runs ----

  method AppendEncoded(buf: ByteString, v: Value) returns (out: ByteString)
    ensures out == buf + Encode(v)
    decreases v, 1
  {
    match v {
      case String(s) =>
        out := AppendString(buf, s);
      case Int(n) =>
        out := buf + [LETTER_I];
        out := out + FormatInt(n);
        out := out + [LETTER_E];
      case List(xs) =>
        out := AppendList(buf, xs);
      case Dict(m) =>
        out := AppendDict(buf, v);
    }
  }

  method AppendString(buf: ByteString, s: ByteString) returns (out: ByteString)
    ensures out == buf + EncodeString(s)
  {
    out := buf + Digits(|s|);
    out := out + [COLON];
    out := out + s;
  }

  method AppendList(buf: ByteString, xs: seq<Value>) returns (out: ByteString)
    ensures out == buf + ([LETTER_L] + EncodeItems(xs) + [LETTER_E])
    decreases xs
  {
    out := buf + [LETTER_L];
    ghost var whole := out + EncodeItems(xs);
    for i := 0 to |xs|
      invariant out + EncodeItems(xs[i..]) == whole
    {
      assert xs[i..][1..] == xs[i + 1..];
      ghost var before := out;
      out := AppendEncoded(out, xs[i]);
      assert before + (Encode(xs[i]) + EncodeItems(xs[i + 1..])) == out + EncodeItems(xs[i + 1..]);
    }
    assert out == whole;
    out := out + [LETTER_E];
  }

  method AppendDict(buf: ByteString, v: Value) returns (out: ByteString)
    requires v.Dict?
    ensures out == buf + Encode(v)
    decreases v, 0
  {
    out := buf + [LETTER_D];
    var keys := ByteOrder.SortKeys(v.entries.Keys);
    ghost var whole := out + EncodeEntries(v, keys);
    for i := 0 to |keys|
      invariant out + EncodeEntries(v, keys[i..]) == whole
    {
      assert keys[i..][1..] == keys[i + 1..];
      var k := keys[i];
      ghost var tail := EncodeEntries(v, keys[i + 1..]);
      AppendedEntry(out, EncodeString(k), Encode(v.entries[k]), tail);
      out := AppendString(out, k);
      out := AppendEncoded(out, v.entries[k]);
    }
    assert out == whole;
    out := out + [LETTER_E];
  }

  lemma AppendedEntry(out: ByteString, key: ByteString, value: ByteString, tail: ByteString)
    ensures out + (key + value + tail) == out + key + value + tail
  {
  }

  // ---- The decoder as it runs ----

  method RunDecodeString(data: ByteString) returns (r: Parse<ByteString>)
    ensures r == DecodeString(data)
  {
    var colon := -1;
    var i := 0;
    while i < |data|
      invariant 0 <= i <= |data| && colon == -1
      invariant DigitRun(data, 0) == DigitRun(data, i)
    {
      if data[i] == COLON {
        colon := i;
        break;
      }
      if !IsDigit(data[i]) {
        return Err(InvalidFormat);
      }
      i := i + 1;
    }
    if colon == -1 {
      return Err(InvalidFormat);
    }
    UnsignedParse(data[..colon]);
    match ParseInt(data[..colon]) {
      case None => return Err(InvalidFormat);
      case Some(length) =>
        var start := colon + 1;
        var end := start + length;
        if end > |data| {
          return Err(UnexpectedEnd);
        }
        return Ok((data[start..end], data[end..]));
    }
  }

  method RunDecodeInt(data: ByteString) returns (r: Parse<int>)
    ensures r == DecodeInt(data)
  {
    if |data| < 3 {
      return Err(UnexpectedEnd);
    }
    var end := -1;
    for i := 1 to |data|
      invariant end == -1
      invariant FindEnd(data, 1) == FindEnd(data, i)
    {
      if data[i] == LETTER_E {
        end := i;
        break;
      }
    }
    if end == -1 {
      return Err(InvalidFormat);
    }
    var text := data[1..end];
    if |text| > 1 && text[0] == ZERO {
      return Err(InvalidFormat);
    }
    if text == [MINUS, ZERO] {
      return Err(InvalidFormat);
    }
    match ParseInt(text) {
      case None => return Err(InvalidFormat);
      case Some(n) => return Ok((n, data[end + 1..]));
    }
  }

  method RunDecodeValue(data: ByteString) returns (r: Parse<Value>)
    ensures r == DecodeValue(data)
    decreases |data|, 1
  {
    if |data| == 0 {
      return Err(UnexpectedEnd);
    }
    if data[0] == LETTER_I {
      var n := RunDecodeInt(data);
      return match n case Ok((n, rest)) => Ok((Int(n), rest)) case Err(e) => Err(e);
    } else if data[0] == LETTER_L {
      r := RunDecodeList(data);
    } else if data[0] == LETTER_D {
      r := RunDecodeDict(data);
    } else if IsDigit(data[0]) {
      var s := RunDecodeString(data);
      return match s case Ok((s, rest)) => Ok((String(s), rest)) case Err(e) => Err(e);
    } else {
      return Err(InvalidFormat);
    }
  }

  method RunDecodeList(data: ByteString) returns (r: Parse<Value>)
    requires data != [] && data[0] == LETTER_L
    ensures r == DecodeValue(data)
    decreases |data|, 0
  {
    var left := data[1..];
    var items: seq<Value> := [];
    PrependNothing(DecodeItems(left));
    while true
      invariant |left| < |data|
      invariant Prepend(items, DecodeItems(left)) == DecodeItems(data[1..])
      decreases |left|
    {
      if |left| == 0 {
        return Err(UnexpectedEnd);
      }
      if left[0] == LETTER_E {
        assert items + [] == items;
        return Ok((List(items), left[1..]));
      }
      var v := RunDecodeValue(left);
      if v.Err? {
        return Err(v.error);
      }
      var (item, rest) := v.value;
      PrependTwice(items, item, DecodeItems(rest));
      items := items + [item];
      left := rest;
    }
  }

  method RunDecodeDict(data: ByteString) returns (r: Parse<Value>)
    requires data != [] && data[0] == LETTER_D
    ensures r == DecodeValue(data)
    decreases |data|, 0
  {
    var left := data[1..];
    var entries: map<ByteString, Value> := map[];
    var prev: Option<ByteString> := None;
    ExtendNothing(DecodeEntries(left, None));
    while true
      invariant |left| < |data|
      invariant Extend(entries, DecodeEntries(left, prev)) == DecodeEntries(data[1..], None)
      decreases |left|
    {
      if |left| == 0 {
        return Err(UnexpectedEnd);
      }
      if left[0] == LETTER_E {
        assert entries + map[] == entries;
        return Ok((Dict(entries), left[1..]));
      }
      var k := RunDecodeString(left);
      if k.Err? {
        return Err(k.error);
      }
      var (key, rest) := k.value;
      if prev.Some? && !ByteOrder.Less(prev.value, key) {
        return Err(InvalidFormat);
      }
      var v := RunDecodeValue(rest);
      if v.Err? {
        return Err(v.error);
      }
      var (value, rest') := v.value;
      ExtendTwice(entries, key, value, DecodeEntries(rest', Some(key)));
      prev := Some(key);
      entries := entries[key := value];
      left := rest';
    }
  }
}
