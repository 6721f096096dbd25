/** Laws of the codec: decoding inverts encoding before any suffix; encoding is
    injective and prefix-free; re-encoding what was decoded gives the shortest
    spelling, and gives the input back exactly when every number in it was
    already spelled that way. */
module BencodeLaws {
  import opened Bytes
  import opened Decimal
  import opened ByteOrder
  import opened Bencode

  // ---- Round trip ----

  lemma StringRoundTrip(s: ByteString, r: ByteString)
    requires |s| <= INT64_MAX
    ensures DecodeString(EncodeString(s) + r) == Ok((s, r))
  {
    var n := Digits(|s|);
    var data := EncodeString(s) + r;
    assert data[..|n|] == n && data[|n|] == COLON;
    DigitRunIs(data, |n|);
    FormatParses(|s|);
    assert data[|n| + 1..|n| + 1 + |s|] == s;
    assert data[|n| + 1 + |s|..] == r;
  }

  lemma FormatIntBytes(n: int)
    ensures !BadIntegerText(FormatInt(n))
    ensures forall i :: 0 <= i < |FormatInt(n)| ==> FormatInt(n)[i] != LETTER_E
  {
    NoLeadingZero(if n < 0 then -n else n);
    assert n < 0 ==> FormatInt(n)[1..] == Digits(-n);
  }

  lemma FindEndIs(data: ByteString, i: nat, r: nat)
    requires i <= r < |data| && data[r] == LETTER_E
    requires forall k :: i <= k < r ==> data[k] != LETTER_E
    ensures FindEnd(data, i) == r
  {
  }

  lemma IntRoundTrip(n: int, r: ByteString)
    requires IsInt64(n)
    ensures DecodeInt(EncodeInt(n) + r) == Ok((n, r))
  {
    var text := FormatInt(n);
    var data := EncodeInt(n) + r;
    FormatIntBytes(n);
    assert forall k :: 1 <= k < 1 + |text| ==> data[k] == text[k - 1];
    FindEndIs(data, 1, 1 + |text|);
    assert data[1..1 + |text|] == text;
    FormatParses(n);
    assert data[2 + |text|..] == r;
  }

  /** No encoding starts with the end marker. */
  lemma FirstByte(v: Value)
    ensures Encode(v) != [] && Encode(v)[0] != LETTER_E
  {
  }

  ghost function Submap(v: Value, keys: seq<ByteString>): map<ByteString, Value>
    requires v.Dict? && forall k :: k in keys ==> k in v.entries
  {
    map k | k in keys :: v.entries[k]
  }

  lemma EncodedBody(letter: Byte, body: ByteString, r: ByteString)
    ensures var data := [letter] + body + [LETTER_E] + r;
            data != [] && data[0] == letter && data[1..] == body + ([LETTER_E] + r)
  {
  }

  lemma ListFromItems(xs: seq<Value>, r: ByteString)
    requires DecodeItems(EncodeItems(xs) + ([LETTER_E] + r)) == Ok((xs, r))
    ensures DecodeValue(Encode(List(xs)) + r) == Ok((List(xs), r))
  {
    EncodedBody(LETTER_L, EncodeItems(xs), r);
  }

  lemma DictFromEntries(v: Value, r: ByteString)
    requires v.Dict?
    requires DecodeEntries(EncodeEntries(v, Sorted(v.entries.Keys)) + ([LETTER_E] + r), None) == Ok((v.entries, r))
    ensures DecodeValue(Encode(v) + r) == Ok((v, r))
  {
    EncodedBody(LETTER_D, EncodeEntries(v, Sorted(v.entries.Keys)), r);
  }

  /** One step of the list loop. */
  lemma ItemStep(data: ByteString, v: Value, rest: ByteString)
    requires data != [] && data[0] != LETTER_E && DecodeValue(data) == Ok((v, rest))
    ensures DecodeItems(data) == Prepend([v], DecodeItems(rest))
  {
  }

  /** One step of the dictionary loop. */
  lemma EntryStep(data: ByteString, prev: Option<ByteString>, key: ByteString, rest: ByteString, v: Value,
                  rest': ByteString)
    requires data != [] && data[0] != LETTER_E && DecodeString(data) == Ok((key, rest))
    requires !OutOfOrder(prev, key) && DecodeValue(rest) == Ok((v, rest'))
    ensures DecodeEntries(data, prev) == Extend(map[key := v], DecodeEntries(rest', Some(key)))
  {
  }

  /** Decoding an encoded value gives exactly that value and leaves exactly what
      followed it. */
  lemma {:induction false} RoundTrip(v: Value, r: ByteString)
    requires Representable(v)
    ensures DecodeValue(Encode(v) + r) == Ok((v, r))
    decreases v, 1
  {
    match v
    case String(s) =>
      StringRoundTrip(s, r);
    case Int(n) =>
      IntRoundTrip(n, r);
    case List(xs) =>
      ItemsRoundTrip(xs, r);
      ListFromItems(xs, r);
    case Dict(m) =>
      SortedAscends(m.Keys);
      EntriesRoundTrip(v, Sorted(m.Keys), None, r);
      assert Submap(v, Sorted(m.Keys)) == m;
      DictFromEntries(v, r);
  }

  lemma {:induction false} ItemsRoundTrip(xs: seq<Value>, r: ByteString)
    requires forall i :: 0 <= i < |xs| ==> Representable(xs[i])
    ensures DecodeItems(EncodeItems(xs) + ([LETTER_E] + r)) == Ok((xs, r))
    decreases xs
  {
    var data := EncodeItems(xs) + ([LETTER_E] + r);
    if xs == [] {
      assert data == [LETTER_E] + r;
    } else {
      var tail := EncodeItems(xs[1..]) + ([LETTER_E] + r);
      assert data == Encode(xs[0]) + tail;
      FirstByte(xs[0]);
      RoundTrip(xs[0], tail);
      ItemsRoundTrip(xs[1..], r);
      ItemStep(data, xs[0], tail);
      assert [xs[0]] + xs[1..] == xs;
    }
  }

  lemma SubmapFirst(v: Value, keys: seq<ByteString>)
    requires v.Dict? && keys != [] && forall k :: k in keys ==> k in v.entries
    ensures forall k :: k in keys[1..] ==> k in v.entries
    ensures Submap(v, keys) == map[keys[0] := v.entries[keys[0]]] + Submap(v, keys[1..])
  {
    assert keys == [keys[0]] + keys[1..];
  }

  lemma EntriesSplit(v: Value, keys: seq<ByteString>, end: ByteString)
    requires v.Dict? && keys != [] && forall k :: k in keys ==> k in v.entries
    ensures var k := keys[0];
            EncodeEntries(v, keys) + end ==
            EncodeString(k) + (Encode(v.entries[k]) + (EncodeEntries(v, keys[1..]) + end))
    ensures (EncodeEntries(v, keys) + end)[0] != LETTER_E
  {
    var k := keys[0];
    var all := EncodeString(k) + (Encode(v.entries[k]) + (EncodeEntries(v, keys[1..]) + end));
    assert EncodeEntries(v, keys) + end == all;
    assert all[0] == Digits(|k|)[0];
  }

  lemma {:induction false} EntriesRoundTrip(v: Value, keys: seq<ByteString>, prev: Option<ByteString>, r: ByteString)
    requires v.Dict? && Representable(v) && forall k :: k in keys ==> k in v.entries
    requires Ascending(keys) && (prev.Some? ==> forall k :: k in keys ==> Less(prev.value, k))
    ensures DecodeEntries(EncodeEntries(v, keys) + ([LETTER_E] + r), prev) == Ok((Submap(v, keys), r))
    decreases v, 0, |keys|
  {
    if keys == [] {
      assert EncodeEntries(v, keys) + ([LETTER_E] + r) == [LETTER_E] + r;
    } else {
      var k := keys[0];
      var tail := EncodeEntries(v, keys[1..]) + ([LETTER_E] + r);
      EntriesSplit(v, keys, [LETTER_E] + r);
      StringRoundTrip(k, Encode(v.entries[k]) + tail);
      RoundTrip(v.entries[k], tail);
      EntriesRoundTrip(v, keys[1..], Some(k), r);
      EntryStep(EncodeEntries(v, keys) + ([LETTER_E] + r), prev, k, Encode(v.entries[k]) + tail, v.entries[k], tail);
      SubmapFirst(v, keys);
    }
  }

  /** No encoding is a prefix of another, and equal encodings are of equal values. */
  lemma EncodingPrefixFree(v: Value, w: Value, r: ByteString, q: ByteString)
    requires Representable(v) && Representable(w)
    requires Encode(v) + r == Encode(w) + q
    ensures v == w && r == q
  {
    RoundTrip(v, r);
    RoundTrip(w, q);
  }

  lemma EncodingInjective(v: Value, w: Value)
    requires Representable(v) && Representable(w)
    ensures Encode(v) == Encode(w) <==> v == w
  {
    if Encode(v) == Encode(w) {
      EncodingPrefixFree(v, w, [], []);
    }
  }

  // ---- Re-encoding ----

  /** The bytes a parse consumed. */
  function Taken(data: ByteString, rest: ByteString): ByteString
    requires SuffixOf(rest, data)
  {
    data[..|data| - |rest|]
  }

  /** The number in front of a string is in its shortest spelling. */
  predicate PlainString(data: ByteString) {
    DecodeString(data).Ok? && data[..DigitRun(data, 0)] == Digits(|DecodeString(data).value.0|)
  }

  predicate PlainInt(data: ByteString) {
    DecodeInt(data).Ok? && data[1..FindEnd(data, 1)] == FormatInt(DecodeInt(data).value.0)
  }

  /** Every number in the value at the front of `data` is in its shortest
      spelling. */
  predicate Plain(data: ByteString)
    requires DecodeValue(data).Ok?
    decreases |data|, 0
  {
    if data[0] == LETTER_I then PlainInt(data)
    else if data[0] == LETTER_L then PlainItems(data[1..])
    else if data[0] == LETTER_D then PlainEntries(data[1..], None)
    else PlainString(data)
  }

  predicate PlainItems(data: ByteString)
    requires DecodeItems(data).Ok?
    decreases |data|, 1
  {
    data[0] == LETTER_E || (Plain(data) && PlainItems(DecodeValue(data).value.1))
  }

  predicate PlainEntries(data: ByteString, prev: Option<ByteString>)
    requires DecodeEntries(data, prev).Ok?
    decreases |data|, 1
  {
    || data[0] == LETTER_E
    || (var (key, rest) := DecodeString(data).value;
        PlainString(data) && Plain(rest) && PlainEntries(DecodeValue(rest).value.1, Some(key)))
  }

  /** `out` re-spells `taken`: the same bytes when `plain`, strictly fewer
      otherwise. */
  predicate Respells(out: ByteString, taken: ByteString, plain: bool) {
    if plain then out == taken else |out| < |taken|
  }

  lemma StringRespells(data: ByteString)
    requires DecodeString(data).Ok?
    ensures var (s, rest) := DecodeString(data).value;
            |s| <= INT64_MAX && Respells(EncodeString(s), Taken(data, rest), PlainString(data))
  {
    var (s, rest) := DecodeString(data).value;
    var colon := DigitRun(data, 0);
    var text := data[..colon];
    assert data[0..colon] == text;
    UnsignedParse(text);
    FormatShortest(text);
    assert Taken(data, rest) == text + [COLON] + s;
  }

  lemma IntRespells(data: ByteString)
    requires DecodeInt(data).Ok? && data[0] == LETTER_I
    ensures var (n, rest) := DecodeInt(data).value;
            Respells(EncodeInt(n), Taken(data, rest), PlainInt(data))
  {
    var (n, rest) := DecodeInt(data).value;
    var end := FindEnd(data, 1);
    FormatShortest(data[1..end]);
    assert Taken(data, rest) == [LETTER_I] + data[1..end] + [LETTER_E];
  }

  lemma RespellsJoin(a: ByteString, a': ByteString, p: bool, b: ByteString, b': ByteString, q: bool)
    requires Respells(a, a', p) && Respells(b, b', q)
    ensures Respells(a + b, a' + b', p && q)
  {
  }

  lemma RespellsBracket(letter: Byte, out: ByteString, data: ByteString, rest: ByteString, p: bool)
    requires data != [] && data[0] == letter && SuffixOf(rest, data[1..])
    requires Respells(out, Taken(data[1..], rest), p)
    ensures SuffixOf(rest, data) && Respells([letter] + out, Taken(data, rest), p)
  {
    assert Taken(data, rest) == [letter] + Taken(data[1..], rest);
  }

  lemma TakenTwice(data: ByteString, mid: ByteString, rest: ByteString)
    requires SuffixOf(mid, data) && SuffixOf(rest, mid)
    ensures SuffixOf(rest, data) && Taken(data, rest) == Taken(data, mid) + Taken(mid, rest)
  {
  }

  /** What is decoded can be held by the program's types, and re-encoding it
      gives the consumed bytes when they were plain and fewer bytes otherwise. */
  lemma {:induction false} ValueRespells(data: ByteString)
    requires DecodeValue(data).Ok?
    ensures var (v, rest) := DecodeValue(data).value;
            Representable(v) && Respells(Encode(v), Taken(data, rest), Plain(data))
    decreases |data|, 0
  {
    if data[0] == LETTER_I {
      IntRespells(data);
    } else if data[0] == LETTER_L {
      ItemsRespell(data[1..]);
      ListRespells(data);
    } else if data[0] == LETTER_D {
      EntriesRespell(data[1..], None);
      DictRespells(data);
    } else {
      StringRespells(data);
    }
  }

  lemma ListRespells(data: ByteString)
    requires data != [] && data[0] == LETTER_L && DecodeItems(data[1..]).Ok?
    requires var (xs, rest) := DecodeItems(data[1..]).value;
             Respells(EncodeItems(xs) + [LETTER_E], Taken(data[1..], rest), PlainItems(data[1..]))
    ensures var (v, rest) := DecodeValue(data).value;
            Respells(Encode(v), Taken(data, rest), Plain(data))
  {
    var (xs, rest) := DecodeItems(data[1..]).value;
    RespellsBracket(LETTER_L, EncodeItems(xs) + [LETTER_E], data, rest, PlainItems(data[1..]));
    assert Encode(List(xs)) == [LETTER_L] + (EncodeItems(xs) + [LETTER_E]);
  }

  lemma DictRespells(data: ByteString)
    requires data != [] && data[0] == LETTER_D && DecodeEntries(data[1..], None).Ok?
    requires var (m, rest) := DecodeEntries(data[1..], None).value;
             Respells(EncodeEntries(Dict(m), Sorted(m.Keys)) + [LETTER_E], Taken(data[1..], rest),
                      PlainEntries(data[1..], None))
    ensures var (v, rest) := DecodeValue(data).value;
            Respells(Encode(v), Taken(data, rest), Plain(data))
  {
    var (m, rest) := DecodeEntries(data[1..], None).value;
    var body := EncodeEntries(Dict(m), Sorted(m.Keys)) + [LETTER_E];
    RespellsBracket(LETTER_D, body, data, rest, PlainEntries(data[1..], None));
    assert Encode(Dict(m)) == [LETTER_D] + body;
  }

  lemma EncodeItemsFirst(v: Value, vs: seq<Value>)
    ensures EncodeItems([v] + vs) + [LETTER_E] == Encode(v) + (EncodeItems(vs) + [LETTER_E])
  {
    assert ([v] + vs)[1..] == vs;
  }

  lemma {:induction false} ItemsRespell(data: ByteString)
    requires DecodeItems(data).Ok?
    ensures var (xs, rest) := DecodeItems(data).value;
            && Representable(List(xs))
            && Respells(EncodeItems(xs) + [LETTER_E], Taken(data, rest), PlainItems(data))
    decreases |data|, 1
  {
    var (xs, rest) := DecodeItems(data).value;
    if data[0] == LETTER_E {
      assert Taken(data, rest) == [LETTER_E];
    } else {
      var (v, rest') := DecodeValue(data).value;
      ValueRespells(data);
      ItemsRespell(rest');
      var vs := DecodeItems(rest').value.0;
      assert Representable(List(vs));
      assert xs == [v] + vs;
      EncodeItemsFirst(v, vs);
      TakenTwice(data, rest', rest);
      RespellsJoin(Encode(v), Taken(data, rest'), Plain(data),
                   EncodeItems(vs) + [LETTER_E], Taken(rest', rest), PlainItems(rest'));
    }
  }

  lemma {:induction false} EncodeEntriesAgree(v: Value, w: Value, keys: seq<ByteString>)
    requires v.Dict? && w.Dict?
    requires forall k :: k in keys ==> k in v.entries && k in w.entries && v.entries[k] == w.entries[k]
    ensures EncodeEntries(v, keys) == EncodeEntries(w, keys)
  {
    if keys != [] {
      EncodeEntriesAgree(v, w, keys[1..]);
    }
  }

  /** Putting a first entry in front of later ones. */
  lemma EncodeFirstEntry(key: ByteString, x: Value, m: map<ByteString, Value>)
    requires forall k :: k in m ==> Less(key, k)
    ensures var m' := map[key := x] + m;
            EncodeEntries(Dict(m'), Sorted(m'.Keys)) ==
            EncodeString(key) + Encode(x) + EncodeEntries(Dict(m), Sorted(m.Keys))
  {
    var m' := map[key := x] + m;
    LessIrreflexive(key);
    assert m'.Keys == {key} + m.Keys;
    SortedFirst(key, m.Keys);
    assert Sorted(m'.Keys)[1..] == Sorted(m.Keys);
    EncodeEntriesAgree(Dict(m'), Dict(m), Sorted(m.Keys));
  }

  /** Decoded keys all come after the key before them. */
  lemma {:induction false} EntriesAfter(data: ByteString, prev: Option<ByteString>)
    requires DecodeEntries(data, prev).Ok? && prev.Some?
    ensures forall k :: k in DecodeEntries(data, prev).value.0 ==> Less(prev.value, k)
    decreases |data|
  {
    if data[0] != LETTER_E {
      var (key, rest) := DecodeString(data).value;
      var (v, rest') := DecodeValue(rest).value;
      EntriesAfter(rest', Some(key));
      forall k | k in DecodeEntries(data, prev).value.0
        ensures Less(prev.value, k)
      {
        if k != key {
          LessTransitive(prev.value, key, k);
        }
      }
    }
  }

  lemma RespellsThree(a: ByteString, a': ByteString, p: bool, b: ByteString, b': ByteString, q: bool,
                      c: ByteString, end: ByteString, c': ByteString, r: bool)
    requires Respells(a, a', p) && Respells(b, b', q) && Respells(c + end, c', r)
    ensures Respells(a + b + c + end, a' + b' + c', p && q && r)
  {
    assert a + b + c + end == a + b + (c + end);
  }

  /** One entry in front of entries that are already known to re-spell. */
  lemma EntryRespells(data: ByteString, prev: Option<ByteString>)
    requires DecodeEntries(data, prev).Ok? && data[0] != LETTER_E
    requires var (key, rest1) := DecodeString(data).value;
             var (v, rest2) := DecodeValue(rest1).value;
             var (m, rest) := DecodeEntries(rest2, Some(key)).value;
             && Respells(Encode(v), Taken(rest1, rest2), Plain(rest1))
             && Respells(EncodeEntries(Dict(m), Sorted(m.Keys)) + [LETTER_E], Taken(rest2, rest),
                         PlainEntries(rest2, Some(key)))
    ensures var (m, rest) := DecodeEntries(data, prev).value;
            Respells(EncodeEntries(Dict(m), Sorted(m.Keys)) + [LETTER_E], Taken(data, rest), PlainEntries(data, prev))
  {
    var (key, rest1) := DecodeString(data).value;
    var (v, rest2) := DecodeValue(rest1).value;
    var (m, rest) := DecodeEntries(rest2, Some(key)).value;
    StringRespells(data);
    EntriesAfter(rest2, Some(key));
    EncodeFirstEntry(key, v, m);
    RespellsThree(EncodeString(key), Taken(data, rest1), PlainString(data), Encode(v), Taken(rest1, rest2),
                  Plain(rest1), EncodeEntries(Dict(m), Sorted(m.Keys)), [LETTER_E], Taken(rest2, rest),
                  PlainEntries(rest2, Some(key)));
    TakenTwice(data, rest1, rest2);
    TakenTwice(data, rest2, rest);
  }

  lemma {:induction false} EntriesRespell(data: ByteString, prev: Option<ByteString>)
    requires DecodeEntries(data, prev).Ok?
    ensures var (m, rest) := DecodeEntries(data, prev).value;
            && Representable(Dict(m))
            && Respells(EncodeEntries(Dict(m), Sorted(m.Keys)) + [LETTER_E], Taken(data, rest),
                        PlainEntries(data, prev))
    decreases |data|, 1
  {
    var (m, rest) := DecodeEntries(data, prev).value;
    if data[0] == LETTER_E {
      assert Taken(data, rest) == [LETTER_E];
    } else {
      var (key, rest1) := DecodeString(data).value;
      var rest2 := DecodeValue(rest1).value.1;
      StringRespells(data);
      ValueRespells(rest1);
      EntriesRespell(rest2, Some(key));
      EntryRespells(data, prev);
      assert Representable(Dict(DecodeEntries(rest2, Some(key)).value.0));
    }
  }

  /** For any accepted input: the re-encoded value decodes back to itself, is
      never longer than the input, and equals it exactly when the input was
      plain. */
  lemma Reencoding(data: ByteString)
    requires Decode(data).Ok?
    ensures var v := Decode(data).value;
            && Decode(Encode(v)) == Ok(v)
            && |Encode(v)| <= |data|
            && (Encode(v) == data <==> Plain(data))
  {
    var v := Decode(data).value;
    ValueRespells(data);
    assert Taken(data, []) == data;
    RoundTrip(v, []);
    assert Encode(v) + [] == Encode(v);
  }

  /** Accepted spellings that the encoder never produces: "03:abc", "i+5e" and
      "i-03e". */
  lemma NonCanonicalStringAccepted()
    ensures Decode([48, 51, 58, 97, 98, 99]) == Ok(String([97, 98, 99])) && !Plain([48, 51, 58, 97, 98, 99])
  {
    var s: ByteString := [48, 51, 58, 97, 98, 99];
    DigitRunIs(s, 2);
    assert s[..2] == [48, 51] && [48, 51][..1] == [48] && [48][..0] == [];
    assert FromDigits([48]) == 0 && FromDigits([48, 51]) == 3;
    assert s[3..6] == [97, 98, 99];
  }

  lemma NonCanonicalIntAccepted()
    ensures Decode([105, 43, 53, 101]) == Ok(Int(5)) && !Plain([105, 43, 53, 101])
    ensures Decode([105, 45, 48, 51, 101]) == Ok(Int(-3)) && !Plain([105, 45, 48, 51, 101])
  {
    var p: ByteString := [105, 43, 53, 101];
    FindEndIs(p, 1, 3);
    assert p[1..3] == [43, 53] && [43, 53][1..] == [53] && [53][..0] == [];
    assert FromDigits([53]) == 5;
    var n: ByteString := [105, 45, 48, 51, 101];
    FindEndIs(n, 1, 4);
    assert n[1..4] == [45, 48, 51] && [45, 48, 51][1..] == [48, 51];
    assert [48, 51][..1] == [48] && [48][..0] == [];
    assert FromDigits([48]) == 0 && FromDigits([48, 51]) == 3;
  }
}
