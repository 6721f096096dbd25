/** Raw dictionaries by the grammar: the raw form of an entry is exactly the bytes
    that spell its value in the input, and so is what the info-hash is taken of. */
module BencodeRawGrammar {
  import opened Bytes
  import opened Bencode
  import opened BencodeLaws
  import opened BencodeRaw
  import opened BencodeGrammar
  import ByteOrder

  /** The first entry is `t[..i]` for the key and `t[i..j]` for the value. */
  ghost predicate RawCut(t: ByteString, raw: RawEntries, prev: Option<ByteString>, k: ByteString, i: nat, j: nat)
    requires i <= j < |t|
    decreases |t|, 0
  {
    && 0 < i < j && k in raw
    && SpellsString(t[..i], k) && raw[k].raw == t[i..j] && Spells(t[i..j], raw[k].val)
    && (prev.Some? ==> ByteOrder.Precedes(prev.value, k))
    && SpellsRaw(t[j..], raw - {k}, Some(k))
  }

  /** The entries one after the other, then the closing `e`. */
  ghost predicate SpellsRaw(t: ByteString, raw: RawEntries, prev: Option<ByteString>)
    decreases |t|, 1
  {
    if raw == map[] then t == [101]
    else exists k: ByteString, i: nat, j: nat :: i <= j < |t| && RawCut(t, raw, prev, k, i, j)
  }

  lemma FirstRaw(t: ByteString, raw: RawEntries, prev: Option<ByteString>)
    returns (k: ByteString, i: nat, j: nat)
    requires SpellsRaw(t, raw, prev) && raw != map[]
    ensures 0 < i < j < |t| && k in raw && SpellsString(t[..i], k)
    ensures raw[k].raw == t[i..j] && Spells(t[i..j], raw[k].val)
    ensures SpellsRaw(t[j..], raw - {k}, Some(k)) && (prev.Some? ==> ByteOrder.Precedes(prev.value, k))
    ensures t[0] != 101
  {
    k, i, j :| i <= j < |t| && RawCut(t, raw, prev, k, i, j);
    StringAccepted(t[..i], k, []);
    assert t[..i][0] == t[0];
  }

  lemma RawAccepted(data: ByteString, prev: Option<ByteString>, k: ByteString, mid: ByteString, v: Value,
                    last: ByteString, raw: RawEntries)
    requires data != [] && data[0] != 101 && DecodeString(data) == Ok((k, mid)) && !OutOfOrder(prev, k)
    requires DecodeValue(mid) == Ok((v, last)) && DecodeRawEntries(last, Some(k)) == Ok(raw)
    ensures DecodeRawEntries(data, prev) == Ok(map[k := RawValue(v, Taken(mid, last))] + raw)
  {
    RawEntryStep(data, prev, k, mid, v, last);
  }

  lemma PutRawBack(raw: RawEntries, k: ByteString)
    requires k in raw
    ensures map[k := raw[k]] + (raw - {k}) == raw
  {
  }

  lemma TakenIs(a: ByteString, b: ByteString)
    ensures SuffixOf(b, a + b) && Taken(a + b, b) == a
  {
  }

  lemma {:induction false} RawEntriesAccepted(t: ByteString, raw: RawEntries, prev: Option<ByteString>, r: ByteString)
    requires SpellsRaw(t, raw, prev)
    ensures DecodeRawEntries(t + r, prev) == Ok(raw)
    decreases |t|
  {
    if raw != map[] {
      var k, i, j := FirstRaw(t, raw, prev);
      var last := t[j..] + r;
      var mid := t[i..j] + last;
      StringAccepted(t[..i], k, mid);
      ValueAccepted(t[i..j], raw[k].val, last);
      RawEntriesAccepted(t[j..], raw - {k}, Some(k), r);
      InOrder(prev, k);
      CutInThree(t, i, j, r);
      TakenIs(t[i..j], last);
      RawAccepted(t + r, prev, k, mid, raw[k].val, last, raw - {k});
      PutRawBack(raw, k);
    }
  }

  lemma SliceBehind(data: ByteString, rest: ByteString, m: nat)
    requires SuffixOf(rest, data) && m <= |rest|
    ensures data[..|data| - |rest| + m][|data| - |rest|..] == rest[..m]
  {
  }

  lemma CutSlices(data: ByteString, rest1: ByteString, rest2: ByteString, m: nat)
    requires SuffixOf(rest1, data) && SuffixOf(rest2, rest1) && m <= |rest2|
    ensures var i, j := |data| - |rest1|, |data| - |rest2|;
            var t := data[..j + m];
            t[..i] == Taken(data, rest1) && t[i..j] == Taken(rest1, rest2) && t[j..] == rest2[..m]
  {
    var i, j := |data| - |rest1|, |data| - |rest2|;
    var t := data[..j + m];
    TakenSplits(data, rest1, rest2);
    assert t[..j] == Taken(data, rest2);
    assert t[..i] == t[..j][..i] && t[i..j] == t[..j][i..];
    SliceBehind(data, rest2, m);
  }

  lemma RawIsCut(data: ByteString, prev: Option<ByteString>, f: First, m: nat, raw: RawEntries) returns (n: nat)
    requires StartsWith(data, prev, f) && 0 < m <= |f.rest2|
    requires SpellsRaw(f.rest2[..m], f.more, Some(f.key)) && raw == map[f.key := f.r] + f.more
    ensures 0 < n <= |data| && SpellsRaw(data[..n], raw, prev)
  {
    var i, j := |data| - |f.rest1|, |data| - |f.rest2|;
    n := j + m;
    CutSlices(data, f.rest1, f.rest2, m);
    assert raw - {f.key} == f.more && raw[f.key] == f.r;
    assert RawCut(data[..n], raw, prev, f.key, i, j);
  }

  lemma KeyNotRepeated(data: ByteString, key: ByteString)
    requires DecodeRawEntries(data, Some(key)).Ok?
    ensures key !in DecodeRawEntries(data, Some(key)).value
  {
    RawMirrors(data, Some(key));
    if DecodeEntries(data, Some(key)).Ok? {
      EntriesAfter(data, Some(key));
      ByteOrder.LessIrreflexive(key);
    }
  }

  lemma EntrySpelled(data: ByteString, prev: Option<ByteString>, key: ByteString, rest1: ByteString, v: Value,
                     rest2: ByteString)
    requires DecodeString(data) == Ok((key, rest1)) && DecodeValue(rest1) == Ok((v, rest2)) && !OutOfOrder(prev, key)
    ensures SuffixOf(rest1, data) && SpellsString(Taken(data, rest1), key)
    ensures SuffixOf(rest2, rest1) && Spells(Taken(rest1, rest2), v)
    ensures prev.Some? ==> ByteOrder.Precedes(prev.value, key)
  {
    StringSpelled(data);
    ValueSpelled(rest1);
    InOrder(prev, key);
  }

  lemma NoMoreRaw(data: ByteString, prev: Option<ByteString>)
    requires data != [] && data[0] == 101
    ensures DecodeRawEntries(data, prev) == Ok(map[]) && SpellsRaw(data[..1], map[], prev)
  {
    assert data[..1] == [101];
  }

  /** The first entry of a text: its key, what follows the key, its value, what
      follows that, and the entries there. */
  datatype First = First(key: ByteString, rest1: ByteString, r: RawValue, rest2: ByteString, more: RawEntries)

  ghost predicate StartsWith(data: ByteString, prev: Option<ByteString>, f: First) {
    && SuffixOf(f.rest1, data) && SuffixOf(f.rest2, f.rest1) && |f.rest2| < |f.rest1| < |data|
    && SpellsString(Taken(data, f.rest1), f.key) && Spells(Taken(f.rest1, f.rest2), f.r.val)
    && f.r.raw == Taken(f.rest1, f.rest2) && (prev.Some? ==> ByteOrder.Precedes(prev.value, f.key))
    && f.key !in f.more
  }

  /** The first entry of a text that is accepted, with its spellings. */
  lemma FirstSpelled(data: ByteString, prev: Option<ByteString>, raw: RawEntries) returns (f: First)
    requires DecodeRawEntries(data, prev) == Ok(raw) && data[0] != 101
    ensures StartsWith(data, prev, f)
    ensures DecodeRawEntries(f.rest2, Some(f.key)) == Ok(f.more) && raw == map[f.key := f.r] + f.more
  {
    var (key, rest1) := DecodeString(data).value;
    var (v, rest2) := DecodeValue(rest1).value;
    RawEntryStep(data, prev, key, rest1, v, rest2);
    f := First(key, rest1, RawValue(v, Taken(rest1, rest2)), rest2, DecodeRawEntries(rest2, Some(key)).value);
    EntrySpelled(data, prev, key, rest1, v, rest2);
    KeyNotRepeated(rest2, key);
  }

  lemma {:induction false} RawSpelled(data: ByteString, prev: Option<ByteString>, raw: RawEntries) returns (n: nat)
    requires DecodeRawEntries(data, prev) == Ok(raw)
    ensures 0 < n <= |data| && SpellsRaw(data[..n], raw, prev)
    decreases |data|, 1
  {
    if data[0] == 101 {
      n := 1;
      NoMoreRaw(data, prev);
    } else {
      n := MoreRawSpelled(data, prev, raw);
    }
  }

  lemma {:induction false} MoreRawSpelled(data: ByteString, prev: Option<ByteString>, raw: RawEntries) returns (n: nat)
    requires DecodeRawEntries(data, prev) == Ok(raw) && data[0] != 101
    ensures 0 < n <= |data| && SpellsRaw(data[..n], raw, prev)
    decreases |data|, 0
  {
    var f := FirstSpelled(data, prev, raw);
    var m := RawSpelled(f.rest2, Some(f.key), f.more);
    n := RawIsCut(data, prev, f, m, raw);
  }

  /** The raw decoder succeeds exactly on texts that begin with a dictionary, and
      gives each value with the bytes that spell it there. */
  lemma DictRawIffSpelled(data: ByteString, raw: RawEntries)
    ensures DecodeDictRaw(data) == Ok(raw) <==>
            data != [] && data[0] == 100 && exists n: nat :: 1 <= n <= |data| && SpellsRaw(data[1..n], raw, None)
  {
    if DecodeDictRaw(data) == Ok(raw) {
      DictRawIs(data);
      var n := RawSpelled(data[1..], None, raw);
      assert data[1..][..n] == data[1..n + 1];
    } else if data != [] && data[0] == 100 {
      if n: nat :| 1 <= n <= |data| && SpellsRaw(data[1..n], raw, None) {
        DictRawAccepted(data, raw, n);
        assert false;
      }
    }
  }

  lemma DictRawAccepted(data: ByteString, raw: RawEntries, n: nat)
    requires 1 <= n <= |data| && data[0] == 100 && SpellsRaw(data[1..n], raw, None)
    ensures DecodeDictRaw(data) == Ok(raw)
  {
    RawEntriesAccepted(data[1..n], raw, None, data[n..]);
    SlicesJoin(data, n);
    DictRawIs(data);
  }

  lemma SlicesJoin(data: ByteString, n: nat)
    requires 1 <= n <= |data|
    ensures data[1..n] + data[n..] == data[1..]
  {
  }

  /** The info-hash of a torrent file is the hash of the bytes in it that spell the
      value of the key `info`. */
  lemma InfoHashIsOfSlice(hash: HashFunction, data: ByteString, raw: RawEntries, n: nat)
    requires 1 <= n <= |data| && data[0] == 100 && SpellsRaw(data[1..n], raw, None)
    ensures InfoHash(hash, data) ==
            if [105, 110, 102, 111] in raw then Some(hash(raw[[105, 110, 102, 111]].raw)) else None
  {
    DictRawAccepted(data, raw, n);
  }
}
