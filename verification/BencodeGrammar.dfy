/** The bencode language as a grammar, on the bytes themselves and without the
    parser: which texts spell which value. The decoder accepts exactly the
    spellings, so nothing about it is left to its own definition. */
module BencodeGrammar {
  import opened Bytes
  import opened Bencode
  import opened BencodeLaws
  import Decimal
  import ByteOrder

  // ---- Values ----

  /** `<length>:<bytes>`, the colon at `n`. */
  ghost predicate StringSplit(t: ByteString, s: ByteString, n: nat) {
    && n < |t| && t[n] == 58 && Decimal.Numeral(t[..n])
    && Decimal.Worth(t[..n]) == |s| <= 0x7FFF_FFFF_FFFF_FFFF && t[n + 1..] == s
  }

  ghost predicate SpellsString(t: ByteString, s: ByteString) {
    exists n: nat :: StringSplit(t, s, n)
  }

  /** `i<number>e`, with no leading zero and no `-0`. */
  ghost predicate SpellsInt(t: ByteString, n: int) {
    && |t| >= 3 && t[0] == 105 && t[|t| - 1] == 101
    && var text := t[1..|t| - 1];
       Decimal.SpellsNumber(text, n) && !(text[0] == 48 && |text| > 1) && text != [45, 48]
  }

  /** Lists are `l<items>e` and dictionaries `d<entries>e`. */
  ghost predicate Spells(t: ByteString, v: Value)
    decreases |t|
  {
    match v
    case String(s) => SpellsString(t, s)
    case Int(n) => SpellsInt(t, n)
    case List(xs) => t != [] && t[0] == 108 && SpellsItems(t[1..], xs)
    case Dict(m) => t != [] && t[0] == 100 && SpellsEntries(t[1..], m, None)
  }

  /** The items one after the other, then the closing `e`. */
  ghost predicate SpellsItems(t: ByteString, xs: seq<Value>)
    decreases |t|, 1
  {
    if xs == [] then t == [101] else exists i: nat :: i < |t| && ItemCut(t, xs, i)
  }

  ghost predicate ItemCut(t: ByteString, xs: seq<Value>, i: nat)
    requires xs != [] && i < |t|
    decreases |t|, 0
  {
    0 < i && Spells(t[..i], xs[0]) && SpellsItems(t[i..], xs[1..])
  }

  /** The first entry is `t[..i]` for the key and `t[i..j]` for the value; the keys
      come in strictly ascending order. */
  ghost predicate EntryCut(t: ByteString, m: map<ByteString, Value>, prev: Option<ByteString>, k: ByteString, i: nat,
                           j: nat)
    requires i <= j < |t|
    decreases |t|, 0
  {
    && 0 < i < j && k in m
    && SpellsString(t[..i], k) && Spells(t[i..j], m[k])
    && (prev.Some? ==> ByteOrder.Precedes(prev.value, k))
    && SpellsEntries(t[j..], m - {k}, Some(k))
  }

  ghost predicate SpellsEntries(t: ByteString, m: map<ByteString, Value>, prev: Option<ByteString>)
    decreases |t|, 1
  {
    if m == map[] then t == [101]
    else exists k: ByteString, i: nat, j: nat :: i <= j < |t| && EntryCut(t, m, prev, k, i, j)
  }

  // ---- Every spelling is accepted ----

  lemma StringAccepted(t: ByteString, s: ByteString, r: ByteString)
    requires SpellsString(t, s)
    ensures t != [] && 48 <= t[0] <= 57
    ensures DecodeString(t + r) == Ok((s, r))
  {
    var n: nat :| StringSplit(t, s, n);
    var data := t + r;
    assert data[..n] == t[..n];
    Decimal.NumeralIsDigits(t[..n]);
    Decimal.WorthIsParsed(t[..n]);
    assert t[..n][0] == t[0];
    Decimal.DigitRunIs(data, n);
    assert data[n + 1..n + 1 + |s|] == s && data[n + 1 + |s|..] == r;
  }

  lemma IntAccepted(t: ByteString, n: int, r: ByteString)
    requires SpellsInt(t, n)
    ensures DecodeInt(t + r) == Ok((n, r))
  {
    var data, end := t + r, |t| - 1;
    var text := t[1..end];
    assert data[1..end] == text && data[end + 1..] == r;
    Decimal.ParsedIffSpelled(text, n);
    forall k | 1 <= k < end
      ensures data[k] != LETTER_E
    {
      assert data[k] == text[k - 1];
      assert k > 1 ==> text[k - 1] == text[1..][k - 2];
    }
    FindEndIs(data, 1, end);
  }

  lemma CutInTwo(t: ByteString, i: nat, r: ByteString)
    requires i <= |t|
    ensures t + r == t[..i] + (t[i..] + r)
  {
  }

  lemma CutInThree(t: ByteString, i: nat, j: nat, r: ByteString)
    requires i <= j <= |t|
    ensures t + r == t[..i] + (t[i..j] + (t[j..] + r))
  {
    CutInTwo(t, i, r);
    CutInTwo(t[i..], j - i, r);
  }

  lemma ItemAccepted(data: ByteString, v: Value, mid: ByteString, xs: seq<Value>, r: ByteString)
    requires data != [] && data[0] != 101 && DecodeValue(data) == Ok((v, mid)) && DecodeItems(mid) == Ok((xs, r))
    ensures DecodeItems(data) == Ok(([v] + xs, r))
  {
    ItemStep(data, v, mid);
  }

  lemma {:induction false} ItemsAccepted(t: ByteString, xs: seq<Value>, r: ByteString)
    requires SpellsItems(t, xs)
    ensures DecodeItems(t + r) == Ok((xs, r))
    decreases |t|, 1
  {
    if xs == [] {
      assert (t + r)[1..] == r;
    } else {
      var i: nat :| i < |t| && ItemCut(t, xs, i);
      ValueAccepted(t[..i], xs[0], t[i..] + r);
      ItemsAccepted(t[i..], xs[1..], r);
      SpellingStarts(t[..i], xs[0]);
      CutInTwo(t, i, r);
      ItemAccepted(t + r, xs[0], t[i..] + r, xs[1..], r);
      assert [xs[0]] + xs[1..] == xs;
    }
  }

  /** A spelling of a value does not start with the closing `e`. */
  lemma SpellingStarts(t: ByteString, v: Value)
    requires Spells(t, v)
    ensures t != [] && t[0] != 101
  {
    match v
    case String(s) => StringAccepted(t, s, []);
    case _ =>
  }

  lemma EntryAccepted(data: ByteString, prev: Option<ByteString>, k: ByteString, mid: ByteString, v: Value,
                      last: ByteString, m: map<ByteString, Value>, r: ByteString)
    requires data != [] && data[0] != 101 && DecodeString(data) == Ok((k, mid)) && !OutOfOrder(prev, k)
    requires DecodeValue(mid) == Ok((v, last)) && DecodeEntries(last, Some(k)) == Ok((m, r))
    ensures DecodeEntries(data, prev) == Ok((map[k := v] + m, r))
  {
    EntryStep(data, prev, k, mid, v, last);
  }

  lemma InOrder(prev: Option<ByteString>, k: ByteString)
    ensures OutOfOrder(prev, k) <==> prev.Some? && !ByteOrder.Precedes(prev.value, k)
  {
    if prev.Some? {
      ByteOrder.LessIsPrecedes(prev.value, k);
    }
  }

  lemma {:induction false} EntriesAccepted(t: ByteString, m: map<ByteString, Value>, prev: Option<ByteString>,
                                           r: ByteString)
    requires SpellsEntries(t, m, prev)
    ensures DecodeEntries(t + r, prev) == Ok((m, r))
    decreases |t|, 1
  {
    if m == map[] {
      assert (t + r)[1..] == r;
    } else {
      var k, i, j := FirstEntry(t, m, prev);
      var mid, last := t[i..j] + (t[j..] + r), t[j..] + r;
      StringAccepted(t[..i], k, mid);
      ValueAccepted(t[i..j], m[k], last);
      EntriesAccepted(t[j..], m - {k}, Some(k), r);
      InOrder(prev, k);
      CutInThree(t, i, j, r);
      EntryAccepted(t + r, prev, k, mid, m[k], last, m - {k}, r);
      PutBack(m, k);
    }
  }

  lemma PutBack(m: map<ByteString, Value>, k: ByteString)
    requires k in m
    ensures map[k := m[k]] + (m - {k}) == m
  {
  }

  lemma FirstEntry(t: ByteString, m: map<ByteString, Value>, prev: Option<ByteString>)
    returns (k: ByteString, i: nat, j: nat)
    requires SpellsEntries(t, m, prev) && m != map[]
    ensures 0 < i < j < |t| && k in m && SpellsString(t[..i], k) && Spells(t[i..j], m[k])
    ensures SpellsEntries(t[j..], m - {k}, Some(k)) && (prev.Some? ==> ByteOrder.Precedes(prev.value, k))
    ensures t[0] != 101
  {
    k, i, j :| i <= j < |t| && EntryCut(t, m, prev, k, i, j);
    StringAccepted(t[..i], k, []);
    assert t[..i][0] == t[0];
  }

  lemma BodyAccepted(t: ByteString, r: ByteString)
    requires t != []
    ensures (t + r)[0] == t[0] && (t + r)[1..] == t[1..] + r
  {
  }

  lemma ListAccepted(t: ByteString, xs: seq<Value>, r: ByteString)
    requires t != [] && t[0] == 108 && DecodeItems(t[1..] + r) == Ok((xs, r))
    ensures DecodeValue(t + r) == Ok((List(xs), r))
  {
    BodyAccepted(t, r);
  }

  lemma DictAccepted(t: ByteString, m: map<ByteString, Value>, r: ByteString)
    requires t != [] && t[0] == 100 && DecodeEntries(t[1..] + r, None) == Ok((m, r))
    ensures DecodeValue(t + r) == Ok((Dict(m), r))
  {
    BodyAccepted(t, r);
  }

  lemma ScalarAccepted(t: ByteString, v: Value, r: ByteString)
    requires Spells(t, v) && (v.String? || v.Int?)
    ensures DecodeValue(t + r) == Ok((v, r))
  {
    if v.String? {
      StringAccepted(t, v.bytes, r);
    } else {
      IntAccepted(t, v.n, r);
    }
    BodyAccepted(t, r);
  }

  lemma {:induction false} ValueAccepted(t: ByteString, v: Value, r: ByteString)
    requires Spells(t, v)
    ensures DecodeValue(t + r) == Ok((v, r))
    decreases |t|, 0
  {
    match v
    case List(xs) =>
      ItemsAccepted(t[1..], xs, r);
      ListAccepted(t, xs, r);
    case Dict(m) =>
      EntriesAccepted(t[1..], m, None, r);
      DictAccepted(t, m, r);
    case _ =>
      ScalarAccepted(t, v, r);
  }

  // ---- Nothing else is accepted ----

  lemma StringSpelled(data: ByteString)
    requires DecodeString(data).Ok?
    ensures var (s, rest) := DecodeString(data).value; SpellsString(Taken(data, rest), s)
  {
    var (s, rest) := DecodeString(data).value;
    var t, n := Taken(data, rest), Decimal.DigitRun(data, 0);
    UnsignedParse(data[..n]);
    assert t[..n] == data[..n] && t[n + 1..] == s;
    Decimal.NumeralIsDigits(data[..n]);
    Decimal.WorthIsParsed(data[..n]);
    assert StringSplit(t, s, n);
  }

  lemma IntSpelled(data: ByteString)
    requires data != [] && data[0] == 105 && DecodeInt(data).Ok?
    ensures var (n, rest) := DecodeInt(data).value; SpellsInt(Taken(data, rest), n)
  {
    var (n, rest) := DecodeInt(data).value;
    var t, end := Taken(data, rest), FindEnd(data, 1);
    assert t == data[..end + 1] && t[1..end] == data[1..end];
    Decimal.ParsedIffSpelled(data[1..end], n);
  }

  lemma TakenSplits(data: ByteString, mid: ByteString, rest: ByteString)
    requires SuffixOf(mid, data) && SuffixOf(rest, mid)
    ensures SuffixOf(rest, data)
    ensures Taken(data, rest)[..|data| - |mid|] == Taken(data, mid)
    ensures Taken(data, rest)[|data| - |mid|..] == Taken(mid, rest)
  {
  }

  lemma {:induction false} ItemsSpelled(data: ByteString)
    requires DecodeItems(data).Ok?
    ensures var (xs, rest) := DecodeItems(data).value; SpellsItems(Taken(data, rest), xs)
    decreases |data|, 1
  {
    var (xs, rest) := DecodeItems(data).value;
    var t := Taken(data, rest);
    if data[0] == LETTER_E {
      assert t == [101];
    } else {
      var (v, rest1) := DecodeValue(data).value;
      ValueSpelled(data);
      ItemsSpelled(rest1);
      var i := |data| - |rest1|;
      TakenSplits(data, rest1, rest);
      assert xs[0] == v && xs[1..] == DecodeItems(rest1).value.0;
      assert ItemCut(t, xs, i);
    }
  }

  lemma EntryIsCut(data: ByteString, prev: Option<ByteString>, key: ByteString, rest1: ByteString, v: Value,
                   rest2: ByteString, more: map<ByteString, Value>, rest: ByteString)
    requires SuffixOf(rest1, data) && SuffixOf(rest2, rest1) && SuffixOf(rest, rest2)
    requires |rest| < |rest2| < |rest1| < |data|
    requires SpellsString(Taken(data, rest1), key) && Spells(Taken(rest1, rest2), v)
    requires SpellsEntries(Taken(rest2, rest), more, Some(key)) && key !in more
    requires prev.Some? ==> ByteOrder.Precedes(prev.value, key)
    ensures SuffixOf(rest, data) && SpellsEntries(Taken(data, rest), map[key := v] + more, prev)
  {
    var t, m := Taken(data, rest), map[key := v] + more;
    var i, j := |data| - |rest1|, |data| - |rest2|;
    TakenSplits(data, rest1, rest2);
    TakenSplits(data, rest2, rest);
    assert t[..i] == t[..j][..i] && t[i..j] == t[..j][i..];
    assert m - {key} == more;
    assert EntryCut(t, m, prev, key, i, j);
  }

  lemma {:induction false} EntriesSpelled(data: ByteString, prev: Option<ByteString>)
    requires DecodeEntries(data, prev).Ok?
    ensures var (m, rest) := DecodeEntries(data, prev).value; SpellsEntries(Taken(data, rest), m, prev)
    decreases |data|, 1
  {
    var (m, rest) := DecodeEntries(data, prev).value;
    if data[0] == LETTER_E {
      assert Taken(data, rest) == [101];
    } else {
      var (key, rest1) := DecodeString(data).value;
      var (v, rest2) := DecodeValue(rest1).value;
      var (more, _) := DecodeEntries(rest2, Some(key)).value;
      StringSpelled(data);
      ValueSpelled(rest1);
      EntriesSpelled(rest2, Some(key));
      EntriesAfter(rest2, Some(key));
      ByteOrder.LessIrreflexive(key);
      InOrder(prev, key);
      EntryStep(data, prev, key, rest1, v, rest2);
      EntryIsCut(data, prev, key, rest1, v, rest2, more, rest);
    }
  }

  lemma {:induction false} ValueSpelled(data: ByteString)
    requires DecodeValue(data).Ok?
    ensures var (v, rest) := DecodeValue(data).value; Spells(Taken(data, rest), v)
    decreases |data|, 0
  {
    var (v, rest) := DecodeValue(data).value;
    var t := Taken(data, rest);
    match v
    case String(_) => StringSpelled(data);
    case Int(_) => IntSpelled(data);
    case List(_) =>
      ItemsSpelled(data[1..]);
      assert t[1..] == Taken(data[1..], rest);
    case Dict(_) =>
      EntriesSpelled(data[1..], None);
      assert t[1..] == Taken(data[1..], rest);
  }

  /** The decoder accepts exactly the spellings, each for its value, whatever
      comes after it. */
  lemma DecodedIffSpelled(data: ByteString, v: Value, rest: ByteString)
    ensures DecodeValue(data) == Ok((v, rest)) <==>
            SuffixOf(rest, data) && Spells(data[..|data| - |rest|], v)
  {
    if SuffixOf(rest, data) && Spells(data[..|data| - |rest|], v) {
      CutOff(data, rest);
      ValueAccepted(data[..|data| - |rest|], v, rest);
    } else if DecodeValue(data) == Ok((v, rest)) {
      ValueSpelled(data);
      assert false;
    }
  }

  lemma CutOff(data: ByteString, rest: ByteString)
    requires SuffixOf(rest, data)
    ensures data == data[..|data| - |rest|] + rest
  {
  }

  /** The encoder writes a spelling of the value: the one that is shorter than all
      others. */
  lemma EncodingIsShortestSpelling(v: Value, t: ByteString)
    requires Representable(v)
    ensures Spells(Encode(v), v)
    ensures Spells(t, v) && t != Encode(v) ==> |Encode(v)| < |t|
  {
    RoundTrip(v, []);
    WholeIsSpelled(Encode(v), v);
    if Spells(t, v) {
      ValueAccepted(t, v, []);
      assert t + [] == t;
      ValueRespells(t);
      assert Taken(t, []) == t;
    }
  }

  lemma WholeIsSpelled(t: ByteString, v: Value)
    requires DecodeValue(t + []) == Ok((v, []))
    ensures Spells(t, v)
  {
    assert t + [] == t;
    ValueSpelled(t);
    assert Taken(t, []) == t;
  }

  // ---- What the errors say ----

  /** A key that does not come strictly after the one before it is refused. */
  lemma UnsortedRefused(t: ByteString, key: ByteString, prev: ByteString, r: ByteString)
    requires SpellsString(t, key) && !ByteOrder.Precedes(prev, key)
    ensures DecodeEntries(t + r, Some(prev)) == Err(InvalidFormat)
  {
    StringAccepted(t, key, r);
    InOrder(Some(prev), key);
    assert (t + r)[0] == t[0];
  }

  ghost predicate ShortOf(data: ByteString, n: nat) {
    && n < |data| && data[n] == 58 && Decimal.Numeral(data[..n])
    && Decimal.Worth(data[..n]) <= 0x7FFF_FFFF_FFFF_FFFF && n + 1 + Decimal.Worth(data[..n]) > |data|
  }

  /** A string ends too early exactly when its length is read and too large; every
      other failure is a wrong format. */
  lemma StringFails(data: ByteString)
    ensures DecodeString(data) == Err(UnexpectedEnd) <==> exists n: nat :: ShortOf(data, n)
    ensures DecodeString(data).Err? ==>
              DecodeString(data).error.UnexpectedEnd? || DecodeString(data).error.InvalidFormat?
  {
    var i := Decimal.DigitRun(data, 0);
    Decimal.WorthIsParsed(data[..i]);
    Decimal.NumeralIsDigits(data[..i]);
    UnsignedParse(data[..i]);
    if DecodeString(data) == Err(UnexpectedEnd) {
      assert ShortOf(data, i);
    }
    if n: nat :| ShortOf(data, n) {
      Decimal.NumeralIsDigits(data[..n]);
      Decimal.DigitRunIs(data, n);
    }
  }

  /** An integer ends too early exactly when fewer than three bytes are left. */
  lemma IntFails(data: ByteString)
    ensures DecodeInt(data) == Err(UnexpectedEnd) <==> |data| < 3
  {
  }
}
