/** The BEP 44 store of mutable items. SHA-1 and Ed25519 verification are
    parameters, and so is the time of each put. */
module MutableStore {
  import opened Bytes
  import Decimal
  import opened Bencode
  import BencodeLaws
  import ByteOrder

  const MAX_VALUE_SIZE: nat := 1000
  const MAX_SALT_SIZE: nat := 64

  type Key = k: ByteString | |k| == 32 witness seq(32, _ => 0)

  type Signature = s: ByteString | |s| == 64 witness seq(64, _ => 0)

  type Verifier = (Key, ByteString, Signature) -> bool

  datatype Item = Item(value: Value, key: Key, sig: Signature, number: int, salt: ByteString, isMutable: bool,
                       stored: int)

  type Items = map<Digest, Item>

  datatype Error = SaltTooBig | ValueTooBig | InvalidSignature | CasMismatch | NumberTooLow

  /** One put: the item, its sequence number, and the optional compare-and-swap
      number. */
  datatype Put = Put(key: Key, salt: ByteString, number: int, sig: Signature, value: Value, cas: Option<int>, now: int)

  // ---- Signing ----

  const SALT_PREFIX: ByteString := [52, 58, 115, 97, 108, 116]  // "4:salt"
  const SEQ_PREFIX: ByteString := [51, 58, 115, 101, 113]       // "3:seq"
  const V_PREFIX: ByteString := [49, 58, 118]                   // "1:v"

  function SeqPart(number: int, encoded: ByteString): ByteString {
    SEQ_PREFIX + (EncodeInt(number) + (V_PREFIX + encoded))
  }

  /** The signed bytes: the salt if there is one, the number and the value. */
  function SignBuffer(salt: ByteString, number: int, encoded: ByteString): ByteString {
    if salt != [] then SALT_PREFIX + (EncodeString(salt) + SeqPart(number, encoded)) else SeqPart(number, encoded)
  }

  method MutableSignBuffer(salt: ByteString, number: int, encoded: ByteString) returns (buf: ByteString)
    ensures buf == SignBuffer(salt, number, encoded)
  {
    buf := [];
    if salt != [] {
      buf := buf + SALT_PREFIX;
      buf := buf + EncodeString(salt);
    }
    ghost var front := buf;
    assert front == if salt != [] then SALT_PREFIX + EncodeString(salt) else [];
    buf := buf + SEQ_PREFIX;
    buf := buf + EncodeInt(number);
    buf := buf + V_PREFIX;
    buf := buf + encoded;
    PartsOfBuffer(salt, number, encoded, front);
  }

  lemma PartsOfBuffer(salt: ByteString, number: int, encoded: ByteString, front: ByteString)
    requires front == if salt != [] then SALT_PREFIX + EncodeString(salt) else []
    ensures front + SEQ_PREFIX + EncodeInt(number) + V_PREFIX + encoded == SignBuffer(salt, number, encoded)
  {
    Regroup(front, SEQ_PREFIX, EncodeInt(number), V_PREFIX, encoded);
    if salt != [] {
      Regroup3(SALT_PREFIX, EncodeString(salt), SeqPart(number, encoded));
    } else {
      assert [] + SeqPart(number, encoded) == SeqPart(number, encoded);
    }
  }

  lemma Regroup(a: ByteString, b: ByteString, c: ByteString, d: ByteString, e: ByteString)
    ensures a + b + c + d + e == a + (b + (c + (d + e)))
  {
  }

  lemma SeqPartInjective(n: int, e: ByteString, m: int, f: ByteString)
    requires Decimal.IsInt64(n) && Decimal.IsInt64(m) && SeqPart(n, e) == SeqPart(m, f)
    ensures n == m && e == f
  {
    assert SeqPart(n, e)[5..] == EncodeInt(n) + (V_PREFIX + e);
    assert SeqPart(m, f)[5..] == EncodeInt(m) + (V_PREFIX + f);
    BencodeLaws.IntRoundTrip(n, V_PREFIX + e);
    BencodeLaws.IntRoundTrip(m, V_PREFIX + f);
    assert (V_PREFIX + e)[3..] == e && (V_PREFIX + f)[3..] == f;
  }

  lemma SignBufferFirst(salt: ByteString, number: int, encoded: ByteString)
    ensures SignBuffer(salt, number, encoded) != []
    ensures SignBuffer(salt, number, encoded)[0] == if salt != [] then 52 else 51
  {
  }

  /** Nothing signed can be read as another salt, number or value. */
  lemma SignBufferInjective(s: ByteString, n: int, e: ByteString, t: ByteString, m: int, f: ByteString)
    requires Decimal.IsInt64(n) && Decimal.IsInt64(m) && |s| <= Decimal.INT64_MAX && |t| <= Decimal.INT64_MAX
    requires SignBuffer(s, n, e) == SignBuffer(t, m, f)
    ensures s == t && n == m && e == f
  {
    SignBufferFirst(s, n, e);
    SignBufferFirst(t, m, f);
    if s != [] && t != [] {
      assert SignBuffer(s, n, e)[6..] == EncodeString(s) + SeqPart(n, e);
      assert SignBuffer(t, m, f)[6..] == EncodeString(t) + SeqPart(m, f);
      BencodeLaws.StringRoundTrip(s, SeqPart(n, e));
      BencodeLaws.StringRoundTrip(t, SeqPart(m, f));
    }
    SeqPartInjective(n, e, m, f);
  }

  /** The bytes of "salt", "seq" and "v". */
  const SALT_KEY: ByteString := [115, 97, 108, 116]
  const SEQ_KEY: ByteString := [115, 101, 113]
  const V_KEY: ByteString := [118]

  /** What is signed, as a dictionary. */
  ghost function Signed(salt: ByteString, number: int, value: Value): map<ByteString, Value> {
    var rest := map[SEQ_KEY := Int(number), V_KEY := value];
    if salt == [] then rest else rest[SALT_KEY := String(salt)]
  }

  lemma KeysInOrder()
    ensures ByteOrder.Less(SALT_KEY, SEQ_KEY) && ByteOrder.Less(SEQ_KEY, V_KEY) && ByteOrder.Less(SALT_KEY, V_KEY)
  {
    assert SALT_KEY[1..] == [97, 108, 116] && SEQ_KEY[1..] == [101, 113];
  }

  lemma SortedKeys()
    ensures ByteOrder.Sorted({SEQ_KEY, V_KEY}) == [SEQ_KEY, V_KEY]
    ensures ByteOrder.Sorted({SALT_KEY, SEQ_KEY, V_KEY}) == [SALT_KEY, SEQ_KEY, V_KEY]
  {
    KeysInOrder();
    assert {V_KEY} + {} == {V_KEY};
    ByteOrder.SortedFirst(V_KEY, {});
    KeysDiffer();
    ByteOrder.SortedFirst(SEQ_KEY, {V_KEY});
    assert {SEQ_KEY} + {V_KEY} == {SEQ_KEY, V_KEY};
    ByteOrder.SortedFirst(SALT_KEY, {SEQ_KEY, V_KEY});
    assert {SALT_KEY} + {SEQ_KEY, V_KEY} == {SALT_KEY, SEQ_KEY, V_KEY};
  }

  lemma SmallDigits()
    ensures Decimal.Digits(1) == [49] && Decimal.Digits(3) == [51] && Decimal.Digits(4) == [52]
  {
  }

  lemma KeyTexts()
    ensures EncodeString(SALT_KEY) == SALT_PREFIX && EncodeString(SEQ_KEY) == SEQ_PREFIX
    ensures EncodeString(V_KEY) == V_PREFIX
  {
    SmallDigits();
  }

  lemma FirstEntry(v: Value, k: ByteString, keys: seq<ByteString>, text: ByteString, x: ByteString)
    requires v.Dict? && k in v.entries && forall x :: x in keys ==> x in v.entries
    requires EncodeString(k) == text && Encode(v.entries[k]) == x
    ensures EncodeEntries(v, [k] + keys) == text + (x + EncodeEntries(v, keys))
  {
    var all := [k] + keys;
    assert all[0] == k && all[1..] == keys;
    Regroup3(text, x, EncodeEntries(v, keys));
  }

  lemma Regroup3(a: ByteString, b: ByteString, c: ByteString)
    ensures a + b + c == a + (b + c)
  {
  }

  lemma EntriesFromSeq(v: Value, number: int, value: Value)
    requires v.Dict? && SEQ_KEY in v.entries && V_KEY in v.entries
    requires v.entries[SEQ_KEY] == Int(number) && v.entries[V_KEY] == value
    ensures EncodeEntries(v, [SEQ_KEY, V_KEY]) == SeqPart(number, Encode(value))
  {
    KeyTexts();
    FirstEntry(v, SEQ_KEY, [V_KEY], SEQ_PREFIX, EncodeInt(number));
    FirstEntry(v, V_KEY, [], V_PREFIX, Encode(value));
    assert [SEQ_KEY] + [V_KEY] == [SEQ_KEY, V_KEY] && [V_KEY] + [] == [V_KEY];
    assert Encode(value) + [] == Encode(value);
  }

  lemma EntriesFromSalt(v: Value, salt: ByteString, number: int, value: Value)
    requires v.Dict? && SALT_KEY in v.entries && SEQ_KEY in v.entries && V_KEY in v.entries
    requires v.entries[SALT_KEY] == String(salt)
    requires v.entries[SEQ_KEY] == Int(number) && v.entries[V_KEY] == value
    ensures EncodeEntries(v, [SALT_KEY, SEQ_KEY, V_KEY]) ==
            SALT_PREFIX + (EncodeString(salt) + SeqPart(number, Encode(value)))
  {
    KeyTexts();
    EntriesFromSeq(v, number, value);
    FirstEntry(v, SALT_KEY, [SEQ_KEY, V_KEY], SALT_PREFIX, EncodeString(salt));
    assert [SALT_KEY] + [SEQ_KEY, V_KEY] == [SALT_KEY, SEQ_KEY, V_KEY];
  }

  lemma KeysDiffer()
    ensures SALT_KEY != SEQ_KEY && SEQ_KEY != V_KEY && SALT_KEY != V_KEY
  {
    assert |SALT_KEY| == 4 && |SEQ_KEY| == 3 && |V_KEY| == 1;
  }

  /** The signed bytes are those of the encoded dictionary of salt, number and
      value, without its opening `d` and closing `e`. */
  lemma SignBufferIsDictionary(salt: ByteString, number: int, value: Value)
    ensures [100] + SignBuffer(salt, number, Encode(value)) + [101] == Encode(Dict(Signed(salt, number, value)))
  {
    var m := Signed(salt, number, value);
    KeysDiffer();
    SortedKeys();
    if salt == [] {
      assert m.Keys == {SEQ_KEY, V_KEY};
      EntriesFromSeq(Dict(m), number, value);
    } else {
      assert m.Keys == {SALT_KEY, SEQ_KEY, V_KEY};
      EntriesFromSalt(Dict(m), salt, number, value);
    }
  }

  // ---- Puts ----

  function Target(hash: HashFunction, key: Key, salt: ByteString): Digest {
    hash(key + salt)
  }

  function NewItem(p: Put): Item {
    Item(p.value, p.key, p.sig, p.number, p.salt, true, p.now)
  }

  /** Rejections that do not look at the store. */
  ghost function Rejection(verify: Verifier, p: Put): Option<Error> {
    if |p.salt| > MAX_SALT_SIZE then Some(SaltTooBig)
    else if |Encode(p.value)| > MAX_VALUE_SIZE then Some(ValueTooBig)
    else if !verify(p.key, SignBuffer(p.salt, p.number, Encode(p.value)), p.sig) then Some(InvalidSignature)
    else None
  }

  /** The store after a put, and the error if it is refused. */
  ghost function After(hash: HashFunction, verify: Verifier, items: Items, p: Put): (Items, Option<Error>) {
    var t := Target(hash, p.key, p.salt);
    if Rejection(verify, p).Some? then (items, Rejection(verify, p))
    else if t in items && p.cas.Some? && p.cas.value != items[t].number then (items, Some(CasMismatch))
    else if t in items && p.number < items[t].number then (items, Some(NumberTooLow))
    else if t in items && p.number == items[t].number then (items[t := items[t].(stored := p.now)], None)
    else (items[t := NewItem(p)], None)
  }

  // ---- What a put needs ----

  ghost predicate WellSigned(verify: Verifier, p: Put) {
    && |p.salt| <= 64
    && |Encode(p.value)| <= 1000
    && verify(p.key, SignBuffer(p.salt, p.number, Encode(p.value)), p.sig)
  }

  /** What is held at the target does not forbid the put. */
  ghost predicate Admits(items: Items, t: Digest, p: Put) {
    t in items ==>
      && (p.cas.Some? ==> p.cas.value == items[t].number)
      && items[t].number <= p.number
  }

  /** The error of the first test that fails. */
  ghost function Failure(hash: HashFunction, verify: Verifier, items: Items, p: Put): Option<Error> {
    var t := hash(p.key + p.salt);
    if |p.salt| > 64 then Some(SaltTooBig)
    else if |Encode(p.value)| > 1000 then Some(ValueTooBig)
    else if !verify(p.key, SignBuffer(p.salt, p.number, Encode(p.value)), p.sig) then Some(InvalidSignature)
    else if t in items && p.cas.Some? && p.cas.value != items[t].number then Some(CasMismatch)
    else if t in items && items[t].number > p.number then Some(NumberTooLow)
    else None
  }

  /** A put is accepted exactly when it is well formed and well signed and what is
      held at the hash of its key and salt admits it; otherwise the first failing
      test names the error. Accepted, it either only renews the time of the item
      held with the same number, or becomes the item held. */
  lemma PutDecides(hash: HashFunction, verify: Verifier, items: Items, p: Put)
    ensures var (items', error) := After(hash, verify, items, p);
            var t := hash(p.key + p.salt);
            && (error.None? <==> WellSigned(verify, p) && Admits(items, t, p))
            && error == Failure(hash, verify, items, p)
            && (error.Some? ==> items' == items)
            && (error.None? && t in items && items[t].number == p.number ==>
                  items' == items[t := items[t].(stored := p.now)])
            && (error.None? && !(t in items && items[t].number == p.number) ==>
                  items' == items[t := Item(p.value, p.key, p.sig, p.number, p.salt, true, p.now)])
  {
  }

  class Store {
    var items: Items

    constructor ()
      ensures items == map[]
    {
      items := map[];
    }

    method PutMutable(hash: HashFunction, verify: Verifier, p: Put) returns (error: Option<Error>)
      modifies this
      ensures (items, error) == After(hash, verify, old(items), p)
      ensures error.None? <==> WellSigned(verify, p) && Admits(old(items), hash(p.key + p.salt), p)
      ensures error == Failure(hash, verify, old(items), p)
    {
      PutDecides(hash, verify, items, p);
      if |p.salt| > MAX_SALT_SIZE {
        return Some(SaltTooBig);
      }
      var encoded := AppendEncoded([], p.value);
      assert encoded == Encode(p.value);
      if |encoded| > MAX_VALUE_SIZE {
        return Some(ValueTooBig);
      }
      var signBuf := MutableSignBuffer(p.salt, p.number, encoded);
      if !verify(p.key, signBuf, p.sig) {
        return Some(InvalidSignature);
      }
      var target := hash(p.key + p.salt);
      if target in items {
        var existing := items[target];
        if p.cas.Some? && p.cas.value != existing.number {
          return Some(CasMismatch);
        }
        if p.number < existing.number {
          return Some(NumberTooLow);
        }
        if p.number == existing.number {
          items := items[target := existing.(stored := p.now)];
          return None;
        }
      }
      items := items[target := Item(p.value, p.key, p.sig, p.number, p.salt, true, p.now)];
      return None;
    }
  }

  // ---- Laws of single puts ----

  /** What later stores keep of an earlier one: no target disappears, no number
      goes down, and while the number stays everything but the time stays. */
  ghost predicate Keeps(items: Items, items': Items) {
    forall t :: t in items ==>
      && t in items'
      && items[t].number <= items'[t].number
      && (items[t].number == items'[t].number ==> items'[t].(stored := items[t].stored) == items[t])
  }

  lemma PutKeeps(hash: HashFunction, verify: Verifier, items: Items, p: Put)
    ensures Keeps(items, After(hash, verify, items, p).0)
  {
  }

  /** An accepted put leaves its number at its target; if it carried a
      compare-and-swap number and the target existed, that number matched. A
      refused put changes nothing. */
  lemma AcceptedPut(hash: HashFunction, verify: Verifier, items: Items, p: Put)
    ensures var (items', error) := After(hash, verify, items, p);
            var t := Target(hash, p.key, p.salt);
            && (error.None? ==> t in items' && items'[t].number == p.number && items'[t].stored == p.now)
            && (error.None? && t in items && p.cas.Some? ==> p.cas.value == items[t].number)
            && (error.Some? ==> items' == items)
            && (forall u :: u != t ==> (u in items' <==> u in items) && (u in items ==> items'[u] == items[u]))
  {
  }

  /** An accepted put is not always stored: with the number already held, the old
      value stays whatever the new one is. It is stored exactly when the target is
      new, its number is lower, or the values agree. */
  lemma AcceptedIsStoredIff(hash: HashFunction, verify: Verifier, items: Items, p: Put)
    requires After(hash, verify, items, p).1.None?
    ensures var t := Target(hash, p.key, p.salt);
            After(hash, verify, items, p).0[t].value == p.value
            <==> t !in items || items[t].number < p.number || items[t].value == p.value
  {
  }

  // ---- Runs ----

  ghost function AfterAll(hash: HashFunction, verify: Verifier, items: Items, puts: seq<Put>): Items {
    if puts == [] then items
    else After(hash, verify, AfterAll(hash, verify, items, puts[..|puts| - 1]), puts[|puts| - 1]).0
  }

  lemma KeepsTrans(a: Items, b: Items, c: Items)
    requires Keeps(a, b) && Keeps(b, c)
    ensures Keeps(a, c)
  {
    forall t | t in a && a[t].number == c[t].number
      ensures c[t].(stored := a[t].stored) == a[t]
    {
      assert b[t].number == a[t].number;
      assert b[t].(stored := a[t].stored) == a[t] && c[t].(stored := b[t].stored) == b[t];
    }
  }

  /** Over any run, from any point to any later point: numbers never decrease and
      a (target, number) pair never changes its value. */
  lemma {:induction false} RunKeeps(hash: HashFunction, verify: Verifier, items: Items, puts: seq<Put>, i: nat)
    requires i <= |puts|
    ensures Keeps(AfterAll(hash, verify, items, puts[..i]), AfterAll(hash, verify, items, puts))
  {
    if i == |puts| {
      assert puts[..i] == puts;
    } else {
      var init := puts[..|puts| - 1];
      assert init[..i] == puts[..i];
      RunKeeps(hash, verify, items, init, i);
      PutKeeps(hash, verify, AfterAll(hash, verify, items, init), puts[|puts| - 1]);
      KeepsTrans(AfterAll(hash, verify, items, puts[..i]), AfterAll(hash, verify, items, init),
                 AfterAll(hash, verify, items, puts));
    }
  }

  /** Every mutable item sits at the hash of its key and salt, fits the limits and
      carries a valid signature over exactly its own salt, number and value. */
  ghost predicate Authentic(hash: HashFunction, verify: Verifier, items: Items) {
    forall t :: t in items && items[t].isMutable ==>
      var item := items[t];
      && t == Target(hash, item.key, item.salt)
      && |item.salt| <= MAX_SALT_SIZE && |Encode(item.value)| <= MAX_VALUE_SIZE
      && verify(item.key, SignBuffer(item.salt, item.number, Encode(item.value)), item.sig)
  }

  lemma {:induction false} RunIsAuthentic(hash: HashFunction, verify: Verifier, items: Items, puts: seq<Put>)
    requires Authentic(hash, verify, items)
    ensures Authentic(hash, verify, AfterAll(hash, verify, items, puts))
  {
    if puts != [] {
      RunIsAuthentic(hash, verify, items, puts[..|puts| - 1]);
    }
  }

  // ---- What is held after a run ----

  ghost predicate Offers(hash: HashFunction, verify: Verifier, puts: seq<Put>, i: nat, t: Digest) {
    i < |puts| && WellSigned(verify, puts[i]) && hash(puts[i].key + puts[i].salt) == t
  }

  /** Put `i` has the greatest number of all well-signed puts at the target, and is
      the first with that number. */
  ghost predicate Wins(hash: HashFunction, verify: Verifier, puts: seq<Put>, i: nat, t: Digest) {
    && Offers(hash, verify, puts, i, t)
    && forall j: nat :: Offers(hash, verify, puts, j, t) ==>
         puts[j].number <= puts[i].number && (j < i ==> puts[j].number < puts[i].number)
  }

  /** The item is the one put by `p`, up to the time of its last renewal. */
  ghost predicate HeldFrom(item: Item, p: Put) {
    item.(stored := p.now) == Item(p.value, p.key, p.sig, p.number, p.salt, true, p.now)
  }

  ghost predicate HeldWinner(hash: HashFunction, verify: Verifier, item: Item, puts: seq<Put>, i: nat, t: Digest) {
    Wins(hash, verify, puts, i, t) && HeldFrom(item, puts[i])
  }

  /** What is held at the target is exactly the winner, if anything was offered. */
  ghost predicate HoldsWinner(hash: HashFunction, verify: Verifier, items: Items, puts: seq<Put>, t: Digest) {
    && (t in items <==> exists i: nat :: Offers(hash, verify, puts, i, t))
    && (t in items ==> exists i: nat :: HeldWinner(hash, verify, items[t], puts, i, t))
  }

  lemma OffersInit(hash: HashFunction, verify: Verifier, puts: seq<Put>, t: Digest)
    requires puts != []
    ensures forall j: nat :: j < |puts| - 1 ==>
              (Offers(hash, verify, puts, j, t) <==> Offers(hash, verify, puts[..|puts| - 1], j, t))
  {
  }

  lemma WinnerStays(hash: HashFunction, verify: Verifier, puts: seq<Put>, i: nat, t: Digest)
    requires puts != [] && Wins(hash, verify, puts[..|puts| - 1], i, t)
    requires Offers(hash, verify, puts, |puts| - 1, t) ==> puts[|puts| - 1].number <= puts[i].number
    ensures Wins(hash, verify, puts, i, t)
  {
    OffersInit(hash, verify, puts, t);
  }

  lemma LastWins(hash: HashFunction, verify: Verifier, puts: seq<Put>, i: nat, t: Digest)
    requires puts != [] && Offers(hash, verify, puts, |puts| - 1, t)
    requires Wins(hash, verify, puts[..|puts| - 1], i, t) && puts[i].number < puts[|puts| - 1].number
    ensures Wins(hash, verify, puts, |puts| - 1, t)
  {
    OffersInit(hash, verify, puts, t);
  }

  lemma FirstWins(hash: HashFunction, verify: Verifier, init: seq<Put>, puts: seq<Put>, t: Digest)
    requires puts != [] && init == puts[..|puts| - 1] && Offers(hash, verify, puts, |puts| - 1, t)
    requires forall j: nat :: !Offers(hash, verify, init, j, t)
    ensures Wins(hash, verify, puts, |puts| - 1, t)
  {
    OffersInit(hash, verify, puts, t);
  }

  lemma StepHoldsWinner(hash: HashFunction, verify: Verifier, items: Items, puts: seq<Put>, t: Digest)
    requires puts != [] && puts[|puts| - 1].cas.None?
    requires HoldsWinner(hash, verify, items, puts[..|puts| - 1], t)
    ensures HoldsWinner(hash, verify, After(hash, verify, items, puts[|puts| - 1]).0, puts, t)
  {
    var n := |puts| - 1;
    var p, items' := puts[n], After(hash, verify, items, puts[n]).0;
    PutDecides(hash, verify, items, p);
    OffersInit(hash, verify, puts, t);
    if t in items {
      var i: nat :| HeldWinner(hash, verify, items[t], puts[..n], i, t);
      assert Offers(hash, verify, puts, i, t);
      if Offers(hash, verify, puts, n, t) && items[t].number < p.number {
        LastWins(hash, verify, puts, i, t);
        assert HeldWinner(hash, verify, items'[t], puts, n, t);
      } else {
        WinnerStays(hash, verify, puts, i, t);
        assert HeldWinner(hash, verify, items'[t], puts, i, t);
      }
    } else if Offers(hash, verify, puts, n, t) {
      FirstWins(hash, verify, puts[..n], puts, t);
      assert HeldWinner(hash, verify, items'[t], puts, n, t);
    }
  }

  /** After any puts to a new store, none of them conditional, each target holds
      the well-signed put with the greatest number there, the first of them if
      several have it; and nothing is held where there was none. */
  lemma {:induction false} RunHoldsGreatest(hash: HashFunction, verify: Verifier, puts: seq<Put>, t: Digest)
    requires forall i :: 0 <= i < |puts| ==> puts[i].cas.None?
    ensures HoldsWinner(hash, verify, AfterAll(hash, verify, map[], puts), puts, t)
  {
    if puts != [] {
      var init := puts[..|puts| - 1];
      RunHoldsGreatest(hash, verify, init, t);
      StepHoldsWinner(hash, verify, AfterAll(hash, verify, map[], init), puts, t);
    }
  }
}
