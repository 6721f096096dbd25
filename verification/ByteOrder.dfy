/** The order of byte strings, as Go compares strings, and sorted key lists. */
module ByteOrder {
  import opened Bytes

  predicate Less(a: ByteString, b: ByteString) {
    if b == [] then false
    else if a == [] then true
    else if a[0] != b[0] then a[0] < b[0]
    else Less(a[1..], b[1..])
  }

  /** At `i` the strings part: there the first ends, or has the smaller byte. */
  ghost predicate PartAt(a: ByteString, b: ByteString, i: nat) {
    i <= |a| && i < |b| && a[..i] == b[..i] && (i == |a| || a[i] < b[i])
  }

  /** The order of strings by bytes: a proper prefix, or the smaller byte at the
      first difference. */
  ghost predicate Precedes(a: ByteString, b: ByteString) {
    exists i: nat :: PartAt(a, b, i)
  }

  lemma {:induction false} LessIsPrecedes(a: ByteString, b: ByteString)
    ensures Less(a, b) <==> Precedes(a, b)
  {
    if a == [] && b != [] {
      assert PartAt(a, b, 0);
    } else if a != [] && b != [] {
      if a[0] == b[0] {
        LessIsPrecedes(a[1..], b[1..]);
        if i: nat :| PartAt(a[1..], b[1..], i) {
          assert a[..i + 1] == [a[0]] + a[1..][..i] && b[..i + 1] == [b[0]] + b[1..][..i];
          assert PartAt(a, b, i + 1);
        }
        if i: nat :| PartAt(a, b, i) {
          assert a[1..][..i - 1] == a[..i][1..] && b[1..][..i - 1] == b[..i][1..];
          assert PartAt(a[1..], b[1..], i - 1);
        }
      } else {
        if a[0] < b[0] {
          assert PartAt(a, b, 0);
        }
        if i: nat :| PartAt(a, b, i) && i > 0 {
          assert a[..i][0] == b[..i][0];
        }
      }
    }
  }

  lemma {:induction false} LessIrreflexive(a: ByteString)
    ensures !Less(a, a)
  {
    if a != [] {
      LessIrreflexive(a[1..]);
    }
  }

  lemma {:induction false} LessTransitive(a: ByteString, b: ByteString, c: ByteString)
    requires Less(a, b) && Less(b, c)
    ensures Less(a, c)
  {
    if a != [] && a[0] == b[0] == c[0] {
      LessTransitive(a[1..], b[1..], c[1..]);
    }
  }

  lemma {:induction false} LessTotal(a: ByteString, b: ByteString)
    ensures a == b || Less(a, b) || Less(b, a)
  {
    if a != [] && b != [] && a[0] == b[0] {
      LessTotal(a[1..], b[1..]);
      assert a == [a[0]] + a[1..] && b == [b[0]] + b[1..];
    }
  }

  predicate IsLeast(k: ByteString, keys: set<ByteString>) {
    k in keys && forall x :: x in keys ==> x == k || Less(k, x)
  }

  lemma {:induction false} LeastExists(keys: set<ByteString>)
    requires keys != {}
    ensures exists k :: IsLeast(k, keys)
  {
    var x :| x in keys;
    var rest := keys - {x};
    if rest == {} {
      assert keys == {x};
      assert IsLeast(x, keys);
    } else {
      LeastExists(rest);
      var k :| IsLeast(k, rest);
      LessTotal(x, k);
      if Less(x, k) {
        forall y | y in keys
          ensures y == x || Less(x, y)
        {
          if y != x && y != k {
            LessTransitive(x, k, y);
          }
        }
        assert IsLeast(x, keys);
      } else {
        assert IsLeast(k, keys);
      }
    }
  }

  lemma LeastUnique(k: ByteString, x: ByteString, keys: set<ByteString>)
    requires IsLeast(k, keys) && IsLeast(x, keys)
    ensures k == x
  {
    if k != x {
      LessTransitive(k, x, k);
      LessIrreflexive(k);
    }
  }

  /** The keys of a dictionary in the order `sort.Strings` puts them. */
  ghost function Sorted(keys: set<ByteString>): (r: seq<ByteString>)
    ensures forall k :: k in r <==> k in keys
    decreases |keys|
  {
    if keys == {} then []
    else
      LeastExists(keys);
      var k :| IsLeast(k, keys);
      [k] + Sorted(keys - {k})
  }

  lemma LeastFirst(k: ByteString, keys: set<ByteString>)
    requires IsLeast(k, keys)
    ensures Sorted(keys) == [k] + Sorted(keys - {k})
  {
    LeastExists(keys);
    var first := Sorted(keys)[0];
    assert IsLeast(first, keys);
    LeastUnique(k, first, keys);
  }

  /** A key below all others comes first. */
  lemma SortedFirst(k: ByteString, rest: set<ByteString>)
    requires k !in rest && forall x :: x in rest ==> Less(k, x)
    ensures Sorted({k} + rest) == [k] + Sorted(rest)
  {
    assert IsLeast(k, {k} + rest);
    LeastFirst(k, {k} + rest);
    assert {k} + rest - {k} == rest;
  }

  ghost predicate Ascending(keys: seq<ByteString>) {
    forall i, j :: 0 <= i < j < |keys| ==> Less(keys[i], keys[j])
  }

  /** The sorted keys are the keys, each before all later ones. */
  lemma SortedInOrder(keys: set<ByteString>)
    ensures forall k :: k in Sorted(keys) <==> k in keys
    ensures forall i, j :: 0 <= i < j < |Sorted(keys)| ==> Precedes(Sorted(keys)[i], Sorted(keys)[j])
  {
    SortedAscends(keys);
    forall i, j | 0 <= i < j < |Sorted(keys)|
      ensures Precedes(Sorted(keys)[i], Sorted(keys)[j])
    {
      LessIsPrecedes(Sorted(keys)[i], Sorted(keys)[j]);
    }
  }

  lemma {:induction false} SortedAscends(keys: set<ByteString>)
    ensures Ascending(Sorted(keys))
    decreases |keys|
  {
    if keys != {} {
      LeastExists(keys);
      var k := Sorted(keys)[0];
      assert IsLeast(k, keys);
      SortedAscends(keys - {k});
      forall j | 0 < j < |Sorted(keys)|
        ensures Less(k, Sorted(keys)[j])
      {
        assert Sorted(keys)[j] == Sorted(keys - {k})[j - 1];
        assert Sorted(keys)[j] in keys - {k};
      }
    }
  }

  method PickLeast(keys: set<ByteString>) returns (k: ByteString)
    requires keys != {}
    ensures IsLeast(k, keys)
  {
    LeastExists(keys);
    k :| k in keys && IsLeast(k, keys);
  }

  /** Selecting the least key again and again sorts; the source calls the
      library sort. */
  method SortKeys(keys: set<ByteString>) returns (sorted: seq<ByteString>)
    ensures sorted == Sorted(keys)
  {
    sorted := [];
    var left := keys;
    while left != {}
      invariant sorted + Sorted(left) == Sorted(keys)
      decreases |left|
    {
      var k := PickLeast(left);
      ghost var tail := Sorted(left - {k});
      LeastFirst(k, left);
      assert sorted + ([k] + tail) == sorted + [k] + tail;
      sorted := sorted + [k];
      left := left - {k};
    }
  }
}
