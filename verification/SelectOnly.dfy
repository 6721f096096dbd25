/** BEP 53 select-only lists: printing file indices with runs collapsed into
    ranges, and parsing them back. Indices are 64-bit integers. */
module SelectOnly {
  import opened Bytes
  import opened Decimal

  const COMMA: Byte := 44
  const DASH: Byte := 45

  // ---- Sorting ----

  ghost predicate Ascending(xs: seq<int>) {
    forall i, j :: 0 <= i < j < |xs| ==> xs[i] <= xs[j]
  }

  /** `key` behind the last element that is not above it. */
  function Insert(s: seq<int>, key: int): seq<int> {
    if s == [] || s[|s| - 1] <= key then s + [key]
    else Insert(s[..|s| - 1], key) + [s[|s| - 1]]
  }

  function Sort(xs: seq<int>): seq<int> {
    if xs == [] then [] else Insert(Sort(xs[..|xs| - 1]), xs[|xs| - 1])
  }

  lemma {:induction false} InsertKeeps(s: seq<int>, key: int)
    ensures multiset(Insert(s, key)) == multiset(s) + multiset{key}
  {
    if s != [] && s[|s| - 1] > key {
      var n := |s| - 1;
      assert s == s[..n] + [s[n]];
      InsertKeeps(s[..n], key);
    }
  }

  lemma {:induction false} InsertBounded(s: seq<int>, key: int, bound: int)
    requires key <= bound && forall i :: 0 <= i < |s| ==> s[i] <= bound
    ensures forall i :: 0 <= i < |Insert(s, key)| ==> Insert(s, key)[i] <= bound
  {
    if s != [] && s[|s| - 1] > key {
      InsertBounded(s[..|s| - 1], key, bound);
    }
  }

  lemma {:induction false} InsertAscends(s: seq<int>, key: int)
    requires Ascending(s)
    ensures Ascending(Insert(s, key))
  {
    if s != [] && s[|s| - 1] > key {
      var n := |s| - 1;
      InsertAscends(s[..n], key);
      InsertBounded(s[..n], key, s[n]);
    }
  }

  /** `Sort` orders the list and keeps every occurrence. */
  lemma {:induction false} SortSorts(xs: seq<int>)
    ensures Ascending(Sort(xs)) && multiset(Sort(xs)) == multiset(xs)
  {
    if xs != [] {
      var n := |xs| - 1;
      assert xs == xs[..n] + [xs[n]];
      SortSorts(xs[..n]);
      InsertAscends(Sort(xs[..n]), xs[n]);
      InsertKeeps(Sort(xs[..n]), xs[n]);
    }
  }

  lemma SortMembers(xs: seq<int>)
    ensures forall x :: x in Sort(xs) <==> x in xs
  {
    SortSorts(xs);
    assert forall x :: x in xs <==> x in multiset(xs);
    assert forall x :: x in Sort(xs) <==> x in multiset(Sort(xs));
  }

  /** `sortInts`: shift larger elements up, then put the key into the gap. */
  method SortInts(a: array<int>)
    modifies a
    ensures a[..] == Sort(old(a[..]))
  {
    for i := 0 to a.Length
      invariant a[..i] == Sort(old(a[..i]))
      invariant a[i..] == old(a[i..])
    {
      ghost var init := old(a[..i]);
      assert old(a[..i + 1])[..i] == init && a[i] == old(a[i..])[0];
      assert a[i + 1..] == a[i..][1..];
      ShiftIn(a, i);
    }
    assert a[..a.Length] == a[..] && old(a[..a.Length]) == old(a[..]);
  }

  method ShiftIn(a: array<int>, i: nat)
    requires i < a.Length
    modifies a
    ensures a[..i + 1] == Insert(old(a[..i]), old(a[i]))
    ensures a[i + 1..] == old(a[i + 1..])
  {
    var key := a[i];
    ghost var before := a[..];
    var j := i - 1;
    while j >= 0 && a[j] > key
      invariant -1 <= j < i
      invariant a[..j + 1] == before[..j + 1]
      invariant Insert(before[..i], key) == Insert(before[..j + 1], key) + a[j + 2..i + 1]
      invariant a[i + 1..] == before[i + 1..]
    {
      assert before[..j + 1][..j] == before[..j];
      ghost var shifted := a[j + 2..i + 1];
      a[j + 1] := a[j];
      assert a[j + 1..i + 1] == [before[j]] + shifted;
      j := j - 1;
    }
    a[j + 1] := key;
    assert a[..i + 1] == a[..j + 1] + [key] + a[j + 2..i + 1];
  }

  // ---- Printing ----

  /** A maximal run of consecutive indices. */
  datatype Run = Run(lo: int, hi: int)

  /** One more sorted index: it extends the last run or starts a new one. */
  function Grown(runs: seq<Run>, x: int): seq<Run> {
    if runs != [] && x == runs[|runs| - 1].hi + 1 then runs[..|runs| - 1] + [Run(runs[|runs| - 1].lo, x)]
    else runs + [Run(x, x)]
  }

  /** The maximal runs of a sorted list. */
  function Runs(s: seq<int>): seq<Run> {
    if s == [] then [] else Grown(Runs(s[..|s| - 1]), s[|s| - 1])
  }

  function PartText(r: Run): ByteString {
    if r.lo == r.hi then FormatInt(r.lo) else FormatInt(r.lo) + [DASH] + FormatInt(r.hi)
  }

  function Texts(runs: seq<Run>): seq<ByteString> {
    if runs == [] then [] else [PartText(runs[0])] + Texts(runs[1..])
  }

  function Join(parts: seq<ByteString>): ByteString {
    if parts == [] then []
    else if |parts| == 1 then parts[0]
    else parts[0] + [COMMA] + Join(parts[1..])
  }

  function Format(xs: seq<int>): ByteString {
    Join(Texts(Runs(Sort(xs))))
  }

  method FormatSelectOnly(indices: seq<int>) returns (text: ByteString)
    ensures text == Format(indices)
  {
    if |indices| == 0 {
      return [];
    }
    var sorted := new int[|indices|](i requires 0 <= i < |indices| => indices[i]);
    assert sorted[..] == indices;
    SortInts(sorted);
    var parts := CollapseRuns(sorted[..]);
    text := Join(parts);
  }

  lemma {:induction false} RunsSnoc(sorted: seq<int>, n: nat)
    requires n < |sorted|
    ensures Runs(sorted[..n + 1]) == Grown(Runs(sorted[..n]), sorted[n])
  {
    assert sorted[..n + 1][..n] == sorted[..n];
  }

  lemma {:induction false} ScanStarts(sorted: seq<int>, first: nat, runs: seq<Run>)
    requires first < |sorted| && runs == Runs(sorted[..first])
    requires runs != [] ==> sorted[first] != runs[|runs| - 1].hi + 1
    ensures Runs(sorted[..first + 1]) == runs + [Run(sorted[first], sorted[first])]
  {
    RunsSnoc(sorted, first);
  }

  lemma {:induction false} ScanGoesOn(sorted: seq<int>, n: nat, runs: seq<Run>, lo: int, hi: int)
    requires n < |sorted| && sorted[n] == hi + 1 && Runs(sorted[..n]) == runs + [Run(lo, hi)]
    ensures Runs(sorted[..n + 1]) == runs + [Run(lo, hi + 1)]
  {
    RunsSnoc(sorted, n);
    assert (runs + [Run(lo, hi)])[..|runs|] == runs;
  }

  /** The inner loop: to the end of the run that starts at `first`. */
  method ScanRun(sorted: seq<int>, first: nat, ghost runs: seq<Run>) returns (last: nat, end: int)
    requires first < |sorted| && runs == Runs(sorted[..first])
    requires runs != [] ==> sorted[first] != runs[|runs| - 1].hi + 1
    ensures first <= last < |sorted| && end == sorted[last]
    ensures last + 1 < |sorted| ==> sorted[last + 1] != end + 1
    ensures Runs(sorted[..last + 1]) == runs + [Run(sorted[first], end)]
  {
    last, end := first, sorted[first];
    ScanStarts(sorted, first, runs);
    while last + 1 < |sorted| && sorted[last + 1] == end + 1
      invariant first <= last < |sorted| && end == sorted[last]
      invariant Runs(sorted[..last + 1]) == runs + [Run(sorted[first], end)]
    {
      ScanGoesOn(sorted, last + 1, runs, sorted[first], end);
      end := sorted[last + 1];
      last := last + 1;
    }
  }

  /** The loop over the sorted indices. */
  method CollapseRuns(sorted: seq<int>) returns (parts: seq<ByteString>)
    ensures parts == Texts(Runs(sorted))
  {
    parts := [];
    ghost var runs: seq<Run> := [];
    var i := 0;
    while i < |sorted|
      invariant 0 <= i <= |sorted|
      invariant runs == Runs(sorted[..i]) && parts == Texts(runs)
      invariant runs != [] && i < |sorted| ==> sorted[i] != runs[|runs| - 1].hi + 1
    {
      var start := sorted[i];
      var last, end := ScanRun(sorted, i, runs);
      var part := PartText(Run(start, end));
      TextsSnoc(runs, Run(start, end));
      runs := runs + [Run(start, end)];
      parts := parts + [part];
      i := last + 1;
    }
    assert sorted[..|sorted|] == sorted;
  }

  lemma {:induction false} TextsSnoc(runs: seq<Run>, r: Run)
    ensures Texts(runs + [r]) == Texts(runs) + [PartText(r)]
  {
    if runs == [] {
      assert runs + [r] == [r] && Texts([r][1..]) == [];
    } else {
      assert (runs + [r])[1..] == runs[1..] + [r];
      TextsSnoc(runs[1..], r);
    }
  }

  // ---- Parsing ----

  /** `Endless`: the loop over a range that ends at the largest integer steps past
      it, wraps around and never stops. */
  datatype Error = BadNumber | BadRange | Endless

  function IndexOf(s: ByteString, b: Byte): (i: nat)
    ensures i <= |s|
    ensures i < |s| ==> s[i] == b
    ensures forall k :: 0 <= k < i ==> s[k] != b
  {
    if s == [] || s[0] == b then 0 else 1 + IndexOf(s[1..], b)
  }

  /** `strings.Split(s, ",")`. */
  function Split(s: ByteString): (parts: seq<ByteString>)
    ensures parts != []
    decreases |s|
  {
    var i := IndexOf(s, COMMA);
    if i == |s| then [s] else [s[..i]] + Split(s[i + 1..])
  }

  // The white space characters of Unicode, by the length of their UTF-8 form.

  predicate IsSpace1(a: Byte) {
    9 <= a <= 13 || a == 32
  }

  predicate IsSpace2(a: Byte, b: Byte) {
    a == 0xC2 && (b == 0x85 || b == 0xA0)
  }

  predicate IsSpace3(a: Byte, b: Byte, c: Byte) {
    || (a == 0xE1 && b == 0x9A && c == 0x80)
    || (a == 0xE2 && b == 0x80 && (0x80 <= c <= 0x8A || c == 0xA8 || c == 0xA9 || c == 0xAF))
    || (a == 0xE2 && b == 0x81 && c == 0x9F)
    || (a == 0xE3 && b == 0x80 && c == 0x80)
  }

  /** How many bytes the white space character takes that the text begins with, or
      ends with; 0 when there is none. */
  function LeadingSpace(s: ByteString): (n: nat)
    ensures n <= |s|
  {
    if |s| >= 1 && IsSpace1(s[0]) then 1
    else if |s| >= 2 && IsSpace2(s[0], s[1]) then 2
    else if |s| >= 3 && IsSpace3(s[0], s[1], s[2]) then 3
    else 0
  }

  function TrailingSpace(s: ByteString): (n: nat)
    ensures n <= |s|
  {
    var k := |s|;
    if k >= 1 && IsSpace1(s[k - 1]) then 1
    else if k >= 2 && IsSpace2(s[k - 2], s[k - 1]) then 2
    else if k >= 3 && IsSpace3(s[k - 3], s[k - 2], s[k - 1]) then 3
    else 0
  }

  /** `strings.TrimSpace`. */
  function Trim(s: ByteString): ByteString {
    if LeadingSpace(s) > 0 then Trim(s[LeadingSpace(s)..])
    else if TrailingSpace(s) > 0 then Trim(s[..|s| - TrailingSpace(s)])
    else s
  }

  lemma {:induction false} PlainUntrimmed(s: ByteString)
    requires forall i :: 0 <= i < |s| ==> 32 < s[i] < 0x80
    ensures Trim(s) == s
  {
  }

  /** The numbers from `lo` to `hi`. */
  function Range(lo: int, hi: int): (r: seq<int>)
    ensures |r| == if lo > hi then 0 else hi + 1 - lo
    ensures forall k :: 0 <= k < |r| ==> r[k] == lo + k
    decreases hi - lo
  {
    if lo > hi then [] else Range(lo, hi - 1) + [hi]
  }

  function ParsePart(part: ByteString): Result<seq<int>, Error> {
    if part == [] then Ok([])
    else
      var dash := IndexOf(part, DASH);
      if dash < |part| then
        match (ParseInt(part[..dash]), ParseInt(part[dash + 1..]))
        case (Some(lo), Some(hi)) =>
          if lo > hi then Err(BadRange) else if hi == INT64_MAX then Err(Endless) else Ok(Range(lo, hi))
        case _ => Err(BadNumber)
      else
        match ParseInt(part)
        case Some(n) => Ok([n])
        case None => Err(BadNumber)
  }

  function ParseParts(parts: seq<ByteString>): Result<seq<int>, Error> {
    if parts == [] then Ok([])
    else Then(ParsePart(Trim(parts[0])), ParseParts(parts[1..]))
  }

  /** The first error wins; otherwise the numbers follow one another. */
  function Then(first: Result<seq<int>, Error>, rest: Result<seq<int>, Error>): Result<seq<int>, Error> {
    match first
    case Err(e) => Err(e)
    case Ok(xs) => Append(xs, rest)
  }

  function Append(xs: seq<int>, r: Result<seq<int>, Error>): Result<seq<int>, Error> {
    match r
    case Err(e) => Err(e)
    case Ok(ys) => Ok(xs + ys)
  }

  function Parse(s: ByteString): Result<seq<int>, Error> {
    ParseParts(Split(s))
  }

  method ParseSelectOnly(s: ByteString) returns (r: Result<seq<int>, Error>)
    ensures r == Parse(s)
  {
    var indices: seq<int> := [];
    var parts := Split(s);
    AppendNothing(ParseParts(parts));
    for p := 0 to |parts|
      invariant Append(indices, ParseParts(parts[p..])) == Parse(s)
    {
      assert parts[p..][1..] == parts[p + 1..];
      var numbers := RunParsePart(Trim(parts[p]));
      if numbers.Err? {
        return Err(numbers.error);
      }
      AppendTwice(indices, numbers.value, ParseParts(parts[p + 1..]));
      indices := indices + numbers.value;
    }
    assert indices + [] == indices;
    return Ok(indices);
  }

  /** The loop body: one trimmed part. */
  method RunParsePart(part: ByteString) returns (r: Result<seq<int>, Error>)
    ensures r == ParsePart(part)
  {
    if part == [] {
      return Ok([]);
    }
    var dash := IndexOf(part, DASH);
    if dash < |part| {
      var lo := ParseInt(part[..dash]);
      if lo.None? {
        return Err(BadNumber);
      }
      var hi := ParseInt(part[dash + 1..]);
      if hi.None? {
        return Err(BadNumber);
      }
      if lo.value > hi.value {
        return Err(BadRange);
      }
      if hi.value == INT64_MAX {
        return Err(Endless);
      }
      var numbers := AddRange(lo.value, hi.value);
      return Ok(numbers);
    }
    var idx := ParseInt(part);
    if idx.None? {
      return Err(BadNumber);
    }
    return Ok([idx.value]);
  }

  lemma AppendNothing(r: Result<seq<int>, Error>)
    ensures Append([], r) == r
  {
    if r.Ok? {
      assert [] + r.value == r.value;
    }
  }

  method AddRange(lo: int, hi: int) returns (numbers: seq<int>)
    requires lo <= hi
    ensures numbers == Range(lo, hi)
  {
    numbers := [];
    var i := lo;
    while i <= hi
      invariant lo <= i <= hi + 1
      invariant |numbers| == i - lo && forall k :: 0 <= k < |numbers| ==> numbers[k] == lo + k
    {
      numbers := numbers + [i];
      i := i + 1;
    }
  }

  lemma AppendTwice(xs: seq<int>, ys: seq<int>, r: Result<seq<int>, Error>)
    ensures Append(xs, Append(ys, r)) == Append(xs + ys, r)
  {
    if r.Ok? {
      assert xs + (ys + r.value) == xs + ys + r.value;
    }
  }

  // ---- Parsing what was printed ----

  ghost predicate Avoids(s: ByteString, b: Byte) {
    forall i :: 0 <= i < |s| ==> s[i] != b
  }

  lemma IndexOfIs(s: ByteString, b: Byte, i: nat)
    requires i <= |s| && Avoids(s[..i], b) && (i < |s| ==> s[i] == b)
    ensures IndexOf(s, b) == i
  {
    assert forall k :: 0 <= k < i ==> s[..i][k] == s[k];
  }

  lemma SplitFirst(part: ByteString, rest: ByteString)
    requires Avoids(part, COMMA)
    ensures Split(part + [COMMA] + rest) == [part] + Split(rest)
  {
    var s := part + [COMMA] + rest;
    assert s[..|part|] == part && s[|part| + 1..] == rest;
    IndexOfIs(s, COMMA, |part|);
  }

  lemma SplitLast(part: ByteString)
    requires Avoids(part, COMMA)
    ensures Split(part) == [part]
  {
    assert part[..|part|] == part;
    IndexOfIs(part, COMMA, |part|);
  }

  lemma {:induction false} SplitJoin(parts: seq<ByteString>)
    requires parts != [] && forall p :: p in parts ==> Avoids(p, COMMA)
    ensures Split(Join(parts)) == parts
    decreases |parts|
  {
    assert parts[0] in parts;
    assert parts == [parts[0]] + parts[1..];
    if |parts| == 1 {
      SplitLast(parts[0]);
    } else {
      SplitFirst(parts[0], Join(parts[1..]));
      SplitJoin(parts[1..]);
    }
  }

  lemma FormatIntText(n: int)
    ensures Avoids(FormatInt(n), COMMA)
    ensures forall i :: 0 <= i < |FormatInt(n)| ==> 32 < FormatInt(n)[i] < 0x80
    ensures n >= 0 ==> Avoids(FormatInt(n), DASH)
    ensures n < 0 ==> FormatInt(n)[0] == DASH
  {
    if n < 0 {
      assert FormatInt(n) == [MINUS] + Digits(-n);
    }
  }

  lemma PartTextShape(r: Run)
    ensures PartText(r) != [] && Avoids(PartText(r), COMMA) && Trim(PartText(r)) == PartText(r)
  {
    FormatIntText(r.lo);
    FormatIntText(r.hi);
    PlainUntrimmed(PartText(r));
  }

  lemma NumberParses(n: int)
    requires 0 <= n <= INT64_MAX
    ensures ParsePart(FormatInt(n)) == Ok([n])
  {
    var text := FormatInt(n);
    FormatIntText(n);
    FormatParses(n);
    assert text[..|text|] == text;
    IndexOfIs(text, DASH, |text|);
  }

  lemma RangeParses(lo: int, hi: int)
    requires 0 <= lo < hi <= INT64_MAX
    ensures ParsePart(FormatInt(lo) + [DASH] + FormatInt(hi)) ==
            if hi == INT64_MAX then Err(Endless) else Ok(Range(lo, hi))
  {
    var first, last := FormatInt(lo), FormatInt(hi);
    var text := first + [DASH] + last;
    FormatIntText(lo);
    FormatParses(lo);
    FormatParses(hi);
    assert text[..|first|] == first && text[|first| + 1..] == last;
    IndexOfIs(text, DASH, |first|);
  }

  /** A run that its text brings back. */
  ghost predicate Recoverable(r: Run) {
    0 <= r.lo <= r.hi <= INT64_MAX && !(r.lo < r.hi == INT64_MAX)
  }

  lemma PartParses(r: Run)
    requires Recoverable(r)
    ensures ParsePart(PartText(r)) == Ok(Range(r.lo, r.hi))
  {
    if r.lo == r.hi {
      NumberParses(r.lo);
      assert Range(r.lo, r.lo) == [r.lo];
    } else {
      RangeParses(r.lo, r.hi);
    }
  }

  /** A negative number prints as a range without a start; a range up to the
      largest integer cannot be read back. */
  lemma PartFails(r: Run)
    requires r.lo <= r.hi <= INT64_MAX && !Recoverable(r)
    ensures ParsePart(PartText(r)).Err?
  {
    if r.lo < 0 {
      FormatIntText(r.lo);
      var text := PartText(r);
      IndexOfIs(text, DASH, 0);
      assert text[..0] == [];
    } else {
      RangeParses(r.lo, r.hi);
    }
  }

  function Expand(runs: seq<Run>): seq<int> {
    if runs == [] then [] else Range(runs[0].lo, runs[0].hi) + Expand(runs[1..])
  }

  lemma HeadParses(part: ByteString, rest: seq<ByteString>)
    requires Trim(part) == part
    ensures ParseParts([part] + rest) == Then(ParsePart(part), ParseParts(rest))
  {
    assert ([part] + rest)[1..] == rest;
  }

  /** The printed runs parse back exactly when every one of them can. */
  lemma {:induction false} TextsParse(runs: seq<Run>)
    requires forall r :: r in runs ==> r.lo <= r.hi <= INT64_MAX
    ensures (forall r :: r in runs ==> Recoverable(r)) ==> ParseParts(Texts(runs)) == Ok(Expand(runs))
    ensures !(forall r :: r in runs ==> Recoverable(r)) ==> ParseParts(Texts(runs)).Err?
  {
    if runs != [] {
      var r, rest := runs[0], runs[1..];
      assert runs == [r] + rest;
      PartTextShape(r);
      HeadParses(PartText(r), Texts(rest));
      TextsParse(rest);
      if Recoverable(r) {
        PartParses(r);
      } else {
        PartFails(r);
      }
    }
  }

  lemma {:induction false} TextsShape(runs: seq<Run>)
    ensures |Texts(runs)| == |runs| && forall p :: p in Texts(runs) ==> Avoids(p, COMMA)
  {
    if runs != [] {
      PartTextShape(runs[0]);
      TextsShape(runs[1..]);
    }
  }

  // ---- Runs of a sorted list ----

  lemma Regroup(a: seq<int>, b: seq<int>, c: seq<int>)
    ensures a + (b + c) == a + b + c
  {
  }

  lemma {:induction false} ExpandSnoc(runs: seq<Run>, r: Run)
    ensures Expand(runs + [r]) == Expand(runs) + Range(r.lo, r.hi)
  {
    if runs == [] {
      assert runs + [r] == [r] && Expand([r][1..]) == [];
    } else {
      var all := runs + [r];
      ExpandSnoc(runs[1..], r);
      assert all[0] == runs[0] && all[1..] == runs[1..] + [r];
      Regroup(Range(runs[0].lo, runs[0].hi), Expand(runs[1..]), Range(r.lo, r.hi));
    }
  }

  lemma GrownExpands(runs: seq<Run>, x: int)
    requires forall r :: r in runs ==> r.lo <= r.hi
    ensures Expand(Grown(runs, x)) == Expand(runs) + [x]
    ensures forall r :: r in Grown(runs, x) ==> r.lo <= r.hi
  {
    if runs != [] && x == runs[|runs| - 1].hi + 1 {
      var init, last := runs[..|runs| - 1], runs[|runs| - 1];
      assert runs == init + [last];
      ExpandSnoc(init, last);
      ExpandSnoc(init, Run(last.lo, x));
      assert Range(last.lo, x) == Range(last.lo, last.hi) + [x];
    } else {
      ExpandSnoc(runs, Run(x, x));
      assert Range(x, x) == [x];
    }
  }

  lemma {:induction false} RunsOrdered(s: seq<int>)
    ensures forall r :: r in Runs(s) ==> r.lo <= r.hi
  {
    if s != [] {
      RunsOrdered(s[..|s| - 1]);
      GrownExpands(Runs(s[..|s| - 1]), s[|s| - 1]);
    }
  }

  /** The runs spell the list, and the last one ends with its last element. */
  lemma {:induction false} RunsExpand(s: seq<int>)
    ensures Expand(Runs(s)) == s
    ensures s != [] ==> Runs(s) != [] && Runs(s)[|Runs(s)| - 1].hi == s[|s| - 1]
  {
    if s != [] {
      var init, x := s[..|s| - 1], s[|s| - 1];
      RunsExpand(init);
      RunsOrdered(init);
      GrownExpands(Runs(init), x);
      assert s == init + [x];
    }
  }

  lemma {:induction false} RunMembers(runs: seq<Run>, r: Run, x: int)
    requires r in runs && r.lo <= x <= r.hi
    ensures x in Expand(runs)
  {
    if r == runs[0] {
      assert Range(r.lo, r.hi)[x - r.lo] == x;
    } else {
      RunMembers(runs[1..], r, x);
    }
  }

  /** What printing keeps: no negative index, and not both of the two largest
      integers. */
  ghost predicate Printable(xs: seq<int>) {
    && (forall x :: x in xs ==> 0 <= x)
    && !(INT64_MAX in xs && INT64_MAX - 1 in xs)
  }

  lemma GrownKeeps(runs: seq<Run>, x: int, r: Run)
    requires r in runs && x != r.hi + 1
    ensures r in Grown(runs, x)
  {
    var k :| 0 <= k < |runs| && runs[k] == r;
    assert Grown(runs, x)[k] == r;
  }

  lemma GrownExtends(runs: seq<Run>, x: int)
    requires runs != [] && x == runs[|runs| - 1].hi + 1
    ensures Run(runs[|runs| - 1].lo, x) in Grown(runs, x)
  {
    assert Grown(runs, x)[|runs| - 1] == Run(runs[|runs| - 1].lo, x);
  }

  lemma {:induction false} BoundaryRun(s: seq<int>) returns (r: Run)
    requires Ascending(s) && (forall x :: x in s ==> x <= INT64_MAX)
    requires INT64_MAX in s && INT64_MAX - 1 in s
    ensures r in Runs(s) && r.lo < r.hi == INT64_MAX
  {
    var n := |s| - 1;
    var init, x := s[..n], s[n];
    assert x in s;
    assert forall y :: y in init ==> y in s;
    RunsExpand(init);
    RunsOrdered(init);
    if INT64_MAX in init && INT64_MAX - 1 in init {
      r := BoundaryRun(init);
      GrownKeeps(Runs(init), x, r);
    } else {
      BoundaryAtEnd(s);
      var runs := Runs(init);
      GrownExtends(runs, x);
      assert runs[|runs| - 1] in runs;
      r := Run(runs[|runs| - 1].lo, x);
    }
  }

  /** If the pair is not complete before the last element, the last two elements
      are the pair. */
  lemma BoundaryAtEnd(s: seq<int>)
    requires Ascending(s) && (forall x :: x in s ==> x <= INT64_MAX)
    requires INT64_MAX in s && INT64_MAX - 1 in s
    requires !(INT64_MAX in s[..|s| - 1] && INT64_MAX - 1 in s[..|s| - 1])
    ensures |s| >= 2 && s[|s| - 1] == INT64_MAX && s[|s| - 2] == INT64_MAX - 1
  {
    var n := |s| - 1;
    var a :| 0 <= a < |s| && s[a] == INT64_MAX - 1;
    var b :| 0 <= b < |s| && s[b] == INT64_MAX;
    assert a < b && s[n] in s;
    assert s[..n][a] == s[a];
    assert s[n - 1] in s && s[n - 1] == s[..n][n - 1] && s[..n][n - 1] in s[..n];
    assert s[a] <= s[n - 1] <= s[n];
  }

  lemma RunsRecoverable(s: seq<int>)
    requires Ascending(s) && (forall x :: x in s ==> IsInt64(x))
    ensures forall r :: r in Runs(s) ==> r.lo <= r.hi <= INT64_MAX
    ensures (forall r :: r in Runs(s) ==> Recoverable(r)) <==> Printable(s)
  {
    RunsExpand(s);
    RunsOrdered(s);
    forall r | r in Runs(s)
      ensures r.lo in s && r.hi in s && (r.lo < r.hi ==> r.hi - 1 in s)
    {
      RunMembers(Runs(s), r, r.lo);
      RunMembers(Runs(s), r, r.hi);
      if r.lo < r.hi {
        RunMembers(Runs(s), r, r.hi - 1);
      }
    }
    if INT64_MAX in s && INT64_MAX - 1 in s {
      var r := BoundaryRun(s);
    }
    if x :| x in s && x < 0 {
      assert s[0] <= x;
      assert Runs(s)[0] in Runs(s) && Runs(s)[0].lo == s[0];
    }
  }

  lemma ParseNothing()
    ensures Parse([]) == Ok([])
  {
    var none: ByteString := [];
    SplitLast(none);
    var parts := [none];
    PlainUntrimmed(none);
    assert ParsePart(none) == Ok([]);
    assert ParseParts(parts[1..]) == Ok([]);
    var empty: seq<int> := [];
    assert ParseParts(parts) == Append(empty, Ok(empty));
    assert empty + empty == empty;
  }

  /** Parsing a printed list gives the sorted list back, duplicates included,
      exactly when no index is negative and the list does not contain both of the
      two largest integers. */
  lemma ParseOfFormat(xs: seq<int>)
    requires forall x :: x in xs ==> IsInt64(x)
    ensures Parse(Format(xs)) == Ok(Sort(xs)) <==> Printable(xs)
    ensures !Printable(xs) ==> Parse(Format(xs)).Err?
  {
    var s := Sort(xs);
    SortSorts(xs);
    SortMembers(xs);
    RunsExpand(s);
    RunsOrdered(s);
    RunsRecoverable(s);
    TextsParse(Runs(s));
    TextsShape(Runs(s));
    if s == [] {
      ParseNothing();
    } else {
      SplitJoin(Texts(Runs(s)));
    }
  }

  // ---- Maximal runs ----

  /** Runs are maximal: none could be joined to the next one. */
  lemma {:induction false} RunsMaximal(s: seq<int>)
    ensures forall i :: 0 < i < |Runs(s)| ==> Runs(s)[i].lo != Runs(s)[i - 1].hi + 1
  {
    if s != [] {
      RunsMaximal(s[..|s| - 1]);
    }
  }

  /** The texts in bytes: "0-2" for a run, "5" for a single index, and "0-2,5". */
  lemma PrintedExamples()
    ensures PartText(Run(0, 2)) == [48, 45, 50] && PartText(Run(5, 5)) == [53]
    ensures Join([[48, 45, 50], [53]]) == [48, 45, 50, 44, 53]
  {
    var first: ByteString, last: ByteString := [48, 45, 50], [53];
    assert [first, last][1..] == [last];
    assert Join([last]) == last;
  }

  // ---- The accepted texts, without the parser ----

  ghost predicate AllSpace(s: ByteString)
    decreases |s|
  {
    s == [] || (LeadingSpace(s) > 0 && AllSpace(s[LeadingSpace(s)..]))
      || (TrailingSpace(s) > 0 && AllSpace(s[..|s| - TrailingSpace(s)]))
  }

  /** One part, trimmed, for its indices: nothing, a number, or two numbers around
      the first dash for all from the first to the second. */
  ghost predicate SpellsPart(t: ByteString, xs: seq<int>) {
    || (t == [] && xs == [])
    || (t != [] && Avoids(t, 45) && |xs| == 1 && SpellsNumber(t, xs[0]))
    || exists i: nat, lo: int, hi: int :: SpellsRange(t, xs, i, lo, hi)
  }

  ghost predicate SpellsRange(t: ByteString, xs: seq<int>, i: nat, lo: int, hi: int) {
    && i < |t| && t[i] == 45 && Avoids(t[..i], 45)
    && SpellsNumber(t[..i], lo) && SpellsNumber(t[i + 1..], hi) && lo <= hi < 0x7FFF_FFFF_FFFF_FFFF
    && |xs| == hi - lo + 1 && forall k :: 0 <= k < |xs| ==> xs[k] == lo + k
  }

  /** The parts up to the first comma and behind it. */
  ghost predicate SpellsList(s: ByteString, xs: seq<int>)
    decreases |s|
  {
    || (Avoids(s, 44) && SpellsPart(Trim(s), xs))
    || exists i: nat, n: nat :: i < |s| && ListCut(s, xs, i, n)
  }

  ghost predicate ListCut(s: ByteString, xs: seq<int>, i: nat, n: nat)
    requires i < |s|
    decreases |s|, 0
  {
    && s[i] == 44 && Avoids(s[..i], 44) && n <= |xs|
    && SpellsPart(Trim(s[..i]), xs[..n]) && SpellsList(s[i + 1..], xs[n..])
  }

  lemma {:induction false} NoDash(t: ByteString)
    requires t != [] && IndexOf(t, DASH) == |t|
    ensures ParsePart(t) == if ParseInt(t).Some? then Ok([ParseInt(t).value]) else Err(BadNumber)
  {
  }

  lemma {:induction false} NumberParsedIffSpelled(t: ByteString, xs: seq<int>)
    requires t != [] && IndexOf(t, DASH) == |t|
    ensures ParsePart(t) == Ok(xs) <==> |xs| == 1 && SpellsNumber(t, xs[0])
  {
    NoDash(t);
    OneNumber(ParseInt(t), xs);
    if |xs| == 1 {
      ParsedIffSpelled(t, xs[0]);
    }
  }

  lemma OneNumber(n: Option<int>, xs: seq<int>)
    ensures n.Some? && [n.value] == xs <==> |xs| == 1 && n == Some(xs[0])
  {
  }

  lemma {:induction false} AtDash(t: ByteString, i: nat)
    requires i == IndexOf(t, DASH) < |t| && ParsePart(t).Ok?
    ensures var lo, hi := ParseInt(t[..i]), ParseInt(t[i + 1..]);
            && lo.Some? && hi.Some? && lo.value <= hi.value < INT64_MAX
            && ParsePart(t) == Ok(Range(lo.value, hi.value))
  {
  }

  lemma {:induction false} RangeIsSpelled(t: ByteString, xs: seq<int>, i: nat) returns (lo: int, hi: int)
    requires i == IndexOf(t, DASH) < |t| && ParsePart(t) == Ok(xs)
    ensures SpellsRange(t, xs, i, lo, hi)
  {
    AtDash(t, i);
    lo, hi := ParseInt(t[..i]).value, ParseInt(t[i + 1..]).value;
    ParsedIffSpelled(t[..i], lo);
    ParsedIffSpelled(t[i + 1..], hi);
  }

  lemma {:induction false} BothParsed(t: ByteString, i: nat, lo: int, hi: int)
    requires i == IndexOf(t, DASH) < |t| && lo <= hi < INT64_MAX
    requires ParseInt(t[..i]) == Some(lo) && ParseInt(t[i + 1..]) == Some(hi)
    ensures ParsePart(t) == Ok(Range(lo, hi))
  {
  }

  lemma {:induction false} RangeIs(xs: seq<int>, lo: int, hi: int)
    requires lo <= hi && |xs| == hi - lo + 1 && forall k :: 0 <= k < |xs| ==> xs[k] == lo + k
    ensures Range(lo, hi) == xs
  {
  }

  lemma {:induction false} RangeIsParsed(t: ByteString, xs: seq<int>, i: nat, lo: int, hi: int)
    requires SpellsRange(t, xs, i, lo, hi)
    ensures t != [] && IndexOf(t, DASH) == i && ParsePart(t) == Ok(xs)
  {
    IndexOfIs(t, DASH, i);
    ParsedIffSpelled(t[..i], lo);
    ParsedIffSpelled(t[i + 1..], hi);
    BothParsed(t, i, lo, hi);
    RangeIs(xs, lo, hi);
  }

  lemma {:induction false} PartParsedIffSpelled(t: ByteString, xs: seq<int>)
    ensures ParsePart(t) == Ok(xs) <==> SpellsPart(t, xs)
  {
    var i := IndexOf(t, DASH);
    if exists j: nat, lo: int, hi: int :: SpellsRange(t, xs, j, lo, hi) {
      var j: nat, lo: int, hi: int :| SpellsRange(t, xs, j, lo, hi);
      RangeIsParsed(t, xs, j, lo, hi);
    } else if t != [] && i == |t| {
      NumberParsedIffSpelled(t, xs);
    } else if t != [] {
      assert t[i] == 45;
      if ParsePart(t) == Ok(xs) {
        var lo, hi := RangeIsSpelled(t, xs, i);
        assert false;
      }
    }
  }

  lemma {:induction false} PartsFirst(part: ByteString, rest: seq<ByteString>)
    ensures ParseParts([part] + rest) == Then(ParsePart(Trim(part)), ParseParts(rest))
  {
    assert ([part] + rest)[1..] == rest;
  }

  /** The first part with the rest of the text. */
  lemma {:induction false} CutParse(s: ByteString, i: nat)
    requires i == IndexOf(s, COMMA) < |s|
    ensures Parse(s) == Then(ParsePart(Trim(s[..i])), Parse(s[i + 1..]))
  {
    PartsFirst(s[..i], Split(s[i + 1..]));
  }

  lemma {:induction false} ThenNothing(first: Result<seq<int>, Error>)
    ensures Then(first, Ok([])) == first
  {
    if first.Ok? {
      assert first.value + [] == first.value;
    }
  }

  lemma {:induction false} LastPartParsed(s: ByteString)
    requires IndexOf(s, COMMA) == |s|
    ensures Parse(s) == ParsePart(Trim(s))
  {
    PartsFirst(s, []);
    assert [s] + [] == [s];
    ThenNothing(ParsePart(Trim(s)));
  }

  lemma {:induction false} ListIsSpelled(s: ByteString, xs: seq<int>, i: nat, first: seq<int>, rest: seq<int>)
    requires i < |s| && s[i] == 44 && Avoids(s[..i], 44) && xs == first + rest
    requires SpellsPart(Trim(s[..i]), first) && SpellsList(s[i + 1..], rest)
    ensures SpellsList(s, xs)
  {
    var n := |first|;
    assert xs[..n] == first && xs[n..] == rest;
    assert ListCut(s, xs, i, n);
  }

  /** A text that is parsed is one of these. */
  lemma {:induction false} ParsedIsListed(s: ByteString, xs: seq<int>)
    requires Parse(s) == Ok(xs)
    ensures SpellsList(s, xs)
    decreases |s|
  {
    var i := IndexOf(s, COMMA);
    if i == |s| {
      LastPartParsed(s);
      PartParsedIffSpelled(Trim(s), xs);
    } else {
      CutParse(s, i);
      var first, rest := ParsePart(Trim(s[..i])), Parse(s[i + 1..]);
      PartParsedIffSpelled(Trim(s[..i]), first.value);
      ParsedIsListed(s[i + 1..], rest.value);
      ListIsSpelled(s, xs, i, first.value, rest.value);
    }
  }

  /** And each of these is parsed. */
  lemma {:induction false} ListedIsParsed(s: ByteString, xs: seq<int>)
    requires SpellsList(s, xs)
    ensures Parse(s) == Ok(xs)
    decreases |s|
  {
    if Avoids(s, 44) && SpellsPart(Trim(s), xs) {
      assert s[..|s|] == s;
      IndexOfIs(s, COMMA, |s|);
      LastPartParsed(s);
      PartParsedIffSpelled(Trim(s), xs);
    } else {
      var i: nat, n: nat :| i < |s| && ListCut(s, xs, i, n);
      PartParsedIffSpelled(Trim(s[..i]), xs[..n]);
      ListedIsParsed(s[i + 1..], xs[n..]);
      CutIsParsed(s, xs, i, n);
    }
  }

  lemma {:induction false} CutIsParsed(s: ByteString, xs: seq<int>, i: nat, n: nat)
    requires i < |s| && s[i] == 44 && Avoids(s[..i], 44) && n <= |xs|
    requires ParsePart(Trim(s[..i])) == Ok(xs[..n]) && Parse(s[i + 1..]) == Ok(xs[n..])
    ensures Parse(s) == Ok(xs)
  {
    IndexOfIs(s, COMMA, i);
    CutParse(s, i);
    ThenJoins(xs, n);
  }

  lemma ThenJoins(xs: seq<int>, n: nat)
    requires n <= |xs|
    ensures Then(Ok(xs[..n]), Ok(xs[n..])) == Ok(xs)
  {
    assert xs[..n] + xs[n..] == xs;
  }

  /** The parser accepts exactly these texts, each for these indices. */
  lemma {:induction false} ParsedIffListed(s: ByteString, xs: seq<int>)
    ensures Parse(s) == Ok(xs) <==> SpellsList(s, xs)
  {
    if SpellsList(s, xs) {
      ListedIsParsed(s, xs);
    } else if Parse(s) == Ok(xs) {
      ParsedIsListed(s, xs);
      assert false;
    }
  }

  /** Trimming cuts white space off both ends and leaves none there. */
  lemma {:induction false} TrimStrips(s: ByteString) returns (front: ByteString, back: ByteString)
    ensures s == front + Trim(s) + back && AllSpace(front) && AllSpace(back)
    ensures LeadingSpace(Trim(s)) == 0 && TrailingSpace(Trim(s)) == 0
    decreases |s|
  {
    if LeadingSpace(s) > 0 {
      var n := LeadingSpace(s);
      front, back := TrimStrips(s[n..]);
      FrontGrows(s, n, front, Trim(s), back);
      front := s[..n] + front;
    } else if TrailingSpace(s) > 0 {
      var n := |s| - TrailingSpace(s);
      front, back := TrimStrips(s[..n]);
      BackGrows(s, n, front, Trim(s), back);
      back := back + s[n..];
    } else {
      front, back := [], [];
      assert s == [] + s + [];
    }
  }

  lemma {:induction false} FrontGrows(s: ByteString, n: nat, front: ByteString, core: ByteString, back: ByteString)
    requires n == LeadingSpace(s) > 0 && s[n..] == front + core + back && AllSpace(front)
    ensures s == (s[..n] + front) + core + back && AllSpace(s[..n] + front)
  {
    var all := s[..n] + front;
    assert LeadingSpace(all) == n;
    assert all[n..] == front;
  }

  lemma {:induction false} BackGrows(s: ByteString, n: nat, front: ByteString, core: ByteString, back: ByteString)
    requires TrailingSpace(s) > 0 && n == |s| - TrailingSpace(s) && s[..n] == front + core + back && AllSpace(back)
    ensures s == front + core + (back + s[n..]) && AllSpace(back + s[n..])
  {
    var all := back + s[n..];
    assert TrailingSpace(all) == |s| - n;
    assert all[..|back|] == back;
  }

  // ---- White space by code point ----

  /** The UTF-8 form of a code point below 65536. */
  function Utf8(cp: nat): ByteString
    requires cp < 0x1_0000
  {
    if cp < 0x80 then [cp]
    else if cp < 0x800 then [0xC0 + cp / 0x40, 0x80 + cp % 0x40]
    else [0xE0 + cp / 0x1000, 0x80 + cp / 0x40 % 0x40, 0x80 + cp % 0x40]
  }

  /** Unicode's White_Space. */
  predicate WhiteSpace(cp: nat) {
    || 9 <= cp <= 13 || cp == 0x20 || cp == 0x85 || cp == 0xA0 || cp == 0x1680
    || 0x2000 <= cp <= 0x200A || cp == 0x2028 || cp == 0x2029 || cp == 0x202F || cp == 0x205F || cp == 0x3000
  }

  ghost predicate Starts(s: ByteString, cp: nat) {
    cp < 0x1_0000 && WhiteSpace(cp) && Utf8(cp) <= s
  }

  ghost predicate Ends(s: ByteString, cp: nat) {
    cp < 0x1_0000 && WhiteSpace(cp) && |Utf8(cp)| <= |s| && s[|s| - |Utf8(cp)|..] == Utf8(cp)
  }

  lemma LeadStarts(s: ByteString) returns (cp: nat)
    requires LeadingSpace(s) > 0
    ensures Starts(s, cp)
  {
    if LeadingSpace(s) == 1 {
      cp := s[0];
    } else if LeadingSpace(s) == 2 {
      TwoBytes(s[0], s[1]);
      cp := s[1];
    } else {
      cp := ThreeBytes(s[0], s[1], s[2]);
    }
  }

  lemma StartLeads(s: ByteString, cp: nat)
    requires Starts(s, cp)
    ensures LeadingSpace(s) == |Utf8(cp)| > 0
  {
    var c := Utf8(cp);
    SpaceBytes(cp);
    assert s[0] == c[0] && (|c| > 1 ==> s[1] == c[1]) && (|c| > 2 ==> s[2] == c[2]);
  }

  lemma TrailEnds(s: ByteString) returns (cp: nat)
    requires TrailingSpace(s) > 0
    ensures Ends(s, cp)
  {
    var k := |s|;
    if TrailingSpace(s) == 1 {
      cp := s[k - 1];
      assert s[k - 1..] == [s[k - 1]];
    } else if TrailingSpace(s) == 2 {
      TwoBytes(s[k - 2], s[k - 1]);
      cp := s[k - 1];
      assert s[k - 2..] == [s[k - 2], s[k - 1]];
    } else {
      cp := ThreeBytes(s[k - 3], s[k - 2], s[k - 1]);
      assert s[k - 3..] == [s[k - 3], s[k - 2], s[k - 1]];
    }
  }

  lemma EndTrails(s: ByteString, cp: nat)
    requires Ends(s, cp)
    ensures TrailingSpace(s) > 0
  {
    var c, at := Utf8(cp), |s| - |Utf8(cp)|;
    SpaceBytes(cp);
    assert s[at] == c[0] && (|c| > 1 ==> s[at + 1] == c[1]) && (|c| > 2 ==> s[at + 2] == c[2]);
  }

  /** What is trimmed off a text is exactly white space of Unicode, by characters. */
  lemma SpaceIsWhiteSpace(s: ByteString)
    ensures LeadingSpace(s) > 0 <==> exists cp: nat :: Starts(s, cp)
    ensures TrailingSpace(s) > 0 <==> exists cp: nat :: Ends(s, cp)
    ensures forall cp: nat :: Starts(s, cp) ==> LeadingSpace(s) == |Utf8(cp)|
  {
    if LeadingSpace(s) > 0 {
      var cp := LeadStarts(s);
    }
    if TrailingSpace(s) > 0 {
      var cp := TrailEnds(s);
    }
    forall cp: nat | Starts(s, cp)
      ensures LeadingSpace(s) == |Utf8(cp)| > 0
    {
      StartLeads(s, cp);
    }
    forall cp: nat | Ends(s, cp)
      ensures TrailingSpace(s) > 0
    {
      EndTrails(s, cp);
    }
  }

  lemma TwoBytes(a: Byte, b: Byte)
    requires IsSpace2(a, b)
    ensures WhiteSpace(b) && Utf8(b) == [a, b]
  {
  }

  lemma ThreeBytes(a: Byte, b: Byte, c: Byte) returns (cp: nat)
    requires IsSpace3(a, b, c)
    ensures cp < 0x1_0000 && WhiteSpace(cp) && Utf8(cp) == [a, b, c]
  {
    cp := (a - 0xE0) * 0x1000 + (b - 0x80) * 0x40 + (c - 0x80);
  }

  lemma SpaceBytes(cp: nat)
    requires cp < 0x1_0000 && WhiteSpace(cp)
    ensures var c := Utf8(cp);
            if |c| == 1 then IsSpace1(c[0])
            else if |c| == 2 then IsSpace2(c[0], c[1]) && !IsSpace1(c[0])
            else |c| == 3 && IsSpace3(c[0], c[1], c[2]) && !IsSpace1(c[0]) && !IsSpace2(c[0], c[1])
  {
  }
}
