/** Nearest-rank percentiles over exact rationals. */
module Percentile {

  function Ceil(x: real): int {
    -(-x).Floor
  }

  /** The ceiling of the fraction `p` of `n` samples. */
  function Share(n: nat, p: real): int {
    Ceil(p * n as real)
  }

  // ---------- Sorting: the library sort, and what it promises ----------

  predicate Ascending(s: seq<real>) {
    forall i, j :: 0 <= i < j < |s| ==> s[i] <= s[j]
  }

  function Insert(x: real, s: seq<real>): seq<real> {
    if s == [] || x <= s[0] then [x] + s else [s[0]] + Insert(x, s[1..])
  }

  function Sort(s: seq<real>): seq<real> {
    if s == [] then [] else Insert(s[0], Sort(s[1..]))
  }

  /** How many samples are not above `v`. */
  function CountLe(s: seq<real>, v: real): nat {
    if s == [] then 0 else (if s[0] <= v then 1 else 0) + CountLe(s[1..], v)
  }

  lemma {:induction false} InsertMultiset(x: real, s: seq<real>)
    ensures multiset(Insert(x, s)) == multiset{x} + multiset(s)
    ensures |Insert(x, s)| == |s| + 1
  {
    if s != [] && x > s[0] {
      InsertMultiset(x, s[1..]);
      assert s == [s[0]] + s[1..];
    }
  }

  lemma {:induction false} InsertAscending(x: real, s: seq<real>)
    requires Ascending(s)
    ensures Ascending(Insert(x, s))
    ensures Insert(x, s)[0] == x || (s != [] && Insert(x, s)[0] == s[0])
  {
    if s != [] && x > s[0] {
      var t := Insert(x, s[1..]);
      InsertAscending(x, s[1..]);
      PrependAscending(s[0], t);
    }
  }

  lemma PrependAscending(x: real, s: seq<real>)
    requires Ascending(s)
    requires s != [] ==> x <= s[0]
    ensures Ascending([x] + s)
  {
    forall i, j | 0 <= i < j < |[x] + s|
      ensures ([x] + s)[i] <= ([x] + s)[j]
    {
      assert s[0] <= s[j - 1];
    }
  }

  lemma {:induction false} SortCorrect(s: seq<real>)
    ensures Ascending(Sort(s))
    ensures multiset(Sort(s)) == multiset(s)
    ensures |Sort(s)| == |s|
  {
    if s != [] {
      SortCorrect(s[1..]);
      InsertAscending(s[0], Sort(s[1..]));
      InsertMultiset(s[0], Sort(s[1..]));
      assert s == [s[0]] + s[1..];
    }
  }

  /** Counting does not depend on the order of the samples. */
  lemma {:induction false} CountLePermutation(a: seq<real>, b: seq<real>, v: real)
    requires multiset(a) == multiset(b)
    ensures CountLe(a, v) == CountLe(b, v)
    decreases |a|
  {
    if a == [] {
      assert |multiset(b)| == 0;
    } else {
      assert a == [a[0]] + a[1..];
      assert a[0] in multiset(b);
      var rest := TakeOut(b, a[0], v);
      assert multiset(a[1..]) == multiset(a) - multiset{a[0]} == multiset(rest);
      CountLePermutation(a[1..], rest, v);
    }
  }

  lemma TakeOut(b: seq<real>, x: real, v: real) returns (rest: seq<real>)
    requires x in b
    ensures multiset(b) == multiset{x} + multiset(rest)
    ensures CountLe(b, v) == CountLe(rest, v) + if x <= v then 1 else 0
  {
    var j :| 0 <= j < |b| && b[j] == x;
    rest := b[..j] + b[j + 1..];
    assert b == b[..j] + ([x] + b[j + 1..]);
    CountLeAppend(b[..j], b[j + 1..], v);
    CountLeAppend(b[..j], [x] + b[j + 1..], v);
  }

  lemma {:induction false} CountLeAppend(a: seq<real>, b: seq<real>, v: real)
    ensures CountLe(a + b, v) == CountLe(a, v) + CountLe(b, v)
  {
    if a == [] {
      assert a + b == b;
    } else {
      assert (a + b)[1..] == a[1..] + b;
      CountLeAppend(a[1..], b, v);
    }
  }

  /** In an ascending list, the element at `k` has the first k + 1 elements not above it ... */
  lemma {:induction false} AscendingCountAt(s: seq<real>, k: nat)
    requires Ascending(s) && k < |s|
    ensures CountLe(s, s[k]) >= k + 1
  {
    if k > 0 {
      AscendingCountAt(s[1..], k - 1);
    }
  }

  /** ... and any smaller value has at most the first k elements not above it. */
  lemma {:induction false} AscendingCountBelow(s: seq<real>, k: nat, v: real)
    requires Ascending(s) && k < |s| && v < s[k]
    ensures CountLe(s, v) <= k
  {
    if k > 0 {
      AscendingCountBelow(s[1..], k - 1, v);
    } else if |s| > 1 {
      AscendingCountBelow(s[1..], 0, v);
    }
  }

  // ---------- The percentile ----------

  function Clamp(p: real): real {
    if p <= 0.0 then 0.0 else if p > 1.0 then 1.0 else p
  }

  /** The position that the code reads in the sorted copy, with both of its adjustments. */
  function Position(n: nat, p: real): int
    requires n > 0
  {
    var idx := Share(n, Clamp(p)) - 1;
    if idx < 0 then 0 else if idx >= n then n - 1 else idx
  }

  function Value(samples: seq<real>, p: real): real {
    if samples == [] then 0.0
    else
      SortCorrect(samples);
      Sort(samples)[Position(|samples|, p)]
  }

  /** Sorts in place; stands for the library call. */
  method SortFloats(a: array<real>)
    modifies a
    ensures a[..] == Sort(old(a[..]))
  {
    var s := Sort(a[..]);
    SortCorrect(a[..]);
    for i := 0 to a.Length
      invariant a[..i] == s[..i]
    {
      a[i] := s[i];
    }
    assert a[..] == a[..a.Length] == s[..a.Length] == s;
  }

  method Percentile(samples: seq<real>, p: real) returns (r: real)
    ensures r == Value(samples, p)
  {
    if |samples| == 0 {
      return 0.0;
    }
    var q := p;
    if q <= 0.0 {
      q := 0.0;
    }
    if q > 1.0 {
      q := 1.0;
    }
    var cp := new real[|samples|](i requires 0 <= i < |samples| => samples[i]);
    assert cp[..] == samples;
    SortFloats(cp);
    SortCorrect(samples);
    assert q == Clamp(p);
    var idx := Share(cp.Length, q) - 1;
    if idx < 0 {
      idx := 0;
    }
    if idx >= cp.Length {
      idx := cp.Length - 1;
    }
    assert cp[idx] == cp[..][idx];
    return cp[idx];
  }

  // ---------- What the percentile means ----------

  /** The rank asked for: at least one sample, and at least the fraction `p` of them. */
  function Rank(n: nat, p: real): int {
    var c := Share(n, p);
    if c < 1 then 1 else c
  }

  /** `r` is the smallest sample with at least the asked number of samples not above it. */
  ghost predicate IsNearestRank(samples: seq<real>, p: real, r: real) {
    && r in samples
    && CountLe(samples, r) >= Rank(|samples|, p)
    && forall x :: x in samples && CountLe(samples, x) >= Rank(|samples|, p) ==> r <= x
  }

  lemma ScaledCeilMonotone(n: nat, p: real, q: real)
    requires p <= q
    ensures Share(n, p) <= Share(n, q)
  {
    assert p * n as real <= q * n as real;
    CeilMonotone(p * n as real, q * n as real);
  }

  lemma CeilMonotone(x: real, y: real)
    requires x <= y
    ensures Ceil(x) <= Ceil(y)
  {
  }

  /** The upper adjustment never fires: the position is the rank minus one. */
  lemma UpperClampNeverFires(n: nat, p: real)
    requires n > 0 && 0.0 <= p <= 1.0
    ensures Share(n, p) - 1 < n
    ensures Position(n, p) == Rank(n, p) - 1
  {
    ScaledCeilMonotone(n, p, 1.0);
    assert Share(n, 1.0) == n;
  }

  /** The nearest-rank definition holds of the computed value. */
  lemma ValueIsNearestRank(samples: seq<real>, p: real)
    requires samples != [] && 0.0 <= p <= 1.0
    ensures IsNearestRank(samples, p, Value(samples, p))
  {
    var s := Sort(samples);
    var k := Position(|samples|, p);
    SortCorrect(samples);
    UpperClampNeverFires(|samples|, p);
    AscendingCountAt(s, k);
    assert s[k] in multiset(samples);
    forall v | v < s[k] ensures CountLe(s, v) <= k {
      AscendingCountBelow(s, k, v);
    }
    forall v ensures CountLe(samples, v) == CountLe(s, v) {
      CountLePermutation(samples, s, v);
    }
  }

  /** The definition determines the value. */
  lemma NearestRankUnique(samples: seq<real>, p: real, r: real)
    requires samples != [] && 0.0 <= p <= 1.0
    ensures IsNearestRank(samples, p, r) <==> r == Value(samples, p)
  {
    ValueIsNearestRank(samples, p);
  }

  /** An argument outside the unit interval reads as the nearer end of it. */
  lemma ValueClamps(samples: seq<real>, p: real)
    ensures Value(samples, p) == Value(samples, Clamp(p))
    ensures p <= 0.0 ==> Value(samples, p) == Value(samples, 0.0)
    ensures p > 1.0 ==> Value(samples, p) == Value(samples, 1.0)
    ensures Value([], p) == 0.0
    ensures 0.0 <= Clamp(p) <= 1.0
  {
  }

  lemma OrderIndependent(a: seq<real>, b: seq<real>, p: real)
    requires multiset(a) == multiset(b)
    ensures Value(a, p) == Value(b, p)
  {
    assert |a| == |multiset(a)| && |b| == |multiset(b)|;
    if a != [] {
      var q := Clamp(p);
      var r := Value(a, q);
      ValueIsNearestRank(a, q);
      forall v ensures CountLe(a, v) == CountLe(b, v) {
        CountLePermutation(a, b, v);
      }
      assert r in multiset(b);
      forall x | x in b ensures x in a {
        assert x in multiset(a);
      }
      NearestRankUnique(b, q, r);
    }
  }

  lemma PositionMonotone(n: nat, p: real, q: real)
    requires n > 0 && p <= q
    ensures 0 <= Position(n, p) <= Position(n, q) < n
  {
    ScaledCeilMonotone(n, Clamp(p), Clamp(q));
  }

  lemma AscendingAt(s: seq<real>, i: nat, j: nat)
    requires Ascending(s) && i <= j < |s|
    ensures s[i] <= s[j]
  {
  }

  lemma MonotoneInP(samples: seq<real>, p: real, q: real)
    requires p <= q
    ensures Value(samples, p) <= Value(samples, q)
  {
    if samples != [] {
      SortCorrect(samples);
      PositionMonotone(|samples|, p, q);
      AscendingAt(Sort(samples), Position(|samples|, p), Position(|samples|, q));
    }
  }

  /** The value is one of the samples, so any bound of the samples bounds it. */
  lemma ValueIsSample(samples: seq<real>, p: real)
    requires samples != []
    ensures Value(samples, p) in samples
  {
    ValueClamps(samples, p);
    ValueIsNearestRank(samples, Clamp(p));
  }

  // ---------- The percentile without ranks ----------

  /** Where the samples stand that are not above a value. */
  ghost function NotAbove(samples: seq<real>, v: real): set<nat> {
    set i | 0 <= i < |samples| && samples[i] <= v
  }

  lemma {:induction false} CountLeCounts(samples: seq<real>, v: real)
    ensures CountLe(samples, v) == |NotAbove(samples, v)|
  {
    if samples != [] {
      var n := |samples| - 1;
      assert samples == samples[..n] + [samples[n]];
      CountLeAppend(samples[..n], [samples[n]], v);
      CountLeCounts(samples[..n], v);
      NotAboveSnoc(samples[..n], samples[n], v);
    }
  }

  lemma NotAboveSnoc(samples: seq<real>, x: real, v: real)
    ensures NotAbove(samples + [x], v) == NotAbove(samples, v) + if x <= v then {|samples|} else {}
    ensures CountLe([x], v) == if x <= v then 1 else 0
  {
    assert [x][1..] == [];
  }

  lemma CeilIsLeast(x: real, n: int)
    ensures Ceil(x) <= n <==> x <= n as real
  {
  }

  /** The percentile is the smallest sample such that the samples not above it make up at least the fraction
      `p` of all of them. */
  lemma ValueIsSmallestCovering(samples: seq<real>, p: real, r: real)
    requires samples != [] && 0.0 <= p <= 1.0
    ensures r == Value(samples, p) <==>
            && r in samples
            && |set i | 0 <= i < |samples| && samples[i] <= r| as real >= p * |samples| as real
            && forall x :: x in samples && Covers(samples, p, x) ==> r <= x
  {
    NearestRankUnique(samples, p, r);
    forall x | x in samples
      ensures CountLe(samples, x) >= Rank(|samples|, p) <==> Covers(samples, p, x)
    {
      CountLeCounts(samples, x);
      CeilIsLeast(p * |samples| as real, CountLe(samples, x));
      var i :| 0 <= i < |samples| && samples[i] == x;
      assert i in NotAbove(samples, x);
    }
    assert Covers(samples, p, r) <==>
           |set i | 0 <= i < |samples| && samples[i] <= r| as real >= p * |samples| as real;
  }

  ghost predicate Covers(samples: seq<real>, p: real, x: real) {
    |NotAbove(samples, x)| as real >= p * |samples| as real
  }
}
