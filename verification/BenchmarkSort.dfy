/** Sorting the benchmark results in place before they are shown. */
module BenchmarkSort {
  datatype Record = Record(id: int, name: string, encSpeed: int, decSpeed: int, meanBytesPerSec: int,
                           iterations: int, memoryCost: int)

  datatype SortMethod = ByName | BySpeed

  datatype BenchmarkType = Encryption | Prf | HashFunction

  /** What the order goes by: the id, or the speed, counted downward unless it stands for a time. */
  function Key(how: SortMethod, what: BenchmarkType, r: Record): int {
    if how == ByName then r.id else if what == Prf then r.meanBytesPerSec else -r.meanBytesPerSec
  }

  // -------------------------------------------------------------------------
  // Sorted, stable, and how far from it
  // -------------------------------------------------------------------------

  ghost predicate Sorted(how: SortMethod, what: BenchmarkType, s: seq<Record>) {
    forall i, j | 0 <= i < j < |s| :: Key(how, what, s[i]) <= Key(how, what, s[j])
  }

  /** The records with a given key, in their order. */
  function WithKey(how: SortMethod, what: BenchmarkType, s: seq<Record>, key: int): seq<Record> {
    if s == [] then []
    else WithKey(how, what, s[..|s| - 1], key) + (if Key(how, what, s[|s| - 1]) == key then [s[|s| - 1]] else [])
  }

  /** The same records, those with equal keys in the same order. */
  ghost predicate StablePermutation(how: SortMethod, what: BenchmarkType, s: seq<Record>, t: seq<Record>) {
    |s| == |t| && forall key :: WithKey(how, what, s, key) == WithKey(how, what, t, key)
  }

  /** How many records of s have a greater key than key. */
  function Greater(how: SortMethod, what: BenchmarkType, s: seq<Record>, key: int): nat {
    if s == [] then 0
    else Greater(how, what, s[..|s| - 1], key) + (if Key(how, what, s[|s| - 1]) > key then 1 else 0)
  }

  /** The number of pairs that stand the wrong way round. */
  function Inversions(how: SortMethod, what: BenchmarkType, s: seq<Record>): nat {
    if s == [] then 0
    else Inversions(how, what, s[..|s| - 1]) + Greater(how, what, s[..|s| - 1], Key(how, what, s[|s| - 1]))
  }

  lemma {:induction false} WithKeySplit(how: SortMethod, what: BenchmarkType, a: seq<Record>, b: seq<Record>, key: int)
    ensures WithKey(how, what, a + b, key) == WithKey(how, what, a, key) + WithKey(how, what, b, key)
  {
    if b == [] {
      assert a + b == a;
    } else {
      assert (a + b)[..|a| + |b| - 1] == a + b[..|b| - 1];
      WithKeySplit(how, what, a, b[..|b| - 1], key);
    }
  }

  lemma {:induction false} GreaterSplit(how: SortMethod, what: BenchmarkType, a: seq<Record>, b: seq<Record>, key: int)
    ensures Greater(how, what, a + b, key) == Greater(how, what, a, key) + Greater(how, what, b, key)
  {
    if b == [] {
      assert a + b == a;
    } else {
      assert (a + b)[..|a| + |b| - 1] == a + b[..|b| - 1];
      GreaterSplit(how, what, a, b[..|b| - 1], key);
    }
  }

  /** What one more record at the end adds. */
  lemma OneMore(how: SortMethod, what: BenchmarkType, s: seq<Record>, x: Record, key: int)
    ensures WithKey(how, what, s + [x], key)
         == WithKey(how, what, s, key) + (if Key(how, what, x) == key then [x] else [])
    ensures Greater(how, what, s + [x], key) == Greater(how, what, s, key) + (if Key(how, what, x) > key then 1 else 0)
    ensures Inversions(how, what, s + [x]) == Inversions(how, what, s) + Greater(how, what, s, Key(how, what, x))
  {
    assert (s + [x])[..|s|] == s;
  }

  lemma SwapKeepsWithKey(how: SortMethod, what: BenchmarkType, a: seq<Record>, x: Record, y: Record, b: seq<Record>,
                         key: int)
    requires Key(how, what, x) != key || Key(how, what, y) != key
    ensures WithKey(how, what, a + [x, y] + b, key) == WithKey(how, what, a + [y, x] + b, key)
  {
    hide WithKey, Key;
    WithKeySplit(how, what, a + [x, y], b, key);
    WithKeySplit(how, what, a + [y, x], b, key);
    WithKeyOfTwo(how, what, a, x, y, key);
    WithKeyOfTwo(how, what, a, y, x, key);
  }

  lemma WithKeyOfTwo(how: SortMethod, what: BenchmarkType, a: seq<Record>, x: Record, y: Record, key: int)
    requires Key(how, what, x) != key || Key(how, what, y) != key
    ensures WithKey(how, what, a + [x, y], key)
         == WithKey(how, what, a, key)
            + (if Key(how, what, x) == key then [x] else if Key(how, what, y) == key then [y] else [])
  {
    hide WithKey, Key;
    assert a + [x, y] == a + [x] + [y];
    OneMore(how, what, a, x, key);
    OneMore(how, what, a + [x], y, key);
    var w := WithKey(how, what, a, key);
    assert w + [] == w && w + [] + [] == w && w + [x] + [] == w + [x] && w + [] + [y] == w + [y];
  }

  /** Swapping two neighbours with different keys keeps the order of equal keys. */
  lemma SwapIsStable(how: SortMethod, what: BenchmarkType, a: seq<Record>, x: Record, y: Record, b: seq<Record>)
    requires Key(how, what, x) != Key(how, what, y)
    ensures StablePermutation(how, what, a + [x, y] + b, a + [y, x] + b)
  {
    forall key
      ensures WithKey(how, what, a + [x, y] + b, key) == WithKey(how, what, a + [y, x] + b, key)
    {
      SwapKeepsWithKey(how, what, a, x, y, b, key);
    }
  }

  /** Swapping two neighbours that stand the wrong way round removes exactly one inversion. */
  lemma {:induction false} SwapRemovesInversion(how: SortMethod, what: BenchmarkType, a: seq<Record>, x: Record,
                                                y: Record, b: seq<Record>)
    requires Key(how, what, x) > Key(how, what, y)
    ensures Inversions(how, what, a + [x, y] + b) == Inversions(how, what, a + [y, x] + b) + 1
    decreases |b|
  {
    hide Inversions, Greater, Key;
    assert a + [x, y] == a + [x] + [y] && a + [y, x] == a + [y] + [x];
    if b == [] {
      assert a + [x, y] + b == a + [x, y] && a + [y, x] + b == a + [y, x];
      OneMore(how, what, a, x, Key(how, what, y));
      OneMore(how, what, a + [x], y, 0);
      OneMore(how, what, a, y, Key(how, what, x));
      OneMore(how, what, a + [y], x, 0);
    } else {
      var n := |b| - 1;
      var s, t := a + [x, y] + b[..n], a + [y, x] + b[..n];
      assert a + [x, y] + b == s + [b[n]] && a + [y, x] + b == t + [b[n]];
      SwapRemovesInversion(how, what, a, x, y, b[..n]);
      OneMore(how, what, s, b[n], 0);
      OneMore(how, what, t, b[n], 0);
      SwapKeepsGreater(how, what, a, x, y, b[..n], Key(how, what, b[n]));
    }
  }

  lemma SwapKeepsGreater(how: SortMethod, what: BenchmarkType, a: seq<Record>, x: Record, y: Record, b: seq<Record>,
                         key: int)
    ensures Greater(how, what, a + [x, y] + b, key) == Greater(how, what, a + [y, x] + b, key)
  {
    hide Greater;
    assert a + [x, y] == a + [x] + [y] && a + [y, x] == a + [y] + [x];
    GreaterSplit(how, what, a + [x, y], b, key);
    GreaterSplit(how, what, a + [y, x], b, key);
    OneMore(how, what, a, x, key);
    OneMore(how, what, a + [x], y, key);
    OneMore(how, what, a, y, key);
    OneMore(how, what, a + [y], x, key);
  }

  /** Neighbours in order are everything in order. */
  lemma {:induction false} NeighboursSuffice(how: SortMethod, what: BenchmarkType, s: seq<Record>)
    requires forall i | 0 <= i < |s| - 1 :: Key(how, what, s[i]) <= Key(how, what, s[i + 1])
    ensures Sorted(how, what, s)
  {
    if |s| > 1 {
      var n := |s| - 1;
      NeighboursSuffice(how, what, s[..n]);
      assert Key(how, what, s[n - 1]) <= Key(how, what, s[n - 1 + 1]);
      forall i | 0 <= i < n
        ensures Key(how, what, s[i]) <= Key(how, what, s[n])
      {
        assert i < n - 1 ==> Key(how, what, s[..n][i]) <= Key(how, what, s[..n][n - 1]);
      }
    }
  }

  lemma {:induction false} SomeWithKey(how: SortMethod, what: BenchmarkType, s: seq<Record>, key: int) returns (i: nat)
    requires WithKey(how, what, s, key) != []
    ensures i < |s| && Key(how, what, s[i]) == key
  {
    var n := |s| - 1;
    if Key(how, what, s[n]) == key {
      i := n;
    } else {
      i := SomeWithKey(how, what, s[..n], key);
    }
  }

  lemma SameWithoutLast(a: seq<Record>, b: seq<Record>, x: Record)
    requires a + [x] == b + [x]
    ensures a == b
  {
    assert (a + [x])[..|a|] == a && (b + [x])[..|b|] == b;
  }

  lemma LastIsGreatest(how: SortMethod, what: BenchmarkType, s: seq<Record>, x: Record, key: int)
    requires Sorted(how, what, s + [x]) && WithKey(how, what, s + [x], key) != []
    ensures key <= Key(how, what, x)
  {
    var i := SomeWithKey(how, what, s + [x], key);
    assert (s + [x])[|s|] == x;
  }

  lemma LastWithKey(how: SortMethod, what: BenchmarkType, s: seq<Record>, x: Record) returns (w: seq<Record>)
    ensures w == WithKey(how, what, s + [x], Key(how, what, x)) && w != [] && w[|w| - 1] == x
  {
    OneMore(how, what, s, x, Key(how, what, x));
    w := WithKey(how, what, s + [x], Key(how, what, x));
  }

  /** Two sorted arrangements end with the same record. */
  lemma SameLast(how: SortMethod, what: BenchmarkType, s: seq<Record>, x: Record, t: seq<Record>, y: Record)
    requires Sorted(how, what, s + [x]) && Sorted(how, what, t + [y]) && StablePermutation(how, what, s + [x], t + [y])
    ensures x == y
  {
    hide WithKey, Key, Sorted;
    var v := LastWithKey(how, what, s, x);
    var w := LastWithKey(how, what, t, y);
    LastIsGreatest(how, what, s, x, Key(how, what, y));
    LastIsGreatest(how, what, t, y, Key(how, what, x));
  }

  /** There is only one stable sorted arrangement of a table. */
  lemma {:induction false} StableSortUnique(how: SortMethod, what: BenchmarkType, s: seq<Record>, t: seq<Record>)
    requires Sorted(how, what, s) && Sorted(how, what, t) && StablePermutation(how, what, s, t)
    ensures s == t
  {
    hide WithKey, Key;
    if s != [] {
      var n := |s| - 1;
      var x := s[n];
      assert s == s[..n] + [x] && t == t[..n] + [t[n]];
      SameLast(how, what, s[..n], x, t[..n], t[n]);
      forall k
        ensures WithKey(how, what, s[..n], k) == WithKey(how, what, t[..n], k)
      {
        OneMore(how, what, s[..n], x, k);
        OneMore(how, what, t[..n], x, k);
        if Key(how, what, x) == k {
          SameWithoutLast(WithKey(how, what, s[..n], k), WithKey(how, what, t[..n], k), x);
        } else {
          assert WithKey(how, what, s[..n], k) + [] == WithKey(how, what, s[..n], k);
          assert WithKey(how, what, t[..n], k) + [] == WithKey(how, what, t[..n], k);
        }
      }
      StableSortUnique(how, what, s[..n], t[..n]);
    }
  }

  lemma {:induction false} CountWithKey(how: SortMethod, what: BenchmarkType, s: seq<Record>, r: Record)
    ensures multiset(s)[r] == multiset(WithKey(how, what, s, Key(how, what, r)))[r]
  {
    hide Key;
    var key := Key(how, what, r);
    if s != [] {
      var n := |s| - 1;
      CountWithKey(how, what, s[..n], r);
      assert s == s[..n] + [s[n]];
      OneMore(how, what, s[..n], s[n], key);
    }
  }

  lemma StableIsPermutation(how: SortMethod, what: BenchmarkType, s: seq<Record>, t: seq<Record>)
    requires StablePermutation(how, what, s, t)
    ensures multiset(s) == multiset(t)
  {
    forall r: Record
      ensures multiset(s)[r] == multiset(t)[r]
    {
      CountWithKey(how, what, s, r);
      CountWithKey(how, what, t, r);
    }
  }

  // -------------------------------------------------------------------------
  // The sort
  // -------------------------------------------------------------------------

  /** The test under which two neighbours are swapped. */
  predicate OutOfOrder(how: SortMethod, what: BenchmarkType, x: Record, y: Record) {
    match how
    case BySpeed =>
      || (what == Prf && x.meanBytesPerSec > y.meanBytesPerSec)
      || (what != Prf && x.meanBytesPerSec < y.meanBytesPerSec)
    case ByName => x.id > y.id
  }

  lemma SwapAt(how: SortMethod, what: BenchmarkType, s: seq<Record>, i: nat)
    requires i + 1 < |s| && OutOfOrder(how, what, s[i], s[i + 1])
    ensures StablePermutation(how, what, s, s[i := s[i + 1]][i + 1 := s[i]])
    ensures Inversions(how, what, s[i := s[i + 1]][i + 1 := s[i]]) < Inversions(how, what, s)
  {
    var a, b := s[..i], s[i + 2..];
    SwapIsStable(how, what, a, s[i], s[i + 1], b);
    SwapRemovesInversion(how, what, a, s[i], s[i + 1], b);
    assert s == a + [s[i], s[i + 1]] + b;
    assert s[i := s[i + 1]][i + 1 := s[i]] == a + [s[i + 1], s[i]] + b;
  }

  /** Terminates on every table, because each swap removes an inversion, with the one stable sorted arrangement. */
  method SortBenchmarkTable(how: SortMethod, what: BenchmarkType, table: array<Record>, totalItems: nat)
    requires totalItems <= table.Length
    modifies table
    ensures Sorted(how, what, table[..totalItems])
    ensures StablePermutation(how, what, old(table[..totalItems]), table[..totalItems])
    ensures table[totalItems..] == old(table[totalItems..])
  {
    hide Inversions, WithKey;
    var unsorted := true;
    while unsorted
      invariant StablePermutation(how, what, old(table[..totalItems]), table[..totalItems])
      invariant table[totalItems..] == old(table[totalItems..])
      invariant !unsorted ==> Sorted(how, what, table[..totalItems])
      decreases Inversions(how, what, table[..totalItems]), unsorted
    {
      unsorted := false;
      ghost var start := table[..totalItems];
      var i := 0;
      while i < totalItems - 1
        invariant 0 <= i && (i < totalItems || i == 0)
        invariant StablePermutation(how, what, old(table[..totalItems]), table[..totalItems])
        invariant table[totalItems..] == old(table[totalItems..])
        invariant if unsorted then Inversions(how, what, table[..totalItems]) < Inversions(how, what, start)
                  else table[..totalItems] == start
        invariant !unsorted ==> forall k | 0 <= k < i :: !OutOfOrder(how, what, start[k], start[k + 1])
      {
        if OutOfOrder(how, what, table[i], table[i + 1]) {
          unsorted := true;
          ghost var before := table[..totalItems];
          SwapAt(how, what, before, i);
          var tmp := table[i];
          table[i] := table[i + 1];
          table[i + 1] := tmp;
          assert table[..totalItems] == before[i := before[i + 1]][i + 1 := before[i]];
        }
        i := i + 1;
      }
      if !unsorted {
        NeighboursSuffice(how, what, start);
      }
    }
  }

  lemma KeyMeans(what: BenchmarkType, r: Record)
    ensures Key(BySpeed, Prf, r) == r.meanBytesPerSec && Key(ByName, what, r) == r.id
    ensures what != Prf ==> Key(BySpeed, what, r) == -r.meanBytesPerSec
  {
  }

  /** What sorted means: times and ids ascend, speeds descend. */
  lemma SortedMeans(what: BenchmarkType, s: seq<Record>)
    ensures Sorted(BySpeed, Prf, s) <==> forall i, j | 0 <= i < j < |s| :: s[i].meanBytesPerSec <= s[j].meanBytesPerSec
    ensures what != Prf ==>
              (Sorted(BySpeed, what, s)
               <==> forall i, j | 0 <= i < j < |s| :: s[i].meanBytesPerSec >= s[j].meanBytesPerSec)
    ensures Sorted(ByName, what, s) <==> forall i, j | 0 <= i < j < |s| :: s[i].id <= s[j].id
  {
    hide Key;
    forall r: Record
      ensures Key(BySpeed, Prf, r) == r.meanBytesPerSec && Key(ByName, what, r) == r.id
      ensures what != Prf ==> Key(BySpeed, what, r) == -r.meanBytesPerSec
    {
      KeyMeans(what, r);
    }
  }
}
