/**
 * freqcount (odin/stats.py): counts items by an extracted key, without
 * normalisation. Keys are integers so that they can be sorted; the key
 * extractor and a per-item count are total functions supplied by the caller.
 */
module Stats {

  /** The `count` argument: None, a number (truncated by int()), or a callable. */
  datatype Count<-T> = NoCount | Number(x: real) | PerItem(f: T -> int)

  /** A frequency table entry: key and summed count. */
  type Pair = (int, int)

  /** int() of a number: truncation toward zero. */
  function Truncate(x: real): (r: int)
    ensures 0.0 <= x ==> r as real <= x < r as real + 1.0
    ensures x < 0.0 ==> r as real - 1.0 < x <= r as real
  {
    if 0.0 <= x then x.Floor else -((-x).Floor)
  }

  /** count(i) for one item: None counts 1, a number counts int(number), a callable is applied. */
  function CountOf<T>(count: Count<T>, item: T): int
  {
    match count
    case NoCount => 1
    case Number(x) => Truncate(x)
    case PerItem(f) => f(item)
  }

  // ---------------------------------------------------------------- specification

  /** The sum of the counts of the items of x whose key is k. */
  function SumWhere<T>(x: seq<T>, key: T -> int, count: Count<T>, k: int): int
  {
    if x == [] then 0
    else
      var n := |x| - 1;
      SumWhere(x[..n], key, count, k) + (if key(x[n]) == k then CountOf(count, x[n]) else 0)
  }

  /** The sum of the counts of all items of x. */
  function Total<T>(x: seq<T>, count: Count<T>): int
  {
    if x == [] then 0 else Total(x[..|x| - 1], count) + CountOf(count, x[|x| - 1])
  }

  /** The keys that occur in x. */
  ghost function KeysOf<T>(x: seq<T>, key: T -> int): set<int>
  {
    set i | 0 <= i < |x| :: key(x[i])
  }

  /** The defaultdict after the loop has seen the items of x. */
  function Tally<T>(x: seq<T>, key: T -> int, count: Count<T>): map<int, int>
  {
    if x == [] then map[]
    else
      var n := |x| - 1;
      var t := Tally(x[..n], key, count);
      var k := key(x[n]);
      t[k := (if k in t then t[k] else 0) + CountOf(count, x[n])]
  }

  predicate Increasing(s: seq<int>)
  {
    forall i, j :: 0 <= i < j < |s| ==> s[i] < s[j]
  }

  function Keys(ps: seq<Pair>): (r: seq<int>)
    ensures |r| == |ps| && forall i :: 0 <= i < |ps| ==> r[i] == ps[i].0
  {
    seq(|ps|, i requires 0 <= i < |ps| => ps[i].0)
  }

  function SumValues(ps: seq<Pair>): int
  {
    if ps == [] then 0 else SumValues(ps[..|ps| - 1]) + ps[|ps| - 1].1
  }

  /** Every entry holds the summed count of its key. */
  ghost predicate Counts<T>(r: seq<Pair>, x: seq<T>, key: T -> int, count: Count<T>)
  {
    forall p :: p in r ==> p.1 == SumWhere(x, key, count, p.0)
  }

  // ---------------------------------------------------------------- the loop

  /**
   * freqcount(x, key, count, normalize=False, sort): one entry per distinct
   * key, in ascending key order, holding the summed counts of that key's
   * items; with sort, the same entries ordered by value, ties by key.
   * The keys of the dictionary are collected, in the order they are first
   * seen, in `seen`, which stands for freq.keys().
   */
  method FreqCount<T>(x: seq<T>, key: T -> int, count: Count<T>, sort: bool) returns (r: seq<Pair>)
    ensures forall i, j :: 0 <= i < j < |r| ==> r[i].0 != r[j].0
    ensures !sort ==> Increasing(Keys(r))
    ensures sort ==> ByValueThenKey(r)
    ensures forall k :: k in Keys(r) <==> k in KeysOf(x, key)
    ensures Counts(r, x, key, count)
    ensures SumValues(r) == Total(x, count)
    ensures x == [] ==> r == []
  {
    var freq: map<int, int> := map[];
    var seen: seq<int> := [];
    for i := 0 to |x|
      invariant freq == Tally(x[..i], key, count)
      invariant forall k :: k in seen <==> k in freq
    {
      assert x[..i + 1][..i] == x[..i];
      var c := CountOf(count, x[i]);
      var k := key(x[i]);
      if k !in freq {
        seen := seen + [k];
      }
      freq := freq[k := (if k in freq then freq[k] else 0) + c];
    }
    assert x[..|x|] == x;
    AscendingSpec(seen);
    var ks := Ascending(seen);
    forall i | 0 <= i < |ks| ensures ks[i] in freq {
      assert ks[i] in ks;
    }
    r := Table(freq, ks);
    TableFacts(x, key, count, ks);
    if sort {
      SortedTableFacts(r, x, key, count);
      r := SortByValue(r);
    }
  }

  /** The entries (k, freq[k]) for the keys ks, in that order. */
  function Table(freq: map<int, int>, ks: seq<int>): (r: seq<Pair>)
    requires forall i :: 0 <= i < |ks| ==> ks[i] in freq
    ensures |r| == |ks| && forall i :: 0 <= i < |ks| ==> r[i] == (ks[i], freq[ks[i]])
  {
    seq(|ks|, i requires 0 <= i < |ks| => (ks[i], freq[ks[i]]))
  }

  /** The table built from ascending keys of the tally is the frequency table of x. */
  lemma TableFacts<T>(x: seq<T>, key: T -> int, count: Count<T>, ks: seq<int>)
    requires Increasing(ks)
    requires forall i :: 0 <= i < |ks| ==> ks[i] in Tally(x, key, count)
    requires forall k :: k in Tally(x, key, count) ==> k in ks
    ensures var r := Table(Tally(x, key, count), ks);
      Keys(r) == ks
      && (forall k :: k in Keys(r) <==> k in KeysOf(x, key))
      && Counts(r, x, key, count)
      && SumValues(r) == Total(x, count)
      && (x == [] ==> r == [])
  {
    var r := Table(Tally(x, key, count), ks);
    TallyKeys(x, key, count);
    TallySums(x, key, count);
    assert Keys(r) == ks;
    TotalBySortedKeys(x, key, count, ks);
    SumValuesOfTable(r, x, key, count);
    if x == [] {
      assert ks == [] by {
        if ks != [] {
          assert false;
        }
      }
    }
  }

  /** Sorting the table by value keeps its entries, their sum and their keys, and is stable. */
  lemma SortedTableFacts<T>(r: seq<Pair>, x: seq<T>, key: T -> int, count: Count<T>)
    requires Increasing(Keys(r))
    requires Counts(r, x, key, count)
    ensures var s := SortByValue(r);
      ByValueThenKey(s)
      && Counts(s, x, key, count)
      && (forall k :: k in Keys(s) <==> k in Keys(r))
      && SumValues(s) == SumValues(r)
      && (forall i, j :: 0 <= i < j < |s| ==> s[i].0 != s[j].0)
      && (r == [] ==> s == [])
  {
    var s := SortByValue(r);
    SortByValuePermutes(r);
    ValueSortIsStable(r);
    SumValuesPermutation(s, r);
    KeysOfPermutation(s, r);
    forall p | p in s ensures p in r {
      assert p in multiset(s);
    }
    forall i, j | 0 <= i < j < |s| ensures s[i].0 != s[j].0 {
      assert s[i] in s && s[j] in s;
    }
  }

  // ---------------------------------------------------------------- sorted keys

  /** sorted(keys): insertion of each key into an ascending sequence. */
  function Ascending(ks: seq<int>): seq<int>
  {
    if ks == [] then [] else InsertKey(Ascending(ks[..|ks| - 1]), ks[|ks| - 1])
  }

  function InsertKey(s: seq<int>, k: int): seq<int>
  {
    if s == [] then [k]
    else if k < s[0] then [k] + s
    else if k == s[0] then s
    else [s[0]] + InsertKey(s[1..], k)
  }

  lemma {:induction false} InsertKeySpec(s: seq<int>, k: int)
    requires Increasing(s)
    ensures Increasing(InsertKey(s, k))
    ensures forall j :: j in InsertKey(s, k) <==> j in s || j == k
  {
    if s != [] && k > s[0] {
      assert Increasing(s[1..]);
      InsertKeySpec(s[1..], k);
      var t := InsertKey(s[1..], k);
      assert forall j :: j in s <==> j == s[0] || j in s[1..];
      forall i | 0 <= i < |t| ensures s[0] < t[i] {
        assert t[i] in t;
      }
    }
  }

  /** The keys come out strictly ascending, and they are exactly the given keys. */
  lemma {:induction false} AscendingSpec(ks: seq<int>)
    ensures Increasing(Ascending(ks))
    ensures forall j :: j in Ascending(ks) <==> j in ks
  {
    if ks != [] {
      var n := |ks| - 1;
      AscendingSpec(ks[..n]);
      InsertKeySpec(Ascending(ks[..n]), ks[n]);
      assert forall j :: j in ks <==> j in ks[..n] || j == ks[n] by {
        assert ks == ks[..n] + [ks[n]];
      }
    }
  }

  // ---------------------------------------------------------------- the table

  /** The table has exactly the keys that occur in x. */
  lemma {:induction false} TallyKeys<T>(x: seq<T>, key: T -> int, count: Count<T>)
    ensures forall k :: k in Tally(x, key, count) <==> k in KeysOf(x, key)
  {
    if x != [] {
      var n := |x| - 1;
      TallyKeys(x[..n], key, count);
      assert KeysOf(x, key) == KeysOf(x[..n], key) + {key(x[n])} by {
        forall k | k in KeysOf(x, key) ensures k in KeysOf(x[..n], key) + {key(x[n])} {
          var i :| 0 <= i < |x| && key(x[i]) == k;
          if i < n {
            assert x[..n][i] == x[i];
          }
        }
        forall k | k in KeysOf(x[..n], key) ensures k in KeysOf(x, key) {
          var i :| 0 <= i < n && key(x[..n][i]) == k;
          assert x[i] == x[..n][i];
        }
      }
    }
  }

  /** Each key's entry is the sum of the counts of the items with that key. */
  lemma {:induction false} TallySums<T>(x: seq<T>, key: T -> int, count: Count<T>)
    ensures forall k :: k in Tally(x, key, count) ==> Tally(x, key, count)[k] == SumWhere(x, key, count, k)
  {
    if x != [] {
      var n := |x| - 1;
      TallySums(x[..n], key, count);
      TallyKeys(x[..n], key, count);
      forall k | k !in Tally(x[..n], key, count) ensures SumWhere(x[..n], key, count, k) == 0 {
        SumWhereAbsent(x[..n], key, count, k);
      }
    }
  }

  /** A key that does not occur sums to 0. */
  lemma {:induction false} SumWhereAbsent<T>(x: seq<T>, key: T -> int, count: Count<T>, k: int)
    requires k !in KeysOf(x, key)
    ensures SumWhere(x, key, count, k) == 0
  {
    if x != [] {
      var n := |x| - 1;
      assert KeysOf(x[..n], key) <= KeysOf(x, key) by {
        forall j | j in KeysOf(x[..n], key) ensures j in KeysOf(x, key) {
          var i :| 0 <= i < n && key(x[..n][i]) == j;
          assert x[i] == x[..n][i];
        }
      }
      assert key(x[n]) in KeysOf(x, key);
      SumWhereAbsent(x[..n], key, count, k);
    }
  }

  /** The sum over distinct keys that include every key of x of the per-key sums is the total count. */
  lemma {:induction false} TotalBySortedKeys<T>(x: seq<T>, key: T -> int, count: Count<T>, ks: seq<int>)
    requires Increasing(ks)
    requires forall k :: k in KeysOf(x, key) ==> k in ks
    ensures SumOfSums(x, key, count, ks) == Total(x, count)
  {
    if x == [] {
      SumOfSumsEmpty(x, key, count, ks);
    } else {
      var n := |x| - 1;
      assert forall k :: k in KeysOf(x[..n], key) ==> k in ks by {
        forall j | j in KeysOf(x[..n], key) ensures j in ks {
          var i :| 0 <= i < n && key(x[..n][i]) == j;
          assert x[i] == x[..n][i];
        }
      }
      TotalBySortedKeys(x[..n], key, count, ks);
      assert key(x[n]) in KeysOf(x, key);
      SumOfSumsStep(x, key, count, ks);
    }
  }

  /** Σ over ks of SumWhere(x, _, k). */
  function SumOfSums<T>(x: seq<T>, key: T -> int, count: Count<T>, ks: seq<int>): int
  {
    if ks == [] then 0 else SumOfSums(x, key, count, ks[..|ks| - 1]) + SumWhere(x, key, count, ks[|ks| - 1])
  }

  lemma {:induction false} SumOfSumsEmpty<T>(x: seq<T>, key: T -> int, count: Count<T>, ks: seq<int>)
    requires x == []
    ensures SumOfSums(x, key, count, ks) == 0
  {
    if ks != [] {
      SumOfSumsEmpty(x, key, count, ks[..|ks| - 1]);
    }
  }

  /** Adding the last item adds its count once: its key occurs exactly once in ks. */
  lemma {:induction false} SumOfSumsStep<T>(x: seq<T>, key: T -> int, count: Count<T>, ks: seq<int>)
    requires x != [] && Increasing(ks)
    ensures var n := |x| - 1;
      SumOfSums(x, key, count, ks)
        == SumOfSums(x[..n], key, count, ks) + (if key(x[n]) in ks then CountOf(count, x[n]) else 0)
  {
    if ks != [] {
      var m := |ks| - 1;
      assert Increasing(ks[..m]);
      SumOfSumsStep(x, key, count, ks[..m]);
      assert key(x[|x| - 1]) in ks <==> key(x[|x| - 1]) in ks[..m] || key(x[|x| - 1]) == ks[m];
    }
  }

  lemma {:induction false} SumValuesOfTable<T>(r: seq<Pair>, x: seq<T>, key: T -> int, count: Count<T>)
    requires forall i :: 0 <= i < |r| ==> r[i].1 == SumWhere(x, key, count, r[i].0)
    ensures SumValues(r) == SumOfSums(x, key, count, Keys(r))
  {
    if r != [] {
      var n := |r| - 1;
      assert Keys(r)[..n] == Keys(r[..n]);
      SumValuesOfTable(r[..n], x, key, count);
    }
  }

  // ---------------------------------------------------------------- sorting by value

  /** a comes before b: a smaller value, or the same value and a smaller key. */
  predicate Before(a: Pair, b: Pair)
  {
    a.1 < b.1 || (a.1 == b.1 && a.0 < b.0)
  }

  /** Sorted by value, and by key among equal values. */
  predicate ByValueThenKey(ps: seq<Pair>)
  {
    forall i, j :: 0 <= i < j < |ps| ==> Before(ps[i], ps[j])
  }

  /** sorted(items, key=lambda x: x[1]): a stable insertion sort by value. */
  function SortByValue(ps: seq<Pair>): seq<Pair>
  {
    if ps == [] then [] else InsertByValue(SortByValue(ps[..|ps| - 1]), ps[|ps| - 1])
  }

  /** Places p after every leading entry whose value is at most p's. */
  function InsertByValue(s: seq<Pair>, p: Pair): seq<Pair>
  {
    if s == [] || p.1 < s[0].1 then [p] + s
    else [s[0]] + InsertByValue(s[1..], p)
  }

  predicate ByValue(s: seq<Pair>)
  {
    forall i, j :: 0 <= i < j < |s| ==> s[i].1 <= s[j].1
  }

  lemma {:induction false} InsertByValuePermutes(s: seq<Pair>, p: Pair)
    ensures multiset(InsertByValue(s, p)) == multiset(s) + multiset{p}
  {
    if s != [] && p.1 >= s[0].1 {
      InsertByValuePermutes(s[1..], p);
      assert s == [s[0]] + s[1..];
    }
  }

  lemma {:induction false} InsertByValueOrdered(s: seq<Pair>, p: Pair)
    requires ByValue(s)
    ensures ByValue(InsertByValue(s, p))
  {
    if s == [] || p.1 < s[0].1 {
      assert forall q :: q in s ==> p.1 <= q.1;
      ConsByValue(p, s);
    } else {
      var rest := s[1..];
      assert ByValue(rest) by {
        forall i, j | 0 <= i < j < |rest| ensures rest[i].1 <= rest[j].1 {
          assert rest[i] == s[i + 1] && rest[j] == s[j + 1];
        }
      }
      InsertByValueOrdered(rest, p);
      var t := InsertByValue(rest, p);
      InsertByValuePermutes(rest, p);
      forall q | q in t ensures s[0].1 <= q.1 {
        assert q in multiset(t);
        if q != p {
          var j :| 0 <= j < |rest| && rest[j] == q;
          assert s[j + 1] == q;
        }
      }
      ConsByValue(s[0], t);
    }
  }

  lemma ConsByValue(a: Pair, t: seq<Pair>)
    requires ByValue(t)
    requires forall q :: q in t ==> a.1 <= q.1
    ensures ByValue([a] + t)
  {
    var r := [a] + t;
    forall i, j | 0 <= i < j < |r| ensures r[i].1 <= r[j].1 {
      assert r[j] == t[j - 1];
      if i > 0 {
        assert r[i] == t[i - 1];
      }
    }
  }

  /** The sort returns a permutation of its input, ordered by value. */
  lemma {:induction false} SortByValuePermutes(ps: seq<Pair>)
    ensures multiset(SortByValue(ps)) == multiset(ps)
    ensures ByValue(SortByValue(ps))
  {
    if ps != [] {
      var n := |ps| - 1;
      SortByValuePermutes(ps[..n]);
      InsertByValuePermutes(SortByValue(ps[..n]), ps[n]);
      InsertByValueOrdered(SortByValue(ps[..n]), ps[n]);
      assert ps == ps[..n] + [ps[n]];
    }
  }

  /** The sort is stable: entries given in ascending key order end up by value, then by key. */
  lemma {:induction false} ValueSortIsStable(ps: seq<Pair>)
    requires Increasing(Keys(ps))
    ensures ByValueThenKey(SortByValue(ps))
  {
    if ps != [] {
      var n := |ps| - 1;
      assert Keys(ps[..n]) == Keys(ps)[..n];
      ValueSortIsStable(ps[..n]);
      var s := SortByValue(ps[..n]);
      SortByValuePermutes(ps[..n]);
      forall q | q in s ensures q.0 < ps[n].0 {
        assert q in multiset(ps[..n]);
        var i :| 0 <= i < n && ps[..n][i] == q;
        assert Keys(ps)[i] < Keys(ps)[n];
      }
      InsertStable(s, ps[n]);
    }
  }

  lemma {:induction false} InsertStable(s: seq<Pair>, p: Pair)
    requires ByValueThenKey(s)
    requires forall q :: q in s ==> q.0 < p.0
    ensures ByValueThenKey(InsertByValue(s, p))
  {
    if s == [] || p.1 < s[0].1 {
      forall q | q in s ensures Before(p, q) {
        var j :| 0 <= j < |s| && s[j] == q;
        assert Before(s[0], s[j]) || j == 0;
      }
      ConsOrdered(p, s);
    } else {
      var rest := s[1..];
      assert ByValueThenKey(rest) by {
        forall i, j | 0 <= i < j < |rest| ensures Before(rest[i], rest[j]) {
          assert rest[i] == s[i + 1] && rest[j] == s[j + 1];
        }
      }
      forall q | q in rest ensures q.0 < p.0 {
        var j :| 0 <= j < |rest| && rest[j] == q;
        assert s[j + 1] == q;
      }
      InsertStable(rest, p);
      var t := InsertByValue(rest, p);
      InsertByValuePermutes(rest, p);
      forall q | q in t ensures Before(s[0], q) {
        assert q in multiset(t);
        if q != p {
          var j :| 0 <= j < |rest| && rest[j] == q;
          assert s[j + 1] == q;
        }
      }
      ConsOrdered(s[0], t);
    }
  }

  lemma ConsOrdered(a: Pair, t: seq<Pair>)
    requires ByValueThenKey(t)
    requires forall q :: q in t ==> Before(a, q)
    ensures ByValueThenKey([a] + t)
  {
    var r := [a] + t;
    forall i, j | 0 <= i < j < |r| ensures Before(r[i], r[j]) {
      assert r[j] == t[j - 1];
      if i > 0 {
        assert r[i] == t[i - 1];
      }
    }
  }

  lemma {:induction false} SumValuesPermutation(a: seq<Pair>, b: seq<Pair>)
    requires multiset(a) == multiset(b)
    ensures SumValues(a) == SumValues(b)
  {
    if a != [] {
      var n := |a| - 1;
      var p := a[n];
      assert p in multiset(b);
      var j :| 0 <= j < |b| && b[j] == p;
      var b' := b[..j] + b[j + 1..];
      assert b == b[..j] + [p] + b[j + 1..];
      assert a == a[..n] + [p];
      assert multiset(a[..n]) == multiset(a) - multiset{p};
      assert multiset(b') == multiset(b) - multiset{p};
      SumValuesPermutation(a[..n], b');
      SumValuesRemove(b, j);
    }
  }

  lemma {:induction false} SumValuesRemove(b: seq<Pair>, j: nat)
    requires j < |b|
    ensures SumValues(b) == SumValues(b[..j] + b[j + 1..]) + b[j].1
  {
    var n := |b| - 1;
    if j < n {
      var c := b[..j] + b[j + 1..];
      assert c[..|c| - 1] == b[..n][..j] + b[..n][j + 1..];
      SumValuesRemove(b[..n], j);
    } else {
      assert b[..j] + b[j + 1..] == b[..n];
    }
  }

  lemma KeysOfPermutation(a: seq<Pair>, b: seq<Pair>)
    requires multiset(a) == multiset(b)
    ensures forall k :: k in Keys(a) <==> k in Keys(b)
  {
    forall k | k in Keys(a) ensures k in Keys(b) {
      var i :| 0 <= i < |a| && Keys(a)[i] == k;
      assert a[i] in multiset(b);
      var j :| 0 <= j < |b| && b[j] == a[i];
      assert Keys(b)[j] == k;
    }
    forall k | k in Keys(b) ensures k in Keys(a) {
      var i :| 0 <= i < |b| && Keys(b)[i] == k;
      assert b[i] in multiset(a);
      var j :| 0 <= j < |a| && a[j] == b[i];
      assert Keys(a)[j] == k;
    }
  }
}
