/**
 * Frequency analysis (`count_bigrams`, cp3.py:57-63, and the letter ranking
 * of `sensible`, cp3.py:119): windows over a text, a `Counter` tally in
 * first-occurrence order, and Python's stable `sorted(..., reverse=True,
 * key=count)`.
 */
module FrequencyAnalysis {
  import opened SeqUtil

  /** A `Counter` item: a key and how often it occurs. */
  datatype Entry<T> = Entry(key: T, count: nat)

  /** The keys of a ranking, in order (`list(dict)`). */
  function Keys<T>(t: seq<Entry<T>>): (r: seq<T>)
    ensures |r| == |t| && forall i :: 0 <= i < |t| ==> r[i] == t[i].key
  {
    if t == [] then [] else [t[0].key] + Keys(t[1..])
  }

  /** The sum of all counts. */
  function Total<T>(t: seq<Entry<T>>): nat
  {
    if t == [] then 0 else t[0].count + Total(t[1..])
  }

  // ---------------------------------------------------------------------
  // Windows: [text[s:s + 2] for s in range(start, len(text) - 1, step)]

  function WindowsFrom(text: string, start: nat, step: nat): seq<string>
    requires step > 0
    decreases |text| - start
  {
    if start + 1 >= |text| then []
    else [text[start..start + 2]] + WindowsFrom(text, start + step, step)
  }

  /** The digram windows of `count_bigrams` with the given step. */
  function Windows(text: string, step: nat): seq<string>
    requires step > 0
  {
    WindowsFrom(text, 0, step)
  }

  lemma {:induction false} WindowsFromLength(text: string, start: nat, step: nat)
    requires step == 1 || step == 2
    ensures |WindowsFrom(text, start, step)| ==
      (if start + 2 > |text| then 0 else (|text| - 2 - start) / step + 1)
    decreases |text| - start
  {
    if start + 1 < |text| {
      WindowsFromLength(text, start + step, step);
      if step == 1 {
        assert (|text| - 2 - start) / 1 == (|text| - 2 - (start + 1)) / 1 + 1;
      } else {
        assert start + 2 + 2 > |text| ==> (|text| - 2 - start) / 2 == 0;
        assert start + 2 + 2 <= |text| ==>
          (|text| - 2 - start) / 2 == (|text| - 2 - (start + 2)) / 2 + 1;
      }
    }
  }

  lemma {:induction false} WindowsFromAt(text: string, start: nat, step: nat)
    requires step == 1 || step == 2
    ensures forall k :: 0 <= k < |WindowsFrom(text, start, step)| ==>
      start + k * step + 2 <= |text| &&
      WindowsFrom(text, start, step)[k] == text[start + k * step..start + k * step + 2]
    decreases |text| - start
  {
    if start + 1 < |text| {
      WindowsFromAt(text, start + step, step);
      var w := WindowsFrom(text, start, step);
      forall k | 1 <= k < |w|
        ensures start + k * step + 2 <= |text| && w[k] == text[start + k * step..start + k * step + 2]
      {
        assert w[k] == WindowsFrom(text, start + step, step)[k - 1];
        assert start + k * step == (start + step) + (k - 1) * step;
      }
    }
  }

  /** Window `k` starts at `k*step`; step 1 gives `max(len-1, 0)` windows and
      step 2 gives `len / 2`. */
  lemma WindowsShape(text: string, step: nat)
    requires step == 1 || step == 2
    ensures |Windows(text, step)| ==
      (if step == 1 then (if |text| == 0 then 0 else |text| - 1) else |text| / 2)
    ensures forall k :: 0 <= k < |Windows(text, step)| ==>
      k * step + 2 <= |text| && Windows(text, step)[k] == text[k * step..k * step + 2]
  {
    WindowsFromLength(text, 0, step);
    WindowsFromAt(text, 0, step);
  }

  // ---------------------------------------------------------------------
  // Counter: one entry per distinct key, in order of first occurrence

  /** Counting one more occurrence of `x`. */
  function Bump<T(==)>(t: seq<Entry<T>>, x: T): seq<Entry<T>>
  {
    if t == [] then [Entry(x, 1)]
    else if t[0].key == x then [Entry(x, t[0].count + 1)] + t[1..]
    else [t[0]] + Bump(t[1..], x)
  }

  /** `Counter(xs).items()`. */
  function Tally<T(==)>(xs: seq<T>): seq<Entry<T>>
  {
    if xs == [] then [] else Bump(Tally(xs[..|xs| - 1]), xs[|xs| - 1])
  }

  lemma {:induction false} BumpKeys<T>(t: seq<Entry<T>>, x: T)
    ensures Keys(Bump(t, x)) == if x in Keys(t) then Keys(t) else Keys(t) + [x]
    ensures Total(Bump(t, x)) == Total(t) + 1
  {
    if t != [] && t[0].key != x {
      BumpKeys(t[1..], x);
      assert Keys(t) == [t[0].key] + Keys(t[1..]);
    }
  }

  lemma {:induction false} BumpCounts<T>(t: seq<Entry<T>>, x: T, m: multiset<T>)
    requires Distinct(Keys(t))
    requires forall i :: 0 <= i < |t| ==> t[i].count == m[t[i].key]
    requires x !in Keys(t) ==> m[x] == 0
    ensures forall i :: 0 <= i < |Bump(t, x)| ==> Bump(t, x)[i].count == (m + multiset{x})[Bump(t, x)[i].key]
  {
    if t != [] {
      assert Keys(t) == [t[0].key] + Keys(t[1..]);
      if t[0].key == x {
        forall i | 1 <= i < |t|
          ensures t[i].key != x
        {
          assert Keys(t)[i] != Keys(t)[0];
        }
      } else {
        assert Distinct(Keys(t[1..])) by {
          forall i, j | 0 <= i < j < |t| - 1
            ensures Keys(t[1..])[i] != Keys(t[1..])[j]
          {
            assert Keys(t)[i + 1] != Keys(t)[j + 1];
          }
        }
        BumpCounts(t[1..], x, m);
        var b, b' := Bump(t, x), Bump(t[1..], x);
        assert b == [t[0]] + b';
        forall i | 1 <= i < |b|
          ensures b[i].count == (m + multiset{x})[b[i].key]
        {
          assert b[i] == b'[i - 1];
        }
      }
    }
  }

  /** The tally has one entry per distinct element, in order of first
      occurrence, counting its occurrences; the counts sum to `|xs|`. */
  lemma {:induction false} TallySpec<T>(xs: seq<T>)
    ensures Keys(Tally(xs)) == Dedup(xs)
    ensures forall i :: 0 <= i < |Tally(xs)| ==> Tally(xs)[i].count == multiset(xs)[Tally(xs)[i].key]
    ensures Total(Tally(xs)) == |xs|
  {
    if xs != [] {
      var init, y := xs[..|xs| - 1], xs[|xs| - 1];
      assert xs == init + [y];
      TallySpec(init);
      DedupSpec(init);
      BumpKeys(Tally(init), y);
      BumpCounts(Tally(init), y, multiset(init));
    }
  }

  // ---------------------------------------------------------------------
  // sorted(items, reverse=True, key=lambda item: item[1]): a stable sort

  /** Entries ordered by non-increasing count. */
  ghost predicate ByCountDesc<T>(s: seq<Entry<T>>) {
    forall i, j :: 0 <= i < j < |s| ==> s[i].count >= s[j].count
  }

  /** Places `e` after every entry with a larger count and before the rest. */
  function Insert<T>(e: Entry<T>, s: seq<Entry<T>>): seq<Entry<T>>
  {
    if s == [] || s[0].count <= e.count then [e] + s
    else [s[0]] + Insert(e, s[1..])
  }

  /** The stable descending sort by count. */
  function SortByCount<T>(t: seq<Entry<T>>): seq<Entry<T>>
  {
    if t == [] then [] else Insert(t[0], SortByCount(t[1..]))
  }

  lemma {:induction false} InsertPerm<T>(e: Entry<T>, s: seq<Entry<T>>)
    ensures multiset(Insert(e, s)) == multiset{e} + multiset(s)
    ensures Total(Insert(e, s)) == e.count + Total(s)
  {
    if s != [] && s[0].count > e.count {
      InsertPerm(e, s[1..]);
      assert s == [s[0]] + s[1..];
    }
  }

  lemma {:induction false} InsertSorted<T>(e: Entry<T>, s: seq<Entry<T>>)
    requires ByCountDesc(s)
    ensures ByCountDesc(Insert(e, s))
  {
    if s != [] && s[0].count > e.count {
      var s' := s[1..];
      InsertSorted(e, s');
      InsertPerm(e, s');
      var r := Insert(e, s);
      var r' := Insert(e, s');
      assert r == [s[0]] + r';
      forall j | 1 <= j < |r|
        ensures r[0].count >= r[j].count
      {
        assert r[j] == r'[j - 1];
        assert r[j] in multiset(r');
      }
    }
  }

  /** `r` lists any two entries of equal count in the order of their first
      positions in `t`. */
  ghost predicate TiesInOrder<T>(r: seq<Entry<T>>, t: seq<Entry<T>>) {
    forall i, j :: 0 <= i < j < |r| && r[i].count == r[j].count && r[i] in t && r[j] in t ==>
      FirstIndex(t, r[i]) < FirstIndex(t, r[j])
  }

  /** `Insert` puts `e` right after the entries with a larger count. */
  lemma {:induction false} InsertSplit<T>(e: Entry<T>, s: seq<Entry<T>>) returns (k: nat)
    ensures k <= |s| && Insert(e, s) == s[..k] + [e] + s[k..]
    ensures forall i :: 0 <= i < k ==> s[i].count > e.count
  {
    if s == [] || s[0].count <= e.count {
      k := 0;
    } else {
      var k' := InsertSplit(e, s[1..]);
      k := k' + 1;
      assert s[..k] == [s[0]] + s[1..][..k'];
      assert s[k..] == s[1..][k'..];
    }
  }

  lemma InsertTies<T>(e: Entry<T>, s: seq<Entry<T>>, t: seq<Entry<T>>)
    requires TiesInOrder(s, t) && e in t
    requires forall x :: x in s ==> x in t && FirstIndex(t, e) < FirstIndex(t, x)
    ensures TiesInOrder(Insert(e, s), t)
  {
    var k := InsertSplit(e, s);
    var r := Insert(e, s);
    assert forall p :: 0 <= p < k ==> r[p] == s[p];
    assert r[k] == e;
    assert forall p :: k < p < |r| ==> r[p] == s[p - 1];
    forall i, j | 0 <= i < j < |r| && r[i].count == r[j].count && r[i] in t && r[j] in t
      ensures FirstIndex(t, r[i]) < FirstIndex(t, r[j])
    {
      if i > k {
        assert r[i] == s[i - 1] && r[j] == s[j - 1];
      } else if i == k {
        assert r[j] == s[j - 1];
      } else if j > k {
        assert r[i] == s[i] && r[j] == s[j - 1];
      }
    }
  }

  lemma {:induction false} SortPerm<T>(t: seq<Entry<T>>)
    ensures multiset(SortByCount(t)) == multiset(t)
    ensures Total(SortByCount(t)) == Total(t)
  {
    if t != [] {
      assert t == [t[0]] + t[1..];
      SortPerm(t[1..]);
      InsertPerm(t[0], SortByCount(t[1..]));
    }
  }

  lemma {:induction false} SortSorted<T>(t: seq<Entry<T>>)
    ensures ByCountDesc(SortByCount(t))
  {
    if t != [] {
      SortSorted(t[1..]);
      InsertSorted(t[0], SortByCount(t[1..]));
    }
  }

  lemma DistinctTail<T>(t: seq<T>)
    requires Distinct(t) && t != []
    ensures Distinct(t[1..]) && t[0] !in t[1..]
  {
    forall i, j | 0 <= i < j < |t| - 1
      ensures t[1..][i] != t[1..][j]
    {
      assert t[1..][i] == t[i + 1] && t[1..][j] == t[j + 1];
    }
  }

  lemma {:induction false} SortTies<T>(t: seq<Entry<T>>)
    requires Distinct(t)
    ensures TiesInOrder(SortByCount(t), t)
  {
    if t != [] {
      var rest := t[1..];
      DistinctTail(t);
      SortTies(rest);
      SortPerm(rest);
      var s := SortByCount(rest);
      forall x | x in s
        ensures x in rest && x in t && FirstIndex(t, x) == 1 + FirstIndex(rest, x)
      {
        assert x in multiset(rest);
        var k := FirstIndex(rest, x);
        assert t[k + 1] == x;
      }
      assert TiesInOrder(s, t);
      InsertTies(t[0], s, t);
    }
  }

  /** The sort orders entries by non-increasing count, is a permutation,
      keeps the total, and keeps entries of equal count in input order. */
  lemma SortSpec<T>(t: seq<Entry<T>>)
    requires Distinct(t)
    ensures ByCountDesc(SortByCount(t))
    ensures multiset(SortByCount(t)) == multiset(t)
    ensures Total(SortByCount(t)) == Total(t)
    ensures TiesInOrder(SortByCount(t), t)
  {
    SortPerm(t);
    SortSorted(t);
    SortTies(t);
  }

  // ---------------------------------------------------------------------
  // count_bigrams (cp3.py:57-63)

  /** The window step of `count_bigrams`: `overlap + 1`, so the flag as
      written gives overlapping windows when it is False. */
  function Step(overlap: bool): (step: nat)
    ensures step == if overlap then 2 else 1
  {
    (if overlap then 1 else 0) + 1
  }

  /** A ranking: the tally sorted by descending count. */
  function Rank<T(==)>(xs: seq<T>): seq<Entry<T>>
  {
    SortByCount(Tally(xs))
  }

  /** `count_bigrams(text, overlap)` as the ordered list of its items. */
  function CountBigrams(text: string, overlap: bool): seq<Entry<string>>
  {
    Rank(Windows(text, Step(overlap)))
  }

  lemma TallyDistinct<T>(xs: seq<T>)
    ensures Distinct(Tally(xs)) && Distinct(Keys(Tally(xs)))
    ensures forall x :: x in Keys(Tally(xs)) <==> x in xs
  {
    var t := Tally(xs);
    TallySpec(xs);
    DedupSpec(xs);
    forall i, j | 0 <= i < j < |t|
      ensures t[i] != t[j]
    {
      assert Keys(t)[i] != Keys(t)[j];
    }
  }

  /** An entry of the ranking is an entry of the tally. */
  lemma RankFromTally<T>(xs: seq<T>, i: int)
    requires 0 <= i < |Rank(xs)|
    ensures Rank(xs)[i] in Tally(xs)
  {
    SortPerm(Tally(xs));
    assert Rank(xs)[i] in multiset(Rank(xs));
  }

  /** The keys of the ranking are exactly the distinct elements. */
  lemma RankKeys<T>(xs: seq<T>)
    ensures forall x :: x in Keys(Rank(xs)) <==> x in xs
  {
    forall x | x in Keys(Rank(xs))
      ensures x in xs
    {
      RankKeyOccurs(xs, x);
    }
    forall x | x in xs
      ensures x in Keys(Rank(xs))
    {
      RankKeyPresent(xs, x);
    }
  }

  lemma RankKeyOccurs<T>(xs: seq<T>, x: T)
    requires x in Keys(Rank(xs))
    ensures x in xs
  {
    var t, r := Tally(xs), Rank(xs);
    TallyDistinct(xs);
    var i :| 0 <= i < |r| && Keys(r)[i] == x;
    RankFromTally(xs, i);
    var p :| 0 <= p < |t| && t[p] == r[i];
    assert Keys(t)[p] == x;
  }

  lemma RankKeyPresent<T>(xs: seq<T>, x: T)
    requires x in xs
    ensures x in Keys(Rank(xs))
  {
    var t, r := Tally(xs), Rank(xs);
    TallyDistinct(xs);
    SortPerm(t);
    var p :| 0 <= p < |t| && Keys(t)[p] == x;
    assert t[p] in multiset(r);
    var i :| 0 <= i < |r| && r[i] == t[p];
    assert Keys(r)[i] == x;
  }

  /** Each key of the ranking comes with its number of occurrences; the
      counts sum to `|xs|`. */
  lemma RankCounts<T>(xs: seq<T>)
    ensures forall i :: 0 <= i < |Rank(xs)| ==>
      Rank(xs)[i].count == multiset(xs)[Rank(xs)[i].key] && Rank(xs)[i].count > 0
    ensures Total(Rank(xs)) == |xs|
  {
    var t, r := Tally(xs), Rank(xs);
    TallySpec(xs);
    TallyDistinct(xs);
    SortSpec(t);
    forall i | 0 <= i < |r|
      ensures r[i].count == multiset(xs)[r[i].key] && r[i].count > 0
    {
      RankFromTally(xs, i);
      var p :| 0 <= p < |t| && t[p] == r[i];
      assert Keys(t)[p] in xs;
    }
  }

  /** The ranking is ordered by count, ties in first-occurrence order, and
      holds each key once. */
  lemma RankOrder<T>(xs: seq<T>)
    ensures Distinct(Keys(Rank(xs))) && ByCountDesc(Rank(xs))
    ensures forall i :: 0 <= i < |Rank(xs)| ==> Rank(xs)[i].key in xs
    ensures forall i, j :: 0 <= i < j < |Rank(xs)| && Rank(xs)[i].count == Rank(xs)[j].count ==>
      FirstIndex(xs, Rank(xs)[i].key) < FirstIndex(xs, Rank(xs)[j].key)
  {
    RankDistinct(xs);
    SortSorted(Tally(xs));
    RankTies(xs);
  }

  lemma RankDistinct<T>(xs: seq<T>)
    ensures Distinct(Keys(Rank(xs)))
  {
    var t, r := Tally(xs), Rank(xs);
    TallyDistinct(xs);
    SortPerm(t);
    PermDistinct(r, t);
    forall i, j | 0 <= i < j < |r|
      ensures Keys(r)[i] != Keys(r)[j]
    {
      RankFromTally(xs, i);
      RankFromTally(xs, j);
      var p, q := FirstIndex(t, r[i]), FirstIndex(t, r[j]);
      assert Keys(t)[p] == r[i].key && Keys(t)[q] == r[j].key;
    }
  }

  lemma RankTies<T>(xs: seq<T>)
    ensures forall i :: 0 <= i < |Rank(xs)| ==> Rank(xs)[i].key in xs
    ensures forall i, j :: 0 <= i < j < |Rank(xs)| && Rank(xs)[i].count == Rank(xs)[j].count ==>
      FirstIndex(xs, Rank(xs)[i].key) < FirstIndex(xs, Rank(xs)[j].key)
  {
    var t, r := Tally(xs), Rank(xs);
    forall i | 0 <= i < |r|
      ensures r[i].key in xs
    {
      assert Keys(r)[i] == r[i].key;
      RankKeyOccurs(xs, r[i].key);
    }
    TallySpec(xs);
    TallyDistinct(xs);
    DedupSpec(xs);
    SortTies(t);
    forall i, j | 0 <= i < j < |r| && r[i].count == r[j].count
      ensures FirstIndex(xs, r[i].key) < FirstIndex(xs, r[j].key)
    {
      RankFromTally(xs, i);
      RankFromTally(xs, j);
      var p, q := FirstIndex(t, r[i]), FirstIndex(t, r[j]);
      assert Keys(t)[p] == r[i].key && Keys(t)[q] == r[j].key;
    }
  }

  /** `count_bigrams(text, overlap)`: the windows start every `overlap + 1`
      letters; each distinct window appears once with its number of
      occurrences, most frequent first, ties in order of first appearance. */
  lemma CountBigramsSpec(text: string, overlap: bool)
    ensures |Windows(text, Step(overlap))| ==
      (if overlap then |text| / 2 else if |text| == 0 then 0 else |text| - 1)
    ensures forall k :: 0 <= k < |Windows(text, Step(overlap))| ==>
      Windows(text, Step(overlap))[k] == text[k * Step(overlap)..k * Step(overlap) + 2]
    ensures forall w :: w in Keys(CountBigrams(text, overlap)) <==> w in Windows(text, Step(overlap))
    ensures forall i :: 0 <= i < |CountBigrams(text, overlap)| ==>
      CountBigrams(text, overlap)[i].count ==
        multiset(Windows(text, Step(overlap)))[CountBigrams(text, overlap)[i].key]
    ensures Distinct(Keys(CountBigrams(text, overlap))) && ByCountDesc(CountBigrams(text, overlap))
    ensures forall i, j ::
      (0 <= i < j < |CountBigrams(text, overlap)| &&
       CountBigrams(text, overlap)[i].count == CountBigrams(text, overlap)[j].count) ==>
        FirstIndex(Windows(text, Step(overlap)), CountBigrams(text, overlap)[i].key) <
        FirstIndex(Windows(text, Step(overlap)), CountBigrams(text, overlap)[j].key)
  {
    WindowsShape(text, Step(overlap));
    RankKeys(Windows(text, Step(overlap)));
    RankCounts(Windows(text, Step(overlap)));
    RankOrder(Windows(text, Step(overlap)));
  }

  /** The first `n` keys of a ranking (`list(ranking)[:n]`). */
  function TopKeys<T(==)>(xs: seq<T>, n: nat): (top: seq<T>)
    ensures |top| <= n
  {
    var keys := Keys(Rank(xs));
    keys[..Min(n, |keys|)]
  }

  /** The first `n` keys of a ranking are `n` distinct elements (or all of
      them, when there are fewer), and none occurs less often than any
      element left out. */
  lemma TopKeysSpec<T>(xs: seq<T>, n: nat)
    ensures |TopKeys(xs, n)| == Min(n, |set x | x in xs|)
    ensures Distinct(TopKeys(xs, n))
    ensures forall x :: x in TopKeys(xs, n) ==> x in xs
    ensures forall x, y :: x in TopKeys(xs, n) && y in xs && y !in TopKeys(xs, n) ==>
      multiset(xs)[x] >= multiset(xs)[y]
  {
    var keys := Keys(Rank(xs));
    RankKeys(xs);
    RankOrder(xs);
    DistinctCard(keys);
    assert (set x | x in xs) == (set x | x in keys);
    TopKeysFrequent(xs, n);
  }

  lemma TopKeysFrequent<T>(xs: seq<T>, n: nat)
    ensures forall x, y :: x in TopKeys(xs, n) && y in xs && y !in TopKeys(xs, n) ==>
      multiset(xs)[x] >= multiset(xs)[y]
  {
    var r := Rank(xs);
    var m := Min(n, |Keys(r)|);
    RankKeys(xs);
    RankCounts(xs);
    SortSorted(Tally(xs));
    forall x, y | x in TopKeys(xs, n) && y in xs && y !in TopKeys(xs, n)
      ensures multiset(xs)[x] >= multiset(xs)[y]
    {
      var i, j := PrefixDominates(r, m, x, y);
    }
  }

  /** In a list sorted by descending count, a key among the first `m`
      entries counts at least as much as a key after them. */
  lemma PrefixDominates<T>(r: seq<Entry<T>>, m: nat, x: T, y: T) returns (i: nat, j: nat)
    requires ByCountDesc(r) && m <= |r|
    requires x in Keys(r)[..m] && y in Keys(r) && y !in Keys(r)[..m]
    ensures i < m <= j < |r| && r[i].key == x && r[j].key == y && r[i].count >= r[j].count
  {
    var keys := Keys(r);
    i :| 0 <= i < m && keys[i] == x;
    j :| 0 <= j < |keys| && keys[j] == y;
  }
}
