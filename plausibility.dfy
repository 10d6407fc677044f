/**
 * Scoring a candidate plaintext (`sensible`, cp3.py:117-133): one point for
 * each of its three most frequent letters that is a frequent letter of the
 * language, one for each of them that is a rare letter, and one for each of
 * its five most frequent non-overlapping digrams that is a frequent digram.
 */
module Plausibility {
  import opened SeqUtil
  import opened FrequencyAnalysis
  import opened Reference

  /** How many entries of `xs` lie in `pool` (one `score += 1` per hit). */
  function Hits<T(==)>(xs: seq<T>, pool: seq<T>): (n: nat)
    ensures n <= |xs|
  {
    if xs == [] then 0
    else Hits(xs[..|xs| - 1], pool) + (if xs[|xs| - 1] in pool then 1 else 0)
  }

  /** `letters[:3]`: the three most frequent letters of the text. */
  function TopLetters(pt: string): (top: seq<char>)
    ensures |top| <= 3
  {
    TopKeys(pt, 3)
  }

  /** `list(count_bigrams(pt, overlap=True))`: digrams at even offsets,
      most frequent first. */
  function TextDigrams(pt: string): seq<string>
  {
    Keys(CountBigrams(pt, true))
  }

  /** The points for the three most frequent letters `top` and the ranked
      digrams `bigrams`, or `None` where `bigrams[b]` raises `IndexError`
      because fewer than five digrams are ranked. */
  function Points(top: seq<char>, bigrams: seq<string>): Option<nat>
  {
    if |bigrams| < 5 then None
    else Some(Hits(top, FREQ_L) + Hits(top, RARE_L) + Hits(bigrams[..5], BIGRAMS))
  }

  /** `sensible(pt)`. */
  function Score(pt: string): Option<nat>
  {
    Points(TopLetters(pt), TextDigrams(pt))
  }

  /** `sensible(pt)`: ranks the letters and the digrams of the text, then
      counts the points. */
  method Sensible(pt: string) returns (score: Option<nat>)
    ensures score == Score(pt)
  {
    var letters := Keys(Rank(pt));
    var top := letters[..Min(3, |letters|)];
    var bigrams := Keys(CountBigrams(pt, true));
    score := CountPoints(top, bigrams);
  }

  /** The three counting loops of `sensible` (cp3.py:121-133). */
  method CountPoints(top: seq<char>, bigrams: seq<string>) returns (score: Option<nat>)
    ensures score == Points(top, bigrams)
  {
    var s: nat := 0;
    for t := 0 to |top|
      invariant s == Hits(top[..t], FREQ_L)
    {
      assert top[..t + 1][..t] == top[..t];
      if top[t] in FREQ_L {
        s := s + 1;
      }
    }
    assert top[..|top|] == top;
    ghost var fromFrequent := s;
    for t := 0 to |top|
      invariant s == fromFrequent + Hits(top[..t], RARE_L)
    {
      assert top[..t + 1][..t] == top[..t];
      if top[t] in RARE_L {
        s := s + 1;
      }
    }
    assert top[..|top|] == top;
    ghost var fromLetters := s;
    for b := 0 to 5
      invariant b <= |bigrams|
      invariant s == fromLetters + Hits(bigrams[..b], BIGRAMS)
    {
      if b >= |bigrams| {
        return None;
      }
      assert bigrams[..b + 1][..b] == bigrams[..b];
      if bigrams[b] in BIGRAMS {
        s := s + 1;
      }
    }
    score := Some(s);
  }

  /** An entry lies in at most one of two disjoint pools. */
  lemma {:induction false} HitsDisjoint<T>(xs: seq<T>, p: seq<T>, q: seq<T>)
    requires forall x :: x in p ==> x !in q
    ensures Hits(xs, p) + Hits(xs, q) <= |xs|
  {
    if xs != [] {
      HitsDisjoint(xs[..|xs| - 1], p, q);
    }
  }

  /** Over a list without repeats, the hits are the distinct members of the
      pool that the list holds. */
  lemma {:induction false} HitsCount<T>(xs: seq<T>, pool: seq<T>)
    requires Distinct(xs)
    ensures Hits(xs, pool) == |set x | x in xs && x in pool|
  {
    if xs != [] {
      var n := |xs| - 1;
      var init, y := xs[..n], xs[n];
      assert Distinct(init) by {
        forall i, j | 0 <= i < j < n
          ensures init[i] != init[j]
        {
          assert init[i] == xs[i] && init[j] == xs[j];
        }
      }
      HitsCount(init, pool);
      assert y !in init by {
        forall i | 0 <= i < n
          ensures init[i] != y
        {
          assert init[i] == xs[i];
        }
      }
      assert xs == init + [y];
      PooledSnoc(init, y, pool);
    }
  }

  /** The pooled members of a list with one more element. */
  lemma PooledSnoc<T>(init: seq<T>, y: T, pool: seq<T>)
    ensures (set x | x in init + [y] && x in pool) ==
      if y in pool then (set x | x in init && x in pool) + {y} else (set x | x in init && x in pool)
  {
  }

  /** The score is at most 8: each of the three top letters is frequent or
      rare but not both, and there are five digrams. */
  lemma ScoreBound(pt: string)
    ensures Score(pt).Some? ==> Score(pt).value <= 8
  {
    if Score(pt).Some? {
      ReferenceWellFormed();
      HitsDisjoint(TopLetters(pt), FREQ_L, RARE_L);
    }
  }

  /** `sensible` fails exactly on texts with fewer than five distinct digrams
      at even offsets. */
  lemma ScoreFails(pt: string)
    ensures Score(pt).None? <==> |set w | w in Windows(pt, 2)| < 5
  {
    var w := Windows(pt, Step(true));
    RankKeys(w);
    RankOrder(w);
    DistinctCard(TextDigrams(pt));
    assert (set x | x in w) == (set x | x in TextDigrams(pt));
  }

  /** The score counts the distinct frequent and rare letters among the
      three most frequent letters, and the frequent digrams among the five
      most frequent digrams at even offsets. */
  lemma ScoreCounts(pt: string)
    requires Score(pt).Some?
    ensures Score(pt).value ==
      |set c | c in TopLetters(pt) && c in FREQ_L| +
      |set c | c in TopLetters(pt) && c in RARE_L| +
      |set w | w in TextDigrams(pt)[..5] && w in BIGRAMS|
  {
    TopKeysSpec(pt, 3);
    HitsCount(TopLetters(pt), FREQ_L);
    HitsCount(TopLetters(pt), RARE_L);
    var bigrams := TextDigrams(pt);
    RankOrder(Windows(pt, Step(true)));
    assert Distinct(bigrams[..5]);
    HitsCount(bigrams[..5], BIGRAMS);
  }
}
