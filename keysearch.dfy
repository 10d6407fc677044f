/**
 * The key search (`find_keys`, cp3.py:96-114).  For every ordered pair of
 * distinct ciphertext digrams `X*`, `X**` among the five most frequent ones
 * and every ordered pair of distinct reference digrams `Y*`, `Y**`, assume
 * that the key maps `Y*` to `X*` and `Y**` to `X**`.  Subtracting the two
 * equations gives `a*(Y* - Y**) == X* - X** (mod M²)`; each `a` that
 * `lin_cmp` returns yields the key `(a, X* - a*Y* mod M²)`.
 */
module KeySearch {
  import opened SeqUtil
  import opened ModularArithmetic
  import opened FrequencyAnalysis
  import opened DigramCodec
  import opened Reference
  import opened Decryption

  /** `list(count_bigrams(ct))[:5]`: the at most five most frequent
      overlapping digrams of the ciphertext. */
  function Top(ct: string): (top: seq<string>)
    ensures |top| <= 5
  {
    TopKeys(Windows(ct, Step(false)), 5)
  }

  /** `[x for x in xs if x != y]`. */
  function Without(xs: seq<string>, y: string): (r: seq<string>)
    ensures forall x :: x in r <==> x in xs && x != y
    ensures |r| <= |xs|
  {
    if xs == [] then [] else (if xs[0] == y then [] else [xs[0]]) + Without(xs[1..], y)
  }

  /** Every entry of a ranked list of a ciphertext is one of its digrams. */
  lemma TopDigrams(ct: string)
    requires InAlphabet(ct)
    ensures forall x :: x in Top(ct) ==> Digram(x)
  {
    var w := Windows(ct, Step(false));
    CountBigramsSpec(ct, false);
    var ranked := Keys(CountBigrams(ct, false));
    forall x | x in Top(ct)
      ensures Digram(x)
    {
      assert x in ranked;
      var k :| 0 <= k < |w| && w[k] == x;
      assert x == ct[k..k + 2];
    }
  }

  /** The key under which plaintext digram `k` becomes ciphertext digram
      `i` for the multiplier `a`: `b = (encode(i) - a*encode(k)) % M²`. */
  function KeyFor(i: string, k: string, a: int): (key: Key)
    requires Digram(i) && Digram(k)
    ensures key.a == a && 0 <= key.b < N
    ensures Congruent(a * Encode(k) + key.b, Encode(i), N)
  {
    var b := (Encode(i) - a * Encode(k)) % N;
    CongruentMod(Encode(i) - a * Encode(k), N);
    assert (a * Encode(k) + b) - Encode(i) == b - (Encode(i) - a * Encode(k));
    Key(a, b)
  }

  /** The key maps the plaintext code of `p` to the ciphertext code of `c`. */
  predicate Maps(key: Key, p: string, c: string)
    requires Digram(p) && Digram(c)
  {
    Congruent(key.a * Encode(p) + key.b, Encode(c), N)
  }

  /** The congruence the multiplier of the pairing `(i, j, k, l)` solves. */
  predicate SolvesPairing(i: string, j: string, k: string, l: string, a: int)
    requires Digram(i) && Digram(j) && Digram(k) && Digram(l)
  {
    Solves(Encode(k) - Encode(l), Encode(i) - Encode(j), N, a)
  }

  /** The keys for one assumed pairing `Y* = k -> X* = i`, `Y** = l -> X** = j`:
      one per value `lin_cmp` returns (a list element, the residue, or the
      sentinel 0). */
  function KeysFor(i: string, j: string, k: string, l: string): seq<Key>
    requires Digram(i) && Digram(j) && Digram(k) && Digram(l)
  {
    var s := LinCmp(Encode(k) - Encode(l), Encode(i) - Encode(j), N);
    if s.Several? then seq(|s.xs|, t requires 0 <= t < |s.xs| => KeyFor(i, k, s.xs[t]))
    else [KeyFor(i, k, AsScalar(s))]
  }

  /** Every key of a pairing is in range and maps `k` to `i`. */
  lemma KeysForMapFirst(i: string, j: string, k: string, l: string)
    requires Digram(i) && Digram(j) && Digram(k) && Digram(l)
    ensures forall key :: key in KeysFor(i, j, k, l) ==>
      0 <= key.a < N && 0 <= key.b < N && Maps(key, k, i)
  {
    var A, B := Encode(k) - Encode(l), Encode(i) - Encode(j);
    LinCmpResidues(A, B, N);
  }

  /** When the pairing is consistent at all, every key solves it and so also
      maps `l` to `j`. */
  lemma KeysForMapSecond(i: string, j: string, k: string, l: string)
    requires Digram(i) && Digram(j) && Digram(k) && Digram(l)
    requires exists y :: SolvesPairing(i, j, k, l, y)
    ensures forall key :: key in KeysFor(i, j, k, l) ==> Maps(key, l, j)
  {
    var A, B := Encode(k) - Encode(l), Encode(i) - Encode(j);
    var ks := KeysFor(i, j, k, l);
    var s := LinCmp(A, B, N);
    LinCmpSound(A, B, N);
    LinCmpNoSolution(A, B, N);
    assert !s.NoSolution?;
    forall key | key in ks
      ensures Maps(key, l, j)
    {
      var t :| 0 <= t < |ks| && ks[t] == key;
      assert Solves(A, B, N, key.a) by {
        if s.Several? {
          assert key.a == s.xs[t];
        }
      }
      SharedKey(key.a, key.b, Encode(k), Encode(l), Encode(i), Encode(j), N);
    }
  }

  /** Every multiplier in `[0, M²)` solving the pairing yields a key. */
  lemma KeysForComplete(i: string, j: string, k: string, l: string)
    requires Digram(i) && Digram(j) && Digram(k) && Digram(l)
    ensures forall y :: 0 <= y < N && SolvesPairing(i, j, k, l, y) ==>
      KeyFor(i, k, y) in KeysFor(i, j, k, l)
  {
    var A, B := Encode(k) - Encode(l), Encode(i) - Encode(j);
    var s := LinCmp(A, B, N);
    var ks := KeysFor(i, j, k, l);
    LinCmpUnique(A, B, N);
    LinCmpSeveral(A, B, N);
    LinCmpNoSolution(A, B, N);
    forall y | 0 <= y < N && SolvesPairing(i, j, k, l, y)
      ensures KeyFor(i, k, y) in ks
    {
      if s.Several? {
        var t :| 0 <= t < |s.xs| && s.xs[t] == y;
        assert ks[t] == KeyFor(i, k, y);
      }
    }
  }

  /** An inconsistent pairing yields the single key `(0, encode(i))` built
      from the sentinel. */
  lemma KeysForInconsistent(i: string, j: string, k: string, l: string)
    requires Digram(i) && Digram(j) && Digram(k) && Digram(l)
    requires forall y :: !SolvesPairing(i, j, k, l, y)
    ensures KeysFor(i, j, k, l) == [KeyFor(i, k, 0)]
  {
    var A, B := Encode(k) - Encode(l), Encode(i) - Encode(j);
    LinCmpNoSolution(A, B, N);
    assert LinCmp(A, B, N).NoSolution? by {
      forall y
        ensures !Solves(A, B, N, y)
      {
        assert !SolvesPairing(i, j, k, l, y);
      }
    }
  }

  // The loops of find_keys enumerate assumed pairings `(X*, X**, Y*, Y**)`
  // in a fixed order; the keys are those of each pairing, joined in that
  // order.  The reference digram list is a parameter `refs` here; find_keys
  // passes BIGRAMS.

  /** One assumed pairing: plaintext `k` becomes `i` and `l` becomes `j`. */
  datatype Guess = Guess(i: string, j: string, k: string, l: string)

  /** Every entry is a digram. */
  predicate AllDigrams(xs: seq<string>) {
    forall x :: x in xs ==> Digram(x)
  }

  predicate GuessDigrams(g: Guess) {
    Digram(g.i) && Digram(g.j) && Digram(g.k) && Digram(g.l)
  }

  /** The keys `find_keys` appends for one pairing.  Every pairing it tries
      is made of digrams (see GuessesDigrams); the empty list for any other
      quadruple only makes this function total. */
  function GuessKeys(g: Guess): seq<Key> {
    if GuessDigrams(g) then KeysFor(g.i, g.j, g.k, g.l) else []
  }

  /** `for l in temp`, with `temp` the reference digrams other than `k`. */
  function GuessesForK(i: string, j: string, k: string, refs: seq<string>): seq<Guess> {
    var temp := Without(refs, k);
    seq(|temp|, s requires 0 <= s < |temp| => Guess(i, j, k, temp[s]))
  }

  /** `for k in BIGRAMS`. */
  function GuessesForPair(i: string, j: string, refs: seq<string>): seq<Guess> {
    Concat(seq(|refs|, r requires 0 <= r < |refs| => GuessesForK(i, j, refs[r], refs)))
  }

  /** `for j in ct_temp`. */
  function GuessesForI(i: string, js: seq<string>, refs: seq<string>): seq<Guess> {
    Concat(seq(|js|, q requires 0 <= q < |js| => GuessesForPair(i, js[q], refs)))
  }

  /** `for i in ct_bigrams[:5]`, with `ct_temp` the other ranked digrams. */
  function Guesses(top: seq<string>, refs: seq<string>): seq<Guess> {
    Concat(seq(|top|, p requires 0 <= p < |top| => GuessesForI(top[p], Without(top, top[p]), refs)))
  }

  lemma GuessesForKMember(i: string, j: string, k: string, refs: seq<string>, g: Guess)
    ensures g in GuessesForK(i, j, k, refs) <==> g.i == i && g.j == j && g.k == k && g.l in refs && g.l != k
  {
    var temp := Without(refs, k);
    if g.i == i && g.j == j && g.k == k && g.l in refs && g.l != k {
      var s :| 0 <= s < |temp| && temp[s] == g.l;
      assert GuessesForK(i, j, k, refs)[s] == g;
    }
  }

  lemma GuessesForPairMember(i: string, j: string, refs: seq<string>, g: Guess)
    ensures g in GuessesForPair(i, j, refs) <==>
      g.i == i && g.j == j && g.k in refs && g.l in refs && g.k != g.l
  {
    var U := seq(|refs|, r requires 0 <= r < |refs| => GuessesForK(i, j, refs[r], refs));
    ConcatMember(U, g);
    if g in Concat(U) {
      var r :| 0 <= r < |U| && g in U[r];
      GuessesForKMember(i, j, refs[r], refs, g);
    }
    if g.i == i && g.j == j && g.k in refs && g.l in refs && g.k != g.l {
      var r :| 0 <= r < |refs| && refs[r] == g.k;
      GuessesForKMember(i, j, g.k, refs, g);
      assert g in U[r];
    }
  }

  lemma GuessesForIMember(i: string, js: seq<string>, refs: seq<string>, g: Guess)
    ensures g in GuessesForI(i, js, refs) <==>
      g.i == i && g.j in js && g.k in refs && g.l in refs && g.k != g.l
  {
    var T := seq(|js|, q requires 0 <= q < |js| => GuessesForPair(i, js[q], refs));
    ConcatMember(T, g);
    if g in Concat(T) {
      var q :| 0 <= q < |T| && g in T[q];
      GuessesForPairMember(i, js[q], refs, g);
    }
    if g.i == i && g.j in js && g.k in refs && g.l in refs && g.k != g.l {
      var q :| 0 <= q < |js| && js[q] == g.j;
      GuessesForPairMember(i, g.j, refs, g);
      assert g in T[q];
    }
  }

  /** The pairings tried are exactly the ordered pairs of distinct ranked
      digrams against the ordered pairs of distinct reference digrams. */
  lemma GuessesMember(top: seq<string>, refs: seq<string>, g: Guess)
    ensures g in Guesses(top, refs) <==>
      g.i in top && g.j in top && g.i != g.j && g.k in refs && g.l in refs && g.k != g.l
  {
    var S := seq(|top|, p requires 0 <= p < |top| => GuessesForI(top[p], Without(top, top[p]), refs));
    ConcatMember(S, g);
    if g in Concat(S) {
      var p :| 0 <= p < |S| && g in S[p];
      GuessesForIMember(top[p], Without(top, top[p]), refs, g);
    }
    if g.i in top && g.j in top && g.i != g.j && g.k in refs && g.l in refs && g.k != g.l {
      var p :| 0 <= p < |top| && top[p] == g.i;
      GuessesForIMember(g.i, Without(top, g.i), refs, g);
      assert g in S[p];
    }
  }

  /** Pairings drawn from digrams are pairings of digrams. */
  lemma GuessesDigrams(top: seq<string>, refs: seq<string>)
    requires AllDigrams(top) && AllDigrams(refs)
    ensures forall g :: g in Guesses(top, refs) ==> GuessDigrams(g)
  {
    forall g | g in Guesses(top, refs)
      ensures GuessDigrams(g)
    {
      GuessesMember(top, refs, g);
    }
  }

  /** The list `find_keys(ct)` returns. */
  function Candidates(ct: string): seq<Key>
    requires InAlphabet(ct)
  {
    FlatMap(GuessKeys, Guesses(Top(ct), BIGRAMS))
  }

  /** The pairing `Y* = k -> X* = i`, `Y** = l -> X** = j` is one the
      search tries for the ranked digrams `top` and reference digrams `refs`. */
  predicate Pairing(top: seq<string>, refs: seq<string>, i: string, j: string, k: string, l: string) {
    && i in top && j in top && i != j
    && k in refs && l in refs && k != l
    && Digram(i) && Digram(j) && Digram(k) && Digram(l)
  }

  /** `key` is one of the keys the pairing `(i, j, k, l)` produces. */
  predicate Yields(key: Key, i: string, j: string, k: string, l: string) {
    Digram(i) && Digram(j) && Digram(k) && Digram(l) && key in KeysFor(i, j, k, l)
  }

  /** The keys of the pairings tried for `top` and `refs` are exactly the
      keys some such pairing yields. */
  lemma PairingKeysMember(top: seq<string>, refs: seq<string>, key: Key)
    requires AllDigrams(top) && AllDigrams(refs)
    ensures key in FlatMap(GuessKeys, Guesses(top, refs)) <==>
      exists i, j, k, l :: Pairing(top, refs, i, j, k, l) && Yields(key, i, j, k, l)
  {
    var gs := Guesses(top, refs);
    FlatMapMember(GuessKeys, gs, key);
    if key in FlatMap(GuessKeys, gs) {
      var t :| 0 <= t < |gs| && key in GuessKeys(gs[t]);
      var g := gs[t];
      GuessesMember(top, refs, g);
      assert Pairing(top, refs, g.i, g.j, g.k, g.l);
    }
    if exists i, j, k, l :: Pairing(top, refs, i, j, k, l) && Yields(key, i, j, k, l) {
      var i, j, k, l :| Pairing(top, refs, i, j, k, l) && Yields(key, i, j, k, l);
      var g := Guess(i, j, k, l);
      GuessesMember(top, refs, g);
      var t :| 0 <= t < |gs| && gs[t] == g;
      assert key in GuessKeys(gs[t]);
    }
  }

  /** The candidate list holds exactly the keys of the pairings tried: every
      ordered pair of distinct ranked ciphertext digrams against every ordered
      pair of distinct reference digrams. */
  lemma CandidatesMember(ct: string, key: Key)
    requires InAlphabet(ct)
    ensures key in Candidates(ct) <==>
      exists i, j, k, l :: Pairing(Top(ct), BIGRAMS, i, j, k, l) && Yields(key, i, j, k, l)
  {
    TopDigrams(ct);
    ReferenceWellFormed();
    PairingKeysMember(Top(ct), BIGRAMS, key);
  }

  /** Soundness: every candidate key is reduced modulo `M²` and maps some
      tried reference digram `Y*` to its ciphertext digram `X*`, and also
      `Y**` to `X**` whenever that pairing is consistent at all. */
  lemma CandidatesSound(ct: string)
    requires InAlphabet(ct)
    ensures forall key :: key in Candidates(ct) ==>
      && 0 <= key.a < N && 0 <= key.b < N
      && exists i, j, k, l :: Pairing(Top(ct), BIGRAMS, i, j, k, l) && Maps(key, k, i)
           && ((exists y :: SolvesPairing(i, j, k, l, y)) ==> Maps(key, l, j))
  {
    forall key | key in Candidates(ct)
      ensures && 0 <= key.a < N && 0 <= key.b < N
              && exists i, j, k, l :: Pairing(Top(ct), BIGRAMS, i, j, k, l) && Maps(key, k, i)
                   && ((exists y :: SolvesPairing(i, j, k, l, y)) ==> Maps(key, l, j))
    {
      CandidatesMember(ct, key);
      var i, j, k, l :| Pairing(Top(ct), BIGRAMS, i, j, k, l) && Yields(key, i, j, k, l);
      KeysForMapFirst(i, j, k, l);
      if exists y :: SolvesPairing(i, j, k, l, y) {
        KeysForMapSecond(i, j, k, l);
      }
    }
  }

  /** Completeness: for every pairing tried, every multiplier in `[0, M²)`
      consistent with it gives a candidate key. */
  lemma CandidatesComplete(ct: string)
    requires InAlphabet(ct)
    ensures forall i, j, k, l, y ::
      Pairing(Top(ct), BIGRAMS, i, j, k, l) && 0 <= y < N && SolvesPairing(i, j, k, l, y) ==>
        KeyFor(i, k, y) in Candidates(ct)
  {
    forall i, j, k, l, y | Pairing(Top(ct), BIGRAMS, i, j, k, l) && 0 <= y < N && SolvesPairing(i, j, k, l, y)
      ensures KeyFor(i, k, y) in Candidates(ct)
    {
      KeysForComplete(i, j, k, l);
      CandidatesMember(ct, KeyFor(i, k, y));
    }
  }

  /** Every pairing yields at least one key. */
  lemma KeysForNonEmpty(i: string, j: string, k: string, l: string)
    requires Digram(i) && Digram(j) && Digram(k) && Digram(l)
    ensures |KeysFor(i, j, k, l)| >= 1
  {
    LinCmpSeveral(Encode(k) - Encode(l), Encode(i) - Encode(j), N);
  }

  /** The search finds no candidate exactly when the ciphertext has fewer
      than two distinct digrams to pair. */
  lemma CandidatesEmpty(ct: string)
    requires InAlphabet(ct)
    ensures Candidates(ct) == [] <==> |Top(ct)| < 2
  {
    var top := Top(ct);
    if |top| >= 2 {
      TopDigrams(ct);
      TopKeysSpec(Windows(ct, Step(false)), 5);
      ReferenceWellFormed();
      var i, j, k, l := top[0], top[1], BIGRAMS[0], BIGRAMS[1];
      assert Pairing(top, BIGRAMS, i, j, k, l);
      KeysForNonEmpty(i, j, k, l);
      var key := KeysFor(i, j, k, l)[0];
      assert Yields(key, i, j, k, l);
      CandidatesMember(ct, key);
    }
  }

  /** The innermost block of `find_keys` (cp3.py:106-113): appends the keys
      of one pairing. */
  method AppendKeys(keys: seq<Key>, g: Guess) returns (result: seq<Key>)
    requires GuessDigrams(g)
    ensures result == keys + GuessKeys(g)
  {
    var i, j, k, l := g.i, g.j, g.k, g.l;
    ghost var ks := KeysFor(i, j, k, l);
    result := keys;
    var a := LinCmp(Encode(k) - Encode(l), Encode(i) - Encode(j), N);
    if a.Several? {
      for t := 0 to |a.xs|
        invariant result == keys + ks[..t]
      {
        assert ks[..t + 1] == ks[..t] + [KeyFor(i, k, a.xs[t])];
        result := result + [KeyFor(i, k, a.xs[t])];
      }
      assert ks[..|a.xs|] == ks;
    } else {
      result := result + [KeyFor(i, k, AsScalar(a))];
    }
  }

  /** `for l in temp` (cp3.py:105-113) for one `(i, j, k)`: the keys these
      iterations append.  `refs` is the reference list BIGRAMS. */
  method CollectForK(i: string, j: string, k: string, refs: seq<string>) returns (keys: seq<Key>)
    requires Digram(i) && Digram(j) && Digram(k) && AllDigrams(refs)
    ensures keys == FlatMap(GuessKeys, GuessesForK(i, j, k, refs))
  {
    var temp := Without(refs, k);
    ghost var gs := GuessesForK(i, j, k, refs);
    keys := [];
    for s := 0 to |temp|
      invariant keys == FlatMap(GuessKeys, gs[..s])
    {
      assert gs[..s + 1][..s] == gs[..s];
      assert gs[s] == Guess(i, j, k, temp[s]);
      keys := AppendKeys(keys, Guess(i, j, k, temp[s]));
    }
    assert gs[..|temp|] == gs;
  }

  /** `for k in BIGRAMS` (cp3.py:103-113) for one `(i, j)`. */
  method CollectForPair(i: string, j: string, refs: seq<string>) returns (keys: seq<Key>)
    requires Digram(i) && Digram(j) && AllDigrams(refs)
    ensures keys == FlatMap(GuessKeys, GuessesForPair(i, j, refs))
  {
    ghost var U := seq(|refs|, r requires 0 <= r < |refs| => GuessesForK(i, j, refs[r], refs));
    keys := [];
    for r := 0 to |refs|
      invariant keys == FlatMap(GuessKeys, Concat(U[..r]))
    {
      ConcatSnoc(U, r);
      var block := CollectForK(i, j, refs[r], refs);
      FlatMapAppend(GuessKeys, Concat(U[..r]), U[r]);
      keys := keys + block;
    }
    assert U[..|refs|] == U;
  }

  /** `for j in ct_temp` (cp3.py:102-113) for one `i`. */
  method CollectForI(i: string, ctTemp: seq<string>, refs: seq<string>) returns (keys: seq<Key>)
    requires Digram(i) && AllDigrams(ctTemp) && AllDigrams(refs)
    ensures keys == FlatMap(GuessKeys, GuessesForI(i, ctTemp, refs))
  {
    ghost var T := seq(|ctTemp|, q requires 0 <= q < |ctTemp| => GuessesForPair(i, ctTemp[q], refs));
    keys := [];
    for q := 0 to |ctTemp|
      invariant keys == FlatMap(GuessKeys, Concat(T[..q]))
    {
      ConcatSnoc(T, q);
      var block := CollectForPair(i, ctTemp[q], refs);
      FlatMapAppend(GuessKeys, Concat(T[..q]), T[q]);
      keys := keys + block;
    }
    assert T[..|ctTemp|] == T;
  }

  /** `find_keys(ct)`: the outer loop over the five most frequent digrams. */
  method FindKeys(ct: string) returns (keys: seq<Key>)
    requires InAlphabet(ct)
    ensures keys == Candidates(ct)
  {
    keys := [];
    var ctBigrams := Keys(CountBigrams(ct, false));
    var top := ctBigrams[..Min(5, |ctBigrams|)];
    TopDigrams(ct);
    ReferenceWellFormed();
    ghost var S := seq(|top|, p requires 0 <= p < |top| => GuessesForI(top[p], Without(top, top[p]), BIGRAMS));
    for p := 0 to |top|
      invariant keys == FlatMap(GuessKeys, Concat(S[..p]))
    {
      ConcatSnoc(S, p);
      var block := CollectForI(top[p], Without(top, top[p]), BIGRAMS);
      FlatMapAppend(GuessKeys, Concat(S[..p]), S[p]);
      keys := keys + block;
    }
    assert S[..|top|] == S;
  }
}
