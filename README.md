# Affine digram cipher breaker (cp3) in Dafny

This project models the cryptanalytic core of `cp3.py`. The script breaks an
affine cipher on digrams over a 31-letter Russian alphabet: a two-letter unit
with code `x = first*31 + second` becomes the unit with code `a*x + b mod 961`.
The model covers the whole pipeline the script runs:

- **ModularArithmetic** (`modular.dfy`): `euclid` as a method with its
  remainder loop, proved against the function `ExtendedGcd`. `lin_cmp` as the
  function `LinCmp`, with its three outcomes: one residue, the sentinel 0
  when there is no solution, and the list of `gcd` residues.
- **DigramCodec** and **Reference** (`codec.dfy`): the alphabet, `encode`,
  `decode`, and the reference letters and digrams of the language.
- **FrequencyAnalysis** (`frequency.dfy`): `count_bigrams` as windows over
  the text, a `Counter` tally in first-occurrence order, and Python's stable
  descending sort by count.
- **Decryption** (`decrypt.dfy`): `decrypt` as a loop over two-letter units.
- **KeySearch** (`keysearch.dfy`): `find_keys` as its four nested loops. Each
  loop is proved to return the keys of an explicit list of assumed pairings
  `(X*, X**, Y*, Y**)`. Lemmas state which keys those are.
- **Plausibility** (`plausibility.dfy`): `sensible` and its three counting
  loops.
- **Selection** (`selection.dfy`): the script's final loop. It keeps the
  candidate keys whose decryption scores above 4, then drops repeats.
- **SeqUtil** (`seqs.dfy`): helpers for the above. It holds in-order
  concatenation, first occurrences, and `dict.fromkeys` deduplication.

Where Python raises, the model either returns `None` or states a
precondition. `sensible` indexes `bigrams[b]` for `b < 5` and raises
`IndexError` on a text with fewer than five distinct digrams at even offsets
(`count_bigrams(pt, overlap=True)` steps by 2). The model gives
`None` there, and the key selection returns `None` when any candidate's
decryption cannot be scored. `encode` raises on a character outside the
alphabet; the model requires alphabet texts.

Notes on the code's behaviour, each stated by a lemma:

- `count_bigrams` computes its step as `overlap + 1`. So `overlap=True` gives
  non-overlapping windows at even offsets, and the default gives overlapping
  windows. `find_keys` therefore ranks overlapping ciphertext digrams, and
  `sensible` ranks plaintext digrams at even offsets (`CountBigramsSpec`).
- Both letter checks of `sensible` look at the same three most frequent
  letters, and no letter is both frequent and rare. So the score is at most
  8 (`ScoreBound`).
- `decode` turns every code below 31 into one letter. A digram whose first
  letter is `а` (index 0) encodes below 31, so it decodes to its second letter
  alone (`DecodeEncodeLosesLeadingA`). Decryption therefore recovers such a
  digram as one letter (`DecryptEncrypt`).
- `euclid(155, 29)` evaluates to `[1, 3, 139]` (`EuclidVector`), and
  `lin_cmp(7, 19, 41)` to `32` (`LinCmpUniqueVector`).

## Model

| member | source | states |
|---|---|---|
| ModularArithmetic.Steps | cp3/tyshchenko_fb-13_cp3/cp3.py:25-31 | the `while` remainder loop from the state `(a, b)` with the last two entries of `u` and `v`; stated by `StepsBezout`, `StepsDivides`, `StepsBounded` |
| ModularArithmetic.StepsBezout | cp3/tyshchenko_fb-13_cp3/cp3.py:25-31 | when both current remainders are combinations `u*A + v*B` of the operands, so is the value the loop stops at, with the coefficients it returns |
| ModularArithmetic.StepsDivides | cp3/tyshchenko_fb-13_cp3/cp3.py:25-31 | the value the loop stops at is positive and divides both remainders it started from |
| ModularArithmetic.RawEuclid | cp3/tyshchenko_fb-13_cp3/cp3.py:13-31 | the remainder loop with its swapped coefficient lists ends at a gcd of `a` and `b` with an exact Bezout identity `u*a + v*b == gcd` |
| ModularArithmetic.ExtendedGcd | cp3/tyshchenko_fb-13_cp3/cp3.py:13-37 | `euclid(a, b)` returns a gcd of `a` and `b`; its first coefficient times `a` is congruent to the gcd modulo `b`, and its second times `b` modulo `a` |
| ModularArithmetic.StepsBounded | cp3/tyshchenko_fb-13_cp3/cp3.py:25-31 | the loop keeps the last two entries of `u` (and of `v`) of opposite signs, tied to the operands so that the final coefficients are at most `b` (and `a`) in size |
| ModularArithmetic.ExtendedGcdBounds | cp3/tyshchenko_fb-13_cp3/cp3.py:32-37 | for positive operands the normalisation yields a coefficient of `a` in `[0, b]` and a coefficient of `b` in `[0, a]` |
| ModularArithmetic.ExtendedGcdInverses | cp3/tyshchenko_fb-13_cp3/cp3.py:36-37 | when the gcd is 1, for nonzero operands of any sign with one of them positive (as `lin_cmp` passes a negative `a`), the two coefficients are inverses of `a` modulo `b` and of `b` modulo `a` |
| ModularArithmetic.Euclid | cp3/tyshchenko_fb-13_cp3/cp3.py:13-37 | the method with the `u`, `v`, `q` lists and the remainder loop returns `ExtendedGcd(a, b)`, a gcd of its inputs |
| ModularArithmetic.EuclidVector | cp3/tyshchenko_fb-13_cp3/cp3.py:137 | `euclid(155, 29)` is gcd 1 with coefficients 3 and 139 |
| ModularArithmetic.LinCmp | cp3/tyshchenko_fb-13_cp3/cp3.py:40-54 | `lin_cmp(a, b, n)`: one residue when `gcd(n, a) == 1`, the sentinel when the gcd does not divide `b`, otherwise the `gcd` residues `x0 + i*(n/gcd)`; its meaning is stated by `LinCmpUnique`, `LinCmpSeveral` and `LinCmpNoSolution` |
| ModularArithmetic.AsScalar | cp3/tyshchenko_fb-13_cp3/cp3.py:44-47 | a non-list result as the caller reads it: the residue, or 0 for no solution |
| ModularArithmetic.LinCmpUnique | cp3/tyshchenko_fb-13_cp3/cp3.py:41-44 | `lin_cmp` returns a single residue exactly when `gcd(n, a) == 1`; it lies in `[0, n)`, solves `a*x == b (mod n)`, and is the only solution there |
| ModularArithmetic.LinCmpSeveral | cp3/tyshchenko_fb-13_cp3/cp3.py:45-54 | a list is returned only when `d = gcd(n, a) > 1` divides `b`; it holds `d` residues `x0 + i*(n/d)` with `x0 < n/d`, all in `[0, n)`, all solutions, and every solution in `[0, n)` is among them |
| ModularArithmetic.LinCmpNoSolution | cp3/tyshchenko_fb-13_cp3/cp3.py:45-47 | the sentinel 0 is returned exactly when the congruence has no solution at all |
| ModularArithmetic.LinCmpResidues | cp3/tyshchenko_fb-13_cp3/cp3.py:44-54 | every number `lin_cmp` returns is a residue in `[0, n)` |
| ModularArithmetic.LinCmpSound | cp3/tyshchenko_fb-13_cp3/cp3.py:44-54 | every number `lin_cmp` returns, other than the sentinel, solves the congruence |
| ModularArithmetic.SharedKey | cp3/tyshchenko_fb-13_cp3/cp3.py:106-113 | a key that maps `Y*` to `X*`, with a multiplier solving `a*(Y* - Y**) == X* - X**`, also maps `Y**` to `X**` |
| ModularArithmetic.LinCmpUniqueVector | cp3/tyshchenko_fb-13_cp3/cp3.py:139 | `lin_cmp(7, 19, 41)` is the residue 32 |
| ModularArithmetic.LinCmpSeveralVector | cp3/tyshchenko_fb-13_cp3/cp3.py:141 | `lin_cmp(39, 30, 111)` is the list `[15, 52, 89]` |
| DigramCodec.AlphabetShape | cp3/tyshchenko_fb-13_cp3/cp3.py:6-7 | the alphabet holds 31 distinct letters, exactly the Cyrillic `а`..`я` without `ъ` |
| DigramCodec.Letter | cp3/tyshchenko_fb-13_cp3/cp3.py:76-81 | `ALPHABET[i]` for `i < 31` is an alphabet letter; `AlphabetCodes` ties it to the literal |
| DigramCodec.Index | cp3/tyshchenko_fb-13_cp3/cp3.py:68-70 | `ALPHABET.index(c)` is below 31 and the letter at that position is `c` |
| DigramCodec.IndexOfLetter | cp3/tyshchenko_fb-13_cp3/cp3.py:68-81 | the index of `ALPHABET[i]` is `i` |
| DigramCodec.IndexIsPosition | cp3/tyshchenko_fb-13_cp3/cp3.py:68-70 | the index used by `encode` is `ALPHABET.index`, the first (and only) position of the letter |
| DigramCodec.Encode | cp3/tyshchenko_fb-13_cp3/cp3.py:66-70 | a code is below 961, and a single letter's code is below 31 |
| DigramCodec.Decode | cp3/tyshchenko_fb-13_cp3/cp3.py:75-81 | a code decodes to one or two alphabet letters, one exactly when it is below 31 |
| DigramCodec.DecodeAll | cp3/tyshchenko_fb-13_cp3/cp3.py:83-84 | a list of codes decodes to between one and two letters per code, all in the alphabet |
| DigramCodec.EncodeDecode | cp3/tyshchenko_fb-13_cp3/cp3.py:66-81 | every code in `[0, 961)` decodes to a unit that encodes back to that code |
| DigramCodec.DecodeEncode | cp3/tyshchenko_fb-13_cp3/cp3.py:66-81 | a letter, or a digram not starting with `а`, survives `decode(encode(u))` |
| DigramCodec.DecodeEncodeLosesLeadingA | cp3/tyshchenko_fb-13_cp3/cp3.py:76-77 | a digram starting with `а` decodes back to its second letter alone, which differs from it |
| DigramCodec.CodecVector | cp3/tyshchenko_fb-13_cp3/cp3.py:146 | `decode(63)` is `вб` and `encode('вб')` is 63 |
| Reference.ReferenceWellFormed | cp3/tyshchenko_fb-13_cp3/cp3.py:8-10 | the reference letters are alphabet letters with frequent and rare disjoint; the five reference digrams are distinct alphabet digrams |
| FrequencyAnalysis.Step | cp3/tyshchenko_fb-13_cp3/cp3.py:60 | `step = overlap + 1`: 2 when the flag is set, 1 otherwise |
| FrequencyAnalysis.WindowsFrom | cp3/tyshchenko_fb-13_cp3/cp3.py:61 | the windows from a start offset, one every `step` letters while two letters remain; stated by `WindowsShape` |
| FrequencyAnalysis.Windows | cp3/tyshchenko_fb-13_cp3/cp3.py:61 | the list `[text[s:s + 2] for s in range(0, len - 1, step)]`; its length and entries are stated by `WindowsShape` |
| FrequencyAnalysis.Tally | cp3/tyshchenko_fb-13_cp3/cp3.py:63 | `Counter(xs).items()`: one entry per distinct element in first-occurrence order with its count; stated by `TallySpec` |
| FrequencyAnalysis.Bump | cp3/tyshchenko_fb-13_cp3/cp3.py:63 | counting one more occurrence in a `Counter`: the key's count grows by one, or the key is appended with count 1; stated by `TallySpec` |
| FrequencyAnalysis.TallySpec | cp3/tyshchenko_fb-13_cp3/cp3.py:63 | the tally's keys are the distinct elements in first-occurrence order, each counted by its number of occurrences, the counts summing to the length |
| FrequencyAnalysis.Insert | cp3/tyshchenko_fb-13_cp3/cp3.py:63 | one insertion step of the stable sort: after every entry of larger count, before the rest |
| FrequencyAnalysis.SortByCount | cp3/tyshchenko_fb-13_cp3/cp3.py:63 | `sorted(..., reverse=True, key=count)` as a stable insertion sort; `RankOrder` states that it is ordered by descending count with ties in their previous order |
| FrequencyAnalysis.SortSpec | cp3/tyshchenko_fb-13_cp3/cp3.py:63 | the sort of distinct entries orders them by non-increasing count, is a permutation, keeps the total, and keeps equal counts in input order |
| FrequencyAnalysis.Keys | cp3/tyshchenko_fb-13_cp3/cp3.py:98 | `list(dict)`: the keys of the items, in order, one per item |
| FrequencyAnalysis.Rank | cp3/tyshchenko_fb-13_cp3/cp3.py:119 | `dict(sorted(Counter(xs).items(), reverse=True, key=count))`: the tally sorted; stated by `RankKeys`, `RankCounts`, `RankOrder` |
| FrequencyAnalysis.CountBigrams | cp3/tyshchenko_fb-13_cp3/cp3.py:57-63 | `count_bigrams(text, overlap)` as its ordered items: the tally of the windows at step `overlap + 1`, sorted; stated by `CountBigramsSpec` |
| FrequencyAnalysis.WindowsShape | cp3/tyshchenko_fb-13_cp3/cp3.py:58-61 | with step 1 there are `len - 1` windows and with step 2 `len / 2`, window `k` being `text[k*step:k*step + 2]` |
| FrequencyAnalysis.RankKeys | cp3/tyshchenko_fb-13_cp3/cp3.py:63 | the keys of the ranking are exactly the distinct elements counted |
| FrequencyAnalysis.RankCounts | cp3/tyshchenko_fb-13_cp3/cp3.py:63 | each ranked key carries its number of occurrences, which is positive, and the counts sum to the number of elements |
| FrequencyAnalysis.RankOrder | cp3/tyshchenko_fb-13_cp3/cp3.py:63 | the ranking holds each key once, by descending count, with ties in first-occurrence order |
| FrequencyAnalysis.CountBigramsSpec | cp3/tyshchenko_fb-13_cp3/cp3.py:57-63 | `count_bigrams(text, overlap)` ranks the windows at step `overlap + 1`: their number and content, each distinct window once with its count, by descending count, ties by first appearance |
| FrequencyAnalysis.TopKeys | cp3/tyshchenko_fb-13_cp3/cp3.py:119-121 | `list(ranking)[:n]` has at most `n` entries; stated by `TopKeysSpec` |
| FrequencyAnalysis.TopKeysFrequent | cp3/tyshchenko_fb-13_cp3/cp3.py:98-100 | no key among the first `n` ranked occurs less often than an element left out |
| FrequencyAnalysis.TopKeysSpec | cp3/tyshchenko_fb-13_cp3/cp3.py:119-121 | the first `n` ranked keys are `min(n, #distinct)` distinct elements, none rarer than any element left out |
| Decryption.DecodeSolutions | cp3/tyshchenko_fb-13_cp3/cp3.py:83-86 | decoding a `lin_cmp` result gives alphabet letters, and for a non-list result it is the decoding of that one number |
| Decryption.Unit | cp3/tyshchenko_fb-13_cp3/cp3.py:91-92 | `ct[i:i+2]` is two letters, or one letter exactly at the last position of an odd-length text |
| Decryption.UnitCount | cp3/tyshchenko_fb-13_cp3/cp3.py:91 | `range(0, len(ct), 2)` has `ceil(len / 2)` steps (used by `Pieces`) |
| Decryption.Pieces | cp3/tyshchenko_fb-13_cp3/cp3.py:91-92 | there is one plaintext piece per unit, `ceil(len / 2)` in all, each of alphabet letters |
| Decryption.DecryptUnit | cp3/tyshchenko_fb-13_cp3/cp3.py:92 | the plaintext piece of one unit, `decode(lin_cmp(a, encode(unit) - b, 961))`, is made of alphabet letters; its meaning is stated by `DecryptUnitInverts` and `DecryptUnitNoPreimage` |
| Decryption.DecryptText | cp3/tyshchenko_fb-13_cp3/cp3.py:89-93 | the pieces of all units joined in order, the function `Decrypt` is proved against |
| Decryption.Decrypt | cp3/tyshchenko_fb-13_cp3/cp3.py:89-93 | the loop over the units returns the pieces joined in order |
| Decryption.DecryptUnitInverts | cp3/tyshchenko_fb-13_cp3/cp3.py:92 | under an invertible `a`, a piece is one unit that the key maps onto the ciphertext unit, the decoding of every code the key maps there |
| Decryption.DecryptEncrypt | cp3/tyshchenko_fb-13_cp3/cp3.py:92 | under an invertible `a`, decrypting the encryption of `w` gives `decode(encode(w))` |
| Decryption.DecryptUnitNoPreimage | cp3/tyshchenko_fb-13_cp3/cp3.py:92 | a unit that no code maps onto decrypts to `а`, the decoding of the sentinel 0 |
| KeySearch.Top | cp3/tyshchenko_fb-13_cp3/cp3.py:98-100 | at most five ranked ciphertext digrams are paired |
| KeySearch.Without | cp3/tyshchenko_fb-13_cp3/cp3.py:101 | the list without `y` holds exactly the other entries |
| KeySearch.TopDigrams | cp3/tyshchenko_fb-13_cp3/cp3.py:98-100 | every ranked entry of an alphabet ciphertext is a digram of it |
| KeySearch.KeyFor | cp3/tyshchenko_fb-13_cp3/cp3.py:109-113 | the key `(a, b)` with `b` in `[0, 961)` maps plaintext digram `Y*` to ciphertext digram `X*` |
| KeySearch.KeysFor | cp3/tyshchenko_fb-13_cp3/cp3.py:106-113 | the keys one pairing appends: one per list element, else one for the residue or the sentinel; stated by `KeysForMapFirst`, `KeysForMapSecond`, `KeysForComplete`, `KeysForInconsistent` |
| KeySearch.KeysForMapFirst | cp3/tyshchenko_fb-13_cp3/cp3.py:106-113 | every key of one pairing has both parts in `[0, 961)` and maps `Y*` to `X*` |
| KeySearch.KeysForMapSecond | cp3/tyshchenko_fb-13_cp3/cp3.py:106-113 | when the pairing's congruence is solvable, every key of it also maps `Y**` to `X**` |
| KeySearch.KeysForComplete | cp3/tyshchenko_fb-13_cp3/cp3.py:106-113 | every multiplier in `[0, 961)` solving the pairing's congruence yields a key |
| KeySearch.KeysForInconsistent | cp3/tyshchenko_fb-13_cp3/cp3.py:111-113 | an unsolvable pairing yields the single key `(0, encode(X*))` built from the sentinel |
| KeySearch.KeysForNonEmpty | cp3/tyshchenko_fb-13_cp3/cp3.py:106-113 | every pairing yields at least one key |
| KeySearch.AppendKeys | cp3/tyshchenko_fb-13_cp3/cp3.py:106-113 | the innermost block appends the keys of one pairing |
| KeySearch.CollectForK | cp3/tyshchenko_fb-13_cp3/cp3.py:104-113 | the loop over `Y**` collects the keys of the pairings with every other reference digram, in order |
| KeySearch.CollectForPair | cp3/tyshchenko_fb-13_cp3/cp3.py:103-113 | the loop over `Y*` collects the keys of its pairings, in order |
| KeySearch.CollectForI | cp3/tyshchenko_fb-13_cp3/cp3.py:101-113 | the loop over `X**` collects the keys of its pairings, in order |
| KeySearch.GuessKeys | cp3/tyshchenko_fb-13_cp3/cp3.py:106-113 | the keys one tried pairing appends (`KeysFor`); every pairing tried is made of digrams (`GuessesDigrams`) |
| KeySearch.GuessesForK | cp3/tyshchenko_fb-13_cp3/cp3.py:104-105 | the pairings of `for l in temp`, `temp` being the reference digrams other than `k`; stated by `GuessesForKMember` |
| KeySearch.GuessesForKMember | cp3/tyshchenko_fb-13_cp3/cp3.py:104-105 | those pairings are exactly `(i, j, k, l)` with `l` a reference digram other than `k` |
| KeySearch.GuessesForPair | cp3/tyshchenko_fb-13_cp3/cp3.py:103-105 | the pairings of `for k in BIGRAMS`, in loop order; stated by `GuessesForPairMember` |
| KeySearch.GuessesForPairMember | cp3/tyshchenko_fb-13_cp3/cp3.py:103-105 | those pairings are exactly `(i, j, k, l)` with distinct reference digrams `k`, `l` |
| KeySearch.GuessesForI | cp3/tyshchenko_fb-13_cp3/cp3.py:102-105 | the pairings of `for j in ct_temp`, in loop order; stated by `GuessesForIMember` |
| KeySearch.GuessesForIMember | cp3/tyshchenko_fb-13_cp3/cp3.py:102-105 | those pairings are exactly `(i, j, k, l)` with `j` in `ct_temp` and distinct reference digrams `k`, `l` |
| KeySearch.Guesses | cp3/tyshchenko_fb-13_cp3/cp3.py:100-105 | all pairings of the four nested loops, in loop order; stated by `GuessesMember` |
| KeySearch.GuessesMember | cp3/tyshchenko_fb-13_cp3/cp3.py:100-105 | the pairings tried are exactly the distinct ranked `X*`, `X**` against the distinct reference `Y*`, `Y**` |
| KeySearch.GuessesDigrams | cp3/tyshchenko_fb-13_cp3/cp3.py:100-105 | every pairing drawn from digrams is made of digrams |
| KeySearch.PairingKeysMember | cp3/tyshchenko_fb-13_cp3/cp3.py:100-114 | the keys of the tried pairings are exactly the keys some tried pairing yields |
| KeySearch.FindKeys | cp3/tyshchenko_fb-13_cp3/cp3.py:96-114 | `find_keys(ct)` returns the keys of all tried pairings, in loop order |
| KeySearch.Candidates | cp3/tyshchenko_fb-13_cp3/cp3.py:96-114 | the list `find_keys(ct)` returns: the keys of the tried pairings in loop order; stated by `CandidatesMember`, `CandidatesSound`, `CandidatesComplete` |
| KeySearch.CandidatesMember | cp3/tyshchenko_fb-13_cp3/cp3.py:96-114 | a key is a candidate exactly when some tried pairing yields it; a tried pairing is distinct ranked `X*`, `X**` against distinct reference `Y*`, `Y**` |
| KeySearch.CandidatesSound | cp3/tyshchenko_fb-13_cp3/cp3.py:96-114 | every candidate is reduced modulo 961 and maps some tried `Y*` to its `X*`, and also `Y**` to `X**` when that pairing is solvable |
| KeySearch.CandidatesComplete | cp3/tyshchenko_fb-13_cp3/cp3.py:96-114 | for every tried pairing, every multiplier consistent with it gives a candidate |
| KeySearch.CandidatesEmpty | cp3/tyshchenko_fb-13_cp3/cp3.py:96-114 | there is no candidate exactly when the ciphertext has fewer than two distinct digrams |
| Plausibility.Hits | cp3/tyshchenko_fb-13_cp3/cp3.py:121-132 | the `score += 1` count of the entries in a pool, never more than the entries checked; stated by `HitsCount`, `HitsDisjoint` |
| Plausibility.TopLetters | cp3/tyshchenko_fb-13_cp3/cp3.py:119-121 | at most three letters are checked |
| Plausibility.TextDigrams | cp3/tyshchenko_fb-13_cp3/cp3.py:129 | `list(count_bigrams(pt, overlap=True))`: the ranked digrams at even offsets; stated by `CountBigramsSpec` |
| Plausibility.HitsDisjoint | cp3/tyshchenko_fb-13_cp3/cp3.py:121-127 | a letter scores in at most one of two disjoint pools |
| Plausibility.HitsCount | cp3/tyshchenko_fb-13_cp3/cp3.py:121-132 | over a list without repeats, the points are the number of distinct listed entries in the pool |
| Plausibility.Points | cp3/tyshchenko_fb-13_cp3/cp3.py:120-133 | the points for given top letters and ranked digrams, or none when fewer than five digrams make `bigrams[b]` raise |
| Plausibility.Score | cp3/tyshchenko_fb-13_cp3/cp3.py:117-133 | `sensible(pt)`; stated by `ScoreBound`, `ScoreFails` and `ScoreCounts` |
| Plausibility.CountPoints | cp3/tyshchenko_fb-13_cp3/cp3.py:120-133 | the three counting loops give the points for the top letters and digrams, or fail when fewer than five digrams are ranked |
| Plausibility.Sensible | cp3/tyshchenko_fb-13_cp3/cp3.py:117-133 | `sensible(pt)` is the points for the three most frequent letters and the five most frequent digrams at even offsets |
| Plausibility.ScoreBound | cp3/tyshchenko_fb-13_cp3/cp3.py:117-133 | a score is at most 8 |
| Plausibility.ScoreFails | cp3/tyshchenko_fb-13_cp3/cp3.py:129-131 | scoring fails exactly when the text has fewer than five distinct digrams at even offsets |
| Plausibility.ScoreCounts | cp3/tyshchenko_fb-13_cp3/cp3.py:117-133 | the score is the number of distinct frequent and of rare letters among the top three letters, plus the number of reference digrams among the top five |
| Selection.Scores | cp3/tyshchenko_fb-13_cp3/cp3.py:156 | `sensible(decrypt(data, k))` for every candidate `k`, one score per candidate |
| Selection.Passing | cp3/tyshchenko_fb-13_cp3/cp3.py:154-158 | the keys the filter loop appends, in candidate order with repeats, given each candidate's score, or none once a score is missing |
| Selection.SelectKeys | cp3/tyshchenko_fb-13_cp3/cp3.py:154-159 | the passing keys after `dict.fromkeys`; stated by `SelectKeysFails` and `SelectKeysChosen` |
| SeqUtil.Dedup | cp3/tyshchenko_fb-13_cp3/cp3.py:159 | `list(dict.fromkeys(keys))` holds each key exactly once, in order of first occurrence (`DedupSpec`) |
| SeqUtil.DedupSpec | cp3/tyshchenko_fb-13_cp3/cp3.py:159 | the deduplicated list has no repeats, the same members, and the order of first occurrences |
| Selection.PassingFails | cp3/tyshchenko_fb-13_cp3/cp3.py:155-157 | the filter fails exactly when some candidate's score is missing |
| Selection.PassingMember | cp3/tyshchenko_fb-13_cp3/cp3.py:155-157 | a key is kept exactly when it is a candidate scoring above 4 |
| Selection.PassingOrder | cp3/tyshchenko_fb-13_cp3/cp3.py:155-157 | with equal candidates scoring equally, kept keys keep the order of their first occurrence among the candidates |
| Selection.ChosenKeys | cp3/tyshchenko_fb-13_cp3/cp3.py:154-159 | after deduplication the keys are distinct, exactly the candidates scoring above 4, in first-occurrence order |
| Selection.SelectKeysFails | cp3/tyshchenko_fb-13_cp3/cp3.py:155-159 | nothing is chosen exactly when some candidate's decryption cannot be scored |
| Selection.SelectKeysChosen | cp3/tyshchenko_fb-13_cp3/cp3.py:154-159 | otherwise the chosen keys are distinct, exactly the candidates whose decryption scores above 4, in the order of their first occurrence |
| Selection.ScoreKey | cp3/tyshchenko_fb-13_cp3/cp3.py:156 | `sensible(decrypt(data, k))` is the score of the decryption under `k` |
| Selection.SelectFrom | cp3/tyshchenko_fb-13_cp3/cp3.py:154-159 | the filter loop and `dict.fromkeys` give the chosen keys of the candidate list |
| Selection.ChooseKeys | cp3/tyshchenko_fb-13_cp3/cp3.py:153-159 | the script's key choice is the chosen keys of `find_keys(data)` |

## Left out

- Reading `custom.txt` and `var3.txt`, the `strip()` of their text, and every `print` (cp3.py:137-162): the model takes the ciphertext as a parameter and returns the chosen keys.
- The `count_bigrams` self-tests on `"hello world! hello mum"` (cp3.py:143-144) have no lemma; `CountBigramsSpec` states their content for every text.
- ModularArithmetic.Euclid: requires `a > 0 || b > 0`. With both operands non-positive, Python divides by zero or by a negative number. Every caller passes `n > 0`.
- ModularArithmetic.LinCmp: requires `n > 0`; every caller passes `n > 0` (`M ** 2`, 41 and 111).
- DigramCodec.Encode: requires alphabet letters. `ALPHABET.index` raises `ValueError` on any other character; the raise is not modelled.
- DigramCodec.Decode: requires a code in `[0, 961)`, the range every caller passes. Python's negative indexing and the `IndexError` above that range are not modelled.
- Decryption.Decrypt: requires an alphabet ciphertext. So do KeySearch.FindKeys and Selection.ChooseKeys, for the same reason as `Encode`.
- Python's `Counter` and `sorted` are modelled by their observable result: a tally in first-occurrence order and a stable insertion sort by descending count. Their hash-table internals are not modelled.
- Keys are unbounded integers and tuples become the datatype `Key`; there is no integer overflow in Python to model.
