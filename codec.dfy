/**
 * The alphabet and the digram codec (`encode` / `decode`, cp3.py:66-86).
 * A unit is one letter (code = its index) or two letters
 * (code = first*M + second); codes live in `[0, M*M)`.
 */
module DigramCodec {
  import opened SeqUtil

  /** The 31 letters of cp3.py:6 (lower-case Russian without `ё` and `ъ`). */
  const ALPHABET: string := "абвгдежзийклмнопрстуфхцчшщыьэюя"

  /** `M = len(ALPHABET)` (cp3.py:7). */
  const M: nat := 31

  /** The modulus of the cipher, `M ** 2`. */
  const N: nat := M * M

  /** Membership in the alphabet as a test on the character code: the
      alphabet is the Cyrillic range `а`..`я` less `ъ`. */
  predicate IsLetter(c: char) {
    'а' <= c <= 'я' && c != 'ъ'
  }

  /** `ALPHABET[i]`, read off the character codes: consecutive from `а`,
      stepping over `ъ` (`AlphabetCodes` ties it to the literal). */
  function Letter(i: int): (c: char)
    requires 0 <= i < M
    ensures IsLetter(c)
  {
    if i < 26 then ('а' as int + i) as char else ('а' as int + i + 1) as char
  }

  lemma AlphabetCodes()
    ensures |ALPHABET| == M
    ensures forall i :: 0 <= i < M ==> ALPHABET[i] == Letter(i)
  {
  }

  /** The alphabet holds 31 distinct letters, exactly those `IsLetter`
      accepts. */
  lemma AlphabetShape()
    ensures |ALPHABET| == M && Distinct(ALPHABET)
    ensures forall c :: IsLetter(c) <==> c in ALPHABET
  {
    AlphabetCodes();
    forall c | IsLetter(c)
      ensures c in ALPHABET
    {
      var k := if c < 'ъ' then c as int - 'а' as int else c as int - 'а' as int - 1;
      assert ALPHABET[k] == c;
    }
  }

  /** Every character of `s` is a letter of the alphabet. */
  predicate InAlphabet(s: string) {
    forall i :: 0 <= i < |s| ==> IsLetter(s[i])
  }

  /** A two-letter unit. */
  predicate Digram(u: string) {
    |u| == 2 && InAlphabet(u)
  }

  /** `ALPHABET.index(c)`: the position of `c` in the alphabet, read off its
      character code (the letters after `ъ` sit one place lower). */
  function Index(c: char): (i: nat)
    requires IsLetter(c)
    ensures i < M && Letter(i) == c
  {
    if c < 'ъ' then c as int - 'а' as int else c as int - 'а' as int - 1
  }

  /** `Index` is `list.index` on the alphabet: the first, and since the
      letters are distinct the only, position holding `c`. */
  lemma IndexIsPosition(c: char)
    requires IsLetter(c)
    ensures c in ALPHABET && Index(c) == FirstIndex(ALPHABET, c)
  {
    AlphabetShape();
    AlphabetCodes();
    var i, j := Index(c), FirstIndex(ALPHABET, c);
    assert ALPHABET[i] == c == ALPHABET[j];
  }

  lemma IndexOfLetter(i: nat)
    requires i < M
    ensures Index(Letter(i)) == i
  {
  }

  /** `encode(ngram)`: the index of a single letter, otherwise
      `index(first) * M + index(second)` (only the first two characters are
      looked at, and each must be a letter: `index` raises otherwise). */
  function Encode(u: string): (code: nat)
    requires |u| >= 1 && IsLetter(u[0]) && (|u| >= 2 ==> IsLetter(u[1]))
    ensures code < N
    ensures |u| == 1 ==> code < M
  {
    if |u| == 1 then Index(u[0]) else Index(u[0]) * M + Index(u[1])
  }

  /** `get_str(c)` inside `decode`: codes below `M` are a single letter. */
  function Decode(c: int): (u: string)
    requires 0 <= c < N
    ensures 1 <= |u| <= 2 && InAlphabet(u)
    ensures |u| == 1 <==> c < M
  {
    if c < M then [Letter(c)] else [Letter(c / M), Letter(c % M)]
  }

  /** `decode(list)`: the decodings of the codes, joined in order. */
  function DecodeAll(cs: seq<int>): (u: string)
    requires forall i :: 0 <= i < |cs| ==> 0 <= cs[i] < N
    ensures |cs| <= |u| <= 2 * |cs| && InAlphabet(u)
  {
    if cs == [] then [] else DecodeAll(cs[..|cs| - 1]) + Decode(cs[|cs| - 1])
  }

  /** Every code in range decodes to a unit that encodes back to it. */
  lemma EncodeDecode(c: int)
    requires 0 <= c < N
    ensures Encode(Decode(c)) == c
  {
    if c < M {
      IndexOfLetter(c);
    } else {
      IndexOfLetter(c / M);
      IndexOfLetter(c % M);
    }
  }

  /** A single letter, or a digram whose first letter is not `ALPHABET[0]`,
      survives encoding then decoding. */
  lemma DecodeEncode(u: string)
    requires |u| == 1 || (|u| == 2 && u[0] != Letter(0))
    requires InAlphabet(u)
    ensures Decode(Encode(u)) == u
  {
    if |u| == 1 {
      assert u == [u[0]];
    } else {
      DecodeEncodeDigram(u);
    }
  }

  lemma DecodeEncodeDigram(u: string)
    requires |u| == 2 && u[0] != Letter(0) && IsLetter(u[0]) && IsLetter(u[1])
    ensures Decode(Encode(u)) == u
  {
    var f, s := Index(u[0]), Index(u[1]);
    assert 1 <= f;
    var c := f * M + s;
    assert Encode(u) == c;
    assert c >= M by { assert f * M == f * 31; }
    Digits(f, s);
    assert c / M == f && c % M == s;
    var d := Decode(c);
    assert d[0] == Letter(f) && d[1] == Letter(s);
    PairEqual(d, u);
    assert Decode(Encode(u)) == u;
  }

  /** Two two-element sequences agreeing at both positions are equal. */
  lemma PairEqual(d: string, u: string)
    requires |d| == |u| == 2 && d[0] == u[0] && d[1] == u[1]
    ensures d == u
  {
  }

  /** Splitting `f*M + s` back into its two base-`M` digits. */
  lemma Digits(f: nat, s: nat)
    requires s < M
    ensures (f * M + s) / M == f && (f * M + s) % M == s
  {
  }

  /** A digram starting with `ALPHABET[0]` encodes below `M` and so decodes to
      its second letter alone. */
  lemma DecodeEncodeLosesLeadingA(u: string)
    requires |u| == 2 && u[0] == Letter(0) && InAlphabet(u)
    ensures Decode(Encode(u)) == [u[1]] != u
  {
    IndexOfLetter(0);
    var s := Index(u[1]);
    assert Encode(u) == s;
    var d := Decode(s);
    assert d == [Letter(s)];
    assert Decode(Encode(u)) == [u[1]];
  }

  /** The script's self-test `decode(63)` and `encode('вб')` (cp3.py:146). */
  lemma CodecVector()
    ensures Decode(63) == "вб" && Encode("вб") == 63
  {
    IndexOfLetter(2);
    IndexOfLetter(1);
    assert Letter(2) == 'в' && Letter(1) == 'б';
  }
}

/**
 * The reference statistics of the target language (cp3.py:8-10): the three
 * most frequent and three rarest letters and the five most frequent digrams.
 */
module Reference {
  import opened SeqUtil
  import opened DigramCodec

  const FREQ_L: string := "оеа"
  const RARE_L: string := "щэф"
  const BIGRAMS: seq<string> := ["ст", "но", "то", "на", "ен"]

  /** The constants are letters and digrams of the alphabet; the digram list
      holds five distinct entries and the two letter sets are disjoint. */
  lemma ReferenceWellFormed()
    ensures InAlphabet(FREQ_L) && InAlphabet(RARE_L)
    ensures forall c :: c in FREQ_L ==> c !in RARE_L
    ensures |BIGRAMS| == 5 && Distinct(BIGRAMS)
    ensures forall k :: k in BIGRAMS ==> Digram(k)
  {
    forall k | k in BIGRAMS
      ensures Digram(k)
    {
      var r :| 0 <= r < 5 && BIGRAMS[r] == k;
    }
  }
}
