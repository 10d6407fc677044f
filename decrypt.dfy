/**
 * Decryption under a candidate key (`decrypt`, cp3.py:89-93): the
 * ciphertext is cut into units of two letters (the last may be a single
 * letter), and each unit `y` becomes the decoding of the solutions of
 * `a*x == y - b (mod M²)`.
 */
module Decryption {
  import opened SeqUtil
  import opened ModularArithmetic
  import opened DigramCodec

  /** A key `(a, b)` of the cipher `y = a*x + b (mod M²)`. */
  datatype Key = Key(a: int, b: int)

  /** `decode` applied to what `lin_cmp` returns: a residue, the sentinel 0
      (which decodes like the code 0), or a list of residues. */
  function DecodeSolutions(s: Solutions): (u: string)
    requires Residues(s, N)
    ensures InAlphabet(u)
    ensures !s.Several? ==> u == Decode(AsScalar(s))
  {
    match s
    case Unique(x) => Decode(x)
    case NoSolution => Decode(0)
    case Several(xs) => DecodeAll(xs)
  }

  /** The ciphertext unit at position `i`, `ct[i:i+2]`: two letters, or one
      letter at the very end of an odd-length text. */
  function Unit(ct: string, i: nat): (u: string)
    requires i < |ct| && InAlphabet(ct)
    ensures 1 <= |u| <= 2 && InAlphabet(u)
    ensures |u| == 1 <==> i == |ct| - 1
  {
    if i + 2 <= |ct| then ct[i..i + 2] else ct[i..]
  }

  /** The plaintext piece of one ciphertext unit. */
  function DecryptUnit(key: Key, u: string): (p: string)
    requires 1 <= |u| <= 2 && InAlphabet(u)
    ensures InAlphabet(p)
  {
    LinCmpResidues(key.a, Encode(u) - key.b, N);
    DecodeSolutions(LinCmp(key.a, Encode(u) - key.b, N))
  }

  /** Number of units of a ciphertext, `ceil(|ct| / 2)`. */
  function UnitCount(ct: string): nat {
    (|ct| + 1) / 2
  }

  /** The plaintext pieces of the units, in order. */
  function Pieces(ct: string, key: Key): (ps: seq<string>)
    requires InAlphabet(ct)
    ensures |ps| == UnitCount(ct)
    ensures forall j :: 0 <= j < |ps| ==> InAlphabet(ps[j])
  {
    seq(UnitCount(ct), j requires 0 <= j < UnitCount(ct) => DecryptUnit(key, Unit(ct, 2 * j)))
  }

  /** The whole decryption: the pieces joined. */
  function DecryptText(ct: string, key: Key): string
    requires InAlphabet(ct)
  {
    Concat(Pieces(ct, key))
  }

  /** `decrypt(ct, key)`: the loop over the units, appending each piece. */
  method Decrypt(ct: string, key: Key) returns (pt: string)
    requires InAlphabet(ct)
    ensures pt == DecryptText(ct, key)
  {
    ghost var ps := Pieces(ct, key);
    pt := "";
    var i := 0;
    ghost var k := 0;
    while i < |ct|
      invariant i == 2 * k && k <= |ps|
      invariant pt == Concat(ps[..k])
    {
      assert ps[k] == DecryptUnit(key, Unit(ct, i));
      assert ps[..k + 1][..k] == ps[..k];
      pt := pt + DecryptUnit(key, Unit(ct, i));
      i, k := i + 2, k + 1;
    }
    assert ps[..k] == ps;
  }

  /** The encryption the attack inverts: unit `w` becomes the unit whose code
      is `a*encode(w) + b mod M²`.  It is not part of the script; it states
      what a correct decryption undoes. */
  function EncryptUnit(key: Key, w: string): (u: string)
    requires 1 <= |w| <= 2 && InAlphabet(w)
    ensures 1 <= |u| <= 2 && InAlphabet(u)
  {
    Decode((key.a * Encode(w) + key.b) % N)
  }

  /** Under a key whose `a` is invertible modulo `M²`, each piece is a single
      unit that the key maps onto the ciphertext unit, and it is the decoding
      of every code that the key maps there. */
  lemma DecryptUnitInverts(key: Key, u: string)
    requires 1 <= |u| <= 2 && InAlphabet(u)
    requires IsGcd(1, N, key.a)
    ensures 1 <= |DecryptUnit(key, u)| <= 2
    ensures Congruent(key.a * Encode(DecryptUnit(key, u)) + key.b, Encode(u), N)
    ensures forall y :: 0 <= y < N && Congruent(key.a * y + key.b, Encode(u), N) ==>
      DecryptUnit(key, u) == Decode(y)
  {
    var c := Encode(u) - key.b;
    LinCmpUnique(key.a, c, N);
    var x := LinCmp(key.a, c, N).x;
    assert DecryptUnit(key, u) == Decode(x);
    EncodeDecode(x);
    assert Solves(key.a, c, N, x);
    forall y | 0 <= y < N && Congruent(key.a * y + key.b, Encode(u), N)
      ensures y == x
    {
      assert (key.a * y + key.b) - Encode(u) == key.a * y - c;
      assert Solves(key.a, c, N, y);
    }
  }

  /** Decryption undoes encryption under an invertible `a`: the result is the
      unit `decode(encode(w))`, which is `w` itself unless `w` is a digram
      starting with `ALPHABET[0]`. */
  lemma DecryptEncrypt(key: Key, w: string)
    requires 1 <= |w| <= 2 && InAlphabet(w)
    requires IsGcd(1, N, key.a)
    ensures DecryptUnit(key, EncryptUnit(key, w)) == Decode(Encode(w))
  {
    var x := Encode(w);
    var y := (key.a * x + key.b) % N;
    var u := EncryptUnit(key, w);
    EncodeDecode(y);
    CongruentMod(key.a * x + key.b, N);
    CongruentSym(y, key.a * x + key.b, N);
    assert Congruent(key.a * x + key.b, Encode(u), N);
    DecryptUnitInverts(key, u);
  }

  /** A ciphertext unit that no plaintext code maps onto decrypts to the
      first letter of the alphabet (the sentinel 0 of `lin_cmp`). */
  lemma DecryptUnitNoPreimage(key: Key, u: string)
    requires 1 <= |u| <= 2 && InAlphabet(u)
    requires forall y :: !Congruent(key.a * y + key.b, Encode(u), N)
    ensures DecryptUnit(key, u) == [Letter(0)]
  {
    var c := Encode(u) - key.b;
    forall y
      ensures !Solves(key.a, c, N, y)
    {
      assert (key.a * y + key.b) - Encode(u) == key.a * y - c;
    }
    LinCmpNoSolution(key.a, c, N);
  }
}
