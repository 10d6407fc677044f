/**
 * Choosing the keys (cp3.py:154-159): decrypt the ciphertext under every
 * candidate key, keep the keys whose plaintext scores more than 4, and drop
 * repeated keys keeping first occurrences.  Scoring raises on a plaintext
 * with fewer than five distinct digrams, and then nothing is chosen.
 */
module Selection {
  import opened SeqUtil
  import opened DigramCodec
  import opened Decryption
  import opened KeySearch
  import opened Plausibility

  /** The threshold a plaintext score must exceed. */
  const THRESHOLD: nat := 4

  /** The keys that pass, in candidate order with repeats, given the score of
      each candidate's plaintext; `None` once a score is missing. */
  function Passing(cands: seq<Key>, scores: seq<Option<nat>>): Option<seq<Key>>
    requires |scores| == |cands|
  {
    if cands == [] then Some([])
    else
      var n := |cands| - 1;
      match Passing(cands[..n], scores[..n])
      case None => None
      case Some(kept) =>
        match scores[n]
        case None => None
        case Some(v) => Some(if v > THRESHOLD then kept + [cands[n]] else kept)
  }

  /** The score of the decryption under each candidate. */
  function Scores(ct: string, cands: seq<Key>): (scores: seq<Option<nat>>)
    requires InAlphabet(ct)
    ensures |scores| == |cands|
  {
    seq(|cands|, t requires 0 <= t < |cands| => Score(DecryptText(ct, cands[t])))
  }

  /** The keys the script prints: the passing candidates, each once. */
  function SelectKeys(ct: string, cands: seq<Key>): Option<seq<Key>>
    requires InAlphabet(ct)
  {
    match Passing(cands, Scores(ct, cands))
    case None => None
    case Some(kept) => Some(Dedup(kept))
  }

  /** Passing fails exactly when some score is missing. */
  lemma {:induction false} PassingFails(cands: seq<Key>, scores: seq<Option<nat>>)
    requires |scores| == |cands|
    ensures Passing(cands, scores).None? <==> exists t :: 0 <= t < |cands| && scores[t].None?
  {
    if cands != [] {
      var n := |cands| - 1;
      PassingFails(cands[..n], scores[..n]);
      if exists t :: 0 <= t < n && scores[..n][t].None? {
        var t :| 0 <= t < n && scores[..n][t].None?;
        assert scores[t].None?;
      }
      if exists t :: 0 <= t < |cands| && scores[t].None? {
        var t :| 0 <= t < |cands| && scores[t].None?;
        if t < n {
          assert scores[..n][t].None?;
        }
      }
    }
  }

  /** A key passes exactly when it is a candidate whose score exceeds the
      threshold. */
  lemma {:induction false} PassingMember(cands: seq<Key>, scores: seq<Option<nat>>, key: Key)
    requires |scores| == |cands| && Passing(cands, scores).Some?
    ensures key in Passing(cands, scores).value <==>
      exists t :: 0 <= t < |cands| && cands[t] == key && scores[t].Some? && scores[t].value > THRESHOLD
  {
    if cands != [] {
      var n := |cands| - 1;
      PassingMember(cands[..n], scores[..n], key);
      if exists t :: 0 <= t < n && cands[..n][t] == key && scores[..n][t].Some? && scores[..n][t].value > THRESHOLD {
        var t :| 0 <= t < n && cands[..n][t] == key && scores[..n][t].Some? && scores[..n][t].value > THRESHOLD;
        assert cands[t] == key && scores[t] == scores[..n][t];
      }
      if exists t :: 0 <= t < |cands| && cands[t] == key && scores[t].Some? && scores[t].value > THRESHOLD {
        var t :| 0 <= t < |cands| && cands[t] == key && scores[t].Some? && scores[t].value > THRESHOLD;
        if t < n {
          assert cands[..n][t] == key && scores[..n][t] == scores[t];
        }
      }
    }
  }

  /** One more candidate extends the passing keys. */
  lemma PassingStep(cands: seq<Key>, scores: seq<Option<nat>>, t: nat)
    requires |scores| == |cands| && t < |cands|
    ensures Passing(cands[..t + 1], scores[..t + 1]) ==
      if Passing(cands[..t], scores[..t]).None? || scores[t].None? then None
      else if scores[t].value > THRESHOLD then Some(Passing(cands[..t], scores[..t]).value + [cands[t]])
      else Passing(cands[..t], scores[..t])
  {
    assert cands[..t + 1][..t] == cands[..t];
    assert scores[..t + 1][..t] == scores[..t];
  }

  /** Equal candidates have equal scores. */
  ghost predicate Consistent(cands: seq<Key>, scores: seq<Option<nat>>)
    requires |scores| == |cands|
  {
    forall s, t :: 0 <= s < |cands| && 0 <= t < |cands| && cands[s] == cands[t] ==> scores[s] == scores[t]
  }

  /** When equal candidates score equally, the passing keys keep the order
      in which they first occur among the candidates. */
  lemma {:induction false} PassingOrder(cands: seq<Key>, scores: seq<Option<nat>>, x: Key, y: Key)
    requires |scores| == |cands| && Consistent(cands, scores)
    requires Passing(cands, scores).Some?
    requires x in Passing(cands, scores).value && y in Passing(cands, scores).value
    requires FirstIndex(Passing(cands, scores).value, x) < FirstIndex(Passing(cands, scores).value, y)
    ensures x in cands && y in cands && FirstIndex(cands, x) < FirstIndex(cands, y)
  {
    var n := |cands| - 1;
    var init, c := cands[..n], cands[n];
    var kept := Passing(init, scores[..n]).value;
    var all := Passing(cands, scores).value;
    assert cands == init + [c];
    assert Consistent(init, scores[..n]) by {
      forall s, t | 0 <= s < n && 0 <= t < n && init[s] == init[t]
        ensures scores[..n][s] == scores[..n][t]
      {
        assert cands[s] == cands[t];
      }
    }
    PassingMember(cands, scores, x);
    PassingMember(cands, scores, y);
    if y in kept {
      FirstIndexSnoc(kept, c, y);
      assert x in kept by {
        if all != kept {
          assert all == kept + [c];
          assert all[..FirstIndex(all, y)] == kept[..FirstIndex(kept, y)];
        }
      }
      if all != kept {
        FirstIndexSnoc(kept, c, x);
      }
      PassingOrder(init, scores[..n], x, y);
      FirstIndexSnoc(init, c, x);
      FirstIndexSnoc(init, c, y);
    } else {
      assert all == kept + [c] && y == c;
      FirstIndexOfNew(kept, c);
      assert x in kept by {
        assert x in all[..FirstIndex(all, y)];
      }
      PassingMember(init, scores[..n], x);
      var s :| 0 <= s < n && init[s] == x && scores[..n][s].Some? && scores[..n][s].value > THRESHOLD;
      assert x in init;
      FirstIndexSnoc(init, c, x);
      if c in init {
        var t :| 0 <= t < n && init[t] == c;
        assert scores[..n][t] == scores[t] == scores[n];
        PassingMember(init, scores[..n], c);
        assert false;
      } else {
        FirstIndexOfNew(init, c);
      }
    }
  }

  /** Generic form of the choice, over the scores of the candidates. */
  lemma ChosenKeys(cands: seq<Key>, scores: seq<Option<nat>>)
    requires |scores| == |cands| && Consistent(cands, scores)
    requires Passing(cands, scores).Some?
    ensures Distinct(Dedup(Passing(cands, scores).value))
    ensures forall key :: key in Dedup(Passing(cands, scores).value) <==>
      exists t :: 0 <= t < |cands| && cands[t] == key && scores[t].Some? && scores[t].value > THRESHOLD
    ensures forall x :: x in Dedup(Passing(cands, scores).value) ==> x in cands
    ensures forall x, y :: x in Dedup(Passing(cands, scores).value) && y in Dedup(Passing(cands, scores).value) ==>
      (FirstIndex(Dedup(Passing(cands, scores).value), x) < FirstIndex(Dedup(Passing(cands, scores).value), y)
       <==> FirstIndex(cands, x) < FirstIndex(cands, y))
  {
    var kept := Passing(cands, scores).value;
    var r := Dedup(kept);
    DedupSpec(kept);
    forall key
      ensures key in r <==>
        exists t :: 0 <= t < |cands| && cands[t] == key && scores[t].Some? && scores[t].value > THRESHOLD
    {
      PassingMember(cands, scores, key);
    }
    forall x, y | x in r && y in r
      ensures x in cands && y in cands
      ensures FirstIndex(r, x) < FirstIndex(r, y) <==> FirstIndex(cands, x) < FirstIndex(cands, y)
    {
      var i, j := FirstIndex(r, x), FirstIndex(r, y);
      if i < j {
        PassingOrder(cands, scores, x, y);
      } else if j < i {
        PassingOrder(cands, scores, y, x);
      }
    }
  }

  /** No key is chosen exactly when some candidate's plaintext cannot be
      scored. */
  lemma SelectKeysFails(ct: string, cands: seq<Key>)
    requires InAlphabet(ct)
    ensures SelectKeys(ct, cands).None? <==>
      exists key :: key in cands && Score(DecryptText(ct, key)).None?
  {
    var scores := Scores(ct, cands);
    PassingFails(cands, scores);
    if exists key :: key in cands && Score(DecryptText(ct, key)).None? {
      var key :| key in cands && Score(DecryptText(ct, key)).None?;
      var t :| 0 <= t < |cands| && cands[t] == key;
      assert scores[t].None?;
    }
  }

  /** Otherwise the chosen keys are the candidates whose plaintext scores
      more than 4, each once, in the order of their first occurrences among
      the candidates. */
  lemma SelectKeysChosen(ct: string, cands: seq<Key>)
    requires InAlphabet(ct) && SelectKeys(ct, cands).Some?
    ensures Distinct(SelectKeys(ct, cands).value)
    ensures forall key :: key in SelectKeys(ct, cands).value <==>
      key in cands && Score(DecryptText(ct, key)).Some? && Score(DecryptText(ct, key)).value > THRESHOLD
    ensures forall x, y :: x in SelectKeys(ct, cands).value && y in SelectKeys(ct, cands).value ==>
      (FirstIndex(SelectKeys(ct, cands).value, x) < FirstIndex(SelectKeys(ct, cands).value, y)
       <==> FirstIndex(cands, x) < FirstIndex(cands, y))
  {
    var scores := Scores(ct, cands);
    ChosenKeys(cands, scores);
    forall key | key in cands && Score(DecryptText(ct, key)).Some? && Score(DecryptText(ct, key)).value > THRESHOLD
      ensures exists t :: 0 <= t < |cands| && cands[t] == key && scores[t].Some? && scores[t].value > THRESHOLD
    {
      var t :| 0 <= t < |cands| && cands[t] == key;
      assert scores[t] == Score(DecryptText(ct, key));
    }
  }

  /** `sensible(decrypt(data, k))` for one candidate key. */
  method ScoreKey(ct: string, key: Key) returns (score: Option<nat>)
    requires InAlphabet(ct)
    ensures score == Score(DecryptText(ct, key))
  {
    var pt := Decrypt(ct, key);
    score := Sensible(pt);
  }

  /** The loop at cp3.py:154-158 over a given candidate list, then the
      deduplication at line 159. */
  method SelectFrom(ct: string, candidates: seq<Key>) returns (keys: Option<seq<Key>>)
    requires InAlphabet(ct)
    ensures keys == SelectKeys(ct, candidates)
  {
    ghost var scores := Scores(ct, candidates);
    var kept: seq<Key> := [];
    for t := 0 to |candidates|
      invariant Passing(candidates[..t], scores[..t]) == Some(kept)
    {
      var score := ScoreKey(ct, candidates[t]);
      assert scores[t] == score;
      PassingStep(candidates, scores, t);
      if score.None? {
        PassingFails(candidates, scores);
        return None;
      }
      if score.value > THRESHOLD {
        kept := kept + [candidates[t]];
      }
    }
    assert candidates[..|candidates|] == candidates;
    assert scores[..|candidates|] == scores;
    keys := Some(Dedup(kept));
  }

  /** The script's last step: score the decryption under every candidate
      key, keep the keys scoring above the threshold, then drop repeats. */
  method ChooseKeys(ct: string) returns (keys: Option<seq<Key>>)
    requires InAlphabet(ct)
    ensures keys == SelectKeys(ct, Candidates(ct))
  {
    var candidates := FindKeys(ct);
    keys := SelectFrom(ct, candidates);
  }
}
