/** `find_closest_match`: replacing the last character of an unknown token from a
    same-length dictionary word that agrees with it everywhere else. */
module Corrector {
  import opened Wrappers
  import opened Errors
  import opened Text
  import opened Dictionary

  /** `remove_last_char(w) == given_word_lower`: `w` agrees with the lower-cased token
      prefix `p` everywhere but in its last character. */
  predicate Matches(w: string, p: string) {
    RemoveLastChar(w) == p
  }

  /** The lexicographically least word of `ws` that matches `p`, which is the first match
      in `sorted(ws)`; None when no word matches. */
  function LeastMatch(ws: seq<string>, p: string): Option<string>
    decreases |ws|
  {
    if |ws| == 0 then None
    else
      var w := ws[|ws| - 1];
      var best := LeastMatch(ws[..|ws| - 1], p);
      if !Matches(w, p) then best
      else if best.Some? && LexLe(best.value, w) then best
      else Some(w)
  }

  /** `w` is a matching word of `ws` that sorts no later than any other matching word. */
  ghost predicate IsLeastMatch(w: string, ws: seq<string>, p: string) {
    && w in ws
    && Matches(w, p)
    && forall v :: v in ws && Matches(v, p) ==> LexLe(w, v)
  }

  lemma {:induction false} LeastMatchIsLeast(ws: seq<string>, p: string)
    ensures LeastMatch(ws, p).None? <==> forall w :: w in ws ==> !Matches(w, p)
    ensures LeastMatch(ws, p).Some? ==> IsLeastMatch(LeastMatch(ws, p).value, ws, p)
    decreases |ws|
  {
    if |ws| > 0 {
      var w := ws[|ws| - 1];
      var front := ws[..|ws| - 1];
      assert ws == front + [w];
      LeastMatchIsLeast(front, p);
      var best := LeastMatch(front, p);
      if Matches(w, p) && best.Some? && !LexLe(best.value, w) {
        LexLeTotal(best.value, w);
        forall v | v in ws && Matches(v, p) ensures LexLe(w, v) {
          if v in front {
            LexLeTransitive(w, best.value, v);
          } else {
            LexLeTotal(w, v);
          }
        }
      } else if Matches(w, p) && best.None? {
        LexLeTotal(w, w);
      }
    }
  }

  /** The case of the token's last character carried over: upper-cased when the token ended
      in an upper-case letter, the dictionary word's character unchanged otherwise. */
  function MatchCase(last: char, c: char): (r: char)
    ensures ToLower(r) == ToLower(c)
    ensures IsUpper(last) ==> !IsLower(r)
    ensures !IsUpper(last) ==> r == c
  {
    if IsUpper(last) then ToUpper(c) else c
  }

  /** What `find_closest_match(word, d)` returns, or the failure it ends in. */
  function ClosestMatch(word: string, d: Dict): (r: Result<string, Error>)
    requires |word| > 0
    ensures r.Ok? ==> |r.value| == |word| && RemoveLastChar(r.value) == RemoveLastChar(word)
  {
    var givenWord := RemoveLastChar(word);
    match LeastMatch(Bucket(d, |word|), Lower(givenWord))
    case None => Err(NoMatch)
    case Some(w) =>
      if |w| == 0 then Err(EmptyCandidate)
      else Ok(givenWord + [MatchCase(word[|word| - 1], w[|w| - 1])])
  }

  /** The correction fails with NoMatch exactly when no same-length bucket word matches the
      lower-cased prefix; otherwise it is built from the least matching word: the token's own
      prefix, case kept, then that word's last character in the token's case. */
  lemma ClosestMatchChoosesLeast(word: string, d: Dict)
    requires |word| > 0
    ensures var p := Lower(RemoveLastChar(word));
      ClosestMatch(word, d) == Err(NoMatch) <==> forall w :: w in Bucket(d, |word|) ==> !Matches(w, p)
    ensures var p := Lower(RemoveLastChar(word));
      ClosestMatch(word, d).Ok? ==>
        exists w :: IsLeastMatch(w, Bucket(d, |word|), p) && |w| > 0 &&
          ClosestMatch(word, d).value == RemoveLastChar(word) + [MatchCase(word[|word| - 1], w[|w| - 1])]
    ensures ClosestMatch(word, d) == Err(EmptyCandidate) ==> |word| == 1 && "" in Bucket(d, 1)
  {
    var p := Lower(RemoveLastChar(word));
    LeastMatchIsLeast(Bucket(d, |word|), p);
  }

  /** Against a well-formed dictionary the only failure is NoMatch, and a token one last
      character away from a bucket word is always corrected. */
  lemma ClosestMatchFound(word: string, d: Dict, w: string)
    requires WellFormed(d) && |word| > 0
    requires w in Bucket(d, |word|) && Matches(w, Lower(RemoveLastChar(word)))
    ensures ClosestMatch(word, d).Ok?
  {
    var p := Lower(RemoveLastChar(word));
    LeastMatchIsLeast(Bucket(d, |word|), p);
    var m := LeastMatch(Bucket(d, |word|), p).value;
    assert m in d[|word|];
  }

  /** The choice depends only on which words the bucket holds, not on their order or
      repetition: the same token gets the same correction. */
  lemma ClosestMatchIgnoresBucketOrder(word: string, d1: Dict, d2: Dict)
    requires |word| > 0
    requires forall w :: w in Bucket(d1, |word|) <==> w in Bucket(d2, |word|)
    ensures ClosestMatch(word, d1) == ClosestMatch(word, d2)
  {
    var p := Lower(RemoveLastChar(word));
    var b1, b2 := Bucket(d1, |word|), Bucket(d2, |word|);
    LeastMatchIsLeast(b1, p);
    LeastMatchIsLeast(b2, p);
    var m1, m2 := LeastMatch(b1, p), LeastMatch(b2, p);
    if m1.Some? && m2.Some? {
      LexLeAntisymmetric(m1.value, m2.value);
    }
  }

  /** `find_closest_match`: scans the same-length bucket and keeps the least matching word
      (the first match of the sorted bucket), then rebuilds the token around its last character. */
  method FindClosestMatch(word: string, d: Dict) returns (r: Result<string, Error>)
    requires |word| > 0
    ensures r == ClosestMatch(word, d)
  {
    var givenWord := RemoveLastChar(word);
    var givenWordLower := Lower(givenWord);
    var candidates := Bucket(d, |word|);
    var best: Option<string> := None;
    for i := 0 to |candidates|
      invariant best == LeastMatch(candidates[..i], givenWordLower)
    {
      var w := candidates[i];
      assert candidates[..i + 1][..i] == candidates[..i];
      if RemoveLastChar(w) == givenWordLower && (best.None? || !LexLe(best.value, w)) {
        best := Some(w);
      }
    }
    assert candidates[..|candidates|] == candidates;
    match best
    case None =>
      r := Err(NoMatch);
    case Some(w) =>
      if |w| == 0 {
        r := Err(EmptyCandidate);
      } else if IsUpper(word[|word| - 1]) {
        r := Ok(givenWord + [ToUpper(w[|w| - 1])]);
      } else {
        r := Ok(givenWord + [w[|w| - 1]]);
      }
  }
}
