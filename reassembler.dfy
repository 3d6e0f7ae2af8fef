/** Checking a sentence (`is_correct_sentence`) and rebuilding it with every unknown token
    corrected (`correct_sentence`). */
module Reassembler {
  import opened Wrappers
  import opened Errors
  import opened Text
  import opened Tokenizer
  import opened Dictionary
  import opened Corrector

  /** Every token is in the dictionary. */
  predicate AllKnown(ts: seq<string>, d: Dict) {
    forall k :: 0 <= k < |ts| ==> PresentInDict(ts[k], d)
  }

  /** `is_correct_sentence`: stops at the first unknown token. */
  method IsCorrectSentence(sentence: string, d: Dict) returns (ok: bool)
    ensures ok <==> forall t :: t in ListWords(sentence) ==> PresentInDict(t, d)
  {
    var words := ListWords(sentence);
    for i := 0 to |words|
      invariant AllKnown(words[..i], d)
    {
      if !PresentInDict(words[i], d) {
        assert words[i] in words;
        return false;
      }
    }
    assert words[..|words|] == words;
    AllKnownMembers(words, d);
    return true;
  }

  lemma AllKnownMembers(ts: seq<string>, d: Dict)
    requires AllKnown(ts, d)
    ensures forall t :: t in ts ==> PresentInDict(t, d)
  {
    forall t | t in ts ensures PresentInDict(t, d) {
      var k :| 0 <= k < |ts| && ts[k] == t;
    }
  }

  /** What one iteration of `correct_sentence` emits for a token: the token itself when it
      is known, its closest match otherwise. */
  function CorrectToken(t: string, d: Dict): Result<string, Error>
    requires |t| > 0
  {
    if PresentInDict(t, d) then Ok(t) else ClosestMatch(t, d)
  }

  /** A known token is kept; any correction has the token's length and keeps all but its
      last character. */
  lemma CorrectTokenKeepsStem(t: string, d: Dict)
    requires |t| > 0
    ensures PresentInDict(t, d) ==> CorrectToken(t, d) == Ok(t)
    ensures var r := CorrectToken(t, d);
      r.Ok? ==> |r.value| == |t| && RemoveLastChar(r.value) == RemoveLastChar(t)
  {
  }

  /** The tokens corrected one by one, left to right; the first failure ends the sentence. */
  function CorrectWords(ts: seq<string>, d: Dict): Result<seq<string>, Error>
    requires forall k :: 0 <= k < |ts| ==> |ts[k]| > 0
    decreases |ts|
  {
    if |ts| == 0 then Ok([])
    else
      var t := ts[|ts| - 1];
      match CorrectWords(ts[..|ts| - 1], d)
      case Err(e) => Err(e)
      case Ok(ws) =>
        match CorrectToken(t, d)
        case Err(e) => Err(e)
        case Ok(w) => Ok(ws + [w])
  }

  /** On success there is one corrected word per token, each that token's own correction. */
  lemma {:induction false} CorrectWordsOk(ts: seq<string>, d: Dict)
    requires forall k :: 0 <= k < |ts| ==> |ts[k]| > 0
    requires CorrectWords(ts, d).Ok?
    ensures |CorrectWords(ts, d).value| == |ts|
    ensures forall k :: 0 <= k < |ts| ==> CorrectToken(ts[k], d) == Ok(CorrectWords(ts, d).value[k])
    decreases |ts|
  {
    if |ts| > 0 {
      var front := ts[..|ts| - 1];
      assert CorrectWords(front, d).Ok?;
      CorrectWordsOk(front, d);
      var ws := CorrectWords(front, d).value;
      var w := CorrectToken(ts[|ts| - 1], d).value;
      assert CorrectWords(ts, d).value == ws + [w];
      PointwiseSnoc(ts, d, ws, w);
    }
  }

  lemma PointwiseSnoc(ts: seq<string>, d: Dict, ws: seq<string>, w: string)
    requires |ts| > 0 && |ws| == |ts| - 1
    requires forall k :: 0 <= k < |ts| ==> |ts[k]| > 0
    requires forall k :: 0 <= k < |ws| ==> CorrectToken(ts[..|ts| - 1][k], d) == Ok(ws[k])
    requires CorrectToken(ts[|ts| - 1], d) == Ok(w)
    ensures forall k :: 0 <= k < |ts| ==> CorrectToken(ts[k], d) == Ok((ws + [w])[k])
  {
    forall k | 0 <= k < |ts| ensures CorrectToken(ts[k], d) == Ok((ws + [w])[k]) {
      if k < |ws| {
        assert ts[k] == ts[..|ts| - 1][k];
      }
    }
  }

  /** On failure some token's correction failed with that error. */
  lemma {:induction false} CorrectWordsErr(ts: seq<string>, d: Dict)
    requires forall k :: 0 <= k < |ts| ==> |ts[k]| > 0
    requires CorrectWords(ts, d).Err?
    ensures exists k :: 0 <= k < |ts| && CorrectToken(ts[k], d) == Err(CorrectWords(ts, d).error)
    decreases |ts|
  {
    var front := ts[..|ts| - 1];
    if CorrectWords(front, d).Err? {
      CorrectWordsErr(front, d);
      var k :| 0 <= k < |front| && CorrectToken(front[k], d) == Err(CorrectWords(front, d).error);
      assert ts[k] == front[k];
    } else {
      assert CorrectToken(ts[|ts| - 1], d) == Err(CorrectWords(ts, d).error);
    }
  }

  /** What `correct_sentence(sentence, d)` returns: the corrected tokens joined by single
      spaces, then the sentence's last character; or the failure it raises. */
  function Corrected(sentence: string, d: Dict): Result<string, Error> {
    if |sentence| == 0 then Err(EmptySentence)
    else
      match CorrectWords(ListWords(sentence), d)
      case Err(e) => Err(e)
      case Ok(ws) => Ok(Join(ws) + [sentence[|sentence| - 1]])
  }

  /** What the loop of `correct_sentence` accumulates: every word followed by one space. */
  function Spaced(ws: seq<string>): string
    decreases |ws|
  {
    if |ws| == 0 then [] else Spaced(ws[..|ws| - 1]) + ws[|ws| - 1] + " "
  }

  /** Dropping the trailing space of the accumulated words gives their single-space join. */
  lemma {:induction false} SpacedIsJoinPlusSpace(ws: seq<string>)
    ensures RemoveLastChar(Spaced(ws)) == Join(ws)
    ensures |ws| > 0 ==> Spaced(ws) == Join(ws) + " "
    decreases |ws|
  {
    if |ws| > 0 {
      var front := ws[..|ws| - 1];
      var w := ws[|ws| - 1];
      assert ws == front + [w];
      SpacedIsJoinPlusSpace(front);
      if |front| > 0 {
        JoinSnoc(front, w);
      } else {
        assert ws == [w];
      }
      assert Spaced(ws) == Join(ws) + " ";
      assert RemoveLastChar(Join(ws) + " ") == Join(ws);
    }
  }

  /** Once a prefix of the tokens fails, the whole sentence fails with that error. */
  lemma {:induction false} CorrectWordsErrPrefix(ts: seq<string>, i: nat, d: Dict)
    requires i <= |ts|
    requires forall k :: 0 <= k < |ts| ==> |ts[k]| > 0
    requires CorrectWords(ts[..i], d).Err?
    ensures CorrectWords(ts, d) == CorrectWords(ts[..i], d)
    decreases |ts| - i
  {
    if i < |ts| {
      assert ts[..i + 1] == ts[..i] + [ts[i]];
      CorrectWordsSnocErr(ts[..i], ts[i], d);
      CorrectWordsErrPrefix(ts, i + 1, d);
    } else {
      assert ts[..i] == ts;
    }
  }

  lemma CorrectWordsSnocErr(ts: seq<string>, t: string, d: Dict)
    requires forall k :: 0 <= k < |ts| ==> |ts[k]| > 0
    requires |t| > 0
    requires CorrectWords(ts, d).Err?
    ensures CorrectWords(ts + [t], d) == CorrectWords(ts, d)
  {
    assert (ts + [t])[..|ts|] == ts;
  }

  /** One more token that corrects to `w` adds `w` to the corrected words and `w` plus a
      space to what the loop of `correct_sentence` has accumulated. */
  lemma CorrectStepOk(ts: seq<string>, i: nat, d: Dict, ws: seq<string>, w: string)
    requires forall k :: 0 <= k < |ts| ==> |ts[k]| > 0
    requires i < |ts|
    requires CorrectWords(ts[..i], d) == Ok(ws) && CorrectToken(ts[i], d) == Ok(w)
    ensures CorrectWords(ts[..i + 1], d) == Ok(ws + [w])
    ensures Spaced(ws + [w]) == Spaced(ws) + w + " "
  {
    assert ts[..i + 1][..i] == ts[..i];
    assert (ws + [w])[..|ws|] == ws;
  }

  /** One more token whose correction fails makes all the tokens fail with its error. */
  lemma CorrectStepErr(ts: seq<string>, i: nat, d: Dict, ws: seq<string>)
    requires forall k :: 0 <= k < |ts| ==> |ts[k]| > 0
    requires i < |ts|
    requires CorrectWords(ts[..i], d) == Ok(ws) && CorrectToken(ts[i], d).Err?
    ensures CorrectWords(ts, d) == Err(CorrectToken(ts[i], d).error)
  {
    assert ts[..i + 1][..i] == ts[..i];
    CorrectWordsErrPrefix(ts, i + 1, d);
  }

  /** The loop of `correct_sentence`: each token (or its correction) followed by a space,
      stopping at the first token that has no correction. */
  method AccumulateCorrections(words: seq<string>, d: Dict) returns (r: Result<string, Error>)
    requires forall k :: 0 <= k < |words| ==> |words[k]| > 0
    ensures r.Ok? <==> CorrectWords(words, d).Ok?
    ensures r.Ok? ==> r.value == Spaced(CorrectWords(words, d).value)
    ensures r.Err? ==> r.error == CorrectWords(words, d).error
  {
    var newSentence := "";
    ghost var fixed: seq<string> := [];
    for i := 0 to |words|
      invariant CorrectWords(words[..i], d) == Ok(fixed)
      invariant newSentence == Spaced(fixed)
    {
      var word := words[i];
      var emitted: string;
      if PresentInDict(word, d) {
        emitted := word;
      } else {
        var m := FindClosestMatch(word, d);
        if m.Err? {
          CorrectStepErr(words, i, d, fixed);
          return Err(m.error);
        }
        emitted := m.value;
      }
      CorrectStepOk(words, i, d, fixed, emitted);
      newSentence := newSentence + emitted + " ";
      fixed := fixed + [emitted];
    }
    assert words[..|words|] == words;
    return Ok(newSentence);
  }

  /** `correct_sentence`: takes the last character, accumulates the corrected tokens, and
      finally drops the last space. */
  method CorrectSentence(sentence: string, d: Dict) returns (r: Result<string, Error>)
    ensures r == Corrected(sentence, d)
  {
    if |sentence| == 0 {
      return Err(EmptySentence);
    }
    var endPunc := sentence[|sentence| - 1];
    var words := ListWords(sentence);
    var newSentence := AccumulateCorrections(words, d);
    if newSentence.Err? {
      return Err(newSentence.error);
    }
    CorrectedOk(sentence, d, CorrectWords(words, d).value);
    r := Ok(RemoveLastChar(newSentence.value) + [endPunc]);
  }

  lemma CorrectedOk(sentence: string, d: Dict, ws: seq<string>)
    requires |sentence| > 0 && CorrectWords(ListWords(sentence), d) == Ok(ws)
    ensures Corrected(sentence, d) == Ok(RemoveLastChar(Spaced(ws)) + [sentence[|sentence| - 1]])
  {
    SpacedIsJoinPlusSpace(ws);
  }


  /** A sentence whose tokens are all known comes back as its tokens joined by single spaces
      plus its last character. */
  lemma CorrectedKnownSentence(sentence: string, d: Dict)
    requires |sentence| > 0
    requires AllKnown(ListWords(sentence), d)
    ensures Corrected(sentence, d) == Ok(Join(ListWords(sentence)) + [sentence[|sentence| - 1]])
  {
    var ts := ListWords(sentence);
    CorrectWordsAllKnown(ts, d);
    var last := sentence[|sentence| - 1];
    assert Corrected(sentence, d) == Ok(Join(ts) + [last]);
  }

  /** A sentence without tokens comes back as just its last character. */
  lemma CorrectedNoWords(sentence: string, d: Dict)
    requires |sentence| > 0
    requires |ListWords(sentence)| == 0
    ensures Corrected(sentence, d) == Ok([sentence[|sentence| - 1]])
  {
    var ts := ListWords(sentence);
    var last := sentence[|sentence| - 1];
    assert CorrectWords(ts, d) == Ok([]);
    assert Corrected(sentence, d) == Ok(Join([]) + [last]);
    assert Join([]) + [last] == [last];
  }

  /** Tokens that are all known are all kept. */
  lemma {:induction false} CorrectWordsAllKnown(ts: seq<string>, d: Dict)
    requires forall k :: 0 <= k < |ts| ==> |ts[k]| > 0
    requires AllKnown(ts, d)
    ensures CorrectWords(ts, d) == Ok(ts)
    decreases |ts|
  {
    if |ts| > 0 {
      var front, t := ts[..|ts| - 1], ts[|ts| - 1];
      assert AllKnown(front, d) by {
        forall k | 0 <= k < |front| ensures PresentInDict(front[k], d) {
          assert front[k] == ts[k];
        }
      }
      CorrectWordsAllKnown(front, d);
      assert CorrectToken(t, d) == Ok(t);
      assert front + [t] == ts;
    }
  }

  /** The tokens fail to correct exactly when one of them does. */
  lemma CorrectWordsErrIff(ts: seq<string>, d: Dict)
    requires forall k :: 0 <= k < |ts| ==> |ts[k]| > 0
    ensures CorrectWords(ts, d).Err? <==> exists k :: 0 <= k < |ts| && CorrectToken(ts[k], d).Err?
  {
    var r := CorrectWords(ts, d);
    if r.Err? {
      CorrectWordsErr(ts, d);
    } else {
      CorrectWordsOk(ts, d);
      forall k | 0 <= k < |ts| ensures CorrectToken(ts[k], d).Ok? {
        assert CorrectToken(ts[k], d) == Ok(r.value[k]);
      }
    }
  }

  /** `correct_sentence` fails exactly when the sentence is empty or some unknown token has
      no closest match. */
  lemma CorrectedFails(sentence: string, d: Dict)
    ensures Corrected(sentence, d).Err? <==>
      |sentence| == 0 ||
      exists t :: t in ListWords(sentence) && !PresentInDict(t, d) && ClosestMatch(t, d).Err?
  {
    if |sentence| > 0 {
      var ts := ListWords(sentence);
      CorrectWordsErrIff(ts, d);
      SomeTokenFails(ts, d);
    }
  }

  /** Some token fails to correct exactly when some unknown token has no closest match. */
  lemma SomeTokenFails(ts: seq<string>, d: Dict)
    requires forall k :: 0 <= k < |ts| ==> |ts[k]| > 0
    ensures (exists k :: 0 <= k < |ts| && CorrectToken(ts[k], d).Err?) <==>
      exists t :: t in ts && !PresentInDict(t, d) && ClosestMatch(t, d).Err?
  {
    if exists k :: 0 <= k < |ts| && CorrectToken(ts[k], d).Err? {
      var k :| 0 <= k < |ts| && CorrectToken(ts[k], d).Err?;
      assert ts[k] in ts;
    }
    if exists t :: t in ts && !PresentInDict(t, d) && ClosestMatch(t, d).Err? {
      var t :| t in ts && !PresentInDict(t, d) && ClosestMatch(t, d).Err?;
      var k :| 0 <= k < |ts| && ts[k] == t;
      assert CorrectToken(ts[k], d).Err?;
    }
  }

  /** Against a well-formed dictionary the only way a non-empty sentence fails is the None of
      `find_closest_match` (the TypeError at `None + ' '`). */
  lemma CorrectedFailsOnlyNoMatch(sentence: string, d: Dict)
    requires WellFormed(d)
    requires |sentence| > 0 && Corrected(sentence, d).Err?
    ensures Corrected(sentence, d) == Err(NoMatch)
  {
    var ts := ListWords(sentence);
    CorrectWordsErr(ts, d);
    var r := CorrectWords(ts, d);
    var k :| 0 <= k < |ts| && CorrectToken(ts[k], d) == Err(r.error);
    ClosestMatchChoosesLeast(ts[k], d);
  }

  /** Every dictionary word is made of `[\w']` characters, as the vocabulary read through
      `list_words` is. */
  ghost predicate TokenVocabulary(d: Dict) {
    forall n, w :: n in d && w in d[n] ==> AllTokenChars(w)
  }

  /** Over such a vocabulary a correction is again a token. */
  lemma CorrectTokenIsToken(t: string, d: Dict)
    requires TokenVocabulary(d)
    requires |t| > 0 && AllTokenChars(t)
    requires CorrectToken(t, d).Ok?
    ensures AllTokenChars(CorrectToken(t, d).value)
  {
    var c := CorrectToken(t, d).value;
    if !PresentInDict(t, d) {
      ClosestMatchChoosesLeast(t, d);
      var w :| IsLeastMatch(w, Bucket(d, |t|), Lower(RemoveLastChar(t))) && |w| > 0 &&
        c == RemoveLastChar(t) + [MatchCase(t[|t| - 1], w[|w| - 1])];
      assert |t| in d && w in d[|t|];
      assert AllTokenChars(w);
      assert IsTokenChar(w[|w| - 1]);
      forall i | 0 <= i < |c| ensures IsTokenChar(c[i]) {
        if i < |t| - 1 {
          assert c[i] == t[i];
        }
      }
    }
  }

  /** When every dictionary word is made of `[\w']` characters, the corrected sentence without
      its last character tokenizes into exactly as many tokens as the input, each the input token
      with at most its last character changed, and each known token unchanged. */
  lemma CorrectedRetokenizes(sentence: string, d: Dict, out: string)
    requires TokenVocabulary(d)
    requires Corrected(sentence, d) == Ok(out)
    ensures |out| > 0 && out[|out| - 1] == sentence[|sentence| - 1]
    ensures var ts, ws := ListWords(sentence), ListWords(out[..|out| - 1]);
      && |ws| == |ts|
      && (forall k :: 0 <= k < |ts| ==> |ws[k]| == |ts[k]| && RemoveLastChar(ws[k]) == RemoveLastChar(ts[k]))
      && (forall k :: 0 <= k < |ts| && PresentInDict(ts[k], d) ==> ws[k] == ts[k])
  {
    var ts := ListWords(sentence);
    var ws := CorrectWords(ts, d).value;
    assert out == Join(ws) + [sentence[|sentence| - 1]];
    assert out[..|out| - 1] == Join(ws);
    CorrectWordsKeepStems(ts, ws, d);
    CorrectWordsAreTokens(ts, ws, d);
    ListWordsOfJoin(ws);
  }

  lemma CorrectWordsKeepStems(ts: seq<string>, ws: seq<string>, d: Dict)
    requires forall k :: 0 <= k < |ts| ==> |ts[k]| > 0
    requires CorrectWords(ts, d) == Ok(ws)
    ensures |ws| == |ts|
    ensures forall k :: 0 <= k < |ts| ==> |ws[k]| == |ts[k]| && RemoveLastChar(ws[k]) == RemoveLastChar(ts[k])
    ensures forall k :: 0 <= k < |ts| && PresentInDict(ts[k], d) ==> ws[k] == ts[k]
  {
    CorrectWordsOk(ts, d);
    forall k | 0 <= k < |ts|
      ensures |ws[k]| == |ts[k]| && RemoveLastChar(ws[k]) == RemoveLastChar(ts[k])
      ensures PresentInDict(ts[k], d) ==> ws[k] == ts[k]
    {
      CorrectTokenKeepsStem(ts[k], d);
    }
  }

  lemma CorrectWordsAreTokens(ts: seq<string>, ws: seq<string>, d: Dict)
    requires TokenVocabulary(d)
    requires forall k :: 0 <= k < |ts| ==> |ts[k]| > 0 && AllTokenChars(ts[k])
    requires CorrectWords(ts, d) == Ok(ws)
    ensures forall k :: 0 <= k < |ws| ==> |ws[k]| > 0 && AllTokenChars(ws[k])
  {
    CorrectWordsOk(ts, d);
    forall k | 0 <= k < |ws| ensures |ws[k]| > 0 && AllTokenChars(ws[k]) {
      CorrectTokenKeepsStem(ts[k], d);
      CorrectTokenIsToken(ts[k], d);
    }
  }
}
