/** The documented examples of the spelling corrector, restated against the model. */
module Examples {
  import opened Wrappers
  import opened Errors
  import opened Text
  import opened Tokenizer
  import opened Dictionary
  import opened Corrector
  import opened Reassembler

  lemma RemoveLastCharExamples()
    ensures RemoveLastChar("abcde") == "abcd"
    ensures RemoveLastChar("efgh\n") == "efgh"
  {
  }

  lemma PresentInDictExamples()
    ensures PresentInDict("across", map[1 := ["a"], 6 := ["across", "mellow"]])
    ensures !PresentInDict("helle", map[2 := ["an"], 5 := ["hello"], 4 := ["here"]])
    ensures PresentInDict("Hello", map[2 := ["an"], 5 := ["hello"], 4 := ["here"]])
  {
    LowerExample("across", "across");
    LowerExample("helle", "helle");
    LowerExample("Hello", "hello");
    assert "hello" != "helle";
  }

  /** `Lower` on a literal, character by character. */
  lemma LowerExample(s: string, t: string)
    requires |s| == |t| && forall i :: 0 <= i < |s| ==> ToLower(s[i]) == t[i]
    ensures Lower(s) == t
  {
  }

  lemma ClosestMatchExamples()
    ensures ClosestMatch("helle", map[2 := ["an"], 5 := ["hello"]]) == Ok("hello")
    ensures ClosestMatch("yelloy", map[6 := ["yellow", "orange", "yellos"]]) == Ok("yellos")
    ensures ClosestMatch("HELLE", map[2 := ["an"], 5 := ["hello"]]) == Ok("HELLO")
  {
    LowerExample("hell", "hell");
    LowerExample("yello", "yello");
    LowerExample("HELL", "hell");
    assert RemoveLastChar("helle") == "hell";
    assert RemoveLastChar("HELLE") == "HELL";
    assert RemoveLastChar("yelloy") == "yello";
    assert RemoveLastChar("yellow") == "yello";
    assert RemoveLastChar("yellos") == "yello";
    assert RemoveLastChar("orange") == "orang";
    var five: Dict := map[2 := ["an"], 5 := ["hello"]];
    assert Bucket(five, 5) == ["hello"];
    assert LeastMatch(["hello"], "hell") == Some("hello") by {
      assert ["hello"][..0] == [];
    }
    assert "hell" + ['o'] == "hello";
    assert "HELL" + ['O'] == "HELLO";
    var sixes: Dict := map[6 := ["yellow", "orange", "yellos"]];
    var six := Bucket(sixes, 6);
    assert six == ["yellow", "orange", "yellos"];
    assert LeastMatch(six[..1], "yello") == Some("yellow") by {
      assert six[..1][..0] == [];
    }
    assert LeastMatch(six[..2], "yello") == Some("yellow") by {
      assert six[..2][..1] == six[..1];
    }
    assert !LexLe("yellow", "yellos") by {
      assert "yellow"[1..] == "ellow" && "yellos"[1..] == "ellos";
      assert "ellow"[1..] == "llow" && "ellos"[1..] == "llos";
      assert "llow"[1..] == "low" && "llos"[1..] == "los";
      assert "low"[1..] == "ow" && "los"[1..] == "os";
      assert "ow"[1..] == "w" && "os"[1..] == "s";
    }
    assert LeastMatch(six, "yello") == Some("yellos") by {
      assert six[..|six| - 1] == six[..2];
    }
    assert "yello" + ['s'] == "yellos";
  }

  /** `correct_sentence('Ww reached there.', {2: ['we'], 5: ['there'], 7: ['reached']})`
      is 'We reached there.'. */
  lemma CorrectSentenceExample(sentence: string, d: Dict)
    requires sentence == "Ww reached there."
    requires d == map[2 := ["we"], 5 := ["there"], 7 := ["reached"]]
    ensures Corrected(sentence, d) == Ok("We reached there.")
  {
    var ts, ws := ["Ww", "reached", "there"], ["We", "reached", "there"];
    WeReachedThereTokens(sentence, ts);
    WeReachedThereCorrections(d);
    CorrectWordsOfThree(ts, d, ws);
    CorrectedFromWords(sentence, d, ts, ws);
    WeReachedThereJoin(sentence, ws);
  }

  lemma WeReachedThereTokens(sentence: string, ts: seq<string>)
    requires sentence == "Ww reached there."
    requires ts == ["Ww", "reached", "there"]
    ensures ListWords(sentence) == ts
  {
    WeReachedThereWords(ts);
    WeReachedThereText(sentence, ts);
    TokensOfThree(ts, '.');
  }

  lemma WeReachedThereWords(ts: seq<string>)
    requires ts == ["Ww", "reached", "there"]
    ensures forall k :: 0 <= k < 3 ==> |ts[k]| > 0 && AllTokenChars(ts[k])
  {
    assert AllTokenChars(ts[0]) && AllTokenChars(ts[1]) && AllTokenChars(ts[2]);
  }

  lemma WeReachedThereText(sentence: string, ts: seq<string>)
    requires sentence == "Ww reached there."
    requires ts == ["Ww", "reached", "there"]
    ensures Join(ts) + ['.'] == sentence
  {
    JoinOfThree(ts);
  }

  lemma WeReachedThereJoin(sentence: string, ws: seq<string>)
    requires sentence == "Ww reached there."
    requires ws == ["We", "reached", "there"]
    ensures Join(ws) + [sentence[|sentence| - 1]] == "We reached there."
  {
    JoinOfThree(ws);
  }

  /** `correct_sentence('I must sat!', {1: ['i'], 3: ['say'], 4: ['must']})` is 'I must say!'. */
  lemma CorrectSentenceExample2(sentence: string, d: Dict)
    requires sentence == "I must sat!"
    requires d == map[1 := ["i"], 3 := ["say"], 4 := ["must"]]
    ensures Corrected(sentence, d) == Ok("I must say!")
  {
    var ts, ws := ["I", "must", "sat"], ["I", "must", "say"];
    IMustSatTokens(sentence, ts);
    IMustSayCorrections(d);
    CorrectWordsOfThree(ts, d, ws);
    CorrectedFromWords(sentence, d, ts, ws);
    IMustSayJoin(sentence, ws);
  }

  lemma IMustSatTokens(sentence: string, ts: seq<string>)
    requires sentence == "I must sat!"
    requires ts == ["I", "must", "sat"]
    ensures ListWords(sentence) == ts
  {
    IMustSatWords(ts);
    IMustSatText(sentence, ts);
    TokensOfThree(ts, '!');
  }

  lemma IMustSatWords(ts: seq<string>)
    requires ts == ["I", "must", "sat"]
    ensures forall k :: 0 <= k < 3 ==> |ts[k]| > 0 && AllTokenChars(ts[k])
  {
    assert AllTokenChars(ts[0]) && AllTokenChars(ts[1]) && AllTokenChars(ts[2]);
  }

  lemma IMustSatText(sentence: string, ts: seq<string>)
    requires sentence == "I must sat!"
    requires ts == ["I", "must", "sat"]
    ensures Join(ts) + ['!'] == sentence
  {
    JoinOfThree(ts);
  }

  lemma IMustSayJoin(sentence: string, ws: seq<string>)
    requires sentence == "I must sat!"
    requires ws == ["I", "must", "say"]
    ensures Join(ws) + [sentence[|sentence| - 1]] == "I must say!"
  {
    JoinOfThree(ws);
  }

  /** Three words joined: the first, a space, the second, a space, the third. */
  lemma JoinOfThree(ws: seq<string>)
    requires |ws| == 3
    ensures Join(ws) == ws[0] + " " + ws[1] + " " + ws[2]
  {
    var rest := ws[1..];
    assert rest[1..] == [ws[2]];
    assert Join(rest[1..]) == ws[2];
    assert Join(rest) == ws[1] + " " + ws[2];
  }

  /** Three tokens joined by spaces and closed by a separator tokenize back to themselves. */
  lemma TokensOfThree(ts: seq<string>, last: char)
    requires |ts| == 3
    requires forall k :: 0 <= k < 3 ==> |ts[k]| > 0 && AllTokenChars(ts[k])
    requires !IsTokenChar(last)
    ensures ListWords(Join(ts) + [last]) == ts
  {
    ListWordsOfJoin(ts);
    ListWordsDropsTrailingSeparator(Join(ts), last);
  }

  /** Three tokens that each correct to the matching word correct to the three words. */
  lemma CorrectWordsOfThree(ts: seq<string>, d: Dict, ws: seq<string>)
    requires |ts| == 3 && |ws| == 3
    requires forall k :: 0 <= k < 3 ==> |ts[k]| > 0 && CorrectToken(ts[k], d) == Ok(ws[k])
    ensures CorrectWords(ts, d) == Ok(ws)
  {
    assert ts[..0] == [] && ws[..0] == [];
    CorrectStepOk(ts, 0, d, ws[..0], ws[0]);
    assert ws[..0] + [ws[0]] == ws[..1];
    CorrectStepOk(ts, 1, d, ws[..1], ws[1]);
    assert ws[..1] + [ws[1]] == ws[..2];
    CorrectStepOk(ts, 2, d, ws[..2], ws[2]);
    assert ws[..2] + [ws[2]] == ws;
    assert ts[..3] == ts;
  }

  /** A sentence whose tokens correct to `ws` comes back as `ws` joined plus its last character. */
  lemma CorrectedFromWords(sentence: string, d: Dict, ts: seq<string>, ws: seq<string>)
    requires |sentence| > 0 && ListWords(sentence) == ts && CorrectWords(ts, d) == Ok(ws)
    ensures Corrected(sentence, d) == Ok(Join(ws) + [sentence[|sentence| - 1]])
  {
  }

  lemma WeReachedThereCorrections(d: Dict)
    requires d == map[2 := ["we"], 5 := ["there"], 7 := ["reached"]]
    ensures CorrectToken("Ww", d) == Ok("We")
    ensures CorrectToken("reached", d) == Ok("reached")
    ensures CorrectToken("there", d) == Ok("there")
  {
    LowerExample("Ww", "ww");
    LowerExample("W", "w");
    LowerExample("reached", "reached");
    LowerExample("there", "there");
    assert !PresentInDict("Ww", d);
    assert RemoveLastChar("Ww") == "W";
    assert RemoveLastChar("we") == "w";
    assert LeastMatch(["we"], "w") == Some("we") by {
      assert ["we"][..0] == [];
    }
    assert "W" + ['e'] == "We";
  }

  lemma IMustSayCorrections(d: Dict)
    requires d == map[1 := ["i"], 3 := ["say"], 4 := ["must"]]
    ensures CorrectToken("I", d) == Ok("I")
    ensures CorrectToken("must", d) == Ok("must")
    ensures CorrectToken("sat", d) == Ok("say")
  {
    LowerExample("I", "i");
    LowerExample("must", "must");
    LowerExample("sat", "sat");
    LowerExample("sa", "sa");
    assert !PresentInDict("sat", d);
    assert RemoveLastChar("sat") == "sa";
    assert RemoveLastChar("say") == "sa";
    assert LeastMatch(["say"], "sa") == Some("say") by {
      assert ["say"][..0] == [];
    }
    assert "sa" + ['y'] == "say";
  }
}
