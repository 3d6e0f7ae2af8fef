/** The length-bucketed dictionary (`create_dictionary`) and the membership test (`present_in_dict`). */
module Dictionary {
  import opened Text

  /** Word length to the words of that length. A length that is not a key reads as an empty
      bucket, as `defaultdict(list)` does (without the insertion a read performs there). */
  type Dict = map<int, seq<string>>

  function Bucket(d: Dict, n: int): seq<string> {
    if n in d then d[n] else []
  }

  /** Every word sits in the bucket of its own length. */
  ghost predicate WellFormed(d: Dict) {
    forall n, w :: n in d && w in d[n] ==> |w| == n
  }

  /** The words of `words` that have length `n`, in input order, duplicates kept. */
  function WordsOfLength(words: seq<string>, n: int): (b: seq<string>)
    ensures forall w :: w in b ==> |w| == n
    ensures forall w :: |w| == n ==> multiset(b)[w] == multiset(words)[w]
    decreases |words|
  {
    if |words| == 0 then []
    else
      var last := words[|words| - 1];
      assert words == words[..|words| - 1] + [last];
      WordsOfLength(words[..|words| - 1], n) + (if |last| == n then [last] else [])
  }

  /** The lengths of the words of `words`. */
  function Lengths(words: seq<string>): set<int> {
    set w | w in words :: |w|
  }

  /** `create_dictionary`: appends every word, in order, to the bucket of its length. */
  method CreateDictionary(words: seq<string>) returns (d: Dict)
    ensures forall n :: Bucket(d, n) == WordsOfLength(words, n)
    ensures d.Keys == Lengths(words)
  {
    d := map[];
    for i := 0 to |words|
      invariant forall n :: Bucket(d, n) == WordsOfLength(words[..i], n)
      invariant d.Keys == Lengths(words[..i])
    {
      var word := words[i];
      AppendStep(d, words, i);
      d := d[|word| := Bucket(d, |word|) + [word]];
    }
    assert words[..|words|] == words;
  }

  /** Appending one more word to the bucket of its length keeps the buckets and the keys
      in step with the words read so far. */
  lemma AppendStep(d: Dict, words: seq<string>, i: nat)
    requires i < |words|
    requires forall n :: Bucket(d, n) == WordsOfLength(words[..i], n)
    requires d.Keys == Lengths(words[..i])
    ensures var word := words[i];
      var d' := d[|word| := Bucket(d, |word|) + [word]];
      && (forall n :: Bucket(d', n) == WordsOfLength(words[..i + 1], n))
      && d'.Keys == Lengths(words[..i + 1])
  {
    var word := words[i];
    assert words[..i + 1] == words[..i] + [word];
    forall n ensures Bucket(d[|word| := Bucket(d, |word|) + [word]], n) == WordsOfLength(words[..i] + [word], n) {
      BucketStep(d, words[..i], word, n);
    }
    LengthsSnoc(words[..i], word);
  }

  lemma BucketStep(d: Dict, words: seq<string>, word: string, n: int)
    requires Bucket(d, n) == WordsOfLength(words, n)
    ensures Bucket(d[|word| := Bucket(d, |word|) + [word]], n) == WordsOfLength(words + [word], n)
  {
    WordsOfLengthSnoc(words, word, n);
  }

  lemma LengthsSnoc(words: seq<string>, word: string)
    ensures Lengths(words + [word]) == Lengths(words) + {|word|}
  {
    forall k | k in Lengths(words + [word]) ensures k in Lengths(words) + {|word|} {
      var w :| w in words + [word] && |w| == k;
      if w != word {
        assert w in words;
      }
    }
    assert word in words + [word];
  }

  lemma WordsOfLengthSnoc(words: seq<string>, w: string, n: int)
    ensures WordsOfLength(words + [w], n) == WordsOfLength(words, n) + (if |w| == n then [w] else [])
  {
    assert (words + [w])[..|words|] == words;
  }

  /** `d` holds exactly the buckets `create_dictionary(words)` builds. */
  ghost predicate BuiltFrom(d: Dict, words: seq<string>) {
    forall n :: Bucket(d, n) == WordsOfLength(words, n)
  }

  /** A built dictionary keeps every bucket to its own length, and every vocabulary word,
      '' included, lands in the bucket of its length. */
  lemma BuiltDictionaryWellFormed(d: Dict, words: seq<string>)
    requires BuiltFrom(d, words)
    ensures WellFormed(d)
    ensures forall w :: w in words ==> w in Bucket(d, |w|)
  {
    forall n, w | n in d && w in d[n] ensures |w| == n {
      assert Bucket(d, n) == WordsOfLength(words, n);
    }
    forall w | w in words ensures w in Bucket(d, |w|) {
      assert multiset(WordsOfLength(words, |w|))[w] == multiset(words)[w];
    }
  }

  /** `present_in_dict`: the lower-cased word is in the bucket of the word's length. */
  predicate PresentInDict(word: string, d: Dict)
    ensures |word| !in d ==> !PresentInDict(word, d)
  {
    Lower(word) in Bucket(d, |word|)
  }

  /** Against a dictionary built from `words`, a token is known exactly when its lower-cased
      form is one of the vocabulary words. */
  lemma PresentIffInVocabulary(word: string, d: Dict, words: seq<string>)
    requires BuiltFrom(d, words)
    ensures PresentInDict(word, d) <==> Lower(word) in words
  {
    var lw := Lower(word);
    assert |lw| == |word|;
    assert multiset(WordsOfLength(words, |word|))[lw] == multiset(words)[lw];
  }
}
