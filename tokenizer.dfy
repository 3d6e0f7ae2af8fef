/** Splitting text into sentences (`list_sentences`) and sentences into word tokens (`list_words`). */
module Tokenizer {
  import opened Text

  /** A character that ends a sentence: one of `.!?`. */
  predicate IsTerminator(c: char) {
    c == '.' || c == '!' || c == '?'
  }

  /** The positions of the terminators among the first `n` characters of `text`, ascending:
      every listed position holds a terminator, and every terminator before `n` is listed. */
  function TerminatorsBefore(text: string, n: nat): (ps: seq<nat>)
    requires n <= |text|
    ensures forall k :: 0 <= k < |ps| ==> ps[k] < n && IsTerminator(text[ps[k]])
    ensures forall k, l :: 0 <= k < l < |ps| ==> ps[k] < ps[l]
    ensures forall i :: 0 <= i < n && IsTerminator(text[i]) ==> i in ps
  {
    if n == 0 then []
    else TerminatorsBefore(text, n - 1) + (if IsTerminator(text[n - 1]) then [n - 1] else [])
  }

  /** Where the `k`-th sentence starts: at 0 for the first, two characters after the previous terminator otherwise. */
  function SentenceStart(ps: seq<nat>, k: nat): (start: nat)
    requires k < |ps|
    requires forall k, l :: 0 <= k < l < |ps| ==> ps[k] < ps[l]
    ensures start <= ps[k] + 1
  {
    if k == 0 then 0 else ps[k - 1] + 2
  }

  /** One slice per terminator position in `ps`, from its start up to and including the terminator. */
  function Slices(text: string, ps: seq<nat>): (ss: seq<string>)
    requires forall k :: 0 <= k < |ps| ==> ps[k] < |text|
    requires forall k, l :: 0 <= k < l < |ps| ==> ps[k] < ps[l]
    ensures |ss| == |ps|
  {
    seq(|ps|, k requires 0 <= k < |ps| => text[SentenceStart(ps, k) .. ps[k] + 1])
  }

  /** The sentences of `text`, as `list_sentences` returns them. */
  function Sentences(text: string): (ss: seq<string>)
  {
    Slices(text, TerminatorsBefore(text, |text|))
  }

  /** `list_sentences`: one scan over the text, cutting after every terminator. */
  method ListSentences(text: string) returns (sentences: seq<string>)
    ensures sentences == Sentences(text)
  {
    sentences := [];
    var start := 0;
    for index := 0 to |text|
      invariant sentences == Slices(text, TerminatorsBefore(text, index))
      invariant start == LastStart(TerminatorsBefore(text, index))
    {
      ScanStep(text, index);
      if IsTerminator(text[index]) {
        var sentence := text[start .. index + 1];
        start := index + 2;
        sentences := sentences + [sentence];
      }
    }
  }

  lemma TerminatorsBeforeStep(text: string, n: nat)
    requires n < |text|
    ensures IsTerminator(text[n]) ==> TerminatorsBefore(text, n + 1) == TerminatorsBefore(text, n) + [n]
    ensures !IsTerminator(text[n]) ==> TerminatorsBefore(text, n + 1) == TerminatorsBefore(text, n)
  {
    if !IsTerminator(text[n]) {
      assert TerminatorsBefore(text, n) + [] == TerminatorsBefore(text, n);
    }
  }

  /** One step of the scan: a terminator at `n` adds the slice from the current start through
      `n` and moves the start past it; any other character changes nothing. */
  lemma ScanStep(text: string, n: nat)
    requires n < |text|
    ensures var ps := TerminatorsBefore(text, n);
      LastStart(ps) <= n + 1 &&
      if IsTerminator(text[n]) then
        && Slices(text, TerminatorsBefore(text, n + 1)) == Slices(text, ps) + [text[LastStart(ps) .. n + 1]]
        && LastStart(TerminatorsBefore(text, n + 1)) == n + 2
      else TerminatorsBefore(text, n + 1) == ps
  {
    var ps := TerminatorsBefore(text, n);
    TerminatorsBeforeStep(text, n);
    if IsTerminator(text[n]) {
      SlicesSnoc(text, ps, n);
    }
  }

  /** Where the sentence after the terminators `ps` starts. */
  function LastStart(ps: seq<nat>): nat {
    if |ps| == 0 then 0 else ps[|ps| - 1] + 2
  }

  lemma SlicesSnoc(text: string, ps: seq<nat>, p: nat)
    requires forall k :: 0 <= k < |ps| ==> ps[k] < p
    requires p < |text|
    requires forall k :: 0 <= k < |ps| ==> ps[k] < |text|
    requires forall k, l :: 0 <= k < l < |ps| ==> ps[k] < ps[l]
    ensures Slices(text, ps + [p]) == Slices(text, ps) + [text[LastStart(ps) .. p + 1]]
  {
    var qs := ps + [p];
    var a, b := Slices(text, qs), Slices(text, ps) + [text[LastStart(ps) .. p + 1]];
    forall k | 0 <= k < |qs| ensures a[k] == b[k] {
      if k < |ps| {
        assert SentenceStart(qs, k) == SentenceStart(ps, k);
      }
    }
  }

  /** Number of terminator characters in `text`, counted independently of the scan. */
  function CountTerminators(text: string): nat
    decreases |text|
  {
    if |text| == 0 then 0
    else CountTerminators(text[..|text| - 1]) + (if IsTerminator(text[|text| - 1]) then 1 else 0)
  }

  lemma {:induction false} TerminatorsBeforeCount(text: string, n: nat)
    requires n <= |text|
    ensures |TerminatorsBefore(text, n)| == CountTerminators(text[..n])
  {
    if n > 0 {
      TerminatorsBeforeCount(text, n - 1);
      assert text[..n][..n - 1] == text[..n - 1];
    }
  }

  /** Exactly one sentence per terminator of the text. */
  lemma SentenceCount(text: string)
    ensures |Sentences(text)| == CountTerminators(text)
  {
    TerminatorsBeforeCount(text, |text|);
    assert text[..|text|] == text;
  }

  /** The `k`-th sentence runs from two characters after the previous terminator (from the
      start for the first) up to and including the `k`-th terminator. */
  lemma SentenceSlice(text: string, k: nat)
    requires k < |Sentences(text)|
    ensures var ps := TerminatorsBefore(text, |text|);
      && IsTerminator(text[ps[k]])
      && Sentences(text)[k] == text[(if k == 0 then 0 else ps[k - 1] + 2) .. ps[k] + 1]
  {
  }

  /** A non-empty sentence ends with its terminator and holds no other one. */
  lemma SentenceTerminators(text: string, k: nat)
    requires k < |Sentences(text)|
    ensures var sk := Sentences(text)[k];
      && (|sk| > 0 ==> IsTerminator(sk[|sk| - 1]))
      && (forall i :: 0 <= i < |sk| - 1 ==> !IsTerminator(sk[i]))
  {
    var ps := TerminatorsBefore(text, |text|);
    var start := SentenceStart(ps, k);
    var sk := Sentences(text)[k];
    assert sk == text[start .. ps[k] + 1];
    forall i | 0 <= i < |sk| - 1
      ensures !IsTerminator(sk[i])
    {
      BetweenTerminators(ps, k, start + i);
      assert sk[i] == text[start + i];
    }
  }

  /** Between two consecutive positions of an ascending list there is no listed position. */
  lemma BetweenTerminators(ps: seq<nat>, k: nat, j: nat)
    requires forall a, b :: 0 <= a < b < |ps| ==> ps[a] < ps[b]
    requires k < |ps| && (k == 0 || ps[k - 1] < j) && j < ps[k]
    ensures j !in ps
  {
    forall m | 0 <= m < |ps|
      ensures ps[m] != j
    {
      if m < k {
        assert ps[m] <= ps[k - 1];
      } else if m > k {
        assert ps[k] < ps[m];
      }
    }
  }

  lemma {:induction false} TerminatorsBeforeExtend(text: string, tail: string, n: nat)
    requires n <= |text|
    requires forall i :: 0 <= i < |tail| ==> !IsTerminator(tail[i])
    ensures TerminatorsBefore(text + tail, n) == TerminatorsBefore(text, n)
  {
    if n > 0 {
      TerminatorsBeforeExtend(text, tail, n - 1);
    }
  }

  lemma {:induction false} TerminatorsBeforeTail(text: string, tail: string, m: nat)
    requires m <= |tail|
    requires forall i :: 0 <= i < |tail| ==> !IsTerminator(tail[i])
    ensures TerminatorsBefore(text + tail, |text| + m) == TerminatorsBefore(text, |text|)
  {
    if m == 0 {
      TerminatorsBeforeExtend(text, tail, |text|);
    } else {
      TerminatorsBeforeTail(text, tail, m - 1);
      assert (text + tail)[|text| + m - 1] == tail[m - 1];
      TerminatorsBeforeStep(text + tail, |text| + m - 1);
    }
  }

  /** Text after the last terminator is never emitted. */
  lemma SentencesIgnoreUnterminatedTail(text: string, tail: string)
    requires forall i :: 0 <= i < |tail| ==> !IsTerminator(tail[i])
    ensures Sentences(text + tail) == Sentences(text)
  {
    var ps := TerminatorsBefore(text, |text|);
    TerminatorsBeforeTail(text, tail, |tail|);
    assert TerminatorsBefore(text + tail, |text + tail|) == ps;
    SlicesExtend(text, tail, ps);
  }

  lemma SlicesExtend(text: string, tail: string, ps: seq<nat>)
    requires forall k :: 0 <= k < |ps| ==> ps[k] < |text|
    requires forall k, l :: 0 <= k < l < |ps| ==> ps[k] < ps[l]
    ensures Slices(text + tail, ps) == Slices(text, ps)
  {
    var a, b := Slices(text + tail, ps), Slices(text, ps);
    forall k | 0 <= k < |ps| ensures a[k] == b[k] {
      var start := SentenceStart(ps, k);
      assert a[k] == (text + tail)[start .. ps[k] + 1];
      assert (text + tail)[start .. ps[k] + 1] == text[start .. ps[k] + 1];
    }
  }

  /** Length of the longest leading run of `[\w']` characters of `s`. */
  function TokenRun(s: string): (n: nat)
    ensures n <= |s|
    ensures forall i :: 0 <= i < n ==> IsTokenChar(s[i])
    ensures n < |s| ==> !IsTokenChar(s[n])
    decreases |s|
  {
    if |s| == 0 || !IsTokenChar(s[0]) then 0 else 1 + TokenRun(s[1..])
  }

  /** `re.findall(r"[\w']+", s)`: the maximal runs of `[\w']` characters, left to right. */
  function ListWords(s: string): (ts: seq<string>)
    ensures forall k :: 0 <= k < |ts| ==> |ts[k]| > 0 && AllTokenChars(ts[k])
    decreases |s|
  {
    if |s| == 0 then []
    else if !IsTokenChar(s[0]) then ListWords(s[1..])
    else
      var n := TokenRun(s);
      [s[..n]] + ListWords(s[n..])
  }

  /** The `[\w']` characters of `s`, in order, with every separator dropped. */
  function TokenChars(s: string): string
    decreases |s|
  {
    if |s| == 0 then []
    else (if IsTokenChar(s[0]) then [s[0]] else []) + TokenChars(s[1..])
  }

  /** The concatenation of a list of strings. */
  function Concat(ts: seq<string>): string
    decreases |ts|
  {
    if |ts| == 0 then [] else ts[0] + Concat(ts[1..])
  }

  lemma {:induction false} TokenCharsOfRun(s: string, n: nat)
    requires n <= |s|
    requires forall i :: 0 <= i < n ==> IsTokenChar(s[i])
    ensures TokenChars(s) == s[..n] + TokenChars(s[n..])
    decreases n
  {
    if n > 0 {
      TokenCharsOfRun(s[1..], n - 1);
      assert s[1..][n - 1..] == s[n..];
      assert s[..n] == [s[0]] + s[1..][..n - 1];
    }
  }

  /** Tokenizing loses no word character and invents none: the tokens, concatenated,
      are exactly the `[\w']` characters of the input in order. */
  lemma {:induction false} ListWordsKeepTokenChars(s: string)
    ensures Concat(ListWords(s)) == TokenChars(s)
    decreases |s|
  {
    if |s| > 0 {
      if !IsTokenChar(s[0]) {
        ListWordsKeepTokenChars(s[1..]);
      } else {
        var n := TokenRun(s);
        ListWordsKeepTokenChars(s[n..]);
        TokenCharsOfRun(s, n);
        assert ([s[..n]] + ListWords(s[n..]))[1..] == ListWords(s[n..]);
      }
    }
  }

  lemma {:induction false} TokenRunOfToken(t: string, rest: string)
    requires AllTokenChars(t)
    requires |rest| == 0 || !IsTokenChar(rest[0])
    ensures TokenRun(t + rest) == |t|
    decreases |t|
  {
    if |t| > 0 {
      assert (t + rest)[0] == t[0];
      assert (t + rest)[1..] == t[1..] + rest;
      TokenRunOfToken(t[1..], rest);
    } else {
      assert t + rest == rest;
    }
  }

  lemma ListWordsOfToken(t: string, rest: string)
    requires |t| > 0 && AllTokenChars(t)
    requires |rest| == 0 || !IsTokenChar(rest[0])
    ensures ListWords(t + rest) == [t] + ListWords(rest)
  {
    var s := t + rest;
    TokenRunOfToken(t, rest);
    assert s[0] == t[0];
    assert s[..|t|] == t && s[|t|..] == rest;
  }

  /** A separator appended at the end adds no token. */
  lemma {:induction false} ListWordsDropsTrailingSeparator(s: string, c: char)
    requires !IsTokenChar(c)
    ensures ListWords(s + [c]) == ListWords(s)
    decreases |s|
  {
    if |s| == 0 {
      assert ([c])[1..] == [];
    } else if !IsTokenChar(s[0]) {
      assert (s + [c])[1..] == s[1..] + [c];
      ListWordsDropsTrailingSeparator(s[1..], c);
    } else {
      var n := TokenRun(s);
      var m := TokenRun(s + [c]);
      if n < |s| {
        TokenRunPrefix(s, [c]);
        assert (s + [c])[..n] == s[..n];
        assert (s + [c])[n..] == s[n..] + [c];
        ListWordsDropsTrailingSeparator(s[n..], c);
      } else {
        TokenRunOfToken(s, [c]);
        assert s[..n] == s && s[n..] == [];
        assert (s + [c])[..n] == s;
        assert (s + [c])[n..] == [c];
        assert ([c])[1..] == [];
      }
    }
  }

  lemma TokenRunPrefix(s: string, u: string)
    requires TokenRun(s) < |s|
    ensures TokenRun(s + u) == TokenRun(s)
  {
    var n := TokenRun(s);
    var m := TokenRun(s + u);
    assert (s + u)[n] == s[n];
  }

  /** Tokens joined by single spaces tokenize back to the same tokens. */
  lemma {:induction false} ListWordsOfJoin(ts: seq<string>)
    requires forall k :: 0 <= k < |ts| ==> |ts[k]| > 0 && AllTokenChars(ts[k])
    ensures ListWords(Join(ts)) == ts
    decreases |ts|
  {
    if |ts| == 1 {
      ListWordsOfToken(ts[0], []);
      assert ts[0] + [] == ts[0];
    } else if |ts| > 1 {
      ListWordsOfJoin(ts[1..]);
      ListWordsOfJoinCons(ts);
    }
  }

  lemma ListWordsOfJoinCons(ts: seq<string>)
    requires |ts| > 1
    requires |ts[0]| > 0 && AllTokenChars(ts[0])
    ensures ListWords(Join(ts)) == [ts[0]] + ListWords(Join(ts[1..]))
  {
    var rest := " " + Join(ts[1..]);
    assert Join(ts) == ts[0] + rest;
    ListWordsOfToken(ts[0], rest);
    assert rest[1..] == Join(ts[1..]);
  }

  /** `s` cut at every separator (a character outside `[\w']`), empty pieces included:
      one piece more than there are separators. */
  function Pieces(s: string): (ps: seq<string>)
    ensures |ps| > 0
    decreases |s|
  {
    if |s| == 0 then [[]]
    else
      var rest := Pieces(s[1..]);
      if IsTokenChar(s[0]) then [[s[0]] + rest[0]] + rest[1..] else [[]] + rest
  }

  /** The non-empty strings of `ps`, in order. */
  function DropEmpty(ps: seq<string>): seq<string>
    decreases |ps|
  {
    if |ps| == 0 then []
    else if |ps[0]| == 0 then DropEmpty(ps[1..])
    else [ps[0]] + DropEmpty(ps[1..])
  }

  /** A leading run of `m` token characters is the front of the first piece. */
  lemma {:induction false} PiecesOfRun(s: string, m: nat)
    requires m <= |s|
    requires forall i :: 0 <= i < m ==> IsTokenChar(s[i])
    ensures var rest := Pieces(s[m..]);
      Pieces(s) == [s[..m] + rest[0]] + rest[1..]
    decreases m
  {
    if m == 0 {
      assert s[m..] == s;
      assert s[..m] + Pieces(s)[0] == Pieces(s)[0];
      assert Pieces(s) == [Pieces(s)[0]] + Pieces(s)[1..];
    } else {
      var r, x := Pieces(s[1..]), Pieces(s[m..]);
      PiecesOfRun(s[1..], m - 1);
      assert s[1..][m - 1..] == s[m..];
      assert r[0] == s[1..][..m - 1] + x[0];
      assert r[1..] == x[1..];
      assert s[..m] == [s[0]] + s[1..][..m - 1];
      assert Pieces(s) == [[s[0]] + r[0]] + r[1..];
      assert [s[0]] + r[0] == s[..m] + x[0];
    }
  }

  /** `list_words` is exactly the text cut at its separators with the empty pieces dropped:
      no token is ever split, and no two tokens are ever merged. */
  lemma {:induction false} ListWordsIsPieces(s: string)
    ensures ListWords(s) == DropEmpty(Pieces(s))
    decreases |s|
  {
    if |s| > 0 {
      if !IsTokenChar(s[0]) {
        ListWordsIsPieces(s[1..]);
      } else {
        var n := TokenRun(s);
        var rest := Pieces(s[n..]);
        PiecesOfRun(s, n);
        ListWordsIsPieces(s[n..]);
        if n < |s| {
          assert rest == [[]] + Pieces(s[n..][1..]);
          assert s[..n] + rest[0] == s[..n];
          assert Pieces(s) == [s[..n]] + rest[1..];
          assert DropEmpty(Pieces(s)) == [s[..n]] + DropEmpty(rest[1..]);
        } else {
          assert s[n..] == [];
          assert rest == [[]];
          assert s[..n] + rest[0] == s[..n];
          assert Pieces(s) == [s[..n]];
        }
      }
    }
  }
}
