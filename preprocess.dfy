/** The text normalizer (`preprocess_sentences`): lowercase, delete
    punctuation, split, drop stopwords, lemmatize, rejoin. The stopword list,
    the lemmatizer and the meaning of `\w` are parameters. */
module Preprocess {
  import opened Collections
  import opened Text

  /** What the normalizer takes from its language resources. */
  datatype Normalizer = Normalizer(
    stopWords: set<string>,
    lemmatize: string -> string,
    isWordChar: char -> bool)

  /** `re.sub(r'[^\w\s]', '', s)`: every character that is neither a word
      character nor whitespace is deleted; nothing is put in its place. */
  function RemovePunctuation(s: string, isWordChar: char -> bool): (r: string)
    ensures |r| <= |s|
    ensures forall k :: 0 <= k < |r| ==> isWordChar(r[k]) || IsSpace(r[k])
    ensures forall c :: c in r <==> c in s && (isWordChar(c) || IsSpace(c))
    ensures (forall k :: 0 <= k < |s| ==> isWordChar(s[k]) || IsSpace(s[k])) ==> r == s
  {
    if s == [] then []
    else
      var rest := RemovePunctuation(s[1..], isWordChar);
      assert forall c :: c in s <==> c == s[0] || c in s[1..];
      if isWordChar(s[0]) || IsSpace(s[0]) then [s[0]] + rest else rest
  }

  /** Punctuation is deleted, not replaced: removal works character by
      character, so it maps a concatenation to the concatenation of the
      results, keeps a word or whitespace character as it is and turns any
      other character into nothing. Together these fix the result of every
      input: the kept characters, their number and their order. */
  lemma {:induction false} PunctuationDeleted(a: string, b: string, c: char, isWordChar: char -> bool)
    ensures RemovePunctuation(a + b, isWordChar) == RemovePunctuation(a, isWordChar) + RemovePunctuation(b, isWordChar)
    ensures RemovePunctuation([c], isWordChar) == if isWordChar(c) || IsSpace(c) then [c] else []
  {
    assert [c][1..] == [];
    if a == [] {
      assert a + b == b;
    } else {
      assert (a + b)[0] == a[0];
      assert (a + b)[1..] == a[1..] + b;
      PunctuationDeleted(a[1..], b, c, isWordChar);
    }
  }

  /** The tokens of one sentence before stopword filtering (lines 18-19). */
  function Tokens(s: string, nz: Normalizer): seq<string>
  {
    Split(RemovePunctuation(Lower(s), nz.isWordChar))
  }

  /** The positions of the tokens that are not stopwords, in increasing order. */
  function KeptPositions(ts: seq<string>, stopWords: set<string>): (p: seq<nat>)
    ensures Increasing(p)
    ensures forall k :: 0 <= k < |p| ==> p[k] < |ts| && ts[p[k]] !in stopWords
    ensures forall i :: 0 <= i < |ts| && ts[i] !in stopWords ==> i in p
  {
    if ts == [] then []
    else
      var p := KeptPositions(ts[..|ts| - 1], stopWords);
      if ts[|ts| - 1] !in stopWords then p + [|ts| - 1] else p
  }

  /** `[word for word in tokens if word not in stop_words]`. */
  function KeptTokens(ts: seq<string>, stopWords: set<string>): seq<string>
  {
    Select(ts, KeptPositions(ts, stopWords))
  }

  /** `[lemmatizer.lemmatize(word) for word in ...]`. */
  function Lemmatized(ts: seq<string>, lemmatize: string -> string): (r: seq<string>)
  {
    seq(|ts|, k requires 0 <= k < |ts| => lemmatize(ts[k]))
  }

  /** The lemmas that survive for one sentence, in token order. */
  function Lemmas(s: string, nz: Normalizer): seq<string>
  {
    Lemmatized(KeptTokens(Tokens(s, nz), nz.stopWords), nz.lemmatize)
  }

  /** The normalized form of one sentence (one iteration of lines 17-21). */
  function NormalizeSentence(s: string, nz: Normalizer): string
  {
    Join(Lemmas(s, nz))
  }

  /** `preprocess_sentences`: one output per input, at the same position, each
      the normalized form of the sentence at that position. */
  method PreprocessSentences(sentences: seq<string>, nz: Normalizer) returns (preprocessed: seq<string>)
    ensures |preprocessed| == |sentences|
    ensures forall i :: 0 <= i < |sentences| ==> preprocessed[i] == NormalizeSentence(sentences[i], nz)
  {
    preprocessed := [];
    for i := 0 to |sentences|
      invariant |preprocessed| == i
      invariant forall j :: 0 <= j < i ==> preprocessed[j] == NormalizeSentence(sentences[j], nz)
    {
      var sentence := RemovePunctuation(Lower(sentences[i]), nz.isWordChar);
      var tokens := Split(sentence);
      tokens := Lemmatized(KeptTokens(tokens, nz.stopWords), nz.lemmatize);
      assert Join(tokens) == NormalizeSentence(sentences[i], nz);
      ghost var before := preprocessed;
      preprocessed := preprocessed + [Join(tokens)];
      assert forall j :: 0 <= j < i ==> preprocessed[j] == before[j];
    }
  }

  /** Before lemmatization every token is non-empty, contains no whitespace,
      consists of word characters only and is already lower case. */
  lemma TokensAreLowerWords(s: string, nz: Normalizer)
    ensures forall k :: 0 <= k < |Tokens(s, nz)| ==>
      var t := Tokens(s, nz)[k];
      t != [] && NoSpace(t) && IsLower(t) && forall m :: 0 <= m < |t| ==> nz.isWordChar(t[m])
  {
    var low := Lower(s);
    var clean := RemovePunctuation(low, nz.isWordChar);
    SplitTokens(clean);
    forall c | c in clean ensures !IsUpper(c) {
      var k :| 0 <= k < |low| && low[k] == c;
    }
  }

  /** Lowercasing comes before the stopword test, so no surviving token is a
      stopword in any capitalization: its lower-case form is not a stopword. */
  lemma StopwordsRemovedIgnoringCase(s: string, nz: Normalizer)
    ensures forall k :: 0 <= k < |KeptTokens(Tokens(s, nz), nz.stopWords)| ==>
      Lower(KeptTokens(Tokens(s, nz), nz.stopWords)[k]) !in nz.stopWords
  {
    var ts := Tokens(s, nz);
    TokensAreLowerWords(s, nz);
    var p := KeptPositions(ts, nz.stopWords);
    forall k | 0 <= k < |p| ensures Lower(ts[p[k]]) !in nz.stopWords {
      assert Lower(ts[p[k]]) == ts[p[k]];
    }
  }

  /** The surviving lemmas are, in order, the lemmas of exactly the tokens that
      are not stopwords. */
  lemma LemmasOfKeptTokens(s: string, nz: Normalizer)
    ensures var ts := Tokens(s, nz); var p := KeptPositions(ts, nz.stopWords);
      && |Lemmas(s, nz)| == |p| <= |ts|
      && (forall k :: 0 <= k < |p| ==> Lemmas(s, nz)[k] == nz.lemmatize(ts[p[k]]))
      && (forall i :: 0 <= i < |ts| ==> (i in p <==> ts[i] !in nz.stopWords))
  {
    var ts := Tokens(s, nz);
    var p := KeptPositions(ts, nz.stopWords);
    PositionsBounded(p, |ts|);
  }

  /** A strictly increasing list of positions below `n` has at most `n` entries. */
  lemma {:induction false} PositionsBounded(p: seq<nat>, n: nat)
    requires Increasing(p)
    requires forall k :: 0 <= k < |p| ==> p[k] < n
    ensures |p| <= n
  {
    if p != [] {
      var q := p[..|p| - 1];
      PositionsBounded(q, p[|p| - 1]);
    }
  }

  /** A sentence whose every token is a stopword (for instance one made only of
      punctuation, which has no tokens) normalizes to "" and keeps its position. */
  lemma AllStopwordsNormalizeEmpty(s: string, nz: Normalizer)
    requires forall k :: 0 <= k < |Tokens(s, nz)| ==> Tokens(s, nz)[k] in nz.stopWords
    ensures NormalizeSentence(s, nz) == ""
  {
    var p := KeptPositions(Tokens(s, nz), nz.stopWords);
    assert |p| == 0;
  }

  /** A sentence without word characters (punctuation and whitespace only) has
      no tokens, so it normalizes to "". */
  lemma NoWordCharsNormalizeEmpty(s: string, nz: Normalizer)
    requires forall k :: 0 <= k < |s| ==> !nz.isWordChar(LowerChar(s[k]))
    ensures Tokens(s, nz) == []
    ensures NormalizeSentence(s, nz) == ""
  {
    var low := Lower(s);
    var clean := RemovePunctuation(low, nz.isWordChar);
    forall k | 0 <= k < |clean| ensures IsSpace(clean[k]) {
      var c := clean[k];
      assert c in clean;
      var m :| 0 <= m < |low| && low[m] == c;
    }
    SplitAllSpace(clean, []);
  }

  /** When the lemmatizer maps every token to a non-empty word without
      whitespace, the normalized sentence has no leading, trailing or doubled
      whitespace, and splitting it gives back exactly the lemmas. */
  lemma NormalizedSingleSpaced(s: string, nz: Normalizer)
    requires forall t :: t in Tokens(s, nz) ==> nz.lemmatize(t) != [] && NoSpace(nz.lemmatize(t))
    ensures SingleSpaced(NormalizeSentence(s, nz))
    ensures Split(NormalizeSentence(s, nz)) == Lemmas(s, nz)
  {
    var ts := Tokens(s, nz);
    var p := KeptPositions(ts, nz.stopWords);
    var ls := Lemmas(s, nz);
    forall k | 0 <= k < |ls| ensures ls[k] != [] && NoSpace(ls[k]) {
      assert ts[p[k]] in ts;
    }
    JoinSingleSpaced(ls);
    SplitJoin(ls);
  }
}
