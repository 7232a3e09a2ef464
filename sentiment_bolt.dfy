/**
 * The sentiment bolt: it loads a word-to-score lexicon once (`prepare`) and
 * then, for every tweet it is handed (`execute`), lower-cases the text, splits
 * it on spaces, adds up the scores of the words it knows, and emits the
 * tracking keyword, the original text and "+" or "-", or nothing when the
 * score is zero.
 */
module Sentiment {
  import opened Wrappers
  import opened JavaLang
  import opened Lexicon

  const SENTIMENT_POSITIVE: string := "+"
  const SENTIMENT_NEGATIVE: string := "-"
  /** Only ever used inside the bolt, never emitted. */
  const SENTIMENT_NEUTRAL: string := "o"

  /** The tuple the bolt emits, with the fields ("track", "tweet", "sentiment"). */
  datatype Emission = Emission(track: string, tweet: string, sentiment: string)

  // ---------------------------------------------------------------------------
  // Specification of the score
  // ---------------------------------------------------------------------------

  /** What one token adds to the score: its lexicon score, nothing when the lexicon lacks it. */
  function Weight(scores: map<string, int>, word: string): (w: int)
    ensures w != 0 ==> word in scores
  {
    if word in scores then scores[word] else 0
  }

  /** No token is a word of the lexicon. */
  predicate NoneKnown(scores: map<string, int>, tokens: seq<string>) {
    forall i :: 0 <= i < |tokens| ==> tokens[i] !in scores
  }

  /** The exact total of the tokens' weights, taken left to right. */
  function Sum(scores: map<string, int>, tokens: seq<string>): (total: int)
    ensures NoneKnown(scores, tokens) ==> total == 0
  {
    if tokens == [] then 0
    else Sum(scores, tokens[..|tokens| - 1]) + Weight(scores, tokens[|tokens| - 1])
  }

  /** The tokens that `execute` looks up: the lower-cased text split on single spaces. */
  function Tokens(text: string): (tokens: seq<string>)
    ensures forall i :: 0 <= i < |tokens| ==> ' ' !in tokens[i]
    ensures forall i, j :: 0 <= i < |tokens| && 0 <= j < |tokens[i]| ==> !IsUpper(tokens[i][j])
  {
    var lower := ToLowerCase(text);
    var tokens := Split(lower, ' ');
    forall i, j | 0 <= i < |tokens| && 0 <= j < |tokens[i]|
      ensures !IsUpper(tokens[i][j])
    {
      TokenCharsFromText(lower, ' ', i, tokens[i][j]);
    }
    tokens
  }

  /** The `int` score `execute` arrives at: the exact total wrapped as Java's `+=` wraps it. */
  function Score(scores: map<string, int>, text: string): (score: int)
    ensures IsInt(score)
    ensures (score - Sum(scores, Tokens(text))) % INT_MODULUS == 0
    ensures IsInt(Sum(scores, Tokens(text))) ==> score == Sum(scores, Tokens(text))
  {
    Wrap(Sum(scores, Tokens(text)))
  }

  /** The sentiment decided from the score. */
  function Polarity(score: int): (p: string)
    ensures p == SENTIMENT_POSITIVE <==> score > 0
    ensures p == SENTIMENT_NEGATIVE <==> score < 0
    ensures p == SENTIMENT_NEUTRAL <==> score == 0
  {
    if score > 0 then SENTIMENT_POSITIVE
    else if score < 0 then SENTIMENT_NEGATIVE
    else SENTIMENT_NEUTRAL
  }

  /**
   * What `execute` emits for a tweet: nothing when the JSON has no "text",
   * nothing when the score is zero, and otherwise one tuple that carries the
   * keyword and the text exactly as received, with "+" or "-".
   */
  function Classify(scores: map<string, int>, track: string, text: Option<string>): (r: Option<Emission>)
    ensures text.None? ==> r.None?
    ensures text.Some? ==> (r.None? <==> Score(scores, text.value) == 0)
    ensures r.Some? ==> r.value.track == track && text == Some(r.value.tweet)
    ensures r.Some? ==> r.value.sentiment != SENTIMENT_NEUTRAL
    ensures r.Some? ==> (r.value.sentiment == SENTIMENT_POSITIVE <==> Score(scores, r.value.tweet) > 0)
    ensures r.Some? ==> (r.value.sentiment == SENTIMENT_NEGATIVE <==> Score(scores, r.value.tweet) < 0)
  {
    match text
    case None => None
    case Some(t) =>
      var sentiment := Polarity(Score(scores, t));
      if sentiment == SENTIMENT_NEUTRAL then None else Some(Emission(track, t, sentiment))
  }

  // ---------------------------------------------------------------------------
  // The bolt
  // ---------------------------------------------------------------------------

  class SentimentBolt {
    /** The word-to-score lexicon (`sentiment_scores`). */
    var sentimentScores: map<string, int>

    /**
     * The class invariant: the lexicon holds Java `int` scores only. `Prepare`
     * needs it and keeps it; `Execute` does not rely on it, since its score
     * is wrapped to an `int` whatever the lexicon holds.
     */
    ghost predicate Valid()
      reads this
    {
      AllInts(sentimentScores)
    }

    /** A new bolt starts with an empty lexicon. */
    constructor ()
      ensures Valid()
      ensures sentimentScores == map[]
    {
      sentimentScores := map[];
    }

    /**
     * `prepare`: put the entry of every line into the lexicon, in file order,
     * until a line without a second field or with a score that is not an
     * `int`; that line's failure is returned and the entries put before it
     * stay.
     */
    method Prepare(lines: seq<string>) returns (failure: Option<LoadFailure>)
      requires Valid()
      modifies this
      ensures Valid()
      ensures var n := LoadableCount(lines);
        sentimentScores == PutAll(old(sentimentScores), Entries(lines[..n]))
      ensures var n := LoadableCount(lines);
        failure == if n < |lines| then Some(LoadFailure(n, ParseLine(lines[n]).error)) else None
    {
      var i := 0;
      while i < |lines|
        invariant 0 <= i <= |lines|
        invariant forall j :: 0 <= j < i ==> ParseLine(lines[j]).Ok?
        invariant sentimentScores == PutAll(old(sentimentScores), Entries(lines[..i]))
        invariant Valid()
      {
        var pieces := Split(lines[i], TAB);
        if |pieces| < 2 {
          LoadableCountAt(lines, i);
          return Some(LoadFailure(i, MissingScore));
        }
        var score := ParseInt(pieces[1]);
        if score.None? {
          LoadableCountAt(lines, i);
          return Some(LoadFailure(i, BadScore));
        }
        sentimentScores := sentimentScores[pieces[0] := score.value];
        EntriesStep(lines, i);
        i := i + 1;
      }
      assert lines[..i] == lines;
      failure := None;
    }

    /**
     * `execute`: the score is accumulated token by token in an `int`, the
     * sentiment decided from its sign, and the tuple emitted unless neutral.
     */
    method Execute(track: string, text: Option<string>) returns (emitted: Option<Emission>)
      ensures emitted == Classify(sentimentScores, track, text)
    {
      emitted := None;
      if text.Some? {
        var tweetText := text.value;
        var textLower := ToLowerCase(tweetText);
        var score := 0;
        var pieces := Split(textLower, ' ');
        var i := 0;
        while i < |pieces|
          invariant 0 <= i <= |pieces|
          invariant score == Wrap(Sum(sentimentScores, pieces[..i]))
        {
          var word := pieces[i];
          SumStep(sentimentScores, pieces, i, score);
          if word in sentimentScores {
            score := Wrap(score + sentimentScores[word]);
          }
          i := i + 1;
        }
        assert pieces[..i] == pieces;
        ClassifyByScore(sentimentScores, track, tweetText, score);
        var sentiment := SENTIMENT_NEUTRAL;
        if score > 0 {
          sentiment := SENTIMENT_POSITIVE;
        } else if score < 0 {
          sentiment := SENTIMENT_NEGATIVE;
        }
        if sentiment != SENTIMENT_NEUTRAL {
          emitted := Some(Emission(track, tweetText, sentiment));
        }
      }
    }
  }

  // ---------------------------------------------------------------------------
  // Properties of the classifier
  // ---------------------------------------------------------------------------

  /** The emission for a tweet whose `int` score is `score`, by the sign of that score. */
  lemma ClassifyByScore(scores: map<string, int>, track: string, text: string, score: int)
    requires score == Wrap(Sum(scores, Split(ToLowerCase(text), ' ')))
    ensures Classify(scores, track, Some(text)) ==
      if score > 0 then Some(Emission(track, text, SENTIMENT_POSITIVE))
      else if score < 0 then Some(Emission(track, text, SENTIMENT_NEGATIVE))
      else None
  {
    assert score == Score(scores, text);
  }

  /** One more token: the `int` score so far plus the token's lexicon score, if it has one, wrapped again. */
  lemma SumStep(scores: map<string, int>, tokens: seq<string>, i: nat, score: int)
    requires i < |tokens|
    requires score == Wrap(Sum(scores, tokens[..i]))
    ensures tokens[i] in scores ==> Wrap(score + scores[tokens[i]]) == Wrap(Sum(scores, tokens[..i + 1]))
    ensures tokens[i] !in scores ==> score == Wrap(Sum(scores, tokens[..i + 1]))
  {
    assert tokens[..i + 1][..i] == tokens[..i];
    WrapAdd(Sum(scores, tokens[..i]), Weight(scores, tokens[i]));
  }

  lemma {:induction false} SumAppend(scores: map<string, int>, a: seq<string>, b: seq<string>)
    ensures Sum(scores, a + b) == Sum(scores, a) + Sum(scores, b)
    decreases |b|
  {
    if b == [] {
      assert a + b == a;
    } else {
      var init := b[..|b| - 1];
      SumAppend(scores, a, init);
      assert (a + b)[..|a + b| - 1] == a + init;
    }
  }

  /** Taking one token out of the sequence takes its weight out of the total. */
  lemma SumRemove(scores: map<string, int>, s: seq<string>, j: nat)
    requires j < |s|
    ensures Sum(scores, s) == Sum(scores, s[..j] + s[j + 1..]) + Weight(scores, s[j])
  {
    assert s == s[..j] + [s[j]] + s[j + 1..];
    SumAppend(scores, s[..j] + [s[j]], s[j + 1..]);
    SumAppend(scores, s[..j], [s[j]]);
    SumAppend(scores, s[..j], s[j + 1..]);
    assert [s[j]][..0] == [];
  }

  lemma MultisetRemove(s: seq<string>, j: nat)
    requires j < |s|
    ensures multiset(s[..j] + s[j + 1..]) == multiset(s) - multiset{s[j]}
  {
    assert s == s[..j] + [s[j]] + s[j + 1..];
  }

  lemma WitnessIndex(s: seq<string>, x: string) returns (j: nat)
    requires x in multiset(s)
    ensures j < |s| && s[j] == x
  {
    assert x in s;
    j :| 0 <= j < |s| && s[j] == x;
  }

  /** The total does not depend on the order of the tokens. */
  lemma {:induction false} SumPermutation(scores: map<string, int>, a: seq<string>, b: seq<string>)
    requires multiset(a) == multiset(b)
    ensures Sum(scores, a) == Sum(scores, b)
    decreases |a|
  {
    if a == [] {
      assert |b| == |multiset(b)| == 0;
    } else {
      var i := |a| - 1;
      var j := WitnessIndex(b, a[i]);
      MultisetRemove(a, i);
      MultisetRemove(b, j);
      assert a[..i] + a[i + 1..] == a[..i];
      SumPermutation(scores, a[..i], b[..j] + b[j + 1..]);
      SumRemove(scores, b, j);
    }
  }

  /** Tweets whose token multisets agree get the same score and the same emission, save the text. */
  lemma ScoreOrderIndependent(scores: map<string, int>, track: string, t1: string, t2: string)
    requires multiset(Tokens(t1)) == multiset(Tokens(t2))
    ensures Score(scores, t1) == Score(scores, t2)
    ensures Classify(scores, track, Some(t1)).None? <==> Classify(scores, track, Some(t2)).None?
    ensures Classify(scores, track, Some(t1)).Some? ==>
      Classify(scores, track, Some(t1)).value.sentiment == Classify(scores, track, Some(t2)).value.sentiment
  {
    SumPermutation(scores, Tokens(t1), Tokens(t2));
  }

  /** Tweets that differ only in letter case get the same score and the same emission, save the text. */
  lemma ScoreIgnoresCase(scores: map<string, int>, track: string, t1: string, t2: string)
    requires EqualsIgnoreCase(t1, t2)
    ensures Score(scores, t1) == Score(scores, t2)
    ensures Classify(scores, track, Some(t1)).None? <==> Classify(scores, track, Some(t2)).None?
    ensures Classify(scores, track, Some(t1)).Some? ==>
      Classify(scores, track, Some(t1)).value.sentiment == Classify(scores, track, Some(t2)).value.sentiment
  {
    ToLowerCaseIgnoresCase(t1, t2);
  }

  /** An upper-cased tweet scores as the tweet does. */
  lemma UpperCaseScoresAlike(scores: map<string, int>, text: string)
    ensures Score(scores, ToUpperCase(text)) == Score(scores, text)
  {
    ToUpperCaseEqualsIgnoreCase(text);
    ToLowerCaseIgnoresCase(ToUpperCase(text), text);
  }

  lemma {:induction false} SumBound(scores: map<string, int>, tokens: seq<string>, bound: int)
    requires bound >= 0
    requires forall w :: w in scores ==> -bound <= scores[w] <= bound
    ensures -(|tokens| * bound) <= Sum(scores, tokens) <= |tokens| * bound
  {
    if tokens != [] {
      SumBound(scores, tokens[..|tokens| - 1], bound);
      assert |tokens| * bound == (|tokens| - 1) * bound + bound;
    }
  }

  /**
   * When every lexicon score lies within `bound` and the tweet has few enough
   * tokens, the `int` score is the exact total: no wrap-around happens.
   */
  lemma ScoreIsExactSum(scores: map<string, int>, text: string, bound: int)
    requires bound >= 0
    requires forall w :: w in scores ==> -bound <= scores[w] <= bound
    requires |Tokens(text)| * bound <= INT_MAX
    ensures Score(scores, text) == Sum(scores, Tokens(text))
  {
    SumBound(scores, Tokens(text), bound);
  }

  // ---------------------------------------------------------------------------
  // Worked examples
  // ---------------------------------------------------------------------------

  // The examples take the lexicon and the text as parameters fixed by their
  // `requires`, rather than as literals in the `ensures`: the verifier unfolds
  // functions on literal arguments without bound, and this keeps each proof
  // to the steps written out in it.

  /** Lower-case words joined by single spaces, the last one not empty, tokenise back into those words. */
  lemma TokensOfWords(words: seq<string>)
    requires |words| >= 1 && words[|words| - 1] != []
    requires forall i :: 0 <= i < |words| ==> ' ' !in words[i]
    requires forall i, j :: 0 <= i < |words| && 0 <= j < |words[i]| ==> !IsUpper(words[i][j])
    ensures Tokens(Join(words, ' ')) == words
  {
    var text := Join(words, ' ');
    forall k | 0 <= k < |text|
      ensures ToLowerCase(text)[k] == text[k]
    {
      JoinChars(words, ' ', k);
    }
    assert ToLowerCase(text) == text;
    SplitAllJoin(words, ' ');
    if |words| == 1 {
      assert text == words[0];
    } else {
      assert text == words[0] + [' '] + Join(words[1..], ' ');
      assert text[|words[0]|] == ' ';
    }
  }

  /**
   * A tweet made of lower-case words joined by single spaces is classified by
   * the wrapped total of those words' weights.
   */
  lemma ClassifyWords(scores: map<string, int>, track: string, words: seq<string>)
    requires |words| >= 1 && words[|words| - 1] != []
    requires forall i :: 0 <= i < |words| ==> ' ' !in words[i]
    requires forall i, j :: 0 <= i < |words| && 0 <= j < |words[i]| ==> !IsUpper(words[i][j])
    ensures var text, score := Join(words, ' '), Wrap(Sum(scores, words));
      Classify(scores, track, Some(text))
        == if score == 0 then None else Some(Emission(track, text, Polarity(score)))
  {
    TokensOfWords(words);
  }

  lemma GoodBadWords(words: seq<string>)
    requires forall i :: 0 <= i < |words| ==> words[i] == "good" || words[i] == "bad"
    ensures forall i :: 0 <= i < |words| ==> ' ' !in words[i]
    ensures forall i, j :: 0 <= i < |words| && 0 <= j < |words[i]| ==> !IsUpper(words[i][j])
  {
  }

  /** Two of "good" (+1) and one "bad" (-1) sum to 1: the tweet is emitted as positive. */
  lemma ScenarioPositive(scores: map<string, int>, track: string, text: string)
    requires scores == map["good" := 1, "bad" := -1] && text == "good good bad"
    ensures Classify(scores, track, Some(text)) == Some(Emission(track, text, SENTIMENT_POSITIVE))
  {
    var words := ["good", "good", "bad"];
    assert Join(words, ' ') == text by {
      var tail := ["good", "bad"];
      assert words[1..] == tail;
      assert Join(tail, ' ') == "good bad" by {
        assert Join(tail[1..], ' ') == "bad";
      }
      assert Join(words, ' ') == "good" + " " + "good bad";
    }
    GoodBadWords(words);
    ClassifyWords(scores, track, words);
    assert Sum(scores, ["good"]) == 1 by {
      assert ["good"][..0] == [];
    }
    assert Sum(scores, ["good", "good"]) == 2 by {
      assert ["good", "good"][..1] == ["good"];
    }
    assert Sum(scores, words) == 1 by {
      assert words[..2] == ["good", "good"];
    }
  }

  /** "good" (+1) and "bad" (-2) sum to -1: the tweet is emitted as negative. */
  lemma ScenarioNegative(scores: map<string, int>, track: string, text: string)
    requires scores == map["good" := 1, "bad" := -2] && text == "good bad"
    ensures Classify(scores, track, Some(text)) == Some(Emission(track, text, SENTIMENT_NEGATIVE))
  {
    var words := ["good", "bad"];
    assert Join(words, ' ') == text by {
      assert Join(words[1..], ' ') == "bad";
    }
    GoodBadWords(words);
    ClassifyWords(scores, track, words);
    assert Sum(scores, ["good"]) == 1 by {
      assert ["good"][..0] == [];
    }
    assert Sum(scores, words) == -1 by {
      assert words[..1] == ["good"];
    }
  }

  /** "good" (+1) and "bad" (-1) cancel out: nothing is emitted. */
  lemma ScenarioNeutral(scores: map<string, int>, track: string, text: string)
    requires scores == map["good" := 1, "bad" := -1] && text == "good bad"
    ensures Classify(scores, track, Some(text)) == None
  {
    var words := ["good", "bad"];
    assert Join(words, ' ') == text by {
      assert Join(words[1..], ' ') == "bad";
    }
    GoodBadWords(words);
    ClassifyWords(scores, track, words);
    assert Sum(scores, ["good"]) == 1 by {
      assert ["good"][..0] == [];
    }
    assert Sum(scores, words) == 0 by {
      assert words[..1] == ["good"];
    }
  }

  /** With an empty lexicon nothing is ever emitted. */
  lemma EmptyLexiconEmitsNothing(track: string, text: Option<string>)
    ensures Classify(map[], track, text) == None
  {
  }

  /**
   * The score is a Java `int`: two occurrences of a word scored INT_MAX
   * wrap around to -2, and the tweet is emitted as negative.
   */
  lemma ScoreWrapsAround(scores: map<string, int>, track: string, text: string)
    requires scores == map["good" := INT_MAX] && text == "good good"
    ensures Classify(scores, track, Some(text)) == Some(Emission(track, text, SENTIMENT_NEGATIVE))
  {
    var words := ["good", "good"];
    assert Join(words, ' ') == text by {
      assert Join(words[1..], ' ') == "good";
    }
    GoodBadWords(words);
    ClassifyWords(scores, track, words);
    assert Sum(scores, ["good"]) == INT_MAX by {
      assert ["good"][..0] == [];
    }
    assert Sum(scores, words) == 2 * INT_MAX by {
      assert words[..1] == ["good"];
    }
    assert Wrap(2 * INT_MAX) == -2 by {
      assert 2 * INT_MAX - INT_MIN == INT_MODULUS + 0x7fff_fffe;
      assert (2 * INT_MAX - INT_MIN) % INT_MODULUS == 0x7fff_fffe;
    }
  }
}
