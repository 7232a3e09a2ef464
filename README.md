# Sentiment bolt, modelled in Dafny

A model of `SentimentBolt`, the Storm bolt that scores the sentiment of tweets
(`p2-storm/src/main/java/be/bigdata/workshops/p2/storm/SentimentBolt.java`).
The bolt has two parts:

- **`prepare`** loads the sentiment lexicon. The file holds one `word<TAB>score`
  line per entry. Each line is split on tabs, its second field is parsed with
  `Integer.parseInt`, and `word ↦ score` is put into the map
  `sentiment_scores`. A later line for the same word overwrites an earlier
  one. The first line with no second field, or with a second field that is not
  an `int`, throws an unchecked exception. That exception escapes `prepare`,
  and the entries put before it stay in the map.
- **`execute`** classifies one tweet. If the tweet's JSON has no `"text"` key,
  nothing happens. Otherwise the text is lower-cased and split on single
  spaces, and the lexicon scores of the tokens are added up in an `int`. The
  sign of the total gives `"+"`, `"-"` or `"o"`. The tuple
  `(track, original text, sentiment)` is emitted unless the sentiment is `"o"`.

The project has four modules:

- `wrappers.dfy` (`Wrappers`): `Option` and `Result`.
- `java_lang.dfy` (`JavaLang`): the Java behaviour the bolt depends on.
  - 32-bit `int` wrap-around.
  - `toLowerCase` and `toUpperCase` on ASCII letters.
  - `String.split` with a one-character separator, including Java's
    dropping of trailing empty strings.
  - `Integer.parseInt`, including its `int` range check.
- `lexicon.dfy` (`Lexicon`): the file format, the per-line parse, and the
  specification of loading.
  - `LoadableCount` is how many lines load before the first bad one.
  - `PutAll` is the map after putting the entries in order.
- `sentiment_bolt.dfy` (`Sentiment`): the scoring specification, the polarity
  decision, the emission rule (`Classify`), and the class `SentimentBolt`.
  - The class has the field `sentimentScores`.
  - `Prepare` is the loader loop. It updates the field in place.
  - `Execute` is the scoring loop and the emit decision.
  - Both methods are proved against the specification functions.

Emission is modelled as the returned `Option<Emission>`: at most one tuple per
tweet. The lexicon file is given as its sequence of lines.

The model follows the code in three places a reader might not expect:

- The score is a Java `int`, and `score += …` wraps around on overflow.
  `Score` wraps, and `ScoreIsExactSum` states when the wrapped score equals
  the exact total. `ScoreWrapsAround` shows a tweet whose exact total is
  positive but which is emitted as `"-"`.
- A malformed lexicon line does not degrade gracefully. The exception is
  not caught: the `catch` clause handles only `IOException`. `prepare`
  therefore ends abnormally after closing the file. `Prepare` returns that
  outcome as `Some(LoadFailure(line, error))`, with the map left partial.
- A lexicon line `\t5` stores the empty word. Empty tokens, which come from
  consecutive spaces or a leading space, then do add its score. The model
  keeps this behaviour.

## Model

| member | source | states |
|---|---|---|
| `JavaLang.Wrap` | p2-storm/src/main/java/be/bigdata/workshops/p2/storm/SentimentBolt.java:81 | the result of `+=` is always a Java `int`, differs from the exact value by a multiple of 2^32, and is the exact value whenever that fits |
| `JavaLang.WrapAdd` | p2-storm/src/main/java/be/bigdata/workshops/p2/storm/SentimentBolt.java:77-83 | wrapping after every `score +=` gives the same `int` as wrapping the exact total once |
| `JavaLang.ToLowerChar` | p2-storm/src/main/java/be/bigdata/workshops/p2/storm/SentimentBolt.java:71 | no upper-case letter comes out; a character changes exactly when it is an ASCII capital, and then to its lower-case letter |
| `JavaLang.ToLowerCase` | p2-storm/src/main/java/be/bigdata/workshops/p2/storm/SentimentBolt.java:71 | the lower-cased text has the same length and no upper-case ASCII letter |
| `JavaLang.ToLowerCharIgnoresCase` | p2-storm/src/main/java/be/bigdata/workshops/p2/storm/SentimentBolt.java:71 | two characters lower-case to the same character if and only if they are equal or equal once upper-cased, the character test of `equalsIgnoreCase` |
| `JavaLang.ToLowerCaseIgnoresCase` | p2-storm/src/main/java/be/bigdata/workshops/p2/storm/SentimentBolt.java:70-71 | two texts lower-case to the same text if and only if they are equal ignoring ASCII case in the sense of `equalsIgnoreCase` |
| `JavaLang.ToUpperCaseEqualsIgnoreCase` | p2-storm/src/main/java/be/bigdata/workshops/p2/storm/SentimentBolt.java:70-71 | an upper-cased text equals the original ignoring case |
| `JavaLang.SplitAll` | p2-storm/src/main/java/be/bigdata/workshops/p2/storm/SentimentBolt.java:75 | the full split has at least one piece, no piece holds the separator, and a text without the separator is its own single piece |
| `JavaLang.JoinSplitAll` | p2-storm/src/main/java/be/bigdata/workshops/p2/storm/SentimentBolt.java:75 | joining the pieces with the separator gives back the text |
| `JavaLang.SplitAllJoin` | p2-storm/src/main/java/be/bigdata/workshops/p2/storm/SentimentBolt.java:75 | splitting a join of separator-free pieces gives back the pieces |
| `JavaLang.DropTrailingEmpty` | p2-storm/src/main/java/be/bigdata/workshops/p2/storm/SentimentBolt.java:75 | the result is a prefix, everything cut off is empty, and the result does not end in an empty string |
| `JavaLang.Split` | p2-storm/src/main/java/be/bigdata/workshops/p2/storm/SentimentBolt.java:75 | `split` as Java does it: tokens never hold the separator, `""` gives `[""]`, and otherwise the tokens are the full split minus its trailing empty pieces |
| `JavaLang.SplitWithoutSeparator` | p2-storm/src/main/java/be/bigdata/workshops/p2/storm/SentimentBolt.java:75 | any text without the separator, the empty text included, is its own single token |
| `JavaLang.SplitKeepsInnerAndLeadingEmpty` | p2-storm/src/main/java/be/bigdata/workshops/p2/storm/SentimentBolt.java:75 | `"a  b"` gives `["a", "", "b"]` and `" a"` gives `["", "a"]` |
| `JavaLang.SplitDropsTrailingEmpty` | p2-storm/src/main/java/be/bigdata/workshops/p2/storm/SentimentBolt.java:75 | `"a  "` gives `["a"]` |
| `JavaLang.SplitOnlySeparator` | p2-storm/src/main/java/be/bigdata/workshops/p2/storm/SentimentBolt.java:75 | `" "` gives no token at all |
| `JavaLang.SplitDropsEmptyLastField` | p2-storm/src/main/java/be/bigdata/workshops/p2/storm/SentimentBolt.java:119 | `"w\t"` splits on tab to `["w"]`, so it has no second field |
| `JavaLang.SplitKeepsExtraFields` | p2-storm/src/main/java/be/bigdata/workshops/p2/storm/SentimentBolt.java:119 | `"w\t3\tx"` splits on tab to three fields |
| `JavaLang.ParseInt` | p2-storm/src/main/java/be/bigdata/workshops/p2/storm/SentimentBolt.java:121 | a parsed value is an `int`; only an optional sign (`+` accepted, as from Java 7 on) followed by at least one digit parses; a negative value needs a leading `-` |
| `JavaLang.ParseIntShowInt` | p2-storm/src/main/java/be/bigdata/workshops/p2/storm/SentimentBolt.java:121 | every `int` written in decimal parses back to itself |
| `JavaLang.ParseIntSignedDigits` | p2-storm/src/main/java/be/bigdata/workshops/p2/storm/SentimentBolt.java:121 | an optional `+` or `-` followed by one or more digits, leading zeros allowed, parses to its signed decimal value when that is an `int` and is rejected when it is not |
| `JavaLang.ParseIntExamples` | p2-storm/src/main/java/be/bigdata/workshops/p2/storm/SentimentBolt.java:121 | the empty text, a lone sign and trailing junk are rejected; `+7` and `-05` parse |
| `Lexicon.ParseLine` | p2-storm/src/main/java/be/bigdata/workshops/p2/storm/SentimentBolt.java:119-123 | a line without a tab fails with a missing score; a parsed entry has an `int` score, and its word is the tab-free text before the first tab |
| `Lexicon.ParseFormatLine` | p2-storm/src/main/java/be/bigdata/workshops/p2/storm/SentimentBolt.java:119-123 | every entry written as `word<TAB>score` reads back as itself |
| `Lexicon.ParseLineFields` | p2-storm/src/main/java/be/bigdata/workshops/p2/storm/SentimentBolt.java:119-123 | on a line `word<TAB>field…` of tab-free fields: when the second field and every later one are empty, `split` drops them and the line fails with a missing score; otherwise the second field alone decides, and the line loads as the word with the field's `int` value if `parseInt` accepts the field, or fails with a bad score if it does not, an empty field included; fields after the second are ignored |
| `Lexicon.ParseLineEmptyScore` | p2-storm/src/main/java/be/bigdata/workshops/p2/storm/SentimentBolt.java:119-121 | `word<TAB>` with nothing after the tab fails with a missing score |
| `Lexicon.LoadableCount` | p2-storm/src/main/java/be/bigdata/workshops/p2/storm/SentimentBolt.java:115-125 | every line before the count parses, and the line at the count, if there is one, does not |
| `Lexicon.PutAll` | p2-storm/src/main/java/be/bigdata/workshops/p2/storm/SentimentBolt.java:117-125 | after putting the entries in order, every old word and every entry's word is in the map, and the last entry's word maps to the last entry's score |
| `Lexicon.PutAllDomain` | p2-storm/src/main/java/be/bigdata/workshops/p2/storm/SentimentBolt.java:123 | a word is in the loaded map if and only if it was there before or some loaded line carries it |
| `Lexicon.PutAllLastWins` | p2-storm/src/main/java/be/bigdata/workshops/p2/storm/SentimentBolt.java:117-125 | a word maps to the score of the last line that carries it |
| `Lexicon.PutAllUntouched` | p2-storm/src/main/java/be/bigdata/workshops/p2/storm/SentimentBolt.java:123 | a word no line carries keeps its old score, or stays absent |
| `Lexicon.PutAllKeepsInts` | p2-storm/src/main/java/be/bigdata/workshops/p2/storm/SentimentBolt.java:121-123 | after loading, every score in the map is still an `int` |
| `Sentiment.Weight` | p2-storm/src/main/java/be/bigdata/workshops/p2/storm/SentimentBolt.java:79-81 | a token adds something to the score only when the lexicon contains it |
| `Sentiment.Sum` | p2-storm/src/main/java/be/bigdata/workshops/p2/storm/SentimentBolt.java:73-83 | a tweet none of whose tokens is in the lexicon has total 0 |
| `Sentiment.Tokens` | p2-storm/src/main/java/be/bigdata/workshops/p2/storm/SentimentBolt.java:71-75 | no token holds a space or an upper-case letter |
| `Sentiment.Score` | p2-storm/src/main/java/be/bigdata/workshops/p2/storm/SentimentBolt.java:73-83 | the score is a Java `int` that differs from the exact total of the token scores by a multiple of 2^32, and equals that total whenever the total is an `int` |
| `Sentiment.Polarity` | p2-storm/src/main/java/be/bigdata/workshops/p2/storm/SentimentBolt.java:85-89 | `"+"` exactly when the score is positive, `"-"` exactly when negative, `"o"` exactly when zero |
| `Sentiment.Classify` | p2-storm/src/main/java/be/bigdata/workshops/p2/storm/SentimentBolt.java:61-98 | no `"text"` means nothing is emitted. Otherwise nothing is emitted if and only if the score is 0. An emitted tuple carries the keyword and the original text unchanged, is never `"o"`, and is `"+"`/`"-"` exactly for a positive/negative score |
| `Sentiment.SentimentBolt.constructor` | p2-storm/src/main/java/be/bigdata/workshops/p2/storm/SentimentBolt.java:47 | a new bolt has an empty lexicon |
| `Sentiment.SentimentBolt.Prepare` | p2-storm/src/main/java/be/bigdata/workshops/p2/storm/SentimentBolt.java:104-141 | the map becomes the old map with the entries of the loadable lines put in order. The failure names the first bad line and why, or is absent when every line loads. Every score stays an `int` |
| `Sentiment.SentimentBolt.Execute` | p2-storm/src/main/java/be/bigdata/workshops/p2/storm/SentimentBolt.java:61-98 | the token loop's wrapped `int` total and the if/else decision emit exactly what `Classify` specifies for the current lexicon |
| `Sentiment.SumPermutation` | p2-storm/src/main/java/be/bigdata/workshops/p2/storm/SentimentBolt.java:77-83 | reordering the tokens leaves the total unchanged (equal multisets, equal sums) |
| `Sentiment.ScoreOrderIndependent` | p2-storm/src/main/java/be/bigdata/workshops/p2/storm/SentimentBolt.java:77-89 | tweets with the same multiset of tokens get the same score, the same emit decision and the same sentiment |
| `Sentiment.ScoreIgnoresCase` | p2-storm/src/main/java/be/bigdata/workshops/p2/storm/SentimentBolt.java:70-71 | tweets equal ignoring ASCII case get the same score, the same emit decision and the same sentiment |
| `Sentiment.UpperCaseScoresAlike` | p2-storm/src/main/java/be/bigdata/workshops/p2/storm/SentimentBolt.java:70-71 | an upper-cased tweet scores as the tweet itself |
| `Sentiment.ScoreIsExactSum` | p2-storm/src/main/java/be/bigdata/workshops/p2/storm/SentimentBolt.java:73-83 | with lexicon scores bounded by `B` and at most `INT_MAX / B` tokens, the `int` score is the exact total |
| `Sentiment.ScoreWrapsAround` | p2-storm/src/main/java/be/bigdata/workshops/p2/storm/SentimentBolt.java:81-93 | `"good good"` with `good ↦ INT_MAX` wraps to -2 and is emitted as `"-"` |
| `Sentiment.ClassifyWords` | p2-storm/src/main/java/be/bigdata/workshops/p2/storm/SentimentBolt.java:71-94 | a text of lower-case words joined by single spaces, the last one non-empty, is classified by the wrapped total of those words' scores |
| `Sentiment.ScenarioPositive` | p2-storm/src/main/java/be/bigdata/workshops/p2/storm/SentimentBolt.java:61-98 | `good good bad` with `good ↦ 1, bad ↦ -1` is emitted as `"+"` with its text |
| `Sentiment.ScenarioNegative` | p2-storm/src/main/java/be/bigdata/workshops/p2/storm/SentimentBolt.java:61-98 | `good bad` with `good ↦ 1, bad ↦ -2` is emitted as `"-"` with its text |
| `Sentiment.ScenarioNeutral` | p2-storm/src/main/java/be/bigdata/workshops/p2/storm/SentimentBolt.java:61-98 | `good bad` with `good ↦ 1, bad ↦ -1` emits nothing |
| `Sentiment.EmptyLexiconEmitsNothing` | p2-storm/src/main/java/be/bigdata/workshops/p2/storm/SentimentBolt.java:77-94 | with an empty lexicon no tweet is ever emitted |

## Left out

- The Storm framework is not modelled: `BaseBasicBolt`, reading the fields `"track"` and `"tweet"` from the tuple, `collector.emit`, `declareOutputFields` and the empty `cleanup`. The keyword and the text are parameters of `Execute`, and the emitted tuple is its result.
- The JSON library is not modelled. The `"text"` field is an `Option<string>`. A `"text"` value that is null or not a string is not modelled; in Java it would throw.
- File handling is not modelled: the `sentiment_file` configuration lookup, `FileReader`/`BufferedReader`, `readLine`, `close` in `finally`, and the `IOException` catch. The file is given to `Prepare` as its sequence of lines, so an I/O error part-way through the file is not represented.
- log4j logging is left out. It has no effect on the state.
- `Prepare` returns the parse failure as a value. In Java it is thrown as `ArrayIndexOutOfBoundsException` or `NumberFormatException`, and what Storm then does with the worker is outside the bolt.
- Case mapping covers ASCII letters only. Java's locale- and Unicode-aware `toLowerCase`, which can also change a string's length, is not modelled. `ToLowerCase` leaves every non-ASCII character unchanged.
- `ParseInt` accepts only ASCII digits. `Integer.parseInt` also accepts other Unicode decimal digits.
- `ParseInt` follows `Integer.parseInt` of Java 7 and later, which accepts a leading `+`. Java 6 rejects it, and that behaviour is not modelled.
- `String.split` takes a regular expression. Only its one-literal-character case is modelled, which is the only one the bolt uses (`" "` and `"\t"`).
- `SENTIMENT_NEGATIVE` and `SENTIMENT_NEUTRAL` are non-final `public static` fields in Java, so other code could reassign them. The model treats all three symbols as constants.
- Storm can run several bolt instances in parallel. That concurrency is not modelled; each instance has its own lexicon.
