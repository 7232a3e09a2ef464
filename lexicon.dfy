/**
 * The sentiment file read by the bolt's `prepare`: one `word<TAB>score` entry
 * per line, put into the word-to-score map in file order, so that a later
 * line for the same word overwrites an earlier one. Loading stops at the
 * first line whose score cannot be read.
 */
module Lexicon {
  import opened Wrappers
  import opened JavaLang

  const TAB: char := '\t'

  /** One word-score pair of the sentiment file. */
  datatype Entry = Entry(word: string, score: int)

  /**
   * Why a line stops the load; each stands for the unchecked exception that
   * escapes `prepare` (its `catch` only handles IOException).
   */
  datatype LineError =
    | MissingScore  // `pieces[1]` on a line with fewer than two fields: ArrayIndexOutOfBoundsException
    | BadScore      // Integer.parseInt rejects the second field: NumberFormatException

  /** The bad line's position in the file (from 0) and what is wrong with it. */
  datatype LoadFailure = LoadFailure(line: nat, error: LineError)

  lemma JoinHead(parts: seq<string>, sep: char)
    requires |parts| >= 2
    ensures parts[0] + [sep] <= Join(parts, sep)
  {
  }

  /**
   * A line as the loop body of `prepare` reads it: split on tabs, the second
   * field parsed as an `int`, the first field taken as the word; fields after
   * the second are ignored.
   */
  function ParseLine(line: string): (r: Result<Entry, LineError>)
    ensures TAB !in line ==> r == Err(MissingScore)
    ensures r.Ok? ==> IsInt(r.value.score)
    ensures r.Ok? ==> TAB !in r.value.word && r.value.word + [TAB] <= line
  {
    var pieces := Split(line, TAB);
    if |pieces| < 2 then Err(MissingScore)
    else
      match ParseInt(pieces[1])
      case None => Err(BadScore)
      case Some(n) =>
        assert pieces[0] + [TAB] <= line by {
          var all := SplitAll(line, TAB);
          assert all[..|pieces|] == pieces;
          JoinSplitAll(line, TAB);
          JoinHead(all, TAB);
        }
        Ok(Entry(pieces[0], n))
  }

  /** How an entry is written in the sentiment file. */
  function FormatLine(e: Entry): string {
    e.word + [TAB] + ShowInt(e.score)
  }

  lemma ShowIntHasNoTab(n: int)
    ensures |ShowInt(n)| >= 1 && TAB !in ShowInt(n)
  {
  }

  /** Every entry with a tab-free word and an `int` score reads back as written. */
  lemma {:induction false} ParseFormatLine(e: Entry)
    requires TAB !in e.word && IsInt(e.score)
    ensures ParseLine(FormatLine(e)) == Ok(e)
  {
    var digits := ShowInt(e.score);
    ShowIntHasNoTab(e.score);
    var line := FormatLine(e);
    assert line == Join([e.word, digits], TAB);
    SplitAllJoin([e.word, digits], TAB);
    assert TAB in line by { assert line[|e.word|] == TAB; }
    assert Split(line, TAB) == [e.word, digits];
    ParseIntShowInt(e.score);
  }

  /** Dropping trailing empty pieces keeps every piece up to a non-empty one. */
  lemma DropKeepsUpToNonEmpty(parts: seq<string>, k: nat)
    requires k < |parts| && parts[k] != []
    ensures |DropTrailingEmpty(parts)| > k && DropTrailingEmpty(parts)[k] == parts[k]
  {
  }

  /** Pieces that are all empty after the first are all dropped. */
  lemma DropEmptyTail(parts: seq<string>)
    requires forall i :: 1 <= i < |parts| ==> parts[i] == []
    ensures |DropTrailingEmpty(parts)| <= 1
  {
  }

  /** A line joined from tab-free fields, at least two of them, splits on tabs into those fields less the trailing empty ones. */
  lemma SplitJoinedLine(parts: seq<string>)
    requires |parts| >= 2
    requires forall i :: 0 <= i < |parts| ==> TAB !in parts[i]
    ensures Split(Join(parts, TAB), TAB) == DropTrailingEmpty(parts)
  {
    var line := Join(parts, TAB);
    SplitAllJoin(parts, TAB);
    JoinHead(parts, TAB);
    assert TAB in line by { assert line[|parts[0]|] == TAB; }
  }

  /**
   * A line of a tab-free word, a tab-free second field and any further
   * tab-free fields. When the second field and every later one are empty,
   * Java's split drops them all and the line has no second field. Otherwise
   * the second field alone decides the outcome: the line loads as the word
   * with that field's `int` value, or fails with a bad score when the field
   * does not parse (the empty field included); later fields are ignored.
   */
  lemma {:induction false} ParseLineFields(w: string, f: string, extra: seq<string>)
    requires TAB !in w && TAB !in f
    requires forall i :: 0 <= i < |extra| ==> TAB !in extra[i]
    ensures ParseLine(Join([w, f] + extra, TAB)) ==
      if f == [] && forall i :: 0 <= i < |extra| ==> extra[i] == [] then Err(MissingScore)
      else
        match ParseInt(f)
        case Some(n) => Ok(Entry(w, n))
        case None => Err(BadScore)
  {
    var parts := [w, f] + extra;
    assert forall i :: 0 <= i < |parts| ==> TAB !in parts[i];
    SplitJoinedLine(parts);
    var pieces := DropTrailingEmpty(parts);
    if f == [] && forall i :: 0 <= i < |extra| ==> extra[i] == [] {
      assert forall i :: 1 <= i < |parts| ==> parts[i] == [] by {
        forall i | 1 <= i < |parts| ensures parts[i] == [] {
          if i >= 2 { assert parts[i] == extra[i - 2]; }
        }
      }
      DropEmptyTail(parts);
    } else {
      if f != [] {
        DropKeepsUpToNonEmpty(parts, 1);
      } else {
        var i :| 0 <= i < |extra| && extra[i] != [];
        assert parts[i + 2] == extra[i];
        DropKeepsUpToNonEmpty(parts, i + 2);
      }
      assert pieces[0] == w && pieces[1] == f;
    }
  }

  /** A line whose score column is empty (`word<TAB>`) has no second field. */
  lemma {:induction false} ParseLineEmptyScore(w: string)
    requires TAB !in w
    ensures ParseLine(w + [TAB]) == Err(MissingScore)
  {
    var parts: seq<string> := [w, []];
    ParseLineFields(w, [], []);
    assert parts + [] == parts;
    assert parts[1..] == [[]];
    assert Join(parts, TAB) == w + [TAB] + [];
    assert w + [TAB] + [] == w + [TAB];
  }

  /** The number of lines, from the start of the file, that load before the first bad one. */
  function LoadableCount(lines: seq<string>): (n: nat)
    ensures n <= |lines|
    ensures forall i :: 0 <= i < n ==> ParseLine(lines[i]).Ok?
    ensures n < |lines| ==> ParseLine(lines[n]).Err?
  {
    if lines == [] || ParseLine(lines[0]).Err? then 0
    else
      var rest := LoadableCount(lines[1..]);
      assert forall i :: 1 <= i <= |lines| - 1 ==> lines[i] == lines[1..][i - 1];
      1 + rest
  }

  /** The entries that the lines of a well-formed stretch of the file stand for. */
  function Entries(lines: seq<string>): (es: seq<Entry>)
    requires forall i :: 0 <= i < |lines| ==> ParseLine(lines[i]).Ok?
    ensures |es| == |lines|
    ensures forall i :: 0 <= i < |lines| ==> ParseLine(lines[i]) == Ok(es[i])
  {
    seq(|lines|, i requires 0 <= i < |lines| => ParseLine(lines[i]).value)
  }

  /** `m` after `put(word, score)` of every entry, in order. */
  function PutAll(m: map<string, int>, es: seq<Entry>): (r: map<string, int>)
    ensures forall w :: w in m ==> w in r
    ensures forall i :: 0 <= i < |es| ==> es[i].word in r
    ensures es != [] ==> r[es[|es| - 1].word] == es[|es| - 1].score
  {
    if es == [] then m
    else
      var last := es[|es| - 1];
      PutAll(m, es[..|es| - 1])[last.word := last.score]
  }

  /** A word is in the result exactly when it was in the map or some entry carries it. */
  lemma {:induction false} PutAllDomain(m: map<string, int>, es: seq<Entry>, w: string)
    ensures w in PutAll(m, es) <==> w in m || exists i :: 0 <= i < |es| && es[i].word == w
  {
    if es != [] {
      var init := es[..|es| - 1];
      PutAllDomain(m, init, w);
      if exists i :: 0 <= i < |init| && init[i].word == w {
        var i :| 0 <= i < |init| && init[i].word == w;
        assert es[i].word == w;
      }
      if exists i :: 0 <= i < |es| && es[i].word == w {
        var i :| 0 <= i < |es| && es[i].word == w;
        if i < |init| {
          assert init[i].word == w;
        }
      }
    }
  }

  /** A later entry for a word overwrites every earlier one: the last entry carrying it wins. */
  lemma {:induction false} PutAllLastWins(m: map<string, int>, es: seq<Entry>, i: nat)
    requires i < |es|
    requires forall j :: i < j < |es| ==> es[j].word != es[i].word
    ensures es[i].word in PutAll(m, es)
    ensures PutAll(m, es)[es[i].word] == es[i].score
  {
    if i < |es| - 1 {
      var init := es[..|es| - 1];
      PutAllLastWins(m, init, i);
    }
  }

  /** A word no entry carries keeps whatever the map held for it, absent included. */
  lemma {:induction false} PutAllUntouched(m: map<string, int>, es: seq<Entry>, w: string)
    requires forall j :: 0 <= j < |es| ==> es[j].word != w
    ensures w in PutAll(m, es) <==> w in m
    ensures w in m ==> PutAll(m, es)[w] == m[w]
  {
    if es != [] {
      PutAllUntouched(m, es[..|es| - 1], w);
    }
  }

  /** Every score in the map is a Java `int`. */
  predicate AllInts(m: map<string, int>) {
    forall w :: w in m ==> IsInt(m[w])
  }

  /** Putting parsed entries keeps every score a Java `int`. */
  lemma {:induction false} PutAllKeepsInts(m: map<string, int>, es: seq<Entry>)
    requires AllInts(m)
    requires forall j :: 0 <= j < |es| ==> IsInt(es[j].score)
    ensures AllInts(PutAll(m, es))
  {
    if es != [] {
      PutAllKeepsInts(m, es[..|es| - 1]);
    }
  }

  /** A file whose lines load up to line `i`, which does not, loads exactly `i` lines. */
  lemma LoadableCountAt(lines: seq<string>, i: nat)
    requires i < |lines|
    requires forall j :: 0 <= j < i ==> ParseLine(lines[j]).Ok?
    requires ParseLine(lines[i]).Err?
    ensures LoadableCount(lines) == i
  {
  }

  /** One more good line adds its entry at the end. */
  lemma EntriesStep(lines: seq<string>, i: nat)
    requires i < |lines|
    requires forall j :: 0 <= j <= i ==> ParseLine(lines[j]).Ok?
    ensures Entries(lines[..i + 1]) == Entries(lines[..i]) + [ParseLine(lines[i]).value]
  {
    var longer := Entries(lines[..i + 1]);
    var shorter := Entries(lines[..i]);
    forall j | 0 <= j < i
      ensures longer[j] == shorter[j]
    {
      assert lines[..i + 1][j] == lines[..i][j];
    }
    assert longer[i] == ParseLine(lines[i]).value by {
      assert lines[..i + 1][i] == lines[i];
    }
  }
}
