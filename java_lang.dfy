/**
 * The pieces of the Java platform that the sentiment bolt leans on, stated
 * exactly enough to reason about the bolt: 32-bit `int` addition,
 * `String.toLowerCase` on ASCII letters, `String.split` with a one-character
 * separator, and `Integer.parseInt`.
 */
module JavaLang {
  import opened Wrappers

  // ---------------------------------------------------------------------------
  // int: 32-bit two's complement
  // ---------------------------------------------------------------------------

  const INT_MIN: int := -0x8000_0000
  const INT_MAX: int := 0x7fff_ffff
  const INT_MODULUS: int := 0x1_0000_0000

  /** `x` is a value of Java's `int`. */
  predicate IsInt(x: int) {
    INT_MIN <= x <= INT_MAX
  }

  /** The Java `int` that an exact result `x` wraps to. */
  function Wrap(x: int): (r: int)
    ensures IsInt(r)
    ensures (r - x) % INT_MODULUS == 0
    ensures IsInt(x) ==> r == x
  {
    var q := (x - INT_MIN) / INT_MODULUS;
    assert (x - INT_MIN) % INT_MODULUS - (x - INT_MIN) == (0 - q) * INT_MODULUS;
    (x - INT_MIN) % INT_MODULUS + INT_MIN
  }

  /** Wrapping after every `+=` gives the same `int` as wrapping the exact total once. */
  lemma WrapAdd(a: int, b: int)
    ensures Wrap(Wrap(a) + b) == Wrap(a + b)
  {
  }

  // ---------------------------------------------------------------------------
  // Case mapping (ASCII letters only)
  // ---------------------------------------------------------------------------

  predicate IsUpper(c: char) {
    'A' <= c <= 'Z'
  }

  predicate IsLower(c: char) {
    'a' <= c <= 'z'
  }

  /** Character.toLowerCase restricted to ASCII: 'A'..'Z' become 'a'..'z', all else is kept. */
  function ToLowerChar(c: char): (d: char)
    ensures !IsUpper(d)
    ensures d != c <==> IsUpper(c)
    ensures IsUpper(c) ==> IsLower(d) && d as int - c as int == 'a' as int - 'A' as int
  {
    if IsUpper(c) then (c as int - 'A' as int + 'a' as int) as char else c
  }

  /** Character.toUpperCase restricted to ASCII: 'a'..'z' become 'A'..'Z', all else is kept. */
  function ToUpperChar(c: char): (d: char)
    ensures !IsLower(d)
    ensures d != c <==> IsLower(c)
    ensures IsLower(c) ==> IsUpper(d) && c as int - d as int == 'a' as int - 'A' as int
  {
    if IsLower(c) then (c as int - 'a' as int + 'A' as int) as char else c
  }

  /** String.toLowerCase on ASCII text: the same length, no upper-case letter left. */
  function ToLowerCase(s: string): (r: string)
    ensures |r| == |s|
    ensures forall i :: 0 <= i < |r| ==> !IsUpper(r[i])
    ensures forall i :: 0 <= i < |r| ==> r[i] == ToLowerChar(s[i])
  {
    seq(|s|, i requires 0 <= i < |s| => ToLowerChar(s[i]))
  }

  /** String.toUpperCase on ASCII text: the same length, no lower-case letter left. */
  function ToUpperCase(s: string): (r: string)
    ensures |r| == |s|
    ensures forall i :: 0 <= i < |r| ==> !IsLower(r[i])
    ensures forall i :: 0 <= i < |r| ==> r[i] == ToUpperChar(s[i])
  {
    seq(|s|, i requires 0 <= i < |s| => ToUpperChar(s[i]))
  }

  /**
   * The character test of String.equalsIgnoreCase on ASCII letters: the two
   * characters are equal, or equal once both are upper-cased.
   */
  predicate CharEqualsIgnoreCase(c: char, d: char) {
    c == d || ToUpperChar(c) == ToUpperChar(d)
  }

  /** String.equalsIgnoreCase on ASCII text: the same length, and every pair of characters matches ignoring case. */
  predicate EqualsIgnoreCase(a: string, b: string) {
    |a| == |b| && forall i :: 0 <= i < |a| ==> CharEqualsIgnoreCase(a[i], b[i])
  }

  /** Two characters lower-case alike exactly when they match ignoring case. */
  lemma ToLowerCharIgnoresCase(c: char, d: char)
    ensures CharEqualsIgnoreCase(c, d) <==> ToLowerChar(c) == ToLowerChar(d)
  {
  }

  /** Texts that differ only in the case of ASCII letters lower-case to the same text, and only those. */
  lemma ToLowerCaseIgnoresCase(a: string, b: string)
    ensures EqualsIgnoreCase(a, b) <==> ToLowerCase(a) == ToLowerCase(b)
  {
  }

  /** Upper-casing a text keeps it equal to the original up to case. */
  lemma ToUpperCaseEqualsIgnoreCase(s: string)
    ensures EqualsIgnoreCase(ToUpperCase(s), s)
  {
  }

  // ---------------------------------------------------------------------------
  // String.split with a one-character separator
  // ---------------------------------------------------------------------------

  /**
   * Every stretch of `s` between occurrences of `sep`, empty stretches
   * included; this is `s.split(sep, -1)`, the split before Java drops any
   * trailing empty strings.
   */
  function SplitAll(s: string, sep: char): (parts: seq<string>)
    ensures |parts| >= 1
    ensures forall i :: 0 <= i < |parts| ==> sep !in parts[i]
    ensures sep !in s ==> parts == [s]
    decreases |s|
  {
    if s == [] then [[]]
    else
      var rest := SplitAll(s[1..], sep);
      if s[0] == sep then [[]] + rest
      else
        assert s == [s[0]] + s[1..];
        assert sep in s[1..] ==> sep in s;
        [[s[0]] + rest[0]] + rest[1..]
  }

  /** The pieces glued back together with `sep` between neighbours (String.join). */
  function Join(parts: seq<string>, sep: char): string
    requires |parts| >= 1
  {
    if |parts| == 1 then parts[0] else parts[0] + [sep] + Join(parts[1..], sep)
  }

  /** Splitting then joining gives back the text. */
  lemma {:induction false} JoinSplitAll(s: string, sep: char)
    ensures Join(SplitAll(s, sep), sep) == s
    decreases |s|
  {
    if s != [] {
      var rest := SplitAll(s[1..], sep);
      JoinSplitAll(s[1..], sep);
      if s[0] == sep {
        assert SplitAll(s, sep) == [[]] + rest;
        assert s == [] + [sep] + Join(rest, sep);
      } else {
        var parts := SplitAll(s, sep);
        assert parts == [[s[0]] + rest[0]] + rest[1..];
        if |rest| == 1 {
          assert Join(parts, sep) == [s[0]] + rest[0];
        } else {
          assert parts[1..] == rest[1..];
          assert Join(rest, sep) == rest[0] + [sep] + Join(rest[1..], sep);
        }
      }
    }
  }

  lemma {:induction false} SplitAllPrefix(w: string, t: string, sep: char)
    requires sep !in w
    ensures SplitAll(w + t, sep) == [w + SplitAll(t, sep)[0]] + SplitAll(t, sep)[1..]
    decreases |w|
  {
    if w != [] {
      assert (w + t)[0] == w[0] != sep;
      assert (w + t)[1..] == w[1..] + t;
      assert sep in w[1..] ==> sep in w;
      SplitAllPrefix(w[1..], t, sep);
      var rest := SplitAll(w[1..] + t, sep);
      assert SplitAll(w + t, sep) == [[w[0]] + rest[0]] + rest[1..];
      assert rest[0] == w[1..] + SplitAll(t, sep)[0];
      assert rest[1..] == SplitAll(t, sep)[1..];
      assert [w[0]] + (w[1..] + SplitAll(t, sep)[0]) == w + SplitAll(t, sep)[0];
    } else {
      var parts := SplitAll(t, sep);
      assert w + t == t;
      assert w + parts[0] == parts[0];
      assert parts == [parts[0]] + parts[1..];
    }
  }

  /** Joining pieces free of `sep` and splitting again gives back the pieces. */
  lemma {:induction false} SplitAllJoin(parts: seq<string>, sep: char)
    requires |parts| >= 1
    requires forall i :: 0 <= i < |parts| ==> sep !in parts[i]
    ensures SplitAll(Join(parts, sep), sep) == parts
    decreases |parts|
  {
    if |parts| == 1 {
      SplitAllPrefix(parts[0], [], sep);
      assert parts[0] + [] == parts[0];
    } else {
      var j := Join(parts[1..], sep);
      SplitAllJoin(parts[1..], sep);
      SplitAllPrefix(parts[0], [sep] + j, sep);
      assert parts[0] + [sep] + j == parts[0] + ([sep] + j);
      assert ([sep] + j)[0] == sep;
      assert ([sep] + j)[1..] == j;
      var tail := SplitAll([sep] + j, sep);
      assert tail == [[]] + SplitAll(j, sep);
      assert tail[0] == [] && tail[1..] == parts[1..];
      assert parts[0] + tail[0] == parts[0];
      assert parts == [parts[0]] + parts[1..];
    }
  }

  /** Every character of a joined text is the separator or a character of one of the pieces. */
  lemma {:induction false} JoinChars(parts: seq<string>, sep: char, k: nat)
    requires 1 <= |parts| && k < |Join(parts, sep)|
    ensures Join(parts, sep)[k] == sep || exists i, j :: 0 <= i < |parts| && 0 <= j < |parts[i]| && parts[i][j] == Join(parts, sep)[k]
  {
    if |parts| > 1 && k > |parts[0]| {
      var rest := Join(parts[1..], sep);
      assert Join(parts, sep) == parts[0] + [sep] + rest;
      JoinChars(parts[1..], sep, k - |parts[0]| - 1);
      if rest[k - |parts[0]| - 1] != sep {
        var i, j :| 0 <= i < |parts[1..]| && 0 <= j < |parts[1..][i]| && parts[1..][i][j] == rest[k - |parts[0]| - 1];
        assert parts[i + 1][j] == Join(parts, sep)[k];
      }
    } else if |parts| > 1 && k < |parts[0]| {
      assert Join(parts, sep)[k] == parts[0][k];
    }
  }

  /** Every character of a token comes from the text that was split. */
  lemma TokenCharsFromText(s: string, sep: char, i: nat, c: char)
    requires i < |Split(s, sep)| && c in Split(s, sep)[i]
    ensures c in s
  {
    var tokens := Split(s, sep);
    if s != [] {
      var all := SplitAll(s, sep);
      assert tokens[i] == all[i];
      JoinSplitAll(s, sep);
      JoinContains(all, sep, i, c);
    }
  }

  lemma {:induction false} JoinContains(parts: seq<string>, sep: char, i: nat, c: char)
    requires 1 <= |parts| && i < |parts| && c in parts[i]
    ensures c in Join(parts, sep)
  {
    if |parts| > 1 {
      if i > 0 {
        JoinContains(parts[1..], sep, i - 1, c);
      }
      assert Join(parts, sep) == parts[0] + [sep] + Join(parts[1..], sep);
    }
  }

  /** The pieces of `parts` left once its trailing empty strings are removed. */
  function DropTrailingEmpty(parts: seq<string>): (r: seq<string>)
    ensures r <= parts
    ensures forall i :: |r| <= i < |parts| ==> parts[i] == []
    ensures r == [] || r[|r| - 1] != []
  {
    if parts != [] && parts[|parts| - 1] == [] then DropTrailingEmpty(parts[..|parts| - 1]) else parts
  }

  /**
   * `s.split(sep)`: a text without `sep` is its own single piece (so "" gives
   * [""]); otherwise every stretch between separators is a piece, empty ones
   * included, except that the trailing empty pieces are dropped.
   */
  function Split(s: string, sep: char): (tokens: seq<string>)
    ensures forall i :: 0 <= i < |tokens| ==> sep !in tokens[i]
    ensures s == [] ==> tokens == [[]]
    ensures s != [] ==> tokens <= SplitAll(s, sep)
    ensures s != [] ==> forall i :: |tokens| <= i < |SplitAll(s, sep)| ==> SplitAll(s, sep)[i] == []
    ensures s != [] ==> tokens == [] || tokens[|tokens| - 1] != []
  {
    if sep !in s then [s] else DropTrailingEmpty(SplitAll(s, sep))
  }

  /** A text without the separator is its own single token, even the empty text. */
  lemma SplitWithoutSeparator(s: string, sep: char)
    requires sep !in s
    ensures Split(s, sep) == [s]
  {
  }

  /** Consecutive separators give an empty token; a leading separator gives a leading one. */
  lemma SplitKeepsInnerAndLeadingEmpty()
    ensures Split("a  b", ' ') == ["a", "", "b"]
    ensures Split(" a", ' ') == ["", "a"]
  {
    assert "a  b"[1..] == "  b" && "  b"[1..] == " b" && " b"[1..] == "b";
    assert "a  b"[0] == 'a' && "  b"[0] == ' ';
    assert SplitAll(" b", ' ') == ["", "b"];
    assert SplitAll("  b", ' ') == [[]] + SplitAll(" b", ' ') == ["", "", "b"];
    assert ['a'] + "" == "a";
    assert SplitAll("a  b", ' ') == [['a'] + ""] + ["", "b"] == ["a", "", "b"];
    assert " a"[1..] == "a";
  }

  /** Trailing empty tokens are dropped. */
  lemma SplitDropsTrailingEmpty()
    ensures Split("a  ", ' ') == ["a"]
  {
    assert "a  "[1..] == "  " && "  "[1..] == " " && " "[1..] == "";
    assert "a  "[0] == 'a' && "  "[0] == ' ';
    assert SplitAll(" ", ' ') == ["", ""];
    assert SplitAll("  ", ' ') == [[]] + SplitAll(" ", ' ') == ["", "", ""];
    assert ['a'] + "" == "a";
    assert SplitAll("a  ", ' ') == [['a'] + ""] + ["", ""] == ["a", "", ""];
    assert DropTrailingEmpty(["a", "", ""]) == ["a"];
  }

  /** A text made only of separators splits into no token at all. */
  lemma SplitOnlySeparator()
    ensures Split(" ", ' ') == []
  {
    assert " "[1..] == "";
    assert SplitAll(" ", ' ') == ["", ""];
  }

  /** A line ending in a tab loses its empty last field. */
  lemma SplitDropsEmptyLastField()
    ensures Split("w\t", '\t') == ["w"]
  {
    assert "w\t"[0] == 'w' && "w\t"[1..] == "\t" && "\t"[1..] == "";
    assert SplitAll("\t", '\t') == ["", ""];
    assert ['w'] + "" == "w";
    assert SplitAll("w\t", '\t') == [['w'] + ""] + [""] == ["w", ""];
  }

  /** Fields after the second tab-separated one are kept as further tokens. */
  lemma SplitKeepsExtraFields()
    ensures Split("w\t3\tx", '\t') == ["w", "3", "x"]
  {
    var s := "w\t3\tx";
    assert s[0] == 'w' && s[1..] == "\t3\tx" && s[2..] == "3\tx" && s[3..] == "\tx" && s[4..] == "x";
    assert SplitAll("\tx", '\t') == [[]] + SplitAll("x", '\t') == ["", "x"];
    assert ['3'] + "" == "3" && ['w'] + "" == "w";
    assert SplitAll("3\tx", '\t') == [['3'] + ""] + ["x"] == ["3", "x"];
    assert SplitAll(s, '\t') == [['w'] + ""] + ["3", "x"] == ["w", "3", "x"];
  }

  // ---------------------------------------------------------------------------
  // Integer.parseInt (radix 10, ASCII digits)
  // ---------------------------------------------------------------------------

  predicate IsDigit(c: char) {
    '0' <= c <= '9'
  }

  predicate AllDigits(s: string) {
    forall i :: 0 <= i < |s| ==> IsDigit(s[i])
  }

  function DigitValue(c: char): nat
    requires IsDigit(c)
  {
    c as int - '0' as int
  }

  /** The value of a run of decimal digits, most significant first. */
  function DigitsValue(s: string): nat
    requires AllDigits(s)
  {
    if s == [] then 0 else DigitsValue(s[..|s| - 1]) * 10 + DigitValue(s[|s| - 1])
  }

  /**
   * Integer.parseInt(s) as of Java 7: an optional '+' or '-', then one or more digits whose
   * value fits in an `int`. Anything else is a NumberFormatException, here None.
   */
  function ParseInt(s: string): (r: Option<int>)
    ensures r.Some? ==> IsInt(r.value)
    ensures r.Some? ==> |s| >= 1 && (IsDigit(s[0]) || (|s| >= 2 && (s[0] == '+' || s[0] == '-')))
    ensures r.Some? ==> forall i :: 1 <= i < |s| ==> IsDigit(s[i])
    ensures r.Some? ==> (r.value < 0 ==> s[0] == '-')
  {
    if s == [] then None
    else
      var digits := if s[0] == '+' || s[0] == '-' then s[1..] else s;
      if digits == [] || !AllDigits(digits) then None
      else
        var v: int := if s[0] == '-' then 0 - DigitsValue(digits) else DigitsValue(digits);
        if IsInt(v) then Some(v) else None
  }

  function DigitChar(d: nat): (c: char)
    requires d < 10
    ensures IsDigit(c) && DigitValue(c) == d
  {
    ('0' as int + d) as char
  }

  /** Integer.toString for a natural number. */
  function ShowNat(n: nat): (s: string)
    ensures |s| >= 1 && AllDigits(s)
  {
    if n < 10 then [DigitChar(n)] else ShowNat(n / 10) + [DigitChar(n % 10)]
  }

  /** Integer.toString: a '-' before the digits of a negative number. */
  function ShowInt(n: int): string {
    if n < 0 then "-" + ShowNat(-n) else ShowNat(n)
  }

  lemma {:induction false} DigitsValueShowNat(n: nat)
    ensures DigitsValue(ShowNat(n)) == n
  {
    if n >= 10 {
      var s := ShowNat(n);
      DigitsValueShowNat(n / 10);
      assert s[..|s| - 1] == ShowNat(n / 10);
    }
  }

  /** Every `int` printed in decimal parses back to itself. */
  lemma ParseIntShowInt(n: int)
    requires IsInt(n)
    ensures ParseInt(ShowInt(n)) == Some(n)
  {
    var s := ShowInt(n);
    if n < 0 {
      DigitsValueShowNat(-n);
      assert s[1..] == ShowNat(-n);
    } else {
      DigitsValueShowNat(n);
    }
  }

  /**
   * Every optional sign followed by one or more digits parses to its signed
   * decimal value when that is an `int`, leading zeros and '+' included, and
   * is rejected when it is not.
   */
  lemma ParseIntSignedDigits(sign: string, d: string)
    requires sign == "" || sign == "+" || sign == "-"
    requires |d| >= 1 && AllDigits(d)
    ensures var v := if sign == "-" then 0 - DigitsValue(d) else DigitsValue(d);
      ParseInt(sign + d) == if IsInt(v) then Some(v) else None
  {
    var s := sign + d;
    if sign == "" {
      assert s == d && IsDigit(d[0]);
    } else {
      assert s[0] == sign[0] && s[1..] == d;
    }
  }

  /** The inputs Integer.parseInt rejects at the lexicon's weight column. */
  lemma ParseIntExamples()
    ensures ParseInt("") == None
    ensures ParseInt("-") == None
    ensures ParseInt("+") == None
    ensures ParseInt("3x") == None
    ensures ParseInt("+7") == Some(7)
    ensures ParseInt("-05") == Some(-5)
  {
    assert "05"[..1] == "0";
    assert "-05"[1..] == "05";
  }
}
