/** Character classes, words, lines and trimming, as the C++ library calls define them for
    7-bit characters. */
module Text {
  import opened Base

  /** `isspace`. */
  predicate IsSpace(c: char) {
    c == ' ' || '\t' <= c <= '\r'
  }

  /** The blanks of the C locale: space, tab, line feed, vertical tab, form feed, carriage return. */
  const SPACES := " \t\n\U{000B}\U{000C}\r"

  lemma SpaceTable(c: char)
    ensures IsSpace(c) <==> c in SPACES
  {
    assert SPACES[3] as int == 11 && SPACES[4] as int == 12;
    if IsSpace(c) {
      assert c == ' ' || c == '\t' || c == '\n' || c == SPACES[3] || c == SPACES[4] || c == '\r';
    }
  }

  const DIGITS := "0123456789"

  lemma DigitsTable(c: char)
    ensures IsDigit(c) <==> c in DIGITS
  {
    if IsDigit(c) {
      assert DIGITS[c as int - '0' as int] == c;
    }
  }

  predicate IsDigit(c: char) {
    '0' <= c <= '9'
  }

  /** `tolower`. */
  function Lower(c: char): char {
    if 'A' <= c <= 'Z' then (c as int + 32) as char else c
  }

  function ToLower(s: string): (r: string)
    ensures |r| == |s|
  {
    if s == "" then "" else [Lower(s[0])] + ToLower(s[1..])
  }

  const SMALL_LETTERS := "abcdefghijklmnopqrstuvwxyz"
  const CAPITALS := "ABCDEFGHIJKLMNOPQRSTUVWXYZ"

  /** The same character, or the same letter in the other case. */
  predicate SameLetter(c: char, d: char) {
    || c == d
    || exists i :: 0 <= i < 26 && ((c == SMALL_LETTERS[i] && d == CAPITALS[i])
                                   || (c == CAPITALS[i] && d == SMALL_LETTERS[i]))
  }

  /** The same text but for the case of its letters. */
  predicate SameIgnoringCase(s: string, t: string) {
    |s| == |t| && forall i :: 0 <= i < |s| ==> SameLetter(s[i], t[i])
  }

  lemma LetterTables(i: int)
    requires 0 <= i < 26
    ensures SMALL_LETTERS[i] as int == 'a' as int + i && CAPITALS[i] as int == 'A' as int + i
  {
  }

  lemma LowerIsSameLetter(c: char, d: char)
    ensures Lower(c) == Lower(d) <==> SameLetter(c, d)
  {
    forall i | 0 <= i < 26
      ensures Lower(SMALL_LETTERS[i]) == Lower(CAPITALS[i])
    {
      LetterTables(i);
    }
    if c != d && Lower(c) == Lower(d) {
      var i := Lower(c) as int - 'a' as int;
      LetterTables(i);
      assert (c == SMALL_LETTERS[i] && d == CAPITALS[i]) || (c == CAPITALS[i] && d == SMALL_LETTERS[i]);
    }
  }

  /** Two texts have one lower-case form exactly when they are the same but for the case. */
  lemma {:induction false} ToLowerIsSame(s: string, t: string)
    ensures ToLower(s) == ToLower(t) <==> SameIgnoringCase(s, t)
    decreases |s|
  {
    hide Lower;
    hide SameLetter;
    if |s| == |t| != 0 {
      LowerIsSameLetter(s[0], t[0]);
      ToLowerIsSame(s[1..], t[1..]);
      SameFromFirst(s, t);
      assert ToLower(s)[0] == Lower(s[0]) && ToLower(s)[1..] == ToLower(s[1..]);
      assert ToLower(t)[0] == Lower(t[0]) && ToLower(t)[1..] == ToLower(t[1..]);
    }
  }

  lemma {:induction false} LowerAlready(word: string)
    requires forall i :: 0 <= i < |word| ==> Lower(word[i]) == word[i]
    ensures ToLower(word) == word
    decreases |word|
  {
    if word != "" {
      LowerAlready(word[1..]);
    }
  }

  lemma {:induction false} ToLowerAt(s: string, i: nat)
    requires i < |s|
    ensures ToLower(s)[i] == Lower(s[i])
    decreases |s|
  {
    if i > 0 {
      ToLowerAt(s[1..], i - 1);
    }
  }

  lemma SameFromFirst(s: string, t: string)
    requires |s| == |t| != 0
    ensures SameIgnoringCase(s, t) <==> SameLetter(s[0], t[0]) && SameIgnoringCase(s[1..], t[1..])
  {
    hide SameLetter;
    if SameLetter(s[0], t[0]) && SameIgnoringCase(s[1..], t[1..]) {
      forall i | 0 <= i < |s| ensures SameLetter(s[i], t[i]) {
        if i > 0 {
          assert s[i] == s[1..][i - 1] && t[i] == t[1..][i - 1];
        }
      }
    }
  }

  // ------------------------------------------------------------------------------ trimming

  /** The characters `utils::trim` strips. */
  predicate IsBlank(c: char) {
    c == ' ' || c == '\r' || c == '\t' || c == '\n'
  }

  function TrimLeft(s: string): (r: string)
    ensures |r| <= |s|
    ensures r != "" ==> !IsBlank(r[0])
  {
    if s != "" && IsBlank(s[0]) then TrimLeft(s[1..]) else s
  }

  function TrimRight(s: string): (r: string)
    ensures r <= s
    ensures r != "" ==> !IsBlank(r[|r| - 1])
  {
    if s != "" && IsBlank(s[|s| - 1]) then TrimRight(s[..|s| - 1]) else s
  }

  function Trim(s: string): string {
    TrimRight(TrimLeft(s))
  }

  const BLANKS := " \t\r\n"

  /** Blanks within one line. */
  predicate Blank(s: string) {
    forall i :: 0 <= i < |s| ==> s[i] == ' ' || s[i] == '\t' || s[i] == '\r'
  }

  /** Text that neither starts nor ends with a blank. */
  predicate Bounded(s: string) {
    s != "" ==> s[0] !in BLANKS && s[|s| - 1] !in BLANKS
  }

  /** Trimming strips the blanks on both sides and nothing else. */
  lemma TrimBetween(a: string, s: string, b: string)
    requires Blank(a) && Blank(b) && Bounded(s)
    ensures Trim(a + s + b) == s
  {
    assert a + s + b == a + (s + b);
    TrimLeftBlank(a, s + b);
    if s == "" {
      assert s + b == b;
      TrimLeftBlank(b, "");
      assert b + "" == b;
    } else {
      assert (s + b)[0] == s[0] && s[0] !in BLANKS;
      TrimRightBlank(s, b);
    }
  }

  lemma {:induction false} TrimLeftBlank(a: string, s: string)
    requires Blank(a)
    ensures TrimLeft(a + s) == TrimLeft(s)
    decreases |a|
  {
    if a == "" {
      assert a + s == s;
    } else {
      assert (a + s)[0] == a[0] && (a + s)[1..] == a[1..] + s;
      TrimLeftBlank(a[1..], s);
    }
  }

  lemma {:induction false} TrimRightBlank(s: string, b: string)
    requires Blank(b) && s != "" && Bounded(s)
    ensures TrimRight(s + b) == s
    decreases |b|
  {
    if b == "" {
      assert s + b == s && s[|s| - 1] !in BLANKS;
    } else {
      var n := |b| - 1;
      assert (s + b)[|s + b| - 1] == b[n] && (s + b)[..|s + b| - 1] == s + b[..n];
      TrimRightBlank(s, b[..n]);
    }
  }

  /** Any text within one line is blanks, bounded text and blanks, and trimming gives the middle. */
  lemma SplitBlanks(s: string) returns (a: string, t: string, b: string)
    requires '\n' !in s
    ensures s == a + t + b && Blank(a) && Blank(b) && Bounded(t) && Trim(s) == t
  {
    var i := 0;
    while i < |s| && s[i] in BLANKS
      invariant i <= |s| && Blank(s[..i])
    {
      assert s[i] in s;
      i := i + 1;
    }
    var j := |s|;
    while j > i && s[j - 1] in BLANKS
      invariant i <= j <= |s| && Blank(s[j..])
    {
      assert s[j - 1] in s;
      j := j - 1;
    }
    a, t, b := s[..i], s[i..j], s[j..];
    assert s == a + t + b;
    TrimBetween(a, t, b);
  }

  /** Text that trimming leaves alone. */
  predicate IsTrimmed(s: string) {
    s != "" ==> !IsBlank(s[0]) && !IsBlank(s[|s| - 1])
  }

  // --------------------------------------------------------------------------------- lines

  /** The index of the first `c`, or the length when there is none. */
  function IndexOf(s: string, c: char): (i: nat)
    ensures i <= |s|
    ensures i < |s| ==> s[i] == c
    ensures forall k :: 0 <= k < i ==> s[k] != c
  {
    if s == "" || s[0] == c then 0 else 1 + IndexOf(s[1..], c)
  }

  lemma IndexOfFound(s: string, c: char, i: nat)
    requires i < |s| && s[i] == c
    requires forall k :: 0 <= k < i ==> s[k] != c
    ensures IndexOf(s, c) == i
  {
  }

  lemma IndexOfAbsent(s: string, c: char)
    requires c !in s
    ensures IndexOf(s, c) == |s|
  {
  }

  // --------------------------------------------------------------------------------- words

  function SkipSpace(s: string): (r: string)
    ensures |r| <= |s|
  {
    if s != "" && IsSpace(s[0]) then SkipSpace(s[1..]) else s
  }

  function WordLength(s: string): (n: nat)
    ensures n <= |s|
    ensures forall k :: 0 <= k < n ==> !IsSpace(s[k])
    ensures n < |s| ==> IsSpace(s[n])
  {
    if s == "" || IsSpace(s[0]) then 0 else 1 + WordLength(s[1..])
  }

  datatype Word = Word(text: string, rest: string)

  /** One extraction `stream >> word`. */
  function NextWord(s: string): Option<Word> {
    var t := SkipSpace(s);
    var n := WordLength(t);
    if n == 0 then None else Some(Word(t[..n], t[n..]))
  }

  lemma {:induction false} SkipSpaceAppend(s: string, t: string)
    requires SkipSpace(s) != ""
    ensures SkipSpace(s + t) == SkipSpace(s) + t
    decreases |s|
  {
    assert s != "";
    assert (s + t)[0] == s[0];
    if IsSpace(s[0]) {
      assert (s + t)[1..] == s[1..] + t;
      SkipSpaceAppend(s[1..], t);
    }
  }

  lemma {:induction false} WordLengthAppend(s: string, t: string)
    requires WordLength(s) < |s|
    ensures WordLength(s + t) == WordLength(s)
    decreases |s|
  {
    assert (s + t)[0] == s[0];
    if !IsSpace(s[0]) {
      assert (s + t)[1..] == s[1..] + t;
      WordLengthAppend(s[1..], t);
    }
  }

  /** A word with something after it is read the same whatever text follows. */
  lemma NextWordAppend(s: string, t: string)
    requires NextWord(s).Some? && NextWord(s).value.rest != ""
    ensures NextWord(s + t) == Some(Word(NextWord(s).value.text, NextWord(s).value.rest + t))
  {
    var u := SkipSpace(s);
    SkipSpaceAppend(s, t);
    WordLengthAppend(u, t);
    var n := WordLength(u);
    assert (u + t)[..n] == u[..n] && (u + t)[n..] == u[n..] + t;
  }

  // The text left after a word is a suffix, so a final space stays in it.
  lemma {:induction false} SkipSpaceLast(s: string)
    requires s != "" && SkipSpace(s) != ""
    ensures SkipSpace(s)[|SkipSpace(s)| - 1] == s[|s| - 1]
    decreases |s|
  {
    if IsSpace(s[0]) {
      SkipSpaceLast(s[1..]);
    }
  }

  lemma NextWordLast(s: string)
    requires s != "" && IsSpace(s[|s| - 1]) && NextWord(s).Some?
    ensures var r := NextWord(s).value.rest; r != "" && IsSpace(r[|r| - 1])
  {
    SkipSpaceLast(s);
  }
}
