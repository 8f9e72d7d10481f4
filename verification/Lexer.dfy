/** The configuration lexer: a cursor over the text, one character ahead. */
module ConfigLexer {
  import opened Base
  import opened Text
  import opened ConfigTokens

  const NUL := '\0'

  predicate IsPunctuation(c: char) {
    c == '#' || c == '{' || c == '}' || c == ';'
  }

  predicate AllDigits(s: string) {
    forall i :: 0 <= i < |s| ==> IsDigit(s[i])
  }

  /** A value is a number when it has digits only, and so also when it is empty. */
  function ValueToken(literal: string): Token {
    Token(literal, if AllDigits(literal) then NUMBER else STRING)
  }

  // ---------------------------------------------------------------------- the specification

  /** The text ends at its end or at a NUL character. */
  predicate AtEnd(s: string) {
    s == "" || s[0] == NUL
  }

  function AfterComment(s: string): (r: string)
    ensures |r| <= |s|
  {
    if AtEnd(s) || s[0] == '\n' then s else AfterComment(s[1..])
  }

  function QuotedLength(s: string): (n: nat)
    ensures n <= |s|
    ensures n < |s| ==> s[n] == NUL || s[n] == '"'
  {
    if AtEnd(s) || s[0] == '"' then 0 else 1 + QuotedLength(s[1..])
  }

  predicate IsBareChar(c: char) {
    c != NUL && !IsPunctuation(c) && !IsSpace(c)
  }

  function BareLength(s: string): (n: nat)
    ensures n <= |s|
    ensures n < |s| ==> !IsBareChar(s[n])
  {
    if s == "" || !IsBareChar(s[0]) then 0 else 1 + BareLength(s[1..])
  }

  function PunctuationToken(c: char): Token {
    Token([c], if c == '{' then LEFT_BRACE else if c == '}' then RIGHT_BRACE else SEMICOLON)
  }

  const BROKEN_QUOTE := Token([NUL], UNKNOWN)

  /** One step from a position: the tokens it adds and the text left. */
  datatype Lexeme = Lexeme(tokens: seq<Token>, rest: string)

  function NextLexeme(s: string): (r: Lexeme)
    requires !AtEnd(s) && !IsSpace(s[0])
    ensures |r.rest| < |s|
  {
    if s[0] == '#' then Lexeme([], AfterComment(s[1..]))
    else if IsPunctuation(s[0]) then Lexeme([PunctuationToken(s[0])], s[1..])
    else if s[0] == '"' then
      var n := QuotedLength(s[1..]);
      if AtEnd(s[1 + n..]) then Lexeme([BROKEN_QUOTE], s[1 + n..])
      else Lexeme([ValueToken(s[1..1 + n])], s[n + 2..])
    else
      var n := BareLength(s);
      Lexeme([ValueToken(s[..n])], s[n..])
  }

  /** All the tokens of a text, the end-of-file token last. */
  function Lex(s: string): seq<Token>
    decreases |s|
  {
    var t := SkipSpace(s);
    if AtEnd(t) then [EOF]
    else
      SkipSpaceStops(s);
      NextLexeme(t).tokens + Lex(NextLexeme(t).rest)
  }

  lemma SkipSpaceStops(s: string)
    ensures SkipSpace(s) != "" ==> !IsSpace(SkipSpace(s)[0])
  {
  }

  // ------------------------------------------------------------------------------ the lexer

  class Lexer {
    const content: string
    var tokens: seq<Token>
    var pos: nat
    var ch: char

    /** The cursor is one past the current character and at most one past the end. */
    ghost predicate Valid()
      reads this
    {
      && 1 <= pos <= |content| + 1
      && ch == (if pos <= |content| then content[pos - 1] else NUL)
    }

    ghost function Rest(): string
      requires Valid()
      reads this
    {
      content[pos - 1..]
    }

    constructor (content: string, res: seq<Token>)
      ensures Valid() && this.content == content && Rest() == content && tokens == res
    {
      this.content, tokens := content, res;
      pos, ch := 0, NUL;
      new;
      ch := if pos < |content| then content[pos] else NUL;
      pos := pos + 1;
    }

    method ReadChar()
      requires Valid() && Rest() != ""
      modifies `pos, `ch
      ensures Valid() && Rest() == old(Rest())[1..]
    {
      ch := if pos < |content| then content[pos] else NUL;
      pos := pos + 1;
    }

    method EatWhitespaces()
      requires Valid()
      modifies `pos, `ch
      ensures Valid() && Rest() == SkipSpace(old(Rest()))
    {
      while IsSpace(ch)
        invariant Valid() && SkipSpace(Rest()) == SkipSpace(old(Rest()))
        decreases |Rest()|
      {
        ReadChar();
      }
    }

    method HandleComment()
      requires Valid()
      modifies `pos, `ch
      ensures Valid() && Rest() == AfterComment(old(Rest()))
    {
      while ch != '\n' && ch != NUL
        invariant Valid() && AfterComment(Rest()) == AfterComment(old(Rest()))
        decreases |Rest()|
      {
        ReadChar();
      }
    }

    method HandleUnknown()
      requires Valid()
      modifies `tokens
      ensures tokens == old(tokens) + [Token([ch], UNKNOWN)]
    {
      tokens := tokens + [Token([ch], UNKNOWN)];
    }

    method HandlePunctuation()
      requires Valid() && !AtEnd(Rest()) && IsPunctuation(ch)
      modifies this
      ensures Valid()
      ensures var next := NextLexeme(old(Rest()));
        tokens == old(tokens) + next.tokens && Rest() == next.rest
    {
      if ch == '#' {
        ghost var start := Rest();
        assert AfterComment(start) == AfterComment(start[1..]);
        HandleComment();
        return;
      } else if ch == '{' {
        tokens := tokens + [Token([ch], LEFT_BRACE)];
      } else if ch == '}' {
        tokens := tokens + [Token([ch], RIGHT_BRACE)];
      } else {
        tokens := tokens + [Token([ch], SEMICOLON)];
      }
      ReadChar();
    }

    /** What reading a value promises: a string token with the characters of the next lexeme,
        or nothing when a quote is never closed, the text being read to its end. */
    twostate predicate ReadValue(ok: bool)
      requires old(Valid()) && Valid() && !AtEnd(old(Rest())) && !IsSpace(old(Rest())[0])
      reads this
    {
      if ok then
        && tokens != [] && tokens == old(tokens) + [Token(tokens[|tokens| - 1].literal, STRING)]
        && NextLexeme(old(Rest())) == Lexeme([ValueToken(tokens[|tokens| - 1].literal)], Rest())
      else
        tokens == old(tokens) && ch == NUL && NextLexeme(old(Rest())) == Lexeme([BROKEN_QUOTE], Rest())
    }

    method HandleValue() returns (ok: bool)
      requires Valid() && !AtEnd(Rest()) && !IsPunctuation(ch) && !IsSpace(ch)
      modifies this
      ensures Valid() && ReadValue(ok)
    {
      if ch == '"' {
        ok := HandleQuoted();
      } else {
        ok := HandleBare();
      }
    }

    method HandleQuoted() returns (ok: bool)
      requires Valid() && !AtEnd(Rest()) && ch == '"'
      modifies this
      ensures Valid() && ReadValue(ok)
    {
      hide ValueToken;
      hide NextLexeme;
      hide QuotedLength;
      ReadChar();
      var startPos := pos - 1;
      SkipQuoted();
      QuotedLexeme(content, startPos, pos - 1);
      if ch == NUL {
        return false;
      }
      tokens := tokens + [Token(content[startPos..startPos + (pos - 1 - startPos)], STRING)];
      ReadChar();
      ok := true;
    }

    /** The loop of `HandleQuoted`: on to the closing quote, or to the end of the text. */
    method SkipQuoted()
      requires Valid()
      modifies `pos, `ch
      ensures Valid() && (ch == NUL || ch == '"') && old(pos) <= pos
      ensures pos - old(pos) == QuotedLength(content[old(pos) - 1..])
    {
      hide QuotedLength;
      ghost var from := pos - 1;
      while ch != NUL && ch != '"'
        invariant Valid() && from <= pos - 1
        invariant QuotedLength(content[from..]) == pos - 1 - from + QuotedLength(content[pos - 1..])
        decreases |content| - pos + 1
      {
        QuotedStep(content, pos - 1);
        ReadChar();
      }
      QuotedStep(content, pos - 1);
    }

    /** The current character belongs to the value, so the value is never empty here and the
        lexer's own test for that does not fire. */
    method HandleBare() returns (ok: bool)
      requires Valid() && !AtEnd(Rest()) && !IsPunctuation(ch) && !IsSpace(ch) && ch != '"'
      modifies this
      ensures Valid() && ReadValue(ok)
    {
      hide ValueToken;
      ghost var start := Rest();
      var startPos := pos - 1;
      while ch != NUL && !IsPunctuation(ch) && !IsSpace(ch)
        invariant Valid() && startPos <= pos - 1 && tokens == old(tokens)
        invariant BareLength(start) == pos - 1 - startPos + BareLength(Rest())
        decreases |Rest()|
      {
        ReadChar();
      }
      ghost var n := pos - 1 - startPos;
      assert BareLength(Rest()) == 0;
      assert start[n..] == Rest() && content[startPos..pos - 1] == start[..n];
      tokens := tokens + [Token(content[startPos..startPos + (pos - 1 - startPos)], STRING)];
      ok := true;
    }

    /** Turns the last token into a number if its characters are all digits. */
    method IdentifyLastToken()
      requires tokens != [] && tokens[|tokens| - 1].kind == STRING
      modifies `tokens
      ensures tokens == old(tokens)[..|old(tokens)| - 1] + [ValueToken(old(tokens)[|old(tokens)| - 1].literal)]
      ensures var t := tokens[|tokens| - 1];
        t.kind == if forall i :: 0 <= i < |t.literal| ==> t.literal[i] in DIGITS then NUMBER else STRING
    {
      WrittenValueIs(tokens[|tokens| - 1].literal);
      var isNumber := true;
      var literal := tokens[|tokens| - 1].literal;
      var i := 0;
      while i < |literal| && isNumber
        invariant 0 <= i <= |literal|
        invariant isNumber <==> AllDigits(literal[..i])
        invariant !isNumber ==> !AllDigits(literal)
      {
        if !IsDigit(literal[i]) {
          isNumber := false;
        }
        i := i + 1;
      }
      assert isNumber ==> literal[..i] == literal;
      if isNumber {
        tokens := tokens[|tokens| - 1 := Token(literal, NUMBER)];
      }
      assert isNumber <==> AllDigits(literal);
      assert tokens[|tokens| - 1] == ValueToken(literal);
    }

    /** Totality: on every text the lexer stops, with the cursor at most one past the end, and
        adds exactly the tokens of the text. */
    method Run()
      requires Valid()
      modifies this
      ensures Valid()
      ensures tokens == old(tokens) + Lex(old(Rest()))
    {
      hide NextLexeme;
      hide SkipSpace;
      hide Lex;
      hide ValueToken;
      ghost var start, given := Rest(), tokens;
      while ch != NUL
        invariant Valid()
        invariant tokens + Lex(Rest()) == given + Lex(start)
        decreases |Rest()|
      {
        ghost var here := Rest();
        LexStep(here);
        EatWhitespaces();
        if ch == NUL {
          break;
        }
        ghost var next, before := NextLexeme(Rest()), tokens;
        if ch == '#' || ch == '{' || ch == '}' || ch == ';' {
          HandlePunctuation();
          assert tokens + Lex(Rest()) == before + Lex(here);
          continue;
        }
        var ok := HandleValue();
        if ok {
          IdentifyLastToken();
          assert tokens == before + next.tokens;
        } else {
          HandleUnknown();
        }
        assert tokens + Lex(Rest()) == before + Lex(here);
      }
      LexEnd(Rest());
      tokens := tokens + [EOF];
    }
  }

  lemma QuotedStep(s: string, i: nat)
    requires i <= |s|
    ensures QuotedLength(s[i..])
         == if i < |s| && s[i] != NUL && s[i] != '"' then 1 + QuotedLength(s[i + 1..]) else 0
  {
    if i < |s| {
      assert s[i..][0] == s[i] && s[i..][1..] == s[i + 1..];
    }
  }

  // A quoted string as a lexeme: it opens before `from`, and its characters end at `to`.
  lemma QuotedLexeme(s: string, from: nat, to: nat)
    requires 0 < from <= to <= |s| && s[from - 1] == '"' && to - from == QuotedLength(s[from..])
    ensures !AtEnd(s[from - 1..]) && !IsSpace(s[from - 1])
    ensures NextLexeme(s[from - 1..]) ==
      if AtEnd(s[to..]) then Lexeme([BROKEN_QUOTE], s[to..])
      else Lexeme([ValueToken(s[from..to])], s[to + 1..])
  {
    hide QuotedLength;
    var t := s[from - 1..];
    assert t[0] == '"' && t[1..] == s[from..];
    var n := to - from;
    assert t[1 + n..] == s[to..] && t[1..1 + n] == s[from..to];
    if to < |s| {
      assert t[n + 2..] == s[to + 1..];
    }
  }

  // Lexing unfolded: to the end, or by one lexeme.
  lemma LexStep(s: string)
    ensures var t := SkipSpace(s);
      && |t| <= |s| && (t != "" ==> !IsSpace(t[0]))
      && (AtEnd(t) ==> Lex(s) == [EOF])
      && (!AtEnd(t) ==> Lex(s) == NextLexeme(t).tokens + Lex(NextLexeme(t).rest))
  {
    SkipSpaceStops(s);
  }

  lemma LexEnd(s: string)
    requires AtEnd(SkipSpace(s)) || AtEnd(s)
    ensures Lex(s) == [EOF]
  {
    if AtEnd(s) {
      assert SkipSpace(s) == s;
    }
  }

  method Tokenize(content: string) returns (tokens: seq<Token>)
    ensures tokens == Lex(content)
  {
    var lexer := new Lexer(content, []);
    lexer.Run();
    tokens := lexer.tokens;
    assert [] + Lex(content) == Lex(content);
  }

  // ------------------------------------------------------------------------ texts as written

  /** A piece of a configuration text: a blank; a comment up to the end of its line; a brace or a
      semicolon; or a value, quoted or bare. */
  datatype Item =
    | Space(c: char)
    | Comment(text: string)
    | Mark(c: char)
    | Quoted(value: string)
    | Bare(word: string)
  {
    function Text(): string {
      match this
      case Space(c) => [c]
      case Comment(text) => "#" + text
      case Mark(c) => [c]
      case Quoted(value) => "\"" + value + "\""
      case Bare(word) => word
    }

    predicate Valid() {
      match this
      case Space(c) => c in SPACES
      case Comment(text) => '\n' !in text && NUL !in text
      case Mark(c) => c == '{' || c == '}' || c == ';'
      case Quoted(value) => '"' !in value && NUL !in value
      case Bare(word) => word != "" && word[0] != '"' && forall i :: 0 <= i < |word| ==> !EndsWord(word[i])
    }

    /** What a comment, and what a bare value, may be followed by. */
    predicate EndsBefore(next: string) {
      next == "" || next[0] == NUL || ((Comment? ==> next[0] == '\n') && (Bare? ==> EndsWord(next[0])))
    }

    function Tokens(): seq<Token> {
      match this
      case Space(_) => []
      case Comment(_) => []
      case Mark(c) =>
        if c == '{' then [Token("{", LEFT_BRACE)]
        else if c == '}' then [Token("}", RIGHT_BRACE)]
        else [Token(";", SEMICOLON)]
      case Quoted(value) => [WrittenValue(value)]
      case Bare(word) => [WrittenValue(word)]
    }
  }

  predicate EndsWord(c: char) {
    c in SPACES || c == '#' || c == '{' || c == '}' || c == ';' || c == NUL
  }

  /** A value written with digits only is a number, and so is the empty one. */
  function WrittenValue(s: string): Token {
    Token(s, if forall i :: 0 <= i < |s| ==> s[i] in DIGITS then NUMBER else STRING)
  }

  function TextOf(items: seq<Item>): string {
    if items == [] then "" else items[0].Text() + TextOf(items[1..])
  }

  function TokensOf(items: seq<Item>): seq<Token> {
    if items == [] then [] else items[0].Tokens() + TokensOf(items[1..])
  }

  /** Every piece is proper and ends before the text that comes next. */
  predicate Fit(items: seq<Item>, after: string) {
    items == [] || (items[0].Valid() && items[0].EndsBefore(TextOf(items[1..]) + after) && Fit(items[1..], after))
  }

  /** A whole text: its pieces; perhaps a quote that is never closed, with what follows it; and the
      end, which may be a NUL character and anything after it. */
  datatype Layout = Layout(items: seq<Item>, unclosed: Option<string>, end: string) {
    function Last(): string {
      (match unclosed case None => "" case Some(text) => "\"" + text) + end
    }

    function Text(): string {
      TextOf(items) + Last()
    }

    predicate Valid() {
      && (end == "" || end[0] == NUL)
      && (unclosed.Some? ==> '"' !in unclosed.value && NUL !in unclosed.value)
      && Fit(items, Last())
    }

    function Tokens(): seq<Token> {
      TokensOf(items) + (if unclosed.Some? then [BROKEN_QUOTE] else []) + [EOF]
    }
  }

  lemma EndsWordIs(c: char)
    ensures EndsWord(c) <==> !IsBareChar(c)
  {
    SpaceTable(c);
  }

  lemma WrittenValueIs(s: string)
    ensures WrittenValue(s) == ValueToken(s)
  {
    forall i | 0 <= i < |s| ensures IsDigit(s[i]) <==> s[i] in DIGITS {
      DigitsTable(s[i]);
    }
  }

  // A step that gives some tokens and leaves `rest`.
  lemma LexFromLexeme(s: string, ts: seq<Token>, rest: string)
    requires !AtEnd(s) && !IsSpace(s[0]) && NextLexeme(s) == Lexeme(ts, rest)
    ensures Lex(s) == ts + Lex(rest)
  {
    hide NextLexeme;
    LexStep(s);
    assert SkipSpace(s) == s;
  }

  // Each piece gives its tokens and leaves what comes next.
  lemma LexItem(item: Item, next: string)
    requires item.Valid() && item.EndsBefore(next)
    ensures Lex(item.Text() + next) == item.Tokens() + Lex(next)
  {
    hide Lex;
    match item {
      case Space(c) => LexSpace(c, next);
      case Comment(text) => LexComment(text, next);
      case Mark(c) =>
        assert item.Text() + next == [c] + next;
        assert ([c] + next)[1..] == next;
        LexFromLexeme([c] + next, item.Tokens(), next);
      case Quoted(value) => LexQuoted(value, next);
      case Bare(word) => LexBare(word, next);
    }
  }

  lemma LexSpace(c: char, next: string)
    requires c in SPACES
    ensures Lex([c] + next) == Lex(next)
  {
    hide NextLexeme;
    SpaceTable(c);
    assert ([c] + next)[1..] == next;
    assert SkipSpace([c] + next) == SkipSpace(next);
    LexStep([c] + next);
    LexStep(next);
  }

  /** A comment is passed over up to the end of its line. */
  lemma LexComment(text: string, next: string)
    requires '\n' !in text && NUL !in text && (next == "" || next[0] == '\n' || next[0] == NUL)
    ensures Lex("#" + text + next) == Lex(next)
  {
    var s := "#" + text + next;
    assert s[0] == '#' && s[1..] == text + next;
    CommentEnds(text, next);
    LexFromLexeme(s, [], next);
    assert [] + Lex(next) == Lex(next);
  }

  /** So a comment line is as good as none. */
  lemma CommentLine(text: string, rest: string)
    requires '\n' !in text && NUL !in text
    ensures Lex("#" + text + "\n" + rest) == Lex(rest)
  {
    assert "#" + text + "\n" + rest == "#" + text + ("\n" + rest);
    LexComment(text, "\n" + rest);
    LexSpace('\n', rest);
  }

  lemma {:induction false} CommentEnds(text: string, next: string)
    requires '\n' !in text && NUL !in text && (next == "" || next[0] == '\n' || next[0] == NUL)
    ensures AfterComment(text + next) == next
    decreases |text|
  {
    if text == "" {
      assert text + next == next;
    } else {
      assert (text + next)[0] == text[0] && (text + next)[1..] == text[1..] + next;
      CommentEnds(text[1..], next);
    }
  }

  lemma LexQuoted(value: string, next: string)
    requires '"' !in value && NUL !in value
    ensures Lex("\"" + value + "\"" + next) == [WrittenValue(value)] + Lex(next)
  {
    var s := "\"" + value + "\"" + next;
    var n := |value|;
    var inner := s[1..];
    assert s[0] == '"' && inner == value + "\"" + next;
    assert forall k :: 0 <= k < n ==> inner[k] == value[k] && value[k] in value;
    QuotedLengthIs(inner, n);
    assert inner[..n] == value && s[1..1 + n] == value;
    assert s[1 + n..][0] == '"' && s[n + 2..] == next;
    WrittenValueIs(value);
    LexFromLexeme(s, [WrittenValue(value)], next);
  }

  lemma {:induction false} QuotedLengthIs(s: string, n: nat)
    requires n <= |s| && (n < |s| ==> s[n] == '"' || s[n] == NUL)
    requires forall k :: 0 <= k < n ==> s[k] != NUL && s[k] != '"'
    ensures QuotedLength(s) == n
  {
    if n > 0 {
      QuotedLengthIs(s[1..], n - 1);
    }
  }

  lemma {:induction false} BareLengthIs(s: string, n: nat)
    requires n <= |s| && (n < |s| ==> !IsBareChar(s[n])) && forall k :: 0 <= k < n ==> IsBareChar(s[k])
    ensures BareLength(s) == n
  {
    if n > 0 {
      BareLengthIs(s[1..], n - 1);
    }
  }

  lemma LexBare(word: string, next: string)
    requires Bare(word).Valid() && Bare(word).EndsBefore(next)
    ensures Lex(word + next) == [WrittenValue(word)] + Lex(next)
  {
    var s := word + next;
    var n := |word|;
    forall k | 0 <= k < n ensures s[k] == word[k] && IsBareChar(s[k]) {
      EndsWordIs(word[k]);
    }
    if next != "" {
      EndsWordIs(next[0]);
      assert s[n] == next[0];
    }
    BareLengthIs(s, n);
    assert s[..n] == word && s[n..] == next;
    WrittenValueIs(word);
    LexFromLexeme(s, [WrittenValue(word)], next);
  }

  // A quote that is never closed.
  lemma LexUnclosed(text: string, end: string)
    requires '"' !in text && NUL !in text && AtEnd(end)
    ensures Lex("\"" + text + end) == [BROKEN_QUOTE, EOF]
  {
    var s := "\"" + text + end;
    var n := |text|;
    var inner := s[1..];
    assert s[0] == '"' && inner == text + end;
    assert forall k :: 0 <= k < n ==> inner[k] == text[k] && text[k] in text;
    QuotedLengthIs(inner, n);
    assert s[1 + n..] == end;
    LexFromLexeme(s, [BROKEN_QUOTE], end);
    LexEnd(end);
  }

  lemma {:induction false} LexItems(items: seq<Item>, after: string)
    requires Fit(items, after)
    ensures Lex(TextOf(items) + after) == TokensOf(items) + Lex(after)
    decreases |items|
  {
    hide Lex;
    if items == [] {
      assert "" + after == after && [] + Lex(after) == Lex(after);
    } else {
      var next := TextOf(items[1..]) + after;
      assert TextOf(items) + after == items[0].Text() + next;
      LexItem(items[0], next);
      LexItems(items[1..], after);
    }
  }

  /** However a text is laid out, with any blanks and comments between its values, braces and
      semicolons, and its values quoted or bare, it is lexed to the tokens it is written for. */
  lemma LexesLayout(l: Layout)
    requires l.Valid()
    ensures Lex(l.Text()) == l.Tokens()
  {
    hide Lex;
    LexItems(l.items, l.Last());
    if l.unclosed.Some? {
      LexUnclosed(l.unclosed.value, l.end);
    } else {
      assert "" + l.end == l.end;
      LexEnd(l.end);
    }
  }

  /** And every text is laid out in such a way. */
  lemma {:induction false} EveryLayout(s: string) returns (l: Layout)
    ensures l.Valid() && l.Text() == s
    decreases |s|
  {
    hide Item.Text;
    hide Item.Valid;
    hide Item.EndsBefore;
    hide Layout.Valid;
    hide Layout.Text;
    hide QuotedLength;
    if AtEnd(s) {
      l := NoItems(s);
    } else {
      var item, n := FirstItem(s);
      if n == |s| + 1 {
        l := Unclosed(s);
      } else {
        var later := EveryLayout(s[n..]);
        l := Layout([item] + later.items, later.unclosed, later.end);
        OneMoreItem(item, later);
        assert s == s[..n] + s[n..];
      }
    }
  }

  lemma NoItems(end: string) returns (l: Layout)
    requires AtEnd(end)
    ensures l.Valid() && l.Text() == end
  {
    l := Layout([], None, end);
    assert "" + ("" + end) == end;
  }

  lemma OneMoreItem(item: Item, later: Layout)
    requires later.Valid() && item.Valid() && item.EndsBefore(later.Text())
    ensures var l := Layout([item] + later.items, later.unclosed, later.end);
      l.Valid() && l.Text() == item.Text() + later.Text()
  {
    hide Item.Text;
    hide Item.Valid;
    hide Item.EndsBefore;
    var items := [item] + later.items;
    assert items[1..] == later.items;
    assert TextOf(items) + later.Last() == item.Text() + (TextOf(later.items) + later.Last());
  }

  // The first piece of a text, and where it ends; past the end for a quote that is never closed.
  lemma FirstItem(s: string) returns (item: Item, n: nat)
    requires !AtEnd(s)
    ensures 0 < n <= |s| + 1
    ensures if n <= |s| then item.Valid() && item.Text() == s[..n] && item.EndsBefore(s[n..])
            else s[0] == '"' && AtEnd(s[1 + QuotedLength(s[1..])..])
  {
    EndsWordIs(s[0]);
    if s[0] in SPACES {
      item, n := Space(s[0]), 1;
    } else if s[0] == '#' {
      item, n := FirstComment(s);
    } else if s[0] == '{' || s[0] == '}' || s[0] == ';' {
      item, n := Mark(s[0]), 1;
    } else if s[0] == '"' {
      item, n := FirstQuoted(s);
    } else {
      item, n := FirstBare(s);
    }
  }

  lemma FirstComment(s: string) returns (item: Item, n: nat)
    requires s != "" && s[0] == '#'
    ensures 0 < n <= |s| && item.Valid() && item.Text() == s[..n] && item.EndsBefore(s[n..])
  {
    n := 1;
    while n < |s| && s[n] != '\n' && s[n] != NUL
      invariant 1 <= n <= |s| && '\n' !in s[1..n] && NUL !in s[1..n]
    {
      assert s[1..n + 1] == s[1..n] + [s[n]];
      n := n + 1;
    }
    item := Comment(s[1..n]);
    assert s[..n] == "#" + s[1..n];
  }

  lemma FirstQuoted(s: string) returns (item: Item, n: nat)
    requires s != "" && s[0] == '"'
    ensures 0 < n <= |s| + 1
    ensures if n <= |s| then item.Valid() && item.Text() == s[..n] && item.EndsBefore(s[n..])
            else AtEnd(s[1 + QuotedLength(s[1..])..])
  {
    QuotedChars(s[1..]);
    var m := QuotedLength(s[1..]);
    assert s[1..1 + m] == s[1..][..m];
    item := Quoted(s[1..1 + m]);
    if AtEnd(s[1 + m..]) {
      n := |s| + 1;
    } else {
      n := m + 2;
      assert s[1..][m] == s[1 + m] == '"';
      assert s[..n] == "\"" + s[1..1 + m] + "\"";
    }
  }

  lemma FirstBare(s: string) returns (item: Item, n: nat)
    requires s != "" && s[0] != '"' && IsBareChar(s[0])
    ensures 0 < n <= |s| && item.Valid() && item.Text() == s[..n] && item.EndsBefore(s[n..])
  {
    BareChars(s);
    n := BareLength(s);
    item := Bare(s[..n]);
    forall i | 0 <= i < n ensures !EndsWord(s[..n][i]) {
      EndsWordIs(s[i]);
    }
    if n < |s| {
      EndsWordIs(s[n]);
    }
  }

  lemma Unclosed(s: string) returns (l: Layout)
    requires s != "" && s[0] == '"' && AtEnd(s[1 + QuotedLength(s[1..])..])
    ensures l.Valid() && l.Text() == s
  {
    QuotedChars(s[1..]);
    var m := QuotedLength(s[1..]);
    assert s[1..1 + m] == s[1..][..m];
    l := Layout([], Some(s[1..1 + m]), s[1 + m..]);
    assert s == "" + ("\"" + s[1..1 + m] + s[1 + m..]);
  }

  // -------------------------------------------------------------------- printing and lexing

  predicate Quotable(s: string) {
    forall i :: 0 <= i < |s| ==> s[i] != '"' && s[i] != NUL
  }

  predicate BareWord(s: string) {
    s != "" && s[0] != '"' && forall i :: 0 <= i < |s| ==> IsBareChar(s[i])
  }

  /** The tokens the lexer can produce before the end of the file, other than for a quote that
      is never closed. */
  predicate Producible(t: Token) {
    || t == PunctuationToken('{')
    || t == PunctuationToken('}')
    || t == PunctuationToken(';')
    || ((Quotable(t.literal) || BareWord(t.literal)) && t == ValueToken(t.literal))
  }

  /** Values are printed quoted unless they hold a quote, and then bare. */
  function PrintToken(t: Token): string {
    if !IsValue(t) then t.literal
    else if Quotable(t.literal) then "\"" + t.literal + "\""
    else t.literal
  }

  function PrintTokens(ts: seq<Token>): string {
    if ts == [] then "" else PrintToken(ts[0]) + " " + PrintTokens(ts[1..])
  }

  function ItemOf(t: Token): Item {
    if !IsValue(t) && |t.literal| == 1 then Mark(t.literal[0])
    else if Quotable(t.literal) then Quoted(t.literal)
    else Bare(t.literal)
  }

  lemma ItemPrinted(t: Token)
    requires Producible(t)
    ensures var item := ItemOf(t);
      item.Valid() && item.Text() == PrintToken(t) && item.Tokens() == [t] && item.EndsBefore(" ")
  {
    WrittenValueIs(t.literal);
    if BareWord(t.literal) {
      forall i | 0 <= i < |t.literal| ensures !EndsWord(t.literal[i]) {
        EndsWordIs(t.literal[i]);
      }
    }
    EndsWordIs(' ');
  }

  lemma LexPrintedToken(t: Token, rest: string)
    requires Producible(t)
    ensures Lex(PrintToken(t) + " " + rest) == [t] + Lex(rest)
  {
    hide Lex;
    hide Producible;
    hide PrintToken;
    ItemPrinted(t);
    assert PrintToken(t) + " " + rest == PrintToken(t) + (" " + rest);
    LexItem(ItemOf(t), " " + rest);
    LexItem(Space(' '), rest);
  }

  /** Token round trip: lexing the printed form of any producible tokens gives them back, and
      the end-of-file token. */
  lemma {:induction false} LexInvertsPrint(ts: seq<Token>)
    requires forall i :: 0 <= i < |ts| ==> Producible(ts[i])
    ensures Lex(PrintTokens(ts)) == ts + [EOF]
    decreases |ts|
  {
    hide Producible;
    hide PrintToken;
    hide Lex;
    if ts == [] {
      LexEnd("");
    } else {
      LexPrintedToken(ts[0], PrintTokens(ts[1..]));
      LexInvertsPrint(ts[1..]);
    }
  }

  /** What the lexer gives on any text: producible tokens, perhaps one broken quote, and the
      end-of-file token, which occurs nowhere else. */
  predicate LexerOutput(ts: seq<Token>) {
    && ts != [] && ts[|ts| - 1] == EOF
    && forall i :: 0 <= i < |ts| - 1 ==> Producible(ts[i]) || (ts[i] == BROKEN_QUOTE && i == |ts| - 2)
  }

  lemma {:induction false} LexGivesLexerOutput(s: string)
    ensures LexerOutput(Lex(s))
    decreases |s|
  {
    var t := SkipSpace(s);
    LexStep(s);
    if !AtEnd(t) {
      LexemeProducible(t);
      var next := NextLexeme(t);
      if next.tokens == [BROKEN_QUOTE] {
        LexEnd(next.rest);
      } else {
        LexGivesLexerOutput(next.rest);
      }
    }
  }

  lemma {:induction false} QuotedChars(s: string)
    ensures forall k :: 0 <= k < QuotedLength(s) ==> s[k] != NUL && s[k] != '"'
    decreases |s|
  {
    if s != "" && s[0] != NUL && s[0] != '"' {
      QuotedChars(s[1..]);
    }
  }

  lemma {:induction false} BareChars(s: string)
    ensures forall k :: 0 <= k < BareLength(s) ==> IsBareChar(s[k])
    decreases |s|
  {
    if s != "" && IsBareChar(s[0]) {
      BareChars(s[1..]);
    }
  }

  lemma LexemeProducible(t: string)
    requires !AtEnd(t) && !IsSpace(t[0])
    ensures var next := NextLexeme(t);
      && |next.tokens| <= 1
      && (next.tokens == [BROKEN_QUOTE] ==> AtEnd(next.rest))
      && (next.tokens != [] && next.tokens != [BROKEN_QUOTE] ==> Producible(next.tokens[0]))
  {
    QuotedChars(t[1..]);
    BareChars(t);
    if t[0] == '"' {
      var n := QuotedLength(t[1..]);
      assert t[1..1 + n] == t[1..][..n];
    } else if !IsPunctuation(t[0]) {
      var n := BareLength(t);
      assert t[..n] != "";
    }
  }

  /** Printing and lexing again gives the same tokens, for every text without a broken quote. */
  lemma RelexIsStable(s: string)
    requires BROKEN_QUOTE !in Lex(s)
    ensures var ts := Lex(s); ts != [] && Lex(PrintTokens(ts[..|ts| - 1])) == ts
  {
    hide Lex;
    hide PrintTokens;
    hide Producible;
    LexGivesLexerOutput(s);
    var ts := Lex(s);
    LexInvertsPrint(ts[..|ts| - 1]);
  }
}
