/** Directive arguments that hold `$variable` references: splitting a string into text and
    variables, and evaluating the pieces. */
module Arguments {
  import opened Base
  import opened Text

  datatype Piece = Str(text: string) | Var(name: string)

  /** What a string becomes. */
  datatype Argument =
    | Boolean(value: bool)
    | Literal(text: string)
    | Variable(name: string)
    | Concatenated(pieces: seq<Piece>)

  predicate IsValidVariableChar(c: char) {
    'a' <= c <= 'z' || '0' <= c <= '9' || c == '_'
  }

  lemma VariableChars(c: char)
    ensures IsValidVariableChar(c) <==> c in SMALL_LETTERS || c in DIGITS || c == '_'
  {
    DigitsTable(c);
    if 'a' <= c <= 'z' {
      LetterTables(c as int - 'a' as int);
      assert SMALL_LETTERS[c as int - 'a' as int] == c;
    }
    forall i | 0 <= i < 26 ensures IsValidVariableChar(SMALL_LETTERS[i]) {
      LetterTables(i);
    }
  }

  /** The length of the longest run of variable characters at the front. */
  function NameLength(s: string): (n: nat)
    ensures n <= |s|
    ensures forall k :: 0 <= k < n ==> IsValidVariableChar(s[k])
    ensures n < |s| ==> !IsValidVariableChar(s[n])
  {
    if s == "" || !IsValidVariableChar(s[0]) then 0 else 1 + NameLength(s[1..])
  }

  method GetVariableLength(s: string, pos: nat) returns (n: nat)
    requires pos <= |s|
    ensures n == NameLength(s[pos..])
  {
    var i := pos;
    while i < |s| && IsValidVariableChar(s[i])
      invariant pos <= i <= |s|
      invariant NameLength(s[pos..]) == i - pos + NameLength(s[i..])
    {
      i := i + 1;
    }
    n := i - pos;
  }

  // --------------------------------------------------------- what the pieces have to satisfy

  /** The variables of a request: an unknown name stands for nothing. */
  type Variables = string -> string

  /** Left-to-right substitution, character by character: a `$` and the name after it are
      replaced by the value of the variable. */
  function Substitute(s: string, env: Variables): string {
    if s == "" then ""
    else if s[0] != '$' then [s[0]] + Substitute(s[1..], env)
    else
      var n := NameLength(s[1..]);
      env(s[1..1 + n]) + Substitute(s[1 + n..], env)
  }

  /** Every `$` has a variable character right after it. */
  predicate AllNamed(s: string) {
    forall i :: 0 <= i < |s| && s[i] == '$' ==> i + 1 < |s| && IsValidVariableChar(s[i + 1])
  }

  function PrintPiece(p: Piece): string {
    match p case Str(text) => text case Var(name) => "$" + name
  }

  function PrintPieces(ps: seq<Piece>): string {
    if ps == [] then "" else PrintPiece(ps[0]) + PrintPieces(ps[1..])
  }

  function EvaluatePiece(p: Piece, env: Variables): string {
    match p case Str(text) => text case Var(name) => env(name)
  }

  function EvaluatePieces(ps: seq<Piece>, env: Variables): string {
    if ps == [] then "" else EvaluatePiece(ps[0], env) + EvaluatePieces(ps[1..], env)
  }

  /** Pieces as the splitter makes them: text without `$`, and proper names. */
  predicate ProperPiece(p: Piece) {
    match p
    case Str(text) => text != "" && '$' !in text
    case Var(name) => name != "" && NameLength(name) == |name|
  }

  predicate AllProper(ps: seq<Piece>) {
    forall i :: 0 <= i < |ps| ==> ProperPiece(ps[i])
  }

  // ------------------------------------------------------------------------------ evaluation

  /** `ConcatenatedValue`: evaluation appends the value of each piece in turn. */
  class ConcatenatedValue {
    var variables: seq<Piece>

    constructor ()
      ensures variables == []
    {
      variables := [];
    }

    method Add(arg: Piece)
      modifies this
      ensures variables == old(variables) + [arg]
    {
      variables := variables + [arg];
    }

    method Evaluate(env: Variables) returns (res: string)
      ensures res == EvaluatePieces(variables, env)
    {
      res := "";
      assert variables[0..] == variables;
      for i := 0 to |variables|
        invariant res + EvaluatePieces(variables[i..], env) == EvaluatePieces(variables, env)
      {
        assert variables[i..][1..] == variables[i + 1..];
        ghost var later := EvaluatePieces(variables[i + 1..], env);
        assert res + (EvaluatePiece(variables[i], env) + later) == res + EvaluatePiece(variables[i], env) + later;
        res := res + EvaluatePiece(variables[i], env);
      }
      assert res + "" == res;
    }
  }

  // ------------------------------------------------------------------------------- splitting

  /** The pieces of a string, or nothing when some `$` has no name. */
  function Split(s: string): Option<seq<Piece>>
    decreases |s|
  {
    if s == "" then Some([])
    else if s[0] == '$' then
      var n := NameLength(s[1..]);
      if n == 0 then None else Prepend([Var(s[1..1 + n])], Split(s[1 + n..]))
    else
      var n := IndexOf(s, '$');
      Prepend([Str(s[..n])], Split(s[n..]))
  }

  function Prepend(ps: seq<Piece>, later: Option<seq<Piece>>): Option<seq<Piece>> {
    match later case None => None case Some(qs) => Some(ps + qs)
  }

  lemma SplitNothing()
    ensures Split("") == Some([])
  {
  }

  lemma PrependTwice(ps: seq<Piece>, p: Piece, later: Option<seq<Piece>>)
    ensures Prepend(ps, Prepend([p], later)) == Prepend(ps + [p], later)
  {
    if later.Some? {
      assert ps + ([p] + later.value) == ps + [p] + later.value;
    }
  }

  lemma PrependEnds(ps: seq<Piece>, later: Option<seq<Piece>>)
    ensures Prepend([], later) == later && Prepend(ps, Some([])) == Some(ps)
  {
    assert ps + [] == ps;
    if later.Some? {
      assert [] + later.value == later.value;
    }
  }

  /** Splitting is refused exactly when some `$` has no variable character after it. */
  lemma {:induction false} SplitRefuses(s: string)
    ensures Split(s).Some? <==> AllNamed(s)
    decreases |s|
  {
    if s != "" && s[0] == '$' {
      var n := NameLength(s[1..]);
      if n == 0 {
        assert |s| > 1 ==> s[1] == s[1..][0];
      } else {
        assert s[1] == s[1..][0];
        assert forall i :: 1 <= i < 1 + n ==> s[i] == s[1..][i - 1] && IsValidVariableChar(s[i]);
        AllNamedFrom(s, 1 + n);
        SplitRefuses(s[1 + n..]);
      }
    } else if s != "" {
      var n := IndexOf(s, '$');
      AllNamedFrom(s, n);
      SplitRefuses(s[n..]);
    }
  }

  lemma AllNamedFrom(s: string, n: nat)
    requires n <= |s|
    requires forall i :: 0 <= i < n && s[i] == '$' ==> i + 1 < |s| && IsValidVariableChar(s[i + 1])
    ensures AllNamed(s) <==> AllNamed(s[n..])
  {
    var t := s[n..];
    assert forall i :: n <= i < |s| ==> s[i] == t[i - n];
    if AllNamed(s) {
      forall i | 0 <= i < |t| && t[i] == '$'
        ensures i + 1 < |t| && IsValidVariableChar(t[i + 1])
      {
        assert s[n + i] == t[i];
      }
    }
  }

  // The first piece of a string that splits, and how much of the string it covers.
  lemma FirstPiece(s: string) returns (p: Piece, n: nat)
    requires s != "" && Split(s).Some?
    ensures 0 < n <= |s| && Split(s) == Prepend([p], Split(s[n..]))
    ensures PrintPiece(p) == s[..n] && ProperPiece(p)
  {
    if s[0] == '$' {
      n := 1 + NameLength(s[1..]);
      p := Var(s[1..n]);
      assert s[1..][..n - 1] == s[1..n];
      NameOfName(s[1..]);
    } else {
      n := IndexOf(s, '$');
      p := Str(s[..n]);
    }
  }

  lemma PrintCons(p: Piece, later: seq<Piece>)
    ensures PrintPieces([p] + later) == PrintPiece(p) + PrintPieces(later)
  {
    assert ([p] + later)[1..] == later;
  }

  /** The pieces, with a `$` before each variable, print to the string; and they are proper:
      no empty text, no `$` in text, no bad names. */
  lemma {:induction false} SplitPrints(s: string)
    requires Split(s).Some?
    ensures PrintPieces(Split(s).value) == s && AllProper(Split(s).value)
    decreases |s|
  {
    if s != "" {
      hide Split;
      hide ProperPiece;
      hide PrintPiece;
      var p, n := FirstPiece(s);
      SplitPrints(s[n..]);
      PrintCons(p, Split(s[n..]).value);
      assert s[..n] + s[n..] == s;
    }
  }

  /** Whatever the variables hold, the pieces evaluate to the string with each variable
      substituted, left to right. */
  lemma {:induction false} SplitEvaluates(s: string, env: Variables)
    requires Split(s).Some?
    ensures EvaluatePieces(Split(s).value, env) == Substitute(s, env)
    decreases |s|
  {
    if s != "" {
      var n := if s[0] == '$' then 1 + NameLength(s[1..]) else IndexOf(s, '$');
      var p := if s[0] == '$' then Var(s[1..n]) else Str(s[..n]);
      SplitEvaluates(s[n..], env);
      var later := Split(s[n..]).value;
      assert ([p] + later)[0] == p && ([p] + later)[1..] == later;
      if s[0] != '$' {
        assert s == s[..n] + s[n..];
        SubstituteText(s[..n], s[n..], env);
      }
    }
  }

  // Text without a `$` substitutes to itself.
  lemma {:induction false} SubstituteText(text: string, rest: string, env: Variables)
    requires '$' !in text
    ensures Substitute(text + rest, env) == text + Substitute(rest, env)
    decreases |text|
  {
    if text == "" {
      assert text + rest == rest;
    } else {
      assert text[0] in text;
      assert (text + rest)[0] == text[0] && (text + rest)[1..] == text[1..] + rest;
      SubstituteText(text[1..], rest, env);
    }
  }

  lemma {:induction false} NameOfName(s: string)
    ensures NameLength(s[..NameLength(s)]) == NameLength(s)
    decreases |s|
  {
    if s != "" && IsValidVariableChar(s[0]) {
      var n := NameLength(s);
      assert s[..n][0] == s[0] && s[..n][1..] == s[1..][..n - 1];
      NameOfName(s[1..]);
    }
  }

  /** The one meaning of an argument, whichever form it took. */
  function Evaluated(a: Argument, env: Variables): string {
    match a
    case Boolean(value) => if value then "true" else "false"
    case Literal(text) => text
    case Variable(name) => env(name)
    case Concatenated(pieces) => EvaluatePieces(pieces, env)
  }

  /** The truth value a string stands for, in any letter case, if it stands for one. */
  function TruthValue(s: string): Option<bool> {
    var lower := ToLower(s);
    if lower in ["true", "on", "yes", "1"] then Some(true)
    else if lower in ["false", "off", "no", "0"] then Some(false)
    else None
  }

  /** The words for each truth value, in any letter case. */
  predicate StandsFor(s: string, value: bool) {
    if value then
      || SameIgnoringCase(s, "true") || SameIgnoringCase(s, "on")
      || SameIgnoringCase(s, "yes") || SameIgnoringCase(s, "1")
    else
      || SameIgnoringCase(s, "false") || SameIgnoringCase(s, "off")
      || SameIgnoringCase(s, "no") || SameIgnoringCase(s, "0")
  }

  /** Exactly those words stand for a truth value, each for one. */
  lemma TruthValueMeans(s: string, value: bool)
    ensures TruthValue(s) == Some(value) <==> StandsFor(s, value)
  {
    hide ToLower;
    hide SameIgnoringCase;
    IsWordLower(s, "true");
    IsWordLower(s, "on");
    IsWordLower(s, "yes");
    IsWordLower(s, "1");
    IsWordLower(s, "false");
    IsWordLower(s, "off");
    IsWordLower(s, "no");
    IsWordLower(s, "0");
  }

  lemma IsWordLower(s: string, word: string)
    requires forall i :: 0 <= i < |word| ==> Lower(word[i]) == word[i]
    ensures ToLower(s) == word <==> SameIgnoringCase(s, word)
  {
    LowerAlready(word);
    ToLowerIsSame(s, word);
  }

  /** The argument a string becomes. Without a `$`: a truth value or literal text. With one: the
      shortcut for a single variable, or the pieces. */
  function ArgumentOf(s: string): Option<Argument> {
    if '$' !in s then Some(if TruthValue(s).Some? then Boolean(TruthValue(s).value) else Literal(s))
    else if |s| > 1 && s[0] == '$' && NameLength(s[1..]) == |s| - 1 then Some(Variable(s[1..]))
    else
      match Split(s)
      case None => None
      case Some(pieces) => Some(Concatenated(pieces))
  }

  /** The forms agree: exactly the strings whose every `$` has a name are accepted, and each
      evaluates to its substitution, in whichever form; except that a string that stands for a
      truth value evaluates to the one name of that value. */
  lemma ArgumentMeansSubstitution(s: string, env: Variables)
    ensures ArgumentOf(s).Some? <==> AllNamed(s)
    ensures ArgumentOf(s).Some? ==>
      Evaluated(ArgumentOf(s).value, env)
      == if '$' !in s && StandsFor(s, true) then "true"
         else if '$' !in s && StandsFor(s, false) then "false"
         else Substitute(s, env)
  {
    hide TruthValue;
    hide StandsFor;
    TruthValueMeans(s, true);
    TruthValueMeans(s, false);
    SplitRefuses(s);
    if '$' !in s {
      assert s + "" == s;
      SubstituteText(s, "", env);
    } else if |s| > 1 && s[0] == '$' && NameLength(s[1..]) == |s| - 1 {
      assert s[1..1 + (|s| - 1)] == s[1..] && s[|s|..] == "";
      assert Split("") == Some([]);
      SplitEvaluates(s, env);
      assert env(s[1..]) + "" == env(s[1..]);
    } else if Split(s).Some? {
      SplitEvaluates(s, env);
    }
  }

  method HandleStringVariable(s: string) returns (r: Option<Argument>)
    ensures r == ArgumentOf(s)
  {
    hide TruthValue;
    hide Split;
    hide IndexOf;
    hide NameLength;
    if '$' !in s {
      var truth := TruthValue(s);
      return Some(if truth.Some? then Boolean(truth.value) else Literal(s));
    }
    if |s| > 1 && s[0] == '$' {
      var vlength := GetVariableLength(s, 1);
      if vlength > 0 && vlength == |s| - 1 {
        return Some(Variable(s[1..]));
      }
    }
    var v := new ConcatenatedValue();
    var currentPos := 0;
    assert s[0..] == s;
    PrependEnds([], Split(s));
    while currentPos < |s|
      invariant fresh(v) && currentPos <= |s|
      invariant Split(s) == Prepend(v.variables, Split(s[currentPos..]))
    {
      var varStart := currentPos + IndexOf(s[currentPos..], '$');
      SplitAtDollar(s, currentPos, varStart, v.variables);
      if varStart == |s| {
        v.Add(Str(s[currentPos..]));
        currentPos := |s|;
        break;
      }
      if varStart > currentPos {
        v.Add(Str(s[currentPos..varStart]));
      }
      var varNamePos := varStart + 1;
      var vlength := GetVariableLength(s, varStart + 1);
      SplitVariable(s, varStart, vlength, v.variables);
      if vlength == 0 {
        return None;
      }
      v.Add(Var(s[varNamePos..varNamePos + vlength]));
      currentPos := varNamePos + vlength;
    }
    assert s[|s|..] == "";
    SplitNothing();
    PrependEnds(v.variables, None);
    r := Some(Concatenated(v.variables));
  }

  // One turn of the loop: first the text up to the next `$`, if any,
  lemma SplitAtDollar(s: string, from: nat, to: nat, done: seq<Piece>)
    requires from < |s| && to == from + IndexOf(s[from..], '$')
    ensures to < |s| ==> s[to] == '$'
    ensures to == from ==> to < |s|
    ensures to > from ==>
      Prepend(done, Split(s[from..])) == Prepend(done + [Str(s[from..to])], Split(s[to..]))
    ensures to == |s| ==> s[from..to] == s[from..]
  {
    var t := s[from..];
    assert t[0] == s[from];
    if to < |s| {
      assert s[to] == t[to - from];
    }
    if to > from {
      assert t[..to - from] == s[from..to] && t[to - from..] == s[to..];
      assert t[0] != '$';
      PrependTwice(done, Str(s[from..to]), Split(s[to..]));
    }
  }

  // then the variable there, if it has a name.
  lemma SplitVariable(s: string, at: nat, n: nat, done: seq<Piece>)
    requires at < |s| && s[at] == '$' && n == NameLength(s[at + 1..])
    ensures n == 0 ==> Split(s[at..]) == None
    ensures n > 0 ==>
      Prepend(done, Split(s[at..])) == Prepend(done + [Var(s[at + 1..at + 1 + n])], Split(s[at + 1 + n..]))
  {
    var t := s[at..];
    assert t[0] == '$' && t[1..] == s[at + 1..];
    if n > 0 {
      assert t[1..1 + n] == s[at + 1..at + 1 + n] && t[1 + n..] == s[at + 1 + n..];
      PrependTwice(done, Var(s[at + 1..at + 1 + n]), Split(s[at + 1 + n..]));
    }
  }
}
