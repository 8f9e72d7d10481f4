/** The grammar of configuration files as the parser applies it: keywords are matched by their
    characters alone, braces and semicolons by their type, and a location may have several
    arguments. Syntax trees keep every token; the nodes the parser builds merge directives of
    the same name. */
module ConfigGrammar {
  import opened Base
  import opened ConfigTokens

  datatype Directive = Directive(name: Token, args: seq<Token>, semicolon: Token)

  datatype Statement =
    | Simple(directive: Directive)
    | Location(keyword: Token, args: seq<Token>, open: Token, body: seq<Directive>, close: Token)

  datatype Server = Server(keyword: Token, open: Token, body: seq<Statement>, close: Token)

  // ------------------------------------------------------------------------ what is derivable

  predicate AllValues(ts: seq<Token>) {
    forall i :: 0 <= i < |ts| ==> IsValue(ts[i])
  }

  predicate IsDirective(d: Directive) {
    IsValue(d.name) && AllValues(d.args) && d.semicolon.kind.SEMICOLON?
  }

  predicate AreDirectives(ds: seq<Directive>) {
    forall i :: 0 <= i < |ds| ==> IsDirective(ds[i])
  }

  predicate IsStatement(s: Statement) {
    match s
    case Simple(d) => IsDirective(d) && d.name.literal != "location"
    case Location(keyword, args, open, body, close) =>
      && keyword.literal == "location" && !keyword.kind.RIGHT_BRACE? && !keyword.kind.END_OF_FILE?
      && args != [] && AllValues(args) && open.kind.LEFT_BRACE?
      && AreDirectives(body) && close.kind.RIGHT_BRACE?
  }

  predicate AreStatements(ss: seq<Statement>) {
    forall i :: 0 <= i < |ss| ==> IsStatement(ss[i])
  }

  predicate IsServer(s: Server) {
    && s.keyword.literal == "server" && !s.keyword.kind.END_OF_FILE?
    && s.open.kind.LEFT_BRACE? && AreStatements(s.body) && s.close.kind.RIGHT_BRACE?
  }

  predicate AreServers(ss: seq<Server>) {
    forall i :: 0 <= i < |ss| ==> IsServer(ss[i])
  }

  // ------------------------------------------------------------- the tokens a tree stands for

  function DirectiveTokens(d: Directive): (r: seq<Token>)
    ensures |r| >= 2
  {
    [d.name] + d.args + [d.semicolon]
  }

  function DirectivesTokens(ds: seq<Directive>): seq<Token> {
    if ds == [] then [] else DirectiveTokens(ds[0]) + DirectivesTokens(ds[1..])
  }

  function StatementTokens(s: Statement): (r: seq<Token>)
    ensures |r| >= 2
  {
    match s
    case Simple(d) => DirectiveTokens(d)
    case Location(keyword, args, open, body, close) =>
      [keyword] + args + [open] + DirectivesTokens(body) + [close]
  }

  function StatementsTokens(ss: seq<Statement>): seq<Token> {
    if ss == [] then [] else StatementTokens(ss[0]) + StatementsTokens(ss[1..])
  }

  function ServerTokens(s: Server): seq<Token> {
    [s.keyword, s.open] + StatementsTokens(s.body) + [s.close]
  }

  function ServersTokens(ss: seq<Server>): seq<Token> {
    if ss == [] then [] else ServerTokens(ss[0]) + ServersTokens(ss[1..])
  }

  // ------------------------------------------------------------------------- recursive descent

  /** A parsed phrase and the tokens after it. */
  datatype Parse<+T> = Parse(value: T, rest: seq<Token>)

  function ValuesLength(ts: seq<Token>): (n: nat)
    ensures n <= |ts|
    ensures AllValues(ts[..n])
    ensures n < |ts| ==> !IsValue(ts[n])
  {
    if ts == [] || !IsValue(ts[0]) then 0
    else
      assert ts[..1 + ValuesLength(ts[1..])] == [ts[0]] + ts[1..][..ValuesLength(ts[1..])];
      1 + ValuesLength(ts[1..])
  }

  function ParseDirective(ts: seq<Token>): (r: Option<Parse<Directive>>)
    ensures r.Some? ==> |r.value.rest| < |ts|
  {
    if ts == [] || !IsValue(ts[0]) then None
    else
      var n := 1 + ValuesLength(ts[1..]);
      if n < |ts| && ts[n].kind.SEMICOLON? then Some(Parse(Directive(ts[0], ts[1..n], ts[n]), ts[n + 1..]))
      else None
  }

  /** Directives up to a right brace. */
  function ParseDirectives(ts: seq<Token>): (r: Option<Parse<seq<Directive>>>)
    ensures r.Some? ==> |r.value.rest| <= |ts| && r.value.rest != [] && r.value.rest[0].kind.RIGHT_BRACE?
    decreases |ts|
  {
    if ts == [] then None
    else if ts[0].kind.RIGHT_BRACE? then Some(Parse([], ts))
    else
      match ParseDirective(ts)
      case None => None
      case Some(d) =>
        match ParseDirectives(d.rest)
        case None => None
        case Some(ds) => Some(Parse([d.value] + ds.value, ds.rest))
  }

  /** The body of a location after its keyword: arguments, then directives in braces. */
  function ParseLocation(keyword: Token, ts: seq<Token>): (r: Option<Parse<Statement>>)
    ensures r.Some? ==> |r.value.rest| < |ts|
  {
    var n := ValuesLength(ts);
    if n == 0 || n == |ts| || !ts[n].kind.LEFT_BRACE? then None
    else
      match ParseDirectives(ts[n + 1..])
      case None => None
      case Some(ds) =>
        Some(Parse(Location(keyword, ts[..n], ts[n], ds.value, ds.rest[0]), ds.rest[1..]))
  }

  function ParseStatement(ts: seq<Token>): (r: Option<Parse<Statement>>)
    ensures r.Some? ==> |r.value.rest| < |ts|
  {
    if ts == [] then None
    else if ts[0].literal == "location" then ParseLocation(ts[0], ts[1..])
    else
      match ParseDirective(ts)
      case None => None
      case Some(d) => Some(Parse(Simple(d.value), d.rest))
  }

  function ParseStatements(ts: seq<Token>): (r: Option<Parse<seq<Statement>>>)
    ensures r.Some? ==> |r.value.rest| <= |ts| && r.value.rest != [] && r.value.rest[0].kind.RIGHT_BRACE?
    decreases |ts|
  {
    if ts == [] then None
    else if ts[0].kind.RIGHT_BRACE? then Some(Parse([], ts))
    else
      match ParseStatement(ts)
      case None => None
      case Some(s) =>
        match ParseStatements(s.rest)
        case None => None
        case Some(ss) => Some(Parse([s.value] + ss.value, ss.rest))
  }

  function ParseServer(ts: seq<Token>): (r: Option<Parse<Server>>)
    ensures r.Some? ==> |r.value.rest| < |ts|
  {
    if |ts| < 2 || ts[0].literal != "server" || !ts[1].kind.LEFT_BRACE? then None
    else
      match ParseStatements(ts[2..])
      case None => None
      case Some(ss) => Some(Parse(Server(ts[0], ts[1], ss.value, ss.rest[0]), ss.rest[1..]))
  }

  function ParseServers(ts: seq<Token>): (r: Option<seq<Server>>)
    decreases |ts|
  {
    if ts == [] then None
    else if ts[0].kind.END_OF_FILE? then Some([])
    else
      match ParseServer(ts)
      case None => None
      case Some(s) =>
        match ParseServers(s.rest)
        case None => None
        case Some(ss) => Some([s.value] + ss)
  }

  /** A token array as the lexer makes it: the end-of-file token is last, and only there. */
  predicate EndsOnce(ts: seq<Token>) {
    && ts != [] && ts[|ts| - 1] == EOF
    && forall i :: 0 <= i < |ts| - 1 ==> !ts[i].kind.END_OF_FILE?
  }

  // ------------------------------------------------------------------------------- soundness

  lemma DirectiveSound(ts: seq<Token>)
    requires ParseDirective(ts).Some?
    ensures var p := ParseDirective(ts).value;
      IsDirective(p.value) && DirectiveTokens(p.value) + p.rest == ts
  {
    var n := 1 + ValuesLength(ts[1..]);
    assert ts[1..n] == ts[1..][..n - 1];
    assert ts == [ts[0]] + ts[1..n] + [ts[n]] + ts[n + 1..];
  }

  lemma {:induction false} DirectivesSound(ts: seq<Token>)
    requires ParseDirectives(ts).Some?
    ensures var p := ParseDirectives(ts).value;
      AreDirectives(p.value) && DirectivesTokens(p.value) + p.rest == ts
    decreases |ts|
  {
    hide ParseDirective;
    hide IsDirective;
    hide DirectiveTokens;
    if !ts[0].kind.RIGHT_BRACE? {
      var d := ParseDirective(ts).value;
      DirectiveSound(ts);
      DirectivesSound(d.rest);
      var ds := ParseDirectives(d.rest).value;
      var all := [d.value] + ds.value;
      assert all[0] == d.value && all[1..] == ds.value;
      assert DirectivesTokens(all) + ds.rest == DirectiveTokens(d.value) + (DirectivesTokens(ds.value) + ds.rest);
    }
  }

  lemma LocationSound(keyword: Token, ts: seq<Token>)
    requires ParseLocation(keyword, ts).Some?
    requires keyword.literal == "location" && !keyword.kind.RIGHT_BRACE? && !keyword.kind.END_OF_FILE?
    ensures var p := ParseLocation(keyword, ts).value;
      IsStatement(p.value) && StatementTokens(p.value) + p.rest == [keyword] + ts
  {
    hide ParseDirectives;
    hide AreDirectives;
    hide DirectivesTokens;
    var n := ValuesLength(ts);
    DirectivesSound(ts[n + 1..]);
    var ds := ParseDirectives(ts[n + 1..]).value;
    assert ts == ts[..n] + [ts[n]] + ts[n + 1..];
    assert ds.rest == [ds.rest[0]] + ds.rest[1..];
    assert [keyword] + ts ==
      [keyword] + ts[..n] + [ts[n]] + DirectivesTokens(ds.value) + [ds.rest[0]] + ds.rest[1..];
  }

  lemma StatementSound(ts: seq<Token>)
    requires ParseStatement(ts).Some? && !ts[0].kind.RIGHT_BRACE? && !ts[0].kind.END_OF_FILE?
    ensures var p := ParseStatement(ts).value;
      IsStatement(p.value) && StatementTokens(p.value) + p.rest == ts
  {
    hide ParseDirective;
    hide ParseLocation;
    if ts[0].literal == "location" {
      LocationSound(ts[0], ts[1..]);
    } else {
      DirectiveSound(ts);
      DirectiveStartsWithName(ParseDirective(ts).value.value, ParseDirective(ts).value.rest);
    }
  }

  lemma DirectiveStartsWithName(d: Directive, rest: seq<Token>)
    ensures (DirectiveTokens(d) + rest)[0] == d.name
  {
  }

  lemma {:induction false} StatementsSound(ts: seq<Token>)
    requires ParseStatements(ts).Some? && EndsOnce(ts)
    ensures var p := ParseStatements(ts).value;
      AreStatements(p.value) && StatementsTokens(p.value) + p.rest == ts
    decreases |ts|
  {
    hide ParseStatement;
    hide IsStatement;
    hide StatementTokens;
    if !ts[0].kind.RIGHT_BRACE? {
      var s := ParseStatement(ts).value;
      NotAtEnd(ts);
      StatementSound(ts);
      SuffixEndsOnce(ts, StatementTokens(s.value), s.rest);
      StatementsSound(s.rest);
      var ss := ParseStatements(s.rest).value;
      var all := [s.value] + ss.value;
      assert all[0] == s.value && all[1..] == ss.value;
      assert StatementsTokens(all) + ss.rest == StatementTokens(s.value) + (StatementsTokens(ss.value) + ss.rest);
    }
  }

  // A statement needs more than the end-of-file token.
  lemma NotAtEnd(ts: seq<Token>)
    requires EndsOnce(ts) && ParseStatement(ts).Some?
    ensures !ts[0].kind.END_OF_FILE?
  {
  }

  lemma SuffixEndsOnce(ts: seq<Token>, a: seq<Token>, b: seq<Token>)
    requires EndsOnce(ts) && ts == a + b && b != []
    ensures EndsOnce(b)
  {
    assert forall i :: 0 <= i < |b| ==> b[i] == ts[|a| + i];
  }

  lemma LastIsEof(ts: seq<Token>, a: seq<Token>, b: seq<Token>)
    requires EndsOnce(ts) && ts == a + b && b != [] && !b[0].kind.END_OF_FILE?
    ensures |b| > 1
  {
    assert ts[|ts| - 1] == b[|b| - 1];
  }

  lemma ServerSound(ts: seq<Token>)
    requires ParseServer(ts).Some? && EndsOnce(ts) && !ts[0].kind.END_OF_FILE?
    ensures var p := ParseServer(ts).value;
      IsServer(p.value) && ServerTokens(p.value) + p.rest == ts && EndsOnce(p.rest)
  {
    hide ParseStatements;
    hide AreStatements;
    hide StatementsTokens;
    assert ts == ts[..2] + ts[2..];
    SuffixEndsOnce(ts, ts[..2], ts[2..]);
    StatementsSound(ts[2..]);
    var ss := ParseStatements(ts[2..]).value;
    assert ss.rest == [ss.rest[0]] + ss.rest[1..];
    var tokens := [ts[0], ts[1]] + StatementsTokens(ss.value) + [ss.rest[0]];
    assert ts == tokens + ss.rest[1..];
    LastIsEof(ts, [ts[0], ts[1]] + StatementsTokens(ss.value), ss.rest);
    SuffixEndsOnce(ts, tokens, ss.rest[1..]);
  }

  lemma {:induction false} ServersSound(ts: seq<Token>)
    requires ParseServers(ts).Some? && EndsOnce(ts)
    ensures var ss := ParseServers(ts).value;
      AreServers(ss) && ServersTokens(ss) + [EOF] == ts
    decreases |ts|
  {
    hide ParseServer;
    hide IsServer;
    hide ServerTokens;
    if ts[0].kind.END_OF_FILE? {
      assert ts == [EOF];
    } else {
      var s := ParseServer(ts).value;
      ServerSound(ts);
      ServersSound(s.rest);
      var ss := ParseServers(s.rest).value;
      var all := [s.value] + ss;
      assert all[0] == s.value && all[1..] == ss;
      assert ServersTokens(all) + [EOF] == ServerTokens(s.value) + (ServersTokens(ss) + [EOF]);
    }
  }

  // ---------------------------------------------------------------------------- completeness

  lemma {:induction false} ValuesLengthIs(ts: seq<Token>, n: nat)
    requires n < |ts| && AllValues(ts[..n]) && !IsValue(ts[n])
    ensures ValuesLength(ts) == n
  {
    if n > 0 {
      assert ts[0] == ts[..n][0];
      assert ts[1..][..n - 1] == ts[..n][1..];
      ValuesLengthIs(ts[1..], n - 1);
    }
  }

  lemma DirectiveComplete(d: Directive, rest: seq<Token>)
    requires IsDirective(d)
    ensures ParseDirective(DirectiveTokens(d) + rest) == Some(Parse(d, rest))
  {
    var ts := DirectiveTokens(d) + rest;
    var n := |d.args|;
    assert ts[1..] == d.args + [d.semicolon] + rest;
    assert ts[1..][..n] == d.args && ts[1..][n] == d.semicolon;
    ValuesLengthIs(ts[1..], n);
    assert ts[1..n + 1] == d.args && ts[n + 2..] == rest;
  }

  lemma {:induction false} DirectivesComplete(ds: seq<Directive>, rest: seq<Token>)
    requires AreDirectives(ds) && rest != [] && rest[0].kind.RIGHT_BRACE?
    ensures ParseDirectives(DirectivesTokens(ds) + rest) == Some(Parse(ds, rest))
    decreases |ds|
  {
    hide ParseDirective;
    hide DirectiveTokens;
    if ds == [] {
      assert [] + rest == rest;
    } else {
      var later := DirectivesTokens(ds[1..]) + rest;
      var ts := DirectivesTokens(ds) + rest;
      assert ts == DirectiveTokens(ds[0]) + later;
      DirectiveFirst(ds[0], later);
      DirectiveComplete(ds[0], later);
      DirectivesComplete(ds[1..], rest);
      assert [ds[0]] + ds[1..] == ds;
    }
  }

  lemma DirectiveFirst(d: Directive, rest: seq<Token>)
    ensures DirectiveTokens(d) + rest != [] && (DirectiveTokens(d) + rest)[0] == d.name
  {
  }

  lemma StatementComplete(s: Statement, rest: seq<Token>)
    requires IsStatement(s)
    ensures ParseStatement(StatementTokens(s) + rest) == Some(Parse(s, rest))
  {
    match s {
      case Simple(d) =>
        DirectiveFirst(d, rest);
        DirectiveComplete(d, rest);
      case Location(keyword, args, open, body, close) =>
        LocationComplete(s, rest);
    }
  }

  lemma LocationComplete(s: Statement, rest: seq<Token>)
    requires IsStatement(s) && s.Location?
    ensures ParseStatement(StatementTokens(s) + rest) == Some(Parse(s, rest))
  {
    hide ParseDirectives;
    hide DirectivesTokens;
    hide AreDirectives;
    var n := |s.args|;
    var inner := DirectivesTokens(s.body) + ([s.close] + rest);
    var ts := s.args + [s.open] + inner;
    var all := StatementTokens(s) + rest;
    assert all == [s.keyword] + ts;
    assert all[0] == s.keyword && all[1..] == ts;
    assert ts[..n] == s.args && ts[n] == s.open && ts[n + 1..] == inner;
    ValuesLengthIs(ts, n);
    DirectivesComplete(s.body, [s.close] + rest);
    assert ([s.close] + rest)[1..] == rest;
  }

  lemma StatementFirst(s: Statement, rest: seq<Token>)
    requires IsStatement(s)
    ensures StatementTokens(s) + rest != [] && !(StatementTokens(s) + rest)[0].kind.RIGHT_BRACE?
  {
  }

  lemma {:induction false} StatementsComplete(ss: seq<Statement>, rest: seq<Token>)
    requires AreStatements(ss) && rest != [] && rest[0].kind.RIGHT_BRACE?
    ensures ParseStatements(StatementsTokens(ss) + rest) == Some(Parse(ss, rest))
    decreases |ss|
  {
    hide ParseStatement;
    hide StatementTokens;
    hide IsStatement;
    if ss == [] {
      assert [] + rest == rest;
    } else {
      var later := StatementsTokens(ss[1..]) + rest;
      var ts := StatementsTokens(ss) + rest;
      assert ts == StatementTokens(ss[0]) + later;
      StatementFirst(ss[0], later);
      StatementComplete(ss[0], later);
      StatementsComplete(ss[1..], rest);
      assert [ss[0]] + ss[1..] == ss;
    }
  }

  lemma ServerComplete(s: Server, rest: seq<Token>)
    requires IsServer(s)
    ensures ParseServer(ServerTokens(s) + rest) == Some(Parse(s, rest))
  {
    hide ParseStatements;
    hide StatementsTokens;
    hide AreStatements;
    var ts := ServerTokens(s) + rest;
    assert ts[2..] == StatementsTokens(s.body) + ([s.close] + rest);
    StatementsComplete(s.body, [s.close] + rest);
    assert ([s.close] + rest)[1..] == rest;
  }

  lemma ServerFirst(s: Server, rest: seq<Token>)
    requires IsServer(s)
    ensures ServerTokens(s) + rest != [] && !(ServerTokens(s) + rest)[0].kind.END_OF_FILE?
  {
  }

  lemma {:induction false} ServersComplete(ss: seq<Server>)
    requires AreServers(ss)
    ensures ParseServers(ServersTokens(ss) + [EOF]) == Some(ss)
    decreases |ss|
  {
    hide ParseServer;
    hide ServerTokens;
    hide IsServer;
    if ss == [] {
      assert [] + [EOF] == [EOF];
    } else {
      var later := ServersTokens(ss[1..]) + [EOF];
      var ts := ServersTokens(ss) + [EOF];
      assert ts == ServerTokens(ss[0]) + later;
      ServerFirst(ss[0], later);
      ServerComplete(ss[0], later);
      ServersComplete(ss[1..]);
      assert [ss[0]] + ss[1..] == ss;
    }
  }

  /** The parser accepts exactly the derivable token arrays, and finds the one derivation. */
  lemma ParsesExactlyDerivable(ts: seq<Token>, ss: seq<Server>)
    requires EndsOnce(ts)
    ensures ParseServers(ts) == Some(ss) <==> AreServers(ss) && ts == ServersTokens(ss) + [EOF]
  {
    if ParseServers(ts) == Some(ss) {
      ServersSound(ts);
    }
    if AreServers(ss) && ts == ServersTokens(ss) + [EOF] {
      ServersComplete(ss);
    }
  }
}
