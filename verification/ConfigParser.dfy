/** The configuration parser: a cursor over the tokens, and the nodes built so far. A syntax
    error, which the parser throws, is a false result here. */
module ConfigParsing {
  import opened Base
  import opened ConfigTokens
  import opened ConfigGrammar

  type ArgumentMap = map<string, seq<Token>>

  datatype ConfigNode = ConfigNode(
    name: string,
    args: seq<Token>,
    directives: ArgumentMap,
    children: seq<ConfigNode>)

  // ------------------------------------------------------- the nodes a syntax tree stands for

  /** The arguments of every directive of one name, in source order. */
  function ArgsOf(ds: seq<Directive>, name: string): seq<Token> {
    if ds == [] then []
    else
      ArgsOf(ds[..|ds| - 1], name)
      + if ds[|ds| - 1].name.literal == name then ds[|ds| - 1].args else []
  }

  function Names(ds: seq<Directive>): set<string> {
    set d | d in ds :: d.name.literal
  }

  /** Directives of the same name merged. */
  function Merged(ds: seq<Directive>): ArgumentMap {
    map name | name in Names(ds) :: ArgsOf(ds, name)
  }

  function LocationNode(s: Statement): ConfigNode
    requires s.Location?
  {
    ConfigNode("location", s.args, Merged(s.body), [])
  }

  function DirectivesIn(ss: seq<Statement>): seq<Directive> {
    if ss == [] then []
    else
      DirectivesIn(ss[..|ss| - 1])
      + match ss[|ss| - 1] case Simple(d) => [d] case Location(_, _, _, _, _) => []
  }

  function LocationsIn(ss: seq<Statement>): seq<ConfigNode> {
    if ss == [] then []
    else
      LocationsIn(ss[..|ss| - 1])
      + match ss[|ss| - 1] case Simple(_) => [] case Location(_, _, _, _, _) => [LocationNode(ss[|ss| - 1])]
  }

  /** A server node: its own directives merged, its locations in source order. */
  function BodyNode(ss: seq<Statement>): ConfigNode {
    ConfigNode("server", [], Merged(DirectivesIn(ss)), LocationsIn(ss))
  }

  function Nodes(ss: seq<Server>): seq<ConfigNode> {
    if ss == [] then [] else Nodes(ss[..|ss| - 1]) + [BodyNode(ss[|ss| - 1].body)]
  }

  /** The arguments of each directive land together, after those of the earlier directives of
      the same name. */
  lemma {:induction false} ArgumentsLand(ds: seq<Directive>, i: nat)
    requires i < |ds|
    ensures var name := ds[i].name.literal;
      var start := |ArgsOf(ds[..i], name)|;
      && name in Merged(ds)
      && start + |ds[i].args| <= |Merged(ds)[name]|
      && Merged(ds)[name][start..start + |ds[i].args|] == ds[i].args
    decreases |ds|
  {
    var name := ds[i].name.literal;
    assert ds[i] in ds;
    var init := ds[..|ds| - 1];
    if i < |init| {
      ArgumentsLand(init, i);
      assert init[..i] == ds[..i];
    }
  }

  /** Position `k` of the merged arguments is filled by directive `i`. */
  predicate FilledBy(ds: seq<Directive>, name: string, k: nat, i: nat) {
    && i < |ds| && ds[i].name.literal == name
    && var start := |ArgsOf(ds[..i], name)|; start <= k < start + |ds[i].args|
  }

  /** Nothing else lands there: every merged argument is one argument of one directive. */
  lemma {:induction false} ArgumentsComeFrom(ds: seq<Directive>, name: string, k: nat) returns (i: nat)
    requires name in Merged(ds) && k < |Merged(ds)[name]|
    ensures FilledBy(ds, name, k, i)
    ensures Merged(ds)[name][k] == ds[i].args[k - |ArgsOf(ds[..i], name)|]
    ensures forall j: nat :: FilledBy(ds, name, k, j) ==> j == i
    decreases |ds|
  {
    var last := |ds| - 1;
    var init := ds[..last];
    forall j: nat | j < last && ds[j].name.literal == name
      ensures ds[..j] == init[..j] && |ArgsOf(ds[..j], name)| + |ds[j].args| <= |ArgsOf(init, name)|
    {
      ArgumentsLand(init, j);
      assert ds[..j] == init[..j];
    }
    if k < |ArgsOf(init, name)| {
      if name !in Names(init) {
        NoArgs(init, name);
      }
      i := ArgumentsComeFrom(init, name, k);
      forall j: nat | FilledBy(ds, name, k, j) ensures j == i {
        assert FilledBy(init, name, k, j);
      }
    } else {
      i := last;
    }
  }

  // ------------------------------------------------------------------------------- merging

  function AddArguments(m: ArgumentMap, name: string, args: seq<Token>): ArgumentMap {
    if name in m then m[name := m[name] + args] else m[name := args]
  }

  lemma MergedAppend(ds: seq<Directive>, d: Directive)
    ensures Merged(ds + [d]) == AddArguments(Merged(ds), d.name.literal, d.args)
  {
    hide Names;
    var n := d.name.literal;
    NamesAppend(ds, d);
    forall name | name in Names(ds + [d])
      ensures ArgsOf(ds + [d], name) == AddArguments(Merged(ds), n, d.args)[name]
    {
      ArgsAppend(ds, d, name);
      if name !in Names(ds) {
        NoArgs(ds, name);
        assert [] + d.args == d.args;
      }
    }
  }

  lemma ArgsAppend(ds: seq<Directive>, d: Directive, name: string)
    ensures ArgsOf(ds + [d], name) == (if d.name.literal == name then ArgsOf(ds, name) + d.args else ArgsOf(ds, name))
  {
    assert (ds + [d])[..|ds|] == ds;
    assert ArgsOf(ds, name) + [] == ArgsOf(ds, name);
  }

  lemma NamesAppend(ds: seq<Directive>, d: Directive)
    ensures Names(ds + [d]) == Names(ds) + {d.name.literal}
  {
  }

  lemma {:induction false} NoArgs(ds: seq<Directive>, name: string)
    requires name !in Names(ds)
    ensures ArgsOf(ds, name) == []
    decreases |ds|
  {
    if ds != [] {
      assert ds[|ds| - 1] in ds;
      NoArgs(ds[..|ds| - 1], name);
    }
  }

  // ------------------------------------------------------------------------------ the parser

  class Parser {
    const tokens: seq<Token>
    var pos: nat
    var nodes: seq<ConfigNode>

    ghost predicate Valid()
      reads this
    {
      EndsOnce(tokens) && pos < |tokens|
    }

    /** The tokens from the cursor on. */
    ghost function Rest(): seq<Token>
      requires pos <= |tokens|
      reads this
    {
      tokens[pos..]
    }

    constructor (tokens: seq<Token>)
      requires EndsOnce(tokens)
      ensures Valid() && this.tokens == tokens && Rest() == tokens && nodes == []
    {
      this.tokens, pos, nodes := tokens, 0, [];
    }

    /** The first token not consumed; and once all are, the end-of-file token still. */
    function CurrentToken(): (t: Token)
      requires tokens != []
      reads this
      ensures pos < |tokens| ==> t == Rest()[0]
      ensures pos >= |tokens| && EndsOnce(tokens) ==> t == EOF
    {
      if pos >= |tokens| then tokens[|tokens| - 1] else tokens[pos]
    }

    method ConsumeToken()
      modifies `pos
      ensures pos == if old(pos) < |tokens| then old(pos) + 1 else old(pos)
    {
      if pos < |tokens| {
        pos := pos + 1;
      }
    }

    method ExpectType(kind: TokenType) returns (ok: bool)
      requires Valid() && !kind.END_OF_FILE?
      modifies `pos
      ensures ok <==> old(Rest())[0].kind == kind
      ensures ok ==> Valid() && Rest() == old(Rest())[1..]
    {
      if CurrentToken().kind != kind {
        return false;
      }
      ConsumeToken();
      ok := true;
    }

    method ExpectLiteral(literal: string) returns (ok: bool)
      requires Valid() && literal != ""
      modifies `pos
      ensures ok <==> old(Rest())[0].literal == literal
      ensures ok ==> Valid() && Rest() == old(Rest())[1..]
    {
      if CurrentToken().literal != literal {
        return false;
      }
      ConsumeToken();
      ok := true;
    }

    /** Takes values off the cursor onto `args`, as long as there are any. */
    method TakeValues(args: seq<Token>) returns (args': seq<Token>)
      requires Valid()
      modifies `pos
      ensures Valid()
      ensures var n := ValuesLength(old(Rest()));
        args' == args + old(Rest())[..n] && Rest() == old(Rest())[n..]
    {
      hide EndsOnce;
      hide AllValues;
      hide ValuesLength;
      args' := args;
      ghost var from := pos;
      LastIsNoValue();
      while IsValue(CurrentToken())
        invariant Valid() && from <= pos
        invariant ValuesLength(tokens[from..]) == pos - from + ValuesLength(tokens[pos..])
        invariant args' == args + tokens[from..pos]
        decreases |tokens| - pos
      {
        LastIsNoValue();
        ValuesLengthStep(tokens, pos);
        args' := args' + [CurrentToken()];
        ConsumeToken();
      }
      ValuesLengthStep(tokens, pos);
      Taken(tokens, from, pos);
    }

    // A value is never the last token, so there is one after it.
    lemma LastIsNoValue()
      requires Valid()
      ensures IsValue(tokens[pos]) ==> pos + 1 < |tokens|
    {
    }

    method HandleDirective() returns (ok: bool, name: string, args: seq<Token>)
      requires Valid()
      modifies `pos
      ensures match ParseDirective(old(Rest()))
              case None => !ok
              case Some(d) => ok && Valid() && name == d.value.name.literal && args == d.value.args && Rest() == d.rest
    {
      name, args := "", [];
      if !IsValue(CurrentToken()) {
        return false, name, args;
      }
      ghost var start := Rest();
      name := CurrentToken().literal;
      ConsumeToken();
      args := TakeValues(args);
      ghost var n := ValuesLength(start[1..]);
      assert start[1..][..n] == start[1..1 + n] && Rest() == start[1 + n..];
      ok := ExpectType(SEMICOLON);
    }

    /** Directives up to a right brace, merged one by one into a node. */
    method HandleDirectives(node: ConfigNode) returns (ok: bool, node': ConfigNode)
      requires Valid() && node.directives == map[]
      modifies `pos
      ensures match ParseDirectives(old(Rest()))
              case None => !ok
              case Some(ds) => ok && Valid() && node' == node.(directives := Merged(ds.value)) && Rest() == ds.rest
    {
      hide ParseDirective;
      hide Merged;
      node' := node;
      ghost var done: seq<Directive> := [];
      MergedNothing();
      PrependNothing(ParseDirectives(Rest()));
      while !CurrentToken().kind.RIGHT_BRACE?
        invariant Valid() && node' == node.(directives := Merged(done))
        invariant ParseDirectives(old(Rest())) == Prepend(done, ParseDirectives(Rest()))
        decreases |tokens| - pos
      {
        ghost var here := Rest();
        var name, args;
        ok, name, args := HandleDirective();
        if !ok {
          return false, node';
        }
        ghost var d := ParseDirective(here).value.value;
        MergedAppend(done, d);
        PrependOne(done, d, ParseDirectives(Rest()));
        done := done + [d];
        node' := node'.(directives := AddArguments(node'.directives, name, args));
      }
      PrependAll(done, Rest());
      ok := true;
    }

    method HandleLocationBlock() returns (ok: bool)
      requires Valid() && Rest()[0].literal == "location" && nodes != []
      modifies this
      ensures match ParseLocation(old(Rest())[0], old(Rest())[1..])
              case None => !ok
              case Some(s) =>
                && ok && Valid() && Rest() == s.rest && s.value.Location?
                && nodes == AddChild(old(nodes), ConfigNode("location", s.value.args, Merged(s.value.body), []))
    {
      hide ParseDirectives;
      hide Merged;
      hide EndsOnce;
      hide AllValues;
      hide ValuesLength;
      ghost var start := Rest();
      ok := ExpectLiteral("location");
      var node := ConfigNode("location", [], map[], []);
      var args := TakeValues([]);
      node := node.(args := args);
      ghost var n := ValuesLength(start[1..]);
      assert Rest() == start[1..][n..] && args == start[1..][..n];
      if !CurrentToken().kind.LEFT_BRACE? && !CurrentToken().kind.END_OF_FILE? {
        return false;
      }
      if node.args == [] {
        return false;
      }
      ok := ExpectType(LEFT_BRACE);
      if ok {
        assert Rest() == start[1..][n + 1..];
        ok := HandleLocationBody(node);
      }
    }

    /** The braces of a location: its directives go into `node`, and the node to the server. */
    method HandleLocationBody(node: ConfigNode) returns (ok: bool)
      requires Valid() && nodes != [] && node.directives == map[]
      modifies this
      ensures match ParseDirectives(old(Rest()))
              case None => !ok
              case Some(ds) =>
                && ok && Valid() && Rest() == ds.rest[1..]
                && nodes == AddChild(old(nodes), node.(directives := Merged(ds.value)))
    {
      hide ParseDirectives;
      hide Merged;
      var node' := node;
      ok, node' := HandleDirectives(node);
      if !ok {
        return;
      }
      ok := ExpectType(RIGHT_BRACE);
      var last := nodes[|nodes| - 1];
      nodes := nodes[|nodes| - 1 := last.(children := last.children + [node'])];
    }

    method HandleStatement() returns (ok: bool)
      requires Valid() && nodes != []
      modifies this
      ensures match ParseStatement(old(Rest()))
              case None => !ok
              case Some(s) =>
                ok && Valid() && Rest() == s.rest && nodes == AddStatement(old(nodes), s.value)
    {
      hide ParseLocation;
      hide ParseDirective;
      if CurrentToken().literal == "location" {
        ok := HandleLocationBlock();
      } else {
        var name, args;
        ok, name, args := HandleDirective();
        if ok {
          var last := nodes[|nodes| - 1];
          nodes := nodes[|nodes| - 1 := last.(directives := AddArguments(last.directives, name, args))];
        }
      }
    }

    /** One server block. */
    method HandleServer() returns (ok: bool)
      requires Valid() && !Rest()[0].kind.END_OF_FILE?
      modifies this
      ensures match ParseServer(old(Rest()))
              case None => !ok
              case Some(s) => ok && Valid() && Rest() == s.rest && nodes == old(nodes) + [BodyNode(s.value.body)]
    {
      hide ParseStatement;
      hide BodyNode;
      ghost var before := nodes;
      ghost var start := Rest();
      ok := ExpectLiteral("server");
      if !ok {
        return;
      }
      ok := ExpectType(LEFT_BRACE);
      if !ok {
        return;
      }
      nodes := nodes + [ConfigNode("server", [], map[], [])];
      ghost var body := Rest();
      ghost var done: seq<Statement> := [];
      BodyNothing();
      assert body == start[2..];
      PrependNothing(ParseStatements(body));
      while !CurrentToken().kind.RIGHT_BRACE?
        invariant Valid() && nodes == before + [BodyNode(done)]
        invariant ParseStatements(body) == Prepend(done, ParseStatements(Rest()))
        decreases |tokens| - pos
      {
        ghost var here := Rest();
        ok := HandleStatement();
        if !ok {
          return;
        }
        ghost var s := ParseStatement(here).value.value;
        BodyAppend(before, done, s);
        PrependOne(done, s, ParseStatements(Rest()));
        done := done + [s];
      }
      PrependAllStatements(done, Rest());
      ok := ExpectType(RIGHT_BRACE);
    }

    /** The whole file. */
    method HandleServerBlock() returns (ok: bool)
      requires Valid() && nodes == []
      modifies this
      ensures match ParseServers(old(Rest()))
              case None => !ok
              case Some(ss) => ok && nodes == Nodes(ss)
    {
      hide ParseServer;
      hide BodyNode;
      ghost var start := Rest();
      ghost var done: seq<Server> := [];
      PrependNoServers(ParseServers(start));
      while !CurrentToken().kind.END_OF_FILE?
        invariant Valid() && nodes == Nodes(done)
        invariant ParseServers(start) == PrependServers(done, ParseServers(Rest()))
        decreases |tokens| - pos
      {
        ghost var here := Rest();
        ok := HandleServer();
        if !ok {
          return;
        }
        ghost var s := ParseServer(here).value.value;
        NodesAppend(done, s);
        PrependServer(done, s, ParseServers(Rest()));
        done := done + [s];
      }
      assert done + [] == done;
      ok := true;
    }
  }

  // ------------------------------------------------------- what the loops have done so far

  lemma ValuesLengthStep(ts: seq<Token>, i: nat)
    requires i < |ts|
    ensures ValuesLength(ts[i..]) == if IsValue(ts[i]) then 1 + ValuesLength(ts[i + 1..]) else 0
  {
    assert ts[i..][0] == ts[i] && ts[i..][1..] == ts[i + 1..];
  }

  lemma Taken(ts: seq<Token>, from: nat, to: nat)
    requires from <= to <= |ts|
    ensures ts[from..][..to - from] == ts[from..to] && ts[from..][to - from..] == ts[to..]
  {
  }

  function Prepend<T>(done: seq<T>, later: Option<Parse<seq<T>>>): Option<Parse<seq<T>>> {
    match later case None => None case Some(p) => Some(Parse(done + p.value, p.rest))
  }

  function PrependServers(done: seq<Server>, later: Option<seq<Server>>): Option<seq<Server>> {
    match later case None => None case Some(ss) => Some(done + ss)
  }

  lemma PrependNothing<T>(later: Option<Parse<seq<T>>>)
    ensures Prepend([], later) == later
  {
    if later.Some? {
      assert [] + later.value.value == later.value.value;
    }
  }

  lemma PrependNoServers(later: Option<seq<Server>>)
    ensures PrependServers([], later) == later
  {
    if later.Some? {
      assert [] + later.value == later.value;
    }
  }

  lemma PrependOne<T>(done: seq<T>, x: T, later: Option<Parse<seq<T>>>)
    ensures Prepend(done, Prepend([x], later)) == Prepend(done + [x], later)
  {
    if later.Some? {
      assert done + ([x] + later.value.value) == done + [x] + later.value.value;
    }
  }

  lemma PrependServer(done: seq<Server>, x: Server, later: Option<seq<Server>>)
    ensures PrependServers(done, PrependServers([x], later)) == PrependServers(done + [x], later)
  {
    if later.Some? {
      assert done + ([x] + later.value) == done + [x] + later.value;
    }
  }

  lemma PrependAll(done: seq<Directive>, ts: seq<Token>)
    requires ts != [] && ts[0].kind.RIGHT_BRACE?
    ensures Prepend(done, ParseDirectives(ts)) == Some(Parse(done, ts))
  {
    assert done + [] == done;
  }

  lemma PrependAllStatements(done: seq<Statement>, ts: seq<Token>)
    requires ts != [] && ts[0].kind.RIGHT_BRACE?
    ensures Prepend(done, ParseStatements(ts)) == Some(Parse(done, ts))
  {
    assert done + [] == done;
  }

  lemma MergedNothing()
    ensures Merged([]) == map[]
  {
  }

  lemma BodyNothing()
    ensures BodyNode([]) == ConfigNode("server", [], map[], [])
  {
    MergedNothing();
  }

  lemma NodesAppend(done: seq<Server>, s: Server)
    ensures Nodes(done + [s]) == Nodes(done) + [BodyNode(s.body)]
  {
    assert (done + [s])[..|done|] == done;
  }

  function AddChild(nodes: seq<ConfigNode>, child: ConfigNode): seq<ConfigNode>
    requires nodes != []
  {
    var last := nodes[|nodes| - 1];
    nodes[|nodes| - 1 := last.(children := last.children + [child])]
  }

  /** The nodes after one more statement of the last server. */
  function AddStatement(nodes: seq<ConfigNode>, s: Statement): seq<ConfigNode>
    requires nodes != []
  {
    match s
    case Location(_, _, _, _, _) => AddChild(nodes, LocationNode(s))
    case Simple(d) =>
      var last := nodes[|nodes| - 1];
      nodes[|nodes| - 1 := last.(directives := AddArguments(last.directives, d.name.literal, d.args))]
  }

  lemma BodyAppend(before: seq<ConfigNode>, done: seq<Statement>, s: Statement)
    ensures AddStatement(before + [BodyNode(done)], s) == before + [BodyNode(done + [s])]
  {
    hide Merged;
    hide AddArguments;
    assert (done + [s])[..|done|] == done;
    match s {
      case Simple(d) =>
        MergedAppend(DirectivesIn(done), d);
        assert LocationsIn(done) + [] == LocationsIn(done);
      case Location(_, _, _, _, _) =>
        assert DirectivesIn(done) + [] == DirectivesIn(done);
    }
    assert AddStatement(before + [BodyNode(done)], s)[|before|] == BodyNode(done + [s]);
  }
}
