/** The front end of the configuration: from a text to nodes, and what is then where in the nodes. */
module ConfigLoading {
  import opened Base
  import opened ConfigTokens
  import opened ConfigGrammar
  import opened ConfigLexer
  import opened ConfigParsing

  // ------------------------------------------------------------ what the nodes have to hold

  /** How many locations there are among some statements. */
  function LocationCount(ss: seq<Statement>): nat {
    if ss == [] then 0 else LocationCount(ss[..|ss| - 1]) + if ss[|ss| - 1].Location? then 1 else 0
  }

  /** How many arguments the directives of one name have, among some statements. */
  function ArgumentCount(ss: seq<Statement>, name: string): nat {
    if ss == [] then 0
    else
      var last := ss[|ss| - 1];
      ArgumentCount(ss[..|ss| - 1], name)
      + if last.Simple? && last.directive.name.literal == name then |last.directive.args| else 0
  }

  predicate Named(ss: seq<Statement>, name: string) {
    exists i :: 0 <= i < |ss| && ss[i].Simple? && ss[i].directive.name.literal == name
  }

  /** The directives among some statements: under each of their names, and no other, the arguments of
      each one after those of the earlier ones, and nothing else. */
  ghost predicate HoldsDirectives(m: ArgumentMap, ss: seq<Statement>) {
    && (forall name :: name in m <==> Named(ss, name))
    && (forall name :: name in m ==> |m[name]| == ArgumentCount(ss, name))
    && forall i :: 0 <= i < |ss| && ss[i].Simple? ==>
         ArgumentsAt(m, ss[i].directive, ArgumentCount(ss[..i], ss[i].directive.name.literal))
  }

  predicate ArgumentsAt(m: ArgumentMap, d: Directive, from: nat) {
    && d.name.literal in m && from + |d.args| <= |m[d.name.literal]|
    && m[d.name.literal][from..from + |d.args|] == d.args
  }

  function AsStatements(ds: seq<Directive>): seq<Statement> {
    seq(|ds|, i requires 0 <= i < |ds| => Simple(ds[i]))
  }

  ghost predicate IsLocationNode(n: ConfigNode, s: Statement) {
    && s.Location? && n.name == "location" && n.args == s.args && n.children == []
    && HoldsDirectives(n.directives, AsStatements(s.body))
  }

  /** A server's node: its own directives, and a child for each of its locations, in order. */
  ghost predicate IsServerNode(n: ConfigNode, ss: seq<Statement>) {
    && n.name == "server" && n.args == [] && HoldsDirectives(n.directives, ss)
    && |n.children| == LocationCount(ss)
    && forall i :: 0 <= i < |ss| && ss[i].Location? ==>
         && LocationCount(ss[..i]) < |n.children|
         && IsLocationNode(n.children[LocationCount(ss[..i])], ss[i])
  }

  ghost predicate Built(nodes: seq<ConfigNode>, servers: seq<Server>) {
    |nodes| == |servers| && forall i :: 0 <= i < |nodes| ==> IsServerNode(nodes[i], servers[i].body)
  }

  // ----------------------------------------------------------------- the nodes hold just that

  lemma HoldsNothing()
    ensures HoldsDirectives(map[], [])
  {
  }

  lemma OneMore<T>(xs: seq<T>, x: T)
    ensures (xs + [x])[..|xs|] == xs && forall i :: 0 <= i <= |xs| ==> (xs + [x])[..i] == xs[..i]
  {
  }

  lemma HoldsOneMore(m: ArgumentMap, ss: seq<Statement>, d: Directive)
    requires HoldsDirectives(m, ss)
    ensures HoldsDirectives(AddArguments(m, d.name.literal, d.args), ss + [Simple(d)])
  {
    hide ArgumentsAt;
    hide Named;
    var n := d.name.literal;
    var m', ss' := AddArguments(m, n, d.args), ss + [Simple(d)];
    OneMore(ss, Simple(d));
    if n !in m {
      NoArguments(ss, n);
    }
    forall name ensures name in m' <==> Named(ss', name) {
      NamedOneMore(ss, Simple(d), name);
    }
    forall i | 0 <= i < |ss'| && ss'[i].Simple?
      ensures ArgumentsAt(m', ss'[i].directive, ArgumentCount(ss'[..i], ss'[i].directive.name.literal))
    {
      if i < |ss| {
        assert ss'[i] == ss[i];
        ArgumentsStay(m, ss[i].directive, ArgumentCount(ss[..i], ss[i].directive.name.literal), n, d.args);
      } else {
        ArgumentsAdded(m, d);
      }
    }
  }

  lemma NamedOneMore(ss: seq<Statement>, s: Statement, name: string)
    ensures Named(ss + [s], name) <==> Named(ss, name) || (s.Simple? && s.directive.name.literal == name)
  {
    var ss' := ss + [s];
    assert ss'[|ss|] == s && forall i :: 0 <= i < |ss| ==> ss'[i] == ss[i];
  }

  lemma ArgumentsStay(m: ArgumentMap, d: Directive, from: nat, name: string, args: seq<Token>)
    requires ArgumentsAt(m, d, from)
    ensures ArgumentsAt(AddArguments(m, name, args), d, from)
  {
    var n := d.name.literal;
    if n == name {
      assert (m[n] + args)[from..from + |d.args|] == m[n][from..from + |d.args|];
    }
  }

  lemma ArgumentsAdded(m: ArgumentMap, d: Directive)
    ensures var n := d.name.literal;
      ArgumentsAt(AddArguments(m, n, d.args), d, if n in m then |m[n]| else 0)
  {
    var n := d.name.literal;
    if n in m {
      assert (m[n] + d.args)[|m[n]|..] == d.args;
    } else {
      assert d.args[0..|d.args|] == d.args;
    }
  }

  lemma {:induction false} NoArguments(ss: seq<Statement>, name: string)
    requires !Named(ss, name)
    ensures ArgumentCount(ss, name) == 0
    decreases |ss|
  {
    hide Named;
    if ss != [] {
      var init, last := ss[..|ss| - 1], ss[|ss| - 1];
      assert ss == init + [last];
      NamedOneMore(init, last, name);
      NoArguments(init, name);
    }
  }

  lemma HoldsPastLocation(m: ArgumentMap, ss: seq<Statement>, s: Statement)
    requires HoldsDirectives(m, ss) && s.Location?
    ensures HoldsDirectives(m, ss + [s])
  {
    hide ArgumentsAt;
    hide Named;
    var ss' := ss + [s];
    OneMore(ss, s);
    forall name ensures name in m <==> Named(ss', name) {
      NamedOneMore(ss, s, name);
    }
    assert forall i :: 0 <= i < |ss| ==> ss'[i] == ss[i];
  }

  lemma {:induction false} MergedHolds(ds: seq<Directive>)
    ensures HoldsDirectives(Merged(ds), AsStatements(ds))
    decreases |ds|
  {
    hide Merged;
    hide HoldsDirectives;
    if ds == [] {
      MergedNothing();
      HoldsNothing();
      assert AsStatements(ds) == [];
    } else {
      var init, d := ds[..|ds| - 1], ds[|ds| - 1];
      assert ds == init + [d] && AsStatements(ds) == AsStatements(init) + [Simple(d)];
      MergedHolds(init);
      MergedAppend(init, d);
      HoldsOneMore(Merged(init), AsStatements(init), d);
    }
  }

  lemma {:induction false} BodyBuilt(ss: seq<Statement>)
    ensures IsServerNode(BodyNode(ss), ss)
    decreases |ss|
  {
    hide Merged;
    hide HoldsDirectives;
    if ss == [] {
      BodyNothing();
      HoldsNothing();
    } else {
      var init, s := ss[..|ss| - 1], ss[|ss| - 1];
      BodyBuilt(init);
      assert ss == init + [s];
      BodyAppend([], init, s);
      match s {
        case Simple(d) => SimpleBuilt(BodyNode(init), init, d);
        case Location(_, _, _, _, _) =>
          MergedHolds(s.body);
          LocationBuilt(BodyNode(init), init, s, LocationNode(s));
      }
      NodeAlone(init, s);
    }
  }

  // What one more statement makes of a server's node.
  lemma NodeAlone(done: seq<Statement>, s: Statement)
    requires AddStatement([] + [BodyNode(done)], s) == [] + [BodyNode(done + [s])]
    ensures AddStatement([BodyNode(done)], s)[0] == BodyNode(done + [s])
  {
    assert [] + [BodyNode(done)] == [BodyNode(done)];
  }

  lemma SimpleBuilt(n: ConfigNode, ss: seq<Statement>, d: Directive)
    requires IsServerNode(n, ss)
    ensures IsServerNode(n.(directives := AddArguments(n.directives, d.name.literal, d.args)), ss + [Simple(d)])
  {
    hide HoldsDirectives;
    HoldsOneMore(n.directives, ss, d);
    OneMore(ss, Simple(d));
  }

  lemma LocationBuilt(n: ConfigNode, ss: seq<Statement>, s: Statement, child: ConfigNode)
    requires IsServerNode(n, ss) && IsLocationNode(child, s)
    ensures IsServerNode(n.(children := n.children + [child]), ss + [s])
  {
    hide HoldsDirectives;
    HoldsPastLocation(n.directives, ss, s);
    OneMore(ss, s);
    assert forall i :: 0 <= i < |ss| ==> (ss + [s])[i] == ss[i];
  }

  lemma {:induction false} NodesBuilt(servers: seq<Server>)
    ensures Built(Nodes(servers), servers)
    decreases |servers|
  {
    hide IsServerNode;
    hide BodyNode;
    if servers != [] {
      NodesBuilt(servers[..|servers| - 1]);
      BodyBuilt(servers[|servers| - 1].body);
    }
  }

  // ------------------------------------------------------------------- places in the nodes

  /** A place for an argument: among a location's own arguments, or among those under a name, of a
      server or of one of its locations. */
  datatype Place =
    | Path(server: nat, child: nat, index: nat)
    | Setting(server: nat, location: Option<nat>, name: string, index: nat)

  function InSequence(ts: seq<Token>, k: nat): Option<Token> {
    if k < |ts| then Some(ts[k]) else None
  }

  function InMap(m: ArgumentMap, name: string, k: nat): Option<Token> {
    if name in m then InSequence(m[name], k) else None
  }

  /** What is at a place, given the node of server `i`. */
  function InNode(n: ConfigNode, i: nat, p: Place): Option<Token> {
    if p.server != i then None
    else
      match p
      case Path(_, c, k) => if c < |n.children| then InSequence(n.children[c].args, k) else None
      case Setting(_, None, name, k) => InMap(n.directives, name, k)
      case Setting(_, Some(c), name, k) =>
        if c < |n.children| then InMap(n.children[c].directives, name, k) else None
  }

  function At(nodes: seq<ConfigNode>, p: Place): Option<Token> {
    if p.server < |nodes| then InNode(nodes[p.server], p.server, p) else None
  }

  type Contents = Place -> Option<Token>

  /** Labels for some tokens: each labelled token is at its place, no two are at one, and every place
      that holds something is the label of a token. */
  ghost predicate Exactly(ls: seq<Option<Place>>, ts: seq<Token>, f: Contents) {
    && |ls| == |ts|
    && (forall t :: 0 <= t < |ls| && ls[t].Some? ==> f(ls[t].value) == Some(ts[t]))
    && (forall t, u :: 0 <= t < u < |ls| && ls[t].Some? ==> ls[t] != ls[u])
    && forall p :: f(p).Some? ==> Some(p) in ls
  }

  /** A value that is not the first of its statement: it comes right after another. */
  predicate FollowsValue(ts: seq<Token>, t: nat)
    requires t < |ts|
  {
    IsValue(ts[t]) && t > 0 && IsValue(ts[t - 1])
  }

  /** The labelled tokens are the values that are not the first of their statement: those after
      another value. The last token is no value. */
  predicate AfterValues(ls: seq<Option<Place>>, ts: seq<Token>) {
    && |ls| == |ts|
    && (forall t :: 0 <= t < |ls| ==> ls[t].Some? == FollowsValue(ts, t))
    && (ts != [] ==> !IsValue(ts[|ts| - 1]))
  }

  ghost predicate Union(f: Contents, g: Contents, h: Contents) {
    forall p :: h(p) == (if g(p).Some? then g(p) else f(p)) && (f(p).None? || g(p).None?)
  }

  lemma {:induction false} ExactlyBoth(
    ls: seq<Option<Place>>, ts: seq<Token>, f: Contents, ms: seq<Option<Place>>, us: seq<Token>, g: Contents,
    h: Contents)
    requires Exactly(ls, ts, f) && Exactly(ms, us, g) && Union(f, g, h)
    ensures Exactly(ls + ms, ts + us, h)
  {
    var all := ls + ms;
    forall t, u | 0 <= t < u < |all| && all[t].Some? ensures all[t] != all[u] {
      if t < |ls| <= u {
        assert f(ls[t].value).Some?;
        assert all[u].Some? ==> g(ms[u - |ls|].value).Some?;
      } else if t >= |ls| {
        assert all[t] == ms[t - |ls|] && all[u] == ms[u - |ls|];
      }
    }
    forall p | h(p).Some? ensures Some(p) in all {
      assert Some(p) in ls || Some(p) in ms;
    }
  }

  lemma {:induction false} AfterValuesBoth(
    ls: seq<Option<Place>>, ts: seq<Token>, ms: seq<Option<Place>>, us: seq<Token>)
    requires AfterValues(ls, ts) && AfterValues(ms, us)
    ensures AfterValues(ls + ms, ts + us)
  {
    hide FollowsValue;
    var all, tokens := ls + ms, ts + us;
    forall t | 0 <= t < |all| ensures all[t].Some? == FollowsValue(tokens, t) {
      FollowsInBoth(ts, us, t);
      if t < |ls| {
        assert all[t] == ls[t];
      } else {
        assert all[t] == ms[t - |ls|];
      }
    }
    assert tokens != [] ==> tokens[|tokens| - 1] == if us != [] then us[|us| - 1] else ts[|ts| - 1];
  }

  lemma FollowsInBoth(ts: seq<Token>, us: seq<Token>, t: nat)
    requires t < |ts + us| && (ts != [] ==> !IsValue(ts[|ts| - 1]))
    ensures FollowsValue(ts + us, t) == if t < |ts| then FollowsValue(ts, t) else FollowsValue(us, t - |ts|)
  {
    var all := ts + us;
    if t >= |ts| {
      assert all[t] == us[t - |ts|] && (t > |ts| ==> all[t - 1] == us[t - |ts| - 1]);
    }
  }

  // ------------------------------------------------------------------------------- labels

  function SettingLabels(i: nat, c: Option<nat>, name: string, from: nat, n: nat): seq<Option<Place>> {
    seq(n, (k: nat) => Some(Setting(i, c, name, from + k)))
  }

  function DirectiveLabels(d: Directive, i: nat, c: Option<nat>, m: ArgumentMap): seq<Option<Place>> {
    var n := d.name.literal;
    [None] + SettingLabels(i, c, n, if n in m then |m[n]| else 0, |d.args|) + [None]
  }

  function DirectivesLabels(ds: seq<Directive>, i: nat, c: nat): seq<Option<Place>> {
    if ds == [] then []
    else
      var init := ds[..|ds| - 1];
      DirectivesLabels(init, i, c) + DirectiveLabels(ds[|ds| - 1], i, Some(c), Merged(init))
  }

  function PathLabels(i: nat, c: nat, n: nat): seq<Option<Place>> {
    seq(n, (k: nat) => Some(Path(i, c, k)))
  }

  /** The labels of a statement that comes after those `n` was built from. */
  function StatementLabels(s: Statement, i: nat, n: ConfigNode): seq<Option<Place>> {
    match s
    case Simple(d) => DirectiveLabels(d, i, None, n.directives)
    case Location(_, args, _, body, _) =>
      var c := |n.children|;
      [None] + PathLabels(i, c, |args|) + [None] + DirectivesLabels(body, i, c) + [None]
  }

  function StatementsLabels(ss: seq<Statement>, i: nat): seq<Option<Place>> {
    if ss == [] then []
    else
      var init := ss[..|ss| - 1];
      StatementsLabels(init, i) + StatementLabels(ss[|ss| - 1], i, BodyNode(init))
  }

  function ServersLabels(servers: seq<Server>): seq<Option<Place>> {
    if servers == [] then []
    else
      var n := |servers| - 1;
      ServersLabels(servers[..n]) + ([None, None] + StatementsLabels(servers[n].body, n) + [None])
  }

  // ------------------------------------------------------------------- directives are placed

  function MapContents(m: ArgumentMap, i: nat, c: Option<nat>): Contents {
    (p: Place) => if p.Setting? && p.server == i && p.location == c then InMap(m, p.name, p.index) else None
  }

  function Added(i: nat, c: Option<nat>, name: string, from: nat, args: seq<Token>): Contents {
    (p: Place) =>
      if p.Setting? && p.server == i && p.location == c && p.name == name && from <= p.index
      then InSequence(args, p.index - from) else None
  }

  // Arguments between two tokens that have no label: argument k is at place(k).
  lemma {:induction false} ArgumentsBetween(
    ls: seq<Option<Place>>, ts: seq<Token>, args: seq<Token>, place: nat -> Place, f: Contents)
    requires |ls| == |ts| == |args| + 2 && ls[0] == ls[|args| + 1] == None
    requires forall k: nat :: k < |args| ==> ls[1 + k] == Some(place(k)) && ts[1 + k] == args[k]
    requires forall k: nat :: k < |args| ==> f(place(k)) == Some(args[k])
    requires forall j: nat, k: nat :: j < k < |args| ==> place(j) != place(k)
    requires forall p :: f(p).Some? ==> exists k: nat :: k < |args| && p == place(k)
    ensures Exactly(ls, ts, f)
  {
    forall t | 0 <= t < |ls| && ls[t].Some?
      ensures 0 < t <= |args| && ls[t] == Some(place(t - 1)) && ts[t] == args[t - 1]
    {
      assert ls[1 + (t - 1)] == ls[t];
    }
    forall p | f(p).Some? ensures Some(p) in ls {
      var k: nat :| k < |args| && p == place(k);
      assert ls[1 + k] == Some(p);
    }
  }

  lemma ArgumentsPlaced(d: Directive, i: nat, c: Option<nat>, m: ArgumentMap)
    ensures var n := d.name.literal;
      Exactly(DirectiveLabels(d, i, c, m), DirectiveTokens(d), Added(i, c, n, if n in m then |m[n]| else 0, d.args))
  {
    hide Exactly;
    var n := d.name.literal;
    var from: nat := if n in m then |m[n]| else 0;
    var ls, ts, f := DirectiveLabels(d, i, c, m), DirectiveTokens(d), Added(i, c, n, from, d.args);
    var place := (k: nat) => Setting(i, c, n, from + k);
    forall p | f(p).Some? ensures exists k: nat :: k < |d.args| && p == place(k) {
      assert p == place(p.index - from);
    }
    ArgumentsBetween(ls, ts, d.args, place, f);
  }

  lemma DirectiveAfterValues(d: Directive, i: nat, c: Option<nat>, m: ArgumentMap)
    requires IsDirective(d)
    ensures AfterValues(DirectiveLabels(d, i, c, m), DirectiveTokens(d))
  {
    AllLabelled(DirectiveLabels(d, i, c, m), DirectiveTokens(d), d.args);
  }

  // Values after a value, and then something else.
  lemma {:induction false} AllLabelled(ls: seq<Option<Place>>, ts: seq<Token>, args: seq<Token>)
    requires |ls| == |args| + 2 && ls[0] == ls[|args| + 1] == None && forall k :: 1 <= k <= |args| ==> ls[k].Some?
    requires |ts| == |ls| && ts[1..|args| + 1] == args && AllValues(args)
    requires IsValue(ts[0]) && !IsValue(ts[|args| + 1])
    ensures AfterValues(ls, ts)
  {
    forall t | 0 <= t < |ls| ensures ls[t].Some? == FollowsValue(ts, t) {
      if 1 <= t <= |args| {
        assert ts[t] == args[t - 1];
        assert t > 1 ==> ts[t - 1] == args[t - 2];
      }
    }
  }

  lemma AddedUnion(d: Directive, i: nat, c: Option<nat>, m: ArgumentMap)
    ensures var n := d.name.literal;
      Union(MapContents(m, i, c), Added(i, c, n, if n in m then |m[n]| else 0, d.args),
            MapContents(AddArguments(m, n, d.args), i, c))
  {
  }

  lemma {:induction false} DirectivesTokensAppend(ds: seq<Directive>, d: Directive)
    ensures DirectivesTokens(ds + [d]) == DirectivesTokens(ds) + DirectiveTokens(d)
    decreases |ds|
  {
    hide DirectiveTokens;
    if ds == [] {
      assert ([] + [d])[1..] == [] && [] + [d] == [d];
    } else {
      assert (ds + [d])[1..] == ds[1..] + [d];
      DirectivesTokensAppend(ds[1..], d);
    }
  }

  lemma {:induction false} DirectivesPlaced(ds: seq<Directive>, i: nat, c: nat)
    requires AreDirectives(ds)
    ensures Exactly(DirectivesLabels(ds, i, c), DirectivesTokens(ds), MapContents(Merged(ds), i, Some(c)))
    ensures AfterValues(DirectivesLabels(ds, i, c), DirectivesTokens(ds))
    decreases |ds|
  {
    hide Merged;
    hide Exactly;
    hide Union;
    hide AfterValues;
    hide IsDirective;
    hide DirectiveLabels;
    hide DirectiveTokens;
    hide MapContents;
    hide Added;
    if ds == [] {
      MergedNothing();
      NothingPlaced(i, c);
    } else {
      var init, d := ds[..|ds| - 1], ds[|ds| - 1];
      var n := d.name.literal;
      assert ds == init + [d];
      DirectivesPlaced(init, i, c);
      DirectivesTokensAppend(init, d);
      MergedAppend(init, d);
      var m := Merged(init);
      ArgumentsPlaced(d, i, Some(c), m);
      AddedUnion(d, i, Some(c), m);
      ExactlyBoth(DirectivesLabels(init, i, c), DirectivesTokens(init), MapContents(m, i, Some(c)),
                  DirectiveLabels(d, i, Some(c), m), DirectiveTokens(d),
                  Added(i, Some(c), n, if n in m then |m[n]| else 0, d.args),
                  MapContents(Merged(ds), i, Some(c)));
      DirectiveAfterValues(d, i, Some(c), m);
      AfterValuesBoth(DirectivesLabels(init, i, c), DirectivesTokens(init),
                      DirectiveLabels(d, i, Some(c), m), DirectiveTokens(d));
    }
  }

  lemma NothingPlaced(i: nat, c: nat)
    ensures Exactly([], [], MapContents(map[], i, Some(c))) && AfterValues([], [])
  {
  }

  // -------------------------------------------------------- statements and servers are placed

  function Nowhere(): Contents {
    (p: Place) => None
  }

  function NodeContents(n: ConfigNode, i: nat): Contents {
    (p: Place) => InNode(n, i, p)
  }

  function NodesContents(nodes: seq<ConfigNode>): Contents {
    (p: Place) => At(nodes, p)
  }

  function PathContents(i: nat, c: nat, args: seq<Token>): Contents {
    (p: Place) => if p.Path? && p.server == i && p.child == c then InSequence(args, p.index) else None
  }

  /** What is at a place, given the node of location `c` of server `i`. */
  function InChild(n: ConfigNode, i: nat, c: nat, p: Place): Option<Token> {
    if p.server != i then None
    else
      match p
      case Path(_, d, k) => if d == c then InSequence(n.args, k) else None
      case Setting(_, d, name, k) => if d == Some(c) then InMap(n.directives, name, k) else None
  }

  function ChildContents(i: nat, c: nat, n: ConfigNode): Contents {
    (p: Place) => InChild(n, i, c, p)
  }

  // The keyword of a location is a value, as it is when the lexer made it.
  predicate PlainStatement(s: Statement) {
    IsStatement(s) && (s.Location? ==> IsValue(s.keyword))
  }

  predicate PlainStatements(ss: seq<Statement>) {
    forall i :: 0 <= i < |ss| ==> PlainStatement(ss[i])
  }

  predicate PlainServers(servers: seq<Server>) {
    forall i :: 0 <= i < |servers| ==> IsServer(servers[i]) && PlainStatements(servers[i].body)
  }

  function Unlabelled(n: nat): seq<Option<Place>> {
    if n == 0 then [] else [None] + Unlabelled(n - 1)
  }

  lemma {:induction false} NoLabels(ts: seq<Token>)
    requires |ts| <= 2 && (ts != [] ==> !IsValue(ts[|ts| - 1]))
    ensures var ls := Unlabelled(|ts|); Exactly(ls, ts, Nowhere()) && AfterValues(ls, ts)
  {
  }

  lemma NothingAdded(f: Contents)
    ensures Union(f, Nowhere(), f) && Union(Nowhere(), f, f)
  {
  }

  // Tokens without labels before and after make no difference.
  lemma {:induction false} Enclosed(
    ls: seq<Option<Place>>, ts: seq<Token>, f: Contents, before: seq<Token>, close: Token)
    requires Exactly(ls, ts, f) && AfterValues(ls, ts)
    requires |before| <= 2 && (before != [] ==> !IsValue(before[|before| - 1])) && !IsValue(close)
    ensures var all := Unlabelled(|before|) + ls + [None];
      Exactly(all, before + ts + [close], f) && AfterValues(all, before + ts + [close])
  {
    hide Exactly;
    hide AfterValues;
    hide Union;
    NoLabels(before);
    NoLabels([close]);
    NothingAdded(f);
    var none := Unlabelled(|before|);
        ExactlyBoth(none, before, Nowhere(), ls, ts, f, f);
    ExactlyBoth(none + ls, before + ts, f, [None], [close], Nowhere(), f);
    assert Unlabelled(1) == [None] + Unlabelled(0) == [None];
    AfterValuesBoth(none, before, ls, ts);
    AfterValuesBoth(none + ls, before + ts, [None], [close]);
  }

  lemma PathPlaced(keyword: Token, args: seq<Token>, open: Token, i: nat, c: nat)
    requires IsValue(keyword) && AllValues(args) && !IsValue(open)
    ensures var ls := [None] + PathLabels(i, c, |args|) + [None];
      && Exactly(ls, [keyword] + args + [open], PathContents(i, c, args))
      && AfterValues(ls, [keyword] + args + [open])
  {
    hide Exactly;
    hide AfterValues;
    var ls, ts, f := [None] + PathLabels(i, c, |args|) + [None], [keyword] + args + [open], PathContents(i, c, args);
    var place := (k: nat) => Path(i, c, k);
    forall p | f(p).Some? ensures exists k: nat :: k < |args| && p == place(k) {
      assert p == place(p.index);
    }
    ArgumentsBetween(ls, ts, args, place, f);
    AllLabelled(ls, ts, args);
  }

  lemma LocationPlaced(s: Statement, i: nat, n: ConfigNode)
    requires s.Location? && PlainStatement(s)
    ensures Exactly(StatementLabels(s, i, n), StatementTokens(s), ChildContents(i, |n.children|, LocationNode(s)))
    ensures AfterValues(StatementLabels(s, i, n), StatementTokens(s))
  {
    hide Exactly;
    hide AfterValues;
    hide Union;
    hide Merged;
    hide AllValues;
    hide AreDirectives;
    var c := |n.children|;
    var f, g := PathContents(i, c, s.args), MapContents(Merged(s.body), i, Some(c));
    var h := ChildContents(i, c, LocationNode(s));
    var ls, ms := [None] + PathLabels(i, c, |s.args|) + [None], DirectivesLabels(s.body, i, c);
    var ts, us := [s.keyword] + s.args + [s.open], DirectivesTokens(s.body);
    PathPlaced(s.keyword, s.args, s.open, i, c);
    DirectivesPlaced(s.body, i, c);
    ChildUnion(i, c, LocationNode(s));
    ExactlyBoth(ls, ts, f, ms, us, g, h);
    AfterValuesBoth(ls, ts, ms, us);
    Enclosed(ls + ms, ts + us, h, [], s.close);
    assert Unlabelled(0) + (ls + ms) + [None] == StatementLabels(s, i, n);
    assert [] + (ts + us) + [s.close] == StatementTokens(s);
  }

  lemma ChildUnion(i: nat, c: nat, n: ConfigNode)
    ensures Union(PathContents(i, c, n.args), MapContents(n.directives, i, Some(c)), ChildContents(i, c, n))
  {
  }

  lemma ChildAdded(n: ConfigNode, i: nat, child: ConfigNode)
    ensures Union(NodeContents(n, i), ChildContents(i, |n.children|, child),
                  NodeContents(n.(children := n.children + [child]), i))
  {
    var n' := n.(children := n.children + [child]);
    assert n'.children[|n.children|] == child;
    assert forall c :: 0 <= c < |n.children| ==> n'.children[c] == n.children[c];
    forall p: Place
      ensures var f, g := InNode(n, i, p), InChild(child, i, |n.children|, p);
        InNode(n', i, p) == (if g.Some? then g else f) && (f.None? || g.None?)
    {
      match p
      case Path(_, _, _) =>
      case Setting(_, None, _, _) =>
      case Setting(_, Some(_), _, _) =>
    }
  }

  lemma DirectiveAdded(n: ConfigNode, i: nat, d: Directive)
    ensures var name := d.name.literal;
      Union(NodeContents(n, i), Added(i, None, name, if name in n.directives then |n.directives[name]| else 0, d.args),
            NodeContents(n.(directives := AddArguments(n.directives, name, d.args)), i))
  {
  }

  lemma NodeAdded(nodes: seq<ConfigNode>, n: ConfigNode)
    ensures Union(NodesContents(nodes), NodeContents(n, |nodes|), NodesContents(nodes + [n]))
  {
  }

  lemma {:induction false} StatementsTokensAppend(ss: seq<Statement>, s: Statement)
    ensures StatementsTokens(ss + [s]) == StatementsTokens(ss) + StatementTokens(s)
    decreases |ss|
  {
    hide StatementTokens;
    if ss == [] {
      assert ([] + [s])[1..] == [] && [] + [s] == [s];
    } else {
      assert (ss + [s])[1..] == ss[1..] + [s];
      StatementsTokensAppend(ss[1..], s);
    }
  }

  lemma {:induction false} ServersTokensAppend(ss: seq<Server>, s: Server)
    ensures ServersTokens(ss + [s]) == ServersTokens(ss) + ServerTokens(s)
    decreases |ss|
  {
    hide ServerTokens;
    if ss == [] {
      assert ([] + [s])[1..] == [] && [] + [s] == [s];
    } else {
      assert (ss + [s])[1..] == ss[1..] + [s];
      ServersTokensAppend(ss[1..], s);
    }
  }

  lemma {:induction false} StatementsPlaced(ss: seq<Statement>, i: nat)
    requires PlainStatements(ss)
    ensures Exactly(StatementsLabels(ss, i), StatementsTokens(ss), NodeContents(BodyNode(ss), i))
    ensures AfterValues(StatementsLabels(ss, i), StatementsTokens(ss))
    decreases |ss|
  {
    hide Exactly;
    hide AfterValues;
    hide Union;
    hide BodyNode;
    hide PlainStatement;
    hide StatementLabels;
    hide StatementTokens;
    hide NodeContents;
    if ss == [] {
      EmptyBodyPlaced(i);
    } else {
      var init, s := ss[..|ss| - 1], ss[|ss| - 1];
      var n := BodyNode(init);
      assert ss == init + [s];
      StatementsPlaced(init, i);
      StatementsTokensAppend(init, s);
      var added := StatementPlaced(init, s, i);
      ExactlyBoth(StatementsLabels(init, i), StatementsTokens(init), NodeContents(n, i),
                  StatementLabels(s, i, n), StatementTokens(s), added, NodeContents(BodyNode(ss), i));
      AfterValuesBoth(StatementsLabels(init, i), StatementsTokens(init), StatementLabels(s, i, n), StatementTokens(s));
    }
  }

  lemma EmptyBodyPlaced(i: nat)
    ensures Exactly([], [], NodeContents(BodyNode([]), i)) && AfterValues([], [])
  {
    BodyNothing();
  }

  // One statement's tokens are placed where it changes the node.
  lemma StatementPlaced(init: seq<Statement>, s: Statement, i: nat) returns (added: Contents)
    requires PlainStatement(s)
    ensures var n := BodyNode(init);
      && Exactly(StatementLabels(s, i, n), StatementTokens(s), added)
      && AfterValues(StatementLabels(s, i, n), StatementTokens(s))
      && Union(NodeContents(n, i), added, NodeContents(BodyNode(init + [s]), i))
  {
    hide Exactly;
    hide AfterValues;
    hide Union;
    hide BodyNode;
    hide NodeContents;
    hide Merged;
    var n := BodyNode(init);
    BodyAppend([], init, s);
    NodeAlone(init, s);
    match s {
      case Simple(d) =>
        var name := d.name.literal;
        added := Added(i, None, name, if name in n.directives then |n.directives[name]| else 0, d.args);
        ArgumentsPlaced(d, i, None, n.directives);
        DirectiveAfterValues(d, i, None, n.directives);
        DirectiveAdded(n, i, d);
      case Location(_, _, _, _, _) =>
        added := ChildContents(i, |n.children|, LocationNode(s));
        LocationPlaced(s, i, n);
        ChildAdded(n, i, LocationNode(s));
    }
  }

  lemma {:induction false} ServersPlaced(servers: seq<Server>)
    requires PlainServers(servers)
    ensures Exactly(ServersLabels(servers), ServersTokens(servers), NodesContents(Nodes(servers)))
    ensures AfterValues(ServersLabels(servers), ServersTokens(servers))
    decreases |servers|
  {
    hide Exactly;
    hide AfterValues;
    hide Union;
    hide BodyNode;
    hide PlainStatements;
    hide IsServer;
    hide NodeContents;
    hide NodesContents;
    hide StatementsLabels;
    hide StatementsTokens;
    if servers == [] {
      NoNodesPlaced();
    } else {
      var n := |servers| - 1;
      var init, s := servers[..n], servers[n];
      assert servers == init + [s];
      ServersPlaced(init);
      ServersTokensAppend(init, s);
      ServerPlaced(s, n);
      NodesCount(init);
      NodeAdded(Nodes(init), BodyNode(s.body));
      var labels := [None, None] + StatementsLabels(s.body, n) + [None];
      ExactlyBoth(ServersLabels(init), ServersTokens(init), NodesContents(Nodes(init)),
                  labels, ServerTokens(s), NodeContents(BodyNode(s.body), n), NodesContents(Nodes(servers)));
      AfterValuesBoth(ServersLabels(init), ServersTokens(init), labels, ServerTokens(s));
    }
  }

  lemma NoNodesPlaced()
    ensures Exactly([], [], NodesContents([])) && AfterValues([], [])
  {
  }

  lemma {:induction false} NodesCount(servers: seq<Server>)
    ensures |Nodes(servers)| == |servers|
    decreases |servers|
  {
    if servers != [] {
      NodesCount(servers[..|servers| - 1]);
    }
  }

  lemma ServerPlaced(s: Server, i: nat)
    requires IsServer(s) && PlainStatements(s.body)
    ensures var labels := [None, None] + StatementsLabels(s.body, i) + [None];
      && Exactly(labels, ServerTokens(s), NodeContents(BodyNode(s.body), i))
      && AfterValues(labels, ServerTokens(s))
  {
    hide Exactly;
    hide AfterValues;
    hide BodyNode;
    hide StatementsTokens;
    hide StatementsLabels;
    hide NodeContents;
    hide AreStatements;
    StatementsPlaced(s.body, i);
    Enclosed(StatementsLabels(s.body, i), StatementsTokens(s.body), NodeContents(BodyNode(s.body), i),
             [s.keyword, s.open], s.close);
    assert Unlabelled(2) == [None] + Unlabelled(1) == [None, None];
  }

  // ----------------------------------------------------------------------------- the front end

  /** Where each token of a text is put in the nodes: every value other than the first of its statement
      is at one place, no two are at one, and no place holds anything else. */
  ghost predicate PlacedBy(ls: seq<Option<Place>>, ts: seq<Token>, nodes: seq<ConfigNode>) {
    && |ls| == |ts|
    && (forall t :: 0 <= t < |ls| ==> ls[t].Some? == FollowsValue(ts, t))
    && (forall t :: 0 <= t < |ls| && ls[t].Some? ==> At(nodes, ls[t].value) == Some(ts[t]))
    && (forall t, u :: 0 <= t < u < |ls| && ls[t].Some? ==> ls[t] != ls[u])
    && forall p :: At(nodes, p).Some? ==> Some(p) in ls
  }

  ghost predicate Placed(ts: seq<Token>, nodes: seq<ConfigNode>) {
    exists ls :: PlacedBy(ls, ts, nodes)
  }

  /** A text is written for a syntax tree. */
  ghost predicate Derives(content: string, servers: seq<Server>) {
    AreServers(servers) && Lex(content) == ServersTokens(servers) + [EOF]
  }

  lemma NodesPlaced(servers: seq<Server>)
    requires PlainServers(servers)
    ensures Placed(ServersTokens(servers) + [EOF], Nodes(servers))
  {
    hide IsServer;
    hide PlainStatements;
    hide Exactly;
    hide AfterValues;
    hide PlacedBy;
    var ls, ts, f := ServersLabels(servers), ServersTokens(servers), NodesContents(Nodes(servers));
    ServersPlaced(servers);
    Enclosed(ls, ts, f, [], EOF);
    assert [] + ts + [EOF] == ts + [EOF];
    PlacedWhenExactly(Unlabelled(0) + ls + [None], ts + [EOF], Nodes(servers));
  }

  lemma PlacedWhenExactly(ls: seq<Option<Place>>, ts: seq<Token>, nodes: seq<ConfigNode>)
    requires Exactly(ls, ts, NodesContents(nodes)) && AfterValues(ls, ts)
    ensures PlacedBy(ls, ts, nodes)
  {
    var f := NodesContents(nodes);
    assert forall p :: f(p) == At(nodes, p);
  }

  // A token that the lexer made is a value, if its characters are a keyword's.
  lemma KeywordIsValue(s: string, t: Token)
    requires t in Lex(s) && t.literal == "location"
    ensures IsValue(t)
  {
    hide Lex;
    LexGivesLexerOutput(s);
    var ts := Lex(s);
    var k :| 0 <= k < |ts| && ts[k] == t;
    assert "location" != "" && |"location"| > 1;
  }

  lemma {:induction false} KeywordIn(ss: seq<Statement>, i: nat)
    requires i < |ss| && ss[i].Location?
    ensures ss[i].keyword in StatementsTokens(ss)
    decreases i
  {
    hide StatementTokens;
    var first := StatementTokens(ss[0]);
    assert StatementsTokens(ss) == first + StatementsTokens(ss[1..]);
    if i == 0 {
      KeywordFirst(ss[0]);
    } else {
      KeywordIn(ss[1..], i - 1);
    }
  }

  lemma KeywordFirst(s: Statement)
    requires s.Location?
    ensures s.keyword in StatementTokens(s)
  {
    assert StatementTokens(s)[0] == s.keyword;
  }

  lemma {:induction false} ServerIn(servers: seq<Server>, i: nat, t: Token)
    requires i < |servers| && t in ServerTokens(servers[i])
    ensures t in ServersTokens(servers)
    decreases i
  {
    hide ServerTokens;
    if i > 0 {
      ServerIn(servers[1..], i - 1, t);
    }
  }

  lemma DerivedIsPlain(content: string, servers: seq<Server>)
    requires Derives(content, servers)
    ensures PlainServers(servers)
  {
    hide Lex;
    hide IsServer;
    hide IsStatement;
    forall i, j | 0 <= i < |servers| && 0 <= j < |servers[i].body|
      ensures PlainStatement(servers[i].body[j])
    {
      var s := servers[i].body[j];
      PlainWhenValue(servers[i], j);
      if s.Location? {
        KeywordIn(servers[i].body, j);
        assert s.keyword in ServerTokens(servers[i]);
        ServerIn(servers, i, s.keyword);
        assert s.keyword in Lex(content);
        KeywordIsValue(content, s.keyword);
      }
    }
  }

  lemma PlainWhenValue(s: Server, j: nat)
    requires IsServer(s) && j < |s.body|
    ensures IsStatement(s.body[j]) && (s.body[j].Location? ==> s.body[j].keyword.literal == "location")
  {
  }

  /** The front end: lexing, then parsing. It accepts exactly the texts that are written for some syntax
      tree, and then the nodes are built from that tree and hold every argument of the text. */
  method Load(content: string) returns (ok: bool, nodes: seq<ConfigNode>)
    ensures ok <==> exists servers :: Derives(content, servers)
    ensures ok ==> exists servers :: Derives(content, servers) && Built(nodes, servers)
    ensures ok ==> Placed(Lex(content), nodes)
  {
    hide ParseServers;
    hide Lex;
    hide Built;
    hide Placed;
    var tokens := Tokenize(content);
    LexGivesLexerOutput(content);
    assert EndsOnce(tokens);
    var parser := new Parser(tokens);
    ok := parser.HandleServerBlock();
    nodes := parser.nodes;
    LoadsExactlyDerivable(content);
    if ok {
      var servers := ParseServers(tokens).value;
      ServersSound(tokens);
      NodesBuilt(servers);
      DerivedIsPlain(content, servers);
      NodesPlaced(servers);
    }
  }

  /** A text is written for one syntax tree at most. */
  lemma DerivesOne(content: string, one: seq<Server>, other: seq<Server>)
    requires Derives(content, one) && Derives(content, other)
    ensures one == other
  {
    hide Lex;
    LexGivesLexerOutput(content);
    ParsesExactlyDerivable(Lex(content), one);
    ParsesExactlyDerivable(Lex(content), other);
  }

  /** Configuration round trip: however the tokens of a syntax tree are laid out in a text, with any
      blanks and comments and with values quoted or bare, the text is written for that tree and no
      other. */
  lemma ConfigRoundTrip(servers: seq<Server>, l: Layout)
    requires AreServers(servers) && l.Valid() && l.Tokens() == ServersTokens(servers) + [EOF]
    ensures Derives(l.Text(), servers) && forall other :: Derives(l.Text(), other) ==> other == servers
  {
    hide Lex;
    LexesLayout(l);
    forall other | Derives(l.Text(), other) ensures other == servers {
      DerivesOne(l.Text(), servers, other);
    }
  }

  /** The front end accepts a text exactly when its tokens derive from the grammar. */
  lemma LoadsExactlyDerivable(content: string)
    ensures ParseServers(Lex(content)).Some? <==> exists servers :: Derives(content, servers)
  {
    hide Lex;
    LexGivesLexerOutput(content);
    var ts := Lex(content);
    if ParseServers(ts).Some? {
      ServersSound(ts);
      assert Derives(content, ParseServers(ts).value);
    }
    if servers :| Derives(content, servers) {
      ServersComplete(servers);
    }
  }

  // ------------------------------------------------------------- configurations as plain words

  /** A directive: its name and its arguments. */
  datatype Entry = Entry(name: string, args: seq<string>)

  /** A statement of a server: a directive, or a location with its arguments and directives. */
  datatype Clause = Directly(entry: Entry) | Within(args: seq<string>, entries: seq<Entry>)

  function Words(ws: seq<string>): seq<Token> {
    seq(|ws|, i requires 0 <= i < |ws| => WrittenValue(ws[i]))
  }

  function EntryTree(e: Entry): Directive {
    Directive(WrittenValue(e.name), Words(e.args), Token(";", SEMICOLON))
  }

  function EntriesTree(es: seq<Entry>): seq<Directive> {
    seq(|es|, i requires 0 <= i < |es| => EntryTree(es[i]))
  }

  function ClauseTree(c: Clause): Statement {
    match c
    case Directly(e) => Simple(EntryTree(e))
    case Within(args, entries) =>
      Location(WrittenValue("location"), Words(args), Token("{", LEFT_BRACE), EntriesTree(entries),
               Token("}", RIGHT_BRACE))
  }

  function ClausesTree(cs: seq<Clause>): seq<Statement> {
    seq(|cs|, i requires 0 <= i < |cs| => ClauseTree(cs[i]))
  }

  function ServerTree(cs: seq<Clause>): Server {
    Server(WrittenValue("server"), Token("{", LEFT_BRACE), ClausesTree(cs), Token("}", RIGHT_BRACE))
  }

  function ConfigTree(config: seq<seq<Clause>>): seq<Server> {
    seq(|config|, i requires 0 <= i < |config| => ServerTree(config[i]))
  }

  /** A location has an argument, and no directive has its name. */
  predicate Writable(c: Clause) {
    match c
    case Directly(e) => e.name != "location"
    case Within(args, _) => args != []
  }

  predicate AllWritable(config: seq<seq<Clause>>) {
    forall i, j :: 0 <= i < |config| && 0 <= j < |config[i]| ==> Writable(config[i][j])
  }

  /** Any words at all, as names and arguments, make a syntax tree. */
  lemma WordsDerive(config: seq<seq<Clause>>)
    requires AllWritable(config)
    ensures AreServers(ConfigTree(config))
  {
    forall i | 0 <= i < |config| ensures IsServer(ConfigTree(config)[i]) {
      forall j | 0 <= j < |config[i]| ensures IsStatement(ClausesTree(config[i])[j]) {
        WordsStatement(config[i][j]);
      }
    }
  }

  lemma WordsStatement(c: Clause)
    requires Writable(c)
    ensures IsStatement(ClauseTree(c))
  {
  }

  /** From plain words to nodes: however a configuration is laid out in a text, with any blanks and
      comments and with its words quoted or bare, loading the text succeeds, and the nodes are built
      from it alone. */
  lemma WrittenConfigLoads(config: seq<seq<Clause>>, l: Layout)
    requires AllWritable(config) && l.Valid() && l.Tokens() == ServersTokens(ConfigTree(config)) + [EOF]
    ensures Derives(l.Text(), ConfigTree(config))
    ensures forall other :: Derives(l.Text(), other) ==> other == ConfigTree(config)
  {
    WordsDerive(config);
    ConfigRoundTrip(ConfigTree(config), l);
  }
}
