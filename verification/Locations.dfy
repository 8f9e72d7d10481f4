/** Choosing the location block for a request. */
module Locations {
  import opened Base

  datatype MatchType = PREFIX | EXTENSION

  datatype LocationBlock = LocationBlock(path: string, matchType: MatchType, extension: string)

  type LocationMap = map<string, LocationBlock>

  // -------------------------------------------------------------------- the prefix choice

  /** A key that names a directory on the way to the path. */
  predicate SlashPrefix(key: string, path: string) {
    key != "" && key[|key| - 1] == '/' && key <= path
  }

  predicate TrySlash(ls: LocationMap, path: string) {
    path != "" && path[|path| - 1] != '/' && path + "/" in ls
  }

  /** The choice over all configured keys: the path itself, else the path with a slash, else
      the longest directory key that is a prefix of it, else the root, else none. */
  ghost predicate BestKey(ls: LocationMap, path: string, r: Option<string>) {
    if path in ls then r == Some(path)
    else if TrySlash(ls, path) then r == Some(path + "/")
    else if exists k :: k in ls && SlashPrefix(k, path) then
      && r.Some? && r.value in ls && SlashPrefix(r.value, path)
      && forall k :: k in ls && SlashPrefix(k, path) ==> |k| <= |r.value|
    else if "/" in ls then r == Some("/")
    else r == None
  }

  function Under(ls: LocationMap, key: Option<string>): Option<LocationBlock> {
    if key.Some? && key.value in ls then Some(ls[key.value]) else None
  }

  /** The location under the chosen key, which is a configured one whenever there is a choice. */
  ghost predicate BestChoice(ls: LocationMap, path: string, r: Option<LocationBlock>) {
    exists key: Option<string> :: BestKey(ls, path, key) && (key.Some? ==> key.value in ls) && r == Under(ls, key)
  }

  /** There is only one such choice. */
  lemma BestKeyUnique(ls: LocationMap, path: string, r1: Option<string>, r2: Option<string>)
    requires BestKey(ls, path, r1) && BestKey(ls, path, r2)
    ensures r1 == r2
  {
    if path !in ls && !TrySlash(ls, path) && exists k :: k in ls && SlashPrefix(k, path) {
      assert |r1.value| == |r2.value|;
      assert r1.value == path[..|r1.value|] == r2.value;
    }
  }

  /** How well a key suits a path: the path itself best, then the path with a slash, then a directory on
      the way to it by its length, then the root; below zero, not at all. */
  function Rank(key: string, path: string): int {
    if key == path then |path| + 2
    else if path != "" && path[|path| - 1] != '/' && key == path + "/" then |path| + 1
    else if key != "" && key[|key| - 1] == '/' && key <= path then |key|
    else if key == "/" then 0
    else -1
  }

  /** The choice is the key that suits the path best of all those configured, and none exactly when none
      suits it. */
  lemma BestKeyRanksHighest(ls: LocationMap, path: string, r: Option<string>)
    ensures BestKey(ls, path, r) <==>
      match r
      case Some(key) => key in ls && Rank(key, path) >= 0 && forall k :: k in ls ==> Rank(k, path) <= Rank(key, path)
      case None => forall k :: k in ls ==> Rank(k, path) < 0
  {
    RankCases(path);
    if r.Some? && r.value in ls && path !in ls && !TrySlash(ls, path) {
      forall k | k in ls && SlashPrefix(k, path) && SlashPrefix(r.value, path)
        ensures Rank(k, path) == |k| && Rank(r.value, path) == |r.value|
      {
      }
    }
  }

  lemma RankCases(path: string)
    ensures Rank(path, path) == |path| + 2
    ensures forall k :: k != path && SlashPrefix(k, path) ==> Rank(k, path) == |k| < |path|
    ensures path != "" && path[|path| - 1] != '/' ==> Rank(path + "/", path) == |path| + 1
    ensures !SlashPrefix("/", path) && path != "/" && path != "" ==> Rank("/", path) == 0
  {
  }

  /** `rfind`: the last occurrence at or before a position, which may lie past the end. */
  method RFind(s: string, c: char, from: nat) returns (r: Option<nat>)
    ensures r.Some? ==> r.value < |s| && r.value <= from && s[r.value] == c
    ensures r.Some? ==> forall k :: r.value < k < |s| && k <= from ==> s[k] != c
    ensures r.None? ==> forall k :: 0 <= k < |s| && k <= from ==> s[k] != c
  {
    var i := if from < |s| then from + 1 else |s|;
    while i > 0
      invariant 0 <= i <= |s|
      invariant forall k :: i <= k < |s| && k <= from ==> s[k] != c
    {
      i := i - 1;
      if s[i] == c {
        return Some(i);
      }
    }
    r := None;
  }

  lemma SlashPrefixFacts(key: string, path: string, n: nat)
    requires SlashPrefix(key, path) && n <= |path|
    ensures |key| <= n ==> SlashPrefix(key, path[..n])
    ensures path[|key| - 1] == '/' && key == path[..|key|]
  {
  }

  /** The search by shortening the path gives that choice. */
  method BestMatchLocation(ls: LocationMap, path: string) returns (r: Option<LocationBlock>)
    requires |path| < SIZE_LIMIT
    ensures BestChoice(ls, path, r)
  {
    if |ls| == 0 {
      assert BestKey(ls, path, None);
      return None;
    }
    if path in ls {
      assert BestKey(ls, path, Some(path));
      return Some(ls[path]);
    }
    if path != "" && path[|path| - 1] != '/' {
      if path + "/" in ls {
        assert BestKey(ls, path, Some(path + "/"));
        return Some(ls[path + "/"]);
      }
    }
    var currentPath := path;
    while currentPath != ""
      invariant currentPath <= path
      invariant forall k :: k in ls && SlashPrefix(k, path) ==> |k| <= |currentPath|
      invariant currentPath == path || SlashPrefix(currentPath, path)
      decreases |currentPath|
    {
      if currentPath in ls {
        assert BestKey(ls, path, Some(currentPath));
        return Some(ls[currentPath]);
      }
      NoKeyHere(ls, path, currentPath);
      if currentPath == "/" {
        break;
      }
      var pos := RFind(currentPath, '/', SubSize(|currentPath|, 2));
      if pos.None? {
        NoneShorter(ls, path, currentPath);
        break;
      }
      Shorten(ls, path, currentPath, pos.value);
      currentPath := currentPath[..pos.value + 1];
    }
    if "/" in ls {
      assert BestKey(ls, path, Some("/"));
      return Some(ls["/"]);
    }
    assert BestKey(ls, path, None);
    return None;
  }

  lemma NoKeyHere(ls: LocationMap, path: string, current: string)
    requires current <= path && current !in ls
    requires forall k :: k in ls && SlashPrefix(k, path) ==> |k| <= |current|
    ensures forall k :: k in ls && SlashPrefix(k, path) ==> |k| < |current|
  {
    assert current == path[..|current|];
    assert forall k :: k in ls && SlashPrefix(k, path) ==> k == path[..|k|];
  }

  // The next shorter directory: no directory key lies between.
  lemma Shorten(ls: LocationMap, path: string, current: string, pos: nat)
    requires current <= path && current != "" && current != "/" && |path| < SIZE_LIMIT
    requires forall k :: k in ls && SlashPrefix(k, path) ==> |k| < |current|
    requires pos < |current| && pos <= SubSize(|current|, 2) && current[pos] == '/'
    requires forall k :: pos < k < |current| && k <= SubSize(|current|, 2) ==> current[k] != '/'
    ensures pos + 1 < |current| && SlashPrefix(current[..pos + 1], path)
    ensures forall k :: k in ls && SlashPrefix(k, path) ==> |k| <= pos + 1
  {
    assert current != ['/'];
    assert |current| >= 2;
    assert SubSize(|current|, 2) == |current| - 2;
    forall k | k in ls && SlashPrefix(k, path)
      ensures |k| <= pos + 1
    {
      SlashPrefixFacts(k, path, |current|);
      assert current[|k| - 1] == path[|k| - 1];
    }
  }

  lemma NoneShorter(ls: LocationMap, path: string, current: string)
    requires current <= path && current != "" && |path| < SIZE_LIMIT
    requires forall k :: k in ls && SlashPrefix(k, path) ==> |k| < |current|
    requires forall k :: 0 <= k < |current| && k <= SubSize(|current|, 2) ==> current[k] != '/'
    ensures forall k :: k in ls ==> !SlashPrefix(k, path)
  {
    assert forall i :: 0 <= i < |current| ==> current[i] == path[i];
    forall k | k in ls
      ensures !SlashPrefix(k, path)
    {
      if SlashPrefix(k, path) {
        SlashPrefixFacts(k, path, |current|);
        assert false;
      }
    }
  }

  // ------------------------------------------------------------------- the extension choice

  predicate EndsWith(s: string, suffix: string) {
    |suffix| <= |s| && s[|s| - |suffix|..] == suffix
  }

  lemma EndsWithMeans(s: string, suffix: string)
    ensures EndsWith(s, suffix) <==> exists front :: s == front + suffix
  {
    if EndsWith(s, suffix) {
      assert s == s[..|s| - |suffix|] + suffix;
    }
    if front :| s == front + suffix {
      assert s[|front|..] == suffix;
    }
  }

  predicate ExtensionMatches(ls: LocationMap, path: string, uri: string) {
    path in ls && EndsWith(uri, ls[path].extension)
  }

  ghost predicate FirstMatch(ls: LocationMap, paths: seq<string>, uri: string, i: nat) {
    && i < |paths| && ExtensionMatches(ls, paths[i], uri)
    && forall j :: 0 <= j < i ==> !ExtensionMatches(ls, paths[j], uri)
  }

  /** The first listed path whose location's extension ends the URI. */
  method MatchExtensionLocation(ls: LocationMap, paths: seq<string>, uri: string) returns (r: Option<LocationBlock>)
    ensures match r
            case Some(b) => exists i: nat :: FirstMatch(ls, paths, uri, i) && b == ls[paths[i]]
            case None => forall i :: 0 <= i < |paths| ==> !ExtensionMatches(ls, paths[i], uri)
  {
    for i := 0 to |paths|
      invariant forall k :: 0 <= k < i ==> !ExtensionMatches(ls, paths[k], uri)
    {
      if paths[i] !in ls {
        continue;
      }
      var extension := ls[paths[i]].extension;
      if |uri| >= |extension| && uri[|uri| - |extension|..] == extension {
        assert FirstMatch(ls, paths, uri, i);
        return Some(ls[paths[i]]);
      }
    }
    return None;
  }

  // ------------------------------------------------------------------------ the server block

  predicate IsExtension(ls: LocationMap, path: string) {
    path in ls && ls[path].matchType == EXTENSION
  }

  /** The paths, of those declared, that lead to an extension location. */
  function Listed(declared: seq<string>, ls: LocationMap): seq<string> {
    if declared == [] then []
    else Listed(declared[..|declared| - 1], ls)
         + if IsExtension(ls, declared[|declared| - 1]) then [declared[|declared| - 1]] else []
  }

  lemma ListedAppend(declared: seq<string>, path: string, ls: LocationMap)
    ensures Listed(declared + [path], ls) == Listed(declared, ls) + if IsExtension(ls, path) then [path] else []
  {
    assert (declared + [path])[..|declared|] == declared;
  }

  // Locations declared later do not change what is listed.
  lemma {:induction false} ListedKeeps(declared: seq<string>, ls: LocationMap, ls': LocationMap)
    requires forall i :: 0 <= i < |declared| ==>
      declared[i] in ls && declared[i] in ls' && ls'[declared[i]] == ls[declared[i]]
    ensures Listed(declared, ls) == Listed(declared, ls')
    decreases |declared|
  {
    if declared != [] {
      ListedKeeps(declared[..|declared| - 1], ls, ls');
    }
  }

  /** A declared location that is an extension one whose extension ends the URI. */
  predicate Hits(ls: LocationMap, path: string, uri: string) {
    IsExtension(ls, path) && EndsWith(uri, ls[path].extension)
  }

  ghost predicate FirstHit(declared: seq<string>, ls: LocationMap, uri: string, i: nat) {
    i < |declared| && Hits(ls, declared[i], uri) && forall j :: 0 <= j < i ==> !Hits(ls, declared[j], uri)
  }

  // Searching the listed paths finds the first hit among all declared ones.
  lemma {:induction false} ListedFirst(declared: seq<string>, ls: LocationMap, uri: string, index: nat)
    requires var ps := Listed(declared, ls);
      && index <= |ps| && (forall k :: 0 <= k < index ==> !ExtensionMatches(ls, ps[k], uri))
      && (index < |ps| ==> ExtensionMatches(ls, ps[index], uri))
    ensures var ps := Listed(declared, ls);
      if index < |ps| then exists i: nat :: FirstHit(declared, ls, uri, i) && declared[i] == ps[index]
      else forall i :: 0 <= i < |declared| ==> !Hits(ls, declared[i], uri)
    decreases |declared|
  {
    var ps := Listed(declared, ls);
    if declared != [] {
      var before, last := declared[..|declared| - 1], declared[|declared| - 1];
      var qs := Listed(before, ls);
      assert forall k :: 0 <= k < |qs| ==> ps[k] == qs[k];
      if index < |qs| {
        ListedFirst(before, ls, uri, index);
        var i: nat :| FirstHit(before, ls, uri, i) && before[i] == qs[index];
        assert FirstHit(declared, ls, uri, i);
      } else {
        ListedFirst(before, ls, uri, |qs|);
        assert |ps| > |qs| ==> ps[|qs|] == last;
        if index < |ps| {
          assert FirstHit(declared, ls, uri, |before|);
        }
      }
    }
  }

  class ServerBlock {
    var locations: LocationMap
    var extensionPaths: seq<string>
    /** The paths of all declared locations, in order. */
    ghost var declared: seq<string>

    ghost predicate Valid()
      reads this
    {
      && (forall k :: k in locations <==> k in declared)
      && (forall k :: k in locations ==> locations[k].path == k)
      && extensionPaths == Listed(declared, locations)
    }

    constructor ()
      ensures Valid() && declared == [] && locations == map[]
    {
      locations, extensionPaths, declared := map[], [], [];
    }

    /** The first declaration of a path is the one kept. */
    method AddLocation(b: LocationBlock)
      requires Valid()
      modifies this
      ensures Valid() && declared == old(declared) + [b.path]
      ensures locations == if b.path in old(locations) then old(locations) else old(locations)[b.path := b]
    {
      hide Listed;
      if b.path !in locations {
        locations := locations[b.path := b];
      }
      var inserted := locations[b.path];
      if inserted.matchType == EXTENSION {
        extensionPaths := extensionPaths + [inserted.path];
      }
      ListedKeeps(declared, old(locations), locations);
      ListedAppend(declared, b.path, locations);
      declared := declared + [b.path];
    }

    /** The first-declared extension location that ends the URI, else the prefix choice. */
    method MatchLocation(uri: string) returns (r: Option<LocationBlock>)
      requires Valid() && |uri| < SIZE_LIMIT
      ensures if exists i: nat :: FirstHit(declared, locations, uri, i)
              then exists i: nat :: FirstHit(declared, locations, uri, i) && r == Some(locations[declared[i]])
              else BestChoice(locations, uri, r)
    {
      var bestPrefix := BestMatchLocation(locations, uri);
      var extMatch := MatchExtensionLocation(locations, extensionPaths, uri);
      if extMatch.Some? {
        ghost var index: nat :|
          FirstMatch(locations, extensionPaths, uri, index)
          && extMatch.value == locations[extensionPaths[index]];
        ListedFirst(declared, locations, uri, index);
        return extMatch;
      }
      ListedFirst(declared, locations, uri, |extensionPaths|);
      return bestPrefix;
    }
  }
}
