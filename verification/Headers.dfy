/** The header collection: finding where a header section ends, reading it line by line
    into a map of normalised keys, and printing such a map. */
module Headers {
  import opened Base
  import opened Text

  type HeaderMap = map<string, string>

  // ---------------------------------------------------------------- the end of the section

  /** A header-section delimiter: where it starts and how long it is. */
  datatype Delimiter = Delimiter(start: nat, length: nat) {
    function End(): nat { start + length }
  }

  predicate IsDelimiter(s: string) {
    s == "\r\n\r\n" || s == "\n\r\n" || s == "\r\n\n" || s == "\n\n"
  }

  predicate DelimiterAt(s: string, d: Delimiter) {
    d.End() <= |s| && IsDelimiter(s[d.start..d.End()])
  }

  /** `d` is the first delimiter of any of the four forms. */
  ghost predicate FirstDelimiter(s: string, d: Delimiter) {
    && DelimiterAt(s, d)
    && forall e: Delimiter :: e.start < d.start ==> !DelimiterAt(s, e)
  }

  ghost function HeaderEnd(s: string): (r: Option<Delimiter>)
    ensures r.Some? ==> FirstDelimiter(s, r.value) && r.value.End() <= |s|
  {
    if exists d :: FirstDelimiter(s, d) then
      var d :| FirstDelimiter(s, d);
      Some(d)
    else None
  }

  // The line feed that a delimiter of length n at e puts first.
  function FirstFeed(s: string, d: Delimiter): nat
    requires DelimiterAt(s, d)
  {
    if s[d.start] == '\r' then d.start + 1 else d.start
  }

  predicate BlankLineAfter(s: string, i: nat) {
    && i < |s| && s[i] == '\n'
    && ((i + 1 < |s| && s[i + 1] == '\n') || (i + 2 < |s| && s[i + 1] == '\r' && s[i + 2] == '\n'))
  }

  lemma DelimiterShape(s: string, d: Delimiter)
    requires DelimiterAt(s, d)
    ensures var i := FirstFeed(s, d);
      && BlankLineAfter(s, i)
      && (s[d.start] == '\r' || s[d.start] == '\n')
      && d.End() == (if s[i + 1] == '\n' then i + 2 else i + 3)
      && d.End() <= |s| && s[d.End() - 1] == '\n'
  {
    var f := s[d.start..d.End()];
    assert f[0] == s[d.start] && f[1] == s[d.start + 1];
    if |f| > 2 {
      assert f[2] == s[d.start + 2];
    }
    if |f| > 3 {
      assert f[3] == s[d.start + 3];
    }
  }

  function DelimiterOf(s: string, i: nat): (d: Delimiter)
    requires BlankLineAfter(s, i)
  {
    var start := if i > 0 && s[i - 1] == '\r' then i - 1 else i;
    Delimiter(start, (if s[i + 1] == '\n' then i + 2 else i + 3) - start)
  }

  // A line feed before a blank line makes a delimiter.
  lemma DelimiterFromFeed(s: string, i: nat)
    requires BlankLineAfter(s, i)
    ensures DelimiterAt(s, DelimiterOf(s, i))
  {
    var d := DelimiterOf(s, i);
    var f := s[d.start..d.End()];
    if s[i + 1] == '\n' {
      assert f == if d.start < i then ['\r', '\n', '\n'] else ['\n', '\n'];
    } else {
      assert f == if d.start < i then ['\r', '\n', '\r', '\n'] else ['\n', '\r', '\n'];
    }
  }

  // The first such line feed makes the first delimiter, and it is the only first one.
  lemma FirstFromFeed(s: string, i: nat)
    requires BlankLineAfter(s, i)
    requires forall k :: 0 <= k < i ==> !BlankLineAfter(s, k)
    ensures FirstDelimiter(s, DelimiterOf(s, i))
  {
    DelimiterFromFeed(s, i);
    var d := DelimiterOf(s, i);
    forall e: Delimiter | e.start < d.start
      ensures !DelimiterAt(s, e)
    {
      if DelimiterAt(s, e) {
        DelimiterShape(s, e);
        assert false;
      }
    }
  }

  lemma FirstDelimiterUnique(s: string, d: Delimiter, e: Delimiter)
    requires FirstDelimiter(s, d) && FirstDelimiter(s, e)
    ensures d == e
  {
    DelimiterShape(s, d);
    DelimiterShape(s, e);
  }

  lemma HeaderEndIs(s: string, d: Delimiter)
    requires FirstDelimiter(s, d)
    ensures HeaderEnd(s) == Some(d)
  {
    FirstDelimiterUnique(s, d, HeaderEnd(s).value);
  }

  lemma HeaderEndNone(s: string)
    requires forall k :: 0 <= k < |s| ==> !BlankLineAfter(s, k)
    ensures HeaderEnd(s) == None
  {
    if d :| FirstDelimiter(s, d) {
      DelimiterShape(s, d);
      assert false;
    }
  }

  /** The scan for the end of a header section finds the first delimiter of any form. */
  method FindHeaderEnd(buffer: string) returns (r: Option<Delimiter>)
    ensures r == HeaderEnd(buffer)
  {
    for i := 0 to |buffer|
      invariant forall k :: 0 <= k < i ==> !BlankLineAfter(buffer, k)
    {
      if buffer[i] == '\n' {
        if i + 1 < |buffer| && buffer[i + 1] == '\n' {
          FirstFromFeed(buffer, i);
          var afterCR := i > 0 && buffer[i - 1] == '\r';
          r := Some(Delimiter(if afterCR then i - 1 else i, if afterCR then 3 else 2));
          HeaderEndIs(buffer, r.value);
          return;
        }
        if i + 2 < |buffer| && buffer[i + 1] == '\r' && buffer[i + 2] == '\n' {
          FirstFromFeed(buffer, i);
          var afterCR := i > 0 && buffer[i - 1] == '\r';
          r := Some(Delimiter(if afterCR then i - 1 else i, if afterCR then 4 else 3));
          HeaderEndIs(buffer, r.value);
          return;
        }
      }
    }
    HeaderEndNone(buffer);
    r := None;
  }

  lemma DelimiterAtAppend(s: string, t: string, d: Delimiter)
    requires d.End() <= |s|
    ensures DelimiterAt(s + t, d) == DelimiterAt(s, d)
  {
    assert (s + t)[d.start..d.End()] == s[d.start..d.End()];
  }

  /** Stability: once a delimiter has been seen, later bytes do not move it. */
  lemma HeaderEndStable(s: string, t: string)
    requires HeaderEnd(s).Some?
    ensures HeaderEnd(s + t) == HeaderEnd(s)
  {
    var d := HeaderEnd(s).value;
    DelimiterAtAppend(s, t, d);
    DelimiterShape(s, d);
    forall e: Delimiter | e.start < d.start
      ensures !DelimiterAt(s + t, e)
    {
      if DelimiterAt(s + t, e) {
        DelimiterShape(s + t, e);
        DelimiterAtAppend(s, t, e);
      }
    }
    HeaderEndIs(s + t, d);
  }

  /** A prefix holds the delimiter exactly when it reaches past its end. */
  lemma HeaderEndPrefix(s: string, n: nat)
    requires HeaderEnd(s).Some? && n <= |s|
    ensures HeaderEnd(s[..n]) == (if HeaderEnd(s).value.End() <= n then HeaderEnd(s) else None)
  {
    var d := HeaderEnd(s).value;
    assert s == s[..n] + s[n..];
    if HeaderEnd(s[..n]).Some? {
      HeaderEndStable(s[..n], s[n..]);
    }
    if d.End() <= n {
      DelimiterAtAppend(s[..n], s[n..], d);
      forall e: Delimiter | e.start < d.start
        ensures !DelimiterAt(s[..n], e)
      {
        if DelimiterAt(s[..n], e) {
          DelimiterAtAppend(s[..n], s[n..], e);
        }
      }
      HeaderEndIs(s[..n], d);
    }
  }

  // -------------------------------------------------------------------- reading the section

  datatype Parsed = Parsed(ok: bool, headers: HeaderMap)

  /** `add`: keys are normalised, a later value replaces an earlier one. */
  function Add(h: HeaderMap, key: string, value: string): HeaderMap {
    if key == "" then h else h[ToLower(key) := value]
  }

  datatype Line = EmptyLine | BadLine | Field(key: string, value: string)

  /** What one line, without its line feed, says. */
  function ReadLine(raw: string, strict: bool): Line {
    var hasCR := raw != "" && raw[|raw| - 1] == '\r';
    var line := if hasCR then raw[..|raw| - 1] else raw;
    if !hasCR && strict && line != "" then BadLine
    else if line == "" then EmptyLine
    else
      var colon := IndexOf(line, ':');
      if colon == |line| then BadLine
      else
        var key := Trim(line[..colon]);
        if key == "" then BadLine else Field(key, Trim(line[colon + 1..]))
  }

  /** The text after the first line. */
  function AfterLine(s: string): (r: string)
    requires s != ""
    ensures |r| < |s|
  {
    var n := IndexOf(s, '\n');
    if n == |s| then "" else s[n + 1..]
  }

  function ParseSection(s: string, h: HeaderMap, strict: bool): Parsed
    decreases |s|
  {
    if s == "" then Parsed(true, h)
    else
      match ReadLine(s[..IndexOf(s, '\n')], strict)
      case EmptyLine => Parsed(true, h)
      case BadLine => Parsed(false, h)
      case Field(key, value) => ParseSection(AfterLine(s), Add(h, key, value), strict)
  }

  // One turn of the loop, as an equation.
  lemma ParseSectionUnfolds(s: string, h: HeaderMap, strict: bool)
    requires s != ""
    ensures ParseSection(s, h, strict) ==
      match ReadLine(s[..IndexOf(s, '\n')], strict)
      case EmptyLine => Parsed(true, h)
      case BadLine => Parsed(false, h)
      case Field(key, value) => ParseSection(AfterLine(s), Add(h, key, value), strict)
  {
  }

  lemma ParseSectionEnds(h: HeaderMap, strict: bool)
    ensures ParseSection("", h, strict) == Parsed(true, h)
  {
  }

  /** The reading loop over a stream of lines. */
  method Parse(input: string, headers: HeaderMap, strict: bool) returns (ok: bool, res: HeaderMap)
    ensures Parsed(ok, res) == ParseSection(input, headers, strict)
  {
    hide ParseSection;
    hide Trim;
    hide IndexOf;
    var s := input;
    res := headers;
    while s != ""
      invariant ParseSection(input, headers, strict) == ParseSection(s, res, strict)
      decreases |s|
    {
      ParseSectionUnfolds(s, res, strict);
      var line := s[..IndexOf(s, '\n')];
      var hasCR := line != "" && line[|line| - 1] == '\r';
      if hasCR {
        line := line[..|line| - 1];
      } else if strict && line != "" {
        return false, res;
      }
      if line == "" {
        return true, res;
      }
      var colonPos := IndexOf(line, ':');
      if colonPos == |line| {
        return false, res;
      }
      var key := Trim(line[..colonPos]);
      if key == "" {
        return false, res;
      }
      var value := Trim(line[colonPos + 1..]);
      s := AfterLine(s);
      res := Add(res, key, value);
    }
    ParseSectionEnds(res, strict);
    ok := true;
  }

  // Text that follows does not change the first line.
  lemma FirstLineStable(s: string, t: string)
    requires '\n' in s
    ensures var n := IndexOf(s, '\n');
      && n < |s| && s[n] == '\n' && IndexOf(s + t, '\n') == n && (s + t)[..n] == s[..n]
      && AfterLine(s) == s[n + 1..] && AfterLine(s + t) == AfterLine(s) + t
  {
    var n := IndexOf(s, '\n');
    assert forall k :: 0 <= k < |s| ==> (s + t)[k] == s[k];
    IndexOfFound(s + t, '\n', n);
    assert (s + t)[n + 1..] == s[n + 1..] + t;
  }

  // After the first line, the blank line is where it was, or comes next.
  lemma BlankLineAhead(s: string, i: nat)
    requires BlankLineAfter(s, i)
    ensures '\n' in s
    ensures var n := IndexOf(s, '\n');
      && n <= i && n + 1 < |s|
      && (n < i ==> BlankLineAfter(s[n + 1..], i - n - 1))
      && (n == i ==> BeginsBlank(s[n + 1..]))
  {
    assert s[i] == '\n';
    var rest := s[IndexOf(s, '\n') + 1..];
  }

  predicate BeginsBlank(s: string) {
    s != "" && (s[0] == '\n' || (|s| > 1 && s[0] == '\r' && s[1] == '\n'))
  }

  /** Reading stops at the first empty line, so text after a blank line is never looked at. */
  lemma {:induction false} ParseSectionStable(s: string, t: string, i: nat, h: HeaderMap, strict: bool)
    requires BlankLineAfter(s, i)
    ensures ParseSection(s + t, h, strict) == ParseSection(s, h, strict)
    decreases |s|
  {
    hide ReadLine;
    hide ParseSection;
    hide IndexOf;
    hide AfterLine;
    hide BlankLineAfter;
    BlankLineAhead(s, i);
    FirstLineStable(s, t);
    ParseSectionUnfolds(s, h, strict);
    ParseSectionUnfolds(s + t, h, strict);
    var n := IndexOf(s, '\n');
    var line := ReadLine(s[..n], strict);
    if line.Field? {
      var rest, h' := AfterLine(s), Add(h, line.key, line.value);
      if n < i {
        ParseSectionStable(rest, t, i - n - 1, h', strict);
      } else {
        ParseBlankLine(rest, h', strict);
        ParseBlankLine(rest + t, h', strict);
      }
    }
  }

  lemma ParseBlankLine(s: string, h: HeaderMap, strict: bool)
    requires BeginsBlank(s)
    ensures ParseSection(s, h, strict) == Parsed(true, h)
  {
    var n := if s[0] == '\n' then 0 else 1;
    IndexOfFound(s, '\n', n);
    assert s[..n] == if n == 0 then "" else "\r";
  }

  // ------------------------------------------------------------------- header lines as written

  /** A header line as it may be written: a name in any letter case and a value, with blanks around
      both. The line feed is not part of it, and a carriage return before that is one of the blanks. */
  datatype Written = Written(lead: string, name: string, gap: string, pad: string, value: string, trail: string) {
    function Line(): string {
      lead + name + gap + ":" + pad + value + trail
    }

    predicate Valid() {
      && name != "" && Bounded(name) && ':' !in name && '\n' !in name
      && Bounded(value) && '\n' !in value
      && Blank(lead) && Blank(gap) && Blank(pad) && Blank(trail)
    }
  }

  predicate EndsWithCR(line: string) {
    line != "" && line[|line| - 1] == '\r'
  }

  /** Every line may be written so; in strict mode each needs its carriage return. */
  predicate AllWritten(fs: seq<Written>, strict: bool) {
    forall i :: 0 <= i < |fs| ==> fs[i].Valid() && (strict ==> EndsWithCR(fs[i].Line()))
  }

  function Lines(fs: seq<Written>): string {
    if fs == [] then "" else fs[0].Line() + "\n" + Lines(fs[1..])
  }

  /** `h` with the written headers added in turn. */
  function AddAll(h: HeaderMap, fs: seq<Written>): HeaderMap
    decreases |fs|
  {
    if fs == [] then h else AddAll(Add(h, fs[0].name, fs[0].value), fs[1..])
  }

  lemma WrittenShape(f: Written)
    requires f.Valid()
    ensures '\n' !in f.Line() && |f.Line()| >= 2 && f.Line()[0] != '\n'
    ensures f.Line()[0] == '\r' ==> |f.Line()| >= 3
  {
  }

  // A written line, with or without its carriage return, is read as its name and value.
  lemma ReadWritten(f: Written, strict: bool)
    requires f.Valid() && (strict ==> EndsWithCR(f.Line()))
    ensures ReadLine(f.Line(), strict) == Field(f.name, f.value)
  {
    var before, after := f.lead + f.name + f.gap, f.pad + f.value + f.trail;
    assert f.Line() == before + ":" + after;
    ColonAfter(f);
    TrimBetween(f.lead, f.name, f.gap);
    TrimBetween(f.pad, f.value, f.trail);
    if EndsWithCR(after) {
      TrimWithoutCR(f);
    }
    ReadParts(before, after, strict);
  }

  // What is read from the text before and after the first colon.
  lemma ReadParts(before: string, after: string, strict: bool)
    requires ':' !in before && Trim(before) != "" && (strict ==> EndsWithCR(after))
    requires EndsWithCR(after) ==> Trim(after[..|after| - 1]) == Trim(after)
    ensures ReadLine(before + ":" + after, strict) == Field(Trim(before), Trim(after))
  {
    hide Trim;
    hide IndexOf;
    var raw := before + ":" + after;
    assert raw[|raw| - 1] == if after == "" then ':' else after[|after| - 1];
    if EndsWithCR(after) {
      var rest := after[..|after| - 1];
      assert raw[..|raw| - 1] == before + ":" + rest;
      FirstColon(before, rest);
    } else {
      FirstColon(before, after);
    }
  }

  lemma FirstColon(before: string, after: string)
    requires ':' !in before
    ensures var line := before + ":" + after;
      IndexOf(line, ':') == |before| && line[..|before|] == before && line[|before| + 1..] == after
  {
    var line := before + ":" + after;
    assert forall k :: 0 <= k < |before| ==> line[k] == before[k] && before[k] in before;
    IndexOfFound(line, ':', |before|);
  }

  lemma ColonAfter(f: Written)
    requires f.Valid()
    ensures ':' !in f.lead + f.name + f.gap
    ensures EndsWithCR(f.Line()) <==> EndsWithCR(f.pad + f.value + f.trail)
  {
    var before, after := f.lead + f.name + f.gap, f.pad + f.value + f.trail;
    assert f.Line() == before + ":" + after;
    assert f.Line()[|f.Line()| - 1] == if after == "" then ':' else after[|after| - 1];
    forall k | 0 <= k < |before| ensures before[k] != ':' {
      if |f.lead| <= k < |f.lead| + |f.name| {
        assert before[k] == f.name[k - |f.lead|];
      }
    }
  }

  // Without the carriage return at its end the value is the same.
  lemma TrimWithoutCR(f: Written)
    requires f.Valid() && EndsWithCR(f.pad + f.value + f.trail)
    ensures var after := f.pad + f.value + f.trail; Trim(after[..|after| - 1]) == f.value
  {
    var after := f.pad + f.value + f.trail;
    if f.trail != "" {
      var n := |f.trail| - 1;
      assert after[..|after| - 1] == f.pad + f.value + f.trail[..n];
      TrimBetween(f.pad, f.value, f.trail[..n]);
    } else {
      var n := |f.pad| - 1;
      assert after[..|after| - 1] == f.pad[..n] + "" + "";
      TrimBetween(f.pad[..n], "", "");
    }
  }

  // The first line and the rest, given where the first line feed is.
  lemma FirstLineIs(raw: string, rest: string)
    requires '\n' !in raw
    ensures var s := raw + "\n" + rest;
      s != "" && s[..IndexOf(s, '\n')] == raw && AfterLine(s) == rest
  {
    var s := raw + "\n" + rest;
    assert forall k :: 0 <= k < |raw| ==> s[k] == raw[k] && raw[k] in raw;
    IndexOfFound(s, '\n', |raw|);
    assert s[..|raw|] == raw && s[|raw| + 1..] == rest;
  }

  /** Any lines written as headers, in any letter case and with any blanks, are read one by one,
      whatever follows them. */
  lemma {:induction false} ParseWritten(fs: seq<Written>, rest: string, h: HeaderMap, strict: bool)
    requires AllWritten(fs, strict)
    ensures ParseSection(Lines(fs) + rest, h, strict) == ParseSection(rest, AddAll(h, fs), strict)
    decreases |fs|
  {
    hide ParseSection;
    hide ReadLine;
    hide AfterLine;
    hide IndexOf;
    hide Add;
    if fs == [] {
      assert "" + rest == rest;
    } else {
      var f, later := fs[0], Lines(fs[1..]) + rest;
      WrittenShape(f);
      assert Lines(fs) + rest == f.Line() + "\n" + later;
      FirstLineIs(f.Line(), later);
      ReadWritten(f, strict);
      ParseSectionUnfolds(f.Line() + "\n" + later, h, strict);
      ParseWritten(fs[1..], rest, Add(h, f.name, f.value), strict);
    }
  }

  /** A line that is no header line: without a colon, or without a name before it, or in strict mode
      without its carriage return. */
  ghost predicate BadRaw(raw: string, strict: bool) {
    && raw != "" && raw != "\r"
    && (|| ':' !in raw
        || (exists n :: 0 <= n < |raw| && raw[n] == ':' && Blank(raw[..n]))
        || (strict && !EndsWithCR(raw)))
  }

  // Every line is empty, bad, or a header line as written.
  lemma LineIsWritten(raw: string, strict: bool) returns (f: Written)
    requires '\n' !in raw && raw != "" && raw != "\r" && !BadRaw(raw, strict)
    ensures f.Valid() && f.Line() == raw && (strict ==> EndsWithCR(raw))
  {
    var n := IndexOf(raw, ':');
    var before, after := raw[..n], raw[n + 1..];
    NoFeedInParts(raw, n);
    assert !Blank(before) by {
      assert before == raw[..n];
    }
    f := PartsWritten(before, after);
    assert raw == before + ":" + after;
  }

  lemma PartsWritten(before: string, after: string) returns (f: Written)
    requires ':' !in before && !Blank(before) && '\n' !in before && '\n' !in after
    ensures f.Valid() && f.Line() == before + ":" + after
  {
    var lead, name, gap := SplitBlanks(before);
    var pad, value, trail := SplitBlanks(after);
    PartsOf(before, lead, name, gap);
    PartsOf(after, pad, value, trail);
    f := Written(lead, name, gap, pad, value, trail);
    WrittenLine(f);
  }

  lemma WrittenLine(f: Written)
    ensures f.Line() == f.lead + f.name + f.gap + ":" + (f.pad + f.value + f.trail)
  {
  }

  lemma NoFeedInParts(raw: string, n: nat)
    requires '\n' !in raw && n < |raw|
    ensures '\n' !in raw[..n] && '\n' !in raw[n + 1..]
  {
  }

  // What a text without something says of its middle; and it is all blank if the middle is empty.
  lemma PartsOf(s: string, a: string, t: string, b: string)
    requires s == a + t + b && Blank(a) && Blank(b)
    ensures forall c :: c !in s ==> c !in t
    ensures t == "" ==> Blank(s)
  {
    assert forall k :: 0 <= k < |t| ==> s[|a| + k] == t[k];
  }

  lemma ReadBadLine(raw: string, strict: bool)
    requires '\n' !in raw && BadRaw(raw, strict)
    ensures ReadLine(raw, strict).BadLine?
  {
    hide Trim;
    var hasCR := EndsWithCR(raw);
    var line := if hasCR then raw[..|raw| - 1] else raw;
    if hasCR || !strict {
      var colon := IndexOf(line, ':');
      if colon < |line| {
        assert raw[colon] == ':';
        assert exists n :: 0 <= n < |raw| && raw[n] == ':' && Blank(raw[..n]);
        var n :| 0 <= n < |raw| && raw[n] == ':' && Blank(raw[..n]);
        assert colon <= n < |line|;
        assert line[..colon] + "" + "" == line[..colon] == raw[..colon] == raw[..n][..colon];
        TrimBetween(line[..colon], "", "");
      }
    }
  }

  /** How reading ends: at the end of the text or at an empty line; or at a bad line. */
  predicate Stops(rest: string) {
    rest == "" || BeginsBlank(rest)
  }

  ghost predicate BadStart(rest: string, strict: bool) {
    exists n :: 0 <= n < |rest| && rest[n] == '\n' && '\n' !in rest[..n] && BadRaw(rest[..n], strict)
  }

  // A line feed at the end of the text makes no difference.
  lemma {:induction false} FinalFeed(s: string, h: HeaderMap, strict: bool)
    ensures ParseSection(s + "\n", h, strict) == ParseSection(s, h, strict)
    decreases |s|
  {
    hide ReadLine;
    if s == "" {
      assert s + "\n" == "\n";
      ParseBlankLine("\n", h, strict);
    } else {
      var n := IndexOf(s, '\n');
      if n < |s| {
        assert s[n] in s;
        FirstLineStable(s, "\n");
        var line := ReadLine(s[..n], strict);
        if line.Field? {
          FinalFeed(AfterLine(s), Add(h, line.key, line.value), strict);
        }
      } else {
        assert '\n' !in s;
        FirstLineIs(s, "");
        assert s + "\n" + "" == s + "\n" && s[..n] == s;
      }
    }
  }

  /** Every text is some header lines as written, and then an end or a bad line; what is read is
      those headers, and reading succeeds exactly when no bad line comes. A text whose last line has
      no line feed is read as if it had one. */
  lemma {:induction false} ReadsExactly(s: string, h: HeaderMap, strict: bool)
    returns (fs: seq<Written>, rest: string)
    ensures AllWritten(fs, strict) && s + "\n" == Lines(fs) + rest
    ensures ParseSection(s, h, strict) == Parsed(Stops(rest), AddAll(h, fs))
    ensures Stops(rest) <==> !BadStart(rest, strict)
    decreases |s|
  {
    hide ReadLine;
    hide BadRaw;
    hide ParseSection;
    hide IndexOf;
    hide AfterLine;
    hide Add;
    hide Stops;
    hide BadStart;
    hide AllWritten;
    hide AddAll;
    hide Lines;
    hide Written.Line;
    hide Written.Valid;
    NoLines(h, strict);
    var raw, later := FirstLineOf(s);
    FinalFeed(s, h, strict);
    var t := s + "\n";
    FirstLineIs(raw, later);
    ParseSectionUnfolds(t, h, strict);
    if raw == "" || raw == "\r" {
      fs, rest := [], t;
      EmptyFirst(raw, later, h, strict);
    } else if BadRaw(raw, strict) {
      fs, rest := [], t;
      ReadBadLine(raw, strict);
      BadFirst(raw, later, strict);
    } else {
      var f := LineIsWritten(raw, strict);
      ReadWritten(f, strict);
      var h' := Add(h, f.name, f.value);
      var gs;
      if later == "" {
        gs, rest := [], "";
        TextEnds(h', strict);
        NoLines(h', strict);
      } else {
        var inner := later[..|later| - 1];
        assert later == inner + "\n" && |inner| < |s|;
        gs, rest := ReadsExactly(inner, h', strict);
        FinalFeed(inner, h', strict);
      }
      fs := [f] + gs;
      Prepended(f, gs, rest, h, strict);
    }
  }

  lemma Prepended(f: Written, gs: seq<Written>, rest: string, h: HeaderMap, strict: bool)
    ensures Lines([f] + gs) + rest == f.Line() + "\n" + (Lines(gs) + rest)
    ensures AddAll(h, [f] + gs) == AddAll(Add(h, f.name, f.value), gs)
    ensures f.Valid() && (strict ==> EndsWithCR(f.Line())) && AllWritten(gs, strict) ==> AllWritten([f] + gs, strict)
  {
    assert ([f] + gs)[1..] == gs;
  }

  lemma NoLines(h: HeaderMap, strict: bool)
    ensures AllWritten([], strict) && AddAll(h, []) == h && forall rest :: Lines([]) + rest == rest
  {
  }

  lemma FirstLineOf(s: string) returns (raw: string, later: string)
    ensures s + "\n" == raw + "\n" + later && '\n' !in raw
    ensures later != "" ==> later[|later| - 1] == '\n' && |later| <= |s|
  {
    var t := s + "\n";
    assert t[|s|] == '\n';
    var n := IndexOf(t, '\n');
    raw, later := t[..n], t[n + 1..];
    assert t == raw + "\n" + later;
  }

  lemma EmptyFirst(raw: string, later: string, h: HeaderMap, strict: bool)
    requires raw == "" || raw == "\r"
    ensures var t := raw + "\n" + later;
      ParseSection(t, h, strict) == Parsed(true, h) && Stops(t) && !BadStart(t, strict)
  {
    hide ParseSection;
    var t := raw + "\n" + later;
    assert t[0] == if raw == "" then '\n' else '\r';
    assert raw == "\r" ==> t[1] == '\n';
    ParseBlankLine(t, h, strict);
    NotBadStart(raw, later, strict);
  }

  lemma BadFirst(raw: string, later: string, strict: bool)
    requires '\n' !in raw && BadRaw(raw, strict)
    ensures var t := raw + "\n" + later; !Stops(t) && BadStart(t, strict)
  {
    hide BadRaw;
    var t := raw + "\n" + later;
    assert t[|raw|] == '\n' && t[..|raw|] == raw;
    BadNotEmpty(raw, strict);
    NotBlankStart(raw, later);
  }

  lemma BadNotEmpty(raw: string, strict: bool)
    requires BadRaw(raw, strict)
    ensures raw != "" && raw != "\r"
  {
  }

  lemma TextEnds(h: HeaderMap, strict: bool)
    ensures ParseSection("", h, strict) == Parsed(true, h) && Stops("") && !BadStart("", strict)
  {
  }

  lemma NotBadStart(raw: string, later: string, strict: bool)
    requires raw == "" || raw == "\r"
    ensures !BadStart(raw + "\n" + later, strict)
  {
    var t := raw + "\n" + later;
    assert t[|raw|] == '\n';
    assert forall n :: |raw| < n <= |t| ==> t[..n][|raw|] == '\n';
    assert forall n :: 0 <= n <= |raw| ==> t[..n] == raw[..n];
  }

  lemma NotBlankStart(raw: string, later: string)
    requires raw != "" && raw != "\r" && '\n' !in raw
    ensures !Stops(raw + "\n" + later)
  {
    var t := raw + "\n" + later;
    assert t[0] == raw[0] && raw[0] in raw;
    if |raw| > 1 {
      assert t[1] == raw[1] && raw[1] in raw;
    } else {
      assert raw == [raw[0]];
    }
  }

  // ----------------------------------------------------------------------------- printing

  function PrintField(key: string, value: string): string {
    key + ": " + value + CRLF
  }

  function Print(keys: seq<string>, h: HeaderMap): string
    requires forall k :: k in keys ==> k in h
  {
    if keys == [] then "" else PrintField(keys[0], h[keys[0]]) + Print(keys[1..], h)
  }

  ghost predicate Enumerates(keys: seq<string>, h: HeaderMap) {
    && (forall k :: k in keys <==> k in h)
    && forall i, j :: 0 <= i < j < |keys| ==> keys[i] != keys[j]
  }

  /** Headers that survive a trip over the wire. */
  predicate Printable(key: string, value: string) {
    && key != "" && IsTrimmed(key) && ToLower(key) == key && ':' !in key && '\n' !in key
    && IsTrimmed(value) && '\n' !in value
  }

  /** Printing visits every header once, in some order. */
  method ToString(h: HeaderMap) returns (s: string)
    ensures exists keys :: Enumerates(keys, h) && s == Print(keys, h)
  {
    s := "";
    ghost var keys: seq<string> := [];
    var todo := h.Keys;
    while todo != {}
      invariant todo <= h.Keys
      invariant forall k :: k in keys <==> k in h && k !in todo
      invariant forall i, j :: 0 <= i < j < |keys| ==> keys[i] != keys[j]
      invariant s == Print(keys, h)
      decreases todo
    {
      var k :| k in todo;
      PrintAppend(keys, k, h);
      s := s + (k + ": " + h[k] + CRLF);
      keys := keys + [k];
      todo := todo - {k};
    }
  }

  lemma {:induction false} PrintAppend(keys: seq<string>, k: string, h: HeaderMap)
    requires k in h && forall j :: j in keys ==> j in h
    ensures Print(keys + [k], h) == Print(keys, h) + PrintField(k, h[k])
    decreases |keys|
  {
    if keys == [] {
      assert Print([k], h) == PrintField(k, h[k]) + "";
    } else {
      assert (keys + [k])[1..] == keys[1..] + [k];
      PrintAppend(keys[1..], k, h);
    }
  }

  lemma TrimLeftDone(s: string)
    requires s != "" ==> !IsBlank(s[0])
    ensures TrimLeft(s) == s
  {
  }

  lemma TrimDone(s: string)
    requires IsTrimmed(s)
    ensures Trim(s) == s && Trim(" " + s) == s
  {
    assert (" " + s)[1..] == s;
    TrimLeftDone(s);
    if s != "" {
      assert TrimLeft(" " + s) == TrimLeft(s);
    } else {
      assert " " + s == " ";
      assert TrimLeft(" ") == TrimLeft("") == "";
    }
  }

  lemma ReadPrintedField(key: string, value: string, strict: bool)
    requires Printable(key, value)
    ensures ReadLine(key + ": " + value + "\r", strict) == Field(key, value)
  {
    var raw := key + ": " + value + "\r";
    var line := raw[..|raw| - 1];
    assert raw[|raw| - 1] == '\r';
    assert line == key + ": " + value;
    IndexOfFound(line, ':', |key|);
    assert line[..|key|] == key;
    assert line[|key| + 1..] == " " + value;
    TrimDone(key);
    TrimDone(value);
  }

  lemma ParsePrintedField(key: string, value: string, rest: string, h: HeaderMap, strict: bool)
    requires Printable(key, value)
    ensures ParseSection(PrintField(key, value) + rest, h, strict)
         == ParseSection(rest, h[key := value], strict)
  {
    hide Trim;
    hide ToLower;
    hide ReadLine;
    var raw := key + ": " + value + "\r";
    var s := PrintField(key, value) + rest;
    assert s == raw + "\n" + rest;
    assert '\n' !in raw;
    assert forall k :: 0 <= k < |raw| ==> s[k] == raw[k] && raw[k] in raw;
    IndexOfFound(s, '\n', |raw|);
    assert s[..|raw|] == raw && s[|raw| + 1..] == rest;
    ReadPrintedField(key, value, strict);
  }

  /** `acc` with the listed headers of `h` added in turn. */
  function Absorb(keys: seq<string>, h: HeaderMap, acc: HeaderMap): HeaderMap
    requires forall k :: k in keys ==> k in h
  {
    if keys == [] then acc else Absorb(keys[1..], h, acc[keys[0] := h[keys[0]]])
  }

  lemma {:induction false} AbsorbGives(keys: seq<string>, h: HeaderMap, acc: HeaderMap)
    requires forall k :: k in keys ==> k in h
    requires forall k :: k in h ==> k in keys || (k in acc && acc[k] == h[k])
    requires forall k :: k in acc ==> k in h
    ensures Absorb(keys, h, acc) == h
    decreases |keys|
  {
    if keys == [] {
      assert acc == h;
    } else {
      AbsorbGives(keys[1..], h, acc[keys[0] := h[keys[0]]]);
    }
  }

  lemma {:induction false} ParsePrinted(keys: seq<string>, h: HeaderMap, acc: HeaderMap, rest: string, strict: bool)
    requires forall k :: k in keys ==> k in h
    requires forall k :: k in keys ==> Printable(k, h[k])
    ensures ParseSection(Print(keys, h) + rest, acc, strict) == ParseSection(rest, Absorb(keys, h, acc), strict)
    decreases |keys|
  {
    hide Printable;
    hide ParseSection;
    if keys == [] {
      assert "" + rest == rest;
    } else {
      var k := keys[0];
      assert k in keys;
      var later := Print(keys[1..], h) + rest;
      assert Print(keys, h) + rest == PrintField(k, h[k]) + later;
      ParsePrintedField(k, h[k], later, acc, strict);
      ParsePrinted(keys[1..], h, acc[k := h[k]], rest, strict);
    }
  }

  /** The lines of a printed map: each with a blank after its colon, and its carriage return. */
  function PrintedLines(keys: seq<string>, h: HeaderMap): seq<Written>
    requires forall k :: k in keys ==> k in h
  {
    seq(|keys|, i requires 0 <= i < |keys| => Written("", keys[i], "", " ", h[keys[i]], "\r"))
  }

  lemma {:induction false} PrintIsWritten(keys: seq<string>, h: HeaderMap)
    requires forall k :: k in keys ==> k in h
    ensures Print(keys, h) == Lines(PrintedLines(keys, h))
    decreases |keys|
  {
    if keys != [] {
      PrintIsWritten(keys[1..], h);
      assert PrintedLines(keys, h)[1..] == PrintedLines(keys[1..], h);
      var f := PrintedLines(keys, h)[0];
      assert f.Line() + "\n" == PrintField(keys[0], h[keys[0]]);
    }
  }

  predicate PrintableHeaders(h: HeaderMap) {
    forall k :: k in h ==> Printable(k, h[k])
  }

  /** Print and parse round trip, in either mode and whatever order the map is walked in, with or
      without the empty line that ends a section. */
  lemma PrintParseRoundTrip(keys: seq<string>, h: HeaderMap, strict: bool)
    requires Enumerates(keys, h) && PrintableHeaders(h)
    ensures ParseSection(Print(keys, h), map[], strict) == Parsed(true, h)
    ensures ParseSection(Print(keys, h) + CRLF, map[], strict) == Parsed(true, h)
  {
    hide Printable;
    hide ParseSection;
    ParsePrinted(keys, h, map[], "", strict);
    ParsePrinted(keys, h, map[], CRLF, strict);
    AbsorbGives(keys, h, map[]);
    assert Print(keys, h) + "" == Print(keys, h);
    ParseSectionEnds(h, strict);
    ParseBlankLine(CRLF, h, strict);
  }

  lemma LowerPrintable(f: Written)
    requires f.Valid()
    ensures Printable(ToLower(f.name), f.value)
  {
    var key := ToLower(f.name);
    forall i | 0 <= i < |key|
      ensures key[i] == Lower(f.name[i]) && key[i] != ':' && key[i] != '\n' && Lower(key[i]) == key[i]
    {
      ToLowerAt(f.name, i);
      assert f.name[i] in f.name;
    }
    LowerAlready(key);
  }

  lemma {:induction false} AddAllPrintable(h: HeaderMap, fs: seq<Written>)
    requires PrintableHeaders(h) && forall i :: 0 <= i < |fs| ==> fs[i].Valid()
    ensures PrintableHeaders(AddAll(h, fs))
    decreases |fs|
  {
    hide Printable;
    if fs != [] {
      LowerPrintable(fs[0]);
      AddAllPrintable(Add(h, fs[0].name, fs[0].value), fs[1..]);
    }
  }

  /** Whatever is read can be printed, and so survives another trip. */
  lemma ParsedPrintable(s: string, strict: bool)
    ensures PrintableHeaders(ParseSection(s, map[], strict).headers)
  {
    hide Printable;
    hide ParseSection;
    var fs, rest := ReadsExactly(s, map[], strict);
    AddAllPrintable(map[], fs);
  }

  // --------------------------------------------------------------------- header meanings

  function Get(h: HeaderMap, key: string): Option<string> {
    var k := ToLower(key);
    if k in h then Some(h[k]) else None
  }

  /** A header is found under every name that is the same but for the case of its letters, and adding
      it changes what is found under no other. */
  lemma GetAdded(h: HeaderMap, key: string, value: string, name: string)
    requires key != ""
    ensures Get(Add(h, key, value), name) == if SameIgnoringCase(key, name) then Some(value) else Get(h, name)
  {
    ToLowerIsSame(key, name);
  }

  /** The last value written under a name, in any letter case. */
  function LastValue(fs: seq<Written>, name: string): Option<string> {
    if fs == [] then None
    else if SameIgnoringCase(fs[|fs| - 1].name, name) then Some(fs[|fs| - 1].value)
    else LastValue(fs[..|fs| - 1], name)
  }

  lemma {:induction false} AddAllLast(h: HeaderMap, fs: seq<Written>)
    requires fs != []
    ensures var n := |fs| - 1; AddAll(h, fs) == Add(AddAll(h, fs[..n]), fs[n].name, fs[n].value)
    decreases |fs|
  {
    hide Add;
    if |fs| > 1 {
      AddAllLast(Add(h, fs[0].name, fs[0].value), fs[1..]);
      assert fs[..|fs| - 1][1..] == fs[1..][..|fs| - 2];
    }
  }

  /** What written headers mean: under each name, in any letter case, the last value written. */
  lemma {:induction false} AddAllMeans(fs: seq<Written>, name: string)
    requires forall i :: 0 <= i < |fs| ==> fs[i].Valid()
    ensures Get(AddAll(map[], fs), name) == LastValue(fs, name)
    decreases |fs|
  {
    hide Add;
    hide Get;
    if fs == [] {
      GetNothing(name);
    } else {
      var n := |fs| - 1;
      AddAllLast(map[], fs);
      GetAdded(AddAll(map[], fs[..n]), fs[n].name, fs[n].value, name);
      AddAllMeans(fs[..n], name);
    }
  }

  lemma GetNothing(name: string)
    ensures Get(map[], name) == None
  {
  }

  predicate Has(fs: seq<Written>, name: string) {
    exists i :: 0 <= i < |fs| && SameIgnoringCase(fs[i].name, name)
  }

  lemma {:induction false} HasLastValue(fs: seq<Written>, name: string)
    ensures LastValue(fs, name).Some? <==> Has(fs, name)
    decreases |fs|
  {
    hide SameIgnoringCase;
    if fs != [] {
      var n := |fs| - 1;
      HasLastValue(fs[..n], name);
      if i :| 0 <= i < |fs| && SameIgnoringCase(fs[i].name, name) {
        assert i < n ==> fs[..n][i] == fs[i];
      }
      if i :| 0 <= i < n && SameIgnoringCase(fs[..n][i].name, name) {
        assert fs[i] == fs[..n][i];
      }
    }
  }

  function DigitsValue(s: string): nat {
    if s == "" || !IsDigit(s[|s| - 1]) then 0
    else DigitsValue(s[..|s| - 1]) * 10 + (s[|s| - 1] as int - '0' as int)
  }

  function DigitsLength(s: string): (n: nat)
    ensures n <= |s|
  {
    if s == "" || !IsDigit(s[0]) then 0 else 1 + DigitsLength(s[1..])
  }

  /** `strtol` in base ten: leading space, one sign, digits; saturating at 64 bits. */
  function StrToL(s: string): (r: int)
    ensures -(SIZE_LIMIT / 2) <= r < SIZE_LIMIT / 2
  {
    var t := SkipSpace(s);
    var signed := t != "" && (t[0] == '-' || t[0] == '+');
    var u := if signed then t[1..] else t;
    var v: int := DigitsValue(u[..DigitsLength(u)]);
    if signed && t[0] == '-' then (if v > SIZE_LIMIT / 2 then -(SIZE_LIMIT / 2) else -v)
    else if v >= SIZE_LIMIT / 2 then SIZE_LIMIT / 2 - 1 else v
  }

  /** A negative length becomes a huge `size_t`. */
  function ContentLength(h: HeaderMap): (n: nat)
    ensures n < SIZE_LIMIT
  {
    match Get(h, "content-length")
    case None => 0
    case Some(v) => StrToL(v) % SIZE_LIMIT
  }

  function IsContentChunked(h: HeaderMap): bool {
    Get(h, "Transfer-Encoding").Some?
  }

  // ------------------------------------------------------------------- announced lengths

  function Digit(n: nat): char
    requires n < 10
  {
    DIGITS[n]
  }

  function Decimal(n: nat): string {
    if n < 10 then [Digit(n)] else Decimal(n / 10) + [Digit(n % 10)]
  }

  lemma DigitWorth(n: nat)
    requires n < 10
    ensures IsDigit(Digit(n)) && Digit(n) as int - '0' as int == n
  {
  }

  lemma {:induction false} DecimalDigits(n: nat)
    ensures var s := Decimal(n);
      s != "" && (forall k :: 0 <= k < |s| ==> IsDigit(s[k])) && DigitsValue(s) == n
  {
    hide Digit;
    hide IsDigit;
    DigitWorth(n % 10);
    if n < 10 {
      assert Decimal(n)[..0] == "";
    } else {
      DecimalDigits(n / 10);
      var s := Decimal(n);
      assert s[..|s| - 1] == Decimal(n / 10);
    }
  }

  lemma {:induction false} AllDigitsLength(digits: string, rest: string)
    requires (forall k :: 0 <= k < |digits| ==> IsDigit(digits[k])) && (rest != "" ==> !IsDigit(rest[0]))
    ensures DigitsLength(digits + rest) == |digits|
    decreases |digits|
  {
    if digits == "" {
      assert digits + rest == rest;
    } else {
      assert (digits + rest)[0] == digits[0] && (digits + rest)[1..] == digits[1..] + rest;
      AllDigitsLength(digits[1..], rest);
    }
  }

  lemma {:induction false} SkipAllSpace(space: string, text: string)
    requires (forall k :: 0 <= k < |space| ==> IsSpace(space[k])) && (text != "" ==> !IsSpace(text[0]))
    ensures SkipSpace(space + text) == text
    decreases |space|
  {
    if space == "" {
      assert space + text == text;
    } else {
      assert (space + text)[0] == space[0] && (space + text)[1..] == space[1..] + text;
      SkipAllSpace(space[1..], text);
    }
  }

  /** A value kept within a signed number of 64 bits. */
  function Saturated(negative: bool, v: int): int {
    if negative then (if v > SIZE_LIMIT / 2 then -(SIZE_LIMIT / 2) else -v)
    else if v >= SIZE_LIMIT / 2 then SIZE_LIMIT / 2 - 1 else v
  }

  predicate Signed(t: string) {
    t != "" && (t[0] == '-' || t[0] == '+')
  }

  lemma ToLUnfolds(s: string, t: string, u: string)
    requires SkipSpace(s) == t && u == if Signed(t) then t[1..] else t
    ensures StrToL(s) == Saturated(Signed(t) && t[0] == '-', DigitsValue(u[..DigitsLength(u)]))
  {
    hide DigitsValue;
    hide DigitsLength;
    hide SkipSpace;
  }

  /** `strtol` on any text: after leading space and at most one sign it reads the longest run of
      digits and nothing after it, and the value is kept within 64 bits. */
  lemma StrToLReads(space: string, sign: string, digits: string, rest: string)
    requires forall k :: 0 <= k < |space| ==> IsSpace(space[k])
    requires sign == "" || (Signed(sign) && |sign| == 1)
    requires (forall k :: 0 <= k < |digits| ==> IsDigit(digits[k])) && (rest != "" ==> !IsDigit(rest[0]))
    requires sign == "" && digits == "" && rest != "" ==> !IsSpace(rest[0]) && !Signed(rest)
    ensures StrToL(space + sign + digits + rest) == Saturated(sign != "" && sign[0] == '-', DigitsValue(digits))
  {
    hide StrToL;
    hide Saturated;
    hide DigitsValue;
    hide DigitsLength;
    hide SkipSpace;
    var u := digits + rest;
    var t := sign + u;
    assert space + sign + digits + rest == space + t;
    AllDigitsLength(digits, rest);
    assert u[..|digits|] == digits;
    FirstOf(sign, digits, rest);
    SkipAllSpace(space, t);
    ToLUnfolds(space + t, t, u);
  }

  // The sign is taken for one, and nothing else is.
  lemma FirstOf(sign: string, digits: string, rest: string)
    requires sign == "" || (Signed(sign) && |sign| == 1)
    requires (forall k :: 0 <= k < |digits| ==> IsDigit(digits[k]))
    requires sign == "" && digits == "" && rest != "" ==> !IsSpace(rest[0]) && !Signed(rest)
    ensures var t := sign + (digits + rest);
      && (t != "" ==> !IsSpace(t[0])) && (Signed(t) <==> sign != "") && (sign != "" ==> t[0] == sign[0])
      && digits + rest == if Signed(t) then t[1..] else t
  {
    var u := digits + rest;
    var t := sign + u;
    if sign != "" {
      assert t[0] == sign[0] && t[1..] == u;
    } else {
      assert t == u;
      if digits != "" {
        assert t[0] == digits[0];
      } else {
        assert t == rest;
      }
    }
  }

  /** A length announced in decimal is read as that length exactly below 2^63, and as 2^63 - 1
      from there on. */
  lemma AnnouncedLength(h: HeaderMap, n: nat)
    requires Get(h, "content-length") == Some(Decimal(n))
    ensures ContentLength(h) == if n < SIZE_LIMIT / 2 then n else SIZE_LIMIT / 2 - 1
  {
    hide Get;
    hide StrToL;
    hide Decimal;
    hide DigitsValue;
    DecimalDigits(n);
    assert "" + "" + Decimal(n) + "" == Decimal(n);
    StrToLReads("", "", Decimal(n), "");
  }

  /** A negative length is read as a huge one: 2^64 less its size, which is taken as at most
      2^63. */
  lemma AnnouncedNegative(h: HeaderMap, n: nat)
    requires n > 0 && Get(h, "content-length") == Some("-" + Decimal(n))
    ensures ContentLength(h) == SIZE_LIMIT - if n <= SIZE_LIMIT / 2 then n else SIZE_LIMIT / 2
  {
    hide Get;
    hide StrToL;
    hide Decimal;
    hide DigitsValue;
    DecimalDigits(n);
    assert "" + "-" + Decimal(n) + "" == "-" + Decimal(n);
    StrToLReads("", "-", Decimal(n), "");
  }

  // ------------------------------------------------------------- what written headers announce

  /** The length and the framing that written headers announce, in whatever letter case: a decimal
      length exactly, if it fits; no length, no body; and chunks exactly when there is a transfer
      coding. */
  lemma WrittenAnnounce(fs: seq<Written>, n: nat)
    requires forall i :: 0 <= i < |fs| ==> fs[i].Valid()
    ensures LastValue(fs, "Content-Length") == Some(Decimal(n)) ==>
      ContentLength(AddAll(map[], fs)) == if n < 0x8000_0000_0000_0000 then n else 0x7fff_ffff_ffff_ffff
    ensures !Has(fs, "Content-Length") ==> ContentLength(AddAll(map[], fs)) == 0
    ensures IsContentChunked(AddAll(map[], fs)) <==> Has(fs, "Transfer-Encoding")
  {
    hide ToLower;
    hide AddAll;
    hide LastValue;
    hide Decimal;
    var h := AddAll(map[], fs);
    AddAllMeans(fs, "Content-Length");
    AddAllMeans(fs, "content-length");
    AddAllMeans(fs, "Transfer-Encoding");
    HasLastValue(fs, "Content-Length");
    HasLastValue(fs, "Transfer-Encoding");
    SameName(h);
    if LastValue(fs, "Content-Length") == Some(Decimal(n)) {
      AnnouncedLength(h, n);
    }
  }

  lemma SameName(h: HeaderMap)
    ensures Get(h, "content-length") == Get(h, "Content-Length")
  {
    hide ToLower;
    var small, usual := "content-length", "Content-Length";
    LetterTables(2);
    LetterTables(11);
    assert forall i :: 0 <= i < 14 && i != 0 && i != 8 ==> small[i] == usual[i];
    ToLowerIsSame(small, usual);
  }
}
