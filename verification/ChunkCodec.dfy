/** The chunked transfer coding of section 4.1 of RFC 7230, restricted to what the
    server accepts: no chunk extensions and no trailer fields.

    `Feed` reads the coding one byte at a time. It is the reference against which the
    block-reading decoder of ChunkedBodyParser.dfy is proved, and the encoder below
    is its inverse. */
module ChunkCodec {
  import opened Base

  // ---------------------------------------------------------------- hexadecimal sizes

  function HexDigit(c: char): (v: int)
    ensures -1 <= v < 16
  {
    if '0' <= c <= '9' then c as int - '0' as int
    else if 'a' <= c <= 'f' then 10 + (c as int - 'a' as int)
    else if 'A' <= c <= 'F' then 10 + (c as int - 'A' as int)
    else -1
  }

  predicate IsHex(s: string) {
    forall i :: 0 <= i < |s| ==> HexDigit(s[i]) >= 0
  }

  function HexValue(s: string): nat
    requires IsHex(s)
  {
    if s == "" then 0
    else HexValue(s[..|s| - 1]) * 16 + HexDigit(s[|s| - 1])
  }

  /** A chunk size: at least one digit, and small enough for a `size_t`. */
  predicate IsSize(s: string) {
    s != "" && IsHex(s) && HexValue(s) < SIZE_LIMIT
  }

  const LOWER_DIGITS := "0123456789abcdef"
  const UPPER_DIGITS := "0123456789ABCDEF"

  /** A digit as written, in either letter case. */
  predicate SpellsDigit(c: char, v: nat) {
    v < 16 && (c == LOWER_DIGITS[v] || c == UPPER_DIGITS[v])
  }

  /** A number as written in hexadecimal: in any letter case, digit by digit, and with any leading
      zeros. */
  predicate SpellsHex(s: string, n: nat)
    decreases |s|
  {
    && s != "" && SpellsDigit(s[|s| - 1], n % 16)
    && if |s| == 1 then n < 16 else SpellsHex(s[..|s| - 1], n / 16)
  }

  /** A character is worth what it spells. */
  lemma DigitSpelled(c: char)
    ensures forall v: nat :: SpellsDigit(c, v) <==> HexDigit(c) == v
  {
  }

  /** It is worth nothing exactly when it is in neither table. */
  lemma DigitRefused(c: char)
    ensures HexDigit(c) < 0 <==> c !in LOWER_DIGITS && c !in UPPER_DIGITS
  {
    if HexDigit(c) >= 0 {
      assert LOWER_DIGITS[HexDigit(c)] == c || UPPER_DIGITS[HexDigit(c)] == c;
    }
  }

  // One more digit, read and spelled.
  lemma LastDigit(v: nat, d: int, n: nat)
    requires 0 <= d < 16
    ensures v * 16 + d == n <==> v == n / 16 && d == n % 16
  {
  }

  /** A string is read as the number it spells, and as no number exactly when it spells none. */
  lemma {:induction false} HexReads(s: string, n: nat)
    ensures SpellsHex(s, n) <==> s != "" && IsHex(s) && HexValue(s) == n
    decreases |s|
  {
    hide SpellsDigit;
    hide HexDigit;
    if s != "" {
      var init, last := s[..|s| - 1], s[|s| - 1];
      DigitSpelled(last);
      HexReads(init, n / 16);
      assert IsHex(s) <==> IsHex(init) && HexDigit(last) >= 0;
      if IsHex(s) {
        LastDigit(HexValue(init), HexDigit(last), n);
      }
      assert |s| == 1 ==> init == "";
    }
  }

  /** How a size is printed: with at least so many digits, and in which letter case each is,
      counted from the last. */
  datatype HexStyle = HexStyle(width: nat, upper: nat -> bool) {
    /** The style of the digits before the last. */
    function Before(): HexStyle {
      HexStyle(if width == 0 then 0 else width - 1, (i: nat) => upper(i + 1))
    }
  }

  function PrintHex(n: nat, style: HexStyle): string
    decreases n + style.width
  {
    var last := [if style.upper(0) then UPPER_DIGITS[n % 16] else LOWER_DIGITS[n % 16]];
    if n < 16 && style.width <= 1 then last
    else PrintHex(n / 16, style.Before()) + last
  }

  /** Size round trip: a printed size is a size exactly when it fits, and is read as it was. */
  lemma HexRoundTrip(n: nat, style: HexStyle)
    ensures SpellsHex(PrintHex(n, style), n)
    ensures IsHex(PrintHex(n, style)) && HexValue(PrintHex(n, style)) == n
    ensures IsSize(PrintHex(n, style)) <==> n < 0x1_0000_0000_0000_0000
  {
    PrintedSpells(n, style);
    HexReads(PrintHex(n, style), n);
  }

  lemma {:induction false} PrintedSpells(n: nat, style: HexStyle)
    ensures SpellsHex(PrintHex(n, style), n)
    decreases n + style.width
  {
    if !(n < 16 && style.width <= 1) {
      PrintedSpells(n / 16, style.Before());
      var s := PrintHex(n, style);
      assert s[..|s| - 1] == PrintHex(n / 16, style.Before());
    }
  }

  // Reading further digits never makes the value smaller.
  lemma {:induction false} HexValueMonotone(t: string, i: nat)
    requires IsHex(t) && i <= |t|
    ensures HexValue(t[..i]) <= HexValue(t)
    decreases |t|
  {
    if i == |t| {
      assert t[..i] == t;
    } else {
      var u := t[..|t| - 1];
      assert u[..i] == t[..i];
      HexValueMonotone(u, i);
    }
  }

  // ------------------------------------------------------------ the byte-wise decoder

  datatype Phase = ReadingSize | ReadingData | ReadingTrailerCrlf | ReadingFinalCrlf | Done

  datatype Decoder = Decoder(
    phase: Phase,
    sizeBuffer: string,
    remaining: nat,
    total: nat,
    maxBody: nat,
    sawCR: bool)

  function Fresh(maxBody: nat): Decoder {
    Decoder(ReadingSize, "", 0, 0, maxBody, false)
  }

  datatype Step = Next(d: Decoder, out: string) | Reject(status: HttpStatus)

  /** What a size line announces. The limit is compared with a sum that may wrap. */
  function FinishSize(d: Decoder, hex: string): Step {
    var d := d.(sizeBuffer := "");
    if !IsSize(hex) then Reject(BadRequest)
    else if HexValue(hex) == 0 then Next(d.(phase := ReadingFinalCrlf), "")
    else if d.maxBody > 0 && AddSize(d.total, HexValue(hex)) > d.maxBody then Reject(PayloadTooLarge)
    else Next(d.(phase := ReadingData, remaining := HexValue(hex)), "")
  }

  predicate EndsWithCrlf(s: string) {
    |s| >= 2 && s[|s| - 2..] == CRLF
  }

  function StepByte(d: Decoder, c: char): Step
    requires !d.phase.Done?
  {
    match d.phase
    case ReadingSize =>
      var line := d.sizeBuffer + [c];
      if EndsWithCrlf(line) then FinishSize(d, line[..|line| - 2])
      else Next(d.(sizeBuffer := line), "")
    case ReadingData =>
      if d.maxBody > 0 && AddSize(d.total, 1) > d.maxBody then Reject(PayloadTooLarge)
      else if d.remaining <= 1 then
        Next(d.(total := AddSize(d.total, 1), remaining := 0, phase := ReadingTrailerCrlf), [c])
      else
        Next(d.(total := AddSize(d.total, 1), remaining := d.remaining - 1), [c])
    case ReadingTrailerCrlf => StepCrlf(d, c, ReadingSize)
    case ReadingFinalCrlf => StepCrlf(d, c, Done)
  }

  function StepCrlf(d: Decoder, c: char, then_: Phase): Step {
    if d.sawCR then
      if c == '\n' then Next(d.(sawCR := false, phase := then_), "") else Reject(BadRequest)
    else
      if c == '\r' then Next(d.(sawCR := true), "") else Reject(BadRequest)
  }

  /** The outcome of reading some input: the decoder reached, the bytes decoded and the
      bytes used (fewer than all only when the body ended), or the status of the failure. */
  datatype Fed = Fed(d: Decoder, out: string, used: nat) | Failed(status: HttpStatus)

  function Feed(d: Decoder, input: string): (r: Fed)
    ensures r.Fed? ==> r.used <= |input|
    ensures r.Fed? && !r.d.phase.Done? ==> r.used == |input|
    decreases |input|
  {
    if d.phase.Done? || input == "" then Fed(d, "", 0)
    else
      match StepByte(d, input[0])
      case Reject(status) => Failed(status)
      case Next(d', o) =>
        match Feed(d', input[1..])
        case Failed(status) => Failed(status)
        case Fed(d'', o', used) => Fed(d'', o + o', used + 1)
  }

  /** Continue with `b` after the outcome `r`. */
  function Then(r: Fed, b: string): Fed {
    match r
    case Failed(status) => Failed(status)
    case Fed(d, o, used) =>
      match Feed(d, b)
      case Failed(status) => Failed(status)
      case Fed(d', o', used') => Fed(d', o + o', used + used')
  }

  /** Split invariance: cutting the input anywhere changes nothing. */
  lemma {:induction false} FeedSplit(d: Decoder, a: string, b: string)
    ensures Feed(d, a + b) == Then(Feed(d, a), b)
    decreases |a|
  {
    if a == "" {
      assert a + b == b;
      assert Feed(d, a) == Fed(d, "", 0);
      match Feed(d, b) {
        case Failed(_) =>
        case Fed(_, o, _) => assert "" + o == o;
      }
    } else if d.phase.Done? {
    } else {
      assert (a + b)[0] == a[0] && (a + b)[1..] == a[1..] + b;
      match StepByte(d, a[0]) {
        case Reject(_) =>
        case Next(d', o) =>
          FeedSplit(d', a[1..], b);
          match Feed(d', a[1..]) {
            case Failed(_) =>
            case Fed(d1, o1, u1) =>
              match Feed(d1, b) {
                case Failed(_) =>
                case Fed(d2, o2, u2) => assert o + (o1 + o2) == (o + o1) + o2;
              }
          }
      }
    }
  }

  /** The decoder never looks at, and never uses, bytes after the end of the body. */
  lemma FeedStopsAtEnd(d: Decoder, input: string)
    requires Feed(d, input).Fed?
    ensures Feed(d, input[..Feed(d, input).used]) == Feed(d, input)
  {
    var r := Feed(d, input);
    if r.d.phase.Done? {
      FeedPrefix(d, input);
    } else {
      assert input[..r.used] == input;
    }
  }

  lemma {:induction false} FeedPrefix(d: Decoder, input: string)
    requires Feed(d, input).Fed?
    ensures Feed(d, input[..Feed(d, input).used]) == Feed(d, input)
    decreases |input|
  {
    if !d.phase.Done? && input != "" {
      var n := StepByte(d, input[0]);
      var rest := Feed(n.d, input[1..]);
      FeedPrefix(n.d, input[1..]);
      var p := input[..rest.used + 1];
      assert p[0] == input[0] && p[1..] == input[1..][..rest.used];
    }
  }

  // The total grows by no more than the bytes used.
  lemma {:induction false} FeedTotal(d: Decoder, input: string)
    requires Feed(d, input).Fed?
    ensures Feed(d, input).d.total <= d.total + Feed(d, input).used
    decreases |input|
  {
    if !d.phase.Done? && input != "" {
      FeedTotal(StepByte(d, input[0]).d, input[1..]);
    }
  }

  // ------------------------------------------------------- states the decoder can reach

  predicate NoCrlf(s: string) {
    forall i :: 0 <= i < |s| - 1 ==> !(s[i] == '\r' && s[i + 1] == '\n')
  }

  predicate Reachable(d: Decoder) {
    && d.total < SIZE_LIMIT && d.remaining < SIZE_LIMIT && d.maxBody < SIZE_LIMIT
    && (!d.phase.ReadingSize? ==> d.sizeBuffer == "")
    && (d.phase.ReadingSize? ==> NoCrlf(d.sizeBuffer) && !d.sawCR)
    && (d.phase.ReadingData? ==> d.remaining > 0 && !d.sawCR)
    && (d.phase.ReadingTrailerCrlf? ==> d.remaining == 0)
  }

  predicate WithinLimit(d: Decoder) {
    d.maxBody > 0 ==> d.total <= d.maxBody
  }

  /** The one bound the machine imposes: with a limit in force, the decoded total and the
      new input together fit a `size_t`. */
  predicate Fits(d: Decoder, input: string) {
    d.maxBody > 0 ==> d.total + |input| < SIZE_LIMIT
  }

  lemma StepReachable(d: Decoder, c: char)
    requires Reachable(d) && !d.phase.Done? && StepByte(d, c).Next?
    ensures Reachable(StepByte(d, c).d)
    ensures StepByte(d, c).d.maxBody == d.maxBody
  {
    if d.phase.ReadingSize? {
      var line := d.sizeBuffer + [c];
      if !EndsWithCrlf(line) {
        forall i | 0 <= i < |line| - 1
          ensures !(line[i] == '\r' && line[i + 1] == '\n')
        {
          if i == |line| - 2 {
            assert line[|line| - 2..] == [line[i], line[i + 1]];
          }
        }
      }
    }
  }

  // One byte adds at most one to the total, and never passes the limit.
  lemma StepWithinLimit(d: Decoder, c: char)
    requires Reachable(d) && WithinLimit(d) && Fits(d, [c]) && !d.phase.Done? && StepByte(d, c).Next?
    ensures var step := StepByte(d, c);
      && WithinLimit(step.d) && |step.out| <= 1
      && (d.maxBody > 0 ==> step.d.total == d.total + |step.out|)
  {
  }

  /** Body limit: in every reachable state the decoded total stays within the limit, and
      the total counts exactly the decoded bytes, whatever the sum at a size line wrapped to. */
  lemma {:induction false} FeedWithinLimit(d: Decoder, input: string)
    requires Reachable(d) && WithinLimit(d) && Fits(d, input) && Feed(d, input).Fed?
    ensures var r := Feed(d, input);
      && Reachable(r.d) && WithinLimit(r.d) && r.d.maxBody == d.maxBody
      && (d.maxBody > 0 ==> r.d.total == d.total + |r.out| <= d.maxBody)
      && |r.out| <= r.used
    decreases |input|
  {
    hide StepByte;
    hide Reachable;
    if !d.phase.Done? && input != "" {
      StepReachable(d, input[0]);
      StepWithinLimit(d, input[0]);
      FeedWithinLimit(StepByte(d, input[0]).d, input[1..]);
    }
  }

  // -------------------------------------------------------- what reading a block amounts to

  predicate FirstCrlf(s: string, p: nat) {
    p + 2 <= |s| && s[p] == '\r' && s[p + 1] == '\n' && NoCrlf(s[..p + 1])
  }

  lemma NoCrlfAtEnd(s: string, n: nat)
    requires NoCrlf(s) && n <= |s|
    ensures !EndsWithCrlf(s[..n])
  {
    if n >= 2 {
      assert s[..n][n - 2..] == [s[n - 2], s[n - 1]];
    }
  }

  // A block without a line end is only stored.
  lemma {:induction false} FeedSizeStores(d: Decoder, s: string)
    requires d.phase.ReadingSize? && NoCrlf(d.sizeBuffer + s)
    ensures Feed(d, s) == Fed(d.(sizeBuffer := d.sizeBuffer + s), "", |s|)
    decreases |s|
  {
    if s == "" {
      assert d.sizeBuffer + s == d.sizeBuffer;
    } else {
      var line := d.sizeBuffer + [s[0]];
      var whole := d.sizeBuffer + s;
      assert whole == line + s[1..];
      assert line == whole[..|line|];
      NoCrlfAtEnd(whole, |line|);
      FeedSizeStores(d.(sizeBuffer := line), s[1..]);
    }
  }

  function FedOf(step: Step, used: nat): Fed {
    match step
    case Reject(status) => Failed(status)
    case Next(d, out) => Fed(d, out, used)
  }

  // The byte that completes a line finishes it.
  lemma FeedLineEnd(d: Decoder, line: string)
    requires d.phase.ReadingSize? && EndsWithCrlf(line) && d.sizeBuffer == line[..|line| - 1]
    ensures Feed(d, line[|line| - 1..]) == FedOf(FinishSize(d, line[..|line| - 2]), 1)
  {
    var last := line[|line| - 1..];
    assert last[1..] == "";
    assert d.sizeBuffer + [last[0]] == line;
    var step := StepByte(d, last[0]);
    assert step == FinishSize(d, line[..|line| - 2]);
    if step.Next? {
      assert Feed(step.d, "") == Fed(step.d, "", 0);
      assert step.out + "" == step.out;
    }
  }

  // A block that completes the line is read as that line.
  lemma FeedSizeLine(d: Decoder, s: string, p: nat)
    requires d.phase.ReadingSize? && NoCrlf(d.sizeBuffer) && FirstCrlf(d.sizeBuffer + s, p)
    ensures |d.sizeBuffer| < p + 2 <= |d.sizeBuffer| + |s|
    ensures var used := p + 2 - |d.sizeBuffer|;
      Feed(d, s[..used]) == FedOf(FinishSize(d, (d.sizeBuffer + s)[..p]), used)
  {
    hide Feed;
    var whole := d.sizeBuffer + s;
    var used := p + 2 - |d.sizeBuffer|;
    var line := whole[..p + 2];
    assert used >= 1 by {
      assert forall i :: 0 <= i < |d.sizeBuffer| ==> whole[i] == d.sizeBuffer[i];
    }
    var d1 := d.(sizeBuffer := line[..p + 1]);
    assert d.sizeBuffer + s[..used - 1] == line[..p + 1] == whole[..p + 1];
    FeedSizeStores(d, s[..used - 1]);
    assert line[p..] == CRLF && line[..p] == whole[..p];
    FeedLineEnd(d1, line);
    assert s[..used] == s[..used - 1] + line[p + 1..];
    FeedSplit(d, s[..used - 1], line[p + 1..]);
    SameLine(d, d1, whole[..p]);
    match FinishSize(d, whole[..p]) {
      case Reject(_) =>
      case Next(_, out) => assert "" + out == out;
    }
  }

  lemma SameLine(d: Decoder, d1: Decoder, hex: string)
    requires d1 == d.(sizeBuffer := d1.sizeBuffer)
    ensures FinishSize(d1, hex) == FinishSize(d, hex)
  {
  }

  function AfterData(d: Decoder, n: nat): Decoder
    requires n <= d.remaining
  {
    d.(total := AddSize(d.total, n), remaining := d.remaining - n,
       phase := if d.remaining == n then ReadingTrailerCrlf else ReadingData)
  }

  lemma AfterDataTwice(d: Decoder, m: nat, n: nat)
    requires m + n <= d.remaining
    ensures AfterData(AfterData(d, m), n) == AfterData(d, m + n)
  {
  }

  lemma StepData(d: Decoder, c: char)
    requires d.phase.ReadingData? && d.remaining > 0 && d.total + 1 <= SIZE_LIMIT
    requires d.maxBody > 0 ==> d.total + 1 <= d.maxBody < SIZE_LIMIT
    ensures StepByte(d, c) == Next(AfterData(d, 1), [c])
  {
  }

  // A block of data inside the limit is decoded whole.
  lemma {:induction false} FeedDataCopies(d: Decoder, s: string)
    requires d.phase.ReadingData? && 0 < |s| <= d.remaining && d.total < SIZE_LIMIT && d.maxBody < SIZE_LIMIT
    requires d.maxBody > 0 ==> d.total + |s| <= d.maxBody
    ensures Feed(d, s) == Fed(AfterData(d, |s|), s, |s|)
    decreases |s|
  {
    hide StepByte;
    var d1 := AfterData(d, 1);
    StepData(d, s[0]);
    assert s == [s[0]] + s[1..];
    if |s| > 1 {
      FeedDataCopies(d1, s[1..]);
      AfterDataTwice(d, 1, |s| - 1);
    } else {
      assert s[1..] == "";
    }
  }

  // A block of data that oversteps the limit is refused.
  lemma {:induction false} FeedDataRefuses(d: Decoder, s: string)
    requires d.phase.ReadingData? && |s| <= d.remaining && d.total < SIZE_LIMIT && Fits(d, s)
    requires 0 < d.maxBody < d.total + |s| && s != ""
    ensures Feed(d, s) == Failed(PayloadTooLarge)
    decreases |s|
  {
    if d.total + 1 <= d.maxBody {
      assert StepByte(d, s[0]) == Next(AfterData(d, 1), [s[0]]);
      FeedDataRefuses(AfterData(d, 1), s[1..]);
    }
  }

  // ----------------------------------------------------------------------- the encoder

  /** One chunk as written: its size in any letter case with any leading zeros, and its data. */
  datatype Chunk = Chunk(hex: string, data: string) {
    predicate Valid() {
      0 < |data| < SIZE_LIMIT && SpellsHex(hex, |data|)
    }

    function Encoded(): string {
      hex + CRLF + data + CRLF
    }
  }

  predicate AllValid(chunks: seq<Chunk>) {
    forall i :: 0 <= i < |chunks| ==> chunks[i].Valid()
  }

  function Encode(chunks: seq<Chunk>): string {
    if chunks == [] then "" else Encode(chunks[..|chunks| - 1]) + chunks[|chunks| - 1].Encoded()
  }

  function Data(chunks: seq<Chunk>): string {
    if chunks == [] then "" else Data(chunks[..|chunks| - 1]) + chunks[|chunks| - 1].data
  }

  predicate IsZeroSize(hex: string) {
    SpellsHex(hex, 0)
  }

  // A spelled size is read as its number.
  lemma SpelledSize(hex: string, n: nat)
    requires n < SIZE_LIMIT
    ensures SpellsHex(hex, n) <==> IsSize(hex) && HexValue(hex) == n
  {
    HexReads(hex, n);
  }

  /** A whole chunked body: chunks, then the zero-size chunk and the final line end. */
  function EncodeBody(chunks: seq<Chunk>, zero: string): string {
    Encode(chunks) + zero + CRLF + CRLF
  }

  lemma HexHasNoCrlf(hex: string, rest: string)
    requires IsHex(hex)
    ensures FirstCrlf(hex + CRLF + rest, |hex|)
  {
    var s := hex + CRLF + rest;
    assert s[|hex|] == '\r' && s[|hex| + 1] == '\n';
    forall i | 0 <= i < |hex|
      ensures s[i] != '\r'
    {
      assert s[i] == hex[i] && HexDigit(hex[i]) >= 0;
    }
  }

  // Reading a size line from the start of a line.
  lemma FeedSizeToken(d: Decoder, hex: string)
    requires d.phase.ReadingSize? && d.sizeBuffer == "" && IsHex(hex)
    ensures Feed(d, hex + CRLF) == FedOf(FinishSize(d, hex), |hex| + 2)
  {
    HexHasNoCrlf(hex, "");
    var s := hex + CRLF;
    assert s + "" == s && d.sizeBuffer + s == s;
    FeedSizeLine(d, s, |hex|);
    assert s[..|hex| + 2] == s && s[..|hex|] == hex;
  }

  lemma FeedCrlf(d: Decoder)
    requires d.phase.ReadingTrailerCrlf? || d.phase.ReadingFinalCrlf?
    requires !d.sawCR
    ensures Feed(d, CRLF) ==
      Fed(d.(phase := if d.phase.ReadingTrailerCrlf? then ReadingSize else Done), "", 2)
  {
    var d1 := d.(sawCR := true);
    assert CRLF[1..] == "\n";
    assert "\n"[1..] == "";
    assert Feed(d1, "\n") == Fed(StepByte(d1, '\n').d, "", 1);
  }

  /** The decoder at the start of a size line, having decoded `total` bytes. */
  function LineStart(maxBody: nat, total: nat): Decoder {
    Fresh(maxBody).(total := total)
  }

  predicate Exceeds(maxBody: nat, n: nat) {
    0 < maxBody < n
  }

  lemma DecodeChunk(maxBody: nat, total: nat, c: Chunk)
    requires maxBody < SIZE_LIMIT && c.Valid() && total + |c.data| < SIZE_LIMIT && !Exceeds(maxBody, total)
    ensures Feed(LineStart(maxBody, total), c.Encoded()) ==
      if Exceeds(maxBody, total + |c.data|) then Failed(PayloadTooLarge)
      else Fed(LineStart(maxBody, total + |c.data|), c.data, |c.Encoded()|)
  {
    hide Feed;
    var d := LineStart(maxBody, total);
    var line := c.hex + CRLF;
    assert c.Encoded() == line + (c.data + CRLF);
    FeedSplit(d, line, c.data + CRLF);
    SpelledSize(c.hex, |c.data|);
    FeedSizeToken(d, c.hex);
    AnnounceChunk(maxBody, total, c);
    if !Exceeds(maxBody, total + |c.data|) {
      var d1 := d.(phase := ReadingData, remaining := |c.data|);
      DecodeDataAndCrlf(d1, c.data);
      assert "" + c.data == c.data;
    }
  }

  lemma AnnounceChunk(maxBody: nat, total: nat, c: Chunk)
    requires c.Valid() && total + |c.data| < SIZE_LIMIT
    ensures FinishSize(LineStart(maxBody, total), c.hex) ==
      if Exceeds(maxBody, total + |c.data|) then Reject(PayloadTooLarge)
      else Next(LineStart(maxBody, total).(phase := ReadingData, remaining := |c.data|), "")
  {
    SpelledSize(c.hex, |c.data|);
  }

  // The data of a chunk and the line end after it.
  lemma DecodeDataAndCrlf(d: Decoder, data: string)
    requires d.phase.ReadingData? && d.sizeBuffer == "" && !d.sawCR && d.remaining == |data| > 0
    requires d.total + |data| < SIZE_LIMIT && d.maxBody < SIZE_LIMIT && !Exceeds(d.maxBody, d.total + |data|)
    ensures Feed(d, data + CRLF) == Fed(LineStart(d.maxBody, d.total + |data|), data, |data| + 2)
  {
    hide Feed;
    FeedSplit(d, data, CRLF);
    FeedDataCopies(d, data);
    FeedCrlf(AfterData(d, |data|));
    assert data + "" == data;
  }

  lemma {:induction false} DecodeChunks(maxBody: nat, chunks: seq<Chunk>)
    requires maxBody < SIZE_LIMIT && AllValid(chunks) && |Data(chunks)| < SIZE_LIMIT
    ensures Feed(Fresh(maxBody), Encode(chunks)) ==
      if Exceeds(maxBody, |Data(chunks)|) then Failed(PayloadTooLarge)
      else Fed(LineStart(maxBody, |Data(chunks)|), Data(chunks), |Encode(chunks)|)
    decreases |chunks|
  {
    var d := Fresh(maxBody);
    if chunks != [] {
      var init, last := chunks[..|chunks| - 1], chunks[|chunks| - 1];
      DecodeChunks(maxBody, init);
      FeedSplit(d, Encode(init), last.Encoded());
      if !Exceeds(maxBody, |Data(init)|) {
        DecodeChunk(maxBody, |Data(init)|, last);
      }
    }
  }

  lemma DecodeEnd(d: Decoder, zero: string)
    requires d == LineStart(d.maxBody, d.total) && IsZeroSize(zero)
    ensures Feed(d, zero + CRLF + CRLF) == Fed(d.(phase := Done), "", |zero| + 4)
  {
    FeedSplit(d, zero + CRLF, CRLF);
    SpelledSize(zero, 0);
    FeedSizeToken(d, zero);
    FeedCrlf(d.(phase := ReadingFinalCrlf));
  }

  lemma FeedDone(d: Decoder, input: string)
    requires d.phase.Done?
    ensures Feed(d, input) == Fed(d, "", 0)
  {
  }

  /** Decoding inverts encoding: an encoded body followed by anything decodes to its data
      and uses exactly the encoding, unless the data oversteps the limit, in which case it
      is refused as too large. */
  lemma DecodeInvertsEncode(maxBody: nat, chunks: seq<Chunk>, zero: string, suffix: string)
    requires maxBody < SIZE_LIMIT && |Data(chunks)| < SIZE_LIMIT
    requires AllValid(chunks) && IsZeroSize(zero)
    ensures
      Feed(Fresh(maxBody), EncodeBody(chunks, zero) + suffix) ==
      if Exceeds(maxBody, |Data(chunks)|) then Failed(PayloadTooLarge)
      else Fed(LineStart(maxBody, |Data(chunks)|).(phase := Done), Data(chunks), |EncodeBody(chunks, zero)|)
  {
    hide Feed;
    var d := Fresh(maxBody);
    var end := zero + CRLF + CRLF;
    assert EncodeBody(chunks, zero) + suffix == Encode(chunks) + (end + suffix);
    DecodeChunks(maxBody, chunks);
    FeedSplit(d, Encode(chunks), end + suffix);
    if !Exceeds(maxBody, |Data(chunks)|) {
      var d' := LineStart(maxBody, |Data(chunks)|);
      FeedSplit(d', end, suffix);
      DecodeEnd(d', zero);
      FeedDone(d'.(phase := Done), suffix);
      assert Data(chunks) + ("" + "") == Data(chunks);
    }
  }

  // ------------------------------------------------------------- bodies made from their data

  /** Chunks made from their data alone, with a style for each size. */
  function Printed(pieces: seq<string>, styles: seq<HexStyle>): (chunks: seq<Chunk>)
    requires |styles| == |pieces|
  {
    seq(|pieces|, i requires 0 <= i < |pieces| => Chunk(PrintHex(|pieces[i]|, styles[i]), pieces[i]))
  }

  function Joined(pieces: seq<string>): string {
    if pieces == [] then "" else Joined(pieces[..|pieces| - 1]) + pieces[|pieces| - 1]
  }

  lemma {:induction false} PrintedData(pieces: seq<string>, styles: seq<HexStyle>)
    requires |styles| == |pieces| && forall i :: 0 <= i < |pieces| ==> 0 < |pieces[i]| < SIZE_LIMIT
    ensures AllValid(Printed(pieces, styles)) && Data(Printed(pieces, styles)) == Joined(pieces)
    decreases |pieces|
  {
    hide SpellsHex;
    hide PrintHex;
    if pieces != [] {
      var n := |pieces| - 1;
      PrintedData(pieces[..n], styles[..n]);
      HexRoundTrip(|pieces[n]|, styles[n]);
      LastPrinted(pieces, styles);
    }
  }

  lemma LastPrinted(pieces: seq<string>, styles: seq<HexStyle>)
    requires |styles| == |pieces| > 0
    ensures var n := |pieces| - 1;
      && Printed(pieces, styles)[..n] == Printed(pieces[..n], styles[..n])
      && Printed(pieces, styles)[n] == Chunk(PrintHex(|pieces[n]|, styles[n]), pieces[n])
  {
    hide PrintHex;
  }

  /** Body round trip: any data, cut into non-empty pieces in any way, each sent as a chunk with its
      length printed in any style, is decoded to the pieces in order, or refused as too large
      exactly when there is more of it than the limit. */
  lemma DecodePrinted(maxBody: nat, pieces: seq<string>, styles: seq<HexStyle>, end: HexStyle, suffix: string)
    requires maxBody < SIZE_LIMIT && |Joined(pieces)| < SIZE_LIMIT
    requires |styles| == |pieces| && forall i :: 0 <= i < |pieces| ==> 0 < |pieces[i]| < SIZE_LIMIT
    ensures var body := EncodeBody(Printed(pieces, styles), PrintHex(0, end));
      var r := Feed(Fresh(maxBody), body + suffix);
      if 0 < maxBody < |Joined(pieces)| then r == Failed(PayloadTooLarge)
      else r.Fed? && r.d.phase.Done? && r.out == Joined(pieces) && r.used == |body|
  {
    hide Feed;
    PrintedData(pieces, styles);
    HexRoundTrip(0, end);
    DecodeInvertsEncode(maxBody, Printed(pieces, styles), PrintHex(0, end), suffix);
  }

  // ------------------------------------------- everything decoded is such an encoding

  /** What has been read so far: finished chunks, then the size and data of the current one. */
  datatype Trace = Trace(chunks: seq<Chunk>, hex: string, data: string)

  predicate IsSizeOf(hex: string, n: nat) {
    n < SIZE_LIMIT && SpellsHex(hex, n)
  }

  lemma SizeSpelled(hex: string)
    ensures IsSize(hex) <==> exists n :: IsSizeOf(hex, n)
  {
    if IsSize(hex) {
      SpelledSize(hex, HexValue(hex));
      assert IsSizeOf(hex, HexValue(hex));
    }
    if n :| IsSizeOf(hex, n) {
      SpelledSize(hex, n);
    }
  }

  predicate Explains(t: Trace, d: Decoder, read: string, out: string) {
    var done := Encode(t.chunks);
    var cr := if d.sawCR then "\r" else "";
    && AllValid(t.chunks)
    && match d.phase
       case ReadingSize => !d.sawCR && read == done + d.sizeBuffer && out == Data(t.chunks)
       case ReadingData =>
         && !d.sawCR && d.remaining > 0 && IsSizeOf(t.hex, |t.data| + d.remaining)
         && d.sizeBuffer == "" && read == done + t.hex + CRLF + t.data && out == Data(t.chunks) + t.data
       case ReadingTrailerCrlf =>
         && |t.data| > 0 && IsSizeOf(t.hex, |t.data|)
         && d.sizeBuffer == "" && read == done + t.hex + CRLF + t.data + cr && out == Data(t.chunks) + t.data
       case ReadingFinalCrlf =>
         && IsZeroSize(t.hex)
         && d.sizeBuffer == "" && read == done + t.hex + CRLF + cr && out == Data(t.chunks)
       case Done =>
         IsZeroSize(t.hex) && read == EncodeBody(t.chunks, t.hex) && out == Data(t.chunks)
  }

  lemma ExplainStep(t: Trace, d: Decoder, read: string, out: string, c: char) returns (t': Trace)
    requires !d.phase.Done? && Explains(t, d, read, out) && StepByte(d, c).Next?
    ensures Explains(t', StepByte(d, c).d, read + [c], out + StepByte(d, c).out)
  {
    if d.phase.ReadingSize? {
      t' := ExplainSizeByte(t, d, read, out, c);
    } else if d.phase.ReadingData? {
      t' := ExplainDataByte(t, d, read, out, c);
    } else {
      t' := ExplainCrlfByte(t, d, read, out, c);
    }
  }

  lemma ExplainSizeByte(t: Trace, d: Decoder, read: string, out: string, c: char) returns (t': Trace)
    requires d.phase.ReadingSize? && Explains(t, d, read, out) && StepByte(d, c).Next?
    ensures Explains(t', StepByte(d, c).d, read + [c], out + StepByte(d, c).out)
  {
    hide SpellsHex;
    var line := d.sizeBuffer + [c];
    assert read + [c] == Encode(t.chunks) + line;
    assert out + "" == out;
    if EndsWithCrlf(line) {
      var hex := line[..|line| - 2];
      assert line == hex + CRLF;
      assert read + [c] == Encode(t.chunks) + hex + CRLF;
      SpelledSize(hex, HexValue(hex));
      t' := Trace(t.chunks, hex, "");
    } else {
      t' := t;
    }
  }

  lemma ExplainDataByte(t: Trace, d: Decoder, read: string, out: string, c: char) returns (t': Trace)
    requires d.phase.ReadingData? && Explains(t, d, read, out) && StepByte(d, c).Next?
    ensures Explains(t', StepByte(d, c).d, read + [c], out + StepByte(d, c).out)
  {
    hide SpellsHex;
    hide Encode;
    hide Data;
    hide AllValid;
    t' := t.(data := t.data + [c]);
    assert read + [c] == Encode(t.chunks) + t.hex + CRLF + t'.data;
    assert out + [c] == Data(t.chunks) + t'.data;
  }

  lemma ExplainCrlfByte(t: Trace, d: Decoder, read: string, out: string, c: char) returns (t': Trace)
    requires d.phase.ReadingTrailerCrlf? || d.phase.ReadingFinalCrlf?
    requires Explains(t, d, read, out) && StepByte(d, c).Next?
    ensures Explains(t', StepByte(d, c).d, read + [c], out + StepByte(d, c).out)
  {
    hide IsSizeOf;
    assert out + "" == out;
    if !d.sawCR {
      assert [c] == "\r";
      t' := t;
    } else if d.phase.ReadingFinalCrlf? {
      assert read + [c] == Encode(t.chunks) + t.hex + CRLF + CRLF;
      t' := t;
    } else {
      t' := ExplainChunkEnd(t, read, out);
    }
  }

  // The line end after the data turns the current chunk into a finished one.
  lemma ExplainChunkEnd(t: Trace, read: string, out: string) returns (t': Trace)
    requires AllValid(t.chunks) && |t.data| > 0 && IsSizeOf(t.hex, |t.data|)
    requires read == Encode(t.chunks) + t.hex + CRLF + t.data + "\r" && out == Data(t.chunks) + t.data
    ensures AllValid(t'.chunks) && read + "\n" == Encode(t'.chunks) && out == Data(t'.chunks)
  {
    var chunk := Chunk(t.hex, t.data);
    t' := Trace(t.chunks + [chunk], "", "");
    assert t'.chunks[..|t.chunks|] == t.chunks;
    assert read + "\n" == Encode(t.chunks) + chunk.Encoded();
  }

  lemma {:induction false} ExplainFeed(t: Trace, d: Decoder, read: string, out: string, input: string)
    returns (t': Trace)
    requires Explains(t, d, read, out) && Feed(d, input).Fed?
    ensures var r := Feed(d, input); Explains(t', r.d, read + input[..r.used], out + r.out)
    decreases |input|
  {
    hide Explains;
    hide StepByte;
    if d.phase.Done? || input == "" {
      t' := t;
      assert read + input[..0] == read && out + "" == out;
    } else {
      var step := StepByte(d, input[0]);
      var t1 := ExplainStep(t, d, read, out, input[0]);
      t' := ExplainFeed(t1, step.d, read + [input[0]], out + step.out, input[1..]);
      var r, r1 := Feed(d, input), Feed(step.d, input[1..]);
      assert read + [input[0]] + input[1..][..r1.used] == read + input[..r.used];
      assert out + step.out + r1.out == out + r.out;
    }
  }

  /** Whatever a fresh decoder accepts is the encoding of its output, within the limit. */
  lemma AcceptedIsEncoded(maxBody: nat, input: string) returns (chunks: seq<Chunk>, zero: string)
    requires maxBody < SIZE_LIMIT && |input| < SIZE_LIMIT
    requires Feed(Fresh(maxBody), input).Fed? && Feed(Fresh(maxBody), input).d.phase.Done?
    ensures AllValid(chunks) && IsZeroSize(zero)
    ensures var r := Feed(Fresh(maxBody), input);
      input[..r.used] == EncodeBody(chunks, zero) && r.out == Data(chunks)
    ensures !Exceeds(maxBody, |Data(chunks)|)
  {
    hide Feed;
    var t := ExplainFeed(Trace([], "", ""), Fresh(maxBody), "", "", input);
    var r := Feed(Fresh(maxBody), input);
    assert "" + input[..r.used] == input[..r.used] && "" + r.out == r.out;
    FeedWithinLimit(Fresh(maxBody), input);
    chunks, zero := t.chunks, t.hex;
  }

  /** Both directions together: the accepted inputs are exactly the encodings, within the
      limit, followed by anything. */
  lemma AcceptsExactlyEncodings(maxBody: nat, input: string)
    requires maxBody < SIZE_LIMIT && |input| < SIZE_LIMIT
    ensures var r := Feed(Fresh(maxBody), input);
      r.Fed? && r.d.phase.Done? <==>
      exists chunks, zero :: AllValid(chunks) && IsZeroSize(zero)
        && !Exceeds(maxBody, |Data(chunks)|)
        && EncodeBody(chunks, zero) <= input
  {
    hide Feed;
    hide IsZeroSize;
    hide AllValid;
    var r := Feed(Fresh(maxBody), input);
    if r.Fed? && r.d.phase.Done? {
      var chunks, zero := AcceptedIsEncoded(maxBody, input);
    }
    if chunks, zero :| AllValid(chunks) && IsZeroSize(zero)
                       && !Exceeds(maxBody, |Data(chunks)|)
                       && EncodeBody(chunks, zero) <= input {
      var body := EncodeBody(chunks, zero);
      assert input == body + input[|body|..];
      DataShorter(chunks);
      DecodeInvertsEncode(maxBody, chunks, zero, input[|body|..]);
    }
  }

  // --------------------------------------------------------------- and what is refused, and why

  /** What can be wrong after some whole chunks: a line that spells no size; a size, or data, that
      oversteps the limit; or data, or a size of zero, without its line end. */
  datatype Fault =
    | BadSize(line: string)
    | TooLarge(hex: string, size: nat)
    | TooLong(hex: string, size: nat, data: string)
    | Unterminated(hex: string, data: string, end: string)
  {
    function Text(): string {
      match this
      case BadSize(line) => line + CRLF
      case TooLarge(hex, _) => hex + CRLF
      case TooLong(hex, _, data) => hex + CRLF + data
      case Unterminated(hex, data, end) => hex + CRLF + data + end
    }

    function Status(): HttpStatus {
      if BadSize? || Unterminated? then BadRequest else PayloadTooLarge
    }

    /** The fault, after `total` bytes of data. A size is compared with a sum that may wrap. */
    ghost predicate Occurs(maxBody: nat, total: nat) {
      match this
      case BadSize(line) => NoCrlf(line + "\r") && !exists n :: IsSizeOf(line, n)
      case TooLarge(hex, size) => IsSizeOf(hex, size) && size > 0 && 0 < maxBody < (total + size) % SIZE_LIMIT
      case TooLong(hex, size, data) =>
        IsSizeOf(hex, size) && 0 < |data| <= size && 0 < maxBody < total + |data|
      case Unterminated(hex, data, end) =>
        && IsSizeOf(hex, |data|) && !(0 < maxBody < total + |data|)
        && ((|end| == 1 && end != "\r") || (|end| == 2 && end[0] == '\r' && end[1] != '\n'))
    }
  }

  // Each fault is refused with its status.
  lemma FaultRefused(d: Decoder, fault: Fault)
    requires d == LineStart(d.maxBody, d.total) && fault.Occurs(d.maxBody, d.total)
    requires d.maxBody < SIZE_LIMIT && d.total + |fault.Text()| < SIZE_LIMIT && !Exceeds(d.maxBody, d.total)
    ensures Feed(d, fault.Text()) == Failed(fault.Status())
  {
    hide Feed;
    hide SpellsHex;
    match fault {
      case BadSize(line) => BadSizeRefused(d, line);
      case TooLarge(hex, size) =>
        SpelledSize(hex, size);
        FeedSizeToken(d, hex);
      case TooLong(hex, size, data) => TooLongRefused(d, hex, size, data);
      case Unterminated(hex, data, end) => UnterminatedRefused(d, hex, data, end);
    }
  }

  lemma BadSizeRefused(d: Decoder, line: string)
    requires d.phase.ReadingSize? && d.sizeBuffer == ""
    requires NoCrlf(line + "\r") && !exists n :: IsSizeOf(line, n)
    ensures Feed(d, line + CRLF) == Failed(BadRequest)
  {
    hide Feed;
    hide SpellsHex;
    var s := line + CRLF;
    assert d.sizeBuffer + s == s && s[..|line| + 1] == line + "\r" && s[..|line|] == line && s[..|s|] == s;
    FeedSizeLine(d, s, |line|);
    SizeSpelled(line);
  }

  // A size that is no fault: the decoder goes on to the data, or to the end.
  lemma Announced(d: Decoder, hex: string, size: nat)
    requires d == LineStart(d.maxBody, d.total) && IsSizeOf(hex, size)
    ensures Feed(d, hex + CRLF) ==
      if size == 0 then Fed(d.(phase := ReadingFinalCrlf), "", |hex| + 2)
      else if 0 < d.maxBody < (d.total + size) % SIZE_LIMIT then Failed(PayloadTooLarge)
      else Fed(d.(phase := ReadingData, remaining := size), "", |hex| + 2)
  {
    hide Feed;
    hide FinishSize;
    hide SpellsHex;
    SpelledSize(hex, size);
    FeedSizeToken(d, hex);
    SizeFinished(d, hex, size);
  }

  lemma SizeFinished(d: Decoder, hex: string, size: nat)
    requires d.sizeBuffer == "" && IsSize(hex) && HexValue(hex) == size
    ensures FinishSize(d, hex) ==
      if size == 0 then Next(d.(phase := ReadingFinalCrlf), "")
      else if 0 < d.maxBody < (d.total + size) % SIZE_LIMIT then Reject(PayloadTooLarge)
      else Next(d.(phase := ReadingData, remaining := size), "")
  {
  }

  lemma TooLongRefused(d: Decoder, hex: string, size: nat, data: string)
    requires d == LineStart(d.maxBody, d.total) && d.maxBody < SIZE_LIMIT && d.total + |data| < SIZE_LIMIT
    requires IsSizeOf(hex, size) && 0 < |data| <= size && 0 < d.maxBody < d.total + |data|
    ensures Feed(d, hex + CRLF + data) == Failed(PayloadTooLarge)
  {
    hide Feed;
    hide SpellsHex;
    FeedSplit(d, hex + CRLF, data);
    Announced(d, hex, size);
    if !(0 < d.maxBody < (d.total + size) % SIZE_LIMIT) {
      FeedDataRefuses(d.(phase := ReadingData, remaining := size), data);
    }
  }

  lemma UnterminatedRefused(d: Decoder, hex: string, data: string, end: string)
    requires d == LineStart(d.maxBody, d.total) && d.maxBody < SIZE_LIMIT && d.total + |data| < SIZE_LIMIT
    requires IsSizeOf(hex, |data|) && !(0 < d.maxBody < d.total + |data|)
    requires (|end| == 1 && end != "\r") || (|end| == 2 && end[0] == '\r' && end[1] != '\n')
    ensures Feed(d, hex + CRLF + data + end) == Failed(BadRequest)
  {
    hide Feed;
    hide SpellsHex;
    if data == "" {
      assert hex + CRLF + data + end == hex + CRLF + end;
      ZeroUnterminated(d, hex, end);
    } else {
      var d1 := d.(phase := ReadingData, remaining := |data|);
      assert hex + CRLF + data + end == hex + CRLF + (data + end);
      FeedSplit(d, hex + CRLF, data + end);
      Announced(d, hex, |data|);
      DataUnterminated(d1, data, end);
    }
  }

  lemma ZeroUnterminated(d: Decoder, hex: string, end: string)
    requires d == LineStart(d.maxBody, d.total) && IsSizeOf(hex, 0)
    requires (|end| == 1 && end != "\r") || (|end| == 2 && end[0] == '\r' && end[1] != '\n')
    ensures Feed(d, hex + CRLF + end) == Failed(BadRequest)
  {
    hide Feed;
    hide SpellsHex;
    FeedSplit(d, hex + CRLF, end);
    Announced(d, hex, 0);
    WrongLineEnd(d.(phase := ReadingFinalCrlf), end);
  }

  lemma DataUnterminated(d: Decoder, data: string, end: string)
    requires d.phase.ReadingData? && !d.sawCR && d.maxBody < SIZE_LIMIT && d.total + |data| < SIZE_LIMIT
    requires d.remaining == |data| > 0 && !(0 < d.maxBody < d.total + |data|)
    requires (|end| == 1 && end != "\r") || (|end| == 2 && end[0] == '\r' && end[1] != '\n')
    ensures Feed(d, data + end) == Failed(BadRequest)
  {
    hide Feed;
    FeedSplit(d, data, end);
    FeedDataCopies(d, data);
    WrongLineEnd(AfterData(d, |data|), end);
  }

  lemma WrongLineEnd(d: Decoder, end: string)
    requires (d.phase.ReadingTrailerCrlf? || d.phase.ReadingFinalCrlf?) && !d.sawCR
    requires (|end| == 1 && end != "\r") || (|end| == 2 && end[0] == '\r' && end[1] != '\n')
    ensures Feed(d, end) == Failed(BadRequest)
  {
    if |end| == 2 {
      assert end[1..][0] == end[1];
      assert Feed(d.(sawCR := true), end[1..]) == Failed(BadRequest);
    } else {
      assert end == [end[0]];
    }
  }

  // A refusal comes at some byte; up to there all was well.
  lemma {:induction false} RefusedAt(d: Decoder, input: string) returns (n: nat)
    requires Feed(d, input).Failed?
    ensures n < |input| && Feed(d, input[..n]).Fed? && Feed(d, input[..n]).used == n
    ensures var d' := Feed(d, input[..n]).d;
      !d'.phase.Done? && StepByte(d', input[n]) == Reject(Feed(d, input).status)
    decreases |input|
  {
    hide StepByte;
    var step := StepByte(d, input[0]);
    if step.Reject? {
      n := 0;
    } else {
      var m := RefusedAt(step.d, input[1..]);
      n := m + 1;
      assert input[..n][0] == input[0] && input[..n][1..] == input[1..][..m];
    }
  }

  // The byte that is refused shows what is wrong.
  lemma FaultOf(t: Trace, d: Decoder, read: string, out: string, c: char) returns (fault: Fault)
    requires !d.phase.Done? && Explains(t, d, read, out) && StepByte(d, c).Reject?
    requires Reachable(d) && (d.maxBody > 0 ==> d.total == |out| <= d.maxBody) && |out| + 1 < SIZE_LIMIT
    ensures fault.Occurs(d.maxBody, |Data(t.chunks)|) && fault.Status() == StepByte(d, c).status
    ensures read + [c] == Encode(t.chunks) + fault.Text()
    ensures AllValid(t.chunks) && !Exceeds(d.maxBody, |Data(t.chunks)|)
  {
    hide SpellsHex;
    if d.phase.ReadingSize? {
      fault := SizeFault(t, d, read, out, c);
    } else if d.phase.ReadingData? {
      fault := DataFault(t, d, read, out, c);
    } else {
      fault := LineEndFault(t, d, read, out, c);
    }
  }

  lemma DataFault(t: Trace, d: Decoder, read: string, out: string, c: char) returns (fault: Fault)
    requires d.phase.ReadingData? && Explains(t, d, read, out) && StepByte(d, c).Reject?
    requires Reachable(d) && (d.maxBody > 0 ==> d.total == |out| <= d.maxBody) && |out| + 1 < SIZE_LIMIT
    ensures fault.Occurs(d.maxBody, |Data(t.chunks)|) && fault.Status() == StepByte(d, c).status
    ensures read + [c] == Encode(t.chunks) + fault.Text()
  {
    hide SpellsHex;
    hide Encode;
    hide Data;
    hide AllValid;
    fault := TooLong(t.hex, |t.data| + d.remaining, t.data + [c]);
    assert read + [c] == Encode(t.chunks) + (t.hex + CRLF + (t.data + [c]));
  }

  lemma LineEndFault(t: Trace, d: Decoder, read: string, out: string, c: char) returns (fault: Fault)
    requires (d.phase.ReadingTrailerCrlf? || d.phase.ReadingFinalCrlf?) && Explains(t, d, read, out)
    requires StepByte(d, c).Reject? && (d.maxBody > 0 ==> d.total == |out| <= d.maxBody)
    ensures fault.Occurs(d.maxBody, |Data(t.chunks)|) && fault.Status() == StepByte(d, c).status
    ensures read + [c] == Encode(t.chunks) + fault.Text()
  {
    hide SpellsHex;
    hide Encode;
    hide Data;
    hide AllValid;
    var data := if d.phase.ReadingFinalCrlf? then "" else t.data;
    var end := if d.sawCR then "\r" + [c] else [c];
    fault := Unterminated(t.hex, data, end);
    assert read + [c] == Encode(t.chunks) + (t.hex + CRLF + data + end);
  }

  lemma SizeFault(t: Trace, d: Decoder, read: string, out: string, c: char) returns (fault: Fault)
    requires d.phase.ReadingSize? && Explains(t, d, read, out) && StepByte(d, c).Reject?
    requires Reachable(d) && (d.maxBody > 0 ==> d.total == |out| <= d.maxBody)
    ensures fault.Occurs(d.maxBody, |Data(t.chunks)|) && fault.Status() == StepByte(d, c).status
    ensures read + [c] == Encode(t.chunks) + fault.Text()
  {
    hide SpellsHex;
    var line := d.sizeBuffer + [c];
    var hex := line[..|line| - 2];
    assert line == hex + CRLF;
    assert d.sizeBuffer == line[..|line| - 1] == hex + "\r";
    assert read + [c] == Encode(t.chunks) + (hex + CRLF);
    if IsSize(hex) {
      SpelledSize(hex, HexValue(hex));
      fault := TooLarge(hex, HexValue(hex));
    } else {
      fault := BadSize(hex);
      SizeSpelled(hex);
    }
  }

  /** Both directions for refusals: a body is refused, and with which status, exactly when some
      whole chunks within the limit are followed by a fault of that status. */
  lemma RefusesExactly(maxBody: nat, input: string, status: HttpStatus)
    requires maxBody < SIZE_LIMIT && |input| < SIZE_LIMIT
    ensures Feed(Fresh(maxBody), input) == Failed(status) <==>
      exists chunks, fault: Fault :: AllValid(chunks) && !Exceeds(maxBody, |Data(chunks)|)
        && fault.Occurs(maxBody, |Data(chunks)|) && fault.Status() == status
        && Encode(chunks) + fault.Text() <= input
  {
    hide Feed;
    hide AllValid;
    var d := Fresh(maxBody);
    if Feed(d, input) == Failed(status) {
      var chunks, fault := RefusalExplained(maxBody, input);
    }
    if chunks, fault: Fault :| AllValid(chunks) && !Exceeds(maxBody, |Data(chunks)|)
                               && fault.Occurs(maxBody, |Data(chunks)|) && fault.Status() == status
                               && Encode(chunks) + fault.Text() <= input
    {
      FaultyRefused(maxBody, chunks, fault, input);
    }
  }

  lemma FaultyRefused(maxBody: nat, chunks: seq<Chunk>, fault: Fault, input: string)
    requires maxBody < SIZE_LIMIT && |input| < SIZE_LIMIT
    requires AllValid(chunks) && !Exceeds(maxBody, |Data(chunks)|) && fault.Occurs(maxBody, |Data(chunks)|)
    requires Encode(chunks) + fault.Text() <= input
    ensures Feed(Fresh(maxBody), input) == Failed(fault.Status())
  {
    hide Feed;
    hide AllValid;
    hide Encode;
    hide Data;
    hide SpellsHex;
    hide Fault.Occurs;
    hide Fault.Text;
    hide Fault.Status;
    var bad := Encode(chunks) + fault.Text();
    DataShorter(chunks);
    DecodeChunks(maxBody, chunks);
    FeedSplit(Fresh(maxBody), Encode(chunks), fault.Text());
    FaultRefused(LineStart(maxBody, |Data(chunks)|), fault);
    assert input == bad + input[|bad|..];
    FeedSplit(Fresh(maxBody), bad, input[|bad|..]);
  }

  lemma StartExplained(maxBody: nat)
    requires maxBody < SIZE_LIMIT
    ensures Explains(Trace([], "", ""), Fresh(maxBody), "", "") && Reachable(Fresh(maxBody))
  {
    hide SpellsHex;
  }

  lemma RefusalExplained(maxBody: nat, input: string) returns (chunks: seq<Chunk>, fault: Fault)
    requires maxBody < SIZE_LIMIT && |input| < SIZE_LIMIT && Feed(Fresh(maxBody), input).Failed?
    ensures AllValid(chunks) && !Exceeds(maxBody, |Data(chunks)|)
    ensures fault.Occurs(maxBody, |Data(chunks)|) && Failed(fault.Status()) == Feed(Fresh(maxBody), input)
    ensures Encode(chunks) + fault.Text() <= input
  {
    hide Feed;
    hide StepByte;
    hide Explains;
    hide Reachable;
    hide SpellsHex;
    hide Encode;
    hide Data;
    hide AllValid;
    hide Fault.Text;
    hide Fault.Occurs;
    hide Fault.Status;
    StartExplained(maxBody);
    var d := Fresh(maxBody);
    var n := RefusedAt(d, input);
    var seen := input[..n];
    var t := ExplainFeed(Trace([], "", ""), d, "", "", seen);
    var r := Feed(d, seen);
    assert "" + seen[..r.used] == seen && "" + r.out == r.out;
    FeedWithinLimit(d, seen);
    fault := FaultOf(t, r.d, seen, r.out, input[n]);
    chunks := t.chunks;
    assert seen + [input[n]] <= input;
  }


  lemma {:induction false} DataShorter(chunks: seq<Chunk>)
    ensures |Data(chunks)| <= |Encode(chunks)|
    decreases |chunks|
  {
    if chunks != [] {
      DataShorter(chunks[..|chunks| - 1]);
    }
  }
}
