/** The resumable chunked decoder as the server runs it: handlers that take whole blocks
    of input, driven by a loop. Every handler, and the loop, is proved to do what the
    byte-wise machine of ChunkCodec.dfy does on the same bytes. */
module ChunkedBodyParsing {
  import opened Base
  import opened ChunkCodec

  datatype ChunkStatus = CHUNK_CONTINUE | CHUNK_DONE | CHUNK_ERROR

  /** The index of the first line end, if any. */
  method FindCRLF(input: string) returns (pos: Option<nat>)
    ensures pos.None? <==> NoCrlf(input)
    ensures pos.Some? ==> FirstCrlf(input, pos.value)
  {
    var i := 0;
    while i + 1 < |input|
      invariant 0 <= i
      invariant forall k :: 0 <= k < i && k + 1 < |input| ==> !(input[k] == '\r' && input[k + 1] == '\n')
    {
      if input[i] == '\r' && input[i + 1] == '\n' {
        return Some(i);
      }
      i := i + 1;
    }
    return None;
  }

  /** The number a size spells in hexadecimal: refused exactly when it spells none, being empty or
      having another character, or one that does not fit a `size_t`. */
  method ParseHex(hex: string) returns (ok: bool, result: nat)
    ensures ok <==> exists n :: IsSizeOf(hex, n)
    ensures ok ==> IsSizeOf(hex, result)
    ensures ok <==> IsSize(hex)
    ensures ok ==> result == HexValue(hex)
  {
    SizeSpelled(hex);
    result := 0;
    if hex == "" {
      return false, 0;
    }
    for i := 0 to |hex|
      invariant IsHex(hex[..i]) && result == HexValue(hex[..i]) < SIZE_LIMIT
    {
      var digit := HexDigit(hex[i]);
      if digit < 0 {
        return false, result;
      }
      assert IsHex(hex[..i + 1]) && hex[..i + 1][..i] == hex[..i];
      if result > (SIZE_LIMIT - 1 - digit) / 16 {
        if IsHex(hex) {
          HexValueMonotone(hex, i + 1);
        }
        return false, result;
      }
      result := result * 16 + digit;
    }
    assert hex[..|hex|] == hex;
    ok := true;
    HexReads(hex, result);
  }

  class ChunkedBodyParser {
    var phase: Phase
    var sizeBuffer: string
    var bytesRemainingInChunk: nat
    var totalBytesWritten: nat
    var maxBodySize: nat
    var errorStatus: HttpStatus
    var sawCR: bool

    /** The decoder this object stands for. */
    ghost function State(): Decoder
      reads this
    {
      Decoder(phase, sizeBuffer, bytesRemainingInChunk, totalBytesWritten, maxBodySize, sawCR)
    }

    ghost predicate Valid()
      reads this
    {
      Reachable(State())
    }

    constructor ()
      ensures Valid() && State() == Fresh(0) && errorStatus == OK
    {
      phase, sizeBuffer, bytesRemainingInChunk := ReadingSize, "", 0;
      totalBytesWritten, maxBodySize, errorStatus, sawCR := 0, 0, OK, false;
    }

    method Reset()
      modifies this
      ensures Valid() && State() == Fresh(0) && errorStatus == OK
    {
      phase, sizeBuffer, bytesRemainingInChunk := ReadingSize, "", 0;
      totalBytesWritten, maxBodySize, errorStatus, sawCR := 0, 0, OK, false;
    }

    method SetMaxBodySize(size: nat)
      requires size < SIZE_LIMIT
      modifies `maxBodySize
      ensures State() == old(State()).(maxBody := size)
    {
      maxBodySize := size;
    }

    method SetError(status: HttpStatus)
      modifies `phase, `errorStatus
      ensures State() == old(State()).(phase := Done) && errorStatus == status
    {
      phase, errorStatus := Done, status;
    }

    /** What a handler promises about a block of input: it takes some of it, and the
        byte-wise machine on the bytes taken goes from the old state to the new one; or it
        fails, and the byte-wise machine fails on the block with the same status. */
    ghost predicate Handled(before: Decoder, input: string, ok: bool, consumed: nat, out: string)
      reads this
    {
      if ok then
        && 0 < consumed <= |input|
        && Feed(before, input[..consumed]) == Fed(State(), out, consumed)
      else
        && Feed(before, input) == Failed(errorStatus)
        && phase.Done? && out == ""
    }

    method ReadSize(input: string, output: string) returns (ok: bool, consumed: nat, output': string)
      requires Valid() && phase.ReadingSize? && input != "" && Fits(State(), input)
      modifies this
      ensures Valid() && output' == output && maxBodySize == old(maxBodySize)
      ensures totalBytesWritten == old(totalBytesWritten)
      ensures ok ==> errorStatus == old(errorStatus)
      ensures Handled(old(State()), input, ok, consumed, "")
    {
      hide Feed;
      hide IsHex;
      hide HexValue;
      hide IsSizeOf;
      hide SpellsHex;
      output' := output;
      ghost var before := State();
      var prevBufferLen := |sizeBuffer|;
      sizeBuffer := sizeBuffer + input;
      var crlfPos := FindCRLF(sizeBuffer);
      if crlfPos.None? {
        FeedSizeStores(before, input);
        assert input[..|input|] == input;
        return true, |input|, output';
      }
      var hex := sizeBuffer[..crlfPos.value];
      var lineEndInBuffer := crlfPos.value + 2;
      FeedSizeLine(before, input, crlfPos.value);
      var consumedFromInput := if lineEndInBuffer > prevBufferLen then lineEndInBuffer - prevBufferLen else 0;
      FailedStays(before, input, consumedFromInput);
      sizeBuffer := "";
      var parsed, chunkSize := ParseHex(hex);
      if !parsed {
        SetError(BadRequest);
        return false, 0, output';
      }
      if chunkSize == 0 {
        phase := ReadingFinalCrlf;
        return true, consumedFromInput, output';
      }
      if maxBodySize > 0 && AddSize(totalBytesWritten, chunkSize) > maxBodySize {
        SetError(PayloadTooLarge);
        return false, 0, output';
      }
      bytesRemainingInChunk := chunkSize;
      phase := ReadingData;
      return true, consumedFromInput, output';
    }

    method ReadData(input: string, output: string) returns (ok: bool, consumed: nat, output': string)
      requires Valid() && phase.ReadingData? && input != "" && Fits(State(), input)
      modifies this
      ensures Valid() && output <= output' && maxBodySize == old(maxBodySize)
      ensures maxBodySize > 0 ==> totalBytesWritten == old(totalBytesWritten) + |output'| - |output|
      ensures WithinLimit(old(State())) ==> WithinLimit(State())
      ensures ok ==> errorStatus == old(errorStatus) && |output'| - |output| <= consumed
      ensures Handled(old(State()), input, ok, consumed, output'[|output|..])
    {
      hide Feed;
      ghost var before := State();
      var toRead := Min(|input|, bytesRemainingInChunk);
      ghost var block := input[..toRead];
      if maxBodySize > 0 && AddSize(totalBytesWritten, toRead) > maxBodySize {
        FeedDataRefuses(before, block);
        FailedStays(before, input, toRead);
        SetError(PayloadTooLarge);
        return false, 0, output;
      }
      FeedDataCopies(before, block);
      output' := output + input[..toRead];
      totalBytesWritten := AddSize(totalBytesWritten, toRead);
      bytesRemainingInChunk := bytesRemainingInChunk - toRead;
      if bytesRemainingInChunk == 0 {
        phase := ReadingTrailerCrlf;
      }
      return true, toRead, output';
    }

    method ReadTrailerCrlf(input: string, output: string) returns (ok: bool, consumed: nat, output': string)
      requires Valid() && phase.ReadingTrailerCrlf? && input != ""
      modifies this
      ensures Valid() && output' == output && maxBodySize == old(maxBodySize)
      ensures totalBytesWritten == old(totalBytesWritten)
      ensures ok ==> errorStatus == old(errorStatus)
      ensures Handled(old(State()), input, ok, consumed, "")
    {
      output' := output;
      FeedCrlfBlock(State(), input);
      if sawCR {
        if input[0] != '\n' {
          SetError(BadRequest);
          return false, 0, output';
        }
        sawCR := false;
        phase := ReadingSize;
        return true, 1, output';
      }
      if |input| < 2 {
        if input[0] != '\r' {
          SetError(BadRequest);
          return false, 0, output';
        }
        sawCR := true;
        return true, 1, output';
      }
      if input[0] != '\r' || input[1] != '\n' {
        SetError(BadRequest);
        return false, 0, output';
      }
      phase := ReadingSize;
      return true, 2, output';
    }

    method ReadFinalCrlf(input: string, output: string) returns (ok: bool, consumed: nat, output': string)
      requires Valid() && phase.ReadingFinalCrlf? && input != ""
      modifies this
      ensures Valid() && output' == output && maxBodySize == old(maxBodySize)
      ensures totalBytesWritten == old(totalBytesWritten)
      ensures ok ==> errorStatus == old(errorStatus)
      ensures Handled(old(State()), input, ok, consumed, "")
    {
      output' := output;
      FeedCrlfBlock(State(), input);
      if sawCR {
        if input[0] != '\n' {
          SetError(BadRequest);
          return false, 0, output';
        }
        sawCR := false;
        phase := Done;
        return true, 1, output';
      }
      if |input| < 2 {
        if input[0] != '\r' {
          SetError(BadRequest);
          return false, 0, output';
        }
        sawCR := true;
        return true, 1, output';
      }
      if input[0] != '\r' || input[1] != '\n' {
        SetError(BadRequest);
        return false, 0, output';
      }
      phase := Done;
      return true, 2, output';
    }

    /** The handler table: one handler for each state but the last. */
    method Handle(input: string, output: string) returns (ok: bool, consumed: nat, output': string)
      requires Valid() && !phase.Done? && input != "" && Fits(State(), input)
      modifies this
      ensures Valid() && output <= output' && maxBodySize == old(maxBodySize)
      ensures maxBodySize > 0 ==> totalBytesWritten == old(totalBytesWritten) + |output'| - |output|
      ensures WithinLimit(old(State())) ==> WithinLimit(State())
      ensures ok ==> errorStatus == old(errorStatus) && |output'| - |output| <= consumed
      ensures Handled(old(State()), input, ok, consumed, output'[|output|..])
    {
      match phase {
        case ReadingSize => ok, consumed, output' := ReadSize(input, output);
        case ReadingData => ok, consumed, output' := ReadData(input, output);
        case ReadingTrailerCrlf => ok, consumed, output' := ReadTrailerCrlf(input, output);
        case ReadingFinalCrlf => ok, consumed, output' := ReadFinalCrlf(input, output);
      }
    }

    /** One call of the decoder. The block-reading loop gives the status, the output, the
        next state and the number of bytes used that reading byte by byte gives; a failure
        carries the same status, uses nothing, and ends the decoder. Whatever happens, the
        output grows by no more than the limit leaves. */
    method Parse(input: string, output: string)
      returns (status: ChunkStatus, output': string, bytesConsumed: nat)
      requires Valid() && Fits(State(), input)
      modifies this
      ensures Valid() && maxBodySize == old(maxBodySize)
      ensures match Feed(old(State()), input)
              case Fed(d, out, used) =>
                && status == (if d.phase.Done? then CHUNK_DONE else CHUNK_CONTINUE)
                && State() == d && output' == output + out && bytesConsumed == used
                && errorStatus == old(errorStatus)
              case Failed(s) =>
                && status == CHUNK_ERROR && errorStatus == s && phase.Done? && bytesConsumed == 0
      ensures output <= output'
      ensures maxBodySize > 0 ==> totalBytesWritten == old(totalBytesWritten) + |output'| - |output|
      ensures WithinLimit(old(State())) ==> WithinLimit(State())
    {
      hide Reachable;
      hide Feed;
      output' := output;
      ghost var before := State();
      var pos := 0;
      assert input[..0] == "" && output[|output|..] == "";
      FeedRests(before, "");
      while pos < |input| && !phase.Done?
        invariant 0 <= pos <= |input| && Valid() && maxBodySize == before.maxBody
        invariant WithinLimit(before) ==> WithinLimit(State())
        invariant errorStatus == old(errorStatus)
        invariant output <= output'
        invariant Feed(before, input[..pos]) == Fed(State(), output'[|output|..], pos)
        invariant maxBodySize > 0 ==> totalBytesWritten == before.total + |output'| - |output|
        invariant Fits(State(), input[pos..])
        decreases |input| - pos
      {
        ghost var soFar := output';
        var ok, consumed;
        ok, consumed, output' := Handle(input[pos..], output');
        FeedPieces(before, input, pos);
        if !ok {
          return CHUNK_ERROR, output', 0;
        }
        if consumed == 0 {
          break;
        }
        FeedNext(before, input, pos, consumed);
        assert soFar[|output|..] + output'[|soFar|..] == output'[|output|..];
        pos := pos + consumed;
      }
      bytesConsumed := pos;
      FeedPieces(before, input, pos);
      FeedRests(State(), input[pos..]);
      assert output' == output + output'[|output|..];
      status := if phase.Done? then CHUNK_DONE else CHUNK_CONTINUE;
    }
  }

  lemma FeedRests(d: Decoder, s: string)
    requires d.phase.Done? || s == ""
    ensures Feed(d, s) == Fed(d, "", 0)
  {
  }

  lemma FeedNext(d: Decoder, input: string, n: nat, m: nat)
    requires n + m <= |input|
    ensures Feed(d, input[..n + m]) == Then(Feed(d, input[..n]), input[n..][..m])
  {
    assert input[..n + m] == input[..n] + input[n..][..m];
    FeedSplit(d, input[..n], input[n..][..m]);
  }

  lemma FeedPieces(d: Decoder, input: string, n: nat)
    requires n <= |input|
    ensures Feed(d, input) == Then(Feed(d, input[..n]), input[n..])
  {
    assert input == input[..n] + input[n..];
    FeedSplit(d, input[..n], input[n..]);
  }

  lemma FailedStays(d: Decoder, input: string, n: nat)
    requires n <= |input|
    ensures Feed(d, input[..n]).Failed? ==> Feed(d, input) == Feed(d, input[..n])
  {
    assert input == input[..n] + input[n..];
    FeedSplit(d, input[..n], input[n..]);
  }

  // The byte-wise machine on a line end, for each way a block can present it.
  lemma FeedCrlfBlock(d: Decoder, input: string)
    requires d.phase.ReadingTrailerCrlf? || d.phase.ReadingFinalCrlf?
    requires input != ""
    ensures var after := d.(phase := if d.phase.ReadingTrailerCrlf? then ReadingSize else Done, sawCR := false);
      if d.sawCR then
        if input[0] == '\n' then Feed(d, input[..1]) == Fed(after, "", 1)
        else Feed(d, input) == Failed(BadRequest)
      else if input[0] != '\r' then Feed(d, input) == Failed(BadRequest)
      else if |input| < 2 then Feed(d, input[..1]) == Fed(d.(sawCR := true), "", 1)
      else if input[1] == '\n' then Feed(d, input[..2]) == Fed(after, "", 2)
      else Feed(d, input) == Failed(BadRequest)
  {
    assert input[..1][1..] == "";
    assert input[0] == input[..1][0];
    if !d.sawCR && input[0] == '\r' && |input| >= 2 {
      var d1 := d.(sawCR := true);
      assert input[1..][0] == input[1];
      if input[1] == '\n' {
        assert input[..2] == CRLF;
        FeedCrlf(d);
      }
    }
  }
}
