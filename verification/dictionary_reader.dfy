/** `DictionaryReader.read`: the text dictionary file is read in chunks of
    `chunkSize` bytes; the bytes after the last line break of a full chunk
    are carried to the front of the next buffer, and the decoded text up to
    that line break goes through the line parser. */
module DictionaryReader {
  import opened Wrappers
  import opened Utf8
  import opened LineParser
  import Encoding

  /** What `fs.readSync` copies out of the file: up to `length` bytes at
      `position`, none past the end. */
  function ReadChunk(file: seq<byte>, length: nat, position: nat): (chunk: seq<byte>)
    ensures |chunk| <= length
    ensures position + |chunk| <= |file| || chunk == []
    ensures |chunk| < length ==> position >= |file| || position + |chunk| == |file|
  {
    var n := if position >= |file| then 0 else if |file| - position <= length then |file| - position else length;
    seq(n, i requires 0 <= i < n => file[position + i])
  }

  /** The position of the last line feed in `buffer` before `end`. */
  function LastBreakBefore(buffer: seq<byte>, end: nat): (r: Option<nat>)
    requires end <= |buffer|
    ensures r.Some? ==> r.value < end && buffer[r.value] == LineFeed
  {
    if end == 0 then None
    else if buffer[end - 1] == LineFeed then Some(end - 1)
    else LastBreakBefore(buffer, end - 1)
  }

  /** The break found is the last one before `end`, and none is found
      exactly when there is none. */
  lemma {:induction false} LastBreakBeforeIsLast(buffer: seq<byte>, end: nat)
    requires end <= |buffer|
    ensures var r := LastBreakBefore(buffer, end);
      && (r.Some? ==> forall k | r.value < k < end :: buffer[k] != LineFeed)
      && (r.None? <==> forall k | 0 <= k < end :: buffer[k] != LineFeed)
    decreases end
  {
    if end > 0 && buffer[end - 1] != LineFeed {
      LastBreakBeforeIsLast(buffer, end - 1);
    }
  }

  /** The position of the last line feed in `buffer`. */
  function LastLineBreak(buffer: seq<byte>): (r: Option<nat>)
    ensures r.Some? ==> r.value < |buffer| && buffer[r.value] == LineFeed
  {
    LastBreakBefore(buffer, |buffer|)
  }

  /** The part of a full buffer that is parsed now, as the code does it: up
      to and including the last line break, or the whole buffer when it
      holds none. */
  function Parsed(buffer: seq<byte>): (r: seq<byte>)
    ensures |r| <= |buffer|
  {
    match LastLineBreak(buffer)
    case Some(j) => buffer[..j + 1]
    case None => buffer
  }

  /** The part parsed now as evidently intended: nothing when the buffer
      holds no line break. */
  function ParsedCorrected(buffer: seq<byte>): (r: seq<byte>)
    ensures |r| <= |buffer|
  {
    match LastLineBreak(buffer)
    case Some(j) => buffer[..j + 1]
    case None => []
  }

  /** The part of a full buffer carried to the front of the next one: what
      follows the last line break, or the whole buffer when it holds none. */
  function Carried(buffer: seq<byte>): (r: seq<byte>)
    ensures |r| <= |buffer|
  {
    match LastLineBreak(buffer)
    case Some(j) => buffer[j + 1..]
    case None => buffer
  }

  /** The corrected split cuts the buffer in two at its last line break and
      carries no line break; the split as written agrees with it when there
      is a break and otherwise parses the whole buffer and carries it too. */
  lemma SplitFacts(buffer: seq<byte>)
    ensures ParsedCorrected(buffer) + Carried(buffer) == buffer
    ensures ParsedCorrected(buffer) == [] || ParsedCorrected(buffer)[|ParsedCorrected(buffer)| - 1] == LineFeed
    ensures forall k | 0 <= k < |Carried(buffer)| :: Carried(buffer)[k] != LineFeed
    ensures (exists k | 0 <= k < |buffer| :: buffer[k] == LineFeed) ==> Parsed(buffer) == ParsedCorrected(buffer) != []
    ensures (forall k | 0 <= k < |buffer| :: buffer[k] != LineFeed)
            ==> Parsed(buffer) == buffer && Carried(buffer) == buffer && ParsedCorrected(buffer) == []
  {
    LastBreakBeforeIsLast(buffer, |buffer|);
    match LastLineBreak(buffer)
    case Some(j) =>
      assert buffer[..j + 1] + buffer[j + 1..] == buffer;
      forall k | 0 <= k < |Carried(buffer)|
        ensures Carried(buffer)[k] != LineFeed
      {
        assert Carried(buffer)[k] == buffer[j + 1 + k];
      }
    case None =>
  }

  /** What one iteration of the loop hands to the line parser: the bytes
      to decode, and whether the file has ended with them. */
  datatype Piece = Piece(bytes: seq<byte>, isLastChunk: bool)

  /** The next read out of the unread part `rest` of the file. */
  function NextChunk(rest: seq<byte>, chunkSize: nat): (chunk: seq<byte>)
    ensures |chunk| <= chunkSize && |chunk| <= |rest| && chunk == rest[..|chunk|]
    ensures |chunk| < chunkSize ==> chunk == rest
  {
    if |rest| <= chunkSize then rest else rest[..chunkSize]
  }

  /** Reading at `offset` is taking the next chunk of what is unread. */
  lemma ReadChunkIsNextChunk(file: seq<byte>, chunkSize: nat, offset: nat)
    requires offset <= |file|
    ensures ReadChunk(file, chunkSize, offset) == NextChunk(file[offset..], chunkSize)
  {
  }

  /** The pieces the loop parses from one iteration on, as written, while
      `rest` is still unread and `leftover` is carried over. A zero-byte
      read ends the loop at once, leftover and all. */
  function Pieces(rest: seq<byte>, chunkSize: nat, leftover: seq<byte>): seq<Piece>
    decreases |rest|
  {
    var chunk := NextChunk(rest, chunkSize);
    var buffer := leftover + chunk;
    if chunk == [] then []
    else if |chunk| < chunkSize then [Piece(buffer, true)]
    else [Piece(Parsed(buffer), false)] + Pieces(rest[|chunk|..], chunkSize, Carried(buffer))
  }

  /** The pieces as evidently intended: the last read, short or empty,
      parses what is left as the end of the file, and a full buffer without
      a line break is carried whole without being parsed. */
  function PiecesCorrected(rest: seq<byte>, chunkSize: nat, leftover: seq<byte>): seq<Piece>
    decreases |rest|
  {
    var chunk := NextChunk(rest, chunkSize);
    var buffer := leftover + chunk;
    if chunk == [] || |chunk| < chunkSize then [Piece(buffer, true)]
    else [Piece(ParsedCorrected(buffer), false)] + PiecesCorrected(rest[|chunk|..], chunkSize, Carried(buffer))
  }

  /** The line parser run over the pieces in order. */
  function ParsePieces(st: ParserState, ps: seq<Piece>): ParserState
    decreases |ps|
  {
    if ps == [] then st
    else ParsePieces(ParseText(st, Decode(ps[0].bytes), ps[0].isLastChunk), ps[1..])
  }

  /** A full read as written: its buffer is split, and the loop goes on
      with the rest. */
  lemma FullRead(rest: seq<byte>, chunkSize: nat, leftover: seq<byte>)
    requires 0 < chunkSize <= |rest|
    ensures var buffer := leftover + rest[..chunkSize];
      Pieces(rest, chunkSize, leftover)
      == [Piece(Parsed(buffer), false)] + Pieces(rest[chunkSize..], chunkSize, Carried(buffer))
  {
  }

  /** A full read as corrected. */
  lemma FullReadCorrected(rest: seq<byte>, chunkSize: nat, leftover: seq<byte>)
    requires 0 < chunkSize <= |rest|
    ensures var buffer := leftover + rest[..chunkSize];
      PiecesCorrected(rest, chunkSize, leftover)
      == [Piece(ParsedCorrected(buffer), false)] + PiecesCorrected(rest[chunkSize..], chunkSize, Carried(buffer))
  {
  }

  /** A short read as written ends the loop, parsing the buffer as the end
      of the file unless nothing was read. */
  lemma ShortRead(rest: seq<byte>, chunkSize: nat, leftover: seq<byte>)
    requires |rest| < chunkSize
    ensures Pieces(rest, chunkSize, leftover) == if rest == [] then [] else [Piece(leftover + rest, true)]
  {
  }

  /** A short read as corrected ends the loop, parsing the buffer as the
      end of the file. */
  lemma ShortReadCorrected(rest: seq<byte>, chunkSize: nat, leftover: seq<byte>)
    requires |rest| < chunkSize
    ensures PiecesCorrected(rest, chunkSize, leftover) == [Piece(leftover + rest, true)]
  {
  }

  /** The size of a read in `read`: one mebibyte. */
  const ChunkSize: nat := 1048576

  /** The dictionary `read` builds from the bytes of a file, as written,
      for a given chunk size. */
  function ReadWith(file: seq<byte>, chunkSize: nat): ReadDictionary {
    ParsePieces(Start, Pieces(file, chunkSize, [])).result
  }

  /** The dictionary `read` builds, as evidently intended. */
  function ReadCorrectedWith(file: seq<byte>, chunkSize: nat): ReadDictionary {
    ParsePieces(Start, PiecesCorrected(file, chunkSize, [])).result
  }

  /** Parsing text that ends in a line break and then the rest is parsing
      both together. */
  lemma SplitAfterLineBreak(st: ParserState, parsed: seq<byte>, tail: seq<byte>)
    requires parsed != [] && parsed[|parsed| - 1] == LineFeed
    ensures ParseText(st, Decode(parsed + tail), true)
         == ParseText(ParseText(st, Decode(parsed), false), Decode(tail), true)
  {
    DecodeAppend(parsed, tail);
    DecodeEndsInLineBreak(parsed);
    EndOfFileAfterLineBreak(st, Decode(parsed));
    ParseTextAppend(st, Decode(parsed), Decode(tail), true);
  }

  /** Parsing the parsed part of a corrected split and then the rest is
      parsing both together. */
  lemma SplitCorrectedParse(st: ParserState, buffer: seq<byte>, rest: seq<byte>)
    ensures ParseText(st, Decode(buffer + rest), true)
         == ParseText(ParseText(st, Decode(ParsedCorrected(buffer)), false), Decode(Carried(buffer) + rest), true)
  {
    SplitFacts(buffer);
    var parsed := ParsedCorrected(buffer);
    assert buffer + rest == parsed + (Carried(buffer) + rest);
    if parsed == [] {
      assert Decode(parsed) == [];
    } else {
      SplitAfterLineBreak(st, parsed, Carried(buffer) + rest);
    }
  }

  /** Parsing a first piece and then the others. */
  lemma ParseFirstPiece(st: ParserState, p: Piece, ps: seq<Piece>)
    ensures ParsePieces(st, [p] + ps) == ParsePieces(ParseText(st, Decode(p.bytes), p.isLastChunk), ps)
  {
    assert ([p] + ps)[1..] == ps;
  }

  /** The step of the single-pass proof for a full chunk: if the pieces
      after it parse as the carried bytes and the rest of the file, then
      with its own piece in front they parse as the whole buffer and the
      rest. */
  lemma FullChunkParses(st: ParserState, buffer: seq<byte>, rest: seq<byte>, ps: seq<Piece>)
    requires ParsePieces(ParseText(st, Decode(ParsedCorrected(buffer)), false), ps)
          == ParseText(ParseText(st, Decode(ParsedCorrected(buffer)), false), Decode(Carried(buffer) + rest), true)
    ensures ParsePieces(st, [Piece(ParsedCorrected(buffer), false)] + ps) == ParseText(st, Decode(buffer + rest), true)
  {
    ParseFirstPiece(st, Piece(ParsedCorrected(buffer), false), ps);
    SplitCorrectedParse(st, buffer, rest);
  }

  /** The corrected loop is one pass of the line parser over the decoded
      leftover and unread rest of the file. */
  lemma {:induction false} CorrectedReadIsSinglePassFrom(rest: seq<byte>, chunkSize: nat,
                                                         leftover: seq<byte>, st: ParserState)
    requires chunkSize > 0
    ensures ParsePieces(st, PiecesCorrected(rest, chunkSize, leftover))
         == ParseText(st, Decode(leftover + rest), true)
    decreases |rest|
  {
    var chunk := NextChunk(rest, chunkSize);
    var buffer := leftover + chunk;
    if |chunk| < chunkSize {
      ParseFirstPiece(st, Piece(buffer, true), []);
    } else {
      var more := rest[chunkSize..];
      FullChunkRest(rest, chunkSize, leftover);
      CorrectedReadIsSinglePassFrom(more, chunkSize, Carried(buffer),
                                    ParseText(st, Decode(ParsedCorrected(buffer)), false));
      FullChunkParses(st, buffer, more, PiecesCorrected(more, chunkSize, Carried(buffer)));
    }
  }

  /** After a full chunk the buffer and what is still unread make up the
      leftover and the rest again. */
  lemma FullChunkRest(rest: seq<byte>, chunkSize: nat, leftover: seq<byte>)
    requires |NextChunk(rest, chunkSize)| >= chunkSize
    ensures chunkSize <= |rest|
    ensures leftover + NextChunk(rest, chunkSize) + rest[chunkSize..] == leftover + rest
  {
    assert NextChunk(rest, chunkSize) + rest[chunkSize..] == rest;
  }

  /** From the start: the corrected reader builds what one pass of the
      line parser over the whole decoded file builds. */
  lemma CorrectedReadIsSinglePass(file: seq<byte>, chunkSize: nat)
    requires chunkSize > 0
    ensures ReadCorrectedWith(file, chunkSize) == ParseText(Start, Decode(file), true).result
  {
    CorrectedReadIsSinglePassFrom(file, chunkSize, [], Start);
    assert [] + file == file;
  }

  /** Every full chunk of `rest` holds a line break, and the last read is
      short but not empty. */
  predicate WellChunked(rest: seq<byte>, chunkSize: nat)
    decreases |rest|
  {
    if |rest| < chunkSize then rest != []
    else
      && chunkSize > 0
      && (exists k | 0 <= k < chunkSize :: rest[k] == LineFeed)
      && WellChunked(rest[chunkSize..], chunkSize)
  }

  /** With a line break in a full chunk both splits agree. */
  lemma SplitsAgreeOnBreak(chunk: seq<byte>, leftover: seq<byte>)
    requires exists k | 0 <= k < |chunk| :: chunk[k] == LineFeed
    ensures Parsed(leftover + chunk) == ParsedCorrected(leftover + chunk)
  {
    var buffer := leftover + chunk;
    var k :| 0 <= k < |chunk| && chunk[k] == LineFeed;
    assert buffer[|leftover| + k] == LineFeed;
    SplitFacts(buffer);
  }

  /** On such a file the code as written hands the parser the pieces the
      corrected loop does. */
  lemma {:induction false} AsWrittenMatchesCorrected(rest: seq<byte>, chunkSize: nat, leftover: seq<byte>)
    requires WellChunked(rest, chunkSize)
    ensures Pieces(rest, chunkSize, leftover) == PiecesCorrected(rest, chunkSize, leftover)
    decreases |rest|
  {
    if |rest| >= chunkSize {
      var chunk := NextChunk(rest, chunkSize);
      assert chunk == rest[..chunkSize];
      SplitsAgreeOnBreak(chunk, leftover);
      AsWrittenMatchesCorrected(rest[chunkSize..], chunkSize, Carried(leftover + chunk));
    }
  }

  /** Hence the code as written is one pass of the line parser when every
      full chunk holds a line break and the last read is short. */
  lemma AsWrittenIsSinglePass(file: seq<byte>, chunkSize: nat)
    requires WellChunked(file, chunkSize)
    ensures chunkSize > 0
    ensures ReadWith(file, chunkSize) == ParseText(Start, Decode(file), true).result
  {
    AsWrittenMatchesCorrected(file, chunkSize, []);
    CorrectedReadIsSinglePass(file, chunkSize);
  }

  // The loop of `read` itself, and its link to the pieces above.

  /** A read that returns nothing leaves nothing more to parse. */
  lemma ReadStepEmpty(rest: seq<byte>, chunkSize: nat, leftover: seq<byte>, st: ParserState)
    requires NextChunk(rest, chunkSize) == []
    ensures ParsePieces(st, Pieces(rest, chunkSize, leftover)) == st
  {
  }

  /** A short read parses the leftover and the bytes read as the end of the
      file, and nothing after them. */
  lemma ReadStepShort(rest: seq<byte>, chunkSize: nat, leftover: seq<byte>, st: ParserState)
    requires 0 < |NextChunk(rest, chunkSize)| < chunkSize
    ensures ParsePieces(st, Pieces(rest, chunkSize, leftover))
         == ParseText(st, Decode(leftover + NextChunk(rest, chunkSize)), true)
  {
    var chunk := NextChunk(rest, chunkSize);
    assert Pieces(rest, chunkSize, leftover) == [Piece(leftover + chunk, true)];
    ParseFirstPiece(st, Piece(leftover + chunk, true), []);
  }

  /** A full read parses its buffer up to the last line break and goes on
      with the rest of the file, the remainder carried in front of it. */
  lemma ReadStepFull(rest: seq<byte>, chunkSize: nat, leftover: seq<byte>, st: ParserState)
    requires 0 < chunkSize == |NextChunk(rest, chunkSize)|
    ensures var buffer := leftover + NextChunk(rest, chunkSize);
      ParsePieces(st, Pieces(rest, chunkSize, leftover))
      == ParsePieces(ParseText(st, Decode(Parsed(buffer)), false), Pieces(rest[chunkSize..], chunkSize, Carried(buffer)))
  {
    var buffer := leftover + NextChunk(rest, chunkSize);
    FullRead(rest, chunkSize, leftover);
    ParseFirstPiece(st, Piece(Parsed(buffer), false), Pieces(rest[chunkSize..], chunkSize, Carried(buffer)));
  }

  /** `Buffer.alloc` of a fresh buffer with the carried bytes copied to its
      front. */
  method AllocWithLeftover(leftover: seq<byte>, chunkSize: nat) returns (buffer: array<byte>)
    ensures fresh(buffer)
    ensures buffer.Length == chunkSize + |leftover|
    ensures buffer[..|leftover|] == leftover
  {
    buffer := new byte[chunkSize + |leftover|];
    for i := 0 to |leftover|
      invariant buffer[..i] == leftover[..i]
    {
      buffer[i] := leftover[i];
    }
  }

  /** `fs.readSync(fd, buffer, offset, length, position)`: the bytes of
      the file at `position`, at most `length` of them, land in `buffer` at
      `offset`, and their number is returned; the front of the buffer is
      left alone. */
  method ReadSync(file: seq<byte>, buffer: array<byte>, offset: nat, length: nat, position: nat)
    returns (bytesRead: nat)
    requires offset + length <= buffer.Length
    modifies buffer
    ensures bytesRead == |ReadChunk(file, length, position)|
    ensures buffer[offset..offset + bytesRead] == ReadChunk(file, length, position)
    ensures buffer[..offset] == old(buffer[..offset])
  {
    var chunk := ReadChunk(file, length, position);
    bytesRead := |chunk|;
    for i := 0 to bytesRead
      invariant buffer[offset..offset + i] == chunk[..i]
      invariant buffer[..offset] == old(buffer[..offset])
    {
      buffer[offset + i] := chunk[i];
    }
  }

  /** The last line feed of a buffer is the one with none after it. */
  lemma LastLineBreakAt(buffer: seq<byte>, j: nat)
    requires j < |buffer| && buffer[j] == LineFeed
    requires forall k | j < k < |buffer| :: buffer[k] != LineFeed
    ensures LastLineBreak(buffer) == Some(j)
  {
    LastBreakBeforeIsLast(buffer, |buffer|);
  }

  /** A buffer without line feeds has no last one. */
  lemma NoLineBreakIn(buffer: seq<byte>)
    requires forall k | 0 <= k < |buffer| :: buffer[k] != LineFeed
    ensures LastLineBreak(buffer) == None
  {
    LastBreakBeforeIsLast(buffer, |buffer|);
  }

  function Reverse(s: seq<byte>): seq<byte> {
    seq(|s|, k requires 0 <= k < |s| => s[|s| - 1 - k])
  }

  /** Bytes pushed from the end of `b` backwards down to just after `i`,
      reversed, are the bytes after `i` in their own order. */
  lemma PushedReversed(b: seq<byte>, i: int, pushed: seq<byte>)
    requires -1 <= i < |b|
    requires |pushed| == |b| - 1 - i
    requires forall k | 0 <= k < |pushed| :: pushed[k] == b[|b| - 1 - k]
    ensures Reverse(pushed) == b[i + 1..]
  {
    forall k | 0 <= k < |pushed|
      ensures Reverse(pushed)[k] == b[i + 1 + k]
    {
      assert Reverse(pushed)[k] == pushed[|pushed| - 1 - k];
    }
  }

  /** What the backward scan leaves: stopped at `i`, a line feed, or at -1,
      with no line feed after it, having pushed the bytes after `i` from
      the end backwards. Reversing them gives the carried bytes, and the
      bytes up to `i` (all of them when it ran off the front) are the
      parsed part. */
  lemma ScanOutcome(b: seq<byte>, i: int, pushed: seq<byte>)
    requires -1 <= i < |b|
    requires i >= 0 ==> b[i] == LineFeed
    requires forall k | i < k < |b| :: b[k] != LineFeed
    requires |pushed| == |b| - 1 - i
    requires forall k | 0 <= k < |pushed| :: pushed[k] == b[|b| - 1 - k]
    ensures Reverse(pushed) == Carried(b)
    ensures (if i >= 0 then b[..i + 1] else b) == Parsed(b)
  {
    PushedReversed(b, i, pushed);
    if i >= 0 {
      LastLineBreakAt(b, i);
    } else {
      NoLineBreakIn(b);
    }
  }

  /** The backward scan of a full buffer: it stops at the last line feed,
      having pushed the bytes after it, and reverses them; without a line
      feed it pushes every byte and the parsed end stays at the last byte. */
  method ScanForLastBreak(buffer: array<byte>, lastItemIdx: int, ghost b: seq<byte>)
    returns (lastLineBreakIdx: int, bufferLeftover: seq<byte>)
    requires 0 <= lastItemIdx < buffer.Length && b == buffer[..lastItemIdx + 1]
    ensures 0 <= lastLineBreakIdx <= lastItemIdx
    ensures buffer[..lastLineBreakIdx + 1] == Parsed(b)
    ensures bufferLeftover == Carried(b)
  {
    lastLineBreakIdx := lastItemIdx;
    var pushed: seq<byte> := [];
    var i := lastItemIdx;
    while i >= 0
      invariant -1 <= i <= lastItemIdx
      invariant lastLineBreakIdx == lastItemIdx
      invariant |pushed| == lastItemIdx - i
      invariant forall k | 0 <= k < |pushed| :: pushed[k] == b[|b| - 1 - k]
      invariant forall k | i < k < |b| :: b[k] != LineFeed
      decreases i + 1
    {
      assert buffer[i] == b[i];
      if buffer[i] == LineFeed {
        lastLineBreakIdx := i;
        break;
      }
      pushed := pushed + [buffer[i]];
      i := i - 1;
    }
    bufferLeftover := Reverse(pushed);
    ScanOutcome(b, i, pushed);
    if i >= 0 {
      assert buffer[..i + 1] == b[..i + 1];
    }
  }

  /** The character loop over one decoded chunk: letters extend the word,
      other digits the stress digits, and a line feed or the last character
      of the file stores the pair and clears both. */
  method ParseChunk(stringRead: string, isLastChunk: bool, word0: string, digits0: string, result0: ReadDictionary)
    returns (currentWord: string, currentDigits: string, result: ReadDictionary)
    ensures ParserState(currentWord, currentDigits, result)
         == ParseText(ParserState(word0, digits0, result0), stringRead, isLastChunk)
  {
    currentWord, currentDigits, result := word0, digits0, result0;
    for i := 0 to |stringRead|
      invariant ParseText(ParserState(currentWord, currentDigits, result), stringRead[i..], isLastChunk)
             == ParseText(ParserState(word0, digits0, result0), stringRead, isLastChunk)
    {
      assert stringRead[i..][0] == stringRead[i] && stringRead[i..][1..] == stringRead[i + 1..];
      var c := stringRead[i];
      var isFileEndReached := isLastChunk && i == |stringRead| - 1;
      if Encoding.IsLetter(c) {
        currentWord := currentWord + [c];
      } else if Encoding.IsDigit(c) {
        currentDigits := currentDigits + [c];
      }
      if c == '\n' || isFileEndReached {
        result := result[currentWord := ParseInt(currentDigits)];
        currentWord := "";
        currentDigits := "";
      }
    }
    assert stringRead[|stringRead|..] == [];
  }

  /** What one pass of the loop body of `read` does to the parser state
      `st` and the carried bytes, given the unread part `rest` of the file:
      a zero-byte read changes nothing, a short read parses the leftover
      and the bytes read as the end of the file, and a full read parses the
      buffer up to its last line break and carries the rest. */
  predicate IterationOutcome(rest: seq<byte>, chunkSize: nat, leftover: seq<byte>, st: ParserState,
                             bytesReadCount: nat, carried: seq<byte>, st': ParserState)
  {
    var buffer := leftover + NextChunk(rest, chunkSize);
    && bytesReadCount == |NextChunk(rest, chunkSize)|
    && (bytesReadCount == 0 ==> st' == st)
    && (0 < bytesReadCount < chunkSize ==> st' == ParseText(st, Decode(buffer), true))
    && (bytesReadCount >= chunkSize ==>
          st' == ParseText(st, Decode(Parsed(buffer)), false) && carried == Carried(buffer))
  }

  /** After a zero-byte or short read the parser state is the final one. */
  lemma ReadLoopEnds(rest: seq<byte>, chunkSize: nat, leftover: seq<byte>, st: ParserState,
                     bytesReadCount: nat, carried: seq<byte>, st': ParserState, total: ParserState)
    requires ParsePieces(st, Pieces(rest, chunkSize, leftover)) == total
    requires IterationOutcome(rest, chunkSize, leftover, st, bytesReadCount, carried, st')
    requires bytesReadCount < chunkSize
    ensures st' == total
  {
    if bytesReadCount == 0 {
      ReadStepEmpty(rest, chunkSize, leftover, st);
    } else {
      ReadStepShort(rest, chunkSize, leftover, st);
    }
  }

  /** After a full read the same pieces remain to be parsed from the new
      offset, with the carried bytes in front. */
  lemma ReadLoopContinues(file: seq<byte>, offset: nat, chunkSize: nat, leftover: seq<byte>, st: ParserState,
                          bytesReadCount: nat, carried: seq<byte>, st': ParserState, total: ParserState)
    requires 0 < chunkSize && offset <= |file|
    requires ParsePieces(st, Pieces(file[offset..], chunkSize, leftover)) == total
    requires IterationOutcome(file[offset..], chunkSize, leftover, st, bytesReadCount, carried, st')
    requires bytesReadCount >= chunkSize
    ensures offset + bytesReadCount <= |file|
    ensures ParsePieces(st', Pieces(file[offset + bytesReadCount..], chunkSize, carried)) == total
  {
    var rest := file[offset..];
    ReadStepFull(rest, chunkSize, leftover, st);
    assert rest[chunkSize..] == file[offset + bytesReadCount..];
  }

  /** The first half of the loop body of `read`: a fresh buffer gets the
      carried bytes and then the next read; a full read is split at its
      last line break. `lastLineBreakIdx` ends the part to decode: all of
      the buffer after a short read, the part `Parsed` picks after a full
      one, whose remainder `Carried` becomes the new leftover. */
  method FillBuffer(file: seq<byte>, fileOffset: nat, chunkSize: nat, leftover: seq<byte>)
    returns (buffer: array<byte>, bytesReadCount: nat, lastLineBreakIdx: int, bufferLeftover: seq<byte>)
    requires fileOffset <= |file|
    ensures fresh(buffer)
    ensures bytesReadCount == |NextChunk(file[fileOffset..], chunkSize)|
    ensures bytesReadCount > 0 ==> -1 <= lastLineBreakIdx < buffer.Length
    ensures var full := leftover + NextChunk(file[fileOffset..], chunkSize);
      && (0 < bytesReadCount < chunkSize ==> buffer[..lastLineBreakIdx + 1] == full && bufferLeftover == [])
      && (0 < bytesReadCount && chunkSize <= bytesReadCount ==>
            buffer[..lastLineBreakIdx + 1] == Parsed(full) && bufferLeftover == Carried(full))
  {
    ghost var full := leftover + NextChunk(file[fileOffset..], chunkSize);
    ReadChunkIsNextChunk(file, chunkSize, fileOffset);
    buffer := AllocWithLeftover(leftover, chunkSize);
    bytesReadCount := ReadSync(file, buffer, |leftover|, chunkSize, fileOffset);
    assert buffer[..|leftover| + bytesReadCount] == full by {
      assert buffer[..|leftover| + bytesReadCount]
          == buffer[..|leftover|] + buffer[|leftover|..|leftover| + bytesReadCount];
    }
    var lastItemIdx := bytesReadCount + |leftover| - 1;
    var isLastChunk := bytesReadCount < chunkSize;
    bufferLeftover := [];
    lastLineBreakIdx := lastItemIdx;
    if bytesReadCount == 0 {
      return;
    }
    if !isLastChunk {
      lastLineBreakIdx, bufferLeftover := ScanForLastBreak(buffer, lastItemIdx, full);
    }
  }

  /** The loop of `read` is on its way to `total`: parsing the pieces
      still to come from `offset` on, starting in state `st` with
      `leftover` carried, ends in `total`. */
  ghost predicate Pending(file: seq<byte>, offset: nat, chunkSize: nat, leftover: seq<byte>,
                          st: ParserState, total: ParserState)
  {
    offset <= |file| && ParsePieces(st, Pieces(file[offset..], chunkSize, leftover)) == total
  }

  /** Before the first pass all of the file is still to come. */
  lemma PendingAtStart(file: seq<byte>, chunkSize: nat)
    ensures Pending(file, 0, chunkSize, [], Start, ParsePieces(Start, Pieces(file, chunkSize, [])))
  {
    assert file[0..] == file;
  }

  /** One pass of the loop body of `read`. It consumes one piece of the
      chunked reading: after a zero-byte or short read the parser state is
      the final one `total`, and after a full read the rest of the pieces,
      read on from the new offset with the carried bytes in front, still
      lead to `total`. */
  method ReadNextChunk(file: seq<byte>, fileOffset: nat, chunkSize: nat, leftover: seq<byte>,
                       word0: string, digits0: string, result0: ReadDictionary, ghost total: ParserState)
    returns (bytesReadCount: nat, bufferLeftover: seq<byte>,
             currentWord: string, currentDigits: string, result: ReadDictionary)
    requires 0 < chunkSize
    requires Pending(file, fileOffset, chunkSize, leftover, ParserState(word0, digits0, result0), total)
    ensures bytesReadCount < chunkSize ==> ParserState(currentWord, currentDigits, result) == total
    ensures bytesReadCount >= chunkSize ==>
      Pending(file, fileOffset + bytesReadCount, chunkSize, bufferLeftover,
              ParserState(currentWord, currentDigits, result), total)
  {
    ghost var st := ParserState(word0, digits0, result0);
    var buffer, lastLineBreakIdx;
    buffer, bytesReadCount, lastLineBreakIdx, bufferLeftover := FillBuffer(file, fileOffset, chunkSize, leftover);
    var isLastChunk := bytesReadCount < chunkSize;
    currentWord, currentDigits, result := word0, digits0, result0;
    if bytesReadCount == 0 {
      ReadLoopEnds(file[fileOffset..], chunkSize, leftover, st, bytesReadCount, bufferLeftover, st, total);
      return;
    }
    var stringRead := Decode(buffer[..lastLineBreakIdx + 1]);
    currentWord, currentDigits, result := ParseChunk(stringRead, isLastChunk, currentWord, currentDigits, result);
    ghost var st' := ParserState(currentWord, currentDigits, result);
    if isLastChunk {
      ReadLoopEnds(file[fileOffset..], chunkSize, leftover, st, bytesReadCount, bufferLeftover, st', total);
    } else {
      ReadLoopContinues(file, fileOffset, chunkSize, leftover, st, bytesReadCount, bufferLeftover, st', total);
    }
  }

  /** The message `read` throws when there is no file at the path. */
  const NotFoundMessage: string := "No dictionary found. Check the path: "

  /** `DictionaryReader.read`: `file` is the content of the file at `path`,
      `None` when there is none. The loop builds exactly the dictionary of
      the chunked reading above, with chunks of `ChunkSize` bytes. */
  method Read(path: string, file: Option<seq<byte>>) returns (r: Result<ReadDictionary, string>)
    ensures file.None? ==> r == Failure(NotFoundMessage + path)
    ensures file.Some? ==> r == Success(ReadWith(file.value, ChunkSize))
  {
    if file.None? {
      return Failure(NotFoundMessage + path);
    }
    var result := ReadChunks(file.value, ChunkSize);
    return Success(result);
  }

  /** The `while (true)` loop of `read` over the bytes of the file, for a
      given chunk size. */
  method ReadChunks(bytes: seq<byte>, chunkSize: nat) returns (result: ReadDictionary)
    requires chunkSize > 0
    ensures result == ReadWith(bytes, chunkSize)
  {
    result := map[];
    var fileOffset: nat := 0;
    var currentWord := "";
    var currentDigits := "";
    var bufferLeftover: seq<byte> := [];
    ghost var total := ParsePieces(Start, Pieces(bytes, chunkSize, []));
    PendingAtStart(bytes, chunkSize);
    while true
      invariant Pending(bytes, fileOffset, chunkSize, bufferLeftover, ParserState(currentWord, currentDigits, result), total)
      decreases |bytes| - fileOffset
    {
      var bytesReadCount;
      bytesReadCount, bufferLeftover, currentWord, currentDigits, result :=
        ReadNextChunk(bytes, fileOffset, chunkSize, bufferLeftover, currentWord, currentDigits, result, total);
      var isLastChunk := bytesReadCount < chunkSize;
      if bytesReadCount == 0 || isLastChunk {
        break;
      }
      fileOffset := fileOffset + bytesReadCount;
    }
  }
}
