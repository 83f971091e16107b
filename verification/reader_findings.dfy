/** Two ways the chunked reader as written departs from one pass of the
    line parser over the file, each shown on a small file and stated for
    every chunk size. */
module ReaderFindings {
  import opened Wrappers
  import opened Utf8
  import opened LineParser
  import opened DictionaryReader

  /** A buffer made of text ending in a line break followed by text without
      one is split between the two. */
  lemma SplitAtLastBreak(a: seq<byte>, b: seq<byte>)
    requires a != [] && a[|a| - 1] == LineFeed
    requires forall k | 0 <= k < |b| :: b[k] != LineFeed
    ensures Parsed(a + b) == a && ParsedCorrected(a + b) == a && Carried(a + b) == b
  {
    var buffer := a + b;
    LastBreakBeforeIsLast(buffer, |buffer|);
    assert buffer[|a| - 1] == LineFeed;
    assert forall k | |a| <= k < |buffer| :: buffer[k] == b[k - |a|];
    assert LastLineBreak(buffer) == Some(|a| - 1);
    assert buffer[..|a|] == a && buffer[|a|..] == b;
  }

  /** When the file ends exactly at the end of a full chunk and its last
      line has no line break, the code as written carries that line over,
      reads zero bytes and stops: the line is never parsed. */
  lemma LastLineLostAtChunkEnd(a: seq<byte>, b: seq<byte>, chunkSize: nat)
    requires |a| + |b| == chunkSize
    requires a != [] && a[|a| - 1] == LineFeed
    requires forall k | 0 <= k < |b| :: b[k] != LineFeed
    ensures Pieces(a + b, chunkSize, []) == [Piece(a, false)]
  {
    SplitAtLastBreak(a, b);
    FullRead(a + b, chunkSize, []);
    assert [] + (a + b)[..chunkSize] == a + b;
    assert (a + b)[chunkSize..] == [];
    ShortRead([], chunkSize, b);
    assert Pieces(a + b, chunkSize, []) == [Piece(a, false)] + [];
  }

  /** The corrected reader parses that last line at the zero-byte read. */
  lemma LastLineKeptAtChunkEnd(a: seq<byte>, b: seq<byte>, chunkSize: nat)
    requires |a| + |b| == chunkSize
    requires a != [] && a[|a| - 1] == LineFeed
    requires forall k | 0 <= k < |b| :: b[k] != LineFeed
    ensures PiecesCorrected(a + b, chunkSize, []) == [Piece(a, false), Piece(b, true)]
  {
    SplitAtLastBreak(a, b);
    OneFullChunkCorrected(a + b, a, b);
  }

  /** A file of exactly one full chunk, split as given, is read by the
      corrected loop as that split. */
  lemma OneFullChunkCorrected(file: seq<byte>, parsed: seq<byte>, carried: seq<byte>)
    requires file != []
    requires ParsedCorrected(file) == parsed && Carried(file) == carried
    ensures PiecesCorrected(file, |file|, []) == [Piece(parsed, false), Piece(carried, true)]
  {
    FullReadCorrected(file, |file|, []);
    assert [] + file[..|file|] == file;
    assert file[|file|..] == [];
    ShortReadCorrected([], |file|, carried);
    assert carried + [] == carried;
    assert PiecesCorrected(file, |file|, []) == [Piece(parsed, false)] + [Piece(carried, true)];
  }

  /** When a full buffer holds no line break, the code as written parses it
      and also carries all of it to the next buffer, so its text reaches the
      parser twice. */
  lemma LongLineReadTwice(a: seq<byte>, b: seq<byte>, chunkSize: nat)
    requires |a| == chunkSize > |b| > 0
    requires forall k | 0 <= k < |a| :: a[k] != LineFeed
    ensures Pieces(a + b, chunkSize, []) == [Piece(a, false), Piece(a + b, true)]
  {
    SplitFacts(a);
    assert Parsed(a) == a && Carried(a) == a;
    FullRead(a + b, chunkSize, []);
    assert [] + (a + b)[..chunkSize] == a;
    assert (a + b)[chunkSize..] == b;
    ShortRead(b, chunkSize, a);
    assert Pieces(b, chunkSize, a) == [Piece(a + b, true)];
    assert Pieces(a + b, chunkSize, []) == [Piece(a, false)] + [Piece(a + b, true)];
  }

  /** The corrected reader parses nothing of such a buffer and carries it
      all to the next one. */
  lemma LongLineCarried(a: seq<byte>, b: seq<byte>, chunkSize: nat)
    requires |a| == chunkSize > |b|
    requires forall k | 0 <= k < |a| :: a[k] != LineFeed
    ensures PiecesCorrected(a + b, chunkSize, []) == [Piece([], false), Piece(a + b, true)]
  {
    SplitFacts(a);
    assert ParsedCorrected(a) == [] && Carried(a) == a;
    FullReadCorrected(a + b, chunkSize, []);
    assert [] + (a + b)[..chunkSize] == a;
    assert (a + b)[chunkSize..] == b;
    ShortReadCorrected(b, chunkSize, a);
    assert PiecesCorrected(b, chunkSize, a) == [Piece(a + b, true)];
    assert PiecesCorrected(a + b, chunkSize, []) == [Piece([], false)] + [Piece(a + b, true)];
  }

  /** A digit followed by a line break decodes to those two characters. */
  lemma DecodeDigitLine(d: byte)
    requires 0x30 <= d <= 0x39
    ensures Decode([d, 0x0A]) == [d as char, '\n']
  {
    DecodeOneByte(0x0A, []);
    DecodeOneByte(d, [0x0A]);
    assert [d] + [0x0A] == [d, 0x0A];
  }

  /** The bytes of `я1\n`, the first line of the short example, decode as
      UTF-8 says. */
  lemma DecodeLostExample()
    ensures Decode([0xD1, 0x8F, 0x31, 0x0A]) == "я1\n"
  {
    var tail: seq<byte> := [0x31, 0x0A];
    DecodeDigitLine(0x31);
    DecodeTwoBytes(0xD1, 0x8F, tail);
    assert [0xD1, 0x8F] + tail == [0xD1, 0x8F, 0x31, 0x0A];
  }

  /** The bytes of `б2`, its last line, decode to it. */
  lemma DecodeLastLineExample()
    ensures Decode([0xD0, 0xB1, 0x32]) == "б2"
  {
    var tail: seq<byte> := [0x32];
    DecodeOneByte(0x32, []);
    assert [0x32 as byte] + [] == tail;
    DecodeTwoBytes(0xD0, 0xB1, tail);
    assert [0xD0, 0xB1] + tail == [0xD0, 0xB1, 0x32];
  }

  /** The first four bytes of `яб1\n` decode to `яб`. */
  lemma DecodeLongPrefixExample()
    ensures Decode([0xD1, 0x8F, 0xD0, 0xB1]) == "яб"
  {
    var tail: seq<byte> := [0xD0, 0xB1];
    DecodeTwoBytes(0xD0, 0xB1, []);
    assert [0xD0, 0xB1] + [] == tail;
    DecodeTwoBytes(0xD1, 0x8F, tail);
    assert [0xD1, 0x8F] + tail == [0xD1, 0x8F, 0xD0, 0xB1];
  }

  /** The bytes of `яб1\n` decode to it. */
  lemma DecodeLongExample()
    ensures Decode([0xD1, 0x8F, 0xD0, 0xB1, 0x31, 0x0A]) == "яб1\n"
  {
    var line: seq<byte> := [0x31, 0x0A];
    var tail: seq<byte> := [0xD0, 0xB1, 0x31, 0x0A];
    DecodeDigitLine(0x31);
    DecodeTwoBytes(0xD0, 0xB1, line);
    assert [0xD0, 0xB1] + line == tail;
    DecodeTwoBytes(0xD1, 0x8F, tail);
    assert [0xD1, 0x8F] + tail == [0xD1, 0x8F, 0xD0, 0xB1, 0x31, 0x0A];
  }

  /** The letters and digits of the example lines. */
  lemma LineExamples()
    ensures Letters("я1") == "я" && DigitsOf("я1") == "1"
    ensures Letters("б2") == "б" && DigitsOf("б2") == "2"
    ensures Letters("яб1") == "яб" && DigitsOf("яб1") == "1"
    ensures ParseInt("1") == Some(1) && ParseInt("2") == Some(2)
  {
    assert "я1"[1..] == "1" && "б2"[1..] == "2" && "яб1"[1..] == "б1" && "б1"[1..] == "1";
    assert DecimalValue("1") == 1 by { assert "1"[..0] == ""; }
    assert DecimalValue("2") == 2 by { assert "2"[..0] == ""; }
  }

  /** The line `я1` stores `я`. */
  lemma ParseFirstLostLine()
    ensures ParseText(Start, "я1\n", false) == ParserState("", "", map["я" := Some(1)])
  {
    LineExamples();
    ParseLine(Start, "я1", false);
    assert "я1" + "\n" == "я1\n";
    assert Start.word + "я" == "я" && Start.digits + "1" == "1";
  }

  /** The last line `б2` then stores `б`. */
  lemma ParseLastLostLine()
    ensures ParseText(ParserState("", "", map["я" := Some(1)]), "б2", true)
         == ParserState("", "", map["я" := Some(1), "б" := Some(2)])
  {
    LineExamples();
    ParseLastLine(ParserState("", "", map["я" := Some(1)]), "б2");
    assert "" + "б" == "б" && "" + "2" == "2";
  }

  /** `яб` without a line break is still the current word. */
  lemma ParseLongPrefix()
    ensures ParseText(Start, "яб", false) == ParserState("яб", "", map[])
  {
    assert "яб"[1..] == "б";
    assert "б"[1..] == "";
  }

  /** `яб1\n` after `яб` stores `ябяб`, and on its own stores `яб`. */
  lemma ParseLongLine()
    ensures ParseText(ParserState("яб", "", map[]), "яб1\n", true).result == map["ябяб" := Some(1)]
    ensures ParseText(Start, "яб1\n", true).result == map["яб" := Some(1)]
  {
    LineExamples();
    assert "яб1" + "\n" == "яб1\n";
    ParseLine(ParserState("яб", "", map[]), "яб1", true);
    ParseLine(Start, "яб1", true);
    assert "яб" + "яб" == "ябяб" && "" + "яб" == "яб" && "" + "1" == "1";
  }

  /** The file `я1\nб2` read in one seven-byte chunk: the code as written
      stores only `я`; the corrected reader also stores `б`. */
  lemma LostLastLine(file: seq<byte>)
    requires file == [0xD1, 0x8F, 0x31, 0x0A, 0xD0, 0xB1, 0x32]
    ensures ReadWith(file, 7) == map["я" := Some(1)]
    ensures ReadCorrectedWith(file, 7) == map["я" := Some(1), "б" := Some(2)]
  {
    var a: seq<byte> := [0xD1, 0x8F, 0x31, 0x0A];
    var b: seq<byte> := [0xD0, 0xB1, 0x32];
    assert file == a + b;
    LastLineLostAtChunkEnd(a, b, 7);
    LastLineKeptAtChunkEnd(a, b, 7);
    DecodeLostExample();
    DecodeLastLineExample();
    ParseFirstLostLine();
    ParseLastLostLine();
    var st := ParserState("", "", map["я" := Some(1)]);
    ParseFirstPiece(Start, Piece(a, false), []);
    ParseFirstPiece(Start, Piece(a, false), [Piece(b, true)]);
    ParseFirstPiece(st, Piece(b, true), []);
  }

  /** The file `яб1\n` read in four-byte chunks: the first chunk holds no
      line break, so the code as written stores `ябяб`; the corrected reader
      stores `яб`. */
  lemma DuplicatedLongLine(file: seq<byte>)
    requires file == [0xD1, 0x8F, 0xD0, 0xB1, 0x31, 0x0A]
    ensures ReadWith(file, 4) == map["ябяб" := Some(1)]
    ensures ReadCorrectedWith(file, 4) == map["яб" := Some(1)]
  {
    var a: seq<byte> := [0xD1, 0x8F, 0xD0, 0xB1];
    var b: seq<byte> := [0x31, 0x0A];
    assert file == a + b;
    LongLineReadTwice(a, b, 4);
    LongLineCarried(a, b, 4);
    DecodeLongPrefixExample();
    DecodeLongExample();
    ParseLongPrefix();
    ParseLongLine();
    var st := ParserState("яб", "", map[]);
    ParseFirstPiece(Start, Piece(a, false), [Piece(a + b, true)]);
    ParseFirstPiece(st, Piece(a + b, true), []);
    ParseFirstPiece(Start, Piece([], false), [Piece(a + b, true)]);
    ParseFirstPiece(Start, Piece(a + b, true), []);
  }
}
