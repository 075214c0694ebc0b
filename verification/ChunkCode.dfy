/** Chunked transfer coding (section 4.1 of RFC 7230): its text, and what http_parse makes of any text. */
module ChunkCode {
  import opened Bytes

  const CR: Byte := 0x0d
  const LF: Byte := 0x0a
  const CHUNK_MAX: nat := 32 // HTTP_CHUNK_MAX

  // ---------------------------------------------------------------- the coding

  /** A chunk: its size in hexadecimal digits, an extension, and its data. The last chunk has none. */
  datatype Chunk = Chunk(digits: Text, extension: Text, data: Text) {
    function Line(): Text { digits + extension }

    /** The size line is one http_parse has room for, and gives the size of the data. */
    ghost predicate Valid() {
      && digits != [] && (forall i :: 0 <= i < |digits| ==> HexOf(digits[i]) >= 0)
      && (extension == [] || extension[0] in {0x3b, 0x20, 0x09}) && CR !in extension
      && |Line()| < CHUNK_MAX && HexValue(digits) == |data| < 0x8000_0000
    }
  }

  function HexValue(digits: Text): int {
    if digits == [] then 0 else 16 * HexValue(digits[..|digits| - 1]) + HexOf(digits[|digits| - 1])
  }

  function ChunkText(c: Chunk): Text { c.Line() + [CR, LF] + (c.data + [CR, LF]) }

  function ChunksText(chunks: seq<Chunk>): Text {
    if chunks == [] then [] else ChunkText(chunks[0]) + ChunksText(chunks[1..])
  }

  function DataOf(chunks: seq<Chunk>): Text {
    if chunks == [] then [] else chunks[0].data + DataOf(chunks[1..])
  }

  /** A chunked body: chunks, the last chunk, and whatever comes after its line. */
  function BodyText(chunks: seq<Chunk>, final: Chunk, trailer: Text): Text {
    ChunksText(chunks) + (final.Line() + [CR, LF] + trailer)
  }

  // ---------------------------------------------------------------- reading it byte by byte

  /** In the size line, after its carriage return, or in the data. */
  datatype St = Begin(line: Text) | Lf(line: Text) | Data(left: nat)

  /** The whole body, an input http_parse turns down, or one on which the C code is undefined: a size
      sscanf does not give as a small number, or an end inside the data. */
  datatype Decoded = Whole(body: Text) | Broken | Outside

  function Over(front: Text, d: Decoded): Decoded {
    match d case Whole(body) => Whole(front + body) case other => other
  }

  datatype Size = Known(n: nat) | Unknown

  /** The hexadecimal digits in front, taken into a number. */
  function LeadHex(s: Text, n: nat): nat
    decreases |s|
  {
    if s != [] && HexOf(s[0]) >= 0 then LeadHex(s[1..], 16 * n + HexOf(s[0])) else n
  }

  /** sscanf with "%x" into an int. */
  function ScanHex(line: Text): Size {
    if line == [] || HexOf(line[0]) < 0 || (|line| > 1 && line[0] == 0x30 && line[1] in {0x58, 0x78}) then Unknown
    else if LeadHex(line, 0) >= 0x8000_0000 then Unknown
    else Known(LeadHex(line, 0))
  }

  function Run(st: St, s: Text): Decoded
    decreases |s|, st.Data?
  {
    if s == [] then
      if st.Data? then Outside else Broken
    else
      match st
      case Begin(line) =>
        if s[0] == CR then Run(Lf(line), s[1..])
        else if |line| + 1 >= CHUNK_MAX then Broken
        else Run(Begin(line + [s[0]]), s[1..])
      case Lf(line) =>
        if s[0] != LF then Broken
        else if line == [] || line[0] == 0 then Run(Begin([]), s[1..])
        else
          var size := ScanHex(line);
          if size == Unknown then Outside
          else if size.n == 0 then Whole([])
          else Run(Data(size.n), s[1..])
      case Data(left) =>
        if left == 0 then Run(Begin([]), s) else Over([s[0]], Run(Data(left - 1), s[1..]))
  }

  // ---------------------------------------------------------------- every chunked body decodes

  /** The number read so far, with the digits of `a` taken in. */
  function TakeIn(a: Text, n: int): int
    decreases |a|
  {
    if a == [] then n else TakeIn(a[..|a| - 1], n) * 16 + HexOf(a[|a| - 1])
  }

  lemma {:induction false} TakeInFirst(a: Text, n: int)
    requires a != []
    ensures TakeIn(a, n) == TakeIn(a[1..], 16 * n + HexOf(a[0]))
    decreases |a|
  {
    if |a| > 1 {
      TakeInFirst(a[..|a| - 1], n);
      assert a[..|a| - 1][1..] == a[1..][..|a| - 2];
    } else {
      assert a[1..] == [] && a[..0] == [];
    }
  }

  lemma {:induction false} LeadHexDigits(a: Text, t: Text, n: nat)
    requires forall i :: 0 <= i < |a| ==> HexOf(a[i]) >= 0
    requires t == [] || HexOf(t[0]) < 0
    ensures LeadHex(a + t, n) == TakeIn(a, n)
    decreases |a|
  {
    if a == [] {
      assert a + t == t;
    } else {
      assert (a + t)[1..] == a[1..] + t;
      TakeInFirst(a, n);
      LeadHexDigits(a[1..], t, 16 * n + HexOf(a[0]));
    }
  }

  lemma {:induction false} TakeInValue(a: Text)
    ensures TakeIn(a, 0) == HexValue(a)
    decreases |a|
  {
    if a != [] {
      TakeInValue(a[..|a| - 1]);
    }
  }

  lemma ScanLine(c: Chunk)
    requires c.Valid()
    ensures ScanHex(c.Line()) == Known(|c.data|)
  {
    LeadHexDigits(c.digits, c.extension, 0);
    TakeInValue(c.digits);
    if |c.Line()| > 1 {
      assert c.Line()[1] == if |c.digits| > 1 then c.digits[1] else c.extension[0];
    }
  }

  lemma {:induction false} RunLine(done: Text, line: Text, t: Text)
    requires CR !in line && |done| + |line| < CHUNK_MAX
    ensures Run(Begin(done), line + [CR] + t) == Run(Lf(done + line), t)
    decreases |line|
  {
    var s := line + [CR] + t;
    if line == [] {
      assert s[1..] == t && done + line == done;
    } else {
      assert s[1..] == line[1..] + [CR] + t;
      RunLine(done + [line[0]], line[1..], t);
      assert done + [line[0]] + line[1..] == done + line;
    }
  }

  lemma {:induction false} RunData(data: Text, t: Text)
    requires t != []
    ensures Run(Data(|data|), data + t) == Over(data, Run(Begin([]), t))
    decreases |data|
  {
    if data == [] {
      assert data + t == t;
      OverNone(Run(Begin([]), t));
    } else {
      assert (data + t)[1..] == data[1..] + t;
      RunData(data[1..], t);
      OverTwice([data[0]], data[1..], Run(Begin([]), t));
      assert [data[0]] + data[1..] == data;
    }
  }

  lemma OverNone(d: Decoded)
    ensures Over([], d) == d
  {
    if d.Whole? {
      assert [] + d.body == d.body;
    }
  }

  lemma OverTwice(a: Text, b: Text, d: Decoded)
    ensures Over(a, Over(b, d)) == Over(a + b, d)
  {
    if d.Whole? {
      assert a + (b + d.body) == a + b + d.body;
    }
  }

  lemma RunChunk(c: Chunk, t: Text)
    requires c.Valid() && c.data != []
    ensures Run(Begin([]), ChunkText(c) + t) == Over(c.data, Run(Begin([]), t))
  {
    var afterData := [CR, LF] + t;
    var afterLine := [LF] + (c.data + afterData);
    HexNotCr(c);
    hide Run, ScanHex;
    assert ChunkText(c) + t == c.Line() + [CR] + afterLine;
    RunLine([], c.Line(), afterLine);
    assert [] + c.Line() == c.Line();
    ScanLine(c);
    SizeRead(c.Line(), |c.data|, c.data + afterData);
    RunData(c.data, afterData);
    BlankLine(t);
  }

  /** The line feed behind a size line. */
  lemma SizeRead(line: Text, n: nat, t: Text)
    requires line != [] && line[0] != 0 && ScanHex(line) == Known(n) && n > 0
    ensures Run(Lf(line), [LF] + t) == Run(Data(n), t)
  {
    assert ([LF] + t)[1..] == t;
  }

  /** The empty line behind the data of a chunk. */
  lemma BlankLine(t: Text)
    ensures Run(Begin([]), [CR, LF] + t) == Run(Begin([]), t)
  {
    assert [CR, LF] + t == [] + [CR] + ([LF] + t);
    RunLine([], [], [LF] + t);
    assert ([LF] + t)[1..] == t;
  }

  lemma HexNotCr(c: Chunk)
    requires c.Valid()
    ensures CR !in c.Line() && c.Line() != [] && c.Line()[0] != 0
  {}

  /** Every chunked body, whatever its sizes, their spelling, its extensions and its trailer, decodes to its data. */
  lemma {:induction false} Decodes(chunks: seq<Chunk>, final: Chunk, trailer: Text)
    requires forall i :: 0 <= i < |chunks| ==> chunks[i].Valid() && chunks[i].data != []
    requires final.Valid() && final.data == []
    ensures Run(Begin([]), BodyText(chunks, final, trailer)) == Whole(DataOf(chunks))
    decreases |chunks|
  {
    if chunks == [] {
      var afterLine := [LF] + trailer;
      assert BodyText(chunks, final, trailer) == final.Line() + [CR] + afterLine;
      HexNotCr(final);
      RunLine([], final.Line(), afterLine);
      assert [] + final.Line() == final.Line();
      ScanLine(final);
    } else {
      Decodes(chunks[1..], final, trailer);
      assert BodyText(chunks, final, trailer) == ChunkText(chunks[0]) + BodyText(chunks[1..], final, trailer);
      RunChunk(chunks[0], BodyText(chunks[1..], final, trailer));
    }
  }
}
