/**
 The canonical edge file and the seed file: one writer in Go, a reader in Go and a second
 reader in Rust. A file is its bytes.
 */
module EdgeFile {
  import opened Options
  import opened Rows
  import opened Bytes

  const MAGIC: seq<int> := [0x6b, 0x75, 0x72, 0x61, 0x67, 0x72, 0x66, 0x31]
  const HEADER := 32

  datatype Header = Header(nodes: int, edges: int, maxId: int, flags: int) {
    /** What the fields can hold, and a file whose size can be counted. */
    ghost predicate InRange() {
      && -TWO63 <= nodes < TWO63 && 0 <= edges && HEADER + 8 * edges < TWO63
      && 0 <= maxId < 0x1_0000_0000 && 0 <= flags < 0x1_0000_0000
    }
  }

  datatype FileError = CountMismatch | Short | NotAnEdgeFile | WrongSize | TooLarge | NotWholeIds

  function HeaderBytes(h: Header): (bytes: seq<int>)
    requires h.maxId >= 0 && h.flags >= 0
    ensures |bytes| == HEADER
  {
    MAGIC + LittleEndian(Uint64(h.nodes), 8) + LittleEndian(Uint64(h.edges), 8)
      + LittleEndian(h.maxId, 4) + LittleEndian(h.flags, 4)
  }

  /** Writes a word into a buffer in place. */
  method PutWord(buffer: array<int>, at: nat, v: nat, width: nat)
    requires at + width <= buffer.Length
    modifies buffer
    ensures buffer[..at + width] == old(buffer[..at]) + LittleEndian(v, width)
    ensures buffer[at + width..] == old(buffer[at + width..])
  {
    var rest := v;
    for i := 0 to width
      invariant buffer[..at] == old(buffer[..at]) && buffer[at + i..] == old(buffer[at + i..])
      invariant buffer[at..at + i] + LittleEndian(rest, width - i) == LittleEndian(v, width)
    {
      buffer[at + i] := rest % 256;
      rest := rest / 256;
      assert buffer[at..at + i + 1] == buffer[at..at + i] + [buffer[at + i]];
    }
    assert buffer[..at + width] == buffer[..at] + buffer[at..at + width];
  }

  method WriteHeader(h: Header) returns (bytes: seq<int>)
    requires 0 <= h.maxId && 0 <= h.flags
    ensures bytes == HeaderBytes(h)
  {
    hide LittleEndian, Uint64;
    var head := new int[HEADER](i => if 0 <= i < |MAGIC| then MAGIC[i] else 0);
    assert head[..8] == MAGIC;
    PutWord(head, 8, Uint64(h.nodes), 8);
    PutWord(head, 16, Uint64(h.edges), 8);
    PutWord(head, 24, h.maxId, 4);
    PutWord(head, 28, h.flags, 4);
    bytes := head[..];
  }

  ghost predicate AreU32(vals: seq<int>) {
    forall i :: 0 <= i < |vals| ==> 0 <= vals[i] < 0x1_0000_0000
  }

  method WriteEdges(h: Header, edges: seq<int>) returns (r: Result<seq<int>, FileError>)
    requires AreU32(edges) && 0 <= h.maxId && 0 <= h.flags
    ensures |edges| != Int64(h.edges * 2) ==> r == Err(CountMismatch)
    ensures |edges| == Int64(h.edges * 2) ==> r == Ok(HeaderBytes(h) + Words(edges, 4))
  {
    if |edges| != Int64(h.edges * 2) {
      return Err(CountMismatch);
    }
    var head := WriteHeader(h);
    var body := WriteWords(edges, 4);
    return Ok(head + body);
  }

  // ----- The reader in Go

  function FieldsOf(file: seq<int>): Header
    requires |file| >= HEADER
  {
    Header(Int64(Value(file[8..16])), Int64(Value(file[16..24])), Value(file[24..28]), Value(file[28..32]))
  }

  /** The size check is in 64-bit arithmetic, which wraps. */
  function ReadHeader(file: seq<int>): (r: Result<Header, FileError>) {
    if |file| < HEADER then Err(Short)
    else if file[0..8] != MAGIC then Err(NotAnEdgeFile)
    else
      var h := FieldsOf(file);
      if |file| != Int64(HEADER + Int64(h.edges * 8)) then Err(WrongSize) else Ok(h)
  }

  // ----- The reader in Rust

  function RustFieldsOf(file: seq<int>): Header
    requires |file| >= HEADER
  {
    Header(Value(file[8..16]), Value(file[16..24]), Value(file[24..28]), Value(file[28..32]))
  }

  function RustHeader(file: seq<int>): (r: Result<Header, FileError>) {
    if |file| < HEADER then Err(Short)
    else if file[0..8] != MAGIC then Err(NotAnEdgeFile)
    else
      var h := RustFieldsOf(file);
      if |file| != Uint64(HEADER + Uint64(h.edges * 8)) then Err(WrongSize) else Ok(h)
  }

  // ----- What the check is worth

  lemma EdgeFieldInRange(file: seq<int>)
    requires AreBytes(file) && |file| >= HEADER
    ensures 0 <= Value(file[16..24]) < TWO64
  {
    ValueInRange(file[16..24]);
    PowersOf256();
  }

  lemma NodesFieldInRange(file: seq<int>)
    requires AreBytes(file) && |file| >= HEADER
    ensures Value(file[8..16]) < TWO63 ==> Int64(Value(file[8..16])) == Value(file[8..16])
  {
    ValueInRange(file[8..16]);
    PowersOf256();
  }

  /** The count at which eight bytes an edge come to two to the 64. */
  const WRAPS := 0x2000_0000_0000_0000

  lemma TimesEight(e: nat)
    requires e < TWO64
    ensures (e * 8) % TWO64 == 8 * (e % WRAPS)
  {
    assert e == WRAPS * (e / WRAPS) + e % WRAPS;
    assert e * 8 == TWO64 * (e / WRAPS) + 8 * (e % WRAPS);
  }

  /** What the size check really compares: the edge count modulo two to the 61. */
  lemma SizeCheckIsModulo(file: seq<int>)
    requires AreBytes(file) && HEADER <= |file| < TWO63 && file[0..8] == MAGIC
    ensures ReadHeader(file).Ok? <==> |file| == HEADER + 8 * (Value(file[16..24]) % WRAPS)
    ensures RustHeader(file).Ok? <==> |file| == HEADER + 8 * (Value(file[16..24]) % WRAPS)
  {
    hide Value, Pow256;
    EdgeFieldInRange(file);
    var e := Value(file[16..24]);
    TimesEight(e);
    Int64Times(e);
  }

  lemma Int64Times(e: nat)
    requires e < TWO64
    ensures Uint64(Int64(e) * 8) == Uint64(e * 8)
  {
    if e >= TWO63 {
      assert (e - TWO64) * 8 == e * 8 - 8 * TWO64;
      assert (e * 8 - 8 * TWO64) % TWO64 == (e * 8) % TWO64;
    }
  }

  // ----- The edges

  /** The rest of the file, as words. */
  ghost predicate IsBody(vals: seq<int>, file: seq<int>) {
    |file| >= HEADER && IsFlat(file[HEADER..], 4, |vals|) && DecodesTo(vals, file[HEADER..], 4, |vals|)
  }

  /** Twice the edge count, as the readers compute it, is the number of words or is no size at all. */
  lemma WordCount(e: nat)
    requires e < TWO64
    ensures (e * 2) % TWO64 == 2 * (e % WRAPS) + 0x4000_0000_0000_0000 * (e / WRAPS % 4)
    ensures e % TWO63 < WRAPS <==> e / WRAPS % 4 == 0
  {
    var q, b := e / WRAPS, e % WRAPS;
    assert e == WRAPS * q + b && 0 <= q < 8;
    assert q == 4 * (q / 4) + q % 4;
  }

  lemma Int64Doubles(e: nat)
    requires e < TWO64
    ensures Uint64(Int64(e) * 2) == Uint64(e * 2)
  {
    if e >= TWO63 {
      assert Int64(e) * 2 == e * 2 - 2 * TWO64;
    }
  }

  /** A count that no slice can have stops the program; it is `TooLarge` here. */
  method ReadEdges(file: seq<int>) returns (r: Result<(Header, seq<int>), FileError>)
    requires AreBytes(file) && |file| < TWO63
    ensures ReadHeader(file).Err? ==> r == Err(ReadHeader(file).error)
    ensures ReadHeader(file).Ok? ==> (r.Ok? <==> Value(file[16..24]) % TWO63 < WRAPS)
    ensures r.Ok? ==> ReadHeader(file) == Ok(r.value.0) && IsBody(r.value.1, file)
  {
    hide Value, IsBody;
    var header := ReadHeader(file);
    if header.Err? {
      return Err(header.error);
    }
    var h := header.value;
    ghost var e := Value(file[16..24]);
    EdgeFieldInRange(file);
    SizeCheckIsModulo(file);
    Int64Doubles(e);
    WordCount(e);
    var count := Int64(h.edges * 2);
    if count < 0 || 4 * count >= TWO63 {
      return Err(TooLarge);
    }
    assert count == 2 * (e % WRAPS);
    var vals := ReadBody(file, count);
    return Ok((h, vals));
  }

  /** The Rust reader asks for the room first and then takes what the file holds. */
  method RustEdges(file: seq<int>) returns (r: Result<(Header, seq<int>), FileError>)
    requires AreBytes(file) && |file| < TWO63
    ensures RustHeader(file).Err? ==> r == Err(RustHeader(file).error)
    ensures RustHeader(file).Ok? ==> (r.Ok? <==> Value(file[16..24]) % TWO63 < WRAPS)
    ensures r.Ok? ==> RustHeader(file) == Ok(r.value.0) && IsBody(r.value.1, file)
  {
    hide Value, IsBody;
    var header := RustHeader(file);
    if header.Err? {
      return Err(header.error);
    }
    var h := header.value;
    EdgeFieldInRange(file);
    SizeCheckIsModulo(file);
    WordCount(h.edges);
    if 4 * Uint64(h.edges * 2) >= TWO63 {
      return Err(TooLarge);
    }
    var vals := ReadBody(file, 2 * (h.edges % WRAPS));
    return Ok((h, vals));
  }

  method ReadBody(file: seq<int>, count: nat) returns (vals: seq<int>)
    requires |file| == HEADER + 4 * count
    ensures |vals| == count && IsBody(vals, file)
  {
    vals := ReadWords(file[HEADER..], 4, count);
  }

  /** So it tells a whole file from a broken one exactly unless the count has wrapped onto the size. */
  lemma SizeCheckMeansSize(file: seq<int>)
    requires AreBytes(file) && HEADER <= |file| < TWO63 && file[0..8] == MAGIC
    ensures var e := Value(file[16..24]);
            (ReadHeader(file).Ok? <==> |file| == HEADER + 8 * e) <==> (e < WRAPS || |file| != HEADER + 8 * (e % WRAPS))
  {
    hide Value, Pow256, ReadHeader;
    EdgeFieldInRange(file);
    SizeCheckIsModulo(file);
  }

  /** Both size checks compare the same number, one in signed and one in unsigned arithmetic. */
  lemma SameSizeCheck(e: nat, size: nat)
    requires e < TWO64 && size < TWO63
    ensures size == Int64(HEADER + Int64(Int64(e) * 8)) <==> size == Uint64(HEADER + Uint64(e * 8))
    ensures e < TWO63 ==> Int64(e) == e
  {
    assert e < TWO63 ==> Int64(e) == e;
    hide Int64, Uint64;
    Int64Times(e);
    var signed := Int64(e) * 8;
    HeaderAdded(signed);
    SignedAgrees(HEADER + Int64(signed), size);
  }

  lemma HeaderAdded(v: int)
    ensures Uint64(HEADER + Int64(v)) == Uint64(HEADER + Uint64(v))
  {
    var signed, unsigned := Int64(v), Uint64(v);
    if signed != unsigned {
      assert HEADER + signed == HEADER + unsigned - TWO64;
    }
  }

  lemma SignedAgrees(v: int, size: nat)
    requires size < TWO63
    ensures size == Int64(v) <==> size == Uint64(v)
  {
  }

  /** On any file of a possible size the two readers accept and refuse alike. */
  lemma ReadersAgree(file: seq<int>)
    requires AreBytes(file) && |file| < TWO63
    ensures ReadHeader(file).Ok? <==> RustHeader(file).Ok?
    ensures ReadHeader(file).Err? ==> RustHeader(file) == ReadHeader(file)
    ensures ReadHeader(file).Ok? && Value(file[8..16]) < TWO63 && Value(file[16..24]) < TWO63 ==>
              ReadHeader(file) == RustHeader(file)
  {
    hide Value, Int64, Uint64;
    if |file| >= HEADER {
      EdgeFieldInRange(file);
      SameSizeCheck(Value(file[16..24]), |file|);
      NodesFieldInRange(file);
    }
  }

  /** Past that the wrap lets a bare header through: two to the 61 edges in a file of none. */
  lemma SizeCheckWraps(file: seq<int>)
    requires file == MAGIC + LittleEndian(0, 8) + LittleEndian(WRAPS, 8) + LittleEndian(0, 4) + LittleEndian(0, 4)
    ensures |file| == HEADER && ReadHeader(file).Ok? && RustHeader(file).Ok?
    ensures ReadHeader(file).value.edges == RustHeader(file).value.edges == WRAPS
  {
    hide Value, Pow256, LittleEndian;
    PowersOf256();
    ValueOfLittleEndian(WRAPS, 8);
    assert file[0..8] == MAGIC;
    assert file[16..24] == LittleEndian(WRAPS, 8);
  }

  // ----- Round trips

  lemma WrittenFields(h: Header, body: seq<int>)
    requires h.InRange()
    ensures FieldsOf(HeaderBytes(h) + body) == h
    ensures h.nodes >= 0 ==> RustFieldsOf(HeaderBytes(h) + body) == h
    ensures (HeaderBytes(h) + body)[0..8] == MAGIC
  {
    hide Value, Pow256, LittleEndian;
    var file := HeaderBytes(h) + body;
    PowersOf256();
    ValueOfLittleEndian(Uint64(h.nodes), 8);
    ValueOfLittleEndian(Uint64(h.edges), 8);
    ValueOfLittleEndian(h.maxId, 4);
    ValueOfLittleEndian(h.flags, 4);
    assert file[0..8] == MAGIC;
    assert file[8..16] == LittleEndian(Uint64(h.nodes), 8);
    assert file[16..24] == LittleEndian(Uint64(h.edges), 8);
    assert file[24..28] == LittleEndian(h.maxId, 4);
    assert file[28..32] == LittleEndian(h.flags, 4);
  }

  /** Where everything is in a written file: the letters kuragrf1, four fields and the edges in order. */
  lemma FileLayout(h: Header, edges: seq<int>)
    requires h.maxId >= 0 && h.flags >= 0 && AreU32(edges)
    ensures var file := HeaderBytes(h) + Words(edges, 4);
            && |file| == 32 + 4 * |edges|
            && file[..8] == [0x6b, 0x75, 0x72, 0x61, 0x67, 0x72, 0x66, 0x31]
            && file[8..16] == LittleEndian(Uint64(h.nodes), 8) && file[16..24] == LittleEndian(Uint64(h.edges), 8)
            && file[24..28] == LittleEndian(h.maxId, 4) && file[28..32] == LittleEndian(h.flags, 4)
            && forall i :: 0 <= i < |edges| ==> WordIs(file, 32 + 4 * i, edges[i])
  {
    hide LittleEndian, Words;
    var head, body := HeaderBytes(h), Words(edges, 4);
    var file := head + body;
    WordsAreRows(edges, 4);
    forall i | 0 <= i < |edges|
      ensures WordIs(file, 32 + 4 * i, edges[i])
    {
      WordAt(edges, 4, i);
      assert file[32 + 4 * i..36 + 4 * i] == body[i * 4..i * 4 + 4];
    }
    assert file[..8] == MAGIC && file[8..16] == LittleEndian(Uint64(h.nodes), 8);
    assert file[16..24] == LittleEndian(Uint64(h.edges), 8);
    assert file[24..28] == LittleEndian(h.maxId, 4) && file[28..32] == LittleEndian(h.flags, 4);
  }

  /** The four bytes at a position are a word. */
  ghost predicate WordIs(file: seq<int>, at: nat, v: int) {
    v >= 0 && at + 4 <= |file| && file[at..at + 4] == LittleEndian(v, 4)
  }

  lemma WrittenIsRead(h: Header, edges: seq<int>, read: seq<int>)
    requires h.InRange() && AreU32(edges) && |edges| == h.edges * 2
    ensures var file := HeaderBytes(h) + Words(edges, 4);
            && ReadHeader(file) == Ok(h)
            && (h.nodes >= 0 ==> RustHeader(file) == Ok(h))
            && |file| == HEADER + 8 * h.edges
            && (IsBody(read, file) ==> read == edges)
  {
    hide Value, Pow256, LittleEndian, HeaderBytes, FieldsOf, RustFieldsOf, Words;
    var body := Words(edges, 4);
    var file := HeaderBytes(h) + body;
    WordsAreRows(edges, 4);
    WrittenFields(h, body);
    PowersOf256();
    assert file[HEADER..] == body;
    if IsBody(read, file) {
      assert |read| == |edges|;
      WordsRoundTrip(edges, 4, read);
    }
  }

  lemma HeaderIsBytes(h: Header)
    requires h.maxId >= 0 && h.flags >= 0
    ensures AreBytes(HeaderBytes(h))
  {
    hide LittleEndian;
    LittleEndianBytes(Uint64(h.nodes), 8);
    LittleEndianBytes(Uint64(h.edges), 8);
    LittleEndianBytes(h.maxId, 4);
    LittleEndianBytes(h.flags, 4);
  }

  /** What was written is what both readers read, header and edges. */
  method EdgesRoundTrip(h: Header, edges: seq<int>)
    returns (go: Result<(Header, seq<int>), FileError>, rust: Result<(Header, seq<int>), FileError>)
    requires h.InRange() && AreU32(edges) && |edges| == h.edges * 2
    ensures go == Ok((h, edges))
    ensures h.nodes >= 0 ==> rust == Ok((h, edges))
  {
    hide Value, HeaderBytes, Words, LittleEndian, ReadHeader, RustHeader, IsBody;
    assert Int64(h.edges * 2) == h.edges * 2;
    var written := WriteEdges(h, edges);
    var file := written.value;
    HeaderIsBytes(h);
    WordsBytes(edges, 4);
    WrittenIsRead(h, edges, []);
    EdgesFieldWritten(h, Words(edges, 4));
    go := ReadEdges(file);
    rust := RustEdges(file);
    if go.Ok? {
      WrittenIsRead(h, edges, go.value.1);
    }
    if rust.Ok? {
      WrittenIsRead(h, edges, rust.value.1);
    }
  }

  /** A conversion killed partway is never taken for a graph, wherever it stopped. */
  lemma PrefixesAreRefused(h: Header, edges: seq<int>, n: nat)
    requires h.InRange() && AreU32(edges) && |edges| == h.edges * 2
    requires n < |HeaderBytes(h) + Words(edges, 4)|
    ensures var part := (HeaderBytes(h) + Words(edges, 4))[..n]; ReadHeader(part).Err? && RustHeader(part).Err?
  {
    hide Value, LittleEndian, HeaderBytes, Words, Int64, Uint64;
    var body := Words(edges, 4);
    var file := HeaderBytes(h) + body;
    WordsAreRows(edges, 4);
    SizeNeedsNoWrap(h.edges);
    if n >= HEADER {
      var part := file[..n];
      assert part == HeaderBytes(h) + body[..n - HEADER];
      WrittenFields(h, body[..n - HEADER]);
      EdgesFieldWritten(h, body[..n - HEADER]);
    }
  }

  lemma SizeNeedsNoWrap(e: nat)
    requires HEADER + 8 * e < TWO63
    ensures Int64(HEADER + Int64(e * 8)) == Uint64(HEADER + Uint64(e * 8)) == HEADER + 8 * e
  {
  }

  lemma EdgesFieldWritten(h: Header, body: seq<int>)
    requires h.InRange()
    ensures Value((HeaderBytes(h) + body)[16..24]) == h.edges
  {
    hide Value, Pow256, LittleEndian;
    PowersOf256();
    ValueOfLittleEndian(h.edges, 8);
    assert (HeaderBytes(h) + body)[16..24] == LittleEndian(h.edges, 8);
  }

  // ----- Identifier files

  method ReadIds(file: seq<int>) returns (r: Result<seq<int>, FileError>)
    ensures r.Ok? <==> |file| % 4 == 0
    ensures r.Ok? ==> IsFlat(file, 4, |file| / 4) && DecodesTo(r.value, file, 4, |file| / 4)
    ensures r.Err? ==> r == Err(NotWholeIds)
  {
    if |file| % 4 != 0 {
      return Err(NotWholeIds);
    }
    var ids := ReadWords(file, 4, |file| / 4);
    return Ok(ids);
  }

  /** A seed file gives back the seeds in the order they were written. */
  method SeedsRoundTrip(ids: seq<int>) returns (read: seq<int>)
    requires AreU32(ids)
    ensures read == ids
  {
    var file := WriteWords(ids, 4);
    WordsAreRows(ids, 4);
    var r := ReadIds(file);
    PowersOf256();
    WordsRoundTrip(ids, 4, r.value);
    read := r.value;
  }
}
