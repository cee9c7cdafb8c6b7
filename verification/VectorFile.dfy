/** Integer vector files: records of a dimension and that many values, and nothing else. */
module VectorFile {
  import opened Options
  import opened Products
  import opened Rows
  import opened Bytes

  datatype FileError = NotWholeRows | Short | NotAVectorFile | Truncated | WrongDimension

  datatype Shape = Shape(dim: nat, count: nat, bytes: nat)

  const WIDEST := 0x10_0000

  ghost predicate AreInt32(vals: seq<int>) {
    forall i :: 0 <= i < |vals| ==> -0x8000_0000 <= vals[i] < 0x8000_0000
  }

  function Encoded(row: seq<int>): (vals: seq<int>)
    ensures |vals| == |row| && forall i :: 0 <= i < |vals| ==> 0 <= vals[i] < 0x1_0000_0000
  {
    seq(|row|, i requires 0 <= i < |row| => Uint32(row[i]))
  }

  /** One record: four bytes of dimension, four for each value. */
  ghost function Record(row: seq<int>): seq<int> {
    LittleEndian(Uint32(|row|), 4) + Words(Encoded(row), 4)
  }

  lemma RecordSize(row: seq<int>)
    ensures |Record(row)| == 4 + 4 * |row|
  {
    WordsAreRows(Encoded(row), 4);
  }

  /** The first `n` rows of the data, written one after another. */
  ghost function Written(data: seq<int>, dim: nat, count: nat, n: nat): seq<int>
    requires IsFlat(data, dim, count) && n <= count
  {
    if n == 0 then [] else Written(data, dim, count, n - 1) + Record(RowOf(data, dim, count, n - 1))
  }

  function RecordAt(file: seq<int>, dim: nat, count: nat, q: nat): (record: seq<int>)
    requires IsFlat(file, 4 + 4 * dim, count) && q < count
    ensures |record| == 4 + 4 * dim
  {
    RowFits(4 + 4 * dim, count, q);
    RowOf(file, 4 + 4 * dim, count, q)
  }

  lemma {:induction false} WrittenRecords(data: seq<int>, dim: nat, count: nat, n: nat)
    requires IsFlat(data, dim, count) && n <= count
    ensures var file := Written(data, dim, count, n);
            && IsFlat(file, 4 + 4 * dim, n)
            && forall i :: 0 <= i < n ==> RecordAt(file, dim, n, i) == Record(RowOf(data, dim, count, i))
  {
    hide RowOf, Record;
    if n > 0 {
      WrittenRecords(data, dim, count, n - 1);
      RecordSize(RowOf(data, dim, count, n - 1));
      RowAppended(Written(data, dim, count, n - 1), 4 + 4 * dim, n - 1, Record(RowOf(data, dim, count, n - 1)));
    }
  }

  method WriteIvecs(dim: int, data: seq<int>) returns (r: Result<seq<int>, FileError>)
    ensures r.Ok? <==> dim > 0 && |data| % dim == 0
    ensures r.Ok? ==> IsFlat(data, dim, |data| / dim) && r.value == Written(data, dim, |data| / dim, |data| / dim)
  {
    hide LittleEndian, Words, Encoded, RowOf;
    if dim <= 0 || |data| % dim != 0 {
      return Err(NotWholeRows);
    }
    var count := |data| / dim;
    var file: seq<int> := [];
    for q := 0 to count
      invariant file == Written(data, dim, count, q)
    {
      var row := RowOf(data, dim, count, q);
      var body := WriteWords(Encoded(row), 4);
      file := file + (LittleEndian(Uint32(|row|), 4) + body);
    }
    return Ok(file);
  }

  /** The shape comes from the first record and the size of the file. */
  function ReadShape(file: seq<int>): (r: Result<Shape, FileError>) {
    if |file| < 4 then Err(Short)
    else
      var dim := Int32(Value(file[..4]));
      if dim <= 0 || dim > WIDEST then Err(NotAVectorFile)
      else if |file| % (4 + dim * 4) != 0 then Err(Truncated)
      else Ok(Shape(dim, |file| / (4 + dim * 4), |file|))
  }

  lemma ShapeIsFlat(file: seq<int>)
    requires ReadShape(file).Ok?
    ensures var s := ReadShape(file).value; IsFlat(file, 4 + 4 * s.dim, s.count)
  {
  }

  /** The values of one record, dropping its header. */
  ghost predicate RowRead(row: seq<int>, record: seq<int>, dim: nat)
    requires |record| == 4 + 4 * dim
  {
    |row| == dim && forall j :: 0 <= j < dim ==> row[j] == Int32(Value(record[4 + 4 * j..8 + 4 * j]))
  }

  method ReadRecord(record: seq<int>, dim: nat) returns (row: seq<int>)
    requires |record| == 4 + 4 * dim
    ensures RowRead(row, record, dim)
  {
    row := [];
    for j := 0 to dim
      invariant |row| == j && forall k :: 0 <= k < j ==> row[k] == Int32(Value(record[4 + 4 * k..8 + 4 * k]))
    {
      row := row + [Int32(Value(record[4 + 4 * j..8 + 4 * j]))];
    }
  }

  ghost predicate HeaderIs(record: seq<int>, dim: nat)
    requires |record| >= 4
  {
    Int32(Value(record[..4])) == dim
  }

  /** A limit above zero stops after that many records; Go has no limit, which is a limit of zero. */
  function Limited(count: nat, limit: nat): (n: nat)
    ensures limit == 0 || count <= limit ==> n == count
    ensures 0 < limit < count ==> n == limit
  {
    if 0 < limit < count then limit else count
  }

  /** Go trusts every header after the first; Rust compares each it reads with the first. */
  method ReadIvecs(file: seq<int>, everyHeader: bool, limit: nat) returns (r: Result<(Shape, seq<int>), FileError>)
    ensures ReadShape(file).Err? ==> r == Err(ReadShape(file).error)
    ensures ReadShape(file).Ok? ==>
              var s := ReadShape(file).value;
              var n := Limited(s.count, limit);
              && IsFlat(file, 4 + 4 * s.dim, s.count)
              && (r.Ok? <==> (everyHeader ==>
                    forall q :: 0 <= q < n ==> HeaderIs(RecordAt(file, s.dim, s.count, q), s.dim)))
              && (r.Err? ==> r == Err(WrongDimension))
              && (r.Ok? ==> r.value.0 == s.(count := n) && IsFlat(r.value.1, s.dim, n))
              && (r.Ok? ==>
                    forall q :: 0 <= q < n ==>
                      RowRead(RowOf(r.value.1, s.dim, n, q), RecordAt(file, s.dim, s.count, q), s.dim))
  {
    hide RowOf, RowRead, HeaderIs;
    var shape := ReadShape(file);
    if shape.Err? {
      return Err(shape.error);
    }
    ShapeIsFlat(file);
    var s := shape.value;
    var n := Limited(s.count, limit);
    var data: seq<int> := [];
    for q := 0 to n
      invariant IsFlat(data, s.dim, q)
      invariant everyHeader ==> forall p :: 0 <= p < q ==> HeaderIs(RecordAt(file, s.dim, s.count, p), s.dim)
      invariant forall p :: 0 <= p < q ==>
                  RowRead(RowOf(data, s.dim, q, p), RecordAt(file, s.dim, s.count, p), s.dim)
    {
      var record := RecordAt(file, s.dim, s.count, q);
      var matches := SameHeader(record, s.dim);
      if everyHeader && !matches {
        return Err(WrongDimension);
      }
      var row := ReadRecord(record, s.dim);
      assert |row| == s.dim by { RowReadSize(row, record, s.dim); }
      RowAppended(data, s.dim, q, row);
      data := data + row;
    }
    return Ok((s.(count := n), data));
  }

  lemma RowReadSize(row: seq<int>, record: seq<int>, dim: nat)
    requires |record| == 4 + 4 * dim && RowRead(row, record, dim)
    ensures |row| == dim
  {
  }

  method SameHeader(record: seq<int>, dim: nat) returns (same: bool)
    requires |record| >= 4
    ensures same <==> HeaderIs(record, dim)
  {
    same := Int32(Value(record[..4])) == dim;
  }

  // ----- Round trip

  lemma Int32OfUint32(v: int)
    requires -0x8000_0000 <= v < 0x8000_0000
    ensures Int32(Uint32(v)) == v
  {
  }

  lemma RecordReads(row: seq<int>, read: seq<int>)
    requires AreInt32(row) && 0 < |row| <= WIDEST
    ensures |Record(row)| == 4 + 4 * |row| && HeaderIs(Record(row), |row|)
    ensures RowRead(read, Record(row), |row|) ==> read == row
  {
    hide LittleEndian, Value, Words, Pow256;
    var record, vals := Record(row), Encoded(row);
    RecordSize(row);
    PowersOf256();
    ValueOfLittleEndian(Uint32(|row|), 4);
    Int32OfUint32(|row|);
    assert record[..4] == LittleEndian(Uint32(|row|), 4);
    WordsAreRows(vals, 4);
    if RowRead(read, record, |row|) {
      forall j | 0 <= j < |row|
        ensures read[j] == row[j]
      {
        assert RowOf(Words(vals, 4), 4, |vals|, j) == LittleEndian(vals[j], 4);
        assert record[4 + 4 * j..8 + 4 * j] == RowOf(Words(vals, 4), 4, |vals|, j);
        ValueOfLittleEndian(vals[j], 4);
        Int32OfUint32(row[j]);
      }
    }
  }

  lemma WrittenShape(data: seq<int>, dim: nat, count: nat)
    requires IsFlat(data, dim, count) && 0 < dim
    ensures var file := Written(data, dim, count, count);
            && (count == 0 ==> ReadShape(file) == Err(Short))
            && (count > 0 && dim <= WIDEST ==> ReadShape(file) == Ok(Shape(dim, count, |file|)))
            && (count > 0 && WIDEST < dim < 0x8000_0000 ==> ReadShape(file) == Err(NotAVectorFile))
  {
    hide LittleEndian, Value, Words, Pow256;
    var file := Written(data, dim, count, count);
    WrittenRecords(data, dim, count, count);
    if count > 0 && dim < 0x8000_0000 {
      var record := RecordAt(file, dim, count, 0);
      assert record == Record(RowOf(data, dim, count, 0));
      RowFits(4 + 4 * dim, count, 0);
      assert file[..4] == record[..4] == LittleEndian(Uint32(dim), 4);
      PowersOf256();
      ValueOfLittleEndian(Uint32(dim), 4);
      Int32OfUint32(dim);
      DivideBack(4 + dim * 4, count);
    }
  }

  /** No reader takes a shape from the records of a row wider than the widest. */
  lemma WideShape(file: seq<int>, dim: nat)
    requires dim > WIDEST && ReadShape(file).Ok?
    ensures ReadShape(file).value.dim != dim
  {
  }

  /** Everything, or with a limit the rows up to it. */
  ghost predicate ReadsBack(r: Result<(Shape, seq<int>), FileError>, dim: nat, data: seq<int>, limit: nat)
    requires dim > 0 && |data| % dim == 0
  {
    && r.Ok? && r.value.0.dim == dim
    && (limit == 0 || |data| / dim <= limit ==> r.value.0.count == |data| / dim && r.value.1 == data)
    && (0 < limit < |data| / dim ==>
          r.value.0.count == limit && limit * dim <= |data| && r.value.1 == data[..limit * dim])
  }

  lemma AsFarAsLimited(r: Result<(Shape, seq<int>), FileError>, dim: nat, data: seq<int>, limit: nat)
    requires dim > 0 && |data| % dim == 0 && r.Ok? && r.value.0.dim == dim
    requires var n := Limited(|data| / dim, limit);
             r.value.0.count == n && n * dim <= |data| && r.value.1 == data[..n * dim]
    ensures ReadsBack(r, dim, data, limit)
  {
    var count := |data| / dim;
    assert count * dim == |data|;
    assert data[..|data|] == data;
  }

  /**
   Rows the writer accepts read back exactly, in both languages, if and only if there are any and they are
   no wider than a reader believes.
   */
  method IvecsRoundTrip(dim: int, data: seq<int>, everyHeader: bool, limit: nat)
    returns (r: Result<(Shape, seq<int>), FileError>)
    requires dim > 0 && |data| % dim == 0 && AreInt32(data)
    ensures ReadsBack(r, dim, data, limit) <==> data != [] && dim <= 0x10_0000
    ensures data == [] ==> r == Err(Short)
    ensures data != [] && 0x10_0000 < dim < 0x8000_0000 ==> r == Err(NotAVectorFile)
  {
    hide Written, Record, ReadShape, Limited, RowOf, RecordAt;
    var written := WriteIvecs(dim, data);
    var file, count := written.value, |data| / dim;
    WrittenRecords(data, dim, count, count);
    WrittenShape(data, dim, count);
    r := ReadIvecs(file, everyHeader, limit);
    if dim <= WIDEST {
      HeadersWritten(data, dim, count, file);
      if r.Ok? {
        FirstRowsRead(data, dim, count, Limited(count, limit), file, r.value.1);
        AsFarAsLimited(r, dim, data, limit);
      }
    } else if r.Ok? {
      WideShape(file, dim);
    }
  }

  /** The narrowest row that is written and then refused. */
  lemma WideRowIsRefused(data: seq<int>)
    requires |data| == 0x10_0001
    ensures IsFlat(data, 0x10_0001, 1) && ReadShape(Written(data, 0x10_0001, 1, 1)) == Err(NotAVectorFile)
  {
    hide Written, ReadShape;
    WrittenShape(data, WIDEST + 1, 1);
  }

  /** Where everything is in a written file: every row behind its dimension, every value in its four bytes. */
  lemma FileLayout(data: seq<int>, dim: nat, count: nat, q: nat)
    requires IsFlat(data, dim, count) && q < count
    ensures IsFlat(Written(data, dim, count, count), 4 + 4 * dim, count) && 0 <= q * dim <= q * dim + dim <= |data|
    ensures var record, row := RecordAt(Written(data, dim, count, count), dim, count, q), data[q * dim..q * dim + dim];
            && record[..4] == LittleEndian(Uint32(dim), 4)
            && forall j :: 0 <= j < dim ==> ValueStored(record, j, row[j])
  {
    hide Written, Record, ValueStored;
    WrittenRecords(data, dim, count, count);
    RowFits(dim, count, q);
    assert (q + 1) * dim == q * dim + dim;
    var row := RowOf(data, dim, count, q);
    assert row == data[q * dim..q * dim + dim];
    RecordLayout(row);
    assert RecordAt(Written(data, dim, count, count), dim, count, q) == Record(row);
  }

  lemma RecordLayout(row: seq<int>)
    ensures |Record(row)| == 4 + 4 * |row| && Record(row)[..4] == LittleEndian(Uint32(|row|), 4)
    ensures forall j :: 0 <= j < |row| ==> ValueStored(Record(row), j, row[j])
  {
    hide LittleEndian, Words;
    var record, vals := Record(row), Encoded(row);
    RecordSize(row);
    forall j | 0 <= j < |row|
      ensures ValueStored(record, j, row[j])
    {
      WordAt(vals, 4, j);
      assert record[4 + 4 * j..8 + 4 * j] == Words(vals, 4)[j * 4..j * 4 + 4];
    }
  }

  ghost predicate ValueStored(record: seq<int>, j: nat, v: int) {
    8 + 4 * j <= |record| && record[4 + 4 * j..8 + 4 * j] == LittleEndian(Uint32(v), 4)
  }

  lemma RowsAreInt32(data: seq<int>, dim: nat, count: nat, q: nat)
    requires IsFlat(data, dim, count) && q < count && AreInt32(data)
    ensures AreInt32(RowOf(data, dim, count, q))
  {
    RowFits(dim, count, q);
  }

  lemma HeadersWritten(data: seq<int>, dim: nat, count: nat, file: seq<int>)
    requires IsFlat(data, dim, count) && 0 < dim <= WIDEST && AreInt32(data) && IsFlat(file, 4 + 4 * dim, count)
    requires forall q :: 0 <= q < count ==> RecordAt(file, dim, count, q) == Record(RowOf(data, dim, count, q))
    ensures forall q :: 0 <= q < count ==> HeaderIs(RecordAt(file, dim, count, q), dim)
  {
    hide Record, HeaderIs, RowOf;
    forall q | 0 <= q < count
      ensures HeaderIs(RecordAt(file, dim, count, q), dim)
    {
      RowsAreInt32(data, dim, count, q);
      RecordReads(RowOf(data, dim, count, q), []);
    }
  }

  lemma FirstRowsRead(data: seq<int>, dim: nat, count: nat, n: nat, file: seq<int>, read: seq<int>)
    requires IsFlat(data, dim, count) && 0 < dim <= WIDEST && AreInt32(data) && n <= count
    requires IsFlat(file, 4 + 4 * dim, count) && IsFlat(read, dim, n)
    requires forall q :: 0 <= q < count ==> RecordAt(file, dim, count, q) == Record(RowOf(data, dim, count, q))
    requires forall q :: 0 <= q < n ==> RowRead(RowOf(read, dim, n, q), RecordAt(file, dim, count, q), dim)
    ensures n * dim <= |data| && read == data[..n * dim]
  {
    TimesMonotone(dim, n, count);
    var first := data[..n * dim];
    forall q | 0 <= q < n
      ensures RowOf(read, dim, n, q) == RowOf(first, dim, n, q)
    {
      FirstRow(data, dim, count, n, q);
      hide Record, RowRead, RowOf;
      RowsAreInt32(data, dim, count, q);
      RecordReads(RowOf(data, dim, count, q), RowOf(read, dim, n, q));
    }
    RowsDetermine(read, first, dim, n);
  }

  lemma FirstRow(data: seq<int>, dim: nat, count: nat, n: nat, q: nat)
    requires IsFlat(data, dim, count) && q < n <= count && n * dim <= |data|
    ensures IsFlat(data[..n * dim], dim, n) && RowOf(data[..n * dim], dim, n, q) == RowOf(data, dim, count, q)
  {
    RowFits(dim, n, q);
  }
}
