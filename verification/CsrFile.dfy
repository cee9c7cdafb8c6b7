/** The store the Rust engine writes after a build and opens before it is asked anything. */
module CsrFile {
  import opened Sets
  import opened EdgeList
  import opened Library
  import opened Csr
  import opened Options
  import opened Rows
  import opened Bytes

  const MAGIC: seq<int> := [0x4b, 0x47, 0x52, 0x46]
  const HEAD := 24

  datatype Store = Store(graph: Graph, undirected: bool)

  datatype OpenError = Short | NotOurs | TooLarge

  ghost predicate Below(vals: seq<int>, bound: int) {
    forall i :: 0 <= i < |vals| ==> 0 <= vals[i] < bound
  }

  /**
   Everything fits the words it is written in, there is one offset more than nodes, and the file has a size
   that can be counted.
   */
  ghost predicate Fits(g: Graph) {
    && SizeFor(|g.ids|, |g.target|) < TWO63 && |g.offset| == |g.ids| + 1
    && Below(g.ids, 0x1_0000_0000) && Below(g.offset, TWO64) && Below(g.target, 0x1_0000_0000)
  }

  function HeadOf(nodes: nat, edges: nat, undirected: bool): (bytes: seq<int>)
    ensures |bytes| == HEAD
  {
    MAGIC + LittleEndian(nodes, 8) + LittleEndian(edges, 8) + LittleEndian(if undirected then 1 else 0, 4)
  }

  ghost function BytesOf(s: Store): seq<int>
    requires Fits(s.graph)
  {
    HeadOf(|s.graph.ids|, |s.graph.target|, s.undirected)
      + Words(s.graph.ids, 4) + Words(s.graph.offset, 8) + Words(s.graph.target, 4)
  }

  method Write(s: Store) returns (file: seq<int>)
    requires Fits(s.graph)
    ensures file == BytesOf(s)
  {
    var ids := WriteWords(s.graph.ids, 4);
    var offset := WriteWords(s.graph.offset, 8);
    var target := WriteWords(s.graph.target, 4);
    file := HeadOf(|s.graph.ids|, |s.graph.target|, s.undirected) + ids + offset + target;
  }

  // ----- Opening

  function NodesIn(file: seq<int>): int
    requires |file| >= HEAD
  {
    Value(file[4..12])
  }

  function EdgesIn(file: seq<int>): int
    requires |file| >= HEAD
  {
    Value(file[12..20])
  }

  function SizeFor(nodes: int, edges: int): int {
    HEAD + 4 * nodes + 8 * (nodes + 1) + 4 * edges
  }

  /** What the size of a file has to be for the counts in its head. */
  ghost predicate HoldsItsCounts(file: seq<int>)
    requires |file| >= HEAD
  {
    |file| >= SizeFor(NodesIn(file), EdgesIn(file))
  }

  /** The bytes asked for to hold an array: the product is in 64-bit arithmetic, which wraps. */
  function Room(count: int, width: nat): nat {
    Uint64(count * width)
  }

  /** What is actually read: the three rooms one after another. */
  function SizeAsked(nodes: int, edges: int): nat {
    HEAD + Room(nodes, 4) + Room(Uint64(nodes + 1), 8) + Room(edges, 4)
  }

  ghost predicate Openable(file: seq<int>) {
    |file| >= HEAD && file[..4] == MAGIC && |file| >= SizeAsked(NodesIn(file), EdgesIn(file))
  }

  /** As many whole words as the room holds. */
  ghost predicate IsArray(vals: seq<int>, raw: seq<int>, width: nat) {
    IsFlat(raw, width, |vals|) && DecodesTo(vals, raw, width, |vals|)
  }

  /** The three arrays follow each other; anything behind them is not looked at. */
  ghost predicate Opened(file: seq<int>, s: Store) {
    && Openable(file)
    && var a := HEAD + Room(NodesIn(file), 4);
       var b := a + Room(Uint64(NodesIn(file) + 1), 8);
       var c := b + Room(EdgesIn(file), 4);
       && IsArray(s.graph.ids, file[HEAD..a], 4) && IsArray(s.graph.offset, file[a..b], 8)
       && IsArray(s.graph.target, file[b..c], 4)
       && (s.undirected <==> Value(file[20..24]) != 0)
  }

  lemma RoomIsWhole(count: int, width: nat)
    requires width == 4 || width == 8
    ensures Room(count, width) % width == 0
  {
    var asked := count * width;
    var q := asked / TWO64;
    assert Room(count, width) == asked - TWO64 * q;
    if width == 4 {
      FourTimes(count - EDGES_WRAP * q);
    } else {
      EightTimes(count - NODES_WRAP * q);
    }
  }

  lemma FourTimes(n: int)
    ensures (4 * n) % 4 == 0
  {
  }

  lemma EightTimes(n: int)
    ensures (8 * n) % 8 == 0
  {
  }

  /** Makes a buffer, fills it and takes it apart. No buffer can be larger than half the address space. */
  method ReadArray(file: seq<int>, at: nat, count: int, width: nat) returns (r: Result<seq<int>, OpenError>)
    requires at <= |file| < TWO63 && (width == 4 || width == 8)
    ensures r.Ok? <==> at + Room(count, width) <= |file|
    ensures r.Ok? ==> IsArray(r.value, file[at..at + Room(count, width)], width)
    ensures r.Err? ==> r == Err(if Room(count, width) >= TWO63 then TooLarge else Short)
  {
    hide Value;
    RoomIsWhole(count, width);
    var room := Room(count, width);
    if room >= TWO63 {
      return Err(TooLarge);
    }
    if |file| - at < room {
      return Err(Short);
    }
    var vals := ReadWords(file[at..at + room], width, room / width);
    return Ok(vals);
  }

  method Open(file: seq<int>) returns (r: Result<Store, OpenError>)
    requires |file| < TWO63
    ensures r.Ok? <==> Openable(file)
    ensures r.Ok? ==> Opened(file, r.value)
    ensures r == Err(NotOurs) <==> |file| >= 4 && file[..4] != MAGIC
  {
    hide Value, IsArray, Room;
    if |file| < 4 {
      return Err(Short);
    }
    if file[..4] != MAGIC {
      return Err(NotOurs);
    }
    if |file| < HEAD {
      return Err(Short);
    }
    var nodes, edges := NodesIn(file), EdgesIn(file);
    var ids := ReadArray(file, HEAD, nodes, 4);
    if ids.Err? {
      return Err(ids.error);
    }
    var a := HEAD + Room(nodes, 4);
    var offset := ReadArray(file, a, Uint64(nodes + 1), 8);
    if offset.Err? {
      return Err(offset.error);
    }
    var b := a + Room(Uint64(nodes + 1), 8);
    var target := ReadArray(file, b, edges, 4);
    if target.Err? {
      return Err(target.error);
    }
    return Ok(Store(Graph(ids.value, offset.value, target.value), Value(file[20..24]) != 0));
  }

  // ----- What accepting a file is worth

  /** The first node count, one more counted in, whose offsets come to two to the 64 bytes. */
  const NODES_WRAP := 0x2000_0000_0000_0000

  /** The first edge count whose targets come to two to the 64 bytes. */
  const EDGES_WRAP := 0x4000_0000_0000_0000

  lemma RoomBelow(count: nat)
    ensures Room(count, 4) <= 4 * count && (count < EDGES_WRAP ==> Room(count, 4) == 4 * count)
    ensures Room(Uint64(count), 8) <= 8 * count && (count < NODES_WRAP ==> Room(Uint64(count), 8) == 8 * count)
  {
  }

  lemma CountsNotNegative(file: seq<int>)
    requires AreBytes(file) && |file| >= HEAD
    ensures NodesIn(file) >= 0 && EdgesIn(file) >= 0
  {
    ValueInRange(file[4..12]);
    ValueInRange(file[12..20]);
  }

  /** Opening tells a whole store from a short one exactly unless a count wraps and the file has what is left of it. */
  lemma OpeningMeansSize(file: seq<int>)
    requires AreBytes(file) && HEAD <= |file| < TWO63 && file[..4] == MAGIC
    ensures var n, m := NodesIn(file), EdgesIn(file);
            (Openable(file) <==> HoldsItsCounts(file))
            <==> (n + 1 < NODES_WRAP && m < EDGES_WRAP) || |file| < SizeAsked(n, m)
  {
    hide Value, Room, NodesIn, EdgesIn;
    var n, m := NodesIn(file), EdgesIn(file);
    CountsNotNegative(file);
    RoomBelow(n);
    RoomBelow(n + 1);
    RoomBelow(m);
  }

  /** Two to the 62 nodes in a file of 32 bytes: opened, as a graph without nodes. */
  lemma OpeningWraps(file: seq<int>, last: nat, s: Store)
    requires last < TWO64
    requires file == MAGIC + LittleEndian(EDGES_WRAP, 8) + LittleEndian(0, 8) + LittleEndian(0, 4)
                       + LittleEndian(last, 8)
    ensures |file| == 32 && NodesIn(file) == EDGES_WRAP && !HoldsItsCounts(file) && Openable(file)
    ensures Opened(file, s) ==> s == Store(Graph([], [last], []), false)
  {
    hide Value, LittleEndian, Pow256;
    PowersOf256();
    ValueOfLittleEndian(EDGES_WRAP, 8);
    ValueOfLittleEndian(0, 8);
    ValueOfLittleEndian(0, 4);
    ValueOfLittleEndian(last, 8);
    assert file[..4] == MAGIC && file[4..12] == LittleEndian(EDGES_WRAP, 8);
    assert file[12..20] == LittleEndian(0, 8) && file[20..24] == LittleEndian(0, 4);
    if Opened(file, s) {
      var words := file[24..32];
      assert words == LittleEndian(last, 8);
      assert IsFlat(words, 8, 1) && RowOf(words, 8, 1, 0) == words;
      assert s.graph.offset == [last];
    }
  }

  // ----- What is written is what is opened

  lemma HeadFields(s: Store, rest: seq<int>)
    requires Fits(s.graph)
    ensures var file := HeadOf(|s.graph.ids|, |s.graph.target|, s.undirected) + rest;
            && file[..4] == MAGIC && NodesIn(file) == |s.graph.ids| && EdgesIn(file) == |s.graph.target|
            && (Value(file[20..24]) != 0 <==> s.undirected)
  {
    hide Value, Pow256, LittleEndian;
    var flag := if s.undirected then 1 else 0;
    var file := HeadOf(|s.graph.ids|, |s.graph.target|, s.undirected) + rest;
    PowersOf256();
    ValueOfLittleEndian(|s.graph.ids|, 8);
    ValueOfLittleEndian(|s.graph.target|, 8);
    ValueOfLittleEndian(flag, 4);
    assert file[4..12] == LittleEndian(|s.graph.ids|, 8);
    assert file[12..20] == LittleEndian(|s.graph.target|, 8);
    assert file[20..24] == LittleEndian(flag, 4);
  }

  lemma BodySizes(s: Store)
    requires Fits(s.graph)
    ensures |Words(s.graph.ids, 4)| == 4 * |s.graph.ids|
    ensures |Words(s.graph.offset, 8)| == 8 * (|s.graph.ids| + 1)
    ensures |Words(s.graph.target, 4)| == 4 * |s.graph.target|
  {
    WordsAreRows(s.graph.ids, 4);
    WordsAreRows(s.graph.offset, 8);
    WordsAreRows(s.graph.target, 4);
  }

  /** The bytes at a position are a value of that width. */
  ghost predicate StoredAt(file: seq<int>, at: nat, v: int, width: nat) {
    v >= 0 && at + width <= |file| && file[at..at + width] == LittleEndian(v, width)
  }

  lemma StoredInMiddle(head: seq<int>, vals: seq<int>, width: nat, rest: seq<int>)
    requires forall i :: 0 <= i < |vals| ==> vals[i] >= 0
    ensures |Words(vals, width)| == |vals| * width
    ensures forall i :: 0 <= i < |vals| ==>
              StoredAt(head + Words(vals, width) + rest, |head| + i * width, vals[i], width)
  {
    hide LittleEndian, Words;
    WordsAreRows(vals, width);
    var file := head + Words(vals, width) + rest;
    forall i | 0 <= i < |vals|
      ensures StoredAt(file, |head| + i * width, vals[i], width)
    {
      WordAt(vals, width, i);
      assert file[|head| + i * width..|head| + i * width + width] == Words(vals, width)[i * width..i * width + width];
    }
  }

  /** Where everything is in a written store: the letters KGRF, two counts, the flag and the three arrays. */
  lemma StoreLayout(s: Store)
    requires Fits(s.graph)
    ensures var file, n, m := BytesOf(s), |s.graph.ids|, |s.graph.target|;
            && |file| == 24 + n * 4 + (n + 1) * 8 + m * 4
            && file[..4] == [0x4b, 0x47, 0x52, 0x46]
            && StoredAt(file, 4, n, 8) && StoredAt(file, 12, m, 8)
            && StoredAt(file, 20, if s.undirected then 1 else 0, 4)
            && (forall i :: 0 <= i < n ==> StoredAt(file, 24 + i * 4, s.graph.ids[i], 4))
            && (forall i :: 0 <= i <= n ==> StoredAt(file, 24 + n * 4 + i * 8, s.graph.offset[i], 8))
            && forall i :: 0 <= i < m ==> StoredAt(file, 24 + n * 4 + (n + 1) * 8 + i * 4, s.graph.target[i], 4)
  {
    hide LittleEndian, Words, StoredAt;
    var g := s.graph;
    var head := HeadOf(|g.ids|, |g.target|, s.undirected);
    var ids, offset, target := Words(g.ids, 4), Words(g.offset, 8), Words(g.target, 4);
    BodySizes(s);
    StoredInMiddle(head, g.ids, 4, offset + target);
    StoredInMiddle(head + ids, g.offset, 8, target);
    StoredInMiddle(head + ids + offset, g.target, 4, []);
    assert BytesOf(s) == head + ids + (offset + target) == head + ids + offset + target;
    assert BytesOf(s) == head + ids + offset + target + [];
    HeadIsStored(s, ids + offset + target);
    assert BytesOf(s) == head + (ids + offset + target);
  }

  lemma HeadIsStored(s: Store, rest: seq<int>)
    requires Fits(s.graph)
    ensures var file := HeadOf(|s.graph.ids|, |s.graph.target|, s.undirected) + rest;
            && file[..4] == [0x4b, 0x47, 0x52, 0x46] && StoredAt(file, 4, |s.graph.ids|, 8)
            && StoredAt(file, 12, |s.graph.target|, 8) && StoredAt(file, 20, if s.undirected then 1 else 0, 4)
  {
    hide LittleEndian;
    var file := HeadOf(|s.graph.ids|, |s.graph.target|, s.undirected) + rest;
    assert file[4..12] == LittleEndian(|s.graph.ids|, 8) && file[12..20] == LittleEndian(|s.graph.target|, 8);
    assert file[20..24] == LittleEndian(if s.undirected then 1 else 0, 4);
  }

  lemma NothingWraps(s: Store)
    requires Fits(s.graph)
    ensures Room(|s.graph.ids|, 4) == 4 * |s.graph.ids| && Room(|s.graph.target|, 4) == 4 * |s.graph.target|
    ensures Room(Uint64(|s.graph.ids| + 1), 8) == 8 * (|s.graph.ids| + 1)
  {
    RoomBelow(|s.graph.ids|);
    RoomBelow(|s.graph.ids| + 1);
    RoomBelow(|s.graph.target|);
  }

  /** A store opens as the graph that was written, whatever follows it in the file. */
  lemma WrittenIsOpened(s: Store, rest: seq<int>, opened_: Store)
    requires Fits(s.graph) && Opened(BytesOf(s) + rest, opened_)
    ensures opened_ == s
  {
    hide Value, Pow256, LittleEndian, Words, HeadOf, NodesIn, EdgesIn, DecodesTo, Room;
    var g := s.graph;
    var ids, offset, target := Words(g.ids, 4), Words(g.offset, 8), Words(g.target, 4);
    var file := BytesOf(s) + rest;
    BodySizes(s);
    NothingWraps(s);
    HeadFields(s, ids + offset + target + rest);
    assert file == HeadOf(|g.ids|, |g.target|, s.undirected) + (ids + offset + target + rest);
    var a, b, c := HEAD + 4 * |g.ids|, HEAD + 4 * |g.ids| + 8 * (|g.ids| + 1), SizeFor(|g.ids|, |g.target|);
    assert file[HEAD..a] == ids && file[a..b] == offset && file[b..c] == target;
    PowersOf256();
    WordsRoundTrip(g.ids, 4, opened_.graph.ids);
    WordsRoundTrip(g.offset, 8, opened_.graph.offset);
    WordsRoundTrip(g.target, 4, opened_.graph.target);
  }

  /** A store cut short anywhere is refused. */
  lemma CutStoreIsRefused(s: Store, n: nat)
    requires Fits(s.graph) && n < |BytesOf(s)|
    ensures !Openable(BytesOf(s)[..n])
  {
    hide Value, Pow256, LittleEndian, Words, HeadOf, NodesIn, EdgesIn, Room;
    var body := Words(s.graph.ids, 4) + Words(s.graph.offset, 8) + Words(s.graph.target, 4);
    var head := HeadOf(|s.graph.ids|, |s.graph.target|, s.undirected);
    BodySizes(s);
    assert BytesOf(s) == head + body;
    NothingWraps(s);
    if n >= HEAD {
      assert BytesOf(s)[..n] == head + body[..n - HEAD];
      HeadFields(s, body[..n - HEAD]);
    }
  }

  /** Every graph the build produces fits the file. */
  lemma BuiltFits(g: Graph, edges: seq<u32>)
    requires |edges| % 2 == 0 && 4 * |edges| < TWO63 && IsCsr(g, Pairs(edges))
    ensures Fits(g)
  {
    var es := Pairs(edges);
    NodesOfPairs(edges);
    IsCsrWellFormed(g, es);
    forall i | 0 <= i < |g.ids|
      ensures 0 <= g.ids[i] < 0x1_0000_0000
    {
      assert g.ids[i] in Elems(g.ids);
    }
    IncreasingBelow(g.ids, 0x1_0000_0000);
    EdgeEndsAreIds(es, g.ids);
    StartTotal(es, g.ids);
    forall i | 0 <= i < |g.offset|
      ensures 0 <= g.offset[i] < TWO64
    {
      StartMonotone(es, g.ids, i, |g.ids|);
    }
  }

  /** There are no more increasing values than there is room below the bound. */
  lemma {:induction false} IncreasingBelow(ids: seq<int>, bound: int)
    requires Increasing(ids) && bound >= 0 && Below(ids, bound)
    ensures |ids| <= bound
    decreases |ids|
  {
    if ids != [] {
      IncreasingBelow(ids[..|ids| - 1], ids[|ids| - 1]);
    }
  }

  /** Build, write, open in another process: the same graph, still the edge list's. */
  method Reopened(g: Graph, undirected: bool, edges: seq<u32>) returns (s: Store)
    requires |edges| % 2 == 0 && 4 * |edges| < TWO63 && IsCsr(g, Pairs(edges))
    ensures s == Store(g, undirected) && IsCsr(s.graph, Pairs(edges))
  {
    hide IsCsr, Opened, Openable;
    BuiltFits(g, edges);
    var file := Write(Store(g, undirected));
    StoreIsOpenable(Store(g, undirected));
    var r := Open(file);
    assert file + [] == file;
    WrittenIsOpened(Store(g, undirected), [], r.value);
    s := r.value;
  }

  lemma StoreIsOpenable(s: Store)
    requires Fits(s.graph)
    ensures Openable(BytesOf(s)) && |BytesOf(s)| < TWO63
  {
    hide Value, Pow256, LittleEndian, Words, NodesIn, EdgesIn, Room;
    NothingWraps(s);
    var g := s.graph;
    var body := Words(g.ids, 4) + Words(g.offset, 8) + Words(g.target, 4);
    BodySizes(s);
    HeadFields(s, body);
    assert BytesOf(s) == HeadOf(|g.ids|, |g.target|, s.undirected) + body;
  }
}
