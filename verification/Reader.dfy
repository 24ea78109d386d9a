/** Reading one day's data file, through its index or as a whole. */
module Reader {
  import opened Bytes
  import opened Points
  import opened IndexFile
  import opened Blocks

  // ----- the point parsing loop

  /** parsePoints and parseLegacyFormat, which share one body. */
  method ParsePoints(d: seq<byte>, s: int64, e: int64) returns (points: seq<Point>)
    ensures points == Within(ParseAll(Little, d), s, e)
  {
    hide Get, Put, ReadValues, ParseAll, Within;
    points := [];
    var offset := 0;
    assert d[0..] == d;
    while offset + 10 <= |d|
      invariant 0 <= offset <= |d|
      invariant Within(ParseAll(Little, d), s, e) == points + Within(ParseAll(Little, d[offset..]), s, e)
      decreases |d| - offset
    {
      var n: nat := Get16(Little, d[offset + 8..offset + 10]);
      ParseStep(d, offset, s, e);
      if offset + 10 + 4 * n > |d| {
        break;
      }
      var ts := I64(Get64(Little, d[offset..offset + 8]));
      var values := ReadRow(d, offset + 10, Little, n);
      if ts >= s && ts <= e {
        points := points + [Point(ts, values)];
      }
      offset := offset + 10 + 4 * n;
    }
    if |d| - offset < 10 {
      NoRecord(Little, d[offset..]);
    }
    NothingWithin(s, e);
  }

  lemma NothingWithin(s: int64, e: int64)
    ensures Within([], s, e) == []
  {
  }

  lemma ParseStep(d: seq<byte>, at: nat, s: int64, e: int64)
    requires at + 10 <= |d|
    ensures var n := Get16(Little, d[at + 8..at + 10]); var size := 10 + 4 * n;
      if at + size > |d| then ParseAll(Little, d[at..]) == []
      else
        var p := Point(I64(Get64(Little, d[at..at + 8])), ReadValues(Little, d[at + 10..], n));
        Within(ParseAll(Little, d[at..]), s, e)
        == (if InWindow(p, s, e) then [p] else []) + Within(ParseAll(Little, d[at + size..]), s, e)
  {
    hide Get, Put, ReadValues;
    var t := d[at..];
    var n: nat := Get16(Little, d[at + 8..at + 10]);
    assert t[8..10] == d[at + 8..at + 10] && t[..8] == d[at..at + 8] && t[10..] == d[at + 10..];
    if at + 10 + 4 * n <= |d| {
      assert t[10 + 4 * n..] == d[at + 10 + 4 * n..];
    }
  }

  // ----- the binary search

  /** The times that an index entry states for its block. */
  datatype Bounds = Bounds(start: int64, end: int64)

  function BoundsOf(xs: seq<IndexEntry>): (bs: seq<Bounds>)
    ensures |bs| == |xs|
    ensures forall i :: 0 <= i < |xs| ==> bs[i] == Bounds(xs[i].start, xs[i].end)
  {
    seq(|xs|, i requires 0 <= i < |xs| => Bounds(xs[i].start, xs[i].end))
  }

  /** From mid back over all neighbours that end at t or later. */
  function WalkBack(bs: seq<Bounds>, t: int64, mid: nat): (r: nat)
    requires mid < |bs|
    ensures r <= mid
    ensures forall i :: r <= i < mid ==> bs[i].end >= t
    ensures r > 0 ==> bs[r - 1].end < t
  {
    if mid > 0 && bs[mid - 1].end >= t then WalkBack(bs, t, mid - 1) else mid
  }

  /** Where the search ends from `left` and `right` on. */
  function Search(bs: seq<Bounds>, t: int64, left: int, right: int): (r: nat)
    requires 0 <= left <= right + 1 <= |bs|
    ensures r <= right + 1
    decreases right - left
  {
    if left > right then left
    else
      var mid := (left + right) / 2;
      if bs[mid].end < t then Search(bs, t, mid + 1, right)
      else if bs[mid].start > t then Search(bs, t, left, mid - 1)
      else WalkBack(bs, t, mid)
  }

  /** The entry that a query from t on starts with. */
  function Found(bs: seq<Bounds>, t: int64): (r: nat)
    ensures r <= |bs|
  {
    Search(bs, t, 0, |bs| - 1)
  }

  /** r separates an entry that ends before t from one that does not. */
  predicate Crossing(bs: seq<Bounds>, t: int64, r: nat) {
    && r <= |bs|
    && (r > 0 ==> bs[r - 1].end < t)
    && (r < |bs| ==> bs[r].end >= t)
  }

  lemma {:induction false} SearchCrosses(bs: seq<Bounds>, t: int64, left: int, right: int)
    requires 0 <= left <= right + 1 <= |bs|
    requires left > 0 ==> bs[left - 1].end < t
    requires right + 1 < |bs| ==> bs[right + 1].end >= t
    ensures left <= Search(bs, t, left, right) && Crossing(bs, t, Search(bs, t, left, right))
    decreases right - left
  {
    hide WalkBack, Search;
    SearchTurn(bs, t, left, right);
    if left <= right {
      var mid := (left + right) / 2;
      if bs[mid].end < t {
        SearchCrosses(bs, t, mid + 1, right);
      } else if bs[mid].start > t {
        SearchCrosses(bs, t, left, mid - 1);
      }
    }
  }

  /** On any entries, in any order, the search ends at a crossing. */
  lemma FoundCrosses(bs: seq<Bounds>, t: int64)
    ensures Crossing(bs, t, Found(bs, t))
  {
    SearchCrosses(bs, t, 0, |bs| - 1);
  }

  /** The least position whose entry ends at t or later, found by looking at every entry in turn. */
  function FirstEnding(bs: seq<Bounds>, t: int64): (r: nat)
    ensures Crossing(bs, t, r)
    ensures forall i :: 0 <= i < r ==> bs[i].end < t
  {
    if bs == [] || bs[0].end >= t then 0 else 1 + FirstEnding(bs[1..], t)
  }

  /** One turn of the search. */
  lemma SearchTurn(bs: seq<Bounds>, t: int64, left: int, right: int)
    requires 0 <= left <= right + 1 <= |bs|
    ensures Search(bs, t, left, right) ==
      if left > right then left
      else
        var mid := (left + right) / 2;
        if bs[mid].end < t then Search(bs, t, mid + 1, right)
        else if bs[mid].start > t then Search(bs, t, left, mid - 1)
        else WalkBack(bs, t, mid)
  {
    hide WalkBack;
  }

  /** A later target is never found earlier, whatever the order of the entries. */
  lemma {:induction false} SearchMonotone(bs: seq<Bounds>, t: int64, u: int64, left: int, right: int)
    requires t <= u && 0 <= left <= right + 1 <= |bs|
    requires left > 0 ==> bs[left - 1].end < t
    requires right + 1 < |bs| ==> bs[right + 1].end >= u
    ensures Search(bs, t, left, right) <= Search(bs, u, left, right)
    decreases right - left
  {
    hide WalkBack, Search;
    SearchTurn(bs, t, left, right);
    SearchTurn(bs, u, left, right);
    if left <= right {
      var mid := (left + right) / 2;
      if bs[mid].end < t {
        SearchMonotone(bs, t, u, mid + 1, right);
      } else if bs[mid].end < u {
        SearchCrosses(bs, u, mid + 1, right);
      } else if bs[mid].start > u {
        SearchMonotone(bs, t, u, left, mid - 1);
      } else {
        HitIsLatest(bs, t, u, left, right);
      }
    }
  }

  /** A hit for the later target, walked back, stops no earlier than the earlier target's search. */
  lemma HitIsLatest(bs: seq<Bounds>, t: int64, u: int64, left: int, right: int)
    requires t <= u && 0 <= left <= right < |bs|
    requires left > 0 ==> bs[left - 1].end < t
    requires right + 1 < |bs| ==> bs[right + 1].end >= u
    requires bs[(left + right) / 2].end >= u
    ensures Search(bs, t, left, right) <= WalkBack(bs, u, (left + right) / 2)
  {
    hide WalkBack, Search;
    SearchTurn(bs, t, left, right);
    SearchCrosses(bs, t, left, right);
  }

  /** The search for each entry's own end stops at that entry or before it. */
  predicate FindsOwnEnds(bs: seq<Bounds>) {
    forall i :: 0 <= i < |bs| ==> Found(bs, bs[i].end) <= i
  }

  /** The binary search finds what the linear search finds, for every target, exactly when it does not
      overshoot an entry whose end it looks for. Ends need not be sorted for that. */
  lemma SearchExact(bs: seq<Bounds>)
    ensures (forall t: int64 :: Found(bs, t) == FirstEnding(bs, t)) <==> FindsOwnEnds(bs)
  {
    hide Found, FirstEnding;
    if FindsOwnEnds(bs) {
      forall t: int64
        ensures Found(bs, t) == FirstEnding(bs, t)
      {
        FoundCrosses(bs, t);
        var f := FirstEnding(bs, t);
        if f < Found(bs, t) {
          FoundMonotone(bs, t, bs[f].end);
        }
      }
    }
  }

  lemma FoundMonotone(bs: seq<Bounds>, t: int64, u: int64)
    requires t <= u
    ensures Found(bs, t) <= Found(bs, u)
  {
    SearchMonotone(bs, t, u, 0, |bs| - 1);
  }

  predicate EndsSorted(bs: seq<Bounds>) {
    forall i, j :: 0 <= i < j < |bs| ==> bs[i].end <= bs[j].end
  }

  /** Sorted ends are enough. */
  lemma SortedEndsFound(bs: seq<Bounds>)
    requires EndsSorted(bs)
    ensures FindsOwnEnds(bs)
  {
    hide Found;
    forall i | 0 <= i < |bs|
      ensures Found(bs, bs[i].end) <= i
    {
      FoundCrosses(bs, bs[i].end);
    }
  }

  /** binarySearchIndex, with its walk back from a hit and its exit without one. */
  method BinarySearchIndex(xs: seq<IndexEntry>, t: int64) returns (r: nat)
    ensures r == Found(BoundsOf(xs), t)
    ensures Crossing(BoundsOf(xs), t, r)
    ensures EndsSorted(BoundsOf(xs)) ==> r == FirstEnding(BoundsOf(xs), t)
  {
    hide Search, FirstEnding;
    ghost var bs := BoundsOf(xs);
    FoundCrosses(bs, t);
    if EndsSorted(bs) {
      SortedEndsFound(bs);
      SearchExact(bs);
    }
    var left, right := 0, |xs| - 1;
    while left <= right
      invariant 0 <= left <= right + 1 <= |xs|
      invariant Search(bs, t, left, right) == Found(bs, t)
      decreases right - left
    {
      SearchTurn(bs, t, left, right);
      var mid := (left + right) / 2;
      if xs[mid].end < t {
        left := mid + 1;
      } else if xs[mid].start > t {
        right := mid - 1;
      } else {
        while mid > 0 && xs[mid - 1].end >= t
          invariant 0 <= mid < |xs|
          invariant WalkBack(bs, t, mid) == Found(bs, t)
        {
          mid := mid - 1;
        }
        return mid;
      }
    }
    SearchTurn(bs, t, left, right);
    return left;
  }

  // ----- one block, then the selected blocks in turn

  datatype BlockRead = Failed | Legacy(points: seq<Point>) | Skipped | Good(points: seq<Point>)

  /** The checksum test and the parse of a block's contents. */
  function ReadChecked(lib: Library, d: seq<byte>, s: int64, e: int64): BlockRead {
    if |d| < 4 then Skipped
    else
      var n := |d| - 4;
      if Get32(Little, d[n..]) != lib.crc(d[..n]) then Skipped
      else Good(Within(ParseAll(Little, d[..n]), s, e))
  }

  /** The file does not hold the whole span that the entry names. */
  predicate OutOfFile(file: seq<byte>, x: IndexEntry) {
    x.length < 0 || x.offset < 0 || (x.length > 0 && x.offset + x.length > |file|)
  }

  function Span(file: seq<byte>, x: IndexEntry): seq<byte>
    requires !OutOfFile(file, x)
  {
    if x.length == 0 then [] else file[x.offset..x.offset + x.length]
  }

  function ReadBlock(lib: Library, file: seq<byte>, x: IndexEntry, s: int64, e: int64): BlockRead {
    if OutOfFile(file, x) then Failed
    else
      var raw := Span(file, x);
      match lib.decodeAll(raw)
      case Some(d) => ReadChecked(lib, d, s, e)
      case None => if x.crc == 0 then Legacy(Within(ParseAll(Little, raw), s, e)) else ReadChecked(lib, raw, s, e)
  }

  datatype Scan = ReadError | Stopped(points: seq<Point>) | Finished(points: seq<Point>)

  /** A read error ends the query; a legacy block ends it too, with that block's points alone. */
  function ScanBlocks(lib: Library, file: seq<byte>, xs: seq<IndexEntry>, s: int64, e: int64): Scan {
    if xs == [] then Finished([])
    else
      match ReadBlock(lib, file, xs[0], s, e)
      case Failed => ReadError
      case Legacy(ps) => Stopped(ps)
      case Skipped => ScanBlocks(lib, file, xs[1..], s, e)
      case Good(ps) =>
        var rest := ScanBlocks(lib, file, xs[1..], s, e);
        if rest.Finished? then Finished(ps + rest.points) else rest
  }

  /** The entries taken from xs: up to the first that starts after e, without those that end before s. */
  function Relevant(xs: seq<IndexEntry>, s: int64, e: int64): seq<IndexEntry> {
    if xs == [] || xs[0].start > e then []
    else (if xs[0].end >= s then [xs[0]] else []) + Relevant(xs[1..], s, e)
  }

  function ScanResult(scan: Scan): Option<seq<Point>> {
    if scan.ReadError? then None else Some(scan.points)
  }

  /** The answer of a query that starts from entry r. */
  function AnswerFrom(lib: Library, file: seq<byte>, xs: seq<IndexEntry>, r: nat, s: int64, e: int64)
    : Option<seq<Point>>
    requires r <= |xs|
  {
    ScanResult(ScanBlocks(lib, file, Relevant(xs[r..], s, e), s, e))
  }

  /** The answer of an indexed query. */
  function IndexAnswer(lib: Library, file: seq<byte>, xs: seq<IndexEntry>, s: int64, e: int64): Option<seq<Point>> {
    AnswerFrom(lib, file, xs, Found(BoundsOf(xs), s), s, e)
  }

  /** QueryWithIndex; None is its error return. */
  method QueryWithIndex(lib: Library, file: seq<byte>, xs: seq<IndexEntry>, s: int64, e: int64)
    returns (answer: Option<seq<Point>>)
    ensures answer == IndexAnswer(lib, file, xs, s, e)
  {
    hide Relevant, ScanBlocks, Found;
    var r := BinarySearchIndex(xs, s);
    var picked := SelectBlocks(xs, r, s, e);
    answer := ReadPicked(lib, file, picked, s, e);
  }

  /** The loop that collects the relevant blocks. */
  method SelectBlocks(xs: seq<IndexEntry>, r: nat, s: int64, e: int64) returns (picked: seq<IndexEntry>)
    requires r <= |xs|
    ensures picked == Relevant(xs[r..], s, e)
  {
    hide Relevant;
    picked := [];
    var i := r;
    while i < |xs|
      invariant r <= i <= |xs|
      invariant Relevant(xs[r..], s, e) == picked + Relevant(xs[i..], s, e)
    {
      RelevantStep(xs, i, s, e);
      if xs[i].start > e {
        return;
      }
      if xs[i].start <= e && xs[i].end >= s {
        picked := picked + [xs[i]];
      }
      i := i + 1;
    }
    assert xs[i..] == [];
    NothingRelevant(s, e);
  }

  lemma NothingRelevant(s: int64, e: int64)
    ensures Relevant([], s, e) == []
  {
  }

  lemma RelevantStep(xs: seq<IndexEntry>, i: nat, s: int64, e: int64)
    requires i < |xs|
    ensures Relevant(xs[i..], s, e) ==
      if xs[i].start > e then [] else (if xs[i].end >= s then [xs[i]] else []) + Relevant(xs[i + 1..], s, e)
  {
    assert xs[i..][1..] == xs[i + 1..];
  }

  /** The block reading loop of QueryWithIndex. */
  method ReadPicked(lib: Library, file: seq<byte>, picked: seq<IndexEntry>, s: int64, e: int64)
    returns (answer: Option<seq<Point>>)
    ensures answer == ScanResult(ScanBlocks(lib, file, picked, s, e))
  {
    hide ReadBlock, ScanBlocks;
    var all: seq<Point> := [];
    ghost var want := ScanBlocks(lib, file, picked, s, e);
    assert picked[0..] == picked;
    NothingScanned(lib, file, s, e);
    for k := 0 to |picked|
      invariant var rest := ScanBlocks(lib, file, picked[k..], s, e);
        want == if rest.Finished? then Finished(all + rest.points) else rest
    {
      ScanStep(lib, file, picked, k, s, e);
      var got := ReadOne(lib, file, picked[k], s, e);
      match got
      case Failed => return None;
      case Legacy(points) => return Some(points);
      case Skipped =>
      case Good(points) =>
        ghost var rest := ScanBlocks(lib, file, picked[k + 1..], s, e);
        if rest.Finished? { assert all + (points + rest.points) == (all + points) + rest.points; }
        all := all + points;
    }
    assert picked[|picked|..] == [] && all + [] == all;
    return Some(all);
  }

  /** One turn of that loop: read, decompress, check, parse. */
  method ReadOne(lib: Library, file: seq<byte>, x: IndexEntry, s: int64, e: int64) returns (got: BlockRead)
    ensures got == ReadBlock(lib, file, x, s, e)
  {
    hide ParseAll, Within, Get32;
    if x.length < 0 || x.offset < 0 || (x.length > 0 && x.offset + x.length > |file|) {
      return Failed;
    }
    var contents := if x.length == 0 then [] else file[x.offset..x.offset + x.length];
    var decoded := lib.decodeAll(contents);
    if decoded == None {
      if x.crc == 0 {
        var legacy := ParsePoints(contents, s, e);
        return Legacy(legacy);
      }
    } else {
      contents := decoded.value;
    }
    if |contents| < 4 {
      return Skipped;
    }
    var n := |contents| - 4;
    if Get32(Little, contents[n..]) != lib.crc(contents[..n]) {
      return Skipped;
    }
    var points := ParsePoints(contents[..n], s, e);
    return Good(points);
  }

  lemma NothingScanned(lib: Library, file: seq<byte>, s: int64, e: int64)
    ensures ScanBlocks(lib, file, [], s, e) == Finished([])
  {
  }

  lemma ScanStep(lib: Library, file: seq<byte>, xs: seq<IndexEntry>, k: nat, s: int64, e: int64)
    requires k < |xs|
    ensures ScanBlocks(lib, file, xs[k..], s, e) ==
      match ReadBlock(lib, file, xs[k], s, e)
      case Failed => ReadError
      case Legacy(ps) => Stopped(ps)
      case Skipped => ScanBlocks(lib, file, xs[k + 1..], s, e)
      case Good(ps) =>
        var rest := ScanBlocks(lib, file, xs[k + 1..], s, e);
        if rest.Finished? then Finished(ps + rest.points) else rest
  {
    hide ReadBlock;
    assert xs[k..][1..] == xs[k + 1..];
  }

  // ----- the full scan

  /** What the fall-back scan makes of a whole file: one block, compressed or not. */
  function FullScan(lib: Library, file: seq<byte>, s: int64, e: int64): seq<Point> {
    match lib.decodeAll(file)
    case None => Within(ParseAll(Little, file), s, e)
    case Some(d) => if |d| < 4 then [] else Within(ParseAll(Little, d[..|d| - 4]), s, e)
  }

  /** DayReader.Query: a checksum that does not match is logged, not acted on. */
  method QueryWhole(lib: Library, file: seq<byte>, s: int64, e: int64) returns (points: seq<Point>)
    ensures points == FullScan(lib, file, s, e)
  {
    var decoded := lib.decodeAll(file);
    if decoded == None {
      points := ParsePoints(file, s, e);
    } else if |decoded.value| < 4 {
      points := [];
    } else {
      points := ParsePoints(decoded.value[..|decoded.value| - 4], s, e);
    }
  }
}
