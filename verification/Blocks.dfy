/** Blocks of a data file: a batch of points, its checksum, and compression when it is large. */
module Blocks {
  import opened Bytes
  import opened Points
  import opened IndexFile

  /** The checksum and the compressor that the store takes from libraries. */
  datatype Library = Library(
    crc: seq<byte> -> u32,
    encodeAll: seq<byte> -> seq<byte>,
    decodeAll: seq<byte> -> Option<seq<byte>>)

  /** A batch's records followed by the checksum of those records. */
  function Sealed(lib: Library, ps: seq<Point>): (b: seq<byte>)
    ensures |b| == |Stream(Little, ps)| + 4
  {
    Stream(Little, ps) + Put(Little, lib.crc(Stream(Little, ps)), 4)
  }

  /** The size test of a flush; it looks at the records without their checksum. */
  predicate Compresses(interval: int, ps: seq<Point>) {
    |Stream(Little, ps)| >= interval
  }

  /** The bytes that a flush of ps appends to the data file. */
  function Block(lib: Library, interval: int, ps: seq<Point>): seq<byte> {
    if Compresses(interval, ps) then lib.encodeAll(Sealed(lib, ps)) else Sealed(lib, ps)
  }

  /** The library undoes its own compression of ps, or refuses the uncompressed block as input. */
  predicate Readable(lib: Library, interval: int, ps: seq<Point>) {
    && AllEncodable(ps)
    && if Compresses(interval, ps)
       then lib.decodeAll(lib.encodeAll(Sealed(lib, ps))) == Some(Sealed(lib, ps))
       else lib.decodeAll(Sealed(lib, ps)) == None
  }

  /** An uncompressed block whose checksum is 0, which the index cannot tell from a legacy block. */
  predicate LooksLegacy(lib: Library, interval: int, ps: seq<Point>) {
    !Compresses(interval, ps) && lib.crc(Stream(Little, ps)) == 0
  }

  /** A batch and the offset at which its block starts. */
  datatype Placed = Placed(points: seq<Point>, at: nat)

  /** p's block lies whole in the file, at p's offset, and the offsets fit an index entry. */
  predicate Stored(lib: Library, interval: int, file: seq<byte>, p: Placed) {
    var block := Block(lib, interval, p.points);
    && p.points != []
    && p.at + |block| <= |file| < TWO_63
    && file[p.at..p.at + |block|] == block
  }

  predicate AllStored(lib: Library, interval: int, file: seq<byte>, log: seq<Placed>) {
    forall i :: 0 <= i < |log| ==> Stored(lib, interval, file, log[i])
  }

  predicate AllReadable(lib: Library, interval: int, log: seq<Placed>) {
    forall i :: 0 <= i < |log| ==> Readable(lib, interval, log[i].points)
  }

  /** A batch that an index entry can describe. */
  predicate Indexable(lib: Library, interval: int, p: Placed) {
    p.points != [] && p.at + |Block(lib, interval, p.points)| < TWO_63
  }

  /** The entry that a flush writes: bounds from the first and last point in arrival order. */
  function EntryOf(lib: Library, interval: int, p: Placed): IndexEntry
    requires Indexable(lib, interval, p)
  {
    IndexEntry(p.points[0].ts, p.points[|p.points| - 1].ts, p.at, |Block(lib, interval, p.points)|,
               lib.crc(Stream(Little, p.points)))
  }

  /** A flush writes records and checksum, compressed if the records alone take at least the interval. */
  lemma BlockBytes(lib: Library, interval: int, ps: seq<Point>)
    ensures var x := Stream(Little, ps); var y := x + Put(Little, lib.crc(x), 4);
      && (|x| >= interval ==> Block(lib, interval, ps) == lib.encodeAll(y))
      && (|x| < interval ==> Block(lib, interval, ps) == y)
  {
    hide Stream, Put;
  }

  /** Its index entry holds the times of the first and the last point, the block's place and length, and the
      checksum of the records. */
  lemma EntryFieldsOf(lib: Library, interval: int, p: Placed)
    requires Indexable(lib, interval, p)
    ensures EntryOf(lib, interval, p) == IndexEntry(
      p.points[0].ts, p.points[|p.points| - 1].ts, p.at, |Block(lib, interval, p.points)|,
      lib.crc(Stream(Little, p.points)))
  {
    hide Block, Stream;
  }

  predicate AllIndexable(lib: Library, interval: int, log: seq<Placed>) {
    forall i :: 0 <= i < |log| ==> Indexable(lib, interval, log[i])
  }

  function Entries(lib: Library, interval: int, log: seq<Placed>): (xs: seq<IndexEntry>)
    requires AllIndexable(lib, interval, log)
    ensures |xs| == |log|
    ensures forall i :: 0 <= i < |log| ==> xs[i] == EntryOf(lib, interval, log[i])
  {
    if log == [] then [] else [EntryOf(lib, interval, log[0])] + Entries(lib, interval, log[1..])
  }

  /** Every point of the log, in file order. */
  function LogPoints(log: seq<Placed>): seq<Point> {
    if log == [] then [] else log[0].points + LogPoints(log[1..])
  }

  lemma {:induction false} LogPointsConcat(a: seq<Placed>, b: seq<Placed>)
    ensures LogPoints(a + b) == LogPoints(a) + LogPoints(b)
  {
    if a == [] {
      assert a + b == b;
    } else {
      assert (a + b)[1..] == a[1..] + b;
      LogPointsConcat(a[1..], b);
    }
  }

  lemma {:induction false} EntriesSnoc(lib: Library, interval: int, log: seq<Placed>, p: Placed)
    requires AllIndexable(lib, interval, log) && Indexable(lib, interval, p)
    ensures AllIndexable(lib, interval, log + [p])
    ensures Entries(lib, interval, log + [p]) == Entries(lib, interval, log) + [EntryOf(lib, interval, p)]
  {
    hide EntryOf, Indexable;
  }

  /** The records in front of a block's checksum parse back to the batch, checksum or not. */
  lemma SealedParses(lib: Library, ps: seq<Point>)
    requires AllEncodable(ps)
    ensures var b := Sealed(lib, ps); var n := |b| - 4;
      b[..n] == Stream(Little, ps) && Get32(Little, b[n..]) == lib.crc(b[..n]) &&
      ParseAll(Little, b[..n]) == ps && ParseAll(Little, b) == ps
  {
    hide Put, Get, Get32, Stream, ParseAll;
    var b := Sealed(lib, ps);
    var n := |b| - 4;
    assert b[..n] == Stream(Little, ps);
    assert b[n..] == Put(Little, lib.crc(b[..n]), 4);
    Reads32(Little, lib.crc(b[..n]));
    ParsesStream(Little, ps, []);
    ParsesStream(Little, ps, b[n..]);
    assert Stream(Little, ps) + [] == b[..n];
    NoRecord(Little, []);
    NoRecord(Little, b[n..]);
  }

  lemma NoRecord(o: Order, d: seq<byte>)
    requires |d| < 10
    ensures ParseAll(o, d) == []
  {
  }
}
