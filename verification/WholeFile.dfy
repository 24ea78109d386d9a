/** The full scan, used when a file has no index: where it agrees with the index and where it cannot. */
module WholeFile {
  import opened Bytes
  import opened Points
  import opened Blocks
  import opened Reader
  import opened IndexQuery
  import opened IndexExact

  /** On a file of one block, raw or compressed, the full scan is the time filter. */
  lemma SingleBlockScan(lib: Library, interval: int, ps: seq<Point>, s: int64, e: int64)
    requires Readable(lib, interval, ps)
    ensures FullScan(lib, Block(lib, interval, ps), s, e) == Within(ps, s, e)
  {
    hide Stream, ParseAll, Within, Get32, Sealed;
    SealedParses(lib, ps);
  }

  /** The full scan, the index query and the filter agree on a one-block file for every range exactly
      when the block is bracketed. */
  lemma ReadPathsAgree(lib: Library, interval: int, ps: seq<Point>)
    requires ps != [] && Readable(lib, interval, ps) && |Block(lib, interval, ps)| < TWO_63
    ensures var log := [Placed(ps, 0)]; var file := Block(lib, interval, ps);
      AllIndexable(lib, interval, log) && NonEmpty(log) &&
      ((forall s: int64, e: int64 ::
          Some(FullScan(lib, file, s, e)) == IndexAnswer(lib, file, Entries(lib, interval, log), s, e))
       <==> Bracketed(log))
  {
    hide FullScan, Readable, Within, Block, ScanBlocks, Relevant, ExactAt;
    var p := Placed(ps, 0);
    var log := [p];
    var file := Block(lib, interval, ps);
    assert Stored(lib, interval, file, p);
    assert AllStored(lib, interval, file, log) && AllReadable(lib, interval, log);
    AllStoredIndexable(lib, interval, file, log);
    assert log[1..] == [] && LogPoints(log) == ps + LogPoints(log[1..]) == ps;
    IndexQueryExact(lib, interval, log);
    forall s: int64, e: int64
      ensures Some(FullScan(lib, file, s, e)) == IndexAnswer(lib, file, Entries(lib, interval, log), s, e)
        <==> ExactAt(lib, interval, log, s, e)
    {
      OneBlockAgreement(lib, interval, ps, s, e);
    }
  }

  lemma OneBlockAgreement(lib: Library, interval: int, ps: seq<Point>, s: int64, e: int64)
    requires ps != [] && Readable(lib, interval, ps) && |Block(lib, interval, ps)| < TWO_63
    requires AllIndexable(lib, interval, [Placed(ps, 0)]) && NonEmpty([Placed(ps, 0)])
    ensures var log := [Placed(ps, 0)]; var file := Block(lib, interval, ps);
      Some(FullScan(lib, file, s, e)) == IndexAnswer(lib, file, Entries(lib, interval, log), s, e)
      <==> ExactAt(lib, interval, log, s, e)
  {
    hide FullScan, Readable, Within, Block, ScanBlocks, Relevant, LogAnswer;
    var p := Placed(ps, 0);
    var log := [p];
    var file := Block(lib, interval, ps);
    assert Stored(lib, interval, file, p);
    assert AllStored(lib, interval, file, log) && AllReadable(lib, interval, log);
    assert log[1..] == [] && LogPoints(log) == ps + LogPoints(log[1..]) == ps;
    LogBoundsAreEntries(lib, interval, log);
    AnswerOverBatches(lib, interval, file, log, StartBlock(log, s), s, e);
    SingleBlockScan(lib, interval, ps, s, e);
  }

  /** A scan of bytes that do not decompress returns ps for every range exactly when the bytes are the
      stream of ps followed by something too short to be a record. */
  lemma RawScanExact(lib: Library, file: seq<byte>, ps: seq<Point>)
    requires lib.decodeAll(file) == None && AllEncodable(ps)
    ensures (forall s: int64, e: int64 :: FullScan(lib, file, s, e) == Within(ps, s, e))
      <==> Stream(Little, ps) <= file && !HasRecord(Little, file[|Stream(Little, ps)|..])
  {
    hide Stream, ParseAll, HasRecord, Within;
    ParseCharacterised(Little, file, ps);
    if forall s: int64, e: int64 :: FullScan(lib, file, s, e) == Within(ps, s, e) {
      var s: int64, e: int64 := -TWO_63, TWO_63 - 1;
      assert FullScan(lib, file, s, e) == Within(ps, s, e);
      WithinEverything(ps);
      WithinEverything(ParseAll(Little, file));
    }
  }

  lemma WithinEverything(ps: seq<Point>)
    ensures Within(ps, -TWO_63, TWO_63 - 1) == ps
  {
    WithinAll(ps, -TWO_63, TWO_63 - 1);
  }

  /** What a scan parses of bytes that decompress to d: all but the last four bytes, which nothing checks. */
  function Unsealed(d: seq<byte>): seq<byte> {
    if |d| < 4 then [] else d[..|d| - 4]
  }

  /** A scan of bytes that decompress to d returns ps for every range exactly when d, without its last four
      bytes, is the stream of ps followed by something too short to be a record. */
  lemma CompressedScanExact(lib: Library, file: seq<byte>, d: seq<byte>, ps: seq<Point>)
    requires lib.decodeAll(file) == Some(d) && AllEncodable(ps)
    ensures (forall s: int64, e: int64 :: FullScan(lib, file, s, e) == Within(ps, s, e))
      <==> Stream(Little, ps) <= Unsealed(d) && !HasRecord(Little, Unsealed(d)[|Stream(Little, ps)|..])
  {
    hide Stream, ParseAll, HasRecord, Within;
    ParseCharacterised(Little, Unsealed(d), ps);
    NoRecord(Little, []);
    forall s: int64, e: int64
      ensures FullScan(lib, file, s, e) == Within(ParseAll(Little, Unsealed(d)), s, e)
    {
      WithinNone([], s, e);
    }
    if forall s: int64, e: int64 :: FullScan(lib, file, s, e) == Within(ps, s, e) {
      var s: int64, e: int64 := -TWO_63, TWO_63 - 1;
      assert FullScan(lib, file, s, e) == Within(ps, s, e);
      WithinEverything(ps);
      WithinEverything(ParseAll(Little, Unsealed(d)));
    }
  }

  /** On several blocks the scan goes on inside the first checksum: two raw blocks of one point each come back
      as two points, the second of which has the checksum for its time. */
  lemma ManyBlocksMisread(lib: Library)
    requires var block := Sealed(lib, [Point(0, [])]); lib.decodeAll(block + block) == None
    ensures var block := Sealed(lib, [Point(0, [])]);
      FullScan(lib, block + block, 0, 0xFFFF_FFFF) == [Point(0, []), Point(lib.crc(Zeros(10)), [])]
  {
    hide ParseAll, Record, Put, Stream, Zeros;
    var c := lib.crc(Zeros(10));
    var p, q := Point(0, []), Point(c, []);
    EmptyRecord(0);
    EmptyRecord(c);
    TenZeros();
    StreamOfOne(p);
    StreamOfTwo(p, q);
    var block := Sealed(lib, [p]);
    var rest := Zeros(4) + Put(Little, c, 4);
    assert block == Zeros(10) + Put(Little, c, 4);
    assert block + block == Stream(Little, [p, q]) + rest;
    ParsesStream(Little, [p, q], rest);
    NoRecord(Little, rest);
    assert [p, q] + [] == [p, q];
    WithinAll([p, q], 0, 0xFFFF_FFFF);
  }

  // ----- two blocks in one file

  /** What a scan parses of two blocks is their points exactly when the second stream repeats the checksum that
      it stands behind: `tail` is what of the second checksum is parsed. */
  lemma TwoStreams(ps: seq<Point>, qs: seq<Point>, c: seq<byte>, tail: seq<byte>)
    requires |c| == 4 && |tail| <= 4
    ensures var d := Stream(Little, ps) + c + Stream(Little, qs) + tail; var n := |Stream(Little, ps + qs)|;
      Stream(Little, ps + qs) <= d && !HasRecord(Little, d[n..])
      <==> Stream(Little, qs) <= c + Stream(Little, qs)
  {
    hide Stream;
    StreamConcat(Little, ps, qs);
    PrefixBehind(Stream(Little, ps), c, Stream(Little, qs), tail);
    TooShort(Stream(Little, ps) + c + Stream(Little, qs) + tail, |Stream(Little, ps + qs)|);
  }

  lemma TooShort(d: seq<byte>, n: nat)
    requires n <= |d| < n + 10
    ensures !HasRecord(Little, d[n..])
  {
  }

  /** A file of two raw blocks scans to their points for every range exactly when the second stream repeats the
      first checksum. */
  lemma TwoRawBlocksExact(lib: Library, ps: seq<Point>, qs: seq<Point>)
    requires AllEncodable(ps + qs)
    requires var file := Sealed(lib, ps) + Sealed(lib, qs); lib.decodeAll(file) == None
    ensures var file := Sealed(lib, ps) + Sealed(lib, qs); var c := Put(Little, lib.crc(Stream(Little, ps)), 4);
      (forall s: int64, e: int64 :: FullScan(lib, file, s, e) == Within(ps + qs, s, e))
      <==> Stream(Little, qs) <= c + Stream(Little, qs)
  {
    hide Stream, Within, FullScan, HasRecord, Put;
    var file := Sealed(lib, ps) + Sealed(lib, qs);
    var c, tail := Put(Little, lib.crc(Stream(Little, ps)), 4), Put(Little, lib.crc(Stream(Little, qs)), 4);
    RawScanExact(lib, file, ps + qs);
    assert file == Stream(Little, ps) + c + Stream(Little, qs) + tail;
    TwoStreams(ps, qs, c, tail);
  }

  /** So does a file of two compressed blocks, whose frames the decompressor takes for one stream. */
  lemma TwoFramesExact(lib: Library, ps: seq<Point>, qs: seq<Point>, file: seq<byte>)
    requires AllEncodable(ps + qs)
    requires lib.decodeAll(file) == Some(Sealed(lib, ps) + Sealed(lib, qs))
    ensures var c := Put(Little, lib.crc(Stream(Little, ps)), 4);
      (forall s: int64, e: int64 :: FullScan(lib, file, s, e) == Within(ps + qs, s, e))
      <==> Stream(Little, qs) <= c + Stream(Little, qs)
  {
    hide Stream, Within, FullScan, HasRecord, Put;
    var d := Sealed(lib, ps) + Sealed(lib, qs);
    var c := Put(Little, lib.crc(Stream(Little, ps)), 4);
    CompressedScanExact(lib, file, d, ps + qs);
    assert Unsealed(d) == Stream(Little, ps) + c + Stream(Little, qs) + [];
    TwoStreams(ps, qs, c, []);
  }

  /** That takes a first time in the second block whose low four bytes are the first block's checksum, and
      whose high four bytes are the checksum again. */
  lemma RepeatedChecksum(qs: seq<Point>, c: u32)
    requires qs != [] && Stream(Little, qs) <= Put(Little, c, 4) + Stream(Little, qs)
    ensures U64(qs[0].ts) == c + 0x1_0000_0000 * c
  {
    hide Stream, Put, Get, Pow256;
    var time, b, x := Put(Little, U64(qs[0].ts), 8), Put(Little, c, 4), Stream(Little, qs);
    StartsWithTime(qs);
    assert x == (b + x)[..|x|];
    assert x[..4] == b;
    assert x[4..8] == (b + x)[4..8] == x[..4];
    assert time == x[..8] == b + b;
    Pow256Values();
    GetPut(Little, U64(qs[0].ts), 8);
    GetPut(Little, c, 4);
    GetConcat(b, b);
  }

  lemma StartsWithTime(qs: seq<Point>)
    requires qs != []
    ensures Put(Little, U64(qs[0].ts), 8) <= Stream(Little, qs)
  {
    hide Put, ValuesBytes;
  }

  /** The record of a point without values at a time of four bytes. */
  lemma EmptyRecord(c: u32)
    ensures Record(Little, Point(c, [])) == Put(Little, c, 4) + Zeros(6)
    ensures c == 0 ==> Record(Little, Point(c, [])) == Zeros(10)
  {
    hide Put, Zeros;
    Pow256Values();
    PutPads(c, 4, 4);
    PutPads(0, 0, 2);
    PutPads(0, 0, 8);
    NoValues(Little);
    ZerosAdd(4, 2);
    ZerosAdd(8, 2);
    PutNothing(0);
    assert U64(c) == c;
  }

  lemma PutNothing(n: nat)
    ensures Put(Little, n, 0) == [] && Pow256(0) == 1
  {
  }

  lemma {:induction false} ZerosAdd(j: nat, k: nat)
    ensures Zeros(j) + Zeros(k) == Zeros(j + k)
  {
    if j > 0 {
      ZerosAdd(j - 1, k);
    }
  }

  lemma TenZeros()
    ensures Zeros(10) == Zeros(6) + Zeros(4)
  {
    ZerosAdd(6, 4);
  }

  lemma StreamOfOne(p: Point)
    ensures Stream(Little, [p]) == Record(Little, p)
  {
    hide Record;
    assert Stream(Little, [p]) == Record(Little, p) + Stream(Little, [p][1..]);
  }

  lemma StreamOfTwo(p: Point, q: Point)
    ensures Stream(Little, [p, q]) == Record(Little, p) + Record(Little, q)
  {
    hide Record;
    StreamOfOne(q);
    assert [p, q][1..] == [q];
  }
}
