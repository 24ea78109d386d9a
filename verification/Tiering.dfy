/** Moving a day's file from the hot tier to the cold one, step by step, against a query that reads the hot
    file and then the cold one. */
module Tiering {
  import opened Bytes
  import opened Points
  import opened IndexFile
  import opened Blocks
  import opened Reader
  import opened IndexQuery
  import opened IndexExact
  import opened WholeFile

  /** A hot file of one block, and the mover's own compression level. */
  datatype Setting = Setting(lib: Library, coldEncode: seq<byte> -> seq<byte>, interval: int, batch: seq<Point>)

  const KEEP_FROM: int64 := 0
  const KEEP_TO: int64 := 0x4000_0000_0000_0000

  function HotLog(m: Setting): seq<Placed> { [Placed(m.batch, 0)] }

  /** The points of the hot file lie between its first and its last one. */
  predicate InOrder(m: Setting) {
    m.batch != [] && Bracketed(HotLog(m))
  }

  function HotBytes(m: Setting): seq<byte> { Block(m.lib, m.interval, m.batch) }

  predicate HotOk(m: Setting) {
    m.batch != [] && HotBytes(m) != [] && |HotBytes(m)| < TWO_63 && Readable(m.lib, m.interval, m.batch)
  }

  function HotEntry(m: Setting): IndexEntry
    requires HotOk(m)
  {
    EntryOf(m.lib, m.interval, Placed(m.batch, 0))
  }

  function ColdLibrary(m: Setting): Library { m.lib.(encodeAll := m.coldEncode) }

  /** What recompressCold reads from the hot file: a full scan over the times it asks for. */
  function Kept(m: Setting): seq<Point> { FullScan(m.lib, HotBytes(m), KEEP_FROM, KEEP_TO) }

  /** The temporary file when its writer is closed: one block, or nothing if there was nothing to write. */
  function ColdBytes(m: Setting): seq<byte> {
    if Kept(m) == [] then [] else Block(ColdLibrary(m), m.interval, Kept(m))
  }

  /** All points have times that the mover asks for. */
  predicate TimesKeepable(m: Setting) {
    forall i :: 0 <= i < |m.batch| ==> 0 <= m.batch[i].ts <= 0x4000_0000_0000_0000
  }

  /** The points have times that the mover keeps, and the rewritten block is as long as the one that the
      copied index entry describes. */
  predicate SafeToMove(m: Setting) {
    TimesKeepable(m) && |ColdBytes(m)| == |HotBytes(m)|
  }

  // ----- what each file answers

  lemma KeptIsFilter(m: Setting)
    requires HotOk(m)
    ensures Kept(m) == Within(m.batch, KEEP_FROM, KEEP_TO)
  {
    SingleBlockScan(m.lib, m.interval, m.batch, KEEP_FROM, KEEP_TO);
  }

  /** The index entry of the batch is relevant for the range. */
  predicate Selected(m: Setting, s: int64, e: int64) {
    m.batch != [] && m.batch[0].ts <= e && m.batch[|m.batch| - 1].ts >= s
  }

  /** What an indexed query makes of a file that holds the batch: nothing,
    if the entry's bounds do not meet the range. */
  function Indexed(m: Setting, s: int64, e: int64): seq<Point> {
    if Selected(m, s, e) then Within(m.batch, s, e) else []
  }

  /** That is the time filter for every range exactly when the points lie between the first and the last one. */
  lemma IndexedExact(m: Setting)
    requires m.batch != []
    ensures (forall s: int64, e: int64 :: Indexed(m, s, e) == Within(m.batch, s, e)) <==> InOrder(m)
  {
    hide Within;
    var p := Placed(m.batch, 0);
    assert HotLog(m)[0] == p;
    if InOrder(m) {
      forall s: int64, e: int64
        ensures Indexed(m, s, e) == Within(m.batch, s, e)
      {
        if !Selected(m, s, e) {
          assert forall k :: 0 <= k < |m.batch| ==> First(p) <= HotLog(m)[0].points[k].ts <= Last(p);
          WithinNone(m.batch, s, e);
        }
      }
    } else {
      var k :| 0 <= k < |m.batch| && !(First(p) <= m.batch[k].ts <= Last(p));
      var at := m.batch[k].ts;
      WithinNone(m.batch, at, at);
      assert InWindow(m.batch[k], at, at);
      assert Indexed(m, at, at) != Within(m.batch, at, at);
    }
  }

  /** A query over one entry reads its block or nothing. */
  lemma OneEntryQuery(lib: Library, file: seq<byte>, x: IndexEntry, s: int64, e: int64)
    ensures IndexAnswer(lib, file, [x], s, e) ==
      if x.start <= e && x.end >= s then ScanResult(ScanBlocks(lib, file, [x], s, e)) else Some([])
  {
    hide ReadBlock;
    FoundCrosses(BoundsOf([x]), s);
    assert [x][0..] == [x] && [x][1..] == [];
    assert [x] + Relevant([], s, e) == [x] && [] + Relevant([], s, e) == [];
  }

  lemma OneBlockScan(lib: Library, file: seq<byte>, x: IndexEntry, s: int64, e: int64)
    ensures ScanResult(ScanBlocks(lib, file, [x], s, e)) ==
      match ReadBlock(lib, file, x, s, e)
      case Failed => None
      case Skipped => Some([])
      case Good(ps) => Some(ps)
      case Legacy(ps) => Some(ps)
  {
    hide ReadBlock;
    assert [x][1..] == [] && ScanBlocks(lib, file, [x][1..], s, e) == Finished([]);
    if ReadBlock(lib, file, x, s, e).Good? {
      var ps := ReadBlock(lib, file, x, s, e).points;
      assert ps + [] == ps;
    }
  }

  /** A file whose block reads as the batch's filter, through an entry with the batch's bounds. */
  lemma BlockAnswers(m: Setting, file: seq<byte>, x: IndexEntry, s: int64, e: int64)
    requires m.batch != [] && x.start == m.batch[0].ts && x.end == m.batch[|m.batch| - 1].ts
    requires ReadBlock(m.lib, file, x, s, e) in {Legacy(Within(m.batch, s, e)), Good(Within(m.batch, s, e))}
    ensures IndexAnswer(m.lib, file, [x], s, e) == Some(Indexed(m, s, e))
  {
    hide ReadBlock, Within, IndexAnswer, ScanBlocks;
    OneEntryQuery(m.lib, file, x, s, e);
    OneBlockScan(m.lib, file, x, s, e);
  }

  /** What the hot file answers through its index. */
  lemma HotAnswers(m: Setting, s: int64, e: int64)
    requires HotOk(m)
    ensures IndexAnswer(m.lib, HotBytes(m), [HotEntry(m)], s, e) == Some(Indexed(m, s, e))
  {
    hide Block, Readable, Within, IndexAnswer, ReadBlock, Indexed;
    StoredRead(m.lib, m.lib.encodeAll, m.interval, m.batch, HotEntry(m), s, e);
    BlockAnswers(m, HotBytes(m), HotEntry(m), s, e);
  }

  /** A safely moved file answers through the copied index what the hot file answered, also through an entry
      that looks legacy because its copy is cut short; by full scan it answers with the time filter. */
  lemma ColdAnswers(m: Setting, s: int64, e: int64)
    requires HotOk(m) && SafeToMove(m) && Readable(ColdLibrary(m), m.interval, m.batch)
    ensures IndexAnswer(m.lib, ColdBytes(m), [HotEntry(m)], s, e) == Some(Indexed(m, s, e))
    ensures IndexAnswer(m.lib, ColdBytes(m), [HotEntry(m).(crc := 0)], s, e) == Some(Indexed(m, s, e))
    ensures FullScan(m.lib, ColdBytes(m), s, e) == Within(m.batch, s, e)
  {
    hide Block, Readable, Within, FullScan, Stream, ReadBlock, IndexAnswer, Indexed, Kept;
    KeptIsFilter(m);
    WithinAll(m.batch, KEEP_FROM, KEEP_TO);
    var x, y := HotEntry(m), HotEntry(m).(crc := 0);
    StoredRead(m.lib, m.coldEncode, m.interval, m.batch, x, s, e);
    StoredRead(m.lib, m.coldEncode, m.interval, m.batch, y, s, e);
    BlockAnswers(m, ColdBytes(m), x, s, e);
    BlockAnswers(m, ColdBytes(m), y, s, e);
    SingleBlockScan(ColdLibrary(m), m.interval, m.batch, s, e);
    ScanIgnoresEncoder(m.lib, m.coldEncode, ColdBytes(m), s, e);
  }

  lemma ScanIgnoresEncoder(lib: Library, encode: seq<byte> -> seq<byte>, file: seq<byte>, s: int64, e: int64)
    ensures FullScan(lib.(encodeAll := encode), file, s, e) == FullScan(lib, file, s, e)
  {
  }

  /** An index entry as a query may find it while the copy is being written: cut after 32 bytes it passes
      for a legacy entry, cut anywhere else it does not count. */
  lemma PartialIndex(m: Setting, n: nat)
    requires HotOk(m) && n <= 36
    ensures ReadIndex(EntryBytes(HotEntry(m))[..n]) ==
      if n == 36 then [HotEntry(m)] else if n == 32 then [HotEntry(m).(crc := 0)] else []
  {
    hide EntryBytes, ReadEntry, HotEntry, HotOk, Block;
    var x := HotEntry(m);
    var d := EntryBytes(x)[..n];
    EntryPrefix(x);
    ReadsEntry(x, []);
    assert EntryBytes(x) + [] == EntryBytes(x) && LegacyBytes(x) + [] == LegacyBytes(x);
    if n == 32 || n == 36 {
      assert EntryBytes(x)[..36] == EntryBytes(x);
      EntriesEnd(d[GuessedSize(n)..], GuessedSize(n));
    }
  }

  lemma EntryPrefix(x: IndexEntry)
    ensures EntryBytes(x)[..32] == LegacyBytes(x)
  {
    hide LegacyBytes;
  }

  /** A file of one block, read through any entry that names all of it. */
  lemma StoredRead(lib: Library, encode: seq<byte> -> seq<byte>, interval: int, ps: seq<Point>, x: IndexEntry,
    s: int64, e: int64)
    requires Readable(lib.(encodeAll := encode), interval, ps) && x.offset == 0
    requires x.length == |Block(lib.(encodeAll := encode), interval, ps)|
    ensures ReadBlock(lib, Block(lib.(encodeAll := encode), interval, ps), x, s, e)
      in {Legacy(Within(ps, s, e)), Good(Within(ps, s, e))}
  {
    hide Within, Stream, ParseAll, Get32, Sealed;
    var cold := lib.(encodeAll := encode);
    SealedParses(cold, ps);
    var block := Block(cold, interval, ps);
    assert Span(block, x) == block;
    SealedIgnoresEncoder(lib, encode, ps);
  }

  lemma SealedIgnoresEncoder(lib: Library, encode: seq<byte> -> seq<byte>, ps: seq<Point>)
    ensures Sealed(lib.(encodeAll := encode), ps) == Sealed(lib, ps)
  {
  }

  // ----- exactly when a move keeps the file's answers

  lemma {:induction false} FilterShortens(ps: seq<Point>, s: int64, e: int64)
    ensures |Stream(Little, Within(ps, s, e))| <= |Stream(Little, ps)|
    ensures Within(ps, s, e) != ps ==> |Stream(Little, Within(ps, s, e))| < |Stream(Little, ps)|
  {
    hide Record;
    if ps != [] {
      FilterShortens(ps[1..], s, e);
      var own := if InWindow(ps[0], s, e) then [ps[0]] else [];
      StreamConcat(Little, own, Within(ps[1..], s, e));
      assert own == [ps[0]] ==> own[1..] == [];
      assert ps == [ps[0]] + ps[1..];
    }
  }

  const ALWAYS_FROM: int64 := -TWO_63
  const ALWAYS_TO: int64 := TWO_63 - 1

  /** Reading the new file once through the copied entry, over all times, gives the batch. */
  predicate ReadsBack(m: Setting)
    requires HotOk(m)
  {
    ReadBlock(m.lib, ColdBytes(m), HotEntry(m), ALWAYS_FROM, ALWAYS_TO) in {Good(m.batch), Legacy(m.batch)}
  }

  /** A block read over all times tells what it reads as over any range. */
  lemma ReadNarrows(lib: Library, file: seq<byte>, x: IndexEntry, ps: seq<Point>, s: int64, e: int64)
    requires ReadBlock(lib, file, x, ALWAYS_FROM, ALWAYS_TO) in {Good(ps), Legacy(ps)}
    ensures ReadBlock(lib, file, x, s, e) in {Legacy(Within(ps, s, e)), Good(Within(ps, s, e))}
  {
    hide ParseAll, Within, Get32;
    forall qs: seq<Point>
      ensures Within(qs, ALWAYS_FROM, ALWAYS_TO) == qs
    {
      WithinEverything(qs);
    }
  }

  /** The query over all times through the copied entry. */
  lemma FullRangeAnswer(m: Setting)
    requires HotOk(m)
    ensures IndexAnswer(m.lib, ColdBytes(m), [HotEntry(m)], ALWAYS_FROM, ALWAYS_TO) == Some(m.batch) <==> ReadsBack(m)
    ensures Indexed(m, ALWAYS_FROM, ALWAYS_TO) == m.batch
  {
    hide Block, ReadBlock, Within, ColdBytes, IndexAnswer, ScanBlocks, Readable;
    OneEntryQuery(m.lib, ColdBytes(m), HotEntry(m), ALWAYS_FROM, ALWAYS_TO);
    OneBlockScan(m.lib, ColdBytes(m), HotEntry(m), ALWAYS_FROM, ALWAYS_TO);
    WithinEverything(m.batch);
  }

  lemma ReadBackAnswers(m: Setting, s: int64, e: int64)
    requires HotOk(m) && ReadsBack(m)
    ensures IndexAnswer(m.lib, ColdBytes(m), [HotEntry(m)], s, e) == Some(Indexed(m, s, e))
  {
    hide Block, ReadBlock, Within, ColdBytes, IndexAnswer, Indexed, Readable;
    ReadNarrows(m.lib, ColdBytes(m), HotEntry(m), m.batch, s, e);
    BlockAnswers(m, ColdBytes(m), HotEntry(m), s, e);
  }

  /** A move changes no query's answer exactly when the new file, read once through the copied entry, gives the
      batch; whatever the length of the rewrite and the order of the points. */
  lemma MoveKeepsAnswers(m: Setting)
    requires HotOk(m)
    ensures ReadsBack(m) <==>
      forall s: int64, e: int64 ::
        IndexAnswer(m.lib, ColdBytes(m), [HotEntry(m)], s, e) == IndexAnswer(m.lib, HotBytes(m), [HotEntry(m)], s, e)
  {
    hide HotOk, ReadsBack, IndexAnswer, HotEntry, HotBytes, ColdBytes, Indexed;
    FullRangeAnswer(m);
    HotAnswers(m, ALWAYS_FROM, ALWAYS_TO);
    if ReadsBack(m) {
      forall s: int64, e: int64
        ensures IndexAnswer(m.lib, ColdBytes(m), [HotEntry(m)], s, e)
          == IndexAnswer(m.lib, HotBytes(m), [HotEntry(m)], s, e)
      {
        ReadBackAnswers(m, s, e);
        HotAnswers(m, s, e);
      }
    }
  }

  /** After a move queries through the copied index are the filter of the batch for every range exactly when
      the file reads back and the points lie between the first and the last one. */
  lemma MoveExact(m: Setting)
    requires HotOk(m)
    ensures ReadsBack(m) && InOrder(m) <==>
      forall s: int64, e: int64 :: IndexAnswer(m.lib, ColdBytes(m), [HotEntry(m)], s, e) == Some(Within(m.batch, s, e))
  {
    hide HotOk, ReadsBack, IndexAnswer, HotEntry, HotBytes, ColdBytes, Indexed, Within, InOrder;
    SomePoints(m);
    FullRangeAnswer(m);
    IndexedExact(m);
    WithinEverything(m.batch);
    if ReadsBack(m) {
      forall s: int64, e: int64
        ensures IndexAnswer(m.lib, ColdBytes(m), [HotEntry(m)], s, e) == Some(Indexed(m, s, e))
      {
        ReadBackAnswers(m, s, e);
      }
    }
  }

  lemma SomePoints(m: Setting)
    requires HotOk(m)
    ensures m.batch != []
  {
  }

  /** A rewrite that does not grow the file reads back exactly when it was safe. */
  lemma SafeReadsBack(m: Setting)
    requires HotOk(m) && |ColdBytes(m)| <= |HotBytes(m)|
    requires Kept(m) != [] ==> Readable(ColdLibrary(m), m.interval, Kept(m))
    ensures SafeToMove(m) <==> ReadsBack(m)
  {
    hide Readable, Within, FullScan, Stream, Block, ReadBlock, Kept;
    var x := HotEntry(m);
    if |ColdBytes(m)| < |HotBytes(m)| {
      ShortFileFails(m.lib, ColdBytes(m), x, ALWAYS_FROM, ALWAYS_TO);
    } else {
      KeptIsFilter(m);
      WithinAll(m.batch, KEEP_FROM, KEEP_TO);
      WithinEverything(Kept(m));
      StoredRead(m.lib, m.coldEncode, m.interval, Kept(m), x, ALWAYS_FROM, ALWAYS_TO);
    }
  }

  lemma ShortFileFails(lib: Library, file: seq<byte>, x: IndexEntry, s: int64, e: int64)
    requires x.length > |file| && x.offset == 0
    ensures ReadBlock(lib, file, x, s, e) == Failed
  {
  }

  // ----- hot files that are not compressed

  /** A raw hot file: its block is below the size from which blocks are compressed. */
  predicate RawHot(m: Setting) {
    HotOk(m) && !Compresses(m.interval, m.batch)
  }

  /** A raw file is rewritten at its own length if the mover keeps all its points, and at less otherwise. */
  lemma RawRewrite(m: Setting)
    requires RawHot(m)
    ensures SafeToMove(m) <==> TimesKeepable(m)
    ensures TimesKeepable(m) ==> ColdBytes(m) == HotBytes(m) && Readable(ColdLibrary(m), m.interval, m.batch)
    ensures !TimesKeepable(m) ==> |ColdBytes(m)| < |HotBytes(m)|
  {
    hide Within, FullScan, Stream, Kept;
    KeptIsFilter(m);
    WithinAll(m.batch, KEEP_FROM, KEEP_TO);
    FilterShortens(m.batch, KEEP_FROM, KEEP_TO);
    SealedIgnoresEncoder(m.lib, m.coldEncode, m.batch);
  }

  /** So it reads back exactly when the mover keeps all its points. */
  lemma RawReadsBack(m: Setting)
    requires RawHot(m)
    ensures ReadsBack(m) <==> TimesKeepable(m)
  {
    hide Within, Stream, Kept, IndexAnswer, SafeToMove, FullScan, TimesKeepable, Readable, ReadBlock, Block;
    RawRewrite(m);
    if TimesKeepable(m) {
      FullRangeAnswer(m);
      HotAnswers(m, ALWAYS_FROM, ALWAYS_TO);
    } else {
      ShortFileFails(m.lib, ColdBytes(m), HotEntry(m), ALWAYS_FROM, ALWAYS_TO);
    }
  }

  /** Otherwise the query over all times through the copied entry fails. */
  lemma ShortMoveFails(m: Setting)
    requires RawHot(m) && !TimesKeepable(m)
    ensures IndexAnswer(m.lib, ColdBytes(m), [HotEntry(m)], ALWAYS_FROM, ALWAYS_TO) == None
  {
    hide Within, Stream, Kept, IndexAnswer, SafeToMove, FullScan, TimesKeepable, Readable, ReadBlock, Block, ScanBlocks;
    RawRewrite(m);
    ShortFileFails(m.lib, ColdBytes(m), HotEntry(m), ALWAYS_FROM, ALWAYS_TO);
    OneEntryQuery(m.lib, ColdBytes(m), HotEntry(m), ALWAYS_FROM, ALWAYS_TO);
    OneBlockScan(m.lib, ColdBytes(m), HotEntry(m), ALWAYS_FROM, ALWAYS_TO);
  }

  /** The move of a raw file changes no query's answer exactly when all its times are among those that the
      mover keeps, and leaves queries the filter of the batch exactly when, besides, the points lie between
      the first and the last one. */
  lemma RawMoveExact(m: Setting)
    requires RawHot(m)
    ensures TimesKeepable(m) <==>
      forall s: int64, e: int64 ::
        IndexAnswer(m.lib, ColdBytes(m), [HotEntry(m)], s, e) == IndexAnswer(m.lib, HotBytes(m), [HotEntry(m)], s, e)
    ensures TimesKeepable(m) && InOrder(m) <==>
      forall s: int64, e: int64 :: IndexAnswer(m.lib, ColdBytes(m), [HotEntry(m)], s, e) == Some(Within(m.batch, s, e))
  {
    hide IndexAnswer, ReadsBack, TimesKeepable, InOrder, ColdBytes, HotBytes, Within, HotEntry;
    RawReadsBack(m);
    MoveKeepsAnswers(m);
    MoveExact(m);
  }

  /** Two points that arrived out of time order: the move is safe, yet neither the hot nor the cold file
      answers for the time of the first. */
  lemma UnorderedRawMove(m: Setting)
    requires RawHot(m) && m.batch == [Point(5, []), Point(3, [])]
    ensures TimesKeepable(m) && !InOrder(m)
    ensures IndexAnswer(m.lib, HotBytes(m), [HotEntry(m)], 5, 5) == Some([])
    ensures IndexAnswer(m.lib, ColdBytes(m), [HotEntry(m)], 5, 5) == Some([])
    ensures Within(m.batch, 5, 5) == [Point(5, [])]
  {
    hide IndexAnswer, Block, FullScan, Stream, Readable;
    assert HotLog(m)[0].points[0].ts == 5;
    HotAnswers(m, 5, 5);
    RawReadsBack(m);
    ReadBackAnswers(m, 5, 5);
    assert m.batch[1..] == [Point(3, [])] && [Point(3, [])][1..] == [];
  }
}
