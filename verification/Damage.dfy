/** What a damaged block does to a query: it adds nothing, and the other blocks' points still come back. */
module Damage {
  import opened Bytes
  import opened Points
  import opened IndexFile
  import opened Blocks
  import opened Reader
  import opened IndexQuery
  import opened IndexExact

  /** The last four bytes are not the checksum of the others. */
  predicate BadSum(lib: Library, d: seq<byte>) {
    |d| < 4 || Get32(Little, d[|d| - 4..]) != lib.crc(d[..|d| - 4])
  }

  /** The file holds the whole span that the entry names. */
  predicate InFile(file: seq<byte>, x: IndexEntry) {
    x.length >= 0 && x.offset >= 0 && (x.length == 0 || x.offset + x.length <= |file|)
  }

  /** The bytes that the entry names. */
  function Named(file: seq<byte>, x: IndexEntry): (b: seq<byte>)
    requires InFile(file, x)
    ensures |b| == x.length
    ensures x.length > 0 ==> b == file[x.offset..x.offset + x.length]
  {
    if x.length == 0 then [] else file[x.offset..x.offset + x.length]
  }

  /** The span decompresses to contents with a bad checksum, or does not decompress, is not taken for a legacy
      block, and has one itself. */
  predicate Damaged(lib: Library, file: seq<byte>, x: IndexEntry) {
    && InFile(file, x)
    && match lib.decodeAll(Named(file, x))
       case Some(d) => BadSum(lib, d)
       case None => x.crc != 0 && BadSum(lib, Named(file, x))
  }

  /** The four ways in which a block is read, by the bytes that its entry names. */
  lemma BlockReadExact(lib: Library, file: seq<byte>, x: IndexEntry, s: int64, e: int64)
    ensures ReadBlock(lib, file, x, s, e) == Failed <==> !InFile(file, x)
    ensures ReadBlock(lib, file, x, s, e) == Skipped <==> Damaged(lib, file, x)
    ensures ReadBlock(lib, file, x, s, e).Legacy? <==>
      InFile(file, x) && lib.decodeAll(Named(file, x)) == None && x.crc == 0
    ensures ReadBlock(lib, file, x, s, e).Legacy? ==>
      ReadBlock(lib, file, x, s, e).points == Within(ParseAll(Little, Named(file, x)), s, e)
    ensures ReadBlock(lib, file, x, s, e).Good? ==>
      var raw := Named(file, x); var d := if lib.decodeAll(raw) == None then raw else lib.decodeAll(raw).value;
      && !BadSum(lib, d)
      && ReadBlock(lib, file, x, s, e).points == Within(ParseAll(Little, d[..|d| - 4]), s, e)
  {
    hide ParseAll, Within, Get32;
  }

  /** The entries of undamaged blocks. */
  function Sound(lib: Library, file: seq<byte>, xs: seq<IndexEntry>): seq<IndexEntry> {
    if xs == [] then [] else (if Damaged(lib, file, xs[0]) then [] else [xs[0]]) + Sound(lib, file, xs[1..])
  }

  /** Damaged blocks might as well not be listed. */
  lemma {:induction false} ScanSkipsDamaged(lib: Library, file: seq<byte>, xs: seq<IndexEntry>, s: int64, e: int64)
    ensures ScanBlocks(lib, file, xs, s, e) == ScanBlocks(lib, file, Sound(lib, file, xs), s, e)
  {
    hide ReadBlock, Damaged;
    if xs != [] {
      BlockReadExact(lib, file, xs[0], s, e);
      ScanSkipsDamaged(lib, file, xs[1..], s, e);
      var rest := Sound(lib, file, xs[1..]);
      assert ([xs[0]] + rest)[1..] == rest && [] + rest == rest;
    }
  }

  /** The points of the blocks that are read as good, in order. */
  function GoodPoints(lib: Library, file: seq<byte>, xs: seq<IndexEntry>, s: int64, e: int64): seq<Point> {
    if xs == [] then []
    else
      (if ReadBlock(lib, file, xs[0], s, e).Good? then ReadBlock(lib, file, xs[0], s, e).points else [])
      + GoodPoints(lib, file, xs[1..], s, e)
  }

  /** Good or skipped. */
  predicate GoesOn(lib: Library, file: seq<byte>, x: IndexEntry, s: int64, e: int64) {
    ReadBlock(lib, file, x, s, e).Good? || ReadBlock(lib, file, x, s, e).Skipped?
  }

  /** What a query makes of the blocks it picked: all good points if the scan gets to the end; an error if it
      comes to a span outside the file, and a legacy block's points alone if it comes to one. */
  lemma {:induction false} ScanMeans(lib: Library, file: seq<byte>, xs: seq<IndexEntry>, k: nat, s: int64, e: int64)
    requires k <= |xs| && forall i :: 0 <= i < k ==> GoesOn(lib, file, xs[i], s, e)
    ensures var answer := ScanResult(ScanBlocks(lib, file, xs, s, e));
      && (k == |xs| ==> answer == Some(GoodPoints(lib, file, xs, s, e)))
      && (k < |xs| && ReadBlock(lib, file, xs[k], s, e) == Failed ==> answer == None)
      && (k < |xs| && ReadBlock(lib, file, xs[k], s, e).Legacy? ==>
            answer == Some(ReadBlock(lib, file, xs[k], s, e).points))
  {
    hide ReadBlock;
    ScanOutcome(lib, file, xs, k, s, e);
  }

  lemma {:induction false} ScanOutcome(lib: Library, file: seq<byte>, xs: seq<IndexEntry>, k: nat, s: int64, e: int64)
    requires k <= |xs| && forall i :: 0 <= i < k ==> GoesOn(lib, file, xs[i], s, e)
    ensures var scan := ScanBlocks(lib, file, xs, s, e);
      if k == |xs| then scan == Finished(GoodPoints(lib, file, xs, s, e))
      else match ReadBlock(lib, file, xs[k], s, e)
           case Failed => scan == ReadError
           case Legacy(ps) => scan == Stopped(ps)
           case _ => true
    decreases k
  {
    hide ReadBlock;
    if k > 0 {
      assert GoesOn(lib, file, xs[0], s, e);
      assert forall i :: 0 <= i < |xs| - 1 ==> xs[1..][i] == xs[i + 1];
      assert k < |xs| ==> xs[1..][k - 1] == xs[k];
      ScanOutcome(lib, file, xs[1..], k - 1, s, e);
      var rest := GoodPoints(lib, file, xs[1..], s, e);
      assert [] + rest == rest;
    }
  }

  // ----- over the batches of a log

  /** The batches whose blocks are not damaged. */
  function Intact(lib: Library, interval: int, file: seq<byte>, log: seq<Placed>): (r: seq<Placed>)
    requires AllIndexable(lib, interval, log)
    ensures forall p :: p in r ==> p in log && !Damaged(lib, file, EntryOf(lib, interval, p))
  {
    if log == [] then []
    else
      (if Damaged(lib, file, EntryOf(lib, interval, log[0])) then [] else [log[0]])
      + Intact(lib, interval, file, log[1..])
  }

  lemma {:induction false} SoundEntries(lib: Library, interval: int, file: seq<byte>, log: seq<Placed>)
    requires AllIndexable(lib, interval, log)
    ensures AllIndexable(lib, interval, Intact(lib, interval, file, log))
    ensures Sound(lib, file, Entries(lib, interval, log)) == Entries(lib, interval, Intact(lib, interval, file, log))
  {
    hide EntryOf, Indexable, Damaged;
    if log != [] {
      SoundEntries(lib, interval, file, log[1..]);
      assert Entries(lib, interval, log)[1..] == Entries(lib, interval, log[1..]);
      var rest := Intact(lib, interval, file, log[1..]);
      assert ([log[0]] + rest)[1..] == rest && [] + rest == rest;
    }
  }

  /** Each block is either intact, readable and not taken for legacy, or damaged. */
  predicate StoredOrDamaged(lib: Library, interval: int, file: seq<byte>, log: seq<Placed>)
    requires AllIndexable(lib, interval, log)
  {
    forall i :: 0 <= i < |log| ==>
      || Damaged(lib, file, EntryOf(lib, interval, log[i]))
      || (Stored(lib, interval, file, log[i]) && Readable(lib, interval, log[i].points)
          && !LooksLegacy(lib, interval, log[i].points))
  }

  /** The selection loses nothing of the intact blocks. */
  lemma {:induction false} IntactPicked(lib: Library, interval: int, file: seq<byte>, log: seq<Placed>, s: int64,
    e: int64)
    requires NonEmpty(log) && Bracketed(log) && StartsInOrder(log) && AllIndexable(lib, interval, log)
    ensures AllIndexable(lib, interval, Picked(log, s, e))
    ensures Within(LogPoints(Intact(lib, interval, file, Picked(log, s, e))), s, e)
      == Within(LogPoints(Intact(lib, interval, file, log)), s, e)
  {
    hide Within, Damaged, EntryOf, Indexable, Bracketed, StartsInOrder, Intact, LogPoints;
    IntactNone(lib, interval, file, s, e);
    PickedIndexable(lib, interval, log, s, e);
    if log != [] {
      if First(log[0]) > e {
        IntactAfter(lib, interval, file, log, s, e);
      } else {
        BracketedTail(log);
        IntactPicked(lib, interval, file, log[1..], s, e);
        IntactCons(lib, interval, file, log[0], log[1..], s, e);
        var picked := Picked(log[1..], s, e);
        assert log == [log[0]] + log[1..] && [] + picked == picked;
        if Last(log[0]) >= s {
          IntactCons(lib, interval, file, log[0], picked, s, e);
        } else {
          HeadOutside(log, s, e);
        }
      }
    }
  }

  lemma PickedIndexable(lib: Library, interval: int, log: seq<Placed>, s: int64, e: int64)
    requires NonEmpty(log) && AllIndexable(lib, interval, log)
    ensures AllIndexable(lib, interval, Picked(log, s, e))
  {
    hide Indexable, Picked;
    var picked := Picked(log, s, e);
    forall i | 0 <= i < |picked|
      ensures Indexable(lib, interval, picked[i])
    {
      assert picked[i] in log;
    }
  }

  lemma IntactNone(lib: Library, interval: int, file: seq<byte>, s: int64, e: int64)
    ensures Within(LogPoints(Intact(lib, interval, file, [])), s, e) == []
  {
  }

  lemma IntactCons(lib: Library, interval: int, file: seq<byte>, p: Placed, log: seq<Placed>, s: int64, e: int64)
    requires Indexable(lib, interval, p) && AllIndexable(lib, interval, log) && AllIndexable(lib, interval, [p] + log)
    ensures Within(LogPoints(Intact(lib, interval, file, [p] + log)), s, e)
      == (if Damaged(lib, file, EntryOf(lib, interval, p)) then [] else Within(p.points, s, e))
         + Within(LogPoints(Intact(lib, interval, file, log)), s, e)
  {
    hide Within, Damaged, EntryOf, Indexable;
    assert ([p] + log)[1..] == log;
    var rest := Intact(lib, interval, file, log);
    WithinConcat(p.points, LogPoints(rest), s, e);
    assert ([p] + rest)[1..] == rest && [] + rest == rest;
  }

  lemma HeadOutside(log: seq<Placed>, s: int64, e: int64)
    requires log != [] && NonEmpty(log) && Bracketed(log) && Last(log[0]) < s
    ensures Within(log[0].points, s, e) == []
  {
    WithinNone(log[0].points, s, e);
  }

  lemma {:induction false} IntactAfter(lib: Library, interval: int, file: seq<byte>, log: seq<Placed>, s: int64,
    e: int64)
    requires log != [] && NonEmpty(log) && Bracketed(log) && StartsInOrder(log) && AllIndexable(lib, interval, log)
    requires First(log[0]) > e || forall i :: 0 <= i < |log| ==> Last(log[i]) < s
    ensures Within(LogPoints(Intact(lib, interval, file, log)), s, e) == []
  {
    hide Within, Damaged, EntryOf, Indexable;
    NothingWithin(s, e);
    WithinNone(log[0].points, s, e);
    BracketedTail(log);
    assert log == [log[0]] + log[1..];
    IntactCons(lib, interval, file, log[0], log[1..], s, e);
    if log[1..] != [] {
      IntactAfter(lib, interval, file, log[1..], s, e);
    }
  }

  /** Nothing intact is dropped in front of the block that the search starts with. */
  lemma IntactDropped(lib: Library, interval: int, file: seq<byte>, log: seq<Placed>, r: nat, s: int64, e: int64)
    requires r <= |log| && NonEmpty(log) && Bracketed(log) && StartsInOrder(log) && AllIndexable(lib, interval, log)
    requires forall i :: 0 <= i < r ==> Last(log[i]) < s
    ensures AllIndexable(lib, interval, log[r..]) && Bracketed(log[r..]) && StartsInOrder(log[r..])
    ensures Within(LogPoints(Intact(lib, interval, file, log)), s, e)
      == Within(LogPoints(Intact(lib, interval, file, log[r..])), s, e)
    decreases r
  {
    hide Within, Damaged, EntryOf, Indexable, Bracketed, StartsInOrder, Intact, LogPoints;
    assert log[0..] == log;
    if r > 0 {
      BracketedTail(log);
      HeadOutside(log, s, e);
      assert log == [log[0]] + log[1..] && log[1..][r - 1..] == log[r..];
      assert forall i :: 0 <= i < r - 1 ==> log[1..][i] == log[i + 1];
      IntactDropped(lib, interval, file, log[1..], r - 1, s, e);
      IntactCons(lib, interval, file, log[0], log[1..], s, e);
      var rest := Within(LogPoints(Intact(lib, interval, file, log[1..])), s, e);
      assert [] + rest == rest;
    }
  }

  /** On a file some of whose blocks are damaged an index query returns, for every range, the filter of all the
      other blocks' points: damaged ones add nothing and cost no others. */
  lemma DamageStaysLocal(lib: Library, interval: int, file: seq<byte>, log: seq<Placed>, s: int64, e: int64)
    requires AllIndexable(lib, interval, log) && NonEmpty(log)
    requires StoredOrDamaged(lib, interval, file, log)
    requires Bracketed(log) && StartsInOrder(log) && SearchReaches(log)
    ensures IndexAnswer(lib, file, Entries(lib, interval, log), s, e)
      == Some(Within(LogPoints(Intact(lib, interval, file, log)), s, e))
  {
    hide Within, Damaged, EntryOf, Indexable, Bracketed, StartsInOrder, SearchReaches, StoredOrDamaged, ScanBlocks,
      Relevant, Picked, StartBlock, LogPoints;
    LogBoundsAreEntries(lib, interval, log);
    var r := StartBlock(log, s);
    assert r == Found(BoundsOf(Entries(lib, interval, log)), s) by { StartIsFound(log, s); }
    EarlierBlocks(log, s);
    IntactDropped(lib, interval, file, log, r, s, e);
    var rest := log[r..];
    assert Entries(lib, interval, log)[r..] == Entries(lib, interval, rest);
    SelectsPicked(lib, interval, rest, s, e);
    var picked := Picked(rest, s, e);
    IntactPicked(lib, interval, file, rest, s, e);
    ScanSkipsDamaged(lib, file, Entries(lib, interval, picked), s, e);
    SoundEntries(lib, interval, file, picked);
    PickedStored(lib, interval, file, log, picked);
    var intact := Intact(lib, interval, file, picked);
    ScansStored(lib, interval, file, intact, s, e);
  }

  lemma StartIsFound(log: seq<Placed>, s: int64)
    requires NonEmpty(log)
    ensures StartBlock(log, s) == Found(LogBounds(log), s)
  {
  }

  lemma PickedStored(lib: Library, interval: int, file: seq<byte>, log: seq<Placed>, picked: seq<Placed>)
    requires AllIndexable(lib, interval, log) && StoredOrDamaged(lib, interval, file, log)
    requires AllIndexable(lib, interval, picked) && forall p :: p in picked ==> p in log
    ensures var intact := Intact(lib, interval, file, picked);
      AllStored(lib, interval, file, intact) && AllReadable(lib, interval, intact)
      && FirstLegacy(lib, interval, intact) == None
  {
    hide Stored, Readable, LooksLegacy, Damaged, EntryOf, Indexable;
    var intact := Intact(lib, interval, file, picked);
    forall i | 0 <= i < |intact|
      ensures Stored(lib, interval, file, intact[i]) && Readable(lib, interval, intact[i].points)
        && !LooksLegacy(lib, interval, intact[i].points)
    {
      assert intact[i] in picked && intact[i] in log;
      var j :| 0 <= j < |log| && log[j] == intact[i];
    }
  }
}
