/** recompressCold: reads a hot file whole and writes what it keeps through a day writer of its own. */
module Recompress {
  import opened Bytes
  import opened Points
  import opened IndexFile
  import opened Blocks
  import opened Reader
  import opened Tiering
  import opened WriterProtocol
  import opened DayWriters

  /** The temporary writer's configuration: the mover's compression level in place of the store's. */
  function ColdConfig(m: Setting, batchSize: nat): Config {
    Config(ColdLibrary(m), m.interval, batchSize)
  }

  /** The temporary file holds the block that the analysis of the move speaks of, whether or not the
      writer's goroutine was woken by a tick or the token before the writer is closed. */
  method RecompressCold(m: Setting, batchSize: nat) returns (w: DayWriter)
    requires |ColdBytes(m)| < TWO_63
    ensures fresh(w) && w.data == ColdBytes(m) && w.phase == Exited && w.buffer == []
    ensures LogPoints(w.log) == w.accepted == Kept(m)
    ensures var x := Stream(Little, Kept(m)); var y := x + Put(Little, m.lib.crc(x), 4);
      w.data == if Kept(m) == [] then [] else if |x| >= m.interval then m.coldEncode(y) else y
  {
    BlockBytes(ColdLibrary(m), m.interval, Kept(m));
    hide Stream, Put;
    hide Inv, Block, FullScan, Do, FlushEnd, LogPoints, EntryBytes, DayWriter.Valid, EntryOf, Indexable;
    var points := QueryWhole(m.lib, HotBytes(m), KEEP_FROM, KEEP_TO);
    ghost var c := ColdConfig(m, batchSize);
    InitInv(c);
    w := new DayWriter(ColdConfig(m, batchSize), "", 0, [], [], INIT);
    w.WriteBatch(points);
    assert [] + points == points;
    if * {
      Wakes(c, w.Model());
      w.FlushOnTick();
    } else if w.token {
      Wakes(c, w.Model());
      w.FlushOnToken();
    }
    Closes(c, w.Model());
    w.CloseAndWait();
    OneBatchLogged(points, w.log);
  }

  /** A flush before the close. */
  lemma Wakes(c: Config, s: State)
    requires HasRoom(c, s) && s.live.value.phase.Idle? && s.live.value.offset == |s.data|
    ensures Ended(c, s, FlushEnd(c, Do(c, s, TickWake)), Idle)
    ensures s.live.value.token ==> Ended(c, s, FlushEnd(c, Do(c, s, TokenWake)), Idle)
  {
    hide Block, FlushEnd, EntryBytes, EntryOf, Indexable;
    FlushEndMeans(c, Do(c, s, TickWake));
    if s.live.value.token {
      FlushEndMeans(c, Do(c, s, TokenWake));
    }
  }

  /** The closing flush. */
  lemma Closes(c: Config, s: State)
    requires HasRoom(c, s) && s.live.value.phase.Idle? && !s.live.value.closing && s.live.value.offset == |s.data|
    ensures Ended(c, s, FlushEnd(c, Do(c, Do(c, s, Close), CloseWake)), Exited)
  {
    hide Block, FlushEnd, EntryBytes, EntryOf, Indexable;
    FlushEndMeans(c, Do(c, Do(c, s, Close), CloseWake));
  }

  /** From s to t the writer moved its buffer, if it had one, to the end of its file. */
  ghost predicate Ended(c: Config, s: State, t: State, phase: Phase) {
    && s.live.Some? && t.live.Some?
    && t.live.value.buffer == [] && t.live.value.phase == phase && t.live.value.offset == |t.data|
    && (phase.Idle? ==> t.live.value.closing == s.live.value.closing)
    && t.accepted == s.accepted
    && var buffer := s.live.value.buffer;
       if buffer == [] then t.log == s.log && t.data == s.data
       else t.log == s.log + [Placed(buffer, |s.data|)] && t.data == s.data + Block(c.lib, c.interval, buffer)
  }

  lemma OneBatchLogged(points: seq<Point>, log: seq<Placed>)
    requires log == if points == [] then [] else [Placed(points, 0)]
    ensures LogPoints(log) == points
  {
    if points != [] {
      assert log[1..] == [] && points + [] == points;
    }
  }
}
