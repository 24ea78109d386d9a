/** The day writer as an object: WriteBatch fills its buffer, flush turns the buffer into a block and an
    index entry. Every method is tied to the events of the writer protocol. */
module DayWriters {
  import opened Bytes
  import opened Points
  import opened IndexFile
  import opened Blocks
  import opened WriterProtocol

  /** The encoding half of flush: records, checksum, and compression from the interval on. */
  method EncodeBlock(lib: Library, interval: int, points: seq<Point>) returns (block: seq<byte>, crc: u32)
    ensures block == Block(lib, interval, points)
    ensures crc == lib.crc(Stream(Little, points))
    ensures var x := Stream(Little, points); var y := x + Put(Little, lib.crc(x), 4);
      && (|x| >= interval ==> block == lib.encodeAll(y))
      && (|x| < interval ==> block == y)
  {
    hide Record, Stream;
    var raw: seq<byte> := [];
    EmptyStream();
    for i := 0 to |points|
      invariant raw == Stream(Little, points[..i])
    {
      var encoded := EncodePoint(points[i]);
      StreamStep(points, i);
      raw := raw + encoded[..];
    }
    assert points[..|points|] == points;
    crc := lib.crc(raw);
    var withCrc := new byte[|raw| + 4];
    forall j | 0 <= j < |raw| {
      withCrc[j] := raw[j];
    }
    assert withCrc[..|raw|] == raw;
    PutAt(withCrc, |raw|, Little, crc, 4);
    assert withCrc[..] == withCrc[..|raw| + 4];
    if |raw| >= interval {
      block := lib.encodeAll(withCrc[..]);
    } else {
      block := withCrc[..];
    }
  }

  lemma EmptyStream()
    ensures Stream(Little, []) == []
  {
  }

  lemma StreamStep(points: seq<Point>, i: nat)
    requires i < |points|
    ensures Stream(Little, points[..i + 1]) == Stream(Little, points[..i]) + Record(Little, points[i])
  {
    hide Record;
    assert points[..i + 1] == points[..i] + [points[i]];
    StreamConcat(Little, points[..i], [points[i]]);
    assert [points[i]][1..] == [];
  }

  /** The 36 bytes of an index entry, filled field by field. */
  method EncodeEntry(x: IndexEntry) returns (buf: array<byte>)
    ensures fresh(buf) && buf[..] == EntryBytes(x)
  {
    hide Put;
    buf := new byte[36];
    PutAt(buf, 0, Little, U64(x.start), 8);
    PutAt(buf, 8, Little, U64(x.end), 8);
    PutAt(buf, 16, Little, U64(x.offset), 8);
    PutAt(buf, 24, Little, U64(x.length), 8);
    PutAt(buf, 32, Little, x.crc, 4);
    assert buf[..] == buf[..36];
  }

  class DayWriter {
    const c: Config
    const device: string
    const day: int

    // the open files
    var data: seq<byte>
    var index: seq<byte>

    // the writer's own fields
    var buffer: seq<Point>
    var indexes: seq<IndexEntry>
    var currentOffset: nat
    var token: bool
    var closing: bool

    // the flush goroutine's place, and the history
    ghost var phase: Phase
    ghost var log: seq<Placed>
    ghost var base: nat
    ghost var accepted: seq<Point>
    ghost var orphans: bool
    ghost var scraps: seq<seq<byte>>

    /** The protocol state that the fields represent. */
    ghost function Model(): State
      reads this
    {
      State(data, index, Some(Live(buffer, token, closing, phase, currentOffset)), log, base, accepted, orphans, scraps)
    }

    ghost predicate Valid()
      reads this
    {
      && Inv(c, Model())
      && base <= |log|
      && AllIndexable(c.lib, c.interval, log[base..])
      && indexes == Entries(c.lib, c.interval, log[base..])
    }

    /** The file system has room for the block that a flush would append. */
    ghost predicate Room()
      reads this
    {
      HasRoom(c, Model())
    }

    /** NewDayWriter: opens both files for appending and starts behind what is there. */
    constructor (c: Config, device: string, day: int, data: seq<byte>, index: seq<byte>, ghost before: State)
      requires Inv(c, before) && before.live.None? && before.data == data && before.index == index
      ensures Valid() && this.c == c && this.device == device && this.day == day
      ensures Model() == Apply(c, before, Reopen)
      ensures this.data == data && this.index == index && currentOffset == |data| && !token
      ensures phase == Idle && !closing && buffer == accepted == []
      ensures log == before.log && base == |log| && scraps == before.scraps
    {
      hide Inv, Entries, AllIndexable;
      NoEntriesYet(c);
      this.c, this.device, this.day := c, device, day;
      this.data, this.index := data, index;
      buffer, indexes, currentOffset, token, closing := [], [], |data|, false, false;
      phase, log, base, accepted := Idle, before.log, |before.log|, [];
      orphans, scraps := before.orphans, before.scraps;
      new;
      StepKeepsInv(c, before, Reopen);
      assert before.log[|before.log|..] == [];
    }

    /** WriteBatch: appends under the buffer lock and offers the wake-up token. */
    method WriteBatch(points: seq<Point>)
      requires Valid()
      modifies this
      ensures Valid() && Model() == Apply(c, old(Model()), Accept(points))
      ensures buffer == old(buffer) + points && accepted == old(accepted) + points
      ensures token <==> old(token) || (points != [] && |buffer| >= c.batchSize)
      ensures unchanged(`data, `index, `indexes, `currentOffset, `closing, `phase, `log, `base, `scraps)
    {
      hide Inv;
      StepKeepsInv(c, Model(), Accept(points));
      if |points| == 0 {
        assert buffer + points == buffer && accepted + points == accepted;
        return;
      }
      buffer := buffer + points;
      accepted := accepted + points;
      if |buffer| >= c.batchSize {
        token := true;
      }
    }

    /** One turn of the flush loop on a wake-up token. */
    method FlushOnToken()
      requires Valid() && phase == Idle && token && Room()
      modifies this
      ensures Valid() && Model() == FlushEnd(c, Do(c, old(Model()), TokenWake))
      ensures phase == Idle && buffer == [] && !token && closing == old(closing) && accepted == old(accepted)
      ensures log == old(log) + (if old(buffer) == [] then [] else [Placed(old(buffer), |old(data)|)])
    {
      hide Inv, FlushEnd, Block, EntryBytes, EntryOf, Indexable;
      IdleAtEnd(c, Model());
      FlushEndMeans(c, Do(c, Model(), TokenWake));
      DoKeepsInv(c, Model(), TokenWake);
      token := false;
      phase := Woken(false);
      Flush();
    }

    /** One turn of the flush loop on a tick. */
    method FlushOnTick()
      requires Valid() && phase == Idle && Room()
      modifies this
      ensures Valid() && Model() == FlushEnd(c, Do(c, old(Model()), TickWake))
      ensures phase == Idle && buffer == [] && token == old(token) && closing == old(closing)
      ensures accepted == old(accepted)
      ensures log == old(log) + (if old(buffer) == [] then [] else [Placed(old(buffer), |old(data)|)])
    {
      hide Inv, FlushEnd, Block, EntryBytes, EntryOf, Indexable;
      IdleAtEnd(c, Model());
      FlushEndMeans(c, Do(c, Model(), TickWake));
      DoKeepsInv(c, Model(), TickWake);
      phase := Woken(false);
      Flush();
    }

    /** Close, up to the end of the flush goroutine it waits for. */
    method CloseAndWait()
      requires Valid() && phase == Idle && !closing && Room()
      modifies this
      ensures Valid() && Model() == FlushEnd(c, Do(c, Do(c, old(Model()), Close), CloseWake))
      ensures phase == Exited && buffer == [] && closing && accepted == old(accepted)
      ensures log == old(log) + (if old(buffer) == [] then [] else [Placed(old(buffer), |old(data)|)])
    {
      hide Inv, FlushEnd, Block, EntryBytes, EntryOf, Indexable;
      IdleAtEnd(c, Model());
      FlushEndMeans(c, Do(c, Do(c, Model(), Close), CloseWake));
      DoKeepsInv(c, Model(), Close);
      closing := true;
      DoKeepsInv(c, Model(), CloseWake);
      phase := Woken(true);
      Flush();
    }

    /** flush: takes the buffer, appends the block, appends its index entry, moves the offset. */
    method Flush()
      requires Valid() && phase.Woken? && Room()
      modifies this
      ensures Valid() && Model() == FlushEnd(c, old(Model()))
    {
      hide Inv, FlushEnd, Do, Block, EntryBytes, EntryOf, LogPoints, AllIndexable, Entries, Back, Indexable;
      ghost var before := Model();
      FlushEndKeepsInv(c, before);
      OffsetAtEnd(c, before);
      FlushEndMeans(c, before);
      var points := buffer;
      buffer := [];
      if |points| > 0 {
        FlushedEntries(c, log, base, Placed(points, currentOffset));
        phase := Took(points, phase.last);
        log := log + [Placed(points, currentOffset)];
        scraps := scraps + [[]];
        WriteBlock(points);
      }
      phase := Back(phase.last);
      assert Model() == FlushEnd(c, before);
    }

    /** The file half of flush, under the file lock. */
    method WriteBlock(points: seq<Point>)
      requires Indexable(c.lib, c.interval, Placed(points, currentOffset)) && phase.Took?
      modifies this`data, this`index, this`indexes, this`currentOffset, this`phase
      ensures var block := Block(c.lib, c.interval, points);
        var x := EntryOf(c.lib, c.interval, Placed(points, old(currentOffset)));
        && data == old(data) + block
        && index == old(index) + EntryBytes(x)
        && indexes == old(indexes) + [x]
        && currentOffset == old(currentOffset) + |block|
        && phase == Indexed(|block|, old(phase.last))
    {
      hide Block, EntryBytes;
      var block, crc := EncodeBlock(c.lib, c.interval, points);
      var offset := currentOffset;
      data := data + block;
      var n := |block|;
      phase := Wrote(points, n, phase.last);
      var x := IndexEntry(points[0].ts, points[|points| - 1].ts, offset, n, crc);
      indexes := indexes + [x];
      var entry := EncodeEntry(x);
      index := index + entry[..];
      phase := Indexed(n, phase.last);
      currentOffset := currentOffset + n;
    }
  }

  lemma NoEntriesYet(c: Config)
    ensures AllIndexable(c.lib, c.interval, []) && Entries(c.lib, c.interval, []) == []
  {
  }

  lemma IdleAtEnd(c: Config, s: State)
    requires Inv(c, s) && s.live.Some? && s.live.value.phase.Idle?
    ensures s.live.value.offset == |s.data|
  {
  }

  lemma OffsetAtEnd(c: Config, s: State)
    requires Inv(c, s) && s.live.Some? && s.live.value.phase.Woken?
    ensures s.live.value.offset == |s.data| && s.base <= |s.log|
  {
  }

  lemma FlushedEntries(c: Config, log: seq<Placed>, base: nat, p: Placed)
    requires base <= |log| && AllIndexable(c.lib, c.interval, log[base..]) && Indexable(c.lib, c.interval, p)
    ensures AllIndexable(c.lib, c.interval, (log + [p])[base..])
    ensures Entries(c.lib, c.interval, (log + [p])[base..])
      == Entries(c.lib, c.interval, log[base..]) + [EntryOf(c.lib, c.interval, p)]
  {
    assert (log + [p])[base..] == log[base..] + [p];
    EntriesSnoc(c.lib, c.interval, log[base..], p);
  }
}
