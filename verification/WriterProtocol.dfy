/** One day writer as a state machine: callers, the flush goroutine, its wake-up channel, the two files,
    crashes and reopenings. Each event is one atomic step of the program. */
module WriterProtocol {
  import opened Bytes
  import opened Points
  import opened IndexFile
  import opened Blocks
  import opened Reader
  import opened IndexQuery

  datatype Config = Config(lib: Library, interval: int, batchSize: nat)

  /** Where the flush goroutine stands; `last` marks the flush that close asks for. */
  datatype Phase =
    | Idle
    | Woken(last: bool)
    | Took(batch: seq<Point>, last: bool)
    | Wrote(batch: seq<Point>, size: int64, last: bool)
    | Indexed(size: int64, last: bool)
    | Exited

  /** The volatile half: lost in a crash. */
  datatype Live = Live(buffer: seq<Point>, token: bool, closing: bool, phase: Phase, offset: nat)

  /** The two files, the writer if one is open, and what has happened so far: the batches indexed on
      disk, how many of them were there when this writer opened, the points it accepted, whether any crash
      left bytes in the data file that no index entry names, and what torn appends left in the index file
      before each entry and behind the last. */
  datatype State = State(
    data: seq<byte>, index: seq<byte>, live: Option<Live>,
    log: seq<Placed>, base: nat, accepted: seq<Point>, orphans: bool, scraps: seq<seq<byte>>)

  datatype Event =
    | Accept(points: seq<Point>)  // WriteBatch, under the buffer lock
    | TokenWake                   // flushLoop receives from flushChan
    | TickWake                    // flushLoop receives a tick
    | CloseWake                   // flushLoop sees closeChan closed
    | Take                        // flush copies and empties the buffer, under its lock
    | WriteData                   // flush appends and syncs the block
    | AppendIndex                 // flush appends the index entry
    | Advance                     // flush moves currentOffset
    | Close                       // Close closes closeChan
    | Exit                        // Close returns, both files are closed
    | Crash(torn: nat)            // power fails, maybe inside the write of block or entry
    | Reopen                      // NewDayWriter on the same files

  /** Two files that do not exist yet read as empty; the first event opens the writer. */
  const INIT := State([], [], None, [], 0, [], false, [[]])

  function Fresh(size: nat): Live {
    Live([], false, false, Idle, size)
  }

  function Back(last: bool): Phase {
    if last then Exited else Idle
  }

  /** The block in the data file can be described by an index entry. */
  predicate CanIndex(c: Config, w: Live) {
    w.phase.Wrote? && w.phase.batch != [] && w.offset + |Block(c.lib, c.interval, w.phase.batch)| < TWO_63
  }

  predicate Enabled(c: Config, s: State, ev: Event) {
    if s.live.None? then ev.Reopen?
    else
      var w := s.live.value;
      match ev
      case Accept(_) => true
      case TokenWake => w.phase.Idle? && w.token
      case TickWake => w.phase.Idle?
      case CloseWake => w.phase.Idle? && w.closing
      case Take => w.phase.Woken?
      case WriteData => w.phase.Took? && |s.data| + |Block(c.lib, c.interval, w.phase.batch)| < TWO_63
      case AppendIndex => CanIndex(c, w)
      case Advance => w.phase.Indexed? && w.phase.size >= 0
      case Close => !w.closing
      case Exit => w.phase.Exited?
      case Crash(torn) =>
        || torn == 0
        || (w.phase.Took? && torn <= |Block(c.lib, c.interval, w.phase.batch)| && |s.data| + torn < TWO_63)
        || (torn < 36 && CanIndex(c, w))
      case Reopen => false
  }

  function Apply(c: Config, s: State, ev: Event): State
    requires Enabled(c, s, ev)
  {
    if s.live.None? then s.(live := Some(Fresh(|s.data|)), base := |s.log|, accepted := [])
    else
      var w := s.live.value;
      match ev
      case Accept(points) =>
        var buffer := w.buffer + points;
        var token := w.token || (points != [] && |buffer| >= c.batchSize);
        s.(live := Some(w.(buffer := buffer, token := token)), accepted := s.accepted + points)
      case TokenWake => s.(live := Some(w.(token := false, phase := Woken(false))))
      case TickWake => s.(live := Some(w.(phase := Woken(false))))
      case CloseWake => s.(live := Some(w.(phase := Woken(true))))
      case Take =>
        var phase := if w.buffer == [] then Back(w.phase.last) else Took(w.buffer, w.phase.last);
        s.(live := Some(w.(buffer := [], phase := phase)))
      case WriteData =>
        var block := Block(c.lib, c.interval, w.phase.batch);
        s.(data := s.data + block, live := Some(w.(phase := Wrote(w.phase.batch, |block|, w.phase.last))))
      case AppendIndex =>
        var p := Placed(w.phase.batch, w.offset);
        s.(index := s.index + EntryBytes(EntryOf(c.lib, c.interval, p).(length := w.phase.size)),
           log := s.log + [p],
           scraps := s.scraps + [[]],
           live := Some(w.(phase := Indexed(w.phase.size, w.phase.last))))
      case Advance => s.(live := Some(w.(offset := w.offset + w.phase.size, phase := Back(w.phase.last))))
      case Close => s.(live := Some(w.(closing := true)))
      case Exit => s.(live := None)
      case Crash(torn) =>
        var block := if torn > 0 && w.phase.Took? then Block(c.lib, c.interval, w.phase.batch)[..torn] else [];
        var scrap :=
          if torn > 0 && w.phase.Wrote?
          then EntryBytes(EntryOf(c.lib, c.interval, Placed(w.phase.batch, w.offset)).(length := w.phase.size))[..torn]
          else [];
        s.(data := s.data + block, index := s.index + scrap, scraps := AddScrap(s.scraps, scrap), live := None,
           orphans := s.orphans || block != [] || (w.phase.Wrote? && w.phase.size > 0))
      case Reopen => s
  }

  // ----- the invariant

  function Size(c: Config, p: Placed): nat {
    |Block(c.lib, c.interval, p.points)|
  }

  /** Blocks follow one another without overlap and end by `end`. */
  predicate Disjoint(c: Config, log: seq<Placed>, end: nat) {
    && (forall i :: 0 <= i < |log| ==> log[i].at + Size(c, log[i]) <= end)
    && (forall i, j :: 0 <= i < j < |log| ==> log[i].at + Size(c, log[i]) <= log[j].at)
  }

  /** The bytes of the blocks, end to end. */
  function BlocksBytes(c: Config, log: seq<Placed>): seq<byte> {
    if log == [] then []
    else BlocksBytes(c, log[..|log| - 1]) + Block(c.lib, c.interval, log[|log| - 1].points)
  }

  /** The blocks lie end to end from offset 0. */
  predicate Tiles(c: Config, log: seq<Placed>) {
    forall i :: 0 <= i < |log| ==> log[i].at == |BlocksBytes(c, log[..i])|
  }

  /** The index file lists the log, with scraps in between,
    and the log's blocks lie intact and in order inside the data file. */
  predicate DiskOk(c: Config, s: State) {
    && |s.data| < TWO_63
    && s.base <= |s.log|
    && AllStored(c.lib, c.interval, s.data, s.log)
    && AllIndexable(c.lib, c.interval, s.log)
    && |s.scraps| == |s.log| + 1
    && s.index == Ragged(Entries(c.lib, c.interval, s.log), s.scraps)
  }

  /** The batch between the buffer and the index. */
  function InFlight(phase: Phase): seq<Point> {
    if phase.Took? || phase.Wrote? then phase.batch else []
  }

  /** Offsets and phases agree with the files. */
  predicate LiveOk(c: Config, s: State, w: Live) {
    match w.phase
    case Took(batch, _) => w.offset == |s.data| && batch != [] && Disjoint(c, s.log, w.offset)
    case Wrote(batch, size, _) =>
      && batch != []
      && size == |Block(c.lib, c.interval, batch)|
      && |s.data| == w.offset + size
      && s.data[w.offset..] == Block(c.lib, c.interval, batch)
      && Disjoint(c, s.log, w.offset)
    case Indexed(size, _) => size >= 0 && |s.data| == w.offset + size && Disjoint(c, s.log, |s.data|)
    case _ => w.offset == |s.data| && Disjoint(c, s.log, w.offset)
  }

  /** The block that lies in the data file without an index entry yet. */
  function Pending(c: Config, s: State): seq<byte> {
    if s.live.Some? && s.live.value.phase.Wrote? then Block(c.lib, c.interval, s.live.value.phase.batch) else []
  }

  /** Without orphans the data file is the log's blocks end to end, then the pending one; with orphans it
      holds more than that. */
  predicate TilesOk(c: Config, s: State) {
    if s.orphans then |s.data| > |BlocksBytes(c, s.log)| + |Pending(c, s)|
    else Tiles(c, s.log) && s.data == BlocksBytes(c, s.log) + Pending(c, s)
  }

  /** Accepted points are the flushed ones, then the batch in flight, then the buffer. */
  predicate Conserved(s: State, w: Live)
    requires s.base <= |s.log|
  {
    s.accepted == LogPoints(s.log[s.base..]) + InFlight(w.phase) + w.buffer
  }

  /** A full buffer has a wake-up pending or a woken flusher that has yet to take it. */
  predicate NoLostWakeUp(c: Config, w: Live) {
    |w.buffer| >= c.batchSize && w.buffer != [] ==> w.token || w.phase.Woken?
  }

  predicate Inv(c: Config, s: State) {
    && DiskOk(c, s)
    && TilesOk(c, s)
    && Disjoint(c, s.log, |s.data|)
    && (s.live.Some? ==> LiveOk(c, s, s.live.value) && Conserved(s, s.live.value) && NoLostWakeUp(c, s.live.value))
  }

  lemma InitInv(c: Config)
    ensures Inv(c, INIT)
  {
  }

  // ----- each conjunct over one step

  lemma StepKeepsWakeUp(c: Config, s: State, ev: Event)
    requires Enabled(c, s, ev)
    requires s.live.Some? ==> NoLostWakeUp(c, s.live.value)
    ensures var t := Apply(c, s, ev); t.live.Some? ==> NoLostWakeUp(c, t.live.value)
  {
    hide Block;
    if s.live.Some? && ev.Accept? && ev.points == [] {
      assert s.live.value.buffer + ev.points == s.live.value.buffer;
    }
  }

  lemma AllStoredGrows(c: Config, data: seq<byte>, more: seq<byte>, log: seq<Placed>)
    requires AllStored(c.lib, c.interval, data, log) && |data + more| < TWO_63
    ensures AllStored(c.lib, c.interval, data + more, log)
  {
    hide Block;
    forall i | 0 <= i < |log|
      ensures Stored(c.lib, c.interval, data + more, log[i])
    {
      assert Stored(c.lib, c.interval, data, log[i]);
      var n := log[i].at + Size(c, log[i]);
      assert (data + more)[log[i].at..n] == data[log[i].at..n];
    }
  }

  lemma StepKeepsDisk(c: Config, s: State, ev: Event)
    requires Enabled(c, s, ev)
    requires DiskOk(c, s)
    requires s.live.Some? ==> LiveOk(c, s, s.live.value)
    ensures DiskOk(c, Apply(c, s, ev))
  {
    hide Block, AllStored, AllIndexable, Entries, Ragged, EntryBytes, Stored, Disjoint, AddScrap;
    if s.live.Some? {
      var w := s.live.value;
      match ev
      case WriteData =>
        AllStoredGrows(c, s.data, Block(c.lib, c.interval, w.phase.batch), s.log);
      case Crash(torn) =>
        var t := Apply(c, s, ev);
        assert s.data + [] == s.data && s.index + [] == s.index;
        if torn > 0 && w.phase.Took? {
          AllStoredGrows(c, s.data, Block(c.lib, c.interval, w.phase.batch)[..torn], s.log);
        }
        RaggedTorn(Entries(c.lib, c.interval, s.log), s.scraps, t.index[|s.index|..]);
      case AppendIndex =>
        IndexGrows(c, s, Placed(w.phase.batch, w.offset));
      case _ =>
    }
  }

  lemma IndexGrows(c: Config, s: State, p: Placed)
    requires DiskOk(c, s) && p.points != []
    requires p.at + Size(c, p) == |s.data| && s.data[p.at..] == Block(c.lib, c.interval, p.points)
    ensures Indexable(c.lib, c.interval, p)
    ensures AllStored(c.lib, c.interval, s.data, s.log + [p])
    ensures AllIndexable(c.lib, c.interval, s.log + [p])
    ensures s.index + EntryBytes(EntryOf(c.lib, c.interval, p))
      == Ragged(Entries(c.lib, c.interval, s.log + [p]), s.scraps + [[]])
  {
    hide Block, EntryBytes, EntryOf;
    EntriesSnoc(c.lib, c.interval, s.log, p);
    var x := EntryOf(c.lib, c.interval, p);
    RaggedSnoc(Entries(c.lib, c.interval, s.log), s.scraps, x);
    assert Stored(c.lib, c.interval, s.data, p) by {
      assert s.data[p.at..p.at + Size(c, p)] == s.data[p.at..];
    }
  }

  lemma StepKeepsOrder(c: Config, s: State, ev: Event)
    requires Enabled(c, s, ev)
    requires Disjoint(c, s.log, |s.data|)
    requires s.live.Some? ==> LiveOk(c, s, s.live.value)
    ensures var t := Apply(c, s, ev);
      Disjoint(c, t.log, |t.data|) && (t.live.Some? ==> LiveOk(c, t, t.live.value))
  {
    hide Block, EntryBytes, EntryOf;
    if s.live.Some? && ev.WriteData? {
      var block := Block(c.lib, c.interval, s.live.value.phase.batch);
      assert (s.data + block)[|s.data|..] == block;
    }
  }

  lemma StepConserves(c: Config, s: State, ev: Event)
    requires Enabled(c, s, ev)
    requires s.base <= |s.log|
    requires s.live.Some? ==> Conserved(s, s.live.value)
    ensures var t := Apply(c, s, ev); t.base <= |t.log| && (t.live.Some? ==> Conserved(t, t.live.value))
  {
    hide Block, EntryBytes, EntryOf, LogPoints;
    NoLogPoints();
    if s.live.None? {
      assert s.log[|s.log|..] == [];
    } else {
      var w := s.live.value;
      match ev
      case Accept(points) =>
        assert s.accepted + points == LogPoints(s.log[s.base..]) + InFlight(w.phase) + (w.buffer + points);
      case AppendIndex =>
        FlushedGrow(s.log, s.base, Placed(w.phase.batch, w.offset));
      case _ =>
    }
  }

  lemma NoLogPoints()
    ensures LogPoints([]) == []
  {
  }

  lemma FlushedGrow(log: seq<Placed>, base: nat, p: Placed)
    requires base <= |log|
    ensures LogPoints((log + [p])[base..]) == LogPoints(log[base..]) + p.points
  {
    assert (log + [p])[base..] == log[base..] + [p];
    LogPointsConcat(log[base..], [p]);
    assert [p][1..] == [] && LogPoints([p]) == p.points + LogPoints([p][1..]);
  }

  lemma StepKeepsTiling(c: Config, s: State, ev: Event)
    requires Enabled(c, s, ev)
    requires TilesOk(c, s)
    requires s.live.Some? ==> LiveOk(c, s, s.live.value)
    ensures TilesOk(c, Apply(c, s, ev))
  {
    hide Block, EntryBytes, EntryOf, Disjoint;
    if s.live.Some? && ev.AppendIndex? {
      var w := s.live.value;
      var p := Placed(w.phase.batch, w.offset);
      var log := s.log + [p];
      assert log[..|s.log|] == s.log;
      assert BlocksBytes(c, log) == BlocksBytes(c, s.log) + Block(c.lib, c.interval, p.points);
      if !s.orphans {
        assert BlocksBytes(c, log) == s.data;
        forall i | 0 <= i < |log|
          ensures log[i].at == |BlocksBytes(c, log[..i])|
        {
          assert i < |s.log| ==> log[..i] == s.log[..i];
        }
      }
    }
  }

  lemma BaseInLog(c: Config, s: State)
    requires DiskOk(c, s)
    ensures s.base <= |s.log|
  {
  }

  /** Every event keeps the invariant. */
  lemma StepKeepsInv(c: Config, s: State, ev: Event)
    requires Inv(c, s) && Enabled(c, s, ev)
    ensures Inv(c, Apply(c, s, ev))
  {
    hide Apply, Enabled, DiskOk, LiveOk, TilesOk, Conserved, NoLostWakeUp, Disjoint;
    BaseInLog(c, s);
    StepKeepsDisk(c, s, ev);
    StepKeepsTiling(c, s, ev);
    StepKeepsOrder(c, s, ev);
    StepConserves(c, s, ev);
    StepKeepsWakeUp(c, s, ev);
  }

  // ----- runs

  /** The state after the events of a run, if each was enabled when its turn came. */
  function Run(c: Config, s: State, evs: seq<Event>): Option<State>
    decreases |evs|
  {
    if evs == [] then Some(s)
    else if Enabled(c, s, evs[0]) then Run(c, Apply(c, s, evs[0]), evs[1..])
    else None
  }

  lemma {:induction false} RunKeepsInv(c: Config, s: State, evs: seq<Event>)
    requires Inv(c, s)
    ensures var t := Run(c, s, evs); t.Some? ==> Inv(c, t.value)
    decreases |evs|
  {
    hide Inv, Apply, Enabled;
    if evs != [] && Enabled(c, s, evs[0]) {
      StepKeepsInv(c, s, evs[0]);
      RunKeepsInv(c, Apply(c, s, evs[0]), evs[1..]);
    }
  }

  ghost predicate Reachable(c: Config, s: State) {
    exists evs: seq<Event> :: Run(c, INIT, evs) == Some(s)
  }

  lemma ReachableInv(c: Config, s: State)
    requires Reachable(c, s)
    ensures Inv(c, s)
  {
    hide Inv, Run;
    var evs :| Run(c, INIT, evs) == Some(s);
    InitInv(c);
    RunKeepsInv(c, INIT, evs);
  }

  /** Whatever was flushed, torn, crashed and reopened before: each entry of the log names, in order and without
      overlap, one intact block that reads as one flushed batch, and the index file holds those entries, with
      scraps of torn ones in between. Without scraps it reads back as the entries. */
  lemma CrashSafety(c: Config, s: State, from: int64, to: int64)
    requires Reachable(c, s) && AllReadable(c.lib, c.interval, s.log)
    ensures AllIndexable(c.lib, c.interval, s.log) && |s.scraps| == |s.log| + 1
    ensures s.index == Ragged(Entries(c.lib, c.interval, s.log), s.scraps)
    ensures Disjoint(c, s.log, |s.data|)
    ensures forall i :: 0 <= i < |s.log| ==>
      ReadBlock(c.lib, s.data, Entries(c.lib, c.interval, s.log)[i], from, to)
      in {Good(Within(s.log[i].points, from, to)), Legacy(Within(s.log[i].points, from, to))}
    ensures Unscrapped(s.scraps) ==> ReadIndex(s.index) == Entries(c.lib, c.interval, s.log)
  {
    hide Stored, Readable, LooksLegacy, Within, Disjoint, ReadBlock, LiveOk, TilesOk, Conserved, Ragged;
    ReachableInv(c, s);
    UnscrappedIndex(c, s);
    forall i | 0 <= i < |s.log|
      ensures ReadBlock(c.lib, s.data, Entries(c.lib, c.interval, s.log)[i], from, to)
        in {Good(Within(s.log[i].points, from, to)), Legacy(Within(s.log[i].points, from, to))}
    {
      ReadsStored(c.lib, c.interval, s.data, s.log[i], from, to);
    }
  }

  /** No crash ever tore an index append. */
  predicate Unscrapped(scraps: seq<seq<byte>>) {
    forall i :: 0 <= i < |scraps| ==> scraps[i] == []
  }

  lemma UnscrappedIndex(c: Config, s: State)
    requires DiskOk(c, s)
    ensures Unscrapped(s.scraps) ==>
      s.index == EntriesBytes(Entries(c.lib, c.interval, s.log))
        && ReadIndex(s.index) == Entries(c.lib, c.interval, s.log)
  {
    hide AllStored, AllIndexable, Entries, EntriesBytes, ReadIndex, Ragged;
    if Unscrapped(s.scraps) {
      NoScraps(Entries(c.lib, c.interval, s.log), s.scraps);
      IndexRoundTrip(Entries(c.lib, c.interval, s.log));
    }
  }

  /** After one torn append the index reads back exactly when its length does not look like a legacy file's and
      all entries that were appended since, if any, repeat the torn bytes. */
  lemma TornIndexSafety(c: Config, s: State, m: nat)
    requires Reachable(c, s) && m <= |s.log| && ScrapsOnlyAt(s.scraps, m)
    ensures AllIndexable(c.lib, c.interval, s.log) && |s.scraps| == |s.log| + 1
    ensures var xs, scrap := Entries(c.lib, c.interval, s.log), s.scraps[m];
      0 < |scrap| < 36 ==> (ReadIndex(s.index) == xs <==>
        && !(|s.index| % 32 == 0 && |s.index| % 36 != 0)
        && EntriesBytes(xs[m..]) <= scrap + EntriesBytes(xs[m..]))
  {
    hide AllStored, AllIndexable, Entries, EntriesBytes, ReadIndex, Ragged, Disjoint, LiveOk, TilesOk, Conserved;
    ReachableInv(c, s);
    var xs := Entries(c.lib, c.interval, s.log);
    OneScrap(xs, s.scraps, m);
    if 0 < |s.scraps[m]| < 36 {
      AppendedBehindTear(xs[..m], s.scraps[m], xs[m..]);
      assert xs[..m] + xs[m..] == xs;
    }
  }

  /** In every reachable state, between any two steps and over any number of openings, the indexed blocks and
      the pending one tile the data file exactly when no crash left orphans behind; the writer's offset is
      then the end of the indexed blocks, or of those before the block it has just indexed. */
  lemma TilingUnlessOrphaned(c: Config, s: State)
    requires Reachable(c, s)
    ensures s.data == BlocksBytes(c, s.log) + Pending(c, s) <==> !s.orphans
    ensures !s.orphans ==> Tiles(c, s.log)
    ensures !s.orphans && s.live.Some? ==>
      s.live.value.offset + (if s.live.value.phase.Indexed? then s.live.value.phase.size else 0)
        == |BlocksBytes(c, s.log)|
  {
    hide DiskOk, Disjoint, Tiles, Conserved, BlocksBytes;
    ReachableInv(c, s);
  }

  /** In every reachable state nothing accepted by the open writer is lost, repeated or reordered. */
  lemma Conservation(c: Config, s: State)
    requires Reachable(c, s) && s.live.Some?
    ensures s.base <= |s.log|
    ensures s.accepted == LogPoints(s.log[s.base..]) + InFlight(s.live.value.phase) + s.live.value.buffer
  {
    hide AllStored, AllIndexable, Disjoint, TilesOk, LiveOk;
    ReachableInv(c, s);
  }

  /** Files and log only ever grow at their ends. */
  lemma StepGrows(c: Config, s: State, ev: Event)
    requires Enabled(c, s, ev)
    ensures var t := Apply(c, s, ev); s.log <= t.log && s.data <= t.data && s.index <= t.index
  {
    hide Block, EntryBytes, EntryOf;
  }

  /** What was indexed before a run, crashes and reopenings included, stays where it was for good. */
  lemma {:induction false} FlushedIsDurable(c: Config, s: State, evs: seq<Event>)
    ensures var t := Run(c, s, evs);
      t.Some? ==> s.log <= t.value.log && s.data <= t.value.data && s.index <= t.value.index
    decreases |evs|
  {
    hide Apply, Enabled;
    if evs != [] && Enabled(c, s, evs[0]) {
      StepGrows(c, s, evs[0]);
      FlushedIsDurable(c, Apply(c, s, evs[0]), evs[1..]);
    }
  }

  /** The points of the writes among the events. */
  function Arrived(evs: seq<Event>): seq<Point> {
    if evs == [] then [] else (if evs[0].Accept? then evs[0].points else []) + Arrived(evs[1..])
  }

  predicate Takes(evs: seq<Event>) { exists i :: 0 <= i < |evs| && evs[i].Take? }

  /** The events behind the last time that a flush took the buffer. */
  function AfterLastTake(evs: seq<Event>): seq<Event>
    requires Takes(evs)
  {
    if Takes(evs[1..]) then AfterLastTake(evs[1..]) else evs[1..]
  }

  /** The writer lives through the events. */
  predicate Uninterrupted(evs: seq<Event>) {
    forall i :: 0 <= i < |evs| ==> !evs[i].Crash? && !evs[i].Exit?
  }

  lemma TakesStep(evs: seq<Event>)
    requires evs != []
    ensures Takes(evs) <==> evs[0].Take? || Takes(evs[1..])
    ensures Uninterrupted(evs) ==> Uninterrupted(evs[1..]) && !evs[0].Crash? && !evs[0].Exit?
  {
    assert forall i :: 0 < i < |evs| ==> evs[i] == evs[1..][i - 1];
  }

  lemma NoTakes()
    ensures !Takes([]) && Arrived([]) == []
  {
  }

  lemma ArrivedStep(evs: seq<Event>, buffer: seq<Point>)
    requires evs != []
    ensures buffer + Arrived(evs) == buffer + (if evs[0].Accept? then evs[0].points else []) + Arrived(evs[1..])
  {
    hide Takes;
  }

  lemma BufferStep(c: Config, s: State, ev: Event)
    requires s.live.Some? && Enabled(c, s, ev) && !ev.Crash? && !ev.Exit?
    ensures var t := Apply(c, s, ev); var buffer := s.live.value.buffer;
      t.live.Some? && t.base == s.base && t.live.value.buffer ==
        if ev.Take? then [] else if ev.Accept? then buffer + ev.points else buffer
  {
    hide Block, EntryBytes, EntryOf;
  }

  /** The buffer holds what has arrived since it was last taken. */
  lemma {:induction false} BufferSinceTake(c: Config, s: State, evs: seq<Event>)
    requires s.live.Some? && Uninterrupted(evs) && Run(c, s, evs).Some?
    ensures var t := Run(c, s, evs).value;
      t.live.Some? && t.base == s.base && t.live.value.buffer ==
        if Takes(evs) then Arrived(AfterLastTake(evs)) else s.live.value.buffer + Arrived(evs)
    decreases |evs|
  {
    hide Apply, Enabled, Takes, Uninterrupted, Arrived;
    if evs == [] {
      NoTakes();
      assert s.live.value.buffer + [] == s.live.value.buffer;
    } else {
      TakesStep(evs);
      ArrivedStep(evs, s.live.value.buffer);
      BufferStep(c, s, evs[0]);
      BufferSinceTake(c, Apply(c, s, evs[0]), evs[1..]);
      if !Takes(evs[1..]) && evs[0].Take? {
        assert [] + Arrived(evs[1..]) == Arrived(evs[1..]);
      }
    }
  }

  /** A goroutine that is not yet flushing for the last time takes the buffer before it ends. */
  lemma {:induction false} TakesBeforeExit(c: Config, s: State, evs: seq<Event>)
    requires s.live.Some? && (s.live.value.phase.Idle? || s.live.value.phase.Woken?)
    requires Uninterrupted(evs) && Run(c, s, evs).Some? && !Takes(evs)
    ensures var t := Run(c, s, evs).value;
      t.live.Some? && (t.live.value.phase.Idle? || t.live.value.phase.Woken?)
    decreases |evs|
  {
    hide Block, EntryBytes, EntryOf;
    hide Takes, Uninterrupted;
    if evs != [] {
      TakesStep(evs);
      TakesBeforeExit(c, Apply(c, s, evs[0]), evs[1..]);
    }
  }

  /** When the goroutine of a closed writer has ended, the blocks hold all that the writer accepted exactly
      when no write with points came after the last flush took the buffer. */
  lemma CloseFlushesAll(c: Config, s: State, evs: seq<Event>)
    requires Reachable(c, s) && s.live.Some? && (s.live.value.phase.Idle? || s.live.value.phase.Woken?)
    requires Uninterrupted(evs) && Run(c, s, evs).Some?
    ensures var t := Run(c, s, evs).value;
      t.live.Some? && t.base <= |t.log| && (t.live.value.phase.Exited? ==>
        Takes(evs) && (LogPoints(t.log[t.base..]) == t.accepted <==> Arrived(AfterLastTake(evs)) == []))
  {
    hide Run, Inv, LogPoints;
    BufferSinceTake(c, s, evs);
    if !Takes(evs) {
      TakesBeforeExit(c, s, evs);
    }
    var t := Run(c, s, evs).value;
    ReachableInv(c, s);
    RunKeepsInv(c, s, evs);
    ConservedIn(c, t);
    var flushed := LogPoints(t.log[t.base..]);
    assert flushed + InFlight(t.live.value.phase) + t.live.value.buffer == t.accepted;
  }

  lemma ConservedIn(c: Config, s: State)
    requires Inv(c, s) && s.live.Some?
    ensures s.base <= |s.log| && Conserved(s, s.live.value)
  {
  }

  /** In every reachable state a full buffer has a token waiting, or the flusher is awake and has yet to take it. */
  lemma WakeUpNeverLost(c: Config, s: State)
    requires Reachable(c, s) && s.live.Some? && |s.live.value.buffer| >= c.batchSize && s.live.value.buffer != []
    ensures s.live.value.token || s.live.value.phase.Woken?
  {
    hide DiskOk, Disjoint, TilesOk, LiveOk;
    ReachableInv(c, s);
  }

  // ----- the flusher left alone

  /** What the flush goroutine does of itself: it waits for no tick, no write and no close. */
  predicate Own(ev: Event) {
    ev.TokenWake? || ev.Take? || ev.WriteData? || ev.AppendIndex? || ev.Advance?
  }

  predicate AllOwn(evs: seq<Event>) { forall i :: 0 <= i < |evs| ==> Own(evs[i]) }

  /** The goroutine, left alone, gets to take the buffer. */
  ghost predicate WillTake(c: Config, s: State) {
    exists evs: seq<Event> :: AllOwn(evs) && Takes(evs) && Run(c, s, evs).Some?
  }

  /** It has taken the buffer for the last time. */
  predicate PastLastTake(w: Live) {
    w.phase.Exited? || ((w.phase.Took? || w.phase.Wrote? || w.phase.Indexed?) && w.phase.last)
  }

  /** There is room on disk for a block that is about to be written. */
  predicate RoomInFlight(c: Config, s: State)
    requires s.live.Some?
  {
    s.live.value.phase.Took? ==> |s.data| + |Block(c.lib, c.interval, s.live.value.phase.batch)| < TWO_63
  }

  lemma WillTakeAfter(c: Config, s: State, ev: Event)
    requires Own(ev) && Enabled(c, s, ev) && (ev.Take? || WillTake(c, Apply(c, s, ev)))
    ensures WillTake(c, s)
  {
    hide Apply, Enabled;
    if ev.Take? {
      assert Takes([ev]) by { assert [ev][0].Take?; }
      assert [ev][1..] == [] && Run(c, Apply(c, s, ev), []).Some?;
      assert AllOwn([ev]) && Run(c, s, [ev]).Some?;
    } else {
      var evs :| AllOwn(evs) && Takes(evs) && Run(c, Apply(c, s, ev), evs).Some?;
      var more := [ev] + evs;
      assert more[1..] == evs;
      TakesStep(more);
      assert AllOwn(more) && Run(c, s, more).Some?;
    }
  }

  lemma {:induction false} PastStaysPast(c: Config, s: State, evs: seq<Event>)
    requires s.live.Some? && PastLastTake(s.live.value) && AllOwn(evs) && Run(c, s, evs).Some?
    ensures !Takes(evs)
    decreases |evs|
  {
    hide Block, EntryBytes, EntryOf;
    if evs != [] {
      assert Own(evs[0]);
      assert forall i :: 0 <= i < |evs| - 1 ==> evs[1..][i] == evs[i + 1];
      TakesStep(evs);
      PastStaysPast(c, Apply(c, s, evs[0]), evs[1..]);
    }
  }

  /** A full buffer gets taken: from every reachable state with room on disk the goroutine of itself reaches a
      take exactly when it has not taken the buffer for the last time. */
  lemma FullBufferGetsTaken(c: Config, s: State)
    requires Reachable(c, s) && s.live.Some? && RoomInFlight(c, s)
    requires |s.live.value.buffer| >= c.batchSize && s.live.value.buffer != []
    ensures WillTake(c, s) <==> !PastLastTake(s.live.value)
  {
    hide WillTake, Inv, Run;
    if PastLastTake(s.live.value) {
      NeverTakes(c, s);
    } else {
      ReachableInv(c, s);
      TakesFrom(c, s);
    }
  }

  lemma NeverTakes(c: Config, s: State)
    requires s.live.Some? && PastLastTake(s.live.value)
    ensures !WillTake(c, s)
  {
    hide Run, Takes, AllOwn;
    forall evs: seq<Event> | AllOwn(evs) && Run(c, s, evs).Some?
      ensures !Takes(evs)
    {
      PastStaysPast(c, s, evs);
    }
  }

  /** Steps that the goroutine has left to its next take. */
  function StepsLeft(phase: Phase): nat {
    match phase
    case Took(_, _) => 4
    case Wrote(_, _, _) => 3
    case Indexed(_, _) => 2
    case Idle => 1
    case _ => 0
  }

  function NextOwn(phase: Phase): Event {
    match phase
    case Took(_, _) => WriteData
    case Wrote(_, _, _) => AppendIndex
    case Indexed(_, _) => Advance
    case Idle => TokenWake
    case _ => Take
  }

  lemma {:induction false} TakesFrom(c: Config, s: State)
    requires Inv(c, s) && s.live.Some? && RoomInFlight(c, s) && !PastLastTake(s.live.value)
    requires |s.live.value.buffer| >= c.batchSize && s.live.value.buffer != []
    ensures WillTake(c, s)
    decreases StepsLeft(s.live.value.phase)
  {
    hide WillTake, Inv, Apply, Enabled;
    var ev := NextOwn(s.live.value.phase);
    NextEnabled(c, s);
    if !ev.Take? {
      StepKeepsInv(c, s, ev);
      TakesFrom(c, Apply(c, s, ev));
    }
    WillTakeAfter(c, s, ev);
  }

  lemma NextEnabled(c: Config, s: State)
    requires Inv(c, s) && s.live.Some? && RoomInFlight(c, s) && !PastLastTake(s.live.value)
    requires |s.live.value.buffer| >= c.batchSize && s.live.value.buffer != []
    ensures var w := s.live.value; var ev := NextOwn(w.phase);
      Enabled(c, s, ev) && Own(ev) && (!ev.Take? ==>
        var t := Apply(c, s, ev);
        && t.live.Some? && t.live.value.buffer == w.buffer && RoomInFlight(c, t)
        && !PastLastTake(t.live.value) && StepsLeft(t.live.value.phase) < StepsLeft(w.phase))
  {
    hide Block, EntryBytes, EntryOf, AllStored, AllIndexable, Disjoint, TilesOk, Ragged, Entries, Conserved;
  }

  // ----- closing

  predicate OwnOrClosing(ev: Event) { Own(ev) || ev.CloseWake? }

  /** The goroutine, left alone after a close, gets to its end. */
  ghost predicate WillExit(c: Config, s: State) {
    exists evs: seq<Event> ::
      && (forall i :: 0 <= i < |evs| ==> OwnOrClosing(evs[i]))
      && var t := Run(c, s, evs); t.Some? && t.value.live.Some? && t.value.live.value.phase.Exited?
  }

  /** Room on disk for the block in flight and for one of the buffer's points. */
  predicate RoomToClose(c: Config, s: State)
    requires s.live.Some?
  {
    var w := s.live.value;
    |s.data| + (if w.phase.Took? then |Block(c.lib, c.interval, w.phase.batch)| else 0)
      + (if w.buffer != [] then |Block(c.lib, c.interval, w.buffer)| else 0) < TWO_63
  }

  function StepsToExit(phase: Phase): nat {
    match phase
    case Woken(last) => if last then 5 else 10
    case Took(_, last) => if last then 4 else 9
    case Wrote(_, _, last) => if last then 3 else 8
    case Indexed(_, last) => if last then 2 else 7
    case Idle => 6
    case Exited => 0
  }

  function NextToExit(phase: Phase): Event {
    if phase.Idle? then CloseWake else NextOwn(phase)
  }

  /** After a close the goroutine of itself flushes what is left and ends, from every reachable state with room
      on disk. */
  lemma ClosedWriterEnds(c: Config, s: State)
    requires Reachable(c, s) && s.live.Some? && s.live.value.closing && RoomToClose(c, s)
    ensures WillExit(c, s)
  {
    hide WillExit, Inv, Run, RoomToClose;
    ReachableInv(c, s);
    ExitsFrom(c, s);
  }

  lemma {:induction false} ExitsFrom(c: Config, s: State)
    requires Inv(c, s) && s.live.Some? && s.live.value.closing && RoomToClose(c, s)
    ensures WillExit(c, s)
    decreases StepsToExit(s.live.value.phase)
  {
    hide WillExit, Inv, Apply, Enabled, RoomToClose;
    if s.live.value.phase.Exited? {
      ExitedAlready(c, s);
    } else {
      var ev := NextToExit(s.live.value.phase);
      NextToExitEnabled(c, s);
      StepKeepsInv(c, s, ev);
      ExitsFrom(c, Apply(c, s, ev));
      WillExitAfter(c, s, ev);
    }
  }

  lemma ExitedAlready(c: Config, s: State)
    requires s.live.Some? && s.live.value.phase.Exited?
    ensures WillExit(c, s)
  {
    assert Run(c, s, []) == Some(s);
  }

  lemma WillExitAfter(c: Config, s: State, ev: Event)
    requires OwnOrClosing(ev) && Enabled(c, s, ev) && WillExit(c, Apply(c, s, ev))
    ensures WillExit(c, s)
  {
    hide Apply, Enabled;
    var evs :| (forall i :: 0 <= i < |evs| ==> OwnOrClosing(evs[i]))
      && var t := Run(c, Apply(c, s, ev), evs); t.Some? && t.value.live.Some? && t.value.live.value.phase.Exited?;
    var more := [ev] + evs;
    assert more[1..] == evs;
    assert Run(c, s, more) == Run(c, Apply(c, s, ev), evs);
  }

  lemma NextToExitEnabled(c: Config, s: State)
    requires Inv(c, s) && s.live.Some? && s.live.value.closing && RoomToClose(c, s) && !s.live.value.phase.Exited?
    ensures var w := s.live.value; var ev := NextToExit(w.phase);
      Enabled(c, s, ev) && OwnOrClosing(ev) &&
        var t := Apply(c, s, ev);
        && t.live.Some? && t.live.value.closing && RoomToClose(c, t)
        && StepsToExit(t.live.value.phase) < StepsToExit(w.phase)
  {
    hide Block, EntryBytes, EntryOf, AllStored, AllIndexable, Disjoint, TilesOk, Ragged, Entries, Conserved;
  }

  // ----- where power may fail

  /** A crash may come anywhere, and loses the writer's memory: between writes it leaves both files as they
      are, inside the write of a block or an entry it leaves any part of that write, and nothing else. */
  lemma CrashesAnywhere(c: Config, s: State, n: nat)
    requires s.live.Some? && s.scraps != []
    ensures Enabled(c, s, Crash(0))
    ensures var t := Apply(c, s, Crash(0)); t.live.None? && t.data == s.data && t.index == s.index && t.log == s.log
    ensures var w := s.live.value;
      w.phase.Took? && n <= |Block(c.lib, c.interval, w.phase.batch)| && |s.data| + n < TWO_63 ==>
        && Enabled(c, s, Crash(n))
        && var t := Apply(c, s, Crash(n));
           t.live.None? && t.data == s.data + Block(c.lib, c.interval, w.phase.batch)[..n] && t.index == s.index
    ensures var w := s.live.value;
      CanIndex(c, w) && n < 36 ==>
        && Enabled(c, s, Crash(n))
        && var t := Apply(c, s, Crash(n));
           && t.live.None? && t.data == s.data
           && t.index == s.index
              + EntryBytes(EntryOf(c.lib, c.interval, Placed(w.phase.batch, w.offset)).(length := w.phase.size))[..n]
  {
    hide Block, EntryBytes, EntryOf;
  }

  // ----- one uninterrupted flush

  /** Room for the block that a flush of the buffer would append. */
  predicate HasRoom(c: Config, s: State) {
    s.live.Some? && (s.live.value.buffer == [] || |s.data| + |Block(c.lib, c.interval, s.live.value.buffer)| < TWO_63)
  }

  /** An event that is not enabled changes nothing. */
  function Do(c: Config, s: State, ev: Event): State {
    if Enabled(c, s, ev) then Apply(c, s, ev) else s
  }

  /** The state after a woken flusher takes the buffer and runs flush to its end; with nothing to take
      the later events are not enabled. */
  function FlushEnd(c: Config, s: State): State {
    Do(c, Do(c, Do(c, Do(c, s, Take), WriteData), AppendIndex), Advance)
  }

  lemma DoKeepsInv(c: Config, s: State, ev: Event)
    requires Inv(c, s)
    ensures Inv(c, Do(c, s, ev))
  {
    hide Inv, Enabled, Apply;
    if Enabled(c, s, ev) {
      StepKeepsInv(c, s, ev);
    }
  }

  lemma FlushEndKeepsInv(c: Config, s: State)
    requires Inv(c, s)
    ensures Inv(c, FlushEnd(c, s))
  {
    hide Inv, Do;
    var taken := Do(c, s, Take);
    var written := Do(c, taken, WriteData);
    var indexed := Do(c, written, AppendIndex);
    DoKeepsInv(c, s, Take);
    DoKeepsInv(c, taken, WriteData);
    DoKeepsInv(c, written, AppendIndex);
    DoKeepsInv(c, indexed, Advance);
  }

  lemma FlushEndEmpty(c: Config, s: State)
    requires s.live.Some? && s.live.value.phase.Woken? && s.live.value.buffer == []
    ensures FlushEnd(c, s) == s.(live := Some(s.live.value.(phase := Back(s.live.value.phase.last))))
  {
    hide Block, EntryBytes;
  }

  lemma FlushEndFull(c: Config, s: State)
    requires HasRoom(c, s) && s.live.value.phase.Woken? && s.live.value.offset == |s.data| && s.live.value.buffer != []
    ensures Indexable(c.lib, c.interval, Placed(s.live.value.buffer, |s.data|))
    ensures var w := s.live.value; var p := Placed(w.buffer, |s.data|); var block := Block(c.lib, c.interval, w.buffer);
      FlushEnd(c, s) == s.(
        data := s.data + block,
        index := s.index + EntryBytes(EntryOf(c.lib, c.interval, p)),
        log := s.log + [p],
        scraps := s.scraps + [[]],
        live := Some(w.(buffer := [], phase := Back(w.phase.last), offset := |s.data| + |block|)))
  {
    hide Block, EntryBytes;
    var w := s.live.value;
    var block := Block(c.lib, c.interval, w.buffer);
    var taken := Do(c, s, Take);
    assert taken == s.(live := Some(w.(buffer := [], phase := Took(w.buffer, w.phase.last))));
    var written := Do(c, taken, WriteData);
    assert written == taken.(data := s.data + block,
        live := Some(w.(buffer := [], phase := Wrote(w.buffer, |block|, w.phase.last))));
  }

  /** What a whole flush means for the files, the log and the buffer. */
  lemma FlushEndMeans(c: Config, s: State)
    requires HasRoom(c, s) && s.live.value.phase.Woken? && s.live.value.offset == |s.data|
    ensures var t := FlushEnd(c, s); var w := s.live.value; var p := Placed(w.buffer, |s.data|);
      && t.live == Some(w.(buffer := [], phase := Back(w.phase.last), offset := |t.data|))
      && t.base == s.base && t.accepted == s.accepted && t.orphans == s.orphans
      && if w.buffer == [] then t.log == s.log && t.data == s.data && t.index == s.index && t.scraps == s.scraps
         else && Indexable(c.lib, c.interval, p)
              && t.log == s.log + [p] && t.scraps == s.scraps + [[]]
              && t.data == s.data + Block(c.lib, c.interval, w.buffer)
              && t.index == s.index + EntryBytes(EntryOf(c.lib, c.interval, p))
  {
    hide Block, EntryBytes, FlushEnd, Indexable;
    if s.live.value.buffer == [] {
      FlushEndEmpty(c, s);
    } else {
      FlushEndFull(c, s);
    }
  }
}
