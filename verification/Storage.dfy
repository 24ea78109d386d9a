/** The store: one day writer per device and day, batches split by day, queries gathered over days. */
module Storage {
  import opened Bytes
  import opened Points
  import opened IndexFile
  import opened Blocks
  import opened Reader
  import opened IndexQuery
  import opened IndexExact
  import opened WriterProtocol
  import opened DayWriters
  import opened Days
  import opened Tiers

  datatype Slot = Slot(device: string, day: int)

  // ----- one file

  /** queryFile: nothing for a missing file, the full scan for a missing index, otherwise the indexed query. */
  method QueryFile(lib: Library, data: Option<seq<byte>>, index: Option<seq<byte>>, s: int64, e: int64)
    returns (answer: Option<seq<Point>>)
    ensures data.None? ==> answer == Some([])
    ensures data.Some? && index.None? ==> answer == Some(FullScan(lib, data.value, s, e))
    ensures data.Some? && index.Some? ==> answer == IndexAnswer(lib, data.value, ReadIndex(index.value), s, e)
  {
    hide ReadIndex, IndexAnswer, FullScan;
    if data == None {
      return Some([]);
    }
    if index == None {
      var points := QueryWhole(lib, data.value, s, e);
      return Some(points);
    }
    var indexes := ReadIndexFile(index.value);
    answer := QueryWithIndex(lib, data.value, indexes, s, e);
  }

  /** What the file of one path adds to a query: nothing on a read error. */
  function PathAnswer(lib: Library, data: Option<seq<byte>>, index: Option<seq<byte>>, s: int64, e: int64): seq<Point> {
    if data.None? then []
    else if index.None? then FullScan(lib, data.value, s, e)
    else
      match IndexAnswer(lib, data.value, ReadIndex(index.value), s, e)
      case None => []
      case Some(points) => points
  }

  lemma PathCases(lib: Library, data: Option<seq<byte>>, index: Option<seq<byte>>, s: int64, e: int64)
    ensures data.None? ==> PathAnswer(lib, data, index, s, e) == []
    ensures data.Some? && index.None? ==> PathAnswer(lib, data, index, s, e) == FullScan(lib, data.value, s, e)
    ensures data.Some? && index.Some? && IndexAnswer(lib, data.value, ReadIndex(index.value), s, e) == None ==>
      PathAnswer(lib, data, index, s, e) == []
    ensures data.Some? && index.Some? && IndexAnswer(lib, data.value, ReadIndex(index.value), s, e).Some? ==>
      PathAnswer(lib, data, index, s, e) == IndexAnswer(lib, data.value, ReadIndex(index.value), s, e).value
  {
    hide IndexAnswer, FullScan, ReadIndex;
  }

  /** The goroutine of one day: the hot file's points, then the cold file's, if there are such files. */
  method QueryTiers(lib: Library, hotData: Option<seq<byte>>, hotIndex: Option<seq<byte>>,
    coldData: Option<seq<byte>>, coldIndex: Option<seq<byte>>, s: int64, e: int64)
    returns (points: seq<Point>)
    ensures points == PathAnswer(lib, hotData, hotIndex, s, e) + PathAnswer(lib, coldData, coldIndex, s, e)
  {
    hide IndexAnswer, FullScan, ReadIndex;
    var hot := QueryFile(lib, hotData, hotIndex, s, e);
    points := if hot == None then [] else hot.value;
    var cold := QueryFile(lib, coldData, coldIndex, s, e);
    points := points + (if cold == None then [] else cold.value);
  }

  /** Batches that an index query finds exactly: see IndexExact.IndexQueryExact. */
  ghost predicate Fit(c: Config, log: seq<Placed>) {
    && NonEmpty(log) && AllReadable(c.lib, c.interval, log)
    && Bracketed(log) && StartsInOrder(log) && SearchReaches(log)
    && (|log| <= 1 || NoneLooksLegacy(c.lib, c.interval, log))
  }

  /** The answer from a writer's files, in terms of the batches it flushed. */
  lemma FileAnswer(c: Config, st: State, answer: Option<seq<Point>>, s: int64, e: int64)
    requires DiskOk(c, st) && Unscrapped(st.scraps) && AllReadable(c.lib, c.interval, st.log)
    requires answer == IndexAnswer(c.lib, st.data, ReadIndex(st.index), s, e)
    ensures answer.Some? && Subsequence(answer.value, Within(LogPoints(st.log), s, e))
    ensures Fit(c, st.log) ==> answer.value == Within(LogPoints(st.log), s, e)
  {
    hide AllStored, AllIndexable, AllReadable, EntriesBytes, Within, LogPoints, Subsequence, ReadIndex, AnswerFrom,
      LogAnswer, Unscrapped, Ragged, Bracketed, StartsInOrder, SearchReaches, NoneLooksLegacy;
    AllStoredIndexable(c.lib, c.interval, st.data, st.log);
    var xs := Entries(c.lib, c.interval, st.log);
    UnscrappedIndex(c, st);
    var r := Found(BoundsOf(xs), s);
    AnswerOverBatches(c.lib, c.interval, st.data, st.log, r, s, e);
    AnswerSound(c.lib, c.interval, st.log, r, s, e);
    if Fit(c, st.log) {
      IndexedFileExact(c.lib, c.interval, st.data, st.log, s, e);
    }
  }

  /** A query beside the writer: with the index read in one reachable state and the blocks read in any later
      state of the run, crashes and reopenings included, the answer is a subsequence of the filter of what was
      flushed when the index was read, and the filter itself if those batches meet the index condition. */
  lemma QueryBesideWriter(c: Config, st: State, evs: seq<Event>, s: int64, e: int64)
    requires Reachable(c, st) && Unscrapped(st.scraps) && AllReadable(c.lib, c.interval, st.log)
    requires Run(c, st, evs).Some?
    ensures var answer := IndexAnswer(c.lib, Run(c, st, evs).value.data, ReadIndex(st.index), s, e);
      && answer.Some? && Subsequence(answer.value, Within(LogPoints(st.log), s, e))
      && (Fit(c, st.log) ==> answer.value == Within(LogPoints(st.log), s, e))
  {
    hide Run, Fit, AllReadable, ReadIndex, IndexAnswer, Within, LogPoints, Subsequence, Reachable;
    ReachableInv(c, st);
    RunKeepsInv(c, st, evs);
    FlushedIsDurable(c, st, evs);
    var later := Run(c, st, evs).value;
    LaterData(c, st, later);
    FileAnswer(c, st.(data := later.data), IndexAnswer(c.lib, later.data, ReadIndex(st.index), s, e), s, e);
  }

  lemma LaterData(c: Config, st: State, later: State)
    requires Inv(c, st) && Inv(c, later) && st.data <= later.data
    ensures DiskOk(c, st.(data := later.data))
  {
    hide AllStored, AllIndexable, Entries, Ragged, LiveOk, TilesOk, Conserved, Disjoint;
    var more := later.data[|st.data|..];
    assert later.data == st.data + more;
    AllStoredGrows(c, st.data, more, st.log);
  }

  lemma {:induction false} SubsequenceBag<T>(xs: seq<T>, ys: seq<T>)
    requires Subsequence(xs, ys)
    ensures multiset(xs) <= multiset(ys)
  {
    if xs != [] {
      assert ys == [ys[0]] + ys[1..];
      if xs[0] == ys[0] && Subsequence(xs[1..], ys[1..]) {
        SubsequenceBag(xs[1..], ys[1..]);
        assert xs == [xs[0]] + xs[1..];
      } else {
        SubsequenceBag(xs, ys[1..]);
      }
    }
  }

  /** A settled writer has flushed a prefix of what it accepted, and all of it once its buffer is empty. */
  lemma SettledWriter(c: Config, st: State)
    requires Inv(c, st) && st.live.Some? && st.live.value.phase.Idle? && st.base == 0
    ensures DiskOk(c, st)
    ensures st.accepted == LogPoints(st.log) + st.live.value.buffer
  {
    hide TilesOk, Disjoint, NoLostWakeUp, AllStored, AllIndexable, Entries, EntriesBytes, LogPoints;
    assert st.log[0..] == st.log;
    assert LogPoints(st.log) + [] == LogPoints(st.log);
  }

  lemma IdleOffset(c: Config, st: State)
    requires Inv(c, st) && st.live.Some? && st.live.value.phase.Idle?
    ensures st.live.value.offset == |st.data|
  {
  }

  /** One file's answer against the points its writer accepted. */
  lemma DayAnswer(c: Config, st: State, answer: Option<seq<Point>>, s: int64, e: int64)
    requires Inv(c, st) && st.live.Some? && st.live.value.phase.Idle? && st.base == 0 && Unscrapped(st.scraps)
    requires AllReadable(c.lib, c.interval, st.log)
    requires answer == IndexAnswer(c.lib, st.data, ReadIndex(st.index), s, e)
    ensures answer.Some? && multiset(answer.value) <= multiset(Within(st.accepted, s, e))
    ensures Fit(c, st.log) ==>
      && answer.value == Within(LogPoints(st.log), s, e)
      && answer.value + Within(st.live.value.buffer, s, e) == Within(st.accepted, s, e)
  {
    hide Inv, DiskOk, AllReadable, ReadIndex, IndexAnswer, Subsequence, Within, LogPoints, Fit, Unscrapped;
    SettledWriter(c, st);
    FileAnswer(c, st, answer, s, e);
    SubsequenceBag(answer.value, Within(LogPoints(st.log), s, e));
    WithinConcat(LogPoints(st.log), st.live.value.buffer, s, e);
  }

  // ----- the store

  /** The next key of an iteration whose order is left open. */
  method AnyOf(days: set<int>) returns (day: int)
    requires days != {}
    ensures day in days
  {
    assert (forall d: int :: d !in days) ==> days == {};
    day :| day in days;
  }

  /** What a flush of the buffer to a data file of the given size adds to the log. */
  function Flushed(buffer: seq<Point>, size: nat): seq<Placed> {
    if buffer == [] then [] else [Placed(buffer, size)]
  }

  class Store {
    const c: Config
    const tz: int
    const hotDays: int

    var writers: map<Slot, DayWriter>
    var tiers: map<Slot, Tier>

    /** All points accepted so far, by device, in arrival order. */
    ghost var accepted: map<string, seq<Point>>

    ghost function Accepted(device: string): seq<Point>
      reads this`accepted
    {
      if device in accepted then accepted[device] else []
    }

    /** The writer of slot k is between flushes, was opened on an empty file, and accepted exactly its
        device's points of its day, then what `extra` lists for it from the batch being written. */
    ghost predicate Serves(k: Slot, w: DayWriter, extra: map<Slot, seq<Point>>)
      reads this`accepted, w
    {
      && w.c == c && w.device == k.device && w.day == k.day
      && w.Valid() && w.phase == Idle && !w.closing && w.base == 0 && Unscrapped(w.scraps)
      && w.accepted == OnDay(tz, Accepted(k.device), k.day) + (if k in extra then extra[k] else [])
    }

    /** Slots with a writer are served by it; slots without have no points. */
    ghost predicate Holds(extra: map<Slot, seq<Point>>)
      reads this, writers.Values
    {
      && tiers.Keys == writers.Keys && extra.Keys <= writers.Keys
      && (forall k :: k in writers ==> Serves(k, writers[k], extra))
      && (forall k: Slot :: k !in writers ==> OnDay(tz, Accepted(k.device), k.day) == [])
    }

    ghost predicate Valid()
      reads this, writers.Values
    {
      Holds(map[])
    }

    constructor (c: Config, tz: int, hotDays: int)
      ensures Valid() && writers == map[] && accepted == map[]
      ensures this.c == c && this.tz == tz && this.hotDays == hotDays
    {
      this.c, this.tz, this.hotDays := c, tz, hotDays;
      writers, tiers, accepted := map[], map[], map[];
    }

    /** A writer for a slot that has none, opened on files that do not exist yet. */
    method NewWriter(k: Slot, ghost extra: map<Slot, seq<Point>>) returns (w: DayWriter)
      requires OnDay(tz, Accepted(k.device), k.day) == [] && k !in extra
      ensures fresh(w) && Serves(k, w, extra) && w.buffer == [] && w.log == []
    {
      hide Inv, OnDay, Apply, DayWriter.Model, DayWriter.Valid;
      InitInv(c);
      w := new DayWriter(c, k.device, k.day, [], [], INIT);
    }

    /** getOrCreateWriter, called by one goroutine at a time; `now` is the clock. */
    method GetOrCreateWriter(k: Slot, now: int, ghost extra: map<Slot, seq<Point>>) returns (w: DayWriter)
      requires Holds(extra)
      modifies this`writers, this`tiers
      ensures Holds(extra) && k in writers && w == writers[k]
      ensures writers.Keys == old(writers.Keys) + {k}
      ensures forall j :: j in old(writers) ==> writers[j] == old(writers[j]) && tiers[j] == old(tiers[j])
      ensures k !in old(writers) ==> fresh(w) && w.buffer == [] && w.log == []
      ensures k !in old(writers) ==> (tiers[k] == Cold <==> now - k.day * DAY > hotDays * DAY)
    {
      hide OnDay, Serves, Accepted;
      if k in writers {
        return writers[k];
      }
      w := NewWriter(k, extra);
      var tier := if now - k.day * DAY > hotDays * DAY then Cold else Hot;
      writers := writers[k := w];
      tiers := tiers[k := tier];
    }

    /** Hands one day's group to its writer. */
    method Append(k: Slot, w: DayWriter, group: seq<Point>, ghost extra: map<Slot, seq<Point>>)
      requires Serves(k, w, extra) && k !in extra
      modifies w
      ensures Serves(k, w, extra[k := group]) && w.log == old(w.log)
    {
      hide Inv, OnDay, Apply, DayWriter.Model, DayWriter.Valid;
      w.WriteBatch(group);
    }

    lemma ServesElsewhere(j: Slot, w: DayWriter, k: Slot, group: seq<Point>, extra: map<Slot, seq<Point>>)
      requires j != k
      ensures Serves(j, w, extra[k := group]) <==> Serves(j, w, extra)
    {
      hide OnDay, DayWriter.Valid;
    }

    lemma ServesSlot(k: Slot, w: DayWriter, extra: map<Slot, seq<Point>>)
      requires Serves(k, w, extra)
      ensures w.device == k.device && w.day == k.day
    {
    }

    /** One turn of the write loop. */
    method WriteGroup(k: Slot, group: seq<Point>, now: int, ghost extra: map<Slot, seq<Point>>)
      requires Holds(extra) && k !in extra
      modifies this`writers, this`tiers, writers.Values
      ensures Holds(extra[k := group])
      ensures writers.Keys == old(writers.Keys) + {k}
      ensures forall j :: j in old(writers) ==> writers[j] == old(writers[j]) && writers[j].log == old(writers[j].log)
      ensures k !in old(writers) ==> fresh(writers[k]) && writers[k].log == []
    {
      hide OnDay, Serves, Accepted;
      var w := GetOrCreateWriter(k, now, extra);
      forall j | j in writers
        ensures writers[j] == w ==> j == k
      {
        ServesSlot(j, writers[j], extra);
        ServesSlot(k, w, extra);
      }
      Append(k, w, group, extra);
      forall j | j in writers && j != k
        ensures Serves(j, writers[j], extra[k := group])
      {
        ServesElsewhere(j, writers[j], k, group, extra);
      }
    }

    /** Records the whole batch as accepted once every group is with its writer. */
    ghost method Commit(device: string, points: seq<Point>, extra: map<Slot, seq<Point>>)
      requires Holds(extra)
      requires forall k: Slot :: k in extra <==> k.device == device && OnDay(tz, points, k.day) != []
      requires forall k :: k in extra ==> extra[k] == OnDay(tz, points, k.day)
      modifies this`accepted
      ensures Valid() && accepted == old(accepted)[device := old(Accepted(device)) + points]
    {
      hide OnDay, DayWriter.Valid, DayWriter.Model;
      ghost var before := Accepted(device);
      forall d
        ensures OnDay(tz, before + points, d) == OnDay(tz, before, d) + OnDay(tz, points, d)
      {
        OnDayConcat(tz, before, points, d);
      }
      accepted := accepted[device := before + points];
    }

    /** WriteBatch: splits the batch by day and hands each day's points to that day's writer, in any order. */
    method WriteBatch(device: string, points: seq<Point>, now: int)
      requires Valid()
      modifies this, writers.Values
      ensures Valid() && fresh(writers.Values - old(writers.Values))
      ensures accepted ==
        if points == [] then old(accepted) else old(accepted)[device := old(Accepted(device)) + points]
      ensures forall j :: j in old(writers) ==>
        j in writers && writers[j] == old(writers[j]) && writers[j].log == old(writers[j].log)
      ensures forall j :: j in writers && j !in old(writers) ==> writers[j].log == []
    {
      hide OnDay, Holds;
      if |points| == 0 {
        return;
      }
      var groups := GroupByDay(tz, points);
      var pending: set<int> := groups.Keys;
      ghost var extra: map<Slot, seq<Point>> := map[];
      while pending != {}
        invariant pending <= groups.Keys
        invariant fresh(writers.Values - old(writers.Values))
        invariant accepted == old(accepted)
        invariant Holds(extra)
        invariant forall k :: k in extra <==> k.device == device && k.day in groups && k.day !in pending
        invariant forall k :: k in extra ==> extra[k] == groups[k.day]
        invariant forall j :: j in old(writers) ==>
          j in writers && writers[j] == old(writers[j]) && writers[j].log == old(writers[j].log)
        invariant forall j :: j in writers && j !in old(writers) ==> writers[j].log == []
        decreases pending
      {
        var day := AnyOf(pending);
        var k := Slot(device, day);
        WriteGroup(k, groups[day], now, extra);
        extra := extra[k := groups[day]];
        pending := pending - {day};
      }
      Commit(device, points, extra);
    }
  
    /** A tick of one writer's flush loop. */
    method Tick(k: Slot)
      requires Valid() && k in writers && writers[k].Room()
      modifies writers[k]
      ensures Valid() && writers[k].buffer == []
      ensures writers[k].log == old(writers[k].log) + Flushed(old(writers[k].buffer), |old(writers[k].data)|)
    {
      hide OnDay, Serves, DayWriter.Room;
      var w := writers[k];
      SeparateWriters(k);
      TickOne(k, w);
    }

    method TickOne(k: Slot, w: DayWriter)
      requires Serves(k, w, map[]) && w.Room()
      modifies w
      ensures Serves(k, w, map[]) && w.buffer == []
      ensures w.log == old(w.log) + Flushed(old(w.buffer), |old(w.data)|)
    {
      hide OnDay, Inv, FlushEnd, Block, EntryBytes, Entries;
      ghost var woken := Do(c, w.Model(), TickWake);
      IdleOffset(c, w.Model());
      FlushEndMeans(c, woken);
      w.FlushOnTick();
    }

    /** Every writer's buffer has become one block at the old end of its file, if it held anything. */
    twostate predicate Ticked()
      reads this, writers.Values
    {
      && writers == old(writers)
      && forall k :: k in old(writers) ==>
           && old(writers)[k].buffer == []
           && old(writers)[k].log == old(writers[k].log) + Flushed(old(writers[k].buffer), |old(writers[k].data)|)
    }

    /** A tick of every writer: what a second without new writes does to the store. */
    method TickAll()
      requires Valid()
      requires forall k :: k in writers ==> writers[k].Room()
      modifies writers.Values
      ensures Valid() && Ticked()
    {
      hide Holds, DayWriter.Room, DayWriter.Valid;
      var pending: set<Slot> := writers.Keys;
      while pending != {}
        invariant pending <= writers.Keys
        invariant Valid()
        invariant forall k :: k in pending ==>
          && writers[k].Room() && writers[k].log == old(writers[k].log)
          && writers[k].buffer == old(writers[k].buffer) && writers[k].data == old(writers[k].data)
        invariant forall k :: k in writers && k !in pending ==>
          && writers[k].buffer == []
          && writers[k].log == old(writers[k].log) + Flushed(old(writers[k].buffer), |old(writers[k].data)|)
        decreases pending
      {
        assert (forall k: Slot :: k !in pending) ==> pending == {};
        var k :| k in pending;
        SeparateWriters(k);
        Tick(k);
        pending := pending - {k};
      }
    }

    lemma SeparateWriters(k: Slot)
      requires Valid() && k in writers
      ensures forall j :: j in writers && j != k ==> writers[j] != writers[k]
    {
      hide OnDay, Serves;
      forall j | j in writers && j != k
        ensures writers[j] != writers[k]
      {
        ServesSlot(j, writers[j], map[]);
        ServesSlot(k, writers[k], map[]);
      }
    }

    /** Every file of the device can be read back. */
    ghost predicate Readables(device: string)
      reads this`writers, writers.Values
    {
      forall k :: k in writers && k.device == device ==> AllReadable(c.lib, c.interval, writers[k].log)
    }

    /** Every file of the device meets the index condition. */
    ghost predicate Fits(device: string)
      reads this`writers, writers.Values
    {
      forall k :: k in writers && k.device == device ==> Fit(c, writers[k].log)
    }

    /** Moreover nothing waits in a buffer. */
    ghost predicate Ready(device: string)
      reads this`writers, writers.Values
    {
      Fits(device) && forall k :: k in writers && k.device == device ==> writers[k].buffer == []
    }

    /** What the file of slot k answers, whatever its writer still holds back. */
    ghost function FileNow(k: Slot, s: int64, e: int64): seq<Point>
      reads this`writers, writers.Values
    {
      if k !in writers then []
      else
        var answer := IndexAnswer(c.lib, writers[k].data, ReadIndex(writers[k].index), s, e);
        if answer == None then [] else answer.value
    }

    /** What the writer of slot k holds back. */
    ghost function WaitingNow(k: Slot, s: int64, e: int64): seq<Point>
      reads this`writers, writers.Values
    {
      if k !in writers then [] else Within(writers[k].buffer, s, e)
    }

    ghost function FilesOver(device: string, days: seq<int>, s: int64, e: int64): seq<Point>
      reads this`writers, writers.Values
    {
      var n := |days|;
      if n == 0 then [] else FilesOver(device, days[..n - 1], s, e) + FileNow(Slot(device, days[n - 1]), s, e)
    }

    ghost function WaitingOver(device: string, days: seq<int>, s: int64, e: int64): seq<Point>
      reads this`writers, writers.Values
    {
      var n := |days|;
      if n == 0 then [] else WaitingOver(device, days[..n - 1], s, e) + WaitingNow(Slot(device, days[n - 1]), s, e)
    }

    lemma OverOneMore(device: string, days: seq<int>, day: int, s: int64, e: int64)
      ensures FilesOver(device, days + [day], s, e) == FilesOver(device, days, s, e) + FileNow(Slot(device, day), s, e)
      ensures WaitingOver(device, days + [day], s, e)
        == WaitingOver(device, days, s, e) + WaitingNow(Slot(device, day), s, e)
    {
      hide FileNow, WaitingNow;
      assert (days + [day])[..|days|] == days;
    }

    /** The data file of slot k in a tier. */
    function DataAt(k: Slot, tier: Tier): Option<seq<byte>>
      reads this`writers, this`tiers, writers.Values
    {
      if k in writers && k in tiers && tiers[k] == tier then Some(writers[k].data) else None
    }

    function IndexAt(k: Slot, tier: Tier): Option<seq<byte>>
      reads this`writers, this`tiers, writers.Values
    {
      if k in writers && k in tiers && tiers[k] == tier then Some(writers[k].index) else None
    }

    /** A day's points as the query sees them. */
    method QueryDay(k: Slot, s: int64, e: int64) returns (points: seq<Point>)
      requires Valid()
      ensures points == FileNow(k, s, e)
      ensures k !in writers || AllReadable(c.lib, c.interval, writers[k].log) ==>
        multiset(points) <= multiset(Within(OnDay(tz, Accepted(k.device), k.day), s, e))
      ensures k in writers && Fit(c, writers[k].log) ==> points == Within(LogPoints(writers[k].log), s, e)
      ensures k !in writers || Fit(c, writers[k].log) ==>
        points + WaitingNow(k, s, e) == Within(OnDay(tz, Accepted(k.device), k.day), s, e)
    {
      hide OnDay, Within, Fit, AllReadable, LogPoints, IndexAnswer, ReadIndex, DayWriter.Valid;
      points := QueryTiers(c.lib, DataAt(k, Hot), IndexAt(k, Hot), DataAt(k, Cold), IndexAt(k, Cold), s, e);
      if k !in writers { NothingWithin(s, e); } else { SlotAnswer(k, s, e); }
      assert points == FileNow(k, s, e);
    }

    /** The answer of a slot's file against what the slot has accepted. */
    lemma SlotAnswer(k: Slot, s: int64, e: int64)
      requires Valid() && k in writers
      ensures AllReadable(c.lib, c.interval, writers[k].log) ==>
        multiset(FileNow(k, s, e)) <= multiset(Within(OnDay(tz, Accepted(k.device), k.day), s, e))
      ensures Fit(c, writers[k].log) ==>
        && FileNow(k, s, e) == Within(LogPoints(writers[k].log), s, e)
        && FileNow(k, s, e) + Within(writers[k].buffer, s, e) == Within(OnDay(tz, Accepted(k.device), k.day), s, e)
    {
      hide OnDay, Within, Fit, AllReadable, Inv, IndexAnswer, ReadIndex, EndsSorted, Entries, LogPoints;
      var w := writers[k];
      assert Serves(k, w, map[]);
      FitReadable(c, w.log);
      assert OnDay(tz, Accepted(k.device), k.day) + [] == OnDay(tz, Accepted(k.device), k.day);
      if AllReadable(c.lib, c.interval, w.log) {
        DayAnswer(c, w.Model(), IndexAnswer(c.lib, w.data, ReadIndex(w.index), s, e), s, e);
      }
    }

    /** Drained buffers, arrival in time order within each day, and no raw block with checksum 0 among several
        are enough for queries to be exact. */
    lemma OrderedArrivalReady(device: string)
      requires Valid() && Readables(device)
      requires forall k :: k in writers && k.device == device ==>
        && writers[k].buffer == []
        && TimeOrdered(writers[k].accepted)
        && (|writers[k].log| <= 1 || NoneLooksLegacy(c.lib, c.interval, writers[k].log))
      ensures Ready(device)
    {
      hide OnDay, Inv, AllReadable, NoneLooksLegacy, TimeOrdered, Bracketed, StartsInOrder, EndsInOrder,
        SearchReaches, Entries;
      forall k | k in writers && k.device == device
        ensures Fit(c, writers[k].log)
      {
        var w := writers[k];
        assert Serves(k, w, map[]);
        SettledWriter(c, w.Model());
        assert LogPoints(w.log) + [] == LogPoints(w.log);
        StoredNonEmpty(c, w.Model());
        OrderedArrivalSuffices(w.log);
        OrderedEndsReach(w.log);
      }
    }

    /** The days are those of the query loop, each once, in some order. */
    ghost predicate Visits(days: seq<int>, s: int64, e: int64) {
      && (forall i, j :: 0 <= i < j < |days| ==> days[i] != days[j])
      && exists k: nat :: VisitsExactly(k, s, e) && forall d :: d in days <==> Day(tz, s) <= d < Day(tz, s) + k
    }

    /** The days so far, each once, and what their files gave, against what was accepted on them. */
    ghost predicate Gathered(device: string, order: seq<int>, days: set<int>, all: seq<Point>, s: int64, e: int64)
      reads this, writers.Values
    {
      && (forall d :: d in order <==> d in days)
      && (forall i, j :: 0 <= i < j < |order| ==> order[i] != order[j])
      && all == FilesOver(device, order, s, e)
      && (Readables(device) ==> multiset(all) <= multiset(OnDays(tz, Accepted(device), days, s, e)))
      && (Fits(device) ==>
            multiset(all) + multiset(WaitingOver(device, order, s, e))
            == multiset(OnDays(tz, Accepted(device), days, s, e)))
    }

    lemma NothingGathered(device: string, s: int64, e: int64)
      ensures Gathered(device, [], {}, [], s, e)
    {
      hide OnDays;
      NoDays(tz, Accepted(device), s, e);
      OverNothing(device, s, e);
    }

    lemma OneMoreGathered(device: string, order: seq<int>, days: set<int>, all: seq<Point>, day: int,
      points: seq<Point>,
      s: int64, e: int64)
      requires Gathered(device, order, days, all, s, e) && day !in days
      requires points == FileNow(Slot(device, day), s, e)
      requires Readables(device) ==> multiset(points) <= multiset(Within(OnDay(tz, Accepted(device), day), s, e))
      requires Fits(device) ==>
        multiset(points) + multiset(WaitingNow(Slot(device, day), s, e))
        == multiset(Within(OnDay(tz, Accepted(device), day), s, e))
      ensures Gathered(device, order + [day], days + {day}, all + points, s, e)
    {
      hide OnDay, OnDays, Within, FileNow, WaitingNow, FilesOver, WaitingOver, Readables, Fits, Accepted;
      OneMoreDay(tz, Accepted(device), days, day, s, e);
      OverOneMore(device, order, day, s, e);
    }

    /** The goroutines of a query, one for each day, which append their points as they finish. */
    method GatherDays(device: string, days: set<int>, s: int64, e: int64)
      returns (all: seq<Point>, ghost order: seq<int>)
      requires Valid()
      ensures Gathered(device, order, days, all, s, e)
    {
      hide OnDay, Within, Fit, AllReadable, DayWriter.Valid, Holds, FileNow, WaitingNow, Readables, Fits, Gathered;
      all := [];
      order := [];
      NothingGathered(device, s, e);
      ghost var done: set<int> := {};
      var pending: set<int> := days;
      while pending != {}
        invariant done !! pending && done + pending == days
        invariant Gathered(device, order, done, all, s, e)
        decreases pending
      {
        var day := AnyOf(pending);
        var points := QueryDay(Slot(device, day), s, e);
        OneMoreAnswer(device, day, points, s, e);
        OneMoreGathered(device, order, done, all, day, points, s, e);
        all := all + points;
        order := order + [day];
        done := done + {day};
        pending := pending - {day};
      }
      assert done == days;
    }

    /** Query. It returns what the files of the visited days answer, day by day in some order of the days.
        Whatever the order of arrival, those are only points accepted for the device in the range, each at most as
        often as accepted. If every file meets the index condition, the answer and what waits in buffers are
        together all of them; once the buffers are drained the answer is. */
    method Query(device: string, s: int64, e: int64) returns (all: seq<Point>)
      requires Valid()
      ensures Readables(device) ==> multiset(all) <= multiset(Within(Accepted(device), s, e))
      ensures exists days: seq<int> ::
        && Visits(days, s, e) && all == FilesOver(device, days, s, e)
        && (Fits(device) ==>
              multiset(all) + multiset(WaitingOver(device, days, s, e)) == multiset(Within(Accepted(device), s, e)))
      ensures Ready(device) ==> multiset(all) == multiset(Within(Accepted(device), s, e))
    {
      hide OnDay, OnDays, Within, Fit, AllReadable, DayWriter.Valid, Holds, Day, FileNow, WaitingNow, FilesOver,
        WaitingOver, Readables;
      var days := VisitDays(tz, s, e);
      VisitsCover(tz, s, e, |days|);
      var visited := set d | d in days;
      ghost var order;
      all, order := GatherDays(device, visited, s, e);
      EnoughDays(tz, Accepted(device), visited, s, e);
      assert Visits(order, s, e);
      if Ready(device) { NothingWaits(device, order, s, e); }
    }

    lemma OverNothing(device: string, s: int64, e: int64)
      ensures FilesOver(device, [], s, e) == [] && WaitingOver(device, [], s, e) == []
    {
    }

    /** One day's answer, in the terms of the device. */
    lemma OneMoreAnswer(device: string, day: int, points: seq<Point>, s: int64, e: int64)
      requires var k := Slot(device, day); k !in writers || AllReadable(c.lib, c.interval, writers[k].log) ==>
        multiset(points) <= multiset(Within(OnDay(tz, Accepted(device), day), s, e))
      requires var k := Slot(device, day); k !in writers || Fit(c, writers[k].log) ==>
        points + WaitingNow(k, s, e) == Within(OnDay(tz, Accepted(device), day), s, e)
      ensures Readables(device) ==> multiset(points) <= multiset(Within(OnDay(tz, Accepted(device), day), s, e))
      ensures Fits(device) ==>
        multiset(points) + multiset(WaitingNow(Slot(device, day), s, e))
        == multiset(Within(OnDay(tz, Accepted(device), day), s, e))
    {
      hide OnDay, Within, Fit, AllReadable, WaitingNow;
      if Fits(device) {
        assert multiset(points + WaitingNow(Slot(device, day), s, e))
          == multiset(points) + multiset(WaitingNow(Slot(device, day), s, e));
      }
    }

    lemma NothingWaits(device: string, days: seq<int>, s: int64, e: int64)
      requires Ready(device)
      ensures WaitingOver(device, days, s, e) == []
    {
      hide Fit;
      var n := |days|;
      NothingWithin(s, e);
      if n > 0 {
        NothingWaits(device, days[..n - 1], s, e);
      }
    }
  }

  lemma StoredNonEmpty(c: Config, st: State)
    requires DiskOk(c, st)
    ensures NonEmpty(st.log)
  {
    hide Entries, EntriesBytes;
    AllStoredIndexable(c.lib, c.interval, st.data, st.log);
  }

  lemma FitReadable(c: Config, log: seq<Placed>)
    ensures Fit(c, log) ==> AllReadable(c.lib, c.interval, log)
  {
  }
}
