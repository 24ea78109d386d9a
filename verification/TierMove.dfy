/** The interleavings of one move with one query of the same day. */
module TierMove {
  import opened Bytes
  import opened Points
  import opened IndexFile
  import opened Blocks
  import opened Reader
  import opened WholeFile
  import opened Tiering
  import opened Tiers

  /** The files of one device and day that a query may open; None where there is no such file. */
  datatype Files = Files(
    hotData: Option<seq<byte>>, hotIndex: Option<seq<byte>>,
    coldData: Option<seq<byte>>, coldIndex: Option<seq<byte>>)

  /** Where the mover stands; `copied` is how much of the index copy is written. */
  datatype Mover =
    | Scanning
    | TempWritten
    | Renamed
    | Copying(copied: nat)
    | IndexCopied
    | DataRemoved
    | Moved

  /** Where the query stands in the file of a tier: before the existence check, before reading the index,
      before opening the data, before reading the blocks. */
  datatype Stage =
    | Arrive(tier: Tier)
    | Exists(tier: Tier)
    | HasIndex(tier: Tier, index: Option<seq<IndexEntry>>)
    | HasData(tier: Tier, index: Option<seq<IndexEntry>>, data: seq<byte>)
    | Answered

  datatype State = State(files: Files, mover: Mover, stage: Stage, got: seq<Point>)

  datatype Range = Range(s: int64, e: int64)

  function DataOf(f: Files, tier: Tier): Option<seq<byte>> {
    if tier.Hot? then f.hotData else f.coldData
  }

  function IndexOf(f: Files, tier: Tier): Option<seq<byte>> {
    if tier.Hot? then f.hotIndex else f.coldIndex
  }

  // ----- the mover's steps

  /** The next step of moveColdData; `n` is how far a write of the index copy gets. */
  function MoverStep(m: Setting, st: State, n: nat): State
    requires HotOk(m)
  {
    var f := st.files;
    var index := EntryBytes(HotEntry(m));
    match st.mover
    case Scanning => st.(mover := TempWritten)
    case TempWritten => st.(mover := Renamed, files := f.(coldData := Some(ColdBytes(m))))
    case Renamed => st.(mover := Copying(0), files := f.(coldIndex := Some([])))
    case Copying(k) =>
      if k < n < 36 then st.(mover := Copying(n), files := f.(coldIndex := Some(index[..n])))
      else st.(mover := IndexCopied, files := f.(coldIndex := Some(index)))
    case IndexCopied => st.(mover := DataRemoved, files := f.(hotData := None))
    case DataRemoved => st.(mover := Moved, files := f.(hotIndex := None))
    case Moved => st
  }

  // ----- the query's steps

  /** The end of the read of one tier's file. */
  function Leave(st: State, tier: Tier, points: seq<Point>): State {
    st.(got := st.got + points, stage := if tier.Hot? then Arrive(Cold) else Answered)
  }

  /** What the opened file answers: with an index the indexed query, whose error return yields nothing;
      without one the full scan. */
  function OpenedAnswer(m: Setting, index: Option<seq<IndexEntry>>, data: seq<byte>, r: Range): seq<Point> {
    match index
    case None => FullScan(m.lib, data, r.s, r.e)
    case Some(xs) =>
      var answer := IndexAnswer(m.lib, data, xs, r.s, r.e);
      if answer.Some? then answer.value else []
  }

  /** The next step of the query's goroutine for this day. */
  function QueryStep(m: Setting, r: Range, st: State): State {
    match st.stage
    case Arrive(t) => if DataOf(st.files, t).None? then Leave(st, t, []) else st.(stage := Exists(t))
    case Exists(t) =>
      var index := IndexOf(st.files, t);
      st.(stage := HasIndex(t, if index.None? then None else Some(ReadIndex(index.value))))
    case HasIndex(t, index) =>
      var data := DataOf(st.files, t);
      if data.None? then Leave(st, t, []) else st.(stage := HasData(t, index, data.value))
    case HasData(t, index, data) => Leave(st, t, OpenedAnswer(m, index, data, r))
    case Answered => st
  }

  datatype Event = Move(n: nat) | Read

  function Step(m: Setting, r: Range, st: State, ev: Event): State
    requires HotOk(m)
  {
    if ev.Move? then MoverStep(m, st, ev.n) else QueryStep(m, r, st)
  }

  function Run(m: Setting, r: Range, st: State, evs: seq<Event>): State
    requires HotOk(m)
    decreases |evs|
  {
    if evs == [] then st else Run(m, r, Step(m, r, st, evs[0]), evs[1..])
  }

  function Init(m: Setting): State
    requires HotOk(m)
  {
    State(Files(Some(HotBytes(m)), Some(EntryBytes(HotEntry(m))), None, None), Scanning, Arrive(Hot), [])
  }

  // ----- the invariant

  /** The files are what the mover has made of them so far. */
  predicate FilesOk(m: Setting, st: State)
    requires HotOk(m)
  {
    var f := st.files;
    var index := EntryBytes(HotEntry(m));
    && f.hotData == (if st.mover.DataRemoved? || st.mover.Moved? then None else Some(HotBytes(m)))
    && f.hotIndex == (if st.mover.Moved? then None else Some(index))
    && f.coldData == (if st.mover.Scanning? || st.mover.TempWritten? then None else Some(ColdBytes(m)))
    && match st.mover
       case Copying(k) => k < 36 && f.coldIndex == Some(index[..k])
       case IndexCopied => f.coldIndex == Some(index)
       case DataRemoved => f.coldIndex == Some(index)
       case Moved => f.coldIndex == Some(index)
       case _ => f.coldIndex == None
  }

  predicate BeforeRename(st: State) { st.mover.Scanning? || st.mover.TempWritten? }

  predicate HotGone(st: State) { st.mover.DataRemoved? || st.mover.Moved? }

  /** An index that a query may have read beside the cold file. */
  predicate ColdIndexOk(m: Setting, index: Option<seq<IndexEntry>>)
    requires HotOk(m)
  {
    index in {None, Some([]), Some([HotEntry(m)]), Some([HotEntry(m).(crc := 0)])}
  }

  /** After the hot file the query holds the file's answer or, if the hot file was gone, nothing; then the
      cold file's index was complete, and stays so. */
  predicate QueryOk(m: Setting, r: Range, st: State)
    requires HotOk(m)
  {
    var own := Indexed(m, r.s, r.e);
    var whole := Some([HotEntry(m)]);
    match st.stage
    case Arrive(t) => if t.Hot? then st.got == [] else st.got == own || (st.got == [] && HotGone(st))
    case Exists(t) =>
      if t.Hot? then st.got == []
      else !st.files.coldData.None? && (st.got == own || (st.got == [] && HotGone(st)))
    case HasIndex(t, index) =>
      if t.Hot? then st.got == [] && (index == whole || (index == None && st.mover.Moved?))
      else !st.files.coldData.None? && ColdIndexOk(m, index) && (st.got == own || (st.got == [] && index == whole))
    case HasData(t, index, data) =>
      if t.Hot? then st.got == [] && index == whole && data == HotBytes(m)
      else
        && data == ColdBytes(m) && !BeforeRename(st) && ColdIndexOk(m, index)
        && (st.got == own || (st.got == [] && index == whole))
    case Answered =>
      st.got == own || (st.got in {own + own, own + Within(m.batch, r.s, r.e)} && !BeforeRename(st))
  }

  predicate Safe(m: Setting) {
    HotOk(m) && SafeToMove(m) && Readable(ColdLibrary(m), m.interval, m.batch)
  }

  lemma MoverKeeps(m: Setting, r: Range, st: State, n: nat)
    requires HotOk(m) && FilesOk(m, st) && QueryOk(m, r, st)
    ensures var t := MoverStep(m, st, n); FilesOk(m, t) && QueryOk(m, r, t)
  {
    hide HotOk, HotEntry, HotBytes, ColdBytes, EntryBytes, Within, ColdIndexOk, Indexed;
  }

  /** Every index that the files can hold reads as one of the four. */
  lemma IndexReads(m: Setting, st: State, tier: Tier)
    requires HotOk(m) && FilesOk(m, st) && (tier.Cold? ==> !st.files.coldData.None?)
    ensures var index := IndexOf(st.files, tier);
      var xs := if index.None? then None else Some(ReadIndex(index.value));
      && ColdIndexOk(m, xs)
      && (tier.Hot? ==> xs == if st.mover.Moved? then None else Some([HotEntry(m)]))
      && (tier.Cold? && HotGone(st) ==> xs == Some([HotEntry(m)]))
  {
    hide HotOk, HotEntry, HotBytes, ColdBytes, EntryBytes, ReadIndex;
    PartialIndex(m, 36);
    assert EntryBytes(HotEntry(m))[..36] == EntryBytes(HotEntry(m));
    if st.mover.Copying? {
      PartialIndex(m, st.mover.copied);
    }
  }

  /** What the cold file gives a query, by the index it found. */
  lemma ColdFileAnswer(m: Setting, index: Option<seq<IndexEntry>>, r: Range)
    requires Safe(m) && ColdIndexOk(m, index)
    ensures var got := OpenedAnswer(m, index, ColdBytes(m), r);
      got == match index
             case None => Within(m.batch, r.s, r.e)
             case Some(xs) => if xs == [] then [] else Indexed(m, r.s, r.e)
  {
    hide HotOk, HotEntry, HotBytes, ColdBytes, Within, IndexAnswer, FullScan, Readable, Indexed;
    ColdAnswers(m, r.s, r.e);
    NoEntries(m.lib, ColdBytes(m), r.s, r.e);
  }

  lemma NoEntries(lib: Library, file: seq<byte>, s: int64, e: int64)
    ensures IndexAnswer(lib, file, [], s, e) == Some([])
  {
  }

  lemma QueryKeeps(m: Setting, r: Range, st: State)
    requires Safe(m) && FilesOk(m, st) && QueryOk(m, r, st)
    ensures var t := QueryStep(m, r, st); FilesOk(m, t) && QueryOk(m, r, t)
  {
    hide HotOk, HotEntry, HotBytes, ColdBytes, EntryBytes, Within, ReadIndex, SafeToMove, Readable, IndexAnswer,
      FullScan, Indexed;
    var own := Indexed(m, r.s, r.e);
    assert [] + own == own && own + [] == own;
    match st.stage
    case Exists(t) =>
      IndexReads(m, st, t);
    case HasData(t, index, data) =>
      if t.Hot? {
        HotAnswers(m, r.s, r.e);
      } else {
        ColdFileAnswer(m, index, r);
      }
    case _ =>
  }

  lemma {:induction false} RunKeeps(m: Setting, r: Range, st: State, evs: seq<Event>)
    requires Safe(m) && FilesOk(m, st) && QueryOk(m, r, st)
    ensures var t := Run(m, r, st, evs); FilesOk(m, t) && QueryOk(m, r, t)
    decreases |evs|
  {
    hide HotOk, FilesOk, QueryOk, MoverStep, QueryStep, SafeToMove, Readable;
    if evs != [] {
      if evs[0].Move? {
        MoverKeeps(m, r, st, evs[0].n);
      } else {
        QueryKeeps(m, r, st);
      }
      RunKeeps(m, r, Step(m, r, st, evs[0]), evs[1..]);
    }
  }

  /** Tiering never hides data: whatever the interleaving and the order of the points, a query that ran to its
      end returned what the hot file's index alone would have given it once, or twice over, or once and then the
      time filter; more than once only if the cold file was in place by then. For points between the first
      and the last one that is the day's points in range once or twice. */
  lemma TieringHidesNothing(m: Setting, r: Range, evs: seq<Event>)
    requires Safe(m)
    ensures var t := Run(m, r, Init(m), evs); var own, all := Indexed(m, r.s, r.e), Within(m.batch, r.s, r.e);
      t.stage.Answered? ==>
        && (t.got == own || (t.got in {own + own, own + all} && !BeforeRename(t)))
        && (InOrder(m) ==> t.got == all || (t.got == all + all && !BeforeRename(t)))
  {
    hide HotOk, HotEntry, HotBytes, ColdBytes, EntryBytes, SafeToMove, Readable, Within, Indexed, InOrder;
    SomePoints(m);
    IndexedExact(m);
    RunKeeps(m, r, Init(m), evs);
  }

  // ----- a query that starts after the move

  function AfterMove(m: Setting): State
    requires HotOk(m)
  {
    State(Files(None, None, Some(ColdBytes(m)), Some(EntryBytes(HotEntry(m)))), Moved, Arrive(Hot), [])
  }

  /** That state's files are the ones every finished move leaves. */
  lemma MoveEndsThere(m: Setting, r: Range, evs: seq<Event>)
    requires Safe(m)
    ensures Run(m, r, Init(m), evs).mover.Moved? ==> Run(m, r, Init(m), evs).files == AfterMove(m).files
  {
    hide HotOk, HotEntry, HotBytes, ColdBytes, EntryBytes, SafeToMove, Readable, Within;
    RunKeeps(m, r, Init(m), evs);
  }

  /** Such a query finds only the cold file, with its whole index. */
  predicate LateOk(m: Setting, r: Range, st: State)
    requires HotOk(m)
  {
    && st.files == AfterMove(m).files && st.mover == Moved
    && match st.stage
       case Arrive(_) => st.got == []
       case Exists(t) => st.got == [] && t.Cold?
       case HasIndex(t, index) => st.got == [] && t.Cold? && index == Some([HotEntry(m)])
       case HasData(t, index, data) => st.got == [] && t.Cold? && index == Some([HotEntry(m)]) && data == ColdBytes(m)
       case Answered => st.got == Indexed(m, r.s, r.e)
  }

  lemma LateStep(m: Setting, r: Range, st: State, ev: Event)
    requires Safe(m) && LateOk(m, r, st)
    ensures LateOk(m, r, Step(m, r, st, ev))
  {
    hide HotOk, HotEntry, HotBytes, ColdBytes, EntryBytes, Within, ReadIndex, SafeToMove, Readable, IndexAnswer,
      FullScan, Indexed;
    var own := Indexed(m, r.s, r.e);
    assert [] + own == own;
    PartialIndex(m, 36);
    assert EntryBytes(HotEntry(m))[..36] == EntryBytes(HotEntry(m));
    ColdAnswers(m, r.s, r.e);
  }

  lemma {:induction false} LateRun(m: Setting, r: Range, st: State, evs: seq<Event>)
    requires Safe(m) && LateOk(m, r, st)
    ensures LateOk(m, r, Run(m, r, st, evs))
    decreases |evs|
  {
    hide HotOk, LateOk, Step, SafeToMove, Readable;
    if evs != [] {
      LateStep(m, r, st, evs[0]);
      LateRun(m, r, Step(m, r, st, evs[0]), evs[1..]);
    }
  }

  /** A query that starts after the move returns exactly once what the hot file gave before it: for points
      between the first and the last one, the day's points in range. */
  lemma OnceAfterMove(m: Setting, r: Range, evs: seq<Event>)
    requires Safe(m)
    ensures var t := Run(m, r, AfterMove(m), evs);
      t.stage.Answered? ==> t.got == Indexed(m, r.s, r.e) && (InOrder(m) ==> t.got == Within(m.batch, r.s, r.e))
  {
    hide HotOk, HotEntry, HotBytes, ColdBytes, EntryBytes, SafeToMove, Readable, Within, Indexed, InOrder;
    SomePoints(m);
    IndexedExact(m);
    LateRun(m, r, AfterMove(m), evs);
  }

  // ----- both come to an end

  /** Steps that the mover has left at most: each one writes a byte of the index copy or does the next thing. */
  function MoverSteps(mover: Mover): nat {
    match mover
    case Scanning => 42
    case TempWritten => 41
    case Renamed => 40
    case Copying(k) => if k < 36 then 39 - k else 3
    case IndexCopied => 2
    case DataRemoved => 1
    case Moved => 0
  }

  /** Steps that the query has left. */
  function QuerySteps(stage: Stage): nat {
    match stage
    case Arrive(t) => if t.Hot? then 8 else 4
    case Exists(t) => if t.Hot? then 7 else 3
    case HasIndex(t, _) => if t.Hot? then 6 else 2
    case HasData(t, _, _) => if t.Hot? then 5 else 1
    case Answered => 0
  }

  function Count(evs: seq<Event>, move: bool): nat {
    if evs == [] then 0 else (if evs[0].Move? == move then 1 else 0) + Count(evs[1..], move)
  }

  lemma {:induction false} StepsCount(m: Setting, r: Range, st: State, evs: seq<Event>)
    requires HotOk(m)
    ensures var t := Run(m, r, st, evs);
      && MoverSteps(t.mover) + Count(evs, true)
        <= MoverSteps(st.mover) + (if t.mover.Moved? then Count(evs, true) else 0)
      && QuerySteps(t.stage) + Count(evs, false)
        <= QuerySteps(st.stage) + (if t.stage.Answered? then Count(evs, false) else 0)
    decreases |evs|
  {
    hide HotOk, HotEntry, EntryBytes, ColdBytes, OpenedAnswer, ReadIndex;
    if evs != [] {
      OneStep(m, r, st, evs[0]);
      StepsCount(m, r, Step(m, r, st, evs[0]), evs[1..]);
    }
  }

  lemma OneStep(m: Setting, r: Range, st: State, ev: Event)
    requires HotOk(m)
    ensures var t := Step(m, r, st, ev);
      if ev.Move?
      then t.stage == st.stage && t.got == st.got && (st.mover.Moved? ==> t == st)
           && (!st.mover.Moved? ==> MoverSteps(t.mover) < MoverSteps(st.mover))
      else t.mover == st.mover && t.files == st.files && (st.stage.Answered? ==> t == st)
           && (!st.stage.Answered? ==> QuerySteps(t.stage) < QuerySteps(st.stage))
  {
    hide HotOk, HotEntry, EntryBytes, ColdBytes, OpenedAnswer, ReadIndex;
  }

  /** Both come to an end: from any state, whatever the interleaving, 42 steps of the mover end the move and
      eight steps of the query end the query. */
  lemma BothEnd(m: Setting, r: Range, st: State, evs: seq<Event>)
    requires HotOk(m)
    ensures Count(evs, true) >= 42 ==> Run(m, r, st, evs).mover.Moved?
    ensures Count(evs, false) >= 8 ==> Run(m, r, st, evs).stage.Answered?
  {
    hide HotOk, Run;
    StepsCount(m, r, st, evs);
  }

  /** With the index copied in one write it takes six steps of the mover. */
  lemma SixMoves(m: Setting, r: Range)
    requires HotOk(m)
    ensures Run(m, r, Init(m), [Move(36), Move(36), Move(36), Move(36), Move(36), Move(36)]) == AfterMove(m)
  {
    hide HotOk, HotEntry, HotBytes, ColdBytes, EntryBytes;
  }

  lemma {:induction false} MovesOnly(m: Setting, r: Range, st: State, evs: seq<Event>)
    requires HotOk(m) && Count(evs, false) == 0
    ensures Run(m, r, st, evs).stage == st.stage && Run(m, r, st, evs).got == st.got
    decreases |evs|
  {
    hide HotOk, Step;
    if evs != [] {
      OneStep(m, r, st, evs[0]);
      MovesOnly(m, r, Step(m, r, st, evs[0]), evs[1..]);
    }
  }

  lemma {:induction false} RunConcat(m: Setting, r: Range, st: State, evs: seq<Event>, more: seq<Event>)
    requires HotOk(m)
    ensures Run(m, r, st, evs + more) == Run(m, r, Run(m, r, st, evs), more)
    decreases |evs|
  {
    hide HotOk, Step;
    if evs == [] {
      assert evs + more == more;
    } else {
      assert (evs + more)[1..] == evs[1..] + more;
      RunConcat(m, r, Step(m, r, st, evs[0]), evs[1..], more);
    }
  }

  /** From the first step of a safe move to the answer of a query begun when it has had its 42: the query ends,
      and returns exactly once what the hot file gave before the move. */
  lemma MoveThenQuery(m: Setting, r: Range, moves: seq<Event>, evs: seq<Event>)
    requires Safe(m) && Count(moves, false) == 0 && Count(moves, true) >= 42 && Count(evs, false) >= 8
    ensures var t := Run(m, r, Init(m), moves + evs);
      && t.mover.Moved? && t.stage.Answered? && t.files == AfterMove(m).files
      && t.got == Indexed(m, r.s, r.e) && (InOrder(m) ==> t.got == Within(m.batch, r.s, r.e))
  {
    hide HotOk, HotEntry, HotBytes, ColdBytes, EntryBytes, SafeToMove, Readable, Within, Indexed, InOrder, Run;
    RunConcat(m, r, Init(m), moves, evs);
    BothEnd(m, r, Init(m), moves);
    MovesOnly(m, r, Init(m), moves);
    MoveEndsThere(m, r, moves);
    assert Run(m, r, Init(m), moves) == AfterMove(m);
    BothEnd(m, r, AfterMove(m), evs);
    OnceAfterMove(m, r, evs);
    LateRun(m, r, AfterMove(m), evs);
  }

  // ----- raw hot files

  lemma RawIsSafe(m: Setting)
    requires RawHot(m) && TimesKeepable(m)
    ensures Safe(m)
  {
    hide SafeToMove, Readable, TimesKeepable, ColdBytes, HotBytes, Compresses;
    RawRewrite(m);
  }

  /** For a raw hot file with times in [0, 2^62] all that is so, whatever the interleaving. */
  lemma RawTieringHidesNothing(m: Setting, r: Range, evs: seq<Event>)
    requires RawHot(m) && TimesKeepable(m)
    ensures var t := Run(m, r, Init(m), evs); var own, all := Indexed(m, r.s, r.e), Within(m.batch, r.s, r.e);
      t.stage.Answered? ==>
        && (t.got == own || (t.got in {own + own, own + all} && !BeforeRename(t)))
        && (InOrder(m) ==> t.got == all || (t.got == all + all && !BeforeRename(t)))
  {
    hide SafeToMove, Readable, TimesKeepable, Run, Within, Indexed, InOrder, BeforeRename, Compresses, HotOk;
    RawIsHot(m);
    RawIsSafe(m);
    TieringHidesNothing(m, r, evs);
  }

  /** Every query after the move returns what the hot file gave before it. */
  ghost predicate LateQueriesKept(m: Setting)
    requires HotOk(m)
  {
    forall r: Range, evs: seq<Event> ::
      Run(m, r, AfterMove(m), evs).stage.Answered? ==> Run(m, r, AfterMove(m), evs).got == Indexed(m, r.s, r.e)
  }

  /** Every query after the move returns the day's points in range. */
  ghost predicate LateQueriesExact(m: Setting)
    requires HotOk(m)
  {
    forall r: Range, evs: seq<Event> ::
      Run(m, r, AfterMove(m), evs).stage.Answered? ==> Run(m, r, AfterMove(m), evs).got == Within(m.batch, r.s, r.e)
  }

  /** For a raw hot file the first is so exactly when all its times are in [0, 2^62], the second exactly when,
      besides, its points lie between the first and the last one. */
  lemma OnceAfterRawMoveExactly(m: Setting)
    requires RawHot(m)
    ensures LateQueriesKept(m) <==> TimesKeepable(m)
    ensures LateQueriesExact(m) <==> TimesKeepable(m) && InOrder(m)
  {
    hide HotOk, SafeToMove, Readable, TimesKeepable, Run, Within, RawHot, Indexed, InOrder;
    RawIsHot(m);
    IndexedExact(m);
    if TimesKeepable(m) {
      RawIsSafe(m);
      forall r: Range, evs: seq<Event> | Run(m, r, AfterMove(m), evs).stage.Answered?
        ensures Run(m, r, AfterMove(m), evs).got == Indexed(m, r.s, r.e)
      {
        OnceAfterMove(m, r, evs);
      }
      forall r: Range
        ensures var t := Run(m, r, AfterMove(m), FIVE_READS); t.stage.Answered? && t.got == Indexed(m, r.s, r.e)
      {
        FiveReads(m, r);
        OnceAfterMove(m, r, FIVE_READS);
      }
      if LateQueriesExact(m) {
        forall s: int64, e: int64
          ensures Indexed(m, s, e) == Within(m.batch, s, e)
        {
          var r := Range(s, e);
          assert Run(m, r, AfterMove(m), FIVE_READS).stage.Answered?;
        }
      }
    } else {
      ShortMoveLoses(m);
      assert !LateQueriesKept(m) && !LateQueriesExact(m);
    }
  }

  /** Otherwise the file is cut short, and the query over all times loses everything. */
  lemma ShortMoveLoses(m: Setting)
    requires RawHot(m) && !TimesKeepable(m)
    ensures var r := Range(ALWAYS_FROM, ALWAYS_TO); var t := Run(m, r, AfterMove(m), FIVE_READS);
      t.stage.Answered? && t.got == [] && [] != Indexed(m, r.s, r.e) == Within(m.batch, r.s, r.e)
  {
    hide HotOk, SafeToMove, TimesKeepable, Run, Within, RawHot, Indexed, ReadsBack, IndexAnswer, FullScan;
    RawIsHot(m);
    ShortMoveFails(m);
    FullRangeAnswer(m);
    FiveReads(m, Range(ALWAYS_FROM, ALWAYS_TO));
    WithinEverything(m.batch);
  }

  lemma RawIsHot(m: Setting)
    requires RawHot(m)
    ensures HotOk(m) && m.batch != []
  {
  }

  const FIVE_READS: seq<Event> := [Read, Read, Read, Read, Read]

  /** A query after the move, read to its end. */
  lemma FiveReads(m: Setting, r: Range)
    requires HotOk(m)
    ensures var t := Run(m, r, AfterMove(m), FIVE_READS);
      t.stage.Answered? && t.got == OpenedAnswer(m, Some([HotEntry(m)]), ColdBytes(m), r)
  {
    hide HotOk, HotEntry, ColdBytes, EntryBytes, ReadIndex, OpenedAnswer;
    PartialIndex(m, 36);
    assert EntryBytes(HotEntry(m))[..36] == EntryBytes(HotEntry(m));
  }
}
