/** What an index query returns for a file of flushed blocks, and exactly when that is the time filter. */
module IndexQuery {
  import opened Bytes
  import opened Points
  import opened Blocks
  import opened Reader

  predicate NonEmpty(log: seq<Placed>) {
    forall i :: 0 <= i < |log| ==> log[i].points != []
  }

  function First(p: Placed): int64
    requires p.points != []
  {
    p.points[0].ts
  }

  function Last(p: Placed): int64
    requires p.points != []
  {
    p.points[|p.points| - 1].ts
  }

  /** The blocks that the selection loop takes, as Relevant does on their entries. */
  function Picked(log: seq<Placed>, s: int64, e: int64): (r: seq<Placed>)
    requires NonEmpty(log)
    ensures NonEmpty(r)
    ensures forall p :: p in r ==> p in log
  {
    if log == [] || First(log[0]) > e then []
    else (if Last(log[0]) >= s then [log[0]] else []) + Picked(log[1..], s, e)
  }

  function FirstLegacy(lib: Library, interval: int, log: seq<Placed>): (r: Option<Placed>)
    ensures r.Some? ==> r.value in log && LooksLegacy(lib, interval, r.value.points)
    ensures r.None? ==> forall i :: 0 <= i < |log| ==> !LooksLegacy(lib, interval, log[i].points)
  {
    if log == [] then None
    else if LooksLegacy(lib, interval, log[0].points) then Some(log[0])
    else FirstLegacy(lib, interval, log[1..])
  }

  /** What a query that starts from block r returns, on the level of batches. */
  function LogAnswer(lib: Library, interval: int, log: seq<Placed>, r: nat, s: int64, e: int64): seq<Point>
    requires NonEmpty(log) && r <= |log|
  {
    var picked := Picked(log[r..], s, e);
    match FirstLegacy(lib, interval, picked)
    case None => Within(LogPoints(picked), s, e)
    case Some(p) => Within(p.points, s, e)
  }

  // ----- from bytes to batches

  /** A stored block is read back as its batch; a checksum of 0 only changes how the reader goes on. */
  lemma ReadsStored(lib: Library, interval: int, file: seq<byte>, p: Placed, s: int64, e: int64)
    requires Stored(lib, interval, file, p) && Readable(lib, interval, p.points)
    ensures Indexable(lib, interval, p)
    ensures ReadBlock(lib, file, EntryOf(lib, interval, p), s, e) ==
      if LooksLegacy(lib, interval, p.points) then Legacy(Within(p.points, s, e)) else Good(Within(p.points, s, e))
  {
    hide Stream, ParseAll, Within, Get32, Sealed;
    var x := EntryOf(lib, interval, p);
    var block := Block(lib, interval, p.points);
    SealedParses(lib, p.points);
    if x.length == 0 {
      assert file[p.at..p.at + |block|] == [];
      assert Span(file, x) == block;
    } else {
      assert Span(file, x) == block;
    }
  }

  lemma {:induction false} ScansStored(lib: Library, interval: int, file: seq<byte>, log: seq<Placed>, s: int64,
    e: int64)
    requires AllStored(lib, interval, file, log) && AllReadable(lib, interval, log)
    ensures AllIndexable(lib, interval, log)
    ensures ScanBlocks(lib, file, Entries(lib, interval, log), s, e) ==
      match FirstLegacy(lib, interval, log)
      case None => Finished(Within(LogPoints(log), s, e))
      case Some(p) => Stopped(Within(p.points, s, e))
  {
    hide ReadBlock, EntryOf, Stored, Readable, LooksLegacy, Within, Indexable;
    AllStoredIndexable(lib, interval, file, log);
    if log == [] {
      NothingWithin(s, e);
    } else {
      ReadsStored(lib, interval, file, log[0], s, e);
      ScansStored(lib, interval, file, log[1..], s, e);
      assert Entries(lib, interval, log)[1..] == Entries(lib, interval, log[1..]);
      WithinConcat(log[0].points, LogPoints(log[1..]), s, e);
    }
  }

  lemma AllStoredIndexable(lib: Library, interval: int, file: seq<byte>, log: seq<Placed>)
    requires AllStored(lib, interval, file, log)
    ensures AllIndexable(lib, interval, log) && NonEmpty(log)
  {
    hide Block;
    forall i | 0 <= i < |log|
      ensures Indexable(lib, interval, log[i])
    {
      assert Stored(lib, interval, file, log[i]);
    }
  }

  lemma {:induction false} SelectsPicked(lib: Library, interval: int, log: seq<Placed>, s: int64, e: int64)
    requires AllIndexable(lib, interval, log)
    ensures NonEmpty(log) && AllIndexable(lib, interval, Picked(log, s, e))
    ensures Relevant(Entries(lib, interval, log), s, e) == Entries(lib, interval, Picked(log, s, e))
  {
    hide Block, Compresses;
    if log != [] {
      assert Indexable(lib, interval, log[0]);
      SelectsPicked(lib, interval, log[1..], s, e);
      assert Entries(lib, interval, log)[1..] == Entries(lib, interval, log[1..]);
    }
  }

  /** The answer over the bytes is the answer over the batches, whatever order points arrived in. */
  lemma AnswerOverBatches(lib: Library, interval: int, file: seq<byte>, log: seq<Placed>, r: nat, s: int64, e: int64)
    requires AllStored(lib, interval, file, log) && AllReadable(lib, interval, log)
    requires r <= |log|
    ensures AllIndexable(lib, interval, log) && NonEmpty(log)
    ensures AnswerFrom(lib, file, Entries(lib, interval, log), r, s, e) == Some(LogAnswer(lib, interval, log, r, s, e))
  {
    hide Stored, Readable, Indexable, EntryOf, Within, ScanBlocks, Relevant, Picked, FirstLegacy, LogPoints;
    AllStoredIndexable(lib, interval, file, log);
    var rest := log[r..];
    assert Entries(lib, interval, log)[r..] == Entries(lib, interval, rest);
    SelectsPicked(lib, interval, rest, s, e);
    var picked := Picked(rest, s, e);
    forall i | 0 <= i < |picked|
      ensures Stored(lib, interval, file, picked[i]) && Readable(lib, interval, picked[i].points)
    {
      assert picked[i] in rest;
    }
    ScansStored(lib, interval, file, picked, s, e);
  }

  // ----- soundness, with no assumption on the order of arrival

  /** xs is ys with some elements left out. */
  ghost predicate Subsequence<T>(xs: seq<T>, ys: seq<T>) {
    xs == [] || (ys != [] && ((xs[0] == ys[0] && Subsequence(xs[1..], ys[1..])) || Subsequence(xs, ys[1..])))
  }

  lemma {:induction false} SubsequenceSkip<T>(xs: seq<T>, front: seq<T>, ys: seq<T>)
    requires Subsequence(xs, ys)
    ensures Subsequence(xs, front + ys)
  {
    if front == [] {
      assert front + ys == ys;
    } else {
      SubsequenceSkip(xs, front[1..], ys);
      assert (front + ys)[1..] == front[1..] + ys;
    }
  }

  lemma {:induction false} SubsequenceKeep<T>(front: seq<T>, xs: seq<T>, ys: seq<T>)
    requires Subsequence(xs, ys)
    ensures Subsequence(front + xs, front + ys)
  {
    if front == [] {
      assert front + xs == xs && front + ys == ys;
    } else {
      SubsequenceKeep(front[1..], xs, ys);
      assert (front + xs)[1..] == front[1..] + xs && (front + ys)[1..] == front[1..] + ys;
    }
  }

  lemma {:induction false} SubsequenceLength<T>(xs: seq<T>, ys: seq<T>)
    requires Subsequence(xs, ys)
    ensures |xs| <= |ys|
    ensures |xs| == |ys| ==> xs == ys
  {
    if xs != [] {
      if xs[0] == ys[0] && Subsequence(xs[1..], ys[1..]) {
        SubsequenceLength(xs[1..], ys[1..]);
        assert xs == [xs[0]] + xs[1..] && ys == [ys[0]] + ys[1..];
      } else {
        SubsequenceLength(xs, ys[1..]);
      }
    }
  }

  lemma {:induction false} PickedSound(log: seq<Placed>, s: int64, e: int64)
    requires NonEmpty(log)
    ensures Subsequence(Within(LogPoints(Picked(log, s, e)), s, e), Within(LogPoints(log), s, e))
  {
    hide Within;
    NothingWithin(s, e);
    if log != [] && First(log[0]) <= e {
      PickedSound(log[1..], s, e);
      var own := Within(log[0].points, s, e);
      var picked, all := Picked(log[1..], s, e), LogPoints(log[1..]);
      WithinConcat(log[0].points, all, s, e);
      if Last(log[0]) >= s {
        WithinConcat(log[0].points, LogPoints(picked), s, e);
        assert ([log[0]] + picked)[1..] == picked;
        SubsequenceKeep(own, Within(LogPoints(picked), s, e), Within(all, s, e));
      } else {
        assert [] + picked == picked;
        SubsequenceSkip(Within(LogPoints(picked), s, e), own, Within(all, s, e));
      }
    }
  }

  lemma {:induction false} BlockSound(log: seq<Placed>, p: Placed, s: int64, e: int64)
    requires p in log
    ensures Subsequence(Within(p.points, s, e), Within(LogPoints(log), s, e))
  {
    hide Within;
    var own, rest := Within(log[0].points, s, e), Within(LogPoints(log[1..]), s, e);
    WithinConcat(log[0].points, LogPoints(log[1..]), s, e);
    if p == log[0] {
      SubsequenceKeep(own, [], rest);
      assert own + [] == own;
    } else {
      BlockSound(log[1..], p, s, e);
      SubsequenceSkip(Within(p.points, s, e), own, rest);
    }
  }

  lemma DroppedSound(log: seq<Placed>, r: nat, s: int64, e: int64)
    requires r <= |log|
    ensures Within(LogPoints(log), s, e) == Within(LogPoints(log[..r]), s, e) + Within(LogPoints(log[r..]), s, e)
  {
    hide Within, LogPoints;
    assert log == log[..r] + log[r..];
    LogPointsConcat(log[..r], log[r..]);
    WithinConcat(LogPoints(log[..r]), LogPoints(log[r..]), s, e);
  }

  /** For any arrival order and any starting block, the answer invents nothing, repeats nothing and
      reorders nothing: it is a subsequence of the time filter. */
  lemma AnswerSound(lib: Library, interval: int, log: seq<Placed>, r: nat, s: int64, e: int64)
    requires NonEmpty(log) && r <= |log|
    ensures Subsequence(LogAnswer(lib, interval, log, r, s, e), Within(LogPoints(log), s, e))
  {
    hide Within, LogPoints, Picked, FirstLegacy, Subsequence;
    var rest := log[r..];
    var picked := Picked(rest, s, e);
    PickedSound(rest, s, e);
    var legacy := FirstLegacy(lib, interval, picked);
    if legacy.Some? {
      BlockSound(rest, legacy.value, s, e);
    }
    DroppedSound(log, r, s, e);
    SubsequenceSkip(LogAnswer(lib, interval, log, r, s, e), Within(LogPoints(log[..r]), s, e),
      Within(LogPoints(rest), s, e));
  }
}
