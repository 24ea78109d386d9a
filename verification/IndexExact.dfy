/** The exact condition under which an index query is the time filter. */
module IndexExact {
  import opened Bytes
  import opened Points
  import opened Blocks
  import opened Reader
  import opened IndexQuery

  /** Every point of every block lies between that block's first and last point. */
  predicate Bracketed(log: seq<Placed>)
    requires NonEmpty(log)
  {
    forall i, k :: 0 <= i < |log| && 0 <= k < |log[i].points| ==>
      First(log[i]) <= log[i].points[k].ts <= Last(log[i])
  }

  predicate StartsInOrder(log: seq<Placed>)
    requires NonEmpty(log)
  {
    forall i, j :: 0 <= i < j < |log| ==> First(log[i]) <= First(log[j])
  }

  /** The bounds that the index states for the blocks. */
  function LogBounds(log: seq<Placed>): (bs: seq<Bounds>)
    requires NonEmpty(log)
    ensures |bs| == |log|
    ensures forall i :: 0 <= i < |log| ==> bs[i] == Bounds(First(log[i]), Last(log[i]))
  {
    seq(|log|, i requires 0 <= i < |log| => Bounds(First(log[i]), Last(log[i])))
  }

  predicate EndsInOrder(log: seq<Placed>)
    requires NonEmpty(log)
  {
    EndsSorted(LogBounds(log))
  }

  lemma LogBoundsAreEntries(lib: Library, interval: int, log: seq<Placed>)
    requires AllIndexable(lib, interval, log) && NonEmpty(log)
    ensures BoundsOf(Entries(lib, interval, log)) == LogBounds(log)
  {
    hide Block, Stream;
  }

  /** The block that a query from t on starts with. */
  function StartBlock(log: seq<Placed>, t: int64): (r: nat)
    requires NonEmpty(log)
    ensures r <= |log|
    ensures r > 0 ==> Last(log[r - 1]) < t
  {
    FoundCrosses(LogBounds(log), t);
    Found(LogBounds(log), t)
  }

  /** The search for a block's own end does not start behind that block. */
  predicate SearchReaches(log: seq<Placed>)
    requires NonEmpty(log)
  {
    FindsOwnEnds(LogBounds(log))
  }

  /** The query over [s, e] returns the filter of all the file's points. */
  predicate ExactAt(lib: Library, interval: int, log: seq<Placed>, s: int64, e: int64)
    requires NonEmpty(log)
  {
    LogAnswer(lib, interval, log, StartBlock(log, s), s, e) == Within(LogPoints(log), s, e)
  }

  ghost predicate Exact(lib: Library, interval: int, log: seq<Placed>)
    requires NonEmpty(log)
  {
    forall s: int64, e: int64 :: ExactAt(lib, interval, log, s, e)
  }

  predicate NoneLooksLegacy(lib: Library, interval: int, log: seq<Placed>) {
    forall i :: 0 <= i < |log| ==> !LooksLegacy(lib, interval, log[i].points)
  }

  // ----- sufficiency

  lemma {:induction false} NothingBefore(log: seq<Placed>, s: int64, e: int64)
    requires NonEmpty(log) && Bracketed(log)
    requires forall i :: 0 <= i < |log| ==> Last(log[i]) < s
    ensures Within(LogPoints(log), s, e) == []
  {
    if log != [] {
      WithinNone(log[0].points, s, e);
      WithinConcat(log[0].points, LogPoints(log[1..]), s, e);
      BracketedTail(log);
      NothingBefore(log[1..], s, e);
    }
  }

  lemma {:induction false} NothingAfter(log: seq<Placed>, s: int64, e: int64)
    requires NonEmpty(log) && Bracketed(log)
    requires forall i :: 0 <= i < |log| ==> First(log[i]) > e
    ensures Within(LogPoints(log), s, e) == []
  {
    if log != [] {
      WithinNone(log[0].points, s, e);
      WithinConcat(log[0].points, LogPoints(log[1..]), s, e);
      BracketedTail(log);
      NothingAfter(log[1..], s, e);
    }
  }

  lemma BracketedTail(log: seq<Placed>)
    requires log != [] && NonEmpty(log) && Bracketed(log)
    ensures Bracketed(log[1..])
    ensures StartsInOrder(log) ==> StartsInOrder(log[1..])
  {
    forall i, k | 0 <= i < |log[1..]| && 0 <= k < |log[1..][i].points|
      ensures First(log[1..][i]) <= log[1..][i].points[k].ts <= Last(log[1..][i])
    {
      assert log[1..][i] == log[i + 1];
    }
  }

  /** On bracketed blocks with ordered starts, the selection loop leaves out nothing in range. */
  lemma {:induction false} PickedComplete(log: seq<Placed>, s: int64, e: int64)
    requires NonEmpty(log) && Bracketed(log) && StartsInOrder(log)
    ensures Within(LogPoints(Picked(log, s, e)), s, e) == Within(LogPoints(log), s, e)
  {
    hide Within;
    NothingWithin(s, e);
    if log != [] {
      if First(log[0]) > e {
        NothingAfter(log, s, e);
      } else {
        BracketedTail(log);
        PickedComplete(log[1..], s, e);
        var picked := Picked(log[1..], s, e);
        WithinConcat(log[0].points, LogPoints(log[1..]), s, e);
        if Last(log[0]) >= s {
          WithinConcat(log[0].points, LogPoints(picked), s, e);
          assert ([log[0]] + picked)[1..] == picked;
        } else {
          WithinNone(log[0].points, s, e);
          assert [] + picked == picked;
        }
      }
    }
  }

  lemma EarlierBlocks(log: seq<Placed>, s: int64)
    requires NonEmpty(log) && SearchReaches(log)
    ensures forall i :: 0 <= i < StartBlock(log, s) ==> Last(log[i]) < s
  {
    hide Found, FirstEnding;
    var bs := LogBounds(log);
    SearchExact(bs);
    assert Found(bs, s) == FirstEnding(bs, s);
    assert forall i :: 0 <= i < |log| ==> Last(log[i]) == bs[i].end;
  }

  /** The search start drops only blocks that end before s. */
  lemma DroppedEmpty(log: seq<Placed>, s: int64, e: int64)
    requires NonEmpty(log) && Bracketed(log) && StartsInOrder(log) && SearchReaches(log)
    ensures var r := StartBlock(log, s);
      Bracketed(log[r..]) && StartsInOrder(log[r..])
        && Within(LogPoints(log), s, e) == Within(LogPoints(log[r..]), s, e)
  {
    hide Within, LogPoints, StartBlock, SearchReaches;
    var r := StartBlock(log, s);
    var front, rest := log[..r], log[r..];
    forall i, k | 0 <= i < |rest| && 0 <= k < |rest[i].points|
      ensures First(rest[i]) <= rest[i].points[k].ts <= Last(rest[i])
    {
      assert rest[i] == log[r + i];
    }
    forall i, k | 0 <= i < |front| && 0 <= k < |front[i].points|
      ensures First(front[i]) <= front[i].points[k].ts <= Last(front[i])
    {
      assert front[i] == log[i];
    }
    EarlierBlocks(log, s);
    NothingBefore(front, s, e);
    DroppedSound(log, r, s, e);
  }

  lemma ExactEnough(lib: Library, interval: int, log: seq<Placed>, s: int64, e: int64)
    requires NonEmpty(log) && Bracketed(log) && StartsInOrder(log) && SearchReaches(log)
    requires |log| <= 1 || NoneLooksLegacy(lib, interval, log)
    ensures ExactAt(lib, interval, log, s, e)
  {
    hide Within, StartBlock, LooksLegacy, Bracketed, StartsInOrder, SearchReaches;
    DroppedEmpty(log, s, e);
    var rest := log[StartBlock(log, s)..];
    PickedComplete(rest, s, e);
    var picked := Picked(rest, s, e);
    var legacy := FirstLegacy(lib, interval, picked);
    if legacy.Some? {
      assert legacy.value in rest && legacy.value in log;
      assert |log| == 1 && picked == [legacy.value];
      assert LogPoints(picked) == legacy.value.points + LogPoints(picked[1..]) == legacy.value.points;
    }
  }

  // ----- necessity

  /** Block j of log never reaches the answer of a query over [s, e]. */
  predicate Missed(log: seq<Placed>, j: nat, s: int64, e: int64)
    requires NonEmpty(log) && j < |log|
  {
    Last(log[j]) < s || exists k :: 0 <= k <= j && First(log[k]) > e
  }

  lemma {:induction false} MissedCosts(log: seq<Placed>, j: nat, s: int64, e: int64)
    requires NonEmpty(log) && j < |log| && Missed(log, j, s, e)
    ensures |Within(LogPoints(Picked(log, s, e)), s, e)| + |Within(log[j].points, s, e)|
      <= |Within(LogPoints(log), s, e)|
  {
    hide Within;
    NothingWithin(s, e);
    if First(log[0]) > e {
      BlockSound(log, log[j], s, e);
      SubsequenceLength(Within(log[j].points, s, e), Within(LogPoints(log), s, e));
    } else {
      var picked := Picked(log[1..], s, e);
      WithinConcat(log[0].points, LogPoints(log[1..]), s, e);
      if j == 0 {
        PickedSound(log[1..], s, e);
        SubsequenceLength(Within(LogPoints(picked), s, e), Within(LogPoints(log[1..]), s, e));
        assert [] + picked == picked;
      } else {
        MissedTail(log, j, s, e);
        MissedCosts(log[1..], j - 1, s, e);
        if Last(log[0]) >= s {
          assert ([log[0]] + picked)[1..] == picked;
          WithinConcat(log[0].points, LogPoints(picked), s, e);
        } else {
          assert [] + picked == picked;
        }
      }
    }
  }

  lemma MissedTail(log: seq<Placed>, j: nat, s: int64, e: int64)
    requires NonEmpty(log) && 0 < j < |log| && Missed(log, j, s, e) && First(log[0]) <= e
    ensures Missed(log[1..], j - 1, s, e)
  {
    if Last(log[j]) >= s {
      var k :| 0 <= k <= j && First(log[k]) > e;
      assert log[1..][k - 1] == log[k];
    }
  }

  /** A block that the search or the selection leaves out shortens the answer by all it holds in range. */
  lemma LeavingOutCosts(lib: Library, interval: int, log: seq<Placed>, r: nat, j: nat, s: int64, e: int64)
    requires NonEmpty(log) && r <= |log| && j < |log|
    requires j < r || Missed(log[r..], j - r, s, e)
    ensures |LogAnswer(lib, interval, log, r, s, e)| + |Within(log[j].points, s, e)| <= |Within(LogPoints(log), s, e)|
  {
    hide Within, LogPoints, Picked, FirstLegacy, Subsequence;
    var rest := log[r..];
    var picked := Picked(rest, s, e);
    DroppedSound(log, r, s, e);
    var legacy := FirstLegacy(lib, interval, picked);
    if legacy.Some? {
      BlockSound(picked, legacy.value, s, e);
      SubsequenceLength(Within(legacy.value.points, s, e), Within(LogPoints(picked), s, e));
    }
    if j < r {
      BlockSound(log[..r], log[j], s, e);
      SubsequenceLength(Within(log[j].points, s, e), Within(LogPoints(log[..r]), s, e));
      PickedSound(rest, s, e);
      SubsequenceLength(Within(LogPoints(picked), s, e), Within(LogPoints(rest), s, e));
    } else {
      MissedCosts(rest, j - r, s, e);
    }
  }

  /** If queries are exact at a stored point's own time, its block is reached by that query. */
  lemma ExactReaches(lib: Library, interval: int, log: seq<Placed>, j: nat, k: nat)
    requires NonEmpty(log) && j < |log| && k < |log[j].points|
    requires var t := log[j].points[k].ts; ExactAt(lib, interval, log, t, t)
    ensures var t := log[j].points[k].ts; var r := StartBlock(log, t);
      r <= j && !Missed(log[r..], j - r, t, t)
  {
    hide Within, LogAnswer, StartBlock, Missed;
    var t := log[j].points[k].ts;
    var r := StartBlock(log, t);
    WithinNone(log[j].points, t, t);
    assert InWindow(log[j].points[k], t, t);
    if j < r || Missed(log[r..], j - r, t, t) {
      LeavingOutCosts(lib, interval, log, r, j, t, t);
      assert false;
    }
  }

  lemma ExactBrackets(lib: Library, interval: int, log: seq<Placed>)
    requires NonEmpty(log) && Exact(lib, interval, log)
    ensures Bracketed(log)
  {
    hide ExactAt, StartBlock;
    forall i, k | 0 <= i < |log| && 0 <= k < |log[i].points|
      ensures First(log[i]) <= log[i].points[k].ts <= Last(log[i])
    {
      var t := log[i].points[k].ts;
      assert ExactAt(lib, interval, log, t, t);
      ExactReaches(lib, interval, log, i, k);
      var r := StartBlock(log, t);
      assert log[r..][i - r] == log[i];
    }
  }

  /** Two neighbouring blocks with inverted starts hide the later one's first point. */
  lemma ExactOrdersNeighbours(lib: Library, interval: int, log: seq<Placed>, i: nat)
    requires NonEmpty(log) && Exact(lib, interval, log) && i + 1 < |log|
    ensures First(log[i]) <= First(log[i + 1])
  {
    hide ExactAt, StartBlock;
    var t := First(log[i + 1]);
    ExactBrackets(lib, interval, log);
    assert First(log[i]) <= log[i].points[0].ts <= Last(log[i]);
    assert ExactAt(lib, interval, log, t, t);
    ExactReaches(lib, interval, log, i + 1, 0);
    var r := StartBlock(log, t);
    if r <= i {
      assert log[r..][i - r] == log[i];
    }
  }

  lemma {:induction false} ExactOrders(lib: Library, interval: int, log: seq<Placed>, i: nat, j: nat)
    requires NonEmpty(log) && Exact(lib, interval, log) && i < j < |log|
    ensures First(log[i]) <= First(log[j])
    decreases j - i
  {
    hide Exact;
    ExactOrdersNeighbours(lib, interval, log, i);
    if i + 1 < j {
      ExactOrders(lib, interval, log, i + 1, j);
    }
  }

  /** The query over every time reaches every block, so a block taken for legacy hides the others. */
  lemma ExactExcludesLegacy(lib: Library, interval: int, log: seq<Placed>)
    requires NonEmpty(log) && |log| > 1 && ExactAt(lib, interval, log, -TWO_63, TWO_63 - 1)
    ensures NoneLooksLegacy(lib, interval, log)
  {
    hide Within;
    var s: int64, e: int64 := -TWO_63, TWO_63 - 1;
    assert StartBlock(log, s) == 0 && log[0..] == log;
    PickedAll(log);
    var legacy := FirstLegacy(lib, interval, log);
    if legacy.Some? {
      WithinAll(legacy.value.points, s, e);
      WithinAll(LogPoints(log), s, e);
      LogPointsOutnumber(log, legacy.value);
      assert false;
    }
  }

  lemma {:induction false} PickedAll(log: seq<Placed>)
    requires NonEmpty(log)
    ensures Picked(log, -TWO_63, TWO_63 - 1) == log
  {
    if log != [] {
      PickedAll(log[1..]);
    }
  }

  lemma {:induction false} LogPointsOutnumber(log: seq<Placed>, p: Placed)
    requires NonEmpty(log) && |log| > 1 && p in log
    ensures |LogPoints(log)| > |p.points|
  {
    assert LogPoints(log[1..]) == log[1].points + LogPoints(log[1..][1..]);
    if p != log[0] {
      if |log| == 2 {
        assert log == [log[0], log[1]];
      } else {
        LogPointsOutnumber(log[1..], p);
      }
    }
  }

  /** A block that the search for its own end starts behind is missed by the query over that end. */
  lemma ExactStarts(lib: Library, interval: int, log: seq<Placed>)
    requires NonEmpty(log) && Exact(lib, interval, log)
    ensures SearchReaches(log)
  {
    hide ExactAt;
    forall i | 0 <= i < |log|
      ensures Found(LogBounds(log), LogBounds(log)[i].end) <= i
    {
      var t := Last(log[i]);
      assert ExactAt(lib, interval, log, t, t);
      ExactReaches(lib, interval, log, i, |log[i].points| - 1);
      assert StartBlock(log, t) <= i;
    }
  }

  /** Index queries are the time filter for every range exactly when blocks are bracketed, start times are in
      order, the search for a block's own end does not start behind it, and no raw block of several has
      checksum 0. */
  lemma IndexQueryExact(lib: Library, interval: int, log: seq<Placed>)
    requires NonEmpty(log)
    ensures Exact(lib, interval, log) <==>
      && Bracketed(log) && StartsInOrder(log) && SearchReaches(log)
      && (|log| <= 1 || NoneLooksLegacy(lib, interval, log))
  {
    hide ExactAt, SearchReaches;
    if Exact(lib, interval, log) {
      ExactBrackets(lib, interval, log);
      forall i, j | 0 <= i < j < |log|
        ensures First(log[i]) <= First(log[j])
      {
        ExactOrders(lib, interval, log, i, j);
      }
      ExactStarts(lib, interval, log);
      if |log| > 1 {
        ExactExcludesLegacy(lib, interval, log);
      }
    }
    if Bracketed(log) && StartsInOrder(log) && SearchReaches(log)
      && (|log| <= 1 || NoneLooksLegacy(lib, interval, log)) {
      forall s: int64, e: int64
        ensures ExactAt(lib, interval, log, s, e)
      {
        ExactEnough(lib, interval, log, s, e);
      }
    }
  }

  /** With end times in order the search always starts right. */
  lemma OrderedEndsReach(log: seq<Placed>)
    requires NonEmpty(log) && EndsInOrder(log)
    ensures SearchReaches(log)
  {
    SortedEndsFound(LogBounds(log));
  }

  /** Three bracketed blocks with ordered starts whose ends are out of order: the search for time 9 starts at
      the third block, and the point that the first block holds at that time is not found. */
  lemma EndsOutOfOrderMatter(lib: Library, interval: int)
    ensures var log := [Placed([Point(0, []), Point(9, []), Point(10, [])], 0),
                        Placed([Point(1, []), Point(2, [])], 0), Placed([Point(3, []), Point(20, [])], 0)];
      && NonEmpty(log) && Bracketed(log) && StartsInOrder(log) && !SearchReaches(log)
      && LogAnswer(lib, interval, log, StartBlock(log, 9), 9, 9) == []
      && Within(LogPoints(log), 9, 9) == [Point(9, [])]
  {
    hide Found, LooksLegacy, Within, LogPoints, Picked, LogAnswer, Bracketed, StartsInOrder, StartBlock, SearchReaches;
    var a, b, c := [Point(0, []), Point(9, []), Point(10, [])], [Point(1, []), Point(2, [])],
      [Point(3, []), Point(20, [])];
    var log := [Placed(a, 0), Placed(b, 0), Placed(c, 0)];
    NothingAtNine(a, b, c);
    ThreeBlocks(log);
    ThirdBlockOnly(lib, interval, log, c);
    PointsOfThree(log);
    WithinConcat(a, b + c, 9, 9);
    WithinConcat(b, c, 9, 9);
  }

  lemma ThreeBlocks(log: seq<Placed>)
    requires |log| == 3 && log[0].points == [Point(0, []), Point(9, []), Point(10, [])]
    requires log[1].points == [Point(1, []), Point(2, [])] && log[2].points == [Point(3, []), Point(20, [])]
    ensures NonEmpty(log) && Bracketed(log) && StartsInOrder(log) && !SearchReaches(log) && StartBlock(log, 9) == 2
  {
    hide Found;
    assert LogBounds(log) == [Bounds(0, 10), Bounds(1, 2), Bounds(3, 20)];
    FoundThird(LogBounds(log));
    assert LogBounds(log)[0].end == 10;
  }

  lemma PointsOfThree(log: seq<Placed>)
    requires |log| == 3
    ensures LogPoints(log) == log[0].points + (log[1].points + log[2].points)
  {
    hide LogPoints;
    PointsOf(log[0], [log[1], log[2]]);
    PointsOf(log[1], [log[2]]);
    PointsOf(log[2], []);
    assert log == [log[0]] + [log[1], log[2]] && [log[1], log[2]] == [log[1]] + [log[2]] && [log[2]] == [log[2]] + [];
    assert log[2].points + [] == log[2].points;
  }

  lemma PointsOf(p: Placed, log: seq<Placed>)
    ensures LogPoints([p] + log) == p.points + LogPoints(log) && LogPoints([]) == []
  {
    assert ([p] + log)[1..] == log;
  }

  lemma ThirdBlockOnly(lib: Library, interval: int, log: seq<Placed>, c: seq<Point>)
    requires |log| == 3 && NonEmpty(log) && log[2].points == c && First(log[2]) <= 9 <= Last(log[2])
    requires Within(c, 9, 9) == []
    ensures LogAnswer(lib, interval, log, 2, 9, 9) == []
  {
    hide Within, LooksLegacy;
    assert log[2..] == [log[2]] && [log[2]][1..] == [];
    assert Picked([log[2]], 9, 9) == [log[2]];
    assert LogPoints([log[2]]) == c + LogPoints([log[2]][1..]) == c;
  }

  lemma FoundThird(bs: seq<Bounds>)
    requires bs == [Bounds(0, 10), Bounds(1, 2), Bounds(3, 20)]
    ensures Found(bs, 9) == 2 && Found(bs, 10) == 2
  {
    assert Search(bs, 9, 2, 2) == 2 && Search(bs, 10, 2, 2) == 2;
  }

  lemma NothingAtNine(a: seq<Point>, b: seq<Point>, c: seq<Point>)
    requires a == [Point(0, []), Point(9, []), Point(10, [])]
    requires b == [Point(1, []), Point(2, [])] && c == [Point(3, []), Point(20, [])]
    ensures Within(a, 9, 9) == [Point(9, [])] && Within(b, 9, 9) == [] && Within(c, 9, 9) == []
  {
    hide Within;
    var before, at, after := [Point(0, [])], [Point(9, [])], [Point(10, [])];
    WithinNone(b, 9, 9);
    WithinNone(c, 9, 9);
    WithinNone(before, 9, 9);
    WithinAll(at, 9, 9);
    WithinNone(after, 9, 9);
    WithinConcat(before, at, 9, 9);
    WithinConcat(before + at, after, 9, 9);
    assert a == before + at + after;
  }

  // ----- a condition on arrival that is enough

  predicate TimeOrdered(ps: seq<Point>) {
    forall i, j :: 0 <= i < j < |ps| ==> ps[i].ts <= ps[j].ts
  }

  lemma {:induction false} LaterThanBlock(log: seq<Placed>, t: int64, j: nat, k: nat)
    requires j < |log| && k < |log[j].points|
    requires forall i :: 0 <= i < |LogPoints(log)| ==> t <= LogPoints(log)[i].ts
    ensures t <= log[j].points[k].ts
  {
    if j == 0 {
      assert LogPoints(log)[k] == log[0].points[k];
    } else {
      forall i | 0 <= i < |LogPoints(log[1..])|
        ensures t <= LogPoints(log[1..])[i].ts
      {
        assert LogPoints(log[1..])[i] == LogPoints(log)[|log[0].points| + i];
      }
      LaterThanBlock(log[1..], t, j - 1, k);
    }
  }

  /** Points of one day that arrive in time order are flushed into blocks that meet the condition,
      wherever the batches were cut. */
  lemma {:induction false} OrderedArrivalSuffices(log: seq<Placed>)
    requires NonEmpty(log) && TimeOrdered(LogPoints(log))
    ensures Bracketed(log) && StartsInOrder(log) && EndsInOrder(log)
  {
    if log != [] {
      var own, rest := log[0].points, LogPoints(log[1..]);
      assert LogPoints(log) == own + rest;
      forall i | 0 <= i < |rest|
        ensures Last(log[0]) <= rest[i].ts
      {
        assert rest[i] == LogPoints(log)[|own| + i];
        assert own[|own| - 1] == LogPoints(log)[|own| - 1];
      }
      forall i, j | 0 <= i < j < |rest|
        ensures rest[i].ts <= rest[j].ts
      {
        assert rest[i] == LogPoints(log)[|own| + i] && rest[j] == LogPoints(log)[|own| + j];
      }
      forall k | 0 <= k < |own|
        ensures First(log[0]) <= own[k].ts <= Last(log[0])
      {
        assert LogPoints(log)[k] == own[k];
        assert LogPoints(log)[0] == own[0] && LogPoints(log)[|own| - 1] == own[|own| - 1];
      }
      OrderedArrivalSuffices(log[1..]);
      forall j | 0 < j < |log|
        ensures First(log[0]) <= Last(log[0]) <= First(log[j]) <= Last(log[j])
      {
        assert log[j] == log[1..][j - 1];
        LaterThanBlock(log[1..], Last(log[0]), j - 1, 0);
        assert First(log[j]) <= log[1..][j - 1].points[0].ts <= Last(log[j]);
        assert First(log[0]) <= own[0].ts <= Last(log[0]);
      }
      ExtendOrder(log);
    }
  }

  lemma ExtendOrder(log: seq<Placed>)
    requires log != [] && NonEmpty(log)
    requires Bracketed(log[1..]) && StartsInOrder(log[1..]) && EndsInOrder(log[1..])
    requires forall k :: 0 <= k < |log[0].points| ==> First(log[0]) <= log[0].points[k].ts <= Last(log[0])
    requires forall j :: 0 < j < |log| ==> First(log[0]) <= First(log[j]) && Last(log[0]) <= Last(log[j])
    ensures Bracketed(log) && StartsInOrder(log) && EndsInOrder(log)
  {
    var rest := log[1..];
    assert forall j :: 0 < j < |log| ==> log[j] == rest[j - 1];
  }

  /** A block whose last-arrived point is not its latest hides its first point from its own time. */
  lemma ArrivalOrderMatters(lib: Library, interval: int)
    ensures var log := [Placed([Point(5, []), Point(3, [])], 0)];
      !ExactAt(lib, interval, log, 5, 5) && !Bracketed(log)
  {
    var ps := [Point(5, []), Point(3, [])];
    var log := [Placed(ps, 0)];
    assert StartBlock(log, 5) == 1;
    assert log[1..] == [];
    assert LogPoints(log) == ps + LogPoints(log[1..]) == ps;
    WithinNone(ps, 5, 5);
    assert InWindow(ps[0], 5, 5);
    assert log[0].points[0].ts > Last(log[0]);
  }

  /** From the bytes of a data file and its entries to the time filter. */
  lemma IndexedFileExact(lib: Library, interval: int, file: seq<byte>, log: seq<Placed>, s: int64, e: int64)
    requires AllStored(lib, interval, file, log) && AllReadable(lib, interval, log) && NonEmpty(log)
    requires Bracketed(log) && StartsInOrder(log) && SearchReaches(log)
    requires |log| <= 1 || NoneLooksLegacy(lib, interval, log)
    ensures AllIndexable(lib, interval, log)
    ensures IndexAnswer(lib, file, Entries(lib, interval, log), s, e) == Some(Within(LogPoints(log), s, e))
  {
    hide Stored, Readable, Indexable, Within, LogPoints, ScanBlocks, Relevant;
    AllStoredIndexable(lib, interval, file, log);
    LogBoundsAreEntries(lib, interval, log);
    AnswerOverBatches(lib, interval, file, log, StartBlock(log, s), s, e);
    ExactEnough(lib, interval, log, s, e);
  }
}
