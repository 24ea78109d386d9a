/** Calendar days at a fixed offset from UTC: the day of a timestamp, the days a query visits, and the
    grouping of a batch by day. */
module Days {
  import opened Bytes
  import opened Points

  /** 24 hours in nanoseconds. */
  const DAY: int := 86_400_000_000_000

  /** The local day number of instant t, where local time is UTC plus tz. */
  function Day(tz: int, t: int): int {
    (t + tz) / DAY
  }

  // ----- the days a query visits

  /** The query loop visits k days from day(s) on; the first not visited starts a day after e or later. */
  predicate VisitsExactly(k: nat, s: int, e: int) {
    && (k > 0 ==> s + (k - 1) * DAY < e + DAY)
    && s + k * DAY >= e + DAY
  }

  /** The loop of Storage.Query over instants a day apart. */
  method VisitDays(tz: int, s: int64, e: int64) returns (days: seq<int>)
    ensures VisitsExactly(|days|, s, e)
    ensures forall i :: 0 <= i < |days| ==> days[i] == Day(tz, s) + i
    ensures forall d :: d in days <==> Day(tz, s) <= d < Day(tz, s) + |days|
  {
    hide Day;
    days := [];
    var d: int := s;
    while d < e + DAY
      invariant d == s + |days| * DAY
      invariant |days| > 0 ==> s + (|days| - 1) * DAY < e + DAY
      invariant forall i :: 0 <= i < |days| ==> days[i] == Day(tz, s) + i
      invariant forall d :: d in days <==> Day(tz, s) <= d < Day(tz, s) + |days|
      decreases e + DAY - d
    {
      DayAfter(tz, s, |days|);
      days := days + [Day(tz, d)];
      d := d + DAY;
    }
  }

  lemma DayAfter(tz: int, s: int, k: nat)
    ensures Day(tz, s + k * DAY) == Day(tz, s) + k
  {
    assert s + k * DAY + tz == (s + tz) + k * DAY;
  }

  /** Every day from day(s) to day(e) is visited, and at most one beyond; an empty range visits at most one. */
  lemma VisitsCover(tz: int, s: int, e: int, k: nat)
    requires VisitsExactly(k, s, e)
    ensures s <= e ==> Day(tz, s) + k - 1 == Day(tz, e) || Day(tz, s) + k - 1 == Day(tz, e) + 1
    ensures e < s ==> k <= 1
    ensures forall t :: s <= t <= e ==> Day(tz, s) <= Day(tz, t) < Day(tz, s) + k
  {
    if s <= e {
      DayAfter(tz, s, k);
      DayAfter(tz, s, k - 1);
      DayMonotone(tz, e, s + k * DAY - DAY);
      DayMonotone(tz, s + (k - 1) * DAY, e + DAY);
      DayAfter(tz, e, 1);
      forall t | s <= t <= e
        ensures Day(tz, s) <= Day(tz, t) < Day(tz, s) + k
      {
        DayMonotone(tz, s, t);
        DayMonotone(tz, t, e);
      }
    }
  }

  /** Local time, which is t + tz nanoseconds after the epoch's midnight, lies in the 24 hours of the day. */
  lemma DayHolds(tz: int, t: int)
    ensures Day(tz, t) * 86_400_000_000_000 <= t + tz < (Day(tz, t) + 1) * 86_400_000_000_000
  {
  }

  /** No other day does. */
  lemma DayExact(tz: int, t: int, d: int)
    ensures Day(tz, t) == d <==> d * 86_400_000_000_000 <= t + tz < (d + 1) * 86_400_000_000_000
  {
    DayHolds(tz, t);
    var gap := Day(tz, t) - d;
    assert gap * DAY == Day(tz, t) * DAY - d * DAY;
    assert gap >= 1 ==> gap * DAY >= DAY;
    assert gap <= -1 ==> gap * DAY <= -DAY;
  }

  lemma DayMonotone(tz: int, a: int, b: int)
    requires a <= b
    ensures Day(tz, a) <= Day(tz, b)
  {
  }

  // ----- grouping a batch by day

  /** The points of ps on day d, in order. */
  function OnDay(tz: int, ps: seq<Point>, d: int): (r: seq<Point>)
    ensures forall i :: 0 <= i < |r| ==> Day(tz, r[i].ts) == d
  {
    if ps == [] then []
    else (if Day(tz, ps[0].ts) == d then [ps[0]] else []) + OnDay(tz, ps[1..], d)
  }

  lemma {:induction false} OnDayConcat(tz: int, ps: seq<Point>, qs: seq<Point>, d: int)
    ensures OnDay(tz, ps + qs, d) == OnDay(tz, ps, d) + OnDay(tz, qs, d)
  {
    if ps == [] {
      assert ps + qs == qs;
    } else {
      assert (ps + qs)[1..] == ps[1..] + qs;
      OnDayConcat(tz, ps[1..], qs, d);
    }
  }

  lemma OnDaySnoc(tz: int, ps: seq<Point>, p: Point, d: int)
    ensures OnDay(tz, ps + [p], d) == OnDay(tz, ps, d) + (if Day(tz, p.ts) == d then [p] else [])
  {
    OnDayConcat(tz, ps, [p], d);
    assert [p][1..] == [];
  }

  /** The grouping loop of Storage.WriteBatch: each day's group holds that day's points in batch order,
      and only days with points have a group. */
  method GroupByDay(tz: int, points: seq<Point>) returns (groups: map<int, seq<Point>>)
    ensures forall d :: d in groups <==> OnDay(tz, points, d) != []
    ensures forall d :: d in groups ==> groups[d] == OnDay(tz, points, d)
    ensures forall d, p :: d in groups && p in groups[d] <==>
      p in points && d * 86_400_000_000_000 <= p.ts + tz < (d + 1) * 86_400_000_000_000
  {
    hide OnDay;
    groups := map[];
    NothingOnDays(tz);
    for i := 0 to |points|
      invariant forall d :: d in groups <==> OnDay(tz, points[..i], d) != []
      invariant forall d :: d in groups ==> groups[d] == OnDay(tz, points[..i], d)
    {
      var day := Day(tz, points[i].ts);
      assert points[..i + 1] == points[..i] + [points[i]];
      forall d
        ensures OnDay(tz, points[..i + 1], d) == OnDay(tz, points[..i], d) + (if day == d then [points[i]] else [])
      {
        OnDaySnoc(tz, points[..i], points[i], d);
      }
      groups := groups[day := (if day in groups then groups[day] else []) + [points[i]]];
    }
    assert points[..|points|] == points;
    forall d, p
      ensures d in groups && p in groups[d] <==> p in OnDay(tz, points, d)
      ensures p in OnDay(tz, points, d) <==>
        p in points && d * 86_400_000_000_000 <= p.ts + tz < (d + 1) * 86_400_000_000_000
    {
      OnDayMembers(tz, points, d, p);
    }
  }

  /** The points of a day are those whose local time lies in its 24 hours, as often as they occur. */
  lemma {:induction false} OnDayMembers(tz: int, ps: seq<Point>, d: int, p: Point)
    ensures multiset(OnDay(tz, ps, d))[p] ==
      if d * 86_400_000_000_000 <= p.ts + tz < (d + 1) * 86_400_000_000_000 then multiset(ps)[p] else 0
    ensures p in OnDay(tz, ps, d) <==>
      p in ps && d * 86_400_000_000_000 <= p.ts + tz < (d + 1) * 86_400_000_000_000
  {
    if ps != [] {
      DayExact(tz, ps[0].ts, d);
      OnDayMembers(tz, ps[1..], d, p);
      assert ps == [ps[0]] + ps[1..];
    }
    assert p in OnDay(tz, ps, d) <==> multiset(OnDay(tz, ps, d))[p] > 0;
    assert p in ps <==> multiset(ps)[p] > 0;
  }

  lemma NothingOnDays(tz: int)
    ensures forall d :: OnDay(tz, [], d) == []
  {
  }

  // ----- putting the days of a query together

  /** The points of ps inside [s, e] on one of the given days. */
  function OnDays(tz: int, ps: seq<Point>, days: set<int>, s: int64, e: int64): seq<Point> {
    if ps == [] then []
    else (if InWindow(ps[0], s, e) && Day(tz, ps[0].ts) in days then [ps[0]] else []) + OnDays(tz, ps[1..], days, s, e)
  }

  lemma {:induction false} OneMoreDay(tz: int, ps: seq<Point>, days: set<int>, d: int, s: int64, e: int64)
    requires d !in days
    ensures multiset(OnDays(tz, ps, days + {d}, s, e))
      == multiset(OnDays(tz, ps, days, s, e)) + multiset(Within(OnDay(tz, ps, d), s, e))
  {
    hide Day, Within;
    if ps == [] {
      WithinOne(ps, s, e);
    } else {
      var p, rest := ps[0], ps[1..];
      OneMoreDay(tz, rest, days, d, s, e);
      var own := if Day(tz, p.ts) == d then [p] else [];
      WithinConcat(own, OnDay(tz, rest, d), s, e);
      WithinOne(own, s, e);
      var a := if InWindow(p, s, e) && Day(tz, p.ts) in days then [p] else [];
      var b := if InWindow(p, s, e) && Day(tz, p.ts) == d then [p] else [];
      var c := if InWindow(p, s, e) && Day(tz, p.ts) in days + {d} then [p] else [];
      assert multiset(c) == multiset(a) + multiset(b);
      JoinMultisets(c, OnDays(tz, rest, days + {d}, s, e), a, OnDays(tz, rest, days, s, e), b,
        Within(OnDay(tz, rest, d), s, e));
    }
  }

  lemma JoinMultisets(c: seq<Point>, cs: seq<Point>, a: seq<Point>, as': seq<Point>, b: seq<Point>, bs: seq<Point>)
    requires multiset(c) == multiset(a) + multiset(b) && multiset(cs) == multiset(as') + multiset(bs)
    ensures multiset(c + cs) == multiset(a + as') + multiset(b + bs)
  {
  }

  lemma WithinOne(own: seq<Point>, s: int64, e: int64)
    requires |own| <= 1
    ensures Within(own, s, e) == if own != [] && InWindow(own[0], s, e) then own else []
  {
  }

  lemma {:induction false} NoDays(tz: int, ps: seq<Point>, s: int64, e: int64)
    ensures OnDays(tz, ps, {}, s, e) == []
  {
    if ps != [] {
      NoDays(tz, ps[1..], s, e);
    }
  }

  /** Days that cover the range select everything in it. */
  lemma {:induction false} EnoughDays(tz: int, ps: seq<Point>, days: set<int>, s: int64, e: int64)
    requires forall t: int :: s <= t <= e ==> Day(tz, t) in days
    ensures OnDays(tz, ps, days, s, e) == Within(ps, s, e)
  {
    if ps != [] {
      EnoughDays(tz, ps[1..], days, s, e);
    }
  }

  // ----- the key of a writer

  /** The table key of a device and a date. */
  function Key(device: string, date: string): string {
    device + "_" + date
  }

  /** Dates of one length keep keys apart, whatever underscores a device name holds. */
  lemma KeyInjective(device: string, date: string, device': string, date': string)
    requires |date| == |date'|
    ensures Key(device, date) == Key(device', date') <==> device == device' && date == date'
  {
    var k, k' := Key(device, date), Key(device', date');
    assert k[|k| - |date|..] == date && k'[|k'| - |date'|..] == date';
    assert k[..|k| - |date| - 1] == device && k'[..|k'| - |date'| - 1] == device';
  }
}
