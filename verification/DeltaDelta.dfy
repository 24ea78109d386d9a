/** The delta-delta codec: two points in full, the first differences, then differences of differences. */
module DeltaDelta {
  import opened Bytes
  import opened Varint
  import opened Delta

  // ----- the encoded form

  /** Every stored second difference of values fits an int64. */
  predicate InRange2(lastValue: real, rate: real, ps: seq<DataPoint>)
    decreases |ps|
  {
    ps != [] ==>
      Fits(Milli(ps[0].value - lastValue - rate)) && InRange2(ps[0].value, ps[0].value - lastValue, ps[1..])
  }

  /** The records behind the header; `pace` and `rate` are the differences before ps. */
  function Tail2(lastTime: int64, lastValue: real, pace: int64, rate: real, ps: seq<DataPoint>): seq<byte>
    requires InRange2(lastValue, rate, ps)
    decreases |ps|
  {
    if ps == [] then []
    else
      var timeDelta, valueDelta := Wrap(ps[0].time - lastTime), ps[0].value - lastValue;
      Piece(Wrap(timeDelta - pace), Milli(valueDelta - rate))
      + Tail2(ps[0].time, ps[0].value, timeDelta, valueDelta, ps[1..])
  }

  predicate Encodes2(ps: seq<DataPoint>) {
    |ps| > 2 ==>
      Fits(Milli(ps[1].value - ps[0].value)) && InRange2(ps[1].value, ps[1].value - ps[0].value, ps[2..])
  }

  /** The two varints between the full points and the records. */
  function Header(ps: seq<DataPoint>): seq<byte>
    requires |ps| > 2 && Encodes2(ps)
  {
    Encoded(Wrap(ps[1].time - ps[0].time)) + Encoded(Milli(ps[1].value - ps[0].value))
  }

  function Records(ps: seq<DataPoint>): seq<byte>
    requires |ps| > 2 && Encodes2(ps)
  {
    Tail2(ps[1].time, ps[1].value, Wrap(ps[1].time - ps[0].time), ps[1].value - ps[0].value, ps[2..])
  }

  function EncodedDelta2(f: FloatBits, ps: seq<DataPoint>): seq<byte>
    requires Encodes2(ps)
  {
    if ps == [] then []
    else if |ps| == 1 then Base(f, ps[0])
    else if |ps| == 2 then Base(f, ps[0]) + Base(f, ps[1])
    else Base(f, ps[0]) + Base(f, ps[1]) + Header(ps) + Records(ps)
  }

  // ----- the decoder

  /** A decoder that slices past the capacity of its input stops the program. */
  datatype Outcome = Points(points: seq<DataPoint>) | OutOfBounds

  function ReadTail2(lastTime: int64, lastValue: real, pace: int64, rate: real, d: seq<byte>): seq<DataPoint>
    decreases |d|
  {
    if d == [] || ReadPiece(d) == None then []
    else
      var r := ReadPiece(d).value;
      var timeDelta, valueDelta := Wrap(pace + r.dt), rate + FromMilli(r.dv);
      var p := DataPoint(Wrap(lastTime + timeDelta), lastValue + valueDelta);
      [p] + ReadTail2(p.time, p.value, timeDelta, valueDelta, d[r.size..])
  }

  /** The decoder takes each of the header's varints to be eight bytes long. `cap` is the capacity of the
      slice that holds d: short input is sliced past its length as long as the capacity allows, and then has
      no records left. */
  function DecodedDelta2(f: FloatBits, d: seq<byte>, cap: nat): Outcome
    requires |d| <= cap
  {
    if |d| < 32 then Points([])
    else
      var p, q := ReadBase(f, d), ReadBase(f, d[16..]);
      if |d| == 32 then Points([p, q])
      else if cap < 48 then OutOfBounds
      else if |d| < 48 then Points([p, q])
      else Points([p, q] + ReadTail2(q.time, q.value, Decoded(d[32..40]), FromMilli(Decoded(d[40..48])), d[48..]))
  }

  // ----- records

  lemma RangeStep2(lastValue: real, rate: real, ps: seq<DataPoint>)
    requires ps != [] && InRange2(lastValue, rate, ps)
    ensures Fits(Milli(ps[0].value - lastValue - rate)) && InRange2(ps[0].value, ps[0].value - lastValue, ps[1..])
  {
  }

  lemma ReadTail2GoesOn(lastTime: int64, lastValue: real, pace: int64, rate: real, d: seq<byte>)
    requires d != [] && ReadPiece(d).Some?
    ensures var r := ReadPiece(d).value; var timeDelta, valueDelta := Wrap(pace + r.dt), rate + FromMilli(r.dv);
      var time, value := Wrap(lastTime + timeDelta), lastValue + valueDelta;
      ReadTail2(lastTime, lastValue, pace, rate, d)
      == [DataPoint(time, value)] + ReadTail2(time, value, timeDelta, valueDelta, d[r.size..])
  {
    hide ReadPiece, FromMilli;
  }

  lemma Tail2Unfolds(lastTime: int64, lastValue: real, pace: int64, rate: real, ps: seq<DataPoint>)
    requires ps != [] && InRange2(lastValue, rate, ps)
    ensures var timeDelta, valueDelta := Wrap(ps[0].time - lastTime), ps[0].value - lastValue;
      && Fits(Milli(valueDelta - rate)) && InRange2(ps[0].value, valueDelta, ps[1..])
      && Tail2(lastTime, lastValue, pace, rate, ps) == Piece(Wrap(timeDelta - pace), Milli(valueDelta - rate))
         + Tail2(ps[0].time, ps[0].value, timeDelta, valueDelta, ps[1..])
  {
    hide Piece, Milli;
  }

  /** Decoding one encoded record and what follows it, from a value and a rate that may be off. */
  lemma Tail2Step(lastTime: int64, got: real, lastValue: real, pace: int64, gotRate: real, rate: real,
    ps: seq<DataPoint>)
    requires ps != [] && InRange2(lastValue, rate, ps)
    ensures var p := ps[0]; var timeDelta, valueDelta := Wrap(p.time - lastTime), p.value - lastValue;
      var newRate := gotRate + FromMilli(Milli(valueDelta - rate));
      ReadTail2(lastTime, got, pace, gotRate, Tail2(lastTime, lastValue, pace, rate, ps))
      == [DataPoint(p.time, got + newRate)]
         + ReadTail2(p.time, got + newRate, timeDelta, newRate, Tail2(p.time, p.value, timeDelta, valueDelta, ps[1..]))
  {
    hide ReadPiece, Piece, Milli, FromMilli, Tail2, ReadTail2, Wrap;
    Tail2Unfolds(lastTime, lastValue, pace, rate, ps);
    var p := ps[0];
    var timeDelta, valueDelta := Wrap(p.time - lastTime), p.value - lastValue;
    var dt := Wrap(timeDelta - pace);
    var dv := Milli(valueDelta - rate);
    var rest := Tail2(p.time, p.value, timeDelta, valueDelta, ps[1..]);
    ReadsPiece(dt, dv, rest);
    PieceNonEmpty(dt, dv);
    ReadTail2GoesOn(lastTime, got, pace, gotRate, Piece(dt, dv) + rest);
    WrapRestores(pace, timeDelta);
    WrapRestores(lastTime, p.time);
    assert (Piece(dt, dv) + rest)[|Piece(dt, dv)|..] == rest;
  }

  lemma EmptyTail2(lastTime: int64, got: real, lastValue: real, pace: int64, gotRate: real, rate: real)
    ensures InRange2(lastValue, rate, [])
      && ReadTail2(lastTime, got, pace, gotRate, Tail2(lastTime, lastValue, pace, rate, [])) == []
  {
  }

  /** From every record, whatever its fields hold, the next point, the pace and the rate having changed by what
      they denote; and an end where a record is cut short. */
  lemma DecodesAny2(last: DataPoint, pace: int64, rate: real, a: seq<byte>, b: seq<byte>, rest: seq<byte>, n: nat)
    requires |a| < 16 && |b| < 16
    ensures var newPace, newRate := Wrap(pace + Decoded(a)), rate + Decoded(b) as real / 1000.0;
      var p := DataPoint(Wrap(last.time + newPace), last.value + newRate);
      ReadTail2(last.time, last.value, pace, rate, Announced(a, b) + rest)
      == [p] + ReadTail2(p.time, p.value, newPace, newRate, rest)
    ensures n < |Announced(a, b)| ==> ReadTail2(last.time, last.value, pace, rate, Announced(a, b)[..n]) == []
  {
    hide ReadPiece, Decoded, Wrap, ReadTail2, Announced;
    ReadsAnyPiece(a, b, rest, n);
    var r := Announced(a, b) + rest;
    assert r[|Announced(a, b)|..] == rest;
    ReadTail2GoesOn(last.time, last.value, pace, rate, r);
    if n < |Announced(a, b)| {
      assert n == 0 ==> Announced(a, b)[..n] == [];
      ReadTail2Stops(last.time, last.value, pace, rate, Announced(a, b)[..n]);
    }
  }

  /** What the decoder makes of any bytes: nothing without two full points; the two if nothing follows; past
      them an abort if the slice cannot be extended to 48 bytes; and otherwise the two numbers that the next
      eight bytes each denote are the pace and the rate that the records start from. */
  lemma DecodesHeader(f: FloatBits, d: seq<byte>, cap: nat)
    requires |d| <= cap
    ensures |d| < 32 ==> DecodedDelta2(f, d, cap) == Points([])
    ensures |d| == 32 ==> DecodedDelta2(f, d, cap) == Points([ReadBase(f, d), ReadBase(f, d[16..])])
    ensures |d| > 32 && cap < 48 ==> DecodedDelta2(f, d, cap) == OutOfBounds
    ensures 32 < |d| < 48 <= cap ==> DecodedDelta2(f, d, cap) == Points([ReadBase(f, d), ReadBase(f, d[16..])])
    ensures |d| >= 48 ==> var q := ReadBase(f, d[16..]);
      DecodedDelta2(f, d, cap) == Points([ReadBase(f, d), q]
        + ReadTail2(q.time, q.value, Decoded(d[32..40]), Decoded(d[40..48]) as real / 1000.0, d[48..]))
  {
    hide Decoded, ReadBase, ReadTail2;
  }

  // ----- the error

  /** The n-th triangle number of thousandths. */
  function Triangle(n: nat): real {
    if n == 0 then 0.0 else Triangle(n - 1) + n as real / 1000.0
  }

  lemma {:induction false} TriangleClosed(n: nat)
    ensures Triangle(n) == (n * (n + 1)) as real / 2000.0
  {
    if n > 0 {
      TriangleClosed(n - 1);
      var a, b := (n - 1) * n, n * (n + 1);
      assert b == a + 2 * n;
      assert b as real == a as real + 2.0 * n as real;
    }
  }

  /** k times r. */
  function Times(k: nat, r: real): real {
    if k == 0 then 0.0 else Times(k - 1, r) + r
  }

  lemma {:induction false} TimesAdds(k: nat, r: real, d: real)
    ensures Times(k, r + d) == Times(k, r) + Times(k, d)
  {
    if k > 0 {
      TimesAdds(k - 1, r, d);
    }
  }

  lemma {:induction false} TimesSmall(k: nat, d: real)
    requires k > 0 && -0.001 < d < 0.001
    ensures -(k as real / 1000.0) < Times(k, d) < k as real / 1000.0
  {
    if k > 1 {
      TimesSmall(k - 1, d);
    } else {
      assert Times(1, d) == Times(0, d) + d;
    }
  }

  /** qs has the times of ps; a value error e and a rate error g at the start account for the value error
      of point i up to a triangle number of thousandths. */
  predicate Near2(qs: seq<DataPoint>, ps: seq<DataPoint>, e: real, g: real) {
    && |qs| == |ps|
    && (forall i :: 0 <= i < |ps| ==> qs[i].time == ps[i].time)
    && (forall i :: 0 <= i < |ps| ==> Abs(qs[i].value - ps[i].value - e - Times(i + 1, g)) < Triangle(i + 1))
  }

  lemma ErrorAdds2(x: real, e: real, g: real, g': real, i: nat)
    requires i > 0 && Abs(x - (e + g') - Times(i, g')) < Triangle(i) && Abs(g' - g) < 0.001
    ensures Abs(x - e - Times(i + 1, g)) < Triangle(i + 1)
  {
    var d := g' - g;
    TimesAdds(i, g, d);
    assert g + d == g';
    TimesSmall(i + 1, d);
  }

  lemma Near2Cons(q: DataPoint, p: DataPoint, qs: seq<DataPoint>, ps: seq<DataPoint>, e: real, g: real, g': real)
    requires Near2(qs, ps, e + g', g') && q.time == p.time && q.value - p.value == e + g' && Abs(g' - g) < 0.001
    ensures Near2([q] + qs, [p] + ps, e, g)
  {
    hide Abs, Times, Triangle;
    var qs', ps' := [q] + qs, [p] + ps;
    forall i | 0 <= i < |ps'|
      ensures Abs(qs'[i].value - ps'[i].value - e - Times(i + 1, g)) < Triangle(i + 1)
    {
      if i == 0 {
        FirstError(q.value - p.value, e, g, g');
      } else {
        ErrorAdds2(qs[i - 1].value - ps[i - 1].value, e, g, g', i);
      }
    }
  }

  lemma FirstError(x: real, e: real, g: real, g': real)
    requires x == e + g' && Abs(g' - g) < 0.001
    ensures Abs(x - e - Times(1, g)) < Triangle(1)
  {
  }

  lemma NothingNear2(e: real, g: real)
    ensures Near2([], [], e, g)
  {
  }

  lemma {:induction false} Tail2RoundTrip(lastTime: int64, got: real, lastValue: real, pace: int64, gotRate: real,
    rate: real, ps: seq<DataPoint>)
    requires InRange2(lastValue, rate, ps)
    ensures Near2(ReadTail2(lastTime, got, pace, gotRate, Tail2(lastTime, lastValue, pace, rate, ps)), ps,
      got - lastValue, gotRate - rate)
    decreases |ps|
  {
    hide Tail2, ReadTail2, Near2, FromMilli, Milli, InRange2, Abs;
    if ps == [] {
      EmptyTail2(lastTime, got, lastValue, pace, gotRate, rate);
      NothingNear2(got - lastValue, gotRate - rate);
    } else {
      RangeStep2(lastValue, rate, ps);
      var p := ps[0];
      var timeDelta, valueDelta := Wrap(p.time - lastTime), p.value - lastValue;
      var newRate := gotRate + FromMilli(Milli(valueDelta - rate));
      var v := got + newRate;
      MilliError(valueDelta - rate);
      Tail2Step(lastTime, got, lastValue, pace, gotRate, rate, ps);
      Tail2RoundTrip(p.time, v, p.value, timeDelta, newRate, valueDelta, ps[1..]);
      assert newRate - valueDelta - (gotRate - rate) == FromMilli(Milli(valueDelta - rate)) - (valueDelta - rate);
      assert v - p.value == (got - lastValue) + (newRate - valueDelta);
      var rest := ReadTail2(p.time, v, timeDelta, newRate, Tail2(p.time, p.value, timeDelta, valueDelta, ps[1..]));
      Near2Cons(DataPoint(p.time, v), p, rest, ps[1..], got - lastValue, gotRate - rate, newRate - valueDelta);
      assert ps == [p] + ps[1..];
    }
  }

  // ----- the header

  function TimeVarint(p: DataPoint, q: DataPoint): seq<byte> { Encoded(Wrap(q.time - p.time)) }

  /** The varint of the first value difference. */
  function ValueVarint(p: DataPoint, q: DataPoint): seq<byte>
    requires Fits(Milli(q.value - p.value))
  {
    Encoded(Milli(q.value - p.value))
  }

  /** The header has the sixteen bytes that the decoder skips, and its time varint ends among the first eight. */
  predicate Aligned(p: DataPoint, q: DataPoint)
    requires Fits(Milli(q.value - p.value))
  {
    |TimeVarint(p, q)| <= 8 && |TimeVarint(p, q)| + |ValueVarint(p, q)| == 16
  }

  /** Both varints fill the eight bytes that the decoder reads them from. */
  predicate EightAndEight(p: DataPoint, q: DataPoint)
    requires Fits(Milli(q.value - p.value))
  {
    |TimeVarint(p, q)| == 8 && |ValueVarint(p, q)| == 8
  }

  /** Three or more points whose differences can be stored and whose first two values survive as bits. */
  predicate Storable(f: FloatBits, ps: seq<DataPoint>) {
    |ps| > 2 && Encodes2(ps) && Keeps(f, ps[0].value) && Keeps(f, ps[1].value)
  }

  /** The two full points, then header and records. */
  lemma Layout(f: FloatBits, ps: seq<DataPoint>)
    requires Storable(f, ps)
    ensures var d := EncodedDelta2(f, ps);
      && |d| == 32 + |Header(ps)| + |Records(ps)| && d[32..] == Header(ps) + Records(ps)
      && ReadBase(f, d) == ps[0] && ReadBase(f, d[16..]) == ps[1]
  {
    hide Base, ReadBase, Header, Records;
    var rest := Header(ps) + Records(ps);
    var d := EncodedDelta2(f, ps);
    assert d == Base(f, ps[0]) + (Base(f, ps[1]) + rest);
    ReadsBase(f, ps[0], Base(f, ps[1]) + rest);
    ReadsBase(f, ps[1], rest);
    assert d[32..] == d[16..][16..];
  }

  /** The decoder in terms of the bytes behind the two full points. */
  lemma DecodesFrom(f: FloatBits, ps: seq<DataPoint>, cap: nat)
    requires Storable(f, ps) && |EncodedDelta2(f, ps)| <= cap
    ensures var h := Header(ps) + Records(ps); var q := ps[1];
      DecodedDelta2(f, EncodedDelta2(f, ps), cap) ==
        if |h| < 16 then (if cap < 48 then OutOfBounds else Points([ps[0], q]))
        else Points([ps[0], q] + ReadTail2(q.time, q.value, Decoded(h[..8]), FromMilli(Decoded(h[8..16])), h[16..]))
  {
    hide Base, ReadBase, Records, Header, Decoded, ReadTail2, FromMilli, EncodedDelta2;
    Layout(f, ps);
    HeaderNonEmpty(ps);
    var d := EncodedDelta2(f, ps);
    if |d| >= 48 {
      assert d[32..40] == d[32..][..8] && d[40..48] == d[32..][8..16] && d[48..] == d[32..][16..];
    }
  }

  lemma HeaderNonEmpty(ps: seq<DataPoint>)
    requires |ps| > 2 && Encodes2(ps)
    ensures Header(ps) == TimeVarint(ps[0], ps[1]) + ValueVarint(ps[0], ps[1])
    ensures |Header(ps)| >= 2
  {
    hide Encoded, Wrap, Milli, InRange2, Groups, Pow128;
    VarintLength(Wrap(ps[1].time - ps[0].time));
    VarintLength(Milli(ps[1].value - ps[0].value));
  }

  /** Encodings with fewer than sixteen bytes behind the full points stop the program exactly when their
      slice has no capacity for the rest; up to sixteen they come back as the two full points otherwise. */
  lemma ShortEncodings(f: FloatBits, ps: seq<DataPoint>, cap: nat)
    requires Storable(f, ps) && |EncodedDelta2(f, ps)| <= cap
    ensures var n := |Header(ps)| + |Records(ps)|; var r := DecodedDelta2(f, EncodedDelta2(f, ps), cap);
      && (r == OutOfBounds <==> n < 16 && cap < 48)
      && (n <= 16 && r != OutOfBounds ==> r == Points(ps[..2]))
  {
    hide Header, Records, Decoded, ReadTail2, FromMilli, EncodedDelta2;
    DecodesFrom(f, ps, cap);
    var h := Header(ps) + Records(ps);
    assert ps[..2] == [ps[0], ps[1]];
    if |h| == 16 {
      assert h[16..] == [];
      ReadTail2Stops(ps[1].time, ps[1].value, Decoded(h[..8]), FromMilli(Decoded(h[8..16])), []);
      assert [ps[0], ps[1]] + [] == [ps[0], ps[1]];
    }
  }

  /** With an aligned header the decoder starts its loop where the encoder did, with the encoder's time
      difference; the value difference is read from the eight bytes before. */
  lemma AlignedRead(f: FloatBits, ps: seq<DataPoint>, cap: nat)
    requires Storable(f, ps) && Aligned(ps[0], ps[1]) && |EncodedDelta2(f, ps)| <= cap
    ensures |Header(ps)| == 16
    ensures var q := ps[1]; var got := FromMilli(Decoded(Header(ps)[8..]));
      DecodedDelta2(f, EncodedDelta2(f, ps), cap)
      == Points([ps[0], q] + ReadTail2(q.time, q.value, Wrap(q.time - ps[0].time), got, Records(ps)))
  {
    hide Records, Encoded, Decoded, ReadTail2, FromMilli, EncodedDelta2, Milli;
    DecodesFrom(f, ps, cap);
    HeaderNonEmpty(ps);
    var h := Header(ps) + Records(ps);
    var a, b := TimeVarint(ps[0], ps[1]), ValueVarint(ps[0], ps[1]);
    assert h[..8] == a + b[..8 - |a|];
    VarintReads(Wrap(ps[1].time - ps[0].time), b[..8 - |a|]);
    assert h[8..16] == Header(ps)[8..] && h[16..] == Records(ps);
  }

  // ----- the round trip

  /** Decoding gives a point for each point of ps, at its time. */
  predicate TimesKept(f: FloatBits, ps: seq<DataPoint>, cap: nat)
    requires Encodes2(ps) && |EncodedDelta2(f, ps)| <= cap
  {
    var r := DecodedDelta2(f, EncodedDelta2(f, ps), cap);
    r.Points? && |r.points| == |ps| && forall i :: 0 <= i < |ps| ==> r.points[i].time == ps[i].time
  }

  /** Moreover the first two points come back as they were, and value i is within i(i+1)/2 - 1 thousandths. */
  predicate ValuesNear(f: FloatBits, ps: seq<DataPoint>, cap: nat)
    requires |ps| > 2 && Encodes2(ps) && |EncodedDelta2(f, ps)| <= cap && TimesKept(f, ps, cap)
  {
    var qs := DecodedDelta2(f, EncodedDelta2(f, ps), cap).points;
    && qs[..2] == ps[..2]
    && forall i :: 2 <= i < |ps| ==> Abs(qs[i].value - ps[i].value) < (i * (i + 1)) as real / 2000.0 - 0.001
  }

  /** What comes back behind an aligned header: exact times, and values off by what the rate was misread by. */
  lemma AlignedRoundTrip(f: FloatBits, ps: seq<DataPoint>, cap: nat)
    requires Storable(f, ps) && Aligned(ps[0], ps[1]) && |EncodedDelta2(f, ps)| <= cap
    ensures TimesKept(f, ps, cap) && |Header(ps)| == 16
    ensures var qs := DecodedDelta2(f, EncodedDelta2(f, ps), cap).points;
      qs[..2] == ps[..2]
      && Near2(qs[2..], ps[2..], 0.0, FromMilli(Decoded(Header(ps)[8..])) - (ps[1].value - ps[0].value))
  {
    hide Tail2, ReadTail2, Milli, FromMilli, Encoded, Decoded, Header, InRange2, EncodedDelta2, DecodedDelta2,
      Aligned, Abs;
    AlignedRead(f, ps, cap);
    var p, q := ps[0], ps[1];
    var pace, rate := Wrap(q.time - p.time), q.value - p.value;
    var got := FromMilli(Decoded(Header(ps)[8..]));
    Tail2RoundTrip(q.time, q.value, q.value, pace, got, rate, ps[2..]);
    var rest := ReadTail2(q.time, q.value, pace, got, Records(ps));
    var qs := [p, q] + rest;
    assert qs[2..] == rest && qs[..2] == [p, q] == ps[..2];
    forall i | 0 <= i < |ps|
      ensures qs[i].time == ps[i].time
    {
      if i >= 2 {
        assert ps[2..][i - 2] == ps[i] && qs[i] == rest[i - 2];
      }
    }
  }

  /** Three or more points behind a header of twice eight bytes: every time and the first two points come
      back exactly, and value i is within i(i+1)/2 - 1 thousandths. */
  lemma DeltaDeltaRoundTrip(f: FloatBits, ps: seq<DataPoint>, cap: nat)
    requires Storable(f, ps) && EightAndEight(ps[0], ps[1]) && |EncodedDelta2(f, ps)| <= cap
    ensures TimesKept(f, ps, cap) && ValuesNear(f, ps, cap)
  {
    hide Near2, Milli, FromMilli, Encoded, Decoded, EncodedDelta2, DecodedDelta2, Abs;
    AlignedRoundTrip(f, ps, cap);
    HeaderNonEmpty(ps);
    var rate := ps[1].value - ps[0].value;
    assert Header(ps)[8..] == ValueVarint(ps[0], ps[1]);
    VarintRoundTrip(Milli(rate));
    MilliError(rate);
    var qs := DecodedDelta2(f, EncodedDelta2(f, ps), cap).points;
    NearBound(qs, ps, FromMilli(Milli(rate)) - rate);
  }

  lemma NearBound(qs: seq<DataPoint>, ps: seq<DataPoint>, g: real)
    requires |qs| == |ps| > 2 && Near2(qs[2..], ps[2..], 0.0, g) && Abs(g) < 0.001
    ensures forall i :: 2 <= i < |ps| ==> Abs(qs[i].value - ps[i].value) < (i * (i + 1)) as real / 2000.0 - 0.001
  {
    hide Abs, Times, Triangle;
    forall i | 2 <= i < |ps|
      ensures Abs(qs[i].value - ps[i].value) < (i * (i + 1)) as real / 2000.0 - 0.001
    {
      assert ps[2..][i - 2] == ps[i] && qs[2..][i - 2] == qs[i];
      BoundSum(qs[i].value - ps[i].value, g, i);
    }
  }

  lemma BoundSum(x: real, g: real, i: nat)
    requires i >= 2 && Abs(x - 0.0 - Times(i - 1, g)) < Triangle(i - 1) && Abs(g) < 0.001
    ensures Abs(x) < (i * (i + 1)) as real / 2000.0 - 0.001
  {
    hide Triangle;
    TimesSmall(i - 1, g);
    TriangleClosed(i - 1);
    assert i * (i + 1) == (i - 1) * i + 2 * i;
  }

  // ----- values in whole thousandths

  /** Every second difference of values is a whole number of thousandths. */
  predicate AllWhole2(lastValue: real, rate: real, ps: seq<DataPoint>)
    decreases |ps|
  {
    ps != [] ==> Whole(ps[0].value - lastValue - rate) && AllWhole2(ps[0].value, ps[0].value - lastValue, ps[1..])
  }

  lemma {:induction false} Tail2Exact(lastTime: int64, lastValue: real, pace: int64, rate: real, ps: seq<DataPoint>)
    requires InRange2(lastValue, rate, ps)
    ensures ReadTail2(lastTime, lastValue, pace, rate, Tail2(lastTime, lastValue, pace, rate, ps)) == ps
      <==> AllWhole2(lastValue, rate, ps)
    decreases |ps|
  {
    hide Tail2, ReadTail2, FromMilli, Milli, InRange2;
    if ps == [] {
      EmptyTail2(lastTime, lastValue, lastValue, pace, rate, rate);
    } else {
      RangeStep2(lastValue, rate, ps);
      var p := ps[0];
      var timeDelta, valueDelta := Wrap(p.time - lastTime), p.value - lastValue;
      var newRate := rate + FromMilli(Milli(valueDelta - rate));
      Tail2Step(lastTime, lastValue, lastValue, pace, rate, rate, ps);
      Tail2Exact(p.time, p.value, timeDelta, valueDelta, ps[1..]);
      SameHeads(DataPoint(p.time, lastValue + newRate),
                ReadTail2(p.time, lastValue + newRate, timeDelta, newRate,
                  Tail2(p.time, p.value, timeDelta, valueDelta, ps[1..])), ps);
    }
  }

  lemma EightAndEightExact(f: FloatBits, ps: seq<DataPoint>, cap: nat)
    requires Storable(f, ps) && EightAndEight(ps[0], ps[1]) && |EncodedDelta2(f, ps)| <= cap
    ensures var first, second := ps[1].value - ps[0].value, ps[2].value - ps[1].value;
      DecodedDelta2(f, EncodedDelta2(f, ps), cap) == Points(ps) <==>
        && FromMilli(Milli(first)) + FromMilli(Milli(second - first)) == second
        && AllWhole2(ps[2].value, second, ps[3..])
  {
    hide Tail2, ReadTail2, Milli, FromMilli, Encoded, Decoded, Header, InRange2, AllWhole2, EncodedDelta2,
      DecodedDelta2;
    AlignedRead(f, ps, cap);
    HeaderNonEmpty(ps);
    assert Header(ps)[8..] == ValueVarint(ps[0], ps[1]);
    VarintRoundTrip(Milli(ps[1].value - ps[0].value));
    var p, q, r, rest := ps[0], ps[1], ps[2], ps[2..];
    var first, second, pace, next := q.value - p.value, r.value - q.value, Wrap(q.time - p.time), Wrap(r.time - q.time);
    var gotRate := FromMilli(Milli(first));
    var newRate := gotRate + FromMilli(Milli(second - first));
    var got := ReadTail2(q.time, q.value, pace, gotRate, Tail2(q.time, q.value, pace, first, rest));
    assert rest[0] == r && rest[1..] == ps[3..];
    RangeStep2(q.value, first, rest);
    Tail2Step(q.time, q.value, q.value, pace, gotRate, first, rest);
    Tail2Exact(r.time, r.value, next, second, ps[3..]);
    SameHeads(DataPoint(r.time, q.value + newRate),
              ReadTail2(r.time, q.value + newRate, next, newRate, Tail2(r.time, r.value, next, second, ps[3..])), rest);
    assert DecodedDelta2(f, EncodedDelta2(f, ps), cap) == Points([p, q] + got);
    SameTails(p, q, got, ps);
  }

  lemma SameTails(p: DataPoint, q: DataPoint, got: seq<DataPoint>, ps: seq<DataPoint>)
    requires |ps| > 2 && ps[0] == p && ps[1] == q
    ensures [p, q] + got == ps <==> got == ps[2..]
  {
    assert ([p, q] + got)[2..] == got;
    assert ps == [p, q] + ps[2..];
  }

  // ----- series of up to two points

  /** Series of no or two points come back, a single point does not. */
  lemma SmallSeriesExact(f: FloatBits, ps: seq<DataPoint>, cap: nat)
    requires |ps| <= 2 && (forall i :: 0 <= i < |ps| ==> Keeps(f, ps[i].value)) && |EncodedDelta2(f, ps)| <= cap
    ensures DecodedDelta2(f, EncodedDelta2(f, ps), cap) == Points(ps) <==> |ps| != 1
  {
    hide Base, ReadBase;
    if |ps| == 2 {
      var p, q := ps[0], ps[1];
      ReadsBase(f, p, Base(f, q));
      ReadsBase(f, q, []);
      assert Base(f, q) + [] == Base(f, q);
      assert ps == [p, q];
    }
  }

  // ----- the loops

  /** encodeDeltaDelta. */
  method EncodeDelta2(f: FloatBits, points: seq<DataPoint>) returns (buf: seq<byte>)
    requires Encodes2(points)
    ensures buf == EncodedDelta2(f, points)
    ensures points == [] ==> buf == []
  {
    hide Base, Tail2, InRange2, Piece, Milli, Encoded, Wrap;
    if |points| == 0 {
      return [];
    }
    var i := 0;
    buf := [];
    while i < 2 && i < |points|
      invariant 0 <= i <= 2 && i <= |points|
      invariant buf
        == (if i == 0 then [] else if i == 1 then Base(f, points[0]) else Base(f, points[0]) + Base(f, points[1]))
    {
      var base := EncodeBase(f, points[i]);
      buf := buf + base[..];
      i := i + 1;
    }
    if |points| <= 2 {
      return;
    }
    var lastTimeDelta := Wrap(points[1].time as int - points[0].time as int);
    var lastValueDelta := points[1].value - points[0].value;
    var pace := EncodeVarint(lastTimeDelta);
    var rate := EncodeVarint(Milli(lastValueDelta));
    buf := buf + pace + rate;
    while i < |points|
      invariant 2 <= i <= |points|
      invariant lastTimeDelta == Wrap(points[i - 1].time - points[i - 2].time)
      invariant lastValueDelta == points[i - 1].value - points[i - 2].value
      invariant InRange2(points[i - 1].value, lastValueDelta, points[i..])
      invariant buf + Tail2(points[i - 1].time, points[i - 1].value, lastTimeDelta, lastValueDelta, points[i..])
        == EncodedDelta2(f, points)
      decreases |points| - i
    {
      Tail2Unfolds(points[i - 1].time, points[i - 1].value, lastTimeDelta, lastValueDelta, points[i..]);
      assert points[i..][1..] == points[i + 1..];
      var timeDelta := Wrap(points[i].time as int - points[i - 1].time as int);
      var valueDelta := points[i].value - points[i - 1].value;
      var piece := EncodePiece(Wrap(timeDelta as int - lastTimeDelta as int), Milli(valueDelta - lastValueDelta));
      buf := buf + piece;
      lastTimeDelta, lastValueDelta := timeDelta, valueDelta;
      i := i + 1;
    }
    EmptyTail2(points[i - 1].time, 0.0, points[i - 1].value, lastTimeDelta, 0.0, lastValueDelta);
    NothingEncoded(points[i - 1].time, points[i - 1].value, lastTimeDelta, lastValueDelta);
    assert points[i..] == [];
  }

  lemma NothingEncoded(lastTime: int64, lastValue: real, pace: int64, rate: real)
    ensures InRange2(lastValue, rate, []) && Tail2(lastTime, lastValue, pace, rate, []) == []
  {
  }

  /** decodeDeltaDelta; `slack` is what the array behind the slice holds past its length. */
  method DecodeDelta2(f: FloatBits, data: seq<byte>, slack: seq<byte>) returns (r: Outcome)
    ensures r == DecodedDelta2(f, data, |data| + |slack|)
  {
    hide ReadTail2, ReadPiece, Get64, Decoded, FromMilli;
    if |data| < 32 {
      return Points([]);
    }
    var point0 := DataPoint(I64(Get64(Little, data[..8])), f.fromBits(Get64(Little, data[8..16])));
    var point1 := DataPoint(I64(Get64(Little, data[16..24])), f.fromBits(Get64(Little, data[24..32])));
    assert data[16..][..8] == data[16..24] && data[16..][8..16] == data[24..32];
    var points := [point0, point1];
    if |data| <= 32 {
      return Points(points);
    }
    var whole := data + slack;
    if |whole| < 48 {
      return OutOfBounds;
    }
    var lastTimeDelta := DecodeVarint(whole[32..40]);
    var stored := DecodeVarint(whole[40..48]);
    if |data| < 48 {
      return Points(points);
    }
    assert whole[32..40] == data[32..40] && whole[40..48] == data[40..48];
    var lastValueDelta := FromMilli(stored);
    var lastTime, lastValue := point1.time, point1.value;
    ghost var want := points + ReadTail2(lastTime, lastValue, lastTimeDelta, lastValueDelta, data[48..]);
    assert DecodedDelta2(f, data, |whole|) == Points(want);
    var offset := 48;
    while offset < |data|
      invariant 48 <= offset <= |data|
      invariant points + ReadTail2(lastTime, lastValue, lastTimeDelta, lastValueDelta, data[offset..]) == want
      decreases |data| - offset
    {
      PieceAt(data, offset);
      var timeLen: nat, valueLen: nat := data[offset] / 16, data[offset] % 16;
      if offset + 1 + timeLen + valueLen > |data| {
        ReadTail2Stops(lastTime, lastValue, lastTimeDelta, lastValueDelta, data[offset..]);
        return Points(points);
      }
      ReadTail2GoesOn(lastTime, lastValue, lastTimeDelta, lastValueDelta, data[offset..]);
      assert data[offset..][1 + timeLen + valueLen..] == data[offset + 1 + timeLen + valueLen..];
      offset := offset + 1;
      var secondTimeDelta := DecodeVarint(data[offset..offset + timeLen]);
      var secondStored := DecodeVarint(data[offset + timeLen..offset + timeLen + valueLen]);
      lastTimeDelta := Wrap(lastTimeDelta as int + secondTimeDelta as int);
      lastValueDelta := lastValueDelta + FromMilli(secondStored);
      lastTime, lastValue := Wrap(lastTime as int + lastTimeDelta as int), lastValue + lastValueDelta;
      points := points + [DataPoint(lastTime, lastValue)];
      offset := offset + timeLen + valueLen;
    }
    ReadTail2Stops(lastTime, lastValue, lastTimeDelta, lastValueDelta, []);
    assert data[offset..] == [];
    return Points(points);
  }

  lemma ReadTail2Stops(lastTime: int64, lastValue: real, pace: int64, rate: real, d: seq<byte>)
    requires d == [] || ReadPiece(d) == None
    ensures ReadTail2(lastTime, lastValue, pace, rate, d) == []
  {
    hide ReadPiece;
  }
}
