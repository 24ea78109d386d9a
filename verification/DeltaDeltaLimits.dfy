/** What the delta-delta codec restores and what it does not: the decoder takes both varints of the header to
    be eight bytes long, whatever their length. */
module DeltaDeltaLimits {
  import opened Bytes
  import opened Varint
  import opened Delta
  import opened DeltaDelta

  // ----- exactly which first two points have the guarantee

  /** A varint of nine or ten bytes, read from its second or third byte on, is a number far from its own. */
  lemma LateStart(x: int64, k: nat)
    requires |Encoded(x)| >= 9 && 0 < k <= 2
    ensures Decoded(Encoded(x)[k..]) - x > 10 || x - Decoded(Encoded(x)[k..]) > 10
  {
    var u: nat := U64(x);
    VarintLength(x);
    Pow128Values();
    assert u >= Pow128(8);
    GroupsTail(u);
    RoomIs64Bits();
    var w := if k == 1 then u / 0x80 else u / 0x80 / 0x80;
    if k == 2 {
      GroupsTail(u / 0x80);
      assert Groups(u)[2..] == Groups(u)[1..][1..];
    }
    assert Groups(w) == Encoded(x)[k..];
    ValueOfGroups(w, 0, []);
    assert Groups(w) + [] == Groups(w);
  }

  /** Behind an aligned header whose varints are not eight bytes each, the third value is off already. */
  lemma RateMisread(f: FloatBits, ps: seq<DataPoint>, cap: nat)
    requires Storable(f, ps) && Aligned(ps[0], ps[1]) && |EncodedDelta2(f, ps)| <= cap
    requires !EightAndEight(ps[0], ps[1])
    ensures TimesKept(f, ps, cap)
    ensures Abs(DecodedDelta2(f, EncodedDelta2(f, ps), cap).points[2].value - ps[2].value) > 0.002
  {
    hide Milli, Groups, Decoded, EncodedDelta2, DecodedDelta2, Triangle;
    AlignedRoundTrip(f, ps, cap);
    HeaderNonEmpty(ps);
    var a, b := TimeVarint(ps[0], ps[1]), ValueVarint(ps[0], ps[1]);
    var rate := ps[1].value - ps[0].value;
    VarintLength(Milli(rate));
    assert Header(ps)[8..] == b[8 - |a|..];
    LateStart(Milli(rate), 8 - |a|);
    MilliError(rate);
    var g := FromMilli(Decoded(Header(ps)[8..])) - rate;
    var qs := DecodedDelta2(f, EncodedDelta2(f, ps), cap).points;
    assert qs[2..][0] == qs[2] && ps[2..][0] == ps[2];
    assert Times(1, g) == Times(0, g) + g;
    assert Triangle(1) == 0.001 by { TriangleClosed(1); }
    assert Abs(g) > 0.005;
  }

  /** A third point that is 127 units off the pace and 127 thousandths off the rate. */
  function OffBeat(p: DataPoint, q: DataPoint): DataPoint {
    DataPoint(Wrap(q.time + Wrap(Wrap(q.time - p.time) + 127)), q.value + (q.value - p.value) + 0.127)
  }

  lemma OffBeatRecord(p: DataPoint, q: DataPoint)
    requires Fits(Milli(q.value - p.value))
    ensures Encodes2([p, q, OffBeat(p, q)]) && Records([p, q, OffBeat(p, q)]) == [0x11, 127, 127]
  {
    hide Encoded, Wrap, OffBeat, Piece, Milli, Tail2;
    var o := OffBeat(p, q);
    var ps := [p, q, o];
    var pace, rate := Wrap(q.time - p.time), q.value - p.value;
    assert ps[2..] == [o] && [o][1..] == [];
    OffBeatDiffers(p, q);
    var next, newRate := Wrap(o.time - q.time), o.value - q.value;
    OneRecord();
    NothingEncoded(o.time, o.value, next, newRate);
    Tail2Unfolds(q.time, q.value, pace, rate, [o]);
    assert Piece(127, 127) + [] == Piece(127, 127);
  }

  lemma OffBeatDiffers(p: DataPoint, q: DataPoint)
    ensures var o := OffBeat(p, q);
      && Wrap(Wrap(o.time - q.time) - Wrap(q.time - p.time)) == 127
      && Milli(o.value - q.value - (q.value - p.value)) == 127
  {
    hide Wrap;
    var pace: int := Wrap(q.time - p.time);
    WrapDifference(q.time, Wrap(pace + 127));
    WrapDifference(pace, 127);
    assert OffBeat(p, q).value - q.value - (q.value - p.value) == 0.127;
    MilliOf127();
  }

  lemma MilliOf127()
    ensures Milli(0.127) == 127
  {
  }

  lemma OneRecord()
    ensures Piece(127, 127) == [0x11, 127, 127]
  {
  }

  /** A time varint of nine or ten bytes is misread: the third point of any stream gets another time, if
      the decoder starts its loop at the records at all. */
  lemma TimeMisread(f: FloatBits, ps: seq<DataPoint>, cap: nat)
    requires Storable(f, ps) && |EncodedDelta2(f, ps)| <= cap
    requires |TimeVarint(ps[0], ps[1])| > 8 && |Header(ps)| == 16
    ensures !TimesKept(f, ps, cap)
  {
    hide Encoded, Decoded, ReadTail2, FromMilli, EncodedDelta2, DecodedDelta2, Milli, Records, Encodes2, Header;
    DecodesFrom(f, ps, cap);
    HeaderNonEmpty(ps);
    var h := Header(ps) + Records(ps);
    assert h[..8] == TimeVarint(ps[0], ps[1])[..8] && h[16..] == Records(ps);
    CutShort(Wrap(ps[1].time - ps[0].time));
    WrongPace(ps, Decoded(h[..8]), FromMilli(Decoded(h[8..16])));
  }

  lemma WrongPace(ps: seq<DataPoint>, got: int64, gotRate: real)
    requires |ps| > 2 && Encodes2(ps) && got != Wrap(ps[1].time - ps[0].time)
    ensures var qs := ReadTail2(ps[1].time, ps[1].value, got, gotRate, Records(ps));
      qs != [] && qs[0].time != ps[2].time
  {
    hide ReadTail2, Tail2, FromMilli, Milli, ReadPiece, Piece, InRange2, Wrap;
    var p, q, r := ps[0], ps[1], ps[2];
    var pace, next := Wrap(q.time - p.time), Wrap(r.time - q.time);
    var rate := q.value - p.value;
    RangeStep2(q.value, rate, ps[2..]);
    Tail2Unfolds(q.time, q.value, pace, rate, ps[2..]);
    var dt: int64, dv: int64 := Wrap(next as int - pace as int), Milli(r.value - q.value - rate);
    ReadsPiece(dt, dv, Tail2(r.time, r.value, next, r.value - q.value, ps[2..][1..]));
    PieceNonEmpty(dt, dv);
    ReadTail2GoesOn(q.time, q.value, got, gotRate, Records(ps));
    SamePace(q.time, r.time, got, dt, pace);
  }

  /** The first eight bytes of a longer varint do not denote its number, and denote none below 0. */
  lemma CutShort(x: int64)
    requires |Encoded(x)| > 8
    ensures Decoded(Encoded(x)[..8]) != x
    ensures 0 <= Decoded(Encoded(x)[..8]) == U64(x) % Pow128(8) < Pow128(8) <= U64(x)
  {
    hide Groups, Value, Room;
    RoomIs64Bits();
    Pow128Values();
    VarintLength(x);
    ValueOfPrefix(U64(x), 8, 0);
  }

  /** Only the encoder's own pace leads to the point's time. */
  lemma SamePace(last: int64, t: int64, got: int64, dt: int64, pace: int64)
    requires dt == Wrap(Wrap(t - last) - pace)
    ensures Wrap(last + Wrap(got + dt)) == t <==> got == pace
  {
    hide Wrap;
    var next := Wrap(t - last);
    WrapRestores(last, t);
    WrapRestores(pace, next);
    if Wrap(last + Wrap(got + dt)) == t {
      WrapDifference(last, Wrap(got + dt));
      WrapDifference(dt, got);
      WrapDifference(dt, pace);
    }
  }

  /** Behind any header that is not aligned that point is lost or gets another time. */
  lemma OffBeatLost(f: FloatBits, p: DataPoint, q: DataPoint, cap: nat)
    requires Fits(Milli(q.value - p.value)) && Keeps(f, p.value) && Keeps(f, q.value) && !Aligned(p, q)
    ensures Encodes2([p, q, OffBeat(p, q)])
    ensures |EncodedDelta2(f, [p, q, OffBeat(p, q)])| <= cap ==> !TimesKept(f, [p, q, OffBeat(p, q)], cap)
  {
    hide Encoded, Decoded, ReadTail2, EncodedDelta2, Milli, OffBeat, Records, Encodes2;
    var ps := [p, q, OffBeat(p, q)];
    OffBeatRecord(p, q);
    if |EncodedDelta2(f, ps)| <= cap {
      HeaderNonEmpty(ps);
      var n := |Header(ps)|;
      if n <= 13 {
        ShortEncodings(f, ps, cap);
      } else if n == 16 {
        TimeMisread(f, ps, cap);
      } else {
        VarintLength(Wrap(q.time - p.time));
        VarintLength(Milli(q.value - p.value));
        OffBeatMisread(f, p, q, cap);
      }
    }
  }

  /** What the decoder finds from byte sixteen on when the header is too short or too long. */
  lemma OffBeatMisread(f: FloatBits, p: DataPoint, q: DataPoint, cap: nat)
    requires Fits(Milli(q.value - p.value)) && Keeps(f, p.value) && Keeps(f, q.value)
    requires Encodes2([p, q, OffBeat(p, q)]) && Records([p, q, OffBeat(p, q)]) == [0x11, 127, 127]
    requires |EncodedDelta2(f, [p, q, OffBeat(p, q)])| <= cap
    requires |Header([p, q, OffBeat(p, q)])| in {14, 15, 17, 18, 19, 20}
    ensures !TimesKept(f, [p, q, OffBeat(p, q)], cap)
  {
    hide Encoded, Decoded, ReadTail2, EncodedDelta2, DecodedDelta2, Milli, FromMilli, OffBeat, Records, Encodes2,
      ReadPiece, TimesKept, Header, Wrap, Groups, Pow128;
    var ps := [p, q, OffBeat(p, q)];
    DecodesFrom(f, ps, cap);
    HeaderNonEmpty(ps);
    VarintLength(Wrap(q.time - p.time));
    VarintLength(Milli(q.value - p.value));
    var h := Header(ps) + [0x11, 127, 127];
    var got, gotRate := Decoded(h[..8]), FromMilli(Decoded(h[8..16]));
    if |h| == 20 {
      LongByOne(p, q, h, gotRate);
    } else {
      OutOfStep(p, q, h);
      ReadTail2Stops(q.time, q.value, got, gotRate, h[16..]);
    }
    ThirdLost(f, ps, cap, ReadTail2(q.time, q.value, got, gotRate, h[16..]));
  }

  lemma ThirdLost(f: FloatBits, ps: seq<DataPoint>, cap: nat, qs: seq<DataPoint>)
    requires |ps| == 3 && Encodes2(ps) && |EncodedDelta2(f, ps)| <= cap
    requires DecodedDelta2(f, EncodedDelta2(f, ps), cap) == Points([ps[0], ps[1]] + qs)
    requires qs == [] || qs[0].time != ps[2].time
    ensures !TimesKept(f, ps, cap)
  {
    hide EncodedDelta2, DecodedDelta2, Encodes2;
    assert qs != [] ==> ([ps[0], ps[1]] + qs)[2] == qs[0];
  }

  lemma OutOfStep(p: DataPoint, q: DataPoint, h: seq<byte>)
    requires Fits(Milli(q.value - p.value))
    requires h == TimeVarint(p, q) + ValueVarint(p, q) + [0x11, 127, 127] && |h| in {17, 18, 21, 22, 23}
    requires |TimeVarint(p, q)| <= 10 && |ValueVarint(p, q)| <= 10
    ensures ReadPiece(h[16..]) == None
  {
    hide Groups, Decoded;
    var a, b := TimeVarint(p, q), ValueVarint(p, q);
    var n := |a| + |b|;
    if n > 16 {
      assert h[16] == b[16 - |a|];
      TopBits(U64(Milli(q.value - p.value)), 16 - |a|);
    }
  }

  /** One byte too many: the value varint's last byte is taken for a flag byte. */
  lemma LongByOne(p: DataPoint, q: DataPoint, h: seq<byte>, gotRate: real)
    requires Fits(Milli(q.value - p.value))
    requires h == TimeVarint(p, q) + ValueVarint(p, q) + [0x11, 127, 127] && |h| == 20
    requires |TimeVarint(p, q)| <= 10 && |ValueVarint(p, q)| <= 10
    ensures var qs := ReadTail2(q.time, q.value, Decoded(h[..8]), gotRate, h[16..]);
      qs != [] ==> qs[0].time != OffBeat(p, q).time
  {
    hide Encoded, Decoded, Milli, FromMilli, ReadTail2, ReadPiece, Wrap;
    var pace: int, got: int := Wrap(q.time - p.time), Decoded(h[..8]);
    assert h[16..] == [h[16], 0x11, 127, 127];
    if ReadPiece(h[16..]) == None {
      ReadTail2Stops(q.time, q.value, got, gotRate, h[16..]);
    } else {
      ReadTail2GoesOn(q.time, q.value, got, gotRate, h[16..]);
      SmallStep(h[16]);
      var dt: int := ReadPiece(h[16..]).value.dt;
      StepsApart(p, q, h, dt);
      WrapDifference(q.time, Wrap(got + dt));
      WrapDifference(q.time, Wrap(pace + 127));
    }
  }

  lemma StepsApart(p: DataPoint, q: DataPoint, h: seq<byte>, dt: int)
    requires Fits(Milli(q.value - p.value)) && dt in {0, 17}
    requires h == TimeVarint(p, q) + ValueVarint(p, q) + [0x11, 127, 127] && |h| == 20
    ensures Wrap(Decoded(h[..8]) + dt) != Wrap(Wrap(q.time - p.time) + 127)
  {
    hide Encoded, Decoded, Milli, Wrap;
    var a, b := TimeVarint(p, q), ValueVarint(p, q);
    var pace: int := Wrap(q.time - p.time);
    if |a| <= 8 {
      var rest := (b + [0x11, 127, 127])[..8 - |a|];
      assert h[..8] == a + rest;
      VarintReads(pace, rest);
      WrapApart(pace + 127, pace + dt);
    } else {
      assert h[..8] == a[..8];
      CutShort(pace);
      PaceApart(pace, Decoded(h[..8]), dt);
    }
  }

  lemma SmallStep(z: byte)
    requires ReadPiece([z, 0x11, 127, 127]) != None
    ensures ReadPiece([z, 0x11, 127, 127]).value.dt in {0, 17}
  {
    hide Decoded;
    var d := [z, 0x11, 127, 127];
    var t := d[0] / 16;
    SmallVarints();
    if t == 0 {
      assert d[1..1 + t] == [];
    } else {
      assert d[1..1 + t] == Encoded(17) + d[2..1 + t];
      VarintReads(17, d[2..1 + t]);
    }
  }

  lemma SmallVarints()
    ensures Decoded([]) == 0 && Encoded(17) == [0x11] && Encoded(0) == [0]
  {
  }

  lemma PaceApart(pace: int64, got: int64, dt: int64)
    requires got == U64(pace) % Pow128(8) && U64(pace) >= Pow128(8) && dt in {0, 17}
    ensures Wrap(got + dt) != Wrap(pace + 127)
  {
    hide Wrap;
    Pow128Values();
    var m := U64(pace) / Pow128(8);
    assert got == U64(pace) - Pow128(8) * m && 0 < m < 256;
    if pace < 0 {
      WrapApart(got + dt, pace + 127);
    } else {
      WrapApart(pace + 127, got + dt);
    }
  }

  ghost predicate TimesAlwaysKept(f: FloatBits, p: DataPoint, q: DataPoint) {
    forall rest: seq<DataPoint>, cap: nat ::
      rest != [] && Encodes2([p, q] + rest) && |EncodedDelta2(f, [p, q] + rest)| <= cap
      ==> TimesKept(f, [p, q] + rest, cap)
  }

  ghost predicate AlwaysNear(f: FloatBits, p: DataPoint, q: DataPoint) {
    forall rest: seq<DataPoint>, cap: nat ::
      rest != [] && Encodes2([p, q] + rest) && |EncodedDelta2(f, [p, q] + rest)| <= cap
      ==> TimesKept(f, [p, q] + rest, cap) && ValuesNear(f, [p, q] + rest, cap)
  }

  /** The first two points decide: whatever comes after them keeps its number and its times exactly when
      the header is aligned. */
  lemma TimesKeptExactly(f: FloatBits, p: DataPoint, q: DataPoint)
    requires Fits(Milli(q.value - p.value)) && Keeps(f, p.value) && Keeps(f, q.value)
    ensures TimesAlwaysKept(f, p, q) <==> Aligned(p, q)
  {
    hide Aligned, Milli, TimesKept, EncodedDelta2, OffBeat, Encodes2;
    if Aligned(p, q) {
      forall rest: seq<DataPoint>, cap: nat
        | rest != [] && Encodes2([p, q] + rest) && |EncodedDelta2(f, [p, q] + rest)| <= cap
        ensures TimesKept(f, [p, q] + rest, cap)
      {
        AlignedRoundTrip(f, [p, q] + rest, cap);
      }
    } else {
      var rest := [OffBeat(p, q)];
      assert [p, q] + rest == [p, q, OffBeat(p, q)];
      OffBeatRecord(p, q);
      OffBeatLost(f, p, q, |EncodedDelta2(f, [p, q] + rest)|);
    }
  }

  /** And the values stay within the bound, whatever comes, exactly when both varints take eight bytes. */
  lemma RoundTripExactly(f: FloatBits, p: DataPoint, q: DataPoint)
    requires Fits(Milli(q.value - p.value)) && Keeps(f, p.value) && Keeps(f, q.value)
    ensures AlwaysNear(f, p, q) <==> EightAndEight(p, q)
  {
    hide Milli, TimesKept, EncodedDelta2, DecodedDelta2, OffBeat, Encodes2, Encoded, Abs, Records;
    if EightAndEight(p, q) {
      forall rest: seq<DataPoint>, cap: nat
        | rest != [] && Encodes2([p, q] + rest) && |EncodedDelta2(f, [p, q] + rest)| <= cap
        ensures TimesKept(f, [p, q] + rest, cap) && ValuesNear(f, [p, q] + rest, cap)
      {
        DeltaDeltaRoundTrip(f, [p, q] + rest, cap);
      }
    } else {
      TimesKeptExactly(f, p, q);
      if Aligned(p, q) {
        var rest := [OffBeat(p, q)];
        assert [p, q] + rest == [p, q, OffBeat(p, q)];
        OffBeatRecord(p, q);
        RateMisread(f, [p, q] + rest, |EncodedDelta2(f, [p, q] + rest)|);
        assert !ValuesNear(f, [p, q] + rest, |EncodedDelta2(f, [p, q] + rest)|);
      }
    }
  }

  // ----- exactly when a stream comes back unchanged

  /** Behind a header of sixteen bytes the round trip is the identity exactly when they are eight and eight,
      the truncations of the first difference and of the first second difference cancel, and all later second
      differences of values are whole numbers of thousandths. */
  lemma DeltaDeltaExact(f: FloatBits, ps: seq<DataPoint>, cap: nat)
    requires Storable(f, ps) && |EncodedDelta2(f, ps)| <= cap && |Header(ps)| == 16
    ensures var first, second := ps[1].value - ps[0].value, ps[2].value - ps[1].value;
      DecodedDelta2(f, EncodedDelta2(f, ps), cap) == Points(ps) <==>
        && EightAndEight(ps[0], ps[1])
        && FromMilli(Milli(first)) + FromMilli(Milli(second - first)) == second
        && AllWhole2(ps[2].value, second, ps[3..])
  {
    hide Milli, FromMilli, Encoded, EncodedDelta2, DecodedDelta2, AllWhole2, Header;
    HeaderNonEmpty(ps);
    if EightAndEight(ps[0], ps[1]) {
      EightAndEightExact(f, ps, cap);
    } else if Aligned(ps[0], ps[1]) {
      RateMisread(f, ps, cap);
    } else {
      TimeMisread(f, ps, cap);
    }
  }

  /** The records that bytes parse into. */
  function Pieces(d: seq<byte>): seq<Fields>
    decreases |d|
  {
    if d == [] || ReadPiece(d) == None then []
    else [ReadPiece(d).value] + Pieces(d[ReadPiece(d).value.size..])
  }

  function TimeStep(ps: seq<DataPoint>, i: nat): int64
    requires 0 < i < |ps|
  {
    Wrap(ps[i].time - ps[i - 1].time)
  }

  function ValueStep(ps: seq<DataPoint>, i: nat): real
    requires 0 < i < |ps|
  {
    ps[i].value - ps[i - 1].value
  }

  /** The first record leads from the given pace and rate to the steps of ps, and each later one from one step
      of ps to the next. */
  predicate Leads(ps: seq<DataPoint>, pace: int64, rate: real, xs: seq<Fields>)
    requires ps != []
  {
    && |xs| == |ps| - 1
    && (xs != [] ==> Wrap(pace + xs[0].dt) == TimeStep(ps, 1) && rate + FromMilli(xs[0].dv) == ValueStep(ps, 1))
    && forall i :: 1 <= i < |xs| ==> IsSecond(ps, i, xs[i])
  }

  /** x holds the difference between two neighbouring steps of ps. */
  predicate IsSecond(ps: seq<DataPoint>, i: nat, x: Fields)
    requires 1 <= i < |ps| - 1
  {
    && x.dt == Wrap(TimeStep(ps, i + 1) - TimeStep(ps, i))
    && FromMilli(x.dv) == ValueStep(ps, i + 1) - ValueStep(ps, i)
  }

  lemma {:induction false} TailLeads(ps: seq<DataPoint>, pace: int64, rate: real, d: seq<byte>)
    requires ps != []
    ensures ReadTail2(ps[0].time, ps[0].value, pace, rate, d) == ps[1..] <==> Leads(ps, pace, rate, Pieces(d))
    decreases |ps|
  {
    hide ReadTail2, Pieces, ReadPiece, FromMilli, Wrap, Leads;
    var last := ps[0];
    PiecesTurn(d);
    if d == [] || ReadPiece(d) == None {
      ReadTail2Stops(last.time, last.value, pace, rate, d);
      NoneLead(ps, pace, rate);
    } else {
      var r := ReadPiece(d).value;
      var rest := Pieces(d[r.size..]);
      var timeDelta, valueDelta := Wrap(pace + r.dt), rate + FromMilli(r.dv);
      ReadTail2GoesOn(last.time, last.value, pace, rate, d);
      var q := DataPoint(Wrap(last.time + timeDelta), last.value + valueDelta);
      if |ps| == 1 {
        NoneLead(ps, pace, rate);
        TooMany(ps, pace, rate, [r] + rest);
      } else {
        TailLeads(ps[1..], timeDelta, valueDelta, d[r.size..]);
        LeadsOn(ps, pace, rate, r, rest);
        SamePoint(last, ps[1], timeDelta, valueDelta);
        SameHeads(q, ReadTail2(q.time, q.value, timeDelta, valueDelta, d[r.size..]), ps[1..]);
        assert ps[1..][1..] == ps[1..][1..];
      }
    }
  }

  lemma PiecesTurn(d: seq<byte>)
    ensures Pieces(d) ==
      if d == [] || ReadPiece(d) == None then []
      else [ReadPiece(d).value] + Pieces(d[ReadPiece(d).value.size..])
  {
    hide ReadPiece;
  }

  lemma NoneLead(ps: seq<DataPoint>, pace: int64, rate: real)
    requires ps != []
    ensures Leads(ps, pace, rate, []) <==> ps[1..] == []
  {
    hide Wrap, FromMilli;
  }

  lemma TooMany(ps: seq<DataPoint>, pace: int64, rate: real, xs: seq<Fields>)
    requires |ps| == 1 && xs != []
    ensures !Leads(ps, pace, rate, xs)
  {
  }

  /** The point that a step leads to. */
  lemma SamePoint(last: DataPoint, p: DataPoint, timeDelta: int64, valueDelta: real)
    ensures DataPoint(Wrap(last.time + timeDelta), last.value + valueDelta) == p
      <==> timeDelta == Wrap(p.time - last.time) && valueDelta == p.value - last.value
  {
    hide Wrap;
    WrapDifference(last.time, timeDelta);
    WrapRestores(last.time, p.time);
  }

  lemma LeadsOn(ps: seq<DataPoint>, pace: int64, rate: real, r: Fields, rest: seq<Fields>)
    requires |ps| > 1
    ensures Leads(ps, pace, rate, [r] + rest) <==>
      && Wrap(pace + r.dt) == TimeStep(ps, 1) && rate + FromMilli(r.dv) == ValueStep(ps, 1)
      && Leads(ps[1..], TimeStep(ps, 1), ValueStep(ps, 1), rest)
  {
    hide Wrap, FromMilli, IsSecond, TimeStep, ValueStep;
    var xs := [r] + rest;
    if |rest| == |ps| - 2 {
      forall i | 1 <= i < |rest|
        ensures IsSecond(ps[1..], i, rest[i]) <==> IsSecond(ps, i + 1, xs[i + 1])
      {
        SecondShifts(ps, i, rest[i]);
      }
      if rest != [] {
        FirstSecond(ps, rest[0]);
        assert xs[1] == rest[0];
      }
      AllSeconds(ps, xs, rest);
    }
  }

  lemma SecondShifts(ps: seq<DataPoint>, i: nat, x: Fields)
    requires 1 <= i < |ps| - 2
    ensures IsSecond(ps[1..], i, x) <==> IsSecond(ps, i + 1, x)
  {
    hide Wrap, FromMilli;
    assert ps[1..][i - 1] == ps[i] && ps[1..][i] == ps[i + 1] && ps[1..][i + 1] == ps[i + 2];
  }

  lemma FirstSecond(ps: seq<DataPoint>, x: Fields)
    requires |ps| > 2
    ensures TimeStep(ps[1..], 1) == TimeStep(ps, 2) && ValueStep(ps[1..], 1) == ValueStep(ps, 2)
    ensures IsSecond(ps, 1, x) <==>
      && Wrap(TimeStep(ps, 1) + x.dt) == TimeStep(ps, 2)
      && ValueStep(ps, 1) + FromMilli(x.dv) == ValueStep(ps, 2)
  {
    hide Wrap, FromMilli;
    SameStep(TimeStep(ps, 1), x.dt, TimeStep(ps, 2));
  }

  lemma AllSeconds(ps: seq<DataPoint>, xs: seq<Fields>, rest: seq<Fields>)
    requires |ps| > 1 && |xs| == |ps| - 1 && |rest| == |xs| - 1
    requires forall i :: 1 <= i < |rest| ==> (IsSecond(ps[1..], i, rest[i]) <==> IsSecond(ps, i + 1, xs[i + 1]))
    ensures (forall i :: 1 <= i < |xs| ==> IsSecond(ps, i, xs[i])) <==>
      && (|xs| > 1 ==> IsSecond(ps, 1, xs[1]))
      && (forall i :: 1 <= i < |rest| ==> IsSecond(ps[1..], i, rest[i]))
  {
    hide IsSecond;
    if (|xs| > 1 ==> IsSecond(ps, 1, xs[1])) && (forall i :: 1 <= i < |rest| ==> IsSecond(ps[1..], i, rest[i])) {
      forall i | 1 <= i < |xs|
        ensures IsSecond(ps, i, xs[i])
      {
        if i > 1 {
          assert IsSecond(ps[1..], i - 1, rest[i - 1]);
        }
      }
    }
  }

  lemma SameStep(pace: int64, dt: int64, next: int64)
    ensures Wrap(pace + dt) == next <==> dt == Wrap(next - pace)
  {
    hide Wrap;
    WrapDifference(pace, dt);
    WrapRestores(pace, next);
  }

  /** Behind any header the round trip is the identity exactly when the bytes from the sixteenth on parse into
      one record for each point from the third on, the first of which makes up for what the differences were
      misread by, while the others carry the second differences. */
  lemma IdentityExact(f: FloatBits, ps: seq<DataPoint>, cap: nat)
    requires Storable(f, ps) && |EncodedDelta2(f, ps)| <= cap
    ensures var h := Header(ps) + Records(ps);
      DecodedDelta2(f, EncodedDelta2(f, ps), cap) == Points(ps) <==>
        && |h| >= 16
        && Leads(ps[1..], Decoded(h[..8]), FromMilli(Decoded(h[8..16])), Pieces(h[16..]))
  {
    hide Header, Records, Decoded, FromMilli, EncodedDelta2, DecodedDelta2, ReadTail2, Pieces, Leads;
    DecodesFrom(f, ps, cap);
    var h := Header(ps) + Records(ps);
    if |h| >= 16 {
      var pace, rate := Decoded(h[..8]), FromMilli(Decoded(h[8..16]));
      TailLeads(ps[1..], pace, rate, h[16..]);
      assert ps[1..][1..] == ps[2..];
      SameTails(ps[0], ps[1], ReadTail2(ps[1].time, ps[1].value, pace, rate, h[16..]), ps);
    }
  }

  // ----- steady series

  /** n readings of v, a fixed time apart, from time t on. */
  function Steady(t: int, gap: int, v: real, n: nat): (ps: seq<DataPoint>)
    ensures |ps| == n
    decreases n
  {
    if n == 0 then [] else [DataPoint(Wrap(t), v)] + Steady(t + gap, gap, v, n - 1)
  }

  lemma {:induction false} SteadyAt(t: int, gap: int, v: real, n: nat, k: nat)
    requires k <= n
    decreases n
    ensures Steady(t, gap, v, n)[k..] == Steady(t + k * gap, gap, v, n - k)
  {
    if k > 0 {
      SteadyAt(t + gap, gap, v, n - 1, k - 1);
      assert t + gap + (k - 1) * gap == t + k * gap;
      assert Steady(t, gap, v, n)[k..] == Steady(t, gap, v, n)[1..][k - 1..];
      assert Steady(t, gap, v, n)[1..] == Steady(t + gap, gap, v, n - 1);
    }
  }

  /** Records in which nothing changes. */
  function Still(n: nat): (b: seq<byte>)
    ensures |b| == 3 * n
  {
    if n == 0 then [] else [0x11, 0, 0] + Still(n - 1)
  }

  /** Bytes that hold n records of a series in which nothing changes: each repeats the pace and the value. */
  lemma {:induction false} SteadyRecords(t: int, gap: int64, v: real, n: nat)
    ensures InRange2(v, 0.0, Steady(t, gap, v, n))
    ensures Tail2(Wrap(t - gap), v, gap, 0.0, Steady(t, gap, v, n)) == Still(n)
    decreases n
  {
    hide Wrap, Piece, Milli, Tail2;
    if n == 0 {
      NothingEncoded(Wrap(t - gap), v, gap, 0.0);
    } else {
      SteadyRecords(t + gap, gap, v, n - 1);
      var ps := Steady(t, gap, v, n);
      assert ps[1..] == Steady(t + gap, gap, v, n - 1) && t + gap - gap == t;
      StepTimes(t, gap);
      MilliZero();
      assert v - v - 0.0 == 0.0;
      assert v - v == 0.0;
      Tail2Unfolds(Wrap(t - gap), v, gap, 0.0, ps);
    }
  }

  lemma StepTimes(t: int, gap: int64)
    ensures Wrap(Wrap(t) - Wrap(t - gap)) == gap && Wrap(Wrap(t - gap) + gap) == Wrap(t)
    ensures Wrap(gap - gap) == 0
  {
    WrapAdds(t - gap, gap);
    WrapDifference(Wrap(t - gap), gap);
  }

  lemma MilliZero()
    ensures Milli(0.0) == 0 && FromMilli(0) == 0.0
    ensures Piece(0, 0) == [0x11, 0, 0]
  {
  }

  /** A record of zeros, whole or down to a lone zero flag, repeats the pace and the value. */
  lemma StillStep(t: int, gap: int64, v: real, record: seq<byte>, d: seq<byte>)
    requires record == [0x11, 0, 0] || record == [0]
    ensures ReadTail2(Wrap(t - gap), v, gap, 0.0, record + d)
      == [DataPoint(Wrap(t), v)] + ReadTail2(Wrap(t), v, gap, 0.0, d)
  {
    hide Wrap, Decoded, ReadTail2;
    StillPiece(record, d);
    MilliZero();
    StepTimes(t, gap);
    WrapZero(gap);
    assert 0.0 + FromMilli(0) == 0.0 && v + 0.0 == v;
    ReadTail2GoesOn(Wrap(t - gap), v, gap, 0.0, record + d);
    assert (record + d)[|record|..] == d;
  }

  lemma WrapZero(x: int64)
    ensures Wrap(x + 0) == x
  {
  }

  lemma StillPiece(record: seq<byte>, d: seq<byte>)
    requires record == [0x11, 0, 0] || record == [0]
    ensures ReadPiece(record + d) == Some(Fields(0, 0, |record|))
  {
    hide Decoded;
    SmallVarints();
    VarintRoundTrip(0);
    var b := record + d;
    var t := b[0] / 16;
    assert b[1..1 + t] == if t == 0 then [] else [0];
    assert b[1 + t..1 + t + t] == if t == 0 then [] else [0];
  }

  lemma {:induction false} ReadsStill(t: int, gap: int64, v: real, n: nat)
    ensures ReadTail2(Wrap(t - gap), v, gap, 0.0, Still(n)) == Steady(t, gap, v, n)
    decreases n
  {
    hide Wrap, ReadTail2;
    if n == 0 {
      ReadTail2Stops(Wrap(t - gap), v, gap, 0.0, []);
    } else {
      StillStep(t, gap, v, [0x11, 0, 0], Still(n - 1));
      ReadsStill(t + gap, gap, v, n - 1);
      assert t + gap - gap == t;
    }
  }

  /** What a constant series encodes to: its gap, a zero rate, and still records. */
  lemma SteadyBytes(f: FloatBits, t: int64, gap: int64, v: real, n: nat)
    requires n > 2
    ensures Encodes2(Steady(t, gap, v, n))
    ensures Header(Steady(t, gap, v, n)) == Encoded(gap) + [0] && Records(Steady(t, gap, v, n)) == Still(n - 2)
  {
    hide Wrap, Milli, Tail2, InRange2;
    var ps := Steady(t, gap, v, n);
    SteadyAt(t, gap, v, n, 2);
    assert ps[1..] == Steady(t + gap, gap, v, n - 1) && ps[1] == DataPoint(Wrap(t + gap), v);
    StepTimes(t + gap, gap);
    assert t + gap - gap == t && t + 2 * gap - gap == t + gap;
    SteadyRecords(t + 2 * gap, gap, v, n - 2);
    MilliZero();
    SmallVarints();
    assert v - v == 0.0;
  }

  /** A constant series whose gap takes a five-byte varint, as one second does: its records are read from the
      second byte of the fourth on, and the last two readings of six or more are lost. Shorter series come
      back as their first two points, or stop the program. */
  lemma SteadySeriesFails(f: FloatBits, t: int64, gap: int64, v: real, n: nat, cap: nat)
    requires n > 2 && Keeps(f, v) && |Encoded(gap)| == 5
    ensures Encodes2(Steady(t, gap, v, n))
    ensures |EncodedDelta2(f, Steady(t, gap, v, n))| <= cap ==>
      DecodedDelta2(f, EncodedDelta2(f, Steady(t, gap, v, n)), cap) ==
        if n >= 6 then Points(Steady(t, gap, v, n - 2))
        else if cap < 48 then OutOfBounds
        else Points(Steady(t, gap, v, 2))
  {
    hide Wrap, Encoded, Decoded, ReadTail2, EncodedDelta2, DecodedDelta2, Header, Records, Encodes2, Steady, Still,
      FromMilli;
    var ps := Steady(t, gap, v, n);
    SteadyBytes(f, t, gap, v, n);
    FirstTwo(t, gap, v, n);
    if |EncodedDelta2(f, ps)| <= cap {
      DecodesFrom(f, ps, cap);
      if n >= 6 {
        SteadyMisread(t, gap, v, n - 2, Header(ps) + Records(ps));
        FirstTwo(t, gap, v, n - 2);
        SteadyAt(t, gap, v, n - 2, 2);
        var kept := Steady(t, gap, v, n - 2);
        assert kept == [kept[0], kept[1]] + kept[2..];
      }
    }
  }

  lemma FirstTwo(t: int64, gap: int64, v: real, n: nat)
    requires n >= 2
    ensures Steady(t, gap, v, n)[0] == DataPoint(t, v) && Steady(t, gap, v, n)[1] == DataPoint(Wrap(t + gap), v)
    ensures Steady(t, gap, v, 2) == [DataPoint(t, v), DataPoint(Wrap(t + gap), v)]
    ensures n > 2 ==> TimeVarint(Steady(t, gap, v, n)[0], Steady(t, gap, v, n)[1]) == Encoded(gap)
  {
    hide Encoded;
    SteadyAt(t, gap, v, n, 1);
    SteadyAt(t, gap, v, 2, 1);
    assert Steady(t, gap, v, n)[1] == Steady(t, gap, v, n)[1..][0];
    WrapDifference(t, gap);
  }

  /** m still records behind a header of six bytes, read from the tenth byte of the records on. */
  lemma SteadyMisread(t: int64, gap: int64, v: real, m: nat, h: seq<byte>)
    requires m >= 4 && |Encoded(gap)| == 5 && h == Encoded(gap) + [0] + Still(m)
    ensures |h| >= 16
    ensures ReadTail2(Wrap(t + gap), v, Decoded(h[..8]), FromMilli(Decoded(h[8..16])), h[16..])
      == Steady(t + 2 * gap, gap, v, m - 2)
  {
    hide Wrap, Encoded, Decoded, ReadTail2, Steady;
    SmallVarints();
    MilliZero();
    var four := [0x11, 0, 0] + [0x11, 0, 0] + [0x11, 0, 0] + [0x11, 0, 0];
    StillFour(m);
    assert h == Encoded(gap) + [0] + four + Still(m - 4);
    assert h[..8] == Encoded(gap) + [0, 0x11, 0];
    VarintReads(gap, [0, 0x11, 0]);
    assert h[8..16] == [0] + [0x11, 0, 0, 0x11, 0, 0, 0x11];
    VarintReads(0, [0x11, 0, 0, 0x11, 0, 0, 0x11]);
    assert h[16..] == [0] + ([0] + Still(m - 4));
    StillStep(t + 2 * gap, gap, v, [0], [0] + Still(m - 4));
    StillStep(t + 3 * gap, gap, v, [0], Still(m - 4));
    ReadsStill(t + 4 * gap, gap, v, m - 4);
    SteadyTwoMore(t + 2 * gap, gap, v, m - 4);
    assert t + 2 * gap - gap == t + gap && t + 3 * gap - gap == t + 2 * gap && t + 4 * gap - gap == t + 3 * gap;
    assert t + 2 * gap + gap == t + 3 * gap && t + 2 * gap + 2 * gap == t + 4 * gap;
  }

  lemma StillFour(m: nat)
    requires m >= 4
    ensures Still(m) == [0x11, 0, 0] + [0x11, 0, 0] + [0x11, 0, 0] + [0x11, 0, 0] + Still(m - 4)
  {
    assert Still(m - 2) == [0x11, 0, 0] + ([0x11, 0, 0] + Still(m - 4));
  }

  lemma SteadyTwoMore(t: int, gap: int64, v: real, n: nat)
    ensures Steady(t, gap, v, n + 2)
      == [DataPoint(Wrap(t), v)] + ([DataPoint(Wrap(t + gap), v)] + Steady(t + 2 * gap, gap, v, n))
  {
    hide Wrap;
    assert t + gap + gap == t + 2 * gap;
    assert Steady(t, gap, v, n + 2) == [DataPoint(Wrap(t), v)] + Steady(t + gap, gap, v, n + 1);
  }

  /** Twice eight bytes are enough but not needed for a single stream: here the header has eight and four,
      and the decoder lands on two zero bytes that pass for the two still records. */
  lemma EightAndFour(f: FloatBits, cap: nat)
    requires Keeps(f, 0.0) && Keeps(f, 10000.0)
    ensures var n := 0x4_0000_0000_0000;
      var ps := [DataPoint(0, 0.0), DataPoint(n, 10000.0), DataPoint(2 * n, 20000.0), DataPoint(3 * n, 30000.0)];
      && Storable(f, ps) && |TimeVarint(ps[0], ps[1])| == 8 && |ValueVarint(ps[0], ps[1])| == 4
      && (|EncodedDelta2(f, ps)| <= cap ==> DecodedDelta2(f, EncodedDelta2(f, ps), cap) == Points(ps))
  {
    hide Encoded, Decoded, ReadTail2, EncodedDelta2, DecodedDelta2, Milli, FromMilli, Tail2, Piece;
    var n: int64 := 0x4_0000_0000_0000;
    var p, q, r, o := DataPoint(0, 0.0), DataPoint(n, 10000.0), DataPoint(2 * n, 20000.0), DataPoint(3 * n, 30000.0);
    var ps := [p, q, r, o];
    assert ps[2..] == [r, o] && [r, o][1..] == [o] && [o][1..] == [];
    EightAndFourLengths();
    MilliZero();
    NothingEncoded(o.time, o.value, n, 10000.0);
    Tail2Unfolds(r.time, r.value, n, 10000.0, [o]);
    Tail2Unfolds(q.time, q.value, n, 10000.0, [r, o]);
    assert Records(ps) == [0x11, 0, 0] + [0x11, 0, 0];
    if |EncodedDelta2(f, ps)| <= cap {
      DecodesFrom(f, ps, cap);
      var h := Header(ps) + Records(ps);
      var a, b := Encoded(n), Encoded(10_000_000);
      assert h == a + b + [0x11, 0, 0, 0x11, 0, 0];
      assert h[..8] == a + [];
      VarintReads(n, []);
      assert h[8..16] == b + [0x11, 0, 0, 0x11];
      VarintReads(10_000_000, [0x11, 0, 0, 0x11]);
      assert h[16..] == [0] + ([0] + []);
      LoneZero(q.time, q.value, n, 10000.0, [0] + []);
      LoneZero(r.time, r.value, n, 10000.0, []);
      ReadTail2Stops(o.time, o.value, n, 10000.0, []);
    }
  }

  lemma LoneZero(lastTime: int64, lastValue: real, pace: int64, rate: real, d: seq<byte>)
    ensures var p := DataPoint(Wrap(lastTime + pace), lastValue + rate);
      ReadTail2(lastTime, lastValue, pace, rate, [0] + d) == [p] + ReadTail2(p.time, p.value, pace, rate, d)
  {
    hide Wrap, Decoded, ReadTail2;
    StillPiece([0], d);
    MilliZero();
    WrapZero(pace);
    ReadTail2GoesOn(lastTime, lastValue, pace, rate, [0] + d);
    assert ([0] + d)[1..] == d;
  }

  lemma EightAndFourLengths()
    ensures |Encoded(0x4_0000_0000_0000)| == 8
    ensures Milli(10000.0) == 10_000_000 && FromMilli(10_000_000) == 10000.0 && |Encoded(10_000_000)| == 4
  {
    hide Groups;
    Pow128Values();
    assert Pow128(3) == 0x80 * 0x80 * 0x80 * Pow128(0);
    assert Pow128(4) == 0x80 * Pow128(3);
    GroupsLength(0x4_0000_0000_0000, 7);
    GroupsLength(0x4_0000_0000_0000, 8);
    GroupsLength(10_000_000, 3);
    GroupsLength(10_000_000, 4);
  }
}
