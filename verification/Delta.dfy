/** The delta codec: the first point in full, then a varint pair per point for the differences. Values are
    exact reals; times wrap like int64. */
module Delta {
  import opened Bytes
  import opened Varint

  datatype DataPoint = DataPoint(time: int64, value: real)

  /** The 64-bit pattern of a float and back. */
  datatype FloatBits = FloatBits(toBits: real -> u64, fromBits: u64 -> real)

  /** f keeps v, as it does every float64 that is not NaN. */
  predicate Keeps(f: FloatBits, v: real) { f.fromBits(f.toBits(v)) == v }

  // ----- thousandths

  /** The conversion int64(r) for r in range: truncation toward zero. */
  function Trunc(r: real): (n: int)
    ensures r >= 0.0 ==> 0 <= n && n as real <= r < n as real + 1.0
    ensures r <= 0.0 ==> n <= 0 && n as real - 1.0 < r <= n as real
  {
    if r >= 0.0 then r.Floor else -((-r).Floor)
  }

  /** The stored form of a difference of values. */
  function Milli(d: real): int { Trunc(d * 1000.0) }

  function FromMilli(n: int): real { n as real / 1000.0 }

  /** d is a whole number of thousandths. */
  predicate Whole(d: real) { FromMilli(Milli(d)) == d }

  predicate Fits(n: int) { -TWO_63 <= n < TWO_63 }

  function Abs(r: real): real { if r < 0.0 then -r else r }

  /** Storing a difference loses less than a thousandth. */
  lemma MilliError(d: real)
    ensures Abs(FromMilli(Milli(d)) - d) < 0.001
  {
    var x := d * 1000.0;
    var n := Trunc(x);
    assert -1.0 < n as real - x < 1.0;
    assert FromMilli(n) - d == (n as real - x) / 1000.0;
  }

  // ----- one record

  /** A flag byte with both lengths, then the two varints. */
  function Piece(dt: int64, dv: int64): (b: seq<byte>)
  {
    VarintLength(dt);
    VarintLength(dv);
    [16 * |Encoded(dt)| + |Encoded(dv)|] + Encoded(dt) + Encoded(dv)
  }

  datatype Fields = Fields(dt: int64, dv: int64, size: nat)

  /** The record at the front of d, unless it is cut short. */
  function ReadPiece(d: seq<byte>): (r: Option<Fields>)
    requires d != []
    ensures r.Some? ==> 0 < r.value.size <= |d|
  {
    var timeLen, valueLen := d[0] / 16, d[0] % 16;
    if 1 + timeLen + valueLen > |d| then None
    else Some(Fields(Decoded(d[1..1 + timeLen]), Decoded(d[1 + timeLen..1 + timeLen + valueLen]),
      1 + timeLen + valueLen))
  }

  lemma ReadsPiece(dt: int64, dv: int64, rest: seq<byte>)
    ensures ReadPiece(Piece(dt, dv) + rest) == Some(Fields(dt, dv, |Piece(dt, dv)|))
  {
    hide Encoded, Decoded;
    VarintLength(dt);
    VarintLength(dv);
    VarintRoundTrip(dt);
    VarintRoundTrip(dv);
    var d := Piece(dt, dv) + rest;
    var t, v := |Encoded(dt)|, |Encoded(dv)|;
    assert d[0] / 16 == t && d[0] % 16 == v;
    assert d[1..1 + t] == Encoded(dt);
    assert d[1 + t..1 + t + v] == Encoded(dv);
  }

  /** A record's layout: the lengths of the two varints in the high and the low half of a byte, then the time's
      varint, then the value's. */
  lemma PieceLayout(dt: int64, dv: int64)
    ensures var b := Piece(dt, dv); var t := |Encoded(dt)|;
      && |b| == 1 + t + |Encoded(dv)| && b[0] == 16 * t + |Encoded(dv)|
      && b[1..1 + t] == Encoded(dt) && b[1 + t..] == Encoded(dv)
  {
    hide Encoded;
  }

  /** A record whose first byte announces the lengths of the fields a and b. */
  function Announced(a: seq<byte>, b: seq<byte>): (d: seq<byte>)
    requires |a| < 16 && |b| < 16
    ensures |d| == 1 + |a| + |b|
  {
    [16 * |a| + |b|] + a + b
  }

  /** Any such record, whatever bytes its fields hold, is read as the numbers that they denote; one that is cut
      short is not read. */
  lemma ReadsAnyPiece(a: seq<byte>, b: seq<byte>, rest: seq<byte>, n: nat)
    requires |a| < 16 && |b| < 16
    ensures ReadPiece(Announced(a, b) + rest) == Some(Fields(Decoded(a), Decoded(b), |Announced(a, b)|))
    ensures 0 < n < |Announced(a, b)| ==> ReadPiece(Announced(a, b)[..n]) == None
  {
    hide Decoded;
    var d := Announced(a, b) + rest;
    assert d[0] / 16 == |a| && d[0] % 16 == |b|;
    assert d[1..1 + |a|] == a && d[1 + |a|..1 + |a| + |b|] == b;
    if 0 < n < |Announced(a, b)| {
      assert Announced(a, b)[..n][0] == d[0];
    }
  }

  lemma SamePiece(d: seq<byte>, n: nat)
    requires 0 < n <= |d| && ReadPiece(d[..n]).Some?
    ensures ReadPiece(d) == ReadPiece(d[..n]) && ReadPiece(d).Some?
  {
    hide Decoded;
    var t, v := d[0] / 16, d[0] % 16;
    assert d[..n][1..1 + t] == d[1..1 + t];
    assert d[..n][1 + t..1 + t + v] == d[1 + t..1 + t + v];
  }

  // ----- the encoded form

  function Base(f: FloatBits, p: DataPoint): (b: seq<byte>)
    ensures |b| == 16
  {
    Put(Little, U64(p.time), 8) + Put(Little, f.toBits(p.value), 8)
  }

  function ReadBase(f: FloatBits, d: seq<byte>): DataPoint
    requires |d| >= 16
  {
    DataPoint(I64(Get64(Little, d[..8])), f.fromBits(Get64(Little, d[8..16])))
  }

  lemma ReadsBase(f: FloatBits, p: DataPoint, rest: seq<byte>)
    requires Keeps(f, p.value)
    ensures ReadBase(f, Base(f, p) + rest) == p && (Base(f, p) + rest)[16..] == rest
  {
    hide Put, Get, Get64;
    var d := Base(f, p) + rest;
    assert d[..8] == Put(Little, U64(p.time), 8);
    assert d[8..16] == Put(Little, f.toBits(p.value), 8);
    Reads64(Little, U64(p.time));
    Reads64(Little, f.toBits(p.value));
  }

  /** A full point's layout: eight bytes of time, then the eight bytes of the value's pattern. */
  lemma BaseLayout(f: FloatBits, p: DataPoint, rest: seq<byte>)
    ensures Base(f, p)[..8] == Put(Little, U64(p.time), 8) && Base(f, p)[8..] == Put(Little, f.toBits(p.value), 8)
    ensures ReadBase(f, Base(f, p) + rest).time == p.time
    ensures ReadBase(f, Base(f, p) + rest).value == f.fromBits(f.toBits(p.value))
  {
    hide Put, Get, Get64;
    var d := Base(f, p) + rest;
    assert d[..8] == Put(Little, U64(p.time), 8) && d[8..16] == Put(Little, f.toBits(p.value), 8);
    Reads64(Little, U64(p.time));
    Reads64(Little, f.toBits(p.value));
  }

  /** Every stored value difference fits an int64. */
  predicate InRange(last: real, ps: seq<DataPoint>)
    decreases |ps|
  {
    ps != [] ==> Fits(Milli(ps[0].value - last)) && InRange(ps[0].value, ps[1..])
  }

  function Tail(lastTime: int64, lastValue: real, ps: seq<DataPoint>): seq<byte>
    requires InRange(lastValue, ps)
    decreases |ps|
  {
    if ps == [] then []
    else Piece(Wrap(ps[0].time - lastTime), Milli(ps[0].value - lastValue)) + Tail(ps[0].time, ps[0].value, ps[1..])
  }

  /** Differences that the encoder can store. */
  predicate Encodes(ps: seq<DataPoint>) {
    ps != [] ==> InRange(ps[0].value, ps[1..])
  }

  function EncodedDelta(f: FloatBits, ps: seq<DataPoint>): seq<byte>
    requires Encodes(ps)
  {
    if ps == [] then [] else Base(f, ps[0]) + Tail(ps[0].time, ps[0].value, ps[1..])
  }

  function ReadTail(lastTime: int64, lastValue: real, d: seq<byte>): seq<DataPoint>
    decreases |d|
  {
    if d == [] then []
    else
      var r := ReadPiece(d);
      if r == None then []
      else
        var p := DataPoint(Wrap(lastTime + r.value.dt), lastValue + FromMilli(r.value.dv));
        [p] + ReadTail(p.time, p.value, d[r.value.size..])
  }

  function DecodedDelta(f: FloatBits, d: seq<byte>): seq<DataPoint> {
    if |d| < 16 then []
    else
      var p := ReadBase(f, d);
      [p] + ReadTail(p.time, p.value, d[16..])
  }

  /** What the decoder makes of any bytes: from every record, whatever its fields hold, the next point, and an
      end where a record is cut short. */
  lemma DecodesAny(last: DataPoint, a: seq<byte>, b: seq<byte>, rest: seq<byte>, n: nat)
    requires |a| < 16 && |b| < 16
    ensures var p := DataPoint(Wrap(last.time + Decoded(a)), last.value + Decoded(b) as real / 1000.0);
      ReadTail(last.time, last.value, Announced(a, b) + rest) == [p] + ReadTail(p.time, p.value, rest)
    ensures n < |Announced(a, b)| ==> ReadTail(last.time, last.value, Announced(a, b)[..n]) == []
  {
    hide ReadPiece, Decoded, Wrap, ReadTail, Announced;
    ReadsAnyPiece(a, b, rest, n);
    var r := Announced(a, b) + rest;
    assert r[|Announced(a, b)|..] == rest;
    ReadTailGoesOn(last.time, last.value, r);
    if n < |Announced(a, b)| {
      assert n == 0 ==> Announced(a, b)[..n] == [];
      ReadTailStops(last.time, last.value, Announced(a, b)[..n]);
    }
  }

  /** Nothing without a full point, and otherwise that point first. */
  lemma DecodesBase(f: FloatBits, d: seq<byte>)
    ensures |d| < 16 ==> DecodedDelta(f, d) == []
    ensures |d| >= 16 ==>
      var p := ReadBase(f, d); DecodedDelta(f, d) == [p] + ReadTail(p.time, p.value, d[16..])
  {
    hide ReadBase, ReadTail;
  }

  // ----- the round trip

  /** Decoding one encoded record and what follows it. */
  lemma TailStep(lastTime: int64, got: real, lastValue: real, ps: seq<DataPoint>)
    requires ps != [] && InRange(lastValue, ps)
    ensures var v := got + FromMilli(Milli(ps[0].value - lastValue));
      ReadTail(lastTime, got, Tail(lastTime, lastValue, ps))
      == [DataPoint(ps[0].time, v)] + ReadTail(ps[0].time, v, Tail(ps[0].time, ps[0].value, ps[1..]))
  {
    hide ReadPiece, Piece, Milli;
    var dt := Wrap(ps[0].time - lastTime);
    var dv := Milli(ps[0].value - lastValue);
    var rest := Tail(ps[0].time, ps[0].value, ps[1..]);
    ReadsPiece(dt, dv, rest);
    WrapRestores(lastTime, ps[0].time);
    assert (Piece(dt, dv) + rest)[|Piece(dt, dv)|..] == rest;
    PieceNonEmpty(dt, dv);
  }

  lemma PieceNonEmpty(dt: int64, dv: int64)
    ensures Piece(dt, dv) != []
  {
  }

  /** qs has the times of ps, and its values differ by e up to one more thousandth per point. */
  predicate Near(qs: seq<DataPoint>, ps: seq<DataPoint>, e: real) {
    && |qs| == |ps|
    && (forall i :: 0 <= i < |ps| ==> qs[i].time == ps[i].time)
    && (forall i :: 0 <= i < |ps| ==> Abs(qs[i].value - ps[i].value - e) < (i + 1) as real / 1000.0)
  }

  lemma NearCons(q: DataPoint, p: DataPoint, qs: seq<DataPoint>, ps: seq<DataPoint>, e: real)
    requires Near(qs, ps, q.value - p.value) && q.time == p.time && Abs(q.value - p.value - e) < 0.001
    ensures Near([q] + qs, [p] + ps, e)
  {
    hide Abs;
    var qs', ps' := [q] + qs, [p] + ps;
    forall i | 0 < i < |ps'|
      ensures Abs(qs'[i].value - ps'[i].value - e) < (i + 1) as real / 1000.0
    {
      ErrorAdds(qs[i - 1].value - ps[i - 1].value, q.value - p.value, e, i);
    }
  }

  lemma EmptyTail(lastTime: int64, got: real, last: real)
    ensures ReadTail(lastTime, got, Tail(lastTime, last, [])) == []
  {
  }

  lemma NothingNear(e: real)
    ensures Near([], [], e)
  {
  }

  lemma RangeStep(last: real, ps: seq<DataPoint>)
    requires ps != [] && InRange(last, ps)
    ensures Fits(Milli(ps[0].value - last)) && InRange(ps[0].value, ps[1..])
  {
  }

  /** Times come back exactly; each value is off by less than one more thousandth than the one before. */
  lemma {:induction false} TailRoundTrip(lastTime: int64, got: real, lastValue: real, ps: seq<DataPoint>)
    requires InRange(lastValue, ps)
    ensures Near(ReadTail(lastTime, got, Tail(lastTime, lastValue, ps)), ps, got - lastValue)
    decreases |ps|
  {
    hide Tail, ReadTail, Near, FromMilli, Milli, InRange, Abs;
    if ps == [] {
      EmptyTail(lastTime, got, lastValue);
      NothingNear(got - lastValue);
    } else {
      RangeStep(lastValue, ps);
      var d := ps[0].value - lastValue;
      var v := got + FromMilli(Milli(d));
      MilliError(d);
      assert v - ps[0].value - (got - lastValue) == FromMilli(Milli(d)) - d;
      TailStep(lastTime, got, lastValue, ps);
      TailRoundTrip(ps[0].time, v, ps[0].value, ps[1..]);
      var rest := ReadTail(ps[0].time, v, Tail(ps[0].time, ps[0].value, ps[1..]));
      NearCons(DataPoint(ps[0].time, v), ps[0], rest, ps[1..], got - lastValue);
      assert ps == [ps[0]] + ps[1..];
    }
  }

  lemma ErrorAdds(e: real, step: real, start: real, i: nat)
    requires Abs(e - step) < i as real / 1000.0 && Abs(step - start) < 0.001
    ensures Abs(e - start) < (i + 1) as real / 1000.0
  {
  }

  /** Decoding an encoded batch keeps its length and every time, wrapping included, and value i is off by
      less than i thousandths; the first value is exact. */
  lemma DeltaRoundTrip(f: FloatBits, ps: seq<DataPoint>)
    requires Encodes(ps) && (ps != [] ==> Keeps(f, ps[0].value))
    ensures var qs := DecodedDelta(f, EncodedDelta(f, ps));
      && |qs| == |ps|
      && (forall i :: 0 <= i < |ps| ==> qs[i].time == ps[i].time)
      && (ps != [] ==> qs[0] == ps[0])
      && (forall i :: 1 <= i < |ps| ==> Abs(qs[i].value - ps[i].value) < i as real / 1000.0)
  {
    hide Tail, ReadTail, ReadBase, Base, Abs;
    if ps != [] {
      var p := ps[0];
      ReadsBase(f, p, Tail(p.time, p.value, ps[1..]));
      TailRoundTrip(p.time, p.value, p.value, ps[1..]);
      assert forall i :: 1 <= i < |ps| ==> ps[i] == ps[1..][i - 1];
    }
  }

  predicate AllWhole(last: real, ps: seq<DataPoint>)
    decreases |ps|
  {
    ps != [] ==> Whole(ps[0].value - last) && AllWhole(ps[0].value, ps[1..])
  }

  lemma {:induction false} TailExact(lastTime: int64, lastValue: real, ps: seq<DataPoint>)
    requires InRange(lastValue, ps)
    ensures ReadTail(lastTime, lastValue, Tail(lastTime, lastValue, ps)) == ps <==> AllWhole(lastValue, ps)
    decreases |ps|
  {
    hide Tail, ReadTail, FromMilli, Milli, InRange;
    if ps == [] {
      EmptyTail(lastTime, lastValue, lastValue);
    } else {
      RangeStep(lastValue, ps);
      TailStep(lastTime, lastValue, lastValue, ps);
      var d := ps[0].value - lastValue;
      var v := lastValue + FromMilli(Milli(d));
      TailExact(ps[0].time, ps[0].value, ps[1..]);
      SameHeads(DataPoint(ps[0].time, v), ReadTail(ps[0].time, v, Tail(ps[0].time, ps[0].value, ps[1..])), ps);
    }
  }

  lemma SameHeads<T>(x: T, xs: seq<T>, ys: seq<T>)
    requires ys != []
    ensures [x] + xs == ys <==> x == ys[0] && xs == ys[1..]
  {
    assert ([x] + xs)[1..] == xs;
    assert ys == [ys[0]] + ys[1..];
  }

  /** The round trip is the identity exactly when every consecutive difference of values is a whole number
      of thousandths. */
  lemma DeltaExact(f: FloatBits, ps: seq<DataPoint>)
    requires Encodes(ps) && (ps != [] ==> Keeps(f, ps[0].value))
    ensures DecodedDelta(f, EncodedDelta(f, ps)) == ps <==> ps == [] || AllWhole(ps[0].value, ps[1..])
  {
    hide Tail, ReadTail, ReadBase, Base, AllWhole;
    if ps != [] {
      var p := ps[0];
      ReadsBase(f, p, Tail(p.time, p.value, ps[1..]));
      TailExact(p.time, p.value, ps[1..]);
      var rest := ReadTail(p.time, p.value, Tail(p.time, p.value, ps[1..]));
      assert ps == [p] + ps[1..];
      assert ([p] + rest)[1..] == rest;
    }
  }

  // ----- the drift bound is of the right order

  /** n points from the k-th on, each 0.0009 above the one before. */
  function Ramp(k: nat, n: nat): (ps: seq<DataPoint>)
    ensures |ps| == n
    decreases n
  {
    if n == 0 then [] else [DataPoint(0, k as real * 0.0009)] + Ramp(k + 1, n - 1)
  }

  lemma {:induction false} RampInRange(k: nat, n: nat)
    ensures InRange(k as real * 0.0009, Ramp(k + 1, n))
    decreases n
  {
    if n > 0 {
      RampStep(k);
      RampInRange(k + 1, n - 1);
    }
  }

  lemma RampStep(k: nat)
    ensures Milli((k + 1) as real * 0.0009 - k as real * 0.0009) == 0
  {
    assert ((k + 1) as real * 0.0009 - k as real * 0.0009) == 0.0009;
    assert (0.9).Floor == 0;
  }

  /** Decoded, the ramp is flat. */
  lemma {:induction false} RampFlattens(k: nat, n: nat, i: nat)
    requires i < n
    ensures InRange(k as real * 0.0009, Ramp(k + 1, n))
    ensures var qs := ReadTail(0, 0.0, Tail(0, k as real * 0.0009, Ramp(k + 1, n)));
      |qs| == n && qs[i].value == 0.0
    decreases n
  {
    hide Milli, ReadTail, Tail;
    var ps := Ramp(k + 1, n);
    RampInRange(k, n);
    RampStep(k);
    TailStep(0, 0.0, k as real * 0.0009, ps);
    assert ps[1..] == Ramp(k + 2, n - 1);
    if n == 1 {
      EmptyTail(0, 0.0, (k + 1) as real * 0.0009);
    } else {
      RampFlattens(k + 1, n - 1, if i == 0 then 0 else i - 1);
    }
  }

  /** A family of inputs whose error grows by nine tenths of a thousandth per point. */
  lemma DriftGrows(f: FloatBits, n: nat, i: nat)
    requires 0 < i < n && Keeps(f, 0.0)
    ensures Encodes(Ramp(0, n))
    ensures var qs := DecodedDelta(f, EncodedDelta(f, Ramp(0, n)));
      |qs| == n && Ramp(0, n)[i].value - qs[i].value == i as real * 0.0009
  {
    hide Tail, ReadTail, ReadBase, Base;
    var ps := Ramp(0, n);
    RampInRange(0, n - 1);
    assert ps[1..] == Ramp(1, n - 1);
    ReadsBase(f, ps[0], Tail(0, 0.0, ps[1..]));
    RampFlattens(0, n - 1, i - 1);
    RampAt(0, n, i);
  }

  lemma {:induction false} RampAt(k: nat, n: nat, i: nat)
    requires i < n
    ensures Ramp(k, n)[i] == DataPoint(0, (k + i) as real * 0.0009)
    decreases n
  {
    if i > 0 {
      RampAt(k + 1, n - 1, i - 1);
    }
  }

  // ----- bytes cut short

  lemma {:induction false} TailPrefix(lastTime: int64, lastValue: real, d: seq<byte>, n: nat)
    requires n <= |d|
    ensures ReadTail(lastTime, lastValue, d[..n]) <= ReadTail(lastTime, lastValue, d)
    decreases |d|
  {
    hide ReadPiece, ReadTail, FromMilli;
    var t := d[..n];
    if n == 0 || ReadPiece(t) == None {
      ReadTailStops(lastTime, lastValue, t);
    } else {
      SamePiece(d, n);
      var r := ReadPiece(d).value;
      ReadPieceFits(d, n);
      assert t[r.size..] == d[r.size..][..n - r.size];
      ReadTailGoesOn(lastTime, lastValue, t);
      ReadTailGoesOn(lastTime, lastValue, d);
      TailPrefix(Wrap(lastTime + r.dt), lastValue + FromMilli(r.dv), d[r.size..], n - r.size);
    }
  }

  lemma ReadTailStops(lastTime: int64, lastValue: real, d: seq<byte>)
    requires d == [] || ReadPiece(d) == None
    ensures ReadTail(lastTime, lastValue, d) == []
  {
  }

  lemma ReadTailGoesOn(lastTime: int64, lastValue: real, d: seq<byte>)
    requires d != [] && ReadPiece(d).Some?
    ensures var r := ReadPiece(d).value; var time, value := Wrap(lastTime + r.dt), lastValue + FromMilli(r.dv);
      ReadTail(lastTime, lastValue, d) == [DataPoint(time, value)] + ReadTail(time, value, d[r.size..])
  {
    hide ReadPiece, FromMilli;
  }

  lemma ReadPieceFits(d: seq<byte>, n: nat)
    requires 0 < n <= |d| && ReadPiece(d[..n]).Some?
    ensures 0 < ReadPiece(d[..n]).value.size <= n
  {
  }

  /** Of any bytes cut anywhere behind the first point, the decoder gives back a prefix of what it gives
      for all of them. */
  lemma DeltaPrefix(f: FloatBits, d: seq<byte>, n: nat)
    requires 16 <= n <= |d|
    ensures DecodedDelta(f, d[..n]) <= DecodedDelta(f, d)
  {
    hide ReadTail, Get64;
    assert d[..n][..8] == d[..8] && d[..n][8..16] == d[8..16];
    assert d[..n][16..] == d[16..][..n - 16];
    var p := ReadBase(f, d);
    TailPrefix(p.time, p.value, d[16..], n - 16);
  }

  // ----- the loops

  /** The flag byte and the two varints of one record. */
  method EncodePiece(dt: int64, dv: int64) returns (buf: seq<byte>)
    ensures buf == Piece(dt, dv)
  {
    hide Encoded;
    var time := EncodeVarint(dt);
    var value := EncodeVarint(dv);
    VarintLength(dt);
    VarintLength(dv);
    var flags := 16 * |time| + |value|;
    buf := [flags] + time + value;
  }

  method EncodeBase(f: FloatBits, p: DataPoint) returns (buf: array<byte>)
    ensures buf[..] == Base(f, p) && fresh(buf)
  {
    hide Put;
    buf := new byte[16];
    PutAt(buf, 0, Little, U64(p.time), 8);
    PutAt(buf, 8, Little, f.toBits(p.value), 8);
    assert buf[..] == buf[..16];
  }

  /** encodeDelta. */
  method EncodeDelta(f: FloatBits, points: seq<DataPoint>) returns (buf: seq<byte>)
    requires Encodes(points)
    ensures buf == EncodedDelta(f, points)
    ensures points == [] ==> buf == []
  {
    hide Tail, InRange, Base, Piece, Milli;
    if |points| == 0 {
      return [];
    }
    var base := EncodeBase(f, points[0]);
    buf := base[..];
    var lastTime, lastValue := points[0].time, points[0].value;
    for i := 1 to |points|
      invariant lastTime == points[i - 1].time && lastValue == points[i - 1].value
      invariant InRange(lastValue, points[i..])
      invariant buf + Tail(lastTime, lastValue, points[i..]) == EncodedDelta(f, points)
    {
      TailUnfolds(lastTime, lastValue, points, i);
      var timeDelta := Wrap(points[i].time - lastTime);
      var valueDelta := points[i].value - lastValue;
      var piece := EncodePiece(timeDelta, Milli(valueDelta));
      buf := buf + piece;
      lastTime, lastValue := points[i].time, points[i].value;
    }
    TailEnds(lastTime, lastValue);
    assert points[|points|..] == [];
  }

  lemma TailUnfolds(lastTime: int64, lastValue: real, ps: seq<DataPoint>, i: nat)
    requires i < |ps| && InRange(lastValue, ps[i..])
    ensures Fits(Milli(ps[i].value - lastValue)) && InRange(ps[i].value, ps[i + 1..])
    ensures Tail(lastTime, lastValue, ps[i..])
      == Piece(Wrap(ps[i].time - lastTime), Milli(ps[i].value - lastValue)) + Tail(ps[i].time, ps[i].value, ps[i + 1..])
  {
    hide Piece, Milli;
    assert ps[i..][1..] == ps[i + 1..];
  }

  lemma TailEnds(lastTime: int64, lastValue: real)
    ensures InRange(lastValue, []) && Tail(lastTime, lastValue, []) == []
  {
  }

  /** decodeDelta. */
  method DecodeDelta(f: FloatBits, data: seq<byte>) returns (points: seq<DataPoint>)
    ensures points == DecodedDelta(f, data)
  {
    hide ReadTail, Get64, Decoded, FromMilli;
    if |data| < 16 {
      return [];
    }
    var first := DataPoint(I64(Get64(Little, data[..8])), f.fromBits(Get64(Little, data[8..16])));
    points := [first];
    var offset := 16;
    var lastTime, lastValue := first.time, first.value;
    while offset < |data|
      invariant 16 <= offset <= |data|
      invariant points + ReadTail(lastTime, lastValue, data[offset..]) == DecodedDelta(f, data)
      decreases |data| - offset
    {
      ReadTailUnfolds(lastTime, lastValue, data, offset);
      var timeLen, valueLen := data[offset] / 16, data[offset] % 16;
      offset := offset + 1;
      if offset + timeLen + valueLen > |data| {
        return;
      }
      var timeDelta := DecodeVarint(data[offset..offset + timeLen]);
      var stored := DecodeVarint(data[offset + timeLen..offset + timeLen + valueLen]);
      var point := DataPoint(Wrap(lastTime as int + timeDelta as int), lastValue + FromMilli(stored));
      points := points + [point];
      lastTime, lastValue := point.time, point.value;
      offset := offset + timeLen + valueLen;
    }
    ReadTailEnds(lastTime, lastValue);
    assert data[offset..] == [];
  }

  lemma ReadTailUnfolds(lastTime: int64, lastValue: real, data: seq<byte>, at: nat)
    requires at < |data|
    ensures var t: nat, v: nat := data[at] / 16, data[at] % 16; var off := at + 1;
      if off + t + v > |data| then ReadTail(lastTime, lastValue, data[at..]) == []
      else
        var p := DataPoint(Wrap(lastTime + Decoded(data[off..off + t])),
          lastValue + FromMilli(Decoded(data[off + t..off + t + v])));
        ReadTail(lastTime, lastValue, data[at..]) == [p] + ReadTail(p.time, p.value, data[off + t + v..])
  {
    hide Decoded, FromMilli, ReadPiece;
    PieceAt(data, at);
    var d := data[at..];
    var t: nat, v: nat := data[at] / 16, data[at] % 16;
    if at + 1 + t + v <= |data| {
      assert d[1 + t + v..] == data[at + 1 + t + v..];
    }
  }

  lemma PieceAt(data: seq<byte>, at: nat)
    requires at < |data|
    ensures var t: nat, v: nat := data[at] / 16, data[at] % 16; var off := at + 1;
      ReadPiece(data[at..]) ==
        if off + t + v > |data| then None
        else Some(Fields(Decoded(data[off..off + t]), Decoded(data[off + t..off + t + v]), 1 + t + v))
  {
    hide Decoded;
    var d := data[at..];
    var t: nat, v: nat := data[at] / 16, data[at] % 16;
    var off := at + 1;
    if off + t + v <= |data| {
      assert d[1..1 + t] == data[off..off + t];
      assert d[1 + t..1 + t + v] == data[off + t..off + t + v];
    }
  }

  lemma ReadTailEnds(lastTime: int64, lastValue: real)
    ensures ReadTail(lastTime, lastValue, []) == []
  {
  }
}
