/** Variable-width data points: one record, a stream of records, and the loop that parses a stream. */
module Points {
  import opened Bytes

  /** A timestamp and a row of float32 values, each kept as its bit pattern. */
  datatype Point = Point(ts: int64, values: seq<u32>)

  /** A point whose field count fits the record's two-byte counter. */
  predicate Encodable(p: Point) { |p.values| < 0x1_0000 }

  predicate AllEncodable(ps: seq<Point>) { forall i :: 0 <= i < |ps| ==> Encodable(ps[i]) }

  predicate InWindow(p: Point, s: int64, e: int64) { s <= p.ts <= e }

  /** The simple meaning of a query: the points of ps inside [s, e], in order. */
  function Within(ps: seq<Point>, s: int64, e: int64): (r: seq<Point>)
    ensures forall i :: 0 <= i < |r| ==> InWindow(r[i], s, e)
    ensures |r| <= |ps|
  {
    if ps == [] then []
    else (if InWindow(ps[0], s, e) then [ps[0]] else []) + Within(ps[1..], s, e)
  }

  // ----- one record

  function ValuesBytes(o: Order, vs: seq<u32>): (b: seq<byte>)
    ensures |b| == 4 * |vs|
  {
    if vs == [] then [] else Put(o, vs[0], 4) + ValuesBytes(o, vs[1..])
  }

  /** The record of p; the counter keeps the low 16 bits of the field count. */
  function Record(o: Order, p: Point): (b: seq<byte>)
    ensures |b| == 10 + 4 * |p.values|
  {
    Put(o, U64(p.ts), 8) + Put(o, |p.values| % 0x1_0000, 2) + ValuesBytes(o, p.values)
  }

  function ReadValues(o: Order, b: seq<byte>, n: nat): (vs: seq<u32>)
    requires 4 * n <= |b|
    ensures |vs| == n
    ensures ValuesBytes(o, vs) == b[..4 * n]
  {
    if n == 0 then []
    else
      var vs := [Get32(o, b[..4])] + ReadValues(o, b[4..], n - 1);
      assert b[..4 * n] == b[..4] + b[4..][..4 * (n - 1)];
      vs
  }

  /** The length of the record that d starts with, taken from its header. */
  function HeadLength(o: Order, d: seq<byte>): (n: nat)
    requires |d| >= 10
    ensures n >= 10
  {
    10 + 4 * Get16(o, d[8..10])
  }

  /** d starts with a whole record. */
  predicate HasRecord(o: Order, d: seq<byte>) {
    |d| >= 10 && HeadLength(o, d) <= |d|
  }

  function Head(o: Order, d: seq<byte>): (p: Point)
    requires HasRecord(o, d)
    ensures Encodable(p)
  {
    Point(I64(Get64(o, d[..8])), ReadValues(o, d[10..], Get16(o, d[8..10])))
  }

  /** The bytes that the head record was read from are the head record's encoding. */
  lemma HeadRecord(o: Order, d: seq<byte>)
    requires HasRecord(o, d)
    ensures Record(o, Head(o, d)) == d[..HeadLength(o, d)]
  {
    hide Put, Get, ValuesBytes, ReadValues;
    var n: nat := Get16(o, d[8..10]);
    assert d[..10 + 4 * n] == d[..8] + d[8..10] + d[10..][..4 * n];
  }

  lemma {:induction false} ReadsValues(o: Order, vs: seq<u32>, rest: seq<byte>)
    ensures ReadValues(o, ValuesBytes(o, vs) + rest, |vs|) == vs
  {
    hide Put, Get, Get32;
    if vs != [] {
      var b := ValuesBytes(o, vs) + rest;
      assert b[..4] == Put(o, vs[0], 4);
      assert b[4..] == ValuesBytes(o, vs[1..]) + rest;
      Reads32(o, vs[0]);
      ReadsValues(o, vs[1..], rest);
    }
  }

  lemma RecordFields(o: Order, p: Point, rest: seq<byte>)
    requires Encodable(p)
    ensures var d := Record(o, p) + rest;
      d[..8] == Put(o, U64(p.ts), 8) && d[8..10] == Put(o, |p.values|, 2) && d[10..] == ValuesBytes(o, p.values) + rest
  {
    hide Put, ValuesBytes;
  }

  /** A record followed by anything reads back as its point. */
  lemma ReadsRecord(o: Order, p: Point, rest: seq<byte>)
    requires Encodable(p)
    ensures var d := Record(o, p) + rest;
      HasRecord(o, d) && HeadLength(o, d) == |Record(o, p)| && Head(o, d) == p && d[HeadLength(o, d)..] == rest
  {
    var d := Record(o, p) + rest;
    RecordFields(o, p, rest);
    Reads64(o, U64(p.ts));
    Reads16(o, |p.values|);
    ReadsValues(o, p.values, rest);
    assert d[|Record(o, p)|..] == rest;
  }

  /** The record's layout: eight bytes of time, two bytes of field count, four bytes for each value. */
  lemma RecordLayout(o: Order, p: Point, j: nat)
    requires j < |p.values|
    ensures |Record(o, p)| == 10 + 4 * |p.values|
    ensures Record(o, p)[..8] == Put(o, U64(p.ts), 8) && Record(o, p)[8..10] == Put(o, |p.values| % 0x1_0000, 2)
    ensures Record(o, p)[10 + 4 * j..14 + 4 * j] == Put(o, p.values[j], 4)
  {
    hide Put, ValuesBytes;
    ValueBytesAt(o, p.values, j);
    assert Record(o, p)[10..] == ValuesBytes(o, p.values);
    assert Record(o, p)[10 + 4 * j..14 + 4 * j] == Record(o, p)[10..][4 * j..4 * j + 4];
  }

  lemma {:induction false} ValueBytesAt(o: Order, vs: seq<u32>, j: nat)
    requires j < |vs|
    ensures ValuesBytes(o, vs)[4 * j..4 * j + 4] == Put(o, vs[j], 4)
  {
    hide Put;
    var b, rest := ValuesBytes(o, vs), ValuesBytes(o, vs[1..]);
    if j > 0 {
      ValueBytesAt(o, vs[1..], j - 1);
      assert b[4 * j..4 * j + 4] == rest[4 * (j - 1)..4 * (j - 1) + 4];
    }
  }

  // ----- a stream of records

  function Stream(o: Order, ps: seq<Point>): seq<byte> {
    if ps == [] then [] else Record(o, ps[0]) + Stream(o, ps[1..])
  }

  /** Every whole record from the front of d, up to the first that is cut short. */
  function ParseAll(o: Order, d: seq<byte>): (ps: seq<Point>)
    ensures AllEncodable(ps)
    decreases |d|
  {
    if HasRecord(o, d) then [Head(o, d)] + ParseAll(o, d[HeadLength(o, d)..]) else []
  }

  lemma ParsesRecord(o: Order, p: Point, rest: seq<byte>)
    requires Encodable(p)
    ensures ParseAll(o, Record(o, p) + rest) == [p] + ParseAll(o, rest)
  {
    hide Record, Head, HeadLength, HasRecord;
    ReadsRecord(o, p, rest);
  }

  /** A stream is parsed back whole, and parsing goes on with what follows it. */
  lemma {:induction false} ParsesStream(o: Order, ps: seq<Point>, rest: seq<byte>)
    requires AllEncodable(ps)
    ensures ParseAll(o, Stream(o, ps) + rest) == ps + ParseAll(o, rest)
  {
    hide Record, ParseAll;
    if ps == [] {
      assert Stream(o, ps) + rest == rest;
    } else {
      var tail := Stream(o, ps[1..]) + rest;
      assert Stream(o, ps) + rest == Record(o, ps[0]) + tail;
      ParsesRecord(o, ps[0], tail);
      ParsesStream(o, ps[1..], rest);
      assert ps == [ps[0]] + ps[1..];
    }
  }

  /** What was parsed is exactly what the bytes hold, and no record is left behind. */
  lemma {:induction false} ParsedIsPrefix(o: Order, d: seq<byte>)
    ensures var n := |Stream(o, ParseAll(o, d))|;
      n <= |d| && Stream(o, ParseAll(o, d)) == d[..n] && !HasRecord(o, d[n..])
    decreases |d|
  {
    hide Record, Head, HeadLength;
    if HasRecord(o, d) {
      HeadRecord(o, d);
      var h := HeadLength(o, d);
      ParsedIsPrefix(o, d[h..]);
      var ps, qs := ParseAll(o, d), ParseAll(o, d[h..]);
      assert ps[1..] == qs;
      var n := |Stream(o, qs)|;
      assert d[..h + n] == d[..h] + d[h..][..n];
      assert d[h + n..] == d[h..][n..];
    } else {
      assert d[0..] == d;
    }
  }

  /** The parser, characterised without its loop. */
  lemma ParseCharacterised(o: Order, d: seq<byte>, ps: seq<Point>)
    requires AllEncodable(ps)
    ensures ParseAll(o, d) == ps <==> Stream(o, ps) <= d && !HasRecord(o, d[|Stream(o, ps)|..])
  {
    hide Head, HeadLength, HasRecord, Stream;
    ParsedIsPrefix(o, d);
    var n := |Stream(o, ps)|;
    if Stream(o, ps) <= d && !HasRecord(o, d[n..]) {
      assert d == Stream(o, ps) + d[n..];
      ParsesStream(o, ps, d[n..]);
    }
  }

  // ----- the window filter

  lemma {:induction false} WithinConcat(ps: seq<Point>, qs: seq<Point>, s: int64, e: int64)
    ensures Within(ps + qs, s, e) == Within(ps, s, e) + Within(qs, s, e)
  {
    if ps == [] {
      assert ps + qs == qs;
    } else {
      assert (ps + qs)[1..] == ps[1..] + qs;
      WithinConcat(ps[1..], qs, s, e);
    }
  }

  /** The filter keeps each point inside the window as often as it occurs, and no other. */
  lemma {:induction false} WithinMembers(ps: seq<Point>, s: int64, e: int64, p: Point)
    ensures multiset(Within(ps, s, e))[p] == if s <= p.ts <= e then multiset(ps)[p] else 0
  {
    if ps != [] {
      WithinMembers(ps[1..], s, e, p);
      assert ps == [ps[0]] + ps[1..];
    }
  }

  /** Filtering keeps everything exactly when everything is inside. */
  lemma {:induction false} WithinAll(ps: seq<Point>, s: int64, e: int64)
    ensures |Within(ps, s, e)| == |ps| <==> forall i :: 0 <= i < |ps| ==> InWindow(ps[i], s, e)
    ensures |Within(ps, s, e)| == |ps| ==> Within(ps, s, e) == ps
  {
    if ps != [] {
      WithinAll(ps[1..], s, e);
      assert forall i :: 0 < i < |ps| ==> ps[i] == ps[1..][i - 1];
    }
  }

  lemma {:induction false} WithinNone(ps: seq<Point>, s: int64, e: int64)
    ensures Within(ps, s, e) == [] <==> forall i :: 0 <= i < |ps| ==> !InWindow(ps[i], s, e)
  {
    if ps != [] {
      WithinNone(ps[1..], s, e);
      assert forall i :: 0 < i < |ps| ==> ps[i] == ps[1..][i - 1];
    }
  }

  lemma {:induction false} StreamConcat(o: Order, ps: seq<Point>, qs: seq<Point>)
    ensures Stream(o, ps + qs) == Stream(o, ps) + Stream(o, qs)
  {
    if ps == [] {
      assert ps + qs == qs;
    } else {
      hide Record;
      assert (ps + qs)[1..] == ps[1..] + qs;
      StreamConcat(o, ps[1..], qs);
    }
  }

  lemma HeadFits(o: Order, d: seq<byte>)
    requires HasRecord(o, d)
    ensures |d| >= 10 && 10 <= HeadLength(o, d) <= |d|
  {
  }

  /** Cutting the bytes anywhere loses only records from the end. */
  lemma {:induction false} ParsePrefix(o: Order, d: seq<byte>, n: nat)
    requires n <= |d|
    ensures ParseAll(o, d[..n]) <= ParseAll(o, d)
    decreases |d|
  {
    hide Head, HeadLength, HasRecord;
    var t := d[..n];
    if HasRecord(o, t) {
      SameHead(o, t, d);
      HeadFits(o, t);
      var h := HeadLength(o, d);
      assert t[h..] == d[h..][..n - h];
      ParsePrefix(o, d[h..], n - h);
    }
  }

  /** The head record depends on its own bytes only. */
  lemma SameHead(o: Order, t: seq<byte>, d: seq<byte>)
    requires HasRecord(o, t) && t <= d
    ensures HasRecord(o, d) && HeadLength(o, d) == HeadLength(o, t) && Head(o, d) == Head(o, t)
  {
    hide Put, Get;
    var n := Get16(o, t[8..10]);
    assert t[8..10] == d[8..10] && t[..8] == d[..8];
    assert d[10..][..4 * n] == t[10..][..4 * n];
    SameValues(o, t[10..], d[10..], n);
  }

  lemma {:induction false} SameValues(o: Order, b: seq<byte>, c: seq<byte>, n: nat)
    requires 4 * n <= |b| && 4 * n <= |c| && b[..4 * n] == c[..4 * n]
    ensures ReadValues(o, b, n) == ReadValues(o, c, n)
  {
    hide Put, Get, Get32, ValuesBytes;
    if n > 0 {
      assert b[..4] == b[..4 * n][..4] && c[..4] == c[..4 * n][..4];
      assert b[4..][..4 * (n - 1)] == b[..4 * n][4..] && c[4..][..4 * (n - 1)] == c[..4 * n][4..];
      SameValues(o, b[4..], c[4..], n - 1);
    }
  }

  lemma {:induction false} WithinPrefix(ps: seq<Point>, qs: seq<Point>, s: int64, e: int64)
    requires ps <= qs
    ensures Within(ps, s, e) <= Within(qs, s, e)
  {
    assert qs == ps + qs[|ps|..];
    WithinConcat(ps, qs[|ps|..], s, e);
  }

  /** So a torn tail loses only points from the end of the answer, for every range. */
  lemma TornTail(o: Order, d: seq<byte>, n: nat, s: int64, e: int64)
    requires n <= |d|
    ensures Within(ParseAll(o, d[..n]), s, e) <= Within(ParseAll(o, d), s, e)
  {
    hide ParseAll, Within;
    ParsePrefix(o, d, n);
    WithinPrefix(ParseAll(o, d[..n]), ParseAll(o, d), s, e);
  }

  // ----- EncodeSimplePoint and DecodeSimplePoint

  /** What DecodeSimplePoint returns: nothing unless d starts with a whole record. */
  function Decode(o: Order, d: seq<byte>): Option<Point> {
    if HasRecord(o, d) then Some(Head(o, d)) else None
  }

  /** The record of a point decodes to that point exactly when its field count fits two bytes. */
  lemma DecodeRecordExact(o: Order, p: Point)
    ensures Decode(o, Record(o, p)) == Some(p) <==> Encodable(p)
  {
    hide Put, Get;
    if Encodable(p) {
      assert Record(o, p) + [] == Record(o, p);
      ReadsRecord(o, p, []);
    }
  }

  /** Any bytes decode to a point exactly when they start with its record and its field count fits. */
  lemma DecodeExact(o: Order, d: seq<byte>, p: Point)
    ensures Decode(o, d) == Some(p) <==> Encodable(p) && Record(o, p) <= d
  {
    hide Record, Head, HeadLength;
    if Decode(o, d) == Some(p) {
      HeadRecord(o, d);
    }
    if Encodable(p) && Record(o, p) <= d {
      var rest := d[|Record(o, p)|..];
      assert d == Record(o, p) + rest;
      ReadsRecord(o, p, rest);
    }
  }

  lemma {:induction false} ValuesBytesSnoc(o: Order, vs: seq<u32>, v: u32)
    ensures ValuesBytes(o, vs + [v]) == ValuesBytes(o, vs) + Put(o, v, 4)
  {
    hide Put;
    if vs == [] {
      assert ValuesBytes(o, [v]) == Put(o, v, 4) + ValuesBytes(o, []);
    } else {
      assert (vs + [v])[1..] == vs[1..] + [v];
      ValuesBytesSnoc(o, vs[1..], v);
    }
  }

  lemma ValuesBytesStep(o: Order, vs: seq<u32>, i: nat)
    requires i < |vs|
    ensures ValuesBytes(o, vs[..i + 1]) == ValuesBytes(o, vs[..i]) + Put(o, vs[i], 4)
  {
    assert vs[..i + 1] == vs[..i] + [vs[i]];
    ValuesBytesSnoc(o, vs[..i], vs[i]);
  }

  lemma NoValues(o: Order)
    ensures ValuesBytes(o, []) == []
  {
  }

  /** Writes the record of p into buf from offset at on. */
  method FillRecord(buf: array<byte>, at: nat, o: Order, p: Point)
    requires at + 10 + 4 * |p.values| <= buf.Length
    modifies buf
    ensures buf[..at + 10 + 4 * |p.values|] == old(buf[..at]) + Record(o, p)
  {
    hide Put, ValuesBytes;
    ghost var front := buf[..at] + Put(o, U64(p.ts), 8) + Put(o, |p.values| % 0x1_0000, 2);
    PutAt(buf, at, o, U64(p.ts), 8);
    PutAt(buf, at + 8, o, |p.values| % 0x1_0000, 2);
    NoValues(o);
    for i := 0 to |p.values|
      invariant buf[..at + 10 + 4 * i] == front + ValuesBytes(o, p.values[..i])
    {
      ValuesBytesStep(o, p.values, i);
      PutAt(buf, at + 10 + 4 * i, o, p.values[i], 4);
    }
    assert p.values[..|p.values|] == p.values;
  }

  /** EncodeSimplePoint. */
  method EncodePoint(p: Point) returns (buf: array<byte>)
    ensures fresh(buf) && buf[..] == Record(Little, p)
  {
    hide Record;
    buf := new byte[10 + 4 * |p.values|];
    FillRecord(buf, 0, Little, p);
    assert buf[..] == buf[..10 + 4 * |p.values|];
  }

  lemma SliceOfSlice<T>(b: seq<T>, k: nat, lo: nat, hi: nat)
    requires lo <= hi && k + hi <= |b|
    ensures b[k..][lo..hi] == b[k + lo..k + hi]
  {
  }

  lemma {:induction false} ReadValuesAt(o: Order, b: seq<byte>, n: nat, j: nat)
    requires 4 * n <= |b| && j < n
    ensures ReadValues(o, b, n)[j] == Get32(o, b[4 * j..4 * j + 4])
  {
    hide Put, Get, Get32;
    if j > 0 {
      ReadValuesAt(o, b[4..], n - 1, j - 1);
      assert ReadValues(o, b, n)[j] == ReadValues(o, b[4..], n - 1)[j - 1];
      SliceOfSlice(b, 4, 4 * (j - 1), 4 * j);
    }
  }

  /** Reads n float32 patterns from d at offset at, slot by slot. */
  method ReadRow(d: seq<byte>, at: nat, o: Order, n: nat) returns (vs: seq<u32>)
    requires at + 4 * n <= |d|
    ensures vs == ReadValues(o, d[at..], n)
  {
    hide Get32;
    ghost var want := ReadValues(o, d[at..], n);
    hide ReadValues;
    var row := new u32[n];
    for i := 0 to n
      invariant row[..i] == want[..i]
    {
      row[i] := Get32(o, d[at + 4 * i..at + 4 * (i + 1)]);
      ReadValuesAt(o, d[at..], n, i);
      assert d[at..][4 * i..4 * i + 4] == d[at + 4 * i..at + 4 * (i + 1)];
    }
    vs := row[..];
    assert vs == row[..n] && want == want[..n];
  }

  /** DecodeSimplePoint: a nil point for bytes too short for their own header. */
  method DecodePoint(d: seq<byte>) returns (p: Option<Point>)
    ensures p == Decode(Little, d)
  {
    hide Get, Put, ReadValues;
    if |d| < 10 {
      return None;
    }
    var ts := I64(Get64(Little, d[..8]));
    var n: nat := Get16(Little, d[8..10]);
    if |d| < 10 + 4 * n {
      return None;
    }
    var values := ReadRow(d, 10, Little, n);
    return Some(Point(ts, values));
  }
}
