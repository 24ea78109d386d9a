/** The TCP protocol: frames on a byte stream, and the bodies of write and query messages. */
module Wire {
  import opened Bytes
  import opened Points

  const MSG_WRITE: byte := 1
  const MSG_QUERY: byte := 2
  const RESP_SUCCESS: byte := 0
  const RESP_ERROR: byte := 1
  const MAX_MESSAGE: int := 10 * 1024 * 1024

  // ----- frames

  datatype Frame = Frame(kind: byte, code: byte, data: seq<byte>)

  /** What follows the five-byte header of a frame. */
  function Body(f: Frame): seq<byte> { [f.code] + f.data }

  /** A frame on the wire; the length field keeps the low 32 bits of the body's length. */
  function FrameBytes(f: Frame): (b: seq<byte>)
    ensures |b| == 6 + |f.data|
  {
    Put(Big, |Body(f)| % 0x1_0000_0000, 4) + [f.kind] + Body(f)
  }

  function Wired(fs: seq<Frame>): seq<byte> {
    if fs == [] then [] else FrameBytes(fs[0]) + Wired(fs[1..])
  }

  predicate Deliverable(f: Frame) { |Body(f)| <= MAX_MESSAGE }

  /** A message as readMessage hands it on, without its length field. */
  datatype Message = Message(kind: byte, body: seq<byte>)

  datatype Received =
    | Got(message: Message, size: nat)
    | TooLarge(length: u32)
    | Ended

  /** readMessage on the bytes that the connection still holds. */
  function Receive(d: seq<byte>): (r: Received)
    ensures r.Got? ==> 5 <= r.size <= |d|
  {
    if |d| < 5 then Ended
    else
      var n := Get32(Big, d[..4]);
      if n > MAX_MESSAGE then TooLarge(n)
      else if |d| - 5 < n then Ended
      else Got(Message(d[4], d[5..5 + n]), 5 + n)
  }

  /** The messages of a connection, up to the first that cannot be read. */
  function Messages(d: seq<byte>): seq<Message>
    decreases |d|
  {
    var r := Receive(d);
    if r.Got? then [r.message] + Messages(d[r.size..]) else []
  }

  function Sent(fs: seq<Frame>): (ms: seq<Message>)
    ensures |ms| == |fs|
  {
    if fs == [] then [] else [Message(fs[0].kind, Body(fs[0]))] + Sent(fs[1..])
  }

  /** A message is received exactly when the stream starts with its length, its kind and its body, and
      the body is within the limit. */
  lemma ReceiveExact(d: seq<byte>, m: Message)
    ensures (exists size: nat :: Receive(d) == Got(m, size)) <==>
      |m.body| <= 10 * 1024 * 1024 && Put(Big, |m.body|, 4) + [m.kind] + m.body <= d
    ensures Receive(d).Got? && Receive(d).message == m ==> Receive(d).size == 5 + |m.body|
  {
    hide Put, Get;
    var b := Put(Big, |m.body|, 4) + [m.kind] + m.body;
    if Receive(d).Got? && Receive(d).message == m {
      var n := |m.body|;
      assert Receive(d) == Got(m, 5 + n);
      assert d[..5 + n] == d[..4] + [d[4]] + d[5..5 + n];
      assert d == d[..5 + n] + d[5 + n..];
    }
    if |m.body| <= MAX_MESSAGE && b <= d {
      Reads32(Big, |m.body|);
      assert d[..4] == b[..4] == Put(Big, |m.body|, 4);
      assert d[4] == b[4] && d[5..5 + |m.body|] == b[5..5 + |m.body|] == m.body;
      assert Receive(d) == Got(m, 5 + |m.body|);
    }
  }

  /** A frame within the limit is received whole; one beyond it never is. */
  lemma ReceiveFrame(f: Frame, rest: seq<byte>)
    ensures Receive(FrameBytes(f) + rest) == Got(Message(f.kind, Body(f)), |FrameBytes(f)|) <==> Deliverable(f)
    ensures Receive(FrameBytes(f) + rest).Got? && !Deliverable(f) ==>
      Receive(FrameBytes(f) + rest).message != Message(f.kind, Body(f))
  {
    hide Put, Receive, Body;
    ReceiveExact(FrameBytes(f) + rest, Message(f.kind, Body(f)));
    BodyLength(f);
    if Deliverable(f) {
      assert FrameBytes(f) <= FrameBytes(f) + rest;
    }
  }

  lemma BodyLength(f: Frame)
    ensures |Body(f)| == 1 + |f.data|
  {
  }

  /** What a connection reads off a run of frames is what was sent exactly when every frame is within the limit. */
  lemma {:induction false} FramesSplitBack(fs: seq<Frame>)
    ensures Messages(Wired(fs)) == Sent(fs) <==> forall i :: 0 <= i < |fs| ==> Deliverable(fs[i])
  {
    hide Receive, FrameBytes, Body, Deliverable;
    if fs != [] {
      var rest := Wired(fs[1..]);
      ReceiveFrame(fs[0], rest);
      FramesSplitBack(fs[1..]);
      assert forall i :: 0 < i < |fs| ==> fs[i] == fs[1..][i - 1];
      assert (FrameBytes(fs[0]) + rest)[|FrameBytes(fs[0])|..] == rest;
      assert Sent(fs)[1..] == Sent(fs[1..]);
      if Deliverable(fs[0]) {
        var m := Message(fs[0].kind, Body(fs[0]));
        assert Messages(Wired(fs)) == [m] + Messages(rest);
        assert ([m] + Messages(rest))[1..] == Messages(rest);
      } else {
        assert Messages(Wired(fs)) == [] || Messages(Wired(fs))[0] != Sent(fs)[0];
      }
    } else {
      EmptyStream();
    }
  }

  lemma EmptyStream()
    ensures Messages([]) == []
  {
  }

  lemma {:induction false} SentInjective(fs: seq<Frame>, gs: seq<Frame>)
    requires Sent(fs) == Sent(gs)
    ensures fs == gs
  {
    if fs != [] {
      assert Sent(fs)[1..] == Sent(fs[1..]) && Sent(gs)[1..] == Sent(gs[1..]);
      SentInjective(fs[1..], gs[1..]);
      var f, g := fs[0], gs[0];
      assert Sent(fs)[0] == Sent(gs)[0];
      assert Body(f)[0] == Body(g)[0] && Body(f)[1..] == Body(g)[1..];
      assert f == g;
      assert fs == [f] + fs[1..] && gs == [g] + gs[1..];
    } else {
      assert |gs| == 0;
    }
  }

  /** No two runs of deliverable frames share their bytes. */
  lemma FramesUnique(fs: seq<Frame>, gs: seq<Frame>)
    requires forall i :: 0 <= i < |fs| ==> Deliverable(fs[i])
    requires forall i :: 0 <= i < |gs| ==> Deliverable(gs[i])
    ensures Wired(fs) == Wired(gs) <==> fs == gs
  {
    if Wired(fs) == Wired(gs) {
      FramesSplitBack(fs);
      FramesSplitBack(gs);
      SentInjective(fs, gs);
    }
  }

  /** A connection cut anywhere loses only messages from the end. */
  lemma {:induction false} MessagesPrefix(d: seq<byte>, n: nat)
    requires n <= |d|
    ensures Messages(d[..n]) <= Messages(d)
    decreases |d|
  {
    hide Receive;
    var r := Receive(d[..n]);
    if r.Got? {
      SameMessage(d, n);
      assert d[..n][r.size..] == d[r.size..][..n - r.size];
      MessagesPrefix(d[r.size..], n - r.size);
    }
  }

  lemma SameMessage(d: seq<byte>, n: nat)
    requires n <= |d| && Receive(d[..n]).Got?
    ensures Receive(d) == Receive(d[..n])
    ensures 5 <= Receive(d).size <= n
  {
    hide Get32;
    var t := d[..n];
    assert t[..4] == d[..4];
    var k := Get32(Big, d[..4]);
    assert t[5..5 + k] == d[5..5 + k];
  }

  /** readMessage: the header, the checked length, then the body; the result repeats the header. */
  method ReadMessage(d: seq<byte>) returns (r: Received, msg: seq<byte>)
    ensures r == Receive(d)
    ensures r.Got? ==> msg == d[..r.size] && r.message == Message(msg[4], msg[5..])
  {
    hide Get32;
    msg := [];
    if |d| < 5 {
      return Ended, msg;
    }
    var header := d[..5];
    assert header[..4] == d[..4];
    var length: nat := Get32(Big, header[..4]);
    if length > MAX_MESSAGE {
      return TooLarge(length), msg;
    }
    if |d| - 5 < length {
      return Ended, msg;
    }
    var body := d[5..5 + length];
    var buf := new byte[5 + length];
    forall j | 0 <= j < 4 { buf[j] := header[j]; }
    buf[4] := header[4];
    forall j | 0 <= j < length { buf[5 + j] := body[j]; }
    msg := buf[..];
    assert msg == d[..5 + length] && msg[5..] == body;
    r := Got(Message(header[4], body), 5 + length);
  }

  /** The read loop of handleConnection. */
  method ReadConnection(d: seq<byte>) returns (ms: seq<Message>)
    ensures ms == Messages(d)
  {
    hide Receive;
    ms := [];
    var at := 0;
    assert d[0..] == d;
    while true
      invariant at <= |d|
      invariant ms + Messages(d[at..]) == Messages(d)
      decreases |d| - at
    {
      var r, msg := ReadMessage(d[at..]);
      if !r.Got? {
        assert ms + [] == ms;
        return;
      }
      ms := ms + [Message(msg[4], msg[5..])];
      assert d[at..][r.size..] == d[at + r.size..];
      at := at + r.size;
    }
  }

  /** sendResponse, which writes the six bytes of an empty answer apart. */
  method SendResponse(kind: byte, code: byte, data: seq<byte>) returns (response: array<byte>)
    ensures fresh(response) && response[..] == FrameBytes(Frame(kind, code, data))
    ensures response[..] == Put(Big, (1 + |data|) % 0x1_0000_0000, 4) + [kind, code] + data
  {
    hide Put;
    if |data| == 0 {
      response := new byte[6];
      PutAt(response, 0, Big, 1, 4);
      assert data == [];
    } else {
      response := new byte[6 + |data|];
      PutAt(response, 0, Big, (1 + |data|) % 0x1_0000_0000, 4);
      forall j | 0 <= j < |data| { response[6 + j] := data[j]; }
    }
    assert response[..4] == Put(Big, (1 + |data|) % 0x1_0000_0000, 4);
    response[4] := kind;
    response[5] := code;
    assert response[..4] == Put(Big, (1 + |data|) % 0x1_0000_0000, 4);
    assert response[6..] == data;
    assert response[..] == response[..4] + [kind] + ([code] + data);
  }

  /** sendErrorWithType. */
  method SendErrorWithType(kind: byte, message: seq<byte>) returns (response: array<byte>)
    ensures fresh(response) && response[..] == FrameBytes(Frame(kind, RESP_ERROR, message))
    ensures response[..] == Put(Big, (1 + |message|) % 0x1_0000_0000, 4) + [kind, 1] + message
  {
    hide Put;
    response := new byte[6 + |message|];
    PutAt(response, 0, Big, (1 + |message|) % 0x1_0000_0000, 4);
    forall j | 0 <= j < |message| { response[6 + j] := message[j]; }
    assert response[..4] == Put(Big, (1 + |message|) % 0x1_0000_0000, 4);
    response[4] := kind;
    response[5] := RESP_ERROR;
    assert response[..4] == Put(Big, (1 + |message|) % 0x1_0000_0000, 4);
    assert response[6..] == message;
    assert response[..] == response[..4] + [kind] + ([RESP_ERROR] + message);
  }

  // ----- write requests

  /** The points of a query's answer, and of a write: a count and that many records. */
  function PointSection(ps: seq<Point>): seq<byte> {
    Put(Big, |ps| % 0x1_0000_0000, 4) + Stream(Big, ps)
  }

  /** A write request for the device with the given ID bytes. */
  function WriteBody(id: seq<byte>, ps: seq<Point>): seq<byte> {
    Put(Big, |id| % 0x1_0000, 2) + id + PointSection(ps)
  }

  /** Its layout: the ID's length in two bytes and the ID, then the number of points in four and their records. */
  lemma WriteBodyLayout(id: seq<byte>, ps: seq<Point>)
    requires |id| < 0x1_0000 && |ps| < 0x1_0000_0000
    ensures WriteBody(id, ps) == Put(Big, |id|, 2) + id + (Put(Big, |ps|, 4) + Stream(Big, ps))
  {
    hide Put, Stream;
    Modest(|id|, 0x1_0000);
    Modest(|ps|, 0x1_0000_0000);
  }

  lemma Modest(n: nat, m: nat)
    requires n < m
    ensures n % m == n
  {
  }

  /** How handleWrite fares with a request: parsed and passed to the store, answered with an error that may
      name the point it stopped at, or aborted by a slice whose bounds are out of order. */
  datatype Written =
    | Parsed(id: seq<byte>, points: seq<Point>)
    | BadFormat
    | NoHeader(at: nat)
    | NoRow(at: nat, fields: u16)
    | Aborted

  const WRITE_ID_LIMIT: int := 65529
  const QUERY_ID_LIMIT: int := 65517

  /** What a run of records says about a count: enough of them, or where and why they end. */
  function Counted(id: seq<byte>, n: nat, d: seq<byte>): (r: Written)
  {
    var ps := ParseAll(Big, d);
    if n <= |ps| then Parsed(id, ps[..n])
    else
      ParsedIsPrefix(Big, d);
      var rest := d[|Stream(Big, ps)|..];
      if |rest| < 10 then NoHeader(|ps|) else NoRow(|ps|, Get16(Big, rest[8..10]))
  }

  function ParseWrite(body: seq<byte>): (r: Written)
  {
    if |body| < 6 then BadFormat
    else
      var k := Get16(Big, body[..2]);
      if k > WRITE_ID_LIMIT then Aborted
      else if |body| < 6 + k then BadFormat
      else Counted(body[2..2 + k], Get32(Big, body[2 + k..6 + k]), body[6 + k..])
  }

  /** A slice expression of Go is in bounds. */
  predicate SliceOk(lo: int, hi: int, n: nat) { 0 <= lo <= hi <= n }

  /** The sum of 16-bit unsigned numbers. */
  function Add16(a: int, b: int): u16 { (a + b) % 0x1_0000 }

  /** The 16-bit length check lets an ID length through that the slices then reject, exactly when the
      announced length is above the limit. */
  lemma WriteAborts(body: seq<byte>)
    ensures ParseWrite(body) == Aborted <==> |body| >= 6 && Get16(Big, body[..2]) > WRITE_ID_LIMIT
  {
    hide Get16, Get32, ParseAll, Stream;
  }

  /** What the 16-bit sums of handleWrite come to, with a body of n bytes. */
  lemma WriteSlices(k: u16, n: nat)
    requires n >= 6
    ensures n < Add16(Add16(2, k), 4) <==> k <= 65529 && n < 6 + k
    ensures k <= 65529 ==> Add16(2, k) == 2 + k && Add16(6, k) == 6 + k
    ensures k > 65529 ==> !SliceOk(2, Add16(2, k), n) || !SliceOk(Add16(2, k), Add16(6, k), n)
  {
  }

  /** And those of handleQuery. */
  lemma QuerySlices(k: u16, n: nat)
    requires n >= 18
    ensures n < Add16(Add16(2, k), 16) <==> k <= 65517 && n < 18 + k
    ensures k <= 65517 ==> Add16(2, k) == 2 + k && Add16(10, k) == 10 + k && Add16(18, k) == 18 + k
    ensures k > 65517 ==>
      !(SliceOk(2, Add16(2, k), n) && SliceOk(Add16(2, k), Add16(10, k), n) && SliceOk(Add16(10, k), Add16(18, k), n))
  {
  }

  /** handleWrite up to its call of the store. */
  method HandleWrite(body: seq<byte>) returns (r: Written)
    ensures r == ParseWrite(body)
    ensures r == Aborted <==> |body| >= 6 && Get16(Big, body[..2]) > WRITE_ID_LIMIT
  {
    WriteAborts(body);
    hide Get16, Get32, Counted, Add16;
    if |body| < 6 {
      return BadFormat;
    }
    var k := Get16(Big, body[..2]);
    WriteSlices(k, |body|);
    if |body| < Add16(Add16(2, k), 4) {
      return BadFormat;
    }
    if !SliceOk(2, Add16(2, k), |body|) || !SliceOk(Add16(2, k), Add16(6, k), |body|) {
      return Aborted;
    }
    var id := body[2..Add16(2, k)];
    var count := Get32(Big, body[Add16(2, k)..Add16(6, k)]);
    r := TakePoints(id, count, body, 6 + k);
  }

  /** The point loop of handleWrite. */
  method TakePoints(id: seq<byte>, count: nat, body: seq<byte>, start: nat) returns (r: Written)
    requires start <= |body|
    ensures r == Counted(id, count, body[start..])
  {
    hide Get16, Get64, Record, Stream, ReadValues, Head, HasRecord, HeadLength;
    ghost var d := body[start..];
    var points: seq<Point> := [];
    var at := start;
    NothingTaken(d);
    for i := 0 to count
      invariant start <= at <= |body| && |points| == i
      invariant Taken(d, points, at - start)
    {
      StopsHere(id, count, d, points, at - start);
      assert d[at - start..] == body[at..];
      if at + 10 > |body| {
        return NoHeader(i);
      }
      var timestamp := I64(Get64(Big, body[at..at + 8]));
      var fields: nat := Get16(Big, body[at + 8..at + 10]);
      LengthAt(body, at);
      if at + 10 + fields * 4 > |body| {
        return NoRow(i, fields);
      }
      var values := ReadRow(body, at + 10, Big, fields);
      HeadAt(body, at);
      TakesOne(d, points, at - start);
      points := points + [Point(timestamp, values)];
      at := at + 10 + fields * 4;
    }
    TookAll(id, d, points, at - start);
    r := Parsed(id, points);
  }

  /** The first `at` bytes of d are the records of the points, which are the first points of d. */
  ghost predicate Taken(d: seq<byte>, points: seq<Point>, at: nat) {
    at <= |d| && d[..at] == Stream(Big, points) && AllEncodable(points)
    && ParseAll(Big, d) == points + ParseAll(Big, d[at..])
  }

  lemma NothingTaken(d: seq<byte>)
    ensures Taken(d, [], 0)
  {
    assert d[0..] == d && [] + ParseAll(Big, d) == ParseAll(Big, d);
  }

  lemma LengthAt(body: seq<byte>, at: nat)
    requires at + 10 <= |body|
    ensures body[at..][8..10] == body[at + 8..at + 10]
    ensures HeadLength(Big, body[at..]) == 10 + 4 * Get16(Big, body[at + 8..at + 10])
  {
    hide Get16;
    assert body[at..][8..10] == body[at + 8..at + 10];
  }

  lemma HeadAt(body: seq<byte>, at: nat)
    requires at + 10 <= |body| && at + 10 + 4 * Get16(Big, body[at + 8..at + 10]) <= |body|
    ensures HasRecord(Big, body[at..])
    ensures var n := Get16(Big, body[at + 8..at + 10]);
      HeadLength(Big, body[at..]) == 10 + 4 * n
      && Head(Big, body[at..]) == Point(I64(Get64(Big, body[at..at + 8])), ReadValues(Big, body[at + 10..], n))
  {
    hide Get, Put, ReadValues;
    var d := body[at..];
    assert d[8..10] == body[at + 8..at + 10] && d[..8] == body[at..at + 8] && d[10..] == body[at + 10..];
  }

  lemma TakesOne(d: seq<byte>, points: seq<Point>, at: nat)
    requires Taken(d, points, at) && HasRecord(Big, d[at..])
    ensures at + HeadLength(Big, d[at..]) <= |d|
    ensures Taken(d, points + [Head(Big, d[at..])], at + HeadLength(Big, d[at..]))
  {
    hide Record, Head, HeadLength, HasRecord;
    var t := d[at..];
    HeadFits(Big, t);
    var p, h := Head(Big, t), HeadLength(Big, t);
    HeadRecord(Big, t);
    StreamConcat(Big, points, [p]);
    assert [p][1..] == [] && Stream(Big, [p]) == Record(Big, p);
    assert d[..at + h] == d[..at] + t[..h];
    assert t[h..] == d[at + h..];
    assert points + ([p] + ParseAll(Big, t[h..])) == points + [p] + ParseAll(Big, t[h..]);
  }

  /** The points taken so far end the parse when the next record is cut short. */
  lemma StopsHere(id: seq<byte>, count: nat, d: seq<byte>, points: seq<Point>, at: nat)
    requires Taken(d, points, at) && |points| < count
    ensures |d| - at < 10 ==> Counted(id, count, d) == NoHeader(|points|)
    ensures |d| - at >= 10 && HeadLength(Big, d[at..]) > |d| - at ==>
      Counted(id, count, d) == NoRow(|points|, Get16(Big, d[at..][8..10]))
  {
    hide Record, Head, Get16;
    if !HasRecord(Big, d[at..]) {
      assert ParseAll(Big, d) == points + [] == points;
      assert |Stream(Big, points)| == at;
    }
  }

  lemma TookAll(id: seq<byte>, d: seq<byte>, points: seq<Point>, at: nat)
    requires Taken(d, points, at)
    ensures Counted(id, |points|, d) == Parsed(id, points)
  {
    hide ParseAll;
  }

  /** The bytes of the fields in front of the points, cut out of any body that starts with them. */
  lemma WriteFields(id: seq<byte>, n: nat, rest: seq<byte>, body: seq<byte>)
    requires |id| < 0x1_0000 && body == Put(Big, |id|, 2) + id + Put(Big, n, 4) + rest
    ensures body[..2] == Put(Big, |id|, 2) && body[2..2 + |id|] == id
    ensures body[2 + |id|..6 + |id|] == Put(Big, n, 4) && body[6 + |id|..] == rest
  {
    hide Put;
    Parts(Put(Big, |id|, 2), id, Put(Big, n, 4), rest, body);
  }

  lemma {:induction false} StreamTake(ps: seq<Point>, n: nat)
    requires n <= |ps|
    ensures Stream(Big, ps[..n]) <= Stream(Big, ps)
  {
    assert ps == ps[..n] + ps[n..];
    StreamConcat(Big, ps[..n], ps[n..]);
  }

  lemma CountedExact(id: seq<byte>, n: u32, d: seq<byte>, ps: seq<Point>)
    requires n == |ps|
    ensures Counted(id, n, d) == Parsed(id, ps) <==> AllEncodable(ps) && Stream(Big, ps) <= d
  {
    hide ParseAll, Stream, Get16;
    var all := ParseAll(Big, d);
    if Counted(id, n, d) == Parsed(id, ps) {
      assert n <= |all| && ps == all[..n];
      ParsedIsPrefix(Big, d);
      StreamTake(all, n);
    }
    if AllEncodable(ps) && Stream(Big, ps) <= d {
      var rest := d[|Stream(Big, ps)|..];
      assert d == Stream(Big, ps) + rest;
      ParsesStream(Big, ps, rest);
      assert all[..n] == ps;
    }
  }

  lemma ParsedFields(body: seq<byte>, id: seq<byte>, ps: seq<Point>)
    requires ParseWrite(body) == Parsed(id, ps)
    ensures |id| <= WRITE_ID_LIMIT && |ps| < 0x1_0000_0000 && |body| >= 6 + |id|
    ensures body[..2] == Put(Big, |id|, 2) && body[2..2 + |id|] == id
    ensures body[2 + |id|..6 + |id|] == Put(Big, |ps|, 4)
    ensures Counted(id, |ps|, body[6 + |id|..]) == Parsed(id, ps)
  {
    hide Put, Get, ParseAll, Stream;
  }

  lemma ParsedWrites(body: seq<byte>, id: seq<byte>, ps: seq<Point>)
    requires ParseWrite(body) == Parsed(id, ps)
    ensures |id| <= WRITE_ID_LIMIT && |ps| < 0x1_0000_0000 && AllEncodable(ps) && WriteBody(id, ps) <= body
  {
    hide Put, Counted, ParseAll, Stream, Get, AllEncodable, ParseWrite;
    ParsedFields(body, id, ps);
    var k := |id|;
    CountedExact(id, |ps|, body[6 + k..], ps);
    var rest := body[6 + k..][|Stream(Big, ps)|..];
    assert body[6 + k..] == Stream(Big, ps) + rest;
    assert body == body[..2] + body[2..2 + k] + body[2 + k..6 + k] + body[6 + k..];
    assert body == WriteBody(id, ps) + rest;
  }

  lemma WritesParsed(id: seq<byte>, ps: seq<Point>, rest: seq<byte>)
    requires |id| <= WRITE_ID_LIMIT && |ps| < 0x1_0000_0000 && AllEncodable(ps)
    ensures ParseWrite(WriteBody(id, ps) + rest) == Parsed(id, ps)
  {
    hide Put, Counted, ParseAll, Stream, Get, AllEncodable;
    var body := WriteBody(id, ps) + rest;
    var d := Stream(Big, ps) + rest;
    assert body == Put(Big, |id|, 2) + id + Put(Big, |ps|, 4) + d;
    WriteFields(id, |ps|, d, body);
    Reads16(Big, |id|);
    Reads32(Big, |ps|);
    CountedExact(id, |ps|, d, ps);
  }

  /** A body is parsed to these points for this device exactly when it starts with their encoding, the ID
      is short enough for the 16-bit arithmetic, and the counters hold the counts. */
  lemma WriteParsedExact(body: seq<byte>, id: seq<byte>, ps: seq<Point>)
    ensures ParseWrite(body) == Parsed(id, ps) <==>
      |id| <= 65529 && |ps| < 0x1_0000_0000 && AllEncodable(ps) && WriteBody(id, ps) <= body
  {
    hide ParseWrite, WriteBody, AllEncodable;
    if ParseWrite(body) == Parsed(id, ps) {
      ParsedWrites(body, id, ps);
    }
    if |id| <= WRITE_ID_LIMIT && |ps| < 0x1_0000_0000 && AllEncodable(ps) && WriteBody(id, ps) <= body {
      var rest := body[|WriteBody(id, ps)|..];
      assert body == WriteBody(id, ps) + rest;
      WritesParsed(id, ps, rest);
    }
  }

  /** How any other request fares: one without room for a header, or for the ID that it announces, has a bad
      format; one with fewer whole records than it announces is refused at the first that is cut short, in its
      header or in its row; of more records the announced number is taken. */
  lemma WriteFares(body: seq<byte>, id: seq<byte>, n: u32, ps: seq<Point>, rest: seq<byte>)
    requires |id| <= 65529 && AllEncodable(ps) && !HasRecord(Big, rest)
    ensures ParseWrite(body) == BadFormat <==>
      |body| < 6 || (Get16(Big, body[..2]) <= 65529 && |body| < 6 + Get16(Big, body[..2]))
    ensures ParseWrite(Put(Big, |id|, 2) + id + Put(Big, n, 4) + (Stream(Big, ps) + rest)) ==
      if n <= |ps| then Parsed(id, ps[..n])
      else if |rest| < 10 then NoHeader(|ps|)
      else NoRow(|ps|, Get16(Big, rest[8..10]))
  {
    hide Put, Get16, Get32, ParseAll, Stream, Head, HeadLength, HasRecord, AllEncodable;
    hide Counted, ParseWrite;
    BadFormats(body);
    WriteCounts(id, n, Stream(Big, ps) + rest);
    CountedAt(id, n, ps, rest);
  }

  lemma BadFormats(body: seq<byte>)
    ensures ParseWrite(body) == BadFormat <==>
      |body| < 6 || (Get16(Big, body[..2]) <= 65529 && |body| < 6 + Get16(Big, body[..2]))
  {
    hide Get16, Get32, ParseAll, Stream;
  }

  lemma WriteCounts(id: seq<byte>, n: u32, d: seq<byte>)
    requires |id| <= 65529
    ensures ParseWrite(Put(Big, |id|, 2) + id + Put(Big, n, 4) + d) == Counted(id, n, d)
  {
    hide Put, Get16, Get32, Counted;
    WriteFields(id, n, d, Put(Big, |id|, 2) + id + Put(Big, n, 4) + d);
    Reads16(Big, |id|);
    Reads32(Big, n);
  }

  lemma CountedAt(id: seq<byte>, n: u32, ps: seq<Point>, rest: seq<byte>)
    requires AllEncodable(ps) && !HasRecord(Big, rest)
    ensures Counted(id, n, Stream(Big, ps) + rest) ==
      if n <= |ps| then Parsed(id, ps[..n])
      else if |rest| < 10 then NoHeader(|ps|)
      else NoRow(|ps|, Get16(Big, rest[8..10]))
  {
    hide Get16, ParseAll, Stream, HasRecord, AllEncodable;
    var d := Stream(Big, ps) + rest;
    ParsesStream(Big, ps, rest);
    NoMore(rest);
    assert ParseAll(Big, d) == ps + [] == ps;
    assert d[|Stream(Big, ps)|..] == rest;
  }

  lemma NoMore(rest: seq<byte>)
    requires !HasRecord(Big, rest)
    ensures ParseAll(Big, rest) == []
  {
  }

  /** A write request comes back as what was written exactly within the limits of its counters. */
  lemma WriteRoundTrip(id: seq<byte>, ps: seq<Point>)
    ensures ParseWrite(WriteBody(id, ps)) == Parsed(id, ps) <==>
      |id| <= WRITE_ID_LIMIT && |ps| < 0x1_0000_0000 && AllEncodable(ps)
  {
    WriteParsedExact(WriteBody(id, ps), id, ps);
  }

  // ----- query requests and their answers

  datatype Asked =
    | Asks(id: seq<byte>, s: int64, e: int64)
    | BadQuery
    | AbortedQuery

  function ParseQuery(body: seq<byte>): Asked {
    if |body| < 18 then BadQuery
    else
      var k := Get16(Big, body[..2]);
      if k > QUERY_ID_LIMIT then AbortedQuery
      else if |body| < 18 + k then BadQuery
      else Asks(body[2..2 + k], I64(Get64(Big, body[2 + k..10 + k])), I64(Get64(Big, body[10 + k..18 + k])))
  }

  lemma QueryAborts(body: seq<byte>)
    ensures ParseQuery(body) == AbortedQuery <==> |body| >= 18 && Get16(Big, body[..2]) > QUERY_ID_LIMIT
  {
    hide Get16, Get64;
  }

  /** handleQuery up to its call of the store. */
  method HandleQuery(body: seq<byte>) returns (r: Asked)
    ensures r == ParseQuery(body)
    ensures r == AbortedQuery <==> |body| >= 18 && Get16(Big, body[..2]) > QUERY_ID_LIMIT
  {
    QueryAborts(body);
    hide Get16, Get64, Add16;
    if |body| < 18 {
      return BadQuery;
    }
    var k := Get16(Big, body[..2]);
    QuerySlices(k, |body|);
    if |body| < Add16(Add16(2, k), 16) {
      return BadQuery;
    }
    var a, b, c := Add16(2, k), Add16(10, k), Add16(18, k);
    if !SliceOk(2, a, |body|) || !SliceOk(a, b, |body|) || !SliceOk(b, c, |body|) {
      return AbortedQuery;
    }
    r := Asks(body[2..a], I64(Get64(Big, body[a..b])), I64(Get64(Big, body[b..c])));
  }

  /** A query is understood as this device and range exactly when the body starts with their encoding and
      the ID is short enough for the 16-bit arithmetic. */
  lemma QueryParsedExact(body: seq<byte>, id: seq<byte>, s: int64, e: int64)
    ensures ParseQuery(body) == Asks(id, s, e) <==> |id| <= 65517 && QueryBody(id, s, e) <= body
  {
    hide Put, Get, Get16, Get64, QueryBody, ParseQuery;
    var k := |id|;
    if ParseQuery(body) == Asks(id, s, e) {
      AskedFields(body, id, s, e);
      QueryBodyLayout(id, s, e);
      assert body == body[..2] + body[2..2 + k] + body[2 + k..10 + k] + body[10 + k..18 + k] + body[18 + k..];
      assert body == QueryBody(id, s, e) + body[18 + k..];
    }
    if k <= 65517 && QueryBody(id, s, e) <= body {
      QueryBodyLayout(id, s, e);
      AskedBack(body, id, s, e);
    }
  }

  /** A query request: the ID's length in two bytes and the ID, then both ends of the range in eight. */
  function QueryBody(id: seq<byte>, s: int64, e: int64): seq<byte> {
    Put(Big, |id| % 0x1_0000, 2) + id + Put(Big, U64(s), 8) + Put(Big, U64(e), 8)
  }

  lemma QueryBodyLayout(id: seq<byte>, s: int64, e: int64)
    requires |id| < 0x1_0000
    ensures QueryBody(id, s, e) == Put(Big, |id|, 2) + id + Put(Big, U64(s), 8) + Put(Big, U64(e), 8)
    ensures |QueryBody(id, s, e)| == 18 + |id|
  {
    hide Put;
    Modest(|id|, 0x1_0000);
  }

  lemma AskedBack(body: seq<byte>, id: seq<byte>, s: int64, e: int64)
    requires |id| <= 65517 && QueryBody(id, s, e) <= body
    ensures ParseQuery(body) == Asks(id, s, e)
  {
    hide Put, Get, Get16, Get64, QueryBody;
    var k := |id|;
    QueryBodyLayout(id, s, e);
    assert body == QueryBody(id, s, e) + body[18 + k..];
    QueryParts(Put(Big, k, 2), id, Put(Big, U64(s), 8), Put(Big, U64(e), 8), body[18 + k..], body);
    Reads16(Big, k);
    Reads64(Big, U64(s));
    Reads64(Big, U64(e));
  }

  lemma AskedFields(body: seq<byte>, id: seq<byte>, s: int64, e: int64)
    requires ParseQuery(body) == Asks(id, s, e)
    ensures |id| <= 65517 && |body| >= 18 + |id|
    ensures body[..2] == Put(Big, |id|, 2) && body[2..2 + |id|] == id
    ensures body[2 + |id|..10 + |id|] == Put(Big, U64(s), 8) && body[10 + |id|..18 + |id|] == Put(Big, U64(e), 8)
  {
    hide Put, Get;
  }

  /** A query has a bad format exactly when it has no room for its fields, or for the ID that it announces. */
  lemma QueryFares(body: seq<byte>)
    ensures ParseQuery(body) == BadQuery <==>
      |body| < 18 || (Get16(Big, body[..2]) <= 65517 && |body| < 18 + Get16(Big, body[..2]))
  {
    hide Get16, Get64;
  }

  lemma Parts(a: seq<byte>, b: seq<byte>, c: seq<byte>, d: seq<byte>, x: seq<byte>)
    requires x == a + b + c + d
    ensures x[..|a|] == a && x[|a|..|a| + |b|] == b
    ensures x[|a| + |b|..|a| + |b| + |c|] == c && x[|a| + |b| + |c|..] == d
  {
  }

  lemma QueryParts(a: seq<byte>, id: seq<byte>, x: seq<byte>, y: seq<byte>, rest: seq<byte>, b: seq<byte>)
    requires |a| == 2 && |x| == |y| == 8 && b == a + id + x + y + rest
    ensures b[..2] == a && b[2..2 + |id|] == id
    ensures b[2 + |id|..10 + |id|] == x && b[10 + |id|..18 + |id|] == y
  {
    Parts(a, id, x, y + rest, b);
    assert b[10 + |id|..18 + |id|] == b[10 + |id|..][..8];
  }

  /** The buffer of a query's answer, sized in one pass and filled in a second. */
  method AnswerData(points: seq<Point>) returns (data: array<byte>)
    ensures fresh(data) && data[..] == PointSection(points)
    ensures data[..] == Put(Big, |points| % 0x1_0000_0000, 4) + Stream(Big, points)
  {
    hide Record, Stream, Put;
    var total := 4;
    NoPoints();
    for i := 0 to |points|
      invariant total == 4 + |Stream(Big, points[..i])|
    {
      BigStep(points, i);
      total := total + 10 + 4 * |points[i].values|;
    }
    assert points[..|points|] == points;
    data := new byte[total];
    PutAt(data, 0, Big, |points| % 0x1_0000_0000, 4);
    assert data[..0] == [];
    var at := 4;
    for i := 0 to |points|
      invariant at == 4 + |Stream(Big, points[..i])| <= data.Length
      invariant data[..at] == Put(Big, |points| % 0x1_0000_0000, 4) + Stream(Big, points[..i])
    {
      BigStep(points, i);
      assert Stream(Big, points[..i + 1]) <= Stream(Big, points) by { StreamTake(points, i + 1); }
      FillRecord(data, at, Big, points[i]);
      at := at + 10 + 4 * |points[i].values|;
    }
    assert data[..] == data[..at];
  }

  lemma NoPoints()
    ensures Stream(Big, []) == []
  {
  }

  lemma BigStep(points: seq<Point>, i: nat)
    requires i < |points|
    ensures Stream(Big, points[..i + 1]) == Stream(Big, points[..i]) + Record(Big, points[i])
  {
    hide Record;
    assert points[..i + 1] == points[..i] + [points[i]];
    StreamConcat(Big, points[..i], [points[i]]);
    assert [points[i]][1..] == [];
  }

  /** A query's answer, sent back behind a device ID, is a write of the same points unless a field count
      or the number of points overflows its counter. */
  lemma AnswerIsAWrite(id: seq<byte>, ps: seq<Point>, rest: seq<byte>)
    requires |id| <= WRITE_ID_LIMIT
    ensures ParseWrite(Put(Big, |id|, 2) + id + PointSection(ps) + rest) == Parsed(id, ps) <==>
      |ps| < 0x1_0000_0000 && AllEncodable(ps)
  {
    hide ParseWrite, PointSection, AllEncodable, Put;
    var body := Put(Big, |id|, 2) + id + PointSection(ps) + rest;
    assert body == WriteBody(id, ps) + rest;
    WriteParsedExact(body, id, ps);
  }

  /** A reader with the server's own message limit receives a query's answer, with all its points, exactly
      when the records take at most five bytes less than the limit. */
  lemma AnswerDelivered(ps: seq<Point>, rest: seq<byte>)
    ensures var f := Frame(MSG_QUERY, RESP_SUCCESS, PointSection(ps));
      Receive(FrameBytes(f) + rest) == Got(Message(2, [0] + PointSection(ps)), |FrameBytes(f)|)
      <==> 5 + |Stream(Big, ps)| <= 10 * 1024 * 1024
  {
    hide Receive, FrameBytes, Stream;
    var f := Frame(MSG_QUERY, RESP_SUCCESS, PointSection(ps));
    ReceiveFrame(f, rest);
    BodyLength(f);
  }

  /** A write request within the size limit, sent as a message, reaches the parser unchanged; it is parsed as
      written exactly when the ID and the field counts are within their own limits. */
  lemma WriteDelivered(id: seq<byte>, ps: seq<Point>, rest: seq<byte>)
    requires |WriteBody(id, ps)| <= MAX_MESSAGE
    ensures var body := WriteBody(id, ps);
      Messages(Put(Big, |body|, 4) + [1] + body + rest) == [Message(MSG_WRITE, body)] + Messages(rest)
    ensures ParseWrite(WriteBody(id, ps)) == Parsed(id, ps) <==> |id| <= WRITE_ID_LIMIT && AllEncodable(ps)
  {
    hide Receive, WriteBody, ParseWrite, Put, AllEncodable;
    var body := WriteBody(id, ps);
    var b := Put(Big, |body|, 4) + [MSG_WRITE] + body;
    ReceiveExact(b + rest, Message(MSG_WRITE, body));
    assert b <= b + rest && (b + rest)[|b|..] == rest;
    CountBound(id, ps);
    WriteRoundTrip(id, ps);
  }

  lemma CountBound(id: seq<byte>, ps: seq<Point>)
    ensures |WriteBody(id, ps)| >= |ps|
  {
    StreamLength(ps);
  }

  lemma {:induction false} StreamLength(ps: seq<Point>)
    ensures |Stream(Big, ps)| >= 10 * |ps|
  {
    hide Record;
    if ps != [] {
      StreamLength(ps[1..]);
    }
  }
}
