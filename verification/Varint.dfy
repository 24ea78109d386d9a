/** Base 128 varints over 64-bit values. */
module Varint {
  import opened Bytes

  /** Seven bits a byte, low bits first, the top bit set on all but the last byte. */
  function Groups(u: nat): (b: seq<byte>)
    ensures b != []
  {
    if u < 0x80 then [u] else [0x80 + u % 0x80] + Groups(u / 0x80)
  }

  function Encoded(x: int64): seq<byte> {
    Groups(U64(x))
  }

  function Pow128(n: nat): (p: nat)
    ensures p > 0
  {
    if n == 0 then 1 else 0x80 * Pow128(n - 1)
  }

  /** The values that 64 bits leave room for from byte i on. */
  function Room(i: nat): nat
    requires i <= 9
    decreases 9 - i
  {
    if i == 9 then 2 else 0x80 * Room(i + 1)
  }

  /** What the bytes from position i on contribute, in units of that position; the tenth byte counts with
      its lowest bit only, and input that stops early contributes what it has. */
  function Value(b: seq<byte>, i: nat): (v: nat)
    requires i <= 9
    ensures v < Room(i)
    decreases 9 - i
  {
    if b == [] then (RoomPositive(i); 0)
    else if i == 9 then b[0] % 2
    else if b[0] < 0x80 then (RoomPositive(i + 1); b[0])
    else (b[0] - 0x80) + 0x80 * Value(b[1..], i + 1)
  }

  lemma RoomPositive(i: nat)
    requires i <= 9
    ensures Room(i) > 0
    decreases 9 - i
  {
    if i < 9 {
      RoomPositive(i + 1);
    }
  }

  lemma RoomIs64Bits()
    ensures Room(0) == TWO_64
  {
    assert Room(6) == 0x80 * 0x80 * 0x80 * Room(9);
    assert Room(3) == 0x80 * 0x80 * 0x80 * Room(6);
    assert Room(0) == 0x80 * 0x80 * 0x80 * Room(3);
  }

  function Decoded(b: seq<byte>): int64 {
    RoomIs64Bits();
    I64(Value(b, 0))
  }

  // ----- round trip, length, prefix freedom

  lemma {:induction false} ValueOfGroups(u: nat, i: nat, rest: seq<byte>)
    requires i <= 9 && u < Room(i)
    ensures Value(Groups(u) + rest, i) == u
    decreases 9 - i
  {
    if u >= 0x80 {
      assert (Groups(u) + rest)[1..] == Groups(u / 0x80) + rest;
      ValueOfGroups(u / 0x80, i + 1, rest);
    }
  }

  /** The number that seven-bit groups denote, up to the first byte with a clear top bit or the tenth. */
  function Denoted(b: seq<byte>, i: nat): nat
    requires i <= 9
    decreases 9 - i
  {
    if b == [] then 0
    else if i == 9 || b[0] < 0x80 then b[0]
    else (b[0] - 0x80) + 0x80 * Denoted(b[1..], i + 1)
  }

  lemma {:induction false} ValueIsDenoted(b: seq<byte>, i: nat)
    requires i <= 9
    ensures Room(i) > 0 && Value(b, i) == Denoted(b, i) % Room(i)
    decreases 9 - i
  {
    hide Room, Value, Denoted;
    RoomStep(i);
    GroupTurn(b, i);
    if b == [] {
      Quotient(0, Room(i), 0, 0);
    } else if i < 9 {
      RoomStep(i + 1);
      if b[0] >= 0x80 {
        ValueIsDenoted(b[1..], i + 1);
        GroupCut(b[0] - 0x80, Denoted(b[1..], i + 1), Room(i + 1));
      } else {
        Quotient(b[0], Room(i), 0, b[0]);
      }
    }
  }

  lemma GroupTurn(b: seq<byte>, i: nat)
    requires i <= 9
    ensures Value(b, i) ==
      if b == [] then 0
      else if i == 9 then b[0] % 2
      else if b[0] < 0x80 then b[0]
      else (b[0] - 0x80) + 0x80 * Value(b[1..], i + 1)
    ensures Denoted(b, i) ==
      if b == [] then 0
      else if i == 9 || b[0] < 0x80 then b[0]
      else (b[0] - 0x80) + 0x80 * Denoted(b[1..], i + 1)
  {
  }

  lemma RoomStep(i: nat)
    requires i <= 9
    ensures Room(i) > 0 && Room(9) == 2
    ensures i < 9 ==> Room(i) == 0x80 * Room(i + 1)
  {
    RoomPositive(i);
  }

  lemma GroupCut(low: nat, n: nat, m: nat)
    requires low < 0x80 && m > 0
    ensures (low + 0x80 * n) % (0x80 * m) == low + 0x80 * (n % m)
  {
    LowGroups(low + 0x80 * n, m);
    Quotient(low + 0x80 * n, 0x80, n, low);
  }

  /** Of any bytes the decoder gives the number they denote, cut to 64 bits. */
  lemma DecodedDenoted(b: seq<byte>)
    ensures U64(Decoded(b)) == Denoted(b, 0) % TWO_64
  {
    hide Value, Denoted, Room;
    RoomIs64Bits();
    ValueIsDenoted(b, 0);
  }

  /** 300 in the encoding of Protocol Buffers. */
  lemma ThreeHundred()
    ensures Encoded(300) == [0xAC, 0x02]
  {
    assert Groups(2) == [2];
  }

  /** Every int64 decodes to itself, whatever bytes come after its own. */
  lemma VarintReads(x: int64, rest: seq<byte>)
    ensures Decoded(Encoded(x) + rest) == x
  {
    hide Groups, Value, Room;
    RoomIs64Bits();
    ValueOfGroups(U64(x), 0, rest);
  }

  /** Every int64 decodes to itself. */
  lemma VarintRoundTrip(x: int64)
    ensures Decoded(Encoded(x)) == x
  {
    hide Encoded, Decoded;
    VarintReads(x, []);
    assert Encoded(x) + [] == Encoded(x);
  }

  /** The length is the least number of seven-bit groups that holds the value. */
  lemma {:induction false} GroupsLength(u: nat, n: nat)
    requires n > 0
    ensures |Groups(u)| <= n <==> u < Pow128(n)
  {
    if u < 0x80 {
      assert Pow128(n) == 0x80 * Pow128(n - 1) >= 0x80;
    } else if n == 1 {
      assert Pow128(1) == 0x80 * Pow128(0);
    } else {
      GroupsLength(u / 0x80, n - 1);
      assert u / 0x80 < Pow128(n - 1) <==> u < 0x80 * Pow128(n - 1);
    }
  }

  lemma Pow128Values()
    ensures Pow128(7) == 0x2_0000_0000_0000 && Pow128(8) == 0x100_0000_0000_0000
    ensures Pow128(9) == TWO_63 && Pow128(10) > TWO_64
  {
    assert Pow128(3) == 0x80 * 0x80 * 0x80 * Pow128(0);
    assert Pow128(6) == 0x80 * 0x80 * 0x80 * Pow128(3);
    assert Pow128(9) == 0x80 * 0x80 * 0x80 * Pow128(6);
  }

  /** Every encoding takes one to ten bytes, as few as its value allows, so its length fits four bits. */
  lemma VarintLength(x: int64)
    ensures 1 <= |Encoded(x)| <= 10
    ensures forall n :: 0 < n < |Encoded(x)| ==> U64(x) >= Pow128(n)
    ensures U64(x) < Pow128(|Encoded(x)|)
  {
    Pow128Values();
    GroupsLength(U64(x), 10);
    GroupsLength(U64(x), |Encoded(x)|);
    forall n | 0 < n < |Encoded(x)|
      ensures U64(x) >= Pow128(n)
    {
      GroupsLength(U64(x), n);
    }
  }

  lemma {:induction false} GroupsPrefixFree(u: nat, v: nat)
    requires Groups(u) <= Groups(v)
    ensures u == v
  {
    assert Groups(u)[0] == Groups(v)[0];
    if u >= 0x80 {
      assert Groups(u)[1..] == Groups(u / 0x80) && Groups(v)[1..] == Groups(v / 0x80);
      assert Groups(u)[1..] <= Groups(v)[1..];
      GroupsPrefixFree(u / 0x80, v / 0x80);
    }
  }

  /** No encoding is a prefix of another's. */
  lemma VarintPrefixFree(x: int64, y: int64)
    ensures Encoded(x) <= Encoded(y) <==> x == y
  {
    if Encoded(x) <= Encoded(y) {
      GroupsPrefixFree(U64(x), U64(y));
      assert I64(U64(x)) == x && I64(U64(y)) == y;
    }
  }

  // ----- reading a varint at the wrong place

  /** A slice of k bytes cannot decode to more than k groups hold. */
  lemma {:induction false} ValueBound(b: seq<byte>, i: nat)
    requires i + |b| <= 9
    ensures Value(b, i) < Pow128(|b|)
    decreases |b|
  {
    if b != [] && b[0] >= 0x80 {
      ValueBound(b[1..], i + 1);
    } else if b != [] {
      assert Pow128(|b|) >= 0x80 * Pow128(|b| - 1) >= 0x80;
    }
  }

  /** The first k bytes of a longer encoding denote the value's low groups. */
  lemma {:induction false} ValueOfPrefix(u: nat, k: nat, i: nat)
    requires k < |Groups(u)| && i + k <= 9
    ensures Value(Groups(u)[..k], i) == u % Pow128(k)
    decreases k
  {
    if k > 0 {
      var m := Pow128(k - 1);
      var b := Groups(u)[..k];
      assert b[1..] == Groups(u / 0x80)[..k - 1];
      ValueOfPrefix(u / 0x80, k - 1, i + 1);
      LowGroups(u, m);
      assert u % 1 == 0;
    }
  }

  lemma LowGroups(u: nat, m: nat)
    requires m > 0
    ensures u % (0x80 * m) == u % 0x80 + 0x80 * ((u / 0x80) % m)
  {
    var h := u / 0x80;
    var q, r := h / m, h % m;
    assert u == (0x80 * m) * q + (0x80 * r + u % 0x80);
    Quotient(u, 0x80 * m, q, 0x80 * r + u % 0x80);
  }

  /** All bytes of an encoding but the last have their top bit set. */
  lemma {:induction false} TopBits(u: nat, j: nat)
    requires j < |Groups(u)|
    ensures Groups(u)[j] >= 0x80 <==> j + 1 < |Groups(u)|
  {
    if u >= 0x80 {
      assert Groups(u)[1..] == Groups(u / 0x80);
      if j > 0 {
        TopBits(u / 0x80, j - 1);
      }
    }
  }

  /** An encoding without its first byte encodes the value shifted by one group. */
  lemma GroupsTail(u: nat)
    requires |Groups(u)| > 1
    ensures Groups(u)[1..] == Groups(u / 0x80)
  {
  }

  // ----- the loops

  /** encodeVarint. */
  method EncodeVarint(x: int64) returns (buf: seq<byte>)
    ensures buf == Encoded(x)
  {
    var ux: nat := U64(x);
    buf := [];
    while ux >= 0x80
      invariant buf + Groups(ux) == Encoded(x)
    {
      buf := buf + [0x80 + ux % 0x80];
      ux := ux / 0x80;
    }
    buf := buf + [ux];
  }

  /** The first i bytes of data have contributed x, and what follows counts `scale` times. */
  ghost predicate Contributed(data: seq<byte>, i: nat, x: nat, scale: nat) {
    && i <= 9 && i <= |data| && scale == Pow128(i) && x < scale
    && Value(data, 0) == x + scale * Value(data[i..], i)
  }

  /** decodeVarint; `scale` is 1 << s. The bits that |= sets are clear, since x < scale, so it adds. */
  method DecodeVarint(data: seq<byte>) returns (v: int64)
    ensures v == Decoded(data)
  {
    hide Value, Pow128, Room, Contributed;
    var x: nat := 0;
    var scale: nat := 1;
    var i: nat := 0;
    RoomIs64Bits();
    NothingContributed(data);
    while i < |data|
      invariant i <= 9 && i <= |data|
      invariant Contributed(data, i, x, scale)
      decreases |data| - i
    {
      var b := data[i];
      if i == 9 {
        LastByte(data, x, scale);
        return I64(x + (b * scale) % TWO_64);
      }
      if b < 0x80 {
        FinalByte(data, i, x, scale);
        return I64(x + b * scale);
      }
      OneMoreByte(data, i, x, scale);
      x := x + (b - 0x80) * scale;
      scale := scale * 0x80;
      i := i + 1;
    }
    AllContributed(data, x, scale);
    v := I64(x);
  }

  lemma NothingContributed(data: seq<byte>)
    ensures Contributed(data, 0, 0, 1)
  {
    hide Value;
    assert data[0..] == data;
    ScaleStart();
  }

  lemma LastByte(data: seq<byte>, x: nat, scale: nat)
    requires Contributed(data, 9, x, scale) && |data| > 9
    ensures x + (data[9] * scale) % TWO_64 == Value(data, 0)
  {
    hide Value, Pow128;
    ValueStep(data, 9);
    TopBit(data[9]);
  }

  lemma FinalByte(data: seq<byte>, i: nat, x: nat, scale: nat)
    requires Contributed(data, i, x, scale) && i < 9 && i < |data| && data[i] < 0x80
    ensures x + data[i] * scale == Value(data, 0)
  {
    hide Value, Pow128;
    ValueStep(data, i);
  }

  lemma OneMoreByte(data: seq<byte>, i: nat, x: nat, scale: nat)
    requires Contributed(data, i, x, scale) && i < 9 && i < |data| && data[i] >= 0x80
    ensures x + (data[i] - 0x80) * scale >= 0
    ensures Contributed(data, i + 1, x + (data[i] - 0x80) * scale, scale * 0x80)
  {
    hide Value, Pow128;
    ValueStep(data, i);
    Regroup(Value(data, 0), x, scale, data[i] - 0x80, Value(data[i + 1..], i + 1));
    PowStep(i);
  }

  /** Moving one group from what follows to what has contributed. */
  lemma Regroup(total: nat, x: nat, scale: nat, b: nat, v: nat)
    requires total == x + scale * (b + 0x80 * v) && x < scale && b < 0x80
    ensures x + b * scale >= 0 && x + b * scale < scale * 0x80
    ensures total == (x + b * scale) + (scale * 0x80) * v
  {
    ScaleStep(scale, b, v);
  }

  lemma AllContributed(data: seq<byte>, x: nat, scale: nat)
    requires |data| <= 9 && Contributed(data, |data|, x, scale)
    ensures Value(data, 0) == x
  {
    hide Value, Pow128;
    ValueEnd(|data|);
    assert data[|data|..] == [];
  }

  lemma ScaleStart()
    ensures Pow128(0) == 1
  {
  }

  lemma PowStep(i: nat)
    ensures Pow128(i + 1) == Pow128(i) * 0x80
  {
  }

  lemma ValueEnd(i: nat)
    requires i <= 9
    ensures Value([], i) == 0
  {
  }

  lemma ValueStep(data: seq<byte>, i: nat)
    requires i < |data| && i <= 9
    ensures Value(data[i..], i) ==
      if i == 9 then data[i] % 2
      else if data[i] < 0x80 then data[i]
      else (data[i] - 0x80) + 0x80 * Value(data[i + 1..], i + 1)
  {
    assert data[i..][0] == data[i] && data[i..][1..] == data[i + 1..];
  }

  /** At the tenth byte the shift leaves only the lowest bit. */
  lemma TopBit(b: byte)
    ensures Pow128(9) == TWO_63 && (b * TWO_63) % TWO_64 == TWO_63 * (b % 2)
  {
    Pow128Values();
    var q, r := b / 2, b % 2;
    assert b * TWO_63 == q * TWO_64 + r * TWO_63;
  }

  lemma ScaleStep(scale: nat, b: nat, v: nat)
    ensures scale * (b + 0x80 * v) == b * scale + (scale * 0x80) * v
    ensures b * scale >= 0
    ensures b < 0x80 ==> b * scale + scale <= scale * 0x80
  {
    var w := 0x80 * v;
    assert scale * (b + w) == scale * b + scale * w;
    assert scale * w == (scale * 0x80) * v;
    if b < 0x80 {
      assert (b + 1) * scale <= 0x80 * scale;
    }
  }
}
