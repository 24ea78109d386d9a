/** Fixed-width integers and their two byte orders. */
module Bytes {

  type byte = b: int | 0 <= b < 256
  type u16 = n: int | 0 <= n < 0x1_0000
  type u32 = n: int | 0 <= n < 0x1_0000_0000
  type u64 = n: int | 0 <= n < 0x1_0000_0000_0000_0000
  type int64 = x: int | -0x8000_0000_0000_0000 <= x < 0x8000_0000_0000_0000

  const TWO_63: int := 0x8000_0000_0000_0000
  const TWO_64: int := 0x1_0000_0000_0000_0000

  datatype Option<+T> = None | Some(value: T)

  // ----- wrapping 64-bit arithmetic

  /** The conversion uint64(x). */
  function U64(x: int64): (u: u64)
    ensures u == x || u == x + TWO_64
  {
    if x < 0 then x + TWO_64 else x
  }

  /** The conversion int64(u). */
  function I64(u: u64): (x: int64)
    ensures U64(x) == u
  {
    if u < TWO_63 then u else u - TWO_64
  }

  /** The int64 that wrapping arithmetic leaves of the exact result x. */
  function Wrap(x: int): (w: int64)
    ensures exists k: int :: w == x + k * TWO_64
    ensures -TWO_63 <= x < TWO_63 ==> w == x
  {
    var k := -(x / TWO_64);
    var w := I64(x % TWO_64);
    assert w == x + k * TWO_64 || w == x + (k - 1) * TWO_64;
    w
  }

  lemma WrapShift(t: int64, k: int)
    ensures Wrap(t + k * TWO_64) == t
  {
    assert (t + k * TWO_64) % TWO_64 == t % TWO_64;
  }

  lemma WrapPeriod(x: int, k: int)
    ensures Wrap(x + k * TWO_64) == Wrap(x)
  {
    assert (x + k * TWO_64) % TWO_64 == x % TWO_64;
  }

  /** Wrapping early changes nothing. */
  lemma WrapAdds(x: int, y: int)
    ensures Wrap(Wrap(x) + y) == Wrap(x + y)
  {
    var k :| Wrap(x) == x + k * TWO_64;
    WrapPeriod(x + y, k);
  }

  /** A wrapped difference, added back with wrapping, restores the minuend. */
  lemma WrapRestores(last: int64, t: int64)
    ensures Wrap(last + Wrap(t - last)) == t
  {
    var w := Wrap(t - last);
    var k :| w == t - last + k * TWO_64;
    WrapShift(t, k);
  }

  /** A wrapped sum, less its first term with wrapping, restores the second. */
  lemma WrapDifference(last: int64, t: int64)
    ensures Wrap(Wrap(last + t) - last) == t
  {
    var w := Wrap(last + t);
    var k :| w == last + t + k * TWO_64;
    WrapShift(t, k);
  }

  /** Numbers less than 2^64 apart wrap to different values. */
  lemma WrapApart(x: int, y: int)
    requires 0 < x - y < TWO_64
    ensures Wrap(x) != Wrap(y)
  {
    var j :| Wrap(x) == x + j * TWO_64;
    var k :| Wrap(y) == y + k * TWO_64;
    assert Wrap(x) == Wrap(y) ==> x - y == (k - j) * TWO_64;
  }

  // ----- quotients and remainders

  lemma MultipleAdds(m: nat, k: nat, r: nat)
    requires m > 0
    ensures (m * k + r) % m == r % m && (m * k + r) / m == k + r / m
  {
    var x, q := m * k + r, r / m;
    assert x == m * (k + q) + r % m;
    Quotient(x, m, k + q, r % m);
  }

  lemma Quotient(x: nat, m: int, q: nat, r: nat)
    requires m > 0 && x == m * q + r && r < m
    ensures x / m == q && x % m == r
  {
    var d := x / m - q;
    assert m * d == r - x % m;
    assert d != 0 ==> m * d >= m || m * d <= -m;
  }

  // ----- byte orders

  datatype Order = Little | Big

  /** 256 to the power w. */
  function Pow256(w: nat): (p: nat)
    ensures p > 0
  {
    if w == 0 then 1 else 256 * Pow256(w - 1)
  }

  /** The low w bytes of n in order o. */
  function Put(o: Order, n: nat, w: nat): (b: seq<byte>)
    ensures |b| == w
  {
    if w == 0 then []
    else if o.Little? then [n % 256] + Put(o, n / 256, w - 1)
    else Put(o, n / 256, w - 1) + [n % 256]
  }

  /** The number that the bytes b denote in order o. */
  function Get(o: Order, b: seq<byte>): (n: nat)
    ensures n < Pow256(|b|)
  {
    if b == [] then 0
    else if o.Little? then b[0] + 256 * Get(o, b[1..])
    else 256 * Get(o, b[..|b| - 1]) + b[|b| - 1]
  }

  lemma {:induction false} GetPut(o: Order, n: nat, w: nat)
    requires n < Pow256(w)
    ensures Get(o, Put(o, n, w)) == n
  {
    if w > 0 {
      GetPut(o, n / 256, w - 1);
      var b := Put(o, n, w);
      if o.Little? { assert b[1..] == Put(o, n / 256, w - 1); }
      else { assert b[..w - 1] == Put(o, n / 256, w - 1); }
    }
  }

  lemma {:induction false} PutGet(o: Order, b: seq<byte>)
    ensures Put(o, Get(o, b), |b|) == b
  {
    hide Put, Get;
    if b != [] {
      GetStep(o, b);
      var k := |b| - 1;
      if o.Little? {
        PutGet(o, b[1..]);
        PutBack(o, Get(o, b[1..]), b[0], k);
        assert b == [b[0]] + b[1..];
      } else {
        PutGet(o, b[..k]);
        PutBack(o, Get(o, b[..k]), b[k], k);
        assert b == b[..k] + [b[k]];
      }
    }
  }

  lemma PutBack(o: Order, n: nat, low: byte, w: nat)
    ensures Put(o, 256 * n + low, w + 1) == if o.Little? then [low] + Put(o, n, w) else Put(o, n, w) + [low]
  {
    hide Put;
    PutStep(o, 256 * n + low, w + 1);
    Quotient(256 * n + low, 256, n, low);
  }

  lemma GetStep(o: Order, b: seq<byte>)
    requires b != []
    ensures Get(o, b) == if o.Little? then 256 * Get(o, b[1..]) + b[0] else 256 * Get(o, b[..|b| - 1]) + b[|b| - 1]
  {
  }

  /** In little-endian order what comes behind counts in units of the bytes before. */
  lemma {:induction false} GetConcat(x: seq<byte>, y: seq<byte>)
    ensures Get(Little, x + y) == Get(Little, x) + Pow256(|x|) * Get(Little, y)
  {
    hide Get;
    if x == [] {
      assert x + y == y;
      GetNothing();
    } else {
      GetStep(Little, x + y);
      GetStep(Little, x);
      assert (x + y)[1..] == x[1..] + y;
      GetConcat(x[1..], y);
      Regroups(Pow256(|x| - 1), Get(Little, y));
    }
  }

  lemma GetNothing()
    ensures Get(Little, []) == 0
  {
  }

  lemma Regroups(p: nat, n: nat)
    ensures 256 * (p * n) == (256 * p) * n
  {
  }

  lemma PutStep(o: Order, n: nat, w: nat)
    requires w > 0
    ensures Put(o, n, w) == if o.Little? then [n % 256] + Put(o, n / 256, w - 1) else Put(o, n / 256, w - 1) + [n % 256]
  {
  }

  /** In little-endian order byte i counts 256 to the power i. */
  lemma {:induction false} LittleByte(n: nat, w: nat, i: nat)
    requires i < w
    ensures Put(Little, n, w)[i] == n / Pow256(i) % 256
  {
    PutStep(Little, n, w);
    if i == 0 {
      assert n / 1 == n;
    } else {
      hide Put;
      LittleByte(n / 256, w - 1, i - 1);
      DivTwice(n, Pow256(i - 1));
    }
  }

  lemma DivTwice(n: nat, p: nat)
    requires p > 0
    ensures n / 256 / p == n / (256 * p)
  {
    var h := n / 256;
    var q, r := h / p, h % p;
    assert n == (256 * p) * q + (256 * r + n % 256);
    Quotient(n, 256 * p, q, 256 * r + n % 256);
  }

  /** Big-endian bytes are the little-endian ones back to front. */
  lemma {:induction false} BigByte(n: nat, w: nat, i: nat)
    requires i < w
    ensures Put(Big, n, w)[i] == Put(Little, n, w)[w - 1 - i]
  {
    hide Put;
    PutStep(Little, n, w);
    PutStep(Big, n, w);
    if i < w - 1 {
      BigByte(n / 256, w - 1, i);
    }
  }

  /** What stands behind a common front is compared on its own. */
  lemma PrefixBehind(a: seq<byte>, c: seq<byte>, b: seq<byte>, tail: seq<byte>)
    ensures a + b <= a + c + b + tail <==> b <= c + b
  {
    var d := a + c + b + tail;
    assert d[|a|..] == c + b + tail && d[|a|..][..|b|] == (c + b)[..|b|];
    assert d[..|a| + |b|] == a + d[|a|..][..|b|];
    assert (a + b)[|a|..] == b;
  }

  function Zeros(k: nat): (b: seq<byte>)
    ensures |b| == k
  {
    if k == 0 then [] else [0] + Zeros(k - 1)
  }

  /** In little-endian order a number that fits is padded with zeros behind. */
  lemma {:induction false} PutPads(n: nat, w: nat, k: nat)
    requires n < Pow256(w)
    ensures Put(Little, n, w + k) == Put(Little, n, w) + Zeros(k)
    decreases w, k
  {
    if w > 0 {
      PutPads(n / 256, w - 1, k);
    } else if k > 0 {
      PutPads(0, 0, k - 1);
    }
  }

  lemma Pow256Values()
    ensures Pow256(2) == 0x1_0000 && Pow256(4) == 0x1_0000_0000 && Pow256(8) == TWO_64
  {
    assert Pow256(4) == 256 * 256 * Pow256(2);
    assert Pow256(8) == 256 * 256 * 256 * 256 * Pow256(4);
  }

  function Get16(o: Order, b: seq<byte>): (n: u16)
    requires |b| == 2
    ensures Put(o, n, 2) == b
  {
    Pow256Values(); PutGet(o, b); Get(o, b)
  }

  function Get32(o: Order, b: seq<byte>): (n: u32)
    requires |b| == 4
    ensures Put(o, n, 4) == b
  {
    Pow256Values(); PutGet(o, b); Get(o, b)
  }

  function Get64(o: Order, b: seq<byte>): (n: u64)
    requires |b| == 8
    ensures Put(o, n, 8) == b
  {
    Pow256Values(); PutGet(o, b); Get(o, b)
  }

  lemma Reads16(o: Order, n: u16)
    ensures Get16(o, Put(o, n, 2)) == n
  {
    Pow256Values(); GetPut(o, n, 2);
  }

  lemma Reads32(o: Order, n: u32)
    ensures Get32(o, Put(o, n, 4)) == n
  {
    Pow256Values(); GetPut(o, n, 4);
  }

  lemma Reads64(o: Order, n: u64)
    ensures Get64(o, Put(o, n, 8)) == n
  {
    Pow256Values(); GetPut(o, n, 8);
  }

  /** PutUint16, PutUint32 and PutUint64: fills buf[at..at + w] behind what is already there. */
  method PutAt(buf: array<byte>, at: nat, o: Order, n: nat, w: nat)
    requires at + w <= buf.Length
    modifies buf
    ensures buf[..at + w] == old(buf[..at]) + Put(o, n, w)
  {
    var bytes := Put(o, n, w);
    forall j | 0 <= j < w {
      buf[at + j] := bytes[j];
    }
  }
}
