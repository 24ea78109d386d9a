/** The index file: 36-byte entries, the older 32-byte form, and the size guess that tells them apart. */
module IndexFile {
  import opened Bytes

  datatype IndexEntry = IndexEntry(start: int64, end: int64, offset: int64, length: int64, crc: u32)

  /** The four times and positions that both forms share. */
  function LegacyBytes(x: IndexEntry): (b: seq<byte>)
    ensures |b| == 32
  {
    Put(Little, U64(x.start), 8) + Put(Little, U64(x.end), 8)
    + Put(Little, U64(x.offset), 8) + Put(Little, U64(x.length), 8)
  }

  /** The 36 bytes that a flush appends. */
  function EntryBytes(x: IndexEntry): (b: seq<byte>)
    ensures |b| == 36
  {
    LegacyBytes(x) + Put(Little, x.crc, 4)
  }

  function EntriesBytes(xs: seq<IndexEntry>): (b: seq<byte>)
    ensures |b| == 36 * |xs|
  {
    if xs == [] then [] else EntryBytes(xs[0]) + EntriesBytes(xs[1..])
  }

  function LegacyEntriesBytes(xs: seq<IndexEntry>): (b: seq<byte>)
    ensures |b| == 32 * |xs|
  {
    if xs == [] then [] else LegacyBytes(xs[0]) + LegacyEntriesBytes(xs[1..])
  }

  /** The guess that readIndex makes from the file length alone. */
  function GuessedSize(length: nat): nat {
    if length % 32 == 0 && length % 36 != 0 then 32 else 36
  }

  function ReadEntry(d: seq<byte>, size: nat): (x: IndexEntry)
    requires size == 32 || size == 36
    requires |d| >= size
    ensures size == 32 ==> x.crc == 0
  {
    IndexEntry(I64(Get64(Little, d[..8])), I64(Get64(Little, d[8..16])), I64(Get64(Little, d[16..24])),
               I64(Get64(Little, d[24..32])), if size == 36 then Get32(Little, d[32..36]) else 0)
  }

  function ReadEntries(d: seq<byte>, size: nat): (xs: seq<IndexEntry>)
    requires size == 32 || size == 36
    ensures |xs| == |d| / size
    decreases |d|
  {
    if |d| < size then [] else [ReadEntry(d, size)] + ReadEntries(d[size..], size)
  }

  function ReadIndex(d: seq<byte>): seq<IndexEntry> {
    ReadEntries(d, GuessedSize(|d|))
  }

  lemma EntryFields(x: IndexEntry, rest: seq<byte>)
    ensures var d := EntryBytes(x) + rest;
      d[..8] == Put(Little, U64(x.start), 8) && d[8..16] == Put(Little, U64(x.end), 8) &&
      d[16..24] == Put(Little, U64(x.offset), 8) && d[24..32] == Put(Little, U64(x.length), 8) &&
      d[32..36] == Put(Little, x.crc, 4) && d[36..] == rest && d[..32] == LegacyBytes(x)
  {
    hide Put;
  }

  lemma ReadsEntry(x: IndexEntry, rest: seq<byte>)
    ensures ReadEntry(EntryBytes(x) + rest, 36) == x
    ensures ReadEntry(LegacyBytes(x) + rest, 32) == x.(crc := 0)
  {
    hide Put, Get, Get32, Get64, EntryBytes, LegacyBytes;
    EntryFields(x, rest);
    ReadsFields(x);
    var d, l := EntryBytes(x) + rest, LegacyBytes(x) + rest;
    assert l[..8] == l[..32][..8] == d[..32][..8] == d[..8];
    assert l[8..16] == l[..32][8..16] == d[..32][8..16] == d[8..16];
    assert l[16..24] == l[..32][16..24] == d[..32][16..24] == d[16..24];
    assert l[24..32] == l[..32][24..32] == d[..32][24..32] == d[24..32];
  }

  lemma ReadsFields(x: IndexEntry)
    ensures I64(Get64(Little, Put(Little, U64(x.start), 8))) == x.start
    ensures I64(Get64(Little, Put(Little, U64(x.end), 8))) == x.end
    ensures I64(Get64(Little, Put(Little, U64(x.offset), 8))) == x.offset
    ensures I64(Get64(Little, Put(Little, U64(x.length), 8))) == x.length
    ensures Get32(Little, Put(Little, x.crc, 4)) == x.crc
  {
    hide Put, Get, Get32, Get64;
    Reads64(Little, U64(x.start));
    Reads64(Little, U64(x.end));
    Reads64(Little, U64(x.offset));
    Reads64(Little, U64(x.length));
    Reads32(Little, x.crc);
  }

  /** The entry's layout: start, end, offset and length in eight bytes each, then the checksum in four; the
      legacy form ends before the checksum. */
  lemma EntryLayout(x: IndexEntry)
    ensures var b := EntryBytes(x);
      && b[..8] == Put(Little, U64(x.start), 8) && b[8..16] == Put(Little, U64(x.end), 8)
      && b[16..24] == Put(Little, U64(x.offset), 8) && b[24..32] == Put(Little, U64(x.length), 8)
      && b[32..] == Put(Little, x.crc, 4) && LegacyBytes(x) == b[..32]
  {
    EntryFields(x, []);
    assert EntryBytes(x) + [] == EntryBytes(x);
  }

  lemma {:induction false} ReadsEntries(xs: seq<IndexEntry>, torn: seq<byte>)
    requires |torn| < 36
    ensures ReadEntries(EntriesBytes(xs) + torn, 36) == xs
  {
    hide ReadEntry, EntryBytes;
    if xs == [] {
      assert EntriesBytes(xs) + torn == torn;
    } else {
      var rest := EntriesBytes(xs[1..]) + torn;
      assert EntriesBytes(xs) + torn == EntryBytes(xs[0]) + rest;
      ReadsEntry(xs[0], rest);
      assert (EntryBytes(xs[0]) + rest)[36..] == rest;
      ReadsEntries(xs[1..], torn);
    }
  }

  lemma {:induction false} ReadsLegacyEntries(xs: seq<IndexEntry>)
    requires forall i :: 0 <= i < |xs| ==> xs[i].crc == 0
    ensures ReadEntries(LegacyEntriesBytes(xs), 32) == xs
  {
    hide ReadEntry, LegacyBytes;
    if xs != [] {
      var rest := LegacyEntriesBytes(xs[1..]);
      ReadsEntry(xs[0], rest);
      assert LegacyEntriesBytes(xs)[32..] == rest;
      ReadsLegacyEntries(xs[1..]);
    }
  }

  /** Any number of whole entries reads back as written. */
  lemma IndexRoundTrip(xs: seq<IndexEntry>)
    ensures ReadIndex(EntriesBytes(xs)) == xs
  {
    assert EntriesBytes(xs) + [] == EntriesBytes(xs);
    ReadsEntries(xs, []);
  }

  /** A file whose last append was cut short yields its whole entries exactly when its length does not
      look like a legacy file's. */
  lemma TornIndexExact(xs: seq<IndexEntry>, torn: seq<byte>)
    requires |torn| < 36
    ensures var d := EntriesBytes(xs) + torn;
      ReadIndex(d) == xs <==> !(|d| % 32 == 0 && |d| % 36 != 0)
  {
    ReadsEntries(xs, torn);
  }

  /** Entries appended behind a torn one are read as if the tear were not there. All entries come back exactly
      when the length does not look like a legacy file's and the later ones repeat the torn bytes. */
  lemma AppendedBehindTear(xs: seq<IndexEntry>, torn: seq<byte>, ys: seq<IndexEntry>)
    requires 0 < |torn| < 36
    ensures var d := EntriesBytes(xs) + torn + EntriesBytes(ys);
      ReadIndex(d) == xs + ys <==>
        !(|d| % 32 == 0 && |d| % 36 != 0) && EntriesBytes(ys) <= torn + EntriesBytes(ys)
  {
    hide EntriesBytes, ReadEntries;
    EntriesConcat(xs, ys);
    var d := EntriesBytes(xs) + torn + EntriesBytes(ys);
    if GuessedSize(|d|) == 32 {
      LegacyGuessMiscounts(d, |xs + ys|);
    } else {
      WholeEntriesExact(d, xs + ys);
      PrefixBehind(EntriesBytes(xs), torn, EntriesBytes(ys), []);
      assert d + [] == d;
    }
  }

  lemma LegacyGuessMiscounts(d: seq<byte>, n: nat)
    requires |d| > 36 * n && GuessedSize(|d|) == 32
    ensures |ReadIndex(d)| != n
  {
    hide ReadEntries;
    assert |d| == 32 * (|d| / 32);
  }

  /** Bytes read as these 36-byte entries exactly when they start with their encoding and less than one entry
      is left. */
  lemma {:induction false} WholeEntriesExact(d: seq<byte>, xs: seq<IndexEntry>)
    ensures ReadEntries(d, 36) == xs <==> EntriesBytes(xs) <= d && |d| - 36 * |xs| < 36
    decreases |xs|
  {
    hide EntryBytes, ReadEntry;
    if EntriesBytes(xs) <= d && |d| - 36 * |xs| < 36 {
      var torn := d[36 * |xs|..];
      assert d == EntriesBytes(xs) + torn;
      ReadsEntries(xs, torn);
    }
    if ReadEntries(d, 36) == xs {
      EntriesAreTheirs(d);
    }
  }

  /** The bytes that entries were read from are the entries' encoding. */
  lemma {:induction false} EntriesAreTheirs(d: seq<byte>)
    ensures EntriesBytes(ReadEntries(d, 36)) <= d && |d| - 36 * |ReadEntries(d, 36)| < 36
    decreases |d|
  {
    hide EntryBytes, ReadEntry;
    if |d| >= 36 {
      EntryIsItsBytes(d);
      EntriesAreTheirs(d[36..]);
      var xs := ReadEntries(d, 36);
      assert xs[1..] == ReadEntries(d[36..], 36);
      var rest := EntriesBytes(xs[1..]);
      assert d == d[..36] + d[36..];
      assert EntriesBytes(xs) == d[..36] + rest;
      assert d[36..][..|rest|] == rest && d[..36 + |rest|] == d[..36] + d[36..][..|rest|];
    }
  }

  lemma EntryIsItsBytes(d: seq<byte>)
    requires |d| >= 36
    ensures EntryBytes(ReadEntry(d, 36)) == d[..36]
  {
    hide Put, Get;
    assert d[..36] == d[..8] + d[8..16] + d[16..24] + d[24..32] + d[32..36];
  }

  // ----- an index file with torn entries in it

  /** The entries xs with what torn appends left before each of them, and behind the last. */
  function Ragged(xs: seq<IndexEntry>, scraps: seq<seq<byte>>): seq<byte>
    requires |scraps| == |xs| + 1
  {
    var n := |xs|;
    if n == 0 then scraps[0] else Ragged(xs[..n - 1], scraps[..n]) + EntryBytes(xs[n - 1]) + scraps[n]
  }

  /** Scraps, if any, lie only before entry m. */
  predicate ScrapsOnlyAt(scraps: seq<seq<byte>>, m: nat) {
    forall i :: 0 <= i < |scraps| && i != m ==> scraps[i] == []
  }

  lemma {:induction false} OneScrap(xs: seq<IndexEntry>, scraps: seq<seq<byte>>, m: nat)
    requires |scraps| == |xs| + 1 && m <= |xs| && ScrapsOnlyAt(scraps, m)
    ensures Ragged(xs, scraps) == EntriesBytes(xs[..m]) + scraps[m] + EntriesBytes(xs[m..])
    decreases |xs|
  {
    hide EntryBytes, EntriesBytes;
    var n := |xs|;
    if n == 0 {
      assert xs[..m] == [] && xs[m..] == [];
      EntryAlone(IndexEntry(0, 0, 0, 0, 0));
    } else {
      var front, x := xs[..n - 1], xs[n - 1];
      EntryAlone(x);
      if m == n {
        NoScraps(front, scraps[..n]);
        assert xs == front + [x] && xs[..m] == xs && xs[m..] == [];
        EntriesConcat(front, [x]);
      } else {
        OneScrap(front, scraps[..n], m);
        assert xs[m..] == front[m..] + [x] && xs[..m] == front[..m];
        EntriesConcat(front[m..], [x]);
      }
    }
  }

  lemma EntryAlone(x: IndexEntry)
    ensures EntriesBytes([x]) == EntryBytes(x) && EntriesBytes([]) == []
  {
    hide EntryBytes;
    assert [x][1..] == [];
  }

  lemma {:induction false} NoScraps(xs: seq<IndexEntry>, scraps: seq<seq<byte>>)
    requires |scraps| == |xs| + 1 && forall i :: 0 <= i < |scraps| ==> scraps[i] == []
    ensures Ragged(xs, scraps) == EntriesBytes(xs)
    decreases |xs|
  {
    hide EntryBytes;
    var n := |xs|;
    if n > 0 {
      NoScraps(xs[..n - 1], scraps[..n]);
      EntryAlone(xs[n - 1]);
      EntriesConcat(xs[..n - 1], [xs[n - 1]]);
      assert xs == xs[..n - 1] + [xs[n - 1]];
    }
  }

  /** One more entry. */
  lemma RaggedSnoc(xs: seq<IndexEntry>, scraps: seq<seq<byte>>, x: IndexEntry)
    requires |scraps| == |xs| + 1
    ensures Ragged(xs + [x], scraps + [[]]) == Ragged(xs, scraps) + EntryBytes(x)
  {
    hide EntryBytes;
    var ys, more := xs + [x], scraps + [[]];
    assert ys[..|xs|] == xs && more[..|xs| + 1] == scraps;
    assert Ragged(xs, scraps) + EntryBytes(x) + [] == Ragged(xs, scraps) + EntryBytes(x);
  }

  /** More behind the last scrap. */
  function AddScrap(scraps: seq<seq<byte>>, b: seq<byte>): (r: seq<seq<byte>>)
    ensures scraps != [] ==> |r| == |scraps|
    ensures b == [] && scraps != [] ==> r == scraps
  {
    var n := |scraps|;
    if n == 0 then [b]
    else
      var r := scraps[..n - 1] + [scraps[n - 1] + b];
      assert b == [] ==> scraps[n - 1] + b == scraps[n - 1];
      r
  }

  lemma RaggedTorn(xs: seq<IndexEntry>, scraps: seq<seq<byte>>, b: seq<byte>)
    requires |scraps| == |xs| + 1
    ensures Ragged(xs, AddScrap(scraps, b)) == Ragged(xs, scraps) + b
  {
    hide EntryBytes;
    var more := AddScrap(scraps, b);
    var n := |xs|;
    assert more[..n] == scraps[..n] && more[n] == scraps[n] + b;
  }

  // ----- legacy files

  /** A legacy file of n entries reads back exactly when n is 0 or not a multiple of 9. */
  lemma LegacyIndexExact(xs: seq<IndexEntry>)
    requires forall i :: 0 <= i < |xs| ==> xs[i].crc == 0
    ensures ReadIndex(LegacyEntriesBytes(xs)) == xs <==> |xs| == 0 || |xs| % 9 != 0
  {
    hide LegacyEntriesBytes, ReadEntries;
    ReadsLegacyEntries(xs);
    LegacyLength(|xs|);
  }

  lemma LegacyLength(n: nat)
    ensures GuessedSize(32 * n) == 36 <==> n % 9 == 0
    ensures n > 0 && n % 9 == 0 ==> 32 * n / 36 != n
  {
    var q, r := n / 9, n % 9;
    MultipleAdds(36, 8 * q, 32 * r);
    assert 32 * n == 36 * (8 * q) + 32 * r;
    assert r == 0 || r == 1 || r == 2 || r == 3 || r == 4 || r == 5 || r == 6 || r == 7 || r == 8;
    MultipleAdds(32, n, 0);
  }

  lemma {:induction false} EntriesConcat(xs: seq<IndexEntry>, ys: seq<IndexEntry>)
    ensures EntriesBytes(xs + ys) == EntriesBytes(xs) + EntriesBytes(ys)
  {
    hide EntryBytes;
    if xs == [] {
      assert xs + ys == ys;
    } else {
      assert (xs + ys)[1..] == xs[1..] + ys;
      EntriesConcat(xs[1..], ys);
    }
  }

  lemma EntriesStep(d: seq<byte>, i: nat, size: nat)
    requires size == 32 || size == 36
    requires i + size <= |d|
    ensures ReadEntries(d[i..], size) == [ReadEntry(d[i..], size)] + ReadEntries(d[i + size..], size)
  {
    hide ReadEntry;
    assert d[i..][size..] == d[i + size..];
  }

  lemma EntriesEnd(d: seq<byte>, size: nat)
    requires size == 32 || size == 36
    requires |d| < size
    ensures ReadEntries(d, size) == []
  {
  }

  /** readIndex: guesses the entry size, then decodes whole entries front to back. */
  method ReadIndexFile(d: seq<byte>) returns (xs: seq<IndexEntry>)
    ensures xs == ReadIndex(d)
  {
    hide ReadEntry, ReadEntries;
    var size := 36;
    if |d| % 32 == 0 && |d| % 36 != 0 {
      size := 32;
    }
    xs := [];
    var i := 0;
    assert d[0..] == d;
    while i + size <= |d|
      invariant 0 <= i <= |d|
      invariant ReadEntries(d, size) == xs + ReadEntries(d[i..], size)
      decreases |d| - i
    {
      EntriesStep(d, i, size);
      xs := xs + [ReadEntry(d[i..], size)];
      i := i + size;
    }
    EntriesEnd(d[i..], size);
  }
}
