/**
 On-disk formats of a FAT32 volume: little-endian words in a sector, the 28-bit FAT entry
 that shares its word with four reserved bits, and the 32-byte directory entry.
 */
module FatFormat {
  import opened Bytes

  const SECTOR: nat := 512
  type Sector = s: seq<byte> | |s| == SECTOR witness seq(SECTOR, _ => 0)

  const CLUSTER_FREE: nat := 0
  const CLUSTER_BAD: nat := 0x0FFF_FFF7
  const CLUSTER_EOC: nat := 0x0FFF_FFF8
  const ENTRY_MODULUS: nat := 0x1000_0000  // values under CLUSTER_MASK, 28 bits

  // ----- little-endian words -----

  function Le16(s: seq<byte>, o: nat): (v: nat)
    requires o + 2 <= |s|
    ensures v < 0x1_0000
  {
    (s[o] as int) + 0x100 * (s[o + 1] as int)
  }

  function Le32(s: seq<byte>, o: nat): (v: nat)
    requires o + 4 <= |s|
    ensures v < 0x1_0000_0000
  {
    Le16(s, o) + 0x1_0000 * Le16(s, o + 2)
  }

  function Bytes16(v: nat): (b: seq<byte>)
    requires v < 0x1_0000
    ensures |b| == 2
    ensures Le16(b, 0) == v
  {
    [v % 0x100, v / 0x100]
  }

  function Bytes32(v: nat): (b: seq<byte>)
    requires v < 0x1_0000_0000
    ensures |b| == 4
    ensures Le32(b, 0) == v
  {
    var lo, hi := Bytes16(v % 0x1_0000), Bytes16(v / 0x1_0000);
    assert Le16(lo + hi, 0) == Le16(lo, 0) && Le16(lo + hi, 2) == Le16(hi, 0);
    lo + hi
  }

  /** `s` with the bytes from `o` on replaced by `b`: what a memcpy into a buffer leaves. */
  function Splice<T>(s: seq<T>, o: nat, b: seq<T>): (r: seq<T>)
    requires o + |b| <= |s|
    ensures |r| == |s|
    ensures r[o..o + |b|] == b
    ensures forall i :: 0 <= i < o || o + |b| <= i < |s| ==> r[i] == s[i]
  {
    s[..o] + b + s[o + |b|..]
  }

  lemma SliceInside<T>(d: seq<T>, a: nat, b: nat, p: nat, n: nat)
    requires a <= b <= |d| && p + n <= b - a
    ensures d[a..b][p..p + n] == d[a + p..a + p + n]
  {
    var l, r := d[a..b][p..p + n], d[a + p..a + p + n];
    forall i | 0 <= i < n ensures l[i] == r[i] {
    }
  }

  lemma UpdateTwice<T>(s: seq<T>, i: nat, a: T, b: T)
    requires i < |s|
    ensures s[i := a][i := b] == s[i := b]
  {
  }

  lemma SliceConcat<T>(d: seq<T>, o: nat, a: nat, b: nat)
    requires o + a + b <= |d|
    ensures d[o..o + a] + d[o + a..o + a + b] == d[o..o + a + b]
  {
  }

  // ----- runs -----

  /** `n` runs of `k` units, counted up so that the solver meets no product of variables. */
  function Times(n: nat, k: nat): nat {
    if n == 0 then 0 else Times(n - 1, k) + k
  }

  lemma {:induction false} TimesProduct(n: nat, k: nat)
    ensures Times(n, k) == n * k
  {
    if n > 0 {
      TimesProduct(n - 1, k);
      assert n * k == (n - 1) * k + k;
    }
  }

  lemma {:induction false} TimesStep(a: nat, b: nat, k: nat)
    requires a < b
    ensures Times(a, k) + k <= Times(b, k)
  {
    if a + 1 < b {
      TimesStep(a, b - 1, k);
    }
  }

  /** Where byte `a` falls when bytes come in runs of `k`. */
  lemma TimesDivide(a: nat, k: nat)
    requires k > 0
    ensures Times(a / k, k) + a % k == a
    ensures a % k < k
  {
    TimesProduct(a / k, k);
  }

  // ----- FAT entries -----

  /** The 28-bit value of entry `e` of a FAT sector. */
  function EntryAt(s: Sector, e: nat): (v: nat)
    requires e < 128
    ensures v < ENTRY_MODULUS
  {
    Le32(s, 4 * e) % ENTRY_MODULUS
  }

  /** The four reserved bits above the entry's value. */
  function ReservedAt(s: Sector, e: nat): nat
    requires e < 128
  {
    Le32(s, 4 * e) / ENTRY_MODULUS
  }

  /** Stores the low 28 bits of `v` and keeps the reserved bits of the word that is there. */
  function SetEntry(s: Sector, e: nat, v: nat): Sector
    requires e < 128
  {
    var existing := Le32(s, 4 * e);
    Splice(s, 4 * e, Bytes32(existing - existing % ENTRY_MODULUS + v % ENTRY_MODULUS))
  }

  /** Storing one entry changes that entry's value, no other entry, and no reserved bit. */
  lemma SetEntryEffect(s: Sector, e: nat, v: nat, k: nat)
    requires e < 128 && k < 128
    ensures EntryAt(SetEntry(s, e, v), k) == if k == e then v % ENTRY_MODULUS else EntryAt(s, k)
    ensures ReservedAt(SetEntry(s, e, v), k) == ReservedAt(s, k)
  {
    var existing := Le32(s, 4 * e);
    var w := existing - existing % ENTRY_MODULUS + v % ENTRY_MODULUS;
    var t := SetEntry(s, e, v);
    if k == e {
      var b := Bytes32(w);
      assert t[4 * e..4 * e + 4] == b;
      assert forall i | 0 <= i < 4 :: t[4 * e + i] == t[4 * e..4 * e + 4][i] == b[i];
      assert t[4 * e] == b[0] && t[4 * e + 1] == b[1] && t[4 * e + 2] == b[2] && t[4 * e + 3] == b[3];
      assert Le32(t, 4 * e) == w;
    } else {
      assert forall i | 4 * k <= i < 4 * k + 4 :: t[i] == s[i];
    }
  }

  // ----- directory entries -----

  const ENTRY_SIZE: nat := 32
  type RawEntry = e: seq<byte> | |e| == ENTRY_SIZE witness seq(ENTRY_SIZE, _ => 0)
  type RawName = n: seq<byte> | |n| == 11 witness seq(11, _ => 0)

  const SLOT_END: byte := 0x00
  const SLOT_FREE: byte := 0xE5
  const ATTR_VOLUME_ID: byte := 0x08
  const ATTR_DIRECTORY: byte := 0x10
  const ATTR_ARCHIVE: byte := 0x20
  const WRITE_DATE: nat := 22561  // 44 << 9 | 1 << 5 | 1

  function NameOf(e: RawEntry): RawName { e[..11] }

  function FirstCluster(e: RawEntry): (c: nat)
    ensures c < 0x1_0000_0000
  {
    0x1_0000 * Le16(e, 20) + Le16(e, 26)
  }

  function FileSize(e: RawEntry): (n: nat)
    ensures n < 0x1_0000_0000
  {
    Le32(e, 28)
  }

  /** The tests of the directory search that do not depend on the name sought:
      the slot is in use and is neither a volume label nor a long-name fragment. */
  predicate Live(e: RawEntry) {
    e[0] != SLOT_END && e[0] != SLOT_FREE && (e[11] / ATTR_VOLUME_ID) % 2 == 0
  }

  /** An entry with new cluster, size and fixed write stamp; name, attributes and the rest stay. */
  function Restamp(e: RawEntry, first: nat, size: nat): (r: RawEntry)
    requires first < 0x1_0000_0000 && size < 0x1_0000_0000
    ensures r[..20] == e[..20]
    ensures FirstCluster(r) == first && FileSize(r) == size
    ensures Live(r) == Live(e) && NameOf(r) == NameOf(e)
  {
    var hi, lo, sz := Bytes16(first / 0x1_0000), Bytes16(first % 0x1_0000), Bytes32(size);
    var r := e[..20] + hi + Bytes16(0) + Bytes16(WRITE_DATE) + lo + sz;
    assert r[20] == hi[0] && r[21] == hi[1] && r[26] == lo[0] && r[27] == lo[1];
    assert r[28] == sz[0] && r[29] == sz[1] && r[30] == sz[2] && r[31] == sz[3];
    assert forall i | 0 <= i < 20 :: r[i] == e[i];
    r
  }

  function BlankEntry(name: RawName): (r: RawEntry)
    ensures NameOf(r) == name && r[0] == name[0] && r[11] == ATTR_ARCHIVE
  {
    var r := name + [ATTR_ARCHIVE] + seq(4, _ => 0) + Bytes16(WRITE_DATE) + seq(14, _ => 0);
    assert r[..11] == name;
    r
  }

  /** A new archive entry: zeros except name, attribute, creation date and the stamped fields. */
  function NewEntry(name: RawName, first: nat, size: nat): (r: RawEntry)
    requires first < 0x1_0000_0000 && size < 0x1_0000_0000
    ensures NameOf(r) == name
    ensures FirstCluster(r) == first && FileSize(r) == size
    ensures r[0] == name[0] && r[11] == ATTR_ARCHIVE
    ensures Live(r) <==> name[0] != SLOT_END && name[0] != SLOT_FREE
  {
    var r := Restamp(BlankEntry(name), first, size);
    assert r[..20][0] == BlankEntry(name)[..20][0] && r[..20][11] == BlankEntry(name)[..20][11];
    r
  }

  /** A deleted entry: the first name byte becomes the free marker. */
  function Deleted(e: RawEntry): (r: RawEntry)
    ensures !Live(r) && r[0] == SLOT_FREE
    ensures r[1..] == e[1..]
  {
    [SLOT_FREE] + e[1..]
  }
}
