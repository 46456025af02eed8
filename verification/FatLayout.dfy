/**
 The volume read byte by byte from its sectors, the way the sections "FAT Data Structure" and "FAT Directory
 Structure" of the FAT32 specification lay it out, and the proof that the files the operations speak of are
 exactly those such a reader finds.
 */
module FatLayout {
  import opened Bytes
  import opened FatFormat
  import opened FatChains
  import opened FatDisk
  import opened FatNames
  import opened FatVolume

  // ----- the layout -----

  /** Byte `o` of sector `n`; -1 outside of the drive. */
  function SectorByte(sectors: seq<Sector>, n: nat, o: nat): int
    requires o < 512
  {
    if n < |sectors| then sectors[n][o] else -1
  }

  /** Byte `o` of cluster `c`: the data area follows the last FAT and starts with cluster 2. */
  function ClusterByte(g: Geometry, sectors: seq<Sector>, c: nat, o: nat): int
    requires c >= 2
  {
    SectorByte(sectors, g.fatLba + g.numFats * g.sectorsPerFat + (c - 2) * g.sectorsPerCluster + o / 512, o % 512)
  }

  /** Entry `c` of FAT number `k`: the low 28 bits of four bytes, the lowest first. */
  function FatWord(g: Geometry, sectors: seq<Sector>, k: nat, c: nat): int {
    var n, o := g.fatLba + k * g.sectorsPerFat + 4 * c / 512, 4 * c % 512;
    (SectorByte(sectors, n, o) + 0x100 * SectorByte(sectors, n, o + 1)
     + 0x1_0000 * SectorByte(sectors, n, o + 2) + 0x100_0000 * SectorByte(sectors, n, o + 3)) % 0x1000_0000
  }

  /** The clusters of a chain, each entry of the first FAT naming the next and the last one ending it. */
  predicate Linked(g: Geometry, sectors: seq<Sector>, ch: seq<nat>) {
    && |ch| > 0
    && (forall i :: 0 <= i < |ch| ==> 2 <= ch[i] < 128 * g.sectorsPerFat)
    && (forall i :: 0 <= i < |ch| - 1 ==> FatWord(g, sectors, 0, ch[i]) == ch[i + 1])
    && FatWord(g, sectors, 0, ch[|ch| - 1]) >= 0x0FFF_FFF8
  }

  function PerCluster(g: Geometry): (n: nat)
    requires g.sectorsPerCluster > 0
    ensures n > 0
  {
    512 * g.sectorsPerCluster
  }

  /** In which of the runs of `size` bytes byte `a` is, and where in it. */
  function Part(a: nat, size: nat): (p: (nat, nat))
    requires size > 0
    ensures p.1 < size
  {
    (a / size, a % size)
  }

  /** Byte `a` along a chain; -1 behind its end. */
  function ChainByte(g: Geometry, sectors: seq<Sector>, ch: seq<nat>, a: nat): int
    requires g.sectorsPerCluster > 0
  {
    var (k, o) := Part(a, PerCluster(g));
    if k < |ch| && ch[k] >= 2 then ClusterByte(g, sectors, ch[k], o) else -1
  }

  /** Slot `i` of the directory is in use, in front of the end mark, and no volume label or long name. */
  predicate SlotUsed(g: Geometry, sectors: seq<Sector>, root: seq<nat>, i: nat)
    requires g.sectorsPerCluster > 0
  {
    && 32 * i + 32 <= PerCluster(g) * |root|
    && (forall k :: 0 <= k <= i ==> ChainByte(g, sectors, root, 32 * k) != 0x00)
    && ChainByte(g, sectors, root, 32 * i) != 0xE5
    && ChainByte(g, sectors, root, 32 * i + 11) / 8 % 2 == 0
  }

  /** The name in bytes 0 to 10 of the slot, the first cluster in 26, 27, 20 and 21, the size in 28 to 31. */
  predicate SlotSays(g: Geometry, sectors: seq<Sector>, root: seq<nat>, i: nat, name: RawName, first: nat, size: nat)
    requires g.sectorsPerCluster > 0
  {
    && (forall j :: 0 <= j < 11 ==> ChainByte(g, sectors, root, 32 * i + j) == name[j])
    && first == ChainByte(g, sectors, root, 32 * i + 26) + 0x100 * ChainByte(g, sectors, root, 32 * i + 27)
                + 0x1_0000 * ChainByte(g, sectors, root, 32 * i + 20)
                + 0x100_0000 * ChainByte(g, sectors, root, 32 * i + 21)
    && size == ChainByte(g, sectors, root, 32 * i + 28) + 0x100 * ChainByte(g, sectors, root, 32 * i + 29)
               + 0x1_0000 * ChainByte(g, sectors, root, 32 * i + 30)
               + 0x100_0000 * ChainByte(g, sectors, root, 32 * i + 31)
  }

  /** The bytes stand along the chain that starts at `first`. */
  ghost predicate Stored(g: Geometry, sectors: seq<Sector>, first: nat, content: seq<byte>)
    requires g.sectorsPerCluster > 0
  {
    content == [] || exists ch: seq<nat> :: StoredAlong(g, sectors, first, content, ch)
  }

  ghost predicate StoredAlong(g: Geometry, sectors: seq<Sector>, first: nat, content: seq<byte>, ch: seq<nat>)
    requires g.sectorsPerCluster > 0
  {
    && Linked(g, sectors, ch) && ch[0] == first && |content| <= PerCluster(g) * |ch|
    && forall a :: 0 <= a < |content| ==> ChainByte(g, sectors, ch, a) == content[a]
  }

  /** A reader of the sectors finds this file in the directory at cluster `rootCluster`. */
  ghost predicate FileThere(g: Geometry, sectors: seq<Sector>, rootCluster: nat, name: RawName, content: seq<byte>)
    requires g.sectorsPerCluster > 0
  {
    exists root: seq<nat>, i: nat, first: nat ::
      FileAt(g, sectors, rootCluster, name, content, root, i, first)
  }

  ghost predicate FileAt(g: Geometry, sectors: seq<Sector>, rootCluster: nat, name: RawName, content: seq<byte>,
                         root: seq<nat>, i: nat, first: nat)
    requires g.sectorsPerCluster > 0
  {
    && Linked(g, sectors, root) && root[0] == rootCluster
    && SlotUsed(g, sectors, root, i) && SlotSays(g, sectors, root, i, name, first, |content|)
    && Stored(g, sectors, first, content)
  }

  // ----- clusters and FAT entries -----

  /** Cluster 2 lies directly behind the last FAT, and each cluster directly behind the one before it. */
  lemma ClustersAdjoin(g: Geometry, c: nat)
    requires c >= 2
    ensures g.Lba(2, 0) == g.fatLba + g.numFats * g.sectorsPerFat
    ensures g.Lba(c + 1, 0) == g.Lba(c, 0) + g.sectorsPerCluster
  {
    TimesProduct(g.numFats, g.sectorsPerFat);
  }

  lemma ClusterByteIs(g: Geometry, sectors: seq<Sector>, fat: seq<nat>, data: seq<seq<byte>>, c: nat, o: nat)
    requires DiskRep(g, sectors, fat, data) && 2 <= c < |data| && o < 512 * g.sectorsPerCluster
    ensures |data[c]| == 512 * g.sectorsPerCluster && ClusterByte(g, sectors, c, o) == data[c][o]
  {
    TimesProduct(g.numFats, g.sectorsPerFat);
    TimesProduct(c - 2, g.sectorsPerCluster);
    var s := o / 512;
    assert InCluster(g, sectors, data[c], c, s);
    assert data[c][SECTOR * s..SECTOR * s + SECTOR][o % 512] == data[c][o];
  }

  /** Entry `c` of every FAT is what the operations take it for. */
  lemma FatWordIs(g: Geometry, sectors: seq<Sector>, fat: seq<nat>, c: nat)
    requires g.Valid(|sectors|) && FatRep(g, sectors, fat) && c < |fat|
    ensures FatWord(g, sectors, 0, c) == fat[c] && (g.numFats > 1 ==> FatWord(g, sectors, 1, c) == fat[c])
  {
    FatsInside(g, |sectors|);
    assert 4 * c / 512 == c / 128 && 4 * c % 512 == 4 * (c % 128);
    assert fat[c] == EntryAt(sectors[g.fatLba + c / 128], c % 128);
    if g.numFats > 1 {
      assert Mirrored(g, sectors, c / 128);
    }
  }

  lemma LinkedIs(g: Geometry, sectors: seq<Sector>, fat: seq<nat>, ch: seq<nat>)
    requires g.Valid(|sectors|) && FatRep(g, sectors, fat)
    ensures Linked(g, sectors, ch) <==> IsChain(fat, ch)
  {
    hide FatRep, FatWord;
    assert |fat| == 128 * g.sectorsPerFat by { RepSize(g, sectors, fat); }
    if |ch| > 0 && forall i :: 0 <= i < |ch| ==> 2 <= ch[i] < |fat| {
      forall i | 0 <= i < |ch| ensures FatWord(g, sectors, 0, ch[i]) == fat[ch[i]] {
        FatWordIs(g, sectors, fat, ch[i]);
      }
    }
  }

  lemma RepSize(g: Geometry, sectors: seq<Sector>, fat: seq<nat>)
    requires g.Valid(|sectors|) && FatRep(g, sectors, fat)
    ensures |fat| == 128 * g.sectorsPerFat
  {
  }

  lemma ChainByteIs(g: Geometry, sectors: seq<Sector>, fat: seq<nat>, data: seq<seq<byte>>, ch: seq<nat>, a: nat)
    requires DiskRep(g, sectors, fat, data) && IsChain(fat, ch) && a < PerCluster(g) * |ch|
    ensures a < |Gather(data, ch)| && ChainByte(g, sectors, ch, a) == Gather(data, ch)[a]
  {
    ClusterSizes(g, sectors, fat, data, ch);
    PartWithin(a, PerCluster(g), |ch|);
    hide ClusterByte, Gather, PerCluster, Part;
    var (k, o) := Part(a, PerCluster(g));
    GatherByte(data, ch, PerCluster(g), a);
    InChain(fat, ch, k);
    hide DiskRep, IsChain;
    ClusterByteIn(g, sectors, fat, data, ch[k], o);
  }

  lemma InChain(fat: seq<nat>, ch: seq<nat>, k: nat)
    requires IsChain(fat, ch) && k < |ch|
    ensures 2 <= ch[k] < |fat|
  {
  }

  lemma ClusterByteIn(g: Geometry, sectors: seq<Sector>, fat: seq<nat>, data: seq<seq<byte>>, c: nat, o: nat)
    requires g.sectorsPerCluster > 0 && o < PerCluster(g) && DiskRep(g, sectors, fat, data) && 2 <= c < |data|
    ensures |data[c]| == PerCluster(g) && ClusterByte(g, sectors, c, o) == data[c][o]
  {
    ClusterByteIs(g, sectors, fat, data, c, o);
  }

  lemma PartWithin(a: nat, size: nat, n: nat)
    requires size > 0 && a < size * n
    ensures Part(a, size).0 < n
  {
  }

  lemma GatherByte(data: seq<seq<byte>>, ch: seq<nat>, size: nat, a: nat)
    requires Sized(data, ch, size) && size > 0 && Part(a, size).0 < |ch|
    ensures a < |Gather(data, ch)| && Gather(data, ch)[a] == data[ch[Part(a, size).0]][Part(a, size).1]
  {
    TimesDivide(a, size);
    var (k, o) := Part(a, size);
    assert Times(k, size) + o == a;
    hide Gather, Part, Times;
    GatherRead(data, ch, size, k, o, 1);
    var g := Gather(data, ch);
    assert g[a] == g[a..a + 1][0];
  }

  lemma ClusterSizes(g: Geometry, sectors: seq<Sector>, fat: seq<nat>, data: seq<seq<byte>>, ch: seq<nat>)
    requires DiskRep(g, sectors, fat, data) && IsChain(fat, ch)
    ensures g.sectorsPerCluster > 0 && |data| == |fat| && Sized(data, ch, PerCluster(g))
  {
    RepSize(g, sectors, fat);
  }

  lemma GatherSize(g: Geometry, sectors: seq<Sector>, fat: seq<nat>, data: seq<seq<byte>>, ch: seq<nat>)
    requires DiskRep(g, sectors, fat, data) && IsChain(fat, ch)
    ensures |Gather(data, ch)| == PerCluster(g) * |ch|
  {
    ClusterSizes(g, sectors, fat, data, ch);
    GatherLength(data, ch, PerCluster(g));
    TimesProduct(|ch|, PerCluster(g));
  }

  // ----- the directory -----

  /** Byte `j` of slot `i` of the directory. */
  lemma SlotByteIs(v: Volume, i: nat, j: nat)
    requires v.Valid() && 32 * i + 32 <= PerCluster(v.geo) * |v.st.root| && j < 32
    ensures i < |v.st.dir| && ChainByte(v.geo, v.sectors, v.st.root, 32 * i + j) == v.st.dir[i][j]
  {
    ChainByteIs(v.geo, v.sectors, v.st.fat, v.st.data, v.st.root, 32 * i + j);
    GatherSize(v.geo, v.sectors, v.st.fat, v.st.data, v.st.root);
    hide Gather, ChainByte, DiskRep;
    var bytes := Gather(v.st.data, v.st.root);
    assert v.st.dir == Slots(bytes);
    assert v.st.dir[i] == bytes[32 * i..32 * i + 32];
  }

  lemma DirSize(v: Volume, i: nat)
    requires v.Valid()
    ensures i < |v.st.dir| <==> 32 * i + 32 <= PerCluster(v.geo) * |v.st.root|
  {
    GatherSize(v.geo, v.sectors, v.st.fat, v.st.data, v.st.root);
    hide Gather, DiskRep;
    assert v.st.dir == Slots(Gather(v.st.data, v.st.root));
  }

  lemma RootLinked(v: Volume, root: seq<nat>)
    requires v.Valid()
    ensures Linked(v.geo, v.sectors, root) && root[0] == v.rootCluster <==> root == v.st.root
  {
    LinkedIs(v.geo, v.sectors, v.st.fat, root);
    LinkedIs(v.geo, v.sectors, v.st.fat, v.st.root);
    hide Linked, DiskRep;
    if Linked(v.geo, v.sectors, root) && root[0] == v.rootCluster {
      ChainUnique(v.st.fat, root, v.st.root);
    }
  }

  /** A slot is used on the disk exactly when it is live. */
  lemma SlotUsedIs(v: Volume, i: nat)
    requires v.Valid()
    ensures SlotUsed(v.geo, v.sectors, v.st.root, i) <==> i < |v.st.dir| && Live(v.st.dir[i])
  {
    hide ChainByte, Volume.Valid;
    DirSize(v, i);
    if i < |v.st.dir| {
      forall k: nat | k <= i ensures ChainByte(v.geo, v.sectors, v.st.root, 32 * k) == v.st.dir[k][0] {
        DirSize(v, k);
        SlotByteIs(v, k, 0);
      }
      SlotByteIs(v, i, 11);
      NoEndBefore(v, i);
    }
  }

  lemma NoEndBefore(v: Volume, i: nat)
    requires v.Valid() && i < |v.st.dir|
    ensures v.st.dir[i][0] != SLOT_END ==> forall k: nat :: k <= i ==> v.st.dir[k][0] != SLOT_END
  {
    assert Terminated(v.st.dir);
    hide DiskRep;
  }

  lemma SlotSaysIs(v: Volume, i: nat, name: RawName, first: nat, size: nat)
    requires v.Valid() && i < |v.st.dir|
    ensures SlotSays(v.geo, v.sectors, v.st.root, i, name, first, size)
       <==> NameOf(v.st.dir[i]) == name && FirstCluster(v.st.dir[i]) == first && FileSize(v.st.dir[i]) == size
  {
    SlotBytes(v, i);
    EntrySays(v.st.dir[i], name);
    hide ChainByte, Volume.Valid, PerCluster, NameOf, FirstCluster, FileSize;
  }

  lemma SlotBytes(v: Volume, i: nat)
    requires v.Valid() && i < |v.st.dir|
    ensures v.geo.sectorsPerCluster > 0
    ensures forall j :: 0 <= j < 32 ==> ChainByte(v.geo, v.sectors, v.st.root, 32 * i + j) == v.st.dir[i][j]
  {
    DirSize(v, i);
    forall j | 0 <= j < 32 ensures ChainByte(v.geo, v.sectors, v.st.root, 32 * i + j) == v.st.dir[i][j] {
      SlotByteIs(v, i, j);
    }
  }

  lemma EntrySays(e: RawEntry, name: RawName)
    ensures NameOf(e) == name <==> forall j :: 0 <= j < 11 ==> e[j] == name[j]
    ensures FirstCluster(e) == (e[26] as int) + 0x100 * (e[27] as int) + 0x1_0000 * (e[20] as int)
                               + 0x100_0000 * (e[21] as int)
    ensures FileSize(e) == (e[28] as int) + 0x100 * (e[29] as int) + 0x1_0000 * (e[30] as int)
                           + 0x100_0000 * (e[31] as int)
  {
  }

  // ----- files -----

  /** The content of a live slot stands along its chain, and nothing else does. */
  lemma StoredIs(v: Volume, i: nat, content: seq<byte>)
    requires v.Valid() && i < |v.st.dir| == |v.st.chains| && Live(v.st.dir[i]) && |content| == FileSize(v.st.dir[i])
    ensures Stored(v.geo, v.sectors, FirstCluster(v.st.dir[i]), content)
       <==> content == Content(v.st.data, v.st.dir[i], v.st.chains[i])
  {
    var e, ch := v.st.dir[i], v.st.chains[i];
    var first := FirstCluster(e);
    assert SlotOk(v.st.fat, v.st.data, e, ch);
    assert ChainFrom(v.st.fat, first, ch) && |content| <= |Gather(v.st.data, ch)|;
    assert |content| > 0 ==> ch != [];
    if content != [] {
      hide SlotOk, Live, FirstCluster, FileSize, Gather, StoredAlong, Volume.Valid, IsChain;
      AlongIs(v, ch, content);
      if Stored(v.geo, v.sectors, first, content) {
        var other: seq<nat> :| StoredAlong(v.geo, v.sectors, first, content, other);
        SameAlong(v, ch, other, first, content);
      }
    }
  }

  /** Along a chain stands what its clusters hold. */
  lemma AlongIs(v: Volume, ch: seq<nat>, content: seq<byte>)
    requires v.Valid() && IsChain(v.st.fat, ch) && |content| <= |Gather(v.st.data, ch)|
    ensures StoredAlong(v.geo, v.sectors, ch[0], content, ch) <==> content == Gather(v.st.data, ch)[..|content|]
  {
    var bytes := Gather(v.st.data, ch);
    GatherSize(v.geo, v.sectors, v.st.fat, v.st.data, ch);
    LinkedIs(v.geo, v.sectors, v.st.fat, ch);
    forall a | 0 <= a < |content| ensures ChainByte(v.geo, v.sectors, ch, a) == bytes[a] {
      ChainByteIs(v.geo, v.sectors, v.st.fat, v.st.data, ch, a);
    }
    hide Volume.Valid, Gather, ChainByte, Linked, IsChain, PerCluster;
    if content == bytes[..|content|] {
      assert forall a :: 0 <= a < |content| ==> content[a] == bytes[a];
    }
  }

  lemma SameAlong(v: Volume, ch: seq<nat>, other: seq<nat>, first: nat, content: seq<byte>)
    requires v.Valid() && IsChain(v.st.fat, ch) && ch[0] == first
    requires StoredAlong(v.geo, v.sectors, first, content, other)
    ensures other == ch
  {
    LinkedIs(v.geo, v.sectors, v.st.fat, other);
    hide Linked, IsChain, DiskRep, ChainByte;
    ChainUnique(v.st.fat, ch, other);
  }

  /** The live slot of that name, and what its file holds. */
  lemma SlotHolds(v: Volume, i: nat, name: RawName, content: seq<byte>)
    requires v.Valid() && Names(v.st.dir, i, name)
    ensures i < |v.st.chains| == |v.st.dir|
    ensures Holds(v.st.files, name, content) <==> content == Content(v.st.data, v.st.dir[i], v.st.chains[i])
    ensures |Content(v.st.data, v.st.dir[i], v.st.chains[i])| == FileSize(v.st.dir[i])
  {
    assert SlotOk(v.st.fat, v.st.data, v.st.dir[i], v.st.chains[i]);
    assert Holds(v.st.files, NameOf(v.st.dir[i]), Content(v.st.data, v.st.dir[i], v.st.chains[i]));
    hide DiskRep, Gather, Live;
  }

  /** The files the operations speak of are exactly those a reader of the sectors finds. */
  lemma FilesOnDisk(v: Volume, name: RawName, content: seq<byte>)
    requires v.Valid()
    ensures Holds(v.st.files, name, content) <==> FileThere(v.geo, v.sectors, v.rootCluster, name, content)
  {
    hide Stored, SlotUsed, SlotSays, Linked, FirstCluster, FileSize, NameOf, Live, Content;
    if Holds(v.st.files, name, content) {
      var i: nat :| Names(v.st.dir, i, name);
      hide Volume.Valid;
      SlotHolds(v, i, name, content);
      RootLinked(v, v.st.root);
      SlotUsedIs(v, i);
      SlotSaysIs(v, i, name, FirstCluster(v.st.dir[i]), |content|);
      StoredIs(v, i, content);
      assert FileAt(v.geo, v.sectors, v.rootCluster, name, content, v.st.root, i, FirstCluster(v.st.dir[i]));
    }
    if FileThere(v.geo, v.sectors, v.rootCluster, name, content) {
      hide Volume.Valid;
      var root: seq<nat>, i: nat, first: nat :|
        FileAt(v.geo, v.sectors, v.rootCluster, name, content, root, i, first);
      RootLinked(v, root);
      SlotUsedIs(v, i);
      SlotSaysIs(v, i, name, first, |content|);
      SlotHolds(v, i, name, content);
      StoredIs(v, i, content);
    }
  }

  // ----- what a directory entry is made of -----

  /** A new entry byte by byte: archive attribute, no times, the first of January 2024 as both dates. */
  lemma NewEntryBytes(name: RawName, first: nat, size: nat)
    requires first < 0x1_0000_0000 && size < 0x1_0000_0000
    ensures NewEntry(name, first, size) == name + [0x20, 0, 0, 0, 0, 0x21, 0x58, 0, 0] + StampBytes(first, size)
  {
    var e := NewEntry(name, first, size);
    RestampBytes(BlankEntry(name), first, size);
    assert BlankEntry(name)[..20] == name + [0x20, 0, 0, 0, 0, 0x21, 0x58, 0, 0];
  }

  /** The last twelve bytes: high cluster word, write time and date, low cluster word, size. */
  function StampBytes(first: nat, size: nat): (b: seq<byte>)
    requires first < 0x1_0000_0000 && size < 0x1_0000_0000
    ensures |b| == 12
  {
    [first / 0x1_0000 % 0x100, first / 0x100_0000, 0, 0, 0x21, 0x58, first % 0x100, first / 0x100 % 0x100,
     size % 0x100, size / 0x100 % 0x100, size / 0x1_0000 % 0x100, size / 0x100_0000]
  }

  lemma RestampBytes(e: RawEntry, first: nat, size: nat)
    requires first < 0x1_0000_0000 && size < 0x1_0000_0000
    ensures Restamp(e, first, size) == e[..20] + StampBytes(first, size)
  {
    var r := Restamp(e, first, size);
    WordBytes(size);
    assert r == e[..20] + (Bytes16(first / 0x1_0000) + Bytes16(0) + Bytes16(WRITE_DATE) + Bytes16(first % 0x1_0000)
                           + Bytes32(size));
    assert first / 0x1_0000 / 0x100 == first / 0x100_0000 && first % 0x1_0000 / 0x100 == first / 0x100 % 0x100;
    assert first % 0x1_0000 % 0x100 == first % 0x100;
  }

  lemma WordBytes(v: nat)
    requires v < 0x1_0000_0000
    ensures Bytes32(v) == [v % 0x100, v / 0x100 % 0x100, v / 0x1_0000 % 0x100, v / 0x100_0000]
  {
    assert v % 0x1_0000 % 0x100 == v % 0x100 && v % 0x1_0000 / 0x100 == v / 0x100 % 0x100;
    assert v / 0x1_0000 / 0x100 == v / 0x100_0000;
  }

  /** The 11 bytes of a name with base and extension: small letters as capitals, spaces behind what is short. */
  lemma NameBytes(base: seq<byte>, ext: seq<byte>, j: nat)
    requires 0 !in base && 0 !in ext && 46 !in ext && j < 11
    ensures 0 !in base + [46] + ext
    ensures var part, k := if j < 8 then base else ext, if j < 8 then j else j - 8;
            var c: int := if k >= |part| then 0x20 else part[k];
            Encoded(base + [46] + ext)[j] == if 0x61 <= c <= 0x7A then c - 0x20 else c
  {
    var name := base + [46] + ext;
    SplitName(base, ext);
    hide LastDot;
    assert j < 8 ==> Encoded(name)[j] == Field(base, 8)[j];
    assert j >= 8 ==> Encoded(name)[j] == Field(ext, 3)[j - 8];
  }

  lemma SplitName(base: seq<byte>, ext: seq<byte>)
    requires 46 !in ext
    ensures var name := base + [46] + ext;
            LastDot(name) == |base| && name[..|base|] == base && name[|base| + 1..] == ext
  {
    var name := base + [46] + ext;
    assert name[|base|] == 46;
    assert forall i :: |base| < i < |name| ==> name[i] == ext[i - |base| - 1];
    hide LastDot;
  }
}
