/**
 What the conditions of the file operations come to on the disk and in plain numbers: room in the directory, free
 clusters, clusters needed, names that cannot be found again, and the bytes a read returns.
 */
module FatConditions {
  import opened Bytes
  import opened FatFormat
  import opened FatNames
  import opened FatChains
  import opened FatWalk
  import opened FatDisk
  import opened FatSteps
  import opened FatAppend
  import opened FatVolume
  import opened FatFileIO
  import opened FatLayout

  /** Slot `i` of the directory can take an entry: it was never used, or its entry was deleted. */
  predicate SlotOpen(g: Geometry, sectors: seq<Sector>, root: seq<nat>, i: nat)
    requires g.sectorsPerCluster > 0
  {
    32 * i + 32 <= PerCluster(g) * |root|
    && (ChainByte(g, sectors, root, 32 * i) == 0x00 || ChainByte(g, sectors, root, 32 * i) == 0xE5)
  }

  /** There is room in the directory exactly when one of its slots on the disk is open. */
  lemma SlotLeftOnDisk(v: Volume)
    requires v.Valid()
    ensures v.geo.sectorsPerCluster > 0
    ensures SlotLeft(v.st.dir) <==> exists i: nat :: SlotOpen(v.geo, v.sectors, v.st.root, i)
  {
    GeoPositive(v);
    hide ChainByte, Volume.Valid;
    forall i: nat ensures SlotOpen(v.geo, v.sectors, v.st.root, i) <==> i < |v.st.dir| && Finds(FreeSlot, v.st.dir[i]) {
      DirSize(v, i);
      if i < |v.st.dir| { SlotByteIs(v, i, 0); }
    }
    if SlotLeft(v.st.dir) {
      var i :| 0 <= i < |v.st.dir| && Finds(FreeSlot, v.st.dir[i]);
      assert SlotOpen(v.geo, v.sectors, v.st.root, i);
    }
  }

  lemma GeoPositive(v: Volume)
    requires v.Valid()
    ensures v.geo.sectorsPerCluster > 0
  {
  }

  /** The free clusters are those with a zero in the FAT. */
  lemma FreeOnDisk(v: Volume, c: nat)
    requires v.Valid()
    ensures c in FreeSet(v.st.fat) <==> 2 <= c < 128 * v.geo.sectorsPerFat && FatWord(v.geo, v.sectors, 0, c) == 0
  {
    RepSize(v.geo, v.sectors, v.st.fat);
    if 2 <= c < |v.st.fat| {
      FatWordIs(v.geo, v.sectors, v.st.fat, c);
    }
    hide FatWord, FatRep, DataRep, Good;
  }

  /** A file of `len` bytes needs no more than `n` clusters exactly when `n` clusters hold it. */
  lemma ClustersForLeast(len: nat, cs: nat, n: nat)
    requires cs > 0 && len > 0
    ensures ClustersFor(len, cs) <= n <==> len <= n * cs
  {
    ClustersForEnough(len, cs);
    var m := ClustersFor(len, cs);
    TimesProduct(n, cs);
    if m <= n { TimesMono(m, n, cs); } else { TimesMono(n, m - 1, cs); }
    hide ClustersFor, Times;
  }

  /** An append finds room exactly when the clusters that hold the file now, with the free ones, can hold it
      after. A file without a cluster has none of them, an empty one with a cluster has that one. */
  lemma AppendRoom(was: State, cs: nat, name: RawName, len: nat, ok: bool, i: nat, orphaned: seq<nat>)
    requires cs > 0 && AppendOutcome(was, cs, name, len, ok, i, orphaned)
    ensures i < |was.dir|
    ensures var first, size := FirstCluster(was.dir[i]), FileSize(was.dir[i]);
            exists m: nat :: HoldsIn(first, size, cs, m) && (ok <==> size + len <= (m + |FreeSet(was.fat)|) * cs)
  {
    var first, size := FirstCluster(was.dir[i]), FileSize(was.dir[i]);
    var m := Used(first, size, cs);
    ClustersForEnough(size, cs);
    TimesProduct(m + |FreeSet(was.fat)|, cs);
    TimesProduct(ClustersFor(size, cs), cs);
    TimesProduct(ClustersFor(size, cs) - 1, cs);
    hide ClustersFor, FreeSet, FirstCluster, FileSize;
    assert HoldsIn(first, size, cs, m);
  }

  predicate HoldsIn(first: nat, size: nat, cs: nat, m: nat) {
    if first == 0 then m == 0 else m >= 1 && size <= m * cs && (m > 1 ==> (m - 1) * cs < size)
  }

  /** The only names a search never finds are those with the mark of a deleted entry in front. */
  lemma HiddenNames(name: CName)
    ensures Hidden(Encoded(name)) <==> name != [] && name[0] == 0xE5
  {
    var d := LastDot(name);
    assert Encoded(name)[0] == Field(name[..d], 8)[0];
    hide LastDot;
  }

  /** A read returns the bytes of the file from the offset on, as many as there are. */
  lemma ExcerptBytes(content: seq<byte>, offset: nat, len: nat)
    ensures var n := if |content| <= offset then 0 else if |content| - offset < len then |content| - offset else len;
            |Excerpt(content, offset, len)| == n
            && forall k :: 0 <= k < n ==> Excerpt(content, offset, len)[k] == content[offset + k]
  {
  }

  /** `readfile` takes an entry for the file asked for exactly when it is no directory and the name it shows, up
      to a zero byte, is that name but for the case of its letters. */
  lemma MatchIs(e: RawEntry, fname: CName)
    ensures Matches(e, fname)
       <==> e[11] / 16 % 2 == 0 && |Shown(e)| == |fname|
            && forall k :: 0 <= k < |fname| ==> SameLetter(Shown(e)[k], fname[k])
  {
    hide CutZero, Formatted;
    var shown := Shown(e);
    if UpperAll(shown) == UpperAll(fname) {
      forall k | 0 <= k < |fname| ensures SameLetter(shown[k], fname[k]) {
        assert UpperAll(shown)[k] == UpperAll(fname)[k];
      }
    }
  }

  function Shown(e: RawEntry): seq<byte> {
    CutZero(Formatted(e[..11]))
  }

  /** The same character, or the same letter in its two cases. */
  predicate SameLetter(a: byte, b: byte) {
    a == b || (0x61 <= a <= 0x7A && b == a - 0x20) || (0x61 <= b <= 0x7A && a == b - 0x20)
  }
}
