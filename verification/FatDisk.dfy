/**
 Where the sectors of a drive hold the FAT, its mirror and the data clusters, and how writing
 one sector shows through as one FAT entry or one stretch of one cluster.
 */
module FatDisk {
  import opened Bytes
  import opened FatFormat
  import opened FatChains

  datatype Geometry = Geometry(
    fatLba: nat,             // first sector of the first FAT
    sectorsPerFat: nat,
    numFats: nat,
    sectorsPerCluster: nat)
  {
    function DataLba(): nat { fatLba + Times(numFats, sectorsPerFat) }

    function Entries(): nat { 128 * sectorsPerFat }

    function ClusterSize(): nat { SECTOR * sectorsPerCluster }

    /** Sector `s` of cluster `c`. */
    function Lba(c: nat, s: nat): nat
      requires 2 <= c
    {
      DataLba() + Times(c - 2, sectorsPerCluster) + s
    }

    predicate Valid(sectors: nat) {
      && 1 <= sectorsPerFat && 1 <= numFats && 1 <= sectorsPerCluster
      && Entries() <= CLUSTER_BAD
      && Lba(Entries(), 0) <= sectors <= 0x1_0000_0000
    }
  }

  lemma LbaInside(g: Geometry, sectors: nat, c: nat, s: nat)
    requires g.Valid(sectors) && 2 <= c < g.Entries() && s < g.sectorsPerCluster
    ensures g.fatLba + g.sectorsPerFat <= g.DataLba() <= g.Lba(c, s) < sectors
    ensures g.numFats > 1 ==> g.fatLba + 2 * g.sectorsPerFat <= g.DataLba()
  {
    TimesStep(c - 2, g.Entries() - 2, g.sectorsPerCluster);
    FatsInside(g, sectors);
  }

  lemma FatsInside(g: Geometry, sectors: nat)
    requires g.Valid(sectors)
    ensures g.fatLba + g.sectorsPerFat <= g.DataLba() <= sectors
    ensures g.numFats > 1 ==> g.fatLba + 2 * g.sectorsPerFat <= g.DataLba()
  {
    TimesStep(0, g.numFats, g.sectorsPerFat);
    if g.numFats > 1 {
      TimesStep(1, g.numFats, g.sectorsPerFat);
    }
  }

  /** Different sectors of different clusters lie at different addresses. */
  lemma LbaInjective(g: Geometry, c: nat, s: nat, c': nat, s': nat)
    requires 2 <= c && 2 <= c' && s < g.sectorsPerCluster && s' < g.sectorsPerCluster
    requires g.Lba(c, s) == g.Lba(c', s')
    ensures c == c' && s == s'
  {
    if c < c' {
      TimesStep(c - 2, c' - 2, g.sectorsPerCluster);
    } else if c' < c {
      TimesStep(c' - 2, c - 2, g.sectorsPerCluster);
    }
  }

  ghost predicate Mirrored(g: Geometry, sectors: seq<Sector>, s: nat) {
    && g.fatLba + s < |sectors| && g.fatLba + g.sectorsPerFat + s < |sectors|
    && sectors[g.fatLba + g.sectorsPerFat + s] == sectors[g.fatLba + s]
  }

  ghost predicate FatRep(g: Geometry, sectors: seq<Sector>, fat: seq<nat>)
    requires g.Valid(|sectors|)
  {
    FatsInside(g, |sectors|);
    && |fat| == g.Entries()
    && (forall c :: 0 <= c < |fat| ==> fat[c] == EntryAt(sectors[g.fatLba + c / 128], c % 128))
    && (g.numFats > 1 ==> forall s :: 0 <= s < g.sectorsPerFat ==> Mirrored(g, sectors, s))
  }

  ghost predicate InCluster(g: Geometry, sectors: seq<Sector>, d: seq<byte>, c: nat, s: nat)
    requires |d| == g.ClusterSize() && s < g.sectorsPerCluster && 2 <= c
  {
    g.Lba(c, s) < |sectors| && sectors[g.Lba(c, s)] == d[SECTOR * s..SECTOR * s + SECTOR]
  }

  ghost predicate DataRep(g: Geometry, sectors: seq<Sector>, data: seq<seq<byte>>)
    requires g.Valid(|sectors|)
  {
    && |data| == g.Entries()
    && (forall c :: 2 <= c < |data| ==> |data[c]| == g.ClusterSize())
    && (forall c, s :: 2 <= c < |data| && 0 <= s < g.sectorsPerCluster ==> InCluster(g, sectors, data[c], c, s))
  }

  /** The sectors hold this FAT, mirrored when there are two, and these cluster contents. */
  ghost predicate DiskRep(g: Geometry, sectors: seq<Sector>, fat: seq<nat>, data: seq<seq<byte>>) {
    g.Valid(|sectors|) && FatRep(g, sectors, fat) && DataRep(g, sectors, data)
  }

  /** The sectors after the write of one FAT entry, mirror included. */
  function FatWritten(g: Geometry, sectors: seq<Sector>, c: nat, v: nat): (r: seq<Sector>)
    requires g.Valid(|sectors|) && c < g.Entries()
    ensures |r| == |sectors|
  {
    FatsInside(g, |sectors|);
    var n := g.fatLba + c / 128;
    var t := SetEntry(sectors[n], c % 128, v);
    if g.numFats > 1 then sectors[n := t][n + g.sectorsPerFat := t] else sectors[n := t]
  }

  lemma FatWriteRep(g: Geometry, sectors: seq<Sector>, fat: seq<nat>, data: seq<seq<byte>>, c: nat, v: nat)
    requires DiskRep(g, sectors, fat, data) && c < |fat|
    ensures DiskRep(g, FatWritten(g, sectors, c, v), fat[c := v % ENTRY_MODULUS], data)
  {
    FatWriteEntry(g, sectors, fat, c, v);
    FatsInside(g, |sectors|);
    hide FatRep;
    var sectors' := FatWritten(g, sectors, c, v);
    forall k, s | 2 <= k < |data| && 0 <= s < g.sectorsPerCluster ensures InCluster(g, sectors', data[k], k, s) {
      LbaInside(g, |sectors|, k, s);
      assert InCluster(g, sectors, data[k], k, s);
    }
  }

  lemma FatWriteEntry(g: Geometry, sectors: seq<Sector>, fat: seq<nat>, c: nat, v: nat)
    requires g.Valid(|sectors|) && FatRep(g, sectors, fat) && c < |fat|
    ensures FatRep(g, FatWritten(g, sectors, c, v), fat[c := v % ENTRY_MODULUS])
  {
    var sectors', fat' := FatWritten(g, sectors, c, v), fat[c := v % ENTRY_MODULUS];
    FatsInside(g, |sectors|);
    hide EntryAt, Mirrored, FatWritten, SetEntry, Times;
    forall k | 0 <= k < |fat'| ensures fat'[k] == EntryAt(sectors'[g.fatLba + k / 128], k % 128) {
      FatWriteOne(g, sectors, c, v, k);
    }
    if g.numFats > 1 {
      forall s | 0 <= s < g.sectorsPerFat ensures Mirrored(g, sectors', s) {
        FatWriteMirror(g, sectors, c, v, s);
      }
    }
  }

  lemma FatWriteOne(g: Geometry, sectors: seq<Sector>, c: nat, v: nat, k: nat)
    requires g.Valid(|sectors|) && c < g.Entries() && k < g.Entries()
    requires g.fatLba + k / 128 < |sectors|
    ensures var r := FatWritten(g, sectors, c, v);
            EntryAt(r[g.fatLba + k / 128], k % 128)
              == if k == c then v % ENTRY_MODULUS else EntryAt(sectors[g.fatLba + k / 128], k % 128)
  {
    hide SetEntry, EntryAt;
    FatsInside(g, |sectors|);
    SetEntryEffect(sectors[g.fatLba + c / 128], c % 128, v, k % 128);
    if k / 128 != c / 128 {
      assert FatWritten(g, sectors, c, v)[g.fatLba + k / 128] == sectors[g.fatLba + k / 128];
    } else {
      assert k == k / 128 * 128 + k % 128 && c == c / 128 * 128 + c % 128;
    }
  }

  lemma FatWriteMirror(g: Geometry, sectors: seq<Sector>, c: nat, v: nat, s: nat)
    requires g.Valid(|sectors|) && c < g.Entries() && g.numFats > 1
    requires s < g.sectorsPerFat && Mirrored(g, sectors, s)
    ensures Mirrored(g, FatWritten(g, sectors, c, v), s)
  {
    FatsInside(g, |sectors|);
    hide SetEntry;
  }

  lemma FatRepFrame(g: Geometry, sectors: seq<Sector>, sectors': seq<Sector>, fat: seq<nat>)
    requires g.Valid(|sectors|) && |sectors'| == |sectors| && FatRep(g, sectors, fat)
    requires forall n :: 0 <= n < g.DataLba() && n < |sectors| ==> sectors'[n] == sectors[n]
    ensures FatRep(g, sectors', fat)
  {
    FatsInside(g, |sectors|);
    hide EntryAt;
    if g.numFats > 1 {
      forall s | 0 <= s < g.sectorsPerFat ensures Mirrored(g, sectors', s) {
        assert Mirrored(g, sectors, s);
      }
    }
  }

  lemma DataWriteRep(g: Geometry, sectors: seq<Sector>, fat: seq<nat>, data: seq<seq<byte>>, c: nat, s: nat, b: Sector)
    requires DiskRep(g, sectors, fat, data) && 2 <= c < |data| && s < g.sectorsPerCluster
    ensures g.Lba(c, s) < |sectors|
    ensures DiskRep(g, sectors[g.Lba(c, s) := b], fat, data[c := Splice(data[c], SECTOR * s, b)])
  {
    LbaInside(g, |sectors|, c, s);
    var sectors', data' := sectors[g.Lba(c, s) := b], data[c := Splice(data[c], SECTOR * s, b)];
    FatRepFrame(g, sectors, sectors', fat);
    hide FatRep;
    forall k, t | 2 <= k < |data'| && 0 <= t < g.sectorsPerCluster ensures InCluster(g, sectors', data'[k], k, t) {
      assert InCluster(g, sectors, data[k], k, t);
      if g.Lba(k, t) == g.Lba(c, s) {
        LbaInjective(g, k, t, c, s);
      } else if k == c {
        assert data'[c][SECTOR * t..SECTOR * t + SECTOR] == data[c][SECTOR * t..SECTOR * t + SECTOR];
      }
    }
  }
}
