/** A freshly formatted volume: every operation's starting assumption can be met, on any geometry. */
module FatBlank {
  import opened Bytes
  import opened FatFormat
  import opened FatChains
  import opened FatWalk
  import opened FatDisk

  function ZeroSectors(n: nat): (s: seq<Sector>)
    ensures |s| == n
  {
    var zero: Sector := seq(SECTOR, _ => 0);
    seq(n, _ => zero)
  }

  function BlankState(g: Geometry): State {
    State(
      seq(g.Entries(), c => if c == 2 then CLUSTER_EOC else CLUSTER_FREE),
      seq(g.Entries(), _ => seq(g.ClusterSize(), _ => 0)),
      [2],
      seq(g.ClusterSize() / ENTRY_SIZE, _ => seq(ENTRY_SIZE, _ => 0)),
      seq(g.ClusterSize() / ENTRY_SIZE, _ => []),
      map[])
  }

  /** Zeroed sectors with the root directory's cluster marked in the FAT are a whole, empty volume. */
  lemma Blank(g: Geometry, n: nat) returns (sectors: seq<Sector>)
    requires g.Valid(n)
    ensures |sectors| == n && DiskRep(g, sectors, BlankState(g).fat, BlankState(g).data)
    ensures Good(BlankState(g), g.ClusterSize())
    ensures forall c: nat :: !Lost(BlankState(g), c)
  {
    var st := BlankState(g);
    var zeros := seq(g.Entries(), c => CLUSTER_FREE);
    BlankDisk(g, n, zeros, st.data);
    FatWriteRep(g, ZeroSectors(n), zeros, st.data, 2, CLUSTER_EOC);
    sectors := FatWritten(g, ZeroSectors(n), 2, CLUSTER_EOC);
    assert zeros[2 := CLUSTER_EOC % ENTRY_MODULUS] == st.fat;
    BlankGood(g, n);
  }

  lemma BlankDisk(g: Geometry, n: nat, fat: seq<nat>, data: seq<seq<byte>>)
    requires g.Valid(n) && fat == seq(g.Entries(), c => CLUSTER_FREE) && data == BlankState(g).data
    ensures DiskRep(g, ZeroSectors(n), fat, data)
  {
    FatsInside(g, n);
    var sectors := ZeroSectors(n);
    forall c | 0 <= c < |fat| ensures fat[c] == EntryAt(sectors[g.fatLba + c / 128], c % 128) {
    }
    assert FatRep(g, sectors, fat);
    forall c, s | 2 <= c < |data| && 0 <= s < g.sectorsPerCluster ensures InCluster(g, sectors, data[c], c, s) {
      LbaInside(g, n, c, s);
    }
  }

  lemma BlankGood(g: Geometry, n: nat)
    requires g.Valid(n)
    ensures Good(BlankState(g), g.ClusterSize())
    ensures forall c: nat :: !Lost(BlankState(g), c)
  {
    var st := BlankState(g);
    assert st.root[1..] == [];
    assert Gather(st.data, st.root) == st.data[2];
    var slots := Slots(st.data[2]);
    forall j | 0 <= j < |slots| ensures slots[j] == st.dir[j] {
      assert slots[j] == st.data[2][ENTRY_SIZE * j..ENTRY_SIZE * j + ENTRY_SIZE];
    }
    assert st.dir == slots;
    assert !exists i :: 0 <= i < |st.dir| && Live(st.dir[i]);
    forall c: nat ensures !Lost(st, c) {
      assert 2 in st.root;
    }
  }
}
