/**
 The volume: FAT and directory in sectors, and the operations on them. The ghost state `st` is what the
 sectors stand for; every operation keeps the two together.
 */
module FatVolume {
  import opened Bytes
  import opened FatFormat
  import opened FatChains
  import opened FatWalk
  import opened FatDisk
  import opened FatNames
  import opened FatSteps
  import opened FatAppend

  class Volume {
    const geo: Geometry
    const rootCluster: nat
    var sectors: seq<Sector>
    ghost var st: State

    ghost predicate Rep()
      reads this
    {
      && geo.Valid(|sectors|) && |st.fat| == geo.Entries()
      && DiskRep(geo, sectors, st.fat, st.data)
      && Shape(st.fat, st.data, geo.ClusterSize())
    }

    ghost predicate Valid()
      reads this
    {
      Rep() && Good(st, geo.ClusterSize()) && st.root[0] == rootCluster
    }

    // ----- FAT entries -----

    method NextCluster(cluster: nat) returns (entry: nat)
      requires Rep() && cluster < |st.fat|
      ensures entry == st.fat[cluster]
    {
      FatsInside(geo, |sectors|);
      var fatOffset := cluster * 4;
      var fatSector := geo.fatLba + fatOffset / SECTOR;
      var byteOffset := fatOffset % SECTOR;
      entry := Le32(sectors[fatSector], byteOffset) % ENTRY_MODULUS;
    }

    /** Writes back a FAT sector in which entry `cluster` was set, and mirrors it to the second FAT. */
    method StoreFatSector(n: nat, tmp: Sector, ghost cluster: nat, ghost value: nat)
      requires Rep() && cluster < |st.fat| && n == cluster / 128 && geo.fatLba + n < |sectors|
      requires tmp == SetEntry(sectors[geo.fatLba + n], cluster % 128, value)
      modifies this
      ensures Rep() && st == old(st).(fat := old(st.fat)[cluster := value % ENTRY_MODULUS])
    {
      hide DiskRep, SetEntry;
      FatsInside(geo, |sectors|);
      FatWriteRep(geo, sectors, st.fat, st.data, cluster, value);
      sectors := sectors[geo.fatLba + n := tmp];
      if geo.numFats > 1 {
        sectors := sectors[geo.fatLba + n + geo.sectorsPerFat := tmp];
      }
      st := st.(fat := st.fat[cluster := value % ENTRY_MODULUS]);
    }

    method WriteFat(cluster: nat, value: nat)
      requires Rep() && cluster < |st.fat|
      modifies this
      ensures Rep() && st == old(st).(fat := old(st.fat)[cluster := value % ENTRY_MODULUS])
    {
      FatsInside(geo, |sectors|);
      var fatOffset := cluster * 4;
      var n := fatOffset / SECTOR;
      var byteOffset := fatOffset % SECTOR;
      assert n == cluster / 128 && byteOffset / 4 == cluster % 128;
      var tmp := sectors[geo.fatLba + n];
      tmp := SetEntry(tmp, byteOffset / 4, value);
      StoreFatSector(n, tmp, cluster, value);
    }

    /** Claims the lowest free cluster, or returns 0 when there is none. */
    method AllocCluster() returns (cluster: nat)
      requires Rep()
      modifies this
      ensures Rep()
      ensures cluster == 0 ==> st == old(st) && FreeSet(st.fat) == {}
      ensures cluster != 0 ==>
        && 2 <= cluster < |old(st.fat)| && old(st.fat)[cluster] == CLUSTER_FREE
        && (forall c :: 2 <= c < cluster ==> old(st.fat)[c] != CLUSTER_FREE)
        && st == old(st).(fat := old(st.fat)[cluster := CLUSTER_EOC])
    {
      FatsInside(geo, |sectors|);
      var s := 0;
      while s < geo.sectorsPerFat
        invariant s <= geo.sectorsPerFat
        invariant forall c :: 2 <= c < 128 * s ==> st.fat[c] != CLUSTER_FREE
        invariant sectors == old(sectors) && st == old(st)
      {
        var tmp := sectors[geo.fatLba + s];
        var e := 0;
        while e < 128
          invariant e <= 128
          invariant forall c :: 2 <= c < 128 * s + e ==> st.fat[c] != CLUSTER_FREE
        {
          var val := Le32(tmp, 4 * e) % ENTRY_MODULUS;
          cluster := s * 128 + e;
          assert st.fat[cluster] == EntryAt(sectors[geo.fatLba + cluster / 128], cluster % 128);
          if cluster >= 2 && val == CLUSTER_FREE {
            tmp := SetEntry(tmp, e, CLUSTER_EOC);
            StoreFatSector(s, tmp, cluster, CLUSTER_EOC);
            return;
          }
          e := e + 1;
        }
        s := s + 1;
      }
      cluster := 0;
    }

    /** Frees every cluster the links from `start` lead to; ends on cyclic FATs too. */
    method FreeClusterChain(start: nat)
      requires Rep() && SafeWalk(st.fat, start)
      modifies this
      ensures Rep() && st == old(st).(fat := Freed(old(st.fat), start))
    {
      var cluster: nat := start;
      while 2 <= cluster < CLUSTER_BAD
        invariant Rep() && SafeWalk(st.fat, cluster)
        invariant st == old(st).(fat := st.fat)
        invariant Freed(st.fat, cluster) == Freed(old(st.fat), start)
        decreases |UsedSet(st.fat)|, cluster
      {
        var next := NextCluster(cluster);
        ghost var fat := st.fat;
        if next == CLUSTER_FREE {
          assert fat[cluster := CLUSTER_FREE] == fat;
        } else {
          ReleaseCount(fat, cluster);
        }
        WriteFat(cluster, CLUSTER_FREE);
        cluster := next;
      }
    }

    // ----- sectors of clusters -----

    method ReadData(cluster: nat, s: nat) returns (buf: Sector)
      requires Rep() && 2 <= cluster < |st.data| && s < geo.sectorsPerCluster
      ensures buf == st.data[cluster][SECTOR * s..SECTOR * s + SECTOR]
    {
      LbaInside(geo, |sectors|, cluster, s);
      assert InCluster(geo, sectors, st.data[cluster], cluster, s);
      buf := sectors[geo.Lba(cluster, 0) + s];
    }

    method WriteData(cluster: nat, s: nat, buf: Sector)
      requires Rep() && 2 <= cluster < |st.data| && s < geo.sectorsPerCluster
      modifies this
      ensures Rep()
      ensures st == old(st).(data := old(st.data)[cluster := Splice(old(st.data)[cluster], SECTOR * s, buf)])
    {
      LbaInside(geo, |sectors|, cluster, s);
      DataWriteRep(geo, sectors, st.fat, st.data, cluster, s, buf);
      sectors := sectors[geo.Lba(cluster, 0) + s := buf];
      st := st.(data := st.data[cluster := Splice(st.data[cluster], SECTOR * s, buf)]);
    }

    /** Reads `n` bytes from offset `o` of one cluster, sector by sector. */
    method ReadInCluster(cluster: nat, o: nat, n: nat) returns (buf: seq<byte>)
      requires Rep() && 2 <= cluster < |st.data| && o + n <= geo.ClusterSize()
      ensures buf == st.data[cluster][o..o + n]
    {
      hide DiskRep;
      buf := [];
      while |buf| < n
        invariant |buf| <= n
        invariant buf == st.data[cluster][o..o + |buf|]
      {
        var sectorIndex := (o + |buf|) / SECTOR;
        var offsetInSector := (o + |buf|) % SECTOR;
        var avail := SECTOR - offsetInSector;
        var chunk := if n - |buf| < avail then n - |buf| else avail;
        var sector := ReadData(cluster, sectorIndex);
        SliceInside(st.data[cluster], SECTOR * sectorIndex, SECTOR * sectorIndex + SECTOR, offsetInSector, chunk);
        SliceConcat(st.data[cluster], o, |buf|, chunk);
        buf := buf + sector[offsetInSector..offsetInSector + chunk];
      }
    }

    /** Overwrites bytes of one cluster from offset `o` on, sector by sector. */
    method WriteInCluster(cluster: nat, o: nat, bytes: seq<byte>)
      requires Rep() && 2 <= cluster < |st.data| && o + |bytes| <= geo.ClusterSize()
      modifies this
      ensures Rep()
      ensures st == old(st).(data := old(st.data)[cluster := Splice(old(st.data)[cluster], o, bytes)])
    {
      hide DiskRep;
      var done := 0;
      ghost var d := st.data[cluster];
      assert Splice(d, o, bytes[..0]) == d;
      while done < |bytes|
        invariant done <= |bytes| && Rep()
        invariant st == old(st).(data := old(st.data)[cluster := Splice(d, o, bytes[..done])])
      {
        var sectorIndex := (o + done) / SECTOR;
        var offsetInSector := (o + done) % SECTOR;
        var avail := SECTOR - offsetInSector;
        var chunk := if |bytes| - done > avail then avail else |bytes| - done;
        var tmp := ReadData(cluster, sectorIndex);
        tmp := Splice(tmp, offsetInSector, bytes[done..done + chunk]);
        SectorPatch(d, o, bytes, done, chunk, sectorIndex, offsetInSector);
        WriteData(cluster, sectorIndex, tmp);
        done := done + chunk;
      }
      assert bytes[..done] == bytes;
    }

    /** Fills one cluster with the next bytes of `content` (all but the last `remaining` are
        already stored), zeros after its end; returns what is left. */
    method FillCluster(cluster: nat, content: seq<byte>, remaining: nat) returns (left: nat)
      requires Rep() && 2 <= cluster < |st.data| && remaining <= |content|
      modifies this
      ensures Rep()
      ensures left == if remaining > geo.ClusterSize() then remaining - geo.ClusterSize() else 0
      ensures st == old(st).(data := old(st.data)[cluster := Window(content, |content| - remaining, geo.ClusterSize())])
    {
      hide DiskRep, Window, Splice;
      left := remaining;
      ghost var start := |content| - remaining;
      WindowNone(content, start);
      var s := 0;
      while s < geo.sectorsPerCluster
        invariant s <= geo.sectorsPerCluster && Rep()
        invariant left == if remaining > SECTOR * s then remaining - SECTOR * s else 0
        invariant |st.data| == |old(st.data)| && st == old(st).(data := old(st.data)[cluster := st.data[cluster]])
        invariant st.data[cluster][..SECTOR * s] == Window(content, start, SECTOR * s)
      {
        var tmp: Sector := seq(SECTOR, _ => 0);
        var chunk := if left > SECTOR then SECTOR else left;
        if chunk > 0 {
          var src := |content| - left;
          tmp := Splice(tmp, 0, content[src..src + chunk]);
          left := left - chunk;
        }
        WindowSector(content, start + SECTOR * s, chunk, tmp);
        FillStep(st.data[cluster], content, start, s, tmp);
        WriteData(cluster, s, tmp);
        s := s + 1;
      }
      assert st.data[cluster][..SECTOR * s] == st.data[cluster];
    }

    // ----- cluster chains -----

    /** Stores `content` in freshly claimed clusters; 0 when they do not suffice. */
    method WriteClusterChain(content: seq<byte>) returns (first: nat, ghost ch: seq<nat>)
      requires Rep()
      modifies this
      ensures Rep() && st == old(st).(fat := st.fat, data := st.data)
      ensures first != 0 <==> ClustersFor(|content|, geo.ClusterSize()) <= |FreeSet(old(st.fat))|
      ensures first != 0 ==> |ch| == ClustersFor(|content|, geo.ClusterSize()) && ch[0] == first
      ensures first == 0 ==> FreeSet(st.fat) == {}
      ensures Written(old(st), st, content, ch, geo.ClusterSize())
    {
      hide DiskRep, Written, Window, ClustersFor, FreeSet;
      var clustersNeeded := ClustersFor(|content|, geo.ClusterSize());
      ClustersForEnough(|content|, geo.ClusterSize());
      WrittenStart(st, content, geo.ClusterSize());
      first, ch := 0, [];
      var prev := 0;
      var remaining := |content|;
      var c := 0;
      while c < clustersNeeded
        invariant c <= clustersNeeded && Rep() && |ch| == c
        invariant st == old(st).(fat := st.fat, data := st.data)
        invariant if c == 0 then prev == first == 0 else prev == ch[c - 1] && first == ch[0] && first != 0 && prev != 0
        invariant remaining
                == if Times(c, geo.ClusterSize()) < |content| then |content| - Times(c, geo.ClusterSize()) else 0
        invariant Written(old(st), st, content, ch, geo.ClusterSize())
      {
        ghost var before := st;
        WrittenCount(old(st), st, content, ch, geo.ClusterSize());
        var cl := AllocCluster();
        if cl == 0 {
          first := 0;
          return;
        }
        WrittenInside(old(st), before, content, ch, geo.ClusterSize());
        if first == 0 { first := cl; }
        if prev != 0 { WriteFat(prev, cl); }
        prev := cl;
        remaining := FillCluster(cl, content, remaining);
        WrittenStep(old(st), before, st, content, ch, cl, geo.ClusterSize());
        ch := ch + [cl];
        c := c + 1;
      }
      WrittenCount(old(st), st, content, ch, geo.ClusterSize());
    }

    // ----- directory -----

    /** Walks the root directory for the first slot where the search stops. */
    method DirFind(wanted: Wanted)
      returns (found: bool, lba: nat, idx: nat, result: RawEntry, ghost i: nat, ghost k: nat, ghost s: nat)
      requires Valid()
      ensures found ==>
        && i < |st.dir| && result == st.dir[i] && Finds(wanted, result)
        && (forall j :: 0 <= j < i ==> !Stops(wanted, st.dir[j]))
        && k < |st.root| && s < geo.sectorsPerCluster && 2 <= st.root[k] && lba == geo.Lba(st.root[k], s)
        && Place(geo.ClusterSize(), i, k, s, idx)
      ensures !found ==> forall j :: 0 <= j < |st.dir| ==> !Finds(wanted, st.dir[j])
    {
      hide DiskRep, SlotsOk, Disjoint, UniqueNames, Represents, Gather, Slots, Stops, Live;
      lba, idx, result := 0, 0, seq(ENTRY_SIZE, _ => 0);
      var cluster: nat := rootCluster;
      k, i, s := 0, 0, 0;
      while 2 <= cluster < CLUSTER_BAD
        invariant k <= |st.root| && (if k < |st.root| then cluster == st.root[k] else cluster >= CLUSTER_EOC)
        invariant ENTRY_SIZE * i == Times(k, geo.ClusterSize())
        invariant forall j :: 0 <= j < i && j < |st.dir| ==> !Stops(wanted, st.dir[j])
        decreases |st.root| - k
      {
        var sec: nat := 0;
        while sec < geo.sectorsPerCluster
          invariant sec <= geo.sectorsPerCluster
          invariant ENTRY_SIZE * i == Times(k, geo.ClusterSize()) + SECTOR * sec
          invariant forall j :: 0 <= j < i && j < |st.dir| ==> !Stops(wanted, st.dir[j])
        {
          var buf := ReadData(cluster, sec);
          var e: nat := 0;
          while e < 16
            invariant e <= 16
            invariant ENTRY_SIZE * i == Times(k, geo.ClusterSize()) + SECTOR * sec + ENTRY_SIZE * e
            invariant forall j :: 0 <= j < i && j < |st.dir| ==> !Stops(wanted, st.dir[j])
          {
            var entry: RawEntry := buf[ENTRY_SIZE * e..ENTRY_SIZE * e + ENTRY_SIZE];
            SlotRead(st, geo.ClusterSize(), i, k, sec, e, buf);
            if Stops(wanted, entry) {
              found, lba, idx, result, s := Finds(wanted, entry), geo.Lba(cluster, sec), e, entry, sec;
              if !found { NothingPast(st.dir, wanted, i); }
              return;
            }
            e, i := e + 1, i + 1;
          }
          sec := sec + 1;
        }
        cluster := NextCluster(cluster);
        k := k + 1;
      }
      found := false;
      DirLength(st, geo.ClusterSize(), i);
      NothingFound(st.dir, wanted);
    }

    /** Writes one directory entry back to its sector. */
    method WriteDirEntry(lba: nat, idx: nat, entry: RawEntry, ghost c: nat, ghost s: nat)
      requires Rep() && 2 <= c < |st.data| && s < geo.sectorsPerCluster && lba == geo.Lba(c, s) && idx < 16
      modifies this
      ensures Rep()
      ensures st == old(st).(data := old(st.data)[c := Splice(old(st.data)[c], SECTOR * s + ENTRY_SIZE * idx, entry)])
    {
      LbaInside(geo, |sectors|, c, s);
      assert InCluster(geo, sectors, st.data[c], c, s);
      var tmp: Sector := sectors[lba];
      tmp := Splice(tmp, ENTRY_SIZE * idx, entry);
      SectorWithin(st.data[c], s, ENTRY_SIZE * idx, entry);
      DataWriteRep(geo, sectors, st.fat, st.data, c, s, tmp);
      hide DiskRep;
      sectors := sectors[lba := tmp];
      st := st.(data := st.data[c := Splice(st.data[c], SECTOR * s, tmp)]);
    }

    // ----- file operations -----

    method Create(name: CName, content: seq<byte>) returns (ok: bool)
      requires Valid() && |content| < 0x1_0000_0000
      modifies this
      ensures ok <==>
              SlotLeft(old(st.dir))
              && (content == [] || ClustersFor(|content|, geo.ClusterSize()) <= |FreeSet(old(st.fat))|)
      ensures !ok ==> Valid() && st.files == old(st.files)
      ensures !ok && !SlotLeft(old(st.dir)) ==> st == old(st)
      ensures !ok && SlotLeft(old(st.dir)) ==>
        && FreeSet(st.fat) == {} && st.dir == old(st.dir) && st.chains == old(st.chains)
        && forall c: nat :: Lost(st, c) <==> Lost(old(st), c) || c in FreeSet(old(st.fat))
      ensures ok && Encoded(name) !in old(st.files) && !Hidden(Encoded(name)) ==>
        Valid() && st.files == old(st.files)[Encoded(name) := content] && SameLost(old(st), st)
            && Adds(old(st), st, Encoded(name))
      ensures ok && Hidden(Encoded(name)) ==> Valid() && st.files == old(st.files)
      ensures ok && Encoded(name) in old(st.files) ==> Rep() && !UniqueNames(Slots(Gather(st.data, st.root)))
    {
      hide DiskRep, Good, Written, ClustersFor, FreeSet, Times, Slots, Gather, UniqueNames, Live, SameLost, NewEntry;
      hide Adds, Lost;
      var found, lba, idx, _, i, k, s := DirFind(FreeSlot);
      if !found {
        ok := false;
        return;
      }
      ghost var was := st;
      var first: nat;
      ghost var ch: seq<nat>;
      first, ch := WriteClusterChain(content);
      WrittenCount(was, st, content, ch, geo.ClusterSize());
      WrittenInside(was, st, content, ch, geo.ClusterSize());
      ClustersForEnough(|content|, geo.ClusterSize());
      if first == 0 && |content| > 0 {
        CreateFailed(was, st, geo.ClusterSize(), content, ch);
        ClaimedLost(was, st, geo.ClusterSize());
        ok := false;
        return;
      }
      FreeSlotFound(was.dir, i);
      CreateKept(was, st, geo.ClusterSize(), content, ch, i);
      GoodSizes(was, geo.ClusterSize());
      var raw := Encode83(name);
      EncodedNotEnd(name);
      HiddenFresh(was, geo.ClusterSize(), raw);
      var entry := NewEntry(raw, first, |content|);
      ok := true;
      ghost var mid := st;
      assert was.root[k] in was.root;
      WriteDirEntry(lba, idx, entry, was.root[k], s);
      if raw in was.files {
        CreateDouble(was, mid, st, geo.ClusterSize(), i, k, s, idx, entry);
      } else {
        st := st.(dir := was.dir[i := entry], chains := was.chains[i := OwnChain(first, raw, ch)],
                  files := FilesAfter(was, mid, i, entry, OwnChain(first, raw, ch)));
        CreateDone(was, mid, st, geo.ClusterSize(), content, first, ch, i, k, s, idx, raw, entry);
      }
    }

    method Write(name: CName, content: seq<byte>) returns (ok: bool, ghost freed: seq<nat>)
      requires Valid() && |content| < 0x1_0000_0000
      modifies this
      ensures Encoded(name) in old(st.files) ==>
        (ok <==> content == [] || ClustersFor(|content|, geo.ClusterSize()) <= |FreeSet(old(st.fat))| + |freed|)
      ensures Encoded(name) !in old(st.files) ==>
        (ok <==>
            SlotLeft(old(st.dir))
            && (content == [] || ClustersFor(|content|, geo.ClusterSize()) <= |FreeSet(old(st.fat))|))
      ensures ok && !Hidden(Encoded(name)) ==>
        Valid() && st.files == old(st.files)[Encoded(name) := content] && SameLost(old(st), st)
      ensures Encoded(name) in old(st.files) ==> ChainOf(old(st), Encoded(name), freed)
      ensures !ok && Encoded(name) !in old(st.files) ==> Valid() && st.files == old(st.files)
      ensures !ok && Encoded(name) in old(st.files) ==>
        Rep() && FreeSet(st.fat) == {} && AllBut(old(st), st, Encoded(name))
    {
      hide DiskRep, Good, Written, ClustersFor, FreeSet, Times, Slots, Gather, UniqueNames, Live, SameLost, Restamp;
      hide SlotOk, Content, Freed, AllBut, Kept, Clear, ClaimsFat, Emptied, Names, Lost;
      freed := [];
      var target := Encode83(name);
      var found, lba, idx, result, i, k, s := DirFind(Match(target));
      if !found {
        MatchNotFound(st, geo.ClusterSize(), target);
        ok := Create(name, content);
        return;
      }
      ghost var was := st;
      MatchFound(was, geo.ClusterSize(), target, i);
      GoodSizes(was, geo.ClusterSize());
      FreedSlot(was, geo.ClusterSize(), i);
      freed := was.chains[i];
      FreeClusterChain(FirstCluster(result));
      ghost var emptied := st;
      var first: nat;
      ghost var ch: seq<nat>;
      first, ch := WriteClusterChain(content);
      WrittenCount(emptied, st, content, ch, geo.ClusterSize());
      WrittenInside(emptied, st, content, ch, geo.ClusterSize());
      ClustersForEnough(|content|, geo.ClusterSize());
      if first == 0 && |content| > 0 {
        RewriteKept(was, emptied, st, geo.ClusterSize(), content, ch, i);
        KeptOthers(was, st, geo.ClusterSize(), i, target);
        ok := false;
        return;
      }
      var updated := Restamp(result, first, |content|);
      ok := true;
      ghost var mid := st;
      assert was.root[k] in was.root;
      WriteDirEntry(lba, idx, updated, was.root[k], s);
      st := st.(dir := was.dir[i := updated], chains := was.chains[i := ch],
          files := FilesAfter(was, mid, i, updated, ch));
      RewriteDone(was, emptied, mid, st, geo.ClusterSize(), content, first, ch, i, k, s, idx, updated);
    }

    method Delete(name: CName) returns (ok: bool, ghost freed: seq<nat>)
      requires Valid()
      modifies this
      ensures Valid()
      ensures ok <==> Encoded(name) in old(st.files)
      ensures st.files == old(st.files) - {Encoded(name)}
      ensures SameLost(old(st), st) && (ok ==> Adds(st, old(st), Encoded(name)))
      ensures |FreeSet(st.fat)| == |FreeSet(old(st.fat))| + |freed|
      ensures if ok then ChainOf(old(st), Encoded(name), freed) && Emptied(old(st.fat), st.fat, freed)
              else st == old(st) && freed == []
    {
      hide DiskRep, Good, FreeSet, Times, Slots, Gather, UniqueNames, Live, Restamp, SlotOk, Content, Freed, Deleted;
      hide Emptied, Adds, Names, Lost;
      freed := [];
      var target := Encode83(name);
      var found, lba, idx, result, i, k, s := DirFind(Match(target));
      if !found {
        MatchNotFound(st, geo.ClusterSize(), target);
        ok := false;
        return;
      }
      ghost var was := st;
      MatchFound(was, geo.ClusterSize(), target, i);
      GoodSizes(was, geo.ClusterSize());
      FreedSlot(was, geo.ClusterSize(), i);
      freed := was.chains[i];
      FreeClusterChain(FirstCluster(result));
      ok := true;
      ghost var mid := st;
      assert was.root[k] in was.root;
      WriteDirEntry(lba, idx, Deleted(result), was.root[k], s);
      st := st.(dir := was.dir[i := Deleted(result)], chains := was.chains[i := []],
                files := FilesAfter(was, mid, i, Deleted(result), []));
      DeleteDone(was, mid, st, geo.ClusterSize(), i, k, s, idx);
    }

    /** Stores the next bytes of `content` in cluster `cl`, touching only as many sectors as they need. */
    method AppendFill(cl: nat, content: seq<byte>, written: nat) returns (w: nat)
      requires Rep() && 2 <= cl < |st.data| && written < |content|
      modifies this
      ensures Rep() && |st.data| == |old(st.data)|
      ensures w == if |content| - written < geo.ClusterSize() then |content| else written + geo.ClusterSize()
      ensures st == old(st).(data := old(st.data)[cl := st.data[cl]])
      ensures st.data[cl][..w - written] == content[written..w]
    {
      hide DiskRep, Splice;
      w := written;
      var remaining := |content| - written;
      var s := 0;
      while s < geo.sectorsPerCluster && remaining > 0
        invariant s <= geo.sectorsPerCluster && Rep() && remaining == |content| - w
        invariant w == if |content| - written < SECTOR * s then |content| else written + SECTOR * s
        invariant |st.data| == |old(st.data)| && st == old(st).(data := old(st.data)[cl := st.data[cl]])
        invariant st.data[cl][..w - written] == content[written..w]
      {
        var tmp: Sector := seq(SECTOR, _ => 0);
        var chunk := if remaining > SECTOR then SECTOR else remaining;
        tmp := Splice(tmp, 0, content[w..w + chunk]);
        PatchNext(st.data[cl], SECTOR * s, tmp, content, written, w, chunk);
        ghost var before := st;
        WriteData(cl, s, tmp);
        UpdateTwice(old(st.data), cl, before.data[cl], st.data[cl]);
        w := w + chunk;
        remaining := remaining - chunk;
        s := s + 1;
      }
    }

    /** The last cluster a file's bytes reach, or 0 for a file without clusters. */
    method LastUsed(first: nat, size: nat, ghost i: nat) returns (last: nat)
      requires Valid() && i < |st.dir| && Live(st.dir[i]) && first == FirstCluster(st.dir[i])
      requires size == FileSize(st.dir[i])
      ensures first == 0 ==> last == 0
      ensures first != 0 ==>
        && i < |st.chains| && 0 < Used(first, size, geo.ClusterSize()) <= |st.chains[i]|
        && last == st.chains[i][Used(first, size, geo.ClusterSize()) - 1]
    {
      hide DiskRep, Good, Live, Used, Times, Gather;
      last := 0;
      UsedValue(first, size, geo.ClusterSize());
      if first != 0 {
        UsedFacts(st, geo.ClusterSize(), i);
        LiveContent(st, geo.ClusterSize(), i);
        last := first;
        var n := (size + geo.ClusterSize() - 1) / geo.ClusterSize();
        var j := 1;
        while j < n
          invariant 1 <= j <= (if n == 0 then 1 else n) && j <= |st.chains[i]| && last == st.chains[i][j - 1]
        {
          var next := NextCluster(last);
          assert st.fat[st.chains[i][j - 1]] == st.chains[i][j];
          if next < 2 || next >= CLUSTER_BAD {
            assert false;
          }
          last := next;
          j := j + 1;
        }
      }
    }

    /** Writes as much of `content` as the clusters in use still hold. */
    method FillTail(first: nat, last: nat, size: nat, content: seq<byte>, ghost i: nat,
                    ghost cur: seq<nat>) returns (written: nat)
      requires Valid() && i < |st.dir| && Live(st.dir[i]) && first == FirstCluster(st.dir[i])
      requires size == FileSize(st.dir[i])
      requires cur <= (if i < |st.chains| then st.chains[i] else []) && |cur| == Used(first, size, geo.ClusterSize())
      requires if first == 0 then last == 0 else cur != [] && last == cur[|cur| - 1]
      modifies this
      ensures Rep() && written <= |content|
      ensures Appending(old(st), st, geo.ClusterSize(), i, content, written, cur, false)
    {
      hide DiskRep, Good, Live, Used, Appending, Splice;
      ghost var was, cs := st, geo.ClusterSize();
      FillRoom(was, cs, i, cur);
      written := 0;
      var clusterSize := geo.ClusterSize();
      if size == 0 && first != 0 && |content| > 0 {
        var n := |content|;
        if n > clusterSize { n := clusterSize; }
        WriteInCluster(first, 0, content[..n]);
        FillDone(was, st, cs, i, cur, 0, n, content);
        written := written + n;
      }
      if last != 0 && size % clusterSize != 0 {
        var off := size % clusterSize;
        var n := clusterSize - off;
        if n > |content| { n := |content|; }
        WriteInCluster(last, off, content[..n]);
        FillDone(was, st, cs, i, cur, off, n, content);
        written := written + n;
      }
      if !(size == 0 && first != 0 && |content| > 0) && !(last != 0 && size % clusterSize != 0) {
        FillNothing(was, cs, i, cur, content);
      }
    }

    /** Claims and fills clusters until all of `content` is stored or the disk is full. */
    method AppendGrow(first0: nat, last0: nat, content: seq<byte>, written0: nat, ghost was: State, ghost i: nat,
                      ghost m: nat, ghost start: seq<nat>)
      returns (ok: bool, first: nat, ghost cur: seq<nat>, ghost grown: bool)
      requires Rep() && Good(was, geo.ClusterSize()) && i < |was.dir| && Live(was.dir[i]) && i < |was.chains|
      requires Appending(was, st, geo.ClusterSize(), i, content, written0, start, false) && written0 <= |content|
      requires Reach(was, geo.ClusterSize(), i, content, start, false) && KeepsUsed(was, i, m, start) && |start| == m
      requires if start == [] then first0 == last0 == 0 else first0 == start[0] && last0 == start[|start| - 1]
      requires FileSize(was.dir[i]) <= |Gather(was.data, was.chains[i])|
      modifies this
      ensures Rep()
      ensures ok ==>
        && Appending(was, st, geo.ClusterSize(), i, content, |content|, cur, grown)
        && Reach(was, geo.ClusterSize(), i, content, cur, grown) && KeepsUsed(was, i, m, cur)
        && first == if cur == [] then 0 else cur[0]
      ensures !ok ==> Good(st, geo.ClusterSize()) && st.files == was.files && st.root == was.root
      ensures !ok ==> FileSize(was.dir[i]) + |content|
                        > Times(Used(FirstCluster(was.dir[i]), FileSize(was.dir[i]), geo.ClusterSize())
                                + |FreeSet(was.fat)|, geo.ClusterSize())
    {
      hide DiskRep, Good, FreeSet, Times, Gather, Live, Appending, Reach, Used, KeepsUsed, FailChain;
      ghost var cs := geo.ClusterSize();
      cur, grown := start, false;
      first := first0;
      var last, written := last0, written0;
      AppendLive(was, st, cs, i, content, written, cur, grown);
      while written < |content|
        invariant Rep() && written <= |content| && Appending(was, st, cs, i, content, written, cur, grown)
        invariant Reach(was, cs, i, content, cur, grown) && KeepsUsed(was, i, m, cur) && (grown || |cur| == m)
        invariant if cur == [] then first == last == 0 else first == cur[0] && last == cur[|cur| - 1] && last != 0
      {
        ghost var mid := st;
        AppendLive(was, mid, cs, i, content, written, cur, grown);
        var cl := AllocCluster();
        if cl == 0 {
          ReachFailed(was, st, cs, i, content, written, cur, grown);
          AppendFailed(was, st, cs, i, content, written, cur, grown);
          st := st.(chains := was.chains[i := FailChain(was, i, cur, grown)]);
          ok := false;
          return;
        }
        if last != 0 {
          WriteFat(last, cl);
        } else {
          first := cl;
        }
        last := cl;
        var w := AppendFill(cl, content, written);
        AppendStep(was, mid, st, cs, i, content, written, cur, grown, cl, w - written);
        ReachStep(was, mid, cs, i, content, written, cur, grown, cl);
        KeepsUsedStep(was, mid, cs, i, content, written, cur, grown, m, cl);
        cur, grown, written := cur + [cl], true, w;
      }
      ok := true;
    }

    method Append(name: CName, content: seq<byte>) returns (ok: bool, ghost slot: nat, ghost orphaned: seq<nat>)
      requires Valid() && |content| < 0x1_0000_0000
      requires Encoded(name) in st.files ==> |st.files[Encoded(name)]| + |content| < 0x1_0000_0000
      modifies this
      ensures !ok ==> Valid() && st.files == old(st.files)
      ensures ok && Encoded(name) in old(st.files) ==>
        Valid() && st.files == old(st.files)[Encoded(name) := old(st.files)[Encoded(name)] + content]
      ensures ok && Encoded(name) !in old(st.files) && !Hidden(Encoded(name)) ==>
        Valid() && st.files == old(st.files)[Encoded(name) := content]
      ensures ok && Hidden(Encoded(name)) ==> Valid() && st.files == old(st.files)
      ensures ok && !Hidden(Encoded(name)) ==> LostPlus(old(st), st, orphaned)
      ensures Encoded(name) !in old(st.files) ==> orphaned == []
      ensures Encoded(name) in old(st.files) ==>
        AppendOutcome(old(st), geo.ClusterSize(), Encoded(name), |content|, ok, slot, orphaned)
    {
      hide DiskRep, Good, FreeSet, Times, Slots, Gather, Live, SameLost, LostPlus, Restamp, Content,
        Appending, Reach, Used, KeepsUsed, FinalChain, FilesAfter, IsChain, AppendOutcome, Orphaned;
      slot, orphaned := 0, [];
      var target := Encode83(name);
      var found, lba, idx, result, i, k, s := DirFind(Match(target));
      ghost var was, cs := st, geo.ClusterSize();
      if !found {
        MatchNotFound(st, geo.ClusterSize(), target);
        ok := Create(name, content);
        if SameLost(was, st) { SameLostPlus(was, st); }
        return;
      }
      MatchFound(was, cs, target, i);
      GoodSizes(was, cs);
      UsedFacts(was, cs, i);
      slot := i;
      var first0: nat := FirstCluster(result);
      var size := FileSize(result);
      ghost var m := Used(first0, size, cs);
      ghost var start := was.chains[i][..m];
      FillRoom(was, cs, i, start);
      ReachStart(was, cs, i, content, start);
      var last := LastUsed(first0, size, i);
      var written := FillTail(first0, last, size, content, i, start);
      var first: nat;
      ghost var cur, grown;
      ok, first, cur, grown := AppendGrow(first0, last, content, written, was, i, m, start);
      if !ok {
        OutcomeFailed(was, cs, target, |content|, i);
        return;
      }
      OutcomeDone(was, st, cs, target, i, content, cur, grown, m);
      AppendLive(was, st, cs, i, content, |content|, cur, grown);
      var updated := Restamp(result, first, size + |content|);
      ghost var mid := st;
      assert was.root[k] in was.root;
      WriteDirEntry(lba, idx, updated, was.root[k], s);
      st := st.(dir := was.dir[i := updated], chains := was.chains[i := FinalChain(was, i, cur, grown)],
                files := FilesAfter(was, mid, i, updated, FinalChain(was, i, cur, grown)));
      assert st.fat == mid.fat && st.root == mid.root;
      AppendDone(was, mid, st, cs, i, k, s, idx, content, cur, grown, updated);
      orphaned := Orphaned(was, i, m, grown);
      LostDone(was, mid, st, cs, i, content, cur, grown, m);
    }
  }

  predicate SlotLeft(dir: seq<RawEntry>) {
    exists i :: 0 <= i < |dir| && Finds(FreeSlot, dir[i])
  }

  lemma NothingPast(dir: seq<RawEntry>, w: Wanted, i: nat)
    requires Terminated(dir) && i < |dir|
    requires Stops(w, dir[i]) && !Finds(w, dir[i])
    requires forall j :: 0 <= j < i ==> !Stops(w, dir[j])
    ensures forall j :: 0 <= j < |dir| ==> !Finds(w, dir[j])
  {
  }

  lemma NothingFound(dir: seq<RawEntry>, w: Wanted)
    requires forall j :: 0 <= j < |dir| ==> !Stops(w, dir[j])
    ensures forall j :: 0 <= j < |dir| ==> !Finds(w, dir[j])
  {
  }

  lemma DirLength(st: State, cs: nat, i: nat)
    requires Shape(st.fat, st.data, cs) && IsChain(st.fat, st.root) && st.dir == Slots(Gather(st.data, st.root))
    requires ENTRY_SIZE * i == Times(|st.root|, cs)
    ensures i == |st.dir|
  {
    GatherLength(st.data, st.root, cs);
  }
}
