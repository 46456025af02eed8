/** Reading and overwriting open files, listing the root directory, and reading a whole file by name. */
module FatFileIO {
  import opened Options
  import opened Bytes
  import opened FatFormat
  import opened FatNames
  import opened FatChains
  import opened FatWalk
  import opened FatDisk
  import opened FatSteps
  import opened FatAppend
  import opened FatVolume

  /** What a read of `len` bytes at `offset` yields. */
  function Excerpt(content: seq<byte>, offset: nat, len: nat): seq<byte> {
    if offset >= |content| then []
    else if len < |content| - offset then content[offset..offset + len]
    else content[offset..]
  }

  /** The open file (first cluster and size) is slot `i` of the directory. */
  ghost predicate Opens(st: State, first: nat, size: nat, i: nat) {
    && i < |st.dir| && i < |st.chains| && Live(st.dir[i])
    && first == FirstCluster(st.dir[i]) && size == FileSize(st.dir[i])
  }

  /** `cluster` is the `k`-th cluster of `ch`, or the end mark behind the last. */
  predicate ClusterAt(fat: seq<nat>, ch: seq<nat>, k: nat, cluster: nat) {
    if k < |ch| then cluster == ch[k] else cluster >= CLUSTER_EOC
  }

  lemma ClusterNext(fat: seq<nat>, ch: seq<nat>, k: nat)
    requires IsChain(fat, ch) && k < |ch|
    ensures ch[k] < |fat| && ClusterAt(fat, ch, k + 1, fat[ch[k]])
  {
  }

  /** Facts about an open file that has bytes. */
  lemma OpenFacts(st: State, cs: nat, first: nat, size: nat, i: nat)
    requires cs > 0 && Good(st, cs) && Opens(st, first, size, i) && size > 0
    ensures IsChain(st.fat, st.chains[i]) && st.chains[i][0] == first
    ensures Shape(st.fat, st.data, cs) && Sized(st.data, st.chains[i], cs)
    ensures |Content(st.data, st.dir[i], st.chains[i])| == size <= Times(|st.chains[i]|, cs)
    ensures Content(st.data, st.dir[i], st.chains[i]) == Gather(st.data, st.chains[i])[..size]
    ensures |Gather(st.data, st.chains[i])| == Times(|st.chains[i]|, cs)
    ensures st.files[NameOf(st.dir[i])] == Content(st.data, st.dir[i], st.chains[i]) && NameOf(st.dir[i]) in st.files
  {
    LiveContent(st, cs, i);
    GoodShape(st, cs);
    hide Good;
    ChainSized(st, cs, st.chains[i]);
    GatherLength(st.data, st.chains[i], cs);
  }

  lemma InsideChain(pos: nat, size: nat, k: nat, co: nat, n: nat, cs: nat)
    requires Times(k, cs) + co == pos && pos < size <= Times(n, cs) && co < cs
    ensures k < n
  {
    TimesOrder(k, n, cs) by {
      if n <= k { TimesMono(n, k, cs); }
    }
  }

  /** Follows `steps` links from the head of a chain that is longer than that. */
  method Skip(v: Volume, first: nat, steps: nat, ghost ch: seq<nat>) returns (cluster: nat)
    requires v.Rep() && IsChain(v.st.fat, ch) && first == ch[0] && steps < |ch|
    ensures cluster == ch[steps]
  {
    cluster := first;
    var j := 0;
    while j < steps
      invariant j <= steps && cluster == ch[j]
    {
      cluster := v.NextCluster(cluster);
      assert v.st.fat[ch[j]] == ch[j + 1];
      if cluster >= CLUSTER_BAD {
        assert false;
      }
      j := j + 1;
    }
  }

  method FileRead(v: Volume, first: nat, size: nat, offset: nat, len: nat, ghost i: nat) returns (buf: seq<byte>)
    requires v.Valid() && Opens(v.st, first, size, i)
    requires len < 0x8000_0000 || size < offset + 0x8000_0000
    ensures NameOf(v.st.dir[i]) in v.st.files && buf == Excerpt(v.st.files[NameOf(v.st.dir[i])], offset, len)
  {
    hide DiskRep, Good, Gather, Live, Content, Times, Distinct, Sized, Shape, IsChain, Excerpt;
    LiveContent(v.st, v.geo.ClusterSize(), i);
    ghost var content := Content(v.st.data, v.st.dir[i], v.st.chains[i]);
    ExcerptIs(content, offset, len);
    OpenSize(v.st, v.geo.ClusterSize(), i);
    buf := [];
    if offset >= size {
      return;
    }
    var remaining := size - offset;
    var n := if len > remaining then remaining else len;
    buf := ReadOpen(v, first, size, offset, n, i);
  }

  lemma ExcerptIs(content: seq<byte>, offset: nat, len: nat)
    ensures offset >= |content| ==> Excerpt(content, offset, len) == []
    ensures offset < |content| ==>
              Excerpt(content, offset, len)
                  == content[offset..offset + if len > |content| - offset then |content| - offset else len]
  {
  }

  method ReadOpen(v: Volume, first: nat, size: nat, offset: nat, n: nat, ghost i: nat) returns (buf: seq<byte>)
    requires v.Valid() && Opens(v.st, first, size, i) && offset < size && offset + n <= size
    ensures var content := Content(v.st.data, v.st.dir[i], v.st.chains[i]);
            |content| == size && buf == content[offset..offset + n]
  {
    hide DiskRep, Good, Gather, Live, Content, Times, Distinct;
    ghost var cs, ch := v.geo.ClusterSize(), v.st.chains[i];
    OpenFacts(v.st, cs, first, size, i);
    var clusterSize := v.geo.ClusterSize();
    var k: nat := offset / clusterSize;
    var co: nat := offset % clusterSize;
    TimesDivide(offset, clusterSize);
    InsideChain(offset, size, k, co, |ch|, cs);
    var cluster := Skip(v, first, k, ch);
    buf := ReadRun(v, cluster, co, n, ch, k, offset, size, Content(v.st.data, v.st.dir[i], ch));
  }

  /** The copying loop: `n` bytes from byte `co0` of the `k0`-th cluster on. */
  method ReadRun(v: Volume, cluster0: nat, co0: nat, n: nat, ghost ch: seq<nat>, ghost k0: nat, ghost offset: nat,
                 ghost size: nat, ghost content: seq<byte>)
    returns (buf: seq<byte>)
    requires v.Rep() && IsChain(v.st.fat, ch) && Sized(v.st.data, ch, v.geo.ClusterSize())
    requires size <= Times(|ch|, v.geo.ClusterSize())
    requires |Gather(v.st.data, ch)| == Times(|ch|, v.geo.ClusterSize()) && content == Gather(v.st.data, ch)[..size]
    requires offset + n <= size
    requires co0 < v.geo.ClusterSize() && Times(k0, v.geo.ClusterSize()) + co0 == offset
    requires ClusterAt(v.st.fat, ch, k0, cluster0)
    ensures buf == content[offset..offset + n]
  {
    hide DiskRep, Gather, Times, Distinct;
    ghost var cs: nat, k: nat := v.geo.ClusterSize(), k0;
    var clusterSize, cluster, co := v.geo.ClusterSize(), cluster0, co0;
    buf := [];
    assert content[offset..offset] == [];
    while |buf| < n
      invariant |buf| <= n && 0 <= co < cs && Times(k, cs) + co == offset + |buf|
      invariant buf == content[offset..offset + |buf|]
      invariant ClusterAt(v.st.fat, ch, k, cluster)
    {
      InsideChain(offset + |buf|, size, k, co, |ch|, cs);
      var toCopy := n - |buf|;
      if toCopy > clusterSize - co { toCopy := clusterSize - co; }
      var part := v.ReadInCluster(cluster, co, toCopy);
      ReadStep(v.st.data, ch, cs, k, co, toCopy, size, content, part);
      SliceConcat(content, offset, |buf|, toCopy);
      buf := buf + part;
      co := co + toCopy;
      if co >= clusterSize {
        NextRun(k, cs);
        ClusterNext(v.st.fat, ch, k);
        co := 0;
        cluster := v.NextCluster(cluster);
        k := k + 1;
      }
    }
  }

  lemma NextRun(k: nat, cs: nat)
    ensures Times(k + 1, cs) == Times(k, cs) + cs
  {
  }

  lemma OpenSize(st: State, cs: nat, i: nat)
    requires Good(st, cs) && i < |st.dir| && Live(st.dir[i])
    ensures i < |st.chains| && |Content(st.data, st.dir[i], st.chains[i])| == FileSize(st.dir[i])
  {
    LiveContent(st, cs, i);
  }

  lemma ReadStep(data: seq<seq<byte>>, ch: seq<nat>, cs: nat, k: nat, co: nat, n: nat, size: nat, content: seq<byte>,
                 part: seq<byte>)
    requires Sized(data, ch, cs) && k < |ch| && co + n <= cs
    requires size <= |Gather(data, ch)| && content == Gather(data, ch)[..size] && Times(k, cs) + co + n <= size
    requires part == data[ch[k]][co..co + n]
    ensures part == content[Times(k, cs) + co..Times(k, cs) + co + n]
  {
    GatherRead(data, ch, cs, k, co, n);
    SliceInside(Gather(data, ch), 0, size, Times(k, cs) + co, n);
  }

  // ----- overwriting in place -----

  /** `st` is `was` with the chain of slot `i` changed in place so that its bytes read `bytes`. */
  ghost predicate Overwritten(was: State, st: State, cs: nat, i: nat, bytes: seq<byte>) {
    && i < |was.chains| && Changed(was, st, cs, i, was.chains[i]) && st.fat == was.fat
    && Gather(st.data, was.chains[i]) == bytes
  }

  lemma OverwriteStart(st: State, cs: nat, first: nat, size: nat, i: nat, offset: nat)
    requires cs > 0 && Good(st, cs) && Opens(st, first, size, i) && size > 0 && offset <= size
    ensures offset <= |Gather(st.data, st.chains[i])|
    ensures Overwritten(st, st, cs, i, Splice(Gather(st.data, st.chains[i]), offset, []))
  {
    hide Good, Live, Gather, Content;
    OpenFacts(st, cs, first, size, i);
    PrefixMine(st, i, st.chains[i]);
    var g := Gather(st.data, st.chains[i]);
    assert g[..offset] + [] + g[offset..] == g;
  }

  lemma OverwriteStep(was: State, st: State, st': State, cs: nat, i: nat, offset: nat, data: seq<byte>, w: nat,
                      k: nat, co: nat, chunk: nat)
    requires i < |was.chains| && IsChain(was.fat, was.chains[i]) && |was.fat| <= CLUSTER_BAD
    requires w + chunk <= |data| && offset + |data| <= |Gather(was.data, was.chains[i])|
    requires Overwritten(was, st, cs, i, Splice(Gather(was.data, was.chains[i]), offset, data[..w]))
    requires k < |was.chains[i]| && co + chunk <= cs && Times(k, cs) + co == offset + w
    requires was.chains[i][k] < |st.data| && |st.data[was.chains[i][k]]| == cs
    requires st' == st.(data := st.data[was.chains[i][k] := Splice(st.data[was.chains[i][k]], co, data[w..w + chunk])])
    ensures Overwritten(was, st', cs, i, Splice(Gather(was.data, was.chains[i]), offset, data[..w + chunk]))
  {
    var ch := was.chains[i];
    hide Mine, Splice, Gather;
    ChainAcyclic(was.fat, ch);
    ChainSized(st, cs, ch);
    GatherWrite(st.data, ch, cs, k, co, data[w..w + chunk]);
    SpliceOn(Gather(was.data, ch), offset, data[..w], data[w..w + chunk]);
    assert data[..w] + data[w..w + chunk] == data[..w + chunk];
    assert ch[k] in ch;
  }

  lemma OverwriteDone(was: State, st: State, cs: nat, first: nat, size: nat, i: nat, offset: nat, data: seq<byte>,
                      files: map<RawName, seq<byte>>)
    requires cs > 0 && Good(was, cs) && Opens(was, first, size, i) && offset + |data| <= size && size > 0
    requires offset + |data| <= |Gather(was.data, was.chains[i])|
    requires Overwritten(was, st, cs, i, Splice(Gather(was.data, was.chains[i]), offset, data))
    requires NameOf(was.dir[i]) in was.files && |was.files[NameOf(was.dir[i])]| == size
    requires files == was.files[NameOf(was.dir[i]) := Splice(was.files[NameOf(was.dir[i])], offset, data)]
    ensures Good(st.(files := files), cs)
  {
    hide *;
    OpensSlot(was, first, size, i);
    var ch := was.chains[i];
    OverwriteParts(was, st, cs, first, size, i, Splice(Gather(was.data, ch), offset, data));
    GoodSizes(was, cs);
    OverwriteFits(was, st, cs, first, size, i, offset, data);
    ChangedKept(was, st, cs, i, ch);
    CommitInPlace(was, st, cs, i, ch, files);
    assert was.chains[i := ch] == was.chains;
  }

  lemma OpensSlot(st: State, first: nat, size: nat, i: nat)
    requires Opens(st, first, size, i)
    ensures i < |st.dir| && i < |st.chains|
  {
  }

  lemma OverwriteParts(was: State, st: State, cs: nat, first: nat, size: nat, i: nat, bytes: seq<byte>)
    requires Opens(was, first, size, i) && Overwritten(was, st, cs, i, bytes)
    ensures i < |was.dir| && Live(was.dir[i]) && Changed(was, st, cs, i, was.chains[i])
    ensures st.chains == was.chains
  {
    hide Live, Gather, Mine, Shape;
  }

  lemma OverwriteFits(was: State, st: State, cs: nat, first: nat, size: nat, i: nat, offset: nat, data: seq<byte>)
    requires cs > 0 && Good(was, cs) && Opens(was, first, size, i) && offset + |data| <= size && size > 0
    requires offset + |data| <= |Gather(was.data, was.chains[i])|
    requires Overwritten(was, st, cs, i, Splice(Gather(was.data, was.chains[i]), offset, data))
    ensures SlotOk(st.fat, st.data, was.dir[i], was.chains[i])
    ensures NameOf(was.dir[i]) in was.files && |was.files[NameOf(was.dir[i])]| == size
    ensures Content(st.data, was.dir[i], was.chains[i]) == Splice(was.files[NameOf(was.dir[i])], offset, data)
  {
    hide Good, Live, Gather, Mine, Shape, Sized;
    OpenFacts(was, cs, first, size, i);
    SplicePrefix(Gather(was.data, was.chains[i]), size, offset, data);
  }

  lemma SplicePrefix(g: seq<byte>, size: nat, offset: nat, data: seq<byte>)
    requires offset + |data| <= size <= |g|
    ensures Splice(g, offset, data)[..size] == Splice(g[..size], offset, data)
  {
  }

  method FileWrite(v: Volume, first: nat, size: nat, offset: nat, bytes: seq<byte>, ghost i: nat) returns (written: nat)
    requires v.Valid() && Opens(v.st, first, size, i)
    requires NameOf(v.st.dir[i]) in v.st.files
    modifies v
    ensures v.Valid()
    ensures var before := old(v.st.files)[NameOf(old(v.st.dir)[i])];
            && written ==
                 (if offset >= |before| then 0 else if offset + |bytes| > |before| then |before| - offset else |bytes|)
            && v.st.files == if written == 0 then old(v.st.files) else
                 old(v.st.files)[NameOf(old(v.st.dir)[i]) := Splice(before, offset, bytes[..written])]
    ensures v.st.fat == old(v.st.fat) && v.st.dir == old(v.st.dir)
  {
    hide DiskRep, Good, Gather, Live, Content, Times, Distinct, Overwritten, Splice;
    ghost var was, cs := v.st, v.geo.ClusterSize();
    LiveContent(was, cs, i);
    OpenSize(was, cs, i);
    written := 0;
    if offset >= size {
      return;
    }
    ghost var ch := was.chains[i];
    OpenFacts(was, cs, first, size, i);
    var len := |bytes|;
    if offset + len > size { len := size - offset; }
    var data := bytes[..len];
    var clusterSize := v.geo.ClusterSize();
    var k: nat := offset / clusterSize;
    var co: nat := offset % clusterSize;
    TimesDivide(offset, clusterSize);
    InsideChain(offset, size, k, co, |ch|, cs);
    var cluster := Skip(v, first, k, ch);
    OverwriteStart(was, cs, first, size, i, offset);
    assert data[..0] == [];
    WriteRun(v, cluster, co, data, was, i, k, offset, size);
    written := len;
    ghost var files := was.files[NameOf(was.dir[i]) := Splice(was.files[NameOf(was.dir[i])], offset, data)];
    OverwriteDone(was, v.st, cs, first, size, i, offset, data, files);
    v.st := v.st.(files := files);
    SpliceNothing(was.files[NameOf(was.dir[i])], offset, data);
  }

  /** The copying loop: `data` over the bytes from byte `co0` of the `k0`-th cluster on. */
  method WriteRun(v: Volume, cluster0: nat, co0: nat, data: seq<byte>, ghost was: State, ghost i: nat, ghost k0: nat,
                  ghost offset: nat, ghost size: nat)
    requires v.Rep() && v.st == was && i < |was.chains| && IsChain(was.fat, was.chains[i]) && |was.fat| <= CLUSTER_BAD
    requires Shape(was.fat, was.data, v.geo.ClusterSize())
    requires offset + |data| <= size <= Times(|was.chains[i]|, v.geo.ClusterSize())
    requires offset + |data| <= |Gather(was.data, was.chains[i])|
    requires Overwritten(was, was, v.geo.ClusterSize(), i, Splice(Gather(was.data, was.chains[i]), offset, []))
    requires k0 < |was.chains[i]| && cluster0 == was.chains[i][k0] && co0 < v.geo.ClusterSize()
    requires Times(k0, v.geo.ClusterSize()) + co0 == offset
    modifies v
    ensures v.Rep() && v.st == was.(data := v.st.data) && |v.st.data| == |was.data|
    ensures Overwritten(was, v.st, v.geo.ClusterSize(), i, Splice(Gather(was.data, was.chains[i]), offset, data))
  {
    hide DiskRep, Gather, Times, Distinct, Overwritten, Splice;
    ghost var cs, ch := v.geo.ClusterSize(), was.chains[i];
    ghost var k: nat := k0;
    var clusterSize, cluster, co, written, len := v.geo.ClusterSize(), cluster0, co0, 0, |data|;
    assert data[..0] == [];
    while written < len
      invariant v.Rep() && 0 <= written <= len && v.st == was.(data := v.st.data) && |v.st.data| == |was.data|
      invariant written < len ==> k < |ch| && cluster == ch[k] && 0 <= co < cs && Times(k, cs) + co == offset + written
      invariant Overwritten(was, v.st, cs, i, Splice(Gather(was.data, ch), offset, data[..written]))
    {
      ghost var mid := v.st;
      var chunk := len - written;
      if chunk > clusterSize - co { chunk := clusterSize - co; }
      v.WriteInCluster(cluster, co, data[written..written + chunk]);
      OverwriteStep(was, mid, v.st, cs, i, offset, data, written, k, co, chunk);
      written := written + chunk;
      co := 0;
      if written < len {
        NextRun(k, cs);
        InsideChain(offset + written, size, k + 1, 0, |ch|, cs);
        ClusterNext(was.fat, ch, k);
        cluster := v.NextCluster(cluster);
        k := k + 1;
      }
    }
    assert data[..written] == data;
  }

  lemma SpliceNothing(s: seq<byte>, offset: nat, data: seq<byte>)
    requires offset + |data| <= |s|
    ensures data == [] ==> Splice(s, offset, data) == s
  {
  }

  // ----- the root directory as a list, and whole files by name -----

  /** The live entries in slot order. */
  function LiveEntries(dir: seq<RawEntry>): seq<RawEntry> {
    if dir == [] then [] else
      var rest := LiveEntries(dir[..|dir| - 1]);
      if Live(dir[|dir| - 1]) then rest + [dir[|dir| - 1]] else rest
  }

  lemma {:induction false} LiveEntriesAre(dir: seq<RawEntry>, e: RawEntry)
    ensures e in LiveEntries(dir) <==> Live(e) && e in dir
  {
    if dir != [] {
      LiveEntriesAre(dir[..|dir| - 1], e);
      assert dir == dir[..|dir| - 1] + [dir[|dir| - 1]];
    }
  }

  lemma {:induction false} NoMoreEntries(dir: seq<RawEntry>, i: nat)
    requires Terminated(dir) && i < |dir| && dir[i][0] == SLOT_END
    ensures LiveEntries(dir) == LiveEntries(dir[..i])
    decreases |dir|
  {
    if i < |dir| - 1 {
      NoMoreEntries(dir[..|dir| - 1], i);
      assert dir[..|dir| - 1][..i] == dir[..i];
    } else {
      assert dir[..i] == dir[..|dir| - 1];
    }
  }

  /** Walks the root directory and collects its live entries up to the end marker. */
  method RootEntries(v: Volume) returns (entries: seq<RawEntry>)
    requires v.Valid()
    ensures entries == LiveEntries(v.st.dir)
  {
    hide DiskRep, SlotsOk, Disjoint, UniqueNames, Represents, Gather, Slots, Live;
    entries := [];
    var cluster: nat := v.rootCluster;
    ghost var k: nat, i: nat := 0, 0;
    ghost var cs, dir := v.geo.ClusterSize(), v.st.dir;
    while 2 <= cluster < CLUSTER_BAD
      invariant k <= |v.st.root| && ClusterAt(v.st.fat, v.st.root, k, cluster)
      invariant ENTRY_SIZE * i == Times(k, cs) && i <= |dir| && entries == LiveEntries(dir[..i])
      decreases |v.st.root| - k
    {
      var s: nat := 0;
      while s < v.geo.sectorsPerCluster
        invariant s <= v.geo.sectorsPerCluster
        invariant ENTRY_SIZE * i == Times(k, cs) + SECTOR * s && i <= |dir| && entries == LiveEntries(dir[..i])
      {
        var buf := v.ReadData(cluster, s);
        var e: nat := 0;
        while e < 16
          invariant e <= 16
          invariant ENTRY_SIZE * i == Times(k, cs) + SECTOR * s + ENTRY_SIZE * e && i <= |dir|
          invariant entries == LiveEntries(dir[..i])
        {
          var entry: RawEntry := buf[ENTRY_SIZE * e..ENTRY_SIZE * e + ENTRY_SIZE];
          SlotRead(v.st, cs, i, k, s, e, buf);
          if entry[0] == SLOT_END {
            NoMoreEntries(dir, i);
            return;
          }
          assert dir[..i + 1][..i] == dir[..i];
          if Live(entry) {
            entries := entries + [entry];
          }
          e, i := e + 1, i + 1;
        }
        s := s + 1;
      }
      ClusterNext(v.st.fat, v.st.root, k);
      cluster := v.NextCluster(cluster);
      k := k + 1;
    }
    DirLength(v.st, cs, i);
    assert dir[..i] == dir;
  }

  /** What a C string says: the bytes in front of the first zero. */
  function CutZero(s: seq<byte>): (r: seq<byte>)
    ensures r <= s && 0 !in r && (0 !in s ==> r == s)
    decreases |s|
  {
    if s == [] || s[0] == 0 then [] else [s[0]] + CutZero(s[1..])
  }

  lemma {:induction false} CutZeroAt(s: seq<byte>, n: nat)
    requires n <= |s| && 0 !in s[..n] && (n < |s| ==> s[n] == 0)
    ensures CutZero(s) == s[..n]
    decreases n
  {
    if n > 0 {
      assert s[0] == s[..n][0];
      assert s[1..][..n - 1] == s[..n][1..];
      CutZeroAt(s[1..], n - 1);
      assert s[..n] == [s[0]] + s[1..][..n - 1];
    }
  }

  /** The comparison of `readfile`: equal length and equal up to ASCII letter case. */
  method SameName(a: seq<byte>, b: CName) returns (same: bool)
    ensures same <==> UpperAll(CutZero(a)) == UpperAll(b)
  {
    ghost var s := CutZero(a);
    var j := 0;
    while j < |a| && a[j] != 0 && j < |b| && Upper(a[j]) == Upper(b[j])
      invariant j <= |a| && j <= |b| && 0 !in a[..j] && UpperAll(a)[..j] == UpperAll(b)[..j]
    {
      assert UpperAll(a)[j] == UpperAll(b)[j];
      assert a[..j + 1] == a[..j] + [a[j]];
      j := j + 1;
    }
    same := (j == |a| || a[j] == 0) && j == |b|;
    if j == |a| || a[j] == 0 {
      CutZeroAt(a, j);
      assert UpperAll(s) == UpperAll(a)[..j];
      assert UpperAll(b)[..|b|] == UpperAll(b);
    } else {
      CutZeroOn(a, j);
      assert UpperAll(s)[j] == Upper(a[j]);
      assert j < |b| ==> UpperAll(b)[j] == Upper(b[j]);
    }
  }

  lemma {:induction false} CutZeroOn(s: seq<byte>, j: nat)
    requires j < |s| && 0 !in s[..j] && s[j] != 0
    ensures j < |CutZero(s)| && CutZero(s)[j] == s[j]
    decreases j
  {
    if j > 0 {
      assert s[0] == s[..j][0];
      assert s[1..][..j - 1] == s[..j][1..];
      CutZeroOn(s[1..], j - 1);
    }
  }

  predicate IsDirectory(e: RawEntry) {
    (e[11] / ATTR_DIRECTORY) % 2 == 1
  }

  /** An 11-byte name that comes from a name that fits 8.3. */
  ghost predicate Canonical(raw: RawName) {
    exists name: CName :: Fits(name) && raw == Encoded(name)
  }

  /** For such entries `readfile`'s comparison and the search by encoded name agree. */
  lemma SameNameSameFile(raw: RawName, fname: CName)
    requires Canonical(raw) && Fits(fname)
    ensures 0 !in Formatted(raw)
    ensures UpperAll(Formatted(raw)) == UpperAll(fname) <==> raw == Encoded(fname)
  {
    var name: CName :| Fits(name) && raw == Encoded(name);
    FormatEncoded(name);
    EncodedEqual(name, fname);
    UpperNonzero(name);
    assert UpperAll(UpperAll(name)) == UpperAll(name);
  }

  lemma UpperNonzero(name: CName)
    ensures 0 !in UpperAll(name)
  {
    forall j | 0 <= j < |name| ensures UpperAll(name)[j] != 0 {
      assert name[j] in name;
    }
  }

  /** Reads a whole file in 128-byte chunks. */
  method ReadChunks(v: Volume, first: nat, size: nat, ghost i: nat) returns (buffer: seq<byte>)
    requires v.Valid() && Opens(v.st, first, size, i) && size < 0x8000_0000
    ensures NameOf(v.st.dir[i]) in v.st.files && buffer == v.st.files[NameOf(v.st.dir[i])]
  {
    hide DiskRep, Good, Gather, Live, Content;
    buffer := [];
    var j: nat := 0;
    var bytes := FileRead(v, first, size, 0, 128, i);
    ghost var content := v.st.files[NameOf(v.st.dir[i])];
    while |bytes| > 0
      invariant bytes == Excerpt(content, 128 * j, 128)
      invariant buffer == if 128 * j <= |content| then content[..128 * j] else content
      decreases |content| - |buffer|
    {
      ChunkNext(content, 128 * j);
      j := j + 1;
      buffer := buffer + bytes;
      bytes := FileRead(v, first, size, j * 128, 128, i);
    }
  }

  lemma ChunkNext(content: seq<byte>, at: nat)
    requires at < |content|
    ensures content[..at] + Excerpt(content, at, 128) == if at + 128 <= |content| then content[..at + 128] else content
  {
  }

  /** A file whose name, as it is shown, is the one asked for up to letter case. */
  predicate Matches(e: RawEntry, fname: CName) {
    !IsDirectory(e) && UpperAll(CutZero(Formatted(NameOf(e)))) == UpperAll(fname)
  }

  ghost predicate FirstMatch(dir: seq<RawEntry>, i: nat, fname: CName) {
    && i < |dir| && Live(dir[i]) && Matches(dir[i], fname)
    && forall j :: 0 <= j < i && Live(dir[j]) ==> !Matches(dir[j], fname)
  }

  /** The j-th live entry, in its slot: the live entries of the slots in front are those in front. */
  lemma {:induction false} SlotOfEntry(dir: seq<RawEntry>, j: nat) returns (i: nat)
    requires j < |LiveEntries(dir)|
    ensures i < |dir| && Live(dir[i]) && dir[i] == LiveEntries(dir)[j] && LiveEntries(dir[..i]) == LiveEntries(dir)[..j]
  {
    hide Live;
    var front := dir[..|dir| - 1];
    if j < |LiveEntries(front)| {
      i := SlotOfEntry(front, j);
      assert front[..i] == dir[..i];
      assert LiveEntries(dir)[..j] == LiveEntries(front)[..j];
    } else {
      i := |dir| - 1;
    }
  }

  /** `readfile`: the content of the first file whose shown name is the one asked for. */
  method ReadFile(v: Volume, fname: CName) returns (r: Option<seq<byte>>)
    requires v.Valid()
    requires forall i: nat :: FirstMatch(v.st.dir, i, fname) ==> FileSize(v.st.dir[i]) < 0x8000_0000
    ensures r.Some? ==>
              exists i: nat :: FirstMatch(v.st.dir, i, fname) && Holds(v.st.files, NameOf(v.st.dir[i]), r.value)
    ensures r.None? <==> forall i :: 0 <= i < |v.st.dir| && Live(v.st.dir[i]) ==> !Matches(v.st.dir[i], fname)
  {
    hide DiskRep, Good, Gather, Live, Content, Formatted, CutZero, UpperAll, LiveEntries, FileSize, FirstCluster;
    hide IsDirectory;
    var entries := RootEntries(v);
    var j := 0;
    while j < |entries|
      invariant j <= |entries|
      invariant forall x :: x in entries[..j] ==> !Matches(x, fname)
    {
      var e := entries[j];
      if !IsDirectory(e) {
        var a := Format83(NameOf(e));
        var same := SameName(a, fname);
        if same {
          ghost var i := SlotOfEntry(v.st.dir, j);
          FirstAmong(v.st.dir, i, entries[..j], fname);
          GoodSizes(v.st, v.geo.ClusterSize());
          var buffer := ReadChunks(v, FirstCluster(e), FileSize(e), i);
          return Some(buffer);
        }
      }
      assert entries[..j + 1] == entries[..j] + [e];
      j := j + 1;
    }
    forall i | 0 <= i < |v.st.dir| && Live(v.st.dir[i]) ensures !Matches(v.st.dir[i], fname) {
      LiveEntriesAre(v.st.dir, v.st.dir[i]);
      assert entries[..j] == entries;
    }
    r := None;
  }

  lemma FirstAmong(dir: seq<RawEntry>, i: nat, front: seq<RawEntry>, fname: CName)
    requires i < |dir| && Live(dir[i]) && Matches(dir[i], fname) && front == LiveEntries(dir[..i])
    requires forall x :: x in front ==> !Matches(x, fname)
    ensures FirstMatch(dir, i, fname)
  {
    hide Live, Matches;
    forall j | 0 <= j < i && Live(dir[j]) ensures !Matches(dir[j], fname) {
      LiveEntriesAre(dir[..i], dir[j]);
      assert dir[j] == dir[..i][j];
    }
  }

  /** Where the names are of the 8.3 kind, `readfile` finds the file that create, write, append and delete
      mean by the name. */
  lemma ReadFinds(st: State, cs: nat, i: nat, fname: CName)
    requires Good(st, cs) && Fits(fname) && Names(st.dir, i, Encoded(fname)) && st.dir[i][11] / 16 % 2 == 0
    requires forall j :: 0 <= j < i && Live(st.dir[j]) && Matches(st.dir[j], fname) ==> Canonical(NameOf(st.dir[j]))
    ensures FirstMatch(st.dir, i, fname)
  {
    GoodSizes(st, cs);
    assert !IsDirectory(st.dir[i]);
    hide Good, Live, Formatted, Encoded, UpperAll, CutZero, IsDirectory, Fits;
    assert Canonical(NameOf(st.dir[i]));
    SameNameSameFile(NameOf(st.dir[i]), fname);
    forall j | 0 <= j < i && Live(st.dir[j]) ensures !Matches(st.dir[j], fname) {
      if Matches(st.dir[j], fname) {
        SameNameSameFile(NameOf(st.dir[j]), fname);
      }
    }
  }
}
