/**
 Facts about FATs as plain sequences: counting free entries, freeing by following links
 (on any FAT, even one with a cycle), and growing a chain by freshly allocated clusters.
 */
module FatWalk {
  import opened Bytes
  import opened FatFormat
  import opened FatChains

  // ----- counting -----

  ghost function FreeSet(fat: seq<nat>): set<nat> {
    set c: nat | 2 <= c < |fat| && fat[c] == CLUSTER_FREE
  }

  ghost function UsedSet(fat: seq<nat>): set<nat> {
    set c: nat | c < |fat| && fat[c] != CLUSTER_FREE
  }

  /** Claiming a free cluster leaves one free cluster fewer. */
  lemma ClaimCount(fat: seq<nat>, c: nat, v: nat)
    requires 2 <= c < |fat| && fat[c] == CLUSTER_FREE && v != CLUSTER_FREE
    ensures FreeSet(fat[c := v]) == FreeSet(fat) - {c}
    ensures |FreeSet(fat)| == |FreeSet(fat[c := v])| + 1
  {
    assert FreeSet(fat[c := v]) == FreeSet(fat) - {c};
    assert c in FreeSet(fat);
  }

  lemma ReleaseCount(fat: seq<nat>, c: nat)
    requires c < |fat| && fat[c] != CLUSTER_FREE
    ensures |UsedSet(fat[c := CLUSTER_FREE])| < |UsedSet(fat)|
  {
    assert UsedSet(fat[c := CLUSTER_FREE]) == UsedSet(fat) - {c};
    assert c in UsedSet(fat);
  }

  // ----- freeing by following links -----

  /** Every cluster number the freeing walk from `c` reaches is inside the FAT. */
  ghost predicate SafeWalk(fat: seq<nat>, c: nat)
    decreases |UsedSet(fat)|
  {
    2 <= c < CLUSTER_BAD ==>
      && c < |fat|
      && (fat[c] != CLUSTER_FREE ==>
            (ReleaseCount(fat, c);
             SafeWalk(fat[c := CLUSTER_FREE], fat[c])))
  }

  /** The FAT after the freeing walk from `c`. A walk that comes back to a cluster it has freed
      reads the free mark there and stops, so the walk ends on every FAT. */
  ghost function Freed(fat: seq<nat>, c: nat): (r: seq<nat>)
    requires SafeWalk(fat, c)
    ensures |r| == |fat|
    decreases |UsedSet(fat)|
  {
    if 2 <= c < CLUSTER_BAD && fat[c] != CLUSTER_FREE then
      ReleaseCount(fat, c);
      Freed(fat[c := CLUSTER_FREE], fat[c])
    else
      fat
  }

  /** In-range links are enough for the walk, whatever shape they form. */
  lemma {:induction false} InRangeSafe(fat: seq<nat>, c: nat)
    requires forall k :: 2 <= k < |fat| ==> fat[k] < |fat| || fat[k] >= CLUSTER_BAD
    requires c < |fat| || c >= CLUSTER_BAD
    ensures SafeWalk(fat, c)
    decreases |UsedSet(fat)|
  {
    if 2 <= c < CLUSTER_BAD && fat[c] != CLUSTER_FREE {
      ReleaseCount(fat, c);
      InRangeSafe(fat[c := CLUSTER_FREE], fat[c]);
    }
  }

  /** The walk only ever clears entries. */
  lemma {:induction false} FreedClears(fat: seq<nat>, c: nat, k: nat)
    requires SafeWalk(fat, c) && k < |fat|
    ensures Freed(fat, c)[k] == fat[k] || Freed(fat, c)[k] == CLUSTER_FREE
    ensures k == c && 2 <= c < CLUSTER_BAD ==> Freed(fat, c)[k] == CLUSTER_FREE
    decreases |UsedSet(fat)|
  {
    if 2 <= c < CLUSTER_BAD && fat[c] != CLUSTER_FREE {
      ReleaseCount(fat, c);
      FreedClears(fat[c := CLUSTER_FREE], fat[c], k);
    }
  }

  /** On a well-formed chain the walk frees exactly that chain. */
  lemma {:induction false} FreedChain(fat: seq<nat>, ch: seq<nat>)
    requires |fat| <= CLUSTER_BAD && IsChain(fat, ch)
    ensures SafeWalk(fat, ch[0])
    ensures forall k :: 0 <= k < |fat| ==> Freed(fat, ch[0])[k] == if k in ch then CLUSTER_FREE else fat[k]
    decreases |ch|
  {
    ChainAllocated(fat, ch, ch[0]);
    ReleaseCount(fat, ch[0]);
    var fat' := fat[ch[0] := CLUSTER_FREE];
    if |ch| > 1 {
      assert fat[ch[0]] == ch[1];
      ChainAcyclic(fat, ch);
      ChainTail(fat, ch);
      ChainFrame(fat, fat', ch[1..]);
      FreedChain(fat', ch[1..]);
      assert ch == [ch[0]] + ch[1..];
    }
  }

  // ----- growing a chain -----

  /** `ch` is followed link by link; nothing is said about how it ends. */
  predicate Linked(fat: seq<nat>, ch: seq<nat>) {
    InRange(fat, ch) && forall i :: 0 <= i < |ch| - 1 ==> fat[ch[i]] == ch[i + 1]
  }

  /** Claiming free cluster `c` and hooking it behind `ch` gives a closed chain `ch + [c]`. */
  lemma GrowChain(fat: seq<nat>, ch: seq<nat>, c: nat, fat': seq<nat>)
    requires Linked(fat, ch) && Distinct(ch) && 2 <= c < |fat| && c !in ch
    requires fat' == if ch == [] then fat[c := CLUSTER_EOC] else fat[c := CLUSTER_EOC][ch[|ch| - 1] := c]
    ensures IsChain(fat', ch + [c]) && Distinct(ch + [c]) && Linked(fat', ch + [c])
    ensures forall k :: 0 <= k < |fat| && k !in ch + [c] ==> fat'[k] == fat[k]
  {
    var r := ch + [c];
    forall i | 0 <= i < |r| - 1 ensures fat'[r[i]] == r[i + 1] {
      if i < |ch| - 1 {
        assert fat[ch[i]] == ch[i + 1] && ch[i] != ch[|ch| - 1];
      }
    }
    forall k | 0 <= k < |fat| && k !in r ensures fat'[k] == fat[k] {
      assert k != c && (ch != [] ==> ch[|ch| - 1] in r);
    }
  }

  // ----- content cut into clusters -----

  /** `n` bytes of `content` from `a` on, zeros past its end. */
  function Window(content: seq<byte>, a: nat, n: nat): (w: seq<byte>)
    ensures |w| == n
  {
    seq(n, i requires 0 <= i < n => if a + i < |content| then content[a + i] else 0)
  }

  lemma WindowConcat(content: seq<byte>, a: nat, m: nat, n: nat)
    ensures Window(content, a, m) + Window(content, a + m, n) == Window(content, a, m + n)
  {
  }

  lemma WindowPrefix(content: seq<byte>, n: nat)
    requires |content| <= n
    ensures Window(content, 0, n)[..|content|] == content
  {
  }

  /** Clusters needed for `len` bytes: the least number that holds them. */
  lemma ClustersNeeded(len: nat, cs: nat)
    requires cs > 0
    ensures len <= Times((len + cs - 1) / cs, cs) < len + cs
  {
    TimesDivide(len + cs - 1, cs);
  }

  /** `st` is `was` with `content`, as far as the clusters of `ch` reach, stored in chain `ch`,
      all of whose clusters were free; everything else is as before. */
  ghost predicate Written(was: State, st: State, content: seq<byte>, ch: seq<nat>, cs: nat) {
    && |st.fat| == |was.fat| == |st.data| == |was.data|
    && (ch != [] ==> IsChain(st.fat, ch))
    && Distinct(ch)
    && |FreeSet(st.fat)| + |ch| == |FreeSet(was.fat)|
    && Gather(st.data, ch) == Window(content, 0, Times(|ch|, cs))
    && (forall c :: c in ch ==> 2 <= c < |was.fat| && was.fat[c] == CLUSTER_FREE)
    && (forall c :: 0 <= c < |st.fat| && c !in ch ==> st.fat[c] == was.fat[c] && st.data[c] == was.data[c])
  }

  lemma WrittenStart(st: State, content: seq<byte>, cs: nat)
    requires |st.fat| == |st.data|
    ensures Written(st, st, content, [], cs)
  {
  }

  lemma WrittenInside(was: State, st: State, content: seq<byte>, ch: seq<nat>, cs: nat)
    requires Written(was, st, content, ch, cs)
    ensures |st.fat| == |was.fat|
    ensures ch != [] ==> ch[|ch| - 1] < |st.fat| && 2 <= ch[0] < |st.fat|
  {
    assert ch != [] ==> ch[|ch| - 1] in ch && ch[0] in ch;
  }

  lemma WrittenCount(was: State, st: State, content: seq<byte>, ch: seq<nat>, cs: nat)
    requires Written(was, st, content, ch, cs)
    ensures |FreeSet(st.fat)| + |ch| == |FreeSet(was.fat)|
  {
  }

  lemma WrittenStep(was: State, st: State, st': State, content: seq<byte>, ch: seq<nat>, cl: nat, cs: nat)
    requires Written(was, st, content, ch, cs)
    requires 2 <= cl < |st.fat| && st.fat[cl] == CLUSTER_FREE
    requires st'.fat == if ch == [] then st.fat[cl := CLUSTER_EOC] else
                        if ch[|ch| - 1] < |st.fat| then st.fat[cl := CLUSTER_EOC][ch[|ch| - 1] := cl] else st.fat
    requires cl < |st.data|
    requires st'.data
            == st.data[cl := Window(content, if Times(|ch|, cs) < |content| then Times(|ch|, cs) else |content|, cs)]
    ensures Written(was, st', content, ch + [cl], cs)
  {
    if ch != [] { ChainClosed(st.fat, ch, cl); }
    GrowChain(st.fat, ch, cl, st'.fat);
    ClaimCount(st.fat, cl, CLUSTER_EOC);
    if ch != [] {
      ChainAllocated(st.fat, ch, ch[|ch| - 1]);
      RelinkCount(st.fat[cl := CLUSTER_EOC], ch[|ch| - 1], cl);
    }
    WindowStep(content, st.data, st'.data, ch, cl, cs);
    forall c | c in ch + [cl] ensures 2 <= c < |was.fat| && was.fat[c] == CLUSTER_FREE {
      if c == cl && c !in ch { assert st.fat[c] == was.fat[c]; }
    }
  }

  /** Clusters the driver asks for: one for an empty file, else just enough. */
  function ClustersFor(len: nat, cs: nat): nat
    requires cs > 0
  {
    if len == 0 then 1 else (len + cs - 1) / cs
  }

  lemma ClustersForEnough(len: nat, cs: nat)
    requires cs > 0
    ensures len <= Times(ClustersFor(len, cs), cs)
    ensures ClustersFor(len, cs) >= 1 && (len == 0 ==> ClustersFor(len, cs) == 1)
    ensures len > 0 ==> Times(ClustersFor(len, cs) - 1, cs) < len
  {
    ClustersNeeded(len, cs);
    assert Times(0, cs) == 0;
  }

  lemma ChainClosed(fat: seq<nat>, ch: seq<nat>, c: nat)
    requires IsChain(fat, ch) && c < |fat| && fat[c] == CLUSTER_FREE
    ensures c !in ch
  {
    if c in ch {
      ChainAllocated(fat, ch, c);
    }
  }

  lemma RelinkCount(fat: seq<nat>, c: nat, v: nat)
    requires c < |fat| && fat[c] != CLUSTER_FREE && v != CLUSTER_FREE
    ensures FreeSet(fat[c := v]) == FreeSet(fat)
  {
  }

  /** Cluster `cl` takes the next window of `content`. */
  lemma WindowStep(content: seq<byte>, data: seq<seq<byte>>, data': seq<seq<byte>>, ch: seq<nat>, cl: nat, cs: nat)
    requires cl < |data| && cl !in ch
    requires data'
            == data[cl := Window(content, if Times(|ch|, cs) < |content| then Times(|ch|, cs) else |content|, cs)]
    requires Gather(data, ch) == Window(content, 0, Times(|ch|, cs))
    ensures Gather(data', ch + [cl]) == Window(content, 0, Times(|ch| + 1, cs))
  {
    GatherFrame(data, data', ch);
    GatherConcat(data', ch, [cl]);
    assert Gather(data', [cl]) == data'[cl];
    assert data'[cl] == Window(content, Times(|ch|, cs), cs);
    WindowConcat(content, 0, Times(|ch|, cs), cs);
  }

  /** A sector of a cluster, patched and put back, patches the cluster. */
  lemma SectorWithin(d: seq<byte>, s: nat, o: nat, b: seq<byte>)
    requires SECTOR * s + SECTOR <= |d| && o + |b| <= SECTOR
    ensures Splice(d, SECTOR * s, Splice(d[SECTOR * s..SECTOR * s + SECTOR], o, b)) == Splice(d, SECTOR * s + o, b)
  {
    var t := d[SECTOR * s..SECTOR * s + SECTOR];
    assert d[..SECTOR * s] + t[..o] == d[..SECTOR * s + o];
    assert t[o + |b|..] + d[SECTOR * s + SECTOR..] == d[SECTOR * s + o + |b|..];
  }

  /** One turn of the patching loop: the next chunk goes into its sector. */
  lemma SectorPatch(d: seq<byte>, o: nat, bytes: seq<byte>, done: nat, chunk: nat, s: nat, p: nat)
    requires o + |bytes| <= |d| && done + chunk <= |bytes|
    requires SECTOR * s + p == o + done && p + chunk <= SECTOR && SECTOR * s + SECTOR <= |d|
    ensures var before := Splice(d, o, bytes[..done]);
            var patched := Splice(before[SECTOR * s..SECTOR * s + SECTOR], p, bytes[done..done + chunk]);
            Splice(before, SECTOR * s, patched) == Splice(d, o, bytes[..done + chunk])
  {
    SectorWithin(Splice(d, o, bytes[..done]), s, p, bytes[done..done + chunk]);
    SpliceOn(d, o, bytes[..done], bytes[done..done + chunk]);
    assert bytes[..done] + bytes[done..done + chunk] == bytes[..done + chunk];
  }

  lemma SpliceOn(d: seq<byte>, o: nat, a: seq<byte>, b: seq<byte>)
    requires o + |a| + |b| <= |d|
    ensures Splice(Splice(d, o, a), o + |a|, b) == Splice(d, o, a + b)
  {
    assert Splice(d, o, a)[..o + |a|] == d[..o] + a;
    assert Splice(d, o, a)[o + |a| + |b|..] == d[o + |a| + |b|..];
  }

  /** One turn of the filling loop: sector `s` takes its window of `content`. */
  lemma FillStep(d: seq<byte>, content: seq<byte>, start: nat, s: nat, tmp: Sector)
    requires SECTOR * s + SECTOR <= |d| && d[..SECTOR * s] == Window(content, start, SECTOR * s)
    requires tmp == Window(content, start + SECTOR * s, SECTOR)
    ensures Splice(d, SECTOR * s, tmp)[..SECTOR * (s + 1)] == Window(content, start, SECTOR * (s + 1))
  {
    WindowConcat(content, start, SECTOR * s, SECTOR);
    assert Splice(d, SECTOR * s, tmp)[..SECTOR * (s + 1)] == d[..SECTOR * s] + tmp;
  }

  /** The next chunk of `content` goes right behind the part already stored. */
  lemma PatchNext(d: seq<byte>, o: nat, tmp: Sector, content: seq<byte>, from: nat, w: nat, chunk: nat)
    requires o + SECTOR <= |d| && from <= w && w - from == o && w + chunk <= |content| && chunk <= SECTOR
    requires d[..o] == content[from..w] && tmp[..chunk] == content[w..w + chunk]
    ensures Splice(d, o, tmp)[..o + chunk] == content[from..w + chunk]
  {
    var r := Splice(d, o, tmp);
    assert r[..o + chunk] == r[..o] + r[o..o + SECTOR][..chunk];
    assert r[..o] == d[..o];
    assert content[from..w] + content[w..w + chunk] == content[from..w + chunk];
  }

  lemma WindowNone(content: seq<byte>, a: nat)
    ensures Window(content, a, 0) == []
  {
  }

  /** A zeroed sector with the next `chunk` bytes copied to its start is a window of the content. */
  lemma WindowSector(content: seq<byte>, a: nat, chunk: nat, tmp: Sector)
    requires chunk == if a + SECTOR <= |content| then SECTOR else if a <= |content| then |content| - a else 0
    requires chunk > 0 ==> tmp[..chunk] == content[a..a + chunk]
    requires forall j :: chunk <= j < SECTOR ==> tmp[j] == 0
    ensures tmp == Window(content, a, SECTOR)
  {
    assert forall j | 0 <= j < chunk :: tmp[j] == tmp[..chunk][j] == content[a..a + chunk][j];
  }
}
