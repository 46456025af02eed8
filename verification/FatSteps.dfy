/**
 What the file operations do to the volume as a whole, between the sector-level methods of
 FatVolume and the slot-level step of FatChains.
 */
module FatSteps {
  import opened Bytes
  import opened FatFormat
  import opened FatChains
  import opened FatWalk
  import opened FatNames

  /** Nothing that the root directory or a slot other than `i` reaches has changed. */
  ghost predicate Kept(was: State, st: State, cs: nat, i: nat) {
    && st == was.(fat := st.fat, data := st.data)
    && |st.fat| == |was.fat| == |was.data| && Shape(st.fat, st.data, cs)
    && SameOn(was, st, was.root)
    && (forall j :: 0 <= j < |was.chains| && j != i ==> SameOn(was, st, was.chains[j]))
  }

  /** Every cluster of `ch` is allocated. */
  predicate Allocated(fat: seq<nat>, ch: seq<nat>) {
    forall c :: c in ch ==> 2 <= c < |fat| && fat[c] != CLUSTER_FREE
  }

  lemma AllAllocated(was: State, cs: nat)
    requires Good(was, cs)
    ensures Allocated(was.fat, was.root)
    ensures forall j :: 0 <= j < |was.chains| ==> Allocated(was.fat, was.chains[j])
  {
    forall c | c in was.root ensures 2 <= c < |was.fat| && was.fat[c] != CLUSTER_FREE {
      ChainAllocated(was.fat, was.root, c);
    }
    forall j | 0 <= j < |was.chains| ensures Allocated(was.fat, was.chains[j]) {
      assert SlotOk(was.fat, was.data, was.dir[j], was.chains[j]);
      forall c | c in was.chains[j] ensures 2 <= c < |was.fat| && was.fat[c] != CLUSTER_FREE {
        ChainAllocated(was.fat, was.chains[j], c);
      }
    }
  }

  lemma KeptSelf(was: State, cs: nat, i: nat)
    requires Good(was, cs)
    ensures Kept(was, was, cs, i)
  {
    AllAllocated(was, cs);
  }

  /** `st'` differs from `st` at clusters of `ch` only, all of them free in `st`. */
  ghost predicate Claims(st: State, st': State, ch: seq<nat>) {
    && |st'.fat| == |st.fat| == |st'.data| == |st.data|
    && (forall c :: c in ch ==> c < |st.fat| && st.fat[c] == CLUSTER_FREE)
    && (forall c :: 0 <= c < |st.fat| && c !in ch ==> st'.fat[c] == st.fat[c] && st'.data[c] == st.data[c])
  }

  ghost predicate ClaimsFat(fat: seq<nat>, fat': seq<nat>, ch: seq<nat>) {
    && |fat'| == |fat|
    && (forall c :: c in ch ==> c < |fat| && fat[c] == CLUSTER_FREE)
    && (forall c :: 0 <= c < |fat| && c !in ch ==> fat'[c] == fat[c])
  }

  lemma WrittenClaims(was: State, st: State, content: seq<byte>, ch: seq<nat>, cs: nat)
    requires Written(was, st, content, ch, cs)
    ensures Claims(was, st, ch) && ClaimsFat(was.fat, st.fat, ch)
  {
  }

  /** Claimed clusters are none of those that were allocated and stayed so. */
  lemma ClaimsApart(was: State, st: State, st': State, ch: seq<nat>, kept: seq<nat>)
    requires Claims(st, st', ch) && SameOn(was, st, kept) && Allocated(was.fat, kept)
    ensures Apart(ch, kept) && SameOn(was, st', kept)
  {
    forall c | c in kept ensures c !in ch {
      assert st.fat[c] == was.fat[c];
    }
  }

  /** Clusters that were free in a kept volume are clear of everything kept. */
  lemma KeptWritten(was: State, st: State, st': State, ch: seq<nat>, cs: nat, i: nat)
    requires Good(was, cs) && Kept(was, st, cs, i)
    requires Claims(st, st', ch)
    requires st' == st.(fat := st'.fat, data := st'.data) && Shape(st'.fat, st'.data, cs)
    ensures Kept(was, st', cs, i) && Clear(was, i, ch)
  {
    AllAllocated(was, cs);
    ClaimsApart(was, st, st', ch, was.root);
    hide Good, Shape, SameOn, Apart, Allocated;
    forall j | 0 <= j < |was.chains| && j != i ensures Apart(ch, was.chains[j]) && SameOn(was, st', was.chains[j]) {
      ClaimsApart(was, st, st', ch, was.chains[j]);
    }
  }

  /** Installing a well-formed occupant in slot `i` of a kept volume. */
  lemma Commit(was: State, st: State, st': State, cs: nat, i: nat, k: nat, s: nat, idx: nat, e: RawEntry, ch: seq<nat>)
    requires Good(was, cs) && Kept(was, st, cs, i) && Clear(was, i, ch)
    requires k < |was.root| && SECTOR * s + SECTOR <= cs && Place(cs, i, k, s, idx)
    requires EntryFits(was.dir, i, e) && SlotOk(st.fat, st.data, e, ch)
    requires was.root[k] < |st.data| && |st.data[was.root[k]]| == cs
    requires st' == st.(
               data := st.data[was.root[k] := Splice(st.data[was.root[k]], SECTOR * s + ENTRY_SIZE * idx, e)],
               dir := was.dir[i := e], chains := was.chains[i := ch], files := FilesAfter(was, st, i, e, ch))
    ensures Good(st', cs)
  {
    SlotWriteKept(was, st, cs, i, k, s, idx, e);
    RootWriteSame(was, st, st', k, ch);
    SameChain(st, st', ch);
    forall j | 0 <= j < |was.chains| && j != i ensures SameOn(was, st', was.chains[j]) {
      RootWriteSame(was, st, st', k, was.chains[j]);
    }
    hide Kept, IsChain, SameOn, Apart, Slots, Gather, Place, Splice, Live;
    SlotStepGood(was, st', cs, i, e, ch);
  }

  /** A write to a directory cluster is not seen by chains apart from the directory. */
  lemma RootWriteSame(was: State, st: State, st': State, k: nat, ch: seq<nat>)
    requires k < |was.root| && was.root[k] < |st.data| && Apart(ch, was.root)
    requires |st'.data| == |st.data| && st'.fat == st.fat
    requires forall c :: 0 <= c < |st.data| && c != was.root[k] ==> st'.data[c] == st.data[c]
    ensures (forall c :: c in ch ==> c < |st.fat| && c < |st.data|) ==> SameOn(st, st', ch)
    ensures SameOn(was, st, ch) ==> SameOn(was, st', ch)
  {
    assert was.root[k] !in ch;
  }

  lemma SlotWriteKept(was: State, st: State, cs: nat, i: nat, k: nat, s: nat, idx: nat, e: RawEntry)
    requires Good(was, cs) && Kept(was, st, cs, i)
    requires k < |was.root| && SECTOR * s + SECTOR <= cs && Place(cs, i, k, s, idx)
    requires was.root[k] < |st.data| && |st.data[was.root[k]]| == cs
    ensures i < |was.dir| && IsChain(st.fat, was.root)
    ensures var c := was.root[k];
            Slots(Gather(st.data[c := Splice(st.data[c], SECTOR * s + ENTRY_SIZE * idx, e)], was.root))
            == was.dir[i := e]
  {
    SameChain(was, st, was.root);
    SlotWrite(st, cs, i, k, s, idx, e);
  }

  /** A change inside slot `i`'s own chain that leaves the directory as it is. */
  lemma CommitInPlace(was: State, st: State, cs: nat, i: nat, ch: seq<nat>, files: map<RawName, seq<byte>>)
    requires Good(was, cs) && Kept(was, st, cs, i) && Clear(was, i, ch)
    requires i < |was.dir| && Live(was.dir[i]) && SlotOk(st.fat, st.data, was.dir[i], ch)
    requires files == was.files[NameOf(was.dir[i]) := Content(st.data, was.dir[i], ch)]
    ensures Good(st.(chains := was.chains[i := ch], files := files), cs)
  {
    var st' := st.(chains := was.chains[i := ch], files := files);
    var e := was.dir[i];
    SameChain(was, st, was.root);
    assert was.dir[i := e] == was.dir;
    SameFilesAfter(was, st', i, ch, files);
    KeepEntry(was.dir, i);
    forall j | 0 <= j < |was.chains| && j != i ensures SameOn(was, st', was.chains[j]) {
      assert SameOn(was, st, was.chains[j]);
    }
    hide SlotOk, Content, Gather, Represents, SlotsOk, Slots, SameOn, IsChain, Live, Apart;
    SlotStepGood(was, st', cs, i, e, ch);
  }

  lemma SameFilesAfter(was: State, st': State, i: nat, ch: seq<nat>, files: map<RawName, seq<byte>>)
    requires |was.chains| == |was.dir| && Represents(was.files, was.data, was.dir, was.chains)
    requires i < |was.dir| && Live(was.dir[i])
    requires files == was.files[NameOf(was.dir[i]) := Content(st'.data, was.dir[i], ch)]
    ensures FilesAfter(was, st', i, was.dir[i], ch) == files
  {
    assert Holds(was.files, NameOf(was.dir[i]), Content(was.data, was.dir[i], was.chains[i]));
  }

  lemma KeepEntry(dir: seq<RawEntry>, i: nat)
    requires Terminated(dir) && UniqueNames(dir) && i < |dir| && dir[i][0] != SLOT_END
    ensures EntryFits(dir, i, dir[i])
  {
  }

  /** A change to unowned clusters only. */
  lemma CommitNothing(was: State, st: State, cs: nat)
    requires Good(was, cs) && Kept(was, st, cs, |was.chains|)
    ensures Good(st, cs)
  {
    SameChain(was, st, was.root);
    forall j | 0 <= j < |was.dir|
      ensures SlotOk(st.fat, st.data, was.dir[j], was.chains[j])
      ensures Content(st.data, was.dir[j], was.chains[j]) == Content(was.data, was.dir[j], was.chains[j])
    {
      assert SlotOk(was.fat, was.data, was.dir[j], was.chains[j]);
      assert SameOn(was, st, was.chains[j]);
      SameChain(was, st, was.chains[j]);
    }
  }

  // ----- conservation of clusters -----

  /** The leaked clusters after a step: those leaked before and not reclaimed by the new chain,
      and those of the slot's old chain that stay allocated outside the new one. */
  lemma LostStep(was: State, st: State, cs: nat, i: nat, ch: seq<nat>, c: nat)
    requires Good(was, cs) && i < |was.chains|
    requires st.root == was.root && st.chains == was.chains[i := ch] && |st.fat| == |was.fat|
    requires c < |was.fat| && c !in ch && c !in was.chains[i] ==> st.fat[c] == was.fat[c]
    ensures Lost(st, c) <==>
              (Lost(was, c) && c !in ch) ||
              (c in was.chains[i] && c !in ch && c < |st.fat| && st.fat[c] != CLUSTER_FREE)
  {
    hide Good, Owned;
    if c in ch {
      OwnedBy(st, i, c);
    } else if c in was.chains[i] {
      OwnedBy(was, i, c);
      AllAllocated(was, cs);
      GoodDisjoint(was, cs);
      NotOwned(was.root, was.chains, st, i, ch, c);
    } else {
      OwnedSame(was, st, i, ch, c);
    }
  }

  lemma GoodDisjoint(st: State, cs: nat)
    requires Good(st, cs)
    ensures Disjoint(st.root, st.chains)
  {
  }

  lemma OwnedBy(st: State, i: nat, c: nat)
    requires i < |st.chains| && c in st.chains[i]
    ensures Owned(st, c)
  {
  }

  lemma NotOwned(root: seq<nat>, chains: seq<seq<nat>>, st: State, i: nat, ch: seq<nat>, c: nat)
    requires Disjoint(root, chains) && i < |chains| && c in chains[i] && c !in ch
    requires st.root == root && st.chains == chains[i := ch]
    ensures !Owned(st, c)
  {
    assert Apart(chains[i], root);
    forall j | 0 <= j < |st.chains| ensures c !in st.chains[j] {
      if j != i {
        assert Apart(chains[i], chains[j]);
      }
    }
  }

  lemma OwnedSame(was: State, st: State, i: nat, ch: seq<nat>, c: nat)
    requires i < |was.chains| && c !in was.chains[i] && c !in ch
    requires st.root == was.root && st.chains == was.chains[i := ch]
    ensures Owned(st, c) <==> Owned(was, c)
  {
    assert forall j | 0 <= j < |was.chains| :: c in was.chains[j] <==> c in st.chains[j];
  }

  /** Writing a chain and freeing it again gives back the FAT, free clusters included. */
  lemma WriteThenFree(was: State, st: State, content: seq<byte>, ch: seq<nat>, cs: nat)
    requires Written(was, st, content, ch, cs) && ch != [] && |was.fat| <= CLUSTER_BAD
    ensures SafeWalk(st.fat, ch[0]) && Freed(st.fat, ch[0]) == was.fat
  {
    FreedChain(st.fat, ch);
    var r := Freed(st.fat, ch[0]);
    assert forall k | 0 <= k < |r| :: r[k] == was.fat[k];
  }

  ghost function Elems(ch: seq<nat>): set<nat> {
    set c | c in ch
  }

  /** Freeing a chain makes exactly its clusters available. */
  lemma FreedCount(fat: seq<nat>, ch: seq<nat>)
    requires |fat| <= CLUSTER_BAD && IsChain(fat, ch)
    ensures SafeWalk(fat, ch[0])
    ensures |FreeSet(Freed(fat, ch[0]))| == |FreeSet(fat)| + |ch|
  {
    FreedChain(fat, ch);
    ChainAcyclic(fat, ch);
    SetOfDistinct(ch);
    var r := Freed(fat, ch[0]);
    FreedSet(fat, ch, r);
    hide FreeSet, Elems, Freed, SafeWalk, IsChain;
    DisjointUnionSize(FreeSet(fat), Elems(ch));
  }

  lemma DisjointUnionSize(a: set<nat>, b: set<nat>)
    requires a !! b
    ensures |a + b| == |a| + |b|
  {
  }

  lemma FreedSet(fat: seq<nat>, ch: seq<nat>, r: seq<nat>)
    requires IsChain(fat, ch) && |r| == |fat|
    requires forall k :: 0 <= k < |fat| ==> r[k] == if k in ch then CLUSTER_FREE else fat[k]
    ensures FreeSet(r) == FreeSet(fat) + Elems(ch)
    ensures FreeSet(fat) !! Elems(ch)
  {
    forall c | c in ch ensures 2 <= c < |fat| && fat[c] != CLUSTER_FREE {
      ChainAllocated(fat, ch, c);
    }
  }

  lemma {:induction false} SetOfDistinct(ch: seq<nat>)
    requires Distinct(ch)
    ensures |Elems(ch)| == |ch|
  {
    if ch != [] {
      SetOfDistinct(ch[1..]);
      var rest := Elems(ch[1..]);
      assert ch[0] !in rest;
      assert Elems(ch) == rest + {ch[0]};
    }
  }

  // ----- facts the file operations use -----

  ghost predicate SameLost(was: State, st: State) {
    forall c: nat :: Lost(st, c) <==> Lost(was, c)
  }

  /** The clusters of `extra` have joined the leaked ones. */
  ghost predicate LostPlus(was: State, st: State, extra: seq<nat>) {
    forall c: nat :: Lost(st, c) <==> Lost(was, c) || c in extra
  }

  lemma SameLostPlus(was: State, st: State)
    requires SameLost(was, st)
    ensures LostPlus(was, st, [])
  {
  }

  /** A name with this encoding is written as a deleted entry: no search will ever see it. */
  predicate Hidden(name: RawName) {
    name[0] == SLOT_FREE
  }

  lemma EncodedNotEnd(name: CName)
    ensures Encoded(name)[0] != SLOT_END
  {
    var d := LastDot(name);
    assert Encoded(name)[0] == Field(name[..d], 8)[0];
    if d > 0 {
      assert name[0] in name;
    }
  }

  /** A name in no live slot is not in the map, and the other way round. */
  lemma FreshName(st: State, cs: nat, name: RawName)
    requires Good(st, cs)
    ensures name !in st.files <==> forall j :: 0 <= j < |st.dir| && Live(st.dir[j]) ==> NameOf(st.dir[j]) != name
  {
    if name in st.files {
      var j: nat :| Names(st.dir, j, name);
    } else {
      forall j | 0 <= j < |st.dir| && Live(st.dir[j]) ensures NameOf(st.dir[j]) != name {
        assert Holds(st.files, NameOf(st.dir[j]), Content(st.data, st.dir[j], st.chains[j]));
      }
    }
  }

  lemma GoodSizes(st: State, cs: nat)
    requires Good(st, cs)
    ensures |st.chains| == |st.dir| && |st.data| == |st.fat| && InRange(st.fat, st.root) && |st.root| > 0
    ensures Terminated(st.dir) && UniqueNames(st.dir)
  {
  }

  lemma LiveContent(st: State, cs: nat, i: nat)
    requires Good(st, cs) && i < |st.dir| && Live(st.dir[i])
    ensures NameOf(st.dir[i]) in st.files
    ensures st.files[NameOf(st.dir[i])] == Content(st.data, st.dir[i], st.chains[i])
    ensures SlotOk(st.fat, st.data, st.dir[i], st.chains[i])
  {
    assert Holds(st.files, NameOf(st.dir[i]), Content(st.data, st.dir[i], st.chains[i]));
  }

  /** An entry pointing at a freshly written chain holds the content written. */
  lemma StoredEntry(was: State, st: State, content: seq<byte>, ch: seq<nat>, cs: nat, e: RawEntry)
    requires Written(was, st, content, ch, cs) && ch != [] && |content| <= Times(|ch|, cs)
    requires FirstCluster(e) == ch[0] && FileSize(e) == |content|
    ensures Live(e) ==> SlotOk(st.fat, st.data, e, ch)
    ensures Content(st.data, e, ch) == content
  {
    WindowPrefix(content, Times(|ch|, cs));
    assert ch[0] in ch;
  }

  lemma EmptyEntry(st: State, e: RawEntry)
    requires FirstCluster(e) == 0 && FileSize(e) == 0
    ensures SlotOk(st.fat, st.data, e, []) && Content(st.data, e, []) == []
  {
  }

  lemma ClearEmpty(was: State, i: nat)
    ensures Clear(was, i, [])
  {
  }

  /** Freeing a slot's chain clears exactly that chain. */
  lemma FreedSlot(was: State, cs: nat, i: nat)
    requires Good(was, cs) && i < |was.chains| && Live(was.dir[i])
    ensures SafeWalk(was.fat, FirstCluster(was.dir[i]))
    ensures Emptied(was.fat, Freed(was.fat, FirstCluster(was.dir[i])), was.chains[i])
    ensures |FreeSet(Freed(was.fat, FirstCluster(was.dir[i])))| == |FreeSet(was.fat)| + |was.chains[i]|
  {
    assert SlotOk(was.fat, was.data, was.dir[i], was.chains[i]);
    if was.chains[i] != [] {
      FreedChain(was.fat, was.chains[i]);
      FreedCount(was.fat, was.chains[i]);
    }
  }

  ghost predicate Emptied(fat: seq<nat>, fat': seq<nat>, ch: seq<nat>) {
    |fat'| == |fat| && forall c :: 0 <= c < |fat| ==> fat'[c] == if c in ch then CLUSTER_FREE else fat[c]
  }

  /** Freeing slot `i`'s own chain touches nothing that is kept. */
  lemma KeptFreed(was: State, st: State, cs: nat, i: nat)
    requires Good(was, cs) && i < |was.chains|
    requires st == was.(fat := st.fat) && Emptied(was.fat, st.fat, was.chains[i])
    ensures Kept(was, st, cs, i)
  {
    var ch := was.chains[i];
    AllAllocated(was, cs);
    assert Apart(ch, was.root);
    FreedSame(was, st, ch, was.root);
    forall j | 0 <= j < |was.chains| && j != i ensures SameOn(was, st, was.chains[j]) {
      hide SlotOk, Allocated, Apart, SameOn, Emptied, Gather, IsChain;
      assert Apart(ch, was.chains[j]);
      FreedSame(was, st, ch, was.chains[j]);
    }
  }

  lemma FreedSame(was: State, st: State, ch: seq<nat>, kept: seq<nat>)
    requires |st.fat| == |was.fat| == |was.data| && st.data == was.data
    requires Emptied(was.fat, st.fat, ch)
    requires Apart(ch, kept) && Allocated(was.fat, kept)
    ensures SameOn(was, st, kept)
  {
  }

  /** Claiming free clusters for a slot, after giving its old ones back, leaks nothing. */
  lemma NothingLost(was: State, mid: seq<nat>, st: State, cs: nat, i: nat, ch: seq<nat>)
    requires Good(was, cs) && i < |was.chains| && Clear(was, i, ch)
    requires Emptied(was.fat, mid, was.chains[i]) && ClaimsFat(mid, st.fat, ch)
    requires st.root == was.root && st.chains == was.chains[i := ch]
    ensures SameLost(was, st)
  {
    forall c: nat ensures Lost(st, c) <==> Lost(was, c) {
      LostStep(was, st, cs, i, ch, c);
      if Lost(was, c) {
        assert c !in was.chains[i];
      }
    }
  }

  // ----- create -----

  lemma FreeSlotFound(dir: seq<RawEntry>, i: nat)
    requires i < |dir| && Finds(FreeSlot, dir[i]) && forall j :: 0 <= j < i ==> !Stops(FreeSlot, dir[j])
    ensures !Live(dir[i]) && forall j :: 0 <= j < i ==> dir[j][0] != SLOT_END
  {
  }

  /** What `Create` has when it is about to write the directory entry: a free slot `i` at its place
      and, unless the disk was full and there is nothing to store, the content in a new chain. */
  ghost predicate Creating(was: State, st: State, cs: nat, content: seq<byte>, first: nat, ch: seq<nat>, i: nat) {
    && st == was.(fat := st.fat, data := st.data)
    && Shape(st.fat, st.data, cs) && Written(was, st, content, ch, cs)
    && i < |was.dir| && !Live(was.dir[i]) && (forall j :: 0 <= j < i ==> was.dir[j][0] != SLOT_END)
    && if first == 0 then content == [] && ch == [] else ch != [] && ch[0] == first && |content| <= Times(|ch|, cs)
  }

  lemma CreateKept(was: State, st: State, cs: nat, content: seq<byte>, ch: seq<nat>, i: nat)
    requires Good(was, cs) && Written(was, st, content, ch, cs)
    requires st == was.(fat := st.fat, data := st.data) && Shape(st.fat, st.data, cs)
    ensures Kept(was, st, cs, i) && Clear(was, i, ch) && ClaimsFat(was.fat, st.fat, ch)
  {
    WrittenClaims(was, st, content, ch, cs);
    hide Written, Good, Shape, Claims;
    KeptSelf(was, cs, i);
    KeptWritten(was, was, st, ch, cs, i);
  }

  /** A failed create has claimed clusters, and nothing else. */
  lemma CreateFailed(was: State, st: State, cs: nat, content: seq<byte>, ch: seq<nat>)
    requires Good(was, cs) && Written(was, st, content, ch, cs)
    requires st == was.(fat := st.fat, data := st.data) && Shape(st.fat, st.data, cs)
    ensures Good(st, cs)
  {
    hide Good, Written, Shape;
    CreateKept(was, st, cs, content, ch, |was.chains|);
    CommitNothing(was, st, cs);
  }

  /** The chain the new entry owns: none if it has no cluster, or if it is written as deleted. */
  function OwnChain(first: nat, raw: RawName, ch: seq<nat>): seq<nat> {
    if first == 0 || Hidden(raw) then [] else ch
  }

  lemma CreateFits(was: State, st: State, cs: nat, content: seq<byte>, first: nat, ch: seq<nat>, i: nat, raw: RawName,
                   entry: RawEntry)
    requires Good(was, cs) && Creating(was, st, cs, content, first, ch, i)
    requires first < 0x1_0000_0000 && |content| < 0x1_0000_0000 && raw[0] != SLOT_END
    requires entry == NewEntry(raw, first, |content|)
    ensures SlotOk(st.fat, st.data, entry, OwnChain(first, raw, ch))
    ensures FilesAfter(was, st, i, entry, OwnChain(first, raw, ch))
            == if Hidden(raw) then was.files else was.files[raw := content]
    ensures raw !in was.files ==> EntryFits(was.dir, i, entry)
    ensures Live(entry) <==> !Hidden(raw)
  {
    FreshName(was, cs, raw);
    if first == 0 {
      EmptyEntry(st, entry);
    } else {
      StoredEntry(was, st, content, ch, cs, entry);
    }
  }

  /** Creating a fresh name gives a whole volume with the new file in it. */
  lemma CreateDone(was: State, mid: State, st: State, cs: nat, content: seq<byte>, first: nat, ch: seq<nat>,
      i: nat, k: nat, s: nat, idx: nat, raw: RawName, entry: RawEntry)
    requires Good(was, cs) && Creating(was, mid, cs, content, first, ch, i)
    requires k < |was.root| && SECTOR * s + SECTOR <= cs && Place(cs, i, k, s, idx)
    requires was.root[k] < |mid.data| && |mid.data[was.root[k]]| == cs
    requires first < 0x1_0000_0000 && |content| < 0x1_0000_0000 && raw[0] != SLOT_END
    requires entry == NewEntry(raw, first, |content|)
    requires raw !in was.files
    requires st == mid.(
               data := mid.data[was.root[k] := Splice(mid.data[was.root[k]], SECTOR * s + ENTRY_SIZE * idx, entry)],
               dir := was.dir[i := entry], chains := was.chains[i := OwnChain(first, raw, ch)],
               files := FilesAfter(was, mid, i, entry, OwnChain(first, raw, ch)))
    ensures Good(st, cs)
    ensures st.files == if Hidden(raw) then was.files else was.files[raw := content]
    ensures !Hidden(raw) ==> SameLost(was, st) && Adds(was, st, raw)
  {
    CreateFits(was, mid, cs, content, first, ch, i, raw, entry);
    CreateKept(was, mid, cs, content, ch, i);
    ClearEmpty(was, i);
    assert was.chains[i] == [] by {
      assert SlotOk(was.fat, was.data, was.dir[i], was.chains[i]);
    }
    hide Good, Written, Shape, Splice, Live, NewEntry, Place, SlotOk, EntryFits, Clear, Kept, ClaimsFat, SameLost;
    hide FilesAfter;
    Commit(was, mid, st, cs, i, k, s, idx, entry, OwnChain(first, raw, ch));
    if !Hidden(raw) {
      assert Emptied(was.fat, was.fat, was.chains[i]);
      NothingLost(was, was.fat, st, cs, i, OwnChain(first, raw, ch));
      CreateAdds(was, mid, st, cs, content, first, ch, i, raw, entry);
    }
  }

  lemma CreateAdds(was: State, mid: State, st: State, cs: nat, content: seq<byte>, first: nat, ch: seq<nat>, i: nat,
                   raw: RawName, entry: RawEntry)
    requires i < |was.dir| == |was.chains| && was.chains[i] == [] && |mid.fat| == |was.fat| && st.fat == mid.fat
    requires st.root == was.root
    requires st.dir == was.dir[i := entry] && st.chains == was.chains[i := OwnChain(first, raw, ch)]
    requires Live(entry) && NameOf(entry) == raw
    ensures Adds(was, st, raw)
  {
    assert st.chains[i := []] == was.chains;
    assert OneMore(was, st, i, raw) by { hide Live; }
  }

  /** Creating a name that is already there leaves two live slots with that name. */
  lemma CreateDouble(was: State, mid: State, st: State, cs: nat, i: nat, k: nat, s: nat, idx: nat, entry: RawEntry)
    requires Good(was, cs) && Kept(was, mid, cs, i)
    requires k < |was.root| && SECTOR * s + SECTOR <= cs && Place(cs, i, k, s, idx)
    requires was.root[k] < |mid.data| && |mid.data[was.root[k]]| == cs
    requires st == mid.(data :=
               mid.data[was.root[k] := Splice(mid.data[was.root[k]], SECTOR * s + ENTRY_SIZE * idx, entry)])
    requires i < |was.dir| && !Live(was.dir[i]) && entry[0] == NameOf(entry)[0] && entry[11] == ATTR_ARCHIVE
    requires NameOf(entry) in was.files
    ensures !UniqueNames(Slots(Gather(st.data, st.root)))
  {
    SlotWriteKept(was, mid, cs, i, k, s, idx, entry);
    FreshName(was, cs, NameOf(entry));
    DoubleName(was.dir, i, entry);
  }

  lemma DoubleName(dir: seq<RawEntry>, i: nat, e: RawEntry)
    requires i < |dir| && !Live(dir[i]) && e[0] == NameOf(e)[0] && e[11] == ATTR_ARCHIVE
    requires !forall j :: 0 <= j < |dir| && Live(dir[j]) ==> NameOf(dir[j]) != NameOf(e)
    ensures !UniqueNames(dir[i := e])
  {
    var j :| 0 <= j < |dir| && Live(dir[j]) && NameOf(dir[j]) == NameOf(e);
    assert e[0] == NameOf(dir[j])[0] == dir[j][0];
    var d := dir[i := e];
    assert Live(d[j]) && Live(d[i]) && NameOf(d[i]) == NameOf(d[j]);
  }

  lemma HiddenFresh(st: State, cs: nat, name: RawName)
    requires Good(st, cs)
    ensures Hidden(name) ==> name !in st.files
  {
    FreshName(st, cs, name);
  }

  // ----- write and delete -----

  lemma MatchFound(st: State, cs: nat, name: RawName, i: nat)
    requires Good(st, cs) && i < |st.dir| && Finds(Match(name), st.dir[i])
    ensures Live(st.dir[i]) && NameOf(st.dir[i]) == name && name in st.files && Names(st.dir, i, name)
    ensures SafeWalk(st.fat, FirstCluster(st.dir[i])) && i < |st.chains|
    ensures st.files[name] == Content(st.data, st.dir[i], st.chains[i])
    ensures SlotOk(st.fat, st.data, st.dir[i], st.chains[i])
  {
    LiveContent(st, cs, i);
    FreedSlot(st, cs, i);
  }

  lemma MatchNotFound(st: State, cs: nat, name: RawName)
    requires Good(st, cs) && forall j :: 0 <= j < |st.dir| ==> !Finds(Match(name), st.dir[j])
    ensures name !in st.files
  {
    FreshName(st, cs, name);
  }

  lemma ReplaceFits(dir: seq<RawEntry>, i: nat, e: RawEntry)
    requires Terminated(dir) && UniqueNames(dir) && i < |dir| && Live(dir[i])
    requires e[0] != SLOT_END && (Live(e) ==> NameOf(e) == NameOf(dir[i]))
    ensures EntryFits(dir, i, e)
  {
  }

  /** What `Write` has when it is about to update the entry of slot `i`: the old chain freed,
      the new content in a new chain, or no chain at all for no content on a full disk. */
  ghost predicate Rewriting(was: State, freed: State, st: State, cs: nat, content: seq<byte>, first: nat,
                            ch: seq<nat>, i: nat) {
    && freed == was.(fat := freed.fat) && st == freed.(fat := st.fat, data := st.data)
    && Shape(st.fat, st.data, cs) && Written(freed, st, content, ch, cs)
    && i < |was.dir| && i < |was.chains| && Live(was.dir[i]) && Emptied(was.fat, freed.fat, was.chains[i])
    && if first == 0 then content == [] && ch == [] else ch != [] && ch[0] == first && |content| <= Times(|ch|, cs)
  }

  lemma RewriteDone(was: State, freed: State, mid: State, st: State, cs: nat, content: seq<byte>, first: nat,
                    ch: seq<nat>,
      i: nat, k: nat, s: nat, idx: nat, entry: RawEntry)
    requires Good(was, cs) && Rewriting(was, freed, mid, cs, content, first, ch, i)
    requires k < |was.root| && SECTOR * s + SECTOR <= cs && Place(cs, i, k, s, idx)
    requires was.root[k] < |mid.data| && |mid.data[was.root[k]]| == cs
    requires first < 0x1_0000_0000 && |content| < 0x1_0000_0000 && entry == Restamp(was.dir[i], first, |content|)
    requires st == mid.(
               data := mid.data[was.root[k] := Splice(mid.data[was.root[k]], SECTOR * s + ENTRY_SIZE * idx, entry)],
               dir := was.dir[i := entry], chains := was.chains[i := ch], files := FilesAfter(was, mid, i, entry, ch))
    ensures Good(st, cs)
    ensures st.files == was.files[NameOf(was.dir[i]) := content]
    ensures SameLost(was, st)
  {
    RewriteFits(was, freed, mid, cs, content, first, ch, i, entry);
    RewriteKept(was, freed, mid, cs, content, ch, i);
    hide Good, Written, Shape, Splice, Live, Restamp, Place, SlotOk, EntryFits, Clear, Kept, ClaimsFat, SameLost;
    hide FilesAfter, Emptied;
    Commit(was, mid, st, cs, i, k, s, idx, entry, ch);
    NothingLost(was, freed.fat, st, cs, i, ch);
  }

  lemma RewriteFits(was: State, freed: State, st: State, cs: nat, content: seq<byte>, first: nat, ch: seq<nat>,
                    i: nat, entry: RawEntry)
    requires Good(was, cs) && Rewriting(was, freed, st, cs, content, first, ch, i)
    requires first < 0x1_0000_0000 && |content| < 0x1_0000_0000 && entry == Restamp(was.dir[i], first, |content|)
    ensures SlotOk(st.fat, st.data, entry, ch) && EntryFits(was.dir, i, entry)
    ensures FilesAfter(was, st, i, entry, ch) == was.files[NameOf(was.dir[i]) := content]
  {
    RestampFits(was, cs, i, first, |content|);
    hide Good, Restamp, Live, EntryFits;
    if first == 0 {
      EmptyEntry(st, entry);
    } else {
      StoredEntry(freed, st, content, ch, cs, entry);
    }
    hide Written, SlotOk, Content, Gather;
    FilesAfterSame(was, st, i, entry, ch);
  }

  lemma RestampFits(was: State, cs: nat, i: nat, first: nat, size: nat)
    requires Good(was, cs) && i < |was.dir| && Live(was.dir[i])
    requires first < 0x1_0000_0000 && size < 0x1_0000_0000
    ensures EntryFits(was.dir, i, Restamp(was.dir[i], first, size)) && NameOf(was.dir[i]) in was.files
  {
    var entry := Restamp(was.dir[i], first, size);
    assert entry[..20][0] == was.dir[i][..20][0];
    LiveContent(was, cs, i);
    ReplaceFits(was.dir, i, entry);
  }

  /** An entry of the same name keeps the map's keys. */
  lemma FilesAfterSame(was: State, st: State, i: nat, e: RawEntry, ch: seq<nat>)
    requires i < |was.dir| && Live(was.dir[i]) && Live(e) && NameOf(e) == NameOf(was.dir[i]) && NameOf(e) in was.files
    ensures FilesAfter(was, st, i, e, ch) == was.files[NameOf(e) := Content(st.data, e, ch)]
  {
  }

  lemma RewriteKept(was: State, freed: State, st: State, cs: nat, content: seq<byte>, ch: seq<nat>, i: nat)
    requires Good(was, cs) && i < |was.chains| && Emptied(was.fat, freed.fat, was.chains[i])
    requires freed == was.(fat := freed.fat) && st == freed.(fat := st.fat, data := st.data)
    requires Shape(st.fat, st.data, cs) && Written(freed, st, content, ch, cs)
    ensures Kept(was, st, cs, i) && Clear(was, i, ch) && ClaimsFat(freed.fat, st.fat, ch)
  {
    WrittenClaims(freed, st, content, ch, cs);
    KeptFreed(was, freed, cs, i);
    hide Good, Written, Shape, Claims;
    KeptWritten(was, freed, st, ch, cs, i);
  }

  // ----- a failed overwrite and a failed create -----

  /** `ch` is the chain of the file `name`. */
  ghost predicate ChainOf(st: State, name: RawName, ch: seq<nat>) {
    exists i: nat :: Names(st.dir, i, name) && i < |st.chains| && ch == st.chains[i]
  }

  /** The directory on the disk is as it was, and so are all files but that of slot `i`. */
  ghost predicate OthersKept(was: State, st: State, i: nat) {
    && st.root == was.root && IsChain(st.fat, st.root) && st.dir == was.dir == Slots(Gather(st.data, st.root))
    && |was.chains| == |was.dir|
    && forall j :: 0 <= j < |was.dir| && j != i && Live(was.dir[j]) ==> FileKept(was, st, j)
  }

  ghost predicate FileKept(was: State, st: State, j: nat)
    requires j < |was.dir| == |was.chains|
  {
    && SlotOk(st.fat, st.data, was.dir[j], was.chains[j])
    && Holds(was.files, NameOf(was.dir[j]), Content(st.data, was.dir[j], was.chains[j]))
  }

  /** Every file but `name` can still be read as before. */
  ghost predicate AllBut(was: State, st: State, name: RawName) {
    exists i: nat :: Names(was.dir, i, name) && OthersKept(was, st, i)
  }

  lemma KeptOthers(was: State, st: State, cs: nat, i: nat, name: RawName)
    requires Good(was, cs) && Kept(was, st, cs, i) && Names(was.dir, i, name)
    ensures AllBut(was, st, name)
  {
    KeptShape(was, st, cs, i);
    hide FileKept, Good, Kept, Live, IsChain, Slots, Gather;
    forall j | 0 <= j < |was.dir| && j != i && Live(was.dir[j]) ensures FileKept(was, st, j) {
      FileStays(was, st, cs, i, j);
    }
    assert OthersKept(was, st, i);
  }

  lemma FileStays(was: State, st: State, cs: nat, i: nat, j: nat)
    requires Good(was, cs) && Kept(was, st, cs, i) && j < |was.dir| == |was.chains| && j != i && Live(was.dir[j])
    ensures FileKept(was, st, j)
  {
    LiveContent(was, cs, j);
    KeptSame(was, st, cs, i, j);
    hide Good, Kept, SameOn, Gather, Live;
    SameChain(was, st, was.chains[j]);
  }

  lemma KeptSame(was: State, st: State, cs: nat, i: nat, j: nat)
    requires Good(was, cs) && Kept(was, st, cs, i) && j < |was.chains| && j != i
    ensures SameOn(was, st, was.chains[j]) && |st.fat| == |was.fat| && |st.data| == |was.data|
  {
    hide SameOn, SlotsOk, Represents, Disjoint;
  }

  lemma KeptShape(was: State, st: State, cs: nat, i: nat)
    requires Good(was, cs) && Kept(was, st, cs, i)
    ensures st.root == was.root && st.dir == was.dir && |was.chains| == |was.dir|
    ensures IsChain(st.fat, st.root) && st.dir == Slots(Gather(st.data, st.root))
  {
    SameChain(was, st, was.root);
    hide Slots, Gather, SlotsOk, Represents, Disjoint;
  }

  /** When all free clusters are claimed for no one, they are what leaks. */
  lemma ClaimedLost(was: State, st: State, cs: nat)
    requires Good(was, cs) && st == was.(fat := st.fat, data := st.data) && |st.fat| == |was.fat|
    requires FreeSet(st.fat) == {}
    ensures forall c: nat :: Lost(st, c) <==> Lost(was, c) || c in FreeSet(was.fat)
  {
    forall c: nat ensures Lost(st, c) <==> Lost(was, c) || c in FreeSet(was.fat) {
      if 2 <= c < |was.fat| {
        FreeIs(was, cs, c);
        assert c !in FreeSet(st.fat);
        hide Good, Owned;
        assert Owned(st, c) <==> Owned(was, c) by { OwnedOf(was, st, c); }
      }
    }
  }

  lemma OwnedOf(was: State, st: State, c: nat)
    requires st.root == was.root && st.chains == was.chains
    ensures Owned(st, c) <==> Owned(was, c)
  {
  }

  lemma DeleteDone(was: State, mid: State, st: State, cs: nat, i: nat, k: nat, s: nat, idx: nat)
    requires Good(was, cs) && i < |was.dir| && i < |was.chains| && Live(was.dir[i])
    requires mid == was.(fat := mid.fat) && Emptied(was.fat, mid.fat, was.chains[i])
    requires k < |was.root| && SECTOR * s + SECTOR <= cs && Place(cs, i, k, s, idx)
    requires was.root[k] < |mid.data| && |mid.data[was.root[k]]| == cs
    requires st == mid.(
               data := mid.data[was.root[k] :=
                         Splice(mid.data[was.root[k]], SECTOR * s + ENTRY_SIZE * idx, Deleted(was.dir[i]))],
               dir := was.dir[i := Deleted(was.dir[i])], chains := was.chains[i := []],
               files := FilesAfter(was, mid, i, Deleted(was.dir[i]), []))
    ensures Good(st, cs)
    ensures st.files == was.files - {NameOf(was.dir[i])}
    ensures SameLost(was, st) && Adds(st, was, NameOf(was.dir[i]))
  {
    KeptFreed(was, mid, cs, i);
    ReplaceFits(was.dir, i, Deleted(was.dir[i]));
    ClearEmpty(was, i);
    hide Good, Splice, Deleted, Place, EntryFits, Clear, Kept, SameLost, Emptied;
    Commit(was, mid, st, cs, i, k, s, idx, Deleted(was.dir[i]), []);
    NothingLost(was, mid.fat, st, cs, i, []);
    assert OneMore(st, was, i, NameOf(was.dir[i])) by { assert Names(was.dir, i, NameOf(was.dir[i])); }
  }

  // ----- create, then delete -----

  /** `large` is `small` with one file more, `name` in slot `i`, whose clusters are the only ones in which
      the two sets of chains differ. */
  ghost predicate OneMore(small: State, large: State, i: nat, name: RawName) {
    && Names(large.dir, i, name)
    && i < |small.chains| == |large.chains| && small.chains == large.chains[i := []]
    && large.root == small.root && |large.fat| == |small.fat|
  }

  ghost predicate Adds(small: State, large: State, name: RawName) {
    exists i: nat :: OneMore(small, large, i, name)
  }

  /** Creating a file and deleting it gives back exactly the clusters that were free. */
  lemma CreateDeleteFree(was: State, mid: State, st: State, cs: nat, name: RawName)
    requires Good(was, cs) && Good(mid, cs) && Good(st, cs)
    requires Adds(was, mid, name) && SameLost(was, mid)
    requires Adds(st, mid, name) && SameLost(mid, st)
    ensures FreeSet(st.fat) == FreeSet(was.fat)
  {
    GoodSizes(mid, cs);
    var i: nat :| OneMore(was, mid, i, name);
    var j: nat :| OneMore(st, mid, j, name);
    OneSlot(mid, i, j, name);
    hide Good, SameLost;
    forall c: nat | 2 <= c < |was.fat| ensures was.fat[c] == CLUSTER_FREE <==> st.fat[c] == CLUSTER_FREE {
      FreeIs(was, cs, c);
      FreeIs(st, cs, c);
      LostAgree(was, mid, st, c);
    }
  }

  lemma OneSlot(st: State, i: nat, j: nat, name: RawName)
    requires UniqueNames(st.dir) && Names(st.dir, i, name) && Names(st.dir, j, name)
    ensures i == j
  {
  }

  lemma LostAgree(was: State, mid: State, st: State, c: nat)
    requires SameLost(was, mid) && SameLost(mid, st)
    ensures Lost(was, c) <==> Lost(st, c)
  {
    hide Lost;
  }

  /** A cluster is free exactly when no chain has it and it is not leaked. */
  lemma FreeIs(st: State, cs: nat, c: nat)
    requires Good(st, cs) && 2 <= c < |st.fat|
    ensures st.fat[c] == CLUSTER_FREE <==> !Owned(st, c) && !Lost(st, c)
  {
    hide Good, Owned;
    if Owned(st, c) { OwnedAllocated(st, cs, c); }
  }
}
