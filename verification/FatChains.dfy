/**
 The volume above sectors: FAT entries as a sequence, cluster contents as a sequence,
 cluster chains, the root directory as a sequence of slots, and the map of files they stand for.
 */
module FatChains {
  import opened Bytes
  import opened FatFormat

  // ----- chains -----

  predicate InRange(fat: seq<nat>, ch: seq<nat>) {
    forall i :: 0 <= i < |ch| ==> 2 <= ch[i] < |fat|
  }

  /** `ch` is followed link by link and closed by an end-of-chain mark. */
  predicate IsChain(fat: seq<nat>, ch: seq<nat>) {
    && |ch| > 0
    && InRange(fat, ch)
    && (forall i :: 0 <= i < |ch| - 1 ==> fat[ch[i]] == ch[i + 1])
    && fat[ch[|ch| - 1]] >= CLUSTER_EOC
  }

  /** The chain a directory entry with first cluster `first` owns; zero means none. */
  predicate ChainFrom(fat: seq<nat>, first: nat, ch: seq<nat>) {
    if first == 0 then ch == [] else IsChain(fat, ch) && ch[0] == first
  }

  predicate Distinct(ch: seq<nat>) {
    forall i, j :: 0 <= i < j < |ch| ==> ch[i] != ch[j]
  }

  /** A closed chain visits no cluster twice: chains are acyclic. */
  lemma {:induction false} ChainAcyclic(fat: seq<nat>, ch: seq<nat>)
    requires |fat| <= CLUSTER_BAD && IsChain(fat, ch)
    ensures Distinct(ch)
  {
    forall i, j | 0 <= i < j < |ch| ensures ch[i] != ch[j] {
      NoRepeat(fat, ch, i, j);
    }
  }

  lemma {:induction false} NoRepeat(fat: seq<nat>, ch: seq<nat>, i: nat, j: nat)
    requires |fat| <= CLUSTER_BAD && IsChain(fat, ch)
    requires i < j < |ch|
    ensures ch[i] != ch[j]
    decreases |ch| - j
  {
    if ch[i] == ch[j] {
      assert fat[ch[i]] == ch[i + 1];
      if j + 1 < |ch| {
        NoRepeat(fat, ch, i + 1, j + 1);
      }
    }
  }

  /** Two chains from the same cluster are the same chain. */
  lemma {:induction false} ChainUnique(fat: seq<nat>, a: seq<nat>, b: seq<nat>)
    requires |fat| <= CLUSTER_BAD && IsChain(fat, a) && IsChain(fat, b) && a[0] == b[0]
    ensures a == b
  {
    assert |a| > 1 ==> fat[a[0]] == a[1];
    assert |b| > 1 ==> fat[b[0]] == b[1];
    if |a| > 1 {
      ChainTail(fat, a);
      ChainTail(fat, b);
      ChainUnique(fat, a[1..], b[1..]);
      assert a == [a[0]] + a[1..] && b == [b[0]] + b[1..];
    }
  }

  lemma ChainTail(fat: seq<nat>, ch: seq<nat>)
    requires IsChain(fat, ch) && |ch| > 1
    ensures IsChain(fat, ch[1..])
  {
    forall i | 0 <= i < |ch[1..]| - 1 ensures fat[ch[1..][i]] == ch[1..][i + 1] {
      assert fat[ch[i + 1]] == ch[i + 2];
    }
  }

  // ----- cluster contents along a chain -----

  predicate Sized(data: seq<seq<byte>>, ch: seq<nat>, cs: nat) {
    forall i :: 0 <= i < |ch| ==> ch[i] < |data| && |data[ch[i]]| == cs
  }

  /** The bytes of the clusters of `ch`, in chain order. */
  function Gather(data: seq<seq<byte>>, ch: seq<nat>): seq<byte> {
    if ch == [] then [] else (if ch[0] < |data| then data[ch[0]] else []) + Gather(data, ch[1..])
  }

  lemma {:induction false} GatherConcat(data: seq<seq<byte>>, a: seq<nat>, b: seq<nat>)
    ensures Gather(data, a + b) == Gather(data, a) + Gather(data, b)
  {
    if a == [] {
      assert a + b == b;
    } else {
      GatherConcat(data, a[1..], b);
      assert (a + b)[1..] == a[1..] + b;
    }
  }

  lemma {:induction false} GatherLength(data: seq<seq<byte>>, ch: seq<nat>, cs: nat)
    requires Sized(data, ch, cs)
    ensures |Gather(data, ch)| == Times(|ch|, cs)
  {
    if ch != [] {
      GatherLength(data, ch[1..], cs);
    }
  }

  lemma {:induction false} GatherFrame(data: seq<seq<byte>>, data': seq<seq<byte>>, ch: seq<nat>)
    requires |data| == |data'|
    requires forall c :: c in ch && c < |data| ==> data'[c] == data[c]
    ensures Gather(data', ch) == Gather(data, ch)
  {
    if ch != [] {
      GatherFrame(data, data', ch[1..]);
    }
  }

  /** Splits the bytes of a chain around its cluster `k`. */
  lemma GatherSplit(data: seq<seq<byte>>, ch: seq<nat>, cs: nat, k: nat)
    requires Sized(data, ch, cs) && k < |ch|
    ensures Gather(data, ch) == Gather(data, ch[..k]) + (data[ch[k]] + Gather(data, ch[k + 1..]))
    ensures |Gather(data, ch[..k])| == Times(k, cs)
  {
    assert ch[..k] + ch[k..] == ch;
    GatherConcat(data, ch[..k], ch[k..]);
    assert ch[k..][1..] == ch[k + 1..];
    GatherLength(data, ch[..k], cs);
  }

  lemma SliceMiddle<T>(p: seq<T>, d: seq<T>, s: seq<T>, o: nat, n: nat)
    requires o + n <= |d|
    ensures (p + (d + s))[|p| + o..|p| + o + n] == d[o..o + n]
  {
    assert (p + (d + s))[|p|..] == d + s;
    assert (p + (d + s))[|p| + o..|p| + o + n] == (d + s)[o..o + n];
  }

  lemma SpliceMiddle<T>(p: seq<T>, d: seq<T>, s: seq<T>, o: nat, b: seq<T>)
    requires o + |b| <= |d|
    ensures p + (Splice(d, o, b) + s) == Splice(p + (d + s), |p| + o, b)
  {
    var whole := p + (d + s);
    assert whole[..|p| + o] == p + d[..o];
    assert whole[|p| + o + |b|..] == d[o + |b|..] + s;
  }

  /** Byte `o` onwards of cluster `k` is byte `Times(k, cs) + o` onwards of the chain. */
  lemma GatherRead(data: seq<seq<byte>>, ch: seq<nat>, cs: nat, k: nat, o: nat, n: nat)
    requires Sized(data, ch, cs) && k < |ch| && o + n <= cs
    ensures Times(k, cs) + o + n <= |Gather(data, ch)|
    ensures Gather(data, ch)[Times(k, cs) + o..Times(k, cs) + o + n] == data[ch[k]][o..o + n]
  {
    GatherSplit(data, ch, cs, k);
    SliceMiddle(Gather(data, ch[..k]), data[ch[k]], Gather(data, ch[k + 1..]), o, n);
  }

  /** Overwriting part of one cluster overwrites the same part of the chain's bytes. */
  lemma GatherWrite(data: seq<seq<byte>>, ch: seq<nat>, cs: nat, k: nat, o: nat, b: seq<byte>)
    requires Sized(data, ch, cs) && k < |ch| && o + |b| <= cs && Distinct(ch)
    ensures Times(k, cs) + o + |b| <= |Gather(data, ch)|
    ensures Gather(data[ch[k] := Splice(data[ch[k]], o, b)], ch) == Splice(Gather(data, ch), Times(k, cs) + o, b)
  {
    hide Gather, Splice;
    var data' := data[ch[k] := Splice(data[ch[k]], o, b)];
    assert Sized(data', ch, cs);
    assert ch[k] !in ch[..k] && ch[k] !in ch[k + 1..];
    hide Sized, Distinct;
    GatherSplit(data, ch, cs, k);
    GatherSplit(data', ch, cs, k);
    GatherFrame(data, data', ch[..k]);
    GatherFrame(data, data', ch[k + 1..]);
    SpliceMiddle(Gather(data, ch[..k]), data[ch[k]], Gather(data, ch[k + 1..]), o, b);
  }

  // ----- directory and files -----

  datatype State = State(
    fat: seq<nat>,              // 28-bit FAT entries
    data: seq<seq<byte>>,       // cluster contents, indexed like the FAT
    root: seq<nat>,             // chain of the root directory
    dir: seq<RawEntry>,         // slots of the root directory
    chains: seq<seq<nat>>,      // chain owned by each slot
    files: map<RawName, seq<byte>>)

  function Slots(bytes: seq<byte>): (s: seq<RawEntry>)
    ensures |s| == |bytes| / ENTRY_SIZE
  {
    seq(|bytes| / ENTRY_SIZE,
        i requires 0 <= i < |bytes| / ENTRY_SIZE => bytes[ENTRY_SIZE * i..ENTRY_SIZE * i + ENTRY_SIZE])
  }

  /** Overwriting the 32 bytes of slot `i` replaces that slot and no other. */
  lemma SlotsWrite(bytes: seq<byte>, i: nat, e: RawEntry)
    requires i < |bytes| / ENTRY_SIZE
    ensures Slots(Splice(bytes, ENTRY_SIZE * i, e)) == Slots(bytes)[i := e]
  {
    var t := Splice(bytes, ENTRY_SIZE * i, e);
    forall j | 0 <= j < |bytes| / ENTRY_SIZE ensures Slots(t)[j] == Slots(bytes)[i := e][j] {
      if j != i {
        assert t[ENTRY_SIZE * j..ENTRY_SIZE * j + ENTRY_SIZE] == bytes[ENTRY_SIZE * j..ENTRY_SIZE * j + ENTRY_SIZE];
      }
    }
  }

  predicate Shape(fat: seq<nat>, data: seq<seq<byte>>, cs: nat) {
    && |data| == |fat| <= CLUSTER_BAD
    && (forall c :: 2 <= c < |data| ==> |data[c]| == cs)
  }

  /** A live slot owns a chain from its first cluster that is long enough for its size. */
  predicate SlotOk(fat: seq<nat>, data: seq<seq<byte>>, e: RawEntry, ch: seq<nat>) {
    if Live(e) then
      ChainFrom(fat, FirstCluster(e), ch) && FileSize(e) <= |Gather(data, ch)|
    else
      ch == []
  }

  /** The bytes of a file: the first `FileSize(e)` bytes along its chain. */
  function Content(data: seq<seq<byte>>, e: RawEntry, ch: seq<nat>): (b: seq<byte>)
    ensures FileSize(e) <= |Gather(data, ch)| ==> |b| == FileSize(e)
  {
    var g := Gather(data, ch);
    if FileSize(e) <= |g| then g[..FileSize(e)] else g
  }

  /** Once a slot is the end marker, so is every later one. */
  predicate Terminated(dir: seq<RawEntry>) {
    forall i, j :: 0 <= i < j < |dir| && dir[i][0] == SLOT_END ==> dir[j][0] == SLOT_END
  }

  predicate UniqueNames(dir: seq<RawEntry>) {
    forall i, j :: 0 <= i < j < |dir| && Live(dir[i]) && Live(dir[j]) ==> NameOf(dir[i]) != NameOf(dir[j])
  }

  /** No cluster is in both. */
  predicate Apart(a: seq<nat>, b: seq<nat>) {
    forall c :: c in a ==> c !in b
  }

  predicate Disjoint(root: seq<nat>, chains: seq<seq<nat>>) {
    && (forall i :: 0 <= i < |chains| ==> Apart(chains[i], root))
    && (forall i, j :: 0 <= i < |chains| && 0 <= j < |chains| && i != j ==> Apart(chains[i], chains[j]))
  }

  /** The FAT entries and the contents of the clusters of `ch` are the same on both sides. */
  ghost predicate SameOn(st: State, st': State, ch: seq<nat>) {
    forall c :: c in ch ==>
        c < |st.fat| && c < |st'.fat| && c < |st.data|
        && c < |st'.data| && st'.fat[c] == st.fat[c] && st'.data[c] == st.data[c]
  }

  lemma SameChain(st: State, st': State, ch: seq<nat>)
    requires SameOn(st, st', ch) && |st'.fat| == |st.fat| && |st'.data| == |st.data|
    ensures IsChain(st.fat, ch) ==> IsChain(st'.fat, ch)
    ensures Gather(st'.data, ch) == Gather(st.data, ch)
  {
    if IsChain(st.fat, ch) {
      ChainFrame(st.fat, st'.fat, ch);
    }
    GatherFrame(st.data, st'.data, ch);
  }

  predicate SlotsOk(fat: seq<nat>, data: seq<seq<byte>>, dir: seq<RawEntry>, chains: seq<seq<nat>>) {
    && |chains| == |dir|
    && (forall i :: 0 <= i < |dir| ==> SlotOk(fat, data, dir[i], chains[i]))
  }

  ghost predicate Holds(files: map<RawName, seq<byte>>, name: RawName, content: seq<byte>) {
    name in files && files[name] == content
  }

  ghost predicate Names(dir: seq<RawEntry>, i: nat, name: RawName) {
    i < |dir| && Live(dir[i]) && NameOf(dir[i]) == name
  }

  /** `files` is exactly what the live slots of `dir` hold. */
  ghost predicate Represents(files: map<RawName, seq<byte>>, data: seq<seq<byte>>, dir: seq<RawEntry>,
                             chains: seq<seq<nat>>)
    requires |chains| == |dir|
  {
    && (forall i :: 0 <= i < |dir| && Live(dir[i]) ==> Holds(files, NameOf(dir[i]), Content(data, dir[i], chains[i])))
    && (forall k :: k in files ==> exists i: nat :: Names(dir, i, k))
  }

  /** The volume invariant. */
  ghost predicate Good(st: State, cs: nat) {
    && Shape(st.fat, st.data, cs)
    && IsChain(st.fat, st.root)
    && st.dir == Slots(Gather(st.data, st.root))
    && SlotsOk(st.fat, st.data, st.dir, st.chains)
    && Disjoint(st.root, st.chains)
    && Terminated(st.dir)
    && UniqueNames(st.dir)
    && Represents(st.files, st.data, st.dir, st.chains)
  }

  ghost predicate Owned(st: State, c: nat) {
    c in st.root || exists i :: 0 <= i < |st.chains| && c in st.chains[i]
  }

  /** Allocated, yet in no chain: leaked, reserved or marked bad. */
  ghost predicate Lost(st: State, c: nat) {
    2 <= c < |st.fat| && st.fat[c] != CLUSTER_FREE && !Owned(st, c)
  }

  /** Every cluster of every chain is allocated. */
  lemma OwnedAllocated(st: State, cs: nat, c: nat)
    requires Good(st, cs) && Owned(st, c)
    ensures 2 <= c < |st.fat| && st.fat[c] != CLUSTER_FREE
  {
    if c in st.root {
      ChainAllocated(st.fat, st.root, c);
    } else {
      var i :| 0 <= i < |st.chains| && c in st.chains[i];
      assert SlotOk(st.fat, st.data, st.dir[i], st.chains[i]);
      ChainAllocated(st.fat, st.chains[i], c);
    }
  }

  lemma ChainAllocated(fat: seq<nat>, ch: seq<nat>, c: nat)
    requires IsChain(fat, ch) && c in ch
    ensures 2 <= c < |fat| && fat[c] != CLUSTER_FREE
  {
    var i :| 0 <= i < |ch| && ch[i] == c;
    if i < |ch| - 1 {
      assert fat[ch[i]] == ch[i + 1];
    }
  }

  lemma ChainFrame(fat: seq<nat>, fat': seq<nat>, ch: seq<nat>)
    requires IsChain(fat, ch) && |fat'| == |fat|
    requires forall c :: c in ch && c < |fat| ==> fat'[c] == fat[c]
    ensures IsChain(fat', ch)
  {
    forall i | 0 <= i < |ch| - 1 ensures fat'[ch[i]] == ch[i + 1] {
      assert ch[i] in ch;
    }
    assert ch[|ch| - 1] in ch;
  }

  // ----- the one step every file operation takes -----

  /** Outside slot `i`, no cluster of another slot's chain has changed, and the directory is what
      it was except that slot `i` reads `e`. */
  ghost predicate SlotFrame(st: State, st': State, cs: nat, i: nat, e: RawEntry, ch: seq<nat>)
  {
    && i < |st.dir| == |st.chains|
    && Shape(st'.fat, st'.data, cs) && |st'.fat| == |st.fat| == |st.data|
    && st'.root == st.root && st'.dir == st.dir[i := e] && st'.chains == st.chains[i := ch]
    && IsChain(st'.fat, st'.root) && st'.dir == Slots(Gather(st'.data, st'.root))
    && (forall j :: 0 <= j < |st.chains| && j != i ==> SameOn(st, st', st.chains[j]))
  }

  /** `ch` keeps clear of the root directory and of every slot's chain but slot `i`'s. */
  ghost predicate Clear(st: State, i: nat, ch: seq<nat>) {
    Apart(ch, st.root) && forall j :: 0 <= j < |st.chains| && j != i ==> Apart(ch, st.chains[j])
  }

  /** Another entry may take slot `i`: no end marker appears or hides later slots, no name is doubled. */
  predicate EntryFits(dir: seq<RawEntry>, i: nat, e: RawEntry)
  {
    && i < |dir|
    && e[0] != SLOT_END
    && (forall j :: 0 <= j < i ==> dir[j][0] != SLOT_END)
    && (Live(e) ==> forall j :: 0 <= j < |dir| && j != i && Live(dir[j]) ==> NameOf(dir[j]) != NameOf(e))
  }

  ghost function FilesAfter(st: State, st': State, i: nat, e: RawEntry, ch: seq<nat>): map<RawName, seq<byte>>
    requires i < |st.dir|
  {
    var f := if Live(st.dir[i]) then st.files - {NameOf(st.dir[i])} else st.files;
    if Live(e) then f[NameOf(e) := Content(st'.data, e, ch)] else f
  }

  /** Replacing the occupant of one slot keeps the volume invariant. */
  lemma SlotStepGood(st: State, st': State, cs: nat, i: nat, e: RawEntry, ch: seq<nat>)
    requires Good(st, cs) && SlotFrame(st, st', cs, i, e, ch)
    requires SlotOk(st'.fat, st'.data, e, ch) && Clear(st, i, ch) && EntryFits(st.dir, i, e)
    requires st'.files == FilesAfter(st, st', i, e, ch)
    ensures Good(st', cs)
  {
    StepSlots(st, st', cs, i, e, ch);
    StepDisjoint(st.root, st.chains, i, ch);
    StepDirectory(st.dir, i, e);
    StepFiles(st, st', i, e, ch);
  }

  lemma StepSlots(st: State, st': State, cs: nat, i: nat, e: RawEntry, ch: seq<nat>)
    requires SlotsOk(st.fat, st.data, st.dir, st.chains)
    requires SlotFrame(st, st', cs, i, e, ch) && SlotOk(st'.fat, st'.data, e, ch)
    ensures SlotsOk(st'.fat, st'.data, st'.dir, st'.chains)
    ensures forall j :: 0 <= j < |st.dir| && j != i && Live(st.dir[j]) ==>
              Content(st'.data, st.dir[j], st.chains[j]) == Content(st.data, st.dir[j], st.chains[j])
  {
    forall j | 0 <= j < |st.dir| && j != i
      ensures SlotOk(st'.fat, st'.data, st.dir[j], st.chains[j])
      ensures Content(st'.data, st.dir[j], st.chains[j]) == Content(st.data, st.dir[j], st.chains[j])
    {
      assert SlotOk(st.fat, st.data, st.dir[j], st.chains[j]);
      SameChain(st, st', st.chains[j]);
    }
  }

  lemma StepDisjoint(root: seq<nat>, chains: seq<seq<nat>>, i: nat, ch: seq<nat>)
    requires Disjoint(root, chains) && i < |chains|
    requires Apart(ch, root) && forall j :: 0 <= j < |chains| && j != i ==> Apart(ch, chains[j])
    ensures Disjoint(root, chains[i := ch])
  {
    forall j | 0 <= j < |chains| && j != i ensures Apart(chains[j], ch) {
      assert Apart(ch, chains[j]);
    }
  }

  lemma StepDirectory(dir: seq<RawEntry>, i: nat, e: RawEntry)
    requires Terminated(dir) && UniqueNames(dir) && EntryFits(dir, i, e)
    ensures Terminated(dir[i := e]) && UniqueNames(dir[i := e])
  {
  }

  lemma StepFiles(st: State, st': State, i: nat, e: RawEntry, ch: seq<nat>)
    requires i < |st.dir| == |st.chains| && UniqueNames(st.dir)
    requires Represents(st.files, st.data, st.dir, st.chains)
    requires forall j :: 0 <= j < |st.dir| && j != i && Live(st.dir[j]) ==>
               Content(st'.data, st.dir[j], st.chains[j]) == Content(st.data, st.dir[j], st.chains[j])
    requires EntryFits(st.dir, i, e)
    ensures Represents(FilesAfter(st, st', i, e, ch), st'.data, st.dir[i := e], st.chains[i := ch])
  {
    var dir, files := st.dir[i := e], FilesAfter(st, st', i, e, ch);
    forall k | k in files ensures exists j: nat :: Names(dir, j, k) {
      if Live(e) && k == NameOf(e) {
        assert Names(dir, i, k);
      } else {
        var j: nat :| Names(st.dir, j, k);
        assert Names(dir, j, k);
      }
    }
    forall j | 0 <= j < |dir| && Live(dir[j])
      ensures Holds(files, NameOf(dir[j]), Content(st'.data, dir[j], st.chains[i := ch][j]))
    {
      if j != i {
        assert Holds(st.files, NameOf(st.dir[j]), Content(st.data, st.dir[j], st.chains[j]));
      }
    }
  }

  // ----- searching the directory -----

  datatype Wanted = FreeSlot | Match(name: RawName)

  /** Where the search callback asks the iteration to stop. */
  predicate Stops(w: Wanted, e: RawEntry) {
    match w
    case FreeSlot => e[0] == SLOT_FREE || e[0] == SLOT_END
    case Match(name) => e[0] == SLOT_END || (Live(e) && NameOf(e) == name)
  }

  /** Where it reports success as well. */
  predicate Finds(w: Wanted, e: RawEntry) {
    Stops(w, e) && (w.Match? ==> e[0] != SLOT_END)
  }

  /** Slot `i` is entry `idx` of sector `s` of the `k`-th directory cluster. */
  predicate Place(cs: nat, i: nat, k: nat, s: nat, idx: nat) {
    idx < 16 && ENTRY_SIZE * i == Times(k, cs) + SECTOR * s + ENTRY_SIZE * idx
  }

  /** The bytes at a slot's place are the slot. */
  lemma SlotRead(st: State, cs: nat, i: nat, k: nat, s: nat, idx: nat, sector: Sector)
    requires Shape(st.fat, st.data, cs) && IsChain(st.fat, st.root) && st.dir == Slots(Gather(st.data, st.root))
    requires k < |st.root| && SECTOR * s + SECTOR <= cs && Place(cs, i, k, s, idx)
    requires sector == st.data[st.root[k]][SECTOR * s..SECTOR * s + SECTOR]
    ensures i < |st.dir| && st.dir[i] == sector[ENTRY_SIZE * idx..ENTRY_SIZE * idx + ENTRY_SIZE]
  {
    var o := SECTOR * s + ENTRY_SIZE * idx;
    var g, d := Gather(st.data, st.root), st.data[st.root[k]];
    GatherRead(st.data, st.root, cs, k, o, ENTRY_SIZE);
    SliceInside(d, SECTOR * s, SECTOR * s + SECTOR, ENTRY_SIZE * idx, ENTRY_SIZE);
    assert g[ENTRY_SIZE * i..ENTRY_SIZE * i + ENTRY_SIZE] == d[o..o + ENTRY_SIZE];
  }

  /** Overwriting a slot's place replaces that slot. */
  lemma SlotWrite(st: State, cs: nat, i: nat, k: nat, s: nat, idx: nat, e: RawEntry)
    requires Shape(st.fat, st.data, cs) && IsChain(st.fat, st.root) && st.dir == Slots(Gather(st.data, st.root))
    requires k < |st.root| && SECTOR * s + SECTOR <= cs && Place(cs, i, k, s, idx)
    ensures i < |st.dir|
    ensures var d := st.data[st.root[k]];
            Slots(Gather(st.data[st.root[k] := Splice(d, SECTOR * s + ENTRY_SIZE * idx, e)], st.root)) == st.dir[i := e]
  {
    var o := SECTOR * s + ENTRY_SIZE * idx;
    ChainAcyclic(st.fat, st.root);
    GatherWrite(st.data, st.root, cs, k, o, e);
    SlotsWrite(Gather(st.data, st.root), i, e);
  }
}
