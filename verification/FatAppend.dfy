/** What appending does to a volume: bytes fill the last used cluster first, then fresh clusters. */
module FatAppend {
  import opened Bytes
  import opened FatFormat
  import opened FatChains
  import opened FatWalk
  import opened FatSteps

  // ----- bytes -----

  /** Along `cur` the clusters hold the old bytes and then the first `written` new ones, with no
      room left as long as something remains to be written. */
  ghost predicate Tail(data: seq<seq<byte>>, cur: seq<nat>, before: seq<byte>, content: seq<byte>, written: nat) {
    var g := Gather(data, cur);
    && written <= |content| && |before| + written <= |g|
    && g[..|before| + written] == before + content[..written]
    && (written < |content| ==> |g| == |before| + written)
  }

  lemma TailStart(data: seq<seq<byte>>, cur: seq<nat>, before: seq<byte>, content: seq<byte>)
    requires |before| <= |Gather(data, cur)| && Gather(data, cur)[..|before|] == before
    requires content == [] || |Gather(data, cur)| == |before|
    ensures Tail(data, cur, before, content, 0)
  {
    assert before + content[..0] == before;
  }

  /** Filling the rest of the last cluster. */
  lemma TailFill(data: seq<seq<byte>>, cs: nat, cur: seq<nat>, off: nat, n: nat, before: seq<byte>, content: seq<byte>)
    requires cur != [] && Sized(data, cur, cs) && Distinct(cur)
    requires off <= cs && Times(|cur| - 1, cs) + off == |before|
    requires n <= |content| && n == if |content| < cs - off then |content| else cs - off
    requires |before| <= |Gather(data, cur)| && Gather(data, cur)[..|before|] == before
    ensures Tail(data[cur[|cur| - 1] := Splice(data[cur[|cur| - 1]], off, content[..n])], cur, before, content, n)
  {
    hide Gather, Distinct, Times;
    GatherLength(data, cur, cs);
    GatherWrite(data, cur, cs, |cur| - 1, off, content[..n]);
    SplicedTail(Gather(data, cur), before, content[..n]);
    LastRun(|cur|, cs);
  }

  lemma LastRun(n: nat, cs: nat)
    requires n > 0
    ensures Times(n, cs) == Times(n - 1, cs) + cs
  {
  }

  lemma SplicedTail(g: seq<byte>, before: seq<byte>, part: seq<byte>)
    requires |before| + |part| <= |g| && g[..|before|] == before
    ensures Splice(g, |before|, part)[..|before| + |part|] == before + part
  {
  }

  /** Adding a cluster whose first bytes are the next ones of the content. */
  lemma TailGrow(data: seq<seq<byte>>, data': seq<seq<byte>>, cs: nat, cur: seq<nat>, cl: nat, before: seq<byte>,
                 content: seq<byte>, written: nat, n: nat)
    requires Tail(data, cur, before, content, written) && written < |content|
    requires cl < |data| == |data'| && cl !in cur && data' == data[cl := data'[cl]] && |data'[cl]| == cs
    requires n == if |content| - written < cs then |content| - written else cs
    requires data'[cl][..n] == content[written..written + n]
    ensures Tail(data', cur + [cl], before, content, written + n)
  {
    GatherFrame(data, data', cur);
    GatherConcat(data', cur, [cl]);
    assert Gather(data', [cl]) == data'[cl];
    var g := Gather(data, cur);
    assert g == before + content[..written];
    assert (g + data'[cl])[..|before| + written + n] == g + data'[cl][..n];
    assert content[..written] + content[written..written + n] == content[..written + n];
  }

  // ----- clusters -----

  /** The clusters of `ch` are slot `i`'s own or were free. */
  ghost predicate Mine(was: State, i: nat, ch: seq<nat>)
    requires i < |was.chains|
  {
    forall c :: c in ch ==> c < |was.fat| && (c in was.chains[i] || was.fat[c] == CLUSTER_FREE)
  }

  lemma MineApart(was: State, i: nat, ch: seq<nat>, kept: seq<nat>)
    requires i < |was.chains| && Mine(was, i, ch) && Apart(was.chains[i], kept) && Allocated(was.fat, kept)
    ensures Apart(ch, kept)
  {
  }

  /** A volume changed only at clusters of `cur`, all of them the slot's own or free before. */
  ghost predicate Changed(was: State, st: State, cs: nat, i: nat, cur: seq<nat>) {
    && st == was.(fat := st.fat, data := st.data)
    && |st.fat| == |was.fat| == |was.data| && Shape(st.fat, st.data, cs)
    && i < |was.chains| && Mine(was, i, cur)
    && (forall c :: 0 <= c < |was.fat| && c !in cur ==> st.fat[c] == was.fat[c] && st.data[c] == was.data[c])
  }

  lemma ChangedSame(was: State, st: State, cs: nat, i: nat, cur: seq<nat>, kept: seq<nat>)
    requires Changed(was, st, cs, i, cur) && Apart(cur, kept) && Allocated(was.fat, kept)
    ensures SameOn(was, st, kept)
  {
  }

  lemma ChangedKept(was: State, st: State, cs: nat, i: nat, cur: seq<nat>)
    requires Good(was, cs) && Changed(was, st, cs, i, cur)
    ensures Kept(was, st, cs, i) && Clear(was, i, cur)
  {
    AllAllocated(was, cs);
    assert Apart(was.chains[i], was.root);
    MineApart(was, i, cur, was.root);
    ChangedSame(was, st, cs, i, cur, was.root);
    forall j | 0 <= j < |was.chains| && j != i ensures Apart(cur, was.chains[j]) && SameOn(was, st, was.chains[j]) {
      hide Good, SameOn, Allocated, Apart, Changed, Mine;
      MineApart(was, i, cur, was.chains[j]);
      ChangedSame(was, st, cs, i, cur, was.chains[j]);
    }
  }

  // ----- the state of an append -----

  /** Clusters of a file that hold bytes of it, counting the one an empty file has in reserve. */
  function Used(first: nat, size: nat, cs: nat): nat
    requires cs > 0
  {
    if first == 0 then 0 else ClustersFor(size, cs)
  }

  /** `cur` is where slot `i`'s file lives while it grows: a prefix of its chain, or (`grown`) a
      closed chain of its own clusters and claimed ones. Nothing else has changed. */
  ghost predicate Core(was: State, st: State, cs: nat, i: nat, cur: seq<nat>, grown: bool) {
    && cs > 0 && i < |was.dir| == |was.chains| && Live(was.dir[i])
    && Changed(was, st, cs, i, cur)
    && Distinct(cur) && Linked(st.fat, cur)
    && (if grown then IsChain(st.fat, cur) else st.fat == was.fat && cur <= was.chains[i])
    && (FirstCluster(was.dir[i]) != 0 ==> cur != [] && cur[0] == FirstCluster(was.dir[i]))
    && (FirstCluster(was.dir[i]) == 0 && !grown ==> cur == [])
    && |FreeSet(st.fat)| + |cur| == |FreeSet(was.fat)| + Used(FirstCluster(was.dir[i]), FileSize(was.dir[i]), cs)
  }

  /** `written` bytes of `content` are behind the old bytes of slot `i`'s file along `cur`. */
  ghost predicate Appending(was: State, st: State, cs: nat, i: nat, content: seq<byte>, written: nat, cur: seq<nat>,
                            grown: bool) {
    && Core(was, st, cs, i, cur, grown)
    && Tail(st.data, cur, Content(was.data, was.dir[i], was.chains[i]), content, written)
  }

  // ----- before anything is written -----

  lemma TimesOrder(a: nat, b: nat, k: nat)
    requires Times(a, k) < Times(b, k)
    ensures a < b
  {
    if b < a {
      TimesStep(b, a, k);
    }
  }

  /** How a file's size, its clusters and its chain relate. */
  lemma UsedFacts(was: State, cs: nat, i: nat)
    requires cs > 0 && Good(was, cs) && i < |was.dir| && Live(was.dir[i])
    ensures var first, size := FirstCluster(was.dir[i]), FileSize(was.dir[i]);
            var m := Used(first, size, cs);
            && i < |was.chains| && m <= |was.chains[i]| && size <= Times(m, cs)
            && (first == 0 <==> m == 0)
            && (size % cs != 0 ==> m > 0 && Times(m - 1, cs) + size % cs == size)
            && (size % cs == 0 && size > 0 ==> Times(m, cs) == size)
            && (size == 0 && m > 0 ==> m == 1)
  {
    var first, size, ch := FirstCluster(was.dir[i]), FileSize(was.dir[i]), was.chains[i];
    var m := Used(first, size, cs);
    LiveContent(was, cs, i);
    ChainSized(was, cs, ch);
    GatherLength(was.data, ch, cs);
    ClustersForEnough(size, cs);
    TimesDivide(size, cs);
    if size > 0 {
      hide Good, Content, Gather, ClustersFor;
      TimesOrder(m - 1, |ch|, cs);
      RoundUp(m, size, cs);
    }
  }

  lemma RoundUp(m: nat, size: nat, cs: nat)
    requires cs > 0 && m > 0 && Times(m - 1, cs) < size <= Times(m, cs)
    ensures size % cs != 0 ==> Times(m - 1, cs) + size % cs == size
    ensures size % cs == 0 ==> Times(m, cs) == size
  {
    TimesDivide(size, cs);
    var q := size / cs;
    if q < m - 1 {
      TimesStep(q, m - 1, cs);
    } else if m < q {
      TimesStep(m, q, cs);
    }
  }

  lemma ChainSized(st: State, cs: nat, ch: seq<nat>)
    requires Shape(st.fat, st.data, cs) && (ch == [] || IsChain(st.fat, ch))
    ensures Sized(st.data, ch, cs)
  {
  }

  /** The used part of the chain holds the old bytes. */
  lemma StartBytes(was: State, cs: nat, i: nat, cur: seq<nat>)
    requires cs > 0 && Good(was, cs) && i < |was.dir| && Live(was.dir[i])
    requires cur <= (if i < |was.chains| then was.chains[i] else [])
    requires |cur| == Used(FirstCluster(was.dir[i]), FileSize(was.dir[i]), cs)
    ensures Sized(was.data, cur, cs)
    ensures |Gather(was.data, cur)| == Times(|cur|, cs) >= FileSize(was.dir[i])
    ensures Gather(was.data, cur)[..FileSize(was.dir[i])] == Content(was.data, was.dir[i], was.chains[i])
  {
    hide Good, Gather, Times, ClustersFor, Used, Live;
    GoodShape(was, cs);
    GoodSizes(was, cs);
    var ch := was.chains[i];
    UsedFacts(was, cs, i);
    LiveContent(was, cs, i);
    ChainSized(was, cs, ch);
    ChainPrefix(was.data, cs, ch, cur, FileSize(was.dir[i]));
  }

  lemma ChainPrefix(data: seq<seq<byte>>, cs: nat, ch: seq<nat>, cur: seq<nat>, size: nat)
    requires Sized(data, ch, cs) && cur <= ch && size <= Times(|cur|, cs)
    ensures Sized(data, cur, cs) && |Gather(data, cur)| == Times(|cur|, cs)
    ensures size <= |Gather(data, ch)| && Gather(data, ch)[..size] == Gather(data, cur)[..size]
  {
    assert forall j | 0 <= j < |cur| :: cur[j] == ch[j];
    GatherLength(data, cur, cs);
    assert ch == cur + ch[|cur|..];
    GatherConcat(data, cur, ch[|cur|..]);
  }

  lemma CoreStart(was: State, cs: nat, i: nat, cur: seq<nat>)
    requires cs > 0 && Good(was, cs) && i < |was.dir| && Live(was.dir[i])
    requires cur <= (if i < |was.chains| then was.chains[i] else [])
    requires |cur| == Used(FirstCluster(was.dir[i]), FileSize(was.dir[i]), cs)
    ensures Core(was, was, cs, i, cur, false)
  {
    hide Good, Gather, Times, ClustersFor, Used, Content, Live, Distinct, Mine;
    GoodShape(was, cs);
    GoodSizes(was, cs);
    var ch := was.chains[i];
    UsedFacts(was, cs, i);
    LiveContent(was, cs, i);
    if ch != [] {
      ChainAcyclic(was.fat, ch);
    }
    PrefixMine(was, i, cur);
    PrefixLinked(was.fat, ch, cur);
  }

  lemma GoodShape(st: State, cs: nat)
    requires Good(st, cs)
    ensures Shape(st.fat, st.data, cs)
  {
  }

  lemma PrefixLinked(fat: seq<nat>, ch: seq<nat>, cur: seq<nat>)
    requires cur <= ch && (ch == [] || (IsChain(fat, ch) && Distinct(ch)))
    ensures Linked(fat, cur) && Distinct(cur)
  {
    assert forall i | 0 <= i < |cur| :: cur[i] == ch[i];
  }

  lemma PrefixMine(was: State, i: nat, cur: seq<nat>)
    requires i < |was.chains| && cur <= was.chains[i] && InRange(was.fat, was.chains[i])
    ensures Mine(was, i, cur)
  {
    forall c | c in cur ensures c in was.chains[i] && c < |was.fat| {
      var j :| 0 <= j < |cur| && cur[j] == c;
      assert was.chains[i][j] == c;
    }
  }

  /** Bytes written inside `cur` leave the clusters as they are. */
  lemma CoreWrite(was: State, st: State, st': State, cs: nat, i: nat, cur: seq<nat>, grown: bool, k: nat)
    requires Core(was, st, cs, i, cur, grown) && k < |cur| && cur[k] < |st.data|
    requires st' == st.(data := st'.data) && |st'.data| == |st.data| && st'.data == st.data[cur[k] := st'.data[cur[k]]]
    requires |st'.data[cur[k]]| == cs
    ensures Core(was, st', cs, i, cur, grown)
  {
    assert cur[k] in cur;
  }

  lemma FillRoom(was: State, cs: nat, i: nat, cur: seq<nat>)
    requires cs > 0 && Good(was, cs) && i < |was.dir| && Live(was.dir[i])
    requires cur <= (if i < |was.chains| then was.chains[i] else [])
    requires |cur| == Used(FirstCluster(was.dir[i]), FileSize(was.dir[i]), cs)
    ensures var size := FileSize(was.dir[i]);
            && (forall j :: 0 <= j < |cur| ==> 2 <= cur[j] < |was.data|)
            && (cur != [] ==> cur[0] == FirstCluster(was.dir[i]))
            && (FirstCluster(was.dir[i]) == 0 <==> cur == [])
            && (size % cs != 0 ==> cur != [])
            && (size == 0 && cur != [] ==> |cur| == 1)
            && size % cs < cs && (size == 0 ==> size % cs == 0)
  {
    TimesDivide(FileSize(was.dir[i]), cs);
    hide Good, Used, Live, Tail;
    UsedFacts(was, cs, i);
    CoreStart(was, cs, i, cur);
    CoreLive(was, was, cs, i, cur, false);
  }

  /** Bytes put behind the old ones in the last used cluster. */
  lemma FillDone(was: State, st: State, cs: nat, i: nat, cur: seq<nat>, off: nat, n: nat, content: seq<byte>)
    requires cs > 0 && Good(was, cs) && i < |was.dir| && Live(was.dir[i])
    requires cur <= (if i < |was.chains| then was.chains[i] else [])
    requires |cur| == Used(FirstCluster(was.dir[i]), FileSize(was.dir[i]), cs)
    requires cur != [] && if off == 0 then FileSize(was.dir[i]) == 0 else off == FileSize(was.dir[i]) % cs
    requires n <= |content| && n == if |content| < cs - off then |content| else cs - off
    requires cur[|cur| - 1] < |was.data| && off + n <= |was.data[cur[|cur| - 1]]|
    requires st == was.(data := was.data[cur[|cur| - 1] := Splice(was.data[cur[|cur| - 1]], off, content[..n])])
    ensures Appending(was, st, cs, i, content, n, cur, false)
  {
    hide Good, Used, Live, Tail, Core, Splice, Content;
    TimesDivide(FileSize(was.dir[i]), cs);
    UsedFacts(was, cs, i);
    CoreStart(was, cs, i, cur);
    CoreLive(was, was, cs, i, cur, false);
    StartBytes(was, cs, i, cur);
    LiveContent(was, cs, i);
    TailFill(was.data, cs, cur, off, n, Content(was.data, was.dir[i], was.chains[i]), content);
    CoreWrite(was, was, st, cs, i, cur, false, |cur| - 1);
  }

  /** Nothing to write, or no room behind the old bytes. */
  lemma FillNothing(was: State, cs: nat, i: nat, cur: seq<nat>, content: seq<byte>)
    requires cs > 0 && Good(was, cs) && i < |was.dir| && Live(was.dir[i])
    requires cur <= (if i < |was.chains| then was.chains[i] else [])
    requires |cur| == Used(FirstCluster(was.dir[i]), FileSize(was.dir[i]), cs)
    requires FileSize(was.dir[i]) % cs == 0 && (FileSize(was.dir[i]) == 0 && cur != [] ==> content == [])
    ensures Appending(was, was, cs, i, content, 0, cur, false)
  {
    hide Good, Used, Live, Core;
    UsedFacts(was, cs, i);
    CoreStart(was, cs, i, cur);
    StartBytes(was, cs, i, cur);
    LiveContent(was, cs, i);
    TailStart(was.data, cur, Content(was.data, was.dir[i], was.chains[i]), content);
  }

  /** Claiming cluster `cl` and filling it takes an append one cluster further. */
  lemma AppendStep(was: State, st: State, st': State, cs: nat, i: nat, content: seq<byte>, written: nat,
                   cur: seq<nat>, grown: bool, cl: nat, n: nat)
    requires Good(was, cs) && Appending(was, st, cs, i, content, written, cur, grown) && written < |content|
    requires 2 <= cl < |st.fat| && st.fat[cl] == CLUSTER_FREE
    requires st' == st.(fat := st'.fat, data := st'.data)
    requires st'.fat == if cur == [] then st.fat[cl := CLUSTER_EOC] else
                        if cur[|cur| - 1] < |st.fat| then st.fat[cl := CLUSTER_EOC][cur[|cur| - 1] := cl] else st.fat
    requires |st'.data| == |st.data| && st'.data == st.data[cl := st'.data[cl]] && |st'.data[cl]| == cs
    requires n == if |content| - written < cs then |content| - written else cs
    requires st'.data[cl][..n] == content[written..written + n]
    ensures Appending(was, st', cs, i, content, written + n, cur + [cl], true)
  {
    hide Good, Tail, Content, FreeSet, ClustersFor, IsChain, Mine, Distinct, Live;
    CurAllocated(was, st, cs, i, content, written, cur, grown);
    assert cl !in cur;
    GrowChain(st.fat, cur, cl, st'.fat);
    AppendCount(st.fat, cur, cl, st'.fat);
    TailGrow(st.data, st'.data, cs, cur, cl, Content(was.data, was.dir[i], was.chains[i]), content, written, n);
    AppendChanged(was, st, st', cs, i, cur, cl);
  }

  lemma AppendChanged(was: State, st: State, st': State, cs: nat, i: nat, cur: seq<nat>, cl: nat)
    requires Changed(was, st, cs, i, cur) && cl !in cur && 2 <= cl < |st.fat| && st.fat[cl] == CLUSTER_FREE
    requires st' == st.(fat := st'.fat, data := st'.data) && |st'.fat| == |st.fat|
    requires forall k :: 0 <= k < |st.fat| && k !in cur + [cl] ==> st'.fat[k] == st.fat[k]
    requires |st'.data| == |st.data| && st'.data == st.data[cl := st'.data[cl]] && |st'.data[cl]| == cs
    ensures Changed(was, st', cs, i, cur + [cl])
  {
  }

  lemma AppendCount(fat: seq<nat>, cur: seq<nat>, cl: nat, fat': seq<nat>)
    requires 2 <= cl < |fat| && fat[cl] == CLUSTER_FREE && cl !in cur && InRange(fat, cur)
    requires forall c :: c in cur ==> c < |fat| && fat[c] != CLUSTER_FREE
    requires fat' == if cur == [] then fat[cl := CLUSTER_EOC] else fat[cl := CLUSTER_EOC][cur[|cur| - 1] := cl]
    ensures |FreeSet(fat')| + 1 == |FreeSet(fat)|
  {
    ClaimCount(fat, cl, CLUSTER_EOC);
    if cur != [] {
      assert cur[|cur| - 1] in cur;
      RelinkCount(fat[cl := CLUSTER_EOC], cur[|cur| - 1], cl);
    }
  }

  lemma CurAllocated(was: State, st: State, cs: nat, i: nat, content: seq<byte>, written: nat, cur: seq<nat>,
                     grown: bool)
    requires Good(was, cs) && Appending(was, st, cs, i, content, written, cur, grown)
    ensures forall c :: c in cur ==> c < |st.fat| && st.fat[c] != CLUSTER_FREE
  {
    AllAllocated(was, cs);
    forall c | c in cur ensures c < |st.fat| && st.fat[c] != CLUSTER_FREE {
      if grown {
        ChainAllocated(st.fat, cur, c);
      } else {
        assert Allocated(was.fat, was.chains[i]);
        assert c in was.chains[i];
      }
    }
  }

  // ----- when everything is written, or the disk is full -----

  /** The chain slot `i` ends up with. */
  ghost function FinalChain(was: State, i: nat, cur: seq<nat>, grown: bool): seq<nat>
    requires i < |was.chains|
  {
    if grown then cur else was.chains[i]
  }

  lemma OwnClear(was: State, cs: nat, i: nat)
    requires Good(was, cs) && i < |was.chains|
    ensures Clear(was, i, was.chains[i])
  {
  }

  lemma TailPrefix(data: seq<seq<byte>>, cur: seq<nat>, rest: seq<nat>, before: seq<byte>, content: seq<byte>,
                   written: nat)
    requires Tail(data, cur, before, content, written)
    ensures |before| + written <= |Gather(data, cur + rest)|
    ensures Gather(data, cur + rest)[..|before| + written] == before + content[..written]
    ensures Gather(data, cur + rest)[..|before|] == before
  {
    GatherConcat(data, cur, rest);
    var g, h := Gather(data, cur + rest), Gather(data, cur);
    assert g[..|before| + written] == h[..|before| + written];
    assert g[..|before|] == g[..|before| + written][..|before|];
  }

  /** Either way the chain slot `i` ends up with starts with `cur`. */
  lemma FinalPrefix(was: State, st: State, cs: nat, i: nat, cur: seq<nat>, grown: bool) returns (rest: seq<nat>)
    requires Core(was, st, cs, i, cur, grown)
    ensures FinalChain(was, i, cur, grown) == cur + rest
  {
    rest := FinalChain(was, i, cur, grown)[|cur|..];
  }

  lemma AppendFits(was: State, st: State, cs: nat, i: nat, content: seq<byte>, cur: seq<nat>, grown: bool,
                   entry: RawEntry)
    requires Good(was, cs) && Appending(was, st, cs, i, content, |content|, cur, grown)
    requires FileSize(was.dir[i]) + |content| < 0x1_0000_0000 && (cur != [] ==> cur[0] < 0x1_0000_0000)
    requires entry == Restamp(was.dir[i], if cur == [] then 0 else cur[0], FileSize(was.dir[i]) + |content|)
    ensures SlotOk(st.fat, st.data, entry, FinalChain(was, i, cur, grown))
    ensures Content(st.data, entry, FinalChain(was, i, cur, grown))
            == Content(was.data, was.dir[i], was.chains[i]) + content
  {
    hide Good, Tail, Changed, Used, Linked, Gather, Restamp, Live, FreeSet, Distinct;
    LiveContent(was, cs, i);
    var rest := FinalPrefix(was, st, cs, i, cur, grown);
    TailPrefix(st.data, cur, rest, Content(was.data, was.dir[i], was.chains[i]), content, |content|);
    TailFits(st.data, cur, Content(was.data, was.dir[i], was.chains[i]), content);
    assert content[..|content|] == content;
  }

  /** An append of nothing to a file without clusters is the only one that ends without any. */
  lemma TailFits(data: seq<seq<byte>>, cur: seq<nat>, before: seq<byte>, content: seq<byte>)
    requires Tail(data, cur, before, content, |content|)
    ensures cur == [] ==> before == [] && content == []
  {
  }

  lemma AppendClear(was: State, st: State, cs: nat, i: nat, content: seq<byte>, written: nat, cur: seq<nat>,
                    grown: bool)
    requires Good(was, cs) && Appending(was, st, cs, i, content, written, cur, grown)
    ensures Kept(was, st, cs, i) && Clear(was, i, FinalChain(was, i, cur, grown)) && Clear(was, i, cur)
  {
    hide Good, Tail, Linked, Changed;
    ChangedKept(was, st, cs, i, cur);
    OwnClear(was, cs, i);
  }

  /** The clusters an append leaves out of every chain: spare ones behind the last used one, once
      that has been linked to a fresh cluster. */
  lemma AppendLost(was: State, mid: State, st: State, cs: nat, i: nat, content: seq<byte>, cur: seq<nat>, grown: bool,
                   c: nat)
    requires Good(was, cs) && Appending(was, mid, cs, i, content, |content|, cur, grown)
    requires st.fat == mid.fat && st.root == was.root && st.chains == was.chains[i := FinalChain(was, i, cur, grown)]
    ensures Lost(st, c) <==> Lost(was, c) || (grown && c in was.chains[i] && c !in cur)
  {
    AppendClear(was, mid, cs, i, content, |content|, cur, grown);
    hide Tail, Linked, Good, Clear, Kept;
    LostStep(was, st, cs, i, FinalChain(was, i, cur, grown), c);
    if c in was.chains[i] {
      assert Owned(was, c);
      OwnedAllocated(was, cs, c);
    }
  }

  lemma AppendLostAll(was: State, mid: State, st: State, cs: nat, i: nat, content: seq<byte>, cur: seq<nat>,
                      grown: bool, extra: seq<nat>)
    requires Good(was, cs) && Appending(was, mid, cs, i, content, |content|, cur, grown)
    requires st.fat == mid.fat && st.root == was.root && st.chains == was.chains[i := FinalChain(was, i, cur, grown)]
    requires forall c :: c in extra <==> grown && c in was.chains[i] && c !in cur
    ensures LostPlus(was, st, extra)
  {
    hide Good, Appending, Lost;
    forall c: nat ensures Lost(st, c) <==> Lost(was, c) || c in extra {
      AppendLost(was, mid, st, cs, i, content, cur, grown, c);
    }
  }

  lemma AppendDone(was: State, mid: State, st: State, cs: nat, i: nat, k: nat, s: nat, idx: nat, content: seq<byte>,
                   cur: seq<nat>, grown: bool, entry: RawEntry)
    requires Good(was, cs) && Appending(was, mid, cs, i, content, |content|, cur, grown)
    requires k < |was.root| && SECTOR * s + SECTOR <= cs && Place(cs, i, k, s, idx)
    requires was.root[k] < |mid.data| && |mid.data[was.root[k]]| == cs
    requires FileSize(was.dir[i]) + |content| < 0x1_0000_0000 && (cur != [] ==> cur[0] < 0x1_0000_0000)
    requires entry == Restamp(was.dir[i], if cur == [] then 0 else cur[0], FileSize(was.dir[i]) + |content|)
    requires st == mid.(
               data := mid.data[was.root[k] := Splice(mid.data[was.root[k]], SECTOR * s + ENTRY_SIZE * idx, entry)],
               dir := was.dir[i := entry], chains := was.chains[i := FinalChain(was, i, cur, grown)],
               files := FilesAfter(was, mid, i, entry, FinalChain(was, i, cur, grown)))
    ensures Good(st, cs)
    ensures NameOf(was.dir[i]) in was.files
    ensures st.files == was.files[NameOf(was.dir[i]) := was.files[NameOf(was.dir[i])] + content]
  {
    hide Good, Tail, Core, Splice, Place, SlotOk, EntryFits, Clear, Kept, Content, Gather, Restamp, Live;
    AppendFits(was, mid, cs, i, content, cur, grown, entry);
    AppendClear(was, mid, cs, i, content, |content|, cur, grown);
    assert Live(was.dir[i]) && i < |was.chains| by { CoreLive(was, mid, cs, i, cur, grown); }
    LiveContent(was, cs, i);
    RestampFits(was, cs, i, if cur == [] then 0 else cur[0], FileSize(was.dir[i]) + |content|);
    FilesAfterSame(was, mid, i, entry, FinalChain(was, i, cur, grown));
    Commit(was, mid, st, cs, i, k, s, idx, entry, FinalChain(was, i, cur, grown));
  }

  lemma CoreLive(was: State, st: State, cs: nat, i: nat, cur: seq<nat>, grown: bool)
    requires Core(was, st, cs, i, cur, grown)
    ensures i < |was.dir| == |was.chains| && Live(was.dir[i]) && st == was.(fat := st.fat, data := st.data)
    ensures |st.fat| == |was.fat| == |st.data| && Shape(st.fat, st.data, cs) && Distinct(cur)
    ensures forall j :: 0 <= j < |cur| ==> 2 <= cur[j] < |st.fat|
  {
  }

  lemma AppendLive(was: State, st: State, cs: nat, i: nat, content: seq<byte>, written: nat, cur: seq<nat>, grown: bool)
    requires Appending(was, st, cs, i, content, written, cur, grown)
    ensures i < |was.dir| == |was.chains| && Live(was.dir[i]) && st == was.(fat := st.fat, data := st.data)
    ensures |st.fat| == |was.fat| == |st.data| && Distinct(cur)
    ensures forall j :: 0 <= j < |cur| ==> 2 <= cur[j] < |st.fat|
  {
    CoreLive(was, st, cs, i, cur, grown);
  }

  /** The chain left to slot `i` when the disk runs full: a file that had no cluster keeps none. */
  ghost function FailChain(was: State, i: nat, cur: seq<nat>, grown: bool): seq<nat>
    requires i < |was.dir| == |was.chains|
  {
    if grown && FirstCluster(was.dir[i]) == 0 then [] else FinalChain(was, i, cur, grown)
  }

  /** A failed append changes no file. */
  lemma AppendFailed(was: State, st: State, cs: nat, i: nat, content: seq<byte>, written: nat, cur: seq<nat>,
                     grown: bool)
    requires Good(was, cs) && Appending(was, st, cs, i, content, written, cur, grown)
    ensures Good(st.(chains := was.chains[i := FailChain(was, i, cur, grown)]), cs)
    ensures st.files == was.files && st.root == was.root
  {
    hide Good, Core, Tail, SlotOk, Clear, Kept, Content, Gather, Live, Shape, Distinct;
    CoreLive(was, st, cs, i, cur, grown);
    var ch := FailChain(was, i, cur, grown);
    FailFits(was, st, cs, i, content, written, cur, grown);
    AppendClear(was, st, cs, i, content, written, cur, grown);
    ClearEmpty(was, i);
    LiveContent(was, cs, i);
    CommitInPlace(was, st, cs, i, ch, was.files);
  }

  lemma GatherNil(data: seq<seq<byte>>)
    ensures Gather(data, []) == []
  {
  }

  lemma FailFits(was: State, st: State, cs: nat, i: nat, content: seq<byte>, written: nat, cur: seq<nat>, grown: bool)
    requires Good(was, cs) && Appending(was, st, cs, i, content, written, cur, grown)
    ensures SlotOk(st.fat, st.data, was.dir[i], FailChain(was, i, cur, grown))
    ensures Content(st.data, was.dir[i], FailChain(was, i, cur, grown)) == Content(was.data, was.dir[i], was.chains[i])
  {
    hide Good, Tail, Changed, Used, Linked, Gather, Live, FreeSet, Distinct;
    LiveContent(was, cs, i);
    var rest := FinalPrefix(was, st, cs, i, cur, grown);
    TailPrefix(st.data, cur, rest, Content(was.data, was.dir[i], was.chains[i]), content, written);
    if grown && FirstCluster(was.dir[i]) == 0 {
      GatherNil(was.data);
      GatherNil(st.data);
    }
  }

  // ----- how far the free clusters reach -----

  /** Before the first claim `cur` is just the used part of the chain; a claim is only made when
      the content does not fit behind it. */
  ghost predicate Reach(was: State, cs: nat, i: nat, content: seq<byte>, cur: seq<nat>, grown: bool)
    requires cs > 0 && i < |was.dir|
  {
    var m := Used(FirstCluster(was.dir[i]), FileSize(was.dir[i]), cs);
    && m <= |cur|
    && (!grown ==> |cur| == m)
    && (grown ==> FileSize(was.dir[i]) + |content| > Times(m, cs))
  }

  lemma ReachStart(was: State, cs: nat, i: nat, content: seq<byte>, cur: seq<nat>)
    requires cs > 0 && i < |was.dir| && i < |was.chains| && cur <= was.chains[i]
    requires |cur| == Used(FirstCluster(was.dir[i]), FileSize(was.dir[i]), cs)
    ensures Reach(was, cs, i, content, cur, false) && KeepsUsed(was, i, |cur|, cur)
  {
    assert cur == cur[..|cur|] == was.chains[i][..|cur|];
  }

  lemma ReachStep(was: State, st: State, cs: nat, i: nat, content: seq<byte>, written: nat, cur: seq<nat>,
                  grown: bool, cl: nat)
    requires Appending(was, st, cs, i, content, written, cur, grown) && written < |content|
    requires FileSize(was.dir[i]) <= |Gather(was.data, was.chains[i])|
    requires Reach(was, cs, i, content, cur, grown)
    ensures Reach(was, cs, i, content, cur + [cl], true)
    ensures FileSize(was.dir[i]) + |content| > Times(|cur|, cs)
  {
    CoreLive(was, st, cs, i, cur, grown);
    CurSized(st, cs, cur);
    GatherLength(st.data, cur, cs);
    TimesMono(Used(FirstCluster(was.dir[i]), FileSize(was.dir[i]), cs), |cur|, cs);
  }

  lemma CurSized(st: State, cs: nat, cur: seq<nat>)
    requires Shape(st.fat, st.data, cs) && forall j :: 0 <= j < |cur| ==> 2 <= cur[j] < |st.fat|
    ensures Sized(st.data, cur, cs)
  {
  }

  lemma TimesMono(a: nat, b: nat, k: nat)
    requires a <= b
    ensures Times(a, k) <= Times(b, k)
  {
    if a < b {
      TimesStep(a, b, k);
    }
  }

  /** The disk is full: the content would not have fitted into all free clusters. */
  lemma ReachFailed(was: State, st: State, cs: nat, i: nat, content: seq<byte>, written: nat, cur: seq<nat>,
                    grown: bool)
    requires Appending(was, st, cs, i, content, written, cur, grown) && written < |content|
    requires FileSize(was.dir[i]) <= |Gather(was.data, was.chains[i])|
    requires FreeSet(st.fat) == {}
    ensures FileSize(was.dir[i]) + |content|
              > Times(Used(FirstCluster(was.dir[i]), FileSize(was.dir[i]), cs) + |FreeSet(was.fat)|, cs)
  {
    CoreLive(was, st, cs, i, cur, grown);
    CurSized(st, cs, cur);
    GatherLength(st.data, cur, cs);
  }

  lemma ReachDone(was: State, st: State, cs: nat, i: nat, content: seq<byte>, cur: seq<nat>, grown: bool)
    requires Appending(was, st, cs, i, content, |content|, cur, grown)
    requires FileSize(was.dir[i]) <= |Gather(was.data, was.chains[i])|
    requires Reach(was, cs, i, content, cur, grown)
    ensures var m := Used(FirstCluster(was.dir[i]), FileSize(was.dir[i]), cs);
            && FileSize(was.dir[i]) + |content| <= Times(m + |FreeSet(was.fat)|, cs)
            && (grown <==> FileSize(was.dir[i]) + |content| > Times(m, cs))
            && (!grown ==> |cur| == m)
  {
    CoreLive(was, st, cs, i, cur, grown);
    CurSized(st, cs, cur);
    GatherLength(st.data, cur, cs);
    TimesMono(|cur|, Used(FirstCluster(was.dir[i]), FileSize(was.dir[i]), cs) + |FreeSet(was.fat)|, cs);
  }

  // ----- the part of the chain in use, and what is left of it -----

  lemma UsedValue(first: nat, size: nat, cs: nat)
    requires cs > 0
    ensures first != 0 ==> Used(first, size, cs) == if size == 0 then 1 else (size + cs - 1) / cs
    ensures first == 0 ==> Used(first, size, cs) == 0
    ensures size == 0 ==> (size + cs - 1) / cs == 0
  {
  }

  /** Growing leaves exactly the clusters behind the used ones out of the new chain. */
  ghost predicate KeepsUsed(was: State, i: nat, m: nat, cur: seq<nat>)
    requires i < |was.chains|
  {
    && m <= |was.chains[i]| && m <= |cur| && cur[..m] == was.chains[i][..m]
    && (forall j :: m <= j < |cur| ==> cur[j] !in was.chains[i])
  }

  lemma KeepsUsedStep(was: State, st: State, cs: nat, i: nat, content: seq<byte>, written: nat, cur: seq<nat>,
                      grown: bool, m: nat, cl: nat)
    requires Good(was, cs) && Appending(was, st, cs, i, content, written, cur, grown)
    requires i < |was.chains| && KeepsUsed(was, i, m, cur) && cl < |st.fat| && st.fat[cl] == CLUSTER_FREE
    requires grown || |cur| == m
    ensures KeepsUsed(was, i, m, cur + [cl])
  {
    hide Good;
    AllAllocated(was, cs);
    CurAllocated(was, st, cs, i, content, written, cur, grown);
    assert Allocated(was.fat, was.chains[i]);
    assert (cur + [cl])[..m] == cur[..m];
  }

  lemma Orphans(was: State, cs: nat, i: nat, m: nat, cur: seq<nat>)
    requires Good(was, cs) && i < |was.chains| && Live(was.dir[i]) && KeepsUsed(was, i, m, cur)
    ensures forall c :: c in was.chains[i][m..] <==> c in was.chains[i] && c !in cur
  {
    var ch := was.chains[i];
    hide Good;
    LiveContent(was, cs, i);
    GoodShape(was, cs);
    if ch != [] {
      ChainAcyclic(was.fat, ch);
    }
    OrphansOf(ch, m, cur);
  }

  lemma OrphansOf(ch: seq<nat>, m: nat, cur: seq<nat>)
    requires Distinct(ch) && m <= |ch| && m <= |cur| && cur[..m] == ch[..m]
    requires forall j :: m <= j < |cur| ==> cur[j] !in ch
    ensures forall c :: c in ch[m..] <==> c in ch && c !in cur
  {
    forall j | 0 <= j < m ensures cur[j] == ch[j] {
      assert cur[..m][j] == ch[..m][j];
    }
    forall c | c in ch[m..] ensures c in ch && c !in cur {
      var j :| m <= j < |ch| && ch[j] == c;
      forall k | 0 <= k < |cur| ensures cur[k] != c {
        if k < m {
          assert ch[k] != ch[j];
        }
      }
    }
    forall c | c in ch && c !in cur ensures c in ch[m..] {
      var j :| 0 <= j < |ch| && ch[j] == c;
      if m <= j {
        assert ch[m..][j - m] == c;
      }
    }
  }

  /** What appending `len` bytes to the existing file `name`, which sits in slot `i`, comes to: it succeeds
      exactly when the used clusters and all free ones together hold old and new bytes, and the
      spare clusters behind the last used one are orphaned exactly when a fresh one is needed. */
  ghost predicate AppendOutcome(was: State, cs: nat, name: RawName, len: nat, ok: bool, i: nat, orphaned: seq<nat>)
    requires cs > 0
  {
    && Names(was.dir, i, name) && i < |was.chains|
    && var m := Used(FirstCluster(was.dir[i]), FileSize(was.dir[i]), cs);
       var total := FileSize(was.dir[i]) + len;
       && m <= |was.chains[i]|
       && (ok <==> total <= Times(m + |FreeSet(was.fat)|, cs))
       && (ok ==> orphaned == if total > Times(m, cs) then was.chains[i][m..] else [])
  }

  lemma OutcomeFailed(was: State, cs: nat, name: RawName, len: nat, i: nat)
    requires cs > 0 && Good(was, cs) && i < |was.chains| && Names(was.dir, i, name)
    requires FileSize(was.dir[i]) + len
            > Times(Used(FirstCluster(was.dir[i]), FileSize(was.dir[i]), cs) + |FreeSet(was.fat)|, cs)
    ensures AppendOutcome(was, cs, name, len, false, i, [])
  {
    UsedFacts(was, cs, i);
  }

  ghost function Orphaned(was: State, i: nat, m: nat, grown: bool): seq<nat>
    requires i < |was.chains| && m <= |was.chains[i]|
  {
    if grown then was.chains[i][m..] else []
  }

  lemma OutcomeDone(was: State, mid: State, cs: nat, name: RawName, i: nat, content: seq<byte>, cur: seq<nat>,
                    grown: bool, m: nat)
    requires cs > 0 && Good(was, cs) && i < |was.chains| && Names(was.dir, i, name)
    requires Appending(was, mid, cs, i, content, |content|, cur, grown) && Reach(was, cs, i, content, cur, grown)
    requires m == Used(FirstCluster(was.dir[i]), FileSize(was.dir[i]), cs) && m <= |was.chains[i]|
    ensures AppendOutcome(was, cs, name, |content|, true, i, Orphaned(was, i, m, grown))
  {
    hide Good, Appending, Reach, Used, Times;
    LiveContent(was, cs, i);
    UsedFacts(was, cs, i);
    ReachDone(was, mid, cs, i, content, cur, grown);
  }

  lemma LostDone(was: State, mid: State, st: State, cs: nat, i: nat, content: seq<byte>, cur: seq<nat>, grown: bool,
                 m: nat)
    requires Good(was, cs) && Appending(was, mid, cs, i, content, |content|, cur, grown)
    requires i < |was.chains| && KeepsUsed(was, i, m, cur) && m <= |was.chains[i]|
    requires st.fat == mid.fat && st.root == was.root && st.chains == was.chains[i := FinalChain(was, i, cur, grown)]
    ensures LostPlus(was, st, Orphaned(was, i, m, grown))
  {
    AppendLive(was, mid, cs, i, content, |content|, cur, grown);
    hide Good, Appending, LostPlus, KeepsUsed;
    Orphans(was, cs, i, m, cur);
    AppendLostAll(was, mid, st, cs, i, content, cur, grown, Orphaned(was, i, m, grown));
  }
}
