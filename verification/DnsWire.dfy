/**
 Section 4 of RFC 1035 byte by byte: where the labels of a name stand, what a query and a reply consist of, and
 which address a reply gives.
 */
module DnsWire {
  import opened Options
  import opened Bytes
  import opened Dns

  // ----- dotted names -----

  /** The labels with a dot between any two of them. */
  function Dotted(ls: seq<seq<byte>>): seq<byte> {
    if ls == [] then [] else if |ls| == 1 then ls[0] else Dotted(ls[..|ls| - 1]) + [46] + ls[|ls| - 1]
  }

  predicate NoDots(ls: seq<seq<byte>>) {
    forall k :: 0 <= k < |ls| ==> 46 !in ls[k]
  }

  lemma {:induction false} DottedFront(l: seq<byte>, ls: seq<seq<byte>>)
    ensures Dotted([l] + ls) == if ls == [] then l else l + [46] + Dotted(ls)
  {
    var all := [l] + ls;
    if |ls| > 1 {
      DottedFront(l, ls[..|ls| - 1]);
      assert all[..|all| - 1] == [l] + ls[..|ls| - 1];
    } else if |ls| == 1 {
      assert all[..1] == [l] && Dotted([l]) == l;
    }
  }

  /** A name is its labels and dots between them, with or without a dot behind the last. */
  lemma {:induction false} LabelsJoin(name: seq<byte>)
    ensures NoDots(Labels(name))
    ensures name == Dotted(Labels(name)) || (name != [] && name == Dotted(Labels(name)) + [46])
    decreases |name|
  {
    if name != [] {
      var n := LabelLen(name);
      LabelsStep(name);
      if n < |name| {
        LabelsJoin(name[n + 1..]);
        JoinStep(name, n, Labels(name[n + 1..]));
      } else {
        JoinLast(name);
      }
    }
    hide Labels, LabelLen, Dotted, NoDots;
  }

  lemma JoinLast(name: seq<byte>)
    requires name != [] && LabelLen(name) == |name|
    ensures NoDots(Labels(name)) && name == Dotted(Labels(name))
  {
    LabelsStep(name);
    assert name[..|name|] == name;
    assert Labels(name) == [name];
  }

  lemma JoinStep(name: seq<byte>, n: nat, more: seq<seq<byte>>)
    requires n == LabelLen(name) < |name| && more == Labels(name[n + 1..]) && NoDots(more)
    requires name[n + 1..] == Dotted(more) || (n + 1 < |name| && name[n + 1..] == Dotted(more) + [46])
    ensures NoDots(Labels(name)) && (name == Dotted(Labels(name)) || name == Dotted(Labels(name)) + [46])
  {
    hide Labels, Dotted, LabelLen;
    var l := name[..n];
    LabelsStep(name);
    assert Labels(name) == [l] + more;
    assert name == l + [46] + name[n + 1..];
    assert 46 !in l;
    DottedFront(l, more);
    NoLabelsDotted();
    var rest := name[n + 1..];
    if more == [] {
      if rest != [] { LabelsStep(rest); }
      assert l + [46] + rest == l + [46];
    } else if rest == Dotted(more) + [46] {
      assert l + [46] + (Dotted(more) + [46]) == l + [46] + Dotted(more) + [46];
    }
  }

  lemma NoLabelsDotted()
    ensures Dotted([]) == [] && Labels([]) == []
  {
  }

  lemma {:induction false} LabelFound(l: seq<byte>, rest: seq<byte>)
    requires 46 !in l && (rest == [] || rest[0] == 46)
    ensures LabelLen(l + rest) == |l|
  {
    if l != [] {
      assert (l + rest)[1..] == l[1..] + rest;
      LabelFound(l[1..], rest);
    } else {
      assert l + rest == rest;
    }
  }

  /** And any labels without dots in them are found again, with a dot behind them or, the last of them not
      being empty, without. */
  lemma {:induction false} LabelsSplit(ls: seq<seq<byte>>)
    requires NoDots(ls) && ls != []
    ensures ls[|ls| - 1] != [] ==> Labels(Dotted(ls)) == ls
    ensures Labels(Dotted(ls) + [46]) == ls
    decreases |ls|
  {
    hide *;
    var l, more := ls[0], ls[1..];
    assert ls == [l] + more;
    DottedFront(l, more);
    FirstPlain(ls);
    if more == [] {
      SplitLast(l);
      assert ls == [l];
    } else {
      LabelsSplit(more);
      if ls[|ls| - 1] != [] {
        SplitMore(l, Dotted(more));
      }
      SplitMore(l, Dotted(more) + [46]);
      assert l + [46] + Dotted(more) + [46] == l + [46] + (Dotted(more) + [46]);
    }
  }

  lemma FirstPlain(ls: seq<seq<byte>>)
    requires NoDots(ls) && ls != []
    ensures 46 !in ls[0] && NoDots(ls[1..])
  {
  }

  lemma SplitLast(l: seq<byte>)
    requires 46 !in l
    ensures l != [] ==> Labels(l) == [l]
    ensures Labels(l + [46]) == [l]
  {
    hide Labels;
    NoLabelsDotted();
    SplitStep(l, [46]);
    assert [46][1..] == [] && [l] + [] == [l] && l + [] == l;
    if l != [] { SplitStep(l, []); }
  }

  lemma SplitMore(l: seq<byte>, rest: seq<byte>)
    requires 46 !in l
    ensures Labels(l + [46] + rest) == [l] + Labels(rest)
  {
    hide Labels;
    var r := [46] + rest;
    assert l + [46] + rest == l + r && r[1..] == rest;
    SplitStep(l, r);
  }

  lemma SplitStep(l: seq<byte>, rest: seq<byte>)
    requires 46 !in l && (rest == [] || rest[0] == 46) && l + rest != []
    ensures Labels(l + rest) == [l] + if rest == [] then [] else Labels(rest[1..])
  {
    LabelFound(l, rest);
    LabelsStep(l + rest);
    hide Labels, LabelLen;
    var ls := Labels(l + rest);
    assert ls == [ls[0]] + ls[1..];
    if rest != [] {
      assert (l + rest)[|l| + 1..] == rest[1..];
    } else {
      assert (l + rest)[..|l|] == l;
    }
  }

  // ----- names in messages -----

  /** Where label `k` begins: behind the labels before it, each with its length in front. */
  function Offset(ls: seq<seq<byte>>, k: nat): nat
    requires k <= |ls|
  {
    if k == 0 then 0 else Offset(ls, k - 1) + 1 + |ls[k - 1]|
  }

  lemma {:induction false} OffsetFront(ls: seq<seq<byte>>, k: nat)
    requires 0 < k <= |ls|
    ensures Offset(ls, k) == 1 + |ls[0]| + Offset(ls[1..], k - 1)
  {
    if k > 1 {
      OffsetFront(ls, k - 1);
    }
  }

  /** How a name ends: with a zero, or with the two bytes of a pointer. */
  function NameEnd(pointer: Option<nat>): seq<byte>
    requires pointer.Some? ==> pointer.value < 0x4000
  {
    if pointer.None? then [0] else [192 + pointer.value / 256, pointer.value % 256]
  }

  /** Each label stands behind a byte with its length, all of them in front of the end. */
  lemma {:induction false} NameBytesAre(n: Name)
    requires NameOk(n)
    ensures var b, end := NameBytes(n), Offset(n.labels, |n.labels|);
            && |b| == end + |NameEnd(n.pointer)| && b[end..] == NameEnd(n.pointer)
            && forall k :: 0 <= k < |n.labels| ==> LabelAt(b, Offset(n.labels, k), n.labels[k])
    decreases |n.labels|
  {
    hide NameBytes, LabelsOk, LabelAt, Offset, NameEnd;
    var b, ls := NameBytes(n), n.labels;
    if ls == [] {
      NameEnds(n);
    } else {
      var rest := Name(ls[1..], n.pointer);
      NameStep(n);
      NameBytesAre(rest);
      OffsetFront(ls, |ls|);
      EndBehind(b, 1 + |ls[0]|, NameBytes(rest), Offset(rest.labels, |rest.labels|));
      forall k | 0 <= k < |ls| ensures LabelAt(b, Offset(ls, k), ls[k]) {
        if k == 0 {
          LabelFirst(ls, b, NameBytes(rest));
        } else {
          OffsetFront(ls, k);
          assert LabelAt(NameBytes(rest), Offset(ls[1..], k - 1), ls[1..][k - 1]);
          LabelBehind(b, 1 + |ls[0]|, Offset(ls[1..], k - 1), ls[k]);
        }
      }
    }
  }

  lemma EndBehind(b: seq<byte>, d: nat, c: seq<byte>, end: nat)
    requires d <= |b| && b[d..] == c && end <= |c|
    ensures b[d + end..] == c[end..]
  {
  }

  lemma LabelFirst(ls: seq<seq<byte>>, b: seq<byte>, rest: seq<byte>)
    requires ls != [] && 1 <= |ls[0]| <= 63 && b == [|ls[0]| as byte] + ls[0] + rest
    ensures LabelAt(b, Offset(ls, 0), ls[0])
  {
    assert b[1..1 + |ls[0]|] == ls[0];
  }

  predicate LabelAt(b: seq<byte>, o: nat, l: seq<byte>) {
    o + 1 + |l| <= |b| && b[o] == |l| && b[o + 1..o + 1 + |l|] == l
  }

  lemma LabelBehind(b: seq<byte>, d: nat, o: nat, l: seq<byte>)
    requires d <= |b| && LabelAt(b[d..], o, l)
    ensures LabelAt(b, d + o, l)
  {
    assert b[d + o + 1..d + o + 1 + |l|] == b[d..][o + 1..o + 1 + |l|];
  }

  lemma NameEnds(n: Name)
    requires NameOk(n) && n.labels == []
    ensures Offset(n.labels, 0) == 0 && NameBytes(n) == NameEnd(n.pointer)
  {
  }

  // ----- messages -----

  /** A number of 16 bits, its high byte first. */
  function Pair(v: nat): seq<byte>
    requires v < 0x1_0000
  {
    [v / 256, v % 256]
  }

  /** A record is its name, type, class and time to live, the length of the data, and the data. */
  lemma RecordBytesAre(r: Record)
    requires RecordOk(r)
    ensures RecordBytes(r) == NameBytes(r.name) + Pair(r.kind) + r.fields + Pair(|r.rdata|) + r.rdata
  {
    hide NameBytes;
  }

  lemma QuestionBytesAre(q: Question)
    requires QuestionOk(q)
    ensures QuestionBytes(q) == NameBytes(q.name) + q.rest
  {
  }

  /** Questions stand one behind the other. */
  lemma {:induction false} QuestionsFollow(qs: seq<Question>, q: Question)
    requires QuestionsOk(qs) && QuestionOk(q)
    ensures QuestionsOk(qs + [q]) && QuestionsBytes(qs + [q]) == QuestionsBytes(qs) + QuestionBytes(q)
    decreases |qs|
  {
    hide QuestionBytes, QuestionOk;
    if qs == [] {
      assert qs + [q] == [q] && [q][1..] == [];
      assert QuestionBytes(q) + [] == [] + QuestionBytes(q);
    } else {
      QuestionsFollow(qs[1..], q);
      assert (qs + [q])[1..] == qs[1..] + [q];
    }
  }

  /** And so do records. */
  lemma {:induction false} RecordsFollow(rs: seq<Record>, r: Record)
    requires RecordsOk(rs) && RecordOk(r)
    ensures RecordsOk(rs + [r]) && RecordsBytes(rs + [r]) == RecordsBytes(rs) + RecordBytes(r)
    decreases |rs|
  {
    hide RecordBytes, RecordOk;
    if rs == [] {
      assert rs + [r] == [r] && [r][1..] == [];
      assert RecordBytes(r) + [] == [] + RecordBytes(r);
    } else {
      RecordsFollow(rs[1..], r);
      assert (rs + [r])[1..] == rs[1..] + [r];
    }
  }

  /** The header's six numbers: the identifier, the flags and the four counts. */
  lemma MessageBytesAre(
      id: nat, flags: nat, qs: seq<Question>, rs: seq<Record>, others: seq<byte>, tail: seq<byte>)
    requires id < 0x1_0000 && flags < 0x1_0000 && |qs| < 0x1_0000 && |rs| < 0x1_0000 && |others| == 4
    requires QuestionsOk(qs) && RecordsOk(rs)
    ensures MessageBytes(id, flags, qs, rs, others, tail)
         == Pair(id) + Pair(flags) + Pair(|qs|) + Pair(|rs|) + others + QuestionsBytes(qs) + (RecordsBytes(rs) + tail)
  {
    hide QuestionsBytes, RecordsBytes;
  }

  /** What send_dns sends for a name. */
  lemma QueryBytesAre(name: seq<byte>)
    requires LabelsOk(Labels(name))
    ensures QuestionsOk([NameQuestion(name)])
    ensures MessageBytes(ID, RECURSION_DESIRED, [NameQuestion(name)], [], [0, 0, 0, 0], [])
         == [18, 52, 1, 0, 0, 1, 0, 0, 0, 0, 0, 0] + Wire(Labels(name)) + [0, 1, 0, 1]
  {
    var qs := [NameQuestion(name)];
    hide *;
    WireIsName(Labels(name));
    OneQuestion(name);
    QueryHead();
    QueryIs(qs, Wire(Labels(name)));
  }

  lemma QueryHead()
    ensures ID == 0x1234 && RECURSION_DESIRED == 0x100
    ensures HeaderBytes(0x1234, 0x100, 1, 0, [0, 0, 0, 0]) == [18, 52, 1, 0, 0, 1, 0, 0, 0, 0, 0, 0]
  {
  }

  lemma QueryIs(qs: seq<Question>, w: seq<byte>)
    requires |qs| == 1 && QuestionsOk(qs) && QuestionsBytes(qs) == w + [0, 1, 0, 1]
    ensures MessageBytes(0x1234, 0x100, qs, [], [0, 0, 0, 0], [])
         == HeaderBytes(0x1234, 0x100, 1, 0, [0, 0, 0, 0]) + w + [0, 1, 0, 1]
  {
    hide HeaderBytes, QuestionsBytes;
    assert RecordsBytes([]) + [] == [];
    var h := HeaderBytes(0x1234, 0x100, 1, 0, [0, 0, 0, 0]);
    assert h + (w + [0, 1, 0, 1]) + [] == h + w + [0, 1, 0, 1];
  }

  /** Four bytes of type 1, the first of them the highest of the address. */
  predicate Gives(r: Record, address: nat) {
    r.kind == 1 && |r.rdata| == 4
    && address == r.rdata[0] as int * 16777216 + r.rdata[1] as int * 65536 + r.rdata[2] as int * 256
                  + r.rdata[3] as int
  }

  /** Record `k` gives the address, none in front of it gives one. */
  predicate FirstAt(rs: seq<Record>, k: nat, address: nat) {
    k < |rs| && Gives(rs[k], address) && forall i :: 0 <= i < k ==> rs[i].kind != 1 || |rs[i].rdata| != 4
  }

  /** A walk gives the address of the first record that has one. */
  lemma {:induction false} FirstAddressIs(rs: seq<Record>, address: nat)
    ensures FirstAddress(rs) == Some(address) <==> exists k: nat :: FirstAt(rs, k, address)
    decreases |rs|
  {
    if rs != [] {
      hide FirstAddress;
      FirstStep(rs);
      if rs[0].kind == 1 && |rs[0].rdata| == 4 {
        AddressOf(rs[0], address);
        assert Gives(rs[0], address) ==> FirstAt(rs, 0, address);
      } else {
        FirstAddressIs(rs[1..], address);
        if k: nat :| FirstAt(rs[1..], k, address) {
          assert FirstAt(rs, k + 1, address);
        }
        if k: nat :| FirstAt(rs, k, address) {
          FirstBehind(rs, k, address);
        }
      }
    }
  }

  lemma FirstBehind(rs: seq<Record>, k: nat, address: nat)
    requires rs != [] && FirstAt(rs, k, address) && !(rs[0].kind == 1 && |rs[0].rdata| == 4)
    ensures k > 0 && FirstAt(rs[1..], k - 1, address)
  {
    forall i | 0 <= i < k - 1 ensures rs[1..][i].kind != 1 || |rs[1..][i].rdata| != 4 {
      assert rs[1..][i] == rs[i + 1];
    }
  }

  lemma AddressOf(r: Record, address: nat)
    requires r.kind == 1 && |r.rdata| == 4
    ensures Gives(r, address) <==> Read32(r.rdata, 0) == address
  {
  }
}
