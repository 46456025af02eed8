/** DNS messages: encoding a name, skipping one, and walking a reply to its first address record. */
module Dns {
  import opened Options
  import opened Bytes
  import opened Places

  const DOT: byte := 46
  const HEADER: nat := 12
  const TYPE_A: nat := 1

  function Wrap16(v: nat): nat {
    v % 0x1_0000
  }

  // ----- names -----

  /** How far the first label goes. */
  function LabelLen(name: seq<byte>): (n: nat)
    ensures n <= |name| && (forall i :: 0 <= i < n ==> name[i] != DOT) && (n < |name| ==> name[n] == DOT)
  {
    if name == [] || name[0] == DOT then 0 else 1 + LabelLen(name[1..])
  }

  /** The labels of a dotted name; a dot at the end adds none. */
  function Labels(name: seq<byte>): seq<seq<byte>>
    decreases |name|
  {
    if name == [] then []
    else
      var n := LabelLen(name);
      [name[..n]] + if n < |name| then Labels(name[n + 1..]) else []
  }

  predicate LabelsOk(ls: seq<seq<byte>>) {
    forall l :: l in ls ==> 1 <= |l| <= 63
  }

  /** Section 4.1.2 of RFC 1035: each label behind its length, then a zero. */
  function Wire(ls: seq<seq<byte>>): (w: seq<byte>)
    requires LabelsOk(ls)
    ensures |w| > 0
  {
    if ls == [] then [0] else [|ls[0]| as byte] + ls[0] + Wire(ls[1..])
  }

  lemma LabelsStep(name: seq<byte>)
    requires name != []
    ensures var n := LabelLen(name);
            && Labels(name) != [] && Labels(name)[0] == name[..n]
            && Labels(name)[1..] == if n < |name| then Labels(name[n + 1..]) else []
  {
  }

  /** The scan for the end of a label. */
  method ScanLabel(name: seq<byte>, i: nat) returns (len: nat)
    requires i <= |name|
    ensures len == LabelLen(name[i..])
  {
    len := 0;
    while i + len < |name| && name[i + len] != DOT
      invariant i + len <= |name| && LabelLen(name[i..]) == len + LabelLen(name[i + len..])
      decreases |name| - len
    {
      assert name[i + len..][1..] == name[i + len + 1..];
      len := len + 1;
    }
  }

  /** encode_dns_name: the wire form exactly when every label has 1 to 63 bytes. */
  method EncodeName(name: seq<byte>) returns (out: Option<seq<byte>>)
    requires |name| < 0xFFFF
    ensures LabelsOk(Labels(name)) <==> out.Some?
    ensures out.Some? ==> out.value == Wire(Labels(name))
  {
    hide LabelsOk, Wire, Labels, LabelLen;
    var bytes, i := [], 0;
    assert name[0..] == name;
    while i < |name|
      invariant i <= |name|
      invariant LabelsOk(Labels(name)) <==> LabelsOk(Labels(name[i..]))
      invariant LabelsOk(Labels(name)) ==> Wire(Labels(name)) == bytes + Wire(Labels(name[i..]))
      decreases |name| - i
    {
      var len := ScanLabel(name, i);
      EncodeStep(name, i);
      if len == 0 || len > 63 {
        return None;
      }
      bytes := bytes + [len as byte] + name[i..i + len];
      i := i + len;
      if i < |name| {
        i := i + 1;
      }
    }
    NoLabels(name[i..]);
    out := Some(bytes + [0]);
  }

  lemma NoLabels(name: seq<byte>)
    requires name == []
    ensures Labels(name) == [] && LabelsOk(Labels(name)) && Wire(Labels(name)) == [0]
  {
  }

  /** One label off the front. */
  lemma EncodeStep(name: seq<byte>, i: nat)
    requires i < |name|
    ensures var n := LabelLen(name[i..]);
            var next := if i + n < |name| then i + n + 1 else i + n;
            && i + n <= |name|
            && (n == 0 || n > 63 ==> !LabelsOk(Labels(name[i..])))
            && (1 <= n <= 63 ==>
                  && (LabelsOk(Labels(name[i..])) <==> LabelsOk(Labels(name[next..])))
                  && (LabelsOk(Labels(name[i..])) ==>
                        Wire(Labels(name[i..])) == [n as byte] + name[i..i + n] + Wire(Labels(name[next..]))))
  {
    hide Labels, LabelLen, LabelsOk, Wire;
    var rest := name[i..];
    var n := LabelLen(rest);
    LabelsStep(rest);
    var ls := Labels(rest);
    assert ls[0] == name[i..i + n];
    assert i + n < |name| ==> rest[n + 1..] == name[i + n + 1..];
    assert i + n == |name| ==> name[i + n..] == [];
    if n == 0 || n > 63 {
      NotOk(ls);
    } else {
      LabelsOkTail(ls);
      NoLabels([]);
      if LabelsOk(ls) { WireStep(ls); }
    }
  }

  lemma NotOk(ls: seq<seq<byte>>)
    requires ls != [] && !(1 <= |ls[0]| <= 63)
    ensures !LabelsOk(ls)
  {
    assert ls[0] in ls;
  }

  lemma WireStep(ls: seq<seq<byte>>)
    requires ls != [] && LabelsOk(ls)
    ensures 1 <= |ls[0]| <= 63 && LabelsOk(ls[1..]) && Wire(ls) == [|ls[0]| as byte] + ls[0] + Wire(ls[1..])
  {
  }

  lemma LabelsOkTail(ls: seq<seq<byte>>)
    requires ls != [] && 1 <= |ls[0]| <= 63
    ensures LabelsOk(ls) <==> LabelsOk(ls[1..])
  {
    assert ls == [ls[0]] + ls[1..];
  }

  // ----- names in messages -----

  /** A name in a message ends with the root or with a pointer to the rest of it (section 4.1.4). */
  datatype Name = Name(labels: seq<seq<byte>>, pointer: Option<nat>)

  predicate NameOk(n: Name) {
    LabelsOk(n.labels) && (n.pointer.Some? ==> n.pointer.value < 0x4000)
  }

  function NameBytes(n: Name): (b: seq<byte>)
    requires NameOk(n)
    ensures |b| > 0
    decreases |n.labels|
  {
    if n.labels == [] then
      if n.pointer.None? then [0] else [0xC0 + n.pointer.value / 0x100, n.pointer.value % 0x100]
    else [|n.labels[0]| as byte] + n.labels[0] + NameBytes(Name(n.labels[1..], n.pointer))
  }

  /** The wire form encode_dns_name writes is that of a name without pointer. */
  lemma {:induction false} WireIsName(ls: seq<seq<byte>>)
    requires LabelsOk(ls)
    ensures NameBytes(Name(ls, None)) == Wire(ls)
  {
    if ls != [] {
      WireIsName(ls[1..]);
    }
  }

  /** dns_skip_name: where the name at `p` ends. Nothing behind the message is looked at. */
  function Skip(m: seq<byte>, p: nat): (r: Option<nat>)
    ensures r.Some? ==> p < r.value <= |m| + 1
    decreases |m| - p
  {
    if p >= |m| then None
    else if m[p] == 0 then Some(p + 1)
    else if m[p] >= 0xC0 then Some(p + 2)
    else if m[p] >= 0x40 then None
    else if p + 1 + m[p] > |m| then None
    else Skip(m, p + 1 + m[p])
  }

  /** A name, wherever it stands, is skipped to exactly its end. */
  lemma {:induction false} SkipsName(m: seq<byte>, p: nat, n: Name)
    requires NameOk(n) && At(m, p, NameBytes(n))
    ensures Skip(m, p) == Some(p + |NameBytes(n)|)
    decreases |n.labels|
  {
    if n.labels == [] {
      SkipsEnd(m, p, n);
    } else {
      hide *;
      NameStep(n);
      var rest := Name(n.labels[1..], n.pointer);
      var head: seq<byte> := [|n.labels[0]| as byte] + n.labels[0];
      AtConcat(m, p, head, NameBytes(rest));
      AtFits(m, p, head);
      AtIndex(m, p, head, 0);
      SkipLabel(m, p, |n.labels[0]|);
      SkipsName(m, p + |head|, rest);
    }
  }

  lemma NameStep(n: Name)
    requires NameOk(n) && n.labels != []
    ensures 1 <= |n.labels[0]| <= 63 && NameOk(Name(n.labels[1..], n.pointer))
    ensures NameBytes(n) == [|n.labels[0]| as byte] + n.labels[0] + NameBytes(Name(n.labels[1..], n.pointer))
  {
    assert n.labels[0] in n.labels;
  }

  lemma SkipsEnd(m: seq<byte>, p: nat, n: Name)
    requires NameOk(n) && n.labels == [] && At(m, p, NameBytes(n))
    ensures Skip(m, p) == Some(p + |NameBytes(n)|)
  {
    AtIndex(m, p, NameBytes(n), 0);
  }

  lemma SkipLabel(m: seq<byte>, p: nat, len: nat)
    requires 1 <= len <= 63 && p + 1 + len <= |m| && m[p] == len
    ensures Skip(m, p) == Skip(m, p + 1 + len)
  {
  }

  /** Skipping what encode_dns_name wrote stops exactly at its end. */
  lemma SkipsEncoded(name: seq<byte>, m: seq<byte>, p: nat)
    requires LabelsOk(Labels(name)) && At(m, p, Wire(Labels(name)))
    ensures Skip(m, p) == Some(p + |Wire(Labels(name))|)
  {
    WireIsName(Labels(name));
    SkipsName(m, p, Name(Labels(name), None));
  }

  method SkipName(m: seq<byte>, pos: nat) returns (r: Option<nat>)
    requires |m| <= MAX_REPLY && pos < 0x1_0000
    ensures r == Skip(m, pos)
  {
    var p := pos;
    while true
      invariant p < 0x1_0000 && Skip(m, p) == Skip(m, pos)
      decreases 0x1_0000 - p
    {
      if p >= |m| {
        return None;
      }
      var tag := m[p];
      if tag == 0 {
        return Some(Wrap16(p + 1));
      }
      if tag / 0x40 == 3 {
        return Some(Wrap16(p + 2));
      }
      if tag / 0x40 != 0 {
        return None;
      }
      p := Wrap16(p + 1 + tag);
      if p > |m| {
        return None;
      }
    }
  }

  // ----- replies -----

  /** Past `n` questions. */
  function Questions(m: seq<byte>, n: nat, p: nat): Option<nat> {
    if n == 0 then Some(p)
    else
      match Skip(m, p)
      case None => None
      case Some(q) => if q + 4 > |m| then None else Questions(m, n - 1, q + 4)
  }

  /** The walk over `n` records; a length field can wrap the 16-bit position around. */
  function Answers(m: seq<byte>, n: nat, p: nat): Option<nat> {
    if n == 0 then None
    else
      match Skip(m, p)
      case None => None
      case Some(q) =>
        if q + 10 > |m| then None
        else if Read16(m, q) == TYPE_A && Read16(m, q + 8) == 4 then
          if q + 14 > |m| then None else Some(Read32(m, q + 10))
        else
          var next := Wrap16(q + 10 + Read16(m, q + 8));
          if next > |m| then None else Answers(m, n - 1, next)
  }

  function Parse(m: seq<byte>): Option<nat> {
    if |m| < HEADER || m[2] < 0x80 || m[3] % 0x10 != 0 then None
    else
      match Questions(m, Read16(m, 4), HEADER)
      case None => None
      case Some(p) => Answers(m, Read16(m, 6), p)
  }

  /** dns_parse_reply, on a message of the size the reply buffer can hold. */
  method ParseReply(m: seq<byte>) returns (r: Option<nat>)
    requires |m| <= MAX_REPLY
    ensures r == Parse(m)
  {
    hide Questions, Answers;
    if |m| < HEADER {
      return None;
    }
    var flags, qdCount, anCount := Read16(m, 2), Read16(m, 4), Read16(m, 6);
    if flags / 0x8000 == 0 || flags % 0x10 != 0 {
      return None;
    }
    var pos := SkipQuestions(m, qdCount);
    if pos == None {
      return None;
    }
    r := WalkAnswers(m, anCount, pos.value);
  }

  method SkipQuestions(m: seq<byte>, qdCount: nat) returns (r: Option<nat>)
    requires HEADER <= |m| <= MAX_REPLY
    ensures r == Questions(m, qdCount, HEADER) && (r.Some? ==> r.value <= |m|)
  {
    hide Skip;
    var pos, q := HEADER, 0;
    while q < qdCount
      invariant q <= qdCount && 0 <= pos <= |m| && Questions(m, qdCount - q, pos) == Questions(m, qdCount, HEADER)
    {
      var s := SkipName(m, pos);
      if s == None {
        return None;
      }
      pos := Wrap16(s.value + 4);
      if pos > |m| {
        return None;
      }
      q := q + 1;
    }
    r := Some(pos);
  }

  method WalkAnswers(m: seq<byte>, anCount: nat, start: nat) returns (r: Option<nat>)
    requires start <= |m| <= MAX_REPLY
    ensures r == Answers(m, anCount, start)
  {
    hide Skip, Read16, Read32;
    var pos, a := start, 0;
    while a < anCount
      invariant a <= anCount && 0 <= pos <= |m| && Answers(m, anCount - a, pos) == Answers(m, anCount, start)
    {
      var s := SkipName(m, pos);
      if s == None || s.value + 10 > |m| {
        return None;
      }
      pos := s.value;
      var kind, rdlength := Read16(m, pos), Read16(m, pos + 8);
      pos := Wrap16(pos + 10);
      if kind == TYPE_A && rdlength == 4 {
        if pos + 4 > |m| {
          return None;
        }
        return Some(Read32(m, pos));
      }
      pos := Wrap16(pos + rdlength);
      if pos > |m| {
        return None;
      }
      a := a + 1;
    }
    r := None;
  }

  // ----- well-formed replies -----

  datatype Question = Question(name: Name, rest: seq<byte>)   // `rest`: type and class

  datatype Record = Record(name: Name, kind: nat, fields: seq<byte>, rdata: seq<byte>)   // `fields`: class and TTL

  predicate QuestionOk(q: Question) {
    NameOk(q.name) && |q.rest| == 4
  }

  predicate RecordOk(r: Record) {
    NameOk(r.name) && r.kind < 0x1_0000 && |r.fields| == 6 && |r.rdata| < 0x1_0000
  }

  function Two(v: nat): (b: seq<byte>)
    requires v < 0x1_0000
    ensures |b| == 2
  {
    [v / 0x100, v % 0x100]
  }

  function QuestionBytes(q: Question): seq<byte>
    requires QuestionOk(q)
  {
    NameBytes(q.name) + q.rest
  }

  function RecordBytes(r: Record): seq<byte>
    requires RecordOk(r)
  {
    NameBytes(r.name) + RecordHead(r) + r.rdata
  }

  predicate QuestionsOk(qs: seq<Question>) {
    forall q :: q in qs ==> QuestionOk(q)
  }

  predicate RecordsOk(rs: seq<Record>) {
    forall r :: r in rs ==> RecordOk(r)
  }

  function QuestionsBytes(qs: seq<Question>): seq<byte>
    requires QuestionsOk(qs)
  {
    if qs == [] then [] else QuestionBytes(qs[0]) + QuestionsBytes(qs[1..])
  }

  function RecordsBytes(rs: seq<Record>): seq<byte>
    requires RecordsOk(rs)
  {
    if rs == [] then [] else RecordBytes(rs[0]) + RecordsBytes(rs[1..])
  }

  /** Section 4.1.1: id, flags and the four counts; then questions, answers and whatever follows them. */
  function MessageBytes(id: nat, flags: nat, qs: seq<Question>, rs: seq<Record>, others: seq<byte>,
                        tail: seq<byte>): seq<byte>
    requires id < 0x1_0000 && flags < 0x1_0000 && |qs| < 0x1_0000 && |rs| < 0x1_0000 && |others| == 4
    requires QuestionsOk(qs) && RecordsOk(rs)
  {
    HeaderBytes(id, flags, |qs|, |rs|, others) + QuestionsBytes(qs) + (RecordsBytes(rs) + tail)
  }

  /** The first address record, as a number. */
  function FirstAddress(rs: seq<Record>): Option<nat> {
    if rs == [] then None
    else if rs[0].kind == TYPE_A && |rs[0].rdata| == 4 then Some(Read32(rs[0].rdata, 0))
    else FirstAddress(rs[1..])
  }

  lemma AtRead(m: seq<byte>, p: nat, b: seq<byte>, o: nat)
    requires At(m, p, b) && o + 2 <= |b|
    ensures p + o + 2 <= |m| && Read16(m, p + o) == Read16(b, o)
  {
    AtIndex(m, p, b, o);
    AtIndex(m, p, b, o + 1);
  }

  lemma QuestionsShape(qs: seq<Question>)
    requires QuestionsOk(qs) && qs != []
    ensures QuestionOk(qs[0]) && NameOk(qs[0].name) && |qs[0].rest| == 4 && QuestionsOk(qs[1..])
    ensures QuestionsBytes(qs) == NameBytes(qs[0].name) + (qs[0].rest + QuestionsBytes(qs[1..]))
  {
    assert qs[0] in qs;
  }

  lemma NoQuestions(m: seq<byte>, p: nat)
    ensures QuestionsOk([]) && QuestionsBytes([]) == [] && Questions(m, 0, p) == Some(p)
  {
  }

  lemma QuestionsStep(m: seq<byte>, n: nat, p: nat, q: nat)
    requires Skip(m, p) == Some(q) && q + 4 <= |m|
    ensures Questions(m, n + 1, p) == Questions(m, n, q + 4)
  {
  }

  lemma {:induction false} QuestionsRead(m: seq<byte>, p: nat, qs: seq<Question>)
    requires QuestionsOk(qs) && At(m, p, QuestionsBytes(qs))
    ensures Questions(m, |qs|, p) == Some(p + |QuestionsBytes(qs)|)
    decreases |qs|
  {
    hide *;
    if qs == [] {
      NoQuestions(m, p);
    } else {
      QuestionsShape(qs);
      var n, rest := NameBytes(qs[0].name), qs[0].rest;
      AtConcat(m, p, n, rest + QuestionsBytes(qs[1..]));
      SkipsName(m, p, qs[0].name);
      AtConcat(m, p + |n|, rest, QuestionsBytes(qs[1..]));
      AtFits(m, p + |n|, rest);
      QuestionsRead(m, p + |n| + 4, qs[1..]);
      QuestionsStep(m, |qs[1..]|, p, p + |n|);
    }
  }

  function RecordHead(r: Record): (h: seq<byte>)
    requires RecordOk(r)
    ensures |h| == 10 && Read16(h, 0) == r.kind && Read16(h, 8) == |r.rdata|
  {
    Two(r.kind) + r.fields + Two(|r.rdata|)
  }

  lemma RecordShape(r: Record, more: seq<byte>)
    requires RecordOk(r)
    ensures NameOk(r.name) && |RecordBytes(r)| == |NameBytes(r.name)| + 10 + |r.rdata|
    ensures RecordBytes(r) + more == NameBytes(r.name) + (RecordHead(r) + (r.rdata + more))
  {
    hide NameBytes, Two;
  }

  /** A record is read field by field. */
  lemma RecordRead(m: seq<byte>, p: nat, r: Record, more: seq<byte>)
    requires RecordOk(r) && At(m, p, RecordBytes(r) + more)
    ensures NameOk(r.name)
    ensures var q := p + |NameBytes(r.name)|;
            && Skip(m, p) == Some(q) && q + 10 + |r.rdata| <= |m|
            && Read16(m, q) == r.kind && Read16(m, q + 8) == |r.rdata|
            && At(m, q + 10, r.rdata) && At(m, q + 10 + |r.rdata|, more)
  {
    hide *;
    RecordShape(r, more);
    var n, h := NameBytes(r.name), RecordHead(r);
    var q := p + |n|;
    AtConcat(m, p, n, h + (r.rdata + more));
    SkipsName(m, p, r.name);
    AtConcat(m, q, h, r.rdata + more);
    AtConcat(m, q + 10, r.rdata, more);
    AtFits(m, q + 10, r.rdata);
    AtRead(m, q, h, 0);
    AtRead(m, q, h, 8);
  }

  lemma RecordsShape(rs: seq<Record>, tail: seq<byte>)
    requires RecordsOk(rs) && rs != []
    ensures RecordOk(rs[0]) && RecordsOk(rs[1..])
    ensures RecordsBytes(rs) + tail == RecordBytes(rs[0]) + (RecordsBytes(rs[1..]) + tail)
  {
    assert rs[0] in rs;
  }

  lemma AnswersStep(m: seq<byte>, n: nat, p: nat, q: nat)
    requires Skip(m, p) == Some(q) && q + 10 <= |m| < 0x1_0000 && q + 10 + Read16(m, q + 8) <= |m|
    ensures Answers(m, n + 1, p) == if Read16(m, q) == 1 && Read16(m, q + 8) == 4 then Some(Read32(m, q + 10))
                                    else Answers(m, n, q + 10 + Read16(m, q + 8))
  {
    hide Skip, Read16, Read32;
  }

  lemma AddressAt(m: seq<byte>, p: nat, b: seq<byte>)
    requires At(m, p, b) && |b| == 4
    ensures p + 4 <= |m| && Read32(m, p) == Read32(b, 0)
  {
    AtRead(m, p, b, 0);
    AtRead(m, p, b, 2);
  }

  lemma {:induction false} AnswersRead(m: seq<byte>, p: nat, rs: seq<Record>, tail: seq<byte>)
    requires |m| < 0x1_0000 && RecordsOk(rs) && At(m, p, RecordsBytes(rs) + tail)
    ensures Answers(m, |rs|, p) == FirstAddress(rs)
    decreases |rs|
  {
    hide *;
    if rs == [] {
      NoAnswers(m, p);
    } else {
      RecordsShape(rs, tail);
      var r, more := rs[0], RecordsBytes(rs[1..]) + tail;
      RecordRead(m, p, r, more);
      var q := p + |NameBytes(r.name)|;
      AnswersStep(m, |rs[1..]|, p, q);
      FirstStep(rs);
      if r.kind == 1 && |r.rdata| == 4 {
        AddressAt(m, q + 10, r.rdata);
      } else {
        AnswersRead(m, q + 10 + |r.rdata|, rs[1..], tail);
      }
    }
  }

  lemma NoAnswers(m: seq<byte>, p: nat)
    ensures Answers(m, 0, p) == None && FirstAddress([]) == None
  {
  }

  lemma FirstStep(rs: seq<Record>)
    requires rs != []
    ensures FirstAddress(rs) ==
              if rs[0].kind == 1 && |rs[0].rdata| == 4 then Some(Read32(rs[0].rdata, 0)) else FirstAddress(rs[1..])
  {
    hide Read32;
  }

  function HeaderBytes(id: nat, flags: nat, qd: nat, an: nat, others: seq<byte>): (h: seq<byte>)
    requires id < 0x1_0000 && flags < 0x1_0000 && qd < 0x1_0000 && an < 0x1_0000 && |others| == 4
    ensures |h| == 12 && Read16(h, 2) == flags && Read16(h, 4) == qd && Read16(h, 6) == an
  {
    Two(id) + Two(flags) + Two(qd) + Two(an) + others
  }

  lemma ParseSteps(m: seq<byte>)
    requires |m| >= 12
    ensures var flags := Read16(m, 2);
            Parse(m) == if flags >= 0x8000 && flags % 0x10 == 0 then
                          var p := Questions(m, Read16(m, 4), 12);
                          if p == None then None else Answers(m, Read16(m, 6), p.value)
                        else None
  {
    hide Questions, Answers;
  }

  /** Every well-formed reply without error gives its first address record, whatever the names,
      compressed or not, and whatever records come before and after it. */
  lemma ParsesReply(id: nat, flags: nat, qs: seq<Question>, rs: seq<Record>, others: seq<byte>, tail: seq<byte>)
    requires id < 0x1_0000 && flags < 0x1_0000 && |qs| < 0x1_0000 && |rs| < 0x1_0000 && |others| == 4
    requires QuestionsOk(qs) && RecordsOk(rs)
    requires |MessageBytes(id, flags, qs, rs, others, tail)| < 0x1_0000
    ensures Parse(MessageBytes(id, flags, qs, rs, others, tail))
         == if flags >= 0x8000 && flags % 0x10 == 0 then FirstAddress(rs) else None
  {
    var m := MessageBytes(id, flags, qs, rs, others, tail);
    var h := HeaderBytes(id, flags, |qs|, |rs|, others);
    MessageShape(id, flags, qs, rs, others, tail);
    hide *;
    MessageParts(m, h, QuestionsBytes(qs), RecordsBytes(rs) + tail);
    ParseSteps(m);
    QuestionsRead(m, 12, qs);
    AnswersRead(m, 12 + |QuestionsBytes(qs)|, rs, tail);
  }

  lemma MessageParts(m: seq<byte>, h: seq<byte>, qs: seq<byte>, rs: seq<byte>)
    requires m == h + qs + rs && |h| == 12
    ensures At(m, 12, qs) && At(m, 12 + |qs|, rs)
    ensures Read16(m, 2) == Read16(h, 2) && Read16(m, 4) == Read16(h, 4) && Read16(m, 6) == Read16(h, 6)
  {
    hide *;
    AtStart(m);
    AtConcat(m, 0, h + qs, rs);
    AtConcat(m, 0, h, qs);
    AtRead(m, 0, h, 2);
    AtRead(m, 0, h, 4);
    AtRead(m, 0, h, 6);
  }

  lemma MessageShape(id: nat, flags: nat, qs: seq<Question>, rs: seq<Record>, others: seq<byte>, tail: seq<byte>)
    requires id < 0x1_0000 && flags < 0x1_0000 && |qs| < 0x1_0000 && |rs| < 0x1_0000 && |others| == 4
    requires QuestionsOk(qs) && RecordsOk(rs)
    ensures MessageBytes(id, flags, qs, rs, others, tail)
         == HeaderBytes(id, flags, |qs|, |rs|, others) + QuestionsBytes(qs) + (RecordsBytes(rs) + tail)
  {
    hide QuestionsBytes, RecordsBytes, HeaderBytes;
  }

  const ID: nat := 0x1234
  const RECURSION_DESIRED: nat := 0x100

  /** The message send_dns sends: one question for the address of the name. */
  method Query(name: seq<byte>) returns (query: Option<seq<byte>>)
    requires |name| < 0xFFFF
    ensures LabelsOk(Labels(name)) <==> query.Some?
    ensures query.Some? ==>
              && QuestionsOk([NameQuestion(name)])
              && query.value == MessageBytes(ID, RECURSION_DESIRED, [NameQuestion(name)], [], [0, 0, 0, 0], [])
              && Questions(query.value, 1, HEADER) == Some(|query.value|)
  {
    var encoded := EncodeName(name);
    if encoded == None {
      return None;
    }
    var q := HeaderBytes(ID, RECURSION_DESIRED, 1, 0, [0, 0, 0, 0]) + encoded.value + Two(TYPE_A) + [0, 1];
    WireIsName(Labels(name));
    QueryBytes(name, q);
    query := Some(q);
  }

  function NameQuestion(name: seq<byte>): Question {
    Question(Name(Labels(name), None), [0, 1, 0, 1])
  }

  lemma QueryBytes(name: seq<byte>, q: seq<byte>)
    requires LabelsOk(Labels(name)) && NameBytes(Name(Labels(name), None)) == Wire(Labels(name))
    requires q == HeaderBytes(ID, RECURSION_DESIRED, 1, 0, [0, 0, 0, 0]) + Wire(Labels(name)) + Two(TYPE_A) + [0, 1]
    ensures QuestionsOk([NameQuestion(name)])
    ensures q == MessageBytes(ID, RECURSION_DESIRED, [NameQuestion(name)], [], [0, 0, 0, 0], [])
    ensures Questions(q, 1, 12) == Some(|q|)
  {
    var qs := [NameQuestion(name)];
    var h, w := HeaderBytes(ID, RECURSION_DESIRED, 1, 0, [0, 0, 0, 0]), Wire(Labels(name));
    hide *;
    OneQuestion(name);
    TypeAndClass();
    QuerySum(h, w, Two(1), [0, 1]);
    assert q == h + QuestionsBytes(qs) + [];
    QueryShape(qs, q);
    MessageParts(q, h, QuestionsBytes(qs), []);
    QuestionsRead(q, 12, qs);
  }

  lemma QuerySum(h: seq<byte>, w: seq<byte>, a: seq<byte>, b: seq<byte>)
    ensures h + w + a + b == h + (w + (a + b)) + []
  {
  }

  lemma TypeAndClass()
    ensures TYPE_A == 1 && Two(TYPE_A) + [0, 1] == [0, 1, 0, 1]
  {
  }

  lemma QueryShape(qs: seq<Question>, q: seq<byte>)
    requires QuestionsOk(qs) && |qs| == 1
    requires q == HeaderBytes(ID, RECURSION_DESIRED, 1, 0, [0, 0, 0, 0]) + QuestionsBytes(qs) + []
    ensures RecordsOk([]) && q == MessageBytes(ID, RECURSION_DESIRED, qs, [], [0, 0, 0, 0], [])
  {
    hide QuestionsBytes, HeaderBytes;
    assert RecordsBytes([]) + [] == [];
  }

  lemma OneQuestion(name: seq<byte>)
    requires LabelsOk(Labels(name)) && NameBytes(Name(Labels(name), None)) == Wire(Labels(name))
    ensures QuestionsOk([NameQuestion(name)])
    ensures QuestionsBytes([NameQuestion(name)]) == Wire(Labels(name)) + [0, 1, 0, 1]
  {
    var qs := [NameQuestion(name)];
    hide Labels, LabelsOk, Wire, NameBytes;
    assert qs[1..] == [] && QuestionsBytes([]) == [];
    assert QuestionsBytes(qs) == QuestionBytes(qs[0]) + [];
  }

  // ----- a length that wraps -----

  /** A record that claims 65535 bytes, and what stands behind its header. */
  function Overlong(a: byte, b: byte, c: byte, d: byte): seq<byte> {
    [0, 0, 0x80, 0, 0, 0, 0, 2, 0, 0, 0, 0] + [0, 0, 2, 0, 1, 0, 0, 0, 0, 0xFF, 0xFF]
      + [0, 0, 1, 0, 1, 0, 0, 0, 0, 0, 4, a, b, c, d]
  }

  /** A record reaching far past the message is not always refused: the 16-bit position wraps, the walk
      goes on from inside the record, and here finds an address there. */
  lemma OverlongAccepted(a: byte, b: byte, c: byte, d: byte)
    ensures Parse(Overlong(a, b, c, d)) == Some(Read32([a, b, c, d], 0))
  {
    var m := Overlong(a, b, c, d);
    assert Skip(m, 12) == Some(13) && Read16(m, 13) == 2 && Read16(m, 21) == 0xFFFF;
    assert Wrap16(23 + 0xFFFF) == 22;
    assert Skip(m, 22) == Some(24) && Read16(m, 24) == TYPE_A && Read16(m, 32) == 4;
    assert Answers(m, 1, 22) == Some(Read32(m, 34));
    assert Questions(m, 0, HEADER) == Some(HEADER);
    assert Read16(m, 4) == 0 && Read16(m, 6) == 2;
  }
}
