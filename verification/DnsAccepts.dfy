/** Which replies dns_parse_reply accepts: well-formed ones, and those in which a record length wraps the
    16-bit position around. */
module DnsAccepts {
  import opened Options
  import opened Bytes
  import opened Places
  import opened Dns

  /** A record that ends the walk with an address. */
  predicate IsAddress(kind: nat, len: nat) {
    kind == 1 && len == 4
  }

  /** A record other than an address that claims more than the message holds is refused unless its end
      wraps to a place inside the message, and then the walk goes on there. */
  lemma OverlongStep(m: seq<byte>, n: nat, p: nat, q: nat)
    requires n > 0 && |m| <= MAX_REPLY && Skip(m, p) == Some(q) && q + 10 <= |m|
    requires !IsAddress(Read16(m, q), Read16(m, q + 8)) && q + 10 + Read16(m, q + 8) > |m|
    ensures var end := q + 10 + Read16(m, q + 8);
            Answers(m, n, p) ==
              if end >= 0x1_0000 && end - 0x1_0000 <= |m| then Answers(m, n - 1, end - 0x1_0000) else None
  {
    hide Skip, Read16;
  }

  /** Among at most `n` records from `p` on, up to the first address, one has an end beyond 16 bits. */
  predicate Wraps(m: seq<byte>, n: nat, p: nat) {
    n > 0 && Skip(m, p).Some? && Skip(m, p).value + 10 <= |m|
    && var q := Skip(m, p).value;
       var end := q + 10 + Read16(m, q + 8);
       && !IsAddress(Read16(m, q), Read16(m, q + 8))
       && (end >= 0x1_0000 || (end <= |m| && Wraps(m, n - 1, end)))
  }

  predicate ReplyWraps(m: seq<byte>) {
    |m| >= 12 && Questions(m, Read16(m, 4), 12).Some? && Wraps(m, Read16(m, 6), Questions(m, Read16(m, 4), 12).value)
  }

  /** The last record, and no other, is an address. */
  predicate EndsWithAddress(rs: seq<Record>) {
    rs != [] && IsAddress(rs[0].kind, |rs[0].rdata|) == (|rs| == 1) && (|rs| > 1 ==> EndsWithAddress(rs[1..]))
  }

  /** As many questions as the header says and then records up to the first address, no more than the
      header says, one behind the other and all inside the message. */
  ghost predicate Consists(m: seq<byte>, qs: seq<Question>, rs: seq<Record>) {
    && |m| >= 12 && QuestionsOk(qs) && RecordsOk(rs)
    && |qs| == Read16(m, 4) && |rs| <= Read16(m, 6) && EndsWithAddress(rs)
    && At(m, 12, QuestionsBytes(qs) + RecordsBytes(rs))
  }

  ghost predicate WellFormed(m: seq<byte>) {
    exists qs: seq<Question>, rs: seq<Record> :: Consists(m, qs, rs)
  }

  /** A response without an error code. */
  predicate Succeeds(m: seq<byte>) {
    |m| >= 12 && Read16(m, 2) >= 0x8000 && Read16(m, 2) % 0x10 == 0
  }

  // ----- what the walk passed was there -----

  /** A name that ends inside the message is one. */
  lemma {:induction false} NameFound(m: seq<byte>, p: nat) returns (n: Name)
    requires Skip(m, p).Some? && Skip(m, p).value <= |m|
    ensures NameOk(n) && At(m, p, NameBytes(n)) && Skip(m, p).value == p + |NameBytes(n)|
    decreases |m| - p
  {
    if m[p] == 0 || m[p] >= 0xC0 {
      n := NameEnd(m, p);
    } else {
      var len: nat := m[p];
      var rest := NameFound(m, p + 1 + len);
      n := Name([m[p + 1..p + 1 + len]] + rest.labels, rest.pointer);
      NameJoin(m, p, len, rest);
    }
  }

  lemma NameEnd(m: seq<byte>, p: nat) returns (n: Name)
    requires Skip(m, p).Some? && Skip(m, p).value <= |m| && p < |m| && (m[p] == 0 || m[p] >= 0xC0)
    ensures NameOk(n) && At(m, p, NameBytes(n)) && Skip(m, p).value == p + |NameBytes(n)|
  {
    n := Name([], if m[p] == 0 then None else Some((m[p] - 0xC0) as nat * 0x100 + m[p + 1] as nat));
    assert m[p..p + 1] == [m[p]];
    if m[p] != 0 {
      assert m[p..p + 2] == [m[p], m[p + 1]];
      assert NameBytes(n) == [m[p], m[p + 1]];
    }
  }

  /** A label in front of a name. */
  lemma NameJoin(m: seq<byte>, p: nat, len: nat, rest: Name)
    requires 1 <= len <= 63 && p + 1 + len <= |m| && m[p] == len && NameOk(rest) && At(m, p + 1 + len, NameBytes(rest))
    ensures var n := Name([m[p + 1..p + 1 + len]] + rest.labels, rest.pointer);
            NameOk(n) && At(m, p, NameBytes(n)) && |NameBytes(n)| == 1 + len + |NameBytes(rest)|
  {
    hide *;
    var first := m[p + 1..p + 1 + len];
    LabelsJoin(first, rest, Name([first] + rest.labels, rest.pointer));
    LabelFound(m, p, len);
    Joined(m, p, [m[p]] + first, NameBytes(rest));
  }

  lemma LabelsJoin(first: seq<byte>, rest: Name, n: Name)
    requires 1 <= |first| <= 63 && NameOk(rest) && n == Name([first] + rest.labels, rest.pointer)
    ensures NameOk(n) && NameBytes(n) == [|first| as byte] + first + NameBytes(rest)
  {
    LabelsOkTail(n.labels);
    assert n.labels[1..] == rest.labels;
    NameStep(n);
  }

  lemma LabelFound(m: seq<byte>, p: nat, len: nat)
    requires p < |m| && m[p] == len && p + 1 + len <= |m|
    ensures At(m, p, [m[p]] + m[p + 1..p + 1 + len])
  {
    assert m[p..p + 1 + len] == [m[p]] + m[p + 1..p + 1 + len];
  }

  lemma {:induction false} QuestionsFound(m: seq<byte>, n: nat, p: nat) returns (qs: seq<Question>)
    requires Questions(m, n, p).Some? && p <= |m|
    ensures QuestionsOk(qs) && |qs| == n && At(m, p, QuestionsBytes(qs))
    ensures Questions(m, n, p).value == p + |QuestionsBytes(qs)|
    decreases n
  {
    if n == 0 {
      qs := [];
    } else {
      var name := NameFound(m, p);
      var q := Skip(m, p).value;
      var rest := QuestionsFound(m, n - 1, q + 4);
      qs := [Question(name, m[q..q + 4])] + rest;
      hide *;
      MoreQuestions(Question(name, m[q..q + 4]), rest);
      AtSelf(m, q, 4);
      Joined(m, p, NameBytes(name), m[q..q + 4]);
      Joined(m, p, NameBytes(name) + m[q..q + 4], QuestionsBytes(rest));
    }
  }

  lemma MoreQuestions(q: Question, rest: seq<Question>)
    requires NameOk(q.name) && |q.rest| == 4 && QuestionsOk(rest)
    ensures QuestionsOk([q] + rest) && QuestionsBytes([q] + rest) == NameBytes(q.name) + q.rest + QuestionsBytes(rest)
  {
    hide NameBytes, NameOk;
    assert ([q] + rest)[1..] == rest;
    assert QuestionsOk([q] + rest);
  }

  lemma AtSelf(m: seq<byte>, p: nat, n: nat)
    requires p + n <= |m|
    ensures At(m, p, m[p..p + n])
  {
  }

  /** Two pieces one behind the other. */
  lemma Joined(m: seq<byte>, p: nat, a: seq<byte>, b: seq<byte>)
    requires At(m, p, a) && At(m, p + |a|, b)
    ensures At(m, p, a + b)
  {
    assert m[p..p + |a + b|] == m[p..p + |a|] + m[p + |a|..p + |a| + |b|];
  }

  /** The record whose name ends at `q`. */
  function RecordOf(m: seq<byte>, name: Name, q: nat): Record
    requires q + 10 <= |m| && q + 10 + Read16(m, q + 8) <= |m|
  {
    Record(name, Read16(m, q), m[q + 2..q + 8], m[q + 10..q + 10 + Read16(m, q + 8)])
  }

  lemma RecordFound(m: seq<byte>, p: nat) returns (r: Record)
    requires Skip(m, p).Some? && Skip(m, p).value + 10 <= |m|
    requires Skip(m, p).value + 10 + Read16(m, Skip(m, p).value + 8) <= |m|
    ensures var q := Skip(m, p).value;
            && RecordOk(r) && At(m, p, RecordBytes(r)) && p + |RecordBytes(r)| == q + 10 + Read16(m, q + 8)
            && r.kind == Read16(m, q) && |r.rdata| == Read16(m, q + 8)
            && IsAddressRecord(r) == IsAddress(Read16(m, q), Read16(m, q + 8))
  {
    var name := NameFound(m, p);
    var q := Skip(m, p).value;
    r := RecordOf(m, name, q);
    HeadFound(m, name, q);
    RecordShape(r, []);
    hide Skip, RecordHead, NameBytes, NameOk, Read16, RecordBytes;
    Joined(m, q, RecordHead(r), r.rdata);
    Joined(m, p, NameBytes(name), RecordHead(r) + r.rdata);
    assert r.rdata + [] == r.rdata && RecordBytes(r) + [] == RecordBytes(r);
  }

  lemma HeadFound(m: seq<byte>, name: Name, q: nat)
    requires NameOk(name) && q + 10 <= |m| && q + 10 + Read16(m, q + 8) <= |m|
    ensures var r := RecordOf(m, name, q);
            RecordOk(r) && At(m, q, RecordHead(r)) && At(m, q + 10, r.rdata)
  {
    var r := RecordOf(m, name, q);
    hide NameOk;
    TwoFound(m, q);
    TwoFound(m, q + 8);
    assert m[q..q + 10] == m[q..q + 2] + m[q + 2..q + 8] + m[q + 8..q + 10];
  }

  lemma TwoFound(m: seq<byte>, p: nat)
    requires p + 2 <= |m|
    ensures Two(Read16(m, p)) == m[p..p + 2]
  {
  }

  lemma {:induction false} RecordsFound(m: seq<byte>, n: nat, p: nat) returns (rs: seq<Record>)
    requires |m| < 0x1_0000 && Answers(m, n, p).Some? && !Wraps(m, n, p)
    ensures RecordsOk(rs) && |rs| <= n && EndsWithAddress(rs) && At(m, p, RecordsBytes(rs))
    decreases n
  {
    hide *;
    AnswersParts(m, n, p);
    var r := RecordFound(m, p);
    OneRecord(r);
    if IsAddressRecord(r) {
      rs := [r];
    } else {
      var rest := RecordsFound(m, n - 1, p + |RecordBytes(r)|);
      rs := [r] + rest;
      MoreRecords(r, rest);
      Joined(m, p, RecordBytes(r), RecordsBytes(rest));
    }
  }

  predicate IsAddressRecord(r: Record) {
    IsAddress(r.kind, |r.rdata|)
  }

  /** A walk that ends with an address and does not wrap: its first record is there, and if it is not the
      address the walk goes on behind it. */
  lemma AnswersParts(m: seq<byte>, n: nat, p: nat)
    requires |m| < 0x1_0000 && Answers(m, n, p).Some? && !Wraps(m, n, p)
    ensures n > 0 && Skip(m, p).Some? && Skip(m, p).value + 10 <= |m|
    ensures var q := Skip(m, p).value;
            var end := q + 10 + Read16(m, q + 8);
            && end <= |m|
            && (!IsAddress(Read16(m, q), Read16(m, q + 8)) ==> Answers(m, n - 1, end).Some? && !Wraps(m, n - 1, end))
  {
    hide Skip, Read16, Read32;
  }

  lemma MoreRecords(r: Record, rest: seq<Record>)
    requires RecordOk(r) && RecordsOk(rest) && !IsAddressRecord(r) && EndsWithAddress(rest)
    ensures RecordsOk([r] + rest) && EndsWithAddress([r] + rest)
    ensures RecordsBytes([r] + rest) == RecordBytes(r) + RecordsBytes(rest)
  {
    hide RecordBytes, RecordOk;
    assert ([r] + rest)[1..] == rest;
    assert RecordsOk([r] + rest);
  }

  lemma OneRecord(r: Record)
    requires RecordOk(r)
    ensures RecordsOk([r]) && RecordsBytes([r]) == RecordBytes(r)
    ensures IsAddressRecord(r) ==> EndsWithAddress([r])
  {
    hide RecordBytes;
    assert [r][1..] == [] && RecordsBytes([]) == [];
  }

  // ----- what is there is walked -----

  lemma {:induction false} RecordsWalk(m: seq<byte>, n: nat, p: nat, rs: seq<Record>)
    requires |m| < 0x1_0000 && RecordsOk(rs) && |rs| <= n && EndsWithAddress(rs) && At(m, p, RecordsBytes(rs))
    ensures Answers(m, n, p) == FirstAddress(rs) && FirstAddress(rs).Some? && !Wraps(m, n, p)
    decreases |rs|
  {
    hide *;
    var r, more := RecordsFirst(rs);
    RecordRead(m, p, r, more);
    var q := p + |NameBytes(r.name)|;
    AnswersStep(m, n - 1, p, q);
    WrapsStep(m, n, p, q);
    FirstStep(rs);
    if r.kind == 1 && |r.rdata| == 4 {
      AddressAt(m, q + 10, r.rdata);
    } else {
      RecordsWalk(m, n - 1, q + 10 + |r.rdata|, rs[1..]);
    }
  }

  lemma RecordsFirst(rs: seq<Record>) returns (r: Record, more: seq<byte>)
    requires RecordsOk(rs) && EndsWithAddress(rs)
    ensures |rs| > 0 && r == rs[0] && RecordOk(r) && RecordsOk(rs[1..]) && more == RecordsBytes(rs[1..])
    ensures RecordsBytes(rs) == RecordBytes(r) + more
    ensures !(r.kind == 1 && |r.rdata| == 4) ==> EndsWithAddress(rs[1..])
  {
    r := rs[0];
    RecordsShape(rs, []);
    more := RecordsBytes(rs[1..]);
    hide RecordBytes, RecordsBytes;
    assert RecordsBytes(rs) + [] == RecordsBytes(rs) && more + [] == more;
  }

  lemma WrapsStep(m: seq<byte>, n: nat, p: nat, q: nat)
    requires n > 0 && Skip(m, p) == Some(q) && q + 10 <= |m| < 0x1_0000 && q + 10 + Read16(m, q + 8) <= |m|
    ensures Wraps(m, n, p) <==>
              !(Read16(m, q) == 1 && Read16(m, q + 8) == 4) && Wraps(m, n - 1, q + 10 + Read16(m, q + 8))
  {
    hide Skip, Read16;
  }

  /** A reply is accepted without a wrap of the position exactly when it is a response without error code
      that consists of the questions and records it claims, up to its first address record. */
  lemma AcceptedExactly(m: seq<byte>)
    requires |m| <= MAX_REPLY
    ensures Parse(m).Some? && !ReplyWraps(m) <==> Succeeds(m) && WellFormed(m)
  {
    if Parse(m).Some? && !ReplyWraps(m) {
      ParseParts(m);
      var qs := QuestionsFound(m, Read16(m, 4), 12);
      var p := Questions(m, Read16(m, 4), 12).value;
      var rs := RecordsFound(m, Read16(m, 6), p);
      hide Questions, Answers, Wraps, QuestionsBytes, RecordsBytes, QuestionsOk, RecordsOk, EndsWithAddress, Read16;
      Joined(m, 12, QuestionsBytes(qs), RecordsBytes(rs));
      assert Consists(m, qs, rs);
    }
    if Succeeds(m) && WellFormed(m) {
      var qs: seq<Question>, rs: seq<Record> :| Consists(m, qs, rs);
      WellFormedAccepted(m, qs, rs);
    }
  }

  lemma ParseParts(m: seq<byte>)
    requires Parse(m).Some?
    ensures Succeeds(m) && Questions(m, Read16(m, 4), 12).Some?
    ensures Answers(m, Read16(m, 6), Questions(m, Read16(m, 4), 12).value) == Parse(m)
  {
    hide Questions, Answers;
  }

  /** Then it gives the address of the last of those records. */
  lemma WellFormedAccepted(m: seq<byte>, qs: seq<Question>, rs: seq<Record>)
    requires |m| <= MAX_REPLY && Succeeds(m) && Consists(m, qs, rs)
    ensures Parse(m) == FirstAddress(rs) && Parse(m).Some? && !ReplyWraps(m)
  {
    ParseSteps(m);
    AtConcat(m, 12, QuestionsBytes(qs), RecordsBytes(rs));
    QuestionsRead(m, 12, qs);
    RecordsWalk(m, Read16(m, 6), 12 + |QuestionsBytes(qs)|, rs);
    hide Questions, Answers, Wraps, QuestionsBytes, RecordsBytes, QuestionsOk, RecordsOk, EndsWithAddress, Read16;
    hide FirstAddress, Parse;
  }
}
