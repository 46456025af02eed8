/**
 The file-pull protocol: the server's replies as bytes, the client's reading of them, and the loop that
 fetches a file chunk by chunk over a channel that may lose, repeat or reorder replies.
 */
module Pull {
  import opened Bytes
  import opened Places

  const CHUNK_SIZE: nat := 1430
  const STAGE_SIZE: nat := 16384

  const SPACE: byte := 32
  const NEWLINE: byte := 10

  predicate IsDigit(b: byte) {
    48 <= b <= 57
  }

  // ----- numbers in decimal -----

  function Dec(n: nat): (s: seq<byte>)
    ensures |s| > 0 && forall i :: 0 <= i < |s| ==> IsDigit(s[i])
  {
    (if n < 10 then [] else Dec(n / 10)) + [48 + n % 10]
  }

  function Value(s: seq<byte>): int {
    if s == [] then 0 else 10 * Value(s[..|s| - 1]) + (s[|s| - 1] as int - 48)
  }

  lemma ValueSnoc(s: seq<byte>, b: byte)
    ensures Value(s + [b]) == 10 * Value(s) + (b as int - 48) && Value([]) == 0
  {
    assert (s + [b])[..|s|] == s;
  }

  lemma {:induction false} DecValue(n: nat)
    ensures Value(Dec(n)) == n
  {
    var front, digit: byte := if n < 10 then [] else Dec(n / 10), 48 + n % 10;
    assert Dec(n) == front + [digit];
    if n >= 10 {
      DecValue(n / 10);
    }
    hide Dec;
    ValueSnoc(front, digit);
  }

  lemma {:induction false} DecLength(n: nat)
    requires n < 0x1_0000_0000
    ensures |Dec(n)| <= 10
  {
    if n >= 10 {
      DecShort(n / 10, 9, 1000000000);
    }
  }

  lemma {:induction false} DecShort(n: nat, k: nat, bound: nat)
    requires k > 0 && n < bound && bound == Power10(k)
    ensures |Dec(n)| <= k
    decreases k
  {
    if n >= 10 {
      assert bound == 10 * Power10(k - 1) && |Dec(n)| == |Dec(n / 10)| + 1;
      hide *;
      assert n / 10 < Power10(k - 1);
      DecShort(n / 10, k - 1, Power10(k - 1));
    }
  }

  function Power10(k: nat): nat {
    if k == 0 then 1 else 10 * Power10(k - 1)
  }

  /** Where a run of digits from `p` on ends. */
  function DigitsEnd(buf: seq<byte>, p: nat): (e: nat)
    requires p <= |buf|
    ensures p <= e <= |buf| && (e < |buf| ==> !IsDigit(buf[e])) && forall i :: p <= i < e ==> IsDigit(buf[i])
    decreases |buf| - p
  {
    if p < |buf| && IsDigit(buf[p]) then DigitsEnd(buf, p + 1) else p
  }

  lemma ModStep(x: int, d: int)
    ensures (x % 0x1_0000_0000 * 10 + d) % 0x1_0000_0000 == (10 * x + d) % 0x1_0000_0000
  {
    var q := x / 0x1_0000_0000;
    assert 10 * x + d == x % 0x1_0000_0000 * 10 + d + 10 * q * 0x1_0000_0000;
  }

  /** pull_parse_dec: the number at `p` in 32 bits, and where it ends. */
  method ParseDec(buf: seq<byte>, p: nat) returns (v: nat, e: nat)
    requires p <= |buf|
    ensures e == DigitsEnd(buf, p) && v == Value(buf[p..e]) % 0x1_0000_0000
  {
    hide Value;
    v, e := 0, p;
    ValueSnoc([], 0);
    assert buf[p..p] == [];
    while e < |buf| && IsDigit(buf[e])
      invariant p <= e <= |buf| && DigitsEnd(buf, e) == DigitsEnd(buf, p)
      invariant v == Value(buf[p..e]) % 0x1_0000_0000
    {
      ValueSnoc(buf[p..e], buf[e]);
      assert buf[p..e] + [buf[e]] == buf[p..e + 1];
      ModStep(Value(buf[p..e]), buf[e] as int - 48);
      v := (v * 10 + (buf[e] as int - 48)) % 0x1_0000_0000;
      e := e + 1;
    }
  }

  /** Past the spaces at `p`. */
  method SkipSpaces(buf: seq<byte>, p: nat) returns (q: nat)
    requires p <= |buf|
    ensures q == SpacesEnd(buf, p)
  {
    q := p;
    while q < |buf| && buf[q] == SPACE
      invariant p <= q <= |buf| && SpacesEnd(buf, q) == SpacesEnd(buf, p)
    {
      q := q + 1;
    }
  }

  function SpacesEnd(buf: seq<byte>, p: nat): (q: nat)
    requires p <= |buf|
    ensures p <= q <= |buf| && (q < |buf| ==> buf[q] != SPACE)
    decreases |buf| - p
  {
    if p < |buf| && buf[p] == SPACE then SpacesEnd(buf, p + 1) else p
  }

  // ----- the server -----

  datatype Request = Size | Get(off: nat)

  function Chunk(file: seq<byte>, off: nat): (c: seq<byte>)
    requires off <= |file|
    ensures |c| <= CHUNK_SIZE && c <= file[off..] && (off < |file| ==> |c| > 0)
  {
    if off + CHUNK_SIZE < |file| then file[off..off + CHUNK_SIZE] else file[off..]
  }

  const OK: seq<byte> := [79, 75]

  /** A space and a number. */
  function Num(n: nat): (s: seq<byte>)
    ensures |s| == 1 + |Dec(n)| && s[0] == SPACE
  {
    [SPACE] + Dec(n)
  }

  /** udp_reply for a file that is there. */
  function Answer(file: seq<byte>, r: Request): seq<byte> {
    match r
    case Size => OK + Num(|file|)
    case Get(off) =>
      if off >= |file| then OK + Num(off) + Num(|file|) + Num(0)
      else Head(off, |file|, |Chunk(file, off)|) + Chunk(file, off)
  }

  /** The replies that bring data. */
  predicate HasData(file: seq<byte>, r: Request) {
    r.Get? && r.off < |file|
  }

  function Head(off: nat, size: nat, len: nat): seq<byte> {
    OK + Num(off) + Num(size) + Num(len) + [NEWLINE]
  }

  /** No reply for a file of up to 32 bits of size is cut by the client's buffer. */
  lemma AnswerFits(file: seq<byte>, r: Request)
    requires |file| < 0x1_0000_0000 && (r.Get? ==> r.off < 0x1_0000_0000)
    ensures |Answer(file, r)| <= MAX_REPLY
  {
    DecLength(|file|);
    DecLength(0);
    if r.Get? {
      DecLength(r.off);
      if r.off < |file| { DecShort(|Chunk(file, r.off)|, 4, 10000); }
    }
  }

  // ----- the client's reading of a reply -----

  /** The number field at `p`, after spaces, with what follows it no digit. */
  predicate NumberField(buf: seq<byte>, p: nat, n: nat, e: nat) {
    p <= e <= |buf| && SpacesEnd(buf, p) <= e && DigitsEnd(buf, SpacesEnd(buf, p)) == e
    && Value(buf[SpacesEnd(buf, p)..e]) == n
  }

  lemma {:induction false} DigitsStop(buf: seq<byte>, p: nat, e: nat)
    requires p <= e <= |buf| && (forall i :: p <= i < e ==> IsDigit(buf[i])) && (e < |buf| ==> !IsDigit(buf[e]))
    ensures DigitsEnd(buf, p) == e
    decreases e - p
  {
    if p < e {
      DigitsStop(buf, p + 1, e);
    }
  }

  /** A space and a number, followed by something else, is read as that number. */
  lemma FieldReads(buf: seq<byte>, p: nat, n: nat)
    requires At(buf, p, Num(n))
    requires var e := p + |Num(n)|; e < |buf| ==> !IsDigit(buf[e])
    ensures NumberField(buf, p, n, p + |Num(n)|)
  {
    hide *;
    var e := p + |Num(n)|;
    NumShape(n);
    AtFits(buf, p, Num(n));
    AtConcat(buf, p, [32], Dec(n));
    AtIndex(buf, p, [32], 0);
    forall i | p + 1 <= i < e ensures IsDigit(buf[i]) {
      AtIndex(buf, p + 1, Dec(n), i - p - 1);
    }
    OneSpace(buf, p);
    DigitsStop(buf, p + 1, e);
    AtSlice(buf, p + 1, Dec(n));
    FieldIs(buf, p, p + 1, n, e);
  }

  lemma NumShape(n: nat)
    ensures Num(n) == [32] + Dec(n) && Value(Dec(n)) == n
  {
    DecValue(n);
  }

  lemma OneSpace(buf: seq<byte>, p: nat)
    requires p + 1 < |buf| && buf[p] == 32 && IsDigit(buf[p + 1])
    ensures SpacesEnd(buf, p) == p + 1
  {
    assert SpacesEnd(buf, p + 1) == p + 1;
  }

  lemma FieldIs(buf: seq<byte>, p: nat, q: nat, n: nat, e: nat)
    requires p <= q <= e <= |buf| && SpacesEnd(buf, p) == q && DigitsEnd(buf, q) == e && Value(buf[q..e]) == n
    ensures NumberField(buf, p, n, e)
  {
  }

  method ReadField(buf: seq<byte>, p: nat) returns (v: nat, e: nat)
    requires p <= |buf|
    ensures p <= e <= |buf|
    ensures forall n, f :: NumberField(buf, p, n, f) && n < 0x1_0000_0000 ==> v == n && e == f
  {
    var q := SkipSpaces(buf, p);
    v, e := ParseDec(buf, q);
  }

  /** Where the data begin: behind the first newline of the payload, or one past it. */
  method DataStart(buf: seq<byte>, len: nat) returns (s: nat)
    requires len <= |buf|
    ensures 0 < s <= len + 1 && (forall i :: 0 <= i < s - 1 ==> buf[i] != NEWLINE)
    ensures s <= len ==> buf[s - 1] == NEWLINE
  {
    s := 0;
    while s < len && buf[s] != NEWLINE
      invariant s <= len && forall i :: 0 <= i < s ==> buf[i] != NEWLINE
    {
      s := s + 1;
    }
    s := s + 1;
  }

  /** A reply as it lies in the client's buffer, `stale` being what an earlier one left behind it. */
  datatype Delivery = Delivery(req: Request, stale: seq<byte>)

  /** Offsets fit in 32 bits, and what lies behind a SIZE reply does not lengthen its number. */
  predicate Fair(d: Delivery) {
    && (d.req.Get? ==> d.req.off < 0x1_0000_0000)
    && (d.req.Size? && d.stale != [] ==> !IsDigit(d.stale[0]))
  }

  function Buffer(file: seq<byte>, d: Delivery): seq<byte> {
    Answer(file, d.req) + d.stale
  }

  /** The first number of a reply: the size, or the offset asked for. */
  function FirstNumber(file: seq<byte>, r: Request): nat {
    if r.Size? then |file| else r.off
  }

  lemma FirstFieldReads(file: seq<byte>, d: Delivery)
    requires Fair(d)
    ensures var buf := Buffer(file, d);
            |buf| >= 2 && buf[..2] == OK
                && NumberField(buf, 2, FirstNumber(file, d.req), 2 + |Num(FirstNumber(file, d.req))|)
  {
    var buf := Buffer(file, d);
    AtStart(buf);
    hide Num, Chunk, NumberField;
    if d.req.Size? {
      AtConcat(buf, 0, OK + Num(|file|), d.stale);
      AtConcat(buf, 0, OK, Num(|file|));
      if d.stale != [] { AtIndex(buf, 2 + |Num(|file|)|, d.stale, 0); }
    } else {
      var off, h := d.req.off, OK + Num(d.req.off) + Num(|file|);
      assert Answer(file, d.req)
             == if off >= |file| then h + Num(0) else h + Num(|Chunk(file, off)|) + [NEWLINE] + Chunk(file, off);
      AnswerHead(file, off, d.stale);
      AtConcat(buf, 0, OK + Num(off), Num(|file|));
      AtConcat(buf, 0, OK, Num(off));
      AtIndex(buf, 2 + |Num(off)|, Num(|file|), 0);
    }
    FieldReads(buf, 2, FirstNumber(file, d.req));
  }

  /** The part both kinds of answers to a GET begin with. */
  lemma AnswerHead(file: seq<byte>, off: nat, stale: seq<byte>)
    ensures At(Buffer(file, Delivery(Get(off), stale)), 0, OK + Num(off) + Num(|file|))
  {
    var buf, h := Buffer(file, Delivery(Get(off), stale)), OK + Num(off) + Num(|file|);
    AtStart(buf);
    hide Num, Chunk, At;
    AtConcat(buf, 0, Answer(file, Get(off)), stale);
    if off >= |file| {
      AtConcat(buf, 0, h, Num(0));
    } else {
      var n := Num(|Chunk(file, off)|);
      AtConcat(buf, 0, h + n + [NEWLINE], Chunk(file, off));
      AtConcat(buf, 0, h + n, [NEWLINE]);
      AtConcat(buf, 0, h, n);
    }
  }

  lemma GetShape(file: seq<byte>, off: nat, stale: seq<byte>)
    requires off < |file|
    ensures var c := Chunk(file, off);
            && Answer(file, Get(off)) == Head(off, |file|, |c|) + c
            && Buffer(file, Delivery(Get(off), stale)) == Head(off, |file|, |c|) + c + stale
  {
    hide Num, Chunk, Head;
  }

  lemma HeadShape(off: nat, size: nat, len: nat)
    ensures Head(off, size, len) == (OK + Num(off)) + Num(size) + Num(len) + [NEWLINE]
    ensures |OK + Num(off)| == 2 + |Num(off)|
  {
    hide Num;
  }

  /** The other fields and the data of a reply that brings some. */
  lemma GetReads(file: seq<byte>, off: nat, stale: seq<byte>)
    requires off < |file|
    ensures var buf, c := Buffer(file, Delivery(Get(off), stale)), Chunk(file, off);
            var p := 2 + |Num(off)|;
            var q := p + |Num(|file|)|;
            && NumberField(buf, p, |file|, q) && NumberField(buf, q, |c|, q + |Num(|c|)|)
            && Answer(file, Get(off)) == Head(off, |file|, |c|) + c
            && At(buf, 0, Head(off, |file|, |c|)) && At(buf, |Head(off, |file|, |c|)|, c)
  {
    hide *;
    var buf, c := Buffer(file, Delivery(Get(off), stale)), Chunk(file, off);
    var h := Head(off, |file|, |c|);
    GetShape(file, off, stale);
    HeadShape(off, |file|, |c|);
    AtStart(buf);
    AtConcat(buf, 0, h + c, stale);
    AtConcat(buf, 0, h, c);
    HeadReads(buf, OK + Num(off), |file|, |c|);
  }

  lemma HeadReads(buf: seq<byte>, h1: seq<byte>, size: nat, len: nat)
    requires At(buf, 0, h1 + Num(size) + Num(len) + [NEWLINE])
    ensures var q := |h1| + |Num(size)|;
            NumberField(buf, |h1|, size, q) && NumberField(buf, q, len, q + |Num(len)|)
  {
    hide *;
    var h2 := h1 + Num(size);
    var h3 := h2 + Num(len);
    AtConcat(buf, 0, h3, [NEWLINE]);
    AtConcat(buf, 0, h2, Num(len));
    AtConcat(buf, 0, h1, Num(size));
    AtFits(buf, |h3|, [NEWLINE]);
    AtIndex(buf, |h3|, [NEWLINE], 0);
    AtIndex(buf, |h2|, Num(len), 0);
    NoDigits(buf[|h3|]);
    NoDigits(buf[|h2|]);
    FieldReads(buf, |h1|, size);
    FieldReads(buf, |h2|, len);
  }

  lemma NoDigits(b: byte)
    ensures b == SPACE || b == NEWLINE ==> !IsDigit(b)
  {
  }

  /** A header has its only newline at its end. */
  lemma HeadLine(off: nat, size: nat, len: nat)
    ensures var h := Head(off, size, len);
            |h| > 0 && h[|h| - 1] == NEWLINE && forall i :: 0 <= i < |h| - 1 ==> h[i] != NEWLINE
  {
    var h := Head(off, size, len);
    assert h == OK + Num(off) + Num(size) + Num(len) + [NEWLINE];
  }

  /**
   The parsing part of the loop: the offset the reply is for, and how many bytes it brings, from where. A
   reply without data makes the count wrap below zero: the client takes it for over two billion bytes.
   */
  method ReadGet(buf: seq<byte>, len: nat, ghost file: seq<byte>, ghost d: Delivery) returns (ok: bool, off: nat,
                 avail: nat, start: nat)
    requires Fair(d) && |file| < 0x1_0000_0000 && buf == Buffer(file, d) && len == |Answer(file, d.req)| <= MAX_REPLY
    ensures ok && off == FirstNumber(file, d.req)
    ensures HasData(file, d.req) ==>
              avail == |Chunk(file, off)| && start + avail == len && buf[start..len] == Chunk(file, off)
    ensures !HasData(file, d.req) ==> avail >= 0x8000_0000
  {
    hide NumberField, Answer, Chunk, Num, Head, Buffer;
    assert |buf| >= len by { AnswerInBuffer(file, d); }
    FirstFieldReads(file, d);
    if d.req.Get? && d.req.off < |file| {
      GetReads(file, d.req.off, d.stale);
      HeadLine(d.req.off, |file|, |Chunk(file, d.req.off)|);
    }
    ok := buf[..2] == OK;
    var p, length;
    off, p := ReadField(buf, 2);
    length, p := ReadField(buf, p);
    length, p := ReadField(buf, p);
    start := DataStart(buf, len);
    if HasData(file, d.req) {
      StartIs(buf, Head(d.req.off, |file|, |Chunk(file, d.req.off)|), start, len);
    } else {
      NoLine(file, d, start);
    }
    avail := length;
    if start + Signed(avail) > len {
      avail := (len - start) % 0x1_0000_0000;
    }
  }

  /** A number of 32 bits, taken for a signed one. */
  function Signed(v: nat): int {
    if v < 0x8000_0000 then v else v - 0x1_0000_0000
  }

  /** A reply without data has no newline, so its data start one past its end. */
  lemma NoLine(file: seq<byte>, d: Delivery, start: nat)
    requires !HasData(file, d.req)
    requires var buf, len := Buffer(file, d), |Answer(file, d.req)|;
             && 0 < start <= len + 1 <= |buf| + 1
             && (start <= len ==> buf[start - 1] == NEWLINE)
    ensures start == |Answer(file, d.req)| + 1
  {
    var a := Answer(file, d.req);
    if start <= |a| {
      assert Buffer(file, d)[start - 1] == a[start - 1];
      AnswerPlain(file, d.req, start - 1);
    }
  }

  lemma AnswerPlain(file: seq<byte>, r: Request, i: nat)
    requires !HasData(file, r) && i < |Answer(file, r)|
    ensures Answer(file, r)[i] != NEWLINE
  {
  }

  lemma AnswerInBuffer(file: seq<byte>, d: Delivery)
    ensures |Buffer(file, d)| >= |Answer(file, d.req)|
  {
  }

  /** The data start right behind the header. */
  lemma StartIs(buf: seq<byte>, h: seq<byte>, start: nat, len: nat)
    requires At(buf, 0, h) && |h| > 0 && |h| <= len <= |buf|
    requires h[|h| - 1] == NEWLINE && forall i :: 0 <= i < |h| - 1 ==> h[i] != NEWLINE
    requires 0 < start <= len + 1 && (forall i :: 0 <= i < start - 1 ==> buf[i] != NEWLINE)
    requires start <= len ==> buf[start - 1] == NEWLINE
    ensures start == |h|
  {
    AtIndex(buf, 0, h, |h| - 1);
    if start < |h| {
      AtIndex(buf, 0, h, start - 1);
    }
  }
}
