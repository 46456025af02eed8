/** From source text to tokens: what each piece of a line stands for, and what indentation adds. */
module GkText {
  import opened Options
  import opened GkSyntax

  const MAX_WORD: nat := 63
  const MAX_INDENT: nat := 64

  predicate IsDigit(c: char) {
    '0' <= c <= '9'
  }

  predicate IsAlpha(c: char) {
    'a' <= c <= 'z' || 'A' <= c <= 'Z' || c == '_'
  }

  predicate IsAlnum(c: char) {
    IsAlpha(c) || IsDigit(c)
  }

  // ----- pieces of a line -----

  /** What one step over a line brings: at most one token, and where the next step starts. */
  type Step = Option<(seq<Token>, nat)>

  function LineEnd(src: string, i: nat): (e: nat)
    requires i <= |src|
    ensures i <= e <= |src| && (e < |src| ==> src[e] == '\n') && forall k :: i <= k < e ==> src[k] != '\n'
    decreases |src| - i
  {
    if i < |src| && src[i] != '\n' then LineEnd(src, i + 1) else i
  }

  function NumberFrom(src: string, i: nat, val: int): (r: (int, nat))
    requires i <= |src|
    ensures i <= r.1 <= |src|
    decreases |src| - i
  {
    if i < |src| && IsDigit(src[i]) then NumberFrom(src, i + 1, val * 10 + (src[i] as int - '0' as int)) else (val, i)
  }

  lemma {:induction false} NumberGrows(src: string, i: nat, val: nat)
    requires i <= |src|
    ensures NumberFrom(src, i, val).0 >= val
    decreases |src| - i
  {
    if i < |src| && IsDigit(src[i]) {
      NumberGrows(src, i + 1, val * 10 + (src[i] as int - '0' as int));
    }
  }

  function Unescaped(c: char): char {
    if c == 'n' then '\n' else if c == 't' then '\t' else c
  }

  /** The text up to the closing quote, the end of the source, or the size of the buffer. */
  function TextFrom(src: string, i: nat, quote: char, buf: string): (r: (string, nat))
    requires i <= |src|
    ensures i <= r.1 <= |src|
    decreases |src| - i
  {
    if i >= |src| || src[i] == quote then (buf, i)
    else
      var esc := src[i] == '\\' && i + 1 < |src|;
      var buf' := buf + [if esc then Unescaped(src[i + 1]) else src[i]];
      var j := if esc then i + 2 else i + 1;
      if |buf'| >= MAX_TEXT then (buf', j) else TextFrom(src, j, quote, buf')
  }

  /** Past the closing quote, if the source goes on. */
  function AfterText(src: string, i: nat): (e: nat)
    requires i <= |src|
    ensures i <= e <= |src|
  {
    if i < |src| then i + 1 else i
  }

  /** A word goes on to its last letter or digit, or to the size of the buffer. */
  function WordEnd(src: string, i: nat, room: nat): (e: nat)
    requires i <= |src|
    ensures i <= e <= |src| && e - i <= room
    ensures i < |src| && IsAlnum(src[i]) && room > 0 ==> i < e
    decreases |src| - i
  {
    if i < |src| && IsAlnum(src[i]) && room > 0 then WordEnd(src, i + 1, room - 1) else i
  }

  function WordToken(word: string): Token {
    if word == "if" then IF else if word == "elif" then ELIF else if word == "else" then ELSE
    else if word == "while" then WHILE else if word == "for" then FOR else if word == "in" then IN
    else if word == "def" then DEF else if word == "return" then RETURN
    else if word == "break" then BREAK else if word == "continue" then CONTINUE
    else if word == "and" then AND else if word == "or" then OR else if word == "not" then NOT
    else if word == "True" then TRUE else if word == "False" then FALSE
    else IDENT(word)
  }

  /** The operator at `i`: two characters where they make one, else one. */
  function Operator(c: char, next: char): Option<(Token, nat)> {
    if c == '=' && next == '=' then Some((EQ, 2))
    else if c == '!' && next == '=' then Some((NEQ, 2))
    else if c == '<' && next == '=' then Some((LE, 2))
    else if c == '>' && next == '=' then Some((GE, 2))
    else if c == '+' then Some((PLUS, 1))
    else if c == '-' then Some((MINUS, 1))
    else if c == '*' then Some((STAR, 1))
    else if c == '/' then Some((SLASH, 1))
    else if c == '%' then Some((PERCENT, 1))
    else if c == '<' then Some((LT, 1))
    else if c == '>' then Some((GT, 1))
    else if c == '=' then Some((ASSIGN, 1))
    else if c == '(' then Some((LPAREN, 1))
    else if c == ')' then Some((RPAREN, 1))
    else if c == ',' then Some((COMMA, 1))
    else if c == ':' then Some((COLON, 1))
    else None
  }

  function Next(src: string, i: nat): char {
    if i + 1 < |src| then src[i + 1] else '\0'
  }

  /** One step over a line, from a character that is not its end. */
  function Piece(src: string, i: nat): (r: Step)
    requires i < |src| && src[i] != '\n'
    ensures r.Some? ==> i < r.value.1 <= |src|
  {
    var c := src[i];
    if c == ' ' || c == '\t' then Some(([], i + 1))
    else if c == '#' then Some(([], LineEnd(src, i + 1)))
    else if IsDigit(c) then
      var (val, e) := NumberFrom(src, i + 1, c as int - '0' as int);
      Some(([INT(val)], e))
    else if c == '"' || c == '\'' then
      var (text, e) := TextFrom(src, i + 1, c, "");
      Some(([STR(text)], AfterText(src, e)))
    else if IsAlpha(c) then
      var e := WordEnd(src, i, MAX_WORD);
      Some(([WordToken(src[i..e])], e))
    else
      match Operator(c, Next(src, i))
      case None => None
      case Some((t, n)) => if i + n <= |src| then Some(([t], i + n)) else None
  }

  /** The tokens of the rest of a line, and where it ends. */
  function LineFrom(src: string, i: nat): (r: Step)
    requires i <= |src|
    ensures r.Some? ==> i <= r.value.1 <= |src|
    decreases |src| - i
  {
    if i == |src| || src[i] == '\n' then Some(([], i))
    else
      match Piece(src, i)
      case None => None
      case Some((t, j)) =>
        match LineFrom(src, j)
        case None => None
        case Some((ts, k)) => Some((t + ts, k))
  }

  // ----- lines and indentation -----

  function SpacesEnd(src: string, i: nat, c: char): (e: nat)
    requires i <= |src|
    ensures i <= e <= |src| && (e < |src| ==> src[e] != c) && forall k :: i <= k < e ==> src[k] == c
    decreases |src| - i
  {
    if i < |src| && src[i] == c then SpacesEnd(src, i + 1, c) else i
  }

  /** Where a line's first piece is. */
  function Start(src: string, i: nat): (e: nat)
    requires i <= |src|
    ensures i <= e <= |src|
  {
    SpacesEnd(src, SpacesEnd(src, i, ' '), '\t')
  }

  /** A space counts one, a tab behind the spaces four. */
  function Indent(src: string, i: nat): nat
    requires i <= |src|
  {
    var s := SpacesEnd(src, i, ' ');
    s - i + 4 * (Start(src, i) - s)
  }

  predicate Blank(src: string, i: nat)
    requires i <= |src|
  {
    i == |src| || src[i] == '\n' || src[i] == '#'
  }

  /** Past the end of the line. */
  function NextLine(src: string, i: nat): (e: nat)
    requires i <= |src|
    ensures i <= e <= |src| && (i < |src| ==> i < e)
  {
    if LineEnd(src, i) < |src| then LineEnd(src, i) + 1 else |src|
  }

  ghost predicate Increasing(stack: seq<nat>) {
    && |stack| > 0 && stack[0] == 0
    && forall i, j :: 0 <= i < j < |stack| ==> stack[i] < stack[j]
  }

  /** The stack without the levels deeper than `indent`. */
  function Cut(stack: seq<nat>, indent: nat): (s: seq<nat>)
    requires |stack| > 0 && stack[0] == 0
    ensures 0 < |s| <= |stack| && s == stack[..|s|] && s[|s| - 1] <= indent
    ensures |s| < |stack| ==> indent < stack[|s|]
    decreases |stack|
  {
    if indent < stack[|stack| - 1] then Cut(stack[..|stack| - 1], indent) else stack
  }

  function Levels(stack: seq<nat>, indent: nat): (s: seq<nat>)
    requires |stack| > 0 && stack[0] == 0
    ensures |s| > 0 && s[0] == 0
  {
    if indent > stack[|stack| - 1] then stack + [indent] else Cut(stack, indent)
  }

  lemma LevelsIncrease(stack: seq<nat>, indent: nat)
    requires Increasing(stack)
    ensures Increasing(Levels(stack, indent))
  {
  }

  function Dedents(n: nat): (ts: seq<Token>)
    ensures |ts| == n && forall i :: 0 <= i < n ==> ts[i] == DEDENT
  {
    seq(n, _ => DEDENT)
  }

  function Marks(stack: seq<nat>, indent: nat): seq<Token>
    requires |stack| > 0 && stack[0] == 0
  {
    if indent > stack[|stack| - 1] then [INDENT] else Dedents(|stack| - |Cut(stack, indent)|)
  }

  /** A line's tokens behind its indentation, and where the next line starts. */
  function RowFrom(src: string, i: nat): (r: Step)
    requires i <= |src|
    ensures r.Some? ==> i <= r.value.1 <= |src| && (i < |src| ==> i < r.value.1)
  {
    match LineFrom(src, Start(src, i))
    case None => None
    case Some((ts, k)) => Some((ts, if k < |src| then k + 1 else k))
  }

  /** All tokens from line start `i` on; None where some character starts no token. */
  function LinesFrom(src: string, i: nat, stack: seq<nat>): Option<seq<Token>>
    requires i <= |src| && |stack| > 0 && stack[0] == 0
    decreases |src| - i
  {
    if i == |src| then Some(Dedents(|stack| - 1) + [EOF])
    else if Blank(src, Start(src, i)) then LinesFrom(src, NextLine(src, Start(src, i)), stack)
    else
      match RowFrom(src, i)
      case None => None
      case Some((ts, next)) =>
        match LinesFrom(src, next, Levels(stack, Indent(src, i)))
        case None => None
        case Some(rest) => Some(Marks(stack, Indent(src, i)) + ts + [NEWLINE] + rest)
  }

  // ----- what the source must not exceed, since nothing checks it -----

  /** A number fits into 32 bits. */
  predicate PieceFits(src: string, i: nat)
    requires i < |src|
  {
    IsDigit(src[i]) ==> InInt(NumberFrom(src, i + 1, src[i] as int - '0' as int).0)
  }

  predicate LineFits(src: string, i: nat)
    requires i <= |src|
    decreases |src| - i
  {
    i == |src| || src[i] == '\n'
    || (PieceFits(src, i) && (Piece(src, i).Some? ==> LineFits(src, Piece(src, i).value.1)))
  }

  /** From line start `i` on, the indentation stack stays within its array and every number within 32 bits. */
  predicate LinesFit(src: string, i: nat, stack: seq<nat>)
    requires i <= |src| && |stack| > 0 && stack[0] == 0
    decreases |src| - i
  {
    if i == |src| then true
    else if Blank(src, Start(src, i)) then LinesFit(src, NextLine(src, Start(src, i)), stack)
    else
      && |Levels(stack, Indent(src, i))| <= MAX_INDENT
      && LineFits(src, Start(src, i))
      && (RowFrom(src, i).Some? ==> LinesFit(src, RowFrom(src, i).value.1, Levels(stack, Indent(src, i))))
  }

  predicate WithinLimits(src: string) {
    LinesFit(src, 0, [0])
  }

  function Tokens(src: string): Option<seq<Token>> {
    LinesFrom(src, 0, [0])
  }

  // ----- indentation marks balance -----

  function Net(ts: seq<Token>): int {
    if ts == [] then 0
    else Net(ts[..|ts| - 1]) + if ts[|ts| - 1] == INDENT then 1 else if ts[|ts| - 1] == DEDENT then -1 else 0
  }

  lemma {:induction false} NetConcat(a: seq<Token>, b: seq<Token>)
    ensures Net(a + b) == Net(a) + Net(b)
    decreases |b|
  {
    if b == [] {
      assert a + b == a;
    } else {
      assert (a + b)[..|a + b| - 1] == a + b[..|b| - 1];
      NetConcat(a, b[..|b| - 1]);
    }
  }

  /** No prefix closes more than `open` blocks beyond those it opens. */
  ghost predicate Floor(ts: seq<Token>, open: int) {
    forall k :: 0 <= k <= |ts| ==> Net(ts[..k]) >= -open
  }

  lemma FloorConcat(a: seq<Token>, b: seq<Token>, open: int)
    requires Floor(a, open) && Floor(b, open + Net(a))
    ensures Floor(a + b, open) && Net(a + b) == Net(a) + Net(b)
  {
    NetConcat(a, b);
    forall k | 0 <= k <= |a + b| ensures Net((a + b)[..k]) >= -open {
      if k <= |a| {
        assert (a + b)[..k] == a[..k];
      } else {
        assert (a + b)[..k] == a + b[..k - |a|];
        NetConcat(a, b[..k - |a|]);
      }
    }
  }

  predicate NoMarks(ts: seq<Token>) {
    forall i :: 0 <= i < |ts| ==> ts[i] != INDENT && ts[i] != DEDENT && ts[i] != EOF
  }

  lemma {:induction false} NetPlain(ts: seq<Token>)
    requires NoMarks(ts)
    ensures Net(ts) == 0
  {
    if ts != [] {
      NetPlain(ts[..|ts| - 1]);
    }
  }

  lemma FloorPlain(ts: seq<Token>)
    requires NoMarks(ts)
    ensures Floor(ts, 0) && Net(ts) == 0
  {
    forall k | 0 <= k <= |ts| ensures Net(ts[..k]) >= 0 {
      NetPlain(ts[..k]);
    }
    assert ts[..|ts|] == ts;
  }

  lemma {:induction false} NetDedents(n: nat)
    ensures Net(Dedents(n)) == 0 - n
  {
    if n > 0 {
      assert Dedents(n)[..n - 1] == Dedents(n - 1);
      NetDedents(n - 1);
    }
  }

  lemma FloorDedents(n: nat)
    ensures Floor(Dedents(n), n) && Net(Dedents(n)) == 0 - n
  {
    NetDedents(n);
    forall k | 0 <= k <= n ensures Net(Dedents(n)[..k]) >= 0 - n {
      assert Dedents(n)[..k] == Dedents(k);
      NetDedents(k);
    }
  }

  lemma FloorMarks(stack: seq<nat>, indent: nat)
    requires |stack| > 0 && stack[0] == 0
    ensures Floor(Marks(stack, indent), |stack| - 1) && Net(Marks(stack, indent)) == |Levels(stack, indent)| - |stack|
    ensures NoEof(Marks(stack, indent))
  {
    if indent > stack[|stack| - 1] {
      assert [INDENT][..0] == [] && [INDENT][..1] == [INDENT];
      assert Net([INDENT]) == 1;
    } else {
      FloorDedents(|stack| - |Cut(stack, indent)|);
    }
  }

  lemma {:induction false} LinePlain(src: string, i: nat)
    requires i <= |src|
    ensures LineFrom(src, i).Some? ==> NoMarks(LineFrom(src, i).value.0)
    decreases |src| - i
  {
    if i < |src| && src[i] != '\n' && Piece(src, i).Some? {
      var (t, j) := Piece(src, i).value;
      PiecePlain(src, i);
      LinePlain(src, j);
    }
  }

  lemma RowPlain(src: string, i: nat)
    requires i <= |src| && RowFrom(src, i).Some?
    ensures NoMarks(RowFrom(src, i).value.0)
  {
    LinePlain(src, Start(src, i));
    hide LineFrom, NoMarks;
  }

  lemma PiecePlain(src: string, i: nat)
    requires i < |src| && src[i] != '\n' && Piece(src, i).Some?
    ensures NoMarks(Piece(src, i).value.0)
  {
    hide LineEnd, NumberFrom, TextFrom, WordEnd;
  }

  lemma LinesStep(src: string, i: nat, stack: seq<nat>)
    requires i < |src| && |stack| > 0 && stack[0] == 0 && !Blank(src, Start(src, i)) && LinesFrom(src, i, stack).Some?
    ensures RowFrom(src, i).Some?
    ensures var (ts, next) := RowFrom(src, i).value;
            var rest := LinesFrom(src, next, Levels(stack, Indent(src, i)));
            rest.Some? && LinesFrom(src, i, stack).value == Marks(stack, Indent(src, i)) + ts + [NEWLINE] + rest.value
  {
    hide RowFrom, Start, Indent, Blank, Marks, Levels;
  }

  /** The only EOF is at the end. */
  predicate Sealed(ts: seq<Token>) {
    ts != [] && ts[|ts| - 1] == EOF && forall k :: 0 <= k < |ts| - 1 ==> ts[k] != EOF
  }

  lemma SealedConcat(a: seq<Token>, b: seq<Token>)
    requires Sealed(b) && NoEof(a)
    ensures Sealed(a + b)
  {
  }

  /** What the tokens from a line start on do, with `open` blocks open there. */
  ghost predicate Closes(ts: seq<Token>, open: int) {
    Floor(ts, open) && Net(ts) == -open && Sealed(ts)
  }

  lemma EndCloses(n: nat)
    ensures Closes(Dedents(n) + [EOF], n)
  {
    FloorDedents(n);
    FloorPlainEof();
    hide Net, Floor;
    FloorConcat(Dedents(n), [EOF], n);
    SealedConcat(Dedents(n), [EOF]);
  }

  lemma FloorPlainEof()
    ensures Floor([EOF], 0) && Net([EOF]) == 0
  {
    assert [EOF][..0] == [] && [EOF][..1] == [EOF];
  }

  lemma FloorUp(ts: seq<Token>, a: int, b: int)
    requires Floor(ts, a) && a <= b
    ensures Floor(ts, b)
  {
  }

  predicate NoEof(ts: seq<Token>) {
    forall k :: 0 <= k < |ts| ==> ts[k] != EOF
  }

  lemma LineEndsPlain(m: seq<Token>, ts: seq<Token>)
    requires NoMarks(ts) && NoEof(m)
    ensures NoMarks(ts + [NEWLINE]) && NoEof(m + (ts + [NEWLINE]))
  {
  }

  /** A line in front of tokens that close what is open behind it. */
  lemma LineCloses(m: seq<Token>, ts: seq<Token>, rest: seq<Token>, open: int, inner: int)
    requires Floor(m, open) && Net(m) == inner - open && NoMarks(ts) && Closes(rest, inner) && inner >= 0 && NoEof(m)
    ensures Closes(m + ts + [NEWLINE] + rest, open)
  {
    hide Net, Floor, NoMarks, NoEof, Sealed;
    var mid := ts + [NEWLINE];
    LineEndsPlain(m, ts);
    FloorPlain(mid);
    FloorUp(mid, 0, inner);
    FloorConcat(m, mid, open);
    FloorConcat(m + mid, rest, open);
    SealedConcat(m + mid, rest);
    assert m + mid + rest == m + ts + [NEWLINE] + rest;
  }

  lemma NoLines(src: string, stack: seq<nat>)
    requires |stack| > 0 && stack[0] == 0
    ensures LinesFrom(src, |src|, stack) == Some(Dedents(|stack| - 1) + [EOF])
  {
  }

  lemma BlankLine(src: string, i: nat, stack: seq<nat>)
    requires i < |src| && |stack| > 0 && stack[0] == 0 && Blank(src, Start(src, i))
    ensures i < NextLine(src, Start(src, i))
    ensures LinesFrom(src, i, stack) == LinesFrom(src, NextLine(src, Start(src, i)), stack)
  {
  }

  /** From a line start with `|stack| - 1` blocks open, the tokens close exactly those, and never more. */
  lemma {:induction false} LinesClose(src: string, i: nat, stack: seq<nat>)
    requires i <= |src| && |stack| > 0 && stack[0] == 0 && LinesFrom(src, i, stack).Some?
    ensures Closes(LinesFrom(src, i, stack).value, |stack| - 1)
    decreases |src| - i
  {
    hide *;
    if i == |src| {
      NoLines(src, stack);
      EndCloses(|stack| - 1);
    } else if Blank(src, Start(src, i)) {
      BlankLine(src, i, stack);
      LinesClose(src, NextLine(src, Start(src, i)), stack);
    } else {
      LinesStep(src, i, stack);
      var (ts, next) := RowFrom(src, i).value;
      var indent := Indent(src, i);
      LinesClose(src, next, Levels(stack, indent));
      RowPlain(src, i);
      FloorMarks(stack, indent);
      LineCloses(Marks(stack, indent), ts, LinesFrom(src, next, Levels(stack, indent)).value, |stack| - 1,
          |Levels(stack, indent)| - 1);
    }
  }

  /** Every token sequence opens and closes the same number of blocks, closes none before it is open,
      and ends with the only EOF. */
  lemma TokensBalance(src: string)
    requires Tokens(src).Some?
    ensures var ts := Tokens(src).value;
            Sealed(ts) && Net(ts) == 0 && forall k :: 0 <= k <= |ts| ==> Net(ts[..k]) >= 0
  {
    hide LinesFrom, Net;
    LinesClose(src, 0, [0]);
  }
}
