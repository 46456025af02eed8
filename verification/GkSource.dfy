/** Programs as source text: the layout the syntax guide asks for, and the proof that lexing it gives the
    tokens of the program. */
module GkSource {
  import opened Options
  import opened GkSyntax
  import opened GkGrammar
  import opened GkPrint
  import opened GkPrintStmt
  import opened GkMeaning
  import opened GkText
  import opened Places

  // ----- words -----

  /** A name: a letter or underscore, then letters, digits and underscores; no keyword. */
  predicate IsName(s: string) {
    1 <= |s| <= MAX_WORD && IsAlpha(s[0]) && (forall i :: 0 <= i < |s| ==> IsAlnum(s[i])) && WordToken(s) == IDENT(s)
  }

  function Quoted(c: char): (q: string)
    ensures 1 <= |q| <= 2
  {
    if c == '\n' then "\\n" else if c == '\t' then "\\t"
    else if c == '\\' then "\\\\" else if c == '"' then "\\\"" else [c]
  }

  function QuotedAll(s: string): string {
    if s == "" then "" else Quoted(s[0]) + QuotedAll(s[1..])
  }

  predicate Writable(t: Token) {
    if t.INT? then t.value >= 0
    else if t.STR? then |t.text| <= MAX_TEXT
    else if t.IDENT? then IsName(t.name)
    else t != NEWLINE && t != INDENT && t != DEDENT && t != EOF
  }

  function Word(t: Token): string {
    match t
    case INT(n) => if n < 0 then "" else Digits(n)
    case STR(s) => "\"" + QuotedAll(s) + "\""
    case IDENT(name) => name
    case PLUS => "+" case MINUS => "-" case STAR => "*" case SLASH => "/" case PERCENT => "%"
    case EQ => "==" case NEQ => "!=" case LT => "<" case LE => "<=" case GT => ">" case GE => ">="
    case AND => "and" case OR => "or" case NOT => "not"
    case ASSIGN => "=" case LPAREN => "(" case RPAREN => ")" case COMMA => "," case COLON => ":"
    case IF => "if" case ELIF => "elif" case ELSE => "else" case WHILE => "while" case FOR => "for" case IN => "in"
    case DEF => "def" case RETURN => "return" case BREAK => "break" case CONTINUE => "continue"
    case TRUE => "True" case FALSE => "False"
    case _ => ""
  }

  // numbers

  lemma {:induction false} DigitsDigits(n: nat)
    ensures |Digits(n)| > 0 && forall i :: 0 <= i < |Digits(n)| ==> IsDigit(Digits(n)[i])
  {
    if n >= 10 {
      DigitsDigits(n / 10);
    }
  }

  function ValueOf(s: string, acc: int): int {
    if s == "" then acc else ValueOf(s[1..], acc * 10 + (s[0] as int - '0' as int))
  }

  lemma {:induction false} ValueSnoc(s: string, c: char, acc: int)
    ensures ValueOf(s + [c], acc) == ValueOf(s, acc) * 10 + (c as int - '0' as int)
    decreases |s|
  {
    if s == "" {
      assert (s + [c])[1..] == "";
    } else {
      assert (s + [c])[1..] == s[1..] + [c];
      ValueSnoc(s[1..], c, acc * 10 + (s[0] as int - '0' as int));
    }
  }

  lemma {:induction false} DigitsValue(n: nat)
    ensures ValueOf(Digits(n), 0) == n
  {
    if n < 10 {
      assert Digits(n)[1..] == "";
    } else {
      DigitsValue(n / 10);
      ValueSnoc(Digits(n / 10), '0' + (n % 10) as char, 0);
    }
  }

  lemma {:induction false} NumberReads(src: string, i: nat, s: string, acc: int)
    requires At(src, i, s) && (forall k :: 0 <= k < |s| ==> IsDigit(s[k])) && i + |s| < |src| && !IsDigit(src[i + |s|])
    ensures NumberFrom(src, i, acc) == (ValueOf(s, acc), i + |s|)
    decreases |s|
  {
    if s != "" {
      AtIndex(src, i, s, 0);
      assert s == [s[0]] + s[1..];
      AtConcat(src, i, [s[0]], s[1..]);
      NumberReads(src, i + 1, s[1..], acc * 10 + (s[0] as int - '0' as int));
    }
  }

  // strings

  lemma {:induction false} TextReads(src: string, i: nat, s: string, buf: string)
    requires At(src, i, QuotedAll(s) + "\"") && |buf| + |s| <= MAX_TEXT && |buf| < MAX_TEXT
    ensures TextFrom(src, i, '"', buf) == (buf + s, i + |QuotedAll(s)|)
    decreases |s|
  {
    if s == "" {
      TextEnds(src, i, buf);
      assert buf + s == buf;
    } else {
      hide TextFrom, At;
      var q, rest := Quoted(s[0]), QuotedAll(s[1..]) + "\"";
      assert QuotedAll(s) + "\"" == q + rest;
      CharReads(src, i, s[0], rest, buf);
      AtConcat(src, i, q, rest);
      assert buf + [s[0]] + s[1..] == buf + s;
      if |buf| + 1 < MAX_TEXT {
        TextReads(src, i + |q|, s[1..], buf + [s[0]]);
      } else {
        assert s[1..] == "" && QuotedAll("") == "";
        assert QuotedAll(s) == q && s == [s[0]];
      }
    }
  }

  lemma TextEnds(src: string, i: nat, buf: string)
    requires At(src, i, QuotedAll("") + "\"")
    ensures TextFrom(src, i, '"', buf) == (buf, i) && QuotedAll("") == ""
  {
    AtIndex(src, i, "\"", 0);
  }

  /** One character, escaped if need be. */
  lemma CharReads(src: string, i: nat, c: char, rest: string, buf: string)
    requires At(src, i, Quoted(c) + rest) && |buf| < MAX_TEXT && rest != ""
    ensures i + |Quoted(c)| <= |src|
    ensures TextFrom(src, i, '"', buf)
         == if |buf| + 1 >= MAX_TEXT then (buf + [c], i + |Quoted(c)|)
             else TextFrom(src, i + |Quoted(c)|, '"', buf + [c])
  {
    AtFits(src, i, Quoted(c) + rest);
    AtIndex(src, i, Quoted(c) + rest, 0);
    AtIndex(src, i, Quoted(c) + rest, 1);
  }

  // names and keywords

  lemma {:induction false} WordReads(src: string, i: nat, s: string, room: nat)
    requires At(src, i, s) && (forall k :: 0 <= k < |s| ==> IsAlnum(s[k])) && |s| <= room
    requires i + |s| < |src| && !IsAlnum(src[i + |s|])
    ensures WordEnd(src, i, room) == i + |s|
    decreases |s|
  {
    if s != "" {
      AtIndex(src, i, s, 0);
      assert s == [s[0]] + s[1..];
      AtConcat(src, i, [s[0]], s[1..]);
      WordReads(src, i + 1, s[1..], room - 1);
    }
  }

  predicate IsKeyword(t: Token) {
    t == IF || t == ELIF || t == ELSE || t == WHILE || t == FOR || t == IN || t == DEF || t == RETURN
    || t == BREAK || t == CONTINUE || t == AND || t == OR || t == NOT || t == TRUE || t == FALSE
  }

  lemma KeywordWord(t: Token)
    requires IsKeyword(t)
    ensures var w := Word(t);
            1 <= |w| <= MAX_WORD && IsAlpha(w[0]) && (forall i :: 0 <= i < |w| ==> IsAlnum(w[i])) && WordToken(w) == t
  {
  }

  lemma ReadKeyword(src: string, i: nat, t: Token)
    requires IsKeyword(t) && At(src, i, Word(t)) && i + |Word(t)| < |src| && src[i + |Word(t)|] == ' '
    ensures IsAlpha(src[i]) && Piece(src, i) == Some(([t], i + |Word(t)|))
  {
    KeywordWord(t);
    hide *;
    ReadAlpha(src, i, Word(t), t);
  }

  /** A word in front of a space is read as its token. */
  lemma ReadWord(src: string, i: nat, t: Token)
    requires Writable(t) && At(src, i, Word(t) + " ")
    ensures var j := i + |Word(t)|;
            i < j < |src| && src[j] == ' ' && src[i] != '\n' && src[i] != ' ' && src[i] != '\t' && src[i] != '#'
            && Piece(src, i) == Some(([t], j))
  {
    AtConcat(src, i, Word(t), " ");
    AtFits(src, i + |Word(t)|, " ");
    AtIndex(src, i + |Word(t)|, " ", 0);
    if t.INT? {
      ReadNumber(src, i, t.value);
    } else if t.STR? {
      ReadText(src, i, t.text);
    } else if t.IDENT? {
      ReadAlpha(src, i, t.name, t);
    } else if IsKeyword(t) {
      ReadKeyword(src, i, t);
    } else {
      ReadOperator(src, i, t);
    }
  }

  lemma ReadNumber(src: string, i: nat, n: nat)
    requires At(src, i, Digits(n)) && i + |Digits(n)| < |src| && src[i + |Digits(n)|] == ' '
    ensures |Digits(n)| > 0 && IsDigit(src[i]) && Piece(src, i) == Some(([INT(n)], i + |Digits(n)|))
  {
    var s := Digits(n);
    DigitsDigits(n);
    DigitsValue(n);
    hide Digits;
    AtIndex(src, i, s, 0);
    NumberReads(src, i, s, 0);
  }

  lemma ReadText(src: string, i: nat, s: string)
    requires At(src, i, "\"" + QuotedAll(s) + "\"") && |s| <= MAX_TEXT
    ensures i < |src| && src[i] == '"' && Piece(src, i) == Some(([STR(s)], i + |QuotedAll(s)| + 2))
  {
    var q := QuotedAll(s);
    hide QuotedAll;
    assert "\"" + q + "\"" == "\"" + (q + "\"");
    AtConcat(src, i, "\"", q + "\"");
    AtIndex(src, i, "\"", 0);
    AtFits(src, i + 1, q + "\"");
    TextReads(src, i + 1, s, "");
    assert "" + s == s;
  }

  lemma ReadAlpha(src: string, i: nat, w: string, t: Token)
    requires At(src, i, w) && 1 <= |w| <= MAX_WORD && IsAlpha(w[0]) && (forall k :: 0 <= k < |w| ==> IsAlnum(w[k]))
    requires WordToken(w) == t
    requires i + |w| < |src| && src[i + |w|] == ' '
    ensures IsAlpha(src[i]) && Piece(src, i) == Some(([t], i + |w|))
  {
    hide WordToken;
    AtIndex(src, i, w, 0);
    AtSlice(src, i, w);
    WordReads(src, i, w, MAX_WORD);
  }

  lemma ReadOperator(src: string, i: nat, t: Token)
    requires Writable(t) && !t.INT? && !t.STR? && !t.IDENT? && !IsKeyword(t)
    requires At(src, i, Word(t)) && i + |Word(t)| < |src| && src[i + |Word(t)|] == ' '
    ensures |Word(t)| > 0 && src[i] != '\n' && src[i] != ' ' && src[i] != '\t' && src[i] != '#'
    ensures Piece(src, i) == Some(([t], i + |Word(t)|))
  {
    AtIndex(src, i, Word(t), 0);
    if |Word(t)| > 1 {
      ReadPair(src, i, t);
    }
  }

  lemma ReadPair(src: string, i: nat, t: Token)
    requires Writable(t) && !t.INT? && !t.STR? && !t.IDENT? && !IsKeyword(t) && |Word(t)| > 1
    requires At(src, i, Word(t)) && i + |Word(t)| < |src| && src[i + |Word(t)|] == ' '
    ensures src[i] != '\n' && src[i] != ' ' && src[i] != '\t' && src[i] != '#'
    ensures Piece(src, i) == Some(([t], i + |Word(t)|))
  {
    AtIndex(src, i, Word(t), 0);
    AtIndex(src, i, Word(t), 1);
  }

  // ----- lines -----

  ghost predicate AllWritable(ts: seq<Token>) {
    forall i :: 0 <= i < |ts| ==> Writable(ts[i])
  }

  /** The tokens of a line, each with a space behind it. */
  function Words(ts: seq<Token>): string {
    if ts == [] then "" else (Word(ts[0]) + " ") + Words(ts[1..])
  }

  function Spaces(n: nat): (s: string)
    ensures |s| == n && forall i :: 0 <= i < n ==> s[i] == ' '
  {
    seq(n, _ => ' ')
  }

  /** A line at a depth: four spaces per level. */
  function Row(depth: nat, ts: seq<Token>): string {
    Spaces(4 * depth) + (Words(ts) + "\n")
  }

  lemma PieceSpace(src: string, i: nat)
    requires i < |src| && src[i] == ' '
    ensures Piece(src, i).Some? && Piece(src, i).value.0 == [] && Piece(src, i).value.1 == i + 1
  {
  }

  /** A word and its space are two steps. */
  lemma LineTakes(src: string, i: nat, t: Token, j: nat)
    requires i < |src| && src[i] != '\n' && j < |src| && src[j] == ' ' && Piece(src, i) == Some(([t], j))
    ensures LineFrom(src, i) == if LineFrom(src, j + 1).None? then None
                                else Some(([t] + LineFrom(src, j + 1).value.0, LineFrom(src, j + 1).value.1))
  {
    PieceSpace(src, j);
    hide Piece;
    var rest := LineFrom(src, j + 1);
    assert LineFrom(src, j) == (if rest.None? then None else Some(([] + rest.value.0, rest.value.1)));
    if rest.Some? {
      assert [] + rest.value.0 == rest.value.0;
    }
  }

  lemma LineStops(src: string, i: nat)
    requires i < |src| && src[i] == '\n'
    ensures LineFrom(src, i) == Some(([], i))
  {
  }

  lemma {:induction false} ReadWords(src: string, i: nat, ts: seq<Token>)
    requires AllWritable(ts) && At(src, i, Words(ts) + "\n")
    ensures i + |Words(ts)| < |src| && LineFrom(src, i) == Some((ts, i + |Words(ts)|))
    decreases |ts|
  {
    hide *;
    AtFits(src, i, Words(ts) + "\n");
    if ts == [] {
      NoWords();
      AtIndex(src, i, Words(ts) + "\n", 0);
      LineStops(src, i);
    } else {
      var w := Word(ts[0]) + " ";
      WordsStep(ts);
      AtConcat(src, i, w, Words(ts[1..]) + "\n");
      ReadWord(src, i, ts[0]);
      ReadWords(src, i + |w|, ts[1..]);
      LineTakes(src, i, ts[0], i + |w| - 1);
      assert [ts[0]] + ts[1..] == ts;
    }
  }

  lemma NoWords()
    ensures Words([]) == ""
  {
  }

  lemma WordsStep(ts: seq<Token>)
    requires ts != [] && AllWritable(ts)
    ensures Writable(ts[0]) && AllWritable(ts[1..])
    ensures Words(ts) + "\n" == (Word(ts[0]) + " ") + (Words(ts[1..]) + "\n")
    ensures |Words(ts)| == |Word(ts[0]) + " "| + |Words(ts[1..])|
  {
    hide Word, Writable;
  }

  lemma {:induction false} SpacesRead(src: string, i: nat, n: nat)
    requires At(src, i, Spaces(n)) && i + n < |src| && src[i + n] != ' '
    ensures SpacesEnd(src, i, ' ') == i + n
    decreases n
  {
    if n > 0 {
      AtIndex(src, i, Spaces(n), 0);
      assert Spaces(n) == [' '] + Spaces(n - 1);
      AtConcat(src, i, [' '], Spaces(n - 1));
      SpacesRead(src, i + 1, n - 1);
    }
  }

  /** Where a row with something on it starts and how deep it is. */
  lemma RowStarts(src: string, i: nat, depth: nat, ts: seq<Token>)
    requires ts != [] && AllWritable(ts) && At(src, i, Row(depth, ts))
    ensures var j := i + 4 * depth;
            && i <= |src| && j < |src| && Start(src, i) == j && Indent(src, i) == 4 * depth && !Blank(src, j)
            && At(src, j, Words(ts) + "\n") && i + |Row(depth, ts)| == j + |Words(ts)| + 1
  {
    var j := i + 4 * depth;
    hide Words, Word, Writable, AllWritable;
    AtConcat(src, i, Spaces(4 * depth), Words(ts) + "\n");
    FirstWord(src, j, ts);
    SpacesRead(src, i, 4 * depth);
    assert SpacesEnd(src, j, '\t') == j;
  }

  lemma FirstWord(src: string, j: nat, ts: seq<Token>)
    requires ts != [] && AllWritable(ts) && At(src, j, Words(ts) + "\n")
    ensures j < |src| && src[j] != '\n' && src[j] != ' ' && src[j] != '\t' && src[j] != '#'
  {
    hide Word, Writable;
    var w := Word(ts[0]) + " ";
    assert Words(ts) + "\n" == w + (Words(ts[1..]) + "\n");
    AtConcat(src, j, w, Words(ts[1..]) + "\n");
    ReadWord(src, j, ts[0]);
  }

  // ----- the indentation stack of a layout -----

  /** Four spaces per level. */
  function Levels4(depth: nat): (s: seq<nat>)
    ensures |s| == depth + 1 && s[0] == 0 && forall k :: 0 <= k <= depth ==> s[k] == 4 * k
  {
    seq(depth + 1, k requires k >= 0 => 4 * k)
  }

  lemma {:induction false} CutLevels(depth: nat, e: nat)
    requires e <= depth
    ensures Cut(Levels4(depth), 4 * e) == Levels4(e)
    decreases depth
  {
    if e < depth {
      assert Levels4(depth)[..depth] == Levels4(depth - 1);
      CutLevels(depth - 1, e);
    }
  }

  lemma LevelsAt(depth: nat, e: nat)
    ensures e <= depth ==>
            Marks(Levels4(depth), 4 * e) == Dedents(depth - e) && Levels(Levels4(depth), 4 * e) == Levels4(e)
    ensures e == depth + 1 ==> Marks(Levels4(depth), 4 * e) == [INDENT] && Levels(Levels4(depth), 4 * e) == Levels4(e)
  {
    if e <= depth {
      CutLevels(depth, e);
    } else if e == depth + 1 {
      assert Levels4(depth) + [4 * e] == Levels4(e);
    }
  }

  /** The end of the source, or a row no deeper than `depth`. */
  ghost predicate Shallow(src: string, i: nat, depth: nat) {
    i == |src| || exists e: nat :: e <= depth && RowAt(src, i, e)
  }

  /** A row of depth `e` that is not blank and lexes. */
  ghost predicate RowAt(src: string, i: nat, e: nat) {
    && i < |src| && Indent(src, i) == 4 * e && Start(src, i) < |src| && !Blank(src, Start(src, i))
  }

  function Prefixed(ts: seq<Token>, o: Option<seq<Token>>): Option<seq<Token>> {
    if o.None? then None else Some(ts + o.value)
  }

  lemma PrefixedTwice(a: seq<Token>, b: seq<Token>, o: Option<seq<Token>>)
    ensures Prefixed(a, Prefixed(b, o)) == Prefixed(a + b, o)
  {
    if o.Some? {
      assert a + (b + o.value) == a + b + o.value;
    }
  }

  /** What a row gives: its marks, its tokens, the line end, and the rows below. */
  lemma RowGives(src: string, i: nat, e: nat, stack: seq<nat>)
    requires RowAt(src, i, e) && |stack| > 0 && stack[0] == 0 && Levels(stack, 4 * e) == Levels4(e)
    ensures LinesFrom(src, i, stack)
         == if RowFrom(src, i).None? then None
            else Prefixed(Marks(stack, 4 * e) + (RowFrom(src, i).value.0 + [NEWLINE]),
                LinesFrom(src, RowFrom(src, i).value.1, Levels4(e)))
  {
    hide Start, Indent, RowFrom, Marks, Levels, Levels4, Blank;
    if RowFrom(src, i).Some? {
      var (ts, next) := RowFrom(src, i).value;
      assert Marks(stack, 4 * e) + ts + [NEWLINE] == Marks(stack, 4 * e) + (ts + [NEWLINE]);
    }
  }

  /** Under any stack: its marks, then the same as under the stack of its depth. */
  lemma RowUnder(src: string, i: nat, e: nat, stack: seq<nat>)
    requires RowAt(src, i, e) && |stack| > 0 && stack[0] == 0 && Levels(stack, 4 * e) == Levels4(e)
    ensures LinesFrom(src, i, stack) == Prefixed(Marks(stack, 4 * e), LinesFrom(src, i, Levels4(e)))
  {
    LevelsAt(e, e);
    RowGives(src, i, e, stack);
    RowGives(src, i, e, Levels4(e));
    hide RowAt, LinesFrom, RowFrom, Marks, Levels, Levels4;
    if RowFrom(src, i).Some? {
      var (ts, next) := RowFrom(src, i).value;
      assert Dedents(0) + (ts + [NEWLINE]) == ts + [NEWLINE];
      PrefixedTwice(Marks(stack, 4 * e), ts + [NEWLINE], LinesFrom(src, next, Levels4(e)));
    }
  }

  lemma DedentsNext(n: nat)
    ensures Dedents(n + 1) == [DEDENT] + Dedents(n)
  {
  }

  /** One level too many on the stack costs one DEDENT. */
  lemma CloseBlock(src: string, i: nat, depth: nat)
    requires i <= |src| && Shallow(src, i, depth)
    ensures LinesFrom(src, i, Levels4(depth + 1)) == Prefixed([DEDENT], LinesFrom(src, i, Levels4(depth)))
  {
    if i == |src| {
      CloseLast(src, depth);
    } else {
      hide LinesFrom, RowAt, Prefixed;
      var e: nat :| e <= depth && RowAt(src, i, e);
      CloseRow(src, i, depth, e);
    }
  }

  lemma CloseRow(src: string, i: nat, depth: nat, e: nat)
    requires i <= |src| && e <= depth && RowAt(src, i, e)
    ensures LinesFrom(src, i, Levels4(depth + 1)) == Prefixed([DEDENT], LinesFrom(src, i, Levels4(depth)))
  {
    hide LinesFrom, Marks, Levels, RowAt, Prefixed, Dedents;
    LevelsAt(depth + 1, e);
    LevelsAt(depth, e);
    RowUnder(src, i, e, Levels4(depth + 1));
    RowUnder(src, i, e, Levels4(depth));
    DedentsNext(depth - e);
    PrefixedTwice([DEDENT], Dedents(depth - e), LinesFrom(src, i, Levels4(e)));
  }

  lemma CloseLast(src: string, depth: nat)
    ensures LinesFrom(src, |src|, Levels4(depth + 1)) == Prefixed([DEDENT], LinesFrom(src, |src|, Levels4(depth)))
  {
    NoLines(src, Levels4(depth + 1));
    NoLines(src, Levels4(depth));
    DedentsNext(depth);
    hide LinesFrom, Dedents;
    assert [DEDENT] + (Dedents(depth) + [EOF]) == [DEDENT] + Dedents(depth) + [EOF];
  }

  /** A deeper row opens a block. */
  lemma OpenBlock(src: string, i: nat, depth: nat)
    requires RowAt(src, i, depth + 1)
    ensures LinesFrom(src, i, Levels4(depth)) == Prefixed([INDENT], LinesFrom(src, i, Levels4(depth + 1)))
  {
    hide LinesFrom, Marks, Levels, RowAt;
    LevelsAt(depth, depth + 1);
    RowUnder(src, i, depth + 1, Levels4(depth));
  }

  /** A row of the current depth gives its tokens and a line end. */
  lemma ReadRow(src: string, i: nat, depth: nat, ts: seq<Token>)
    requires ts != [] && AllWritable(ts) && At(src, i, Row(depth, ts))
    ensures i + |Row(depth, ts)| <= |src| && RowAt(src, i, depth)
    ensures LinesFrom(src, i, Levels4(depth))
            == Prefixed(ts + [NEWLINE], LinesFrom(src, i + |Row(depth, ts)|, Levels4(depth)))
  {
    hide *;
    AtFits(src, i, Row(depth, ts));
    RowStarts(src, i, depth, ts);
    ReadWords(src, i + 4 * depth, ts);
    RowThere(src, i, depth, ts, i + 4 * depth + |Words(ts)|);
    RowLines(src, i, depth, ts, i + 4 * depth + |Words(ts)| + 1);
  }

  lemma RowThere(src: string, i: nat, depth: nat, ts: seq<Token>, k: nat)
    requires i < |src| && Start(src, i) < |src| && Indent(src, i) == 4 * depth && !Blank(src, Start(src, i))
    requires LineFrom(src, Start(src, i)) == Some((ts, k)) && k < |src|
    ensures RowAt(src, i, depth) && RowFrom(src, i) == Some((ts, k + 1))
  {
    hide Start, Indent, Blank, LineFrom;
  }

  lemma RowLines(src: string, i: nat, depth: nat, ts: seq<Token>, next: nat)
    requires RowAt(src, i, depth) && RowFrom(src, i) == Some((ts, next)) && next <= |src|
    ensures LinesFrom(src, i, Levels4(depth)) == Prefixed(ts + [NEWLINE], LinesFrom(src, next, Levels4(depth)))
  {
    LevelsAt(depth, depth);
    RowGives(src, i, depth, Levels4(depth));
    hide RowFrom, LinesFrom, Marks, Levels, Levels4, RowAt, Prefixed;
    assert Dedents(0) + (ts + [NEWLINE]) == ts + [NEWLINE];
  }

  // ----- statements as text -----

  /** What the syntax guide allows: integers without sign, names, strings that fit. */
  predicate ExprOk(e: Expr)
    decreases e
  {
    match e
    case IntLit(n) => n >= 0
    case StrLit(s) => |s| <= MAX_TEXT
    case BoolLit(_) => true
    case Var(name) => IsName(name)
    case Call(f, args) => IsName(f) && ExprsOk(args)
    case Un(_, x) => ExprOk(x)
    case Bin(_, a, b) => ExprOk(a) && ExprOk(b)
  }

  predicate ExprsOk(es: seq<Expr>)
    decreases es
  {
    es == [] || (ExprOk(es[0]) && ExprsOk(es[1..]))
  }

  predicate NamesOk(ps: seq<string>) {
    ps == [] || (IsName(ps[0]) && NamesOk(ps[1..]))
  }

  predicate StmtOk(s: Stmt)
    decreases s
  {
    match s
    case ExprStmt(e) => ExprOk(e)
    case Assign(name, e) => IsName(name) && ExprOk(e)
    case Return(v) => v.Some? ==> ExprOk(v.value)
    case Break => true
    case Continue => true
    case Def(f, params, body) => IsName(f) && NamesOk(params) && BodyOk(body)
    case If(c, body, NoElse) => ExprOk(c) && BodyOk(body)
    case If(c, body, Elif(s')) => ExprOk(c) && BodyOk(body) && s'.If? && StmtOk(s')
    case If(c, body, Else(body')) => ExprOk(c) && BodyOk(body) && BodyOk(body')
    case While(c, body) => ExprOk(c) && BodyOk(body)
    case For(name, iter, body) => IsName(name) && ExprOk(iter) && BodyOk(body)
  }

  predicate StmtsOk(ss: seq<Stmt>)
    decreases ss, 0
  {
    ss == [] || (StmtOk(ss[0]) && StmtsOk(ss[1..]))
  }

  /** A block has at least one statement: nothing would show an empty one. */
  predicate BodyOk(ss: seq<Stmt>)
    decreases ss, 1
  {
    ss != [] && StmtsOk(ss)
  }

  lemma WritableConcat(a: seq<Token>, b: seq<Token>)
    requires AllWritable(a) && AllWritable(b)
    ensures AllWritable(a + b)
  {
  }

  lemma WritableOne(t: Token)
    requires Writable(t)
    ensures AllWritable([t])
  {
  }

  lemma WritableOperators(op: Binary, u: Unary)
    ensures Writable(BinaryToken(op)) && Writable(UnaryToken(u))
    ensures AllWritable([LPAREN]) && AllWritable([RPAREN]) && AllWritable([COMMA]) && AllWritable([COLON])
    ensures AllWritable([])
  {
  }

  lemma {:induction false} PrintWritable(e: Expr, l: nat)
    requires ExprOk(e) && 1 <= l <= 7
    ensures AllWritable(Print(e, l))
    decreases e, 1
  {
    PlainWritable(e);
    WritableOperators(Or, Neg);
    hide Plain, Writable, AllWritable, ExprOk, Prec;
    WritableConcat([LPAREN], Plain(e));
    WritableConcat([LPAREN] + Plain(e), [RPAREN]);
  }

  lemma {:induction false} PlainWritable(e: Expr)
    requires ExprOk(e)
    ensures AllWritable(Plain(e))
    decreases e, 0
  {
    hide Print, AllWritable, PrintArgs;
    match e
    case Bin(op, a, b) =>
      var l := OpLevel(BinaryToken(op));
      WritableOperators(op, Neg);
      hide Writable;
      PrintWritable(a, l);
      PrintWritable(b, l + 1);
      WritableOne(BinaryToken(op));
      WritableConcat(Print(a, l), [BinaryToken(op)]);
      WritableConcat(Print(a, l) + [BinaryToken(op)], Print(b, l + 1));
    case Un(op, x) =>
      WritableOperators(Or, op);
      hide Writable;
      PrintWritable(x, 6);
      WritableOne(UnaryToken(op));
      WritableConcat([UnaryToken(op)], Print(x, 6));
    case Call(f, args) =>
      WritableOperators(Or, Neg);
      WritableOne(IDENT(f));
      hide Writable;
      ArgsWritable(args);
      WritableConcat([IDENT(f)], [LPAREN]);
      assert [IDENT(f)] + [LPAREN] == [IDENT(f), LPAREN];
      WritableConcat([IDENT(f), LPAREN], PrintArgs(args));
      WritableConcat([IDENT(f), LPAREN] + PrintArgs(args), [RPAREN]);
    case IntLit(n) => WritableOne(INT(n));
    case StrLit(s) => WritableOne(STR(s));
    case BoolLit(b) => WritableOne(if b then TRUE else FALSE);
    case Var(name) => WritableOne(IDENT(name));
  }

  lemma {:induction false} ArgsWritable(es: seq<Expr>)
    requires ExprsOk(es)
    ensures AllWritable(PrintArgs(es))
    decreases es
  {
    hide Print, AllWritable, Writable, ExprOk;
    WritableOperators(Or, Neg);
    if es != [] {
      PrintWritable(es[0], 1);
      ArgsWritable(es[1..]);
      WritableConcat(Print(es[0], 1), [COMMA]);
      WritableConcat(Print(es[0], 1) + [COMMA], PrintArgs(es[1..]));
    }
  }

  lemma {:induction false} ParamsWritable(ps: seq<string>)
    requires NamesOk(ps)
    ensures AllWritable(PrintParams(ps))
    decreases |ps|
  {
    WritableOperators(Or, Neg);
    if ps != [] {
      WritableOne(IDENT(ps[0]));
      hide AllWritable, Writable;
      ParamsWritable(ps[1..]);
      WritableConcat([IDENT(ps[0])], [COMMA]);
      assert [IDENT(ps[0])] + [COMMA] == [IDENT(ps[0]), COMMA];
      WritableConcat([IDENT(ps[0]), COMMA], PrintParams(ps[1..]));
    }
  }

  /** The tokens of a statement's own row. */
  function Head(s: Stmt, kw: Token): seq<Token> {
    match s
    case ExprStmt(e) => Print(e, 1)
    case Assign(name, e) => [IDENT(name), ASSIGN] + Print(e, 1)
    case Return(None) => [RETURN]
    case Return(Some(e)) => [RETURN] + Print(e, 1)
    case Break => [BREAK]
    case Continue => [CONTINUE]
    case Def(f, params, _) => [DEF, IDENT(f), LPAREN] + PrintParams(params) + [RPAREN, COLON]
    case If(c, _, _) => [kw] + Print(c, 1) + [COLON]
    case While(c, _) => [WHILE] + Print(c, 1) + [COLON]
    case For(name, iter, _) => [FOR, IDENT(name), IN] + Print(iter, 1) + [COLON]
  }

  predicate HasBody(s: Stmt) {
    s.Def? || s.If? || s.While? || s.For?
  }

  function TextStmt(s: Stmt, kw: Token, depth: nat): string
    decreases s, 1
  {
    Row(depth, Head(s, kw))
      + (if HasBody(s) then TextStmts(s.body, depth + 1) else "")
      + (if s.If? then TextOrelse(s.orelse, depth) else "")
  }

  function TextStmts(ss: seq<Stmt>, depth: nat): string
    decreases ss, 0
  {
    if ss == [] then "" else TextStmt(ss[0], IF, depth) + TextStmts(ss[1..], depth)
  }

  function TextOrelse(o: Orelse, depth: nat): string
    decreases o, 0
  {
    match o
    case NoElse => ""
    case Elif(s) => TextStmt(s, ELIF, depth)
    case Else(body) => Row(depth, [ELSE, COLON]) + TextStmts(body, depth + 1)
  }

  /** A program as source text. */
  function Source(ss: seq<Stmt>): string {
    TextStmts(ss, 0)
  }

  lemma Framed(front: seq<Token>, mid: seq<Token>, back: seq<Token>)
    requires AllWritable(front) && AllWritable(mid) && AllWritable(back)
    ensures AllWritable(front + mid + back) && AllWritable(front + mid)
  {
    hide Writable;
  }

  lemma KeywordsWritable(kw: Token, name: string)
    requires kw == IF || kw == ELIF
    ensures AllWritable([kw]) && AllWritable([WHILE]) && AllWritable([RETURN]) && AllWritable([BREAK])
    ensures AllWritable([CONTINUE])
    ensures AllWritable([COLON]) && AllWritable([RPAREN, COLON]) && AllWritable([ELSE, COLON]) && AllWritable([])
    ensures IsName(name) ==>
            AllWritable([IDENT(name), ASSIGN]) && AllWritable([FOR, IDENT(name), IN])
            && AllWritable([DEF, IDENT(name), LPAREN])
  {
    hide IsName;
  }

  lemma HeadWritable(s: Stmt, kw: Token)
    requires StmtOk(s) && (kw == IF || kw == ELIF)
    ensures Head(s, kw) != [] && AllWritable(Head(s, kw))
  {
    hide AllWritable, Print, PrintParams, IsName, ExprOk;
    KeywordsWritable(kw, if s.Assign? || s.For? then s.name else if s.Def? then s.fun else "");
    match s
    case ExprStmt(e) =>
      PrintWritable(e, 1);
      PrintStart(e, 1);
    case Assign(name, e) =>
      PrintWritable(e, 1);
      Framed([IDENT(name), ASSIGN], Print(e, 1), []);
    case Return(Some(e)) =>
      PrintWritable(e, 1);
      Framed([RETURN], Print(e, 1), []);
    case Def(f, params, _) =>
      ParamsWritable(params);
      Framed([DEF, IDENT(f), LPAREN], PrintParams(params), [RPAREN, COLON]);
    case If(c, _, _) =>
      PrintWritable(c, 1);
      Framed([kw], Print(c, 1), [COLON]);
    case While(c, _) =>
      PrintWritable(c, 1);
      Framed([WHILE], Print(c, 1), [COLON]);
    case For(name, iter, _) =>
      PrintWritable(iter, 1);
      Framed([FOR, IDENT(name), IN], Print(iter, 1), [COLON]);
    case _ =>
  }

  /** A statement's tokens are its row's, the line end, and the block below. */
  lemma PrintShape(s: Stmt, kw: Token)
    ensures PrintAs(s, kw) == Head(s, kw) + [NEWLINE]
                              + (if HasBody(s) then [INDENT] + PrintStmts(s.body) + [DEDENT] else [])
                              + (if s.If? then PrintOrelse(s.orelse) else [])
  {
    hide Print, PrintParams, PrintStmts, PrintOrelse;
  }

  // ----- reading the text back -----

  lemma ShallowUp(src: string, i: nat, depth: nat)
    requires Shallow(src, i, depth)
    ensures Shallow(src, i, depth + 1)
  {
    if i != |src| {
      var e: nat :| e <= depth && RowAt(src, i, e);
    }
  }

  lemma RowShallow(src: string, i: nat, depth: nat)
    requires RowAt(src, i, depth)
    ensures i < |src| && Shallow(src, i, depth)
  {
  }

  lemma PrefixedNothing(o: Option<seq<Token>>)
    ensures Prefixed([], o) == o
  {
    if o.Some? {
      assert [] + o.value == o.value;
    }
  }

  lemma OkParts(s: Stmt)
    requires StmtOk(s)
    ensures HasBody(s) ==> BodyOk(s.body)
    ensures s.If? ==> OrelseOk(s.orelse)
  {
    hide BodyOk, ExprOk, IsName;
  }

  predicate OrelseOk(o: Orelse) {
    match o
    case NoElse => true
    case Elif(s) => s.If? && StmtOk(s)
    case Else(body) => BodyOk(body)
  }

  /** A statement's text lexes to its tokens and leaves the stack as it was. */
  lemma {:induction false} ReadTextStmt(src: string, i: nat, s: Stmt, kw: Token, depth: nat)
    requires StmtOk(s) && (kw == IF || kw == ELIF) && At(src, i, TextStmt(s, kw, depth))
    requires i + |TextStmt(s, kw, depth)| <= |src| && Shallow(src, i + |TextStmt(s, kw, depth)|, depth)
    ensures RowAt(src, i, depth)
    ensures LinesFrom(src, i, Levels4(depth))
         == Prefixed(PrintAs(s, kw), LinesFrom(src, i + |TextStmt(s, kw, depth)|, Levels4(depth)))
    decreases s, 1
  {
    hide *;
    var row := Row(depth, Head(s, kw));
    TextShape(s, kw, depth);
    OkParts(s);
    PrintShape(s, kw);
    HeadWritable(s, kw);
    NoBody(s);
    if !HasBody(s) {
      assert row + "" + "" == row;
      ReadRow(src, i, depth, Head(s, kw));
      assert Head(s, kw) + [NEWLINE] + [] + [] == Head(s, kw) + [NEWLINE];
    } else if s.If? {
      var body, rest := TextStmts(s.body, depth + 1), TextOrelse(s.orelse, depth);
      AtConcat(src, i, row + body, rest);
      AtConcat(src, i, row, body);
      ReadRow(src, i, depth, Head(s, kw));
      var j := i + |row|;
      ReadTextOrelse(src, j + |body|, s.orelse, depth);
      ReadBody(src, j, s.body, depth);
      PrefixedTwice([INDENT] + PrintStmts(s.body) + [DEDENT], PrintOrelse(s.orelse),
          LinesFrom(src, j + |body| + |rest|, Levels4(depth)));
      PrefixedTwice(Head(s, kw) + [NEWLINE], [INDENT] + PrintStmts(s.body) + [DEDENT] + PrintOrelse(s.orelse),
        LinesFrom(src, j + |body| + |rest|, Levels4(depth)));
      assert Head(s, kw) + [NEWLINE] + ([INDENT] + PrintStmts(s.body) + [DEDENT] + PrintOrelse(s.orelse))
             == PrintAs(s, kw);
    } else {
      var body := TextStmts(s.body, depth + 1);
      assert row + body + "" == row + body;
      AtConcat(src, i, row, body);
      ReadRow(src, i, depth, Head(s, kw));
      ReadBody(src, i + |row|, s.body, depth);
      PrefixedTwice(Head(s, kw) + [NEWLINE], [INDENT] + PrintStmts(s.body) + [DEDENT],
          LinesFrom(src, i + |row| + |body|, Levels4(depth)));
      assert Head(s, kw) + [NEWLINE] + ([INDENT] + PrintStmts(s.body) + [DEDENT]) + []
             == Head(s, kw) + [NEWLINE] + ([INDENT] + PrintStmts(s.body) + [DEDENT]);
    }
  }

  lemma TextShape(s: Stmt, kw: Token, depth: nat)
    ensures TextStmt(s, kw, depth)
            == Row(depth, Head(s, kw)) + (if HasBody(s) then TextStmts(s.body, depth + 1) else "")
                                      + (if s.If? then TextOrelse(s.orelse, depth) else "")
  {
  }

  lemma NoBody(s: Stmt)
    ensures !HasBody(s) ==> !s.If?
    ensures HasBody(s) ==> s.Def? || s.If? || s.While? || s.For?
  {
  }

  /** An indented block. */
  lemma {:induction false} ReadBody(src: string, i: nat, body: seq<Stmt>, depth: nat)
    requires BodyOk(body) && At(src, i, TextStmts(body, depth + 1))
    requires i + |TextStmts(body, depth + 1)| <= |src| && Shallow(src, i + |TextStmts(body, depth + 1)|, depth)
    ensures LinesFrom(src, i, Levels4(depth))
         == Prefixed([INDENT] + PrintStmts(body) + [DEDENT],
             LinesFrom(src, i + |TextStmts(body, depth + 1)|, Levels4(depth)))
    decreases body, 2
  {
    hide *;
    var j := i + |TextStmts(body, depth + 1)|;
    BodyParts(body);
    ShallowUp(src, j, depth);
    ReadTexts(src, i, body, depth + 1);
    CloseBlock(src, j, depth);
    OpenBlock(src, i, depth);
    PrefixedTwice(PrintStmts(body), [DEDENT], LinesFrom(src, j, Levels4(depth)));
    PrefixedTwice([INDENT], PrintStmts(body) + [DEDENT], LinesFrom(src, j, Levels4(depth)));
    assert [INDENT] + (PrintStmts(body) + [DEDENT]) == [INDENT] + PrintStmts(body) + [DEDENT];
  }

  lemma BodyParts(body: seq<Stmt>)
    requires BodyOk(body)
    ensures body != [] && StmtsOk(body)
  {
  }

  lemma TextsStep(ss: seq<Stmt>, depth: nat)
    ensures ss == [] ==> TextStmts(ss, depth) == "" && PrintStmts(ss) == []
    ensures ss != [] ==> TextStmts(ss, depth) == TextStmt(ss[0], IF, depth) + TextStmts(ss[1..], depth)
                         && PrintStmts(ss) == PrintAs(ss[0], IF) + PrintStmts(ss[1..])
                         && (StmtsOk(ss) ==> StmtOk(ss[0]) && StmtsOk(ss[1..]))
  {
    hide TextStmt, PrintAs, StmtOk;
  }

  lemma {:induction false} ReadTexts(src: string, i: nat, ss: seq<Stmt>, depth: nat)
    requires StmtsOk(ss) && At(src, i, TextStmts(ss, depth))
    requires i + |TextStmts(ss, depth)| <= |src| && Shallow(src, i + |TextStmts(ss, depth)|, depth)
    ensures Shallow(src, i, depth) && (ss != [] ==> RowAt(src, i, depth))
    ensures LinesFrom(src, i, Levels4(depth))
            == Prefixed(PrintStmts(ss), LinesFrom(src, i + |TextStmts(ss, depth)|, Levels4(depth)))
    decreases ss, 0
  {
    hide *;
    TextsStep(ss, depth);
    if ss == [] {
      PrefixedNothing(LinesFrom(src, i, Levels4(depth)));
    } else {
      var first, rest := TextStmt(ss[0], IF, depth), TextStmts(ss[1..], depth);
      AtConcat(src, i, first, rest);
      ReadTexts(src, i + |first|, ss[1..], depth);
      ReadTextStmt(src, i, ss[0], IF, depth);
      RowShallow(src, i, depth);
      PrefixedTwice(PrintAs(ss[0], IF), PrintStmts(ss[1..]), LinesFrom(src, i + |first| + |rest|, Levels4(depth)));
    }
  }

  lemma {:induction false} ReadTextOrelse(src: string, i: nat, o: Orelse, depth: nat)
    requires OrelseOk(o) && At(src, i, TextOrelse(o, depth))
    requires i + |TextOrelse(o, depth)| <= |src| && Shallow(src, i + |TextOrelse(o, depth)|, depth)
    ensures Shallow(src, i, depth)
    ensures LinesFrom(src, i, Levels4(depth))
            == Prefixed(PrintOrelse(o), LinesFrom(src, i + |TextOrelse(o, depth)|, Levels4(depth)))
    decreases o, 3
  {
    hide *;
    OrelseParts(o, depth);
    if o.NoElse? {
      PrefixedNothing(LinesFrom(src, i, Levels4(depth)));
    } else if o.Elif? {
      ReadTextStmt(src, i, o.s, ELIF, depth);
      RowShallow(src, i, depth);
    } else {
      var row, body := Row(depth, [ELSE, COLON]), TextStmts(o.body, depth + 1);
      KeywordsWritable(IF, "");
      AtConcat(src, i, row, body);
      ReadRow(src, i, depth, [ELSE, COLON]);
      RowShallow(src, i, depth);
      ReadBody(src, i + |row|, o.body, depth);
      PrefixedTwice([ELSE, COLON] + [NEWLINE], [INDENT] + PrintStmts(o.body) + [DEDENT],
          LinesFrom(src, i + |row| + |body|, Levels4(depth)));
      assert [ELSE, COLON] + [NEWLINE] + ([INDENT] + PrintStmts(o.body) + [DEDENT]) == PrintOrelse(o);
    }
  }

  lemma OrelseParts(o: Orelse, depth: nat)
    requires OrelseOk(o)
    ensures o.NoElse? ==> TextOrelse(o, depth) == "" && PrintOrelse(o) == []
    ensures o.Elif? ==>
            StmtOk(o.s) && TextOrelse(o, depth) == TextStmt(o.s, ELIF, depth) && PrintOrelse(o) == PrintAs(o.s, ELIF)
    ensures o.Else? ==>
            BodyOk(o.body) && TextOrelse(o, depth) == Row(depth, [ELSE, COLON]) + TextStmts(o.body, depth + 1)
                        && PrintOrelse(o) == [ELSE] + [COLON, NEWLINE, INDENT] + PrintStmts(o.body) + [DEDENT]
  {
    hide TextStmt, TextStmts, PrintStmts, PrintAs, BodyOk, StmtOk;
  }

  /** Lexing a program's text gives the program's tokens. */
  lemma SourceRoundTrip(ss: seq<Stmt>)
    requires StmtsOk(ss)
    ensures Tokens(Source(ss)) == Some(PrintProgram(ss))
  {
    hide *;
    var src := Source(ss);
    FirstLevels();
    assert Source(ss) == TextStmts(ss, 0) by { SourceIs(ss); }
    AtStart(src);
    EndShallow(src);
    ReadTexts(src, 0, ss, 0);
    ProgramIs(src, ss);
  }

  lemma FirstLevels()
    ensures Levels4(0) == [0]
  {
  }

  lemma SourceIs(ss: seq<Stmt>)
    ensures Source(ss) == TextStmts(ss, 0)
  {
  }

  lemma EndShallow(src: string)
    ensures Shallow(src, |src|, 0)
  {
  }

  lemma ProgramIs(src: string, ss: seq<Stmt>)
    requires LinesFrom(src, 0, [0]) == Prefixed(PrintStmts(ss), LinesFrom(src, |src|, [0]))
    ensures Tokens(src) == Some(PrintProgram(ss))
  {
    hide PrintStmts;
    NoLines(src, [0]);
    assert Dedents(0) + [EOF] == [EOF];
  }
}
