/**
 The words of the language as stretches of characters, with the character codes and the spelling of every token
 written out. A line is read as some tokens exactly when it is made of their spellings and gaps between them.
 */
module GkLexemes {
  import opened Options
  import opened GkSyntax
  import opened GkText
  import opened GkComments

  // ----- characters by their codes -----

  predicate Digit(c: char) {
    48 <= c as int <= 57
  }

  predicate Letter(c: char) {
    97 <= c as int <= 122 || 65 <= c as int <= 90 || c as int == 95
  }

  lemma SameLetters(c: char)
    ensures IsDigit(c) == Digit(c) && IsAlpha(c) == Letter(c) && IsAlnum(c) == (Letter(c) || Digit(c))
  {
  }

  // ----- numbers -----

  /** The number a row of digits is the decimal form of. */
  function Decimal(s: string): int {
    if s == "" then 0 else 10 * Decimal(s[..|s| - 1]) + (s[|s| - 1] as int - 48)
  }

  predicate AllDigits(src: string, i: nat, j: nat)
    requires j <= |src|
  {
    forall k :: i <= k < j ==> Digit(src[k])
  }

  predicate Numeral(src: string, i: nat, j: nat, t: Token) {
    i < j <= |src| && AllDigits(src, i, j) && (j < |src| ==> !Digit(src[j])) && t == INT(Decimal(src[i..j]))
  }

  lemma {:induction false} NumberIs(src: string, a: nat, i: nat)
    requires a <= i <= |src| && AllDigits(src, a, i)
    ensures var (v, e) := NumberFrom(src, i, Decimal(src[a..i]));
            AllDigits(src, a, e) && (e < |src| ==> !Digit(src[e])) && v == Decimal(src[a..e])
    decreases |src| - i
  {
    if i < |src| && IsDigit(src[i]) {
      assert src[a..i + 1][..|src[a..i + 1]| - 1] == src[a..i];
      assert src[a..i + 1][|src[a..i + 1]| - 1] == src[i];
      NumberIs(src, a, i + 1);
    }
  }


  // ----- names and keywords -----

  /** The fifteen reserved words. */
  function Keyword(w: string): Option<Token> {
    if w == "if" then Some(IF)
    else if w == "elif" then Some(ELIF)
    else if w == "else" then Some(ELSE)
    else if w == "while" then Some(WHILE)
    else if w == "for" then Some(FOR)
    else if w == "in" then Some(IN)
    else if w == "def" then Some(DEF)
    else if w == "return" then Some(RETURN)
    else if w == "break" then Some(BREAK)
    else if w == "continue" then Some(CONTINUE)
    else if w == "and" then Some(AND)
    else if w == "or" then Some(OR)
    else if w == "not" then Some(NOT)
    else if w == "True" then Some(TRUE)
    else if w == "False" then Some(FALSE)
    else None
  }

  predicate AllWord(src: string, i: nat, j: nat)
    requires j <= |src|
  {
    forall k :: i <= k < j ==> Letter(src[k]) || Digit(src[k])
  }

  /** Letters, underscores and digits, a letter or underscore first: as many as there are, but 63 at most. */
  predicate Name(src: string, i: nat, j: nat, t: Token) {
    i < j <= |src| && j - i <= 63 && Letter(src[i]) && AllWord(src, i, j)
    && (j == i + 63 || j == |src| || !(Letter(src[j]) || Digit(src[j])))
    && t == match Keyword(src[i..j]) case Some(k) => k case None => IDENT(src[i..j])
  }

  // ----- texts -----

  /** Behind a backslash `n` is a newline and `t` a tab, anything else is itself. */
  function Escape(c: char): char {
    if c as int == 110 then 10 as char else if c as int == 116 then 9 as char else c
  }

  /** Characters `i` to `e`, none of them the quote `q` unless behind a backslash, spell `text`. */
  predicate Spells(src: string, i: nat, e: nat, q: char, text: string)
    requires i <= |src|
    decreases |text|
  {
    if text == "" then e == i
    else
      i < |src| && src[i] != q
      && if src[i] as int == 92 && i + 1 < |src| then
           text[0] == Escape(src[i + 1]) && Spells(src, i + 2, e, q, text[1..])
         else
           text[0] == src[i] && Spells(src, i + 1, e, q, text[1..])
  }

  /** A quote, a spelling, and the same quote again; or the end of the source, or any character behind 255. */
  predicate Quotation(src: string, i: nat, j: nat, text: string, e: nat) {
    i < |src| && (src[i] as int == 34 || src[i] as int == 39)
    && Spells(src, i + 1, e, src[i], text) && |text| <= 255 && i + 1 <= e <= |src|
    && (|text| == 255 || e == |src| || src[e] == src[i]) && j == if e < |src| then e + 1 else e
  }

  // ----- operators and brackets -----

  function Pair(c: char, d: char): Option<Token> {
    if d != '=' then None
    else if c == '=' then Some(EQ)
    else if c == '!' then Some(NEQ)
    else if c == '<' then Some(LE)
    else if c == '>' then Some(GE)
    else None
  }

  function Sign(c: char): Option<Token> {
    if c == '+' then Some(PLUS)
    else if c == '-' then Some(MINUS)
    else if c == '*' then Some(STAR)
    else if c == '/' then Some(SLASH)
    else if c == '%' then Some(PERCENT)
    else if c == '<' then Some(LT)
    else if c == '>' then Some(GT)
    else if c == '=' then Some(ASSIGN)
    else if c == '(' then Some(LPAREN)
    else if c == ')' then Some(RPAREN)
    else if c == ',' then Some(COMMA)
    else if c == ':' then Some(COLON)
    else None
  }

  /** Two characters that make an operator are one. */
  predicate Punctuation(src: string, i: nat, j: nat, t: Token) {
    i < |src|
    && if i + 1 < |src| && Pair(src[i], src[i + 1]).Some? then j == i + 2 && Pair(src[i], src[i + 1]) == Some(t)
       else j == i + 1 && Sign(src[i]) == Some(t)
  }

  // ----- lines -----

  ghost predicate Lexeme(src: string, i: nat, j: nat, t: Token) {
    || Numeral(src, i, j, t)
    || Name(src, i, j, t)
    || (t.STR? && exists e: nat :: Quotation(src, i, j, t.text, e))
    || Punctuation(src, i, j, t)
  }

  predicate LineOver(src: string, i: nat) {
    i == |src| || (i < |src| && src[i] as int == 10)
  }

  /** Characters `i` to `k`, a line's end, are lexemes of the tokens `ts` with spaces and tabs between them and
      perhaps a comment behind. */
  ghost predicate Line(src: string, i: nat, k: nat, ts: seq<Token>)
    requires i <= |src|
    decreases |src| - i, 1
  {
    if LineOver(src, i) then k == i && ts == []
    else if src[i] as int == 32 || src[i] as int == 9 then Line(src, i + 1, k, ts)
    else if src[i] as int == 35 then
      i < k && LineOver(src, k) && (forall m | i < m < k :: !LineOver(src, m)) && ts == []
    else ts != [] && exists j: nat :: LexemeThen(src, i, j, k, ts)
  }

  ghost predicate LexemeThen(src: string, i: nat, j: nat, k: nat, ts: seq<Token>)
    requires i <= |src| && ts != []
    decreases |src| - i, 0
  {
    i < j <= |src| && Lexeme(src, i, j, ts[0]) && Line(src, j, k, ts[1..])
  }

  // ----- what one step reads -----

  lemma OneDigit(src: string, i: nat)
    requires i < |src|
    ensures Decimal(src[i..i + 1]) == src[i] as int - 48
  {
    assert src[i..i + 1][..0] == "";
  }

  lemma NumeralRead(src: string, i: nat, j: nat, t: Token)
    requires i < |src| && Digit(src[i])
    ensures Piece(src, i) == Some(([t], j)) <==> Numeral(src, i, j, t)
  {
    hide NumberFrom, Decimal;
    SameLetters(src[i]);
    OneDigit(src, i);
    NumberIs(src, i, i + 1);
  }

  lemma {:induction false} WordEnds(src: string, i: nat, room: nat)
    requires i <= |src|
    ensures var e := WordEnd(src, i, room);
            i <= e <= |src| && e - i <= room && AllWord(src, i, e)
            && (e - i == room || e == |src| || !(Letter(src[e]) || Digit(src[e])))
    decreases |src| - i
  {
    if i < |src| {
      SameLetters(src[i]);
      if IsAlnum(src[i]) && room > 0 {
        WordEnds(src, i + 1, room - 1);
      }
    }
    hide IsAlnum;
  }

  lemma SameKeyword(w: string)
    ensures WordToken(w) == match Keyword(w) case Some(k) => k case None => IDENT(w)
  {
  }

  lemma NameRead(src: string, i: nat, j: nat, t: Token)
    requires i < |src| && Letter(src[i])
    ensures Piece(src, i) == Some(([t], j)) <==> Name(src, i, j, t)
  {
    hide WordEnd, WordToken, Keyword;
    SameLetters(src[i]);
    WordEnds(src, i, 63);
    var e := WordEnd(src, i, 63);
    SameKeyword(src[i..e]);
    NameStep(src, i);
    if Name(src, i, j, t) {
      assert !(e < j) && !(j < e);
    }
    hide Piece;
  }

  lemma NameStep(src: string, i: nat)
    requires i < |src| && Letter(src[i])
    ensures src[i] != '\n' && var e := WordEnd(src, i, 63); Piece(src, i) == Some(([WordToken(src[i..e])], e))
  {
    hide WordEnd, WordToken;
  }

  lemma {:induction false} TextSpells(src: string, i: nat, q: char, buf: string)
    requires i <= |src| && |buf| < 255
    ensures var (text, e) := TextFrom(src, i, q, buf);
            buf <= text && |text| <= 255 && Spells(src, i, e, q, text[|buf|..])
            && (|text| == 255 || e == |src| || src[e] == q)
    decreases |src| - i
  {
    if i < |src| && src[i] != q {
      var esc := src[i] == '\\' && i + 1 < |src|;
      var c := if esc then Unescaped(src[i + 1]) else src[i];
      var j := if esc then i + 2 else i + 1;
      var (text, e) := TextFrom(src, i, q, buf);
      if |buf| + 1 < 255 {
        TextSpells(src, j, q, buf + [c]);
        assert text[|buf|..][0] == c && text[|buf|..][1..] == text[|buf + [c]|..];
      } else {
        assert text[|buf|..] == [c] && [c][1..] == "";
      }
    }
  }

  /** A spelling that goes on as far as `n` characters have room is the only one that does. */
  predicate SpellsAll(src: string, i: nat, e: nat, q: char, text: string, n: nat)
    requires i <= |src|
  {
    e <= |src| && Spells(src, i, e, q, text) && |text| <= n && (|text| == n || e == |src| || src[e] == q)
  }

  lemma {:induction false} SpellsUnique(
      src: string, i: nat, d: nat, e: nat, q: char, s: string, t: string, n: nat)
    requires i <= |src| && SpellsAll(src, i, d, q, s, n) && SpellsAll(src, i, e, q, t, n)
    ensures s == t && d == e
    decreases n
  {
    if s != "" && t != "" {
      var j := if src[i] as int == 92 && i + 1 < |src| then i + 2 else i + 1;
      SpellsUnique(src, j, d, e, q, s[1..], t[1..], n - 1);
      assert s == [s[0]] + s[1..] && t == [t[0]] + t[1..];
    }
  }

  lemma QuotationStep(src: string, i: nat)
    requires i < |src| && (src[i] as int == 34 || src[i] as int == 39)
    ensures var (text, e) := TextFrom(src, i + 1, src[i], "");
            src[i] != '\n' && Piece(src, i) == Some(([STR(text)], if e < |src| then e + 1 else e))
  {
    hide TextFrom;
  }

  lemma QuotationRead(src: string, i: nat, j: nat, text: string)
    requires i < |src| && (src[i] as int == 34 || src[i] as int == 39)
    ensures Piece(src, i) == Some(([STR(text)], j)) <==> exists e: nat :: Quotation(src, i, j, text, e)
  {
    hide Piece, TextFrom, Spells;
    QuotationStep(src, i);
    TextSpells(src, i + 1, src[i], "");
    var (read, e) := TextFrom(src, i + 1, src[i], "");
    assert read[0..] == read;
    assert Quotation(src, i, if e < |src| then e + 1 else e, read, e);
    if d: nat :| Quotation(src, i, j, text, d) {
      SpellsUnique(src, i + 1, d, e, src[i], text, read, 255);
    }
  }

  /** No digit, letter or quote, and nothing a gap or a line's end starts with. */
  predicate Other(c: char) {
    !Digit(c) && !Letter(c) && c as int !in {34, 39, 32, 9, 35, 10}
  }

  lemma SameSign(c: char, d: char)
    ensures Operator(c, d)
            == if Pair(c, d).Some? then Some((Pair(c, d).value, 2))
               else if Sign(c).Some? then Some((Sign(c).value, 1)) else None
  {
  }

  lemma PunctuationStep(src: string, i: nat)
    requires i < |src| && Other(src[i])
    ensures src[i] != '\n'
    ensures var o := Operator(src[i], Next(src, i));
            Piece(src, i) == if o.Some? && i + o.value.1 <= |src| then Some(([o.value.0], i + o.value.1)) else None
  {
    SameLetters(src[i]);
    hide Operator, Next;
  }

  lemma PunctuationRead(src: string, i: nat, j: nat, t: Token)
    requires i < |src| && Other(src[i])
    ensures Piece(src, i) == Some(([t], j)) <==> Punctuation(src, i, j, t)
  {
    PunctuationStep(src, i);
    SameSign(src[i], Next(src, i));
    PairNext(src[i], Next(src, i));
    hide Operator, Pair, Sign, Piece, Other;
  }

  lemma PairNext(c: char, d: char)
    ensures Pair(c, d).Some? ==> d == '='
    ensures Pair(c, '\0').None?
  {
  }

  /** Its first character says which kind a lexeme is of. */
  lemma KindByFirst(src: string, i: nat, j: nat, t: Token)
    requires i < |src| && Lexeme(src, i, j, t)
    ensures Digit(src[i]) ==> Numeral(src, i, j, t)
    ensures Letter(src[i]) ==> Name(src, i, j, t)
    ensures src[i] as int == 34 || src[i] as int == 39 ==>
              t.STR? && exists e: nat :: Quotation(src, i, j, t.text, e)
    ensures Other(src[i]) ==> Punctuation(src, i, j, t)
  {
    if i + 1 < |src| { SignFirst(src[i], src[i + 1]); } else { SignFirst(src[i], ' '); }
    hide Spells, Decimal, Keyword, Pair, Sign, AllWord;
  }

  lemma SignFirst(c: char, d: char)
    ensures Pair(c, d).Some? || Sign(c).Some? ==> Other(c)
  {
  }

  /** What one step reads is the lexeme there, as far as it goes. */
  lemma LexemeExactly(src: string, i: nat, j: nat, t: Token)
    requires i < |src| && src[i] as int !in {32, 9, 35, 10}
    ensures Piece(src, i) == Some(([t], j)) <==> Lexeme(src, i, j, t)
  {
    hide Piece, Numeral, Name, Quotation, Punctuation;
    if Lexeme(src, i, j, t) {
      KindByFirst(src, i, j, t);
    }
    if Digit(src[i]) {
      NumeralRead(src, i, j, t);
    } else if Letter(src[i]) {
      NameRead(src, i, j, t);
    } else if src[i] as int == 34 || src[i] as int == 39 {
      QuotationStep(src, i);
      if t.STR? {
        QuotationRead(src, i, j, t.text);
      }
    } else {
      PunctuationRead(src, i, j, t);
    }
  }

  lemma OneToken(src: string, i: nat)
    requires i < |src| && src[i] as int !in {32, 9, 35, 10} && Piece(src, i).Some?
    ensures |Piece(src, i).value.0| == 1
  {
    hide NumberFrom, TextFrom, WordEnd, WordToken, Operator;
  }

  // ----- what a line is read as -----

  lemma LineStep(src: string, i: nat)
    requires i < |src| && src[i] as int !in {32, 9, 35, 10}
    ensures src[i] != '\n'
    ensures Piece(src, i).None? ==> LineFrom(src, i).None?
    ensures Piece(src, i).Some? ==>
              var (t, j) := Piece(src, i).value;
              var r := LineFrom(src, j);
              |t| == 1 && LineFrom(src, i) == if r.None? then None else Some((t + r.value.0, r.value.1))
  {
    if Piece(src, i).Some? { OneToken(src, i); }
    hide Piece;
  }

  lemma GapStep(src: string, i: nat)
    requires i < |src| && (src[i] as int == 32 || src[i] as int == 9)
    ensures LineFrom(src, i) == LineFrom(src, i + 1)
  {
    var r := LineFrom(src, i + 1);
    if r.Some? {
      assert [] + r.value.0 == r.value.0;
    }
  }

  lemma CommentStep(src: string, i: nat)
    requires i < |src| && src[i] as int == 35
    ensures LineFrom(src, i) == Some(([], LineEnd(src, i + 1)))
  {
    var e := LineEnd(src, i + 1);
    assert Piece(src, i) == Some(([], e));
    assert LineFrom(src, e) == Some(([], e));
    var none: seq<Token> := [];
    assert none + none == none;
    hide Piece;
  }

  lemma CommentExactly(src: string, i: nat, k: nat, ts: seq<Token>)
    requires i < |src| && src[i] as int == 35
    ensures LineFrom(src, i) == Some((ts, k)) <==> Line(src, i, k, ts)
  {
    CommentStep(src, i);
    var e := LineEnd(src, i + 1);
    assert i < e && LineOver(src, e) && forall m | i < m < e :: !LineOver(src, m);
    hide LineFrom, LineEnd;
  }

  /** A line is read as some tokens exactly when it is made of their lexemes. */
  lemma {:induction false} LineExactly(src: string, i: nat, k: nat, ts: seq<Token>)
    requires i <= |src|
    ensures LineFrom(src, i) == Some((ts, k)) <==> Line(src, i, k, ts)
    decreases |src| - i, 1
  {
    if LineOver(src, i) {
      LineStops(src, i);
    } else if src[i] as int == 32 || src[i] as int == 9 {
      GapStep(src, i);
      LineExactly(src, i + 1, k, ts);
    } else if src[i] as int == 35 {
      CommentExactly(src, i, k, ts);
    } else {
      if LineFrom(src, i) == Some((ts, k)) {
        LexemesSound(src, i, k, ts);
      }
      if j: nat :| Line(src, i, k, ts) && LexemeThen(src, i, j, k, ts) {
        LexemesComplete(src, i, j, k, ts);
      }
    }
    hide LineFrom;
  }

  lemma LineStops(src: string, i: nat)
    requires i <= |src| && LineOver(src, i)
    ensures LineFrom(src, i) == Some(([], i))
  {
  }

  lemma {:induction false} LexemesSound(src: string, i: nat, k: nat, ts: seq<Token>)
    requires i < |src| && src[i] as int !in {32, 9, 35, 10} && LineFrom(src, i) == Some((ts, k))
    ensures Line(src, i, k, ts)
    decreases |src| - i, 0
  {
    LineStep(src, i);
    var (t, j) := Piece(src, i).value;
    assert t == [t[0]];
    LexemeExactly(src, i, j, t[0]);
    LineExactly(src, j, k, ts[1..]);
    assert LexemeThen(src, i, j, k, ts);
    hide Piece, LineFrom, Lexeme;
  }

  lemma {:induction false} LexemesComplete(src: string, i: nat, j: nat, k: nat, ts: seq<Token>)
    requires i < |src| && src[i] as int !in {32, 9, 35, 10} && ts != [] && LexemeThen(src, i, j, k, ts)
    ensures LineFrom(src, i) == Some((ts, k))
    decreases |src| - i, 0
  {
    LineStep(src, i);
    LexemeExactly(src, i, j, ts[0]);
    LineExactly(src, j, k, ts[1..]);
    assert ts == [ts[0]] + ts[1..];
    hide Piece, LineFrom, Lexeme;
  }

  // ----- whole texts -----

  /** Line start `i` is followed by `p - i` spaces and `m - p` tabs and then by something else: `w` columns. */
  predicate Margin(src: string, i: nat, p: nat, m: nat, w: nat) {
    i <= p <= m <= |src|
    && (forall k | i <= k < p :: src[k] as int == 32) && (forall k | p <= k < m :: src[k] as int == 9)
    && (p < |src| ==> src[p] as int != 32) && (m < |src| ==> src[m] as int != 9)
    && w == (p - i) + 4 * (m - p)
  }

  lemma MarginIs(src: string, i: nat, p: nat, m: nat, w: nat)
    requires i <= |src|
    ensures Margin(src, i, p, m, w) <==> p == SpacesEnd(src, i, ' ') && m == Start(src, i) && w == Indent(src, i)
  {
    var s := SpacesEnd(src, i, ' ');
    if Margin(src, i, p, m, w) {
      assert !(p < s) && !(s < p);
      assert !(m < Start(src, i)) && !(Start(src, i) < m);
    }
    hide SpacesEnd;
  }

  /** A line of `w` columns opens a block inside the blocks `outer`, or closes those indented further. */
  ghost predicate Opens(outer: seq<nat>, w: nat, inner: seq<nat>, marks: seq<Token>)
    requires |outer| > 0
  {
    if w > outer[|outer| - 1] then inner == outer + [w] && marks == [INDENT]
    else
      && 0 < |inner| <= |outer| && inner == outer[..|inner|]
      && inner[|inner| - 1] <= w && (|inner| < |outer| ==> w < outer[|inner|])
      && |marks| == |outer| - |inner| && forall k | 0 <= k < |marks| :: marks[k] == DEDENT
  }

  lemma OpensIs(outer: seq<nat>, w: nat, inner: seq<nat>, marks: seq<Token>)
    requires Increasing(outer)
    ensures Opens(outer, w, inner, marks) <==> inner == Levels(outer, w) && marks == Marks(outer, w)
  {
    if w <= outer[|outer| - 1] {
      var c := Cut(outer, w);
      if Opens(outer, w, inner, marks) {
        assert !(|c| < |inner|) && !(|inner| < |c|);
      }
    }
    hide Cut;
  }

  /** The line at `m` ends and the next one, if there is one, starts at `n`. */
  ghost predicate NextTo(src: string, m: nat, n: nat) {
    exists e: nat :: EndsLine(src, m, e, n)
  }

  predicate EndsLine(src: string, m: nat, e: nat, n: nat) {
    m <= e && LineOver(src, e) && (forall k | m <= k < e :: !LineOver(src, k)) && n == if e < |src| then e + 1 else e
  }

  lemma NextIs(src: string, m: nat, n: nat)
    requires m <= |src|
    ensures NextTo(src, m, n) <==> n == NextLine(src, m)
  {
    var e := LineEnd(src, m);
    assert EndsLine(src, m, e, NextLine(src, m));
    if d: nat :| EndsLine(src, m, d, n) {
      assert !(d < e) && !(e < d);
    }
    hide LineEnd;
  }

  /** A line of `width` columns of indentation, `spaces` its end of spaces and `first` its first character behind
      them and the tabs; what it opens and closes, its own tokens up to `end`, the text behind it from `next`. */
  datatype Row = Row(spaces: nat, first: nat, width: nat, inner: seq<nat>, marks: seq<Token>, own: seq<Token>,
                     end: nat, next: nat, rest: seq<Token>)

  /** From line start `i` on, with blocks `outer` open, the lines are those of the tokens `ts`. */
  ghost predicate Text(src: string, i: nat, outer: seq<nat>, ts: seq<Token>)
    requires i <= |src| && |outer| > 0
    decreases |src| - i, 1
  {
    if i == |src| then |ts| == |outer| && ts[|outer| - 1] == EOF && forall k | 0 <= k < |outer| - 1 :: ts[k] == DEDENT
    else exists row: Row :: RowThen(src, i, row, outer, ts)
  }

  /** A line with nothing on it but perhaps a comment counts for nothing. */
  ghost predicate RowThen(src: string, i: nat, row: Row, outer: seq<nat>, ts: seq<Token>)
    requires i < |src| && |outer| > 0
    decreases |src| - i, 0
  {
    && Margin(src, i, row.spaces, row.first, row.width) && i < row.next <= |src|
    && if LineOver(src, row.first) || src[row.first] as int == 35 then
         NextTo(src, row.first, row.next) && Text(src, row.next, outer, ts)
       else
         && ts == row.marks + row.own + [NEWLINE] + row.rest
         && Opens(outer, row.width, row.inner, row.marks) && |row.inner| > 0
         && Line(src, row.first, row.end, row.own) && NextTo(src, row.end, row.next)
         && Text(src, row.next, row.inner, row.rest)
  }

  lemma TextOver(src: string, outer: seq<nat>, ts: seq<Token>)
    requires |outer| > 0 && outer[0] == 0
    ensures LinesFrom(src, |src|, outer) == Some(ts) <==> Text(src, |src|, outer, ts)
  {
    var end := Dedents(|outer| - 1) + [EOF];
    if Text(src, |src|, outer, ts) {
      assert ts == end;
    }
  }

  lemma LineBounds(src: string, m: nat, k: nat, ts: seq<Token>)
    requires m <= |src| && LineFrom(src, m) == Some((ts, k))
    ensures m <= k <= |src| && LineOver(src, k)
    decreases |src| - m
  {
    if m < |src| && src[m] != '\n' {
      var (t, j) := Piece(src, m).value;
      LineBounds(src, j, k, LineFrom(src, j).value.0);
    }
    hide Piece;
  }

  lemma OwnLine(src: string, i: nat, row: Row)
    requires i < |src| && Margin(src, i, row.spaces, row.first, row.width)
    ensures Line(src, row.first, row.end, row.own) && NextTo(src, row.end, row.next)
            <==> RowFrom(src, i) == Some((row.own, row.next)) && LineFrom(src, row.first) == Some((row.own, row.end))
  {
    hide Margin, Line, LineFrom, NextTo, Start, LineOver;
    MarginIs(src, i, row.spaces, row.first, row.width);
    LineExactly(src, row.first, row.end, row.own);
    if LineFrom(src, row.first) == Some((row.own, row.end)) {
      LineBounds(src, row.first, row.end, row.own);
      NextIs(src, row.end, row.next);
      NextAfter(src, row.end);
    }
  }

  lemma NextAfter(src: string, k: nat)
    requires k <= |src| && LineOver(src, k)
    ensures NextLine(src, k) == if k < |src| then k + 1 else k
  {
  }

  lemma BlankIs(src: string, m: nat)
    requires m <= |src|
    ensures Blank(src, m) <==> LineOver(src, m) || src[m] as int == 35
  {
  }

  /** A text has the tokens `ts` exactly when it is made of lines of those tokens. */
  lemma {:induction false} TextExactly(src: string, i: nat, outer: seq<nat>, ts: seq<Token>)
    requires i <= |src| && Increasing(outer)
    ensures LinesFrom(src, i, outer) == Some(ts) <==> Text(src, i, outer, ts)
    decreases |src| - i, 2
  {
    hide LinesFrom;
    if i == |src| {
      TextOver(src, outer, ts);
    } else {
      if LinesFrom(src, i, outer) == Some(ts) {
        TextSound(src, i, outer, ts);
      }
      if row: Row :| Text(src, i, outer, ts) && RowThen(src, i, row, outer, ts) {
        TextComplete(src, i, row, outer, ts);
      }
    }
    hide RowThen;
  }

  lemma {:induction false} TextSound(src: string, i: nat, outer: seq<nat>, ts: seq<Token>)
    requires i < |src| && Increasing(outer) && LinesFrom(src, i, outer) == Some(ts)
    ensures Text(src, i, outer, ts)
    decreases |src| - i, 1
  {
    hide LinesFrom, Margin, Opens, Line, NextTo, LineOver, Start, Indent, Blank, RowFrom, NextLine, Marks, Levels;
    LinesUnfold(src, i, outer);
    var p, m, w := SpacesEnd(src, i, ' '), Start(src, i), Indent(src, i);
    MarginIs(src, i, p, m, w);
    BlankIs(src, m);
    if Blank(src, m) {
      var n := NextLine(src, m);
      BlankLine(src, i, outer);
      NextIs(src, m, n);
      TextExactly(src, n, outer, ts);
      assert RowThen(src, i, Row(p, m, w, [], [], [], 0, n, []), outer, ts);
    } else {
      var (own, next) := RowFrom(src, i).value;
      var inner, marks := Levels(outer, w), Marks(outer, w);
      OpensIs(outer, w, inner, marks);
      LevelsIncrease(outer, w);
      var rest := LinesFrom(src, next, inner).value;
      TextExactly(src, next, inner, rest);
      var row := Row(p, m, w, inner, marks, own, RowEnd(src, i), next, rest);
      RowEnds(src, i);
      OwnLine(src, i, row);
      assert RowThen(src, i, row, outer, ts);
    }
  }

  function RowEnd(src: string, i: nat): nat
    requires i <= |src| && RowFrom(src, i).Some?
  {
    LineFrom(src, Start(src, i)).value.1
  }

  lemma RowEnds(src: string, i: nat)
    requires i <= |src| && RowFrom(src, i).Some?
    ensures LineFrom(src, Start(src, i)) == Some((RowFrom(src, i).value.0, RowEnd(src, i)))
  {
    hide LineFrom, Start;
  }

  lemma {:induction false} TextComplete(src: string, i: nat, row: Row, outer: seq<nat>, ts: seq<Token>)
    requires i < |src| && Increasing(outer) && RowThen(src, i, row, outer, ts)
    ensures LinesFrom(src, i, outer) == Some(ts)
    decreases |src| - i, 1
  {
    hide LinesFrom, Margin, Opens, Line, NextTo, LineOver, Start, Indent, Blank, RowFrom, NextLine, Marks, Levels;
    LinesUnfold(src, i, outer);
    MarginIs(src, i, row.spaces, row.first, row.width);
    BlankIs(src, row.first);
    if Blank(src, row.first) {
      NextIs(src, row.first, row.next);
      TextExactly(src, row.next, outer, ts);
    } else {
      OpensIs(outer, row.width, row.inner, row.marks);
      LevelsIncrease(outer, row.width);
      OwnLine(src, i, row);
      TextExactly(src, row.next, row.inner, row.rest);
    }
  }

  /** What the tokens of a source text are, from its first line and without an open block. */
  lemma TokensExactly(src: string, ts: seq<Token>)
    ensures Tokens(src) == Some(ts) <==> Text(src, 0, [0], ts)
  {
    TextExactly(src, 0, [0], ts);
    hide Text, LinesFrom;
  }
}
