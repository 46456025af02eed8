/** The lexer: it moves over the source, keeps the indentation stack and fills one token array. */
module GkLexer {
  import opened Options
  import opened GkSyntax
  import opened GkText

  const MAX_TOKENS: nat := 2048

  class Lexer {
    var tokens: seq<Token>
    var failed: bool          // the error text is not empty
    var stack: seq<nat>       // indent_stack[..indent_top + 1]
    ghost var wanted: seq<Token>   // what emit was called with so far

    /** The array holds what was emitted, as far as it fits, and an error says when it does not. */
    ghost predicate Valid()
      reads this
    {
      && tokens == (if |wanted| <= MAX_TOKENS then wanted else wanted[..MAX_TOKENS])
      && (|wanted| > MAX_TOKENS ==> failed)
      && |stack| <= MAX_INDENT
    }

    constructor ()
      ensures Valid() && tokens == [] && !failed && wanted == []
    {
      tokens, failed, stack, wanted := [], false, [0], [];
    }

    method Emit(t: Token) returns (ok: bool)
      requires Valid()
      modifies `tokens, `failed, `wanted
      ensures Valid() && wanted == old(wanted) + [t]
      ensures ok <==> |wanted| <= MAX_TOKENS
      ensures if ok then failed == old(failed) else failed
    {
      wanted := wanted + [t];
      if |tokens| >= MAX_TOKENS {
        failed := true;
        return false;
      }
      tokens := tokens + [t];
      ok := true;
    }

    /** emit_int, emit_str and emit for what starts at `i`; a failure to emit an operator is not noticed
        here. */
    method LexPiece(src: string, i: nat) returns (ok: bool, j: nat)
      requires Valid() && i < |src| && src[i] != '\n' && PieceFits(src, i)
      modifies `tokens, `failed, `wanted
      ensures ok && failed ==> old(failed) || |wanted| > MAX_TOKENS
      ensures Valid() && i < j <= |src|
      ensures ok ==> Piece(src, i).Some? && j == Piece(src, i).value.1 && wanted == old(wanted) + Piece(src, i).value.0
      ensures !ok ==> Piece(src, i) == None || |old(wanted) + Piece(src, i).value.0| > MAX_TOKENS
      ensures !ok ==> failed
    {
      var c := src[i];
      if c == ' ' || c == '\t' {
        return true, i + 1;
      }
      if c == '#' {
        j := SkipToLineEnd(src, i + 1);
        return true, j;
      }
      if IsDigit(c) {
        var val;
        val, j := LexNumber(src, i);
        ok := Emit(INT(val));
        return;
      }
      if c == '"' || c == '\'' {
        var text;
        text, j := LexText(src, i + 1, c);
        if j < |src| { j := j + 1; }
        ok := Emit(STR(text));
        return;
      }
      if IsAlpha(c) {
        j := LexWord(src, i);
        ok := Emit(WordToken(src[i..j]));
        return;
      }
      ok, j := LexOperator(src, i);
    }

    method LexOperator(src: string, i: nat) returns (ok: bool, j: nat)
      requires Valid() && i < |src| && src[i] != '\n'
      requires src[i] != ' ' && src[i] != '\t' && src[i] != '#' && src[i] != '"' && src[i] != '\''
      requires !IsDigit(src[i]) && !IsAlpha(src[i])
      modifies `tokens, `failed, `wanted
      ensures ok && failed ==> old(failed) || |wanted| > MAX_TOKENS
      ensures Valid() && i < j <= |src|
      ensures ok <==> Piece(src, i).Some?
      ensures ok ==> j == Piece(src, i).value.1 && wanted == old(wanted) + Piece(src, i).value.0
      ensures !ok ==> failed
    {
      var op := Operator(src[i], Next(src, i));
      if op == None {
        failed := true;
        return false, i + 1;
      }
      var _ := Emit(op.value.0);
      ok, j := true, i + op.value.1;
    }

    method LexLine(src: string, i: nat) returns (ok: bool, k: nat)
      requires Valid() && i <= |src| && LineFits(src, i)
      modifies `tokens, `failed, `wanted
      ensures ok && failed ==> old(failed) || |wanted| > MAX_TOKENS
      ensures Valid() && i <= k <= |src|
      ensures ok ==>
              LineFrom(src, i).Some? && k == LineFrom(src, i).value.1
              && wanted == old(wanted) + LineFrom(src, i).value.0
      ensures !ok ==> LineFrom(src, i) == None || |old(wanted) + LineFrom(src, i).value.0| > MAX_TOKENS
      ensures !ok ==> failed
    {
      hide Piece;
      k := i;
      ghost var done: seq<Token> := [];
      AfterNothing(LineFrom(src, i));
      while k < |src| && src[k] != '\n'
        invariant Valid() && i <= k <= |src| && wanted == old(wanted) + done && LineFits(src, k)
        invariant LineFrom(src, i) == After(done, LineFrom(src, k))
        invariant failed ==> old(failed) || |wanted| > MAX_TOKENS
        decreases |src| - k
      {
        LineStep(src, k, done);
        ghost var p := Piece(src, k);
        ok, k := LexPiece(src, k);
        if !ok { return; }
        done := done + p.value.0;
      }
      ok := true;
    }

    /** What a line's indentation adds: one INDENT, or a DEDENT for each level left. */
    method LexLevel(indent: nat) returns (ok: bool)
      requires Valid() && |stack| > 0 && stack[0] == 0 && Increasing(stack) && |Levels(stack, indent)| <= MAX_INDENT
      modifies this
      ensures Valid() && (ok ==> Increasing(stack) && |stack| > 0 && stack[0] == 0)
      ensures ok ==>
              wanted == old(wanted) + Marks(old(stack), indent) && stack == Levels(old(stack), indent)
              && failed == old(failed)
      ensures !ok ==> failed && |old(wanted) + Marks(old(stack), indent)| > MAX_TOKENS
    {
      hide Increasing, Marks, Levels, Cut;
      LevelsIncrease(stack, indent);
      if indent > stack[|stack| - 1] {
        MarksUp(stack, indent);
        stack := stack + [indent];
        ok := Emit(INDENT);
        return;
      }
      ok := LeaveLevels(indent);
      MarksDown(old(stack), indent);
    }

    method Pop() returns (ok: bool)
      requires Valid() && |stack| > 0
      modifies this
      ensures Valid() && stack == old(stack)[..|old(stack)| - 1] && wanted == old(wanted) + [DEDENT]
      ensures ok <==> |wanted| <= MAX_TOKENS
      ensures if ok then failed == old(failed) else failed
    {
      stack := stack[..|stack| - 1];
      ok := Emit(DEDENT);
    }

    method LeaveLevels(indent: nat) returns (ok: bool)
      requires Valid() && |stack| > 0 && stack[0] == 0
      modifies this
      ensures Valid()
      ensures ok ==> stack == Cut(old(stack), indent) && failed == old(failed)
      ensures ok ==> wanted == old(wanted) + Dedents(|old(stack)| - |Cut(old(stack), indent)|)
      ensures !ok ==> failed && |old(wanted)| + |old(stack)| - |Cut(old(stack), indent)| > MAX_TOKENS
    {
      hide Cut, Valid, Dedents;
      ghost var was, before := stack, wanted;
      NoMore(wanted);
      ok := true;
      while indent < stack[|stack| - 1]
        invariant Valid() && 0 < |stack| <= |was| && stack[0] == 0
        invariant Cut(stack, indent) == Cut(was, indent)
        invariant wanted == before + Dedents(|was| - |stack|) && failed == old(failed)
        decreases |stack|
      {
        CutStep(stack, indent);
        OneMore(before, |was| - |stack|);
        ok := Pop();
        if !ok {
          OneMoreLength(before, |was| - |stack|);
          return;
        }
      }
      CutStep(stack, indent);
    }

    /** The blocks still open at the end, and EOF. */
    method LexEnd() returns (ok: bool)
      requires Valid() && |stack| > 0
      modifies this
      ensures Valid() && 0 < |stack| <= |old(stack)| && stack == old(stack)[..|stack|]
      ensures ok <==> |old(wanted) + (Dedents(|old(stack)| - 1) + [EOF])| <= MAX_TOKENS
      ensures ok ==> wanted == old(wanted) + (Dedents(|old(stack)| - 1) + [EOF]) && failed == old(failed)
      ensures !ok ==> failed
    {
      while |stack| > 1
        invariant Valid() && 0 < |stack| <= |old(stack)| && stack == old(stack)[..|stack|] && failed == old(failed)
        invariant wanted == old(wanted) + Dedents(|old(stack)| - |stack|)
        decreases |stack|
      {
        OneMore(old(wanted), |old(stack)| - |stack|);
        ok := Pop();
        if !ok { return; }
      }
      assert old(wanted) + Dedents(|old(stack)| - 1) + [EOF] == old(wanted) + (Dedents(|old(stack)| - 1) + [EOF]);
      ok := Emit(EOF);
    }

    /** gk_lex: true exactly when every character starts a token and all tokens fit; the array then holds
        all of them. */
    method Lex(src: string) returns (ok: bool)
      requires !failed && WithinLimits(src)
      modifies this
      ensures Valid()
      ensures ok <==> Tokens(src).Some? && |Tokens(src).value| <= MAX_TOKENS
      ensures ok ==> tokens == Tokens(src).value && !failed && Increasing(stack)
      ensures !ok ==> failed
    {
      hide LinesFrom, LineFrom, Marks, Levels, Blank, Start, Indent, LinesFit, LineFits, NextLine;
      tokens, stack, wanted := [], [0], [];
      var i := 0;
      StartsLines(src);
      while i < |src|
        invariant Valid() && 0 <= i <= |src| && Increasing(stack) && LinesFit(src, i, stack)
        invariant Tokens(src) == Whole(wanted, LinesFrom(src, i, stack))
        invariant failed ==> |wanted| > MAX_TOKENS
        decreases |src| - i
      {
        var indent, j := LexIndent(src, i);
        if Blank(src, j) {
          BlankLine(src, i, stack);
          FitsNext(src, i, stack);
          i := SkipLine(src, j);
        } else {
          NextStep(src, i, stack, wanted);
          FitsNext(src, i, stack);
          ok := LexLevel(indent);
          if !ok { return; }
          var k;
          ok, k := LexLine(src, j);
          if !ok { return; }
          ok := Emit(NEWLINE);
          if !ok { return; }
          i := if k < |src| then k + 1 else k;
        }
      }
      NoLines(src, stack);
      ghost var levels := stack;
      ok := LexEnd();
      PrefixIncreases(levels, |stack|);
    }
  }

  lemma CutStep(stack: seq<nat>, indent: nat)
    requires |stack| > 0 && stack[0] == 0
    ensures indent < stack[|stack| - 1] ==>
              && |stack| > 1 && Cut(stack, indent) == Cut(stack[..|stack| - 1], indent)
              && |Cut(stack, indent)| <= |stack| - 1
    ensures indent >= stack[|stack| - 1] ==> Cut(stack, indent) == stack
  {
  }

  lemma NoMore(done: seq<Token>)
    ensures done + Dedents(0) == done
  {
  }

  lemma OneMoreLength(done: seq<Token>, n: nat)
    ensures |done + Dedents(n)| == |done| + n
  {
  }

  lemma OneMore(done: seq<Token>, n: nat)
    ensures done + Dedents(n) + [DEDENT] == done + Dedents(n + 1)
  {
    assert Dedents(n) + [DEDENT] == Dedents(n + 1);
  }

  lemma MarksUp(stack: seq<nat>, indent: nat)
    requires |stack| > 0 && stack[0] == 0 && indent > stack[|stack| - 1]
    ensures Marks(stack, indent) == [INDENT] && Levels(stack, indent) == stack + [indent]
  {
  }

  lemma MarksDown(stack: seq<nat>, indent: nat)
    requires |stack| > 0 && stack[0] == 0 && indent <= stack[|stack| - 1]
    ensures Marks(stack, indent) == Dedents(|stack| - |Cut(stack, indent)|)
    ensures Levels(stack, indent) == Cut(stack, indent)
  {
    hide Cut;
  }

  lemma PrefixIncreases(stack: seq<nat>, n: nat)
    requires Increasing(stack) && 0 < n <= |stack|
    ensures Increasing(stack[..n])
  {
  }

  function Whole(done: seq<Token>, o: Option<seq<Token>>): Option<seq<Token>> {
    if o.None? then None else Some(done + o.value)
  }

  lemma StartsLines(src: string)
    ensures Tokens(src) == Whole([], LinesFrom(src, 0, [0]))
  {
    hide LinesFrom;
    var o := LinesFrom(src, 0, [0]);
    assert o.Some? ==> [] + o.value == o.value;
  }

  /** A line that is not blank: what it adds to the tokens so far. */
  lemma NextStep(src: string, i: nat, stack: seq<nat>, done: seq<Token>)
    requires i < |src| && |stack| > 0 && stack[0] == 0 && !Blank(src, Start(src, i))
    ensures var j, indent := Start(src, i), Indent(src, i);
            var line, all := LineFrom(src, j), Whole(done, LinesFrom(src, i, stack));
            var m := done + Marks(stack, indent);
            if line.None? then all == None
            else
              var k := line.value.1;
              && k > i
              && all == Whole(m + line.value.0 + [NEWLINE],
                  LinesFrom(src, if k < |src| then k + 1 else k, Levels(stack, indent)))
              && (all.Some? ==> |all.value| > |m + line.value.0|)
  {
    hide Piece, Marks, Levels, LineFrom, Start, Indent, Blank;
    var j, indent := Start(src, i), Indent(src, i);
    var line := LineFrom(src, j);
    if line.Some? { LineMoves(src, i); }
    if line.Some? {
      var (ts, k) := line.value;
      var rest := LinesFrom(src, if k < |src| then k + 1 else k, Levels(stack, indent));
      if rest.Some? {
        Regroup(done, Marks(stack, indent), ts, rest.value);
      }
    }
  }

  /** The limits hold on from line to line. */
  lemma FitsNext(src: string, i: nat, stack: seq<nat>)
    requires i < |src| && |stack| > 0 && stack[0] == 0 && LinesFit(src, i, stack)
    ensures var j, indent := Start(src, i), Indent(src, i);
            if Blank(src, j) then LinesFit(src, NextLine(src, j), stack)
            else
              && |Levels(stack, indent)| <= MAX_INDENT && LineFits(src, j)
              && (LineFrom(src, j).Some? ==>
                    var k := LineFrom(src, j).value.1;
                    LinesFit(src, if k < |src| then k + 1 else k, Levels(stack, indent)))
  {
    hide Blank, Start, Indent, Levels, LineFits, LineFrom, NextLine;
  }

  lemma Regroup(done: seq<Token>, m: seq<Token>, ts: seq<Token>, rest: seq<Token>)
    ensures done + (m + ts + [NEWLINE] + rest) == done + m + ts + [NEWLINE] + rest
  {
  }

  /** A line that is not blank is not empty. */
  lemma LineMoves(src: string, i: nat)
    requires i < |src| && !Blank(src, Start(src, i)) && LineFrom(src, Start(src, i)).Some?
    ensures LineFrom(src, Start(src, i)).value.1 > i
  {
    assert Piece(src, Start(src, i)).Some?;
    hide Piece;
  }

  method LexIndent(src: string, i: nat) returns (indent: nat, j: nat)
    requires i <= |src|
    ensures j == Start(src, i) && indent == Indent(src, i)
  {
    indent, j := 0, i;
    while j < |src| && src[j] == ' '
      invariant i <= j <= |src| && indent == j - i && SpacesEnd(src, j, ' ') == SpacesEnd(src, i, ' ')
    {
      indent, j := indent + 1, j + 1;
    }
    ghost var s := j;
    while j < |src| && src[j] == '\t'
      invariant s <= j <= |src| && indent == s - i + 4 * (j - s) && SpacesEnd(src, j, '\t') == SpacesEnd(src, s, '\t')
    {
      indent, j := indent + 4, j + 1;
    }
  }

  method SkipLine(src: string, j: nat) returns (e: nat)
    requires j <= |src|
    ensures e == NextLine(src, j)
  {
    e := SkipToLineEnd(src, j);
    if e < |src| { e := e + 1; }
  }

  function After(done: seq<Token>, s: Step): Step {
    if s.None? then None else Some((done + s.value.0, s.value.1))
  }

  lemma AfterNothing(s: Step)
    ensures After([], s) == s
  {
    if s.Some? {
      assert [] + s.value.0 == s.value.0;
    }
  }

  lemma LineStep(src: string, k: nat, done: seq<Token>)
    requires k < |src| && src[k] != '\n'
    ensures var p := Piece(src, k);
            if p.None? then After(done, LineFrom(src, k)) == None
            else
              && After(done, LineFrom(src, k)) == After(done + p.value.0, LineFrom(src, p.value.1))
              && (LineFrom(src, k).Some? ==> |done + LineFrom(src, k).value.0| >= |done + p.value.0|)
  {
    hide Piece;
    var p := Piece(src, k);
    if p.Some? && LineFrom(src, p.value.1).Some? {
      var ts := LineFrom(src, p.value.1).value.0;
      assert done + (p.value.0 + ts) == done + p.value.0 + ts;
    }
  }

  method SkipToLineEnd(src: string, i: nat) returns (e: nat)
    requires i <= |src|
    ensures e == LineEnd(src, i)
  {
    e := i;
    while e < |src| && src[e] != '\n'
      invariant e <= |src| && LineEnd(src, e) == LineEnd(src, i)
    {
      e := e + 1;
    }
  }

  method LexNumber(src: string, i: nat) returns (val: Int32, e: nat)
    requires i < |src| && IsDigit(src[i]) && PieceFits(src, i)
    ensures (val, e) == NumberFrom(src, i + 1, src[i] as int - '0' as int) && i < e <= |src|
  {
    val, e := 0, i;
    while e < |src| && IsDigit(src[e])
      invariant 0 <= val && i <= e <= |src| && NumberFrom(src, e, val) == NumberFrom(src, i, 0)
    {
      NumberGrows(src, e, val);
      NumberGrows(src, e + 1, val * 10 + (src[e] as int - '0' as int));
      val := val * 10 + (src[e] as int - '0' as int);
      e := e + 1;
    }
  }

  method LexText(src: string, i: nat, quote: char) returns (text: string, e: nat)
    requires i <= |src|
    ensures (text, e) == TextFrom(src, i, quote, "")
  {
    text, e := "", i;
    while e < |src| && src[e] != quote
      invariant i <= e <= |src| && TextFrom(src, e, quote, text) == TextFrom(src, i, quote, "")
      decreases |src| - e
    {
      if src[e] == '\\' && e + 1 < |src| {
        text := text + [Unescaped(src[e + 1])];
        e := e + 2;
      } else {
        text := text + [src[e]];
        e := e + 1;
      }
      if |text| >= MAX_TEXT { return; }
    }
  }

  method LexWord(src: string, i: nat) returns (e: nat)
    requires i < |src| && IsAlpha(src[i])
    ensures e == WordEnd(src, i, MAX_WORD)
  {
    e := i;
    while e < |src| && IsAlnum(src[e]) && e - i < MAX_WORD
      invariant i <= e <= |src| && e - i <= MAX_WORD && WordEnd(src, e, MAX_WORD - (e - i)) == WordEnd(src, i, MAX_WORD)
      decreases |src| - e
    {
      e := e + 1;
    }
  }
}
