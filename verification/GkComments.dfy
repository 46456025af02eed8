/** What a source text may hold besides its tokens: comments, blank lines, and tabs for spaces. */
module GkComments {
  import opened Options
  import opened GkSyntax
  import opened GkText

  // ----- texts with a common end -----

  /** From `i` and from `j` on the texts are the same. */
  predicate Tail(x: string, i: nat, y: string, j: nat) {
    i <= |x| && j <= |y| && x[i..] == y[j..]
  }

  lemma TailSize(x: string, i: nat, y: string, j: nat)
    requires Tail(x, i, y, j)
    ensures i <= |x| && j <= |y| && |x| - i == |y| - j
  {
    assert |x[i..]| == |y[j..]|;
  }

  lemma TailOn(x: string, i: nat, y: string, j: nat, k: nat)
    requires Tail(x, i, y, j) && i + k <= |x|
    ensures Tail(x, i + k, y, j + k) && (i + k < |x| ==> j + k < |y| && y[j + k] == x[i + k])
  {
    TailSize(x, i, y, j);
    assert x[i..][k..] == x[i + k..] && y[j..][k..] == y[j + k..];
    if i + k < |x| { assert x[i..][k] == y[j..][k]; }
  }

  lemma {:induction false} LineEndTail(x: string, i: nat, y: string, j: nat)
    requires Tail(x, i, y, j)
    ensures LineEnd(y, j) - j == LineEnd(x, i) - i
    decreases |x| - i
  {
    TailSize(x, i, y, j);
    TailOn(x, i, y, j, 0);
    if i < |x| && x[i] != '\n' {
      TailOn(x, i, y, j, 1);
      LineEndTail(x, i + 1, y, j + 1);
    }
  }

  lemma {:induction false} NumberTail(x: string, i: nat, y: string, j: nat, val: int)
    requires Tail(x, i, y, j)
    ensures NumberFrom(y, j, val).0 == NumberFrom(x, i, val).0
    ensures NumberFrom(y, j, val).1 - j == NumberFrom(x, i, val).1 - i
    decreases |x| - i
  {
    TailSize(x, i, y, j);
    TailOn(x, i, y, j, 0);
    if i < |x| && IsDigit(x[i]) {
      TailOn(x, i, y, j, 1);
      NumberTail(x, i + 1, y, j + 1, val * 10 + (x[i] as int - '0' as int));
    }
  }

  lemma {:induction false} WordTail(x: string, i: nat, y: string, j: nat, room: nat)
    requires Tail(x, i, y, j)
    ensures WordEnd(y, j, room) - j == WordEnd(x, i, room) - i
    decreases |x| - i
  {
    TailSize(x, i, y, j);
    TailOn(x, i, y, j, 0);
    if i < |x| && IsAlnum(x[i]) && room > 0 {
      TailOn(x, i, y, j, 1);
      WordTail(x, i + 1, y, j + 1, room - 1);
    }
  }

  lemma {:induction false} TextTail(x: string, i: nat, y: string, j: nat, quote: char, buf: string)
    requires Tail(x, i, y, j)
    ensures TextFrom(y, j, quote, buf).0 == TextFrom(x, i, quote, buf).0
    ensures TextFrom(y, j, quote, buf).1 - j == TextFrom(x, i, quote, buf).1 - i
    decreases |x| - i
  {
    TailSize(x, i, y, j);
    TailOn(x, i, y, j, 0);
    if i < |x| && x[i] != quote {
      TailOn(x, i, y, j, 1);
      var esc := x[i] == '\\' && i + 1 < |x|;
      var buf' := buf + [if esc then Unescaped(x[i + 1]) else x[i]];
      if esc { TailOn(x, i, y, j, 2); }
      if |buf'| < MAX_TEXT {
        if esc { TextTail(x, i + 2, y, j + 2, quote, buf'); } else { TextTail(x, i + 1, y, j + 1, quote, buf'); }
      }
    }
  }

  /** The same tokens, ending as far behind `j` as they did behind `i`. */
  predicate Moved(a: Step, i: nat, b: Step, j: nat) {
    && (a.None? <==> b.None?)
    && (a.Some? ==> b.value.0 == a.value.0 && b.value.1 - j == a.value.1 - i)
  }

  lemma PieceTail(x: string, i: nat, y: string, j: nat)
    requires Tail(x, i, y, j) && i < |x| && x[i] != '\n'
    ensures j < |y| && y[j] == x[i] && Moved(Piece(x, i), i, Piece(y, j), j)
  {
    TailSize(x, i, y, j);
    TailOn(x, i, y, j, 0);
    TailOn(x, i, y, j, 1);
    var c := x[i];
    if c == '#' {
      LineEndTail(x, i + 1, y, j + 1);
      hide LineEnd, Tail;
    } else if IsDigit(c) {
      NumberTail(x, i + 1, y, j + 1, c as int - '0' as int);
      hide NumberFrom, Tail;
    } else if c == '"' || c == '\'' {
      TextTail(x, i + 1, y, j + 1, c, "");
      hide TextFrom, Tail;
    } else if IsAlpha(c) {
      WordPieceTail(x, i, y, j);
    } else {
      hide TextFrom, NumberFrom, WordEnd, LineEnd, WordToken, Tail;
    }
  }

  lemma WordPieceTail(x: string, i: nat, y: string, j: nat)
    requires Tail(x, i, y, j) && i < |x| && IsAlpha(x[i]) && j < |y| && y[j] == x[i]
    ensures Moved(Piece(x, i), i, Piece(y, j), j)
  {
    WordTail(x, i, y, j, MAX_WORD);
    var n := WordEnd(x, i, MAX_WORD) - i;
    assert x[i..][..n] == x[i..i + n] && y[j..][..n] == y[j..j + n];
    hide WordEnd, WordToken;
  }

  lemma {:induction false} LineTail(x: string, i: nat, y: string, j: nat)
    requires Tail(x, i, y, j)
    ensures Moved(LineFrom(x, i), i, LineFrom(y, j), j)
    decreases |x| - i
  {
    hide Piece, Tail;
    TailSize(x, i, y, j);
    TailOn(x, i, y, j, 0);
    if i < |x| && x[i] != '\n' {
      PieceTail(x, i, y, j);
      if Piece(x, i).Some? {
        var n := Piece(x, i).value.1 - i;
        TailOn(x, i, y, j, n);
        LineTail(x, i + n, y, j + n);
      }
    }
  }

  lemma {:induction false} SpacesTail(x: string, i: nat, y: string, j: nat, c: char)
    requires Tail(x, i, y, j)
    ensures SpacesEnd(y, j, c) - j == SpacesEnd(x, i, c) - i
    decreases |x| - i
  {
    TailSize(x, i, y, j);
    TailOn(x, i, y, j, 0);
    if i < |x| && x[i] == c {
      TailOn(x, i, y, j, 1);
      SpacesTail(x, i + 1, y, j + 1, c);
    }
  }

  lemma StartTail(x: string, i: nat, y: string, j: nat)
    requires Tail(x, i, y, j)
    ensures Start(y, j) - j == Start(x, i) - i && Indent(y, j) == Indent(x, i)
    ensures Tail(x, Start(x, i), y, Start(y, j)) && Blank(y, Start(y, j)) == Blank(x, Start(x, i))
  {
    SpacesTail(x, i, y, j, ' ');
    TailOn(x, i, y, j, SpacesEnd(x, i, ' ') - i);
    SpacesTail(x, SpacesEnd(x, i, ' '), y, SpacesEnd(y, j, ' '), '\t');
    TailOn(x, i, y, j, Start(x, i) - i);
    TailSize(x, i, y, j);
    hide SpacesEnd;
  }

  /** Lines whose first pieces have the same text from there on, and the same indentation. */
  lemma {:induction false} LinesAlike(x: string, i: nat, y: string, j: nat, stack: seq<nat>)
    requires i < |x| && j < |y| && |stack| > 0 && stack[0] == 0
    requires Tail(x, Start(x, i), y, Start(y, j)) && Indent(y, j) == Indent(x, i)
    ensures LinesFrom(y, j, stack) == LinesFrom(x, i, stack)
    decreases |x| - i, 1
  {
    var s, t := Start(x, i), Start(y, j);
    TailSize(x, s, y, t);
    TailOn(x, s, y, t, 0);
    hide Start, Indent, Marks, Levels;
    if Blank(x, s) {
      LineEndTail(x, s, y, t);
      var e := NextLine(x, s);
      NextLineTail(x, s, y, t);
      LinesTail(x, e, y, NextLine(y, t), stack);
    } else {
      LineTail(x, s, y, t);
      if LineFrom(x, s).Some? {
        RowTail(x, i, y, j);
        LinesTail(x, RowFrom(x, i).value.1, y, RowFrom(y, j).value.1, Levels(stack, Indent(x, i)));
      }
      hide LineFrom;
    }
  }

  lemma NextLineTail(x: string, s: nat, y: string, t: nat)
    requires Tail(x, s, y, t)
    ensures Tail(x, NextLine(x, s), y, NextLine(y, t))
  {
    LineEndTail(x, s, y, t);
    TailSize(x, s, y, t);
    TailOn(x, s, y, t, NextLine(x, s) - s);
  }

  lemma RowTail(x: string, i: nat, y: string, j: nat)
    requires i < |x| && j < |y| && Tail(x, Start(x, i), y, Start(y, j)) && RowFrom(x, i).Some?
    ensures RowFrom(y, j).Some? && RowFrom(y, j).value.0 == RowFrom(x, i).value.0
    ensures Tail(x, RowFrom(x, i).value.1, y, RowFrom(y, j).value.1)
  {
    var s, t := Start(x, i), Start(y, j);
    LineTail(x, s, y, t);
    TailSize(x, s, y, t);
    hide LineFrom, Start;
    TailOn(x, s, y, t, RowFrom(x, i).value.1 - s);
  }

  /** The tokens from a line start on depend on the text from there on only. */
  lemma {:induction false} LinesTail(x: string, i: nat, y: string, j: nat, stack: seq<nat>)
    requires Tail(x, i, y, j) && |stack| > 0 && stack[0] == 0
    ensures LinesFrom(y, j, stack) == LinesFrom(x, i, stack)
    decreases |x| - i, 2
  {
    TailSize(x, i, y, j);
    if i < |x| {
      StartTail(x, i, y, j);
      LinesAlike(x, i, y, j, stack);
    }
  }

  // ----- texts with a common start -----

  predicate Front(x: string, y: string, n: nat) {
    n <= |x| && n <= |y| && x[..n] == y[..n]
  }

  lemma FrontAt(x: string, y: string, n: nat, i: nat)
    requires Front(x, y, n) && i < n
    ensures i < |x| && i < |y| && x[i] == y[i]
  {
    assert x[..n][i] == y[..n][i];
  }

  /** What ends at `e` in `y` is seen to end there in `x` too: the common start goes on, or `y` has a comment
      where the line of `x` ends. */
  predicate EndSeen(x: string, y: string, n: nat, e: nat)
    requires n <= |x|
  {
    e < n || (e == n < |y| && y[n] == '#' && (n == |x| || x[n] == '\n'))
  }

  lemma {:induction false} NumberFront(x: string, y: string, n: nat, i: nat, val: int)
    requires Front(x, y, n) && i <= |y| && NumberFrom(y, i, val).1 <= n && EndSeen(x, y, n, NumberFrom(y, i, val).1)
    ensures NumberFrom(x, i, val) == NumberFrom(y, i, val)
    decreases |y| - i
  {
    if i < n { FrontAt(x, y, n, i); }
    if i < |y| && IsDigit(y[i]) {
      NumberFront(x, y, n, i + 1, val * 10 + (y[i] as int - '0' as int));
    }
  }

  lemma {:induction false} WordFront(x: string, y: string, n: nat, i: nat, room: nat)
    requires Front(x, y, n) && i <= |y| && WordEnd(y, i, room) <= n && EndSeen(x, y, n, WordEnd(y, i, room))
    ensures WordEnd(x, i, room) == WordEnd(y, i, room)
    decreases |y| - i
  {
    if i < n { FrontAt(x, y, n, i); }
    if i < |y| && IsAlnum(y[i]) && room > 0 {
      WordFront(x, y, n, i + 1, room - 1);
    }
  }

  lemma {:induction false} TextFront(x: string, y: string, n: nat, i: nat, quote: char, buf: string)
    requires Front(x, y, n) && i <= |y| && TextFrom(y, i, quote, buf).1 < n
    ensures TextFrom(x, i, quote, buf) == TextFrom(y, i, quote, buf)
    decreases |y| - i
  {
    FrontAt(x, y, n, i);
    if y[i] != quote {
      var esc := y[i] == '\\' && i + 1 < |y|;
      if i + 1 < n { FrontAt(x, y, n, i + 1); }
      var buf' := buf + [if esc then Unescaped(y[i + 1]) else y[i]];
      if |buf'| < MAX_TEXT {
        if esc { TextFront(x, y, n, i + 2, quote, buf'); } else { TextFront(x, y, n, i + 1, quote, buf'); }
      }
    }
  }

  lemma {:induction false} LineEndFront(x: string, y: string, n: nat, i: nat)
    requires Front(x, y, n) && i <= |y| && LineEnd(y, i) < n
    ensures LineEnd(x, i) == LineEnd(y, i)
    decreases |y| - i
  {
    FrontAt(x, y, n, i);
    if y[i] != '\n' {
      LineEndFront(x, y, n, i + 1);
    }
  }

  lemma PieceFront(x: string, y: string, n: nat, i: nat)
    requires Front(x, y, n) && i < n && y[i] != '\n' && Piece(y, i).Some?
    requires Piece(y, i).value.1 <= n && EndSeen(x, y, n, Piece(y, i).value.1)
    ensures i < |x| && x[i] == y[i] && Piece(x, i) == Piece(y, i)
  {
    FrontAt(x, y, n, i);
    var c, e := y[i], Piece(y, i).value.1;
    if i + 1 < n { FrontAt(x, y, n, i + 1); }
    if c == '#' {
      LineEndFront(x, y, n, i + 1);
      hide LineEnd, Front;
    } else if IsDigit(c) {
      NumberFront(x, y, n, i + 1, c as int - '0' as int);
      hide NumberFrom, Front;
    } else if c == '"' || c == '\'' {
      TextPieceFront(x, y, n, i);
    } else if IsAlpha(c) {
      WordFront(x, y, n, i, MAX_WORD);
      assert x[..n][i..e] == x[i..e] && y[..n][i..e] == y[i..e];
      hide WordEnd, WordToken;
    } else {
      hide TextFrom, NumberFrom, WordEnd, LineEnd, WordToken, Front;
    }
  }

  lemma TextPieceFront(x: string, y: string, n: nat, i: nat)
    requires Front(x, y, n) && i < n && i < |x| && x[i] == y[i] && (y[i] == '"' || y[i] == '\'')
    requires Piece(y, i).value.1 <= n && EndSeen(x, y, n, Piece(y, i).value.1)
    ensures Piece(x, i) == Piece(y, i)
  {
    TextFront(x, y, n, i + 1, y[i], "");
    hide TextFrom;
  }

  /** A line of `y` that ends within the common start. */
  lemma {:induction false} LineFront(x: string, y: string, n: nat, i: nat)
    requires Front(x, y, n) && i <= |y| && LineFrom(y, i).Some? && LineFrom(y, i).value.1 < n
    ensures LineFrom(x, i) == LineFrom(y, i)
    decreases |y| - i
  {
    hide Piece, Front;
    FrontAt(x, y, n, i);
    if y[i] != '\n' {
      PieceFront(x, y, n, i);
      LineFront(x, y, n, Piece(y, i).value.1);
    }
  }

  lemma {:induction false} SpacesFront(x: string, y: string, n: nat, i: nat, c: char)
    requires Front(x, y, n) && i <= |y| && SpacesEnd(y, i, c) <= n && EndSeen(x, y, n, SpacesEnd(y, i, c))
    requires c == ' ' || c == '\t'
    ensures SpacesEnd(x, i, c) == SpacesEnd(y, i, c)
    decreases |y| - i
  {
    if i < n { FrontAt(x, y, n, i); }
    if i < |y| && y[i] == c {
      SpacesFront(x, y, n, i + 1, c);
    }
  }

  lemma StartFront(x: string, y: string, n: nat, i: nat)
    requires Front(x, y, n) && i <= |y| && Start(y, i) <= n && EndSeen(x, y, n, Start(y, i))
    ensures i <= |x| && Start(x, i) == Start(y, i) && Indent(x, i) == Indent(y, i)
  {
    SpacesFront(x, y, n, i, ' ');
    SpacesFront(x, y, n, SpacesEnd(y, i, ' '), '\t');
  }

  // ----- where lines start -----

  /** The newline that ends the line starting at `i`, if one does: the one behind its last piece, so that a
      text may hold others. */
  function LineStop(src: string, i: nat): (k: Option<nat>)
    requires i <= |src|
    ensures k.Some? ==> i <= Start(src, i) <= k.value < |src|
  {
    var s := Start(src, i);
    if Blank(src, s) then (if LineEnd(src, s) < |src| then Some(LineEnd(src, s)) else None)
    else
      match LineFrom(src, s)
      case None => None
      case Some((_, k)) => if k < |src| then Some(k) else None
  }

  /** Line by line from `i`, `n` is the start of a line. */
  predicate LineStart(src: string, i: nat, n: nat)
    requires i <= |src|
    decreases |src| - i
  {
    i == n || (i < n && LineStop(src, i).Some? && LineStart(src, LineStop(src, i).value + 1, n))
  }

  /** Lines of two texts that start alike, up to a line start from where on they bring the same tokens. */
  ghost predicate SameFrom(x: string, y: string, n: nat)
    requires n <= |x| && n <= |y|
  {
    forall stack: seq<nat> :: |stack| > 0 && stack[0] == 0 ==> LinesFrom(x, n, stack) == LinesFrom(y, n, stack)
  }

  lemma {:induction false} LinesFront(x: string, y: string, n: nat, i: nat, stack: seq<nat>)
    requires n <= |x| && n <= |y| && Front(x, y, n) && i <= n && LineStart(y, i, n)
    requires SameFrom(x, y, n) && |stack| > 0 && stack[0] == 0
    ensures LinesFrom(x, i, stack) == LinesFrom(y, i, stack)
    decreases |y| - i
  {
    hide Front, LineStop, SameFrom, Start, Indent, Blank, LineFrom, RowFrom, NextLine, Marks, Levels, LinesFrom;
    if i < n {
      var k := LineStop(y, i).value;
      StopBefore(y, k + 1, n);
      LineSame(x, y, n, i);
      LinesUnfold(x, i, stack);
      LinesUnfold(y, i, stack);
      LinesFront(x, y, n, k + 1, stack);
      LinesFront(x, y, n, k + 1, Levels(stack, Indent(y, i)));
    } else {
      SameAt(x, y, n, stack);
    }
  }

  lemma SameAt(x: string, y: string, n: nat, stack: seq<nat>)
    requires n <= |x| && n <= |y| && SameFrom(x, y, n) && |stack| > 0 && stack[0] == 0
    ensures LinesFrom(x, n, stack) == LinesFrom(y, n, stack)
  {
  }

  /** A whole line within the common start. */
  lemma LineSame(x: string, y: string, n: nat, i: nat)
    requires Front(x, y, n) && i < n && LineStop(y, i).Some? && LineStop(y, i).value < n
    ensures i < |x| && Start(x, i) == Start(y, i) && Indent(x, i) == Indent(y, i)
    ensures Blank(x, Start(x, i)) == Blank(y, Start(y, i))
    ensures var next := LineStop(y, i).value + 1;
            if Blank(y, Start(y, i)) then NextLine(x, Start(x, i)) == NextLine(y, Start(y, i)) == next
            else RowFrom(x, i) == RowFrom(y, i) && RowFrom(y, i).Some? && RowFrom(y, i).value.1 == next
  {
    hide LineFrom, LineEnd;
    var s, k := Start(y, i), LineStop(y, i).value;
    StartFront(x, y, n, i);
    FrontAt(x, y, n, s);
    FrontAt(x, y, n, k);
    hide Start, Indent, Front;
    if Blank(y, s) {
      LineEndFront(x, y, n, s);
    } else {
      LineFront(x, y, n, s);
    }
  }

  /** One line of LinesFrom. */
  lemma LinesUnfold(src: string, i: nat, stack: seq<nat>)
    requires i < |src| && |stack| > 0 && stack[0] == 0
    ensures Blank(src, Start(src, i)) ==>
              LinesFrom(src, i, stack) == LinesFrom(src, NextLine(src, Start(src, i)), stack)
    ensures !Blank(src, Start(src, i)) && RowFrom(src, i).None? ==> LinesFrom(src, i, stack) == None
    ensures !Blank(src, Start(src, i)) && RowFrom(src, i).Some? ==>
              LinesFrom(src, i, stack)
              == Before(Marks(stack, Indent(src, i)) + RowFrom(src, i).value.0 + [NEWLINE],
                        LinesFrom(src, RowFrom(src, i).value.1, Levels(stack, Indent(src, i))))
  {
    hide Start, Indent, Blank, RowFrom, NextLine, Marks, Levels;
  }

  function Before(ts: seq<Token>, o: Option<seq<Token>>): Option<seq<Token>> {
    if o.None? then None else Some(ts + o.value)
  }

  lemma StopBefore(src: string, i: nat, n: nat)
    requires i <= |src| && LineStart(src, i, n)
    ensures i <= n
  {
  }

  // ----- comments -----

  /** Piece by piece from `i`, a piece starts at `n`: `n` is not inside a string or a word. */
  predicate Reaches(src: string, i: nat, n: nat)
    requires i <= |src|
    decreases |src| - i
  {
    i == n || (i < n && i < |src| && src[i] != '\n' && Piece(src, i).Some? && Reaches(src, Piece(src, i).value.1, n))
  }

  ghost predicate CommentInLine(src: string, ls: nat, n: nat) {
    && n < |src| && src[n] == '#' && ls <= n
    && LineStart(src, 0, ls) && Start(src, ls) <= n && Reaches(src, Start(src, ls), n)
  }

  /** At `n` a comment starts, in some line. */
  ghost predicate CommentAt(src: string, n: nat) {
    exists ls: nat :: CommentInLine(src, ls, n)
  }

  lemma ReachesUpTo(src: string, i: nat, n: nat)
    requires i <= |src| && Reaches(src, i, n)
    ensures i <= n
  {
  }

  /** The line ends at `n` in `x` and has a comment there, up to `m`, in `y`. */
  predicate Commented(x: string, y: string, n: nat, m: nat) {
    && n <= |x| && n < m <= |y| && Front(x, y, n)
    && y[n] == '#' && (n == |x| || x[n] == '\n') && LineEnd(y, n) == m && Tail(x, n, y, m)
  }

  lemma {:induction false} CommentedLine(x: string, y: string, n: nat, m: nat, i: nat)
    requires Commented(x, y, n, m) && i <= |y| && Reaches(y, i, n)
    ensures i <= |x| && LineFrom(x, i).Some? && LineFrom(x, i).value.1 == n
    ensures LineFrom(y, i) == Some((LineFrom(x, i).value.0, m))
    decreases |y| - i
  {
    hide Piece;
    if i < n {
      ReachesUpTo(y, Piece(y, i).value.1, n);
      PieceFront(x, y, n, i);
      CommentedLine(x, y, n, m, Piece(y, i).value.1);
    } else {
      CommentPiece(y, n, m);
    }
  }

  lemma CommentPiece(y: string, n: nat, m: nat)
    requires n < m <= |y| && y[n] == '#' && LineEnd(y, n) == m
    ensures LineFrom(y, n) == Some(([], m))
  {
    hide LineEnd;
    var none: seq<Token> := [];
    assert Piece(y, n) == Some((none, m)) by { CommentEnd(y, n); }
    assert LineFrom(y, m) == Some((none, m));
    hide Piece;
    assert none + none == none;
  }

  lemma CommentEnd(y: string, n: nat)
    requires n < |y| && y[n] == '#'
    ensures LineEnd(y, n + 1) == LineEnd(y, n)
  {
  }

  function Behind(src: string, k: nat): nat {
    if k < |src| then k + 1 else k
  }

  /** The line is blank in one text exactly when it is in the other, and brings the same tokens. */
  lemma CommentedRow(x: string, y: string, n: nat, m: nat, ls: nat)
    requires Commented(x, y, n, m) && ls <= n && Start(y, ls) <= n && Reaches(y, Start(y, ls), n)
    ensures ls <= |x| && Start(x, ls) == Start(y, ls) && Indent(x, ls) == Indent(y, ls)
    ensures Blank(x, Start(y, ls)) == Blank(y, Start(y, ls)) && (!Blank(y, Start(y, ls)) ==> ls < |x|)
    ensures if Blank(y, Start(y, ls)) then
              NextLine(x, Start(y, ls)) == Behind(x, n) && NextLine(y, Start(y, ls)) == Behind(y, m)
            else
              && RowFrom(x, ls).Some? && RowFrom(x, ls).value.1 == Behind(x, n)
              && RowFrom(y, ls) == Some((RowFrom(x, ls).value.0, Behind(y, m)))
  {
    var s := Start(y, ls);
    StartFront(x, y, n, ls);
    CommentedLine(x, y, n, m, s);
    hide Start, Indent, LineFrom, Front, Tail;
    if s < n {
      FrontAt(x, y, n, s);
      CommentLast(y, s, n);
    }
  }

  /** Nothing is reached behind the start of a comment. */
  lemma CommentLast(y: string, s: nat, n: nat)
    requires s < n < |y| && Reaches(y, s, n) && y[n] != '\n'
    ensures y[s] != '#' && y[s] != '\n'
  {
    if y[s] == '#' {
      ReachesUpTo(y, LineEnd(y, s + 1), n);
    }
  }

  /** From the start of that line on both texts bring the same tokens. */
  lemma CommentedSame(x: string, y: string, n: nat, m: nat, ls: nat, stack: seq<nat>)
    requires Commented(x, y, n, m) && ls <= n && Start(y, ls) <= n && Reaches(y, Start(y, ls), n)
    requires |stack| > 0 && stack[0] == 0
    ensures ls <= |x| && LinesFrom(x, ls, stack) == LinesFrom(y, ls, stack)
  {
    hide *;
    CommentedRow(x, y, n, m, ls);
    CommentedTail(x, y, n, m);
    LinesUnfold(y, ls, stack);
    if Blank(y, Start(y, ls)) {
      LinesTail(x, Behind(x, n), y, Behind(y, m), stack);
      if ls < |x| {
        LinesUnfold(x, ls, stack);
      } else {
        BehindEnd(x, ls, n);
      }
    } else {
      LinesTail(x, Behind(x, n), y, Behind(y, m), Levels(stack, Indent(y, ls)));
      LinesUnfold(x, ls, stack);
    }
  }

  lemma BehindEnd(x: string, ls: nat, n: nat)
    requires |x| <= ls <= n <= |x|
    ensures Behind(x, n) == ls
  {
  }

  lemma CommentedTail(x: string, y: string, n: nat, m: nat)
    requires Commented(x, y, n, m)
    ensures n <= |x| && n < m <= |y| && n <= Behind(x, n) <= |x| && m <= Behind(y, m) <= |y|
    ensures Tail(x, Behind(x, n), y, Behind(y, m))
  {
    TailSize(x, n, y, m);
    TailOn(x, n, y, m, Behind(x, n) - n);
    hide Tail, Front, LineEnd;
  }

  lemma CommentTexts(a: string, c: string, b: string)
    requires c != "" && c[0] == '#' && '\n' !in c && (b == "" || b[0] == '\n')
    ensures Commented(a + b, a + c + b, |a|, |a| + |c|)
  {
    var x, y, n, m := a + b, a + c + b, |a|, |a| + |c|;
    assert x[..n] == a && y[..n] == a;
    assert x[n..] == b && y[m..] == b;
    forall k | n <= k < m ensures y[k] != '\n' { assert y[k] == c[k - n]; }
    assert y[n] == c[0];
  }

  /** A comment to the end of a line changes no token, be it behind code or alone in its line. */
  lemma CommentIgnored(a: string, c: string, b: string)
    requires c != "" && c[0] == '#' && '\n' !in c && (b == "" || b[0] == '\n')
    requires CommentAt(a + c + b, |a|)
    ensures Tokens(a + c + b) == Tokens(a + b)
  {
    var x, y, n, m := a + b, a + c + b, |a|, |a| + |c|;
    CommentTexts(a, c, b);
    var ls: nat :| CommentInLine(y, ls, n);
    assert Front(x, y, ls) by { assert x[..ls] == a[..ls] && y[..ls] == a[..ls]; }
    hide LinesFrom, Reaches, LineStart, Commented, Front, Start;
    forall stack: seq<nat> | |stack| > 0 && stack[0] == 0 ensures LinesFrom(x, ls, stack) == LinesFrom(y, ls, stack) {
      CommentedSame(x, y, n, m, ls, stack);
    }
    LinesFront(x, y, ls, 0, [0]);
  }

  // ----- blank lines and tabs -----

  function Repeat(c: char, k: nat): (s: string)
    ensures |s| == k && forall i :: 0 <= i < k ==> s[i] == c
  {
    seq(k, _ => c)
  }

  /** A line of spaces, tabs and perhaps a comment. */
  predicate Empty(w: string, p: nat, q: nat, c: string) {
    w == Repeat(' ', p) + Repeat('\t', q) + c + "\n" && '\n' !in c && (c == "" || c[0] == '#')
  }

  lemma {:induction false} SpacesRun(src: string, i: nat, c: char, k: nat)
    requires i + k <= |src| && (forall j :: i <= j < i + k ==> src[j] == c) && (i + k < |src| ==> src[i + k] != c)
    ensures SpacesEnd(src, i, c) == i + k
    decreases k
  {
    if k > 0 {
      SpacesRun(src, i + 1, c, k - 1);
    }
  }

  /** Indentation by spaces and then tabs. */
  lemma IndentRun(src: string, i: nat, p: nat, q: nat)
    requires i + p + q <= |src|
    requires (forall j :: i <= j < i + p ==> src[j] == ' ') && (forall j :: i + p <= j < i + p + q ==> src[j] == '\t')
    requires i + p + q < |src| ==> src[i + p + q] != '\t' && (src[i + p + q] != ' ' || q > 0)
    ensures Start(src, i) == i + p + q && Indent(src, i) == p + 4 * q
  {
    SpacesRun(src, i, ' ', p);
    SpacesRun(src, i + p, '\t', q);
  }

  /** An empty line between two lines changes no token. */
  lemma EmptyLineIgnored(a: string, w: string, b: string, p: nat, q: nat, c: string)
    requires Empty(w, p, q, c) && LineStart(a + w + b, 0, |a|)
    ensures Tokens(a + w + b) == Tokens(a + b)
  {
    hide *;
    EmptyLine(a, w, b, p, q, c);
    EmptySame(a, w, b);
    FrontKept(a, w, b);
    LinesFront(a + b, a + w + b, |a|, 0, [0]);
    TokensAre(a + b);
    TokensAre(a + w + b);
  }

  lemma FrontKept(a: string, w: string, b: string)
    ensures Front(a + b, a + w + b, |a|)
  {
  }

  lemma Fronts(a: string, b: string, c: string)
    ensures Front(a + c, a + b, |a|)
  {
  }

  lemma EmptySame(a: string, w: string, b: string)
    requires var y := a + w + b; Blank(y, Start(y, |a|)) && NextLine(y, Start(y, |a|)) == |a| + |w|
    requires w != ""
    ensures SameFrom(a + b, a + w + b, |a|)
  {
    var x, y, n := a + b, a + w + b, |a|;
    assert Tail(x, n, y, n + |w|) by { assert x[n..] == b && y[n + |w|..] == b; }
    forall stack: seq<nat> | |stack| > 0 && stack[0] == 0 ensures LinesFrom(x, n, stack) == LinesFrom(y, n, stack) {
      SkipSame(x, n, y, n + |w|, stack);
    }
    hide LinesFrom;
  }

  lemma SkipSame(x: string, n: nat, y: string, k: nat, stack: seq<nat>)
    requires n <= |x| && n < |y| && Blank(y, Start(y, n)) && NextLine(y, Start(y, n)) == k && Tail(x, n, y, k)
    requires |stack| > 0 && stack[0] == 0
    ensures LinesFrom(x, n, stack) == LinesFrom(y, n, stack)
  {
    hide *;
    LinesTail(x, n, y, k, stack);
    LinesUnfold(y, n, stack);
  }

  lemma EmptyLine(a: string, w: string, b: string, p: nat, q: nat, c: string)
    requires Empty(w, p, q, c)
    ensures var y := a + w + b; Blank(y, Start(y, |a|)) && NextLine(y, Start(y, |a|)) == |a| + |w|
    ensures w != ""
  {
    var y, s := a + w + b, |a| + p + q;
    var front := a + Repeat(' ', p) + Repeat('\t', q);
    assert y == front + (c + "\n" + b);
    forall j | |a| <= j < |a| + p ensures y[j] == ' ' { assert y[j] == Repeat(' ', p)[j - |a|]; }
    forall j | |a| + p <= j < s ensures y[j] == '\t' { assert y[j] == Repeat('\t', q)[j - |a| - p]; }
    forall j | s <= j < s + |c| ensures y[j] == c[j - s] { }
    assert y[s + |c|] == '\n';
    IndentRun(y, |a|, p, q);
    LineEndAt(y, s, s + |c|);
  }

  lemma {:induction false} LineEndAt(src: string, i: nat, e: nat)
    requires i <= e < |src| && src[e] == '\n' && forall j :: i <= j < e ==> src[j] != '\n'
    ensures LineEnd(src, i) == e
    decreases e - i
  {
    if i < e {
      LineEndAt(src, i + 1, e);
    }
  }

  /** A tab in a line's indentation, behind its spaces, is worth four of them. */
  lemma TabIsFourSpaces(a: string, p: nat, q: nat, b: string)
    requires b != "" && b[0] != ' ' && b[0] != '\t' && LineStart(a + (Repeat(' ', p) + Repeat('\t', q) + b), 0, |a|)
    ensures Tokens(a + (Repeat(' ', p) + Repeat('\t', q) + b)) == Tokens(a + (Repeat(' ', p + 4 * q) + b))
  {
    hide *;
    TabTexts(a, p, q, b);
    var x, y := a + (Repeat(' ', p + 4 * q) + b), a + (Repeat(' ', p) + Repeat('\t', q) + b);
    IndentedSame(x, |a|, y);
    LinesFront(x, y, |a|, 0, [0]);
    TokensAre(x);
    TokensAre(y);
  }

  lemma TabTexts(a: string, p: nat, q: nat, b: string)
    requires b != "" && b[0] != ' ' && b[0] != '\t'
    ensures var x, y := a + (Repeat(' ', p + 4 * q) + b), a + (Repeat(' ', p) + Repeat('\t', q) + b);
            && |a| < |x| && |a| < |y| && Front(x, y, |a|) && Indent(x, |a|) == Indent(y, |a|)
            && Tail(x, Start(x, |a|), y, Start(y, |a|))
  {
    var front, back := Repeat(' ', p) + Repeat('\t', q) + b, Repeat(' ', p + 4 * q) + b;
    Indented(a, p, q, b);
    Indented(a, p + 4 * q, 0, b);
    assert Repeat(' ', p + 4 * q) + Repeat('\t', 0) + b == back;
    hide Start, Indent;
    Fronts(a, front, back);
  }

  lemma TokensAre(src: string)
    ensures Tokens(src) == LinesFrom(src, 0, [0])
  {
  }

  lemma IndentedSame(x: string, n: nat, y: string)
    requires n < |x| && n < |y| && Tail(x, Start(x, n), y, Start(y, n)) && Indent(y, n) == Indent(x, n)
    ensures SameFrom(x, y, n)
  {
    hide LinesFrom, Tail, Start, Indent;
    forall stack: seq<nat> | |stack| > 0 && stack[0] == 0 ensures LinesFrom(x, n, stack) == LinesFrom(y, n, stack) {
      LinesAlike(x, n, y, n, stack);
    }
  }

  lemma Indented(a: string, p: nat, q: nat, b: string)
    requires b != "" && b[0] != ' ' && b[0] != '\t'
    ensures var y := a + (Repeat(' ', p) + Repeat('\t', q) + b);
            Indent(y, |a|) == p + 4 * q && y[Start(y, |a|)..] == b && Start(y, |a|) < |y|
  {
    var y, n := a + (Repeat(' ', p) + Repeat('\t', q) + b), |a|;
    var t := n + p + q;
    forall j | n <= j < n + p ensures y[j] == ' ' { assert y[j] == Repeat(' ', p)[j - n]; }
    forall j | n + p <= j < t ensures y[j] == '\t' { assert y[j] == Repeat('\t', q)[j - n - p]; }
    assert y[t] == b[0];
    IndentRun(y, n, p, q);
    assert y[t..] == b;
  }
}
