/**
 The grammar of the language as phrases: which stretch of tokens is an expression, a statement or a block, and
 of which tree. The parser finds a tree exactly where there is such a phrase.
 */
module GkPhrases {
  import opened Options
  import opened GkSyntax
  import opened GkGrammar
  import opened GkSteps

  // ----- expressions -----

  /** The precedence of the language guide, loosest first; 0 for what is no binary operator. */
  function Rank(t: Token): nat {
    if t.OR? then 1
    else if t.AND? then 2
    else if t.EQ? || t.NEQ? || t.LT? || t.LE? || t.GT? || t.GE? then 3
    else if t.PLUS? || t.MINUS? then 4
    else if t.STAR? || t.SLASH? || t.PERCENT? then 5
    else 0
  }

  /** Four names are not names of functions. */
  function NamedKind(name: string): Kind {
    if name == "print" then NPrint
    else if name == "range" then NRange
    else if name == "input" then NInput
    else if name == "int" then NIntCast
    else NCall
  }

  /** Tokens `i` to `j` are an expression of tree `t` that binds at least as tightly as rank `l`: ranks 1 to 5
      are the binary operators, to the left first, 6 is `-` and `not`, 7 what needs no operator. */
  ghost predicate Phrase(toks: seq<Token>, l: nat, i: nat, j: nat, t: Tree)
    requires 1 <= l <= 7
    decreases if i <= j then j - i else 0, 7 - l, 2
  {
    i < j < |toks|
    && if l == 7 then Atom(toks, i, j, t)
       else if l == 6 then
         if toks[i] == MINUS || toks[i] == NOT then
           t.kind == NUnop && |t.kids| == 1 && t == Tree(NUnop, 0, "", toks[i], t.kids)
           && Phrase(toks, 6, i + 1, j, t.kids[0])
         else
           Phrase(toks, 7, i, j, t)
       else
         Phrase(toks, l + 1, i, j, t) || exists k: nat :: BinaryAt(toks, l, i, k, j, t)
  }

  /** An operator of rank `l` at `k`, its left operand of the same rank, its right one of a tighter. */
  ghost predicate BinaryAt(toks: seq<Token>, l: nat, i: nat, k: nat, j: nat, t: Tree)
    requires 1 <= l <= 5
    decreases if i <= j then j - i else 0, 7 - l, 0
  {
    i < k < j < |toks| && Rank(toks[k]) == l
    && |t.kids| == 2 && t == Tree(NBinop, 0, "", toks[k], t.kids)
    && Phrase(toks, l, i, k, t.kids[0]) && Phrase(toks, l + 1, k + 1, j, t.kids[1])
  }

  ghost predicate Atom(toks: seq<Token>, i: nat, j: nat, t: Tree)
    requires i < j < |toks|
    decreases j - i, 0, 1
  {
    || (j == i + 1 && Single(toks[i], t))
    || (toks[i].IDENT? && CallAt(toks, i, j, t))
    || (toks[i] == LPAREN && i + 3 <= j && toks[j - 1] == RPAREN && Phrase(toks, 1, i + 1, j - 1, t))
  }

  /** A literal or a name. */
  predicate Single(u: Token, t: Tree) {
    || (u.INT? && t == Tree(NInt, u.value, "", EOF, []))
    || (u.STR? && t == Tree(NStr, 0, u.text, EOF, []))
    || (u == TRUE && t == Tree(NBool, 1, "", EOF, []))
    || (u == FALSE && t == Tree(NBool, 0, "", EOF, []))
    || (u.IDENT? && t == Tree(NVar, 0, u.name, EOF, []))
  }

  /** A name in front of at most 64 arguments in parentheses. */
  ghost predicate CallAt(toks: seq<Token>, i: nat, j: nat, t: Tree)
    requires i < j < |toks| && toks[i].IDENT?
    decreases j - i, 0, 0
  {
    i + 3 <= j && toks[i + 1] == LPAREN && toks[j - 1] == RPAREN && |t.kids| <= 64
    && t == Tree(NamedKind(toks[i].name), 0, toks[i].name, EOF, t.kids)
    && Arguments(toks, i + 2, j - 1, t.kids)
  }

  /** Expressions with commas between them, and perhaps one more behind the last. */
  ghost predicate Arguments(toks: seq<Token>, i: nat, j: nat, ts: seq<Tree>)
    requires i <= j < |toks|
    decreases j - i, 8, 1
  {
    if ts == [] then i == j else exists k: nat :: ArgumentTo(toks, i, k, j, ts)
  }

  ghost predicate ArgumentTo(toks: seq<Token>, i: nat, k: nat, j: nat, ts: seq<Tree>)
    requires i <= j < |toks| && ts != []
    decreases j - i, 8, 0
  {
    i < k <= j && Phrase(toks, 1, i, k, ts[0])
    && if k == j then |ts| == 1 else toks[k] == COMMA && Arguments(toks, k + 1, j, ts[1..])
  }

  /** No longer expression of rank `l` or more starts where one ends at `k`. */
  predicate Complete(toks: seq<Token>, l: nat, k: nat) {
    0 < k < |toks| && (Rank(toks[k]) == 0 || Rank(toks[k]) < l) && !(toks[k] == LPAREN && toks[k - 1].IDENT?)
  }

  // ----- the two tables -----

  lemma SameRank(t: Token)
    ensures OpLevel(t) == Rank(t)
  {
  }

  lemma SameKind(name: string)
    ensures CallKind(name) == NamedKind(name)
  {
  }

  lemma NoOperators()
    ensures Rank(LPAREN) == 0 && Rank(RPAREN) == 0 && Rank(COMMA) == 0
  {
  }

  lemma RankBound(t: Token)
    ensures Rank(t) <= 5
  {
  }

  lemma Closed(toks: seq<Token>, l: nat, k: nat)
    requires 0 < k < |toks| && 1 <= l && (toks[k] == RPAREN || toks[k] == COMMA)
    ensures Complete(toks, l, k)
  {
    NoOperators();
    hide Rank;
  }

  lemma Tighter(toks: seq<Token>, l: nat, m: nat, k: nat)
    requires Complete(toks, l, k) && l <= m
    ensures Complete(toks, m, k)
  {
    hide Rank;
  }

  /** Behind the operator of rank `l` an operand of a tighter rank ends. */
  lemma BeforeOperator(toks: seq<Token>, l: nat, k: nat)
    requires 0 < k < |toks| && 1 <= l && Rank(toks[k]) == l
    ensures Complete(toks, l + 1, k)
  {
    NoOperators();
    hide Rank;
  }

  // ----- how phrases are made -----

  lemma OfTighter(toks: seq<Token>, l: nat, i: nat, j: nat, t: Tree)
    requires 1 <= l <= 5 && Phrase(toks, l + 1, i, j, t)
    ensures Phrase(toks, l, i, j, t)
  {
    hide BinaryAt, Rank;
  }

  lemma OfBinary(toks: seq<Token>, l: nat, i: nat, k: nat, j: nat, a: Tree, b: Tree)
    requires 1 <= l <= 5 && Phrase(toks, l, i, k, a) && k < |toks| && Rank(toks[k]) == l
    requires Phrase(toks, l + 1, k + 1, j, b)
    ensures Phrase(toks, l, i, j, BinopTree(toks[k], a, b))
  {
    Spans(toks, l, i, k, a);
    Spans(toks, l + 1, k + 1, j, b);
    MakeBinary(toks, l, i, k, j, a, b);
    hide BinaryAt, Rank;
  }

  lemma MakeBinary(toks: seq<Token>, l: nat, i: nat, k: nat, j: nat, a: Tree, b: Tree)
    requires 1 <= l <= 5 && Phrase(toks, l, i, k, a) && i < k < j < |toks| && Rank(toks[k]) == l
    requires Phrase(toks, l + 1, k + 1, j, b)
    ensures BinaryAt(toks, l, i, k, j, BinopTree(toks[k], a, b))
  {
    hide Phrase, Rank;
  }

  lemma Spans(toks: seq<Token>, l: nat, i: nat, j: nat, t: Tree)
    requires 1 <= l <= 7 && Phrase(toks, l, i, j, t)
    ensures i < j < |toks|
  {
    hide BinaryAt, Atom, Rank;
  }

  lemma OfUnary(toks: seq<Token>, i: nat, j: nat, t: Tree)
    requires i < |toks| && (toks[i] == MINUS || toks[i] == NOT) && Phrase(toks, 6, i + 1, j, t)
    ensures Phrase(toks, 6, i, j, UnopTree(toks[i], t))
  {
    hide BinaryAt, Atom, Rank;
  }

  lemma OfAtom(toks: seq<Token>, i: nat, j: nat, t: Tree)
    requires i < j < |toks| && Atom(toks, i, j, t)
    ensures Phrase(toks, 7, i, j, t)
    ensures toks[i] != MINUS && toks[i] != NOT ==> Phrase(toks, 6, i, j, t)
  {
    hide BinaryAt, Atom, Rank;
  }

  lemma OfArgument(toks: seq<Token>, i: nat, k: nat, t: Tree)
    requires Phrase(toks, 1, i, k, t)
    ensures Arguments(toks, i, k, [t])
  {
    Spans(toks, 1, i, k, t);
    assert ArgumentTo(toks, i, k, k, [t]) by { hide Phrase; }
    hide Phrase, ArgumentTo;
  }

  lemma OfArguments(toks: seq<Token>, i: nat, k: nat, j: nat, t: Tree, ts: seq<Tree>)
    requires Phrase(toks, 1, i, k, t) && k < j < |toks| && toks[k] == COMMA && Arguments(toks, k + 1, j, ts)
    ensures Arguments(toks, i, j, [t] + ts)
  {
    Spans(toks, 1, i, k, t);
    assert ArgumentTo(toks, i, k, j, [t] + ts) by {
      assert ([t] + ts)[1..] == ts;
      hide Phrase, Arguments;
    }
    hide Phrase, ArgumentTo;
  }

  // ----- what the parser finds is there -----

  lemma {:induction false} LevelSound(toks: seq<Token>, l: nat, i: nat)
    requires Ended(toks) && i < |toks| && 1 <= l <= 7 && ParseLevel(toks, l, i).Some?
    ensures var (t, j) := ParseLevel(toks, l, i).value;
            Phrase(toks, l, i, j, t) && Complete(toks, l, j)
    decreases |toks| - i, 7 - l, 2
  {
    hide Phrase, Complete, ParseLevel, ParseTail, ParsePrimary;
    if l == 7 {
      LevelOfAtom(toks, i);
      PrimarySound(toks, i);
      OfAtom(toks, i, ParsePrimary(toks, i).value.1, ParsePrimary(toks, i).value.0);
    } else if l == 6 {
      LevelOfUnary(toks, i);
      UnarySound(toks, i);
    } else {
      LevelOfBinary(toks, l, i);
      LevelSound(toks, l + 1, i);
      var (a, k) := ParseLevel(toks, l + 1, i).value;
      OfTighter(toks, l, i, k, a);
      TailSound(toks, l, a, i, k);
    }
  }

  lemma LevelOfAtom(toks: seq<Token>, i: nat)
    requires Ended(toks) && i < |toks|
    ensures ParseLevel(toks, 7, i) == ParsePrimary(toks, i)
  {
    hide ParsePrimary;
  }

  lemma {:induction false} UnarySound(toks: seq<Token>, i: nat)
    requires Ended(toks) && i < |toks| && ParseLevel(toks, 6, i).Some?
    ensures var (t, j) := ParseLevel(toks, 6, i).value;
            Phrase(toks, 6, i, j, t) && Complete(toks, 6, j)
    decreases |toks| - i, 1, 0
  {
    hide Phrase, ParseLevel, ParsePrimary, Rank, Atom;
    LevelOfUnary(toks, i);
    if toks[i] == MINUS || toks[i] == NOT {
      LevelSound(toks, 6, i + 1);
      var (t, j) := ParseLevel(toks, 6, i + 1).value;
      OfUnary(toks, i, j, t);
    } else {
      PrimarySound(toks, i);
      var (t, j) := ParsePrimary(toks, i).value;
      OfAtom(toks, i, j, t);
      RankBound(toks[j]);
    }
  }

  lemma {:induction false} TailSound(toks: seq<Token>, l: nat, left: Tree, i: nat, k: nat)
    requires Ended(toks) && i < k < |toks| && 1 <= l <= 5 && Phrase(toks, l, i, k, left) && Complete(toks, l + 1, k)
    requires ParseTail(toks, l, left, k).Some?
    ensures var (t, j) := ParseTail(toks, l, left, k).value;
            Phrase(toks, l, i, j, t) && Complete(toks, l, j)
    decreases |toks| - k, 7 - l, 0
  {
    hide Phrase, ParseLevel, ParseTail, Rank, OpLevel;
    SameRank(toks[k]);
    TailStep(toks, l, left, k);
    if OpLevel(toks[k]) == l {
      LevelSound(toks, l + 1, k + 1);
      var (right, p) := ParseLevel(toks, l + 1, k + 1).value;
      OfBinary(toks, l, i, k, p, left, right);
      TailSound(toks, l, BinopTree(toks[k], left, right), i, p);
    }
  }

  lemma {:induction false} PrimarySound(toks: seq<Token>, i: nat)
    requires Ended(toks) && i < |toks| && ParsePrimary(toks, i).Some?
    ensures var (t, j) := ParsePrimary(toks, i).value;
            Atom(toks, i, j, t) && Complete(toks, 7, j)
    decreases |toks| - i, 0, 1
  {
    var (t, j) := ParsePrimary(toks, i).value;
    RankBound(toks[j]);
    if toks[i].IDENT? && toks[i + 1] == LPAREN {
      CallSound(toks, i);
      hide ParsePrimary, CallAt, Rank;
    } else if toks[i] == LPAREN {
      ParenSound(toks, i);
      hide ParsePrimary, Phrase, Rank;
    } else {
      SingleSound(toks, i);
      hide ParsePrimary, Single, Rank;
    }
  }

  lemma SingleSound(toks: seq<Token>, i: nat)
    requires Ended(toks) && i < |toks| && ParsePrimary(toks, i).Some? && toks[i] != LPAREN
    requires toks[i].IDENT? ==> toks[i + 1] != LPAREN
    ensures ParsePrimary(toks, i).value.1 == i + 1 && Single(toks[i], ParsePrimary(toks, i).value.0)
  {
    hide ParseLevel, ParseArgs;
  }

  lemma {:induction false} CallSound(toks: seq<Token>, i: nat)
    requires Ended(toks) && i < |toks| && ParsePrimary(toks, i).Some? && toks[i].IDENT? && toks[i + 1] == LPAREN
    ensures var (t, j) := ParsePrimary(toks, i).value;
            CallAt(toks, i, j, t) && toks[j - 1] == RPAREN
    decreases |toks| - i, 0, 0
  {
    hide ParseArgs, ParsePrimary, NamedKind, CallKind, Arguments;
    PrimaryOfCall(toks, i);
    SameKind(toks[i].name);
    ArgsSound(toks, i + 2, []);
    var args := ParseArgs(toks, i + 2, []).value.0;
    assert args[0..] == args;
  }

  lemma {:induction false} ParenSound(toks: seq<Token>, i: nat)
    requires Ended(toks) && i < |toks| && ParsePrimary(toks, i).Some? && toks[i] == LPAREN
    ensures var (t, j) := ParsePrimary(toks, i).value;
            i + 3 <= j && toks[j - 1] == RPAREN && Phrase(toks, 1, i + 1, j - 1, t)
    decreases |toks| - i, 0, 0
  {
    hide ParseLevel, ParsePrimary, Phrase, Complete;
    PrimaryOfParen(toks, i);
    LevelSound(toks, 1, i + 1);
  }

  lemma PrimaryOfParen(toks: seq<Token>, i: nat)
    requires Ended(toks) && i < |toks| && toks[i] == LPAREN
    ensures var e := ParseLevel(toks, 1, i + 1);
            ParsePrimary(toks, i) == if e.Some? && toks[e.value.1] == RPAREN
                                       then Some((e.value.0, e.value.1 + 1)) else None
  {
    hide ParseLevel, ParseArgs;
  }

  lemma {:induction false} ArgsSound(toks: seq<Token>, i: nat, done: seq<Tree>)
    requires Ended(toks) && i < |toks| && ParseArgs(toks, i, done).Some? && |done| <= 64
    requires toks[ParseArgs(toks, i, done).value.1] == RPAREN
    ensures var (ts, j) := ParseArgs(toks, i, done).value;
            done <= ts && |ts| <= 64 && Arguments(toks, i, j, ts[|done|..])
    decreases |toks| - i, 8, 0
  {
    hide ParseArgs, ParseLevel, Arguments, Phrase, Complete, SizeAll, Size;
    var (ts, j) := ParseArgs(toks, i, done).value;
    if toks[i] == RPAREN || toks[i] == EOF {
      ArgsStop(toks, i, done);
      NoArguments(toks, i);
    } else {
      ArgsStep(toks, i, done);
      var (arg, p) := ParseLevel(toks, 1, i).value;
      LevelSound(toks, 1, i);
      if toks[p] == COMMA {
        ArgsSound(toks, p + 1, done + [arg]);
        OfArguments(toks, i, p, j, arg, ts[|done + [arg]|..]);
        assert ts[|done|..] == [arg] + ts[|done + [arg]|..];
      } else {
        OfArgument(toks, i, p, arg);
        assert ts[|done|..] == [arg];
      }
    }
  }

  lemma NoArguments(toks: seq<Token>, i: nat)
    requires i < |toks|
    ensures Arguments(toks, i, i, [])
  {
  }

  // ----- what is there the parser finds -----

  predicate Opening(t: Token) {
    t.INT? || t.STR? || t.IDENT? || t == TRUE || t == FALSE || t == LPAREN || t == MINUS || t == NOT
  }

  lemma {:induction false} PhraseOpens(toks: seq<Token>, l: nat, i: nat, j: nat, t: Tree)
    requires 1 <= l <= 7 && Phrase(toks, l, i, j, t)
    ensures Opening(toks[i])
    decreases if i <= j then j - i else 0, 7 - l
  {
    hide Rank;
    if l < 6 {
      if Phrase(toks, l + 1, i, j, t) {
        PhraseOpens(toks, l + 1, i, j, t);
      } else {
        var k: nat :| BinaryAt(toks, l, i, k, j, t);
        PhraseOpens(toks, l, i, k, t.kids[0]);
      }
    } else if l == 6 && toks[i] != MINUS && toks[i] != NOT {
      PhraseOpens(toks, 7, i, j, t);
    }
  }

  lemma {:induction false} LevelComplete(toks: seq<Token>, l: nat, i: nat, j: nat, t: Tree)
    requires Ended(toks) && 1 <= l <= 7 && Phrase(toks, l, i, j, t) && Complete(toks, l, j)
    ensures ParseLevel(toks, l, i) == Some((t, j))
    decreases if i <= j then j - i else 0, 7 - l, 2
  {
    hide ParseLevel, ParsePrimary, Phrase;
    Spans(toks, l, i, j, t);
    if l == 7 {
      AtomOf(toks, i, j, t);
      AtomComplete(toks, i, j, t);
      LevelOfAtom(toks, i);
    } else if l == 6 {
      UnaryComplete(toks, i, j, t);
    } else {
      Tighter(toks, l, l + 1, j);
      LevelReaches(toks, l, i, j, t);
      TailStops(toks, l, t, j);
    }
  }

  lemma TailStops(toks: seq<Token>, l: nat, t: Tree, j: nat)
    requires Ended(toks) && 1 <= l <= 5 && Complete(toks, l, j)
    ensures ParseTail(toks, l, t, j) == Some((t, j))
  {
    SameRank(toks[j]);
    hide Rank, OpLevel, ParseLevel;
  }

  lemma AtomOf(toks: seq<Token>, i: nat, j: nat, t: Tree)
    requires Phrase(toks, 7, i, j, t)
    ensures i < j < |toks| && Atom(toks, i, j, t)
  {
    hide Atom;
  }

  lemma {:induction false} UnaryComplete(toks: seq<Token>, i: nat, j: nat, t: Tree)
    requires Ended(toks) && Phrase(toks, 6, i, j, t) && Complete(toks, 6, j)
    ensures ParseLevel(toks, 6, i) == Some((t, j))
    decreases if i <= j then j - i else 0, 1, 1
  {
    hide ParseLevel, ParsePrimary, Rank, Atom;
    Spans(toks, 6, i, j, t);
    LevelOfUnary(toks, i);
    if toks[i] == MINUS || toks[i] == NOT {
      LevelComplete(toks, 6, i + 1, j, t.kids[0]);
      assert t.kids == [t.kids[0]];
    } else {
      AtomOf(toks, i, j, t);
      Tighter(toks, 6, 7, j);
      AtomComplete(toks, i, j, t);
    }
  }

  lemma {:induction false} LevelReaches(toks: seq<Token>, l: nat, i: nat, j: nat, t: Tree)
    requires Ended(toks) && 1 <= l <= 5 && Phrase(toks, l, i, j, t) && Complete(toks, l + 1, j)
    ensures ParseLevel(toks, l, i) == ParseTail(toks, l, t, j)
    decreases if i <= j then j - i else 0, 7 - l, 1
  {
    hide ParseLevel, ParseTail, Phrase, BinaryAt, Complete;
    Spans(toks, l, i, j, t);
    if Phrase(toks, l + 1, i, j, t) {
      LevelComplete(toks, l + 1, i, j, t);
      LevelOfBinary(toks, l, i);
    } else {
      var k := Split(toks, l, i, j, t);
      BinaryReaches(toks, l, i, k, j, t);
    }
  }

  lemma Split(toks: seq<Token>, l: nat, i: nat, j: nat, t: Tree) returns (k: nat)
    requires 1 <= l <= 5 && Phrase(toks, l, i, j, t) && !Phrase(toks, l + 1, i, j, t)
    ensures BinaryAt(toks, l, i, k, j, t)
  {
    assert exists k: nat :: BinaryAt(toks, l, i, k, j, t) by { hide BinaryAt; }
    hide Phrase, BinaryAt;
    k :| BinaryAt(toks, l, i, k, j, t);
  }

  lemma {:induction false} BinaryReaches(toks: seq<Token>, l: nat, i: nat, k: nat, j: nat, t: Tree)
    requires Ended(toks) && 1 <= l <= 5 && i < j && BinaryAt(toks, l, i, k, j, t) && Complete(toks, l + 1, j)
    ensures ParseLevel(toks, l, i) == ParseTail(toks, l, t, j)
    decreases j - i, 7 - l, 0
  {
    hide ParseLevel, ParseTail, Phrase, Complete, Rank, OpLevel;
    SameRank(toks[k]);
    BeforeOperator(toks, l, k);
    LevelReaches(toks, l, i, k, t.kids[0]);
    LevelComplete(toks, l + 1, k + 1, j, t.kids[1]);
    TailStep(toks, l, t.kids[0], k);
    assert t.kids == [t.kids[0], t.kids[1]];
  }

  lemma {:induction false} AtomComplete(toks: seq<Token>, i: nat, j: nat, t: Tree)
    requires Ended(toks) && i < j < |toks| && Atom(toks, i, j, t) && Complete(toks, 7, j)
    ensures ParsePrimary(toks, i) == Some((t, j))
    decreases j - i, 0, 1
  {
    hide ParsePrimary, Single, CallAt, Phrase, Rank;
    if j == i + 1 && Single(toks[i], t) {
      SingleComplete(toks, i, t);
    } else if toks[i].IDENT? {
      CallComplete(toks, i, j, t);
    } else {
      ParenComplete(toks, i, j, t);
    }
  }

  lemma SingleComplete(toks: seq<Token>, i: nat, t: Tree)
    requires Ended(toks) && i + 1 < |toks| && Single(toks[i], t) && !(toks[i].IDENT? && toks[i + 1] == LPAREN)
    ensures ParsePrimary(toks, i) == Some((t, i + 1))
  {
    hide ParseLevel, ParseArgs;
  }

  lemma {:induction false} CallComplete(toks: seq<Token>, i: nat, j: nat, t: Tree)
    requires Ended(toks) && i < j < |toks| && toks[i].IDENT? && CallAt(toks, i, j, t)
    ensures ParsePrimary(toks, i) == Some((t, j))
    decreases j - i, 0, 0
  {
    hide ParsePrimary, ParseArgs, Arguments, NamedKind, CallKind;
    SameKind(toks[i].name);
    PrimaryOfCall(toks, i);
    ArgsComplete(toks, i + 2, j - 1, t.kids, []);
    assert [] + t.kids == t.kids;
  }

  lemma {:induction false} ParenComplete(toks: seq<Token>, i: nat, j: nat, t: Tree)
    requires Ended(toks) && i + 3 <= j < |toks| && toks[i] == LPAREN && toks[j - 1] == RPAREN
    requires Phrase(toks, 1, i + 1, j - 1, t)
    ensures ParsePrimary(toks, i) == Some((t, j))
    decreases j - i, 0, 0
  {
    hide ParseLevel, ParsePrimary, Phrase, Complete;
    PrimaryOfParen(toks, i);
    Closed(toks, 1, j - 1);
    LevelComplete(toks, 1, i + 1, j - 1, t);
  }

  lemma {:induction false} ArgsComplete(toks: seq<Token>, i: nat, j: nat, ts: seq<Tree>, done: seq<Tree>)
    requires Ended(toks) && i <= j < |toks| && Arguments(toks, i, j, ts) && toks[j] == RPAREN && |done| + |ts| <= 64
    ensures ParseArgs(toks, i, done) == Some((done + ts, j))
    decreases j - i, 8, 1
  {
    hide ParseArgs, ArgumentTo;
    if ts == [] {
      assert done + ts == done;
      ArgsStop(toks, i, done);
    } else {
      var k: nat :| ArgumentTo(toks, i, k, j, ts);
      ArgsTake(toks, i, k, j, ts, done);
    }
  }

  lemma {:induction false} ArgsTake(
      toks: seq<Token>, i: nat, k: nat, j: nat, ts: seq<Tree>, done: seq<Tree>)
    requires Ended(toks) && i <= j < |toks| && ts != [] && ArgumentTo(toks, i, k, j, ts) && toks[j] == RPAREN
    requires |done| + |ts| <= 64
    ensures ParseArgs(toks, i, done) == Some((done + ts, j))
    decreases j - i, 8, 0
  {
    hide ParseArgs, ParseLevel, Phrase, Arguments, Complete, Size, SizeAll;
    PhraseOpens(toks, 1, i, k, ts[0]);
    Closed(toks, 1, k);
    LevelComplete(toks, 1, i, k, ts[0]);
    ArgsStep(toks, i, done);
    if k < j {
      ArgsComplete(toks, k + 1, j, ts[1..], done + [ts[0]]);
      assert done + [ts[0]] + ts[1..] == done + ts;
    } else {
      assert ts == [ts[0]];
    }
  }

  /** The parser reads an expression exactly where there is one, to its very end. */
  lemma ExpressionExactly(toks: seq<Token>, i: nat, j: nat, t: Tree)
    requires Ended(toks) && i < |toks|
    ensures ParseLevel(toks, 1, i) == Some((t, j)) <==> Phrase(toks, 1, i, j, t) && Complete(toks, 1, j)
  {
    hide Phrase, ParseLevel, Complete;
    if ParseLevel(toks, 1, i).Some? { LevelSound(toks, 1, i); }
    if Phrase(toks, 1, i, j, t) && Complete(toks, 1, j) { LevelComplete(toks, 1, i, j, t); }
  }
}
