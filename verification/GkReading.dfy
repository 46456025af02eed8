/** From the characters of a source text to its tree, in one statement: what texts are programs, and of which tree. */
module GkReading {
  import opened Options
  import opened GkSyntax
  import opened GkGrammar
  import opened GkText
  import opened GkLexemes
  import S = GkStatements
  import GkPrograms

  /** How many nodes a tree has. */
  function Nodes(t: Tree): nat
    decreases t, 1
  {
    1 + NodesOf(t.kids)
  }

  function NodesOf(ts: seq<Tree>): nat
    decreases ts, 0
  {
    if ts == [] then 0 else Nodes(ts[0]) + NodesOf(ts[1..])
  }

  /** The text is made of lines of these tokens, at most 2048, which are split as a program of this tree, of at
      most 2048 nodes. */
  ghost predicate Reads(src: string, ts: seq<Token>, t: Tree) {
    Text(src, 0, [0], ts) && |ts| <= 2048 && S.Program(ts, t) && Nodes(t) <= 2048
  }

  lemma {:induction false} SizeIs(t: Tree)
    ensures Nodes(t) == Size(t)
    decreases t, 1
  {
    SizeAllIs(t.kids);
  }

  lemma {:induction false} SizeAllIs(ts: seq<Tree>)
    ensures NodesOf(ts) == SizeAll(ts)
    decreases ts, 0
  {
    if ts != [] {
      SizeIs(ts[0]);
      SizeAllIs(ts[1..]);
      SizeAllFront(ts);
    }
  }

  lemma {:induction false} SizeAllFront(ts: seq<Tree>)
    requires ts != []
    ensures SizeAll(ts) == Size(ts[0]) + SizeAll(ts[1..])
    decreases |ts|
  {
    hide Size;
    var front := ts[..|ts| - 1];
    if front == [] {
      assert ts == [ts[0]];
    } else {
      SizeAllFront(front);
      assert ts[1..] == front[1..] + [ts[|ts| - 1]];
      SizeAllSnoc(front[1..], ts[|ts| - 1]);
    }
  }

  /** The program of a source text, and when it is none. */
  lemma ReadExactly(src: string, t: Tree)
    ensures GkPrograms.Program(src) == Some(t) <==> exists ts: seq<Token> :: Reads(src, ts, t)
  {
    ReadSteps(src, t);
    SizeIs(t);
    hide Text, S.Program, Nodes, Size, GkPrograms.Program, Tokens;
    if Tokens(src).Some? {
      var ts := Tokens(src).value;
      TokensExactly(src, ts);
      TokensBalance(src);
      S.ProgramExactly(ts, t);
      assert Reads(src, ts, t) <==> Text(src, 0, [0], ts) && |ts| <= 2048 && S.Program(ts, t) && Nodes(t) <= 2048;
    }
    if ts: seq<Token> :| Reads(src, ts, t) {
      TokensExactly(src, ts);
    }
  }

  lemma ReadSteps(src: string, t: Tree)
    ensures Tokens(src).None? ==> GkPrograms.Program(src) == None
    ensures Tokens(src).Some? && Ended(Tokens(src).value) ==>
              (GkPrograms.Program(src) == Some(t)
               <==> |Tokens(src).value| <= 2048 && ParseProgram(Tokens(src).value) == Some(t) && Size(t) <= 2048)
  {
    hide Tokens, ParseProgram, Size;
  }
}
