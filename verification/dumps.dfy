/**
 * The indented debugging dump produced by `convertToString(indentLevel)`:
 * one token per line, the line indented by one tab per level, a node's
 * children dumped after it, in order, one level deeper.
 */
module Dumps {
  import opened Trees

  /** `n` tab characters; none when `n` is zero or negative (the source's
      `for (i = 0; i < indentLevel; i++)` loop runs no round then). */
  function Tabs(n: int): (r: string)
    decreases n
  {
    if n <= 0 then "" else "\t" + Tabs(n - 1)
  }

  /** The token on a node's own line: the operation of a chain, "()" for a
      parenthetical and, by assumption, the text of a literal. */
  function Token(t: Tree): string
  {
    match t
    case Literal(s) => s
    case Chain(op, _) => op
    case Paren(_) => "()"
  }

  /** The dump of `t` at level `n`: every node on a line of its own, so the
      text ends with a newline and has at least one character per node. */
  function Dump(t: Tree, n: int): (r: string)
    decreases t, 1
    ensures |r| >= Size(t)
  {
    Tabs(n) + Token(t) + "\n" +
    match t
    case Literal(_) => ""
    case Chain(_, ks) => DumpEach(ks, n + 1)
    case Paren(ks) => DumpEach(ks, n + 1)
  }

  function DumpEach(ks: seq<Tree>, n: int): (r: string)
    decreases ks, 0
    ensures |r| >= SizeEach(ks)
  {
    if ks == [] then "" else DumpEach(ks[..|ks| - 1], n) + Dump(ks[|ks| - 1], n)
  }

  /** A node's dump is its own line followed by its subtrees' dumps. */
  lemma DumpUnfold(t: Tree, n: int)
    ensures Dump(t, n) == Tabs(n) + Token(t) + "\n" + DumpEach(Subtrees(t), n + 1)
  {
  }

  /** One more child's dump at the end of the dump of a prefix of `ks`. */
  lemma DumpEachSnoc(ks: seq<Tree>, k: nat, n: int)
    requires k < |ks|
    ensures DumpEach(ks[..k + 1], n) == DumpEach(ks[..k], n) + Dump(ks[k], n)
  {
    assert ks[..k + 1][..k] == ks[..k];
  }

  // ---------------------------------------------------------------------
  // An independent description: the pre-order list of (depth, token) lines
  // ---------------------------------------------------------------------

  datatype Line = Line(depth: int, token: string)

  function Size(t: Tree): nat
    decreases t, 1
  {
    1 + match t
        case Literal(_) => 0
        case Chain(_, ks) => SizeEach(ks)
        case Paren(ks) => SizeEach(ks)
  }

  function SizeEach(ks: seq<Tree>): nat
    decreases ks, 0
  {
    if ks == [] then 0 else SizeEach(ks[..|ks| - 1]) + Size(ks[|ks| - 1])
  }

  /** Every node of `t` in pre-order, with its depth counted from `n`. */
  function Preorder(t: Tree, n: int): seq<Line>
    decreases t, 1
  {
    [Line(n, Token(t))] +
    match t
    case Literal(_) => []
    case Chain(_, ks) => PreorderEach(ks, n + 1)
    case Paren(ks) => PreorderEach(ks, n + 1)
  }

  function PreorderEach(ks: seq<Tree>, n: int): seq<Line>
    decreases ks, 0
  {
    if ks == [] then [] else PreorderEach(ks[..|ks| - 1], n) + Preorder(ks[|ks| - 1], n)
  }

  /** One line printed: its token indented by its depth. */
  function Show(l: Line): string
  {
    Tabs(l.depth) + l.token + "\n"
  }

  /** Lines printed one after the other. */
  function Render(ls: seq<Line>): string
  {
    if ls == [] then "" else Render(ls[..|ls| - 1]) + Show(ls[|ls| - 1])
  }

  lemma {:induction false} RenderAppend(a: seq<Line>, b: seq<Line>)
    ensures Render(a + b) == Render(a) + Render(b)
    decreases |b|
  {
    if b == [] {
      assert a + b == a;
    } else {
      var n := |b| - 1;
      assert (a + b)[..|a + b| - 1] == a + b[..n];
      RenderAppend(a, b[..n]);
      assert Render(a + b) == (Render(a) + Render(b[..n])) + Show(b[n]);
    }
  }

  /** The dump is the pre-order list of the nodes, one line per node, each
      indented by its depth. */
  lemma {:induction false} DumpIsPreorder(t: Tree, n: int)
    ensures Dump(t, n) == Render(Preorder(t, n))
    decreases t, 1
  {
    var head := [Line(n, Token(t))];
    assert Render(head) == Show(Line(n, Token(t))) by {
      assert head[..0] == [];
    }
    match t
    case Literal(_) =>
      assert Preorder(t, n) == head;
    case Chain(_, ks) =>
      DumpEachIsPreorder(ks, n + 1);
      RenderAppend(head, PreorderEach(ks, n + 1));
    case Paren(ks) =>
      DumpEachIsPreorder(ks, n + 1);
      RenderAppend(head, PreorderEach(ks, n + 1));
  }

  lemma {:induction false} DumpEachIsPreorder(ks: seq<Tree>, n: int)
    ensures DumpEach(ks, n) == Render(PreorderEach(ks, n))
    decreases ks, 0
  {
    if ks != [] {
      var m := |ks| - 1;
      DumpEachIsPreorder(ks[..m], n);
      DumpIsPreorder(ks[m], n);
      RenderAppend(PreorderEach(ks[..m], n), Preorder(ks[m], n));
    }
  }

  /** One line per node; the first is the node's own token at depth `n`
      and every other line is deeper. */
  lemma {:induction false} PreorderShape(t: Tree, n: int)
    ensures |Preorder(t, n)| == Size(t)
    ensures Preorder(t, n)[0] == Line(n, Token(t))
    ensures forall k :: 1 <= k < |Preorder(t, n)| ==> Preorder(t, n)[k].depth > n
    decreases t, 1
  {
    match t
    case Literal(_) =>
    case Chain(_, ks) =>
      PreorderEachShape(ks, n + 1);
    case Paren(ks) =>
      PreorderEachShape(ks, n + 1);
  }

  lemma {:induction false} PreorderEachShape(ks: seq<Tree>, n: int)
    ensures |PreorderEach(ks, n)| == SizeEach(ks)
    ensures forall k :: 0 <= k < |PreorderEach(ks, n)| ==> PreorderEach(ks, n)[k].depth >= n
    decreases ks, 0
  {
    if ks != [] {
      var m := |ks| - 1;
      PreorderEachShape(ks[..m], n);
      PreorderShape(ks[m], n);
    }
  }
}
