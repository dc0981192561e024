/**
 * The abstract value of an expression tree and the pure specification of
 * flattening.
 *
 * A `Tree` is what an expression node denotes once object identity, parent
 * back-references and the heap are forgotten: a literal leaf, an n-ary
 * operator chain (`+` or `*`) with its operands in left-to-right order, or a
 * parenthetical grouping.  `Flat` is the rewrite that `flatten()` performs on
 * the heap, stated as a function: children first, then every child that is a
 * chain with the same operator is replaced, in place, by its own children.
 */
module Trees {

  datatype Tree =
    | Literal(text: string)
    | Chain(op: string, kids: seq<Tree>)
    | Paren(kids: seq<Tree>)

  /** The ordered children of a node (a literal has none). */
  function Subtrees(t: Tree): seq<Tree>
  {
    match t
    case Literal(_) => []
    case Chain(_, ks) => ks
    case Paren(ks) => ks
  }

  /** An enclosing chain with operator `op` merges `f` into itself. */
  predicate Absorbs(op: string, f: Tree)
  {
    f.Chain? && f.op == op
  }

  /** What one (already flattened) child contributes to the merged list. */
  function Piece(op: string, f: Tree): seq<Tree>
  {
    if Absorbs(op, f) then f.kids else [f]
  }

  /** The in-order concatenation of the pieces of `fs`. */
  function Splice(op: string, fs: seq<Tree>): seq<Tree>
  {
    if fs == [] then [] else Splice(op, fs[..|fs| - 1]) + Piece(op, fs[|fs| - 1])
  }

  /** Post-order flattening of a whole subtree. */
  function Flat(t: Tree): (r: Tree)
    decreases t
    ensures r.Literal? == t.Literal? && r.Chain? == t.Chain? && r.Paren? == t.Paren?
    ensures r.Literal? ==> r == t
    ensures r.Chain? ==> r.op == t.op
  {
    match t
    case Literal(_) => t
    case Chain(op, ks) => Chain(op, Splice(op, FlatEach(ks)))
    case Paren(ks) => Paren(FlatEach(ks))
  }

  /** Every element of `ks` flattened, in order. */
  function FlatEach(ks: seq<Tree>): (r: seq<Tree>)
    decreases ks
    ensures |r| == |ks|
    ensures forall i :: 0 <= i < |ks| ==> r[i] == Flat(ks[i])
  {
    if ks == [] then [] else FlatEach(ks[..|ks| - 1]) + [Flat(ks[|ks| - 1])]
  }

  /** No chain anywhere in `t` has a same-operator chain as an immediate child. */
  ghost predicate Flattened(t: Tree)
  {
    match t
    case Literal(_) => true
    case Chain(op, ks) => forall i :: 0 <= i < |ks| ==> !Absorbs(op, ks[i]) && Flattened(ks[i])
    case Paren(ks) => forall i :: 0 <= i < |ks| ==> Flattened(ks[i])
  }

  /** The literal texts of a subtree, left to right. */
  function Leaves(t: Tree): seq<string>
    decreases t
  {
    match t
    case Literal(s) => [s]
    case Chain(_, ks) => LeavesEach(ks)
    case Paren(ks) => LeavesEach(ks)
  }

  function LeavesEach(ks: seq<Tree>): seq<string>
    decreases ks
  {
    if ks == [] then [] else LeavesEach(ks[..|ks| - 1]) + Leaves(ks[|ks| - 1])
  }

  /** A prefix one element longer. */
  lemma PrefixSnoc<T>(ks: seq<T>, k: nat)
    requires k < |ks|
    ensures ks[..k + 1] == ks[..k] + [ks[k]]
  {
  }

  lemma PrefixWhole<T>(ks: seq<T>)
    ensures ks[..|ks|] == ks
  {
  }

  lemma PrefixOfPrefix<T>(ks: seq<T>, i: nat, j: nat)
    requires i <= j <= |ks|
    ensures ks[..j][..i] == ks[..i]
  {
  }

  /** `ks` with its first `n` elements flattened, one at a time from the
      left: the state of a child list part way through a flatten() loop. */
  function FlatUpTo(ks: seq<Tree>, n: nat): (r: seq<Tree>)
    requires n <= |ks|
    ensures |r| == |ks|
  {
    if n == 0 then ks else FlatUpTo(ks, n - 1)[n - 1 := Flat(ks[n - 1])]
  }

  /** Part way through, the elements before `n` are flattened and the
      others untouched. */
  lemma {:induction false} FlatUpToAt(ks: seq<Tree>, n: nat)
    requires n <= |ks|
    ensures forall k :: 0 <= k < |ks| ==> FlatUpTo(ks, n)[k] == if k < n then Flat(ks[k]) else ks[k]
  {
    if n > 0 {
      FlatUpToAt(ks, n - 1);
    }
  }

  /** The element about to be flattened is still the original one. */
  lemma FlatUpToNext(ks: seq<Tree>, n: nat)
    requires n < |ks|
    ensures FlatUpTo(ks, n)[n] == ks[n]
  {
    FlatUpToAt(ks, n);
  }

  lemma FlatUpToAll(ks: seq<Tree>)
    ensures FlatUpTo(ks, |ks|) == FlatEach(ks)
  {
    FlatUpToAt(ks, |ks|);
    assert forall k :: 0 <= k < |ks| ==> FlatUpTo(ks, |ks|)[k] == FlatEach(ks)[k];
  }

  /** A parenthetical whose operands are all flattened is flat. */
  lemma FlatUpToParen(ks: seq<Tree>)
    ensures Paren(FlatUpTo(ks, |ks|)) == Flat(Paren(ks))
  {
    FlatUpToAll(ks);
  }

  // ---------------------------------------------------------------------
  // Splice: concatenation structure
  // ---------------------------------------------------------------------

  /** Splicing distributes over concatenation of the child list. */
  lemma {:induction false} SpliceAppend(op: string, fs: seq<Tree>, gs: seq<Tree>)
    ensures Splice(op, fs + gs) == Splice(op, fs) + Splice(op, gs)
    decreases |gs|
  {
    if gs == [] {
      assert fs + gs == fs;
    } else {
      var n := |gs| - 1;
      assert (fs + gs)[..|fs + gs| - 1] == fs + gs[..n];
      SpliceAppend(op, fs, gs[..n]);
    }
  }

  /** The elements of the spliced list are exactly the children of `fs`
      that are not merged and the children of those that are. */
  lemma {:induction false} SpliceElements(op: string, fs: seq<Tree>)
    ensures forall g :: g in Splice(op, fs) <==>
      (g in fs && !Absorbs(op, g)) || exists f :: f in fs && Absorbs(op, f) && g in f.kids
    decreases |fs|
  {
    if fs != [] {
      var n := |fs| - 1;
      SpliceElements(op, fs[..n]);
      assert fs == fs[..n] + [fs[n]];
    }
  }

  /** A child that is not merged stays a single element, between the pieces
      of the children before it and the pieces of the children after it. */
  lemma SpliceKeeps(op: string, fs: seq<Tree>, j: nat)
    requires j < |fs| && !Absorbs(op, fs[j])
    ensures Splice(op, fs) == Splice(op, fs[..j]) + [fs[j]] + Splice(op, fs[j + 1..])
  {
    assert fs == fs[..j] + [fs[j]] + fs[j + 1..];
    SpliceAppend(op, fs[..j] + [fs[j]], fs[j + 1..]);
    SpliceAppend(op, fs[..j], [fs[j]]);
    assert Splice(op, [fs[j]]) == [fs[j]] by {
      assert [fs[j]][..0] == [];
    }
  }

  /** A child that is merged is replaced, in place, by its own children:
      they stand between the pieces of the children before it and the
      pieces of the children after it, whatever its position. */
  lemma SpliceMerges(op: string, fs: seq<Tree>, j: nat)
    requires j < |fs| && Absorbs(op, fs[j])
    ensures Splice(op, fs) == Splice(op, fs[..j]) + fs[j].kids + Splice(op, fs[j + 1..])
  {
    assert fs == fs[..j] + [fs[j]] + fs[j + 1..];
    SpliceAppend(op, fs[..j] + [fs[j]], fs[j + 1..]);
    SpliceAppend(op, fs[..j], [fs[j]]);
    assert Splice(op, [fs[j]]) == fs[j].kids by {
      assert [fs[j]][..0] == [];
    }
  }

  /** If no child is a same-operator chain, splicing changes nothing. */
  lemma {:induction false} SpliceIdentity(op: string, fs: seq<Tree>)
    requires forall i :: 0 <= i < |fs| ==> !Absorbs(op, fs[i])
    ensures Splice(op, fs) == fs
    decreases |fs|
  {
    if fs != [] {
      var n := |fs| - 1;
      SpliceIdentity(op, fs[..n]);
      assert fs[..n] + [fs[n]] == fs;
    }
  }

  /** Splicing flattened children yields flattened elements none of which
      is a same-operator chain. */
  lemma {:induction false} SpliceFlattened(op: string, fs: seq<Tree>)
    requires forall i :: 0 <= i < |fs| ==> Flattened(fs[i])
    ensures forall g :: g in Splice(op, fs) ==> Flattened(g) && !Absorbs(op, g)
    decreases |fs|
  {
    if fs != [] {
      var n := |fs| - 1;
      SpliceFlattened(op, fs[..n]);
      var f := fs[n];
      if Absorbs(op, f) {
        forall g | g in f.kids ensures Flattened(g) && !Absorbs(op, g) {
          var k :| 0 <= k < |f.kids| && f.kids[k] == g;
        }
      }
    }
  }

  // ---------------------------------------------------------------------
  // Flattening: normal form and idempotence
  // ---------------------------------------------------------------------

  /** Flattening reaches the normal form: no chain keeps a same-operator
      chain as a child, at any depth. */
  lemma {:induction false} FlatFlattened(t: Tree)
    ensures Flattened(Flat(t))
    decreases t, 1
  {
    match t
    case Literal(_) =>
    case Chain(op, ks) =>
      FlatEachFlattened(ks);
      SpliceFlattened(op, FlatEach(ks));
      var r := Splice(op, FlatEach(ks));
      assert forall i :: 0 <= i < |r| ==> r[i] in r;
    case Paren(ks) =>
      FlatEachFlattened(ks);
  }

  lemma {:induction false} FlatEachFlattened(ks: seq<Tree>)
    ensures forall i :: 0 <= i < |ks| ==> Flattened(FlatEach(ks)[i])
    decreases ks, 0
  {
    forall i | 0 <= i < |ks| ensures Flattened(FlatEach(ks)[i]) {
      FlatFlattened(ks[i]);
    }
  }

  /** A tree already in normal form is a fixed point of flattening. */
  lemma {:induction false} FlatFixed(t: Tree)
    requires Flattened(t)
    ensures Flat(t) == t
    decreases t
  {
    match t
    case Literal(_) =>
    case Chain(op, ks) =>
      forall i | 0 <= i < |ks| ensures FlatEach(ks)[i] == ks[i] {
        FlatFixed(ks[i]);
      }
      assert FlatEach(ks) == ks;
      SpliceIdentity(op, ks);
    case Paren(ks) =>
      forall i | 0 <= i < |ks| ensures FlatEach(ks)[i] == ks[i] {
        FlatFixed(ks[i]);
      }
      assert FlatEach(ks) == ks;
  }

  /** Flattening twice is flattening once. */
  lemma FlatIdempotent(t: Tree)
    ensures Flat(Flat(t)) == Flat(t)
  {
    FlatFlattened(t);
    FlatFixed(Flat(t));
  }

  /** A child of a chain that is not merged (a literal, a parenthetical or a
      chain with a different operator) is kept whole, flattened internally,
      between the pieces of its flattened left siblings and those of its
      flattened right ones. */
  lemma FlatKeepsUnmerged(op: string, ks: seq<Tree>, j: nat)
    requires j < |ks| && !Absorbs(op, ks[j])
    ensures Flat(Chain(op, ks)).kids
         == Splice(op, FlatEach(ks)[..j]) + [Flat(ks[j])] + Splice(op, FlatEach(ks)[j + 1..])
  {
    SpliceKeeps(op, FlatEach(ks), j);
  }

  /** A same-operator chain at any position among the operands, not only
      the first or the last, is merged: its flattened operands take its
      place. */
  lemma FlatMergesAnywhere(op: string, ks: seq<Tree>, j: nat)
    requires j < |ks| && Absorbs(op, ks[j])
    ensures Flat(Chain(op, ks)).kids
         == Splice(op, FlatEach(ks)[..j]) + Flat(ks[j]).kids + Splice(op, FlatEach(ks)[j + 1..])
  {
    SpliceMerges(op, FlatEach(ks), j);
  }

  /** Parentheses are a boundary: a parenthetical operand of a chain stays a
      single operand, and only its inside is flattened. */
  lemma FlatParenBoundary(op: string, ks: seq<Tree>, j: nat)
    requires j < |ks| && ks[j].Paren?
    ensures Flat(Chain(op, ks)).kids
         == Splice(op, FlatEach(ks)[..j]) + [Paren(FlatEach(ks[j].kids))] + Splice(op, FlatEach(ks)[j + 1..])
  {
    FlatKeepsUnmerged(op, ks, j);
  }

  // ---------------------------------------------------------------------
  // Flattening preserves the operands' left-to-right order
  // ---------------------------------------------------------------------

  lemma {:induction false} LeavesEachAppend(fs: seq<Tree>, gs: seq<Tree>)
    ensures LeavesEach(fs + gs) == LeavesEach(fs) + LeavesEach(gs)
    decreases |gs|
  {
    if gs == [] {
      assert fs + gs == fs;
    } else {
      var n := |gs| - 1;
      assert (fs + gs)[..|fs + gs| - 1] == fs + gs[..n];
      LeavesEachAppend(fs, gs[..n]);
    }
  }

  lemma {:induction false} SpliceKeepsLeaves(op: string, fs: seq<Tree>)
    ensures LeavesEach(Splice(op, fs)) == LeavesEach(fs)
    decreases |fs|
  {
    if fs != [] {
      var n := |fs| - 1;
      SpliceKeepsLeaves(op, fs[..n]);
      LeavesEachAppend(Splice(op, fs[..n]), Piece(op, fs[n]));
      if !Absorbs(op, fs[n]) {
        assert [fs[n]][..0] == [];
      }
    }
  }

  /** Flattening never reorders, drops or duplicates a literal. */
  lemma {:induction false} FlatKeepsLeaves(t: Tree)
    ensures Leaves(Flat(t)) == Leaves(t)
    decreases t, 1
  {
    match t
    case Literal(_) =>
    case Chain(op, ks) =>
      FlatEachKeepsLeaves(ks);
      SpliceKeepsLeaves(op, FlatEach(ks));
    case Paren(ks) =>
      FlatEachKeepsLeaves(ks);
  }

  lemma {:induction false} FlatEachKeepsLeaves(ks: seq<Tree>)
    ensures LeavesEach(FlatEach(ks)) == LeavesEach(ks)
    decreases ks, 0
  {
    if ks != [] {
      var n := |ks| - 1;
      FlatEachKeepsLeaves(ks[..n]);
      FlatKeepsLeaves(ks[n]);
      assert FlatEach(ks)[..n] == FlatEach(ks[..n]);
    }
  }

  // ---------------------------------------------------------------------
  // The editor's sample input
  // ---------------------------------------------------------------------

  /** `a op b` for two literals. */
  function Binary(op: string, a: string, b: string): Tree
  {
    Chain(op, [Literal(a), Literal(b)])
  }

  /** "2*x+3*y+4*z+(7+6*z)" as a left-nested binary parse. */
  function SampleParse(): Tree
  {
    Chain("+", [
      Chain("+", [
        Chain("+", [Binary("*", "2", "x"), Binary("*", "3", "y")]),
        Binary("*", "4", "z")]),
      Paren([Chain("+", [Literal("7"), Binary("*", "6", "z")])])])
  }

  lemma BinaryFlat(op: string, a: string, b: string)
    ensures Flat(Binary(op, a, b)) == Binary(op, a, b)
  {
    assert Flattened(Binary(op, a, b));
    FlatFixed(Binary(op, a, b));
  }

  /** Flattening a two-operand chain whose left operand is a same-operator
      chain appends the right operand to that chain's flattened operands. */
  lemma MergeLeft(op: string, left: Tree, merged: seq<Tree>, right: Tree)
    requires Flat(left) == Chain(op, merged)
    requires Flat(right) == right && !Absorbs(op, right)
    ensures Flat(Chain(op, [left, right])) == Chain(op, merged + [right])
  {
    var l := Chain(op, merged);
    assert FlatEach([left, right]) == [l, right];
    SpliceAppend(op, [l], [right]);
    assert [l] + [right] == [l, right];
    assert Splice(op, [l]) == merged by { assert [l][..0] == []; }
    assert Splice(op, [right]) == [right] by { assert [right][..0] == []; }
  }

  /** The sample's shape: a left-nested `plus` chain over three operands
      already in normal form, then a fourth operand in normal form. */
  lemma LeftNestedFlattens(plus: string, a: Tree, b: Tree, c: Tree, d: Tree)
    requires Flat(a) == a && Flat(b) == b && Flat(c) == c && Flat(d) == d
    requires !Absorbs(plus, a) && !Absorbs(plus, b) && !Absorbs(plus, c) && !Absorbs(plus, d)
    ensures Flat(Chain(plus, [Chain(plus, [Chain(plus, [a, b]), c]), d])) == Chain(plus, [a, b, c, d])
  {
    var inner := Chain(plus, [a, b]);
    PairFlat(plus, a, b);
    MergeLeft(plus, inner, [a, b], c);
    assert [a, b] + [c] == [a, b, c];
    MergeLeft(plus, Chain(plus, [inner, c]), [a, b, c], d);
    assert [a, b, c] + [d] == [a, b, c, d];
  }

  /** Two operands in normal form that do not merge make a chain in normal
      form. */
  lemma PairFlat(op: string, a: Tree, b: Tree)
    requires Flat(a) == a && Flat(b) == b && !Absorbs(op, a) && !Absorbs(op, b)
    ensures Flat(Chain(op, [a, b])) == Chain(op, [a, b])
  {
    assert FlatEach([a, b]) == [a, b];
    SpliceIdentity(op, [a, b]);
  }

  /** A parenthetical around `x plus (y times z)` is in normal form. */
  lemma GroupFlat(plus: string, times: string, x: string, y: string, z: string)
    requires plus != times
    ensures Flat(Paren([Chain(plus, [Literal(x), Binary(times, y, z)])]))
         == Paren([Chain(plus, [Literal(x), Binary(times, y, z)])])
  {
    var g := Chain(plus, [Literal(x), Binary(times, y, z)]);
    assert Flattened(Binary(times, y, z));
    assert Flattened(g);
    assert Flattened(Paren([g]));
    FlatFixed(Paren([g]));
  }

  /** A middle operand `b op c` of `a op (b op c) op d` is merged: the
      flattened chain is `a op b op c op d`. */
  lemma InnerMergeFlattens(op: string, a: string, b: string, c: string, d: string)
    ensures Flat(Chain(op, [Literal(a), Binary(op, b, c), Literal(d)]))
         == Chain(op, [Literal(a), Literal(b), Literal(c), Literal(d)])
  {
    var ks := [Literal(a), Binary(op, b, c), Literal(d)];
    BinaryFlat(op, b, c);
    assert FlatEach(ks) == ks;
    FlatMergesAnywhere(op, ks, 1);
    assert ks[..1] == [Literal(a)] && ks[2..] == [Literal(d)];
    SpliceIdentity(op, [Literal(a)]);
    SpliceIdentity(op, [Literal(d)]);
    assert [Literal(a)] + [Literal(b), Literal(c)] + [Literal(d)]
        == [Literal(a), Literal(b), Literal(c), Literal(d)];
  }

  /** After flattening, the top `+` chain has four operands: the three
      products and the parenthetical, whose inner `+` stays separate. */
  lemma SampleFlattens()
    ensures Flat(SampleParse()) == Chain("+", [
      Binary("*", "2", "x"), Binary("*", "3", "y"), Binary("*", "4", "z"),
      Paren([Chain("+", [Literal("7"), Binary("*", "6", "z")])])])
  {
    BinaryFlat("*", "2", "x");
    BinaryFlat("*", "3", "y");
    BinaryFlat("*", "4", "z");
    GroupFlat("+", "*", "7", "6", "z");
    LeftNestedFlattens("+", Binary("*", "2", "x"), Binary("*", "3", "y"), Binary("*", "4", "z"),
      Paren([Chain("+", [Literal("7"), Binary("*", "6", "z")])]));
  }
}
