/**
 * The mutable expression nodes of the editor.
 *
 * One class stands for the three node classes: a `kind` tag says whether a
 * node is an operator chain (SimpleCompoundExpression), a parenthetical
 * (ParentheticalExpression) or a literal leaf.  The two compound kinds share
 * the state of AbstractCompoundExpression: an ordered child list and a
 * non-owning parent back-reference.
 *
 * Every node carries two ghost fields: `model`, the `Tree` value the node
 * denotes, and `Repr`, the objects of its subtree.  `Valid()` ties them to
 * the real fields and requires the subtree to be a tree: children's
 * footprints are pairwise disjoint and every child's parent is its owner.
 * `Valid()` does not read the node's own `parent` field, so re-parenting a
 * node never disturbs that node's own validity.
 */
module Expressions {
  import opened Trees
  import Dumps
  import Labels

  datatype Kind = LiteralKind | ChainKind | ParenKind

  class Expr {
    const kind: Kind
    /** The operation of a chain, "+" or "*"; empty for the other kinds. */
    const op: string
    /** The text of a literal; empty for the other kinds. */
    const text: string
    var children: seq<Expr>
    var parent: Expr?

    ghost var model: Tree
    ghost var Repr: set<object>

    /** The tree this node denotes, given the trees of its children. */
    ghost function Like(kids: seq<Tree>): Tree
    {
      match kind
      case LiteralKind => Trees.Literal(text)
      case ChainKind => Trees.Chain(op, kids)
      case ParenKind => Trees.Paren(kids)
    }

    ghost predicate Valid()
      reads this`children, this`model, this`Repr, Repr - {this}
      decreases Repr
    {
      this in Repr &&
      model == Like(Subtrees(model)) &&
      |Subtrees(model)| == |children| &&
      (forall i :: 0 <= i < |children| ==>
        children[i] in Repr && children[i].Repr <= Repr && this !in children[i].Repr &&
        children[i].parent == this &&
        children[i].model == Subtrees(model)[i] &&
        children[i].Valid()) &&
      (forall i, j :: 0 <= i < j < |children| ==> children[i].Repr !! children[j].Repr)
    }

    /** The weaker invariant that reading a subtree needs: every node
        denotes the tree built from its children's trees.  Parent fields and
        the disjointness of siblings do not matter to it. */
    ghost predicate Denotes()
      reads this`children, this`model, this`Repr, Repr - {this}
      decreases Repr
    {
      this in Repr &&
      model == Like(Subtrees(model)) &&
      |Subtrees(model)| == |children| &&
      forall i :: 0 <= i < |children| ==>
        children[i] in Repr && children[i].Repr <= Repr && this !in children[i].Repr &&
        children[i].model == Subtrees(model)[i] &&
        children[i].Denotes()
    }

    /** A valid subtree denotes its tree. */
    lemma ValidDenotes()
      requires Valid()
      ensures Denotes()
      decreases Repr
    {
      forall i | 0 <= i < |children| ensures children[i].Denotes() {
        children[i].ValidDenotes();
      }
    }

    /** What `Denotes()` says of one child. */
    lemma ChildDenotes(i: nat)
      requires Denotes() && i < |children|
      ensures children[i].Denotes() && children[i].model == Subtrees(model)[i]
      ensures children[i].Repr < Repr
    {
    }

    /** What validity says of one child. */
    lemma ChildValid(i: nat)
      requires Valid() && i < |children|
      ensures children[i].Valid() && children[i].model == Subtrees(model)[i]
      ensures children[i].Repr < Repr
    {
    }

    /** The `i`-th child's subtree holds neither this node nor any of the
        other children. */
    lemma ChildApart(i: nat)
      requires Valid() && i < |children|
      ensures children[i].Valid() && children[i].parent == this && this !in children[i].Repr
      ensures children[i].Repr < Repr
      ensures forall k :: 0 <= k < |children| && k != i ==> children[k] !in children[i].Repr
    {
    }

    /** A compound node's tree has the given subtrees. */
    lemma LikeKids(kids: seq<Tree>)
      requires kind != LiteralKind
      ensures Subtrees(Like(kids)) == kids
    {
    }

    /** `s` can be appended to this node's children without breaking the
        tree shape: `s` is a valid subtree that shares no object with this
        node or with its present children. */
    ghost predicate CanAdopt(s: Expr)
      reads this`children, children`Repr, s`children, s`model, s`Repr, s.Repr - {s}
    {
      s.Valid() && this !in s.Repr &&
      forall i :: 0 <= i < |children| ==> children[i].Repr !! s.Repr
    }

    // -------------------------------------------------------------------
    // Construction (AbstractCompoundExpression and its subclasses)
    // -------------------------------------------------------------------

    /** An additive or multiplicative chain with no operands yet. */
    constructor Chain(operation: string)
      ensures kind == ChainKind && op == operation
      ensures children == [] && parent == null
      ensures Valid() && Repr == {this} && model == Trees.Chain(operation, [])
    {
      kind, op, text := ChainKind, operation, "";
      children, parent := [], null;
      model, Repr := Trees.Chain(operation, []), {this};
    }

    /** A parenthetical with no operand yet. */
    constructor Paren()
      ensures kind == ParenKind
      ensures children == [] && parent == null
      ensures Valid() && Repr == {this} && model == Trees.Paren([])
    {
      kind, op, text := ParenKind, "", "";
      children, parent := [], null;
      model, Repr := Trees.Paren([]), {this};
    }

    /** A literal leaf (its class is not part of this model; assumed to hold
        only its text). */
    constructor Literal(t: string)
      ensures kind == LiteralKind && text == t
      ensures children == [] && parent == null
      ensures Valid() && Repr == {this} && model == Trees.Literal(t)
    {
      kind, op, text := LiteralKind, "", t;
      children, parent := [], null;
      model, Repr := Trees.Literal(t), {this};
    }

    // -------------------------------------------------------------------
    // Parent and child list (AbstractCompoundExpression)
    // -------------------------------------------------------------------

    method GetParent() returns (p: Expr?)
      ensures p == parent
    {
      p := parent;
    }

    method SetParent(p: Expr?)
      modifies this`parent
      ensures parent == p
      ensures old(Valid()) ==> Valid()
    {
      parent := p;
    }

    /** The current child list, as it stands after the latest add or clear. */
    method GetChildren() returns (cs: seq<Expr>)
      ensures cs == children
    {
      cs := children;
    }

    /** Appends `s` and makes this node its parent.  `s` is not removed from
        the list of a previous parent: that list is outside the frame. */
    method AddSubexpression(s: Expr)
      requires kind != LiteralKind
      modifies this`children, this`model, this`Repr, s`parent
      ensures children == old(children) + [s]
      ensures s.parent == this
      ensures model == Like(Subtrees(old(model)) + [old(s.model)])
      ensures Repr == old(Repr) + old(s.Repr)
      ensures old(Valid() && CanAdopt(s)) ==> Valid()
    {
      children := children + [s];
      model := Like(Subtrees(model) + [s.model]);
      Repr := Repr + s.Repr;
      s.parent := this;
    }

    /** Replaces the child list with an empty one; the former children keep
        their parent fields. */
    method ClearSubexpression()
      requires kind != LiteralKind
      modifies this`children, this`model
      ensures children == []
      ensures model == Like([])
      ensures this in Repr ==> Valid()
    {
      children := [];
      model := Like([]);
    }

    // -------------------------------------------------------------------
    // flatten
    // -------------------------------------------------------------------

    /** A child that a chain with this node's operation merges into itself
        (the class test and the operation test of the source). */
    predicate Merges(c: Expr)
    {
      c.kind == ChainKind && c.op == op
    }

    /** The merged child list, read in the current heap: the children of each
        merging element of `cs`, and every other element as itself. */
    ghost function Absorbed(cs: seq<Expr>): seq<Expr>
      reads cs`children
    {
      if cs == [] then [] else Absorbed(cs[..|cs| - 1]) + Contribution(cs[|cs| - 1])
    }

    /** What one child contributes to the merged list. */
    ghost function Contribution(c: Expr): seq<Expr>
      reads c`children
    {
      if Merges(c) then c.children else [c]
    }

    /** The merged list of a prefix one element longer. */
    lemma AbsorbedSnoc(cs: seq<Expr>, i: nat)
      requires i < |cs|
      ensures Absorbed(cs[..i + 1]) == Absorbed(cs[..i]) + Contribution(cs[i])
    {
      PrefixOfPrefix(cs, i, i + 1);
    }

    /** The contribution of a valid child is a list of valid, pairwise
        disjoint subtrees of that child. */
    lemma ContributionSubtrees(c: Expr)
      requires c.Valid()
      ensures forall m :: 0 <= m < |Contribution(c)| ==>
        Contribution(c)[m].Valid() && Contribution(c)[m].Repr <= c.Repr
      ensures forall m, m' :: 0 <= m < m' < |Contribution(c)| ==>
        Contribution(c)[m].Repr !! Contribution(c)[m'].Repr
    {
    }

    /** If no element of `cs` merges, merging keeps `cs` as it is. */
    lemma {:induction false} AbsorbedIdentity(cs: seq<Expr>)
      requires forall k :: 0 <= k < |cs| ==> !Merges(cs[k])
      ensures Absorbed(cs) == cs
      decreases |cs|
    {
      if cs != [] {
        AbsorbedIdentity(cs[..|cs| - 1]);
        PrefixSnoc(cs, |cs| - 1);
        PrefixWhole(cs);
      }
    }

    /** The merged list depends only on the listed nodes' child lists. */
    twostate lemma {:induction false} AbsorbedFrame(cs: seq<Expr>)
      requires forall k :: 0 <= k < |cs| ==> old(cs[k].children) == cs[k].children
      ensures old(Absorbed(cs)) == Absorbed(cs)
      decreases |cs|
    {
      if cs != [] {
        AbsorbedFrame(cs[..|cs| - 1]);
      }
    }

    /** Flattens the subtree in place. */
    method Flatten()
      requires Valid()
      modifies Repr
      ensures Valid() && Repr == old(Repr) && parent == old(parent)
      ensures model == Flat(old(model))
      ensures kind == ChainKind ==> children == Absorbed(old(children))
      ensures kind != ChainKind ==> children == old(children)
      decreases Repr, 5
    {
      match kind
      case LiteralKind =>
      case ChainKind => FlattenChain();
      case ParenKind => FlattenParen();
    }

    /** Flattens the `i`-th child and records its new value in `model`. */
    method FlattenChildAt(i: nat)
      requires Valid() && i < |children|
      modifies this`model, children[i].Repr
      ensures Valid() && children == old(children) && Repr == old(Repr) && parent == old(parent)
      ensures Subtrees(model) == Subtrees(old(model))[i := Flat(Subtrees(old(model))[i])]
      ensures forall k :: 0 <= k < |children| && k != i ==> children[k].children == old(children[k].children)
      decreases Repr, 0
    {
      label before:
      ChildApart(i);
      var c := children[i];
      c.Flatten();
      ghost var kids := Subtrees(model)[i := c.model];
      LikeKids(kids);
      model := Like(kids);
      ChildReplaced@before(i);
    }

    /** Validity survives a change confined to the `i`-th child's subtree
        that leaves that child valid, with its footprint and parent, and
        records its new tree in `model`. */
    twostate lemma ChildReplaced(i: nat)
      requires old(Valid()) && i < |old(children)|
      requires children == old(children) && Repr == old(Repr)
      requires forall o :: o in old(Repr) && o !in old(children[i].Repr) && o != this ==> unchanged(o)
      requires children[i].Valid() && children[i].Repr == old(children[i].Repr) && children[i].parent == this
      requires model == Like(old(Subtrees(model))[i := children[i].model])
      ensures Valid()
    {
    }

    /** One round of the loop of flatten() on a parenthetical: the first
        `i` operands of `kids0` are flattened, the `i`-th is flattened next. */
    method FlattenParenChild(i: nat, ghost kids0: seq<Tree>)
      requires Valid() && kind == ParenKind && i < |children|
      requires |kids0| == |children| && model == Trees.Paren(FlatUpTo(kids0, i))
      modifies Repr
      ensures Valid() && children == old(children) && Repr == old(Repr) && parent == old(parent)
      ensures model == Trees.Paren(FlatUpTo(kids0, i + 1))
      decreases Repr, 1
    {
      FlatUpToNext(kids0, i);
      FlattenChildAt(i);
    }

    /** flatten() of a parenthetical: flattens each child, keeps the list. */
    method FlattenParen()
      requires Valid() && kind == ParenKind
      modifies Repr
      ensures Valid() && Repr == old(Repr) && parent == old(parent)
      ensures children == old(children)
      ensures model == Flat(old(model))
      decreases Repr, 2
    {
      ghost var kids0 := Subtrees(model);
      assert model == Trees.Paren(kids0) && |kids0| == |children|;
      var n := |children|;
      var i := 0;
      while i < n
        invariant 0 <= i <= n == |kids0|
        invariant Valid() && children == old(children) && Repr == old(Repr) && parent == old(parent)
        invariant model == Trees.Paren(FlatUpTo(kids0, i))
      {
        FlattenParenChild(i, kids0);
        i := i + 1;
      }
      FlatUpToParen(kids0);
    }

    /** Whether a valid node merges into this chain is read off its model. */
    lemma MergesByModel(c: Expr)
      requires c.Valid()
      ensures Merges(c) <==> Absorbs(op, c.model)
    {
    }

    /** The nodes `es` denote the trees `ts`, one for one. */
    static ghost predicate SameModels(es: seq<Expr>, ts: seq<Tree>)
      reads es`model
    {
      |es| == |ts| && forall m :: 0 <= m < |es| ==> es[m].model == ts[m]
    }

    static lemma SameModelsAppend(es: seq<Expr>, ts: seq<Tree>, es': seq<Expr>, ts': seq<Tree>)
      requires SameModels(es, ts) && SameModels(es', ts')
      ensures SameModels(es + es', ts + ts')
    {
    }

    /** What a valid child contributes to the merged list denotes what its
        tree contributes to the spliced tree list. */
    lemma PieceModels(c: Expr)
      requires c.Valid()
      ensures SameModels(Contribution(c), Piece(op, c.model))
    {
      MergesByModel(c);
    }

    /** The trees of the merged list of the first `n` children splice the
        first `n` children's trees. */
    lemma {:induction false} AbsorbedModels(n: nat)
      requires Valid() && kind == ChainKind && n <= |children|
      ensures SameModels(Absorbed(children[..n]), Splice(op, Subtrees(model)[..n]))
    {
      if n > 0 {
        AbsorbedModels(n - 1);
        var c := children[n - 1];
        PrefixOfPrefix(children, n - 1, n);
        PrefixOfPrefix(Subtrees(model), n - 1, n);
        PieceModels(c);
        SameModelsAppend(Absorbed(children[..n - 1]), Splice(op, Subtrees(model)[..n - 1]),
                         Contribution(c), Piece(op, c.model));
      }
    }

    /** The footprints of `items` are pairwise disjoint. */
    static ghost predicate Disjoint(items: seq<Expr>)
      reads items`Repr
    {
      forall m, m' :: 0 <= m < m' < |items| ==> items[m].Repr !! items[m'].Repr
    }

    /** Every element of `items` is a valid subtree of this node. */
    ghost predicate Inside(items: seq<Expr>)
      reads this`Repr, items`children, items`model, items`Repr, set m, o | 0 <= m < |items| && o in items[m].Repr && o != items[m] :: o
    {
      forall m :: 0 <= m < |items| ==>
        items[m].Valid() && items[m].Repr <= Repr && this !in items[m].Repr
    }

    /** No footprint of an element of `a` meets one of an element of `b`. */
    static ghost predicate Apart(a: seq<Expr>, b: seq<Expr>)
      reads a`Repr, b`Repr
    {
      forall m, m' :: 0 <= m < |a| && 0 <= m' < |b| ==> a[m].Repr !! b[m'].Repr
    }

    /** No footprint of an element of `a` meets that of a child from the
        `n`-th on. */
    ghost predicate ApartFrom(a: seq<Expr>, n: nat)
      reads this`children, children`Repr, a`Repr
    {
      forall m, k :: 0 <= m < |a| && n <= k < |children| ==> a[m].Repr !! children[k].Repr
    }

    static lemma DisjointAppend(a: seq<Expr>, b: seq<Expr>)
      requires Disjoint(a) && Disjoint(b) && Apart(a, b)
      ensures Disjoint(a + b)
    {
      var ab := a + b;
      forall m, m' | 0 <= m < m' < |ab| ensures ab[m].Repr !! ab[m'].Repr {
        if m' < |a| {
          assert ab[m] == a[m] && ab[m'] == a[m'];
        } else if m < |a| {
          assert ab[m] == a[m] && ab[m'] == b[m' - |a|];
        } else {
          assert ab[m] == b[m - |a|] && ab[m'] == b[m' - |a|];
        }
      }
    }

    lemma InsideAppend(a: seq<Expr>, b: seq<Expr>)
      requires Inside(a) && Inside(b)
      ensures Inside(a + b)
    {
      var ab := a + b;
      forall m | 0 <= m < |ab|
        ensures ab[m].Valid() && ab[m].Repr <= Repr && this !in ab[m].Repr
      {
        if m < |a| {
          assert ab[m] == a[m];
        } else {
          assert ab[m] == b[m - |a|];
        }
      }
    }

    lemma ApartFromAppend(a: seq<Expr>, b: seq<Expr>, n: nat)
      requires ApartFrom(a, n) && ApartFrom(b, n)
      ensures ApartFrom(a + b, n)
    {
      var ab := a + b;
      forall m, k | 0 <= m < |ab| && n <= k < |children| ensures ab[m].Repr !! children[k].Repr {
        if m < |a| {
          assert ab[m] == a[m];
        } else {
          assert ab[m] == b[m - |a|];
        }
      }
    }

    /** Lists whose footprints lie in disjoint sets are apart. */
    static lemma ApartWithin(a: seq<Expr>, b: seq<Expr>, r: set<object>)
      requires forall m :: 0 <= m < |a| ==> a[m].Repr !! r
      requires forall m :: 0 <= m < |b| ==> b[m].Repr <= r
      ensures Apart(a, b)
    {
    }

    /** The contribution of the `i`-th child is a list of disjoint valid
        subtrees of this node, all inside that child's footprint and so apart
        from the later children. */
    lemma ContributionInside(i: nat)
      requires Valid() && i < |children|
      ensures Inside(Contribution(children[i])) && Disjoint(Contribution(children[i]))
      ensures forall m :: 0 <= m < |Contribution(children[i])| ==>
        Contribution(children[i])[m].Repr <= children[i].Repr
      ensures ApartFrom(Contribution(children[i]), i + 1)
    {
      ChildValid(i);
      ContributionSubtrees(children[i]);
    }

    /** The elements of the merged list of the first `n` children are valid,
        pairwise disjoint subtrees of this node, apart from the later
        children. */
    lemma {:induction false} AbsorbedSubtrees(n: nat)
      requires Valid() && kind == ChainKind && n <= |children|
      ensures Inside(Absorbed(children[..n])) && Disjoint(Absorbed(children[..n]))
      ensures ApartFrom(Absorbed(children[..n]), n)
    {
      if n > 0 {
        AbsorbedSubtrees(n - 1);
        AbsorbedSnoc(children, n - 1);
        ContributionInside(n - 1);
        var a := Absorbed(children[..n - 1]);
        var p := Contribution(children[n - 1]);
        ApartWithin(a, p, children[n - 1].Repr);
        DisjointAppend(a, p);
        InsideAppend(a, p);
        ApartFromAppend(a, p, n);
      }
    }

    /** The loop of flatten() on a chain: flattens each child in turn and
        collects, in order, the children of every child that is a chain with
        this operation and every other child itself. */
    method FlattenAndGather() returns (toAdd: seq<Expr>)
      requires Valid() && kind == ChainKind
      modifies Repr
      ensures Valid() && children == old(children) && Repr == old(Repr) && parent == old(parent)
      ensures Subtrees(model) == FlatEach(old(Subtrees(model)))
      ensures toAdd == Absorbed(children)
      decreases Repr, 3
    {
      ghost var kids0 := Subtrees(model);
      toAdd := [];
      var i := 0;
      while i < |children|
        invariant 0 <= i <= |children|
        invariant Valid() && children == old(children) && Repr == old(Repr) && parent == old(parent)
        invariant model == Trees.Chain(op, FlatUpTo(kids0, i))
        invariant toAdd == Absorbed(children[..i])
      {
        toAdd := GatherChild(i, toAdd, kids0);
        i := i + 1;
      }
      PrefixWhole(children);
      FlatUpToAll(kids0);
    }

    /** One round of the loop of flatten() on a chain: flattens the `i`-th
        child, then appends to `toAdd` that child's children if it is a
        chain with this operation, the child itself otherwise. */
    method GatherChild(i: nat, toAdd: seq<Expr>, ghost kids0: seq<Tree>) returns (more: seq<Expr>)
      requires Valid() && kind == ChainKind && i < |children|
      requires toAdd == Absorbed(children[..i])
      requires |kids0| == |children| && model == Trees.Chain(op, FlatUpTo(kids0, i))
      modifies this`model, children[i].Repr
      ensures Valid() && children == old(children) && Repr == old(Repr) && parent == old(parent)
      ensures model == Trees.Chain(op, FlatUpTo(kids0, i + 1))
      ensures more == Absorbed(children[..i + 1])
      decreases Repr, 2
    {
      FlatUpToNext(kids0, i);
      label before:
      FlattenChildAt(i);
      AbsorbedFrame@before(children[..i]);
      var e := children[i];
      if e.kind == ChainKind && op == e.op {
        more := toAdd + e.children;
      } else {
        more := toAdd + [e];
      }
      AbsorbedSnoc(children, i);
    }

    /** The merged list of a valid chain's children is a list of valid,
        disjoint subtrees of the chain whose trees splice the children's. */
    lemma AbsorbedAdoptable(items: seq<Expr>)
      requires Valid() && kind == ChainKind && items == Absorbed(children)
      ensures Adoptable(items, Splice(op, Subtrees(model)))
    {
      AbsorbedModels(|children|);
      AbsorbedSubtrees(|children|);
      PrefixWhole(children);
      PrefixWhole(Subtrees(model));
    }

    /** flatten() of a chain: flattens each child, then replaces the child
        list by the in-order concatenation, over the children, of the
        children of each same-operation chain and of every other child
        itself, and re-parents every element of the new list. */
    method FlattenChain()
      requires Valid() && kind == ChainKind
      modifies Repr
      ensures Valid() && Repr == old(Repr) && parent == old(parent)
      ensures model == Flat(old(model))
      ensures children == Absorbed(old(children))
      ensures forall k :: 0 <= k < |children| ==> children[k].parent == this && !Merges(children[k])
      ensures (forall k :: 0 <= k < |old(children)| ==> !Merges(old(children)[k])) ==> children == old(children)
      decreases Repr, 4
    {
      var toAdd := FlattenAndGather();
      AbsorbedAdoptable(toAdd);
      MergeGathered(toAdd);
      FlatFlattened(old(model));
      NoMergingChild();
    }

    /** The second half of flatten() on a chain whose children are
        flattened: the merged list of the children replaces the child list. */
    method MergeGathered(toAdd: seq<Expr>)
      requires Valid() && kind == ChainKind && toAdd == Absorbed(children)
      requires Adoptable(toAdd, Splice(op, Subtrees(model)))
      modifies this`children, this`model, this`Repr, toAdd`parent
      ensures Valid() && Repr == old(Repr) && parent == old(parent)
      ensures model == Trees.Chain(op, Splice(op, Subtrees(old(model))))
      ensures children == Absorbed(old(children))
      ensures (forall k :: 0 <= k < |old(children)| ==> !Merges(old(children)[k])) ==> children == old(children)
    {
      ghost var kids := children;
      assert forall k :: 0 <= k < |kids| ==> kids[k] != this;
      Regroup(toAdd, Splice(op, Subtrees(model)));
      AbsorbedFrame(kids);
      if forall k :: 0 <= k < |kids| ==> !Merges(kids[k]) {
        AbsorbedIdentity(kids);
      }
    }

    /** A chain in normal form has no child that it would merge. */
    lemma NoMergingChild()
      requires Valid() && kind == ChainKind && Flattened(model)
      ensures forall k :: 0 <= k < |children| ==> !Merges(children[k])
    {
      forall k | 0 <= k < |children| ensures !Merges(children[k]) {
        ChildValid(k);
        MergesByModel(children[k]);
      }
    }

    /** `items` can become this node's child list, with trees `trees`: they
        are valid, pairwise disjoint subtrees inside this node's footprint
        that do not contain this node. */
    ghost predicate Adoptable(items: seq<Expr>, trees: seq<Tree>)
      reads this`Repr, items`children, items`model, items`Repr, set m, o | 0 <= m < |items| && o in items[m].Repr && o != items[m] :: o
    {
      SameModels(items, trees) && Inside(items) && Disjoint(items)
    }

    /** The second half of a chain's flatten(): clears the child list, then
        appends every element of `items`, in order. */
    method Regroup(items: seq<Expr>, ghost trees: seq<Tree>)
      requires kind != LiteralKind && Valid() && Adoptable(items, trees)
      modifies this`children, this`model, this`Repr, items`parent
      ensures Valid() && Repr == old(Repr) && parent == old(parent) && children == items
      ensures model == Like(trees)
    {
      ClearSubexpression();
      AddAll(items, trees);
    }

    /** Appends every element of `items`, in order, to an empty child list. */
    method AddAll(items: seq<Expr>, ghost trees: seq<Tree>)
      requires kind != LiteralKind && children == [] && Valid() && Adoptable(items, trees)
      modifies this`children, this`model, this`Repr, items`parent
      ensures Valid() && Repr == old(Repr) && children == items
      ensures model == Like(trees)
    {
      var j := 0;
      while j < |items|
        invariant 0 <= j <= |items|
        invariant Valid() && Repr == old(Repr)
        invariant children == items[..j]
        invariant model == Like(trees[..j])
        invariant Adoptable(items, trees)
      {
        AddSubexpression(items[j]);
        PrefixSnoc(items, j);
        PrefixSnoc(trees, j);
        j := j + 1;
      }
      PrefixWhole(items);
      PrefixWhole(trees);
    }

    // -------------------------------------------------------------------
    // convertToString
    // -------------------------------------------------------------------

    /** `token` behind `indent` tabs, one prepended per round; no tab when
        `indent` is zero or negative. */
    static method Indent(token: string, indent: int) returns (r: string)
      ensures r == Dumps.Tabs(indent) + token
    {
      r := token;
      var i := 0;
      while i < indent
        invariant 0 <= i && (i <= indent || i == 0)
        invariant r == Dumps.Tabs(i) + token
      {
        r := "\t" + r;
        i := i + 1;
      }
    }

    /** The indented dump of the subtree, its first line at depth `indent`. */
    method ConvertToString(indent: int) returns (s: string)
      requires Denotes()
      ensures s == Dumps.Dump(model, indent)
      decreases Repr, 2
    {
      var token := match kind
        case LiteralKind => text
        case ChainKind => op
        case ParenKind => "()";
      assert token == Dumps.Token(model);
      var converted := Indent(token, indent);
      converted := converted + "\n";
      ghost var head := converted;
      ghost var kids := Subtrees(model);
      var n := |children|;
      assert n == |kids|;
      var k := 0;
      while k < n
        invariant 0 <= k <= n == |kids|
        invariant converted == head + Dumps.DumpEach(kids[..k], indent + 1)
      {
        converted := AppendChildDump(k, indent + 1, head, converted);
        k := k + 1;
      }
      PrefixWhole(kids);
      Dumps.DumpUnfold(model, indent);
      s := converted;
    }

    /** One round of the child loop of convertToString(): the `k`-th
        child's dump appended to the dumps of the children before it. */
    method AppendChildDump(k: nat, indent: int, ghost head: string, acc: string) returns (r: string)
      requires Denotes() && k < |children|
      requires acc == head + Dumps.DumpEach(Subtrees(model)[..k], indent)
      ensures r == head + Dumps.DumpEach(Subtrees(model)[..k + 1], indent)
      decreases Repr, 1
    {
      ghost var kids := Subtrees(model);
      var d := ChildDump(k, indent);
      Dumps.DumpEachSnoc(kids, k, indent);
      assert acc + d == head + (Dumps.DumpEach(kids[..k], indent) + d);
      r := acc + d;
    }

    /** convertToString() of the `k`-th child. */
    method ChildDump(k: nat, indent: int) returns (d: string)
      requires Denotes() && k < |children|
      ensures d == Dumps.Dump(Subtrees(model)[k], indent)
      decreases Repr, 0
    {
      ChildDenotes(k);
      d := children[k].ConvertToString(indent);
    }

    // -------------------------------------------------------------------
    // deepCopy
    // -------------------------------------------------------------------

    /** A copy of the whole subtree built from new nodes only: same kind,
        same operation and text, same tree, no parent. */
    method DeepCopy() returns (copy: Expr)
      requires Denotes()
      ensures copy.Valid() && fresh(copy.Repr)
      ensures copy.model == model && copy.parent == null && copy.kind == kind
      decreases Repr, 1
    {
      if kind == LiteralKind {
        copy := new Expr.Literal(text);
        return;
      }
      if kind == ChainKind {
        copy := new Expr.Chain(op);
      } else {
        copy := new Expr.Paren();
      }
      ghost var kids := Subtrees(model);
      assert copy.Like(kids) == model;
      var k := 0;
      while k < |children|
        invariant 0 <= k <= |children|
        invariant copy.Valid() && fresh(copy.Repr)
        invariant copy.model == copy.Like(kids[..k]) && copy.parent == null
        invariant copy.kind == kind && copy.kind != LiteralKind
      {
        var c := CopyChild(k);
        assert copy.CanAdopt(c);
        copy.AddSubexpression(c);
        PrefixSnoc(kids, k);
        k := k + 1;
      }
      PrefixWhole(kids);
    }

    /** A deep copy shares no node with the original: flattening the copy
        leaves every node of the original as it was. */
    method FlattenCopy() returns (copy: Expr)
      requires Valid()
      ensures copy.Valid() && fresh(copy.Repr) && copy.parent == null
      ensures copy.model == Flat(model) && unchanged(Repr)
    {
      ValidDenotes();
      copy := DeepCopy();
      copy.Flatten();
    }

    /** `setParent(p)` then `getParent()` gives back `p`. */
    method ReParent(p: Expr?) returns (q: Expr?)
      modifies this`parent
      ensures q == p
    {
      SetParent(p);
      q := GetParent();
    }

    /** deepCopy() of the `k`-th child. */
    method CopyChild(k: nat) returns (c: Expr)
      requires Denotes() && k < |children|
      ensures c.Valid() && fresh(c.Repr)
      ensures c.model == Subtrees(model)[k] && c.parent == null
      decreases Repr, 0
    {
      ChildDenotes(k);
      c := children[k].DeepCopy();
    }

    // -------------------------------------------------------------------
    // setNode: the label text
    // -------------------------------------------------------------------

    /** The text setNode() puts on the label of this node, children first;
        `None` when a chain without operands is met, where the source reads
        that chain's first child and fails. */
    method LabelText() returns (r: Labels.Option<string>)
      requires Denotes()
      ensures r == Labels.Label(model)
      decreases Repr, 4
    {
      match kind
      case LiteralKind =>
        r := Labels.Some(text);
      case ChainKind =>
        r := ChainLabelText();
      case ParenKind =>
        r := ParenLabelText();
    }

    /** setNode() of the `i`-th child, giving the text of its label. */
    method ChildLabel(i: nat) returns (r: Labels.Option<string>)
      requires Denotes() && i < |children|
      ensures r == Labels.Label(Subtrees(model)[i])
      decreases Repr, 0
    {
      ChildDenotes(i);
      r := children[i].LabelText();
    }

    /** setNode() of a chain: the children's texts joined by the operation. */
    method ChainLabelText() returns (r: Labels.Option<string>)
      requires Denotes() && kind == ChainKind
      ensures r == Labels.Label(model)
      decreases Repr, 3
    {
      ghost var kids := Subtrees(model);
      assert model == Trees.Chain(op, kids);
      if |children| == 0 {
        Labels.NoOperands(op);
        return Labels.None;
      }
      r := ChildLabel(0);
      if r.None? {
        Labels.UnlabelledOperand(op, kids, 0);
        return;
      }
      r := JoinLabelTexts(r.value);
    }

    /** The loop of a chain's setNode(): appends the operation and the text
        of every child after the first to the first child's text. */
    method JoinLabelTexts(first: string) returns (r: Labels.Option<string>)
      requires Denotes() && kind == ChainKind && |children| > 0
      requires Labels.Label(Subtrees(model)[0]) == Labels.Some(first)
      ensures r == Labels.Label(model)
      decreases Repr, 2
    {
      Labels.TextsFirst(op, Subtrees(model));
      var labelText := first;
      var n := |children|;
      assert n == |Subtrees(model)|;
      var i := 1;
      while i < n
        invariant Denotes()
        invariant 1 <= i <= n == |Subtrees(model)|
        invariant Labels.AllLabelled(Subtrees(model)[..i])
        invariant labelText == Labels.Join(op, Labels.Texts(Subtrees(model)[..i]))
      {
        var next := JoinNext(i, labelText);
        if next.None? {
          return Labels.None;
        }
        labelText := next.value;
        i := i + 1;
      }
      PrefixWhole(Subtrees(model));
      Labels.ChainLabel(op, Subtrees(model));
      r := Labels.Some(labelText);
    }

    /** One round of a chain's setNode() loop: the `i`-th child's text
        behind the operation, appended to the text of the children before
        it; `None` when that child has no label, and then neither has this
        chain. */
    method JoinNext(i: nat, acc: string) returns (r: Labels.Option<string>)
      requires Denotes() && kind == ChainKind && 0 < i < |children|
      requires Labels.AllLabelled(Subtrees(model)[..i])
      requires acc == Labels.Join(op, Labels.Texts(Subtrees(model)[..i]))
      ensures r.None? ==> Labels.Label(model) == Labels.None
      ensures r.Some? ==> Labels.AllLabelled(Subtrees(model)[..i + 1]) &&
                          r.value == Labels.Join(op, Labels.Texts(Subtrees(model)[..i + 1]))
      decreases Repr, 1
    {
      ghost var kids := Subtrees(model);
      assert model == Trees.Chain(op, kids);
      var l := ChildLabel(i);
      if l.None? {
        Labels.UnlabelledOperand(op, kids, i);
        return Labels.None;
      }
      Labels.JoinStep(op, kids, i, acc, l.value);
      r := Labels.Some(acc + op + l.value);
    }

    /** One round of the child loop of setNode() on a parenthetical: the
        `i`-th child's text appended to "(" and the texts of the children
        before it; `None` when that child has no label, and then neither has
        this parenthetical. */
    method ConcatNext(i: nat, acc: string) returns (r: Labels.Option<string>)
      requires Denotes() && kind == ParenKind && i < |children|
      requires Labels.AllLabelled(Subtrees(model)[..i])
      requires acc == "(" + Labels.Concat(Labels.Texts(Subtrees(model)[..i]))
      ensures r.None? ==> Labels.Label(model) == Labels.None
      ensures r.Some? ==> Labels.AllLabelled(Subtrees(model)[..i + 1]) &&
                          r.value == "(" + Labels.Concat(Labels.Texts(Subtrees(model)[..i + 1]))
      decreases Repr, 1
    {
      ghost var kids := Subtrees(model);
      assert model == Trees.Paren(kids);
      var l := ChildLabel(i);
      if l.None? {
        Labels.UnlabelledOperand(op, kids, i);
        return Labels.None;
      }
      Labels.ConcatStep(kids, i, acc, l.value);
      r := Labels.Some(acc + l.value);
    }

    /** setNode() of a parenthetical: "(", the children's texts, ")". */
    method ParenLabelText() returns (r: Labels.Option<string>)
      requires Denotes() && kind == ParenKind
      ensures r == Labels.Label(model)
      decreases Repr, 2
    {
      ghost var kids := Subtrees(model);
      assert model == Trees.Paren(kids);
      var labelText := "(";
      var i := 0;
      while i < |children|
        invariant Denotes()
        invariant 0 <= i <= |children|
        invariant Labels.AllLabelled(kids[..i])
        invariant labelText == "(" + Labels.Concat(Labels.Texts(kids[..i]))
      {
        var next := ConcatNext(i, labelText);
        if next.None? {
          return Labels.None;
        }
        labelText := next.value;
        i := i + 1;
      }
      PrefixWhole(kids);
      Labels.ParenLabel(kids);
      labelText := labelText + ")";
      r := Labels.Some(labelText);
    }
  }
}
