/**
 * The text of the label that `setNode()` builds for a node: a chain's
 * operand texts joined by its operation, a parenthetical's operand texts
 * between "(" and ")".  A chain reads its first child unconditionally, so a
 * chain without children anywhere in the subtree makes the construction
 * fail; that failure is `None`.
 */
module Labels {
  import opened Trees

  datatype Option<T> = None | Some(value: T)

  /** Every chain in the subtree has at least one operand. */
  predicate Labelled(t: Tree)
    decreases t, 1
  {
    match t
    case Literal(_) => true
    case Chain(_, ks) => |ks| > 0 && AllLabelled(ks)
    case Paren(ks) => AllLabelled(ks)
  }

  predicate AllLabelled(ks: seq<Tree>)
    decreases ks, 0
  {
    forall i :: 0 <= i < |ks| ==> Labelled(ks[i])
  }

  /** `ls[0] + op + ls[1] + op + ...`: a separator between neighbours only. */
  function Join(op: string, ls: seq<string>): string
    requires |ls| > 0
  {
    if |ls| == 1 then ls[0] else Join(op, ls[..|ls| - 1]) + op + ls[|ls| - 1]
  }

  function Concat(ls: seq<string>): string
  {
    if ls == [] then "" else Concat(ls[..|ls| - 1]) + ls[|ls| - 1]
  }

  /** The label text; a literal's is, by assumption, its own text. */
  function Text(t: Tree): string
    requires Labelled(t)
    decreases t, 1
  {
    match t
    case Literal(s) => s
    case Chain(op, ks) => Join(op, Texts(ks))
    case Paren(ks) => "(" + Concat(Texts(ks)) + ")"
  }

  function Texts(ks: seq<Tree>): (r: seq<string>)
    requires AllLabelled(ks)
    decreases ks, 0
    ensures |r| == |ks|
  {
    if ks == [] then [] else Texts(ks[..|ks| - 1]) + [Text(ks[|ks| - 1])]
  }

  /** The `i`-th text is the `i`-th operand's. */
  lemma {:induction false} TextsAt(ks: seq<Tree>)
    requires AllLabelled(ks)
    ensures forall i :: 0 <= i < |ks| ==> Texts(ks)[i] == Text(ks[i])
    decreases |ks|
  {
    if ks != [] {
      TextsAt(ks[..|ks| - 1]);
    }
  }

  /** One more operand's text at the end of a prefix of `ks`. */
  lemma TextsSnoc(ks: seq<Tree>, n: nat)
    requires n < |ks| && AllLabelled(ks[..n]) && Labelled(ks[n])
    ensures AllLabelled(ks[..n + 1])
    ensures Texts(ks[..n + 1]) == Texts(ks[..n]) + [Text(ks[n])]
  {
    assert ks[..n + 1][..n] == ks[..n];
  }

  /** The texts of a one-operand prefix, and their join. */
  lemma TextsFirst(op: string, ks: seq<Tree>)
    requires |ks| > 0 && Labelled(ks[0])
    ensures AllLabelled(ks[..1])
    ensures Texts(ks[..1]) == [Text(ks[0])]
    ensures Join(op, Texts(ks[..1])) == Text(ks[0])
  {
  }

  /** One more operand at the end of a joined prefix of `ks`. */
  lemma JoinTextsSnoc(op: string, ks: seq<Tree>, n: nat)
    requires 0 < n < |ks| && AllLabelled(ks[..n]) && Labelled(ks[n])
    ensures AllLabelled(ks[..n + 1])
    ensures Join(op, Texts(ks[..n + 1])) == Join(op, Texts(ks[..n])) + op + Text(ks[n])
  {
    TextsSnoc(ks, n);
    JoinSnoc(op, Texts(ks[..n]), Text(ks[n]));
  }

  /** The chain loop of setNode(), one round: the `n`-th operand's label
      joined to the text of the operands before it. */
  lemma JoinStep(op: string, ks: seq<Tree>, n: nat, acc: string, l: string)
    requires 0 < n < |ks| && AllLabelled(ks[..n]) && acc == Join(op, Texts(ks[..n]))
    requires Label(ks[n]) == Some(l)
    ensures AllLabelled(ks[..n + 1]) && acc + op + l == Join(op, Texts(ks[..n + 1]))
  {
    JoinTextsSnoc(op, ks, n);
  }

  /** The parenthetical loop of setNode(), one round: the `n`-th operand's
      label appended to "(" and the texts of the operands before it. */
  lemma ConcatStep(ks: seq<Tree>, n: nat, acc: string, l: string)
    requires n < |ks| && AllLabelled(ks[..n]) && acc == "(" + Concat(Texts(ks[..n]))
    requires Label(ks[n]) == Some(l)
    ensures AllLabelled(ks[..n + 1]) && acc + l == "(" + Concat(Texts(ks[..n + 1]))
  {
    ConcatTextsSnoc(ks, n);
    assert acc + l == "(" + (Concat(Texts(ks[..n])) + l);
  }

  /** One more operand at the end of a concatenated prefix of `ks`. */
  lemma ConcatTextsSnoc(ks: seq<Tree>, n: nat)
    requires n < |ks| && AllLabelled(ks[..n]) && Labelled(ks[n])
    ensures AllLabelled(ks[..n + 1])
    ensures Concat(Texts(ks[..n + 1])) == Concat(Texts(ks[..n])) + Text(ks[n])
  {
    TextsSnoc(ks, n);
    ConcatSnoc(Texts(ks[..n]), Text(ks[n]));
  }

  lemma JoinSnoc(op: string, ls: seq<string>, l: string)
    requires |ls| > 0
    ensures Join(op, ls + [l]) == Join(op, ls) + op + l
  {
    assert (ls + [l])[..|ls|] == ls;
  }

  lemma ConcatSnoc(ls: seq<string>, l: string)
    ensures Concat(ls + [l]) == Concat(ls) + l
  {
    assert (ls + [l])[..|ls|] == ls;
  }

  /** The label of `t`: a literal's text, and none for a chain without
      operands, the case where setNode() reads a first child that is not
      there. */
  function Label(t: Tree): (r: Option<string>)
    ensures t.Literal? ==> r == Some(t.text)
    ensures t.Chain? && t.kids == [] ==> r == None
  {
    if Labelled(t) then Some(Text(t)) else None
  }

  /** A chain with operands or a parenthetical has a label exactly when
      every one of its operands has one. */
  lemma LabelOperands(t: Tree)
    requires t.Paren? || (t.Chain? && t.kids != [])
    ensures Label(t).Some? <==> forall i :: 0 <= i < |t.kids| ==> Label(t.kids[i]).Some?
  {
    assert AllLabelled(t.kids) <==> forall i :: 0 <= i < |t.kids| ==> Label(t.kids[i]).Some?;
  }

  /** An operand without a label leaves its chain or parenthetical without
      one. */
  lemma UnlabelledOperand(op: string, ks: seq<Tree>, i: nat)
    requires i < |ks| && !Labelled(ks[i])
    ensures Label(Chain(op, ks)) == None && Label(Paren(ks)) == None
  {
    assert !AllLabelled(ks);
  }

  /** The label of a chain whose operands all have one. */
  lemma ChainLabel(op: string, ks: seq<Tree>)
    requires |ks| > 0 && AllLabelled(ks)
    ensures Label(Chain(op, ks)) == Some(Join(op, Texts(ks)))
  {
  }

  /** The label of a parenthetical whose operands all have one. */
  lemma ParenLabel(ks: seq<Tree>)
    requires AllLabelled(ks)
    ensures Label(Paren(ks)) == Some("(" + Concat(Texts(ks)) + ")")
  {
  }

  /** A chain without operands has no label. */
  lemma NoOperands(op: string)
    ensures Label(Chain(op, [])) == None
  {
  }

  /** Joining two non-empty runs puts exactly one separator between them. */
  lemma {:induction false} JoinAppend(op: string, a: seq<string>, b: seq<string>)
    requires |a| > 0 && |b| > 0
    ensures Join(op, a + b) == Join(op, a) + op + Join(op, b)
    decreases |b|
  {
    var n := |b| - 1;
    assert (a + b)[..|a + b| - 1] == a + b[..n];
    if n > 0 {
      JoinAppend(op, a, b[..n]);
    }
  }

  lemma {:induction false} TextsAppend(a: seq<Tree>, b: seq<Tree>)
    requires AllLabelled(a) && AllLabelled(b)
    ensures AllLabelled(a + b)
    ensures Texts(a + b) == Texts(a) + Texts(b)
    decreases |b|
  {
    if b == [] {
      assert a + b == a;
    } else {
      var n := |b| - 1;
      assert (a + b)[..|a + b| - 1] == a + b[..n];
      TextsAppend(a, b[..n]);
    }
  }

  /** What one child contributes to a merged chain carries that child's text. */
  lemma PieceText(op: string, f: Tree)
    requires Labelled(f)
    ensures |Piece(op, f)| > 0
    ensures AllLabelled(Piece(op, f))
    ensures Join(op, Texts(Piece(op, f))) == Text(f)
  {
    if !Absorbs(op, f) {
      assert Texts([f]) == [Text(f)];
    }
  }

  /** Merging same-operator chains into their parent does not change the
      joined text: a merged chain's own text is already its operands joined
      by the same operation. */
  lemma {:induction false} SpliceKeepsText(op: string, fs: seq<Tree>)
    requires |fs| > 0 && AllLabelled(fs)
    ensures AllLabelled(Splice(op, fs))
    ensures |Splice(op, fs)| > 0
    ensures Join(op, Texts(Splice(op, fs))) == Join(op, Texts(fs))
    decreases |fs|
  {
    var n := |fs| - 1;
    var f := fs[n];
    var pre := fs[..n];
    var piece := Piece(op, f);
    PieceText(op, f);
    PrefixSnoc(fs, n);
    PrefixWhole(fs);
    TextsAppend(pre, [f]);
    assert Texts([f]) == [Text(f)];
    if n == 0 {
      assert Splice(op, fs) == piece by {
        assert pre == [];
      }
      assert Texts(fs) == [Text(f)];
    } else {
      SpliceKeepsText(op, pre);
      var s := Splice(op, pre);
      assert Splice(op, fs) == s + piece;
      TextsAppend(s, piece);
      JoinAppend(op, Texts(s), Texts(piece));
      JoinAppend(op, Texts(pre), [Text(f)]);
    }
  }

  /** Flattening never changes a label that can be built. */
  lemma {:induction false} FlatKeepsText(t: Tree)
    requires Labelled(t)
    ensures Labelled(Flat(t)) && Text(Flat(t)) == Text(t)
    decreases t, 1
  {
    match t
    case Literal(_) =>
    case Chain(op, ks) =>
      FlatEachKeepsText(ks);
      SpliceKeepsText(op, FlatEach(ks));
    case Paren(ks) =>
      FlatEachKeepsText(ks);
  }

  lemma {:induction false} FlatEachKeepsText(ks: seq<Tree>)
    requires AllLabelled(ks)
    ensures AllLabelled(FlatEach(ks))
    ensures Texts(FlatEach(ks)) == Texts(ks)
    decreases ks, 0
  {
    forall i | 0 <= i < |ks| ensures Labelled(FlatEach(ks)[i]) && Text(FlatEach(ks)[i]) == Text(ks[i]) {
      FlatKeepsText(ks[i]);
    }
    TextsAt(ks);
    TextsAt(FlatEach(ks));
  }

  /** The converse of `FlatKeepsLabel` does not hold: flattening can give a
      label to a tree that has none.  A chain without operands inside a
      chain with the same operation has no label, so neither has its owner,
      but flattening merges it away. */
  lemma FlatCanAddLabel(op: string, a: string)
    ensures Label(Chain(op, [Chain(op, []), Literal(a)])) == None
    ensures Label(Flat(Chain(op, [Chain(op, []), Literal(a)]))) == Some(a)
  {
    var ks := [Chain(op, []), Literal(a)];
    assert !Labelled(ks[0]) && !AllLabelled(ks);
    assert FlatEach(ks) == ks;
    SpliceMerges(op, ks, 0);
    assert ks[..0] == [] && ks[1..] == [Literal(a)];
    SpliceIdentity(op, [Literal(a)]);
    assert Flat(Chain(op, ks)) == Chain(op, [Literal(a)]);
    assert Texts([Literal(a)]) == [a] by { assert [Literal(a)][..0] == []; }
    assert Labelled(Chain(op, [Literal(a)])) && Text(Chain(op, [Literal(a)])) == a;
  }

  /** The label shown for a tree is the label shown after flattening it. */
  lemma FlatKeepsLabel(t: Tree)
    requires Label(t).Some?
    ensures Label(Flat(t)) == Label(t)
  {
    FlatKeepsText(t);
  }
}
