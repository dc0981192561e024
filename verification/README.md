# Expression trees of the expression editor

This project models the expression-tree engine of a small JavaFX
expression editor. The engine is the part behind the GUI. It holds:

- **chains** (`SimpleCompoundExpression`): an n-ary `+` or `*` expression
  whose operands are kept in order;
- **parentheticals** (`ParentheticalExpression`): a grouping node;
- the base class they share (`AbstractCompoundExpression`): an ordered
  child list and a non-owning parent back-reference.

Four operations act on a node's subtree:

- `flatten()` rewrites the subtree in place. Every child is flattened
  first. Then each child that is a chain with the same operation is
  replaced, at its own position, by that child's children. A
  parenthetical only flattens its children.
- `convertToString(n)` produces a tab-indented dump with one token per line.
- `deepCopy()` builds a fresh copy of the subtree.
- `setNode()` composes the text of a node's label from its children's
  texts.

The model has four modules:

- `Trees` (`trees.dfy`): the value a node denotes, a `Tree` datatype. It
  holds the pure specification of flattening (`Flat`), a direct
  characterisation of the normal form (`Flattened`) and the left-to-right
  leaf sequence (`Leaves`). It also has the editor's sample input
  `2*x+3*y+4*z+(7+6*z)`.
- `Dumps` (`dumps.dfy`): the indented dump as a function (`Dump`) and, as
  an independent description, as the pre-order list of (depth, token)
  lines (`Render(Preorder(..))`).
- `Labels` (`labels.dfy`): the label text as a function of the tree. A
  chain with no operands is met when `setNode()` reads a first child that
  does not exist; that failure is `None`.
- `Expressions` (`expressions.dfy`): one class `Expr` for the three node
  classes, told apart by a `kind` tag. It has the mutable `children`
  sequence and `parent` reference, plus two ghost fields. `model` is the
  `Tree` the node denotes. `Repr` is the node's footprint. `Valid()` says
  the subtree is a tree: footprints of siblings are disjoint, every child's
  parent is its owner, and `model` agrees with the children. The methods
  that only read a subtree ask for the weaker `Denotes()`, which keeps
  the agreement of `model` with the children and drops the rest;
  `ValidDenotes` shows that `Valid()` implies it. Every method of the
  modelled classes is a method here, except those listed under
  "Left out", and every loop over nodes is a `while` loop.
  One loop is not: the inner loop of a chain's `flatten()` that copies a
  merged child's children into `toAdd` is a sequence concatenation
  (`toAdd + e.children`). Each method is proved against the functions of
  the other modules, for example `FlattenChain` ensures
  `model == Flat(old(model))`.

The literal leaf class is not part of this model. It is assumed to hold
only its text, to have no children, to do nothing on `flatten()`, to dump
as its text, to have its text as label and to copy into a new leaf.

The documentation comment of `flatten()`
(`src/AbstractCompoundExpression.java:57-63`) says only a first or last
same-type child is merged. The code (`src/SimpleCompoundExpression.java:52-66`)
merges a same-operation chain at any position. The model follows the code.
`FlatMergesAnywhere` states the merge of the operand at any position `j`,
and `InnerMergeFlattens` shows it for the middle operand of
`a + (b + c) + d`, which flattens to `a + b + c + d`.

## Model

| member | source | states |
|---|---|---|
| Trees.Flat | src/SimpleCompoundExpression.java:50-71 | flattening keeps a node's kind and a chain's operation, and leaves a literal unchanged |
| Trees.FlatEach | src/ParentheticalExpression.java:34-38 | every child flattened in place: same length, the i-th result is the i-th child flattened |
| Trees.SpliceKeeps | src/SimpleCompoundExpression.java:54-65 | an element that does not merge stays one element, at its own position, between the pieces of its left and right neighbours |
| Trees.SpliceMerges | src/SimpleCompoundExpression.java:54-60 | a same-operation chain at any position is replaced, at that position, by its children, between the pieces of its left and right neighbours |
| Trees.SpliceElements | src/SimpleCompoundExpression.java:52-66 | the elements of the merged list are exactly the children that do not merge and the children of those that do |
| Trees.SpliceIdentity | src/SimpleCompoundExpression.java:54-65 | when no child is a same-operation chain, the merged list is the child list itself |
| Trees.SpliceAppend | src/SimpleCompoundExpression.java:52-66 | the merge works element by element: merging a concatenation concatenates the merged parts |
| Trees.SpliceFlattened | src/SimpleCompoundExpression.java:52-66 | merging flattened children yields only flattened elements, none of them a same-operation chain |
| Trees.FlatFlattened | src/SimpleCompoundExpression.java:53 | because each child is flattened before the merge decision, the result is in normal form: no chain anywhere has a same-operation chain as a child |
| Trees.FlatFixed | src/AbstractCompoundExpression.java:57-63 | a tree in normal form is left unchanged by flattening |
| Trees.FlatIdempotent | src/AbstractCompoundExpression.java:57-63 | flattening twice is flattening once |
| Trees.FlatKeepsUnmerged | src/SimpleCompoundExpression.java:54-65 | a literal, a parenthetical or a different-operation chain stays a single operand, flattened internally, between the merged pieces of its siblings, at any position |
| Trees.FlatMergesAnywhere | src/SimpleCompoundExpression.java:54-60 | a same-operation chain at any operand position, not only the first or last, is replaced there by its flattened operands |
| Trees.InnerMergeFlattens | src/SimpleCompoundExpression.java:54-60 | `a op (b op c) op d` flattens to `a op b op c op d`: the middle operand is merged |
| Trees.FlatParenBoundary | src/SimpleCompoundExpression.java:54-64 | a parenthetical operand is never merged into the enclosing chain; only its inside is flattened |
| Trees.SpliceKeepsLeaves | src/SimpleCompoundExpression.java:57-64 | merging keeps the left-to-right sequence of literals |
| Trees.FlatKeepsLeaves | src/SimpleCompoundExpression.java:50-71 | flattening keeps the left-to-right sequence of literals of the subtree |
| Trees.MergeLeft | src/SimpleCompoundExpression.java:55-59 | a left operand that flattens to a same-operation chain is replaced by that chain's operands, followed by the right operand, which is already flat and does not merge |
| Trees.SampleFlattens | src/ExpressionEditor.java:112 | the sample `2*x+3*y+4*z+(7+6*z)` flattens to a `+` chain of the three products and the parenthetical, whose inner `+` stays separate |
| Dumps.Dump | src/SimpleCompoundExpression.java:81-91 | the dump has at least one character, its line's newline, for every node of the tree |
| Dumps.DumpUnfold | src/SimpleCompoundExpression.java:81-91 | a node's dump is its tabs, its token and a newline, then the children's dumps one level deeper, in order |
| Dumps.DumpIsPreorder | src/ParentheticalExpression.java:54-64 | the dump is the pre-order list of the nodes, one line per node, indented by its depth |
| Dumps.PreorderShape | src/SimpleCompoundExpression.java:81-91 | one line per node; the first is the node's own token at the starting depth and every later line is deeper |
| Labels.Label | src/SimpleCompoundExpression.java:23-31 | a literal's label is its text; a chain without operands has none, the `get(0)` failure at line 24 |
| Labels.LabelOperands | src/SimpleCompoundExpression.java:23-31 | a chain with operands or a parenthetical has a label exactly when every operand has one |
| Labels.ChainLabel | src/SimpleCompoundExpression.java:23-31 | a chain's label joins its operands' texts with the operation, with no separator before the first |
| Labels.ParenLabel | src/ParentheticalExpression.java:21-29 | a parenthetical's label is "(", its operands' texts in order, then ")" |
| Labels.NoOperands | src/SimpleCompoundExpression.java:24 | a chain without operands has no label: its first child does not exist |
| Labels.UnlabelledOperand | src/SimpleCompoundExpression.java:27 | an operand without a label leaves its chain or parenthetical without one |
| Labels.JoinStep | src/SimpleCompoundExpression.java:26-29 | one round of the chain loop appends the operation and the next operand's text to the text so far |
| Labels.JoinAppend | src/SimpleCompoundExpression.java:26-29 | joining two non-empty runs puts exactly one operation between them |
| Labels.SpliceKeepsText | src/SimpleCompoundExpression.java:57-64 | merging same-operation chains into the parent does not change the joined text |
| Labels.FlatKeepsText | src/SimpleCompoundExpression.java:50-71 | flattening never changes a label that can be built |
| Labels.FlatKeepsLabel | src/SimpleCompoundExpression.java:50-71 | for a tree that has a label, the flattened tree has the same label; the condition is needed, see `FlatCanAddLabel` |
| Labels.FlatCanAddLabel | src/SimpleCompoundExpression.java:50-71 | the converse fails: `op` over an empty `op` chain and a literal has no label, but its flattened form has the literal's text as label |
| Expressions.Expr.Chain | src/SimpleCompoundExpression.java:42-45 | a new chain has the given operation, no children and no parent |
| Expressions.Expr.Paren | src/ParentheticalExpression.java:43-45 | a new parenthetical has no children and no parent |
| Expressions.Expr.GetParent | src/AbstractCompoundExpression.java:24-26 | returns the parent field |
| Expressions.Expr.SetParent | src/AbstractCompoundExpression.java:44-46 | sets the parent field and changes nothing else |
| Expressions.Expr.ReParent | src/AbstractCompoundExpression.java:24-46 | `setParent(p)` then `getParent()` gives back `p` |
| Expressions.Expr.GetChildren | src/AbstractCompoundExpression.java:33-35 | returns the current child list, as left by the latest add or clear |
| Expressions.Expr.AddSubexpression | src/AbstractCompoundExpression.java:84-87 | appends the node: the old list plus the node at the end, whose parent becomes this node; no other node's parent or list changes, and the tree shape is kept when the node is a detached subtree |
| Expressions.Expr.ClearSubexpression | src/AbstractCompoundExpression.java:92-94 | the child list becomes empty; the former children's parent fields are not touched |
| Expressions.Expr.Flatten | src/AbstractCompoundExpression.java:57-64 | the subtree's new tree is `Flat` of the old one; a chain's new child list is the merged list of its old children, any other node keeps its child list; footprint and parent unchanged |
| Expressions.Expr.FlattenChain | src/SimpleCompoundExpression.java:50-71 | the new child list is the in-order concatenation, over the old children, of each same-operation chain's children and of every other child itself; every element has this node as parent, none is a same-operation chain, and the list is unchanged when no child merged |
| Expressions.Expr.FlattenAndGather | src/SimpleCompoundExpression.java:51-66 | after the loop every child is flattened, the list itself unchanged, and `toAdd` is the merged list |
| Expressions.Expr.GatherChild | src/SimpleCompoundExpression.java:53-65 | one round: flattens the i-th child, then appends its children if it is a same-operation chain and the child itself otherwise |
| Expressions.Expr.MergeGathered | src/SimpleCompoundExpression.java:67-70 | the merged list replaces the child list, and the tree becomes the chain of the spliced subtrees |
| Expressions.Expr.Regroup | src/SimpleCompoundExpression.java:67-70 | clearing then re-adding gives exactly the given list, re-parented, with the footprint unchanged |
| Expressions.Expr.AddAll | src/SimpleCompoundExpression.java:68-70 | adding the elements in order gives exactly the given list as children |
| Expressions.Expr.AbsorbedModels | src/SimpleCompoundExpression.java:52-66 | the nodes of the merged list denote, one for one, the spliced trees of the children |
| Expressions.Expr.AbsorbedSubtrees | src/SimpleCompoundExpression.java:52-66 | the merged list consists of valid, pairwise disjoint subtrees from inside this node |
| Expressions.Expr.AbsorbedIdentity | src/SimpleCompoundExpression.java:54-65 | when no child merges, the merged list is the child list |
| Expressions.Expr.MergesByModel | src/SimpleCompoundExpression.java:54-55 | the class test and the operation test on a node agree with `Absorbs` on its tree |
| Expressions.Expr.NoMergingChild | src/SimpleCompoundExpression.java:53-65 | a chain in normal form has no child that it would merge |
| Expressions.Expr.FlattenChildAt | src/SimpleCompoundExpression.java:53 | flattening one child records that child's flattened tree and leaves the siblings' lists unchanged |
| Expressions.Expr.FlattenParen | src/ParentheticalExpression.java:34-38 | the child list is unchanged (same nodes, same order) and the new tree is the old one flattened |
| Expressions.Expr.FlattenParenChild | src/ParentheticalExpression.java:35-37 | one round: the i-th child is flattened, the children before it already are |
| Expressions.Expr.Indent | src/SimpleCompoundExpression.java:82-85 | the token behind `indent` tabs, none for zero or a negative level |
| Expressions.Expr.ConvertToString | src/SimpleCompoundExpression.java:81-91 | the result is `Dump` of the node's tree at the given level |
| Expressions.Expr.AppendChildDump | src/SimpleCompoundExpression.java:87-89 | one round: appending the k-th child's dump extends the dump of the children before it by one child |
| Expressions.Expr.ChildDump | src/ParentheticalExpression.java:60-62 | a child's dump, one level deeper |
| Expressions.Expr.DeepCopy | src/SimpleCompoundExpression.java:98-104 | the copy is built from new nodes only, denotes the same tree, has the same kind and no parent, and its children are parented to it |
| Expressions.Expr.CopyChild | src/ParentheticalExpression.java:72-74 | the copy of the k-th child is fresh and denotes that child's tree |
| Expressions.Expr.FlattenCopy | src/ParentheticalExpression.java:70-76 | flattening a deep copy leaves every node of the original unchanged |
| Expressions.Expr.LabelText | src/SimpleCompoundExpression.java:23-31 | the label text is `Label` of the node's tree |
| Expressions.Expr.ChainLabelText | src/SimpleCompoundExpression.java:23-31 | a chain's label text, `None` for a chain without operands |
| Expressions.Expr.JoinLabelTexts | src/SimpleCompoundExpression.java:26-29 | the loop joins the operands' texts with the operation |
| Expressions.Expr.JoinNext | src/SimpleCompoundExpression.java:26-29 | one round: the next operand's text is joined on with the operation, or the whole label fails when that operand has none |
| Expressions.Expr.ChildLabel | src/SimpleCompoundExpression.java:27-28 | a child's label text is `Label` of its tree |
| Expressions.Expr.ParenLabelText | src/ParentheticalExpression.java:21-29 | a parenthetical's label text is `Label` of its tree |
| Expressions.Expr.ConcatNext | src/ParentheticalExpression.java:23-26 | one round: the next operand's text is appended, or the whole label fails when that operand has none |
| Labels.ConcatStep | src/ParentheticalExpression.java:23-26 | one round of the parenthetical loop appends the next operand's text to the text so far |

## Left out

- The JavaFX objects: `getNode()`, the `_node` field and the `Label` that
  `setNode()` builds. The label text is modelled as the value that
  `LabelText` returns; it is not stored in the node.
- Expressions.Expr.LabelText: when a chain without operands is met, the
  source throws an exception after the labels of earlier children were
  already set. The model returns `None` and does not describe those
  labels.
- `focus(x, y)`, the drag-and-drop reordering and all geometry: they work
  on floating-point scene coordinates in the GUI.
- `src/ExpressionEditor.java` apart from its sample input; it is GUI event
  handling.
- `src/CompoundExpression.java`: it holds only interface declarations. Its
  operations are modelled through the classes that implement them.
- The parser and its exception, `LiteralExpression` and the `Expression`
  interface are not part of this model. Trees are built directly, and the
  literal leaf is the assumed variant described above.
- Expressions.Expr.GetChildren: returns the list as a value. In the source,
  the caller receives the live list and could change it; aliasing through
  that list is not modelled.
- Expressions.Expr.AddSubexpression: keeps the tree shape only when the
  added node is a detached subtree (`CanAdopt`). The source does not
  detach the node from a previous parent, so it can build shared or cyclic
  graphs; their behaviour is not described.
- Expressions.Expr.Flatten: modelled only on tree-shaped structures
  (`Valid()`), not on shared or cyclic node graphs.
- The class test `e.getClass() == this.getClass()` is modelled by the
  `kind` tag. Subclasses of the node classes do not exist in the model.
