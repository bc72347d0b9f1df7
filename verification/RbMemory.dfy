/**
 How a red-black tree lies in memory: one cell per node, with the links of rb_node (the packed
 rb_parent_color is split into parent and colour). 0 stands for NULL.
 */
module RbMemory {
  import opened RbShape

  const NULL: Id := 0

  datatype Cell = Cell(parent: Id, black: bool, left: Id, right: Id)

  type Memory = map<Id, Cell>

  function RootId(t: Tree): Id { if t.Leaf? then NULL else t.id }

  function UpId(c: Context): Id { if c.Top? then NULL else c.id }

  ghost function Ids(t: Tree): set<Id> {
    match t
    case Leaf => {}
    case Node(l, id, _, r) => Ids(l) + {id} + Ids(r)
  }

  ghost function IdsAround(c: Context): set<Id> {
    match c
    case Top => {}
    case Hole(_, id, _, sibling, up) => {id} + Ids(sibling) + IdsAround(up)
  }

  /** The cells of `t`, each with the parent, colour and children that `t` says, all distinct. */
  ghost predicate Rep(m: Memory, t: Tree, parent: Id) {
    match t
    case Leaf => true
    case Node(l, id, black, r) =>
      && id != NULL && id in m && m[id] == Cell(parent, black, RootId(l), RootId(r))
      && id !in Ids(l) && id !in Ids(r) && Ids(l) !! Ids(r)
      && Rep(m, l, id) && Rep(m, r, id)
  }

  /** The cells of the context, `hole` being the root of the subtree that goes in it. */
  ghost predicate RepAround(m: Memory, c: Context, hole: Id) {
    match c
    case Top => true
    case Hole(side, id, black, sibling, up) =>
      && id != NULL && id in m
      && m[id] == (if side == L then Cell(UpId(up), black, hole, RootId(sibling))
                   else Cell(UpId(up), black, RootId(sibling), hole))
      && id !in Ids(sibling) && id !in IdsAround(up) && Ids(sibling) !! IdsAround(up)
      && Rep(m, sibling, id) && RepAround(m, up, id)
  }

  /** The id of the root of the whole tree. */
  function TopId(c: Context, hole: Id): Id {
    if c.Top? then hole else TopId(c.up, c.id)
  }

  /** Memory and root pointer hold the tree Plug(c, t), seen from the subtree `t`. */
  ghost predicate At(m: Memory, root: Id, c: Context, t: Tree) {
    && Rep(m, t, UpId(c)) && RepAround(m, c, RootId(t))
    && Ids(t) !! IdsAround(c)
    && root == TopId(c, RootId(t))
  }

  /** Moving the focus up one level, or down again. */
  lemma Refocus(m: Memory, root: Id, c: Context, t: Tree)
    requires c.Hole?
    ensures At(m, root, c, t) <==> At(m, root, c.up, Join(c.side, c.id, c.black, t, c.sibling))
    ensures Plug(c, t) == Plug(c.up, Join(c.side, c.id, c.black, t, c.sibling))
  {
  }

  /** The context of the sibling. */
  function Across(c: Context, t: Tree): Context
    requires c.Hole?
  {
    Hole(Other(c.side), c.id, c.black, t, c.up)
  }

  /** Moving the focus to the sibling. */
  lemma SwitchFocus(m: Memory, root: Id, c: Context, t: Tree)
    requires c.Hole?
    ensures At(m, root, c, t) <==> At(m, root, Across(c, t), c.sibling)
    ensures Plug(c, t) == Plug(Across(c, t), c.sibling)
  {
    Refocus(m, root, c, t);
    Refocus(m, root, Across(c, t), c.sibling);
  }

  lemma {:induction false} FocusTop(m: Memory, root: Id, c: Context, t: Tree)
    ensures At(m, root, c, t) <==> At(m, root, Top, Plug(c, t))
  {
    if c.Hole? {
      Refocus(m, root, c, t);
      FocusTop(m, root, c.up, Join(c.side, c.id, c.black, t, c.sibling));
    }
  }

  ghost predicate Same(m: Memory, m': Memory, ids: set<Id>) {
    forall id :: id in ids && id in m ==> id in m' && m'[id] == m[id]
  }

  lemma {:induction false} RepFrame(m: Memory, m': Memory, t: Tree, parent: Id)
    requires Rep(m, t, parent) && Same(m, m', Ids(t))
    ensures Rep(m', t, parent)
  {
    if t.Node? {
      RepFrame(m, m', t.left, t.id);
      RepFrame(m, m', t.right, t.id);
    }
  }

  lemma {:induction false} RepAroundFrame(m: Memory, m': Memory, c: Context, hole: Id)
    requires RepAround(m, c, hole) && Same(m, m', IdsAround(c))
    ensures RepAround(m', c, hole)
  {
    if c.Hole? {
      RepFrame(m, m', c.sibling, c.id);
      RepAroundFrame(m, m', c.up, c.id);
    }
  }

  lemma {:induction false} NoNull(m: Memory, t: Tree, parent: Id)
    requires Rep(m, t, parent)
    ensures NULL !in Ids(t)
  {
    if t.Node? {
      NoNull(m, t.left, t.id);
      NoNull(m, t.right, t.id);
    }
  }

  /** The subtree gets another parent. */
  lemma Reparent(m: Memory, m': Memory, t: Tree, parent: Id, parent': Id)
    requires Rep(m, t, parent) && Same(m, m', Ids(t) - {RootId(t)})
    requires t.Node? ==> t.id in m' && m'[t.id] == m[t.id].(parent := parent')
    ensures Rep(m', t, parent')
  {
    if t.Node? {
      RepFrame(m, m', t.left, t.id);
      RepFrame(m, m', t.right, t.id);
    }
  }

  function WithChild(cell: Cell, side: Side, id: Id): Cell {
    if side == L then cell.(left := id) else cell.(right := id)
  }

  /** The hole of the context is filled with another subtree. */
  lemma Rehang(m: Memory, m': Memory, c: Context, hole: Id, hole': Id)
    requires RepAround(m, c, hole) && Same(m, m', IdsAround(c) - {UpId(c)})
    requires c.Hole? ==> c.id in m' && m'[c.id] == WithChild(m[c.id], c.side, hole')
    ensures RepAround(m', c, hole')
  {
    if c.Hole? {
      RepFrame(m, m', c.sibling, c.id);
      RepAroundFrame(m, m', c.up, c.id);
    }
  }

  /** Recolouring the node in focus. */
  lemma Recoloured(m: Memory, root: Id, c: Context, t: Tree, black: bool)
    requires At(m, root, c, t) && t.Node?
    ensures t.id in m && At(m[t.id := m[t.id].(black := black)], root, c, t.(black := black))
    ensures Inorder(Plug(c, t.(black := black))) == Inorder(Plug(c, t))
  {
    var m' := m[t.id := m[t.id].(black := black)];
    RepFrame(m, m', t.left, t.id);
    RepFrame(m, m', t.right, t.id);
    RepAroundFrame(m, m', c, t.id);
    InorderPlug(c, t);
    InorderPlug(c, t.(black := black));
  }

  /** The cell of a node with the given children. */
  function CellOf(parent: Id, black: bool, side: Side, a: Id, b: Id): Cell {
    if side == L then Cell(parent, black, a, b) else Cell(parent, black, b, a)
  }

  /** A subtree in memory, taken apart. */
  lemma SplitRep(m: Memory, t: Tree, parent: Id, side: Side)
    requires Rep(m, t, parent) && t.Node?
    ensures var a, b := Child(t, side), Child(t, Other(side));
      && Rep(m, a, t.id) && Rep(m, b, t.id)
      && Ids(t) == {t.id} + Ids(a) + Ids(b)
      && t.id !in Ids(a) && t.id !in Ids(b) && Ids(a) !! Ids(b) && NULL !in Ids(t)
      && (a.Node? ==> a.id in Ids(a)) && (b.Node? ==> b.id in Ids(b))
      && t.id in m && m[t.id] == CellOf(parent, t.black, side, RootId(a), RootId(b))
  {
    NoNull(m, t, parent);
  }

  /** A subtree in memory, put together. */
  lemma JoinRep(m: Memory, side: Side, id: Id, black: bool, a: Tree, b: Tree, parent: Id)
    requires Rep(m, a, id) && Rep(m, b, id) && id != NULL && id in m
    requires m[id] == CellOf(parent, black, side, RootId(a), RootId(b))
    requires id !in Ids(a) && id !in Ids(b) && Ids(a) !! Ids(b)
    ensures Rep(m, Join(side, id, black, a, b), parent)
    ensures Ids(Join(side, id, black, a, b)) == {id} + Ids(a) + Ids(b)
    ensures RootId(Join(side, id, black, a, b)) == id
  {
  }

  lemma {:induction false} UpInAround(m: Memory, c: Context, hole: Id)
    requires RepAround(m, c, hole)
    ensures NULL !in IdsAround(c) && (c.Hole? ==> c.id in IdsAround(c) && c.id in m)
  {
    if c.Hole? {
      NoNull(m, c.sibling, c.id);
      UpInAround(m, c.up, c.id);
    }
  }

  /** What the routines read around the node in focus. */
  lemma ReadAround(m: Memory, root: Id, c: Context, t: Tree)
    requires At(m, root, c, t)
    ensures t.Node? ==> t.id in m && t.id != NULL && m[t.id] == Cell(UpId(c), t.black, RootId(t.left), RootId(t.right))
    ensures c.Hole? ==> c.id in m && c.id != NULL && c.id != RootId(t)
    ensures c.Hole? ==> m[c.id] == CellOf(UpId(c.up), c.black, c.side, RootId(t), RootId(c.sibling))
    ensures c.Hole? && c.sibling.Node? ==>
      var s := c.sibling;
      s.id in m && s.id != NULL && s.id != RootId(t) && m[s.id] == Cell(c.id, s.black, RootId(s.left), RootId(s.right))
  {
    UpInAround(m, c, RootId(t));
    if c.Hole? && c.sibling.Node? {
      assert c.sibling.id in Ids(c.sibling);
    }
  }

  /** What a rotation does to the memory: only the two rotated nodes, the subtree that changes sides
      and the link from above are written. */
  ghost predicate RotationWrites(m: Memory, m': Memory, root': Id, c: Context, t: Tree, side: Side)
    requires t.Node? && Child(t, side).Node?
  {
    var up, down := Child(t, side), Other(side);
    var mid := Child(up, down);
    && t.id in m && up.id in m && t.id in m' && up.id in m'
    && m'[t.id] == WithChild(m[t.id], side, RootId(mid)).(parent := up.id)
    && m'[up.id] == WithChild(m[up.id], down, t.id).(parent := UpId(c))
    && (mid.Node? ==> mid.id in m && mid.id in m' && m'[mid.id] == m[mid.id].(parent := t.id))
    && (c.Hole? ==> c.id in m && c.id in m' && m'[c.id] == WithChild(m[c.id], c.side, up.id))
    && (forall id :: id in m && id !in {t.id, up.id, RootId(mid), UpId(c)} ==> id in m' && m'[id] == m[id])
    && root' == TopId(c, up.id)
  }

  lemma RotationRep(m: Memory, m': Memory, root: Id, root': Id, c: Context, t: Tree, side: Side)
    requires At(m, root, c, t) && t.Node? && Child(t, side).Node?
    requires RotationWrites(m, m', root', c, t, side)
    ensures At(m', root', c, Rotated(t, side))
    ensures Inorder(Plug(c, Rotated(t, side))) == Inorder(Plug(c, t))
  {
    hide Rep, RepAround, Ids, IdsAround, Join, TopId, Plug, Inorder;
    var up, down := Child(t, side), Other(side);
    var mid, outer, inner := Child(up, down), Child(up, side), Child(t, down);
    SplitRep(m, t, UpId(c), side);
    SplitRep(m, up, t.id, down);
    UpInAround(m, c, t.id);
    Reparent(m, m', mid, up.id, t.id);
    RepFrame(m, m', outer, up.id);
    RepFrame(m, m', inner, t.id);
    Rehang(m, m', c, t.id, up.id);
    JoinRep(m', side, t.id, t.black, mid, inner, up.id);
    JoinRep(m', down, up.id, up.black, Join(side, t.id, t.black, mid, inner), outer, UpId(c));
    InorderRotated(t, side);
    InorderPlug(c, t);
    InorderPlug(c, Rotated(t, side));
  }

  /** if (id) rb_set_parent(id, parent) */
  function SetParentIf(m: Memory, id: Id, parent: Id): (r: Memory)
    requires id != NULL ==> id in m
    ensures r.Keys == m.Keys && forall k :: k in m && k != id ==> r[k] == m[k]
    ensures id != NULL ==> r[id] == m[id].(parent := parent)
    ensures id == NULL ==> r == m
  {
    if id == NULL then m else m[id := m[id].(parent := parent)]
  }

  /** Let the link from above that leads to `from` lead to `to`, if there is a parent. */
  function Rechild(m: Memory, parent: Id, from: Id, to: Id): (r: Memory)
    requires parent != NULL ==> parent in m
    ensures r.Keys == m.Keys && forall k :: k in m && k != parent ==> r[k] == m[k]
    ensures parent != NULL ==> r[parent] == WithChild(m[parent], if m[parent].left == from then L else R, to)
    ensures parent == NULL ==> r == m
  {
    if parent == NULL then m
    else if m[parent].left == from then m[parent := m[parent].(left := to)]
    else m[parent := m[parent].(right := to)]
  }

  /** What taking a node with at most one child out of the tree writes. */
  ghost predicate RemovalWrites(m: Memory, m': Memory, root': Id, c: Context, hole: Id, child: Tree) {
    && (child.Node? ==> child.id in m && child.id in m' && m'[child.id] == m[child.id].(parent := UpId(c)))
    && (c.Hole? ==> c.id in m && c.id in m' && m'[c.id] == WithChild(m[c.id], c.side, RootId(child)))
    && (forall id :: id in m && id != RootId(child) && id != UpId(c) ==> id in m' && m'[id] == m[id])
    && root' == TopId(c, RootId(child))
  }

  lemma RemovalRep(m: Memory, m': Memory, root: Id, root': Id, c: Context, t: Tree, side: Side)
    requires At(m, root, c, t) && t.Node? && Child(t, Other(side)).Leaf?
    requires RemovalWrites(m, m', root', c, t.id, Child(t, side))
    ensures At(m', root', c, Child(t, side)) && t.id !in Ids(Child(t, side)) && t.id !in IdsAround(c)
    ensures t.id in m' && t.id != NULL
  {
    hide Rep, RepAround, Ids, IdsAround, TopId;
    var child := Child(t, side);
    SplitRep(m, t, UpId(c), side);
    UpInAround(m, c, t.id);
    Reparent(m, m', child, t.id, UpId(c));
    Rehang(m, m', c, t.id, RootId(child));
  }

  /** What putting `new` in the place of the node in focus writes. */
  ghost predicate ReplacementWrites(m: Memory, m': Memory, root': Id, c: Context, t: Tree, new_: Id)
    requires t.Node?
  {
    && t.id in m && new_ in m' && m'[new_] == m[t.id]
    && (t.left.Node? ==> t.left.id in m && t.left.id in m' && m'[t.left.id] == m[t.left.id].(parent := new_))
    && (t.right.Node? ==> t.right.id in m && t.right.id in m' && m'[t.right.id] == m[t.right.id].(parent := new_))
    && (c.Hole? ==> c.id in m && c.id in m' && m'[c.id] == WithChild(m[c.id], c.side, new_))
    && (forall id :: id in m && id !in {new_, RootId(t.left), RootId(t.right), UpId(c)} ==> id in m' && m'[id] == m[id])
    && root' == TopId(c, new_)
  }

  lemma ReplacementRep(m: Memory, m': Memory, root: Id, root': Id, c: Context, t: Tree, new_: Id)
    requires At(m, root, c, t) && t.Node? && new_ != NULL && new_ !in Ids(t) && new_ !in IdsAround(c)
    requires ReplacementWrites(m, m', root', c, t, new_)
    ensures At(m', root', c, t.(id := new_))
  {
    hide Rep, RepAround, Ids, IdsAround, TopId;
    SplitRep(m, t, UpId(c), L);
    UpInAround(m, c, t.id);
    Reparent(m, m', t.left, t.id, new_);
    Reparent(m, m', t.right, t.id, new_);
    Rehang(m, m', c, t.id, new_);
    JoinRep(m', L, new_, t.black, t.left, t.right, UpId(c));
    assert t.(id := new_) == Join(L, new_, t.black, t.left, t.right);
  }

  lemma {:induction false} IdsPlug(c: Context, t: Tree)
    ensures Ids(Plug(c, t)) == Ids(t) + IdsAround(c)
  {
    if c.Hole? {
      IdsPlug(c.up, Join(c.side, c.id, c.black, t, c.sibling));
    }
  }

  lemma {:induction false} IdsCompose(inner: Context, outer: Context)
    ensures IdsAround(Compose(inner, outer)) == IdsAround(inner) + IdsAround(outer)
  {
    if inner.Hole? {
      IdsCompose(inner.up, outer);
    }
  }
}
