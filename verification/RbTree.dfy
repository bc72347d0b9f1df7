/**
 The red-black tree routines, working in place on cells linked by parent and child pointers. The
 ghost parameters say where in which tree the given node is.
 */
module RbTree {
  import opened RbShape
  import opened RbMemory

  class Root {
    var rbNode: Id
    var cells: Memory

    constructor ()
      ensures rbNode == NULL && cells == map[] && At(cells, rbNode, Top, Leaf)
    {
      rbNode := NULL;
      cells := map[];
    }

    /** __rb_rotate_left */
    method RotateLeft(node: Id, ghost c: Context, ghost t: Tree)
      requires At(cells, rbNode, c, t) && t.Node? && t.id == node && t.right.Node?
      modifies this
      ensures At(cells, rbNode, c, Rotated(t, R))
      ensures Inorder(Plug(c, Rotated(t, R))) == Inorder(Plug(c, t))
    {
      hide At, Plug, Inorder, Rotated;
      Nearby(cells, rbNode, c, t, R);
      var m: Memory := cells;
      var right := m[node].right;
      var parent := m[node].parent;
      var mid := m[right].left;
      m := m[node := m[node].(right := mid)];
      if mid != NULL {
        m := m[mid := m[mid].(parent := node)];
      }
      m := m[right := m[right].(left := node)];
      m := m[right := m[right].(parent := parent)];
      ghost var root := rbNode;
      if parent != NULL {
        if node == m[parent].left {
          m := m[parent := m[parent].(left := right)];
        } else {
          m := m[parent := m[parent].(right := right)];
        }
      } else {
        rbNode := right;
      }
      m := m[node := m[node].(parent := right)];
      RotationRep(cells, m, root, rbNode, c, t, R);
      cells := m;
    }

    /** __rb_rotate_right */
    method RotateRight(node: Id, ghost c: Context, ghost t: Tree)
      requires At(cells, rbNode, c, t) && t.Node? && t.id == node && t.left.Node?
      modifies this
      ensures At(cells, rbNode, c, Rotated(t, L))
      ensures Inorder(Plug(c, Rotated(t, L))) == Inorder(Plug(c, t))
    {
      hide At, Plug, Inorder, Rotated;
      Nearby(cells, rbNode, c, t, L);
      var m: Memory := cells;
      var left := m[node].left;
      var parent := m[node].parent;
      var mid := m[left].right;
      m := m[node := m[node].(left := mid)];
      if mid != NULL {
        m := m[mid := m[mid].(parent := node)];
      }
      m := m[left := m[left].(right := node)];
      m := m[left := m[left].(parent := parent)];
      ghost var root := rbNode;
      if parent != NULL {
        if node == m[parent].right {
          m := m[parent := m[parent].(right := left)];
        } else {
          m := m[parent := m[parent].(left := left)];
        }
      } else {
        rbNode := left;
      }
      m := m[node := m[node].(parent := left)];
      RotationRep(cells, m, root, rbNode, c, t, L);
      cells := m;
    }

    /** rb_set_black, rb_set_red, rb_set_color */
    method SetColor(node: Id, black: bool, ghost c: Context, ghost t: Tree)
      requires At(cells, rbNode, c, t) && t.Node? && t.id == node
      modifies this`cells
      ensures At(cells, rbNode, c, t.(black := black))
      ensures Inorder(Plug(c, t.(black := black))) == Inorder(Plug(c, t))
    {
      Recoloured(cells, rbNode, c, t, black);
      cells := cells[node := cells[node].(black := black)];
    }

    /** The same for the parent of the node in focus. */
    method SetParentColor(parent: Id, black: bool, ghost c: Context, ghost t: Tree)
      requires At(cells, rbNode, c, t) && c.Hole? && c.id == parent
      modifies this`cells
      ensures At(cells, rbNode, c.(black := black), t)
      ensures Inorder(Plug(c.(black := black), t)) == Inorder(Plug(c, t))
    {
      hide At, Inorder, Plug;
      ghost var p := Join(c.side, c.id, c.black, t, c.sibling);
      Refocus(cells, rbNode, c, t);
      SetColor(parent, black, c.up, p);
      Refocus(cells, rbNode, c.(black := black), t);
    }

    /** The same for the sibling of the node in focus. */
    method SetSiblingColor(sibling: Id, black: bool, ghost c: Context, ghost t: Tree)
      requires At(cells, rbNode, c, t) && c.Hole? && c.sibling.Node? && c.sibling.id == sibling
      modifies this`cells
      ensures At(cells, rbNode, c.(sibling := c.sibling.(black := black)), t)
      ensures Inorder(Plug(c.(sibling := c.sibling.(black := black)), t)) == Inorder(Plug(c, t))
    {
      hide At, Inorder, Plug;
      SwitchFocus(cells, rbNode, c, t);
      SetColor(sibling, black, Across(c, t), c.sibling);
      SwitchFocus(cells, rbNode, c.(sibling := c.sibling.(black := black)), t);
    }

    /** The red-uncle case of rb_insert_color. */
    method RecolourFamily(uncle: Id, parent: Id, gparent: Id, ghost c: Context, ghost t: Tree)
      requires At(cells, rbNode, c, t) && c.Hole? && c.id == parent && c.up.Hole? && c.up.id == gparent
      requires c.up.sibling.Node? && c.up.sibling.id == uncle
      modifies this`cells
      ensures At(cells, rbNode, c.up.up, Recolour(c, t))
      ensures Inorder(Plug(c.up.up, Recolour(c, t))) == Inorder(Plug(c, t))
    {
      hide At, Inorder, Plug;
      ghost var g, p := c.up, Join(c.side, c.id, c.black, t, c.sibling);
      Refocus(cells, rbNode, c, t);
      SetSiblingColor(uncle, true, g, p);
      g := g.(sibling := g.sibling.(black := true));
      SetColor(parent, true, g, p);
      SetParentColor(gparent, false, g, p.(black := true));
      Refocus(cells, rbNode, g.(black := false), p.(black := true));
    }

    /** Rotate the `side` child of a node above it. */
    method Rotate(node: Id, side: Side, ghost c: Context, ghost t: Tree)
      requires At(cells, rbNode, c, t) && t.Node? && t.id == node && Child(t, side).Node?
      modifies this
      ensures At(cells, rbNode, c, Rotated(t, side))
      ensures Inorder(Plug(c, Rotated(t, side))) == Inorder(Plug(c, t))
    {
      hide At, Inorder, Plug, Rotated;
      if side == L {
        RotateRight(node, c, t);
      } else {
        RotateLeft(node, c, t);
      }
    }

    /** The last three steps of a round of rb_insert_color. */
    method RaiseParent(parent: Id, gparent: Id, side: Side, ghost c: Context, ghost t: Tree)
      requires At(cells, rbNode, c, t) && c.Hole? && c.id == parent && c.up.Hole? && c.up.id == gparent
      requires c.side == side && c.up.side == side
      modifies this
      ensures At(cells, rbNode, Raised(c), t)
      ensures Inorder(Plug(Raised(c), t)) == Inorder(Plug(c, t))
    {
      hide At, Inorder, Plug;
      ghost var p := Join(side, parent, true, t, c.sibling);
      SetParentColor(parent, true, c, t);
      Refocus(cells, rbNode, c.(black := true), t);
      SetParentColor(gparent, false, c.up, p);
      Refocus(cells, rbNode, c.up.(black := false), p);
      Rotate(gparent, side, c.up.up, Join(side, gparent, false, p, c.up.sibling));
      Refocus(cells, rbNode, Raised(c), t);
    }

    /** One round of the loop of rb_insert_color. Its two branches are mirror images; `side` is the
        side of the grandparent that the parent is on. */
    method InsertRound(node: Id, parent: Id, ghost c: Context, ghost t: Tree)
      returns (next: Id, ghost c': Context, ghost t': Tree)
      requires At(cells, rbNode, c, t) && InsertState(c, t) && t.Node? && t.id == node
      requires c.Hole? && c.id == parent && !c.black && c.up.Hole?
      modifies this
      ensures At(cells, rbNode, c', t') && InsertState(c', t') && t'.Node? && t'.id == next
      ensures Inorder(Plug(c', t')) == Inorder(Plug(c, t)) && Depth(c') < Depth(c)
      ensures c' == c.up.up || (c'.Hole? && c'.black)
    {
      hide At, Inorder, Plug, InsertState, Join, Rotated;
      ghost var g, p := c.up, Join(c.side, c.id, c.black, t, c.sibling);
      ReadAround(cells, rbNode, c, t);
      Refocus(cells, rbNode, c, t);
      JoinRules(c.side, c.id, c.black, t, c.sibling);
      ReadAround(cells, rbNode, g, p);
      var gparent := cells[parent].parent;
      var side := if parent == cells[gparent].left then L else R;
      var uncle := ChildId(cells[gparent], Other(side));
      if uncle != NULL && !cells[uncle].black {
        RecolourFamily(uncle, parent, gparent, c, t);
        InsertRecolour(c, t);
        RecolourRoot(c, t);
        return gparent, g.up, Recolour(c, t);
      }
      next := node;
      var q := parent;
      c', t' := c, t;
      if ChildId(cells[parent], Other(side)) == node {
        Rotate(parent, Other(side), g, p);
        Straightens(cells, rbNode, c, t);
        c', t' := StraightContext(c, t), StraightTree(c, t);
        next, q := parent, node;
      }
      RaiseParent(q, gparent, side, c', t');
      InsertRotate(c', t');
      c' := Raised(c');
    }

    /** rb_insert_color, called with a node just linked as a red leaf: the red-black rules hold again
        and the in-order sequence is unchanged. */
    method InsertColor(node: Id, ghost c: Context, ghost t: Tree) returns (ghost tree: Tree)
      requires At(cells, rbNode, c, t) && InsertState(c, t) && t.Node? && t.id == node
      modifies this
      ensures At(cells, rbNode, Top, tree) && RedBlack(tree) && Inorder(tree) == Inorder(Plug(c, t))
    {
      hide At, Inorder, Plug, InsertState, RedBlack;
      var n := node;
      ghost var c', t' := c, t;
      ReadAround(cells, rbNode, c', t');
      var parent := cells[n].parent;
      while parent != NULL && !cells[parent].black
        invariant At(cells, rbNode, c', t') && InsertState(c', t') && t'.Node? && t'.id == n
        invariant Inorder(Plug(c', t')) == Inorder(Plug(c, t)) && parent == UpId(c')
        invariant c'.Hole? ==> parent in cells && parent != NULL && cells[parent].black == c'.black
        decreases Depth(c')
      {
        InsertHasGrandparent(c', t');
        n, c', t' := InsertRound(n, parent, c', t');
        ReadAround(cells, rbNode, c', t');
        parent := cells[n].parent;
      }
      tree := Plug(c', t');
      InsertEnds(c', t');
      FocusTop(cells, rbNode, c', t');
      ReadAround(cells, rbNode, Top, tree);
      RootIsTop(cells, rbNode, tree);
      SetColor(rbNode, true, Top, tree);
      tree := Blacken(tree);
      PlugTop(tree);
      PlugTop(Plug(c', t'));
    }

    /** __rb_erase_color, red sibling: it is rotated above the parent. */
    method LiftSibling(other: Id, parent: Id, side: Side, ghost c: Context, ghost t: Tree)
      requires At(cells, rbNode, c, t) && c.Hole? && c.id == parent && c.side == side
      requires c.sibling.Node? && c.sibling.id == other
      modifies this
      ensures At(cells, rbNode, Lifted(c), t) && Inorder(Plug(Lifted(c), t)) == Inorder(Plug(c, t))
    {
      hide At, Inorder, Plug;
      SetSiblingColor(other, true, c, t);
      ghost var s := c.sibling.(black := true);
      SetParentColor(parent, false, c.(sibling := s), t);
      Refocus(cells, rbNode, c.(sibling := s, black := false), t);
      Rotate(parent, Other(side), c.up, Join(side, parent, false, t, s));
      Refocus(cells, rbNode, Lifted(c), t);
      Refocus(cells, rbNode, Lifted(c).up, Join(side, parent, false, t, Lifted(c).sibling));
    }

    /** __rb_erase_color, far nephew black: the near one is rotated above the sibling. */
    method RaiseNephew(other: Id, side: Side, ghost c: Context, ghost t: Tree)
      requires At(cells, rbNode, c, t) && c.Hole? && c.side == side
      requires c.sibling.Node? && c.sibling.id == other && Child(c.sibling, side).Node?
      modifies this
      ensures At(cells, rbNode, c.(sibling := Swung(c)), t)
      ensures Inorder(Plug(c.(sibling := Swung(c)), t)) == Inorder(Plug(c, t))
    {
      hide At, Inorder, Plug, Join;
      ghost var s := c.sibling;
      ghost var cs, near, far := Across(c, t), Child(s, side), Child(s, Other(side));
      SwitchFocus(cells, rbNode, c, t);
      ghost var cn := Hole(side, s.id, s.black, far, cs);
      SplitRules(s, side);
      Refocus(cells, rbNode, cn, near);
      ReadAround(cells, rbNode, cn, near);
      var nearId := ChildId(cells[other], side);
      if nearId != NULL {
        SetColor(nearId, true, cn, near);
      }
      SetParentColor(other, false, cn, near.(black := true));
      ghost var s' := Join(side, s.id, false, near.(black := true), far);
      JoinRules(side, s.id, false, near.(black := true), far);
      Refocus(cells, rbNode, cn.(black := false), near.(black := true));
      Rotate(other, side, cs, s');
      SwungIsRotated(c);
      SwitchFocus(cells, rbNode, c.(sibling := Swung(c)), t);
    }

    /** __rb_erase_color, red far nephew: the sibling is rotated above the parent. */
    method RaiseSibling(other: Id, parent: Id, side: Side, ghost c: Context, ghost t: Tree)
      requires At(cells, rbNode, c, t) && c.Hole? && c.id == parent && c.side == side
      requires c.sibling.Node? && c.sibling.id == other && Child(c.sibling, Other(side)).Node?
      modifies this
      ensures At(cells, rbNode, c.up, Settled(c, t))
      ensures Inorder(Plug(c.up, Settled(c, t))) == Inorder(Plug(c, t))
    {
      hide At, Inorder, Plug, Join;
      ghost var s := c.sibling.(black := c.black);
      ghost var near, far := Child(c.sibling, side), Child(c.sibling, Other(side));
      ReadAround(cells, rbNode, c, t);
      SetSiblingColor(other, cells[parent].black, c, t);
      SetParentColor(parent, true, c.(sibling := s), t);
      ghost var c1 := c.(sibling := s, black := true);
      SwitchFocus(cells, rbNode, c1, t);
      ghost var cf := Hole(Other(side), s.id, s.black, near, Across(c1, t));
      SplitRules(s, Other(side));
      Refocus(cells, rbNode, cf, far);
      ReadAround(cells, rbNode, cf, far);
      var farId := ChildId(cells[other], Other(side));
      if farId != NULL {
        SetColor(farId, true, cf, far);
      }
      ghost var s' := Join(Other(side), s.id, s.black, far.(black := true), near);
      Refocus(cells, rbNode, cf, far.(black := true));
      SwitchFocus(cells, rbNode, c1.(sibling := s'), t);
      Refocus(cells, rbNode, c1.(sibling := s'), t);
      JoinRules(side, parent, true, t, s');
      JoinRules(Other(side), s.id, s.black, far.(black := true), near);
      Rotate(parent, Other(side), c.up, Join(side, parent, true, t, s'));
      SettledIsRotated(c, t);
    }

    /** The last branch of a round of __rb_erase_color: a nephew is red and the repair ends here. */
    method EndErase(other: Id, parent: Id, side: Side, ghost c: Context, ghost t: Tree) returns (ghost tree: Tree)
      requires At(cells, rbNode, c, t) && EraseState(c, t) && IsBlack(t)
      requires c.Hole? && c.id == parent && c.side == side
      requires c.sibling.Node? && c.sibling.id == other && c.sibling.black
      requires !IsBlack(c.sibling.left) || !IsBlack(c.sibling.right)
      modifies this
      ensures At(cells, rbNode, Top, tree) && RedBlack(tree) && Inorder(tree) == Inorder(Plug(c, t))
    {
      hide At, Inorder, Plug, EraseState, RedBlack, Join, Settled;
      var other' := other;
      ghost var c' := c;
      ReadSibling(cells, rbNode, c, t);
      var far := ChildId(cells[other], Other(side));
      if far == NULL || cells[far].black {
        RaiseNephew(other, side, c, t);
        c' := c.(sibling := Swung(c));
        ReadAround(cells, rbNode, c', t);
        SwungRules(c, t);
        other' := ChildId(cells[parent], Other(side));
      } else {
        UnswungRules(c, t);
      }
      RaiseSibling(other', parent, side, c', t);
      tree := Plug(c.up, Settled(c', t));
      FocusTop(cells, rbNode, c.up, Settled(c', t));
    }

    /** One round of the loop of __rb_erase_color. Its two branches are mirror images; `side` is the
        side of the parent that the node is on. */
    method EraseRound(node: Id, parent: Id, ghost c: Context, ghost t: Tree)
      returns (node': Id, parent': Id, done: bool, ghost c': Context, ghost t': Tree)
      requires At(cells, rbNode, c, t) && EraseState(c, t) && IsBlack(t) && RootId(t) == node
      requires c.Hole? && c.id == parent
      modifies this
      ensures At(cells, rbNode, c', t') && Inorder(Plug(c', t')) == Inorder(Plug(c, t))
      ensures !done ==> EraseState(c', t') && node' == RootId(t') && parent' == UpId(c') && Left(c', t') < Left(c, t)
      ensures !done ==> c' == c.up || !IsBlack(t')
      ensures done ==> c'.Top? && RedBlack(t') && node' == rbNode
    {
      hide At, Inorder, Plug, EraseState, RedBlack, Join;
      c', t' := c, t;
      EraseHasSibling(c, t);
      ReadSibling(cells, rbNode, c, t);
      var side := if cells[parent].left == node then L else R;
      var other := ChildId(cells[parent], Other(side));
      if !cells[other].black {
        LiftSibling(other, parent, side, c, t);
        EraseRedSibling(c, t);
        c' := Lifted(c);
        ReadSibling(cells, rbNode, c', t);
        other := ChildId(cells[parent], Other(side));
      }
      var left, right := cells[other].left, cells[other].right;
      if (left == NULL || cells[left].black) && (right == NULL || cells[right].black) {
        SetSiblingColor(other, false, c', t);
        EraseRecolour(c', t);
        c' := c'.(sibling := c'.sibling.(black := false));
        Refocus(cells, rbNode, c', t);
        JoinRules(c'.side, c'.id, c'.black, t, c'.sibling);
        t' := Join(c'.side, c'.id, c'.black, t, c'.sibling);
        c' := c'.up;
        ReadAround(cells, rbNode, c', t');
        node', done := parent, false;
        parent' := cells[node'].parent;
      } else {
        t' := EndErase(other, parent, side, c', t);
        c' := Top;
        PlugTop(t');
        node', parent', done := rbNode, NULL, true;
      }
    }

    /** __rb_erase_color: the missing black node is made up for and the in-order sequence unchanged. */
    method EraseColor(node: Id, parent: Id, ghost c: Context, ghost t: Tree) returns (ghost tree: Tree)
      requires At(cells, rbNode, c, t) && EraseState(c, t) && RootId(t) == node && UpId(c) == parent
      modifies this
      ensures At(cells, rbNode, Top, tree) && RedBlack(tree) && Inorder(tree) == Inorder(Plug(c, t))
    {
      hide At, Inorder, Plug, EraseState, RedBlack;
      var n, p, done := node, parent, false;
      ghost var c', t' := c, t;
      ReadAround(cells, rbNode, c', t');
      AtTop(cells, rbNode, c', t');
      while (n == NULL || cells[n].black) && n != rbNode
        invariant At(cells, rbNode, c', t') && Inorder(Plug(c', t')) == Inorder(Plug(c, t))
        invariant n == RootId(t') && (t'.Node? ==> n in cells && cells[n].black == t'.black && n != NULL)
        invariant n == rbNode <==> c'.Top?
        invariant EraseState(c', t') && p == UpId(c')
        decreases Left(c', t')
      {
        n, p, done, c', t' := EraseRound(n, p, c', t');
        ReadAround(cells, rbNode, c', t');
        AtTop(cells, rbNode, c', t');
        if done {
          break;
        }
      }
      if n != NULL {
        SetColor(n, true, c', t');
      }
      if done {
        BlackenRedBlack(t');
      } else {
        EraseDone(c', t');
      }
      tree := Plug(c', Blacken(t'));
      FocusTop(cells, rbNode, c', Blacken(t'));
    }

    /** Take a node whose only child, if any, is `child` out of the tree. */
    method Cut(node: Id, child: Id, ghost c: Context, ghost t: Tree, ghost side: Side)
      requires At(cells, rbNode, c, t) && t.Node? && t.id == node
      requires Child(t, Other(side)).Leaf? && RootId(Child(t, side)) == child
      modifies this
      ensures At(cells, rbNode, c, Child(t, side)) && node !in Ids(Child(t, side)) && node !in IdsAround(c)
      ensures node in cells && node != NULL
    {
      hide At, Ids, IdsAround;
      Nearest(cells, rbNode, c, t);
      var m: Memory := cells;
      ghost var root := rbNode;
      var parent := m[node].parent;
      if child != NULL {
        m := m[child := m[child].(parent := parent)];
      }
      if parent != NULL {
        if m[parent].left == node {
          m := m[parent := m[parent].(left := child)];
        } else {
          m := m[parent := m[parent].(right := child)];
        }
      } else {
        rbNode := child;
      }
      RemovalRep(cells, m, root, rbNode, c, t, side);
      cells := m;
    }

    /** rb_replace_node */
    method ReplaceNode(victim: Id, new_: Id, ghost c: Context, ghost t: Tree)
      requires At(cells, rbNode, c, t) && t.Node? && t.id == victim
      requires new_ != NULL && new_ !in Ids(t) && new_ !in IdsAround(c)
      modifies this
      ensures At(cells, rbNode, c, t.(id := new_))
      ensures RedBlack(Plug(c, t.(id := new_))) <==> RedBlack(Plug(c, t))
      ensures Inorder(Plug(c, t)) == (Before(c) + Inorder(t.left)) + [victim] + (Inorder(t.right) + After(c))
      ensures Inorder(Plug(c, t.(id := new_))) == (Before(c) + Inorder(t.left)) + [new_] + (Inorder(t.right) + After(c))
    {
      RenamedNode(c, t, new_);
      Nearest(cells, rbNode, c, t);
      NewIsApart(c, t, new_);
      hide At, Ids, IdsAround, SetParentIf, Rechild;
      ReplaceSteps(cells, c, t, new_);
      var m: Memory := cells;
      ghost var root := rbNode;
      var parent := m[victim].parent;
      m := Rechild(m, parent, victim, new_);
      if parent == NULL {
        rbNode := new_;
      }
      var left, right := m[victim].left, m[victim].right;
      m := SetParentIf(m, left, new_);
      m := SetParentIf(m, right, new_);
      m := m[new_ := m[victim]];
      ReplacementRep(cells, m, root, rbNode, c, t, new_);
      cells := m;
    }

    /** Down the left links of the right subtree, to the in-order successor. */
    method Successor(node: Id, ghost c: Context, ghost t: Tree) returns (n: Id, ghost path: Context, ghost s: Tree)
      requires At(cells, rbNode, c, t) && t.Node? && t.id == node && t.right.Node?
      ensures s.Node? && s.id == n && s.left.Leaf? && AllLeft(path) && t.right == Plug(path, s)
      ensures At(cells, rbNode, Compose(path, Hole(R, node, t.black, t.left, c)), s)
    {
      hide At, Plug;
      ghost var outer := Hole(R, node, t.black, t.left, c);
      Refocus(cells, rbNode, outer, t.right);
      ReadAround(cells, rbNode, c, t);
      n, path, s := cells[node].right, Top, t.right;
      PlugTop(s);
      ReadAround(cells, rbNode, outer, s);
      while cells[n].left != NULL
        invariant s.Node? && s.id == n && AllLeft(path) && t.right == Plug(path, s)
        invariant At(cells, rbNode, Compose(path, outer), s)
        invariant n in cells && cells[n].left == RootId(s.left)
        decreases s
      {
        n := cells[n].left;
        PlugHole(Hole(L, s.id, s.black, s.right, path), s.left);
        Refocus(cells, rbNode, Hole(L, s.id, s.black, s.right, Compose(path, outer)), s.left);
        path, s := Hole(L, s.id, s.black, s.right, path), s.left;
        ReadAround(cells, rbNode, Compose(path, outer), s);
      }
      ReadAround(cells, rbNode, Compose(path, outer), s);
      LeafBelow(cells, rbNode, Compose(path, outer), s);
    }

    /** rb_erase's case of two children: the in-order successor is cut out and takes the node's place.
        What follows is about the successor's old place. */
    method GiveWay(old_: Id, ghost c: Context, ghost t: Tree)
      returns (child: Id, parent: Id, black: bool, ghost path: Context, ghost s: Tree)
      requires At(cells, rbNode, c, t) && t.Node? && t.id == old_ && t.right.Node?
      modifies this
      ensures s.Node? && s.left.Leaf? && AllLeft(path) && t.right == Plug(path, s)
      ensures var c' := Compose(path, Hole(R, s.id, t.black, t.left, c));
        At(cells, rbNode, c', s.right) && child == RootId(s.right) && parent == UpId(c') && black == s.black
    {
      hide At, Plug;
      var node;
      node, path, s := Successor(old_, c, t);
      ghost var outer := Hole(R, old_, t.black, t.left, c);
      ghost var cs := Compose(path, outer);
      ReadAround(cells, rbNode, cs, s);
      child, parent, black := cells[node].right, cells[node].parent, cells[node].black;
      ComposeUp(cells, rbNode, path, outer, s, s.id);
      Cut(node, child, cs, s, R);
      Regrown(cells, rbNode, path, outer, s.right);
      ReplaceNode(old_, node, c, Node(t.left, old_, t.black, Plug(path, s.right)));
      Regrown(cells, rbNode, path, outer.(id := node), s.right);
      if parent == old_ {
        parent := node;
      }
    }

    /** rb_erase followed by __rb_erase_color: the tree is red-black again and holds, in order, all its
        nodes but the erased one. */
    method Erase(node: Id, ghost c: Context, ghost t: Tree) returns (ghost tree: Tree)
      requires At(cells, rbNode, c, t) && t.Node? && t.id == node && RedBlack(Plug(c, t))
      modifies this
      ensures At(cells, rbNode, Top, tree) && RedBlack(tree)
      ensures Inorder(tree) == (Before(c) + Inorder(t.left)) + (Inorder(t.right) + After(c))
    {
      hide At, Plug, RedBlack, Inorder, Before, After, EraseState;
      var child, parent, black;
      ghost var c', t';
      Nearest(cells, rbNode, c, t);
      if cells[node].left == NULL {
        child, parent, black := cells[node].right, cells[node].parent, cells[node].black;
        Cut(node, child, c, t, R);
        EraseStart(c, t, R);
        CutLine(c, t, R);
        c', t' := c, t.right;
      } else if cells[node].right == NULL {
        child, parent, black := cells[node].left, cells[node].parent, cells[node].black;
        Cut(node, child, c, t, L);
        EraseStart(c, t, L);
        CutLine(c, t, L);
        c', t' := c, t.left;
      } else {
        ghost var path, s;
        child, parent, black, path, s := GiveWay(node, c, t);
        EraseSuccessor(c, t, path, s);
        c', t' := Compose(path, Hole(R, s.id, t.black, t.left, c)), s.right;
      }
      if black {
        tree := EraseColor(child, parent, c', t');
      } else {
        tree := Plug(c', t');
        FocusTop(cells, rbNode, c', t');
      }
    }
  }

  lemma LeafBelow(m: Memory, root: Id, c: Context, s: Tree)
    requires At(m, root, c, s) && s.Node? && s.id in m && m[s.id].left == NULL
    ensures s.left.Leaf?
  {
    SplitRep(m, s, UpId(c), L);
  }

  /** The node above the hole, and the subtree it is the root of, after the hole was filled anew. */
  lemma Regrown(m: Memory, root: Id, path: Context, outer: Context, t: Tree)
    requires outer.Hole? && outer.side == R
    ensures var x := Node(outer.sibling, outer.id, outer.black, Plug(path, t));
      && (At(m, root, Compose(path, outer), t) <==> At(m, root, outer.up, x))
      && Ids(x) + IdsAround(outer.up) == Ids(t) + IdsAround(Compose(path, outer))
  {
    FocusTop(m, root, Compose(path, outer), t);
    PlugCompose(path, outer, t);
    var x := Node(outer.sibling, outer.id, outer.black, Plug(path, t));
    FocusTop(m, root, outer.up, x);
    PlugHole(outer, Plug(path, t));
    IdsPlug(path, t);
    IdsCompose(path, outer);
    hide At, Plug;
    assert x == Join(R, outer.id, outer.black, Plug(path, t), outer.sibling);
  }

  /** The node above the successor's old place. */
  lemma ComposeUp(m: Memory, root: Id, path: Context, outer: Context, t: Tree, id: Id)
    requires outer.Hole? && At(m, root, Compose(path, outer), t)
    ensures path.Hole? ==> path.id != outer.id
    ensures UpId(Compose(path, outer)) == if path.Top? then outer.id else path.id
    ensures UpId(Compose(path, outer.(id := id))) == if path.Top? then id else path.id
  {
    if path.Hole? {
      IdsCompose(path.up, outer);
      assert outer.id in IdsAround(outer);
    }
  }

  lemma CutLine(c: Context, t: Tree, side: Side)
    requires t.Node? && Child(t, Other(side)).Leaf?
    ensures Inorder(Plug(c, Child(t, side))) == (Before(c) + Inorder(t.left)) + (Inorder(t.right) + After(c))
  {
    InorderPlug(c, Child(t, side));
    assert Inorder(Child(t, Other(side))) == [];
    hide Plug, Before, After, Inorder;
    if side == L {
      assert Before(c) + Inorder(t.left) + After(c) == (Before(c) + Inorder(t.left)) + ([] + After(c));
    } else {
      assert Before(c) + Inorder(t.right) + After(c) == (Before(c) + []) + (Inorder(t.right) + After(c));
    }
  }

  /** A node and its neighbours, all there and all different. */
  ghost predicate Apart(m: Memory, c: Context, t: Tree) {
    && t.Node? && t.id in m && t.id != NULL
    && m[t.id] == Cell(UpId(c), t.black, RootId(t.left), RootId(t.right))
    && (t.left.Node? ==> t.left.id in m && t.left.id != NULL && t.left.id != t.id && t.left.id != UpId(c))
    && (t.right.Node? ==> t.right.id in m && t.right.id != NULL && t.right.id != t.id && t.right.id != UpId(c))
    && (t.left.Node? && t.right.Node? ==> t.left.id != t.right.id)
    && (c.Hole? ==>
          && c.id in m && c.id != NULL && c.id != t.id && RootId(c.sibling) != t.id
          && m[c.id] == CellOf(UpId(c.up), c.black, c.side, t.id, RootId(c.sibling)))
  }

  /** Another node in the same place: the rules do not look at ids, and it stands where the old one stood. */
  lemma RenamedNode(c: Context, t: Tree, id: Id)
    requires t.Node?
    ensures RedBlack(Plug(c, t.(id := id))) <==> RedBlack(Plug(c, t))
    ensures Inorder(Plug(c, t)) == (Before(c) + Inorder(t.left)) + [t.id] + (Inorder(t.right) + After(c))
    ensures Inorder(Plug(c, t.(id := id))) == (Before(c) + Inorder(t.left)) + [id] + (Inorder(t.right) + After(c))
  {
    hide Plug, Inorder, RedBlack, BalancedAround, NoRedRedAround;
    RedBlackPlug(c, t);
    RedBlackPlug(c, t.(id := id));
    LineOf(c, t);
    LineOf(c, t.(id := id));
  }

  /** The writes of rb_replace_node, one after the other. */
  lemma ReplaceSteps(m: Memory, c: Context, t: Tree, new_: Id)
    requires Apart(m, c, t) && new_ != NULL
    requires new_ != t.id && new_ != RootId(t.left) && new_ != RootId(t.right) && new_ != UpId(c)
    ensures var m1 := Rechild(m, UpId(c), t.id, new_);
      && t.id in m1 && m1[t.id] == m[t.id]
      && (t.left.Node? ==> t.left.id in m1)
      && var m2 := SetParentIf(m1, RootId(t.left), new_);
      && (t.right.Node? ==> t.right.id in m2)
      && var m3 := SetParentIf(m2, RootId(t.right), new_);
      && t.id in m3 && ReplacementWrites(m, m3[new_ := m3[t.id]], TopId(c, new_), c, t, new_)
  {
    assert c.Hole? ==> (m[c.id].left == t.id <==> c.side == L);
    hide Rechild, SetParentIf, CellOf, WithChild, TopId;
  }

  lemma NewIsApart(c: Context, t: Tree, new_: Id)
    requires t.Node? && new_ !in Ids(t) && new_ !in IdsAround(c) && new_ != NULL
    ensures new_ != t.id && new_ != RootId(t.left) && new_ != RootId(t.right) && new_ != UpId(c)
  {
  }

  /** The cells next to a node about to be cut out or replaced are there and distinct. */
  lemma Nearest(m: Memory, root: Id, c: Context, t: Tree)
    requires At(m, root, c, t) && t.Node?
    ensures root == TopId(c, t.id) && Apart(m, c, t)
  {
    ReadAround(m, root, c, t);
    SplitRep(m, t, UpId(c), L);
    UpInAround(m, c, t.id);
    assert t.left.Node? ==> Rep(m, t.left, t.id) && t.left.id in m;
    assert t.right.Node? ==> Rep(m, t.right, t.id) && t.right.id in m;
  }

  /** Rounds left at most, the decreasing measure of __rb_erase_color. */
  ghost function Left(c: Context, t: Tree): nat { Depth(c) + if IsBlack(t) then 1 else 0 }

  lemma BlackenRedBlack(t: Tree)
    requires RedBlack(t)
    ensures Blacken(t) == t && RedBlack(Plug(Top, t))
  {
  }

  /** The node in focus is the root exactly when it has no context. */
  lemma AtTop(m: Memory, root: Id, c: Context, t: Tree)
    requires At(m, root, c, t)
    ensures RootId(t) == root <==> c.Top?
  {
    if c.Hole? {
      TopInAround(m, c, RootId(t));
      if t.Node? {
        assert t.id in Ids(t);
      }
    }
  }

  lemma {:induction false} TopInAround(m: Memory, c: Context, hole: Id)
    requires RepAround(m, c, hole) && c.Hole?
    ensures TopId(c, hole) in IdsAround(c) && TopId(c, hole) != NULL
  {
    if c.up.Hole? {
      TopInAround(m, c.up, c.id);
    }
  }

  /** The colour test on a possibly missing child. */
  ghost predicate ReadsColor(m: Memory, t: Tree) {
    t.Node? ==> t.id in m && t.id != NULL && m[t.id].black == t.black
  }

  /** What __rb_erase_color reads of the sibling and its children. */
  lemma ReadSibling(m: Memory, root: Id, c: Context, t: Tree)
    requires At(m, root, c, t) && c.Hole? && c.sibling.Node?
    ensures c.id in m && m[c.id] == CellOf(UpId(c.up), c.black, c.side, RootId(t), c.sibling.id)
    ensures c.sibling.id != RootId(t) && c.sibling.id in m
    ensures m[c.sibling.id] == Cell(c.id, c.sibling.black, RootId(c.sibling.left), RootId(c.sibling.right))
    ensures ReadsColor(m, c.sibling.left) && ReadsColor(m, c.sibling.right)
  {
    ReadAround(m, root, c, t);
    SwitchFocus(m, root, c, t);
    assert Rep(m, c.sibling.left, c.sibling.id) && Rep(m, c.sibling.right, c.sibling.id);
  }

  lemma SwungRules(c: Context, t: Tree)
    requires EraseState(c, t) && c.Hole? && c.sibling.Node? && c.sibling.black && IsBlack(t)
    requires IsBlack(Child(c.sibling, Other(c.side))) && !IsBlack(Child(c.sibling, c.side))
    ensures var c' := c.(sibling := Swung(c));
      && c'.sibling.Node? && c'.sibling.id == Child(c.sibling, c.side).id
      && Child(c'.sibling, Other(c.side)).Node?
      && RedBlack(Plug(c.up, Settled(c', t)))
  {
    EraseStraighten(c, t);
    var c' := c.(sibling := Swung(c));
    AroundRules(c, BlackHeight(t) + 1, false);
    AroundRules(c', BlackHeight(t) + 1, false);
    hide Balanced, NoRedRed, BlackHeight, BalancedAround, NoRedRedAround, RedBlack, Plug;
    EraseRotate(c', t);
  }

  lemma UnswungRules(c: Context, t: Tree)
    requires EraseState(c, t) && c.Hole? && c.sibling.Node? && c.sibling.black && IsBlack(t)
    requires !IsBlack(Child(c.sibling, Other(c.side)))
    ensures RedBlack(Plug(c.up, Settled(c, t)))
  {
    AroundRules(c, BlackHeight(t) + 1, false);
    SplitRules(c.sibling, c.side);
    var far := Child(c.sibling, Other(c.side));
    SplitRules(far, L);
    SplitRules(far.(black := true), L);
    hide Balanced, NoRedRed, BlackHeight, BalancedAround, NoRedRedAround, RedBlack, Plug, Join;
    EraseRotate(c, t);
  }

  /** The context after a red sibling is rotated above the parent. */
  ghost function Lifted(c: Context): Context
    requires c.Hole? && c.sibling.Node?
  {
    var near, far := Child(c.sibling, c.side), Child(c.sibling, Other(c.side));
    Hole(c.side, c.id, false, near, Hole(c.side, c.sibling.id, true, far, c.up))
  }

  /** The sibling after its near child is rotated above it. */
  ghost function Swung(c: Context): Tree
    requires c.Hole? && c.sibling.Node? && Child(c.sibling, c.side).Node?
  {
    var near, far := Child(c.sibling, c.side), Child(c.sibling, Other(c.side));
    Join(c.side, near.id, true, Child(near, c.side), Join(c.side, c.sibling.id, false, Child(near, Other(c.side)), far))
  }

  lemma SwungIsRotated(c: Context)
    requires c.Hole? && c.sibling.Node? && Child(c.sibling, c.side).Node?
    ensures var near, far := Child(c.sibling, c.side), Child(c.sibling, Other(c.side));
      var s' := Join(c.side, c.sibling.id, false, near.(black := true), far);
      Child(s', c.side).Node? && Swung(c) == Rotated(s', c.side)
  {
  }

  /** The subtree at the parent's place after the sibling is rotated above the parent. */
  ghost function Settled(c: Context, t: Tree): Tree
    requires c.Hole? && c.sibling.Node? && Child(c.sibling, Other(c.side)).Node?
  {
    var near, far := Child(c.sibling, c.side), Child(c.sibling, Other(c.side));
    Join(c.side, c.sibling.id, c.black, Join(c.side, c.id, true, t, near), far.(black := true))
  }

  lemma SettledIsRotated(c: Context, t: Tree)
    requires c.Hole? && c.sibling.Node? && Child(c.sibling, Other(c.side)).Node?
    ensures var near, far := Child(c.sibling, c.side), Child(c.sibling, Other(c.side));
      var s' := Join(Other(c.side), c.sibling.id, c.black, far.(black := true), near);
      var p := Join(c.side, c.id, true, t, s');
      Child(p, Other(c.side)).Node? && Settled(c, t) == Rotated(p, Other(c.side))
  {
  }

  function ChildId(cell: Cell, side: Side): Id { if side == L then cell.left else cell.right }

  lemma PlugTop(t: Tree)
    ensures Plug(Top, t) == t
  {
  }

  lemma RootIsTop(m: Memory, root: Id, t: Tree)
    requires At(m, root, Top, t)
    ensures root == RootId(t)
  {
  }

  /** When the loop of rb_insert_color stops, blackening the root is all that may be missing. */
  lemma InsertEnds(c: Context, t: Tree)
    requires InsertState(c, t) && (c.Top? || c.black)
    ensures RedBlack(Blacken(Plug(c, t))) && Plug(c, t).Node?
  {
    InsertDone(c, t);
    PlugIsNode(c, t);
  }

  lemma {:induction false} PlugIsNode(c: Context, t: Tree)
    requires t.Node? || c.Hole?
    ensures Plug(c, t).Node?
  {
    if c.Hole? {
      PlugIsNode(c.up, Join(c.side, c.id, c.black, t, c.sibling));
    }
  }

  /** The context after the grandparent is rotated below the parent. */
  ghost function Raised(c: Context): Context
    requires c.Hole? && c.up.Hole?
  {
    Hole(c.up.side, c.id, true, Join(c.up.side, c.up.id, false, c.sibling, c.up.sibling), c.up.up)
  }

  ghost function StraightContext(c: Context, t: Tree): Context
    requires c.Hole? && c.up.Hole? && t.Node?
  {
    Hole(c.up.side, t.id, false, Child(t, c.side), c.up)
  }

  ghost function StraightTree(c: Context, t: Tree): Tree
    requires c.Hole? && c.up.Hole? && t.Node?
  {
    Join(c.up.side, c.id, false, c.sibling, Child(t, Other(c.side)))
  }

  /** Rotating the inner child above the parent, seen from the old parent. */
  lemma Straightens(m: Memory, root: Id, c: Context, t: Tree)
    requires InsertState(c, t) && c.Hole? && !c.black && c.up.Hole? && c.side != c.up.side
    ensures var p := Join(c.side, c.id, c.black, t, c.sibling);
      var c', t' := StraightContext(c, t), StraightTree(c, t);
      && InsertState(c', t') && t'.Node? && t'.id == c.id
      && Child(p, c.side) == t
      && (At(m, root, c.up, Rotated(p, c.side)) ==> At(m, root, c', t'))
      && Plug(c', t') == Plug(c.up, Rotated(p, c.side))
  {
    hide At;
    InsertStraighten(c, t);
    Refocus(m, root, StraightContext(c, t), StraightTree(c, t));
  }

  lemma RecolourRoot(c: Context, t: Tree)
    requires c.Hole? && c.up.Hole? && c.up.sibling.Node?
    ensures Recolour(c, t).Node? && Recolour(c, t).id == c.up.id
  {
  }

  /** Parent and uncle black, grandparent red. */
  ghost function Recolour(c: Context, t: Tree): Tree
    requires c.Hole? && c.up.Hole? && c.up.sibling.Node?
  {
    Join(c.up.side, c.up.id, false, Join(c.side, c.id, true, t, c.sibling), c.up.sibling.(black := true))
  }

  /** The cells around a node about to be rotated are there and distinct. */
  lemma Nearby(m: Memory, root: Id, c: Context, t: Tree, side: Side)
    requires At(m, root, c, t) && t.Node? && Child(t, side).Node?
    ensures root == TopId(c, t.id)
    ensures var up, down := Child(t, side), Other(side); var mid := Child(up, down);
      && t.id in m && up.id in m && up.id != t.id && up.id != NULL && t.id != NULL
      && m[t.id] == CellOf(UpId(c), t.black, side, up.id, RootId(Child(t, down)))
      && m[up.id] == CellOf(t.id, up.black, down, RootId(mid), RootId(Child(up, side)))
      && (mid.Node? ==> mid.id in m && mid.id != NULL && mid.id != t.id && mid.id != up.id && mid.id != UpId(c))
      && UpId(c) != t.id && UpId(c) != up.id
      && (c.Hole? ==>
            && c.id in m && c.id != NULL
            && m[c.id] == CellOf(UpId(c.up), c.black, c.side, t.id, RootId(c.sibling))
            && RootId(c.sibling) != t.id)
  {
    var up := Child(t, side);
    SplitRep(m, t, UpId(c), side);
    SplitRep(m, up, t.id, Other(side));
    if Child(up, Other(side)).Node? {
      SplitRep(m, Child(up, Other(side)), up.id, L);
    }
    UpInAround(m, c, t.id);
    if c.Hole? && c.sibling.Node? {
      assert c.sibling.id in Ids(c.sibling);
    }
  }
}
