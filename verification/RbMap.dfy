/**
 The red-black tree as a sorted map: iteration, and the author's search, insert and delete macros
 under a comparator that agrees with a key on the nodes.
 */
module RbMap {
  import opened NodeLists
  import opened RbShape
  import opened RbMemory
  import opened RbTree

  ghost predicate Sorted(s: seq<Id>, key: Id -> int) {
    forall i, j :: 0 <= i < j < |s| ==> key(s[i]) < key(s[j])
  }

  /** func(node, k) is negative when k comes before the node and positive when it comes after. */
  ghost predicate Agrees(cmp: (Id, int) -> int, key: Id -> int) {
    forall id, k :: (cmp(id, k) < 0 <==> k < key(id)) && (cmp(id, k) > 0 <==> k > key(id))
  }

  /** Everything in front of the hole is below `k` and everything behind it above. */
  ghost predicate Between(c: Context, k: int, key: Id -> int) {
    && (forall id :: id in Before(c) ==> key(id) < k)
    && (forall id :: id in After(c) ==> k < key(id))
  }

  lemma GoDown(c: Context, t: Tree, side: Side, k: int, key: Id -> int)
    requires t.Node? && Between(c, k, key) && Sorted(Inorder(Plug(c, t)), key)
    requires if side == L then k < key(t.id) else k > key(t.id)
    ensures var c' := Hole(side, t.id, t.black, Child(t, Other(side)), c);
      Between(c', k, key) && Plug(c', Child(t, side)) == Plug(c, t)
  {
    InorderPlug(c, t);
    SortedParts(Before(c), Inorder(t.left), t.id, Inorder(t.right), After(c), key);
  }

  lemma SortedParts(a: seq<Id>, l: seq<Id>, x: Id, r: seq<Id>, b: seq<Id>, key: Id -> int)
    requires Sorted(a + (l + [x] + r) + b, key)
    ensures forall id :: id in l ==> key(id) < key(x)
    ensures forall id :: id in r ==> key(x) < key(id)
  {
    var s := a + (l + [x] + r) + b;
    var n := |a| + |l|;
    assert s[n] == x;
    assert forall i :: 0 <= i < |l| ==> l[i] == s[|a| + i];
    assert forall i :: 0 <= i < |r| ==> r[i] == s[n + 1 + i];
  }

  /** Nothing with key `k` when the search falls off the tree. */
  lemma NotThere(c: Context, k: int, key: Id -> int)
    requires Between(c, k, key)
    ensures forall id :: id in Inorder(Plug(c, Leaf)) ==> key(id) != k
  {
    InorderPlug(c, Leaf);
  }

  lemma InsertSorted(c: Context, id: Id, key: Id -> int)
    requires Between(c, key(id), key) && Sorted(Inorder(Plug(c, Leaf)), key)
    ensures var s := Inorder(Plug(c, Node(Leaf, id, false, Leaf)));
      Sorted(s, key) && Elems(s) == Elems(Inorder(Plug(c, Leaf))) + {id}
  {
    InorderPlug(c, Leaf);
    InorderPlug(c, Node(Leaf, id, false, Leaf));
    var a, b := Before(c), After(c);
    assert Inorder(Leaf) == [] && Inorder(Node(Leaf, id, false, Leaf)) == [id];
    hide Before, After, Inorder, Plug;
    assert a + [] + b == a + b;
    InsertBetween(a, id, b, key);
  }

  lemma InsertBetween(a: seq<Id>, id: Id, b: seq<Id>, key: Id -> int)
    requires Sorted(a + b, key)
    requires (forall x :: x in a ==> key(x) < key(id)) && (forall x :: x in b ==> key(id) < key(x))
    ensures Sorted(a + [id] + b, key) && Elems(a + [id] + b) == Elems(a + b) + {id}
  {
    var s := a + [id] + b;
    assert forall i :: 0 <= i < |s| ==> s[i] == if i < |a| then a[i] else if i == |a| then id else b[i - |a| - 1];
    forall i, j | 0 <= i < j < |s|
      ensures key(s[i]) < key(s[j])
    {
      if i != |a| && j != |a| {
        assert s[i] == (a + b)[if i < |a| then i else i - 1];
        assert s[j] == (a + b)[if j < |a| then j else j - 1];
      }
    }
  }

  lemma RemoveSorted(a: seq<Id>, id: Id, b: seq<Id>, key: Id -> int)
    requires Sorted(a + [id] + b, key)
    ensures Sorted(a + b, key) && Elems(a + b) == Elems(a + [id] + b) - {id}
  {
    var s := a + [id] + b;
    assert forall i :: 0 <= i < |a| ==> (a + b)[i] == s[i];
    assert forall i :: |a| <= i < |a + b| ==> (a + b)[i] == s[i + 1];
    assert s[|a|] == id;
    assert forall x :: x in a + b ==> exists i :: 0 <= i < |s| && i != |a| && s[i] == x;
  }

  lemma KeysDiffer(s: seq<Id>, key: Id -> int, x: Id, y: Id)
    requires Sorted(s, key) && x in s && y in s && key(x) == key(y)
    ensures x == y
  {
  }

  /** Where a node of the tree is. */
  lemma {:induction false} Locate(tree: Tree, id: Id) returns (c: Context, t: Tree)
    requires id in Inorder(tree)
    ensures Plug(c, t) == tree && t.Node? && t.id == id
  {
    if tree.id == id {
      return Top, tree;
    }
    var side := if id in Inorder(tree.left) then L else R;
    var c1, t1 := Locate(Child(tree, side), id);
    c, t := Compose(c1, Hole(side, tree.id, tree.black, Child(tree, Other(side)), Top)), t1;
    PlugCompose(c1, Hole(side, tree.id, tree.black, Child(tree, Other(side)), Top), t1);
  }

  lemma {:induction false} InorderIds(t: Tree)
    ensures Elems(Inorder(t)) == Ids(t)
  {
    if t.Node? {
      InorderIds(t.left);
      InorderIds(t.right);
      assert Elems(Inorder(t)) == Elems(Inorder(t.left)) + {t.id} + Elems(Inorder(t.right));
    }
  }

  /** What linking a new leaf into the hole writes (rb_link_node). */
  lemma LinkRep(m: Memory, m': Memory, root: Id, c: Context, id: Id)
    requires At(m, root, c, Leaf) && id != NULL && id !in IdsAround(c)
    requires id in m' && m'[id] == Cell(UpId(c), false, NULL, NULL)
    requires c.Hole? ==> c.id in m && c.id in m' && m'[c.id] == WithChild(m[c.id], c.side, id)
    requires forall k :: k in m && k != id && k != UpId(c) ==> k in m' && m'[k] == m[k]
    ensures At(m', TopId(c, id), c, Node(Leaf, id, false, Leaf))
  {
    UpInAround(m, c, NULL);
    Rehang(m, m', c, NULL, id);
  }

  class Index {
    const root: Root
    ghost var tree: Tree
    ghost const key: Id -> int

    ghost predicate Valid()
      reads this, root
    {
      && At(root.cells, root.rbNode, Top, tree) && RedBlack(tree)
      && Sorted(Inorder(tree), key)
    }

    /** The nodes in key order. */
    ghost function Contents(): seq<Id>
      reads this
    {
      Inorder(tree)
    }

    constructor (ghost key: Id -> int)
      ensures Valid() && Contents() == [] && this.key == key && fresh(root)
    {
      root := new Root();
      tree := Leaf;
      this.key := key;
    }

    /** The descent shared by the macros: ends at the node with key `k`, or at the empty place where
        such a node belongs, below `parent`. */
    method Descend(k: int, cmp: (Id, int) -> int) returns (n: Id, parent: Id, side: Side, ghost c: Context,
        ghost t: Tree)
      requires Valid() && Agrees(cmp, key)
      ensures Plug(c, t) == tree && At(root.cells, root.rbNode, c, t) && n == RootId(t)
      ensures t.Node? ==> key(n) == k
      ensures t.Leaf? ==> Between(c, k, key) && parent == UpId(c) && (c.Hole? ==> side == c.side)
    {
      hide At, Inorder, Plug, RedBlack;
      n, parent, side := root.rbNode, NULL, L;
      c, t := Top, tree;
      PlugTop(tree);
      RootIsTop(root.cells, root.rbNode, tree);
      ReadAround(root.cells, root.rbNode, c, t);
      while n != NULL
        invariant Plug(c, t) == tree && At(root.cells, root.rbNode, c, t) && n == RootId(t)
        invariant Between(c, k, key) && parent == UpId(c) && (c.Hole? ==> side == c.side)
        invariant t.Node? ==> n in root.cells && n != NULL
        invariant t.Node? ==> root.cells[n].left == RootId(t.left) && root.cells[n].right == RootId(t.right)
        decreases t
      {
        var result := cmp(n, k);
        if result == 0 {
          return;
        }
        parent := n;
        side := if result < 0 then L else R;
        GoDown(c, t, side, k, key);
        c := Hole(side, t.id, t.black, Child(t, Other(side)), c);
        t := Child(t, side);
        FocusTop(root.cells, root.rbNode, c, t);
        n := if result < 0 then root.cells[n].left else root.cells[n].right;
        ReadAround(root.cells, root.rbNode, c, t);
      }
    }

    /** rb_search: the node with key `k`, NULL exactly if there is none. */
    method Search(k: int, cmp: (Id, int) -> int) returns (pos: Id)
      requires Valid() && Agrees(cmp, key)
      ensures pos != NULL ==> pos in Contents() && key(pos) == k
      ensures pos == NULL ==> forall id :: id in Contents() ==> key(id) != k
    {
      hide At, RedBlack;
      var parent, side;
      ghost var c, t;
      pos, parent, side, c, t := Descend(k, cmp);
      Found(root.cells, root.rbNode, c, t, k, key);
    }

    /** rb_link_node and rb_insert_color at the place where a search ended. */
    method LinkAndColor(node: Id, parent: Id, side: Side, ghost c: Context)
      requires Valid() && Plug(c, Leaf) == tree && At(root.cells, root.rbNode, c, Leaf)
      requires node != NULL && node !in Contents() && Between(c, key(node), key)
      requires parent == UpId(c) && (c.Hole? ==> side == c.side)
      modifies this, root
      ensures Valid() && Elems(Contents()) == old(Elems(Contents())) + {node}
    {
      hide At, RedBlack, Inorder, Plug, InsertState;
      InorderIds(tree);
      IdsPlug(c, Leaf);
      ReadAround(root.cells, root.rbNode, c, Leaf);
      RootAfterLink(root.cells, root.rbNode, c, node);
      InsertSorted(c, node, key);
      InsertStart(c, node);
      ghost var m := root.cells;
      root.cells := root.cells[node := Cell(parent, false, NULL, NULL)];
      if parent == NULL {
        root.rbNode := node;
      } else {
        root.cells := root.cells[parent := WithChild(root.cells[parent], side, node)];
      }
      LinkRep(m, root.cells, old(root.rbNode), c, node);
      tree := root.InsertColor(node, c, Node(Leaf, node, false, Leaf));
    }

    /** rb_insert: a node whose key is taken is refused. */
    method Insert(pos: Id, k: int, cmp: (Id, int) -> int) returns (inserted: bool)
      requires Valid() && Agrees(cmp, key) && pos != NULL && pos !in Contents() && k == key(pos)
      modifies this, root
      ensures Valid()
      ensures inserted <==> forall id :: id in old(Contents()) ==> key(id) != k
      ensures inserted ==> Elems(Contents()) == old(Elems(Contents())) + {pos}
      ensures !inserted ==> Contents() == old(Contents())
    {
      hide At, RedBlack;
      ghost var c, t;
      var n, parent, side;
      n, parent, side, c, t := Descend(k, cmp);
      Found(root.cells, root.rbNode, c, t, k, key);
      inserted := n == NULL;
      if inserted {
        LinkAndColor(pos, parent, side, c);
      }
    }

    /** rb_search_or_insert: the node with key `k`, which is `fresh_` (as the init function made it)
        exactly if there was none. */
    method SearchOrInsert(k: int, cmp: (Id, int) -> int, fresh_: Id) returns (pos: Id)
      requires Valid() && Agrees(cmp, key) && fresh_ != NULL && fresh_ !in Contents() && key(fresh_) == k
      modifies this, root
      ensures Valid() && pos in Contents() && key(pos) == k
      ensures pos == fresh_ <==> forall id :: id in old(Contents()) ==> key(id) != k
      ensures pos == fresh_ ==> Elems(Contents()) == old(Elems(Contents())) + {pos}
      ensures pos != fresh_ ==> Contents() == old(Contents())
    {
      hide At, RedBlack;
      ghost var c, t;
      var parent, side;
      pos, parent, side, c, t := Descend(k, cmp);
      Found(root.cells, root.rbNode, c, t, k, key);
      if pos == NULL {
        pos := fresh_;
        LinkAndColor(pos, parent, side, c);
        assert pos in Elems(Contents());
      }
    }

    /** rb_delete_node; NULL is accepted and does nothing. */
    method DeleteNode(node: Id)
      requires Valid() && (node != NULL ==> node in Contents())
      modifies this, root
      ensures Valid()
      ensures node == NULL ==> Contents() == old(Contents())
      ensures node != NULL ==> Contents() == Without(old(Contents()), node)
      ensures node != NULL ==> Elems(Contents()) == old(Elems(Contents())) - {node}
    {
      if node != NULL {
        EraseNode(node);
      }
    }

    method EraseNode(node: Id)
      requires Valid() && node in Contents()
      modifies this, root
      ensures Valid() && Elems(Contents()) == old(Elems(Contents())) - {node}
      ensures Contents() == Without(old(Contents()), node)
    {
      hide At, RedBlack, Inorder, Plug, Before, After;
      ghost var c, t := Locate(tree, node);
      FocusTop(root.cells, root.rbNode, c, t);
      LineOf(c, t);
      ghost var a, b := Before(c) + Inorder(t.left), Inorder(t.right) + After(c);
      RemoveSorted(a, node, b, key);
      SortedNoDup(a + [node] + b, key);
      WithoutMiddle(a, node, b);
      tree := root.Erase(node, c, t);
    }

    /** rb_delete: the node with key `k`, if any, is gone and nothing else. */
    method Delete(k: int, cmp: (Id, int) -> int)
      requires Valid() && Agrees(cmp, key)
      modifies this, root
      ensures Valid()
      ensures Elems(Contents()) == set id | id in old(Contents()) && key(id) != k
    {
      hide At, RedBlack, Inorder;
      var pos := Search(k, cmp);
      if pos != NULL {
        forall id | id in Contents() && key(id) == k ensures id == pos {
          KeysDiffer(Contents(), key, id, pos);
        }
      }
      DeleteNode(pos);
    }

    /** Down the `side` links as far as they go. */
    method EdgeOf(start: Id, side: Side, ghost c: Context, ghost t: Tree) returns (n: Id)
      requires At(root.cells, root.rbNode, c, t) && t.Node? && t.id == start
      ensures Inorder(t) != [] && n == End(Inorder(t), side)
    {
      hide At, Inorder;
      ghost var c', t' := c, t;
      n := start;
      EndOfNode(t', side);
      ReadAround(root.cells, root.rbNode, c', t');
      while ChildId(root.cells[n], side) != NULL
        invariant At(root.cells, root.rbNode, c', t') && t'.Node? && t'.id == n && n in root.cells
        invariant root.cells[n] == Cell(UpId(c'), t'.black, RootId(t'.left), RootId(t'.right))
        invariant Inorder(t) != [] && Inorder(t') != [] && End(Inorder(t'), side) == End(Inorder(t), side)
        decreases t'
      {
        EndOfNode(t', side);
        n := ChildId(root.cells[n], side);
        SplitRules(t', side);
        c', t' := Hole(side, t'.id, t'.black, Child(t', Other(side)), c'), Child(t', side);
        Refocus(root.cells, root.rbNode, c', t');
        ReadAround(root.cells, root.rbNode, c', t');
      }
      EndOfNode(t', side);
      NoChild(root.cells, root.rbNode, c', t', side);
    }

    /** rb_first (side L) and rb_last (side R) */
    method Edge(side: Side) returns (n: Id)
      requires Valid()
      ensures if Contents() == [] then n == NULL else n == End(Contents(), side)
    {
      hide At, RedBlack, Inorder;
      n := root.rbNode;
      RootIsTop(root.cells, root.rbNode, tree);
      ReadAround(root.cells, root.rbNode, Top, tree);
      if n == NULL {
        assert Inorder(Leaf) == [] by { InorderOfLeaf(); }
        return;
      }
      n := EdgeOf(n, side, Top, tree);
    }

    /** rb_next (side R) and rb_prev (side L): the neighbour in key order, NULL at the end. */
    method Neighbour(node: Id, side: Side) returns (n: Id)
      requires Valid() && node in Contents()
      ensures forall i :: 0 <= i < |Contents()| && Contents()[i] == node ==> n == BesideAt(Contents(), i, side)
    {
      hide At, RedBlack, Inorder, Plug, Before, After;
      ghost var c, t := Locate(tree, node);
      FocusTop(root.cells, root.rbNode, c, t);
      ReadAround(root.cells, root.rbNode, c, t);
      UpIsOther(root.cells, root.rbNode, c, t);
      LineBeside(c, t, side, key);
      if root.cells[node].parent == node {
        return NULL;
      }
      if ChildId(root.cells[node], side) != NULL {
        ghost var k := Child(t, side);
        ghost var ck := Hole(side, t.id, t.black, Child(t, Other(side)), c);
        SplitRules(t, side);
        Refocus(root.cells, root.rbNode, ck, k);
        n := EdgeOf(ChildId(root.cells[node], side), Other(side), ck, k);
        return;
      }
      NoChild(root.cells, root.rbNode, c, t, side);
      InorderOfLeaf();
      n := node;
      var parent := root.cells[n].parent;
      ghost var c', t' := c, t;
      while parent != NULL && n == ChildId(root.cells[parent], side)
        invariant At(root.cells, root.rbNode, c', t') && t'.Node? && t'.id == n && parent == UpId(c')
        invariant c'.Hole? ==> parent != NULL && parent in root.cells
        invariant c'.Hole? ==> (n == ChildId(root.cells[parent], side) <==> c'.side == side)
        invariant Beyond(c', side) == Beyond(c, side)
        decreases c'
      {
        n := parent;
        BeyondUp(c', side);
        Refocus(root.cells, root.rbNode, c', t');
        JoinRules(c'.side, c'.id, c'.black, t', c'.sibling);
        t', c' := Join(c'.side, c'.id, c'.black, t', c'.sibling), c'.up;
        ReadAround(root.cells, root.rbNode, c', t');
        parent := root.cells[n].parent;
      }
      BeyondUp(c', side);
      n := parent;
    }

    /** rb_first and then rb_next until NULL: every node once, in key order. */
    method Traverse() returns (visited: seq<Id>)
      requires Valid()
      ensures visited == Contents() && NoDup(visited)
    {
      hide At, RedBlack, Inorder;
      visited := [];
      var n := Edge(L);
      SortedNoDup(Contents(), key);
      NoNullNodes(root.cells, root.rbNode, tree);
      while n != NULL
        invariant visited <= Contents()
        invariant if |visited| < |Contents()| then n == Contents()[|visited|] else n == NULL
        decreases |Contents()| - |visited|
      {
        visited := visited + [n];
        var next := Neighbour(n, R);
        n := next;
      }
    }
  }

  ghost function End(s: seq<Id>, side: Side): Id
    requires s != []
  {
    if side == L then s[0] else s[|s| - 1]
  }

  /** The element before or after position `i`, NULL if there is none. */
  ghost function BesideAt(s: seq<Id>, i: nat, side: Side): Id
    requires i < |s|
  {
    if side == R then (if i + 1 < |s| then s[i + 1] else NULL)
    else (if i > 0 then s[i - 1] else NULL)
  }

  /** What lies beyond the hole on the given side. */
  ghost function Beyond(c: Context, side: Side): seq<Id> { if side == R then After(c) else Before(c) }

  lemma BeyondUp(c: Context, side: Side)
    ensures c.Top? ==> Beyond(c, side) == []
    ensures c.Hole? && c.side == side ==> Beyond(c, side) == Beyond(c.up, side)
    ensures c.Hole? && c.side != side ==> Beyond(c, side) != [] && End(Beyond(c, side), Other(side)) == c.id
  {
  }

  lemma InorderOfLeaf()
    ensures Inorder(Leaf) == []
  {
  }

  lemma EndOfNode(t: Tree, side: Side)
    requires t.Node?
    ensures Inorder(t) != []
    ensures if Child(t, side).Leaf? then End(Inorder(t), side) == t.id
            else Inorder(Child(t, side)) != [] && End(Inorder(t), side) == End(Inorder(Child(t, side)), side)
  {
    if Child(t, side).Node? {
      assert Child(t, side).id in Inorder(Child(t, side));
    }
  }

  lemma NoChild(m: Memory, root: Id, c: Context, t: Tree, side: Side)
    requires At(m, root, c, t) && t.Node? && t.id in m && ChildId(m[t.id], side) == NULL
    ensures Child(t, side).Leaf?
  {
    SplitRep(m, t, UpId(c), side);
  }

  lemma UpIsOther(m: Memory, root: Id, c: Context, t: Tree)
    requires At(m, root, c, t) && t.Node?
    ensures t.id in m && m[t.id].parent != t.id
  {
    ReadAround(m, root, c, t);
  }

  /** In a line without repetitions, what is beside the one in the middle. */
  lemma BesideMiddle(a: seq<Id>, x: Id, b: seq<Id>, side: Side, i: nat)
    requires NoDup(a + [x] + b) && i < |a + [x] + b| && (a + [x] + b)[i] == x
    ensures BesideAt(a + [x] + b, i, side) ==
      if side == R then (if b == [] then NULL else b[0]) else (if a == [] then NULL else a[|a| - 1])
  {
    var s := a + [x] + b;
    assert s[|a|] == x;
    assert i == |a|;
  }

  lemma EndConcat(a: seq<Id>, b: seq<Id>)
    ensures a + b != [] ==> End(a + b, R) == (if b != [] then End(b, R) else End(a, R))
    ensures a + b != [] ==> End(a + b, L) == (if a != [] then End(a, L) else End(b, L))
  {
  }

  /** The neighbour of the node in focus is the near end of what lies beyond it. */
  lemma LineBeside(c: Context, t: Tree, side: Side, key: Id -> int)
    requires t.Node? && Sorted(Inorder(Plug(c, t)), key)
    ensures var s, k := Inorder(Plug(c, t)), Inorder(Child(t, side)); var b := Beyond(c, side);
      var beside := if k != [] then End(k, Other(side)) else if b != [] then End(b, Other(side)) else NULL;
      forall i :: 0 <= i < |s| && s[i] == t.id ==> BesideAt(s, i, side) == beside
  {
    hide Plug, Before, After, Inorder, BesideAt, NoDup;
    LineOf(c, t);
    var s := Inorder(Plug(c, t));
    SortedNoDup(s, key);
    var a, b := Before(c) + Inorder(t.left), Inorder(t.right) + After(c);
    EndConcat(Before(c), Inorder(t.left));
    EndConcat(Inorder(t.right), After(c));
    forall i | 0 <= i < |s| && s[i] == t.id ensures BesideAt(s, i, side) ==
      if side == R then (if b == [] then NULL else b[0]) else (if a == [] then NULL else a[|a| - 1])
    {
      BesideMiddle(a, t.id, b, side, i);
    }
  }

  lemma NoNullNodes(m: Memory, root: Id, t: Tree)
    requires At(m, root, Top, t)
    ensures NULL !in Inorder(t)
  {
    NoNull(m, t, NULL);
    InorderIds(t);
  }

  lemma Found(m: Memory, root: Id, c: Context, t: Tree, k: int, key: Id -> int)
    requires At(m, root, c, t) && (t.Node? ==> key(t.id) == k) && (t.Leaf? ==> Between(c, k, key))
    ensures t.Node? ==> RootId(t) != NULL && t.id in Inorder(Plug(c, t))
    ensures t.Leaf? ==> forall id :: id in Inorder(Plug(c, t)) ==> key(id) != k
  {
    ReadAround(m, root, c, t);
    if t.Leaf? {
      NotThere(c, k, key);
    } else {
      LineOf(c, t);
    }
  }

  lemma RootAfterLink(m: Memory, root: Id, c: Context, id: Id)
    requires At(m, root, c, Leaf)
    ensures TopId(c, id) == if c.Top? then id else root
  {
  }

  /** In a duplicate-free sequence, cutting out the one occurrence is `Without`. */
  lemma SortedNoDup(s: seq<Id>, key: Id -> int)
    requires Sorted(s, key)
    ensures NoDup(s)
  {
  }
}
