/**
 Red-black trees as values: trees, their contexts (the path from a subtree up to the root), the
 red-black rules, and the rewriting steps of insertion and deletion as lemmas on those values.
 */
module RbShape {

  type Id = nat

  datatype Tree = Leaf | Node(left: Tree, id: Id, black: bool, right: Tree)

  datatype Side = L | R

  /** The surroundings of a subtree: `Hole` says the subtree is the `side` child of `id`, whose other
      child is `sibling`. */
  datatype Context = Top | Hole(side: Side, id: Id, black: bool, sibling: Tree, up: Context)

  function Other(side: Side): Side { if side == L then R else L }

  /** A node whose `side` child is `t` and whose other child is `sibling`. */
  function Join(side: Side, id: Id, black: bool, t: Tree, sibling: Tree): Tree {
    if side == L then Node(t, id, black, sibling) else Node(sibling, id, black, t)
  }

  function Child(t: Tree, side: Side): Tree
    requires t.Node?
  {
    if side == L then t.left else t.right
  }

  function Plug(c: Context, t: Tree): Tree {
    match c
    case Top => t
    case Hole(side, id, black, sibling, up) => Plug(up, Join(side, id, black, t, sibling))
  }

  function Inorder(t: Tree): seq<Id> {
    match t
    case Leaf => []
    case Node(l, id, _, r) => Inorder(l) + [id] + Inorder(r)
  }

  /** What the in-order sequence has before and after the hole. */
  function Before(c: Context): seq<Id> {
    match c
    case Top => []
    case Hole(side, id, _, sibling, up) =>
      if side == L then Before(up) else Before(up) + (Inorder(sibling) + [id])
  }

  function After(c: Context): seq<Id> {
    match c
    case Top => []
    case Hole(side, id, _, sibling, up) =>
      if side == L then ([id] + Inorder(sibling)) + After(up) else After(up)
  }

  lemma {:induction false} InorderPlug(c: Context, t: Tree)
    ensures Inorder(Plug(c, t)) == Before(c) + Inorder(t) + After(c)
  {
    match c {
      case Top =>
      case Hole(side, id, black, sibling, up) =>
        InorderPlug(up, Join(side, id, black, t, sibling));
        InorderJoin(side, id, black, t, sibling);
        hide Inorder, Join;
        if side == L {
          Regroup(Before(up), Inorder(t), [id] + Inorder(sibling), After(up));
        } else {
          Regroup(Before(up), Inorder(sibling) + [id], Inorder(t), After(up));
        }
    }
  }

  lemma InorderJoin(side: Side, id: Id, black: bool, t: Tree, s: Tree)
    ensures Inorder(Join(side, id, black, t, s)) ==
      if side == L then Inorder(t) + ([id] + Inorder(s)) else (Inorder(s) + [id]) + Inorder(t)
  {
    assert Inorder(t) + [id] + Inorder(s) == Inorder(t) + ([id] + Inorder(s));
  }

  lemma Regroup(a: seq<Id>, b: seq<Id>, c: seq<Id>, d: seq<Id>)
    ensures a + (b + c) + d == a + b + (c + d) == (a + b) + c + d
  {
  }

  lemma InorderNode(t: Tree)
    requires t.Node?
    ensures Inorder(t) == Inorder(t.left) + [t.id] + Inorder(t.right)
  {
  }

  lemma Centre(a: seq<Id>, l: seq<Id>, x: Id, r: seq<Id>, b: seq<Id>)
    ensures a + (l + [x] + r) + b == (a + l) + [x] + (r + b)
  {
  }

  /** The line of the whole tree, seen from the node in focus. */
  lemma LineOf(c: Context, t: Tree)
    requires t.Node?
    ensures Inorder(Plug(c, t)) == (Before(c) + Inorder(t.left)) + [t.id] + (Inorder(t.right) + After(c))
  {
    hide Plug, Inorder, Before, After;
    InorderPlug(c, t);
    InorderNode(t);
    Centre(Before(c), Inorder(t.left), t.id, Inorder(t.right), After(c));
  }

  function Depth(c: Context): nat {
    match c
    case Top => 0
    case Hole(_, _, _, _, up) => 1 + Depth(up)
  }

  // ---------- the red-black rules ----------

  predicate IsBlack(t: Tree) { t.Leaf? || t.black }

  /** Black nodes on the leftmost path; on every path if the tree is Balanced. */
  function BlackHeight(t: Tree): nat {
    match t
    case Leaf => 0
    case Node(l, _, black, _) => BlackHeight(l) + if black then 1 else 0
  }

  predicate Balanced(t: Tree) {
    match t
    case Leaf => true
    case Node(l, _, _, r) => Balanced(l) && Balanced(r) && BlackHeight(l) == BlackHeight(r)
  }

  predicate NoRedRed(t: Tree) {
    match t
    case Leaf => true
    case Node(l, _, black, r) =>
      NoRedRed(l) && NoRedRed(r) && (black || (IsBlack(l) && IsBlack(r)))
  }

  function Blacken(t: Tree): Tree { if t.Leaf? then t else t.(black := true) }

  predicate RedBlack(t: Tree) { Balanced(t) && NoRedRed(t) && IsBlack(t) }

  /** The context is balanced for a subtree of black height `h`. */
  predicate BalancedAround(c: Context, h: nat) {
    match c
    case Top => true
    case Hole(_, _, black, sibling, up) =>
      Balanced(sibling) && BlackHeight(sibling) == h && BalancedAround(up, h + if black then 1 else 0)
  }

  /** No red-red edge in the context, and none to the subtree either if `red` says it is red. A red
      root counts as one. */
  predicate NoRedRedAround(c: Context, red: bool) {
    match c
    case Top => !red
    case Hole(_, _, black, sibling, up) =>
      && NoRedRed(sibling) && (black || (!red && IsBlack(sibling)))
      && NoRedRedAround(up, !black)
  }

  lemma {:induction false} RedBlackPlug(c: Context, t: Tree)
    ensures RedBlack(Plug(c, t)) <==>
      Balanced(t) && NoRedRed(t) && BalancedAround(c, BlackHeight(t)) && NoRedRedAround(c, !IsBlack(t))
  {
    match c {
      case Top =>
      case Hole(side, id, black, sibling, up) =>
        RedBlackPlug(up, Join(side, id, black, t, sibling));
    }
  }

  /** The rules for a node put together from two subtrees. */
  lemma JoinRules(side: Side, id: Id, black: bool, t: Tree, s: Tree)
    ensures var j := Join(side, id, black, t, s);
      && (Balanced(j) <==> Balanced(t) && Balanced(s) && BlackHeight(t) == BlackHeight(s))
      && (Balanced(j) ==> BlackHeight(j) == BlackHeight(t) + if black then 1 else 0)
      && (NoRedRed(j) <==> NoRedRed(t) && NoRedRed(s) && (black || (IsBlack(t) && IsBlack(s))))
      && j.Node? && j.id == id && j.black == black && Child(j, side) == t && Child(j, Other(side)) == s
  {
  }

  /** The rules for a node taken apart. */
  lemma SplitRules(t: Tree, side: Side)
    requires t.Node?
    ensures var a, b := Child(t, side), Child(t, Other(side));
      && t == Join(side, t.id, t.black, a, b)
      && (Balanced(t) <==> Balanced(a) && Balanced(b) && BlackHeight(a) == BlackHeight(b))
      && (Balanced(t) ==> BlackHeight(t) == BlackHeight(a) + if t.black then 1 else 0)
      && (NoRedRed(t) <==> NoRedRed(a) && NoRedRed(b) && (t.black || (IsBlack(a) && IsBlack(b))))
  {
    JoinRules(side, t.id, t.black, Child(t, side), Child(t, Other(side)));
  }

  lemma AroundRules(c: Context, h: nat, red: bool)
    requires c.Hole?
    ensures BalancedAround(c, h) <==>
      Balanced(c.sibling) && BlackHeight(c.sibling) == h && BalancedAround(c.up, h + if c.black then 1 else 0)
    ensures NoRedRedAround(c, red) <==>
      NoRedRed(c.sibling) && (c.black || (!red && IsBlack(c.sibling))) && NoRedRedAround(c.up, !c.black)
  {
  }

  /** The `side` child of the root of `t` is rotated above it. */
  function Rotated(t: Tree, side: Side): Tree
    requires t.Node? && Child(t, side).Node?
  {
    var up, down := Child(t, side), Other(side);
    Join(down, up.id, up.black, Join(side, t.id, t.black, Child(up, down), Child(t, down)), Child(up, side))
  }

  lemma InorderRotated(t: Tree, side: Side)
    requires t.Node? && Child(t, side).Node?
    ensures Inorder(Rotated(t, side)) == Inorder(t)
  {
    if side == L {
      var a, b, c := Inorder(t.left.left), Inorder(t.left.right), Inorder(t.right);
      assert Inorder(t) == (a + [t.left.id] + b) + [t.id] + c;
      assert Inorder(Rotated(t, side)) == a + [t.left.id] + (b + [t.id] + c);
    } else {
      var a, b, c := Inorder(t.left), Inorder(t.right.left), Inorder(t.right.right);
      assert Inorder(t) == a + [t.id] + (b + [t.right.id] + c);
      assert Inorder(Rotated(t, side)) == (a + [t.id] + b) + [t.right.id] + c;
    }
  }

  // ---------- insertion ----------

  /** The state of rb_insert_color: the tree is red-black but for the red subtree `t` in the hole,
      whose parent may be red or missing. */
  ghost predicate InsertState(c: Context, t: Tree) {
    && t.Node? && !t.black && NoRedRed(t) && Balanced(t)
    && BalancedAround(c, BlackHeight(t)) && NoRedRedAround(c, false)
  }

  /** A new red leaf in the place of an empty subtree. */
  lemma InsertStart(c: Context, id: Id)
    requires RedBlack(Plug(c, Leaf))
    ensures InsertState(c, Node(Leaf, id, false, Leaf))
  {
    RedBlackPlug(c, Leaf);
  }

  /** Nothing left to repair: the subtree is the root, or hangs below a black node. */
  lemma InsertDone(c: Context, t: Tree)
    requires InsertState(c, t) && (c.Top? || c.black)
    ensures RedBlack(Plug(c, if c.Top? then Blacken(t) else t))
  {
    RedBlackPlug(c, if c.Top? then Blacken(t) else t);
  }

  /** A red parent is never the root. */
  lemma InsertHasGrandparent(c: Context, t: Tree)
    requires InsertState(c, t) && c.Hole? && !c.black
    ensures c.up.Hole? && c.up.black
  {
    assert NoRedRedAround(c.up, true);
  }

  /** Red uncle: recolour and move the violation up two levels. */
  lemma InsertRecolour(c: Context, t: Tree)
    requires InsertState(c, t) && c.Hole? && !c.black && c.up.Hole? && !IsBlack(c.up.sibling)
    ensures var g := c.up;
      InsertState(g.up, Join(g.side, g.id, false, Join(c.side, c.id, true, t, c.sibling), g.sibling.(black := true)))
  {
    var g, h := c.up, BlackHeight(t);
    AroundRules(c, h, false);
    AroundRules(g, h, true);
    var p, u := Join(c.side, c.id, true, t, c.sibling), g.sibling.(black := true);
    JoinRules(c.side, c.id, true, t, c.sibling);
    SplitRules(g.sibling, L);
    SplitRules(u, L);
    JoinRules(g.side, g.id, false, p, u);
    NoRedAbove(g.up);
    hide Balanced, NoRedRed, BlackHeight, BalancedAround, NoRedRedAround, Join;
  }

  lemma NoRedAbove(c: Context)
    ensures NoRedRedAround(c, true) ==> NoRedRedAround(c, false)
  {
  }

  /** Black uncle, the subtree on the outer side: after recolouring, the rotation at the grandparent
      ends the repair. */
  lemma InsertRotate(c: Context, t: Tree)
    requires InsertState(c, t) && c.Hole? && !c.black && c.up.Hole? && IsBlack(c.up.sibling)
    requires c.side == c.up.side
    ensures var g := c.up; var lowered := Join(g.side, g.id, false, c.sibling, g.sibling);
      InsertState(Hole(g.side, c.id, true, lowered, g.up), t)
  {
    var g, h := c.up, BlackHeight(t);
    AroundRules(c, h, false);
    AroundRules(g, h, true);
    var lowered := Join(g.side, g.id, false, c.sibling, g.sibling);
    JoinRules(g.side, g.id, false, c.sibling, g.sibling);
    AroundRules(Hole(g.side, c.id, true, lowered, g.up), h, false);
    NoRedAbove(g.up);
    hide Balanced, NoRedRed, BlackHeight, BalancedAround, NoRedRedAround, Join;
  }

  /** The subtree on the inner side: rotating at the parent makes the old parent the outer child. */
  lemma InsertStraighten(c: Context, t: Tree)
    requires InsertState(c, t) && c.Hole? && !c.black && c.up.Hole? && c.side != c.up.side
    ensures var near := Child(t, Other(c.side)); var far := Child(t, c.side);
      var c' := Hole(c.up.side, t.id, false, far, c.up);
      InsertState(c', Join(c.up.side, c.id, false, c.sibling, near))
  {
    var near, far := Child(t, Other(c.side)), Child(t, c.side);
    var c' := Hole(c.up.side, t.id, false, far, c.up);
    SplitRules(t, c.side);
    AroundRules(c, BlackHeight(t), false);
    AroundRules(c', BlackHeight(t), false);
    JoinRules(c.up.side, c.id, false, c.sibling, near);
    hide Balanced, NoRedRed, BlackHeight, BalancedAround, NoRedRedAround, Join;
  }

  // ---------- deletion ----------

  /** The state of __rb_erase_color: the tree would be red-black if the subtree `t` in the hole had
      one more black node on every path. A red `t` takes it at once, so only its colour may clash. */
  ghost predicate EraseState(c: Context, t: Tree) {
    && NoRedRed(Blacken(t)) && Balanced(t)
    && BalancedAround(c, BlackHeight(t) + 1) && NoRedRedAround(c, false)
  }

  /** The loop is over: a red subtree or the root takes the missing black. */
  lemma EraseDone(c: Context, t: Tree)
    requires EraseState(c, t) && (c.Top? || !IsBlack(t))
    ensures RedBlack(Plug(c, Blacken(t)))
  {
    RedBlackPlug(c, Blacken(t));
  }

  /** While the loop runs there is a sibling to work with. */
  lemma EraseHasSibling(c: Context, t: Tree)
    requires EraseState(c, t) && c.Hole?
    ensures c.sibling.Node?
  {
  }

  /** Red sibling: recolour and rotate it above the parent; the new sibling is black. */
  lemma EraseRedSibling(c: Context, t: Tree)
    requires EraseState(c, t) && c.Hole? && c.sibling.Node? && !c.sibling.black
    ensures var near := Child(c.sibling, c.side); var far := Child(c.sibling, Other(c.side));
      var c' := Hole(c.side, c.id, false, near, Hole(c.side, c.sibling.id, true, far, c.up));
      EraseState(c', t) && near.Node? && near.black
  {
    var near, far := Child(c.sibling, c.side), Child(c.sibling, Other(c.side));
    var g := Hole(c.side, c.sibling.id, true, far, c.up);
    var h := BlackHeight(t) + 1;
    SplitRules(c.sibling, c.side);
    AroundRules(c, h, false);
    AroundRules(Hole(c.side, c.id, false, near, g), h, false);
    AroundRules(g, h, true);
    assert BlackHeight(Leaf) == 0;
    hide Balanced, NoRedRed, BlackHeight, BalancedAround, NoRedRedAround, Join;
  }

  /** Black sibling with black children: it turns red and the missing black moves up. */
  lemma EraseRecolour(c: Context, t: Tree)
    requires EraseState(c, t) && IsBlack(t) && c.Hole? && c.sibling.Node? && c.sibling.black
    requires IsBlack(c.sibling.left) && IsBlack(c.sibling.right)
    ensures EraseState(c.up, Join(c.side, c.id, c.black, t, c.sibling.(black := false)))
  {
    var s := c.sibling.(black := false);
    AroundRules(c, BlackHeight(t) + 1, false);
    SplitRules(c.sibling, L);
    SplitRules(s, L);
    JoinRules(c.side, c.id, c.black, t, s);
    JoinRules(c.side, c.id, true, t, s);
    assert Blacken(Join(c.side, c.id, c.black, t, s)) == Join(c.side, c.id, true, t, s);
    NoRedAbove(c.up);
    hide Balanced, NoRedRed, BlackHeight, BalancedAround, NoRedRedAround, Join;
  }

  /** The far nephew is black, so the near one is red: rotating at the sibling makes it far. */
  lemma EraseStraighten(c: Context, t: Tree)
    requires EraseState(c, t) && c.Hole? && c.sibling.Node? && c.sibling.black
    requires IsBlack(Child(c.sibling, Other(c.side))) && !IsBlack(Child(c.sibling, c.side))
    ensures var near := Child(c.sibling, c.side); var far := Child(c.sibling, Other(c.side));
      var lowered := Join(c.side, c.sibling.id, false, Child(near, Other(c.side)), far);
      var s' := Join(c.side, near.id, true, Child(near, c.side), lowered);
      && NoRedRed(Child(near, c.side)) && NoRedRed(lowered)
      && Balanced(s') && BlackHeight(s') == BlackHeight(c.sibling)
      && IsBlack(Child(near, c.side))
  {
    var near, far := Child(c.sibling, c.side), Child(c.sibling, Other(c.side));
    AroundRules(c, BlackHeight(t) + 1, false);
    SplitRules(c.sibling, c.side);
    SplitRules(near, c.side);
    var lowered := Join(c.side, c.sibling.id, false, Child(near, Other(c.side)), far);
    JoinRules(c.side, c.sibling.id, false, Child(near, Other(c.side)), far);
    JoinRules(c.side, near.id, true, Child(near, c.side), lowered);
    hide Balanced, NoRedRed, BlackHeight, BalancedAround, NoRedRedAround, Join;
  }

  /** A red far nephew: the rotation at the parent ends the repair. The hypothesis on the sibling is
      what the red-black rules and EraseStraighten both give. */
  lemma EraseRotate(c: Context, t: Tree)
    requires NoRedRed(t) && Balanced(t) && IsBlack(t) && c.Hole? && c.sibling.Node?
    requires BalancedAround(c, BlackHeight(t) + 1) && NoRedRedAround(c.up, !c.black)
    requires c.sibling.black
    requires var near := Child(c.sibling, c.side); var far := Child(c.sibling, Other(c.side));
      far.Node? && !far.black && NoRedRed(near) && NoRedRed(far.(black := true))
    ensures var near := Child(c.sibling, c.side); var far := Child(c.sibling, Other(c.side));
      var lowered := Join(c.side, c.id, true, t, near);
      RedBlack(Plug(c.up, Join(c.side, c.sibling.id, c.black, lowered, far.(black := true))))
  {
    var near, far := Child(c.sibling, c.side), Child(c.sibling, Other(c.side));
    AroundRules(c, BlackHeight(t) + 1, false);
    SplitRules(c.sibling, c.side);
    SplitRules(far, L);
    SplitRules(far.(black := true), L);
    var lowered := Join(c.side, c.id, true, t, near);
    JoinRules(c.side, c.id, true, t, near);
    JoinRules(c.side, c.sibling.id, c.black, lowered, far.(black := true));
    RedBlackPlug(c.up, Join(c.side, c.sibling.id, c.black, lowered, far.(black := true)));
    hide Balanced, NoRedRed, BlackHeight, BalancedAround, NoRedRedAround, Join, RedBlack;
  }

  /** Taking out a node that has at most one child: if it was red the tree is red-black as it is,
      if it was black one black node is missing at its place. */
  lemma EraseStart(c: Context, t: Tree, side: Side)
    requires t.Node? && Child(t, Other(side)).Leaf? && RedBlack(Plug(c, t))
    ensures if t.black then EraseState(c, Child(t, side)) else RedBlack(Plug(c, Child(t, side)))
  {
    RedBlackPlug(c, t);
    RedBlackPlug(c, Child(t, side));
    SplitRules(t, side);
    BlackenRules(Child(t, side));
    NoRedAbove(c);
    hide Balanced, NoRedRed, BlackHeight, BalancedAround, NoRedRedAround, RedBlack, Plug, Join, Child;
  }

  lemma BlackenRules(t: Tree)
    requires NoRedRed(t)
    ensures NoRedRed(Blacken(t))
  {
  }

  /** A path inside a path. */
  function Compose(inner: Context, outer: Context): Context {
    if inner.Top? then outer else inner.(up := Compose(inner.up, outer))
  }

  lemma {:induction false} PlugCompose(inner: Context, outer: Context, t: Tree)
    ensures Plug(Compose(inner, outer), t) == Plug(outer, Plug(inner, t))
  {
    if inner.Hole? {
      PlugCompose(inner.up, outer, Join(inner.side, inner.id, inner.black, t, inner.sibling));
    }
  }

  /** The path goes down left children only, as the search for the successor does. */
  predicate AllLeft(c: Context) { c.Top? || (c.side == L && AllLeft(c.up)) }

  lemma {:induction false} AroundCompose(inner: Context, outer: Context)
    requires AllLeft(inner)
    ensures Before(Compose(inner, outer)) == Before(outer)
    ensures After(Compose(inner, outer)) == After(inner) + After(outer)
  {
    if inner.Hole? {
      AroundCompose(inner.up, outer);
      assert ([inner.id] + Inorder(inner.sibling)) + (After(inner.up) + After(outer)) ==
             (([inner.id] + Inorder(inner.sibling)) + After(inner.up)) + After(outer);
    }
  }

  /** The red-black rules do not look at ids. */
  lemma {:induction false} RulesIgnoreIds(inner: Context, outer: Context, id: Id, h: nat, red: bool)
    requires outer.Hole?
    ensures BalancedAround(Compose(inner, outer), h) == BalancedAround(Compose(inner, outer.(id := id)), h)
    ensures NoRedRedAround(Compose(inner, outer), red) == NoRedRedAround(Compose(inner, outer.(id := id)), red)
  {
    if inner.Hole? {
      RulesIgnoreIds(inner.up, outer, id, h + if inner.black then 1 else 0, !inner.black);
    }
  }

  /** A node with two children gives its place to its in-order successor: what remains to be repaired
      is at the successor's old place. */
  lemma EraseSuccessor(c: Context, x: Tree, path: Context, s: Tree)
    requires x.Node? && s.Node? && s.left.Leaf? && AllLeft(path)
    requires x.right == Plug(path, s) && RedBlack(Plug(c, x))
    ensures var c' := Compose(path, Hole(R, s.id, x.black, x.left, c));
      && (if s.black then EraseState(c', s.right) else RedBlack(Plug(c', s.right)))
      && Inorder(Plug(c', s.right)) == (Before(c) + Inorder(x.left)) + (Inorder(x.right) + After(c))
  {
    hide Plug, Compose, Inorder, Before, After, RedBlack, Balanced, NoRedRed, BlackHeight;
    hide BalancedAround, NoRedRedAround;
    var outer := Hole(R, x.id, x.black, x.left, c);
    var before, c' := Compose(path, outer), Compose(path, outer.(id := s.id));
    PlugCompose(path, outer, s);
    PlugHole(outer, x.right);
    assert x == Join(R, x.id, x.black, x.right, x.left);
    EraseStart(before, s, R);
    hide EraseState;
    EraseRenamed(path, outer, s.id, s.right);
    SuccessorLine(c, x, path, s);
  }

  /** What is left to repair does not depend on the ids above. */
  lemma EraseRenamed(path: Context, outer: Context, id: Id, t: Tree)
    requires outer.Hole?
    ensures var before, after := Compose(path, outer), Compose(path, outer.(id := id));
      && (EraseState(before, t) <==> EraseState(after, t))
      && (RedBlack(Plug(before, t)) <==> RedBlack(Plug(after, t)))
  {
    hide Plug, Compose, RedBlack, Balanced, NoRedRed, BlackHeight, BalancedAround, NoRedRedAround;
    RulesIgnoreIds(path, outer, id, BlackHeight(t) + 1, false);
    RulesIgnoreIds(path, outer, id, BlackHeight(t), !IsBlack(t));
    RedBlackPlug(Compose(path, outer), t);
    RedBlackPlug(Compose(path, outer.(id := id)), t);
  }

  lemma PlugHole(c: Context, t: Tree)
    requires c.Hole?
    ensures Plug(c, t) == Plug(c.up, Join(c.side, c.id, c.black, t, c.sibling))
  {
  }

  lemma SuccessorLine(c: Context, x: Tree, path: Context, s: Tree)
    requires x.Node? && s.Node? && s.left.Leaf? && AllLeft(path) && x.right == Plug(path, s)
    ensures Inorder(Plug(Compose(path, Hole(R, s.id, x.black, x.left, c)), s.right)) ==
      (Before(c) + Inorder(x.left)) + (Inorder(x.right) + After(c))
  {
    var outer := Hole(R, s.id, x.black, x.left, c);
    assert Before(outer) == Before(c) + (Inorder(x.left) + [s.id]) && After(outer) == After(c);
    assert Inorder(s) == [s.id] + Inorder(s.right);
    hide Plug, Compose, Inorder, Before, After;
    InorderPlug(Compose(path, outer), s.right);
    AroundCompose(path, outer);
    InorderPlug(path, s);
    AroundCompose(path, Top);
    ComposeTop(path);
    NothingAbove();
    MoveAcross(Before(c), Inorder(x.left), s.id, Inorder(s.right), After(path), After(c));
  }

  lemma NothingAbove()
    ensures Before(Top) == [] && After(Top) == []
  {
  }

  lemma MoveAcross(a: seq<Id>, l: seq<Id>, s: Id, r: seq<Id>, p: seq<Id>, b: seq<Id>)
    ensures (a + (l + [s])) + r + (p + b) == (a + l) + (([] + ([s] + r) + p) + b)
  {
  }

  lemma {:induction false} ComposeTop(c: Context)
    ensures Compose(c, Top) == c
  {
    if c.Hole? {
      ComposeTop(c.up);
    }
  }
}
