/** The binary min heap of libuv: linked nodes and no array. Nodes are the timers that embed them. */
module Heap {

  class Timer {
    // heap_node
    var left: Timer?
    var right: Timer?
    var parent: Timer?
    // uv_timer_t
    var timeout: nat
    var repeat: nat
    var startId: nat
    var active: bool
    var closing: bool
    var hasCallback: bool

    constructor ()
      ensures left == null && right == null && parent == null
      ensures !active && !closing && !hasCallback && repeat == 0
    {
      left, right, parent := null, null, null;
      timeout, repeat, startId := 0, 0, 0;
      active, closing, hasCallback := false, false, false;
    }
  }

  // ---------- order ----------

  datatype Key = Key(timeout: nat, startId: nat)

  predicate Less(a: Key, b: Key) {
    a.timeout < b.timeout || (a.timeout == b.timeout && a.startId < b.startId)
  }

  function KeyOf(t: Timer): Key
    reads t`timeout, t`startId
  {
    Key(t.timeout, t.startId)
  }

  method LessThan(a: Timer, b: Timer) returns (less: bool)
    ensures less <==> Less(KeyOf(a), KeyOf(b))
  {
    if a.timeout < b.timeout {
      return true;
    }
    if b.timeout < a.timeout {
      return false;
    }
    return a.startId < b.startId;
  }

  function Up(i: nat): nat
    requires i > 0
  {
    (i - 1) / 2
  }

  ghost predicate OrderedAt(ks: seq<Key>, i: nat)
    requires 0 < i < |ks|
  {
    !Less(ks[i], ks[Up(i)])
  }

  ghost predicate HeapOrdered(ks: seq<Key>) {
    forall i {:trigger OrderedAt(ks, i)} :: 0 < i < |ks| ==> OrderedAt(ks, i)
  }

  /** Nothing below node i is less than what is above it. */
  ghost predicate Between(ks: seq<Key>, i: nat) {
    forall j {:trigger Up(j)} :: 0 < j < |ks| && Up(j) == i && i > 0 ==> !Less(ks[j], ks[Up(i)])
  }

  /** In order, except perhaps node i and the node above it. */
  ghost predicate OrderedButUp(ks: seq<Key>, i: nat) {
    Between(ks, i) && forall j {:trigger OrderedAt(ks, j)} :: 0 < j < |ks| && j != i ==> OrderedAt(ks, j)
  }

  /** In order, except perhaps node i and its neighbours. */
  ghost predicate OrderedBut(ks: seq<Key>, i: nat) {
    Between(ks, i)
    && forall j {:trigger OrderedAt(ks, j)} :: 0 < j < |ks| && j != i && Up(j) != i ==> OrderedAt(ks, j)
  }

  ghost function SwapKeys<T>(s: seq<T>, p: nat, c: nat): seq<T>
    requires p < |s| && c < |s|
  {
    s[p := s[c]][c := s[p]]
  }

  lemma SwapUp(ks: seq<Key>, i: nat)
    requires 0 < i < |ks| && OrderedButUp(ks, i) && Less(ks[i], ks[Up(i)])
    ensures OrderedButUp(SwapKeys(ks, Up(i), i), Up(i))
  {
    var p, ks2 := Up(i), SwapKeys(ks, Up(i), i);
    forall j | 0 < j < |ks| && j != p ensures OrderedAt(ks2, j) {
      assert j != i ==> OrderedAt(ks, j);
    }
    forall j | 0 < j < |ks| && Up(j) == p && p > 0 ensures !Less(ks2[j], ks2[Up(p)]) {
      assert OrderedAt(ks, p) && (j != i ==> OrderedAt(ks, j));
    }
  }

  lemma SwapDown(ks: seq<Key>, i: nat, c: nat)
    requires i < |ks| && OrderedBut(ks, i)
    requires 0 < c < |ks| && Up(c) == i && Less(ks[c], ks[i])
    requires forall j :: 0 < j < |ks| && Up(j) == i ==> !Less(ks[j], ks[c])
    ensures OrderedBut(SwapKeys(ks, i, c), c)
  {
    var ks2 := SwapKeys(ks, i, c);
    forall j | 0 < j < |ks| && j != c && Up(j) != c ensures OrderedAt(ks2, j) {
      assert j != i && Up(j) != i ==> OrderedAt(ks, j);
    }
    forall j | 0 < j < |ks| && Up(j) == c ensures !Less(ks2[j], ks2[i]) {
      assert OrderedAt(ks, j);
    }
  }

  /** The root is least. */
  lemma {:induction false} RootLeast(ks: seq<Key>, i: nat)
    requires HeapOrdered(ks) && i < |ks|
    ensures !Less(ks[i], ks[0])
  {
    if i > 0 {
      RootLeast(ks, Up(i));
      assert OrderedAt(ks, i);
    }
  }

  // ---------- paths ----------

  /** Where the low `k` bits of `path` lead from node `i`, the root being node 1. */
  function Walk(i: nat, path: nat, k: nat): nat
    decreases k
  {
    if k == 0 then i else Walk(2 * i + path % 2, path / 2, k - 1)
  }

  lemma {:induction false} WalkBounds(i: nat, path: nat, k: nat)
    ensures k > 0 ==> 2 * i <= Walk(i, path, k)
    ensures i <= Walk(i, path, k)
    decreases k
  {
    if k > 0 {
      WalkBounds(2 * i + path % 2, path / 2, k - 1);
    }
  }

  lemma WalkStep(i: nat, path: nat, k: nat)
    requires k > 0
    ensures Walk(i, path, k) == Walk(2 * i + path % 2, path / 2, k - 1)
  {
  }

  lemma WalkEnd(i: nat, path: nat)
    ensures Walk(i, path, 0) == i
  {
  }

  /** The path from the root to node `m`, as libuv computes it: the binary digits of m below the first, reversed. */
  method PathTo(m: nat) returns (path: nat, k: nat)
    requires m >= 1
    ensures Walk(1, path, k) == m
  {
    path, k := 0, 0;
    var n := m;
    while n >= 2
      invariant n >= 1 && Walk(n, path, k) == m
    {
      var path2 := 2 * path + n % 2;
      assert path2 % 2 == n % 2 && path2 / 2 == path && 2 * (n / 2) + n % 2 == n;
      path := path2;
      k := k + 1;
      n := n / 2;
    }
  }

  // ---------- links ----------

  ghost function At(nodes: seq<Timer>, i: nat): Timer? {
    if i < |nodes| then nodes[i] else null
  }

  ghost function ParentAt(nodes: seq<Timer>, i: nat): Timer? {
    if 0 < i < |nodes| then nodes[Up(i)] else null
  }

  ghost predicate Distinct(nodes: seq<Timer>) {
    forall i, j :: 0 <= i < j < |nodes| ==> nodes[i] != nodes[j]
  }

  ghost predicate Links(nodes: seq<Timer>, i: nat)
    requires i < |nodes|
    reads nodes
  {
    && nodes[i].left == At(nodes, 2 * i + 1)
    && nodes[i].right == At(nodes, 2 * i + 2)
    && nodes[i].parent == ParentAt(nodes, i)
  }

  /** `nodes` lists a complete binary tree row by row: the children of node i are nodes 2i+1 and 2i+2, and know it. */
  ghost predicate Shape(nodes: seq<Timer>)
    reads nodes
  {
    Distinct(nodes) && forall i {:trigger Links(nodes, i)} :: 0 <= i < |nodes| ==> Links(nodes, i)
  }

  ghost function NodeSet(nodes: seq<Timer>): set<Timer> {
    set n | n in nodes
  }

  ghost function Keys(nodes: seq<Timer>): (ks: seq<Key>)
    reads nodes
    ensures |ks| == |nodes| && forall i :: 0 <= i < |nodes| ==> ks[i] == KeyOf(nodes[i])
  {
    seq(|nodes|, i requires 0 <= i < |nodes| reads nodes => KeyOf(nodes[i]))
  }

  ghost function Rename(a: Timer, b: Timer, n: Timer?): Timer? {
    if n == a then b else if n == b then a else n
  }

  ghost function Substitute(a: Timer, b: Timer, n: Timer?): Timer? {
    if n == a then b else n
  }

  ghost predicate IsChild(s: set<Timer>, n: Timer, c: Timer?)
    reads s
  {
    c == null || (c in s && c.parent == n && c != n)
  }

  /** The links around one node agree. */
  ghost predicate Tame(s: set<Timer>, n: Timer)
    reads s
  {
    && n in s
    && IsChild(s, n, n.left) && IsChild(s, n, n.right) && (n.left == n.right ==> n.left == null)
    && (n.parent != null ==> n.parent in s && n.parent != n && (n.parent.left == n || n.parent.right == n))
  }

  /** Who points to a node, and to whom it points. */
  lemma Pointers(s: set<Timer>, t: Timer)
    requires t in s && forall n {:trigger Tame(s, n)} :: n in s ==> Tame(s, n)
    ensures forall n :: n in s ==> (n.parent == t <==> n == t.left || n == t.right)
    ensures forall n :: n in s ==> (n.left == t || n.right == t <==> n == t.parent)
    ensures forall n :: n in s ==> (n.left == n.right ==> n.left == null)
    ensures t.parent != null ==> t.parent in s && (t.parent.left == t || t.parent.right == t)
    ensures (t.left != null ==> t.left in s) && (t.right != null ==> t.right in s)
    ensures t.left != t && t.right != t && t.parent != t && (t.left == t.right ==> t.left == null)
  {
    assert Tame(s, t);
    forall n | n in s
      ensures (n.parent == t <==> n == t.left || n == t.right) && (n.left == t || n.right == t ==> n == t.parent)
      ensures n.left == n.right ==> n.left == null
    {
      assert Tame(s, n);
    }
  }

  /** What the swap needs to know about the links around a node and a child of it. */
  ghost predicate Adjoining(s: set<Timer>, parent: Timer, child: Timer)
    reads s, parent, child
  {
    && parent in s && child in s && parent != child && child.parent == parent && parent.parent != child
    && parent.left != parent.right && (parent.left == child || parent.right == child)
    && parent !in {parent.left, parent.right, parent.parent, child.left, child.right}
    && child !in {child.left, child.right}
    && (forall n: Timer? :: n in {parent.left, parent.right} && n != null ==> n in s && n.parent == parent)
    && (forall n: Timer? :: n in {child.left, child.right} && n != null ==> n in s && n.parent == child)
    && (parent.parent != null ==>
          parent.parent in s && (parent.parent.left == parent || parent.parent.right == parent))
  }

  // The fields of node `n` once `child` has taken the place of `parent`.
  ghost function NewLeft(parent: Timer, child: Timer, pl: Timer?, pp: Timer?, cl: Timer?, n: Timer, l: Timer?): Timer? {
    if n == parent then cl
    else if n == child then if pl == child then parent else pl
    else if n == pp && l == parent then child else l
  }

  ghost function NewRight(parent: Timer, child: Timer, pl: Timer?, pr: Timer?, pp: Timer?, cr: Timer?,
                          n: Timer, l: Timer?, r: Timer?): Timer? {
    if n == parent then cr
    else if n == child then if pl == child then pr else parent
    else if n == pp && l != parent then child else r
  }

  ghost function NewParent(parent: Timer, child: Timer, pl: Timer?, pr: Timer?, pp: Timer?, cl: Timer?, cr: Timer?,
                           n: Timer, up: Timer?): Timer? {
    if n == parent then child
    else if n == child then pp
    else if n == (if pl == child then pr else pl) then child
    else if n == cl || n == cr then parent else up
  }

  lemma RenameOther(parent: Timer, child: Timer, pl: Timer?, pr: Timer?, pp: Timer?, cl: Timer?, cr: Timer?,
                    n: Timer, l: Timer?, r: Timer?, up: Timer?)
    requires n != parent && n != child && pl != pr && (pl == child || pr == child)
    requires (up == parent <==> n == pl || n == pr) && (up == child <==> n == cl || n == cr)
    requires (l == parent || r == parent <==> n == pp) && l != child && r != child && (l == r ==> l == null)
    ensures NewLeft(parent, child, pl, pp, cl, n, l) == Rename(parent, child, l)
    ensures NewRight(parent, child, pl, pr, pp, cr, n, l, r) == Rename(parent, child, r)
    ensures NewParent(parent, child, pl, pr, pp, cl, cr, n, up) == Rename(parent, child, up)
  {
  }

  lemma RenamePair(parent: Timer, child: Timer, pl: Timer?, pr: Timer?, pp: Timer?, cl: Timer?, cr: Timer?)
    requires parent != child && pl != pr && (pl == child || pr == child)
    requires parent !in {pl, pr, pp, cl, cr} && child !in {pp, cl, cr}
    ensures NewLeft(parent, child, pl, pp, cl, child, cl) == Rename(parent, child, pl)
    ensures NewRight(parent, child, pl, pr, pp, cr, child, cl, cr) == Rename(parent, child, pr)
    ensures NewParent(parent, child, pl, pr, pp, cl, cr, child, parent) == Rename(parent, child, pp)
    ensures NewLeft(parent, child, pl, pp, cl, parent, pl) == Rename(parent, child, cl)
    ensures NewRight(parent, child, pl, pr, pp, cr, parent, pl, pr) == Rename(parent, child, cr)
    ensures NewParent(parent, child, pl, pr, pp, cl, cr, parent, pp) == Rename(parent, child, parent)
  {
  }

  ghost predicate Renamed(parent: Timer, child: Timer, n: Timer, l: Timer?, r: Timer?, up: Timer?)
    reads parent, child, n
  {
    var m := Rename(parent, child, n);
    m.left == Rename(parent, child, l) && m.right == Rename(parent, child, r) && m.parent == Rename(parent, child, up)
  }

  lemma ShapeTame(nodes: seq<Timer>, i: nat)
    requires Shape(nodes) && i < |nodes|
    ensures Tame(NodeSet(nodes), nodes[i])
  {
    assert Links(nodes, i);
    if 2 * i + 1 < |nodes| { assert Links(nodes, 2 * i + 1); }
    if 2 * i + 2 < |nodes| { assert Links(nodes, 2 * i + 2); }
    if i > 0 { assert Links(nodes, Up(i)); }
  }

  lemma AllTame(nodes: seq<Timer>)
    requires Shape(nodes)
    ensures forall n {:trigger Tame(NodeSet(nodes), n)} :: n in NodeSet(nodes) ==> Tame(NodeSet(nodes), n)
  {
    forall n | n in nodes ensures Tame(NodeSet(nodes), n) {
      var i :| 0 <= i < |nodes| && nodes[i] == n;
      ShapeTame(nodes, i);
    }
  }

  lemma RenameAt(nodes: seq<Timer>, p: nat, c: nat, k: nat)
    requires p < |nodes| && c < |nodes| && p != c && Distinct(nodes)
    ensures At(SwapKeys(nodes, p, c), k) == Rename(nodes[p], nodes[c], At(nodes, k))
  {
  }

  ghost predicate RenamedLinks(nodes: seq<Timer>, p: nat, c: nat, i: nat)
    requires p < |nodes| && c < |nodes| && i < |nodes|
    reads nodes
  {
    Renamed(nodes[p], nodes[c], nodes[i], At(nodes, 2 * i + 1), At(nodes, 2 * i + 2), ParentAt(nodes, i))
  }

  lemma RenamedNode(nodes: seq<Timer>, p: nat, c: nat, i: nat)
    requires p < |nodes| && c < |nodes| && p != c && Distinct(nodes) && i < |nodes| && RenamedLinks(nodes, p, c, i)
    ensures Links(SwapKeys(nodes, p, c), i)
  {
    RenameAt(nodes, p, c, i);
    RenameAt(nodes, p, c, 2 * i + 1);
    RenameAt(nodes, p, c, 2 * i + 2);
    if i > 0 { RenameAt(nodes, p, c, Up(i)); }
  }

  lemma Adjacent(nodes: seq<Timer>, p: nat, c: nat)
    requires Shape(nodes) && 0 < c < |nodes| && p == Up(c)
    ensures nodes[p] in NodeSet(nodes) && nodes[c] in NodeSet(nodes) && nodes[c].parent == nodes[p]
    ensures nodes[p].parent != nodes[c] && nodes[c] != nodes[0]
    ensures nodes[p].parent == null <==> nodes[p] == nodes[0]
  {
    assert Links(nodes, p) && Links(nodes, c);
  }

  lemma SwappedNodes(nodes: seq<Timer>, p: nat, c: nat)
    requires p < |nodes| && c < |nodes| && Distinct(nodes)
    ensures Distinct(SwapKeys(nodes, p, c)) && NodeSet(SwapKeys(nodes, p, c)) == NodeSet(nodes)
  {
    var nodes2 := SwapKeys(nodes, p, c);
    forall n | n in nodes ensures n in nodes2 {
      var i :| 0 <= i < |nodes| && nodes[i] == n;
      assert nodes2[if i == p then c else if i == c then p else i] == n;
    }
  }

  /** Renaming two nodes throughout a tree swaps their places. */
  lemma RenamedShape(nodes: seq<Timer>, p: nat, c: nat)
    requires p < |nodes| && c < |nodes| && p != c && Distinct(nodes)
    requires forall i {:trigger RenamedLinks(nodes, p, c, i)} :: 0 <= i < |nodes| ==> RenamedLinks(nodes, p, c, i)
    ensures Shape(SwapKeys(nodes, p, c))
  {
    SwappedNodes(nodes, p, c);
    forall i | 0 <= i < |nodes| ensures Links(SwapKeys(nodes, p, c), i) {
      assert RenamedLinks(nodes, p, c, i);
      RenamedNode(nodes, p, c, i);
    }
  }

  datatype Slot = MinSlot | LeftOf(node: Timer) | RightOf(node: Timer)

  class TimerHeap {
    var min: Timer?
    var nelts: nat
    ghost var nodes: seq<Timer>

    ghost predicate Linked()
      reads this, nodes
    {
      nelts == |nodes| && min == At(nodes, 0) && Shape(nodes)
    }

    ghost predicate Valid()
      reads this, nodes
    {
      Linked() && HeapOrdered(Keys(nodes))
    }

    ghost function Members(): set<Timer>
      reads this
    {
      NodeSet(nodes)
    }

    constructor ()
      ensures Valid() && nodes == []
    {
      min, nelts, nodes := null, 0, [];
    }

    /** The node returned is the least of all. */
    method Min() returns (m: Timer?)
      requires Valid()
      ensures m == null <==> Members() == {}
      ensures m != null ==> m in Members() && forall t :: t in Members() ==> !Less(KeyOf(t), KeyOf(m))
    {
      m := min;
      if m == null { assert nodes == []; } else { assert nodes[0] in Members(); }
      forall t | t in nodes && m != null ensures !Less(KeyOf(t), KeyOf(m)) {
        var i :| 0 <= i < |nodes| && nodes[i] == t;
        RootLeast(Keys(nodes), i);
      }
    }

    // The two nodes trade places; their neighbours do not know yet.
    static method TradeLinks(parent: Timer, child: Timer) returns (sibling: Timer?)
      requires parent != child && parent.left != parent.right && (parent.left == child || parent.right == child)
      modifies parent`left, parent`right, parent`parent, child`left, child`right, child`parent
      ensures parent.left == old(child.left) && parent.right == old(child.right) && parent.parent == child
      ensures old(parent.left) == child ==>
        child.left == parent && child.right == old(parent.right) && sibling == old(parent.right)
      ensures old(parent.left) != child ==>
        child.right == parent && child.left == old(parent.left) && sibling == old(parent.left)
      ensures child.parent == old(parent.parent)
    {
      var l, r, up := parent.left, parent.right, parent.parent;
      parent.left, parent.right, parent.parent := child.left, child.right, child.parent;
      child.left, child.right, child.parent := l, r, up;
      parent.parent := child;
      if child.left == child {
        child.left := parent;
        sibling := child.right;
      } else {
        child.right := parent;
        sibling := child.left;
      }
    }

    // The sibling and the children of the node that moved down learn their new parents.
    static method TellNeighbours(parent: Timer, child: Timer, sibling: Timer?, ghost s: set<Timer>)
      requires sibling != null ==> sibling in s && sibling != parent.left && sibling != parent.right
      requires (parent.left != null ==> parent.left in s) && (parent.right != null ==> parent.right in s)
      modifies s`parent
      ensures forall n :: n in s ==>
        n.parent == if n == sibling then child
                    else if n == parent.left || n == parent.right then parent else old(n.parent)
    {
      if sibling != null {
        sibling.parent := child;
      }
      if parent.left != null {
        parent.left.parent := parent;
      }
      if parent.right != null {
        parent.right.parent := parent;
      }
    }

    // All the stores of the swap, field by field.
    method Relink(parent: Timer, child: Timer, ghost s: set<Timer>)
      requires Adjoining(s, parent, child)
      modifies this`min, s`left, s`right, s`parent
      ensures min == if old(parent.parent) == null then child else old(min)
      ensures forall n :: n in s ==>
        && n.left == NewLeft(parent, child, old(parent.left), old(parent.parent), old(child.left), n, old(n.left))
        && n.right == NewRight(parent, child, old(parent.left), old(parent.right), old(parent.parent),
                               old(child.right), n, old(n.left), old(n.right))
        && n.parent == NewParent(parent, child, old(parent.left), old(parent.right), old(parent.parent),
                                 old(child.left), old(child.right), n, old(n.parent))
    {
      var sibling := TradeLinks(parent, child);
      TellNeighbours(parent, child, sibling, s);
      if child.parent == null {
        min := child;
      } else if child.parent.left == parent {
        child.parent.left := child;
      } else {
        child.parent.right := child;
      }
    }

    method RenameInPlace(parent: Timer, child: Timer, ghost s: set<Timer>)
      requires forall n {:trigger Tame(s, n)} :: n in s ==> Tame(s, n)
      requires parent in s && child in s && child.parent == parent && parent.parent != child
      requires (parent.parent == null <==> min == parent) && min != child
      modifies this`min, s`left, s`right, s`parent
      ensures min == Rename(parent, child, old(min))
      ensures forall n :: n in s ==> Renamed(parent, child, n, old(n.left), old(n.right), old(n.parent))
    {
      hide Tame, NewLeft, NewRight, NewParent;
      Pointers(s, parent);
      Pointers(s, child);
      assert Adjoining(s, parent, child);
      ghost var pl, pr, pp, cl, cr := parent.left, parent.right, parent.parent, child.left, child.right;
      Relink(parent, child, s);
      RenamePair(parent, child, pl, pr, pp, cl, cr);
      forall n | n in s ensures Renamed(parent, child, n, old(n.left), old(n.right), old(n.parent)) {
        if n != parent && n != child {
          RenameOther(parent, child, pl, pr, pp, cl, cr, n, old(n.left), old(n.right), old(n.parent));
        }
      }
    }

    /** A node and the one above it trade places in the tree. */
    method NodeSwap(parent: Timer, child: Timer, ghost p: nat, ghost c: nat)
      requires Linked() && 0 < c < |nodes| && p == Up(c) && nodes[p] == parent && nodes[c] == child
      modifies this`min, this`nodes, Members()`left, Members()`right, Members()`parent
      ensures Linked() && nodes == SwapKeys(old(nodes), p, c)
      ensures Keys(nodes) == SwapKeys(old(Keys(nodes)), p, c)
      ensures Members() == old(Members())
    {
      hide Tame, Distinct, Renamed, Rename;
      ghost var s := NodeSet(nodes);
      AllTame(nodes);
      Adjacent(nodes, p, c);
      RenameAt(nodes, p, c, 0);
      SwappedNodes(nodes, p, c);
      RenameInPlace(parent, child, s);
      forall i {:trigger RenamedLinks(nodes, p, c, i)} | 0 <= i < |nodes| ensures RenamedLinks(nodes, p, c, i) {
        assert old(Links(nodes, i)) && nodes[i] in s;
      }
      RenamedShape(nodes, p, c);
      nodes := SwapKeys(nodes, p, c);
    }

    /** The pointer that names node `m` of the tree, counted from 1. */
    ghost predicate Names(slot: Slot, m: nat)
      requires 1 <= m <= |nodes| + 1
      reads this
    {
      if m == 1 then slot == MinSlot
      else slot == if m % 2 == 1 then RightOf(nodes[m / 2 - 1]) else LeftOf(nodes[m / 2 - 1])
    }

    /** Follows the path to the pointer that names node `m`, and gives the node that holds it. */
    method FindSlot(m: nat) returns (slot: Slot, owner: Timer?)
      requires Linked() && 1 <= m <= nelts + 1
      ensures Names(slot, m) && owner == if m == 1 then null else nodes[m / 2 - 1]
    {
      hide Distinct, Walk;
      var path, k := PathTo(m);
      slot, owner := MinSlot, null;
      var node := min;
      ghost var cur := 1;
      while k > 0
        invariant 1 <= cur <= m && Walk(cur, path, k) == m
        invariant node == At(nodes, cur - 1) && Names(slot, cur)
        invariant owner == if cur == 1 then null else nodes[cur / 2 - 1]
      {
        WalkStep(cur, path, k);
        WalkBounds(2 * cur + path % 2, path / 2, k - 1);
        assert Links(nodes, cur - 1);
        owner := node;
        if path % 2 == 1 {
          slot, node := RightOf(owner), owner.right;
        } else {
          slot, node := LeftOf(owner), owner.left;
        }
        cur := 2 * cur + path % 2;
        path := path / 2;
        k := k - 1;
      }
      WalkEnd(cur, path);
    }

    // Links the node in as the last one; the order is not yet restored.
    method Append(node: Timer)
      requires Linked() && node !in nodes
      modifies this, Members()`left, Members()`right, node`left, node`right, node`parent
      ensures Linked() && nodes == old(nodes) + [node]
    {
      hide Distinct, Names;
      ghost var was := nodes;
      node.left, node.right, node.parent := null, null, null;
      var slot, owner := FindSlot(1 + nelts);
      OneMore(was, node);
      SlotParent(slot, |was| + 1);
      node.parent := owner;
      match slot {
        case MinSlot => min := node;
        case LeftOf(n) => n.left := node;
        case RightOf(n) => n.right := node;
      }
      nelts := nelts + 1;
      nodes := was + [node];
      forall i | 0 <= i < |nodes| ensures Links(nodes, i) {
        if i < |was| { assert old(Links(was, i)); }
      }
    }

    /** Walks a node up until the one above it is not greater. */
    method SiftUp(node: Timer, ghost at: nat)
      requires Linked() && at < |nodes| && nodes[at] == node && OrderedButUp(Keys(nodes), at)
      modifies this`min, this`nodes, Members()`left, Members()`right, Members()`parent
      ensures Valid() && Members() == old(Members()) && |nodes| == |old(nodes)|
    {
      hide Distinct, Less, Between;
      ghost var i: nat := at;
      while true
        invariant Linked() && i < |nodes| && nodes[i] == node && OrderedButUp(Keys(nodes), i)
        invariant Members() == old(Members()) && |nodes| == |old(nodes)|
        decreases i
      {
        assert Links(nodes, i);
        if node.parent == null {
          break;
        }
        var less := LessThan(node, node.parent);
        if !less {
          break;
        }
        SwapUp(Keys(nodes), i);
        NodeSwap(node.parent, node, Up(i), i);
        i := Up(i);
      }
      forall j | 0 < j < |nodes| ensures OrderedAt(Keys(nodes), j) {
      }
    }

    method Insert(node: Timer)
      requires Valid() && node !in nodes
      modifies this, Members()`left, Members()`right, Members()`parent, node`left, node`right, node`parent
      ensures Valid() && Members() == old(Members()) + {node} && |nodes| == |old(nodes)| + 1
    {
      ghost var ks := Keys(nodes);
      Append(node);
      AppendOrdered(ks, Keys(nodes));
      SiftUp(node, |nodes| - 1);
    }

    // Unlinks the last node.
    method UnlinkLast() returns (last: Timer)
      requires Linked() && nelts > 0
      modifies this, Members()`left, Members()`right
      ensures Linked() && nodes == old(nodes)[..|old(nodes)| - 1] && last == old(nodes)[|old(nodes)| - 1]
    {
      hide Distinct, Names;
      ghost var was := nodes;
      ghost var n := |was| - 1;
      var slot, owner := FindSlot(nelts);
      LastNode(was);
      SlotParent(slot, n + 1);
      nelts := nelts - 1;
      assert Links(was, n) && (n > 0 ==> Links(was, Up(n)));
      match slot {
        case MinSlot => last := min; min := null;
        case LeftOf(p) => last := p.left; p.left := null;
        case RightOf(p) => last := p.right; p.right := null;
      }
      nodes := was[..n];
      forall i | 0 <= i < |nodes| ensures Links(nodes, i) {
        assert old(Links(was, i));
      }
    }

    lemma SlotParent(slot: Slot, m: nat)
      requires 1 <= m <= |nodes| + 1 && Names(slot, m)
      ensures slot == if m == 1 then MinSlot
                      else if m == 2 * Up(m - 1) + 3 then RightOf(nodes[Up(m - 1)]) else LeftOf(nodes[Up(m - 1)])
      ensures m > 1 ==> m == 2 * Up(m - 1) + 2 || m == 2 * Up(m - 1) + 3
    {
    }

    // Every link to the node becomes one to the child, which inherits the node's own links.
    method InheritLinks(node: Timer, child: Timer, ghost s: set<Timer>)
      requires forall n {:trigger Tame(s, n)} :: n in s ==> Tame(s, n)
      requires node in s && child !in s && (node.parent == null <==> min == node)
      modifies this`min, s`left, s`right, s`parent, child`left, child`right, child`parent
      ensures min == Substitute(node, child, old(min))
      ensures child.left == old(node.left) && child.right == old(node.right) && child.parent == old(node.parent)
      ensures forall n :: n in s && n != node ==>
        && n.left == Substitute(node, child, old(n.left))
        && n.right == Substitute(node, child, old(n.right))
        && n.parent == Substitute(node, child, old(n.parent))
    {
      hide Tame;
      Pointers(s, node);
      child.left := node.left;
      child.right := node.right;
      child.parent := node.parent;
      if child.left != null {
        child.left.parent := child;
      }
      if child.right != null {
        child.right.parent := child;
      }
      if node.parent == null {
        min := child;
      } else if node.parent.left == node {
        node.parent.left := child;
      } else {
        node.parent.right := child;
      }
    }

    // Puts a node that is not in the tree in the place of one that is.
    method TakePlace(node: Timer, child: Timer, ghost at: nat)
      requires Linked() && at < |nodes| && nodes[at] == node && child !in nodes
      modifies this`min, this`nodes, Members()`left, Members()`right, Members()`parent
      modifies child`left, child`right, child`parent
      ensures Linked() && nodes == old(nodes)[at := child]
    {
      hide Tame, Distinct;
      ghost var was := nodes;
      AllTame(nodes);
      PlaceTaken(was, at, child);
      assert Links(was, at);
      InheritLinks(node, child, Members());
      nodes := nodes[at := child];
      forall i | 0 <= i < |nodes| ensures Links(nodes, i) {
        assert old(Links(was, i)) && was[i] in was;
      }
    }

    // The least of a node and its children.
    method SmallestOf(node: Timer, ghost i: nat) returns (smallest: Timer, ghost c: nat)
      requires Linked() && i < |nodes| && nodes[i] == node
      ensures c < |nodes| && nodes[c] == smallest && (c == i || c == 2 * i + 1 || c == 2 * i + 2)
      ensures c != i ==> Less(KeyOf(smallest), KeyOf(node))
      ensures forall j {:trigger Up(j)} :: 0 < j < |nodes| && Up(j) == i ==> !Less(KeyOf(nodes[j]), KeyOf(smallest))
    {
      assert Links(nodes, i);
      smallest, c := node, i;
      if node.left != null {
        var less := LessThan(node.left, smallest);
        if less {
          smallest, c := node.left, 2 * i + 1;
        }
      }
      if node.right != null {
        var less := LessThan(node.right, smallest);
        if less {
          smallest, c := node.right, 2 * i + 2;
        }
      }
    }

    /** Walks a node down, trading places with its smaller child, until neither child is less. */
    method SiftDown(node: Timer, ghost at: nat) returns (ghost i: nat)
      requires Linked() && at < |nodes| && nodes[at] == node && OrderedBut(Keys(nodes), at)
      modifies this`min, this`nodes, Members()`left, Members()`right, Members()`parent
      ensures Linked() && Members() == old(Members()) && |nodes| == |old(nodes)|
      ensures i < |nodes| && nodes[i] == node && OrderedButUp(Keys(nodes), i)
    {
      i := at;
      while true
        invariant Linked() && i < |nodes| && nodes[i] == node && OrderedBut(Keys(nodes), i)
        invariant Members() == old(Members()) && |nodes| == |old(nodes)|
        decreases |nodes| - i
      {
        var smallest, c := SmallestOf(node, i);
        if smallest == node {
          break;
        }
        SwapDown(Keys(nodes), i, c);
        NodeSwap(node, smallest, i, c);
        i := c;
      }
      SettledDown(Keys(nodes), i);
    }

    method Remove(node: Timer)
      requires Valid() && (nelts > 0 ==> node in nodes)
      modifies this, Members()`left, Members()`right, Members()`parent
      ensures Valid() && Members() == old(Members()) - {node}
      ensures |nodes| == if |old(nodes)| == 0 then 0 else |old(nodes)| - 1
    {
      if nelts == 0 {
        return;
      }
      ghost var was, ks := nodes, Keys(nodes);
      ghost var at :| 0 <= at < |was| && was[at] == node;
      var child := UnlinkLast();
      DropLast(was);
      if child == node {
        PrefixOrdered(ks, Keys(nodes));
        return;
      }
      TakePlace(node, child, at);
      ReplacedMembers(was, at);
      ReplacedOrder(ks, Keys(nodes), at);
      ghost var i := SiftDown(child, at);
      SiftUp(child, i);
    }
  }

  // With one more node at the end, the one above it has one child more, and nothing else changes.
  lemma OneMore(nodes: seq<Timer>, node: Timer)
    requires Distinct(nodes) && node !in nodes
    ensures var more, n := nodes + [node], |nodes|;
      && Distinct(more)
      && (forall k :: 0 <= k ==> At(more, k) == if k == n then node else At(nodes, k))
      && (forall k :: 0 <= k < n ==> ParentAt(more, k) == ParentAt(nodes, k))
      && (n > 0 ==> ParentAt(more, n) == nodes[Up(n)])
      && (n > 0 ==> forall i :: 0 <= i < n && i != Up(n) ==> nodes[i] != nodes[Up(n)])
  {
  }

  // Another node in the place of one.
  lemma PlaceTaken(nodes: seq<Timer>, at: nat, child: Timer)
    requires Distinct(nodes) && at < |nodes| && child !in nodes
    ensures var more := nodes[at := child];
      && Distinct(more)
      && (forall k :: 0 <= k ==> At(more, k) == Substitute(nodes[at], child, At(nodes, k)))
      && (forall k :: 0 <= k < |nodes| ==> ParentAt(more, k) == Substitute(nodes[at], child, ParentAt(nodes, k)))
      && (forall i :: 0 <= i < |nodes| && i != at ==> nodes[i] != nodes[at])
  {
  }

  // Without the last node, its parent has one child less, and nothing else changes.
  lemma LastNode(nodes: seq<Timer>)
    requires Distinct(nodes) && nodes != []
    ensures var n := |nodes| - 1;
      && Distinct(nodes[..n])
      && (forall k :: 0 <= k ==> At(nodes[..n], k) == if k == n then null else At(nodes, k))
      && (forall k :: 0 <= k < n ==> ParentAt(nodes[..n], k) == ParentAt(nodes, k))
      && (n > 0 ==> forall i :: 0 <= i <= n && i != Up(n) ==> nodes[i] != nodes[Up(n)])
  {
  }

  lemma DropLast(nodes: seq<Timer>)
    requires Distinct(nodes) && nodes != []
    ensures NodeSet(nodes[..|nodes| - 1]) == NodeSet(nodes) - {nodes[|nodes| - 1]}
  {
    forall n | n in nodes && n != nodes[|nodes| - 1] ensures n in nodes[..|nodes| - 1] {
      var i :| 0 <= i < |nodes| && nodes[i] == n;
      assert nodes[..|nodes| - 1][i] == n;
    }
  }

  lemma ReplacedMembers(nodes: seq<Timer>, at: nat)
    requires Distinct(nodes) && at < |nodes| - 1
    ensures NodeSet(nodes[..|nodes| - 1][at := nodes[|nodes| - 1]]) == NodeSet(nodes) - {nodes[at]}
  {
    var r := nodes[..|nodes| - 1][at := nodes[|nodes| - 1]];
    forall n | n in nodes && n != nodes[at] ensures n in r {
      var i :| 0 <= i < |nodes| && nodes[i] == n;
      assert r[if i == |nodes| - 1 then at else i] == n;
    }
  }

  lemma PrefixOrdered(ks: seq<Key>, ks2: seq<Key>)
    requires HeapOrdered(ks) && |ks2| <= |ks| && ks2 == ks[..|ks2|]
    ensures HeapOrdered(ks2)
  {
    forall j | 0 < j < |ks2| ensures OrderedAt(ks2, j) {
      assert OrderedAt(ks, j);
    }
  }

  lemma ReplacedOrder(ks: seq<Key>, ks2: seq<Key>, at: nat)
    requires HeapOrdered(ks) && |ks2| <= |ks| && at < |ks2|
    requires forall j :: 0 <= j < |ks2| && j != at ==> ks2[j] == ks[j]
    ensures OrderedBut(ks2, at)
  {
    forall j | 0 < j < |ks2| && j != at && Up(j) != at ensures OrderedAt(ks2, j) {
      assert OrderedAt(ks, j);
    }
    forall j | 0 < j < |ks2| && Up(j) == at && at > 0 ensures !Less(ks2[j], ks2[Up(at)]) {
      assert OrderedAt(ks, j) && OrderedAt(ks, at);
    }
  }

  lemma SettledDown(ks: seq<Key>, i: nat)
    requires OrderedBut(ks, i) && i < |ks|
    requires forall j {:trigger Up(j)} :: 0 < j < |ks| && Up(j) == i ==> !Less(ks[j], ks[i])
    ensures OrderedButUp(ks, i)
  {
    forall j | 0 < j < |ks| && j != i ensures OrderedAt(ks, j) {
      if Up(j) != i {
        assert OrderedAt(ks, j);
      }
    }
  }

  lemma AppendOrdered(ks: seq<Key>, ks2: seq<Key>)
    requires HeapOrdered(ks) && |ks2| == |ks| + 1 && ks == ks2[..|ks|]
    ensures OrderedButUp(ks2, |ks|)
  {
    forall j | 0 < j < |ks2| && j != |ks| ensures OrderedAt(ks2, j) {
      assert OrderedAt(ks, j);
    }
  }
}
