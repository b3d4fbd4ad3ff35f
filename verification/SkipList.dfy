/** The skip list of the memtable: nodes linked in up to twelve levels, published to lock-free readers store by
    store. */
module SkipList {

  // Keys by rank in the order of the comparator.
  type Key = real

  const MAX_HEIGHT: nat := 12

  class Node {
    const key: Key
    var next: seq<Node?>

    constructor (key: Key, height: nat)
      ensures this.key == key && next == seq(height, _ => null)
    {
      this.key := key;
      next := seq(height, _ => null);
    }
  }

  // ---------- lists of one level ----------

  ghost predicate Sorted(list: seq<Node>) {
    forall i, j :: 0 <= i < j < |list| ==> list[i].key < list[j].key
  }

  /** How many nodes come before `key`. */
  ghost function Rank(list: seq<Node>, key: Key): (r: nat)
    ensures r <= |list|
  {
    if list == [] || list[0].key >= key then 0 else 1 + Rank(list[1..], key)
  }

  lemma {:induction false} RankSplits(list: seq<Node>, key: Key)
    requires Sorted(list)
    ensures forall j :: 0 <= j < |list| ==> (list[j].key < key <==> j < Rank(list, key))
  {
    if list != [] && list[0].key < key {
      RankSplits(list[1..], key);
      forall j | 0 <= j < |list| ensures list[j].key < key <==> j < Rank(list, key) {
        if j > 0 {
          assert list[1..][j - 1] == list[j];
        }
      }
    } else if list != [] {
      assert forall j :: 0 < j < |list| ==> list[0].key < list[j].key;
    }
  }

  /** A node has as many before it as its position says: Prev, a search for the last smaller key, steps back by one. */
  lemma RankOfNode(list: seq<Node>, j: nat)
    requires Sorted(list) && j < |list|
    ensures Rank(list, list[j].key) == j
  {
    RankSplits(list, list[j].key);
    assert j > 0 ==> list[j - 1].key < list[j].key;
  }

  // The node before position `p`.
  ghost function Before(head: Node, list: seq<Node>, p: nat): Node
    requires p <= |list|
  {
    if p == 0 then head else list[p - 1]
  }

  ghost function At(list: seq<Node>, p: nat): Node? {
    if p < |list| then list[p] else null
  }

  /** The pointers of level `l` run through `list`. */
  ghost predicate Linked(head: Node, list: seq<Node>, l: nat)
    reads head, list
  {
    && |head.next| > l
    && (forall j :: 0 <= j < |list| ==> list[j] != head && |list[j].next| > l)
    && (forall p :: 0 <= p <= |list| ==> Before(head, list, p).next[l] == At(list, p))
  }

  ghost function With(list: seq<Node>, p: nat, x: Node): seq<Node>
    requires p <= |list|
  {
    list[..p] + [x] + list[p..]
  }

  lemma WithElements(list: seq<Node>, p: nat, x: Node)
    requires p <= |list|
    ensures forall n :: n in With(list, p, x) <==> n == x || n in list
  {
    assert list == list[..p] + list[p..];
  }

  lemma WithSorted(list: seq<Node>, x: Node)
    requires Sorted(list) && forall n :: n in list ==> n.key != x.key
    ensures Sorted(With(list, Rank(list, x.key), x))
  {
    RankSplits(list, x.key);
    var r := Rank(list, x.key);
    hide Rank;
    var more := With(list, r, x);
    forall i, j | 0 <= i < j < |more| ensures more[i].key < more[j].key {
      if i == r {
        assert more[j] == list[j - 1] && list[j - 1] in list;
      } else if j == r {
        assert more[i] == list[i] && list[i] in list;
      }
    }
  }

  lemma BeforeDistinct(head: Node, list: seq<Node>, p: nat, q: nat)
    requires Sorted(list) && head !in list && p <= |list| && q <= |list|
    ensures Before(head, list, p) == Before(head, list, q) ==> p == q
  {
  }

  // A node put between two others.
  lemma LinkedWith(head: Node, list: seq<Node>, l: nat, r: nat, x: Node)
    requires r <= |list| && x != head && |head.next| > l && |x.next| > l
    requires forall j :: 0 <= j < |list| ==> list[j] != head && |list[j].next| > l
    requires forall p :: 0 <= p <= |list| && p != r ==> Before(head, list, p).next[l] == At(list, p)
    requires Before(head, list, r).next[l] == x && x.next[l] == At(list, r)
    ensures Linked(head, With(list, r, x), l)
  {
    var more := With(list, r, x);
    forall p | 0 <= p <= |more| ensures Before(head, more, p).next[l] == At(more, p) {
      if p <= r {
        assert Before(head, more, p) == Before(head, list, p);
      } else if p > r + 1 {
        assert Before(head, more, p) == Before(head, list, p - 1);
      }
    }
  }

  // ---------- the list ----------

  class List {
    const head: Node
    var maxHeight: nat
    ghost var lists: seq<seq<Node>>      // the nodes of each level, in order
    ghost var nodes: set<Node>

    ghost predicate Valid()
      reads this, nodes
    {
      && 1 <= maxHeight <= MAX_HEIGHT
      && |lists| == MAX_HEIGHT
      && head in nodes
      && (forall l :: 0 <= l < MAX_HEIGHT ==> LevelOk(l))
      && (forall l :: 0 < l < MAX_HEIGHT ==> Subset(l))
    }

    ghost predicate LevelOk(l: nat)
      requires l < |lists| && head in nodes
      reads this, nodes
    {
      && (forall n :: n in lists[l] ==> n in nodes)
      && Sorted(lists[l])
      && Linked(head, lists[l], l)
      && (l >= maxHeight ==> lists[l] == [])
    }

    /** The nodes of a level are on the level below too. */
    ghost predicate Subset(l: nat)
      requires 0 < l < |lists|
      reads this
    {
      forall n :: n in lists[l] ==> n in lists[l - 1]
    }

    /** A reader searching for `key` may stand on `x` at this level. */
    ghost predicate Stands(key: Key, x: Node, level: nat)
      reads this
    {
      level < |lists| && (x == head || (x in lists[level] && x.key < key))
    }

    /** The first node not before `key`, as the list stands. */
    ghost function First(key: Key): Node?
      requires lists != []
      reads this
    {
      At(lists[0], Rank(lists[0], key))
    }

    constructor ()
      ensures Valid() && fresh(nodes) && lists == seq(MAX_HEIGHT, _ => [])
    {
      head := new Node(0.0, MAX_HEIGHT);
      maxHeight := 1;
      new;
      lists := seq(MAX_HEIGHT, _ => []);
      nodes := {head};
    }

    // One load of a search: the node behind `x`, and what it says about `x`.
    method Next(x: Node, level: nat, ghost key: Key) returns (next: Node?)
      requires Valid() && Stands(key, x, level)
      ensures |x.next| > level && next == x.next[level]
      ensures next != null ==> next in lists[level] && (x == head || x.key < next.key)
      ensures next != null && next.key < key ==> Stands(key, next, level)
      ensures next == null || next.key >= key ==>
        x == Before(head, lists[level], Rank(lists[level], key)) && next == At(lists[level], Rank(lists[level], key))
    {
      ghost var list := lists[level];
      assert LevelOk(level);
      ghost var p :| 0 <= p <= |list| && x == Before(head, list, p) by {
        if x == head {
          assert x == Before(head, list, 0);
        } else {
          var j :| 0 <= j < |list| && list[j] == x;
          assert x == Before(head, list, j + 1);
        }
      }
      RankSplits(list, key);
      next := x.next[level];
    }

    /** The first node not before `key`, and the node before that place on every level in use. */
    method FindGreaterOrEqual(key: Key) returns (node: Node?, prev: seq<Node>)
      requires Valid()
      ensures node == First(key)
      ensures |prev| == MAX_HEIGHT
      ensures forall l :: 0 <= l < maxHeight ==> prev[l] == Before(head, lists[l], Rank(lists[l], key))
    {
      prev := seq(MAX_HEIGHT, _ => head);
      var x: Node, level: nat := head, maxHeight - 1;
      while true
        invariant level < maxHeight && Stands(key, x, level) && |prev| == MAX_HEIGHT
        invariant forall l :: level < l < maxHeight ==> prev[l] == Before(head, lists[l], Rank(lists[l], key))
        decreases level, KeysBehind(lists[level], head, x)
      {
        var next := Next(x, level, key);
        if next != null && next.key < key {
          assert LevelOk(level);
          FewerBehind(lists[level], head, x, next);
          x := next;
        } else {
          prev := prev[level := x];
          if level == 0 {
            return next, prev;
          }
          assert Subset(level);
          level := level - 1;
        }
      }
    }

    method FindLessThan(key: Key) returns (x: Node)
      requires Valid()
      ensures x == Before(head, lists[0], Rank(lists[0], key))
    {
      var level: nat := maxHeight - 1;
      x := head;
      while true
        invariant level < maxHeight && Stands(key, x, level)
        decreases level, KeysBehind(lists[level], head, x)
      {
        var next := Next(x, level, key);
        if next == null || next.key >= key {
          if level == 0 {
            return;
          }
          assert Subset(level);
          level := level - 1;
        } else {
          assert LevelOk(level);
          FewerBehind(lists[level], head, x, next);
          x := next;
        }
      }
    }

    method FindLast() returns (x: Node)
      requires Valid()
      ensures x == Before(head, lists[0], |lists[0]|)
    {
      var level: nat := maxHeight - 1;
      x := head;
      while true
        invariant level < maxHeight && (x == head || x in lists[level])
        decreases level, KeysBehind(lists[level], head, x)
      {
        assert LevelOk(level);
        ghost var above := if x == head then 0.0 else x.key + 1.0;
        assert Stands(above, x, level);
        var next := Next(x, level, above);
        if next == null {
          if level == 0 {
            LastOfLevel(x);
            return;
          }
          assert Subset(level);
          level := level - 1;
        } else {
          FewerBehind(lists[level], head, x, next);
          x := next;
        }
      }
    }

    lemma LastOfLevel(x: Node)
      requires Valid() && (x == head || x in lists[0]) && |x.next| > 0 && x.next[0] == null
      ensures x == Before(head, lists[0], |lists[0]|)
    {
      assert LevelOk(0);
      var list := lists[0];
      if x == head {
        assert Before(head, list, 0).next[0] == At(list, 0);
      } else {
        var j :| 0 <= j < |list| && list[j] == x;
        assert Before(head, list, j + 1).next[0] == At(list, j + 1);
      }
    }

    method Contains(key: Key) returns (found: bool)
      requires Valid()
      ensures found <==> exists n :: n in lists[0] && n.key == key
    {
      assert LevelOk(0);
      RankSplits(lists[0], key);
      var x, _ := FindGreaterOrEqual(key);
      found := x != null && x.key == key;
      assert forall n :: n in lists[0] ==> exists j :: 0 <= j < |lists[0]| && lists[0][j] == n;
    }

    // ---------- insertion, store by store ----------

    /** `x` is linked on the levels below `i`, and `prev` are the nodes to link it behind on the others. */
    ghost predicate Inserting(x: Node, prev: seq<Node>, height: nat, i: nat)
      reads this, nodes, x
    {
      && i <= height <= MAX_HEIGHT && |x.next| == height
      && |prev| == |lists| == MAX_HEIGHT && x != head
      && (forall l :: 0 <= l < i ==> x in lists[l])
      && (forall l :: i <= l < height ==> prev[l] == Before(head, lists[l], Rank(lists[l], x.key)))
      && (forall l, n :: i <= l < MAX_HEIGHT && n in lists[l] ==> n.key != x.key)
    }

    method RaiseHeight(height: nat)
      requires Valid() && height <= MAX_HEIGHT
      modifies this`maxHeight
      ensures Valid() && maxHeight == if height > old(maxHeight) then height else old(maxHeight)
    {
      if height > maxHeight {
        maxHeight := height;
      }
      forall l | 0 <= l < MAX_HEIGHT ensures LevelOk(l) {
        assert old(LevelOk(l));
      }
      forall l | 0 < l < MAX_HEIGHT ensures Subset(l) {
        assert old(Subset(l));
      }
    }

    // The new node's own pointer; no reader is there yet.
    method SetOwn(x: Node, prev: seq<Node>, ghost height: nat, i: nat)
      requires Valid() && Inserting(x, prev, height, i) && i < height
      modifies x`next
      ensures Valid() && Inserting(x, prev, height, i)
      ensures x.next[i] == At(lists[i], Rank(lists[i], x.key))
    {
      assert LevelOk(i);
      var next := prev[i].next[i];
      x.next := x.next[i := next];
      forall l | 0 <= l < MAX_HEIGHT ensures LevelOk(l) {
        assert old(LevelOk(l));
        if l >= i {
          assert x !in lists[l];
        }
      }
      forall l | 0 < l < MAX_HEIGHT ensures Subset(l) {
        assert old(Subset(l));
      }
    }

    // The store that makes the node visible on level `i`.
    method Publish(x: Node, prev: seq<Node>, ghost height: nat, i: nat)
      requires Valid() && Inserting(x, prev, height, i) && i < height <= maxHeight
      requires x.next[i] == At(lists[i], Rank(lists[i], x.key))
      modifies this`lists, this`nodes, {prev[i]}`next
      ensures Valid() && Inserting(x, prev, height, i + 1)
      ensures lists == old(lists)[i := With(old(lists[i]), Rank(old(lists[i]), x.key), x)]
      ensures nodes == old(nodes) + {x}
      ensures x.next == old(x.next)
    {
      hide With, Rank, Linked, Sorted;
      assert LevelOk(i);
      ghost var list, r := lists[i], Rank(lists[i], x.key);
      WithSorted(list, x);
      LinkBehind(x, prev[i], i, r);
      WithElements(list, r, x);
      lists := lists[i := With(list, r, x)];
      nodes := nodes + {x};
      forall l | 0 <= l < MAX_HEIGHT ensures LevelOk(l) {
        assert old(LevelOk(l));
      }
      forall l | 0 < l < MAX_HEIGHT ensures Subset(l) {
        assert old(Subset(l));
      }
    }

    // The store itself: the pointers of one level now run through the node as well, those of the others as before.
    method LinkBehind(x: Node, before: Node, i: nat, ghost r: nat)
      requires Valid() && i < MAX_HEIGHT && r <= |lists[i]| && before == Before(head, lists[i], r)
      requires x != head && x !in lists[i] && before != x && |x.next| > i && x.next[i] == At(lists[i], r)
      modifies before`next
      ensures Linked(head, With(lists[i], r, x), i) && |before.next| == |old(before.next)|
      ensures forall l :: 0 <= l < MAX_HEIGHT && l != i ==> Linked(head, lists[l], l)
    {
      hide With, Rank;
      assert LevelOk(i);
      ghost var list := lists[i];
      forall p | 0 <= p <= |list| && p != r ensures Before(head, list, p) != before {
        BeforeDistinct(head, list, p, r);
      }
      before.next := before.next[i := x];
      LinkedWith(head, list, i, r, x);
      forall l | 0 <= l < MAX_HEIGHT && l != i ensures Linked(head, lists[l], l) {
        assert old(LevelOk(l));
      }
    }

    ghost predicate Absent(key: Key)
      reads this
    {
      forall l, n :: 0 <= l < |lists| && n in lists[l] ==> n.key != key
    }

    /** A new node, linked nowhere yet, and its neighbours to come. */
    method NewNode(key: Key, height: nat) returns (x: Node, prev: seq<Node>)
      requires Valid() && 0 < height <= MAX_HEIGHT && Absent(key)
      ensures Valid() && fresh(x) && x.key == key && Inserting(x, prev, height, 0)
    {
      var node;
      node, prev := FindGreaterOrEqual(key);
      forall l | maxHeight <= l < MAX_HEIGHT ensures lists[l] == [] {
        assert LevelOk(l);
      }
      if height > maxHeight {
        for l := maxHeight to height
          invariant |prev| == MAX_HEIGHT && forall k :: maxHeight <= k < l ==> prev[k] == head
          invariant forall k :: 0 <= k < maxHeight ==> prev[k] == Before(head, lists[k], Rank(lists[k], key))
        {
          prev := prev[l := head];
        }
      }
      x := new Node(key, height);
    }

    /** The levels of the list with a node of the given height put in. */
    ghost function Inserted(before: seq<seq<Node>>, x: Node, height: nat): seq<seq<Node>> {
      seq(|before|, l requires 0 <= l < |before| =>
        if l < height then With(before[l], Rank(before[l], x.key), x) else before[l])
    }

    /** Puts in a new key; `height` is the random choice. */
    method Insert(key: Key, height: nat) returns (x: Node)
      requires Valid() && 0 < height <= MAX_HEIGHT && Absent(key)
      modifies this, nodes
      ensures Valid() && fresh(x) && x.key == key
      ensures lists == Inserted(old(lists), x, height) && nodes == old(nodes) + {x}
    {
      hide Rank, With;
      var prev;
      x, prev := NewNode(key, height);
      RaiseHeight(height);
      for i := 0 to height
        invariant Valid() && Inserting(x, prev, height, i) && height <= maxHeight
        invariant lists == Inserted(old(lists), x, i)
        invariant nodes == if i == 0 then old(nodes) else old(nodes) + {x}
      {
        PrevInNodes(x, prev, height, i);
        SetOwn(x, prev, height, i);
        Publish(x, prev, height, i);
      }
    }

    lemma PrevInNodes(x: Node, prev: seq<Node>, height: nat, i: nat)
      requires Valid() && Inserting(x, prev, height, i) && i < height
      ensures prev[i] in nodes && prev[i] != x
    {
      assert LevelOk(i);
    }
  }

  // ---------- readers beside a writer ----------

  /** A search in progress; each step is one load of a pointer. */
  class Reader {
    const list: List
    const key: Key
    var x: Node
    var level: nat

    ghost predicate Ok()
      reads this, list
    {
      list.Stands(key, x, level)
    }

    /** `height` is what the relaxed load of the height in use returns. Any will do, and so the search may begin at any
        time: on the head it stands right whatever the list is. */
    constructor (list: List, key: Key, height: nat)
      requires list.Valid() && 1 <= height <= MAX_HEIGHT
      ensures Ok() && this.list == list && this.key == key && x == list.head && level == height - 1
    {
      this.list, this.key := list, key;
      x, level := list.head, height - 1;
    }

    /** When the search ends, its answer is right for the list as it stands at that load. */
    method Step() returns (done: bool, node: Node?)
      requires list.Valid() && Ok()
      modifies this`x, this`level
      ensures Ok()
      ensures done ==> node == list.First(key)
      ensures level <= old(level)
      ensures !done && level == old(level) ==>
        KeysBehind(list.lists[level], list.head, x) < KeysBehind(list.lists[level], list.head, old(x))
    {
      done, node := false, null;
      var next := list.Next(x, level, key);
      if next != null && next.key < key {
        assert list.LevelOk(level);
        FewerBehind(list.lists[level], list.head, x, next);
        x := next;
      } else if level == 0 {
        return true, next;
      } else {
        assert list.Subset(level);
        level := level - 1;
      }
    }
  }

  /** A reader's answer, and whether the writer had published its node by then. */
  datatype Answer = Answer(reader: nat, node: Node?, published: bool)

  ghost predicate Right(a: Answer, readers: seq<Reader>, before: seq<Node>, after: seq<Node>) {
    && a.reader < |readers|
    && var list := if a.published then after else before;
       a.node == At(list, Rank(list, readers[a.reader].key))
  }

  ghost predicate AllRight(answers: seq<Answer>, readers: seq<Reader>, before: seq<Node>, after: seq<Node>) {
    forall a :: a in answers ==> Right(a, readers, before, after)
  }

  // Nothing is said to be published before it is.
  ghost predicate NonePublished(answers: seq<Answer>) {
    forall a :: a in answers ==> !a.published
  }

  lemma NowPublished(answers: seq<Answer>, readers: seq<Reader>, before: seq<Node>, after: seq<Node>, after2: seq<Node>)
    requires AllRight(answers, readers, before, after) && NonePublished(answers)
    ensures AllRight(answers, readers, before, after2)
  {
    forall a | a in answers ensures Right(a, readers, before, after2) {
      assert Right(a, readers, before, after);
    }
  }

  /** How far the writer has come: whether the new height is in place, on how many levels the node is linked, and
      whether its own pointer for the next level is set. */
  datatype Stage = Stage(raised: bool, linked: nat, own: bool) {
    function Next(): Stage {
      if !raised then this.(raised := true)
      else if own then this.(linked := linked + 1, own := false)
      else this.(own := true)
    }
  }

  /** The writer between two stores. */
  ghost predicate Writing(list: List, x: Node, prev: seq<Node>, height: nat, stage: Stage, before: seq<seq<Node>>,
                          nodes: set<Node>)
    reads list, list.nodes, x
  {
    && list.Valid() && list.Inserting(x, prev, height, stage.linked)
    && (if stage.raised then height <= list.maxHeight else stage.linked == 0 && !stage.own)
    && list.lists == list.Inserted(before, x, stage.linked)
    && list.nodes == (if stage.linked == 0 then nodes else nodes + {x})
    && (stage.own ==>
          && stage.linked < height
          && x.next[stage.linked] == At(list.lists[stage.linked], Rank(list.lists[stage.linked], x.key)))
  }

  lemma NothingWritten(list: List, x: Node, prev: seq<Node>, height: nat, stage: Stage)
    requires list.Valid() && list.Inserting(x, prev, height, 0) && stage == Stage(false, 0, false)
    ensures Writing(list, x, prev, height, stage, list.lists, list.nodes)
  {
  }

  lemma WritingIs(list: List, x: Node, prev: seq<Node>, height: nat, stage: Stage, before: seq<seq<Node>>,
                  nodes: set<Node>)
    requires Writing(list, x, prev, height, stage, before, nodes)
    ensures list.Valid() && list.nodes <= nodes + {x} && list.lists == list.Inserted(before, x, stage.linked)
  {
  }

  // Its next store.
  method WriterStep(list: List, x: Node, prev: seq<Node>, height: nat, stage: Stage, ghost before: seq<seq<Node>>,
                    ghost nodes: set<Node>)
    requires Writing(list, x, prev, height, stage, before, nodes) && stage.linked < height
    modifies list`maxHeight, list`lists, list`nodes, list.nodes, x
    ensures Writing(list, x, prev, height, stage.Next(), before, nodes) && |list.lists| == MAX_HEIGHT
    ensures forall l, n :: 0 <= l < MAX_HEIGHT && n in old(list.lists[l]) ==> n in list.lists[l]
    ensures stage.linked > 0 || stage.Next().linked == 0 ==> list.lists[0] == old(list.lists[0])
  {
    hide Rank, With;
    list.PrevInNodes(x, prev, height, stage.linked);
    if !stage.raised {
      list.RaiseHeight(height);
    } else if stage.own {
      WithElements(list.lists[stage.linked], Rank(list.lists[stage.linked], x.key), x);
      list.Publish(x, prev, height, stage.linked);
    } else {
      list.SetOwn(x, prev, height, stage.linked);
    }
  }

  // One load by a reader; the answer, if that ends its search, is noted.
  method ReaderTurn(list: List, readers: seq<Reader>, who: nat, published: bool, answers: seq<Answer>,
                    ghost before: seq<Node>)
    returns (more: seq<Answer>)
    requires list.Valid() && who < |readers| && forall r :: r in readers ==> r.list == list && r.Ok()
    requires AllRight(answers, readers, before, list.lists[0]) && (!published ==> before == list.lists[0])
    requires !published ==> NonePublished(answers)
    modifies readers
    ensures forall r :: r in readers ==> r.Ok()
    ensures AllRight(more, readers, before, list.lists[0]) && (!published ==> NonePublished(more))
  {
    hide Rank, AllRight, NonePublished;
    var done, node := readers[who].Step();
    more := answers;
    if done {
      var a := Answer(who, node, published);
      OneAnswer(answers, a, readers, before, list.lists[0]);
      more := more + [a];
    }
  }

  /** An insertion with readers at work: `schedule` says who moves next, the writer (0) or a reader, until it is used
      up. A reader that stands on the head may begin at any point. Before the writer's store on level 0 readers find
      the old list, behind it the new one. */
  method InsertAmongReaders(list: List, key: Key, height: nat, readers: seq<Reader>, schedule: seq<nat>)
    returns (x: Node, linked: nat, answers: seq<Answer>)
    requires list.Valid() && 0 < height <= MAX_HEIGHT && list.Absent(key)
    requires forall r :: r in readers ==> r.list == list && r.Ok()
    modifies list, list.nodes, readers
    ensures list.Valid() && linked <= height && list.lists == list.Inserted(old(list.lists), x, linked)
    ensures x.key == key && fresh(x)
    ensures forall r :: r in readers ==> r.Ok()
    ensures AllRight(answers, readers, old(list.lists[0]), list.lists[0])
    ensures linked == 0 ==> NonePublished(answers)
  {
    hide Rank, With, Writing, AllRight, NonePublished;
    ghost var before, nodes := list.lists, list.nodes;
    var prev;
    x, prev := list.NewNode(key, height);
    var stage := Stage(false, 0, false);
    NothingWritten(list, x, prev, height, stage);
    answers := [];
    var t := 0;
    NoAnswers(readers, before[0], list.lists[0]);
    while t < |schedule|
      invariant Writing(list, x, prev, height, stage, before, nodes) && stage.linked <= height
      invariant list.Valid() && list.nodes <= nodes + {x}
      invariant forall r :: r in readers ==> r.Ok()
      invariant AllRight(answers, readers, before[0], list.lists[0])
      invariant stage.linked == 0 ==> NonePublished(answers) && list.lists[0] == before[0]
      decreases |schedule| - t
    {
      var who := schedule[t];
      t := t + 1;
      if who == 0 {
        if stage.linked < height {
          ghost var level0 := list.lists[0];
          WriterStep(list, x, prev, height, stage, before, nodes);
          if stage.linked == 0 {
            NowPublished(answers, readers, before[0], level0, list.lists[0]);
          }
          stage := stage.Next();
          WritingIs(list, x, prev, height, stage, before, nodes);
        }
      } else if who <= |readers| {
        answers := ReaderTurn(list, readers, who - 1, stage.linked > 0, answers, before[0]);
      }
    }
    WritingIs(list, x, prev, height, stage, before, nodes);
    linked := stage.linked;
  }

  lemma NoAnswers(readers: seq<Reader>, before: seq<Node>, after: seq<Node>)
    ensures AllRight([], readers, before, after) && NonePublished([])
  {
  }

  lemma OneAnswer(answers: seq<Answer>, a: Answer, readers: seq<Reader>, before: seq<Node>, after: seq<Node>)
    requires AllRight(answers, readers, before, after) && Right(a, readers, before, after)
    ensures AllRight(answers + [a], readers, before, after)
    ensures NonePublished(answers) && !a.published ==> NonePublished(answers + [a])
  {
  }

  /** How far a search can still go on a level. */
  ghost function KeysBehind(list: seq<Node>, head: Node, x: Node): nat {
    if x == head then |list| + 1 else if x in list then |list| - Rank(list, x.key) else 0
  }

  lemma FewerBehind(list: seq<Node>, head: Node, x: Node, next: Node)
    requires Sorted(list) && head !in list && next in list
    requires x == head || (x in list && x.key < next.key)
    ensures KeysBehind(list, head, next) < KeysBehind(list, head, x)
  {
    RankSplits(list, next.key);
    if x != head {
      RankSplits(list, x.key);
      var i :| 0 <= i < |list| && list[i] == x;
    }
  }
}
