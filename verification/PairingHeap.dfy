/**
 * The pairing heap that lives in one array of (child, sibling, parent) records, together with the
 * free list threaded through the same sibling links. Ids count from 1, and 0 means none. The
 * comparator is "less than" on a key per id; any strict weak order of the ids has such a key.
 */
module PairingHeap {

  datatype Node = Node(child: nat, sibling: nat, parent: nat)

  /** A list of sibling trees: the first tree's root and children, then its siblings. */
  datatype Forest = Nil | Tree(id: nat, kids: Forest, next: Forest)

  function Ids(f: Forest): set<nat> {
    match f
    case Nil => {}
    case Tree(id, kids, next) => {id} + Ids(kids) + Ids(next)
  }

  /** The ids of the list itself, without those of the subtrees. */
  function Tops(f: Forest): set<nat> {
    match f
    case Nil => {}
    case Tree(id, _, next) => {id} + Tops(next)
  }

  /** No id occurs twice. */
  ghost predicate Distinct(f: Forest) {
    match f
    case Nil => true
    case Tree(id, kids, next) =>
      && id !in Ids(kids) && id !in Ids(next) && Ids(kids) !! Ids(next)
      && Distinct(kids) && Distinct(next)
  }

  function At(n: seq<Node>, id: nat): Node
    requires 1 <= id <= |n|
  {
    n[id - 1]
  }

  /** The records of f's ids are linked as f says, from head, with the given parent. */
  ghost predicate Links(n: seq<Node>, head: nat, parent: nat, f: Forest)
    decreases f
  {
    match f
    case Nil => head == 0
    case Tree(id, kids, next) =>
      && head == id && 1 <= id <= |n| && At(n, id).parent == parent
      && Links(n, At(n, id).child, id, kids)
      && Links(n, At(n, id).sibling, parent, next)
  }

  /** id is the root of a tree with the given children, and has no siblings. */
  ghost predicate Rooted(n: seq<Node>, id: nat, kids: Forest) {
    && 1 <= id <= |n| && At(n, id).sibling == 0
    && Links(n, At(n, id).child, id, kids)
    && id !in Ids(kids) && Distinct(kids)
  }

  /** f is empty and id 0, or f is one tree rooted at id. */
  ghost predicate IsTree(n: seq<Node>, id: nat, f: Forest) {
    match f
    case Nil => id == 0
    case Tree(r, kids, next) => r == id && next == Nil && Rooted(n, id, kids)
  }

  /** Heap order: every key is at least its parent's, and the keys of the list are at least lo. */
  ghost predicate Ordered(key: seq<int>, f: Forest, lo: int)
    decreases f
  {
    match f
    case Nil => true
    case Tree(id, kids, next) =>
      && 1 <= id <= |key| && lo <= key[id - 1]
      && Ordered(key, kids, key[id - 1])
      && Ordered(key, next, lo)
  }

  ghost predicate HeapOrdered(key: seq<int>, f: Forest) {
    f.Tree? ==> 1 <= f.id <= |key| && Ordered(key, f, key[f.id - 1])
  }

  lemma {:induction false} LinksFrame(n: seq<Node>, m: seq<Node>, head: nat, parent: nat, f: Forest)
    requires Links(n, head, parent, f) && |n| == |m|
    requires forall i :: i in Ids(f) && 1 <= i <= |n| ==> At(m, i) == At(n, i)
    ensures Links(m, head, parent, f)
    decreases f
  {
    match f
    case Nil =>
    case Tree(id, kids, next) =>
      LinksFrame(n, m, At(n, id).child, id, kids);
      LinksFrame(n, m, At(n, id).sibling, parent, next);
  }

  lemma {:induction false} LinkedIdsInRange(n: seq<Node>, head: nat, parent: nat, f: Forest)
    requires Links(n, head, parent, f)
    ensures forall i :: i in Ids(f) ==> 1 <= i <= |n|
    decreases f
  {
    match f
    case Nil =>
    case Tree(id, kids, next) =>
      LinkedIdsInRange(n, At(n, id).child, id, kids);
      LinkedIdsInRange(n, At(n, id).sibling, parent, next);
  }

  /** In heap order every key is at least the bound of its list. */
  lemma {:induction false} OrderedIsBounded(key: seq<int>, f: Forest, lo: int)
    requires Ordered(key, f, lo)
    ensures forall i :: i in Ids(f) ==> 1 <= i <= |key| && lo <= key[i - 1]
    decreases f
  {
    match f
    case Nil =>
    case Tree(id, kids, next) =>
      OrderedIsBounded(key, kids, key[id - 1]);
      OrderedIsBounded(key, next, lo);
  }

  /** The root of a heap-ordered tree has the least key in it. */
  lemma RootIsMinimal(key: seq<int>, f: Forest)
    requires f.Tree? && f.next == Nil && HeapOrdered(key, f)
    ensures forall i :: i in Ids(f) ==> 1 <= i <= |key| && key[f.id - 1] <= key[i - 1]
  {
    OrderedIsBounded(key, f, key[f.id - 1]);
  }

  lemma {:induction false} OrderedLower(key: seq<int>, f: Forest, lo: int, low: int)
    requires Ordered(key, f, lo) && low <= lo
    ensures Ordered(key, f, low)
    decreases f
  {
    match f
    case Nil =>
    case Tree(id, kids, next) =>
      OrderedLower(key, next, lo, low);
  }

  /** The records after ph_add_child_node. */
  function WithChild(n: seq<Node>, p: nat, c: nat): (m: seq<Node>)
    requires 1 <= p <= |n| && 1 <= c <= |n| && p != c
    ensures |m| == |n|
  {
    var child := At(n, c).(parent := p);
    n[c - 1 := if At(n, p).child == 0 then child else child.(sibling := At(n, p).child)]
     [p - 1 := At(n, p).(child := c)]
  }

  /** Pushing a tree on the front of another tree's children. */
  lemma ChildAdded(n: seq<Node>, p: nat, kp: Forest, c: nat, kc: Forest)
    requires Rooted(n, p, kp) && Rooted(n, c, kc)
    requires p != c && p !in Ids(kc) && c !in Ids(kp) && Ids(kp) !! Ids(kc)
    ensures Rooted(WithChild(n, p, c), p, Tree(c, kc, kp))
  {
    var m := WithChild(n, p, c);
    LinksFrame(n, m, At(n, p).child, p, kp);
    LinksFrame(n, m, At(n, c).child, c, kc);
  }

  ghost predicate SameOutside(n: seq<Node>, m: seq<Node>, ids: set<nat>) {
    |m| == |n| && forall i :: 1 <= i <= |n| && i !in ids ==> At(m, i) == At(n, i)
  }

  /** The ids two trees have between them, and the one with the lesser key on top. */
  ghost predicate Merged(n: seq<Node>, key: seq<int>, a: nat, fa: Forest, b: nat, fb: Forest,
                         m: seq<Node>, r: nat, f: Forest) {
    && IsTree(m, r, f) && Ids(f) == Ids(fa) + Ids(fb) && HeapOrdered(key, f)
    && SameOutside(n, m, Ids(f))
    && (r != 0 ==> At(m, r).parent == At(n, r).parent)
    && r == (if a == 0 then b else if b == 0 then a
             else if 1 <= a <= |key| && 1 <= b <= |key| && key[a - 1] < key[b - 1] then a else b)
  }

  method AddChildNode(nodes: array<Node>, p: nat, c: nat)
    requires 1 <= p <= nodes.Length && 1 <= c <= nodes.Length && p != c
    modifies nodes
    ensures nodes[..] == WithChild(old(nodes[..]), p, c)
  {
    nodes[c - 1] := nodes[c - 1].(parent := p);
    if nodes[p - 1].child == 0 {
      nodes[p - 1] := nodes[p - 1].(child := c);
    } else {
      nodes[c - 1] := nodes[c - 1].(sibling := nodes[p - 1].child);
      nodes[p - 1] := nodes[p - 1].(child := c);
    }
  }

  /** ph_merge_nodes */
  method MergeNodes(nodes: array<Node>, key: seq<int>, a: nat, b: nat, ghost fa: Forest, ghost fb: Forest)
    returns (r: nat, ghost f: Forest)
    requires |key| == nodes.Length
    requires IsTree(nodes[..], a, fa) && IsTree(nodes[..], b, fb) && Ids(fa) !! Ids(fb)
    requires HeapOrdered(key, fa) && HeapOrdered(key, fb)
    modifies nodes
    ensures Merged(old(nodes[..]), key, a, fa, b, fb, nodes[..], r, f)
  {
    if a == 0 {
      return b, fb;
    }
    if b == 0 {
      return a, fa;
    }
    if key[a - 1] < key[b - 1] {
      ChildAdded(nodes[..], a, fa.kids, b, fb.kids);
      AddChildNode(nodes, a, b);
      return a, Tree(a, Tree(b, fb.kids, fa.kids), Nil);
    } else {
      ChildAdded(nodes[..], b, fb.kids, a, fa.kids);
      AddChildNode(nodes, b, a);
      return b, Tree(b, Tree(a, fa.kids, fb.kids), Nil);
    }
  }

  lemma IsTreeFrame(n: seq<Node>, m: seq<Node>, id: nat, f: Forest, ids: set<nat>)
    requires IsTree(n, id, f) && SameOutside(n, m, ids) && Ids(f) !! ids
    ensures IsTree(m, id, f)
  {
    if f.Tree? {
      LinksFrame(n, m, At(n, id).child, id, f.kids);
    }
  }

  /** The only tree of a list of one. */
  lemma SingleTree(n: seq<Node>, key: seq<int>, head: nat, parent: nat, f: Forest, lo: int)
    requires Links(n, head, parent, f) && Distinct(f) && Ordered(key, f, lo)
    requires head == 0 || At(n, head).sibling == 0
    ensures IsTree(n, head, f) && HeapOrdered(key, f)
  {
  }

  /** Cutting the first two trees off a list of siblings. */
  lemma CutPair(n: seq<Node>, m: seq<Node>, key: seq<int>, head: nat, parent: nat, f: Forest, lo: int)
    requires Links(n, head, parent, f) && Distinct(f) && Ordered(key, f, lo)
    requires head != 0 && At(n, head).sibling != 0
    requires var b := At(n, head).sibling;
             1 <= b <= |n| && m == n[head - 1 := At(n, head).(sibling := 0)][b - 1 := At(n, b).(sibling := 0)]
    ensures f.Tree? && f.next.Tree? && f.id == head && f.next.id == At(n, head).sibling
    ensures var b, rest := f.next.id, f.next.next;
            var fa, fb := Tree(head, f.kids, Nil), Tree(b, f.next.kids, Nil);
            && IsTree(m, head, fa) && HeapOrdered(key, fa)
            && IsTree(m, b, fb) && HeapOrdered(key, fb)
            && Ids(fa) !! Ids(fb) && (Ids(fa) + Ids(fb)) !! Ids(rest)
            && Ids(f) == Ids(fa) + Ids(fb) + Ids(rest)
            && Links(m, At(n, b).sibling, parent, rest) && Distinct(rest) && Ordered(key, rest, lo)
            && SameOutside(n, m, Ids(f))
  {
    var b := At(n, head).sibling;
    SecondInRange(n, head, parent, f);
    PairCut(n, m, head, b);
    hide Links, Distinct, Ordered, IsTree, HeapOrdered, Ids, At;
    CutPairFrom(n, m, key, head, b, parent, f, lo);
  }

  lemma PairCut(n: seq<Node>, m: seq<Node>, a: nat, b: nat)
    requires 1 <= a <= |n| && 1 <= b <= |n| && a != b
    requires m == n[a - 1 := At(n, a).(sibling := 0)][b - 1 := At(n, b).(sibling := 0)]
    ensures At(m, a) == At(n, a).(sibling := 0) && At(m, b) == At(n, b).(sibling := 0) && SameOutside(n, m, {a, b})
  {
  }

  lemma CutPairFrom(n: seq<Node>, m: seq<Node>, key: seq<int>, head: nat, b: nat, parent: nat, f: Forest, lo: int)
    requires Links(n, head, parent, f) && Distinct(f) && Ordered(key, f, lo)
    requires head != 0 && 1 <= b <= |n| && At(n, head).sibling == b && SameOutside(n, m, {head, b})
    requires At(m, head) == At(n, head).(sibling := 0) && At(m, b) == At(n, b).(sibling := 0)
    ensures f.Tree? && f.next.Tree? && f.id == head && f.next.id == b
    ensures var rest := f.next.next;
            var fa, fb := Tree(head, f.kids, Nil), Tree(b, f.next.kids, Nil);
            && IsTree(m, head, fa) && HeapOrdered(key, fa)
            && IsTree(m, b, fb) && HeapOrdered(key, fb)
            && Ids(fa) !! Ids(fb) && (Ids(fa) + Ids(fb)) !! Ids(rest)
            && Ids(f) == Ids(fa) + Ids(fb) + Ids(rest)
            && Links(m, At(n, b).sibling, parent, rest) && Distinct(rest) && Ordered(key, rest, lo)
            && SameOutside(n, m, Ids(f))
  {
    PairLinks(n, key, head, parent, f, lo);
    PairIds(f);
    hide Links, Distinct, Ordered, IsTree, HeapOrdered, Ids, At;
    CutFirst(n, m, key, head, parent, f, lo);
    CutFirst(n, m, key, b, parent, f.next, lo);
    LinksFrame(n, m, At(n, b).sibling, parent, f.next.next);
  }

  /** The first two trees of a list of siblings and the rest of it. */
  lemma PairLinks(n: seq<Node>, key: seq<int>, head: nat, parent: nat, f: Forest, lo: int)
    requires Links(n, head, parent, f) && Distinct(f) && Ordered(key, f, lo)
    requires head != 0 && At(n, head).sibling != 0
    ensures f.Tree? && f.next.Tree? && f.id == head && f.next.id == At(n, head).sibling
    ensures var b, next := f.next.id, f.next;
            && Links(n, b, parent, next) && Distinct(next) && Ordered(key, next, lo)
            && Links(n, At(n, b).sibling, parent, next.next) && Distinct(next.next) && Ordered(key, next.next, lo)
  {
  }

  lemma PairIds(f: Forest)
    requires f.Tree? && f.next.Tree? && Distinct(f)
    ensures var a, b, rest := f.id, f.next.id, f.next.next;
            var ka, kb := Ids(f.kids), Ids(f.next.kids);
            && a != b && a !in ka && a !in kb && b !in ka && b !in kb && ka !! kb
            && ({a, b} + ka + kb) !! Ids(rest)
            && Ids(f) == {a, b} + ka + kb + Ids(rest)
            && Ids(Tree(a, f.kids, Nil)) == {a} + ka && Ids(Tree(b, f.next.kids, Nil)) == {b} + kb
  {
    assert Ids(Nil) == {};
  }

  lemma CutFirst(n: seq<Node>, m: seq<Node>, key: seq<int>, head: nat, parent: nat, f: Forest, lo: int)
    requires f.Tree? && Links(n, head, parent, f) && Distinct(f) && Ordered(key, f, lo)
    requires |m| == |n| && At(m, head) == At(n, head).(sibling := 0)
    requires forall i :: i in Ids(f.kids) && 1 <= i <= |n| ==> At(m, i) == At(n, i)
    ensures IsTree(m, head, Tree(head, f.kids, Nil)) && HeapOrdered(key, Tree(head, f.kids, Nil))
  {
    LinksFrame(n, m, At(n, head).child, head, f.kids);
  }

  lemma SecondInRange(n: seq<Node>, head: nat, parent: nat, f: Forest)
    requires Links(n, head, parent, f) && head != 0
    ensures 1 <= head <= |n| && At(n, head).sibling <= |n|
    ensures At(n, head).sibling != head || !Distinct(f)
  {
  }

  /** ph_merge_two_pass: the list of siblings from id becomes one tree. */
  method MergeTwoPass(nodes: array<Node>, key: seq<int>, id: nat, ghost parent: nat, ghost list: Forest, ghost lo: int)
    returns (r: nat, ghost f: Forest)
    requires |key| == nodes.Length
    requires Links(nodes[..], id, parent, list) && Distinct(list) && Ordered(key, list, lo)
    modifies nodes
    ensures IsTree(nodes[..], r, f) && HeapOrdered(key, f) && Ids(f) == Ids(list)
    ensures SameOutside(old(nodes[..]), nodes[..], Ids(list))
    decreases list
  {
    hide Links, Distinct, Ordered, IsTree, HeapOrdered, Ids;
    ghost var n := nodes[..];
    if id != 0 {
      SecondInRange(n, id, parent, list);
    }
    if id == 0 || nodes[id - 1].sibling == 0 {
      SingleTree(n, key, id, parent, list, lo);
      return id, list;
    }
    var a, b := id, nodes[id - 1].sibling;
    var newNode := nodes[b - 1].sibling;
    nodes[a - 1] := nodes[a - 1].(sibling := 0);
    nodes[b - 1] := nodes[b - 1].(sibling := 0);
    ghost var m := nodes[..];
    CutPair(n, m, key, a, parent, list, lo);
    ghost var fa, fb, rest := Tree(a, list.kids, Nil), Tree(b, list.next.kids, Nil), list.next.next;
    var pair, fp := MergeNodes(nodes, key, a, b, fa, fb);
    ghost var p := nodes[..];
    LinksFrame(m, p, newNode, parent, rest);
    var others, fo := MergeTwoPass(nodes, key, newNode, parent, rest, lo);
    ghost var o := nodes[..];
    IsTreeFrame(p, o, pair, fp, Ids(rest));
    r, f := MergeNodes(nodes, key, pair, others, fp, fo);
  }

  // The free list.

  /** The free ids are threaded through their siblings from head to tail; their parent is none. */
  ghost predicate FreeLinks(n: seq<Node>, head: nat, tail: nat, free: seq<nat>) {
    && (forall k :: 0 <= k < |free| ==> 1 <= free[k] <= |n| && At(n, free[k]).parent == 0)
    && (forall j, k :: 0 <= j < k < |free| ==> free[j] != free[k])
    && (forall k :: 0 <= k < |free| ==>
          At(n, free[k]).sibling == if k + 1 < |free| then free[k + 1] else 0)
    && head == (if free == [] then 0 else free[0])
    && tail == (if free == [] then 0 else free[|free| - 1])
  }

  lemma FreeFrame(n: seq<Node>, m: seq<Node>, head: nat, tail: nat, free: seq<nat>, ids: set<nat>)
    requires FreeLinks(n, head, tail, free) && SameOutside(n, m, ids)
    requires forall k :: 0 <= k < |free| ==> free[k] !in ids
    ensures FreeLinks(m, head, tail, free)
  {
  }

  /** Appending an id whose own links are clear. */
  lemma FreeAppended(n: seq<Node>, m: seq<Node>, head: nat, tail: nat, free: seq<nat>, id: nat)
    requires FreeLinks(n, head, tail, free) && 1 <= id <= |n| && id !in free
    requires m == if tail == 0 then n else n[tail - 1 := At(n, tail).(sibling := id)]
    requires At(m, id).sibling == 0 && At(m, id).parent == 0
    ensures FreeLinks(m, if head == 0 then id else head, id, free + [id])
  {
    var free' := free + [id];
    forall k | 0 <= k < |free'|
      ensures 1 <= free'[k] <= |m| && At(m, free'[k]).parent == 0
      ensures At(m, free'[k]).sibling == if k + 1 < |free'| then free'[k + 1] else 0
    {
      if k < |free| {
        assert free'[k] == free[k] && free[k] in free;
        assert k + 1 < |free| ==> free'[k + 1] == free[k + 1] && free[k] != tail;
      }
    }
    forall j, k | 0 <= j < k < |free'| ensures free'[j] != free'[k] {
      assert free'[j] == free[j] && free[j] in free;
    }
    hide At;
  }

  /** The whole data structure: one tree, a free list, and ids that are in neither. */
  ghost predicate Consistent(n: seq<Node>, root: nat, head: nat, tail: nat, tree: Forest, free: seq<nat>) {
    && IsTree(n, root, tree)
    && (root != 0 ==> At(n, root).parent == 0)
    && FreeLinks(n, head, tail, free)
    && (forall i :: i in free ==> i !in Ids(tree))
    && (forall i :: 1 <= i <= |n| && i !in Ids(tree) && i !in free ==>
          At(n, i).parent == 0 && At(n, i).sibling == 0)
  }

  lemma TreeIdsInRange(n: seq<Node>, root: nat, tree: Forest)
    requires IsTree(n, root, tree)
    ensures forall i :: i in Ids(tree) ==> 1 <= i <= |n|
  {
    if tree.Tree? {
      LinkedIdsInRange(n, At(n, root).child, root, tree.kids);
    }
  }

  /** Ids other than the root have a parent. */
  lemma {:induction false} LinkedHaveParent(n: seq<Node>, head: nat, parent: nat, f: Forest)
    requires Links(n, head, parent, f) && parent != 0
    ensures forall i :: i in Ids(f) && 1 <= i <= |n| ==> At(n, i).parent != 0
    decreases f
  {
    match f
    case Nil =>
    case Tree(id, kids, next) =>
      LinkedHaveParent(n, At(n, id).child, id, kids);
      LinkedHaveParent(n, At(n, id).sibling, parent, next);
  }

  /** Being in the tree can be read off the root and the parent link. */
  lemma ContainedIffParent(n: seq<Node>, root: nat, head: nat, tail: nat, tree: Forest, free: seq<nat>, id: nat)
    requires Consistent(n, root, head, tail, tree, free) && 1 <= id <= |n|
    ensures id in Ids(tree) <==> id == root || At(n, id).parent != 0
  {
    if tree.Tree? {
      LinkedHaveParent(n, At(n, root).child, root, tree.kids);
    }
  }

  lemma AllocationConsistent(n: seq<Node>, m: seq<Node>, root: nat, head: nat, tail: nat, tree: Forest,
                             free: seq<nat>)
    requires Consistent(n, root, head, tail, tree, free) && head != 0
    requires head <= |n| ==> m == n[head - 1 := Node(0, 0, 0)]
    ensures 1 <= head <= |n| && free != [] && head == free[0]
    ensures var next := At(n, head).sibling;
            Consistent(m, root, next, if next == 0 then 0 else tail, tree, free[1..])
    ensures head !in Ids(tree) && head !in free[1..]
  {
    AllocationFree(n, m, head, tail, free);
    HeadOff(n, head, tail, free);
    IsTreeFrame(n, m, root, tree, {head});
    RootInIds(n, root, tree);
    LooseIds(n, root, head, tail, tree, free);
    var next := At(n, head).sibling;
    ConsistentParts(m, root, next, if next == 0 then 0 else tail, tree, free[1..]);
  }

  lemma AllocationFree(n: seq<Node>, m: seq<Node>, head: nat, tail: nat, free: seq<nat>)
    requires FreeLinks(n, head, tail, free) && head != 0
    requires head <= |n| ==> m == n[head - 1 := Node(0, 0, 0)]
    ensures 1 <= head <= |n| && free != [] && head == free[0]
    ensures var next := At(n, head).sibling;
            FreeLinks(m, next, if next == 0 then 0 else tail, free[1..])
  {
    var rest := free[1..];
    assert forall k :: 0 <= k < |rest| ==> rest[k] == free[k + 1] && rest[k] != head;
    var next := At(n, free[0]).sibling;
    if rest == [] {
      assert next == 0;
      assert FreeLinks(m, 0, 0, rest);
    } else {
      assert next == free[1] == rest[0] && next != 0 && rest[|rest| - 1] == free[|free| - 1];
      assert FreeLinks(m, next, tail, rest);
    }
  }

  lemma HeadOff(n: seq<Node>, head: nat, tail: nat, free: seq<nat>)
    requires FreeLinks(n, head, tail, free) && free != []
    ensures forall i :: i in free <==> i == head || i in free[1..]
    ensures head !in free[1..]
  {
    assert free == [head] + free[1..];
  }

  function WithSibling(n: seq<Node>, at: nat, id: nat): seq<Node> {
    if 1 <= at <= |n| then n[at - 1 := At(n, at).(sibling := id)] else n
  }

  lemma FreeingConsistent(n: seq<Node>, root: nat, head: nat, tail: nat, tree: Forest, free: seq<nat>, id: nat)
    requires Consistent(n, root, head, tail, tree, free)
    requires 1 <= id <= |n| && id !in Ids(tree) && id !in free
    ensures FreeLinks(n, head, tail, free) && At(n, id).sibling == 0 && At(n, id).parent == 0
    ensures forall h, t :: FreeLinks(WithSibling(n, tail, id), h, t, free + [id]) ==>
                             Consistent(WithSibling(n, tail, id), root, h, t, tree, free + [id])
  {
    assert tail != 0 ==> tail in free;
    TreeIdsInRange(n, root, tree);
    IsTreeFrame(n, WithSibling(n, tail, id), root, tree, {tail});
    assert root != 0 ==> root in Ids(tree);
  }

  lemma InsertionStarts(n: seq<Node>, m: seq<Node>, root: nat, head: nat, tail: nat, tree: Forest,
                        free: seq<nat>, id: nat)
    requires Consistent(n, root, head, tail, tree, free)
    requires 1 <= id <= |n| && id !in Ids(tree) && id !in free && m == n[id - 1 := Node(0, 0, 0)]
    ensures Consistent(m, root, head, tail, tree, free)
    ensures IsTree(m, root, tree) && IsTree(m, id, Tree(id, Nil, Nil)) && Ids(Tree(id, Nil, Nil)) == {id}
  {
    IsTreeFrame(n, m, root, tree, {id});
    FreeFrame(n, m, head, tail, free, {id});
    assert root != 0 ==> root in Ids(tree);
  }

  lemma MergeConsistent(n: seq<Node>, key: seq<int>, root: nat, head: nat, tail: nat, tree: Forest,
                        free: seq<nat>, b: nat, fb: Forest, m: seq<Node>, r: nat, f: Forest)
    requires Consistent(n, root, head, tail, tree, free)
    requires IsTree(n, b, fb) && b != 0 && At(n, b).parent == 0
    requires forall i :: i in free ==> i !in Ids(fb)
    requires Merged(n, key, root, tree, b, fb, m, r, f) && |key| == |n|
    ensures Consistent(m, r, head, tail, f, free)
    ensures HeapOrdered(key, f) && Ids(f) == Ids(tree) + Ids(fb)
    ensures 1 <= b <= |key| && root <= |key|
    ensures r == if root != 0 && key[root - 1] < key[b - 1] then root else b
  {
    FreeFrame(n, m, head, tail, free, Ids(f));
  }

  // Cutting a node out of the middle of the tree.

  /** f without id and its subtree. */
  function Unlink(f: Forest, id: nat): Forest {
    match f
    case Nil => Nil
    case Tree(x, kids, next) =>
      if x == id then next else Tree(x, Unlink(kids, id), Unlink(next, id))
  }

  /** The children of id in f. */
  function KidsOf(f: Forest, id: nat): Forest {
    match f
    case Nil => Nil
    case Tree(x, kids, next) =>
      if x == id then kids else if id in Ids(kids) then KidsOf(kids, id) else KidsOf(next, id)
  }

  lemma {:induction false} UnlinkAbsent(f: Forest, id: nat)
    requires id !in Ids(f)
    ensures Unlink(f, id) == f
  {
    match f
    case Nil =>
    case Tree(x, kids, next) =>
      UnlinkAbsent(kids, id);
      UnlinkAbsent(next, id);
  }

  /** Cutting splits the ids into id, those below it and the rest. */
  lemma {:induction false} UnlinkSplits(f: Forest, id: nat)
    requires Distinct(f) && id in Ids(f)
    ensures Ids(f) == Ids(Unlink(f, id)) + {id} + Ids(KidsOf(f, id))
    ensures id !in Ids(Unlink(f, id)) && id !in Ids(KidsOf(f, id))
    ensures Ids(Unlink(f, id)) !! Ids(KidsOf(f, id))
    ensures Distinct(Unlink(f, id)) && Distinct(KidsOf(f, id))
  {
    var Tree(x, kids, next) := f;
    if x == id {
    } else if id in Ids(kids) {
      UnlinkSplits(kids, id);
      UnlinkAbsent(next, id);
    } else {
      UnlinkSplits(next, id);
      UnlinkAbsent(kids, id);
    }
  }

  lemma {:induction false} UnlinkOrdered(key: seq<int>, f: Forest, lo: int, id: nat)
    requires Ordered(key, f, lo) && Distinct(f)
    ensures Ordered(key, Unlink(f, id), lo)
    ensures id in Ids(f) ==> 1 <= id <= |key| && Ordered(key, KidsOf(f, id), key[id - 1])
    decreases f
  {
    match f
    case Nil =>
    case Tree(x, kids, next) =>
      UnlinkOrdered(key, kids, key[x - 1], id);
      UnlinkOrdered(key, next, lo, id);
  }

  lemma {:induction false} KidsLinks(n: seq<Node>, head: nat, parent: nat, f: Forest, id: nat)
    requires Links(n, head, parent, f) && id in Ids(f)
    ensures 1 <= id <= |n| && Links(n, At(n, id).child, id, KidsOf(f, id))
    decreases f
  {
    var Tree(x, kids, next) := f;
    if x != id {
      if id in Ids(kids) {
        KidsLinks(n, At(n, x).child, x, kids, id);
      } else {
        KidsLinks(n, At(n, x).sibling, parent, next, id);
      }
    }
  }

  /** A link to id skips to its sibling. */
  function Skip(n: seq<Node>, id: nat, link: nat): nat
    requires 1 <= id <= |n|
  {
    if link == id then At(n, id).sibling else link
  }

  /** In m, every link to id among the given ids skips to the sibling of id. */
  ghost predicate Relinked(n: seq<Node>, m: seq<Node>, id: nat, ids: set<nat>) {
    && 1 <= id <= |n| && |m| == |n|
    && forall x :: x in ids && x != id && 1 <= x <= |n| ==>
         At(m, x) == Node(Skip(n, id, At(n, x).child), Skip(n, id, At(n, x).sibling), At(n, x).parent)
  }

  lemma {:induction false} UnlinkLinks(n: seq<Node>, m: seq<Node>, head: nat, parent: nat, f: Forest, id: nat)
    requires Links(n, head, parent, f) && Distinct(f) && Relinked(n, m, id, Ids(f))
    ensures Links(m, Skip(n, id, head), parent, Unlink(f, id))
    decreases f
  {
    match f
    case Nil =>
    case Tree(x, kids, next) =>
      UnlinkLinks(n, m, At(n, x).sibling, parent, next, id);
      if x == id {
        UnlinkAbsent(next, id);
      } else {
        UnlinkLinks(n, m, At(n, x).child, x, kids, id);
      }
  }

  /** The one link that refers to an id of the tree. */
  datatype Referrer = AtHead | ChildOf(id: nat) | SiblingOf(id: nat) | Nowhere

  function ReferrerOf(f: Forest, id: nat, from: Referrer): Referrer {
    match f
    case Nil => Nowhere
    case Tree(x, kids, next) =>
      if x == id then from
      else if id in Ids(kids) then ReferrerOf(kids, id, ChildOf(x))
      else ReferrerOf(next, id, SiblingOf(x))
  }

  /** A referrer is the link f hangs from, or a link of one of f's ids. */
  lemma {:induction false} ReferrerInside(f: Forest, id: nat, from: Referrer)
    ensures var r := ReferrerOf(f, id, from);
            || r == from || r == Nowhere
            || (r.ChildOf? && r.id in Ids(f)) || (r.SiblingOf? && r.id in Ids(f))
    ensures id !in Ids(f) ==> ReferrerOf(f, id, from) == Nowhere
    ensures id in Ids(f) && from != Nowhere ==> ReferrerOf(f, id, from) != Nowhere
  {
    match f
    case Nil =>
    case Tree(x, kids, next) =>
      ReferrerInside(kids, id, ChildOf(x));
      ReferrerInside(next, id, SiblingOf(x));
  }

  /** A link of the tree refers to id exactly when it is its referrer. */
  lemma {:induction false} ReferrerIsUnique(n: seq<Node>, head: nat, parent: nat, f: Forest, id: nat, from: Referrer)
    requires Links(n, head, parent, f) && Distinct(f) && id != 0
    requires from == AtHead || ((from.ChildOf? || from.SiblingOf?) && from.id !in Ids(f))
    ensures forall x :: x in Ids(f) && 1 <= x <= |n| ==>
              && (At(n, x).child == id <==> ReferrerOf(f, id, from) == ChildOf(x))
              && (At(n, x).sibling == id <==> ReferrerOf(f, id, from) == SiblingOf(x))
    ensures head == id <==> id in Ids(f) && ReferrerOf(f, id, from) == from
    decreases f
  {
    match f
    case Nil =>
    case Tree(x, kids, next) =>
      ReferrerIsUnique(n, At(n, x).child, x, kids, id, ChildOf(x));
      ReferrerIsUnique(n, At(n, x).sibling, parent, next, id, SiblingOf(x));
      ReferrerInside(kids, id, ChildOf(x));
      ReferrerInside(next, id, SiblingOf(x));
  }

  lemma {:induction false} TopsHaveParent(n: seq<Node>, head: nat, parent: nat, f: Forest)
    requires Links(n, head, parent, f)
    ensures forall i :: i in Tops(f) ==> i in Ids(f) && 1 <= i <= |n| && At(n, i).parent == parent
    decreases f
  {
    match f
    case Nil =>
    case Tree(x, kids, next) =>
      TopsHaveParent(n, At(n, x).sibling, parent, next);
  }

  /** An id is in the list of children of its parent. */
  lemma {:induction false} InListOfParent(n: seq<Node>, head: nat, parent: nat, f: Forest, id: nat)
    requires Links(n, head, parent, f) && Distinct(f) && id in Ids(f) && id !in Tops(f)
    ensures 1 <= id <= |n| && At(n, id).parent in Ids(f) && id in Tops(KidsOf(f, At(n, id).parent))
    decreases f
  {
    var Tree(x, kids, next) := f;
    if id in Ids(kids) {
      TopsHaveParent(n, At(n, x).child, x, kids);
      if id !in Tops(kids) {
        InListOfParent(n, At(n, x).child, x, kids, id);
      }
    } else {
      InListOfParent(n, At(n, x).sibling, parent, next, id);
    }
  }

  /** The tree after id's referrer has been made to skip it, and the subtree cut off. */
  lemma CutConsistent(n: seq<Node>, m: seq<Node>, root: nat, head: nat, tail: nat, tree: Forest,
                      free: seq<nat>, id: nat)
    requires Consistent(n, root, head, tail, tree, free) && id in Ids(tree) && id != root
    requires 1 <= id <= |n| && Relinked(n, m, id, Ids(tree)) && SameOutside(n, m, Ids(tree))
    requires At(m, id) == Node(At(n, id).child, 0, 0)
    ensures IsTree(m, root, Unlink(tree, id)) && Rooted(m, id, KidsOf(tree, id))
    ensures At(m, root).parent == 0 && FreeLinks(m, head, tail, free)
    ensures Ids(tree) == Ids(Unlink(tree, id)) + {id} + Ids(KidsOf(tree, id))
    ensures Ids(Unlink(tree, id)) !! ({id} + Ids(KidsOf(tree, id)))
  {
    var kids := KidsOf(tree, id);
    UnlinkSplits(tree, id);
    ReferrerIsUnique(n, root, 0, tree, id, AtHead);
    UnlinkLinks(n, m, root, 0, tree, id);
    KidsLinks(n, root, 0, tree, id);
    UnlinkLinks(n, m, At(n, id).child, id, kids, id);
    UnlinkAbsent(kids, id);
    FreeFrame(n, m, head, tail, free, Ids(tree));
    ReferrerIsUnique(n, At(n, id).child, id, kids, id, ChildOf(id));
  }

  /** Making the one referrer of id skip it, and clearing id's own links, relinks the whole tree. */
  lemma ReferrerRelinks(n: seq<Node>, m: seq<Node>, tree: Forest, root: nat, id: nat, at: nat)
    requires IsTree(n, root, tree) && id in Ids(tree) && id != root && at in Ids(tree) && at != id
    requires 1 <= id <= |n| && 1 <= at <= |n| && |m| == |n| && At(n, root).parent == 0
    requires At(n, at).child == id || At(n, at).sibling == id
    requires m == n[at - 1 := Node(Skip(n, id, At(n, at).child), Skip(n, id, At(n, at).sibling), At(n, at).parent)]
                   [id - 1 := Node(At(n, id).child, 0, 0)]
    ensures Relinked(n, m, id, Ids(tree)) && SameOutside(n, m, Ids(tree))
  {
    ReferrerIsUnique(n, root, 0, tree, id, AtHead);
  }

  /** Both parts of a cut node's removal, put together again. */
  lemma RemovalConsistent(n: seq<Node>, root: nat, head: nat, tail: nat, tree: Forest, free: seq<nat>, m: seq<Node>,
                          newRoot: nat, rest: Forest, newHead: nat, newTail: nat, newFree: seq<nat>, id: nat)
    requires Consistent(n, root, head, tail, tree, free)
    requires id in Ids(tree) && 1 <= id <= |n| && |m| == |n|
    requires Ids(rest) == Ids(tree) - {id}
    requires IsTree(m, newRoot, rest) && (newRoot != 0 ==> newRoot <= |m| && At(m, newRoot).parent == 0)
    requires SameOutside(n, m, Ids(tree) + {tail})
    requires At(m, id).sibling == 0 && At(m, id).parent == 0
    requires FreeLinks(m, newHead, newTail, newFree) && (newFree == free || newFree == free + [id])
    ensures Consistent(m, newRoot, newHead, newTail, rest, newFree)
  {
    hide IsTree, FreeLinks, Consistent;
    NotInFree(n, root, head, tail, tree, free);
    LooseIds(n, root, head, tail, tree, free);
    assert forall i :: i in newFree ==> i in free || i == id;
    forall i | 1 <= i <= |m| && i !in Ids(rest) && i !in newFree
      ensures At(m, i).parent == 0 && At(m, i).sibling == 0
    {
      if i != id {
        assert i !in free;
        assert At(m, i) == At(n, i);
      }
    }
    ConsistentParts(m, newRoot, newHead, newTail, rest, newFree);
  }

  /** Ids fit in a byte. */
  const ID_LIMIT: nat := 256

  function Counting(max: nat): seq<nat> {
    seq(max, i requires 0 <= i => i + 1)
  }

  /** The records after ph_clear. */
  function Cleared(n: seq<Node>): (m: seq<Node>)
    ensures |m| == |n|
  {
    seq(|n|, i requires 0 <= i < |n| => n[i].(sibling := if i + 1 < |n| then i + 2 else 0))
  }

  /**
   * Clearing gives an empty, consistent heap exactly when no node had a parent: ph_clear does not
   * reset the parent links by which ph_contains_node tells whether an id is in the heap.
   */
  lemma ClearedIffParentless(n: seq<Node>)
    requires |n| > 0
    ensures Consistent(Cleared(n), 0, 1, |n|, Nil, Counting(|n|))
            <==> forall i :: 1 <= i <= |n| ==> At(n, i).parent == 0
  {
    var m, free := Cleared(n), Counting(|n|);
    assert forall k :: 0 <= k < |free| ==> free[k] == k + 1;
    if Consistent(m, 0, 1, |n|, Nil, free) {
      forall i | 1 <= i <= |n| ensures At(n, i).parent == 0 {
        assert free[i - 1] == i && At(m, i).parent == At(n, i).parent;
      }
    }
    if forall i :: 1 <= i <= |n| ==> At(n, i).parent == 0 {
      forall i | 1 <= i <= |n| ensures i in free && At(m, i).parent == 0 {
        assert free[i - 1] == i && At(m, i).parent == At(n, i).parent;
      }
      assert FreeLinks(m, 1, |n|, free);
      assert Consistent(m, 0, 1, |n|, Nil, free);
    }
  }

  /** Clearing a heap leaves an empty, consistent one exactly when it held at most one node. */
  lemma ClearedIffAtMostOne(n: seq<Node>, root: nat, head: nat, tail: nat, tree: Forest, free: seq<nat>)
    requires |n| > 0 && Consistent(n, root, head, tail, tree, free)
    ensures Consistent(Cleared(n), 0, 1, |n|, Nil, Counting(|n|)) <==> tree == Nil || tree.kids == Nil
  {
    ClearedIffParentless(n);
    forall i | 1 <= i <= |n| ensures At(n, i).parent != 0 <==> i in Ids(tree) && i != root {
      ContainedIffParent(n, root, head, tail, tree, free, i);
    }
    TreeIdsInRange(n, root, tree);
    if tree.Tree? && tree.kids.Tree? {
      assert tree.kids.id in Ids(tree) && tree.kids.id != root;
    }
    hide Consistent;
  }

  lemma ClearedConsistent(m: seq<Node>, free: seq<nat>)
    requires |m| > 0 && exists n :: |n| == |m| && m == Cleared(n) && forall i :: 1 <= i <= |n| ==> At(n, i).parent == 0
    requires free == Counting(|m|)
    ensures Consistent(m, 0, 1, |m|, Nil, free)
  {
    var n :| |n| == |m| && m == Cleared(n) && forall i :: 1 <= i <= |n| ==> At(n, i).parent == 0;
    ClearedIffParentless(n);
  }

  /** Two nodes in a heap, and then cleared: the test of ph_contains_node still finds a freed id. */
  lemma ClearCanLeaveContainedId()
    ensures exists n, tree :: && Consistent(n, 1, 0, 0, tree, []) && 2 in Ids(tree)
                              && 2 in Counting(|n|) && |n| == 2
                              && At(Cleared(n), 2).parent != 0
  {
    var n, tree := [Node(2, 0, 0), Node(0, 0, 1)], Tree(1, Tree(2, Nil, Nil), Nil);
    assert Rooted(n, 1, Tree(2, Nil, Nil));
    assert Consistent(n, 1, 0, 0, tree, []);
    assert Counting(2)[1] == 2;
  }

  class Heap {
    const nodes: array<Node>
    var rootId: nat
    var freeHeadId: nat
    var freeTailId: nat
    ghost var tree: Forest
    ghost var free: seq<nat>

    ghost predicate Valid()
      reads this, nodes
    {
      nodes.Length > 0 && Consistent(nodes[..], rootId, freeHeadId, freeTailId, tree, free)
    }

    /** Allocated, and not in the heap. */
    ghost predicate Held(id: nat)
      reads this
    {
      1 <= id <= nodes.Length && id !in Ids(tree) && id !in free
    }

    /** ph_create: max zeroed nodes, all of them free. */
    constructor (maxNodes: nat)
      requires 0 < maxNodes < ID_LIMIT
      ensures Valid() && fresh(nodes) && nodes.Length == maxNodes
      ensures tree == Nil && free == Counting(maxNodes)
    {
      nodes := new Node[maxNodes](i => Node(0, 0, 0));
      new;
      Clear();
      ClearedConsistent(nodes[..], free);
    }

    /**
     * ph_clear: no root, and every id on the free list in order. The child and parent links are
     * left as they were.
     */
    method Clear()
      requires nodes.Length > 0
      modifies this, nodes
      ensures rootId == 0 && freeHeadId == 1 && freeTailId == nodes.Length
      ensures tree == Nil && free == Counting(nodes.Length)
      ensures nodes[..] == Cleared(old(nodes[..]))
      ensures old(Valid()) ==> (Valid() <==> old(tree) == Nil || old(tree).kids == Nil)
    {
      if Valid() {
        ClearedIffAtMostOne(nodes[..], rootId, freeHeadId, freeTailId, tree, free);
      }
      hide Consistent;
      rootId := 0;
      freeHeadId := 1;
      freeTailId := nodes.Length;
      ghost var n := nodes[..];
      var i := 1;
      while i < nodes.Length
        invariant 1 <= i <= nodes.Length
        invariant rootId == 0 && freeHeadId == 1 && freeTailId == nodes.Length
        invariant forall k :: 0 <= k < nodes.Length ==>
                    nodes[k] == if k < i - 1 then n[k].(sibling := k + 2) else n[k]
      {
        nodes[i - 1] := nodes[i - 1].(sibling := i + 1);
        i := i + 1;
      }
      nodes[nodes.Length - 1] := nodes[nodes.Length - 1].(sibling := 0);
      tree, free := Nil, Counting(nodes.Length);
    }

    /** ph_contains_node */
    method ContainsNode(id: nat) returns (r: bool)
      requires Valid() && 1 <= id <= nodes.Length
      ensures r <==> id in Ids(tree)
    {
      ContainedIffParent(nodes[..], rootId, freeHeadId, freeTailId, tree, free, id);
      r := id == rootId || nodes[id - 1].parent != 0;
    }

    /** ph_new_node: the id that has been free longest, or 0. */
    method NewNode() returns (id: nat)
      requires Valid()
      modifies this`freeHeadId, this`freeTailId, this`free, nodes
      ensures Valid() && tree == old(tree)
      ensures if old(free) == [] then id == 0 && free == []
              else id == old(free)[0] && free == old(free)[1..] && Held(id)
    {
      if freeHeadId == 0 {
        return 0;
      }
      id := freeHeadId;
      ghost var n := nodes[..];
      AllocationConsistent(n, n[id - 1 := Node(0, 0, 0)], rootId, freeHeadId, freeTailId, tree, free);
      hide Consistent;
      freeHeadId := nodes[id - 1].sibling;
      if freeHeadId == 0 {
        freeTailId := 0;
      }
      nodes[id - 1] := Node(0, 0, 0);
      free := free[1..];
    }

    /** The code that both ph_free_node and ph_remove_any_head append an id with. */
    method AppendFree(id: nat)
      requires FreeLinks(nodes[..], freeHeadId, freeTailId, free)
      requires 1 <= id <= nodes.Length && id !in free
      requires At(nodes[..], id).sibling == 0 && At(nodes[..], id).parent == 0
      modifies this`freeHeadId, this`freeTailId, this`free, nodes
      ensures FreeLinks(nodes[..], freeHeadId, freeTailId, free) && free == old(free) + [id]
      ensures SameOutside(old(nodes[..]), nodes[..], {old(freeTailId)})
      ensures nodes[..] == if old(freeTailId) == 0 then old(nodes[..])
                           else WithSibling(old(nodes[..]), old(freeTailId), id)
    {
      ghost var n := nodes[..];
      assert freeTailId != 0 ==> freeTailId in free;
      if freeTailId != 0 {
        nodes[freeTailId - 1] := nodes[freeTailId - 1].(sibling := id);
      }
      FreeAppended(n, nodes[..], freeHeadId, freeTailId, free, id);
      hide FreeLinks;
      if freeHeadId == 0 {
        freeHeadId := id;
      }
      freeTailId := id;
      free := free + [id];
    }

    /** ph_free_node */
    method FreeNode(id: nat)
      requires Valid() && Held(id)
      modifies this`freeHeadId, this`freeTailId, this`free, nodes
      ensures Valid() && tree == old(tree) && free == old(free) + [id]
    {
      FreeingConsistent(nodes[..], rootId, freeHeadId, freeTailId, tree, free, id);
      AppendFree(id);
      hide Consistent;
    }

    /** ph_insert_node: the id joins the heap, and the result is its new head. */
    method InsertNode(id: nat, key: seq<int>) returns (head: nat)
      requires Valid() && Held(id) && |key| == nodes.Length && HeapOrdered(key, tree)
      modifies this`rootId, this`tree, nodes
      ensures Valid() && HeapOrdered(key, tree) && free == old(free)
      ensures Ids(tree) == old(Ids(tree)) + {id}
      ensures head == rootId
              == if old(rootId) != 0 && key[old(rootId) - 1] < key[id - 1] then old(rootId) else id
    {
      hide Consistent, IsTree, HeapOrdered, Merged, FreeLinks, Links;
      ghost var n := nodes[..];
      nodes[id - 1] := Node(0, 0, 0);
      ghost var m := nodes[..];
      InsertionStarts(n, m, rootId, freeHeadId, freeTailId, tree, free, id);
      ghost var single := Tree(id, Nil, Nil);
      assert HeapOrdered(key, single) by { SingleOrdered(key, id); }
      var r, f := MergeNodes(nodes, key, rootId, id, tree, single);
      MergeConsistent(m, key, rootId, freeHeadId, freeTailId, tree, free, id, single, nodes[..], r, f);
      rootId, tree := r, f;
      head := rootId;
    }

    /**
     * ph_remove_any_head: the children of a detached root become one tree, and the root id is
     * optionally appended to the free list.
     */
    method RemoveAnyHead(root: nat, toFree: bool, key: seq<int>, ghost kids: Forest)
      returns (r: nat, ghost f: Forest)
      requires |key| == nodes.Length && Rooted(nodes[..], root, kids) && At(nodes[..], root).parent == 0
      requires root <= |key| && Ordered(key, kids, key[root - 1])
      requires FreeLinks(nodes[..], freeHeadId, freeTailId, free)
      requires forall i :: i in free ==> i !in Ids(kids) && i != root
      modifies this`freeHeadId, this`freeTailId, this`free, nodes
      ensures IsTree(nodes[..], r, f) && HeapOrdered(key, f) && Ids(f) == Ids(kids)
      ensures r != 0 ==> r <= nodes.Length && At(nodes[..], r).parent == 0
      ensures At(nodes[..], root).sibling == 0 && At(nodes[..], root).parent == 0
      ensures FreeLinks(nodes[..], freeHeadId, freeTailId, free)
      ensures free == if toFree then old(free) + [root] else old(free)
      ensures SameOutside(old(nodes[..]), nodes[..], Ids(kids) + {root, old(freeTailId)})
    {
      ghost var n := nodes[..];
      r, f := MergeTwoPass(nodes, key, nodes[root - 1].child, root, kids, key[root - 1]);
      hide Links, Distinct, Ordered, HeapOrdered, IsTree, FreeLinks, SameOutside;
      ghost var p := nodes[..];
      ListMerged(n, p, r, f, root, freeHeadId, freeTailId, free, Ids(kids));
      if toFree {
        AppendFree(root);
      } else {
        SameOutsideItself(p, {freeTailId});
      }
      ClearHeadLinks(root, r, n, p, f, old(freeTailId));
    }

    /** The end of ph_remove_any_head: the new root has no parent, the old one no sibling. */
    method ClearHeadLinks(root: nat, r: nat, ghost n: seq<Node>, ghost p: seq<Node>, ghost f: Forest,
                          ghost oldTail: nat)
      requires IsTree(p, r, f) && FreeLinks(nodes[..], freeHeadId, freeTailId, free)
      requires SameOutside(n, p, Ids(f)) && SameOutside(p, nodes[..], {oldTail})
      requires oldTail !in Ids(f) && (forall i :: i in free ==> i !in Ids(f))
      requires 1 <= root <= |n| && root !in Ids(f) && root != oldTail
      requires At(n, root).sibling == 0
      modifies nodes
      ensures IsTree(nodes[..], r, f) && FreeLinks(nodes[..], freeHeadId, freeTailId, free)
      ensures r != 0 ==> r <= nodes.Length && At(nodes[..], r).parent == 0
      ensures At(nodes[..], root) == At(n, root)
      ensures SameOutside(n, nodes[..], Ids(f) + {root, oldTail})
    {
      hide Links, Distinct, IsTree, FreeLinks, SameOutside;
      ghost var q := nodes[..];
      SameLength(n, p, q, Ids(f), {oldTail});
      IsTreeFrame(p, q, r, f, {oldTail});
      RootInIds(q, r, f);
      if r != 0 {
        nodes[r - 1] := nodes[r - 1].(parent := 0);
      }
      ghost var s := nodes[..];
      RootParent(q, s, r, f);
      HeadRemoved(n, p, q, s, r, root, freeHeadId, freeTailId, oldTail, free, Ids(f));
      nodes[root - 1] := nodes[root - 1].(sibling := 0);
      assert nodes[..] == s;
    }

    /** ph_remove_head: the head leaves the heap, which still is a heap of all the other ids. */
    method RemoveHead(toFree: bool, key: seq<int>) returns (id: nat)
      requires Valid() && rootId != 0 && |key| == nodes.Length && HeapOrdered(key, tree)
      modifies this, nodes
      ensures Valid() && HeapOrdered(key, tree)
      ensures id == old(rootId) && Ids(tree) == old(Ids(tree)) - {id}
      ensures !toFree ==> Held(id)
      ensures free == if toFree then old(free) + [id] else old(free)
    {
      ghost var n := nodes[..];
      id := rootId;
      ghost var kids := tree.kids;
      var r, f := RemoveAnyHead(rootId, toFree, key, kids);
      RemovalConsistent(n, rootId, old(freeHeadId), old(freeTailId), tree, old(free), nodes[..], r, f,
                        freeHeadId, freeTailId, free, id);
      rootId, tree := r, f;
    }

    /**
     * ph_remove_and_free_node: a node anywhere in the heap leaves it and is freed; the result says
     * whether it was in the heap, and if not nothing changes.
     */
    method RemoveAndFreeNode(id: nat, key: seq<int>) returns (rc: bool)
      requires Valid() && id <= nodes.Length && |key| == nodes.Length && HeapOrdered(key, tree)
      modifies this, nodes
      ensures Valid() && HeapOrdered(key, tree)
      ensures rc <==> id in old(Ids(tree))
      ensures Ids(tree) == old(Ids(tree)) - {id}
      ensures free == if rc then old(free) + [id] else old(free)
      ensures !rc ==> tree == old(tree) && rootId == old(rootId)
    {
      ghost var n := nodes[..];
      TreeIdsInRange(n, rootId, tree);
      if id == 0 {
        return false;
      }
      if id == rootId {
        var _ := RemoveHead(true, key);
        return true;
      }
      ContainedIffParent(n, rootId, freeHeadId, freeTailId, tree, free, id);
      if nodes[id - 1].parent == 0 {
        return false;
      }
      UnlinkNode(id);
      CutConsistent(n, nodes[..], rootId, freeHeadId, freeTailId, tree, free, id);
      CutOrdered(key, tree, id);
      hide Consistent, IsTree, Links, Relinked, SameOutside, FreeLinks;
      DiscardSubtree(id, key, n, Unlink(tree, id), KidsOf(tree, id));
      return true;
    }

    /** Step 3 of ph_remove_and_free_node: the node leaves its own subtree, which rejoins the heap. */
    method DiscardSubtree(id: nat, key: seq<int>, ghost n: seq<Node>, ghost rest: Forest, ghost kids: Forest)
      requires |key| == nodes.Length == |n| && nodes.Length > 0
      requires Consistent(n, rootId, freeHeadId, freeTailId, tree, free)
      requires SameOutside(n, nodes[..], Ids(tree))
      requires IsTree(nodes[..], rootId, rest) && Rooted(nodes[..], id, kids)
      requires 1 <= rootId <= nodes.Length && At(nodes[..], rootId).parent == 0
      requires At(nodes[..], id).parent == 0
      requires FreeLinks(nodes[..], freeHeadId, freeTailId, free)
      requires Ids(tree) == Ids(rest) + {id} + Ids(kids) && Ids(rest) !! ({id} + Ids(kids))
      requires HeapOrdered(key, rest) && Ordered(key, kids, key[id - 1])
      modifies this, nodes
      ensures Valid() && HeapOrdered(key, tree)
      ensures Ids(tree) == old(Ids(tree)) - {id} && free == old(free) + [id]
    {
      ghost var m, oldFree, head, tail := nodes[..], free, freeHeadId, freeTailId;
      NotInFree(n, rootId, head, tail, tree, free);
      hide Consistent, IsTree, Links, SameOutside, FreeLinks, Ordered, HeapOrdered, Merged;
      var r, f := RemoveAnyHead(id, true, key, kids);
      IsTreeFrame(m, nodes[..], rootId, rest, Ids(kids) + {id, tail});
      MergeBack(id, key, n, m, rest, r, f, head, tail, oldFree);
    }

    /** What is left of a discarded subtree becomes part of the heap again. */
    method MergeBack(id: nat, key: seq<int>, ghost n: seq<Node>, ghost m: seq<Node>, ghost rest: Forest, r: nat,
                     ghost f: Forest, ghost head: nat, ghost tail: nat, ghost oldFree: seq<nat>)
      requires |key| == nodes.Length == |n| && nodes.Length > 0
      requires Consistent(n, rootId, head, tail, tree, oldFree)
      requires SameOutside(n, m, Ids(tree)) && SameOutside(m, nodes[..], Ids(f) + {id, tail})
      requires Ids(tree) == Ids(rest) + {id} + Ids(f) && Ids(rest) !! ({id} + Ids(f)) && id !in Ids(f)
      requires IsTree(nodes[..], rootId, rest) && IsTree(nodes[..], r, f)
      requires FreeLinks(nodes[..], freeHeadId, freeTailId, free) && free == oldFree + [id]
      requires 1 <= id <= nodes.Length && At(nodes[..], id).sibling == 0 && At(nodes[..], id).parent == 0
      requires 1 <= rootId <= nodes.Length && 1 <= rootId <= |m| && At(m, rootId).parent == 0
      requires r != 0 ==> r <= nodes.Length && At(nodes[..], r).parent == 0
      requires HeapOrdered(key, rest) && HeapOrdered(key, f)
      modifies this`rootId, this`tree, nodes
      ensures Valid() && HeapOrdered(key, tree)
      ensures Ids(tree) == old(Ids(tree)) - {id} && free == old(free)
    {
      hide Consistent, IsTree, Links, SameOutside, FreeLinks, Ordered, HeapOrdered, Merged;
      ghost var p, oldTree, oldRoot := nodes[..], tree, rootId;
      ghost var merged;
      rootId, merged := MergeNodes(nodes, key, rootId, r, rest, f);
      tree := merged;
      SubtreeDiscarded(n, m, p, nodes[..], oldTree, head, tail, freeHeadId, freeTailId, oldFree, rootId, tree,
                       rest, f, key, oldRoot, r, id, Ids(f));
    }

    /** Step 2 of ph_remove_and_free_node: the one link to the node skips it. */
    method UnlinkNode(id: nat)
      requires Valid() && id in Ids(tree) && id != rootId
      modifies nodes
      ensures id <= nodes.Length
      ensures Relinked(old(nodes[..]), nodes[..], id, Ids(tree))
      ensures SameOutside(old(nodes[..]), nodes[..], Ids(tree))
      ensures At(nodes[..], id) == Node(At(old(nodes[..]), id).child, 0, 0)
    {
      ghost var n := nodes[..];
      ParentInTree(n, rootId, tree, id);
      hide Links, Distinct, Consistent, IsTree, SameOutside, Relinked;
      var p := nodes[id - 1].parent;
      var at := p;
      if nodes[p - 1].child == id {
        nodes[p - 1] := nodes[p - 1].(child := nodes[id - 1].sibling);
      } else {
        at := PreviousSibling(id, p);
        nodes[at - 1] := nodes[at - 1].(sibling := nodes[id - 1].sibling);
      }
      nodes[id - 1] := nodes[id - 1].(sibling := 0, parent := 0);
      ReferrerRelinks(n, nodes[..], tree, rootId, id, at);
    }

    /** The scan of the parent's children for the one before id. */
    method PreviousSibling(id: nat, p: nat) returns (prev: nat)
      requires IsTree(nodes[..], rootId, tree) && p in Ids(tree) && 1 <= p <= nodes.Length
      requires id in Tops(KidsOf(tree, p)) && At(nodes[..], p).child != id
      ensures prev in Ids(tree) && prev != id && 1 <= prev <= nodes.Length
      ensures At(nodes[..], prev).sibling == id
    {
      ghost var n := nodes[..];
      KidsLinks(n, rootId, At(n, rootId).parent, tree, p);
      UnlinkSplits(tree, p);
      prev := nodes[p - 1].child;
      ghost var list := KidsOf(tree, p);
      while nodes[prev - 1].sibling != id
        invariant 1 <= prev <= nodes.Length && prev != id
        invariant Links(n, prev, p, list) && id in Tops(list)
        invariant Ids(list) <= Ids(tree)
        decreases list
      {
        prev := nodes[prev - 1].sibling;
        list := list.next;
      }
    }
  }

  lemma ParentInTree(n: seq<Node>, root: nat, tree: Forest, id: nat)
    requires IsTree(n, root, tree) && (root != 0 ==> At(n, root).parent == 0)
    requires id in Ids(tree) && id != root
    ensures 1 <= id <= |n|
    ensures var p := At(n, id).parent;
            p in Ids(tree) && 1 <= p <= |n| && p != id && id in Tops(KidsOf(tree, p))
    ensures forall x :: x in Ids(tree) && 1 <= x <= |n| && At(n, x).child == id ==> At(n, x).sibling != id
    ensures forall x :: x in Ids(tree) && 1 <= x <= |n| && At(n, x).sibling == id ==> At(n, x).child != id
  {
    TreeIdsInRange(n, root, tree);
    InListOfParent(n, root, 0, tree, id);
    ReferrerIsUnique(n, root, 0, tree, id, AtHead);
    var p := At(n, id).parent;
    KidsLinks(n, root, 0, tree, p);
    UnlinkSplits(tree, p);
    TopsHaveParent(n, At(n, p).child, p, KidsOf(tree, p));
  }

  lemma NotInFree(n: seq<Node>, root: nat, head: nat, tail: nat, tree: Forest, free: seq<nat>)
    requires Consistent(n, root, head, tail, tree, free)
    ensures tail !in Ids(tree) && (tail != 0 ==> tail in free)
    ensures forall i :: i in free ==> i !in Ids(tree)
  {
    TreeIdsInRange(n, root, tree);
    assert free != [] ==> tail in free;
  }

  lemma CutOrdered(key: seq<int>, tree: Forest, id: nat)
    requires tree.Tree? && HeapOrdered(key, tree) && Distinct(tree) && id in Ids(tree) && id != tree.id
    ensures 1 <= id <= |key| && HeapOrdered(key, Unlink(tree, id))
    ensures Ordered(key, KidsOf(tree, id), key[id - 1])
  {
    UnlinkOrdered(key, tree, key[tree.id - 1], id);
  }

  lemma SubtreeDiscarded(n: seq<Node>, m: seq<Node>, p: seq<Node>, q: seq<Node>, tree: Forest, head: nat,
                         tail: nat, newHead: nat, newTail: nat, free: seq<nat>, newRoot: nat, newTree: Forest,
                         rest: Forest, f: Forest, key: seq<int>, root: nat, r: nat, id: nat, kids: set<nat>)
    requires Consistent(n, root, head, tail, tree, free)
    requires SameOutside(n, m, Ids(tree)) && SameOutside(m, p, kids + {id, tail})
    requires Ids(tree) == Ids(rest) + {id} + kids && Ids(rest) !! ({id} + kids) && id !in kids
    requires Ids(f) == kids && IsTree(p, root, rest) && IsTree(p, r, f)
    requires Merged(p, key, root, rest, r, f, q, newRoot, newTree)
    requires FreeLinks(p, newHead, newTail, free + [id])
    requires 1 <= id <= |p| && At(p, id).sibling == 0 && At(p, id).parent == 0
    requires 1 <= root <= |p| && 1 <= root <= |m| && At(m, root).parent == 0
    requires r != 0 ==> r <= |p| && At(p, r).parent == 0
    ensures Consistent(q, newRoot, newHead, newTail, newTree, free + [id])
    ensures Ids(newTree) == Ids(tree) - {id} && HeapOrdered(key, newTree)
  {
    hide IsTree, FreeLinks, Ordered, Consistent;
    NotInFree(n, root, head, tail, tree, free);
    FreeFrame(p, q, newHead, newTail, free + [id], Ids(newTree));
    LooseIds(n, root, head, tail, tree, free);
    LooseStayLoose(n, m, p, q, Ids(tree), tail, free, Ids(newTree), id, kids);
    RootInIds(p, root, rest);
    RootInIds(p, r, f);
    RootInIds(q, newRoot, newTree);
    assert At(p, root) == At(m, root);
    assert newRoot == root || newRoot == r;
    ConsistentParts(q, newRoot, newHead, newTail, newTree, free + [id]);
  }

  lemma LooseIds(n: seq<Node>, root: nat, head: nat, tail: nat, tree: Forest, free: seq<nat>)
    requires Consistent(n, root, head, tail, tree, free)
    ensures forall i :: 1 <= i <= |n| && i !in Ids(tree) && i !in free ==>
              At(n, i).parent == 0 && At(n, i).sibling == 0
  {
  }

  lemma ConsistentParts(n: seq<Node>, root: nat, head: nat, tail: nat, tree: Forest, free: seq<nat>)
    requires IsTree(n, root, tree) && FreeLinks(n, head, tail, free)
    requires root != 0 ==> root <= |n| && At(n, root).parent == 0
    requires forall i :: i in free ==> i !in Ids(tree)
    requires forall i :: 1 <= i <= |n| && i !in Ids(tree) && i !in free ==>
               At(n, i).parent == 0 && At(n, i).sibling == 0
    ensures Consistent(n, root, head, tail, tree, free)
  {
  }

  /** Ids in neither the heap nor the free list keep their clear links throughout a removal. */
  lemma LooseStayLoose(n: seq<Node>, m: seq<Node>, p: seq<Node>, q: seq<Node>, ids: set<nat>, tail: nat,
                       free: seq<nat>, newIds: set<nat>, id: nat, kids: set<nat>)
    requires SameOutside(n, m, ids) && SameOutside(m, p, kids + {id, tail}) && SameOutside(p, q, newIds)
    requires kids <= ids && id in ids && newIds == ids - {id} && (tail != 0 ==> tail in free)
    requires forall i :: 1 <= i <= |n| && i !in ids && i !in free ==> At(n, i).parent == 0 && At(n, i).sibling == 0
    ensures forall i :: 1 <= i <= |q| && i !in newIds && i !in free + [id] ==>
              At(q, i).parent == 0 && At(q, i).sibling == 0
  {
    forall i | 1 <= i <= |q| && i !in newIds && i !in free + [id]
      ensures At(q, i).parent == 0 && At(q, i).sibling == 0
    {
      assert i !in free && i != id && i != tail by {
        assert i in free ==> i in free + [id];
        assert id in free + [id];
      }
      assert At(q, i) == At(p, i) == At(m, i) == At(n, i);
    }
  }

  lemma RootInIds(n: seq<Node>, r: nat, f: Forest)
    requires IsTree(n, r, f)
    ensures r != 0 ==> 1 <= r <= |n| && r in Ids(f)
  {
  }

  lemma SameLength(n: seq<Node>, p: seq<Node>, q: seq<Node>, a: set<nat>, b: set<nat>)
    requires SameOutside(n, p, a) && SameOutside(p, q, b)
    ensures |n| == |p| == |q|
  {
  }

  lemma SameOutsideItself(n: seq<Node>, ids: set<nat>)
    ensures SameOutside(n, n, ids)
  {
  }

  lemma ListMerged(n: seq<Node>, p: seq<Node>, r: nat, f: Forest, root: nat, head: nat, tail: nat,
                   free: seq<nat>, ids: set<nat>)
    requires SameOutside(n, p, ids) && FreeLinks(n, head, tail, free) && IsTree(p, r, f) && Ids(f) == ids
    requires forall i :: i in free ==> i !in ids && i != root
    requires 1 <= root <= |n| && root !in ids
    ensures FreeLinks(p, head, tail, free) && root !in free && tail !in ids && tail != root
    ensures At(p, root) == At(n, root)
  {
    FreeFrame(n, p, head, tail, free, ids);
    TreeIdsInRange(p, r, f);
    assert free != [] ==> tail in free;
  }

  lemma HeadRemoved(n: seq<Node>, p: seq<Node>, q: seq<Node>, s: seq<Node>, r: nat, root: nat, head: nat,
                    tail: nat, oldTail: nat, free: seq<nat>, ids: set<nat>)
    requires SameOutside(n, p, ids) && SameOutside(p, q, {oldTail}) && |s| == |q|
    requires if r == 0 then s == q else 1 <= r <= |q| && s == q[r - 1 := At(q, r).(parent := 0)]
    requires r != 0 ==> r in ids && r !in free
    requires FreeLinks(q, head, tail, free)
    requires 1 <= root <= |n| && root !in ids && root != oldTail
    ensures FreeLinks(s, head, tail, free) && At(s, root) == At(n, root)
    ensures SameOutside(n, s, ids + {root, oldTail})
    ensures r != 0 ==> At(s, r).parent == 0
  {
    FreeFrame(q, s, head, tail, free, {r});
  }

  lemma RootParent(n: seq<Node>, m: seq<Node>, r: nat, f: Forest)
    requires IsTree(n, r, f)
    requires if 1 <= r <= |n| then m == n[r - 1 := At(n, r).(parent := 0)] else m == n
    ensures IsTree(m, r, f)
  {
    if f.Tree? {
      LinksFrame(n, m, At(n, r).child, r, f.kids);
    }
  }

  lemma SingleOrdered(key: seq<int>, id: nat)
    requires 1 <= id <= |key|
    ensures HeapOrdered(key, Tree(id, Nil, Nil))
  {
  }
}
