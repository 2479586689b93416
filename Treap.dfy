/**
 * The nodes of the interval tree as values: a treap keyed by (start, end)
 * in lexicographic order, heap-ordered by a per-node priority, with each
 * node caching the largest `end` found in its subtree.
 *
 * Keys are integers; the tree of the source is generic in any Comparable key.
 */
module Treap {

  /** The ordering key of an interval: start first, ties broken by end. */
  datatype Key = Key(start: int, end: int)

  predicate Less(a: Key, b: Key) {
    a.start < b.start || (a.start == b.start && a.end < b.end)
  }

  /** Interval.compareTo: the sign of the lexicographic comparison. */
  function Compare(a: Key, b: Key): (c: int)
    ensures c < 0 <==> Less(a, b)
    ensures c > 0 <==> Less(b, a)
    ensures c == 0 <==> a == b
  {
    if a.start < b.start then -1
    else if a.start > b.start then 1
    else if a.end < b.end then -1
    else if a.end > b.end then 1
    else 0
  }

  /** One stored interval with its value set and treap priority. */
  datatype Interval<V> = Interval(start: int, end: int, values: set<V>, priority: int)

  function KeyOf<V>(iv: Interval<V>): Key {
    Key(iv.start, iv.end)
  }

  /** A node caches `largest`, the source's largestToTheRight. */
  datatype Tree<V> = Nil | Node(left: Tree<V>, iv: Interval<V>, largest: int, right: Tree<V>)

  /** The two-argument max of the source. */
  function Max(a: int, b: int): (m: int)
    ensures m >= a && m >= b
    ensures m == a || m == b
  {
    if a > b then a else b
  }

  /** The three-argument max of the source, max(max(a, b), c). */
  function Max3(a: int, b: int, c: int): (m: int)
    ensures m >= a && m >= b && m >= c
    ensures m == a || m == b || m == c
  {
    Max(Max(a, b), c)
  }

  /**
   * updateLargestToTheRight: a node over `l` and `r` whose cached value is the
   * largest of its own end and its children's cached values.
   */
  function Recompute<V>(l: Tree<V>, iv: Interval<V>, r: Tree<V>): (t: Tree<V>)
    ensures t.Node? && t.left == l && t.iv == iv && t.right == r
    ensures t.largest >= iv.end
    ensures l.Node? ==> t.largest >= l.largest
    ensures r.Node? ==> t.largest >= r.largest
    ensures t.largest == iv.end || (l.Node? && t.largest == l.largest) || (r.Node? && t.largest == r.largest)
  {
    if l.Nil? && r.Nil? then Node(l, iv, iv.end, r)
    else if l.Nil? then Node(l, iv, Max(iv.end, r.largest), r)
    else if r.Nil? then Node(l, iv, Max(iv.end, l.largest), r)
    else Node(l, iv, Max3(iv.end, l.largest, r.largest), r)
  }

  /** A fresh node with no children, as created for a new interval. */
  function Leaf<V>(iv: Interval<V>): (t: Tree<V>)
    ensures Valid(t)
    ensures Contents(t) == map[KeyOf(iv) := iv.values] && Size(t) == 1
  {
    Node(Nil, iv, iv.end, Nil)
  }

  // ----- what a tree holds -----

  function KeySet<V>(t: Tree<V>): set<Key> {
    match t
    case Nil => {}
    case Node(l, iv, _, r) => KeySet(l) + {KeyOf(iv)} + KeySet(r)
  }

  function Size<V>(t: Tree<V>): nat {
    match t
    case Nil => 0
    case Node(l, _, _, r) => Size(l) + 1 + Size(r)
  }

  /** The stored intervals: each key pair with its value set. */
  function Contents<V>(t: Tree<V>): (m: map<Key, set<V>>)
    ensures m.Keys == KeySet(t)
  {
    match t
    case Nil => map[]
    case Node(l, iv, _, r) => Contents(l) + Contents(r) + map[KeyOf(iv) := iv.values]
  }

  // ----- invariants -----

  /** Search-tree order by lexicographic key. */
  ghost predicate Bst<V>(t: Tree<V>) {
    match t
    case Nil => true
    case Node(l, iv, _, r) =>
      Bst(l) && Bst(r) &&
      (forall k :: k in KeySet(l) ==> Less(k, KeyOf(iv))) &&
      (forall k :: k in KeySet(r) ==> Less(KeyOf(iv), k))
  }

  /** Heap order: no child has a higher priority than its parent. */
  ghost predicate Heap<V>(t: Tree<V>) {
    match t
    case Nil => true
    case Node(l, iv, _, r) =>
      Heap(l) && Heap(r) &&
      (l.Node? ==> l.iv.priority <= iv.priority) &&
      (r.Node? ==> r.iv.priority <= iv.priority)
  }

  /** Every cached value is what updateLargestToTheRight would compute. */
  ghost predicate CachedMax<V>(t: Tree<V>) {
    match t
    case Nil => true
    case Node(l, iv, m, r) => CachedMax(l) && CachedMax(r) && m == Recompute(l, iv, r).largest
  }

  ghost predicate Valid<V>(t: Tree<V>) {
    Bst(t) && Heap(t) && CachedMax(t)
  }

  /** The cached value is the largest end stored in the subtree. */
  lemma {:induction false} CachedMaxIsLargestEnd<V>(t: Tree<V>)
    requires CachedMax(t) && t.Node?
    ensures forall k :: k in KeySet(t) ==> k.end <= t.largest
    ensures exists k :: k in KeySet(t) && k.end == t.largest
  {
    if t.left.Node? { CachedMaxIsLargestEnd(t.left); }
    if t.right.Node? { CachedMaxIsLargestEnd(t.right); }
    assert KeyOf(t.iv) in KeySet(t);
  }

  // ----- the overlap query -----

  /** shouldTakeThisInterval. */
  predicate Overlaps(k: Key, qs: int, qe: int) {
    k.start <= qe && k.end >= qs
  }

  /** valuesInRange, with both of the source's pruning shortcuts. */
  function ValuesInRange<V>(t: Tree<V>, qs: int, qe: int): set<V> {
    match t
    case Nil => {}
    case Node(l, iv, m, r) =>
      if iv.start > qe then ValuesInRange(l, qs, qe)
      else if m < qs then {}
      else
        ValuesInRange(l, qs, qe) + ValuesInRange(r, qs, qe) +
        (if Overlaps(KeyOf(iv), qs, qe) then iv.values else {})
  }

  /** The reference answer: every value of every stored interval overlapping [qs, qe]. */
  ghost function Overlapping<V>(m: map<Key, set<V>>, qs: int, qe: int): set<V> {
    set k, v | k in m && v in m[k] && Overlaps(k, qs, qe) :: v
  }

  /** Every value of every stored interval. */
  ghost function AllValues<V>(m: map<Key, set<V>>): set<V> {
    set k, v | k in m && v in m[k] :: v
  }

  lemma OverlappingOfUnion<V>(a: map<Key, set<V>>, b: map<Key, set<V>>, qs: int, qe: int)
    requires a.Keys !! b.Keys
    ensures Overlapping(a + b, qs, qe) == Overlapping(a, qs, qe) + Overlapping(b, qs, qe)
  {
    var u := a + b;
    forall v | v in Overlapping(u, qs, qe)
      ensures v in Overlapping(a, qs, qe) + Overlapping(b, qs, qe)
    {
      var k :| k in u && v in u[k] && Overlaps(k, qs, qe);
      if k in b { assert v in Overlapping(b, qs, qe); }
      else { assert v in Overlapping(a, qs, qe); }
    }
    forall v | v in Overlapping(a, qs, qe) + Overlapping(b, qs, qe)
      ensures v in Overlapping(u, qs, qe)
    {
      if v in Overlapping(a, qs, qe) {
        var k :| k in a && v in a[k] && Overlaps(k, qs, qe);
        assert k in u && u[k] == a[k];
      } else {
        var k :| k in b && v in b[k] && Overlaps(k, qs, qe);
        assert k in u && u[k] == b[k];
      }
    }
  }

  lemma OverlappingOfSingleton<V>(k: Key, vs: set<V>, qs: int, qe: int)
    ensures Overlapping(map[k := vs], qs, qe) == if Overlaps(k, qs, qe) then vs else {}
  {
    var m := map[k := vs];
    if Overlaps(k, qs, qe) {
      forall v | v in vs ensures v in Overlapping(m, qs, qe) {
        assert k in m && v in m[k];
      }
    }
  }

  lemma OverlappingNone<V>(m: map<Key, set<V>>, qs: int, qe: int)
    requires forall k :: k in m ==> !Overlaps(k, qs, qe)
    ensures Overlapping(m, qs, qe) == {}
  {
  }

  /** The contents of a node split into its left subtree, right subtree and own interval. */
  lemma {:induction false} ContentsSplit<V>(t: Tree<V>, qs: int, qe: int)
    requires Bst(t) && t.Node?
    ensures Overlapping(Contents(t), qs, qe) ==
      Overlapping(Contents(t.left), qs, qe) + Overlapping(Contents(t.right), qs, qe) +
      (if Overlaps(KeyOf(t.iv), qs, qe) then t.iv.values else {})
  {
    var cl, cr, ck := Contents(t.left), Contents(t.right), map[KeyOf(t.iv) := t.iv.values];
    assert cl.Keys !! cr.Keys by {
      forall k | k in cl.Keys ensures k !in cr.Keys {
        assert Less(k, KeyOf(t.iv));
      }
    }
    OverlappingOfUnion(cl, cr, qs, qe);
    OverlappingOfUnion(cl + cr, ck, qs, qe);
    OverlappingOfSingleton(KeyOf(t.iv), t.iv.values, qs, qe);
  }

  /**
   * The pruned query answers exactly the reference question: neither shortcut
   * (going only left when the node starts after the query, giving up when the
   * cached largest end is before it) loses a value.
   */
  lemma {:induction false} QueryIsExact<V>(t: Tree<V>, qs: int, qe: int)
    requires Bst(t) && CachedMax(t)
    ensures ValuesInRange(t, qs, qe) == Overlapping(Contents(t), qs, qe)
  {
    match t
    case Nil =>
    case Node(l, iv, m, r) =>
      ContentsSplit(t, qs, qe);
      QueryIsExact(l, qs, qe);
      if iv.start > qe {
        assert forall k :: k in Contents(r) ==> !Overlaps(k, qs, qe) by {
          forall k | k in KeySet(r) ensures k.start > qe {
            assert Less(KeyOf(iv), k);
          }
        }
        OverlappingNone(Contents(r), qs, qe);
      } else if m < qs {
        CachedMaxIsLargestEnd(t);
        OverlappingNone(Contents(t), qs, qe);
      } else {
        QueryIsExact(r, qs, qe);
      }
  }

  lemma QueryOnEmpty<V>(qs: int, qe: int)
    ensures ValuesInRange<V>(Nil, qs, qe) == {}
    ensures Overlapping(Contents<V>(Nil), qs, qe) == {}
  {
  }

  // ----- insertion with rotations -----

  /** The stored intervals after adding `vs` under key `k`: merged into an existing set, or a new entry. */
  function AddTo<V>(m: map<Key, set<V>>, k: Key, vs: set<V>): (m': map<Key, set<V>>)
    ensures m'.Keys == m.Keys + {k}
    ensures m'[k] == (if k in m then m[k] else {}) + vs
    ensures forall j :: j in m && j != k ==> m'[j] == m[j]
  {
    m[k := if k in m then m[k] + vs else vs]
  }

  /** The right rotation of the source (lines 129-143): the left child becomes the parent. */
  function RotateRight<V>(t: Tree<V>): (r: Tree<V>)
    requires t.Node? && t.left.Node?
    ensures r.Node? && r.iv == t.left.iv
    ensures KeySet(r) == KeySet(t)
    ensures Size(r) == Size(t)
  {
    var np := t.left;
    var op := Recompute(np.right, t.iv, t.right);
    Recompute(np.left, np.iv, op)
  }

  /** The left rotation of the source (lines 155-169): the right child becomes the parent. */
  function RotateLeft<V>(t: Tree<V>): (r: Tree<V>)
    requires t.Node? && t.right.Node?
    ensures r.Node? && r.iv == t.right.iv
    ensures KeySet(r) == KeySet(t)
    ensures Size(r) == Size(t)
  {
    var np := t.right;
    var op := Recompute(t.left, t.iv, np.left);
    Recompute(op, np.iv, np.right)
  }

  /**
   * The recursive addInterval: descend by key; merge the value set into an
   * exactly matching node, or attach a new leaf; on the way back up rotate a
   * child that has a higher priority than its parent, and recompute the cache.
   */
  function Insert<V>(t: Tree<V>, iv: Interval<V>): (r: Tree<V>)
    ensures r.Node?
    ensures KeySet(r) == KeySet(t) + {KeyOf(iv)}
  {
    match t
    case Nil => Leaf(iv)
    case Node(l, cur, m, rt) =>
      var c := Compare(KeyOf(cur), KeyOf(iv));
      if c > 0 then
        var l' := Insert(l, iv);
        if l'.iv.priority > cur.priority then RotateRight(Node(l', cur, m, rt))
        else Recompute(l', cur, rt)
      else if c < 0 then
        var r' := Insert(rt, iv);
        if r'.iv.priority > cur.priority then RotateLeft(Node(l, cur, m, r'))
        else Recompute(l, cur, r')
      else
        Recompute(l, cur.(values := cur.values + iv.values), rt)
  }

  // ----- rotations preserve the invariants -----

  lemma RotateRightBst<V>(t: Tree<V>)
    requires t.Node? && t.left.Node? && Bst(t)
    ensures Bst(RotateRight(t))
  {
    var np := t.left;
    assert Less(KeyOf(np.iv), KeyOf(t.iv));
    forall k | k in KeySet(t.right) ensures Less(KeyOf(np.iv), k) {
      assert Less(KeyOf(t.iv), k);
    }
  }

  lemma RotateLeftBst<V>(t: Tree<V>)
    requires t.Node? && t.right.Node? && Bst(t)
    ensures Bst(RotateLeft(t))
  {
    var np := t.right;
    assert Less(KeyOf(t.iv), KeyOf(np.iv));
    forall k | k in KeySet(t.left) ensures Less(k, KeyOf(np.iv)) {
      assert Less(k, KeyOf(t.iv));
    }
  }

  lemma UnionAssoc<V>(a: map<Key, set<V>>, b: map<Key, set<V>>, c: map<Key, set<V>>)
    ensures (a + b) + c == a + (b + c)
  {
  }

  lemma UnionComm<V>(a: map<Key, set<V>>, b: map<Key, set<V>>)
    requires a.Keys !! b.Keys
    ensures a + b == b + a
  {
  }

  lemma RotateRightContents<V>(t: Tree<V>)
    requires t.Node? && t.left.Node? && Bst(t)
    ensures Contents(RotateRight(t)) == Contents(t)
  {
    var np := t.left;
    var a, b, c := Contents(np.left), Contents(np.right), Contents(t.right);
    var x, y := map[KeyOf(np.iv) := np.iv.values], map[KeyOf(t.iv) := t.iv.values];
    assert x.Keys !! (c + y).Keys by {
      assert KeyOf(np.iv) in KeySet(t.left);
      assert Less(KeyOf(np.iv), KeyOf(t.iv));
      forall k | k in KeySet(t.right) ensures Less(KeyOf(np.iv), k) {
        assert Less(KeyOf(t.iv), k);
      }
    }
    calc {
      Contents(t);
      (a + b + x) + c + y;
      { UnionAssoc(a + b + x, c, y); }
      (a + b + x) + (c + y);
      { UnionAssoc(a + b, x, c + y); }
      (a + b) + (x + (c + y));
      { UnionComm(x, c + y); }
      (a + b) + ((c + y) + x);
      { UnionAssoc(a + b, c + y, x); UnionAssoc(a, b, c + y); UnionAssoc(b, c, y); }
      a + (b + c + y) + x;
      Contents(RotateRight(t));
    }
  }

  lemma RotateLeftContents<V>(t: Tree<V>)
    requires t.Node? && t.right.Node? && Bst(t)
    ensures Contents(RotateLeft(t)) == Contents(t)
  {
    var np := t.right;
    var a, b, c := Contents(t.left), Contents(np.left), Contents(np.right);
    var x, y := map[KeyOf(t.iv) := t.iv.values], map[KeyOf(np.iv) := np.iv.values];
    assert x.Keys !! (c + y).Keys by {
      assert KeyOf(np.iv) in KeySet(t.right);
      assert Less(KeyOf(t.iv), KeyOf(np.iv));
      assert forall k :: k in KeySet(np.right) ==> k in KeySet(t.right);
    }
    calc {
      Contents(RotateLeft(t));
      (a + b + x) + c + y;
      { UnionAssoc(a + b + x, c, y); }
      (a + b + x) + (c + y);
      { UnionAssoc(a + b, x, c + y); }
      (a + b) + (x + (c + y));
      { UnionComm(x, c + y); }
      (a + b) + ((c + y) + x);
      { UnionAssoc(a + b, c + y, x); UnionAssoc(a, b, c + y); UnionAssoc(b, c, y); }
      a + (b + c + y) + x;
      Contents(t);
    }
  }

  // ----- insertion preserves the invariants -----

  /** Insertion keeps the search-tree order, through every rotation. */
  lemma {:induction false} InsertBst<V>(t: Tree<V>, iv: Interval<V>)
    requires Bst(t)
    ensures Bst(Insert(t, iv))
  {
    match t
    case Nil =>
    case Node(l, cur, m, rt) =>
      var c := Compare(KeyOf(cur), KeyOf(iv));
      if c > 0 {
        InsertBst(l, iv);
        var l' := Insert(l, iv);
        if l'.iv.priority > cur.priority { RotateRightBst(Node(l', cur, m, rt)); }
      } else if c < 0 {
        InsertBst(rt, iv);
        var r' := Insert(rt, iv);
        if r'.iv.priority > cur.priority { RotateLeftBst(Node(l, cur, m, r')); }
      }
  }

  /** After an insertion every cached value is again the max of its node's end and its children's cached values. */
  lemma {:induction false} InsertCachedMax<V>(t: Tree<V>, iv: Interval<V>)
    requires CachedMax(t)
    ensures CachedMax(Insert(t, iv))
  {
    match t
    case Nil =>
    case Node(l, cur, m, rt) =>
      var c := Compare(KeyOf(cur), KeyOf(iv));
      if c > 0 {
        InsertCachedMax(l, iv);
      } else if c < 0 {
        InsertCachedMax(rt, iv);
      }
  }

  /**
   * Insertion keeps the heap order; what it returns has its root's children
   * no higher than the old root's priority, which is what lets the parent's
   * rotation keep the order too.
   */
  lemma {:induction false} InsertHeap<V>(t: Tree<V>, iv: Interval<V>)
    requires Heap(t)
    ensures Heap(Insert(t, iv))
    ensures t.Node? ==>
      var r := Insert(t, iv);
      (r.left.Node? ==> r.left.iv.priority <= t.iv.priority) &&
      (r.right.Node? ==> r.right.iv.priority <= t.iv.priority)
    ensures Insert(t, iv).iv.priority == iv.priority ||
      (t.Node? && Insert(t, iv).iv.priority == t.iv.priority)
  {
    match t
    case Nil =>
    case Node(l, cur, m, rt) =>
      var c := Compare(KeyOf(cur), KeyOf(iv));
      if c > 0 {
        InsertHeap(l, iv);
      } else if c < 0 {
        InsertHeap(rt, iv);
      }
  }

  /** Insertion adds the interval's values to the stored intervals; rotations only relink nodes. */
  lemma AddToUnderLeft<V>(a: map<Key, set<V>>, b: map<Key, set<V>>, c: map<Key, set<V>>, k: Key, vs: set<V>)
    requires k !in b && k !in c
    ensures AddTo(a, k, vs) + b + c == AddTo(a + b + c, k, vs)
  {
  }

  lemma AddToUnderRight<V>(a: map<Key, set<V>>, b: map<Key, set<V>>, c: map<Key, set<V>>, k: Key, vs: set<V>)
    requires k !in a && k !in c
    ensures a + AddTo(b, k, vs) + c == AddTo(a + b + c, k, vs)
  {
  }

  lemma AddToAtRoot<V>(a: map<Key, set<V>>, b: map<Key, set<V>>, k: Key, old_vs: set<V>, vs: set<V>)
    requires k !in a && k !in b
    ensures a + b + map[k := old_vs + vs] == AddTo(a + b + map[k := old_vs], k, vs)
  {
  }

  lemma InsertContentsLeft<V>(t: Tree<V>, iv: Interval<V>)
    requires Bst(t) && t.Node? && Less(KeyOf(iv), KeyOf(t.iv))
    requires Bst(Insert(t.left, iv))
    requires Contents(Insert(t.left, iv)) == AddTo(Contents(t.left), KeyOf(iv), iv.values)
    ensures Contents(Insert(t, iv)) == AddTo(Contents(t), KeyOf(iv), iv.values)
  {
    var k, cur := KeyOf(iv), t.iv;
    var l' := Insert(t.left, iv);
    var t' := Node(l', cur, t.largest, t.right);
    var ck := map[KeyOf(cur) := cur.values];
    assert k !in Contents(t.right) && k !in ck;
    AddToUnderLeft(Contents(t.left), Contents(t.right), ck, k, iv.values);
    assert Contents(t') == AddTo(Contents(t), k, iv.values);
    if l'.iv.priority > cur.priority {
      assert Bst(t');
      RotateRightContents(t');
    }
  }

  lemma InsertContentsRight<V>(t: Tree<V>, iv: Interval<V>)
    requires Bst(t) && t.Node? && Less(KeyOf(t.iv), KeyOf(iv))
    requires Bst(Insert(t.right, iv))
    requires Contents(Insert(t.right, iv)) == AddTo(Contents(t.right), KeyOf(iv), iv.values)
    ensures Contents(Insert(t, iv)) == AddTo(Contents(t), KeyOf(iv), iv.values)
  {
    var k, cur := KeyOf(iv), t.iv;
    var r' := Insert(t.right, iv);
    var t' := Node(t.left, cur, t.largest, r');
    var ck := map[KeyOf(cur) := cur.values];
    assert k !in Contents(t.left) && k !in ck;
    AddToUnderRight(Contents(t.left), Contents(t.right), ck, k, iv.values);
    assert Contents(t') == AddTo(Contents(t), k, iv.values);
    if r'.iv.priority > cur.priority {
      assert Bst(t');
      RotateLeftContents(t');
    }
  }

  /** Insertion adds the interval's values to the stored intervals; rotations only relink nodes. */
  lemma {:induction false} InsertContents<V>(t: Tree<V>, iv: Interval<V>)
    requires Bst(t)
    ensures Contents(Insert(t, iv)) == AddTo(Contents(t), KeyOf(iv), iv.values)
  {
    match t
    case Nil =>
    case Node(l, cur, m, rt) =>
      var c := Compare(KeyOf(cur), KeyOf(iv));
      var k := KeyOf(iv);
      if c > 0 {
        InsertContents(l, iv);
        InsertBst(l, iv);
        InsertContentsLeft(t, iv);
      } else if c < 0 {
        InsertContents(rt, iv);
        InsertBst(rt, iv);
        InsertContentsRight(t, iv);
      } else {
        assert k !in Contents(l) && k !in Contents(rt);
        AddToAtRoot(Contents(l), Contents(rt), k, cur.values, iv.values);
      }
  }

  /** An existing key pair creates no node; a new one creates exactly one. */
  lemma {:induction false} InsertSize<V>(t: Tree<V>, iv: Interval<V>)
    requires Bst(t)
    ensures Size(Insert(t, iv)) == if KeyOf(iv) in KeySet(t) then Size(t) else Size(t) + 1
  {
    match t
    case Nil =>
    case Node(l, cur, m, rt) =>
      var c := Compare(KeyOf(cur), KeyOf(iv));
      var k := KeyOf(iv);
      if c > 0 {
        InsertSize(l, iv);
      } else if c < 0 {
        InsertSize(rt, iv);
      }
  }

  lemma {:induction false} InsertValid<V>(t: Tree<V>, iv: Interval<V>)
    requires Valid(t)
    ensures Valid(Insert(t, iv))
    ensures Contents(Insert(t, iv)) == AddTo(Contents(t), KeyOf(iv), iv.values)
    ensures Size(Insert(t, iv)) == if KeyOf(iv) in KeySet(t) then Size(t) else Size(t) + 1
  {
    InsertBst(t, iv);
    InsertHeap(t, iv);
    InsertCachedMax(t, iv);
    InsertContents(t, iv);
    InsertSize(t, iv);
  }

  // ----- facts about the stored intervals -----

  lemma AllValuesAddTo<V>(m: map<Key, set<V>>, k: Key, vs: set<V>)
    ensures AllValues(AddTo(m, k, vs)) == AllValues(m) + vs
  {
    var m' := AddTo(m, k, vs);
    forall v | v in AllValues(m') ensures v in AllValues(m) + vs {
      var j :| j in m' && v in m'[j];
      if j != k || (k in m && v in m[k]) { assert v in AllValues(m); }
    }
    forall v | v in AllValues(m) + vs ensures v in AllValues(m') {
      if v in vs {
        assert k in m' && v in m'[k];
      } else {
        var j :| j in m && v in m[j];
        assert j in m' && v in m'[j];
      }
    }
  }

  /** The outcome of two insertions does not depend on their order. */
  lemma AddToCommutes<V>(m: map<Key, set<V>>, k1: Key, vs1: set<V>, k2: Key, vs2: set<V>)
    ensures AddTo(AddTo(m, k1, vs1), k2, vs2) == AddTo(AddTo(m, k2, vs2), k1, vs1)
  {
    if k1 == k2 {
      assert (if k1 in m then m[k1] else {}) + vs1 + vs2 == (if k1 in m then m[k1] else {}) + vs2 + vs1;
    }
  }
}
