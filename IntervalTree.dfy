/**
 * The interval index: a treap of intervals plus the set of every value ever
 * added. Insertion reassigns the root (rotations may move it); the query is
 * the pruned overlap search of module Treap.
 */
module IntervalTree {
  import opened Treap

  class IntervalTree<V(==)> {
    /** The root node; Nil is the source's null root. */
    var root: Tree<V>
    /** Every value passed to AddInterval (the source's `values` field). */
    var values: set<V>

    ghost predicate Valid()
      reads this
    {
      Treap.Valid(root) && values == AllValues(Contents(root))
    }

    constructor ()
      ensures Valid()
      ensures Contents(root) == map[] && values == {}
    {
      root := Nil;
      values := {};
    }

    /** getAllValues: the union of the value sets of all stored intervals. */
    method GetAllValues() returns (r: set<V>)
      requires Valid()
      ensures r == AllValues(Contents(root))
    {
      r := values;
    }

    /**
     * addInterval: merge `value` into the interval (start, end), creating a
     * node only if no node has that exact key pair. `priority` stands for the
     * random priority the source draws for the new node.
     */
    method AddInterval(start: int, end: int, value: V, priority: int)
      requires Valid()
      modifies this
      ensures Valid()
      ensures Contents(root) == AddTo(old(Contents(root)), Key(start, end), {value})
      ensures values == old(values) + {value}
      ensures Size(root) == old(Size(root)) + (if Key(start, end) in old(Contents(root)) then 0 else 1)
    {
      AllValuesAddTo(Contents(root), Key(start, end), {value});
      values := values + {value};
      var iv := Interval(start, end, {value}, priority);
      if root == Nil {
        root := Leaf(iv);
        return;
      }
      InsertValid(root, iv);
      root := Insert(root, iv);
    }

    /** getValuesInRange: the union of the value sets of every stored interval overlapping [start, end]. */
    method GetValuesInRange(start: int, end: int) returns (r: set<V>)
      requires Valid()
      ensures r == Overlapping(Contents(root), start, end)
    {
      if root == Nil {
        return {};
      }
      QueryIsExact(root, start, end);
      r := ValuesInRange(root, start, end);
    }
  }

  /** Inserting (1,3,x), (5,8,y), (10,12,z), whatever their priorities, and querying [4,6] finds exactly y. */
  method Example(p1: int, p2: int, p3: int) returns (r: set<string>)
    ensures r == {"y"}
  {
    var t := new IntervalTree<string>();
    t.AddInterval(1, 3, "x", p1);
    assert Contents(t.root) == map[Key(1, 3) := {"x"}];
    t.AddInterval(5, 8, "y", p2);
    assert Contents(t.root) == map[Key(1, 3) := {"x"}, Key(5, 8) := {"y"}];
    t.AddInterval(10, 12, "z", p3);
    assert Contents(t.root) == map[Key(1, 3) := {"x"}, Key(5, 8) := {"y"}, Key(10, 12) := {"z"}];
    r := t.GetValuesInRange(4, 6);
    ExampleOverlap();
  }

  lemma ExampleOverlap()
    ensures Overlapping(map[Key(1, 3) := {"x"}, Key(5, 8) := {"y"}, Key(10, 12) := {"z"}], 4, 6) == {"y"}
  {
    var m := map[Key(1, 3) := {"x"}, Key(5, 8) := {"y"}, Key(10, 12) := {"z"}];
    forall v | v in Overlapping(m, 4, 6) ensures v == "y" {
      var k :| k in m && v in m[k] && Overlaps(k, 4, 6);
    }
    assert Key(5, 8) in m && "y" in m[Key(5, 8)] && Overlaps(Key(5, 8), 4, 6);
  }
}
