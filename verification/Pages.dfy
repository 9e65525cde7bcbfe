/** Database pages as the B+ tree code sees them (src/table.h:82-154): a common
    header, leaf fields, and the separator cells of an internal node, whose last
    child is kept apart in the header.  The body is the inside of a slotted leaf.
    A tree over pages is then a finite term whose nodes name pages; every structural
    condition is local to one node. */
module Pages {
  import opened SlottedLeaves

  const INVALID_PAGE_NUM: nat := 0xFFFF_FFFF
  const INTERNAL_NODE_MAX_KEYS: nat := 509
  const LEAF_NODE_MAX_CELLS: nat := 13
  const MAX_TABLES: nat := 16

  datatype Option<+T> = None | Some(value: T)

  // The type byte of a page may hold a value that is neither node type.
  datatype Kind = Internal | Leaf | Unknown

  datatype Cell = Cell(child: nat, key: nat)

  datatype Page = Page(kind: Kind, isRoot: bool, parent: nat,
                       cells: seq<Cell>, right: nat,
                       keys: seq<nat>, prev: nat, next: nat, body: Body := EMPTY) {

    // Child number `i`: the one past the last cell is the right child.
    function Child(i: nat): nat
      requires i <= |cells|
    {
      if i < |cells| then cells[i].child else right
    }

    function Children(): (c: seq<nat>)
      ensures |c| == |cells| + 1
      ensures forall i :: 0 <= i < |c| ==> c[i] == Child(i)
    {
      seq(|cells| + 1, i requires 0 <= i <= |cells| => Child(i))
    }

    function Separators(): (k: seq<nat>)
      ensures |k| == |cells|
      ensures forall i :: 0 <= i < |k| ==> k[i] == cells[i].key
    {
      seq(|cells|, i requires 0 <= i < |cells| => cells[i].key)
    }

    // The key range of a leaf; an empty leaf reads as 0..0.
    function FirstKey(): nat {
      if keys == [] then 0 else keys[0]
    }

    function LastKey(): nat {
      if keys == [] then 0 else keys[|keys| - 1]
    }

    // The pages this page owns directly.
    function Edges(): seq<nat> {
      if kind.Internal? then Children() else []
    }
  }

  predicate Increasing(s: seq<nat>) {
    forall i, j :: 0 <= i < j < |s| ==> s[i] < s[j]
  }

  predicate Distinct<T(==)>(s: seq<T>) {
    forall i, j :: 0 <= i < j < |s| ==> s[i] != s[j]
  }

  lemma PrefixGrows<T>(s: seq<T>, k: nat)
    requires k < |s|
    ensures s[..k + 1] == s[..k] + [s[k]]
  {
  }

  lemma PrefixAll<T>(s: seq<T>)
    ensures s[..|s|] == s
  {
  }

  ghost function Elements<T>(s: seq<T>): set<T> {
    set x | x in s
  }

  lemma ElementsConcat<T>(a: seq<T>, b: seq<T>)
    ensures Elements(a + b) == Elements(a) + Elements(b)
  {
  }

  lemma {:induction false} DistinctCardinality<T>(s: seq<T>)
    requires Distinct(s)
    ensures |Elements(s)| == |s|
  {
    if s != [] {
      DistinctCardinality(s[1..]);
      assert Elements(s) == {s[0]} + Elements(s[1..]);
    }
  }

  lemma {:induction false} BoundedCardinality(s: set<nat>, n: nat)
    requires forall x :: x in s ==> x < n
    ensures |s| <= n
  {
    if n == 0 {
      assert s == {};
    } else {
      BoundedCardinality(s - {n - 1}, n - 1);
      assert s <= (s - {n - 1}) + {n - 1};
      SubsetCardinality(s, (s - {n - 1}) + {n - 1});
    }
  }

  lemma {:induction false} SubsetCardinality<T>(a: set<T>, b: set<T>)
    requires a <= b
    ensures |a| <= |b|
    ensures |a| == |b| ==> a == b
  {
    if a != {} {
      var x :| x in a;
      SubsetCardinality(a - {x}, b - {x});
      assert a == (a - {x}) + {x} && b == (b - {x}) + {x};
    }
  }

  // As many elements as positions: all different.
  lemma {:induction false} AllDifferent<T>(s: seq<T>)
    requires |Elements(s)| == |s|
    ensures Distinct(s)
  {
    if s != [] {
      var rest := s[1..];
      assert Elements(s) == Elements(rest) + {s[0]};
      AtMostLength(rest);
      if s[0] !in rest {
        assert |Elements(s)| == |Elements(rest)| + 1;
        AllDifferent(rest);
      }
    }
  }

  lemma {:induction false} AtMostLength<T>(s: seq<T>)
    ensures |Elements(s)| <= |s|
  {
    if s == [] {
      assert Elements(s) == {};
    } else {
      AtMostLength(s[1..]);
      assert Elements(s) == Elements(s[1..]) + {s[0]};
    }
  }

  // Distinct page numbers below `n` cannot outnumber `n`: the queue bound.
  lemma DistinctBelow(s: seq<nat>, n: nat)
    requires Distinct(s)
    requires forall x :: x in s ==> x < n
    ensures |s| <= n
  {
    DistinctCardinality(s);
    BoundedCardinality(Elements(s), n);
  }

  // A strictly increasing sequence is determined by the set of its elements.
  lemma {:induction false} SortedUnique<T(!new)>(a: seq<T>, b: seq<T>, less: (T, T) -> bool)
    requires forall x, y :: less(x, y) ==> !less(y, x)
    requires forall i, j :: 0 <= i < j < |a| ==> less(a[i], a[j])
    requires forall i, j :: 0 <= i < j < |b| ==> less(b[i], b[j])
    requires forall x :: x in a <==> x in b
    ensures a == b
    decreases |a|
  {
    assert a != [] ==> a[0] in b;
    assert b != [] ==> b[0] in a;
    if a == [] || b == [] {
    } else {
      assert a[0] == b[0] by {
        assert a[0] in b && b[0] in a;
      }
      assert !less(a[0], a[0]);
      forall x ensures x in a[1..] <==> x in b[1..] {
        if x in a[1..] {
          assert less(a[0], x) && x in b;
        }
        if x in b[1..] {
          assert less(b[0], x) && x in a;
        }
      }
      SortedUnique(a[1..], b[1..], less);
    }
  }
}
