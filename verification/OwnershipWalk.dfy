/** The breadth-first phase of the recovery-only ownership walk over an old
    fixed-V1 tree (src/fixed_v1_tree_reclaim.h:136-240).  The per-page arrays of
    the walk are kept as one array of records. */
module OwnershipWalk {
  import opened Pages
  import opened Trees
  import opened LevelOrder
  import opened OldTree

  // What the walk remembers about one page.
  datatype Slot = Slot(seen: bool, parentOf: nat, kind: Kind, resolved: bool,
                       lo: nat, hi: nat, prev: nat, next: nat)

  const BLANK: Slot := Slot(false, 0, Internal, false, 0, 0, 0, 0)

  // The record of page `p` once it has been visited.
  ghost predicate Recorded(pages: seq<Page>, slots: seq<Slot>, p: nat) {
    && p < |pages| == |slots|
    && slots[p].kind == pages[p].kind
    && slots[p].resolved == pages[p].kind.Leaf?
    && (pages[p].kind.Leaf? ==>
          && slots[p].prev == pages[p].prev && slots[p].next == pages[p].next
          && slots[p].lo == pages[p].FirstKey() && slots[p].hi == pages[p].LastKey())
  }

  // The checks the walk makes on one dequeued page, given the parent that enqueued it.
  predicate PageOk(pages: seq<Page>, free: seq<nat>, root: nat, parentOf: nat, p: nat)
    requires p < |pages|
  {
    && p !in free
    && HeaderOk(pages[p], p == root)
    && (p != root ==> pages[p].parent == parentOf)
    && (pages[p].kind.Leaf? ==>
          && LeafOk(pages[p], p == root)
          && pages[p].prev < |pages| && pages[p].next < |pages|)
    && (pages[p].kind.Internal? ==>
          && 1 <= |pages[p].cells| <= INTERNAL_NODE_MAX_KEYS
          && Increasing(pages[p].Separators()))
  }

  // Entry `i` was visited, and its children remember it as their parent.
  ghost predicate Settled(pages: seq<Page>, free: seq<nat>, root: nat, slots: seq<Slot>, q: seq<nat>, st: seq<nat>,
                          i: nat) {
    && Expanded(pages, q, st, i)
    && Recorded(pages, slots, q[i])
    && PageOk(pages, free, root, slots[q[i]].parentOf, q[i])
    && forall c :: st[i] <= c < st[i + 1] ==> q[c] < |slots| && slots[q[c]].parentOf == q[i]
  }

  // Every page in the queue is in range and marked, and only those are.
  ghost predicate Marked(slots: seq<Slot>, q: seq<nat>) {
    && Distinct(q)
    && (forall c :: 0 <= c < |q| ==> q[c] < |slots|)
    && (forall x :: 0 <= x < |slots| ==> (slots[x].seen <==> x in q))
  }

  ghost function LeafPages(pages: seq<Page>, q: seq<nat>): set<nat> {
    set x | x in q && x < |pages| && pages[x].kind.Leaf?
  }

  // The state between two turns of the loop: the first `head` entries are settled.
  ghost predicate Traversed(pages: seq<Page>, free: seq<nat>, root: nat, slots: seq<Slot>, q: seq<nat>, st: seq<nat>,
                            head: nat) {
    && |slots| == |pages|
    && |q| > 0 && q[0] == root
    && (forall c :: 1 <= c < |q| ==> q[c] != 0)
    && head <= |q| && |st| == head + 1 && st[0] == 1 && st[head] == |q|
    && Marked(slots, q)
    && (forall i :: 0 <= i < head ==> Settled(pages, free, root, slots, q, st, i))
    && (forall x :: 0 <= x < |slots| && x !in q[..head] ==>
          !slots[x].resolved && slots[x].lo == 0 && slots[x].hi == 0)
  }

  // The children `edges` may be appended to the queue `q`.
  ghost predicate Admissible(n: nat, q: seq<nat>, edges: seq<nat>) {
    && Distinct(edges)
    && forall e :: e in edges ==> e != 0 && e < n && e !in q
  }

  // The records after `edges` have been enqueued by `p`.
  ghost predicate AdoptedBy(before: seq<Slot>, after: seq<Slot>, edges: seq<nat>, p: nat) {
    && |before| == |after|
    && forall x :: 0 <= x < |after| ==>
         after[x] == if x in edges then before[x].(seen := true, parentOf := p) else before[x]
  }

  lemma NotAdmissible(n: nat, q: seq<nat>, edges: seq<nat>, i: nat)
    requires i < |edges|
    requires edges[i] == 0 || edges[i] >= n || edges[i] in q + edges[..i]
    ensures !Admissible(n, q, edges)
  {
    assert edges[i] in edges;
    if edges[i] in edges[..i] {
      var j :| 0 <= j < i && edges[..i][j] == edges[i];
      assert edges[j] == edges[i];
    }
  }

  lemma DistinctConcat(q: seq<nat>, edges: seq<nat>)
    requires Distinct(q) && Distinct(edges)
    requires forall e :: e in edges ==> e !in q
    ensures Distinct(q + edges)
  {
    var s := q + edges;
    forall i, j | 0 <= i < j < |s| ensures s[i] != s[j] {
      assert i < |q| ==> s[i] in q;
      assert j >= |q| ==> s[j] in edges;
    }
  }

  lemma CanAppend(q: seq<nat>, edges: seq<nat>, i: nat, n: nat)
    requires i < |edges|
    requires Distinct(q) && Admissible(n, q, edges[..i])
    requires forall y :: y in q ==> y < n
    requires edges[i] != 0 && edges[i] < n && edges[i] !in q + edges[..i]
    ensures q + edges[..i + 1] == (q + edges[..i]) + [edges[i]]
    ensures |q| + i < n && Admissible(n, q, edges[..i + 1])
  {
    assert edges[..i + 1] == edges[..i] + [edges[i]];
    assert edges[i] !in edges[..i];
    DistinctConcat(q, edges[..i + 1]);
    DistinctBelow(q + edges[..i + 1], n);
  }

  lemma AdoptNext(before: seq<Slot>, after: seq<Slot>, q: seq<nat>, edges: seq<nat>, i: nat, p: nat)
    requires i < |edges| && edges[i] < |after| && AdoptedBy(before, after, edges[..i], p)
    ensures AdoptedBy(before, after[edges[i] := after[edges[i]].(seen := true, parentOf := p)], edges[..i + 1], p)
  {
    assert edges[..i + 1] == edges[..i] + [edges[i]];
  }

  // The separators before child `i` are in order and `previous` is the last of them.
  predicate SeparatorsUpTo(s: seq<nat>, i: nat, previous: nat) {
    var k := if i < |s| then i else |s|;
    && Increasing(s[..k])
    && (k > 0 ==> previous == s[k - 1])
  }

  lemma NextSeparator(s: seq<nat>, i: nat, previous: nat)
    requires i <= |s|
    requires i < |s| ==> Increasing(s[..i]) && (i > 0 ==> s[i - 1] < s[i]) && previous == s[i]
    requires i == |s| ==> SeparatorsUpTo(s, i, previous)
    ensures SeparatorsUpTo(s, i + 1, previous)
    ensures i == |s| ==> Increasing(s)
  {
    if i < |s| {
      forall a, b | 0 <= a < b < i + 1 ensures s[a] < s[b] {
        if b < i {
          assert s[..i][a] < s[..i][b];
        } else if a < i - 1 {
          assert s[..i][a] < s[..i][i - 1];
        }
      }
    } else {
      assert s[..|s|] == s;
    }
  }

  // A settled entry stays so while the queue grows behind it.
  lemma SettledStays(pages: seq<Page>, free: seq<nat>, root: nat, before: seq<Slot>, after: seq<Slot>,
                     q: seq<nat>, st: seq<nat>, edges: seq<nat>, end: nat, i: nat)
    requires Settled(pages, free, root, before, q, st, i) && |after| == |before|
    requires forall x :: x in q ==> x < |before| && after[x].parentOf == before[x].parentOf
    requires after[q[i]] == before[q[i]]
    ensures Settled(pages, free, root, after, q + edges, st + [end], i)
  {
    assert (q + edges)[st[i]..st[i + 1]] == q[st[i]..st[i + 1]];
    forall c | st[i] <= c < st[i + 1]
      ensures (q + edges)[c] < |after| && after[(q + edges)[c]].parentOf == q[i]
    {
      assert (q + edges)[c] == q[c];
    }
  }

  lemma MarkedGrows(before: seq<Slot>, after: seq<Slot>, q: seq<nat>, edges: seq<nat>, p: nat)
    requires Marked(before, q) && p in q && |after| == |before|
    requires Admissible(|before|, q, edges)
    requires forall x :: 0 <= x < |after| ==> (after[x].seen <==> before[x].seen || x in edges)
    ensures Marked(after, q + edges)
  {
    DistinctConcat(q, edges);
    forall c | 0 <= c < |q + edges| ensures (q + edges)[c] < |after| {
      assert c >= |q| ==> (q + edges)[c] in edges;
    }
  }

  // Visiting entry `head` appends its children and settles it.
  lemma TraversedGrows(pages: seq<Page>, free: seq<nat>, root: nat, before: seq<Slot>, after: seq<Slot>,
                       q: seq<nat>, st: seq<nat>, edges: seq<nat>, head: nat)
    requires Traversed(pages, free, root, before, q, st, head) && head < |q|
    requires edges == pages[q[head]].Edges()
    requires Admissible(|pages|, q, edges)
    requires |after| == |pages|
    requires forall x :: 0 <= x < |pages| && x != q[head] && x !in edges ==> after[x] == before[x]
    requires forall x :: x in edges ==> after[x] == before[x].(seen := true, parentOf := q[head])
    requires after[q[head]].seen && after[q[head]].parentOf == before[q[head]].parentOf
    requires PageOk(pages, free, root, before[q[head]].parentOf, q[head])
    requires Recorded(pages, after, q[head])
    ensures Traversed(pages, free, root, after, q + edges, st + [|q + edges|], head + 1)
  {
    MarkedGrows(before, after, q, edges, q[head]);
    forall i | 0 <= i < head ensures Settled(pages, free, root, after, q + edges, st + [|q + edges|], i) {
      assert q[i] in q && q[i] != q[head];
      SettledStays(pages, free, root, before, after, q, st, edges, |q + edges|, i);
    }
    HeadSettles(pages, free, root, before, after, q, st, edges, head);
    UntouchedBeyond(before, after, q, edges, head);
  }

  // Entries that have not been visited keep an empty range.
  lemma UntouchedBeyond(before: seq<Slot>, after: seq<Slot>, q: seq<nat>, edges: seq<nat>, head: nat)
    requires head < |q| && |after| == |before|
    requires forall x :: 0 <= x < |before| && x !in q[..head] ==>
               !before[x].resolved && before[x].lo == 0 && before[x].hi == 0
    requires forall x :: 0 <= x < |after| && x != q[head] && x !in edges ==> after[x] == before[x]
    requires forall x :: x in edges ==> x !in q && x < |after| && after[x].resolved == before[x].resolved
                                         && after[x].lo == before[x].lo && after[x].hi == before[x].hi
    ensures forall x :: 0 <= x < |after| && x !in (q + edges)[..head + 1] ==>
              !after[x].resolved && after[x].lo == 0 && after[x].hi == 0
  {
    assert (q + edges)[..head + 1] == q[..head] + [q[head]];
  }

  lemma HeadSettles(pages: seq<Page>, free: seq<nat>, root: nat, before: seq<Slot>, after: seq<Slot>,
                    q: seq<nat>, st: seq<nat>, edges: seq<nat>, head: nat)
    requires Traversed(pages, free, root, before, q, st, head) && head < |q|
    requires edges == pages[q[head]].Edges()
    requires |after| == |pages|
    requires forall x :: x in edges ==> x < |after| && after[x].parentOf == q[head]
    requires PageOk(pages, free, root, after[q[head]].parentOf, q[head])
    requires Recorded(pages, after, q[head])
    ensures Settled(pages, free, root, after, q + edges, st + [|q + edges|], head)
  {
    var q', st' := q + edges, st + [|q + edges|];
    assert q'[st'[head]..st'[head + 1]] == edges;
    assert forall c :: |q| <= c < |q'| ==> q'[c] in edges;
  }

  lemma {:induction false} ExpandedBy(pages: seq<Page>, free: seq<nat>, root: nat, slots: seq<Slot>,
                                      q: seq<nat>, st: seq<nat>, c: nat, from: nat) returns (j: nat)
    requires |st| > from && st[from] <= c < |q| == st[|st| - 1]
    requires forall i :: 0 <= i < |st| - 1 ==> Settled(pages, free, root, slots, q, st, i)
    ensures j + 1 < |st| && st[j] <= c < st[j + 1]
    decreases |st| - from
  {
    assert from < |st| - 1 ==> Settled(pages, free, root, slots, q, st, from);
    if c < st[from + 1] {
      j := from;
    } else {
      j := ExpandedBy(pages, free, root, slots, q, st, c, from + 1);
    }
  }

  lemma EntryParent(pages: seq<Page>, free: seq<nat>, root: nat, owned: set<nat>,
                    q: seq<nat>, st: seq<nat>, c: nat, j: nat)
    requires Expanded(pages, q, st, j) && st[j] <= c < st[j + 1]
    requires PageFacts(pages, free, root, owned, q[j])
    ensures q[c] < |pages| && pages[q[c]].parent == q[j]
  {
    assert q[st[j]..st[j + 1]][c - st[j]] == q[c];
    assert q[c] in pages[q[j]].Edges();
  }

  // If the queue consists of pages of a tree, the next entry passes its checks.
  lemma EntryPasses(pages: seq<Page>, free: seq<nat>, root: nat, owned: set<nat>,
                    slots: seq<Slot>, q: seq<nat>, st: seq<nat>, head: nat)
    requires Traversed(pages, free, root, slots, q, st, head) && head < |q|
    requires forall x :: x in q ==> x in owned
    requires forall x :: x in owned ==> PageFacts(pages, free, root, owned, x)
    ensures PageOk(pages, free, root, slots[q[head]].parentOf, q[head])
    ensures Admissible(|pages|, q, pages[q[head]].Edges())
  {
    var p := q[head];
    assert PageFacts(pages, free, root, owned, p);
    forall c | 1 <= c < |q| ensures exists j :: 0 <= j < head && pages[q[c]].parent == q[j] == slots[q[c]].parentOf {
      var j := ExpandedBy(pages, free, root, slots, q, st, c, 0);
      assert Settled(pages, free, root, slots, q, st, j);
      EntryParent(pages, free, root, owned, q, st, c, j);
    }
    var edges := pages[p].Edges();
    forall e | e in edges ensures e !in q {
      forall c | 0 <= c < |q| ensures q[c] != e {
        if c > 0 {
          assert pages[q[c]].parent != p;
        }
      }
    }
  }

  lemma OwnedEntryPasses(pages: seq<Page>, free: seq<nat>, root: nat, owned: set<nat>,
                         slots: seq<Slot>, q: seq<nat>, st: seq<nat>, head: nat)
    requires Traversed(pages, free, root, slots, q, st, head) && head < |q|
    requires forall x :: x in q ==> x in owned
    requires forall x :: x in owned ==> PageFacts(pages, free, root, owned, x)
    ensures PageOk(pages, free, root, slots[q[head]].parentOf, q[head])
    ensures Admissible(|pages|, q, pages[q[head]].Edges())
    ensures forall x :: x in q + pages[q[head]].Edges() ==> x in owned
  {
    EntryPasses(pages, free, root, owned, slots, q, st, head);
    assert q[head] in q && PageFacts(pages, free, root, owned, q[head]);
  }

  // Enqueue the children of an internal page `p`, refusing a child that is
  // page zero, out of range or already enqueued, and separators out of order.
  method Expand(queue: array<nat>, slots: array<Slot>, count: nat, p: nat,
                children: seq<nat>, separators: seq<nat>, ghost q: seq<nat>)
    returns (ok: bool, grown: nat)
    requires queue.Length == slots.Length <= INVALID_PAGE_NUM
    requires count == |q| <= queue.Length && queue[..count] == q && Marked(slots[..], q)
    requires |children| == |separators| + 1
    modifies queue, slots
    ensures ok <==> Increasing(separators) && Admissible(slots.Length, q, children)
    ensures ok ==> grown == |q + children| <= queue.Length && queue[..grown] == q + children
    ensures ok ==> AdoptedBy(old(slots[..]), slots[..], children, p)
  {
    ghost var before := slots[..];
    grown := count;
    var i := 0;
    var previous := 0;
    assert q + children[..0] == q;
    while i <= |separators|
      invariant 0 <= i <= |children|
      invariant grown == |q| + i <= queue.Length && queue[..grown] == q + children[..i]
      invariant Admissible(slots.Length, q, children[..i])
      invariant AdoptedBy(before, slots[..], children[..i], p)
      invariant SeparatorsUpTo(separators, i, previous)
    {
      var child := children[i];
      if child == 0 || child == INVALID_PAGE_NUM || child >= slots.Length || slots[child].seen {
        NotAdmissible(slots.Length, q, children, i);
        return false, grown;
      }
      if i < |separators| {
        var separator := separators[i];
        if i > 0 && separator <= previous {
          return false, grown;
        }
        previous := separator;
      }
      NextSeparator(separators, i, previous);
      CanAppend(q, children, i, slots.Length);
      AdoptNext(before, slots[..], q, children, i, p);
      slots[child] := slots[child].(seen := true, parentOf := p);
      queue[grown] := child;
      grown := grown + 1;
      i := i + 1;
    }
    assert children[..|children|] == children;
    return true, grown;
  }

  // The key range of a leaf whose keys ascend.
  method RecordKeys(slots: array<Slot>, page: Page, p: nat) returns (ok: bool)
    requires p < slots.Length && slots[p].lo == slots[p].hi == 0
    modifies slots
    ensures ok <==> Increasing(page.keys)
    ensures ok ==> slots[..] == old(slots[..])[p := old(slots[p]).(lo := page.FirstKey(), hi := page.LastKey())]
  {
    var lo, previous := 0, 0;
    for i := 0 to |page.keys|
      invariant Increasing(page.keys[..i])
      invariant lo == (if i == 0 then 0 else page.keys[0]) && previous == (if i == 0 then 0 else page.keys[i - 1])
      invariant slots[..] == old(slots[..])[p := old(slots[p]).(lo := lo, hi := previous)]
    {
      var key := page.keys[i];
      if i > 0 && key <= previous {
        return false;
      }
      if i == 0 {
        lo := key;
        slots[p] := slots[p].(lo := key);
      }
      slots[p] := slots[p].(hi := key);
      previous := key;
    }
    assert page.keys[..|page.keys|] == page.keys;
    ok := true;
  }

  // Check a leaf and record its links and, once they are in order, its keys.
  method RecordLeaf(slots: array<Slot>, page: Page, p: nat, isRoot: bool) returns (ok: bool)
    requires p < slots.Length && slots[p].lo == slots[p].hi == 0
    modifies slots
    ensures ok <==> LeafOk(page, isRoot) && page.prev < slots.Length && page.next < slots.Length
    ensures ok ==>
      slots[..] == old(slots[..])[p := old(slots[p]).(resolved := true, prev := page.prev, next := page.next,
                                                                   lo := page.FirstKey(), hi := page.LastKey())]
  {
    if |page.keys| > LEAF_NODE_MAX_CELLS || (!isRoot && |page.keys| == 0) {
      return false;
    }
    if (page.prev != 0 && page.prev >= slots.Length) || (page.next != 0 && page.next >= slots.Length) {
      return false;
    }
    slots[p] := slots[p].(prev := page.prev, next := page.next);
    ok := RecordKeys(slots, page, p);
    if ok {
      slots[p] := slots[p].(resolved := true);
    }
  }

  // Check and record one dequeued page, and enqueue its children.
  method Visit(pages: seq<Page>, free: seq<nat>, root: nat, queue: array<nat>, slots: array<Slot>, count: nat, p: nat,
               ghost q: seq<nat>, ghost st: seq<nat>, ghost head: nat) returns (ok: bool, grown: nat)
    requires queue.Length == slots.Length == |pages| <= INVALID_PAGE_NUM
    requires Traversed(pages, free, root, slots[..], q, st, head) && head < |q| && p == q[head]
    requires count == |q| <= queue.Length && queue[..count] == q
    modifies queue, slots
    ensures ok <==> PageOk(pages, free, root, old(slots[p].parentOf), p) && Admissible(|pages|, q, pages[p].Edges())
    ensures ok ==> grown == |q + pages[p].Edges()| <= queue.Length && queue[..grown] == q + pages[p].Edges()
    ensures ok ==>
      Traversed(pages, free, root, slots[..], q + pages[p].Edges(), st + [|q + pages[p].Edges()|], head + 1)
  {
    ghost var before := slots[..];
    var page := pages[p];
    ok, grown := false, count;
    if p in free {
      return;
    }
    if page.kind.Unknown? || (p == root && (!page.isRoot || page.parent != 0))
       || (p != root && (page.isRoot || page.parent != slots[p].parentOf)) {
      return;
    }
    assert p !in q[..head];
    slots[p] := slots[p].(kind := page.kind);
    ghost var marked := slots[..];
    if page.kind.Leaf? {
      assert q + page.Edges() == q;
      ok := RecordLeaf(slots, page, p, p == root);
    } else {
      if |page.cells| == 0 || |page.cells| > INTERNAL_NODE_MAX_KEYS {
        return;
      }
      assert Marked(marked, q);
      ok, grown := Expand(queue, slots, count, p, page.Children(), page.Separators(), q);
    }
    if ok {
      TraversedGrows(pages, free, root, before, slots[..], q, st, page.Edges(), head);
    }
  }

  ghost predicate AllIn(q: seq<nat>, owned: set<nat>) {
    forall x :: x in q ==> x in owned
  }

  // The breadth-first phase.  `owned` is the set of pages a well-formed tree
  // would consist of, if there is one; the phase fails only if there is none.
  method Enqueue(pages: seq<Page>, free: seq<nat>, root: nat, ghost has: bool, ghost owned: set<nat>)
    returns (ok: bool, queue: array<nat>, slots: array<Slot>, count: nat, leafCount: nat, ghost st: seq<nat>)
    requires root < |pages| <= INVALID_PAGE_NUM
    requires has ==> root in owned && forall x :: x in owned ==> PageFacts(pages, free, root, owned, x)
    ensures fresh(queue) && fresh(slots) && queue.Length == slots.Length == |pages|
    ensures !ok ==> !has
    ensures ok ==> count <= |pages| && Traversed(pages, free, root, slots[..], queue[..count], st, count)
    ensures ok ==> leafCount == |LeafPages(pages, queue[..count])|
  {
    queue := new nat[|pages|](_ => 0);
    slots := new Slot[|pages|](_ => BLANK);
    queue[0] := root;
    count := 1;
    slots[root] := slots[root].(seen := true);
    st := [1];
    leafCount := 0;
    var head := 0;
    ghost var q := [root];
    while head < count
      invariant queue.Length == slots.Length == |pages|
      invariant count == |q| <= queue.Length && queue[..count] == q
      invariant Traversed(pages, free, root, slots[..], q, st, head)
      invariant leafCount == |LeafPages(pages, q[..head])|
      invariant has ==> AllIn(q, owned)
      decreases |pages| - head
    {
      var p := queue[head];
      assert p == queue[..count][head];
      if has {
        OwnedEntryPasses(pages, free, root, owned, slots[..], q, st, head);
      }
      LeafPagesStep(pages, q, pages[p].Edges(), head);
      ok, count := Visit(pages, free, root, queue, slots, count, p, q, st, head);
      if !ok {
        return;
      }
      if pages[p].kind.Leaf? {
        leafCount := leafCount + 1;
      }
      q := q + pages[p].Edges();
      st := st + [|q|];
      head := head + 1;
    }
    assert q[..head] == q;
    ok := true;
  }

  lemma LeafPagesStep(pages: seq<Page>, q: seq<nat>, edges: seq<nat>, head: nat)
    requires head < |q| && Distinct(q) && q[head] < |pages|
    ensures |LeafPages(pages, (q + edges)[..head + 1])|
         == |LeafPages(pages, q[..head])| + if pages[q[head]].kind.Leaf? then 1 else 0
  {
    assert (q + edges)[..head + 1] == q[..head] + [q[head]];
    var before, after := LeafPages(pages, q[..head]), LeafPages(pages, (q + edges)[..head + 1]);
    if pages[q[head]].kind.Leaf? {
      assert after == before + {q[head]};
    } else {
      assert after == before;
    }
  }
}
