/** The private chain of compact-V2 leaves a migration fills with rows in key
    order (src/leaf_cursor_read.h:49-290). */
module LeafChains {
  import opened Crc32
  import opened Pages
  import opened SlottedLeaves

  datatype Chain = Chain(leaves: seq<Page>, numbers: seq<nat>, rowCount: nat, lastKey: nat, hasLastKey: bool)

  // A leaf whose inside is a valid slotted page; its keys are those of the slots.
  predicate SlottedOk(p: Page) {
    p.kind.Leaf? && Increasing(p.keys) && Carries(p.body, p.keys)
  }

  predicate Carries(b: Body, keys: seq<nat>) {
    BodyOk(b) && KeysOf(b) == keys
  }

  lemma CarriedKeysRise(b: Body)
    requires BodyOk(b)
    ensures Increasing(KeysOf(b))
  {
    SlotFacts(b.slots, b.freeEnd);
  }

  // Leaf `i` is a slotted page linked to its neighbours, and its keys lie above
  // the previous leaf's; only the first leaf may be empty.
  predicate LeafInChain(leaves: seq<Page>, numbers: seq<nat>, i: nat)
    requires i < |leaves| <= |numbers|
  {
    && SlottedOk(leaves[i])
    && leaves[i].prev == (if i == 0 then 0 else numbers[i - 1])
    && leaves[i].next == (if i + 1 == |leaves| then 0 else numbers[i + 1])
    && (i > 0 ==>
          && leaves[i].keys != []
          && (leaves[i - 1].keys != [] ==> leaves[i - 1].LastKey() < leaves[i].FirstKey()))
  }

  function RowCount(leaves: seq<Page>, n: nat): nat
    requires n <= |leaves|
  {
    if n == 0 then 0 else RowCount(leaves, n - 1) + |leaves[n - 1].keys|
  }

  predicate LeavesOk(leaves: seq<Page>, numbers: seq<nat>) {
    && 1 <= |leaves| <= |numbers|
    && (forall i :: 0 <= i < |leaves| ==> LeafInChain(leaves, numbers, i))
  }

  predicate ChainOk(c: Chain) {
    && LeavesOk(c.leaves, c.numbers)
    && c.rowCount == RowCount(c.leaves, |c.leaves|)
    && c.hasLastKey == (c.leaves[|c.leaves| - 1].keys != [])
    && (c.hasLastKey ==> c.lastKey == c.leaves[|c.leaves| - 1].LastKey())
  }

  // Zero marks the end of a chain, so it names no page.
  predicate NumbersOk(numbers: seq<nat>) {
    0 !in numbers && Distinct(numbers)
  }

  // Keys of an earlier leaf lie below keys of a later one.
  lemma {:induction false} LeavesInOrder(leaves: seq<Page>, numbers: seq<nat>, i: nat, j: nat)
    requires LeavesOk(leaves, numbers) && i < j < |leaves| && leaves[i].keys != []
    ensures leaves[i].LastKey() < leaves[j].FirstKey()
  {
    assert LeafInChain(leaves, numbers, j);
    if i < j - 1 {
      LeavesInOrder(leaves, numbers, i, j - 1);
      assert LeafInChain(leaves, numbers, j - 1);
      FirstIsLeast(leaves[j - 1].keys, |leaves[j - 1].keys| - 1);
    }
  }

  lemma FirstIsLeast(keys: seq<nat>, k: nat)
    requires Increasing(keys) && k < |keys|
    ensures keys[0] <= keys[k] <= keys[|keys| - 1]
  {
  }

  // The rows of the first `n` leaves, in order.
  function AllRows(leaves: seq<Page>, n: nat): seq<Record>
    requires n <= |leaves|
  {
    if n == 0 then [] else AllRows(leaves, n - 1) + RowsOf(leaves[n - 1].body)
  }

  // The chain with a row added to its last page.
  function RowFits(before: seq<Page>, row: Record): seq<Page>
    requires before != []
  {
    var last := before[|before| - 1];
    before[|before| - 1 :=
      last.(keys := last.keys + [row.key], body := Inserted(last.body, row.key, row.value))]
  }

  // The chain with a row on a page of its own.
  function RowOpens(before: seq<Page>, numbers: seq<nat>, row: Record): seq<Page>
    requires 1 <= |before| < |numbers|
  {
    before[|before| - 1 := before[|before| - 1].(next := numbers[|before|])]
    + [Page(Leaf, false, 0, [], 0, [row.key], numbers[|before| - 1], 0, Inserted(EMPTY, row.key, row.value))]
  }

  lemma {:induction false} SameRows(a: seq<Page>, b: seq<Page>, n: nat)
    requires n <= |a| && n <= |b| && forall i :: 0 <= i < n ==> a[i].body == b[i].body
    ensures AllRows(a, n) == AllRows(b, n)
  {
    if n > 0 {
      SameRows(a, b, n - 1);
    }
  }

  lemma Regroup(a: seq<Record>, b: seq<Record>, c: seq<Record>, bc: seq<Record>)
    requires bc == b + c
    ensures a + bc == (a + b) + c
  {
  }

  // Rows appended to leaf `n - 1`, the leaves before it unchanged.
  lemma RowsAppended(before: seq<Page>, after: seq<Page>, n: nat, more: seq<Record>)
    requires 1 <= n <= |before| && n <= |after|
    requires forall i :: 0 <= i < n - 1 ==> after[i].body == before[i].body
    requires RowsOf(after[n - 1].body) == RowsOf(before[n - 1].body) + more
    ensures AllRows(after, n) == AllRows(before, n) + more
  {
    SameRows(before, after, n - 1);
    Regroup(AllRows(before, n - 1), RowsOf(before[n - 1].body), more, RowsOf(after[n - 1].body));
  }

  lemma {:induction false} SameRowCount(a: seq<Page>, b: seq<Page>, n: nat)
    requires n <= |a| && n <= |b| && forall i :: 0 <= i < n ==> |a[i].keys| == |b[i].keys|
    ensures RowCount(a, n) == RowCount(b, n)
  {
    if n > 0 {
      SameRowCount(a, b, n - 1);
    }
  }

  predicate HasRoom(b: Body, row: Record) {
    0 < |row.value| && SLOT_SIZE + |row.value| <= b.FreeBytes()
  }

  // A page has room exactly if the row could be inserted.
  lemma HasRoomIs(b: Body, row: Record)
    requires BodyOk(b) && forall s :: s in b.slots ==> s.key != row.key
    ensures HasRoom(b, row) <==> Insertable(b, row.key, row.value)
  {
    InsertableIs(b, row.key, row.value);
  }

  // A row behind all others of a page with room for it.
  lemma RowGoesLast(p: Page, row: Record)
    requires SlottedOk(p) && HasRoom(p.body, row) && (p.keys != [] ==> p.LastKey() < row.key)
    ensures Insertable(p.body, row.key, row.value)
    ensures Carries(Inserted(p.body, row.key, row.value), p.keys + [row.key])
    ensures RowsOf(Inserted(p.body, row.key, row.value)) == RowsOf(p.body) + [row]
  {
    SizeOfPage(p.body);
    var rows, now := RowsOf(p.body), Inserted(p.body, row.key, row.value);
    forall i | 0 <= i < |rows| ensures rows[i].key < row.key {
      assert p.keys[i] == rows[i].key;
      FirstIsLeast(p.keys, i);
    }
    InsertLast(p.body, rows, row);
    forall i | 0 <= i <= |p.keys| ensures KeysOf(now)[i] == (p.keys + [row.key])[i] {
      assert RowsOf(now)[i].key == KeysOf(now)[i];
    }
  }

  lemma RowFitsOk(before: Chain, row: Record, after: Chain)
    requires ChainOk(before) && (before.hasLastKey ==> before.lastKey < row.key)
    requires HasRoom(before.leaves[|before.leaves| - 1].body, row)
    requires after == Chain(RowFits(before.leaves, row), before.numbers, before.rowCount + 1, row.key, true)
    ensures ChainOk(after)
  {
    LastLeafGrows(before.leaves, before.numbers, row);
    LeavesOkBefore(before.leaves, before.numbers, row);
    RowCountGrows(before.leaves, after.leaves, |before.leaves| - 1);
  }

  lemma LeavesOkBefore(leaves: seq<Page>, numbers: seq<nat>, row: Record)
    requires LeavesOk(leaves, numbers) && LeafInChain(RowFits(leaves, row), numbers, |leaves| - 1)
    ensures LeavesOk(RowFits(leaves, row), numbers)
  {
    var now := RowFits(leaves, row);
    forall i | 0 <= i < |leaves| ensures LeafInChain(now, numbers, i) {
      assert LeafInChain(leaves, numbers, i);
      assert i < |leaves| - 1 ==> now[i] == leaves[i] && (i > 0 ==> now[i - 1] == leaves[i - 1]);
    }
  }

  lemma RowCountGrows(was: seq<Page>, now: seq<Page>, n: nat)
    requires n < |was| == |now| && |now[n].keys| == |was[n].keys| + 1
    requires forall i :: 0 <= i < n ==> |now[i].keys| == |was[i].keys|
    ensures RowCount(now, n + 1) == RowCount(was, n + 1) + 1
  {
    SameRowCount(was, now, n);
  }

  lemma LastLeafGrows(leaves: seq<Page>, numbers: seq<nat>, row: Record)
    requires 0 < |leaves| <= |numbers| && LeafInChain(leaves, numbers, |leaves| - 1)
    requires HasRoom(leaves[|leaves| - 1].body, row)
    requires leaves[|leaves| - 1].keys != [] ==> leaves[|leaves| - 1].LastKey() < row.key
    ensures LeafInChain(RowFits(leaves, row), numbers, |leaves| - 1)
  {
    var p := leaves[|leaves| - 1];
    RowGoesLast(p, row);
    CarriedKeysRise(Inserted(p.body, row.key, row.value));
  }

  lemma FirstRow(row: Record)
    requires HasRoom(EMPTY, row)
    ensures Insertable(EMPTY, row.key, row.value)
    ensures Carries(Inserted(EMPTY, row.key, row.value), [row.key])
    ensures RowsOf(Inserted(EMPTY, row.key, row.value)) == [row]
  {
    EmptyIsOk();
    var p := Page(Leaf, false, 0, [], 0, [], 0, 0);
    assert KeysOf(EMPTY) == [];
    RowGoesLast(p, row);
    assert [] + [row.key] == [row.key] && [] + [row] == [row];
  }

  lemma RowOpensOk(before: Chain, row: Record, after: Chain)
    requires ChainOk(before) && (before.hasLastKey ==> before.lastKey < row.key) && |before.leaves| < |before.numbers|
    requires before.hasLastKey && HasRoom(EMPTY, row)
    requires
      after == Chain(RowOpens(before.leaves, before.numbers, row), before.numbers, before.rowCount + 1, row.key, true)
    ensures ChainOk(after)
  {
    var n, was, now := |before.leaves|, before.leaves, after.leaves;
    FirstRow(row);
    forall i | 0 <= i < n ensures LeafInChain(now, before.numbers, i) {
      assert LeafInChain(was, before.numbers, i);
    }
    SameRowCount(was, now, n);
  }

  // A page without room for a row that an empty page has room for is not empty.
  lemma FullPageHasRows(p: Page, row: Record)
    requires SlottedOk(p) && !HasRoom(p.body, row) && HasRoom(EMPTY, row)
    ensures p.keys != []
  {
    SizeOfPage(p.body);
    SizeOfPage(EMPTY);
  }

  // The chain after a row was accepted.
  function Appended(c: Chain, row: Record): Chain {
    if c.leaves != [] && HasRoom(c.leaves[|c.leaves| - 1].body, row) then
      Chain(RowFits(c.leaves, row), c.numbers, c.rowCount + 1, row.key, true)
    else if 1 <= |c.leaves| < |c.numbers| then
      Chain(RowOpens(c.leaves, c.numbers, row), c.numbers, c.rowCount + 1, row.key, true)
    else c
  }

  lemma AppendedHere(c: Chain, row: Record)
    requires c.leaves != [] && HasRoom(c.leaves[|c.leaves| - 1].body, row)
    ensures Appended(c, row) == Chain(RowFits(c.leaves, row), c.numbers, c.rowCount + 1, row.key, true)
  {
  }

  lemma LastPageIsOk(c: Chain, row: Record)
    requires ChainOk(c)
    ensures BodyOk(c.leaves[|c.leaves| - 1].body)
    ensures HasRoom(c.leaves[|c.leaves| - 1].body, row) ==> HasRoom(EMPTY, row) && |row.value| <= VALUE_MAX
  {
    assert LeafInChain(c.leaves, c.numbers, |c.leaves| - 1);
  }

  ghost predicate Acceptable(c: Chain, row: Record) {
    && ChainOk(c) && (c.hasLastKey ==> c.lastKey < row.key)
    && (HasRoom(c.leaves[|c.leaves| - 1].body, row) || (HasRoom(EMPTY, row) && |c.leaves| < |c.numbers|))
  }

  // An accepted row leaves a valid chain.
  lemma AppendedOk(c: Chain, row: Record)
    requires Acceptable(c, row)
    ensures ChainOk(Appended(c, row))
    ensures HasRoom(c.leaves[|c.leaves| - 1].body, row) ==>
      Insertable(c.leaves[|c.leaves| - 1].body, row.key, row.value)
  {
    var last := c.leaves[|c.leaves| - 1];
    LastLeafBelow(c, row);
    if HasRoom(last.body, row) {
      RowGoesLast(last, row);
      RowFitsOk(c, row, Appended(c, row));
    } else {
      FullPageHasRows(last, row);
      RowOpensOk(c, row, Appended(c, row));
    }
  }

  // And the row behind all others, which stay as they were.
  lemma AppendedRows(c: Chain, row: Record)
    requires Acceptable(c, row)
    ensures AllRows(Appended(c, row).leaves, |Appended(c, row).leaves|) == AllRows(c.leaves, |c.leaves|) + [row]
  {
    if HasRoom(c.leaves[|c.leaves| - 1].body, row) {
      FittedRows(c, row, Appended(c, row).leaves);
    } else {
      OpenedRows(c, row, Appended(c, row).leaves);
    }
  }

  lemma FittedRows(c: Chain, row: Record, now: seq<Page>)
    requires Acceptable(c, row) && HasRoom(c.leaves[|c.leaves| - 1].body, row) && now == RowFits(c.leaves, row)
    ensures AllRows(now, |now|) == AllRows(c.leaves, |c.leaves|) + [row]
  {
    var n := |c.leaves|;
    LastLeafBelow(c, row);
    RowGoesLast(c.leaves[n - 1], row);
    RowsAppended(c.leaves, now, n, [row]);
  }

  lemma LastLeafBelow(c: Chain, row: Record)
    requires ChainOk(c) && (c.hasLastKey ==> c.lastKey < row.key)
    ensures var last := c.leaves[|c.leaves| - 1]; SlottedOk(last) && (last.keys != [] ==> last.LastKey() < row.key)
  {
    assert LeafInChain(c.leaves, c.numbers, |c.leaves| - 1);
  }

  lemma OpenedRows(c: Chain, row: Record, now: seq<Page>)
    requires HasRoom(EMPTY, row) && 1 <= |c.leaves| < |c.numbers| && now == RowOpens(c.leaves, c.numbers, row)
    ensures AllRows(now, |now|) == AllRows(c.leaves, |c.leaves|) + [row]
  {
    var n := |c.leaves|;
    FirstRow(row);
    SameRows(c.leaves, now, n);
    AllRowsNext(now, n, AllRows(c.leaves, n), [row]);
  }

  lemma AllRowsNext(leaves: seq<Page>, n: nat, rows: seq<Record>, more: seq<Record>)
    requires n < |leaves| && AllRows(leaves, n) == rows && RowsOf(leaves[n].body) == more
    ensures AllRows(leaves, n + 1) == rows + more
  {
  }

  class LeafChain {
    const images: array<Page>
    const numbers: seq<nat>
    var pageCount: nat
    var rowCount: nat
    var lastKey: nat
    var hasLastKey: bool

    ghost predicate Valid()
      reads this, images
    {
      && pageCount <= images.Length == |numbers|
      && NumbersOk(numbers)
      && ChainOk(View())
    }

    function View(): Chain
      requires pageCount <= images.Length
      reads this, images
    {
      Chain(images[..pageCount], numbers, rowCount, lastKey, hasLastKey)
    }

    // An empty chain over reserved page numbers.
    constructor (numbers: seq<nat>)
      requires numbers != [] && NumbersOk(numbers)
      ensures Valid() && fresh(images) && this.numbers == numbers
      ensures AllRows(View().leaves, pageCount) == []
    {
      this.numbers := numbers;
      images := new Page[|numbers|](_ => Page(Leaf, false, 0, [], 0, [], 0, 0));
      pageCount, rowCount, lastKey, hasLastKey := 1, 0, 0, false;
      new;
      EmptyIsOk();
      assert KeysOf(EMPTY) == [];
      assert View().leaves == [images[0]];
    }

    method AddToLast(row: Record, body: Body)
      requires 0 < pageCount <= images.Length
      requires body == Inserted(images[pageCount - 1].body, row.key, row.value)
      modifies this, images
      ensures pageCount == old(pageCount)
      ensures View() == Chain(RowFits(old(View().leaves), row), numbers, old(rowCount) + 1, row.key, true)
    {
      var current := pageCount - 1;
      images[current] := images[current].(keys := images[current].keys + [row.key], body := body);
      rowCount, lastKey, hasLastKey := rowCount + 1, row.key, true;
    }

    method OpenPage(row: Record, body: Body)
      requires 0 < pageCount < images.Length == |numbers| && body == Inserted(EMPTY, row.key, row.value)
      modifies this, images
      ensures pageCount == old(pageCount) + 1 <= images.Length
      ensures View() == Chain(RowOpens(old(View().leaves), numbers, row), numbers, old(rowCount) + 1, row.key, true)
    {
      var current := pageCount - 1;
      images[current] := images[current].(next := numbers[pageCount]);
      images[pageCount] := Page(Leaf, false, 0, [], 0, [row.key], numbers[current], 0, body);
      pageCount := pageCount + 1;
      rowCount, lastKey, hasLastKey := rowCount + 1, row.key, true;
    }

    // Adds a row behind all others: to the last page if it fits there, else to
    // a new page linked both ways.  A rejected row changes nothing.
    method Append(key: nat, value: seq<byte>) returns (ok: bool)
      requires Valid()
      modifies this, images
      ensures Valid()
      ensures ok <==>
        && (old(hasLastKey) ==> old(lastKey) < key)
        && (old(HasRoom(images[pageCount - 1].body, Record(key, value)))
            || (HasRoom(EMPTY, Record(key, value)) && old(pageCount) < images.Length))
      ensures View() == if ok then Appended(old(View()), Record(key, value)) else old(View())
    {
      var row := Record(key, value);
      LastPageIsOk(View(), row);
      if |value| == 0 || |value| > VALUE_MAX || (hasLastKey && key <= lastKey) {
        return false;
      }
      var staged := new SlottedLeaf(images[pageCount - 1].body);
      var available := staged.FreeBytes();
      if SLOT_SIZE + |value| <= available {
        AppendHere(row, staged);
        return true;
      } else if pageCount >= images.Length {
        return false;
      } else {
        ok := AppendPage(row);
      }
    }

    method AppendHere(row: Record, staged: SlottedLeaf)
      requires Valid() && HasRoom(images[pageCount - 1].body, row) && (hasLastKey ==> lastKey < row.key)
      requires staged.Shaped() && staged.View() == images[pageCount - 1].body && |row.value| <= VALUE_MAX
      modifies this, images, staged, staged.bytes
      ensures Valid() && View() == Appended(old(View()), row)
    {
      ghost var c := View();
      AppendedOk(c, row);
      AppendedHere(c, row);
      var inserted := staged.Insert(row.key, row.value);
      AddToLast(row, staged.View());
    }

    method AppendPage(row: Record) returns (ok: bool)
      requires Valid() && pageCount < images.Length && 0 < |row.value| <= VALUE_MAX
      requires !HasRoom(images[pageCount - 1].body, row) && (hasLastKey ==> lastKey < row.key)
      modifies this, images
      ensures Valid() && (ok <==> HasRoom(EMPTY, row))
      ensures View() == if ok then Appended(old(View()), row) else old(View())
    {
      var body;
      ok, body := PageWith(row);
      if ok {
        AppendedOk(View(), row);
        OpenPage(row, body);
      }
    }
  }

  // A page of its own for a row, if the row fits one.
  method PageWith(row: Record) returns (ok: bool, body: Body)
    requires 0 < |row.value| <= VALUE_MAX
    ensures ok <==> HasRoom(EMPTY, row)
    ensures ok ==> body == Inserted(EMPTY, row.key, row.value)
  {
    EmptyIsOk();
    var next := new SlottedLeaf(EMPTY);
    var available := next.FreeBytes();
    ok, body := SLOT_SIZE + |row.value| <= available, EMPTY;
    if ok {
      FirstRow(row);
      ok := next.Insert(row.key, row.value);
      body := next.View();
    }
  }

  // The keys of one page, against each other and the last key before it.
  method CheckKeys(keys: seq<nat>, seen: bool, previous: nat) returns (ok: bool, have: bool, last: nat)
    requires Increasing(keys)
    ensures ok <==> (seen && keys != [] ==> previous < keys[0])
    ensures ok ==> have == (seen || keys != [])
    ensures ok ==> last == if keys != [] then keys[|keys| - 1] else previous
  {
    have, last := seen, previous;
    var cell := 0;
    while cell < |keys|
      invariant 0 <= cell <= |keys|
      invariant cell > 0 ==> have && last == keys[cell - 1] && (seen ==> previous < keys[0])
      invariant cell == 0 ==> have == seen && last == previous
    {
      var key := keys[cell];
      if have && key <= last {
        return false, have, last;
      }
      last, have := key, true;
      cell := cell + 1;
    }
    return true, have, last;
  }

  method CheckSlotted(p: Page) returns (ok: bool)
    ensures ok <==> SlottedOk(p)
  {
    var page := new SlottedLeaf(p.body);
    ok := page.Validate();
    if ok {
      CarriedKeysRise(p.body);
    }
    ok := ok && p.kind.Leaf? && p.keys == KeysOf(p.body);
  }

  method ValidateChain(c: Chain) returns (ok: bool)
    ensures ok <==> ChainOk(c)
  {
    if |c.leaves| == 0 || |c.leaves| > |c.numbers| {
      return false;
    }
    var rows: nat, previous: nat, have := 0, 0, false;
    var i := 0;
    while i < |c.leaves|
      invariant 0 <= i <= |c.leaves|
      invariant forall k :: 0 <= k < i ==> LeafInChain(c.leaves, c.numbers, k)
      invariant rows == RowCount(c.leaves, i)
      invariant have == (i > 0 && c.leaves[i - 1].keys != [])
      invariant have ==> previous == c.leaves[i - 1].LastKey()
    {
      var leaf := c.leaves[i];
      var expectedPrev := if i == 0 then 0 else c.numbers[i - 1];
      var expectedNext := if i + 1 == |c.leaves| then 0 else c.numbers[i + 1];
      var slotted := CheckSlotted(leaf);
      if !slotted || leaf.prev != expectedPrev || leaf.next != expectedNext || (i > 0 && |leaf.keys| == 0) {
        assert !LeafInChain(c.leaves, c.numbers, i);
        return false;
      }
      ok, have, previous := CheckKeys(leaf.keys, have, previous);
      if !ok {
        assert !LeafInChain(c.leaves, c.numbers, i);
        return;
      }
      rows := rows + |leaf.keys|;
      i := i + 1;
    }
    return rows == c.rowCount && have == c.hasLastKey && (!have || previous == c.lastKey);
  }
}
