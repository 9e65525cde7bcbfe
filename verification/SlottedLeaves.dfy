/** The slotted leaf page: a directory of slots that grows upward in key order and
    payloads that grow downward from the end of the page
    (src/slotted_leaf_v2.h:11-50, src/slotted_leaf_v2.c:84-410).  The directory is a
    list of slot records; the checksum, the page's type, parent and sibling fields
    belong to the page around it. */
module SlottedLeaves {
  import opened Crc32

  const HEADER_SIZE: nat := 28
  const SLOT_SIZE: nat := 8
  const USABLE_SIZE: nat := 4092
  const VALUE_MAX: nat := 0xFFFF

  function Blank(n: nat): (s: seq<byte>)
    ensures |s| == n
  {
    seq(n, _ => 0)
  }

  type PageBytes = s: seq<byte> | |s| == USABLE_SIZE witness Blank(USABLE_SIZE)

  datatype Slot = Slot(key: nat, offset: nat, length: nat) {
    function End(): nat { offset + length }
  }

  // What marks a page as slotted.
  datatype Stamp = Stamp(magic: nat, version: nat)

  const SLOTTED_V2: Stamp := Stamp(0x3246_4C54, 2)

  datatype Body = Body(stamp: Stamp, slots: seq<Slot>, freeStart: nat, freeEnd: nat, bytes: PageBytes) {
    function FreeBytes(): int { freeEnd - freeStart }
  }

  datatype Record = Record(key: nat, value: seq<byte>)

  const EMPTY: Body := Body(SLOTTED_V2, [], HEADER_SIZE, USABLE_SIZE, Blank(USABLE_SIZE))

  // What validation decides.

  predicate InPayload(s: Slot, freeEnd: nat) {
    s.length > 0 && freeEnd <= s.offset && s.End() <= USABLE_SIZE
  }

  predicate Apart(a: Slot, b: Slot) {
    a.End() <= b.offset || b.End() <= a.offset
  }

  function Payload(slots: seq<Slot>, n: nat): nat
    requires n <= |slots|
  {
    if n == 0 then 0 else Payload(slots, n - 1) + slots[n - 1].length
  }

  predicate AllApart(slots: seq<Slot>) {
    forall i, j :: 0 <= i < j < |slots| ==> Apart(slots[i], slots[j])
  }

  // Slot `i` against the page and all earlier slots.
  predicate SlotOk(slots: seq<Slot>, freeEnd: nat, i: nat)
    requires i < |slots|
  {
    InPayload(slots[i], freeEnd) && forall j :: 0 <= j < i ==> slots[j].key < slots[i].key && Apart(slots[j], slots[i])
  }

  predicate SlotsOkUpTo(slots: seq<Slot>, freeEnd: nat, n: nat)
    requires n <= |slots|
  {
    forall i :: 0 <= i < n ==> SlotOk(slots, freeEnd, i)
  }

  predicate SlotsOk(slots: seq<Slot>, freeEnd: nat) {
    SlotsOkUpTo(slots, freeEnd, |slots|)
  }

  predicate Rising(slots: seq<Slot>) {
    forall i, j :: 0 <= i < j < |slots| ==> slots[i].key < slots[j].key
  }

  lemma SlotFacts(slots: seq<Slot>, freeEnd: nat)
    ensures SlotsOk(slots, freeEnd) <==>
      (forall i :: 0 <= i < |slots| ==> InPayload(slots[i], freeEnd)) && Rising(slots) && AllApart(slots)
  {
    if SlotsOk(slots, freeEnd) {
      forall i, j | 0 <= i < j < |slots| ensures slots[i].key < slots[j].key && Apart(slots[i], slots[j]) {
        assert SlotOk(slots, freeEnd, j);
      }
      forall i | 0 <= i < |slots| ensures InPayload(slots[i], freeEnd) {
        assert SlotOk(slots, freeEnd, i);
      }
    }
  }

  predicate BodyOk(b: Body) {
    && b.stamp == SLOTTED_V2
    && b.freeStart == HEADER_SIZE + SLOT_SIZE * |b.slots|
    && b.freeStart <= b.freeEnd <= USABLE_SIZE
    && SlotsOk(b.slots, b.freeEnd)
    && Payload(b.slots, |b.slots|) == USABLE_SIZE - b.freeEnd
  }

  // The rows of a page, in key order.

  function ValueOf(bytes: PageBytes, s: Slot): seq<byte> {
    if s.End() <= USABLE_SIZE then bytes[s.offset..s.End()] else []
  }

  function RowsOf(b: Body): (rows: seq<Record>)
    ensures |rows| == |b.slots|
    ensures forall i :: 0 <= i < |rows| ==> rows[i] == Record(b.slots[i].key, ValueOf(b.bytes, b.slots[i]))
  {
    seq(|b.slots|, i requires 0 <= i < |b.slots| => Record(b.slots[i].key, ValueOf(b.bytes, b.slots[i])))
  }

  function KeysOf(b: Body): (keys: seq<nat>)
    ensures |keys| == |b.slots| && forall i :: 0 <= i < |keys| ==> keys[i] == b.slots[i].key
  {
    seq(|b.slots|, i requires 0 <= i < |b.slots| => b.slots[i].key)
  }

  // How many slots come before `key`.
  function Position(slots: seq<Slot>, key: nat): (p: nat)
    ensures p <= |slots|
    ensures forall i :: 0 <= i < p ==> slots[i].key < key
    ensures p < |slots| ==> key <= slots[p].key
  {
    PositionFrom(slots, key, 0)
  }

  function PositionFrom(slots: seq<Slot>, key: nat, from: nat): (p: nat)
    requires from <= |slots|
    ensures from <= p <= |slots|
    ensures forall i :: from <= i < p ==> slots[i].key < key
    ensures p < |slots| ==> key <= slots[p].key
    decreases |slots| - from
  {
    if from == |slots| || key <= slots[from].key then from else PositionFrom(slots, key, from + 1)
  }

  predicate Present(slots: seq<Slot>, key: nat) {
    exists i :: 0 <= i < |slots| && slots[i].key == key
  }

  lemma PositionIs(slots: seq<Slot>, key: nat, p: nat)
    requires p <= |slots| && Rising(slots)
    requires (forall i :: 0 <= i < p ==> slots[i].key < key) && (p < |slots| ==> key <= slots[p].key)
    ensures Position(slots, key) == p
    ensures Present(slots, key) <==> p < |slots| && slots[p].key == key
  {
    var q := Position(slots, key);
  }

  // Inserting a row.

  predicate Insertable(b: Body, key: nat, value: seq<byte>) {
    && BodyOk(b) && 0 < |value| && !Present(b.slots, key)
    && SLOT_SIZE + |value| <= b.FreeBytes()
  }

  // What makes room: a slot of eight bytes and the value fit between slots and payloads.
  lemma InsertableIs(b: Body, key: nat, value: seq<byte>)
    requires BodyOk(b)
    ensures Insertable(b, key, value) <==>
      && value != [] && (forall s :: s in b.slots ==> s.key != key)
      && b.freeStart + 8 + |value| <= b.freeEnd
  {
  }

  function Written(bytes: PageBytes, at: nat, value: seq<byte>): (r: PageBytes)
    requires at + |value| <= USABLE_SIZE
    ensures forall i :: 0 <= i < |r| ==> r[i] == if at <= i < at + |value| then value[i - at] else bytes[i]
  {
    bytes[..at] + value + bytes[at + |value|..]
  }

  function WithSlot(slots: seq<Slot>, s: Slot, p: nat): (more: seq<Slot>)
    requires p <= |slots|
    ensures |more| == |slots| + 1
  {
    slots[..p] + [s] + slots[p..]
  }

  function Inserted(b: Body, key: nat, value: seq<byte>): Body {
    if |value| <= b.freeEnd <= USABLE_SIZE then
      var p, at := Position(b.slots, key), b.freeEnd - |value|;
      Body(b.stamp, WithSlot(b.slots, Slot(key, at, |value|), p),
           b.freeStart + SLOT_SIZE, at, Written(b.bytes, at, value))
    else b
  }

  lemma {:induction false} PayloadInsert(slots: seq<Slot>, s: Slot, p: nat, n: nat)
    requires p <= n <= |slots|
    ensures Payload(slots[..p] + [s] + slots[p..], n + 1) == Payload(slots, n) + s.length
    ensures Payload(slots[..p] + [s] + slots[p..], p) == Payload(slots, p)
    decreases n
  {
    var more := slots[..p] + [s] + slots[p..];
    PayloadPrefix(slots, more, p);
    if n > p {
      PayloadInsert(slots, s, p, n - 1);
      assert more[n] == slots[n - 1];
    }
  }

  lemma {:induction false} PayloadPrefix(a: seq<Slot>, b: seq<Slot>, n: nat)
    requires n <= |a| && n <= |b| && forall i :: 0 <= i < n ==> a[i] == b[i]
    ensures Payload(a, n) == Payload(b, n)
  {
    if n > 0 {
      PayloadPrefix(a, b, n - 1);
    }
  }

  // Slot `i` of a directory with one more slot at `p`.
  function InsertedAt(slots: seq<Slot>, s: Slot, p: nat, i: nat): Slot
    requires p <= |slots| && i <= |slots|
  {
    if i < p then slots[i] else if i == p then s else slots[i - 1]
  }

  lemma SlotsInsert(slots: seq<Slot>, s: Slot, p: nat, freeEnd: nat)
    requires SlotsOk(slots, freeEnd) && p <= |slots| && s.length > 0 && s.End() == freeEnd <= USABLE_SIZE
    requires forall i :: 0 <= i < p ==> slots[i].key < s.key
    requires forall i :: p <= i < |slots| ==> s.key < slots[i].key
    ensures SlotsOk(WithSlot(slots, s, p), s.offset)
  {
    var more := WithSlot(slots, s, p);
    SlotFacts(slots, freeEnd);
    forall i | 0 <= i < |more| ensures SlotOk(more, s.offset, i) {
      InsertedSlotOk(slots, s, p, freeEnd, i);
    }
  }

  lemma InsertedSlotOk(slots: seq<Slot>, s: Slot, p: nat, freeEnd: nat, i: nat)
    requires p <= |slots| && i <= |slots| && s.length > 0 && s.End() == freeEnd <= USABLE_SIZE
    requires (forall k :: 0 <= k < |slots| ==> InPayload(slots[k], freeEnd)) && Rising(slots) && AllApart(slots)
    requires forall k :: 0 <= k < p ==> slots[k].key < s.key
    requires forall k :: p <= k < |slots| ==> s.key < slots[k].key
    ensures SlotOk(WithSlot(slots, s, p), s.offset, i)
  {
    var more := WithSlot(slots, s, p);
    WithSlotAt(slots, s, p, i);
    forall k | 0 <= k < i ensures more[k].key < more[i].key && Apart(more[k], more[i]) {
      WithSlotAt(slots, s, p, k);
    }
  }

  lemma AboveKey(slots: seq<Slot>, key: nat)
    requires Rising(slots)
    requires !Present(slots, key)
    ensures forall i :: Position(slots, key) <= i < |slots| ==> key < slots[i].key
  {
    var p := Position(slots, key);
    if p < |slots| {
      assert slots[p].key != key;
    }
  }

  lemma DirectoryGrows(b: Body, key: nat, length: nat)
    requires BodyOk(b) && !Present(b.slots, key) && 0 < length <= b.freeEnd
    ensures
      var s := Slot(key, b.freeEnd - length, length);
      var more := WithSlot(b.slots, s, Position(b.slots, key));
      SlotsOk(more, s.offset) && Payload(more, |more|) == USABLE_SIZE - s.offset
  {
    var p, s := Position(b.slots, key), Slot(key, b.freeEnd - length, length);
    SlotFacts(b.slots, b.freeEnd);
    AboveKey(b.slots, key);
    SlotsInsert(b.slots, s, p, b.freeEnd);
    PayloadGrows(b.slots, s, p);
  }

  lemma PayloadGrows(slots: seq<Slot>, s: Slot, p: nat)
    requires p <= |slots|
    ensures Payload(WithSlot(slots, s, p), |slots| + 1) == Payload(slots, |slots|) + s.length
  {
    PayloadInsert(slots, s, p, |slots|);
  }

  lemma BodyGrows(b: Body, key: nat, length: nat, c: Body)
    requires BodyOk(b) && !Present(b.slots, key) && 0 < length && SLOT_SIZE + length <= b.FreeBytes()
    requires
      var s := Slot(key, b.freeEnd - length, length);
      c == Body(b.stamp, WithSlot(b.slots, s, Position(b.slots, key)), b.freeStart + SLOT_SIZE, s.offset, c.bytes)
    ensures BodyOk(c)
  {
    DirectoryGrows(b, key, length);
  }

  lemma InsertedIs(b: Body, key: nat, value: seq<byte>)
    requires BodyOk(b) && |value| <= b.freeEnd
    ensures
      var s := Slot(key, b.freeEnd - |value|, |value|);
      Inserted(b, key, value) == Body(b.stamp, WithSlot(b.slots, s, Position(b.slots, key)), b.freeStart + SLOT_SIZE,
                                      s.offset, Written(b.bytes, s.offset, value))
  {
  }

  lemma InsertedIsOk(b: Body, key: nat, value: seq<byte>)
    requires Insertable(b, key, value)
    ensures BodyOk(Inserted(b, key, value))
  {
    InsertedIs(b, key, value);
    BodyGrows(b, key, |value|, Inserted(b, key, value));
  }

  // An inserted row leaves a valid page with one more row in key order, and the
  // values of all others as they were.
  lemma InsertKeeps(b: Body, key: nat, value: seq<byte>)
    requires Insertable(b, key, value)
    ensures BodyOk(Inserted(b, key, value))
    ensures
      var p, rows := Position(b.slots, key), RowsOf(b);
      RowsOf(Inserted(b, key, value)) == rows[..p] + [Record(key, value)] + rows[p..]
    ensures Inserted(b, key, value).FreeBytes() == b.FreeBytes() - SLOT_SIZE - |value|
  {
    InsertedIsOk(b, key, value);
    InsertedIs(b, key, value);
    var p := Position(b.slots, key);
    var now, rows := RowsOf(Inserted(b, key, value)), RowsOf(b)[..p] + [Record(key, value)] + RowsOf(b)[p..];
    forall i | 0 <= i < |rows| ensures now[i] == rows[i] {
      InsertedRow(b, key, value, i);
    }
  }

  lemma InsertedRow(b: Body, key: nat, value: seq<byte>, i: nat)
    requires Insertable(b, key, value) && i <= |b.slots|
    ensures |Inserted(b, key, value).slots| == |b.slots| + 1
    ensures
      var p, rows := Position(b.slots, key), RowsOf(b);
      RowsOf(Inserted(b, key, value))[i] ==
        if i < p then rows[i] else if i == p then Record(key, value) else rows[i - 1]
  {
    var p, s := Position(b.slots, key), Slot(key, b.freeEnd - |value|, |value|);
    InsertedIs(b, key, value);
    WithSlotAt(b.slots, s, p, i);
    NewValue(b.bytes, s, value);
    if i != p {
      var k := if i < p then i else i - 1;
      assert SlotOk(b.slots, b.freeEnd, k);
      ValueStays(b, b.slots[k], s.offset, value);
    }
  }

  lemma WithSlotAt(slots: seq<Slot>, s: Slot, p: nat, i: nat)
    requires p <= |slots| && i <= |slots|
    ensures WithSlot(slots, s, p)[i] == if i < p then slots[i] else if i == p then s else slots[i - 1]
  {
  }

  lemma NewValue(bytes: PageBytes, s: Slot, value: seq<byte>)
    requires |value| == s.length && s.End() <= USABLE_SIZE
    ensures ValueOf(Written(bytes, s.offset, value), s) == value
  {
  }

  lemma ValueStays(b: Body, s: Slot, at: nat, value: seq<byte>)
    requires at + |value| == b.freeEnd <= USABLE_SIZE && InPayload(s, b.freeEnd)
    ensures ValueOf(Written(b.bytes, at, value), s) == ValueOf(b.bytes, s)
  {
  }

  // Every byte behind the free space belongs to exactly one row.

  predicate Within(lo: nat, hi: nat, x: nat) {
    lo <= x < hi
  }

  function Range(lo: nat, hi: nat): set<nat> {
    set x: nat | x < hi && Within(lo, hi, x)
  }

  lemma {:induction false} RangeSize(lo: nat, hi: nat)
    requires lo <= hi
    ensures |Range(lo, hi)| == hi - lo
    decreases hi - lo
  {
    if lo < hi {
      RangeSize(lo, hi - 1);
      forall x ensures x in Range(lo, hi) <==> x in Range(lo, hi - 1) || x == hi - 1 {
        assert Within(lo, hi, x) <==> Within(lo, hi - 1, x) || x == hi - 1;
      }
      assert Range(lo, hi) == Range(lo, hi - 1) + {hi - 1};
    } else {
      assert Range(lo, hi) == {};
    }
  }

  function Covered(slots: seq<Slot>, n: nat): set<nat>
    requires n <= |slots|
  {
    if n == 0 then {} else Covered(slots, n - 1) + Range(slots[n - 1].offset, slots[n - 1].End())
  }

  predicate OwnedUpTo(slots: seq<Slot>, n: nat, x: nat)
    requires n <= |slots|
  {
    exists i :: 0 <= i < n && Owns(slots[i], x)
  }

  lemma OwnedByOneMore(slots: seq<Slot>, n: nat, x: nat)
    requires 0 < n <= |slots|
    ensures OwnedUpTo(slots, n, x) <==> Owns(slots[n - 1], x) || OwnedUpTo(slots, n - 1, x)
  {
  }

  lemma {:induction false} CoveredMeans(slots: seq<Slot>, n: nat)
    requires n <= |slots|
    ensures forall x :: x in Covered(slots, n) <==> OwnedUpTo(slots, n, x)
  {
    if n > 0 {
      CoveredMeans(slots, n - 1);
      forall x ensures x in Covered(slots, n) <==> OwnedUpTo(slots, n, x) {
        OwnedByOneMore(slots, n, x);
      }
    }
  }

  lemma {:induction false} CoveredSize(slots: seq<Slot>, n: nat)
    requires AllApart(slots) && n <= |slots|
    ensures |Covered(slots, n)| == Payload(slots, n)
  {
    if n > 0 {
      var s := slots[n - 1];
      CoveredSize(slots, n - 1);
      CoveredApart(slots, n - 1);
      RangeSize(s.offset, s.End());
      SizeOfBoth(Covered(slots, n - 1), Range(s.offset, s.End()));
    }
  }

  lemma CoveredApart(slots: seq<Slot>, n: nat)
    requires AllApart(slots) && n < |slots|
    ensures Covered(slots, n) !! Range(slots[n].offset, slots[n].End())
  {
    CoveredMeans(slots, n);
    forall x | OwnedUpTo(slots, n, x) ensures !Owns(slots[n], x) {
      NotOwnedAgain(slots, n, x);
    }
  }

  lemma NotOwnedAgain(slots: seq<Slot>, n: nat, x: nat)
    requires AllApart(slots) && n < |slots| && OwnedUpTo(slots, n, x)
    ensures !Owns(slots[n], x)
  {
    var i :| 0 <= i < n && Owns(slots[i], x);
    assert Apart(slots[i], slots[n]);
  }

  lemma SizeOfBoth(a: set<nat>, b: set<nat>)
    requires a !! b
    ensures |a + b| == |a| + |b|
  {
  }

  lemma SubsetOfSameSize(a: set<nat>, b: set<nat>)
    requires a <= b && |a| == |b|
    ensures a == b
  {
    assert |b - a| == 0;
  }

  predicate Owns(s: Slot, x: nat) {
    Within(s.offset, s.End(), x)
  }

  lemma PayloadsCover(b: Body)
    requires BodyOk(b)
    ensures Covered(b.slots, |b.slots|) == Range(b.freeEnd, USABLE_SIZE)
  {
    var n := |b.slots|;
    SlotFacts(b.slots, b.freeEnd);
    CoveredSize(b.slots, n);
    CoveredMeans(b.slots, n);
    RangeSize(b.freeEnd, USABLE_SIZE);
    forall y | y in Covered(b.slots, n) ensures y in Range(b.freeEnd, USABLE_SIZE) {
      var i :| 0 <= i < n && Owns(b.slots[i], y);
      assert InPayload(b.slots[i], b.freeEnd);
      assert Within(b.freeEnd, USABLE_SIZE, y);
    }
    SubsetOfSameSize(Covered(b.slots, n), Range(b.freeEnd, USABLE_SIZE));
  }

  lemma PayloadsTile(b: Body, x: nat)
    requires BodyOk(b) && b.freeEnd <= x < USABLE_SIZE
    ensures exists i :: 0 <= i < |b.slots| && Owns(b.slots[i], x)
    ensures forall i, j ::
      0 <= i < |b.slots| && 0 <= j < |b.slots| && Owns(b.slots[i], x) && Owns(b.slots[j], x) ==> i == j
  {
    PayloadsCover(b);
    CoveredMeans(b.slots, |b.slots|);
    SlotFacts(b.slots, b.freeEnd);
    assert Within(b.freeEnd, USABLE_SIZE, x) && x in Range(b.freeEnd, USABLE_SIZE);
    assert OwnedUpTo(b.slots, |b.slots|, x);
    forall i, j | 0 <= i < j < |b.slots| ensures !(Owns(b.slots[i], x) && Owns(b.slots[j], x)) {
      assert Apart(b.slots[i], b.slots[j]);
    }
  }

  // What the first `n` rows take up on a page.
  function SizeUpTo(rows: seq<Record>, n: nat): nat
    requires n <= |rows|
  {
    if n == 0 then 0 else SizeUpTo(rows, n - 1) + SLOT_SIZE + |rows[n - 1].value|
  }

  function Size(rows: seq<Record>): nat {
    SizeUpTo(rows, |rows|)
  }

  lemma {:induction false} SizePrefix(a: seq<Record>, b: seq<Record>, n: nat)
    requires n <= |a| && n <= |b| && forall i :: 0 <= i < n ==> a[i] == b[i]
    ensures SizeUpTo(a, n) == SizeUpTo(b, n)
  {
    if n > 0 {
      SizePrefix(a, b, n - 1);
    }
  }

  lemma {:induction false} SizeGrows(rows: seq<Record>, m: nat, n: nat)
    requires m <= n <= |rows|
    ensures SizeUpTo(rows, m) <= SizeUpTo(rows, n)
    decreases n
  {
    if m < n {
      SizeGrows(rows, m, n - 1);
    }
  }

  lemma {:induction false} SizeOfSlots(b: Body, n: nat)
    requires BodyOk(b) && n <= |b.slots|
    ensures SizeUpTo(RowsOf(b), n) == SLOT_SIZE * n + Payload(b.slots, n)
  {
    if n > 0 {
      SizeOfSlots(b, n - 1);
      RowAt(b, n - 1);
    }
  }

  // A page holds what its rows take up, and no hole.
  lemma SizeOfPage(b: Body)
    requires BodyOk(b)
    ensures Size(RowsOf(b)) == USABLE_SIZE - HEADER_SIZE - b.FreeBytes()
  {
    SizeOfSlots(b, |b.slots|);
  }

  // A page that was filled with the first `n` rows, one after another.
  function Filled(rows: seq<Record>, n: nat): Body
    requires n <= |rows|
  {
    if n == 0 then EMPTY else Inserted(Filled(rows, n - 1), rows[n - 1].key, rows[n - 1].value)
  }

  function FilledUp(rows: seq<Record>): Body {
    Filled(rows, |rows|)
  }

  lemma {:induction false} FilledPrefix(a: seq<Record>, b: seq<Record>, n: nat)
    requires n <= |a| && n <= |b| && forall i :: 0 <= i < n ==> a[i] == b[i]
    ensures Filled(a, n) == Filled(b, n)
  {
    if n > 0 {
      FilledPrefix(a, b, n - 1);
    }
  }

  ghost predicate NoneEmpty(rows: seq<Record>) {
    forall i :: 0 <= i < |rows| ==> 0 < |rows[i].value|
  }

  ghost predicate KeysRise(rows: seq<Record>) {
    forall i, j :: 0 <= i < j < |rows| ==> rows[i].key < rows[j].key
  }

  ghost predicate RowsFit(rows: seq<Record>) {
    NoneEmpty(rows) && KeysRise(rows) && Size(rows) <= USABLE_SIZE - HEADER_SIZE
  }

  lemma EmptyIsOk()
    ensures BodyOk(EMPTY) && RowsOf(EMPTY) == []
  {
  }

  // Rows in key order fill a valid page that holds exactly them, if they fit.
  lemma {:induction false} FilledHolds(rows: seq<Record>, n: nat)
    requires NoneEmpty(rows) && KeysRise(rows) && n <= |rows| && SizeUpTo(rows, n) <= USABLE_SIZE - HEADER_SIZE
    ensures BodyOk(Filled(rows, n)) && RowsOf(Filled(rows, n)) == rows[..n]
  {
    if n == 0 {
      FilledNone(rows);
    } else {
      FilledHolds(rows, n - 1);
      FilledNext(rows, n - 1);
    }
  }

  lemma FilledNone(rows: seq<Record>)
    ensures BodyOk(Filled(rows, 0)) && RowsOf(Filled(rows, 0)) == rows[..0]
  {
    EmptyIsOk();
    assert Filled(rows, 0) == EMPTY && rows[..0] == [];
  }

  lemma FilledNext(rows: seq<Record>, n: nat)
    requires NoneEmpty(rows) && KeysRise(rows) && n < |rows| && SizeUpTo(rows, n + 1) <= USABLE_SIZE - HEADER_SIZE
    requires BodyOk(Filled(rows, n)) && RowsOf(Filled(rows, n)) == rows[..n]
    ensures BodyOk(Filled(rows, n + 1)) && RowsOf(Filled(rows, n + 1)) == rows[..n + 1]
  {
    PrefixFits(rows, n);
    InsertLast(Filled(rows, n), rows[..n], rows[n]);
    OneMore(rows, n);
  }

  lemma PrefixFits(rows: seq<Record>, n: nat)
    requires KeysRise(rows) && n < |rows|
    ensures Size(rows[..n]) == SizeUpTo(rows, n)
    ensures forall i :: 0 <= i < n ==> rows[..n][i].key < rows[n].key
  {
    SizePrefix(rows, rows[..n], n);
  }

  lemma OneMore(rows: seq<Record>, n: nat)
    requires n < |rows|
    ensures rows[..n + 1] == rows[..n] + [rows[n]]
  {
  }

  lemma LastFits(b: Body, rows: seq<Record>, last: Record)
    requires BodyOk(b) && RowsOf(b) == rows
    requires 0 < |last.value| && forall i :: 0 <= i < |rows| ==> rows[i].key < last.key
    requires Size(rows) + SLOT_SIZE + |last.value| <= USABLE_SIZE - HEADER_SIZE
    ensures Insertable(b, last.key, last.value) && Position(b.slots, last.key) == |rows|
  {
    SizeOfPage(b);
    forall i | 0 <= i < |rows| ensures b.slots[i].key < last.key {
      assert RowsOf(b)[i].key == b.slots[i].key;
    }
    SlotFacts(b.slots, b.freeEnd);
    PositionIs(b.slots, last.key, |rows|);
  }

  // A row behind all others that still fits.
  lemma InsertLast(b: Body, rows: seq<Record>, last: Record)
    requires BodyOk(b) && RowsOf(b) == rows
    requires 0 < |last.value| && forall i :: 0 <= i < |rows| ==> rows[i].key < last.key
    requires Size(rows) + SLOT_SIZE + |last.value| <= USABLE_SIZE - HEADER_SIZE
    ensures Insertable(b, last.key, last.value)
    ensures BodyOk(Inserted(b, last.key, last.value)) && RowsOf(Inserted(b, last.key, last.value)) == rows + [last]
  {
    LastFits(b, rows, last);
    InsertKeeps(b, last.key, last.value);
    assert rows[..|rows|] == rows && rows[|rows|..] == [];
  }

  // What a rewrite of the page does to its rows.
  datatype Edit = Keep | Replace(key: nat, value: seq<byte>) | Omit(key: nat)

  function EditedRow(r: Record, e: Edit): (rows: seq<Record>)
    ensures |rows| <= 1 && forall x :: x in rows ==> x.key == r.key
  {
    match e
    case Keep => [r]
    case Replace(key, value) => [if r.key == key then Record(key, value) else r]
    case Omit(key) => if r.key == key then [] else [r]
  }

  function Edited(rows: seq<Record>, n: nat, e: Edit): seq<Record>
    requires n <= |rows|
  {
    if n == 0 then [] else Edited(rows, n - 1, e) + EditedRow(rows[n - 1], e)
  }

  // The key an edit is about must be there.
  predicate Applies(slots: seq<Slot>, e: Edit) {
    match e
    case Keep => true
    case Replace(key, _) => Present(slots, key)
    case Omit(key) => Present(slots, key)
  }

  lemma {:induction false} EditedKeys(rows: seq<Record>, n: nat, e: Edit)
    requires KeysRise(rows) && n <= |rows|
    ensures KeysRise(Edited(rows, n, e))
    ensures forall i, x :: n <= i < |rows| && x in Edited(rows, n, e) ==> x.key < rows[i].key
  {
    if n > 0 {
      EditedKeys(rows, n - 1, e);
      var before, row := Edited(rows, n - 1, e), EditedRow(rows[n - 1], e);
      var all := before + row;
      forall i, j | 0 <= i < j < |all| ensures all[i].key < all[j].key {
        assert i < |before| ==> before[i] in before;
      }
    }
  }

  lemma {:induction false} EditedElsewhere(rows: seq<Record>, lo: nat, n: nat, e: Edit)
    requires lo <= n <= |rows| && forall i :: lo <= i < n ==> EditedRow(rows[i], e) == [rows[i]]
    ensures Edited(rows, n, e) == Edited(rows, lo, e) + rows[lo..n]
    decreases n
  {
    if lo < n {
      EditedElsewhere(rows, lo, n - 1, e);
      assert rows[lo..n] == rows[lo..n - 1] + [rows[n - 1]];
    }
  }

  lemma OneBehind(x: seq<Record>, rows: seq<Record>, lo: nat, n: nat)
    requires lo <= n < |rows|
    ensures (x + rows[lo..n]) + [rows[n]] == x + rows[lo..n + 1]
  {
  }

  lemma RowsBefore(rows: seq<Record>, j: nat, e: Edit)
    requires KeysRise(rows) && j < |rows| && !e.Keep? && rows[j].key == e.key
    ensures Edited(rows, j, e) == rows[..j]
  {
    forall i | 0 <= i < j ensures EditedRow(rows[i], e) == [rows[i]] {
      assert rows[i].key < rows[j].key;
    }
    EditedElsewhere(rows, 0, j, e);
  }

  lemma NothingBehind(x: seq<Record>, rows: seq<Record>, n: nat)
    requires n <= |rows|
    ensures x + rows[n..n] == x
  {
  }

  lemma LaterRowStays(rows: seq<Record>, j: nat, k: nat, e: Edit)
    requires KeysRise(rows) && j < k < |rows| && !e.Keep? && rows[j].key == e.key
    ensures EditedRow(rows[k], e) == [rows[k]]
  {
    assert rows[j].key < rows[k].key;
  }

  // An edit changes the row it is about and no other.
  lemma {:induction false} EditedIs(rows: seq<Record>, n: nat, e: Edit, j: nat)
    requires KeysRise(rows) && j < n <= |rows| && !e.Keep? && rows[j].key == e.key
    ensures Edited(rows, n, e) == rows[..j] + EditedRow(rows[j], e) + rows[j + 1..n]
  {
    if n == j + 1 {
      RowsBefore(rows, j, e);
      NothingBehind(rows[..j] + EditedRow(rows[j], e), rows, n);
    } else {
      EditedIs(rows, n - 1, e, j);
      LaterRowStays(rows, j, n - 1, e);
      OneBehind(rows[..j] + EditedRow(rows[j], e), rows, j + 1, n - 1);
    }
  }

  lemma KeptIsSame(rows: seq<Record>)
    ensures Edited(rows, |rows|, Keep) == rows
  {
    EditedElsewhere(rows, 0, |rows|, Keep);
  }

  lemma SizeAppend(rows: seq<Record>, more: seq<Record>)
    requires |more| <= 1
    ensures Size(rows + more) == Size(rows) + if more == [] then 0 else SLOT_SIZE + |more[0].value|
  {
    SizePrefix(rows, rows + more, |rows|);
    if more == [] {
      assert rows + more == rows;
    }
  }

  // The size a row has after the edit.
  function EditedRowSize(r: Record, e: Edit): nat {
    match e
    case Keep => SLOT_SIZE + |r.value|
    case Replace(key, value) => SLOT_SIZE + if r.key == key then |value| else |r.value|
    case Omit(key) => if r.key == key then 0 else SLOT_SIZE + |r.value|
  }

  lemma {:induction false} EditedSize(rows: seq<Record>, n: nat, e: Edit, j: nat)
    requires KeysRise(rows) && n <= |rows| && j < |rows| && !e.Keep? && rows[j].key == e.key
    ensures Size(Edited(rows, n, e)) ==
      SizeUpTo(rows, n) + if j < n then EditedRowSize(rows[j], e) - SLOT_SIZE - |rows[j].value| else 0
  {
    if n > 0 {
      EditedSize(rows, n - 1, e, j);
      SizeAppend(Edited(rows, n - 1, e), EditedRow(rows[n - 1], e));
      if n - 1 != j {
        assert rows[n - 1].key != rows[j].key;
      }
    }
  }

  predicate Empties(e: Edit) {
    e.Replace? && |e.value| == 0
  }

  lemma {:induction false} EditedValues(rows: seq<Record>, n: nat, e: Edit)
    requires n <= |rows| && NoneEmpty(rows)
    ensures !Empties(e) ==> NoneEmpty(Edited(rows, n, e))
    ensures Empties(e) && (exists i :: 0 <= i < n && rows[i].key == e.key) ==> !NoneEmpty(Edited(rows, n, e))
  {
    if n > 0 {
      EditedValues(rows, n - 1, e);
      var before, row := Edited(rows, n - 1, e), EditedRow(rows[n - 1], e);
      var all := before + row;
      assert forall i :: 0 <= i < |before| ==> all[i] == before[i];
      assert row != [] ==> all[|before|] == row[0];
    }
  }

  // Whether the edited rows fit is a matter of the one value that changes.
  lemma EditFits(rows: seq<Record>, j: nat, e: Edit)
    requires RowsFit(rows) && j < |rows| && !e.Keep? && rows[j].key == e.key
    ensures e.Omit? ==> RowsFit(Edited(rows, |rows|, e))
    ensures e.Replace? ==>
      (RowsFit(Edited(rows, |rows|, e)) <==>
         0 < |e.value| && Size(rows) - |rows[j].value| + |e.value| <= USABLE_SIZE - HEADER_SIZE)
  {
    EditedKeys(rows, |rows|, e);
    EditedValues(rows, |rows|, e);
    EditedSize(rows, |rows|, e, j);
  }

  lemma {:induction false} EditedPrefix(rows: seq<Record>, m: nat, n: nat, e: Edit)
    requires m <= n <= |rows|
    ensures Edited(rows, m, e) <= Edited(rows, n, e)
  {
    if m < n {
      EditedPrefix(rows, m, n - 1, e);
    }
  }

  // What does not fit so far will not fit with more behind it.
  lemma LaterFails(rows: seq<Record>, m: nat, e: Edit)
    requires m <= |rows|
    ensures RowsFit(Edited(rows, |rows|, e)) ==> RowsFit(Edited(rows, m, e))
  {
    EditedPrefix(rows, m, |rows|, e);
    PartFits(Edited(rows, m, e), Edited(rows, |rows|, e));
  }

  lemma PartFits(part: seq<Record>, rows: seq<Record>)
    requires part <= rows
    ensures RowsFit(rows) ==> RowsFit(part)
  {
    SizePrefix(part, rows, |part|);
    SizeGrows(rows, |part|, |rows|);
  }

  lemma FitsNext(rows: seq<Record>, r: Record)
    requires RowsFit(rows) && forall i :: 0 <= i < |rows| ==> rows[i].key < r.key
    ensures RowsFit(rows + [r]) <==> 0 < |r.value| && Size(rows) + SLOT_SIZE + |r.value| <= USABLE_SIZE - HEADER_SIZE
  {
    var more := rows + [r];
    SizeAppend(rows, [r]);
    assert more[|rows|] == r && forall i :: 0 <= i < |rows| ==> more[i] == rows[i];
  }

  // The next row goes in if and only if all rows up to it fit.
  lemma NextFits(rows: seq<Record>, r: Record)
    requires RowsFit(rows) && forall i :: 0 <= i < |rows| ==> rows[i].key < r.key
    ensures Insertable(Filled(rows, |rows|), r.key, r.value) <==> RowsFit(rows + [r])
    ensures Filled(rows + [r], |rows| + 1) == Inserted(Filled(rows, |rows|), r.key, r.value)
  {
    var b := Filled(rows, |rows|);
    FitsNext(rows, r);
    FilledHolds(rows, |rows|);
    FilledPrefix(rows, rows + [r], |rows|);
    assert rows[..|rows|] == rows;
    SizeOfPage(b);
    if RowsFit(rows + [r]) {
      LastFits(b, rows, r);
    }
  }

  lemma DroppedRow(rows: seq<Record>, i: nat, e: Edit)
    requires i < |rows| && EditedRow(rows[i], e) == []
    ensures Edited(rows, i + 1, e) == Edited(rows, i, e)
  {
  }

  ghost predicate PartFilled(rows: seq<Record>, v: Body) {
    RowsFit(rows) && v == FilledUp(rows)
  }

  lemma CarriedRow(rows: seq<Record>, i: nat, e: Edit, r: Record, v: Body)
    requires KeysRise(rows) && i < |rows| && EditedRow(rows[i], e) == [r] && PartFilled(Edited(rows, i, e), v)
    ensures
      if Insertable(v, r.key, r.value) then PartFilled(Edited(rows, i + 1, e), Inserted(v, r.key, r.value))
      else !RowsFit(Edited(rows, i + 1, e))
  {
    var before := Edited(rows, i, e);
    EditedKeys(rows, i, e);
    assert r in [r];
    forall k | 0 <= k < |before| ensures before[k].key < r.key {
      assert before[k] in before;
    }
    NextFits(before, r);
  }

  // The edit's key was met among the first `n` slots.
  predicate Met(slots: seq<Slot>, n: nat, e: Edit)
    requires n <= |slots|
  {
    e.Keep? || exists k :: 0 <= k < n && slots[k].key == e.key
  }

  lemma MetNext(slots: seq<Slot>, n: nat, e: Edit)
    requires n < |slots|
    ensures Met(slots, n + 1, e) <==> Met(slots, n, e) || slots[n].key == e.key
  {
  }

  // The new page holds what the first `i` rows have become.
  ghost predicate Carried(b: Body, v: Body, i: nat, e: Edit) {
    BodyOk(b) && i <= |b.slots| && PartFilled(Edited(RowsOf(b), i, e), v)
  }

  // And the edit's key was met or not.
  ghost predicate Stage(b: Body, v: Body, i: nat, e: Edit, met: bool) {
    Carried(b, v, i, e) && (met <==> Met(b.slots, i, e))
  }

  lemma NothingCarried(b: Body, e: Edit)
    requires BodyOk(b)
    ensures Stage(b, EMPTY, 0, e, e.Keep?)
  {
  }

  lemma CarryNext(b: Body, v: Body, i: nat, e: Edit, r: Record)
    requires Carried(b, v, i, e) && i < |b.slots| && EditedRow(RowsOf(b)[i], e) == [r]
    ensures
      if Insertable(v, r.key, r.value) then Carried(b, Inserted(v, r.key, r.value), i + 1, e)
      else !CanRebuild(b, e)
  {
    PageRowsFit(b);
    CarriedRow(RowsOf(b), i, e, r, v);
    LaterFails(RowsOf(b), i + 1, e);
  }

  lemma AllCarried(b: Body, v: Body, e: Edit, met: bool)
    requires Stage(b, v, |b.slots|, e, met)
    ensures v == Rebuilt(b, e) && (CanRebuild(b, e) <==> met)
  {
  }

  lemma PageRowsFit(b: Body)
    requires BodyOk(b)
    ensures RowsFit(RowsOf(b)) && KeysRise(RowsOf(b))
  {
    SizeOfPage(b);
    SlotFacts(b.slots, b.freeEnd);
    forall i | 0 <= i < |b.slots| ensures 0 < |RowsOf(b)[i].value| {
      RowAt(b, i);
    }
  }

  function Compacted(b: Body): Body {
    FilledUp(RowsOf(b))
  }

  // The page rewritten under an edit.
  function Rebuilt(b: Body, e: Edit): Body {
    FilledUp(Edited(RowsOf(b), |b.slots|, e))
  }

  lemma RebuiltIsOk(b: Body, e: Edit)
    requires CanRebuild(b, e)
    ensures BodyOk(Rebuilt(b, e)) && RowsOf(Rebuilt(b, e)) == Edited(RowsOf(b), |b.slots|, e)
  {
    var rows := Edited(RowsOf(b), |b.slots|, e);
    FilledHolds(rows, |rows|);
    assert rows[..|rows|] == rows;
  }

  // A valid page has no holes, so compaction gains nothing.
  lemma CompactGainsNothing(b: Body)
    requires BodyOk(b)
    ensures BodyOk(Compacted(b)) && RowsOf(Compacted(b)) == RowsOf(b)
    ensures Compacted(b).FreeBytes() == b.FreeBytes()
  {
    var rows := RowsOf(b);
    PageRowsFit(b);
    FilledHolds(rows, |rows|);
    assert rows[..|rows|] == rows;
    SizeOfPage(b);
    SizeOfPage(Compacted(b));
  }

  class SlottedLeaf {
    const bytes: array<byte>
    var stamp: Stamp
    var slots: seq<Slot>
    var freeStart: nat
    var freeEnd: nat

    predicate Shaped()
      reads this
    {
      bytes.Length == USABLE_SIZE
    }

    function View(): Body
      requires Shaped()
      reads this, bytes
    {
      Body(stamp, slots, freeStart, freeEnd, bytes[..])
    }

    // A copy of a page.
    constructor (b: Body)
      ensures Shaped() && View() == b && fresh(bytes)
    {
      bytes := new byte[USABLE_SIZE](i requires 0 <= i < USABLE_SIZE => b.bytes[i]);
      stamp, slots, freeStart, freeEnd := b.stamp, b.slots, b.freeStart, b.freeEnd;
      new;
      assert bytes[..] == b.bytes;
    }

    // Magic and version, free-space bounds, then every slot against the page and all earlier slots.
    method Validate() returns (ok: bool)
      requires Shaped()
      ensures ok <==> BodyOk(View())
    {
      if stamp != SLOTTED_V2 {
        return false;
      }
      var expected := HEADER_SIZE + |slots| * SLOT_SIZE;
      if expected > USABLE_SIZE || freeStart != expected || freeStart > freeEnd || freeEnd > USABLE_SIZE {
        return false;
      }
      var total := 0;
      for i := 0 to |slots|
        invariant SlotsOkUpTo(slots, freeEnd, i) && total == Payload(slots, i)
      {
        var current := slots[i];
        ok := current.length != 0 && current.offset >= freeEnd && current.offset <= USABLE_SIZE
          && current.length <= USABLE_SIZE - current.offset && (i == 0 || slots[i - 1].key < current.key);
        if ok {
          ok := IsApart(i);
        }
        SlotsOkNext(slots, freeEnd, i);
        if !ok {
          return;
        }
        total := total + current.length;
      }
      return total == USABLE_SIZE - freeEnd;
    }

    method IsApart(i: nat) returns (ok: bool)
      requires i < |slots|
      ensures ok <==> forall j :: 0 <= j < i ==> Apart(slots[j], slots[i])
    {
      for j := 0 to i
        invariant forall k :: 0 <= k < j ==> Apart(slots[k], slots[i])
      {
        if slots[i].offset < slots[j].End() && slots[j].offset < slots[i].End() {
          assert !Apart(slots[j], slots[i]);
          return false;
        }
      }
      return true;
    }

    method FreeBytes() returns (n: nat)
      requires Shaped()
      ensures n == if BodyOk(View()) then View().FreeBytes() else 0
    {
      var ok := Validate();
      return if ok then freeEnd - freeStart else 0;
    }

    method LowerBound(key: nat) returns (p: nat)
      requires Rising(slots)
      ensures p == Position(slots, key)
      ensures Present(slots, key) <==> p < |slots| && slots[p].key == key
    {
      var low, high := 0, |slots|;
      while low < high
        invariant 0 <= low <= high <= |slots|
        invariant forall i :: 0 <= i < low ==> slots[i].key < key
        invariant forall i :: high <= i < |slots| ==> key <= slots[i].key
      {
        var middle := low + (high - low) / 2;
        if slots[middle].key < key {
          low := middle + 1;
        } else {
          high := middle;
        }
      }
      PositionIs(slots, key, low);
      p := low;
    }

    method Find(key: nat) returns (found: bool, index: nat)
      requires Shaped()
      ensures found <==> BodyOk(View()) && Present(slots, key)
      ensures found ==> index < |slots| && slots[index].key == key
    {
      index := 0;
      found := Validate();
      if found {
        SlotFacts(slots, freeEnd);
        index := LowerBound(key);
        found := index < |slots| && slots[index].key == key;
      }
    }

    // Inserts a row, or leaves the page as it was.
    method Insert(key: nat, value: seq<byte>) returns (ok: bool)
      requires Shaped() && |value| <= VALUE_MAX
      modifies this, bytes
      ensures Shaped()
      ensures ok <==> old(Insertable(View(), key, value))
      ensures View() == if ok then Inserted(old(View()), key, value) else old(View())
    {
      ok := Validate();
      if |value| == 0 || !ok {
        return false;
      }
      SlotFacts(slots, freeEnd);
      var p := LowerBound(key);
      if p < |slots| && slots[p].key == key {
        return false;
      }
      var available := FreeBytes();
      if SLOT_SIZE + |value| > available {
        return false;
      }
      InsertedIsOk(View(), key, value);
      Place(p, key, value);
      ok := Validate();
    }

    // The slots behind make room, the payload goes in front of the others.
    method Place(p: nat, key: nat, value: seq<byte>)
      requires Shaped() && BodyOk(View()) && |value| <= freeEnd && p == Position(slots, key)
      modifies this, bytes
      ensures Shaped() && View() == Inserted(old(View()), key, value)
    {
      var at := freeEnd - |value|;
      slots := slots[..p] + [Slot(key, at, |value|)] + slots[p..];
      Copy(at, value);
      freeStart := HEADER_SIZE + SLOT_SIZE * |slots|;
      freeEnd := at;
    }

    method Copy(at: nat, value: seq<byte>)
      requires Shaped() && at + |value| <= USABLE_SIZE
      modifies bytes
      ensures bytes[..] == Written(old(bytes[..]), at, value)
    {
      for i := 0 to |value|
        invariant forall k :: 0 <= k < USABLE_SIZE ==>
          bytes[k] == if at <= k < at + i then value[k - at] else old(bytes[k])
      {
        bytes[at + i] := value[i];
      }
    }

    method Read(key: nat, capacity: nat) returns (ok: bool, value: seq<byte>)
      requires Shaped()
      ensures ok <==> BodyOk(View()) && exists r :: r in RowsOf(View()) && r.key == key && |r.value| <= capacity
      ensures ok ==> Record(key, value) in RowsOf(View())
    {
      value := [];
      var found, index := Find(key);
      if found {
        RowAt(View(), index);
        OneRowPerKey(View(), index);
        if slots[index].length <= capacity {
          value := bytes[slots[index].offset..slots[index].End()];
          return true, value;
        }
      } else if BodyOk(View()) {
        NoRow(View(), key);
      }
      return false, value;
    }

    // Rewrites the page row by row into a blank one; nothing changes on failure.
    method Rebuild(e: Edit) returns (ok: bool)
      requires Shaped() && (e.Replace? ==> |e.value| <= VALUE_MAX)
      modifies this, bytes
      ensures Shaped()
      ensures ok <==> old(CanRebuild(View(), e))
      ensures View() == if ok then Rebuilt(old(View()), e) else old(View())
    {
      ok := Validate();
      if !ok {
        return;
      }
      var scratch := new SlottedLeaf(EMPTY);
      ghost var b := View();
      ok := CopyRows(scratch, e, b);
      if ok {
        RebuiltIsOk(b, e);
        Overwrite(scratch);
        ok := Validate();
      }
    }

    method CopyRows(scratch: SlottedLeaf, e: Edit, ghost b: Body) returns (ok: bool)
      requires Shaped() && scratch.Shaped() && scratch != this && scratch.bytes != bytes
      requires View() == b && BodyOk(b) && scratch.View() == EMPTY && (e.Replace? ==> |e.value| <= VALUE_MAX)
      modifies scratch, scratch.bytes
      ensures scratch.Shaped() && (ok <==> CanRebuild(b, e))
      ensures ok ==> scratch.View() == Rebuilt(b, e)
    {
      NothingCarried(b, e);
      var met;
      ok, met := CopyAll(scratch, e, b);
      if ok {
        AllCarried(b, scratch.View(), e, met);
        ok := met;
      }
    }

    method CopyAll(scratch: SlottedLeaf, e: Edit, ghost b: Body) returns (ok: bool, met: bool)
      requires Shaped() && scratch.Shaped() && scratch != this && scratch.bytes != bytes
      requires View() == b && (e.Replace? ==> |e.value| <= VALUE_MAX)
      requires Stage(b, scratch.View(), 0, e, e.Keep?)
      modifies scratch, scratch.bytes
      ensures scratch.Shaped()
      ensures if ok then Stage(b, scratch.View(), |b.slots|, e, met) else !CanRebuild(b, e)
    {
      ok, met := true, e.Keep?;
      var i := 0;
      while i < |slots|
        invariant ok && i <= |slots| && scratch.Shaped() && View() == b && Stage(b, scratch.View(), i, e, met)
      {
        ok, met := CarryOver(scratch, i, e, met, b);
        if !ok {
          return;
        }
        i := i + 1;
      }
    }

    // One row on its way to the new page.
    method CarryOver(scratch: SlottedLeaf, i: nat, e: Edit, met: bool, ghost b: Body) returns (ok: bool, met': bool)
      requires Shaped() && scratch.Shaped() && scratch != this && scratch.bytes != bytes
      requires View() == b && i < |slots| && (e.Replace? ==> |e.value| <= VALUE_MAX)
      requires Stage(b, scratch.View(), i, e, met)
      modifies scratch, scratch.bytes
      ensures scratch.Shaped()
      ensures if ok then Stage(b, scratch.View(), i + 1, e, met') else !CanRebuild(b, e)
    {
      var slot := slots[i];
      RowAt(b, i);
      MetNext(b.slots, i, e);
      met' := met || slot.key == e.key;
      if e.Omit? && slot.key == e.key {
        DroppedRow(RowsOf(b), i, e);
        return true, met';
      }
      var value := if e.Replace? && slot.key == e.key then e.value else bytes[slot.offset..slot.End()];
      CarryNext(b, scratch.View(), i, e, Record(slot.key, value));
      ok := scratch.Insert(slot.key, value);
    }

    method Overwrite(other: SlottedLeaf)
      requires Shaped() && other.Shaped() && bytes != other.bytes && this != other
      modifies this, bytes
      ensures Shaped() && View() == old(other.View())
    {
      for i := 0 to USABLE_SIZE
        invariant forall k :: 0 <= k < i ==> bytes[k] == other.bytes[k]
      {
        bytes[i] := other.bytes[i];
      }
      assert bytes[..] == other.bytes[..];
      stamp, slots, freeStart, freeEnd := other.stamp, other.slots, other.freeStart, other.freeEnd;
    }

    // Replaces the value of a row if there is room for it with the old one gone.
    method Update(key: nat, value: seq<byte>) returns (ok: bool)
      requires Shaped() && |value| <= VALUE_MAX
      modifies this, bytes
      ensures Shaped()
      ensures ok <==> old(CanRebuild(View(), Replace(key, value)))
      ensures View() == if ok then Rebuilt(old(View()), Replace(key, value)) else old(View())
    {
      var found, index := Find(key);
      if |value| == 0 || !found {
        NothingToReplace(View(), key, value);
        return false;
      }
      var available := FreeBytes();
      RoomForUpdate(View(), index, value);
      if |value| > available + slots[index].length {
        return false;
      }
      ok := Rebuild(Replace(key, value));
    }

    method Delete(key: nat) returns (ok: bool)
      requires Shaped()
      modifies this, bytes
      ensures Shaped()
      ensures ok <==> old(BodyOk(View()) && Present(slots, key))
      ensures View() == if ok then Rebuilt(old(View()), Omit(key)) else old(View())
    {
      DeleteFits(View(), key);
      ok := Rebuild(Omit(key));
    }

    method Compact() returns (ok: bool)
      requires Shaped()
      modifies this, bytes
      ensures Shaped()
      ensures ok <==> old(BodyOk(View()))
      ensures View() == if ok then Compacted(old(View())) else old(View())
    {
      KeptIsSame(RowsOf(View()));
      if BodyOk(View()) {
        PageRowsFit(View());
      }
      ok := Rebuild(Keep);
    }
  }

  ghost predicate CanRebuild(b: Body, e: Edit) {
    BodyOk(b) && Applies(b.slots, e) && RowsFit(Edited(RowsOf(b), |b.slots|, e))
  }

  // An update that is refused early would not have fitted.
  lemma RoomForUpdate(b: Body, j: nat, value: seq<byte>)
    requires BodyOk(b) && j < |b.slots| && 0 < |value|
    ensures CanRebuild(b, Replace(b.slots[j].key, value)) <==> |value| <= b.FreeBytes() + b.slots[j].length
  {
    PageRowsFit(b);
    SizeOfPage(b);
    RowAt(b, j);
    EditFits(RowsOf(b), j, Replace(b.slots[j].key, value));
  }

  lemma NothingToReplace(b: Body, key: nat, value: seq<byte>)
    requires |value| == 0 || !BodyOk(b) || !Present(b.slots, key)
    ensures !CanRebuild(b, Replace(key, value))
  {
    if BodyOk(b) && Present(b.slots, key) {
      PageRowsFit(b);
      var j :| 0 <= j < |b.slots| && b.slots[j].key == key;
      EditFits(RowsOf(b), j, Replace(key, value));
    }
  }

  lemma DeleteFits(b: Body, key: nat)
    ensures CanRebuild(b, Omit(key)) <==> BodyOk(b) && Present(b.slots, key)
  {
    if BodyOk(b) && Present(b.slots, key) {
      PageRowsFit(b);
      var j :| 0 <= j < |b.slots| && b.slots[j].key == key;
      EditFits(RowsOf(b), j, Omit(key));
    }
  }

  lemma RowAt(b: Body, i: nat)
    requires BodyOk(b) && i < |b.slots|
    ensures InPayload(b.slots[i], b.freeEnd) && RowsOf(b)[i] in RowsOf(b)
    ensures RowsOf(b)[i] == Record(b.slots[i].key, b.bytes[b.slots[i].offset..b.slots[i].End()])
    ensures |RowsOf(b)[i].value| == b.slots[i].length
  {
    assert SlotOk(b.slots, b.freeEnd, i);
  }

  lemma OneRowPerKey(b: Body, i: nat)
    requires BodyOk(b) && i < |b.slots|
    ensures forall r :: r in RowsOf(b) && r.key == b.slots[i].key ==> r == RowsOf(b)[i]
  {
    SlotFacts(b.slots, b.freeEnd);
    forall r | r in RowsOf(b) && r.key == b.slots[i].key ensures r == RowsOf(b)[i] {
      var k :| 0 <= k < |b.slots| && RowsOf(b)[k] == r;
      assert b.slots[k].key == b.slots[i].key;
    }
  }

  lemma NoRow(b: Body, key: nat)
    requires !Present(b.slots, key)
    ensures forall r :: r in RowsOf(b) ==> r.key != key
  {
    forall r | r in RowsOf(b) ensures r.key != key {
      var k :| 0 <= k < |b.slots| && RowsOf(b)[k] == r;
      assert b.slots[k].key != key;
    }
  }

  // Keys that rise from slot to slot rise throughout.
  lemma SlotsOkNext(slots: seq<Slot>, freeEnd: nat, i: nat)
    requires i < |slots| && SlotsOkUpTo(slots, freeEnd, i)
    ensures SlotOk(slots, freeEnd, i) <==>
      && InPayload(slots[i], freeEnd) && (i == 0 || slots[i - 1].key < slots[i].key)
      && forall j :: 0 <= j < i ==> Apart(slots[j], slots[i])
  {
    assert i > 0 ==> SlotOk(slots, freeEnd, i - 1);
  }
}
