/** Keeping the best entries of a stream in a small sorted array
    (src/generic_index_stats.c:286-324, src/generic_index_correlation.c:355-384):
    a new entry replaces the last one and is swapped forward. */
module Ranking {

  ghost predicate StrictWeak<T(!new)>(better: (T, T) -> bool) {
    && (forall x :: !better(x, x))
    && (forall x, y, z :: better(x, y) && better(y, z) ==> better(x, z))
    && (forall x, y, z :: !better(x, y) && !better(y, z) ==> !better(x, z))
  }

  // Nothing is better than what stands before it.
  ghost predicate Ordered<T(!new)>(s: seq<T>, better: (T, T) -> bool) {
    forall i, j :: 0 <= i < j < |s| ==> !better(s[j], s[i])
  }

  // How far forward `x` moves from position `n`.
  function Place<T>(s: seq<T>, x: T, n: nat, better: (T, T) -> bool): (p: nat)
    requires n <= |s|
    ensures p <= n
    ensures forall j :: p <= j < n ==> better(x, s[j])
    ensures p > 0 ==> !better(x, s[p - 1])
  {
    if n > 0 && better(x, s[n - 1]) then Place(s, x, n - 1, better) else n
  }

  function Insert<T>(s: seq<T>, x: T, better: (T, T) -> bool): (r: seq<T>)
    ensures |r| == |s| + 1
  {
    var p := Place(s, x, |s|, better);
    s[..p] + [x] + s[p..]
  }

  lemma InsertPoints<T>(s: seq<T>, x: T, better: (T, T) -> bool)
    ensures
      var p, r := Place(s, x, |s|, better), Insert(s, x, better);
      && r[p] == x
      && (forall i :: 0 <= i < p ==> r[i] == s[i])
      && (forall i :: p < i <= |s| ==> r[i] == s[i - 1])
  {
    SplicedAt(s, x, Place(s, x, |s|, better));
  }

  lemma SplicedAt<T>(s: seq<T>, x: T, p: nat)
    requires p <= |s|
    ensures
      var r := s[..p] + [x] + s[p..];
      && |r| == |s| + 1 && r[p] == x
      && (forall i :: 0 <= i < p ==> r[i] == s[i])
      && (forall i :: p < i <= |s| ==> r[i] == s[i - 1])
  {
  }

  // The first `n` entries, ranked.
  function Ranked<T>(s: seq<T>, n: nat, better: (T, T) -> bool): (r: seq<T>)
    requires n <= |s|
    ensures |r| == n
  {
    if n == 0 then [] else Insert(Ranked(s, n - 1, better), s[n - 1], better)
  }

  function Best<T>(s: seq<T>, k: nat): seq<T> {
    if |s| <= k then s else s[..k]
  }

  lemma InsertOrdered<T(!new)>(s: seq<T>, x: T, better: (T, T) -> bool)
    requires StrictWeak(better) && Ordered(s, better)
    ensures Ordered(Insert(s, x, better), better)
  {
    var p, r := Place(s, x, |s|, better), Insert(s, x, better);
    forall i, j | 0 <= i < j < |r| ensures !better(r[j], r[i]) {
      if i < p && j == p {
        assert !better(x, s[p - 1]);
        assert i < p - 1 ==> !better(s[p - 1], s[i]);
      }
    }
  }

  lemma InsertAdds<T>(s: seq<T>, x: T, better: (T, T) -> bool)
    ensures multiset(Insert(s, x, better)) == multiset(s) + multiset{x}
  {
    var p := Place(s, x, |s|, better);
    assert s == s[..p] + s[p..];
  }

  lemma {:induction false} RankedOrdered<T(!new)>(s: seq<T>, n: nat, better: (T, T) -> bool)
    requires StrictWeak(better) && n <= |s|
    ensures Ordered(Ranked(s, n, better), better)
  {
    if n > 0 {
      RankedOrdered(s, n - 1, better);
      InsertOrdered(Ranked(s, n - 1, better), s[n - 1], better);
    }
  }

  lemma {:induction false} RankedKeeps<T>(s: seq<T>, n: nat, better: (T, T) -> bool)
    requires n <= |s|
    ensures multiset(Ranked(s, n, better)) == multiset(s[..n])
  {
    if n > 0 {
      RankedKeeps(s, n - 1, better);
      InsertAdds(Ranked(s, n - 1, better), s[n - 1], better);
      PrefixAdds(s, n);
    }
  }

  lemma PrefixAdds<T>(s: seq<T>, n: nat)
    requires 0 < n <= |s|
    ensures multiset(s[..n]) == multiset(s[..n - 1]) + multiset{s[n - 1]}
  {
    assert s[..n] == s[..n - 1] + [s[n - 1]];
  }

  // The entries after considering one more when only the best `k` are kept.
  function Considered<T>(t: seq<T>, x: T, k: nat, better: (T, T) -> bool): seq<T>
    requires 0 < k && |t| <= k
  {
    if |t| < k then Insert(t, x, better)
    else if better(x, t[k - 1]) then Insert(t[..k - 1], x, better)
    else t
  }

  // Forgetting all but the best `k` before an insertion loses nothing.
  lemma BestOfInsert<T(!new)>(s: seq<T>, x: T, k: nat, better: (T, T) -> bool)
    requires StrictWeak(better) && Ordered(s, better) && k > 0
    ensures Best(Insert(s, x, better), k) == Considered(Best(s, k), x, k, better)
  {
    if |s| >= k && better(x, s[k - 1]) {
      PlaceBefore(s, x, k - 1, better);
      CutBefore(s, x, k, better);
    } else {
      CutBehind(s, x, k, better);
    }
  }

  lemma CutBefore<T(!new)>(s: seq<T>, x: T, k: nat, better: (T, T) -> bool)
    requires 0 < k <= |s| && better(x, s[k - 1]) && Place(s, x, |s|, better) <= k - 1
    ensures Best(Insert(s, x, better), k) == Considered(Best(s, k), x, k, better)
  {
    SamePlace(s, s[..k - 1], x, better);
    ConsideredAfter(s, x, k, better);
    BestCuts(Insert(s, x, better), k);
  }

  lemma ConsideredAfter<T>(s: seq<T>, x: T, k: nat, better: (T, T) -> bool)
    requires 0 < k <= |s| && better(x, s[k - 1])
    ensures Considered(Best(s, k), x, k, better) == Insert(s[..k - 1], x, better)
  {
    BestCuts(s, k);
    assert s[..k][k - 1] == s[k - 1] && s[..k][..k - 1] == s[..k - 1];
  }

  lemma BestCuts<T>(s: seq<T>, k: nat)
    requires k <= |s|
    ensures Best(s, k) == s[..k]
  {
  }

  lemma CutBehind<T(!new)>(s: seq<T>, x: T, k: nat, better: (T, T) -> bool)
    requires 0 < k && (|s| >= k ==> !better(x, s[k - 1]))
    ensures Best(Insert(s, x, better), k) == Considered(Best(s, k), x, k, better)
  {
    if |s| >= k {
      assert Best(s, k) == s[..k] && s[..k][k - 1] == s[k - 1];
      assert Place(s, x, |s|, better) >= k;
    }
  }

  lemma PlaceBefore<T(!new)>(s: seq<T>, x: T, i: nat, better: (T, T) -> bool)
    requires StrictWeak(better) && Ordered(s, better) && i < |s| && better(x, s[i])
    ensures Place(s, x, |s|, better) <= i
  {
    assert forall j :: i < j < |s| ==> !better(s[j], s[i]);
  }

  lemma SamePlace<T(!new)>(s: seq<T>, front: seq<T>, x: T, better: (T, T) -> bool)
    requires |front| <= |s| && front == s[..|front|]
    requires Place(s, x, |s|, better) <= |front|
    ensures Place(front, x, |front|, better) == Place(s, x, |s|, better)
    ensures Insert(front, x, better) == Insert(s, x, better)[..|front| + 1]
  {
    assert forall i :: 0 <= i < |front| ==> front[i] == s[i];
  }

  // Writes `x` at `position` and swaps it forward while it is better.
  method Bubble<T>(entries: array<T>, position: nat, x: T, better: (T, T) -> bool)
    requires position < entries.Length
    modifies entries
    ensures entries[..position + 1] == Insert(old(entries[..position]), x, better)
    ensures entries[position + 1..] == old(entries[position + 1..])
  {
    ghost var front := entries[..position];
    var at := position;
    entries[at] := x;
    while at > 0 && better(entries[at], entries[at - 1])
      invariant 0 <= at <= position
      invariant Place(front, x, position, better) == Place(front, x, at, better)
      invariant forall i :: 0 <= i < at ==> entries[i] == front[i]
      invariant entries[at] == x
      invariant forall i :: at < i <= position ==> entries[i] == front[i - 1]
      invariant entries[position + 1..] == old(entries[position + 1..])
    {
      entries[at - 1], entries[at] := entries[at], entries[at - 1];
      at := at - 1;
    }
    Bubbled(entries[..position + 1], front, x, at, better);
  }

  lemma Bubbled<T>(now: seq<T>, front: seq<T>, x: T, at: nat, better: (T, T) -> bool)
    requires |now| == |front| + 1 && at <= |front|
    requires Place(front, x, |front|, better) == at
    requires forall i :: 0 <= i < at ==> now[i] == front[i]
    requires now[at] == x
    requires forall i :: at < i <= |front| ==> now[i] == front[i - 1]
    ensures now == Insert(front, x, better)
  {
  }

  // One step of the selection, in place.
  method Consider<T(!new)>(entries: array<T>, count: nat, x: T, better: (T, T) -> bool) returns (count': nat)
    requires 0 < entries.Length && count <= entries.Length
    modifies entries
    ensures count' <= entries.Length
    ensures entries[..count'] == Considered(old(entries[..count]), x, entries.Length, better)
  {
    var position := count;
    count' := count;
    if count < entries.Length {
      count' := count + 1;
    } else {
      position := entries.Length - 1;
      assert entries[..count][position] == entries[position];
      if !better(x, entries[position]) {
        return;
      }
    }
    assert entries[..count][..position] == entries[..position];
    Bubble(entries, position, x, better);
  }
}
