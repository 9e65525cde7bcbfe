/** How column values compare (src/generic_index_stats.c:194-225,
    src/generic_predicate.c:191-201): numbers by size, texts character by
    character. */
module ValueOrder {
  import opened Lexer

  function TextBefore(a: string, b: string, i: nat): bool
    requires i <= |a| && i <= |b|
    decreases |b| - i
  {
    if i == |b| then false
    else if i == |a| then true
    else if a[i] != b[i] then a[i] < b[i]
    else TextBefore(a, b, i + 1)
  }

  // A column holds values of one type; across types numbers come first.
  function Before(a: Value, b: Value): bool {
    match (a, b)
    case (Number(m), Number(n)) => m < n
    case (Text(s), Text(t)) => TextBefore(s, t, 0)
    case (Number(_), Text(_)) => true
    case (Text(_), Number(_)) => false
  }

  // Where the texts first differ: at the end of the shorter one, or at a smaller character.
  ghost predicate FirstDifference(a: string, b: string, k: nat) {
    k <= |a| && k < |b| && a[..k] == b[..k] && (k == |a| || a[k] < b[k])
  }

  lemma SameBefore(a: string, b: string, i: nat, k: nat)
    requires FirstDifference(a, b, k) && i < k
    ensures i < |a| && i < |b| && a[i] == b[i]
  {
    assert a[..k][i] == b[..k][i];
  }

  lemma {:induction false} TextBeforeFrom(a: string, b: string, i: nat)
    requires i <= |a| && i <= |b| && a[..i] == b[..i]
    ensures TextBefore(a, b, i) <==> exists k: nat :: i <= k && FirstDifference(a, b, k)
    decreases |b| - i
  {
    if i < |a| && i < |b| && a[i] == b[i] {
      assert a[..i + 1] == a[..i] + [a[i]] && b[..i + 1] == b[..i] + [b[i]];
      TextBeforeFrom(a, b, i + 1);
      assert !FirstDifference(a, b, i);
    } else {
      assert i < |b| && (i == |a| || a[i] < b[i]) ==> FirstDifference(a, b, i);
      forall k: nat | i <= k && FirstDifference(a, b, k) ensures k == i {
        if k > i {
          SameBefore(a, b, i, k);
        }
      }
    }
  }

  // Numbers by size, texts by their first difference.
  lemma BeforeIs(a: Value, b: Value)
    ensures a.Number? && b.Number? ==> (Before(a, b) <==> a.n < b.n)
    ensures a.Text? && b.Text? ==> (Before(a, b) <==> exists k: nat :: FirstDifference(a.s, b.s, k))
  {
    if a.Text? && b.Text? {
      TextBeforeFrom(a.s, b.s, 0);
    }
  }

  lemma {:induction false} TextTotal(a: string, b: string, i: nat)
    requires i <= |a| && i <= |b| && a[..i] == b[..i]
    ensures TextBefore(a, b, i) || TextBefore(b, a, i) || a == b
    ensures !(TextBefore(a, b, i) && TextBefore(b, a, i))
    decreases |b| - i
  {
    if i == |a| || i == |b| {
      assert a[..|a|] == a && b[..|b|] == b;
    } else if a[i] == b[i] {
      assert a[..i + 1] == a[..i] + [a[i]] && b[..i + 1] == b[..i] + [b[i]];
      TextTotal(a, b, i + 1);
    }
  }

  lemma {:induction false} TextTransitive(a: string, b: string, c: string, i: nat)
    requires i <= |a| && i <= |b| && i <= |c|
    requires TextBefore(a, b, i) && TextBefore(b, c, i)
    ensures TextBefore(a, c, i)
    decreases |c| - i
  {
    if i < |a| && a[i] == b[i] && b[i] == c[i] {
      TextTransitive(a, b, c, i + 1);
    }
  }

  lemma BeforeTotal(a: Value, b: Value)
    ensures Before(a, b) || Before(b, a) || a == b
    ensures !(Before(a, b) && Before(b, a))
    ensures !Before(a, a)
  {
    match a
    case Number(_) =>
    case Text(s) =>
      TextTotal(s, s, 0);
      if b.Text? {
        TextTotal(s, b.s, 0);
      }
  }

  lemma BeforeTransitive(a: Value, b: Value, c: Value)
    requires Before(a, b) && Before(b, c)
    ensures Before(a, c)
  {
    if a.Text? && b.Text? && c.Text? {
      TextTransitive(a.s, b.s, c.s, 0);
    }
  }

  // What a comparison says of a value; pattern tests are answered elsewhere.
  predicate Holds(op: Op, v: Value, bound: Value) {
    match op
    case Eq => v == bound
    case Gt => Before(bound, v)
    case Gte => !Before(v, bound)
    case Lt => Before(v, bound)
    case Lte => !Before(bound, v)
    case Like => true
  }

  // The comparisons as their symbols are read.
  lemma HoldsIs(op: Op, v: Value, bound: Value)
    ensures op == Eq ==> (Holds(op, v, bound) <==> v == bound)
    ensures op == Lt ==> (Holds(op, v, bound) <==> Before(v, bound))
    ensures op == Gt ==> (Holds(op, v, bound) <==> Before(bound, v))
    ensures op == Lte ==> (Holds(op, v, bound) <==> Before(v, bound) || v == bound)
    ensures op == Gte ==> (Holds(op, v, bound) <==> Before(bound, v) || v == bound)
  {
    BeforeTotal(v, bound);
  }
}
