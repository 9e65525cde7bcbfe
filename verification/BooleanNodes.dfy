/** Expressions as the program stores them: a bounded array of nodes in which
    children precede parents, evaluated and printed by index
    (src/generic_boolean.h:6-27, src/generic_boolean.c:106-267). */
module BooleanNodes {
  import opened Lexer
  import opened BooleanText

  const MAX_NODES: nat := 64

  datatype Node = LeafNode(test: Predicate, grouped: bool) | JoinNode(op: Op2, left: nat, right: nat, grouped: bool)

  // Nodes in the order the parser allocates them, the first at index `base`.
  function Flatten(e: Expr, base: nat): (nodes: seq<Node>)
    ensures |nodes| == Size(e)
  {
    match e
    case Leaf(p, g) => [LeafNode(p, g)]
    case Join(op, l, r, g) =>
      Flatten(l, base) + Flatten(r, base + Size(l)) +
      [JoinNode(op, base + Size(l) - 1, base + Size(l) + Size(r) - 1, g)]
  }

  function RootOf(e: Expr, base: nat): nat {
    base + Size(e) - 1
  }

  // Node `i` is the root of the tree `e`.
  ghost predicate Represents(nodes: seq<Node>, i: nat, e: Expr)
    decreases e
  {
    i < |nodes| &&
    match e
    case Leaf(p, g) => nodes[i] == LeafNode(p, g)
    case Join(op, l, r, g) =>
      && nodes[i].JoinNode? && nodes[i].op == op && nodes[i].grouped == g
      && nodes[i].left < i && nodes[i].right < i
      && Represents(nodes, nodes[i].left, l) && Represents(nodes, nodes[i].right, r)
  }

  lemma {:induction false} FlattenRepresents(before: seq<Node>, e: Expr, after: seq<Node>)
    ensures Represents(before + Flatten(e, |before|) + after, RootOf(e, |before|), e)
    decreases e
  {
    match e
    case Leaf(p, g) =>
    case Join(op, l, r, g) =>
      var fl, fr := Flatten(l, |before|), Flatten(r, |before| + Size(l));
      var left, right := RootOf(l, |before|), RootOf(r, |before| + Size(l));
      var last := [JoinNode(op, left, right, g)];
      FlattenRepresents(before, l, fr + last + after);
      FlattenRepresents(before + fl, r, last + after);
      JoinRepresents(before, fl, fr, last, after, left, right, op, l, r, g);
      FlattenUnfolds(op, l, r, g, |before|);
      RepresentsSame(before + (fl + fr + last) + after, before + Flatten(e, |before|) + after,
                     |before| + |fl| + |fr|, RootOf(e, |before|), e);
  }

  lemma FlattenUnfolds(op: Op2, l: Expr, r: Expr, g: bool, base: nat)
    ensures
      var left, right := RootOf(l, base), RootOf(r, base + Size(l));
      Flatten(Join(op, l, r, g), base) == Flatten(l, base) + Flatten(r, base + Size(l)) + [JoinNode(op, left, right, g)]
    ensures RootOf(Join(op, l, r, g), base) == base + |Flatten(l, base)| + |Flatten(r, base + Size(l))|
  {
  }

  lemma RepresentsSame(a: seq<Node>, b: seq<Node>, i: nat, j: nat, e: Expr)
    requires a == b && i == j && Represents(a, i, e)
    ensures Represents(b, j, e)
  {
  }

  lemma JoinRepresents(before: seq<Node>, fl: seq<Node>, fr: seq<Node>, last: seq<Node>, after: seq<Node>,
                       left: nat, right: nat, op: Op2, l: Expr, r: Expr, g: bool)
    requires last == [JoinNode(op, left, right, g)] && left < |before| + |fl| + |fr| && right < |before| + |fl| + |fr|
    requires Represents(before + fl + (fr + last + after), left, l)
    requires Represents((before + fl) + fr + (last + after), right, r)
    ensures Represents(before + (fl + fr + last) + after, |before| + |fl| + |fr|, Join(op, l, r, g))
  {
    JoinPieces(before, fl, fr, last, after);
  }

  lemma JoinPieces(before: seq<Node>, fl: seq<Node>, fr: seq<Node>, last: seq<Node>, after: seq<Node>)
    requires |last| == 1
    ensures (before + (fl + fr + last) + after)[|before| + |fl| + |fr|] == last[0]
    ensures before + (fl + fr + last) + after == before + fl + (fr + last + after)
    ensures before + (fl + fr + last) + after == (before + fl) + fr + (last + after)
  {
  }

  // Evaluation by index; a node out of range is false.
  function MatchesNode(nodes: seq<Node>, i: nat, holds: Predicate -> bool): bool
    requires forall k :: 0 <= k < |nodes| && nodes[k].JoinNode? ==> nodes[k].left < k && nodes[k].right < k
  {
    if i >= |nodes| then false
    else match nodes[i]
      case LeafNode(p, _) => holds(p)
      case JoinNode(And, l, r, _) => MatchesNode(nodes, l, holds) && MatchesNode(nodes, r, holds)
      case JoinNode(Or, l, r, _) => MatchesNode(nodes, l, holds) || MatchesNode(nodes, r, holds)
  }

  lemma {:induction false} MatchesIsTruth(nodes: seq<Node>, i: nat, e: Expr, holds: Predicate -> bool)
    requires forall k :: 0 <= k < |nodes| && nodes[k].JoinNode? ==> nodes[k].left < k && nodes[k].right < k
    requires Represents(nodes, i, e)
    ensures MatchesNode(nodes, i, holds) == Truth(e, holds)
    decreases e
  {
    if e.Join? {
      MatchesIsTruth(nodes, nodes[i].left, e.left, holds);
      MatchesIsTruth(nodes, nodes[i].right, e.right, holds);
    }
  }

  // An output buffer of fixed size that stays zero-terminated.
  class Buffer {
    const data: array<char>
    var length: nat

    ghost predicate Valid()
      reads this, data
    {
      length < data.Length && data[length] == 0 as char
    }

    ghost function Text(): string
      reads this, data
      requires length <= data.Length
    {
      data[..length]
    }

    constructor (size: nat)
      requires size > 0
      ensures Valid() && fresh(data) && data.Length == size && Text() == ""
    {
      data := new char[size](_ => 0 as char);
      length := 0;
    }

    method AppendChar(c: char) returns (ok: bool)
      requires Valid()
      modifies this, data
      ensures Valid()
      ensures ok <==> old(length) + 1 < data.Length
      ensures Text() == old(Text()) + if ok then [c] else ""
    {
      if length + 1 >= data.Length {
        return false;
      }
      data[length] := c;
      length := length + 1;
      data[length] := 0 as char;
      return true;
    }

    method AppendText(text: string) returns (ok: bool)
      requires Valid()
      modifies this, data
      ensures Valid()
      ensures ok <==> old(length) + |text| < data.Length
      ensures ok ==> Text() == old(Text()) + text
    {
      ghost var before := Text();
      var i := 0;
      while i < |text|
        invariant 0 <= i <= |text| && Valid()
        invariant Text() == before + text[..i]
      {
        ok := AppendChar(text[i]);
        if !ok {
          return;
        }
        i := i + 1;
      }
      return true;
    }
  }

  method AppendQuoted(buffer: Buffer, text: string) returns (ok: bool)
    requires buffer.Valid()
    modifies buffer, buffer.data
    ensures buffer.Valid()
    ensures ok <==> old(buffer.length) + |Escape(text)| < buffer.data.Length
    ensures ok ==> buffer.Text() == old(buffer.Text()) + Escape(text)
  {
    ghost var before := buffer.Text();
    var i := 0;
    assert text[0..] == text;
    while i < |text|
      invariant 0 <= i <= |text| && buffer.Valid()
      invariant buffer.Text() + Escape(text[i..]) == before + Escape(text)
      invariant buffer.length + |Escape(text[i..])| == |before| + |Escape(text)|
    {
      EscapeFirst(buffer.Text(), text, i);
      if text[i] == '\'' {
        ok := buffer.AppendChar('\'');
        if !ok {
          return;
        }
      }
      ok := buffer.AppendChar(text[i]);
      if !ok {
        return;
      }
      i := i + 1;
    }
    assert Escape(text[i..]) == "" && buffer.Text() + "" == buffer.Text();
    return true;
  }

  lemma EscapeFirst(sofar: string, text: string, i: nat)
    requires i < |text|
    ensures
      var rest := Escape(text[i + 1..]);
      if text[i] == '\'' then
        sofar + Escape(text[i..]) == sofar + ['\''] + ['\''] + rest && |Escape(text[i..])| == 2 + |rest|
      else sofar + Escape(text[i..]) == sofar + [text[i]] + rest && |Escape(text[i..])| == 1 + |rest|
  {
    assert text[i..][1..] == text[i + 1..];
    var rest := Escape(text[i + 1..]);
    if text[i] == '\'' {
      Regroup(sofar, "''", rest);
      Regroup(sofar, "'", "'");
      assert "'" + "'" == "''";
    } else {
      Regroup(sofar, [text[i]], rest);
    }
  }

  method AppendValue(buffer: Buffer, v: Value) returns (ok: bool)
    requires buffer.Valid()
    modifies buffer, buffer.data
    ensures buffer.Valid()
    ensures ok <==> old(buffer.length) + |ValueText(v)| < buffer.data.Length
    ensures ok ==> buffer.Text() == old(buffer.Text()) + ValueText(v)
  {
    match v {
      case Number(n) =>
        ok := buffer.AppendText(Decimal(n));
      case Text(s) =>
        ghost var before := buffer.Text();
        Regroup(before, "'", Escape(s) + "'");
        Regroup(before + "'", Escape(s), "'");
        ok := buffer.AppendChar('\'');
        if ok { ok := AppendQuoted(buffer, s); }
        if ok { ok := buffer.AppendChar('\''); }
    }
  }

  method AppendPredicate(buffer: Buffer, schema: seq<Column>, p: Predicate) returns (ok: bool)
    requires buffer.Valid()
    modifies buffer, buffer.data
    ensures buffer.Valid()
    ensures ok <==> p.column < |schema| && old(buffer.length) + |PredicateText(schema, p)| < buffer.data.Length
    ensures ok ==> buffer.Text() == old(buffer.Text()) + PredicateText(schema, p)
  {
    if p.column >= |schema| {
      return false;
    }
    ghost var before, name, op, value := buffer.Text(), schema[p.column].name, OpText(p.op), ValueText(p.value);
    Regroup(before, name, " " + (op + (" " + value)));
    Regroup(before + name, " ", op + (" " + value));
    Regroup(before + name + " ", op, " " + value);
    Regroup(before + name + " " + op, " ", value);
    ok := buffer.AppendText(schema[p.column].name);
    if ok { ok := buffer.AppendChar(' '); }
    if ok { ok := buffer.AppendText(OpText(p.op)); }
    if ok { ok := buffer.AppendChar(' '); }
    if ok { ok := AppendValue(buffer, p.value); }
  }

  function Body(schema: seq<Column>, e: Expr): string
    requires WellFormedExpr(schema, e)
  {
    match e
    case Leaf(p, _) => PredicateText(schema, p)
    case Join(op, l, r, _) => Format(schema, l, Precedence(e)) + (OpText2(op) + Format(schema, r, Precedence(e)))
  }

  // The printer succeeds exactly when the text and its terminator fit.
  method FormatNode(nodes: seq<Node>, i: nat, schema: seq<Column>, parent: nat, buffer: Buffer, ghost e: Expr)
    returns (ok: bool)
    requires buffer.Valid() && Represents(nodes, i, e) && WellFormedExpr(schema, e)
    modifies buffer, buffer.data
    ensures buffer.Valid()
    ensures ok <==> old(buffer.length) + |Format(schema, e, parent)| < buffer.data.Length
    ensures ok ==> buffer.Text() == old(buffer.Text()) + Format(schema, e, parent)
    decreases i, 1
  {
    var precedence := if nodes[i].LeafNode? then 3 else if nodes[i].op == And then 2 else 1;
    var wrap := nodes[i].grouped || precedence < parent;
    ghost var before, body := buffer.Text(), Body(schema, e);
    Regroup(before, "(", body + ")");
    Regroup(before + "(", body, ")");
    ok := true;
    if wrap { ok := buffer.AppendChar('('); }
    if ok { ok := FormatBody(nodes, i, schema, buffer, e); }
    if ok && wrap { ok := buffer.AppendChar(')'); }
  }

  // The node without its own parentheses.
  method FormatBody(nodes: seq<Node>, i: nat, schema: seq<Column>, buffer: Buffer, ghost e: Expr) returns (ok: bool)
    requires buffer.Valid() && Represents(nodes, i, e) && WellFormedExpr(schema, e)
    modifies buffer, buffer.data
    ensures buffer.Valid()
    ensures ok <==> old(buffer.length) + |Body(schema, e)| < buffer.data.Length
    ensures ok ==> buffer.Text() == old(buffer.Text()) + Body(schema, e)
    decreases i, 0
  {
    match nodes[i] {
      case LeafNode(p, _) =>
        ok := AppendPredicate(buffer, schema, p);
      case JoinNode(op, left, right, _) =>
        var precedence := if op == And then 2 else 1;
        ghost var before := buffer.Text();
        ghost var l, r := Format(schema, e.left, precedence), Format(schema, e.right, precedence);
        Regroup(before, l, OpText2(op) + r);
        Regroup(before + l, OpText2(op), r);
        ok := FormatNode(nodes, left, schema, precedence, buffer, e.left);
        if ok { ok := buffer.AppendText(OpText2(op)); }
        if ok { ok := FormatNode(nodes, right, schema, precedence, buffer, e.right); }
    }
  }
}
