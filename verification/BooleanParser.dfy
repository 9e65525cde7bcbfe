/** The recursive-descent parser: a cursor that advances through the text and a
    node array that grows (src/generic_predicate.c:14-189,
    src/generic_boolean.c:5-104). */
module BooleanParser {
  import opened Lexer
  import opened BooleanText
  import opened BooleanNodes

  class Parser {
    var current: string

    constructor (sql: string)
      ensures current == sql
    {
      current := sql;
    }

    method Skip()
      modifies this
      ensures current == SkipSpaces(old(current))
    {
      while current != "" && IsSpace(current[0])
        invariant SkipSpaces(current) == SkipSpaces(old(current))
        decreases |current|
      {
        current := current[1..];
      }
    }

    // Restores the cursor when the word is not there.
    method Word(word: string) returns (ok: bool)
      modifies this
      ensures var r := ConsumeWord(old(current), word); ok == r.Ok? && current == if ok then r.rest else old(current)
    {
      var backup, expected := current, word;
      Skip();
      while expected != "" && current != "" && Lower(current[0]) == Lower(expected[0])
        invariant MatchWord(current, expected) == MatchWord(SkipSpaces(backup), word)
        decreases |current|
      {
        current, expected := current[1..], expected[1..];
      }
      if expected != "" || IsIdentifierChar(Head(current)) {
        current := backup;
        return false;
      }
      return true;
    }

    method Char(expected: char) returns (ok: bool)
      modifies this
      ensures var r := ConsumeChar(old(current), expected); ok == r.Ok? && (ok ==> current == r.rest)
    {
      Skip();
      if current == "" || current[0] != expected {
        return false;
      }
      current := current[1..];
      return true;
    }

    method Identifier() returns (ok: bool, name: string)
      modifies this
      ensures var r := ParseIdentifier(old(current)); ok == r.Ok? && (ok ==> name == r.value && current == r.rest)
    {
      name := "";
      Skip();
      if !IsAlpha(Head(current)) && Head(current) != '_' {
        return false, name;
      }
      var start, length := current, 0;
      while IsIdentifierChar(Head(current))
        invariant length <= |start| && current == start[length..]
        invariant IdentifierLength(start) == length + IdentifierLength(current)
        decreases |current|
      {
        current := current[1..];
        length := length + 1;
      }
      if length >= MAX_NAME_SIZE {
        return false, name;
      }
      return true, start[..length];
    }

    method Uint32() returns (ok: bool, value: nat)
      modifies this
      ensures var r := ParseUint32(old(current)); ok == r.Ok? && (ok ==> value == r.value && current == r.rest)
    {
      value := 0;
      Skip();
      if !IsDigit(Head(current)) {
        return false, 0;
      }
      ghost var start := current;
      while IsDigit(Head(current))
        invariant ReadDigits(current, value) == ReadDigits(start, 0)
        decreases |current|
      {
        value := 10 * value + DigitValue(current[0]);
        current := current[1..];
      }
      ok := value <= UINT32_MAX;
    }

    method QuotedString() returns (ok: bool, text: string)
      modifies this
      ensures var r := ParseString(old(current)); ok == r.Ok? && (ok ==> text == r.value && current == r.rest)
    {
      text := "";
      Skip();
      if Head(current) != '\'' {
        return false, text;
      }
      current := current[1..];
      ghost var start := current;
      while current != ""
        invariant |text| < TEXT_SIZE && ReadQuoted(current, text) == ReadQuoted(start, "")
        decreases |current|
      {
        ghost var before := current;
        var value := current[0];
        current := current[1..];
        if value == '\'' {
          if Head(current) == '\'' {
            current := current[1..];
            assert before[2..] == current;
          } else {
            return true, text;
          }
        }
        if |text| + 1 >= TEXT_SIZE {
          return false, text;
        }
        text := text + [value];
      }
      return false, text;
    }

    method CompareOp() returns (ok: bool, op: Op)
      modifies this
      ensures var r := ParseOp(old(current)); ok == r.Ok? && (ok ==> op == r.value && current == r.rest)
    {
      op := Like;
      ok := Word("like");
      if ok {
        return;
      }
      Skip();
      if current == "" {
        return false, op;
      }
      ghost var t := current;
      var c := current[0];
      if c == '=' {
        op, current, ok := Eq, current[1..], true;
      } else if c == '>' {
        op, current, ok := Gt, current[1..], true;
        if Head(current) == '=' {
          op, current := Gte, current[1..];
          assert t[2..] == current;
        }
      } else if c == '<' {
        op, current, ok := Lt, current[1..], true;
        if Head(current) == '=' {
          op, current := Lte, current[1..];
          assert t[2..] == current;
        }
      }
    }

    method OnePredicate(schema: seq<Column>) returns (ok: bool, p: Predicate)
      modifies this
      ensures var r := ParsePredicate(schema, old(current)); ok == r.Ok? && (ok ==> p == r.value && current == r.rest)
    {
      p := Predicate(0, Eq, Number(0));
      var name, op, n, text;
      ok, name := Identifier();
      if !ok {
        return;
      }
      var column := FindColumn(schema, name, 0);
      if column == |schema| {
        return false, p;
      }
      ok, op := CompareOp();
      if !ok {
        return;
      }
      if op == Like && schema[column].columnType != TextColumn {
        return false, p;
      }
      if schema[column].columnType == IntColumn {
        ok, n := Uint32();
        p := Predicate(column, op, Number(n));
      } else {
        ok, text := QuotedString();
        p := Predicate(column, op, Text(text));
      }
    }
  }

  predicate HasGroup(e: Expr) {
    e.grouped || (e.Join? && (HasGroup(e.left) || HasGroup(e.right)))
  }

  // A parsed operand never shrinks: later operands only add nodes.
  lemma {:induction false} FactorsGrow(schema: seq<Column>, acc: Acc, s: string)
    requires FactorThen(schema, acc, s).Ok? && ParsePrimary(schema, s).Ok?
    ensures Size(FactorThen(schema, acc, s).value) >= Size(Combine(And, acc, ParsePrimary(schema, s).value))
    decreases |s|
  {
    var x := ParsePrimary(schema, s);
    var w := ConsumeWord(x.rest, "and");
    if w.Ok? {
      FactorsGrow(schema, So(Combine(And, acc, x.value)), w.rest);
    }
  }

  lemma {:induction false} TermsGrow(schema: seq<Column>, acc: Acc, s: string)
    requires TermThen(schema, acc, s).Ok? && FactorThen(schema, Empty, s).Ok?
    ensures Size(TermThen(schema, acc, s).value) >= Size(Combine(Or, acc, FactorThen(schema, Empty, s).value))
    decreases |s|
  {
    var x := FactorThen(schema, Empty, s);
    var w := ConsumeWord(x.rest, "or");
    if w.Ok? {
      TermsGrow(schema, So(Combine(Or, acc, x.value)), w.rest);
    }
  }

  lemma AndUnfolds(schema: seq<Column>, e: Expr, s: string)
    requires ConsumeWord(s, "and").Ok?
    ensures var (r, y) := (AndLoop(schema, e, s), ParsePrimary(schema, ConsumeWord(s, "and").rest));
      && (y.Fail? ==> r.Fail?)
      && (y.Ok? ==> r == AndLoop(schema, Join(And, e, y.value, false), y.rest) && |y.rest| < |s|)
      && (y.Ok? && r.Ok? ==> Size(Join(And, e, y.value, false)) <= Size(r.value))
  {
    if AndLoop(schema, e, s).Ok? {
      FactorsGrow(schema, So(e), ConsumeWord(s, "and").rest);
    }
  }

  lemma OrUnfolds(schema: seq<Column>, e: Expr, s: string)
    requires ConsumeWord(s, "or").Ok?
    ensures var (r, y) := (OrLoop(schema, e, s), FactorThen(schema, Empty, ConsumeWord(s, "or").rest));
      && (y.Fail? ==> r.Fail?)
      && (y.Ok? ==> r == OrLoop(schema, Join(Or, e, y.value, false), y.rest) && |y.rest| < |s|)
      && (y.Ok? && r.Ok? ==> Size(Join(Or, e, y.value, false)) <= Size(r.value))
  {
    if OrLoop(schema, e, s).Ok? {
      TermsGrow(schema, So(e), ConsumeWord(s, "or").rest);
    }
  }

  class Expression {
    const nodes: array<Node>
    var count: nat
    var root: nat
    var sawGrouping: bool

    ghost predicate Valid()
      reads this
    {
      nodes.Length == MAX_NODES && count <= MAX_NODES
    }

    constructor ()
      ensures Valid() && count == 0 && root == 0 && !sawGrouping && fresh(nodes)
    {
      nodes := new Node[MAX_NODES](_ => LeafNode(Predicate(0, Eq, Number(0)), false));
      count, root, sawGrouping := 0, 0, false;
    }

    ghost function View(): (v: seq<Node>)
      requires Valid()
      reads this, nodes
      ensures |v| == count
    {
      nodes[..count]
    }

    // The expression grew by the tree `r` found, and there was room for it.
    ghost predicate Grew(r: Parsed<Expr>, at: nat, before: seq<Node>, saw: bool, rest: string)
      reads this, nodes
    {
      && Valid() && r.Ok? && rest == r.rest
      && View() == before + Flatten(r.value, |before|)
      && at == RootOf(r.value, |before|)
      && sawGrouping == (saw || HasGroup(r.value))
    }

    method Allocate(node: Node) returns (ok: bool, index: nat)
      requires Valid()
      modifies this`count, nodes
      ensures Valid() && ok == (old(count) < MAX_NODES)
      ensures ok ==> index == old(count) && View() == old(View()) + [node]
      ensures !ok ==> View() == old(View())
    {
      index := 0;
      if count >= MAX_NODES {
        return false, 0;
      }
      index := count;
      nodes[index] := node;
      count := count + 1;
      ok := true;
    }

    method Combine2(op: Op2, left: nat, right: nat, ghost l: Expr, ghost r: Expr, ghost before: seq<Node>)
      returns (ok: bool, at: nat)
      requires Valid() && View() == before + Flatten(l, |before|) + Flatten(r, |before| + Size(l))
      requires left == RootOf(l, |before|) && right == RootOf(r, |before| + Size(l))
      modifies this`count, nodes
      ensures Valid() && ok == (|before| + Size(Join(op, l, r, false)) <= MAX_NODES)
      ensures ok ==>
        View() == before + Flatten(Join(op, l, r, false), |before|) && at == RootOf(Join(op, l, r, false), |before|)
    {
      ok, at := Allocate(JoinNode(op, left, right, false));
      ghost var n, m, node := |before|, |before| + Size(l), JoinNode(op, left, right, false);
      JoinSize(before, op, l, r);
      JoinUnfolds(op, l, r, n, node);
      JoinAll(before, Flatten(l, n), Flatten(r, m), node, Flatten(Join(op, l, r, false), n));
    }

    // A predicate, or a parenthesised expression whose root gets marked.
    method PrimaryNode(parser: Parser, schema: seq<Column>) returns (ok: bool, at: nat)
      requires Valid()
      modifies this, nodes, parser
      ensures Valid()
      ensures var r := ParsePrimary(schema, old(parser.current));
        && (ok <==> r.Ok? && old(count) + Size(r.value) <= MAX_NODES)
        && (ok ==> Grew(r, at, old(View()), old(sawGrouping), parser.current))
      decreases |parser.current|, 1
    {
      parser.Skip();
      if Head(parser.current) == '(' && parser.current != "" {
        parser.current := parser.current[1..];
        ok, at := GroupNode(parser, schema);
      } else {
        ok, at := PredicateNode(parser, schema);
      }
    }

    // Behind an opening parenthesis.
    method GroupNode(parser: Parser, schema: seq<Column>) returns (ok: bool, at: nat)
      requires Valid()
      modifies this, nodes, parser
      ensures Valid()
      ensures var r := ParseOr(schema, old(parser.current));
        && (ok <==> r.Ok? && ConsumeChar(r.rest, ')').Ok? && old(count) + Size(r.value) <= MAX_NODES)
        && (ok ==> Grew(Ok(r.value.(grouped := true), ConsumeChar(r.rest, ')').rest), at, old(View()),
            old(sawGrouping), parser.current))
      decreases |parser.current|, 6
    {
      ghost var before, inner := View(), ParseOr(schema, parser.current);
      sawGrouping := true;
      ok, at := OrNodes(parser, schema);
      if ok {
        ok := parser.Char(')');
      }
      if ok {
        assert at < count;
        nodes[at] := nodes[at].(grouped := true);
        MarkGrouped(before, inner.value);
      }
    }

    // A node is taken before the predicate is read, and given back if there is none.
    method PredicateNode(parser: Parser, schema: seq<Column>) returns (ok: bool, at: nat)
      requires Valid()
      modifies this`count, nodes, parser
      ensures Valid()
      ensures var r := ParsePredicate(schema, old(parser.current));
        && (ok <==> r.Ok? && old(count) < MAX_NODES)
        && (!ok ==> View() == old(View()))
        && (ok ==> Grew(Ok(Leaf(r.value, false), r.rest), at, old(View()), old(sawGrouping), parser.current))
    {
      var p;
      ok, at := Allocate(LeafNode(Predicate(0, Eq, Number(0)), false));
      if !ok {
        return;
      }
      ok, p := parser.OnePredicate(schema);
      if !ok {
        count := count - 1;
        return;
      }
      nodes[at] := LeafNode(p, false);
    }

    // One more operand behind `and`.
    method AndStep(parser: Parser, schema: seq<Column>, left: nat, ghost e: Expr, ghost s: string,
                   ghost before: seq<Node>, ghost saw: bool)
      returns (ok: bool, at: nat)
      requires Grew(Ok(e, s), left, before, saw, s)
      modifies this, nodes, parser
      ensures Valid()
      ensures var y := ParsePrimary(schema, old(parser.current));
        && (ok <==> y.Ok? && |before| + Size(Join(And, e, y.value, false)) <= MAX_NODES)
        && (ok ==> Grew(Ok(Join(And, e, y.value, false), y.rest), at, before, saw, parser.current))
      decreases |parser.current|, 2
    {
      ghost var y := ParsePrimary(schema, parser.current);
      var right;
      ok, right := PrimaryNode(parser, schema);
      at := 0;
      if ok {
        Regrown(before, e, y.value);
        ok, at := Combine2(And, left, right, e, y.value, before);
      }
    }

    method AndNodes(parser: Parser, schema: seq<Column>) returns (ok: bool, at: nat)
      requires Valid()
      modifies this, nodes, parser
      ensures Valid()
      ensures var r := FactorThen(schema, Empty, old(parser.current));
        && (ok <==> r.Ok? && old(count) + Size(r.value) <= MAX_NODES)
        && (ok ==> Grew(r, at, old(View()), old(sawGrouping), parser.current))
      decreases |parser.current|, 3
    {
      ghost var before, saw, start := View(), sawGrouping, parser.current;
      ghost var s, r := start, FactorThen(schema, Empty, start);
      ghost var x := ParsePrimary(schema, start);
      if r.Ok? { FactorsGrow(schema, Empty, start); }
      ok, at := PrimaryNode(parser, schema);
      if !ok {
        return;
      }
      ghost var e := x.value;
      s := parser.current;
      var more := parser.Word("and");
      while more
        invariant Grew(Ok(e, s), at, before, saw, s)
        invariant r == AndLoop(schema, e, s) && |s| < |start|
        invariant var w := ConsumeWord(s, "and"); more == w.Ok? && parser.current == if more then w.rest else s
        decreases |parser.current|
      {
        ghost var y := ParsePrimary(schema, parser.current);
        AndUnfolds(schema, e, s);
        ok, at := AndStep(parser, schema, at, e, s, before, saw);
        if !ok {
          return;
        }
        e, s := Join(And, e, y.value, false), y.rest;
        more := parser.Word("and");
      }
      ok := true;
    }

    // One more operand behind `or`.
    method OrStep(parser: Parser, schema: seq<Column>, left: nat, ghost e: Expr, ghost s: string,
                   ghost before: seq<Node>, ghost saw: bool)
      returns (ok: bool, at: nat)
      requires Grew(Ok(e, s), left, before, saw, s)
      modifies this, nodes, parser
      ensures Valid()
      ensures var y := FactorThen(schema, Empty, old(parser.current));
        && (ok <==> y.Ok? && |before| + Size(Join(Or, e, y.value, false)) <= MAX_NODES)
        && (ok ==> Grew(Ok(Join(Or, e, y.value, false), y.rest), at, before, saw, parser.current))
      decreases |parser.current|, 4
    {
      ghost var y := FactorThen(schema, Empty, parser.current);
      var right;
      ok, right := AndNodes(parser, schema);
      at := 0;
      if ok {
        Regrown(before, e, y.value);
        ok, at := Combine2(Or, left, right, e, y.value, before);
      }
    }

    method OrNodes(parser: Parser, schema: seq<Column>) returns (ok: bool, at: nat)
      requires Valid()
      modifies this, nodes, parser
      ensures Valid()
      ensures var r := TermThen(schema, Empty, old(parser.current));
        && (ok <==> r.Ok? && old(count) + Size(r.value) <= MAX_NODES)
        && (ok ==> Grew(r, at, old(View()), old(sawGrouping), parser.current))
      decreases |parser.current|, 5
    {
      ghost var before, saw, start := View(), sawGrouping, parser.current;
      ghost var s, r := start, TermThen(schema, Empty, start);
      ghost var x := FactorThen(schema, Empty, start);
      if r.Ok? { TermsGrow(schema, Empty, start); }
      ok, at := AndNodes(parser, schema);
      if !ok {
        return;
      }
      ghost var e := x.value;
      s := parser.current;
      var more := parser.Word("or");
      while more
        invariant Grew(Ok(e, s), at, before, saw, s)
        invariant r == OrLoop(schema, e, s) && |s| < |start|
        invariant var w := ConsumeWord(s, "or"); more == w.Ok? && parser.current == if more then w.rest else s
        decreases |parser.current|
      {
        ghost var y := FactorThen(schema, Empty, parser.current);
        OrUnfolds(schema, e, s);
        ok, at := OrStep(parser, schema, at, e, s, before, saw);
        if !ok {
          return;
        }
        e, s := Join(Or, e, y.value, false), y.rest;
        more := parser.Word("or");
      }
      ok := true;
    }

    // Reads an expression from the start.
    method Parse(parser: Parser, schema: seq<Column>) returns (ok: bool)
      requires Valid()
      modifies this, nodes, parser
      ensures Valid()
      ensures var r := ParseOr(schema, old(parser.current));
        && (ok <==> r.Ok? && Size(r.value) <= MAX_NODES)
        && (ok ==> View() == Flatten(r.value, 0) && root == count - 1
                   && sawGrouping == HasGroup(r.value) && parser.current == r.rest)
    {
      count, root, sawGrouping := 0, 0, false;
      var at;
      ok, at := OrNodes(parser, schema);
      if ok {
        root := at;
        ok := count > 0;
      }
    }

    // Prints the whole expression.
    method Format(schema: seq<Column>, size: nat, ghost e: Expr) returns (ok: bool, text: string)
      requires Valid() && count > 0 && size > 0 && WellFormedExpr(schema, e)
      requires View() == Flatten(e, 0) && root == count - 1
      ensures ok <==> |BooleanText.Format(schema, e, 0)| < size
      ensures ok ==> text == BooleanText.Format(schema, e, 0)
    {
      FlattenRepresents([], e, []);
      assert [] + Flatten(e, 0) + [] == View();
      var buffer := new Buffer(size);
      ok := FormatNode(nodes[..count], root, schema, 0, buffer, e);
      text := buffer.data[..buffer.length];
    }
  }

  // Whatever text parses, printing the nodes and parsing what was printed gives
  // the same nodes, as long as the buffer holds the text.
  method FormatAndReread(sql: string, schema: seq<Column>, size: nat)
    returns (parsed: bool, printed: bool, reread: bool, first: seq<Node>, second: seq<Node>)
    requires size > 0
    ensures parsed <==> ParseOr(schema, sql).Ok? && Size(ParseOr(schema, sql).value) <= MAX_NODES
    ensures parsed ==> WellFormedExpr(schema, ParseOr(schema, sql).value)
    ensures parsed ==> (printed <==> |BooleanText.Format(schema, ParseOr(schema, sql).value, 0)| < size)
    ensures parsed && printed ==> reread && second == first == Flatten(ParseOr(schema, sql).value, 0)
  {
    printed, reread, first, second := false, false, [], [];
    var parser := new Parser(sql);
    var expression := new Expression();
    parsed := expression.Parse(parser, schema);
    if !parsed {
      return;
    }
    ParsedRereads(schema, sql);
    first := expression.nodes[..expression.count];
    var text;
    printed, text := expression.Format(schema, size, ParseOr(schema, sql).value);
    if !printed {
      return;
    }
    var again := new Parser(text);
    var copy := new Expression();
    reread := copy.Parse(again, schema);
    second := copy.nodes[..copy.count];
  }

  // A joining node behind its operands completes the list of the joined tree.
  lemma JoinUnfolds(op: Op2, l: Expr, r: Expr, base: nat, node: Node)
    requires node == JoinNode(op, RootOf(l, base), RootOf(r, base + Size(l)), false)
    ensures Flatten(Join(op, l, r, false), base) == Flatten(l, base) + Flatten(r, base + Size(l)) + [node]
  {
  }

  lemma JoinSize(before: seq<Node>, op: Op2, l: Expr, r: Expr)
    ensures |before + Flatten(l, |before|) + Flatten(r, |before| + Size(l))|
      == RootOf(Join(op, l, r, false), |before|) == |before| + Size(Join(op, l, r, false)) - 1
  {
  }

  lemma JoinAll(before: seq<Node>, l: seq<Node>, r: seq<Node>, node: Node, all: seq<Node>)
    requires all == l + r + [node]
    ensures before + l + r + [node] == before + all
  {
  }

  lemma Regrown(before: seq<Node>, l: Expr, r: Expr)
    ensures |before + Flatten(l, |before|)| == |before| + Size(l)
    ensures RootOf(r, |before + Flatten(l, |before|)|) == RootOf(r, |before| + Size(l))
  {
  }

  // Marking the root of a flattened tree.
  lemma MarkGrouped(before: seq<Node>, e: Expr)
    ensures
      var f, at := before + Flatten(e, |before|), RootOf(e, |before|);
      && at < |f| && Size(e.(grouped := true)) == Size(e)
      && f[at := f[at].(grouped := true)] == before + Flatten(e.(grouped := true), |before|)
  {
  }
}
