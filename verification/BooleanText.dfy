/** Boolean WHERE expressions as text and as trees: a precedence parser, the
    printer, and why they undo each other (src/generic_boolean.c:15-247). */
module BooleanText {
  import opened Lexer

  datatype Op2 = And | Or
  datatype Expr = Leaf(test: Predicate, grouped: bool) | Join(op: Op2, left: Expr, right: Expr, grouped: bool)

  // The operand collected so far, if any.
  datatype Acc = Empty | So(e: Expr)

  function Size(e: Expr): (n: nat)
    ensures n > 0
  {
    match e
    case Leaf(_, _) => 1
    case Join(_, l, r, _) => Size(l) + Size(r) + 1
  }

  predicate Open(e: Expr, op: Op2) {
    e.Join? && e.op == op && !e.grouped
  }

  function Combine(op: Op2, acc: Acc, e: Expr): Expr {
    if acc.Empty? then e else Join(op, acc.e, e, false)
  }

  // One operand: a parenthesised expression or a predicate.
  function ParsePrimary(schema: seq<Column>, s: string): (r: Parsed<Expr>)
    ensures r.Ok? ==> |r.rest| < |s|
    decreases |s|, 1
  {
    var t := SkipSpaces(s);
    if Head(t) == '(' && t != "" then
      var inner := ParseOr(schema, t[1..]);
      if inner.Fail? then Fail
      else
        var close := ConsumeChar(inner.rest, ')');
        if close.Fail? then Fail else Ok(inner.value.(grouped := true), close.rest)
    else
      var p := ParsePredicate(schema, t);
      if p.Fail? then Fail else Ok(Leaf(p.value, false), p.rest)
  }

  // Another operand of a conjunction, and what follows it.
  function FactorThen(schema: seq<Column>, acc: Acc, s: string): (r: Parsed<Expr>)
    ensures r.Ok? ==> |r.rest| < |s|
    decreases |s|, 2
  {
    var x := ParsePrimary(schema, s);
    if x.Fail? then Fail else AndLoop(schema, Combine(And, acc, x.value), x.rest)
  }

  function AndLoop(schema: seq<Column>, left: Expr, s: string): (r: Parsed<Expr>)
    ensures r.Ok? ==> |r.rest| <= |s|
    decreases |s|, 0
  {
    var w := ConsumeWord(s, "and");
    if w.Fail? then Ok(left, s) else FactorThen(schema, So(left), w.rest)
  }

  function TermThen(schema: seq<Column>, acc: Acc, s: string): (r: Parsed<Expr>)
    ensures r.Ok? ==> |r.rest| < |s|
    decreases |s|, 3
  {
    var x := FactorThen(schema, Empty, s);
    if x.Fail? then Fail else OrLoop(schema, Combine(Or, acc, x.value), x.rest)
  }

  function OrLoop(schema: seq<Column>, left: Expr, s: string): (r: Parsed<Expr>)
    ensures r.Ok? ==> |r.rest| <= |s|
    decreases |s|, 0
  {
    var w := ConsumeWord(s, "or");
    if w.Fail? then Ok(left, s) else TermThen(schema, So(left), w.rest)
  }

  function ParseOr(schema: seq<Column>, s: string): (r: Parsed<Expr>)
    ensures r.Ok? ==> |r.rest| < |s|
    decreases |s|, 4
  {
    TermThen(schema, Empty, s)
  }

  function Precedence(e: Expr): nat {
    match e
    case Leaf(_, _) => 3
    case Join(And, _, _, _) => 2
    case Join(Or, _, _, _) => 1
  }

  function OpText2(op: Op2): string {
    if op == And then " AND " else " OR "
  }

  predicate WellFormedExpr(schema: seq<Column>, e: Expr) {
    match e
    case Leaf(p, _) => WellFormed(schema, p)
    case Join(_, l, r, _) => WellFormedExpr(schema, l) && WellFormedExpr(schema, r)
  }

  // The printed form: parentheses where the node asks for them or precedence does.
  function Format(schema: seq<Column>, e: Expr, parent: nat): string
    requires WellFormedExpr(schema, e)
  {
    var body := match e
      case Leaf(p, _) => PredicateText(schema, p)
      case Join(op, l, r, _) => Format(schema, l, Precedence(e)) + (OpText2(op) + Format(schema, r, Precedence(e)));
    if e.grouped || Precedence(e) < parent then "(" + (body + ")") else body
  }

  // What the parser makes of a printed expression: chains of one operator lean
  // left, and every printed parenthesis marks its node.
  function Primary(e: Expr): Expr
    decreases Size(e), if e.grouped then 1 else 0, 1
  {
    if e.grouped then AbsorbOr(Empty, e.(grouped := false)).(grouped := true)
    else if Open(e, Or) then AbsorbOr(Empty, e).(grouped := true)
    else e
  }

  function AbsorbAnd(acc: Acc, e: Expr): Expr
    decreases Size(e), if e.grouped then 1 else 0, 2
  {
    if Open(e, And) then AbsorbAnd(So(AbsorbAnd(acc, e.left)), e.right) else Combine(And, acc, Primary(e))
  }

  function AbsorbOr(acc: Acc, e: Expr): Expr
    decreases Size(e), if e.grouped then 1 else 0, if Open(e, Or) then 0 else 3
  {
    if Open(e, Or) then AbsorbOr(So(AbsorbOr(acc, e.left)), e.right) else Combine(Or, acc, AbsorbAnd(Empty, e))
  }

  function Reread(e: Expr): Expr {
    AbsorbOr(Empty, e)
  }

  lemma Spaced(schema: seq<Column>, acc: Acc, s: string)
    ensures FactorThen(schema, acc, " " + s) == FactorThen(schema, acc, s)
    ensures TermThen(schema, acc, " " + s) == TermThen(schema, acc, s)
  {
    SpaceSkipped(s);
    assert ParsePrimary(schema, " " + s) == ParsePrimary(schema, s);
    assert FactorThen(schema, Empty, " " + s) == FactorThen(schema, Empty, s);
  }

  lemma OperatorRead(op: Op2, s: string)
    ensures op == And ==> ConsumeWord(OpText2(op) + s, "and") == Ok((), " " + s)
    ensures op == Or ==>
      ConsumeWord(OpText2(op) + s, "or") == Ok((), " " + s) && ConsumeWord(OpText2(op) + s, "and").Fail?
  {
    if op == And {
      assert " AND " + s == " " + ("AND" + (" " + s));
      SpaceSkipped("AND" + (" " + s));
      WordMatches("AND", "and", " " + s);
    } else {
      assert " OR " + s == " " + ("OR" + (" " + s));
      SpaceSkipped("OR" + (" " + s));
      WordMatches("OR", "or", " " + s);
    }
  }

  lemma Closing(s: string)
    ensures ConsumeWord(")" + s, "and").Fail? && ConsumeWord(")" + s, "or").Fail?
    ensures ConsumeChar(")" + s, ')') == Ok((), s)
  {
    assert (")" + s)[1..] == s;
  }

  // Chains of And and Or: reading the printed form continues as if the reread
  // tree had been collected.
  lemma {:induction false} PrimaryReads(schema: seq<Column>, e: Expr, rest: string)
    requires WellFormedExpr(schema, e) && Stops(rest) && !Open(e, And)
    ensures ParsePrimary(schema, Format(schema, e, 2) + rest) == Ok(Primary(e), rest)
    decreases Size(e), if e.grouped then 1 else 0, 1
  {
    if e.Leaf? && !e.grouped {
      PredicateParses(schema, e.test, rest);
      PredicateStarts(schema, e.test, rest);
    } else {
      var inner := if e.grouped then e.(grouped := false) else e;
      FormatBody(schema, e, 2);
      Closing(rest);
      TermReads(schema, Empty, inner, ")" + rest);
      FormatAtTop(schema, inner);
      GroupReads(schema, Format(schema, inner, 0), AbsorbOr(Empty, inner), rest);
    }
  }

  // An expression between parentheses.
  lemma GroupReads(schema: seq<Column>, body: string, inner: Expr, rest: string)
    requires ParseOr(schema, body + (")" + rest)) == Ok(inner, ")" + rest)
    ensures ParsePrimary(schema, "(" + (body + ")") + rest) == Ok(inner.(grouped := true), rest)
  {
    Parenthesised(schema, body, rest);
    Closing(rest);
  }

  lemma {:induction false} FactorReads(schema: seq<Column>, acc: Acc, e: Expr, rest: string)
    requires WellFormedExpr(schema, e) && Stops(rest)
    ensures FactorThen(schema, acc, Format(schema, e, 2) + rest) == AndLoop(schema, AbsorbAnd(acc, e), rest)
    decreases Size(e), if e.grouped then 1 else 0, 2
  {
    if Open(e, And) {
      var l, r := Format(schema, e.left, 2), Format(schema, e.right, 2);
      FactorReads(schema, acc, e.left, " AND " + (r + rest));
      OperatorRead(And, r + rest);
      Spaced(schema, So(AbsorbAnd(acc, e.left)), r + rest);
      FactorReads(schema, So(AbsorbAnd(acc, e.left)), e.right, rest);
      Regroup(l, " AND " + r, rest);
      Regroup(" AND ", r, rest);
    } else {
      PrimaryReads(schema, e, rest);
    }
  }

  lemma {:induction false} TermReads(schema: seq<Column>, acc: Acc, e: Expr, rest: string)
    requires WellFormedExpr(schema, e) && Stops(rest) && ConsumeWord(rest, "and").Fail?
    ensures TermThen(schema, acc, Format(schema, e, 1) + rest) == OrLoop(schema, AbsorbOr(acc, e), rest)
    decreases Size(e), if e.grouped then 1 else 0, if Open(e, Or) then 0 else 3
  {
    if Open(e, Or) {
      var l, r := Format(schema, e.left, 1), Format(schema, e.right, 1);
      OperatorRead(Or, r + rest);
      TermReads(schema, acc, e.left, " OR " + (r + rest));
      Spaced(schema, So(AbsorbOr(acc, e.left)), r + rest);
      TermReads(schema, So(AbsorbOr(acc, e.left)), e.right, rest);
      Regroup(l, " OR " + r, rest);
      Regroup(" OR ", r, rest);
    } else {
      FactorReads(schema, Empty, e, rest);
    }
  }

  lemma PredicateStarts(schema: seq<Column>, p: Predicate, rest: string)
    requires WellFormed(schema, p)
    ensures var s := PredicateText(schema, p) + rest; s != "" && !IsSpace(s[0]) && s[0] != '(' && SkipSpaces(s) == s
  {
    var s := PredicateText(schema, p) + rest;
    assert s[0] == schema[p.column].name[0];
  }

  // The outermost operator needs no parentheses.
  lemma FormatAtTop(schema: seq<Column>, e: Expr)
    requires WellFormedExpr(schema, e)
    ensures Format(schema, e, 0) == Format(schema, e, 1)
  {
  }

  lemma FormatBody(schema: seq<Column>, e: Expr, parent: nat)
    requires WellFormedExpr(schema, e) && (e.grouped || Precedence(e) < parent)
    ensures WellFormedExpr(schema, e.(grouped := false))
    ensures Format(schema, e, parent) == "(" + (Format(schema, e.(grouped := false), 0) + ")")
  {
  }

  lemma Parenthesised(schema: seq<Column>, body: string, rest: string)
    ensures ("(" + (body + ")")) + rest == "(" + (body + (")" + rest))
    ensures SkipSpaces("(" + (body + (")" + rest))) == "(" + (body + (")" + rest))
    ensures ("(" + (body + (")" + rest)))[1..] == body + (")" + rest)
  {
    Regroup("(", body + ")", rest);
    Regroup(body, ")", rest);
    Prefixed("(", body + (")" + rest));
  }

  // The shapes the grammar produces: Or over And over operands, leaning left.
  predicate IsOr(e: Expr)
    decreases Size(e), if e.grouped then 1 else 0, if Open(e, Or) then 0 else 3
  {
    if Open(e, Or) then IsOr(e.left) && IsAnd(e.right) else IsAnd(e)
  }

  predicate IsAnd(e: Expr)
    decreases Size(e), if e.grouped then 1 else 0, 2
  {
    if Open(e, And) then IsAnd(e.left) && IsPrimary(e.right) else IsPrimary(e)
  }

  predicate IsPrimary(e: Expr)
    decreases Size(e), if e.grouped then 1 else 0, 1
  {
    if e.grouped then IsOr(e.(grouped := false)) else e.Leaf?
  }

  lemma {:induction false} PrimaryKeeps(e: Expr)
    requires IsPrimary(e)
    ensures Primary(e) == e
    decreases Size(e), if e.grouped then 1 else 0, 1
  {
    if e.grouped {
      OrKeeps(e.(grouped := false));
    }
  }

  lemma {:induction false} AndKeeps(acc: Acc, e: Expr)
    requires IsAnd(e)
    ensures acc.Empty? ==> AbsorbAnd(acc, e) == e
    ensures acc.So? && IsPrimary(e) ==> AbsorbAnd(acc, e) == Join(And, acc.e, e, false)
    decreases Size(e), if e.grouped then 1 else 0, 2
  {
    if Open(e, And) {
      AndKeeps(acc, e.left);
      PrimaryKeeps(e.right);
    } else {
      PrimaryKeeps(e);
    }
  }

  lemma {:induction false} OrKeeps(e: Expr)
    requires IsOr(e)
    ensures AbsorbOr(Empty, e) == e
    decreases Size(e), if e.grouped then 1 else 0, if Open(e, Or) then 0 else 3
  {
    if Open(e, Or) {
      OrKeeps(e.left);
      AndKeeps(Empty, e.right);
    } else {
      AndKeeps(Empty, e);
    }
  }

  // The parser produces exactly such trees over well-formed predicates.
  lemma {:induction false} PrimaryIsCanonical(schema: seq<Column>, s: string)
    requires ParsePrimary(schema, s).Ok?
    ensures IsPrimary(ParsePrimary(schema, s).value) && WellFormedExpr(schema, ParsePrimary(schema, s).value)
    decreases |s|, 1
  {
    var t := SkipSpaces(s);
    if Head(t) == '(' && t != "" {
      TermIsCanonical(schema, Empty, t[1..]);
      var e := ParseOr(schema, t[1..]).value;
      if e.grouped {
        assert IsAnd(e) && IsPrimary(e);
      } else {
        assert e.(grouped := true).(grouped := false) == e;
      }
    } else {
      ParsedIsWellFormed(schema, t);
    }
  }

  lemma {:induction false} FactorIsCanonical(schema: seq<Column>, acc: Acc, s: string)
    requires FactorThen(schema, acc, s).Ok? && (acc.So? ==> IsAnd(acc.e) && WellFormedExpr(schema, acc.e))
    ensures IsAnd(FactorThen(schema, acc, s).value) && WellFormedExpr(schema, FactorThen(schema, acc, s).value)
    decreases |s|, 2
  {
    var x := ParsePrimary(schema, s);
    PrimaryIsCanonical(schema, s);
    var left := Combine(And, acc, x.value);
    assert IsAnd(x.value) by {
      assert !Open(x.value, And);
    }
    var w := ConsumeWord(x.rest, "and");
    if w.Ok? {
      FactorIsCanonical(schema, So(left), w.rest);
    }
  }

  lemma {:induction false} TermIsCanonical(schema: seq<Column>, acc: Acc, s: string)
    requires TermThen(schema, acc, s).Ok? && (acc.So? ==> IsOr(acc.e) && WellFormedExpr(schema, acc.e))
    ensures IsOr(TermThen(schema, acc, s).value) && WellFormedExpr(schema, TermThen(schema, acc, s).value)
    decreases |s|, 3
  {
    var x := FactorThen(schema, Empty, s);
    FactorIsCanonical(schema, Empty, s);
    var left := Combine(Or, acc, x.value);
    assert IsOr(x.value) by {
      assert !Open(x.value, Or);
    }
    var w := ConsumeWord(x.rest, "or");
    if w.Ok? {
      TermIsCanonical(schema, So(left), w.rest);
    }
  }

  // What an expression means, given what its predicates mean.
  function Truth(e: Expr, holds: Predicate -> bool): bool {
    match e
    case Leaf(p, _) => holds(p)
    case Join(And, l, r, _) => Truth(l, holds) && Truth(r, holds)
    case Join(Or, l, r, _) => Truth(l, holds) || Truth(r, holds)
  }

  lemma {:induction false} PrimaryMeans(e: Expr, holds: Predicate -> bool)
    ensures Truth(Primary(e), holds) == Truth(e, holds) && Size(Primary(e)) == Size(e)
    decreases Size(e), if e.grouped then 1 else 0, 1
  {
    if e.grouped {
      OrMeans(Empty, e.(grouped := false), holds);
    } else if Open(e, Or) {
      OrMeans(Empty, e, holds);
    }
  }

  lemma {:induction false} AndMeans(acc: Acc, e: Expr, holds: Predicate -> bool)
    ensures Truth(AbsorbAnd(acc, e), holds) == ((acc.So? ==> Truth(acc.e, holds)) && Truth(e, holds))
    ensures Size(AbsorbAnd(acc, e)) == Size(e) + if acc.So? then Size(acc.e) + 1 else 0
    decreases Size(e), if e.grouped then 1 else 0, 2
  {
    if Open(e, And) {
      AndMeans(acc, e.left, holds);
      AndMeans(So(AbsorbAnd(acc, e.left)), e.right, holds);
    } else {
      PrimaryMeans(e, holds);
    }
  }

  lemma {:induction false} OrMeans(acc: Acc, e: Expr, holds: Predicate -> bool)
    ensures Truth(AbsorbOr(acc, e), holds) == ((acc.So? && Truth(acc.e, holds)) || Truth(e, holds))
    ensures Size(AbsorbOr(acc, e)) == Size(e) + if acc.So? then Size(acc.e) + 1 else 0
    decreases Size(e), if e.grouped then 1 else 0, if Open(e, Or) then 0 else 3
  {
    if Open(e, Or) {
      OrMeans(acc, e.left, holds);
      OrMeans(So(AbsorbOr(acc, e.left)), e.right, holds);
    } else {
      AndMeans(Empty, e, holds);
    }
  }

  // Printing and reading again: always a tree of the same size and meaning, and
  // the same tree if the parser made it.
  lemma FormatRereads(schema: seq<Column>, e: Expr)
    requires WellFormedExpr(schema, e)
    ensures ParseOr(schema, Format(schema, e, 0)) == Ok(Reread(e), "")
    ensures Size(Reread(e)) == Size(e)
    ensures forall holds :: Truth(Reread(e), holds) == Truth(e, holds)
    ensures IsOr(e) ==> Reread(e) == e
  {
    FormatAtTop(schema, e);
    TermReads(schema, Empty, e, "");
    assert Format(schema, e, 1) + "" == Format(schema, e, 1);
    OrMeans(Empty, e, _ => true);
    forall holds ensures Truth(Reread(e), holds) == Truth(e, holds) {
      OrMeans(Empty, e, holds);
    }
    if IsOr(e) {
      OrKeeps(e);
    }
  }

  // Whatever text was parsed, printing it and parsing that gives the same tree.
  lemma ParsedRereads(schema: seq<Column>, s: string)
    requires ParseOr(schema, s).Ok?
    ensures WellFormedExpr(schema, ParseOr(schema, s).value)
    ensures ParseOr(schema, Format(schema, ParseOr(schema, s).value, 0)) == Ok(ParseOr(schema, s).value, "")
  {
    TermIsCanonical(schema, Empty, s);
    FormatRereads(schema, ParseOr(schema, s).value);
  }

  // And binds tighter than Or, on either side.
  lemma AndBindsTighter(schema: seq<Column>, p: Predicate, q: Predicate, r: Predicate, s: string)
    requires WellFormed(schema, p) && WellFormed(schema, q) && WellFormed(schema, r)
    requires s == PredicateText(schema, p) +
      (" OR " + (PredicateText(schema, q) + (" AND " + PredicateText(schema, r))))
      || s == PredicateText(schema, q) + (" AND " + PredicateText(schema, r)) + (" OR " + PredicateText(schema, p))
    ensures ParseOr(schema, s).Ok? && ParseOr(schema, s).rest == ""
    ensures forall holds :: Truth(ParseOr(schema, s).value, holds) == (holds(p) || (holds(q) && holds(r)))
  {
    var x, y := Leaf(p, false), Join(And, Leaf(q, false), Leaf(r, false), false);
    assert Format(schema, x, 1) == PredicateText(schema, p);
    assert Format(schema, y, 1) == PredicateText(schema, q) + (" AND " + PredicateText(schema, r)) by {
      assert Format(schema, y.left, 2) == PredicateText(schema, q);
      assert Format(schema, y.right, 2) == PredicateText(schema, r);
    }
    var e := if s == Format(schema, Join(Or, x, y, false), 0) then Join(Or, x, y, false) else Join(Or, y, x, false);
    assert Format(schema, e, 0) == s;
    FormatRereads(schema, e);
    forall holds ensures Truth(e, holds) == (holds(p) || (holds(q) && holds(r))) {
      assert Truth(x, holds) == holds(p) && Truth(y.left, holds) == holds(q) && Truth(y.right, holds) == holds(r);
      assert Truth(y, holds) == (holds(q) && holds(r));
    }
  }

  // The printed form, piece by piece: one blank around every operator, and parentheses
  // where the node asks for them, or around OR inside AND.
  lemma FormatIs(schema: seq<Column>, e: Expr, parent: nat)
    requires WellFormedExpr(schema, e)
    ensures
      var body := match e
        case Leaf(p, _) => schema[p.column].name + " " + OpText(p.op) + " " + ValueText(p.value)
        case Join(And, l, r, _) => Format(schema, l, 2) + " AND " + Format(schema, r, 2)
        case Join(Or, l, r, _) => Format(schema, l, 1) + " OR " + Format(schema, r, 1);
      var wrapped := e.grouped || (e.Join? && parent > (if e.op == And then 2 else 1)) || parent > 3;
      Format(schema, e, parent) == if wrapped then "(" + body + ")" else body
  {
    match e
    case Leaf(p, _) =>
      PredicateTextIs(schema, p);
    case Join(op, l, r, _) =>
      Regroup(Format(schema, l, Precedence(e)), OpText2(op), Format(schema, r, Precedence(e)));
  }

  lemma PredicateTextIs(schema: seq<Column>, p: Predicate)
    requires p.column < |schema|
    ensures PredicateText(schema, p) == schema[p.column].name + " " + OpText(p.op) + " " + ValueText(p.value)
  {
    var name, op, value := schema[p.column].name, OpText(p.op), ValueText(p.value);
    Regroup(name + " " + op, " ", value);
    Regroup(name + " ", op, " " + value);
    Regroup(name, " ", op + (" " + value));
  }

  lemma OpTextIs()
    ensures OpText(Eq) == "=" && OpText(Gt) == ">" && OpText(Gte) == ">=" && OpText(Lt) == "<" && OpText(Lte) == "<="
    ensures OpText(Like) == "LIKE"
  {
  }
}
