/** WHERE clauses as they may be written: any blanks, any case of the words, any
    redundant parentheses (src/generic_predicate.c:14-189,
    src/generic_boolean.c:15-94).  What is written is what is read. */
module BooleanSyntax {
  import opened Lexer
  import opened BooleanText

  // Space, or one of the five control characters from tab to carriage return.
  predicate Blank(c: char) {
    c == ' ' || 9 <= c as int <= 13
  }

  predicate Blanks(b: string) {
    forall i :: 0 <= i < |b| ==> Blank(b[i])
  }

  // A written expression, with the blanks in front of each of its parts.
  datatype Syntax =
    | Test(b0: string, name: string, b1: string, word: string, b2: string, literal: string, test: Predicate)
    | Group(open: string, inner: Syntax, close: string)
    | Chain(op2: Op2, left: Syntax, before: string, word: string, right: Syntax)

  function Wording(c: Syntax): string {
    match c
    case Test(b0, name, b1, word, b2, literal, _) => b0 + name + b1 + word + b2 + literal
    case Group(open, inner, close) => open + "(" + Wording(inner) + close + ")"
    case Chain(_, left, before, word, right) => Wording(left) + before + word + Wording(right)
  }

  // The expression it stands for.
  function Tree(c: Syntax): Expr {
    match c
    case Test(_, _, _, _, _, _, test) => Leaf(test, false)
    case Group(_, inner, _) => Tree(inner).(grouped := true)
    case Chain(op, left, _, _, right) => Join(op, Tree(left), Tree(right), false)
  }

  // How an operator may be written.
  predicate OpWord(op: Op, word: string) {
    match op
    case Eq => word == "="
    case Gt => word == ">"
    case Gte => word == ">="
    case Lt => word == "<"
    case Lte => word == "<="
    case Like => SameName(word, "like")
  }

  // The number some digits stand for.
  function DigitsNumber(digits: string): nat
    requires forall i :: 0 <= i < |digits| ==> IsDigit(digits[i])
  {
    if digits == "" then 0
    else
      assert IsDigit(digits[|digits| - 1]);
      10 * DigitsNumber(digits[..|digits| - 1]) + (digits[|digits| - 1] as int - '0' as int)
  }

  // How a value may be written: digits, or a text in quotes with its own quotes doubled.
  predicate Literal(v: Value, literal: string) {
    match v
    case Number(n) =>
      && literal != "" && (forall i :: 0 <= i < |literal| ==> IsDigit(literal[i])) && DigitsNumber(literal) == n
    case Text(s) => literal == "'" + (Escape(s) + "'")
  }

  predicate TestOk(schema: seq<Column>, c: Syntax) {
    && c.Test? && Blanks(c.b0) && Blanks(c.b1) && Blanks(c.b2)
    && WellFormed(schema, c.test) && SameName(c.name, schema[c.test.column].name)
    && OpWord(c.test.op, c.word) && (c.test.op == Like ==> c.b1 != "")
    && Literal(c.test.value, c.literal)
  }

  // What begins with a blank or a parenthesis may follow a word directly.
  predicate Detached(c: Syntax) {
    match c
    case Test(b0, _, _, _, _, _, _) => b0 != ""
    case Group(_, _, _) => true
    case Chain(_, left, _, _, _) => Detached(left)
  }

  // The grammar: level 1 chains operands of OR, level 2 operands of AND, level 3 is one operand.
  predicate Proper(schema: seq<Column>, c: Syntax, level: nat) {
    match c
    case Test(_, _, _, _, _, _, _) => TestOk(schema, c)
    case Group(open, inner, close) => Blanks(open) && Blanks(close) && Proper(schema, inner, 1)
    case Chain(op, left, before, word, right) =>
      && Blanks(before) && Detached(right)
      && (op == And ==> level <= 2 && SameName(word, "and") && Proper(schema, left, 2) && Proper(schema, right, 3))
      && (op == Or ==> level <= 1 && SameName(word, "or") && Proper(schema, left, 1) && Proper(schema, right, 2))
  }

  // What may follow without being read as part of a value.
  predicate Ends(rest: string) {
    !IsDigit(Head(rest)) && Head(rest) != '\''
  }

  // The text in front of `rest`.
  function Spell(c: Syntax, rest: string): string {
    match c
    case Test(b0, name, b1, word, b2, literal, _) => b0 + (name + (b1 + (word + (b2 + (literal + rest)))))
    case Group(open, inner, close) => open + ("(" + Spell(inner, close + (")" + rest)))
    case Chain(_, left, before, word, right) => Spell(left, before + (word + Spell(right, rest)))
  }

  lemma {:induction false} SpellIs(c: Syntax, rest: string)
    ensures Spell(c, rest) == Wording(c) + rest
  {
    match c
    case Test(b0, name, b1, word, b2, literal, _) =>
      Regroup(b0 + name + b1 + word + b2, literal, rest);
      Regroup(b0 + name + b1 + word, b2, literal + rest);
      Regroup(b0 + name + b1, word, b2 + (literal + rest));
      Regroup(b0 + name, b1, word + (b2 + (literal + rest)));
      Regroup(b0, name, b1 + (word + (b2 + (literal + rest))));
    case Group(open, inner, close) =>
      SpellIs(inner, close + (")" + rest));
      Regroup(open + "(" + Wording(inner) + close, ")", rest);
      Regroup(open + "(" + Wording(inner), close, ")" + rest);
      Regroup(open + "(", Wording(inner), close + (")" + rest));
      Regroup(open, "(", Wording(inner) + (close + (")" + rest)));
    case Chain(_, left, before, word, right) =>
      SpellIs(right, rest);
      SpellIs(left, before + (word + (Wording(right) + rest)));
      Regroup(Wording(left) + before + word, Wording(right), rest);
      Regroup(Wording(left) + before, word, Wording(right) + rest);
      Regroup(Wording(left), before, word + (Wording(right) + rest));
  }

  lemma {:induction false} BlanksSkipped(b: string, s: string)
    requires Blanks(b)
    ensures SkipSpaces(b + s) == SkipSpaces(s)
  {
    if b == "" {
      assert b + s == s;
    } else {
      assert (b + s)[0] == b[0] && (b + s)[1..] == b[1..] + s;
      BlanksSkipped(b[1..], s);
    }
  }

  lemma NameSpelled(name: string, b: string, other: string, rest: string)
    requires Blanks(b) && SameName(name, other) && 1 <= |other| < MAX_NAME_SIZE
    requires (IsAlpha(other[0]) || other[0] == '_') && forall i :: 0 <= i < |other| ==> IsIdentifierChar(other[i])
    requires !IsIdentifierChar(Head(rest))
    ensures ParseIdentifier(b + (name + rest)) == Ok(name, rest)
  {
    BlanksSkipped(b, name + rest);
    SameNameIsIdentifier(name, other);
    NameParses(name, rest);
    assert (name + rest)[0] == name[0];
  }

  lemma {:induction false} ColumnFound(schema: seq<Column>, name: string, other: string, i: nat)
    requires SameName(name, other) && i <= |schema|
    ensures FindColumn(schema, name, i) == FindColumn(schema, other, i)
    decreases |schema| - i
  {
    if i < |schema| {
      assert SameName(schema[i].name, name) <==> SameName(schema[i].name, other);
      ColumnFound(schema, name, other, i + 1);
    }
  }

  // A word, in any case, behind any blanks.
  lemma WordSpelled(b: string, word: string, expected: string, rest: string)
    requires Blanks(b) && SameName(word, expected) && !IsIdentifierChar(Head(rest))
    requires expected != "" && forall i :: 0 <= i < |expected| ==> 'a' <= expected[i] <= 'z'
    ensures ConsumeWord(b + (word + rest), expected) == Ok((), rest)
  {
    BlanksSkipped(b, word + rest);
    LowerKeepsClass(word[0], expected[0]);
    assert (word + rest)[0] == word[0];
    WordMatches(word, expected, rest);
  }

  lemma SymbolSpelled(op: Op, b: string, rest: string)
    requires Blanks(b) && op != Like && (op == Gt || op == Lt ==> Head(rest) != '=')
    ensures ParseOp(b + (OpText(op) + rest)) == Ok(op, rest)
  {
    var t := OpText(op) + rest;
    BlanksSkipped(b, t);
    assert t[0] == OpText(op)[0];
    assert MatchWord(t, "like") == Fail;
    assert t[|OpText(op)|..] == rest;
    assert |OpText(op)| == 2 ==> t[1] == OpText(op)[1] && t[1..][0] == t[1];
    assert |OpText(op)| == 1 ==> t[1..] == rest;
  }

  lemma OpSpelled(op: Op, word: string, b: string, rest: string)
    requires Blanks(b) && OpWord(op, word)
    requires op == Like ==> !IsIdentifierChar(Head(rest))
    requires op == Gt || op == Lt ==> Head(rest) != '='
    ensures ParseOp(b + (word + rest)) == Ok(op, rest)
  {
    if op == Like {
      WordSpelled(b, word, "like", rest);
    } else {
      SymbolSpelled(op, b, rest);
    }
  }

  lemma {:induction false} DigitsSpelled(digits: string, n: nat, rest: string)
    requires (forall i :: 0 <= i < |digits| ==> IsDigit(digits[i])) && DigitsNumber(digits) == n
    ensures ReadDigits(digits + rest, 0) == ReadDigits(rest, n)
  {
    if digits == "" {
      assert digits + rest == rest;
    } else {
      var front, last := digits[..|digits| - 1], digits[|digits| - 1];
      DigitsSpelled(front, DigitsNumber(front), [last] + rest);
      assert digits + rest == front + ([last] + rest);
      assert ([last] + rest)[1..] == rest;
    }
  }

  lemma ValueSpelled(v: Value, literal: string, columnType: ColumnType, b: string, rest: string)
    requires Blanks(b) && Ends(rest) && Literal(v, literal)
    requires match v
      case Number(n) => columnType == IntColumn && n <= UINT32_MAX
      case Text(s) => columnType == TextColumn && |s| < TEXT_SIZE
    ensures ParseValue(b + (literal + rest), columnType) == Ok(v, rest)
  {
    BlanksSkipped(b, literal + rest);
    assert (literal + rest)[0] == literal[0];
    match v
    case Number(n) =>
      DigitsSpelled(literal, n, rest);
    case Text(s) =>
      TextParses(s, rest);
  }

  // Behind the operator comes a blank, a digit or a quote.
  lemma AfterOp(v: Value, literal: string, b: string, rest: string)
    requires Blanks(b) && Literal(v, literal)
    ensures !IsIdentifierChar(Head(b + (literal + rest))) || (b == "" && v.Number?)
    ensures Head(b + (literal + rest)) != '='
  {
    var t := literal + rest;
    if b == "" {
      assert b + t == t && t[0] == literal[0];
    } else {
      assert (b + t)[0] == b[0];
    }
  }

  lemma AfterName(c: Syntax, rest: string)
    requires c.Test? && Blanks(c.b1) && OpWord(c.test.op, c.word) && (c.test.op == Like ==> c.b1 != "")
    ensures !IsIdentifierChar(Head(c.b1 + (c.word + rest)))
  {
    if c.b1 == "" {
      assert c.b1 + (c.word + rest) == c.word + rest && (c.word + rest)[0] == c.word[0];
    } else {
      assert (c.b1 + (c.word + rest))[0] == c.b1[0];
    }
  }

  // A test reads back however it is spaced.
  lemma TestSpelled(schema: seq<Column>, c: Syntax, rest: string)
    requires TestOk(schema, c) && Ends(rest)
    ensures ParsePredicate(schema, Spell(c, rest)) == Ok(c.test, rest)
  {
    var value, column := c.b2 + (c.literal + rest), schema[c.test.column];
    AfterOp(c.test.value, c.literal, c.b2, rest);
    AfterName(c, value);
    NameSpelled(c.name, c.b0, column.name, c.b1 + (c.word + value));
    ColumnFound(schema, c.name, column.name, 0);
    OpSpelled(c.test.op, c.word, c.b1, value);
    ValueSpelled(c.test.value, c.literal, column.columnType, c.b2, rest);
  }

  // Where a written expression starts.
  lemma TestStarts(schema: seq<Column>, c: Syntax, rest: string)
    requires TestOk(schema, c)
    ensures var t := SkipSpaces(Spell(c, rest));
      t != "" && t[0] != '(' && ParsePredicate(schema, t) == ParsePredicate(schema, Spell(c, rest))
  {
    var t := c.name + (c.b1 + (c.word + (c.b2 + (c.literal + rest))));
    BlanksSkipped(c.b0, t);
    SameNameIsIdentifier(c.name, schema[c.test.column].name);
    assert t[0] == c.name[0];
  }

  lemma {:induction false} NotGlued(schema: seq<Column>, c: Syntax, level: nat, rest: string)
    requires Proper(schema, c, level) && Detached(c)
    ensures !IsIdentifierChar(Head(Spell(c, rest)))
  {
    match c
    case Test(b0, _, _, _, _, _, _) => assert Spell(c, rest)[0] == b0[0];
    case Group(open, _, _) => assert open != "" ==> Spell(c, rest)[0] == open[0];
    case Chain(op, left, before, word, right) =>
      NotGlued(schema, left, if op == And then 2 else 1, before + (word + Spell(right, rest)));
  }

  // A connective may follow a value directly, and is not taken for the other one.
  lemma Connective(op: Op2, b: string, word: string, rest: string)
    requires Blanks(b) && SameName(word, if op == And then "and" else "or") && !IsIdentifierChar(Head(rest))
    ensures Ends(b + (word + rest))
    ensures ConsumeWord(b + (word + rest), if op == And then "and" else "or") == Ok((), rest)
    ensures op == Or ==> ConsumeWord(b + (word + rest), "and").Fail?
  {
    var expected := if op == And then "and" else "or";
    WordSpelled(b, word, expected, rest);
    LowerKeepsClass(word[0], expected[0]);
    BlanksSkipped(b, word + rest);
    assert (word + rest)[0] == word[0];
    assert b != "" ==> (b + (word + rest))[0] == b[0];
    assert b == "" ==> b + (word + rest) == word + rest;
  }

  lemma ClosingSpelled(b: string, rest: string)
    requires Blanks(b)
    ensures Ends(b + (")" + rest)) && ConsumeChar(b + (")" + rest), ')') == Ok((), rest)
    ensures ConsumeWord(b + (")" + rest), "and").Fail? && ConsumeWord(b + (")" + rest), "or").Fail?
  {
    BlanksSkipped(b, ")" + rest);
    Closing(rest);
    assert b != "" ==> (b + (")" + rest))[0] == b[0];
    assert b == "" ==> b + (")" + rest) == ")" + rest;
  }

  lemma {:induction false} OperandSpelled(schema: seq<Column>, c: Syntax, rest: string)
    requires Proper(schema, c, 3) && Ends(rest)
    ensures ParsePrimary(schema, Spell(c, rest)) == Ok(Tree(c), rest)
    decreases c, 1
  {
    if c.Test? {
      TestStarts(schema, c, rest);
      TestSpelled(schema, c, rest);
    } else {
      var tail := c.close + (")" + rest);
      ClosingSpelled(c.close, rest);
      OrSpelled(schema, c.inner, tail);
      BlanksSkipped(c.open, "(" + Spell(c.inner, tail));
      assert SkipSpaces("(" + Spell(c.inner, tail)) == "(" + Spell(c.inner, tail);
      Prefixed("(", Spell(c.inner, tail));
    }
  }

  lemma {:induction false} AndSpelled(schema: seq<Column>, c: Syntax, rest: string)
    requires Proper(schema, c, 2) && Ends(rest)
    ensures FactorThen(schema, Empty, Spell(c, rest)) == AndLoop(schema, Tree(c), rest)
    decreases c, 2
  {
    if c.Chain? {
      var right := Spell(c.right, rest);
      NotGlued(schema, c.right, 3, rest);
      Connective(And, c.before, c.word, right);
      AndSpelled(schema, c.left, c.before + (c.word + right));
      OperandSpelled(schema, c.right, rest);
    } else {
      OperandSpelled(schema, c, rest);
    }
  }

  lemma {:induction false} OrChain(schema: seq<Column>, c: Syntax, rest: string)
    requires Proper(schema, c, 1) && Ends(rest) && ConsumeWord(rest, "and").Fail?
    ensures TermThen(schema, Empty, Spell(c, rest)) == OrLoop(schema, Tree(c), rest)
    decreases c, 3
  {
    if c.Chain? && c.op2 == Or {
      var right := Spell(c.right, rest);
      NotGlued(schema, c.right, 2, rest);
      Connective(Or, c.before, c.word, right);
      OrChain(schema, c.left, c.before + (c.word + right));
      AndSpelled(schema, c.right, rest);
    } else {
      AndSpelled(schema, c, rest);
    }
  }

  lemma {:induction false} OrSpelled(schema: seq<Column>, c: Syntax, rest: string)
    requires Proper(schema, c, 1) && Ends(rest) && ConsumeWord(rest, "and").Fail? && ConsumeWord(rest, "or").Fail?
    ensures ParseOr(schema, Spell(c, rest)) == Ok(Tree(c), rest)
    decreases c, 4
  {
    OrChain(schema, c, rest);
  }

  // Whatever is written by these rules is read as the tree it stands for, up to where it ends.
  lemma WrittenIsRead(schema: seq<Column>, c: Syntax, rest: string)
    requires Proper(schema, c, 1) && Ends(rest) && ConsumeWord(rest, "and").Fail? && ConsumeWord(rest, "or").Fail?
    ensures ParseOr(schema, Wording(c) + rest) == Ok(Tree(c), rest)
  {
    SpellIs(c, rest);
    OrSpelled(schema, c, rest);
  }

  // The other way round: what the parser takes apart.

  lemma {:induction false} BlanksRead(s: string) returns (b: string)
    ensures Blanks(b) && s == b + SkipSpaces(s)
  {
    b := "";
    if s != "" && IsSpace(s[0]) {
      b := BlanksRead(s[1..]);
      b := [s[0]] + b;
    }
  }

  lemma {:induction false} LettersRead(s: string, word: string)
    requires MatchWord(s, word).Ok?
    ensures |word| <= |s| && SameName(s[..|word|], word) && MatchWord(s, word).rest == s[|word|..]
  {
    if word != "" {
      LettersRead(s[1..], word[1..]);
      assert s[..|word|] == [s[0]] + s[1..][..|word| - 1];
    }
  }

  lemma WordRead(s: string, expected: string) returns (b: string, word: string)
    requires ConsumeWord(s, expected).Ok?
    ensures Blanks(b) && SameName(word, expected)
    ensures var rest := ConsumeWord(s, expected).rest; s == b + (word + rest) && !IsIdentifierChar(Head(rest))
  {
    b := BlanksRead(s);
    var t := SkipSpaces(s);
    LettersRead(t, expected);
    word := t[..|expected|];
    assert t == word + t[|expected|..];
  }

  lemma StartsWith(b: string, word: string, rest: string)
    requires word != ""
    ensures b == "" ==> Head(b + (word + rest)) == word[0]
  {
    assert b == "" ==> b + (word + rest) == word + rest;
  }

  lemma NameRead(s: string) returns (b: string)
    requires ParseIdentifier(s).Ok?
    ensures var r := ParseIdentifier(s); Blanks(b) && s == b + (r.value + r.rest) && !IsIdentifierChar(Head(r.rest))
  {
    b := BlanksRead(s);
    var t := SkipSpaces(s);
    var n := IdentifierLength(t);
    assert t == t[..n] + t[n..];
  }

  lemma OpRead(s: string) returns (b: string, word: string)
    requires ParseOp(s).Ok? && !IsIdentifierChar(Head(s))
    ensures var r := ParseOp(s);
      Blanks(b) && OpWord(r.value, word) && s == b + (word + r.rest) && (r.value == Like ==> b != "")
  {
    if ConsumeWord(s, "like").Ok? {
      b, word := WordRead(s, "like");
      LowerKeepsClass(word[0], 'l');
      StartsWith(b, word, ParseOp(s).rest);
    } else {
      b := BlanksRead(s);
      var t := SkipSpaces(s);
      var n := |t| - |ParseOp(s).rest|;
      word := t[..n];
      assert t == word + t[n..];
    }
  }

  lemma {:induction false} DigitsTaken(front: string, s: string) returns (digits: string)
    requires forall i :: 0 <= i < |front| ==> IsDigit(front[i])
    ensures forall i :: 0 <= i < |digits| ==> IsDigit(digits[i])
    ensures var r := ReadDigits(s, DigitsNumber(front));
      s == digits + r.rest && r.value == DigitsNumber(front + digits)
    ensures s != "" && IsDigit(s[0]) ==> digits != ""
    decreases |s|
  {
    digits := "";
    if s != "" && IsDigit(s[0]) {
      var more := front + [s[0]];
      assert more[..|more| - 1] == front;
      digits := DigitsTaken(more, s[1..]);
      Regroup(front, [s[0]], digits);
      assert s == [s[0]] + s[1..];
      digits := [s[0]] + digits;
    } else {
      assert front + "" == front;
    }
  }

  lemma {:induction false} QuotedTaken(s: string, text: string) returns (u: string)
    requires ReadQuoted(s, text).Ok?
    ensures var r := ReadQuoted(s, text); r.value == text + u && s == Escape(u) + ("'" + r.rest)
    decreases |s|
  {
    u := "";
    if s[0] == '\'' && Head(s[1..]) != '\'' {
      assert text + "" == text && s == "'" + s[1..];
    } else {
      var skip := if s[0] == '\'' then 2 else 1;
      u := QuotedTaken(s[skip..], text + [s[0]]);
      assert text + [s[0]] + u == text + ([s[0]] + u);
      assert s == s[..skip] + s[skip..];
      Regroup(s[..skip], Escape(u), "'" + ReadQuoted(s, text).rest);
      u := [s[0]] + u;
    }
  }

  lemma ValueRead(s: string, columnType: ColumnType) returns (b: string, literal: string)
    requires ParseValue(s, columnType).Ok?
    ensures var r := ParseValue(s, columnType); Blanks(b) && Literal(r.value, literal) && s == b + (literal + r.rest)
  {
    b := BlanksRead(s);
    var t := SkipSpaces(s);
    if columnType == IntColumn {
      literal := NumberRead(t);
    } else {
      literal := TextRead(t);
    }
  }

  lemma NumberRead(t: string) returns (literal: string)
    requires t != "" && IsDigit(t[0])
    ensures Literal(Number(ReadDigits(t, 0).value), literal) && t == literal + ReadDigits(t, 0).rest
  {
    literal := DigitsTaken("", t);
    assert "" + literal == literal;
  }

  lemma TextRead(t: string) returns (literal: string)
    requires t != "" && t[0] == '\'' && ReadQuoted(t[1..], "").Ok?
    ensures var r := ReadQuoted(t[1..], ""); Literal(Text(r.value), literal) && t == literal + r.rest
  {
    var u := QuotedTaken(t[1..], "");
    var rest := ReadQuoted(t[1..], "").rest;
    assert "" + u == u && t == "'" + t[1..];
    literal := "'" + (Escape(u) + "'");
    Regroup("'", Escape(u) + "'", rest);
    Regroup(Escape(u), "'", rest);
  }

  lemma TestRead(schema: seq<Column>, s: string) returns (c: Syntax)
    requires ParsePredicate(schema, s).Ok?
    ensures var r := ParsePredicate(schema, s); TestOk(schema, c) && c.test == r.value && Spell(c, r.rest) == s
  {
    ParsedIsWellFormed(schema, s);
    var p, name := ParsePredicate(schema, s).value, ParseIdentifier(s);
    var b0 := NameRead(s);
    var b1, word := OpRead(name.rest);
    var b2, literal := ValueRead(ParseOp(name.rest).rest, schema[p.column].columnType);
    c := Test(b0, name.value, b1, word, b2, literal, p);
  }

  lemma {:induction false} OperandRead(schema: seq<Column>, s: string) returns (c: Syntax)
    requires ParsePrimary(schema, s).Ok?
    ensures var r := ParsePrimary(schema, s); Proper(schema, c, 3) && Tree(c) == r.value && Spell(c, r.rest) == s
    decreases |s|, 1
  {
    var b := BlanksRead(s);
    var t := SkipSpaces(s);
    if Head(t) == '(' && t != "" {
      var inner := OrRead(schema, t[1..]);
      var r := ParseOr(schema, t[1..]);
      var close := BlanksRead(r.rest);
      var u := SkipSpaces(r.rest);
      assert u == ")" + u[1..] && t == "(" + t[1..];
      c := Group(b, inner, close);
    } else {
      c := TestRead(schema, t);
      var name := c.name + (c.b1 + (c.word + (c.b2 + (c.literal + ParsePredicate(schema, t).rest))));
      Regroup(b, c.b0, name);
      c := c.(b0 := b + c.b0);
    }
  }

  // A word is followed by a blank or a parenthesis.
  lemma {:induction false} IsDetached(schema: seq<Column>, c: Syntax, level: nat, rest: string)
    requires Proper(schema, c, level) && !IsIdentifierChar(Head(Spell(c, rest)))
    ensures Detached(c)
  {
    match c
    case Test(b0, name, _, _, _, _, test) =>
      SameNameIsIdentifier(name, schema[test.column].name);
      StartsWith(b0, name, c.b1 + (c.word + (c.b2 + (c.literal + rest))));
    case Group(_, _, _) =>
    case Chain(op, left, before, word, right) =>
      IsDetached(schema, left, if op == And then 2 else 1, before + (word + Spell(right, rest)));
  }

  lemma {:induction false} MoreAndRead(schema: seq<Column>, left: Syntax, s: string) returns (c: Syntax)
    requires Proper(schema, left, 2) && AndLoop(schema, Tree(left), s).Ok?
    ensures var r := AndLoop(schema, Tree(left), s);
      Proper(schema, c, 2) && Tree(c) == r.value && Spell(c, r.rest) == Spell(left, s)
    decreases |s|, 0
  {
    c := left;
    var w := ConsumeWord(s, "and");
    if w.Ok? {
      var b, word := WordRead(s, "and");
      var right := OperandRead(schema, w.rest);
      var x := ParsePrimary(schema, w.rest);
      IsDetached(schema, right, 3, x.rest);
      c := MoreAndRead(schema, Chain(And, left, b, word, right), x.rest);
    }
  }

  lemma {:induction false} AndRead(schema: seq<Column>, s: string) returns (c: Syntax)
    requires FactorThen(schema, Empty, s).Ok?
    ensures var r := FactorThen(schema, Empty, s); Proper(schema, c, 2) && Tree(c) == r.value && Spell(c, r.rest) == s
    decreases |s|, 2
  {
    c := OperandRead(schema, s);
    c := MoreAndRead(schema, c, ParsePrimary(schema, s).rest);
  }

  lemma {:induction false} MoreOrRead(schema: seq<Column>, left: Syntax, s: string) returns (c: Syntax)
    requires Proper(schema, left, 1) && OrLoop(schema, Tree(left), s).Ok?
    ensures var r := OrLoop(schema, Tree(left), s);
      Proper(schema, c, 1) && Tree(c) == r.value && Spell(c, r.rest) == Spell(left, s)
    decreases |s|, 0
  {
    c := left;
    var w := ConsumeWord(s, "or");
    if w.Ok? {
      var b, word := WordRead(s, "or");
      var right := AndRead(schema, w.rest);
      var x := FactorThen(schema, Empty, w.rest);
      IsDetached(schema, right, 2, x.rest);
      c := MoreOrRead(schema, Chain(Or, left, b, word, right), x.rest);
    }
  }

  lemma {:induction false} OrRead(schema: seq<Column>, s: string) returns (c: Syntax)
    requires ParseOr(schema, s).Ok?
    ensures var r := ParseOr(schema, s); Proper(schema, c, 1) && Tree(c) == r.value && Spell(c, r.rest) == s
    decreases |s|, 4
  {
    c := AndRead(schema, s);
    c := MoreOrRead(schema, c, FactorThen(schema, Empty, s).rest);
  }

  // Whatever is read was written by these rules, and stands for the tree that was read.
  lemma ReadIsWritten(schema: seq<Column>, s: string) returns (c: Syntax)
    requires ParseOr(schema, s).Ok?
    ensures Proper(schema, c, 1) && Tree(c) == ParseOr(schema, s).value && Wording(c) + ParseOr(schema, s).rest == s
  {
    c := OrRead(schema, s);
    SpellIs(c, ParseOr(schema, s).rest);
  }

  // Numbers up to 4294967295, names of at most 31 and texts of at most 256 characters.
  lemma NumberLimit(n: nat, b: string, rest: string)
    requires Blanks(b) && !IsDigit(Head(rest))
    ensures ParseUint32(b + (Decimal(n) + rest)).Ok? <==> n <= 4294967295
    ensures n <= 4294967295 ==> ParseUint32(b + (Decimal(n) + rest)) == Ok(n, rest)
  {
    BlanksSkipped(b, Decimal(n) + rest);
    DigitsRead(n, rest);
    assert (Decimal(n) + rest)[0] == Decimal(n)[0];
  }

  lemma NameLimit(name: string, b: string, rest: string)
    requires Blanks(b) && name != "" && (IsAlpha(name[0]) || name[0] == '_')
    requires (forall i :: 0 <= i < |name| ==> IsIdentifierChar(name[i])) && !IsIdentifierChar(Head(rest))
    ensures ParseIdentifier(b + (name + rest)).Ok? <==> |name| <= 31
  {
    BlanksSkipped(b, name + rest);
    IdentifierSplit(name, rest);
    assert (name + rest)[0] == name[0];
  }

  lemma {:induction false} TooLong(s: string, text: string, acc: string, rest: string)
    requires s == Escape(text) + ("'" + rest) && |acc| < TEXT_SIZE <= |acc| + |text|
    ensures ReadQuoted(s, acc).Fail?
    decreases |text|
  {
    var tail := Escape(text[1..]) + ("'" + rest);
    EscapeStep(s, text, tail, rest);
    if |acc| + 1 < TEXT_SIZE {
      TooLong(tail, text[1..], acc + [text[0]], rest);
    }
  }

  lemma TextLimit(text: string, b: string, rest: string)
    requires Blanks(b) && Head(rest) != '\''
    ensures ParseString(b + (("'" + (Escape(text) + "'")) + rest)).Ok? <==> |text| <= 256
    ensures |text| <= 256 ==> ParseString(b + (("'" + (Escape(text) + "'")) + rest)) == Ok(text, rest)
  {
    var quoted := ("'" + (Escape(text) + "'")) + rest;
    BlanksSkipped(b, quoted);
    if |text| <= 256 {
      TextParses(text, rest);
    } else {
      var tail := Escape(text) + ("'" + rest);
      Regroup("'", Escape(text) + "'", rest);
      Regroup(Escape(text), "'", rest);
      QuoteOpens(tail);
      TooLong(tail, text, "", rest);
    }
  }
}
