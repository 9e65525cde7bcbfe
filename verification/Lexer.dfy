/** Characters, tokens and single predicates of the WHERE clause language
    (src/generic_predicate.c:6-189, 249-259).  A parser is the text still to be
    read; the end of the text reads as the character zero. */
module Lexer {

  datatype Parsed<T> = Fail | Ok(value: T, rest: string)

  predicate IsSpace(c: char) {
    c == ' ' || c == '\t' || c == '\n' || c == '\r' || c == 11 as char || c == 12 as char
  }

  predicate IsDigit(c: char) { '0' <= c <= '9' }

  predicate IsAlpha(c: char) { 'a' <= c <= 'z' || 'A' <= c <= 'Z' }

  predicate IsIdentifierChar(c: char) { IsAlpha(c) || IsDigit(c) || c == '_' }

  function Lower(c: char): char {
    if 'A' <= c <= 'Z' then c + 32 as char else c
  }

  // The classes by character code.
  lemma CharacterClasses(c: char)
    ensures IsSpace(c) <==> c as int == 32 || 9 <= c as int <= 13
    ensures IsDigit(c) <==> 48 <= c as int <= 57
    ensures IsAlpha(c) <==> 65 <= c as int <= 90 || 97 <= c as int <= 122
    ensures IsIdentifierChar(c) <==> IsAlpha(c) || IsDigit(c) || c as int == 95
  {
  }

  // Letters differ at most in case.
  lemma LowerIs(a: char, b: char)
    ensures Lower(a) == Lower(b) <==>
      || a == b
      || ('A' <= a <= 'Z' && b as int == a as int + 32)
      || ('A' <= b <= 'Z' && a as int == b as int + 32)
  {
  }

  function Head(s: string): char {
    if s == "" then 0 as char else s[0]
  }

  function SkipSpaces(s: string): (r: string)
    ensures |r| <= |s|
    ensures r != "" ==> !IsSpace(r[0])
  {
    if s != "" && IsSpace(s[0]) then SkipSpaces(s[1..]) else s
  }

  function MatchWord(s: string, word: string): (r: Parsed<()>)
    ensures r.Ok? ==> |r.rest| + |word| == |s|
  {
    if word == "" then Ok((), s)
    else if s != "" && Lower(s[0]) == Lower(word[0]) then MatchWord(s[1..], word[1..])
    else Fail
  }

  function ConsumeWord(s: string, word: string): (r: Parsed<()>)
    ensures r.Ok? ==> |r.rest| + |word| <= |s|
  {
    match MatchWord(SkipSpaces(s), word)
    case Fail => Fail
    case Ok(_, rest) => if IsIdentifierChar(Head(rest)) then Fail else Ok((), rest)
  }

  function ConsumeChar(s: string, expected: char): (r: Parsed<()>)
    ensures r.Ok? ==> |r.rest| < |s|
  {
    var t := SkipSpaces(s);
    if t != "" && t[0] == expected then Ok((), t[1..]) else Fail
  }

  const MAX_NAME_SIZE: nat := 32
  const TEXT_SIZE: nat := 257
  const UINT32_MAX: nat := 0xFFFF_FFFF

  function IdentifierLength(s: string): (n: nat)
    ensures n <= |s|
    ensures forall i :: 0 <= i < n ==> IsIdentifierChar(s[i])
    ensures n < |s| ==> !IsIdentifierChar(s[n])
  {
    if s != "" && IsIdentifierChar(s[0]) then 1 + IdentifierLength(s[1..]) else 0
  }

  function ParseIdentifier(s: string): Parsed<string> {
    var t := SkipSpaces(s);
    var n := IdentifierLength(t);
    if !IsAlpha(Head(t)) && Head(t) != '_' then Fail
    else if n >= MAX_NAME_SIZE then Fail
    else Ok(t[..n], t[n..])
  }

  function DigitValue(c: char): nat
    requires IsDigit(c)
  {
    (c - '0') as nat
  }

  // The digits at the start of `s` appended to the number `n`.
  function ReadDigits(s: string, n: nat): (r: Parsed<nat>)
    ensures r.Ok? && |r.rest| <= |s|
  {
    if s != "" && IsDigit(s[0]) then ReadDigits(s[1..], 10 * n + DigitValue(s[0])) else Ok(n, s)
  }

  function ParseUint32(s: string): Parsed<nat> {
    var t := SkipSpaces(s);
    if !IsDigit(Head(t)) then Fail
    else
      var r := ReadDigits(t, 0);
      if r.value > UINT32_MAX then Fail else r
  }

  // The characters up to the closing quote; a doubled quote stands for one.
  function ReadQuoted(s: string, text: string): (r: Parsed<string>)
    ensures r.Ok? ==> |r.rest| < |s|
    ensures r.Ok? && |text| < TEXT_SIZE ==> |r.value| < TEXT_SIZE
  {
    if s == "" then Fail
    else if s[0] == '\'' && Head(s[1..]) != '\'' then Ok(text, s[1..])
    else if |text| + 1 >= TEXT_SIZE then Fail
    else if s[0] == '\'' then ReadQuoted(s[2..], text + ['\''])
    else ReadQuoted(s[1..], text + [s[0]])
  }

  function ParseString(s: string): Parsed<string> {
    var t := SkipSpaces(s);
    if Head(t) != '\'' then Fail else ReadQuoted(t[1..], "")
  }

  datatype ColumnType = IntColumn | TextColumn
  datatype Column = Column(name: string, columnType: ColumnType)
  datatype Value = Number(n: nat) | Text(s: string)
  datatype Op = Eq | Gt | Gte | Lt | Lte | Like
  datatype Predicate = Predicate(column: nat, op: Op, value: Value)

  predicate SameName(a: string, b: string) {
    |a| == |b| && forall i :: 0 <= i < |a| ==> Lower(a[i]) == Lower(b[i])
  }

  // The first column of that name, ignoring case, or |schema|.
  function FindColumn(schema: seq<Column>, name: string, i: nat): (c: nat)
    requires i <= |schema|
    ensures i <= c <= |schema|
    ensures c < |schema| ==> SameName(schema[c].name, name)
    ensures forall k :: i <= k < c ==> !SameName(schema[k].name, name)
    decreases |schema| - i
  {
    if i == |schema| || SameName(schema[i].name, name) then i else FindColumn(schema, name, i + 1)
  }

  function ParseOp(s: string): (r: Parsed<Op>)
    ensures r.Ok? ==> |r.rest| < |s|
  {
    var like := ConsumeWord(s, "like");
    if like.Ok? then Ok(Like, like.rest)
    else
      var t := SkipSpaces(s);
      if t == "" then Fail
      else if t[0] == '=' then Ok(Eq, t[1..])
      else if t[0] == '>' then if Head(t[1..]) == '=' then Ok(Gte, t[2..]) else Ok(Gt, t[1..])
      else if t[0] == '<' then if Head(t[1..]) == '=' then Ok(Lte, t[2..]) else Ok(Lt, t[1..])
      else Fail
  }

  function ParseValue(s: string, columnType: ColumnType): Parsed<Value> {
    match columnType
    case IntColumn =>
      var r := ParseUint32(s);
      if r.Fail? then Fail else Ok(Number(r.value), r.rest)
    case TextColumn =>
      var r := ParseString(s);
      if r.Fail? then Fail else Ok(Text(r.value), r.rest)
  }

  function ParsePredicate(schema: seq<Column>, s: string): (r: Parsed<Predicate>)
    ensures r.Ok? ==> |r.rest| < |s|
  {
    var name := ParseIdentifier(s);
    if name.Fail? then Fail
    else
      var c := FindColumn(schema, name.value, 0);
      var op := ParseOp(name.rest);
      if c == |schema| || op.Fail? || (op.value == Like && schema[c].columnType != TextColumn) then Fail
      else
        var v := ParseValue(op.rest, schema[c].columnType);
        if v.Fail? then Fail else Ok(Predicate(c, op.value, v.value), v.rest)
  }

  function OpText(op: Op): string {
    match op
    case Eq => "="
    case Gt => ">"
    case Gte => ">="
    case Lt => "<"
    case Lte => "<="
    case Like => "LIKE"
  }

  function Digit(d: nat): char
    requires d < 10
  {
    '0' + d as char
  }

  function Decimal(n: nat): string {
    if n < 10 then [Digit(n)] else Decimal(n / 10) + [Digit(n % 10)]
  }

  function Escape(text: string): string {
    if text == "" then ""
    else (if text[0] == '\'' then "''" else [text[0]]) + Escape(text[1..])
  }

  function ValueText(v: Value): string {
    match v
    case Number(n) => Decimal(n)
    case Text(s) => "'" + (Escape(s) + "'")
  }

  // A predicate that the parser could have produced.
  predicate WellFormed(schema: seq<Column>, p: Predicate) {
    && p.column < |schema|
    && (var name := schema[p.column].name;
        && FindColumn(schema, name, 0) == p.column
        && 1 <= |name| < MAX_NAME_SIZE
        && (IsAlpha(name[0]) || name[0] == '_')
        && forall i :: 0 <= i < |name| ==> IsIdentifierChar(name[i]))
    && (p.op == Like ==> p.value.Text?)
    && (match p.value
        case Number(n) => schema[p.column].columnType == IntColumn && n <= UINT32_MAX
        case Text(s) => schema[p.column].columnType == TextColumn && |s| < TEXT_SIZE)
  }

  function PredicateText(schema: seq<Column>, p: Predicate): string
    requires p.column < |schema|
  {
    schema[p.column].name + (" " + (OpText(p.op) + (" " + ValueText(p.value))))
  }

  // What may follow a predicate without being read as part of it.
  predicate Stops(rest: string) {
    rest == "" || rest[0] == ' ' || rest[0] == ')'
  }

  lemma {:induction false} IdentifierSplit(name: string, rest: string)
    requires forall i :: 0 <= i < |name| ==> IsIdentifierChar(name[i])
    requires !IsIdentifierChar(Head(rest))
    ensures IdentifierLength(name + rest) == |name|
  {
    var s := name + rest;
    assert forall i :: 0 <= i < |name| ==> s[i] == name[i];
    assert rest != "" ==> s[|name|] == rest[0];
  }

  lemma NameParses(name: string, rest: string)
    requires 1 <= |name| < MAX_NAME_SIZE && (IsAlpha(name[0]) || name[0] == '_')
    requires forall i :: 0 <= i < |name| ==> IsIdentifierChar(name[i])
    requires !IsIdentifierChar(Head(rest))
    ensures ParseIdentifier(name + rest) == Ok(name, rest)
  {
    var s := name + rest;
    assert s[0] == name[0];
    IdentifierSplit(name, rest);
    assert s[..|name|] == name && s[|name|..] == rest;
  }

  lemma {:induction false} DigitsRead(n: nat, rest: string)
    ensures ReadDigits(Decimal(n) + rest, 0) == ReadDigits(rest, n)
    ensures IsDigit(Decimal(n)[0])
    decreases n
  {
    var d := [Digit(n % 10)];
    assert (d + rest)[1..] == rest;
    assert DigitValue(d[0]) == n % 10;
    if n >= 10 {
      DigitsRead(n / 10, d + rest);
      assert Decimal(n) + rest == Decimal(n / 10) + (d + rest);
    }
  }

  lemma NumberParses(n: nat, rest: string)
    requires n <= UINT32_MAX && !IsDigit(Head(rest))
    ensures ParseUint32(Decimal(n) + rest) == Ok(n, rest)
  {
    DigitsRead(n, rest);
    assert (Decimal(n) + rest)[0] == Decimal(n)[0];
  }

  lemma {:induction false} QuotedReads(s: string, text: string, acc: string, rest: string)
    requires s == Escape(text) + ("'" + rest)
    requires |acc| + |text| < TEXT_SIZE && Head(rest) != '\''
    ensures ReadQuoted(s, acc) == Ok(acc + text, rest)
    decreases |text|
  {
    if text == "" {
      assert s == "'" + rest && s[1..] == rest;
      assert acc + text == acc;
    } else {
      var tail := Escape(text[1..]) + ("'" + rest);
      QuotedReads(tail, text[1..], acc + [text[0]], rest);
      assert acc + [text[0]] + text[1..] == acc + text;
      EscapeStep(s, text, tail, rest);
    }
  }

  lemma EscapeStep(s: string, text: string, tail: string, rest: string)
    requires text != "" && s == Escape(text) + ("'" + rest) && tail == Escape(text[1..]) + ("'" + rest)
    ensures |s| > 0 && s[0] == text[0]
    ensures text[0] == '\'' ==> |s| > 1 && s[1..][0] == '\'' && s[2..] == tail
    ensures text[0] != '\'' ==> s[1..] == tail
  {
    var first := if text[0] == '\'' then "''" else [text[0]];
    Regroup(first, Escape(text[1..]), "'" + rest);
    Prefixed(first, tail);
  }

  lemma Regroup(a: string, b: string, c: string)
    ensures (a + b) + c == a + (b + c)
  {
  }

  lemma Prefixed(a: string, b: string)
    ensures (a + b)[|a|..] == b
    ensures a != "" ==> (a + b)[0] == a[0] && (a + b)[1..] == a[1..] + b
  {
  }

  lemma QuoteOpens(tail: string)
    ensures ParseString("'" + tail) == ReadQuoted(tail, "")
  {
    Prefixed("'", tail);
    assert SkipSpaces("'" + tail) == "'" + tail;
  }

  lemma TextParses(text: string, rest: string)
    requires |text| < TEXT_SIZE && Head(rest) != '\''
    ensures ParseString("'" + (Escape(text) + "'") + rest) == Ok(text, rest)
  {
    var tail := Escape(text) + ("'" + rest);
    Regroup("'", Escape(text) + "'", rest);
    Regroup(Escape(text), "'", rest);
    QuoteOpens(tail);
    QuotedReads(tail, text, "", rest);
    assert "" + text == text;
  }

  lemma SpaceSkipped(s: string)
    ensures SkipSpaces(" " + s) == SkipSpaces(s)
  {
    assert (" " + s)[1..] == s;
  }

  lemma ValueParses(v: Value, columnType: ColumnType, rest: string)
    requires Stops(rest)
    requires match v
      case Number(n) => columnType == IntColumn && n <= UINT32_MAX
      case Text(s) => columnType == TextColumn && |s| < TEXT_SIZE
    ensures ParseValue(" " + (ValueText(v) + rest), columnType) == Ok(v, rest)
  {
    SpaceSkipped(ValueText(v) + rest);
    match v
    case Number(n) => NumberParses(n, rest); DigitsRead(n, rest);
    case Text(s) => TextParses(s, rest);
  }

  lemma {:induction false} WordMatches(written: string, word: string, rest: string)
    requires SameName(written, word)
    ensures MatchWord(written + rest, word) == Ok((), rest)
  {
    var s := written + rest;
    if word == "" {
      assert s == rest;
    } else {
      WordMatches(written[1..], word[1..], rest);
      assert s[1..] == written[1..] + rest && s[0] == written[0];
    }
  }

  lemma OpParses(op: Op, rest: string)
    ensures ParseOp(" " + (OpText(op) + (" " + rest))) == Ok(op, " " + rest)
  {
    var s := " " + (OpText(op) + (" " + rest));
    var t := OpText(op) + (" " + rest);
    SpaceSkipped(t);
    assert t[0] == OpText(op)[0];
    if op == Like {
      WordMatches("LIKE", "like", " " + rest);
    } else {
      assert MatchWord(t, "like") == Fail;
      assert t[|OpText(op)|..] == " " + rest;
      assert |OpText(op)| == 1 ==> t[1..] == " " + rest;
      assert |OpText(op)| == 2 ==> t[1] == OpText(op)[1] && t[2..] == " " + rest && t[1..][0] == t[1];
    }
  }

  // Reading a predicate undoes writing it.
  lemma PredicateParses(schema: seq<Column>, p: Predicate, rest: string)
    requires WellFormed(schema, p) && Stops(rest)
    ensures ParsePredicate(schema, PredicateText(schema, p) + rest) == Ok(p, rest)
  {
    var name, value := schema[p.column].name, ValueText(p.value) + rest;
    var after := " " + (OpText(p.op) + (" " + value));
    assert PredicateText(schema, p) + rest == name + after;
    NameParses(name, after);
    OpParses(p.op, value);
    ValueParses(p.value, schema[p.column].columnType, rest);
  }

  // Spelling a name differently keeps it an identifier.
  lemma SameNameIsIdentifier(a: string, b: string)
    requires SameName(a, b)
    requires 1 <= |b| && (IsAlpha(b[0]) || b[0] == '_') && forall i :: 0 <= i < |b| ==> IsIdentifierChar(b[i])
    ensures IsAlpha(a[0]) || a[0] == '_'
    ensures forall i :: 0 <= i < |a| ==> IsIdentifierChar(a[i])
  {
    forall i | 0 <= i < |a| ensures IsIdentifierChar(a[i]) && (i == 0 ==> IsAlpha(a[i]) || a[i] == '_') {
      LowerKeepsClass(a[i], b[i]);
    }
  }

  lemma LowerKeepsClass(a: char, b: char)
    requires Lower(a) == Lower(b)
    ensures IsAlpha(a) <==> IsAlpha(b)
    ensures IsIdentifierChar(a) <==> IsIdentifierChar(b)
    ensures a == '_' <==> b == '_'
  {
  }

  // The parser only produces well-formed predicates, and reads something.
  lemma ParsedIsWellFormed(schema: seq<Column>, s: string)
    requires ParsePredicate(schema, s).Ok?
    ensures WellFormed(schema, ParsePredicate(schema, s).value)
  {
    var name := ParseIdentifier(s);
    var c := FindColumn(schema, name.value, 0);
    var t := SkipSpaces(s);
    assert forall i :: 0 <= i < |name.value| ==> name.value[i] == t[i];
    assert |name.value| >= 1;
    SameNameIsIdentifier(schema[c].name, name.value);
    assert SameName(schema[c].name, schema[c].name);
    forall k | 0 <= k < c ensures !SameName(schema[k].name, schema[c].name) {
      OtherName(schema[k].name, schema[c].name, name.value);
    }
  }

  lemma OtherName(a: string, b: string, c: string)
    requires SameName(b, c) && !SameName(a, c)
    ensures !SameName(a, b)
  {
  }
}
