/** A reader for the part of C++ that the generated translations header uses.

    It follows the phases of translation of ISO/IEC 14882:2011, section 2.2.  `Trigraphs` replaces
    trigraphs (phase 1, section 2.4) and `Splice` joins lines that end in a backslash (phase 2).
    `Lex` splits the text into preprocessing tokens and decodes the escapes of each string literal
    (phases 3 and 5);
    a hexadecimal escape takes every hexadecimal digit that follows it (section 2.14.3).
    `StringRun` joins adjacent string literals, after their escapes have been decoded (phase 6).
    The `Parse` functions recognise the declarations (phase 7).

    It knows what a header of this kind is made of, and nothing else: an include guard, strings, one structure with two
    members, a table of it, and one function, whose body it reads into a syntax tree.  It knows no comments, no
    expressions in initializers, no other declarators, no escapes beyond those of section 2.14.3.  So it makes nothing
    of some texts that a compiler takes.
 */
module CppReader {
  import opened Wrappers

  datatype Token =
    | Directive(line: string)
    | Ident(name: string)
    | Number(digits: string)
    | Str(value: string)
    | Punct(mark: string)
    | Bad                      // a string literal that does not end on its line, or a malformed escape

  // ---------------------------------------------------------------- phases 1 and 2

  /** What a trigraph that ends in `c` stands for. */
  function TrigraphOf(c: char): Option<char> {
    if c == '=' then Some('#')
    else if c == '/' then Some('\\')
    else if c == '\'' then Some('^')
    else if c == '(' then Some('[')
    else if c == ')' then Some(']')
    else if c == '!' then Some('|')
    else if c == '<' then Some('{')
    else if c == '>' then Some('}')
    else if c == '-' then Some('~')
    else None
  }

  predicate StartsTrigraph(s: string) {
    |s| >= 3 && s[0] == '?' && s[1] == '?' && TrigraphOf(s[2]).Some?
  }

  function Trigraphs(s: string): string
    decreases |s|
  {
    if s == [] then ""
    else if StartsTrigraph(s) then [TrigraphOf(s[2]).value] + Trigraphs(s[3..])
    else [s[0]] + Trigraphs(s[1..])
  }

  predicate StartsSplice(s: string) {
    |s| >= 2 && s[0] == '\\' && s[1] == '\n'
  }

  function Splice(s: string): string
    decreases |s|
  {
    if s == [] then ""
    else if StartsSplice(s) then Splice(s[2..])
    else [s[0]] + Splice(s[1..])
  }

  /** The text that is split into tokens. */
  function Phases(s: string): string { Splice(Trigraphs(s)) }

  // ---------------------------------------------------------------- characters

  predicate IsDigit(c: char) { '0' <= c <= '9' }

  predicate IsIdentChar(c: char) {
    IsDigit(c) || 'a' <= c <= 'z' || 'A' <= c <= 'Z' || c == '_'
  }

  predicate IsHexDigit(c: char) { IsDigit(c) || 'a' <= c <= 'f' || 'A' <= c <= 'F' }

  predicate IsOctalDigit(c: char) { '0' <= c <= '7' }

  predicate IsBlank(c: char) { c == ' ' || c == '\t' || c == '\n' }

  function HexDigitValue(c: char): (d: nat)
    requires IsHexDigit(c)
    ensures d < 16
  {
    if IsDigit(c) then c as int - '0' as int
    else if 'a' <= c <= 'f' then c as int - 'a' as int + 10
    else c as int - 'A' as int + 10
  }

  /** The length of the longest prefix of `s` whose characters all satisfy `p`. */
  function Span(p: char -> bool, s: string): (n: nat)
    ensures n <= |s|
    ensures forall i :: 0 <= i < n ==> p(s[i])
    ensures n < |s| ==> !p(s[n])
  {
    if s == [] || !p(s[0]) then 0 else 1 + Span(p, s[1..])
  }

  /** The value of a run of hexadecimal digits. */
  function HexValue(s: string): nat
    requires forall c :: c in s ==> IsHexDigit(c)
  {
    if s == [] then 0 else HexValue(s[..|s| - 1]) * 16 + HexDigitValue(s[|s| - 1])
  }

  function OctalValue(s: string): nat
    requires forall c :: c in s ==> IsOctalDigit(c)
  {
    if s == [] then 0
    else
      assert IsOctalDigit(s[|s| - 1]);
      OctalValue(s[..|s| - 1]) * 8 + (s[|s| - 1] as int - '0' as int)
  }

  // ---------------------------------------------------------------- string literals

  function SimpleEscape(c: char): Option<char> {
    if c == '\'' || c == '\"' || c == '?' || c == '\\' then Some(c)
    else if c == 'n' then Some('\n')
    else if c == 't' then Some('\t')
    else if c == 'r' then Some('\r')
    else if c == 'a' then Some(7 as char)
    else if c == 'b' then Some(8 as char)
    else if c == 'v' then Some(11 as char)
    else if c == 'f' then Some(12 as char)
    else None
  }

  /** One escape sequence; `s` starts after the backslash.  Answers the character and what follows. */
  function EscapeSequence(s: string): (r: Option<(char, string)>)
    ensures r.Some? ==> |r.value.1| < |s|
  {
    if s == [] then None
    else if s[0] == 'x' then
      var n := Span(IsHexDigit, s[1..]);
      if n == 0 || HexValue(s[1..1 + n]) >= 256 then None
      else Some((HexValue(s[1..1 + n]) as char, s[1 + n..]))
    else if IsOctalDigit(s[0]) then
      var k := Span(IsOctalDigit, s);
      var n := if k > 3 then 3 else k;
      if OctalValue(s[..n]) >= 256 then None else Some((OctalValue(s[..n]) as char, s[n..]))
    else
      var c :- SimpleEscape(s[0]);
      Some((c, s[1..]))
  }

  /** The body of a string literal; `s` starts after the opening quote.  Answers the decoded value
      and what follows the closing quote, or None when there is no such literal on this line. */
  function Literal(s: string): (r: Option<(string, string)>)
    ensures r.Some? ==> |r.value.1| < |s|
    decreases |s|
  {
    if s == [] || s[0] == '\n' then None
    else if s[0] == '\"' then Some(("", s[1..]))
    else if s[0] == '\\' then
      var (c, after) :- EscapeSequence(s[1..]);
      var (v, rest) :- Literal(after);
      Some(([c] + v, rest))
    else
      var (v, rest) :- Literal(s[1..]);
      Some(([s[0]] + v, rest))
  }

  // ---------------------------------------------------------------- tokens

  /** Two marks that lex as one. */
  predicate IsPair(c: char, d: char) {
    (c == ':' && d == ':') || (c == '-' && d == '>') || (c == '+' && d == '+') || ((c == '!' || c == '=') && d == '=')
  }

  predicate NotNewline(c: char) { c != '\n' }

  /** The first step of lexing a non-empty text: the token it yields, if any, and what is left.
      A literal that cannot be read yields `Bad` and gives up the rest of its line. */
  function Step(s: string): (r: (seq<Token>, string))
    requires s != []
    ensures |r.1| < |s|
  {
    if IsBlank(s[0]) then ([], s[1..])
    else if s[0] == '#' then
      var n := Span(NotNewline, s);
      ([Directive(s[..n])], s[n..])
    else if IsIdentChar(s[0]) then
      var n := Span(IsIdentChar, s);
      ([if IsDigit(s[0]) then Number(s[..n]) else Ident(s[..n])], s[n..])
    else if s[0] == '\"' then
      match Literal(s[1..])
      case Some((v, rest)) => ([Str(v)], rest)
      case None => ([Bad], s[Span(NotNewline, s)..])
    else if |s| >= 2 && IsPair(s[0], s[1]) then ([Punct(s[..2])], s[2..])
    else ([Punct(s[..1])], s[1..])
  }

  /** All tokens of `s`. */
  function Lex(s: string): seq<Token>
    decreases |s|
  {
    if s == [] then [] else Step(s).0 + Lex(Step(s).1)
  }

  // ---------------------------------------------------------------- declarations

  /** `static const std::string id = ...;` declares `id` with this value. */
  datatype Decl = Decl(id: string, value: string)

  /** One element of the table: the addresses of two declared strings, in the order of the members, or two null
      pointers. */
  datatype Row = Ref(first: string, second: string) | Null

  /** The structure of the elements, with its two members in order, and the name of the table. */
  datatype Shape = Shape(tag: string, first: string, second: string, table: string)

  datatype Header = Header(decls: seq<Decl>, rows: seq<Row>, shape: Shape, code: Function)

  function Expect(ts: seq<Token>, expected: seq<Token>): Option<seq<Token>> {
    if expected <= ts then Some(ts[|expected|..]) else None
  }

  /** Adjacent string literals are one literal; answers its value and the tokens after it. */
  function StringRun(ts: seq<Token>): (r: (string, seq<Token>))
    ensures |r.1| <= |ts|
    ensures ts != [] && ts[0].Str? ==> |r.1| < |ts|
  {
    if ts == [] || !ts[0].Str? then ("", ts)
    else
      var (v, rest) := StringRun(ts[1..]);
      (ts[0].value + v, rest)
  }

  function DecimalValue(s: string): nat
    requires forall c :: c in s ==> IsDigit(c)
  {
    if s == [] then 0
    else
      assert IsDigit(s[|s| - 1]);
      DecimalValue(s[..|s| - 1]) * 10 + (s[|s| - 1] as int - '0' as int)
  }

  /** The value of a decimal literal; octal, hexadecimal and suffixed literals are not read. */
  function NumberValue(s: string): Option<nat> {
    if s == [] || (exists c :: c in s && !IsDigit(c)) || (s[0] == '0' && |s| > 1) then None
    else Some(DecimalValue(s))
  }

  const NUL: char := 0 as char

  predicate NotNul(c: char) { c != NUL }

  /** The initial value of a `std::string`: copied from a literal, which ends at its first null character,
      or constructed from a literal and a count, which may reach at most the null character at its end. */
  function Initializer(ts: seq<Token>): (r: Option<(string, seq<Token>)>)
    ensures r.Some? ==> |r.value.1| < |ts|
  {
    if ts != [] && ts[0].Str? then
      var (v, rest) := StringRun(ts);
      Some((v[..Span(NotNul, v)], rest))
    else
      var args :- Expect(ts, Lex("std::string("));
      if args == [] || !args[0].Str? then None
      else
        var (v, rest) := StringRun(args);
        if |rest| < 3 || rest[0] != Punct(",") || !rest[1].Number? || rest[2] != Punct(")") then None
        else
          var n :- NumberValue(rest[1].digits);
          if n > |v| + 1 then None else Some(((v + [NUL])[..n], rest[3..]))
  }

  function Declaration(ts: seq<Token>): (r: Option<(Decl, seq<Token>)>)
    ensures r.Some? ==> |r.value.1| < |ts|
  {
    var declarator :- Expect(ts, Lex("static const std::string"));
    if |declarator| < 2 || !declarator[0].Ident? || declarator[1] != Punct("=") then None
    else
      var (v, rest) :- Initializer(declarator[2..]);
      if rest == [] || rest[0] != Punct(";") then None
      else Some((Decl(declarator[0].name, v), rest[1..]))
  }

  predicate StartsTable(ts: seq<Token>) {
    |ts| >= 3 && ts[2] == Ident("struct")
  }

  /** The string declarations up to the one of the table. */
  function Declarations(ts: seq<Token>): Option<(seq<Decl>, seq<Token>)>
    decreases |ts|
  {
    if StartsTable(ts) then Some(([], ts))
    else
      var (d, ts1) :- Declaration(ts);
      var (ds, ts2) :- Declarations(ts1);
      Some(([d] + ds, ts2))
  }

  predicate StartsRef(ts: seq<Token>) {
    |ts| >= 8
    && ts[0] == Punct("{") && ts[1] == Punct("&") && ts[2].Ident? && ts[3] == Punct(",")
    && ts[4] == Punct("&") && ts[5].Ident? && ts[6] == Punct("}") && ts[7] == Punct(",")
  }

  /** The elements of the table; the last one holds the null pointers. */
  function Rows(ts: seq<Token>): Option<(seq<Row>, seq<Token>)>
    decreases |ts|
  {
    if StartsRef(ts) then
      var (rows, rest) :- Rows(ts[8..]);
      Some(([Ref(ts[2].name, ts[5].name)] + rows, rest))
    else
      var rest :- Expect(ts, Lex("{NULL, NULL}"));
      Some(([Null], rest))
  }

  // ---------------------------------------------------------------- expressions

  datatype Expr =
    | Name(id: string)
    | NullPointer
    | Truth(value: bool)
    | Arrow(pointer: Expr, member: string)
    | Deref(pointer: Expr)
    | Same(left: Expr, right: Expr)
    | Differs(left: Expr, right: Expr)

  function Primary(ts: seq<Token>): (r: Option<(Expr, seq<Token>)>)
    ensures r.Some? ==> |r.value.1| < |ts|
  {
    if ts == [] || !ts[0].Ident? then None
    else if ts[0].name == "NULL" then Some((NullPointer, ts[1..]))
    else if ts[0].name == "true" then Some((Truth(true), ts[1..]))
    else if ts[0].name == "false" then Some((Truth(false), ts[1..]))
    else Some((Name(ts[0].name), ts[1..]))
  }

  /** The members that are selected from `e`. */
  function Arrows(e: Expr, ts: seq<Token>): (r: (Expr, seq<Token>))
    ensures |r.1| <= |ts|
    decreases |ts|
  {
    if |ts| >= 2 && ts[0] == Punct("->") && ts[1].Ident? then Arrows(Arrow(e, ts[1].name), ts[2..]) else (e, ts)
  }

  function Unary(ts: seq<Token>): (r: Option<(Expr, seq<Token>)>)
    ensures r.Some? ==> |r.value.1| < |ts|
    decreases |ts|
  {
    if ts != [] && ts[0] == Punct("*") then
      var (e, rest) :- Unary(ts[1..]);
      Some((Deref(e), rest))
    else
      var (e, rest) :- Primary(ts);
      Some(Arrows(e, rest))
  }

  function Expression(ts: seq<Token>): (r: Option<(Expr, seq<Token>)>)
    ensures r.Some? ==> |r.value.1| < |ts|
  {
    var (a, rest) :- Unary(ts);
    if rest != [] && rest[0] == Punct("==") then
      var (b, more) :- Unary(rest[1..]);
      Some((Same(a, b), more))
    else if rest != [] && rest[0] == Punct("!=") then
      var (b, more) :- Unary(rest[1..]);
      Some((Differs(a, b), more))
    else Some((a, rest))
  }

  // ---------------------------------------------------------------- statements

  /** A block is a chain of `Then` that ends in `Done`. */
  datatype Stmt =
    | Done
    | Then(first: Stmt, rest: Stmt)
    | Local(tag: string, id: string)                                               // const struct tag *id;
    | Assign(id: string, value: Expr)
    | Return(value: Expr)
    | If(test: Expr, body: Stmt)
    | For(id: string, start: Expr, test: Expr, next: string, body: Stmt)          // for (id = start; test; next++)

  function Skip(ts: seq<Token>, mark: string): (r: Option<seq<Token>>)
    ensures r.Some? ==> |r.value| < |ts|
  {
    if ts != [] && ts[0] == Punct(mark) then Some(ts[1..]) else None
  }

  /** `id mark`, as in `p =` or `p++`. */
  predicate StartsWith(ts: seq<Token>, mark: string) {
    |ts| >= 2 && ts[0].Ident? && ts[1] == Punct(mark)
  }

  predicate StartsLocal(ts: seq<Token>) {
    && |ts| >= 6 && ts[0] == Ident("const") && ts[1] == Ident("struct") && ts[2].Ident? && ts[3] == Punct("*")
    && ts[4].Ident? && ts[5] == Punct(";")
  }

  function Statement(ts: seq<Token>): (r: Option<(Stmt, seq<Token>)>)
    ensures r.Some? ==> |r.value.1| < |ts|
    decreases |ts|, 0
  {
    if ts == [] then None
    else if ts[0] == Ident("return") then
      var (e, after) :- Expression(ts[1..]);
      var rest :- Skip(after, ";");
      Some((Return(e), rest))
    else if ts[0] == Ident("if") then
      var head :- Skip(ts[1..], "(");
      var (test, after) :- Expression(head);
      var close :- Skip(after, ")");
      var open :- Skip(close, "{");
      var (body, rest) :- Statements(open);
      Some((If(test, body), rest))
    else if ts[0] == Ident("for") then
      var head :- Skip(ts[1..], "(");
      var (loop, open) :- LoopHead(head);
      var (body, rest) :- Statements(open);
      Some((For(loop.id, loop.start, loop.test, loop.next, body), rest))
    else if StartsLocal(ts) then Some((Local(ts[2].name, ts[4].name), ts[6..]))
    else if StartsWith(ts, "=") then
      var (e, after) :- Expression(ts[2..]);
      var rest :- Skip(after, ";");
      Some((Assign(ts[0].name, e), rest))
    else None
  }

  datatype Loop = Loop(id: string, start: Expr, test: Expr, next: string)

  /** `id = start; test; next++) {` */
  function LoopHead(ts: seq<Token>): (r: Option<(Loop, seq<Token>)>)
    ensures r.Some? ==> |r.value.1| < |ts|
  {
    if !StartsWith(ts, "=") then None
    else
      var (start, after) :- Expression(ts[2..]);
      var second :- Skip(after, ";");
      var (test, afterTest) :- Expression(second);
      var third :- Skip(afterTest, ";");
      if !StartsWith(third, "++") then None
      else
        var close :- Skip(third[2..], ")");
        var open :- Skip(close, "{");
        Some((Loop(ts[0].name, start, test, third[0].name), open))
  }

  /** The statements up to the end of the block. */
  function Statements(ts: seq<Token>): (r: Option<(Stmt, seq<Token>)>)
    ensures r.Some? ==> |r.value.1| < |ts|
    decreases |ts|, 1
  {
    if ts != [] && ts[0] == Punct("}") then Some((Done, ts[1..]))
    else
      var (first, after) :- Statement(ts);
      var (more, rest) :- Statements(after);
      Some((Then(first, more), rest))
  }

  /** `static bool name(const std::string &key, std::string &result) { body }` */
  datatype Function = Function(name: string, key: string, result: string, body: Stmt)

  predicate StartsFunction(ts: seq<Token>) {
    && |ts| >= 18
    && ts[0] == Ident("static") && ts[1] == Ident("bool") && ts[2].Ident? && ts[3] == Punct("(")
    && ts[4] == Ident("const") && ts[5] == Ident("std") && ts[6] == Punct("::") && ts[7] == Ident("string")
    && ts[8] == Punct("&") && ts[9].Ident? && ts[10] == Punct(",")
    && ts[11] == Ident("std") && ts[12] == Punct("::") && ts[13] == Ident("string")
    && ts[14] == Punct("&") && ts[15].Ident? && ts[16] == Punct(")") && ts[17] == Punct("{")
  }

  function ParseFunction(ts: seq<Token>): (r: Option<(Function, seq<Token>)>)
    ensures r.Some? ==> |r.value.1| < |ts|
  {
    if !StartsFunction(ts) then None
    else
      var (body, rest) :- Statements(ts[18..]);
      Some((Function(ts[2].name, ts[9].name, ts[15].name, body), rest))
  }

  // ---------------------------------------------------------------- the whole header

  /** `static const struct tag { const std::string *first; const std::string *second; } table[] = {` */
  predicate StartsShape(ts: seq<Token>) {
    && |ts| >= 25
    && ts[0] == Ident("static") && ts[1] == Ident("const") && ts[2] == Ident("struct") && ts[3].Ident?
    && ts[4] == Punct("{") && StartsMember(ts[5..12]) && StartsMember(ts[12..19]) && ts[19] == Punct("}")
    && ts[20].Ident? && ts[21] == Punct("[") && ts[22] == Punct("]") && ts[23] == Punct("=") && ts[24] == Punct("{")
  }

  predicate StartsMember(ts: seq<Token>) {
    && |ts| == 7 && ts[0] == Ident("const") && ts[1] == Ident("std") && ts[2] == Punct("::") && ts[3] == Ident("string")
    && ts[4] == Punct("*") && ts[5].Ident? && ts[6] == Punct(";")
  }

  predicate Declares(decls: seq<Decl>, id: string) {
    exists k :: 0 <= k < |decls| && decls[k].id == id
  }

  /** No string is declared twice, and the table refers to declared strings only. */
  predicate WellFormed(h: Header) {
    && (forall j, k :: 0 <= j < k < |h.decls| ==> h.decls[j].id != h.decls[k].id)
    && (forall k :: 0 <= k < |h.rows| && h.rows[k].Ref? ==>
          Declares(h.decls, h.rows[k].first) && Declares(h.decls, h.rows[k].second))
  }

  datatype Table = Table(shape: Shape, rows: seq<Row>, code: Function)

  predicate IsEnd(ts: seq<Token>) { |ts| == 1 && ts[0].Directive? && ENDIF <= ts[0].line }

  /** The table, the function and the end of the header. */
  function ParseTable(ts: seq<Token>): Option<Table> {
    if !StartsShape(ts) then None
    else
      var (rows, close) :- Rows(ts[25..]);
      var after :- Skip(close, "}");
      var definition :- Skip(after, ";");
      var (code, end) :- ParseFunction(definition);
      if IsEnd(end) then Some(Table(Shape(ts[3].name, ts[10].name, ts[17].name, ts[20].name), rows, code)) else None
  }

  const IFNDEF := "#ifndef "
  const DEFINE := "#define "
  const INCLUDE := "#include <string>"
  const ENDIF := "#endif"

  /** The macro that an `#ifndef` asks for. */
  function Asked(line: string): Option<string> {
    if IFNDEF <= line then Some(line[|IFNDEF|..]) else None
  }

  /** An include guard and the header that declares `std::string`. */
  predicate StartsGuard(ts: seq<Token>) {
    && |ts| >= 3 && ts[0].Directive? && ts[1].Directive? && ts[2].Directive?
    && Asked(ts[0].line).Some? && ts[1].line == DEFINE + Asked(ts[0].line).value && ts[2].line == INCLUDE
  }

  function ParseHeader(ts: seq<Token>): Option<Header> {
    if !StartsGuard(ts) then None
    else
      var (decls, after) :- Declarations(ts[3..]);
      var table :- ParseTable(after);
      Some(Header(decls, table.rows, table.shape, table.code))
  }

  /** The header that this reader finds in `text`, or None when it makes nothing of it. */
  function ReadHeader(text: string): Option<Header> {
    var h :- ParseHeader(Lex(Phases(text)));
    if WellFormed(h) then Some(h) else None
  }
}
