/** The function that the header ends with, read from its text into a syntax tree. */
module FindParsing {
  import opened Wrappers
  import opened CppReader
  import opened HeaderPrinter
  import opened FixedTokens

  // ---------------------------------------------------------------- the tokens of each line

  const SIGNATURE_TOKENS := [
    Ident("static"), Ident("bool"), Ident("find_embedded_file"), Punct("("), Ident("const"), Ident("std"), Punct("::"),
    Ident("string"), Punct("&"), Ident("name"), Punct(","), Ident("std"), Punct("::"), Ident("string"), Punct("&"),
    Ident("data"), Punct(")"), Punct("{")]

  lemma SignatureTokens(t: string)
    ensures Lex(SIGNATURE_LINE + t) == SIGNATURE_TOKENS + Lex(t)
  {
    hide Lex;
    var a, b, c, d, e, f := "static bool ", "find_embedded_file(const ", "std::string ", "&name, ", "std::string ",
      "&data) {\n";
    SixPieces(a, b, c, d, e, f, t);
    Signature1(b + (c + (d + (e + (f + t)))));
    Signature2(c + (d + (e + (f + t))));
    StringTokens(d + (e + (f + t)));
    Signature3(e + (f + t));
    StringTokens(f + t);
    Signature4(t);
  }

  lemma SixPieces(a: string, b: string, c: string, d: string, e: string, f: string, t: string)
    ensures a + b + c + d + e + f + t == a + (b + (c + (d + (e + (f + t)))))
  {
    CatAssoc(a + b + c + d + e, f, t);
    FivePieces(a, b, c, d, e, f + t);
  }

  lemma FivePieces(a: string, b: string, c: string, d: string, e: string, t: string)
    ensures a + b + c + d + e + t == a + (b + (c + (d + (e + t))))
  {
    CatAssoc(a + b + c + d, e, t);
    FourPieces(a, b, c, d, e + t);
  }

  lemma FourPieces(a: string, b: string, c: string, d: string, t: string)
    ensures a + b + c + d + t == a + (b + (c + (d + t)))
  {
    CatAssoc(a + b + c, d, t);
    CatAssoc(a + b, c, d + t);
    CatAssoc(a, b, c + (d + t));
  }

  const LOCAL_TOKENS := [Ident("const"), Ident("struct"), Ident("embedded_file"), Punct("*"), Ident("p"), Punct(";")]

  lemma LocalTokens(t: string)
    ensures Lex(LOCAL_LINE + t) == LOCAL_TOKENS + Lex(t)
  {
    hide Lex;
    CatAssoc("  const struct ", "embedded_file *p;\n", t);
    Local1("embedded_file *p;\n" + t);
    Local2(t);
  }

  const LOOP_TOKENS := [
    Ident("for"), Punct("("), Ident("p"), Punct("="), Ident("embedded_files"), Punct(";"), Ident("p"), Punct("->"),
    Ident("name"), Punct("!="), Ident("NULL"), Punct(";"), Ident("p"), Punct("++"), Punct(")"), Punct("{")]

  lemma LoopTokens(t: string)
    ensures Lex(LOOP_LINE + t) == LOOP_TOKENS + Lex(t)
  {
    hide Lex;
    var a, b, c, d, e := "  for (p = ", "embedded_files; ", "p->name != ", "NULL; ", "p++) {\n";
    FivePieces(a, b, c, d, e, t);
    Loop1(b + (c + (d + (e + t))));
    Loop2(c + (d + (e + t)));
    Loop3(d + (e + t));
    Loop4(e + t);
    Loop5(t);
  }

  const TEST_TOKENS := [
    Ident("if"), Punct("("), Punct("*"), Ident("p"), Punct("->"), Ident("name"), Punct("=="), Ident("name"), Punct(")"),
    Punct("{")]

  lemma TestTokens(t: string)
    ensures Lex(TEST_LINE + t) == TEST_TOKENS + Lex(t)
  {
    hide Lex;
    var a, b, c := "    if ", "(*p->name ", "== name) {\n";
    CatAssoc(a + b, c, t);
    CatAssoc(a, b, c + t);
    Test1(b + (c + t));
    Test2(c + t);
    Test3(t);
  }

  const COPY_TOKENS := [
    Ident("data"), Punct("="), Punct("*"), Ident("p"), Punct("->"), Ident("data"), Punct(";")]

  lemma CopyTokens(t: string)
    ensures Lex(COPY_LINE + t) == COPY_TOKENS + Lex(t)
  {
    hide Lex;
    CatAssoc("      data = ", "*p->data;\n", t);
    Copy1("*p->data;\n" + t);
    Copy2(t);
  }

  const FOUND_TOKENS := [Ident("return"), Ident("true"), Punct(";")]
  const MISSING_TOKENS := [Ident("return"), Ident("false"), Punct(";")]
  const CLOSE := [Punct("}")]

  /** The tokens of the function, followed by `rest`. */
  function FindTokens(rest: seq<Token>): seq<Token> {
    SIGNATURE_TOKENS + (LOCAL_TOKENS + (LOOP_TOKENS + (TEST_TOKENS + (COPY_TOKENS + (FOUND_TOKENS
      + (CLOSE + (CLOSE + (MISSING_TOKENS + (CLOSE + rest)))))))))
  }

  lemma CodeTokens(t: string)
    ensures Lex(CODE + t) == FindTokens(Lex(t))
  {
    hide Lex, SIGNATURE_LINE, LOCAL_LINE, LOOP_LINE, TEST_LINE, COPY_LINE;
    var t9 := "}\n" + t;
    var t8 := MISSING_LINE + t9;
    var t7 := "  }\n" + t8;
    var t6 := "    }\n" + t7;
    var t5 := FOUND_LINE + t6;
    var t4 := COPY_LINE + t5;
    CodePieces(t);
    SignatureTokens(LOCAL_LINE + (LOOP_LINE + (TEST_LINE + t4)));
    LocalTokens(LOOP_LINE + (TEST_LINE + t4));
    LoopTokens(TEST_LINE + t4);
    TestTokens(t4);
    CopyTokens(t5);
    Found(t6);
    CloseIf(t7);
    CloseLoop(t8);
    Missing(t9);
    CloseBody(t);
  }

  lemma CodePieces(t: string)
    ensures CODE + t == SIGNATURE_LINE + (LOCAL_LINE + (LOOP_LINE + (TEST_LINE + (COPY_LINE + (FOUND_LINE + ("    }\n"
      + ("  }\n" + (MISSING_LINE + ("}\n" + t)))))))))
  {
    var head := SIGNATURE_LINE + LOCAL_LINE + LOOP_LINE + TEST_LINE + COPY_LINE;
    hide SIGNATURE_LINE, LOCAL_LINE, LOOP_LINE, TEST_LINE, COPY_LINE, FOUND_LINE, MISSING_LINE;
    SixPieces(head, FOUND_LINE, "    }\n", "  }\n", MISSING_LINE, "}\n", t);
    FivePieces(SIGNATURE_LINE, LOCAL_LINE, LOOP_LINE, TEST_LINE, COPY_LINE,
               FOUND_LINE + ("    }\n" + ("  }\n" + (MISSING_LINE + ("}\n" + t)))));
  }

  // ---------------------------------------------------------------- the tree

  const COPY := Assign("data", Deref(Arrow(Name("p"), "data")))
  const FOUND := Return(Truth(true))
  const TEST := If(Same(Deref(Arrow(Name("p"), "name")), Name("name")), Then(COPY, Then(FOUND, Done)))
  const LOOP := For("p", Name("embedded_files"), Differs(Arrow(Name("p"), "name"), NullPointer), "p", Then(TEST, Done))
  const MISSING := Return(Truth(false))

  /** `find_embedded_file` */
  const FIND := Function("find_embedded_file", "name", "data",
                         Then(Local("embedded_file", "p"), Then(LOOP, Then(MISSING, Done))))

  // ---------------------------------------------------------------- expressions

  /** `rest` starts with no operator. */
  predicate Ends(rest: seq<Token>) {
    rest != [] && rest[0] != Punct("->") && rest[0] != Punct("==") && rest[0] != Punct("!=")
  }

  lemma MarksDiffer()
    ensures "->" != "==" && "->" != "!=" && "->" != ";" && "->" != ")" && "==" != "!=" && ";" != "==" && ";" != "!="
    ensures ")" != "==" && ")" != "!="
  {}

  lemma OrdinaryNames()
    ensures "p" != "NULL" && "p" != "true" && "p" != "false"
    ensures "name" != "NULL" && "name" != "true" && "name" != "false"
    ensures "embedded_files" != "NULL" && "embedded_files" != "true" && "embedded_files" != "false"
    ensures "NULL" != "true" && "NULL" != "false" && "true" != "false"
  {
    assert "name"[0] != "NULL"[0] && "name"[0] != "true"[0] && "NULL"[0] != "true"[0];
  }

  lemma OneToken(w: string, rest: seq<Token>, e: Expr)
    requires rest != [] && rest[0] != Punct("->") && Primary([Ident(w)] + rest) == Some((e, rest))
    ensures Unary([Ident(w)] + rest) == Some((e, rest))
  {
    hide Primary;
    assert ([Ident(w)] + rest)[0] != Punct("*");
  }

  lemma NameToken(w: string, rest: seq<Token>)
    requires w != "NULL" && w != "true" && w != "false"
    ensures Primary([Ident(w)] + rest) == Some((Name(w), rest))
  {
    assert ([Ident(w)] + rest)[1..] == rest;
  }

  lemma KeywordTokens(rest: seq<Token>)
    ensures Primary([Ident("NULL")] + rest) == Some((NullPointer, rest))
    ensures Primary([Ident("true")] + rest) == Some((Truth(true), rest))
    ensures Primary([Ident("false")] + rest) == Some((Truth(false), rest))
  {
    OrdinaryNames();
    assert ([Ident("NULL")] + rest)[1..] == rest;
    assert ([Ident("true")] + rest)[1..] == rest;
    assert ([Ident("false")] + rest)[1..] == rest;
  }

  lemma Alone(ts: seq<Token>, e: Expr, rest: seq<Token>)
    requires Unary(ts) == Some((e, rest)) && Ends(rest)
    ensures Expression(ts) == Some((e, rest))
  {
    hide Unary;
  }

  lemma Equal(ts: seq<Token>, a: Expr, after: seq<Token>, b: Expr, rest: seq<Token>)
    requires Unary(ts) == Some((a, [Punct("==")] + after)) && Unary(after) == Some((b, rest))
    ensures Expression(ts) == Some((Same(a, b), rest))
  {
    hide Unary;
    assert ([Punct("==")] + after)[1..] == after;
  }

  lemma Unequal(ts: seq<Token>, a: Expr, after: seq<Token>, b: Expr, rest: seq<Token>)
    requires Unary(ts) == Some((a, [Punct("!=")] + after)) && Unary(after) == Some((b, rest))
    ensures Expression(ts) == Some((Differs(a, b), rest))
  {
    hide Unary;
    MarksDiffer();
    assert ([Punct("!=")] + after)[1..] == after;
  }

  /** `p->m` */
  lemma Member(m: string, rest: seq<Token>)
    requires rest != [] && rest[0] != Punct("->")
    ensures Unary([Ident("p")] + ([Punct("->"), Ident(m)] + rest)) == Some((Arrow(Name("p"), m), rest))
  {
    var arrow := [Punct("->"), Ident(m)] + rest;
    assert ([Ident("p")] + arrow)[0] != Punct("*");
    OrdinaryNames();
    NameToken("p", arrow);
    hide Primary;
    Selected(Name("p"), m, rest);
  }

  lemma Selected(e: Expr, m: string, rest: seq<Token>)
    requires rest != [] && rest[0] != Punct("->")
    ensures Arrows(e, [Punct("->"), Ident(m)] + rest) == (Arrow(e, m), rest)
  {
    var ts := [Punct("->"), Ident(m)] + rest;
    assert ts[2..] == rest;
    assert Arrows(Arrow(e, m), rest) == (Arrow(e, m), rest);
  }

  /** `*p->m` */
  lemma MemberValue(m: string, rest: seq<Token>)
    requires rest != [] && rest[0] != Punct("->")
    ensures Unary([Punct("*")] + ([Ident("p")] + ([Punct("->"), Ident(m)] + rest)))
         == Some((Deref(Arrow(Name("p"), m)), rest))
  {
    var ts := [Ident("p")] + ([Punct("->"), Ident(m)] + rest);
    assert ([Punct("*")] + ts)[1..] == ts;
    Member(m, rest);
  }

  // ---------------------------------------------------------------- statements

  lemma Follows(ts: seq<Token>, first: Stmt, after: seq<Token>, more: Stmt, rest: seq<Token>)
    requires ts != [] && ts[0].Ident? && Statement(ts) == Some((first, after))
    requires Statements(after) == Some((more, rest))
    ensures Statements(ts) == Some((Then(first, more), rest))
  {
    hide Statement;
  }

  lemma EndsBlock(rest: seq<Token>)
    ensures Statements(CLOSE + rest) == Some((Done, rest))
  {
    assert (CLOSE + rest)[1..] == rest;
  }

  lemma SkipMark(m: string, rest: seq<Token>)
    ensures Skip([Punct(m)] + rest, m) == Some(rest)
  {
    assert ([Punct(m)] + rest)[1..] == rest;
  }

  lemma ParseReturn(w: string, e: Expr, rest: seq<Token>)
    requires Primary([Ident(w)] + ([Punct(";")] + rest)) == Some((e, [Punct(";")] + rest))
    ensures Statement([Ident("return"), Ident(w), Punct(";")] + rest) == Some((Return(e), rest))
  {
    var end := [Punct(";")] + rest;
    var value := [Ident(w)] + end;
    assert ([Ident("return"), Ident(w), Punct(";")] + rest)[1..] == value;
    hide Primary;
    MarksDiffer();
    OneToken(w, end, e);
    Alone(value, e, end);
    hide Expression;
    SkipMark(";", rest);
  }

  lemma ParseFound(rest: seq<Token>)
    ensures Statement(FOUND_TOKENS + rest) == Some((FOUND, rest))
    ensures Statement(MISSING_TOKENS + rest) == Some((MISSING, rest))
  {
    hide Statement;
    KeywordTokens([Punct(";")] + rest);
    ParseReturn("true", Truth(true), rest);
    ParseReturn("false", Truth(false), rest);
  }

  lemma Keywords()
    ensures "data" != "return" && "data" != "if" && "data" != "for" && "data" != "const"
    ensures "const" != "return" && "const" != "if" && "const" != "for" && "if" != "return" && "for" != "return"
    ensures "for" != "if"
  {
    assert "const"[0] != "return"[0];
  }

  lemma ParseCopy(rest: seq<Token>)
    ensures Statement(COPY_TOKENS + rest) == Some((COPY, rest))
  {
    var ts, end := COPY_TOKENS + rest, [Punct(";")] + rest;
    var value := [Punct("*")] + ([Ident("p")] + ([Punct("->"), Ident("data")] + end));
    assert ts[2..] == value;
    MarksDiffer();
    MemberValue("data", end);
    hide Unary;
    Alone(value, COPY.value, end);
    hide Expression;
    SkipMark(";", rest);
    Keywords();
  }

  lemma ParseBody(rest: seq<Token>)
    ensures Statements(COPY_TOKENS + (FOUND_TOKENS + (CLOSE + rest))) == Some((Then(COPY, Then(FOUND, Done)), rest))
  {
    hide Statement, Statements;
    EndsBlock(rest);
    ParseFound(CLOSE + rest);
    var more := FOUND_TOKENS + (CLOSE + rest);
    Follows(more, FOUND, CLOSE + rest, Done, rest);
    ParseCopy(more);
    Follows(COPY_TOKENS + more, COPY, more, Then(FOUND, Done), rest);
  }

  /** `*p->name == name) {` */
  lemma ParseCondition(rest: seq<Token>)
    ensures var ts := [Punct("*")] + ([Ident("p")] + ([Punct("->"), Ident("name")] + ([Punct("==")] + ([Ident("name")]
        + ([Punct(")")] + rest)))));
      Expression(ts) == Some((TEST.test, [Punct(")")] + rest))
  {
    hide Unary, Expression, Primary;
    var close := [Punct(")")] + rest;
    var right := [Ident("name")] + close;
    MarksDiffer();
    OrdinaryNames();
    MemberValue("name", [Punct("==")] + right);
    NameToken("name", close);
    OneToken("name", close, Name("name"));
    Equal([Punct("*")] + ([Ident("p")] + ([Punct("->"), Ident("name")] + ([Punct("==")] + right))),
          Deref(Arrow(Name("p"), "name")), right, Name("name"), close);
  }

  lemma ParseTest(rest: seq<Token>)
    ensures Statement(TEST_TOKENS + (COPY_TOKENS + (FOUND_TOKENS + (CLOSE + rest)))) == Some((TEST, rest))
  {
    var body := COPY_TOKENS + (FOUND_TOKENS + (CLOSE + rest));
    ParseBody(rest);
    IfBlock(TEST.test, body, TEST.body, rest);
  }

  lemma IfBlock(test: Expr, body: seq<Token>, tree: Stmt, rest: seq<Token>)
    requires test == TEST.test && Statements(body) == Some((tree, rest))
    ensures Statement(TEST_TOKENS + body) == Some((If(test, tree), rest))
  {
    hide Statements, Expression;
    var open := [Punct("{")] + body;
    var head := [Punct("*")] + ([Ident("p")] + ([Punct("->"), Ident("name")] + ([Punct("==")] + ([Ident("name")]
      + ([Punct(")")] + open)))));
    var ts := TEST_TOKENS + body;
    assert ts[1..] == [Punct("(")] + head;
    SkipMark("(", head);
    ParseCondition(open);
    SkipMark(")", open);
    SkipMark("{", body);
    Keywords();
  }

  /** `p->name != NULL; p++) {` */
  lemma ParseLoopTest(rest: seq<Token>)
    ensures var ts := [Ident("p")] + ([Punct("->"), Ident("name")] + ([Punct("!=")] + ([Ident("NULL")]
        + ([Punct(";")] + rest))));
      Expression(ts) == Some((LOOP.test, [Punct(";")] + rest))
  {
    hide Unary, Expression, Primary;
    var end := [Punct(";")] + rest;
    var right := [Ident("NULL")] + end;
    MarksDiffer();
    Member("name", [Punct("!=")] + right);
    KeywordTokens(end);
    OneToken("NULL", end, NullPointer);
    Unequal([Ident("p")] + ([Punct("->"), Ident("name")] + ([Punct("!=")] + right)),
            Arrow(Name("p"), "name"), right, NullPointer, end);
  }

  lemma ParseLoopHead(rest: seq<Token>)
    ensures LoopHead(LOOP_TOKENS[2..] + rest) == Some((Loop(LOOP.id, LOOP.start, LOOP.test, LOOP.next), rest))
  {
    hide Expression, Unary, Primary;
    var close := [Punct(")")] + ([Punct("{")] + rest);
    var third := [Ident("p"), Punct("++")] + close;
    var second := [Ident("p")] + ([Punct("->"), Ident("name")] + ([Punct("!=")] + ([Ident("NULL")]
      + ([Punct(";")] + third))));
    var start := [Ident("embedded_files")] + ([Punct(";")] + second);
    LoopTexts(rest, start, third, close);
    MarksDiffer();
    OrdinaryNames();
    NameToken("embedded_files", [Punct(";")] + second);
    OneToken("embedded_files", [Punct(";")] + second, Name("embedded_files"));
    Alone(start, Name("embedded_files"), [Punct(";")] + second);
    SkipMark(";", second);
    ParseLoopTest(third);
    SkipMark(";", third);
    SkipMark(")", [Punct("{")] + rest);
    SkipMark("{", rest);
  }

  lemma LoopTexts(rest: seq<Token>, start: seq<Token>, third: seq<Token>, close: seq<Token>)
    requires close == [Punct(")")] + ([Punct("{")] + rest) && third == [Ident("p"), Punct("++")] + close
    requires start == [Ident("embedded_files")] + ([Punct(";")] + ([Ident("p")] + ([Punct("->"), Ident("name")]
      + ([Punct("!=")] + ([Ident("NULL")] + ([Punct(";")] + third))))))
    ensures LOOP_TOKENS[2..] + rest == [Ident("p"), Punct("=")] + start
    ensures ([Ident("p"), Punct("=")] + start)[2..] == start && third[2..] == close
  {}

  lemma ParseLoop(rest: seq<Token>)
    ensures Statement(LOOP_TOKENS + (TEST_TOKENS + (COPY_TOKENS + (FOUND_TOKENS + (CLOSE + (CLOSE + rest))))))
         == Some((LOOP, rest))
  {
    var body := TEST_TOKENS + (COPY_TOKENS + (FOUND_TOKENS + (CLOSE + (CLOSE + rest))));
    hide Statements;
    LoopBody(rest);
    ForBlock(body, LOOP.body, rest);
  }

  lemma ForBlock(body: seq<Token>, tree: Stmt, rest: seq<Token>)
    requires Statements(body) == Some((tree, rest))
    ensures Statement(LOOP_TOKENS + body) == Some((For(LOOP.id, LOOP.start, LOOP.test, LOOP.next, tree), rest))
  {
    hide LoopHead, Statements;
    var ts, head := LOOP_TOKENS + body, LOOP_TOKENS[2..] + body;
    assert ts[1..] == [Punct("(")] + head;
    SkipMark("(", head);
    ParseLoopHead(body);
    Keywords();
  }

  lemma LoopBody(rest: seq<Token>)
    ensures Statements(TEST_TOKENS + (COPY_TOKENS + (FOUND_TOKENS + (CLOSE + (CLOSE + rest)))))
         == Some((Then(TEST, Done), rest))
  {
    hide Statement, Statements;
    ParseTest(CLOSE + rest);
    EndsBlock(rest);
    Follows(TEST_TOKENS + (COPY_TOKENS + (FOUND_TOKENS + (CLOSE + (CLOSE + rest)))), TEST, CLOSE + rest, Done, rest);
  }

  lemma ParseLocal(rest: seq<Token>)
    ensures Statement(LOCAL_TOKENS + rest) == Some((Local("embedded_file", "p"), rest))
  {
    Keywords();
    assert (LOCAL_TOKENS + rest)[6..] == rest;
  }

  lemma FindBody(rest: seq<Token>)
    ensures Statements(LOCAL_TOKENS + (LOOP_TOKENS + (TEST_TOKENS + (COPY_TOKENS + (FOUND_TOKENS
      + (CLOSE + (CLOSE + (MISSING_TOKENS + (CLOSE + rest)))))))))
         == Some((FIND.body, rest))
  {
    hide Statement, Statements;
    var last := MISSING_TOKENS + (CLOSE + rest);
    var loop := LOOP_TOKENS + (TEST_TOKENS + (COPY_TOKENS + (FOUND_TOKENS + (CLOSE + (CLOSE + last)))));
    EndsBlock(rest);
    ParseFound(CLOSE + rest);
    Follows(last, MISSING, CLOSE + rest, Done, rest);
    ParseLoop(last);
    Follows(loop, LOOP, last, Then(MISSING, Done), rest);
    ParseLocal(loop);
    Follows(LOCAL_TOKENS + loop, Local("embedded_file", "p"), loop, Then(LOOP, Then(MISSING, Done)), rest);
  }

  lemma WithBody(body: seq<Token>, tree: Stmt, rest: seq<Token>)
    requires Statements(body) == Some((tree, rest))
    ensures ParseFunction(SIGNATURE_TOKENS + body) == Some((Function("find_embedded_file", "name", "data", tree), rest))
  {
    hide Statements, StartsFunction, SIGNATURE_TOKENS;
    SignatureStarts();
    FunctionStarts(SIGNATURE_TOKENS, body);
  }

  lemma SignatureStarts()
    ensures |SIGNATURE_TOKENS| == 18 && StartsFunction(SIGNATURE_TOKENS)
    ensures SIGNATURE_TOKENS[2] == Ident("find_embedded_file")
    ensures SIGNATURE_TOKENS[9] == Ident("name") && SIGNATURE_TOKENS[15] == Ident("data")
  {}

  lemma FunctionStarts(ts: seq<Token>, rest: seq<Token>)
    requires |ts| == 18 && StartsFunction(ts)
    ensures StartsFunction(ts + rest) && (ts + rest)[18..] == rest
    ensures (ts + rest)[2] == ts[2] && (ts + rest)[9] == ts[9] && (ts + rest)[15] == ts[15]
  {}

  /** The text of the function is read into this tree. */
  lemma CodeParses(t: string)
    ensures ParseFunction(Lex(CODE + t)) == Some((FIND, Lex(t)))
  {
    hide Lex, Statements, SIGNATURE_TOKENS, LOCAL_TOKENS, LOOP_TOKENS, TEST_TOKENS, COPY_TOKENS, FOUND_TOKENS,
      MISSING_TOKENS, ParseFunction;
    CodeTokens(t);
    var rest := Lex(t);
    FindBody(rest);
    WithBody(LOCAL_TOKENS + (LOOP_TOKENS + (TEST_TOKENS + (COPY_TOKENS + (FOUND_TOKENS
      + (CLOSE + (CLOSE + (MISSING_TOKENS + (CLOSE + rest)))))))), FIND.body, rest);
  }

  // ---------------------------------------------------------------- the table

  const SHAPE := Shape("embedded_file", "name", "data", "embedded_files")

  const STRUCT_TOKENS := [Ident("static"), Ident("const"), Ident("struct"), Ident("embedded_file"), Punct("{")]
  const TABLE_TOKENS := [Punct("}"), Ident("embedded_files"), Punct("["), Punct("]"), Punct("="), Punct("{")]

  function MemberTokens(m: string): seq<Token> {
    [Ident("const"), Ident("std"), Punct("::"), Ident("string"), Punct("*"), Ident(m), Punct(";")]
  }

  const SHAPE_TOKENS := STRUCT_TOKENS + (MemberTokens("name") + (MemberTokens("data") + TABLE_TOKENS))

  lemma StructTokens(t: string)
    ensures Lex(STRUCT_LINE + t) == STRUCT_TOKENS + Lex(t)
  {
    hide Lex;
    CatAssoc("static const struct ", "embedded_file {\n", t);
    Struct1("embedded_file {\n" + t);
    Struct2(t);
  }

  lemma MemberLines(t: string)
    ensures Lex(NAME_LINE + t) == MemberTokens("name") + Lex(t)
    ensures Lex(DATA_LINE + t) == MemberTokens("data") + Lex(t)
  {
    hide Lex;
    var a, b := "  const ", "std::string ";
    CatAssoc(a + b, "*name;\n", t);
    CatAssoc(a, b, "*name;\n" + t);
    Member1(b + ("*name;\n" + t));
    StringTokens("*name;\n" + t);
    Member2(t);
    CatAssoc(a + b, "*data;\n", t);
    CatAssoc(a, b, "*data;\n" + t);
    Member1(b + ("*data;\n" + t));
    StringTokens("*data;\n" + t);
    Member3(t);
  }

  lemma TableLine(t: string)
    ensures Lex(TABLE_LINE + t) == TABLE_TOKENS + Lex(t)
  {
    hide Lex;
    var a, b, c := "} ", "embedded_files[] ", "= {\n";
    CatAssoc(a + b, c, t);
    CatAssoc(a, b, c + t);
    Table1(b + (c + t));
    Table2(c + t);
    Table3(t);
  }

  lemma TableTypeTokens(t: string)
    ensures Lex(TABLE_TYPE + t) == SHAPE_TOKENS + Lex(t)
  {
    hide Lex, STRUCT_LINE, NAME_LINE, DATA_LINE, TABLE_LINE, STRUCT_TOKENS, MemberTokens, TABLE_TOKENS;
    FourPieces(STRUCT_LINE, NAME_LINE, DATA_LINE, TABLE_LINE, t);
    StructTokens(NAME_LINE + (DATA_LINE + (TABLE_LINE + t)));
    MemberLines(DATA_LINE + (TABLE_LINE + t));
    MemberLines(TABLE_LINE + t);
    TableLine(t);
  }

  lemma ShapeStarts(rest: seq<Token>)
    ensures var ts := SHAPE_TOKENS + rest;
      && StartsShape(ts) && Shape(ts[3].name, ts[10].name, ts[17].name, ts[20].name) == SHAPE && ts[25..] == rest
  {
    hide StartsShape, SHAPE_TOKENS;
    ShapeTokensStart();
    ShapeGoesOn(SHAPE_TOKENS, rest);
  }

  lemma ShapeTokensStart()
    ensures |SHAPE_TOKENS| == 25 && StartsShape(SHAPE_TOKENS)
    ensures SHAPE_TOKENS[3] == Ident("embedded_file") && SHAPE_TOKENS[10] == Ident("name")
    ensures SHAPE_TOKENS[17] == Ident("data") && SHAPE_TOKENS[20] == Ident("embedded_files")
  {
    MembersStart("name");
    MembersStart("data");
    hide StartsMember, MemberTokens;
    ShapeJoins(STRUCT_TOKENS, MemberTokens("name"), MemberTokens("data"), TABLE_TOKENS);
  }

  lemma ShapeJoins(s: seq<Token>, m: seq<Token>, n: seq<Token>, t: seq<Token>)
    requires |s| == 5 && |m| == 7 && |n| == 7 && |t| == 6
    ensures var ts := s + (m + (n + t));
      && |ts| == 25 && ts[..5] == s && ts[5..12] == m && ts[12..19] == n && ts[19..] == t
      && ts[0] == s[0] && ts[1] == s[1] && ts[2] == s[2] && ts[3] == s[3] && ts[4] == s[4]
      && ts[10] == m[5] && ts[17] == n[5]
      && ts[19] == t[0] && ts[20] == t[1] && ts[21] == t[2] && ts[22] == t[3] && ts[23] == t[4] && ts[24] == t[5]
  {}

  lemma ShapeGoesOn(ts: seq<Token>, rest: seq<Token>)
    requires |ts| == 25 && StartsShape(ts)
    ensures var more := ts + rest;
      && StartsShape(more) && more[25..] == rest
      && more[3] == ts[3] && more[10] == ts[10] && more[17] == ts[17] && more[20] == ts[20]
  {
    hide StartsMember;
    var more := ts + rest;
    assert more[5..12] == ts[5..12] && more[12..19] == ts[12..19];
  }

  lemma MembersStart(m: string)
    ensures |MemberTokens(m)| == 7 && StartsMember(MemberTokens(m)) && MemberTokens(m)[5] == Ident(m)
  {}
}
