/** The tokens of the fixed lines of the header. */
module FixedTokens {
  import opened CppReader
  import opened LexerLaws
  import opened Wrappers
  import opened HeaderTokens

  // ---------------------------------------------------------------- a line of words and marks

  datatype Line = End | W(word: string, rest: Line) | M(mark: string, rest: Line) | S(blank: char, rest: Line)

  function LineText(l: Line): string {
    match l
    case End => ""
    case W(x, r) => x + LineText(r)
    case M(x, r) => x + LineText(r)
    case S(c, r) => [c] + LineText(r)
  }

  function LineTokens(l: Line): seq<Token> {
    match l
    case End => []
    case W(x, r) => [Ident(x)] + LineTokens(r)
    case M(x, r) => [Punct(x)] + LineTokens(r)
    case S(c, r) => LineTokens(r)
  }

  predicate IsMark(c: char) { !IsBlank(c) && !IsIdentChar(c) && c != '#' && c != '\"' }

  /** No word and no mark runs into the next one, and the line ends in a blank. */
  predicate Spaced(l: Line) {
    match l
    case End => true
    case W(x, r) => Spaced(r) && IsWord(x) && (r.M? || r.S?)
    case M(x, r) => Spaced(r) && !r.End? && IsSingle(x, r)
    case S(c, r) => Spaced(r) && IsBlank(c)
  }

  predicate IsSingle(x: string, r: Line) {
    || (|x| == 2 && IsPair(x[0], x[1]))
    || (|x| == 1 && IsMark(x[0]) && (r.M? && r.mark != [] ==> !IsPair(x[0], r.mark[0])))
  }

  /** A line starts with a blank, a mark or a word. */
  lemma FirstOf(l: Line, t: string)
    requires Spaced(l) && !l.End?
    ensures var s := LineText(l) + t;
      && s != [] && (l.S? ==> IsBlank(s[0])) && (l.W? ==> IsIdentChar(s[0]))
      && (l.M? ==> l.mark != [] && s[0] == l.mark[0] && !IsIdentChar(s[0]))
  {
    if l.W? {
      assert l.word[0] in l.word;
    }
  }

  lemma {:induction false} LexLine(l: Line, t: string)
    requires Spaced(l)
    ensures Lex(LineText(l) + t) == LineTokens(l) + Lex(t)
    decreases l
  {
    hide Lex, IsWord;
    match l
    case End =>
      assert LineText(l) + t == t;
    case W(x, r) =>
      LexLine(r, t);
      CatAssoc(x, LineText(r), t);
      FirstOf(r, t);
      Word(x, LineText(r) + t);
    case M(x, r) =>
      LexLine(r, t);
      CatAssoc(x, LineText(r), t);
      FirstOf(r, t);
      LexSingle(x, r, LineText(r) + t);
    case S(c, r) =>
      LexLine(r, t);
      CatAssoc([c], LineText(r), t);
      LexBlank(c, LineText(r) + t);
  }

  lemma LexSingle(x: string, r: Line, t: string)
    requires IsSingle(x, r) && t != []
    requires r.S? ==> IsBlank(t[0])
    requires r.M? ==> r.mark != [] && t[0] == r.mark[0]
    requires r.W? ==> IsIdentChar(t[0])
    requires !r.End?
    ensures Lex(x + t) == [Punct(x)] + Lex(t)
  {
    hide Lex;
    if |x| == 2 {
      Pair(x, t);
    } else {
      assert x == [x[0]];
      LexMark(x[0], t);
    }
  }

  // ---------------------------------------------------------------- the lines of the function

  lemma StringTokens(t: string)
    ensures Lex("std::string " + t) == [Ident("std"), Punct("::"), Ident("string")] + Lex(t)
  {
    var l := W("std", M("::", W("string", S(' ', End))));
    assert LineText(l) == "std::string ";
    assert IsWord("std") && IsWord("string");
    assert Spaced(l) && LineTokens(l) == [Ident("std"), Punct("::"), Ident("string")];
    hide *;
    LexLine(l, t);
  }

  lemma Signature1(t: string)
    ensures Lex("static bool " + t) == [Ident("static"), Ident("bool")] + Lex(t)
  {
    var l := W("static", S(' ', W("bool", S(' ', End))));
    assert LineText(l) == "static bool ";
    assert IsWord("static") && IsWord("bool");
    assert Spaced(l) && LineTokens(l) == [Ident("static"), Ident("bool")];
    hide *;
    LexLine(l, t);
  }

  lemma Signature2(t: string)
    ensures Lex("find_embedded_file(const " + t) == [Ident("find_embedded_file"), Punct("("),
      Ident("const")] + Lex(t)
  {
    var l := W("find_embedded_file", M("(", W("const", S(' ', End))));
    assert LineText(l) == "find_embedded_file(const ";
    assert IsWord("find_embedded_file") && IsWord("const");
    assert Spaced(l) && LineTokens(l) == [Ident("find_embedded_file"), Punct("("), Ident("const")];
    hide *;
    LexLine(l, t);
  }

  lemma Signature3(t: string)
    ensures Lex("&name, " + t) == [Punct("&"), Ident("name"), Punct(",")] + Lex(t)
  {
    var l := M("&", W("name", M(",", S(' ', End))));
    assert LineText(l) == "&name, ";
    assert IsWord("name");
    assert Spaced(l) && LineTokens(l) == [Punct("&"), Ident("name"), Punct(",")];
    hide *;
    LexLine(l, t);
  }

  lemma Signature4(t: string)
    ensures Lex("&data) {\n" + t) == [Punct("&"), Ident("data"), Punct(")"), Punct("{")] + Lex(t)
  {
    var l := M("&", W("data", M(")", S(' ', M("{", S('\n', End))))));
    assert LineText(l) == "&data) {\n";
    assert IsWord("data");
    assert Spaced(l) && LineTokens(l) == [Punct("&"), Ident("data"), Punct(")"), Punct("{")];
    hide *;
    LexLine(l, t);
  }

  lemma Local1(t: string)
    ensures Lex("  const struct " + t) == [Ident("const"), Ident("struct")] + Lex(t)
  {
    var l := S(' ', S(' ', W("const", S(' ', W("struct", S(' ', End))))));
    assert LineText(l) == "  const struct ";
    assert IsWord("const") && IsWord("struct");
    assert Spaced(l) && LineTokens(l) == [Ident("const"), Ident("struct")];
    hide *;
    LexLine(l, t);
  }

  lemma Local2(t: string)
    ensures Lex("embedded_file *p;\n" + t) == [Ident("embedded_file"), Punct("*"), Ident("p"), Punct(";")] + Lex(t)
  {
    var l := W("embedded_file", S(' ', M("*", W("p", M(";", S('\n', End))))));
    assert LineText(l) == "embedded_file *p;\n";
    assert IsWord("embedded_file") && IsWord("p");
    assert Spaced(l) && LineTokens(l) == [Ident("embedded_file"), Punct("*"), Ident("p"), Punct(";")];
    hide *;
    LexLine(l, t);
  }

  lemma Loop1(t: string)
    ensures Lex("  for (p = " + t) == [Ident("for"), Punct("("), Ident("p"), Punct("=")] + Lex(t)
  {
    var l := S(' ', S(' ', W("for", S(' ', M("(", W("p", S(' ', M("=", S(' ', End)))))))));
    assert LineText(l) == "  for (p = ";
    assert IsWord("for") && IsWord("p");
    assert Spaced(l) && LineTokens(l) == [Ident("for"), Punct("("), Ident("p"), Punct("=")];
    hide *;
    LexLine(l, t);
  }

  lemma Loop2(t: string)
    ensures Lex("embedded_files; " + t) == [Ident("embedded_files"), Punct(";")] + Lex(t)
  {
    var l := W("embedded_files", M(";", S(' ', End)));
    assert LineText(l) == "embedded_files; ";
    assert IsWord("embedded_files");
    assert Spaced(l) && LineTokens(l) == [Ident("embedded_files"), Punct(";")];
    hide *;
    LexLine(l, t);
  }

  lemma Loop3(t: string)
    ensures Lex("p->name != " + t) == [Ident("p"), Punct("->"), Ident("name"), Punct("!=")] + Lex(t)
  {
    var l := W("p", M("->", W("name", S(' ', M("!=", S(' ', End))))));
    assert LineText(l) == "p->name != ";
    assert IsWord("p") && IsWord("name");
    assert Spaced(l) && LineTokens(l) == [Ident("p"), Punct("->"), Ident("name"), Punct("!=")];
    hide *;
    LexLine(l, t);
  }

  lemma Loop4(t: string)
    ensures Lex("NULL; " + t) == [Ident("NULL"), Punct(";")] + Lex(t)
  {
    var l := W("NULL", M(";", S(' ', End)));
    assert LineText(l) == "NULL; ";
    assert IsWord("NULL");
    assert Spaced(l) && LineTokens(l) == [Ident("NULL"), Punct(";")];
    hide *;
    LexLine(l, t);
  }

  lemma Loop5(t: string)
    ensures Lex("p++) {\n" + t) == [Ident("p"), Punct("++"), Punct(")"), Punct("{")] + Lex(t)
  {
    var l := W("p", M("++", M(")", S(' ', M("{", S('\n', End))))));
    assert LineText(l) == "p++) {\n";
    assert IsWord("p");
    assert Spaced(l) && LineTokens(l) == [Ident("p"), Punct("++"), Punct(")"), Punct("{")];
    hide *;
    LexLine(l, t);
  }

  lemma Test1(t: string)
    ensures Lex("    if " + t) == [Ident("if")] + Lex(t)
  {
    var l := S(' ', S(' ', S(' ', S(' ', W("if", S(' ', End))))));
    assert LineText(l) == "    if ";
    assert IsWord("if");
    assert Spaced(l) && LineTokens(l) == [Ident("if")];
    hide *;
    LexLine(l, t);
  }

  lemma Test2(t: string)
    ensures Lex("(*p->name " + t) == [Punct("("), Punct("*"), Ident("p"), Punct("->"), Ident("name")] + Lex(t)
  {
    var l := M("(", M("*", W("p", M("->", W("name", S(' ', End))))));
    assert LineText(l) == "(*p->name ";
    assert IsWord("p") && IsWord("name");
    assert Spaced(l) && LineTokens(l) == [Punct("("), Punct("*"), Ident("p"), Punct("->"), Ident("name")];
    hide *;
    LexLine(l, t);
  }

  lemma Test3(t: string)
    ensures Lex("== name) {\n" + t) == [Punct("=="), Ident("name"), Punct(")"), Punct("{")] + Lex(t)
  {
    var l := M("==", S(' ', W("name", M(")", S(' ', M("{", S('\n', End)))))));
    assert LineText(l) == "== name) {\n";
    assert IsWord("name");
    assert Spaced(l) && LineTokens(l) == [Punct("=="), Ident("name"), Punct(")"), Punct("{")];
    hide *;
    LexLine(l, t);
  }

  lemma Copy1(t: string)
    ensures Lex("      data = " + t) == [Ident("data"), Punct("=")] + Lex(t)
  {
    var l := S(' ', S(' ', S(' ', S(' ', S(' ', S(' ', W("data", S(' ', M("=", S(' ', End))))))))));
    assert LineText(l) == "      data = ";
    assert IsWord("data");
    assert Spaced(l) && LineTokens(l) == [Ident("data"), Punct("=")];
    hide *;
    LexLine(l, t);
  }

  lemma Copy2(t: string)
    ensures Lex("*p->data;\n" + t) == [Punct("*"), Ident("p"), Punct("->"), Ident("data"), Punct(";")] + Lex(t)
  {
    var l := M("*", W("p", M("->", W("data", M(";", S('\n', End))))));
    assert LineText(l) == "*p->data;\n";
    assert IsWord("p") && IsWord("data");
    assert Spaced(l) && LineTokens(l) == [Punct("*"), Ident("p"), Punct("->"), Ident("data"), Punct(";")];
    hide *;
    LexLine(l, t);
  }

  lemma Found(t: string)
    ensures Lex("      return true;\n" + t) == [Ident("return"), Ident("true"), Punct(";")] + Lex(t)
  {
    var l := S(' ', S(' ', S(' ', S(' ', S(' ', S(' ', W("return", S(' ', W("true", M(";", S('\n', End)))))))))));
    assert LineText(l) == "      return true;\n";
    assert IsWord("return") && IsWord("true");
    assert Spaced(l) && LineTokens(l) == [Ident("return"), Ident("true"), Punct(";")];
    hide *;
    LexLine(l, t);
  }

  lemma CloseIf(t: string)
    ensures Lex("    }\n" + t) == [Punct("}")] + Lex(t)
  {
    var l := S(' ', S(' ', S(' ', S(' ', M("}", S('\n', End))))));
    assert LineText(l) == "    }\n";
    assert Spaced(l) && LineTokens(l) == [Punct("}")];
    hide *;
    LexLine(l, t);
  }

  lemma CloseLoop(t: string)
    ensures Lex("  }\n" + t) == [Punct("}")] + Lex(t)
  {
    var l := S(' ', S(' ', M("}", S('\n', End))));
    assert LineText(l) == "  }\n";
    assert Spaced(l) && LineTokens(l) == [Punct("}")];
    hide *;
    LexLine(l, t);
  }

  lemma Missing(t: string)
    ensures Lex("  return false;\n" + t) == [Ident("return"), Ident("false"), Punct(";")] + Lex(t)
  {
    var l := S(' ', S(' ', W("return", S(' ', W("false", M(";", S('\n', End)))))));
    assert LineText(l) == "  return false;\n";
    assert IsWord("return") && IsWord("false");
    assert Spaced(l) && LineTokens(l) == [Ident("return"), Ident("false"), Punct(";")];
    hide *;
    LexLine(l, t);
  }

  lemma CloseBody(t: string)
    ensures Lex("}\n" + t) == [Punct("}")] + Lex(t)
  {
    var l := M("}", S('\n', End));
    assert LineText(l) == "}\n";
    assert Spaced(l) && LineTokens(l) == [Punct("}")];
    hide *;
    LexLine(l, t);
  }

  // ---------------------------------------------------------------- the lines of the structure

  lemma Struct1(t: string)
    ensures Lex("static const struct " + t) == [Ident("static"), Ident("const"), Ident("struct")] + Lex(t)
  {
    var l := W("static", S(' ', W("const", S(' ', W("struct", S(' ', End))))));
    assert LineText(l) == "static const struct ";
    assert IsWord("static") && IsWord("const") && IsWord("struct");
    assert Spaced(l) && LineTokens(l) == [Ident("static"), Ident("const"), Ident("struct")];
    hide *;
    LexLine(l, t);
  }

  lemma Struct2(t: string)
    ensures Lex("embedded_file {\n" + t) == [Ident("embedded_file"), Punct("{")] + Lex(t)
  {
    var l := W("embedded_file", S(' ', M("{", S('\n', End))));
    assert LineText(l) == "embedded_file {\n";
    assert IsWord("embedded_file");
    assert Spaced(l) && LineTokens(l) == [Ident("embedded_file"), Punct("{")];
    hide *;
    LexLine(l, t);
  }

  lemma Member1(t: string)
    ensures Lex("  const " + t) == [Ident("const")] + Lex(t)
  {
    var l := S(' ', S(' ', W("const", S(' ', End))));
    assert LineText(l) == "  const ";
    assert IsWord("const");
    assert Spaced(l) && LineTokens(l) == [Ident("const")];
    hide *;
    LexLine(l, t);
  }

  lemma Member2(t: string)
    ensures Lex("*name;\n" + t) == [Punct("*"), Ident("name"), Punct(";")] + Lex(t)
  {
    var l := M("*", W("name", M(";", S('\n', End))));
    assert LineText(l) == "*name;\n";
    assert IsWord("name");
    assert Spaced(l) && LineTokens(l) == [Punct("*"), Ident("name"), Punct(";")];
    hide *;
    LexLine(l, t);
  }

  lemma Member3(t: string)
    ensures Lex("*data;\n" + t) == [Punct("*"), Ident("data"), Punct(";")] + Lex(t)
  {
    var l := M("*", W("data", M(";", S('\n', End))));
    assert LineText(l) == "*data;\n";
    assert IsWord("data");
    assert Spaced(l) && LineTokens(l) == [Punct("*"), Ident("data"), Punct(";")];
    hide *;
    LexLine(l, t);
  }

  lemma Table1(t: string)
    ensures Lex("} " + t) == [Punct("}")] + Lex(t)
  {
    var l := M("}", S(' ', End));
    assert LineText(l) == "} ";
    assert Spaced(l) && LineTokens(l) == [Punct("}")];
    hide *;
    LexLine(l, t);
  }

  lemma Table2(t: string)
    ensures Lex("embedded_files[] " + t) == [Ident("embedded_files"), Punct("["), Punct("]")] + Lex(t)
  {
    var l := W("embedded_files", M("[", M("]", S(' ', End))));
    assert LineText(l) == "embedded_files[] ";
    assert IsWord("embedded_files");
    assert Spaced(l) && LineTokens(l) == [Ident("embedded_files"), Punct("["), Punct("]")];
    hide *;
    LexLine(l, t);
  }

  lemma Table3(t: string)
    ensures Lex("= {\n" + t) == [Punct("="), Punct("{")] + Lex(t)
  {
    var l := M("=", S(' ', M("{", S('\n', End))));
    assert LineText(l) == "= {\n";
    assert Spaced(l) && LineTokens(l) == [Punct("="), Punct("{")];
    hide *;
    LexLine(l, t);
  }

}
