/** The tokens of each line of the header. */
module HeaderTokens {
  import opened Wrappers
  import opened CppReader
  import opened LexerLaws
  import opened HeaderPrinter
  import opened LiteralReading

  /** An identifier, or a keyword. */
  predicate IsWord(w: string) {
    w != [] && !IsDigit(w[0]) && forall c :: c in w ==> IsIdentChar(c)
  }

  lemma Word(w: string, t: string)
    requires IsWord(w)
    requires t == [] || !IsIdentChar(t[0])
    ensures Lex(w + t) == [Ident(w)] + Lex(t)
  {
    hide Lex;
    LexRun(w, t);
  }

  lemma SpacedWord(w: string, t: string)
    requires IsWord(w)
    ensures Lex(w + " " + t) == [Ident(w)] + Lex(t)
  {
    hide Lex;
    CatAssoc(w, " ", t);
    Word(w, [' '] + t);
    LexBlank(' ', t);
  }

  lemma ThreeWords(a: string, b: string, c: string, t: string)
    requires IsWord(a) && IsWord(b) && IsWord(c)
    requires t == [] || !IsIdentChar(t[0])
    ensures Lex(a + " " + (b + " " + (c + t))) == [Ident(a), Ident(b), Ident(c)] + Lex(t)
  {
    hide Lex;
    SpacedWord(a, b + " " + (c + t));
    SpacedWord(b, c + t);
    Word(c, t);
  }

  lemma StaticStringTokens()
    ensures |Lex(STATIC_STRING)| >= 3 && Lex(STATIC_STRING)[2] == Ident("std")
  {
    hide Lex;
    assert "static const std::string" == "static" + " " + ("const" + " " + ("std" + "::string"));
    ThreeWords("static", "const", "std", "::string");
  }

  lemma LineEnd(a: string, b: string)
    requires a != [] && a[|a| - 1] == '\n'
    ensures Lex(a + b) == Lex(a) + Lex(b)
  {
    hide Lex;
    var line := a[..|a| - 1];
    assert a == line + "\n" && a == line + "\n" + "";
    LexLines(line, b);
    LexLines(line, "");
    LexEmpty();
  }

  lemma StdStringTokens(t: string)
    ensures Lex(STD_STRING + t) == [Ident("std"), Punct("::"), Ident("string"), Punct("(")] + Lex(t)
  {
    hide Lex;
    var open := ['('] + t;
    LexMark('(', t);
    Word("string", open);
    Pair("::", "string" + open);
    Word("std", "::" + ("string" + open));
    StdStringSplit(t);
  }

  lemma StdStringSplit(t: string)
    ensures STD_STRING + t == "std" + ("::" + ("string" + (['('] + t)))
  {
    assert "std::string(" == "std" + ("::" + ("string" + "("));
    assert "std" + ("::" + ("string" + "(")) + t == "std" + ("::" + ("string" + (['('] + t)));
  }

  lemma Pair(m: string, t: string)
    requires |m| == 2 && IsPair(m[0], m[1])
    ensures Lex(m + t) == [Punct(m)] + Lex(t)
  {
    hide Span, Literal;
    var s := m + t;
    assert s[..2] == m && s[2..] == t;
  }

  // ---------------------------------------------------------------- identifiers

  lemma StemIsWord(stem: string, n: nat)
    requires IsWord(stem)
    ensures IsWord(stem + Decimal(n))
  {
    DecimalReads(n);
    forall c | c in stem + Decimal(n)
      ensures IsIdentChar(c)
    {
      if c !in stem {
        assert IsDigit(c);
      }
    }
  }

  lemma IdsAreWords(i: nat)
    ensures IsWord(NameId(i)) && IsWord(DataId(i))
  {
    hide Decimal;
    StemIsWord(NAME_STEM, i);
    StemIsWord(DATA_STEM, i);
  }

  // ---------------------------------------------------------------- declarations

  /** The part of a declaration before its initializer. */
  lemma DeclaratorTokens(id: string, t: string)
    requires IsWord(id)
    ensures Lex(STATIC_STRING + " " + (id + (EQUALS + t))) == Lex(STATIC_STRING) + [Ident(id), Punct("=")] + Lex(t)
  {
    hide Lex;
    NoQuoteInStatic();
    LexWords(STATIC_STRING, id + (EQUALS + t));
    Word(id, EQUALS + t);
    assert EQUALS + t == [' '] + (['='] + ([' '] + t));
    LexBlank(' ', ['='] + ([' '] + t));
    LexMark('=', [' '] + t);
    LexBlank(' ', t);
  }

  lemma NoQuoteInStatic()
    ensures '\"' !in STATIC_STRING && '#' !in STATIC_STRING
  {}

  lemma SemicolonTokens(t: string)
    ensures Lex(SEMICOLON + t) == [Punct(";")] + Lex(t)
  {
    hide Lex;
    assert SEMICOLON + t == [';'] + (['\n'] + t);
    LexMark(';', ['\n'] + t);
    LexBlank('\n', t);
  }

  lemma CountTokens(n: nat, t: string)
    ensures Lex(COUNT_OPEN + (Decimal(n) + (COUNT_CLOSE + t)))
         == [Punct(","), Number(Decimal(n)), Punct(")"), Punct(";")] + Lex(t)
  {
    hide Lex, Decimal;
    var close := [';'] + (['\n'] + (['\n'] + t));
    assert COUNT_CLOSE + t == [')'] + close;
    LexBlank('\n', t);
    LexBlank('\n', ['\n'] + t);
    LexMark(';', ['\n'] + (['\n'] + t));
    LexMark(')', close);
    DecimalReads(n);
    NumberToken(Decimal(n), [')'] + close);
    var number := Decimal(n) + ([')'] + close);
    assert COUNT_OPEN + number == [','] + (['\n'] + ([' '] + ([' '] + number)));
    LexBlank(' ', number);
    LexBlank(' ', [' '] + number);
    LexBlank('\n', [' '] + ([' '] + number));
    LexMark(',', ['\n'] + ([' '] + ([' '] + number)));
  }

  lemma NumberToken(d: string, t: string)
    requires d != [] && (forall c :: c in d ==> IsDigit(c))
    requires t == [] || !IsIdentChar(t[0])
    ensures Lex(d + t) == [Number(d)] + Lex(t)
  {
    hide Lex;
    assert forall c :: c in d ==> IsIdentChar(c);
    assert d[0] in d;
    LexRun(d, t);
  }

  // ---------------------------------------------------------------- the table

  lemma RefTokens(a: string, b: string, t: string)
    requires IsWord(a) && IsWord(b)
    ensures Lex(ROW_OPEN + (a + (ROW_COMMA + (b + (ROW_CLOSE + t)))))
         == [Punct("{"), Punct("&"), Ident(a), Punct(","), Punct("&"), Ident(b), Punct("}"), Punct(",")] + Lex(t)
  {
    hide Lex;
    var second := b + (ROW_CLOSE + t);
    assert ROW_CLOSE + t == ['}'] + ([','] + (['\n'] + t));
    LexBlank('\n', t);
    LexMark(',', ['\n'] + t);
    LexMark('}', [','] + (['\n'] + t));
    Word(b, ROW_CLOSE + t);
    var first := a + (ROW_COMMA + second);
    assert ROW_COMMA + second == [','] + ([' '] + (['&'] + second));
    LexMark('&', second);
    LexBlank(' ', ['&'] + second);
    LexMark(',', [' '] + (['&'] + second));
    Word(a, ROW_COMMA + second);
    assert ROW_OPEN + first == [' '] + ([' '] + (['{'] + (['&'] + first)));
    LexMark('&', first);
    LexMark('{', ['&'] + first);
    LexBlank(' ', ['{'] + (['&'] + first));
    LexBlank(' ', [' '] + (['{'] + (['&'] + first)));
  }

  lemma NullTokens()
    ensures |Lex("{NULL, NULL}")| >= 2 && Lex("{NULL, NULL}")[1] == Ident("NULL")
  {
    hide Lex;
    assert "{NULL, NULL}" == ['{'] + ("NULL" + ", NULL}");
    LexMark('{', "NULL" + ", NULL}");
    Word("NULL", ", NULL}");
  }
}
