/** Reading back one declaration: a name declares itself if and only if it is verbatim, and the data of a
    file declare its bytes if and only if there are any.  The names here are those that are left
    after phases 1 and 2 of translation. */
module DeclarationReading {
  import opened Wrappers
  import opened CppReader
  import opened LexerLaws
  import opened HeaderPrinter
  import opened LiteralReading
  import opened HeaderTokens

  /** The tokens of a declaration of `id` whose initializer starts with the tokens `its`. */
  function DeclTokens(id: string, its: seq<Token>): seq<Token> {
    Lex(STATIC_STRING) + [Ident(id), Punct("=")] + its
  }

  function Terminated(id: string, init: Option<(string, seq<Token>)>): Option<(Decl, seq<Token>)> {
    if init.None? || init.value.1 == [] || init.value.1[0] != Punct(";") then None
    else Some((Decl(id, init.value.0), init.value.1[1..]))
  }

  lemma DeclarationStep(id: string, its: seq<Token>)
    ensures !StartsTable(DeclTokens(id, its))
    ensures Declaration(DeclTokens(id, its)) == Terminated(id, Initializer(its))
  {
    hide Lex, Initializer;
    StaticStringTokens();
    var head := Lex(STATIC_STRING);
    var ts := DeclTokens(id, its);
    assert head == Lex("static const std::string");
    assert ts[..|head|] == head;
    assert ts[|head|..] == [Ident(id), Punct("=")] + its;
    assert ts[|head|..][2..] == its;
    assert ts[2] == head[2] == Ident("std");
    assert "std"[1] != "struct"[1] || |"std"| != |"struct"|;
  }

  // ---------------------------------------------------------------- names

  lemma NameDeclTokens(i: nat, name: string, t: string)
    ensures Lex(NameDeclText(i, name) + t) == DeclTokens(NameId(i), Lex(['\"'] + (name + ("\"" + (SEMICOLON + t)))))
  {
    hide Lex, NameId;
    IdsAreWords(i);
    var init := ['\"'] + (name + ("\"" + (SEMICOLON + t)));
    DeclaratorTokens(NameId(i), init);
    RegroupName(STATIC_STRING + " ", NameId(i), EQUALS, "\"", name, "\"", SEMICOLON, t);
  }

  lemma RegroupName(a: string, b: string, c: string, d: string, e: string, f: string, g: string, h: string)
    ensures a + b + c + d + e + f + g + h == a + (b + (c + (d + (e + (f + (g + h))))))
  {}

  lemma NameDeclReads(i: nat, name: string, t: string)
    requires Verbatim(name)
    ensures !StartsTable(Lex(NameDeclText(i, name) + t))
    ensures Declaration(Lex(NameDeclText(i, name) + t)) == Some((Decl(NameId(i), name), Lex(t)))
  {
    hide Lex, NameId, NameDeclText, Declaration, StartsTable;
    var its := Lex(['\"'] + (name + ("\"" + (SEMICOLON + t))));
    NameDeclTokens(i, name, t);
    DeclarationStep(NameId(i), its);
    VerbatimReads(name, SEMICOLON + t);
    LexQuote(name + ("\"" + (SEMICOLON + t)), name, SEMICOLON + t);
    SemicolonTokens(t);
    InitializerIsName(name, [Punct(";")] + Lex(t));
    assert ([Punct(";")] + Lex(t))[1..] == Lex(t);
  }

  lemma InitializerIsName(v: string, ts: seq<Token>)
    requires NoStringNext(ts)
    ensures Initializer([Str(v)] + ts) == Some((v[..Span(NotNul, v)], ts))
    ensures Verbatim(v) ==> v[..Span(NotNul, v)] == v
  {
    hide Lex;
    RunStep(v, ts);
    assert v + "" == v;
    if Verbatim(v) {
      VerbatimHasNoNul(v);
    }
  }

  /** What follows a name: the quote that closes it, and the end of its line. */
  function AfterName(t: string): string { "\"" + (SEMICOLON + t) }

  lemma AfterNameParts(t: string)
    ensures AfterName(t) != [] && AfterName(t)[0] == '\"'
    ensures AfterName(t)[1..] == SEMICOLON + t
    ensures Literal(SEMICOLON + t) == None
  {
    var s := SEMICOLON + t;
    assert s[0] == ';' && s[1..][0] == '\n';
  }

  /** An escape inside a name either fails or ends inside the name; it cannot end after the closing quote,
      unless the name ends in the backslash. */
  lemma EscapeInName(m: string, t: string)
    requires m != []
    ensures var r := EscapeSequence(m + AfterName(t));
      r.Some? ==> exists k :: 0 < k <= |m| && r.value.1 == m[k..] + AfterName(t)
  {
    hide Span, HexValue, OctalValue;
    var after := AfterName(t);
    AfterNameParts(t);
    var s := m + after;
    assert s[1..] == m[1..] + after;
    if s[0] == 'x' {
      var n := Span(IsHexDigit, s[1..]);
      SpanCut(IsHexDigit, m[1..], after);
      assert s[1 + n..] == m[1 + n..] + after;
    } else if IsOctalDigit(s[0]) {
      var k := Span(IsOctalDigit, s);
      SpanCut(IsOctalDigit, m, after);
      var n := if k > 3 then 3 else k;
      SpanStarts(IsOctalDigit, s);
      assert s[n..] == m[n..] + after;
    }
  }

  lemma SpanStarts(p: char -> bool, s: string)
    requires s != [] && p(s[0])
    ensures Span(p, s) > 0
  {}

  /** The first literal of a name's declaration: it ends at a quote inside the name, or at the quote
      printed after it; only a name without quotes, backslashes and newlines gives back all its characters. */
  ghost predicate LiteralOfName(n: string, t: string, v: string, rest: string) {
    || (exists k :: 0 < k <= |n| && |v| < k && rest == n[k..] + AfterName(t))
    || (rest == SEMICOLON + t && |v| < |n|)
    || (rest == SEMICOLON + t && v == n && '\"' !in n && '\\' !in n && '\n' !in n)
  }

  lemma {:induction false} LiteralInName(n: string, t: string)
    ensures var r := Literal(n + AfterName(t));
      r.Some? ==> LiteralOfName(n, t, r.value.0, r.value.1)
    decreases |n|
  {
    hide EscapeSequence;
    var after := AfterName(t);
    AfterNameParts(t);
    var s := n + after;
    if n == [] {
      assert s == after;
    } else {
      assert s[1..] == n[1..] + after;
      if Literal(s).Some? {
        if n[0] == '\"' {
          assert n[1..] + after == s[1..];
        } else if n[0] == '\\' {
          EscapedInName(n, t);
        } else {
          LiteralInName(n[1..], t);
          OneMoreCharacter(n, t, Literal(s[1..]).value.0, Literal(s[1..]).value.1);
        }
      }
    }
  }

  lemma EscapedInName(n: string, t: string)
    requires n != [] && n[0] == '\\'
    requires Literal(n + AfterName(t)).Some?
    ensures var r := Literal(n + AfterName(t)).value; LiteralOfName(n, t, r.0, r.1)
    decreases |n|, 0
  {
    hide EscapeSequence;
    var after := AfterName(t);
    AfterNameParts(t);
    var s := n + after;
    assert s[1..] == n[1..] + after;
    if n == "\\" {
      assert s[1..] == after;
      QuoteEscape(t);
    } else {
      EscapeInName(n[1..], t);
      var k :| 0 < k <= |n[1..]| && EscapeSequence(s[1..]).value.1 == n[1..][k..] + after;
      var m := n[1..][k..];
      assert m == n[1 + k..];
      LiteralInName(m, t);
      var (v, rest) := Literal(m + after).value;
      if j :| 0 < j <= |m| && |v| < j && rest == m[j..] + after {
        assert m[j..] == n[1 + k + j..];
        assert 0 < 1 + k + j <= |n| && |v| + 1 < 1 + k + j;
      }
    }
  }

  lemma QuoteEscape(t: string)
    ensures EscapeSequence(AfterName(t)) == Some(('\"', SEMICOLON + t))
    ensures Literal(SEMICOLON + t) == None
  {
    AfterNameParts(t);
  }

  lemma OneMoreCharacter(n: string, t: string, v: string, rest: string)
    requires n != [] && n[0] != '\"' && n[0] != '\\' && n[0] != '\n'
    requires LiteralOfName(n[1..], t, v, rest)
    ensures LiteralOfName(n, t, [n[0]] + v, rest)
  {
    if j :| 0 < j <= |n[1..]| && |v| < j && rest == n[1..][j..] + AfterName(t) {
      assert n[1..][j..] == n[1 + j..];
      assert 0 < 1 + j <= |n| && |[n[0]] + v| < 1 + j;
    } else if v == n[1..] {
      assert [n[0]] + v == n;
    }
  }

  lemma QuoteStep(body: string)
    ensures Literal(body).Some? ==> Lex(['\"'] + body) == [Str(Literal(body).value.0)] + Lex(Literal(body).value.1)
    ensures Literal(body).None? ==> Lex(['\"'] + body) != [] && Lex(['\"'] + body)[0] == Bad
  {
    hide Literal, Span;
    assert (['\"'] + body)[1..] == body;
  }

  lemma OtherStep(s: string)
    requires s != [] && !IsBlank(s[0]) && s[0] != '\"'
    ensures NoStringNext(Lex(s))
  {
    hide Span;
  }

  /** The literals that start a text inside a name hold no more characters than are left of the name. */
  lemma {:induction false} RunBound(s: string, t: string)
    ensures |StringRun(Lex(s + AfterName(t))).0| <= |s|
    decreases |s|
  {
    hide Lex, Literal;
    var after := AfterName(t);
    AfterNameParts(t);
    if s == [] {
      assert s + after == ['\"'] + (SEMICOLON + t);
      QuoteStep(SEMICOLON + t);
    } else {
      assert s + after == [s[0]] + (s[1..] + after);
      if IsBlank(s[0]) {
        LexBlank(s[0], s[1..] + after);
        RunBound(s[1..], t);
      } else if s[0] == '\"' {
        RunOfName(s[1..], t);
      } else {
        OtherStep(s + after);
      }
    }
  }

  /** The literals that start at the quote before a name. */
  lemma RunOfName(n: string, t: string)
    ensures var run := StringRun(Lex(['\"'] + (n + AfterName(t)))).0;
      |run| < |n| || run == "" || (run == n && '\"' !in n && '\\' !in n && '\n' !in n)
    decreases |n|, 0
  {
    hide Lex, Literal, AfterName;
    var after := AfterName(t);
    var body := n + after;
    QuoteStep(body);
    if Literal(body).Some? {
      var (v, rest) := Literal(body).value;
      LiteralInName(n, t);
      RunStep(v, Lex(rest));
      if k :| 0 < k <= |n| && |v| < k && rest == n[k..] + after {
        RunBound(n[k..], t);
      } else {
        SemicolonTokens(t);
        assert v + "" == v;
      }
    }
  }

  lemma NulCutsShort(v: string)
    requires NUL in v
    ensures Span(NotNul, v) < |v|
  {}

  /** What is printed as a name never declares a longer name, nor itself unless it is verbatim. */
  lemma NameDeclDiffers(i: nat, name: string, wanted: string, t: string)
    requires |name| < |wanted| || (name == wanted && !Verbatim(name))
    ensures !StartsTable(Lex(NameDeclText(i, name) + t))
    ensures var d := Declaration(Lex(NameDeclText(i, name) + t)); d.Some? ==> d.value.0.value != wanted
  {
    hide Lex, NameId, NameDeclText, Declaration, StartsTable, StringRun, Span, Literal;
    var body := name + AfterName(t);
    var its := Lex(['\"'] + body);
    NameDeclTokens(i, name, t);
    DeclarationStep(NameId(i), its);
    RunOfName(name, t);
    QuoteStep(body);
    StdStringTokens("");
    LexEmpty();
    assert STD_STRING + "" == "std::string(";
    if Initializer(its).Some? {
      assert its[0].Str?;
      var run := StringRun(its).0;
      assert Initializer(its).value.0 == run[..Span(NotNul, run)];
      if run == name == wanted {
        assert NUL in name;
        NulCutsShort(name);
      }
    }
  }

  // ---------------------------------------------------------------- data

  lemma DataDeclTokens(i: nat, content: seq<Octet>, t: string)
    ensures Lex(DataDeclText(i, content) + t)
         == DeclTokens(DataId(i), Lex(STD_STRING + (DataText(content)
              + (COUNT_OPEN + (Decimal(|content|) + (COUNT_CLOSE + t))))))
  {
    hide Lex, DataId, DataText, Decimal;
    IdsAreWords(i);
    var rows, count := DataText(content), Decimal(|content|);
    DeclaratorTokens(DataId(i), STD_STRING + (rows + (COUNT_OPEN + (count + (COUNT_CLOSE + t)))));
    RegroupName(STATIC_STRING + " ", DataId(i), EQUALS, STD_STRING, rows, COUNT_OPEN, count, COUNT_CLOSE + t);
    CatAssoc(STATIC_STRING + " " + DataId(i) + EQUALS + STD_STRING + rows + COUNT_OPEN + count, COUNT_CLOSE, t);
  }

  /** The tokens of a count and of what follows it. */
  function CountAnd(n: nat, ts: seq<Token>): seq<Token> {
    [Punct(","), Number(Decimal(n)), Punct(")"), Punct(";")] + ts
  }

  lemma InitializerIsData(its: seq<Token>, v: string, ts: seq<Token>)
    requires its != [] && its[0].Str? && StringRun(its) == (v, CountAnd(|v|, ts))
    ensures Initializer(Lex(STD_STRING) + its) == Some((v, [Punct(";")] + ts))
  {
    hide Lex, Decimal, StringRun, NumberValue;
    StdStringTokens("");
    LexEmpty();
    assert STD_STRING + "" == "std::string(";
    var head := Lex(STD_STRING);
    var all := head + its;
    assert all[..|head|] == head && all[|head|..] == its;
    NumberReads(|v|);
    var rest := CountAnd(|v|, ts);
    assert rest[3..] == [Punct(";")] + ts;
    assert (v + [NUL])[..|v|] == v;
  }

  lemma StdStringCut(t: string)
    ensures Lex(STD_STRING + t) == Lex(STD_STRING) + Lex(t)
  {
    hide Lex;
    StdStringTokens(t);
    StdStringTokens("");
    LexEmpty();
    assert STD_STRING + "" == STD_STRING;
  }

  lemma DataDeclReads(i: nat, content: seq<Octet>, t: string)
    requires content != []
    ensures !StartsTable(Lex(DataDeclText(i, content) + t))
    ensures Declaration(Lex(DataDeclText(i, content) + t)) == Some((Decl(DataId(i), content), Lex(t)))
  {
    hide Lex, DataId, DataDeclText, Declaration, StartsTable, DataRows, Decimal, Initializer, StringRun;
    var count := COUNT_OPEN + (Decimal(|content|) + (COUNT_CLOSE + t));
    var its := Lex(DataRows(content) + count);
    DataDeclTokens(i, content, t);
    StdStringCut(DataRows(content) + count);
    DeclarationStep(DataId(i), Lex(STD_STRING) + its);
    CountTokens(|content|, t);
    DataRowsRead(content, count);
    InitializerIsData(its, content, Lex(t));
    assert ([Punct(";")] + Lex(t))[1..] == Lex(t);
  }

  /** An empty file breaks the header: its only quote opens a literal that does not end. */
  lemma EmptyDataFails(i: nat, t: string)
    ensures !StartsTable(Lex(DataDeclText(i, []) + t))
    ensures Declaration(Lex(DataDeclText(i, []) + t)) == None
  {
    hide Lex, DataId, DataDeclText, Declaration, StartsTable, Decimal, StringRun;
    var count := COUNT_OPEN + (Decimal(0) + (COUNT_CLOSE + t));
    var quote := DataText([]) + count;
    DataDeclTokens(i, [], t);
    StdStringCut(quote);
    StdStringTokens("");
    LexEmpty();
    assert STD_STRING + "" == "std::string(" == STD_STRING;
    DeclarationStep(DataId(i), Lex(STD_STRING) + Lex(quote));
    assert quote == ['\"'] + count;
    QuoteStep(count);
    CommaLine(Decimal(0) + (COUNT_CLOSE + t));
    var all := Lex(STD_STRING) + Lex(quote);
    assert all[|Lex(STD_STRING)|..] == Lex(quote);
  }

  lemma CommaLine(t: string)
    ensures Literal(COUNT_OPEN + t) == None
  {
    var s := COUNT_OPEN + t;
    assert s[0] == ',' && s[1..][0] == '\n';
  }
}
