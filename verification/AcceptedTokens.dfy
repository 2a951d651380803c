/** What every accepted header has in common: none of its tokens is bad, and its directives are the three of the include
    guard at its start and the one at its end. */
module AcceptedTokens {
  import opened Wrappers
  import opened CppReader
  import opened LexerLaws
  import opened SourcePhases

  ghost predicate EndsIn(ts: seq<Token>, t: Token) { ts != [] && ts[|ts| - 1] == t }

  /** Neither bad nor a directive. */
  predicate Good(t: Token) { t != Bad && !t.Directive? }

  ghost predicate AllGood(ts: seq<Token>) { forall k :: 0 <= k < |ts| ==> Good(ts[k]) }

  /** `rest` is what is left of `ts` after some good tokens. */
  ghost predicate Consumed(ts: seq<Token>, rest: seq<Token>)
    decreases |ts|
  {
    ts == rest || (ts != [] && Good(ts[0]) && Consumed(ts[1..], rest))
  }

  lemma {:induction false} ConsumedOn(ts: seq<Token>, mid: seq<Token>, rest: seq<Token>)
    requires Consumed(ts, mid) && Consumed(mid, rest)
    ensures Consumed(ts, rest)
    decreases |ts|
  {
    if ts != mid {
      ConsumedOn(ts[1..], mid, rest);
    }
  }

  lemma {:induction false} ConsumedSome(ts: seq<Token>, n: nat)
    requires n <= |ts| && AllGood(ts[..n])
    ensures Consumed(ts, ts[n..])
    decreases |ts|
  {
    if n > 0 {
      assert ts[..n][0] == ts[0] && ts[1..][..n - 1] == ts[..n][1..];
      ConsumedSome(ts[1..], n - 1);
      assert ts[1..][n - 1..] == ts[n..];
    }
  }

  /** What is consumed is a prefix of good tokens. */
  lemma {:induction false} ConsumedIs(ts: seq<Token>, rest: seq<Token>)
    requires Consumed(ts, rest)
    ensures |rest| <= |ts| && AllGood(ts[..|ts| - |rest|]) && ts[|ts| - |rest|..] == rest
    decreases |ts|
  {
    if ts != rest {
      ConsumedIs(ts[1..], rest);
      var n := |ts| - |rest|;
      assert ts[1..][..n - 1] == ts[..n][1..] && ts[1..][n - 1..] == ts[n..];
      forall k | 0 <= k < n
        ensures Good(ts[..n][k])
      {
        if k > 0 {
          assert ts[..n][k] == ts[1..][..n - 1][k - 1];
        }
      }
    }
  }

  // ---------------------------------------------------------------- fixed texts

  /** Only a quote can start a bad token, and only a number sign a directive. */
  lemma {:induction false} NoQuoteNoBad(s: string)
    requires Quiet(s)
    ensures Bad !in Lex(s)
    ensures '#' !in s ==> AllGood(Lex(s))
    decreases |s|
  {
    hide Span, Literal;
    if s != [] {
      StepRest(s);
      NoQuoteNoBad(Step(s).1);
    }
  }

  lemma ExpectConsumes(ts: seq<Token>, text: string)
    requires Quiet(text) && '#' !in text && Expect(ts, Lex(text)).Some?
    ensures Consumed(ts, Expect(ts, Lex(text)).value)
  {
    hide Lex, Quiet;
    NoQuoteNoBad(text);
    ConsumedSome(ts, |Lex(text)|);
  }

  lemma ShortTextsAreQuiet()
    ensures Quiet("static const std::string") && Quiet("std::string(") && Quiet("{NULL, NULL}")
    ensures '#' !in "static const std::string" && '#' !in "std::string(" && '#' !in "{NULL, NULL}"
  {}

  // ---------------------------------------------------------------- the parser

  lemma {:induction false} RunConsumes(ts: seq<Token>)
    ensures Consumed(ts, StringRun(ts).1)
    decreases |ts|
  {
    if ts != [] && ts[0].Str? {
      RunConsumes(ts[1..]);
      ConsumedSome(ts, 1);
      ConsumedOn(ts, ts[1..], StringRun(ts[1..]).1);
    }
  }

  lemma InitializerConsumes(ts: seq<Token>)
    requires Initializer(ts).Some?
    ensures Consumed(ts, Initializer(ts).value.1)
  {
    ShortTextsAreQuiet();
    hide Lex, Quiet, Consumed, StringRun, NumberValue;
    if ts != [] && ts[0].Str? {
      RunConsumes(ts);
    } else {
      var args := Expect(ts, Lex("std::string(")).value;
      ExpectConsumes(ts, "std::string(");
      var rest := StringRun(args).1;
      RunConsumes(args);
      ConsumedOn(ts, args, rest);
      assert rest[..3] == [rest[0], rest[1], rest[2]];
      ConsumedSome(rest, 3);
      ConsumedOn(ts, rest, rest[3..]);
    }
  }

  lemma DeclarationConsumes(ts: seq<Token>)
    requires Declaration(ts).Some?
    ensures Consumed(ts, Declaration(ts).value.1)
  {
    ShortTextsAreQuiet();
    hide Lex, Quiet, Consumed, Initializer;
    var head := Expect(ts, Lex("static const std::string")).value;
    ExpectConsumes(ts, "static const std::string");
    assert head[..2] == [head[0], head[1]];
    ConsumedSome(head, 2);
    ConsumedOn(ts, head, head[2..]);
    InitializerConsumes(head[2..]);
    var rest := Initializer(head[2..]).value.1;
    ConsumedOn(ts, head[2..], rest);
    assert rest[..1] == [rest[0]];
    ConsumedSome(rest, 1);
    ConsumedOn(ts, rest, rest[1..]);
  }

  lemma {:induction false} DeclarationsConsume(ts: seq<Token>)
    requires Declarations(ts).Some?
    ensures Consumed(ts, Declarations(ts).value.1)
    decreases |ts|
  {
    hide Lex, Declaration, StartsTable;
    if !StartsTable(ts) {
      var more := Declaration(ts).value.1;
      DeclarationConsumes(ts);
      DeclarationsConsume(more);
      ConsumedOn(ts, more, Declarations(ts).value.1);
    }
  }

  lemma {:induction false} RowsConsume(ts: seq<Token>)
    requires Rows(ts).Some?
    ensures Consumed(ts, Rows(ts).value.1)
    decreases |ts|
  {
    hide Lex, Consumed;
    if StartsRef(ts) {
      assert AllGood(ts[..8]);
      ConsumedSome(ts, 8);
      RowsConsume(ts[8..]);
      ConsumedOn(ts, ts[8..], Rows(ts).value.1);
    } else {
      ShortTextsAreQuiet();
      hide Quiet;
      ExpectConsumes(ts, "{NULL, NULL}");
    }
  }

  lemma LexDirective(s: string)
    requires s != [] && s[0] == '#' && forall k :: 0 <= k < |s| ==> s[k] != '\n'
    ensures Lex(s) == [Directive(s)]
  {
    assert Span(NotNewline, s) == |s|;
    assert s[..|s|] == s && s[|s|..] == [];
  }

  // ---------------------------------------------------------------- expressions and statements

  lemma {:induction false} ArrowsConsume(e: Expr, ts: seq<Token>)
    ensures Consumed(ts, Arrows(e, ts).1)
    decreases |ts|
  {
    if |ts| >= 2 && ts[0] == Punct("->") && ts[1].Ident? {
      ArrowsConsume(Arrow(e, ts[1].name), ts[2..]);
      hide Consumed;
      ConsumedSome(ts, 2);
      ConsumedOn(ts, ts[2..], Arrows(e, ts).1);
    }
  }

  lemma {:induction false} UnaryConsumes(ts: seq<Token>)
    requires Unary(ts).Some?
    ensures Consumed(ts, Unary(ts).value.1)
    decreases |ts|
  {
    hide Consumed;
    ConsumedSome(ts, 1);
    if ts[0] == Punct("*") {
      UnaryConsumes(ts[1..]);
    } else {
      var (e, rest) := Primary(ts).value;
      assert rest == ts[1..];
      ArrowsConsume(e, rest);
    }
    ConsumedOn(ts, ts[1..], Unary(ts).value.1);
  }

  lemma ExpressionConsumes(ts: seq<Token>)
    requires Expression(ts).Some?
    ensures Consumed(ts, Expression(ts).value.1)
  {
    hide Unary, Consumed;
    UnaryConsumes(ts);
    var rest := Unary(ts).value.1;
    if rest != [] && (rest[0] == Punct("==") || rest[0] == Punct("!=")) {
      ConsumedSome(rest, 1);
      ConsumedOn(ts, rest, rest[1..]);
      UnaryConsumes(rest[1..]);
      ConsumedOn(ts, rest[1..], Expression(ts).value.1);
    }
  }

  /** One mark more. */
  lemma SkipConsumes(ts: seq<Token>, rest: seq<Token>, mark: string)
    requires Consumed(ts, rest) && Skip(rest, mark).Some?
    ensures Consumed(ts, Skip(rest, mark).value)
  {
    hide Consumed;
    ConsumedSome(rest, 1);
    ConsumedOn(ts, rest, rest[1..]);
  }

  lemma ExpressionOn(ts: seq<Token>, rest: seq<Token>)
    requires Consumed(ts, rest) && Expression(rest).Some?
    ensures Consumed(ts, Expression(rest).value.1)
  {
    hide Consumed, Expression;
    ExpressionConsumes(rest);
    ConsumedOn(ts, rest, Expression(rest).value.1);
  }

  lemma SomeOn(ts: seq<Token>, rest: seq<Token>, n: nat)
    requires Consumed(ts, rest) && n <= |rest| && AllGood(rest[..n])
    ensures Consumed(ts, rest[n..])
  {
    hide Consumed;
    ConsumedSome(rest, n);
    ConsumedOn(ts, rest, rest[n..]);
  }

  lemma LoopHeadConsumes(ts: seq<Token>, start: seq<Token>)
    requires Consumed(ts, start) && LoopHead(start).Some?
    ensures Consumed(ts, LoopHead(start).value.1)
  {
    hide Consumed, Expression;
    SomeOn(ts, start, 2);
    ExpressionOn(ts, start[2..]);
    var after := Expression(start[2..]).value.1;
    SkipConsumes(ts, after, ";");
    var second := Skip(after, ";").value;
    ExpressionOn(ts, second);
    var afterTest := Expression(second).value.1;
    SkipConsumes(ts, afterTest, ";");
    var third := Skip(afterTest, ";").value;
    SomeOn(ts, third, 2);
    SkipConsumes(ts, third[2..], ")");
    SkipConsumes(ts, Skip(third[2..], ")").value, "{");
  }

  lemma {:induction false} StatementConsumes(ts: seq<Token>)
    requires Statement(ts).Some?
    ensures Consumed(ts, Statement(ts).value.1)
    decreases |ts|, 0
  {
    hide Consumed, Expression, LoopHead;
    assert Consumed(ts, ts) by { NothingConsumed(ts); }
    if ts[0] == Ident("return") {
      SomeOn(ts, ts, 1);
      ExpressionOn(ts, ts[1..]);
      SkipConsumes(ts, Expression(ts[1..]).value.1, ";");
    } else if ts[0] == Ident("if") {
      SomeOn(ts, ts, 1);
      SkipConsumes(ts, ts[1..], "(");
      var head := Skip(ts[1..], "(").value;
      ExpressionOn(ts, head);
      var after := Expression(head).value.1;
      SkipConsumes(ts, after, ")");
      var close := Skip(after, ")").value;
      SkipConsumes(ts, close, "{");
      var open := Skip(close, "{").value;
      StatementsConsume(open);
      ConsumedOn(ts, open, Statements(open).value.1);
    } else if ts[0] == Ident("for") {
      SomeOn(ts, ts, 1);
      SkipConsumes(ts, ts[1..], "(");
      var head := Skip(ts[1..], "(").value;
      LoopHeadConsumes(ts, head);
      var open := LoopHead(head).value.1;
      StatementsConsume(open);
      ConsumedOn(ts, open, Statements(open).value.1);
    } else if StartsLocal(ts) {
      SomeOn(ts, ts, 6);
    } else {
      SomeOn(ts, ts, 2);
      ExpressionOn(ts, ts[2..]);
      SkipConsumes(ts, Expression(ts[2..]).value.1, ";");
    }
  }

  lemma NothingConsumed(ts: seq<Token>)
    ensures Consumed(ts, ts)
  {}

  lemma {:induction false} StatementsConsume(ts: seq<Token>)
    requires Statements(ts).Some?
    ensures Consumed(ts, Statements(ts).value.1)
    decreases |ts|, 1
  {
    hide Consumed, Statement;
    if ts != [] && ts[0] == Punct("}") {
      ConsumedSome(ts, 1);
    } else {
      StatementConsumes(ts);
      var after := Statement(ts).value.1;
      StatementsConsume(after);
      ConsumedOn(ts, after, Statements(after).value.1);
    }
  }

  lemma FunctionConsumes(ts: seq<Token>, start: seq<Token>)
    requires Consumed(ts, start) && ParseFunction(start).Some?
    ensures Consumed(ts, ParseFunction(start).value.1)
  {
    hide Consumed, Statements;
    SomeOn(ts, start, 18);
    StatementsConsume(start[18..]);
    ConsumedOn(ts, start[18..], ParseFunction(start).value.1);
  }

  // ---------------------------------------------------------------- whole headers

  lemma ShapeIsGood(ts: seq<Token>)
    requires StartsShape(ts)
    ensures AllGood(ts[..25])
  {
    forall k | 0 <= k < 25
      ensures Good(ts[..25][k])
    {
      if 5 <= k < 12 {
        assert ts[k] == ts[5..12][k - 5];
      } else if 12 <= k < 19 {
        assert ts[k] == ts[12..19][k - 12];
      }
    }
  }

  lemma TableConsumes(ts: seq<Token>, start: seq<Token>) returns (end: seq<Token>)
    requires Consumed(ts, start) && ParseTable(start).Some?
    ensures Consumed(ts, end) && IsEnd(end)
  {
    hide Consumed, Rows, ParseFunction, StartsShape, IsEnd;
    assert |start| >= 25 by { ShapeIsLong(start); }
    ShapeIsGood(start);
    SomeOn(ts, start, 25);
    var rows := start[25..];
    RowsConsume(rows);
    var close := Rows(rows).value.1;
    ConsumedOn(ts, rows, close);
    SkipConsumes(ts, close, "}");
    var after := Skip(close, "}").value;
    SkipConsumes(ts, after, ";");
    var definition := Skip(after, ";").value;
    FunctionConsumes(ts, definition);
    end := ParseFunction(definition).value.1;
  }

  lemma ShapeIsLong(ts: seq<Token>)
    requires StartsShape(ts)
    ensures |ts| >= 25
  {}

  /** The tokens of an accepted header. */
  lemma AcceptedIsGood(ts: seq<Token>)
    requires ParseHeader(ts).Some?
    ensures |ts| >= 4 && StartsGuard(ts) && AllGood(ts[3..|ts| - 1]) && IsEnd(ts[|ts| - 1..])
    ensures Bad !in ts && ts[|ts| - 1].Directive?
  {
    hide Consumed, Declarations, ParseTable, StartsGuard, IsEnd;
    assert |ts| >= 3 && ts[0].Directive? && ts[1].Directive? && ts[2].Directive? by { GuardIsLong(ts); }
    var body := ts[3..];
    DeclarationsConsume(body);
    var after := Declarations(body).value.1;
    var end := TableConsumes(body, after);
    ConsumedIs(body, end);
    assert |end| == 1 && end[0].Directive? by { EndIsOne(end); }
    assert ts[3..|ts| - 1] == body[..|body| - 1] && ts[|ts| - 1..] == end;
    assert ts[|ts| - 1] == end[0];
    OnlyGood(ts);
  }

  lemma GuardIsLong(ts: seq<Token>)
    requires StartsGuard(ts)
    ensures |ts| >= 3 && ts[0].Directive? && ts[1].Directive? && ts[2].Directive?
  {}

  lemma EndIsOne(ts: seq<Token>)
    requires IsEnd(ts)
    ensures |ts| == 1 && ts[0].Directive?
  {}

  lemma OnlyGood(ts: seq<Token>)
    requires |ts| >= 4 && ts[0].Directive? && ts[1].Directive? && ts[2].Directive? && ts[|ts| - 1].Directive?
    requires AllGood(ts[3..|ts| - 1])
    ensures Bad !in ts
  {
    forall k | 0 <= k < |ts|
      ensures ts[k] != Bad
    {
      if 3 <= k < |ts| - 1 {
        assert ts[k] == ts[3..|ts| - 1][k - 3];
      }
    }
  }
}
