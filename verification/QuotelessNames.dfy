/** Headers of names without a quote.  Such a name never leaves its literal, so every line keeps the form that the
    program gives it, and the first token that is out of order is a bad literal: one that does not end on its line, or
    one with an escape that is not among those of ISO/IEC 14882:2011, section 2.14.3, or out of range.  Some compilers
    give meaning to such escapes, and universal character names are not known here; but for these, what this reader
    turns away is no C++ either. */
module QuotelessNames {
  import opened Wrappers
  import opened CppReader
  import opened LexerLaws
  import opened HeaderPrinter
  import opened SourcePhases
  import opened LiteralReading
  import opened HeaderTokens
  import opened DeclarationReading
  import opened AcceptedTokens
  import opened HeaderReading

  predicate Quoteless(name: string) { '\"' !in name }

  // ---------------------------------------------------------------- one name

  /** The value of the literal that a name is printed into, if it is one. */
  function NameValue(name: string): Option<string> {
    match Literal(name + "\";")
    case None => None
    case Some((v, _)) => Some(v)
  }

  /** A literal that starts with such a name ends at the quote printed after it. */
  lemma {:induction false} EndsAtItsQuote(n: string, t: string)
    requires Quoteless(n)
    ensures var r := Literal(n + AfterName(t)); r.Some? ==> r.value.1 == SEMICOLON + t
    decreases |n|
  {
    hide EscapeSequence;
    var after := AfterName(t);
    AfterNameParts(t);
    var s := n + after;
    if n == [] {
      assert s == after;
    } else {
      assert s[1..] == n[1..] + after;
      assert n[0] in n;
      if n[0] == '\\' && |n| > 1 {
        EscapeInName(n[1..], t);
        if EscapeSequence(s[1..]).Some? {
          var k :| 0 < k <= |n[1..]| && EscapeSequence(s[1..]).value.1 == n[1..][k..] + after;
          EndsAtItsQuote(n[1..][k..], t);
        }
      } else if n[0] == '\\' {
        assert s[1..] == after;
        QuoteEscape(t);
      } else {
        EndsAtItsQuote(n[1..], t);
      }
    }
  }

  /** So what follows it does not matter. */
  lemma LiteralOfQuoteless(n: string, t: string)
    requires Quoteless(n)
    ensures NameValue(n).None? ==> Literal(n + AfterName(t)) == None
    ensures NameValue(n).Some? ==> Literal(n + AfterName(t)) == Some((NameValue(n).value, SEMICOLON + t))
  {
    hide Literal;
    var a := n + "\";";
    assert n + AfterName(t) == a + (['\n'] + t);
    LiteralCut(a, ['\n'] + t);
    EndsAtItsQuote(n, t);
  }

  /** The tokens of the declaration of `id` as `v`. */
  function NameTokens(id: string, v: string): seq<Token> {
    Lex(STATIC_STRING) + [Ident(id), Punct("="), Str(v), Punct(";")]
  }

  /** The line of such a name: the declaration of one literal, or a declaration that breaks off at a bad literal. */
  lemma QuotelessLine(i: nat, name: string, t: string)
    requires Quoteless(name)
    ensures NameValue(name).Some? ==>
      Lex(NameDeclText(i, name) + t) == NameTokens(NameId(i), NameValue(name).value) + Lex(t)
    ensures NameValue(name).None? ==>
      Lex(STATIC_STRING) + [Ident(NameId(i)), Punct("="), Bad] <= Lex(NameDeclText(i, name) + t)
  {
    hide Lex, Literal, NameId, NameDeclText, NameValue;
    var body := name + AfterName(t);
    NameDeclTokens(i, name, t);
    LiteralOfQuoteless(name, t);
    QuoteStep(body);
    SemicolonTokens(t);
    var head := Lex(STATIC_STRING) + [Ident(NameId(i)), Punct("=")];
    if NameValue(name).Some? {
      var v := NameValue(name).value;
      assert head + ([Str(v)] + ([Punct(";")] + Lex(t))) == NameTokens(NameId(i), v) + Lex(t);
    } else {
      assert head + [Bad] == Lex(STATIC_STRING) + [Ident(NameId(i)), Punct("="), Bad];
    }
  }

  /** The declared value ends at the first null character. */
  function DeclaredName(name: string): string
    requires NameValue(name).Some?
  {
    var v := NameValue(name).value;
    v[..Span(NotNul, v)]
  }

  lemma QuotelessDeclares(i: nat, name: string, t: string)
    requires Quoteless(name) && NameValue(name).Some?
    ensures !StartsTable(Lex(NameDeclText(i, name) + t))
    ensures Declaration(Lex(NameDeclText(i, name) + t)) == Some((Decl(NameId(i), DeclaredName(name)), Lex(t)))
  {
    hide Lex, NameId, NameDeclText, Declaration, StartsTable, NameValue;
    var v := NameValue(name).value;
    var its := [Str(v)] + ([Punct(";")] + Lex(t));
    QuotelessLine(i, name, t);
    assert NameTokens(NameId(i), v) + Lex(t) == DeclTokens(NameId(i), its);
    DeclarationStep(NameId(i), its);
    InitializerIsName(v, [Punct(";")] + Lex(t));
    assert ([Punct(";")] + Lex(t))[1..] == Lex(t);
  }

  // ---------------------------------------------------------------- all declarations

  /** A file whose two declarations are in order. */
  predicate InOrder(f: File) { f.content != [] && NameValue(f.name).Some? }

  predicate AllInOrder(files: seq<File>) { forall k :: 0 <= k < |files| ==> InOrder(files[k]) }

  predicate AllQuoteless(files: seq<File>) { forall k :: 0 <= k < |files| ==> Quoteless(files[k].name) }

  /** What is declared: the same files under the names that their literals give. */
  function DeclaredFiles(files: seq<File>): (r: seq<File>)
    requires AllInOrder(files)
    ensures |r| == |files|
    ensures forall k :: 0 <= k < |files| ==> r[k] == File(DeclaredName(files[k].name), files[k].content)
  {
    seq(|files|, k requires 0 <= k < |files| => File(DeclaredName(files[k].name), files[k].content))
  }

  lemma FileDeclares(i: nat, f: File, more: string)
    requires Quoteless(f.name) && InOrder(f)
    ensures Declarations(Lex(more)).Some? ==>
      Declarations(Lex(DeclText(i, f) + more))
      == Some(([Decl(NameId(i), DeclaredName(f.name)), Decl(DataId(i), f.content)] + Declarations(Lex(more)).value.0,
               Declarations(Lex(more)).value.1))
  {
    hide Lex, Declarations, Declaration, StartsTable, DeclText, NameDeclText, DataDeclText, NameId, DataId, NameValue,
      DeclaredName;
    var data := DataDeclText(i, f.content) + more;
    var first, second := Decl(NameId(i), DeclaredName(f.name)), Decl(DataId(i), f.content);
    TwoDecls(i, f, more);
    QuotelessDeclares(i, f.name, data);
    DeclarationsStep(Lex(NameDeclText(i, f.name) + data), first, Lex(data));
    DataDeclReads(i, f.content, more);
    DeclarationsStep(Lex(data), second, Lex(more));
    if Declarations(Lex(more)).Some? {
      var ds := Declarations(Lex(more)).value.0;
      assert [first] + ([second] + ds) == [first, second] + ds;
    }
  }

  lemma {:induction false} DeclsDeclare(i: nat, files: seq<File>, t: string)
    requires AllQuoteless(files) && AllInOrder(files) && StartsTable(Lex(t))
    ensures Declarations(Lex(Numbered(DeclText, i, files) + t)) == Some((DeclsOf(i, DeclaredFiles(files)), Lex(t)))
    decreases |files|
  {
    hide Lex, DeclText, StartsTable, NameId, DataId, InOrder, DeclaredName;
    if files == [] {
      assert Numbered(DeclText, i, files) + t == t;
    } else {
      FirstOfNumbered(i, files, t);
      DeclsDeclare(i + 1, files[1..], t);
      FileDeclares(i, files[0], Numbered(DeclText, i + 1, files[1..]) + t);
      assert DeclaredFiles(files)[1..] == DeclaredFiles(files[1..]);
    }
  }

  // ---------------------------------------------------------------- the first fault

  lemma GoodJoins(a: seq<Token>, b: seq<Token>)
    requires AllGood(a) && AllGood(b)
    ensures AllGood(a + b)
  {}

  /** `ts` is good up to `rest`, or up to its first bad literal. */
  ghost predicate Leads(ts: seq<Token>, rest: seq<Token>) {
    exists a, b :: ts == a + b && AllGood(a) && (b == rest || (b != [] && b[0] == Bad))
  }

  lemma LeadsOn(a: seq<Token>, ts: seq<Token>, rest: seq<Token>)
    requires AllGood(a) && Leads(ts, rest)
    ensures Leads(a + ts, rest)
  {
    var b, c :| ts == b + c && AllGood(b) && (c == rest || (c != [] && c[0] == Bad));
    GoodJoins(a, b);
    CatAssoc(a, b, c);
    assert a + ts == (a + b) + c;
  }

  lemma LeadsToBad(a: seq<Token>, ts: seq<Token>, rest: seq<Token>)
    requires AllGood(a) && a + [Bad] <= ts
    ensures Leads(ts, rest) && Bad in ts
  {
    var b := ts[|a|..];
    assert ts == a + b && b[0] == ts[|a|] == Bad;
  }

  lemma HeadIsGood(id: string)
    ensures AllGood(Lex(STATIC_STRING)) && AllGood(Lex(STATIC_STRING) + [Ident(id), Punct("=")])
  {
    hide Lex, AllGood;
    StaticStringIsGood();
    PairIsGood(Ident(id), Punct("="));
    GoodJoins(Lex(STATIC_STRING), [Ident(id), Punct("=")]);
  }

  lemma PairIsGood(a: Token, b: Token)
    requires a != Bad && b != Bad && !a.Directive? && !b.Directive?
    ensures AllGood([a, b])
  {}

  lemma StaticStringIsGood()
    ensures AllGood(Lex(STATIC_STRING))
  {
    hide Lex;
    assert STATIC_STRING == "static" + " " + ("const" + " " + ("std" + ("::" + "string")));
    ThreeWords("static", "const", "std", "::" + "string");
    Pair("::", "string");
    Word("string", "");
    assert "string" + "" == "string";
    LexEmpty();
  }

  lemma NameTokensAreGood(id: string, v: string)
    ensures AllGood(NameTokens(id, v))
  {
    hide Lex, AllGood;
    HeadIsGood(id);
    PairIsGood(Str(v), Punct(";"));
    GoodJoins(Lex(STATIC_STRING) + [Ident(id), Punct("=")], [Str(v), Punct(";")]);
    assert Lex(STATIC_STRING) + [Ident(id), Punct("=")] + [Str(v), Punct(";")] == NameTokens(id, v);
  }

  lemma StdStringIsGood()
    ensures AllGood(Lex(STD_STRING))
  {
    hide Lex;
    StdStringTokens("");
    LexEmpty();
    assert STD_STRING + "" == STD_STRING;
  }

  /** The rows of a file are strings. */
  lemma {:induction false} RowsAreGood(content: seq<Octet>, t: string)
    ensures exists rows :: Lex(DataRows(content) + t) == rows + Lex(t) && AllGood(rows)
    decreases |content|
  {
    hide Lex, DataRow;
    if |content| <= 16 {
      DataRowReads(content, t);
      assert AllGood([Str(content)]);
    } else {
      var first := [Str(content[..16])];
      RowsAreGood(content[16..], t);
      var rows :| Lex(DataRows(content[16..]) + t) == rows + Lex(t) && AllGood(rows);
      CatAssoc(DataRow(content[..16]), DataRows(content[16..]), t);
      DataRowReads(content[..16], DataRows(content[16..]) + t);
      GoodJoins(first, rows);
      CatAssoc(first, rows, Lex(t));
    }
  }

  /** The declaration of a file's data. */
  lemma DataLeads(i: nat, content: seq<Octet>, t: string, rest: seq<Token>)
    requires Leads(Lex(t), rest)
    ensures Leads(Lex(DataDeclText(i, content) + t), rest)
  {
    hide Lex, AllGood, Leads, DataId, DataDeclText, DataRows, Decimal;
    var count := COUNT_OPEN + (Decimal(|content|) + (COUNT_CLOSE + t));
    var head := Lex(STATIC_STRING) + [Ident(DataId(i)), Punct("=")];
    DataDeclTokens(i, content, t);
    StdStringCut(DataText(content) + count);
    HeadIsGood(DataId(i));
    StdStringIsGood();
    if content == [] {
      CommaLine(Decimal(0) + (COUNT_CLOSE + t));
      assert DataText([]) + count == ['\"'] + count;
      QuoteStep(count);
      NothingLeads(Lex(['\"'] + count), rest);
    } else {
      RowsAreGood(content, count);
      var rows :| Lex(DataRows(content) + count) == rows + Lex(count) && AllGood(rows);
      CountTokens(|content|, t);
      CountIsGood(Decimal(|content|));
      LeadsOn([Punct(","), Number(Decimal(|content|)), Punct(")"), Punct(";")], Lex(t), rest);
      LeadsOn(rows, Lex(count), rest);
    }
    LeadsOn(Lex(STD_STRING), Lex(DataText(content) + count), rest);
    LeadsOn(head, Lex(STD_STRING) + Lex(DataText(content) + count), rest);
  }

  lemma CountIsGood(d: string)
    ensures AllGood([Punct(","), Number(d), Punct(")"), Punct(";")])
  {}

  lemma NothingLeads(ts: seq<Token>, rest: seq<Token>)
    requires ts != [] && ts[0] == Bad
    ensures Leads(ts, rest)
  {
    assert [] + [Bad] <= ts;
    LeadsToBad([], ts, rest);
  }

  lemma NameLeads(i: nat, name: string, t: string, rest: seq<Token>)
    requires Quoteless(name) && Leads(Lex(t), rest)
    ensures Leads(Lex(NameDeclText(i, name) + t), rest)
  {
    hide Lex, AllGood, Leads, NameId, NameDeclText, NameValue, NameTokens, Quoteless;
    QuotelessLine(i, name, t);
    if NameValue(name).Some? {
      NameTokensAreGood(NameId(i), NameValue(name).value);
      LeadsOn(NameTokens(NameId(i), NameValue(name).value), Lex(t), rest);
    } else {
      var head := Lex(STATIC_STRING) + [Ident(NameId(i)), Punct("=")];
      HeadIsGood(NameId(i));
      assert head + [Bad] == Lex(STATIC_STRING) + [Ident(NameId(i)), Punct("="), Bad];
      LeadsToBad(head, Lex(NameDeclText(i, name) + t), rest);
    }
  }

  /** The declarations of such files are in order up to the first bad literal, if there is one. */
  lemma {:induction false} DeclsLead(i: nat, files: seq<File>, t: string)
    requires AllQuoteless(files)
    ensures Leads(Lex(Numbered(DeclText, i, files) + t), Lex(t))
    decreases |files|
  {
    hide Lex, Leads, AllGood, DeclText, NameDeclText, DataDeclText, Quoteless;
    if files == [] {
      assert Numbered(DeclText, i, files) + t == t;
      LeadsAtOnce(Lex(t));
    } else {
      var f, more := files[0], Numbered(DeclText, i + 1, files[1..]) + t;
      FirstOfNumbered(i, files, t);
      DeclsLead(i + 1, files[1..], t);
      TwoDecls(i, f, more);
      DataLeads(i, f.content, more, Lex(t));
      NameLeads(i, f.name, DataDeclText(i, f.content) + more, Lex(t));
    }
  }

  lemma LeadsAtOnce(ts: seq<Token>)
    ensures Leads(ts, ts)
  {
    assert ts == [] + ts && AllGood([]);
  }

  /** A file that is not in order brings a bad literal. */
  lemma {:induction false} FaultIsBad(i: nat, files: seq<File>, bad: nat, t: string)
    requires bad < |files| && Quoteless(files[bad].name) && !InOrder(files[bad])
    ensures Bad in Lex(Numbered(DeclText, i, files) + t)
    decreases |files|
  {
    hide Lex, DeclText, NameDeclText, DataDeclText, NameValue, NameId;
    FirstOfNumbered(i, files, t);
    var f, more := files[0], Numbered(DeclText, i + 1, files[1..]) + t;
    DeclLines(i, f, more);
    if bad > 0 {
      FaultIsBad(i + 1, files[1..], bad - 1, t);
    } else if f.content == [] {
      EmptyDataIsBad(i);
    } else {
      QuotelessLine(i, f.name, "");
      assert NameDeclText(i, f.name) + "" == NameDeclText(i, f.name);
      var head := Lex(STATIC_STRING) + [Ident(NameId(i)), Punct("="), Bad];
      assert head[|head| - 1] == Bad && Lex(NameDeclText(i, f.name))[|head| - 1] == Bad;
    }
  }

  // ---------------------------------------------------------------- whole texts

  lemma {:induction false} TrigraphsMakeNoQuote(s: string)
    requires Quoteless(s)
    ensures Quoteless(Trigraphs(s))
    decreases |s|
  {
    if s != [] {
      assert s[0] in s;
      if StartsTrigraph(s) {
        TrigraphsMakeNoQuote(s[3..]);
      } else {
        TrigraphsMakeNoQuote(s[1..]);
      }
    }
  }

  lemma {:induction false} SpliceMakesNoQuote(s: string)
    requires Quoteless(s)
    ensures Quoteless(Splice(s))
    decreases |s|
  {
    if s != [] {
      assert s[0] in s;
      if StartsSplice(s) {
        SpliceMakesNoQuote(s[2..]);
      } else {
        SpliceMakesNoQuote(s[1..]);
      }
    }
  }

  lemma SeenQuoteless(files: seq<File>)
    requires AllQuoteless(files)
    ensures AllQuoteless(Seen(files))
  {
    hide Quoteless, Trigraphs, Splice;
    forall k | 0 <= k < |files|
      ensures Quoteless(Seen(files)[k].name)
    {
      TrigraphsMakeNoQuote(files[k].name);
      SpliceMakesNoQuote(Trigraphs(files[k].name));
    }
  }

  /** What the header of names without quotes says, for all of them: every file under the name that its literal gives,
      when all declarations are in order, and nothing otherwise. */
  lemma QuotelessHeader(files: seq<File>)
    requires AllQuoteless(files)
    ensures AllInOrder(Seen(files)) ==>
      ReadHeader(HeaderText(files)) == Some(HeaderOf(DeclaredFiles(Seen(files))))
    ensures !AllInOrder(Seen(files)) ==>
      ReadHeader(HeaderText(files)) == None && Bad in Lex(Phases(HeaderText(files)))
  {
    hide Lex, Phases, Quoteless, InOrder, Declarations, DeclsOf, RowsOf, Numbered, DeclText, TableTextOf, ParseHeader,
      ParseTable, HeaderText, WellFormed, PREAMBLE;
    var seen := Seen(files);
    PhasesOfHeader(files);
    SeenQuoteless(files);
    HeaderParses(seen);
    if AllInOrder(seen) {
      TableTextTokens(seen);
      TableParses(seen);
      DeclsDeclare(1, seen, TableTextOf(seen));
      HeaderWellFormed(DeclaredFiles(seen));
    } else {
      var bad :| 0 <= bad < |seen| && !InOrder(seen[bad]);
      FaultIsBad(1, seen, bad, TableTextOf(seen));
      HeaderTextParts(seen);
      GuardLines();
      LineEnd(PREAMBLE, Numbered(DeclText, 1, seen) + TableTextOf(seen));
      if ParseHeader(Lex(HeaderText(seen))).Some? {
        AcceptedIsGood(Lex(HeaderText(seen)));
      }
    }
  }

  /** After the preamble nothing but declarations comes before the table or the first bad literal: no directive and no
      other token can hide either. */
  lemma FirstFault(files: seq<File>)
    requires AllQuoteless(files)
    ensures exists ts ::
      Lex(Phases(HeaderText(files))) == Lex(PREAMBLE) + ts && Leads(ts, Lex(TableTextOf(Seen(files))))
  {
    hide Lex, Phases, Quoteless, Numbered, DeclText, TableTextOf, HeaderText, PREAMBLE, Leads;
    var seen := Seen(files);
    PhasesOfHeader(files);
    SeenQuoteless(files);
    HeaderTextParts(seen);
    GuardLines();
    LineEnd(PREAMBLE, Numbered(DeclText, 1, seen) + TableTextOf(seen));
    DeclsLead(1, seen, TableTextOf(seen));
  }

  /** What a run leaves behind that cannot open a file never closes the `#ifndef` of its preamble, unless a bad literal
      comes first. */
  lemma StoppedRunIsOpen(files: seq<File>)
    requires AllQuoteless(files)
    ensures exists ts :: Lex(Phases(PREAMBLE + Numbered(DeclText, 1, files))) == Lex(PREAMBLE) + ts && Leads(ts, [])
  {
    hide Lex, Phases, Quoteless, Numbered, DeclText, PREAMBLE, Leads;
    var seen := Seen(files);
    PhasesOfStopped(files);
    SeenQuoteless(files);
    GuardLines();
    LineEnd(PREAMBLE, Numbered(DeclText, 1, seen));
    DeclsLead(1, seen, "");
    LexEmpty();
    assert Numbered(DeclText, 1, seen) + "" == Numbered(DeclText, 1, seen);
  }

  lemma LeadsToFirstBad(ts: seq<Token>, rest: seq<Token>)
    requires Leads(ts, rest) && Bad in ts && Bad !in rest
    ensures exists a, b :: ts == a + ([Bad] + b) && AllGood(a)
  {
    var a, b :| ts == a + b && AllGood(a) && (b == rest || (b != [] && b[0] == Bad));
    assert b == [Bad] + b[1..];
  }

  /** The preamble and the table hold no bad literal. */
  lemma BadIsBetween(files: seq<File>, ts: seq<Token>)
    requires Bad in Lex(PREAMBLE) + ts
    ensures Bad in ts && Bad !in Lex(TableTextOf(files))
  {
    hide Lex, Quiet, TableTextOf, PREAMBLE;
    PreambleIsQuiet();
    NoQuoteNoBad(PREAMBLE);
    TableParses(files);
    TableHasNoBad(Lex(TableTextOf(files)));
  }

  lemma TableHasNoBad(ts: seq<Token>)
    requires ParseTable(ts).Some?
    ensures Bad !in ts
  {
    hide ParseTable, IsEnd, Consumed;
    NothingConsumed(ts);
    var end := TableConsumes(ts, ts);
    ConsumedIs(ts, end);
    EndIsOne(end);
    var n := |ts| - 1;
    forall k | 0 <= k < |ts|
      ensures ts[k] != Bad
    {
      if k < n {
        assert ts[..n][k] == ts[k];
      } else {
        assert ts[n..][0] == ts[k];
      }
    }
  }

  /** With an empty file the declarations end in a bad literal. */
  lemma EmptyFileEndsInBad(files: seq<File>, bad: nat)
    requires AllQuoteless(files) && bad < |files| && files[bad].content == []
    ensures exists ts, a, b ::
      Lex(Phases(HeaderText(files))) == Lex(PREAMBLE) + ts && ts == a + ([Bad] + b) && AllGood(a)
  {
    assert !InOrder(Seen(files)[bad]);
    hide *;
    FirstFault(files);
    var seen := Seen(files);
    var ts :| Lex(Phases(HeaderText(files))) == Lex(PREAMBLE) + ts && Leads(ts, Lex(TableTextOf(seen)));
    NotAllInOrder(seen, bad);
    QuotelessHeader(files);
    BadIsBetween(seen, ts);
    LeadsToFirstBad(ts, Lex(TableTextOf(seen)));
  }

  lemma NotAllInOrder(files: seq<File>, bad: nat)
    requires bad < |files| && !InOrder(files[bad])
    ensures !AllInOrder(files)
  {
    hide InOrder;
  }

  // ---------------------------------------------------------------- when a name declares itself

  /** When a header of such names does not say what it should, it brings a bad literal or declares a name that is
      shorter than the one it was given. */
  lemma QuotelessExactly(files: seq<File>)
    requires AllQuoteless(files) && !(forall k :: 0 <= k < |files| ==> Readable(files[k]))
    ensures AllInOrder(Seen(files)) ==>
      exists k :: 0 <= k < |files| && |DeclaredName(Seen(files)[k].name)| < |files[k].name|
  {
    hide Phases, Plain, NameValue, Span;
    if AllInOrder(Seen(files)) {
      var k :| 0 <= k < |files| && !Readable(files[k]);
      assert InOrder(Seen(files)[k]) && !Plain(files[k].name);
      SeenQuoteless(files);
      ShorterName(files[k].name);
    }
  }

  lemma ShorterName(name: string)
    requires Quoteless(Phases(name)) && !Plain(name) && NameValue(Phases(name)).Some?
    ensures |DeclaredName(Phases(name))| < |name|
  {
    hide Phases, Plain, Literal;
    var seen := Phases(name);
    NotPlain(name);
    ValueOfQuoteless(seen);
    var v := NameValue(seen).value;
    if v == seen == name {
      assert NUL in name;
      NulCutsShort(name);
    }
  }

  /** The value is shorter than the name unless the name has no backslash and no newline. */
  lemma ValueOfQuoteless(n: string)
    requires Quoteless(n) && NameValue(n).Some?
    ensures var v := NameValue(n).value; |v| < |n| || (v == n && '\\' !in n && '\n' !in n)
  {
    hide Literal, Quoteless;
    LiteralOfQuoteless(n, "");
    LiteralInName(n, "");
    forall k | 0 < k <= |n|
      ensures SEMICOLON + "" != n[k..] + AfterName("")
    {
      LongerRest(n[k..]);
    }
  }

  lemma LongerRest(m: string)
    ensures SEMICOLON + "" != m + AfterName("")
  {
    assert |m + AfterName("")| >= 3;
  }
}
