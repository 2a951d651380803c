/** Reading back a whole header with the reader of `CppReader`: it gives exactly the files that the header was made from
    if and only if every file has at least one byte and every name is plain; of a header with an empty file, and of what
    a stopped run leaves behind, it makes nothing, whatever the names.  A name with a quote can be made into text that
    this reader does not know and a compiler takes; `QuotelessNames` says what holds without quotes. */
module HeaderReading {
  import opened Wrappers
  import opened CppReader
  import opened LexerLaws
  import opened HeaderPrinter
  import opened SourcePhases
  import opened LiteralReading
  import opened HeaderTokens
  import opened DeclarationReading
  import opened AcceptedTokens
  import opened FindParsing

  // ---------------------------------------------------------------- what the header should say

  predicate Readable(f: File) { Plain(f.name) && f.content != [] }

  /** The declarations of `files`, numbered from `i`. */
  function DeclsOf(i: nat, files: seq<File>): seq<Decl>
    decreases |files|
  {
    if files == [] then []
    else [Decl(NameId(i), files[0].name), Decl(DataId(i), files[0].content)] + DeclsOf(i + 1, files[1..])
  }

  /** The table of `n` files, numbered from `i`. */
  function RowsOf(i: nat, n: nat): seq<Row>
    decreases n
  {
    if n == 0 then [Null] else [Ref(NameId(i), DataId(i))] + RowsOf(i + 1, n - 1)
  }

  function HeaderOf(files: seq<File>): Header {
    Header(DeclsOf(1, files), RowsOf(1, |files|), SHAPE, FIND)
  }

  // ---------------------------------------------------------------- the declarations

  lemma DeclarationsStep(ts: seq<Token>, d: Decl, more: seq<Token>)
    requires !StartsTable(ts) && Declaration(ts) == Some((d, more))
    ensures Declarations(more).None? ==> Declarations(ts).None?
    ensures Declarations(more).Some? ==>
      Declarations(ts) == Some(([d] + Declarations(more).value.0, Declarations(more).value.1))
  {
    hide Declaration, StartsTable;
  }

  lemma TwoDecls(i: nat, f: File, more: string)
    ensures DeclText(i, f) + more == NameDeclText(i, f.name) + (DataDeclText(i, f.content) + more)
  {
    hide NameDeclText, DataDeclText;
    CatAssoc(NameDeclText(i, f.name), DataDeclText(i, f.content), more);
  }

  /** The two declarations of a file whose name and data can be read back. */
  lemma FileReads(i: nat, f: File, more: string)
    requires Readable(f)
    ensures Declarations(Lex(more)).None? ==> Declarations(Lex(DeclText(i, f) + more)).None?
    ensures Declarations(Lex(more)).Some? ==>
      Declarations(Lex(DeclText(i, f) + more))
      == Some(([Decl(NameId(i), f.name), Decl(DataId(i), f.content)] + Declarations(Lex(more)).value.0,
               Declarations(Lex(more)).value.1))
  {
    hide Lex, Phases, HasTrigraph, Declarations, Declaration, StartsTable, DeclText, NameDeclText, DataDeclText, NameId,
      DataId;
    var data := DataDeclText(i, f.content) + more;
    TwoDecls(i, f, more);
    NameDeclReads(i, f.name, data);
    DeclarationsStep(Lex(NameDeclText(i, f.name) + data), Decl(NameId(i), f.name), Lex(data));
    DataDeclReads(i, f.content, more);
    DeclarationsStep(Lex(data), Decl(DataId(i), f.content), Lex(more));
    if Declarations(Lex(more)).Some? {
      var ds := Declarations(Lex(more)).value.0;
      assert [Decl(NameId(i), f.name)] + ([Decl(DataId(i), f.content)] + ds)
          == [Decl(NameId(i), f.name), Decl(DataId(i), f.content)] + ds;
    }
  }

  lemma FirstOfNumbered(i: nat, files: seq<File>, t: string)
    requires files != []
    ensures Numbered(DeclText, i, files) + t
         == DeclText(i, files[0]) + (Numbered(DeclText, i + 1, files[1..]) + t)
  {
    hide DeclText;
    CatAssoc(DeclText(i, files[0]), Numbered(DeclText, i + 1, files[1..]), t);
  }

  lemma {:induction false} DeclsRead(i: nat, files: seq<File>, t: string)
    requires forall k :: 0 <= k < |files| ==> Readable(files[k])
    requires StartsTable(Lex(t))
    ensures Declarations(Lex(Numbered(DeclText, i, files) + t)) == Some((DeclsOf(i, files), Lex(t)))
    decreases |files|
  {
    hide Lex, DeclText, StartsTable, NameId, DataId;
    if files == [] {
      assert Numbered(DeclText, i, files) + t == t;
    } else {
      FirstOfNumbered(i, files, t);
      DeclsRead(i + 1, files[1..], t);
      FileReads(i, files[0], Numbered(DeclText, i + 1, files[1..]) + t);
    }
  }

  /** What the first declaration gives when the first file cannot be read back. */
  lemma FileDiffers(i: nat, f: File, more: string)
    requires !Readable(f)
    ensures var r := Declarations(Lex(DeclText(i, File(Phases(f.name), f.content)) + more));
      r.Some? ==> r.value.0 != [] && r.value.0[0] != Decl(NameId(i), f.name)
  {
    hide Lex, Phases, Plain, Declaration, StartsTable, DeclText, NameDeclText, DataDeclText, NameId, DataId;
    var seen := Phases(f.name);
    var data := DataDeclText(i, f.content) + more;
    TwoDecls(i, File(seen, f.content), more);
    if Plain(f.name) {
      PlainStays(f.name);
      PlainIsVerbatim(f.name);
      NameDeclReads(i, f.name, data);
      EmptyDataFails(i, more);
      assert f.content == [];
    } else {
      NotPlain(f.name);
      NameDeclDiffers(i, seen, f.name, data);
    }
  }

  lemma PlainIsVerbatim(name: string)
    requires Plain(name)
    ensures Verbatim(name)
  {}

  lemma {:induction false} DeclsDiffer(i: nat, files: seq<File>, bad: nat, t: string)
    requires bad < |files| && !Readable(files[bad])
    ensures var r := Declarations(Lex(Numbered(DeclText, i, Seen(files)) + t));
      r.Some? ==> r.value.0 != DeclsOf(i, files)
    decreases |files|
  {
    hide Lex, Phases, DeclText, Declarations, NameId, DataId, Readable;
    FirstOfNumbered(i, Seen(files), t);
    assert Seen(files)[1..] == Seen(files[1..]);
    var more := Numbered(DeclText, i + 1, Seen(files[1..])) + t;
    if Readable(files[0]) {
      ReadableStays(files[0]);
      DeclsDiffer(i + 1, files[1..], bad - 1, t);
      FileReads(i, files[0], more);
      if Declarations(Lex(more)).Some? {
        var ds := Declarations(Lex(more)).value.0;
        var head := [Decl(NameId(i), files[0].name), Decl(DataId(i), files[0].content)];
        assert (head + ds)[2..] == ds && (head + DeclsOf(i + 1, files[1..]))[2..] == DeclsOf(i + 1, files[1..]);
      }
    } else {
      FileDiffers(i, files[0], more);
    }
  }

  lemma ReadableStays(f: File)
    requires Readable(f)
    ensures File(Phases(f.name), f.content) == f
  {
    hide Phases, Plain;
    PlainStays(f.name);
  }

  lemma ReadableStay(files: seq<File>)
    requires forall k :: 0 <= k < |files| ==> Readable(files[k])
    ensures Seen(files) == files
  {
    hide Phases, Readable;
    forall k | 0 <= k < |files|
      ensures Seen(files)[k] == files[k]
    {
      ReadableStays(files[k]);
    }
  }

  // ---------------------------------------------------------------- the table

  const NULL_LINE := "  {NULL, NULL}\n"

  lemma NullLineTokens(t: string)
    ensures Lex(NULL_LINE + t) == Lex("{NULL, NULL}") + Lex(t)
  {
    hide Lex;
    assert NULL_LINE + t == [' '] + ([' '] + ("{NULL, NULL}" + "\n" + t));
    LexLines("{NULL, NULL}", t);
    LexBlank(' ', "{NULL, NULL}" + "\n" + t);
    LexBlank(' ', [' '] + ("{NULL, NULL}" + "\n" + t));
  }

  lemma NullRowReads(t: string)
    ensures Rows(Lex(NULL_LINE + t)) == Some(([Null], Lex(t)))
  {
    hide Lex;
    NullLineTokens(t);
    NullTokens();
    var head := Lex("{NULL, NULL}");
    var ts := head + Lex(t);
    assert ts[1] == head[1] == Ident("NULL");
    assert ts[..|head|] == head && ts[|head|..] == Lex(t);
  }

  lemma RowReads(i: nat, f: File, more: string)
    ensures Rows(Lex(more)).Some? ==>
      Rows(Lex(RowText(i, f) + more))
      == Some(([Ref(NameId(i), DataId(i))] + Rows(Lex(more)).value.0, Rows(Lex(more)).value.1))
  {
    hide Lex, NameId, DataId;
    IdsAreWords(i);
    RefTokens(NameId(i), DataId(i), more);
    RegroupRow(ROW_OPEN, NameId(i), ROW_COMMA, DataId(i), ROW_CLOSE, more);
    var ts := Lex(RowText(i, f) + more);
    assert ts[8..] == Lex(more);
  }

  lemma RegroupRow(a: string, b: string, c: string, d: string, e: string, t: string)
    ensures a + b + c + d + e + t == a + (b + (c + (d + (e + t))))
  {}

  lemma {:induction false} RowsRead(i: nat, files: seq<File>, t: string)
    ensures Rows(Lex(Numbered(RowText, i, files) + (NULL_LINE + t))) == Some((RowsOf(i, |files|), Lex(t)))
    decreases |files|
  {
    hide Lex, Rows, RowText, NameId, DataId;
    var end := NULL_LINE + t;
    if files == [] {
      assert Numbered(RowText, i, files) + end == end;
      NullRowReads(t);
    } else {
      var more := Numbered(RowText, i + 1, files[1..]) + end;
      CatAssoc(RowText(i, files[0]), Numbered(RowText, i + 1, files[1..]), end);
      RowsRead(i + 1, files[1..], t);
      RowReads(i, files[0], more);
    }
  }

  // ---------------------------------------------------------------- the rest of the text

  const END := ENDIF_LINE + "\n"

  /** What follows the row of null pointers. */
  const AFTER_TABLE := "};\n\n" + ((CODE + "\n") + END)

  lemma ClosingParts()
    ensures CLOSING == NULL_LINE + AFTER_TABLE
  {
    hide CODE;
    CatAssoc(NULL_LINE, "};\n\n", CODE + "\n");
    CatAssoc(NULL_LINE, "};\n\n" + (CODE + "\n"), END);
    CatAssoc("};\n\n", CODE + "\n", END);
  }

  lemma LineOf(line: string)
    ensures Lex(line + "\n") == Lex(line)
  {
    hide Lex;
    LexLines(line, "");
    LexEmpty();
    assert line + "\n" + "" == line + "\n";
  }

  lemma EndTokens()
    ensures Lex(END) == [Directive(ENDIF_LINE)] && IsEnd(Lex(END))
  {
    EndText();
    hide Lex, ENDIF_LINE;
    LexDirective(ENDIF_LINE);
    LineOf(ENDIF_LINE);
  }

  lemma EndText()
    ensures IsDirective(ENDIF_LINE) && ENDIF <= ENDIF_LINE
  {
    DirectiveOf("#endif", " /* TRANSLATION_FILES_H */");
    assert ENDIF_LINE[..6] == ENDIF;
  }

  /** What follows the rows of the table: its end, the function, and the end of the header. */
  lemma AfterTableReads()
    ensures var ts := Lex(AFTER_TABLE); var after := Lex(CODE + ("\n" + END));
      && Skip(ts, "}") == Some([Punct(";")] + after) && Skip([Punct(";")] + after, ";") == Some(after)
      && ParseFunction(after) == Some((FIND, Lex(END)))
  {
    hide Lex, CODE, ParseFunction;
    var rest := CODE + ("\n" + END);
    CatAssoc(CODE, "\n", END);
    assert AFTER_TABLE == ['}'] + ([';'] + (['\n'] + (['\n'] + rest)));
    LexMark('}', [';'] + (['\n'] + (['\n'] + rest)));
    LexMark(';', ['\n'] + (['\n'] + rest));
    LexBlank('\n', ['\n'] + rest);
    LexBlank('\n', rest);
    SkipMark("}", [Punct(";")] + Lex(rest));
    SkipMark(";", Lex(rest));
    CodeParses("\n" + END);
    LexBlank('\n', END);
  }

  lemma PreambleTokens(t: string)
    ensures Lex(PREAMBLE + t) == Lex(PREAMBLE) + Lex(t)
    ensures StartsGuard(Lex(PREAMBLE) + Lex(t)) && (Lex(PREAMBLE) + Lex(t))[3..] == Lex(t)
  {
    GuardLines();
    hide Lex;
    var ts := Lex(PREAMBLE);
    LineEnd(PREAMBLE, t);
    assert (ts + Lex(t))[..3] == ts;
    assert (ts + Lex(t))[0] == ts[0] && (ts + Lex(t))[1] == ts[1] && (ts + Lex(t))[2] == ts[2];
  }

  /** The preamble is three directives. */
  lemma GuardLines()
    ensures PREAMBLE != [] && PREAMBLE[|PREAMBLE| - 1] == '\n'
    ensures |Lex(PREAMBLE)| == 3 && StartsGuard(Lex(PREAMBLE))
  {
    GuardTexts();
    hide Lex, IFNDEF_LINE, DEFINE_LINE, INCLUDE_LINE, Asked;
    var a, b, c := IFNDEF_LINE, DEFINE_LINE, INCLUDE_LINE;
    var tail := c + "\n" + "\n";
    assert "\n" + tail == ['\n'] + tail;
    LexLines(a, b + "\n" + ("\n" + tail));
    LexLines(b, "\n" + tail);
    LexBlank('\n', tail);
    LexLines(c, "\n");
    LineOf("");
    LexEmpty();
    assert "" + "\n" == "\n";
    LexDirective(a);
    LexDirective(b);
    LexDirective(c);
  }

  predicate IsDirective(s: string) { s != [] && s[0] == '#' && forall k :: 0 <= k < |s| ==> s[k] != '\n' }

  lemma GuardTexts()
    ensures IsDirective(IFNDEF_LINE) && IsDirective(DEFINE_LINE) && IsDirective(INCLUDE_LINE)
    ensures Asked(IFNDEF_LINE) == Some("TRANSLATION_FILES_H") && DEFINE_LINE == DEFINE + "TRANSLATION_FILES_H"
    ensures INCLUDE_LINE == INCLUDE
  {
    DirectiveOf("#ifndef ", "TRANSLATION_FILES_H");
    DirectiveOf("#define ", "TRANSLATION_FILES_H");
    assert IFNDEF_LINE[..8] == IFNDEF && IFNDEF_LINE[8..] == "TRANSLATION_FILES_H";
  }

  lemma DirectiveOf(a: string, b: string)
    requires IsDirective(a) && forall k :: 0 <= k < |b| ==> b[k] != '\n'
    ensures IsDirective(a + b)
  {}

  /** The text of the table, from its type on. */
  function TableTextOf(files: seq<File>): string {
    TABLE_TYPE + Numbered(RowText, 1, files) + CLOSING
  }

  lemma TableTextTokens(files: seq<File>)
    ensures Lex(TableTextOf(files)) == SHAPE_TOKENS + Lex(Numbered(RowText, 1, files) + (NULL_LINE + AFTER_TABLE))
    ensures StartsTable(Lex(TableTextOf(files)))
  {
    hide Lex, Numbered, RowText, SHAPE_TOKENS, TABLE_TYPE, CLOSING, AFTER_TABLE;
    var rows := Numbered(RowText, 1, files);
    ClosingParts();
    CatAssoc(TABLE_TYPE, rows, CLOSING);
    TableTypeTokens(rows + CLOSING);
    ShapeStarts(Lex(rows + CLOSING));
  }

  lemma TableParses(files: seq<File>)
    ensures ParseTable(Lex(TableTextOf(files))) == Some(Table(SHAPE, RowsOf(1, |files|), FIND))
  {
    hide Lex, Numbered, RowText, Rows, RowsOf, SHAPE_TOKENS, AFTER_TABLE, TableTextOf, StartsShape, ParseFunction,
      IsEnd, FIND, SHAPE;
    TableTextTokens(files);
    var rows := Lex(Numbered(RowText, 1, files) + (NULL_LINE + AFTER_TABLE));
    ShapeStarts(rows);
    RowsRead(1, files, AFTER_TABLE);
    AfterTableReads();
    EndTokens();
  }

  /** Parsing the whole text comes down to reading its declarations. */
  lemma HeaderParses(files: seq<File>)
    ensures var r := Declarations(Lex(Numbered(DeclText, 1, files) + TableTextOf(files)));
      ParseHeader(Lex(HeaderText(files))) ==
        if r.None? || ParseTable(r.value.1).None? then None
        else
          var table := ParseTable(r.value.1).value;
          Some(Header(r.value.0, table.rows, table.shape, table.code))
  {
    hide Lex, Numbered, DeclText, Declarations, ParseTable, PREAMBLE, TableTextOf, StartsGuard;
    var decls := Numbered(DeclText, 1, files) + TableTextOf(files);
    HeaderTextParts(files);
    PreambleTokens(decls);
  }

  lemma HeaderTextParts(files: seq<File>)
    ensures HeaderText(files) == PREAMBLE + (Numbered(DeclText, 1, files) + TableTextOf(files))
  {
    hide Numbered, RowText, DeclText, PREAMBLE, TABLE_TYPE, CLOSING;
    CatAssoc(PREAMBLE, Numbered(DeclText, 1, files), TableTextOf(files));
  }

  // ---------------------------------------------------------------- identifiers

  lemma NameIdInjective(i: nat, j: nat)
    requires NameId(i) == NameId(j) || DataId(i) == DataId(j)
    ensures i == j
  {
    hide Decimal;
    var n := |NAME_STEM|;
    assert |NAME_STEM| == |DATA_STEM|;
    assert NameId(i)[n..] == Decimal(i) && DataId(i)[n..] == Decimal(i);
    assert NameId(j)[n..] == Decimal(j) && DataId(j)[n..] == Decimal(j);
    DecimalInjective(i, j);
  }

  lemma IdsDiffer(i: nat, j: nat)
    ensures NameId(i) != DataId(j)
  {
    hide Decimal;
    assert NameId(i)[17] == 'n' && DataId(j)[17] == 'd';
  }

  /** The `k`th file has the declarations `2k` and `2k + 1`. */
  lemma {:induction false} DeclsAt(i: nat, files: seq<File>, k: nat)
    requires k < |files|
    ensures |DeclsOf(i, files)| == 2 * |files|
    ensures DeclsOf(i, files)[2 * k] == Decl(NameId(i + k), files[k].name)
    ensures DeclsOf(i, files)[2 * k + 1] == Decl(DataId(i + k), files[k].content)
    decreases |files|
  {
    hide NameId, DataId;
    if |files| > 1 {
      DeclsAt(i + 1, files[1..], if k == 0 then 0 else k - 1);
    }
    if k > 0 {
      assert files[1..][k - 1] == files[k];
    }
  }

  lemma {:induction false} RowsAt(i: nat, n: nat, k: nat)
    requires k <= n
    ensures |RowsOf(i, n)| == n + 1
    ensures RowsOf(i, n)[k] == if k < n then Ref(NameId(i + k), DataId(i + k)) else Null
    decreases n
  {
    hide NameId, DataId;
    if n > 0 {
      RowsAt(i + 1, n - 1, if k == 0 then 0 else k - 1);
    }
  }

  lemma IdAt(files: seq<File>, m: nat)
    requires m < 2 * |files|
    ensures |DeclsOf(1, files)| == 2 * |files|
    ensures DeclsOf(1, files)[m].id == if m % 2 == 0 then NameId(1 + m / 2) else DataId(1 + m / 2)
  {
    hide NameId, DataId, DeclsOf;
    DeclsAt(1, files, m / 2);
  }

  lemma IdsDistinct(files: seq<File>, j: nat, k: nat)
    requires j < k < |DeclsOf(1, files)|
    ensures DeclsOf(1, files)[j].id != DeclsOf(1, files)[k].id
  {
    hide NameId, DataId, DeclsOf;
    if files != [] {
      DeclsAt(1, files, 0);
      IdAt(files, j);
      IdAt(files, k);
      IdsDiffer(1 + j / 2, 1 + k / 2);
      IdsDiffer(1 + k / 2, 1 + j / 2);
      if j % 2 == k % 2 && DeclsOf(1, files)[j].id == DeclsOf(1, files)[k].id {
        NameIdInjective(1 + j / 2, 1 + k / 2);
      }
    } else {
      NoDecls();
    }
  }

  lemma NoDecls()
    ensures DeclsOf(1, []) == []
  {}

  /** Every row refers to the two declarations of its own file, and no identifier is declared twice. */
  lemma HeaderWellFormed(files: seq<File>)
    ensures WellFormed(HeaderOf(files))
  {
    hide NameId, DataId, DeclsOf, RowsOf;
    var decls, rows := DeclsOf(1, files), RowsOf(1, |files|);
    forall j, k | 0 <= j < k < |decls|
      ensures decls[j].id != decls[k].id
    {
      IdsDistinct(files, j, k);
    }
    forall k | 0 <= k < |rows| && rows[k].Ref?
      ensures Declares(decls, rows[k].first) && Declares(decls, rows[k].second)
    {
      RowsAt(1, |files|, 0);
      RowsAt(1, |files|, k);
      DeclsAt(1, files, k);
      assert decls[2 * k].id == rows[k].first && decls[2 * k + 1].id == rows[k].second;
    }
  }

  // ---------------------------------------------------------------- main results

  /** Every header of readable files reads back as those files. */
  lemma HeaderReadsBack(files: seq<File>)
    requires forall k :: 0 <= k < |files| ==> Readable(files[k])
    ensures ReadHeader(HeaderText(files)) == Some(HeaderOf(files))
  {
    hide Lex, Phases, Readable, Declarations, DeclsOf, RowsOf, Numbered, DeclText, TableTextOf, ParseHeader, ParseTable,
      HeaderText, WellFormed;
    PhasesOfHeader(files);
    ReadableStay(files);
    TableTextTokens(files);
    TableParses(files);
    DeclsRead(1, files, TableTextOf(files));
    HeaderParses(files);
    HeaderWellFormed(files);
  }

  /** This reader finds in the header what it should hold if and only if every file has a byte and every name is
      plain. */
  lemma HeaderReadsBackExactly(files: seq<File>)
    ensures ReadHeader(HeaderText(files)) == Some(HeaderOf(files))
       <==> forall k :: 0 <= k < |files| ==> Readable(files[k])
  {
    hide Lex, Phases, Readable, Declarations, DeclsOf, RowsOf, Numbered, DeclText, TableTextOf, ParseHeader, ParseTable,
      HeaderText, WellFormed;
    if forall k :: 0 <= k < |files| ==> Readable(files[k]) {
      HeaderReadsBack(files);
    } else {
      var bad :| 0 <= bad < |files| && !Readable(files[bad]);
      PhasesOfHeader(files);
      DeclsDiffer(1, files, bad, TableTextOf(Seen(files)));
      HeaderParses(Seen(files));
    }
  }

  ghost predicate ReadsBack(files: seq<File>) { ReadHeader(HeaderText(files)) == Some(HeaderOf(files)) }

  const NO_BYTES := File("fr.qm", [])
  const QUOTED := File("a\"b", ['c'])
  const TRIGRAPH := File("a??/b", ['c'])

  /** Three inputs for which the header does not say what it should: an empty file, a quote in a name, and a trigraph
      in a name. */
  lemma HeadersThatDiffer()
    ensures !ReadsBack([NO_BYTES]) && !ReadsBack([QUOTED]) && !ReadsBack([TRIGRAPH])
  {
    hide ReadHeader, HeaderText, HeaderOf;
    HeaderReadsBackExactly([NO_BYTES]);
    HeaderReadsBackExactly([QUOTED]);
    HeaderReadsBackExactly([TRIGRAPH]);
    assert !Readable([NO_BYTES][0]);
    assert !IsPlain(QUOTED.name[1]);
    assert !Readable([QUOTED][0]);
    assert StartsTrigraph(TRIGRAPH.name[1..]);
    assert !Readable([TRIGRAPH][0]);
  }

  // ---------------------------------------------------------------- texts that are never accepted

  lemma NameDeclLine(i: nat, name: string, t: string)
    ensures Lex(NameDeclText(i, name) + t) == Lex(NameDeclText(i, name)) + Lex(t)
  {
    hide Lex, NameId;
    LineEnd(NameDeclText(i, name), t);
  }

  lemma DataDeclLine(i: nat, content: seq<Octet>, t: string)
    ensures Lex(DataDeclText(i, content) + t) == Lex(DataDeclText(i, content)) + Lex(t)
  {
    hide Lex, DataId, DataText, Decimal;
    LineEnd(DataDeclText(i, content), t);
  }

  lemma DeclLines(i: nat, f: File, t: string)
    ensures Lex(DeclText(i, f) + t) == Lex(NameDeclText(i, f.name)) + Lex(DataDeclText(i, f.content)) + Lex(t)
  {
    hide Lex, DeclText, NameDeclText, DataDeclText;
    TwoDecls(i, f, t);
    NameDeclLine(i, f.name, DataDeclText(i, f.content) + t);
    DataDeclLine(i, f.content, t);
  }

  /** The line of an empty file holds a literal that does not end. */
  lemma EmptyDataIsBad(i: nat)
    ensures Bad in Lex(DataDeclText(i, []))
  {
    hide Lex, DataId, DataDeclText, Decimal;
    var count := COUNT_OPEN + (Decimal(0) + (COUNT_CLOSE + ""));
    var quote := DataText([]) + count;
    DataDeclTokens(i, [], "");
    assert DataDeclText(i, []) + "" == DataDeclText(i, []);
    StdStringCut(quote);
    assert quote == ['\"'] + count;
    QuoteStep(count);
    CommaLine(Decimal(0) + (COUNT_CLOSE + ""));
    assert Lex(quote)[0] in Lex(quote);
  }

  lemma {:induction false} EmptyFileIsBad(i: nat, files: seq<File>, bad: nat, t: string)
    requires bad < |files| && files[bad].content == []
    ensures Bad in Lex(Numbered(DeclText, i, files) + t)
    decreases |files|
  {
    hide Lex, DeclText, NameDeclText, DataDeclText;
    FirstOfNumbered(i, files, t);
    DeclLines(i, files[0], Numbered(DeclText, i + 1, files[1..]) + t);
    if bad == 0 {
      EmptyDataIsBad(i);
    } else {
      EmptyFileIsBad(i + 1, files[1..], bad - 1, t);
    }
  }

  /** One empty file is enough for this reader to make nothing of the header, whatever the names. */
  lemma HeaderOfEmptyFile(files: seq<File>, bad: nat)
    requires bad < |files| && files[bad].content == []
    ensures ReadHeader(HeaderText(files)) == None
  {
    hide Lex, Phases, Numbered, DeclText, TableTextOf, ParseHeader, HeaderText, WellFormed, PREAMBLE;
    PhasesOfHeader(files);
    var decls := Numbered(DeclText, 1, Seen(files)) + TableTextOf(Seen(files));
    EmptyFileIsBad(1, Seen(files), bad, TableTextOf(Seen(files)));
    HeaderTextParts(Seen(files));
    GuardLines();
    LineEnd(PREAMBLE, decls);
    if ParseHeader(Lex(HeaderText(Seen(files)))).Some? {
      AcceptedIsGood(Lex(HeaderText(Seen(files))));
    }
  }

  /** Declarations end in a semicolon. */
  lemma DataDeclEnds(i: nat, content: seq<Octet>)
    ensures EndsIn(Lex(DataDeclText(i, content)), Punct(";"))
  {
    hide Lex, DataId, DataText, Decimal;
    var head := STATIC_STRING + " " + DataId(i) + EQUALS + STD_STRING + DataText(content);
    var count := Decimal(|content|) + (COUNT_CLOSE + "");
    assert DataDeclText(i, content) == (head + ",") + "\n" + ([' '] + ([' '] + count)) by {
      RegroupCount(head, COUNT_OPEN, Decimal(|content|), COUNT_CLOSE);
      assert COUNT_OPEN == "," + "\n" + "  ";
    }
    LexLines(head + ",", [' '] + ([' '] + count));
    CountEnds(|content|);
  }

  lemma RegroupCount(a: string, b: string, c: string, d: string)
    ensures a + b + c + d == a + (b + (c + (d + "")))
  {}

  lemma CountEnds(n: nat)
    ensures EndsIn(Lex([' '] + ([' '] + (Decimal(n) + (COUNT_CLOSE + "")))), Punct(";"))
  {
    hide Lex, Decimal;
    var count := Decimal(n) + (COUNT_CLOSE + "");
    var line := [' '] + ([' '] + count);
    CountTokens(n, "");
    LexEmpty();
    assert COUNT_OPEN + count == [','] + (['\n'] + line);
    LexMark(',', ['\n'] + line);
    LexBlank('\n', line);
    var all := [Punct(",")] + Lex(line);
    assert all[3] == Punct(";") && |all| == 4;
  }

  lemma LastDeclEnds(files: seq<File>)
    requires files != []
    ensures EndsIn(Lex(PREAMBLE + Numbered(DeclText, 1, files)), Punct(";"))
  {
    hide Lex, DeclText, NameDeclText, DataDeclText, Numbered, PREAMBLE;
    var n := |files| - 1;
    var before, f := files[..n], files[n];
    var start := PREAMBLE + Numbered(DeclText, 1, before);
    assert files == before + [f];
    NumberedAppend(DeclText, 1, before, f);
    CatAssoc(PREAMBLE, Numbered(DeclText, 1, before), DeclText(1 + n, f));
    StartEnds(before);
    LineEnd(start, DeclText(1 + n, f));
    DeclLines(1 + n, f, "");
    LexEmpty();
    assert DeclText(1 + n, f) + "" == DeclText(1 + n, f);
    DataDeclEnds(1 + n, f.content);
  }

  lemma {:induction false} StartEnds(files: seq<File>)
    ensures var start := PREAMBLE + Numbered(DeclText, 1, files); start != [] && start[|start| - 1] == '\n'
  {
    hide DeclText, Numbered, PREAMBLE;
    GuardLines();
    DeclsEnd(1, files);
  }

  lemma {:induction false} DeclsEnd(i: nat, files: seq<File>)
    ensures var s := Numbered(DeclText, i, files); s == "" || s[|s| - 1] == '\n'
    decreases |files|
  {
    hide NameDeclText, DataText, Decimal, DataId;
    if files != [] {
      DeclsEnd(i + 1, files[1..]);
    }
  }

  /** This reader makes nothing of what a run leaves behind that cannot open a file, whatever the names. */
  lemma StoppedRunRejected(files: seq<File>)
    ensures ReadHeader(PREAMBLE + Numbered(DeclText, 1, files)) == None
  {
    hide Lex, Phases, Numbered, DeclText, ParseHeader, PREAMBLE, WellFormed;
    PhasesOfStopped(files);
    var text := PREAMBLE + Numbered(DeclText, 1, Seen(files));
    if files == [] {
      assert Seen(files) == [];
      OnlyPreamble();
    } else {
      LastDeclEnds(Seen(files));
      if ParseHeader(Lex(text)).Some? {
        AcceptedIsGood(Lex(text));
      }
    }
  }

  lemma OnlyPreamble()
    ensures ParseHeader(Lex(PREAMBLE + Numbered(DeclText, 1, []))) == None
  {
    hide Lex, DeclText, PREAMBLE;
    GuardLines();
    assert PREAMBLE + Numbered(DeclText, 1, []) == PREAMBLE;
    assert Lex(PREAMBLE)[3..] == [];
    StaticStringTokens();
  }
}
