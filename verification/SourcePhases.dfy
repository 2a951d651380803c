/** Trigraphs and spliced lines in the header: the text around the names has neither, so phases 1 and 2 of
    translation change nothing but the names. */
module SourcePhases {
  import opened Wrappers
  import opened CppReader
  import opened HeaderPrinter

  // ---------------------------------------------------------------- text that the phases leave alone

  /** No question mark, and no backslash before a newline or at the end. */
  predicate Neutral(a: string) {
    && (forall k :: 0 <= k < |a| ==> a[k] != '?')
    && (forall k :: 0 <= k < |a| && a[k] == '\\' ==> k + 1 < |a| && a[k + 1] != '\n')
  }

  lemma NeutralTail(a: string)
    requires Neutral(a) && a != []
    ensures Neutral(a[1..])
  {
    assert forall k :: 0 <= k < |a[1..]| ==> a[1..][k] == a[k + 1];
  }

  lemma {:induction false} TrigraphsNeutral(a: string, t: string)
    requires Neutral(a)
    ensures Trigraphs(a + t) == a + Trigraphs(t)
    decreases |a|
  {
    if a == [] {
      assert a + t == t;
    } else {
      NeutralTail(a);
      assert (a + t)[1..] == a[1..] + t;
      TrigraphsNeutral(a[1..], t);
      assert [a[0]] + (a[1..] + Trigraphs(t)) == a + Trigraphs(t);
    }
  }

  lemma {:induction false} SpliceNeutral(a: string, t: string)
    requires Neutral(a)
    ensures Splice(a + t) == a + Splice(t)
    decreases |a|
  {
    hide StartsSplice, Neutral;
    if a == [] {
      assert a + t == t;
    } else {
      NeutralTail(a);
      NoSpliceStarts(a, t);
      assert (a + t)[1..] == a[1..] + t;
      SpliceNeutral(a[1..], t);
      assert [a[0]] + (a[1..] + Splice(t)) == a + Splice(t);
    }
  }

  lemma NoSpliceStarts(a: string, t: string)
    requires Neutral(a) && a != []
    ensures !StartsSplice(a + t)
  {
    assert a[0] == '\\' ==> (a + t)[1] == a[1];
  }

  lemma PhasesNeutral(a: string, t: string)
    requires Neutral(a)
    ensures Phases(a + t) == a + Phases(t)
  {
    hide Neutral;
    TrigraphsNeutral(a, t);
    SpliceNeutral(a, Trigraphs(t));
  }

  lemma PhasesOfNeutral(a: string)
    requires Neutral(a)
    ensures Phases(a) == a
  {
    hide Neutral;
    PhasesNeutral(a, "");
    assert Phases("") == "";
    assert a + "" == a;
  }

  // ---------------------------------------------------------------- names

  predicate HasTrigraph(s: string) {
    s != [] && (StartsTrigraph(s) || HasTrigraph(s[1..]))
  }

  predicate HasSplice(s: string) {
    s != [] && (StartsSplice(s) || HasSplice(s[1..]))
  }

  /** A quote ends every trigraph that has been started. */
  lemma {:induction false} TrigraphsCut(a: string, t: string)
    requires t != [] && t[0] == '\"'
    ensures Trigraphs(a + t) == Trigraphs(a) + Trigraphs(t)
    decreases |a|
  {
    hide StartsTrigraph, TrigraphOf;
    if a == [] {
      assert a + t == t;
    } else {
      StartsBeforeQuote(a, t);
      if StartsTrigraph(a) {
        assert (a + t)[3..] == a[3..] + t;
        TrigraphsCut(a[3..], t);
      } else {
        assert (a + t)[1..] == a[1..] + t && (a + t)[0] == a[0];
        TrigraphsCut(a[1..], t);
        CatAssoc([a[0]], Trigraphs(a[1..]), Trigraphs(t));
      }
    }
  }

  lemma StartsBeforeQuote(a: string, t: string)
    requires a != [] && t != [] && t[0] == '\"'
    ensures StartsTrigraph(a + t) <==> StartsTrigraph(a)
    ensures StartsTrigraph(a) ==> |a| >= 3 && (a + t)[2] == a[2]
  {
    var s := a + t;
    assert s[|a|] == '\"';
    assert s[0] == a[0] && (|a| >= 2 ==> s[1] == a[1]) && (|a| >= 3 ==> s[2] == a[2]);
  }

  lemma {:induction false} SpliceCut(a: string, t: string)
    requires t == [] || t[0] != '\n'
    ensures Splice(a + t) == Splice(a) + Splice(t)
    decreases |a|
  {
    hide StartsSplice;
    if a == [] {
      assert a + t == t;
    } else {
      SpliceBefore(a, t);
      if StartsSplice(a) {
        assert (a + t)[2..] == a[2..] + t;
        SpliceCut(a[2..], t);
      } else {
        assert (a + t)[1..] == a[1..] + t && (a + t)[0] == a[0];
        SpliceCut(a[1..], t);
        CatAssoc([a[0]], Splice(a[1..]), Splice(t));
      }
    }
  }

  lemma SpliceBefore(a: string, t: string)
    requires a != [] && (t == [] || t[0] != '\n')
    ensures StartsSplice(a + t) <==> StartsSplice(a)
    ensures StartsSplice(a) ==> |a| >= 2
  {
    var s := a + t;
    assert |s| >= 2 ==> s[0] == a[0] && s[1] == if |a| >= 2 then a[1] else t[0];
  }

  lemma PhasesCut(a: string, t: string)
    requires t != [] && t[0] == '\"'
    ensures Phases(a + t) == Phases(a) + Phases(t)
  {
    TrigraphsCut(a, t);
    hide Splice;
    SpliceCut(Trigraphs(a), Trigraphs(t));
  }

  /** Replacing trigraphs leaves a text alone exactly when it has none, and makes any other shorter. */
  lemma {:induction false} TrigraphsShrink(s: string)
    ensures Trigraphs(s) == s <==> !HasTrigraph(s)
    ensures HasTrigraph(s) ==> |Trigraphs(s)| < |s|
    decreases |s|
  {
    hide TrigraphOf;
    if s == [] {
    } else if StartsTrigraph(s) {
      TrigraphsShrink(s[3..]);
    } else {
      TrigraphsShrink(s[1..]);
      assert [s[0]] + s[1..] == s;
    }
  }

  lemma {:induction false} SpliceShrinks(s: string)
    ensures Splice(s) == s <==> !HasSplice(s)
    ensures HasSplice(s) ==> |Splice(s)| < |s|
    decreases |s|
  {
    if s == [] {
    } else if StartsSplice(s) {
      SpliceShrinks(s[2..]);
    } else {
      SpliceShrinks(s[1..]);
      assert [s[0]] + s[1..] == s;
    }
  }

  /** Phases 1 and 2 leave a name alone exactly when it has no trigraph and no spliced line, and make any other
      shorter. */
  lemma PhasesShrink(s: string)
    ensures Phases(s) == s <==> !HasTrigraph(s) && !HasSplice(s)
    ensures Phases(s) != s ==> |Phases(s)| < |s|
  {
    hide Trigraphs, Splice, HasTrigraph, HasSplice;
    TrigraphsShrink(s);
    SpliceShrinks(Trigraphs(s));
  }

  // ---------------------------------------------------------------- the text around the names

  /** Neither question marks nor backslashes. */
  predicate Tame(a: string) { forall k :: 0 <= k < |a| ==> a[k] != '?' && a[k] != '\\' }

  lemma TameIsNeutral(a: string)
    requires Tame(a)
    ensures Neutral(a)
  {}

  lemma TameJoins(a: string, b: string)
    requires Tame(a) && Tame(b)
    ensures Tame(a + b)
  {}

  lemma NeutralJoins(a: string, b: string)
    requires Neutral(a) && Neutral(b)
    ensures Neutral(a + b)
  {
    var s := a + b;
    forall k | 0 <= k < |s| && s[k] == '\\'
      ensures k + 1 < |s| && s[k + 1] != '\n'
    {
      if k < |a| {
        assert a[k] == '\\';
      } else {
        assert b[k - |a|] == '\\';
      }
    }
  }

  lemma {:induction false} DecimalIsTame(n: nat)
    ensures Tame(Decimal(n))
    decreases n
  {
    if n >= 10 {
      DecimalIsTame(n / 10);
    }
  }

  lemma IdsAreTame(i: nat)
    ensures Tame(NameId(i)) && Tame(DataId(i))
  {
    hide Decimal;
    DecimalIsTame(i);
    TameJoins(NAME_STEM, Decimal(i));
    TameJoins(DATA_STEM, Decimal(i));
  }

  lemma {:induction false} EscapesAreNeutral(chunk: seq<Octet>)
    ensures Neutral(Escapes(chunk))
  {
    hide Neutral, Escape;
    if chunk == [] {
      TameIsNeutral("");
    } else {
      EscapeIsNeutral(chunk[0]);
      EscapesAreNeutral(chunk[1..]);
      NeutralJoins(Escape(chunk[0]), Escapes(chunk[1..]));
    }
  }

  lemma EscapeIsNeutral(c: Octet)
    ensures Neutral(Escape(c))
  {}

  lemma {:induction false} DataRowsAreNeutral(content: seq<Octet>)
    ensures Neutral(DataRows(content))
    decreases |content|
  {
    hide Neutral, DataRow;
    if |content| <= 16 {
      DataRowIsNeutral(content);
    } else {
      DataRowIsNeutral(content[..16]);
      DataRowsAreNeutral(content[16..]);
      NeutralJoins(DataRow(content[..16]), DataRows(content[16..]));
    }
  }

  lemma DataRowIsNeutral(chunk: seq<Octet>)
    ensures Neutral(DataRow(chunk))
  {
    TameIsNeutral("\n  \"");
    TameIsNeutral("\"");
    hide Neutral, Escapes;
    EscapesAreNeutral(chunk);
    NeutralJoins("\n  \"", Escapes(chunk));
    NeutralJoins("\n  \"" + Escapes(chunk), "\"");
  }

  lemma DataTextIsNeutral(content: seq<Octet>)
    ensures Neutral(DataText(content))
  {
    hide Neutral, DataRows;
    TameIsNeutral("\"");
    DataRowsAreNeutral(content);
  }

  /** The declaration of a file's data. */
  lemma DataDeclIsNeutral(i: nat, content: seq<Octet>)
    ensures Neutral(DataDeclText(i, content))
  {
    WordsAreTame();
    hide Neutral, Tame, DataText, Decimal, DataId;
    var head := STATIC_STRING + " " + DataId(i) + EQUALS + STD_STRING;
    IdsAreTame(i);
    DecimalIsTame(|content|);
    TameJoins(STATIC_STRING, " ");
    TameJoins(STATIC_STRING + " ", DataId(i));
    TameJoins(STATIC_STRING + " " + DataId(i), EQUALS);
    TameJoins(STATIC_STRING + " " + DataId(i) + EQUALS, STD_STRING);
    TameIsNeutral(head);
    DataTextIsNeutral(content);
    NeutralJoins(head, DataText(content));
    TameIsNeutral(COUNT_OPEN);
    NeutralJoins(head + DataText(content), COUNT_OPEN);
    TameIsNeutral(Decimal(|content|));
    NeutralJoins(head + DataText(content) + COUNT_OPEN, Decimal(|content|));
    TameIsNeutral(COUNT_CLOSE);
    NeutralJoins(head + DataText(content) + COUNT_OPEN + Decimal(|content|), COUNT_CLOSE);
  }

  lemma WordsAreTame()
    ensures Tame(STATIC_STRING) && Tame(" ") && Tame(EQUALS) && Tame("\"") && Tame(SEMICOLON)
    ensures Tame(STD_STRING) && Tame(COUNT_OPEN) && Tame(COUNT_CLOSE)
    ensures Tame(ROW_OPEN) && Tame(ROW_COMMA) && Tame(ROW_CLOSE)
  {}

  /** The declaration of a name: what is printed around the name stays, the name is translated. */
  lemma PhasesOfNameDecl(i: nat, name: string, t: string)
    ensures Phases(NameDeclText(i, name) + t) == NameDeclText(i, Phases(name)) + Phases(t)
  {
    WordsAreTame();
    var quote := "\"";
    hide Tame, Neutral, NameId, Phases;
    var head := STATIC_STRING + " " + NameId(i) + EQUALS + quote;
    var end := quote + SEMICOLON;
    IdsAreTame(i);
    TameJoins(STATIC_STRING, " ");
    TameJoins(STATIC_STRING + " ", NameId(i));
    TameJoins(STATIC_STRING + " " + NameId(i), EQUALS);
    TameJoins(STATIC_STRING + " " + NameId(i) + EQUALS, quote);
    TameIsNeutral(head);
    TameJoins(quote, SEMICOLON);
    TameIsNeutral(end);
    PhasesNeutral(end, t);
    PhasesCut(name, end + t);
    PhasesNeutral(head, name + (end + t));
    assert NameDeclText(i, name) + t == head + (name + (end + t)) by { Regroup(head, name, quote, SEMICOLON, t); }
    Regroup(head, Phases(name), quote, SEMICOLON, Phases(t));
    CatAssoc(Phases(name), end, Phases(t));
  }

  lemma Regroup(a: string, b: string, c: string, d: string, t: string)
    ensures a + b + c + d + t == a + (b + (c + d + t))
  {}

  // ---------------------------------------------------------------- the whole text

  /** The files with the names that phases 1 and 2 leave. */
  function Seen(files: seq<File>): (r: seq<File>)
    ensures |r| == |files|
    ensures forall k :: 0 <= k < |files| ==> r[k] == File(Phases(files[k].name), files[k].content)
  {
    seq(|files|, k requires 0 <= k < |files| => File(Phases(files[k].name), files[k].content))
  }

  lemma PhasesOfDecl(i: nat, f: File, t: string)
    ensures Phases(DeclText(i, f) + t) == DeclText(i, File(Phases(f.name), f.content)) + Phases(t)
  {
    hide Phases, NameDeclText, DataDeclText, Neutral;
    var name, data := NameDeclText(i, f.name), DataDeclText(i, f.content);
    CatAssoc(name, data, t);
    PhasesOfNameDecl(i, f.name, data + t);
    DataDeclIsNeutral(i, f.content);
    PhasesNeutral(data, t);
    CatAssoc(NameDeclText(i, Phases(f.name)), data, Phases(t));
  }

  lemma {:induction false} PhasesOfDecls(i: nat, files: seq<File>, t: string)
    ensures Phases(Numbered(DeclText, i, files) + t) == Numbered(DeclText, i, Seen(files)) + Phases(t)
    decreases |files|
  {
    hide Phases, DeclText;
    if files == [] {
      assert Numbered(DeclText, i, files) + t == t;
    } else {
      var f, seen := files[0], Seen(files)[0];
      var more := Numbered(DeclText, i + 1, files[1..]);
      assert Seen(files)[1..] == Seen(files[1..]);
      CatAssoc(DeclText(i, f), more, t);
      PhasesOfDecl(i, f, more + t);
      PhasesOfDecls(i + 1, files[1..], t);
      CatAssoc(DeclText(i, seen), Numbered(DeclText, i + 1, Seen(files[1..])), Phases(t));
    }
  }

  lemma RowIsTame(i: nat, f: File)
    ensures Tame(RowText(i, f))
  {
    WordsAreTame();
    hide Tame, NameId, DataId;
    IdsAreTame(i);
    TameJoins(ROW_OPEN, NameId(i));
    TameJoins(ROW_OPEN + NameId(i), ROW_COMMA);
    TameJoins(ROW_OPEN + NameId(i) + ROW_COMMA, DataId(i));
    TameJoins(ROW_OPEN + NameId(i) + ROW_COMMA + DataId(i), ROW_CLOSE);
  }

  lemma {:induction false} RowsAreTame(i: nat, files: seq<File>)
    ensures Tame(Numbered(RowText, i, files))
    ensures Numbered(RowText, i, Seen(files)) == Numbered(RowText, i, files)
    decreases |files|
  {
    hide Tame, RowText, Phases;
    if files == [] {
      NothingIsTame();
    } else {
      RowIsTame(i, files[0]);
      RowsAreTame(i + 1, files[1..]);
      TameJoins(RowText(i, files[0]), Numbered(RowText, i + 1, files[1..]));
      assert Seen(files)[1..] == Seen(files[1..]);
      RowOfSeen(i, files[0], Seen(files)[0]);
    }
  }

  lemma RowOfSeen(i: nat, f: File, g: File)
    ensures RowText(i, f) == RowText(i, g)
  {
    hide NameId, DataId;
  }

  lemma NothingIsTame()
    ensures Tame("")
  {}

  // ---------------------------------------------------------------- the fixed text

  /** Neither question marks nor backslashes nor quotes. */
  predicate Quiet(a: string) { forall k :: 0 <= k < |a| ==> a[k] != '?' && a[k] != '\\' && a[k] != '\"' }

  lemma QuietIsTame(a: string)
    requires Quiet(a)
    ensures Tame(a)
  {}

  lemma QuietJoins(a: string, b: string)
    requires Quiet(a) && Quiet(b)
    ensures Quiet(a + b)
  {}

  lemma DirectivesAreQuiet()
    ensures Quiet(IFNDEF_LINE) && Quiet(DEFINE_LINE) && Quiet(INCLUDE_LINE) && Quiet("\n")
  {
    assert Quiet("#ifndef ") && Quiet("#define ") && Quiet("TRANSLATION_FILES_H") && Quiet("#include <string>");
    hide Quiet;
    QuietJoins("#ifndef ", "TRANSLATION_FILES_H");
    QuietJoins("#define ", "TRANSLATION_FILES_H");
    assert Quiet("\n") by { NewlineIsQuiet(); }
  }

  lemma NewlineIsQuiet()
    ensures Quiet("\n")
  {}

  lemma PreambleIsQuiet()
    ensures Quiet(PREAMBLE)
  {
    hide Quiet, IFNDEF_LINE, DEFINE_LINE, INCLUDE_LINE;
    DirectivesAreQuiet();
    QuietJoins(INCLUDE_LINE, "\n");
    QuietJoins(INCLUDE_LINE + "\n", "\n");
    var tail := INCLUDE_LINE + "\n" + "\n";
    QuietJoins("\n", tail);
    QuietJoins(DEFINE_LINE, "\n");
    QuietJoins(DEFINE_LINE + "\n", "\n" + tail);
    QuietJoins(IFNDEF_LINE, "\n");
    QuietJoins(IFNDEF_LINE + "\n", DEFINE_LINE + "\n" + ("\n" + tail));
  }

  lemma StructLineIsQuiet()
    ensures Quiet(STRUCT_LINE)
  {
    assert Quiet("static const struct ") && Quiet("embedded_file {\n");
    hide Quiet;
    QuietJoins("static const struct ", "embedded_file {\n");
  }

  lemma NameLineIsQuiet()
    ensures Quiet(NAME_LINE)
  {
    assert Quiet("  const ") && Quiet("std::string ") && Quiet("*name;\n");
    hide Quiet;
    QuietJoins("  const ", "std::string ");
    QuietJoins("  const " + "std::string ", "*name;\n");
  }

  lemma DataLineIsQuiet()
    ensures Quiet(DATA_LINE)
  {
    assert Quiet("  const ") && Quiet("std::string ") && Quiet("*data;\n");
    hide Quiet;
    QuietJoins("  const ", "std::string ");
    QuietJoins("  const " + "std::string ", "*data;\n");
  }

  lemma TableLineIsQuiet()
    ensures Quiet(TABLE_LINE)
  {
    assert Quiet("} ") && Quiet("embedded_files[] ") && Quiet("= {\n");
    hide Quiet;
    QuietJoins("} ", "embedded_files[] ");
    QuietJoins("} " + "embedded_files[] ", "= {\n");
  }

  lemma SignatureLineIsQuiet()
    ensures Quiet(SIGNATURE_LINE)
  {
    assert Quiet("static bool ") && Quiet("find_embedded_file(const ") && Quiet("std::string ");
    assert Quiet("&name, ") && Quiet("&data) {\n");
    hide Quiet;
    QuietJoins("static bool ", "find_embedded_file(const ");
    QuietJoins("static bool " + "find_embedded_file(const ", "std::string ");
    QuietJoins("static bool " + "find_embedded_file(const " + "std::string ", "&name, ");
    QuietJoins("static bool " + "find_embedded_file(const " + "std::string " + "&name, ", "std::string ");
    QuietJoins("static bool " + "find_embedded_file(const " + "std::string " + "&name, " + "std::string ",
               "&data) {\n");
  }

  lemma LocalLineIsQuiet()
    ensures Quiet(LOCAL_LINE)
  {
    assert Quiet("  const struct ") && Quiet("embedded_file *p;\n");
    hide Quiet;
    QuietJoins("  const struct ", "embedded_file *p;\n");
  }

  lemma LoopLineIsQuiet()
    ensures Quiet(LOOP_LINE)
  {
    assert Quiet("  for (p = ") && Quiet("embedded_files; ") && Quiet("p->name != ");
    assert Quiet("NULL; ") && Quiet("p++) {\n");
    hide Quiet;
    QuietJoins("  for (p = ", "embedded_files; ");
    QuietJoins("  for (p = " + "embedded_files; ", "p->name != ");
    QuietJoins("  for (p = " + "embedded_files; " + "p->name != ", "NULL; ");
    QuietJoins("  for (p = " + "embedded_files; " + "p->name != " + "NULL; ", "p++) {\n");
  }

  lemma TestLineIsQuiet()
    ensures Quiet(TEST_LINE)
  {
    assert Quiet("    if ") && Quiet("(*p->name ") && Quiet("== name) {\n");
    hide Quiet;
    QuietJoins("    if ", "(*p->name ");
    QuietJoins("    if " + "(*p->name ", "== name) {\n");
  }

  lemma CopyLineIsQuiet()
    ensures Quiet(COPY_LINE)
  {
    assert Quiet("      data = ") && Quiet("*p->data;\n");
    hide Quiet;
    QuietJoins("      data = ", "*p->data;\n");
  }

  lemma TableTypeIsQuiet()
    ensures Quiet(TABLE_TYPE)
  {
    hide Quiet, STRUCT_LINE, NAME_LINE, DATA_LINE, TABLE_LINE;
    StructLineIsQuiet();
    NameLineIsQuiet();
    DataLineIsQuiet();
    TableLineIsQuiet();
    QuietJoins(STRUCT_LINE, NAME_LINE);
    QuietJoins(STRUCT_LINE + NAME_LINE, DATA_LINE);
    QuietJoins(STRUCT_LINE + NAME_LINE + DATA_LINE, TABLE_LINE);
  }

  lemma ShortLinesAreQuiet()
    ensures Quiet(FOUND_LINE) && Quiet("    }\n") && Quiet("  }\n") && Quiet(MISSING_LINE) && Quiet("}\n")
  {}

  lemma CodeIsQuiet()
    ensures Quiet(CODE)
  {
    hide Quiet, SIGNATURE_LINE, LOCAL_LINE, LOOP_LINE, TEST_LINE, COPY_LINE, FOUND_LINE, MISSING_LINE;
    SignatureLineIsQuiet();
    LocalLineIsQuiet();
    LoopLineIsQuiet();
    TestLineIsQuiet();
    CopyLineIsQuiet();
    ShortLinesAreQuiet();
    var loop := SIGNATURE_LINE + LOCAL_LINE + LOOP_LINE;
    var found := loop + TEST_LINE + COPY_LINE + FOUND_LINE;
    QuietJoins(SIGNATURE_LINE, LOCAL_LINE);
    QuietJoins(SIGNATURE_LINE + LOCAL_LINE, LOOP_LINE);
    QuietJoins(loop, TEST_LINE);
    QuietJoins(loop + TEST_LINE, COPY_LINE);
    QuietJoins(loop + TEST_LINE + COPY_LINE, FOUND_LINE);
    QuietJoins(found, "    }\n");
    QuietJoins(found + "    }\n", "  }\n");
    QuietJoins(found + "    }\n" + "  }\n", MISSING_LINE);
    QuietJoins(found + "    }\n" + "  }\n" + MISSING_LINE, "}\n");
  }

  lemma ClosingPart1()
    ensures Quiet("  {NULL, NULL}\n") && Quiet("};\n\n") && Quiet("\n")
    ensures Quiet(ENDIF_LINE)
  {
    assert Quiet("#endif") && Quiet(" /* TRANSLATION_FILES_H */");
    QuietJoins("#endif", " /* TRANSLATION_FILES_H */");
  }

  lemma ClosingIsQuiet()
    ensures Quiet(CLOSING)
  {
    hide Quiet, CODE, ENDIF_LINE;
    var last, close, blank := "  {NULL, NULL}\n", "};\n\n", "\n";
    ClosingPart1();
    CodeIsQuiet();
    QuietJoins(last, close);
    QuietJoins(CODE, blank);
    QuietJoins(last + close, CODE + blank);
    QuietJoins(ENDIF_LINE, blank);
    QuietJoins(last + close + (CODE + blank), ENDIF_LINE + blank);
  }

  lemma QuietStays(a: string, t: string)
    requires Quiet(a)
    ensures Phases(a + t) == a + Phases(t)
  {
    hide Quiet, Tame, Neutral, Phases;
    QuietIsTame(a);
    TameIsNeutral(a);
    PhasesNeutral(a, t);
  }

  /** Phases 1 and 2 of a whole header: it becomes the header of the same files under other names. */
  lemma PhasesOfHeader(files: seq<File>)
    ensures Phases(HeaderText(files)) == HeaderText(Seen(files))
  {
    hide Phases, Quiet, Tame, Neutral, Numbered, DeclText, RowText, PREAMBLE, TABLE_TYPE, CLOSING;
    var decls, rows := Numbered(DeclText, 1, files), Numbered(RowText, 1, files);
    var table := TABLE_TYPE + rows + CLOSING;
    CatAssoc(PREAMBLE, decls, table);
    PreambleIsQuiet();
    QuietStays(PREAMBLE, decls + table);
    PhasesOfDecls(1, files, table);
    TableStays(files);
    CatAssoc(PREAMBLE, Numbered(DeclText, 1, Seen(files)), table);
  }

  lemma TableStays(files: seq<File>)
    ensures Numbered(RowText, 1, Seen(files)) == Numbered(RowText, 1, files)
    ensures var table := TABLE_TYPE + Numbered(RowText, 1, files) + CLOSING; Phases(table) == table
  {
    hide Phases, Quiet, Tame, Neutral, Numbered, RowText, TABLE_TYPE, CLOSING;
    var rows := Numbered(RowText, 1, files);
    TableTypeIsQuiet();
    QuietIsTame(TABLE_TYPE);
    RowsAreTame(1, files);
    TameJoins(TABLE_TYPE, rows);
    ClosingIsQuiet();
    QuietIsTame(CLOSING);
    TameJoins(TABLE_TYPE + rows, CLOSING);
    TameIsNeutral(TABLE_TYPE + rows + CLOSING);
    PhasesOfNeutral(TABLE_TYPE + rows + CLOSING);
  }

  /** Phases 1 and 2 of what a run leaves behind that stops before the table. */
  lemma PhasesOfStopped(files: seq<File>)
    ensures Phases(PREAMBLE + Numbered(DeclText, 1, files)) == PREAMBLE + Numbered(DeclText, 1, Seen(files))
  {
    hide Phases, Quiet, Numbered, DeclText, PREAMBLE;
    var decls := Numbered(DeclText, 1, files);
    PreambleIsQuiet();
    QuietStays(PREAMBLE, decls);
    PhasesOfDecls(1, files, "");
    PhasesOfNothing();
    assert decls + "" == decls;
    assert Numbered(DeclText, 1, Seen(files)) + "" == Numbered(DeclText, 1, Seen(files));
  }

  lemma PhasesOfNothing()
    ensures Phases("") == ""
  {}
}
