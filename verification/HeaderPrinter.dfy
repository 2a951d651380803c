/** The program of translations/generate_translations_header.c: it prints a C++ header that holds
    the contents of the files named on the command line.

    The text is specified declaration by declaration and row by row (`HeaderText`); `Generate` is the
    program's own nest of loops, which counts bytes and opens and closes literals as it goes.
 */
module HeaderPrinter {
  import opened Wrappers

  /** What `fgetc` delivers before the end of a file. */
  type Octet = c: char | c as int < 256

  /** A C `int`, which counts the bytes of a file. */
  newtype Int32 = x: int | -0x8000_0000 <= x < 0x8000_0000

  datatype File = File(name: string, content: seq<Octet>)

  // ---------------------------------------------------------------- the printf conversions

  /** `%d` of a number that is not negative. */
  function Decimal(n: nat): (s: string)
    ensures s != []
  {
    if n < 10 then ["0123456789"[n]] else Decimal(n / 10) + ["0123456789"[n % 10]]
  }

  function HexDigit(d: nat): char
    requires d < 16
  {
    "0123456789abcdef"[d]
  }

  /** `\x%02x` */
  function Escape(c: Octet): string {
    "\\x" + [HexDigit(c as int / 16), HexDigit(c as int % 16)]
  }

  // ---------------------------------------------------------------- the text, row by row

  function Escapes(chunk: seq<Octet>): string {
    if chunk == [] then "" else Escape(chunk[0]) + Escapes(chunk[1..])
  }

  /** One literal on a line of its own. */
  function DataRow(chunk: seq<Octet>): string {
    "\n  \"" + Escapes(chunk) + "\""
  }

  /** Sixteen bytes to a row. */
  function DataRows(content: seq<Octet>): string {
    if |content| <= 16 then DataRow(content) else DataRow(content[..16]) + DataRows(content[16..])
  }

  /** The literals of a file.  An empty file opens no row, so only the closing quote is printed. */
  function DataText(content: seq<Octet>): string {
    if content == [] then "\"" else DataRows(content)
  }

  const STATIC_STRING := "static const std::string"
  const NAME_STEM := "translation_file_name_"
  const DATA_STEM := "translation_file_data_"
  const EQUALS := " = "
  const SEMICOLON := ";\n"
  const STD_STRING := "std::string("
  const COUNT_OPEN := ",\n  "
  const COUNT_CLOSE := ");\n\n"

  function NameId(i: nat): string { NAME_STEM + Decimal(i) }

  function DataId(i: nat): string { DATA_STEM + Decimal(i) }

  function NameDeclText(i: nat, name: string): string {
    STATIC_STRING + " " + NameId(i) + EQUALS + "\"" + name + "\"" + SEMICOLON
  }

  function DataDeclText(i: nat, content: seq<Octet>): string {
    STATIC_STRING + " " + DataId(i) + EQUALS + STD_STRING
    + DataText(content) + COUNT_OPEN + Decimal(|content|) + COUNT_CLOSE
  }

  function DeclText(i: nat, f: File): string {
    NameDeclText(i, f.name) + DataDeclText(i, f.content)
  }

  /** The texts of `xs`, numbered from `i`. */
  function Numbered<T>(spell: (nat, T) -> string, i: nat, xs: seq<T>): string
    decreases |xs|
  {
    if xs == [] then "" else spell(i, xs[0]) + Numbered(spell, i + 1, xs[1..])
  }

  const ROW_OPEN := "  {&"
  const ROW_COMMA := ", &"
  const ROW_CLOSE := "},\n"

  /** The row of the table for the `i`th argument. */
  function RowText(i: nat, f: File): string {
    ROW_OPEN + NameId(i) + ROW_COMMA + DataId(i) + ROW_CLOSE
  }

  const IFNDEF_LINE := "#ifndef " + "TRANSLATION_FILES_H"
  const DEFINE_LINE := "#define " + "TRANSLATION_FILES_H"
  const INCLUDE_LINE := "#include <string>"

  const PREAMBLE := IFNDEF_LINE + "\n" + (DEFINE_LINE + "\n" + ("\n" + (INCLUDE_LINE + "\n" + "\n")))

  const STRUCT_LINE := "static const struct " + "embedded_file {\n"
  const NAME_LINE := "  const " + "std::string " + "*name;\n"
  const DATA_LINE := "  const " + "std::string " + "*data;\n"
  const TABLE_LINE := "} " + "embedded_files[] " + "= {\n"

  const TABLE_TYPE := STRUCT_LINE + NAME_LINE + DATA_LINE + TABLE_LINE

  const SIGNATURE_LINE :=
    "static bool " + "find_embedded_file(const " + "std::string " + "&name, " + "std::string " + "&data) {\n"
  const LOCAL_LINE := "  const struct " + "embedded_file *p;\n"
  const LOOP_LINE := "  for (p = " + "embedded_files; " + "p->name != " + "NULL; " + "p++) {\n"
  const TEST_LINE := "    if " + "(*p->name " + "== name) {\n"
  const COPY_LINE := "      data = " + "*p->data;\n"
  const FOUND_LINE := "      return true;\n"
  const MISSING_LINE := "  return false;\n"

  /** The constant `code` of the program. */
  const CODE :=
    SIGNATURE_LINE
    + LOCAL_LINE
    + LOOP_LINE
    + TEST_LINE
    + COPY_LINE
    + FOUND_LINE
    + "    }\n"
    + "  }\n"
    + MISSING_LINE
    + "}\n"

  const ENDIF_LINE := "#endif" + " /* TRANSLATION_FILES_H */"

  /** What follows the rows of the table. */
  const CLOSING :=
    "  {NULL, NULL}\n" + "};\n\n" + (CODE + "\n") + (ENDIF_LINE + "\n")

  function HeaderText(files: seq<File>): string {
    PREAMBLE + Numbered(DeclText, 1, files) + (TABLE_TYPE + Numbered(RowText, 1, files) + CLOSING)
  }

  // ---------------------------------------------------------------- one more byte

  lemma {:induction false} EscapesAppend(a: seq<Octet>, b: seq<Octet>)
    ensures Escapes(a + b) == Escapes(a) + Escapes(b)
  {
    if a == [] {
      assert a + b == b;
    } else {
      assert (a + b)[1..] == a[1..] + b;
      EscapesAppend(a[1..], b);
      CatAssoc(Escape(a[0]), Escapes(a[1..]), Escapes(b));
    }
  }

  lemma EscapesOne(c: Octet)
    ensures Escapes([c]) == Escape(c)
  {
    assert [c][1..] == [];
    assert Escape(c) + "" == Escape(c);
  }

  /** The text of some rows up to the quote that closes the last one. */
  ghost predicate OpenRows(open: string, content: seq<Octet>) {
    open + "\"" == DataRows(content)
  }

  /** A byte that starts a row: the literal that is open is closed first. */
  lemma {:induction false} DataRowsNewRow(p: seq<Octet>, c: Octet)
    requires p != [] && |p| % 16 == 0
    ensures DataRows(p + [c]) == DataRows(p) + DataRow([c])
    decreases |p|
  {
    var q := p + [c];
    if |p| == 16 {
      assert q[..16] == p && q[16..] == [c];
    } else {
      assert q[..16] == p[..16] && q[16..] == p[16..] + [c];
      DataRowsNewRow(p[16..], c);
      CatAssoc(DataRow(p[..16]), DataRows(p[16..]), DataRow([c]));
    }
  }

  /** Any other byte goes into the literal that is open. */
  lemma {:induction false} DataRowsSameRow(p: seq<Octet>, c: Octet, open: string)
    requires |p| % 16 != 0
    requires OpenRows(open, p)
    ensures OpenRows(open + Escape(c), p + [c])
    decreases |p|
  {
    var q := p + [c];
    if |p| < 16 {
      EscapesAppend(p, [c]);
      EscapesOne(c);
      OneRow(p, open);
      CatAssoc("\n  \"", Escapes(p), Escape(c));
    } else {
      assert q[..16] == p[..16] && q[16..] == p[16..] + [c];
      var first, more := DataRow(p[..16]), DataRows(p[16..]);
      DataRowsClosed(p[16..]);
      var moreOpen := more[..|more| - 1];
      assert moreOpen + "\"" == more;
      DataRowsSameRow(p[16..], c, moreOpen);
      OpenFirst(first, more, open);
      CatAssoc(first, moreOpen, Escape(c));
      CatAssoc(first, moreOpen + Escape(c), "\"");
    }
  }

  lemma OneRow(p: seq<Octet>, open: string)
    requires |p| <= 16 && OpenRows(open, p)
    ensures open == "\n  \"" + Escapes(p)
  {
    assert open == DataRows(p)[..|DataRows(p)| - 1];
  }

  lemma OpenFirst(first: string, more: string, open: string)
    requires more != [] && open + "\"" == first + more
    ensures open == first + more[..|more| - 1]
  {
    assert (open + "\"")[..|open|] == open;
    assert (first + more)[..|open|] == first + more[..|more| - 1];
  }

  lemma {:induction false} DataRowsClosed(p: seq<Octet>)
    ensures DataRows(p) != [] && DataRows(p)[|DataRows(p)| - 1] == '\"'
    decreases |p|
  {
    if |p| > 16 {
      DataRowsClosed(p[16..]);
    }
  }

  // ---------------------------------------------------------------- the program

  /** The names of `files` are `argv[1..]`, in order, with the contents that `disk` holds for them. */
  function Files(argv: seq<string>, disk: map<string, seq<Octet>>): (files: seq<File>)
    requires forall k :: 0 <= k < |argv| ==> argv[k] in disk
    ensures |files| == |argv|
    ensures forall k :: 0 <= k < |argv| ==> files[k] == File(argv[k], disk[argv[k]])
  {
    seq(|argv|, k requires 0 <= k < |argv| => File(argv[k], disk[argv[k]]))
  }

  lemma {:induction false} NumberedAppend<T>(spell: (nat, T) -> string, i: nat, xs: seq<T>, x: T)
    ensures Numbered(spell, i, xs + [x]) == Numbered(spell, i, xs) + spell(i + |xs|, x)
    decreases |xs|
  {
    if xs == [] {
      assert xs + [x] == [x];
      assert Numbered(spell, i + 1, [x][1..]) == "";
    } else {
      assert (xs + [x])[1..] == xs[1..] + [x];
      NumberedAppend(spell, i + 1, xs[1..], x);
      CatAssoc(spell(i, xs[0]), Numbered(spell, i + 1, xs[1..]), spell(i + |xs|, x));
    }
  }

  lemma OneMoreFile(spell: (nat, File) -> string, argv: seq<string>, disk: map<string, seq<Octet>>, n: nat,
                    before: string)
    requires n < |argv| && forall k :: 0 <= k <= n ==> argv[k] in disk
    ensures before + Numbered(spell, 1, Files(argv[..n + 1], disk))
         == before + Numbered(spell, 1, Files(argv[..n], disk)) + spell(n + 1, File(argv[n], disk[argv[n]]))
  {
    CatAssoc(before, Numbered(spell, 1, Files(argv[..n], disk)), spell(n + 1, File(argv[n], disk[argv[n]])));
    NumberedAppend(spell, 1, Files(argv[..n], disk), File(argv[n], disk[argv[n]]));
    assert Files(argv[..n + 1], disk) == Files(argv[..n], disk) + [File(argv[n], disk[argv[n]])];
  }

  /** The loop over the bytes of one file.  After `j` bytes exactly one literal is open: `rows` is what
      has been printed, and closing it gives the rows of the first `j` bytes. */
  method PrintData(content: seq<Octet>) returns (rows: string, j: Int32)
    requires |content| < 0x8000_0000
    ensures rows + "\"" == DataText(content) && j as int == |content|
  {
    rows := "";
    j := 0;
    while j as int < |content|
      invariant 0 <= j as int <= |content|
      invariant j == 0 ==> rows == ""
      invariant j > 0 ==> OpenRows(rows, content[..j])
    {
      var ch := content[j];
      ghost var done, was := content[..j], rows;
      assert content[..j + 1] == done + [ch];
      if j % 16 == 0 {
        if j > 0 {
          rows := rows + "\"";
        }
        rows := rows + "\n  \"";
      }
      rows := rows + Escape(ch);
      if j % 16 != 0 {
        DataRowsSameRow(done, ch, was);
      } else {
        EscapesOne(ch);
        if j == 0 {
          assert done + [ch] == [ch];
        } else {
          DataRowsNewRow(done, ch);
          assert rows + "\"" == DataRows(done) + DataRow([ch]);
        }
      }
      j := j + 1;
    }
    assert content[..j] == content;
  }

  /** One round of the first loop over the arguments. */
  method PrintDecl(i: nat, name: string, content: seq<Octet>) returns (text: string)
    requires |content| < 0x8000_0000
    ensures text == DeclText(i, File(name, content))
  {
    var nameId := NAME_STEM + Decimal(i);
    var nameLine := STATIC_STRING + " " + nameId + EQUALS + "\"" + name + "\"" + SEMICOLON;
    var dataId := DATA_STEM + Decimal(i);
    var dataLines := STATIC_STRING + " " + dataId + EQUALS + STD_STRING;
    var rows, j := PrintData(content);
    dataLines := dataLines + (rows + "\"") + COUNT_OPEN + Decimal(j as int) + COUNT_CLOSE;
    text := nameLine + dataLines;
  }

  method PrintRow(i: nat, ghost f: File) returns (text: string)
    ensures text == RowText(i, f)
  {
    var nameId, dataId := NAME_STEM + Decimal(i), DATA_STEM + Decimal(i);
    text := ROW_OPEN + nameId + ROW_COMMA + dataId + ROW_CLOSE;
  }

  /** The first loop over the arguments: it stops at the first file that it cannot open, and answers
      how many it could. */
  method PrintDecls(argv: seq<string>, disk: map<string, seq<Octet>>, before: string)
    returns (n: nat, out: string)
    requires forall k :: 0 <= k < |argv| && argv[k] in disk ==> |disk[argv[k]]| < 0x8000_0000
    ensures n <= |argv| && (n < |argv| ==> argv[n] !in disk)
    ensures forall k :: 0 <= k < n ==> argv[k] in disk
    ensures out == before + Numbered(DeclText, 1, Files(argv[..n], disk))
  {
    out := before;
    n := 0;
    while n < |argv| && argv[n] in disk
      invariant 0 <= n <= |argv|
      invariant forall k :: 0 <= k < n ==> argv[k] in disk
      invariant out == before + Numbered(DeclText, 1, Files(argv[..n], disk))
    {
      var text := PrintDecl(n + 1, argv[n], disk[argv[n]]);
      OneMoreFile(DeclText, argv, disk, n, before);
      out := out + text;
      n := n + 1;
    }
  }

  /** The second loop over the arguments. */
  method PrintRows(argv: seq<string>, ghost disk: map<string, seq<Octet>>, before: string) returns (out: string)
    requires forall k :: 0 <= k < |argv| ==> argv[k] in disk
    ensures out == before + Numbered(RowText, 1, Files(argv, disk))
  {
    out := before;
    var i := 1;
    while i < |argv| + 1
      invariant 1 <= i <= |argv| + 1
      invariant out == before + Numbered(RowText, 1, Files(argv[..i - 1], disk))
    {
      var text := PrintRow(i, File(argv[i - 1], disk[argv[i - 1]]));
      OneMoreFile(RowText, argv, disk, i - 1, before);
      out := out + text;
      i := i + 1;
    }
    assert argv[..|argv|] == argv;
  }

  /** The whole program.  A run that cannot open a file stops there and leaves behind the `n`
      declarations it has printed so far. */
  method Generate(argv: seq<string>, disk: map<string, seq<Octet>>) returns (ok: bool, n: nat, out: string)
    requires forall k :: 0 <= k < |argv| && argv[k] in disk ==> |disk[argv[k]]| < 0x8000_0000
    ensures ok <==> forall k :: 0 <= k < |argv| ==> argv[k] in disk
    ensures ok ==> out == HeaderText(Files(argv, disk))
    ensures !ok ==> n < |argv| && argv[n] !in disk && (forall k :: 0 <= k < n ==> argv[k] in disk)
    ensures !ok ==> out == PREAMBLE + Numbered(DeclText, 1, Files(argv[..n], disk))
  {
    n, out := PrintDecls(argv, disk, PREAMBLE);
    ok := n == |argv|;
    if ok {
      assert argv[..n] == argv;
      ghost var head, rows := out, Numbered(RowText, 1, Files(argv, disk));
      out := PrintRows(argv, disk, out + TABLE_TYPE);
      CatAssoc(head, TABLE_TYPE, rows);
      CatAssoc(head, TABLE_TYPE + rows, CLOSING);
      out := out + CLOSING;
    }
  }

  // ---------------------------------------------------------------- the size of the rows

  function Quotes(s: string): nat { multiset(s)['\"'] }

  lemma QuotesAppend(a: string, b: string)
    ensures Quotes(a + b) == Quotes(a) + Quotes(b)
  {}

  lemma EscapeSize(c: Octet)
    ensures |Escape(c)| == 4 && Quotes(Escape(c)) == 0
  {
    hide HexDigit;
    HexDigitIsNotQuote(c as int / 16);
    HexDigitIsNotQuote(c as int % 16);
    QuotesAppend("\\x", [HexDigit(c as int / 16), HexDigit(c as int % 16)]);
  }

  lemma HexDigitIsNotQuote(d: nat)
    requires d < 16
    ensures HexDigit(d) != '\"'
  {}

  lemma {:induction false} EscapesSize(chunk: seq<Octet>)
    ensures |Escapes(chunk)| == 4 * |chunk| && Quotes(Escapes(chunk)) == 0
  {
    hide Escape;
    if chunk != [] {
      EscapeSize(chunk[0]);
      EscapesSize(chunk[1..]);
      QuotesAppend(Escape(chunk[0]), Escapes(chunk[1..]));
    }
  }

  lemma DataRowSize(chunk: seq<Octet>)
    ensures |DataRow(chunk)| == 4 * |chunk| + 5 && Quotes(DataRow(chunk)) == 2
  {
    hide Escapes;
    EscapesSize(chunk);
    QuotesAppend("\n  \"" + Escapes(chunk), "\"");
    QuotesAppend("\n  \"", Escapes(chunk));
  }

  /** Sixteen bytes to a row, two quotes and five characters around them. */
  lemma {:induction false} DataRowsSize(content: seq<Octet>)
    requires content != []
    ensures |DataRows(content)| == 4 * |content| + 5 * ((|content| + 15) / 16)
    ensures Quotes(DataRows(content)) == 2 * ((|content| + 15) / 16)
    decreases |content|
  {
    hide DataRow;
    if |content| <= 16 {
      DataRowSize(content);
    } else {
      DataRowSize(content[..16]);
      DataRowsSize(content[16..]);
      QuotesAppend(DataRow(content[..16]), DataRows(content[16..]));
    }
  }

  /** The quotes of a file's literals balance if and only if the file is not empty. */
  lemma QuotesBalance(content: seq<Octet>)
    ensures Quotes(DataText(content)) % 2 == 0 <==> content != []
  {
    hide DataRows;
    if content != [] {
      DataRowsSize(content);
    }
  }
}
