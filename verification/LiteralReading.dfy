/** What the reader makes of the pieces the program prints: escapes, rows, numbers and names. */
module LiteralReading {
  import opened Wrappers
  import opened CppReader
  import opened LexerLaws
  import opened HeaderPrinter
  import opened SourcePhases

  // ---------------------------------------------------------------- escapes

  lemma HexDigitReads(d: nat)
    requires d < 16
    ensures IsHexDigit(HexDigit(d)) && HexDigitValue(HexDigit(d)) == d
  {}

  lemma HexPair(h: char, l: char)
    requires IsHexDigit(h) && IsHexDigit(l)
    ensures HexValue([h, l]) == HexDigitValue(h) * 16 + HexDigitValue(l)
  {
    assert [h, l][..1] == [h] && [h][..0] == [];
    assert HexValue([h]) == HexDigitValue(h);
  }

  /** An escape is read as its byte as long as no hexadecimal digit follows it. */
  lemma EscapeReads(c: Octet, t: string)
    requires t != [] && !IsHexDigit(t[0])
    ensures EscapeSequence((Escape(c) + t)[1..]) == Some((c, t))
  {
    var h, l := HexDigit(c as int / 16), HexDigit(c as int % 16);
    HexDigitReads(c as int / 16);
    HexDigitReads(c as int % 16);
    HexPair(h, l);
    var s := (Escape(c) + t)[1..];
    assert s == "x" + [h, l] + t;
    assert s[1..] == [h, l] + t;
    SpanCut(IsHexDigit, [h, l], t);
    assert Span(IsHexDigit, [h, l]) == 2;
    assert s[1..3] == [h, l] && s[3..] == t;
  }

  /** The escapes of a row, up to the quote that closes it, are read as the bytes of the row. */
  lemma {:induction false} EscapesRead(chunk: seq<Octet>, t: string)
    ensures Literal(Escapes(chunk) + ("\"" + t)) == Some((chunk, t))
    decreases |chunk|
  {
    var after := "\"" + t;
    if chunk == [] {
      assert Escapes(chunk) + after == after;
      assert after[1..] == t;
    } else {
      var more := Escapes(chunk[1..]) + after;
      NextIsNotHex(chunk[1..], t);
      CatAssoc(Escape(chunk[0]), Escapes(chunk[1..]), after);
      EscapeReads(chunk[0], more);
      EscapesRead(chunk[1..], t);
      assert (Escape(chunk[0]) + more)[0] == '\\';
      assert [chunk[0]] + chunk[1..] == chunk;
    }
  }

  lemma NextIsNotHex(chunk: seq<Octet>, t: string)
    ensures var more := Escapes(chunk) + ("\"" + t);
      more != [] && (more[0] == '\\' || more[0] == '\"')
  {
    if chunk != [] {
      assert Escape(chunk[0])[0] == '\\';
    }
  }

  // ---------------------------------------------------------------- rows

  lemma DataRowReads(chunk: seq<Octet>, t: string)
    ensures Lex(DataRow(chunk) + t) == [Str(chunk)] + Lex(t)
  {
    var body := Escapes(chunk) + ("\"" + t);
    EscapesRead(chunk, t);
    assert DataRow(chunk) + t == ['\n'] + ([' '] + ([' '] + (['\"'] + body)));
    LexBlank('\n', [' '] + ([' '] + (['\"'] + body)));
    LexBlank(' ', [' '] + (['\"'] + body));
    LexBlank(' ', ['\"'] + body);
    LexQuote(body, chunk, t);
  }

  lemma LexQuote(body: string, v: string, t: string)
    requires Literal(body) == Some((v, t))
    ensures Lex(['\"'] + body) == [Str(v)] + Lex(t)
  {
    assert (['\"'] + body)[1..] == body;
  }

  predicate NoStringNext(ts: seq<Token>) { ts == [] || !ts[0].Str? }

  lemma RunStep(v: string, ts: seq<Token>)
    ensures StringRun([Str(v)] + ts) == (v + StringRun(ts).0, StringRun(ts).1)
  {
    assert ([Str(v)] + ts)[1..] == ts;
  }

  /** The rows of a file are adjacent literals, and together they are the bytes of the file. */
  lemma {:induction false} DataRowsRead(content: seq<Octet>, t: string)
    requires NoStringNext(Lex(t))
    ensures StringRun(Lex(DataRows(content) + t)) == (content, Lex(t))
    ensures Lex(DataRows(content) + t) != [] && Lex(DataRows(content) + t)[0].Str?
    decreases |content|
  {
    if |content| <= 16 {
      DataRowReads(content, t);
      RunStep(content, Lex(t));
      assert content + "" == content;
    } else {
      var more := DataRows(content[16..]) + t;
      DataRowsRead(content[16..], t);
      CatAssoc(DataRow(content[..16]), DataRows(content[16..]), t);
      DataRowReads(content[..16], more);
      RunStep(content[..16], Lex(more));
      assert content[..16] + content[16..] == content;
    }
  }

  /** At any point of the loop over a file's bytes, closing the open literal gives literals that are read as
      exactly the bytes printed so far. */
  lemma OpenRowsRead(open: string, done: seq<Octet>)
    requires OpenRows(open, done)
    ensures StringRun(Lex(open + "\"")) == (done, [])
  {
    hide Lex, DataRows, StringRun;
    LexEmpty();
    DataRowsRead(done, "");
    assert DataRows(done) + "" == DataRows(done);
  }

  // ---------------------------------------------------------------- numbers

  lemma DigitReads(d: nat)
    requires d < 10
    ensures IsDigit("0123456789"[d]) && "0123456789"[d] as int - '0' as int == d
    ensures "0123456789"[d] == '0' <==> d == 0
  {}

  lemma {:induction false} DecimalReads(n: nat)
    ensures forall c :: c in Decimal(n) ==> IsDigit(c)
    ensures DecimalValue(Decimal(n)) == n
    ensures Decimal(n)[0] == '0' <==> n == 0
    ensures n == 0 ==> |Decimal(n)| == 1
    decreases n
  {
    DigitReads(n % 10);
    if n >= 10 {
      DecimalReads(n / 10);
      var s := Decimal(n);
      assert s[..|s| - 1] == Decimal(n / 10);
    } else {
      assert Decimal(n)[..0] == [];
    }
  }

  lemma NumberReads(n: nat)
    ensures NumberValue(Decimal(n)) == Some(n)
  {
    DecimalReads(n);
  }

  lemma DecimalInjective(m: nat, n: nat)
    requires Decimal(m) == Decimal(n)
    ensures m == n
  {
    DecimalReads(m);
    DecimalReads(n);
  }

  // ---------------------------------------------------------------- names

  predicate IsPlain(c: char) { c != '\"' && c != '\\' && c != '\n' && c != NUL }

  /** A text that a literal gives back as it is. */
  predicate Verbatim(name: string) { forall c :: c in name ==> IsPlain(c) }

  /** A name that may be printed between quotes as it is. */
  predicate Plain(name: string) { Verbatim(name) && !HasTrigraph(name) }

  lemma {:induction false} VerbatimReads(name: string, t: string)
    requires Verbatim(name)
    ensures Literal(name + ("\"" + t)) == Some((name, t))
    decreases |name|
  {
    var after := "\"" + t;
    if name == [] {
      assert name + after == after && after[1..] == t;
    } else {
      assert IsPlain(name[0]);
      assert (name + after)[1..] == name[1..] + after;
      VerbatimReads(name[1..], t);
      assert [name[0]] + name[1..] == name;
    }
  }

  lemma VerbatimHasNoNul(name: string)
    requires Verbatim(name)
    ensures name[..Span(NotNul, name)] == name
  {
    assert forall i :: 0 <= i < |name| ==> IsPlain(name[i]);
    assert Span(NotNul, name) == |name|;
  }

  /** Phases 1 and 2 leave plain names alone. */
  lemma PlainStays(name: string)
    requires Plain(name)
    ensures Phases(name) == name
  {
    hide Phases, HasTrigraph;
    PhasesShrink(name);
    NoBackslashNoSplice(name);
  }

  lemma {:induction false} NoBackslashNoSplice(s: string)
    requires forall c :: c in s ==> IsPlain(c)
    ensures !HasSplice(s)
  {
    if s != [] {
      assert IsPlain(s[0]);
      NoBackslashNoSplice(s[1..]);
    }
  }

  /** Any other name is seen shorter than it is, or is seen as it is and not given back. */
  lemma NotPlain(name: string)
    requires !Plain(name)
    ensures |Phases(name)| < |name| || (Phases(name) == name && !Verbatim(name))
  {
    hide Phases, HasTrigraph, HasSplice;
    PhasesShrink(name);
  }
}
