/** How the lexer behaves on concatenated text: where a text may be cut without changing its tokens. */
module LexerLaws {
  import opened Wrappers
  import opened CppReader

  lemma {:induction false} SpanCut(p: char -> bool, a: string, t: string)
    requires t == [] || !p(t[0])
    ensures Span(p, a + t) == Span(p, a)
  {
    if a == [] {
      assert a + t == t;
    } else {
      assert (a + t)[1..] == a[1..] + t;
      SpanCut(p, a[1..], t);
    }
  }

  lemma HexEscapeCut(a: string, t: string)
    requires a != [] && a[0] == 'x'
    requires t == [] || t[0] == '\n'
    ensures EscapeSequence(a).None? ==> EscapeSequence(a + t).None?
    ensures EscapeSequence(a).Some? ==>
      EscapeSequence(a + t) == Some((EscapeSequence(a).value.0, EscapeSequence(a).value.1 + t))
  {
    hide Span, HexValue;
    var n := Span(IsHexDigit, a[1..]);
    SpanCut(IsHexDigit, a[1..], t);
    assert (a + t)[1..] == a[1..] + t;
    assert (a + t)[1..1 + n] == a[1..1 + n];
    assert (a + t)[1 + n..] == a[1 + n..] + t;
  }

  lemma OctalEscapeCut(a: string, t: string)
    requires a != [] && IsOctalDigit(a[0])
    requires t == [] || t[0] == '\n'
    ensures EscapeSequence(a).None? ==> EscapeSequence(a + t).None?
    ensures EscapeSequence(a).Some? ==>
      EscapeSequence(a + t) == Some((EscapeSequence(a).value.0, EscapeSequence(a).value.1 + t))
  {
    hide Span, OctalValue;
    SpanCut(IsOctalDigit, a, t);
    var k := Span(IsOctalDigit, a);
    var n := if k > 3 then 3 else k;
    assert (a + t)[..n] == a[..n];
    assert (a + t)[n..] == a[n..] + t;
  }

  lemma EscapeSequenceCut(a: string, t: string)
    requires t == [] || t[0] == '\n'
    ensures EscapeSequence(a).None? ==> EscapeSequence(a + t).None?
    ensures EscapeSequence(a).Some? ==>
      EscapeSequence(a + t) == Some((EscapeSequence(a).value.0, EscapeSequence(a).value.1 + t))
  {
    hide Span, HexValue, OctalValue;
    if a == [] {
      assert a + t == t;
    } else if a[0] == 'x' {
      HexEscapeCut(a, t);
    } else if IsOctalDigit(a[0]) {
      OctalEscapeCut(a, t);
    } else {
      assert (a + t)[1..] == a[1..] + t;
    }
  }

  /** No literal reaches across the end of its line. */
  lemma {:induction false} LiteralCut(a: string, t: string)
    requires t == [] || t[0] == '\n'
    ensures Literal(a).None? ==> Literal(a + t).None?
    ensures Literal(a).Some? ==> Literal(a + t) == Some((Literal(a).value.0, Literal(a).value.1 + t))
    decreases |a|
  {
    hide EscapeSequence;
    if a == [] {
      assert a + t == t;
    } else if a[0] == '\\' {
      assert (a + t)[1..] == a[1..] + t;
      EscapeSequenceCut(a[1..], t);
      if EscapeSequence(a[1..]).Some? {
        LiteralCut(EscapeSequence(a[1..]).value.1, t);
      }
    } else {
      assert (a + t)[1..] == a[1..] + t;
      LiteralCut(a[1..], t);
    }
  }

  /** Where `t` may be cut off: at a newline always, at any other blank when no literal or directive is open. */
  predicate CutPoint(a: string, t: string) {
    t == [] || t[0] == '\n' || (IsBlank(t[0]) && '\"' !in a && '#' !in a)
  }

  lemma StepCut(a: string, t: string)
    requires a != [] && CutPoint(a, t)
    ensures Step(a + t) == (Step(a).0, Step(a).1 + t)
  {
    hide Span, Literal;
    if a[0] == '#' {
      RunCut(NotNewline, a, t);
    } else if IsIdentChar(a[0]) {
      RunCut(IsIdentChar, a, t);
    } else if a[0] == '\"' {
      assert (a + t)[1..] == a[1..] + t;
      LiteralCut(a[1..], t);
      RunCut(NotNewline, a, t);
    } else if |a| >= 2 && IsPair(a[0], a[1]) {
      assert (a + t)[0] == a[0] && (a + t)[1] == a[1];
      assert (a + t)[..2] == a[..2] && (a + t)[2..] == a[2..] + t;
    } else {
      assert (a + t)[0] == a[0] && (|a + t| >= 2 ==> (a + t)[1] == if |a| >= 2 then a[1] else t[0]);
      assert (a + t)[..1] == a[..1] && (a + t)[1..] == a[1..] + t;
    }
  }

  lemma RunCut(p: char -> bool, a: string, t: string)
    requires t == [] || !p(t[0])
    ensures var n := Span(p, a);
      Span(p, a + t) == n && (a + t)[..n] == a[..n] && (a + t)[n..] == a[n..] + t
  {
    SpanCut(p, a, t);
  }

  lemma StepRest(s: string)
    requires s != []
    ensures exists n :: 0 < n <= |s| && Step(s).1 == s[n..]
  {
    hide Span, Literal;
    if s[0] == '\"' && Literal(s[1..]).Some? {
      LiteralRest(s[1..]);
      var n :| 0 < n <= |s[1..]| && Literal(s[1..]).value.1 == s[1..][n..];
      assert s[1..][n..] == s[1 + n..];
    }
  }

  lemma EscapeSequenceRest(s: string)
    requires EscapeSequence(s).Some?
    ensures exists n :: 0 < n <= |s| && EscapeSequence(s).value.1 == s[n..]
  {}

  lemma {:induction false} LiteralRest(s: string)
    requires Literal(s).Some?
    ensures exists n :: 0 < n <= |s| && Literal(s).value.1 == s[n..]
    decreases |s|
  {
    if s[0] == '\\' {
      EscapeSequenceRest(s[1..]);
      var k :| 0 < k <= |s[1..]| && EscapeSequence(s[1..]).value.1 == s[1..][k..];
      assert s[1..][k..] == s[1 + k..];
      LiteralRest(s[1 + k..]);
      var n :| 0 < n <= |s[1 + k..]| && Literal(s[1 + k..]).value.1 == s[1 + k..][n..];
      assert s[1 + k..][n..] == s[1 + k + n..];
    } else if s[0] != '\"' {
      LiteralRest(s[1..]);
      var n :| 0 < n <= |s[1..]| && Literal(s[1..]).value.1 == s[1..][n..];
      assert s[1..][n..] == s[1 + n..];
    }
  }

  lemma {:induction false} LexCut(a: string, t: string)
    requires CutPoint(a, t)
    ensures Lex(a + t) == Lex(a) + Lex(t)
    decreases |a|
  {
    hide Step;
    if a == [] {
      assert a + t == t;
    } else {
      StepCut(a, t);
      StepRest(a);
      LexCut(Step(a).1, t);
    }
  }

  lemma LexEmpty()
    ensures Lex("") == []
  {}

  lemma LexBlank(c: char, t: string)
    requires IsBlank(c)
    ensures Lex([c] + t) == Lex(t)
  {
    hide Span, Literal;
    assert ([c] + t)[1..] == t;
  }

  lemma LexLines(a: string, b: string)
    ensures Lex(a + "\n" + b) == Lex(a) + Lex(b)
  {
    hide Lex;
    LexCut(a, ['\n'] + b);
    LexBlank('\n', b);
    assert a + "\n" + b == a + (['\n'] + b);
  }

  lemma LexWords(a: string, b: string)
    requires '\"' !in a && '#' !in a
    ensures Lex(a + " " + b) == Lex(a) + Lex(b)
  {
    hide Lex;
    LexCut(a, [' '] + b);
    LexBlank(' ', b);
    assert a + " " + b == a + ([' '] + b);
  }

  /** A run of identifier characters is one token wherever something else follows it. */
  lemma LexRun(w: string, t: string)
    requires w != [] && forall c :: c in w ==> IsIdentChar(c)
    requires t == [] || !IsIdentChar(t[0])
    ensures Lex(w + t) == [if IsDigit(w[0]) then Number(w) else Ident(w)] + Lex(t)
  {
    hide Literal;
    SpanCut(IsIdentChar, w, t);
    assert Span(IsIdentChar, w) == |w|;
    assert (w + t)[..|w|] == w && (w + t)[|w|..] == t;
  }

  /** A one-character mark is one token unless it forms a two-character mark with what follows it. */
  lemma LexMark(c: char, t: string)
    requires !IsBlank(c) && !IsIdentChar(c) && c != '#' && c != '\"'
    requires t != [] ==> !IsPair(c, t[0])
    ensures Lex([c] + t) == [Punct([c])] + Lex(t)
  {
    hide Span, Literal;
    var s := [c] + t;
    assert s[1..] == t && s[..1] == [c];
  }
}
