/** What the include guard of the header is for: a source file that includes the header twice gets its declarations
    once. */
module IncludeGuard {
  import opened Wrappers
  import opened CppReader
  import opened AcceptedTokens

  /** What a run of the preprocessor has kept, which macros are defined, and how deep it is in skipped groups. */
  datatype Kept = Kept(tokens: seq<Token>, defined: set<string>, depth: nat)

  /** The preprocessor on `#ifndef`, `#define` and `#endif`; other directives leave nothing behind. */
  function Preprocess(defined: set<string>, depth: nat, ts: seq<Token>): Kept
    decreases |ts|
  {
    if ts == [] then Kept([], defined, depth)
    else if !ts[0].Directive? then
      var k := Preprocess(defined, depth, ts[1..]);
      if depth > 0 then k else k.(tokens := [ts[0]] + k.tokens)
    else
      var line := ts[0].line;
      if depth > 0 then Preprocess(defined, Deeper(depth, line), ts[1..])
      else if Asked(line).Some? then Preprocess(defined, if Asked(line).value in defined then 1 else 0, ts[1..])
      else if DEFINE <= line then Preprocess(defined + {line[|DEFINE|..]}, 0, ts[1..])
      else Preprocess(defined, 0, ts[1..])
  }

  /** In a skipped group only the nesting counts. */
  function Deeper(depth: nat, line: string): nat
    requires depth > 0
  {
    if Asked(line).Some? then depth + 1 else if ENDIF <= line then depth - 1 else depth
  }

  lemma {:induction false} PreprocessAppend(defined: set<string>, depth: nat, a: seq<Token>, b: seq<Token>)
    ensures var k := Preprocess(defined, depth, a); var l := Preprocess(k.defined, k.depth, b);
      Preprocess(defined, depth, a + b) == Kept(k.tokens + l.tokens, l.defined, l.depth)
    decreases |a|
  {
    hide Deeper, Asked;
    if a == [] {
      assert a + b == b;
    } else {
      assert (a + b)[1..] == a[1..] + b && (a + b)[0] == a[0];
      if a[0].Directive? {
        var line := a[0].line;
        if depth > 0 {
          PreprocessAppend(defined, Deeper(depth, line), a[1..], b);
        } else if Asked(line).Some? {
          PreprocessAppend(defined, if Asked(line).value in defined then 1 else 0, a[1..], b);
        } else if DEFINE <= line {
          PreprocessAppend(defined + {line[|DEFINE|..]}, 0, a[1..], b);
        } else {
          PreprocessAppend(defined, 0, a[1..], b);
        }
      } else {
        PreprocessAppend(defined, depth, a[1..], b);
      }
    }
  }

  /** Tokens without directives are kept or skipped together. */
  lemma {:induction false} GoodTokens(defined: set<string>, depth: nat, ts: seq<Token>)
    requires AllGood(ts)
    ensures Preprocess(defined, depth, ts) == Kept(if depth > 0 then [] else ts, defined, depth)
    decreases |ts|
  {
    if ts != [] {
      assert Good(ts[0]);
      assert AllGood(ts[1..]) by {
        forall k | 0 <= k < |ts[1..]|
          ensures Good(ts[1..][k])
        {
          assert ts[1..][k] == ts[k + 1];
        }
      }
      GoodTokens(defined, depth, ts[1..]);
      assert ts == [ts[0]] + ts[1..];
    }
  }

  lemma LinesDiffer(m: string, end: string)
    requires ENDIF <= end
    ensures Asked(DEFINE + m).None? && !(ENDIF <= DEFINE + m) && DEFINE <= DEFINE + m && (DEFINE + m)[|DEFINE|..] == m
    ensures Asked(INCLUDE).None? && !(ENDIF <= INCLUDE) && !(DEFINE <= INCLUDE)
    ensures Asked(end).None? && !(DEFINE <= end)
  {
    assert (DEFINE + m)[1] == 'd' && IFNDEF[1] == 'i' && ENDIF[1] == 'e' && INCLUDE[1] == 'i';
    assert INCLUDE[2] == 'n' && IFNDEF[2] == 'f' && DEFINE[1] == 'd';
    assert end[1] == ENDIF[1];
  }

  lemma OneDirective(defined: set<string>, depth: nat, line: string)
    ensures var k := Preprocess(defined, depth, [Directive(line)]);
      && (depth > 0 ==> k == Kept([], defined, Deeper(depth, line)))
      && (depth == 0 && Asked(line).Some? ==> k == Kept([], defined, if Asked(line).value in defined then 1 else 0))
      && (depth == 0 && Asked(line).None? && DEFINE <= line ==> k == Kept([], defined + {line[|DEFINE|..]}, 0))
      && (depth == 0 && Asked(line).None? && !(DEFINE <= line) ==> k == Kept([], defined, 0))
  {
    hide Deeper, Asked;
    assert [Directive(line)][1..] == [];
  }

  /** The first time a header that this reader accepts is kept whole and defines its macro; when the macro is defined
      nothing of it is kept. */
  lemma GuardWorks(defined: set<string>, ts: seq<Token>)
    requires ParseHeader(ts).Some?
    ensures |ts| >= 4 && ts[0].Directive? && Asked(ts[0].line).Some?
    ensures var m := Asked(ts[0].line).value;
      Preprocess(defined, 0, ts)
      == if m in defined then Kept([], defined, 0) else Kept(ts[3..|ts| - 1], defined + {m}, 0)
  {
    AcceptedIsGood(ts);
    hide ParseHeader, Preprocess, AllGood;
    var end := AroundBody(ts);
    GuardParts(defined, ts[0].line, Asked(ts[0].line).value, ts[3..|ts| - 1], end);
  }

  lemma AroundBody(ts: seq<Token>) returns (end: string)
    requires |ts| >= 4 && StartsGuard(ts) && IsEnd(ts[|ts| - 1..])
    ensures ENDIF <= end
    ensures ts == [Directive(ts[0].line)] + ([Directive(DEFINE + Asked(ts[0].line).value)] + ([Directive(INCLUDE)]
      + (ts[3..|ts| - 1] + [Directive(end)])))
  {
    hide Asked;
    var n := |ts| - 1;
    assert ts[n..][0] == ts[n];
    end := ts[n].line;
  }

  lemma GuardParts(defined: set<string>, ask: string, m: string, body: seq<Token>, end: string)
    requires Asked(ask) == Some(m) && AllGood(body) && ENDIF <= end
    ensures var ts := [Directive(ask)] + ([Directive(DEFINE + m)] + ([Directive(INCLUDE)] + (body + [Directive(end)])));
      Preprocess(defined, 0, ts) == if m in defined then Kept([], defined, 0) else Kept(body, defined + {m}, 0)
  {
    LinesDiffer(m, end);
    hide Preprocess, Asked;
    var d := if m in defined then 1 else 0;
    var after := if m in defined then defined else defined + {m};
    var tail := body + [Directive(end)];
    PreprocessAppend(defined, 0, [Directive(ask)], [Directive(DEFINE + m)] + ([Directive(INCLUDE)] + tail));
    OneDirective(defined, 0, ask);
    PreprocessAppend(defined, d, [Directive(DEFINE + m)], [Directive(INCLUDE)] + tail);
    OneDirective(defined, d, DEFINE + m);
    PreprocessAppend(after, d, [Directive(INCLUDE)], tail);
    OneDirective(after, d, INCLUDE);
    PreprocessAppend(after, d, body, [Directive(end)]);
    GoodTokens(after, d, body);
    OneDirective(after, d, end);
    assert [] + body == body && body + [] == body;
  }

  /** Including the header again adds nothing, whatever comes between. */
  lemma IncludedTwice(ts: seq<Token>, between: seq<Token>)
    requires ParseHeader(ts).Some? && AllGood(between)
    ensures Preprocess({}, 0, ts + (between + ts)).tokens == ts[3..|ts| - 1] + between
  {
    hide ParseHeader, Preprocess;
    GuardWorks({}, ts);
    var m := Asked(ts[0].line).value;
    PreprocessAppend({}, 0, ts, between + ts);
    PreprocessAppend({m}, 0, between, ts);
    GoodTokens({m}, 0, between);
    GuardWorks({m}, ts);
    assert {} + {m} == {m};
    assert between + [] == between;
  }
}
