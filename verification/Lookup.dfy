/** The function `find_embedded_file` that every header ends with, and the whole way of a file:
    printed into a header, read back, and found by its name at run time. */
module Lookup {
  import opened Wrappers
  import opened CppReader
  import opened HeaderPrinter
  import opened LiteralReading
  import opened FindParsing
  import opened HeaderReading

  /** The value of the string that is declared as `id`. */
  function ValueOf(decls: seq<Decl>, id: string): string
    requires Declares(decls, id)
  {
    if decls[0].id == id then decls[0].value else ValueOf(decls[1..], id)
  }

  // ---------------------------------------------------------------- running a function

  datatype Value =
    | Flag(b: bool)
    | Text(s: string)
    | Address(id: string)      // of a declared string
    | Nowhere                  // the null pointer
    | Element(i: nat)          // a pointer into the table, or just past its end

  type Env = map<string, Value>

  /** A member of an element of the table. */
  function Select(h: Header, i: nat, m: string): Option<Value> {
    if i >= |h.rows| then None
    else if m == h.shape.first then Some(if h.rows[i].Null? then Nowhere else Address(h.rows[i].first))
    else if m == h.shape.second then Some(if h.rows[i].Null? then Nowhere else Address(h.rows[i].second))
    else None
  }

  /** Whether two strings, or two pointers to strings, are equal. */
  function Compare(a: Value, b: Value): Option<bool> {
    if (a.Text? && b.Text?) || ((a.Address? || a.Nowhere?) && (b.Address? || b.Nowhere?)) then Some(a == b) else None
  }

  /** The value of an expression, or None where C++ defines none. */
  function Eval(h: Header, env: Env, e: Expr): Option<Value> {
    match e
    case Name(id) =>
      if id in env then Some(env[id]) else if id == h.shape.table then Some(Element(0)) else None
    case NullPointer => Some(Nowhere)
    case Truth(b) => Some(Flag(b))
    case Arrow(p, m) =>
      var v :- Eval(h, env, p);
      if v.Element? then Select(h, v.i, m) else None
    case Deref(p) =>
      var v :- Eval(h, env, p);
      if v.Address? && Declares(h.decls, v.id) then Some(Text(ValueOf(h.decls, v.id))) else None
    case Same(a, b) =>
      var v :- Eval(h, env, a);
      var w :- Eval(h, env, b);
      var r :- Compare(v, w);
      Some(Flag(r))
    case Differs(a, b) =>
      var v :- Eval(h, env, a);
      var w :- Eval(h, env, b);
      var r :- Compare(v, w);
      Some(Flag(!r))
  }

  datatype Outcome = Goes(env: Env) | Returns(value: Value, env: Env) | Stuck

  /** How far `id` is from the end of the table. */
  function Left(h: Header, env: Env, id: string): nat {
    if id in env && env[id].Element? && env[id].i <= |h.rows| then |h.rows| + 1 - env[id].i else 0
  }

  function Exec(h: Header, env: Env, s: Stmt): Outcome
    decreases s, 1, 0
  {
    match s
    case Done => Goes(env)
    case Then(first, rest) =>
      (match Exec(h, env, first)
       case Goes(env') => Exec(h, env', rest)
       case other => other)
    case Local(tag, id) => if tag == h.shape.tag then Goes(env) else Stuck
    case Assign(id, e) =>
      (match Eval(h, env, e)
       case Some(v) => Goes(env[id := v])
       case None => Stuck)
    case Return(e) =>
      (match Eval(h, env, e)
       case Some(v) => Returns(v, env)
       case None => Stuck)
    case If(test, body) =>
      (match Eval(h, env, test)
       case Some(Flag(b)) => if b then Exec(h, env, body) else Goes(env)
       case _ => Stuck)
    case For(id, start, _, _, _) =>
      (match Eval(h, env, start)
       case Some(v) => Iterate(h, env[id := v], s)
       case None => Stuck)
  }

  /** The rounds of a loop.  Its pointer may go no further than just past the table, so the loop ends; a body that moves
      the pointer back gets stuck. */
  function Iterate(h: Header, env: Env, s: Stmt): Outcome
    requires s.For?
    decreases s, 0, Left(h, env, s.next)
  {
    match Eval(h, env, s.test)
    case Some(Flag(true)) =>
      (match Exec(h, env, s.body)
       case Goes(env') =>
         if s.next in env' && env'[s.next].Element? then
           var env2 := env'[s.next := Element(env'[s.next].i + 1)];
           if Left(h, env2, s.next) < Left(h, env, s.next) then Iterate(h, env2, s) else Stuck
         else Stuck
       case other => other)
    case Some(Flag(false)) => Goes(env)
    case _ => Stuck
  }

  /** A call of the function `f` of the header with a key and the variable for the result: what it returns, and the
      variable after the call. */
  function Call(h: Header, f: string, key: string, result: string): Option<(bool, string)> {
    if f != h.code.name then None
    else
      match Exec(h, map[h.code.key := Text(key), h.code.result := Text(result)], h.code.body)
      case Returns(Flag(b), env) =>
        if h.code.result in env && env[h.code.result].Text? then Some((b, env[h.code.result].s)) else None
      case _ => None
  }

  // ---------------------------------------------------------------- what the function finds

  /** A header with this structure and function, whose table ends in null pointers, as the loop of the function needs
      it. */
  predicate Terminated(h: Header) {
    WellFormed(h) && h.rows != [] && h.rows[|h.rows| - 1] == Null && h.shape == SHAPE && h.code == FIND
  }

  predicate Matches(h: Header, k: nat, name: string)
    requires WellFormed(h) && k < |h.rows|
  {
    h.rows[k].Ref? && ValueOf(h.decls, h.rows[k].first) == name
  }

  /** The loop reaches row `k`: no row before it is null or has the name. */
  ghost predicate Reaches(h: Header, k: nat, name: string)
    requires WellFormed(h)
  {
    k < |h.rows| && forall j :: 0 <= j < k ==> h.rows[j].Ref? && !Matches(h, j, name)
  }

  /** The variables of the function when the loop is at row `k`. */
  predicate AtRow(env: Env, k: nat, name: string, data: string) {
    && "p" in env && env["p"] == Element(k) && "name" in env && env["name"] == Text(name)
    && "data" in env && env["data"] == Text(data)
  }

  lemma MemberOf(h: Header, env: Env, k: nat, m: string)
    requires "p" in env && env["p"] == Element(k)
    ensures Eval(h, env, Arrow(Name("p"), m)) == Select(h, k, m)
  {
    assert Eval(h, env, Name("p")) == Some(Element(k));
  }

  lemma LoopTest(h: Header, env: Env, k: nat, name: string, data: string)
    requires Terminated(h) && k < |h.rows| && AtRow(env, k, name, data)
    ensures Eval(h, env, LOOP.test) == Some(Flag(h.rows[k].Ref?))
  {
    hide WellFormed, ValueOf;
    MemberOf(h, env, k, "name");
    assert Eval(h, env, NullPointer) == Some(Nowhere);
  }

  /** In a row, the test asks for its name, and the assignment copies its content. */
  lemma RowTest(h: Header, env: Env, k: nat, name: string, data: string)
    requires Terminated(h) && k < |h.rows| && h.rows[k].Ref? && AtRow(env, k, name, data)
    ensures Eval(h, env, TEST.test) == Some(Flag(Matches(h, k, name)))
    ensures Eval(h, env, COPY.value) == Some(Text(ValueOf(h.decls, h.rows[k].second)))
  {
    assert Declares(h.decls, h.rows[k].first) && Declares(h.decls, h.rows[k].second);
    hide WellFormed, Declares, ValueOf;
    MembersDiffer();
    MemberOf(h, env, k, "name");
    MemberOf(h, env, k, "data");
    assert Eval(h, env, Deref(Arrow(Name("p"), "name"))) == Some(Text(ValueOf(h.decls, h.rows[k].first)));
    assert Eval(h, env, Name("name")) == Some(Text(name));
  }

  lemma MembersDiffer()
    ensures "name" != "data" && "p" != "name" && "p" != "data"
  {
    assert "name"[0] != "data"[0];
  }

  /** One round of the loop, at a row with strings. */
  lemma OneRound(h: Header, env: Env, k: nat, name: string, data: string)
    requires Terminated(h) && k < |h.rows| && h.rows[k].Ref? && AtRow(env, k, name, data)
    ensures Matches(h, k, name) ==>
      Exec(h, env, LOOP.body) == Returns(Flag(true), env["data" := Text(ValueOf(h.decls, h.rows[k].second))])
    ensures !Matches(h, k, name) ==> Exec(h, env, LOOP.body) == Goes(env)
  {
    RowTest(h, env, k, name, data);
    hide Eval, WellFormed, ValueOf, Matches;
    if Matches(h, k, name) {
      var env' := env["data" := Text(ValueOf(h.decls, h.rows[k].second))];
      assert Eval(h, env', FOUND.value) == Some(Flag(true)) by { EvalTruth(h, env', true); }
      assert Exec(h, env', FOUND) == Returns(Flag(true), env');
      assert Exec(h, env', Then(FOUND, Done)) == Returns(Flag(true), env');
      assert Exec(h, env, COPY) == Goes(env');
      assert Exec(h, env, Then(COPY, Then(FOUND, Done))) == Returns(Flag(true), env');
      assert Exec(h, env, TEST) == Returns(Flag(true), env');
    } else {
      assert Exec(h, env, TEST) == Goes(env);
    }
  }

  lemma EvalTruth(h: Header, env: Env, b: bool)
    ensures Eval(h, env, Truth(b)) == Some(Flag(b))
  {}

  /** From row `k` on, the loop returns from the first row with the name, or goes on behind the null row. */
  lemma {:induction false} LoopFinds(h: Header, env: Env, k: nat, name: string, data: string)
    returns (at: nat, env': Env)
    requires Terminated(h) && Reaches(h, k, name) && AtRow(env, k, name, data)
    ensures Reaches(h, at, name)
    ensures "data" in env'
    ensures Matches(h, at, name) ==>
      && Iterate(h, env, LOOP) == Returns(Flag(true), env')
      && env'["data"] == Text(ValueOf(h.decls, h.rows[at].second))
    ensures !Matches(h, at, name) ==>
      && h.rows[at].Null? && Iterate(h, env, LOOP) == Goes(env') && env'["data"] == Text(data)
    decreases |h.rows| - k
  {
    LoopTest(h, env, k, name, data);
    if h.rows[k].Null? {
      at, env' := k, env;
    } else {
      OneRound(h, env, k, name, data);
      if Matches(h, k, name) {
        at, env' := k, env["data" := Text(ValueOf(h.decls, h.rows[k].second))];
        hide Eval, Exec, WellFormed, ValueOf;
      } else {
        var env2 := env["p" := Element(k + 1)];
        MembersDiffer();
        hide Eval, Exec, WellFormed, ValueOf, Matches;
        at, env' := LoopFinds(h, env2, k + 1, name, data);
        assert Iterate(h, env, LOOP) == Iterate(h, env2, LOOP);
      }
    }
  }

  /** What a call of the emitted function gives: true and the content of the first row with the name, or false and the
      variable as it was. */
  lemma CallFinds(h: Header, name: string, data: string) returns (at: nat)
    requires Terminated(h)
    ensures Reaches(h, at, name)
    ensures Matches(h, at, name) ==>
      Call(h, "find_embedded_file", name, data) == Some((true, ValueOf(h.decls, h.rows[at].second)))
    ensures !Matches(h, at, name) ==>
      h.rows[at].Null? && Call(h, "find_embedded_file", name, data) == Some((false, data))
  {
    MembersDiffer();
    var env: Env := map["name" := Text(name), "data" := Text(data)];
    var env1 := env["p" := Element(0)];
    hide WellFormed, ValueOf, Matches;
    var env';
    at, env' := LoopFinds(h, env1, 0, name, data);
    assert Exec(h, env, Local("embedded_file", "p")) == Goes(env);
    StartOfLoop(h, env, env1);
    EvalTruth(h, env', false);
    hide Iterate, Eval;
    BodyRuns(h, env, Iterate(h, env1, LOOP));
  }

  lemma StartOfLoop(h: Header, env: Env, env1: Env)
    requires h.shape == SHAPE && "embedded_files" !in env && env1 == env["p" := Element(0)]
    ensures Exec(h, env, LOOP) == Iterate(h, env1, LOOP)
  {
    hide Iterate;
    assert Eval(h, env, Name("embedded_files")) == Some(Element(0));
  }

  /** After the loop the function returns false. */
  lemma BodyRuns(h: Header, env: Env, o: Outcome)
    requires h.shape == SHAPE && Exec(h, env, LOOP) == o
    ensures o.Returns? ==> Exec(h, env, FIND.body) == o
    ensures o.Goes? ==> Exec(h, env, FIND.body) == Returns(Flag(false), o.env)
  {
    hide Iterate;
    assert Exec(h, env, Local("embedded_file", "p")) == Goes(env);
    if o.Goes? {
      EvalTruth(h, o.env, false);
      assert Exec(h, o.env, MISSING) == Returns(Flag(false), o.env);
      assert Exec(h, o.env, Then(MISSING, Done)) == Returns(Flag(false), o.env);
    }
    hide LOOP, Eval;
    assert Exec(h, env, Then(LOOP, Then(MISSING, Done))) == if o.Goes? then Exec(h, o.env, Then(MISSING, Done)) else o;
  }

  // ---------------------------------------------------------------- the table of a set of files

  lemma {:induction false} ValueAt(decls: seq<Decl>, k: nat)
    requires k < |decls|
    requires forall i, j :: 0 <= i < j < |decls| ==> decls[i].id != decls[j].id
    ensures Declares(decls, decls[k].id) && ValueOf(decls, decls[k].id) == decls[k].value
  {
    if k > 0 {
      assert decls[1..][k - 1] == decls[k];
      ValueAt(decls[1..], k - 1);
    }
  }

  /** Row `k` of the table of `files` resolves to the name and the content of `files[k]`. */
  lemma RowResolves(files: seq<File>, k: nat)
    requires k < |files|
    ensures var h := HeaderOf(files);
      && Terminated(h) && |h.rows| == |files| + 1 && h.rows[k].Ref? && h.rows[|files|].Null?
      && ValueOf(h.decls, h.rows[k].first) == files[k].name
      && ValueOf(h.decls, h.rows[k].second) == files[k].content
  {
    hide DeclsOf, RowsOf, NameId, DataId, ValueOf;
    var h := HeaderOf(files);
    HeaderWellFormed(files);
    RowsAt(1, |files|, k);
    RowsAt(1, |files|, |files|);
    DeclsAt(1, files, k);
    ValueAt(h.decls, 2 * k);
    ValueAt(h.decls, 2 * k + 1);
  }

  lemma TableOf(files: seq<File>)
    ensures var h := HeaderOf(files);
      && Terminated(h) && |h.rows| == |files| + 1 && h.rows[|files|].Null?
      && forall k :: 0 <= k < |files| ==>
           h.rows[k].Ref? && (Matches(h, k, files[k].name))
           && ValueOf(h.decls, h.rows[k].first) == files[k].name
           && ValueOf(h.decls, h.rows[k].second) == files[k].content
  {
    hide DeclsOf, RowsOf, NameId, DataId, ValueOf;
    HeaderWellFormed(files);
    RowsAt(1, |files|, |files|);
    forall k | 0 <= k < |files|
      ensures var h := HeaderOf(files);
        h.rows[k].Ref? && (Matches(h, k, files[k].name))
        && ValueOf(h.decls, h.rows[k].first) == files[k].name
        && ValueOf(h.decls, h.rows[k].second) == files[k].content
    {
      RowResolves(files, k);
    }
  }

  /** The lookup reaches row `k` exactly when no file before `files[k]` has the name, so the first
      argument of a name is the one that is found. */
  lemma ReachesFirst(files: seq<File>, name: string, k: nat)
    ensures WellFormed(HeaderOf(files)) && |HeaderOf(files).rows| == |files| + 1
    ensures Reaches(HeaderOf(files), k, name)
       <==> k <= |files| && forall j :: 0 <= j < k ==> files[j].name != name
    ensures k < |files| ==> (Matches(HeaderOf(files), k, name) <==> files[k].name == name)
  {
    hide HeaderOf, ValueOf;
    TableOf(files);
    var h := HeaderOf(files);
    if k <= |files| && forall j :: 0 <= j < k ==> files[j].name != name {
      forall j | 0 <= j < k
        ensures h.rows[j].Ref? && !Matches(h, j, name)
      {
        assert ValueOf(h.decls, h.rows[j].first) == files[j].name;
      }
    }
    if Reaches(h, k, name) {
      forall j | 0 <= j < k
        ensures files[j].name != name
      {
        assert h.rows[j].Ref? && !Matches(h, j, name);
      }
    }
  }

  // ---------------------------------------------------------------- the whole way

  /** What the documentation of the program promises: the files named on its command line can be found
      in the header, byte for byte, and no others. */
  method EmbedAndFind(argv: seq<string>, disk: map<string, seq<Octet>>, name: string, data: string)
    returns (found: bool, result: string)
    requires forall k :: 0 <= k < |argv| ==>
      argv[k] in disk && 0 < |disk[argv[k]]| < 0x8000_0000 && Plain(argv[k])
    ensures found <==> name in argv
    ensures found ==> result == disk[name]
    ensures !found ==> result == data
  {
    hide DeclsOf, RowsOf, NameId, DataId, ValueOf, ReadHeader, HeaderText, WellFormed, Call;
    var ok, n, text := Generate(argv, disk);
    ghost var files := Files(argv, disk);
    HeaderReadsBack(files);
    TableOf(files);
    var header := ReadHeader(text).value;
    ghost var at := CallFinds(header, name, data);
    var r := Call(header, "find_embedded_file", name, data).value;
    found, result := r.0, r.1;
    if found {
      assert files[at].name == name;
    } else {
      assert forall k :: 0 <= k < |argv| ==> files[k].name != name;
    }
  }
}
