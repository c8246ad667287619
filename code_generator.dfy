/** The program builder of code_generator.py: an append-only log of
    indented statements, a fresh-name counter, a constant table and the
    current indent. `Gen` is its state as a value, with one function per
    builder operation; `CodeGenerator` is the builder itself, whose methods
    update its fields in place and are proved to do what the functions
    say. */
module CodeGen {
  import opened Text
  import opened Errors
  import opened TypeHints

  /** code_generator.py:5-22 */
  datatype Statement =
    | LiteralStatement(stmt: string)
    | AssignmentStatement(left: string, right: string)
  {
    function ToStr(): string
    {
      match this
      case LiteralStatement(s) => s
      case AssignmentStatement(l, r) => l + " = " + r
    }
  }

  /** One entry of the statement log: the indent it was added at and the
      statement. */
  datatype Line = Line(indent: int, statement: Statement)

  /** A value the generated program refers to by name instead of by text:
      a class or typing object, or an imported module (kept as its name). */
  datatype Const = ObjectConst(value: Origin) | ModuleConst(moduleName: string)

  /** The name `get_var` hands out for counter value `i`. */
  function VarName(i: nat): string
  {
    "var" + NatToString(i)
  }

  /** Names from different counter values differ. */
  lemma VarNameInjective(i: nat, j: nat)
    requires VarName(i) == VarName(j)
    ensures i == j
  {
    assert VarName(i)[3..] == NatToString(i);
    assert VarName(j)[3..] == NatToString(j);
    NatToStringInjective(i, j);
  }

  /** Every generated name starts with "var". */
  lemma VarNamePrefix(i: nat)
    ensures |VarName(i)| >= 4 && VarName(i)[..3] == "var"
  {
  }

  function LiteralLines(indent: int, ss: seq<string>): (ls: seq<Line>)
    ensures |ls| == |ss|
  {
    seq(|ss|, i requires 0 <= i < |ss| => Line(indent, LiteralStatement(ss[i])))
  }

  function CommentLines(indent: int, ss: seq<string>): (ls: seq<Line>)
    ensures |ls| == |ss|
  {
    seq(|ss|, i requires 0 <= i < |ss| => Line(indent, LiteralStatement("# " + ss[i])))
  }

  function StatementLines(indent: int, ss: seq<Statement>): (ls: seq<Line>)
    ensures |ls| == |ss|
  {
    seq(|ss|, i requires 0 <= i < |ss| => Line(indent, ss[i]))
  }

  /** The builder's state. `defaultCount` is how many names `get_vars()`
      returns when called without an argument: 1 in code_generator.py:74. */
  datatype Gen = Gen(
    statements: seq<Line>,
    indent: int,
    consts: map<string, Const>,
    varI: nat,
    defaultCount: nat)
  {
    /** No name the counter will still hand out is already bound in the
        constant table, so `get_const` never overwrites a binding; objects
        are bound only under counter names, and a module only under its own
        name, so `ensure_import` never overwrites one either. */
    ghost predicate Valid()
    {
      && (forall j: nat {:trigger VarName(j)} :: varI <= j ==> VarName(j) !in consts)
      && (forall k :: k in consts && consts[k].ObjectConst? ==> |k| >= 3 && k[..3] == "var")
      && (forall k :: k in consts && consts[k].ModuleConst? ==> consts[k].moduleName == k)
    }

    static function Empty(defaultCount: nat): (g: Gen)
      ensures g.Valid()
    {
      Gen([], 0, map[], 0, defaultCount)
    }

    /** get_var (68-72) */
    function GetVar(): (r: (string, Gen))
      ensures r.0 == VarName(varI) && r.1 == this.(varI := varI + 1)
      ensures Valid() ==> r.1.Valid()
    {
      (VarName(varI), this.(varI := varI + 1))
    }

    /** get_vars (74-75): `n` calls of get_var, in order. */
    function GetVars(n: nat): (r: (seq<string>, Gen))
      ensures |r.0| == n
      ensures forall k :: 0 <= k < n ==> r.0[k] == VarName(varI + k)
      ensures r.1 == this.(varI := varI + n)
      ensures Valid() ==> r.1.Valid()
    {
      (seq(n, k requires 0 <= k < n => VarName(varI + k)), this.(varI := varI + n))
    }

    /** get_const (77-80) */
    function GetConst(value: Origin): (r: (string, Gen))
      ensures r.0 == VarName(varI)
      ensures r.1 == this.(consts := consts[r.0 := ObjectConst(value)], varI := varI + 1)
    {
      var name := VarName(varI);
      (name, this.(consts := consts[name := ObjectConst(value)], varI := varI + 1))
    }

    /** ensure_import (82-83): the module object, bound under its own name. */
    function EnsureImport(moduleName: string): (g: Gen)
      ensures g == this.(consts := consts[moduleName := ModuleConst(moduleName)])
      ensures Valid() && (|moduleName| < 3 || moduleName[..3] != "var") ==> g.Valid()
    {
      NotAVarName(moduleName);
      this.(consts := consts[moduleName := ModuleConst(moduleName)])
    }

    /** indent (85-86) */
    function Indent(): Gen
    {
      this.(indent := indent + 1)
    }

    /** dedent (88-90): a placeholder at the inner indent, then one level out. */
    function Dedent(): (g: Gen)
      ensures g.statements == statements + [Line(indent, LiteralStatement("..."))]
      ensures g.indent == indent - 1
    {
      var g1 := Literal(["..."]);
      g1.(indent := g1.indent - 1)
    }

    /** add_statement (92-93) */
    function AddStatement(s: Statement): Gen
    {
      this.(statements := statements + [Line(indent, s)])
    }

    /** Statements a caller emits one after the other at the current indent. */
    function AddStatements(ss: seq<Statement>): Gen
    {
      this.(statements := statements + StatementLines(indent, ss))
    }

    /** assign (95-101) */
    function Assign(left: string, right: string): (g: Gen)
      ensures |g.statements| == |statements| + 1 && g.statements[..|statements|] == statements
      ensures var s := g.statements[|statements|].statement;
              && g.statements[|statements|].indent == indent
              && s.AssignmentStatement? && s.right == right && s.left != right
              && (left != right ==> s.left == left)
              && (left == right ==> s.left == "# " + left)
    {
      assert left == right ==> |"# " + left| > |right|;
      AddStatement(Assignment(left, right))
    }

    /** assign_new (103-106) */
    function AssignNew(expr: string): (r: (string, Gen))
      ensures r.0 == VarName(varI)
      ensures r.1 == this.(statements := statements + [Line(indent, Assignment(r.0, expr))], varI := varI + 1)
    {
      var (name, g1) := GetVar();
      (name, g1.Assign(name, expr))
    }

    /** literal (108-112) */
    function Literal(ss: seq<string>): (g: Gen)
      ensures |g.statements| == |statements| + |ss| && g.statements[..|statements|] == statements
      ensures forall i :: 0 <= i < |ss| ==> g.statements[|statements| + i] == Line(indent, LiteralStatement(ss[i]))
      ensures g.indent == indent && g.consts == consts && g.varI == varI && g.defaultCount == defaultCount
      ensures |ss| == 1 ==> g == this.(statements := statements + [Line(indent, LiteralStatement(ss[0]))])
    {
      assert |ss| == 1 ==> LiteralLines(indent, ss) == [Line(indent, LiteralStatement(ss[0]))];
      this.(statements := statements + LiteralLines(indent, ss))
    }

    /** comment (114-118) */
    function Comment(ss: seq<string>): Gen
    {
      this.(statements := statements + CommentLines(indent, ss))
    }
  }

  /** The statement `assign(left, right)` stores: a self-assignment has its
      left side commented out. */
  function Assignment(left: string, right: string): Statement
  {
    AssignmentStatement(if left == right then "# " + left else left, right)
  }

  /** The statements of the lines at indent `d`, in order. */
  function AtIndent(ls: seq<Line>, d: int): seq<Statement>
  {
    if |ls| == 0 then []
    else (if ls[0].indent == d then [ls[0].statement] else []) + AtIndent(ls[1..], d)
  }

  lemma {:induction false} AtIndentConcat(a: seq<Line>, b: seq<Line>, d: int)
    ensures AtIndent(a + b, d) == AtIndent(a, d) + AtIndent(b, d)
    decreases |a|
  {
    if |a| == 0 {
      assert a + b == b;
    } else {
      var head := if a[0].indent == d then [a[0].statement] else [];
      assert (a + b)[0] == a[0];
      assert (a + b)[1..] == a[1..] + b;
      assert AtIndent(a + b, d) == head + AtIndent(a[1..] + b, d);
      AtIndentConcat(a[1..], b, d);
      assert AtIndent(a, d) == head + AtIndent(a[1..], d);
    }
  }

  lemma {:induction false} AtIndentDeeper(ls: seq<Line>, d: int)
    requires forall i :: 0 <= i < |ls| ==> ls[i].indent > d
    ensures AtIndent(ls, d) == []
    decreases |ls|
  {
    if |ls| > 0 {
      AtIndentDeeper(ls[1..], d);
    }
  }

  /** The lines a build appended after state `g`. */
  function Appended(g: Gen, h: Gen): seq<Line>
  {
    if |g.statements| <= |h.statements| then h.statements[|g.statements|..] else []
  }

  lemma AppendedSplit(a: Gen, b: Gen, c: Gen)
    requires a.statements <= b.statements <= c.statements
    ensures Appended(a, c) == Appended(a, b) + Appended(b, c)
  {
    assert c.statements[|a.statements|..] == c.statements[|a.statements|..|b.statements|] + c.statements[|b.statements|..];
  }

  /** What a step appends lies in deeper blocks than any indent below its
      start. */
  lemma AppendedDeeper(a: Gen, b: Gen, d: int)
    requires Grows(a, b) && a.indent > d
    ensures AtIndent(Appended(a, b), d) == []
  {
    AtIndentDeeper(Appended(a, b), d);
  }

  lemma AtIndentCons(l: Line, ls: seq<Line>, d: int)
    ensures AtIndent([l] + ls, d) == (if l.indent == d then [l.statement] else []) + AtIndent(ls, d)
  {
    assert ([l] + ls)[1..] == ls;
  }

  /** Two statements appended at the current indent are what the step adds
      there. */
  lemma AppendedTwo(g: Gen, g1: Gen, s1: Statement, s2: Statement)
    requires g1.statements == g.statements + [Line(g.indent, s1), Line(g.indent, s2)]
    ensures AtIndent(Appended(g, g1), g.indent) == [s1, s2]
  {
    var l1, l2 := Line(g.indent, s1), Line(g.indent, s2);
    assert Appended(g, g1) == [l1] + [l2];
    AtIndentCons(l1, [l2], g.indent);
    AtIndentCons(l2, [], g.indent);
  }

  lemma DeeperSuffix(head: seq<Line>, body: seq<Line>, d: int)
    requires forall i :: 0 <= i < |body| ==> body[i].indent > d
    ensures AtIndent(head + body, d) == AtIndent(head, d)
  {
    AtIndentDeeper(body, d);
    AtIndentConcat(head, body, d);
  }

  lemma BlockLinesAtIndent(head: seq<Line>, body: seq<Line>, close: Line, tail: seq<Line>, d: int)
    requires forall i :: 0 <= i < |body| ==> body[i].indent > d
    requires close.indent > d
    ensures AtIndent(head + body + [close] + tail, d) == AtIndent(head, d) + AtIndent(tail, d)
  {
    DeeperSuffix(head, body, d);
    DeeperSuffix(head + body, [close], d);
    AtIndentConcat(head + body + [close], tail, d);
  }

  /** A block opened at indent `d`, whose body grows from the inner indent and
      is closed by a dedent, adds at indent `d` only what its opening did, and
      then whatever follows the dedent. */
  lemma BlockAtIndent(g: Gen, start: Gen, inner: Gen, rest: Gen)
    requires g.statements <= start.statements && start.indent == g.indent + 1
    requires Grows(start, inner) && inner.indent == start.indent
    requires Grows(inner.Dedent(), rest)
    ensures AtIndent(Appended(g, rest), g.indent)
         == AtIndent(Appended(g, start), g.indent) + AtIndent(Appended(inner.Dedent(), rest), g.indent)
  {
    var closed := inner.Dedent();
    var close := Line(inner.indent, LiteralStatement("..."));
    AppendedSplit(g, start, rest);
    AppendedSplit(start, inner, rest);
    AppendedSplit(inner, closed, rest);
    assert Appended(inner, closed) == [close];
    assert Appended(g, rest) == Appended(g, start) + Appended(start, inner) + [close] + Appended(closed, rest);
    BlockLinesAtIndent(Appended(g, start), Appended(start, inner), close, Appended(closed, rest), g.indent);
  }

  /** A block as in `BlockAtIndent`, followed by one assignment at the outer
      indent: that assignment is the last statement, and the only one the
      closing adds at the outer indent. */
  lemma BlockThenAssign(g: Gen, start: Gen, inner: Gen, left: string, right: string)
    requires g.statements <= start.statements && start.indent == g.indent + 1
    requires Grows(start, inner) && inner.indent == start.indent
    requires inner.Dedent().Valid()
    ensures var rest := inner.Dedent().Assign(left, right);
            && AtIndent(Appended(g, rest), g.indent) == AtIndent(Appended(g, start), g.indent) + [Assignment(left, right)]
            && rest.statements[|rest.statements| - 1] == Line(g.indent, Assignment(left, right))
  {
    var rest := inner.Dedent().Assign(left, right);
    GrowsAssign(inner.Dedent(), left, right);
    BlockAtIndent(g, start, inner, rest);
    var last := Line(g.indent, Assignment(left, right));
    assert Appended(inner.Dedent(), rest) == [last];
    AtIndentCons(last, [], g.indent);
  }

  /** A block as in `BlockAtIndent` whose body ends with one assignment
      before the dedent: the block adds at the outer indent only what its
      opening did, and that assignment is the last line before the closing
      placeholder. */
  lemma BlockEndingWithAssign(g: Gen, start: Gen, inner: Gen, left: string, right: string)
    requires g.statements <= start.statements && start.indent == g.indent + 1
    requires Grows(start, inner) && inner.indent == start.indent
    ensures var rest := inner.Assign(left, right).Dedent();
            && AtIndent(Appended(g, rest), g.indent) == AtIndent(Appended(g, start), g.indent)
            && |rest.statements| >= 2
            && rest.statements[|rest.statements| - 2] == Line(g.indent + 1, Assignment(left, right))
  {
    var body := inner.Assign(left, right);
    GrowsAssign(inner, left, right);
    GrowsTrans(start, inner, body);
    var rest := body.Dedent();
    GrowsDedent(body);
    BlockAtIndent(g, start, body, rest);
    assert Appended(rest, rest) == [];
  }

  /** `ls` ends with `suffix`. */
  predicate EndsWith(ls: seq<Line>, suffix: seq<Line>)
  {
    |suffix| <= |ls| && ls[|ls| - |suffix|..] == suffix
  }

  /** Line `l` is an assignment at indent `d` whose right side is `right`. */
  predicate AssignsFrom(l: Line, right: string, d: int)
  {
    l.indent == d && l.statement.AssignmentStatement? && l.statement.right == right
  }

  /** `ls` holds, in this order (not necessarily adjacent), an assignment at
      indent `d` from each of `rights`. */
  predicate AssignsInOrder(ls: seq<Line>, rights: seq<string>, d: int)
    decreases |ls|
  {
    |rights| == 0 ||
    (|ls| > 0 &&
     ((AssignsFrom(ls[0], rights[0], d) && AssignsInOrder(ls[1..], rights[1..], d)) || AssignsInOrder(ls[1..], rights, d)))
  }

  lemma AssignsInOrderCons(l: Line, rest: seq<Line>, right: string, rights: seq<string>, d: int)
    requires AssignsFrom(l, right, d) && AssignsInOrder(rest, rights, d)
    ensures AssignsInOrder([l] + rest, [right] + rights, d)
  {
    assert ([l] + rest)[0] == l && ([l] + rest)[1..] == rest;
    assert ([right] + rights)[1..] == rights;
  }

  lemma {:induction false} AssignsInOrderAfter(a: seq<Line>, b: seq<Line>, rights: seq<string>, d: int)
    requires AssignsInOrder(b, rights, d)
    ensures AssignsInOrder(a + b, rights, d)
    decreases |a|
  {
    if |a| > 0 && |rights| > 0 {
      AssignsInOrderAfter(a[1..], b, rights, d);
      assert (a + b)[1..] == a[1..] + b;
    } else if |a| == 0 {
      assert a + b == b;
    }
  }

  lemma {:induction false} AssignsInOrderBefore(a: seq<Line>, b: seq<Line>, rights: seq<string>, d: int)
    requires AssignsInOrder(a, rights, d)
    ensures AssignsInOrder(a + b, rights, d)
    decreases |a|
  {
    if |rights| > 0 {
      assert (a + b)[0] == a[0];
      assert (a + b)[1..] == a[1..] + b;
      if AssignsFrom(a[0], rights[0], d) && AssignsInOrder(a[1..], rights[1..], d) {
        AssignsInOrderBefore(a[1..], b, rights[1..], d);
      } else {
        AssignsInOrderBefore(a[1..], b, rights, d);
      }
    }
  }

  lemma FreshNames(i: nat)
    ensures forall j: nat {:trigger VarName(j)} :: j != i ==> VarName(j) != VarName(i)
  {
    forall j: nat | VarName(j) == VarName(i) ensures j == i {
      VarNameInjective(j, i);
    }
  }

  /** get_vars (74-75): the `n` names are pairwise distinct, and none of
      them is a name the counter had already handed out. */
  lemma GetVarsDistinct(g: Gen, n: nat)
    ensures forall i, j :: 0 <= i < j < n ==> g.GetVars(n).0[i] != g.GetVars(n).0[j]
    ensures forall i, m: nat :: 0 <= i < n && m < g.varI ==> g.GetVars(n).0[i] != VarName(m)
  {
    var names := g.GetVars(n).0;
    forall i, j | 0 <= i < j < n ensures names[i] != names[j] {
      if names[i] == names[j] {
        VarNameInjective(g.varI + i, g.varI + j);
      }
    }
    forall i, m: nat | 0 <= i < n && m < g.varI ensures names[i] != VarName(m) {
      if names[i] == VarName(m) {
        VarNameInjective(g.varI + i, m);
      }
    }
  }

  lemma NotAVarName(moduleName: string)
    ensures |moduleName| < 3 || moduleName[..3] != "var" ==>
              forall j: nat {:trigger VarName(j)} :: VarName(j) != moduleName
  {
    forall j: nat ensures VarName(j)[..3] == "var" {
      VarNamePrefix(j);
    }
  }

  // ---------------------------------------------------------------------
  // How a build step relates the state before to the state after.

  /** `h` is a later state of the same build as `g`: statements were only
      appended, none of them outside `g`'s block, the counter did not go
      back, and no constant binding was lost or changed. */
  ghost predicate Grows(g: Gen, h: Gen)
  {
    && g.statements <= h.statements
    && (forall i :: |g.statements| <= i < |h.statements| ==> h.statements[i].indent >= g.indent)
    && g.varI <= h.varI
    && (forall k :: k in g.consts ==> k in h.consts && h.consts[k] == g.consts[k])
    && h.defaultCount == g.defaultCount
    && h.Valid()
  }

  lemma GrowsTrans(a: Gen, b: Gen, c: Gen)
    requires Grows(a, b) && Grows(b, c) && a.indent <= b.indent
    ensures Grows(a, c)
  {
  }

  // Each builder operation on a valid state is a build step.

  lemma GrowsGetVar(g: Gen)
    requires g.Valid()
    ensures Grows(g, g.GetVar().1)
  {
  }

  lemma GrowsGetVars(g: Gen, n: nat)
    requires g.Valid()
    ensures Grows(g, g.GetVars(n).1)
  {
  }

  lemma GrowsGetConst(g: Gen, value: Origin)
    requires g.Valid()
    ensures Grows(g, g.GetConst(value).1)
    ensures g.GetConst(value).0 !in g.consts
  {
    FreshNames(g.varI);
    VarNamePrefix(g.varI);
  }

  lemma GrowsEnsureImport(g: Gen, moduleName: string)
    requires g.Valid() && (|moduleName| < 3 || moduleName[..3] != "var")
    ensures Grows(g, g.EnsureImport(moduleName))
  {
  }

  lemma GrowsIndent(g: Gen)
    requires g.Valid()
    ensures Grows(g, g.Indent())
  {
  }

  lemma GrowsDedent(g: Gen)
    requires g.Valid()
    ensures Grows(g, g.Dedent())
  {
  }

  lemma GrowsAddStatements(g: Gen, ss: seq<Statement>)
    requires g.Valid()
    ensures Grows(g, g.AddStatements(ss))
  {
  }

  lemma GrowsAssign(g: Gen, left: string, right: string)
    requires g.Valid()
    ensures Grows(g, g.Assign(left, right))
  {
  }

  lemma GrowsAssignNew(g: Gen, expr: string)
    requires g.Valid()
    ensures Grows(g, g.AssignNew(expr).1)
  {
  }

  lemma GrowsLiteral(g: Gen, ss: seq<string>)
    requires g.Valid()
    ensures Grows(g, g.Literal(ss))
  {
  }

  /** A build step's result: the state reached, and the exception it raised
      if it did not complete. */
  datatype Outcome = Done(g: Gen) | Raised(error: Error, g: Gen)
  {
    predicate IsFailure() { Raised? }

    function PropagateFailure(): Outcome
      requires Raised?
    {
      this
    }

    function Extract(): Gen
      requires Done?
    {
      g
    }
  }

  /** What a method that returns `err` and leaves the builder in state `g`
      has done, as an `Outcome`. */
  function OutcomeOf(g: Gen, err: Option<Error>): Outcome
  {
    if err.Some? then Raised(err.value, g) else Done(g)
  }

  /** A completed step also closes every block it opened. */
  ghost predicate Step(g: Gen, o: Outcome)
  {
    Grows(g, o.g) && (o.Done? ==> o.g.indent == g.indent)
  }

  // ---------------------------------------------------------------------
  // Rendering (to_str, 133-139) and blocks (120-131).

  /** `"    " * n` (empty for n <= 0, as in Python). */
  function Spaces(n: int): (s: string)
    ensures n <= 0 ==> s == ""
    ensures n > 0 ==> |s| == 4 * n && forall i :: 0 <= i < |s| ==> s[i] == ' '
    decreases n
  {
    if n <= 0 then "" else "    " + Spaces(n - 1)
  }

  function RenderLine(l: Line): string
  {
    Spaces(l.indent) + l.statement.ToStr()
  }

  function RenderedLines(ls: seq<Line>): (rs: seq<string>)
    ensures |rs| == |ls|
  {
    seq(|ls|, i requires 0 <= i < |ls| => RenderLine(ls[i]))
  }

  /** The program text: one line per statement, in order, joined by
      newlines. */
  function Render(ls: seq<Line>): string
  {
    Join(RenderedLines(ls), "\n")
  }

  /** A self-assignment is never rendered as `x = x`: `assign(x, x)` stores
      the line `# x = x`, a comment, indented like the other statements of
      its block. */
  lemma {:induction false} SelfAssignRendersAsComment(g: Gen, x: string)
    ensures var h := g.Assign(x, x);
            var line := RenderLine(h.statements[|g.statements|]);
            && line == Spaces(g.indent) + "# " + x + " = " + x
            && line[|Spaces(g.indent)|..][..2] == "# "
  {
    var h := g.Assign(x, x);
    assert h.statements[|g.statements|] == Line(g.indent, AssignmentStatement("# " + x, x));
    var line := RenderLine(h.statements[|g.statements|]);
    assert line == Spaces(g.indent) + ("# " + x + " = " + x);
    assert line[|Spaces(g.indent)|..] == "# " + x + " = " + x;
  }

  /** A run of statements at one indent. */
  datatype Block = Block(indent: int, statements: seq<Statement>)

  function BlockLines(b: Block): seq<Line>
  {
    StatementLines(b.indent, b.statements)
  }

  /** The statement log the blocks stand for, block after block. */
  function Flatten(bs: seq<Block>): seq<Line>
  {
    if |bs| == 0 then [] else Flatten(bs[..|bs| - 1]) + BlockLines(bs[|bs| - 1])
  }

  /** The blocks partition `ls` into maximal runs of equal indent. */
  ghost predicate IsBlocking(bs: seq<Block>, ls: seq<Line>)
  {
    && Flatten(bs) == ls
    && (forall k :: 0 <= k < |bs| ==> |bs[k].statements| > 0)
    && (forall k :: 0 < k < |bs| ==> bs[k - 1].indent != bs[k].indent)
  }

  /** Opening an empty block adds no line. */
  lemma OpenBlock(bs: seq<Block>, indent: int)
    ensures Flatten(bs + [Block(indent, [])]) == Flatten(bs)
  {
    assert (bs + [Block(indent, [])])[..|bs|] == bs;
  }

  /** Adding a statement to the last block adds its line at the end. */
  lemma GrowLastBlock(bs: seq<Block>, s: Statement)
    requires |bs| > 0
    ensures var last := bs[|bs| - 1];
            Flatten(bs[..|bs| - 1] + [Block(last.indent, last.statements + [s])])
              == Flatten(bs) + [Line(last.indent, s)]
  {
    var last := bs[|bs| - 1];
    var bs' := bs[..|bs| - 1] + [Block(last.indent, last.statements + [s])];
    assert bs'[..|bs'| - 1] == bs[..|bs| - 1];
    assert BlockLines(Block(last.indent, last.statements + [s])) == BlockLines(last) + [Line(last.indent, s)];
  }

  /** One step of `blocks`: the next statement opens a new block exactly
      when its indent differs from the last block's, and is then added to the
      last block. */
  lemma BlocksStep(bs: seq<Block>, ls: seq<Line>, l: Line, open: bool)
    requires IsBlocking(bs, ls)
    requires open <==> (|bs| == 0 || bs[|bs| - 1].indent != l.indent)
    ensures var bs1 := if open then bs + [Block(l.indent, [])] else bs;
            var last := bs1[|bs1| - 1];
            IsBlocking(bs1[..|bs1| - 1] + [Block(last.indent, last.statements + [l.statement])], ls + [l])
  {
    var bs1 := if open then bs + [Block(l.indent, [])] else bs;
    if open {
      OpenBlock(bs, l.indent);
    }
    GrowLastBlock(bs1, l.statement);
    var last := bs1[|bs1| - 1];
    var bs2 := bs1[..|bs1| - 1] + [Block(last.indent, last.statements + [l.statement])];
    assert |bs2| == |bs1|;
    forall k | 0 < k < |bs2| ensures bs2[k - 1].indent != bs2[k].indent {
      assert bs2[k - 1].indent == bs1[k - 1].indent && bs2[k].indent == bs1[k].indent;
    }
  }

  /** One more name from `get_vars` is the next `get_var`. */
  lemma GetVarsNext(g: Gen, k: nat)
    ensures g.GetVars(k + 1).0 == g.GetVars(k).0 + [VarName(g.varI + k)]
    ensures g.GetVars(k + 1).1 == g.GetVars(k).1.GetVar().1
  {
  }

  /** The builder itself (code_generator.py:61-139). */
  class CodeGenerator {
    var statements: seq<Line>
    var currentIndent: int
    var consts: map<string, Const>
    var varI: nat
    const defaultCount: nat

    function State(): Gen
      reads this
    {
      Gen(statements, currentIndent, consts, varI, defaultCount)
    }

    ghost predicate Valid()
      reads this
    {
      State().Valid()
    }

    constructor (defaultCount: nat)
      ensures Valid() && State() == Gen.Empty(defaultCount)
    {
      statements := [];
      currentIndent := 0;
      consts := map[];
      varI := 0;
      this.defaultCount := defaultCount;
    }

    method GetVar() returns (name: string)
      requires Valid()
      modifies this
      ensures Valid() && (name, State()) == old(State()).GetVar()
    {
      name := VarName(varI);
      varI := varI + 1;
    }

    method GetVars(n: nat) returns (names: seq<string>)
      requires Valid()
      modifies this
      ensures Valid() && (names, State()) == old(State()).GetVars(n)
    {
      names := [];
      var k := 0;
      while k < n
        invariant 0 <= k <= n
        invariant names == old(State()).GetVars(k).0
        invariant State() == old(State()).GetVars(k).1
      {
        GetVarsNext(old(State()), k);
        var v := GetVar();
        names := names + [v];
        k := k + 1;
      }
    }

    method GetConst(value: Origin) returns (name: string)
      requires Valid()
      modifies this
      ensures Valid() && (name, State()) == old(State()).GetConst(value)
    {
      name := GetVar();
      FreshNames(old(varI));
      VarNamePrefix(old(varI));
      consts := consts[name := ObjectConst(value)];
      assert State() == old(State()).GetConst(value).1;
    }

    method EnsureImport(moduleName: string)
      requires Valid() && (|moduleName| < 3 || moduleName[..3] != "var")
      modifies this
      ensures Valid() && State() == old(State()).EnsureImport(moduleName)
    {
      consts := consts[moduleName := ModuleConst(moduleName)];
    }

    method Indent()
      requires Valid()
      modifies this
      ensures Valid() && State() == old(State()).Indent()
    {
      currentIndent := currentIndent + 1;
    }

    method Dedent()
      requires Valid()
      modifies this
      ensures Valid() && State() == old(State()).Dedent()
    {
      Literal(["..."]);
      currentIndent := currentIndent - 1;
    }

    method AddStatement(s: Statement)
      requires Valid()
      modifies this
      ensures Valid() && State() == old(State()).AddStatement(s)
    {
      statements := statements + [Line(currentIndent, s)];
    }

    /** The statements a backend hands back, added one by one. */
    method AddStatements(ss: seq<Statement>)
      requires Valid()
      modifies this
      ensures Valid() && State() == old(State()).AddStatements(ss)
    {
      for i := 0 to |ss|
        invariant Valid()
        invariant State() == old(State()).AddStatements(ss[..i])
      {
        assert StatementLines(currentIndent, ss[..i + 1])
            == StatementLines(currentIndent, ss[..i]) + [Line(currentIndent, ss[i])];
        AddStatement(ss[i]);
      }
      assert ss[..|ss|] == ss;
    }

    method Assign(left: string, right: string)
      requires Valid()
      modifies this
      ensures Valid() && State() == old(State()).Assign(left, right)
    {
      var left' := left;
      if left == right {
        left' := "# " + left;
      }
      AddStatement(AssignmentStatement(left', right));
    }

    method AssignNew(expr: string) returns (name: string)
      requires Valid()
      modifies this
      ensures Valid() && (name, State()) == old(State()).AssignNew(expr)
    {
      name := GetVar();
      Assign(name, expr);
    }

    method Literal(ss: seq<string>)
      requires Valid()
      modifies this
      ensures Valid() && State() == old(State()).Literal(ss)
    {
      for i := 0 to |ss|
        invariant Valid()
        invariant State() == old(State()).(statements := old(statements) + LiteralLines(currentIndent, ss[..i]))
      {
        assert LiteralLines(currentIndent, ss[..i + 1])
            == LiteralLines(currentIndent, ss[..i]) + [Line(currentIndent, LiteralStatement(ss[i]))];
        AddStatement(LiteralStatement(ss[i]));
      }
      assert ss[..|ss|] == ss;
    }

    method Comment(ss: seq<string>)
      requires Valid()
      modifies this
      ensures Valid() && State() == old(State()).Comment(ss)
    {
      for i := 0 to |ss|
        invariant Valid()
        invariant State() == old(State()).Comment(ss[..i])
      {
        assert CommentLines(currentIndent, ss[..i + 1])
            == CommentLines(currentIndent, ss[..i]) + [Line(currentIndent, LiteralStatement("# " + ss[i]))];
        AddStatement(LiteralStatement("# " + ss[i]));
      }
      assert ss[..|ss|] == ss;
    }

    /** blocks (120-131): the statement log cut into maximal runs of equal
        indent. */
    method Blocks() returns (bs: seq<Block>)
      ensures IsBlocking(bs, statements)
    {
      bs := [];
      var current: Option<int> := None;
      for i := 0 to |statements|
        invariant IsBlocking(bs, statements[..i])
        invariant i == 0 ==> bs == [] && current == None
        invariant i > 0 ==> |bs| > 0 && current == Some(bs[|bs| - 1].indent)
      {
        var Line(indent, statement) := statements[i];
        BlocksStep(bs, statements[..i], statements[i], current != Some(indent));
        if current != Some(indent) {
          bs := bs + [Block(indent, [])];
        }
        var last := bs[|bs| - 1];
        bs := bs[..|bs| - 1] + [Block(last.indent, last.statements + [statement])];
        assert statements[..i + 1] == statements[..i] + [statements[i]];
        current := Some(indent);
      }
      assert statements[..|statements|] == statements;
    }

    /** to_str (133-139) */
    method ToStr() returns (src: string)
      ensures src == Render(statements)
    {
      var lines: seq<string> := [];
      for i := 0 to |statements|
        invariant lines == RenderedLines(statements[..i])
      {
        var Line(indent, statement) := statements[i];
        lines := lines + [Spaces(indent) + statement.ToStr()];
      }
      assert statements[..|statements|] == statements;
      src := Join(lines, "\n");
    }
  }
}
