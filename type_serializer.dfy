/** The generic code generators of type_serializer.py: `SerializerCodegen`
    and `DeserializerCodegen` dispatch on a type hint (`any`, `type_`) and
    emit unions, mappings, collections and fixed tuples into a builder; a
    concrete generator supplies `is_scalar`, `scalar` and `tuple_`.

    Each generator is specified by functions from the builder state before to
    the `Outcome` after; the classes at the end run the same steps on a
    `CodeGenerator` object and are proved to reach that outcome. */
module TypeSerializer {
  import opened Errors
  import opened Text
  import opened TypeHints
  import opened CodeGen

  /** The abstract members of `SerializerCodegen` (34-44): each emitting hook
      is given as the statements it adds at the current indent. */
  datatype SerializerHooks = SerializerHooks(
    isScalar: TypeHint -> bool,
    scalar: (TypeHint, string, string) -> seq<Statement>,
    tuple: (seq<string>, string) -> seq<Statement>)

  /** The abstract members of `DeserializerCodegen` (140-150); `tuple_` is
      also told the tuple class. */
  datatype DeserializerHooks = DeserializerHooks(
    isScalar: TypeHint -> bool,
    scalar: (TypeHint, string, string) -> seq<Statement>,
    tuple: (Class, seq<string>, string) -> seq<Statement>)

  /** `f"{v}[{index}]"` */
  function Subscript(v: string, index: string): string
  {
    v + "[" + index + "]"
  }

  /** `'el' if i != 0 else ''` */
  function ElsePrefix(k: nat): string
  {
    if k != 0 then "el" else ""
  }

  /** `base_type in (typing.Union, types.UnionType)` */
  predicate IsUnionBase(base: Origin)
  {
    base == OTypingUnion || base == OClass(UnionTypeClass)
  }

  /** `[origin if (origin := typing.get_origin(arg)) is not None else arg
      for arg in args]` */
  function Origins(args: seq<TypeHint>): (os: seq<Origin>)
    ensures |os| == |args|
  {
    seq(|args|, i requires 0 <= i < |args| => Base(args[i]))
  }

  /** Two different members share an origin. */
  predicate HasDuplicate(os: seq<Origin>)
  {
    exists i, j | 0 <= i < |os| && 0 <= j < |os| :: i != j && os[i] == os[j]
  }

  /** The header of serializer union branch `k`. */
  function IsInstanceTest(k: nat, inVar: string, typeVar: string): string
  {
    ElsePrefix(k) + "if isinstance(" + inVar + ", " + typeVar + "):"
  }

  /** `(k, in)`, the tagged value a serializer union branch builds. */
  function TagPair(k: nat, inVar: string): string
  {
    "(" + NatToString(k) + ", " + inVar + ")"
  }

  /** The header of deserializer union branch `k`. */
  function TagTest(k: nat, inVar: string): string
  {
    ElsePrefix(k) + "if " + Subscript(inVar, "0") + " == " + NatToString(k) + ":"
  }

  /** `tuple[int, member]`, the type a serialized union member has. */
  function Tagged(member: TypeHint): (t: TypeHint)
    ensures Size(t) == Size(member) + 2
  {
    SumSizesPair(Plain(IntClass), member);
    TupleOf([Plain(IntClass), member])
  }

  /** The element types of a collection hint once a trailing `...` is
      dropped (`args[:-1]` when `args[-1] is Ellipsis`). */
  function DropEllipsis(args: seq<TypeHint>): seq<TypeHint>
    requires |args| > 0
  {
    if args[|args| - 1] == Ellipsis then args[..|args| - 1] else args
  }

  /** `base_type is tuple and not (len(args) == 2 and args[1] is Ellipsis)` */
  predicate IsFixedTuple(c: Class, args: seq<TypeHint>)
  {
    c == TupleClass && !(|args| == 2 && args[1] == Ellipsis)
  }

  // ---------------------------------------------------------------------
  // SerializerCodegen (30-133)

  /** any (81-97) */
  function SerAny(h: SerializerHooks, t: TypeHint, inVar: string, outVar: string, g: Gen): Outcome
    decreases Size(t), 4, 0
  {
    if h.isScalar(t) then Done(g.AddStatements(h.scalar(t, inVar, outVar)))
    else
      var (base, args) := ReadTypeHint(t);
      if IsUnionBase(base) then SerUnion(h, t, args, inVar, outVar, g)
      else if !base.OClass? then Raised(TypeHintError, g)
      else SerType(h, t, base.c, args, inVar, outVar, g)
  }

  /** union (59-79): the duplicate-origin check emits nothing. */
  function SerUnion(h: SerializerHooks, t: TypeHint, args: seq<TypeHint>, inVar: string, outVar: string, g: Gen): Outcome
    requires args == ReadTypeHint(t).1 && IsUnionBase(ReadTypeHint(t).0)
    decreases Size(t), 3, 0
  {
    if HasDuplicate(Origins(args)) then Raised(SerializationError, g)
    else
      UnionMembersSmaller(t);
      SerUnionBranches(h, Size(t), args, inVar, outVar, 0, g)
  }

  /** The loop of union (72-79) from member `k` on. */
  function SerUnionBranches(h: SerializerHooks, bound: nat, args: seq<TypeHint>, inVar: string, outVar: string, k: nat, g: Gen): Outcome
    requires k <= |args|
    requires forall i :: 0 <= i < |args| ==> Size(args[i]) + 2 < bound
    decreases bound, 2, |args| - k
  {
    if k == |args| then Done(g)
    else
      var (tmp, g1) := SerBranchOpen(k, args[k], inVar, g);
      var g2 :- SerAny(h, Tagged(args[k]), tmp, outVar, g1);
      SerUnionBranches(h, bound, args, inVar, outVar, k + 1, g2.Dedent())
  }

  /** One turn of the union loop: branch `k` either raises, which ends the
      loop, or is closed by a dedent before branch `k + 1`. */
  lemma SerUnionBranchesUnfold(h: SerializerHooks, bound: nat, args: seq<TypeHint>, inVar: string, outVar: string, k: nat, g: Gen)
    requires k < |args|
    requires forall i :: 0 <= i < |args| ==> Size(args[i]) + 2 < bound
    ensures var (tmp, g1) := SerBranchOpen(k, args[k], inVar, g);
            var o := SerAny(h, Tagged(args[k]), tmp, outVar, g1);
            SerUnionBranches(h, bound, args, inVar, outVar, k, g)
            == if o.Raised? then o else SerUnionBranches(h, bound, args, inVar, outVar, k + 1, o.g.Dedent())
  {
  }

  /** Past the last member the union loop leaves the builder as it is. */
  lemma SerUnionBranchesEnd(h: SerializerHooks, bound: nat, args: seq<TypeHint>, inVar: string, outVar: string, g: Gen)
    requires forall i :: 0 <= i < |args| ==> Size(args[i]) + 2 < bound
    ensures SerUnionBranches(h, bound, args, inVar, outVar, |args|, g) == Done(g)
  {
  }

  /** The start of serializer union branch `k` (73-77): the member's origin
      is registered as a constant, the `if`/`elif` header tests the input
      against it, and a fresh variable is bound to the pair `(k, in)`. */
  function SerBranchOpen(k: nat, member: TypeHint, inVar: string, g: Gen): (r: (string, Gen))
    ensures r.0 == VarName(g.varI + 1)
    ensures r.1.statements == g.statements
              + [Line(g.indent, LiteralStatement(IsInstanceTest(k, inVar, VarName(g.varI)))),
                 Line(g.indent + 1, Assignment(r.0, TagPair(k, inVar)))]
    ensures r.1.indent == g.indent + 1 && r.1.varI == g.varI + 2 && r.1.defaultCount == g.defaultCount
  {
    var (typeVar, g1) := g.GetConst(Base(member));
    var g2 := g1.Literal([IsInstanceTest(k, inVar, typeVar)]).Indent();
    assert g2 == g1.(statements := g.statements + [Line(g.indent, LiteralStatement(IsInstanceTest(k, inVar, typeVar)))], indent := g.indent + 1);
    g2.AssignNew(TagPair(k, inVar))
  }

  /** type_ (99-133) */
  function SerType(h: SerializerHooks, t: TypeHint, c: Class, args: seq<TypeHint>, inVar: string, outVar: string, g: Gen): Outcome
    requires ReadTypeHint(t) == (OClass(c), args)
    decreases Size(t), 3, 0
  {
    ReadTypeHintSmaller(t);
    if c.isMapping then
      if |args| != 2 then Raised(SerializationError, g)
      else
        MappingArgsSmaller(t, c);
        SerMapping(h, args[0], args[1], inVar, outVar, g)
    else if c.isCollection && !c.isStr && !c.isBytes then
      if IsFixedTuple(c, args) then SerFixedTuple(h, Size(t), args, inVar, outVar, g)
      else if |args| == 0 then Raised(IndexError, g)
      else if |DropEllipsis(args)| != 1 then Raised(SerializationError, g)
      else SerCollection(h, args[0], inVar, outVar, g)
    else Raised(SerializationError, g)
  }

  /** mapping (46-48) */
  function SerMapping(h: SerializerHooks, keyType: TypeHint, valueType: TypeHint, inVar: string, outVar: string, g: Gen): Outcome
    decreases Size(keyType) + Size(valueType) + 3, 1, 0
  {
    SumSizesPair(keyType, valueType);
    SumSizesSingle(TupleOf([keyType, valueType]));
    SerAny(h, ListOf(TupleOf([keyType, valueType])), inVar, outVar, g.Assign(inVar, "list(" + inVar + ".items())"))
  }

  /** The fixed-tuple case of type_ (110-120). */
  function SerFixedTuple(h: SerializerHooks, bound: nat, args: seq<TypeHint>, inVar: string, outVar: string, g: Gen): Outcome
    requires forall i :: 0 <= i < |args| ==> Size(args[i]) < bound
    decreases bound, 2, 0
  {
    var (vars, g1) := g.GetVars(|args|);
    var g2 :- SerTupleElems(h, bound, args, vars, inVar, 0, g1);
    Done(g2.AddStatements(h.tuple(vars, outVar)))
  }

  /** The loop of the fixed-tuple case (113-115) from element `k` on. */
  function SerTupleElems(h: SerializerHooks, bound: nat, args: seq<TypeHint>, vars: seq<string>, inVar: string, k: nat, g: Gen): Outcome
    requires |vars| == |args| && k <= |args|
    requires forall i :: 0 <= i < |args| ==> Size(args[i]) < bound
    decreases bound, 1, |args| - k
  {
    if k == |args| then Done(g)
    else
      var (tmp, g1) := g.AssignNew(Subscript(inVar, NatToString(k)));
      var g2 :- SerAny(h, args[k], tmp, vars[k], g1);
      SerTupleElems(h, bound, args, vars, inVar, k + 1, g2)
  }

  /** collection (50-57) */
  function SerCollection(h: SerializerHooks, elemType: TypeHint, inVar: string, outVar: string, g: Gen): Outcome
    decreases Size(elemType) + 1, 1, 0
  {
    var (names, g1) := SerCollectionOpen(inVar, outVar, g);
    var g2 :- SerAny(h, elemType, names[1], names[1], g1);
    Done(g2.Assign(Subscript(outVar, names[0]), names[1]).Dedent())
  }

  /** The start of the serializer's collection case (51-54): two fresh
      names, `out` bound to a list copy of the input, and the header of an
      `enumerate` loop over it. */
  function SerCollectionOpen(inVar: string, outVar: string, g: Gen): (r: (seq<string>, Gen))
    ensures r.0 == [VarName(g.varI), VarName(g.varI + 1)]
    ensures r.1.statements == g.statements
              + [Line(g.indent, Assignment(outVar, "list(" + inVar + ")")),
                 Line(g.indent, LiteralStatement("for " + r.0[0] + ", " + r.0[1] + " in enumerate(" + outVar + "):"))]
    ensures r.1.indent == g.indent + 1 && r.1.varI == g.varI + 2 && r.1.defaultCount == g.defaultCount
    ensures r.1.consts == g.consts
  {
    var (names, g1) := g.GetVars(2);
    (names, g1.Assign(outVar, "list(" + inVar + ")")
              .Literal(["for " + names[0] + ", " + names[1] + " in enumerate(" + outVar + "):"])
              .Indent())
  }

  // ---------------------------------------------------------------------
  // DeserializerCodegen (136-238)

  /** any (186-202) */
  function DeserAny(h: DeserializerHooks, t: TypeHint, inVar: string, outVar: string, g: Gen): Outcome
    decreases Size(t), 4, 0
  {
    if h.isScalar(t) then Done(g.AddStatements(h.scalar(t, inVar, outVar)))
    else
      var (base, args) := ReadTypeHint(t);
      if IsUnionBase(base) then
        ReadTypeHintSmaller(t);
        DeserUnionBranches(h, Size(t), args, inVar, outVar, 0, g)
      else if !base.OClass? then Raised(TypeHintError, g)
      else DeserType(h, t, base.c, args, inVar, outVar, g)
  }

  /** union (176-184) from member `k` on: no duplicate check. */
  function DeserUnionBranches(h: DeserializerHooks, bound: nat, args: seq<TypeHint>, inVar: string, outVar: string, k: nat, g: Gen): Outcome
    requires k <= |args|
    requires forall i :: 0 <= i < |args| ==> Size(args[i]) < bound
    decreases bound, 2, |args| - k
  {
    if k == |args| then Done(g)
    else
      var (tmp, g1) := DeserBranchOpen(k, inVar, g);
      var g2 :- DeserAny(h, args[k], tmp, outVar, g1);
      DeserUnionBranches(h, bound, args, inVar, outVar, k + 1, g2.Dedent())
  }

  /** One turn of the union loop, as for the serializer. */
  lemma DeserUnionBranchesUnfold(h: DeserializerHooks, bound: nat, args: seq<TypeHint>, inVar: string, outVar: string, k: nat, g: Gen)
    requires k < |args|
    requires forall i :: 0 <= i < |args| ==> Size(args[i]) < bound
    ensures var (tmp, g1) := DeserBranchOpen(k, inVar, g);
            var o := DeserAny(h, args[k], tmp, outVar, g1);
            DeserUnionBranches(h, bound, args, inVar, outVar, k, g)
            == if o.Raised? then o else DeserUnionBranches(h, bound, args, inVar, outVar, k + 1, o.g.Dedent())
  {
  }

  /** The start of deserializer union branch `k` (180-182): the header
      tests the tag `in[0]`, and a fresh variable is bound to the payload
      `in[1]`. */
  function DeserBranchOpen(k: nat, inVar: string, g: Gen): (r: (string, Gen))
    ensures r.0 == VarName(g.varI)
    ensures r.1.statements == g.statements
              + [Line(g.indent, LiteralStatement(TagTest(k, inVar))),
                 Line(g.indent + 1, Assignment(r.0, Subscript(inVar, "1")))]
    ensures r.1.indent == g.indent + 1 && r.1.varI == g.varI + 1
    ensures r.1.consts == g.consts && r.1.defaultCount == g.defaultCount
  {
    var g1 := g.Literal([TagTest(k, inVar)]).Indent();
    assert g1 == g.(statements := g.statements + [Line(g.indent, LiteralStatement(TagTest(k, inVar)))], indent := g.indent + 1);
    g1.AssignNew(Subscript(inVar, "1"))
  }

  /** type_ (204-238) */
  function DeserType(h: DeserializerHooks, t: TypeHint, c: Class, args: seq<TypeHint>, inVar: string, outVar: string, g: Gen): Outcome
    requires ReadTypeHint(t) == (OClass(c), args)
    decreases Size(t), 3, 0
  {
    ReadTypeHintSmaller(t);
    if c.isMapping then
      if |args| != 2 then Raised(SerializationError, g)
      else
        MappingArgsSmaller(t, c);
        DeserMapping(h, c, args[0], args[1], inVar, outVar, g)
    else if c.isCollection && !c.isStr && !c.isBytes then
      if IsFixedTuple(c, args) then DeserFixedTuple(h, Size(t), c, args, inVar, outVar, g)
      else if |args| == 0 then Raised(IndexError, g)
      else if |DropEllipsis(args)| != 1 then Raised(SerializationError, g)
      else DeserCollection(h, c, args[0], inVar, outVar, g)
    else Raised(SerializationError, g)
  }

  /** mapping (152-163) */
  function DeserMapping(h: DeserializerHooks, c: Class, keyType: TypeHint, valueType: TypeHint, inVar: string, outVar: string, g: Gen): Outcome
    decreases Size(keyType) + Size(valueType) + 1, 1, 0
  {
    var (names, g1) := DeserMappingOpen(c, inVar, g);
    var g2 :- DeserAny(h, keyType, names[1], names[1], g1);
    var g3 :- DeserAny(h, valueType, names[2], names[2], g2);
    Done(g3.Assign(Subscript(names[0], names[1]), names[2]).Dedent().Assign(outVar, names[0]))
  }

  /** The deserializer's mapping case, one compile at a time: the key
      raises, or the value raises, or the loop is closed and `out` bound. */
  lemma DeserMappingUnfold(h: DeserializerHooks, c: Class, keyType: TypeHint, valueType: TypeHint, inVar: string, outVar: string, g: Gen)
    ensures var (names, g1) := DeserMappingOpen(c, inVar, g);
            var o1 := DeserAny(h, keyType, names[1], names[1], g1);
            var o2 := DeserAny(h, valueType, names[2], names[2], o1.g);
            DeserMapping(h, c, keyType, valueType, inVar, outVar, g)
            == if o1.Raised? then o1
               else if o2.Raised? then o2
               else Done(o2.g.Assign(Subscript(names[0], names[1]), names[2]).Dedent().Assign(outVar, names[0]))
  {
  }

  /** The start of the deserializer's mapping case (153-158): the class is
      registered as a constant, three fresh names `tmp, key, value` are
      taken, `tmp` is bound to an empty instance, and the loop header walks
      the input's pairs. */
  function DeserMappingOpen(c: Class, inVar: string, g: Gen): (r: (seq<string>, Gen))
    ensures r.0 == [VarName(g.varI + 1), VarName(g.varI + 2), VarName(g.varI + 3)]
    ensures r.1.statements == g.statements
              + [Line(g.indent, Assignment(r.0[0], VarName(g.varI) + "()")),
                 Line(g.indent, LiteralStatement("for " + r.0[1] + ", " + r.0[2] + " in " + inVar + ":"))]
    ensures r.1.indent == g.indent + 1 && r.1.varI == g.varI + 4 && r.1.defaultCount == g.defaultCount
    ensures r.1.consts == g.consts[VarName(g.varI) := ObjectConst(OClass(c))]
  {
    var (classVar, g1) := g.GetConst(OClass(c));
    var (names, g2) := g1.GetVars(3);
    (names, g2.Assign(names[0], classVar + "()")
              .Literal(["for " + names[1] + ", " + names[2] + " in " + inVar + ":"])
              .Indent())
  }

  /** The fixed-tuple case of type_ (215-225). */
  function DeserFixedTuple(h: DeserializerHooks, bound: nat, c: Class, args: seq<TypeHint>, inVar: string, outVar: string, g: Gen): Outcome
    requires forall i :: 0 <= i < |args| ==> Size(args[i]) < bound
    decreases bound, 2, 0
  {
    var (vars, g1) := g.GetVars(|args|);
    var g2 :- DeserTupleElems(h, bound, args, vars, inVar, 0, g1);
    Done(g2.AddStatements(h.tuple(c, vars, outVar)))
  }

  /** The loop of the fixed-tuple case (218-220) from element `k` on. */
  function DeserTupleElems(h: DeserializerHooks, bound: nat, args: seq<TypeHint>, vars: seq<string>, inVar: string, k: nat, g: Gen): Outcome
    requires |vars| == |args| && k <= |args|
    requires forall i :: 0 <= i < |args| ==> Size(args[i]) < bound
    decreases bound, 1, |args| - k
  {
    if k == |args| then Done(g)
    else
      var (tmp, g1) := g.AssignNew(Subscript(inVar, NatToString(k)));
      var g2 :- DeserAny(h, args[k], tmp, vars[k], g1);
      DeserTupleElems(h, bound, args, vars, inVar, k + 1, g2)
  }

  /** collection (165-174) */
  function DeserCollection(h: DeserializerHooks, c: Class, elemType: TypeHint, inVar: string, outVar: string, g: Gen): Outcome
    decreases Size(elemType) + 1, 1, 0
  {
    var (names, g1) := DeserCollectionOpen(c, inVar, outVar, g);
    var g2 :- DeserAny(h, elemType, names[1], names[1], g1);
    Done(g2.Assign(Subscript(outVar, names[0]), names[1]).Dedent())
  }

  /** The start of the deserializer's collection case (166-171): the class
      is registered as a constant, `out` is bound to an instance built from
      the input, and the header of an `enumerate` loop over the input. */
  function DeserCollectionOpen(c: Class, inVar: string, outVar: string, g: Gen): (r: (seq<string>, Gen))
    ensures r.0 == [VarName(g.varI + 1), VarName(g.varI + 2)]
    ensures r.1.statements == g.statements
              + [Line(g.indent, Assignment(outVar, VarName(g.varI) + "(" + inVar + ")")),
                 Line(g.indent, LiteralStatement("for " + r.0[0] + ", " + r.0[1] + " in enumerate(" + inVar + "):"))]
    ensures r.1.indent == g.indent + 1 && r.1.varI == g.varI + 3 && r.1.defaultCount == g.defaultCount
    ensures r.1.consts == g.consts[VarName(g.varI) := ObjectConst(OClass(c))]
  {
    var (classVar, g1) := g.GetConst(OClass(c));
    var (names, g2) := g1.GetVars(2);
    (names, g2.Assign(outVar, classVar + "(" + inVar + ")")
              .Literal(["for " + names[0] + ", " + names[1] + " in enumerate(" + inVar + "):"])
              .Indent())
  }

  // ---------------------------------------------------------------------
  // Every generator is a build step: it only appends, never outside the
  // block it started in, keeps every constant binding and the builder's
  // validity, and when it completes it is back at the indent it started at
  // (every `indent` matched by a `dedent`).

  lemma {:induction false} SerAnyStep(h: SerializerHooks, t: TypeHint, inVar: string, outVar: string, g: Gen)
    requires g.Valid()
    ensures Step(g, SerAny(h, t, inVar, outVar, g))
    decreases Size(t), 4, 0
  {
    if h.isScalar(t) {
      GrowsAddStatements(g, h.scalar(t, inVar, outVar));
    } else {
      var (base, args) := ReadTypeHint(t);
      if IsUnionBase(base) {
        SerUnionStep(h, t, args, inVar, outVar, g);
      } else if base.OClass? {
        SerTypeStep(h, t, base.c, args, inVar, outVar, g);
      }
    }
  }

  lemma {:induction false} SerUnionStep(h: SerializerHooks, t: TypeHint, args: seq<TypeHint>, inVar: string, outVar: string, g: Gen)
    requires g.Valid()
    requires args == ReadTypeHint(t).1 && IsUnionBase(ReadTypeHint(t).0)
    ensures Step(g, SerUnion(h, t, args, inVar, outVar, g))
    decreases Size(t), 3, 0
  {
    if !HasDuplicate(Origins(args)) {
      UnionMembersSmaller(t);
      SerUnionBranchesStep(h, Size(t), args, inVar, outVar, 0, g);
    }
  }

  lemma SerBranchOpenStep(k: nat, member: TypeHint, inVar: string, g: Gen)
    requires g.Valid()
    ensures Grows(g, SerBranchOpen(k, member, inVar, g).1)
    ensures SerBranchOpen(k, member, inVar, g).1.indent == g.indent + 1
  {
    var (typeVar, g1) := g.GetConst(Base(member));
    GrowsGetConst(g, Base(member));
    var gl := g1.Literal([IsInstanceTest(k, inVar, typeVar)]);
    GrowsLiteral(g1, [IsInstanceTest(k, inVar, typeVar)]);
    GrowsTrans(g, g1, gl);
    var g2 := gl.Indent();
    GrowsIndent(gl);
    GrowsTrans(g, gl, g2);
    GrowsAssignNew(g2, TagPair(k, inVar));
    GrowsTrans(g, g2, g2.AssignNew(TagPair(k, inVar)).1);
  }

  /** A completed branch body, closed by its dedent, followed by the rest
      of a loop, is a step from where the branch was opened. */
  lemma CloseBranch(g: Gen, inner: Gen, rest: Outcome)
    requires Grows(g, inner) && inner.indent == g.indent + 1
    requires Step(inner.Dedent(), rest)
    ensures Step(g, rest)
  {
    GrowsDedent(inner);
    GrowsTrans(g, inner, inner.Dedent());
    GrowsTrans(g, inner.Dedent(), rest.g);
  }

  lemma {:induction false} SerUnionBranchesStep(h: SerializerHooks, bound: nat, args: seq<TypeHint>, inVar: string, outVar: string, k: nat, g: Gen)
    requires g.Valid()
    requires k <= |args|
    requires forall i :: 0 <= i < |args| ==> Size(args[i]) + 2 < bound
    ensures Step(g, SerUnionBranches(h, bound, args, inVar, outVar, k, g))
    decreases bound, 2, |args| - k
  {
    if k < |args| {
      var (tmp, g3) := SerBranchOpen(k, args[k], inVar, g);
      SerBranchOpenStep(k, args[k], inVar, g);
      var o := SerAny(h, Tagged(args[k]), tmp, outVar, g3);
      SerAnyStep(h, Tagged(args[k]), tmp, outVar, g3);
      GrowsTrans(g, g3, o.g);
      assert SerUnionBranches(h, bound, args, inVar, outVar, k, g)
          == if o.Raised? then o else SerUnionBranches(h, bound, args, inVar, outVar, k + 1, o.g.Dedent());
      if o.Done? {
        GrowsDedent(o.g);
        SerUnionBranchesStep(h, bound, args, inVar, outVar, k + 1, o.g.Dedent());
        CloseBranch(g, o.g, SerUnionBranches(h, bound, args, inVar, outVar, k + 1, o.g.Dedent()));
      }
    }
  }

  lemma {:induction false} SerTypeStep(h: SerializerHooks, t: TypeHint, c: Class, args: seq<TypeHint>, inVar: string, outVar: string, g: Gen)
    requires g.Valid()
    requires ReadTypeHint(t) == (OClass(c), args)
    ensures Step(g, SerType(h, t, c, args, inVar, outVar, g))
    decreases Size(t), 3, 0
  {
    ReadTypeHintSmaller(t);
    if c.isMapping {
      if |args| == 2 {
        MappingArgsSmaller(t, c);
        SerMappingStep(h, args[0], args[1], inVar, outVar, g);
      }
    } else if c.isCollection && !c.isStr && !c.isBytes {
      if IsFixedTuple(c, args) {
        SerFixedTupleStep(h, Size(t), args, inVar, outVar, g);
      } else if |args| > 0 && |DropEllipsis(args)| == 1 {
        SerCollectionStep(h, args[0], inVar, outVar, g);
      }
    }
  }

  lemma {:induction false} SerMappingStep(h: SerializerHooks, keyType: TypeHint, valueType: TypeHint, inVar: string, outVar: string, g: Gen)
    requires g.Valid()
    ensures Step(g, SerMapping(h, keyType, valueType, inVar, outVar, g))
    decreases Size(keyType) + Size(valueType) + 3, 1, 0
  {
    SumSizesPair(keyType, valueType);
    SumSizesSingle(TupleOf([keyType, valueType]));
    var g1 := g.Assign(inVar, "list(" + inVar + ".items())");
    GrowsAssign(g, inVar, "list(" + inVar + ".items())");
    SerAnyStep(h, ListOf(TupleOf([keyType, valueType])), inVar, outVar, g1);
    GrowsTrans(g, g1, SerAny(h, ListOf(TupleOf([keyType, valueType])), inVar, outVar, g1).g);
  }

  lemma {:induction false} SerFixedTupleStep(h: SerializerHooks, bound: nat, args: seq<TypeHint>, inVar: string, outVar: string, g: Gen)
    requires g.Valid()
    requires forall i :: 0 <= i < |args| ==> Size(args[i]) < bound
    ensures Step(g, SerFixedTuple(h, bound, args, inVar, outVar, g))
    decreases bound, 2, 0
  {
    var (vars, g1) := g.GetVars(|args|);
    GrowsGetVars(g, |args|);
    var o := SerTupleElems(h, bound, args, vars, inVar, 0, g1);
    SerTupleElemsStep(h, bound, args, vars, inVar, 0, g1);
    GrowsTrans(g, g1, o.g);
    if o.Done? {
      GrowsAddStatements(o.g, h.tuple(vars, outVar));
      GrowsTrans(g, o.g, o.g.AddStatements(h.tuple(vars, outVar)));
    }
  }

  lemma {:induction false} SerTupleElemsStep(h: SerializerHooks, bound: nat, args: seq<TypeHint>, vars: seq<string>, inVar: string, k: nat, g: Gen)
    requires g.Valid()
    requires |vars| == |args| && k <= |args|
    requires forall i :: 0 <= i < |args| ==> Size(args[i]) < bound
    ensures Step(g, SerTupleElems(h, bound, args, vars, inVar, k, g))
    decreases bound, 1, |args| - k
  {
    if k < |args| {
      var (tmp, g1) := g.AssignNew(Subscript(inVar, NatToString(k)));
      GrowsAssignNew(g, Subscript(inVar, NatToString(k)));
      var o := SerAny(h, args[k], tmp, vars[k], g1);
      SerAnyStep(h, args[k], tmp, vars[k], g1);
      GrowsTrans(g, g1, o.g);
      if o.Done? {
        SerTupleElemsStep(h, bound, args, vars, inVar, k + 1, o.g);
        GrowsTrans(g, o.g, SerTupleElems(h, bound, args, vars, inVar, k + 1, o.g).g);
      }
    }
  }

  lemma SerCollectionOpenStep(inVar: string, outVar: string, g: Gen)
    requires g.Valid()
    ensures Grows(g, SerCollectionOpen(inVar, outVar, g).1)
    ensures SerCollectionOpen(inVar, outVar, g).1.indent == g.indent + 1
  {
    var (names, g1) := g.GetVars(2);
    GrowsGetVars(g, 2);
    var ga := g1.Assign(outVar, "list(" + inVar + ")");
    GrowsAssign(g1, outVar, "list(" + inVar + ")");
    GrowsTrans(g, g1, ga);
    var header := ["for " + names[0] + ", " + names[1] + " in enumerate(" + outVar + "):"];
    var gl := ga.Literal(header);
    GrowsLiteral(ga, header);
    GrowsTrans(g, ga, gl);
    GrowsIndent(gl);
    GrowsTrans(g, gl, gl.Indent());
  }

  lemma {:induction false} SerCollectionStep(h: SerializerHooks, elemType: TypeHint, inVar: string, outVar: string, g: Gen)
    requires g.Valid()
    ensures Step(g, SerCollection(h, elemType, inVar, outVar, g))
    decreases Size(elemType) + 1, 1, 0
  {
    var (names, g2) := SerCollectionOpen(inVar, outVar, g);
    SerCollectionOpenStep(inVar, outVar, g);
    var o := SerAny(h, elemType, names[1], names[1], g2);
    SerAnyStep(h, elemType, names[1], names[1], g2);
    GrowsTrans(g, g2, o.g);
    if o.Done? {
      var gb := o.g.Assign(Subscript(outVar, names[0]), names[1]);
      GrowsAssign(o.g, Subscript(outVar, names[0]), names[1]);
      GrowsTrans(g, o.g, gb);
      CloseBranch(g, gb, Done(gb.Dedent()));
    }
  }

  lemma {:induction false} DeserAnyStep(h: DeserializerHooks, t: TypeHint, inVar: string, outVar: string, g: Gen)
    requires g.Valid()
    ensures Step(g, DeserAny(h, t, inVar, outVar, g))
    decreases Size(t), 4, 0
  {
    if h.isScalar(t) {
      GrowsAddStatements(g, h.scalar(t, inVar, outVar));
    } else {
      var (base, args) := ReadTypeHint(t);
      if IsUnionBase(base) {
        ReadTypeHintSmaller(t);
        DeserUnionBranchesStep(h, Size(t), args, inVar, outVar, 0, g);
      } else if base.OClass? {
        DeserTypeStep(h, t, base.c, args, inVar, outVar, g);
      }
    }
  }

  lemma DeserBranchOpenStep(k: nat, inVar: string, g: Gen)
    requires g.Valid()
    ensures Grows(g, DeserBranchOpen(k, inVar, g).1)
    ensures DeserBranchOpen(k, inVar, g).1.indent == g.indent + 1
  {
    var gl := g.Literal([TagTest(k, inVar)]);
    GrowsLiteral(g, [TagTest(k, inVar)]);
    var g1 := gl.Indent();
    GrowsIndent(gl);
    GrowsTrans(g, gl, g1);
    GrowsAssignNew(g1, Subscript(inVar, "1"));
    GrowsTrans(g, g1, g1.AssignNew(Subscript(inVar, "1")).1);
  }

  lemma {:induction false} DeserUnionBranchesStep(h: DeserializerHooks, bound: nat, args: seq<TypeHint>, inVar: string, outVar: string, k: nat, g: Gen)
    requires g.Valid()
    requires k <= |args|
    requires forall i :: 0 <= i < |args| ==> Size(args[i]) < bound
    ensures Step(g, DeserUnionBranches(h, bound, args, inVar, outVar, k, g))
    decreases bound, 2, |args| - k
  {
    if k < |args| {
      var (tmp, g1) := DeserBranchOpen(k, inVar, g);
      DeserBranchOpenStep(k, inVar, g);
      var o := DeserAny(h, args[k], tmp, outVar, g1);
      DeserAnyStep(h, args[k], tmp, outVar, g1);
      GrowsTrans(g, g1, o.g);
      assert DeserUnionBranches(h, bound, args, inVar, outVar, k, g)
          == if o.Raised? then o else DeserUnionBranches(h, bound, args, inVar, outVar, k + 1, o.g.Dedent());
      if o.Done? {
        GrowsDedent(o.g);
        DeserUnionBranchesStep(h, bound, args, inVar, outVar, k + 1, o.g.Dedent());
        CloseBranch(g, o.g, DeserUnionBranches(h, bound, args, inVar, outVar, k + 1, o.g.Dedent()));
      }
    }
  }

  lemma {:induction false} DeserTypeStep(h: DeserializerHooks, t: TypeHint, c: Class, args: seq<TypeHint>, inVar: string, outVar: string, g: Gen)
    requires g.Valid()
    requires ReadTypeHint(t) == (OClass(c), args)
    ensures Step(g, DeserType(h, t, c, args, inVar, outVar, g))
    decreases Size(t), 3, 0
  {
    ReadTypeHintSmaller(t);
    if c.isMapping {
      if |args| == 2 {
        MappingArgsSmaller(t, c);
        DeserMappingStep(h, c, args[0], args[1], inVar, outVar, g);
      }
    } else if c.isCollection && !c.isStr && !c.isBytes {
      if IsFixedTuple(c, args) {
        DeserFixedTupleStep(h, Size(t), c, args, inVar, outVar, g);
      } else if |args| > 0 && |DropEllipsis(args)| == 1 {
        DeserCollectionStep(h, c, args[0], inVar, outVar, g);
      }
    }
  }

  lemma DeserMappingOpenStep(c: Class, inVar: string, g: Gen)
    requires g.Valid()
    ensures Grows(g, DeserMappingOpen(c, inVar, g).1)
    ensures DeserMappingOpen(c, inVar, g).1.indent == g.indent + 1
  {
    var (classVar, g1) := g.GetConst(OClass(c));
    GrowsGetConst(g, OClass(c));
    var (names, g2) := g1.GetVars(3);
    GrowsGetVars(g1, 3);
    GrowsTrans(g, g1, g2);
    var ga := g2.Assign(names[0], classVar + "()");
    GrowsAssign(g2, names[0], classVar + "()");
    GrowsTrans(g, g2, ga);
    var header := ["for " + names[1] + ", " + names[2] + " in " + inVar + ":"];
    var gl := ga.Literal(header);
    GrowsLiteral(ga, header);
    GrowsTrans(g, ga, gl);
    GrowsIndent(gl);
    GrowsTrans(g, gl, gl.Indent());
  }

  lemma {:induction false} DeserMappingStep(h: DeserializerHooks, c: Class, keyType: TypeHint, valueType: TypeHint, inVar: string, outVar: string, g: Gen)
    requires g.Valid()
    ensures Step(g, DeserMapping(h, c, keyType, valueType, inVar, outVar, g))
    decreases Size(keyType) + Size(valueType) + 1, 1, 0
  {
    var (names, g1) := DeserMappingOpen(c, inVar, g);
    DeserMappingOpenStep(c, inVar, g);
    var o1 := DeserAny(h, keyType, names[1], names[1], g1);
    DeserAnyStep(h, keyType, names[1], names[1], g1);
    GrowsTrans(g, g1, o1.g);
    if o1.Done? {
      var o2 := DeserAny(h, valueType, names[2], names[2], o1.g);
      DeserAnyStep(h, valueType, names[2], names[2], o1.g);
      GrowsTrans(g, o1.g, o2.g);
      if o2.Done? {
        var gb := o2.g.Assign(Subscript(names[0], names[1]), names[2]);
        GrowsAssign(o2.g, Subscript(names[0], names[1]), names[2]);
        GrowsTrans(g, o2.g, gb);
        GrowsDedent(gb);
        GrowsAssign(gb.Dedent(), outVar, names[0]);
        CloseBranch(g, gb, Done(gb.Dedent().Assign(outVar, names[0])));
      }
    }
  }

  lemma {:induction false} DeserFixedTupleStep(h: DeserializerHooks, bound: nat, c: Class, args: seq<TypeHint>, inVar: string, outVar: string, g: Gen)
    requires g.Valid()
    requires forall i :: 0 <= i < |args| ==> Size(args[i]) < bound
    ensures Step(g, DeserFixedTuple(h, bound, c, args, inVar, outVar, g))
    decreases bound, 2, 0
  {
    var (vars, g1) := g.GetVars(|args|);
    GrowsGetVars(g, |args|);
    var o := DeserTupleElems(h, bound, args, vars, inVar, 0, g1);
    DeserTupleElemsStep(h, bound, args, vars, inVar, 0, g1);
    GrowsTrans(g, g1, o.g);
    if o.Done? {
      GrowsAddStatements(o.g, h.tuple(c, vars, outVar));
      GrowsTrans(g, o.g, o.g.AddStatements(h.tuple(c, vars, outVar)));
    }
  }

  lemma {:induction false} DeserTupleElemsStep(h: DeserializerHooks, bound: nat, args: seq<TypeHint>, vars: seq<string>, inVar: string, k: nat, g: Gen)
    requires g.Valid()
    requires |vars| == |args| && k <= |args|
    requires forall i :: 0 <= i < |args| ==> Size(args[i]) < bound
    ensures Step(g, DeserTupleElems(h, bound, args, vars, inVar, k, g))
    decreases bound, 1, |args| - k
  {
    if k < |args| {
      var (tmp, g1) := g.AssignNew(Subscript(inVar, NatToString(k)));
      GrowsAssignNew(g, Subscript(inVar, NatToString(k)));
      var o := DeserAny(h, args[k], tmp, vars[k], g1);
      DeserAnyStep(h, args[k], tmp, vars[k], g1);
      GrowsTrans(g, g1, o.g);
      if o.Done? {
        DeserTupleElemsStep(h, bound, args, vars, inVar, k + 1, o.g);
        GrowsTrans(g, o.g, DeserTupleElems(h, bound, args, vars, inVar, k + 1, o.g).g);
      }
    }
  }

  lemma DeserCollectionOpenStep(c: Class, inVar: string, outVar: string, g: Gen)
    requires g.Valid()
    ensures Grows(g, DeserCollectionOpen(c, inVar, outVar, g).1)
    ensures DeserCollectionOpen(c, inVar, outVar, g).1.indent == g.indent + 1
  {
    var (classVar, g1) := g.GetConst(OClass(c));
    GrowsGetConst(g, OClass(c));
    var (names, g2) := g1.GetVars(2);
    GrowsGetVars(g1, 2);
    GrowsTrans(g, g1, g2);
    var ga := g2.Assign(outVar, classVar + "(" + inVar + ")");
    GrowsAssign(g2, outVar, classVar + "(" + inVar + ")");
    GrowsTrans(g, g2, ga);
    var header := ["for " + names[0] + ", " + names[1] + " in enumerate(" + inVar + "):"];
    var gl := ga.Literal(header);
    GrowsLiteral(ga, header);
    GrowsTrans(g, ga, gl);
    GrowsIndent(gl);
    GrowsTrans(g, gl, gl.Indent());
  }

  lemma {:induction false} DeserCollectionStep(h: DeserializerHooks, c: Class, elemType: TypeHint, inVar: string, outVar: string, g: Gen)
    requires g.Valid()
    ensures Step(g, DeserCollection(h, c, elemType, inVar, outVar, g))
    decreases Size(elemType) + 1, 1, 0
  {
    var (names, g1) := DeserCollectionOpen(c, inVar, outVar, g);
    DeserCollectionOpenStep(c, inVar, outVar, g);
    var o := DeserAny(h, elemType, names[1], names[1], g1);
    DeserAnyStep(h, elemType, names[1], names[1], g1);
    GrowsTrans(g, g1, o.g);
    if o.Done? {
      var gb := o.g.Assign(Subscript(outVar, names[0]), names[1]);
      GrowsAssign(o.g, Subscript(outVar, names[0]), names[1]);
      GrowsTrans(g, o.g, gb);
      GrowsDedent(gb);
      CloseBranch(g, gb, Done(gb.Dedent()));
    }
  }

  // ---------------------------------------------------------------------
  // What the union generators emit at the indent they start at: one
  // `if`/`elif` header per member, in member order.

  /** Serializer branch `k` tests the input against a constant bound to the
      member's origin. */
  ghost predicate TestsOrigin(s: Statement, k: nat, inVar: string, origin: Origin, consts: map<string, Const>)
  {
    exists v :: v in consts && consts[v] == ObjectConst(origin) && s == LiteralStatement(IsInstanceTest(k, inVar, v))
  }

  /** One serializer branch, from its header to its dedent, adds only its
      header at the indent it was opened at, and its constant survives. */
  lemma SerBranchTop(k: nat, member: TypeHint, inVar: string, g: Gen, inner: Gen, rest: Gen)
    requires Grows(SerBranchOpen(k, member, inVar, g).1, inner) && inner.indent == g.indent + 1
    requires Grows(inner.Dedent(), rest)
    ensures AtIndent(Appended(g, rest), g.indent)
         == [LiteralStatement(IsInstanceTest(k, inVar, VarName(g.varI)))] + AtIndent(Appended(inner.Dedent(), rest), g.indent)
    ensures TestsOrigin(LiteralStatement(IsInstanceTest(k, inVar, VarName(g.varI))), k, inVar, Base(member), rest.consts)
  {
    var start := SerBranchOpen(k, member, inVar, g).1;
    BlockAtIndent(g, start, inner, rest);
    SerBranchOpenTop(k, member, inVar, g);
    var v := VarName(g.varI);
    assert start.consts[v] == ObjectConst(Base(member));
    assert inner.consts[v] == ObjectConst(Base(member));
    assert rest.consts[v] == ObjectConst(Base(member));
  }

  lemma SerBranchOpenTop(k: nat, member: TypeHint, inVar: string, g: Gen)
    ensures AtIndent(Appended(g, SerBranchOpen(k, member, inVar, g).1), g.indent)
         == [LiteralStatement(IsInstanceTest(k, inVar, VarName(g.varI)))]
  {
    var header := Line(g.indent, LiteralStatement(IsInstanceTest(k, inVar, VarName(g.varI))));
    var second := Line(g.indent + 1, Assignment(VarName(g.varI + 1), TagPair(k, inVar)));
    assert Appended(g, SerBranchOpen(k, member, inVar, g).1) == [header] + [second];
    AtIndentCons(header, [second], g.indent);
    AtIndentCons(second, [], g.indent);
  }

  /** `top` holds, in order, the headers of branches `k` to the last. */
  ghost predicate HeadersFrom(top: seq<Statement>, args: seq<TypeHint>, k: nat, inVar: string, consts: map<string, Const>)
    requires k <= |args|
    decreases |args| - k
  {
    if k == |args| then top == []
    else |top| > 0 && TestsOrigin(top[0], k, inVar, Base(args[k]), consts) && HeadersFrom(top[1..], args, k + 1, inVar, consts)
  }

  lemma HeadersCons(header: Statement, rest: seq<Statement>, args: seq<TypeHint>, k: nat, inVar: string, consts: map<string, Const>)
    requires k < |args|
    requires TestsOrigin(header, k, inVar, Base(args[k]), consts)
    requires HeadersFrom(rest, args, k + 1, inVar, consts)
    ensures HeadersFrom([header] + rest, args, k, inVar, consts)
  {
    assert ([header] + rest)[1..] == rest;
  }

  lemma {:induction false} HeadersFromIndexed(top: seq<Statement>, args: seq<TypeHint>, k: nat, inVar: string, consts: map<string, Const>)
    requires k <= |args| && HeadersFrom(top, args, k, inVar, consts)
    ensures |top| == |args| - k
    ensures forall i :: k <= i < |args| ==> TestsOrigin(top[i - k], i, inVar, Base(args[i]), consts)
    decreases |args| - k
  {
    if k < |args| {
      HeadersFromIndexed(top[1..], args, k + 1, inVar, consts);
      forall i | k < i < |args| ensures TestsOrigin(top[i - k], i, inVar, Base(args[i]), consts) {
        assert top[i - k] == top[1..][i - (k + 1)];
      }
    }
  }

  lemma {:induction false} SerUnionBranchesTests(h: SerializerHooks, bound: nat, args: seq<TypeHint>, inVar: string, outVar: string, k: nat, g: Gen)
    requires g.Valid()
    requires k <= |args|
    requires forall i :: 0 <= i < |args| ==> Size(args[i]) + 2 < bound
    requires SerUnionBranches(h, bound, args, inVar, outVar, k, g).Done?
    ensures var g' := SerUnionBranches(h, bound, args, inVar, outVar, k, g).g;
            HeadersFrom(AtIndent(Appended(g, g'), g.indent), args, k, inVar, g'.consts)
    decreases |args| - k
  {
    var r := SerUnionBranches(h, bound, args, inVar, outVar, k, g);
    if k == |args| {
      assert Appended(g, g) == [];
    } else {
      var br := SerBranchOpen(k, args[k], inVar, g);
      SerBranchOpenStep(k, args[k], inVar, g);
      var o := SerAny(h, Tagged(args[k]), br.0, outVar, br.1);
      SerAnyStep(h, Tagged(args[k]), br.0, outVar, br.1);
      assert r == if o.Raised? then o else SerUnionBranches(h, bound, args, inVar, outVar, k + 1, o.g.Dedent());
      var g5 := o.g.Dedent();
      GrowsDedent(o.g);
      SerUnionBranchesStep(h, bound, args, inVar, outVar, k + 1, g5);
      SerUnionBranchesTests(h, bound, args, inVar, outVar, k + 1, g5);
      var r2 := SerUnionBranches(h, bound, args, inVar, outVar, k + 1, g5);
      assert r == r2;
      SerBranchTop(k, args[k], inVar, g, o.g, r2.g);
      HeadersCons(LiteralStatement(IsInstanceTest(k, inVar, VarName(g.varI))), AtIndent(Appended(g5, r2.g), g.indent), args, k, inVar, r2.g.consts);
    }
  }

  /** union (59-66): members sharing an origin are refused before anything
      is emitted. */
  lemma SerUnionDuplicate(h: SerializerHooks, t: TypeHint, inVar: string, outVar: string, g: Gen)
    requires !h.isScalar(t) && IsUnionBase(ReadTypeHint(t).0)
    requires HasDuplicate(Origins(ReadTypeHint(t).1))
    ensures SerAny(h, t, inVar, outVar, g) == Raised(SerializationError, g)
  {
    UnionMembersSmaller(t);
    SerAnyUnion(h, t, inVar, outVar, g);
  }

  /** union (67-79): each member gets one branch at the current indent, in
      order, whose header tests the input against a constant bound to that
      member's origin. */
  lemma SerUnionHeaders(h: SerializerHooks, t: TypeHint, inVar: string, outVar: string, g: Gen)
    requires g.Valid() && !h.isScalar(t) && IsUnionBase(ReadTypeHint(t).0)
    requires SerAny(h, t, inVar, outVar, g).Done?
    ensures var args := ReadTypeHint(t).1;
            var g' := SerAny(h, t, inVar, outVar, g).g;
            HeadersFrom(AtIndent(Appended(g, g'), g.indent), args, 0, inVar, g'.consts)
  {
    UnionMembersSmaller(t);
    SerAnyUnion(h, t, inVar, outVar, g);
    SerUnionBranchesTests(h, Size(t), ReadTypeHint(t).1, inVar, outVar, 0, g);
  }

  lemma SerAnyUnion(h: SerializerHooks, t: TypeHint, inVar: string, outVar: string, g: Gen)
    requires !h.isScalar(t) && IsUnionBase(ReadTypeHint(t).0)
    requires forall i :: 0 <= i < |ReadTypeHint(t).1| ==> Size(ReadTypeHint(t).1[i]) + 2 < Size(t)
    ensures SerAny(h, t, inVar, outVar, g)
         == if HasDuplicate(Origins(ReadTypeHint(t).1)) then Raised(SerializationError, g)
            else SerUnionBranches(h, Size(t), ReadTypeHint(t).1, inVar, outVar, 0, g)
  {
  }

  /** The headers of deserializer branches `k` to `n - 1`. */
  function TagTests(inVar: string, k: nat, n: nat): seq<Statement>
    decreases n - k
  {
    if k >= n then [] else [LiteralStatement(TagTest(k, inVar))] + TagTests(inVar, k + 1, n)
  }

  lemma {:induction false} TagTestsIndexed(inVar: string, k: nat, n: nat)
    ensures |TagTests(inVar, k, n)| == if k >= n then 0 else n - k
    ensures forall j :: 0 <= j < |TagTests(inVar, k, n)| ==> TagTests(inVar, k, n)[j] == LiteralStatement(TagTest(k + j, inVar))
    decreases n - k
  {
    if k < n {
      TagTestsIndexed(inVar, k + 1, n);
    }
  }

  /** One deserializer branch, from its header to its dedent, adds only its
      header at the indent it was opened at. */
  lemma DeserBranchTop(k: nat, inVar: string, g: Gen, inner: Gen, rest: Gen)
    requires Grows(DeserBranchOpen(k, inVar, g).1, inner) && inner.indent == g.indent + 1
    requires Grows(inner.Dedent(), rest)
    ensures AtIndent(Appended(g, rest), g.indent)
         == [LiteralStatement(TagTest(k, inVar))] + AtIndent(Appended(inner.Dedent(), rest), g.indent)
  {
    BlockAtIndent(g, DeserBranchOpen(k, inVar, g).1, inner, rest);
    DeserBranchOpenTop(k, inVar, g);
  }

  lemma DeserBranchOpenTop(k: nat, inVar: string, g: Gen)
    ensures AtIndent(Appended(g, DeserBranchOpen(k, inVar, g).1), g.indent) == [LiteralStatement(TagTest(k, inVar))]
  {
    var header := Line(g.indent, LiteralStatement(TagTest(k, inVar)));
    var second := Line(g.indent + 1, Assignment(VarName(g.varI), Subscript(inVar, "1")));
    assert Appended(g, DeserBranchOpen(k, inVar, g).1) == [header] + [second];
    AtIndentCons(header, [second], g.indent);
    AtIndentCons(second, [], g.indent);
  }

  lemma {:induction false} DeserUnionBranchesTests(h: DeserializerHooks, bound: nat, args: seq<TypeHint>, inVar: string, outVar: string, k: nat, g: Gen)
    requires g.Valid()
    requires k <= |args|
    requires forall i :: 0 <= i < |args| ==> Size(args[i]) < bound
    requires DeserUnionBranches(h, bound, args, inVar, outVar, k, g).Done?
    ensures var g' := DeserUnionBranches(h, bound, args, inVar, outVar, k, g).g;
            AtIndent(Appended(g, g'), g.indent) == TagTests(inVar, k, |args|)
    decreases |args| - k
  {
    var r := DeserUnionBranches(h, bound, args, inVar, outVar, k, g);
    if k == |args| {
      assert Appended(g, g) == [];
    } else {
      var br := DeserBranchOpen(k, inVar, g);
      DeserBranchOpenStep(k, inVar, g);
      var o := DeserAny(h, args[k], br.0, outVar, br.1);
      DeserAnyStep(h, args[k], br.0, outVar, br.1);
      assert r == if o.Raised? then o else DeserUnionBranches(h, bound, args, inVar, outVar, k + 1, o.g.Dedent());
      var g5 := o.g.Dedent();
      GrowsDedent(o.g);
      DeserUnionBranchesStep(h, bound, args, inVar, outVar, k + 1, g5);
      DeserUnionBranchesTests(h, bound, args, inVar, outVar, k + 1, g5);
      var r2 := DeserUnionBranches(h, bound, args, inVar, outVar, k + 1, g5);
      assert r == r2;
      DeserBranchTop(k, inVar, g, o.g, r2.g);
    }
  }

  lemma DeserAnyUnion(h: DeserializerHooks, t: TypeHint, inVar: string, outVar: string, g: Gen)
    requires !h.isScalar(t) && IsUnionBase(ReadTypeHint(t).0)
    requires forall i :: 0 <= i < |ReadTypeHint(t).1| ==> Size(ReadTypeHint(t).1[i]) < Size(t)
    ensures DeserAny(h, t, inVar, outVar, g) == DeserUnionBranches(h, Size(t), ReadTypeHint(t).1, inVar, outVar, 0, g)
  {
  }

  /** union (176-184): one branch per member at the current indent, in
      order, the `k`-th testing whether the tag `in[0]` is `k`; members that
      share an origin are not refused. */
  lemma DeserUnionShape(h: DeserializerHooks, t: TypeHint, inVar: string, outVar: string, g: Gen)
    requires g.Valid() && !h.isScalar(t) && IsUnionBase(ReadTypeHint(t).0)
    ensures var o := DeserAny(h, t, inVar, outVar, g);
            o.Done? ==> AtIndent(Appended(g, o.g), g.indent) == TagTests(inVar, 0, |ReadTypeHint(t).1|)
  {
    ReadTypeHintSmaller(t);
    DeserAnyUnion(h, t, inVar, outVar, g);
    if DeserUnionBranches(h, Size(t), ReadTypeHint(t).1, inVar, outVar, 0, g).Done? {
      DeserUnionBranchesTests(h, Size(t), ReadTypeHint(t).1, inVar, outVar, 0, g);
    }
  }

  // ---------------------------------------------------------------------
  // Mappings.

  /** mapping (46-48) with type_ (100-106): a mapping needs exactly two
      type arguments; the serializer rebinds its input to the list of the
      mapping's items and compiles that as `list[tuple[K, V]]`. */
  lemma SerMappingShape(h: SerializerHooks, t: TypeHint, c: Class, inVar: string, outVar: string, g: Gen)
    requires !h.isScalar(t) && ReadTypeHint(t).0 == OClass(c) && c.isMapping
    ensures var args := ReadTypeHint(t).1;
            && (|args| != 2 ==> SerAny(h, t, inVar, outVar, g) == Raised(SerializationError, g))
            && (|args| == 2 ==>
                  SerAny(h, t, inVar, outVar, g)
                  == SerAny(h, ListOf(TupleOf(args)), inVar, outVar, g.Assign(inVar, "list(" + inVar + ".items())")))
  {
    var args := ReadTypeHint(t).1;
    assert SerAny(h, t, inVar, outVar, g) == SerType(h, t, c, args, inVar, outVar, g);
    if |args| == 2 {
      MappingArgsSmaller(t, c);
      assert SerType(h, t, c, args, inVar, outVar, g) == SerMapping(h, args[0], args[1], inVar, outVar, g);
      assert args == [args[0], args[1]];
    }
  }

  lemma DeserMappingOpenTop(c: Class, inVar: string, g: Gen)
    ensures AtIndent(Appended(g, DeserMappingOpen(c, inVar, g).1), g.indent)
         == [Assignment(VarName(g.varI + 1), VarName(g.varI) + "()"),
             LiteralStatement("for " + VarName(g.varI + 2) + ", " + VarName(g.varI + 3) + " in " + inVar + ":")]
  {
    AppendedTwo(g, DeserMappingOpen(c, inVar, g).1, Assignment(VarName(g.varI + 1), VarName(g.varI) + "()"),
      LiteralStatement("for " + VarName(g.varI + 2) + ", " + VarName(g.varI + 3) + " in " + inVar + ":"));
  }

  /** Closing the mapping loop and binding `out` after it: what the whole
      case leaves at its own indent, whatever the loop body emitted. */
  lemma DeserMappingClose(c: Class, inVar: string, outVar: string, g: Gen, inner: Gen)
    requires Grows(DeserMappingOpen(c, inVar, g).1, inner) && inner.indent == g.indent + 1
    requires inner.Dedent().Valid()
    ensures var rest := inner.Dedent().Assign(outVar, VarName(g.varI + 1));
            var tmp := VarName(g.varI + 1);
            && AtIndent(Appended(g, rest), g.indent)
               == [Assignment(tmp, VarName(g.varI) + "()"),
                   LiteralStatement("for " + VarName(g.varI + 2) + ", " + VarName(g.varI + 3) + " in " + inVar + ":"),
                   Assignment(outVar, tmp)]
            && rest.statements[|rest.statements| - 1] == Line(g.indent, Assignment(outVar, tmp))
            && VarName(g.varI) in rest.consts && rest.consts[VarName(g.varI)] == ObjectConst(OClass(c))
  {
    var start := DeserMappingOpen(c, inVar, g).1;
    BlockThenAssign(g, start, inner, outVar, VarName(g.varI + 1));
    DeserMappingOpenTop(c, inVar, g);
    assert start.consts[VarName(g.varI)] == ObjectConst(OClass(c));
  }

  /** mapping (152-163): the deserializer registers the concrete class as a
      constant, binds a fresh variable to an empty instance of it, loops over
      the input's pairs, and binds `out` to that variable only after the
      loop, as the last statement; at its own indent it emits nothing else. */
  lemma DeserMappingTop(h: DeserializerHooks, c: Class, keyType: TypeHint, valueType: TypeHint, inVar: string, outVar: string, g: Gen)
    requires g.Valid()
    requires DeserMapping(h, c, keyType, valueType, inVar, outVar, g).Done?
    ensures var g' := DeserMapping(h, c, keyType, valueType, inVar, outVar, g).g;
            var tmp := VarName(g.varI + 1);
            && AtIndent(Appended(g, g'), g.indent)
               == [Assignment(tmp, VarName(g.varI) + "()"),
                   LiteralStatement("for " + VarName(g.varI + 2) + ", " + VarName(g.varI + 3) + " in " + inVar + ":"),
                   Assignment(outVar, tmp)]
            && g'.statements[|g'.statements| - 1] == Line(g.indent, Assignment(outVar, tmp))
            && VarName(g.varI) in g'.consts && g'.consts[VarName(g.varI)] == ObjectConst(OClass(c))
  {
    var inner := DeserMappingBody(h, c, keyType, valueType, inVar, outVar, g);
    DeserMappingClose(c, inVar, outVar, g, inner);
  }

  /** A completed mapping case is its opened loop, a body that grows the
      builder at the loop's indent and ends with the store, the dedent and
      the binding of `out`. */
  lemma DeserMappingBody(h: DeserializerHooks, c: Class, keyType: TypeHint, valueType: TypeHint, inVar: string, outVar: string, g: Gen)
    returns (inner: Gen)
    requires g.Valid()
    requires DeserMapping(h, c, keyType, valueType, inVar, outVar, g).Done?
    ensures Grows(DeserMappingOpen(c, inVar, g).1, inner) && inner.indent == g.indent + 1
    ensures inner.Dedent().Valid()
    ensures DeserMapping(h, c, keyType, valueType, inVar, outVar, g).g == inner.Dedent().Assign(outVar, VarName(g.varI + 1))
  {
    var r := DeserMappingOpen(c, inVar, g);
    var names := r.0;
    var g1 := r.1;
    DeserMappingOpenStep(c, inVar, g);
    var o1 := DeserAny(h, keyType, names[1], names[1], g1);
    DeserAnyStep(h, keyType, names[1], names[1], g1);
    var o2 := DeserAny(h, valueType, names[2], names[2], o1.g);
    DeserAnyStep(h, valueType, names[2], names[2], o1.g);
    inner := o2.g.Assign(Subscript(names[0], names[1]), names[2]);
    GrowsAssign(o2.g, Subscript(names[0], names[1]), names[2]);
    GrowsTrans(g1, o1.g, o2.g);
    GrowsTrans(g1, o2.g, inner);
    GrowsDedent(inner);
  }

  /** type_ (207-213): a mapping needs exactly two type arguments, and with
      two it is compiled by the mapping case with its key and value types. */
  lemma DeserMappingDispatch(h: DeserializerHooks, t: TypeHint, c: Class, inVar: string, outVar: string, g: Gen)
    requires !h.isScalar(t) && ReadTypeHint(t).0 == OClass(c) && c.isMapping
    ensures var args := ReadTypeHint(t).1;
            && (|args| != 2 ==> DeserAny(h, t, inVar, outVar, g) == Raised(SerializationError, g))
            && (|args| == 2 ==> DeserAny(h, t, inVar, outVar, g) == DeserMapping(h, c, args[0], args[1], inVar, outVar, g))
  {
    var args := ReadTypeHint(t).1;
    assert DeserAny(h, t, inVar, outVar, g) == DeserType(h, t, c, args, inVar, outVar, g);
    if |args| == 2 {
      MappingArgsSmaller(t, c);
    }
  }

  // ---------------------------------------------------------------------
  // Fixed tuples.

  /** The names `var<i>`, ..., `var<i + n - 1>`: `n` fresh names in counter
      order. */
  function FreshRun(i: nat, n: nat): (names: seq<string>)
    ensures |names| == n
  {
    seq(n, k requires 0 <= k < n => VarName(i + k))
  }

  /** get_vars hands out exactly the run of fresh names. */
  lemma GetVarsRun(g: Gen, n: nat)
    ensures g.GetVars(n).0 == FreshRun(g.varI, n)
  {
  }

  /** `in[k]`, ..., `in[n - 1]`. */
  function Positions(inVar: string, k: nat, n: nat): seq<string>
    decreases n - k
  {
    if k >= n then [] else [Subscript(inVar, NatToString(k))] + Positions(inVar, k + 1, n)
  }

  lemma {:induction false} SerTupleElemsReads(h: SerializerHooks, bound: nat, args: seq<TypeHint>, vars: seq<string>, inVar: string, k: nat, g: Gen)
    requires g.Valid()
    requires |vars| == |args| && k <= |args|
    requires forall i :: 0 <= i < |args| ==> Size(args[i]) < bound
    requires SerTupleElems(h, bound, args, vars, inVar, k, g).Done?
    ensures AssignsInOrder(Appended(g, SerTupleElems(h, bound, args, vars, inVar, k, g).g), Positions(inVar, k, |args|), g.indent)
    decreases |args| - k
  {
    if k < |args| {
      var r := SerTupleElems(h, bound, args, vars, inVar, k, g);
      var a := g.AssignNew(Subscript(inVar, NatToString(k)));
      GrowsAssignNew(g, Subscript(inVar, NatToString(k)));
      var o := SerAny(h, args[k], a.0, vars[k], a.1);
      SerAnyStep(h, args[k], a.0, vars[k], a.1);
      assert r == if o.Raised? then o else SerTupleElems(h, bound, args, vars, inVar, k + 1, o.g);
      var r2 := SerTupleElems(h, bound, args, vars, inVar, k + 1, o.g);
      SerTupleElemsStep(h, bound, args, vars, inVar, k + 1, o.g);
      SerTupleElemsReads(h, bound, args, vars, inVar, k + 1, o.g);
      ElementReads(g, a.1, o.g, r2.g, Subscript(inVar, NatToString(k)), Positions(inVar, k + 1, |args|));
    }
  }

  /** One tuple element: a fresh variable bound to `in[k]` at the current
      indent, then whatever compiling the element and the later elements
      emitted. */
  lemma ElementReads(g: Gen, g1: Gen, g2: Gen, g3: Gen, right: string, rights: seq<string>)
    requires g1.statements == g.statements + [Line(g.indent, Assignment(VarName(g.varI), right))]
    requires g1.statements <= g2.statements <= g3.statements
    requires AssignsInOrder(Appended(g2, g3), rights, g.indent)
    ensures AssignsInOrder(Appended(g, g3), [right] + rights, g.indent)
  {
    AppendedSplit(g, g1, g3);
    AppendedSplit(g1, g2, g3);
    AssignsInOrderAfter(Appended(g1, g2), Appended(g2, g3), rights, g.indent);
    assert Appended(g, g1) == [Line(g.indent, Assignment(VarName(g.varI), right))];
    AssignsInOrderCons(Line(g.indent, Assignment(VarName(g.varI), right)), Appended(g1, g3), right, rights, g.indent);
  }

  /** The end of a fixed tuple: after the element loop, the hook's statements
      at the tuple's own indent. */
  lemma TupleEnd(g: Gen, g1: Gen, g2: Gen, rights: seq<string>, hook: seq<Statement>)
    requires g1.statements == g.statements && g1.statements <= g2.statements && g2.indent == g.indent
    requires AssignsInOrder(Appended(g1, g2), rights, g.indent)
    ensures var g' := g2.AddStatements(hook);
            && AssignsInOrder(Appended(g, g'), rights, g.indent)
            && EndsWith(Appended(g, g'), StatementLines(g.indent, hook))
  {
    var g' := g2.AddStatements(hook);
    AppendedSplit(g1, g2, g');
    assert Appended(g, g') == Appended(g1, g2) + StatementLines(g.indent, hook);
    AssignsInOrderBefore(Appended(g1, g2), StatementLines(g.indent, hook), rights, g.indent);
  }

  /** The element loop and the hook of a fixed tuple, started from a state
      with the same statements and indent as `g`. */
  lemma SerTupleBody(h: SerializerHooks, bound: nat, args: seq<TypeHint>, vars: seq<string>, inVar: string, outVar: string, g: Gen, g1: Gen)
    requires g1.Valid() && g1.statements == g.statements && g1.indent == g.indent
    requires |vars| == |args|
    requires forall i :: 0 <= i < |args| ==> Size(args[i]) < bound
    requires SerTupleElems(h, bound, args, vars, inVar, 0, g1).Done?
    ensures var g' := SerTupleElems(h, bound, args, vars, inVar, 0, g1).g.AddStatements(h.tuple(vars, outVar));
            && AssignsInOrder(Appended(g, g'), Positions(inVar, 0, |args|), g.indent)
            && EndsWith(Appended(g, g'), StatementLines(g.indent, h.tuple(vars, outVar)))
  {
    var o := SerTupleElems(h, bound, args, vars, inVar, 0, g1);
    SerTupleElemsStep(h, bound, args, vars, inVar, 0, g1);
    SerTupleElemsReads(h, bound, args, vars, inVar, 0, g1);
    TupleEnd(g, g1, o.g, Positions(inVar, 0, |args|), h.tuple(vars, outVar));
  }

  /** The fixed-tuple case of type_ (110-120): one fresh variable per
      element, taken in counter order before anything is emitted; element
      `i` is read from `in[i]`, in position order; and the case ends with
      what `tuple_` emits for exactly those variables, in order. */
  lemma SerFixedTupleShape(h: SerializerHooks, bound: nat, args: seq<TypeHint>, inVar: string, outVar: string, g: Gen)
    requires g.Valid()
    requires forall i :: 0 <= i < |args| ==> Size(args[i]) < bound
    requires SerFixedTuple(h, bound, args, inVar, outVar, g).Done?
    ensures var g' := SerFixedTuple(h, bound, args, inVar, outVar, g).g;
            && AssignsInOrder(Appended(g, g'), Positions(inVar, 0, |args|), g.indent)
            && EndsWith(Appended(g, g'), StatementLines(g.indent, h.tuple(FreshRun(g.varI, |args|), outVar)))
  {
    GetVarsRun(g, |args|);
    var (vars, g1) := g.GetVars(|args|);
    SerTupleBody(h, bound, args, vars, inVar, outVar, g, g1);
  }

  lemma {:induction false} DeserTupleElemsReads(h: DeserializerHooks, bound: nat, args: seq<TypeHint>, vars: seq<string>, inVar: string, k: nat, g: Gen)
    requires g.Valid()
    requires |vars| == |args| && k <= |args|
    requires forall i :: 0 <= i < |args| ==> Size(args[i]) < bound
    requires DeserTupleElems(h, bound, args, vars, inVar, k, g).Done?
    ensures AssignsInOrder(Appended(g, DeserTupleElems(h, bound, args, vars, inVar, k, g).g), Positions(inVar, k, |args|), g.indent)
    decreases |args| - k
  {
    if k < |args| {
      var r := DeserTupleElems(h, bound, args, vars, inVar, k, g);
      var a := g.AssignNew(Subscript(inVar, NatToString(k)));
      GrowsAssignNew(g, Subscript(inVar, NatToString(k)));
      var o := DeserAny(h, args[k], a.0, vars[k], a.1);
      DeserAnyStep(h, args[k], a.0, vars[k], a.1);
      assert r == if o.Raised? then o else DeserTupleElems(h, bound, args, vars, inVar, k + 1, o.g);
      var r2 := DeserTupleElems(h, bound, args, vars, inVar, k + 1, o.g);
      DeserTupleElemsStep(h, bound, args, vars, inVar, k + 1, o.g);
      DeserTupleElemsReads(h, bound, args, vars, inVar, k + 1, o.g);
      ElementReads(g, a.1, o.g, r2.g, Subscript(inVar, NatToString(k)), Positions(inVar, k + 1, |args|));
    }
  }

  /** The element loop and the hook of a fixed tuple, deserializing. */
  lemma DeserTupleBody(h: DeserializerHooks, bound: nat, c: Class, args: seq<TypeHint>, vars: seq<string>, inVar: string, outVar: string, g: Gen, g1: Gen)
    requires g1.Valid() && g1.statements == g.statements && g1.indent == g.indent
    requires |vars| == |args|
    requires forall i :: 0 <= i < |args| ==> Size(args[i]) < bound
    requires DeserTupleElems(h, bound, args, vars, inVar, 0, g1).Done?
    ensures var g' := DeserTupleElems(h, bound, args, vars, inVar, 0, g1).g.AddStatements(h.tuple(c, vars, outVar));
            && AssignsInOrder(Appended(g, g'), Positions(inVar, 0, |args|), g.indent)
            && EndsWith(Appended(g, g'), StatementLines(g.indent, h.tuple(c, vars, outVar)))
  {
    var o := DeserTupleElems(h, bound, args, vars, inVar, 0, g1);
    DeserTupleElemsStep(h, bound, args, vars, inVar, 0, g1);
    DeserTupleElemsReads(h, bound, args, vars, inVar, 0, g1);
    TupleEnd(g, g1, o.g, Positions(inVar, 0, |args|), h.tuple(c, vars, outVar));
  }

  /** The fixed-tuple case of type_ (215-225), deserializing: as for the
      serializer, and `tuple_` is also given the tuple class. */
  lemma DeserFixedTupleShape(h: DeserializerHooks, bound: nat, c: Class, args: seq<TypeHint>, inVar: string, outVar: string, g: Gen)
    requires g.Valid()
    requires forall i :: 0 <= i < |args| ==> Size(args[i]) < bound
    requires DeserFixedTuple(h, bound, c, args, inVar, outVar, g).Done?
    ensures var g' := DeserFixedTuple(h, bound, c, args, inVar, outVar, g).g;
            && AssignsInOrder(Appended(g, g'), Positions(inVar, 0, |args|), g.indent)
            && EndsWith(Appended(g, g'), StatementLines(g.indent, h.tuple(c, FreshRun(g.varI, |args|), outVar)))
  {
    GetVarsRun(g, |args|);
    var (vars, g1) := g.GetVars(|args|);
    DeserTupleBody(h, bound, c, args, vars, inVar, outVar, g, g1);
  }

  // ---------------------------------------------------------------------
  // Dispatch: which hints each generator rejects, and with which error.

  /** any (81-97): a hint that is not scalar, not a union and whose origin
      is not a class (`typing.Literal[...]`, `typing.Never`, `...`) is
      rejected as an unsupported type hint before anything is emitted. */
  lemma SerAnyNotClass(h: SerializerHooks, t: TypeHint, inVar: string, outVar: string, g: Gen)
    requires !h.isScalar(t) && !IsUnionBase(ReadTypeHint(t).0) && !ReadTypeHint(t).0.OClass?
    ensures SerAny(h, t, inVar, outVar, g) == Raised(TypeHintError, g)
  {
  }

  /** any (81-97): a hint whose origin is a class other than
      `types.UnionType` is handed to type_. */
  lemma SerAnyClass(h: SerializerHooks, t: TypeHint, c: Class, inVar: string, outVar: string, g: Gen)
    requires !h.isScalar(t) && ReadTypeHint(t).0 == OClass(c) && c != UnionTypeClass
    ensures SerAny(h, t, inVar, outVar, g) == SerType(h, t, c, ReadTypeHint(t).1, inVar, outVar, g)
  {
  }

  /** type_ (99-133): a class that is neither a mapping nor a collection
      other than `str` and `bytes` (a scalar class the hooks did not take,
      `datetime`, `str`, `bytes`) is rejected before anything is emitted. */
  lemma SerTypeUnsupported(h: SerializerHooks, t: TypeHint, c: Class, inVar: string, outVar: string, g: Gen)
    requires !h.isScalar(t) && ReadTypeHint(t).0 == OClass(c) && c != UnionTypeClass
    requires !c.isMapping && !(c.isCollection && !c.isStr && !c.isBytes)
    ensures SerAny(h, t, inVar, outVar, g) == Raised(SerializationError, g)
  {
    SerAnyClass(h, t, c, inVar, outVar, g);
  }

  /** The type arguments of a variable-length collection name exactly one
      element type: `C[T]` or `C[T, ...]` (where `T` is not itself `...`
      in the first form). */
  predicate OneElementType(args: seq<TypeHint>)
  {
    (|args| == 1 && args[0] != Ellipsis) || (|args| == 2 && args[1] == Ellipsis)
  }

  /** type_ (122-133): a variable-length collection compiles exactly when
      it names one element type; with no type argument at all `args[-1]`
      fails, and otherwise (several types, or only `...`) the hint is
      rejected. */
  lemma SerCollectionArity(h: SerializerHooks, t: TypeHint, c: Class, args: seq<TypeHint>, inVar: string, outVar: string, g: Gen)
    requires ReadTypeHint(t) == (OClass(c), args)
    requires !c.isMapping && c.isCollection && !c.isStr && !c.isBytes
    requires !IsFixedTuple(c, args)
    ensures |args| == 0 ==> SerType(h, t, c, args, inVar, outVar, g) == Raised(IndexError, g)
    ensures OneElementType(args) ==>
              SerType(h, t, c, args, inVar, outVar, g) == SerCollection(h, args[0], inVar, outVar, g)
    ensures |args| > 0 && !OneElementType(args) ==>
              SerType(h, t, c, args, inVar, outVar, g) == Raised(SerializationError, g)
  {
    if OneElementType(args) {
      assert |DropEllipsis(args)| == 1;
    } else if |args| > 0 {
      assert |DropEllipsis(args)| != 1;
    }
  }

  /** The same seen from any (81-133). */
  lemma SerCollectionDispatch(h: SerializerHooks, t: TypeHint, c: Class, inVar: string, outVar: string, g: Gen)
    requires !h.isScalar(t) && ReadTypeHint(t).0 == OClass(c) && c != UnionTypeClass
    requires !c.isMapping && c.isCollection && !c.isStr && !c.isBytes
    requires !IsFixedTuple(c, ReadTypeHint(t).1)
    ensures var args := ReadTypeHint(t).1;
            && (|args| == 0 ==> SerAny(h, t, inVar, outVar, g) == Raised(IndexError, g))
            && (OneElementType(args) ==> SerAny(h, t, inVar, outVar, g) == SerCollection(h, args[0], inVar, outVar, g))
            && (|args| > 0 && !OneElementType(args) ==> SerAny(h, t, inVar, outVar, g) == Raised(SerializationError, g))
  {
    SerAnyClass(h, t, c, inVar, outVar, g);
    SerCollectionArity(h, t, c, ReadTypeHint(t).1, inVar, outVar, g);
  }

  /** type_ (110-120): a `tuple` hint that is not `tuple[T, ...]` is
      compiled element by element: when it compiles, element `i` is read
      from `in[i]` in position order, and the code ends with what `tuple_`
      emits for one fresh variable per element. */
  lemma SerFixedTupleDispatch(h: SerializerHooks, t: TypeHint, inVar: string, outVar: string, g: Gen)
    requires g.Valid()
    requires !h.isScalar(t) && ReadTypeHint(t).0 == OClass(TupleClass)
    requires IsFixedTuple(TupleClass, ReadTypeHint(t).1)
    requires SerAny(h, t, inVar, outVar, g).Done?
    ensures var g' := SerAny(h, t, inVar, outVar, g).g;
            var n := |ReadTypeHint(t).1|;
            && AssignsInOrder(Appended(g, g'), Positions(inVar, 0, n), g.indent)
            && EndsWith(Appended(g, g'), StatementLines(g.indent, h.tuple(FreshRun(g.varI, n), outVar)))
  {
    var args := ReadTypeHint(t).1;
    SerAnyClass(h, t, TupleClass, inVar, outVar, g);
    SerTypeFixedTuple(h, t, args, inVar, outVar, g);
    SerFixedTupleShape(h, Size(t), args, inVar, outVar, g);
  }

  lemma SerTypeFixedTuple(h: SerializerHooks, t: TypeHint, args: seq<TypeHint>, inVar: string, outVar: string, g: Gen)
    requires ReadTypeHint(t) == (OClass(TupleClass), args) && IsFixedTuple(TupleClass, args)
    ensures && (forall i :: 0 <= i < |args| ==> Size(args[i]) < Size(t))
            && SerType(h, t, TupleClass, args, inVar, outVar, g) == SerFixedTuple(h, Size(t), args, inVar, outVar, g)
  {
    ReadTypeHintSmaller(t);
  }

  // ---------------------------------------------------------------------
  // Variable-length collections.

  lemma SerCollectionOpenTop(inVar: string, outVar: string, g: Gen)
    ensures AtIndent(Appended(g, SerCollectionOpen(inVar, outVar, g).1), g.indent)
         == [Assignment(outVar, "list(" + inVar + ")"),
             LiteralStatement("for " + VarName(g.varI) + ", " + VarName(g.varI + 1) + " in enumerate(" + outVar + "):")]
  {
    AppendedTwo(g, SerCollectionOpen(inVar, outVar, g).1, Assignment(outVar, "list(" + inVar + ")"),
      LiteralStatement("for " + VarName(g.varI) + ", " + VarName(g.varI + 1) + " in enumerate(" + outVar + "):"));
  }

  /** collection (50-57): `out` is bound to a list copy of the input and an
      `enumerate` loop walks that copy; at its own indent the case emits
      nothing else, and the loop body ends by storing the compiled element
      back at its position, `out[i] = v`. */
  lemma SerCollectionTop(h: SerializerHooks, elemType: TypeHint, inVar: string, outVar: string, g: Gen)
    requires g.Valid()
    requires SerCollection(h, elemType, inVar, outVar, g).Done?
    ensures var g' := SerCollection(h, elemType, inVar, outVar, g).g;
            var i, v := VarName(g.varI), VarName(g.varI + 1);
            && AtIndent(Appended(g, g'), g.indent)
               == [Assignment(outVar, "list(" + inVar + ")"),
                   LiteralStatement("for " + i + ", " + v + " in enumerate(" + outVar + "):")]
            && |g'.statements| >= 2
            && g'.statements[|g'.statements| - 2] == Line(g.indent + 1, Assignment(Subscript(outVar, i), v))
  {
    var (names, g1) := SerCollectionOpen(inVar, outVar, g);
    SerCollectionOpenStep(inVar, outVar, g);
    var o := SerAny(h, elemType, names[1], names[1], g1);
    SerAnyStep(h, elemType, names[1], names[1], g1);
    assert SerCollection(h, elemType, inVar, outVar, g) == Done(o.g.Assign(Subscript(outVar, names[0]), names[1]).Dedent());
    BlockEndingWithAssign(g, g1, o.g, Subscript(outVar, names[0]), names[1]);
    SerCollectionOpenTop(inVar, outVar, g);
  }

  lemma DeserCollectionOpenTop(c: Class, inVar: string, outVar: string, g: Gen)
    ensures AtIndent(Appended(g, DeserCollectionOpen(c, inVar, outVar, g).1), g.indent)
         == [Assignment(outVar, VarName(g.varI) + "(" + inVar + ")"),
             LiteralStatement("for " + VarName(g.varI + 1) + ", " + VarName(g.varI + 2) + " in enumerate(" + inVar + "):")]
  {
    AppendedTwo(g, DeserCollectionOpen(c, inVar, outVar, g).1, Assignment(outVar, VarName(g.varI) + "(" + inVar + ")"),
      LiteralStatement("for " + VarName(g.varI + 1) + ", " + VarName(g.varI + 2) + " in enumerate(" + inVar + "):"));
  }

  /** Closing the collection loop: what the case leaves at its own indent,
      whatever the loop body emitted before `out[i] = v`. */
  lemma DeserCollectionClose(c: Class, inVar: string, outVar: string, g: Gen, inner: Gen)
    requires Grows(DeserCollectionOpen(c, inVar, outVar, g).1, inner) && inner.indent == g.indent + 1
    ensures var cv, i, v := VarName(g.varI), VarName(g.varI + 1), VarName(g.varI + 2);
            var rest := inner.Assign(Subscript(outVar, i), v).Dedent();
            && AtIndent(Appended(g, rest), g.indent)
               == [Assignment(outVar, cv + "(" + inVar + ")"),
                   LiteralStatement("for " + i + ", " + v + " in enumerate(" + inVar + "):")]
            && |rest.statements| >= 2
            && rest.statements[|rest.statements| - 2] == Line(g.indent + 1, Assignment(Subscript(outVar, i), v))
            && cv in rest.consts && rest.consts[cv] == ObjectConst(OClass(c))
  {
    var start := DeserCollectionOpen(c, inVar, outVar, g).1;
    BlockEndingWithAssign(g, start, inner, Subscript(outVar, VarName(g.varI + 1)), VarName(g.varI + 2));
    DeserCollectionOpenTop(c, inVar, outVar, g);
    assert start.consts[VarName(g.varI)] == ObjectConst(OClass(c));
  }

  /** collection (165-174): the concrete class is registered as a constant,
      `out` is bound to an instance of it built from the input, and an
      `enumerate` loop walks the input; at its own indent the case emits
      nothing else, and the loop body ends with `out[i] = v`. */
  lemma DeserCollectionTop(h: DeserializerHooks, c: Class, elemType: TypeHint, inVar: string, outVar: string, g: Gen)
    requires g.Valid()
    requires DeserCollection(h, c, elemType, inVar, outVar, g).Done?
    ensures var g' := DeserCollection(h, c, elemType, inVar, outVar, g).g;
            var cv, i, v := VarName(g.varI), VarName(g.varI + 1), VarName(g.varI + 2);
            && AtIndent(Appended(g, g'), g.indent)
               == [Assignment(outVar, cv + "(" + inVar + ")"),
                   LiteralStatement("for " + i + ", " + v + " in enumerate(" + inVar + "):")]
            && |g'.statements| >= 2
            && g'.statements[|g'.statements| - 2] == Line(g.indent + 1, Assignment(Subscript(outVar, i), v))
            && cv in g'.consts && g'.consts[cv] == ObjectConst(OClass(c))
  {
    var r := DeserCollectionOpen(c, inVar, outVar, g);
    var names := r.0;
    DeserCollectionOpenStep(c, inVar, outVar, g);
    var o := DeserAny(h, elemType, names[1], names[1], r.1);
    DeserAnyStep(h, elemType, names[1], names[1], r.1);
    assert DeserCollection(h, c, elemType, inVar, outVar, g) == Done(o.g.Assign(Subscript(outVar, names[0]), names[1]).Dedent());
    DeserCollectionClose(c, inVar, outVar, g, o.g);
  }

  // ---------------------------------------------------------------------
  // Dispatch of the deserializer.

  /** any (186-202): as for the serializer, an origin that is not a class
      is rejected as an unsupported type hint. */
  lemma DeserAnyNotClass(h: DeserializerHooks, t: TypeHint, inVar: string, outVar: string, g: Gen)
    requires !h.isScalar(t) && !IsUnionBase(ReadTypeHint(t).0) && !ReadTypeHint(t).0.OClass?
    ensures DeserAny(h, t, inVar, outVar, g) == Raised(TypeHintError, g)
  {
  }

  /** any (186-202): a hint whose origin is a class other than
      `types.UnionType` is handed to type_. */
  lemma DeserAnyClass(h: DeserializerHooks, t: TypeHint, c: Class, inVar: string, outVar: string, g: Gen)
    requires !h.isScalar(t) && ReadTypeHint(t).0 == OClass(c) && c != UnionTypeClass
    ensures DeserAny(h, t, inVar, outVar, g) == DeserType(h, t, c, ReadTypeHint(t).1, inVar, outVar, g)
  {
  }

  /** type_ (204-238): the classes the serializer rejects are rejected
      here too. */
  lemma DeserTypeUnsupported(h: DeserializerHooks, t: TypeHint, c: Class, inVar: string, outVar: string, g: Gen)
    requires !h.isScalar(t) && ReadTypeHint(t).0 == OClass(c) && c != UnionTypeClass
    requires !c.isMapping && !(c.isCollection && !c.isStr && !c.isBytes)
    ensures DeserAny(h, t, inVar, outVar, g) == Raised(SerializationError, g)
  {
    DeserAnyClass(h, t, c, inVar, outVar, g);
  }

  /** type_ (227-238): the same arity rule for variable-length collections
      as the serializer's. */
  lemma DeserCollectionArity(h: DeserializerHooks, t: TypeHint, c: Class, args: seq<TypeHint>, inVar: string, outVar: string, g: Gen)
    requires ReadTypeHint(t) == (OClass(c), args)
    requires !c.isMapping && c.isCollection && !c.isStr && !c.isBytes
    requires !IsFixedTuple(c, args)
    ensures |args| == 0 ==> DeserType(h, t, c, args, inVar, outVar, g) == Raised(IndexError, g)
    ensures OneElementType(args) ==>
              DeserType(h, t, c, args, inVar, outVar, g) == DeserCollection(h, c, args[0], inVar, outVar, g)
    ensures |args| > 0 && !OneElementType(args) ==>
              DeserType(h, t, c, args, inVar, outVar, g) == Raised(SerializationError, g)
  {
    if OneElementType(args) {
      assert |DropEllipsis(args)| == 1;
    } else if |args| > 0 {
      assert |DropEllipsis(args)| != 1;
    }
  }

  lemma DeserCollectionDispatch(h: DeserializerHooks, t: TypeHint, c: Class, inVar: string, outVar: string, g: Gen)
    requires !h.isScalar(t) && ReadTypeHint(t).0 == OClass(c) && c != UnionTypeClass
    requires !c.isMapping && c.isCollection && !c.isStr && !c.isBytes
    requires !IsFixedTuple(c, ReadTypeHint(t).1)
    ensures var args := ReadTypeHint(t).1;
            && (|args| == 0 ==> DeserAny(h, t, inVar, outVar, g) == Raised(IndexError, g))
            && (OneElementType(args) ==> DeserAny(h, t, inVar, outVar, g) == DeserCollection(h, c, args[0], inVar, outVar, g))
            && (|args| > 0 && !OneElementType(args) ==> DeserAny(h, t, inVar, outVar, g) == Raised(SerializationError, g))
  {
    DeserAnyClass(h, t, c, inVar, outVar, g);
    DeserCollectionArity(h, t, c, ReadTypeHint(t).1, inVar, outVar, g);
  }

  /** type_ (215-225): a fixed `tuple` hint, deserializing: each element is
      read from `in[i]` in position order, and the code ends with what
      `tuple_` emits for the tuple class and one fresh variable per
      element. */
  lemma DeserFixedTupleDispatch(h: DeserializerHooks, t: TypeHint, inVar: string, outVar: string, g: Gen)
    requires g.Valid()
    requires !h.isScalar(t) && ReadTypeHint(t).0 == OClass(TupleClass)
    requires IsFixedTuple(TupleClass, ReadTypeHint(t).1)
    requires DeserAny(h, t, inVar, outVar, g).Done?
    ensures var g' := DeserAny(h, t, inVar, outVar, g).g;
            var n := |ReadTypeHint(t).1|;
            && AssignsInOrder(Appended(g, g'), Positions(inVar, 0, n), g.indent)
            && EndsWith(Appended(g, g'), StatementLines(g.indent, h.tuple(TupleClass, FreshRun(g.varI, n), outVar)))
  {
    var args := ReadTypeHint(t).1;
    DeserAnyClass(h, t, TupleClass, inVar, outVar, g);
    DeserTypeFixedTuple(h, t, args, inVar, outVar, g);
    DeserFixedTupleShape(h, Size(t), TupleClass, args, inVar, outVar, g);
  }

  lemma DeserTypeFixedTuple(h: DeserializerHooks, t: TypeHint, args: seq<TypeHint>, inVar: string, outVar: string, g: Gen)
    requires ReadTypeHint(t) == (OClass(TupleClass), args) && IsFixedTuple(TupleClass, args)
    ensures && (forall i :: 0 <= i < |args| ==> Size(args[i]) < Size(t))
            && DeserType(h, t, TupleClass, args, inVar, outVar, g) == DeserFixedTuple(h, Size(t), TupleClass, args, inVar, outVar, g)
  {
    ReadTypeHintSmaller(t);
  }
}
