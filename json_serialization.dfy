/** The JSON compilers of json_serialization.py (`issubclass_json_type`,
    `_compile_json_serializer`, `_compile_json_deserializer`) and the hook
    compilers of `SimpleSerializable` (serializable.py), which call back into
    them for every field.

    As in `TypeSerializer`, each compiler is a function from the builder
    state before to the `Outcome` after; `JsonCodegen` runs the same steps on
    a `CodeGenerator` object. */
module JsonSerialization {
  import opened Errors
  import opened Text
  import opened TypeHints
  import opened CodeGen
  import opened TypeSerializer
  import opened SerializeFields

  // ---------------------------------------------------------------------
  // issubclass_json_type (90-126)

  /** `tp in (str, int, float, bool, types.NoneType)`: a comparison by
      equality, so a subclass of `str` is not among them. */
  predicate IsSimpleJson(t: TypeHint)
  {
    t == Plain(StrClass) || t == Plain(IntClass) || t == Plain(FloatClass)
    || t == Plain(BoolClass) || t == Plain(NoneTypeClass)
  }

  /** Every argument `typing.get_args` reports is smaller than the hint. */
  lemma GetArgsSmaller(t: TypeHint)
    ensures forall i :: 0 <= i < |GetArgs(t)| ==> Size(GetArgs(t)[i]) < Size(t)
  {
    if t.Union? {
      NoneArgsSize(t.members);
    }
    forall i | 0 <= i < |GetArgs(t)| ensures Size(GetArgs(t)[i]) < Size(t) {
      SumSizesBound(GetArgs(t), i);
    }
  }

  /** issubclass_json_type (90-126). `issubclass` on an origin that is not a
      class (a special form such as `typing.Literal`) raises `TypeError`. */
  function IsJsonType(t: TypeHint): Result<bool>
    decreases Size(t), 1
  {
    if IsSimpleJson(t) then Ok(true)
    else if t == Plain(BytesClass) || t == Plain(BytearrayClass) then Ok(false)
    else
      var args := GetArgs(t);
      GetArgsSmaller(t);
      match GetOrigin(t)
      case None => Ok(false)
      case Some(origin) =>
        if origin == OTypingUnion || origin == OClass(UnionTypeClass) then AllJsonTypes(Size(t), args, 0)
        else if !origin.OClass? then Err(TypeError)
        else if origin.c.isMapping then
          if |args| != 2 then Ok(false)
          else if args[0] != Plain(StrClass) then Ok(false)
          else IsJsonType(args[1])
        else if origin.c.isCollection then
          if |args| == 0 then Ok(false)
          else if origin.c == TupleClass then
            if |args| == 2 && args[1] == Ellipsis then IsJsonType(args[0])
            else AllJsonTypes(Size(t), args, 0)
          else if |args| != 1 then Ok(false)
          else IsJsonType(args[0])
        else Ok(false)
  }

  /** `all(issubclass_json_type(a) for a in ts[k:])`, which stops at the
      first `False` (and raises what the first raising member raises). */
  function AllJsonTypes(bound: nat, ts: seq<TypeHint>, k: nat): Result<bool>
    requires k <= |ts|
    requires forall i :: 0 <= i < |ts| ==> Size(ts[i]) < bound
    decreases bound, 0, |ts| - k
  {
    if k == |ts| then Ok(true)
    else
      var native :- IsJsonType(ts[k]);
      if !native then Ok(false) else AllJsonTypes(bound, ts, k + 1)
  }

  // ---------------------------------------------------------------------
  // The hint both compilers dispatch on (141-151, 256-266)

  /** `tuple(arg for arg in args if arg is not types.NoneType)` */
  function WithoutNoneType(ts: seq<TypeHint>): (r: seq<TypeHint>)
    ensures SumSizes(r) <= SumSizes(ts)
    ensures Plain(NoneTypeClass) in ts ==> SumSizes(r) < SumSizes(ts)
    ensures forall i :: 0 <= i < |r| ==> r[i] in ts && r[i] != Plain(NoneTypeClass)
    ensures forall x :: x in ts && x != Plain(NoneTypeClass) ==> x in r
    decreases |ts|
  {
    if |ts| == 0 then []
    else
      var rest := WithoutNoneType(ts[1..]);
      assert forall x :: x in ts ==> x == ts[0] || x in ts[1..];
      if ts[0] == Plain(NoneTypeClass) then rest
      else
        assert ([ts[0]] + rest)[1..] == rest;
        [ts[0]] + rest
  }

  /** The hint after the optional-removal of lines 141-151: an `X | None`
      union (a `types.UnionType`; a `typing.Union` is left alone) loses its
      `NoneType` members and is rebuilt with `typing.Union[...]`, which gives
      the member itself when one is left and raises `TypeError` when none
      is. */
  function DispatchedHint(t: TypeHint): (r: Result<TypeHint>)
    ensures r.Ok? ==> Size(r.value) <= Size(t)
  {
    if t.Union? && t.spelling == PipeUnion && Plain(NoneTypeClass) in GetArgs(t) then
      var rest := WithoutNoneType(GetArgs(t));
      NoneArgsSize(t.members);
      if |rest| == 0 then Err(TypeError)
      else if |rest| == 1 then
        SumSizesBound(rest, 0);
        Ok(rest[0])
      else Ok(Union(rest, TypingUnion))
    else Ok(t)
  }

  /** `issubclass(args[0], str)`, which raises `TypeError` on anything that
      is not a class. */
  function IsStrSubclass(t: TypeHint): Result<bool>
  {
    match t
    case Plain(c) => Ok(c.isStr)
    case Record(c, _) => Ok(c.isStr)
    case _ => Err(TypeError)
  }

  /** `f"({', '.join(names)},)"` */
  function TupleLiteral(names: seq<string>): string
  {
    "(" + Join(names, ", ") + ",)"
  }

  /** The text both bytes branches emit (221, 335). */
  function B64Decode(inVar: string): string
  {
    "base64.b64decode(" + inVar + ".encode('utf-8'))"
  }

  const Quote: string := "'"
  const Comma: string := ", "
  const CloseParen: string := ")"
  const SetAttrCall: string := "object.__setattr__("
  const InitMethodCall: string := ".__deserialize_init__()"

  /** `repr` of a field name that is an identifier, which `repr` quotes
      with `'`. */
  function NameRepr(name: string): string
  {
    Quote + name + Quote
  }

  /** The literal `object.__setattr__(obj, 'name', value)` (194). */
  function SetAttr(obj: string, name: string, value: string): string
  {
    SetAttrCall + obj + Comma + NameRepr(name) + Comma + value + CloseParen
  }

  /** `f"{out} = {in}.copy()"` (170) */
  function CopyOf(outVar: string, inVar: string): string
  {
    outVar + " = " + inVar + ".copy()"
  }

  /** `f"{out} = {{}}"` (179) */
  function EmptyDict(outVar: string): string
  {
    outVar + " = {}"
  }

  /** `f"for {k}, {v} in {xs}.items():"` (171, 180, 287) */
  function ForItems(k: string, v: string, xs: string): string
  {
    "for " + k + ", " + v + " in " + xs + ".items():"
  }

  /** `f"for {e} in {xs}:"` (325) */
  function ForEach(e: string, xs: string): string
  {
    "for " + e + " in " + xs + ":"
  }

  /** `f"{f}({arg})"`: a call with one argument, or none when `arg` is empty. */
  function Call(f: string, arg: string): string
  {
    f + "(" + arg + ")"
  }

  /** `f"{xs}.append({e})"` (329) */
  function AppendCall(xs: string, e: string): string
  {
    xs + ".append(" + e + ")"
  }

  /** `f"{C}.__new__({C})"` (188) */
  function NewInstance(classVar: string): string
  {
    classVar + ".__new__(" + classVar + ")"
  }

  /** `f"{obj}.__deserialize_init__()"` (serializable.py:196) */
  function InitCall(obj: string): string
  {
    obj + InitMethodCall
  }

  // ---------------------------------------------------------------------
  // _compile_json_serializer (129-243) and SimpleSerializable's hook
  // serializer (serializable.py:156-174)

  /** _compile_json_serializer (129-243) */
  function SerJson(t: TypeHint, inVar: string, outVar: string, g: Gen): Outcome
    decreases Size(t), 3
  {
    match IsJsonType(t)
    case Err(e) => Raised(e, g)
    case Ok(native) =>
      if native then Done(g.Assign(outVar, inVar))
      else
        match DispatchedHint(t)
        case Err(e) => Raised(e, g)
        case Ok(t') =>
          match Base(t')
          case OClass(c) => SerJsonClass(t', c, inVar, outVar, g)
          case _ => Raised(SerializationError, g)
  }

  /** The class cases of the serializer (156-243), in the source's order. */
  function SerJsonClass(t: TypeHint, c: Class, inVar: string, outVar: string, g: Gen): Outcome
    requires Base(t) == OClass(c)
    decreases Size(t), 2
  {
    var args := GetArgs(t);
    GetArgsSmaller(t);
    if c.isJsonScalar then Done(g.Assign(outVar, inVar))
    else if c.isMapping then
      if |args| != 2 then Raised(DeserializationError, g)
      else SerJsonMappingCase(Size(t), args[0], args[1], inVar, outVar, g)
    else if c.isCollection then
      if IsFixedTuple(c, args) then SerJsonTupleElems(Size(t), args, outVar, 0, [], g)
      else if |args| == 0 then Raised(IndexError, g)
      else if |DropEllipsis(args)| != 1 then Raised(DeserializationError, g)
      else SerJsonCollection(Size(t), args[0], inVar, outVar, g)
    else SerJsonOther(t, c, inVar, outVar, g)
  }

  /** The class cases after the containers (219-243): `bytes`, `datetime`,
      a class with its own hooks, and the error for everything else. With
      pydantic installed and no hint a pydantic model class, the pydantic
      tests (235-241) pass over every class. */
  function SerJsonOther(t: TypeHint, c: Class, inVar: string, outVar: string, g: Gen): Outcome
    decreases Size(t), 2, 0
  {
    if c.isBytes then Done(g.EnsureImport("base64").Assign(outVar, B64Decode(inVar)))
    else if c.isDatetime then Done(g.Assign(outVar, inVar + ".isoformat()"))
    else if t.Record? then RecordSer(t.cls, t.decl, inVar, outVar, g)
    else Raised(SerializationError, g)
  }

  /** Two literals, the second a loop header, and the loop's indent. */
  function OpenLoop(g: Gen, first: string, header: string): (g1: Gen)
    ensures g1.statements == g.statements + [Line(g.indent, LiteralStatement(first)), Line(g.indent, LiteralStatement(header))]
    ensures g1.indent == g.indent + 1 && g1.consts == g.consts && g1.varI == g.varI && g1.defaultCount == g.defaultCount
  {
    g.Literal([first]).Literal([header]).Indent()
  }

  /** The `str`-keyed mapping case (168-175): `out` is a copy of the input
      and each value is recompiled in place, with the key type. */
  function SerJsonStrMapping(bound: nat, keyType: TypeHint, inVar: string, outVar: string, k: string, v: string, g: Gen): Outcome
    requires Size(keyType) < bound
    decreases bound, 1, 0
  {
    var g1 := OpenLoop(g, CopyOf(outVar, inVar), ForItems(k, v, outVar));
    var g2 :- SerJson(keyType, v, v, g1);
    Done(g2.Assign(Subscript(outVar, k), v).Dedent())
  }

  /** The other mapping case (176-186): a new dict, each key and value
      compiled into it. */
  function SerJsonMapping(bound: nat, keyType: TypeHint, valueType: TypeHint, inVar: string, outVar: string, k: string, v: string, g: Gen): Outcome
    requires Size(keyType) < bound && Size(valueType) < bound
    decreases bound, 1, 0
  {
    var g1 := OpenLoop(g, EmptyDict(outVar), ForItems(k, v, inVar));
    var g2 :- SerJson(keyType, k, k, g1);
    var g3 :- SerJson(valueType, v, v, g2);
    Done(g3.Assign(Subscript(outVar, k), v).Dedent())
  }

  /** The loop of the fixed-tuple case (189-197) from element `k` on; `acc`
      holds the variables of the elements before `k`. Element `k` is read
      from `out[k]`. */
  function SerJsonTupleElems(bound: nat, args: seq<TypeHint>, outVar: string, k: nat, acc: seq<string>, g: Gen): Outcome
    requires k <= |args|
    requires forall i :: 0 <= i < |args| ==> Size(args[i]) < bound
    decreases bound, 1, |args| - k
  {
    if k == |args| then Done(g.Assign(outVar, TupleLiteral(acc)))
    else
      var (v, g1) := g.GetVar();
      var g2 :- SerJson(args[k], Subscript(outVar, NatToString(k)), v, g1);
      SerJsonTupleElems(bound, args, outVar, k + 1, acc + [v], g2)
  }

  /** The sequence case (198-217), the same loop the generic serializer's
      collection case emits. */
  function SerJsonCollection(bound: nat, elemType: TypeHint, inVar: string, outVar: string, g: Gen): Outcome
    requires Size(elemType) < bound
    decreases bound, 1, 0
  {
    var (names, g1) := SerCollectionOpen(inVar, outVar, g);
    var g2 :- SerJson(elemType, names[1], names[1], g1);
    Done(g2.Assign(Subscript(outVar, names[0]), names[1]).Dedent())
  }

  /** Every selected field's type is smaller than the record hint. */
  lemma RecordFieldsSmaller(c: Class, decl: RecordDecl)
    ensures HintsBelow(SelectFields(decl), Size(Record(c, decl)))
  {
    SelectedHintsSmaller(decl);
  }

  /** SimpleSerializable._compile_json_serializer (serializable.py:156-174) */
  function RecordSer(c: Class, decl: RecordDecl, inVar: string, outVar: string, g: Gen): Outcome
    decreases Size(Record(c, decl)), 1
  {
    RecordFieldsSmaller(c, decl);
    RecordSerFields(Size(Record(c, decl)), SelectFields(decl), inVar, outVar, 0, [], g)
  }

  /** The field loop of the hook serializer (166-172) from field `k` on, then
      the tuple of the field variables (174). */
  function RecordSerFields(bound: nat, fields: seq<Entry>, inVar: string, outVar: string, k: nat, acc: seq<string>, g: Gen): Outcome
    requires k <= |fields| && HintsBelow(fields, bound)
    decreases bound, 0, |fields| - k
  {
    if k == |fields| then Done(g.Assign(outVar, TupleLiteral(acc)))
    else
      var (tmp, g1) := g.GetVar();
      var g2 :- SerJson(fields[k].hint, tmp, tmp, g1.Assign(tmp, inVar + "." + fields[k].name));
      RecordSerFields(bound, fields, inVar, outVar, k + 1, acc + [tmp], g2)
  }

  // ---------------------------------------------------------------------
  // _compile_json_deserializer (246-359) and SimpleSerializable's hook
  // deserializer (serializable.py:176-198)

  /** _compile_json_deserializer (246-359) */
  function DeserJson(t: TypeHint, inVar: string, outVar: string, g: Gen): Outcome
    decreases Size(t), 3
  {
    match IsJsonType(t)
    case Err(e) => Raised(e, g)
    case Ok(native) =>
      if native then Done(g.Assign(outVar, inVar))
      else
        match DispatchedHint(t)
        case Err(e) => Raised(e, g)
        case Ok(t') =>
          match Base(t')
          case OClass(c) => DeserJsonClass(t', c, inVar, outVar, g)
          case _ => Raised(DeserializationError, g)
  }

  /** The class cases of the deserializer (271-359). Only `tuple` itself is
      a fixed tuple, so the `base_class is not tuple` steps (296-297,
      306-307) never run. */
  function DeserJsonClass(t: TypeHint, c: Class, inVar: string, outVar: string, g: Gen): Outcome
    requires Base(t) == OClass(c)
    decreases Size(t), 2
  {
    var args := GetArgs(t);
    GetArgsSmaller(t);
    if c.isJsonScalar then Done(g.Assign(outVar, inVar))
    else if c.isMapping then
      if |args| != 2 then Raised(DeserializationError, g)
      else DeserJsonMapping(Size(t), c, args[0], args[1], inVar, outVar, g)
    else if c.isCollection then
      if IsFixedTuple(c, args) then DeserJsonTupleElems(Size(t), args, inVar, outVar, 0, [], g)
      else if |args| == 0 then Raised(IndexError, g)
      else if |DropEllipsis(args)| != 1 then Raised(DeserializationError, g)
      else DeserJsonCollection(Size(t), c, args[0], inVar, outVar, g)
    else DeserJsonOther(t, c, inVar, outVar, g)
  }

  /** The class cases after the containers (333-359): `bytes`, `datetime`,
      a class with its own hooks, and the error for everything else. With
      pydantic installed and no hint a pydantic model class, the pydantic
      test (353-357) passes over every class. */
  function DeserJsonOther(t: TypeHint, c: Class, inVar: string, outVar: string, g: Gen): Outcome
    decreases Size(t), 2, 0
  {
    if c.isBytes then Done(g.EnsureImport("base64").Assign(outVar, B64Decode(inVar)))
    else if c.isDatetime then
      Done(g.EnsureImport("datetime").Assign(outVar, "datetime.datetime.fromisoformat(" + inVar + ")"))
    else if t.Record? then RecordDeser(t.cls, t.decl, inVar, outVar, g)
    else Raised(DeserializationError, g)
  }

  /** The start of the mapping case (280-287): the class as a constant, two
      fresh names, `out` bound to an empty instance, the loop header. */
  function DeserJsonMappingOpen(c: Class, inVar: string, outVar: string, g: Gen): (r: (seq<string>, Gen))
    ensures r.0 == [VarName(g.varI + 1), VarName(g.varI + 2)]
    ensures r.1.statements == g.statements
              + [Line(g.indent, Assignment(outVar, Call(VarName(g.varI), ""))),
                 Line(g.indent, LiteralStatement(ForItems(VarName(g.varI + 1), VarName(g.varI + 2), inVar)))]
    ensures r.1.indent == g.indent + 1 && r.1.varI == g.varI + 3 && r.1.defaultCount == g.defaultCount
    ensures r.1.consts == g.consts[VarName(g.varI) := ObjectConst(OClass(c))]
  {
    var (classVar, g1) := g.GetConst(OClass(c));
    var (names, g2) := g1.GetVars(2);
    (names, g2.Assign(outVar, Call(classVar, ""))
              .Literal([ForItems(names[0], names[1], inVar)])
              .Indent())
  }

  /** The mapping case (275-292). */
  function DeserJsonMapping(bound: nat, c: Class, keyType: TypeHint, valueType: TypeHint, inVar: string, outVar: string, g: Gen): Outcome
    requires Size(keyType) < bound && Size(valueType) < bound
    decreases bound, 1, 0
  {
    var (names, g1) := DeserJsonMappingOpen(c, inVar, outVar, g);
    var g2 :- DeserJson(keyType, names[0], names[0], g1);
    var g3 :- DeserJson(valueType, names[1], names[1], g2);
    Done(g3.Assign(Subscript(outVar, names[0]), names[1]).Dedent())
  }

  /** The loop of the fixed-tuple case (299-305) from element `k` on;
      element `k` is read from `in[k]`. */
  function DeserJsonTupleElems(bound: nat, args: seq<TypeHint>, inVar: string, outVar: string, k: nat, acc: seq<string>, g: Gen): Outcome
    requires k <= |args|
    requires forall i :: 0 <= i < |args| ==> Size(args[i]) < bound
    decreases bound, 1, |args| - k
  {
    if k == |args| then Done(g.Assign(outVar, TupleLiteral(acc)))
    else
      var (v, g1) := g.GetVar();
      var g2 :- DeserJson(args[k], Subscript(inVar, NatToString(k)), v, g1);
      DeserJsonTupleElems(bound, args, inVar, outVar, k + 1, acc + [v], g2)
  }

  /** The start of the sequence case (319-326): the class as a constant, a
      fresh element name, `out` bound to an empty list, the loop header. */
  function DeserJsonCollectionOpen(c: Class, inVar: string, outVar: string, g: Gen): (r: (string, string, Gen))
    ensures r.0 == VarName(g.varI) && r.1 == VarName(g.varI + 1)
    ensures r.2.statements == g.statements
              + [Line(g.indent, Assignment(outVar, "[]")), Line(g.indent, LiteralStatement(ForEach(r.1, inVar)))]
    ensures r.2.indent == g.indent + 1 && r.2.varI == g.varI + 2 && r.2.defaultCount == g.defaultCount
    ensures r.2.consts == g.consts[VarName(g.varI) := ObjectConst(OClass(c))]
  {
    var (classVar, g1) := g.GetConst(OClass(c));
    var (e, g2) := g1.GetVar();
    (classVar, e, g2.Assign(outVar, "[]").Literal([ForEach(e, inVar)]).Indent())
  }

  /** The sequence case (310-331): the elements are appended to a list,
      which is then converted to the concrete class. */
  function DeserJsonCollection(bound: nat, c: Class, elemType: TypeHint, inVar: string, outVar: string, g: Gen): Outcome
    requires Size(elemType) < bound
    decreases bound, 1, 0
  {
    var (classVar, e, g1) := DeserJsonCollectionOpen(c, inVar, outVar, g);
    var g2 :- DeserJson(elemType, e, e, g1);
    Done(g2.Literal([AppendCall(outVar, e)]).Dedent().Assign(outVar, Call(classVar, outVar)))
  }

  /** SimpleSerializable._compile_json_deserializer (serializable.py:176-198):
      the class as a constant, an instance made with `__new__`, the fields. */
  function RecordDeser(c: Class, decl: RecordDecl, inVar: string, outVar: string, g: Gen): Outcome
    decreases Size(Record(c, decl)), 1
  {
    RecordFieldsSmaller(c, decl);
    var start := RecordDeserOpen(c, g);
    RecordDeserFields(Size(Record(c, decl)), SelectFields(decl), inVar, outVar, start.0, 0, start.1)
  }

  /** The start of the hook deserializer (183-188): the class as a constant
      and a fresh variable bound to `Class.__new__(Class)`. */
  function RecordDeserOpen(c: Class, g: Gen): (string, Gen)
  {
    var (classVar, g1) := g.GetConst(OClass(c));
    var (tmp, g2) := g1.GetVar();
    (tmp, g2.Assign(tmp, NewInstance(classVar)))
  }

  /** The field loop of the hook deserializer (190-194) from field `k` on,
      then `__deserialize_init__` and the binding of `out` (196-198). */
  function RecordDeserFields(bound: nat, fields: seq<Entry>, inVar: string, outVar: string, obj: string, k: nat, g: Gen): Outcome
    requires k <= |fields| && HintsBelow(fields, bound)
    decreases bound, 0, |fields| - k
  {
    if k == |fields| then Done(g.Literal([InitCall(obj)]).Assign(outVar, obj))
    else
      var (tmp, g1) := g.GetVar();
      var g2 :- DeserJson(fields[k].hint, Subscript(inVar, NatToString(k)), tmp, g1);
      RecordDeserFields(bound, fields, inVar, outVar, obj, k + 1, g2.Literal([SetAttr(obj, fields[k].name, tmp)]))
  }

  // ---------------------------------------------------------------------
  // Entry points (362-391), builder part

  /** What `CodeGenerator.compile` is given: the rendered source and the
      constant table the routine runs with. */
  datatype Compiled = Compiled(source: string, consts: map<string, Const>)

  function Finish(o: Outcome): Result<Compiled>
  {
    match o
    case Raised(e, _) => Err(e)
    case Done(g) => Ok(Compiled(Render(g.statements), g.consts))
  }

  /** compile_json_serializer (362-375): a fresh builder, input `inp`, output
      `out`. `defaultCount` is what `get_vars()` returns without an
      argument. */
  function CompileJsonSerializer(t: TypeHint, defaultCount: nat): Result<Compiled>
  {
    Finish(SerJson(t, "inp", "out", Gen.Empty(defaultCount)))
  }

  /** compile_json_deserializer (378-391) */
  function CompileJsonDeserializer(t: TypeHint, defaultCount: nat): Result<Compiled>
  {
    Finish(DeserJson(t, "inp", "out", Gen.Empty(defaultCount)))
  }

  // ---------------------------------------------------------------------
  // Both compilers and both hooks are build steps: they only append, never
  // outside the block they started in, keep every constant binding and the
  // builder's validity, and a compile that completes is back at the indent
  // it started at.

  /** A state change that stays at the same indent, then a step. */
  lemma StepAfter(g: Gen, g1: Gen, o: Outcome)
    requires Grows(g, g1) && g1.indent == g.indent && Step(g1, o)
    ensures Step(g, o)
  {
    GrowsTrans(g, g1, o.g);
  }

  /** An opened block whose body completed, closed by `out[k] = v` and the
      dedent. */
  lemma CloseAssignBlock(g: Gen, g1: Gen, inner: Gen, left: string, right: string)
    requires Grows(g, g1) && g1.indent == g.indent + 1
    requires Grows(g1, inner) && inner.indent == g1.indent
    ensures Step(g, Done(inner.Assign(left, right).Dedent()))
  {
    GrowsTrans(g, g1, inner);
    var body := inner.Assign(left, right);
    GrowsAssign(inner, left, right);
    GrowsTrans(g, inner, body);
    GrowsDedent(body);
    CloseBranch(g, body, Done(body.Dedent()));
  }

  lemma OpenLoopStep(g: Gen, first: string, header: string)
    requires g.Valid()
    ensures Grows(g, OpenLoop(g, first, header))
  {
  }

  /** A loop whose body is one compile, closed by `left = right` and the
      dedent. */
  lemma OneBodyLoop(g: Gen, g1: Gen, o: Outcome, left: string, right: string)
    requires Grows(g, g1) && g1.indent == g.indent + 1 && Step(g1, o)
    ensures Step(g, if o.Raised? then o else Done(o.g.Assign(left, right).Dedent()))
  {
    if o.Raised? {
      GrowsTrans(g, g1, o.g);
    } else {
      CloseAssignBlock(g, g1, o.g, left, right);
    }
  }

  /** A loop whose body is two compiles, closed by `left = right` and the
      dedent. */
  lemma TwoBodyLoop(g: Gen, g1: Gen, o1: Outcome, o2: Outcome, left: string, right: string)
    requires Grows(g, g1) && g1.indent == g.indent + 1 && Step(g1, o1)
    requires o1.Done? ==> Step(o1.g, o2)
    ensures Step(g, if o1.Raised? then o1 else if o2.Raised? then o2 else Done(o2.g.Assign(left, right).Dedent()))
  {
    if o1.Raised? {
      GrowsTrans(g, g1, o1.g);
    } else {
      GrowsTrans(g1, o1.g, o2.g);
      OneBodyLoop(g, g1, o2, left, right);
    }
  }

  /** The modules the compilers import cannot be mistaken for counter
      names. */
  lemma ImportNamesAreNotVars()
    ensures |"base64"| >= 3 && "base64"[..3] != "var"
    ensures |"datetime"| >= 3 && "datetime"[..3] != "var"
  {
    assert "base64"[..3] == "bas";
    assert "datetime"[..3] == "dat";
  }

  /** `ensure_import` of a module whose name is not a counter name, then
      one assignment. */
  lemma ImportThenAssign(g: Gen, moduleName: string, left: string, right: string)
    requires g.Valid() && |moduleName| >= 3 && moduleName[..3] != "var"
    ensures Step(g, Done(g.EnsureImport(moduleName).Assign(left, right)))
  {
    var g1 := g.EnsureImport(moduleName);
    GrowsEnsureImport(g, moduleName);
    GrowsAssign(g1, left, right);
    GrowsTrans(g, g1, g1.Assign(left, right));
  }

  lemma {:induction false} SerJsonStep(t: TypeHint, inVar: string, outVar: string, g: Gen)
    requires g.Valid()
    ensures Step(g, SerJson(t, inVar, outVar, g))
    decreases Size(t), 3
  {
    match IsJsonType(t)
    case Err(_) =>
    case Ok(native) =>
      if native {
        GrowsAssign(g, outVar, inVar);
      } else {
        match DispatchedHint(t)
        case Err(_) =>
        case Ok(t') =>
          match Base(t')
          case OClass(c) => SerJsonClassStep(t', c, inVar, outVar, g);
          case _ =>
      }
  }

  lemma {:induction false} SerJsonClassStep(t: TypeHint, c: Class, inVar: string, outVar: string, g: Gen)
    requires g.Valid()
    requires Base(t) == OClass(c)
    ensures Step(g, SerJsonClass(t, c, inVar, outVar, g))
    decreases Size(t), 2
  {
    var args := GetArgs(t);
    GetArgsSmaller(t);
    if c.isJsonScalar {
      GrowsAssign(g, outVar, inVar);
    } else if c.isMapping {
      if |args| == 2 {
        SerJsonMappingCaseStep(Size(t), args[0], args[1], inVar, outVar, g);
      }
    } else if c.isCollection {
      if IsFixedTuple(c, args) {
        SerJsonTupleElemsStep(Size(t), args, outVar, 0, [], g);
      } else if |args| != 0 && |DropEllipsis(args)| == 1 {
        SerJsonCollectionStep(Size(t), args[0], inVar, outVar, g);
      }
    } else {
      SerJsonOtherStep(t, c, inVar, outVar, g);
    }
  }

  lemma {:induction false} SerJsonOtherStep(t: TypeHint, c: Class, inVar: string, outVar: string, g: Gen)
    requires g.Valid()
    ensures Step(g, SerJsonOther(t, c, inVar, outVar, g))
    decreases Size(t), 2, 0
  {
    if c.isBytes {
      ImportNamesAreNotVars();
      ImportThenAssign(g, "base64", outVar, B64Decode(inVar));
    } else if c.isDatetime {
      GrowsAssign(g, outVar, inVar + ".isoformat()");
    } else if t.Record? {
      RecordSerStep(t.cls, t.decl, inVar, outVar, g);
    }
  }

  /** The mapping case of the serializer once the arity is checked
      (166-186). */
  function SerJsonMappingCase(bound: nat, keyType: TypeHint, valueType: TypeHint, inVar: string, outVar: string, g: Gen): Outcome
    requires Size(keyType) < bound && Size(valueType) < bound
    decreases bound, 1, 1
  {
    var (unpacked, k, v, g1) := UnpackTwo(g);
    if !unpacked then Raised(UnpackError, g1)
    else
      match IsStrSubclass(keyType)
      case Err(e) => Raised(e, g1)
      case Ok(strKeys) =>
        if strKeys then SerJsonStrMapping(bound, keyType, inVar, outVar, k, v, g1)
        else SerJsonMapping(bound, keyType, valueType, inVar, outVar, k, v, g1)
  }

  /** `k, v = codegen.get_vars()`: whether the names unpack into two, the
      two names, and the state after the call. */
  function UnpackTwo(g: Gen): (r: (bool, string, string, Gen))
  {
    var (names, g1) := g.GetVars(g.defaultCount);
    if |names| == 2 then (true, names[0], names[1], g1) else (false, "", "", g1)
  }

  lemma {:induction false} SerJsonMappingCaseStep(bound: nat, keyType: TypeHint, valueType: TypeHint, inVar: string, outVar: string, g: Gen)
    requires g.Valid()
    requires Size(keyType) < bound && Size(valueType) < bound
    ensures Step(g, SerJsonMappingCase(bound, keyType, valueType, inVar, outVar, g))
    decreases bound, 1, 1
  {
    var (unpacked, k, v, g1) := UnpackTwo(g);
    GrowsGetVars(g, g.defaultCount);
    if unpacked && IsStrSubclass(keyType).Ok? {
      if IsStrSubclass(keyType).value {
        SerJsonStrMappingStep(bound, keyType, inVar, outVar, k, v, g1);
        StepAfter(g, g1, SerJsonStrMapping(bound, keyType, inVar, outVar, k, v, g1));
      } else {
        SerJsonMappingStep(bound, keyType, valueType, inVar, outVar, k, v, g1);
        StepAfter(g, g1, SerJsonMapping(bound, keyType, valueType, inVar, outVar, k, v, g1));
      }
    }
  }

  lemma {:induction false} SerJsonStrMappingStep(bound: nat, keyType: TypeHint, inVar: string, outVar: string, k: string, v: string, g: Gen)
    requires g.Valid()
    requires Size(keyType) < bound
    ensures Step(g, SerJsonStrMapping(bound, keyType, inVar, outVar, k, v, g))
    decreases bound, 1, 0
  {
    var g1 := OpenLoop(g, CopyOf(outVar, inVar), ForItems(k, v, outVar));
    OpenLoopStep(g, CopyOf(outVar, inVar), ForItems(k, v, outVar));
    var o := SerJson(keyType, v, v, g1);
    SerJsonStep(keyType, v, v, g1);
    OneBodyLoop(g, g1, o, Subscript(outVar, k), v);
  }

  lemma {:induction false} SerJsonMappingStep(bound: nat, keyType: TypeHint, valueType: TypeHint, inVar: string, outVar: string, k: string, v: string, g: Gen)
    requires g.Valid()
    requires Size(keyType) < bound && Size(valueType) < bound
    ensures Step(g, SerJsonMapping(bound, keyType, valueType, inVar, outVar, k, v, g))
    decreases bound, 1, 0
  {
    var g1 := OpenLoop(g, EmptyDict(outVar), ForItems(k, v, inVar));
    OpenLoopStep(g, EmptyDict(outVar), ForItems(k, v, inVar));
    var o1 := SerJson(keyType, k, k, g1);
    SerJsonStep(keyType, k, k, g1);
    var o2 := SerJson(valueType, v, v, o1.g);
    if o1.Done? {
      SerJsonStep(valueType, v, v, o1.g);
    }
    TwoBodyLoop(g, g1, o1, o2, Subscript(outVar, k), v);
  }

  lemma {:induction false} SerJsonTupleElemsStep(bound: nat, args: seq<TypeHint>, outVar: string, k: nat, acc: seq<string>, g: Gen)
    requires g.Valid()
    requires k <= |args|
    requires forall i :: 0 <= i < |args| ==> Size(args[i]) < bound
    ensures Step(g, SerJsonTupleElems(bound, args, outVar, k, acc, g))
    decreases bound, 1, |args| - k
  {
    if k == |args| {
      GrowsAssign(g, outVar, TupleLiteral(acc));
    } else {
      var (v, g1) := g.GetVar();
      GrowsGetVar(g);
      var o := SerJson(args[k], Subscript(outVar, NatToString(k)), v, g1);
      SerJsonStep(args[k], Subscript(outVar, NatToString(k)), v, g1);
      GrowsTrans(g, g1, o.g);
      if o.Done? {
        SerJsonTupleElemsStep(bound, args, outVar, k + 1, acc + [v], o.g);
        StepAfter(g, o.g, SerJsonTupleElems(bound, args, outVar, k + 1, acc + [v], o.g));
      }
    }
  }

  lemma {:induction false} SerJsonCollectionStep(bound: nat, elemType: TypeHint, inVar: string, outVar: string, g: Gen)
    requires g.Valid()
    requires Size(elemType) < bound
    ensures Step(g, SerJsonCollection(bound, elemType, inVar, outVar, g))
    decreases bound, 1, 0
  {
    var (names, g1) := SerCollectionOpen(inVar, outVar, g);
    SerCollectionOpenStep(inVar, outVar, g);
    var o := SerJson(elemType, names[1], names[1], g1);
    SerJsonStep(elemType, names[1], names[1], g1);
    OneBodyLoop(g, g1, o, Subscript(outVar, names[0]), names[1]);
  }

  lemma {:induction false} RecordSerStep(c: Class, decl: RecordDecl, inVar: string, outVar: string, g: Gen)
    requires g.Valid()
    ensures Step(g, RecordSer(c, decl, inVar, outVar, g))
    decreases Size(Record(c, decl)), 1
  {
    RecordFieldsSmaller(c, decl);
    RecordSerFieldsStep(Size(Record(c, decl)), SelectFields(decl), inVar, outVar, 0, [], g);
  }

  lemma {:induction false} RecordSerFieldsStep(bound: nat, fields: seq<Entry>, inVar: string, outVar: string, k: nat, acc: seq<string>, g: Gen)
    requires g.Valid()
    requires k <= |fields| && HintsBelow(fields, bound)
    ensures Step(g, RecordSerFields(bound, fields, inVar, outVar, k, acc, g))
    decreases bound, 0, |fields| - k
  {
    if k == |fields| {
      GrowsAssign(g, outVar, TupleLiteral(acc));
    } else {
      var (tmp, g1) := g.GetVar();
      GrowsGetVar(g);
      var ga := g1.Assign(tmp, inVar + "." + fields[k].name);
      GrowsAssign(g1, tmp, inVar + "." + fields[k].name);
      GrowsTrans(g, g1, ga);
      var o := SerJson(fields[k].hint, tmp, tmp, ga);
      SerJsonStep(fields[k].hint, tmp, tmp, ga);
      GrowsTrans(g, ga, o.g);
      if o.Done? {
        RecordSerFieldsStep(bound, fields, inVar, outVar, k + 1, acc + [tmp], o.g);
        StepAfter(g, o.g, RecordSerFields(bound, fields, inVar, outVar, k + 1, acc + [tmp], o.g));
      }
    }
  }

  lemma {:induction false} DeserJsonStep(t: TypeHint, inVar: string, outVar: string, g: Gen)
    requires g.Valid()
    ensures Step(g, DeserJson(t, inVar, outVar, g))
    decreases Size(t), 3
  {
    match IsJsonType(t)
    case Err(_) =>
    case Ok(native) =>
      if native {
        GrowsAssign(g, outVar, inVar);
      } else {
        match DispatchedHint(t)
        case Err(_) =>
        case Ok(t') =>
          match Base(t')
          case OClass(c) => DeserJsonClassStep(t', c, inVar, outVar, g);
          case _ =>
      }
  }

  lemma {:induction false} DeserJsonClassStep(t: TypeHint, c: Class, inVar: string, outVar: string, g: Gen)
    requires g.Valid()
    requires Base(t) == OClass(c)
    ensures Step(g, DeserJsonClass(t, c, inVar, outVar, g))
    decreases Size(t), 2
  {
    var args := GetArgs(t);
    GetArgsSmaller(t);
    if c.isJsonScalar {
      GrowsAssign(g, outVar, inVar);
    } else if c.isMapping {
      if |args| == 2 {
        DeserJsonMappingStep(Size(t), c, args[0], args[1], inVar, outVar, g);
      }
    } else if c.isCollection {
      if IsFixedTuple(c, args) {
        DeserJsonTupleElemsStep(Size(t), args, inVar, outVar, 0, [], g);
      } else if |args| != 0 && |DropEllipsis(args)| == 1 {
        DeserJsonCollectionStep(Size(t), c, args[0], inVar, outVar, g);
      }
    } else {
      DeserJsonOtherStep(t, c, inVar, outVar, g);
    }
  }

  lemma {:induction false} DeserJsonOtherStep(t: TypeHint, c: Class, inVar: string, outVar: string, g: Gen)
    requires g.Valid()
    ensures Step(g, DeserJsonOther(t, c, inVar, outVar, g))
    decreases Size(t), 2, 0
  {
    if c.isBytes {
      ImportNamesAreNotVars();
      ImportThenAssign(g, "base64", outVar, B64Decode(inVar));
    } else if c.isDatetime {
      ImportNamesAreNotVars();
      ImportThenAssign(g, "datetime", outVar, "datetime.datetime.fromisoformat(" + inVar + ")");
    } else if t.Record? {
      RecordDeserStep(t.cls, t.decl, inVar, outVar, g);
    }
  }

  lemma DeserJsonMappingOpenStep(c: Class, inVar: string, outVar: string, g: Gen)
    requires g.Valid()
    ensures Grows(g, DeserJsonMappingOpen(c, inVar, outVar, g).1)
    ensures DeserJsonMappingOpen(c, inVar, outVar, g).1.indent == g.indent + 1
  {
    var (classVar, g1) := g.GetConst(OClass(c));
    GrowsGetConst(g, OClass(c));
    var (names, g2) := g1.GetVars(2);
    GrowsGetVars(g1, 2);
    GrowsTrans(g, g1, g2);
    var ga := g2.Assign(outVar, Call(classVar, ""));
    GrowsAssign(g2, outVar, Call(classVar, ""));
    GrowsTrans(g, g2, ga);
    var header := [ForItems(names[0], names[1], inVar)];
    GrowsLiteral(ga, header);
    GrowsTrans(g, ga, ga.Literal(header));
    GrowsIndent(ga.Literal(header));
    GrowsTrans(g, ga.Literal(header), ga.Literal(header).Indent());
  }

  lemma {:induction false} DeserJsonMappingStep(bound: nat, c: Class, keyType: TypeHint, valueType: TypeHint, inVar: string, outVar: string, g: Gen)
    requires g.Valid()
    requires Size(keyType) < bound && Size(valueType) < bound
    ensures Step(g, DeserJsonMapping(bound, c, keyType, valueType, inVar, outVar, g))
    decreases bound, 1, 0
  {
    var (names, g1) := DeserJsonMappingOpen(c, inVar, outVar, g);
    DeserJsonMappingOpenStep(c, inVar, outVar, g);
    var o1 := DeserJson(keyType, names[0], names[0], g1);
    DeserJsonStep(keyType, names[0], names[0], g1);
    var o2 := DeserJson(valueType, names[1], names[1], o1.g);
    if o1.Done? {
      DeserJsonStep(valueType, names[1], names[1], o1.g);
    }
    TwoBodyLoop(g, g1, o1, o2, Subscript(outVar, names[0]), names[1]);
  }

  lemma {:induction false} DeserJsonTupleElemsStep(bound: nat, args: seq<TypeHint>, inVar: string, outVar: string, k: nat, acc: seq<string>, g: Gen)
    requires g.Valid()
    requires k <= |args|
    requires forall i :: 0 <= i < |args| ==> Size(args[i]) < bound
    ensures Step(g, DeserJsonTupleElems(bound, args, inVar, outVar, k, acc, g))
    decreases bound, 1, |args| - k
  {
    if k == |args| {
      GrowsAssign(g, outVar, TupleLiteral(acc));
    } else {
      var (v, g1) := g.GetVar();
      GrowsGetVar(g);
      var o := DeserJson(args[k], Subscript(inVar, NatToString(k)), v, g1);
      DeserJsonStep(args[k], Subscript(inVar, NatToString(k)), v, g1);
      GrowsTrans(g, g1, o.g);
      if o.Done? {
        DeserJsonTupleElemsStep(bound, args, inVar, outVar, k + 1, acc + [v], o.g);
        StepAfter(g, o.g, DeserJsonTupleElems(bound, args, inVar, outVar, k + 1, acc + [v], o.g));
      }
    }
  }

  lemma DeserJsonCollectionOpenStep(c: Class, inVar: string, outVar: string, g: Gen)
    requires g.Valid()
    ensures Grows(g, DeserJsonCollectionOpen(c, inVar, outVar, g).2)
    ensures DeserJsonCollectionOpen(c, inVar, outVar, g).2.indent == g.indent + 1
  {
    var (classVar, g1) := g.GetConst(OClass(c));
    GrowsGetConst(g, OClass(c));
    var (e, g2) := g1.GetVar();
    GrowsGetVar(g1);
    GrowsTrans(g, g1, g2);
    var ga := g2.Assign(outVar, "[]");
    GrowsAssign(g2, outVar, "[]");
    GrowsTrans(g, g2, ga);
    GrowsLiteral(ga, [ForEach(e, inVar)]);
    var gl := ga.Literal([ForEach(e, inVar)]);
    GrowsTrans(g, ga, gl);
    GrowsIndent(gl);
    GrowsTrans(g, gl, gl.Indent());
  }

  lemma {:induction false} DeserJsonCollectionStep(bound: nat, c: Class, elemType: TypeHint, inVar: string, outVar: string, g: Gen)
    requires g.Valid()
    requires Size(elemType) < bound
    ensures Step(g, DeserJsonCollection(bound, c, elemType, inVar, outVar, g))
    decreases bound, 1, 0
  {
    var (classVar, e, g1) := DeserJsonCollectionOpen(c, inVar, outVar, g);
    DeserJsonCollectionOpenStep(c, inVar, outVar, g);
    var o := DeserJson(elemType, e, e, g1);
    DeserJsonStep(elemType, e, e, g1);
    AppendLoop(g, g1, o, AppendCall(outVar, e), outVar, Call(classVar, outVar));
  }

  /** A loop whose body is one compile and one literal line, followed by
      `left = right` after the dedent. */
  lemma AppendLoop(g: Gen, g1: Gen, o: Outcome, line: string, left: string, right: string)
    requires Grows(g, g1) && g1.indent == g.indent + 1 && Step(g1, o)
    ensures Step(g, if o.Raised? then o else Done(o.g.Literal([line]).Dedent().Assign(left, right)))
  {
    GrowsTrans(g, g1, o.g);
    if o.Done? {
      var body := o.g.Literal([line]);
      GrowsLiteral(o.g, [line]);
      GrowsTrans(g, o.g, body);
      GrowsDedent(body);
      GrowsTrans(g, body, body.Dedent());
      GrowsAssign(body.Dedent(), left, right);
      GrowsTrans(g, body.Dedent(), body.Dedent().Assign(left, right));
    }
  }

  lemma {:induction false} RecordDeserStep(c: Class, decl: RecordDecl, inVar: string, outVar: string, g: Gen)
    requires g.Valid()
    ensures Step(g, RecordDeser(c, decl, inVar, outVar, g))
    decreases Size(Record(c, decl)), 1
  {
    RecordFieldsSmaller(c, decl);
    var r := RecordDeserOpen(c, g);
    var fields := SelectFields(decl);
    var bound := Size(Record(c, decl));
    var o := RecordDeserFields(bound, fields, inVar, outVar, r.0, 0, r.1);
    RecordDeserOpenStep(c, g);
    RecordDeserFieldsStep(bound, fields, inVar, outVar, r.0, 0, r.1);
    StepAfter(g, r.1, o);
  }

  lemma RecordDeserOpenStep(c: Class, g: Gen)
    requires g.Valid()
    ensures Grows(g, RecordDeserOpen(c, g).1) && RecordDeserOpen(c, g).1.indent == g.indent
  {
    var (classVar, g1) := g.GetConst(OClass(c));
    GrowsGetConst(g, OClass(c));
    var (tmp, g2) := g1.GetVar();
    GrowsGetVar(g1);
    GrowsTrans(g, g1, g2);
    GrowsAssign(g2, tmp, NewInstance(classVar));
    GrowsTrans(g, g2, g2.Assign(tmp, NewInstance(classVar)));
  }

  lemma {:induction false} RecordDeserFieldsStep(bound: nat, fields: seq<Entry>, inVar: string, outVar: string, obj: string, k: nat, g: Gen)
    requires g.Valid()
    requires k <= |fields| && HintsBelow(fields, bound)
    ensures Step(g, RecordDeserFields(bound, fields, inVar, outVar, obj, k, g))
    decreases bound, 0, |fields| - k
  {
    if k == |fields| {
      var g1 := g.Literal([InitCall(obj)]);
      GrowsLiteral(g, [InitCall(obj)]);
      GrowsAssign(g1, outVar, obj);
      GrowsTrans(g, g1, g1.Assign(outVar, obj));
    } else {
      var (tmp, g1) := g.GetVar();
      GrowsGetVar(g);
      var o := DeserJson(fields[k].hint, Subscript(inVar, NatToString(k)), tmp, g1);
      DeserJsonStep(fields[k].hint, Subscript(inVar, NatToString(k)), tmp, g1);
      GrowsTrans(g, g1, o.g);
      if o.Done? {
        var g2 := o.g.Literal([SetAttr(obj, fields[k].name, tmp)]);
        GrowsLiteral(o.g, [SetAttr(obj, fields[k].name, tmp)]);
        GrowsTrans(g, o.g, g2);
        RecordDeserFieldsStep(bound, fields, inVar, outVar, obj, k + 1, g2);
        StepAfter(g, g2, RecordDeserFields(bound, fields, inVar, outVar, obj, k + 1, g2));
      }
    }
  }
}
