/** The type expressions the code generators are driven by, in place of
    Python's runtime reflection (`typing.get_origin`, `typing.get_args`,
    `issubclass`), and `read_type_hint` from type_serializer.py. */
module TypeHints {
  import opened Errors

  /** A Python class, identified by its name and by the `issubclass` facts
      the generators ask about it. */
  datatype Class = Class(
    name: string,
    isMapping: bool,     // issubclass(c, collections.abc.Mapping)
    isCollection: bool,  // issubclass(c, collections.abc.Collection)
    isStr: bool,         // issubclass(c, str)
    isBytes: bool,       // issubclass(c, bytes)
    isJsonScalar: bool,  // issubclass(c, str | int | float | bool | None)
    isDatetime: bool)    // issubclass(c, datetime.datetime)
  {
    /** The facts Python's class hierarchy guarantees: a Mapping is a
        Collection, `str` and `bytes` (and their subclasses) are
        Collections, and a `str` subclass is a JSON scalar. */
    ghost predicate Consistent()
    {
      && (isMapping ==> isCollection)
      && (isStr ==> isCollection && isJsonScalar)
      && (isBytes ==> isCollection)
    }
  }

  const StrClass := Class("str", false, true, true, false, true, false)
  const IntClass := Class("int", false, false, false, false, true, false)
  const FloatClass := Class("float", false, false, false, false, true, false)
  const BoolClass := Class("bool", false, false, false, false, true, false)
  const NoneTypeClass := Class("NoneType", false, false, false, false, true, false)
  const BytesClass := Class("bytes", false, true, false, true, false, false)
  const BytearrayClass := Class("bytearray", false, true, false, false, false, false)
  const TupleClass := Class("tuple", false, true, false, false, false, false)
  const ListClass := Class("list", false, true, false, false, false, false)
  const DictClass := Class("dict", true, true, false, false, false, false)
  const DatetimeClass := Class("datetime", false, false, false, false, false, true)
  /** `types.UnionType`, the class of `X | Y` objects. */
  const UnionTypeClass := Class("UnionType", false, false, false, false, false, false)

  /** How a union was written: `X | Y` (an instance of `types.UnionType`) or
      `typing.Union[X, Y]` / `typing.Optional[X]` (origin `typing.Union`). */
  datatype Spelling = PipeUnion | TypingUnion

  /** A type expression. `NoneHint` is Python's `None` used as a type,
      `Ellipsis` the `...` in `tuple[T, ...]`, `Special` a typing special form
      that is not a class (`typing.Literal[...]`, `typing.Never`), and `Record` a
      `SimpleSerializable` dataclass together with the declarations its field
      selection reads. */
  datatype TypeHint =
    | NoneHint
    | Ellipsis
    | Plain(cls: Class)
    | Generic(origin: Class, args: seq<TypeHint>)
    | Union(members: seq<TypeHint>, spelling: Spelling)
    | Special(form: string, args: seq<TypeHint>)
    | Record(cls: Class, decl: RecordDecl)

  /** A dataclass field as `dataclasses.fields` reports it. */
  datatype Field = Field(name: string, isClassVar: bool, hint: TypeHint)

  /** One `name: type` item of a field dictionary. */
  datatype Entry = Entry(name: string, hint: TypeHint)

  /** The dataclass fields in declaration order, the class attribute
      `__serialize_fields__` (a dict, in insertion order) and
      `__exclude_fields__`. */
  datatype RecordDecl = RecordDecl(fields: seq<Field>, serializeFields: seq<Entry>, excludeFields: set<string>)

  /** The objects `typing.get_origin(t) or t` can be. */
  datatype Origin =
    | OClass(c: Class)
    | OTypingUnion   // typing.Union, a special form and not a class
    | OEllipsis
    | ONone
    | OSpecial(form: string)

  function ListOf(t: TypeHint): TypeHint { Generic(ListClass, [t]) }
  function TupleOf(ts: seq<TypeHint>): TypeHint { Generic(TupleClass, ts) }

  /** `typing.get_origin(t)` */
  function GetOrigin(t: TypeHint): Option<Origin>
  {
    match t
    case Generic(c, _) => Some(OClass(c))
    case Union(_, PipeUnion) => Some(OClass(UnionTypeClass))
    case Union(_, TypingUnion) => Some(OTypingUnion)
    case Special(f, args) => if |args| == 0 then None else Some(OSpecial(f))
    case _ => None
  }

  /** `typing.get_args(t)`. Building a union stores a `None` member as
      `NoneType`, so that is what `get_args` reports for it; a generic alias
      keeps `None` as written. */
  function GetArgs(t: TypeHint): seq<TypeHint>
  {
    match t
    case Generic(_, args) => args
    case Union(ms, _) => NoneArgsToNoneType(ms)
    case Special(_, args) => args
    case _ => []
  }

  /** `typing.get_origin(t) or t`: the origin of a generic alias, and the
      object itself when it has none. */
  function Base(t: TypeHint): Origin
  {
    match GetOrigin(t)
    case Some(o) => o
    case None =>
      match t
      case NoneHint => ONone
      case Ellipsis => OEllipsis
      case Plain(c) => OClass(c)
      case Record(c, _) => OClass(c)
      case Special(f, _) => OSpecial(f)
      case _ => OSpecial("")  // every other hint has an origin
  }

  /** `types.NoneType if t is None else t` */
  function NoneToNoneType(t: TypeHint): TypeHint
  {
    if t == NoneHint then Plain(NoneTypeClass) else t
  }

  function NoneArgsToNoneType(ts: seq<TypeHint>): seq<TypeHint>
  {
    seq(|ts|, i requires 0 <= i < |ts| => NoneToNoneType(ts[i]))
  }

  /** read_type_hint (type_serializer.py:17-27): `None` becomes `NoneType`,
      then the base is the origin (or the hint itself) and the arguments are
      `get_args` with every `None` replaced by `NoneType`. */
  function ReadTypeHint(t: TypeHint): (r: (Origin, seq<TypeHint>))
    ensures t == NoneHint ==> r == (OClass(NoneTypeClass), [])
    ensures t != NoneHint ==> r.0 == Base(t)
    ensures |r.1| == |GetArgs(t)|
    ensures forall i :: 0 <= i < |r.1| ==>
              r.1[i] != NoneHint && (GetArgs(t)[i] != NoneHint ==> r.1[i] == GetArgs(t)[i])
  {
    var t' := NoneToNoneType(t);
    (Base(t'), NoneArgsToNoneType(GetArgs(t')))
  }

  // ---------------------------------------------------------------------
  // Termination measure. The generic generators recompile `Mapping[K, V]` as
  // `list[tuple[K, V]]` and each union member `m` as `tuple[int, m]`; both
  // are smaller than the node they come from only because mapping nodes and
  // union nodes weigh more than plain generic nodes. (A generic whose origin
  // is `types.UnionType` cannot be written in Python, but it is a value of
  // the datatype and dispatches as a union, so it weighs as one.)

  function NodeWeight(c: Class): nat
  {
    if c.isMapping || c == UnionTypeClass then 3 else 1
  }

  function Size(t: TypeHint): nat
    decreases t, 1
  {
    match t
    case Generic(c, args) => NodeWeight(c) + SumSizes(args)
    case Union(ms, _) => 3 + SumSizes(ms)
    case Special(_, args) => 1 + SumSizes(args)
    case Record(_, decl) => 1 + DeclSize(decl)
    case _ => 1
  }

  function SumSizes(ts: seq<TypeHint>): nat
    decreases ts, 0
  {
    if |ts| == 0 then 0 else Size(ts[0]) + SumSizes(ts[1..])
  }

  function FieldSizes(fs: seq<Field>): nat
    decreases fs, 0
  {
    if |fs| == 0 then 0 else Size(fs[0].hint) + FieldSizes(fs[1..])
  }

  function EntrySizes(es: seq<Entry>): nat
    decreases es, 0
  {
    if |es| == 0 then 0 else Size(es[0].hint) + EntrySizes(es[1..])
  }

  function DeclSize(d: RecordDecl): nat
    decreases d, 0
  {
    1 + FieldSizes(d.fields) + EntrySizes(d.serializeFields)
  }

  lemma {:induction false} SumSizesBound(ts: seq<TypeHint>, i: nat)
    requires i < |ts|
    ensures Size(ts[i]) <= SumSizes(ts)
    decreases i
  {
    if i > 0 {
      SumSizesBound(ts[1..], i - 1);
    }
  }

  lemma {:induction false} FieldSizesBound(fs: seq<Field>, i: nat)
    requires i < |fs|
    ensures Size(fs[i].hint) <= FieldSizes(fs)
    decreases i
  {
    if i > 0 {
      FieldSizesBound(fs[1..], i - 1);
    }
  }

  lemma {:induction false} EntrySizesBound(es: seq<Entry>, i: nat)
    requires i < |es|
    ensures Size(es[i].hint) <= EntrySizes(es)
    decreases i
  {
    if i > 0 {
      EntrySizesBound(es[1..], i - 1);
    }
  }

  /** Replacing `None` by `NoneType` does not change the measure. */
  lemma {:induction false} NoneArgsSize(ts: seq<TypeHint>)
    ensures SumSizes(NoneArgsToNoneType(ts)) == SumSizes(ts)
    decreases |ts|
  {
    if |ts| > 0 {
      assert NoneArgsToNoneType(ts)[1..] == NoneArgsToNoneType(ts[1..]);
      NoneArgsSize(ts[1..]);
    }
  }

  lemma SumSizesSingle(x: TypeHint)
    ensures SumSizes([x]) == Size(x)
  {
    assert [x][1..] == [];
  }

  lemma SumSizesPair(x: TypeHint, y: TypeHint)
    ensures SumSizes([x, y]) == Size(x) + Size(y)
  {
    assert [x, y][1..] == [y];
    SumSizesSingle(y);
  }

  /** Every argument `read_type_hint` returns is strictly smaller than the
      hint it was read from, and all of them together are no larger than the
      hint's own weight allows. */
  lemma ReadTypeHintSmaller(t: TypeHint)
    ensures forall i :: 0 <= i < |ReadTypeHint(t).1| ==> Size(ReadTypeHint(t).1[i]) < Size(t)
    ensures SumSizes(ReadTypeHint(t).1) == SumSizes(GetArgs(t))
  {
    var args := ReadTypeHint(t).1;
    NoneArgsSize(GetArgs(NoneToNoneType(t)));
    if t.Union? {
      NoneArgsSize(t.members);
    }
    forall i | 0 <= i < |args| ensures Size(args[i]) < Size(t) {
      SumSizesBound(args, i);
    }
  }

  /** The arguments of a hint that dispatches as a union are small enough to
      be recompiled as `tuple[int, member]`. */
  lemma UnionMembersSmaller(t: TypeHint)
    requires ReadTypeHint(t).0 == OTypingUnion || ReadTypeHint(t).0 == OClass(UnionTypeClass)
    ensures forall i :: 0 <= i < |ReadTypeHint(t).1| ==> Size(ReadTypeHint(t).1[i]) + 2 < Size(t)
  {
    var args := ReadTypeHint(t).1;
    ReadTypeHintSmaller(t);
    if t.Union? {
      NoneArgsSize(t.members);
    }
    forall i | 0 <= i < |args| ensures Size(args[i]) + 2 < Size(t) {
      SumSizesBound(args, i);
    }
  }

  /** The two arguments of a mapping hint are small enough to be recompiled
      as `list[tuple[K, V]]`. */
  lemma MappingArgsSmaller(t: TypeHint, c: Class)
    requires ReadTypeHint(t).0 == OClass(c) && c.isMapping && |ReadTypeHint(t).1| == 2
    ensures Size(ReadTypeHint(t).1[0]) + Size(ReadTypeHint(t).1[1]) + 3 <= Size(t)
  {
    var args := ReadTypeHint(t).1;
    ReadTypeHintSmaller(t);
    SumSizesPair(args[0], args[1]);
    assert args == [args[0], args[1]];
  }
}
