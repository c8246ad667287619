/** What json_serialization.py and the `SimpleSerializable` hooks promise,
    stated about the compilers of `JsonSerialization`: which hints are
    JSON-native, how each hint is dispatched, and what the generated code
    looks like case by case. */
module JsonProperties {
  import opened Errors
  import opened Text
  import opened TypeHints
  import opened CodeGen
  import opened TypeSerializer
  import opened SerializeFields
  import opened JsonSerialization

  // ---------------------------------------------------------------------
  // issubclass_json_type (90-126)

  /** `issubclass_json_type(t)` returns `True`. */
  predicate Native(t: TypeHint)
  {
    IsJsonType(t) == Ok(true)
  }

  /** `all(...)` over `ts[k:]` is `True` exactly when every one of them is
      native. */
  lemma {:induction false} AllJsonTypesEvery(bound: nat, ts: seq<TypeHint>, k: nat)
    requires k <= |ts|
    requires forall i :: 0 <= i < |ts| ==> Size(ts[i]) < bound
    ensures AllJsonTypes(bound, ts, k) == Ok(true) <==> forall i :: k <= i < |ts| ==> Native(ts[i])
    decreases |ts| - k
  {
    if k < |ts| {
      AllJsonTypesEvery(bound, ts, k + 1);
    }
  }

  /** 91-94, 96-97, 126: a class used bare is native exactly when it is one
      of `str`, `int`, `float`, `bool` and `NoneType` (so never `bytes`,
      `bytearray`, a collection without arguments, or a subclass of `str`);
      and a collection class with an empty argument list is not native. */
  lemma BareClassNative(c: Class)
    ensures IsJsonType(Plain(c)) == Ok(IsSimpleJson(Plain(c)))
    ensures c.isCollection ==> IsJsonType(Generic(c, [])) == Ok(false)
  {
    assert c.isCollection ==> c != UnionTypeClass;
  }

  /** 99-100: a union (`X | Y` or `typing.Union[X, Y]`) is native exactly
      when every member is, a `None` member counting as `NoneType`. */
  lemma UnionNative(t: TypeHint)
    requires t.Union?
    ensures Native(t) <==> forall i :: 0 <= i < |t.members| ==> t.members[i] == NoneHint || Native(t.members[i])
  {
    var args := GetArgs(t);
    GetArgsSmaller(t);
    AllJsonTypesEvery(Size(t), args, 0);
    assert Native(Plain(NoneTypeClass));
    assert forall i :: 0 <= i < |t.members| ==> args[i] == NoneToNoneType(t.members[i]);
  }

  /** 102-107: a mapping is native exactly when it has two arguments, the
      key is `str` itself and the value is native. */
  lemma MappingNative(c: Class, args: seq<TypeHint>)
    requires c.isMapping
    ensures Native(Generic(c, args)) <==> |args| == 2 && args[0] == Plain(StrClass) && Native(args[1])
  {
    assert c != UnionTypeClass;
  }

  /** 113-116: `tuple[T, ...]` is native exactly when `T` is, and raises
      what `T` raises. */
  lemma HomogeneousTupleNative(elem: TypeHint)
    ensures IsJsonType(TupleOf([elem, Ellipsis])) == IsJsonType(elem)
  {
    assert TupleClass != UnionTypeClass;
  }

  /** 118-119: a fixed tuple is native exactly when all its elements are. */
  lemma FixedTupleNative(args: seq<TypeHint>)
    requires |args| > 0 && !(|args| == 2 && args[1] == Ellipsis)
    ensures Native(TupleOf(args)) <==> forall i :: 0 <= i < |args| ==> Native(args[i])
  {
    var t := TupleOf(args);
    GetArgsSmaller(t);
    assert GetArgs(t) == args;
    assert TupleClass != UnionTypeClass;
    AllJsonTypesEvery(Size(t), args, 0);
  }

  /** 109-124: any other collection is native exactly when it has one
      argument and that argument is native. */
  lemma CollectionNative(c: Class, args: seq<TypeHint>)
    requires c.isCollection && !c.isMapping && c != TupleClass
    ensures Native(Generic(c, args)) <==> |args| == 1 && Native(args[0])
  {
    assert c != UnionTypeClass;
  }

  // ---------------------------------------------------------------------
  // Dispatch of both compilers (137-159, 252-273)

  /** 137-139, 252-254: for a native hint both compilers emit the single
      assignment `out = in` (commented out when the two names are equal)
      and change nothing else. */
  lemma NativeIsOneAssignment(t: TypeHint, inVar: string, outVar: string, g: Gen)
    requires Native(t)
    ensures var g' := g.(statements := g.statements + [Line(g.indent, Assignment(outVar, inVar))]);
            SerJson(t, inVar, outVar, g) == Done(g') && DeserJson(t, inVar, outVar, g) == Done(g')
  {
  }

  /** Every member of `ts[k:]` is `x` or `NoneType`. */
  ghost predicate OnlyMemberOrNone(ts: seq<TypeHint>, x: TypeHint, k: nat)
  {
    forall i :: k <= i < |ts| ==> ts[i] == x || ts[i] == Plain(NoneTypeClass)
  }

  /** Over members that are all `x` or `NoneType`, `all(...)` answers what
      `x` answers, and `True` when `x` is absent. */
  lemma {:induction false} AllJsonTypesOfOne(bound: nat, ts: seq<TypeHint>, x: TypeHint, k: nat)
    requires k <= |ts|
    requires forall i :: 0 <= i < |ts| ==> Size(ts[i]) < bound
    requires OnlyMemberOrNone(ts, x, k)
    ensures AllJsonTypes(bound, ts, k) == if x in ts[k..] then IsJsonType(x) else Ok(true)
    decreases |ts| - k
  {
    if k < |ts| {
      assert Native(Plain(NoneTypeClass));
      assert ts[k..] == [ts[k]] + ts[k + 1..];
      AllJsonTypesOfOne(bound, ts, x, k + 1);
      if ts[k] == x && IsJsonType(x) == Ok(true) {
        if x in ts[k + 1..] {
        } else {
          assert AllJsonTypes(bound, ts, k + 1) == Ok(true);
        }
      }
    }
  }

  /** 143-151, 258-266: `X | None` (and `X | None | None`) is compiled
      exactly as `X` is, by both compilers, whatever `X` is (other than a
      union itself). */
  lemma OptionalCompilesAsMember(t: TypeHint, x: TypeHint, inVar: string, outVar: string, g: Gen)
    requires t.Union? && t.spelling == PipeUnion && Plain(NoneTypeClass) in GetArgs(t)
    requires WithoutNoneType(GetArgs(t)) == [x] && !x.Union?
    ensures SerJson(t, inVar, outVar, g) == SerJson(x, inVar, outVar, g)
    ensures DeserJson(t, inVar, outVar, g) == DeserJson(x, inVar, outVar, g)
  {
    var args := GetArgs(t);
    GetArgsSmaller(t);
    assert x in args;
    forall i | 0 <= i < |args| ensures args[i] == x || args[i] == Plain(NoneTypeClass) {
      assert args[i] in args;
    }
    assert OnlyMemberOrNone(args, x, 0);
    assert args[0..] == args;
    AllJsonTypesOfOne(Size(t), args, x, 0);
    assert IsJsonType(t) == IsJsonType(x);
    assert DispatchedHint(t) == Ok(x);
    assert DispatchedHint(x) == Ok(x);
  }

  /** 143-154, 258-269: a union that is not native and is not `X | None`
      with one member left is rejected, with `SerializationError` and
      `DeserializationError`: `typing.Union` is not a class, and a
      `types.UnionType` matches no class case. */
  lemma OtherUnionsRejected(t: TypeHint, inVar: string, outVar: string, g: Gen)
    requires t.Union? && IsJsonType(t) == Ok(false)
    requires !(t.spelling == PipeUnion && Plain(NoneTypeClass) in GetArgs(t) && |WithoutNoneType(GetArgs(t))| == 1)
    ensures SerJson(t, inVar, outVar, g) == Raised(SerializationError, g)
    ensures DeserJson(t, inVar, outVar, g) == Raised(DeserializationError, g)
  {
    var args := GetArgs(t);
    if t.spelling == PipeUnion && Plain(NoneTypeClass) in args {
      var rest := WithoutNoneType(args);
      if |rest| == 0 {
        NoneOnlyUnionNative(t);
        assert false;
      }
      assert DispatchedHint(t) == Ok(Union(rest, TypingUnion));
      assert Base(Union(rest, TypingUnion)) == OTypingUnion;
    } else if t.spelling == PipeUnion {
      assert DispatchedHint(t) == Ok(t);
      assert Base(t) == OClass(UnionTypeClass);
      assert SerJson(t, inVar, outVar, g) == SerJsonClass(t, UnionTypeClass, inVar, outVar, g);
      assert SerJsonClass(t, UnionTypeClass, inVar, outVar, g) == SerJsonOther(t, UnionTypeClass, inVar, outVar, g);
      assert DeserJson(t, inVar, outVar, g) == DeserJsonClass(t, UnionTypeClass, inVar, outVar, g);
      assert DeserJsonClass(t, UnionTypeClass, inVar, outVar, g) == DeserJsonOther(t, UnionTypeClass, inVar, outVar, g);
    } else {
      assert DispatchedHint(t) == Ok(t);
      assert Base(t) == OTypingUnion;
    }
  }

  /** A union whose members are all `None` is native. */
  lemma NoneOnlyUnionNative(t: TypeHint)
    requires t.Union? && |WithoutNoneType(GetArgs(t))| == 0
    ensures Native(t)
  {
    var args := GetArgs(t);
    GetArgsSmaller(t);
    AllJsonTypesEvery(Size(t), args, 0);
    assert Native(Plain(NoneTypeClass));
    assert forall i :: 0 <= i < |args| ==> args[i] in args;
  }

  /** `k, v = codegen.get_vars()` fails to unpack unless the default count
      is two; the counter has moved either way. */
  lemma UnpackTwoCases(g: Gen)
    ensures g.defaultCount != 2 ==> UnpackTwo(g) == (false, "", "", g.(varI := g.varI + g.defaultCount))
    ensures g.defaultCount == 2 ==> UnpackTwo(g) == (true, VarName(g.varI), VarName(g.varI + 1), g.(varI := g.varI + 2))
  {
  }

  /** A class the hooks apply to: none of the class cases before the hook
      (`str` and the other scalars, mappings, collections, `bytes`,
      `datetime`) matches it. */
  predicate PlainClass(c: Class)
  {
    !c.isJsonScalar && !c.isMapping && !c.isCollection && !c.isBytes && !c.isDatetime
  }

  /** 228-230, 343-345: a `SimpleSerializable` class is compiled by its own
      hooks, which are handed the same input and output names and the same
      builder. */
  lemma RecordUsesHooks(c: Class, decl: RecordDecl, inVar: string, outVar: string, g: Gen)
    requires PlainClass(c)
    ensures SerJson(Record(c, decl), inVar, outVar, g) == RecordSer(c, decl, inVar, outVar, g)
    ensures DeserJson(Record(c, decl), inVar, outVar, g) == RecordDeser(c, decl, inVar, outVar, g)
  {
    var t := Record(c, decl);
    assert IsJsonType(t) == Ok(false);
    assert DispatchedHint(t) == Ok(t) && Base(t) == OClass(c);
    assert SerJson(t, inVar, outVar, g) == SerJsonClass(t, c, inVar, outVar, g);
    assert SerJsonClass(t, c, inVar, outVar, g) == SerJsonOther(t, c, inVar, outVar, g);
    assert DeserJson(t, inVar, outVar, g) == DeserJsonClass(t, c, inVar, outVar, g);
    assert DeserJsonClass(t, c, inVar, outVar, g) == DeserJsonOther(t, c, inVar, outVar, g);
  }

  /** serializable.py:60-65: `obj.serialize_json()` and
      `Class.deserialize_json(data)` compile for the object's own class,
      so the code they run is what the hooks emit into a fresh builder
      from `inp` to `out`. */
  lemma SelfSerializationUsesHooks(c: Class, decl: RecordDecl, defaultCount: nat)
    requires PlainClass(c)
    ensures CompileJsonSerializer(Record(c, decl), defaultCount) == Finish(RecordSer(c, decl, "inp", "out", Gen.Empty(defaultCount)))
    ensures CompileJsonDeserializer(Record(c, decl), defaultCount) == Finish(RecordDeser(c, decl, "inp", "out", Gen.Empty(defaultCount)))
  {
    RecordUsesHooks(c, decl, "inp", "out", Gen.Empty(defaultCount));
  }

  /** 160-164, 275-279: a mapping without exactly two type arguments is
      rejected with `DeserializationError` by the serializer as well as the
      deserializer, before anything is emitted. */
  lemma MappingArityRejected(c: Class, args: seq<TypeHint>, inVar: string, outVar: string, g: Gen)
    requires c.isMapping && !c.isJsonScalar && |args| != 2
    ensures SerJson(Generic(c, args), inVar, outVar, g) == Raised(DeserializationError, g)
    ensures DeserJson(Generic(c, args), inVar, outVar, g) == Raised(DeserializationError, g)
  {
    MappingNative(c, args);
    assert c != UnionTypeClass;
  }

  /** 166: the serializer unpacks `get_vars()` with no count into two
      names, so unless the builder's default count is two a non-native
      mapping raises the unpacking error, after the counter has moved. */
  lemma MappingNeedsTwoDefaultNames(c: Class, keyType: TypeHint, valueType: TypeHint, inVar: string, outVar: string, g: Gen)
    requires c.isMapping && !c.isJsonScalar && IsJsonType(Generic(c, [keyType, valueType])) == Ok(false)
    requires g.defaultCount != 2
    ensures SerJson(Generic(c, [keyType, valueType]), inVar, outVar, g) == Raised(UnpackError, g.(varI := g.varI + g.defaultCount))
  {
    var t := Generic(c, [keyType, valueType]);
    assert c != UnionTypeClass;
    assert DispatchedHint(t) == Ok(t) && Base(t) == OClass(c);
    GetArgsSmaller(t);
    assert SerJson(t, inVar, outVar, g) == SerJsonClass(t, c, inVar, outVar, g);
    assert SerJsonClass(t, c, inVar, outVar, g) == SerJsonMappingCase(Size(t), keyType, valueType, inVar, outVar, g);
    UnpackTwoCases(g);
  }

  /** 168-175: with a `str` key the serializer copies the input and
      recompiles each value with the KEY type, `str`, which is native: the
      values are stored back unconverted, whatever the declared value type.
      The generated code is exactly the copy, the loop header, the
      commented-out self-assignment `v = v`, the store and the placeholder
      that closes the loop. */
  lemma StrKeyedValuesCopied(c: Class, valueType: TypeHint, inVar: string, outVar: string, g: Gen)
    requires c.isMapping && !c.isJsonScalar && IsJsonType(valueType) == Ok(false)
    requires g.defaultCount == 2
    ensures var k, v := VarName(g.varI), VarName(g.varI + 1);
            SerJson(Generic(c, [Plain(StrClass), valueType]), inVar, outVar, g)
            == Done(g.(statements := g.statements + StrKeyedLoop(inVar, outVar, k, v, g.indent), varI := g.varI + 2))
  {
    var t := Generic(c, [Plain(StrClass), valueType]);
    MappingNative(c, [Plain(StrClass), valueType]);
    assert c != UnionTypeClass;
    var k, v := VarName(g.varI), VarName(g.varI + 1);
    UnpackTwoCases(g);
    assert DispatchedHint(t) == Ok(t) && Base(t) == OClass(c);
    GetArgsSmaller(t);
    assert SerJson(t, inVar, outVar, g) == SerJsonClass(t, c, inVar, outVar, g);
    assert SerJsonClass(t, c, inVar, outVar, g) == SerJsonMappingCase(Size(t), Plain(StrClass), valueType, inVar, outVar, g);
    assert IsStrSubclass(Plain(StrClass)) == Ok(true);
    StrMappingIsCopy(Size(t), inVar, outVar, k, v, g.(varI := g.varI + 2));
  }

  /** The code of the `str`-keyed mapping case at indent `d`: the copy, the
      loop header, the commented-out self-assignment `v = v`, the store and
      the placeholder that closes the loop. */
  function StrKeyedLoop(inVar: string, outVar: string, k: string, v: string, d: int): seq<Line>
  {
    [Line(d, LiteralStatement(CopyOf(outVar, inVar))),
     Line(d, LiteralStatement(ForItems(k, v, outVar))),
     Line(d + 1, Assignment(v, v)),
     Line(d + 1, Assignment(Subscript(outVar, k), v)),
     Line(d + 1, LiteralStatement("..."))]
  }

  lemma StrMappingIsCopy(bound: nat, inVar: string, outVar: string, k: string, v: string, g: Gen)
    requires Size(Plain(StrClass)) < bound
    ensures SerJsonStrMapping(bound, Plain(StrClass), inVar, outVar, k, v, g)
         == Done(g.(statements := g.statements + StrKeyedLoop(inVar, outVar, k, v, g.indent)))
  {
    var g1 := OpenLoop(g, CopyOf(outVar, inVar), ForItems(k, v, outVar));
    assert Native(Plain(StrClass));
    assert SerJson(Plain(StrClass), v, v, g1) == Done(g1.Assign(v, v));
  }

  /** 189-197: the fixed-tuple serializer reads every element from
      `out[i]`, never from its input, so the code it emits does not depend
      on the input name at all. */
  lemma FixedTupleSerializerIgnoresInput(args: seq<TypeHint>, in1: string, in2: string, outVar: string, g: Gen)
    requires !(|args| == 2 && args[1] == Ellipsis) && IsJsonType(TupleOf(args)) == Ok(false)
    ensures SerJson(TupleOf(args), in1, outVar, g) == SerJson(TupleOf(args), in2, outVar, g)
  {
    assert TupleClass != UnionTypeClass;
  }

  /** 219-222, 333-336: where the `bytes` branches are reached, the
      serializer emits the same base64 DECODING as the deserializer. */
  lemma BytesBranchesAgree(t: TypeHint, c: Class, inVar: string, outVar: string, g: Gen)
    requires c.isBytes
    ensures SerJsonOther(t, c, inVar, outVar, g) == DeserJsonOther(t, c, inVar, outVar, g)
                                                 == Done(g.EnsureImport("base64").Assign(outVar, B64Decode(inVar)))
  {
  }

  /** 198-200, 310-312: `bytes` is a Collection, so a bare `bytes` hint
      takes the sequence case, whose `args[-1]` on an empty argument tuple
      raises `IndexError`; the `bytes` branches are never reached for it. */
  lemma BareBytesRaisesIndexError(c: Class, inVar: string, outVar: string, g: Gen)
    requires c.Consistent() && c.isBytes && !c.isJsonScalar && !c.isMapping && c != TupleClass
    ensures SerJson(Plain(c), inVar, outVar, g) == Raised(IndexError, g)
    ensures DeserJson(Plain(c), inVar, outVar, g) == Raised(IndexError, g)
  {
    BareClassNative(c);
  }

  // ---------------------------------------------------------------------
  // Lines of the generated code, in order

  /** The lines `wanted` occur in `ls` in this order, not necessarily next
      to each other. */
  predicate InOrder(ls: seq<Line>, wanted: seq<Line>)
    decreases |ls|
  {
    |wanted| == 0 ||
    (|ls| > 0 && ((ls[0] == wanted[0] && InOrder(ls[1..], wanted[1..])) || InOrder(ls[1..], wanted)))
  }

  lemma InOrderFirst(ls: seq<Line>, l: Line)
    requires |ls| > 0 && ls[0] == l
    ensures InOrder(ls, [l])
  {
    assert InOrder(ls[1..], [l][1..]);
  }

  lemma {:induction false} InOrderAfter(a: seq<Line>, b: seq<Line>, wanted: seq<Line>)
    requires InOrder(b, wanted)
    ensures InOrder(a + b, wanted)
    decreases |a|
  {
    if |a| > 0 && |wanted| > 0 {
      InOrderAfter(a[1..], b, wanted);
      assert (a + b)[1..] == a[1..] + b;
    } else if |a| == 0 {
      assert a + b == b;
    }
  }

  lemma {:induction false} InOrderConcat(a: seq<Line>, b: seq<Line>, w1: seq<Line>, w2: seq<Line>)
    requires InOrder(a, w1) && InOrder(b, w2)
    ensures InOrder(a + b, w1 + w2)
    decreases |a|
  {
    if |w1| == 0 {
      assert w1 + w2 == w2;
      InOrderAfter(a, b, w2);
    } else {
      assert (a + b)[0] == a[0] && (a + b)[1..] == a[1..] + b;
      assert (w1 + w2)[0] == w1[0] && (w1 + w2)[1..] == w1[1..] + w2;
      if a[0] == w1[0] && InOrder(a[1..], w1[1..]) {
        InOrderConcat(a[1..], b, w1[1..], w2);
      } else {
        InOrderConcat(a[1..], b, w1, w2);
      }
    }
  }

  lemma EndsWithAfter(a: seq<Line>, b: seq<Line>, suffix: seq<Line>)
    requires EndsWith(b, suffix)
    ensures EndsWith(a + b, suffix)
  {
    assert (a + b)[|a + b| - |suffix|..] == b[|b| - |suffix|..];
  }

  /** The names `get_var` handed out for the counter values `idx`. */
  function NamesAt(idx: seq<nat>): (names: seq<string>)
    ensures |names| == |idx|
  {
    seq(|idx|, i requires 0 <= i < |idx| => VarName(idx[i]))
  }

  lemma NamesAtCons(v: nat, idx: seq<nat>)
    ensures NamesAt([v] + idx) == [VarName(v)] + NamesAt(idx)
  {
  }

  /** Counter values taken one after the other between `lo` and `hi`. */
  ghost predicate IncreasingIn(idx: seq<nat>, lo: nat, hi: nat)
  {
    && (forall i :: 0 <= i < |idx| ==> lo <= idx[i] < hi)
    && (forall i, j :: 0 <= i < j < |idx| ==> idx[i] < idx[j])
  }

  /** Names taken at increasing counter values are all different. */
  lemma IncreasingNamesDistinct(idx: seq<nat>, lo: nat, hi: nat)
    requires IncreasingIn(idx, lo, hi)
    ensures forall i, j :: 0 <= i < j < |idx| ==> NamesAt(idx)[i] != NamesAt(idx)[j]
  {
    forall i, j | 0 <= i < j < |idx| ensures NamesAt(idx)[i] != NamesAt(idx)[j] {
      if NamesAt(idx)[i] == NamesAt(idx)[j] {
        VarNameInjective(idx[i], idx[j]);
      }
    }
  }

  lemma IncreasingCons(v: nat, idx: seq<nat>, lo: nat, mid: nat, hi: nat)
    requires IncreasingIn(idx, mid, hi) && lo <= v < mid <= hi
    ensures IncreasingIn([v] + idx, lo, hi)
  {
  }

  /** `ls` ends with binding `out` to the tuple of `acc` followed by the
      names taken at the counter values `idx`, which increase from `lo` on
      and stay below `hi`. */
  ghost predicate TupleOfFresh(ls: seq<Line>, d: int, outVar: string, acc: seq<string>, idx: seq<nat>, lo: nat, hi: nat)
  {
    && IncreasingIn(idx, lo, hi)
    && |ls| > 0 && ls[|ls| - 1] == Line(d, Assignment(outVar, TupleLiteral(acc + NamesAt(idx))))
  }

  lemma TupleOfFreshCons(ls1: seq<Line>, ls2: seq<Line>, d: int, outVar: string, acc: seq<string>, v: nat, idx: seq<nat>, lo: nat, mid: nat, hi: nat)
    requires TupleOfFresh(ls2, d, outVar, acc + [VarName(v)], idx, mid, hi) && lo <= v < mid <= hi
    ensures TupleOfFresh(ls1 + ls2, d, outVar, acc, [v] + idx, lo, hi)
  {
    IncreasingCons(v, idx, lo, mid, hi);
    NamesAtCons(v, idx);
    assert acc + NamesAt([v] + idx) == acc + [VarName(v)] + NamesAt(idx);
    assert (ls1 + ls2)[|ls1 + ls2| - 1] == ls2[|ls2| - 1];
  }

  // ---------------------------------------------------------------------
  // Fixed tuples (189-197, 299-305)

  /** `name = src[k]`, the code a native element compiles to, and nothing
      for an element that is not native. */
  function NativeRead(src: string, hint: TypeHint, name: string, k: nat, d: int): seq<Line>
  {
    if Native(hint) then [Line(d, Assignment(name, Subscript(src, NatToString(k))))] else []
  }

  /** The reads of the native elements among `hints`, the first at position
      `k`, into `names`. */
  function ReadLines(src: string, hints: seq<TypeHint>, names: seq<string>, k: nat, d: int): seq<Line>
    requires |names| == |hints|
    decreases |hints|
  {
    if |hints| == 0 then []
    else NativeRead(src, hints[0], names[0], k, d) + ReadLines(src, hints[1..], names[1..], k + 1, d)
  }

  /** What a fixed tuple's element loop leaves in `ls` from element `k` on:
      one fresh name per element, taken in order, every native element read
      from `src[i]` into its name, and `out` bound last to the tuple of
      `acc` and those names. */
  ghost predicate ElemsShape(ls: seq<Line>, d: int, src: string, outVar: string, hints: seq<TypeHint>, k: nat,
                             acc: seq<string>, idx: seq<nat>, lo: nat, hi: nat)
  {
    && |idx| == |hints|
    && TupleOfFresh(ls, d, outVar, acc, idx, lo, hi)
    && InOrder(ls, ReadLines(src, hints, NamesAt(idx), k, d))
  }

  /** No element left: `out` is bound to the tuple of `acc`. */
  lemma NoElements(ls: seq<Line>, d: int, src: string, outVar: string, hints: seq<TypeHint>, k: nat,
                   acc: seq<string>, lo: nat, hi: nat)
    requires |hints| == 0 && ls == [Line(d, Assignment(outVar, TupleLiteral(acc)))]
    ensures ElemsShape(ls, d, src, outVar, hints, k, acc, [], lo, hi)
  {
    assert acc + NamesAt([]) == acc;
  }

  /** One element compiled (`ls1`) before the rest of the tuple (`ls2`). */
  lemma ElementThenRest(ls1: seq<Line>, ls2: seq<Line>, d: int, src: string, outVar: string, hints: seq<TypeHint>, k: nat,
                        acc: seq<string>, v: nat, idx: seq<nat>, lo: nat, mid: nat, hi: nat)
    requires |hints| > 0 && lo <= v < mid <= hi
    requires InOrder(ls1, NativeRead(src, hints[0], VarName(v), k, d))
    requires ElemsShape(ls2, d, src, outVar, hints[1..], k + 1, acc + [VarName(v)], idx, mid, hi)
    ensures ElemsShape(ls1 + ls2, d, src, outVar, hints, k, acc, [v] + idx, lo, hi)
  {
    TupleOfFreshCons(ls1, ls2, d, outVar, acc, v, idx, lo, mid, hi);
    NamesAtCons(v, idx);
    assert NamesAt([v] + idx)[1..] == NamesAt(idx);
    InOrderConcat(ls1, ls2, NativeRead(src, hints[0], VarName(v), k, d), ReadLines(src, hints[1..], NamesAt(idx), k + 1, d));
  }

  /** A native element compiled from `src` into the fresh name: exactly its
      read. */
  lemma NativeElement(hint: TypeHint, src: string, g: Gen, o: Outcome, k: nat, compiled: bool)
    requires o == (if compiled then SerJson(hint, Subscript(src, NatToString(k)), VarName(g.varI), g.GetVar().1)
                   else DeserJson(hint, Subscript(src, NatToString(k)), VarName(g.varI), g.GetVar().1))
    requires Step(g.GetVar().1, o)
    ensures InOrder(Appended(g, o.g), NativeRead(src, hint, VarName(g.varI), k, g.indent))
  {
    if Native(hint) {
      NativeIsOneAssignment(hint, Subscript(src, NatToString(k)), VarName(g.varI), g.GetVar().1);
      assert Appended(g, o.g) == [Line(g.indent, Assignment(VarName(g.varI), Subscript(src, NatToString(k))))];
      InOrderFirst(Appended(g, o.g), Line(g.indent, Assignment(VarName(g.varI), Subscript(src, NatToString(k)))));
    }
  }

  lemma {:induction false} SerJsonTupleElemsShape(bound: nat, args: seq<TypeHint>, outVar: string, k: nat, acc: seq<string>, g: Gen)
    requires g.Valid() && k <= |args|
    requires forall i :: 0 <= i < |args| ==> Size(args[i]) < bound
    requires SerJsonTupleElems(bound, args, outVar, k, acc, g).Done?
    ensures var g' := SerJsonTupleElems(bound, args, outVar, k, acc, g).g;
            exists idx :: ElemsShape(Appended(g, g'), g.indent, outVar, outVar, args[k..], k, acc, idx, g.varI, g'.varI)
    decreases |args| - k
  {
    var r := SerJsonTupleElems(bound, args, outVar, k, acc, g);
    if k == |args| {
      assert Appended(g, r.g) == [Line(g.indent, Assignment(outVar, TupleLiteral(acc)))];
      NoElements(Appended(g, r.g), g.indent, outVar, outVar, args[k..], k, acc, g.varI, r.g.varI);
    } else {
      var (v, g1) := g.GetVar();
      var src := Subscript(outVar, NatToString(k));
      var o := SerJson(args[k], src, v, g1);
      SerJsonStep(args[k], src, v, g1);
      assert r == SerJsonTupleElems(bound, args, outVar, k + 1, acc + [v], o.g);
      SerJsonTupleElemsStep(bound, args, outVar, k + 1, acc + [v], o.g);
      SerJsonTupleElemsShape(bound, args, outVar, k + 1, acc + [v], o.g);
      var idx :| ElemsShape(Appended(o.g, r.g), o.g.indent, outVar, outVar, args[k + 1..], k + 1, acc + [v], idx, o.g.varI, r.g.varI);
      NativeElement(args[k], outVar, g, o, k, true);
      AppendedSplit(g, o.g, r.g);
      assert args[k..][0] == args[k] && args[k..][1..] == args[k + 1..];
      ElementThenRest(Appended(g, o.g), Appended(o.g, r.g), g.indent, outVar, outVar, args[k..], k, acc, g.varI, idx, g.varI, o.g.varI, r.g.varI);
    }
  }

  lemma {:induction false} DeserJsonTupleElemsShape(bound: nat, args: seq<TypeHint>, inVar: string, outVar: string, k: nat, acc: seq<string>, g: Gen)
    requires g.Valid() && k <= |args|
    requires forall i :: 0 <= i < |args| ==> Size(args[i]) < bound
    requires DeserJsonTupleElems(bound, args, inVar, outVar, k, acc, g).Done?
    ensures var g' := DeserJsonTupleElems(bound, args, inVar, outVar, k, acc, g).g;
            exists idx :: ElemsShape(Appended(g, g'), g.indent, inVar, outVar, args[k..], k, acc, idx, g.varI, g'.varI)
    decreases |args| - k
  {
    var r := DeserJsonTupleElems(bound, args, inVar, outVar, k, acc, g);
    if k == |args| {
      assert Appended(g, r.g) == [Line(g.indent, Assignment(outVar, TupleLiteral(acc)))];
      NoElements(Appended(g, r.g), g.indent, inVar, outVar, args[k..], k, acc, g.varI, r.g.varI);
    } else {
      var (v, g1) := g.GetVar();
      var src := Subscript(inVar, NatToString(k));
      var o := DeserJson(args[k], src, v, g1);
      DeserJsonStep(args[k], src, v, g1);
      assert r == DeserJsonTupleElems(bound, args, inVar, outVar, k + 1, acc + [v], o.g);
      DeserJsonTupleElemsStep(bound, args, inVar, outVar, k + 1, acc + [v], o.g);
      DeserJsonTupleElemsShape(bound, args, inVar, outVar, k + 1, acc + [v], o.g);
      var idx :| ElemsShape(Appended(o.g, r.g), o.g.indent, inVar, outVar, args[k + 1..], k + 1, acc + [v], idx, o.g.varI, r.g.varI);
      NativeElement(args[k], inVar, g, o, k, false);
      AppendedSplit(g, o.g, r.g);
      assert args[k..][0] == args[k] && args[k..][1..] == args[k + 1..];
      ElementThenRest(Appended(g, o.g), Appended(o.g, r.g), g.indent, inVar, outVar, args[k..], k, acc, g.varI, idx, g.varI, o.g.varI, r.g.varI);
    }
  }

  /** 189-197: a fixed tuple that is not native and compiles takes one
      fresh name per element, in order, reads each native element `i` from
      `out[i]` (not from the input) into its name, and ends by binding
      `out` to the tuple of those names. */
  lemma FixedTupleSerializerShape(args: seq<TypeHint>, inVar: string, outVar: string, g: Gen)
    requires g.Valid() && !(|args| == 2 && args[1] == Ellipsis) && IsJsonType(TupleOf(args)) == Ok(false)
    requires SerJson(TupleOf(args), inVar, outVar, g).Done?
    ensures var g' := SerJson(TupleOf(args), inVar, outVar, g).g;
            exists idx :: ElemsShape(Appended(g, g'), g.indent, outVar, outVar, args, 0, [], idx, g.varI, g'.varI)
  {
    var t := TupleOf(args);
    assert TupleClass != UnionTypeClass;
    assert DispatchedHint(t) == Ok(t) && Base(t) == OClass(TupleClass);
    GetArgsSmaller(t);
    assert GetArgs(t) == args;
    assert SerJson(t, inVar, outVar, g) == SerJsonClass(t, TupleClass, inVar, outVar, g);
    assert SerJsonClass(t, TupleClass, inVar, outVar, g) == SerJsonTupleElems(Size(t), args, outVar, 0, [], g);
    SerJsonTupleElemsShape(Size(t), args, outVar, 0, [], g);
    assert args[0..] == args;
  }

  /** 299-305: the deserializer's fixed tuple reads each native element
      `i` from `in[i]` into a fresh name, in order, and binds `out` to the
      tuple of those names last. */
  lemma FixedTupleDeserializerShape(args: seq<TypeHint>, inVar: string, outVar: string, g: Gen)
    requires g.Valid() && !(|args| == 2 && args[1] == Ellipsis) && IsJsonType(TupleOf(args)) == Ok(false)
    requires DeserJson(TupleOf(args), inVar, outVar, g).Done?
    ensures var g' := DeserJson(TupleOf(args), inVar, outVar, g).g;
            exists idx :: ElemsShape(Appended(g, g'), g.indent, inVar, outVar, args, 0, [], idx, g.varI, g'.varI)
  {
    var t := TupleOf(args);
    assert TupleClass != UnionTypeClass;
    assert DispatchedHint(t) == Ok(t) && Base(t) == OClass(TupleClass);
    GetArgsSmaller(t);
    assert GetArgs(t) == args;
    assert DeserJson(t, inVar, outVar, g) == DeserJsonClass(t, TupleClass, inVar, outVar, g);
    assert DeserJsonClass(t, TupleClass, inVar, outVar, g) == DeserJsonTupleElems(Size(t), args, inVar, outVar, 0, [], g);
    DeserJsonTupleElemsShape(Size(t), args, inVar, outVar, 0, [], g);
    assert args[0..] == args;
  }

  // ---------------------------------------------------------------------
  // The hooks of SimpleSerializable (serializable.py:156-198)

  /** `name_i = in.field_i`, the binding the hook serializer emits for each
      selected field. */
  function BindLines(inVar: string, fields: seq<Entry>, names: seq<string>, d: int): seq<Line>
    requires |names| == |fields|
    decreases |fields|
  {
    if |fields| == 0 then []
    else [Line(d, Assignment(names[0], inVar + "." + fields[0].name))] + BindLines(inVar, fields[1..], names[1..], d)
  }

  /** What the hook serializer's field loop leaves in `ls`: one fresh name
      per field, taken in order, each bound from the field's attribute, and
      `out` bound last to the tuple of `acc` and those names. */
  ghost predicate FieldsShape(ls: seq<Line>, d: int, inVar: string, outVar: string, fields: seq<Entry>,
                              acc: seq<string>, idx: seq<nat>, lo: nat, hi: nat)
  {
    && |idx| == |fields|
    && TupleOfFresh(ls, d, outVar, acc, idx, lo, hi)
    && InOrder(ls, BindLines(inVar, fields, NamesAt(idx), d))
  }

  lemma NoFields(ls: seq<Line>, d: int, inVar: string, outVar: string, fields: seq<Entry>, acc: seq<string>, lo: nat, hi: nat)
    requires |fields| == 0 && ls == [Line(d, Assignment(outVar, TupleLiteral(acc)))]
    ensures FieldsShape(ls, d, inVar, outVar, fields, acc, [], lo, hi)
  {
    assert acc + NamesAt([]) == acc;
  }

  /** One field's binding and conversion (`ls1`) before the other fields
      (`ls2`). */
  lemma FieldThenRest(ls1: seq<Line>, ls2: seq<Line>, d: int, inVar: string, outVar: string, fields: seq<Entry>,
                      acc: seq<string>, v: nat, idx: seq<nat>, lo: nat, mid: nat, hi: nat)
    requires |fields| > 0 && lo <= v < mid <= hi
    requires |ls1| > 0 && ls1[0] == Line(d, Assignment(VarName(v), inVar + "." + fields[0].name))
    requires FieldsShape(ls2, d, inVar, outVar, fields[1..], acc + [VarName(v)], idx, mid, hi)
    ensures FieldsShape(ls1 + ls2, d, inVar, outVar, fields, acc, [v] + idx, lo, hi)
  {
    TupleOfFreshCons(ls1, ls2, d, outVar, acc, v, idx, lo, mid, hi);
    NamesAtCons(v, idx);
    assert NamesAt([v] + idx)[1..] == NamesAt(idx);
    InOrderFirst(ls1, ls1[0]);
    InOrderConcat(ls1, ls2, [ls1[0]], BindLines(inVar, fields[1..], NamesAt(idx), d));
  }

  lemma {:induction false} RecordSerFieldsShape(bound: nat, fields: seq<Entry>, inVar: string, outVar: string, k: nat, acc: seq<string>, g: Gen)
    requires g.Valid() && k <= |fields| && HintsBelow(fields, bound)
    requires RecordSerFields(bound, fields, inVar, outVar, k, acc, g).Done?
    ensures var g' := RecordSerFields(bound, fields, inVar, outVar, k, acc, g).g;
            exists idx :: FieldsShape(Appended(g, g'), g.indent, inVar, outVar, fields[k..], acc, idx, g.varI, g'.varI)
    decreases |fields| - k
  {
    var r := RecordSerFields(bound, fields, inVar, outVar, k, acc, g);
    if k == |fields| {
      assert Appended(g, r.g) == [Line(g.indent, Assignment(outVar, TupleLiteral(acc)))];
      NoFields(Appended(g, r.g), g.indent, inVar, outVar, fields[k..], acc, g.varI, r.g.varI);
    } else {
      var (v, g1) := g.GetVar();
      var bind := inVar + "." + fields[k].name;
      var ga := g1.Assign(v, bind);
      GrowsGetVar(g);
      GrowsAssign(g1, v, bind);
      GrowsTrans(g, g1, ga);
      var o := SerJson(fields[k].hint, v, v, ga);
      SerJsonStep(fields[k].hint, v, v, ga);
      assert r == RecordSerFields(bound, fields, inVar, outVar, k + 1, acc + [v], o.g);
      RecordSerFieldsStep(bound, fields, inVar, outVar, k + 1, acc + [v], o.g);
      RecordSerFieldsShape(bound, fields, inVar, outVar, k + 1, acc + [v], o.g);
      var idx :| FieldsShape(Appended(o.g, r.g), o.g.indent, inVar, outVar, fields[k + 1..], acc + [v], idx, o.g.varI, r.g.varI);
      AppendedSplit(g, o.g, r.g);
      assert Appended(g, o.g)[0] == ga.statements[|g.statements|] == Line(g.indent, Assignment(v, bind));
      assert fields[k..][0] == fields[k] && fields[k..][1..] == fields[k + 1..];
      FieldThenRest(Appended(g, o.g), Appended(o.g, r.g), g.indent, inVar, outVar, fields[k..], acc, g.varI, idx, g.varI, o.g.varI, r.g.varI);
    }
  }

  /** serializable.py:156-174: the hook serializer binds each field that
      `_get_serialize_fields` selects, in declaration order, to a fresh
      name from the input's attribute of that name, and ends by binding
      `out` to the tuple of those names: a record is serialized as the
      tuple of its selected fields. */
  lemma RecordSerShape(c: Class, decl: RecordDecl, inVar: string, outVar: string, g: Gen)
    requires g.Valid() && RecordSer(c, decl, inVar, outVar, g).Done?
    ensures var g' := RecordSer(c, decl, inVar, outVar, g).g;
            exists idx :: FieldsShape(Appended(g, g'), g.indent, inVar, outVar, SelectFields(decl), [], idx, g.varI, g'.varI)
  {
    RecordFieldsSmaller(c, decl);
    RecordSerFieldsShape(Size(Record(c, decl)), SelectFields(decl), inVar, outVar, 0, [], g);
    assert SelectFields(decl)[0..] == SelectFields(decl);
  }

  /** For each field from position `k` on: its read from `in[k]` when its
      type is native, then `setattr(obj, 'name', v)`. */
  function DeserFieldLines(inVar: string, obj: string, fields: seq<Entry>, names: seq<string>, k: nat, d: int): seq<Line>
    requires |names| == |fields|
    decreases |fields|
  {
    if |fields| == 0 then []
    else NativeRead(inVar, fields[0].hint, names[0], k, d)
         + [Line(d, LiteralStatement(SetAttr(obj, fields[0].name, names[0])))]
         + DeserFieldLines(inVar, obj, fields[1..], names[1..], k + 1, d)
  }

  /** The two lines the hook deserializer ends with: the instance's
      `__deserialize_init__()` and the binding of `out` to it. */
  function InitThenBind(obj: string, outVar: string, d: int): seq<Line>
  {
    [Line(d, LiteralStatement(InitCall(obj))), Line(d, Assignment(outVar, obj))]
  }

  /** What the hook deserializer's field loop leaves in `ls`: one fresh
      name per field, taken in order, every field set on `obj` from its
      name (after a read from `in[k]` for a native field), then the
      instance initialised and bound to `out`. */
  ghost predicate DeserFieldsShape(ls: seq<Line>, d: int, inVar: string, outVar: string, obj: string, fields: seq<Entry>,
                                   k: nat, idx: seq<nat>, lo: nat, hi: nat)
  {
    && |idx| == |fields|
    && IncreasingIn(idx, lo, hi)
    && InOrder(ls, DeserFieldLines(inVar, obj, fields, NamesAt(idx), k, d))
    && EndsWith(ls, InitThenBind(obj, outVar, d))
  }

  lemma DeserFieldsShapeAfter(a: seq<Line>, ls: seq<Line>, d: int, inVar: string, outVar: string, obj: string, fields: seq<Entry>,
                              k: nat, idx: seq<nat>, lo: nat, hi: nat)
    requires DeserFieldsShape(ls, d, inVar, outVar, obj, fields, k, idx, lo, hi)
    ensures DeserFieldsShape(a + ls, d, inVar, outVar, obj, fields, k, idx, lo, hi)
  {
    InOrderAfter(a, ls, DeserFieldLines(inVar, obj, fields, NamesAt(idx), k, d));
    EndsWithAfter(a, ls, InitThenBind(obj, outVar, d));
  }

  lemma DeserFieldThenRest(ls1: seq<Line>, ls2: seq<Line>, d: int, inVar: string, outVar: string, obj: string, fields: seq<Entry>,
                           k: nat, v: nat, idx: seq<nat>, lo: nat, mid: nat, hi: nat)
    requires |fields| > 0 && lo <= v < mid <= hi
    requires InOrder(ls1, NativeRead(inVar, fields[0].hint, VarName(v), k, d)
                          + [Line(d, LiteralStatement(SetAttr(obj, fields[0].name, VarName(v))))])
    requires DeserFieldsShape(ls2, d, inVar, outVar, obj, fields[1..], k + 1, idx, mid, hi)
    ensures DeserFieldsShape(ls1 + ls2, d, inVar, outVar, obj, fields, k, [v] + idx, lo, hi)
  {
    IncreasingCons(v, idx, lo, mid, hi);
    NamesAtCons(v, idx);
    assert NamesAt([v] + idx)[1..] == NamesAt(idx);
    InOrderConcat(ls1, ls2, NativeRead(inVar, fields[0].hint, VarName(v), k, d)
                            + [Line(d, LiteralStatement(SetAttr(obj, fields[0].name, VarName(v))))],
                  DeserFieldLines(inVar, obj, fields[1..], NamesAt(idx), k + 1, d));
    EndsWithAfter(ls1, ls2, InitThenBind(obj, outVar, d));
  }

  lemma AppendedLiteral(g: Gen, h: Gen, x: string)
    requires g.statements <= h.statements
    ensures Appended(g, h.Literal([x])) == Appended(g, h) + [Line(h.indent, LiteralStatement(x))]
  {
  }

  /** One field: the compile of its value into the fresh name, then the
      `setattr` line. */
  lemma DeserFieldLinesOne(hint: TypeHint, inVar: string, obj: string, name: string, g: Gen, o: Outcome, k: nat)
    requires o == DeserJson(hint, Subscript(inVar, NatToString(k)), VarName(g.varI), g.GetVar().1)
    requires Step(g.GetVar().1, o) && o.Done?
    ensures var g2 := o.g.Literal([SetAttr(obj, name, VarName(g.varI))]);
            InOrder(Appended(g, g2), NativeRead(inVar, hint, VarName(g.varI), k, g.indent)
                                     + [Line(g.indent, LiteralStatement(SetAttr(obj, name, VarName(g.varI))))])
  {
    var line := Line(g.indent, LiteralStatement(SetAttr(obj, name, VarName(g.varI))));
    NativeElement(hint, inVar, g, o, k, false);
    AppendedLiteral(g, o.g, SetAttr(obj, name, VarName(g.varI)));
    InOrderFirst([line], line);
    InOrderConcat(Appended(g, o.g), [line], NativeRead(inVar, hint, VarName(g.varI), k, g.indent), [line]);
  }

  lemma NoDeserFields(ls: seq<Line>, d: int, inVar: string, outVar: string, obj: string, fields: seq<Entry>, k: nat, lo: nat, hi: nat)
    requires |fields| == 0 && ls == InitThenBind(obj, outVar, d)
    ensures DeserFieldsShape(ls, d, inVar, outVar, obj, fields, k, [], lo, hi)
  {
    assert DeserFieldLines(inVar, obj, fields, NamesAt([]), k, d) == [];
  }

  /** One completed field of the hook deserializer: the state `g2` after
      it, from which the other fields go on. */
  lemma DeserFieldFacts(bound: nat, fields: seq<Entry>, inVar: string, outVar: string, obj: string, k: nat, g: Gen) returns (g2: Gen)
    requires g.Valid() && k < |fields| && HintsBelow(fields, bound)
    requires RecordDeserFields(bound, fields, inVar, outVar, obj, k, g).Done?
    ensures RecordDeserFields(bound, fields, inVar, outVar, obj, k, g) == RecordDeserFields(bound, fields, inVar, outVar, obj, k + 1, g2)
    ensures g2.Valid() && g2.indent == g.indent && g.varI < g2.varI && g.statements <= g2.statements
    ensures InOrder(Appended(g, g2), NativeRead(inVar, fields[k].hint, VarName(g.varI), k, g.indent)
                                     + [Line(g.indent, LiteralStatement(SetAttr(obj, fields[k].name, VarName(g.varI))))])
  {
    var (v, g1) := g.GetVar();
    GrowsGetVar(g);
    var o := DeserJson(fields[k].hint, Subscript(inVar, NatToString(k)), v, g1);
    DeserJsonStep(fields[k].hint, Subscript(inVar, NatToString(k)), v, g1);
    g2 := o.g.Literal([SetAttr(obj, fields[k].name, v)]);
    GrowsLiteral(o.g, [SetAttr(obj, fields[k].name, v)]);
    DeserFieldLinesOne(fields[k].hint, inVar, obj, fields[k].name, g, o, k);
  }

  /** The counter values the field loop took, from field `k` on. */
  lemma {:induction false} RecordDeserFieldsShape(bound: nat, fields: seq<Entry>, inVar: string, outVar: string, obj: string, k: nat, g: Gen)
    returns (idx: seq<nat>)
    requires g.Valid() && k <= |fields| && HintsBelow(fields, bound)
    requires RecordDeserFields(bound, fields, inVar, outVar, obj, k, g).Done?
    ensures var g' := RecordDeserFields(bound, fields, inVar, outVar, obj, k, g).g;
            DeserFieldsShape(Appended(g, g'), g.indent, inVar, outVar, obj, fields[k..], k, idx, g.varI, g'.varI)
    decreases |fields| - k
  {
    var r := RecordDeserFields(bound, fields, inVar, outVar, obj, k, g);
    if k == |fields| {
      assert Appended(g, r.g) == InitThenBind(obj, outVar, g.indent);
      NoDeserFields(Appended(g, r.g), g.indent, inVar, outVar, obj, fields[k..], k, g.varI, r.g.varI);
      idx := [];
    } else {
      var g2 := DeserFieldFacts(bound, fields, inVar, outVar, obj, k, g);
      RecordDeserFieldsStep(bound, fields, inVar, outVar, obj, k + 1, g2);
      var rest := RecordDeserFieldsShape(bound, fields, inVar, outVar, obj, k + 1, g2);
      AppendedSplit(g, g2, r.g);
      assert fields[k..][0] == fields[k] && fields[k..][1..] == fields[k + 1..];
      DeserFieldThenRest(Appended(g, g2), Appended(g2, r.g), g.indent, inVar, outVar, obj, fields[k..], k, g.varI, rest, g.varI, g2.varI, r.g.varI);
      idx := [g.varI] + rest;
    }
  }

  /** serializable.py:176-198: the hook deserializer registers the class as
      a new constant, binds a fresh name to `Class.__new__(Class)` first,
      sets every field `_get_serialize_fields` selects on it, in
      declaration order, from its position in the input, and ends by
      calling `__deserialize_init__()` and binding `out` to the instance. */
  lemma RecordDeserShape(c: Class, decl: RecordDecl, inVar: string, outVar: string, g: Gen)
    requires g.Valid() && RecordDeser(c, decl, inVar, outVar, g).Done?
    ensures var g' := RecordDeser(c, decl, inVar, outVar, g).g;
            var cv, obj := VarName(g.varI), VarName(g.varI + 1);
            && cv !in g.consts && cv in g'.consts && g'.consts[cv] == ObjectConst(OClass(c))
            && |Appended(g, g')| > 0 && Appended(g, g')[0] == Line(g.indent, Assignment(obj, NewInstance(cv)))
            && SetsFieldsInOrder(Appended(g, g'), g.indent, inVar, outVar, obj, SelectFields(decl), g.varI + 2, g'.varI)
  {
    RecordFieldsSmaller(c, decl);
    var fields := SelectFields(decl);
    var bound := Size(Record(c, decl));
    var start := RecordDeserOpen(c, g);
    RecordDeserOpenShape(c, g);
    var r := RecordDeserFields(bound, fields, inVar, outVar, start.0, 0, start.1);
    assert r == RecordDeser(c, decl, inVar, outVar, g);
    RecordDeserFieldsStep(bound, fields, inVar, outVar, start.0, 0, start.1);
    var idx := RecordDeserFieldsShape(bound, fields, inVar, outVar, start.0, 0, start.1);
    assert fields[0..] == fields;
    AppendedSplit(g, start.1, r.g);
    DeserFieldsShapeAfter(Appended(g, start.1), Appended(start.1, r.g), g.indent, inVar, outVar, start.0, fields, 0, idx, start.1.varI, r.g.varI);
  }

  /** The start of the hook deserializer: a new constant for the class and
      one line binding a fresh name to an empty instance. */
  lemma RecordDeserOpenShape(c: Class, g: Gen)
    requires g.Valid()
    ensures var (obj, g1) := RecordDeserOpen(c, g);
            var cv := VarName(g.varI);
            && obj == VarName(g.varI + 1) && g1.varI == g.varI + 2 && g1.indent == g.indent
            && Grows(g, g1) && cv !in g.consts && g1.consts[cv] == ObjectConst(OClass(c))
            && Appended(g, g1) == [Line(g.indent, Assignment(obj, NewInstance(cv)))]
  {
    GrowsGetConst(g, OClass(c));
    RecordDeserOpenStep(c, g);
  }

  /** The fields are set on `obj` in order from the input's positions, with
      names taken from `lo` on, and `obj` is initialised and bound last. */
  ghost predicate SetsFieldsInOrder(ls: seq<Line>, d: int, inVar: string, outVar: string, obj: string, fields: seq<Entry>, lo: nat, hi: nat)
  {
    exists idx :: DeserFieldsShape(ls, d, inVar, outVar, obj, fields, 0, idx, lo, hi)
  }

  // ---------------------------------------------------------------------
  // Sequences and mappings (160-217, 275-331)

  /** 198-217, 310-331: a collection that is neither native nor a fixed
      tuple raises `IndexError` without arguments and
      `DeserializationError` unless exactly one argument is left once a
      trailing `...` is dropped; otherwise both compilers take the sequence
      case with the first argument as the element type. */
  lemma CollectionCases(c: Class, args: seq<TypeHint>, inVar: string, outVar: string, g: Gen)
    requires c.isCollection && !c.isMapping && !c.isJsonScalar
    requires !IsFixedTuple(c, args) && IsJsonType(Generic(c, args)) == Ok(false)
    ensures var t := Generic(c, args);
            && (|args| == 0 ==> SerJson(t, inVar, outVar, g) == Raised(IndexError, g)
                                && DeserJson(t, inVar, outVar, g) == Raised(IndexError, g))
            && (|args| > 0 && |DropEllipsis(args)| != 1 ==>
                  SerJson(t, inVar, outVar, g) == Raised(DeserializationError, g)
                  && DeserJson(t, inVar, outVar, g) == Raised(DeserializationError, g))
            && (|args| > 0 && |DropEllipsis(args)| == 1 ==>
                  && Size(args[0]) < Size(t)
                  && SerJson(t, inVar, outVar, g) == SerJsonCollection(Size(t), args[0], inVar, outVar, g)
                  && DeserJson(t, inVar, outVar, g) == DeserJsonCollection(Size(t), c, args[0], inVar, outVar, g))
  {
    var t := Generic(c, args);
    assert c != UnionTypeClass;
    assert DispatchedHint(t) == Ok(t) && Base(t) == OClass(c);
    GetArgsSmaller(t);
    assert SerJson(t, inVar, outVar, g) == SerJsonClass(t, c, inVar, outVar, g);
    assert DeserJson(t, inVar, outVar, g) == DeserJsonClass(t, c, inVar, outVar, g);
  }

  /** A loop opened by the two statements `s1`, `s2` at indent `d`, whose
      body grew to `inner` and is closed by `left = right` and the dedent:
      at indent `d` only `s1` and `s2`, and the store is the last line of
      the body. */
  lemma StoreLoopShape(g: Gen, g1: Gen, inner: Gen, s1: Statement, s2: Statement, left: string, right: string)
    requires g1.statements == g.statements + [Line(g.indent, s1), Line(g.indent, s2)] && g1.indent == g.indent + 1
    requires Grows(g1, inner) && inner.indent == g1.indent
    ensures var rest := inner.Assign(left, right).Dedent();
            && AtIndent(Appended(g, rest), g.indent) == [s1, s2]
            && |rest.statements| >= 2
            && rest.statements[|rest.statements| - 2] == Line(g.indent + 1, Assignment(left, right))
            && rest.consts == inner.consts
  {
    BlockEndingWithAssign(g, g1, inner, left, right);
    AppendedTwo(g, g1, s1, s2);
  }

  /** As `StoreLoopShape`, for a body closed by the literal `line` and
      followed by `left = right` after the dedent. */
  lemma AppendLoopShape(g: Gen, g1: Gen, inner: Gen, s1: Statement, s2: Statement, line: string, left: string, right: string)
    requires g1.statements == g.statements + [Line(g.indent, s1), Line(g.indent, s2)] && g1.indent == g.indent + 1
    requires Grows(g1, inner) && inner.indent == g1.indent
    ensures var rest := inner.Literal([line]).Dedent().Assign(left, right);
            && AtIndent(Appended(g, rest), g.indent) == [s1, s2, Assignment(left, right)]
            && |rest.statements| >= 3
            && rest.statements[|rest.statements| - 1] == Line(g.indent, Assignment(left, right))
            && rest.statements[|rest.statements| - 3] == Line(g.indent + 1, LiteralStatement(line))
            && rest.consts == inner.consts
  {
    var body := inner.Literal([line]);
    GrowsLiteral(inner, [line]);
    GrowsTrans(g1, inner, body);
    GrowsDedent(body);
    BlockThenAssign(g, g1, body, left, right);
    AppendedTwo(g, g1, s1, s2);
  }

  /** 198-217: the sequence case binds `out` to a list copy of the input
      and walks it with `enumerate`; at its own indent it emits nothing
      else, and the loop body ends by storing the compiled element back at
      its position, `out[i] = v`. */
  lemma SerJsonCollectionShape(bound: nat, elemType: TypeHint, inVar: string, outVar: string, g: Gen)
    requires g.Valid() && Size(elemType) < bound
    requires SerJsonCollection(bound, elemType, inVar, outVar, g).Done?
    ensures var g' := SerJsonCollection(bound, elemType, inVar, outVar, g).g;
            var i, v := VarName(g.varI), VarName(g.varI + 1);
            && AtIndent(Appended(g, g'), g.indent)
               == [Assignment(outVar, "list(" + inVar + ")"),
                   LiteralStatement("for " + i + ", " + v + " in enumerate(" + outVar + "):")]
            && |g'.statements| >= 2
            && g'.statements[|g'.statements| - 2] == Line(g.indent + 1, Assignment(Subscript(outVar, i), v))
  {
    var (names, g1) := SerCollectionOpen(inVar, outVar, g);
    SerCollectionOpenStep(inVar, outVar, g);
    var o := SerJson(elemType, names[1], names[1], g1);
    SerJsonStep(elemType, names[1], names[1], g1);
    assert SerJsonCollection(bound, elemType, inVar, outVar, g) == Done(o.g.Assign(Subscript(outVar, names[0]), names[1]).Dedent());
    BlockEndingWithAssign(g, g1, o.g, Subscript(outVar, names[0]), names[1]);
    SerCollectionOpenTop(inVar, outVar, g);
  }

  lemma DeserJsonCollectionOpenShape(c: Class, inVar: string, outVar: string, g: Gen)
    requires g.Valid()
    ensures var (cv, e, g1) := DeserJsonCollectionOpen(c, inVar, outVar, g);
            && cv == VarName(g.varI) && e == VarName(g.varI + 1)
            && cv !in g.consts && g1.consts[cv] == ObjectConst(OClass(c))
            && g1.indent == g.indent + 1 && Grows(g, g1)
            && g1.statements == g.statements + [Line(g.indent, Assignment(outVar, "[]")), Line(g.indent, LiteralStatement(ForEach(e, inVar)))]
  {
    GrowsGetConst(g, OClass(c));
    DeserJsonCollectionOpenStep(c, inVar, outVar, g);
  }

  /** 310-331: the deserializer's sequence case registers the concrete
      class as a new constant, binds `out` to an empty list, appends each
      compiled element to it as the last statement of the loop body, and
      after the loop converts the list to the class: at its own indent it
      emits exactly these three statements, the conversion last. */
  lemma DeserJsonCollectionShape(bound: nat, c: Class, elemType: TypeHint, inVar: string, outVar: string, g: Gen)
    requires g.Valid() && Size(elemType) < bound
    requires DeserJsonCollection(bound, c, elemType, inVar, outVar, g).Done?
    ensures var g' := DeserJsonCollection(bound, c, elemType, inVar, outVar, g).g;
            var cv, e := VarName(g.varI), VarName(g.varI + 1);
            && cv !in g.consts && cv in g'.consts && g'.consts[cv] == ObjectConst(OClass(c))
            && AtIndent(Appended(g, g'), g.indent)
               == [Assignment(outVar, "[]"), LiteralStatement(ForEach(e, inVar)),
                   Assignment(outVar, Call(cv, outVar))]
            && |g'.statements| >= 3
            && g'.statements[|g'.statements| - 1] == Line(g.indent, Assignment(outVar, Call(cv, outVar)))
            && g'.statements[|g'.statements| - 3] == Line(g.indent + 1, LiteralStatement(AppendCall(outVar, e)))
  {
    DeserJsonCollectionOpenShape(c, inVar, outVar, g);
    var g1 := DeserJsonCollectionOpen(c, inVar, outVar, g).2;
    var inner := DeserJsonCollectionBody(bound, c, elemType, inVar, outVar, g);
    var cv, e := VarName(g.varI), VarName(g.varI + 1);
    AppendLoopShape(g, g1, inner, Assignment(outVar, "[]"), LiteralStatement(ForEach(e, inVar)), AppendCall(outVar, e), outVar, Call(cv, outVar));
  }

  /** A completed sequence case is its opened loop, a body that grows the
      builder at the loop's indent, the append and the conversion. */
  lemma DeserJsonCollectionBody(bound: nat, c: Class, elemType: TypeHint, inVar: string, outVar: string, g: Gen)
    returns (inner: Gen)
    requires g.Valid() && Size(elemType) < bound
    requires DeserJsonCollection(bound, c, elemType, inVar, outVar, g).Done?
    ensures var g1 := DeserJsonCollectionOpen(c, inVar, outVar, g).2;
            var cv, e := VarName(g.varI), VarName(g.varI + 1);
            && Grows(g1, inner) && inner.indent == g1.indent
            && DeserJsonCollection(bound, c, elemType, inVar, outVar, g).g
               == inner.Literal([AppendCall(outVar, e)]).Dedent().Assign(outVar, Call(cv, outVar))
  {
    var (cv, e, g1) := DeserJsonCollectionOpen(c, inVar, outVar, g);
    DeserJsonCollectionOpenStep(c, inVar, outVar, g);
    var o := DeserJson(elemType, e, e, g1);
    DeserJsonStep(elemType, e, e, g1);
    inner := o.g;
  }

  /** 160-186, 275-292: a two-argument mapping that is not native. The
      deserializer always takes its mapping case. The serializer, when
      `get_vars()` gives two names, raises `TypeError` for a key type that
      is not a class and otherwise, for a key type that is not a `str`
      subclass, takes the general mapping case with those two names. */
  lemma MappingCases(c: Class, keyType: TypeHint, valueType: TypeHint, inVar: string, outVar: string, g: Gen)
    requires c.isMapping && !c.isJsonScalar && IsJsonType(Generic(c, [keyType, valueType])) == Ok(false)
    ensures var t := Generic(c, [keyType, valueType]);
            && Size(keyType) < Size(t) && Size(valueType) < Size(t)
            && DeserJson(t, inVar, outVar, g) == DeserJsonMapping(Size(t), c, keyType, valueType, inVar, outVar, g)
            && (g.defaultCount == 2 && IsStrSubclass(keyType).Err? ==>
                  SerJson(t, inVar, outVar, g) == Raised(TypeError, g.(varI := g.varI + 2)))
            && (g.defaultCount == 2 && IsStrSubclass(keyType) == Ok(false) ==>
                  SerJson(t, inVar, outVar, g)
                  == SerJsonMapping(Size(t), keyType, valueType, inVar, outVar, VarName(g.varI), VarName(g.varI + 1), g.(varI := g.varI + 2)))
  {
    var t := Generic(c, [keyType, valueType]);
    assert c != UnionTypeClass;
    assert DispatchedHint(t) == Ok(t) && Base(t) == OClass(c);
    GetArgsSmaller(t);
    assert GetArgs(t)[0] == keyType && GetArgs(t)[1] == valueType;
    assert SerJson(t, inVar, outVar, g) == SerJsonClass(t, c, inVar, outVar, g);
    assert SerJsonClass(t, c, inVar, outVar, g) == SerJsonMappingCase(Size(t), keyType, valueType, inVar, outVar, g);
    assert DeserJson(t, inVar, outVar, g) == DeserJsonClass(t, c, inVar, outVar, g);
    UnpackTwoCases(g);
    if IsStrSubclass(keyType).Err? {
      assert IsStrSubclass(keyType).error == TypeError;
    }
  }

  /** 176-186: the general mapping case binds `out` to a new dict and walks
      the input's items; at its own indent it emits nothing else, and the
      loop body ends by storing the compiled value under the compiled key,
      `out[k] = v`. */
  lemma SerJsonMappingShape(bound: nat, keyType: TypeHint, valueType: TypeHint, inVar: string, outVar: string, k: string, v: string, g: Gen)
    requires g.Valid() && Size(keyType) < bound && Size(valueType) < bound
    requires SerJsonMapping(bound, keyType, valueType, inVar, outVar, k, v, g).Done?
    ensures var g' := SerJsonMapping(bound, keyType, valueType, inVar, outVar, k, v, g).g;
            && AtIndent(Appended(g, g'), g.indent)
               == [LiteralStatement(EmptyDict(outVar)), LiteralStatement(ForItems(k, v, inVar))]
            && |g'.statements| >= 2
            && g'.statements[|g'.statements| - 2] == Line(g.indent + 1, Assignment(Subscript(outVar, k), v))
  {
    var g1, inner := SerJsonMappingBody(bound, keyType, valueType, inVar, outVar, k, v, g);
    StoreLoopShape(g, g1, inner, LiteralStatement(EmptyDict(outVar)), LiteralStatement(ForItems(k, v, inVar)), Subscript(outVar, k), v);
  }

  /** A completed general mapping case is its opened loop, a body that
      grows the builder at the loop's indent, and the closing store. */
  lemma SerJsonMappingBody(bound: nat, keyType: TypeHint, valueType: TypeHint, inVar: string, outVar: string, k: string, v: string, g: Gen)
    returns (g1: Gen, inner: Gen)
    requires g.Valid() && Size(keyType) < bound && Size(valueType) < bound
    requires SerJsonMapping(bound, keyType, valueType, inVar, outVar, k, v, g).Done?
    ensures g1 == OpenLoop(g, EmptyDict(outVar), ForItems(k, v, inVar))
    ensures Grows(g1, inner) && inner.indent == g1.indent
    ensures SerJsonMapping(bound, keyType, valueType, inVar, outVar, k, v, g).g == inner.Assign(Subscript(outVar, k), v).Dedent()
  {
    g1 := OpenLoop(g, EmptyDict(outVar), ForItems(k, v, inVar));
    OpenLoopStep(g, EmptyDict(outVar), ForItems(k, v, inVar));
    var o1 := SerJson(keyType, k, k, g1);
    SerJsonStep(keyType, k, k, g1);
    var o2 := SerJson(valueType, v, v, o1.g);
    SerJsonStep(valueType, v, v, o1.g);
    GrowsTrans(g1, o1.g, o2.g);
    inner := o2.g;
  }

  lemma DeserJsonMappingOpenShape(c: Class, inVar: string, outVar: string, g: Gen)
    requires g.Valid()
    ensures var (names, g1) := DeserJsonMappingOpen(c, inVar, outVar, g);
            var cv := VarName(g.varI);
            && names == [VarName(g.varI + 1), VarName(g.varI + 2)]
            && cv !in g.consts && g1.consts[cv] == ObjectConst(OClass(c))
            && g1.indent == g.indent + 1 && Grows(g, g1)
            && g1.statements == g.statements + [Line(g.indent, Assignment(outVar, Call(cv, ""))),
                                                Line(g.indent, LiteralStatement(ForItems(names[0], names[1], inVar)))]
  {
    GrowsGetConst(g, OClass(c));
    DeserJsonMappingOpenStep(c, inVar, outVar, g);
  }

  /** 275-292: the deserializer's mapping case registers the concrete class
      as a new constant, binds `out` to an empty instance of it and walks
      the input's items; at its own indent it emits nothing else, and the
      loop body ends with `out[k] = v`. */
  lemma DeserJsonMappingShape(bound: nat, c: Class, keyType: TypeHint, valueType: TypeHint, inVar: string, outVar: string, g: Gen)
    requires g.Valid() && Size(keyType) < bound && Size(valueType) < bound
    requires DeserJsonMapping(bound, c, keyType, valueType, inVar, outVar, g).Done?
    ensures var g' := DeserJsonMapping(bound, c, keyType, valueType, inVar, outVar, g).g;
            var cv, k, v := VarName(g.varI), VarName(g.varI + 1), VarName(g.varI + 2);
            && cv !in g.consts && cv in g'.consts && g'.consts[cv] == ObjectConst(OClass(c))
            && AtIndent(Appended(g, g'), g.indent)
               == [Assignment(outVar, Call(cv, "")), LiteralStatement(ForItems(k, v, inVar))]
            && |g'.statements| >= 2
            && g'.statements[|g'.statements| - 2] == Line(g.indent + 1, Assignment(Subscript(outVar, k), v))
  {
    DeserJsonMappingOpenShape(c, inVar, outVar, g);
    var g1 := DeserJsonMappingOpen(c, inVar, outVar, g).1;
    var inner := DeserJsonMappingBody(bound, c, keyType, valueType, inVar, outVar, g);
    var k, v := VarName(g.varI + 1), VarName(g.varI + 2);
    StoreLoopShape(g, g1, inner, Assignment(outVar, Call(VarName(g.varI), "")),
      LiteralStatement(ForItems(k, v, inVar)), Subscript(outVar, k), v);
  }

  /** A completed deserializer mapping case is its opened loop, a body that
      grows the builder at the loop's indent, and the closing store. */
  lemma DeserJsonMappingBody(bound: nat, c: Class, keyType: TypeHint, valueType: TypeHint, inVar: string, outVar: string, g: Gen)
    returns (inner: Gen)
    requires g.Valid() && Size(keyType) < bound && Size(valueType) < bound
    requires DeserJsonMapping(bound, c, keyType, valueType, inVar, outVar, g).Done?
    ensures var g1 := DeserJsonMappingOpen(c, inVar, outVar, g).1;
            && Grows(g1, inner) && inner.indent == g1.indent
            && DeserJsonMapping(bound, c, keyType, valueType, inVar, outVar, g).g
               == inner.Assign(Subscript(outVar, VarName(g.varI + 1)), VarName(g.varI + 2)).Dedent()
  {
    var (names, g1) := DeserJsonMappingOpen(c, inVar, outVar, g);
    DeserJsonMappingOpenStep(c, inVar, outVar, g);
    var o1 := DeserJson(keyType, names[0], names[0], g1);
    DeserJsonStep(keyType, names[0], names[0], g1);
    var o2 := DeserJson(valueType, names[1], names[1], o1.g);
    DeserJsonStep(valueType, names[1], names[1], o1.g);
    GrowsTrans(g1, o1.g, o2.g);
    inner := o2.g;
  }
}
