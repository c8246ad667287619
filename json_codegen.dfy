/** The JSON compilers of json_serialization.py and the hook compilers of
    `SimpleSerializable` (serializable.py) as the source writes them:
    procedures that emit into a shared `CodeGenerator` object. Each is proved
    to leave the builder in the state, and to raise the error, that the
    matching function of `JsonSerialization` gives for the state it started
    from, so everything proved about those functions holds of these. */
module JsonCodegen {
  import opened Errors
  import opened Text
  import opened TypeHints
  import opened CodeGen
  import opened TypeSerializer
  import opened SerializeFields
  import opened JsonSerialization

  // ---------------------------------------------------------------------
  // _compile_json_serializer (json_serialization.py:129-243)

  /** _compile_json_serializer: a native JSON type is copied, anything else
      dispatches on the class of its (optional-stripped) hint. */
  method EmitSerializer(t: TypeHint, inVar: string, outVar: string, codegen: CodeGenerator) returns (err: Option<Error>)
    requires codegen.Valid()
    modifies codegen
    ensures codegen.Valid()
    ensures OutcomeOf(codegen.State(), err) == SerJson(t, inVar, outVar, old(codegen.State()))
    decreases Size(t), 3
  {
    var native := IsJsonType(t);
    if native.Err? {
      return Some(native.error);
    }
    if native.value {
      codegen.Assign(outVar, inVar);
      return None;
    }
    var dispatched := DispatchedHint(t);
    if dispatched.Err? {
      return Some(dispatched.error);
    }
    var hint := dispatched.value;
    var base := Base(hint);
    if !base.OClass? {
      return Some(SerializationError);
    }
    err := EmitSerializerClass(hint, base.c, inVar, outVar, codegen);
  }

  /** The class cases (156-243), in the source's order. */
  method EmitSerializerClass(t: TypeHint, c: Class, inVar: string, outVar: string, codegen: CodeGenerator) returns (err: Option<Error>)
    requires Base(t) == OClass(c)
    requires codegen.Valid()
    modifies codegen
    ensures codegen.Valid()
    ensures OutcomeOf(codegen.State(), err) == SerJsonClass(t, c, inVar, outVar, old(codegen.State()))
    decreases Size(t), 2
  {
    var args := GetArgs(t);
    GetArgsSmaller(t);
    if c.isJsonScalar {
      codegen.Assign(outVar, inVar);
      return None;
    }
    if c.isMapping {
      if |args| != 2 {
        return Some(DeserializationError);
      }
      err := EmitSerializerMapping(Size(t), args[0], args[1], inVar, outVar, codegen);
      return;
    }
    if c.isCollection {
      if IsFixedTuple(c, args) {
        err := EmitSerializerTuple(Size(t), args, outVar, codegen);
        return;
      }
      if |args| == 0 {
        return Some(IndexError);
      }
      var elems := args;
      if elems[|elems| - 1] == Ellipsis {
        elems := elems[..|elems| - 1];
      }
      assert elems == DropEllipsis(args);
      if |elems| != 1 {
        return Some(DeserializationError);
      }
      err := EmitSerializerCollection(Size(t), elems[0], inVar, outVar, codegen);
      return;
    }
    err := EmitSerializerOther(t, c, inVar, outVar, codegen);
  }

  /** The class cases after the containers (219-243). */
  method EmitSerializerOther(t: TypeHint, c: Class, inVar: string, outVar: string, codegen: CodeGenerator) returns (err: Option<Error>)
    requires codegen.Valid()
    modifies codegen
    ensures codegen.Valid()
    ensures OutcomeOf(codegen.State(), err) == SerJsonOther(t, c, inVar, outVar, old(codegen.State()))
    decreases Size(t), 2, 0
  {
    if c.isBytes {
      ImportNamesAreNotVars();
      ImportThenAssignIn(codegen, "base64", outVar, B64Decode(inVar));
      return None;
    }
    if c.isDatetime {
      codegen.Assign(outVar, inVar + ".isoformat()");
      return None;
    }
    if t.Record? {
      err := EmitRecordSerializer(t.cls, t.decl, inVar, outVar, codegen);
      return;
    }
    err := Some(SerializationError);
  }

  /** The mapping case (166-186): two names from `get_vars()`, then the
      `str`-keyed or the general loop. */
  method EmitSerializerMapping(bound: nat, keyType: TypeHint, valueType: TypeHint, inVar: string, outVar: string, codegen: CodeGenerator) returns (err: Option<Error>)
    requires Size(keyType) < bound && Size(valueType) < bound
    requires codegen.Valid()
    modifies codegen
    ensures codegen.Valid()
    ensures OutcomeOf(codegen.State(), err) == SerJsonMappingCase(bound, keyType, valueType, inVar, outVar, old(codegen.State()))
    decreases bound, 1, 1
  {
    var unpacked, k, v := UnpackTwoIn(codegen);
    if !unpacked {
      return Some(UnpackError);
    }
    var strKeys := IsStrSubclass(keyType);
    if strKeys.Err? {
      return Some(strKeys.error);
    }
    if strKeys.value {
      err := EmitSerializerStrMapping(bound, keyType, inVar, outVar, k, v, codegen);
    } else {
      err := EmitSerializerDict(bound, keyType, valueType, inVar, outVar, k, v, codegen);
    }
  }

  /** The `str`-keyed loop (168-175): `out` is a copy, each value is
      recompiled in place with the key type. */
  method EmitSerializerStrMapping(bound: nat, keyType: TypeHint, inVar: string, outVar: string, k: string, v: string, codegen: CodeGenerator) returns (err: Option<Error>)
    requires Size(keyType) < bound
    requires codegen.Valid()
    modifies codegen
    ensures codegen.Valid()
    ensures OutcomeOf(codegen.State(), err) == SerJsonStrMapping(bound, keyType, inVar, outVar, k, v, old(codegen.State()))
    decreases bound, 1, 0
  {
    ghost var g0 := codegen.State();
    OpenLoopIn(codegen, CopyOf(outVar, inVar), ForItems(k, v, outVar));
    ghost var g1 := codegen.State();
    err := EmitSerializer(keyType, v, v, codegen);
    ghost var o := SerJson(keyType, v, v, g1);
    assert SerJsonStrMapping(bound, keyType, inVar, outVar, k, v, g0)
        == if o.Raised? then o else Done(o.g.Assign(Subscript(outVar, k), v).Dedent());
    if err.Some? {
      return;
    }
    CloseLoopIn(codegen, Subscript(outVar, k), v);
  }

  /** The general mapping loop (176-186). */
  method EmitSerializerDict(bound: nat, keyType: TypeHint, valueType: TypeHint, inVar: string, outVar: string, k: string, v: string, codegen: CodeGenerator) returns (err: Option<Error>)
    requires Size(keyType) < bound && Size(valueType) < bound
    requires codegen.Valid()
    modifies codegen
    ensures codegen.Valid()
    ensures OutcomeOf(codegen.State(), err) == SerJsonMapping(bound, keyType, valueType, inVar, outVar, k, v, old(codegen.State()))
    decreases bound, 1, 0
  {
    ghost var g0 := codegen.State();
    OpenLoopIn(codegen, EmptyDict(outVar), ForItems(k, v, inVar));
    ghost var g1 := codegen.State();
    err := EmitSerializer(keyType, k, k, codegen);
    ghost var o1 := SerJson(keyType, k, k, g1);
    ghost var o2 := SerJson(valueType, v, v, o1.g);
    assert SerJsonMapping(bound, keyType, valueType, inVar, outVar, k, v, g0)
        == if o1.Raised? then o1 else if o2.Raised? then o2 else Done(o2.g.Assign(Subscript(outVar, k), v).Dedent());
    if err.Some? {
      return;
    }
    err := EmitSerializer(valueType, v, v, codegen);
    if err.Some? {
      return;
    }
    CloseLoopIn(codegen, Subscript(outVar, k), v);
  }

  /** The fixed-tuple case (189-197): element `i` is read from `out[i]`
      into a fresh variable, and `out` is rebound to their tuple. */
  method EmitSerializerTuple(bound: nat, args: seq<TypeHint>, outVar: string, codegen: CodeGenerator) returns (err: Option<Error>)
    requires forall i :: 0 <= i < |args| ==> Size(args[i]) < bound
    requires codegen.Valid()
    modifies codegen
    ensures codegen.Valid()
    ensures OutcomeOf(codegen.State(), err) == SerJsonTupleElems(bound, args, outVar, 0, [], old(codegen.State()))
    decreases bound, 1, 0
  {
    ghost var spec := SerJsonTupleElems(bound, args, outVar, 0, [], codegen.State());
    var out: seq<string> := [];
    for i := 0 to |args|
      invariant codegen.Valid()
      invariant spec == SerJsonTupleElems(bound, args, outVar, i, out, codegen.State())
    {
      ghost var g := codegen.State();
      var v := codegen.GetVar();
      ghost var g1 := codegen.State();
      err := EmitSerializer(args[i], Subscript(outVar, NatToString(i)), v, codegen);
      ghost var o := SerJson(args[i], Subscript(outVar, NatToString(i)), v, g1);
      assert SerJsonTupleElems(bound, args, outVar, i, out, g)
          == if o.Raised? then o else SerJsonTupleElems(bound, args, outVar, i + 1, out + [v], o.g);
      if err.Some? {
        return;
      }
      out := out + [v];
    }
    codegen.Assign(outVar, TupleLiteral(out));
    err := None;
  }

  /** The sequence case (198-217). */
  method EmitSerializerCollection(bound: nat, elemType: TypeHint, inVar: string, outVar: string, codegen: CodeGenerator) returns (err: Option<Error>)
    requires Size(elemType) < bound
    requires codegen.Valid()
    modifies codegen
    ensures codegen.Valid()
    ensures OutcomeOf(codegen.State(), err) == SerJsonCollection(bound, elemType, inVar, outVar, old(codegen.State()))
    decreases bound, 1, 0
  {
    ghost var g0 := codegen.State();
    var names := SerCollectionOpenIn(codegen, inVar, outVar);
    ghost var g1 := codegen.State();
    err := EmitSerializer(elemType, names[1], names[1], codegen);
    ghost var o := SerJson(elemType, names[1], names[1], g1);
    assert SerJsonCollection(bound, elemType, inVar, outVar, g0)
        == if o.Raised? then o else Done(o.g.Assign(Subscript(outVar, names[0]), names[1]).Dedent());
    if err.Some? {
      return;
    }
    CloseLoopIn(codegen, Subscript(outVar, names[0]), names[1]);
  }

  /** SimpleSerializable._compile_json_serializer (serializable.py:156-174):
      each selected field is copied into a fresh variable and compiled in
      place; `out` is bound to the tuple of those variables. */
  method EmitRecordSerializer(c: Class, decl: RecordDecl, inVar: string, outVar: string, codegen: CodeGenerator) returns (err: Option<Error>)
    requires codegen.Valid()
    modifies codegen
    ensures codegen.Valid()
    ensures OutcomeOf(codegen.State(), err) == RecordSer(c, decl, inVar, outVar, old(codegen.State()))
    decreases Size(Record(c, decl)), 1
  {
    ghost var bound := Size(Record(c, decl));
    ghost var spec := RecordSer(c, decl, inVar, outVar, codegen.State());
    var out: seq<string> := [];
    var fields := GetSerializeFields(decl);
    RecordFieldsSmaller(c, decl);
    assert spec == RecordSerFields(bound, fields, inVar, outVar, 0, [], codegen.State());
    for i := 0 to |fields|
      invariant codegen.Valid()
      invariant spec == RecordSerFields(bound, fields, inVar, outVar, i, out, codegen.State())
    {
      ghost var g := codegen.State();
      var tmp := FieldCopyIn(codegen, inVar, fields[i].name);
      ghost var g1 := codegen.State();
      err := EmitSerializer(fields[i].hint, tmp, tmp, codegen);
      ghost var o := SerJson(fields[i].hint, tmp, tmp, g1);
      assert RecordSerFields(bound, fields, inVar, outVar, i, out, g)
          == if o.Raised? then o else RecordSerFields(bound, fields, inVar, outVar, i + 1, out + [tmp], o.g);
      if err.Some? {
        return;
      }
      out := out + [tmp];
    }
    codegen.Assign(outVar, TupleLiteral(out));
    err := None;
  }

  // ---------------------------------------------------------------------
  // _compile_json_deserializer (json_serialization.py:246-359)

  /** _compile_json_deserializer: a native JSON type is copied, anything
      else dispatches on the class of its (optional-stripped) hint. */
  method EmitDeserializer(t: TypeHint, inVar: string, outVar: string, codegen: CodeGenerator) returns (err: Option<Error>)
    requires codegen.Valid()
    modifies codegen
    ensures codegen.Valid()
    ensures OutcomeOf(codegen.State(), err) == DeserJson(t, inVar, outVar, old(codegen.State()))
    decreases Size(t), 3
  {
    var native := IsJsonType(t);
    if native.Err? {
      return Some(native.error);
    }
    if native.value {
      codegen.Assign(outVar, inVar);
      return None;
    }
    var dispatched := DispatchedHint(t);
    if dispatched.Err? {
      return Some(dispatched.error);
    }
    var hint := dispatched.value;
    var base := Base(hint);
    if !base.OClass? {
      return Some(DeserializationError);
    }
    err := EmitDeserializerClass(hint, base.c, inVar, outVar, codegen);
  }

  /** The class cases (271-359), in the source's order. */
  method EmitDeserializerClass(t: TypeHint, c: Class, inVar: string, outVar: string, codegen: CodeGenerator) returns (err: Option<Error>)
    requires Base(t) == OClass(c)
    requires codegen.Valid()
    modifies codegen
    ensures codegen.Valid()
    ensures OutcomeOf(codegen.State(), err) == DeserJsonClass(t, c, inVar, outVar, old(codegen.State()))
    decreases Size(t), 2
  {
    var args := GetArgs(t);
    GetArgsSmaller(t);
    if c.isJsonScalar {
      codegen.Assign(outVar, inVar);
      return None;
    }
    if c.isMapping {
      if |args| != 2 {
        return Some(DeserializationError);
      }
      err := EmitDeserializerMapping(Size(t), c, args[0], args[1], inVar, outVar, codegen);
      return;
    }
    if c.isCollection {
      if IsFixedTuple(c, args) {
        err := EmitDeserializerTuple(Size(t), args, inVar, outVar, codegen);
        return;
      }
      if |args| == 0 {
        return Some(IndexError);
      }
      var elems := args;
      if elems[|elems| - 1] == Ellipsis {
        elems := elems[..|elems| - 1];
      }
      assert elems == DropEllipsis(args);
      if |elems| != 1 {
        return Some(DeserializationError);
      }
      err := EmitDeserializerCollection(Size(t), c, elems[0], inVar, outVar, codegen);
      return;
    }
    err := EmitDeserializerOther(t, c, inVar, outVar, codegen);
  }

  /** The class cases after the containers (333-359). */
  method EmitDeserializerOther(t: TypeHint, c: Class, inVar: string, outVar: string, codegen: CodeGenerator) returns (err: Option<Error>)
    requires codegen.Valid()
    modifies codegen
    ensures codegen.Valid()
    ensures OutcomeOf(codegen.State(), err) == DeserJsonOther(t, c, inVar, outVar, old(codegen.State()))
    decreases Size(t), 2, 0
  {
    if c.isBytes {
      ImportNamesAreNotVars();
      ImportThenAssignIn(codegen, "base64", outVar, B64Decode(inVar));
      return None;
    }
    if c.isDatetime {
      ImportNamesAreNotVars();
      ImportThenAssignIn(codegen, "datetime", outVar, "datetime.datetime.fromisoformat(" + inVar + ")");
      return None;
    }
    if t.Record? {
      err := EmitRecordDeserializer(t.cls, t.decl, inVar, outVar, codegen);
      return;
    }
    err := Some(DeserializationError);
  }

  /** The mapping case (275-292): an empty instance of the class, each key
      and value compiled and stored into it. */
  method EmitDeserializerMapping(bound: nat, c: Class, keyType: TypeHint, valueType: TypeHint, inVar: string, outVar: string, codegen: CodeGenerator) returns (err: Option<Error>)
    requires Size(keyType) < bound && Size(valueType) < bound
    requires codegen.Valid()
    modifies codegen
    ensures codegen.Valid()
    ensures OutcomeOf(codegen.State(), err) == DeserJsonMapping(bound, c, keyType, valueType, inVar, outVar, old(codegen.State()))
    decreases bound, 1, 0
  {
    ghost var g0 := codegen.State();
    var names := DeserMappingOpenIn(codegen, c, inVar, outVar);
    ghost var g1 := codegen.State();
    err := EmitDeserializer(keyType, names[0], names[0], codegen);
    ghost var o1 := DeserJson(keyType, names[0], names[0], g1);
    ghost var o2 := DeserJson(valueType, names[1], names[1], o1.g);
    assert DeserJsonMapping(bound, c, keyType, valueType, inVar, outVar, g0)
        == if o1.Raised? then o1 else if o2.Raised? then o2 else Done(o2.g.Assign(Subscript(outVar, names[0]), names[1]).Dedent());
    if err.Some? {
      return;
    }
    err := EmitDeserializer(valueType, names[1], names[1], codegen);
    if err.Some? {
      return;
    }
    CloseLoopIn(codegen, Subscript(outVar, names[0]), names[1]);
  }

  /** The fixed-tuple case (293-309): element `i` is compiled from `in[i]`
      into a fresh variable, and `out` is bound to their tuple. */
  method EmitDeserializerTuple(bound: nat, args: seq<TypeHint>, inVar: string, outVar: string, codegen: CodeGenerator) returns (err: Option<Error>)
    requires forall i :: 0 <= i < |args| ==> Size(args[i]) < bound
    requires codegen.Valid()
    modifies codegen
    ensures codegen.Valid()
    ensures OutcomeOf(codegen.State(), err) == DeserJsonTupleElems(bound, args, inVar, outVar, 0, [], old(codegen.State()))
    decreases bound, 1, 0
  {
    ghost var spec := DeserJsonTupleElems(bound, args, inVar, outVar, 0, [], codegen.State());
    var out: seq<string> := [];
    for i := 0 to |args|
      invariant codegen.Valid()
      invariant spec == DeserJsonTupleElems(bound, args, inVar, outVar, i, out, codegen.State())
    {
      ghost var g := codegen.State();
      var v := codegen.GetVar();
      ghost var g1 := codegen.State();
      err := EmitDeserializer(args[i], Subscript(inVar, NatToString(i)), v, codegen);
      ghost var o := DeserJson(args[i], Subscript(inVar, NatToString(i)), v, g1);
      assert DeserJsonTupleElems(bound, args, inVar, outVar, i, out, g)
          == if o.Raised? then o else DeserJsonTupleElems(bound, args, inVar, outVar, i + 1, out + [v], o.g);
      if err.Some? {
        return;
      }
      out := out + [v];
    }
    codegen.Assign(outVar, TupleLiteral(out));
    err := None;
  }

  /** The sequence case (310-331): the elements are appended to a list,
      which is then converted to the concrete class. */
  method EmitDeserializerCollection(bound: nat, c: Class, elemType: TypeHint, inVar: string, outVar: string, codegen: CodeGenerator) returns (err: Option<Error>)
    requires Size(elemType) < bound
    requires codegen.Valid()
    modifies codegen
    ensures codegen.Valid()
    ensures OutcomeOf(codegen.State(), err) == DeserJsonCollection(bound, c, elemType, inVar, outVar, old(codegen.State()))
    decreases bound, 1, 0
  {
    ghost var g0 := codegen.State();
    var classVar, e := DeserCollectionOpenIn(codegen, c, inVar, outVar);
    ghost var g1 := codegen.State();
    err := EmitDeserializer(elemType, e, e, codegen);
    ghost var o := DeserJson(elemType, e, e, g1);
    assert DeserJsonCollection(bound, c, elemType, inVar, outVar, g0)
        == if o.Raised? then o else Done(o.g.Literal([AppendCall(outVar, e)]).Dedent().Assign(outVar, Call(classVar, outVar)));
    if err.Some? {
      return;
    }
    DeserCollectionCloseIn(codegen, outVar, e, classVar);
  }

  /** SimpleSerializable._compile_json_deserializer (serializable.py:176-198):
      an instance made with `__new__`, each selected field compiled from
      `in[i]` and set with `object.__setattr__`, then `__deserialize_init__`
      and the binding of `out`. */
  method EmitRecordDeserializer(c: Class, decl: RecordDecl, inVar: string, outVar: string, codegen: CodeGenerator) returns (err: Option<Error>)
    requires codegen.Valid()
    modifies codegen
    ensures codegen.Valid()
    ensures OutcomeOf(codegen.State(), err) == RecordDeser(c, decl, inVar, outVar, old(codegen.State()))
    decreases Size(Record(c, decl)), 1
  {
    ghost var bound := Size(Record(c, decl));
    ghost var spec := RecordDeser(c, decl, inVar, outVar, codegen.State());
    var fields := GetSerializeFields(decl);
    RecordFieldsSmaller(c, decl);
    var obj := RecordDeserOpenIn(codegen, c);
    assert spec == RecordDeserFields(bound, fields, inVar, outVar, obj, 0, codegen.State());
    for i := 0 to |fields|
      invariant codegen.Valid()
      invariant spec == RecordDeserFields(bound, fields, inVar, outVar, obj, i, codegen.State())
    {
      ghost var g := codegen.State();
      var tmp := codegen.GetVar();
      ghost var g1 := codegen.State();
      err := EmitDeserializer(fields[i].hint, Subscript(inVar, NatToString(i)), tmp, codegen);
      ghost var o := DeserJson(fields[i].hint, Subscript(inVar, NatToString(i)), tmp, g1);
      assert RecordDeserFields(bound, fields, inVar, outVar, obj, i, g)
          == if o.Raised? then o
             else RecordDeserFields(bound, fields, inVar, outVar, obj, i + 1, o.g.Literal([SetAttr(obj, fields[i].name, tmp)]));
      if err.Some? {
        return;
      }
      codegen.Literal([SetAttr(obj, fields[i].name, tmp)]);
    }
    RecordDeserCloseIn(codegen, obj, outVar);
    err := None;
  }

  // ---------------------------------------------------------------------
  // The openings and closings of the emitted loops

  /** Two literal lines, the second a loop header, and the indent. */
  method OpenLoopIn(codegen: CodeGenerator, first: string, header: string)
    requires codegen.Valid()
    modifies codegen
    ensures codegen.Valid() && codegen.State() == OpenLoop(old(codegen.State()), first, header)
  {
    codegen.Literal([first]);
    codegen.Literal([header]);
    codegen.Indent();
  }

  /** `left = right`, then the dedent that ends the loop body. */
  method CloseLoopIn(codegen: CodeGenerator, left: string, right: string)
    requires codegen.Valid()
    modifies codegen
    ensures codegen.Valid() && codegen.State() == old(codegen.State()).Assign(left, right).Dedent()
  {
    codegen.Assign(left, right);
    codegen.Dedent();
  }

  /** The opening of the serializer's sequence loop (205-208). */
  method SerCollectionOpenIn(codegen: CodeGenerator, inVar: string, outVar: string) returns (names: seq<string>)
    requires codegen.Valid()
    modifies codegen
    ensures codegen.Valid() && (names, codegen.State()) == SerCollectionOpen(inVar, outVar, old(codegen.State()))
  {
    names := codegen.GetVars(2);
    codegen.Assign(outVar, "list(" + inVar + ")");
    codegen.Literal(["for " + names[0] + ", " + names[1] + " in enumerate(" + outVar + "):"]);
    codegen.Indent();
  }

  /** The opening of the deserializer's mapping loop (280-287). */
  method DeserMappingOpenIn(codegen: CodeGenerator, c: Class, inVar: string, outVar: string) returns (names: seq<string>)
    requires codegen.Valid()
    modifies codegen
    ensures codegen.Valid() && (names, codegen.State()) == DeserJsonMappingOpen(c, inVar, outVar, old(codegen.State()))
  {
    var classVar := codegen.GetConst(OClass(c));
    names := codegen.GetVars(2);
    codegen.Assign(outVar, Call(classVar, ""));
    codegen.Literal([ForItems(names[0], names[1], inVar)]);
    codegen.Indent();
  }

  /** The opening of the deserializer's sequence loop (319-326). */
  method DeserCollectionOpenIn(codegen: CodeGenerator, c: Class, inVar: string, outVar: string) returns (classVar: string, e: string)
    requires codegen.Valid()
    modifies codegen
    ensures codegen.Valid() && (classVar, e, codegen.State()) == DeserJsonCollectionOpen(c, inVar, outVar, old(codegen.State()))
  {
    classVar := codegen.GetConst(OClass(c));
    e := codegen.GetVar();
    codegen.Assign(outVar, "[]");
    codegen.Literal([ForEach(e, inVar)]);
    codegen.Indent();
  }

  /** The end of the deserializer's sequence loop (327-331). */
  method DeserCollectionCloseIn(codegen: CodeGenerator, outVar: string, e: string, classVar: string)
    requires codegen.Valid()
    modifies codegen
    ensures codegen.Valid()
    ensures codegen.State() == old(codegen.State()).Literal([AppendCall(outVar, e)]).Dedent().Assign(outVar, Call(classVar, outVar))
  {
    codegen.Literal([AppendCall(outVar, e)]);
    codegen.Dedent();
    codegen.Assign(outVar, Call(classVar, outVar));
  }

  /** `ensure_import` of a module, then one assignment. */
  method ImportThenAssignIn(codegen: CodeGenerator, moduleName: string, left: string, right: string)
    requires codegen.Valid() && |moduleName| >= 3 && moduleName[..3] != "var"
    modifies codegen
    ensures codegen.Valid() && codegen.State() == old(codegen.State()).EnsureImport(moduleName).Assign(left, right)
  {
    codegen.EnsureImport(moduleName);
    codegen.Assign(left, right);
  }

  /** The start of the hook deserializer (serializable.py:183-188). */
  method RecordDeserOpenIn(codegen: CodeGenerator, c: Class) returns (obj: string)
    requires codegen.Valid()
    modifies codegen
    ensures codegen.Valid() && (obj, codegen.State()) == RecordDeserOpen(c, old(codegen.State()))
  {
    var classVar := codegen.GetConst(OClass(c));
    obj := codegen.GetVar();
    codegen.Assign(obj, NewInstance(classVar));
  }

  /** The end of the hook deserializer (serializable.py:196-198). */
  method RecordDeserCloseIn(codegen: CodeGenerator, obj: string, outVar: string)
    requires codegen.Valid()
    modifies codegen
    ensures codegen.Valid() && codegen.State() == old(codegen.State()).Literal([InitCall(obj)]).Assign(outVar, obj)
  {
    codegen.Literal([InitCall(obj)]);
    codegen.Assign(outVar, obj);
  }

  /** `k, v = codegen.get_vars()` (166). */
  method UnpackTwoIn(codegen: CodeGenerator) returns (unpacked: bool, k: string, v: string)
    requires codegen.Valid()
    modifies codegen
    ensures codegen.Valid() && (unpacked, k, v, codegen.State()) == UnpackTwo(old(codegen.State()))
  {
    var names := codegen.GetVars(codegen.defaultCount);
    unpacked := |names| == 2;
    k, v := "", "";
    if unpacked {
      k, v := names[0], names[1];
    }
  }

  /** A fresh variable bound to `inVar.name` (serializable.py:167-170). */
  method FieldCopyIn(codegen: CodeGenerator, inVar: string, name: string) returns (tmp: string)
    requires codegen.Valid()
    modifies codegen
    ensures codegen.Valid()
    ensures tmp == old(codegen.State()).GetVar().0
    ensures codegen.State() == old(codegen.State()).GetVar().1.Assign(tmp, inVar + "." + name)
  {
    tmp := codegen.GetVar();
    codegen.Assign(tmp, inVar + "." + name);
  }

  // ---------------------------------------------------------------------
  // Entry points (362-391), up to `codegen.compile`

  /** compile_json_serializer (362-375): a fresh builder, `inp` to `out`,
      and the rendered routine with its constants. */
  method CompileSerializer(t: TypeHint, defaultCount: nat) returns (r: Result<Compiled>)
    ensures r == CompileJsonSerializer(t, defaultCount)
  {
    var codegen := new CodeGenerator(defaultCount);
    var err := EmitSerializer(t, "inp", "out", codegen);
    if err.Some? {
      return Err(err.value);
    }
    var source := codegen.ToStr();
    r := Ok(Compiled(source, codegen.consts));
  }

  /** compile_json_deserializer (378-391) */
  method CompileDeserializer(t: TypeHint, defaultCount: nat) returns (r: Result<Compiled>)
    ensures r == CompileJsonDeserializer(t, defaultCount)
  {
    var codegen := new CodeGenerator(defaultCount);
    var err := EmitDeserializer(t, "inp", "out", codegen);
    if err.Some? {
      return Err(err.value);
    }
    var source := codegen.ToStr();
    r := Ok(Compiled(source, codegen.consts));
  }
}
