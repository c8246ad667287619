/** `SerializerCodegen` and `DeserializerCodegen` (type_serializer.py) as
    objects that emit into a shared `CodeGenerator`, as the source does. Each
    method is proved to leave the builder in the state, and to raise the
    error, that the matching specification function of `TypeSerializer`
    gives for the builder state it started from. */
module TypeSerializerCodegen {
  import opened Errors
  import opened Text
  import opened TypeHints
  import opened CodeGen
  import opened TypeSerializer

  /** The duplicate-origin check of the serializer's union (62-70): every
      ordered pair of different positions is compared. */
  method FindDuplicate(os: seq<Origin>) returns (found: bool)
    ensures found == HasDuplicate(os)
  {
    var i := 0;
    while i < |os|
      invariant 0 <= i <= |os|
      invariant forall a, b :: 0 <= a < i && 0 <= b < |os| && a != b ==> os[a] != os[b]
    {
      var j := 0;
      while j < |os|
        invariant 0 <= j <= |os|
        invariant forall a, b :: 0 <= a < i && 0 <= b < |os| && a != b ==> os[a] != os[b]
        invariant forall b :: 0 <= b < j && b != i ==> os[i] != os[b]
      {
        if i != j && os[i] == os[j] {
          return true;
        }
        j := j + 1;
      }
      i := i + 1;
    }
    return false;
  }

  /** `SerializerCodegen` (30-133), its abstract members given as `hooks`. */
  class SerializerCodegen {
    const codegen: CodeGenerator
    const hooks: SerializerHooks

    constructor (codegen: CodeGenerator, hooks: SerializerHooks)
      ensures this.codegen == codegen && this.hooks == hooks
    {
      this.codegen := codegen;
      this.hooks := hooks;
    }

    /** any (81-97) */
    method Any(t: TypeHint, inVar: string, outVar: string) returns (err: Option<Error>)
      requires codegen.Valid()
      modifies codegen
      ensures codegen.Valid()
      ensures OutcomeOf(codegen.State(), err) == SerAny(hooks, t, inVar, outVar, old(codegen.State()))
      decreases Size(t), 4, 0
    {
      if hooks.isScalar(t) {
        codegen.AddStatements(hooks.scalar(t, inVar, outVar));
        return None;
      }
      var (base, args) := ReadTypeHint(t);
      if IsUnionBase(base) {
        err := Union(t, args, inVar, outVar);
      } else if !base.OClass? {
        err := Some(TypeHintError);
      } else {
        err := Type(t, base.c, args, inVar, outVar);
      }
    }

    /** union (59-79) */
    method Union(t: TypeHint, args: seq<TypeHint>, inVar: string, outVar: string) returns (err: Option<Error>)
      requires args == ReadTypeHint(t).1 && IsUnionBase(ReadTypeHint(t).0)
      requires codegen.Valid()
      modifies codegen
      ensures codegen.Valid()
      ensures OutcomeOf(codegen.State(), err) == SerUnion(hooks, t, args, inVar, outVar, old(codegen.State()))
      decreases Size(t), 3, 0
    {
      var baseTypes := seq(|args|, i requires 0 <= i < |args| => Base(args[i]));
      assert baseTypes == Origins(args);
      var dup := FindDuplicate(baseTypes);
      if dup {
        return Some(SerializationError);
      }
      UnionMembersSmaller(t);
      err := Branches(Size(t), args, inVar, outVar);
    }

    /** The loop of union (72-79): one `if`/`elif` branch per member. */
    method Branches(bound: nat, args: seq<TypeHint>, inVar: string, outVar: string) returns (err: Option<Error>)
      requires forall i :: 0 <= i < |args| ==> Size(args[i]) + 2 < bound
      requires codegen.Valid()
      modifies codegen
      ensures codegen.Valid()
      ensures OutcomeOf(codegen.State(), err) == SerUnionBranches(hooks, bound, args, inVar, outVar, 0, old(codegen.State()))
      decreases bound, 2, 1
    {
      var k := 0;
      while k < |args|
        invariant 0 <= k <= |args|
        invariant codegen.Valid()
        invariant SerUnionBranches(hooks, bound, args, inVar, outVar, 0, old(codegen.State()))
               == SerUnionBranches(hooks, bound, args, inVar, outVar, k, codegen.State())
        decreases |args| - k
      {
        err := Branch(bound, args, k, inVar, outVar);
        if err.Some? {
          return;
        }
        k := k + 1;
      }
      SerUnionBranchesEnd(hooks, bound, args, inVar, outVar, codegen.State());
      err := None;
    }

    /** Union branch `k` (73-78), closed by its dedent when it compiled:
        a raise ends the loop, otherwise the loop goes on with `k + 1`. */
    method Branch(bound: nat, args: seq<TypeHint>, k: nat, inVar: string, outVar: string) returns (err: Option<Error>)
      requires k < |args|
      requires forall i :: 0 <= i < |args| ==> Size(args[i]) + 2 < bound
      requires codegen.Valid()
      modifies codegen
      ensures codegen.Valid()
      ensures err.Some? ==> OutcomeOf(codegen.State(), err) == SerUnionBranches(hooks, bound, args, inVar, outVar, k, old(codegen.State()))
      ensures err.None? ==> SerUnionBranches(hooks, bound, args, inVar, outVar, k + 1, codegen.State())
                            == SerUnionBranches(hooks, bound, args, inVar, outVar, k, old(codegen.State()))
      decreases bound, 1, 0
    {
      SerUnionBranchesUnfold(hooks, bound, args, inVar, outVar, k, codegen.State());
      var tmp := BranchOpen(k, args[k], inVar);
      err := Any(Tagged(args[k]), tmp, outVar);
      if err.None? {
        codegen.Dedent();
      }
    }

    /** The start of union branch `k` (73-77). */
    method BranchOpen(k: nat, member: TypeHint, inVar: string) returns (tmp: string)
      requires codegen.Valid()
      modifies codegen
      ensures codegen.Valid()
      ensures (tmp, codegen.State()) == SerBranchOpen(k, member, inVar, old(codegen.State()))
    {
      var typeVar := codegen.GetConst(Base(member));
      codegen.Literal([IsInstanceTest(k, inVar, typeVar)]);
      codegen.Indent();
      tmp := codegen.AssignNew(TagPair(k, inVar));
    }

    /** type_ (99-133) */
    method Type(t: TypeHint, c: Class, args: seq<TypeHint>, inVar: string, outVar: string) returns (err: Option<Error>)
      requires ReadTypeHint(t) == (OClass(c), args)
      requires codegen.Valid()
      modifies codegen
      ensures codegen.Valid()
      ensures OutcomeOf(codegen.State(), err) == SerType(hooks, t, c, args, inVar, outVar, old(codegen.State()))
      decreases Size(t), 3, 0
    {
      ReadTypeHintSmaller(t);
      if c.isMapping {
        if |args| != 2 {
          return Some(SerializationError);
        }
        MappingArgsSmaller(t, c);
        err := Mapping(args[0], args[1], inVar, outVar);
      } else if c.isCollection && !c.isStr && !c.isBytes {
        if IsFixedTuple(c, args) {
          err := FixedTuple(Size(t), args, inVar, outVar);
        } else {
          if |args| == 0 {
            return Some(IndexError);
          }
          var elems := args;
          if elems[|elems| - 1] == Ellipsis {
            elems := elems[..|elems| - 1];
          }
          assert elems == DropEllipsis(args);
          if |elems| != 1 {
            return Some(SerializationError);
          }
          err := Collection(elems[0], inVar, outVar);
        }
      } else {
        err := Some(SerializationError);
      }
    }

    /** mapping (46-48) */
    method Mapping(keyType: TypeHint, valueType: TypeHint, inVar: string, outVar: string) returns (err: Option<Error>)
      requires codegen.Valid()
      modifies codegen
      ensures codegen.Valid()
      ensures OutcomeOf(codegen.State(), err) == SerMapping(hooks, keyType, valueType, inVar, outVar, old(codegen.State()))
      decreases Size(keyType) + Size(valueType) + 3, 1, 0
    {
      codegen.Assign(inVar, "list(" + inVar + ".items())");
      SumSizesPair(keyType, valueType);
      SumSizesSingle(TupleOf([keyType, valueType]));
      err := Any(ListOf(TupleOf([keyType, valueType])), inVar, outVar);
    }

    /** collection (50-57) */
    method Collection(elemType: TypeHint, inVar: string, outVar: string) returns (err: Option<Error>)
      requires codegen.Valid()
      modifies codegen
      ensures codegen.Valid()
      ensures OutcomeOf(codegen.State(), err) == SerCollection(hooks, elemType, inVar, outVar, old(codegen.State()))
      decreases Size(elemType) + 1, 1, 0
    {
      ghost var g0 := codegen.State();
      var names := CollectionOpen(inVar, outVar);
      ghost var g1 := codegen.State();
      err := Any(elemType, names[1], names[1]);
      ghost var o := SerAny(hooks, elemType, names[1], names[1], g1);
      assert SerCollection(hooks, elemType, inVar, outVar, g0)
          == if o.Raised? then o else Done(o.g.Assign(Subscript(outVar, names[0]), names[1]).Dedent());
      if err.Some? {
        return;
      }
      codegen.Assign(Subscript(outVar, names[0]), names[1]);
      codegen.Dedent();
    }

    /** The start of collection (51-54). */
    method CollectionOpen(inVar: string, outVar: string) returns (names: seq<string>)
      requires codegen.Valid()
      modifies codegen
      ensures codegen.Valid()
      ensures (names, codegen.State()) == SerCollectionOpen(inVar, outVar, old(codegen.State()))
    {
      names := codegen.GetVars(2);
      codegen.Assign(outVar, "list(" + inVar + ")");
      codegen.Literal(["for " + names[0] + ", " + names[1] + " in enumerate(" + outVar + "):"]);
      codegen.Indent();
    }

    /** The fixed-tuple case of type_ (110-120). */
    method FixedTuple(bound: nat, args: seq<TypeHint>, inVar: string, outVar: string) returns (err: Option<Error>)
      requires forall i :: 0 <= i < |args| ==> Size(args[i]) < bound
      requires codegen.Valid()
      modifies codegen
      ensures codegen.Valid()
      ensures OutcomeOf(codegen.State(), err) == SerFixedTuple(hooks, bound, args, inVar, outVar, old(codegen.State()))
      decreases bound, 2, 0
    {
      ghost var g0 := codegen.State();
      var argsVars := codegen.GetVars(|args|);
      ghost var g1 := codegen.State();
      ghost var elems := SerTupleElems(hooks, bound, args, argsVars, inVar, 0, g1);
      assert SerFixedTuple(hooks, bound, args, inVar, outVar, g0)
          == if elems.Raised? then elems else Done(elems.g.AddStatements(hooks.tuple(argsVars, outVar)));
      var k := 0;
      while k < |args|
        invariant 0 <= k <= |args|
        invariant codegen.Valid()
        invariant elems == SerTupleElems(hooks, bound, args, argsVars, inVar, k, codegen.State())
        decreases |args| - k
      {
        ghost var g := codegen.State();
        var tmp := codegen.AssignNew(Subscript(inVar, NatToString(k)));
        ghost var g2 := codegen.State();
        err := Any(args[k], tmp, argsVars[k]);
        ghost var o := SerAny(hooks, args[k], tmp, argsVars[k], g2);
        assert SerTupleElems(hooks, bound, args, argsVars, inVar, k, g)
            == if o.Raised? then o else SerTupleElems(hooks, bound, args, argsVars, inVar, k + 1, o.g);
        if err.Some? {
          return;
        }
        k := k + 1;
      }
      codegen.AddStatements(hooks.tuple(argsVars, outVar));
      err := None;
    }
  }

  /** `DeserializerCodegen` (136-238), its abstract members given as
      `hooks`. */
  class DeserializerCodegen {
    const codegen: CodeGenerator
    const hooks: DeserializerHooks

    constructor (codegen: CodeGenerator, hooks: DeserializerHooks)
      ensures this.codegen == codegen && this.hooks == hooks
    {
      this.codegen := codegen;
      this.hooks := hooks;
    }

    /** any (186-202) */
    method Any(t: TypeHint, inVar: string, outVar: string) returns (err: Option<Error>)
      requires codegen.Valid()
      modifies codegen
      ensures codegen.Valid()
      ensures OutcomeOf(codegen.State(), err) == DeserAny(hooks, t, inVar, outVar, old(codegen.State()))
      decreases Size(t), 4, 0
    {
      if hooks.isScalar(t) {
        codegen.AddStatements(hooks.scalar(t, inVar, outVar));
        return None;
      }
      var (base, args) := ReadTypeHint(t);
      if IsUnionBase(base) {
        ReadTypeHintSmaller(t);
        err := Union(Size(t), args, inVar, outVar);
      } else if !base.OClass? {
        err := Some(TypeHintError);
      } else {
        err := Type(t, base.c, args, inVar, outVar);
      }
    }

    /** union (176-184) */
    method Union(bound: nat, args: seq<TypeHint>, inVar: string, outVar: string) returns (err: Option<Error>)
      requires forall i :: 0 <= i < |args| ==> Size(args[i]) < bound
      requires codegen.Valid()
      modifies codegen
      ensures codegen.Valid()
      ensures OutcomeOf(codegen.State(), err) == DeserUnionBranches(hooks, bound, args, inVar, outVar, 0, old(codegen.State()))
      decreases bound, 3, 0
    {
      ghost var g0 := old(codegen.State());
      var k := 0;
      while k < |args|
        invariant 0 <= k <= |args|
        invariant codegen.Valid()
        invariant DeserUnionBranches(hooks, bound, args, inVar, outVar, 0, g0)
               == DeserUnionBranches(hooks, bound, args, inVar, outVar, k, codegen.State())
        decreases |args| - k
      {
        err := Branch(bound, args, k, inVar, outVar);
        if err.Some? {
          return;
        }
        k := k + 1;
      }
      err := None;
    }

    /** Union branch `k` (180-184), closed by its dedent when it compiled. */
    method Branch(bound: nat, args: seq<TypeHint>, k: nat, inVar: string, outVar: string) returns (err: Option<Error>)
      requires k < |args|
      requires forall i :: 0 <= i < |args| ==> Size(args[i]) < bound
      requires codegen.Valid()
      modifies codegen
      ensures codegen.Valid()
      ensures err.Some? ==> OutcomeOf(codegen.State(), err) == DeserUnionBranches(hooks, bound, args, inVar, outVar, k, old(codegen.State()))
      ensures err.None? ==> DeserUnionBranches(hooks, bound, args, inVar, outVar, k + 1, codegen.State())
                            == DeserUnionBranches(hooks, bound, args, inVar, outVar, k, old(codegen.State()))
      decreases bound, 2, 0
    {
      DeserUnionBranchesUnfold(hooks, bound, args, inVar, outVar, k, codegen.State());
      var tmp := BranchOpen(k, inVar);
      err := Any(args[k], tmp, outVar);
      if err.None? {
        codegen.Dedent();
      }
    }

    /** The start of union branch `k` (180-182). */
    method BranchOpen(k: nat, inVar: string) returns (tmp: string)
      requires codegen.Valid()
      modifies codegen
      ensures codegen.Valid()
      ensures (tmp, codegen.State()) == DeserBranchOpen(k, inVar, old(codegen.State()))
    {
      codegen.Literal([TagTest(k, inVar)]);
      codegen.Indent();
      tmp := codegen.AssignNew(Subscript(inVar, "1"));
    }

    /** type_ (204-238) */
    method Type(t: TypeHint, c: Class, args: seq<TypeHint>, inVar: string, outVar: string) returns (err: Option<Error>)
      requires ReadTypeHint(t) == (OClass(c), args)
      requires codegen.Valid()
      modifies codegen
      ensures codegen.Valid()
      ensures OutcomeOf(codegen.State(), err) == DeserType(hooks, t, c, args, inVar, outVar, old(codegen.State()))
      decreases Size(t), 3, 0
    {
      ReadTypeHintSmaller(t);
      if c.isMapping {
        if |args| != 2 {
          return Some(SerializationError);
        }
        MappingArgsSmaller(t, c);
        err := Mapping(c, args[0], args[1], inVar, outVar);
      } else if c.isCollection && !c.isStr && !c.isBytes {
        if IsFixedTuple(c, args) {
          err := FixedTuple(Size(t), c, args, inVar, outVar);
        } else {
          if |args| == 0 {
            return Some(IndexError);
          }
          var elems := args;
          if elems[|elems| - 1] == Ellipsis {
            elems := elems[..|elems| - 1];
          }
          assert elems == DropEllipsis(args);
          if |elems| != 1 {
            return Some(SerializationError);
          }
          err := Collection(c, elems[0], inVar, outVar);
        }
      } else {
        err := Some(SerializationError);
      }
    }

    /** mapping (152-163) */
    method Mapping(c: Class, keyType: TypeHint, valueType: TypeHint, inVar: string, outVar: string) returns (err: Option<Error>)
      requires codegen.Valid()
      modifies codegen
      ensures codegen.Valid()
      ensures OutcomeOf(codegen.State(), err) == DeserMapping(hooks, c, keyType, valueType, inVar, outVar, old(codegen.State()))
      decreases Size(keyType) + Size(valueType) + 1, 1, 0
    {
      DeserMappingUnfold(hooks, c, keyType, valueType, inVar, outVar, codegen.State());
      var names := MappingOpen(c, inVar);
      err := Any(keyType, names[1], names[1]);
      if err.Some? {
        return;
      }
      err := Any(valueType, names[2], names[2]);
      if err.Some? {
        return;
      }
      codegen.Assign(Subscript(names[0], names[1]), names[2]);
      codegen.Dedent();
      codegen.Assign(outVar, names[0]);
    }

    /** The start of mapping (153-158). */
    method MappingOpen(c: Class, inVar: string) returns (names: seq<string>)
      requires codegen.Valid()
      modifies codegen
      ensures codegen.Valid()
      ensures (names, codegen.State()) == DeserMappingOpen(c, inVar, old(codegen.State()))
    {
      var classVar := codegen.GetConst(OClass(c));
      names := codegen.GetVars(3);
      codegen.Assign(names[0], classVar + "()");
      codegen.Literal(["for " + names[1] + ", " + names[2] + " in " + inVar + ":"]);
      codegen.Indent();
    }

    /** collection (165-174) */
    method Collection(c: Class, elemType: TypeHint, inVar: string, outVar: string) returns (err: Option<Error>)
      requires codegen.Valid()
      modifies codegen
      ensures codegen.Valid()
      ensures OutcomeOf(codegen.State(), err) == DeserCollection(hooks, c, elemType, inVar, outVar, old(codegen.State()))
      decreases Size(elemType) + 1, 1, 0
    {
      ghost var g0 := codegen.State();
      var names := CollectionOpen(c, inVar, outVar);
      ghost var g1 := codegen.State();
      err := Any(elemType, names[1], names[1]);
      ghost var o := DeserAny(hooks, elemType, names[1], names[1], g1);
      assert DeserCollection(hooks, c, elemType, inVar, outVar, g0)
          == if o.Raised? then o else Done(o.g.Assign(Subscript(outVar, names[0]), names[1]).Dedent());
      if err.Some? {
        return;
      }
      codegen.Assign(Subscript(outVar, names[0]), names[1]);
      codegen.Dedent();
    }

    /** The start of collection (166-171). */
    method CollectionOpen(c: Class, inVar: string, outVar: string) returns (names: seq<string>)
      requires codegen.Valid()
      modifies codegen
      ensures codegen.Valid()
      ensures (names, codegen.State()) == DeserCollectionOpen(c, inVar, outVar, old(codegen.State()))
    {
      var classVar := codegen.GetConst(OClass(c));
      names := codegen.GetVars(2);
      codegen.Assign(outVar, classVar + "(" + inVar + ")");
      codegen.Literal(["for " + names[0] + ", " + names[1] + " in enumerate(" + inVar + "):"]);
      codegen.Indent();
    }

    /** The fixed-tuple case of type_ (215-225). */
    method FixedTuple(bound: nat, c: Class, args: seq<TypeHint>, inVar: string, outVar: string) returns (err: Option<Error>)
      requires forall i :: 0 <= i < |args| ==> Size(args[i]) < bound
      requires codegen.Valid()
      modifies codegen
      ensures codegen.Valid()
      ensures OutcomeOf(codegen.State(), err) == DeserFixedTuple(hooks, bound, c, args, inVar, outVar, old(codegen.State()))
      decreases bound, 2, 0
    {
      ghost var g0 := codegen.State();
      var argsVars := codegen.GetVars(|args|);
      ghost var g1 := codegen.State();
      ghost var elems := DeserTupleElems(hooks, bound, args, argsVars, inVar, 0, g1);
      assert DeserFixedTuple(hooks, bound, c, args, inVar, outVar, g0)
          == if elems.Raised? then elems else Done(elems.g.AddStatements(hooks.tuple(c, argsVars, outVar)));
      var k := 0;
      while k < |args|
        invariant 0 <= k <= |args|
        invariant codegen.Valid()
        invariant elems == DeserTupleElems(hooks, bound, args, argsVars, inVar, k, codegen.State())
        decreases |args| - k
      {
        ghost var g := codegen.State();
        var tmp := codegen.AssignNew(Subscript(inVar, NatToString(k)));
        ghost var g2 := codegen.State();
        err := Any(args[k], tmp, argsVars[k]);
        ghost var o := DeserAny(hooks, args[k], tmp, argsVars[k], g2);
        assert DeserTupleElems(hooks, bound, args, argsVars, inVar, k, g)
            == if o.Raised? then o else DeserTupleElems(hooks, bound, args, argsVars, inVar, k + 1, o.g);
        if err.Some? {
          return;
        }
        k := k + 1;
      }
      codegen.AddStatements(hooks.tuple(c, argsVars, outVar));
      err := None;
    }
  }
}
