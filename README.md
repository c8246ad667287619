# pipifax-io code generation, modelled in Dafny

pipifax-io turns Python type hints into straight-line Python source that
converts values of that type to and from JSON-compatible data. This project
models that compile step:

- the `CodeGenerator` statement builder (`code_generator.py`);
- the generic `SerializerCodegen` and `DeserializerCodegen` generators and
  `read_type_hint` (`type_serializer.py`);
- the JSON compilers `_compile_json_serializer` and
  `_compile_json_deserializer`, `issubclass_json_type` and the
  `compile_json_*` entry points (`json_serialization.py`);
- `SimpleSerializable`: `_get_serialize_fields`, its two
  `_compile_json_*` hooks and the `HasSerializationCodegen` delegation
  (`serializable.py`, whose two copies in the repository are identical).

Each operation is modelled twice, and the two are proved to agree:

- **A specification function over a value.** The builder's state is the
  datatype `Gen` (statements with their indents, current indent,
  constants, name counter). A compile is a function from a hint and a
  starting `Gen` to an `Outcome`. The outcome is `Done(g)`, or
  `Raised(error, g)` with the state the builder was in when the error was
  raised.
- **An imperative method in the source's own form.** `CodeGen.CodeGenerator`
  is a class whose methods update its fields.
  `TypeSerializerCodegen.SerializerCodegen` and `DeserializerCodegen` are
  classes that emit into a shared builder. `JsonCodegen` holds the JSON
  compilers and the hooks as methods over that builder. Every method
  ensures that the error it returns and the builder's new state are what
  the specification function gives for the old state.

The properties are proved about the specification functions:

- Every compile is a build step (`Step`): it only appends statements
  inside the block it started in, keeps every constant binding, and a
  completed compile is back at the indent it started at.
- Which hints each compiler rejects, and with which error.
- Which hints count as native JSON types.
- The shape of the code emitted for unions, mappings, fixed tuples,
  sequences and `SimpleSerializable` records.
- Generated names are fresh and distinct.

Modules:

| file | module | contents |
|---|---|---|
| `errors.dfy` | `Errors` | `Option`, `Result` and the error kinds the compilers raise |
| `text.dfy` | `Text` | decimal rendering of the name counter and `str.join` |
| `code_generator.dfy` | `CodeGen` | `Statement`, `Line`, `Gen`, rendering, blocks, the `CodeGenerator` class |
| `type_hints.dfy` | `TypeHints` | type hints, classes, `get_origin`/`get_args`, `read_type_hint`, the size measure |
| `type_serializer.dfy` | `TypeSerializer` | the generic generators as functions, and their properties |
| `type_serializer_codegen.dfy` | `TypeSerializerCodegen` | the two generator classes |
| `serialize_fields.dfy` | `SerializeFields` | `_get_serialize_fields` |
| `json_serialization.dfy` | `JsonSerialization` | `issubclass_json_type`, both JSON compilers, the hooks and the entry points as functions, and the build-step lemmas |
| `json_properties.dfy` | `JsonProperties` | what the JSON compilers emit and reject |
| `json_codegen.dfy` | `JsonCodegen` | the JSON compilers and hooks as methods over the `CodeGenerator` class |

How Python concepts are represented:

- **Type hints** are values of the datatype `TypeHint`: a plain class, a
  generic alias, `X | Y`, `typing.Union[...]`, `None`, `...`, a special
  form such as `typing.Literal[...]` or `typing.Never`, or a
  `SimpleSerializable` record together with its declaration. `typing.Any`
  is a plain class since Python 3.11, so it is a `Class`, not a special
  form.
- **The Python version.** The reflection facts are those of Python 3.12
  and 3.13. There `typing.Union[X, None]` and `typing.Optional[X]` are
  not `types.UnionType`, and only `X | None` is. Python 3.14 merges the
  two union types, which this model does not follow.
- **pydantic** is taken as installed, and no hint is a subclass of
  `pydantic.BaseModel` or an instance of its metaclass. The pydantic tests
  (json_serialization.py:235 and 353) are then passed over, and the
  compilers reach their final errors.
- **A class** carries flags for the `issubclass` questions the code asks:
  mapping, collection, `str`, `bytes`, `datetime`, scalar.
- **Python's `is`** on hints is modelled as equality.
- **The abstract hooks** `is_scalar`, `scalar` and `tuple_` of the generic
  generators are parameters: records of functions that return the
  statements to emit.
- **The builder type.** The hooks in `serializable.py` and the JSON
  compilers are written against `dyn_codegen.CodeGenerator`, which is not
  part of this model. The model uses the `CodeGenerator` of
  `code_generator.py`, with one parameter: `defaultCount`, the number of
  names `get_vars()` returns when called without a count. In
  `code_generator.py:74` that number is 1.

The model follows the code as written, including where its behaviour
looks unintended. Each such case is stated as a lemma:

- `JsonProperties.MappingNeedsTwoDefaultNames`: the serializer unpacks
  `k, v = codegen.get_vars()`, which fails unless `get_vars()` returns
  two names by default.
- `JsonProperties.StrKeyedValuesCopied`: a `str`-keyed mapping recompiles
  its values with the key type, so they are copied unconverted.
- `JsonProperties.FixedTupleSerializerIgnoresInput`: the fixed-tuple
  serializer reads its elements from `out[i]`, not from the input.
- `JsonProperties.BytesBranchesAgree`: the serializer's `bytes` branch
  emits base64 decoding.
- `JsonProperties.BareBytesRaisesIndexError`: `bytes` is a Collection, so
  a bare `bytes` hint raises `IndexError` and the `bytes` branches are
  never reached.
- `JsonProperties.MappingArityRejected`: the serializer raises
  `DeserializationError`.
- `TypeSerializer.DeserUnionShape`: the deserializer accepts unions that
  the serializer refuses as duplicates.
- Only the `X | None` spelling (a `types.UnionType` on Python 3.12 and
  3.13) triggers the removal of `None`; `typing.Optional[X]` does not. See
  `JsonProperties.OptionalCompilesAsMember` and
  `JsonProperties.OtherUnionsRejected`.
- In the deserializer's fixed-tuple case, the `base_class is not tuple`
  steps (json_serialization.py:296-297 and 306-307) can never run, because
  only `tuple` itself takes that branch. The model leaves them out.

## Model

| member | source | states |
|---|---|---|
| Text.NatToString | pipifax-io/src/pipifax_io/code_generator.py:70 | the decimal rendering of the counter is a non-empty string of digits, one digit exactly for values below ten |
| Text.NatToStringInjective | pipifax-io/src/pipifax_io/code_generator.py:68-72 | two different counter values never render to the same text, so `var{i}` names never collide |
| Text.Join | pipifax-io/src/pipifax_io/code_generator.py:139 | joining a single line gives that line unchanged |
| Text.JoinSnoc | pipifax-io/src/pipifax_io/code_generator.py:133-139 | each further line adds the newline separator and then the line at the end of the text |
| CodeGen.VarNameInjective | pipifax-io/src/pipifax_io/code_generator.py:68-72 | `get_var` names from different counter values differ |
| CodeGen.VarNamePrefix | pipifax-io/src/pipifax_io/code_generator.py:70 | every generated name starts with `var` |
| CodeGen.FreshNames | pipifax-io/src/pipifax_io/code_generator.py:68-72 | the name for counter value `i` differs from the name for every other value |
| CodeGen.GetVarsDistinct | pipifax-io/src/pipifax_io/code_generator.py:74-75 | the `n` names of `get_vars(n)` are pairwise distinct and differ from every name handed out before |
| CodeGen.NotAVarName | pipifax-io/src/pipifax_io/code_generator.py:82-83 | a module name not starting with `var` is never a counter name, so an import cannot clash with a variable |
| CodeGen.Gen.GetVar | pipifax-io/src/pipifax_io/code_generator.py:68-72 | returns `var<i>` for the current counter and advances the counter by one; nothing else changes; the builder invariant is kept |
| CodeGen.Gen.GetVars | pipifax-io/src/pipifax_io/code_generator.py:74-75 | returns the next `n` counter names in order (`k`-th is `var<i+k>`) and advances the counter by `n`; the invariant is kept |
| CodeGen.Gen.GetConst | pipifax-io/src/pipifax_io/code_generator.py:77-80 | binds a fresh counter name to the object in the constant table and returns that name; statements and indent unchanged |
| CodeGen.Gen.EnsureImport | pipifax-io/src/pipifax_io/code_generator.py:82-83 | binds the module under its own name, nothing else changes; the invariant is kept for module names that are not counter names |
| CodeGen.Gen.Dedent | pipifax-io/src/pipifax_io/code_generator.py:88-90 | appends the `...` placeholder at the inner indent, then goes one level out |
| CodeGen.Gen.Assign | pipifax-io/src/pipifax_io/code_generator.py:95-101 | appends exactly one assignment at the current indent; its left side is `left`, or `# left` when it equals `right`, so a stored assignment never assigns a name to itself |
| CodeGen.Gen.AssignNew | pipifax-io/src/pipifax_io/code_generator.py:103-106 | takes a fresh name and appends one assignment of the expression to it; the counter advances by one |
| CodeGen.Gen.Literal | pipifax-io/src/pipifax_io/code_generator.py:108-112 | each text becomes one line at the current indent, in order, after the old statements, which are kept; nothing else changes |
| CodeGen.GrowsGetVar | pipifax-io/src/pipifax_io/code_generator.py:68-72 | `get_var` is a build step: nothing emitted, no constant lost, the counter only grows |
| CodeGen.GrowsGetVars | pipifax-io/src/pipifax_io/code_generator.py:74-75 | `get_vars` is a build step |
| CodeGen.GrowsGetConst | pipifax-io/src/pipifax_io/code_generator.py:77-80 | `get_const` is a build step and its name was not bound before, so no binding is overwritten |
| CodeGen.GrowsEnsureImport | pipifax-io/src/pipifax_io/code_generator.py:82-83 | `ensure_import` of a non-counter name is a build step |
| CodeGen.GrowsIndent | pipifax-io/src/pipifax_io/code_generator.py:85-86 | `indent` is a build step |
| CodeGen.GrowsDedent | pipifax-io/src/pipifax_io/code_generator.py:88-90 | `dedent` is a build step (its placeholder stays inside the block it closes) |
| CodeGen.GrowsAddStatements | pipifax-io/src/pipifax_io/code_generator.py:92-93 | adding statements only appends, at the current indent |
| CodeGen.GrowsAssign | pipifax-io/src/pipifax_io/code_generator.py:95-101 | `assign` is a build step |
| CodeGen.GrowsAssignNew | pipifax-io/src/pipifax_io/code_generator.py:103-106 | `assign_new` is a build step |
| CodeGen.GrowsLiteral | pipifax-io/src/pipifax_io/code_generator.py:108-112 | `literal` is a build step |
| CodeGen.GrowsTrans | pipifax-io/src/pipifax_io/code_generator.py:61-118 | two build steps in a row are one build step |
| CodeGen.SelfAssignRendersAsComment | pipifax-io/src/pipifax_io/code_generator.py:95-101 | `assign(x, x)` renders as the comment `# x = x`, indented like the other statements of its block |
| CodeGen.Spaces | pipifax-io/src/pipifax_io/code_generator.py:137 | the indentation prefix is four spaces per level and empty for a level of zero or below, as Python string repetition gives |
| CodeGen.RenderedLines | pipifax-io/src/pipifax_io/code_generator.py:133-138 | one rendered line per statement |
| CodeGen.OpenBlock | pipifax-io/src/pipifax_io/code_generator.py:125-126 | opening a new empty block adds no line to the statements the blocks stand for |
| CodeGen.GrowLastBlock | pipifax-io/src/pipifax_io/code_generator.py:128 | adding a statement to the last block appends its line at the end of the flattened log |
| CodeGen.BlocksStep | pipifax-io/src/pipifax_io/code_generator.py:124-129 | one loop step keeps the blocks a partition of the statements seen into maximal runs of equal indent: a new block is opened exactly when the indent changes |
| CodeGen.GetVarsNext | pipifax-io/src/pipifax_io/code_generator.py:74-75 | `get_vars(k + 1)` is `get_vars(k)` followed by one more `get_var` |
| CodeGen.CodeGenerator.constructor | pipifax-io/src/pipifax_io/code_generator.py:61-66 | a new generator has no statements, indent 0, no constants and counter 0 |
| CodeGen.CodeGenerator.GetVar | pipifax-io/src/pipifax_io/code_generator.py:68-72 | the object changes exactly as `Gen.GetVar` says and returns its name |
| CodeGen.CodeGenerator.GetVars | pipifax-io/src/pipifax_io/code_generator.py:74-75 | the list comprehension of `get_var` calls gives exactly `Gen.GetVars` |
| CodeGen.CodeGenerator.GetConst | pipifax-io/src/pipifax_io/code_generator.py:77-80 | the object changes exactly as `Gen.GetConst` says |
| CodeGen.CodeGenerator.EnsureImport | pipifax-io/src/pipifax_io/code_generator.py:82-83 | the object changes exactly as `Gen.EnsureImport` says |
| CodeGen.CodeGenerator.Indent | pipifax-io/src/pipifax_io/code_generator.py:85-86 | the indent goes up by one, nothing else changes |
| CodeGen.CodeGenerator.Dedent | pipifax-io/src/pipifax_io/code_generator.py:88-90 | the object changes exactly as `Gen.Dedent` says |
| CodeGen.CodeGenerator.AddStatement | pipifax-io/src/pipifax_io/code_generator.py:92-93 | the statement is appended at the current indent |
| CodeGen.CodeGenerator.AddStatements | pipifax-io/src/pipifax_io/code_generator.py:92-93 | the statements are appended in order at the current indent |
| CodeGen.CodeGenerator.Assign | pipifax-io/src/pipifax_io/code_generator.py:95-101 | the object changes exactly as `Gen.Assign` says |
| CodeGen.CodeGenerator.AssignNew | pipifax-io/src/pipifax_io/code_generator.py:103-106 | the object changes exactly as `Gen.AssignNew` says and the fresh name is returned |
| CodeGen.CodeGenerator.Literal | pipifax-io/src/pipifax_io/code_generator.py:108-112 | each literal is appended, in order, at the current indent |
| CodeGen.CodeGenerator.Comment | pipifax-io/src/pipifax_io/code_generator.py:114-118 | each text is appended, in order, as a `# ` literal at the current indent |
| CodeGen.CodeGenerator.Blocks | pipifax-io/src/pipifax_io/code_generator.py:120-131 | the result partitions the statement log into maximal runs of equal indent, in order |
| CodeGen.CodeGenerator.ToStr | pipifax-io/src/pipifax_io/code_generator.py:133-139 | the text is the statements, each indented four spaces per level, joined by newlines |
| TypeHints.ReadTypeHint | pipifax-io/src/pipifax_io/type_serializer.py:17-27 | `None` reads as `NoneType` with no arguments; otherwise the base is the origin or the hint itself, and the arguments are those of `get_args` with every `None` replaced by `NoneType` |
| TypeHints.ReadTypeHintSmaller | pipifax-io/src/pipifax_io/type_serializer.py:17-27 | every argument read from a hint is smaller than the hint, so the generators terminate |
| TypeHints.UnionMembersSmaller | pipifax-io/src/pipifax_io/type_serializer.py:59-79 | each union member tagged as `tuple[int, member]` is still smaller than the union |
| TypeHints.MappingArgsSmaller | pipifax-io/src/pipifax_io/type_serializer.py:100-107 | `list[tuple[K, V]]` built from a mapping is smaller than the mapping |
| TypeHints.NoneArgsSize | pipifax-io/src/pipifax_io/type_serializer.py:23-27 | replacing `None` by `NoneType` does not change the size of the arguments |
| TypeSerializer.Origins | pipifax-io/src/pipifax_io/type_serializer.py:60-61 | one origin per union member |
| TypeSerializer.Tagged | pipifax-io/src/pipifax_io/type_serializer.py:76 | the tagged member type `tuple[int, member]` is two larger than the member |
| TypeSerializer.SerBranchOpen | pipifax-io/src/pipifax_io/type_serializer.py:73-77 | opens union branch `k`: the type constant, the `if`/`elif isinstance` header at the current indent, one level in, then the tagged pair assigned to a fresh name |
| TypeSerializer.DeserBranchOpen | pipifax-io/src/pipifax_io/type_serializer.py:180-182 | opens deserializer union branch `k`: the tag test header, one level in, then `in[1]` assigned to a fresh name |
| TypeSerializer.SerCollectionOpen | pipifax-io/src/pipifax_io/type_serializer.py:51-54 | the copy `out = list(in)`, the `enumerate` loop header and one level in, with two fresh names |
| TypeSerializer.DeserMappingOpen | pipifax-io/src/pipifax_io/type_serializer.py:153-158 | the class constant, a fresh variable bound to an empty instance, the loop over the pairs and one level in |
| TypeSerializer.DeserCollectionOpen | pipifax-io/src/pipifax_io/type_serializer.py:166-171 | the class constant, `out` bound to an instance built from the input, the `enumerate` loop and one level in |
| TypeSerializer.SerAnyStep | pipifax-io/src/pipifax_io/type_serializer.py:81-97 | the serializer generator is a build step: it only appends statements inside the block it started in, keeps every constant, and a completed compile is back at its starting indent (every `indent` matched by a `dedent`) |
| TypeSerializer.SerUnionStep | pipifax-io/src/pipifax_io/type_serializer.py:59-79 | the union generator is a build step |
| TypeSerializer.SerBranchOpenStep | pipifax-io/src/pipifax_io/type_serializer.py:73-77 | opening a union branch is a build step that goes one level in |
| TypeSerializer.CloseBranch | pipifax-io/src/pipifax_io/type_serializer.py:78-79 | a completed branch body closed by its dedent, followed by the rest of the loop, is a build step |
| TypeSerializer.SerUnionBranchesStep | pipifax-io/src/pipifax_io/type_serializer.py:72-79 | the union loop is a build step |
| TypeSerializer.SerTypeStep | pipifax-io/src/pipifax_io/type_serializer.py:99-133 | `type_` is a build step |
| TypeSerializer.SerMappingStep | pipifax-io/src/pipifax_io/type_serializer.py:46-48 | the mapping case is a build step |
| TypeSerializer.SerFixedTupleStep | pipifax-io/src/pipifax_io/type_serializer.py:109-120 | the fixed-tuple case is a build step |
| TypeSerializer.SerTupleElemsStep | pipifax-io/src/pipifax_io/type_serializer.py:111-118 | the element loop of a fixed tuple is a build step |
| TypeSerializer.SerCollectionOpenStep | pipifax-io/src/pipifax_io/type_serializer.py:51-54 | opening the collection loop is a build step that goes one level in |
| TypeSerializer.SerCollectionStep | pipifax-io/src/pipifax_io/type_serializer.py:50-57 | the collection case is a build step |
| TypeSerializer.DeserAnyStep | pipifax-io/src/pipifax_io/type_serializer.py:186-202 | the deserializer generator is a build step |
| TypeSerializer.DeserBranchOpenStep | pipifax-io/src/pipifax_io/type_serializer.py:180-182 | opening a deserializer union branch is a build step one level in |
| TypeSerializer.DeserUnionBranchesStep | pipifax-io/src/pipifax_io/type_serializer.py:176-184 | the deserializer union loop is a build step |
| TypeSerializer.DeserTypeStep | pipifax-io/src/pipifax_io/type_serializer.py:204-238 | the deserializer `type_` is a build step |
| TypeSerializer.DeserMappingOpenStep | pipifax-io/src/pipifax_io/type_serializer.py:153-158 | opening the mapping loop is a build step one level in |
| TypeSerializer.DeserMappingStep | pipifax-io/src/pipifax_io/type_serializer.py:152-163 | the deserializer mapping case is a build step |
| TypeSerializer.DeserFixedTupleStep | pipifax-io/src/pipifax_io/type_serializer.py:214-225 | the deserializer fixed-tuple case is a build step |
| TypeSerializer.DeserTupleElemsStep | pipifax-io/src/pipifax_io/type_serializer.py:216-223 | its element loop is a build step |
| TypeSerializer.DeserCollectionOpenStep | pipifax-io/src/pipifax_io/type_serializer.py:166-171 | opening the deserializer collection loop is a build step one level in |
| TypeSerializer.DeserCollectionStep | pipifax-io/src/pipifax_io/type_serializer.py:165-174 | the deserializer collection case is a build step |
| TypeSerializer.SerUnionDuplicate | pipifax-io/src/pipifax_io/type_serializer.py:60-70 | a union with two members of the same origin raises `SerializationError` before anything is emitted |
| TypeSerializer.SerAnyUnion | pipifax-io/src/pipifax_io/type_serializer.py:59-79 | a union is rejected exactly when two members share an origin, and is otherwise compiled by the branch loop from member 0 |
| TypeSerializer.SerBranchTop | pipifax-io/src/pipifax_io/type_serializer.py:73-78 | a whole serializer branch adds only its header at the indent it opened at, and the header tests against a constant bound to the member's origin |
| TypeSerializer.SerBranchOpenTop | pipifax-io/src/pipifax_io/type_serializer.py:73-77 | the opening of a branch adds only the `isinstance` header at the outer indent |
| TypeSerializer.HeadersFromIndexed | pipifax-io/src/pipifax_io/type_serializer.py:72-79 | the headers collected from member `k` on are one per member, the `i`-th testing member `i`'s origin |
| TypeSerializer.SerUnionBranchesTests | pipifax-io/src/pipifax_io/type_serializer.py:72-79 | the branch loop from member `k` on leaves at its indent exactly the headers of those members, in order |
| TypeSerializer.SerUnionHeaders | pipifax-io/src/pipifax_io/type_serializer.py:67-79 | a union compiles to one `if`/`elif` branch per member at the current indent, in member order, the `k`-th testing `isinstance` against a constant bound to member `k`'s origin |
| TypeSerializer.TagTestsIndexed | pipifax-io/src/pipifax_io/type_serializer.py:180 | the deserializer headers are one per member, the `j`-th testing the tag `in[0] == j` |
| TypeSerializer.DeserBranchTop | pipifax-io/src/pipifax_io/type_serializer.py:180-184 | a whole deserializer branch adds only its tag test at the indent it opened at |
| TypeSerializer.DeserBranchOpenTop | pipifax-io/src/pipifax_io/type_serializer.py:180-182 | the opening of a deserializer branch adds only its tag test at the outer indent |
| TypeSerializer.DeserUnionBranchesTests | pipifax-io/src/pipifax_io/type_serializer.py:179-184 | the deserializer branch loop from member `k` on leaves exactly the tag tests of those members, in order |
| TypeSerializer.DeserAnyUnion | pipifax-io/src/pipifax_io/type_serializer.py:176-184 | a union hint is compiled by the deserializer branch loop from member 0; no duplicate check is made |
| TypeSerializer.DeserUnionShape | pipifax-io/src/pipifax_io/type_serializer.py:176-184 | a compiled union leaves one tag-test branch per member at its indent, in order, even when members share an origin |
| TypeSerializer.SerMappingShape | pipifax-io/src/pipifax_io/type_serializer.py:46-48 | a mapping without exactly two arguments raises `SerializationError`; with two, the input is rebound to its item list and compiled as `list[tuple[K, V]]` |
| TypeSerializer.DeserMappingOpenTop | pipifax-io/src/pipifax_io/type_serializer.py:153-158 | the mapping opening adds only the empty-instance binding and the loop header at its indent |
| TypeSerializer.DeserMappingClose | pipifax-io/src/pipifax_io/type_serializer.py:159-163 | closing the mapping loop and binding `out` adds only that binding at the outer indent, last; the class constant survives |
| TypeSerializer.DeserMappingTop | pipifax-io/src/pipifax_io/type_serializer.py:152-163 | the deserializer mapping registers the class as a constant, binds an empty instance, loops over the pairs, and binds `out` after the loop as its last statement; nothing else at its indent |
| TypeSerializer.DeserMappingBody | pipifax-io/src/pipifax_io/type_serializer.py:152-163 | a completed mapping case is its opened loop, a body that is a build step at the loop's indent, the dedent and the binding of `out` |
| TypeSerializer.DeserMappingDispatch | pipifax-io/src/pipifax_io/type_serializer.py:205-212 | a mapping without exactly two arguments raises `SerializationError`; with two it goes to the mapping case with its key and value types |
| TypeSerializer.GetVarsRun | pipifax-io/src/pipifax_io/type_serializer.py:111 | `get_vars(len(args))` hands out the run of consecutive fresh names |
| TypeSerializer.SerTupleElemsReads | pipifax-io/src/pipifax_io/type_serializer.py:111-118 | the element loop reads element `i` from `in[i]`, in position order, at the tuple's indent |
| TypeSerializer.ElementReads | pipifax-io/src/pipifax_io/type_serializer.py:113-118 | one element: its read from `in[k]` comes before those of the later elements |
| TypeSerializer.TupleEnd | pipifax-io/src/pipifax_io/type_serializer.py:120 | after the element loop the case ends with exactly what `tuple_` emits |
| TypeSerializer.SerTupleBody | pipifax-io/src/pipifax_io/type_serializer.py:111-120 | the element loop and the hook together read every position in order and end with the hook's statements |
| TypeSerializer.SerFixedTupleShape | pipifax-io/src/pipifax_io/type_serializer.py:109-120 | a fixed tuple reads element `i` from `in[i]` in position order, and ends with what `tuple_` emits for one fresh name per element, in counter order |
| TypeSerializer.DeserTupleElemsReads | pipifax-io/src/pipifax_io/type_serializer.py:216-223 | the deserializer element loop reads element `i` from `in[i]`, in order |
| TypeSerializer.DeserTupleBody | pipifax-io/src/pipifax_io/type_serializer.py:216-225 | the deserializer element loop and hook read every position in order and end with the hook's statements |
| TypeSerializer.DeserFixedTupleShape | pipifax-io/src/pipifax_io/type_serializer.py:214-225 | as for the serializer, and `tuple_` is also handed the tuple class |
| TypeSerializer.SerAnyNotClass | pipifax-io/src/pipifax_io/type_serializer.py:81-97 | a hint that is not scalar, not a union and whose origin is not a class raises `TypeHintError` before anything is emitted |
| TypeSerializer.SerAnyClass | pipifax-io/src/pipifax_io/type_serializer.py:90-95 | a hint whose origin is a class (other than `types.UnionType`) goes to `type_` with its read arguments |
| TypeSerializer.SerTypeUnsupported | pipifax-io/src/pipifax_io/type_serializer.py:99-133 | a class that is neither a mapping nor a collection other than `str`/`bytes` raises `SerializationError` before anything is emitted |
| TypeSerializer.SerCollectionArity | pipifax-io/src/pipifax_io/type_serializer.py:121-133 | with no type argument `args[-1]` raises `IndexError`; with one element type (possibly followed by `...`) the collection case runs; otherwise `SerializationError` |
| TypeSerializer.SerCollectionDispatch | pipifax-io/src/pipifax_io/type_serializer.py:81-133 | the same three cases seen from `any` |
| TypeSerializer.SerFixedTupleDispatch | pipifax-io/src/pipifax_io/type_serializer.py:109-120 | seen from `any`: a fixed tuple reads each element from `in[i]` in order and ends with `tuple_` of one fresh name per element |
| TypeSerializer.SerTypeFixedTuple | pipifax-io/src/pipifax_io/type_serializer.py:109-110 | a `tuple` that is not `tuple[T, ...]` goes to the fixed-tuple case, whose elements are all smaller than the tuple |
| TypeSerializer.SerCollectionOpenTop | pipifax-io/src/pipifax_io/type_serializer.py:51-54 | the opening adds only `out = list(in)` and the `enumerate` header at its indent |
| TypeSerializer.SerCollectionTop | pipifax-io/src/pipifax_io/type_serializer.py:50-57 | the collection case emits at its indent only the list copy and the `enumerate` loop, and its body ends by storing the converted element back with `out[i] = v` |
| TypeSerializer.DeserCollectionOpenTop | pipifax-io/src/pipifax_io/type_serializer.py:166-171 | the deserializer opening adds only the instance binding and the `enumerate` header |
| TypeSerializer.DeserCollectionClose | pipifax-io/src/pipifax_io/type_serializer.py:172-174 | closing the loop with `out[i] = v` and the dedent adds nothing at the outer indent; the class constant survives |
| TypeSerializer.DeserCollectionTop | pipifax-io/src/pipifax_io/type_serializer.py:165-174 | the deserializer collection registers the class, binds `out` to an instance built from the input, walks it with `enumerate` and ends its body with `out[i] = v` |
| TypeSerializer.DeserAnyNotClass | pipifax-io/src/pipifax_io/type_serializer.py:186-202 | as for the serializer, a non-class origin raises `TypeHintError` |
| TypeSerializer.DeserAnyClass | pipifax-io/src/pipifax_io/type_serializer.py:195-200 | a class origin goes to the deserializer `type_` |
| TypeSerializer.DeserTypeUnsupported | pipifax-io/src/pipifax_io/type_serializer.py:204-238 | the classes the serializer rejects are rejected here too, with `SerializationError` |
| TypeSerializer.DeserCollectionArity | pipifax-io/src/pipifax_io/type_serializer.py:226-238 | the deserializer's collection arity cases: `IndexError`, the collection case, or `SerializationError` |
| TypeSerializer.DeserCollectionDispatch | pipifax-io/src/pipifax_io/type_serializer.py:186-238 | the same three cases seen from `any` |
| TypeSerializer.DeserFixedTupleDispatch | pipifax-io/src/pipifax_io/type_serializer.py:214-225 | seen from `any`: each element read from `in[i]` in order, and `tuple_` of the class and one fresh name per element last |
| TypeSerializer.DeserTypeFixedTuple | pipifax-io/src/pipifax_io/type_serializer.py:214-215 | a fixed `tuple` goes to the deserializer fixed-tuple case with smaller elements |
| TypeSerializerCodegen.FindDuplicate | pipifax-io/src/pipifax_io/type_serializer.py:60-70 | the nested loop finds a pair exactly when two different members share an origin |
| TypeSerializerCodegen.SerializerCodegen.constructor | pipifax-io/src/pipifax_io/type_serializer.py:31-32 | the generator holds the shared builder and the hooks |
| TypeSerializerCodegen.SerializerCodegen.Any | pipifax-io/src/pipifax_io/type_serializer.py:81-97 | raises exactly the error and leaves the builder exactly as `SerAny` says |
| TypeSerializerCodegen.SerializerCodegen.Union | pipifax-io/src/pipifax_io/type_serializer.py:59-79 | raises and emits exactly as `SerUnion` says |
| TypeSerializerCodegen.SerializerCodegen.Branches | pipifax-io/src/pipifax_io/type_serializer.py:72-79 | the loop over members emits exactly what `SerUnionBranches` from member 0 does |
| TypeSerializerCodegen.SerializerCodegen.Branch | pipifax-io/src/pipifax_io/type_serializer.py:73-79 | one iteration: either the error `SerUnionBranches` raises, or the rest of the loop from `k + 1` gives the same result |
| TypeSerializerCodegen.SerializerCodegen.BranchOpen | pipifax-io/src/pipifax_io/type_serializer.py:73-77 | the opening is exactly `SerBranchOpen` |
| TypeSerializerCodegen.SerializerCodegen.Type | pipifax-io/src/pipifax_io/type_serializer.py:99-133 | raises and emits exactly as `SerType` says |
| TypeSerializerCodegen.SerializerCodegen.Mapping | pipifax-io/src/pipifax_io/type_serializer.py:46-48 | exactly `SerMapping` |
| TypeSerializerCodegen.SerializerCodegen.Collection | pipifax-io/src/pipifax_io/type_serializer.py:50-57 | exactly `SerCollection` |
| TypeSerializerCodegen.SerializerCodegen.CollectionOpen | pipifax-io/src/pipifax_io/type_serializer.py:51-54 | exactly `SerCollectionOpen` |
| TypeSerializerCodegen.SerializerCodegen.FixedTuple | pipifax-io/src/pipifax_io/type_serializer.py:109-120 | exactly `SerFixedTuple` |
| TypeSerializerCodegen.DeserializerCodegen.constructor | pipifax-io/src/pipifax_io/type_serializer.py:137-138 | the generator holds the shared builder and the hooks |
| TypeSerializerCodegen.DeserializerCodegen.Any | pipifax-io/src/pipifax_io/type_serializer.py:186-202 | raises and emits exactly as `DeserAny` says |
| TypeSerializerCodegen.DeserializerCodegen.Union | pipifax-io/src/pipifax_io/type_serializer.py:176-184 | exactly `DeserUnionBranches` from member 0 |
| TypeSerializerCodegen.DeserializerCodegen.Branch | pipifax-io/src/pipifax_io/type_serializer.py:180-184 | one iteration: the raised error, or the rest of the loop from `k + 1` gives the same result |
| TypeSerializerCodegen.DeserializerCodegen.BranchOpen | pipifax-io/src/pipifax_io/type_serializer.py:180-182 | exactly `DeserBranchOpen` |
| TypeSerializerCodegen.DeserializerCodegen.Type | pipifax-io/src/pipifax_io/type_serializer.py:204-238 | exactly `DeserType` |
| TypeSerializerCodegen.DeserializerCodegen.Mapping | pipifax-io/src/pipifax_io/type_serializer.py:152-163 | exactly `DeserMapping` |
| TypeSerializerCodegen.DeserializerCodegen.MappingOpen | pipifax-io/src/pipifax_io/type_serializer.py:153-158 | exactly `DeserMappingOpen` |
| TypeSerializerCodegen.DeserializerCodegen.Collection | pipifax-io/src/pipifax_io/type_serializer.py:165-174 | exactly `DeserCollection` |
| TypeSerializerCodegen.DeserializerCodegen.CollectionOpen | pipifax-io/src/pipifax_io/type_serializer.py:166-171 | exactly `DeserCollectionOpen` |
| TypeSerializerCodegen.DeserializerCodegen.FixedTuple | pipifax-io/src/pipifax_io/type_serializer.py:214-225 | exactly `DeserFixedTuple` |
| SerializeFields.SelectFieldsSpec | pipifax-io/src/pipifax_io/serializable.py:137-154 | the selected fields have no name twice; a name is selected exactly when it is not excluded and is a non-ClassVar dataclass field or a `__serialize_fields__` key, with the `__serialize_fields__` type winning |
| SerializeFields.ExcludedNeverSelected | pipifax-io/src/pipifax_io/serializable.py:151-152 | an excluded name is never selected |
| SerializeFields.GetSerializeFields | pipifax-io/src/pipifax_io/serializable.py:137-154 | the merge followed by the pop loop over the excluded names gives exactly the selected fields |
| SerializeFields.PutGet | pipifax-io/src/pipifax_io/serializable.py:144-149 | storing a key makes it map to the new value and leaves every other key as it was |
| SerializeFields.PutUnique | pipifax-io/src/pipifax_io/serializable.py:144-149 | storing a key keeps the keys unique and adds no key but the stored one |
| SerializeFields.PutAllGet | pipifax-io/src/pipifax_io/serializable.py:144-149 | after merging items, a key maps to its last merged value if it has one and to its old value otherwise |
| SerializeFields.LastValueCons | pipifax-io/src/pipifax_io/serializable.py:144-149 | the value a dict keeps for a key is that of its last item with the key |
| SerializeFields.PutAllUnique | pipifax-io/src/pipifax_io/serializable.py:144-149 | merging keeps the keys unique |
| SerializeFields.WithoutGet | pipifax-io/src/pipifax_io/serializable.py:151-152 | after the pops an excluded key is absent and every other key keeps its value |
| SerializeFields.WithoutUnique | pipifax-io/src/pipifax_io/serializable.py:151-152 | the pops keep the keys unique and add none |
| SerializeFields.WithoutNothing | pipifax-io/src/pipifax_io/serializable.py:151-152 | with no exclusions nothing is removed |
| SerializeFields.WithoutWithout | pipifax-io/src/pipifax_io/serializable.py:151-152 | popping one more key equals excluding it from the start, whatever order the set yields |
| SerializeFields.WithoutNames | pipifax-io/src/pipifax_io/serializable.py:151-152 | no remaining key is excluded |
| SerializeFields.SelectedHintsSmaller | pipifax-io/src/pipifax_io/serializable.py:137-154 | every selected type is one the record declares, so the hook compilers terminate |
| SerializeFields.PutHintsBelow | pipifax-io/src/pipifax_io/serializable.py:144-149 | storing a declared type keeps every type declared |
| SerializeFields.PutAllHintsBelow | pipifax-io/src/pipifax_io/serializable.py:144-149 | merging declared types keeps every type declared |
| SerializeFields.WithoutHintsBelow | pipifax-io/src/pipifax_io/serializable.py:151-152 | removing keys keeps every type declared |
| SerializeFields.DataclassHintsBelow | pipifax-io/src/pipifax_io/serializable.py:144-147 | the dataclass field types are declared types |
| SerializeFields.EntryHintsBelow | pipifax-io/src/pipifax_io/serializable.py:148-149 | the `__serialize_fields__` types are declared types |
| JsonSerialization.GetArgsSmaller | pipifax-io/src/pipifax_io/pipifax_io/json_serialization.py:99-124 | every argument `get_args` reports is smaller than the hint, so `issubclass_json_type` terminates |
| JsonSerialization.WithoutNoneType | pipifax-io/src/pipifax_io/pipifax_io/json_serialization.py:144 | dropping `NoneType` keeps exactly the other members, in order, and shrinks the union when `NoneType` was there |
| JsonSerialization.DispatchedHint | pipifax-io/src/pipifax_io/pipifax_io/json_serialization.py:141-151 | the hint after the optional removal is no larger than the original |
| JsonSerialization.RecordFieldsSmaller | pipifax-io/src/pipifax_io/serializable.py:156-174 | the selected field types are smaller than the record hint |
| JsonSerialization.OpenLoop | pipifax-io/src/pipifax_io/pipifax_io/json_serialization.py:179-181 | two literal lines at the current indent, then one level in; constants and counter unchanged |
| JsonSerialization.DeserJsonMappingOpen | pipifax-io/src/pipifax_io/pipifax_io/json_serialization.py:280-287 | the class constant and two fresh names, `out` bound to an empty instance, the items loop, one level in |
| JsonSerialization.DeserJsonCollectionOpen | pipifax-io/src/pipifax_io/pipifax_io/json_serialization.py:319-326 | the class constant, a fresh element name, `out` bound to `[]`, the element loop, one level in |
| JsonSerialization.ImportNamesAreNotVars | pipifax-io/src/pipifax_io/pipifax_io/json_serialization.py:219-222 | `base64` and `datetime` are not counter names, so importing them never clashes with a variable |
| JsonSerialization.SerJsonStep | pipifax-io/src/pipifax_io/pipifax_io/json_serialization.py:129-243 | `_compile_json_serializer` is a build step: it only appends inside its block, keeps every constant, and a completed compile is back at its starting indent |
| JsonSerialization.SerJsonClassStep | pipifax-io/src/pipifax_io/pipifax_io/json_serialization.py:156-243 | the serializer's class cases are a build step |
| JsonSerialization.SerJsonOtherStep | pipifax-io/src/pipifax_io/pipifax_io/json_serialization.py:219-243 | the `bytes`, `datetime`, hook and error cases are a build step |
| JsonSerialization.SerJsonMappingCaseStep | pipifax-io/src/pipifax_io/pipifax_io/json_serialization.py:166-186 | the serializer's mapping case is a build step |
| JsonSerialization.SerJsonStrMappingStep | pipifax-io/src/pipifax_io/pipifax_io/json_serialization.py:168-175 | the `str`-keyed mapping loop is a build step |
| JsonSerialization.SerJsonMappingStep | pipifax-io/src/pipifax_io/pipifax_io/json_serialization.py:176-186 | the general mapping loop is a build step |
| JsonSerialization.SerJsonTupleElemsStep | pipifax-io/src/pipifax_io/pipifax_io/json_serialization.py:189-197 | the fixed-tuple element loop is a build step |
| JsonSerialization.SerJsonCollectionStep | pipifax-io/src/pipifax_io/pipifax_io/json_serialization.py:198-217 | the sequence case is a build step |
| JsonSerialization.DeserJsonStep | pipifax-io/src/pipifax_io/pipifax_io/json_serialization.py:246-359 | `_compile_json_deserializer` is a build step |
| JsonSerialization.DeserJsonClassStep | pipifax-io/src/pipifax_io/pipifax_io/json_serialization.py:271-359 | the deserializer's class cases are a build step |
| JsonSerialization.DeserJsonOtherStep | pipifax-io/src/pipifax_io/pipifax_io/json_serialization.py:333-359 | the deserializer's `bytes`, `datetime`, hook and error cases are a build step |
| JsonSerialization.DeserJsonMappingOpenStep | pipifax-io/src/pipifax_io/pipifax_io/json_serialization.py:280-287 | opening the mapping loop is a build step one level in |
| JsonSerialization.DeserJsonMappingStep | pipifax-io/src/pipifax_io/pipifax_io/json_serialization.py:275-292 | the deserializer's mapping case is a build step |
| JsonSerialization.DeserJsonTupleElemsStep | pipifax-io/src/pipifax_io/pipifax_io/json_serialization.py:299-305 | the deserializer's fixed-tuple element loop is a build step |
| JsonSerialization.DeserJsonCollectionOpenStep | pipifax-io/src/pipifax_io/pipifax_io/json_serialization.py:319-326 | opening the sequence loop is a build step one level in |
| JsonSerialization.DeserJsonCollectionStep | pipifax-io/src/pipifax_io/pipifax_io/json_serialization.py:310-331 | the deserializer's sequence case is a build step |
| JsonSerialization.CloseAssignBlock | pipifax-io/src/pipifax_io/pipifax_io/json_serialization.py:215-216 | a loop body closed by a store and the dedent is a build step |
| JsonSerialization.OpenLoopStep | pipifax-io/src/pipifax_io/pipifax_io/json_serialization.py:179-181 | opening a loop is a build step |
| JsonSerialization.OneBodyLoop | pipifax-io/src/pipifax_io/pipifax_io/json_serialization.py:169-174 | a loop whose body is one compile, closed by a store and the dedent, is a build step |
| JsonSerialization.TwoBodyLoop | pipifax-io/src/pipifax_io/pipifax_io/json_serialization.py:179-185 | a loop whose body is two compiles, closed by a store and the dedent, is a build step |
| JsonSerialization.AppendLoop | pipifax-io/src/pipifax_io/pipifax_io/json_serialization.py:324-330 | a loop whose body is a compile and the append, followed by the conversion, is a build step |
| JsonSerialization.ImportThenAssign | pipifax-io/src/pipifax_io/pipifax_io/json_serialization.py:219-222 | an import followed by one assignment is a build step |
| JsonSerialization.StepAfter | pipifax-io/src/pipifax_io/pipifax_io/json_serialization.py:141-154 | a change at the same indent followed by a build step is a build step |
| JsonSerialization.RecordSerStep | pipifax-io/src/pipifax_io/serializable.py:156-174 | the hook serializer is a build step |
| JsonSerialization.RecordSerFieldsStep | pipifax-io/src/pipifax_io/serializable.py:166-174 | its field loop is a build step |
| JsonSerialization.RecordDeserStep | pipifax-io/src/pipifax_io/serializable.py:176-198 | the hook deserializer is a build step |
| JsonSerialization.RecordDeserOpenStep | pipifax-io/src/pipifax_io/serializable.py:183-188 | its opening is a build step at the same indent |
| JsonSerialization.RecordDeserFieldsStep | pipifax-io/src/pipifax_io/serializable.py:190-198 | its field loop and closing are a build step |
| JsonProperties.AllJsonTypesEvery | pipifax-io/src/pipifax_io/pipifax_io/json_serialization.py:99-124 | `all(...)` over the arguments is `True` exactly when every one of them is native |
| JsonProperties.BareClassNative | pipifax-io/src/pipifax_io/pipifax_io/json_serialization.py:91-97 | a bare class is native exactly when it is `str`, `int`, `float`, `bool` or `NoneType` (never a subclass of `str`, never `bytes`); a collection with an empty argument list is not native |
| JsonProperties.UnionNative | pipifax-io/src/pipifax_io/pipifax_io/json_serialization.py:99-100 | a union is native exactly when every member is (a `None` member counting as `NoneType`) |
| JsonProperties.MappingNative | pipifax-io/src/pipifax_io/pipifax_io/json_serialization.py:102-107 | a mapping is native exactly when it has two arguments, the key is `str` itself and the value is native |
| JsonProperties.HomogeneousTupleNative | pipifax-io/src/pipifax_io/pipifax_io/json_serialization.py:113-116 | `tuple[T, ...]` answers what `T` answers |
| JsonProperties.FixedTupleNative | pipifax-io/src/pipifax_io/pipifax_io/json_serialization.py:118-119 | a fixed tuple is native exactly when all its elements are |
| JsonProperties.CollectionNative | pipifax-io/src/pipifax_io/pipifax_io/json_serialization.py:109-124 | any other collection is native exactly when it has one argument and that argument is native |
| JsonProperties.NoneOnlyUnionNative | pipifax-io/src/pipifax_io/pipifax_io/json_serialization.py:99-100 | a union whose members are all `None` is native |
| JsonProperties.NativeIsOneAssignment | pipifax-io/src/pipifax_io/pipifax_io/json_serialization.py:137-139 | for a native hint both compilers emit the single assignment `out = in` (commented out when the names are equal) and change nothing else |
| JsonProperties.AllJsonTypesOfOne | pipifax-io/src/pipifax_io/pipifax_io/json_serialization.py:99-100 | over members that are all `X` or `NoneType`, `all(...)` answers what `X` answers |
| JsonProperties.OptionalCompilesAsMember | pipifax-io/src/pipifax_io/pipifax_io/json_serialization.py:141-151 | `X \| None` is compiled exactly as `X` is, by both compilers |
| JsonProperties.OtherUnionsRejected | pipifax-io/src/pipifax_io/pipifax_io/json_serialization.py:141-154 | any other non-native union is rejected, with `SerializationError` and `DeserializationError` |
| JsonProperties.UnpackTwoCases | pipifax-io/src/pipifax_io/pipifax_io/json_serialization.py:166 | `k, v = get_vars()` fails to unpack unless the default count is two; the counter has moved either way |
| JsonProperties.RecordUsesHooks | pipifax-io/src/pipifax_io/pipifax_io/json_serialization.py:228-230 | a `SimpleSerializable` class is compiled by its own hooks, with the same names and builder |
| JsonProperties.SelfSerializationUsesHooks | pipifax-io/src/pipifax_io/serializable.py:60-65 | `serialize_json`/`deserialize_json` compile for the object's own class, so their code is what the hooks emit into a fresh builder from `inp` to `out` |
| JsonProperties.MappingArityRejected | pipifax-io/src/pipifax_io/pipifax_io/json_serialization.py:160-164 | a mapping without exactly two type arguments is rejected with `DeserializationError` by both compilers, before anything is emitted |
| JsonProperties.MappingNeedsTwoDefaultNames | pipifax-io/src/pipifax_io/pipifax_io/json_serialization.py:166 | unless `get_vars()` yields two names by default, a non-native mapping raises the unpacking error, after the counter has moved |
| JsonProperties.StrKeyedValuesCopied | pipifax-io/src/pipifax_io/pipifax_io/json_serialization.py:168-175 | a `str`-keyed mapping copies the input and recompiles each value with the KEY type, `str`: the values are stored back unconverted, whatever the value type |
| JsonProperties.StrMappingIsCopy | pipifax-io/src/pipifax_io/pipifax_io/json_serialization.py:168-175 | with `str` as the compiled type the loop is the copy, the header, the commented-out `v = v`, the store and the placeholder |
| JsonProperties.FixedTupleSerializerIgnoresInput | pipifax-io/src/pipifax_io/pipifax_io/json_serialization.py:189-197 | the fixed-tuple serializer reads every element from `out[i]`, so its code does not depend on the input name |
| JsonProperties.BytesBranchesAgree | pipifax-io/src/pipifax_io/pipifax_io/json_serialization.py:219-222 | where the `bytes` branches run, the serializer emits the same base64 decoding as the deserializer |
| JsonProperties.BareBytesRaisesIndexError | pipifax-io/src/pipifax_io/pipifax_io/json_serialization.py:198-200 | `bytes` is a Collection, so a bare `bytes` hint takes the sequence case and raises `IndexError` in both compilers; the `bytes` branches are never reached |
| JsonProperties.IncreasingNamesDistinct | pipifax-io/src/pipifax_io/code_generator.py:68-75 | names taken at increasing counter values are pairwise distinct |
| JsonProperties.NativeElement | pipifax-io/src/pipifax_io/pipifax_io/json_serialization.py:192-194 | a native element compiles to exactly its read from `src[k]` |
| JsonProperties.SerJsonTupleElemsShape | pipifax-io/src/pipifax_io/pipifax_io/json_serialization.py:190-196 | from element `k` on, the loop takes one fresh name per element, reads each native element from `out[i]`, and binds `out` to the tuple of the names last |
| JsonProperties.DeserJsonTupleElemsShape | pipifax-io/src/pipifax_io/pipifax_io/json_serialization.py:299-305 | from element `k` on, the deserializer reads each native element from `in[i]` into a fresh name, and binds `out` to their tuple last |
| JsonProperties.FixedTupleSerializerShape | pipifax-io/src/pipifax_io/pipifax_io/json_serialization.py:189-197 | a compiled fixed tuple takes one fresh name per element in order, reads each native element `i` from `out[i]`, and ends by binding `out` to the tuple of those names |
| JsonProperties.FixedTupleDeserializerShape | pipifax-io/src/pipifax_io/pipifax_io/json_serialization.py:294-309 | the deserializer's fixed tuple reads each native element `i` from `in[i]` into a fresh name, in order, and binds `out` to their tuple last |
| JsonProperties.RecordSerFieldsShape | pipifax-io/src/pipifax_io/serializable.py:166-174 | from field `k` on, each field is bound to a fresh name from `in.field`, in order, and `out` is bound to the tuple of the names last |
| JsonProperties.RecordSerShape | pipifax-io/src/pipifax_io/serializable.py:156-174 | the hook serializer binds each selected field, in declaration order, to a fresh name from the attribute of that name, and ends by binding `out` to their tuple: a record is serialized as the tuple of its selected fields |
| JsonProperties.DeserFieldLinesOne | pipifax-io/src/pipifax_io/serializable.py:190-194 | one field: its read from `in[k]` when native, then `object.__setattr__(obj, name, v)` |
| JsonProperties.DeserFieldFacts | pipifax-io/src/pipifax_io/serializable.py:190-194 | one field of the loop is a step forward that reads and sets that field |
| JsonProperties.RecordDeserFieldsShape | pipifax-io/src/pipifax_io/serializable.py:190-198 | from field `k` on, every field is set on the instance in order from `in[i]`, then `__deserialize_init__()` and the binding of `out` come last |
| JsonProperties.RecordDeserShape | pipifax-io/src/pipifax_io/serializable.py:176-198 | the hook deserializer registers the class as a new constant, binds a fresh name to `Class.__new__(Class)` first, sets every selected field in declaration order from its position in the input, and ends with `__deserialize_init__()` and the binding of `out` |
| JsonProperties.RecordDeserOpenShape | pipifax-io/src/pipifax_io/serializable.py:183-188 | the opening adds one new class constant and one line binding a fresh name to an empty instance |
| JsonProperties.CollectionCases | pipifax-io/src/pipifax_io/pipifax_io/json_serialization.py:198-217 | a collection that is neither native nor a fixed tuple raises `IndexError` with no arguments, `DeserializationError` unless one element type is left once `...` is dropped, and is otherwise compiled by the sequence case in both compilers |
| JsonProperties.StoreLoopShape | pipifax-io/src/pipifax_io/pipifax_io/json_serialization.py:209-216 | a loop closed by a store and the dedent leaves only its two opening lines at the outer indent; the store is the body's last line |
| JsonProperties.AppendLoopShape | pipifax-io/src/pipifax_io/pipifax_io/json_serialization.py:319-331 | a loop closed by the append and followed by the conversion leaves the two opening lines and the conversion at the outer indent |
| JsonProperties.SerJsonCollectionShape | pipifax-io/src/pipifax_io/pipifax_io/json_serialization.py:198-217 | the sequence case binds `out` to a list copy of the input and walks it with `enumerate`; at its indent nothing else; the body ends with `out[i] = v` |
| JsonProperties.DeserJsonCollectionOpenShape | pipifax-io/src/pipifax_io/pipifax_io/json_serialization.py:319-326 | the opening registers a new class constant and emits `out = []` and the loop header |
| JsonProperties.DeserJsonCollectionShape | pipifax-io/src/pipifax_io/pipifax_io/json_serialization.py:310-331 | the deserializer's sequence case registers the class as a new constant, binds `out = []`, appends each element as the body's last line, and converts the list to the class after the loop; exactly these three statements at its indent |
| JsonProperties.DeserJsonCollectionBody | pipifax-io/src/pipifax_io/pipifax_io/json_serialization.py:310-331 | a completed sequence case is its opened loop, a body that is a build step, the append and the conversion |
| JsonProperties.MappingCases | pipifax-io/src/pipifax_io/pipifax_io/json_serialization.py:160-186 | a non-native two-argument mapping: the deserializer takes its mapping case; the serializer (given two default names) raises `TypeError` for a key type that is not a class and takes the general loop for a non-`str` key class |
| JsonProperties.SerJsonMappingShape | pipifax-io/src/pipifax_io/pipifax_io/json_serialization.py:176-186 | the general mapping loop binds `out = {}` and walks the items; nothing else at its indent; the body ends with `out[k] = v` |
| JsonProperties.SerJsonMappingBody | pipifax-io/src/pipifax_io/pipifax_io/json_serialization.py:176-186 | a completed general mapping loop is its opening, a body that is a build step, the store and the dedent |
| JsonProperties.DeserJsonMappingOpenShape | pipifax-io/src/pipifax_io/pipifax_io/json_serialization.py:280-287 | the opening registers a new class constant and emits the empty instance and the items loop header |
| JsonProperties.DeserJsonMappingShape | pipifax-io/src/pipifax_io/pipifax_io/json_serialization.py:275-292 | the deserializer's mapping case registers the class as a new constant, binds `out` to an empty instance and walks the items; nothing else at its indent; the body ends with `out[k] = v` |
| JsonProperties.DeserJsonMappingBody | pipifax-io/src/pipifax_io/pipifax_io/json_serialization.py:275-292 | a completed deserializer mapping case is its opening, a body that is a build step, the store and the dedent |
| JsonCodegen.EmitSerializer | pipifax-io/src/pipifax_io/pipifax_io/json_serialization.py:129-243 | raises exactly the error `SerJson` gives and leaves the builder in the state it gives |
| JsonCodegen.EmitSerializerClass | pipifax-io/src/pipifax_io/pipifax_io/json_serialization.py:156-243 | exactly `SerJsonClass` |
| JsonCodegen.EmitSerializerOther | pipifax-io/src/pipifax_io/pipifax_io/json_serialization.py:219-243 | exactly `SerJsonOther` |
| JsonCodegen.EmitSerializerMapping | pipifax-io/src/pipifax_io/pipifax_io/json_serialization.py:166-186 | exactly the serializer's mapping case once the arity is checked |
| JsonCodegen.EmitSerializerStrMapping | pipifax-io/src/pipifax_io/pipifax_io/json_serialization.py:168-175 | exactly `SerJsonStrMapping` |
| JsonCodegen.EmitSerializerDict | pipifax-io/src/pipifax_io/pipifax_io/json_serialization.py:176-186 | exactly `SerJsonMapping` |
| JsonCodegen.EmitSerializerTuple | pipifax-io/src/pipifax_io/pipifax_io/json_serialization.py:189-197 | exactly `SerJsonTupleElems` from element 0 |
| JsonCodegen.EmitSerializerCollection | pipifax-io/src/pipifax_io/pipifax_io/json_serialization.py:198-217 | exactly `SerJsonCollection` |
| JsonCodegen.EmitRecordSerializer | pipifax-io/src/pipifax_io/serializable.py:156-174 | exactly `RecordSer` |
| JsonCodegen.EmitDeserializer | pipifax-io/src/pipifax_io/pipifax_io/json_serialization.py:246-359 | raises exactly the error `DeserJson` gives and leaves the builder in the state it gives |
| JsonCodegen.EmitDeserializerClass | pipifax-io/src/pipifax_io/pipifax_io/json_serialization.py:271-359 | exactly `DeserJsonClass` |
| JsonCodegen.EmitDeserializerOther | pipifax-io/src/pipifax_io/pipifax_io/json_serialization.py:333-359 | exactly `DeserJsonOther` |
| JsonCodegen.EmitDeserializerMapping | pipifax-io/src/pipifax_io/pipifax_io/json_serialization.py:275-292 | exactly `DeserJsonMapping` |
| JsonCodegen.EmitDeserializerTuple | pipifax-io/src/pipifax_io/pipifax_io/json_serialization.py:294-309 | exactly `DeserJsonTupleElems` from element 0 |
| JsonCodegen.EmitDeserializerCollection | pipifax-io/src/pipifax_io/pipifax_io/json_serialization.py:310-331 | exactly `DeserJsonCollection` |
| JsonCodegen.EmitRecordDeserializer | pipifax-io/src/pipifax_io/serializable.py:176-198 | exactly `RecordDeser` |
| JsonCodegen.OpenLoopIn | pipifax-io/src/pipifax_io/pipifax_io/json_serialization.py:179-181 | the two lines and the indent of `OpenLoop` |
| JsonCodegen.CloseLoopIn | pipifax-io/src/pipifax_io/pipifax_io/json_serialization.py:184-185 | the store, then the dedent |
| JsonCodegen.SerCollectionOpenIn | pipifax-io/src/pipifax_io/pipifax_io/json_serialization.py:209-213 | exactly `SerCollectionOpen` |
| JsonCodegen.DeserMappingOpenIn | pipifax-io/src/pipifax_io/pipifax_io/json_serialization.py:280-287 | exactly `DeserJsonMappingOpen` |
| JsonCodegen.DeserCollectionOpenIn | pipifax-io/src/pipifax_io/pipifax_io/json_serialization.py:319-326 | exactly `DeserJsonCollectionOpen` |
| JsonCodegen.DeserCollectionCloseIn | pipifax-io/src/pipifax_io/pipifax_io/json_serialization.py:328-330 | the append, the dedent and the conversion |
| JsonCodegen.ImportThenAssignIn | pipifax-io/src/pipifax_io/pipifax_io/json_serialization.py:219-222 | the import, then the assignment |
| JsonCodegen.RecordDeserOpenIn | pipifax-io/src/pipifax_io/serializable.py:183-188 | exactly `RecordDeserOpen` |
| JsonCodegen.RecordDeserCloseIn | pipifax-io/src/pipifax_io/serializable.py:196-198 | the `__deserialize_init__()` call, then the binding of `out` |
| JsonCodegen.UnpackTwoIn | pipifax-io/src/pipifax_io/pipifax_io/json_serialization.py:166 | exactly `UnpackTwo`: whether `get_vars()` unpacks into two names, and which |
| JsonCodegen.FieldCopyIn | pipifax-io/src/pipifax_io/serializable.py:167-170 | a fresh name bound to `in.name` |
| JsonCodegen.CompileSerializer | pipifax-io/src/pipifax_io/pipifax_io/json_serialization.py:362-375 | the entry point gives exactly `CompileJsonSerializer`: a fresh builder compiling from `inp` to `out` |
| JsonCodegen.CompileDeserializer | pipifax-io/src/pipifax_io/pipifax_io/json_serialization.py:378-391 | the entry point gives exactly `CompileJsonDeserializer` |

## Left out

- `CodeGenerator.compile` (code_generator.py:141-153) and the traceback
  helper (code_generator.py:25-58): they `exec` the rendered source and
  map errors back to its lines. The model stops at the rendered text
  (`CodeGenerator.ToStr`) and at the constants it would run with.
- `serialize_json` and `deserialize_json` (json_serialization.py:394-405),
  `JsonSerializable.serialize`/`deserialize` (serializable.py:15-36), and
  the blind serializer (json_serialization.py:59-87): they convert values
  at run time, by running generated code, by walking the value itself, or
  by encoding JSON text. Nothing generated is ever run in this model,
  so neither the values it produces nor whether it raises at run time are
  modelled.
- The pydantic branches (json_serialization.py:235-241, 353-357): the
  model takes pydantic as installed and no hint as a pydantic model, so
  both tests fail and the compilers go on to their final
  `SerializationError` or `DeserializationError`. The generated
  `model_dump`/`model_validate` calls for pydantic models are not
  modelled. Without pydantic, the import at json_serialization.py:10-13
  leaves the name unbound, and lines 235 and 353 raise `NameError`. That
  error is not modelled either.
- `JsonSerialization.SerJsonOther`: the final error it gives for a hint that reaches the pydantic test holds with pydantic installed; without it the source raises `NameError` there.
- `JsonSerialization.DeserJsonOther`: the final error it gives for a hint that reaches the pydantic test holds with pydantic installed; without it the source raises `NameError` there.
- `JsonCodegen.EmitSerializer`: the final error it gives for a hint that reaches the pydantic test holds with pydantic installed; without it the source raises `NameError` there.
- `JsonCodegen.EmitSerializerClass`: the final error it gives for a hint that reaches the pydantic test holds with pydantic installed; without it the source raises `NameError` there.
- `JsonCodegen.EmitSerializerOther`: the final error it gives for a hint that reaches the pydantic test holds with pydantic installed; without it the source raises `NameError` there.
- `JsonCodegen.EmitDeserializer`: the final error it gives for a hint that reaches the pydantic test holds with pydantic installed; without it the source raises `NameError` there.
- `JsonCodegen.EmitDeserializerClass`: the final error it gives for a hint that reaches the pydantic test holds with pydantic installed; without it the source raises `NameError` there.
- `JsonCodegen.EmitDeserializerOther`: the final error it gives for a hint that reaches the pydantic test holds with pydantic installed; without it the source raises `NameError` there.
- `JsonCodegen.CompileSerializer`: the final error it gives for a hint that reaches the pydantic test holds with pydantic installed; without it the source raises `NameError` there.
- `JsonCodegen.CompileDeserializer`: the final error it gives for a hint that reaches the pydantic test holds with pydantic installed; without it the source raises `NameError` there.
- `JsonProperties.OtherUnionsRejected`: the final error it gives for a hint that reaches the pydantic test holds with pydantic installed; without it the source raises `NameError` there.
- `TypeSerializer.SerializerHooks`, `TypeSerializer.DeserializerHooks`:
  the abstract `scalar` and `tuple_` hooks are modelled as functions that
  return statements, which the generator adds at the current indent. A
  hook modelled this way cannot call `get_var`, `get_vars`, `get_const` or
  `ensure_import`, and cannot change the indent. The hook parts of
  `TypeSerializer.SerAnyStep`, `TypeSerializer.DeserAnyStep`,
  `TypeSerializer.SerFixedTupleShape`,
  `TypeSerializer.DeserFixedTupleShape` and the other build-step and shape
  lemmas of the generic generators hold for such hooks only. The JSON
  compilers are separate functions that do not go through these
  generators, and their builder calls are modelled in full.
- `TypeSerializer.SerAnyStep`: what it states of the `scalar` and `tuple_` hooks holds for hooks that only return statements, as above.
- `TypeSerializer.DeserAnyStep`: what it states of the `scalar` and `tuple_` hooks holds for hooks that only return statements, as above.
- `TypeSerializer.SerFixedTupleShape`: what it states of the `scalar` and `tuple_` hooks holds for hooks that only return statements, as above.
- `TypeSerializer.DeserFixedTupleShape`: what it states of the `scalar` and `tuple_` hooks holds for hooks that only return statements, as above.
- `JsonSerialization.NameRepr`: field names are taken to be identifiers,
  which `repr` quotes with `'`. A `__serialize_fields__` key holding a `'`
  would be quoted with `"` or escaped, and the model does not follow that.
- The default `__deserialize_init__` and `__easy_serializable_migrate__`
  (serializable.py:130-135): they act only when generated code runs.
- `DataStore` and `FileSystemStore` (serializable.py:201-222): file I/O.
- Reflection: `typing.get_origin`, `typing.get_args`, `issubclass`,
  `hasattr` and `dataclasses.fields` are read from the `TypeHint` and
  `Class` values. `pipifax-runtime-generics` and
  `pipifax-lengthed-generator` are not part of this model.
- Error messages: each error is modelled by its kind only. Python's
  `TypeError` from `issubclass` on a special form is modelled, and so is
  `IndexError` from `args[-1]` on an empty tuple.
- `CodeGen.CodeGenerator.Blocks`: the method's loop produces the list of
  blocks from the statement log. The model does not alias the statement
  lists inside blocks the way the Python lists are shared.
- `JsonProperties.FixedTupleSerializerShape`,
  `JsonProperties.FixedTupleDeserializerShape`: the read of an element
  from `out[i]` or `in[i]` is stated only for native element types. For
  other element types the lemmas state that the element is compiled into
  its fresh name in order, but not which lines that compile emits.
- `JsonProperties.RecordDeserShape`: as above, a field's read from
  `in[i]` is stated only for native field types. The `setattr` of every
  field, in order, is stated for all fields.
- `JsonProperties.RecordSerShape`: the binding `name = in.field` is
  stated for every field. The code converting a field value after that
  binding is stated only to be a build step.
- `TypeSerializer.SerUnionHeaders`, `TypeSerializer.DeserUnionShape`:
  they state what each union branch emits at the union's own indent. What
  a branch body emits is stated only to be a build step.
- Integer widths: the name counter and the indent are unbounded, as
  Python's integers are.
