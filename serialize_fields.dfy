/** `SimpleSerializable._get_serialize_fields` (serializable.py:137-154,
    the same in both copies of the file): the fields a record is written
    with. A Python dict is modelled as a sequence of entries in insertion
    order with pairwise distinct names. */
module SerializeFields {
  import opened Errors
  import opened TypeHints

  function Names(d: seq<Entry>): (ns: seq<string>)
    ensures |ns| == |d|
  {
    seq(|d|, i requires 0 <= i < |d| => d[i].name)
  }

  ghost predicate UniqueNames(d: seq<Entry>)
  {
    forall i, j :: 0 <= i < j < |d| ==> d[i].name != d[j].name
  }

  /** `d.get(k)` */
  function Get(d: seq<Entry>, k: string): Option<TypeHint>
  {
    if |d| == 0 then None
    else if d[0].name == k then Some(d[0].hint)
    else Get(d[1..], k)
  }

  /** `d[k] = v`: the value is replaced in place, or the key is added at the
      end. */
  function Put(d: seq<Entry>, k: string, v: TypeHint): seq<Entry>
  {
    if |d| == 0 then [Entry(k, v)]
    else if d[0].name == k then [Entry(k, v)] + d[1..]
    else [d[0]] + Put(d[1..], k, v)
  }

  /** The items of `es` stored one after the other: a dict comprehension
      over `es`, or `d | dict(es)`. */
  function PutAll(d: seq<Entry>, es: seq<Entry>): seq<Entry>
    decreases |es|
  {
    if |es| == 0 then d else PutAll(Put(d, es[0].name, es[0].hint), es[1..])
  }

  /** `d.pop(k, None)`, result discarded. */
  function Pop(d: seq<Entry>, k: string): seq<Entry>
  {
    Without(d, {k})
  }

  /** `d` without the keys in `ks`. */
  function Without(d: seq<Entry>, ks: set<string>): seq<Entry>
  {
    if |d| == 0 then []
    else if d[0].name in ks then Without(d[1..], ks)
    else [d[0]] + Without(d[1..], ks)
  }

  /** The value of the last item named `k` in `es`: the one a dict built
      from `es` keeps. */
  function LastValue(es: seq<Entry>, k: string): Option<TypeHint>
    decreases |es|
  {
    if |es| == 0 then None
    else if es[|es| - 1].name == k then Some(es[|es| - 1].hint)
    else LastValue(es[..|es| - 1], k)
  }

  /** `field.name: field.type for field in dataclass_fields if field is not
      a ClassVar` */
  function DataclassEntries(fs: seq<Field>): seq<Entry>
  {
    if |fs| == 0 then []
    else if fs[0].isClassVar then DataclassEntries(fs[1..])
    else [Entry(fs[0].name, fs[0].hint)] + DataclassEntries(fs[1..])
  }

  /** The dict before the exclusions: the dataclass fields merged with
      `__serialize_fields__`. */
  function Merged(decl: RecordDecl): seq<Entry>
  {
    PutAll(PutAll([], DataclassEntries(decl.fields)), decl.serializeFields)
  }

  /** What `_get_serialize_fields` returns. */
  function SelectFields(decl: RecordDecl): seq<Entry>
  {
    Without(Merged(decl), decl.excludeFields)
  }

  // ---------------------------------------------------------------------

  lemma {:induction false} PutGet(d: seq<Entry>, k: string, v: TypeHint, k': string)
    ensures Get(Put(d, k, v), k') == if k' == k then Some(v) else Get(d, k')
    decreases |d|
  {
    if |d| > 0 && d[0].name != k {
      PutGet(d[1..], k, v, k');
    }
  }

  lemma {:induction false} PutUnique(d: seq<Entry>, k: string, v: TypeHint)
    requires UniqueNames(d)
    ensures UniqueNames(Put(d, k, v))
    ensures forall i :: 0 <= i < |Put(d, k, v)| ==> Put(d, k, v)[i].name == k || Put(d, k, v)[i].name in Names(d)
    decreases |d|
  {
    assert forall i :: 0 <= i < |d| ==> Names(d)[i] == d[i].name;
    if |d| > 0 && d[0].name != k {
      PutUnique(d[1..], k, v);
      var r := Put(d[1..], k, v);
      forall i | 0 <= i < |r| && r[i].name != k
        ensures r[i].name != d[0].name && r[i].name in Names(d)
      {
        var j :| 0 <= j < |Names(d[1..])| && Names(d[1..])[j] == r[i].name;
        assert d[j + 1].name == r[i].name;
        assert Names(d)[j + 1] == r[i].name;
      }
      assert Names(d)[0] == d[0].name;
    }
  }

  lemma {:induction false} PutAllGet(d: seq<Entry>, es: seq<Entry>, k: string)
    ensures Get(PutAll(d, es), k) == if LastValue(es, k).Some? then LastValue(es, k) else Get(d, k)
    decreases |es|
  {
    if |es| > 0 {
      PutAllGet(Put(d, es[0].name, es[0].hint), es[1..], k);
      PutGet(d, es[0].name, es[0].hint, k);
      LastValueCons(es, k);
    }
  }

  /** The last value in `es` is the last value in its tail, or its head's. */
  lemma {:induction false} LastValueCons(es: seq<Entry>, k: string)
    requires |es| > 0
    ensures LastValue(es, k) ==
              if LastValue(es[1..], k).Some? then LastValue(es[1..], k)
              else if es[0].name == k then Some(es[0].hint) else None
    decreases |es|
  {
    if |es| > 1 && es[|es| - 1].name != k {
      assert es[..|es| - 1][1..] == es[1..][..|es[1..]| - 1];
      LastValueCons(es[..|es| - 1], k);
    }
  }

  lemma {:induction false} PutAllUnique(d: seq<Entry>, es: seq<Entry>)
    requires UniqueNames(d)
    ensures UniqueNames(PutAll(d, es))
    decreases |es|
  {
    if |es| > 0 {
      PutUnique(d, es[0].name, es[0].hint);
      PutAllUnique(Put(d, es[0].name, es[0].hint), es[1..]);
    }
  }

  lemma {:induction false} WithoutGet(d: seq<Entry>, ks: set<string>, k: string)
    ensures Get(Without(d, ks), k) == if k in ks then None else Get(d, k)
    decreases |d|
  {
    if |d| > 0 {
      WithoutGet(d[1..], ks, k);
    }
  }

  lemma {:induction false} WithoutUnique(d: seq<Entry>, ks: set<string>)
    requires UniqueNames(d)
    ensures UniqueNames(Without(d, ks))
    ensures forall i :: 0 <= i < |Without(d, ks)| ==> Without(d, ks)[i].name in Names(d)
    decreases |d|
  {
    if |d| > 0 {
      WithoutUnique(d[1..], ks);
      var r := Without(d[1..], ks);
      forall i | 0 <= i < |r| ensures r[i].name != d[0].name && r[i].name in Names(d) {
        var j :| 0 <= j < |Names(d[1..])| && Names(d[1..])[j] == r[i].name;
        assert d[j + 1].name == r[i].name;
        assert Names(d)[j + 1] == r[i].name;
      }
      assert Names(d)[0] == d[0].name;
    }
  }

  lemma {:induction false} WithoutNothing(d: seq<Entry>)
    ensures Without(d, {}) == d
    decreases |d|
  {
    if |d| > 0 {
      WithoutNothing(d[1..]);
    }
  }

  lemma {:induction false} WithoutWithout(d: seq<Entry>, ks: set<string>, k: string)
    ensures Pop(Without(d, ks), k) == Without(d, ks + {k})
    decreases |d|
  {
    if |d| > 0 {
      WithoutWithout(d[1..], ks, k);
    }
  }

  /** The selected fields form a dict (no name twice), and a name is
      selected exactly when it is not excluded and is either a non-ClassVar
      dataclass field or a key of `__serialize_fields__`; its type is the
      `__serialize_fields__` one when there is one, the dataclass one
      otherwise. */
  lemma SelectFieldsSpec(decl: RecordDecl, k: string)
    ensures UniqueNames(SelectFields(decl))
    ensures Get(SelectFields(decl), k) ==
              if k in decl.excludeFields then None
              else if LastValue(decl.serializeFields, k).Some? then LastValue(decl.serializeFields, k)
              else LastValue(DataclassEntries(decl.fields), k)
  {
    var d0 := PutAll([], DataclassEntries(decl.fields));
    PutAllUnique([], DataclassEntries(decl.fields));
    PutAllUnique(d0, decl.serializeFields);
    WithoutUnique(Merged(decl), decl.excludeFields);
    WithoutGet(Merged(decl), decl.excludeFields, k);
    PutAllGet(d0, decl.serializeFields, k);
    PutAllGet([], DataclassEntries(decl.fields), k);
  }

  /** A field whose name is excluded is never selected, whatever declared
      it. */
  lemma ExcludedNeverSelected(decl: RecordDecl, i: nat)
    requires i < |SelectFields(decl)|
    ensures SelectFields(decl)[i].name !in decl.excludeFields
  {
    WithoutNames(Merged(decl), decl.excludeFields, i);
  }

  lemma {:induction false} WithoutNames(d: seq<Entry>, ks: set<string>, i: nat)
    requires i < |Without(d, ks)|
    ensures Without(d, ks)[i].name !in ks
    decreases |d|
  {
    if d[0].name in ks {
      WithoutNames(d[1..], ks, i);
    } else if i > 0 {
      WithoutNames(d[1..], ks, i - 1);
    }
  }

  // ---------------------------------------------------------------------
  // Every selected type is one the record declares, so it is smaller than
  // the record.

  ghost predicate HintsBelow(d: seq<Entry>, bound: nat)
  {
    forall i :: 0 <= i < |d| ==> Size(d[i].hint) < bound
  }

  lemma {:induction false} PutHintsBelow(d: seq<Entry>, k: string, v: TypeHint, bound: nat)
    requires HintsBelow(d, bound) && Size(v) < bound
    ensures HintsBelow(Put(d, k, v), bound)
    decreases |d|
  {
    if |d| > 0 && d[0].name != k {
      PutHintsBelow(d[1..], k, v, bound);
    }
  }

  lemma {:induction false} PutAllHintsBelow(d: seq<Entry>, es: seq<Entry>, bound: nat)
    requires HintsBelow(d, bound) && HintsBelow(es, bound)
    ensures HintsBelow(PutAll(d, es), bound)
    decreases |es|
  {
    if |es| > 0 {
      PutHintsBelow(d, es[0].name, es[0].hint, bound);
      PutAllHintsBelow(Put(d, es[0].name, es[0].hint), es[1..], bound);
    }
  }

  lemma {:induction false} WithoutHintsBelow(d: seq<Entry>, ks: set<string>, bound: nat)
    requires HintsBelow(d, bound)
    ensures HintsBelow(Without(d, ks), bound)
    decreases |d|
  {
    if |d| > 0 {
      WithoutHintsBelow(d[1..], ks, bound);
    }
  }

  lemma {:induction false} DataclassHintsBelow(fs: seq<Field>, bound: nat)
    requires FieldSizes(fs) < bound
    ensures HintsBelow(DataclassEntries(fs), bound)
    decreases |fs|
  {
    if |fs| > 0 {
      DataclassHintsBelow(fs[1..], bound);
    }
  }

  lemma EntryHintsBelow(es: seq<Entry>, bound: nat)
    requires EntrySizes(es) < bound
    ensures HintsBelow(es, bound)
  {
    forall i | 0 <= i < |es| ensures Size(es[i].hint) < bound {
      EntrySizesBound(es, i);
    }
  }

  /** Each selected field's type is smaller than the record's declaration. */
  lemma SelectedHintsSmaller(decl: RecordDecl)
    ensures HintsBelow(SelectFields(decl), DeclSize(decl))
  {
    DataclassHintsBelow(decl.fields, DeclSize(decl));
    EntryHintsBelow(decl.serializeFields, DeclSize(decl));
    PutAllHintsBelow([], DataclassEntries(decl.fields), DeclSize(decl));
    PutAllHintsBelow(PutAll([], DataclassEntries(decl.fields)), decl.serializeFields, DeclSize(decl));
    WithoutHintsBelow(Merged(decl), decl.excludeFields, DeclSize(decl));
  }

  /** `_get_serialize_fields`: the merge is one expression, then every
      excluded name is popped, in whatever order the set yields them. */
  method GetSerializeFields(decl: RecordDecl) returns (out: seq<Entry>)
    ensures out == SelectFields(decl)
  {
    out := Merged(decl);
    var pending := decl.excludeFields;
    WithoutNothing(out);
    assert decl.excludeFields - pending == {};
    while pending != {}
      invariant pending <= decl.excludeFields
      invariant out == Without(Merged(decl), decl.excludeFields - pending)
      decreases pending
    {
      var f :| f in pending;
      ghost var popped := decl.excludeFields - pending;
      WithoutWithout(Merged(decl), popped, f);
      out := Pop(out, f);
      pending := pending - {f};
      assert decl.excludeFields - pending == popped + {f};
    }
    assert decl.excludeFields - pending == decl.excludeFields;
  }
}
