/** Which valid values the generated TypeScript guards reject, for whole schemas. On the definitions that the
    daemon's contract consists of, a valid value is rejected for two reasons only: a null under a union
    with null, and a missing property that is read from `Object.prototype`. */
module GuardCompleteness {
  import opened Wrappers
  import opened Json
  import opened ClientContracts

  // ---------- fragments ----------

  const KINDS := {"string", "boolean", "integer", "number", "array", "object"}

  /** The check for kind `first` lets every value of kind `kind` through; a kind that JSON Schema does
      not know has no values. */
  predicate Covers(first: string, kind: string) {
    first == kind || (first == "number" && kind == "integer") || first !in KINDS || kind !in KINDS
  }

  /** The guard that checks these kinds lets the values of `kind` through, as far as their kind goes. */
  predicate Takes(types: seq<string>, kind: string) {
    var effective := Effective(types);
    || effective == []
    || (if kind == "null" then "null" in types || effective[0] !in KINDS else Covers(effective[0], kind))
  }

  /** The fragments whose own checks admit every valid value: the checked kind covers the other kinds, and an
      object fragment with a schema for `additionalProperties` declares no properties of its own. */
  ghost predicate Supported(definition: Schema)
    decreases definition
  {
    definition.Always? || RefName(definition.ref).Some? ||
    var effective := Effective(TypeNames(definition));
    effective == [] ||
    (&& (forall kind :: kind in effective ==> Covers(effective[0], kind))
     && (effective[0] == "array" && definition.items.Some? ==> Supported(definition.items.value))
     && (effective[0] == "object" && definition.additional.Some? && definition.additional.value.Keywords? ==>
           Properties(definition) == [] && Supported(definition.additional.value)))
  }

  lemma {:induction false} EffectiveKinds(types: seq<string>, kind: string)
    ensures kind in Effective(types) <==> kind in types && kind != "null"
  {
    if types != [] {
      EffectiveKinds(types[1..], kind);
      assert types == [types[0]] + types[1..];
    }
  }

  // ---------- unions with null ----------

  /** The branch that a two-branch union with null is collapsed to. */
  function KeptBranch(s: Schema): Option<Schema>
    requires s.Keywords?
  {
    if NullableBranch(s.anyOf).Some? then NullableBranch(s.anyOf) else NullableBranch(s.oneOf)
  }

  /** The union has no sibling keyword that the guard reads. */
  predicate NothingCheckedBeside(s: Schema)
    requires s.Keywords?
  {
    s.ref.None? && s.types.None? && s.items.None? && s.additional.None?
  }

  /** What the guard of a property is built from. */
  function FragmentOf(entry: Schema): (f: Schema)
    ensures f.Keywords?
  {
    var e := Normalize(entry);
    if KeptBranch(e).Some? then KeptBranch(e).value else e
  }

  predicate IsNullableUnion(entry: Schema) {
    KeptBranch(Normalize(entry)).Some?
  }

  /** The fragment's guard lets null through. */
  predicate AdmitsNull(definition: Schema)
    requires definition.Keywords?
  {
    RefName(definition.ref).None? && Takes(TypeNames(definition), "null")
  }

  /** A property that is missing is read from `Object.prototype`; this one passes its guard all the same. */
  predicate MissingAdmitted(name: string, fragment: Schema)
    requires fragment.Keywords?
  {
    || name !in OBJECT_PROTOTYPE
    || (RefName(fragment.ref).None?
        && (Effective(TypeNames(fragment)) == [] || Effective(TypeNames(fragment))[0] !in KINDS))
  }

  lemma MergedShape(accepts: (string, Js) -> bool, beside: Schema, inner: Schema, v: Js)
    requires beside.Keywords? && inner.Keywords? && NothingCheckedBeside(beside)
    ensures Shape(accepts, Merge(beside, inner), v) == Shape(accepts, inner, v)
  {
  }

  lemma MergedCallable(names: set<string>, beside: Schema, inner: Schema)
    requires beside.Keywords? && inner.Keywords? && NothingCheckedBeside(beside)
    ensures Callable(names, Merge(beside, inner)) == Callable(names, inner)
  {
  }

  predicate RegularUnion(entry: Schema) {
    IsNullableUnion(entry) ==> NothingCheckedBeside(Normalize(entry))
  }

  /** The guard of a property checks the shape of its fragment. */
  lemma FieldShape(accepts: (string, Js) -> bool, entry: Schema, v: Js)
    requires RegularUnion(entry)
    ensures Shape(accepts, FieldSpec(entry), v) == Shape(accepts, FragmentOf(entry), v)
  {
    var e := Normalize(entry);
    if KeptBranch(e).Some? {
      var beside := if NullableBranch(e.anyOf).Some? then e.(anyOf := []) else e.(oneOf := []);
      MergedShape(accepts, beside, KeptBranch(e).value, v);
    }
  }

  lemma FieldCallable(names: set<string>, entry: Schema)
    requires RegularUnion(entry)
    ensures Callable(names, FieldSpec(entry)) == Callable(names, FragmentOf(entry))
  {
    var e := Normalize(entry);
    if KeptBranch(e).Some? {
      var beside := if NullableBranch(e.anyOf).Some? then e.(anyOf := []) else e.(oneOf := []);
      MergedCallable(names, beside, KeptBranch(e).value);
    }
  }

  lemma OtherBranch(defs: map<string, Schema>, options: seq<Schema>, v: Value, i: nat)
    requires NullableBranch(options).Some? && i < |options| && v != Null && ValidIn(defs, options[i], v, |defs|)
    ensures Valid(defs, NullableBranch(options).value, v)
  {
  }

  lemma BranchValid(defs: map<string, Schema>, s: Schema, v: Value)
    requires s.Keywords? && KeptBranch(s).Some? && Valid(defs, s, v) && v != Null
    ensures Valid(defs, KeptBranch(s).value, v)
  {
    if NullableBranch(s.anyOf).Some? {
      var i :| 0 <= i < |s.anyOf| && ValidIn(defs, s.anyOf[i], v, |defs|);
      OtherBranch(defs, s.anyOf, v, i);
    } else {
      var i :| 0 <= i < |s.oneOf| && ValidIn(defs, s.oneOf[i], v, |defs|);
      OtherBranch(defs, s.oneOf, v, i);
    }
  }

  /** A valid value of a property is valid for its fragment, save a null that a union allows. */
  lemma FragmentValid(defs: map<string, Schema>, entry: Schema, v: Value)
    requires Valid(defs, entry, v) && !(IsNullableUnion(entry) && v == Null)
    ensures Valid(defs, FragmentOf(entry), v)
  {
    if IsNullableUnion(entry) {
      BranchValid(defs, entry, v);
    }
  }

  // ---------- regular definitions ----------

  /** A property whose fragment is supported, possibly in a union with null. */
  ghost predicate RegularEntry(entry: Schema) {
    RegularUnion(entry) && Supported(FragmentOf(entry))
  }

  ghost predicate RegularEntries(s: Schema)
    requires s.Keywords?
  {
    forall i :: 0 <= i < |Properties(s)| ==> RegularEntry(Properties(s)[i].1)
  }

  predicate IsEnum(s: Schema)
    requires s.Keywords?
  {
    s.oneOf != [] || s.enumValues.Some?
  }

  /** String enums, string enums written as constants, and object definitions. */
  ghost predicate RegularDefinition(s: Schema) {
    && s.Keywords? && s.anyOf == []
    && (s.oneOf != [] ==> AllStringConstants(s.oneOf))
    && (!IsEnum(s) ==> RegularEntries(s))
  }

  ghost predicate RegularName(defs: map<string, Schema>, names: set<string>, name: string) {
    name in names ==>
      && name in Program(Gathered(defs)) && name in defs && RegularDefinition(defs[name])
      && FieldsCallable(names, NormalizeDefinition(defs[name]))
  }

  /** Emitted definitions that refer to each other only. */
  ghost predicate RegularSet(defs: map<string, Schema>, names: set<string>) {
    forall name :: RegularName(defs, names, name)
  }

  // ---------- the values that are spared ----------

  /** Nothing inside a value of the fragment gets it rejected; `spared` says so of referenced definitions. */
  ghost predicate SparedFragment(spared: (string, Value) -> bool, f: Schema, v: Value)
    decreases f
  {
    f.Always?
    || (if RefName(f.ref).Some? then spared(RefName(f.ref).value, v)
        else
          var effective := Effective(TypeNames(f));
          effective == []
          || (&& (effective[0] == "array" && v.Arr? && f.items.Some? ==>
                    forall x :: x in v.items ==> SparedFragment(spared, f.items.value, x))
              && (effective[0] == "object" && v.Obj? && f.additional.Some? && f.additional.value.Keywords? ==>
                    forall k :: k in v.fields ==> SparedFragment(spared, f.additional.value, v.fields[k]))))
  }

  /** A missing property must not be found on `Object.prototype`, and a null that a union allows must be
      admitted by the branch that is left of it. */
  ghost predicate SparedField(spared: (string, Value) -> bool, name: string, entry: Schema,
                              fields: map<string, Value>) {
    var f := FragmentOf(entry);
    if name !in fields then MissingAdmitted(name, f)
    else if IsNullableUnion(entry) && fields[name] == Null then AdmitsNull(f)
    else SparedFragment(spared, f, fields[name])
  }

  ghost predicate SparedDefinition(spared: (string, Value) -> bool, s: Schema, v: Value)
    requires s.Keywords?
  {
    IsEnum(s)
    || (v.Obj? && forall i :: 0 <= i < |Properties(s)| ==>
                    SparedField(spared, Properties(s)[i].0, Properties(s)[i].1, v.fields))
  }

  /** The same for a value of a definition, with `n` bounding the references followed. */
  ghost predicate SparedWithin(defs: map<string, Schema>, n: nat, name: string, v: Value)
    decreases n, 0
  {
    n > 0 && name in defs && defs[name].Keywords? && SparedDefinition(Sparer(defs, n - 1), defs[name], v)
  }

  ghost function Sparer(defs: map<string, Schema>, n: nat): (string, Value) -> bool
    decreases n, 1
  {
    (name, v) => SparedWithin(defs, n, name, v)
  }

  // ---------- exactly the spared values are accepted ----------

  ghost predicate ExactFor(defs: map<string, Schema>, names: set<string>, accepts: (string, Js) -> bool,
                           spared: (string, Value) -> bool, depth: nat, name: string, w: Value, chain: nat) {
    name in names && name in defs && Depth(w) < depth && ValidIn(defs, defs[name], w, chain) ==>
      (accepts(name, Plain(w)) <==> spared(name, w))
  }

  /** Of the valid values of these definitions, up to a depth, exactly the spared ones are accepted. */
  ghost predicate Exact(defs: map<string, Schema>, names: set<string>, accepts: (string, Js) -> bool,
                        spared: (string, Value) -> bool, depth: nat) {
    forall name, w, chain :: ExactFor(defs, names, accepts, spared, depth, name, w, chain)
  }

  /** No validator accepts null or an inherited function. */
  ghost predicate OnlyData(names: set<string>, accepts: (string, Js) -> bool) {
    forall name :: name in names ==> !accepts(name, Inherited) && !accepts(name, Plain(Null))
  }

  lemma EmittedTakesOnlyData(gathered: map<string, Schema>, name: string, n: nat)
    requires name in Program(gathered)
    ensures !AcceptsWithin(gathered, n, name, Inherited) && !AcceptsWithin(gathered, n, name, Plain(Null))
  {
  }

  lemma RegularTakeOnlyData(defs: map<string, Schema>, names: set<string>, n: nat)
    requires RegularSet(defs, names)
    ensures OnlyData(names, Accepter(Gathered(defs), n))
  {
    forall name | name in names
      ensures !AcceptsWithin(Gathered(defs), n, name, Inherited) && !AcceptsWithin(Gathered(defs), n, name, Plain(Null))
    {
      assert RegularName(defs, names, name);
      EmittedTakesOnlyData(Gathered(defs), name, n);
    }
  }

  lemma ScalarCovered(accepts: (string, Js) -> bool, first: string, kind: string, s: Schema, v: Value)
    requires s.Keywords? && Covers(first, kind) && HasType(kind, v) && kind != "null"
    requires first != "array" && first != "object"
    ensures ShapeOfKind(accepts, first, s, Plain(v))
  {
  }

  /** A valid value of a supported fragment has the shape that the guard checks exactly when it is spared. */
  lemma {:induction false} FragmentExact(defs: map<string, Schema>, names: set<string>, accepts: (string, Js) -> bool,
                                         spared: (string, Value) -> bool, f: Schema, v: Value, chain: nat, depth: nat)
    requires ValidIn(defs, f, v, chain) && Supported(f) && Callable(names, f)
    requires Depth(v) < depth && Exact(defs, names, accepts, spared, depth)
    ensures Shape(accepts, f, Plain(v)) <==> SparedFragment(spared, f, v)
    decreases f
  {
    if f.Keywords? && RefName(f.ref).Some? {
      assert ExactFor(defs, names, accepts, spared, depth, RefName(f.ref).value, v, chain - 1);
    } else if f.Keywords? && Effective(TypeNames(f)) != [] {
      var kind :| kind in TypeNames(f) && HasType(kind, v);
      EffectiveKinds(TypeNames(f), kind);
      if kind != "null" {
        KindExact(defs, names, accepts, spared, Effective(TypeNames(f))[0], kind, f, v, chain, depth);
      }
    }
  }

  lemma {:induction false} KindExact(defs: map<string, Schema>, names: set<string>, accepts: (string, Js) -> bool,
                                     spared: (string, Value) -> bool, first: string, kind: string, f: Schema,
                                     v: Value, chain: nat, depth: nat)
    requires f.Keywords? && RefName(f.ref).None? && Effective(TypeNames(f)) != [] && Effective(TypeNames(f))[0] == first
    requires ValidIn(defs, f, v, chain) && Supported(f) && Callable(names, f)
    requires Depth(v) < depth && Exact(defs, names, accepts, spared, depth)
    requires Covers(first, kind) && HasType(kind, v) && kind != "null"
    ensures ShapeOfKind(accepts, first, f, Plain(v)) <==> SparedFragment(spared, f, v)
    decreases f, 0
  {
    if first == "array" {
      if f.items.Some? {
        forall x | x in v.items
          ensures Shape(accepts, f.items.value, Plain(x)) <==> SparedFragment(spared, f.items.value, x)
        {
          var i :| 0 <= i < |v.items| && v.items[i] == x;
          FragmentExact(defs, names, accepts, spared, f.items.value, x, |defs|, depth);
        }
      }
    } else if first == "object" {
      if f.additional.Some? && f.additional.value.Keywords? {
        var a := f.additional.value;
        forall k | k in v.fields
          ensures Shape(accepts, a, Plain(v.fields[k])) <==> SparedFragment(spared, a, v.fields[k])
        {
          assert !Declares(f, k);
          FragmentExact(defs, names, accepts, spared, a, v.fields[k], |defs|, depth);
        }
      }
    } else {
      ScalarCovered(accepts, first, kind, f, v);
    }
  }

  lemma InheritedShape(names: set<string>, accepts: (string, Js) -> bool, f: Schema)
    requires f.Keywords? && Callable(names, f) && OnlyData(names, accepts)
    ensures Shape(accepts, f, Inherited)
            <==> RefName(f.ref).None? && (Effective(TypeNames(f)) == [] || Effective(TypeNames(f))[0] !in KINDS)
  {
  }

  lemma NullShape(names: set<string>, accepts: (string, Js) -> bool, f: Schema)
    requires f.Keywords? && Callable(names, f) && OnlyData(names, accepts)
    ensures Shape(accepts, f, Plain(Null)) <==> AdmitsNull(f)
  {
  }

  lemma PresentFieldExact(defs: map<string, Schema>, names: set<string>, accepts: (string, Js) -> bool,
                          spared: (string, Value) -> bool, entry: Schema, w: Value, depth: nat)
    requires Valid(defs, entry, w) && RegularEntry(entry) && Callable(names, FieldSpec(entry)) && Depth(w) < depth
    requires Exact(defs, names, accepts, spared, depth) && OnlyData(names, accepts)
    ensures Shape(accepts, FieldSpec(entry), Plain(w))
            <==> if IsNullableUnion(entry) && w == Null then AdmitsNull(FragmentOf(entry))
                 else SparedFragment(spared, FragmentOf(entry), w)
  {
    FieldShape(accepts, entry, Plain(w));
    FieldCallable(names, entry);
    if IsNullableUnion(entry) && w == Null {
      NullShape(names, accepts, FragmentOf(entry));
    } else {
      FragmentValid(defs, entry, w);
      FragmentExact(defs, names, accepts, spared, FragmentOf(entry), w, |defs|, depth);
    }
  }

  lemma FieldExact(defs: map<string, Schema>, names: set<string>, accepts: (string, Js) -> bool,
                   spared: (string, Value) -> bool, s: Schema, i: nat, v: Value, chain: nat)
    requires s.Keywords? && i < |Properties(s)| && v.Obj? && ValidIn(defs, s, v, chain)
    requires RegularEntry(Properties(s)[i].1) && Callable(names, FieldSpec(Properties(s)[i].1))
    requires Exact(defs, names, accepts, spared, Depth(v)) && OnlyData(names, accepts)
    ensures var (name, entry) := Properties(s)[i];
            FieldAccepts(accepts, name, entry, s.required, Lookup(v.fields, name))
            <==> SparedField(spared, name, entry, v.fields)
  {
    var (name, entry) := Properties(s)[i];
    if name in v.fields {
      PresentFieldExact(defs, names, accepts, spared, entry, v.fields[name], Depth(v));
    } else {
      assert name !in s.required;
      FieldShape(accepts, entry, Inherited);
      FieldCallable(names, entry);
      InheritedShape(names, accepts, FragmentOf(entry));
    }
  }

  lemma EnumNormalised(defs: map<string, Schema>, s: Schema, v: Value, chain: nat)
    requires s.Keywords? && s.oneOf != [] && AllStringConstants(s.oneOf) && ValidIn(defs, s, v, chain)
    ensures v in Constants(s.oneOf)
  {
    var i :| 0 <= i < |s.oneOf| && ValidIn(defs, s.oneOf[i], v, chain);
    assert v == s.oneOf[i].constant.value == Constants(s.oneOf)[i];
  }

  lemma EnumAccepted(defs: map<string, Schema>, accepts: (string, Js) -> bool, s: Schema, v: Value, chain: nat)
    requires RegularDefinition(s) && IsEnum(s) && ValidIn(defs, s, v, chain)
    ensures DefinitionAccepts(accepts, NormalizeDefinition(s), Plain(v))
  {
    if s.oneOf != [] {
      EnumNormalised(defs, s, v, chain);
    }
  }

  /** A valid value of a regular definition is accepted by the definition's validator exactly when it is spared. */
  lemma DefinitionExact(defs: map<string, Schema>, names: set<string>, accepts: (string, Js) -> bool,
                        spared: (string, Value) -> bool, s: Schema, v: Value, chain: nat)
    requires RegularDefinition(s) && ValidIn(defs, s, v, chain) && FieldsCallable(names, NormalizeDefinition(s))
    requires Exact(defs, names, accepts, spared, Depth(v)) && OnlyData(names, accepts)
    ensures DefinitionAccepts(accepts, NormalizeDefinition(s), Plain(v)) <==> SparedDefinition(spared, s, v)
  {
    if IsEnum(s) {
      EnumAccepted(defs, accepts, s, v, chain);
    } else if v.Obj? {
      forall i | 0 <= i < |Properties(s)|
        ensures var (name, entry) := Properties(s)[i];
                FieldAccepts(accepts, name, entry, s.required, Lookup(v.fields, name))
                <==> SparedField(spared, name, entry, v.fields)
      {
        FieldExact(defs, names, accepts, spared, s, i, v, chain);
      }
    }
  }

  lemma ExactBelow(defs: map<string, Schema>, names: set<string>, accepts: (string, Js) -> bool,
                   spared: (string, Value) -> bool, depth: nat, less: nat)
    requires Exact(defs, names, accepts, spared, depth) && less <= depth
    ensures Exact(defs, names, accepts, spared, less)
  {
    forall name, w, chain ensures ExactFor(defs, names, accepts, spared, less, name, w, chain) {
      assert ExactFor(defs, names, accepts, spared, depth, name, w, chain);
    }
  }

  lemma EmittedDefinition(defs: map<string, Schema>, name: string)
    requires name in Program(Gathered(defs))
    ensures name in defs && defs[name].Keywords? && Gathered(defs)[name] == NormalizeDefinition(defs[name])
  {
  }

  /** One level: a definition whose references lead into the regular set. */
  lemma ExactStep(defs: map<string, Schema>, names: set<string>, n: nat, name: string, w: Value, chain: nat)
    requires RegularSet(defs, names) && Exact(defs, names, Accepter(Gathered(defs), n), Sparer(defs, n), n)
    requires name in Program(Gathered(defs)) && name in defs && RegularDefinition(defs[name])
    requires FieldsCallable(names, NormalizeDefinition(defs[name]))
    requires ValidIn(defs, defs[name], w, chain) && Depth(w) <= n
    ensures AcceptsWithin(Gathered(defs), n + 1, name, Plain(w)) <==> SparedWithin(defs, n + 1, name, w)
  {
    EmittedDefinition(defs, name);
    RegularTakeOnlyData(defs, names, n);
    ExactBelow(defs, names, Accepter(Gathered(defs), n), Sparer(defs, n), n, Depth(w));
    DefinitionExact(defs, names, Accepter(Gathered(defs), n), Sparer(defs, n), defs[name], w, chain);
  }

  lemma ExactForStep(defs: map<string, Schema>, names: set<string>, n: nat, name: string, w: Value, chain: nat)
    requires RegularSet(defs, names) && Exact(defs, names, Accepter(Gathered(defs), n), Sparer(defs, n), n)
    ensures ExactFor(defs, names, Accepter(Gathered(defs), n + 1), Sparer(defs, n + 1), n + 1, name, w, chain)
  {
    assert RegularName(defs, names, name);
    if name in names && name in defs && Depth(w) <= n && ValidIn(defs, defs[name], w, chain) {
      ExactStep(defs, names, n, name, w, chain);
    }
  }

  lemma NothingExact(defs: map<string, Schema>, names: set<string>, accepts: (string, Js) -> bool,
                     spared: (string, Value) -> bool)
    ensures Exact(defs, names, accepts, spared, 0)
  {
  }

  lemma ExactNext(defs: map<string, Schema>, names: set<string>, n: nat, m: nat)
    requires m == n + 1 && RegularSet(defs, names)
    requires Exact(defs, names, Accepter(Gathered(defs), n), Sparer(defs, n), n)
    ensures Exact(defs, names, Accepter(Gathered(defs), m), Sparer(defs, m), m)
  {
    forall name, w, chain
      ensures ExactFor(defs, names, Accepter(Gathered(defs), m), Sparer(defs, m), m, name, w, chain)
    {
      ExactForStep(defs, names, n, name, w, chain);
    }
  }

  /** The validators of a regular set accept exactly the spared ones of the valid values, to any depth. */
  lemma {:induction false} ValidatorsExact(defs: map<string, Schema>, names: set<string>, n: nat)
    requires RegularSet(defs, names)
    ensures Exact(defs, names, Accepter(Gathered(defs), n), Sparer(defs, n), n)
    decreases n
  {
    if n == 0 {
      NothingExact(defs, names, Accepter(Gathered(defs), 0), Sparer(defs, 0));
    } else {
      ValidatorsExact(defs, names, n - 1);
      ExactNext(defs, names, n - 1, n);
    }
  }

  /** Which valid responses are rejected, exactly: running the emitted validator of a regular definition on a
      value that is valid for it answers true when the value is spared, and false otherwise. */
  lemma ValidRejectedExactly(defs: map<string, Schema>, names: set<string>, name: string, v: Value, depth: nat)
    requires RegularSet(defs, names) && Closed(Gathered(defs)) && name in names && name in defs
    requires Valid(defs, defs[name], v) && depth > Depth(v)
    ensures Eval(Program(Gathered(defs)), Call(name, Var("response")), map["response" := Plain(v)], depth)
            == Some(SparedWithin(defs, depth, name, v))
  {
    assert RegularName(defs, names, name);
    ValidatorsTotal(Gathered(defs), name, v, depth);
    ValidatorsExact(defs, names, depth);
    assert ExactFor(defs, names, Accepter(Gathered(defs), depth), Sparer(defs, depth), depth, name, v, |defs|);
  }

  // ---------- definitions that reject nothing valid ----------

  predicate OnlyObjects(s: Schema)
    requires s.Keywords?
  {
    s.types.Some? && forall kind :: kind in s.types.value ==> kind == "object" || kind !in KINDS + {"null"}
  }

  /** Neither of the two reasons can arise for the property. */
  predicate SupportedField(name: string, entry: Schema, required: set<string>) {
    && (IsNullableUnion(entry) ==> AdmitsNull(FragmentOf(entry)))
    && (name in required || MissingAdmitted(name, FragmentOf(entry)))
  }

  predicate SupportedFields(s: Schema)
    requires s.Keywords?
  {
    forall i :: 0 <= i < |Properties(s)| ==> SupportedField(Properties(s)[i].0, Properties(s)[i].1, s.required)
  }

  predicate SupportedDefinition(s: Schema) {
    s.Keywords? && (IsEnum(s) || (OnlyObjects(s) && SupportedFields(s)))
  }

  predicate SupportedName(defs: map<string, Schema>, names: set<string>, name: string) {
    name in names && name in defs ==> SupportedDefinition(defs[name])
  }

  ghost predicate SupportedSet(defs: map<string, Schema>, names: set<string>) {
    RegularSet(defs, names) && forall name :: SupportedName(defs, names, name)
  }

  ghost predicate SparedFor(defs: map<string, Schema>, names: set<string>, spared: (string, Value) -> bool, depth: nat,
                            name: string, w: Value, chain: nat) {
    name in names && name in defs && Depth(w) < depth && ValidIn(defs, defs[name], w, chain) ==> spared(name, w)
  }

  ghost predicate AllSpared(defs: map<string, Schema>, names: set<string>, spared: (string, Value) -> bool,
                            depth: nat) {
    forall name, w, chain :: SparedFor(defs, names, spared, depth, name, w, chain)
  }

  lemma {:induction false} ValidFragmentSpared(defs: map<string, Schema>, names: set<string>,
                                               spared: (string, Value) -> bool, f: Schema, v: Value, chain: nat,
                                               depth: nat)
    requires ValidIn(defs, f, v, chain) && Supported(f) && Callable(names, f)
    requires Depth(v) < depth && AllSpared(defs, names, spared, depth)
    ensures SparedFragment(spared, f, v)
    decreases f
  {
    if f.Keywords? && RefName(f.ref).Some? {
      assert SparedFor(defs, names, spared, depth, RefName(f.ref).value, v, chain - 1);
    } else if f.Keywords? && Effective(TypeNames(f)) != [] {
      if Effective(TypeNames(f))[0] == "array" && v.Arr? && f.items.Some? {
        forall x | x in v.items ensures SparedFragment(spared, f.items.value, x) {
          var i :| 0 <= i < |v.items| && v.items[i] == x;
          ValidFragmentSpared(defs, names, spared, f.items.value, x, |defs|, depth);
        }
      } else if Effective(TypeNames(f))[0] == "object" && v.Obj? && f.additional.Some? && f.additional.value.Keywords? {
        forall k | k in v.fields ensures SparedFragment(spared, f.additional.value, v.fields[k]) {
          assert !Declares(f, k);
          ValidFragmentSpared(defs, names, spared, f.additional.value, v.fields[k], |defs|, depth);
        }
      }
    }
  }

  lemma ValidFieldSpared(defs: map<string, Schema>, names: set<string>, spared: (string, Value) -> bool, s: Schema,
                         i: nat, v: Value, chain: nat)
    requires s.Keywords? && i < |Properties(s)| && v.Obj? && ValidIn(defs, s, v, chain)
    requires RegularEntry(Properties(s)[i].1) && Callable(names, FieldSpec(Properties(s)[i].1))
    requires SupportedField(Properties(s)[i].0, Properties(s)[i].1, s.required)
    requires AllSpared(defs, names, spared, Depth(v))
    ensures SparedField(spared, Properties(s)[i].0, Properties(s)[i].1, v.fields)
  {
    var (name, entry) := Properties(s)[i];
    if name in v.fields && !(IsNullableUnion(entry) && v.fields[name] == Null) {
      FieldCallable(names, entry);
      FragmentValid(defs, entry, v.fields[name]);
      ValidFragmentSpared(defs, names, spared, FragmentOf(entry), v.fields[name], |defs|, Depth(v));
    }
  }

  lemma ObjectOfTypes(defs: map<string, Schema>, s: Schema, v: Value, chain: nat)
    requires s.Keywords? && OnlyObjects(s) && ValidIn(defs, s, v, chain)
    ensures v.Obj?
  {
  }

  lemma ValidDefinitionSpared(defs: map<string, Schema>, names: set<string>, spared: (string, Value) -> bool, s: Schema,
                              v: Value, chain: nat)
    requires RegularDefinition(s) && SupportedDefinition(s) && FieldsCallable(names, NormalizeDefinition(s))
    requires ValidIn(defs, s, v, chain) && AllSpared(defs, names, spared, Depth(v))
    ensures SparedDefinition(spared, s, v)
  {
    if !IsEnum(s) {
      ObjectOfTypes(defs, s, v, chain);
      forall i | 0 <= i < |Properties(s)|
        ensures SparedField(spared, Properties(s)[i].0, Properties(s)[i].1, v.fields)
      {
        ValidFieldSpared(defs, names, spared, s, i, v, chain);
      }
    }
  }

  lemma SparedBelow(defs: map<string, Schema>, names: set<string>, spared: (string, Value) -> bool, depth: nat,
                    less: nat)
    requires AllSpared(defs, names, spared, depth) && less <= depth
    ensures AllSpared(defs, names, spared, less)
  {
    forall name, w, chain ensures SparedFor(defs, names, spared, less, name, w, chain) {
      assert SparedFor(defs, names, spared, depth, name, w, chain);
    }
  }

  lemma SparedForStep(defs: map<string, Schema>, names: set<string>, n: nat, name: string, w: Value, chain: nat)
    requires SupportedSet(defs, names) && AllSpared(defs, names, Sparer(defs, n), n)
    ensures SparedFor(defs, names, Sparer(defs, n + 1), n + 1, name, w, chain)
  {
    assert RegularName(defs, names, name) && SupportedName(defs, names, name);
    if name in names && name in defs && Depth(w) <= n && ValidIn(defs, defs[name], w, chain) {
      SparedBelow(defs, names, Sparer(defs, n), n, Depth(w));
      ValidDefinitionSpared(defs, names, Sparer(defs, n), defs[name], w, chain);
    }
  }

  lemma NothingSpared(defs: map<string, Schema>, names: set<string>, spared: (string, Value) -> bool)
    ensures AllSpared(defs, names, spared, 0)
  {
  }

  lemma {:induction false} ValidSpared(defs: map<string, Schema>, names: set<string>, n: nat)
    requires SupportedSet(defs, names)
    ensures AllSpared(defs, names, Sparer(defs, n), n)
    decreases n
  {
    if n == 0 {
      NothingSpared(defs, names, Sparer(defs, 0));
    } else {
      ValidSpared(defs, names, n - 1);
      forall name, w, chain ensures SparedFor(defs, names, Sparer(defs, n), n, name, w, chain) {
        SparedForStep(defs, names, n - 1, name, w, chain);
      }
    }
  }

  /** A valid value of a supported fragment has the shape that the guard checks. */
  lemma ValidHasShape(defs: map<string, Schema>, names: set<string>, f: Schema, v: Value, depth: nat)
    requires SupportedSet(defs, names) && Supported(f) && Callable(names, f)
    requires Valid(defs, f, v) && Depth(v) < depth
    ensures Shape(Accepter(Gathered(defs), depth), f, Plain(v))
  {
    ValidatorsExact(defs, names, depth);
    ValidSpared(defs, names, depth);
    FragmentExact(defs, names, Accepter(Gathered(defs), depth), Sparer(defs, depth), f, v, |defs|, depth);
    ValidFragmentSpared(defs, names, Sparer(defs, depth), f, v, |defs|, depth);
  }

  /** No valid response is rejected: running the emitted validator of a definition on a value that is valid for
      it answers true, when the definition and those that it refers to are supported. */
  lemma ValidNeverRejected(defs: map<string, Schema>, names: set<string>, name: string, v: Value, depth: nat)
    requires SupportedSet(defs, names) && Closed(Gathered(defs)) && name in names && name in defs
    requires Valid(defs, defs[name], v) && depth > Depth(v)
    ensures Eval(Program(Gathered(defs)), Call(name, Var("response")), map["response" := Plain(v)], depth) == Some(true)
  {
    ValidRejectedExactly(defs, names, name, v, depth);
    ValidSpared(defs, names, depth);
    assert SparedFor(defs, names, Sparer(defs, depth), depth, name, v, |defs|);
  }

  lemma SupportedIsClosed(defs: map<string, Schema>)
    requires RegularSet(defs, Program(Gathered(defs)).Keys)
    ensures Closed(Gathered(defs))
  {
    var gathered := Gathered(defs);
    forall name | name in Program(gathered) ensures FieldsCallable(Program(gathered).Keys, gathered[name]) {
      assert RegularName(defs, Program(gathered).Keys, name);
      EmittedDefinition(defs, name);
    }
  }

  /** In particular for every validator, when the whole schema is supported. */
  lemma SupportedSchemaNeverRejects(defs: map<string, Schema>, name: string, v: Value, depth: nat)
    requires SupportedSet(defs, Program(Gathered(defs)).Keys) && name in Program(Gathered(defs))
    requires Valid(defs, defs[name], v) && depth > Depth(v)
    ensures Eval(Program(Gathered(defs)), Call(name, Var("response")), map["response" := Plain(v)], depth) == Some(true)
  {
    SupportedIsClosed(defs);
    ValidNeverRejected(defs, Program(Gathered(defs)).Keys, name, v, depth);
  }
}
