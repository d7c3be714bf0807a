/** Where the generated TypeScript guards reject values that the schema allows, and exactly when they do not. */
module GuardLimits {
  import opened Wrappers
  import opened Json
  import opened ClientContracts
  import opened GuardCompleteness

  // ---------- kinds ----------

  function Types(types: seq<string>): (s: Schema)
    ensures s.Keywords?
  {
    Any.(types := Some(types))
  }

  function SampleOf(kind: string): Value
    requires kind in KINDS
  {
    if kind == "string" then Str("")
    else if kind == "boolean" then Bool(true)
    else if kind == "integer" then Num(0.0)
    else if kind == "number" then Num(0.5)
    else if kind == "array" then Arr([])
    else Obj(map[])
  }

  /** A value of a kind that the guard of a fragment does not let through. */
  lemma NotTaken(accepts: (string, Js) -> bool, definition: Schema, kind: string) returns (v: Value)
    requires definition.Keywords? && RefName(definition.ref).None? && !Takes(TypeNames(definition), kind)
    ensures kind in KINDS + {"null"} && v == if kind == "null" then Null else SampleOf(kind)
    ensures HasType(kind, v) && !Shape(accepts, definition, Plain(v))
  {
    v := if kind == "null" then Null else SampleOf(kind);
  }

  // ---------- simple fragments ----------

  /** Types, items, properties and `additionalProperties`, nested at will; property names do not repeat. */
  predicate Simple(s: Schema)
    decreases s
  {
    s.Always?
    || (&& s.ref.None? && s.enumValues.None? && s.constant.None? && s.minimum.None? && s.maximum.None?
        && s.required == {} && s.anyOf == [] && s.oneOf == [] && !s.never
        && (s.items.Some? ==> Simple(s.items.value))
        && (s.additional.Some? ==> Simple(s.additional.value))
        && (s.properties.Declared? ==>
              && (forall i :: 0 <= i < |s.properties.entries| ==> Simple(s.properties.entries[i].1))
              && (forall i, j :: 0 <= i < j < |s.properties.entries| ==>
                    s.properties.entries[i].0 != s.properties.entries[j].0)))
  }

  const ALL_KINDS := ["null", "boolean", "number", "string", "array", "object"]

  function Kinds(s: Schema): seq<string> {
    if s.Always? || s.types.None? then ALL_KINDS else s.types.value
  }

  function ItemsOf(s: Schema): Schema {
    if s.Keywords? && s.items.Some? then s.items.value else Always(true)
  }

  function AdditionalOf(s: Schema): Schema {
    if s.Keywords? && s.additional.Some? then s.additional.value else Always(true)
  }

  function PropertiesOf(s: Schema): seq<(string, Schema)> {
    if s.Keywords? then Properties(s) else []
  }

  predicate IsDeclared(s: Schema, k: string) {
    s.Keywords? && Declares(s, k)
  }

  /** Some value is valid: false for the boolean schema false, and for types that JSON does not have. */
  predicate Satisfiable(s: Schema) {
    if s.Always? then s.valid else exists kind :: kind in Kinds(s) && kind in KINDS + {"null"}
  }

  predicate FieldsValid(defs: map<string, Schema>, s: Schema, v: Value)
    requires v.Obj?
  {
    && (forall i :: 0 <= i < |PropertiesOf(s)| && PropertiesOf(s)[i].0 in v.fields ==>
          Valid(defs, PropertiesOf(s)[i].1, v.fields[PropertiesOf(s)[i].0]))
    && (forall k :: k in v.fields && !IsDeclared(s, k) ==> Valid(defs, AdditionalOf(s), v.fields[k]))
  }

  lemma AllKindsCovered(v: Value)
    ensures exists kind :: kind in ALL_KINDS && HasType(kind, v)
  {
    match v
    case Null => assert "null" in ALL_KINDS;
    case Bool(_) => assert "boolean" in ALL_KINDS;
    case Num(_) => assert "number" in ALL_KINDS;
    case Str(_) => assert "string" in ALL_KINDS;
    case Arr(_) => assert "array" in ALL_KINDS;
    case Obj(_) => assert "object" in ALL_KINDS;
  }

  lemma FieldsValidMeans(defs: map<string, Schema>, s: Schema, v: Value)
    requires s.Keywords? && v.Obj?
    ensures FieldsValid(defs, s, v)
            <==> && (s.properties.Declared? ==>
                       forall i :: 0 <= i < |s.properties.entries| && s.properties.entries[i].0 in v.fields ==>
                         Valid(defs, s.properties.entries[i].1, v.fields[s.properties.entries[i].0]))
                 && (s.additional.Some? ==>
                       forall k :: k in v.fields && !Declares(s, k) ==> Valid(defs, s.additional.value, v.fields[k]))
  {
    assert PropertiesOf(s) == if s.properties.Declared? then s.properties.entries else [];
    forall w ensures Valid(defs, Always(true), w) {}
    if s.additional.None? {
      assert AdditionalOf(s) == Always(true);
    } else {
      assert AdditionalOf(s) == s.additional.value;
    }
  }

  /** Validity of a value for a simple fragment, one level down. */
  lemma SimpleValid(defs: map<string, Schema>, s: Schema, v: Value)
    requires Simple(s)
    ensures Valid(defs, s, v)
            <==> && s != Always(false)
                 && (exists kind :: kind in Kinds(s) && HasType(kind, v))
                 && (v.Arr? ==> forall i :: 0 <= i < |v.items| ==> Valid(defs, ItemsOf(s), v.items[i]))
                 && (v.Obj? ==> FieldsValid(defs, s, v))
  {
    AllKindsCovered(v);
    if s.Keywords? && v.Obj? {
      FieldsValidMeans(defs, s, v);
    }
  }

  /** The guard of `a` takes everything that is valid for `p`: what is valid is of kinds it takes, and where
      it looks into arrays and objects, it takes the elements. Declared properties are no exception:
      the guard applies the schema for other properties to them as well. */
  predicate Included(p: Schema, a: Schema)
    decreases a
  {
    || !Satisfiable(p)
    || a.Always?
    || Effective(TypeNames(a)) == []
    || (&& (forall kind :: kind in Kinds(p) ==> Takes(TypeNames(a), kind))
        && ("array" in Kinds(p) && Effective(TypeNames(a))[0] == "array" && a.items.Some? ==>
              Included(ItemsOf(p), a.items.value))
        && ("object" in Kinds(p) && Effective(TypeNames(a))[0] == "object"
            && a.additional.Some? && a.additional.value.Keywords? ==>
              && (forall i :: 0 <= i < |PropertiesOf(p)| ==> Included(PropertiesOf(p)[i].1, a.additional.value))
              && Included(AdditionalOf(p), a.additional.value)))
  }

  /** The elements of a value have the shape that the guard checks, where it looks into them. */
  ghost predicate ElementsShaped(accepts: (string, Js) -> bool, a: Schema, v: Value)
    requires a.Keywords? && Effective(TypeNames(a)) != []
  {
    && (v.Arr? && Effective(TypeNames(a))[0] == "array" && a.items.Some? ==>
          forall x :: x in v.items ==> Shape(accepts, a.items.value, Plain(x)))
    && (v.Obj? && Effective(TypeNames(a))[0] == "object" && a.additional.Some? && a.additional.value.Keywords? ==>
          forall k :: k in v.fields ==> Shape(accepts, a.additional.value, Plain(v.fields[k])))
  }

  lemma KindAndElements(accepts: (string, Js) -> bool, a: Schema, kind: string, v: Value)
    requires a.Keywords? && RefName(a.ref).None? && Effective(TypeNames(a)) != []
    requires Takes(TypeNames(a), kind) && HasType(kind, v) && ElementsShaped(accepts, a, v)
    ensures Shape(accepts, a, Plain(v))
  {
  }

  lemma {:induction false} IncludedTakes(defs: map<string, Schema>, accepts: (string, Js) -> bool, p: Schema, a: Schema,
                                         v: Value)
    requires Simple(p) && Simple(a) && Included(p, a) && Valid(defs, p, v)
    ensures Shape(accepts, a, Plain(v))
    decreases a, 0
  {
    SimpleValid(defs, p, v);
    if a.Keywords? && Effective(TypeNames(a)) != [] {
      var kind :| kind in Kinds(p) && HasType(kind, v);
      assert Satisfiable(p) && Takes(TypeNames(a), kind);
      if v.Arr? && Effective(TypeNames(a))[0] == "array" && a.items.Some? {
        forall x | x in v.items ensures Shape(accepts, a.items.value, Plain(x)) {
          IncludedTakes(defs, accepts, ItemsOf(p), a.items.value, x);
        }
      } else if v.Obj? && Effective(TypeNames(a))[0] == "object" && a.additional.Some? && a.additional.value.Keywords? {
        forall k | k in v.fields ensures Shape(accepts, a.additional.value, Plain(v.fields[k])) {
          FieldTaken(defs, accepts, p, a.additional.value, v, k);
        }
      }
      KindAndElements(accepts, a, kind, v);
    }
  }

  lemma {:induction false} FieldTaken(defs: map<string, Schema>, accepts: (string, Js) -> bool, p: Schema, a: Schema,
                                      v: Value, k: string)
    requires Simple(p) && Simple(a) && v.Obj? && k in v.fields && FieldsValid(defs, p, v)
    requires forall i :: 0 <= i < |PropertiesOf(p)| ==> Included(PropertiesOf(p)[i].1, a)
    requires Included(AdditionalOf(p), a)
    ensures Shape(accepts, a, Plain(v.fields[k]))
    decreases a, 1
  {
    if IsDeclared(p, k) {
      var i :| 0 <= i < |PropertiesOf(p)| && PropertiesOf(p)[i].0 == k;
      IncludedTakes(defs, accepts, PropertiesOf(p)[i].1, a, v.fields[k]);
    } else {
      IncludedTakes(defs, accepts, AdditionalOf(p), a, v.fields[k]);
    }
  }

  lemma SampleValid(defs: map<string, Schema>, s: Schema, kind: string, v: Value)
    requires Simple(s) && s != Always(false) && kind in Kinds(s) && kind in KINDS + {"null"}
    requires v == if kind == "null" then Null else SampleOf(kind)
    ensures Valid(defs, s, v)
  {
    SimpleValid(defs, s, v);
  }

  lemma ArrayOf(defs: map<string, Schema>, s: Schema, w: Value)
    requires Simple(s) && s != Always(false) && "array" in Kinds(s) && Valid(defs, ItemsOf(s), w)
    ensures Valid(defs, s, Arr([w]))
  {
    SimpleValid(defs, s, Arr([w]));
  }

  lemma ObjectOf(defs: map<string, Schema>, s: Schema, i: nat, w: Value)
    requires Simple(s) && s != Always(false) && "object" in Kinds(s)
    requires i < |PropertiesOf(s)| && Valid(defs, PropertiesOf(s)[i].1, w)
    ensures Valid(defs, s, Obj(map[PropertiesOf(s)[i].0 := w]))
  {
    var v := Obj(map[PropertiesOf(s)[i].0 := w]);
    forall j | 0 <= j < |PropertiesOf(s)| && PropertiesOf(s)[j].0 in v.fields
      ensures Valid(defs, PropertiesOf(s)[j].1, v.fields[PropertiesOf(s)[j].0])
    {
      assert j == i;
    }
    assert IsDeclared(s, PropertiesOf(s)[i].0);
    SimpleValid(defs, s, v);
  }

  lemma ObjectBeside(defs: map<string, Schema>, s: Schema, key: string, w: Value)
    requires Simple(s) && s != Always(false) && "object" in Kinds(s)
    requires !IsDeclared(s, key) && Valid(defs, AdditionalOf(s), w)
    ensures Valid(defs, s, Obj(map[key := w]))
  {
    SimpleValid(defs, s, Obj(map[key := w]));
  }

  /** A name that is longer than every declared one. */
  lemma {:induction false} FreshName(properties: seq<(string, Schema)>) returns (key: string)
    ensures forall i :: 0 <= i < |properties| ==> |properties[i].0| < |key|
  {
    key := "x";
    for i := 0 to |properties|
      invariant |key| >= 1 && forall j :: 0 <= j < i ==> |properties[j].0| < |key|
    {
      key := key + properties[i].0;
    }
  }

  /** An array or object is no value of the right shape when one of its elements is not. */
  lemma ElementDecides(accepts: (string, Js) -> bool, a: Schema, key: string, w: Value)
    requires a.Keywords? && RefName(a.ref).None? && Effective(TypeNames(a)) != []
    ensures (Effective(TypeNames(a))[0] == "array" && a.items.Some? && !Shape(accepts, a.items.value, Plain(w)))
            ==> !Shape(accepts, a, Plain(Arr([w])))
    ensures (Effective(TypeNames(a))[0] == "object" && a.additional.Some? && a.additional.value.Keywords?
             && !Shape(accepts, a.additional.value, Plain(w)))
            ==> !Shape(accepts, a, Plain(Obj(map[key := w])))
  {
    assert w in [w];
    assert key in map[key := w] && map[key := w][key] == w;
  }

  lemma {:induction false} ExcludedValue(defs: map<string, Schema>, accepts: (string, Js) -> bool, p: Schema, a: Schema)
      returns (v: Value)
    requires Simple(p) && Simple(a) && !Included(p, a)
    ensures Valid(defs, p, v) && !Shape(accepts, a, Plain(v))
    decreases a
  {
    var first := Effective(TypeNames(a))[0];
    if kind :| kind in Kinds(p) && !Takes(TypeNames(a), kind) {
      v := NotTaken(accepts, a, kind);
      SampleValid(defs, p, kind, v);
    } else if "array" in Kinds(p) && first == "array" && a.items.Some? && !Included(ItemsOf(p), a.items.value) {
      var w := ExcludedValue(defs, accepts, ItemsOf(p), a.items.value);
      v := Arr([w]);
      ArrayOf(defs, p, w);
      ElementDecides(accepts, a, "", w);
    } else if i :| 0 <= i < |PropertiesOf(p)| && !Included(PropertiesOf(p)[i].1, a.additional.value) {
      var w := ExcludedValue(defs, accepts, PropertiesOf(p)[i].1, a.additional.value);
      v := Obj(map[PropertiesOf(p)[i].0 := w]);
      ObjectOf(defs, p, i, w);
      ElementDecides(accepts, a, PropertiesOf(p)[i].0, w);
    } else {
      var w := ExcludedValue(defs, accepts, AdditionalOf(p), a.additional.value);
      var key := FreshName(PropertiesOf(p));
      v := Obj(map[key := w]);
      ObjectBeside(defs, p, key, w);
      ElementDecides(accepts, a, key, w);
    }
  }

  /** The guard of one simple fragment takes every value that is valid for another exactly when the latter is
      included in it; with the same fragment twice, when the generated guard rejects nothing valid. */
  lemma GuardTakesExact(defs: map<string, Schema>, accepts: (string, Js) -> bool, p: Schema, a: Schema)
    requires Simple(p) && Simple(a)
    ensures (forall v :: Valid(defs, p, v) ==> Shape(accepts, a, Plain(v))) <==> Included(p, a)
  {
    if Included(p, a) {
      forall v | Valid(defs, p, v) ensures Shape(accepts, a, Plain(v)) {
        IncludedTakes(defs, accepts, p, a, v);
      }
    } else {
      var v := ExcludedValue(defs, accepts, p, a);
    }
  }

  // ---------- lists of types ----------

  lemma OwnKindsTaken(types: seq<string>)
    ensures (forall kind :: kind in types ==> Takes(types, kind))
            <==> Effective(types) == [] || forall kind :: kind in Effective(types) ==> Covers(Effective(types)[0], kind)
  {
    forall kind ensures kind in Effective(types) <==> kind in types && kind != "null" {
      EffectiveKinds(types, kind);
    }
    if Effective(types) != [] && forall kind :: kind in types ==> Takes(types, kind) {
      forall kind | kind in Effective(types) ensures Covers(Effective(types)[0], kind) {
        assert Takes(types, kind);
      }
    }
  }

  /** The guard of what a fragment says about its elements rejects nothing valid. */
  predicate ElementsIncluded(s: Schema)
    requires s.Keywords?
  {
    && (s.items.Some? ==> Included(s.items.value, s.items.value))
    && (s.additional.Some? && s.additional.value.Keywords? ==>
          Properties(s) == [] && Included(s.additional.value, s.additional.value))
  }

  /** A list of types is checked by its first kind other than null only. As far as elements are taken, the
      guard takes every valid value exactly when that kind covers all the others. */
  lemma TypeListExact(defs: map<string, Schema>, accepts: (string, Js) -> bool, s: Schema)
    requires Simple(s) && s.Keywords? && s.types.Some? && ElementsIncluded(s)
    ensures (forall v :: Valid(defs, s, v) ==> Shape(accepts, s, Plain(v)))
            <==> var effective := Effective(s.types.value);
                 effective == [] || forall kind :: kind in effective ==> Covers(effective[0], kind)
  {
    GuardTakesExact(defs, accepts, s, s);
    OwnKindsTaken(s.types.value);
    if !Satisfiable(s) {
      forall kind | kind in Effective(s.types.value) ensures kind !in KINDS {
        EffectiveKinds(s.types.value, kind);
        assert kind in Kinds(s);
      }
    }
  }

  /** An integer is valid for text or integers, and the guard checks for text. */
  lemma FirstKindOnlyRejected(defs: map<string, Schema>, accepts: (string, Js) -> bool)
    ensures Valid(defs, Types(["string", "integer"]), Num(1.0))
    ensures !Shape(accepts, Types(["string", "integer"]), Plain(Num(1.0)))
  {
    assert "integer" in ["string", "integer"];
    assert Effective(["string", "integer"])[0] == "string";
  }

  // ---------- declared properties beside a schema for the others ----------

  lemma IncludedInItself(s: Schema)
    requires Simple(s) && s.Keywords? && s.types == Some(["object"])
    requires s.additional.Some? && s.additional.value.Keywords?
    ensures Included(s, s)
            <==> && (forall i :: 0 <= i < |Properties(s)| ==> Included(Properties(s)[i].1, s.additional.value))
                 && Included(s.additional.value, s.additional.value)
  {
    assert Kinds(s) == ["object"] && TypeNames(s) == ["object"] && Effective(["object"]) == ["object"];
    assert "object" in Kinds(s) && Satisfiable(s) && Takes(TypeNames(s), "object");
    assert PropertiesOf(s) == Properties(s) && AdditionalOf(s) == s.additional.value;
  }

  /** With both keywords, the guard takes every valid object exactly when the schema for the other properties
      takes what is valid for each declared property, and what is valid for itself. */
  lemma DeclaredPropertyExact(defs: map<string, Schema>, accepts: (string, Js) -> bool, s: Schema)
    requires Simple(s) && s.Keywords? && s.types == Some(["object"])
    requires s.additional.Some? && s.additional.value.Keywords?
    ensures (forall v :: Valid(defs, s, v) ==> Shape(accepts, s, Plain(v)))
            <==> && (forall i :: 0 <= i < |Properties(s)| ==> Included(Properties(s)[i].1, s.additional.value))
                 && Included(s.additional.value, s.additional.value)
  {
    GuardTakesExact(defs, accepts, s, s);
    IncludedInItself(s);
  }

  /** Text in a declared property, beside a schema for integers. */
  lemma DeclaredPropertyRejected(defs: map<string, Schema>, accepts: (string, Js) -> bool)
    ensures var s := Any.(types := Some(["object"]), properties := Declared([("a", Types(["string"]))]),
                          additional := Some(Types(["integer"])));
            var v := Obj(map["a" := Str("x")]);
            Valid(defs, s, v) && !Shape(accepts, s, Plain(v))
  {
    var s := Any.(types := Some(["object"]), properties := Declared([("a", Types(["string"]))]),
                  additional := Some(Types(["integer"])));
    assert "string" in ["string"] && "object" in ["object"];
    assert Valid(defs, Types(["string"]), Str("x"));
    assert PropertiesOf(s)[0] == ("a", Types(["string"]));
    ObjectOf(defs, s, 0, Str("x"));
    assert Effective(["integer"]) == ["integer"] && Effective(["object"]) == ["object"];
    assert !Shape(accepts, Types(["integer"]), Plain(Str("x")));
    ElementDecides(accepts, s, "a", Str("x"));
  }

  // ---------- unions of string constants ----------

  ghost predicate ExactlyOne(defs: map<string, Schema>, options: seq<Schema>, v: Value) {
    && (exists i :: 0 <= i < |options| && Valid(defs, options[i], v))
    && (forall i, j :: 0 <= i < j < |options| ==> !(Valid(defs, options[i], v) && Valid(defs, options[j], v)))
  }

  /** What `normalize_enum` leaves of a definition beside the union. */
  function BesideEnum(s: Schema): Schema
    requires s.Keywords?
  {
    s.(oneOf := [], types := None, enumValues := None)
  }

  /** The union takes the constant like the enum does: it is written in one valid branch only, and the types
      and enum values that the union replaces allow it. */
  ghost predicate ConstantKept(defs: map<string, Schema>, s: Schema, c: Value)
    requires s.Keywords?
  {
    && ExactlyOne(defs, s.oneOf, c)
    && (s.types.Some? ==> "string" in s.types.value)
    && (s.enumValues.Some? ==> c in s.enumValues.value)
  }

  lemma ConstantBranch(defs: map<string, Schema>, branch: Schema, v: Value)
    requires IsStringConstant(branch) && Valid(defs, branch, v)
    ensures v == branch.constant.value
  {
  }

  lemma ExactlyOneIsConstant(defs: map<string, Schema>, options: seq<Schema>, v: Value)
    requires AllStringConstants(options) && ExactlyOne(defs, options, v)
    ensures v in Constants(options) && v.Str?
  {
    var i :| 0 <= i < |options| && Valid(defs, options[i], v);
    ConstantBranch(defs, options[i], v);
    assert Constants(options)[i] == v && IsStringConstant(options[i]);
  }

  /** What the keywords that the enum replaces demand. */
  ghost predicate ReplacedValid(defs: map<string, Schema>, s: Schema, v: Value)
    requires s.Keywords?
  {
    && ExactlyOne(defs, s.oneOf, v)
    && (s.types.Some? ==> exists kind :: kind in s.types.value && HasType(kind, v))
    && (s.enumValues.Some? ==> v in s.enumValues.value)
  }

  lemma UnionValidOnly(defs: map<string, Schema>, s: Schema, v: Value)
    requires s.Keywords? && s.oneOf != [] && Valid(defs, s, v)
    ensures Valid(defs, BesideEnum(s), v) && ReplacedValid(defs, s, v)
  {
  }

  lemma UnionValidIf(defs: map<string, Schema>, s: Schema, v: Value)
    requires s.Keywords? && s.oneOf != [] && Valid(defs, BesideEnum(s), v) && ReplacedValid(defs, s, v)
    ensures Valid(defs, s, v)
  {
  }

  lemma UnionOfConstantsValid(defs: map<string, Schema>, s: Schema, v: Value)
    requires s.Keywords? && s.oneOf != [] && AllStringConstants(s.oneOf)
    ensures Valid(defs, s, v)
            <==> v in Constants(s.oneOf) && Valid(defs, BesideEnum(s), v) && ConstantKept(defs, s, v)
  {
    if ExactlyOne(defs, s.oneOf, v) {
      ExactlyOneIsConstant(defs, s.oneOf, v);
    }
    if Valid(defs, s, v) {
      UnionValidOnly(defs, s, v);
    } else if Valid(defs, BesideEnum(s), v) && ReplacedValid(defs, s, v) {
      UnionValidIf(defs, s, v);
    }
  }

  lemma CollapsedValid(defs: map<string, Schema>, s: Schema, v: Value)
    requires s.Keywords? && s.oneOf != [] && AllStringConstants(s.oneOf)
    ensures Valid(defs, NormalizeEnum(s), v) <==> v in Constants(s.oneOf) && Valid(defs, BesideEnum(s), v)
  {
    if v in Constants(s.oneOf) {
      var i :| 0 <= i < |s.oneOf| && Constants(s.oneOf)[i] == v;
      assert IsStringConstant(s.oneOf[i]) && v.Str?;
      assert "string" in ["string"];
    }
  }

  /** Writing a union of string constants as an enum keeps the valid values exactly when every constant that
      the rest of the definition allows is kept. */
  lemma NormalizeEnumExact(defs: map<string, Schema>, s: Schema)
    requires s.Keywords? && s.oneOf != [] && AllStringConstants(s.oneOf)
    ensures (forall v :: Valid(defs, s, v) <==> Valid(defs, NormalizeEnum(s), v))
            <==> forall c :: c in Constants(s.oneOf) && Valid(defs, BesideEnum(s), c) ==> ConstantKept(defs, s, c)
  {
    forall v
      ensures Valid(defs, s, v)
              <==> v in Constants(s.oneOf) && Valid(defs, BesideEnum(s), v) && ConstantKept(defs, s, v)
      ensures Valid(defs, NormalizeEnum(s), v) <==> v in Constants(s.oneOf) && Valid(defs, BesideEnum(s), v)
    {
      UnionOfConstantsValid(defs, s, v);
      CollapsedValid(defs, s, v);
    }
  }

  function StringConstant(c: string): Schema {
    Any.(types := Some(["string"]), constant := Some(Str(c)))
  }

  /** A documented string enum, as the daemon exports it. */
  function ConstantUnion(constants: seq<string>): (s: Schema)
    ensures s.Keywords?
  {
    Any.(oneOf := seq(|constants|, i requires 0 <= i < |constants| => StringConstant(constants[i])))
  }

  ghost predicate Distinct(constants: seq<string>) {
    forall i, j :: 0 <= i < j < |constants| ==> constants[i] != constants[j]
  }

  ghost predicate Once(constants: seq<string>, c: string) {
    c in constants && forall i, j :: 0 <= i < j < |constants| ==> !(constants[i] == c == constants[j])
  }

  lemma DistinctMeansOnce(constants: seq<string>)
    ensures Distinct(constants) <==> forall i :: 0 <= i < |constants| ==> Once(constants, constants[i])
  {
    if !Distinct(constants) {
      var i, j :| 0 <= i < j < |constants| && constants[i] == constants[j];
      assert !Once(constants, constants[i]);
    }
  }

  lemma StringConstantValid(defs: map<string, Schema>, c: string, v: Value)
    ensures Valid(defs, StringConstant(c), v) <==> v == Str(c)
  {
    assert "string" in ["string"];
  }

  lemma ConstantUnionKept(defs: map<string, Schema>, constants: seq<string>, c: string)
    ensures ConstantKept(defs, ConstantUnion(constants), Str(c)) <==> Once(constants, c)
  {
    var s := ConstantUnion(constants);
    forall i | 0 <= i < |constants| ensures Valid(defs, s.oneOf[i], Str(c)) <==> c == constants[i] {
      StringConstantValid(defs, constants[i], Str(c));
    }
  }

  lemma AllConstantsKept(defs: map<string, Schema>, constants: seq<string>)
    ensures AllStringConstants(ConstantUnion(constants).oneOf)
    ensures (forall c :: c in Constants(ConstantUnion(constants).oneOf) ==>
             ConstantKept(defs, ConstantUnion(constants), c))
            <==> Distinct(constants)
  {
    var s := ConstantUnion(constants);
    var values := Constants(s.oneOf);
    forall i | 0 <= i < |constants|
      ensures values[i] == Str(constants[i]) && (ConstantKept(defs, s, values[i]) <==> Once(constants, constants[i]))
    {
      ConstantUnionKept(defs, constants, constants[i]);
    }
    DistinctMeansOnce(constants);
  }

  /** For the union alone, the valid values are kept exactly when no constant occurs twice: a repeated one
      matches two branches of `oneOf`, which forbids it, and one enum entry, which allows it. */
  lemma ConstantUnionExact(defs: map<string, Schema>, constants: seq<string>)
    requires constants != []
    ensures var s := ConstantUnion(constants);
            (forall v :: Valid(defs, s, v) <==> Valid(defs, NormalizeEnum(s), v)) <==> Distinct(constants)
  {
    AllConstantsKept(defs, constants);
    NormalizeEnumExact(defs, ConstantUnion(constants));
    assert BesideEnum(ConstantUnion(constants)) == Any;
    forall v ensures Valid(defs, Any, v) {}
  }

  /** A constant written twice is valid for the enum and not for the union. */
  lemma RepeatedConstantDiffers(defs: map<string, Schema>)
    ensures var s := ConstantUnion(["a", "a"]);
            !Valid(defs, s, Str("a")) && Valid(defs, NormalizeEnum(s), Str("a"))
  {
    var s := ConstantUnion(["a", "a"]);
    assert AllStringConstants(s.oneOf);
    UnionOfConstantsValid(defs, s, Str("a"));
    CollapsedValid(defs, s, Str("a"));
    ConstantUnionKept(defs, ["a", "a"], "a");
    assert ["a", "a"][0] == "a" == ["a", "a"][1];
    assert Constants(s.oneOf)[0] == Str("a");
  }

  // ---------- unions with null ----------

  ghost predicate FieldAdmits(defs: map<string, Schema>, s: Schema, v: Value) {
    Valid(defs, s, v) ==> Shape(Accepter(Gathered(defs), Depth(v) + 1), FieldSpec(s), Plain(v))
  }

  lemma BranchAdmits(defs: map<string, Schema>, names: set<string>, s: Schema, v: Value)
    requires SupportedSet(defs, names) && IsNullableUnion(s) && RegularEntry(s) && v != Null
    requires Callable(names, FragmentOf(s))
    ensures FieldAdmits(defs, s, v)
  {
    var depth, f := Depth(v) + 1, FragmentOf(s);
    if Valid(defs, s, v) {
      FragmentValid(defs, s, v);
      ValidHasShape(defs, names, f, v, depth);
      FieldShape(Accepter(Gathered(defs), depth), s, Plain(v));
    }
  }

  /** The generator writes a two-branch union with null, `anyOf` or `oneOf` in either order, as the other
      branch alone. Only null can be lost, and it is lost exactly when the union allows it and that
      branch does not admit it. Only the definitions that the branch refers to have to be supported. */
  lemma NullableUnionExact(defs: map<string, Schema>, names: set<string>, s: Schema)
    requires SupportedSet(defs, names) && IsNullableUnion(s) && RegularEntry(s) && Callable(names, FragmentOf(s))
    ensures (forall v :: FieldAdmits(defs, s, v)) <==> (Valid(defs, s, Null) ==> AdmitsNull(FragmentOf(s)))
  {
    var accepts := Accepter(Gathered(defs), Depth(Null) + 1);
    FieldShape(accepts, s, Plain(Null));
    RegularTakeOnlyData(defs, names, Depth(Null) + 1);
    NullShape(names, accepts, FragmentOf(s));
    assert FieldAdmits(defs, s, Null) <==> (Valid(defs, s, Null) ==> AdmitsNull(FragmentOf(s)));
    forall v | v != Null ensures FieldAdmits(defs, s, v) {
      BranchAdmits(defs, names, s, v);
    }
  }

  /** An optional string: the guard of the collapsed union rejects null. */
  lemma NullableUnionRejected(accepts: (string, Js) -> bool)
    ensures var s := Any.(anyOf := [Types(["string"]), Types(["null"])]);
            Valid(map[], s, Null) && !Shape(accepts, FieldSpec(s), Plain(Null))
  {
    var s := Any.(anyOf := [Types(["string"]), Types(["null"])]);
    assert "null" in ["null"] && Valid(map[], Types(["null"]), Null) && s.anyOf[1] == Types(["null"]);
    assert NullableBranch(s.anyOf) == Some(Types(["string"])) && FragmentOf(s) == Types(["string"]);
    FieldShape(accepts, s, Plain(Null));
    assert Effective(["string"]) == ["string"];
  }

  // ---------- emitted object definitions ----------

  /** `accepts` holds for the valid values of the definitions, whatever their depth, and for no inherited
      function. */
  ghost predicate CompleteAlways(defs: map<string, Schema>, names: set<string>, accepts: (string, Js) -> bool) {
    && OnlyData(names, accepts)
    && forall name, w :: name in names && name in defs && Valid(defs, defs[name], w) ==> accepts(name, Plain(w))
  }

  /** What the validators accept, whatever the depth. */
  ghost function AcceptsAny(gathered: map<string, Schema>): (string, Js) -> bool {
    (name, v) => AcceptsWithin(gathered, JsDepth(v), name, v)
  }

  lemma AcceptedBySet(defs: map<string, Schema>, names: set<string>, name: string, w: Value)
    requires SupportedSet(defs, names) && name in names && name in defs && Valid(defs, defs[name], w)
    ensures Accepts(Gathered(defs), name, w)
  {
    var n := Depth(w) + 1;
    ValidatorsExact(defs, names, n);
    ValidSpared(defs, names, n);
    assert ExactFor(defs, names, Accepter(Gathered(defs), n), Sparer(defs, n), n, name, w, |defs|);
    assert SparedFor(defs, names, Sparer(defs, n), n, name, w, |defs|);
  }

  /** The validators of a supported set are such an `accepts`, whatever other definitions the schema has. */
  lemma ValidatorsCompleteAlways(defs: map<string, Schema>, names: set<string>)
    requires SupportedSet(defs, names)
    ensures CompleteAlways(defs, names, AcceptsAny(Gathered(defs)))
  {
    var accepts := AcceptsAny(Gathered(defs));
    forall name | name in names ensures !accepts(name, Inherited) && !accepts(name, Plain(Null)) {
      assert RegularName(defs, names, name);
      EmittedTakesOnlyData(Gathered(defs), name, JsDepth(Inherited));
      EmittedTakesOnlyData(Gathered(defs), name, JsDepth(Plain(Null)));
    }
    forall name, w | name in names && name in defs && Valid(defs, defs[name], w)
      ensures accepts(name, Plain(w))
    {
      AcceptedBySet(defs, names, name, w);
      assert JsDepth(Plain(w)) == Depth(w) + 1;
    }
  }

  /** A property of a value is not lost: it is missing where that is admitted, or not a null that only the
      union allows. */
  predicate NotLost(name: string, entry: Schema, fields: map<string, Value>) {
    if name !in fields then MissingAdmitted(name, FragmentOf(entry))
    else IsNullableUnion(entry) && fields[name] == Null ==> AdmitsNull(FragmentOf(entry))
  }

  lemma NotLostIsSpared(defs: map<string, Schema>, names: set<string>, s: Schema, i: nat, v: Value, n: nat)
    requires SupportedSet(defs, names) && s.Keywords? && i < |Properties(s)| && v.Obj? && Valid(defs, s, v)
    requires RegularEntry(Properties(s)[i].1) && Callable(names, FieldSpec(Properties(s)[i].1)) && Depth(v) <= n
    ensures SparedField(Sparer(defs, n), Properties(s)[i].0, Properties(s)[i].1, v.fields)
            <==> NotLost(Properties(s)[i].0, Properties(s)[i].1, v.fields)
  {
    var (name, entry) := Properties(s)[i];
    if name in v.fields && !(IsNullableUnion(entry) && v.fields[name] == Null) {
      FieldCallable(names, entry);
      FragmentValid(defs, entry, v.fields[name]);
      ValidSpared(defs, names, n);
      ValidFragmentSpared(defs, names, Sparer(defs, n), FragmentOf(entry), v.fields[name], |defs|, n);
    }
  }

  /** For any emitted object definition that refers to supported ones, itself supported or not: a valid value
      is accepted exactly when it is an object none of whose properties is lost. */
  lemma PrototypeNameExact(defs: map<string, Schema>, names: set<string>, name: string, v: Value)
    requires SupportedSet(defs, names) && name in Program(Gathered(defs)) && name in defs
    requires RegularDefinition(defs[name]) && !IsEnum(defs[name])
    requires FieldsCallable(names, NormalizeDefinition(defs[name])) && Valid(defs, defs[name], v)
    ensures Accepts(Gathered(defs), name, v)
            <==> v.Obj? && forall i :: 0 <= i < |Properties(defs[name])| ==>
                             NotLost(Properties(defs[name])[i].0, Properties(defs[name])[i].1, v.fields)
  {
    var s, n := defs[name], Depth(v);
    ValidatorsExact(defs, names, n);
    ExactStep(defs, names, n, name, v, |defs|);
    if v.Obj? {
      forall i | 0 <= i < |Properties(s)|
        ensures SparedField(Sparer(defs, n), Properties(s)[i].0, Properties(s)[i].1, v.fields)
                <==> NotLost(Properties(s)[i].0, Properties(s)[i].1, v.fields)
      {
        NotLostIsSpared(defs, names, s, i, v, n);
      }
    }
  }

  /** Nothing but types, properties, items and requirements restricts the values of the definition. */
  predicate OnlyStructure(s: Schema) {
    s.Keywords? && s.ref.None? && s.enumValues.None? && s.constant.None? && s.minimum.None? && s.maximum.None?
    && s.anyOf == [] && s.oneOf == [] && !s.never
  }

  /** A value of another kind than object, when the definition allows one. */
  lemma OtherKind(defs: map<string, Schema>, s: Schema) returns (v: Value)
    requires OnlyStructure(s) && !OnlyObjects(s)
    ensures Valid(defs, s, v) && !v.Obj?
  {
    if s.types.None? {
      v := Str("");
    } else {
      var kind :| kind in s.types.value && kind != "object" && kind in KINDS + {"null"};
      v := if kind == "null" then Null else SampleOf(kind);
    }
  }

  lemma NonObjectRejected(gathered: map<string, Schema>, n: nat, name: string, v: Value)
    requires name in gathered && gathered[name].Keywords? && gathered[name].enumValues.None? && !v.Obj?
    ensures !AcceptsWithin(gathered, n, name, Plain(v))
  {
  }

  /** The set is supported but for the types of one definition. */
  ghost predicate SupportedButTypes(defs: map<string, Schema>, names: set<string>, name: string) {
    && RegularSet(defs, names) && name in names && name in defs && OnlyStructure(defs[name])
    && SupportedFields(defs[name])
    && forall other :: other != name ==> SupportedName(defs, names, other)
  }

  /** The validator of an object definition starts with `isObject`. It accepts every valid value exactly when
      the definition's types are given and name no other kind of value. */
  lemma NullableDefinitionExact(defs: map<string, Schema>, names: set<string>, name: string)
    requires SupportedButTypes(defs, names, name)
    ensures (forall v :: Valid(defs, defs[name], v) ==> Accepts(Gathered(defs), name, v)) <==> OnlyObjects(defs[name])
  {
    assert RegularName(defs, names, name);
    EmittedDefinition(defs, name);
    if OnlyObjects(defs[name]) {
      forall other ensures SupportedName(defs, names, other) {}
      forall v | Valid(defs, defs[name], v) ensures Accepts(Gathered(defs), name, v) {
        AcceptedBySet(defs, names, name, v);
      }
    } else {
      var v := OtherKind(defs, defs[name]);
      NonObjectRejected(Gathered(defs), Depth(v) + 1, name, v);
    }
  }

  ghost predicate ValidButRejected(defs: map<string, Schema>, name: string, v: Value) {
    && name in defs && Valid(defs, defs[name], v)
    && name in Program(Gathered(defs)) && !Accepts(Gathered(defs), name, v)
  }

  /** A nullable object definition: null is rejected, because the validator starts with `isObject`. */
  lemma NullableDefinitionRejected()
    ensures ValidButRejected(map["D" := Types(["object", "null"])], "D", Null)
  {
    var s := Types(["object", "null"]);
    assert "object" in s.types.value && "null" in s.types.value;
    assert Gathered(map["D" := s])["D"] == s;
  }

  /** An optional property named like a member of `Object.prototype`: the empty object is rejected. */
  lemma PrototypeNameRejected()
    ensures var s := Any.(types := Some(["object"]), properties := Declared([("constructor", Types(["string"]))]));
            ValidButRejected(map["D" := s], "D", Obj(map[]))
  {
    var entry := Types(["string"]);
    var s := Any.(types := Some(["object"]), properties := Declared([("constructor", entry)]));
    assert "object" in s.types.value && Gathered(map["D" := s])["D"] == s;
    assert Properties(s)[0] == ("constructor", entry);
    assert Effective(["string"]) == ["string"];
    assert Lookup(map[], "constructor") == Inherited;
    forall accepts: (string, Js) -> bool ensures !DefinitionAccepts(accepts, s, Plain(Obj(map[]))) {
      assert !FieldAccepts(accepts, "constructor", entry, s.required, Inherited);
    }
  }
}
