/** The generator of the TypeScript runtime guards (`generate-client-contracts.py`): it compiles
    fragments of the daemon's JSON Schema (draft 2020-12) to boolean guard expressions.

    The model has the three languages involved: schemas with their validity, guard expressions
    with their evaluation, and JSON values. The generated text is represented by its syntax tree. */
module ClientContracts {
  import opened Wrappers
  import opened Json

  // ---------- schemas ----------

  /** A schema is a boolean or a set of keywords; `anyOf` and `oneOf` are empty when absent. `never` stands
      for the keyword `not` with the empty schema, the only form of `not` the generator produces. */
  datatype Schema =
    | Always(valid: bool)
    | Keywords(
        ref: Option<string>,
        types: Option<seq<string>>,
        enumValues: Option<seq<Value>>,
        constant: Option<Value>,
        items: Option<Schema>,
        properties: Declarations,
        required: set<string>,
        additional: Option<Schema>,
        anyOf: seq<Schema>,
        oneOf: seq<Schema>,
        minimum: Option<real>,
        maximum: Option<real>,
        never: bool)

  /** The keyword `properties`, when it is there: names and schemas in the order of the emitted checks. */
  datatype Declarations = Undeclared | Declared(entries: seq<(string, Schema)>)

  const Any := Keywords(None, None, None, None, None, Undeclared, {}, None, [], [], None, None, false)

  const DEFS_PREFIX := "#/$defs/"

  function RefName(ref: Option<string>): Option<string> {
    if ref.Some? && DEFS_PREFIX <= ref.value then Some(ref.value[|DEFS_PREFIX|..]) else None
  }

  predicate HasType(kind: string, v: Value) {
    match v
    case Null => kind == "null"
    case Bool(_) => kind == "boolean"
    case Num(n) => kind == "number" || (kind == "integer" && n.Floor as real == n)
    case Str(_) => kind == "string"
    case Arr(_) => kind == "array"
    case Obj(_) => kind == "object"
  }

  predicate Declares(s: Schema, k: string)
    requires s.Keywords?
  {
    s.properties.Declared? && exists i :: 0 <= i < |s.properties.entries| && s.properties.entries[i].0 == k
  }

  /** Validity of a value. `chain` bounds the `$ref`s followed without descending into the value: with
      as many as there are definitions, only a cycle of references is cut off. */
  predicate ValidIn(defs: map<string, Schema>, s: Schema, v: Value, chain: nat)
    decreases v, chain, s
  {
    match s
    case Always(valid) => valid
    case Keywords(_, _, _, _, _, _, _, _, _, _, _, _, _) =>
      && !s.never
      && (s.ref.Some? ==>
            var name := RefName(s.ref);
            name.Some? && name.value in defs && chain > 0 && ValidIn(defs, defs[name.value], v, chain - 1))
      && (s.types.Some? ==> exists kind :: kind in s.types.value && HasType(kind, v))
      && (s.enumValues.Some? ==> v in s.enumValues.value)
      && (s.constant.Some? ==> v == s.constant.value)
      && (s.minimum.Some? && v.Num? ==> s.minimum.value <= v.n)
      && (s.maximum.Some? && v.Num? ==> v.n <= s.maximum.value)
      && (s.items.Some? && v.Arr? ==>
            forall i :: 0 <= i < |v.items| ==> ValidIn(defs, s.items.value, v.items[i], |defs|))
      && (s.properties.Declared? && v.Obj? ==>
            forall i :: 0 <= i < |s.properties.entries| && s.properties.entries[i].0 in v.fields ==>
              ValidIn(defs, s.properties.entries[i].1, v.fields[s.properties.entries[i].0], |defs|))
      && (v.Obj? ==> forall k :: k in s.required ==> k in v.fields)
      && (s.additional.Some? && v.Obj? ==>
            forall k :: k in v.fields && !Declares(s, k) ==> ValidIn(defs, s.additional.value, v.fields[k], |defs|))
      && (s.anyOf != [] ==> exists i :: 0 <= i < |s.anyOf| && ValidIn(defs, s.anyOf[i], v, chain))
      && (s.oneOf != [] ==>
            && (exists i :: 0 <= i < |s.oneOf| && ValidIn(defs, s.oneOf[i], v, chain))
            && (forall i, j :: 0 <= i < j < |s.oneOf| ==>
                  !(ValidIn(defs, s.oneOf[i], v, chain) && ValidIn(defs, s.oneOf[j], v, chain))))
  }

  predicate Valid(defs: map<string, Schema>, s: Schema, v: Value) {
    ValidIn(defs, s, v, |defs|)
  }

  // ---------- guard expressions ----------

  datatype Expr = Var(name: string) | Member(obj: Expr, name: string)

  datatype Guard =
    | True
    | IsString(e: Expr)
    | IsBoolean(e: Expr)
    | IsInteger(e: Expr)
    | IsNumber(e: Expr)
    | IsObject(e: Expr)
    | IsArray(e: Expr)
    | IsNull(e: Expr)
    | IsUndefined(e: Expr)
    | EqualsString(e: Expr, s: string)
    | EveryItem(e: Expr, param: string, body: Guard)
    | EveryValue(e: Expr, param: string, body: Guard)
    | Call(name: string, e: Expr)
    | And(left: Guard, right: Guard)
    | Or(left: Guard, right: Guard)

  /** What an expression evaluates to. `Inherited` is a function found on `Object.prototype`. */
  datatype Js = Undefined | Inherited | Plain(value: Value)

  /** The functions every object literal inherits. */
  const OBJECT_PROTOTYPE := {
    "constructor", "toString", "toLocaleString", "valueOf", "hasOwnProperty", "isPrototypeOf",
    "propertyIsEnumerable", "__defineGetter__", "__defineSetter__", "__lookupGetter__", "__lookupSetter__" }

  function Lookup(fields: map<string, Value>, name: string): Js {
    if name in fields then Plain(fields[name])
    else if name in OBJECT_PROTOTYPE then Inherited
    else Undefined
  }

  /** `None` for a variable that is not bound and for a member of something that is no object. */
  function EvalExpr(e: Expr, env: map<string, Js>): Option<Js> {
    match e
    case Var(name) => if name in env then Some(env[name]) else None
    case Member(obj, name) =>
      var o := EvalExpr(obj, env);
      if o.Some? && o.value.Plain? && o.value.value.Obj? then Some(Lookup(o.value.value.fields, name)) else None
  }

  predicate JsString(v: Js) { v.Plain? && v.value.Str? }
  predicate JsBoolean(v: Js) { v.Plain? && v.value.Bool? }
  predicate JsNumber(v: Js) { v.Plain? && v.value.Num? }
  predicate JsInteger(v: Js) { JsNumber(v) && v.value.n.Floor as real == v.value.n }
  predicate JsObject(v: Js) { v.Plain? && v.value.Obj? }
  predicate JsArray(v: Js) { v.Plain? && v.value.Arr? }
  predicate JsNull(v: Js) { v == Plain(Null) }

  function Items(v: Js): set<Value>
    requires JsArray(v)
  {
    set x | x in v.value.items
  }

  function Values(v: Js): set<Value>
    requires JsObject(v)
  {
    set k | k in v.value.fields :: v.value.fields[k]
  }

  function Test(e: Expr, env: map<string, Js>, test: Js -> bool): Option<bool> {
    var v := EvalExpr(e, env);
    if v.None? then None else Some(test(v.value))
  }

  /** Evaluation of a guard among the validators of a program. `None` means that evaluation fails, or
      does not end within `depth` nested validator calls. */
  ghost function Eval(program: map<string, Guard>, g: Guard, env: map<string, Js>, depth: nat): Option<bool>
    decreases depth, g, 0
  {
    match g
    case True => Some(true)
    case IsString(e) => Test(e, env, JsString)
    case IsBoolean(e) => Test(e, env, JsBoolean)
    case IsInteger(e) => Test(e, env, JsInteger)
    case IsNumber(e) => Test(e, env, JsNumber)
    case IsObject(e) => Test(e, env, JsObject)
    case IsArray(e) => Test(e, env, JsArray)
    case IsNull(e) => Test(e, env, JsNull)
    case IsUndefined(e) => Test(e, env, v => v == Undefined)
    case EqualsString(e, s) => Test(e, env, v => v == Plain(Str(s)))
    case EveryItem(e, param, body) =>
      var v := EvalExpr(e, env);
      if v.None? || !JsArray(v.value) then None else EvalEvery(program, Items(v.value), param, body, env, depth)
    case EveryValue(e, param, body) =>
      var v := EvalExpr(e, env);
      if v.None? || !JsObject(v.value) then None else EvalEvery(program, Values(v.value), param, body, env, depth)
    case Call(name, e) =>
      var v := EvalExpr(e, env);
      if v.None? || name !in program || depth == 0 then None
      else Eval(program, program[name], map["value" := v.value], depth - 1)
    case And(left, right) =>
      var l := Eval(program, left, env, depth);
      if l == Some(true) then Eval(program, right, env, depth) else l
    case Or(left, right) =>
      var l := Eval(program, left, env, depth);
      if l == Some(false) then Eval(program, right, env, depth) else l
  }

  ghost function EvalEvery(program: map<string, Guard>, elements: set<Value>, param: string, body: Guard,
                           env: map<string, Js>, depth: nat): Option<bool>
    decreases depth, body, 1
  {
    if forall x :: x in elements ==> Eval(program, body, env[param := Plain(x)], depth) == Some(true) then Some(true)
    else if forall x :: x in elements ==> Eval(program, body, env[param := Plain(x)], depth).Some? then Some(false)
    else None
  }

  // ---------- the compiler ----------

  /** `normalize`. */
  function Normalize(s: Schema): Schema {
    match s
    case Always(true) => Any
    case Always(false) => Any.(never := true)
    case _ => s
  }

  /** The kinds of a schema other than null, in order. */
  function Effective(types: seq<string>): seq<string> {
    if types == [] then []
    else (if types[0] != "null" then [types[0]] else []) + Effective(types[1..])
  }

  function TypeNames(s: Schema): seq<string>
    requires s.Keywords?
  {
    if s.types.Some? then s.types.value else []
  }

  /** `ts_check`. */
  function TsCheck(e: Expr, definition: Schema): Guard
    decreases definition
  {
    if definition.Always? then True
    else
      var name := RefName(definition.ref);
      if name.Some? then Call(name.value, e)
      else
        var kinds := TypeNames(definition);
        var effective := Effective(kinds);
        if effective == [] then True
        else
          var check := TsKind(e, effective[0], definition);
          if "null" in kinds then Or(IsNull(e), check) else check
  }

  function TsKind(e: Expr, kind: string, s: Schema): Guard
    requires s.Keywords?
    decreases s, 0
  {
    if kind == "string" then IsString(e)
    else if kind == "boolean" then IsBoolean(e)
    else if kind == "integer" then IsInteger(e)
    else if kind == "number" then IsNumber(e)
    else if kind == "array" then
      And(IsArray(e), EveryItem(e, "entry", if s.items.Some? then TsCheck(Var("entry"), s.items.value) else True))
    else if kind == "object" then
      if s.additional.Some? && s.additional.value.Keywords? then
        And(IsObject(e), EveryValue(e, "entry", TsCheck(Var("entry"), s.additional.value)))
      else IsObject(e)
    else True
  }

  // ---------- what a guard accepts ----------

  /** The direct meaning of the guard of a fragment. `accepts` says what each validator accepts. */
  ghost predicate Shape(accepts: (string, Js) -> bool, definition: Schema, v: Js)
    decreases definition
  {
    if definition.Always? then true
    else
      var name := RefName(definition.ref);
      if name.Some? then accepts(name.value, v)
      else
        var kinds := TypeNames(definition);
        var effective := Effective(kinds);
        effective == [] || ("null" in kinds && JsNull(v)) || ShapeOfKind(accepts, effective[0], definition, v)
  }

  ghost predicate ShapeOfKind(accepts: (string, Js) -> bool, kind: string, s: Schema, v: Js)
    requires s.Keywords?
    decreases s, 0
  {
    if kind == "string" then JsString(v)
    else if kind == "boolean" then JsBoolean(v)
    else if kind == "integer" then JsInteger(v)
    else if kind == "number" then JsNumber(v)
    else if kind == "array" then
      JsArray(v) && (s.items.Some? ==> forall x :: x in v.value.items ==> Shape(accepts, s.items.value, Plain(x)))
    else if kind == "object" then
      JsObject(v) && (s.additional.Some? && s.additional.value.Keywords? ==>
                        forall k :: k in v.value.fields ==>
                          Shape(accepts, s.additional.value, Plain(v.value.fields[k])))
    else true
  }

  /** How deep a value is, with room for one call on a missing member. */
  ghost function JsDepth(v: Js): nat {
    if v.Plain? then Depth(v.value) + 1 else 1
  }

  /** Every fragment reached without a further call refers to an emitted validator. */
  ghost predicate Callable(names: set<string>, definition: Schema)
    decreases definition
  {
    definition.Always?
    || (if RefName(definition.ref).Some? then RefName(definition.ref).value in names
        else
          && (definition.items.Some? ==> Callable(names, definition.items.value))
          && (definition.additional.Some? ==> Callable(names, definition.additional.value)))
  }

  /** One call of a validator ends and gives what `accepts` says. */
  ghost predicate CallAgrees(program: map<string, Guard>, accepts: (string, Js) -> bool, depth: nat,
                             name: string, v: Js, env: map<string, Js>, e: Expr) {
    name in program && JsDepth(v) <= depth && EvalExpr(e, env) == Some(v) ==>
      Eval(program, Call(name, e), env, depth) == Some(accepts(name, v))
  }

  ghost predicate Agrees(program: map<string, Guard>, accepts: (string, Js) -> bool, depth: nat) {
    forall name, v, env, e :: CallAgrees(program, accepts, depth, name, v, env, e)
  }

  /** The compiler of fragments is correct: whatever expression the value stands under, and however
      deeply the `entry` parameters shadow each other, evaluating the guard ends and gives exactly
      the direct meaning. */
  lemma {:induction false} CheckMeansShape(program: map<string, Guard>, accepts: (string, Js) -> bool,
                                           e: Expr, definition: Schema, env: map<string, Js>, v: Js, depth: nat)
    requires EvalExpr(e, env) == Some(v) && JsDepth(v) <= depth
    requires Callable(program.Keys, definition) && Agrees(program, accepts, depth)
    ensures Eval(program, TsCheck(e, definition), env, depth) == Some(Shape(accepts, definition, v))
    decreases definition, 1
  {
    if definition.Keywords? {
      var name := RefName(definition.ref);
      if name.Some? {
        assert CallAgrees(program, accepts, depth, name.value, v, env, e);
      } else {
        var effective := Effective(TypeNames(definition));
        if effective != [] {
          KindMeansShape(program, accepts, e, effective[0], definition, env, v, depth);
        }
      }
    }
  }

  lemma {:induction false} KindMeansShape(program: map<string, Guard>, accepts: (string, Js) -> bool,
                                          e: Expr, kind: string, s: Schema, env: map<string, Js>, v: Js, depth: nat)
    requires s.Keywords? && RefName(s.ref).None? && EvalExpr(e, env) == Some(v) && JsDepth(v) <= depth
    requires Callable(program.Keys, s) && Agrees(program, accepts, depth)
    ensures Eval(program, TsKind(e, kind, s), env, depth) == Some(ShapeOfKind(accepts, kind, s, v))
    decreases s, 0
  {
    if kind == "array" {
      ArrayMeansShape(program, accepts, e, s, env, v, depth);
    } else if kind == "object" {
      ObjectMeansShape(program, accepts, e, s, env, v, depth);
    }
  }

  lemma GuardedEveryItem(program: map<string, Guard>, e: Expr, body: Guard, env: map<string, Js>, v: Js, depth: nat)
    requires EvalExpr(e, env) == Some(v)
    ensures Eval(program, And(IsArray(e), EveryItem(e, "entry", body)), env, depth)
            == if JsArray(v) then EvalEvery(program, Items(v), "entry", body, env, depth) else Some(false)
  {
    assert Eval(program, IsArray(e), env, depth) == Some(JsArray(v));
  }

  lemma GuardedEveryValue(program: map<string, Guard>, e: Expr, body: Guard, env: map<string, Js>, v: Js, depth: nat)
    requires EvalExpr(e, env) == Some(v)
    ensures Eval(program, And(IsObject(e), EveryValue(e, "entry", body)), env, depth)
            == if JsObject(v) then EvalEvery(program, Values(v), "entry", body, env, depth) else Some(false)
  {
    assert Eval(program, IsObject(e), env, depth) == Some(JsObject(v));
  }

  lemma EveryTrue(program: map<string, Guard>, elements: set<Value>, env: map<string, Js>, depth: nat)
    ensures EvalEvery(program, elements, "entry", True, env, depth) == Some(true)
  {
  }

  lemma {:induction false} ArrayMeansShape(program: map<string, Guard>, accepts: (string, Js) -> bool,
                                           e: Expr, s: Schema, env: map<string, Js>, v: Js, depth: nat)
    requires s.Keywords? && RefName(s.ref).None? && EvalExpr(e, env) == Some(v) && JsDepth(v) <= depth
    requires Callable(program.Keys, s) && Agrees(program, accepts, depth)
    ensures Eval(program, TsKind(e, "array", s), env, depth) == Some(ShapeOfKind(accepts, "array", s, v))
    decreases s, 0, 0
  {
    var body := if s.items.Some? then TsCheck(Var("entry"), s.items.value) else True;
    GuardedEveryItem(program, e, body, env, v, depth);
    if JsArray(v) {
      if s.items.Some? {
        EveryMeansShape(program, accepts, s.items.value, Items(v), env, depth);
        assert forall x :: x in v.value.items <==> x in Items(v);
      } else {
        EveryTrue(program, Items(v), env, depth);
      }
    }
  }

  lemma {:induction false} ObjectMeansShape(program: map<string, Guard>, accepts: (string, Js) -> bool,
                                            e: Expr, s: Schema, env: map<string, Js>, v: Js, depth: nat)
    requires s.Keywords? && RefName(s.ref).None? && EvalExpr(e, env) == Some(v) && JsDepth(v) <= depth
    requires Callable(program.Keys, s) && Agrees(program, accepts, depth)
    ensures Eval(program, TsKind(e, "object", s), env, depth) == Some(ShapeOfKind(accepts, "object", s, v))
    decreases s, 0, 0
  {
    if s.additional.Some? && s.additional.value.Keywords? {
      GuardedEveryValue(program, e, TsCheck(Var("entry"), s.additional.value), env, v, depth);
      if JsObject(v) {
        forall x | x in Values(v) ensures Depth(x) < Depth(v.value) {
          var k :| k in v.value.fields && v.value.fields[k] == x;
        }
        EveryMeansShape(program, accepts, s.additional.value, Values(v), env, depth);
        assert forall k :: k in v.value.fields ==> v.value.fields[k] in Values(v);
      }
    }
  }

  lemma {:induction false} EveryMeansShape(program: map<string, Guard>, accepts: (string, Js) -> bool,
                                           definition: Schema, elements: set<Value>, env: map<string, Js>, depth: nat)
    requires forall x :: x in elements ==> Depth(x) < depth
    requires Callable(program.Keys, definition) && Agrees(program, accepts, depth)
    ensures EvalEvery(program, elements, "entry", TsCheck(Var("entry"), definition), env, depth)
            == Some(forall x :: x in elements ==> Shape(accepts, definition, Plain(x)))
    decreases definition, 2
  {
    forall x | x in elements
      ensures Eval(program, TsCheck(Var("entry"), definition), env["entry" := Plain(x)], depth)
              == Some(Shape(accepts, definition, Plain(x)))
    {
      CheckMeansShape(program, accepts, Var("entry"), definition, env["entry" := Plain(x)], Plain(x), depth);
    }
  }

  // ---------- definitions and their validators ----------

  predicate IsNullType(s: Schema) {
    s.Keywords? && s.types == Some(["null"])
  }

  /** The other branch of a two-branch union with null. */
  function NullableBranch(options: seq<Schema>): Option<Schema> {
    if |options| != 2 then None
    else if IsNullType(options[0]) && !IsNullType(options[1]) && options[1].Keywords? then Some(options[1])
    else if IsNullType(options[1]) && !IsNullType(options[0]) && options[0].Keywords? then Some(options[0])
    else None
  }

  function Override<T>(present: Option<T>, earlier: Option<T>): Option<T> {
    if present.Some? then present else earlier
  }

  /** The keywords of `inner` written over those of `s`. */
  function Merge(s: Schema, inner: Schema): Schema
    requires s.Keywords? && inner.Keywords?
  {
    Keywords(Override(inner.ref, s.ref), Override(inner.types, s.types), Override(inner.enumValues, s.enumValues),
             Override(inner.constant, s.constant), Override(inner.items, s.items),
             if inner.properties.Declared? then inner.properties else s.properties,
             if inner.required != {} then inner.required else s.required,
             Override(inner.additional, s.additional), if inner.anyOf != [] then inner.anyOf else s.anyOf,
             if inner.oneOf != [] then inner.oneOf else s.oneOf, Override(inner.minimum, s.minimum),
             Override(inner.maximum, s.maximum), inner.never || s.never)
  }

  /** `collapse_nullable_anyof`. */
  function CollapseNullable(s: Schema): Schema
    requires s.Keywords?
  {
    if NullableBranch(s.anyOf).Some? then Merge(s.(anyOf := []), NullableBranch(s.anyOf).value)
    else if NullableBranch(s.oneOf).Some? then Merge(s.(oneOf := []), NullableBranch(s.oneOf).value)
    else s
  }

  predicate IsStringConstant(s: Schema) {
    s.Keywords? && s.types == Some(["string"]) && s.constant.Some? && s.constant.value.Str?
  }

  predicate AllStringConstants(options: seq<Schema>) {
    forall i :: 0 <= i < |options| ==> IsStringConstant(options[i])
  }

  function Constants(options: seq<Schema>): seq<Value>
    requires AllStringConstants(options)
  {
    seq(|options|, i requires 0 <= i < |options| => options[i].constant.value)
  }

  /** `normalize_enum`. */
  function NormalizeEnum(s: Schema): Schema
    requires s.Keywords?
  {
    if s.oneOf != [] && AllStringConstants(s.oneOf) then
      s.(oneOf := [], types := Some(["string"]), enumValues := Some(Constants(s.oneOf)))
    else s
  }

  /** The loop of `normalize_enum`: it gives up at the first branch that is no string constant. */
  method CollectEnum(definition: Schema) returns (collapsed: Schema)
    requires definition.Keywords?
    ensures collapsed == NormalizeEnum(definition)
  {
    if definition.oneOf == [] {
      return definition;
    }
    var values := [];
    for i := 0 to |definition.oneOf|
      invariant AllStringConstants(definition.oneOf[..i]) && values == Constants(definition.oneOf[..i])
    {
      var entry := definition.oneOf[i];
      if !IsStringConstant(entry) {
        return definition;
      }
      values := values + [entry.constant.value];
      assert definition.oneOf[..i + 1] == definition.oneOf[..i] + [entry];
    }
    assert definition.oneOf[..|definition.oneOf|] == definition.oneOf;
    collapsed := definition.(oneOf := [], types := Some(["string"]), enumValues := Some(values));
  }

  function NormalizeDefinition(s: Schema): Schema
    requires s.Keywords?
  {
    CollapseNullable(NormalizeEnum(s))
  }

  function FieldSpec(entry: Schema): Schema {
    CollapseNullable(Normalize(entry))
  }

  function FieldGuard(name: string, entry: Schema, required: set<string>): Guard {
    var member := Member(Var("value"), name);
    var check := TsCheck(member, FieldSpec(entry));
    if name in required then check else Or(IsUndefined(member), check)
  }

  function AndFields(acc: Guard, properties: seq<(string, Schema)>, required: set<string>): Guard
    decreases |properties|
  {
    if properties == [] then acc
    else AndFields(And(acc, FieldGuard(properties[0].0, properties[0].1, required)), properties[1..], required)
  }

  predicate AllStrings(values: seq<Value>) {
    forall i :: 0 <= i < |values| ==> values[i].Str?
  }

  function EqualsAny(values: seq<Value>): Guard
    requires values != [] && AllStrings(values)
  {
    var last := EqualsString(Var("value"), values[|values| - 1].s);
    if |values| == 1 then last else Or(EqualsAny(values[..|values| - 1]), last)
  }

  function Properties(s: Schema): seq<(string, Schema)>
    requires s.Keywords?
  {
    if s.properties.Declared? then s.properties.entries else []
  }

  /** `emit_ts_validator`: `None` when no validator is emitted, or when the generator rejects the
      definition because its enum has other values than strings. */
  function EmitValidator(s: Schema): Option<Guard> {
    if s.Always? then None
    else if s.enumValues.Some? then
      if s.enumValues.value != [] && AllStrings(s.enumValues.value) then Some(EqualsAny(s.enumValues.value)) else None
    else if "object" in TypeNames(s) || s.properties.Declared? then
      Some(AndFields(IsObject(Var("value")), Properties(s), s.required))
    else None
  }

  /** The loop over the properties in `emit_ts_validator`. */
  method EmitObjectValidator(definition: Schema) returns (guard: Guard)
    requires definition.Keywords? && definition.enumValues.None?
    requires "object" in TypeNames(definition) || definition.properties.Declared?
    ensures EmitValidator(definition) == Some(guard)
  {
    var properties := Properties(definition);
    guard := IsObject(Var("value"));
    for i := 0 to |properties|
      invariant AndFields(guard, properties[i..], definition.required)
                == AndFields(IsObject(Var("value")), properties, definition.required)
    {
      var (field, spec) := properties[i];
      var check := TsCheck(Member(Var("value"), field), FieldSpec(spec));
      if field !in definition.required {
        check := Or(IsUndefined(Member(Var("value"), field)), check);
      }
      assert properties[i..][1..] == properties[i + 1..];
      guard := And(guard, check);
    }
  }

  /** `gather`. */
  function Gathered(defs: map<string, Schema>): map<string, Schema> {
    map name | name in defs && defs[name].Keywords? :: NormalizeDefinition(defs[name])
  }

  /** The emitted validators. */
  function Program(gathered: map<string, Schema>): map<string, Guard> {
    map name | name in gathered && EmitValidator(gathered[name]).Some? :: EmitValidator(gathered[name]).value
  }

  // ---------- what a validator accepts ----------

  ghost predicate FieldAccepts(accepts: (string, Js) -> bool, name: string, entry: Schema, required: set<string>,
                               v: Js) {
    (name !in required && v == Undefined) || Shape(accepts, FieldSpec(entry), v)
  }

  ghost predicate AllFieldsAccept(accepts: (string, Js) -> bool, properties: seq<(string, Schema)>,
                                  required: set<string>, fields: map<string, Value>) {
    forall i :: 0 <= i < |properties| ==>
      FieldAccepts(accepts, properties[i].0, properties[i].1, required, Lookup(fields, properties[i].0))
  }

  ghost predicate DefinitionAccepts(accepts: (string, Js) -> bool, s: Schema, v: Js)
    requires s.Keywords?
  {
    if s.enumValues.Some? then v.Plain? && v.value in s.enumValues.value
    else
      JsObject(v) && AllFieldsAccept(accepts, Properties(s), s.required, v.value.fields)
  }

  /** What the validators accept within `n` nested calls. */
  ghost predicate AcceptsWithin(gathered: map<string, Schema>, n: nat, name: string, v: Js)
    decreases n, 0
  {
    && n > 0 && name in gathered && gathered[name].Keywords?
    && DefinitionAccepts(Accepter(gathered, n - 1), gathered[name], v)
  }

  ghost function Accepter(gathered: map<string, Schema>, n: nat): (string, Js) -> bool
    decreases n, 1
  {
    (name, v) => AcceptsWithin(gathered, n, name, v)
  }

  ghost predicate FieldsCallable(names: set<string>, s: Schema)
    requires s.Keywords?
  {
    forall i :: 0 <= i < |Properties(s)| ==> Callable(names, FieldSpec(Properties(s)[i].1))
  }

  /** Every validator that a validator calls is emitted. */
  ghost predicate Closed(gathered: map<string, Schema>) {
    forall name :: name in Program(gathered) ==> FieldsCallable(Program(gathered).Keys, gathered[name])
  }

  lemma {:induction false} EqualsAnyMeans(program: map<string, Guard>, values: seq<Value>, v: Js, depth: nat)
    requires values != [] && AllStrings(values)
    ensures Eval(program, EqualsAny(values), map["value" := v], depth) == Some(v.Plain? && v.value in values)
  {
    var n := |values| - 1;
    assert v.Plain? && v.value == values[n] <==> v == Plain(Str(values[n].s));
    if n > 0 {
      EqualsAnyMeans(program, values[..n], v, depth);
      assert values == values[..n] + [values[n]];
    } else {
      assert values == [values[0]];
    }
  }

  lemma FieldMeans(program: map<string, Guard>, accepts: (string, Js) -> bool, name: string, entry: Schema,
                   required: set<string>, fields: map<string, Value>, depth: nat)
    requires Depth(Obj(fields)) <= depth
    requires Callable(program.Keys, FieldSpec(entry)) && Agrees(program, accepts, depth)
    ensures Eval(program, FieldGuard(name, entry, required), map["value" := Plain(Obj(fields))], depth)
            == Some(FieldAccepts(accepts, name, entry, required, Lookup(fields, name)))
  {
    var env := map["value" := Plain(Obj(fields))];
    var member := Member(Var("value"), name);
    var w := Lookup(fields, name);
    assert EvalExpr(Var("value"), env) == Some(Plain(Obj(fields)));
    assert EvalExpr(member, env) == Some(w);
    assert name in fields ==> Depth(Obj(fields).fields[name]) < Depth(Obj(fields));
    CheckMeansShape(program, accepts, member, FieldSpec(entry), env, w, depth);
    assert Eval(program, IsUndefined(member), env, depth) == Some(w == Undefined);
  }

  lemma AllFieldsCons(accepts: (string, Js) -> bool, properties: seq<(string, Schema)>,
                      required: set<string>, fields: map<string, Value>)
    requires properties != []
    ensures AllFieldsAccept(accepts, properties, required, fields)
            <==> FieldAccepts(accepts, properties[0].0, properties[0].1, required, Lookup(fields, properties[0].0))
                 && AllFieldsAccept(accepts, properties[1..], required, fields)
  {
    var rest := properties[1..];
    if AllFieldsAccept(accepts, rest, required, fields) {
      forall i | 0 < i < |properties|
        ensures FieldAccepts(accepts, properties[i].0, properties[i].1, required, Lookup(fields, properties[i].0))
      {
        assert properties[i] == rest[i - 1];
      }
    }
    if AllFieldsAccept(accepts, properties, required, fields) {
      forall i | 0 <= i < |rest|
        ensures FieldAccepts(accepts, rest[i].0, rest[i].1, required, Lookup(fields, rest[i].0))
      {
        assert rest[i] == properties[i + 1];
      }
    }
  }

  lemma AndMeans(program: map<string, Guard>, left: Guard, right: Guard, env: map<string, Js>, l: bool, r: bool,
                 depth: nat)
    requires Eval(program, left, env, depth) == Some(l) && Eval(program, right, env, depth) == Some(r)
    ensures Eval(program, And(left, right), env, depth) == Some(l && r)
  {
  }

  lemma {:induction false} FieldsMean(program: map<string, Guard>, accepts: (string, Js) -> bool, acc: Guard,
                                      soFar: bool, properties: seq<(string, Schema)>, required: set<string>,
                                      fields: map<string, Value>, depth: nat)
    requires Depth(Obj(fields)) <= depth && Agrees(program, accepts, depth)
    requires forall i :: 0 <= i < |properties| ==> Callable(program.Keys, FieldSpec(properties[i].1))
    requires Eval(program, acc, map["value" := Plain(Obj(fields))], depth) == Some(soFar)
    ensures Eval(program, AndFields(acc, properties, required), map["value" := Plain(Obj(fields))], depth)
            == Some(soFar && AllFieldsAccept(accepts, properties, required, fields))
    decreases |properties|
  {
    if properties != [] {
      var (name, entry) := properties[0];
      var env := map["value" := Plain(Obj(fields))];
      var ok := FieldAccepts(accepts, name, entry, required, Lookup(fields, name));
      FieldMeans(program, accepts, name, entry, required, fields, depth);
      AndMeans(program, acc, FieldGuard(name, entry, required), env, soFar, ok, depth);
      FieldsMean(program, accepts, And(acc, FieldGuard(name, entry, required)), soFar && ok,
                 properties[1..], required, fields, depth);
      AllFieldsCons(accepts, properties, required, fields);
    }
  }

  lemma {:induction false} NonObjectFails(program: map<string, Guard>, acc: Guard, properties: seq<(string, Schema)>,
                                          required: set<string>, v: Js, depth: nat)
    requires Eval(program, acc, map["value" := v], depth) == Some(false)
    ensures Eval(program, AndFields(acc, properties, required), map["value" := v], depth) == Some(false)
    decreases |properties|
  {
    if properties != [] {
      NonObjectFails(program, And(acc, FieldGuard(properties[0].0, properties[0].1, required)), properties[1..],
                     required, v, depth);
    }
  }

  lemma ValidatorMeans(gathered: map<string, Schema>, accepts: (string, Js) -> bool, name: string, v: Js, depth: nat)
    requires Closed(gathered) && name in Program(gathered) && Agrees(Program(gathered), accepts, depth)
    requires JsDepth(v) <= depth + 1
    ensures Eval(Program(gathered), Program(gathered)[name], map["value" := v], depth)
            == Some(DefinitionAccepts(accepts, gathered[name], v))
  {
    var program := Program(gathered);
    var s := gathered[name];
    if s.enumValues.Some? {
      EqualsAnyMeans(program, s.enumValues.value, v, depth);
    } else {
      var start := IsObject(Var("value"));
      assert EvalExpr(Var("value"), map["value" := v]) == Some(v);
      assert Eval(program, start, map["value" := v], depth) == Some(JsObject(v));
      if JsObject(v) {
        assert v == Plain(Obj(v.value.fields));
        assert FieldsCallable(program.Keys, s);
        FieldsMean(program, accepts, start, true, Properties(s), s.required, v.value.fields, depth);
      } else {
        NonObjectFails(program, start, Properties(s), s.required, v, depth);
      }
    }
  }

  lemma CallUnfold(program: map<string, Guard>, name: string, e: Expr, env: map<string, Js>, v: Js, depth: nat)
    requires name in program && EvalExpr(e, env) == Some(v) && depth > 0
    ensures Eval(program, Call(name, e), env, depth) == Eval(program, program[name], map["value" := v], depth - 1)
  {
  }

  lemma CallMeans(gathered: map<string, Schema>, inner: (string, Js) -> bool, depth: nat, name: string, v: Js,
                  env: map<string, Js>, e: Expr)
    requires Closed(gathered) && depth > 0 && Agrees(Program(gathered), inner, depth - 1)
    requires name in Program(gathered) && JsDepth(v) <= depth && EvalExpr(e, env) == Some(v)
    ensures Eval(Program(gathered), Call(name, e), env, depth) == Some(DefinitionAccepts(inner, gathered[name], v))
  {
    CallUnfold(Program(gathered), name, e, env, v, depth);
    ValidatorMeans(gathered, inner, name, v, depth - 1);
  }

  /** The whole program of validators, recursive references included: every call ends and gives what the
      definitions directly mean, as soon as the permitted nesting covers the depth of the value. */
  lemma {:induction false} ProgramMeans(gathered: map<string, Schema>, depth: nat)
    requires Closed(gathered)
    ensures Agrees(Program(gathered), Accepter(gathered, depth), depth)
  {
    var program := Program(gathered);
    if depth > 0 {
      ProgramMeans(gathered, depth - 1);
    }
    forall name, v, env, e ensures CallAgrees(program, Accepter(gathered, depth), depth, name, v, env, e) {
      if name in program && JsDepth(v) <= depth && EvalExpr(e, env) == Some(v) {
        assert depth > 0;
        CallMeans(gathered, Accepter(gathered, depth - 1), depth, name, v, env, e);
      }
    }
  }

  ghost predicate SameAt(a: (string, Js) -> bool, b: (string, Js) -> bool, depth: nat, name: string, w: Js) {
    JsDepth(w) < depth ==> a(name, w) == b(name, w)
  }

  /** Two ways of accepting agree on all values of a smaller depth. */
  ghost predicate SameBelow(a: (string, Js) -> bool, b: (string, Js) -> bool, depth: nat) {
    forall name, w :: SameAt(a, b, depth, name, w)
  }

  lemma {:induction false} ShapeDependsOnDepth(a: (string, Js) -> bool, b: (string, Js) -> bool, definition: Schema,
                                               v: Js, depth: nat)
    requires SameBelow(a, b, depth) && JsDepth(v) < depth
    ensures Shape(a, definition, v) == Shape(b, definition, v)
    decreases definition
  {
    if definition.Keywords? {
      if RefName(definition.ref).Some? {
        assert SameAt(a, b, depth, RefName(definition.ref).value, v);
      }
      if v.Plain? && v.value.Arr? && definition.items.Some? {
        var inner := definition.items.value;
        forall x | x in v.value.items ensures Shape(a, inner, Plain(x)) == Shape(b, inner, Plain(x)) {
          ShapeDependsOnDepth(a, b, inner, Plain(x), depth);
        }
      }
      if v.Plain? && v.value.Obj? && definition.additional.Some? {
        var inner, fields := definition.additional.value, v.value.fields;
        forall k | k in fields ensures Shape(a, inner, Plain(fields[k])) == Shape(b, inner, Plain(fields[k])) {
          ShapeDependsOnDepth(a, b, inner, Plain(fields[k]), depth);
        }
      }
    }
  }

  lemma DefinitionDependsOnDepth(a: (string, Js) -> bool, b: (string, Js) -> bool, s: Schema, v: Js)
    requires s.Keywords? && SameBelow(a, b, JsDepth(v))
    ensures DefinitionAccepts(a, s, v) == DefinitionAccepts(b, s, v)
  {
    if s.enumValues.None? && JsObject(v) {
      forall i | 0 <= i < |Properties(s)|
        ensures var (name, entry) := Properties(s)[i]; var found := Lookup(v.value.fields, name);
                FieldAccepts(a, name, entry, s.required, found) == FieldAccepts(b, name, entry, s.required, found)
      {
        var found := Lookup(v.value.fields, Properties(s)[i].0);
        ShapeDependsOnDepth(a, b, FieldSpec(Properties(s)[i].1), found, JsDepth(v));
      }
    }
  }

  lemma {:induction false} AcceptsStable(gathered: map<string, Schema>, n: nat, m: nat, name: string, v: Js)
    requires JsDepth(v) <= n && JsDepth(v) <= m
    ensures AcceptsWithin(gathered, n, name, v) == AcceptsWithin(gathered, m, name, v)
    decreases n
  {
    var a, b := Accepter(gathered, n - 1), Accepter(gathered, m - 1);
    if name in gathered && gathered[name].Keywords? {
      forall other, w ensures SameAt(a, b, JsDepth(v), other, w) {
        if JsDepth(w) < JsDepth(v) {
          AcceptsStable(gathered, n - 1, m - 1, other, w);
        }
      }
      DefinitionDependsOnDepth(a, b, gathered[name], v);
    }
  }

  /** What the validator of a definition accepts. */
  ghost predicate Accepts(gathered: map<string, Schema>, name: string, v: Value) {
    AcceptsWithin(gathered, Depth(v) + 1, name, Plain(v))
  }

  lemma CallOnResponse(program: map<string, Guard>, accepts: (string, Js) -> bool, name: string, v: Js, depth: nat)
    requires Agrees(program, accepts, depth) && name in program && JsDepth(v) <= depth
    ensures Eval(program, Call(name, Var("response")), map["response" := v], depth) == Some(accepts(name, v))
  {
    assert EvalExpr(Var("response"), map["response" := v]) == Some(v);
    assert CallAgrees(program, accepts, depth, name, v, map["response" := v], Var("response"));
  }

  /** Running an emitted validator on any JSON value ends without failing, and the answer is what the
      definitions directly mean; by `AcceptsStable` it is the same for every sufficient `depth`. */
  lemma ValidatorsTotal(gathered: map<string, Schema>, name: string, v: Value, depth: nat)
    requires Closed(gathered) && name in Program(gathered) && depth > Depth(v)
    ensures Eval(Program(gathered), Call(name, Var("response")), map["response" := Plain(v)], depth)
            == Some(AcceptsWithin(gathered, depth, name, Plain(v)))
  {
    ProgramMeans(gathered, depth);
    CallOnResponse(Program(gathered), Accepter(gathered, depth), name, Plain(v), depth);
  }
}
