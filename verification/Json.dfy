/** JSON values, as both `serde_json::Value` and a parsed JavaScript value have them. */
module Json {
  import opened Wrappers

  datatype Value =
    | Null
    | Bool(b: bool)
    | Num(n: real)
    | Str(s: string)
    | Arr(items: seq<Value>)
    | Obj(fields: map<string, Value>)

  ghost function Largest(s: set<nat>): (m: nat)
    ensures forall n :: n in s ==> n <= m
  {
    if s == {} then 0
    else
      var x :| x in s;
      var rest := Largest(s - {x});
      assert forall n :: n in s ==> n == x || n in s - {x};
      if x > rest then x else rest
  }

  /** How deeply arrays and objects are nested, counting the value itself. */
  ghost function Depth(v: Value): (d: nat)
    ensures d >= 1
    ensures v.Arr? ==> forall i :: 0 <= i < |v.items| ==> Depth(v.items[i]) < d
    ensures v.Obj? ==> forall k :: k in v.fields ==> Depth(v.fields[k]) < d
  {
    match v
    case Arr(items) =>
      var depths := set i | 0 <= i < |items| :: Depth(items[i]);
      assert forall i :: 0 <= i < |items| ==> Depth(items[i]) in depths;
      1 + Largest(depths)
    case Obj(fields) =>
      var depths := set k | k in fields :: Depth(fields[k]);
      assert forall k :: k in fields ==> Depth(fields[k]) in depths;
      1 + Largest(depths)
    case _ => 1
  }

  /** The string stored under a key of an object, if there is one. */
  function StrAt(fields: map<string, Value>, key: string): Option<string> {
    if key in fields && fields[key].Str? then Some(fields[key].s) else None
  }
}
