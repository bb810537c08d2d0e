/** JavaScript values as the extension sees them after JSON.parse, with the
    few JavaScript operators the core applies to them: truthiness, property
    access `v[key]`, optional chaining `v?.key` and the `||` fallback. */
module JsValue {

  datatype Option<+T> = None | Some(value: T)

  /** A parsed JSON value. JSON numbers are modelled as integers. Object
      fields keep their textual order; a repeated key resolves to its last
      occurrence, as JSON.parse does. */
  datatype Json =
    | JNull
    | JBool(b: bool)
    | JNum(n: int)
    | JStr(s: string)
    | JArr(items: seq<Json>)
    | JObj(fields: seq<Field>)

  /** One `key: value` member of an object. */
  datatype Field = Field(key: string, value: Json)

  /** JavaScript truthiness: null, false, 0 and "" are falsy (JSON has no NaN
      and no undefined); arrays and objects are always truthy. */
  predicate Truthy(v: Json) {
    match v
    case JNull => false
    case JBool(b) => b
    case JNum(n) => n != 0
    case JStr(s) => s != ""
    case JArr(_) => true
    case JObj(_) => true
  }

  /** `undefined` is None; a defined value is truthy when the value is. */
  predicate TruthyOpt(v: Option<Json>) {
    v.Some? && Truthy(v.value)
  }

  /** The value of the last field named `key`, if any. */
  function Lookup(fields: seq<Field>, key: string): (r: Option<Json>)
    ensures r.Some? <==> exists i :: 0 <= i < |fields| && fields[i].key == key
    ensures r.Some? ==> exists i :: 0 <= i < |fields| && fields[i] == Field(key, r.value)
  {
    if fields == [] then None
    else if fields[|fields| - 1].key == key then Some(fields[|fields| - 1].value)
    else Lookup(fields[..|fields| - 1], key)
  }

  /** `v[key]` for a key that is not an array index, not "length" and not an
      Object.prototype member: only objects have such a property. The caller
      has already checked that `v` is neither null nor undefined. */
  function Prop(v: Json, key: string): Option<Json> {
    match v
    case JObj(fields) => Lookup(fields, key)
    case _ => None
  }

  /** `v?.key`: undefined when `v` is null or undefined, else `v[key]`. */
  function OptProp(v: Option<Json>, key: string): Option<Json> {
    if v.None? || v.value == JNull then None else Prop(v.value, key)
  }

  /** `v?.k1?.k2?...`: optional chaining along a path of keys. */
  function OptChain(v: Option<Json>, keys: seq<string>): Option<Json>
    decreases |keys|
  {
    if keys == [] then v else OptChain(OptProp(v, keys[0]), keys[1..])
  }

  /** `v || dflt` */
  function Or(v: Option<Json>, dflt: Json): (r: Json)
    ensures Truthy(dflt) ==> Truthy(r)
    ensures TruthyOpt(v) ==> r == v.value
    ensures !TruthyOpt(v) ==> r == dflt
  {
    if TruthyOpt(v) then v.value else dflt
  }

  /** A size measure that strictly decreases from a value to every value
      stored in it. */
  function Size(v: Json): nat {
    match v
    case JArr(items) => 1 + SizeItems(items)
    case JObj(fields) => 1 + SizeFields(fields)
    case _ => 1
  }

  function SizeItems(items: seq<Json>): nat {
    if items == [] then 0 else SizeItems(items[..|items| - 1]) + Size(items[|items| - 1])
  }

  function SizeFields(fields: seq<Field>): nat {
    if fields == [] then 0 else SizeFields(fields[..|fields| - 1]) + Size(fields[|fields| - 1].value)
  }

  lemma {:induction false} LookupSmaller(fields: seq<Field>, key: string)
    requires Lookup(fields, key).Some?
    ensures Size(Lookup(fields, key).value) <= SizeFields(fields)
  {
    if fields[|fields| - 1].key != key {
      LookupSmaller(fields[..|fields| - 1], key);
    }
  }

  /** Every property of a value is strictly smaller than the value. */
  lemma PropSmaller(v: Json, key: string)
    requires Prop(v, key).Some?
    ensures Size(Prop(v, key).value) < Size(v)
  {
    LookupSmaller(v.fields, key);
  }

  lemma OptPropSmaller(v: Option<Json>, key: string)
    requires OptProp(v, key).Some?
    ensures v.Some? && Size(OptProp(v, key).value) < Size(v.value)
  {
    PropSmaller(v.value, key);
  }

  /** The field at `i` is found when no later field has the same key. */
  lemma {:induction false} LookupAt(fields: seq<Field>, key: string, i: nat)
    requires i < |fields| && fields[i].key == key
    requires forall j :: i < j < |fields| ==> fields[j].key != key
    ensures Lookup(fields, key) == Some(fields[i].value)
  {
    if i < |fields| - 1 {
      LookupAt(fields[..|fields| - 1], key, i);
    }
  }

  /** A one-field object, as written `{ key: v }`. */
  function Obj1(key: string, v: Json): (r: Json)
    ensures Prop(r, key) == Some(v)
    ensures Size(r) == Size(v) + 1
  {
    var r := JObj([Field(key, v)]);
    assert [Field(key, v)][..0] == [];
    assert SizeFields([Field(key, v)]) == SizeFields([]) + Size(v);
    r
  }

  /** The characters String.prototype.trim removes and the regular
      expression class `\s` matches: WhiteSpace and LineTerminator of
      ECMAScript (sections 12.2 and 12.3 of ECMA-262). */
  predicate IsJsSpace(c: char) {
    c == ' ' || c == '\t' || c == '\n' || c == '\r' || c == '\U{000B}' || c == '\U{000C}'
    || c == '\U{00A0}' || c == '\U{FEFF}' || c == '\U{1680}'
    || ('\U{2000}' <= c <= '\U{200A}')
    || c == '\U{2028}' || c == '\U{2029}' || c == '\U{202F}' || c == '\U{205F}' || c == '\U{3000}'
  }
}
