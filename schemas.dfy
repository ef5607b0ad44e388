/** The part of Zod (version 4) the node layer uses: the base schemas its
    parameters and ports declare, the `.default`, `.optional` and `.array`
    wrappers, `z.object` and `z.record`, and `parse`. A parse that throws is a
    `Failure`; only the first issue is kept. */
module Schemas {
  import opened Wrappers
  import opened JsText
  import opened JsValues
  import opened Entries

  datatype Schema =
    | StringS(minLen: nat)                        // z.string(), .min(n)
    | NumberS(min: Option<int>, max: Option<int>)  // z.number(), .int(), .min, .max, .nonnegative
    | BooleanS                                    // z.boolean()
    | UnknownS                                    // z.unknown()
    | EnumS(options: seq<string>)                 // z.enum([...])
    | UrlS                                        // z.url()
    | JsonS                                       // z.json()
    | RecordS(valueSchema: Schema)                // z.record(z.string(), v)
    | ObjectS(shape: seq<(string, Schema)>)       // z.object(shape)
    | ArrayS(element: Schema)                     // s.array()
    | DefaultS(inner: Schema, defaultValue: Value) // s.default(v)
    | OptionalS(inner: Schema)                    // s.optional()

  datatype ParseError = InvalidType | TooSmall | TooBig | InvalidOption | InvalidFormat

  /** A URL scheme followed by ':' (the part of `new URL` that decides
      whether a string is absolute). */
  predicate IsAbsoluteUrl(s: string) {
    exists i :: 1 <= i < |s| && s[i] == ':' && IsSchemeStart(s[0]) && SchemeChars(s[..i])
  }

  predicate IsSchemeStart(c: char) { 'a' <= c <= 'z' || 'A' <= c <= 'Z' }

  predicate SchemeChars(s: string) {
    forall j :: 0 <= j < |s| ==> IsSchemeStart(s[j]) || IsDigit(s[j]) || s[j] == '+' || s[j] == '-' || s[j] == '.'
  }

  /** `z.json()`: strings, numbers, booleans, `null`, and arrays and plain
      objects of those. */
  predicate IsJson(v: Value) {
    match v
    case Undefined => false
    case Null => true
    case Bool(_) => true
    case Num(_) => true
    case Str(_) => true
    case Arr(items) => forall i :: 0 <= i < |items| ==> IsJson(items[i])
    case Obj(fields) => forall k :: k in fields ==> IsJson(fields[k])
  }

  /** Zod 4 lets `.optional()` hand `undefined` to an inner schema that
      accepts it on its own terms (a default or another optional). */
  predicate OptIn(s: Schema) {
    s.DefaultS? || s.OptionalS?
  }

  /** `schema.parse(v)`. Each base schema's check is a function of its own,
      so that unfolding `Parse` only names the check it dispatches to. */
  function Parse(s: Schema, v: Value): (r: Result<Value, ParseError>)
    decreases s, 2
  {
    match s
    case StringS(minLen) => ParseString(minLen, v)
    case NumberS(min, max) => ParseNumber(min, max, v)
    case BooleanS => if v.Bool? then Success(v) else Failure(InvalidType)
    case UnknownS => Success(v)
    case EnumS(options) => if v.Str? && v.s in options then Success(v) else Failure(InvalidOption)
    case UrlS => ParseUrl(v)
    case JsonS => if IsJson(v) then Success(v) else Failure(InvalidType)
    case RecordS(valueSchema) => ParseRecord(s, valueSchema, v)
    case ObjectS(shape) => ParseObjectValue(s, shape, v)
    case ArrayS(element) => ParseArray(s, element, v)
    case DefaultS(inner, defaultValue) =>
      if v == Undefined then Success(defaultValue) else Parse(inner, v)
    case OptionalS(inner) =>
      if v == Undefined && !OptIn(inner) then Success(Undefined) else Parse(inner, v)
  }

  function ParseString(minLen: nat, v: Value): (r: Result<Value, ParseError>)
    ensures r.Success? <==> v.Str? && |v.s| >= minLen
    ensures r.Success? ==> r.value == v
  {
    if !v.Str? then Failure(InvalidType)
    else if |v.s| < minLen then Failure(TooSmall)
    else Success(v)
  }

  function ParseNumber(min: Option<int>, max: Option<int>, v: Value): (r: Result<Value, ParseError>)
    ensures r.Success? <==> v.Num? && (min.Some? ==> v.n >= min.value) && (max.Some? ==> v.n <= max.value)
    ensures r.Success? ==> r.value == v
  {
    if !v.Num? then Failure(InvalidType)
    else if min.Some? && v.n < min.value then Failure(TooSmall)
    else if max.Some? && v.n > max.value then Failure(TooBig)
    else Success(v)
  }

  function ParseUrl(v: Value): (r: Result<Value, ParseError>)
    ensures r.Success? <==> v.Str? && IsAbsoluteUrl(v.s)
    ensures r.Success? ==> r.value == v
  {
    if !v.Str? then Failure(InvalidType)
    else if IsAbsoluteUrl(v.s) then Success(v)
    else Failure(InvalidFormat)
  }

  /** `z.record(z.string(), valueSchema)`: every value is parsed. */
  function ParseRecord(ghost parent: Schema, valueSchema: Schema, v: Value): Result<Value, ParseError>
    requires valueSchema < parent
    decreases parent, 1
  {
    if !v.Obj? then Failure(InvalidType)
    else if forall k :: k in v.fields ==> Parse(valueSchema, v.fields[k]).Success? then
      Success(Obj(map k | k in v.fields :: Parse(valueSchema, v.fields[k]).value))
    else Failure(InvalidType)
  }

  function ParseObjectValue(ghost parent: Schema, shape: seq<(string, Schema)>, v: Value): Result<Value, ParseError>
    requires forall i :: 0 <= i < |shape| ==> shape[i].1 < parent
    decreases parent, 1
  {
    if !v.Obj? then Failure(InvalidType)
    else
      var fields :- ParseShape(parent, shape, v.fields);
      Success(Obj(fields))
  }

  function ParseArray(ghost parent: Schema, element: Schema, v: Value): Result<Value, ParseError>
    requires element < parent
    decreases parent, 1
  {
    if !v.Arr? then Failure(InvalidType)
    else if forall i :: 0 <= i < |v.items| ==> Parse(element, v.items[i]).Success? then
      Success(Arr(seq(|v.items|, i requires 0 <= i < |v.items| => Parse(element, v.items[i]).value)))
    else Failure(InvalidType)
  }

  /** The keys of `z.object(shape)`: unknown keys are dropped; a key is in
      the output when the input has it or its parsed value is defined. */
  function ParseShape(ghost parent: Schema, shape: seq<(string, Schema)>, fields: map<string, Value>): Result<map<string, Value>, ParseError>
    requires forall i :: 0 <= i < |shape| ==> shape[i].1 < parent
    decreases parent, 0, |shape|
  {
    if shape == [] then Success(map[])
    else
      var key := shape[0].0;
      var value :- Parse(shape[0].1, Get(fields, key));
      var rest :- ParseShape(parent, shape[1..], fields);
      Success(if key in fields || value != Undefined then rest[key := value] else rest)
  }

  /** The value a field of the shape parses to, read from the input. */
  function FieldResult(shape: seq<(string, Schema)>, i: nat, fields: map<string, Value>): Result<Value, ParseError>
    requires i < |shape|
  {
    Parse(shape[i].1, Get(fields, shape[i].0))
  }

  /** A field the input object lacks is parsed as `undefined`. */
  lemma MissingField(shape: seq<(string, Schema)>, i: nat)
    requires i < |shape|
    ensures FieldResult(shape, i, map[]) == Parse(shape[i].1, Undefined)
  {
  }

  /** `z.object(shape)` accepts only objects and returns an object. */
  lemma ObjectResult(shape: seq<(string, Schema)>, v: Value)
    ensures Parse(ObjectS(shape), v).Success? ==> v.Obj? && Parse(ObjectS(shape), v).value.Obj?
  {
    assert forall i :: 0 <= i < |shape| ==> shape[i].1 < ObjectS(shape);
    assert Parse(ObjectS(shape), v) == ParseObjectValue(ObjectS(shape), shape, v);
  }

  /** `z.object(shape).parse(obj)` succeeds exactly when every declared
      field parses. */
  lemma {:induction false} ParseShapeSucceeds(parent: Schema, shape: seq<(string, Schema)>, fields: map<string, Value>)
    requires forall i :: 0 <= i < |shape| ==> shape[i].1 < parent
    ensures ParseShape(parent, shape, fields).Success? <==>
      forall i :: 0 <= i < |shape| ==> FieldResult(shape, i, fields).Success?
    decreases |shape|
  {
    if shape != [] {
      var tail := shape[1..];
      ParseShapeSucceeds(parent, tail, fields);
      assert forall i :: 0 <= i < |tail| ==> FieldResult(tail, i, fields) == FieldResult(shape, i + 1, fields);
      if forall i :: 0 <= i < |shape| ==> FieldResult(shape, i, fields).Success? {
        assert forall i :: 0 <= i < |tail| ==> FieldResult(tail, i, fields).Success? by {
          forall i | 0 <= i < |tail| ensures FieldResult(tail, i, fields).Success? {
            assert FieldResult(shape, i + 1, fields).Success?;
          }
        }
        assert FieldResult(shape, 0, fields).Success?;
      } else if FieldResult(shape, 0, fields).Success? {
        var j :| 0 <= j < |shape| && !FieldResult(shape, j, fields).Success?;
        assert !FieldResult(tail, j - 1, fields).Success?;
      }
    }
  }

  /** The output of a successful `z.object(shape).parse(obj)` holds each
      declared key that the input has or whose parsed value is defined,
      mapped to that parsed value, and nothing else. */
  lemma {:induction false} ParseShapeOutput(parent: Schema, shape: seq<(string, Schema)>, fields: map<string, Value>)
    requires forall i :: 0 <= i < |shape| ==> shape[i].1 < parent
    requires Distinct(Keys(shape))
    requires ParseShape(parent, shape, fields).Success?
    ensures var out := ParseShape(parent, shape, fields).value;
      && (forall k :: k in out ==> k in Keys(shape))
      && (forall i :: 0 <= i < |shape| ==>
            && FieldResult(shape, i, fields).Success?
            && (shape[i].0 in out <==> shape[i].0 in fields || FieldResult(shape, i, fields).value != Undefined)
            && (shape[i].0 in out ==> out[shape[i].0] == FieldResult(shape, i, fields).value))
    decreases |shape|
  {
    ParseShapeSucceeds(parent, shape, fields);
    if shape != [] {
      var tail := shape[1..];
      assert Keys(tail) == Keys(shape)[1..];
      ParseShapeOutput(parent, tail, fields);
      var out := ParseShape(parent, shape, fields).value;
      forall i | 0 <= i < |shape|
        ensures (shape[i].0 in out <==> shape[i].0 in fields || FieldResult(shape, i, fields).value != Undefined)
        ensures (shape[i].0 in out ==> out[shape[i].0] == FieldResult(shape, i, fields).value)
      {
        if i > 0 {
          assert Keys(shape)[i] != Keys(shape)[0];
          assert shape[i] == tail[i - 1];
          assert FieldResult(tail, i - 1, fields) == FieldResult(shape, i, fields);
        }
      }
    }
  }

  /** `z.object(shape).parse` on a plain object is the field-by-field
      parse of its shape. */
  lemma ParseObject(shape: seq<(string, Schema)>, fields: map<string, Value>)
    ensures forall i :: 0 <= i < |shape| ==> shape[i].1 < ObjectS(shape)
    ensures Parse(ObjectS(shape), Obj(fields)).Success? <==> ParseShape(ObjectS(shape), shape, fields).Success?
    ensures Parse(ObjectS(shape), Obj(fields)).Success? ==>
      Parse(ObjectS(shape), Obj(fields)).value == Obj(ParseShape(ObjectS(shape), shape, fields).value)
  {
  }

  /** `z.object(shape).parse(obj)` succeeds exactly when every declared
      field accepts what the object holds under its key. */
  lemma {:induction false} ObjectAccepted(shape: seq<(string, Schema)>, fields: map<string, Value>)
    ensures Parse(ObjectS(shape), Obj(fields)).Success? <==>
      forall i :: 0 <= i < |shape| ==> Parse(shape[i].1, Get(fields, shape[i].0)).Success?
  {
    ParseObject(shape, fields);
    ParseShapeSucceeds(ObjectS(shape), shape, fields);
    assert forall i :: 0 <= i < |shape| ==> FieldResult(shape, i, fields) == Parse(shape[i].1, Get(fields, shape[i].0));
  }

  /** Reading a declared key of a parsed object gives that field's parsed
      value (`undefined` reads the same whether stored or left out). */
  lemma {:induction false} ObjectFieldRead(shape: seq<(string, Schema)>, fields: map<string, Value>, i: nat)
    requires Distinct(Keys(shape)) && i < |shape|
    requires Parse(ObjectS(shape), Obj(fields)).Success?
    ensures Parse(ObjectS(shape), Obj(fields)).value.Obj?
    ensures Parse(shape[i].1, Get(fields, shape[i].0)).Success?
    ensures Get(Parse(ObjectS(shape), Obj(fields)).value.fields, shape[i].0) == Parse(shape[i].1, Get(fields, shape[i].0)).value
  {
    ParseObject(shape, fields);
    ParseShapeOutput(ObjectS(shape), shape, fields);
    assert FieldResult(shape, i, fields) == Parse(shape[i].1, Get(fields, shape[i].0));
  }

  /** A five-field `z.object` with distinct keys: accepted exactly when each
      field accepts what the input holds under its key, and each key of
      the output reads as that field's parsed value. */
  lemma {:induction false} FiveFieldObject(k0: string, s0: Schema, k1: string, s1: Schema, k2: string, s2: Schema,
                                           k3: string, s3: Schema, k4: string, s4: Schema, fields: map<string, Value>)
    requires Distinct([k0, k1, k2, k3, k4])
    ensures var r := Parse(ObjectS([(k0, s0), (k1, s1), (k2, s2), (k3, s3), (k4, s4)]), Obj(fields));
      r.Success? <==>
        && Parse(s0, Get(fields, k0)).Success? && Parse(s1, Get(fields, k1)).Success?
        && Parse(s2, Get(fields, k2)).Success? && Parse(s3, Get(fields, k3)).Success?
        && Parse(s4, Get(fields, k4)).Success?
    ensures var r := Parse(ObjectS([(k0, s0), (k1, s1), (k2, s2), (k3, s3), (k4, s4)]), Obj(fields));
      r.Success? ==>
        && r.value.Obj?
        && Get(r.value.fields, k0) == Parse(s0, Get(fields, k0)).value
        && Get(r.value.fields, k1) == Parse(s1, Get(fields, k1)).value
        && Get(r.value.fields, k2) == Parse(s2, Get(fields, k2)).value
        && Get(r.value.fields, k3) == Parse(s3, Get(fields, k3)).value
        && Get(r.value.fields, k4) == Parse(s4, Get(fields, k4)).value
  {
    var shape := [(k0, s0), (k1, s1), (k2, s2), (k3, s3), (k4, s4)];
    assert Keys(shape) == [k0, k1, k2, k3, k4];
    ObjectAccepted(shape, fields);
    var ok := Parse(s0, Get(fields, k0)).Success? && Parse(s1, Get(fields, k1)).Success?
      && Parse(s2, Get(fields, k2)).Success? && Parse(s3, Get(fields, k3)).Success?
      && Parse(s4, Get(fields, k4)).Success?;
    if ok {
      forall i | 0 <= i < |shape| ensures Parse(shape[i].1, Get(fields, shape[i].0)).Success? {
        if i == 0 {} else if i == 1 {} else if i == 2 {} else if i == 3 {} else {}
      }
      ObjectFieldRead(shape, fields, 0);
      ObjectFieldRead(shape, fields, 1);
      ObjectFieldRead(shape, fields, 2);
      ObjectFieldRead(shape, fields, 3);
      ObjectFieldRead(shape, fields, 4);
    } else {
      assert !Parse(shape[0].1, Get(fields, shape[0].0)).Success? || !Parse(shape[1].1, Get(fields, shape[1].0)).Success?
        || !Parse(shape[2].1, Get(fields, shape[2].0)).Success? || !Parse(shape[3].1, Get(fields, shape[3].0)).Success?
        || !Parse(shape[4].1, Get(fields, shape[4].0)).Success?;
    }
  }

  /** The same for a three-field `z.object`. */
  lemma {:induction false} ThreeFieldObject(k0: string, s0: Schema, k1: string, s1: Schema, k2: string, s2: Schema, fields: map<string, Value>)
    requires k0 != k1 && k0 != k2 && k1 != k2
    ensures var r := Parse(ObjectS([(k0, s0), (k1, s1), (k2, s2)]), Obj(fields));
      r.Success? <==>
        Parse(s0, Get(fields, k0)).Success? && Parse(s1, Get(fields, k1)).Success? && Parse(s2, Get(fields, k2)).Success?
    ensures var r := Parse(ObjectS([(k0, s0), (k1, s1), (k2, s2)]), Obj(fields));
      r.Success? ==>
        && r.value.Obj?
        && Get(r.value.fields, k0) == Parse(s0, Get(fields, k0)).value
        && Get(r.value.fields, k1) == Parse(s1, Get(fields, k1)).value
        && Get(r.value.fields, k2) == Parse(s2, Get(fields, k2)).value
  {
    var shape := [(k0, s0), (k1, s1), (k2, s2)];
    assert Keys(shape) == [k0, k1, k2];
    ObjectAccepted(shape, fields);
    if Parse(s0, Get(fields, k0)).Success? && Parse(s1, Get(fields, k1)).Success? && Parse(s2, Get(fields, k2)).Success? {
      forall i | 0 <= i < |shape| ensures Parse(shape[i].1, Get(fields, shape[i].0)).Success? {
        if i == 0 {} else if i == 1 {} else {}
      }
      ObjectFieldRead(shape, fields, 0);
      ObjectFieldRead(shape, fields, 1);
      ObjectFieldRead(shape, fields, 2);
    } else {
      assert !Parse(shape[0].1, Get(fields, shape[0].0)).Success? || !Parse(shape[1].1, Get(fields, shape[1].0)).Success?
        || !Parse(shape[2].1, Get(fields, shape[2].0)).Success?;
    }
  }

  /** The keys a three-field `z.object` keeps from `{}`: those whose field
      turns `undefined` into a defined value. */
  lemma {:induction false} ThreeFieldEmpty(k0: string, s0: Schema, k1: string, s1: Schema, k2: string, s2: Schema)
    requires k0 != k1 && k0 != k2 && k1 != k2
    requires Parse(s0, Undefined).Success? && Parse(s1, Undefined).Success? && Parse(s2, Undefined).Success?
    ensures Parse(ObjectS([(k0, s0), (k1, s1), (k2, s2)]), Obj(map[])).Success?
    ensures var out := Parse(ObjectS([(k0, s0), (k1, s1), (k2, s2)]), Obj(map[])).value;
      && out.Obj?
      && forall k :: k in out.fields <==>
           (k == k0 && Parse(s0, Undefined).value != Undefined)
           || (k == k1 && Parse(s1, Undefined).value != Undefined)
           || (k == k2 && Parse(s2, Undefined).value != Undefined)
  {
    var shape := [(k0, s0), (k1, s1), (k2, s2)];
    assert Keys(shape) == [k0, k1, k2];
    ThreeFieldObject(k0, s0, k1, s1, k2, s2, map[]);
    EmptyObjectOutput(shape);
    assert shape[0] == (k0, s0) && shape[1] == (k1, s1) && shape[2] == (k2, s2);
  }

  /** The same for a two-field `z.object`. */
  lemma {:induction false} TwoFieldObject(k0: string, s0: Schema, k1: string, s1: Schema, fields: map<string, Value>)
    requires k0 != k1
    ensures var r := Parse(ObjectS([(k0, s0), (k1, s1)]), Obj(fields));
      r.Success? <==> Parse(s0, Get(fields, k0)).Success? && Parse(s1, Get(fields, k1)).Success?
    ensures var r := Parse(ObjectS([(k0, s0), (k1, s1)]), Obj(fields));
      r.Success? ==>
        && r.value.Obj?
        && Get(r.value.fields, k0) == Parse(s0, Get(fields, k0)).value
        && Get(r.value.fields, k1) == Parse(s1, Get(fields, k1)).value
  {
    var shape := [(k0, s0), (k1, s1)];
    assert Keys(shape) == [k0, k1];
    ObjectAccepted(shape, fields);
    if Parse(s0, Get(fields, k0)).Success? && Parse(s1, Get(fields, k1)).Success? {
      forall i | 0 <= i < |shape| ensures Parse(shape[i].1, Get(fields, shape[i].0)).Success? {
        if i == 0 {} else {}
      }
      ObjectFieldRead(shape, fields, 0);
      ObjectFieldRead(shape, fields, 1);
    } else {
      assert !Parse(shape[0].1, Get(fields, shape[0].0)).Success? || !Parse(shape[1].1, Get(fields, shape[1].0)).Success?;
    }
  }

  /** `z.object(shape).parse({})` succeeds exactly when every field accepts
      `undefined`. */
  lemma {:induction false} EmptyObjectAccepted(shape: seq<(string, Schema)>)
    ensures Parse(ObjectS(shape), Obj(map[])).Success? <==>
      forall i :: 0 <= i < |shape| ==> Parse(shape[i].1, Undefined).Success?
  {
    ParseObject(shape, map[]);
    ParseShapeSucceeds(ObjectS(shape), shape, map[]);
    forall i | 0 <= i < |shape| ensures FieldResult(shape, i, map[]) == Parse(shape[i].1, Undefined) {
      MissingField(shape, i);
    }
  }

  /** The fields `z.object(shape)` builds from `{}`: those whose schema
      turns `undefined` into a defined value, with that value. */
  lemma {:induction false} EmptyShapeOutput(shape: seq<(string, Schema)>)
    requires forall i :: 0 <= i < |shape| ==> shape[i].1 < ObjectS(shape)
    requires Distinct(Keys(shape))
    requires ParseShape(ObjectS(shape), shape, map[]).Success?
    ensures var out := ParseShape(ObjectS(shape), shape, map[]).value;
      && (forall k :: k in out ==> k in Keys(shape))
      && (forall i :: 0 <= i < |shape| ==>
            && Parse(shape[i].1, Undefined).Success?
            && (shape[i].0 in out <==> Parse(shape[i].1, Undefined).value != Undefined)
            && (shape[i].0 in out ==> out[shape[i].0] == Parse(shape[i].1, Undefined).value))
  {
    ParseShapeOutput(ObjectS(shape), shape, map[]);
    forall i | 0 <= i < |shape| ensures FieldResult(shape, i, map[]) == Parse(shape[i].1, Undefined) {
      MissingField(shape, i);
    }
  }

  /** What a successful `z.object(shape).parse({})` holds. */
  lemma {:induction false} EmptyObjectOutput(shape: seq<(string, Schema)>)
    requires Distinct(Keys(shape))
    requires Parse(ObjectS(shape), Obj(map[])).Success?
    ensures var out := Parse(ObjectS(shape), Obj(map[])).value;
      && out.Obj?
      && (forall k :: k in out.fields ==> k in Keys(shape))
      && (forall i :: 0 <= i < |shape| ==>
            && Parse(shape[i].1, Undefined).Success?
            && (shape[i].0 in out.fields <==> Parse(shape[i].1, Undefined).value != Undefined)
            && (shape[i].0 in out.fields ==> out.fields[shape[i].0] == Parse(shape[i].1, Undefined).value))
  {
    ParseObject(shape, map[]);
    EmptyShapeOutput(shape);
  }

  /** `.default(d)`: `undefined` becomes `d`, anything else is checked by
      the inner schema. */
  lemma DefaultSemantics(inner: Schema, d: Value, v: Value)
    ensures Parse(DefaultS(inner, d), v) == if v == Undefined then Success(d) else Parse(inner, v)
  {
  }

  /** `.optional()` accepts `undefined` whatever the inner schema, and is
      the inner schema on every other value. */
  lemma OptionalSemantics(inner: Schema, v: Value)
    ensures Parse(OptionalS(inner), Undefined).Success?
    ensures !OptIn(inner) ==> Parse(OptionalS(inner), Undefined) == Success(Undefined)
    ensures v != Undefined ==> Parse(OptionalS(inner), v) == Parse(inner, v)
  {
  }

  /** `.array()` accepts exactly the arrays whose every element the element
      schema accepts, and returns them element by element. */
  lemma ArraySemantics(element: Schema, items: seq<Value>)
    ensures Parse(ArrayS(element), Arr(items)).Success? <==>
      forall i :: 0 <= i < |items| ==> Parse(element, items[i]).Success?
    ensures Parse(ArrayS(element), Arr(items)).Success? ==>
      var out := Parse(ArrayS(element), Arr(items)).value;
      out.Arr? && |out.items| == |items|
      && forall i :: 0 <= i < |items| ==> out.items[i] == Parse(element, items[i]).value
  {
  }
}
