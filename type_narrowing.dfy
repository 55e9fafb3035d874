/**
 * Runtime type guards over dynamic JavaScript values
 * (src/common/utils/type-narrowing.ts).
 *
 * A guard is a total predicate on values. `Object.prototype.hasOwnProperty`,
 * `Array.isArray`, `Object.entries`, `typeof` and the array methods `every`
 * and `some` are given explicit definitions here.
 */
module TypeNarrowing {
  import opened Wrappers
  import opened Decimal

  /** A JavaScript value, as far as the guards can tell values apart. */
  datatype Value =
    | Undefined
    | Null
    | Bool(b: bool)
    | Num(n: int)
    | Str(s: string)
    | Arr(elems: seq<Value>)
    | Obj(fields: map<string, Value>)

  type Guard = Value -> bool

  /** The `typeof` operator on the values above. */
  function Typeof(v: Value): string {
    match v
    case Undefined => "undefined"
    case Bool(_) => "boolean"
    case Num(_) => "number"
    case Str(_) => "string"
    case _ => "object"
  }

  /** `typeof v === "object"`: true of null, arrays and plain objects. */
  predicate TypeofObject(v: Value) {
    Typeof(v) == "object"
  }

  /** The values TypeScript's `object` type admits: non-null objects. */
  predicate IsObjectLike(v: Value) {
    v.Arr? || v.Obj?
  }

  /** `Array.prototype.every`: true iff every element passes. */
  function Every<T>(s: seq<T>, p: T -> bool): (r: bool)
    ensures r <==> forall i :: 0 <= i < |s| ==> p(s[i])
    decreases |s|
  {
    if s == [] then true else p(s[0]) && Every(s[1..], p)
  }

  /** `Array.prototype.some`: true iff some element passes. */
  function Any<T>(s: seq<T>, p: T -> bool): (r: bool)
    ensures r <==> exists i :: 0 <= i < |s| && p(s[i])
    decreases |s|
  {
    if s == [] then false else p(s[0]) || Any(s[1..], p)
  }

  /** `every` with the index passed to the callback, from position `k` on. */
  function EveryIndexed<T>(s: seq<T>, p: (T, nat) -> bool, k: nat): (r: bool)
    ensures r <==> forall i :: k <= i < |s| ==> p(s[i], i)
    decreases |s| - k
  {
    if k >= |s| then true else p(s[k], k) && EveryIndexed(s, p, k + 1)
  }

  /** The index an array property key names: a canonical decimal numeral. */
  function ArrayIndex(key: string): (r: Option<nat>)
    ensures r.Some? ==> NatToString(r.value) == key
  {
    if Canonical(key) then
      CanonicalRoundTrip(key);
      Some(DigitsValue(key))
    else None
  }

  lemma ArrayIndexOfNumeral(i: nat)
    ensures ArrayIndex(NatToString(i)) == Some(i)
  {
    NatToStringRoundTrip(i);
  }

  /** `v[i]` on an array, reading positions past the end as undefined. */
  function ElementAt(elems: seq<Value>, i: nat): (r: Value)
    ensures i >= |elems| ==> r == Undefined
  {
    if i < |elems| then elems[i] else Undefined
  }

  /**
   * `Object.prototype.hasOwnProperty.call(val, key)`. A plain object owns its
   * fields; an array owns "length" and the numerals of its indices.
   */
  function HasOwnProperty(val: Value, key: string): (r: bool)
    requires IsObjectLike(val)
    ensures val.Obj? ==> (r <==> key in val.fields)
    ensures val.Arr? ==>
              (r <==> key == "length" || exists i :: 0 <= i < |val.elems| && key == NatToString(i))
  {
    match val
    case Obj(fields) => key in fields
    case Arr(elems) =>
      assert (exists i :: 0 <= i < |elems| && key == NatToString(i)) ==>
             ArrayIndex(key).Some? && ArrayIndex(key).value < |elems| by {
        forall i | 0 <= i < |elems| && key == NatToString(i)
          ensures ArrayIndex(key) == Some(i)
        {
          ArrayIndexOfNumeral(i);
        }
      }
      var isIndex := ArrayIndex(key).Some? && ArrayIndex(key).value < |elems|;
      assert isIndex ==> exists j :: 0 <= j < |val.elems| && key == NatToString(j) by {
        if isIndex {
          var i := ArrayIndex(key).value;
          assert 0 <= i < |val.elems| && key == NatToString(i);
        }
      }
      key == "length" || isIndex
  }

  /** `val[key]` for an own property `key`. */
  function OwnProperty(val: Value, key: string): Value
    requires IsObjectLike(val) && HasOwnProperty(val, key)
  {
    match val
    case Obj(fields) => fields[key]
    case Arr(elems) =>
      if key == "length" then Num(|elems|) else elems[ArrayIndex(key).value]
  }

  /** hasOwnProperty on an array, in terms of indices. */
  lemma ArrayOwnProperty(elems: seq<Value>, key: string)
    ensures HasOwnProperty(Arr(elems), key) <==>
            key == "length" || exists i :: 0 <= i < |elems| && key == NatToString(i)
    ensures forall i :: 0 <= i < |elems| && key == NatToString(i) ==>
              OwnProperty(Arr(elems), key) == elems[i]
  {
    if key != "length" && HasOwnProperty(Arr(elems), key) {
      var i := ArrayIndex(key).value;
      assert 0 <= i < |elems| && key == NatToString(i);
    }
    forall i | 0 <= i < |elems| && key == NatToString(i)
      ensures HasOwnProperty(Arr(elems), key) && OwnProperty(Arr(elems), key) == elems[i]
    {
      ArrayIndexOfNumeral(i);
    }
  }

  /** hasOwnProperties: every listed key is an own property (vacuous for none). */
  function HasOwnProperties(val: Value, keys: seq<string>): (r: bool)
    requires IsObjectLike(val)
    ensures r <==> forall i :: 0 <= i < |keys| ==> HasOwnProperty(val, keys[i])
    ensures keys == [] ==> r
  {
    Every(keys, key => HasOwnProperty(val, key))
  }

  /** hasTypedProperty: `key` is an own property and its value is valid. */
  function HasTypedProperty(val: Value, key: string, isValid: Guard): (r: bool)
    requires IsObjectLike(val)
    ensures val.Obj? ==> (r <==> key in val.fields && isValid(val.fields[key]))
  {
    HasOwnProperty(val, key) && isValid(OwnProperty(val, key))
  }

  /**
   * hasOptionalProperty: an absent key passes; a present one passes iff its
   * value is undefined or valid.
   */
  function HasOptionalProperty(val: Value, key: string, isValid: Guard): (r: bool)
    requires IsObjectLike(val)
    ensures !HasOwnProperty(val, key) ==> r
    ensures val.Obj? ==>
              (r <==> key !in val.fields || val.fields[key] == Undefined || isValid(val.fields[key]))
  {
    if HasOwnProperty(val, key) then
      OwnProperty(val, key).Undefined? || isValid(OwnProperty(val, key))
    else true
  }

  /** A property that passes hasTypedProperty also passes hasOptionalProperty. */
  lemma TypedImpliesOptional(val: Value, key: string, isValid: Guard)
    requires IsObjectLike(val)
    ensures HasTypedProperty(val, key, isValid) ==> HasOptionalProperty(val, key, isValid)
  {
  }

  /** isString, isBoolean, isNumber, isNull: one `typeof` or `===` test each. */
  function IsString(val: Value): (r: bool)
    ensures r <==> val.Str?
  {
    Typeof(val) == "string"
  }

  function IsBoolean(val: Value): (r: bool)
    ensures r <==> val.Bool?
  {
    Typeof(val) == "boolean"
  }

  function IsNumber(val: Value): (r: bool)
    ensures r <==> val.Num?
  {
    Typeof(val) == "number"
  }

  /** null is the one value `typeof` calls "object" that is not an object. */
  function IsNull(val: Value): (r: bool)
    ensures r <==> TypeofObject(val) && !IsObjectLike(val)
  {
    val == Null
  }

  /** isObject: `typeof val === "object"` and not null; arrays included. */
  function IsObject(val: Value): (r: bool)
    ensures r <==> TypeofObject(val) && !IsNull(val)
    ensures r <==> IsObjectLike(val)
  {
    TypeofObject(val) && val != Null
  }

  /**
   * The `typeof` and `=== null` guards sort every value into at most one
   * kind; undefined passes none of them.
   */
  lemma GuardsAreExclusive(val: Value)
    ensures (if IsString(val) then 1 else 0) + (if IsBoolean(val) then 1 else 0) +
            (if IsNumber(val) then 1 else 0) + (if IsNull(val) then 1 else 0) +
            (if IsObject(val) then 1 else 0) <= 1
    ensures val == Undefined ==>
              !IsString(val) && !IsBoolean(val) && !IsNumber(val) && !IsNull(val) && !IsObject(val)
  {
  }

  /** No value is both null and an object. */
  lemma NullIsNotObject(val: Value)
    ensures IsNull(val) ==> !IsObject(val)
  {
  }

  /**
   * isRecord: an object whose every `Object.entries` pair passes both guards.
   * The entries of an array are its index numerals with its elements.
   */
  function IsRecord(val: Value, isKey: Guard, isValue: Guard): (r: bool)
    ensures !IsObject(val) ==> !r
    ensures val == Obj(map[]) ==> r
    ensures val.Obj? ==>
              (r <==> forall k :: k in val.fields ==> isKey(Str(k)) && isValue(val.fields[k]))
    ensures val.Arr? ==>
              (r <==> forall i :: 0 <= i < |val.elems| ==>
                        isKey(Str(NatToString(i))) && isValue(val.elems[i]))
  {
    IsObject(val) &&
    match val
    case Obj(fields) => forall k :: k in fields ==> isKey(Str(k)) && isValue(fields[k])
    case Arr(elems) =>
      var entryOk := (e: Value, i: nat) => isKey(Str(NatToString(i))) && isValue(e);
      assert forall i :: 0 <= i < |elems| ==>
               entryOk(elems[i], i) == (isKey(Str(NatToString(i))) && isValue(elems[i]));
      EveryIndexed(elems, entryOk, 0)
  }

  /** isTypedArray: an array whose every element passes (the empty array does). */
  function IsTypedArray(val: Value, isEntry: Guard): (r: bool)
    ensures r <==> val.Arr? && forall i :: 0 <= i < |val.elems| ==> isEntry(val.elems[i])
    ensures val == Arr([]) ==> r
  {
    val.Arr? && Every(val.elems, isEntry)
  }

  /**
   * isTuple: an array no longer than the guard list, where guard `i` accepts
   * element `i` for every guard, positions past the end reading as undefined.
   */
  function IsTuple(src: Value, guards: seq<Guard>): (r: bool)
    ensures r <==> src.Arr? && |src.elems| <= |guards| &&
                   (forall i :: 0 <= i < |src.elems| ==> guards[i](src.elems[i])) &&
                   (forall i :: |src.elems| <= i < |guards| ==> guards[i](Undefined))
  {
    src.Arr? && |src.elems| <= |guards| &&
    var guardOk := (g: Guard, i: nat) => g(ElementAt(src.elems, i));
    assert forall i :: 0 <= i < |guards| ==> guardOk(guards[i], i) == guards[i](ElementAt(src.elems, i));
    EveryIndexed(guards, guardOk, 0)
  }

  /** bindTypeGuard(fn, args): the guard `x => fn(x, args)`. */
  function BindTypeGuard<A>(fn: (Value, A) -> bool, args: A): (g: Guard)
    ensures forall x :: g(x) == fn(x, args)
  {
    x => fn(x, args)
  }

  /** unionTypeGuard(...guards): accepts iff some guard accepts. */
  function UnionTypeGuard(guards: seq<Guard>): (g: Guard)
    ensures forall x :: g(x) <==> exists i :: 0 <= i < |guards| && guards[i](x)
  {
    x => Any(guards, (h: Guard) => h(x))
  }

  /** The union of no guards rejects everything. */
  lemma EmptyUnionRejects(x: Value)
    ensures !UnionTypeGuard([])(x)
  {
  }

  /** The union of two guard lists is the disjunction of their unions. */
  lemma {:induction false} UnionOfConcat(a: seq<Guard>, b: seq<Guard>, x: Value)
    ensures UnionTypeGuard(a + b)(x) == (UnionTypeGuard(a)(x) || UnionTypeGuard(b)(x))
  {
    if UnionTypeGuard(a + b)(x) {
      var i :| 0 <= i < |a + b| && (a + b)[i](x);
      if i < |a| {
        assert a[i](x);
      } else {
        assert b[i - |a|](x);
      }
    }
    if UnionTypeGuard(a)(x) {
      var i :| 0 <= i < |a| && a[i](x);
      assert (a + b)[i](x);
    }
    if UnionTypeGuard(b)(x) {
      var i :| 0 <= i < |b| && b[i](x);
      assert (a + b)[|a| + i](x);
    }
  }

  /**
   * An array checked with isRecord and a string key guard is checked exactly
   * as isTypedArray checks it: every index numeral is a string.
   */
  lemma ArrayRecordIsTypedArray(elems: seq<Value>, isValue: Guard)
    ensures IsRecord(Arr(elems), IsString, isValue) == IsTypedArray(Arr(elems), isValue)
  {
  }

  /** isTypedArray(v, g) agrees with isTuple against |v| copies of g. */
  lemma TypedArrayAsTuple(elems: seq<Value>, g: Guard)
    ensures IsTypedArray(Arr(elems), g) == IsTuple(Arr(elems), seq(|elems|, _ => g))
  {
  }
}
