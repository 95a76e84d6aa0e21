/**
 * The JavaScript values that flow through the routers: request-body fields,
 * database row fields and the `||`, `??` and `String()` operations the
 * handlers apply to them. A JavaScript object (a request body or a row) is an
 * ordered list of distinct keys with their values, in `Object.keys` order.
 */
module Js {
  import opened Text

  /** Numbers are restricted to integers. */
  datatype Value = Undefined | Null | Str(s: string) | Num(n: int)

  /** JavaScript truthiness: `undefined`, `null`, `""` and `0` are falsy. */
  predicate Truthy(v: Value)
  {
    match v
    case Undefined => false
    case Null => false
    case Str(s) => s != ""
    case Num(n) => n != 0
  }

  /** The values `??` skips. */
  predicate Nullish(v: Value)
  {
    v.Undefined? || v.Null?
  }

  /** `a || b`. */
  function Or(a: Value, b: Value): Value
  {
    if Truthy(a) then a else b
  }

  /** `a ?? b`. */
  function Coalesce(a: Value, b: Value): Value
  {
    if Nullish(a) then b else a
  }

  /** `String(v)`. */
  function ToText(v: Value): string
  {
    match v
    case Undefined => "undefined"
    case Null => "null"
    case Str(s) => s
    case Num(n) => IntText(n)
  }

  predicate DistinctKeys(o: seq<(string, Value)>)
  {
    forall i, j :: 0 <= i < j < |o| ==> o[i].0 != o[j].0
  }

  /** A plain object: its own enumerable properties in `Object.keys` order. */
  type Obj = o: seq<(string, Value)> | DistinctKeys(o) witness []

  /** `Object.keys(o)`. */
  function Keys(o: Obj): (ks: seq<string>)
    ensures |ks| == |o|
    ensures forall i :: 0 <= i < |o| ==> ks[i] == o[i].0
  {
    seq(|o|, i requires 0 <= i < |o| => o[i].0)
  }

  /** `o[k]`: the value stored under `k`, or `undefined` when `o` has no such key. */
  function Get(o: Obj, k: string): (v: Value)
    ensures k !in Keys(o) ==> v == Undefined
    ensures forall i :: 0 <= i < |o| && o[i].0 == k ==> v == o[i].1
  {
    if o == [] then Undefined
    else if o[0].0 == k then o[0].1
    else
      assert Keys(o[1..]) == Keys(o)[1..];
      Get(o[1..], k)
  }

  /** The position of key `k` in `o`. */
  function IndexOf(o: Obj, k: string): (i: nat)
    requires k in Keys(o)
    ensures i < |o| && o[i].0 == k
  {
    if o[0].0 == k then 0
    else
      assert Keys(o[1..]) == Keys(o)[1..];
      1 + IndexOf(o[1..], k)
  }

  /**
   * `o[k] = v`: an existing key keeps its place and takes the new value; a
   * new key is added last.
   */
  function Put(o: Obj, k: string, v: Value): (r: Obj)
    ensures Get(r, k) == v
    ensures forall k' :: k' != k ==> Get(r, k') == Get(o, k')
    ensures Keys(r) == if k in Keys(o) then Keys(o) else Keys(o) + [k]
  {
    if k in Keys(o) then
      var i := IndexOf(o, k);
      var r: seq<(string, Value)> := o[i := (k, v)];
      assert Keys(r) == Keys(o);
      assert r[i] == (k, v);
      r
    else
      var r: seq<(string, Value)> := o + [(k, v)];
      assert Keys(r) == Keys(o) + [k];
      assert r[|o|] == (k, v);
      r
  }
}
